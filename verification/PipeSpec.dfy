/** The data side of a transfer as a state machine over true times. */
module PipeSpec {
  import opened PollerTypes
  import opened Throttle

  datatype Mode = IDLE | GETTING | SLEEPING

  /** The bit that marks an event the pipe sends to itself. */
  const KICKSTART: int := 15  // 0x8000

  /** What getsockopt says of a connection that is being made; a failing getsockopt counts as refused. */
  datatype Socket = Connected | InProgress | Refused

  /** What handle_data_io returns: bytes read (none at the end of the transfer), nothing to read
      after all, or failure. */
  datatype Io = Bytes(n: nat) | WouldBlock | Failed

  /** What the handler of an event returns: go on, the data connection is finished, or give up.
      Aborts is the failure of the assertion on the descriptor, or on the state. */
  datatype Verdict = Fine | Finished | Broken | Aborts

  /** dfd is the data descriptor or -1, unslept the bytes carried, events the readiness kept while
      asleep, wake the time before which nothing is read, total the bytes read since start. */
  datatype Data = Data(
    mode: Mode, dfd: int, connecting: bool, unslept: nat, events: Bits, wake: int, total: nat, start: int)

  /** cleared is what the poller is told is not ready any more. */
  datatype Result = Result(data: Data, verdict: Verdict, cleared: Bits)

  function Acted(rate: nat, s: Data, revents: Bits, io: Io, now: int): Result
    requires rate > 0
  {
    if IN in revents && io == Failed then Result(s, Broken, {})
    else if (if IN in revents then io == Bytes(0) else HUP in revents) then
      Result(s.(mode := IDLE, dfd := -1), Finished, {})
    else
      var n := if IN in revents && io.Bytes? then io.n else 0;
      Result(s.(unslept := Carry(n + s.unslept, rate), wake := now + Throttle.Wait(n + s.unslept, rate),
                events := {}, total := s.total + n),
             Fine, if IN in revents && io == WouldBlock then {IN} else {})
  }

  predicate Urgent(revents: Bits) {
    HUP in revents || KICKSTART in revents
  }

  /** An event on a connected descriptor: asleep, or ready too early, it is only remembered. */
  function Heard(rate: nat, s: Data, revents: Bits, io: Io, now: int): Result
    requires rate > 0
  {
    if s.mode == SLEEPING || (now < s.wake && !Urgent(revents)) then
      Result(s.(mode := SLEEPING, events := s.events + revents), Fine, {})
    else Acted(rate, s, revents, io, now)
  }

  /** An event on the data descriptor: the pipe must not be idle, and a connection being made is
      looked at first. */
  function Notified(rate: nat, s: Data, revents: Bits, socket: Socket, io: Io, now: int): Result
    requires rate > 0
  {
    if s.mode == IDLE then Result(s, Aborts, {})
    else if !s.connecting || KICKSTART in revents then Heard(rate, s, revents, io, now)
    else match socket
      case Refused => Result(s, Broken, {})
      case InProgress =>
        var r := Heard(rate, s, revents, io, now);
        r.(cleared := r.cleared + {OUT})
      case Connected => Heard(rate, s.(connecting := false), revents, io, now)
  }

  /** The scheduler wakes the pipe at now: whatever was remembered is replayed as one event, which
      is handled a little later.  It cannot be if the descriptor has been closed meanwhile. */
  function Woken(rate: nat, s: Data, socket: Socket, io: Io, now: int, later: int): Result
    requires rate > 0
  {
    var t := s.(mode := GETTING, events := {});
    if s.events == {} then Result(t, Fine, {})
    else if s.dfd == -1 then Result(t.(wake := now), Aborts, {})
    else Notified(rate, t.(wake := now), s.events, socket, io, later)
  }

  // ---------- what an event does ----------

  /** The event is acted on, not kept for later: the pipe is awake, and it may read or must not wait. */
  predicate Handled(s: Data, revents: Bits, socket: Socket, now: int) {
    s.mode == GETTING && !Refuses(s, revents, socket) && (s.wake <= now || HUP in revents || KICKSTART in revents)
  }

  /** The connection in the making turns out to be refused. */
  predicate Refuses(s: Data, revents: Bits, socket: Socket) {
    s.mode != IDLE && s.connecting && KICKSTART !in revents && socket == Refused
  }

  /** The event ends the transfer: a read finds the end, or there is nothing to read and the other
      side has hung up. */
  predicate Ends(s: Data, revents: Bits, socket: Socket, io: Io, now: int) {
    Handled(s, revents, socket, now) && if IN in revents then io == Bytes(0) else HUP in revents
  }

  /** How many bytes the event brings. */
  function Brings(s: Data, revents: Bits, socket: Socket, io: Io, now: int): nat {
    if Handled(s, revents, socket, now) && IN in revents && io.Bytes? then io.n else 0
  }

  /** The verdict on an event, from the event alone. */
  lemma {:induction false} VerdictOnEvent(rate: nat, s: Data, revents: Bits, socket: Socket, io: Io, now: int)
    requires rate > 0
    ensures var v := Notified(rate, s, revents, socket, io, now).verdict;
            (v == Finished <==> Ends(s, revents, socket, io, now)) &&
            (v == Broken <==> Refuses(s, revents, socket) ||
                              (Handled(s, revents, socket, now) && IN in revents && io == Failed)) &&
            (v == Aborts <==> s.mode == IDLE)
    ensures var c := Notified(rate, s, revents, socket, io, now).cleared;
            c <= {IN, OUT} &&
            (IN in c <==> Handled(s, revents, socket, now) && IN in revents && io == WouldBlock) &&
            (OUT in c <==> s.mode != IDLE && s.connecting && KICKSTART !in revents && socket == InProgress)
  {
    hide Carry, Throttle.Wait;
  }

  /** What an event makes of the pipe: the transfer is over if and only if the event ends it; otherwise
      the pipe goes on with the bytes counted and the next wait reckoned, or falls asleep, or stays asleep
      with the event kept. */
  lemma {:induction false} StateAfterEvent(rate: nat, s: Data, revents: Bits, socket: Socket, io: Io, now: int)
    requires rate > 0 && s.mode != IDLE
    ensures var t := Notified(rate, s, revents, socket, io, now).data;
            t.start == s.start && t.total == s.total + Brings(s, revents, socket, io, now) &&
            (t.connecting <==> s.connecting && (KICKSTART in revents || socket != Connected)) &&
            (t.mode == IDLE <==> Ends(s, revents, socket, io, now)) &&
            t.dfd == (if Ends(s, revents, socket, io, now) then -1 else s.dfd) &&
            (t.mode == SLEEPING <==> s.mode == SLEEPING ||
                                     !(Handled(s, revents, socket, now) || Refuses(s, revents, socket)))
    ensures var t := Notified(rate, s, revents, socket, io, now).data;
            var n := s.unslept + Brings(s, revents, socket, io, now);
            if t.mode == GETTING && Handled(s, revents, socket, now) && !(IN in revents && io == Failed) then
              t.unslept == Carry(n, rate) && t.wake == now + Throttle.Wait(n, rate) && t.events == {}
            else
              && t.unslept == s.unslept && t.wake == s.wake
              && t.events == s.events + if t.mode == SLEEPING && !Refuses(s, revents, socket) then revents else {}
  {
    hide Carry, Throttle.Wait;
  }

  function Started(dfd: int, connecting: bool, now: int): Data {
    Data(GETTING, dfd, connecting, 0, {}, now, 0, now)
  }

  // ---------- runs ----------

  datatype Event =
    | Open(dfd: int, connecting: bool)
    | Close
    | Ready(revents: Bits, socket: Socket, io: Io, now: int)
    | Wake(socket: Socket, io: Io, now: int, later: int)

  /** Events that find the descriptor closed, or that wake a pipe that is not asleep, do not happen. */
  function Next(rate: nat, s: Data, e: Event): Data
    requires rate > 0
  {
    match e
    case Open(dfd, connecting) => s.(dfd := dfd, connecting := connecting)
    case Close => s.(dfd := -1, connecting := false)
    case Ready(revents, socket, io, now) =>
      if s.dfd == -1 then s else Notified(rate, s, revents, socket, io, now).data
    case Wake(socket, io, now, later) =>
      if s.mode == SLEEPING then Woken(rate, s, socket, io, now, later).data else s
  }

  function Run(rate: nat, s: Data, events: seq<Event>): Data
    requires rate > 0
  {
    if events == [] then s else Next(rate, Run(rate, s, events[..|events| - 1]), events[|events| - 1])
  }

  // ---------- how far a run is ahead of its rate ----------

  /** By how much a handler that runs at now comes before the time until which the pipe should wait. */
  function Ahead(wake: int, now: int): nat {
    if now < wake then wake - now else 0
  }

  /** How much too early e makes the pipe read: it only does so for a hangup or a kick, or when the
      scheduler wakes it before its time. */
  function EarlyBy(s: Data, e: Event): nat {
    match e
    case Ready(revents, _, _, now) =>
      if s.mode == GETTING && s.dfd != -1 && Urgent(revents) then Ahead(s.wake, now) else 0
    case Wake(_, _, now, later) =>
      if s.mode == SLEEPING && s.events != {} then
        Ahead(s.wake, now) + if Urgent(s.events) then Ahead(now, later) else 0
      else 0
    case _ => 0
  }

  function Early(rate: nat, s: Data, events: seq<Event>): nat
    requires rate > 0
  {
    if events == [] then 0
    else
      var n := |events| - 1;
      Early(rate, s, events[..n]) + EarlyBy(Run(rate, s, events[..n]), events[n])
  }

  /** On schedule, but for having read early by so many ticks in all. */
  ghost predicate OnTime(rate: nat, s: Data, early: nat) {
    OnSchedule(rate, s.total, s.unslept, s.start - early, s.wake)
  }

  lemma MoreEarly(rate: nat, s: Data, early: nat, d: nat)
    requires OnTime(rate, s, early)
    ensures OnTime(rate, s, early + d) && OnTime(rate, s.(wake := s.wake - d), early + d)
  {
    MulLe(s.wake - (s.start - early), s.wake - (s.start - early) + d, rate);
    Commute(rate, s.wake - (s.start - early));
    Commute(rate, s.wake - (s.start - early) + d);
  }

  lemma LaterWake(rate: nat, s: Data, early: nat, now: int)
    requires OnTime(rate, s, early) && s.wake <= now
    ensures OnTime(rate, s.(wake := now), early)
  {
    MulLe(s.wake - (s.start - early), now - (s.start - early), rate);
    Commute(rate, s.wake - (s.start - early));
    Commute(rate, now - (s.start - early));
  }

  lemma MoveWake(rate: nat, s: Data, early: nat, now: int)
    requires OnTime(rate, s, early)
    ensures OnTime(rate, s.(wake := now), early + Ahead(s.wake, now))
  {
    if now < s.wake {
      MoreEarly(rate, s, early, s.wake - now);
    } else {
      LaterWake(rate, s, early, now);
    }
  }

  lemma ActedStaysOnTime(rate: nat, s: Data, revents: Bits, io: Io, now: int, early: nat)
    requires rate > 0 && OnTime(rate, s, early) && s.wake <= now
    ensures OnTime(rate, Acted(rate, s, revents, io, now).data, early)
  {
    var n := if IN in revents && io.Bytes? then io.n else 0;
    ReckoningStaysOnSchedule(rate, s.total, s.unslept, s.start - early, s.wake, n, now);
    hide OnSchedule, Carry, Throttle.Wait;
  }

  lemma ActedIgnoresWake(rate: nat, s: Data, revents: Bits, io: Io, now: int, wake: int)
    requires rate > 0 && Acted(rate, s, revents, io, now).verdict == Fine
    ensures Acted(rate, s.(wake := wake), revents, io, now) == Acted(rate, s, revents, io, now)
  {
    hide Carry, Throttle.Wait;
  }

  lemma ActedOrLeft(rate: nat, s: Data, revents: Bits, io: Io, now: int)
    requires rate > 0
    ensures var r := Acted(rate, s, revents, io, now);
            r.verdict == Fine || r.data == s || r.data == s.(mode := IDLE, dfd := -1)
  {
    hide Carry, Throttle.Wait;
  }

  lemma HeardStaysOnTime(rate: nat, s: Data, revents: Bits, io: Io, now: int, early: nat)
    requires rate > 0 && OnTime(rate, s, early)
    ensures var d := if s.mode != SLEEPING && Urgent(revents) then Ahead(s.wake, now) else 0;
            OnTime(rate, Heard(rate, s, revents, io, now).data, early + d)
  {
    if s.mode != SLEEPING && (s.wake <= now || Urgent(revents)) {
      var d := Ahead(s.wake, now);
      MoreEarly(rate, s, early, d);
      MoveWake(rate, s, early, now);
      ActedOrLeft(rate, s, revents, io, now);
      hide OnSchedule, Acted;
      ActedStaysOnTime(rate, s.(wake := now), revents, io, now, early + d);
      if Acted(rate, s, revents, io, now).verdict == Fine {
        ActedIgnoresWake(rate, s, revents, io, now, now);
      }
    }
  }

  lemma NotifiedStaysOnTime(rate: nat, s: Data, revents: Bits, socket: Socket, io: Io, now: int, early: nat)
    requires rate > 0 && OnTime(rate, s, early)
    ensures var d := if s.mode == GETTING && Urgent(revents) then Ahead(s.wake, now) else 0;
            OnTime(rate, Notified(rate, s, revents, socket, io, now).data, early + d)
  {
    hide OnSchedule, Heard;
    HeardStaysOnTime(rate, s, revents, io, now, early);
    HeardStaysOnTime(rate, s.(connecting := false), revents, io, now, early);
    MoreEarly(rate, s, early, if s.mode != SLEEPING && Urgent(revents) then Ahead(s.wake, now) else 0);
  }

  lemma NextStaysOnTime(rate: nat, s: Data, e: Event, early: nat)
    requires rate > 0 && OnTime(rate, s, early)
    ensures OnTime(rate, Next(rate, s, e), early + EarlyBy(s, e))
  {
    hide OnSchedule, Notified;
    match e
    case Open(_, _) =>
    case Close =>
    case Ready(revents, socket, io, now) =>
      NotifiedStaysOnTime(rate, s, revents, socket, io, now, early);
    case Wake(socket, io, now, later) =>
      MoveWake(rate, s, early, now);
      var a := Ahead(s.wake, now);
      var t := s.(mode := GETTING, events := {}, wake := now);
      NotifiedStaysOnTime(rate, t, s.events, socket, io, later, early + a);
      MoreEarly(rate, t, early + a, if Urgent(s.events) then Ahead(now, later) else 0);
  }

  /** Over every run, with hangups and wakings at any time, the transfer is ahead of its rate by no
      more than the ticks by which it read early. */
  lemma {:induction false} RunStaysOnTime(rate: nat, s: Data, events: seq<Event>)
    requires rate > 0 && OnTime(rate, s, 0)
    ensures OnTime(rate, Run(rate, s, events), Early(rate, s, events))
  {
    if events != [] {
      var n := |events| - 1;
      RunStaysOnTime(rate, s, events[..n]);
      hide OnTime, Next, EarlyBy;
      NextStaysOnTime(rate, Run(rate, s, events[..n]), events[n], Early(rate, s, events[..n]));
    }
  }

  /** From get on, over every run, the bytes read are within the limit for the time up to the next
      permitted read and the ticks read early, plus one tick's bytes plus one. */
  lemma {:induction false} BytesBound(rate: nat, dfd: int, connecting: bool, t0: int, events: seq<Event>)
    requires rate > 0
    ensures var s := Started(dfd, connecting, t0);
            var t := Run(rate, s, events);
            HERTZ * t.total < rate * (t.wake - (t.start - Early(rate, s, events))) + rate + HERTZ &&
            HERTZ * t.unslept < rate + HERTZ
  {
    var s := Started(dfd, connecting, t0);
    assert OnTime(rate, s, 0);
    RunStaysOnTime(rate, s, events);
    var t := Run(rate, s, events);
    BytesWithinRate(rate, t.total, t.unslept, t.start - Early(rate, s, events), t.wake);
  }

  /** The scheduler wakes nobody early, and no event is urgent. */
  ghost predicate Punctual(rate: nat, s: Data, events: seq<Event>)
    requires rate > 0
  {
    forall k {:trigger events[k]} | 0 <= k < |events| ::
      match events[k]
      case Ready(revents, _, _, _) => !Urgent(revents)
      case Wake(_, _, now, _) => var t := Run(rate, s, events[..k]); t.mode == SLEEPING ==> t.wake <= now
      case _ => true
  }

  lemma CalmHeard(rate: nat, s: Data, revents: Bits, socket: Socket, io: Io, now: int)
    requires rate > 0 && !Urgent(s.events) && !Urgent(revents)
    ensures !Urgent(Notified(rate, s, revents, socket, io, now).data.events)
  {
    hide Carry, Throttle.Wait;
  }

  lemma CalmNext(rate: nat, s: Data, e: Event)
    requires rate > 0 && !Urgent(s.events) && (e.Ready? ==> !Urgent(e.revents))
    requires e.Wake? && s.mode == SLEEPING ==> s.wake <= e.now
    ensures !Urgent(Next(rate, s, e).events) && EarlyBy(s, e) == 0
  {
    match e
    case Open(_, _) =>
    case Close =>
    case Ready(revents, socket, io, now) =>
      CalmHeard(rate, s, revents, socket, io, now);
      hide Notified;
    case Wake(socket, io, now, later) =>
      CalmHeard(rate, s.(mode := GETTING, events := {}, wake := now), s.events, socket, io, later);
      hide Notified;
  }

  lemma {:induction false} PunctualIsNeverEarly(rate: nat, s: Data, events: seq<Event>)
    requires rate > 0 && !Urgent(s.events) && Punctual(rate, s, events)
    ensures Early(rate, s, events) == 0 && !Urgent(Run(rate, s, events).events)
  {
    if events != [] {
      var n := |events| - 1;
      assert forall k | 0 <= k < n :: events[..n][k] == events[k] && events[..n][..k] == events[..k];
      assert Punctual(rate, s, events[..n]);
      PunctualIsNeverEarly(rate, s, events[..n]);
      hide Next, EarlyBy, Urgent;
      CalmNext(rate, Run(rate, s, events[..n]), events[n]);
    }
  }

  /** From get on, over any run without hangups, the bytes read are within the limit for the time
      up to the next permitted read, plus one tick's bytes plus one. */
  lemma {:induction false} RateBound(rate: nat, dfd: int, connecting: bool, t0: int, events: seq<Event>)
    requires rate > 0 && Punctual(rate, Started(dfd, connecting, t0), events)
    ensures var s := Run(rate, Started(dfd, connecting, t0), events);
            HERTZ * s.total < rate * (s.wake - s.start) + rate + HERTZ && HERTZ * s.unslept < rate + HERTZ
  {
    PunctualIsNeverEarly(rate, Started(dfd, connecting, t0), events);
    BytesBound(rate, dfd, connecting, t0, events);
  }

  /** With one hangup the bound is exceeded: 1000 bytes at 10000 bytes a second, and another 1000 in
      the same tick because the other side has hung up. */
  lemma {:induction false} HangupExceedsRate() returns (rate: nat, events: seq<Event>)
    ensures rate > 0 && |events| == 2 && forall e | e in events :: e.Ready? && IN in e.revents && e.now == 0
    ensures HUP !in events[0].revents && HUP in events[1].revents
    ensures var s := Run(rate, Started(3, false, 0), events);
            s.mode == GETTING && HERTZ * s.total > rate * (s.wake - s.start) + rate + HERTZ
  {
    rate := 10000;
    var d := Ready({IN}, Connected, Bytes(1000), 0);
    var e := Ready({IN, HUP}, Connected, Bytes(1000), 0);
    events := [d, e];
    var s := Started(3, false, 0);
    assert events[..1] == [d] && [d][..0] == [];
    var t := Next(rate, s, d);
    assert Run(rate, s, [d]) == t;
    assert t.total == 1000 && t.wake == 1000 && t.mode == GETTING && t.dfd == 3;
    var u := Next(rate, t, e);
    assert Run(rate, s, events) == u;
  }

  // ---------- sleeping ----------

  /** Whether the connection is still being made after these events. */
  function StillConnecting(connecting: bool, events: seq<Event>): bool {
    if events == [] then connecting
    else
      var n := |events| - 1;
      var c := StillConnecting(connecting, events[..n]);
      match events[n]
      case Close => false
      case Ready(revents, socket, _, _) => c && (KICKSTART in revents || socket != Connected || Close in events[..n])
      case _ => c
  }

  /** An event that is lost, with an error: the connection turns out to be refused. */
  predicate Lost(connecting: bool, e: Event) {
    connecting && e.Ready? && KICKSTART !in e.revents && e.socket == Refused
  }

  /** The readiness reported before the descriptor is closed. */
  function AllReady(connecting: bool, events: seq<Event>): Bits {
    if events == [] then {}
    else
      var n := |events| - 1;
      var e := events[n];
      AllReady(connecting, events[..n]) +
      if e.Ready? && Close !in events[..n] && !Lost(StillConnecting(connecting, events[..n]), e) then e.revents else {}
  }

  /** Readiness events that find the pipe asleep are all kept, but for a refused connection, and
      nothing else changes. */
  lemma {:induction false} AsleepKeepsAll(rate: nat, s: Data, events: seq<Event>)
    requires rate > 0 && s.mode == SLEEPING && s.dfd != -1
    requires forall e | e in events :: e.Ready? || e.Close?
    ensures Run(rate, s, events) ==
            s.(events := s.events + AllReady(s.connecting, events), dfd := if Close in events then -1 else s.dfd,
               connecting := StillConnecting(s.connecting, events))
  {
    if events == [] {
      assert s.events + {} == s.events;
    } else {
      var n := |events| - 1;
      assert events[n] in events;
      assert events == events[..n] + [events[n]];
      AsleepKeepsAll(rate, s, events[..n]);
      hide Acted, Run;
      assert Run(rate, s, events) == Next(rate, Run(rate, s, events[..n]), events[n]) by { RunOne(rate, s, events); }
    }
  }

  lemma RunOne(rate: nat, s: Data, events: seq<Event>)
    requires rate > 0 && events != []
    ensures Run(rate, s, events) == Next(rate, Run(rate, s, events[..|events| - 1]), events[|events| - 1])
  {
  }

  /** Waking replays exactly the union of the readiness seen since the pipe fell asleep: the first
      event, which came before its time, and all that followed.  The program aborts if and only if
      there is something to replay and the descriptor has been closed. */
  lemma {:induction false} WakingReplaysUnion(rate: nat, s: Data, first: Event, more: seq<Event>,
      socket: Socket, io: Io, now: int, later: int)
    requires rate > 0 && s.mode == GETTING && s.events == {} && s.dfd != -1 && now <= later
    requires first.Ready? && first.now < s.wake && !Urgent(first.revents) && !Lost(s.connecting, first)
    requires forall e | e in more :: e.Ready? || e.Close?
    ensures var asleep := Run(rate, s, [first] + more);
            var c := StillConnecting(s.connecting, [first]);
            var all := first.revents + AllReady(c, more);
            var t := s.(dfd := if Close in more then -1 else s.dfd, connecting := StillConnecting(c, more));
            var woken := Woken(rate, asleep, socket, io, now, later);
            asleep == t.(mode := SLEEPING, events := all) &&
            (woken.verdict == Aborts <==> all != {} && Close in more) &&
            (all == {} ==> woken == Result(t, Fine, {})) &&
            (all != {} && Close !in more ==>
               woken == Notified(rate, t.(wake := now), all, socket, io, later) &&
               (!t.connecting ==> woken == Acted(rate, t.(wake := now), all, io, later)))
  {
    var t := Next(rate, s, first);
    assert s.events + first.revents == first.revents;
    assert [first][..0] == [] && Close !in [first][..0];
    assert t.connecting == StillConnecting(s.connecting, [first]);
    AsleepKeepsAll(rate, t, more);
    RunFrom(rate, s, first, more);
    var awake := t.(mode := GETTING, events := {}, wake := now, connecting := StillConnecting(t.connecting, more));
    AbortsIffIdle(rate, awake, first.revents + AllReady(t.connecting, more), socket, io, later);
    hide Carry, Throttle.Wait, Run, AllReady, StillConnecting;
  }

  lemma AbortsIffIdle(rate: nat, s: Data, revents: Bits, socket: Socket, io: Io, now: int)
    requires rate > 0
    ensures Notified(rate, s, revents, socket, io, now).verdict == Aborts <==> s.mode == IDLE
  {
    hide Carry, Throttle.Wait;
  }

  lemma {:induction false} RunFrom(rate: nat, s: Data, first: Event, more: seq<Event>)
    requires rate > 0
    ensures Run(rate, s, [first] + more) == Run(rate, Next(rate, s, first), more)
  {
    if more == [] {
      assert ([first] + more)[..0] == [] && [first] + more == [first];
    } else {
      var n := |more| - 1;
      assert ([first] + more)[..n + 1] == [first] + more[..n];
      RunFrom(rate, s, first, more[..n]);
    }
  }

  // ---------- the end of the transfer ----------

  /** The event that comes next ends the transfer, at once or when what was kept is replayed. */
  predicate EndsTransfer(s: Data, e: Event) {
    match e
    case Ready(revents, socket, io, now) => s.dfd != -1 && Ends(s, revents, socket, io, now)
    case Wake(socket, io, now, later) =>
      && s.mode == SLEEPING && s.dfd != -1 && s.events != {}
      && Ends(s.(mode := GETTING, wake := now), s.events, socket, io, later)
    case _ => false
  }

  lemma NextEnds(rate: nat, s: Data, e: Event)
    requires rate > 0
    ensures Next(rate, s, e).mode == IDLE <==> s.mode == IDLE || EndsTransfer(s, e)
  {
    hide Notified, Ends;
    match e
    case Ready(revents, socket, io, now) =>
      if s.mode == IDLE {
        IdleStays(rate, s, revents, socket, io, now);
      } else {
        StateAfterEvent(rate, s, revents, socket, io, now);
      }
    case Wake(socket, io, now, later) =>
      var t := s.(mode := GETTING, events := {}, wake := now);
      EndsWhateverIsKept(t, s.events, s.events, socket, io, later);
      StateAfterEvent(rate, t, s.events, socket, io, later);
    case _ =>
  }

  lemma EndsWhateverIsKept(s: Data, kept: Bits, revents: Bits, socket: Socket, io: Io, now: int)
    ensures Ends(s.(events := kept), revents, socket, io, now) <==> Ends(s, revents, socket, io, now)
  {
  }

  lemma IdleStays(rate: nat, s: Data, revents: Bits, socket: Socket, io: Io, now: int)
    requires rate > 0 && s.mode == IDLE
    ensures Notified(rate, s, revents, socket, io, now).data == s
  {
  }

  /** Over every run, a transfer is over if and only if some event has ended it: a read that found the
      end, or a hangup with nothing to read, on time or urgent or replayed on waking. */
  lemma {:induction false} OverIffSomeEventEnds(rate: nat, s: Data, events: seq<Event>)
    requires rate > 0 && s.mode != IDLE
    ensures Run(rate, s, events).mode == IDLE <==>
            exists k | 0 <= k < |events| :: EndsTransfer(Run(rate, s, events[..k]), events[k])
  {
    hide Next, EndsTransfer;
    if events != [] {
      var n := |events| - 1;
      OverIffSomeEventEnds(rate, s, events[..n]);
      RunOne(rate, s, events);
      NextEnds(rate, Run(rate, s, events[..n]), events[n]);
      hide Run;
      forall k | 0 <= k < n
        ensures EndsTransfer(Run(rate, s, events[..k]), events[k]) <==>
                EndsTransfer(Run(rate, s, events[..n][..k]), events[..n][k])
      {
        assert events[..n][..k] == events[..k];
      }
    }
  }

  // ---------- an idle pipe has no data connection ----------

  predicate IdleIsClosed(s: Data) {
    s.mode == IDLE ==> s.dfd == -1
  }

  /** The k-th event opens a data connection on an idle pipe, and none after it closes it. */
  predicate LeftOpenIdle(rate: nat, s: Data, events: seq<Event>, k: nat)
    requires rate > 0 && k < |events|
  {
    events[k].Open? && Run(rate, s, events[..k]).mode == IDLE && Close !in events[k + 1..]
  }

  lemma IdleOpenNext(rate: nat, s: Data, e: Event)
    requires rate > 0 && (e.Open? ==> e.dfd != -1)
    ensures !IdleIsClosed(Next(rate, s, e)) <==> (e.Open? && s.mode == IDLE) || (e != Close && !IdleIsClosed(s))
  {
    hide Carry, Throttle.Wait;
  }

  /** After any run without a new get, readiness of the data descriptor fails the assertion on the
      state if and only if the data connection was opened while the pipe was idle. */
  lemma {:induction false} ReadyAbortsIffOpenedIdle(rate: nat, s: Data, events: seq<Event>,
      revents: Bits, socket: Socket, io: Io, now: int)
    requires rate > 0 && IdleIsClosed(s) && forall e | e in events :: e.Open? ==> e.dfd != -1
    requires Run(rate, s, events).dfd != -1
    ensures Notified(rate, Run(rate, s, events), revents, socket, io, now).verdict == Aborts <==>
            exists k | 0 <= k < |events| :: LeftOpenIdle(rate, s, events, k)
  {
    AbortsIffIdle(rate, Run(rate, s, events), revents, socket, io, now);
    IdleOpenIffOpenedIdle(rate, s, events);
  }

  lemma {:induction false} IdleOpenIffOpenedIdle(rate: nat, s: Data, events: seq<Event>)
    requires rate > 0 && IdleIsClosed(s) && forall e | e in events :: e.Open? ==> e.dfd != -1
    ensures !IdleIsClosed(Run(rate, s, events)) <==>
            exists k | 0 <= k < |events| :: LeftOpenIdle(rate, s, events, k)
  {
    if events != [] {
      var n := |events| - 1;
      IdleOpenIffOpenedIdle(rate, s, events[..n]);
      IdleOpenNext(rate, Run(rate, s, events[..n]), events[n]);
      hide Next, IdleIsClosed;
      forall k | 0 <= k < n
        ensures LeftOpenIdle(rate, s, events, k) <==> LeftOpenIdle(rate, s, events[..n], k) && events[n] != Close
      {
        assert events[..n][..k] == events[..k];
        assert events[k + 1..] == events[..n][k + 1..] + [events[n]];
      }
      assert LeftOpenIdle(rate, s, events, n) <==> events[n].Open? && Run(rate, s, events[..n]).mode == IDLE;
    }
  }
}
