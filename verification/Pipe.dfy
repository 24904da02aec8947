/** The data side of ftp_client_pipe as an object that sleeps in the real scheduler.  Clock words
    wrap; ghost variables keep the true times they stand for. */
module Pipe {
  import opened EClock
  import opened PipeSpec
  import opened PollerTypes
  import opened Sked
  import opened SkedSpec
  import opened Throttle

  const TIMEOUT := 5 * HERTZ

  class Pipe {
    const m_sked: Sked
    const skc: SkedClient  // this pipe as a client of the scheduler
    const m_bytesPerSec: nat
    var m_state: Mode
    var m_cfd: int
    var m_dfd: int
    var m_dfd_connecting: bool
    var m_bytesUnsleptFor: nat
    var m_dfd_events: Bits
    var m_wakeup: int

    ghost var wakeAt: int  // the true time of m_wakeup
    ghost var clock: int  // the true time of the last event
    ghost var start: int  // when the current transfer began
    ghost var total: nat  // bytes read since

    ghost function Abs(): Data
      reads this
    {
      Data(m_state, m_dfd, m_dfd_connecting, m_bytesUnsleptFor, m_dfd_events, wakeAt, total, start)
    }

    /** q is the scheduler's queue.  A sleeping pipe is queued at m_wakeup; a pipe that is getting
        and still queued, for its timeout, has read nothing yet. */
    ghost predicate Consistent(q: map<SkedClient, int>)
      reads this
    {
      && 0 < m_sked.h && 0 < m_bytesPerSec && m_wakeup == Wrap(m_sked.h, wakeAt)
      && (m_state == SLEEPING ==> skc in q && q[skc] == m_wakeup)
      && (m_state == GETTING ==> m_dfd_events == {} && (skc in q ==> m_bytesUnsleptFor == 0 && wakeAt <= clock))
      && (m_state == IDLE && m_cfd != -1 ==> m_dfd_events == {})
    }

    ghost predicate Scheduled()
      reads m_sked, m_sked.m_records, m_sked.clients
    {
      m_sked.Valid() && skc in m_sked.clients
    }

    ghost predicate Valid()
      reads this, m_sked, m_sked.m_records, m_sked.clients
    {
      Scheduled() && Consistent(m_sked.Queue())
    }

    /** Everything the scheduler holds, and t, lies in the half of the clock that starts at base. */
    ghost predicate InView(base: int, t: int)
      requires Scheduled()
      reads m_sked, m_sked.m_records, m_sked.clients
    {
      QueueInWindow(m_sked.h, base, m_sked.Queue()) && InWindow(m_sked.h, base, t)
    }

    /** now is a true time, not before the last one and within half the clock's range of m_wakeup. */
    ghost predicate Follows(now: int)
      reads this
    {
      clock <= now && -m_sked.h < wakeAt - now < m_sked.h
    }

    /** init: not connected.  m_wakeup has no meaning before get sets it. */
    constructor (sked: Sked, client: SkedClient, maxBytesPerSec: nat)
      requires sked.Valid() && client in sked.clients && 0 < maxBytesPerSec && 0 < sked.h
      ensures Valid() && m_sked == sked && skc == client && m_state == IDLE && m_cfd == -1 && m_dfd == -1
    {
      m_sked, skc, m_bytesPerSec := sked, client, maxBytesPerSec;
      m_state, m_cfd, m_dfd, m_dfd_connecting, m_bytesUnsleptFor, m_dfd_events := IDLE, -1, -1, false, 0, {};
      m_wakeup := Wrap(sked.h, 0);
      wakeAt, clock, start, total := 0, 0, 0, 0;
    }

    /** Takes this pipe out of the scheduler, if it is there. */
    method Cancel(ghost base: int)
      requires Scheduled() && InView(base, m_wakeup)
      modifies m_sked`m_used, m_sked.m_records, m_sked.clients
      ensures Scheduled() && InView(base, m_wakeup) && m_sked.Queue() == old(m_sked.Queue()) - {skc}
    {
      WindowAfterRemoval(m_sked.h, base, m_sked.Queue(), skc);
      m_sked.DelClient(skc, base);
    }

    /** Puts this pipe into the scheduler. */
    method Schedule(when: int, ghost base: int)
      requires Scheduled() && skc !in m_sked.Queue() && InView(base, when)
      modifies m_sked, m_sked.m_records, m_sked.clients
      ensures Scheduled() && m_sked.Queue() == old(m_sked.Queue())[skc := when]
      ensures m_sked.clients == old(m_sked.clients)
      ensures m_sked.m_records == old(m_sked.m_records) || fresh(m_sked.m_records)
    {
      m_sked.AddClient(skc, when, base);
    }

    /** connect, once the socket is there: the session is aborted if nothing happens in time. */
    method Connect(cfd: int, word: int, ghost base: int)
      requires Valid() && cfd != -1 && skc !in m_sked.Queue() && InView(base, Wrap(m_sked.h, word + TIMEOUT))
      modifies this, m_sked, m_sked.m_records, m_sked.clients
      ensures Valid() && m_state == IDLE && m_cfd == cfd && m_dfd == -1
      ensures m_sked.Queue() == old(m_sked.Queue())[skc := Wrap(m_sked.h, word + TIMEOUT)]
    {
      hide InWindow, QueueInWindow, Wrap, Sked.Valid, Sked.Queue;
      m_state, m_cfd, m_dfd, m_dfd_connecting, m_dfd_events := IDLE, cfd, -1, false, {};
      Schedule(Wrap(m_sked.h, word + TIMEOUT), base);
    }

    /** A reply line arrives on the control connection. */
    method LineArrived(ghost base: int)
      requires Valid() && InView(base, m_wakeup)
      modifies m_sked`m_used, m_sked.m_records, m_sked.clients
      ensures Valid() && m_sked.Queue() == if m_state == IDLE then old(m_sked.Queue()) - {skc} else old(m_sked.Queue())
    {
      if m_state == IDLE {
        Cancel(base);
      }
    }

    /** get, once the protocol has accepted the command, in whatever state the last one left the pipe.
        It aborts if the pipe is scheduled, for addClient asserts that it is not, and if it has no
        control connection, for the event it sends itself must have a descriptor. */
    method Get(word: int, ghost now: int, ghost base: int) returns (aborts: bool)
      requires Valid() && word == Wrap(m_sked.h, now) && clock <= now
      requires InView(base, Wrap(m_sked.h, word + TIMEOUT))
      modifies `m_state, `m_bytesUnsleptFor, `m_wakeup, `wakeAt, `clock, `start, `total
      modifies m_sked, m_sked.m_records, m_sked.clients
      ensures Scheduled() && (aborts <==> skc in old(m_sked.Queue()) || m_cfd == -1)
      ensures skc in old(m_sked.Queue()) ==> m_sked.Queue() == old(m_sked.Queue())
      ensures skc !in old(m_sked.Queue()) ==>
                m_sked.Queue() == old(m_sked.Queue())[skc := Wrap(m_sked.h, word + TIMEOUT)]
      ensures m_sked.clients == old(m_sked.clients) &&
              (m_sked.m_records == old(m_sked.m_records) || fresh(m_sked.m_records))
      ensures !aborts ==> Valid() && Abs() == Started(m_dfd, m_dfd_connecting, now) && clock == now
      ensures m_state == GETTING && m_bytesUnsleptFor == 0 && m_wakeup == word
    {
      hide Wrap, InWindow, QueueInWindow, Sked.Valid, Sked.Queue;
      QueuedIffIndexed();
      if skc !in m_sked.Queue() && m_cfd != -1 {
        NoEventsKept();
      }
      m_state := GETTING;
      m_bytesUnsleptFor := 0;
      m_wakeup := word;
      wakeAt, clock, start, total := now, now, now, 0;
      if skc.skedIndex != 0 {
        return true;
      }
      Schedule(Wrap(m_sked.h, m_wakeup + TIMEOUT), base);
      return m_cfd == -1;
    }

    /** get, a reply that makes the command fail, and get again: the timeout of the first is still
        queued, since a reply cancels it only when the pipe is idle, and the program aborts. */
    method GetAfterFailedGet(word: int, ghost now: int, laterWord: int, ghost later: int, ghost base: int)
        returns (aborts: bool)
      requires Valid() && m_cfd != -1 && skc !in m_sked.Queue()
      requires word == Wrap(m_sked.h, now) && laterWord == Wrap(m_sked.h, later) && clock <= now <= later
      requires InView(base, word) && InView(base, Wrap(m_sked.h, word + TIMEOUT))
      requires InView(base, Wrap(m_sked.h, laterWord + TIMEOUT))
      modifies this, m_sked, m_sked.m_records, m_sked.clients
      ensures aborts
    {
      hide Wrap, InWindow, Sked.Valid, Sked.Queue;
      aborts := Get(word, now, base);
      LineArrived(base);
      CloseData(m_bytesPerSec);
      aborts := Get(laterWord, later, base);
    }

    lemma NoEventsKept()
      requires Valid() && skc !in m_sked.Queue() && m_cfd != -1
      ensures m_dfd_events == {}
    {
    }

    lemma QueuedIffIndexed()
      requires Scheduled()
      ensures skc in m_sked.Queue() <==> skc.skedIndex != 0
    {
    }

    /** The data connection is opened; it may take a while to be made. */
    method OpenData(dfd: int, connecting: bool, ghost rate: nat)
      requires Valid() && rate > 0
      modifies `m_dfd, `m_dfd_connecting
      ensures Valid() && Abs() == Next(rate, old(Abs()), Open(dfd, connecting))
    {
      m_dfd := dfd;
      m_dfd_connecting := connecting;
    }

    /** The command failed: the data connection is closed under the pipe, asleep or not. */
    method CloseData(ghost rate: nat)
      requires Valid() && rate > 0
      modifies `m_dfd, `m_dfd_connecting
      ensures Valid() && Abs() == Next(rate, old(Abs()), Close)
    {
      m_dfd_connecting := false;
      m_dfd := -1;
    }

    /** One reckoning: how long to wait for what was read and carried. */
    method Reckon(n: nat, word: int, ghost now: int)
      requires 0 < m_sked.h && 0 < m_bytesPerSec && word == Wrap(m_sked.h, now)
      modifies `m_bytesUnsleptFor, `m_wakeup, `m_dfd_events, `wakeAt, `total
      ensures m_bytesUnsleptFor == Carry(n + old(m_bytesUnsleptFor), m_bytesPerSec)
      ensures wakeAt == now + Throttle.Wait(n + old(m_bytesUnsleptFor), m_bytesPerSec) &&
              m_wakeup == Wrap(m_sked.h, wakeAt)
      ensures m_dfd_events == {} && total == old(total) + n
    {
      var nxfer: nat := n + m_bytesUnsleptFor;
      var howlong;
      PaidForIsRead(nxfer, m_bytesPerSec);
      if m_bytesPerSec / HERTZ < 5 {
        howlong := (nxfer * HERTZ) / m_bytesPerSec;
        m_bytesUnsleptFor := nxfer - (howlong * m_bytesPerSec) / HERTZ;
      } else {
        howlong := nxfer / (m_bytesPerSec / HERTZ);
        m_bytesUnsleptFor := nxfer % (m_bytesPerSec / HERTZ);
      }
      m_wakeup := Wrap(m_sked.h, word + howlong);
      wakeAt := now + howlong;
      WrapAdds(m_sked.h, now, howlong);
      m_dfd_events := {};
      total := total + n;
    }

    /** An event on the data descriptor; socket is what getsockopt says if it has to be asked.  If the
        pipe is idle, the assertion on the state fails. */
    method NotifyData(revents: Bits, socket: Socket, io: Io, word: int, ghost now: int, ghost base: int)
        returns (v: Verdict, cleared: Bits)
      requires Valid() && m_dfd != -1
      requires word == Wrap(m_sked.h, now) && Follows(now) && InView(base, m_wakeup)
      modifies this, m_sked, m_sked.m_records, m_sked.clients
      ensures Valid() && clock == now && m_cfd == old(m_cfd)
      ensures m_sked.Queue() - {skc} == old(m_sked.Queue()) - {skc}
      ensures m_sked.clients == old(m_sked.clients) &&
              (m_sked.m_records == old(m_sked.m_records) || fresh(m_sked.m_records))
      ensures Result(Abs(), v, cleared) == Notified(m_bytesPerSec, old(Abs()), revents, socket, io, now)
      ensures v == Aborts <==> old(m_state) == IDLE
      ensures v == Finished <==> Ends(old(Abs()), revents, socket, io, now)
      ensures v == Finished ==> m_state == IDLE && m_dfd == -1 && skc !in m_sked.Queue()
      ensures v in {Fine, Finished} && (m_state == IDLE || (m_state == GETTING && IN in revents)) ==>
                skc !in m_sked.Queue()
    {
      hide InWindow, QueueInWindow, Wrap, After, Heard, Ends, Handled, Refuses, Sked.Valid, Sked.Queue;
      VerdictOnEvent(m_bytesPerSec, Abs(), revents, socket, io, now);
      FinishedIsClosed(m_bytesPerSec, Abs(), revents, socket, io, now);
      clock := now;
      if m_state == IDLE {
        return Aborts, {};
      }
      if m_dfd_connecting && KICKSTART !in revents {
        match socket
        case Refused =>
          return Broken, {};
        case InProgress =>
          v, cleared := Hear(revents, io, word, now, base);
          cleared := cleared + {OUT};
          return;
        case Connected =>
          m_dfd_connecting := false;
      }
      v, cleared := Hear(revents, io, word, now, base);
    }

    method Hear(revents: Bits, io: Io, word: int, ghost now: int, ghost base: int) returns (v: Verdict, cleared: Bits)
      requires Valid() && m_state != IDLE && word == Wrap(m_sked.h, now) && Follows(now) && InView(base, m_wakeup) &&
               clock == now
      modifies this, m_sked, m_sked.m_records, m_sked.clients
      ensures Valid() && clock == now && m_cfd == old(m_cfd)
      ensures m_sked.Queue() - {skc} == old(m_sked.Queue()) - {skc}
      ensures m_sked.clients == old(m_sked.clients) &&
              (m_sked.m_records == old(m_sked.m_records) || fresh(m_sked.m_records))
      ensures Result(Abs(), v, cleared) == Heard(m_bytesPerSec, old(Abs()), revents, io, now)
      ensures m_state == IDLE || (m_state == GETTING && IN in revents) ==> skc !in m_sked.Queue()
    {
      hide InWindow, QueueInWindow, Wrap, After, Acted, Sked.Valid, Sked.Queue;
      AfterTellsTrueTime(m_sked.h, wakeAt, now);
      if m_state == GETTING && !(KICKSTART in revents || HUP in revents) && After(m_sked.h, m_wakeup, word) {
        assert skc !in m_sked.Queue();
        Schedule(m_wakeup, base);
        m_state := SLEEPING;
      }
      if m_state == SLEEPING {
        m_dfd_events := m_dfd_events + revents;
        return Fine, {};
      }
      v, cleared := Act(revents, io, word, now, base);
    }

    method Act(revents: Bits, io: Io, word: int, ghost now: int, ghost base: int) returns (v: Verdict, cleared: Bits)
      requires Valid() && m_state == GETTING && word == Wrap(m_sked.h, now) && clock == now && InView(base, m_wakeup)
      modifies this, m_sked`m_used, m_sked.m_records, m_sked.clients
      ensures Valid() && clock == now && m_cfd == old(m_cfd)
      ensures m_sked.Queue() - {skc} == old(m_sked.Queue()) - {skc}
      ensures Result(Abs(), v, cleared) == Acted(m_bytesPerSec, old(Abs()), revents, io, now)
      ensures m_state == IDLE || IN in revents ==> skc !in m_sked.Queue()
    {
      hide Wrap, Carry, Throttle.Wait, InWindow, QueueInWindow, Sked.Valid, Sked.Queue;
      NothingToReckon(m_bytesPerSec);
      var hup := false;
      var nxfer: nat := 0;
      cleared := {};
      if IN in revents {
        Cancel(base);
        match io
        case Bytes(n) => nxfer := n; hup := n == 0;
        case WouldBlock => cleared := {IN};
        case Failed => return Broken, cleared;
      } else if HUP in revents {
        hup := true;
      }
      if hup {
        m_state := IDLE;
        Cancel(base);
        m_dfd := -1;
        return Finished, cleared;
      }
      Reckon(nxfer, word, now);
      return Fine, cleared;
    }

    /** get while the data connection of the last command is still open, which the protocol accepts once
        its reply is in.  The old connection ends, which makes the pipe idle, the reply to PASV opens a
        new one, and the first event on that fails the assertion on the state. */
    method GetBeforeDone(dfd: int, socket: Socket, io: Io, revents: Bits,
        word: int, ghost now: int, laterWord: int, ghost later: int, ghost base: int) returns (v: Verdict)
      requires Valid() && m_state == GETTING && m_cfd != -1 && m_dfd != -1 && !m_dfd_connecting && dfd != -1
      requires skc !in m_sked.Queue() && clock <= now <= later < now + m_sked.h
      requires word == Wrap(m_sked.h, now) && laterWord == Wrap(m_sked.h, later)
      requires InView(base, word) && InView(base, Wrap(m_sked.h, word + TIMEOUT))
      modifies this, m_sked, m_sked.m_records, m_sked.clients
      ensures v == Aborts
    {
      hide Wrap, InWindow, Sked.Valid, Sked.Queue, Carry, Throttle.Wait;
      ghost var q := m_sked.Queue();
      var aborts := Get(word, now, base);
      assert m_sked.Queue() - {skc} == q;
      var cleared;
      v, cleared := NotifyData({HUP}, socket, io, word, now, base);
      assert m_sked.Queue() == q;
      LineArrived(base);
      OpenData(dfd, true, m_bytesPerSec);
      v, cleared := NotifyData(revents, socket, io, laterWord, later, base);
    }

    /** The scheduler, running at now, has popped a sleeping pipe whose time has come; the events it
        kept are handled a little later.  If its data connection was closed meanwhile and there are
        such events, the assertion on the descriptor fails. */
    method Wake(socket: Socket, io: Io, word: int, ghost now: int, laterWord: int, ghost later: int, ghost base: int)
        returns (v: Verdict, cleared: Bits)
      requires Scheduled() && skc !in m_sked.Queue() && Consistent(m_sked.Queue()[skc := m_wakeup]) &&
               m_state == SLEEPING
      requires word == Wrap(m_sked.h, now) && Follows(now) && wakeAt <= now && InView(base, word)
      requires laterWord == Wrap(m_sked.h, later) && now <= later < now + m_sked.h
      modifies this, m_sked, m_sked.m_records, m_sked.clients
      ensures Valid() && now <= clock <= later && m_cfd == old(m_cfd)
      ensures m_sked.Queue() - {skc} == old(m_sked.Queue()) - {skc}
      ensures Result(Abs(), v, cleared) == Woken(m_bytesPerSec, old(Abs()), socket, io, now, later)
      ensures v == Aborts <==> old(m_dfd_events != {} && m_dfd == -1)
    {
      hide Notified, InWindow, QueueInWindow, Wrap;
      m_state := GETTING;
      clock := now;
      if m_dfd_events == {} {
        return Fine, {};
      }
      var events := m_dfd_events;
      m_dfd_events := {};
      m_wakeup := word;
      wakeAt := now;
      if m_dfd == -1 {
        return Aborts, {};
      }
      v, cleared := NotifyData(events, socket, io, laterWord, later, base);
      AbortsIffIdle(m_bytesPerSec, old(Abs()).(mode := GETTING, events := {}, wake := now), events, socket, io,
        later);
    }

    /** One turn of the scheduler's loop at now, with this pipe asleep at the top of the heap: it is
        woken if and only if its time has come. */
    method RunTop(socket: Socket, io: Io, word: int, ghost now: int, laterWord: int, ghost later: int, ghost base: int)
        returns (due: bool, v: Verdict, cleared: Bits)
      requires Valid() && m_state == SLEEPING && m_sked.m_used > 0 && m_sked.m_records[1].skc == skc
      requires word == Wrap(m_sked.h, now) && Follows(now) && InView(base, word)
      requires laterWord == Wrap(m_sked.h, later) && now <= later < now + m_sked.h
      modifies this, m_sked, m_sked.m_records, m_sked.clients
      ensures Valid() && (due <==> old(wakeAt) <= now)
      ensures m_sked.Queue() - {skc} == old(m_sked.Queue()) - {skc}
      ensures !due ==> Abs() == old(Abs()) && m_sked.Queue() == old(m_sked.Queue())
      ensures due ==> Result(Abs(), v, cleared) == Woken(m_bytesPerSec, old(Abs()), socket, io, now, later)
    {
      hide InWindow, QueueInWindow, Wrap, After, Woken, Sked.Valid, Sked.Queue;
      AfterTellsTrueTime(m_sked.h, wakeAt, now);
      m_sked.RootDecides(base, word);
      v, cleared := Fine, {};
      if After(m_sked.h, m_sked.m_records[1].when, word) {
        return false, v, cleared;
      }
      WindowAfterRemoval(m_sked.h, base, m_sked.Queue(), skc);
      ghost var q := m_sked.Queue();
      m_sked.Pop(base);
      PutBack(q, skc, m_wakeup);
      v, cleared := Wake(socket, io, word, now, laterWord, later, base);
      due := true;
    }

    /** A sleeping pipe that no callback reschedules before its own is dispatched by a run of the
        scheduler at now if and only if its time has come; and when it is, for the first time, what
        waking it requires holds.  Its own callback may cancel it and schedule it again. */
    lemma SleeperRunsIffDue(word: int, now: int, script: nat -> seq<SkedOp<SkedClient>>, log: seq<(SkedClient, int)>)
        returns (k: nat)
      requires Valid() && m_state == SLEEPING && word == Wrap(m_sked.h, now) && Follows(now)
      requires Legal(m_sked.h, m_sked.Queue(), word, script, log)
      requires NoneDue(m_sked.h, QueueAfter(m_sked.Queue(), script, log), word)
      requires UntouchedUntilDispatched(skc, script, log)
      ensures k <= |log| && NotYet(skc, log, k) && (k < |log| <==> wakeAt <= now)
      ensures k < |log| ==>
                var q := QueueAfter(m_sked.Queue(), script, log[..k]);
                log[k] == (skc, m_wakeup) && skc in q && Consistent((q - {skc})[skc := m_wakeup])
    {
      AfterTellsTrueTime(m_sked.h, wakeAt, now);
      k := FirstDispatchIffDue(m_sked.h, m_sked.Queue(), word, script, log, skc);
    }

    /** Closes everything; a pipe that is closed already is left as it is. */
    method Shutdown(ghost base: int)
      requires Valid() && InView(base, m_wakeup)
      modifies `m_state, `m_cfd, `m_dfd, `m_dfd_connecting, m_sked`m_used, m_sked.m_records, m_sked.clients
      ensures Valid() && m_cfd == -1 && m_dfd == -1
      ensures old(m_cfd != -1 || m_dfd != -1) ==> m_state == IDLE && m_sked.Queue() == old(m_sked.Queue()) - {skc}
      ensures old(m_cfd == -1 && m_dfd == -1) ==> Abs() == old(Abs()) && m_sked.Queue() == old(m_sked.Queue())
    {
      hide InWindow, QueueInWindow, Wrap, Sked.Valid, Sked.Queue;
      if m_cfd == -1 && m_dfd == -1 {
        return;
      }
      Cancel(base);
      m_state := IDLE;
      m_dfd_connecting := false;
      m_dfd := -1;
      m_cfd := -1;
    }

    /** The scheduler has popped this pipe for its timeout. */
    method TimedOut(ghost base: int)
      requires Scheduled() && skc !in m_sked.Queue() && m_state != SLEEPING && Consistent(m_sked.Queue())
      requires InView(base, m_wakeup)
      modifies `m_state, `m_cfd, `m_dfd, `m_dfd_connecting, m_sked`m_used, m_sked.m_records, m_sked.clients
      ensures Valid() && m_cfd == -1 && m_dfd == -1 && skc !in m_sked.Queue()
    {
      Shutdown(base);
    }
  }

  lemma FinishedIsClosed(rate: nat, s: Data, revents: Bits, socket: Socket, io: Io, now: int)
    requires rate > 0
    ensures var r := Notified(rate, s, revents, socket, io, now);
            r.verdict == Finished ==> r.data.mode == IDLE && r.data.dfd == -1
  {
    VerdictOnEvent(rate, s, revents, socket, io, now);
    if s.mode != IDLE {
      StateAfterEvent(rate, s, revents, socket, io, now);
    }
    hide Notified;
  }

  lemma NothingToReckon(rate: nat)
    requires rate > 0
    ensures Carry(0, rate) == 0 && Throttle.Wait(0, rate) == 0
  {
    ThrottleIsExact(0, rate);
  }

  lemma WrapAdds(h: int, x: int, y: int)
    requires 0 < h
    ensures Wrap(h, Wrap(h, x) + y) == Wrap(h, x + y)
  {
    var k := WrapIsCongruent(h, x);
    WrapForgetsTurns(h, x + y, Wrap(h, x) + y, k);
  }

  lemma PutBack<C>(q: map<C, int>, c: C, when: int)
    requires c in q && q[c] == when
    ensures (q - {c})[c := when] == q
  {
  }
}
