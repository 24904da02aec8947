/** What Poller_sigio means: the monitored descriptors, the order in which the ready ones will be
    returned, and the cursor of the current pass. */
module SigioSpec {
  import opened PollerTypes

  datatype Entry = Entry(client: Client, mask: Bits, ready: Bits)

  datatype State = State(fds: map<int, Entry>, ring: seq<int>, cursor: int)

  const EMPTY := State(map[], [], -1)

  predicate IsReady(e: Entry) {
    e.mask * e.ready != {}
  }

  /** The ready list holds exactly the ready descriptors, each once, and the cursor is on it. */
  ghost predicate Wf(s: State) {
    && Distinct(s.ring)
    && (forall fd :: fd in s.ring <==> fd in s.fds && IsReady(s.fds[fd]))
    && (s.cursor == -1 || s.cursor in s.ring)
    && (forall fd | fd in s.fds :: 0 <= fd)
  }

  function Find(ring: seq<int>, fd: int): (j: nat)
    requires fd in ring
    ensures j < |ring| && ring[j] == fd && fd !in ring[..j]
  {
    if ring[0] == fd then 0 else
      var j := 1 + Find(ring[1..], fd);
      assert ring[..j] == [ring[0]] + ring[1..][..j - 1];
      j
  }

  // ---------- the ready list ----------

  function ListAdd(s: State, fd: int): State {
    s.(ring := s.ring + [fd], cursor := if s.cursor == -1 then fd else s.cursor)
  }

  /** A cursor on the removed descriptor moves on, round the ring. */
  function ListDel(s: State, fd: int): State
    requires fd in s.ring
  {
    var j := Find(s.ring, fd);
    var ring := s.ring[..j] + s.ring[j + 1..];
    s.(ring := ring,
       cursor := if s.cursor != fd then s.cursor else if ring == [] then -1 else ring[if j < |ring| then j else 0])
  }

  function ListUpdate(s: State, fd: int): State
    requires fd in s.fds
  {
    if fd in s.ring then if IsReady(s.fds[fd]) then s else ListDel(s, fd)
    else if IsReady(s.fds[fd]) then ListAdd(s, fd) else s
  }

  // ---------- operations ----------

  datatype Op =
    | Add(fd: int, client: Client, mask: Bits)
    | Del(fd: int)
    | SetMask(fd: int, mask: Bits)
    | OrMask(fd: int, mask: Bits)
    | AndMask(fd: int, mask: Bits)
    | ClearReadiness(fd: int, mask: Bits)
    | Signal(fd: int, band: Bits)  // one pulled signal
    | Resync(fd: int, band: Bits)  // one event of the backup poller

  function SetEntry(s: State, fd: int, e: Entry): State {
    ListUpdate(s.(fds := s.fds[fd := e]), fd)
  }

  /** Calls that name a descriptor that is not monitored change nothing; nor does adding one that
      is (see Poller_sigio.Perform). */
  function Step(s: State, op: Op): State {
    if op.Add? then
      if op.fd < 0 || op.fd in s.fds then s
      else SetEntry(s, op.fd, Entry(op.client, op.mask, {IN, OUT}))
    else if op.fd !in s.fds then s
    else
      var e := s.fds[op.fd];
      match op
      case Del(fd) =>
        var t := if fd in s.ring then ListDel(s, fd) else s;
        t.(fds := t.fds - {fd})
      case SetMask(fd, m) => SetEntry(s, fd, e.(mask := m))
      case OrMask(fd, m) => SetEntry(s, fd, e.(mask := e.mask + m))
      case AndMask(fd, m) => SetEntry(s, fd, e.(mask := e.mask * m))
      case ClearReadiness(fd, m) => SetEntry(s, fd, e.(ready := e.ready - m))
      case Signal(fd, b) => SetEntry(s, fd, e.(ready := e.ready + (b * ALLBITS)))
      case Resync(fd, b) => SetEntry(s, fd, e.(ready := b))
  }

  function Steps(s: State, ops: seq<Op>): State {
    if ops == [] then s else Step(Steps(s, ops[..|ops| - 1]), ops[|ops| - 1])
  }

  function Head(s: State): int {
    if s.ring == [] then -1 else s.ring[0]
  }

  /** waitForEvents: back to the head, then every pulled signal, then, after an overflow, every
      event of the backup poller. */
  function Wait(s: State, pulled: seq<Op>): State {
    Steps(s.(cursor := Head(s)), pulled)
  }

  ghost predicate Pulled(ops: seq<Op>) {
    forall op | op in ops :: op.Signal? || op.Resync?
  }

  // ---------- one pass of getNextEvent ----------

  function EventAt(s: State): PollEvent
    requires s.cursor in s.fds
  {
    var e := s.fds[s.cursor];
    PollEvent(s.cursor, e.ready * e.mask, e.client)
  }

  /** Where the cursor goes when its descriptor is returned. */
  function Advance(s: State): State
    requires s.cursor in s.ring
  {
    var j := Find(s.ring, s.cursor);
    s.(cursor := if j + 1 < |s.ring| then s.ring[j + 1] else -1)
  }

  /** What the rest of the pass would return if nothing changed. */
  function Remaining(s: State): seq<int> {
    if s.cursor in s.ring then s.ring[Find(s.ring, s.cursor)..] else []
  }

  datatype Callback = Callback(ops: seq<Op>, fails: bool)

  /** A callback that fails has its descriptor deleted. */
  function OpsOf(cb: Callback, fd: int): seq<Op> {
    cb.ops + if cb.fails then [Del(fd)] else []
  }

  function After(s: State, script: nat -> Callback, log: seq<PollEvent>): State {
    if log == [] then s
    else
      var n := |log| - 1;
      var t := After(s, script, log[..n]);
      if t.cursor in t.ring then Steps(Advance(t), OpsOf(script(n), t.cursor)) else t
  }

  /** Every event in log is the one at the cursor; a pass ends at a cursor below 1. */
  ghost predicate Legal(s: State, script: nat -> Callback, log: seq<PollEvent>) {
    forall k {:trigger log[k]} | 0 <= k < |log| ::
      var t := After(s, script, log[..k]);
      1 <= t.cursor && t.cursor in t.ring && t.cursor in t.fds && log[k] == EventAt(t)
  }

  // ---------- every step keeps the list exact ----------

  lemma DistinctFind(ring: seq<int>, j: nat)
    requires Distinct(ring) && j < |ring|
    ensures Find(ring, ring[j]) == j
  {
    assert ring[Find(ring, ring[j])] == ring[j];
  }

  lemma WithoutMembers(ring: seq<int>, fd: int)
    requires Distinct(ring) && fd in ring
    ensures var j := Find(ring, fd);
            var r := ring[..j] + ring[j + 1..];
            Distinct(r) && fd !in r && forall x | x != fd :: x in r <==> x in ring
  {
    var j := Find(ring, fd);
    var r := ring[..j] + ring[j + 1..];
    forall x | x in ring && x != fd ensures x in r {
      var i := Find(ring, x);
      assert r[if i < j then i else i - 1] == x;
    }
  }

  /** Well-formed, except that fd may be on the list or not. */
  ghost predicate WfBut(s: State, fd: int) {
    && Distinct(s.ring)
    && (forall x | x != fd :: x in s.ring <==> x in s.fds && IsReady(s.fds[x]))
    && (s.cursor == -1 || s.cursor in s.ring)
    && (forall x | x in s.fds :: 0 <= x)
  }

  lemma ListDelFixes(s: State, fd: int)
    requires WfBut(s, fd) && fd in s.ring && !(fd in s.fds && IsReady(s.fds[fd]))
    ensures Wf(ListDel(s, fd))
  {
    WithoutMembers(s.ring, fd);
  }

  lemma ListAddFixes(s: State, fd: int)
    requires WfBut(s, fd) && fd !in s.ring && fd in s.fds && IsReady(s.fds[fd])
    ensures Wf(ListAdd(s, fd))
  {
    assert forall x :: x in s.ring + [fd] <==> x in s.ring || x == fd;
  }

  lemma WfButIsWf(s: State, fd: int)
    requires WfBut(s, fd) && (fd in s.ring <==> fd in s.fds && IsReady(s.fds[fd]))
    ensures Wf(s)
  {
  }

  lemma SetIsWfBut(s: State, fd: int, e: Entry)
    requires Wf(s) && 0 <= fd
    ensures WfBut(s.(fds := s.fds[fd := e]), fd)
  {
  }

  lemma UpdateKeepsWf(s: State, fd: int, e: Entry)
    requires Wf(s) && 0 <= fd
    ensures Wf(SetEntry(s, fd, e))
  {
    SetIsWfBut(s, fd, e);
    hide Wf, WfBut, ListDel, ListAdd, IsReady;
    var t := s.(fds := s.fds[fd := e]);
    if fd in s.ring && !IsReady(e) {
      ListDelFixes(t, fd);
    } else if fd !in s.ring && IsReady(e) {
      ListAddFixes(t, fd);
    } else {
      WfButIsWf(t, fd);
    }
  }

  lemma DelKeepsWf(s: State, fd: int)
    requires Wf(s) && fd in s.fds
    ensures Wf(Step(s, Del(fd)))
  {
    if fd in s.ring {
      WithoutMembers(s.ring, fd);
    }
  }

  lemma {:induction false} StepKeepsWf(s: State, op: Op)
    requires Wf(s)
    ensures Wf(Step(s, op))
  {
    if op.Add? {
      if 0 <= op.fd && op.fd !in s.fds {
        UpdateKeepsWf(s, op.fd, Entry(op.client, op.mask, {IN, OUT}));
      }
    } else if op.fd in s.fds {
      if op.Del? {
        DelKeepsWf(s, op.fd);
      } else {
        hide Wf, SetEntry;
        UpdateKeepsWf(s, op.fd, Step(s, op).fds[op.fd]);
      }
    }
  }

  lemma {:induction false} StepsKeepWf(s: State, ops: seq<Op>)
    requires Wf(s)
    ensures Wf(Steps(s, ops))
  {
    if ops != [] {
      StepsKeepWf(s, ops[..|ops| - 1]);
      StepKeepsWf(Steps(s, ops[..|ops| - 1]), ops[|ops| - 1]);
    }
  }

  // ---------- waitForEvents leaves the cursor at the head ----------

  lemma {:induction false} PullingKeepsCursorAtHead(s: State, ops: seq<Op>)
    requires Wf(s) && s.cursor == Head(s) && Pulled(ops)
    ensures Steps(s, ops).cursor == Head(Steps(s, ops))
  {
    if ops != [] {
      var t, op := Steps(s, ops[..|ops| - 1]), ops[|ops| - 1];
      StepsKeepWf(s, ops[..|ops| - 1]);
      PullingKeepsCursorAtHead(s, ops[..|ops| - 1]);
      assert op in ops;
      assert t.ring != [] ==> Find(t.ring, t.ring[0]) == 0;
    }
  }

  /** Whatever is pulled, and through an overflow, a pass starts with everything still to come. */
  lemma {:induction false} WaitStartsFullPass(s: State, pulled: seq<Op>)
    requires Wf(s) && Pulled(pulled)
    ensures var t := Wait(s, pulled);
            Wf(t) && t.cursor == Head(t) && Remaining(t) == t.ring
  {
    var r := s.(cursor := Head(s));
    PullingKeepsCursorAtHead(r, pulled);
    StepsKeepWf(r, pulled);
    var t := Wait(s, pulled);
    if t.ring != [] {
      DistinctFind(t.ring, 0);
    }
  }

  // ---------- what one call does to the rest of a pass ----------

  function Without(r: seq<int>, x: int): seq<int> {
    if x in r then r[..Find(r, x)] + r[Find(r, x) + 1..] else r
  }

  predicate Lists(s: State, op: Op) {
    op.fd !in s.ring && op.fd in Step(s, op).ring
  }

  predicate Unlists(s: State, op: Op) {
    op.fd in s.ring && op.fd !in Step(s, op).ring
  }

  /** The cursor is on x, and x is the last of several. */
  predicate AtEnd(s: State, x: int) {
    s.cursor == x && |s.ring| > 1 && s.ring[|s.ring| - 1] == x
  }

  lemma AdvanceTakesOne(s: State)
    requires Wf(s) && s.cursor in s.ring
    ensures Wf(Advance(s)) && Remaining(s)[0] == s.cursor && Remaining(Advance(s)) == Remaining(s)[1..]
  {
    var j := Find(s.ring, s.cursor);
    if j + 1 < |s.ring| {
      DistinctFind(s.ring, j + 1);
    } else {
      assert -1 !in s.fds;
    }
  }

  lemma RemainingIsListed(s: State, x: int)
    requires x in Remaining(s)
    ensures x in s.ring && s.cursor in s.ring
  {
    var j := Find(s.ring, s.cursor);
    assert s.ring[j..][Find(s.ring[j..], x)] == x;
  }

  lemma WfIsDistinct(s: State)
    requires Wf(s)
    ensures Distinct(s.ring) && (s.cursor == -1 || s.cursor in s.ring) && -1 !in s.ring
  {
    assert -1 !in s.fds;
  }

  lemma CutBefore(ring: seq<int>, j: nat, c: nat)
    requires j < c < |ring|
    ensures (ring[..j] + ring[j + 1..])[c - 1] == ring[c] && (ring[..j] + ring[j + 1..])[c - 1..] == ring[c..]
  {
  }

  lemma CutAfter(ring: seq<int>, j: nat, c: nat)
    requires c < j < |ring|
    ensures (ring[..j] + ring[j + 1..])[c] == ring[c] && ring[c..][j - c] == ring[j]
    ensures (ring[..j] + ring[j + 1..])[c..] == ring[c..][..j - c] + ring[c..][j - c + 1..]
  {
  }

  lemma DistinctTail(ring: seq<int>, c: nat)
    requires Distinct(ring) && c <= |ring|
    ensures Distinct(ring[c..]) && forall j | 0 <= j < c :: ring[j] !in ring[c..]
  {
  }

  /** A removal at j seen from a later or an earlier position c. */
  lemma TailWithout(ring: seq<int>, j: nat, c: nat)
    requires Distinct(ring) && j < |ring| && c < |ring| && c != j
    ensures var r, k := ring[..j] + ring[j + 1..], if j < c then c - 1 else c;
            r[k] == ring[c] && r[k..] == Without(ring[c..], ring[j])
  {
    DistinctTail(ring, c);
    hide Distinct;
    if j < c {
      CutBefore(ring, j, c);
    } else {
      CutAfter(ring, j, c);
      DistinctFind(ring[c..], j - c);
    }
  }

  lemma TailFrom(ring: seq<int>, j: nat)
    requires j < |ring|
    ensures ring[j..][0] == ring[j] && Without(ring[j..], ring[j]) == ring[j + 1..] &&
            (ring[..j] + ring[j + 1..])[j..] == ring[j + 1..]
  {
    assert Find(ring[j..], ring[j]) == 0;
  }

  lemma RemovalAtCursor(s: State, j: nat)
    requires Distinct(s.ring) && j < |s.ring| && s.cursor == s.ring[j]
    ensures var t := ListDel(s, s.cursor);
            j + 1 < |s.ring| ==> Remaining(s) == s.ring[j..] && Remaining(t) == s.ring[j + 1..]
    ensures var t := ListDel(s, s.cursor);
            j + 1 == |s.ring| ==> Remaining(s) == [s.cursor] && t.ring == s.ring[..j] && Remaining(t) == t.ring
  {
    DistinctFind(s.ring, j);
    var t := ListDel(s, s.cursor);
    TailFrom(s.ring, j);
    WithoutMembers(s.ring, s.cursor);
    hide Distinct;
    if j + 1 < |s.ring| {
      assert t.ring[j] == t.ring[j..][0];
      DistinctFind(t.ring, j);
    } else if j > 0 {
      DistinctFind(t.ring, 0);
    }
  }

  lemma RemovalElsewhere(s: State, j: nat, c: nat)
    requires Distinct(s.ring) && j < |s.ring| && c < |s.ring| && c != j && s.cursor == s.ring[c]
    ensures Remaining(ListDel(s, s.ring[j])) == Without(Remaining(s), s.ring[j])
  {
    hide *;
    var r, k := s.ring[..j] + s.ring[j + 1..], if j < c then c - 1 else c;
    DistinctFind(s.ring, j);
    WithoutMembers(s.ring, s.ring[j]);
    TailWithout(s.ring, j, c);
    DistinctAt(s.ring, j, c);
    DelElsewhere(s, s.ring[j]);
    RemainingFrom(s, c);
    RemainingFrom(ListDel(s, s.ring[j]), k);
  }

  lemma DistinctAt(ring: seq<int>, i: nat, j: nat)
    requires Distinct(ring) && i < |ring| && j < |ring|
    ensures ring[i] == ring[j] <==> i == j
  {
  }

  lemma DelElsewhere(s: State, x: int)
    requires x in s.ring
    ensures ListDel(s, x).ring == s.ring[..Find(s.ring, x)] + s.ring[Find(s.ring, x) + 1..]
    ensures x != s.cursor ==> ListDel(s, x).cursor == s.cursor
  {
  }

  lemma RemainingFrom(s: State, c: nat)
    requires Distinct(s.ring) && c < |s.ring| && s.cursor == s.ring[c]
    ensures Remaining(s) == s.ring[c..]
  {
    DistinctFind(s.ring, c);
  }

  lemma LastIs(ring: seq<int>, x: int)
    requires Distinct(ring) && x in ring
    ensures ring[|ring| - 1] == x <==> Find(ring, x) + 1 == |ring|
    ensures Without(ring, x) == ring[..Find(ring, x)] + ring[Find(ring, x) + 1..]
  {
    DistinctFind(ring, |ring| - 1);
  }

  /** Taking x off the list just takes it off what is still to come, if and only if the cursor is
      not on x as the last of several: then it goes back to the head, and everything comes again. */
  lemma {:induction false} RemovalRestartsIffAtEnd(s: State, x: int)
    requires Wf(s) && x in s.ring
    ensures Remaining(ListDel(s, x)) == Without(Remaining(s), x) <==> !AtEnd(s, x)
    ensures AtEnd(s, x) ==> Remaining(s) == [x] && Remaining(ListDel(s, x)) == Without(s.ring, x) != []
  {
    WfIsDistinct(s);
    var j := Find(s.ring, x);
    LastIs(s.ring, x);
    hide Wf, Distinct, Remaining, ListDel, Find;
    if s.cursor == x {
      RemovalAtCursor(s, j);
      TailFrom(s.ring, j);
    } else if s.cursor != -1 {
      RemovalElsewhere(s, j, Find(s.ring, s.cursor));
    } else {
      NothingToCome(s, x);
    }
  }

  lemma NothingToCome(s: State, x: int)
    requires s.cursor == -1 && -1 !in s.ring && x in s.ring
    ensures Remaining(s) == [] && Remaining(ListDel(s, x)) == [] && Without(Remaining(s), x) == []
  {
    var r := ListDel(s, x).ring;
    assert forall y | y in r :: y in s.ring;
  }

  lemma AdditionComesLast(s: State, x: int)
    requires Wf(s) && x !in s.ring
    ensures Remaining(ListAdd(s, x)) == Remaining(s) + [x]
  {
    WfIsDistinct(s);
    hide Wf;
    var r := s.ring + [x];
    assert r[|s.ring|] == x && Distinct(r);
    if s.cursor == -1 {
      DistinctFind(r, |s.ring|);
      assert r[|s.ring|..] == [x];
    } else {
      var c := Find(s.ring, s.cursor);
      assert r[c] == s.cursor;
      DistinctFind(r, c);
      assert r[c..] == s.ring[c..] + [x];
    }
  }

  lemma RemainingIgnoresEntries(s: State, t: State)
    requires SameList(s, t)
    ensures Remaining(s) == Remaining(t)
  {
  }

  /** The ring and the cursor of t. */
  predicate SameList(s: State, t: State) {
    s.ring == t.ring && s.cursor == t.cursor
  }

  lemma UpdateOnList(s: State, fds: map<int, Entry>, fd: int)
    requires fd in fds
    ensures var t := ListUpdate(s.(fds := fds), fd);
            SameList(t, if fd in s.ring then if IsReady(fds[fd]) then s else ListDel(s, fd)
                        else if IsReady(fds[fd]) then ListAdd(s, fd) else s)
  {
  }

  lemma CallOnList(s: State, op: Op)
    ensures SameList(Step(s, op), s) || (op.fd !in s.ring && SameList(Step(s, op), ListAdd(s, op.fd))) ||
            (op.fd in s.ring && SameList(Step(s, op), ListDel(s, op.fd)))
  {
    hide SameList, ListUpdate, ListAdd, ListDel, IsReady, SetEntry;
    SameListAsItself(s);
    var t := Step(s, op);
    if op.Del? {
      if op.fd in s.fds && op.fd in s.ring {
        DelOnList(s, op.fd);
      }
    } else if op.Add? {
      if op.fd >= 0 && op.fd !in s.fds {
        SetIsUpdate(s, op.fd, Entry(op.client, op.mask, {IN, OUT}));
        UpdateOnList(s, s.fds[op.fd := Entry(op.client, op.mask, {IN, OUT})], op.fd);
      }
    } else if op.fd in s.fds {
      var e := SetOnList(s, op);
      SetIsUpdate(s, op.fd, e);
      UpdateOnList(s, s.fds[op.fd := e], op.fd);
    }
  }

  lemma SameListAsItself(s: State)
    ensures forall fds :: SameList(s.(fds := fds), s)
    ensures SameList(s, s)
  {
  }

  lemma DelOnList(s: State, fd: int)
    requires fd in s.fds && fd in s.ring
    ensures SameList(Step(s, Del(fd)), ListDel(s, fd))
  {
    hide ListDel;
  }

  lemma SetOnList(s: State, op: Op) returns (e: Entry)
    requires !op.Add? && !op.Del? && op.fd in s.fds
    ensures Step(s, op) == SetEntry(s, op.fd, e)
  {
    hide SetEntry;
    var f := s.fds[op.fd];
    match op
    case SetMask(_, m) => e := f.(mask := m);
    case OrMask(_, m) => e := f.(mask := f.mask + m);
    case AndMask(_, m) => e := f.(mask := f.mask * m);
    case ClearReadiness(_, m) => e := f.(ready := f.ready - m);
    case Signal(_, band) => e := f.(ready := f.ready + (band * ALLBITS));
    case Resync(_, band) => e := f.(ready := band);
  }

  lemma SetIsUpdate(s: State, fd: int, e: Entry)
    ensures SetEntry(s, fd, e) == ListUpdate(s.(fds := s.fds[fd := e]), fd)
  {
  }

  /** The ring and the cursor after a call. */
  lemma StepOnList(s: State, op: Op)
    requires Wf(s)
    ensures SameList(Step(s, op),
                     if Lists(s, op) then ListAdd(s, op.fd) else if Unlists(s, op) then ListDel(s, op.fd) else s)
  {
    WfIsDistinct(s);
    hide Wf, Step, Distinct, ListDel;
    CallOnList(s, op);
    assert op.fd == (s.ring + [op.fd])[|s.ring|];
    if op.fd in s.ring {
      WithoutMembers(s.ring, op.fd);
      DelElsewhere(s, op.fd);
    }
  }

  lemma StepLeavesOthers(s: State, op: Op, x: int)
    requires x != op.fd
    ensures x in Step(s, op).fds <==> x in s.fds
    ensures x in s.fds ==> Step(s, op).fds[x] == s.fds[x]
  {
  }

  /** What one call does to the rest of a pass: nothing, unless it lists its descriptor, which then
      comes last, or takes it off the list. */
  lemma StepOnPass(s: State, op: Op)
    requires Wf(s)
    ensures Remaining(Step(s, op)) ==
            if Lists(s, op) then Remaining(s) + [op.fd]
            else if !Unlists(s, op) then Remaining(s)
            else if AtEnd(s, op.fd) then Without(s.ring, op.fd)
            else Without(Remaining(s), op.fd)
    ensures Unlists(s, op) && AtEnd(s, op.fd) ==> Remaining(s) == [op.fd] && Without(s.ring, op.fd) != []
  {
    hide *;
    StepOnList(s, op);
    ListsOrUnlists(s, op);
    var t := Step(s, op);
    if Lists(s, op) {
      AdditionComesLast(s, op.fd);
      RemainingIgnoresEntries(t, ListAdd(s, op.fd));
    } else if Unlists(s, op) {
      RemovalRestartsIffAtEnd(s, op.fd);
      RemainingIgnoresEntries(t, ListDel(s, op.fd));
    } else {
      RemainingIgnoresEntries(t, s);
    }
  }

  lemma ListsOrUnlists(s: State, op: Op)
    ensures Lists(s, op) ==> op.fd !in s.ring
    ensures Unlists(s, op) ==> op.fd in s.ring && op.fd !in Step(s, op).ring
  {
  }

  lemma MembersWithout(r: seq<int>, x: int, y: int)
    requires y != x
    ensures y in Without(r, x) <==> y in r
  {
    if x in r {
      var j := Find(r, x);
      assert r == r[..j] + [x] + r[j + 1..];
    }
  }

  // ---------- whatever callbacks do, what stays listed is returned ----------

  /** No call in ops takes fd off the list. */
  ghost predicate KeepsListed(s: State, ops: seq<Op>, fd: int) {
    forall i | 0 <= i < |ops| && ops[i].fd == fd :: !Unlists(Steps(s, ops[..i]), ops[i])
  }

  /** A descriptor still to come stays so under any call that does not take it off the list. */
  lemma StepKeepsToCome(s: State, op: Op, fd: int)
    requires Wf(s) && fd in Remaining(s) && (op.fd == fd ==> !Unlists(s, op))
    ensures fd in Remaining(Step(s, op))
  {
    StepOnPass(s, op);
    RemainingIsListed(s, fd);
    ListsOrUnlists(s, op);
    hide Step, Remaining, Wf, Lists, Unlists, AtEnd, Without;
    if op.fd != fd {
      MembersWithout(Remaining(s), op.fd, fd);
    }
  }

  lemma StepsOne(s: State, ops: seq<Op>, n: nat)
    requires n < |ops|
    ensures Steps(s, ops[..n + 1]) == Step(Steps(s, ops[..n]), ops[n])
  {
    assert ops[..n + 1][..n] == ops[..n];
  }

  lemma {:induction false} StepsKeepToCome(s: State, ops: seq<Op>, fd: int, n: nat)
    requires Wf(s) && fd in Remaining(s) && KeepsListed(s, ops, fd) && n <= |ops|
    ensures Wf(Steps(s, ops[..n])) && fd in Remaining(Steps(s, ops[..n]))
  {
    if n > 0 {
      var m := n - 1;
      StepsKeepToCome(s, ops, fd, m);
      StepsOne(s, ops, m);
      assert ops[m].fd == fd ==> !Unlists(Steps(s, ops[..m]), ops[m]);
      hide Remaining, Wf, Step, Unlists, KeepsListed;
      StepKeepsToCome(Steps(s, ops[..m]), ops[m], fd);
      StepKeepsWf(Steps(s, ops[..m]), ops[m]);
    }
  }

  ghost predicate NotYet(log: seq<PollEvent>, fd: int, k: nat) {
    forall j | 0 <= j < k && j < |log| :: log[j].fd != fd
  }

  /** No callback takes fd off the list before fd has been returned. */
  ghost predicate KeptUntilReturned(s: State, script: nat -> Callback, log: seq<PollEvent>, fd: int) {
    forall k {:trigger log[k]} | 0 <= k < |log| && NotYet(log, fd, k + 1) ::
      var t := After(s, script, log[..k]);
      t.cursor in t.ring ==> KeepsListed(Advance(t), OpsOf(script(k), t.cursor), fd)
  }

  lemma LegalAt(s: State, script: nat -> Callback, log: seq<PollEvent>, k: nat)
    requires Legal(s, script, log) && k < |log|
    ensures var t := After(s, script, log[..k]);
            1 <= t.cursor && t.cursor in t.ring && t.cursor in t.fds && log[k] == EventAt(t) && log[k].fd == t.cursor &&
            After(s, script, log[..k + 1]) == Steps(Advance(t), OpsOf(script(k), t.cursor))
  {
    var e := log[k];
    assert log[..k + 1][..k] == log[..k];
  }

  lemma AfterNothing(s: State, script: nat -> Callback, log: seq<PollEvent>)
    ensures After(s, script, log[..0]) == s && log[..|log|] == log
  {
  }

  lemma KeptAt(s: State, script: nat -> Callback, log: seq<PollEvent>, fd: int, k: nat)
    requires KeptUntilReturned(s, script, log, fd) && k < |log| && NotYet(log, fd, k + 1)
    ensures var t := After(s, script, log[..k]);
            t.cursor in t.ring ==> KeepsListed(Advance(t), OpsOf(script(k), t.cursor), fd)
  {
    var e := log[k];
  }

  lemma NotYetEarlier(log: seq<PollEvent>, fd: int, k: nat, j: nat)
    requires NotYet(log, fd, k) && j <= k
    ensures NotYet(log, fd, j) && (j < k && j < |log| ==> log[j].fd != fd)
  {
  }

  lemma NextComes(t: State, fd: int)
    requires Wf(t) && fd in Remaining(t) && t.cursor != fd
    ensures t.cursor in t.ring && Wf(Advance(t)) && fd in Remaining(Advance(t))
  {
    RemainingIsListed(t, fd);
    AdvanceTakesOne(t);
    var r := Remaining(t);
    hide Remaining, Wf, Advance;
    assert r == [r[0]] + r[1..];
  }

  lemma {:induction false} StaysToCome(s: State, script: nat -> Callback, log: seq<PollEvent>, fd: int, k: nat)
    requires Wf(s) && fd in Remaining(s) && Legal(s, script, log) && KeptUntilReturned(s, script, log, fd)
    requires k <= |log| && NotYet(log, fd, k)
    ensures Wf(After(s, script, log[..k])) && fd in Remaining(After(s, script, log[..k]))
  {
    hide *;
    AfterNothing(s, script, log);
    if k > 0 {
      var n := k - 1;
      var t := After(s, script, log[..n]);
      NotYetEarlier(log, fd, k, n);
      StaysToCome(s, script, log, fd, n);
      LegalAt(s, script, log, n);
      KeptAt(s, script, log, fd, n);
      NextComes(t, fd);
      var ops := OpsOf(script(n), t.cursor);
      StepsKeepToCome(Advance(t), ops, fd, |ops|);
      assert ops[..|ops|] == ops;
    }
  }

  lemma WhereReturned(log: seq<PollEvent>, fd: int) returns (k: nat)
    ensures NotYet(log, fd, k) && k <= |log| && (k < |log| ==> log[k].fd == fd)
  {
    k := 0;
    while k < |log| && log[k].fd != fd
      invariant 0 <= k <= |log| && NotYet(log, fd, k)
    {
      k := k + 1;
    }
  }

  lemma EmptyRest(t: State, fd: int)
    requires Wf(t) && fd in Remaining(t)
    ensures 0 <= t.cursor
  {
    RemainingIsListed(t, fd);
  }

  lemma ReadyAtCursor(t: State)
    requires Wf(t) && t.cursor in t.ring && t.cursor in t.fds
    ensures EventAt(t).revents != {} && EventAt(t).fd == t.cursor
  {
    var e := t.fds[t.cursor];
    assert e.ready * e.mask == e.mask * e.ready;
  }

  /** A finished pass has returned every descriptor that was to come and that no callback took off
      the list before its turn, whatever else callbacks did, unless it ended at descriptor 0. */
  lemma {:induction false} WhatStaysListedIsReturned(s: State, script: nat -> Callback, log: seq<PollEvent>, fd: int)
      returns (k: nat)
    requires Wf(s) && fd in Remaining(s) && Legal(s, script, log) && KeptUntilReturned(s, script, log, fd)
    requires After(s, script, log).cursor < 1
    ensures After(s, script, log).cursor != 0 ==> k < |log| && log[k].fd == fd && log[k].revents != {}
  {
    hide *;
    k := WhereReturned(log, fd);
    StaysToCome(s, script, log, fd, k);
    if k < |log| {
      LegalAt(s, script, log, k);
      ReadyAtCursor(After(s, script, log[..k]));
    } else {
      AfterNothing(s, script, log);
      EmptyRest(After(s, script, log), fd);
    }
  }

  // ---------- nothing comes twice ----------

  function Returned(log: seq<PollEvent>): set<int> {
    set k | 0 <= k < |log| :: log[k].fd
  }

  /** What is still to come is exactly what is listed and has not been returned. */
  ghost predicate Fresh(t: State, done: set<int>) {
    forall x | x in t.ring :: x in Remaining(t) <==> x !in done
  }

  /** The calls that bring a returned descriptor back into the pass: taking the last of several off
      the list with the cursor on it, and listing one that has been returned. */
  predicate Repeats(s: State, op: Op, done: set<int>) {
    (Unlists(s, op) && AtEnd(s, op.fd)) || (Lists(s, op) && op.fd in done)
  }

  lemma RingAfter(s: State, op: Op, x: int)
    requires Wf(s)
    ensures x in Step(s, op).ring <==>
            if x == op.fd then (x in s.ring && !Unlists(s, op)) || Lists(s, op) else x in s.ring
  {
    StepKeepsWf(s, op);
    if x != op.fd {
      StepLeavesOthers(s, op, x);
    }
    hide Step;
  }

  /** A call keeps what is still to come exact if and only if it is not one of those. */
  lemma {:induction false} FreshIffNoRepeat(s: State, op: Op, done: set<int>)
    requires Wf(s) && Fresh(s, done)
    ensures Fresh(Step(s, op), done) <==> !Repeats(s, op, done)
  {
    var t := Step(s, op);
    StepOnPass(s, op);
    ListsOrUnlists(s, op);
    forall x
      ensures x in t.ring <==> if x == op.fd then (x in s.ring && !Unlists(s, op)) || Lists(s, op) else x in s.ring
    {
      RingAfter(s, op, x);
    }
    hide Step, Wf, Remaining, Lists, Unlists;
    if Unlists(s, op) {
      forall x | x != op.fd
        ensures x in Without(Remaining(s), op.fd) <==> x in Remaining(s)
        ensures x in Without(s.ring, op.fd) <==> x in s.ring
      {
        MembersWithout(Remaining(s), op.fd, x);
        MembersWithout(s.ring, op.fd, x);
      }
      if AtEnd(s, op.fd) {
        BackToHead(s, t, op.fd, done);
      }
    } else if Lists(s, op) {
      assert forall x :: x in Remaining(s) + [op.fd] <==> x in Remaining(s) || x == op.fd;
    }
  }

  lemma BackToHead(s: State, t: State, x: int, done: set<int>)
    requires Fresh(s, done) && Remaining(s) == [x] && Remaining(t) == Without(s.ring, x) != []
    requires forall y | y != x :: (y in t.ring <==> y in s.ring) && (y in Without(s.ring, x) <==> y in s.ring)
    requires x !in t.ring
    ensures !Fresh(t, done)
  {
    hide Without;
    var y := Remaining(t)[0];
    RemainingIsListed(t, y);
  }

  /** No callback makes one of those calls. */
  ghost predicate Careful(s: State, script: nat -> Callback, log: seq<PollEvent>) {
    forall k {:trigger log[k]} | 0 <= k < |log| ::
      var t := After(s, script, log[..k]);
      t.cursor in t.ring ==> NoRepeats(Advance(t), OpsOf(script(k), t.cursor), Returned(log[..k + 1]))
  }

  ghost predicate NoRepeats(s: State, ops: seq<Op>, done: set<int>) {
    forall i | 0 <= i < |ops| :: !Repeats(Steps(s, ops[..i]), ops[i], done)
  }

  lemma {:induction false} StepsKeepFresh(s: State, ops: seq<Op>, done: set<int>, n: nat)
    requires Wf(s) && Fresh(s, done) && NoRepeats(s, ops, done) && n <= |ops|
    ensures Wf(Steps(s, ops[..n])) && Fresh(Steps(s, ops[..n]), done)
  {
    if n > 0 {
      var m := n - 1;
      StepsKeepFresh(s, ops, done, m);
      StepsOne(s, ops, m);
      assert !Repeats(Steps(s, ops[..m]), ops[m], done);
      hide Wf, Fresh, Step, Repeats, NoRepeats;
      FreshIffNoRepeat(Steps(s, ops[..m]), ops[m], done);
      StepKeepsWf(Steps(s, ops[..m]), ops[m]);
    }
  }

  lemma AdvanceKeepsFresh(t: State, done: set<int>)
    requires Wf(t) && t.cursor in t.ring && Fresh(t, done)
    ensures Wf(Advance(t)) && Fresh(Advance(t), done + {t.cursor}) && t.cursor !in done
  {
    AdvanceTakesOne(t);
    DistinctRemaining(t);
    var r := Remaining(t);
    assert r == [r[0]] + r[1..];
    assert Advance(t).ring == t.ring;
    hide Remaining, Wf, Advance;
  }

  lemma DistinctRemaining(t: State)
    requires Wf(t) && t.cursor in t.ring
    ensures Remaining(t) != [] && Remaining(t)[0] == t.cursor && t.cursor !in Remaining(t)[1..]
  {
    var j := Find(t.ring, t.cursor);
    assert t.ring[j..][1..] == t.ring[j + 1..];
  }

  lemma CarefulAt(s: State, script: nat -> Callback, log: seq<PollEvent>, k: nat)
    requires Careful(s, script, log) && k < |log|
    ensures var t := After(s, script, log[..k]);
            t.cursor in t.ring ==> NoRepeats(Advance(t), OpsOf(script(k), t.cursor), Returned(log[..k + 1]))
  {
    var e := log[k];
  }

  lemma ReturnedOneMore(log: seq<PollEvent>, k: nat)
    requires k < |log|
    ensures Returned(log[..k + 1]) == Returned(log[..k]) + {log[k].fd}
  {
  }

  lemma AllFresh(s: State)
    requires Remaining(s) == s.ring
    ensures Fresh(s, {})
  {
  }

  lemma {:induction false} CarefulPassStaysFresh(s: State, script: nat -> Callback, log: seq<PollEvent>, k: nat)
    requires Wf(s) && Remaining(s) == s.ring && Legal(s, script, log) && Careful(s, script, log) && k <= |log|
    ensures Wf(After(s, script, log[..k])) && Fresh(After(s, script, log[..k]), Returned(log[..k]))
    ensures k < |log| ==> log[k].fd !in Returned(log[..k])
  {
    hide *;
    AfterNothing(s, script, log);
    if k == 0 {
      AllFresh(s);
      NothingReturned(log);
    } else {
      var n := k - 1;
      var t := After(s, script, log[..n]);
      CarefulPassStaysFresh(s, script, log, n);
      LegalAt(s, script, log, n);
      CarefulAt(s, script, log, n);
      AdvanceKeepsFresh(t, Returned(log[..n]));
      ReturnedOneMore(log, n);
      var ops := OpsOf(script(n), t.cursor);
      StepsKeepFresh(Advance(t), ops, Returned(log[..k]), |ops|);
      assert ops[..|ops|] == ops;
    }
    if k < |log| {
      LegalAt(s, script, log, k);
      AdvanceKeepsFresh(After(s, script, log[..k]), Returned(log[..k]));
    }
  }

  lemma NothingReturned(log: seq<PollEvent>)
    ensures Returned(log[..0]) == {}
  {
  }

  lemma ReturnedHas(log: seq<PollEvent>, j: nat, k: nat)
    requires j < k <= |log|
    ensures log[j].fd in Returned(log[..k])
  {
    assert log[..k][j] == log[j];
  }

  lemma ReturnedNotZero(s: State, script: nat -> Callback, log: seq<PollEvent>)
    requires Legal(s, script, log)
    ensures 0 !in Returned(log)
  {
    forall k | 0 <= k < |log| ensures log[k].fd != 0 {
      LegalAt(s, script, log, k);
    }
  }

  lemma PassEnd(t: State, done: set<int>)
    requires Wf(t) && Fresh(t, done) && 0 !in done && t.cursor < 1
    ensures t.cursor == -1 <==> 0 !in t.ring
    ensures t.cursor == -1 ==> forall x | x in t.ring :: x in done
  {
    WfIsDistinct(t);
    if 0 in t.ring {
      RemainingIsListed(t, 0);
    }
  }

  /** Exactly once: when callbacks make no call that brings a returned descriptor back, nothing is
      returned twice; the pass runs to the end if and only if descriptor 0 is not listed then; and
      at the end nothing is listed that was not returned, nor was anything missed that no callback
      took off the list before its turn. */
  lemma {:induction false} PassReturnsEachListedOnce(s: State, script: nat -> Callback, log: seq<PollEvent>)
    requires Wf(s) && Remaining(s) == s.ring && Legal(s, script, log) && Careful(s, script, log)
    requires After(s, script, log).cursor < 1
    ensures forall j, k | 0 <= j < k < |log| :: log[j].fd != log[k].fd
    ensures After(s, script, log).cursor == -1 <==> 0 !in After(s, script, log).ring
    ensures After(s, script, log).cursor == -1 ==>
              (forall x | x in After(s, script, log).ring :: x in Returned(log)) &&
              (forall x | x in s.ring && KeptUntilReturned(s, script, log, x) :: x in Returned(log))
  {
    hide *;
    forall j, k | 0 <= j < k < |log| ensures log[j].fd != log[k].fd {
      CarefulPassStaysFresh(s, script, log, k);
      ReturnedHas(log, j, k);
    }
    AfterNothing(s, script, log);
    CarefulPassStaysFresh(s, script, log, |log|);
    ReturnedNotZero(s, script, log);
    PassEnd(After(s, script, log), Returned(log));
    if After(s, script, log).cursor == -1 {
      forall x | x in s.ring && KeptUntilReturned(s, script, log, x) ensures x in Returned(log) {
        var k := WhatStaysListedIsReturned(s, script, log, x);
        ReturnedHas(log, k, |log|);
      }
    }
  }

  // ---------- callbacks that leave the rest alone ----------

  predicate Shrinks(op: Op) {
    op.Del? || op.ClearReadiness? || op.AndMask?
  }

  ghost predicate OnlyShrinks(script: nat -> Callback, from: nat) {
    forall k, op | from <= k && op in script(k).ops :: Shrinks(op)
  }

  /** During a pass, callbacks name no descriptor that was listed at its start and has not been
      returned yet. */
  ghost predicate LeavesRestAlone(ring: seq<int>, script: nat -> Callback) {
    forall k, op | 0 <= k < |ring| && op in script(k).ops :: op.fd !in ring[k + 1..]
  }

  lemma ShrinkingListsNothing(s: State, op: Op)
    requires Wf(s) && Shrinks(op)
    ensures !Lists(s, op)
  {
    StepKeepsWf(s, op);
  }

  lemma PrefixWithout(front: seq<int>, r: seq<int>, x: int)
    requires front <= r && x !in front
    ensures front <= Without(r, x) && (front == r ==> Without(r, x) == r)
  {
    if x in r {
      assert r[Find(r, x)] == x;
      assert Find(r, x) >= |front|;
    }
  }

  /** A call about other descriptors keeps those still to come in place, with their entries. */
  lemma StepElsewhere(s: State, op: Op, front: seq<int>)
    requires Wf(s) && front <= Remaining(s) && op.fd !in front
    ensures front <= Remaining(Step(s, op))
    ensures Shrinks(op) && front == Remaining(s) ==> front == Remaining(Step(s, op))
    ensures forall fd | fd in front ::
              (fd in Step(s, op).fds <==> fd in s.fds) && (fd in s.fds ==> Step(s, op).fds[fd] == s.fds[fd])
  {
    hide *;
    forall fd | fd in front
      ensures (fd in Step(s, op).fds <==> fd in s.fds) && (fd in s.fds ==> Step(s, op).fds[fd] == s.fds[fd])
    {
      StepLeavesOthers(s, op, fd);
    }
    StepOnPass(s, op);
    PrefixWithout(front, Remaining(s), op.fd);
    if Shrinks(op) {
      ShrinkingListsNothing(s, op);
    }
    PrefixOfOne(front, op.fd);
  }

  lemma PrefixOfOne(front: seq<int>, x: int)
    requires x !in front
    ensures front <= [x] ==> front == []
  {
    if front != [] {
      assert front[0] in front;
    }
  }

  lemma {:induction false} StepsElsewhere(s: State, ops: seq<Op>, front: seq<int>)
    requires Wf(s) && front <= Remaining(s) && forall op | op in ops :: op.fd !in front
    ensures Wf(Steps(s, ops)) && front <= Remaining(Steps(s, ops))
    ensures (forall op | op in ops :: Shrinks(op)) && front == Remaining(s) ==> front == Remaining(Steps(s, ops))
    ensures forall fd | fd in front && fd in s.fds :: fd in Steps(s, ops).fds && Steps(s, ops).fds[fd] == s.fds[fd]
  {
    if ops != [] {
      var n := |ops| - 1;
      assert ops[n] in ops;
      StepsElsewhere(s, ops[..n], front);
      StepElsewhere(Steps(s, ops[..n]), ops[n], front);
      StepKeepsWf(Steps(s, ops[..n]), ops[n]);
    }
  }

  ghost predicate SameEntries(fds: seq<int>, s: State, t: State) {
    forall fd | fd in fds :: fd in s.fds && fd in t.fds && t.fds[fd] == s.fds[fd]
  }

  /** After k events of a pass that began in s, the state is t. */
  ghost predicate MidPass(s: State, k: nat, t: State, exact: bool)
    requires k <= |s.ring|
  {
    Wf(t) && s.ring[k..] <= Remaining(t) && SameEntries(s.ring[k..], s, t) && (exact ==> Remaining(t) == s.ring[k..])
  }

  lemma PassStep(s: State, k: nat, t: State, ops: seq<Op>, exact: bool)
    requires k < |s.ring| && t.cursor in t.ring && MidPass(s, k, t, exact)
    requires forall op | op in ops :: op.fd !in s.ring[k + 1..] && (exact ==> Shrinks(op))
    ensures t.cursor == s.ring[k] && MidPass(s, k + 1, Steps(Advance(t), ops), exact)
  {
    var rest, u := s.ring[k + 1..], Steps(Advance(t), ops);
    AdvanceTakesOne(t);
    assert s.ring[k..][0] == s.ring[k] && s.ring[k..][1..] == rest;
    hide Remaining, Wf, Advance, Shrinks, Steps;
    StepsElsewhere(Advance(t), ops, rest);
    AdvanceKeepsEntries(t);
    FewerSameEntries(s, k, t);
    hide SameEntries;
    SameEntriesOn(rest, s, t, u);
  }

  lemma FewerSameEntries(s: State, k: nat, t: State)
    requires k < |s.ring| && SameEntries(s.ring[k..], s, t)
    ensures SameEntries(s.ring[k + 1..], s, t)
  {
    assert forall fd | fd in s.ring[k + 1..] :: fd in s.ring[k..];
  }

  lemma SameEntriesOn(fds: seq<int>, s: State, t: State, u: State)
    requires SameEntries(fds, s, t)
    requires forall fd | fd in fds && fd in t.fds :: fd in u.fds && u.fds[fd] == t.fds[fd]
    ensures SameEntries(fds, s, u)
  {
  }

  lemma AdvanceKeepsEntries(t: State)
    requires t.cursor in t.ring
    ensures Advance(t).fds == t.fds
  {
  }

  lemma {:induction false} PassSoFar(s: State, script: nat -> Callback, log: seq<PollEvent>, k: nat)
    requires Wf(s) && Remaining(s) == s.ring && Legal(s, script, log) && LeavesRestAlone(s.ring, script)
    requires k <= |log| && k <= |s.ring|
    ensures MidPass(s, k, After(s, script, log[..k]), OnlyShrinks(script, 0))
  {
    if k == 0 {
      assert s.ring[0..] == s.ring;
      assert forall fd | fd in s.ring :: fd in s.fds;
    } else {
      var n := k - 1;
      PassSoFar(s, script, log, n);
      assert log[..k][..n] == log[..n];
      var t := After(s, script, log[..n]);
      LegalAt(s, script, log, n);
      hide Wf, Remaining, Steps, Advance, MidPass;
      WeakerMidPass(s, n, t, OnlyShrinks(script, 0));
      MidPassCursor(s, n, t);
      var ops := OpsOf(script(n), t.cursor);
      forall op | op in ops ensures op.fd !in s.ring[k..] && (OnlyShrinks(script, 0) ==> Shrinks(op)) {
        assert op in script(n).ops || op == Del(s.ring[n]);
        RingTailMisses(s, n);
      }
      PassStep(s, n, t, ops, OnlyShrinks(script, 0));
    }
  }

  lemma WeakerMidPass(s: State, k: nat, t: State, exact: bool)
    requires k <= |s.ring| && MidPass(s, k, t, exact)
    ensures MidPass(s, k, t, false)
  {
  }

  lemma RingTailMisses(s: State, n: nat)
    requires Wf(s) && n < |s.ring|
    ensures s.ring[n] !in s.ring[n + 1..]
  {
  }

  /** The k-th event of log is the k-th descriptor listed in s, as it was then. */
  ghost predicate Reports(s: State, log: seq<PollEvent>, k: nat) {
    && k < |log| && k < |s.ring| && s.ring[k] in s.fds
    && var e := s.fds[s.ring[k]];
       log[k] == PollEvent(s.ring[k], e.ready * e.mask, e.client) && log[k].revents != {}
  }

  lemma MidPassCursor(s: State, k: nat, t: State)
    requires Wf(s) && k < |s.ring| && MidPass(s, k, t, false)
    ensures t.cursor in t.ring && t.cursor == s.ring[k] && s.ring[k] in s.fds && 0 <= s.ring[k]
    ensures t.cursor in t.fds && t.fds[t.cursor] == s.fds[s.ring[k]] && IsReady(s.fds[s.ring[k]])
  {
    assert s.ring[k] in s.ring;
    assert s.ring[k..][0] == s.ring[k] && s.ring[k] in s.ring[k..];
    if t.cursor in t.ring {
      AdvanceTakesOne(t);
    }
  }

  lemma PassReportsAt(s: State, script: nat -> Callback, log: seq<PollEvent>, k: nat)
    requires Wf(s) && Remaining(s) == s.ring && Legal(s, script, log) && LeavesRestAlone(s.ring, script)
    requires k < |log| && k < |s.ring|
    ensures Reports(s, log, k) && s.ring[k] != 0
  {
    PassSoFar(s, script, log, k);
    var t := After(s, script, log[..k]);
    WeakerMidPass(s, k, t, OnlyShrinks(script, 0));
    LegalAt(s, script, log, k);
    hide Wf, Remaining, MidPass, Legal, LeavesRestAlone, After;
    MidPassCursor(s, k, t);
    var e := s.fds[s.ring[k]];
    assert e.ready * e.mask == e.mask * e.ready;
  }

  lemma ShrinkingPassEnds(s: State, script: nat -> Callback, log: seq<PollEvent>)
    requires Wf(s) && Remaining(s) == s.ring && Legal(s, script, log) && LeavesRestAlone(s.ring, script)
    requires OnlyShrinks(script, 0)
    ensures |log| <= |s.ring|
  {
    if |s.ring| < |log| {
      var t := After(s, script, log[..|s.ring|]);
      PassSoFar(s, script, log, |s.ring|);
      LegalAt(s, script, log, |s.ring|);
      AdvanceTakesOne(t);
    }
  }

  /** When callbacks name no listed descriptor before its turn, the pass returns the list in order,
      each with the bits and client it had when the pass began, up to descriptor 0 if that is listed;
      when they also only clear or delete, nothing else is returned. */
  lemma {:induction false} UntouchedRestComesInOrder(s: State, script: nat -> Callback, log: seq<PollEvent>)
    requires Wf(s) && Remaining(s) == s.ring && Legal(s, script, log) && LeavesRestAlone(s.ring, script)
    requires After(s, script, log).cursor < 1
    ensures |log| >= |s.ring| <==> 0 !in s.ring
    ensures 0 in s.ring ==> |log| == Find(s.ring, 0)
    ensures 0 !in s.ring && OnlyShrinks(script, 0) ==> |log| == |s.ring|
    ensures forall k | 0 <= k < |log| && k < |s.ring| :: Reports(s, log, k)
  {
    hide *;
    forall k | 0 <= k < |log| && k < |s.ring| ensures Reports(s, log, k) {
      PassReportsAt(s, script, log, k);
    }
    if |log| < |s.ring| {
      ShortPassStopsAtZero(s, script, log);
    } else {
      LongPassMeetsNoZero(s, script, log);
      if OnlyShrinks(script, 0) {
        ShrinkingPassEnds(s, script, log);
      }
    }
  }

  lemma ShortPassStopsAtZero(s: State, script: nat -> Callback, log: seq<PollEvent>)
    requires Wf(s) && Remaining(s) == s.ring && Legal(s, script, log) && LeavesRestAlone(s.ring, script)
    requires After(s, script, log).cursor < 1 && |log| < |s.ring|
    ensures 0 in s.ring && Find(s.ring, 0) == |log|
  {
    hide *;
    WfIsDistinct(s);
    var n := |log|;
    assert log[..n] == log;
    var t := After(s, script, log[..n]);
    PassSoFar(s, script, log, n);
    WeakerMidPass(s, n, t, OnlyShrinks(script, 0));
    MidPassCursor(s, n, t);
    DistinctFind(s.ring, n);
  }

  lemma LongPassMeetsNoZero(s: State, script: nat -> Callback, log: seq<PollEvent>)
    requires Wf(s) && Remaining(s) == s.ring && Legal(s, script, log) && LeavesRestAlone(s.ring, script)
    requires |log| >= |s.ring|
    ensures 0 !in s.ring
  {
    hide *;
    forall k | 0 <= k < |s.ring| ensures s.ring[k] != 0 {
      PassReportsAt(s, script, log, k);
    }
  }

  // ---------- level from edge ----------

  /** The bits b are all wanted and reported for fd. */
  ghost predicate Raised(s: State, fd: int, b: Bits) {
    fd in s.fds && b <= s.fds[fd].mask * s.fds[fd].ready
  }

  /** The calls that take one of the bits b away from the descriptor they name. */
  predicate TakesAway(op: Op, b: Bits) {
    match op
    case Del(_) => true
    case SetMask(_, m) => !(b <= m)
    case AndMask(_, m) => !(b <= m)
    case ClearReadiness(_, m) => m * b != {}
    case Resync(_, r) => !(b <= r)
    case _ => false
  }

  lemma {:induction false} RaisedUntilTakenAway(s: State, op: Op, fd: int, b: Bits)
    requires Wf(s) && Raised(s, fd, b)
    ensures Raised(Step(s, op), fd, b) <==> op.fd != fd || !TakesAway(op, b)
  {
    if op.fd == fd && op.ClearReadiness? {
      var e := s.fds[fd];
      assert b <= e.mask * (e.ready - op.mask) <==> op.mask * b == {} by {
        assert forall x | x in b && x in op.mask :: x in op.mask * b;
      }
    }
  }

  /** A run of the poller: calls, starts of passes, and returns of events. */
  datatype Event = Call(op: Op) | StartPass | Return

  function Walk(s: State, events: seq<Event>): State {
    if events == [] then s
    else
      var t := Walk(s, events[..|events| - 1]);
      match events[|events| - 1]
      case Call(op) => Step(t, op)
      case StartPass => t.(cursor := Head(t))
      case Return => if t.cursor in t.ring then Advance(t) else t
  }

  lemma {:induction false} WalkKeepsRaised(s: State, events: seq<Event>, fd: int, b: Bits)
    requires Wf(s) && Raised(s, fd, b)
    requires forall e | e in events && e.Call? && e.op.fd == fd :: !TakesAway(e.op, b)
    ensures Wf(Walk(s, events)) && Raised(Walk(s, events), fd, b)
  {
    if events != [] {
      var n := |events| - 1;
      WalkKeepsRaised(s, events[..n], fd, b);
      var t := Walk(s, events[..n]);
      assert events[n] in events;
      match events[n]
      case Call(op) =>
        StepKeepsWf(t, op);
        RaisedUntilTakenAway(t, op, fd, b);
      case StartPass =>
      case Return =>
        if t.cursor in t.ring { AdvanceTakesOne(t); }
    }
  }

  /** No callback takes one of the bits b of fd away before fd has been returned. */
  ghost predicate KeepsBits(script: nat -> Callback, log: seq<PollEvent>, fd: int, b: Bits) {
    forall k {:trigger log[k]} | 0 <= k < |log| && NotYet(log, fd, k + 1) ::
      forall op | op in script(k).ops && op.fd == fd :: !TakesAway(op, b)
  }

  lemma KeepsBitsAt(script: nat -> Callback, log: seq<PollEvent>, fd: int, b: Bits, k: nat)
    requires KeepsBits(script, log, fd, b) && k < |log| && NotYet(log, fd, k + 1)
    ensures forall op | op in OpsOf(script(k), log[k].fd) && op.fd == fd :: !TakesAway(op, b)
  {
    var e := log[k];
    assert forall op | op in OpsOf(script(k), log[k].fd) :: op in script(k).ops || op == Del(log[k].fd);
  }

  lemma RaisedIsListed(s: State, fd: int, b: Bits)
    requires Wf(s) && Raised(s, fd, b) && b != {}
    ensures fd in s.ring
  {
    var bits := s.fds[fd].mask * s.fds[fd].ready;
    assert forall x | x in b :: x in bits;
    assert bits == {} ==> b == {};
  }

  lemma StepKeepsPending(s: State, op: Op, fd: int, b: Bits)
    requires Wf(s) && fd in Remaining(s) && Raised(s, fd, b) && b != {} && (op.fd == fd ==> !TakesAway(op, b))
    ensures Wf(Step(s, op)) && fd in Remaining(Step(s, op)) && Raised(Step(s, op), fd, b)
  {
    StepKeepsWf(s, op);
    RaisedUntilTakenAway(s, op, fd, b);
    hide *;
    RaisedIsListed(Step(s, op), fd, b);
    ListsOrUnlists(s, op);
    StepKeepsToCome(s, op, fd);
  }

  lemma {:induction false} StepsKeepPending(s: State, ops: seq<Op>, fd: int, b: Bits)
    requires Wf(s) && fd in Remaining(s) && Raised(s, fd, b) && b != {}
    requires forall op | op in ops && op.fd == fd :: !TakesAway(op, b)
    ensures Wf(Steps(s, ops)) && fd in Remaining(Steps(s, ops)) && Raised(Steps(s, ops), fd, b)
  {
    if ops != [] {
      var n := |ops| - 1;
      assert ops[n] in ops;
      StepsKeepPending(s, ops[..n], fd, b);
      hide Wf, Remaining, Raised, TakesAway, Step;
      StepKeepsPending(Steps(s, ops[..n]), ops[n], fd, b);
    }
  }

  lemma AdvanceKeepsRaised(t: State, fd: int, b: Bits)
    requires Raised(t, fd, b) && t.cursor in t.ring
    ensures Raised(Advance(t), fd, b)
  {
  }

  lemma {:induction false} StaysPending(s: State, script: nat -> Callback, log: seq<PollEvent>, fd: int, b: Bits,
      k: nat)
    requires Wf(s) && fd in Remaining(s) && Raised(s, fd, b) && b != {}
    requires Legal(s, script, log) && KeepsBits(script, log, fd, b) && k <= |log| && NotYet(log, fd, k)
    ensures var t := After(s, script, log[..k]);
            Wf(t) && fd in Remaining(t) && Raised(t, fd, b)
  {
    hide *;
    AfterNothing(s, script, log);
    if k > 0 {
      var n := k - 1;
      var t := After(s, script, log[..n]);
      NotYetEarlier(log, fd, k, n);
      StaysPending(s, script, log, fd, b, n);
      LegalAt(s, script, log, n);
      KeepsBitsAt(script, log, fd, b, n);
      NextComes(t, fd);
      AdvanceKeepsRaised(t, fd, b);
      StepsKeepPending(Advance(t), OpsOf(script(n), t.cursor), fd, b);
    }
  }

  lemma RaisedAtCursor(t: State, fd: int, b: Bits)
    requires Raised(t, fd, b) && t.cursor == fd
    ensures b <= EventAt(t).revents && EventAt(t).fd == fd
  {
    var e := t.fds[fd];
    assert e.ready * e.mask == e.mask * e.ready;
  }

  /** Whatever callbacks do to other descriptors, and whatever of fd they leave alone, a pass that
      does not end at descriptor 0 reports the bits b of fd. */
  lemma {:induction false} RaisedIsReported(s: State, script: nat -> Callback, log: seq<PollEvent>, fd: int, b: Bits)
      returns (k: nat)
    requires Wf(s) && fd in Remaining(s) && Raised(s, fd, b) && b != {}
    requires Legal(s, script, log) && KeepsBits(script, log, fd, b) && After(s, script, log).cursor < 1
    ensures After(s, script, log).cursor != 0 ==> k < |log| && log[k].fd == fd && b <= log[k].revents
  {
    hide *;
    k := WhereReturned(log, fd);
    StaysPending(s, script, log, fd, b, k);
    if k < |log| {
      LegalAt(s, script, log, k);
      RaisedAtCursor(After(s, script, log[..k]), fd, b);
    } else {
      AfterNothing(s, script, log);
      EmptyRest(After(s, script, log), fd);
    }
  }

  /** Edges become levels: bits once raised are reported by every later full pass, until a call
      takes one of them away. */
  lemma {:induction false} LevelFromEdge(s: State, events: seq<Event>, pulled: seq<Op>, fd: int, b: Bits,
      script: nat -> Callback, log: seq<PollEvent>) returns (k: nat)
    requires Wf(s) && Raised(s, fd, b) && b != {}
    requires forall e | e in events && e.Call? && e.op.fd == fd :: !TakesAway(e.op, b)
    requires Pulled(pulled) && forall op | op in pulled && op.fd == fd :: !TakesAway(op, b)
    requires var t := Wait(Walk(s, events), pulled);
             Legal(t, script, log) && KeepsBits(script, log, fd, b) && After(t, script, log).cursor < 1
    ensures After(Wait(Walk(s, events), pulled), script, log).cursor != 0 ==>
              k < |log| && log[k].fd == fd && b <= log[k].revents
  {
    hide *;
    var u := Walk(s, events);
    WalkKeepsRaised(s, events, fd, b);
    WaitStartsFullPass(u, pulled);
    WaitKeepsRaised(u, pulled, fd, b);
    RaisedIsListed(Wait(u, pulled), fd, b);
    k := RaisedIsReported(Wait(u, pulled), script, log, fd, b);
  }

  lemma WaitKeepsRaised(u: State, pulled: seq<Op>, fd: int, b: Bits)
    requires Wf(u) && Raised(u, fd, b)
    requires forall op | op in pulled && op.fd == fd :: !TakesAway(op, b)
    ensures Raised(Wait(u, pulled), fd, b)
  {
    StepsKeepRaised(u.(cursor := Head(u)), pulled, fd, b);
  }

  lemma {:induction false} StepsKeepRaised(s: State, ops: seq<Op>, fd: int, b: Bits)
    requires Wf(s) && Raised(s, fd, b)
    requires forall op | op in ops && op.fd == fd :: !TakesAway(op, b)
    ensures Raised(Steps(s, ops), fd, b)
  {
    if ops != [] {
      var n := |ops| - 1;
      assert ops[n] in ops;
      StepsKeepRaised(s, ops[..n], fd, b);
      StepsKeepWf(s, ops[..n]);
      RaisedUntilTakenAway(Steps(s, ops[..n]), ops[n], fd, b);
    }
  }

  // ---------- what a run leaves of the masks and of the readiness ----------

  /** The two halves of an entry's bits: what is wanted, and what is ready. */
  datatype Half = Wanted | Reported

  function BitsOf(e: Entry, half: Half): Bits {
    if half == Wanted then e.mask else e.ready
  }

  /** An event of a run settles whether bit x of fd is wanted, or ready: monitoring fd settles every
      bit; so does setMask for what is wanted, while orMask settles the bits it names and andMask those it
      does not; of what is ready, a report of the backup poller settles every bit, clearing the bits it
      names, and a signal those it brings.  here says whether fd is monitored. */
  predicate Settles(here: bool, e: Event, half: Half, fd: int, x: int) {
    e.Call? && e.op.fd == fd &&
    match e.op
    case Add(_, _, _) => !here
    case Del(_) => false
    case SetMask(_, _) => here && half == Wanted
    case OrMask(_, m) => here && half == Wanted && x in m
    case AndMask(_, m) => here && half == Wanted && x !in m
    case ClearReadiness(_, m) => here && half == Reported && x in m
    case Signal(_, band) => here && half == Reported && x in band && x in ALLBITS
    case Resync(_, _) => here && half == Reported
  }

  predicate Gives(e: Event, half: Half, x: int) {
    e.Call? &&
    match e.op
    case Add(_, _, m) => if half == Wanted then x in m else x == IN || x == OUT
    case SetMask(_, m) => x in m
    case OrMask(_, _) => true
    case Signal(_, _) => true
    case Resync(_, band) => x in band
    case _ => false
  }

  function Settling(s: State, events: seq<Event>, half: Half, fd: int, x: int): seq<bool> {
    seq(|events|, k requires 0 <= k < |events| => Settles(fd in Walk(s, events[..k]).fds, events[k], half, fd, x))
  }

  function Giving(events: seq<Event>, half: Half, x: int): seq<bool> {
    seq(|events|, k requires 0 <= k < |events| => Gives(events[k], half, x))
  }

  lemma SettlingOneMore(s: State, events: seq<Event>, half: Half, fd: int, x: int)
    requires events != []
    ensures var n := |events| - 1;
            Settling(s, events, half, fd, x) == Settling(s, events[..n], half, fd, x) +
              [Settles(fd in Walk(s, events[..n]).fds, events[n], half, fd, x)] &&
            Giving(events, half, x) == Giving(events[..n], half, x) + [Gives(events[n], half, x)]
  {
    hide Settles, Gives, Walk;
    var n := |events| - 1;
    assert forall k | 0 <= k < n :: events[..n][..k] == events[..k];
  }

  lemma OneCallSettles(s: State, op: Op, half: Half, fd: int, x: int)
    requires 0 <= fd && fd in Step(s, op).fds
    ensures var settles := Settles(fd in s.fds, Call(op), half, fd, x);
            (!settles ==> fd in s.fds) &&
            (x in BitsOf(Step(s, op).fds[fd], half) <==>
               if settles then Gives(Call(op), half, x) else x in BitsOf(s.fds[fd], half))
  {
    if op.fd != fd {
      StepLeavesOthers(s, op, fd);
    } else {
      EntryAfter(s, op);
    }
    hide Step;
  }

  /** A client listens to a descriptor from when it adds it. */
  lemma {:induction false} WhoListens(s: State, op: Op, fd: int)
    requires 0 <= fd && fd in Step(s, op).fds
    ensures Step(s, op).fds[fd].client == if op.Add? && op.fd == fd && fd !in s.fds then op.client else s.fds[fd].client
  {
    if op.fd != fd {
      StepLeavesOthers(s, op, fd);
    } else {
      EntryAfter(s, op);
    }
    hide Step;
  }

  lemma EntryAfter(s: State, op: Op)
    requires 0 <= op.fd && op.fd in Step(s, op).fds
    ensures op.fd in s.fds || op.Add?
    ensures Step(s, op).fds[op.fd] ==
            if op.fd !in s.fds then Entry(op.client, op.mask, {IN, OUT})
            else
              var e := s.fds[op.fd];
              match op
              case SetMask(_, m) => e.(mask := m)
              case OrMask(_, m) => e.(mask := e.mask + m)
              case AndMask(_, m) => e.(mask := e.mask * m)
              case ClearReadiness(_, m) => e.(ready := e.ready - m)
              case Signal(_, b) => e.(ready := e.ready + (b * ALLBITS))
              case Resync(_, b) => e.(ready := b)
              case _ => e
  {
  }

  lemma {:induction false} BitIsSettled(s: State, events: seq<Event>, half: Half, fd: int, x: int)
    requires 0 <= fd && fd in Walk(s, events).fds
    ensures x in BitsOf(Walk(s, events).fds[fd], half) <==>
            Settled(Settling(s, events, half, fd, x), Giving(events, half, x),
                    fd in s.fds && x in BitsOf(s.fds[fd], half))
    decreases |events|
  {
    if events != [] {
      var n := |events| - 1;
      var t := Walk(s, events[..n]);
      if events[n].Call? {
        OneCallSettles(t, events[n].op, half, fd, x);
      }
      SettlingOneMore(s, events, half, fd, x);
      hide Step, Settling, Giving, BitsOf;
      if fd in t.fds {
        BitIsSettled(s, events[..n], half, fd, x);
      }
    }
  }

  /** Bit x of fd is wanted, or ready, by the last event of the run that settled it. */
  ghost predicate LastGiven(s: State, events: seq<Event>, half: Half, fd: int, x: int) {
    var settling := Settling(s, events, half, fd, x);
    || (exists k | 0 <= k < |events| :: IsLast(settling, k) && Gives(events[k], half, x))
    || (true !in settling && fd in s.fds && x in BitsOf(s.fds[fd], half))
  }

  /** Over any run of calls, signals, reports and passes, a bit is in the mask of a monitored
      descriptor, or among its readiness, if and only if the last event that settled it put it there. */
  lemma {:induction false} BitIsAsLastSettled(s: State, events: seq<Event>, half: Half, fd: int, x: int)
    requires 0 <= fd && fd in Walk(s, events).fds
    ensures x in BitsOf(Walk(s, events).fds[fd], half) <==> LastGiven(s, events, half, fd, x)
  {
    BitIsSettled(s, events, half, fd, x);
    SettledByTheLast(Settling(s, events, half, fd, x), Giving(events, half, x),
                     fd in s.fds && x in BitsOf(s.fds[fd], half));
    hide Walk, Gives, Settled, IsLast, BitsOf, Settles;
    assert forall k | 0 <= k < |events| :: Giving(events, half, x)[k] == Gives(events[k], half, x);
  }

  lemma {:induction false} WalkKeepsWf(s: State, events: seq<Event>)
    requires Wf(s)
    ensures Wf(Walk(s, events))
  {
    if events != [] {
      var n := |events| - 1;
      WalkKeepsWf(s, events[..n]);
      var t := Walk(s, events[..n]);
      match events[n]
      case Call(op) => StepKeepsWf(t, op);
      case StartPass =>
      case Return =>
        if t.cursor in t.ring { AdvanceTakesOne(t); }
    }
  }

  /** Whatever has become wanted and is ready is reported by the next full pass, in whichever order it
      became so, and whatever callbacks do that leaves it alone. */
  lemma {:induction false} WantedAndReadyIsReported(s: State, events: seq<Event>, pulled: seq<Op>, fd: int, b: Bits,
      script: nat -> Callback, log: seq<PollEvent>) returns (k: nat)
    requires Wf(s) && 0 <= fd && fd in Walk(s, events).fds && b != {}
    requires forall x, half | x in b :: LastGiven(s, events, half, fd, x)
    requires Pulled(pulled) && forall op | op in pulled && op.fd == fd :: !TakesAway(op, b)
    requires var t := Wait(Walk(s, events), pulled);
             Legal(t, script, log) && KeepsBits(script, log, fd, b) && After(t, script, log).cursor < 1
    ensures After(Wait(Walk(s, events), pulled), script, log).cursor != 0 ==>
              k < |log| && log[k].fd == fd && b <= log[k].revents
  {
    var u := Walk(s, events);
    WalkKeepsWf(s, events);
    forall x, half | x in b ensures x in BitsOf(u.fds[fd], half) {
      BitIsAsLastSettled(s, events, half, fd, x);
    }
    RaisedByBits(u, fd, b);
    NoWalk(u);
    hide *;
    k := LevelFromEdge(u, [], pulled, fd, b, script, log);
  }

  lemma NoWalk(s: State)
    ensures Walk(s, []) == s
  {
  }

  lemma RaisedByBits(u: State, fd: int, b: Bits)
    requires fd in u.fds && forall x, half | x in b :: x in BitsOf(u.fds[fd], half)
    ensures Raised(u, fd, b)
  {
    forall x | x in b ensures x in u.fds[fd].mask * u.fds[fd].ready {
      assert x in BitsOf(u.fds[fd], Wanted) && x in BitsOf(u.fds[fd], Reported);
    }
  }

  lemma {:induction false} AfterKeepsWf(s: State, script: nat -> Callback, log: seq<PollEvent>)
    requires Wf(s)
    ensures Wf(After(s, script, log))
  {
    if log != [] {
      var n := |log| - 1;
      AfterKeepsWf(s, script, log[..n]);
      var t := After(s, script, log[..n]);
      hide Wf;
      if t.cursor in t.ring {
        AdvanceTakesOne(t);
        StepsKeepWf(Advance(t), OpsOf(script(n), t.cursor));
      }
    }
  }

  /** No pass reports anything else: an event has exactly the bits wanted and ready when it is
      returned, some of them, and goes to the client that listens. */
  lemma {:induction false} EventsAreExact(s: State, script: nat -> Callback, log: seq<PollEvent>, k: nat, x: int)
    requires Wf(s) && Legal(s, script, log) && k < |log|
    ensures var t := After(s, script, log[..k]);
            var e := log[k];
            e.fd in t.fds && e.client == t.fds[e.fd].client && e.revents != {} &&
            (x in e.revents <==> x in t.fds[e.fd].mask && x in t.fds[e.fd].ready)
  {
    AfterKeepsWf(s, script, log[..k]);
    LegalAt(s, script, log, k);
    var t := After(s, script, log[..k]);
    hide After;
    assert t.fds[t.cursor].mask * t.fds[t.cursor].ready == t.fds[t.cursor].ready * t.fds[t.cursor].mask;
  }

  /** What AtEnd stands for, in a run: a callback deletes the last listed descriptor with the cursor
      on it, and descriptor 1 comes twice. */
  lemma {:induction false} DeletingLastRestartsPass() returns (s: State, script: nat -> Callback, log: seq<PollEvent>)
    ensures Wf(s) && Remaining(s) == s.ring && |log| == 2 && Legal(s, script, log) && log[0] == log[1]
  {
    var e := Entry(7, {IN}, {IN});
    s := State(map[1 := e, 2 := e], [1, 2], 1);
    script := k => Callback(if k == 0 then [Del(2)] else [], false);
    var ev := PollEvent(1, {IN}, 7);
    log := [ev, ev];
    assert s.ring[0..] == s.ring;
    assert IN in e.mask * e.ready;
    assert log[..0] == [] && log[..1] == [ev] && [ev][..0] == [];
    var ops := OpsOf(script(0), 1);
    assert ops == [Del(2)] && ops[..0] == [];
    var a := Advance(s);
    assert a.cursor == 2 && Find([1, 2], 2) == 1;
    assert [1, 2][..1] + [1, 2][2..] == [1];
    assert Steps(a, ops) == Step(a, Del(2));
    assert After(s, script, [ev]) == State(map[1 := e], [1], 1);
  }
}
