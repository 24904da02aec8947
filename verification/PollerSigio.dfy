/** The poller over realtime signals: a circular doubly linked ready list threaded through the
    table of descriptors, proved to refine SigioSpec. */
module PollerSigio {
  import opened PollerTypes
  import opened SigioSpec

  const INITIAL_ALLOCATION := 16

  datatype FdState = FdState(client: Client, next: int, prev: int, mask: Bits, ready: Bits)

  const CLEAR := FdState(NOBODY, -1, -2, {}, ALLBITS)

  predicate IsClear(f: FdState) { f.prev == -2 }

  predicate FdIsReady(f: FdState) { f.mask * f.ready != {} }

  predicate IsOnReadyList(f: FdState) { f.next >= 0 }

  function Succ(i: int, n: int): (k: int)
    ensures 0 <= i < n ==> 0 <= k < n
  {
    if i + 1 == n then 0 else i + 1
  }

  function Pred(i: int, n: int): (k: int)
    ensures 0 <= i < n ==> 0 <= k < n
  {
    if i == 0 then n - 1 else i - 1
  }

  /** From the head, m_next runs through ring and back to the start, m_prev is its inverse, and no
      other entry is linked. */
  ghost predicate Linked(fds: seq<FdState>, ring: seq<int>) {
    && Distinct(ring)
    && (forall i | 0 <= i < |ring| ::
          0 <= ring[i] < |fds| && fds[ring[i]].next == ring[Succ(i, |ring|)] &&
          fds[ring[i]].prev == ring[Pred(i, |ring|)])
    && (forall fd | 0 <= fd < |fds| && fd !in ring :: fds[fd].next == -1 && (fds[fd].prev == -1 || fds[fd].prev == -2))
  }

  /** The table read as a map: every entry in use. */
  ghost function EntriesOf(fds: seq<FdState>): map<int, Entry> {
    map fd | 0 <= fd < |fds| && !IsClear(fds[fd]) :: Entry(fds[fd].client, fds[fd].mask, fds[fd].ready)
  }

  /** Relinking leaves the map alone. */
  lemma SameEntriesOf(a: seq<FdState>, b: seq<FdState>)
    requires |a| == |b|
    requires forall fd | 0 <= fd < |a| ::
               a[fd].client == b[fd].client && a[fd].mask == b[fd].mask && a[fd].ready == b[fd].ready &&
               IsClear(a[fd]) == IsClear(b[fd])
    ensures EntriesOf(a) == EntriesOf(b)
  {
  }

  lemma LinkFirstLinks(fds: seq<FdState>, fd: int)
    requires Linked(fds, []) && 0 <= fd < |fds| && !IsClear(fds[fd])
    ensures var b := fds[fd := fds[fd].(next := fd, prev := fd)];
            Linked(b, [fd]) && EntriesOf(b) == EntriesOf(fds)
  {
    SameEntriesOf(fds, fds[fd := fds[fd].(next := fd, prev := fd)]);
  }

  function LinkLast(fds: seq<FdState>, fd: int, head: int): (r: seq<FdState>)
    requires 0 <= fd < |fds| && 0 <= head < |fds| && 0 <= fds[head].prev < |fds|
    ensures |r| == |fds|
  {
    var last := fds[head].prev;
    var a := fds[fd := fds[fd].(prev := last, next := head)];
    var b := a[last := a[last].(next := fd)];
    b[head := b[head].(prev := fd)]
  }

  lemma LinkLastEntries(fds: seq<FdState>, fd: int, head: int)
    requires 0 <= fd < |fds| && 0 <= head < |fds| && 0 <= fds[head].prev < |fds|
    requires !IsClear(fds[fd]) && !IsClear(fds[head]) && !IsClear(fds[fds[head].prev])
    ensures EntriesOf(LinkLast(fds, fd, head)) == EntriesOf(fds)
  {
    SameEntriesOf(fds, LinkLast(fds, fd, head));
  }

  lemma UnlinkEntries(fds: seq<FdState>, fd: int)
    requires 0 <= fd < |fds| && 0 <= fds[fd].prev < |fds| && 0 <= fds[fd].next < |fds|
    requires !IsClear(fds[fds[fd].prev]) && !IsClear(fds[fds[fd].next])
    ensures EntriesOf(Unlink(fds, fd)) == EntriesOf(fds)
  {
    SameEntriesOf(fds, Unlink(fds, fd));
  }

  function Unlink(fds: seq<FdState>, fd: int): (r: seq<FdState>)
    requires 0 <= fd < |fds| && 0 <= fds[fd].prev < |fds| && 0 <= fds[fd].next < |fds|
    ensures |r| == |fds|
  {
    var next, prev := fds[fd].next, fds[fd].prev;
    var a := fds[prev := fds[prev].(next := next)];
    var b := a[next := a[next].(prev := prev)];
    b[fd := b[fd].(next := -1, prev := -1)]
  }

  /** One link of the ring. */
  lemma LinkAt(fds: seq<FdState>, ring: seq<int>, i: nat)
    requires Linked(fds, ring) && i < |ring|
    ensures var n := |ring|;
            0 <= ring[i] < |fds| && fds[ring[i]].next == ring[Succ(i, n)] && fds[ring[i]].prev == ring[Pred(i, n)] &&
            0 <= ring[Succ(i, n)] < |fds| && 0 <= ring[Pred(i, n)] < |fds| && Distinct(ring)
  {
  }

  lemma UnlinkedNeighbours(fds: seq<FdState>, ring: seq<int>, j: nat, k: nat)
    requires Linked(fds, ring) && j < |ring| && k < |ring| && k != j
    requires 0 <= ring[j] < |fds| && 0 <= fds[ring[j]].prev < |fds| && 0 <= fds[ring[j]].next < |fds|
    ensures var b, n := Unlink(fds, ring[j]), |ring|;
            0 <= ring[k] < |fds| && ring[k] != ring[j] &&
            b[ring[k]].next == (if Succ(k, n) == j then ring[Succ(j, n)] else ring[Succ(k, n)]) &&
            b[ring[k]].prev == (if Pred(k, n) == j then ring[Pred(j, n)] else ring[Pred(k, n)])
  {
    var n := |ring|;
    LinkAt(fds, ring, j);
    LinkAt(fds, ring, k);
    DistinctAt(ring, j, k);
    DistinctAt(ring, k, Pred(j, n));
    DistinctAt(ring, k, Succ(j, n));
    hide Linked, Distinct;
  }

  lemma CutNeighbours(ring: seq<int>, j: nat, i: nat)
    requires j < |ring| && i + 1 < |ring|
    ensures var n, r, k := |ring|, ring[..j] + ring[j + 1..], if i < j then i else i + 1;
            r[i] == ring[k] &&
            r[Succ(i, n - 1)] == ring[if Succ(k, n) == j then Succ(j, n) else Succ(k, n)] &&
            r[Pred(i, n - 1)] == ring[if Pred(k, n) == j then Pred(j, n) else Pred(k, n)]
  {
  }

  lemma UnlinkedAt(fds: seq<FdState>, ring: seq<int>, j: nat, i: nat)
    requires Linked(fds, ring) && j < |ring| && i + 1 < |ring|
    requires 0 <= ring[j] < |fds| && 0 <= fds[ring[j]].prev < |fds| && 0 <= fds[ring[j]].next < |fds|
    ensures var b, r := Unlink(fds, ring[j]), ring[..j] + ring[j + 1..];
            0 <= r[i] < |fds| && b[r[i]].next == r[Succ(i, |r|)] && b[r[i]].prev == r[Pred(i, |r|)]
  {
    hide Linked, Unlink, Distinct, Succ, Pred;
    UnlinkedNeighbours(fds, ring, j, if i < j then i else i + 1);
    CutNeighbours(ring, j, i);
  }

  lemma CutMembers(ring: seq<int>, j: nat, x: int)
    requires j < |ring| && x in ring && x != ring[j]
    ensures x in ring[..j] + ring[j + 1..]
  {
    var k := Find(ring, x);
    assert (ring[..j] + ring[j + 1..])[if k < j then k else k - 1] == x;
  }

  lemma UnlinkElsewhere(fds: seq<FdState>, fd: int, x: int)
    requires 0 <= fd < |fds| && 0 <= fds[fd].prev < |fds| && 0 <= fds[fd].next < |fds| && 0 <= x < |fds|
    ensures x == fd ==> Unlink(fds, fd)[x].next == Unlink(fds, fd)[x].prev == -1
    ensures x != fd && x != fds[fd].prev && x != fds[fd].next ==> Unlink(fds, fd)[x] == fds[x]
  {
  }

  /** A descriptor that is not on the ring is linked to nothing, and nothing on the ring to it. */
  lemma UnlistedAt(fds: seq<FdState>, ring: seq<int>, x: int, j: nat)
    requires Linked(fds, ring) && 0 <= x < |fds| && x !in ring && j < |ring|
    ensures fds[x].next == -1 && (fds[x].prev == -1 || fds[x].prev == -2)
    ensures 0 <= ring[j] < |fds| && x != fds[ring[j]].next && x != fds[ring[j]].prev
  {
  }

  lemma UnlinkedOthers(fds: seq<FdState>, ring: seq<int>, j: nat, x: int)
    requires Linked(fds, ring) && j < |ring| && 0 <= x < |fds| && x !in ring[..j] + ring[j + 1..]
    requires 0 <= ring[j] < |fds| && 0 <= fds[ring[j]].prev < |fds| && 0 <= fds[ring[j]].next < |fds|
    ensures var b := Unlink(fds, ring[j]); b[x].next == -1 && (b[x].prev == -1 || b[x].prev == -2)
  {
    hide *;
    UnlinkElsewhere(fds, ring[j], x);
    if x != ring[j] {
      if x in ring {
        CutMembers(ring, j, x);
        assert false;
      }
      UnlistedAt(fds, ring, x, j);
    }
  }

  lemma DistinctCut(ring: seq<int>, j: nat)
    requires Distinct(ring) && j < |ring|
    ensures Distinct(ring[..j] + ring[j + 1..])
  {
  }

  function Cut(ring: seq<int>, j: nat): (r: seq<int>)
    requires j < |ring|
    ensures |r| == |ring| - 1
  {
    ring[..j] + ring[j + 1..]
  }

  lemma UnlinkLinks(fds: seq<FdState>, ring: seq<int>, j: nat)
    requires Linked(fds, ring) && j < |ring|
    ensures 0 <= ring[j] < |fds| && 0 <= fds[ring[j]].prev < |fds| && 0 <= fds[ring[j]].next < |fds|
    ensures Linked(Unlink(fds, ring[j]), Cut(ring, j))
    ensures EntriesOf(Unlink(fds, ring[j])) == EntriesOf(fds)
  {
    LinkAt(fds, ring, j);
    DistinctCut(ring, j);
    LinkAt(fds, ring, Succ(j, |ring|));
    LinkAt(fds, ring, Pred(j, |ring|));
    var r, b := ring[..j] + ring[j + 1..], Unlink(fds, ring[j]);
    assert r == Cut(ring, j);
    assert !IsClear(fds[fds[ring[j]].prev]) && !IsClear(fds[fds[ring[j]].next]);
    hide *;
    forall i | 0 <= i < |r|
      ensures 0 <= r[i] < |b| && b[r[i]].next == r[Succ(i, |r|)] && b[r[i]].prev == r[Pred(i, |r|)]
    {
      UnlinkedAt(fds, ring, j, i);
    }
    forall x | 0 <= x < |b| && x !in r ensures b[x].next == -1 && (b[x].prev == -1 || b[x].prev == -2) {
      UnlinkedOthers(fds, ring, j, x);
    }
    LinkedIntro(b, r);
    UnlinkEntries(fds, ring[j]);
  }

  lemma LinkedIntro(fds: seq<FdState>, ring: seq<int>)
    requires Distinct(ring)
    requires forall i | 0 <= i < |ring| ::
               0 <= ring[i] < |fds| && fds[ring[i]].next == ring[Succ(i, |ring|)] &&
               fds[ring[i]].prev == ring[Pred(i, |ring|)]
    requires forall fd | 0 <= fd < |fds| && fd !in ring ::
               fds[fd].next == -1 && (fds[fd].prev == -1 || fds[fd].prev == -2)
    ensures Linked(fds, ring)
  {
  }

  lemma LinkLastAt(fds: seq<FdState>, ring: seq<int>, fd: int, i: nat)
    requires Linked(fds, ring) && ring != [] && 0 <= fd < |fds| && fd !in ring && i <= |ring|
    requires 0 <= ring[0] < |fds| && 0 <= fds[ring[0]].prev < |fds|
    ensures var b, r := LinkLast(fds, fd, ring[0]), ring + [fd];
            0 <= r[i] < |fds| && b[r[i]].next == r[Succ(i, |r|)] && b[r[i]].prev == r[Pred(i, |r|)]
  {
    var n := |ring|;
    LinkAt(fds, ring, 0);
    if i < n {
      LinkAt(fds, ring, i);
      DistinctAt(ring, i, 0);
      DistinctAt(ring, i, n - 1);
    }
    hide Linked, Distinct;
  }

  lemma LinkLastOthers(fds: seq<FdState>, ring: seq<int>, fd: int, x: int)
    requires Linked(fds, ring) && ring != [] && 0 <= fd < |fds| && 0 <= x < |fds| && x !in ring + [fd]
    requires 0 <= ring[0] < |fds| && 0 <= fds[ring[0]].prev < |fds|
    ensures var b := LinkLast(fds, fd, ring[0]); b[x].next == -1 && (b[x].prev == -1 || b[x].prev == -2)
  {
    NotAppended(ring, fd, x);
    UnlistedAt(fds, ring, x, 0);
    assert x != ring[0];
    hide Linked;
  }

  lemma NotAppended(ring: seq<int>, fd: int, x: int)
    requires x !in ring + [fd]
    ensures x !in ring && x != fd
  {
    assert fd == (ring + [fd])[|ring|];
  }

  lemma DistinctAppend(ring: seq<int>, fd: int)
    requires Distinct(ring) && fd !in ring
    ensures Distinct(ring + [fd])
  {
  }

  lemma LinkLastLinks(fds: seq<FdState>, ring: seq<int>, fd: int)
    requires Linked(fds, ring) && ring != [] && 0 <= fd < |fds| && fd !in ring && !IsClear(fds[fd])
    ensures 0 <= ring[0] < |fds| && 0 <= fds[ring[0]].prev < |fds|
    ensures Linked(LinkLast(fds, fd, ring[0]), ring + [fd]) && EntriesOf(LinkLast(fds, fd, ring[0])) == EntriesOf(fds)
  {
    LinkAt(fds, ring, 0);
    LinkAt(fds, ring, |ring| - 1);
    assert !IsClear(fds[ring[0]]) && !IsClear(fds[fds[ring[0]].prev]);
    hide *;
    var b, r := LinkLast(fds, fd, ring[0]), ring + [fd];
    forall i | 0 <= i < |r|
      ensures 0 <= r[i] < |b| && b[r[i]].next == r[Succ(i, |r|)] && b[r[i]].prev == r[Pred(i, |r|)]
    {
      LinkLastAt(fds, ring, fd, i);
    }
    forall x | 0 <= x < |b| && x !in r ensures b[x].next == -1 && (b[x].prev == -1 || b[x].prev == -2) {
      LinkLastOthers(fds, ring, fd, x);
    }
    DistinctAppend(ring, fd);
    LinkedIntro(b, r);
    LinkLastEntries(fds, fd, ring[0]);
  }

  /** Writing an unlinked part of one entry. */
  lemma WriteEntry(fds: seq<FdState>, ring: seq<int>, fd: int, f: FdState)
    requires Linked(fds, ring) && 0 <= fd < |fds| && f.next == fds[fd].next
    requires f.prev == fds[fd].prev || (fd !in ring && f.prev == -1)
    ensures Linked(fds[fd := f], ring)
    ensures !IsClear(f) ==> EntriesOf(fds[fd := f]) == EntriesOf(fds)[fd := Entry(f.client, f.mask, f.ready)]
  {
  }

  lemma EraseEntry(fds: seq<FdState>, ring: seq<int>, fd: int)
    requires Linked(fds, ring) && 0 <= fd < |fds| && fd !in ring
    ensures Linked(fds[fd := CLEAR], ring) && EntriesOf(fds[fd := CLEAR]) == EntriesOf(fds) - {fd}
  {
  }

  /** What sigtimedwait yields: a queued signal with its descriptor and band, or the notice that
      the queue overflowed. */
  datatype Sig = Realtime(fd: int, band: Bits) | Sigio

  function BeforeOverflow(signals: seq<Sig>): (n: nat)
    ensures n <= |signals| && (forall i | 0 <= i < n :: signals[i].Realtime?) && (n < |signals| ==> signals[n].Sigio?)
  {
    if signals == [] || signals[0].Sigio? then 0 else 1 + BeforeOverflow(signals[1..])
  }

  function SignalOps(signals: seq<Sig>, n: nat): seq<Op>
    requires n <= BeforeOverflow(signals)
  {
    seq(n, i requires 0 <= i < n => Signal(signals[i].fd, signals[i].band))
  }

  function ResyncOps(backup: seq<(int, Bits)>, n: nat): seq<Op>
    requires n <= |backup|
  {
    seq(n, i requires 0 <= i < n => Resync(backup[i].0, backup[i].1))
  }

  /** Everything one waitForEvents takes in. */
  function Intake(signals: seq<Sig>, backup: seq<(int, Bits)>): seq<Op> {
    var n := BeforeOverflow(signals);
    SignalOps(signals, n) + if n < |signals| then ResyncOps(backup, |backup|) else []
  }

  /** What the first n signals say of fd. */
  function Bands(signals: seq<Sig>, n: nat, fd: int): Bits
    requires n <= BeforeOverflow(signals)
  {
    if n == 0 then {}
    else Bands(signals, n - 1, fd) + if signals[n - 1].fd == fd then signals[n - 1].band * ALLBITS else {}
  }

  /** What the first n events of the backup poller make of fd's readiness. */
  function Reported(backup: seq<(int, Bits)>, n: nat, fd: int, before: Bits): Bits
    requires n <= |backup|
  {
    if n == 0 then before else if backup[n - 1].0 == fd then backup[n - 1].1 else Reported(backup, n - 1, fd, before)
  }

  /** The k-th event of the backup poller is the last about its descriptor. */
  predicate IsLastAbout(backup: seq<(int, Bits)>, k: nat)
    requires k < |backup|
  {
    forall j | k < j < |backup| :: backup[j].0 != backup[k].0
  }

  /** No event is lost, with or without an overflow.  A monitored descriptor that the backup poller
      reports after an overflow has exactly the readiness it was last reported with; any other has
      what it had, and all that was signalled before the overflow.  It is listed if and only if it
      wants some of that. */
  lemma {:induction false} NoEventIsLost(s: State, signals: seq<Sig>, backup: seq<(int, Bits)>, fd: int)
    requires Wf(s)
    ensures var t, n := Wait(s, Intake(signals, backup)), BeforeOverflow(signals);
            t.fds.Keys == s.fds.Keys && (fd in t.ring <==> fd in t.fds && IsReady(t.fds[fd])) &&
            (fd in s.fds ==>
               (n < |signals| ==> forall k | 0 <= k < |backup| && backup[k].0 == fd && IsLastAbout(backup, k) ::
                  t.fds[fd] == s.fds[fd].(ready := backup[k].1)) &&
               (n == |signals| || (forall k | 0 <= k < |backup| :: backup[k].0 != fd) ==>
                  t.fds[fd] == s.fds[fd].(ready := s.fds[fd].ready + Bands(signals, n, fd))))
  {
    var r, n := s.(cursor := Head(s)), BeforeOverflow(signals);
    var pulled := Steps(r, SignalOps(signals, n));
    IntakeIsPulled(signals, backup);
    WaitStartsFullPass(s, Intake(signals, backup));
    ListedIffReady(Wait(s, Intake(signals, backup)), fd);
    hide Wf, Bands, Steps, Reported, IsReady;
    SignalsAdd(r, signals, n, fd);
    if n == |signals| {
      assert Intake(signals, backup) == SignalOps(signals, n);
    } else {
      StepsConcat(r, SignalOps(signals, n), ResyncOps(backup, |backup|));
      ResyncsReplace(pulled, backup, |backup|, fd);
      if fd in s.fds {
        forall k | 0 <= k < |backup| && backup[k].0 == fd && IsLastAbout(backup, k)
          ensures Reported(backup, |backup|, fd, pulled.fds[fd].ready) == backup[k].1
        {
          LastIsReported(backup, k, |backup|, fd, pulled.fds[fd].ready);
        }
        if forall k | 0 <= k < |backup| :: backup[k].0 != fd {
          NoneIsReported(backup, |backup|, fd, pulled.fds[fd].ready);
        }
      }
    }
  }

  lemma ListedIffReady(s: State, fd: int)
    requires Wf(s)
    ensures fd in s.ring <==> fd in s.fds && IsReady(s.fds[fd])
  {
  }

  lemma {:induction false} StepsConcat(s: State, a: seq<Op>, b: seq<Op>)
    ensures Steps(s, a + b) == Steps(Steps(s, a), b)
  {
    hide *;
    if b == [] {
      assert a + b == a;
      StepsNil(Steps(s, a));
    } else {
      var n := |b| - 1;
      StepsConcat(s, a, b[..n]);
      StepsAppend(s, a + b[..n], b[n]);
      StepsAppend(Steps(s, a), b[..n], b[n]);
      assert a + b[..n] + [b[n]] == a + b && b[..n] + [b[n]] == b;
    }
  }

  lemma {:induction false} SignalsAdd(s: State, signals: seq<Sig>, n: nat, fd: int)
    requires n <= BeforeOverflow(signals)
    ensures var t := Steps(s, SignalOps(signals, n));
            t.fds.Keys == s.fds.Keys &&
            (fd in s.fds ==> t.fds[fd] == s.fds[fd].(ready := s.fds[fd].ready + Bands(signals, n, fd)))
  {
    if n > 0 {
      SignalsAdd(s, signals, n - 1, fd);
      var t, op := Steps(s, SignalOps(signals, n - 1)), Signal(signals[n - 1].fd, signals[n - 1].band);
      assert SignalOps(signals, n) == SignalOps(signals, n - 1) + [op];
      StepsAppend(s, SignalOps(signals, n - 1), op);
      PulledOnEntry(t, op, fd);
      hide Steps, Step;
    }
  }

  lemma {:induction false} ResyncsReplace(s: State, backup: seq<(int, Bits)>, n: nat, fd: int)
    requires n <= |backup|
    ensures var t := Steps(s, ResyncOps(backup, n));
            t.fds.Keys == s.fds.Keys &&
            (fd in s.fds ==> t.fds[fd] == s.fds[fd].(ready := Reported(backup, n, fd, s.fds[fd].ready)))
  {
    if n > 0 {
      ResyncsReplace(s, backup, n - 1, fd);
      var t, op := Steps(s, ResyncOps(backup, n - 1)), Resync(backup[n - 1].0, backup[n - 1].1);
      assert ResyncOps(backup, n) == ResyncOps(backup, n - 1) + [op];
      StepsAppend(s, ResyncOps(backup, n - 1), op);
      PulledOnEntry(t, op, fd);
      hide Steps, Step;
    }
  }

  lemma {:induction false} LastIsReported(backup: seq<(int, Bits)>, k: nat, n: nat, fd: int, before: Bits)
    requires k < n <= |backup| && backup[k].0 == fd && forall j | k < j < n :: backup[j].0 != fd
    ensures Reported(backup, n, fd, before) == backup[k].1
  {
    if k < n - 1 {
      LastIsReported(backup, k, n - 1, fd, before);
    }
  }

  lemma {:induction false} NoneIsReported(backup: seq<(int, Bits)>, n: nat, fd: int, before: Bits)
    requires n <= |backup| && forall j | 0 <= j < n :: backup[j].0 != fd
    ensures Reported(backup, n, fd, before) == before
  {
    if n > 0 {
      NoneIsReported(backup, n - 1, fd, before);
    }
  }

  /** What one signal or one event of the backup poller does to the entries. */
  lemma PulledOnEntry(s: State, op: Op, fd: int)
    requires op.Signal? || op.Resync?
    ensures Step(s, op).fds.Keys == s.fds.Keys
    ensures fd in s.fds ==>
              Step(s, op).fds[fd] ==
              if op.fd != fd then s.fds[fd]
              else if op.Signal? then s.fds[fd].(ready := s.fds[fd].ready + (op.band * ALLBITS))
              else s.fds[fd].(ready := op.band)
  {
  }

  lemma StepsAppend(s: State, ops: seq<Op>, op: Op)
    ensures Steps(s, ops + [op]) == Step(Steps(s, ops), op)
  {
    assert (ops + [op])[..|ops|] == ops;
  }

  lemma ListDelFacts(s: State, fd: int, next: int)
    requires Distinct(s.ring) && fd in s.ring && (s.cursor == -1 || s.cursor in s.ring)
    requires next == s.ring[Succ(Find(s.ring, fd), |s.ring|)]
    ensures var t, j, one := ListDel(s, fd), Find(s.ring, fd), |s.ring| == 1;
            t == State(s.fds, Cut(s.ring, j), t.cursor) && (t.cursor == -1 || t.cursor in t.ring) &&
            Head(t) == (if one then -1 else if Head(s) == fd then next else Head(s)) &&
            t.cursor == (if one then -1 else if s.cursor == fd then next else s.cursor) &&
            (one <==> next == fd)
  {
    var j := Find(s.ring, fd);
    DistinctAt(s.ring, j, Succ(j, |s.ring|));
    hide Distinct;
    if s.cursor != fd && s.cursor != -1 {
      CutMembers(s.ring, j, s.cursor);
    }
  }

  /** What taking fd off the list does to the table, the list and the cursor. */
  lemma DelFacts(fds: seq<FdState>, s: State, fd: int)
    requires Linked(fds, s.ring) && Distinct(s.ring) && fd in s.ring && s.fds == EntriesOf(fds)
    requires s.cursor == -1 || s.cursor in s.ring
    ensures 0 <= fd < |fds| && 0 <= fds[fd].next < |fds| && 0 <= fds[fd].prev < |fds|
    ensures var t, next, one := ListDel(s, fd), fds[fd].next, |s.ring| == 1;
            Linked(Unlink(fds, fd), t.ring) && t == State(EntriesOf(Unlink(fds, fd)), t.ring, t.cursor) &&
            t.fds == s.fds &&
            |t.ring| == |s.ring| - 1 && (t.cursor == -1 || t.cursor in t.ring) &&
            Head(t) == (if one then -1 else if Head(s) == fd then next else Head(s)) &&
            t.cursor == (if one then -1 else if s.cursor == fd then next else s.cursor) &&
            (one ==> next == fd == fds[fd].prev)
  {
    var j := Find(s.ring, fd);
    hide *;
    LinkAt(fds, s.ring, j);
    UnlinkLinks(fds, s.ring, j);
    ListDelFacts(s, fd, fds[fd].next);
    OneLink(s.ring, j);
  }

  lemma OneLink(ring: seq<int>, j: nat)
    requires j < |ring|
    ensures |ring| == 1 ==> Pred(j, |ring|) == 0 == j
  {
  }

  lemma EntryWritten(fds: seq<FdState>, fd: int, f: FdState)
    requires 0 <= fd < |fds| && !IsClear(f)
    ensures EntriesOf(fds[fd := f]) == EntriesOf(fds)[fd := Entry(f.client, f.mask, f.ready)]
  {
  }

  lemma EntryAt(fds: seq<FdState>, fd: int)
    requires fd in EntriesOf(fds)
    ensures 0 <= fd < |fds| && EntriesOf(fds)[fd] == Entry(fds[fd].client, fds[fd].mask, fds[fd].ready)
  {
  }

  class PollerSigio {
    var m_fds: seq<FdState>
    var m_fds_used: int
    var m_ready_head: int
    var m_ready_next: int
    var m_ready_count: int
    ghost var ring: seq<int>  // the ready list, from the head

    ghost predicate Shape()
      reads this
    {
      Ringed() && m_fds_used == |EntriesOf(m_fds)|
    }

    ghost predicate Ringed()
      reads this
    {
      && Linked(m_fds, ring)
      && m_ready_count == |ring| && m_ready_head == Head(Abs())
      && (m_ready_next == -1 || m_ready_next in ring)
    }

    ghost function Abs(): State
      reads this
    {
      State(EntriesOf(m_fds), ring, m_ready_next)
    }

    ghost predicate Valid()
      reads this
    {
      Shape() && Wf(Abs())
    }

    constructor ()
      ensures Valid() && Abs() == EMPTY
    {
      m_fds := seq(INITIAL_ALLOCATION, _ => CLEAR);
      m_fds_used, m_ready_head, m_ready_next, m_ready_count := 0, -1, -1, 0;
      ring := [];
    }

    predicate InUse(fd: int)
      reads this
      ensures Shape() ==> (InUse(fd) <==> fd in EntriesOf(m_fds))
    {
      assert Shape() && m_fds_used == 0 ==> EntriesOf(m_fds) == map[];
      !(fd < 0 || fd >= |m_fds| || m_fds_used == 0 || IsClear(m_fds[fd]))
    }

    method ReadyListAdd(fd: int)
      requires Ringed() && 0 <= fd < |m_fds| && !IsClear(m_fds[fd]) && fd !in ring
      modifies `m_fds, `m_ready_head, `m_ready_next, `m_ready_count, `ring
      ensures Ringed() && Abs() == ListAdd(old(Abs()), fd) && |m_fds| == old(|m_fds|) && (Shape() <==> old(Shape()))
    {
      hide Linked, EntriesOf;
      if m_ready_count == 0 {
        LinkFirstLinks(m_fds, fd);
        assert ring + [fd] == [fd];
        m_fds := m_fds[fd := m_fds[fd].(next := fd, prev := fd)];
        m_ready_head := fd;
      } else {
        LinkLastLinks(m_fds, ring, fd);
        var head_prev := m_fds[m_ready_head].prev;
        m_fds := m_fds[fd := m_fds[fd].(prev := head_prev, next := m_ready_head)];
        m_fds := m_fds[head_prev := m_fds[head_prev].(next := fd)];
        m_fds := m_fds[m_ready_head := m_fds[m_ready_head].(prev := fd)];
      }
      ring := ring + [fd];
      m_ready_count := m_ready_count + 1;
      if m_ready_next == -1 {
        m_ready_next := fd;
      }
    }

    method ReadyListDel(fd: int)
      requires Ringed() && fd in ring
      modifies `m_fds, `m_ready_head, `m_ready_next, `m_ready_count, `ring
      ensures Ringed() && Abs() == ListDel(old(Abs()), fd) && |m_fds| == old(|m_fds|) && (Shape() <==> old(Shape()))
    {
      hide *;
      ghost var s := Abs();
      ShapeFacts();
      ghost var t := ListDel(s, fd);
      DelFacts(m_fds, s, fd);
      var next, prev := m_fds[fd].next, m_fds[fd].prev;
      if m_ready_count == 1 {
        m_ready_head := -1;
        m_ready_next := -1;
      } else {
        m_ready_head := if m_ready_head == fd then next else m_ready_head;
        m_ready_next := if m_ready_next == fd then next else m_ready_next;
      }
      Unthread(fd, prev, next);
      m_ready_count := m_ready_count - 1;
      ring := t.ring;
      ShapeIs(t);
    }

    /** Splices the gap, unless fd was the entire list, and takes fd out. */
    method Unthread(fd: int, prev: int, next: int)
      requires 0 <= fd < |m_fds| && 0 <= prev < |m_fds| && 0 <= next < |m_fds|
      requires prev == m_fds[fd].prev && next == m_fds[fd].next && (m_ready_count == 1 ==> next == fd == prev)
      modifies `m_fds
      ensures m_fds == Unlink(old(m_fds), fd)
    {
      if m_ready_count != 1 {
        m_fds := m_fds[prev := m_fds[prev].(next := next)];
        m_fds := m_fds[next := m_fds[next].(prev := prev)];
      }
      m_fds := m_fds[fd := m_fds[fd].(next := -1, prev := -1)];
    }

    lemma ShapeFacts()
      requires Ringed()
      ensures Linked(m_fds, ring) && Distinct(ring) && Abs() == State(EntriesOf(m_fds), ring, m_ready_next)
      ensures m_ready_count == |ring| && m_ready_head == Head(Abs()) && (m_ready_next == -1 || m_ready_next in ring)
      ensures Shape() <==> m_fds_used == |EntriesOf(m_fds)|
    {
    }

    lemma ShapeIs(s: State)
      requires Linked(m_fds, ring) && s == State(EntriesOf(m_fds), ring, m_ready_next)
      requires m_ready_count == |ring| && m_ready_head == Head(s) && (s.cursor == -1 || s.cursor in s.ring)
      ensures Ringed() && Abs() == s && (Shape() <==> m_fds_used == |s.fds|)
    {
    }

    method ReadyListUpdate(fd: int)
      requires Ringed() && 0 <= fd < |m_fds| && !IsClear(m_fds[fd])
      modifies `m_fds, `m_ready_head, `m_ready_next, `m_ready_count, `ring
      ensures Ringed() && Abs() == ListUpdate(old(Abs()), fd) && |m_fds| == old(|m_fds|) && (Shape() <==> old(Shape()))
    {
      OnListIffLinked(fd);
      if IsOnReadyList(m_fds[fd]) {
        if !FdIsReady(m_fds[fd]) {
          ReadyListDel(fd);
        }
      } else {
        if FdIsReady(m_fds[fd]) {
          ReadyListAdd(fd);
        }
      }
    }

    lemma OnListIffLinked(fd: int)
      requires Ringed() && 0 <= fd < |m_fds|
      ensures IsOnReadyList(m_fds[fd]) <==> fd in ring
      ensures fd in ring ==> !IsClear(m_fds[fd])
    {
      if fd in ring {
        LinkAt(m_fds, ring, Find(ring, fd));
      }
    }

    /** A new mask or new readiness bits for a monitored descriptor, and its place on the list. */
    method SetBits(fd: int, mask: Bits, ready: Bits)
      requires Valid() && fd in EntriesOf(m_fds)
      modifies this
      ensures Valid() && Abs() == SetEntry(old(Abs()), fd, old(EntriesOf(m_fds)[fd]).(mask := mask, ready := ready))
    {
      hide Linked;
      var f := m_fds[fd].(mask := mask, ready := ready);
      WriteEntry(m_fds, ring, fd, f);
      UpdateKeepsWf(Abs(), fd, Entry(f.client, mask, ready));
      m_fds := m_fds[fd := f];
      ReadyListUpdate(fd);
    }

    method SetMask(fd: int, eventmask: Bits) returns (err: Errno)
      requires Valid()
      modifies this
      ensures Valid() && Abs() == Step(old(Abs()), Op.SetMask(fd, eventmask))
      ensures err == if old(fd in Abs().fds) then OK else ENOENT
      ensures err == OK ==> Abs().fds == old(Abs().fds)[fd := old(Abs().fds[fd]).(mask := eventmask)]
    {
      if fd in Abs().fds {
        UpdateIsOfOne(Abs(), fd, eventmask);
      }
      hide Linked, EntriesOf, SetEntry, Wf, InUse;
      if !InUse(fd) {
        return ENOENT;
      }
      EntryAt(m_fds, fd);
      SetBits(fd, eventmask, m_fds[fd].ready);
      return OK;
    }

    lemma UpdateIsOfOne(s: State, fd: int, eventmask: Bits)
      requires fd in s.fds
      ensures Step(s, Op.SetMask(fd, eventmask)).fds == s.fds[fd := s.fds[fd].(mask := eventmask)]
    {
    }

    method OrMask(fd: int, eventmask: Bits) returns (err: Errno)
      requires Valid()
      modifies this
      ensures Valid() && Abs() == Step(old(Abs()), Op.OrMask(fd, eventmask))
      ensures err == if old(fd in Abs().fds) then OK else ENOENT
    {
      hide Linked, EntriesOf, SetEntry, Wf, InUse;
      if !InUse(fd) {
        return ENOENT;
      }
      EntryAt(m_fds, fd);
      SetBits(fd, m_fds[fd].mask + eventmask, m_fds[fd].ready);
      return OK;
    }

    method AndMask(fd: int, eventmask: Bits) returns (err: Errno)
      requires Valid()
      modifies this
      ensures Valid() && Abs() == Step(old(Abs()), Op.AndMask(fd, eventmask))
      ensures err == if old(fd in Abs().fds) then OK else ENOENT
    {
      hide Linked, EntriesOf, SetEntry, Wf, InUse;
      if !InUse(fd) {
        return ENOENT;
      }
      EntryAt(m_fds, fd);
      SetBits(fd, m_fds[fd].mask * eventmask, m_fds[fd].ready);
      return OK;
    }

    method ClearReadiness(fd: int, eventmask: Bits)
      requires Valid()
      modifies this
      ensures Valid() && Abs() == Step(old(Abs()), Op.ClearReadiness(fd, eventmask))
    {
      hide Linked, EntriesOf, SetEntry, Wf, InUse;
      if !InUse(fd) {
        return;
      }
      EntryAt(m_fds, fd);
      SetBits(fd, m_fds[fd].mask, m_fds[fd].ready - eventmask);
    }

    /** kernel is the result of the fcntl calls: OK, or the error that stops the addition; backup is
        what the backup poller returns.  A descriptor that is monitored already must not be added: the
        count of entries in use goes up all the same, and if it is listed, its link back is lost, so
        that taking it off the list fails an assertion. */
    method Add(fd: int, client: Client, eventmask: Bits, kernel: Errno, backup: Errno) returns (err: Errno)
      requires Valid() && (fd < 0 ==> kernel != OK)
      modifies this
      ensures Valid() <==> kernel != OK || fd !in old(Abs().fds)
      ensures kernel == OK ==> (Ringed() <==> fd !in old(Abs().ring))
      ensures Valid() ==>
                err == (if kernel == OK then backup else kernel) &&
                Abs() == if kernel == OK then Step(old(Abs()), Op.Add(fd, client, eventmask)) else old(Abs())
      ensures !Valid() ==>
                m_fds_used == |Abs().fds| + 1 && Abs().fds.Keys == old(Abs().fds.Keys) &&
                err == if old(fd in Abs().ring) && eventmask * {IN, OUT} == {} then EABORT else backup
    {
      GrowTo(fd);
      if kernel != OK {
        return kernel;
      }
      hide Linked, Wf, EntriesOf, Step, InUse;
      ghost var s := Abs();
      var f := m_fds[fd].(mask := eventmask, ready := {IN, OUT}, prev := -1, client := client);
      WhatAddDoes(fd, f);
      m_fds_used := m_fds_used + 1;
      m_fds := m_fds[fd := f];
      if IsOnReadyList(m_fds[fd]) {
        // readyListUpdate, for a descriptor that was listed already
        return if FdIsReady(m_fds[fd]) then backup else EABORT;
      }
      ReadyListUpdate(fd);
      return backup;
    }

    lemma WhatAddDoes(fd: int, f: FdState)
      requires Valid() && 0 <= fd < |m_fds|
      requires !IsClear(f) && f.prev == -1 && f.next == m_fds[fd].next
      ensures IsOnReadyList(f) <==> fd in ring
      ensures EntriesOf(m_fds[fd := f]) == EntriesOf(m_fds)[fd := Entry(f.client, f.mask, f.ready)]
      ensures fd !in ring ==> Linked(m_fds[fd := f], ring)
      ensures fd !in Abs().fds ==>
                fd !in ring && Wf(SetEntry(Abs(), fd, Entry(f.client, f.mask, f.ready))) &&
                Step(Abs(), Op.Add(fd, f.client, f.mask)) == SetEntry(Abs(), fd, Entry(f.client, f.mask, {IN, OUT}))
    {
      OnListIffLinked(fd);
      EntryWritten(m_fds, fd, f);
      if fd !in ring {
        WriteEntry(m_fds, ring, fd, f);
      }
      if fd !in Abs().fds {
        UpdateKeepsWf(Abs(), fd, Entry(f.client, f.mask, f.ready));
      }
    }

    method GrowTo(fd: int)
      requires Valid()
      modifies this
      ensures Valid() && Abs() == old(Abs()) && fd < |m_fds|
    {
      if fd >= |m_fds| {
        var n := |m_fds| * 2;
        if n < fd + 1 {
          n := fd + 1;
        }
        GrowLemma(m_fds, ring, n);
        hide Linked, EntriesOf, Wf, Grown;
        m_fds := Grown(m_fds, n);
      }
    }

    /** A descriptor that is open but not monitored must not be deleted: the count of entries in use
        goes down all the same. */
    method Del(fd: int, kernel: Errno, backup: Errno) returns (err: Errno)
      requires Valid()
      modifies this
      ensures var tried := fd >= 0 && fd < old(|m_fds|) && old(m_fds_used) != 0;
              var done := tried && kernel == OK;
              err == (if done then backup else if tried then kernel else EINVAL) &&
              (old(fd in Abs().fds) ==> tried) &&
              (Valid() <==> !done || old(fd in Abs().fds)) &&
              (Valid() ==> Abs() == if done then Step(old(Abs()), Op.Del(fd)) else old(Abs())) &&
              (!Valid() ==> Abs() == old(Abs()) && m_fds_used == old(m_fds_used) - 1)
    {
      hide Linked, EntriesOf, ListDel, Wf, Step, InUse;
      DelPossible(fd);
      if fd < 0 || fd >= |m_fds| || m_fds_used == 0 {
        return EINVAL;
      }
      if kernel != OK {
        return kernel;
      }
      WhatDelDoes(fd);
      if IsOnReadyList(m_fds[fd]) {
        ReadyListDel(fd);
      }
      Erase(fd);
      return backup;
    }

    lemma DelPossible(fd: int)
      requires Valid()
      ensures fd in Abs().fds ==> 0 <= fd < |m_fds| && m_fds_used != 0
    {
      assert InUse(fd) <==> fd in Abs().fds;
    }

    lemma WhatDelDoes(fd: int)
      requires Valid() && 0 <= fd < |m_fds|
      ensures IsOnReadyList(m_fds[fd]) <==> fd in ring
      ensures fd in ring ==> fd in Abs().fds && fd !in ListDel(Abs(), fd).ring && ListDel(Abs(), fd).fds == Abs().fds
      ensures fd !in Abs().fds ==> Abs().fds - {fd} == Abs().fds
      ensures fd in Abs().fds ==>
                Wf(Step(Abs(), Op.Del(fd))) &&
                Step(Abs(), Op.Del(fd)) == (if fd in ring then ListDel(Abs(), fd) else Abs()).(fds := Abs().fds - {fd})
    {
      OnListIffLinked(fd);
      if fd in Abs().fds {
        StepKeepsWf(Abs(), Op.Del(fd));
        if fd in ring {
          ListDelDrops(Abs(), fd);
        }
      }
    }

    method Erase(fd: int)
      requires Shape() && 0 <= fd < |m_fds| && fd !in ring
      modifies this
      ensures Linked(m_fds, ring) && Abs() == old(Abs()).(fds := old(Abs().fds) - {fd}) &&
              m_fds_used == old(m_fds_used) - 1
      ensures Shape() <==> old(fd in Abs().fds)
    {
      hide Linked;
      EraseEntry(m_fds, ring, fd);
      m_fds := m_fds[fd := CLEAR];
      m_fds_used := m_fds_used - 1;
    }

    /** One call made from a callback.  A callback adds only descriptors it has just opened, which
        are not monitored, and the kernel rejects descriptors that are not open. */
    method Perform(op: Op)
      requires Valid()
      modifies this
      ensures Valid() && Abs() == Step(old(Abs()), op)
    {
      var err;
      match op
      case Add(fd, c, m) =>
        if 0 <= fd && !InUse(fd) { err := Add(fd, c, m, OK, OK); }
      case Del(fd) => err := Del(fd, if InUse(fd) then OK else Kernel(0), OK);
      case SetMask(fd, m) => err := SetMask(fd, m);
      case OrMask(fd, m) => err := OrMask(fd, m);
      case AndMask(fd, m) => err := AndMask(fd, m);
      case ClearReadiness(fd, m) => ClearReadiness(fd, m);
      case Signal(fd, band) => Signalled(fd, band);
      case Resync(fd, band) => Resynced(fd, band);
    }

    /** One signal pulled off the queue; a stale one is ignored. */
    method Signalled(fd: int, band: Bits)
      requires Valid()
      modifies this
      ensures Valid() && Abs() == Step(old(Abs()), Signal(fd, band))
    {
      if !InUse(fd) {
        return;
      }
      SetBits(fd, m_fds[fd].mask, m_fds[fd].ready + (band * ALLBITS));
    }

    /** One event of the backup poller. */
    method Resynced(fd: int, revents: Bits)
      requires Valid()
      modifies this
      ensures Valid() && Abs() == Step(old(Abs()), Resync(fd, revents))
    {
      if !InUse(fd) {
        return;
      }
      if m_fds[fd].ready == revents {
        SettledEntry(fd);
        return;
      }
      SetBits(fd, m_fds[fd].mask, revents);
    }

    /** signals is what sigtimedwait yields until it would block, backup what the backup poller
        reports if the signal queue overflowed. */
    method WaitForEvents(signals: seq<Sig>, backup: seq<(int, Bits)>) returns (err: Errno)
      requires Valid()
      modifies this
      ensures Valid() && Abs() == Wait(old(Abs()), Intake(signals, backup))
      ensures m_ready_next == m_ready_head
      ensures err == if Abs().ring == [] then EWOULDBLOCK else OK
    {
      hide Linked, EntriesOf, Wf, Step, Steps;
      ghost var was := Abs();
      ResetKeepsWf(was);
      m_ready_next := m_ready_head;
      ghost var s := Abs();
      ghost var done: seq<Op> := [];
      StepsNil(s);
      var overflowed, i := false, 0;
      while i < |signals|
        invariant 0 <= i <= BeforeOverflow(signals) && !overflowed
        invariant Valid() && done == SignalOps(signals, i) && Abs() == Steps(s, done)
      {
        if signals[i].Sigio? {
          overflowed := true;
          break;
        }
        var op := Signal(signals[i].fd, signals[i].band);
        StepsAppend(s, done, op);
        Signalled(signals[i].fd, signals[i].band);
        done := done + [op];
        i := i + 1;
      }
      ghost var pulled := done;
      if overflowed {
        for k := 0 to |backup|
          invariant Valid() && done == pulled + ResyncOps(backup, k) && Abs() == Steps(s, done)
        {
          var op := Resync(backup[k].0, backup[k].1);
          StepsAppend(s, done, op);
          Resynced(backup[k].0, backup[k].1);
          assert pulled + ResyncOps(backup, k + 1) == done + [op];
          done := done + [op];
        }
      }
      assert done == Intake(signals, backup);
      IntakeIsPulled(signals, backup);
      WaitStartsFullPass(was, Intake(signals, backup));
      return if m_ready_count != 0 then OK else EWOULDBLOCK;
    }

    /** The event at the cursor, if the cursor is on a descriptor other than 0. */
    method GetNextEvent() returns (err: Errno, e: PollEvent)
      requires Valid()
      modifies this`m_ready_next
      ensures Valid() && err == if old(m_ready_next) < 1 then EWOULDBLOCK else OK
      ensures err != OK ==> Abs() == old(Abs())
      ensures err == OK ==> old(m_ready_next in ring && m_ready_next in Abs().fds)
      ensures err == OK ==> e == EventAt(old(Abs())) && Abs() == Advance(old(Abs()))
    {
      if m_ready_next < 1 {
        return EWOULDBLOCK, PollEvent(-1, {}, NOBODY);
      }
      AtCursor();
      e := PollEvent(m_ready_next, m_fds[m_ready_next].ready * m_fds[m_ready_next].mask, m_fds[m_ready_next].client);
      m_ready_next := m_fds[m_ready_next].next;
      if m_ready_next == m_ready_head {
        m_ready_next := -1;
      }
      return OK, e;
    }

    /** What the entry at the cursor holds, and where its link leads. */
    lemma AtCursor()
      requires Valid() && m_ready_next >= 1
      ensures m_ready_next < |m_fds| && m_ready_next in ring && m_ready_next in Abs().fds
      ensures var f := m_fds[m_ready_next];
              PollEvent(m_ready_next, f.ready * f.mask, f.client) == EventAt(Abs()) &&
              Abs().(cursor := if f.next == m_ready_head then -1 else f.next) == Advance(Abs()) && Wf(Advance(Abs())) &&
              (f.next == m_ready_head || f.next in ring)
    {
      AdvanceTakesOne(Abs());
      ghost var j := Find(ring, m_ready_next);
      LinkAt(m_fds, ring, j);
      AtHeadIffFirst(Succ(j, |ring|));
    }

    lemma AtHeadIffFirst(i: int)
      requires Shape() && 0 <= i < |ring|
      ensures ring[i] == m_ready_head <==> i == 0
    {
      DistinctAt(ring, 0, i);
    }

    /** waitForEvents, then every event to its client.  The k-th callback does script(k); a client
        that fails is deleted.  From callback number settle on, callbacks only clear or delete. */
    method WaitAndDispatchEvents(signals: seq<Sig>, backup: seq<(int, Bits)>, script: nat -> Callback,
        ghost settle: nat)
        returns (err: Errno, log: seq<PollEvent>)
      requires Valid() && OnlyShrinks(script, settle)
      modifies this
      ensures Valid()
      ensures var t := Wait(old(Abs()), Intake(signals, backup));
              (err != OK ==> err == EWOULDBLOCK && t.ring == [] && log == [] && Abs() == t) &&
              (err == OK ==>
                 t.ring != [] && Legal(t, script, log) && Abs() == After(t, script, log) && Abs().cursor < 1)
    {
      hide Linked, EntriesOf, Wf, Steps, Advance, Step, Legal;
      err := WaitForEvents(signals, backup);
      log := [];
      if err != OK {
        return;
      }
      ghost var t := Abs();
      LegalNil(t, script);
      while true
        invariant Valid() && Legal(t, script, log) && Abs() == After(t, script, log)
        decreases if |log| < settle then settle - |log| else 0, |ring|, |Remaining(Abs())|
      {
        ghost var s := Abs();
        var e;
        err, e := GetNextEvent();
        if err != OK {
          return OK, log;
        }
        AdvanceShortensPass(s);
        ghost var advanced := Abs();
        var cb := script(|log|);
        Dispatch(cb.ops + if cb.fails then [Op.Del(e.fd)] else []);
        LegalAppend(t, script, log, e);
        if |log| >= settle {
          ShrinkingShortens(advanced, OpsOf(cb, s.cursor));
        }
        log := log + [e];
      }
    }

    method Dispatch(ops: seq<Op>)
      requires Valid()
      modifies this
      ensures Valid() && Abs() == Steps(old(Abs()), ops)
    {
      hide Linked, EntriesOf, Wf, Step;
      ghost var s := Abs();
      for k := 0 to |ops|
        invariant Valid() && Abs() == Steps(s, ops[..k])
      {
        assert ops[..k + 1] == ops[..k] + [ops[k]];
        StepsAppend(s, ops[..k], ops[k]);
        Perform(ops[k]);
      }
      assert ops[..|ops|] == ops;
    }

    lemma SettledEntry(fd: int)
      requires Valid() && fd in Abs().fds
      ensures SetEntry(Abs(), fd, Abs().fds[fd]) == Abs()
    {
      assert Abs().fds[fd := Abs().fds[fd]] == Abs().fds;
    }
  }

  lemma ResetKeepsWf(s: State)
    requires Wf(s)
    ensures Wf(s.(cursor := Head(s)))
  {
  }

  lemma StepsNil(s: State)
    ensures Steps(s, []) == s
  {
  }

  lemma IntakeIsPulled(signals: seq<Sig>, backup: seq<(int, Bits)>)
    ensures Pulled(Intake(signals, backup))
  {
  }

  lemma LegalNil(s: State, script: nat -> Callback)
    ensures Legal(s, script, []) && After(s, script, []) == s
  {
  }

  lemma LegalAppend(s: State, script: nat -> Callback, log: seq<PollEvent>, e: PollEvent)
    requires Legal(s, script, log)
    requires var t := After(s, script, log); 1 <= t.cursor && t.cursor in t.ring && t.cursor in t.fds && e == EventAt(t)
    ensures Legal(s, script, log + [e])
    ensures var t := After(s, script, log);
            After(s, script, log + [e]) == Steps(Advance(t), OpsOf(script(|log|), t.cursor))
  {
    var log' := log + [e];
    assert log'[..|log|] == log;
    forall k | 0 <= k < |log'|
      ensures var t := After(s, script, log'[..k]);
              1 <= t.cursor && t.cursor in t.ring && t.cursor in t.fds && log'[k] == EventAt(t)
    {
      if k < |log| {
        assert log'[..k] == log[..k];
        LegalAt(s, script, log, k);
      }
    }
  }

  lemma AdvanceShortensPass(s: State)
    requires Wf(s) && s.cursor in s.ring
    ensures Advance(s).ring == s.ring && |Remaining(Advance(s))| < |Remaining(s)|
  {
    AdvanceTakesOne(s);
  }

  lemma ShrinkingStepShortens(s: State, op: Op)
    requires Wf(s) && Shrinks(op)
    ensures |Step(s, op).ring| < |s.ring| || (Step(s, op).ring == s.ring && Step(s, op).cursor == s.cursor)
  {
  }

  /** Clearing and deleting only ever take descriptors off the list, or leave the pass alone. */
  lemma {:induction false} ShrinkingShortens(s: State, ops: seq<Op>)
    requires Wf(s) && forall op | op in ops :: Shrinks(op)
    ensures var t := Steps(s, ops);
            |t.ring| < |s.ring| || (t.ring == s.ring && t.cursor == s.cursor && Remaining(t) == Remaining(s))
  {
    if ops != [] {
      var n := |ops| - 1;
      assert ops[n] in ops;
      ShrinkingShortens(s, ops[..n]);
      StepsKeepWf(s, ops[..n]);
      ShrinkingStepShortens(Steps(s, ops[..n]), ops[n]);
    }
  }

  lemma ListDelDrops(s: State, fd: int)
    requires Wf(s) && fd in s.ring
    ensures fd !in ListDel(s, fd).ring
  {
    WithoutMembers(s.ring, fd);
  }

  /** The table at its new size; the new entries are cleared. */
  function Grown(fds: seq<FdState>, n: nat): (g: seq<FdState>)
    requires n >= |fds|
    ensures |g| == n && fds <= g
  {
    fds + seq(n - |fds|, _ => CLEAR)
  }

  lemma GrowLemma(fds: seq<FdState>, ring: seq<int>, n: nat)
    requires Linked(fds, ring) && n >= |fds|
    ensures Linked(Grown(fds, n), ring) && EntriesOf(Grown(fds, n)) == EntriesOf(fds)
  {
  }
}
