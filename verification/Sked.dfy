/** The scheduler: a 1-based binary heap of timed events in an array, where every client stores
    its own position so that it can be deleted from the middle. */
module Sked {
  import opened EClock
  import opened FiniteSets
  import opened HeapKeys
  import opened SkedSpec

  const INITIAL_ALLOCATION := 256

  datatype Errno = OK | EINVAL

  class SkedClient {
    var skedIndex: int  // 0 if not in the heap, else the index in m_records

    constructor ()
      ensures skedIndex == 0
    {
      skedIndex := 0;
    }
  }

  datatype SkedRecord = SkedRecord(skc: SkedClient?, when: int)

  /** The records' distances from the base of their window: what the heap is ordered by. */
  ghost function KeysOf(h: int, base: int, records: seq<SkedRecord>): (a: seq<int>)
    ensures |a| == |records|
  {
    seq(|records|, i requires 0 <= i < |records| => Offset(h, base, records[i].when))
  }

  class Sked {
    const h: int  // half the range of clock_t
    var m_records: array<SkedRecord>  // m_records[0] is never used
    var m_used: int  // highest index in use
    ghost var clients: set<SkedClient>  // every client object ever handed to this scheduler

    /** Records lo..n and the positions of the clients in s are inverse to each other. */
    ghost predicate Linked(lo: int, n: int, s: set<SkedClient>)
      reads `m_records, m_records, s
    {
      && 0 < h && 1 <= lo && 0 <= n < m_records.Length
      && (forall i | lo <= i <= n :: m_records[i].skc in s && m_records[i].skc.skedIndex == i)
      && (forall c | c in s && c.skedIndex != 0 :: lo <= c.skedIndex <= n && m_records[c.skedIndex].skc == c)
    }

    ghost function QueueOf(lo: int, n: int, s: set<SkedClient>): map<SkedClient, int>
      requires Linked(lo, n, s)
      reads `m_records, m_records, s
    {
      map c | c in s && c.skedIndex > 0 :: m_records[c.skedIndex].when
    }

    /** No record is due before its parent in the tree. */
    ghost predicate IsHeap(n: int)
      requires 0 <= n < m_records.Length
      reads `m_records, m_records
    {
      forall i | 2 <= i <= n :: !After(h, m_records[i / 2].when, m_records[i].when)
    }

    ghost predicate Valid()
      reads this, m_records, clients
    {
      Linked(1, m_used, clients) && IsHeap(m_used)
    }

    ghost function Queue(): map<SkedClient, int>
      requires Valid()
      reads this, m_records, clients
    {
      QueueOf(1, m_used, clients)
    }

    // ---------- heap order by distance from the base of a window ----------

    ghost predicate Window(base: int, n: int)
      requires 0 <= n < m_records.Length
      reads `m_records, m_records
    {
      forall i | 1 <= i <= n :: InWindow(h, base, m_records[i].when)
    }

    ghost function Keys(base: int, n: int): (a: seq<int>)
      requires 0 <= n < m_records.Length
      reads `m_records, m_records
      ensures |a| == n + 1
    {
      KeysOf(h, base, m_records[..n + 1])
    }

    /** Records lo..n hold the queue q of the clients s, and all times fit the window. */
    ghost predicate Holds(base: int, lo: int, n: int, s: set<SkedClient>, q: map<SkedClient, int>)
      reads `m_records, m_records, s
    {
      Linked(lo, n, s) && Window(base, n) && QueueOf(lo, n, s) == q
    }

    lemma HeapIsKeyHeap(base: int, n: int)
      requires 0 < h && 0 <= n < m_records.Length && Window(base, n)
      ensures IsHeap(n) <==> Heap(Keys(base, n))
    {
      var a := Keys(base, n);
      forall j | 2 <= j <= n
        ensures !After(h, m_records[j / 2].when, m_records[j].when) <==> UnderParent(a, j)
      {
        CompareKeys(base, n, j / 2, j);
      }
    }

    lemma CompareKeys(base: int, n: int, i: int, j: int)
      requires 0 < h && 0 <= n < m_records.Length && Window(base, n) && 1 <= i <= n && 1 <= j <= n
      ensures After(h, m_records[i].when, m_records[j].when) <==> Keys(base, n)[i] > Keys(base, n)[j]
    {
      AfterIsOffsetOrder(h, base, m_records[i].when, m_records[j].when);
    }

    /** What loops may use of Holds without looking inside it. */
    lemma HoldsBounds(base: int, n: int, s: set<SkedClient>, q: map<SkedClient, int>)
      requires Holds(base, 1, n, s, q)
      ensures 0 < h && 0 <= n < m_records.Length && Window(base, n) && QueueInWindow(h, base, q)
      ensures forall i | 1 <= i <= n :: m_records[i].skc in s && m_records[i].skc.skedIndex == i
    {
    }

    lemma HoldsWithoutRoot(base: int, n: int, s: set<SkedClient>, q: map<SkedClient, int>, root: SkedClient)
      requires Holds(base, 1, n, s, q) && 1 <= n && m_records[1].skc == root
      ensures Holds(base, 2, n, s - {root}, q - {root}) && root in s
      ensures n == 1 ==> Holds(base, 1, 0, s - {root}, q - {root})
    {
    }

    lemma HoldsWithIdle(base: int, n: int, s: set<SkedClient>, q: map<SkedClient, int>, c: SkedClient)
      requires Holds(base, 1, n, s - {c}, q) && c.skedIndex == 0
      ensures Holds(base, 1, n, s, q)
    {
    }

    lemma WindowOfQueue(base: int)
      requires Valid() && QueueInWindow(h, base, Queue())
      ensures Holds(base, 1, m_used, clients, Queue())
    {
      var q := Queue();
      assert forall i | 1 <= i <= m_used :: m_records[i].skc in q && q[m_records[i].skc] == m_records[i].when;
    }

    lemma TopIsEarliest(base: int)
      requires Valid() && QueueInWindow(h, base, Queue()) && m_used > 0
      ensures Earliest(h, Queue(), m_records[1].skc) && Queue()[m_records[1].skc] == m_records[1].when
    {
      WindowOfQueue(base);
      HeapIsKeyHeap(base, m_used);
      forall d | d in Queue() ensures !After(h, m_records[1].when, Queue()[d]) {
        RootIsLeast(Keys(base, m_used), d.skedIndex);
        CompareKeys(base, m_used, 1, d.skedIndex);
      }
    }

    // ---------- private methods ----------

    method StoreAt(i: int, r: SkedRecord)
      requires 0 <= i < m_records.Length && r.skc != null
      modifies m_records, r.skc
      ensures m_records[..] == old(m_records[..])[i := r] && r.skc.skedIndex == i
    {
      m_records[i] := r;
      r.skc.skedIndex := i;
    }

    /** The three-line swap of siftUp, siftDown and remove. */
    method Exchange(i: int, j: int, n: int, ghost base: int, ghost s: set<SkedClient>, ghost q: map<SkedClient, int>)
      requires Holds(base, 1, n, s, q) && 1 <= i <= n && 1 <= j <= n && i != j
      modifies m_records, s
      ensures Holds(base, 1, n, s, q) && Keys(base, n) == Swapped(old(Keys(base, n)), i, j)
      ensures m_records[i] == old(m_records[j])
    {
      hide InWindow, Offset;
      var tmp := m_records[i];
      ghost var a, b := tmp.skc, m_records[j].skc;
      StoreAt(i, m_records[j]);
      StoreAt(j, tmp);
      assert m_records[..] == old(m_records[..])[i := old(m_records[j])][j := tmp];
      assert forall c | c in s && c != a && c != b ::
               c.skedIndex == old(c.skedIndex) && c.skedIndex != i && c.skedIndex != j;
      assert forall k | 1 <= k <= n && k != i && k != j :: m_records[k] == old(m_records[k]);
      assert Linked(1, n, s);
    }

    method SiftUp(i: int, ghost base: int, ghost s: set<SkedClient>, ghost q: map<SkedClient, int>)
      requires Holds(base, 1, m_used, s, q) && 1 <= i <= m_used
      requires HeapExcept(Keys(base, m_used), i, true, false)
      modifies m_records, s
      ensures Holds(base, 1, m_used, s, q) && IsHeap(m_used)
    {
      hide Holds, Linked, QueueOf, HeapExcept, Keys, Heap, IsHeap, Window;
      HoldsBounds(base, m_used, s, q);
      var index := i;
      while index > 1
        invariant 1 <= index <= m_used < m_records.Length
        invariant Holds(base, 1, m_used, s, q) && HeapExcept(Keys(base, m_used), index, true, false)
      {
        var parent := index / 2;
        HoldsBounds(base, m_used, s, q);
        CompareKeys(base, m_used, index, parent);
        if After(h, m_records[index].when, m_records[parent].when) {
          break;
        }
        SiftUpStep(Keys(base, m_used), index);
        Exchange(parent, index, m_used, base, s, q);
        index := parent;
      }
      HoldsBounds(base, m_used, s, q);
      SiftUpStops(Keys(base, m_used), index);
      HeapIsKeyHeap(base, m_used);
    }

    method SiftDown(i: int, ghost base: int, ghost s: set<SkedClient>, ghost q: map<SkedClient, int>)
      requires Holds(base, 1, m_used, s, q) && 1 <= i <= m_used
      requires HeapExcept(Keys(base, m_used), i, false, true)
      modifies m_records, s
      ensures Holds(base, 1, m_used, s, q) && IsHeap(m_used)
    {
      hide Holds, Linked, QueueOf, HeapExcept, Keys, Heap, IsHeap, Window;
      HoldsBounds(base, m_used, s, q);
      var index := i;
      while true
        invariant 1 <= index <= m_used < m_records.Length
        invariant Holds(base, 1, m_used, s, q) && HeapExcept(Keys(base, m_used), index, false, true)
        decreases m_used - index
      {
        HoldsBounds(base, m_used, s, q);
        ghost var a := Keys(base, m_used);
        var child := index * 2;
        if child > m_used {
          SiftDownStops(a, index);
          break;
        }
        if child < m_used {
          CompareKeys(base, m_used, child + 1, child);
          if !After(h, m_records[child + 1].when, m_records[child].when) {
            child := child + 1;
          }
        }
        assert forall j | 2 <= j < |a| && j / 2 == index :: j == index * 2 || j == index * 2 + 1;
        CompareKeys(base, m_used, child, index);
        if After(h, m_records[child].when, m_records[index].when) {
          SiftDownStops(a, index);
          break;
        }
        SiftDownStep(a, index, child);
        Exchange(child, index, m_used, base, s, q);
        index := child;
      }
      HoldsBounds(base, m_used, s, q);
      HeapIsKeyHeap(base, m_used);
    }

    /** The last record overwrites the root. */
    method MoveLastToRoot(n: int, ghost base: int, ghost s: set<SkedClient>, ghost q: map<SkedClient, int>)
      requires Holds(base, 2, n, s, q) && 2 <= n
      modifies m_records, s
      ensures Holds(base, 1, n - 1, s, q)
      ensures Keys(base, n - 1) == old(Keys(base, n))[..n][1 := old(Keys(base, n))[n]]
    {
      StoreAt(1, m_records[n]);
    }

    /** Takes the record at i out of the heap.  Its client keeps a stale position, which the
        caller clears. */
    method Remove(i: int, ghost base: int, ghost gone: SkedClient, ghost q: map<SkedClient, int>)
      requires Holds(base, 1, m_used, clients, q) && IsHeap(m_used) && 1 <= i <= m_used && m_records[i].skc == gone
      modifies this`m_used, m_records, clients
      ensures m_used == old(m_used) - 1 && gone in clients && IsHeap(m_used)
      ensures Holds(base, 1, m_used, clients - {gone}, q - {gone})
    {
      hide Holds, Linked, QueueOf, HeapExcept, Keys, Heap, IsHeap, Window;
      ghost var n, rest: set<SkedClient> := m_used, clients - {gone};
      HoldsBounds(base, n, clients, q);
      HeapIsKeyHeap(base, n);
      HeapHasNoGap(Keys(base, n), i, true, true);
      m_used := m_used - 1;
      if m_used + 1 > 1 {
        var index := i;
        while index > 1
          invariant 1 <= index <= n < m_records.Length && m_used == n - 1 && m_records[index].skc == gone
          invariant Holds(base, 1, n, clients, q) && HeapExcept(Keys(base, n), index, true, true)
        {
          var parent := index / 2;
          BubbleStep(Keys(base, n), index);
          Exchange(parent, index, m_used + 1, base, clients, q);
          index := parent;
        }
        HoldsWithoutRoot(base, n, clients, q, gone);
        RootReplaced(Keys(base, n), true, Keys(base, n)[n], n);
        MoveLastToRoot(m_used + 1, base, rest, q - {gone});
        if m_used > 1 {
          SiftDown(1, base, rest, q - {gone});
        }
      } else {
        HoldsWithoutRoot(base, n, clients, q, gone);
      }
      OneRecordIsHeap();
    }

    /** The array doubles when it is full; the records keep their places. */
    method Grow(ghost base: int, ghost q: map<SkedClient, int>)
      requires Holds(base, 1, m_used, clients, q) && IsHeap(m_used)
      modifies this`m_records
      ensures Holds(base, 1, m_used, clients, q) && IsHeap(m_used)
      ensures fresh(m_records) && m_records.Length == 2 * old(m_records.Length)
    {
      var tmp := new SkedRecord[m_records.Length * 2];
      forall k | 0 <= k < m_records.Length {
        tmp[k] := m_records[k];
      }
      m_records := tmp;
    }

    /** A record is appended below the heap. */
    method Append(skr: SkedRecord, ghost base: int, ghost q: map<SkedClient, int>)
      requires Holds(base, 1, m_used, clients, q) && InWindow(h, base, skr.when) && m_used + 1 < m_records.Length
      requires skr.skc != null && skr.skc in clients && skr.skc.skedIndex == 0
      modifies this`m_used, m_records, skr.skc
      ensures m_used == old(m_used) + 1 && Holds(base, 1, m_used, clients, q[skr.skc := skr.when])
      ensures Keys(base, m_used)[..m_used] == old(Keys(base, m_used))
    {
      m_used := m_used + 1;
      StoreAt(m_used, skr);
    }

    method Push(skr: SkedRecord, ghost base: int, ghost q: map<SkedClient, int>)
      requires Holds(base, 1, m_used, clients, q) && IsHeap(m_used) && InWindow(h, base, skr.when)
      requires skr.skc != null && skr.skc in clients && skr.skc.skedIndex == 0
      modifies this, m_records, clients
      ensures Holds(base, 1, m_used, clients, q[skr.skc := skr.when]) && IsHeap(m_used)
      ensures clients == old(clients) && (m_records == old(m_records) || fresh(m_records))
    {
      hide Holds, Linked, QueueOf, HeapExcept, Keys, Heap, IsHeap, Window;
      HoldsBounds(base, m_used, clients, q);
      if m_used + 1 == m_records.Length {
        Grow(base, q);
      }
      HoldsBounds(base, m_used, clients, q);
      HeapIsKeyHeap(base, m_used);
      ghost var a := Keys(base, m_used);
      Append(skr, base, q);
      LeafAppended(a, Keys(base, m_used));
      SiftUp(m_used, base, clients, q[skr.skc := skr.when]);
    }

    /** pop of a nonempty heap. */
    method PopRoot(ghost base: int, ghost q: map<SkedClient, int>)
      requires Holds(base, 1, m_used, clients, q) && IsHeap(m_used) && m_used > 0
      modifies this`m_used, m_records, clients
      ensures var top := old(m_records[1].skc);
              top in clients && Holds(base, 1, m_used, clients, q - {top}) && IsHeap(m_used)
    {
      hide Holds, Linked, QueueOf, HeapExcept, Keys, Heap, IsHeap, Window;
      if m_used == 0 {
        return;
      }
      ghost var n := m_used;
      HoldsBounds(base, n, clients, q);
      HeapIsKeyHeap(base, n);
      HeapHasNoGap(Keys(base, n), 1, true, true);
      ghost var top: SkedClient := m_records[1].skc;
      ghost var rest: set<SkedClient> := clients - {top};
      HoldsWithoutRoot(base, n, clients, q, top);
      m_records[1].skc.skedIndex := 0;
      m_used := m_used - 1;
      if m_used > 0 {
        RootReplaced(Keys(base, n), true, Keys(base, n)[n], n);
        MoveLastToRoot(m_used + 1, base, rest, q - {top});
        if m_used > 1 {
          SiftDown(1, base, rest, q - {top});
        }
      }
      OneRecordIsHeap();
      HoldsWithIdle(base, m_used, clients, q - {top}, top);
    }

    lemma OneRecordIsHeap()
      ensures 0 <= m_used < m_records.Length && m_used <= 1 ==> IsHeap(m_used)
    {
    }

    // ---------- public methods ----------

    constructor (half: int)
      requires 0 < half
      ensures Valid() && Queue() == map[] && h == half && clients == {} && fresh(m_records)
    {
      h := half;
      m_records := new SkedRecord[INITIAL_ALLOCATION];
      m_used := 0;
      clients := {};
    }

    /** Makes a client object known; it starts out not scheduled. */
    ghost method Enroll(skc: SkedClient)
      requires Valid() && skc.skedIndex == 0
      modifies this`clients
      ensures Valid() && clients == old(clients) + {skc} && Queue() == old(Queue())
    {
      clients := clients + {skc};
    }

    method AddClient(skc: SkedClient, when: int, ghost base: int)
      requires Valid() && skc in clients && skc !in Queue()
      requires QueueInWindow(h, base, Queue()) && InWindow(h, base, when)
      modifies this, m_records, clients
      ensures Valid() && Queue() == old(Queue())[skc := when]
      ensures clients == old(clients) && (m_records == old(m_records) || fresh(m_records))
    {
      WindowOfQueue(base);
      Push(SkedRecord(skc, when), base, Queue());
    }

    /** Deletes skc, wherever it is in the heap; nothing happens if it is not scheduled. */
    method DelClient(skc: SkedClient, ghost base: int)
      requires Valid() && skc in clients && QueueInWindow(h, base, Queue())
      modifies this`m_used, m_records, clients
      ensures Valid() && Queue() == old(Queue()) - {skc} && skc.skedIndex == 0
    {
      if skc.skedIndex == 0 {
        return;
      }
      ghost var q := Queue();
      WindowOfQueue(base);
      Remove(skc.skedIndex, base, skc, q);
      skc.skedIndex := 0;
      HoldsWithIdle(base, m_used, clients, q - {skc}, skc);
    }

    method NextTime(defval: int, ghost base: int) returns (t: int)
      requires Valid() && QueueInWindow(h, base, Queue())
      ensures Queue() == map[] ==> t == defval
      ensures Queue() != map[] ==> exists c :: Earliest(h, Queue(), c) && t == Queue()[c]
    {
      if m_used == 0 {
        return defval;
      }
      TopIsEarliest(base);
      return m_records[1].when;
    }

    /** Drops the top of the heap, if there is one. */
    method Pop(ghost base: int)
      requires Valid() && QueueInWindow(h, base, Queue())
      modifies this`m_used, m_records, clients
      ensures Valid() && (old(m_used) == 0 ==> Queue() == old(Queue()))
      ensures old(m_used) > 0 ==> Queue() == old(Queue()) - {old(m_records[1].skc)}
    {
      if m_used == 0 {
        return;
      }
      WindowOfQueue(base);
      PopRoot(base, Queue());
    }

    /** One callback: the operations it performs on the scheduler, in order. */
    method Callback(ops: seq<SkedOp<SkedClient>>, ghost base: int)
      requires Valid() && QueueInWindow(h, base, Queue()) && OpsInWindow(h, base, ops)
      requires forall op | op in ops :: op.skc in clients
      modifies this, m_records, clients
      ensures Valid() && Queue() == ApplyOps(old(Queue()), ops)
      ensures clients == old(clients) && (m_records == old(m_records) || fresh(m_records))
    {
      hide Valid, Queue;
      ghost var q := Queue();
      for k := 0 to |ops|
        invariant Valid() && Queue() == ApplyOps(q, ops[..k]) && QueueInWindow(h, base, Queue())
        invariant clients == old(clients) && (m_records == old(m_records) || fresh(m_records))
      {
        assert ops[..k + 1][..k] == ops[..k] && ops[k] in ops;
        OpsKeepWindow(h, base, q, ops[..k + 1]);
        DelClient(ops[k].skc, base);
        if ops[k].Reschedule? {
          AddClient(ops[k].skc, ops[k].when, base);
        }
      }
      assert ops[..|ops|] == ops;
    }

    /** Runs everything that is due.  The k-th callback performs script(k).  From callback number
        settle on, callbacks schedule only strictly after now; before that they may schedule
        anything, so settle is what bounds the run. */
    method RunAll(now: int, script: nat -> seq<SkedOp<SkedClient>>, ghost settle: nat, ghost base: int)
        returns (err: Errno, log: seq<(SkedClient, int)>)
      requires Valid() && QueueInWindow(h, base, Queue()) && InWindow(h, base, now)
      requires ScriptInWindow(h, base, script) && forall k: nat, op | op in script(k) :: op.skc in clients
      requires forall k: nat | k >= settle :: forall op | op in script(k) :: op.Reschedule? ==> After(h, op.when, now)
      modifies this, m_records, clients
      ensures err == OK && Valid() && clients == old(clients)
      ensures Legal(h, old(Queue()), now, script, log)
      ensures Queue() == QueueAfter(old(Queue()), script, log) && NoneDue(h, Queue(), now)
    {
      hide Valid, Queue, QueueInWindow, OpsInWindow, Legal, ApplyOps;
      ghost var q := Queue();
      log := [];
      EmptyLog(h, q, now, script);
      while true
        invariant Valid() && clients == old(clients) && (m_records == old(m_records) || fresh(m_records))
        invariant Legal(h, q, now, script, log) && Queue() == QueueAfter(q, script, log)
        invariant QueueInWindow(h, base, Queue())
        decreases if |log| < settle then settle - |log| else 0, |DueSet(h, Queue(), now)|
      {
        ghost var before := Queue();
        RootDecides(base, now);
        if m_used == 0 {
          return OK, log;
        }
        var p := m_records[1];
        if After(h, p.when, now) {
          return OK, log;
        }
        if p.skc.skedIndex < 1 || p.skc.skedIndex > m_used || m_records[p.skc.skedIndex].skc != p.skc {
          return EINVAL, log;
        }
        var skc: SkedClient := p.skc;
        Pop(base);
        ghost var popped := Queue();
        WindowAfterRemoval(h, base, before, skc);
        var k := |log|;
        Callback(script(k), base);
        ExtendLog(h, q, now, script, log, (skc, p.when));
        log := log + [(skc, p.when)];
        OpsKeepWindow(h, base, popped, script(k));
        if k >= settle {
          LaterOpsAddNoDue(h, popped, now, script(k));
          DueShrinks(h, before, popped, Queue(), now, skc);
        }
      }
    }

    /** What the test at the top of runAll's loop decides. */
    lemma RootDecides(base: int, now: int)
      requires Valid() && QueueInWindow(h, base, Queue()) && InWindow(h, base, now)
      ensures 0 < h && 0 <= m_used < m_records.Length && (m_used == 0 ==> NoneDue(h, Queue(), now))
      ensures m_used > 0 ==>
                var p := m_records[1];
                p.skc in clients && p.skc.skedIndex == 1 && Earliest(h, Queue(), p.skc) && Queue()[p.skc] == p.when &&
                Window(base, m_used) &&
                (After(h, p.when, now) ==> NoneDue(h, Queue(), now))
    {
      if m_used > 0 {
        TopIsEarliest(base);
        WindowOfQueue(base);
        NoneDueIfEarliestIsNot(h, base, Queue(), now, m_records[1].skc);
      }
    }
  }

  lemma NoneDueIfEarliestIsNot<C>(h: int, base: int, q: map<C, int>, now: int, c: C)
    requires 0 < h && QueueInWindow(h, base, q) && InWindow(h, base, now) && Earliest(h, q, c)
    ensures After(h, q[c], now) ==> NoneDue(h, q, now)
  {
  }

  lemma WindowAfterRemoval<C>(h: int, base: int, q: map<C, int>, c: C)
    requires QueueInWindow(h, base, q)
    ensures QueueInWindow(h, base, q - {c})
  {
  }

  lemma EmptyLog<C>(h: int, q: map<C, int>, now: int, script: nat -> seq<SkedOp<C>>)
    ensures Legal(h, q, now, script, []) && QueueAfter(q, script, []) == q
  {
  }

  lemma DueShrinks<C>(h: int, before: map<C, int>, popped: map<C, int>, after: map<C, int>, now: int, c: C)
    requires c in before && !After(h, before[c], now) && popped == before - {c}
    requires DueSet(h, after, now) <= DueSet(h, popped, now)
    ensures |DueSet(h, after, now)| < |DueSet(h, before, now)|
  {
    var small, big := DueSet(h, after, now), DueSet(h, before, now);
    assert small <= big - {c};
    SubsetSize(small, big - {c});
  }

  lemma ExtendLog<C>(h: int, q: map<C, int>, now: int, script: nat -> seq<SkedOp<C>>, log: seq<(C, int)>, e: (C, int))
    requires Legal(h, q, now, script, log)
    requires Earliest(h, QueueAfter(q, script, log), e.0) && QueueAfter(q, script, log)[e.0] == e.1 &&
             !After(h, e.1, now)
    ensures Legal(h, q, now, script, log + [e])
    ensures QueueAfter(q, script, log + [e]) == ApplyOps(QueueAfter(q, script, log) - {e.0}, script(|log|))
  {
    var log' := log + [e];
    assert log'[..|log|] == log;
    forall k | 0 <= k < |log'|
      ensures var qk := QueueAfter(q, script, log'[..k]);
              Earliest(h, qk, log'[k].0) && qk[log'[k].0] == log'[k].1 && !After(h, log'[k].1, now)
    {
      if k < |log| {
        assert log'[..k] == log[..k] && log'[k] == log[k];
      }
    }
  }
}
