/** What a pass of Poller_poll means: the entries in use and the event bits left in the slots behind
    them, the number of events still expected, and how far the downward scan has come. */
module PollSpec {
  import opened FiniteSets
  import opened PollerMap
  import opened PollerTypes

  datatype Pollfd = Pollfd(fd: int, events: Bits, revents: Bits)

  /** One position of the arrays, as the scan sees it. */
  datatype Item = Item(fd: int, revents: Bits, client: Client)

  /** spare holds the revents of the allocated slots that are not in use: nothing clears them. */
  datatype Table = Table(items: seq<Item>, spare: seq<Bits>)

  datatype Scan = Scan(table: Table, cur: int, rfds: int)

  function EventOf(x: Item): PollEvent {
    PollEvent(x.fd, x.revents, x.client)
  }

  ghost predicate DistinctFds(items: seq<Item>) {
    forall i, j | 0 <= i < j < |items| :: items[i].fd != items[j].fd
  }

  /** The position of a descriptor, or the number of items. */
  function Find(items: seq<Item>, fd: int): (p: nat)
    ensures p <= |items| && (p < |items| ==> items[p].fd == fd) && forall i | 0 <= i < p :: items[i].fd != fd
  {
    if items == [] || items[0].fd == fd then 0 else 1 + Find(items[1..], fd)
  }

  /** The bits a new entry starts with: those of the slot it takes.  junk is what realloc leaves in
      a slot of a grown array. */
  function Stale(t: Table, junk: nat -> Pollfd): Bits {
    if t.spare == [] then junk(|t.items|).revents else t.spare[0]
  }

  /** The slots behind the new entry; a full array has doubled. */
  function SpareAfterAdd(t: Table, junk: nat -> Pollfd): seq<Bits> {
    var n := |t.items|;
    if t.spare != [] then t.spare[1..]
    else if n == 0 then []
    else seq(n - 1, i requires 0 <= i => junk(n + 1 + i).revents)
  }

  function AddTo(t: Table, fd: int, client: Client, junk: nat -> Pollfd): Table {
    Table(t.items + [Item(fd, Stale(t, junk), client)], SpareAfterAdd(t, junk))
  }

  /** Deleting a position moves the last item into it, and frees the last slot. */
  function DelItem(items: seq<Item>, p: nat): seq<Item>
    requires p < |items|
  {
    items[p := items[|items| - 1]][..|items| - 1]
  }

  function DelFrom(t: Table, p: nat): Table
    requires p < |t.items|
  {
    Table(DelItem(t.items, p), [t.items[|t.items| - 1].revents] + t.spare)
  }

  function CallOn(t: Table, c: Call, junk: nat -> Pollfd): Table {
    var p := Find(t.items, c.fd);
    if c.Add? && c.fd >= 0 && p == |t.items| then AddTo(t, c.fd, c.client, junk)
    else if c.Del? && p < |t.items| then DelFrom(t, p)
    else t
  }

  function CallsOn(t: Table, calls: seq<Call>, junk: nat -> Pollfd): Table {
    if calls == [] then t else CallOn(CallsOn(t, calls[..|calls| - 1], junk), calls[|calls| - 1], junk)
  }

  // ---------- the scan ----------

  /** The position of the first flagged item below cur, or -1. */
  function NextFlagged(items: seq<Item>, cur: int): (p: int)
    requires cur <= |items|
    ensures -1 <= p && (p >= 0 ==> p < cur && items[p].revents != {})
    ensures forall i | p < i < cur :: items[i].revents == {}
  {
    if cur <= 0 then -1 else if items[cur - 1].revents != {} then cur - 1 else NextFlagged(items, cur - 1)
  }

  /** Where the scan goes next, from a cursor that deletions may have left above the last item. */
  function NextAt(s: Scan): (p: int)
    ensures -1 <= p < |s.table.items|
  {
    NextFlagged(s.table.items, if s.cur > |s.table.items| then |s.table.items| else s.cur)
  }

  predicate Finished(s: Scan) {
    s.rfds < 1 || NextAt(s) < 0
  }

  /** The next event is returned, and its callback makes its calls. */
  function Next(s: Scan, calls: seq<Call>, junk: nat -> Pollfd): Scan {
    Scan(CallsOn(s.table, calls, junk), NextAt(s), s.rfds - 1)
  }

  function After(s: Scan, script: nat -> Reaction, junk: nat -> Pollfd, log: seq<PollEvent>): Scan {
    if log == [] then s
    else
      var n := |log| - 1;
      Next(After(s, script, junk, log[..n]), CallsOf(script(n), log[n].fd), junk)
  }

  ghost predicate Legal(s: Scan, script: nat -> Reaction, junk: nat -> Pollfd, log: seq<PollEvent>) {
    forall k {:trigger log[k]} | 0 <= k < |log| :: LegalStep(After(s, script, junk, log[..k]), log[k])
  }

  predicate LegalStep(s: Scan, e: PollEvent) {
    !Finished(s) && e == EventOf(s.table.items[NextAt(s)])
  }

  lemma LegalAt(s: Scan, script: nat -> Reaction, junk: nat -> Pollfd, log: seq<PollEvent>, k: nat)
    requires Legal(s, script, junk, log) && k < |log|
    ensures var t := After(s, script, junk, log[..k]);
            LegalStep(t, log[k]) && After(s, script, junk, log[..k + 1]) == Next(t, CallsOf(script(k), log[k].fd), junk)
  {
    var e := log[k];
    assert log[..k + 1][..k] == log[..k];
  }

  lemma AfterNothing(s: Scan, script: nat -> Reaction, junk: nat -> Pollfd, log: seq<PollEvent>)
    ensures After(s, script, junk, log[..0]) == s && log[..|log|] == log
  {
  }

  lemma LegalAppend(s: Scan, script: nat -> Reaction, junk: nat -> Pollfd, log: seq<PollEvent>, e: PollEvent)
    requires Legal(s, script, junk, log) && LegalStep(After(s, script, junk, log), e)
    ensures Legal(s, script, junk, log + [e])
    ensures After(s, script, junk, log + [e]) == Next(After(s, script, junk, log), CallsOf(script(|log|), e.fd), junk)
  {
    var log' := log + [e];
    assert log'[..|log|] == log;
    forall k | 0 <= k < |log'| ensures LegalStep(After(s, script, junk, log'[..k]), log'[k]) {
      if k < |log| {
        assert log'[..k] == log[..k];
        LegalAt(s, script, junk, log, k);
      }
    }
  }

  lemma CallsOne(t: Table, calls: seq<Call>, junk: nat -> Pollfd, n: nat)
    requires n < |calls|
    ensures CallsOn(t, calls[..n + 1], junk) == CallOn(CallsOn(t, calls[..n], junk), calls[n], junk)
  {
    assert calls[..n + 1][..n] == calls[..n];
  }

  // ---------- what one call does to the rest of a pass ----------

  /** The flagged items the scan has still to reach. */
  function Pending(t: Table, cur: int): set<Item> {
    set i | 0 <= i < cur && i < |t.items| && t.items[i].revents != {} :: t.items[i]
  }

  /** The calls that bring an item below the cursor that the scan would not have met there: deleting
      an unscanned item when the last one has been scanned and was flagged, and adding a descriptor
      below the cursor in a slot with bits left in it. */
  predicate Spoils(t: Table, cur: int, c: Call, junk: nat -> Pollfd) {
    var n, p := |t.items|, Find(t.items, c.fd);
    || (c.Del? && p < n && p < cur < n && t.items[n - 1].revents != {})
    || (c.Add? && c.fd >= 0 && p == n && n < cur && Stale(t, junk) != {})
  }

  lemma FindIs(items: seq<Item>, p: nat)
    requires DistinctFds(items) && p < |items|
    ensures Find(items, items[p].fd) == p
  {
  }

  lemma PendingHas(t: Table, cur: int, i: nat)
    requires i < |t.items| && i < cur && t.items[i].revents != {}
    ensures t.items[i] in Pending(t, cur)
  {
  }

  lemma PendingAt(t: Table, cur: int, x: Item) returns (i: nat)
    requires x in Pending(t, cur)
    ensures i < |t.items| && i < cur && t.items[i] == x && x.revents != {}
  {
    i :| i < |t.items| && i < cur && t.items[i] == x && x.revents != {};
  }

  lemma AddedItem(t: Table, fd: int, client: Client, junk: nat -> Pollfd, cur: int)
    requires DistinctFds(t.items) && Find(t.items, fd) == |t.items|
    ensures var u, added := AddTo(t, fd, client, junk), Item(fd, Stale(t, junk), client);
            DistinctFds(u.items) && added !in Pending(t, cur) &&
            Pending(u, cur) == Pending(t, cur) + if |t.items| < cur && Stale(t, junk) != {} then {added} else {}
  {
    var u, n := AddTo(t, fd, client, junk), |t.items|;
    assert forall i | 0 <= i < n :: u.items[i] == t.items[i];
    assert u.items[n] == Item(fd, Stale(t, junk), client);
    hide AddTo, Stale;
    forall x | x in Pending(u, cur) && x != u.items[n] ensures x in Pending(t, cur) {
      var i := PendingAt(u, cur, x);
      PendingHas(t, cur, i);
    }
    forall x | x in Pending(t, cur) ensures x in Pending(u, cur) {
      var i := PendingAt(t, cur, x);
      PendingHas(u, cur, i);
    }
    if n < cur && u.items[n].revents != {} {
      PendingHas(u, cur, n);
    }
  }

  lemma DeletedDistinct(items: seq<Item>, p: nat)
    requires DistinctFds(items) && p < |items|
    ensures DistinctFds(DelItem(items, p))
  {
  }

  lemma DeletedItem(t: Table, p: nat, cur: int)
    requires DistinctFds(t.items) && p < |t.items|
    ensures var u, last := DelFrom(t, p), t.items[|t.items| - 1];
            Pending(u, cur) == (Pending(t, cur) - {t.items[p]}) +
                               if p < cur < |t.items| && last.revents != {} then {last} else {}
  {
    var u, n := DelFrom(t, p), |t.items|;
    var last := t.items[n - 1];
    assert forall i | 0 <= i < n - 1 :: u.items[i] == if i == p then last else t.items[i];
    hide DelFrom;
    forall x | x in Pending(u, cur)
      ensures x != t.items[p] && (x in Pending(t, cur) || (x == last && p < cur < n && last.revents != {}))
    {
      var i := PendingAt(u, cur, x);
      if i != p {
        PendingHas(t, cur, i);
      } else if n - 1 < cur {
        PendingHas(t, cur, n - 1);
      }
    }
    forall x | x in Pending(t, cur) && x != t.items[p] ensures x in Pending(u, cur) {
      var i := PendingAt(t, cur, x);
      PendingHas(u, cur, if i < n - 1 then i else p);
    }
    if p < cur < n && last.revents != {} {
      PendingHas(u, cur, p);
    }
  }

  lemma ScannedIsNotPending(t: Table, cur: int, i: nat)
    requires DistinctFds(t.items) && cur <= i < |t.items|
    ensures t.items[i] !in Pending(t, cur)
  {
    if t.items[i] in Pending(t, cur) {
      var j := PendingAt(t, cur, t.items[i]);
    }
  }

  /** A call adds nothing to what is still to come if and only if it is not one of those, and then it
      only takes away the descriptor it deletes. */
  lemma {:induction false} PendingShrinksIffNotSpoiled(t: Table, cur: int, c: Call, junk: nat -> Pollfd)
    requires DistinctFds(t.items)
    ensures DistinctFds(CallOn(t, c, junk).items)
    ensures Pending(CallOn(t, c, junk), cur) <= Pending(t, cur) <==> !Spoils(t, cur, c, junk)
    ensures !Spoils(t, cur, c, junk) ==>
              Pending(CallOn(t, c, junk), cur) == set x | x in Pending(t, cur) && !(c.Del? && x.fd == c.fd)
  {
    var n, p := |t.items|, Find(t.items, c.fd);
    hide AddTo, DelFrom, Stale, Pending, Find;
    forall x | x in Pending(t, cur) ensures x.fd == c.fd <==> p < n && x == t.items[p] {
      var i := PendingAt(t, cur, x);
      FindIs(t.items, i);
    }
    if c.Add? && c.fd >= 0 && p == n {
      AddedItem(t, c.fd, c.client, junk, cur);
    } else if c.Del? && p < n {
      DeletedDistinct(t.items, p);
      assert DelFrom(t, p).items == DelItem(t.items, p) by { DelFromItems(t, p); }
      DeletedItem(t, p, cur);
      if p < cur < n {
        ScannedIsNotPending(t, cur, n - 1);
      }
    }
  }

  lemma DelFromItems(t: Table, p: nat)
    requires p < |t.items|
    ensures DelFrom(t, p).items == DelItem(t.items, p)
  {
  }

  // ---------- every flagged item exactly once ----------

  ghost predicate Unspoiled(t: Table, cur: int, calls: seq<Call>, junk: nat -> Pollfd) {
    forall i | 0 <= i < |calls| :: !Spoils(CallsOn(t, calls[..i], junk), cur, calls[i], junk)
  }

  /** No callback makes one of the spoiling calls. */
  ghost predicate Careful(s: Scan, script: nat -> Reaction, junk: nat -> Pollfd, log: seq<PollEvent>) {
    forall k {:trigger log[k]} | 0 <= k < |log| ::
      var t := After(s, script, junk, log[..k]);
      Unspoiled(t.table, NextAt(t), CallsOf(script(k), log[k].fd), junk)
  }

  lemma CarefulAt(s: Scan, script: nat -> Reaction, junk: nat -> Pollfd, log: seq<PollEvent>, k: nat)
    requires Careful(s, script, junk, log) && k < |log|
    ensures var t := After(s, script, junk, log[..k]);
            Unspoiled(t.table, NextAt(t), CallsOf(script(k), log[k].fd), junk)
  {
    var e := log[k];
  }

  lemma UnspoiledAt(t: Table, cur: int, calls: seq<Call>, junk: nat -> Pollfd, m: nat)
    requires Unspoiled(t, cur, calls, junk) && m < |calls|
    ensures !Spoils(CallsOn(t, calls[..m], junk), cur, calls[m], junk)
  {
  }

  lemma PrefixDeletes(calls: seq<Call>, m: nat)
    requires m < |calls|
    ensures forall fd :: Del(fd) in calls[..m + 1] <==> Del(fd) in calls[..m] || calls[m] == Del(fd)
  {
    assert calls[..m + 1] == calls[..m] + [calls[m]];
  }

  lemma NoCalls(t: Table, calls: seq<Call>, junk: nat -> Pollfd)
    ensures CallsOn(t, calls[..0], junk) == t && calls[..|calls|] == calls
  {
  }

  lemma {:induction false} CallsOnlyDelete(t: Table, cur: int, calls: seq<Call>, junk: nat -> Pollfd, n: nat)
    requires DistinctFds(t.items) && Unspoiled(t, cur, calls, junk) && n <= |calls|
    ensures var u := CallsOn(t, calls[..n], junk);
            DistinctFds(u.items) && Pending(u, cur) == set x | x in Pending(t, cur) && Del(x.fd) !in calls[..n]
  {
    hide *;
    NoCalls(t, calls, junk);
    if n > 0 {
      var m := n - 1;
      CallsOnlyDelete(t, cur, calls, junk, m);
      CallsOne(t, calls, junk, m);
      UnspoiledAt(t, cur, calls, junk, m);
      PendingShrinksIffNotSpoiled(CallsOn(t, calls[..m], junk), cur, calls[m], junk);
      PrefixDeletes(calls, m);
    }
  }

  /** The scan takes one item off what is still to come. */
  lemma ScanTakesOne(s: Scan)
    requires DistinctFds(s.table.items) && NextAt(s) >= 0
    ensures var x := s.table.items[NextAt(s)];
            x in Pending(s.table, s.cur) && Pending(s.table, NextAt(s)) == Pending(s.table, s.cur) - {x}
  {
    var t, p := s.table, NextAt(s);
    PendingHas(t, s.cur, p);
    ScannedIsNotPending(t, p, p);
    assert forall i | p < i < s.cur && i < |t.items| :: t.items[i].revents == {};
    hide NextAt, DistinctFds;
    forall y | y in Pending(t, p) ensures y in Pending(t, s.cur) {
      var i := PendingAt(t, p, y);
      PendingHas(t, s.cur, i);
    }
    forall y | y in Pending(t, s.cur) && y != t.items[p] ensures y in Pending(t, p) {
      var i := PendingAt(t, s.cur, y);
      PendingHas(t, p, i);
    }
  }

  lemma ScanFindsAll(s: Scan)
    requires NextAt(s) < 0
    ensures Pending(s.table, s.cur) == {}
  {
  }

  lemma SameFdSameItem(t: Table, cur: int, x: Item, y: Item)
    requires DistinctFds(t.items) && x in Pending(t, cur) && y in Pending(t, cur) && x.fd == y.fd
    ensures x == y
  {
    var i := PendingAt(t, cur, x);
    var j := PendingAt(t, cur, y);
  }

  /** fd has been returned or deleted by a callback before event number k. */
  ghost predicate Gone(script: nat -> Reaction, log: seq<PollEvent>, fd: int, k: nat) {
    exists j {:trigger log[j]} | 0 <= j < k && j < |log| :: log[j].fd == fd || Del(fd) in CallsOf(script(j), log[j].fd)
  }

  lemma GoneOneMore(script: nat -> Reaction, log: seq<PollEvent>, fd: int, k: nat)
    requires k < |log|
    ensures Gone(script, log, fd, k + 1) <==>
            Gone(script, log, fd, k) || log[k].fd == fd || Del(fd) in CallsOf(script(k), log[k].fd)
  {
    if log[k].fd == fd || Del(fd) in CallsOf(script(k), log[k].fd) {
      assert Gone(script, log, fd, k + 1);
    }
  }

  lemma NoneGone(script: nat -> Reaction, log: seq<PollEvent>)
    ensures forall fd :: !Gone(script, log, fd, 0)
  {
  }

  /** One careful step: what is still to come loses the item returned and those deleted. */
  lemma StepOnPending(t: Scan, e: PollEvent, calls: seq<Call>, junk: nat -> Pollfd)
    requires DistinctFds(t.table.items) && LegalStep(t, e) && Unspoiled(t.table, NextAt(t), calls, junk)
    ensures var u, was := Next(t, calls, junk), Pending(t.table, t.cur);
            DistinctFds(u.table.items) && u.rfds == t.rfds - 1 &&
            Pending(u.table, u.cur) == (set x | x in was && x.fd != e.fd && Del(x.fd) !in calls) &&
            (exists x | x in was :: e == EventOf(x)) && |Pending(u.table, u.cur)| < |was|
  {
    var p, was := NextAt(t), Pending(t.table, t.cur);
    var x := t.table.items[p];
    ScanTakesOne(t);
    CallsOnlyDelete(t.table, p, calls, junk, |calls|);
    assert calls[..|calls|] == calls;
    forall y | y in was ensures y.fd == e.fd <==> y == x {
      if y.fd == e.fd { SameFdSameItem(t.table, t.cur, x, y); }
    }
    hide Pending, CallsOn, NextAt, DistinctFds, Unspoiled;
    var left := Pending(Next(t, calls, junk).table, p);
    assert left <= was - {x};
    SubsetSize(left, was - {x});
  }

  lemma {:induction false} PendingIsWhatIsLeft(s: Scan, script: nat -> Reaction, junk: nat -> Pollfd,
      log: seq<PollEvent>, k: nat)
    requires DistinctFds(s.table.items) && |Pending(s.table, s.cur)| <= s.rfds
    requires Legal(s, script, junk, log) && Careful(s, script, junk, log) && k <= |log|
    ensures var t := After(s, script, junk, log[..k]);
            DistinctFds(t.table.items) && |Pending(t.table, t.cur)| <= t.rfds &&
            Pending(t.table, t.cur) == set x | x in Pending(s.table, s.cur) && !Gone(script, log, x.fd, k)
  {
    hide *;
    AfterNothing(s, script, junk, log);
    if k == 0 {
      NoneGone(script, log);
    } else {
      var n := k - 1;
      PendingIsWhatIsLeft(s, script, junk, log, n);
      LegalAt(s, script, junk, log, n);
      CarefulAt(s, script, junk, log, n);
      StepOnPending(After(s, script, junk, log[..n]), log[n], CallsOf(script(n), log[n].fd), junk);
      forall x: Item ensures Gone(script, log, x.fd, k) <==>
          Gone(script, log, x.fd, n) || log[n].fd == x.fd || Del(x.fd) in CallsOf(script(n), log[n].fd) {
        GoneOneMore(script, log, x.fd, n);
      }
    }
  }

  lemma NothingIsLeft(s: Scan)
    requires Finished(s) && |Pending(s.table, s.cur)| <= s.rfds
    ensures Pending(s.table, s.cur) == {}
  {
    if NextAt(s) < 0 {
      ScanFindsAll(s);
    }
  }

  lemma GoneBy(script: nat -> Reaction, log: seq<PollEvent>, j: nat, k: nat)
    requires j < k <= |log|
    ensures Gone(script, log, log[j].fd, k)
    ensures forall fd | Del(fd) in CallsOf(script(j), log[j].fd) :: Gone(script, log, fd, k)
  {
    var e := log[j];
  }

  /** When no callback makes a spoiling call, a finished pass has returned every flagged item that
      no callback deleted first; nothing is returned twice, or after it was deleted, or without
      having been flagged. */
  lemma {:induction false} FlaggedOnceOrDeleted(s: Scan, script: nat -> Reaction, junk: nat -> Pollfd,
      log: seq<PollEvent>)
    requires DistinctFds(s.table.items) && |Pending(s.table, s.cur)| <= s.rfds
    requires Legal(s, script, junk, log) && Careful(s, script, junk, log) && Finished(After(s, script, junk, log))
    ensures forall k | 0 <= k < |log| :: exists x | x in Pending(s.table, s.cur) :: log[k] == EventOf(x)
    ensures forall j, k | 0 <= j < k < |log| :: log[j].fd != log[k].fd
    ensures forall j, k | 0 <= j < k < |log| :: Del(log[k].fd) !in CallsOf(script(j), log[j].fd)
    ensures forall x | x in Pending(s.table, s.cur) :: Gone(script, log, x.fd, |log|)
  {
    hide *;
    forall k | 0 <= k < |log|
      ensures exists x | x in Pending(s.table, s.cur) :: log[k] == EventOf(x)
      ensures !Gone(script, log, log[k].fd, k)
    {
      PendingIsWhatIsLeft(s, script, junk, log, k);
      LegalAt(s, script, junk, log, k);
      CarefulAt(s, script, junk, log, k);
      StepOnPending(After(s, script, junk, log[..k]), log[k], CallsOf(script(k), log[k].fd), junk);
      EventFd();
    }
    forall j, k | 0 <= j < k < |log|
      ensures log[j].fd != log[k].fd && Del(log[k].fd) !in CallsOf(script(j), log[j].fd)
    {
      GoneBy(script, log, j, k);
    }
    AfterNothing(s, script, junk, log);
    PendingIsWhatIsLeft(s, script, junk, log, |log|);
    NothingIsLeft(After(s, script, junk, log));
    forall x | x in Pending(s.table, s.cur) ensures Gone(script, log, x.fd, |log|) {
      assert x !in Pending(After(s, script, junk, log).table, After(s, script, junk, log).cur);
    }
  }

  lemma EventFd()
    ensures forall x: Item :: EventOf(x).fd == x.fd
  {
  }

  // ---------- callbacks that delete only what was scanned ----------

  /** The events of the flagged items, from the last down. */
  function FlaggedDown(items: seq<Item>): seq<PollEvent> {
    if items == [] then []
    else
      var n := |items| - 1;
      (if items[n].revents != {} then [EventOf(items[n])] else []) + FlaggedDown(items[..n])
  }

  function CountFlagged(items: seq<Item>): nat {
    |FlaggedDown(items)|
  }

  lemma {:induction false} FlaggedDownSkips(items: seq<Item>, cur: int)
    requires 0 <= cur <= |items|
    ensures var p := NextFlagged(items, cur);
            FlaggedDown(items[..cur]) == if p < 0 then [] else [EventOf(items[p])] + FlaggedDown(items[..p])
    decreases cur
  {
    if cur > 0 {
      assert items[..cur][..cur - 1] == items[..cur - 1];
      FlaggedDownSkips(items, cur - 1);
    }
  }

  /** Each flagged item exactly once, and nothing else. */
  lemma {:induction false} FlaggedDownIsExact(items: seq<Item>)
    requires DistinctFds(items)
    ensures forall e :: e in FlaggedDown(items) <==> exists x :: x in items && x.revents != {} && e == EventOf(x)
    ensures forall j, k | 0 <= j < k < |FlaggedDown(items)| :: FlaggedDown(items)[j].fd != FlaggedDown(items)[k].fd
  {
    if items != [] {
      var n := |items| - 1;
      FlaggedDownIsExact(items[..n]);
      var rest, x := FlaggedDown(items[..n]), items[n];
      assert items == items[..n] + [x];
      forall k | 0 <= k < |rest| ensures rest[k].fd != x.fd {
        assert rest[k] in rest;
      }
    }
  }

  /** poll counts as many events as the scan has to come. */
  lemma {:induction false} CountIsPending(t: Table, n: nat)
    requires DistinctFds(t.items) && n <= |t.items|
    ensures |Pending(t, n)| == CountFlagged(t.items[..n])
  {
    if n > 0 {
      var m := n - 1;
      CountIsPending(t, m);
      assert t.items[..n][..m] == t.items[..m];
      var one := if t.items[m].revents != {} then {t.items[m]} else {};
      assert Pending(t, n) == Pending(t, m) + one;
      ScannedIsNotPending(t, m, m);
    } else {
      assert Pending(t, 0) == {};
    }
  }

  /** c deletes nothing that the scan has still to reach. */
  predicate Spares(t: Table, cur: int, c: Call) {
    c.Del? && Find(t.items, c.fd) < |t.items| ==> cur <= Find(t.items, c.fd)
  }

  ghost predicate AllSpare(t: Table, cur: int, calls: seq<Call>, junk: nat -> Pollfd) {
    forall i | 0 <= i < |calls| :: Spares(CallsOn(t, calls[..i], junk), cur, calls[i])
  }

  ghost predicate Sparing(s: Scan, script: nat -> Reaction, junk: nat -> Pollfd, log: seq<PollEvent>) {
    forall k {:trigger log[k]} | 0 <= k < |log| ::
      var t := After(s, script, junk, log[..k]);
      AllSpare(t.table, NextAt(t), CallsOf(script(k), log[k].fd), junk)
  }

  lemma SparingAt(s: Scan, script: nat -> Reaction, junk: nat -> Pollfd, log: seq<PollEvent>, k: nat)
    requires Sparing(s, script, junk, log) && k < |log|
    ensures var t := After(s, script, junk, log[..k]);
            AllSpare(t.table, NextAt(t), CallsOf(script(k), log[k].fd), junk)
  {
    var e := log[k];
  }

  lemma SparedBelow(t: Table, cur: nat, c: Call, junk: nat -> Pollfd)
    requires cur <= |t.items| && Spares(t, cur, c)
    ensures var u := CallOn(t, c, junk); cur <= |u.items| && u.items[..cur] == t.items[..cur]
    ensures !Spoils(t, cur, c, junk)
  {
  }

  lemma {:induction false} AllSparedBelow(t: Table, cur: nat, calls: seq<Call>, junk: nat -> Pollfd, n: nat)
    requires cur <= |t.items| && AllSpare(t, cur, calls, junk) && n <= |calls|
    ensures var u := CallsOn(t, calls[..n], junk); cur <= |u.items| && u.items[..cur] == t.items[..cur]
  {
    if n > 0 {
      var m := n - 1;
      AllSparedBelow(t, cur, calls, junk, m);
      CallsOne(t, calls, junk, m);
      assert Spares(CallsOn(t, calls[..m], junk), cur, calls[m]);
      hide CallOn, CallsOn, Spares, AllSpare;
      SparedBelow(CallsOn(t, calls[..m], junk), cur, calls[m], junk);
    }
  }

  lemma {:induction false} NextFlaggedLocal(a: seq<Item>, b: seq<Item>, cur: nat)
    requires cur <= |a| && cur <= |b| && a[..cur] == b[..cur]
    ensures var p := NextFlagged(a, cur); p == NextFlagged(b, cur) && (p >= 0 ==> a[p] == b[p] && a[..p] == b[..p])
    decreases cur
  {
    if cur > 0 {
      assert a[cur - 1] == a[..cur][cur - 1] && b[cur - 1] == b[..cur][cur - 1];
      assert a[..cur - 1] == a[..cur][..cur - 1] && b[..cur - 1] == b[..cur][..cur - 1];
      NextFlaggedLocal(a, b, cur - 1);
    }
  }

  /** Nothing below the cursor has changed, and log is what was flagged above it. */
  ghost predicate MidScan(items: seq<Item>, t: Scan, log: seq<PollEvent>) {
    && 0 <= t.cur <= |t.table.items| && t.cur <= |items| && t.table.items[..t.cur] == items[..t.cur]
    && log + FlaggedDown(items[..t.cur]) == FlaggedDown(items) && t.rfds == CountFlagged(items[..t.cur])
  }

  lemma ScanStep(items: seq<Item>, t: Scan, log: seq<PollEvent>, e: PollEvent)
    requires MidScan(items, t, log) && LegalStep(t, e)
    ensures MidScan(items, Scan(t.table, NextAt(t), t.rfds - 1), log + [e])
  {
    FlaggedDownSkips(items, t.cur);
    NextFlaggedLocal(items, t.table.items, t.cur);
    var p := NextAt(t);
    assert log + ([e] + FlaggedDown(items[..p])) == (log + [e]) + FlaggedDown(items[..p]);
  }

  lemma ScanKept(items: seq<Item>, t: Scan, u: Table, log: seq<PollEvent>)
    requires MidScan(items, t, log) && t.cur <= |u.items| &&
             (t.cur >= 0 && t.cur <= |t.table.items| ==> u.items[..t.cur] == t.table.items[..t.cur])
    ensures MidScan(items, Scan(u, t.cur, t.rfds), log)
  {
  }

  lemma ScanStarts(s: Scan, log: seq<PollEvent>)
    requires s.cur == |s.table.items| && s.rfds == CountFlagged(s.table.items)
    ensures MidScan(s.table.items, s, log[..0])
  {
    assert s.table.items[..s.cur] == s.table.items;
    assert log[..0] == [];
  }

  lemma SparingStep(items: seq<Item>, t: Scan, log: seq<PollEvent>, e: PollEvent, calls: seq<Call>, junk: nat -> Pollfd)
    requires MidScan(items, t, log) && LegalStep(t, e) && AllSpare(t.table, NextAt(t), calls, junk)
    ensures MidScan(items, Next(t, calls, junk), log + [e])
  {
    var u := Scan(t.table, NextAt(t), t.rfds - 1);
    ScanStep(items, t, log, e);
    MidScanCursor(items, u, log + [e]);
    hide MidScan, LegalStep, NextAt;
    NoCalls(t.table, calls, junk);
    AllSparedBelow(t.table, u.cur, calls, junk, |calls|);
    ScanKept(items, u, CallsOn(t.table, calls, junk), log + [e]);
  }

  lemma MidScanCursor(items: seq<Item>, t: Scan, log: seq<PollEvent>)
    requires MidScan(items, t, log)
    ensures 0 <= t.cur <= |t.table.items|
  {
  }

  lemma {:induction false} SparingPassStays(s: Scan, script: nat -> Reaction, junk: nat -> Pollfd,
      log: seq<PollEvent>, k: nat)
    requires s.cur == |s.table.items| && s.rfds == CountFlagged(s.table.items)
    requires Legal(s, script, junk, log) && Sparing(s, script, junk, log) && k <= |log|
    ensures MidScan(s.table.items, After(s, script, junk, log[..k]), log[..k])
  {
    hide *;
    AfterNothing(s, script, junk, log);
    if k == 0 {
      ScanStarts(s, log);
    } else {
      var n := k - 1;
      SparingPassStays(s, script, junk, log, n);
      LegalAt(s, script, junk, log, n);
      SparingAt(s, script, junk, log, n);
      SparingStep(s.table.items, After(s, script, junk, log[..n]), log[..n], log[n], CallsOf(script(n), log[n].fd),
        junk);
      assert log[..k] == log[..n] + [log[n]];
    }
  }

  lemma ScanEnds(items: seq<Item>, t: Scan, log: seq<PollEvent>)
    requires MidScan(items, t, log) && Finished(t)
    ensures log == FlaggedDown(items) && t.rfds == 0
  {
    FlaggedDownSkips(items, t.cur);
    NextFlaggedLocal(items, t.table.items, t.cur);
    assert log + [] == log;
  }

  /** When callbacks delete only what was scanned, whatever they add, the flagged items are returned
      from the top down, each once, and none is left expected. */
  lemma {:induction false} SparingPassIsTopDown(s: Scan, script: nat -> Reaction, junk: nat -> Pollfd,
      log: seq<PollEvent>)
    requires s.cur == |s.table.items| && s.rfds == CountFlagged(s.table.items)
    requires Legal(s, script, junk, log) && Sparing(s, script, junk, log) && Finished(After(s, script, junk, log))
    ensures log == FlaggedDown(s.table.items) && After(s, script, junk, log).rfds == 0
  {
    hide *;
    AfterNothing(s, script, junk, log);
    SparingPassStays(s, script, junk, log, |log|);
    ScanEnds(s.table.items, After(s, script, junk, log), log);
  }

  // ---------- what the spoiling calls do, in runs ----------

  /** A script whose first callback makes these calls, and no other callback any. */
  function OnlyFirst(calls: seq<Call>): nat -> Reaction {
    k => Reaction(if k == 0 then calls else [], false)
  }

  /** Two events in a row. */
  lemma TwoEvents(s: Scan, calls: seq<Call>, junk: nat -> Pollfd, d: PollEvent, e: PollEvent)
    requires LegalStep(s, d) && LegalStep(Next(s, calls, junk), e)
    ensures var script := OnlyFirst(calls);
            Legal(s, script, junk, [d, e]) && After(s, script, junk, [d, e]) == Next(Next(s, calls, junk), [], junk)
  {
    var script := OnlyFirst(calls);
    assert CallsOf(script(0), d.fd) == calls && CallsOf(script(1), e.fd) == [];
    hide LegalStep, Next, OnlyFirst;
    LegalAppend(s, script, junk, [], d);
    assert [] + [d] == [d] && [d] + [e] == [d, e];
    LegalAppend(s, script, junk, [d], e);
  }

  lemma TopIsNext(s: Scan, n: nat, x: Item)
    requires n == |s.table.items| && n > 0 && x == s.table.items[n - 1] && x.revents != {} && s.cur >= n && s.rfds >= 1
    ensures NextAt(s) == n - 1 && LegalStep(s, EventOf(x))
  {
  }

  lemma LastFlagged(items: seq<Item>, x: Item)
    ensures CountFlagged(items + [x]) == CountFlagged(items) + if x.revents != {} then 1 else 0
  {
    assert (items + [x])[..|items|] == items;
  }

  /** Deleting the middle one of three, the outer two flagged, after the last was returned: the last
      is returned again, no more events are expected, and the first is never returned. */
  lemma {:induction false} DeletingUnscannedRepeatsAndLoses(junk: nat -> Pollfd)
      returns (s: Scan, script: nat -> Reaction, log: seq<PollEvent>)
    ensures DistinctFds(s.table.items) && s.cur == |s.table.items| == 3 && s.rfds == CountFlagged(s.table.items)
    ensures Legal(s, script, junk, log) && Finished(After(s, script, junk, log))
    ensures |log| == 2 && log[0] == log[1] == EventOf(s.table.items[2])
    ensures s.table.items[0].revents != {} && After(s, script, junk, log).rfds == 0
  {
    var a, b, c := Item(7, {IN}, 1), Item(8, {}, 2), Item(9, {IN}, 3);
    assert IN in a.revents && IN in c.revents;
    s := Scan(Table([a, b, c], []), 3, 2);
    script := OnlyFirst([Del(8)]);
    log := [EventOf(c), EventOf(c)];
    LastFlagged([], a);
    LastFlagged([a], b);
    LastFlagged([a, b], c);
    assert [] + [a] == [a] && [a] + [b] == [a, b] && [a, b] + [c] == [a, b, c];
    hide CountFlagged, CallsOn, LegalStep, NextAt;
    DeleteMiddle(a, b, c, junk);
    TopIsNext(s, 3, c);
    var t := Scan(Table([a, c], [{IN}]), 2, 1);
    assert Next(s, [Del(8)], junk) == t;
    TopIsNext(t, 2, c);
    TwoEvents(s, [Del(8)], junk, EventOf(c), EventOf(c));
  }

  lemma DeleteMiddle(a: Item, b: Item, c: Item, junk: nat -> Pollfd)
    requires a.fd != b.fd
    ensures CallsOn(Table([a, b, c], []), [Del(b.fd)], junk) == Table([a, c], [c.revents])
  {
    assert [Del(b.fd)][..0] == [];
    assert [a, b, c][1..] == [b, c];
    assert Find([b, c], b.fd) == 0;
    assert DelItem([a, b, c], 1) == [a, c];
    assert [c.revents] + [] == [c.revents];
  }

  /** Closing both of two flagged descriptors and opening the first one again, while the second is
      handled: the new client gets the bits that poll reported for the old one. */
  lemma {:induction false} ReopeningBelowCursorGetsStaleBits(junk: nat -> Pollfd)
      returns (s: Scan, script: nat -> Reaction, log: seq<PollEvent>)
    ensures DistinctFds(s.table.items) && s.cur == |s.table.items| == 2 && s.rfds == CountFlagged(s.table.items)
    ensures Legal(s, script, junk, log)
    ensures s.table.items[0].client == 1 && |log| == 2 && log[1] == EventOf(s.table.items[0]).(client := 5)
  {
    var a, b, d := Item(7, {IN}, 1), Item(8, {IN}, 2), Item(7, {IN}, 5);
    assert IN in a.revents;
    s := Scan(Table([a, b], []), 2, 2);
    var calls := [Del(8), Del(7), Add(7, 5, {IN})];
    script := OnlyFirst(calls);
    log := [EventOf(b), EventOf(d)];
    LastFlagged([], a);
    LastFlagged([a], b);
    assert [] + [a] == [a] && [a] + [b] == [a, b];
    hide CountFlagged, CallsOn, LegalStep, NextAt;
    CloseBothReopenFirst(a, b, 5, {IN}, junk);
    TopIsNext(s, 2, b);
    var t := Scan(Table([d], [{IN}]), 1, 1);
    assert Next(s, calls, junk) == t;
    TopIsNext(t, 1, d);
    TwoEvents(s, calls, junk, EventOf(b), EventOf(d));
  }

  lemma DeleteLast(items: seq<Item>, x: Item, spare: seq<Bits>, junk: nat -> Pollfd)
    requires forall i | 0 <= i < |items| :: items[i].fd != x.fd
    ensures CallOn(Table(items + [x], spare), Del(x.fd), junk) == Table(items, [x.revents] + spare)
  {
    var all, n := items + [x], |items|;
    assert all[n] == x && forall i | 0 <= i < n :: all[i].fd != x.fd;
    assert Find(all, x.fd) == n;
    assert DelItem(all, n) == items;
  }

  lemma ThreeCalls(t: Table, c: Call, d: Call, e: Call, junk: nat -> Pollfd)
    ensures CallsOn(t, [c, d, e], junk) == CallOn(CallOn(CallOn(t, c, junk), d, junk), e, junk)
  {
    var calls := [c, d, e];
    assert calls[..3] == calls;
    hide CallOn, CallsOn;
    NoCalls(t, calls, junk);
    CallsOne(t, calls, junk, 0);
    CallsOne(t, calls, junk, 1);
    CallsOne(t, calls, junk, 2);
  }

  lemma AddFirst(fd: int, client: Client, mask: Bits, stale: Bits, spare: seq<Bits>, junk: nat -> Pollfd)
    requires fd >= 0
    ensures CallOn(Table([], [stale] + spare), Add(fd, client, mask), junk) == Table([Item(fd, stale, client)], spare)
  {
    assert ([stale] + spare)[1..] == spare;
    assert [] + [Item(fd, stale, client)] == [Item(fd, stale, client)];
  }

  lemma CloseBothReopenFirst(a: Item, b: Item, client: Client, mask: Bits, junk: nat -> Pollfd)
    requires a.fd != b.fd && a.fd >= 0
    ensures CallsOn(Table([a, b], []), [Del(b.fd), Del(a.fd), Add(a.fd, client, mask)], junk) ==
            Table([Item(a.fd, a.revents, client)], [b.revents])
  {
    hide *;
    ThreeCalls(Table([a, b], []), Del(b.fd), Del(a.fd), Add(a.fd, client, mask), junk);
    assert [a] + [b] == [a, b] && [] + [a] == [a] && [b.revents] + [] == [b.revents];
    DeleteLast([a], b, [], junk);
    DeleteLast([], a, [b.revents], junk);
    AddFirst(a.fd, client, mask, a.revents, [b.revents], junk);
  }
}
