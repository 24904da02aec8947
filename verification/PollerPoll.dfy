/** The poller over poll(2): a gap-free array of pollfds with a table from descriptor to position,
    proved to refine PollSpec. */
module PollerPoll {
  import opened PollerMap
  import opened PollerTypes
  import opened PollSpec

  const INITIAL_ALLOCATION := 16

  // ---------- the arrays ----------

  /** m_fd2pfdnum, m_pfds, m_clients and m_pfds_used. */
  datatype Arrays = Arrays(table: seq<int>, pfds: seq<Pollfd>, clients: seq<Client>, used: int)

  /** The table and the arrays are inverse to each other, without gaps. */
  ghost predicate Indexed(a: Arrays) {
    && 1 <= |a.pfds| == |a.clients| && 0 <= a.used <= |a.pfds|
    && (forall i | 0 <= i < a.used :: 0 <= a.pfds[i].fd < |a.table| && a.table[a.pfds[i].fd] == i)
    && (forall fd | 0 <= fd < |a.table| && a.table[fd] != -1 ::
          0 <= a.table[fd] < a.used && a.pfds[a.table[fd]].fd == fd)
  }

  ghost function WatchedIn(a: Arrays): map<int, Watch>
    requires Indexed(a)
  {
    map fd | 0 <= fd < |a.table| && a.table[fd] != -1 :: Watch(a.clients[a.table[fd]], a.pfds[a.table[fd]].events)
  }

  ghost function ItemsIn(a: Arrays): (s: seq<Item>)
    requires Indexed(a)
    ensures |s| == a.used
    ensures forall i | 0 <= i < a.used :: s[i] == Item(a.pfds[i].fd, a.pfds[i].revents, a.clients[i])
    ensures DistinctFds(s)
  {
    var s := seq(a.used, i requires 0 <= i < a.used => Item(a.pfds[i].fd, a.pfds[i].revents, a.clients[i]));
    assert forall i | 0 <= i < a.used :: a.table[s[i].fd] == i;
    s
  }

  /** The event bits left in the slots that are not in use. */
  ghost function SpareIn(a: Arrays): (s: seq<Bits>)
    requires 0 <= a.used <= |a.pfds|
  {
    seq(|a.pfds| - a.used, i requires 0 <= i < |a.pfds| - a.used => a.pfds[a.used + i].revents)
  }

  ghost function TableIn(a: Arrays): Table
    requires Indexed(a)
  {
    Table(ItemsIn(a), SpareIn(a))
  }

  /** The item of a descriptor is where the table says. */
  lemma FindInItems(a: Arrays, fd: int)
    requires Indexed(a)
    ensures Find(ItemsIn(a), fd) == if 0 <= fd < |a.table| && a.table[fd] != -1 then a.table[fd] else a.used
  {
    assert forall i | 0 <= i < a.used :: a.table[ItemsIn(a)[i].fd] == i;
    if 0 <= fd < |a.table| && a.table[fd] != -1 {
      FindIs(ItemsIn(a), a.table[fd]);
    }
  }

  function Filled(a: Arrays, fd: int, client: Client, mask: Bits): Arrays
    requires 0 <= fd < |a.table| && 0 <= a.used < |a.pfds| && a.used < |a.clients|
  {
    Arrays(a.table[fd := a.used], a.pfds[a.used := Pollfd(fd, mask, a.pfds[a.used].revents)],
           a.clients[a.used := client], a.used + 1)
  }

  lemma FilledKeepsIndex(a: Arrays, fd: int, client: Client, mask: Bits)
    requires Indexed(a) && 0 <= fd < |a.table| && a.table[fd] == -1 && a.used < |a.pfds|
    ensures var b := Filled(a, fd, client, mask);
            Indexed(b) && WatchedIn(b) == WatchedIn(a)[fd := Watch(client, mask)]
  {
  }

  lemma FilledTwice(a: Arrays, fd: int, client: Client, mask: Bits)
    requires Indexed(a) && 0 <= fd < |a.table| && a.table[fd] != -1 && a.used < |a.pfds|
    ensures var b := Filled(a, fd, client, mask);
            !Indexed(b) && exists i | 0 <= i < a.used :: b.pfds[i].fd == fd
  {
    var b, p := Filled(a, fd, client, mask), a.table[fd];
    assert b.pfds[p].fd == fd && b.table[fd] == a.used != p;
  }

  lemma FilledTable(a: Arrays, fd: int, client: Client, mask: Bits, junk: nat -> Pollfd)
    requires Indexed(a) && 0 <= fd < |a.table| && a.table[fd] == -1 && a.used < |a.pfds|
    requires Indexed(Filled(a, fd, client, mask))
    ensures TableIn(Filled(a, fd, client, mask)) == AddTo(TableIn(a), fd, client, junk)
  {
    var b := Filled(a, fd, client, mask);
    assert ItemsIn(b) == ItemsIn(a) + [Item(fd, a.pfds[a.used].revents, client)];
    assert SpareIn(a)[0] == a.pfds[a.used].revents;
    assert SpareIn(b) == SpareIn(a)[1..];
  }

  lemma GrownKeepsIndex(a: Arrays, b: Arrays)
    requires Indexed(a) && a.used == b.used && |b.pfds| == |b.clients|
    requires a.table <= b.table && a.pfds <= b.pfds && a.clients <= b.clients
    requires forall fd | |a.table| <= fd < |b.table| :: b.table[fd] == -1
    ensures Indexed(b) && WatchedIn(b) == WatchedIn(a) && ItemsIn(b) == ItemsIn(a)
  {
    assert forall i | 0 <= i < |a.table| :: b.table[i] == a.table[i];
    assert forall i | 0 <= i < a.used :: b.pfds[i] == a.pfds[i] && b.clients[i] == a.clients[i];
  }

  /** Doubling full arrays leaves a table that an addition treats the same. */
  lemma GrownTable(a: Arrays, b: Arrays, fd: int, client: Client, junk: nat -> Pollfd)
    requires Indexed(a) && Indexed(b) && a.used == b.used == |a.pfds| && ItemsIn(b) == ItemsIn(a)
    requires |b.pfds| == 2 * |a.pfds| && forall i | a.used <= i < |b.pfds| :: b.pfds[i] == junk(i)
    ensures AddTo(TableIn(b), fd, client, junk) == AddTo(TableIn(a), fd, client, junk)
  {
    assert SpareIn(a) == [];
    assert SpareIn(b)[0] == junk(a.used).revents;
    assert SpareIn(b)[1..] == SpareAfterAdd(TableIn(a), junk);
  }

  /** The last entry moves into the hole, and the arrays shrink by one. */
  function Closed(a: Arrays, fd: int, p: int): Arrays
    requires 0 <= fd < |a.table| && 0 <= p < a.used <= |a.pfds| == |a.clients| && 0 <= a.pfds[a.used - 1].fd < |a.table|
  {
    var last := a.used - 1;
    var c := a.clients[p := a.clients[last]];
    var q := a.pfds[p := a.pfds[last]];
    Arrays(a.table[q[p].fd := p][fd := -1], q[last := q[last].(fd := -1)], c[last := NOBODY], last)
  }

  lemma IndexBounds(a: Arrays)
    requires Indexed(a)
    ensures 1 <= |a.pfds| == |a.clients| && 0 <= a.used <= |a.pfds|
  {
  }

  /** What is known of a monitored descriptor's position, and of the last one. */
  lemma PositionFacts(a: Arrays, fd: int)
    requires Indexed(a) && 0 <= fd < |a.table| && a.table[fd] != -1
    ensures var p, last := a.table[fd], a.used - 1;
            0 <= p <= last && a.pfds[p].fd == fd && 0 <= a.pfds[last].fd < |a.table| &&
            a.table[a.pfds[last].fd] == last && (p == last <==> a.pfds[last].fd == fd)
  {
  }

  lemma ClosedIndexed(a: Arrays, fd: int)
    requires Indexed(a) && 0 <= fd < |a.table| && a.table[fd] != -1
    requires 0 <= a.table[fd] < a.used && 0 <= a.pfds[a.used - 1].fd < |a.table|
    ensures Indexed(Closed(a, fd, a.table[fd]))
  {
    PositionFacts(a, fd);
    var p, last := a.table[fd], a.used - 1;
    var b, moved := Closed(a, fd, p), a.pfds[last].fd;
    forall i | 0 <= i < b.used ensures 0 <= b.pfds[i].fd < |b.table| && b.table[b.pfds[i].fd] == i {
      assert a.table[a.pfds[i].fd] == i;
    }
    forall x | 0 <= x < |b.table| && b.table[x] != -1 ensures 0 <= b.table[x] < b.used && b.pfds[b.table[x]].fd == x {
      if x != moved { assert b.table[x] == a.table[x]; }
    }
  }

  lemma ClosedKeepsIndex(a: Arrays, fd: int)
    requires Indexed(a) && 0 <= fd < |a.table| && a.table[fd] != -1
    ensures 0 <= a.table[fd] < a.used && a.used >= 1 && 0 <= a.pfds[a.used - 1].fd < |a.table| &&
            a.pfds[a.table[fd]].fd == fd
    ensures var b := Closed(a, fd, a.table[fd]);
            Indexed(b) && WatchedIn(b) == WatchedIn(a) - {fd} && TableIn(b) == DelFrom(TableIn(a), a.table[fd])
  {
    PositionFacts(a, fd);
    ClosedIndexed(a, fd);
    ClosedEntries(a, fd);
    hide Indexed, WatchedIn, TableIn, Closed;
    ClosedWatched(a, fd);
    ClosedTable(a, fd);
  }

  lemma ClosedEntries(a: Arrays, fd: int)
    requires Indexed(a) && 0 <= fd < |a.table| && a.table[fd] != -1
    requires 0 <= a.table[fd] < a.used && 0 <= a.pfds[a.used - 1].fd < |a.table|
    ensures var b, moved := Closed(a, fd, a.table[fd]), a.pfds[a.used - 1].fd;
            forall x | 0 <= x < |a.table| && x != fd :: b.table[x] == if x == moved then a.table[fd] else a.table[x]
  {
    PositionFacts(a, fd);
  }

  lemma ClosedTable(a: Arrays, fd: int)
    requires Indexed(a) && 0 <= fd < |a.table| && a.table[fd] != -1
    requires 0 <= a.table[fd] < a.used && 0 <= a.pfds[a.used - 1].fd < |a.table|
    requires Indexed(Closed(a, fd, a.table[fd]))
    ensures TableIn(Closed(a, fd, a.table[fd])) == DelFrom(TableIn(a), a.table[fd])
  {
    var p, last := a.table[fd], a.used - 1;
    var b := Closed(a, fd, p);
    IndexBounds(a);
    hide Indexed;
    assert forall i | 0 <= i < last :: ItemsIn(b)[i] == DelItem(ItemsIn(a), p)[i];
    assert ItemsIn(a)[last].revents == a.pfds[last].revents;
    assert SpareIn(b) == [a.pfds[last].revents] + SpareIn(a);
  }

  lemma ClosedWatched(a: Arrays, fd: int)
    requires Indexed(a) && 0 <= fd < |a.table| && a.table[fd] != -1
    requires 0 <= a.table[fd] < a.used && 0 <= a.pfds[a.used - 1].fd < |a.table|
    requires var b, moved := Closed(a, fd, a.table[fd]), a.pfds[a.used - 1].fd;
             Indexed(b) && forall x | 0 <= x < |a.table| && x != fd ::
               b.table[x] == if x == moved then a.table[fd] else a.table[x]
    ensures WatchedIn(Closed(a, fd, a.table[fd])) == WatchedIn(a) - {fd}
  {
    PositionFacts(a, fd);
    IndexBounds(a);
    var b := Closed(a, fd, a.table[fd]);
    hide Indexed, WatchedIn;
    forall x ensures x in WatchedIn(b) <==> x in WatchedIn(a) && x != fd
      ensures x in WatchedIn(b) ==> WatchedIn(b)[x] == WatchedIn(a)[x]
    {
      WatchedEntry(a, x);
      WatchedEntry(b, x);
      if x in WatchedIn(a) {
        PositionFacts(a, x);
      }
    }
  }

  function Masked(a: Arrays, p: nat, mask: Bits): Arrays
    requires p < |a.pfds|
  {
    a.(pfds := a.pfds[p := a.pfds[p].(events := mask)])
  }

  lemma MaskedIndexed(a: Arrays, p: nat, mask: Bits)
    requires Indexed(a) && p < a.used
    ensures Indexed(Masked(a, p, mask)) && TableIn(Masked(a, p, mask)) == TableIn(a)
  {
    var b := Masked(a, p, mask);
    assert forall i | 0 <= i < |a.pfds| :: b.pfds[i].fd == a.pfds[i].fd && b.pfds[i].revents == a.pfds[i].revents;
  }

  lemma MaskKeepsIndex(a: Arrays, fd: int, mask: Bits)
    requires Indexed(a) && 0 <= fd < |a.table| && a.table[fd] != -1
    ensures 0 <= a.table[fd] < a.used <= |a.pfds|
    ensures var b := Masked(a, a.table[fd], mask);
            Indexed(b) && WatchedIn(b) == WatchedIn(a)[fd := WatchedIn(a)[fd].(mask := mask)] &&
            TableIn(b) == TableIn(a)
  {
    PositionFacts(a, fd);
    IndexBounds(a);
    var b, p := Masked(a, a.table[fd], mask), a.table[fd];
    MaskedIndexed(a, p, mask);
    hide Indexed, WatchedIn, TableIn;
    WatchedEntry(a, fd);
    forall x ensures x in WatchedIn(b) <==> x in WatchedIn(a)
      ensures x in WatchedIn(a) ==>
                WatchedIn(b)[x] == if x == fd then WatchedIn(a)[x].(mask := mask) else WatchedIn(a)[x]
    {
      WatchedEntry(a, x);
      WatchedEntry(b, x);
      if x in WatchedIn(a) {
        PositionFacts(a, x);
      }
    }
  }

  /** One entry of the map. */
  lemma WatchedEntry(a: Arrays, x: int)
    requires Indexed(a)
    ensures x in WatchedIn(a) <==> 0 <= x < |a.table| && a.table[x] != -1
    ensures x in WatchedIn(a) ==>
              var p := a.table[x];
              0 <= p < |a.pfds| == |a.clients| && WatchedIn(a)[x] == Watch(a.clients[p], a.pfds[p].events)
  {
  }

  /** used is one more than the highest descriptor with an entry. */
  ghost predicate TightBound(table: seq<int>, used: int) {
    && 0 <= used <= |table|
    && (forall fd | used <= fd < |table| :: table[fd] == -1)
    && (used > 0 ==> table[used - 1] != -1)
  }

  lemma FilledKeepsBound(table: seq<int>, used: int, fd: int, p: int)
    requires TightBound(table, used) && 0 <= fd < |table| && p != -1
    ensures TightBound(table[fd := p], if fd >= used then fd + 1 else used)
  {
  }

  /** What poll(2) does. */
  datatype PollResult = Fails(errno: int) | Flags(revents: seq<Bits>)

  function WithFlags(items: seq<Item>, revents: seq<Bits>): seq<Item>
    requires |items| == |revents|
  {
    seq(|items|, i requires 0 <= i < |items| => items[i].(revents := revents[i]))
  }

  function CountNonzero(revents: seq<Bits>): nat {
    if revents == [] then 0
    else CountNonzero(revents[..|revents| - 1]) + if revents[|revents| - 1] != {} then 1 else 0
  }

  lemma {:induction false} CountMatches(items: seq<Item>, revents: seq<Bits>)
    requires |items| == |revents| && forall i | 0 <= i < |items| :: items[i].revents == revents[i]
    ensures CountFlagged(items) == CountNonzero(revents)
  {
    if items != [] {
      CountMatches(items[..|items| - 1], revents[..|items| - 1]);
    }
  }

  lemma FlagsKeepIndex(a: Arrays, revents: seq<Bits>, pfds: seq<Pollfd>)
    requires Indexed(a) && |revents| == a.used && |pfds| == |a.pfds|
    requires forall i | 0 <= i < a.used :: pfds[i] == a.pfds[i].(revents := revents[i])
    requires forall i | a.used <= i < |pfds| :: pfds[i] == a.pfds[i]
    ensures var b := a.(pfds := pfds);
            Indexed(b) && WatchedIn(b) == WatchedIn(a) &&
            TableIn(b) == TableIn(a).(items := WithFlags(ItemsIn(a), revents))
  {
  }

  lemma ItemPosition(a: Arrays, p: int)
    requires Indexed(a) && 0 <= p < a.used
    ensures 0 <= a.pfds[p].fd < |a.table| && a.table[a.pfds[p].fd] == p
    ensures ItemsIn(a)[p] == Item(a.pfds[p].fd, a.pfds[p].revents, a.clients[p])
  {
  }

  class PollerPoll {
    var m_fd2client_used: int  // 1 + the highest monitored descriptor
    var m_fd2pfdnum: seq<int>  // position of each descriptor, or -1
    var m_pfds: seq<Pollfd>
    var m_clients: seq<Client>
    var m_pfds_used: int
    var m_rfds: int  // flagged entries left in this pass
    var m_cur_pfdnum: int  // the scan has come down to here

    function Current(): Arrays
      reads `m_fd2pfdnum, `m_pfds, `m_clients, `m_pfds_used
    {
      Arrays(m_fd2pfdnum, m_pfds, m_clients, m_pfds_used)
    }

    ghost predicate Valid()
      reads `m_fd2pfdnum, `m_pfds, `m_clients, `m_pfds_used, `m_fd2client_used
    {
      Indexed(Current()) && TightBound(m_fd2pfdnum, m_fd2client_used)
    }

    ghost function Watched(): map<int, Watch>
      requires Valid()
      reads `m_fd2pfdnum, `m_pfds, `m_clients, `m_pfds_used, `m_fd2client_used
    {
      WatchedIn(Current())
    }

    ghost function Items(): (s: seq<Item>)
      requires Valid()
      reads `m_fd2pfdnum, `m_pfds, `m_clients, `m_pfds_used, `m_fd2client_used
      ensures |s| == m_pfds_used && DistinctFds(s)
    {
      ItemsIn(Current())
    }

    ghost function Slots(): (t: Table)
      requires Valid()
      reads `m_fd2pfdnum, `m_pfds, `m_clients, `m_pfds_used, `m_fd2client_used
      ensures t.items == Items()
    {
      TableIn(Current())
    }

    /** Where a pass stands. */
    ghost function Abs(): Scan
      requires Valid()
      reads this
    {
      Scan(Slots(), m_cur_pfdnum, m_rfds)
    }

    lemma AbsIs()
      requires Valid()
      ensures Abs() == Scan(Slots(), m_cur_pfdnum, m_rfds) && Items() == Slots().items && |Items()| == m_pfds_used
    {
    }

    lemma Position(fd: int)
      requires Valid()
      ensures Find(Items(), fd) == if IsMonitored(fd) then m_fd2pfdnum[fd] else m_pfds_used
      ensures Find(Items(), fd) < m_pfds_used <==> IsMonitored(fd)
    {
      FindInItems(Current(), fd);
    }

    /** The tables start out empty; junk is what malloc left in the arrays. */
    constructor (junk: Pollfd, nobody: Client)
      ensures Valid() && Watched() == map[] && m_rfds == 0
    {
      m_fd2client_used, m_pfds_used := 0, 0;
      m_fd2pfdnum := seq(INITIAL_ALLOCATION, _ => -1);
      m_pfds := seq(INITIAL_ALLOCATION, _ => junk);
      m_clients := seq(INITIAL_ALLOCATION, _ => nobody);
      m_rfds, m_cur_pfdnum := 0, 0;
    }

    predicate IsMonitored(fd: int)
      reads `m_fd2pfdnum, `m_pfds, `m_clients, `m_pfds_used, `m_fd2client_used
      ensures Valid() ==> (IsMonitored(fd) <==> fd in Watched())
    {
      0 <= fd < |m_fd2pfdnum| && m_fd2pfdnum[fd] != -1
    }

    /** A new entry is appended; it starts with the bits that are left in its slot.  junk is what
        realloc leaves in the slots of a grown array.  A descriptor that is monitored already must not
        be added: it then stands in the array twice, and the table finds only one of them. */
    method Add(fd: int, client: Client, eventmask: Bits, junk: nat -> Pollfd)
      requires Valid() && 0 <= fd
      modifies `m_fd2pfdnum, `m_pfds, `m_clients, `m_pfds_used, `m_fd2client_used
      ensures Valid() <==> fd !in old(Watched())
      ensures Valid() ==> Watched() == ApplyCall(old(Watched()), Call.Add(fd, client, eventmask))
      ensures Valid() ==> Slots() == AddTo(old(Slots()), fd, client, junk)
      ensures m_pfds_used == old(m_pfds_used) + 1 <= |m_pfds| && m_pfds[old(m_pfds_used)].fd == fd
      ensures !Valid() ==> exists i | 0 <= i < old(m_pfds_used) :: m_pfds[i].fd == fd
    {
      hide Indexed, WatchedIn, ItemsIn, SpareIn, TightBound, AddTo;
      if fd >= |m_fd2pfdnum| {
        GrowTable(fd);
      }
      IndexBounds(Current());
      if m_pfds_used == |m_pfds| {
        GrowArrays(fd, client, junk);
      }
      WhatAddDoes(fd, client, eventmask, junk);
      m_clients := m_clients[m_pfds_used := client];
      m_pfds := m_pfds[m_pfds_used := Pollfd(fd, eventmask, m_pfds[m_pfds_used].revents)];
      m_fd2pfdnum := m_fd2pfdnum[fd := m_pfds_used];
      if fd >= m_fd2client_used {
        m_fd2client_used := fd + 1;
      }
      m_pfds_used := m_pfds_used + 1;
    }

    lemma WhatAddDoes(fd: int, client: Client, mask: Bits, junk: nat -> Pollfd)
      requires Valid() && 0 <= fd < |m_fd2pfdnum| && m_pfds_used < |m_pfds|
      ensures 0 <= m_pfds_used && m_pfds_used < |m_clients|
      ensures TightBound(m_fd2pfdnum[fd := m_pfds_used], if fd >= m_fd2client_used then fd + 1 else m_fd2client_used)
      ensures var b := Filled(Current(), fd, client, mask);
              (Indexed(b) <==> fd !in Watched()) &&
              (Indexed(b) ==>
                 WatchedIn(b) == Watched()[fd := Watch(client, mask)] &&
                 TableIn(b) == AddTo(Slots(), fd, client, junk)) &&
              (!Indexed(b) ==> exists i | 0 <= i < m_pfds_used :: b.pfds[i].fd == fd)
    {
      assert IsMonitored(fd) <==> fd in Watched();
      FilledKeepsBound(m_fd2pfdnum, m_fd2client_used, fd, m_pfds_used);
      if IsMonitored(fd) {
        FilledTwice(Current(), fd, client, mask);
      } else {
        FilledKeepsIndex(Current(), fd, client, mask);
        FilledTable(Current(), fd, client, mask, junk);
      }
    }

    method GrowTable(fd: int)
      requires Valid() && fd >= |m_fd2pfdnum|
      modifies `m_fd2pfdnum
      ensures Valid() && Watched() == old(Watched()) && Slots() == old(Slots()) && fd < |m_fd2pfdnum|
    {
      var n := |m_fd2pfdnum| * 2;
      if n < fd + 1 {
        n := fd + 1;
      }
      var grown := m_fd2pfdnum + seq(n - |m_fd2pfdnum|, _ => -1);
      GrownKeepsIndex(Current(), Current().(table := grown));
      hide Indexed, WatchedIn, ItemsIn;
      m_fd2pfdnum := grown;
    }

    method GrowArrays(ghost fd: int, ghost client: Client, junk: nat -> Pollfd)
      requires Valid() && m_pfds_used == |m_pfds|
      modifies `m_pfds, `m_clients
      ensures Valid() && Watched() == old(Watched()) && m_pfds_used < |m_pfds| == |m_clients|
      ensures AddTo(Slots(), fd, client, junk) == AddTo(old(Slots()), fd, client, junk)
    {
      hide Indexed, WatchedIn, ItemsIn, SpareIn, AddTo, TightBound;
      ghost var a := Current();
      IndexBounds(a);
      var n := |m_pfds|;
      var clients := m_clients + seq(n, _ => NOBODY);
      var pfds := m_pfds + seq(n, i requires 0 <= i => junk(n + i));
      ghost var b := a.(pfds := pfds, clients := clients);
      assert forall i | n <= i < |pfds| :: pfds[i] == junk(i);
      GrownKeepsIndex(a, b);
      GrownTable(a, b, fd, client, junk);
      m_clients := clients;
      m_pfds := pfds;
    }

    method Del(fd: int) returns (err: Errno)
      requires Valid()
      modifies `m_fd2pfdnum, `m_pfds, `m_clients, `m_pfds_used, `m_fd2client_used
      ensures Valid() && Watched() == ApplyCall(old(Watched()), Call.Del(fd))
      ensures err == OK <==> fd in old(Watched())
      ensures err != OK ==> Slots() == old(Slots()) && (err == ENOENT <==> 0 <= fd < old(m_fd2client_used))
      ensures err == OK ==> var p := Find(old(Items()), fd);
                            p < old(m_pfds_used) && Slots() == DelFrom(old(Slots()), p)
    {
      hide Indexed, WatchedIn, ItemsIn, SpareIn, DelFrom;
      Position(fd);
      if fd < 0 || fd >= m_fd2client_used {
        assert !IsMonitored(fd);
        return EINVAL;
      }
      var pfdnum := m_fd2pfdnum[fd];
      if pfdnum == -1 {
        assert !IsMonitored(fd);
        return ENOENT;
      }
      assert IsMonitored(fd);
      ghost var a := Current();
      IndexBounds(a);
      PositionFacts(a, fd);
      ClosedKeepsIndex(a, fd);
      CloseHole(fd, pfdnum);
      while m_fd2client_used > 0 && m_fd2pfdnum[m_fd2client_used - 1] == -1
        invariant Current() == Closed(a, fd, pfdnum) && 0 <= m_fd2client_used <= |m_fd2pfdnum|
        invariant forall fd | m_fd2client_used <= fd < |m_fd2pfdnum| :: m_fd2pfdnum[fd] == -1
        decreases m_fd2client_used
      {
        m_fd2client_used := m_fd2client_used - 1;
      }
      return OK;
    }

    method CloseHole(fd: int, pfdnum: int)
      requires 0 <= fd < |m_fd2pfdnum| && 0 <= pfdnum < m_pfds_used <= |m_pfds| == |m_clients|
      requires 0 <= m_pfds[m_pfds_used - 1].fd < |m_fd2pfdnum|
      requires pfdnum == m_pfds_used - 1 ==> m_pfds[pfdnum].fd == fd
      modifies `m_fd2pfdnum, `m_pfds, `m_clients, `m_pfds_used
      ensures Current() == Closed(old(Current()), fd, pfdnum)
    {
      if pfdnum != m_pfds_used - 1 {
        m_clients := m_clients[pfdnum := m_clients[m_pfds_used - 1]];
        m_pfds := m_pfds[pfdnum := m_pfds[m_pfds_used - 1]];
        m_fd2pfdnum := m_fd2pfdnum[m_pfds[pfdnum].fd := pfdnum];
      }
      m_clients := m_clients[m_pfds_used - 1 := NOBODY];
      m_pfds := m_pfds[m_pfds_used - 1 := m_pfds[m_pfds_used - 1].(fd := -1)];
      m_fd2pfdnum := m_fd2pfdnum[fd := -1];
      m_pfds_used := m_pfds_used - 1;
    }

    method SetEvents(fd: int, mask: Bits)
      requires Valid() && fd in Watched()
      modifies `m_pfds
      ensures Valid() && Watched() == old(Watched())[fd := old(Watched()[fd]).(mask := mask)] && Slots() == old(Slots())
    {
      MaskKeepsIndex(Current(), fd, mask);
      hide Indexed, WatchedIn, ItemsIn;
      var i := m_fd2pfdnum[fd];
      m_pfds := m_pfds[i := m_pfds[i].(events := mask)];
    }

    /** The three mask calls read the table without checking fd, so it must lie in the table. */
    method SetMask(fd: int, eventmask: Bits) returns (err: Errno)
      requires Valid() && 0 <= fd < |m_fd2pfdnum|
      modifies `m_pfds
      ensures Valid() && Watched() == ApplyCall(old(Watched()), Call.SetMask(fd, eventmask)) && Slots() == old(Slots())
      ensures err == if fd in old(Watched()) then OK else ENOENT
    {
      assert IsMonitored(fd) <==> fd in Watched();
      if m_fd2pfdnum[fd] == -1 {
        return ENOENT;
      }
      SetEvents(fd, eventmask);
      return OK;
    }

    /** The mask of a monitored descriptor is the one at its position. */
    lemma EventsAt(fd: int)
      requires Valid() && fd in Watched()
      ensures 0 <= fd < |m_fd2pfdnum| && 0 <= m_fd2pfdnum[fd] < |m_pfds|
      ensures m_pfds[m_fd2pfdnum[fd]].events == Watched()[fd].mask
    {
      PositionFacts(Current(), fd);
    }

    method OrMask(fd: int, eventmask: Bits)
      requires Valid() && fd in Watched()
      modifies `m_pfds
      ensures Valid() && Watched() == ApplyCall(old(Watched()), Call.OrMask(fd, eventmask)) && Slots() == old(Slots())
    {
      EventsAt(fd);
      hide Indexed, WatchedIn, ItemsIn, SpareIn, TightBound;
      SetEvents(fd, m_pfds[m_fd2pfdnum[fd]].events + eventmask);
    }

    method AndMask(fd: int, eventmask: Bits)
      requires Valid() && fd in Watched()
      modifies `m_pfds
      ensures Valid() && Watched() == ApplyCall(old(Watched()), Call.AndMask(fd, eventmask)) && Slots() == old(Slots())
    {
      EventsAt(fd);
      hide Indexed, WatchedIn, ItemsIn, SpareIn, TightBound;
      SetEvents(fd, m_pfds[m_fd2pfdnum[fd]].events * eventmask);
    }

    /** poll either fails or sets the revents of every entry and returns how many are nonzero. */
    method WaitForEvents(poll: PollResult) returns (err: Errno)
      requires Valid() && (poll.Flags? ==> |poll.revents| == m_pfds_used)
      modifies `m_pfds, `m_rfds, `m_cur_pfdnum
      ensures Valid() && Watched() == old(Watched())
      ensures poll.Fails? ==> err == Kernel(poll.errno) && Abs() == Scan(old(Slots()), -1, -1)
      ensures poll.Flags? ==> Abs() == Started(old(Slots()), poll.revents)
      ensures poll.Flags? ==> err == if CountFlagged(Items()) == 0 then EWOULDBLOCK else OK
    {
      hide Indexed, WatchedIn, ItemsIn, SpareIn, TightBound, DistinctFds;
      if poll.Fails? {
        m_rfds := -1;
        m_cur_pfdnum := -1;
        return Kernel(poll.errno);
      }
      ghost var a := Current();
      IndexBounds(a);
      var revents, was := poll.revents, m_pfds;
      var pfds := seq(m_pfds_used, i requires 0 <= i < |revents| && i < |was| => was[i].(revents := revents[i]));
      FlagsKeepIndex(a, poll.revents, pfds + m_pfds[m_pfds_used..]);
      CountMatches(WithFlags(Items(), poll.revents), poll.revents);
      hide WithFlags;
      m_pfds := pfds + m_pfds[m_pfds_used..];
      m_rfds := CountNonzero(poll.revents);
      m_cur_pfdnum := m_pfds_used;
      return if m_rfds == 0 then EWOULDBLOCK else OK;
    }

    /** Scans on downward.  Called again after it has found nothing, with events still expected, it
        would read in front of the array. */
    method GetNextEvent() returns (err: Errno, e: PollEvent)
      requires Valid()
      modifies `m_rfds, `m_cur_pfdnum
      ensures Valid() && Watched() == old(Watched()) && Slots() == old(Slots())
      ensures err == EFAULT <==> old(m_rfds) >= 1 && old(m_cur_pfdnum) < 0
      ensures err == OK <==> old(m_cur_pfdnum) >= 0 && !Finished(old(Abs()))
      ensures err == OK ==> LegalStep(old(Abs()), e) && Abs() == Scan(Slots(), NextAt(old(Abs())), old(m_rfds) - 1)
      ensures err == OK || err == EWOULDBLOCK || err == EFAULT
      ensures err == EWOULDBLOCK ==> m_rfds == old(m_rfds) && (m_rfds < 1 || m_cur_pfdnum == -1)
      ensures old(m_rfds) < 1 ==> m_cur_pfdnum == old(m_cur_pfdnum)
    {
      hide *;
      e := PollEvent(-1, {}, NOBODY);
      AbsIs();
      ghost var s, items := Abs(), Items();
      if m_rfds < 1 {
        OnlyExpected(s);
        return EWOULDBLOCK, e;
      }
      if m_cur_pfdnum > m_pfds_used {
        m_cur_pfdnum := m_pfds_used;
      }
      ghost var start := m_cur_pfdnum;
      m_cur_pfdnum := m_cur_pfdnum - 1;
      while m_cur_pfdnum > -1
        invariant m_cur_pfdnum < start <= m_pfds_used && m_rfds == old(m_rfds)
        invariant if start < 0 then m_cur_pfdnum == start - 1 else -1 <= m_cur_pfdnum
        invariant start >= 0 ==> NextFlagged(items, start) == NextFlagged(items, m_cur_pfdnum + 1)
        decreases m_cur_pfdnum
      {
        EntryAt(m_cur_pfdnum);
        NextFlaggedStep(items, m_cur_pfdnum);
        if m_pfds[m_cur_pfdnum].revents != {} {
          break;
        }
        m_cur_pfdnum := m_cur_pfdnum - 1;
      }
      ScanResult(s, start);
      if m_cur_pfdnum == -1 {
        NoneBelowZero(items);
        return EWOULDBLOCK, e;
      }
      if m_cur_pfdnum < -1 {
        return EFAULT, e;
      }
      EntryAt(m_cur_pfdnum);
      var fd := m_pfds[m_cur_pfdnum].fd;
      var j := m_fd2pfdnum[fd];
      e := PollEvent(fd, m_pfds[m_cur_pfdnum].revents, m_clients[j]);
      m_rfds := m_rfds - 1;
      AbsIs();
      return OK, e;
    }

    /** The entry at a position in use. */
    lemma EntryAt(p: int)
      requires Valid() && 0 <= p < m_pfds_used
      ensures p < |m_pfds| && 0 <= m_pfds[p].fd < |m_fd2pfdnum| && m_fd2pfdnum[m_pfds[p].fd] == p < |m_clients| &&
              p < |Items()|
      ensures Items()[p].revents == m_pfds[p].revents
      ensures EventOf(Items()[p]) == PollEvent(m_pfds[p].fd, m_pfds[p].revents, m_clients[p])
    {
      ItemPosition(Current(), p);
    }

    /** One call from a callback.  A callback adds only descriptors it has just opened, and changes
        masks only of monitored ones. */
    method Perform(c: Call, junk: nat -> Pollfd)
      requires Valid()
      modifies `m_fd2pfdnum, `m_pfds, `m_clients, `m_pfds_used, `m_fd2client_used
      ensures Valid() && Watched() == ApplyCall(old(Watched()), c) && Slots() == CallOn(old(Slots()), c, junk)
    {
      hide Indexed, WatchedIn, ItemsIn, SpareIn, TightBound, AddTo, DelFrom;
      var err;
      Position(c.fd);
      if c.Add? {
        if 0 <= c.fd && !IsMonitored(c.fd) {
          Add(c.fd, c.client, c.mask, junk);
        }
      } else if c.Del? {
        err := Del(c.fd);
      } else if IsMonitored(c.fd) {
        match c
        case SetMask(fd, m) => err := SetMask(fd, m);
        case OrMask(fd, m) => OrMask(fd, m);
        case AndMask(fd, m) => AndMask(fd, m);
      }
    }

    method React(calls: seq<Call>, junk: nat -> Pollfd)
      requires Valid()
      modifies `m_fd2pfdnum, `m_pfds, `m_clients, `m_pfds_used, `m_fd2client_used
      ensures Valid() && Watched() == ApplyCalls(old(Watched()), calls) && Slots() == CallsOn(old(Slots()), calls, junk)
    {
      hide Indexed, WatchedIn, ItemsIn, TightBound, ApplyCall, CallOn;
      ghost var w, t := Watched(), Slots();
      NoCalls(t, calls, junk);
      for k := 0 to |calls|
        invariant Valid() && Watched() == ApplyCalls(w, calls[..k]) && Slots() == CallsOn(t, calls[..k], junk)
      {
        OneMoreCall(w, calls, k);
        CallsOne(t, calls, junk, k);
        Perform(calls[k], junk);
      }
    }

    /** A whole pass, whatever the callbacks do: a legal and finished run over what poll flagged. */
    method WaitAndDispatchEvents(poll: PollResult, script: nat -> Reaction, junk: nat -> Pollfd)
        returns (err: Errno, log: seq<PollEvent>)
      requires Valid() && (poll.Flags? ==> |poll.revents| == m_pfds_used)
      modifies this
      ensures Valid() && Watched() == AfterReactions(old(Watched()), script, log)
      ensures poll.Fails? ==> err == Kernel(poll.errno) && log == []
      ensures poll.Flags? ==> var s := Started(old(Slots()), poll.revents);
                              Legal(s, script, junk, log) && Finished(After(s, script, junk, log)) &&
                              Slots() == After(s, script, junk, log).table &&
                              m_rfds == After(s, script, junk, log).rfds &&
                              err == (if CountFlagged(s.table.items) == 0 then EWOULDBLOCK else OK)
    {
      hide *;
      err := WaitForEvents(poll);
      log := [];
      NoReactions(Watched(), script);
      LegalNothing(Abs(), script, junk);
      AbsIs();
      if err != OK {
        if poll.Flags? {
          NoneExpected(old(Slots()), poll.revents);
        }
        return;
      }
      ghost var w, s := Watched(), Abs();
      ScanFromTop(old(Slots()), poll.revents);
      while m_rfds > 0
        invariant Valid() && Watched() == AfterReactions(w, script, log)
        invariant Legal(s, script, junk, log) && Abs() == After(s, script, junk, log) && 0 <= m_cur_pfdnum
        decreases m_rfds
      {
        ghost var t := Abs();
        AbsIs();
        var e;
        err, e := GetNextEvent();
        AbsIs();
        if err != OK {
          return OK, log;
        }
        NextIsInRange(t);
        var calls := CallsOf(script(|log|), e.fd);
        OneMoreReaction(w, script, log, e);
        LegalAppend(s, script, junk, log, e);
        log := log + [e];
        React(calls, junk);
        AbsIs();
        AfterEvent(t, calls, junk);
      }
      AbsIs();
      OnlyExpected(Abs());
      return OK, log;
    }
  }

  /** waitForEvents after poll has flagged the entries. */
  function Started(t: Table, revents: seq<Bits>): Scan
    requires |revents| == |t.items|
  {
    var items := WithFlags(t.items, revents);
    Scan(t.(items := items), |items|, CountFlagged(items))
  }

  lemma LegalNothing(s: Scan, script: nat -> Reaction, junk: nat -> Pollfd)
    ensures Legal(s, script, junk, []) && After(s, script, junk, []) == s
  {
  }

  lemma NextFlaggedStep(items: seq<Item>, k: nat)
    requires k < |items|
    ensures NextFlagged(items, k + 1) == if items[k].revents != {} then k else NextFlagged(items, k)
  {
  }

  lemma NoneBelowZero(items: seq<Item>)
    ensures NextFlagged(items, 0) == -1
  {
  }

  /** What the scan from start decides. */
  lemma ScanResult(s: Scan, start: int)
    requires s.rfds >= 1 && start == if s.cur > |s.table.items| then |s.table.items| else s.cur
    ensures NextAt(s) == NextFlagged(s.table.items, start) && (Finished(s) <==> NextAt(s) < 0)
    ensures NextAt(s) >= 0 ==> LegalStep(s, EventOf(s.table.items[NextAt(s)]))
  {
  }

  lemma NoneExpected(t: Table, revents: seq<Bits>)
    requires |revents| == |t.items|
    ensures CountFlagged(Started(t, revents).table.items) == 0 ==> Finished(Started(t, revents))
  {
  }

  lemma ScanFromTop(t: Table, revents: seq<Bits>)
    requires |revents| == |t.items|
    ensures Started(t, revents).cur == |t.items| && Started(t, revents).table.items == WithFlags(t.items, revents)
  {
  }

  lemma NextIsInRange(s: Scan)
    requires !Finished(s)
    ensures 0 <= NextAt(s) < |s.table.items|
  {
  }

  lemma AfterEvent(s: Scan, calls: seq<Call>, junk: nat -> Pollfd)
    ensures Next(s, calls, junk) == Scan(CallsOn(s.table, calls, junk), NextAt(s), s.rfds - 1)
  {
  }

  lemma OnlyExpected(s: Scan)
    ensures s.rfds < 1 ==> Finished(s)
  {
  }

  /** What poll counted is what there is to come, so the theorems about passes apply. */
  lemma {:induction false} StartedExpectsAll(t: Table, revents: seq<Bits>)
    requires |revents| == |t.items| && DistinctFds(t.items)
    ensures var s := Started(t, revents);
            DistinctFds(s.table.items) && s.cur == |s.table.items| && |Pending(s.table, s.cur)| == s.rfds
  {
    var s := Started(t, revents);
    CountIsPending(s.table, s.cur);
    assert s.table.items[..s.cur] == s.table.items;
  }

  /** Over a whole pass of the poller: when no callback makes a spoiling call, every flagged entry is
      returned exactly once unless it is deleted first, and nothing else is. */
  lemma {:induction false} CarefulPass(t: Table, revents: seq<Bits>, script: nat -> Reaction, junk: nat -> Pollfd,
      log: seq<PollEvent>)
    requires |revents| == |t.items| && DistinctFds(t.items)
    requires var s := Started(t, revents);
             Legal(s, script, junk, log) && Careful(s, script, junk, log) && Finished(After(s, script, junk, log))
    ensures forall k | 0 <= k < |log| ::
              exists i | 0 <= i < |t.items| ::
                revents[i] != {} && log[k] == PollEvent(t.items[i].fd, revents[i], t.items[i].client)
    ensures forall j, k | 0 <= j < k < |log| ::
              log[j].fd != log[k].fd && Del(log[k].fd) !in CallsOf(script(j), log[j].fd)
    ensures forall i | 0 <= i < |t.items| && revents[i] != {} :: Gone(script, log, t.items[i].fd, |log|)
  {
    var s := Started(t, revents);
    StartedExpectsAll(t, revents);
    FlaggedOnceOrDeleted(s, script, junk, log);
    hide Legal, Careful, Finished, After, CountFlagged, Gone, CallsOf;
    forall k | 0 <= k < |log|
      ensures exists i | 0 <= i < |t.items| ::
                revents[i] != {} && log[k] == PollEvent(t.items[i].fd, revents[i], t.items[i].client)
    {
      var x :| x in Pending(s.table, s.cur) && log[k] == EventOf(x);
      var i := PendingAt(s.table, s.cur, x);
    }
    forall i | 0 <= i < |t.items| && revents[i] != {} ensures Gone(script, log, t.items[i].fd, |log|) {
      PendingHas(s.table, s.cur, i);
    }
  }
}
