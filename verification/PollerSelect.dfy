/** The poller over select(2): descriptor sets, a table of clients, and an upward scan. */
module PollerSelect {
  import opened FiniteSets
  import opened PollerMap
  import opened PollerTypes
  import opened SelectSpec

  /** What select(2) does: it fails, or leaves in each set the descriptors that are ready. */
  datatype Selection = Fails(errno: int) | Picks(readable: set<int>, writable: set<int>)

  function Above(s: set<int>, cur: int): set<int> {
    set fd | fd in s && fd > cur
  }

  lemma AboveNext(s: set<int>, cur: int, fd: int)
    requires cur < fd && forall x | cur < x < fd :: x !in s
    ensures |Above(s, cur)| == |Above(s, fd)| + if fd in s then 1 else 0
  {
    assert Above(s, fd) == Above(s, cur) - {fd};
  }

  lemma FewerAbove(a: set<int>, b: set<int>, cur: int)
    requires a <= b
    ensures |Above(a, cur)| <= |Above(b, cur)|
  {
    SubsetSize(Above(a, cur), Above(b, cur));
  }

  predicate Monitors(clients: seq<Client>, fd: int) {
    0 <= fd < |clients| && clients[fd] != NOBODY
  }

  /** top is exactly the highest monitored descriptor, or -1. */
  ghost predicate Highest(clients: seq<Client>, top: int) {
    && -1 <= top < |clients| && (top >= 0 ==> Monitors(clients, top))
    && forall fd | Monitors(clients, fd) :: fd <= top
  }

  ghost predicate NoneAbove(clients: seq<Client>, top: int) {
    forall fd | Monitors(clients, fd) :: fd <= top
  }

  ghost predicate OnlyMonitored(clients: seq<Client>, s: set<int>) {
    forall fd | fd in s :: Monitors(clients, fd)
  }

  function BitsIn(r: set<int>, w: set<int>, fd: int): Bits {
    (if fd in r then {IN} else {}) + (if fd in w then {OUT} else {})
  }

  ghost function WatchedIn(clients: seq<Client>, r: set<int>, w: set<int>): map<int, Watch> {
    map fd | 0 <= fd < |clients| && clients[fd] != NOBODY :: Watch(clients[fd], BitsIn(r, w, fd))
  }

  /** FD_CLR, then FD_SET if on. */
  function Put(s: set<int>, fd: int, on: bool): set<int> {
    if on then s + {fd} else s - {fd}
  }

  /** New interest bits for one monitored descriptor. */
  lemma Remask(clients: seq<Client>, r: set<int>, w: set<int>, fd: int, reading: bool, writing: bool)
    requires Monitors(clients, fd) && OnlyMonitored(clients, r) && OnlyMonitored(clients, w)
    ensures var r', w' := Put(r, fd, reading), Put(w, fd, writing);
            OnlyMonitored(clients, r') && OnlyMonitored(clients, w') &&
            WatchedIn(clients, r', w') ==
            WatchedIn(clients, r, w)[fd := Watch(clients[fd],
              (if reading then {IN} else {}) + (if writing then {OUT} else {}))]
  {
  }

  lemma Monitor(clients: seq<Client>, r: set<int>, w: set<int>, fd: int, c: Client, top: int)
    requires OnlyMonitored(clients, r) && OnlyMonitored(clients, w) && Highest(clients, top)
    requires 0 <= fd < |clients| && clients[fd] == NOBODY && c != NOBODY
    ensures WatchedIn(clients[fd := c], r, w) == WatchedIn(clients, r, w)[fd := Watch(c, {})] &&
            fd !in WatchedIn(clients, r, w)
    ensures Highest(clients[fd := c], if fd > top then fd else top)
  {
    var b, t := clients[fd := c], if fd > top then fd else top;
    forall x | Monitors(b, x) ensures x <= t {
      assert x == fd || Monitors(clients, x);
    }
    assert !Monitors(clients, fd);
    assert t >= 0 ==> t == fd || Monitors(clients, t);
    assert BitsIn(r, w, fd) == {};
  }

  lemma Forget(clients: seq<Client>, r: set<int>, w: set<int>, fd: int, top: int)
    requires 0 <= fd < |clients| && Highest(clients, top)
    ensures WatchedIn(clients[fd := NOBODY], r, w) == WatchedIn(clients, r, w) - {fd}
    ensures NoneAbove(clients[fd := NOBODY], top) && -1 <= top < |clients|
  {
    var b := clients[fd := NOBODY];
    forall x | Monitors(b, x) ensures x <= top {
      assert Monitors(clients, x);
    }
  }

  lemma StillMonitored(clients: seq<Client>, fd: int, c: Client, s: set<int>)
    requires OnlyMonitored(clients, s) && 0 <= fd < |clients| && (c != NOBODY || fd !in s)
    ensures OnlyMonitored(clients[fd := c], s)
  {
  }

  lemma NoBits(r: set<int>, w: set<int>, fd: int)
    requires BitsIn(r, w, fd) == {}
    ensures fd !in r && fd !in w
  {
    assert fd in r ==> IN in BitsIn(r, w, fd);
    assert fd in w ==> OUT in BitsIn(r, w, fd);
  }

  lemma TrimIsTwoBits(m: Bits)
    ensures Trim(m) == (if IN in m then {IN} else {}) + (if OUT in m then {OUT} else {})
  {
  }

  lemma FewerAboveLater(s: set<int>, cur: int, later: int)
    requires cur <= later
    ensures |Above(s, later)| <= |Above(s, cur)|
  {
    SubsetSize(Above(s, later), Above(s, cur));
  }

  class PollerSelect {
    const m_clients: array<Client>
    var m_max_fd: int  // the highest monitored descriptor, or -1
    var m_rbits: int  // at least as many as flags still to be returned
    var m_cur_fd: int
    var m_readfds: set<int>
    var m_writefds: set<int>
    var m_testrfds: set<int>
    var m_testwfds: set<int>

    ghost predicate Valid()
      reads this, m_clients
    {
      && m_clients.Length == FD_SETSIZE && -1 <= m_cur_fd && Highest(m_clients[..], m_max_fd)
      && OnlyMonitored(m_clients[..], m_readfds) && OnlyMonitored(m_clients[..], m_writefds)
      && OnlyMonitored(m_clients[..], m_testrfds) && OnlyMonitored(m_clients[..], m_testwfds)
      && (m_rbits < 0 || |Above(m_testrfds, m_cur_fd)| + |Above(m_testwfds, m_cur_fd)| <= m_rbits)
    }

    ghost function Watched(): map<int, Watch>
      reads this, m_clients
    {
      WatchedIn(m_clients[..], m_readfds, m_writefds)
    }

    ghost function Abs(): Pass
      reads this, m_clients
    {
      Pass(Watched(), m_testrfds, m_testwfds, m_cur_fd)
    }

    constructor ()
      ensures Valid() && Abs() == Pass(map[], {}, {}, -1) && m_max_fd == -1 && fresh(m_clients)
    {
      m_clients := new Client[FD_SETSIZE](_ => NOBODY);
      m_max_fd, m_rbits, m_cur_fd := -1, 0, -1;
      m_readfds, m_writefds, m_testrfds, m_testwfds := {}, {}, {}, {};
    }

    method SetMask(fd: int, eventmask: Bits) returns (err: Errno)
      requires Valid()
      modifies `m_readfds, `m_writefds
      ensures Valid() && Abs() == CallOn(old(Abs()), Call.SetMask(fd, eventmask))
      ensures err == if fd < 0 || fd >= FD_SETSIZE then EINVAL else if fd in old(Watched()) then OK else EALREADY
    {
      if fd < 0 || fd >= FD_SETSIZE {
        return EINVAL;
      }
      if m_clients[fd] == NOBODY {
        return EALREADY;
      }
      Remask(m_clients[..], m_readfds, m_writefds, fd, IN in eventmask, OUT in eventmask);
      TrimIsTwoBits(eventmask);
      hide OnlyMonitored, Highest, WatchedIn;
      m_readfds := Put(m_readfds, fd, IN in eventmask);
      m_writefds := Put(m_writefds, fd, OUT in eventmask);
      return OK;
    }

    method OrMask(fd: int, eventmask: Bits) returns (err: Errno)
      requires Valid()
      modifies `m_readfds, `m_writefds
      ensures Valid() && Abs() == CallOn(old(Abs()), Call.OrMask(fd, eventmask))
      ensures err == if fd < 0 || fd >= FD_SETSIZE then EINVAL else if fd in old(Watched()) then OK else EALREADY
    {
      if fd < 0 || fd >= FD_SETSIZE {
        return EINVAL;
      }
      if m_clients[fd] == NOBODY {
        return EALREADY;
      }
      Remask(m_clients[..], m_readfds, m_writefds, fd,
             fd in m_readfds || IN in eventmask, fd in m_writefds || OUT in eventmask);
      TrimIsTwoBits(eventmask);
      assert BitsIn(m_readfds, m_writefds, fd) + Trim(eventmask) ==
             (if fd in m_readfds || IN in eventmask then {IN} else {}) +
               (if fd in m_writefds || OUT in eventmask then {OUT} else {});
      assert Watched()[fd] == Watch(m_clients[fd], BitsIn(m_readfds, m_writefds, fd));
      hide OnlyMonitored, Highest, WatchedIn;
      assert fd in m_readfds ==> m_readfds + {fd} == m_readfds;
      assert fd !in m_readfds ==> m_readfds - {fd} == m_readfds;
      assert fd in m_writefds ==> m_writefds + {fd} == m_writefds;
      assert fd !in m_writefds ==> m_writefds - {fd} == m_writefds;
      if IN in eventmask {
        m_readfds := m_readfds + {fd};
      }
      if OUT in eventmask {
        m_writefds := m_writefds + {fd};
      }
      return OK;
    }

    method AndMask(fd: int, eventmask: Bits) returns (err: Errno)
      requires Valid()
      modifies `m_readfds, `m_writefds
      ensures Valid() && Abs() == CallOn(old(Abs()), Call.AndMask(fd, eventmask))
      ensures err == if fd < 0 || fd >= FD_SETSIZE then EINVAL else if fd in old(Watched()) then OK else EALREADY
    {
      if fd < 0 || fd >= FD_SETSIZE {
        return EINVAL;
      }
      if m_clients[fd] == NOBODY {
        return EALREADY;
      }
      Remask(m_clients[..], m_readfds, m_writefds, fd,
             fd in m_readfds && IN in eventmask, fd in m_writefds && OUT in eventmask);
      assert BitsIn(m_readfds, m_writefds, fd) * eventmask ==
             (if fd in m_readfds && IN in eventmask then {IN} else {}) +
               (if fd in m_writefds && OUT in eventmask then {OUT} else {});
      assert Watched()[fd] == Watch(m_clients[fd], BitsIn(m_readfds, m_writefds, fd));
      hide OnlyMonitored, Highest, WatchedIn;
      assert fd in m_readfds ==> m_readfds + {fd} == m_readfds;
      assert fd !in m_readfds ==> m_readfds - {fd} == m_readfds;
      assert fd in m_writefds ==> m_writefds + {fd} == m_writefds;
      assert fd !in m_writefds ==> m_writefds - {fd} == m_writefds;
      if IN !in eventmask {
        m_readfds := m_readfds - {fd};
      }
      if OUT !in eventmask {
        m_writefds := m_writefds - {fd};
      }
      return OK;
    }

    method Add(fd: int, client: Client, eventmask: Bits) returns (err: Errno)
      requires Valid() && client != NOBODY
      modifies `m_max_fd, `m_readfds, `m_writefds, m_clients
      ensures Valid() && Abs() == CallOn(old(Abs()), Call.Add(fd, client, eventmask))
      ensures err == if fd < 0 || fd >= FD_SETSIZE then EINVAL else if fd in old(Watched()) then EALREADY else OK
    {
      if fd < 0 || fd >= FD_SETSIZE {
        return EINVAL;
      }
      if m_clients[fd] != NOBODY {
        return EALREADY;
      }
      Monitor(m_clients[..], m_readfds, m_writefds, fd, client, m_max_fd);
      ghost var before := Watched();
      StillMonitored(m_clients[..], fd, client, m_readfds);
      StillMonitored(m_clients[..], fd, client, m_writefds);
      StillMonitored(m_clients[..], fd, client, m_testrfds);
      StillMonitored(m_clients[..], fd, client, m_testwfds);
      hide OnlyMonitored, Highest, WatchedIn;
      if fd > m_max_fd {
        m_max_fd := fd;
      }
      m_clients[fd] := client;
      assert m_clients[..] == old(m_clients[..])[fd := client];
      assert Watched() == before[fd := Watch(client, {})];
      var ignored := SetMask(fd, eventmask);
      return OK;
    }

    method Del(fd: int) returns (err: Errno)
      requires Valid()
      modifies `m_max_fd, `m_readfds, `m_writefds, `m_testrfds, `m_testwfds, m_clients
      ensures Valid() && Abs() == CallOn(old(Abs()), Call.Del(fd))
      ensures err == if fd < 0 || fd >= FD_SETSIZE then EINVAL else if fd in old(Watched()) then OK else EALREADY
    {
      if fd < 0 || fd >= FD_SETSIZE {
        return EINVAL;
      }
      if m_clients[fd] == NOBODY {
        return EALREADY;
      }
      var ignored := SetMask(fd, {});
      ghost var clients := m_clients[..];
      assert Watched()[fd].mask == Trim({}) == {};
      NoBits(m_readfds, m_writefds, fd);
      Forget(clients, m_readfds, m_writefds, fd, m_max_fd);
      StillMonitored(clients, fd, NOBODY, m_readfds);
      StillMonitored(clients, fd, NOBODY, m_writefds);
      StillMonitored(clients, fd, NOBODY, m_testrfds - {fd});
      StillMonitored(clients, fd, NOBODY, m_testwfds - {fd});
      FewerAbove(m_testrfds - {fd}, m_testrfds, m_cur_fd);
      FewerAbove(m_testwfds - {fd}, m_testwfds, m_cur_fd);
      hide OnlyMonitored, WatchedIn, Above, Highest, NoneAbove;
      m_testrfds := m_testrfds - {fd};
      m_testwfds := m_testwfds - {fd};
      m_clients[fd] := NOBODY;
      assert m_clients[..] == clients[fd := NOBODY];
      LowerMax();
      return OK;
    }

    method LowerMax()
      requires m_clients.Length == FD_SETSIZE && -1 <= m_max_fd < FD_SETSIZE && NoneAbove(m_clients[..], m_max_fd)
      modifies `m_max_fd
      ensures Highest(m_clients[..], m_max_fd)
    {
      while m_max_fd >= 0 && m_clients[m_max_fd] == NOBODY
        invariant -1 <= m_max_fd < FD_SETSIZE && NoneAbove(m_clients[..], m_max_fd)
        decreases m_max_fd
      {
        m_max_fd := m_max_fd - 1;
      }
    }

    method WaitForEvents(selection: Selection) returns (err: Errno)
      requires Valid() && (selection.Picks? ==> selection.readable <= m_readfds && selection.writable <= m_writefds)
      modifies `m_rbits, `m_cur_fd, `m_testrfds, `m_testwfds
      ensures Valid() && Watched() == old(Watched())
      ensures selection.Fails? ==> err == Kernel(selection.errno) && m_rbits < 0
      ensures selection.Picks? ==>
                Abs() == Pass(old(Watched()), selection.readable, selection.writable, -1) && m_rbits >= 0
      ensures selection.Picks? ==> err == if selection.readable + selection.writable == {} then EWOULDBLOCK else OK
    {
      m_testrfds := m_readfds;
      m_testwfds := m_writefds;
      if selection.Fails? {
        m_rbits := -1;
        return Kernel(selection.errno);
      }
      m_testrfds := selection.readable;
      m_testwfds := selection.writable;
      m_rbits := |selection.readable| + |selection.writable|;
      m_cur_fd := -1;
      SubsetSize(Above(m_testrfds, -1), m_testrfds);
      SubsetSize(Above(m_testwfds, -1), m_testwfds);
      return if m_rbits != 0 then OK else EWOULDBLOCK;
    }

    /** The next flagged descriptor, if m_rbits has not run out; it never does while flags are left. */
    method GetNextEvent() returns (err: Errno, e: PollEvent)
      requires Valid()
      modifies `m_rbits, `m_cur_fd
      ensures Valid() && Watched() == old(Watched())
      ensures err == OK || err == EWOULDBLOCK
      ensures err == OK ==> LegalStep(old(Abs()), e) && Abs() == old(Abs()).(cur := e.fd) && 0 <= m_rbits < old(m_rbits)
      ensures err != OK && old(m_rbits) >= 0 ==> Exhausted(old(Abs())) && Exhausted(Abs())
    {
      hide WatchedIn, Above, Highest, OnlyMonitored, Exhausted, LegalStep;
      e := PollEvent(-1, {}, NOBODY);
      if m_rbits < 1 {
        if m_rbits == 0 {
          NoneLeft();
        }
        return EWOULDBLOCK, e;
      }
      FlaggedBelowMax();
      var revents: Bits := {};
      ghost var start, p := m_cur_fd, Abs();
      while m_cur_fd < m_max_fd
        invariant start <= m_cur_fd && revents == {} && -1 <= m_cur_fd
        invariant forall x | start < x <= m_cur_fd :: x !in m_testrfds && x !in m_testwfds
        modifies `m_cur_fd
        decreases m_max_fd - m_cur_fd
      {
        m_cur_fd := m_cur_fd + 1;
        if m_cur_fd in m_testrfds {
          revents := {IN};
        }
        if m_cur_fd in m_testwfds {
          revents := revents + {OUT};
        }
        if revents != {} {
          break;
        }
      }
      if revents == {} {
        assert p.readable == m_testrfds && p.writable == m_testwfds && p.cur == start && m_max_fd <= m_cur_fd;
        NotFound(p, m_cur_fd);
        // the condition of the loop steps m_cur_fd once more as it fails
        m_cur_fd := m_cur_fd + 1;
        FewerAboveLater(m_testrfds, start, m_cur_fd);
        FewerAboveLater(m_testwfds, start, m_cur_fd);
        return EWOULDBLOCK, e;
      }
      AboveNext(m_testrfds, start, m_cur_fd);
      AboveNext(m_testwfds, start, m_cur_fd);
      WatchedAt(m_cur_fd);
      Found(p, m_cur_fd, revents);
      if IN in revents {
        m_rbits := m_rbits - 1;
      }
      if OUT in revents {
        m_rbits := m_rbits - 1;
      }
      e := PollEvent(m_cur_fd, revents, m_clients[m_cur_fd]);
      return OK, e;
    }

    lemma NoneLeft()
      requires Valid() && m_rbits == 0
      ensures Exhausted(Abs())
    {
      assert Above(m_testrfds, m_cur_fd) == {} && Above(m_testwfds, m_cur_fd) == {};
      assert forall fd | fd in m_testrfds :: fd in Above(m_testrfds, m_cur_fd) || fd <= m_cur_fd;
      assert forall fd | fd in m_testwfds :: fd in Above(m_testwfds, m_cur_fd) || fd <= m_cur_fd;
    }

    lemma FlaggedBelowMax()
      requires Valid()
      ensures forall fd | fd in m_testrfds || fd in m_testwfds :: 0 <= fd <= m_max_fd
    {
      assert forall fd | fd in m_testrfds || fd in m_testwfds :: Monitors(m_clients[..], fd);
    }

    lemma WatchedAt(fd: int)
      requires Valid() && (fd in m_testrfds || fd in m_testwfds)
      ensures 0 <= fd < FD_SETSIZE && fd in Watched() && Watched()[fd].client == m_clients[fd] != NOBODY
    {
      assert Monitors(m_clients[..], fd);
    }

    method Perform(c: Call)
      requires Valid() && (c.Add? ==> c.client != NOBODY)
      modifies `m_max_fd, `m_readfds, `m_writefds, `m_testrfds, `m_testwfds, m_clients
      ensures Valid() && Abs() == CallOn(old(Abs()), c)
    {
      var err;
      match c
      case Add(fd, client, m) => err := Add(fd, client, m);
      case Del(fd) => err := Del(fd);
      case SetMask(fd, m) => err := SetMask(fd, m);
      case OrMask(fd, m) => err := OrMask(fd, m);
      case AndMask(fd, m) => err := AndMask(fd, m);
    }

    method React(calls: seq<Call>)
      requires Valid() && forall c | c in calls :: c.Add? ==> c.client != NOBODY
      modifies `m_max_fd, `m_readfds, `m_writefds, `m_testrfds, `m_testwfds, m_clients
      ensures Valid() && Abs() == CallsOn(old(Abs()), calls)
    {
      hide WatchedIn, CallOn;
      ghost var p := Abs();
      for k := 0 to |calls|
        invariant Valid() && Abs() == CallsOn(p, calls[..k])
      {
        assert calls[..k + 1][..k] == calls[..k] && calls[k] in calls;
        Perform(calls[k]);
      }
      assert calls[..|calls|] == calls;
    }

    /** A whole pass, whatever calls the callbacks make: the events returned are a legal log, and at
        the end no flag is left above the scan. */
    method WaitAndDispatchEvents(selection: Selection, script: nat -> Reaction)
        returns (err: Errno, log: seq<PollEvent>)
      requires Valid() && (selection.Picks? ==> selection.readable <= m_readfds && selection.writable <= m_writefds)
      requires forall k: nat, c | c in script(k).calls :: c.Add? ==> c.client != NOBODY
      modifies this, m_clients
      ensures Valid()
      ensures selection.Fails? ==> err == Kernel(selection.errno) && log == [] && Watched() == old(Watched())
      ensures selection.Picks? ==>
                var p := Pass(old(Watched()), selection.readable, selection.writable, -1);
                Legal(p, script, log) && Watched() == After(p, script, log).watched && Exhausted(After(p, script, log))
    {
      err := WaitForEvents(selection);
      log := [];
      if err != OK {
        if selection.Picks? {
          PassStarts(Abs(), script);
        }
        return;
      }
      hide *;
      ghost var p := Abs();
      PassStarts(p, script);
      while m_rbits > 0
        invariant Valid() && m_rbits >= 0 && Legal(p, script, log) && Abs() == After(p, script, log)
        decreases m_rbits
      {
        var e;
        err, e := GetNextEvent();
        if err != OK {
          return OK, log;
        }
        PassExtends(p, script, log, e);
        React(CallsOf(script(|log|), e.fd));
        log := log + [e];
      }
      NoneLeft();
      return OK, log;
    }
  }

  /** The scan has come to the next flagged descriptor. */
  lemma Found(p: Pass, fd: int, revents: Bits)
    requires fd in p.watched && p.watched[fd].client != NOBODY && p.cur < fd && revents != {}
    requires forall x | p.cur < x < fd :: x !in p.readable && x !in p.writable
    requires revents == (if fd in p.readable then {IN} else {}) + (if fd in p.writable then {OUT} else {})
    ensures LegalStep(p, PollEvent(fd, revents, p.watched[fd].client))
  {
  }

  lemma NotFound(p: Pass, top: int)
    requires forall x | p.cur < x <= top :: x !in p.readable && x !in p.writable
    requires (forall x | x in p.readable :: x <= top) && forall x | x in p.writable :: x <= top
    ensures Exhausted(p) && Exhausted(p.(cur := top + 1))
  {
  }

  lemma PassStarts(p: Pass, script: nat -> Reaction)
    ensures Legal(p, script, []) && After(p, script, []) == p
  {
  }

  lemma PassExtends(p: Pass, script: nat -> Reaction, log: seq<PollEvent>, e: PollEvent)
    requires Legal(p, script, log) && LegalStep(After(p, script, log), e)
    ensures Legal(p, script, log + [e])
    ensures After(p, script, log + [e]) == CallsOn(After(p, script, log).(cur := e.fd), CallsOf(script(|log|), e.fd))
  {
    var log' := log + [e];
    assert log'[..|log|] == log;
    forall k | 0 <= k < |log'| ensures LegalStep(After(p, script, log'[..k]), log'[k]) {
      if k < |log| {
        assert log'[..k] == log[..k] && log'[k] == log[k];
      }
    }
  }
}
