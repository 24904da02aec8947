/** The platoon of simulated users: who is in which stage, ramping up to the wanted number of users,
    and reaping those that have stopped. */
module Platoon {
  import PollerTypes
  import opened PlatoonSpec
  import opened Population

  const MAXUSERS := 0x1_0000

  datatype Errno = OK | EALREADY

  class Robouser {
    var m_user: int  // the slot this user was started in
    var m_state: int
    var m_bytesFetched: int

    constructor ()
      ensures m_state == UNINIT && m_bytesFetched == 0
    {
      m_state := UNINIT;
      m_user, m_bytesFetched := 0, 0;
    }
  }

  class Platoon {
    const m_users: array<Robouser?>
    const m_nInState: array<int>
    const m_bytesPerRead: int
    var m_deadlist: seq<Robouser>
    var m_nuserTarget: int
    var m_nconnectingTarget: int
    var m_lastConnectingState: int

    /** The slots are consistent: every user knows its slot and has a proper stage. */
    ghost predicate Shape()
      reads m_users, m_users[..]
    {
      && m_users.Length == MAXUSERS && m_nInState.Length == NUMSTATES
      && forall i | 0 <= i < MAXUSERS && m_users[i] != null ::
           m_users[i].m_user == i && CONNECT <= m_users[i].m_state <= STOPPED
    }

    /** The stage of every slot. */
    ghost function Slots(): (s: seq<int>)
      requires Shape()
      reads m_users, m_users[..]
      ensures |s| == MAXUSERS
      ensures forall i | 0 <= i < MAXUSERS :: s[i] == if m_users[i] == null then VACANT else m_users[i].m_state
    {
      seq(MAXUSERS, i requires 0 <= i < MAXUSERS && m_users.Length == MAXUSERS reads m_users, m_users[..] =>
        if m_users[i] == null then VACANT else m_users[i].m_state)
    }

    /** What every user has read since its last get. */
    ghost function Fetched(): (s: seq<int>)
      requires m_users.Length == MAXUSERS
      reads m_users, m_users[..]
      ensures |s| == MAXUSERS
      ensures forall i | 0 <= i < MAXUSERS :: s[i] == if m_users[i] == null then 0 else m_users[i].m_bytesFetched
    {
      seq(MAXUSERS, i requires 0 <= i < MAXUSERS && m_users.Length == MAXUSERS reads m_users, m_users[..] =>
        if m_users[i] == null then 0 else m_users[i].m_bytesFetched)
    }

    /** Every corpse is stopped and in its slot, or, while they are being reaped, out of it. */
    ghost predicate Corpses(reaping: bool)
      reads `m_deadlist, m_users, m_deadlist
    {
      m_users.Length == MAXUSERS &&
      forall r | r in m_deadlist ::
        r.m_state == STOPPED && 0 <= r.m_user < MAXUSERS &&
        (m_users[r.m_user] == r || (reaping && m_users[r.m_user] == null))
    }

    /** Every stopped user in a slot waits to be reaped. */
    ghost predicate Listed()
      reads `m_deadlist, m_users, m_users[..]
    {
      m_users.Length == MAXUSERS &&
      forall i | 0 <= i < MAXUSERS && m_users[i] != null && m_users[i].m_state == STOPPED :: m_users[i] in m_deadlist
    }

    ghost predicate Counted()
      reads m_users, m_users[..], m_nInState
    {
      Shape() && Tallied(m_nInState[..], Slots())
    }

    ghost predicate Valid()
      reads `m_deadlist, m_users, m_users[..], m_nInState, m_deadlist
    {
      Counted() && Corpses(false) && Listed()
    }

    constructor (bytesPerRead: int)
      ensures Valid() && m_bytesPerRead == bytesPerRead && Slots() == seq(MAXUSERS, _ => VACANT)
      ensures m_nInState[STOPPED] == 0 && m_nuserTarget == 0 && m_nconnectingTarget == 1
      ensures m_lastConnectingState == CONNECTING
      ensures fresh(m_users) && fresh(m_nInState)
    {
      m_bytesPerRead := bytesPerRead;
      m_users := new Robouser?[MAXUSERS](_ => null);
      m_nInState := new int[NUMSTATES](_ => 0);
      m_deadlist := [];
      m_nuserTarget, m_nconnectingTarget, m_lastConnectingState := 0, 1, CONNECTING;
      new;
      AllVacant(Slots());
    }

    method SumInState(first: int, last: int) returns (num: int)
      requires m_nInState.Length == NUMSTATES && UNINIT <= first <= NUMSTATES && last < NUMSTATES
      ensures num == Sum(m_nInState[..], first, last)
    {
      num := 0;
      var i := first;
      while i <= last
        invariant first <= i && (i <= last + 1 || i == first) && num == Sum(m_nInState[..], first, i - 1)
      {
        num := num + m_nInState[i];
        i := i + 1;
      }
    }

    method CountStateChange(oldstate: int, newstate: int)
      requires m_nInState.Length == NUMSTATES && UNINIT <= oldstate < NUMSTATES && UNINIT < newstate < NUMSTATES
      modifies m_nInState
      ensures m_nInState[..] == Recount(old(m_nInState[..]), oldstate, newstate)
    {
      if oldstate != UNINIT {
        m_nInState[oldstate] := m_nInState[oldstate] - 1;
      }
      m_nInState[newstate] := m_nInState[newstate] + 1;
    }

    /** gotoState, for a user that is in its slot. */
    method GotoState(r: Robouser, newstate: int)
      requires Counted() && 0 <= r.m_user < MAXUSERS && m_users[r.m_user] == r && CONNECT <= newstate <= STOPPED
      requires r.m_state == STOPPED ==> newstate == STOPPED
      modifies m_nInState, r`m_state
      ensures Counted() && Slots() == old(Slots())[r.m_user := newstate] && r.m_state == newstate
      ensures m_nInState[STOPPED] ==
              old(m_nInState[STOPPED]) + if newstate == STOPPED && old(r.m_state) != STOPPED then 1 else 0
      ensures newstate == STOPPED ==> m_nInState[STOPPED] > 0
    {
      RecountStaysTallied(m_nInState[..], Slots(), r.m_user, r.m_state, newstate);
      hide Tallied, Recount, Slots;
      CountStateChange(r.m_state, newstate);
      r.m_state := newstate;
      assert Slots() == old(Slots())[r.m_user := newstate];
    }

    /** gotoState to a live stage. */
    method Move(r: Robouser, newstate: int)
      requires Valid() && 0 <= r.m_user < MAXUSERS && m_users[r.m_user] == r && CONNECT <= newstate < STOPPED
      requires r.m_state != STOPPED
      modifies m_nInState, r`m_state
      ensures Valid() && Slots() == old(Slots())[r.m_user := newstate] && r.m_state == newstate
      ensures m_nInState[STOPPED] == old(m_nInState[STOPPED])
    {
      hide Tallied, Slots;
      GotoState(r, newstate);
    }

    /** stop: the user is counted as stopped and waits to be reaped; it must not wait already. */
    method Stop(r: Robouser)
      requires Valid() && 0 <= r.m_user < MAXUSERS && m_users[r.m_user] == r
      modifies m_nInState, r`m_state, `m_deadlist
      ensures Valid() && Slots() == old(Slots())[r.m_user := STOPPED] && r.m_state == STOPPED
      ensures m_nInState[STOPPED] == old(m_nInState[STOPPED]) + if old(r.m_state) != STOPPED then 1 else 0
      ensures m_nInState[STOPPED] > 0 && m_deadlist == old(m_deadlist) + [r]
      ensures PollerTypes.Distinct(m_deadlist) <==> PollerTypes.Distinct(old(m_deadlist)) && old(r.m_state) != STOPPED
    {
      hide Tallied, Slots;
      assert r in m_deadlist <==> r.m_state == STOPPED;
      OneMore(m_deadlist, r);
      GotoState(r, STOPPED);
      m_deadlist := m_deadlist + [r];
      assert r == m_deadlist[|m_deadlist| - 1];
    }

    /** A command of r is done, or its first event has come. */
    method FtpCmdDone(r: Robouser, xerr: int, status: int, res: Results)
      requires Valid() && 0 <= r.m_user < MAXUSERS && m_users[r.m_user] == r
      modifies m_nInState, r`m_state, r`m_bytesFetched, `m_deadlist
      ensures Valid() && Slots() == old(Slots())[r.m_user := After(old(r.m_state), xerr, status, res)]
      ensures m_nInState[STOPPED] ==
              old(m_nInState[STOPPED]) + if r.m_state == STOPPED && old(r.m_state) != STOPPED then 1 else 0
      ensures r.m_state == STOPPED && old(r.m_state) != STOPPED ==> m_nInState[STOPPED] > 0
      ensures m_deadlist == old(m_deadlist) || m_deadlist == old(m_deadlist) + [r]
      ensures xerr != 0 ==> m_deadlist == old(m_deadlist) + [r]
      ensures r.m_bytesFetched == if r.m_state == GETTING then 0 else old(r.m_bytesFetched)
      ensures PollerTypes.Distinct(m_deadlist) <==>
              PollerTypes.Distinct(old(m_deadlist)) && !(old(r.m_state) == STOPPED && xerr != 0)
    {
      hide Tallied, Corpses, Slots, PollerTypes.Distinct;
      ghost var slots, stage := Slots(), r.m_state;
      assert slots[r.m_user := stage] == slots;
      if xerr != 0 {
        Stop(r);
        return;
      }
      while true
        invariant Valid() && 0 <= r.m_user < MAXUSERS && m_users[r.m_user] == r
        invariant Slots() == slots[r.m_user := r.m_state] && r.m_bytesFetched == old(r.m_bytesFetched)
        invariant After(r.m_state, xerr, status, res) == After(stage, xerr, status, res)
        invariant m_deadlist == old(m_deadlist) && (r.m_state == STOPPED <==> stage == STOPPED)
        invariant m_nInState[STOPPED] == old(m_nInState[STOPPED])
        decreases Moves(r.m_state)
      {
        if r.m_state == CONNECT {
          if res.connect != 0 {
            Stop(r);
            return;
          }
          if res.login != 0 {
            Stop(r);
            return;
          }
          Move(r, CONNECTING);
          return;
        } else if r.m_state == CONNECTING {
          if !Ok(status) {
            Stop(r);
            return;
          }
          Move(r, START_TYPE);
        } else if r.m_state == START_TYPE {
          if res.type_ != 0 {
            Stop(r);
            return;
          }
          Move(r, FINISH_TYPE);
          return;
        } else if r.m_state == FINISH_TYPE {
          if !Ok(status) {
            Stop(r);
            return;
          }
          Move(r, GET);
        } else if r.m_state == GET {
          if res.get != 0 {
            Stop(r);
            return;
          }
          label beforeReset:
          r.m_bytesFetched := 0;
          BytesDoNotCount@beforeReset();
          Move(r, GETTING);
          return;
        } else if r.m_state == GETTING {
          if !Ok(status) {
            Stop(r);
            return;
          }
          if res.tooSlow {
            Stop(r);
            return;
          }
          Move(r, GET);
        } else {
          return;
        }
      }
    }

    /** A read has been made on the data connection of r: of nread bytes, of none at the end, or a
        failure if nread is negative.  slow is what the comparison of rates says, once more than ten
        reads' worth has come in.  again says whether a user is deleted a second time. */
    method HandleDataIo(r: Robouser, nread: int, slow: bool) returns (result: int, ghost again: bool)
      requires Valid() && 0 <= r.m_user < MAXUSERS && m_users[r.m_user] == r
      modifies m_users, m_nInState, r`m_state, r`m_bytesFetched, `m_deadlist
      ensures Valid() && r.m_user == old(r.m_user)
      ensures nread <= 0 ==>
                result == nread && !again && Slots() == old(Slots()) && m_deadlist == old(m_deadlist) &&
                m_users[r.m_user] == r
      ensures nread > 0 && slow && old(r.m_bytesFetched) + nread > 10 * m_bytesPerRead ==>
                result == 0 && !again && Slots() == old(Slots())[r.m_user := STOPPED] && m_users[r.m_user] == r &&
                m_deadlist == old(m_deadlist) + [r] && m_nInState[STOPPED] > 0 &&
                (PollerTypes.Distinct(m_deadlist) <==>
                   PollerTypes.Distinct(old(m_deadlist)) && old(r.m_state) != STOPPED)
      ensures nread > 0 && !(slow && old(r.m_bytesFetched) + nread > 10 * m_bytesPerRead) ==>
                result == nread && m_deadlist == [] && (again <==> !PollerTypes.Distinct(old(m_deadlist))) &&
                (m_users[r.m_user] == null <==> old(r.m_state) == STOPPED) &&
                forall i | 0 <= i < MAXUSERS ::
                  Slots()[i] == if old(Slots())[i] == STOPPED then VACANT else old(Slots())[i]
      ensures r.m_bytesFetched == old(r.m_bytesFetched) + if nread > 0 then nread else 0
      ensures var early := nread > 0 && slow && old(r.m_bytesFetched) + nread > 10 * m_bytesPerRead;
              m_nInState[STOPPED] == old(m_nInState[STOPPED]) + if early && old(r.m_state) != STOPPED then 1 else 0
      ensures forall i | 0 <= i < MAXUSERS && m_users[i] != null :: m_users[i] == old(m_users[i])
    {
      hide Tallied, Corpses, Slots, PollerTypes.Distinct;
      again := false;
      if nread <= 0 {
        return nread, again;
      }
      r.m_bytesFetched := r.m_bytesFetched + nread;
      BytesDoNotCount();
      if r.m_bytesFetched > 10 * m_bytesPerRead {
        if slow {
          Stop(r);
          return 0, again;
        }
      }
      again := Reap();
      result := nread;
    }

    /** In one pass the control connection of r fails in the middle of a transfer, and data arrives:
        if it shows that the transfer is too slow, r is deleted twice when it is reaped, and if not,
        r is deleted while it is still reading. */
    method HangupThenRead(r: Robouser, xerr: int, status: int, res: Results, nread: int, slow: bool)
        returns (ghost early: bool, ghost again: bool)
      requires Valid() && 0 <= r.m_user < MAXUSERS && m_users[r.m_user] == r && r.m_state == GETTING
      requires PollerTypes.Distinct(m_deadlist) && xerr != 0 && nread > 0
      modifies m_users, m_nInState, r`m_state, r`m_bytesFetched, `m_deadlist
      ensures Valid() && early == (slow && old(r.m_bytesFetched) + nread > 10 * m_bytesPerRead)
      ensures early ==> again && m_deadlist == []
      ensures !early ==> !again && m_users[r.m_user] == null
    {
      hide Tallied, Corpses, Slots, PollerTypes.Distinct, Shape;
      FtpCmdDone(r, xerr, status, res);
      early := slow && r.m_bytesFetched + nread > 10 * m_bytesPerRead;
      var result;
      result, again := HandleDataIo(r, nread, slow);
      if result == 0 {
        again := Reap();
      }
    }

    /** What users have fetched has no part in the accounts. */
    twostate lemma BytesDoNotCount()
      requires old(Valid()) && unchanged(m_users) && unchanged(m_nInState) && m_deadlist == old(m_deadlist)
      requires forall r: Robouser | old(allocated(r)) :: r.m_user == old(r.m_user) && r.m_state == old(r.m_state)
      ensures Valid() && Slots() == old(Slots())
    {
      hide Tallied, Slots;
      assert Shape();
      assert forall i | 0 <= i < MAXUSERS :: Slots()[i] == old(Slots())[i];
      assert Slots() == old(Slots());
      assert m_nInState[..] == old(m_nInState[..]);
    }

    /** Starts one more user in a free slot, if there is one. */
    method StartUser() returns (err: Errno, ghost slot: int)
      requires Valid()
      modifies m_users, m_nInState
      ensures Valid() && m_nInState[STOPPED] == old(m_nInState[STOPPED])
      ensures err == OK <==> VACANT in old(Slots())
      ensures err == OK ==> 0 <= slot < MAXUSERS && old(Slots())[slot] == VACANT &&
                            Slots() == old(Slots())[slot := CONNECT]
      ensures err != OK ==> Slots() == old(Slots())
      ensures forall i | 0 <= i < MAXUSERS && old(m_users[i]) != null :: m_users[i] == old(m_users[i])
      ensures forall i | 0 <= i < MAXUSERS && m_users[i] != old(m_users[i]) ::
                fresh(m_users[i]) && old(m_users[i]) == null && m_users[i].m_bytesFetched == 0
    {
      ghost var slots := Slots();
      var i := SumInState(CONNECT, GETTING);
      SumCountsUsers(m_nInState[..], slots, CONNECT, GETTING);
      CountRangeBound(slots, CONNECT, GETTING);
      hide Tallied, Count, CountRange, Sum, Slots;
      var n := 0;
      ghost var first := i;
      while n < MAXUSERS
        invariant 0 <= n <= MAXUSERS && 0 <= i <= MAXUSERS && 0 <= first <= MAXUSERS
        invariant i == first + n || i == first + n - MAXUSERS
        invariant forall k | 0 <= k < MAXUSERS && (first <= k < first + n || k < first + n - MAXUSERS) ::
                    m_users[k] != null
      {
        if i == MAXUSERS {
          i := 0;
        }
        if m_users[i] == null {
          break;
        }
        n := n + 1;
        i := i + 1;
      }
      if n == MAXUSERS {
        assert forall k | 0 <= k < MAXUSERS :: slots[k] != VACANT;
        return EALREADY, -1;
      }
      assert slots[i] == VACANT;
      Launch(i);
      return OK, i;
    }

    /** new robouser_t and start(): the user appears in its slot in stage CONNECT. */
    method Launch(i: int)
      requires Valid() && 0 <= i < MAXUSERS && m_users[i] == null
      modifies m_users, m_nInState
      ensures Valid() && m_nInState[STOPPED] == old(m_nInState[STOPPED]) && Slots() == old(Slots())[i := CONNECT]
      ensures fresh(m_users[i]) && m_users[i].m_bytesFetched == 0
      ensures forall k | 0 <= k < MAXUSERS && k != i :: m_users[k] == old(m_users[k])
    {
      hide Tallied, Recount, Slots, Shape, Corpses, Listed;
      CountedFacts();
      RecountStaysTallied(m_nInState[..], Slots(), i, UNINIT, CONNECT);
      var r := new Robouser();
      m_users[i] := r;
      r.m_user := i;
      CountStateChange(UNINIT, CONNECT);
      r.m_state := CONNECT;
      Seated(i, r);
      Seats(i, r);
    }

    lemma CountedFacts()
      requires Valid()
      ensures m_users.Length == MAXUSERS && m_nInState.Length == NUMSTATES && Shape() &&
              Tallied(m_nInState[..], Slots())
      ensures forall i | 0 <= i < MAXUSERS && m_users[i] == null :: Slots()[i] == VACANT
    {
    }

    /** A new user in an empty slot leaves every other user and every corpse where it was. */
    twostate lemma Seated(i: int, new r: Robouser)
      requires old(Valid()) && 0 <= i < MAXUSERS && old(m_users[i]) == null && m_deadlist == old(m_deadlist)
      requires m_users[i] == r && r.m_user == i && r.m_state == CONNECT
      requires forall k | 0 <= k < MAXUSERS && k != i ::
                 m_users[k] == old(m_users[k]) && (m_users[k] != null ==>
                 m_users[k].m_user == old(m_users[k].m_user) && m_users[k].m_state == old(m_users[k].m_state))
      requires forall d | d in m_deadlist :: d.m_user == old(d.m_user) && d.m_state == old(d.m_state)
      ensures Shape() && Corpses(false) && Listed()
    {
      hide Tallied, Slots;
    }

    twostate lemma Seats(i: int, new r: Robouser)
      requires old(Shape()) && Shape() && 0 <= i < MAXUSERS && m_users[i] == r && r.m_state == CONNECT
      requires forall k | 0 <= k < MAXUSERS && k != i ::
                 m_users[k] == old(m_users[k]) && (m_users[k] != null ==> m_users[k].m_state == old(m_users[k].m_state))
      ensures Slots() == old(Slots())[i := CONNECT]
    {
      hide Shape, Slots;
    }

    /** Takes every stopped user that is waiting out of its slot and deletes it.  again says whether
        a user is deleted that was deleted before. */
    method Reap() returns (ghost again: bool)
      requires Valid()
      modifies m_users, `m_deadlist
      ensures Valid() && m_deadlist == []
      ensures forall i | 0 <= i < MAXUSERS ::
                Slots()[i] == if old(Slots())[i] == STOPPED then VACANT else old(Slots())[i]
      ensures again <==> !PollerTypes.Distinct(old(m_deadlist))
      ensures forall i | 0 <= i < MAXUSERS && m_users[i] != null :: m_users[i] == old(m_users[i])
    {
      ghost var was, slots, deleted: set<Robouser> := m_deadlist, Slots(), {};
      hide Tallied, Slots, Shape, Corpses;
      again := false;
      while m_deadlist != []
        invariant Counted() && Corpses(true) && Listed() && |m_deadlist| <= |was|
        invariant var p := |was| - |m_deadlist|;
                  m_deadlist == was[p..] && (forall r :: r in deleted <==> r in was[..p]) &&
                  (again <==> !PollerTypes.Distinct(was[..p]))
        invariant forall i | 0 <= i < MAXUSERS && m_users[i] != null :: m_users[i] == old(m_users[i])
        invariant forall i | 0 <= i < MAXUSERS ::
                    Slots()[i] == slots[i] || (Slots()[i] == VACANT && slots[i] == STOPPED)
        decreases |m_deadlist|
      {
        ghost var p := |was| - |m_deadlist|;
        ghost var r := ReapFirst();
        OneMore(was[..p], r);
        assert was[..p + 1] == was[..p] + [r];
        again := again || r in deleted;
        deleted := deleted + {r};
      }
      assert was[..|was|] == was;
      NothingListed();
    }

    method ReapFirst() returns (ghost r: Robouser)
      requires Counted() && Corpses(true) && Listed() && m_deadlist != []
      modifies m_users, `m_deadlist
      ensures Counted() && Corpses(true) && Listed() && r == old(m_deadlist)[0] && m_deadlist == old(m_deadlist)[1..]
      ensures forall i | 0 <= i < MAXUSERS && m_users[i] != null :: m_users[i] == old(m_users[i])
      ensures forall i | 0 <= i < MAXUSERS ::
                Slots()[i] == old(Slots())[i] || (Slots()[i] == VACANT && old(Slots())[i] == STOPPED)
    {
      hide Tallied, Slots;
      ghost var slots := Slots();
      var front := m_deadlist[0];
      r := front;
      assert front in m_deadlist;
      assert slots[front.m_user] == VACANT || slots[front.m_user] == STOPPED;
      VacateStaysTallied(m_nInState[..], slots, front.m_user);
      m_deadlist := m_deadlist[1..];
      m_users[front.m_user] := null;
      assert Slots() == slots[front.m_user := VACANT];
    }

    lemma NothingListed()
      requires Shape() && Listed() && m_deadlist == []
      ensures Corpses(false) && forall i | 0 <= i < MAXUSERS :: Slots()[i] != STOPPED
    {
    }

    /** How many users are connecting, alive, and stopped so far. */
    method GetStatus() returns (nconnecting: int, nalive: int, ndead: int)
      requires Valid() && UNINIT < m_lastConnectingState <= GETTING
      modifies m_users, `m_deadlist
      ensures Valid() && m_deadlist == []
      ensures nconnecting == CountRange(Slots(), CONNECT, m_lastConnectingState)
      ensures nalive == CountRange(Slots(), CONNECT, GETTING) == old(CountRange(Slots(), CONNECT, GETTING))
      ensures ndead == m_nInState[STOPPED]
      ensures forall i | 0 <= i < MAXUSERS && m_users[i] != null :: m_users[i] == old(m_users[i])
      ensures forall i | 0 <= i < MAXUSERS ::
                Slots()[i] == if old(Slots())[i] == STOPPED then VACANT else old(Slots())[i]
    {
      ghost var slots := Slots();
      ghost var again := Reap();
      nconnecting := SumInState(CONNECT, m_lastConnectingState);
      nalive := SumInState(CONNECT, GETTING);
      ndead := SumInState(STOPPED, STOPPED);
      SumCountsUsers(m_nInState[..], Slots(), CONNECT, m_lastConnectingState);
      SumCountsUsers(m_nInState[..], Slots(), CONNECT, GETTING);
      SameLive(slots, Slots());
    }

    /** Ramps up: starts users until enough are alive or enough are connecting, and never again
        once a user has stopped. */
    method SkedCallback()
      requires Valid() && m_lastConnectingState <= GETTING
      requires UNINIT < m_lastConnectingState
      modifies m_users, m_nInState
      ensures Valid() && m_nInState[STOPPED] == old(m_nInState[STOPPED])
      ensures old(m_nInState[STOPPED]) > 0 ==> Slots() == old(Slots())
      ensures forall i | 0 <= i < MAXUSERS ::
                Slots()[i] == old(Slots())[i] || (old(Slots())[i] == VACANT && Slots()[i] == CONNECT)
      ensures forall i | 0 <= i < MAXUSERS && m_users[i] != old(m_users[i]) ::
                fresh(m_users[i]) && old(m_users[i]) == null && m_users[i].m_bytesFetched == 0
      ensures var was, now := old(CountRange(Slots(), CONNECT, GETTING)), CountRange(Slots(), CONNECT, GETTING);
              was <= now && (now <= was || now <= m_nuserTarget)
      ensures var was := old(CountRange(Slots(), CONNECT, m_lastConnectingState));
              var now := CountRange(Slots(), CONNECT, m_lastConnectingState);
              was <= now && (now <= was || now <= m_nconnectingTarget)
      ensures m_nInState[STOPPED] > 0 || VACANT !in Slots() || CountRange(Slots(), CONNECT, GETTING) >= m_nuserTarget ||
              CountRange(Slots(), CONNECT, m_lastConnectingState) >= m_nconnectingTarget
    {
      hide CountRange, Sum, Count, Tallied, Slots, Corpses, Listed;
      ghost var was := Slots();
      while true
        invariant Valid() && m_nInState[STOPPED] == old(m_nInState[STOPPED])
        invariant m_nInState[STOPPED] > 0 ==> Slots() == was
        invariant forall i | 0 <= i < MAXUSERS :: Slots()[i] == was[i] || (was[i] == VACANT && Slots()[i] == CONNECT)
        invariant var a, b := CountRange(was, CONNECT, GETTING), CountRange(Slots(), CONNECT, GETTING);
                  a <= b && (b <= a || b <= m_nuserTarget)
        invariant var a := CountRange(was, CONNECT, m_lastConnectingState);
                  var b := CountRange(Slots(), CONNECT, m_lastConnectingState);
                  a <= b && (b <= a || b <= m_nconnectingTarget)
        invariant forall i | 0 <= i < MAXUSERS && m_users[i] != old(m_users[i]) ::
                    fresh(m_users[i]) && old(m_users[i]) == null && m_users[i].m_bytesFetched == 0
        decreases m_nuserTarget - CountRange(Slots(), CONNECT, GETTING)
      {
        var stopped := SumInState(STOPPED, STOPPED);
        var alive := SumInState(CONNECT, GETTING);
        var connecting := SumInState(CONNECT, m_lastConnectingState);
        CountsAre(m_nInState[..], Slots(), m_lastConnectingState);
        if !(stopped == 0 && alive < m_nuserTarget && connecting < m_nconnectingTarget) {
          return;
        }
        ghost var slots := Slots();
        var err;
        ghost var slot;
        err, slot := StartUser();
        if err != OK {
          return;
        }
        CountRangeUpdate(slots, slot, CONNECT, CONNECT, GETTING);
        CountRangeUpdate(slots, slot, CONNECT, CONNECT, m_lastConnectingState);
      }
    }

    ghost function Books(): Accounts
      requires Shape()
      reads this, m_users, m_users[..], m_nInState
    {
      Accounts(Slots(), Fetched(), m_nInState[STOPPED], m_nuserTarget, m_bytesPerRead)
    }

    /** One event in the program's main loop.  Events of a user that has been reaped do not come. */
    method Handle(e: Event)
      requires Valid() && UNINIT < m_lastConnectingState <= GETTING
      modifies this, m_users, m_users[..], m_nInState
      ensures Valid() && Next(old(Books()), e, Books())
      ensures m_lastConnectingState == old(m_lastConnectingState)
      ensures e.Retarget? ==> m_nuserTarget == e.nusers && m_nconnectingTarget == e.nconnecting
      ensures !e.Retarget? ==> m_nuserTarget == old(m_nuserTarget) && m_nconnectingTarget == old(m_nconnectingTarget)
      ensures forall i | 0 <= i < MAXUSERS && m_users[i] != null ::
                m_users[i] == old(m_users[i]) || fresh(m_users[i])
    {
      hide Tallied, Corpses, Slots, Fetched, Listed, After, CountRange;
      ghost var was := Books();
      match e
      case Answer(user, xerr, status, results) =>
        if 0 <= user < MAXUSERS && m_users[user] != null {
          FtpCmdDone(m_users[user], xerr, status, results);
          assert Fetched() == was.fetched[user := m_users[user].m_bytesFetched];
        }
      case Data(user, nread, slow) =>
        if 0 <= user < MAXUSERS && m_users[user] != null {
          HandleRead(m_users[user], nread, slow);
        }
      case Status =>
        var nconnecting, nalive, ndead := GetStatus();
        assert Slots() == Buried(was).slots && Fetched() == Buried(was).fetched;
      case Retarget(nusers, nconnecting) =>
        m_nuserTarget, m_nconnectingTarget := nusers, nconnecting;
      case RampUp =>
        SkedCallback();
        assert Fetched() == was.fetched;
    }

    /** A read of a user is a step of the accounts. */
    method HandleRead(r: Robouser, nread: int, slow: bool)
      requires Valid() && 0 <= r.m_user < MAXUSERS && m_users[r.m_user] == r
      modifies m_users, m_nInState, r`m_state, r`m_bytesFetched, `m_deadlist
      ensures Valid() && Next(old(Books()), Data(r.m_user, nread, slow), Books()) && r.m_user == old(r.m_user)
      ensures forall i | 0 <= i < MAXUSERS && m_users[i] != null :: m_users[i] == old(m_users[i])
    {
      hide Tallied, Corpses, Slots, Fetched, Listed;
      ghost var was := Books();
      ghost var user := r.m_user;
      ghost var t := Moved(was, user, Lived(UserIn(was, user), Read(nread, slow), m_bytesPerRead));
      var result;
      ghost var again;
      result, again := HandleDataIo(r, nread, slow);
      if nread <= 0 {
        assert Fetched() == was.fetched;
      } else if slow && was.fetched[user] + nread > 10 * m_bytesPerRead {
        assert Slots() == t.slots && Fetched() == t.fetched;
      } else {
        assert Slots() == Buried(t).slots && Fetched() == Buried(t).fetched;
      }
    }

    /** Any run of events is a legal run of the accounts.  h is what the accounts were before every
        event, and in the end. */
    method HandleAll(events: seq<Event>) returns (ghost h: seq<Accounts>)
      requires Valid() && UNINIT < m_lastConnectingState <= GETTING
      modifies this, m_users, m_users[..], m_nInState
      ensures Valid() && Legal(h, events) && Proper(h[0]) && h[0] == old(Books()) && h[|events|] == Books()
    {
      hide Tallied, Corpses, Slots, Listed, Next, CountRange;
      h := [Books()];
      ProperBooks();
      for k := 0 to |events|
        invariant Valid() && UNINIT < m_lastConnectingState <= GETTING
        invariant Legal(h, events[..k]) && h[0] == old(Books()) && h[k] == Books()
        invariant forall i | 0 <= i < MAXUSERS && m_users[i] != null ::
                    m_users[i] == old(m_users[i]) || fresh(m_users[i])
      {
        Handle(events[k]);
        OneMoreEvent(h, events, k, Books());
        h := h + [Books()];
      }
      assert events[..|events|] == events;
    }

    lemma ProperBooks()
      requires Valid()
      ensures Proper(Books())
    {
    }
  }

  lemma OneMoreEvent(h: seq<Accounts>, events: seq<Event>, k: nat, a: Accounts)
    requires k < |events| && Legal(h, events[..k]) && |h[k].fetched| == |h[k].slots| && Next(h[k], events[k], a)
    ensures Legal(h + [a], events[..k + 1])
  {
    hide Next;
    assert forall i | 0 <= i < k :: events[..k][i] == events[i];
  }

  lemma OneMore<T>(s: seq<T>, x: T)
    ensures PollerTypes.Distinct(s + [x]) <==> PollerTypes.Distinct(s) && x !in s
  {
    var t := s + [x];
    assert t[|s|] == x && forall i | 0 <= i < |s| :: t[i] == s[i];
    if PollerTypes.Distinct(t) {
      forall i | 0 <= i < |s| ensures s[i] != x {
        assert t[i] != t[|s|];
      }
    }
  }

  lemma CountsAre(counts: seq<int>, slots: seq<int>, last: int)
    requires Tallied(counts, slots) && UNINIT < last <= GETTING
    ensures |counts| == NUMSTATES && Sum(counts, STOPPED, STOPPED) == counts[STOPPED] >= 0
    ensures Sum(counts, CONNECT, GETTING) == CountRange(slots, CONNECT, GETTING)
    ensures Sum(counts, CONNECT, last) == CountRange(slots, CONNECT, last)
  {
    SumCountsUsers(counts, slots, CONNECT, GETTING);
    SumCountsUsers(counts, slots, CONNECT, last);
  }

  lemma AllVacant(slots: seq<int>)
    requires forall i | 0 <= i < |slots| :: slots[i] == VACANT
    ensures forall s | CONNECT <= s <= STOPPED :: Count(slots, s) == 0
  {
    forall s | CONNECT <= s <= STOPPED ensures Count(slots, s) == 0 {
      NoneInStage(slots, s);
    }
  }
}
