/** The accounts of a platoon over a whole run of events. */
module PlatoonSpec {
  import opened Population

  /** slots holds the stage of every slot and fetched what its user has read since its last get,
      stopped counts the users that have stopped, target is how many are wanted, and perRead the size of
      a read. */
  datatype Accounts = Accounts(slots: seq<int>, fetched: seq<int>, stopped: int, target: int, perRead: int)

  /** What happens to a platoon: a command of a user is done, a read is made on its data connection,
      its status is asked for, its targets are set, or it wakes up to start more users. */
  datatype Event =
    | Answer(user: int, xerr: int, status: int, results: Results)
    | Data(user: int, nread: int, slow: bool)
    | Status
    | Retarget(nusers: int, nconnecting: int)
    | RampUp

  function Alive(slots: seq<int>): nat {
    CountRange(slots, CONNECT, GETTING)
  }

  function Reaped(slots: seq<int>): seq<int> {
    seq(|slots|, i requires 0 <= i < |slots| => if slots[i] == STOPPED then VACANT else slots[i])
  }

  /** The slots of stopped users are emptied. */
  function Buried(a: Accounts): Accounts
    requires |a.fetched| == |a.slots|
  {
    a.(slots := Reaped(a.slots),
       fetched := seq(|a.slots|, i requires 0 <= i < |a.slots| && |a.fetched| == |a.slots| =>
                    if a.slots[i] == STOPPED then 0 else a.fetched[i]))
  }

  function UserIn(a: Accounts, user: int): User
    requires 0 <= user < |a.slots| == |a.fetched|
  {
    User(a.slots[user], a.fetched[user])
  }

  function Moved(a: Accounts, user: int, u: User): Accounts
    requires 0 <= user < |a.slots| == |a.fetched|
  {
    a.(slots := a.slots[user := u.stage], fetched := a.fetched[user := u.fetched],
       stopped := a.stopped + if u.stage == STOPPED && a.slots[user] != STOPPED then 1 else 0)
  }

  predicate IsThere(slots: seq<int>, user: int) {
    0 <= user < |slots| && slots[user] != VACANT
  }

  /** Users appear in slots that were vacant, and nothing else changes. */
  ghost predicate OnlyStarts(a: seq<int>, b: seq<int>) {
    |a| == |b| && forall i | 0 <= i < |a| :: b[i] == a[i] || (a[i] == VACANT && b[i] == CONNECT)
  }

  /** What an event is for its user. */
  function HappeningOf(e: Event): Happening
    requires e.Answer? || e.Data?
  {
    match e
    case Answer(_, xerr, status, results) => Done(xerr, status, results)
    case Data(_, nread, slow) => Read(nread, slow)
  }

  /** What one event may do.  Events of a user that is not there do not happen.  A read of some bytes
      that does not stop its user is followed by a reaping. */
  ghost predicate Next(a: Accounts, e: Event, b: Accounts)
    requires |a.fetched| == |a.slots|
  {
    match e
    case Answer(user, _, _, _) =>
      b == if IsThere(a.slots, user) then Moved(a, user, Lived(UserIn(a, user), HappeningOf(e), a.perRead)) else a
    case Data(user, nread, slow) =>
      if !IsThere(a.slots, user) || nread <= 0 then b == a
      else
        var t := Moved(a, user, Lived(UserIn(a, user), HappeningOf(e), a.perRead));
        b == if slow && a.fetched[user] + nread > 10 * a.perRead then t else Buried(t)
    case Status => b == Buried(a)
    case Retarget(nusers, _) => b == a.(target := nusers)
    case RampUp =>
      && b == a.(slots := b.slots) && OnlyStarts(a.slots, b.slots) && (a.stopped > 0 ==> b == a)
      && (Alive(b.slots) <= Alive(a.slots) || Alive(b.slots) <= a.target)
  }

  /** h is what the accounts were before every event, and in the end. */
  ghost predicate Legal(h: seq<Accounts>, events: seq<Event>) {
    && |h| == |events| + 1
    && forall k | 0 <= k < |events| :: |h[k].fetched| == |h[k].slots| && Next(h[k], events[k], h[k + 1])
  }

  ghost predicate Proper(a: Accounts) {
    && |a.fetched| == |a.slots| && Count(a.slots, STOPPED) <= a.stopped
    && (forall i | 0 <= i < |a.slots| && a.slots[i] == VACANT :: a.fetched[i] == 0)
    && forall i | 0 <= i < |a.slots| :: a.slots[i] == VACANT || CONNECT <= a.slots[i] <= STOPPED
  }

  /** How many users are there in b that were not in a. */
  function Starts(a: seq<int>, b: seq<int>): nat
    requires |a| == |b|
  {
    if a == [] then 0
    else
      var n := |a| - 1;
      Starts(a[..n], b[..n]) + if a[n] == VACANT && b[n] != VACANT then 1 else 0
  }

  // ---------- one event ----------

  lemma {:induction false} OnlyStartsCounted(a: seq<int>, b: seq<int>)
    requires OnlyStarts(a, b)
    ensures Alive(b) == Alive(a) + Starts(a, b) && Count(b, STOPPED) == Count(a, STOPPED)
  {
    if a != [] {
      OnlyStartsCounted(a[..|a| - 1], b[..|b| - 1]);
    }
  }

  lemma {:induction false} NoStarts(a: seq<int>, b: seq<int>)
    requires |a| == |b| && forall i | 0 <= i < |a| && a[i] == VACANT :: b[i] == VACANT
    ensures Starts(a, b) == 0
  {
    if a != [] {
      NoStarts(a[..|a| - 1], b[..|b| - 1]);
    }
  }

  lemma {:induction false} StoppedIsCounted(slots: seq<int>)
    ensures Count(slots, STOPPED) > 0 <==> STOPPED in slots
  {
    if slots != [] {
      StoppedIsCounted(slots[..|slots| - 1]);
      assert slots == slots[..|slots| - 1] + [slots[|slots| - 1]];
    }
  }

  /** A user that moves on keeps its place in the accounts: alive or among the stopped. */
  lemma MovedBalances(a: Accounts, user: int, u: User)
    requires Proper(a) && IsThere(a.slots, user) && CONNECT <= u.stage <= STOPPED
    requires a.slots[user] == STOPPED ==> u.stage == STOPPED
    ensures var b := Moved(a, user, u);
            Proper(b) && Alive(b.slots) + b.stopped == Alive(a.slots) + a.stopped && Starts(a.slots, b.slots) == 0
  {
    CountUpdate(a.slots, user, u.stage, STOPPED);
    CountRangeUpdate(a.slots, user, u.stage, CONNECT, GETTING);
    NoStarts(a.slots, a.slots[user := u.stage]);
  }

  lemma ReapedBalances(a: Accounts)
    requires Proper(a)
    ensures var b := Buried(a);
            Proper(b) && Alive(b.slots) == Alive(a.slots) && Starts(a.slots, b.slots) == 0
  {
    SameLive(a.slots, Reaped(a.slots));
    NoneInStage(Reaped(a.slots), STOPPED);
    NoStarts(a.slots, Reaped(a.slots));
  }

  /** After every event, those alive and those stopped are those before it and those it started. */
  lemma {:induction false} NextBalances(a: Accounts, e: Event, b: Accounts)
    requires Proper(a) && Next(a, e, b)
    ensures Proper(b) && |b.slots| == |a.slots| && b.stopped >= a.stopped && b.perRead == a.perRead
    ensures Alive(b.slots) + b.stopped == Alive(a.slots) + a.stopped + Starts(a.slots, b.slots)
    ensures Starts(a.slots, b.slots) > 0 ==> e.RampUp? && a.stopped == 0
    ensures a.stopped == 0 && b.stopped > 0 ==> STOPPED in b.slots
  {
    NoStarts(a.slots, a.slots);
    match e
    case Answer(user, _, _, _) =>
      if IsThere(a.slots, user) {
        LivedBalances(a, user, HappeningOf(e));
      }
    case Data(user, nread, slow) =>
      if IsThere(a.slots, user) && nread > 0 {
        LivedBalances(a, user, HappeningOf(e));
        var t := Moved(a, user, Lived(UserIn(a, user), HappeningOf(e), a.perRead));
        ReapedBalances(t);
        ThroughReaping(a.slots, t.slots);
      }
      hide Lived;
    case Status => ReapedBalances(a);
    case Retarget(_, _) =>
    case RampUp => OnlyStartsCounted(a.slots, b.slots);
  }

  lemma LivedBalances(a: Accounts, user: int, e: Happening)
    requires Proper(a) && IsThere(a.slots, user)
    ensures var u := Lived(UserIn(a, user), e, a.perRead);
            var b := Moved(a, user, u);
            Proper(b) && Alive(b.slots) + b.stopped == Alive(a.slots) + a.stopped && Starts(a.slots, b.slots) == 0 &&
            b.slots[user] == u.stage && forall s | 0 <= s < |a.slots| && a.slots[s] == VACANT :: b.slots[s] == VACANT
  {
    if e.Done? {
      StagesOnlyAdvance(a.slots[user], e.xerr, e.status, e.results);
    }
    hide After;
    MovedBalances(a, user, Lived(UserIn(a, user), e, a.perRead));
    hide Alive, Starts, Count;
  }

  lemma {:induction false} ThroughReaping(a: seq<int>, t: seq<int>)
    requires |a| == |t| && forall i | 0 <= i < |a| && a[i] == VACANT :: t[i] == VACANT
    ensures Starts(a, Reaped(t)) == 0
  {
    NoStarts(a, Reaped(t));
  }

  /** A vacant slot is filled only by the ramp-up, and only if nobody has stopped. */
  lemma VacantStaysVacant(a: Accounts, e: Event, b: Accounts)
    requires Proper(a) && Next(a, e, b) && a.stopped > 0
    ensures |b.slots| == |a.slots| && forall s | 0 <= s < |a.slots| && a.slots[s] == VACANT :: b.slots[s] == VACANT
  {
    hide After, Count, CountRange;
  }

  lemma NoMoreAfterAStop(a: Accounts, e: Event, b: Accounts)
    requires Proper(a) && Next(a, e, b) && a.stopped > 0
    ensures b.stopped > 0 && |b.slots| == |a.slots| && Alive(b.slots) <= Alive(a.slots)
  {
    NextBalances(a, e, b);
  }

  lemma RaisedToTarget(a: Accounts, e: Event, b: Accounts)
    requires Proper(a) && Next(a, e, b)
    ensures Alive(b.slots) <= Alive(a.slots) || Alive(b.slots) <= a.target
  {
    NextBalances(a, e, b);
  }

  lemma SeenIsCounted(a: Accounts)
    requires Proper(a) && STOPPED in a.slots
    ensures a.stopped > 0
  {
    StoppedIsCounted(a.slots);
  }

  lemma LegalLength(h: seq<Accounts>, events: seq<Event>)
    requires Legal(h, events)
    ensures |h| == |events| + 1
  {
  }

  lemma LegalAt(h: seq<Accounts>, events: seq<Event>, k: nat)
    requires Legal(h, events) && k < |events|
    ensures |h| == |events| + 1 && |h[k].fetched| == |h[k].slots| && Next(h[k], events[k], h[k + 1])
  {
  }

  // ---------- runs ----------

  lemma {:induction false} RunKeepsProper(h: seq<Accounts>, events: seq<Event>, k: nat)
    requires Legal(h, events) && Proper(h[0]) && k < |h|
    ensures Proper(h[k]) && |h[k].slots| == |h[0].slots| && h[0].stopped <= h[k].stopped
    ensures h[k].perRead == h[0].perRead
  {
    if k > 0 {
      RunKeepsProper(h, events, k - 1);
      hide Proper, Next;
      assert Next(h[k - 1], events[k - 1], h[k]);
      NextBalances(h[k - 1], events[k - 1], h[k]);
    }
  }

  /** From an account of none stopped, the count is positive if and only if a stopped user has been
      in a slot, reaped or not. */
  lemma {:induction false} CountedIffSeen(h: seq<Accounts>, events: seq<Event>, k: nat)
    requires Legal(h, events) && Proper(h[0]) && h[0].stopped == 0 && k < |h|
    ensures h[k].stopped > 0 <==> exists i | 0 <= i <= k :: STOPPED in h[i].slots
  {
    RunKeepsProper(h, events, k);
    StoppedIsCounted(h[k].slots);
    if k > 0 {
      CountedIffSeen(h, events, k - 1);
      RunKeepsProper(h, events, k - 1);
      hide Proper, Next, Count;
      assert Next(h[k - 1], events[k - 1], h[k]);
      NextBalances(h[k - 1], events[k - 1], h[k]);
    }
  }

  /** Once a user has stopped, nobody is started again in the whole run: not after it is reaped, nor
      after any other event. */
  lemma {:induction false} NobodyStartsAfterAStop(h: seq<Accounts>, events: seq<Event>, i: nat, j: nat)
    requires Legal(h, events) && Proper(h[0]) && i <= j < |h| && STOPPED in h[i].slots
    ensures |h[j].slots| == |h[i].slots| && h[j].stopped > 0 && Alive(h[j].slots) <= Alive(h[i].slots)
    ensures forall s | 0 <= s < |h[i].slots| && h[i].slots[s] == VACANT :: h[j].slots[s] == VACANT
  {
    LegalLength(h, events);
    RunKeepsProper(h, events, i);
    SeenIsCounted(h[i]);
    if i < j {
      NobodyStartsAfterAStop(h, events, i, j - 1);
      NobodyStartsAt(h, events, j - 1);
    }
  }

  lemma NobodyStartsAt(h: seq<Accounts>, events: seq<Event>, k: nat)
    requires Legal(h, events) && Proper(h[0]) && k < |events| && h[k].stopped > 0
    ensures |h| == |events| + 1 && |h[k + 1].slots| == |h[k].slots| && h[k + 1].stopped > 0
    ensures Alive(h[k + 1].slots) <= Alive(h[k].slots)
    ensures forall s | 0 <= s < |h[k].slots| && h[k].slots[s] == VACANT :: h[k + 1].slots[s] == VACANT
  {
    RunKeepsProper(h, events, k);
    LegalAt(h, events, k);
    NoMoreAfterAStop(h[k], events[k], h[k + 1]);
    VacantStaysVacant(h[k], events[k], h[k + 1]);
    hide *;
  }

  /** How many users are started in the first k events. */
  function Started(h: seq<Accounts>, k: nat): nat
    requires k < |h| && forall i | 0 <= i <= k :: |h[i].slots| == |h[0].slots|
  {
    if k == 0 then 0 else Started(h, k - 1) + Starts(h[k - 1].slots, h[k].slots)
  }

  /** No user is lost or counted twice: over every run, those alive and those stopped are those there
      were and all that were started, and only ramp-ups before the first stop started any. */
  lemma {:induction false} EveryUserIsAccountedFor(h: seq<Accounts>, events: seq<Event>, k: nat)
    requires Legal(h, events) && Proper(h[0]) && k < |h|
    ensures forall i | 0 <= i <= k :: |h[i].slots| == |h[0].slots|
    ensures Alive(h[k].slots) + h[k].stopped == Alive(h[0].slots) + h[0].stopped + Started(h, k)
    ensures h[0].stopped > 0 ==> Started(h, k) == 0
  {
    RunKeepsProper(h, events, k);
    if k > 0 {
      EveryUserIsAccountedFor(h, events, k - 1);
      RunKeepsProper(h, events, k - 1);
      hide Proper, Next, Alive, Starts;
      assert Next(h[k - 1], events[k - 1], h[k]);
      NextBalances(h[k - 1], events[k - 1], h[k]);
    }
  }

  /** However the targets are set on the way, no more users are alive than were at first or than the
      highest target. */
  lemma {:induction false} NeverAboveEveryTarget(h: seq<Accounts>, events: seq<Event>, k: nat, most: int)
    requires Legal(h, events) && Proper(h[0]) && k < |h|
    requires Alive(h[0].slots) <= most && forall i | 0 <= i < k :: h[i].target <= most
    ensures Alive(h[k].slots) <= most
  {
    if k > 0 {
      NeverAboveEveryTarget(h, events, k - 1, most);
      RunKeepsProper(h, events, k - 1);
      LegalAt(h, events, k - 1);
      RaisedToTarget(h[k - 1], events[k - 1], h[k]);
      hide *;
    }
  }

  // ---------- one user in the run of all ----------

  predicate Concerns(e: Event, user: int) {
    (e.Answer? || e.Data?) && e.user == user
  }

  /** What happens to one user. */
  function Own(events: seq<Event>, user: int): seq<Happening> {
    if events == [] then []
    else
      var n := |events| - 1;
      Own(events[..n], user) + if Concerns(events[n], user) then [HappeningOf(events[n])] else []
  }

  /** One event, for a user that lives. */
  lemma LiveUserStep(a: Accounts, e: Event, b: Accounts, user: int)
    requires Proper(a) && Next(a, e, b) && 0 <= user < |a.slots| && CONNECT <= a.slots[user] < STOPPED
    ensures |b.slots| == |b.fetched| == |a.slots|
    ensures var u := if Concerns(e, user) then Lived(UserIn(a, user), HappeningOf(e), a.perRead) else UserIn(a, user);
            if u.stage == STOPPED then b.slots[user] == STOPPED else UserIn(b, user) == u
  {
    hide After, Count, CountRange;
  }

  /** One event, for a user that has stopped, reaped or not. */
  lemma GoneUserStep(a: Accounts, e: Event, b: Accounts, user: int)
    requires Proper(a) && Next(a, e, b) && 0 <= user < |a.slots| && a.stopped > 0
    requires a.slots[user] == STOPPED || a.slots[user] == VACANT
    ensures |b.slots| == |a.slots| && (b.slots[user] == STOPPED || b.slots[user] == VACANT)
  {
    hide Count, CountRange;
  }

  lemma StoppedStays(u: User, e: Happening, perRead: int)
    requires u.stage == STOPPED
    ensures Lived(u, e, perRead).stage == STOPPED
  {
  }

  lemma OwnOneMore(events: seq<Event>, i: nat, j: nat, user: int)
    requires i < j <= |events|
    ensures Own(events[i..j], user) ==
            Own(events[i..j - 1], user) + if Concerns(events[j - 1], user) then [HappeningOf(events[j - 1])] else []
  {
    assert events[i..j][..j - 1 - i] == events[i..j - 1];
  }

  lemma LifeOneMore(run: seq<Happening>, e: Happening, perRead: int)
    ensures Life(run + [e], perRead) == Lived(Life(run, perRead), e, perRead)
  {
    assert (run + [e])[..|run|] == run;
  }

  /** The slot of user at the k-th moment is what a life u would have: lived, or ended. */
  ghost predicate Matches(a: Accounts, user: int, u: User) {
    && 0 <= user < |a.slots| == |a.fetched|
    && if u.stage == STOPPED then a.stopped > 0 && (a.slots[user] == STOPPED || a.slots[user] == VACANT)
       else CONNECT <= u.stage < STOPPED && UserIn(a, user) == u
  }

  lemma OneEventMatches(a: Accounts, e: Event, b: Accounts, user: int, u: User)
    requires Proper(a) && Next(a, e, b) && Matches(a, user, u)
    ensures Matches(b, user, if Concerns(e, user) then Lived(u, HappeningOf(e), a.perRead) else u)
  {
    NextBalances(a, e, b);
    if u.stage == STOPPED {
      GoneUserStep(a, e, b, user);
      if Concerns(e, user) {
        StoppedStays(u, HappeningOf(e), a.perRead);
      }
    } else {
      LiveUserStep(a, e, b, user);
      if Concerns(e, user) && e.Answer? {
        StagesOnlyAdvance(u.stage, e.xerr, e.status, e.results);
      }
      StoppedIsCounted(b.slots);
    }
    hide Next, Count, Alive, Starts, After;
  }

  /** From when a user is started, whatever happens to the others and however they are reaped: while
      nothing of its own stops it, its slot holds the stage and the bytes its own happenings lead to, and
      from the first that does it is stopped, or reaped and its slot vacant for good. */
  lemma {:induction false} UserLivesItsLife(h: seq<Accounts>, events: seq<Event>, i: nat, j: nat, user: int)
    requires Legal(h, events) && Proper(h[0]) && i <= j < |h| && 0 <= user < |h[i].slots| == |h[i].fetched|
    requires UserIn(h[i], user) == User(CONNECT, 0)
    ensures Matches(h[j], user, Life(Own(events[i..j], user), h[0].perRead))
  {
    LegalLength(h, events);
    if i == j {
      LifeBegins(h[i], events, i, user, h[0].perRead);
    } else {
      UserLivesItsLife(h, events, i, j - 1, user);
      LivesOnAt(h, events, i, j - 1, user);
    }
  }

  lemma LivesOnAt(h: seq<Accounts>, events: seq<Event>, i: nat, n: nat, user: int)
    requires Legal(h, events) && Proper(h[0]) && i <= n < |events|
    requires Matches(h[n], user, Life(Own(events[i..n], user), h[0].perRead))
    ensures |h| == |events| + 1 && Matches(h[n + 1], user, Life(Own(events[i..n + 1], user), h[0].perRead))
  {
    LegalLength(h, events);
    hide *;
    RunKeepsProper(h, events, n);
    LegalAt(h, events, n);
    OwnOneMore(events, i, n + 1, user);
    LivesOn(h[n], events[n], h[n + 1], user, Own(events[i..n], user));
  }

  lemma LivesOn(a: Accounts, e: Event, b: Accounts, user: int, run: seq<Happening>)
    requires Proper(a) && Next(a, e, b) && Matches(a, user, Life(run, a.perRead))
    ensures Matches(b, user, Life(run + if Concerns(e, user) then [HappeningOf(e)] else [], a.perRead))
  {
    hide *;
    LifeGoesOnWith(run, e, user, a.perRead);
    OneEventMatches(a, e, b, user, Life(run, a.perRead));
  }

  lemma LifeBegins(a: Accounts, events: seq<Event>, i: nat, user: int, perRead: int)
    requires 0 <= user < |a.slots| == |a.fetched| && UserIn(a, user) == User(CONNECT, 0) && i <= |events|
    ensures Matches(a, user, Life(Own(events[i..i], user), perRead))
  {
  }

  lemma LifeGoesOnWith(run: seq<Happening>, e: Event, user: int, perRead: int)
    ensures var more := if Concerns(e, user) then [HappeningOf(e)] else [];
            Life(run + more, perRead) ==
            if Concerns(e, user) then Lived(Life(run, perRead), HappeningOf(e), perRead) else Life(run, perRead)
  {
    if Concerns(e, user) {
      LifeOneMore(run, HappeningOf(e), perRead);
    } else {
      assert run + [] == run;
    }
  }

  /** In the run of all, a user is alive as long as none of its own happenings stops it, and no longer. */
  lemma {:induction false} AliveUntilItsOwnStop(h: seq<Accounts>, events: seq<Event>, i: nat, j: nat, user: int)
    requires Legal(h, events) && Proper(h[0]) && i <= j < |h| && 0 <= user < |h[i].slots| == |h[i].fetched|
    requires UserIn(h[i], user) == User(CONNECT, 0)
    ensures var run := Own(events[i..j], user);
            0 <= user < |h[j].slots| == |h[j].fetched| &&
            (CONNECT <= h[j].slots[user] <= GETTING <==> !SomethingStops(run, h[0].perRead)) &&
            (CONNECT <= h[j].slots[user] <= GETTING ==>
               UserIn(h[j], user) == User(StageAfter(CountDone(run)), ReadSinceGet(run)))
  {
    UserLivesItsLife(h, events, i, j, user);
    LifeOfAUser(Own(events[i..j], user), h[0].perRead);
    AliveIffNotStopped(h[j], user, Life(Own(events[i..j], user), h[0].perRead));
    hide *;
  }

  lemma AliveIffNotStopped(a: Accounts, user: int, u: User)
    requires Matches(a, user, u)
    ensures 0 <= user < |a.slots| == |a.fetched|
    ensures CONNECT <= a.slots[user] <= GETTING <==> u.stage != STOPPED
    ensures CONNECT <= a.slots[user] <= GETTING ==> UserIn(a, user) == u
  {
  }
}
