/** Counting users by stage.  A slot holds its user's stage, or VACANT. */
module Population {
  const VACANT := -1
  const UNINIT := 0
  const CONNECT := 1
  const CONNECTING := 2
  const START_TYPE := 3
  const FINISH_TYPE := 4
  const GET := 5
  const GETTING := 6
  const STOPPED := 7
  const NUMSTATES := 8

  function Count(slots: seq<int>, stage: int): nat {
    if slots == [] then 0
    else Count(slots[..|slots| - 1], stage) + if slots[|slots| - 1] == stage then 1 else 0
  }

  /** How many slots hold a stage from first to last. */
  function CountRange(slots: seq<int>, first: int, last: int): nat {
    if slots == [] then 0
    else CountRange(slots[..|slots| - 1], first, last) + if first <= slots[|slots| - 1] <= last then 1 else 0
  }

  /** counts[first] + ... + counts[last] */
  function Sum(counts: seq<int>, first: int, last: int): int
    requires 0 <= first && last < |counts|
    decreases last - first
  {
    if first > last then 0 else Sum(counts, first, last - 1) + counts[last]
  }

  /** The counts are right for the live stages; stopped users stay counted after they are reaped. */
  ghost predicate Tallied(counts: seq<int>, slots: seq<int>) {
    && |counts| == NUMSTATES && Count(slots, STOPPED) <= counts[STOPPED]
    && forall s | CONNECT <= s <= GETTING :: counts[s] == Count(slots, s)
  }

  lemma {:induction false} CountUpdate(slots: seq<int>, i: nat, v: int, stage: int)
    requires i < |slots|
    ensures Count(slots[i := v], stage) ==
            Count(slots, stage) - (if slots[i] == stage then 1 else 0) + (if v == stage then 1 else 0)
  {
    var n := |slots| - 1;
    if i < n {
      assert slots[i := v][..n] == slots[..n][i := v];
      CountUpdate(slots[..n], i, v, stage);
    } else {
      assert slots[i := v][..n] == slots[..n];
    }
  }

  lemma {:induction false} CountRangeUpdate(slots: seq<int>, i: nat, v: int, first: int, last: int)
    requires i < |slots|
    ensures CountRange(slots[i := v], first, last) ==
            CountRange(slots, first, last) - (if first <= slots[i] <= last then 1 else 0) +
              (if first <= v <= last then 1 else 0)
  {
    var n := |slots| - 1;
    if i < n {
      assert slots[i := v][..n] == slots[..n][i := v];
      CountRangeUpdate(slots[..n], i, v, first, last);
    } else {
      assert slots[i := v][..n] == slots[..n];
    }
  }

  lemma {:induction false} CountRangeBound(slots: seq<int>, first: int, last: int)
    ensures CountRange(slots, first, last) <= |slots|
    ensures (forall i | 0 <= i < |slots| :: first <= slots[i] <= last) ==> CountRange(slots, first, last) == |slots|
  {
    if slots != [] {
      CountRangeBound(slots[..|slots| - 1], first, last);
    }
  }

  lemma {:induction false} CountRangeSplits(slots: seq<int>, first: int, last: int)
    requires first <= last
    ensures CountRange(slots, first, last) == CountRange(slots, first, last - 1) + Count(slots, last)
  {
    if slots != [] {
      CountRangeSplits(slots[..|slots| - 1], first, last);
    }
  }

  lemma {:induction false} EmptyRange(slots: seq<int>, first: int, last: int)
    requires first > last
    ensures CountRange(slots, first, last) == 0
  {
    if slots != [] {
      EmptyRange(slots[..|slots| - 1], first, last);
    }
  }

  /** Adding up the counts of a range of live stages counts the users in it. */
  lemma {:induction false} SumCountsUsers(counts: seq<int>, slots: seq<int>, first: int, last: int)
    requires Tallied(counts, slots) && CONNECT <= first && last <= GETTING
    ensures Sum(counts, first, last) == CountRange(slots, first, last)
    decreases last - first
  {
    if first > last {
      EmptyRange(slots, first, last);
    } else {
      SumCountsUsers(counts, slots, first, last - 1);
      CountRangeSplits(slots, first, last);
    }
  }

  /** Emptying the slots of stopped users leaves the live ones. */
  lemma {:induction false} SameLive(a: seq<int>, b: seq<int>)
    requires |a| == |b|
    requires forall i | 0 <= i < |a| :: b[i] == a[i] || (b[i] == VACANT && a[i] == STOPPED)
    ensures CountRange(a, CONNECT, GETTING) == CountRange(b, CONNECT, GETTING)
  {
    if a != [] {
      SameLive(a[..|a| - 1], b[..|b| - 1]);
    }
  }

  lemma {:induction false} NoneInStage(slots: seq<int>, s: int)
    requires forall i | 0 <= i < |slots| :: slots[i] != s
    ensures Count(slots, s) == 0
  {
    if slots != [] {
      NoneInStage(slots[..|slots| - 1], s);
    }
  }

  /** countStateChange, for a user whose slot changes with it. */
  function Recount(counts: seq<int>, from: int, to: int): seq<int>
    requires |counts| == NUMSTATES && UNINIT <= from < NUMSTATES && UNINIT < to < NUMSTATES
  {
    var c := if from != UNINIT then counts[from := counts[from] - 1] else counts;
    c[to := c[to] + 1]
  }

  lemma {:induction false} RecountStaysTallied(counts: seq<int>, slots: seq<int>, i: nat, from: int, to: int)
    requires Tallied(counts, slots) && i < |slots| && UNINIT <= from <= STOPPED && UNINIT < to <= STOPPED
    requires slots[i] == if from == UNINIT then VACANT else from
    requires from == STOPPED ==> to == STOPPED
    ensures Tallied(Recount(counts, from, to), slots[i := to])
    ensures Recount(counts, from, to)[STOPPED] == counts[STOPPED] + if to == STOPPED && from != STOPPED then 1 else 0
    ensures to == STOPPED ==> Recount(counts, from, to)[STOPPED] > 0
  {
    CountUpdate(slots, i, to, STOPPED);
    CountUpdate(slots, i, VACANT, STOPPED);
    forall s | CONNECT <= s <= GETTING
      ensures Recount(counts, from, to)[s] == Count(slots[i := to], s)
    {
      CountUpdate(slots, i, to, s);
    }
  }

  lemma VacateStaysTallied(counts: seq<int>, slots: seq<int>, i: nat)
    requires Tallied(counts, slots) && i < |slots| && (slots[i] == VACANT || slots[i] == STOPPED)
    ensures Tallied(counts, slots[i := VACANT])
  {
    CountUpdate(slots, i, VACANT, STOPPED);
    forall s | CONNECT <= s <= GETTING ensures Count(slots[i := VACANT], s) == Count(slots, s) {
      CountUpdate(slots, i, VACANT, s);
    }
  }

  // ---------- the life of one user ----------

  predicate Ok(status: int) { 200 <= status <= 299 }

  /** The results of the calls a user makes while it handles one event, and whether a finished
      transfer was too slow. */
  datatype Results = Results(connect: int, login: int, type_: int, get: int, tooSlow: bool)

  /** How many stages can follow at once. */
  function Moves(stage: int): nat {
    if stage == CONNECTING || stage == FINISH_TYPE || stage == GETTING then 1 else 0
  }

  /** Where ftpCmdDone leaves a user: through every stage that needs no answer from the server. */
  function After(stage: int, xerr: int, status: int, r: Results): int
    decreases Moves(stage)
  {
    if xerr != 0 then STOPPED
    else if stage == CONNECT then if r.connect != 0 || r.login != 0 then STOPPED else CONNECTING
    else if stage == CONNECTING then if !Ok(status) then STOPPED else After(START_TYPE, xerr, status, r)
    else if stage == START_TYPE then if r.type_ != 0 then STOPPED else FINISH_TYPE
    else if stage == FINISH_TYPE then if !Ok(status) then STOPPED else After(GET, xerr, status, r)
    else if stage == GET then if r.get != 0 then STOPPED else GETTING
    else if stage == GETTING then if !Ok(status) || r.tooSlow then STOPPED else After(GET, xerr, status, r)
    else stage
  }

  /** A user never falls back to an earlier stage, never rests in a stage that waits for nothing,
      and a stopped one stays stopped. */
  lemma {:induction false} StagesOnlyAdvance(stage: int, xerr: int, status: int, r: Results)
    requires CONNECT <= stage <= STOPPED
    ensures stage <= After(stage, xerr, status, r) <= STOPPED
    ensures After(stage, xerr, status, r) != START_TYPE && After(stage, xerr, status, r) != GET
    ensures stage == STOPPED ==> After(stage, xerr, status, r) == STOPPED
    ensures After(stage, xerr, status, r) == stage ==> stage == GETTING || stage == STOPPED
  {
  }

  /** What is asked of the server, and answered by it, in passing from stage to the next rest. */
  predicate Fails(stage: int, xerr: int, status: int, r: Results) {
    || xerr != 0
    || (stage == CONNECT && (r.connect != 0 || r.login != 0))
    || ((stage == CONNECTING || stage == FINISH_TYPE || stage == GETTING) && !(200 <= status < 300))
    || ((stage == CONNECTING || stage == START_TYPE) && r.type_ != 0)
    || ((stage == FINISH_TYPE || stage == GET || stage == GETTING) && r.get != 0)
    || (stage == GETTING && r.tooSlow)
  }

  /** A live user stops if and only if something it did or was told failed. */
  lemma {:induction false} StopsIffSomethingFails(stage: int, xerr: int, status: int, r: Results)
    requires CONNECT <= stage < STOPPED
    ensures After(stage, xerr, status, r) == STOPPED <==> Fails(stage, xerr, status, r)
  {
  }

  /** What can happen to a user: a command is done, or a read is made on its data connection, of so many
      bytes; slow is what the comparison of rates says then. */
  datatype Happening = Done(xerr: int, status: int, results: Results) | Read(nread: int, slow: bool)

  datatype User = User(stage: int, fetched: int)

  /** fetched starts again with every get; reads are of up to perRead bytes. */
  function Lived(u: User, e: Happening, perRead: int): User {
    match e
    case Done(xerr, status, results) =>
      var stage := After(u.stage, xerr, status, results);
      User(stage, if stage == GETTING then 0 else u.fetched)
    case Read(nread, slow) =>
      if nread <= 0 then u
      else User(if slow && u.fetched + nread > 10 * perRead then STOPPED else u.stage, u.fetched + nread)
  }

  /** A user after a run of happenings. */
  function Life(run: seq<Happening>, perRead: int): User {
    if run == [] then User(CONNECT, 0) else Lived(Life(run[..|run| - 1], perRead), run[|run| - 1], perRead)
  }

  function CountDone(run: seq<Happening>): nat {
    if run == [] then 0 else CountDone(run[..|run| - 1]) + if run[|run| - 1].Done? then 1 else 0
  }

  /** Where n commands that did not fail have brought a user. */
  function StageAfter(n: nat): int {
    if n == 0 then CONNECT else if n == 1 then CONNECTING else if n == 2 then FINISH_TYPE else GETTING
  }

  /** The bytes read since the last get; the third command done and every later one is followed by one. */
  function ReadSinceGet(run: seq<Happening>): int {
    if run == [] then 0
    else
      match run[|run| - 1]
      case Read(nread, _) => ReadSinceGet(run[..|run| - 1]) + if nread > 0 then nread else 0
      case Done(_, _, _) => if CountDone(run) >= 3 then 0 else ReadSinceGet(run[..|run| - 1])
  }

  /** The k-th happening stops a user that lives until then: a failure, or a slow read that brings what
      has been read since the last get above ten reads' worth. */
  predicate Stops(run: seq<Happening>, perRead: int, k: nat)
    requires k < |run|
  {
    match run[k]
    case Done(xerr, status, results) => Fails(StageAfter(CountDone(run[..k])), xerr, status, results)
    case Read(nread, slow) => nread > 0 && slow && ReadSinceGet(run[..k + 1]) > 10 * perRead
  }

  ghost predicate SomethingStops(run: seq<Happening>, perRead: int) {
    exists k | 0 <= k < |run| :: Stops(run, perRead, k)
  }

  /** Over its whole life a user is stopped from the first happening on that stops it, and by none
      before; until then it has connected after one command, set the type after two, and fetches files
      from the third on. */
  lemma {:induction false} LifeOfAUser(run: seq<Happening>, perRead: int)
    ensures var u := Life(run, perRead);
            (u.stage == STOPPED <==> SomethingStops(run, perRead)) &&
            (u.stage != STOPPED ==> u == User(StageAfter(CountDone(run)), ReadSinceGet(run)))
  {
    if run != [] {
      var n := |run| - 1;
      var u := Life(run[..n], perRead);
      LifeOfAUser(run[..n], perRead);
      forall k | 0 <= k < n ensures Stops(run, perRead, k) == Stops(run[..n], perRead, k) {
        assert run[..n][..k] == run[..k] && run[..n][..k + 1] == run[..k + 1];
      }
      OneMoreHappening(run);
      assert run[..n + 1] == run;
      hide CountDone, ReadSinceGet, Life;
      if u.stage != STOPPED && run[n].Done? {
        StopsIffSomethingFails(u.stage, run[n].xerr, run[n].status, run[n].results);
      }
      assert Stops(run, perRead, n) || !Stops(run, perRead, n);
      assert Life(run, perRead) == Lived(u, run[n], perRead) by { LifeGoesOn(run, perRead); }
    }
  }

  lemma LifeGoesOn(run: seq<Happening>, perRead: int)
    requires run != []
    ensures Life(run, perRead) == Lived(Life(run[..|run| - 1], perRead), run[|run| - 1], perRead)
  {
  }

  lemma OneMoreHappening(run: seq<Happening>)
    requires run != []
    ensures var n := |run| - 1;
            CountDone(run) == CountDone(run[..n]) + (if run[n].Done? then 1 else 0) &&
            ReadSinceGet(run) ==
            match run[n]
            case Read(nread, _) => ReadSinceGet(run[..n]) + (if nread > 0 then nread else 0)
            case Done(_, _, _) => if CountDone(run) >= 3 then 0 else ReadSinceGet(run[..n])
  {
  }
}
