/** What the scheduler means: a map from each queued client to its time.  The heap in module
    Sked is proved to refine this map, and runAll to produce the dispatch logs defined here. */
module SkedSpec {
  import opened EClock

  /** What a callback may ask of the scheduler.  addClient accepts only clients that are not
      queued and delClient ignores those that are not, so "delete, then add" stands for every
      addition a callback can make. */
  datatype SkedOp<C> = Cancel(skc: C) | Reschedule(skc: C, when: int)

  function ApplyOp<C>(q: map<C, int>, op: SkedOp<C>): map<C, int> {
    match op
    case Cancel(c) => q - {c}
    case Reschedule(c, w) => q[c := w]
  }

  function ApplyOps<C>(q: map<C, int>, ops: seq<SkedOp<C>>): map<C, int> {
    if ops == [] then q else ApplyOp(ApplyOps(q, ops[..|ops| - 1]), ops[|ops| - 1])
  }

  /** No queued client is due before c. */
  ghost predicate Earliest<C>(h: int, q: map<C, int>, c: C) {
    c in q && forall d | d in q :: !After(h, q[c], q[d])
  }

  /** The queue after the dispatches in log; the k-th callback performs script(k). */
  function QueueAfter<C>(q: map<C, int>, script: nat -> seq<SkedOp<C>>, log: seq<(C, int)>): map<C, int> {
    if log == [] then q
    else
      var n := |log| - 1;
      ApplyOps(QueueAfter(q, script, log[..n]) - {log[n].0}, script(n))
  }

  /** Every dispatch in log takes the earliest queued client, at its own time, which is due. */
  ghost predicate Legal<C>(h: int, q: map<C, int>, now: int, script: nat -> seq<SkedOp<C>>, log: seq<(C, int)>) {
    forall k {:trigger log[k]} | 0 <= k < |log| ::
      var qk := QueueAfter(q, script, log[..k]);
      Earliest(h, qk, log[k].0) && qk[log[k].0] == log[k].1 && !After(h, log[k].1, now)
  }

  ghost predicate NoneDue<C>(h: int, q: map<C, int>, now: int) {
    forall c | c in q :: After(h, q[c], now)
  }

  /** Every time in the queue lies in the window at base. */
  ghost predicate QueueInWindow<C>(h: int, base: int, q: map<C, int>) {
    forall c | c in q :: InWindow(h, base, q[c])
  }

  ghost predicate OpsInWindow<C>(h: int, base: int, ops: seq<SkedOp<C>>) {
    forall op | op in ops :: op.Reschedule? ==> InWindow(h, base, op.when)
  }

  /** No callback schedules outside the window, or before t. */
  ghost predicate ScriptInWindow<C>(h: int, base: int, script: nat -> seq<SkedOp<C>>) {
    forall k: nat :: OpsInWindow(h, base, script(k))
  }

  ghost predicate ScriptNotBefore<C>(h: int, t: int, script: nat -> seq<SkedOp<C>>) {
    forall k: nat :: OpsNotBefore(h, t, script(k))
  }

  ghost predicate OpsNotBefore<C>(h: int, t: int, ops: seq<SkedOp<C>>) {
    forall op | op in ops :: op.Reschedule? ==> !After(h, t, op.when)
  }

  /** No queued time is before t. */
  ghost predicate QueueNotBefore<C>(h: int, t: int, q: map<C, int>) {
    forall c | c in q :: !After(h, t, q[c])
  }

  lemma {:induction false} OpsKeepWindow<C>(h: int, base: int, q: map<C, int>, ops: seq<SkedOp<C>>)
    requires QueueInWindow(h, base, q) && OpsInWindow(h, base, ops)
    ensures QueueInWindow(h, base, ApplyOps(q, ops))
  {
    if ops != [] {
      OpsKeepWindow(h, base, q, ops[..|ops| - 1]);
      assert ops[|ops| - 1] in ops;
    }
  }

  lemma {:induction false} OpsKeepNotBefore<C>(h: int, t: int, q: map<C, int>, ops: seq<SkedOp<C>>)
    requires QueueNotBefore(h, t, q) && OpsNotBefore(h, t, ops)
    ensures QueueNotBefore(h, t, ApplyOps(q, ops))
  {
    if ops != [] {
      OpsKeepNotBefore(h, t, q, ops[..|ops| - 1]);
      assert ops[|ops| - 1] in ops;
    }
  }

  lemma {:induction false} QueueAfterInWindow<C>(h: int, base: int, q: map<C, int>,
      script: nat -> seq<SkedOp<C>>, log: seq<(C, int)>)
    requires QueueInWindow(h, base, q)
    requires ScriptInWindow(h, base, script)
    ensures QueueInWindow(h, base, QueueAfter(q, script, log))
  {
    if log != [] {
      var n := |log| - 1;
      QueueAfterInWindow(h, base, q, script, log[..n]);
      OpsKeepWindow(h, base, QueueAfter(q, script, log[..n]) - {log[n].0}, script(n));
    }
  }

  lemma NotBeforeNowNotBeforeDue<C>(h: int, base: int, t: int, now: int, ops: seq<SkedOp<C>>)
    requires 0 < h && InWindow(h, base, t) && InWindow(h, base, now) && !After(h, t, now)
    requires OpsInWindow(h, base, ops) && OpsNotBefore(h, now, ops)
    ensures OpsNotBefore(h, t, ops)
  {
  }

  lemma QueueAfterStep<C>(q: map<C, int>, script: nat -> seq<SkedOp<C>>, log: seq<(C, int)>, n: nat)
    requires n < |log|
    ensures QueueAfter(q, script, log[..n + 1]) == ApplyOps(QueueAfter(q, script, log[..n]) - {log[n].0}, script(n))
  {
    assert log[..n + 1][..n] == log[..n] && log[..n + 1][n] == log[n];
  }

  lemma NotBeforeAfterRemoval<C>(h: int, t: int, q: map<C, int>, c: C)
    requires QueueNotBefore(h, t, q)
    ensures QueueNotBefore(h, t, q - {c})
  {
  }

  lemma LegalAt<C>(h: int, q: map<C, int>, now: int, script: nat -> seq<SkedOp<C>>, log: seq<(C, int)>, k: nat)
    requires Legal(h, q, now, script, log) && k < |log|
    ensures var qk := QueueAfter(q, script, log[..k]);
            log[k].0 in qk && qk[log[k].0] == log[k].1 && QueueNotBefore(h, log[k].1, qk) && !After(h, log[k].1, now)
  {
    var e := log[k];
  }

  /** A dispatch at n keeps everything queued no earlier than t, if t itself was due. */
  lemma DispatchKeepsNotBefore<C>(h: int, base: int, q: map<C, int>, now: int,
      script: nat -> seq<SkedOp<C>>, log: seq<(C, int)>, n: nat, t: int)
    requires 0 < h && n < |log| && InWindow(h, base, now) && InWindow(h, base, t) && !After(h, t, now)
    requires ScriptInWindow(h, base, script) && ScriptNotBefore(h, now, script)
    requires QueueNotBefore(h, t, QueueAfter(q, script, log[..n]))
    ensures QueueNotBefore(h, t, QueueAfter(q, script, log[..n + 1]))
  {
    assert OpsInWindow(h, base, script(n)) && OpsNotBefore(h, now, script(n));
    hide *;
    var before := QueueAfter(q, script, log[..n]);
    NotBeforeNowNotBeforeDue(h, base, t, now, script(n));
    NotBeforeAfterRemoval(h, t, before, log[n].0);
    OpsKeepNotBefore(h, t, before - {log[n].0}, script(n));
    QueueAfterStep(q, script, log, n);
  }

  lemma DispatchTime<C>(h: int, base: int, q: map<C, int>, now: int,
      script: nat -> seq<SkedOp<C>>, log: seq<(C, int)>, i: nat)
    requires i < |log| && QueueInWindow(h, base, q) && ScriptInWindow(h, base, script) && Legal(h, q, now, script, log)
    ensures InWindow(h, base, log[i].1) && !After(h, log[i].1, now)
    ensures QueueNotBefore(h, log[i].1, QueueAfter(q, script, log[..i]))
  {
    QueueAfterInWindow(h, base, q, script, log[..i]);
    LegalAt(h, q, now, script, log, i);
  }

  /** From the i-th dispatch on, nothing earlier than its time is ever queued again. */
  lemma {:induction false} NothingEarlierReturns<C>(h: int, base: int, q: map<C, int>, now: int,
      script: nat -> seq<SkedOp<C>>, log: seq<(C, int)>, i: nat, j: nat)
    requires 0 < h && i < j <= |log| && InWindow(h, base, now) && QueueInWindow(h, base, q)
    requires ScriptInWindow(h, base, script) && ScriptNotBefore(h, now, script)
    requires Legal(h, q, now, script, log)
    ensures QueueNotBefore(h, log[i].1, QueueAfter(q, script, log[..j]))
    decreases j
  {
    hide *;
    DispatchTime(h, base, q, now, script, log, i);
    if i < j - 1 {
      NothingEarlierReturns(h, base, q, now, script, log, i, j - 1);
    }
    DispatchKeepsNotBefore(h, base, q, now, script, log, j - 1, log[i].1);
  }

  /** If callbacks never schedule into the past, clients are dispatched in time order. */
  lemma {:induction false} DispatchInTimeOrder<C>(h: int, base: int, q: map<C, int>, now: int,
      script: nat -> seq<SkedOp<C>>, log: seq<(C, int)>, i: nat, j: nat)
    requires 0 < h && i < j < |log| && InWindow(h, base, now) && QueueInWindow(h, base, q)
    requires ScriptInWindow(h, base, script) && ScriptNotBefore(h, now, script)
    requires Legal(h, q, now, script, log)
    ensures !After(h, log[i].1, log[j].1)
  {
    NothingEarlierReturns(h, base, q, now, script, log, i, j);
  }

  ghost predicate NamesNot<C>(ops: seq<SkedOp<C>>, c: C) {
    forall op | op in ops :: op.skc != c
  }

  /** None of the first n callbacks names c. */
  ghost predicate Untouched<C>(c: C, script: nat -> seq<SkedOp<C>>, n: nat) {
    forall k | 0 <= k < n :: NamesNot(script(k), c)
  }

  lemma {:induction false} OpsLeaveOthers<C>(q: map<C, int>, ops: seq<SkedOp<C>>, c: C)
    requires NamesNot(ops, c)
    ensures c in ApplyOps(q, ops) <==> c in q
    ensures c in q ==> ApplyOps(q, ops)[c] == q[c]
  {
    if ops != [] {
      OpsLeaveOthers(q, ops[..|ops| - 1], c);
      assert ops[|ops| - 1] in ops;
    }
  }

  /** A client no callback touches stays queued at its time exactly until it is dispatched. */
  lemma {:induction false} UntouchedStaysUntilDispatched<C>(q: map<C, int>,
      script: nat -> seq<SkedOp<C>>, log: seq<(C, int)>, c: C)
    requires c in q && Untouched(c, script, |log|)
    ensures var end := QueueAfter(q, script, log);
            (c in end <==> forall k | 0 <= k < |log| :: log[k].0 != c) && (c in end ==> end[c] == q[c])
  {
    if log != [] {
      var n := |log| - 1;
      UntouchedStaysUntilDispatched(q, script, log[..n], c);
      OpsLeaveOthers(QueueAfter(q, script, log[..n]) - {log[n].0}, script(n), c);
      assert forall k | 0 <= k < n :: log[..n][k] == log[k];
    }
  }

  lemma DispatchedAt<C>(h: int, q: map<C, int>, now: int, script: nat -> seq<SkedOp<C>>, log: seq<(C, int)>, c: C,
      k: nat)
    requires Legal(h, q, now, script, log) && k < |log| && log[k].0 == c
    requires c in q && Untouched(c, script, |log|)
    ensures log[k].1 == q[c] && !After(h, q[c], now) && forall i | 0 <= i < k :: log[i].0 != c
  {
    assert Untouched(c, script, k);
    hide *;
    UntouchedStaysUntilDispatched(q, script, log[..k], c);
    LegalAt(h, q, now, script, log, k);
    assert forall i | 0 <= i < k :: log[..k][i] == log[i];
  }

  lemma NotDueAt<C>(h: int, q: map<C, int>, now: int, c: C)
    requires NoneDue(h, q, now) && c in q
    ensures After(h, q[c], now)
  {
  }

  /** Over a complete run, such a client is dispatched exactly once if it was due and never
      otherwise, and then it is still queued at its old time. */
  lemma {:induction false} UntouchedRunsOnceIffDue<C>(h: int, q: map<C, int>, now: int,
      script: nat -> seq<SkedOp<C>>, log: seq<(C, int)>, c: C)
    requires Legal(h, q, now, script, log) && NoneDue(h, QueueAfter(q, script, log), now)
    requires c in q && Untouched(c, script, |log|)
    ensures (exists k | 0 <= k < |log| :: log[k].0 == c) <==> !After(h, q[c], now)
    ensures forall i, j | 0 <= i < j < |log| :: !(log[i].0 == c == log[j].0)
    ensures forall k | 0 <= k < |log| && log[k].0 == c :: log[k].1 == q[c]
    ensures After(h, q[c], now) ==>
              c in QueueAfter(q, script, log) && QueueAfter(q, script, log)[c] == q[c]
  {
    hide *;
    forall k | 0 <= k < |log| && log[k].0 == c
      ensures log[k].1 == q[c] && !After(h, q[c], now) && forall i | 0 <= i < k :: log[i].0 != c
    {
      DispatchedAt(h, q, now, script, log, c, k);
    }
    UntouchedStaysUntilDispatched(q, script, log, c);
    if c in QueueAfter(q, script, log) {
      NotDueAt(h, QueueAfter(q, script, log), now, c);
    }
  }

  /** None of the first n dispatches is of c. */
  ghost predicate NotYet<C>(c: C, log: seq<(C, int)>, n: nat) {
    forall j | 0 <= j < n && j < |log| :: log[j].0 != c
  }

  /** Until c is dispatched no callback names it; from its own callback on, any may. */
  ghost predicate UntouchedUntilDispatched<C>(c: C, script: nat -> seq<SkedOp<C>>, log: seq<(C, int)>) {
    forall k {:trigger log[k]} | 0 <= k < |log| && NotYet(c, log, k + 1) :: NamesNot(script(k), c)
  }

  lemma UntouchedAt<C>(c: C, script: nat -> seq<SkedOp<C>>, log: seq<(C, int)>, k: nat)
    requires UntouchedUntilDispatched(c, script, log) && k < |log| && NotYet(c, log, k + 1)
    ensures NamesNot(script(k), c) && NotYet(c, log, k) && log[k].0 != c
  {
    var e := log[k];
  }

  lemma {:induction false} StaysUntilDispatched<C>(q: map<C, int>, script: nat -> seq<SkedOp<C>>,
      log: seq<(C, int)>, c: C, n: nat)
    requires c in q && UntouchedUntilDispatched(c, script, log) && n <= |log| && NotYet(c, log, n)
    ensures c in QueueAfter(q, script, log[..n]) && QueueAfter(q, script, log[..n])[c] == q[c]
  {
    if n > 0 {
      var m := n - 1;
      UntouchedAt(c, script, log, m);
      StaysUntilDispatched(q, script, log, c, m);
      QueueAfterStep(q, script, log, m);
      hide QueueAfter, UntouchedUntilDispatched;
      OpsLeaveOthers(QueueAfter(q, script, log[..m]) - {log[m].0}, script(m), c);
    }
  }

  lemma FirstDispatch<C>(log: seq<(C, int)>, c: C) returns (k: nat)
    ensures k <= |log| && NotYet(c, log, k) && (k < |log| ==> log[k].0 == c)
  {
    k := 0;
    while k < |log| && log[k].0 != c
      invariant k <= |log| && NotYet(c, log, k)
    {
      k := k + 1;
    }
  }

  /** Over a complete run, a client that no callback names before it is dispatched is dispatched if
      and only if it was due, and the first time at the time at which it was queued all along;
      after that callbacks may do with it what they like. */
  lemma {:induction false} FirstDispatchIffDue<C>(h: int, q: map<C, int>, now: int,
      script: nat -> seq<SkedOp<C>>, log: seq<(C, int)>, c: C) returns (k: nat)
    requires Legal(h, q, now, script, log) && NoneDue(h, QueueAfter(q, script, log), now)
    requires c in q && UntouchedUntilDispatched(c, script, log)
    ensures k <= |log| && NotYet(c, log, k) && (k < |log| <==> !After(h, q[c], now))
    ensures c in QueueAfter(q, script, log[..k]) && QueueAfter(q, script, log[..k])[c] == q[c]
    ensures k < |log| ==> log[k] == (c, q[c])
  {
    hide *;
    k := FirstDispatch(log, c);
    StaysUntilDispatched(q, script, log, c, k);
    if k < |log| {
      LegalAt(h, q, now, script, log, k);
    } else {
      assert log[..k] == log;
      NotDueAt(h, QueueAfter(q, script, log), now, c);
    }
  }

  /** Everything asked of the queue in a run, in order; a dispatch takes its client out. */
  function Asked<C>(script: nat -> seq<SkedOp<C>>, log: seq<(C, int)>): seq<SkedOp<C>> {
    if log == [] then []
    else
      var n := |log| - 1;
      Asked(script, log[..n]) + [Cancel(log[n].0)] + script(n)
  }

  lemma {:induction false} OpsConcat<C>(q: map<C, int>, a: seq<SkedOp<C>>, b: seq<SkedOp<C>>)
    ensures ApplyOps(q, a + b) == ApplyOps(ApplyOps(q, a), b)
  {
    if b == [] {
      assert a + b == a;
    } else {
      var n := |b| - 1;
      assert (a + b)[..|a| + n] == a + b[..n];
      OpsConcat(q, a, b[..n]);
    }
  }

  lemma {:induction false} QueueIsAsAsked<C>(q: map<C, int>, script: nat -> seq<SkedOp<C>>, log: seq<(C, int)>)
    ensures QueueAfter(q, script, log) == ApplyOps(q, Asked(script, log))
  {
    if log != [] {
      var n := |log| - 1;
      QueueIsAsAsked(q, script, log[..n]);
      var before := Asked(script, log[..n]);
      OpsConcat(q, before, [Cancel(log[n].0)]);
      assert [Cancel(log[n].0)][..0] == [];
      OpsConcat(q, before + [Cancel(log[n].0)], script(n));
    }
  }

  lemma {:induction false} LastOpDecides<C>(q: map<C, int>, ops: seq<SkedOp<C>>, c: C, k: nat)
    requires k < |ops| && ops[k].skc == c && forall j | k < j < |ops| :: ops[j].skc != c
    ensures c in ApplyOps(q, ops) <==> ops[k].Reschedule?
    ensures ops[k].Reschedule? ==> ApplyOps(q, ops)[c] == ops[k].when
    decreases |ops|
  {
    var n := |ops| - 1;
    if k < n {
      LastOpDecides(q, ops[..n], c, k);
    }
  }

  /** After any run a client is queued if and only if the last thing that befell it was to be
      scheduled, and then at the time asked for; the k-th of all that was asked is the last about it. */
  lemma {:induction false} QueuedAsLastAsked<C>(q: map<C, int>, script: nat -> seq<SkedOp<C>>, log: seq<(C, int)>,
      c: C, k: nat)
    requires k < |Asked(script, log)| && Asked(script, log)[k].skc == c
    requires forall j | k < j < |Asked(script, log)| :: Asked(script, log)[j].skc != c
    ensures c in QueueAfter(q, script, log) <==> Asked(script, log)[k].Reschedule?
    ensures Asked(script, log)[k].Reschedule? ==> QueueAfter(q, script, log)[c] == Asked(script, log)[k].when
  {
    QueueIsAsAsked(q, script, log);
    LastOpDecides(q, Asked(script, log), c, k);
  }

  /** The queued clients that are due: what a run with forward-looking callbacks uses up. */
  ghost function DueSet<C>(h: int, q: map<C, int>, now: int): set<C> {
    set c | c in q && !After(h, q[c], now)
  }

  lemma {:induction false} LaterOpsAddNoDue<C>(h: int, q: map<C, int>, now: int, ops: seq<SkedOp<C>>)
    requires forall op | op in ops :: op.Reschedule? ==> After(h, op.when, now)
    ensures DueSet(h, ApplyOps(q, ops), now) <= DueSet(h, q, now)
  {
    if ops != [] {
      LaterOpsAddNoDue(h, q, now, ops[..|ops| - 1]);
      assert ops[|ops| - 1] in ops;
    }
  }

  /** A callback that keeps rescheduling its client for "now" is dispatched without end: legal
      logs of every length exist, and each leaves the client due. */
  lemma {:induction false} ReschedulingForNowNeverEnds<C>(h: int, c: C, now: int, n: nat) returns (log: seq<(C, int)>)
    requires 0 < h
    ensures var again := (k: nat) => [Reschedule(c, now)];
            |log| == n && Legal(h, map[c := now], now, again, log) &&
            QueueAfter(map[c := now], again, log) == map[c := now]
  {
    log := seq(n, _ => (c, now));
    var again := (k: nat) => [Reschedule(c, now)];
    forall k: nat | k <= n
      ensures QueueAfter(map[c := now], again, log[..k]) == map[c := now]
    {
      ReschedulingForNowIsIdle(c, now, again, log[..k]);
    }
    assert log[..n] == log;
  }

  lemma {:induction false} ReschedulingForNowIsIdle<C>(c: C, now: int, again: nat -> seq<SkedOp<C>>, log: seq<(C, int)>)
    requires forall k: nat :: again(k) == [Reschedule(c, now)]
    requires forall e | e in log :: e == (c, now)
    ensures QueueAfter(map[c := now], again, log) == map[c := now]
  {
    if log != [] {
      var n := |log| - 1;
      assert forall e | e in log[..n] :: e in log;
      ReschedulingForNowIsIdle(c, now, again, log[..n]);
      assert log[n] in log;
      var ops := again(n);
      assert ops[..0] == [];
      assert ApplyOps(map[c := now] - {c}, ops[..0]) == map[c := now] - {c};
    }
  }
}
