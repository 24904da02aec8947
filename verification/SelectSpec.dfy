/** What a pass of Poller_select means: the monitored descriptors, the flags select left behind,
    and how far the upward scan has come. */
module SelectSpec {
  import opened PollerMap
  import opened PollerTypes

  datatype Pass = Pass(watched: map<int, Watch>, readable: set<int>, writable: set<int>, cur: int)

  const FD_SETSIZE: int := 1024

  /** select knows only reading and writing, and only descriptors below FD_SETSIZE. */
  function Trim(m: Bits): Bits {
    m * {IN, OUT}
  }

  function CallOn(p: Pass, c: Call): Pass {
    if c.fd < 0 || c.fd >= FD_SETSIZE then p
    else match c
      case Add(fd, client, m) => p.(watched := ApplyCall(p.watched, Add(fd, client, Trim(m))))
      case Del(fd) =>
        if fd in p.watched then Pass(ApplyCall(p.watched, c), p.readable - {fd}, p.writable - {fd}, p.cur) else p
      case SetMask(fd, m) => p.(watched := ApplyCall(p.watched, SetMask(fd, Trim(m))))
      case OrMask(fd, m) => p.(watched := ApplyCall(p.watched, OrMask(fd, Trim(m))))
      case AndMask(fd, m) => p.(watched := ApplyCall(p.watched, c))
  }

  function CallsOn(p: Pass, calls: seq<Call>): Pass {
    if calls == [] then p else CallOn(CallsOn(p, calls[..|calls| - 1]), calls[|calls| - 1])
  }

  predicate Flagged(p: Pass, fd: int) {
    fd in p.readable || fd in p.writable
  }

  /** select flags only monitored descriptors. */
  ghost predicate Proper(p: Pass) {
    forall x :: Flagged(p, x) ==> x in p.watched && 0 <= x < FD_SETSIZE
  }

  function EventAt(p: Pass, fd: int): PollEvent
    requires fd in p.watched
  {
    PollEvent(fd, (if fd in p.readable then {IN} else {}) + (if fd in p.writable then {OUT} else {}),
      p.watched[fd].client)
  }

  function After(p: Pass, script: nat -> Reaction, log: seq<PollEvent>): Pass {
    if log == [] then p
    else
      var n := |log| - 1;
      CallsOn(After(p, script, log[..n]).(cur := log[n].fd), CallsOf(script(n), log[n].fd))
  }

  /** fd is the next flagged descriptor above the scan. */
  ghost predicate IsNext(p: Pass, fd: int) {
    Flagged(p, fd) && p.cur < fd && forall x | p.cur < x < fd :: !Flagged(p, x)
  }

  ghost predicate Legal(p: Pass, script: nat -> Reaction, log: seq<PollEvent>) {
    forall k {:trigger log[k]} | 0 <= k < |log| :: LegalStep(After(p, script, log[..k]), log[k])
  }

  /** e is what the scan returns next: the least flagged descriptor above it, still monitored. */
  ghost predicate LegalStep(p: Pass, e: PollEvent) {
    e.fd in p.watched && IsNext(p, e.fd) && e == EventAt(p, e.fd) && e.client != NOBODY
  }

  ghost predicate Exhausted(p: Pass) {
    forall fd | Flagged(p, fd) :: fd <= p.cur
  }

  // ---------- what follows for whole passes ----------

  lemma {:induction false} CallsOnlyUnflag(p: Pass, calls: seq<Call>)
    ensures var t := CallsOn(p, calls);
            t.cur == p.cur && t.readable <= p.readable && t.writable <= p.writable
    ensures forall fd | Flagged(p, fd) && Del(fd) !in calls :: Flagged(CallsOn(p, calls), fd)
  {
    if calls != [] {
      CallsOnlyUnflag(p, calls[..|calls| - 1]);
    }
  }

  lemma {:induction false} DeletedIsUnflagged(p: Pass, calls: seq<Call>, fd: int)
    requires Del(fd) in calls
    requires Proper(p)
    ensures !Flagged(CallsOn(p, calls), fd)
  {
    var n := |calls| - 1;
    CallsKeepMonitored(p, calls[..n]);
    if calls[n] != Del(fd) {
      DeletedIsUnflagged(p, calls[..n], fd);
    }
  }

  lemma {:induction false} CallsKeepMonitored(p: Pass, calls: seq<Call>)
    requires Proper(p)
    ensures Proper(CallsOn(p, calls))
  {
    if calls != [] {
      CallsKeepMonitored(p, calls[..|calls| - 1]);
      CallKeepsMonitored(CallsOn(p, calls[..|calls| - 1]), calls[|calls| - 1]);
    }
  }

  lemma CallKeepsMonitored(p: Pass, c: Call)
    requires Proper(p)
    ensures Proper(CallOn(p, c))
  {
    var t := CallOn(p, c);
    forall x | Flagged(t, x) ensures x in t.watched && 0 <= x < FD_SETSIZE {
      assert Flagged(p, x);
    }
  }

  /** Nothing is flagged in t that was not in p, nor anything that r deleted; fd has been passed. */
  ghost predicate Since(p: Pass, fd: int, r: Reaction, t: Pass) {
    && fd <= t.cur && Proper(t)
    && (forall x | Flagged(t, x) :: Flagged(p, x))
    && (forall x | Del(x) in r.calls :: !Flagged(t, x))
  }

  /** The state between two events j < k of a pass. */
  lemma {:induction false} PassFrom(p: Pass, script: nat -> Reaction, log: seq<PollEvent>, j: nat, k: nat)
    requires Legal(p, script, log) && j < k <= |log| && Proper(p)
    ensures Since(p, log[j].fd, script(j), After(p, script, log[..k]))
    decreases k
  {
    hide *;
    var n := k - 1;
    var t := After(p, script, log[..n]);
    AfterStep(p, script, log, n);
    LegalAt(p, script, log, n);
    if j < n {
      PassFrom(p, script, log, j, n);
      PassOnSince(p, log[j].fd, script(j), t, log[n].fd, script(n));
    } else {
      if n > 0 {
        PassFrom(p, script, log, 0, n);
        SinceIsProper(p, log[0].fd, script(0), t);
      } else {
        AfterNothing(p, script, log);
      }
      PassOn(p, t, log[n].fd, script(n));
    }
  }

  lemma AfterNothing(p: Pass, script: nat -> Reaction, log: seq<PollEvent>)
    ensures After(p, script, log[..0]) == p
  {
  }

  lemma SinceIsProper(p: Pass, fd: int, r: Reaction, t: Pass)
    requires Since(p, fd, r, t)
    ensures Proper(t) && forall x | Flagged(t, x) :: Flagged(p, x)
  {
  }

  lemma AfterStep(p: Pass, script: nat -> Reaction, log: seq<PollEvent>, n: nat)
    requires n < |log|
    ensures After(p, script, log[..n + 1]) ==
            CallsOn(After(p, script, log[..n]).(cur := log[n].fd), CallsOf(script(n), log[n].fd))
  {
    assert log[..n + 1][..n] == log[..n] && log[..n + 1][n] == log[n];
  }

  lemma LegalAt(p: Pass, script: nat -> Reaction, log: seq<PollEvent>, k: nat)
    requires Legal(p, script, log) && k < |log|
    ensures LegalStep(After(p, script, log[..k]), log[k]) && After(p, script, log[..k]).cur < log[k].fd
  {
    var e := log[k];
  }

  /** One event and its callback. */
  lemma PassOn(p: Pass, t: Pass, fd: int, r: Reaction)
    requires Proper(t) && forall x | Flagged(t, x) :: Flagged(p, x)
    ensures Since(p, fd, r, CallsOn(t.(cur := fd), CallsOf(r, fd)))
  {
    var calls, s := CallsOf(r, fd), t.(cur := fd);
    assert forall x :: Flagged(s, x) <==> Flagged(t, x);
    CallsOnlyUnflag(s, calls);
    CallsKeepMonitored(s, calls);
    hide CallsOn;
    forall x | Del(x) in r.calls ensures !Flagged(CallsOn(s, calls), x) {
      DeletedIsUnflagged(s, calls, x);
    }
  }

  lemma PassOnSince(p: Pass, fd: int, r: Reaction, t: Pass, next: int, more: Reaction)
    requires Since(p, fd, r, t) && t.cur < next
    ensures Since(p, fd, r, CallsOn(t.(cur := next), CallsOf(more, next)))
  {
    var calls, s := CallsOf(more, next), t.(cur := next);
    assert forall x :: Flagged(s, x) <==> Flagged(t, x);
    CallsOnlyUnflag(s, calls);
    CallsKeepMonitored(s, calls);
  }

  /** Events come in ascending order, so no descriptor comes twice, and one that a callback
      deleted does not come any more, even if it was added again. */
  lemma {:induction false} AscendingAndNeverDeleted(p: Pass, script: nat -> Reaction, log: seq<PollEvent>, j: nat,
      k: nat)
    requires Legal(p, script, log) && j < k < |log|
    requires Proper(p)
    ensures log[j].fd < log[k].fd && Flagged(p, log[k].fd) && Del(log[k].fd) !in script(j).calls
  {
    PassFrom(p, script, log, j, k);
    assert LegalStep(After(p, script, log[..k]), log[k]);
  }

  /** A complete pass returns every descriptor that select flagged, except those a callback deleted
      before the scan reached them. */
  lemma {:induction false} EveryFlagIsReturnedOrDeleted(p: Pass, script: nat -> Reaction, log: seq<PollEvent>, n: nat,
      fd: int)
    requires Legal(p, script, log) && n <= |log| && Flagged(p, fd) && p.cur < fd
    requires forall k | 0 <= k < n :: log[k].fd != fd && Del(fd) !in script(k).calls
    ensures var t := After(p, script, log[..n]); Flagged(t, fd) && t.cur < fd
  {
    if n > 0 {
      var m := n - 1;
      EveryFlagIsReturnedOrDeleted(p, script, log, m, fd);
      assert log[..n][..m] == log[..m] && log[..n][m] == log[m];
      assert LegalStep(After(p, script, log[..m]), log[m]);
      CallsOnlyUnflag(After(p, script, log[..m]).(cur := log[m].fd), CallsOf(script(m), log[m].fd));
    }
  }

  lemma {:induction false} CompletePass(p: Pass, script: nat -> Reaction, log: seq<PollEvent>, fd: int)
    requires Legal(p, script, log) && Exhausted(After(p, script, log)) && Flagged(p, fd) && p.cur < fd
    ensures exists k | 0 <= k < |log| :: log[k].fd == fd || Del(fd) in script(k).calls
  {
    assert log[..|log|] == log;
    if forall k | 0 <= k < |log| :: log[k].fd != fd && Del(fd) !in script(k).calls {
      EveryFlagIsReturnedOrDeleted(p, script, log, |log|, fd);
    }
  }

  lemma {:induction false} FlaggedIsUnchanged(p: Pass, calls: seq<Call>, fd: int)
    requires Flagged(CallsOn(p, calls), fd)
    ensures fd in CallsOn(p, calls).readable <==> fd in p.readable
    ensures fd in CallsOn(p, calls).writable <==> fd in p.writable
  {
    if calls != [] {
      var n := |calls| - 1;
      var t := CallsOn(p, calls[..n]);
      assert Flagged(t, fd) && (fd in CallOn(t, calls[n]).readable <==> fd in t.readable) &&
             (fd in CallOn(t, calls[n]).writable <==> fd in t.writable);
      hide CallOn;
      FlaggedIsUnchanged(p, calls[..n], fd);
    }
  }

  lemma {:induction false} FlaggedAsAtFirst(p: Pass, script: nat -> Reaction, log: seq<PollEvent>, n: nat, fd: int)
    requires n <= |log| && Flagged(After(p, script, log[..n]), fd)
    ensures var t := After(p, script, log[..n]);
            (fd in t.readable <==> fd in p.readable) && (fd in t.writable <==> fd in p.writable)
  {
    if n > 0 {
      var m := n - 1;
      AfterStep(p, script, log, m);
      var t := After(p, script, log[..m]).(cur := log[m].fd);
      FlaggedIsUnchanged(t, CallsOf(script(m), log[m].fd), fd);
      hide After;
      FlaggedAsAtFirst(p, script, log, m, fd);
    } else {
      AfterNothing(p, script, log);
    }
  }

  /** An event says exactly what select said of its descriptor, whatever callbacks have done since to
      its mask, and goes to the client that is monitored by then. */
  lemma {:induction false} EventSaysWhatSelectSaid(p: Pass, script: nat -> Reaction, log: seq<PollEvent>, k: nat)
    requires Legal(p, script, log) && k < |log|
    ensures var e, t := log[k], After(p, script, log[..k]);
            (IN in e.revents <==> e.fd in p.readable) && (OUT in e.revents <==> e.fd in p.writable) &&
            e.revents <= {IN, OUT} && e.revents != {} && e.fd in t.watched && e.client == t.watched[e.fd].client
  {
    LegalAt(p, script, log, k);
    FlaggedAsAtFirst(p, script, log, k, log[k].fd);
    hide After;
  }

  // ---------- the masks select can hold ----------

  lemma OneCallTrims(p: Pass, w: map<int, Watch>, c: Call, fd: int)
    requires 0 <= fd < FD_SETSIZE && (fd in p.watched <==> fd in w)
    requires fd in w ==> p.watched[fd].client == w[fd].client && p.watched[fd].mask == w[fd].mask * {IN, OUT}
    ensures var (a, b) := (CallOn(p, c).watched, ApplyCall(w, c));
            (fd in a <==> fd in b) &&
            (fd in b ==> a[fd].client == b[fd].client && a[fd].mask == b[fd].mask * {IN, OUT})
  {
  }

  /** Over any run of calls, what is monitored is what any poller would monitor, with reading and
      writing, of every mask, and nothing else. */
  lemma {:induction false} SelectTrimsMasks(p: Pass, w: map<int, Watch>, calls: seq<Call>, fd: int)
    requires 0 <= fd < FD_SETSIZE && (fd in p.watched <==> fd in w)
    requires fd in w ==> p.watched[fd].client == w[fd].client && p.watched[fd].mask == w[fd].mask * {IN, OUT}
    ensures var (a, b) := (CallsOn(p, calls).watched, ApplyCalls(w, calls));
            (fd in a <==> fd in b) &&
            (fd in b ==> a[fd].client == b[fd].client && a[fd].mask == b[fd].mask * {IN, OUT})
  {
    if calls != [] {
      var n := |calls| - 1;
      SelectTrimsMasks(p, w, calls[..n], fd);
      OneCallTrims(CallsOn(p, calls[..n]), ApplyCalls(w, calls[..n]), calls[n], fd);
      hide CallOn, ApplyCall;
    }
  }

  /** Over any run of calls, a bit is in the mask of a monitored descriptor if and only if select knows
      it and the last call that settled it put it there. */
  lemma {:induction false} SelectMaskIsAsLastSettled(calls: seq<Call>, fd: int, x: int)
    requires 0 <= fd < FD_SETSIZE
    ensures var a := CallsOn(Pass(map[], {}, {}, -1), calls).watched;
            fd in a ==>
              (x in a[fd].mask <==>
                 (x == IN || x == OUT) &&
                 exists k | 0 <= k < |calls| :: IsLast(Settling(map[], calls, fd, x), k) && Gives(calls[k], x))
  {
    SelectTrimsMasks(Pass(map[], {}, {}, -1), map[], calls, fd);
    if fd in ApplyCalls(map[], calls) {
      MaskIsAsLastSettled(map[], calls, fd, x);
    }
    hide CallsOn, ApplyCalls, IsLast, Gives;
  }
}
