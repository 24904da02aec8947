/** Splitting a byte stream into lines.  The reference definition is two passes over the whole
    stream: drop every line feed that directly follows a carriage return (or another dropped line
    feed), then cut at each remaining carriage return or line feed.  The reader works byte by byte
    and may stop and resume anywhere. */
module LineSplit {
  newtype byte = x: int | 0 <= x < 256

  const CR: byte := 13
  const LF: byte := 10

  // ---------- reference definition ----------

  function DropFeeds(s: seq<byte>, afterReturn: bool): seq<byte> {
    if s == [] then []
    else if s[0] == LF && afterReturn then DropFeeds(s[1..], true)
    else [s[0]] + DropFeeds(s[1..], s[0] == CR)
  }

  datatype Cut = Cut(lines: seq<seq<byte>>, rest: seq<byte>)

  function CutLines(s: seq<byte>): Cut {
    if s == [] then Cut([], [])
    else
      var c := CutLines(s[..|s| - 1]);
      var b := s[|s| - 1];
      if b == CR || b == LF then Cut(c.lines + [c.rest], []) else Cut(c.lines, c.rest + [b])
  }

  /** The lines of a whole stream. */
  function Lines(s: seq<byte>): Cut {
    CutLines(DropFeeds(s, false))
  }

  ghost predicate Fits(c: Cut, maxlen: int) {
    |c.rest| < maxlen && forall l | l in c.lines :: |l| < maxlen
  }

  // ---------- the resumable reader ----------

  /** What is kept between two calls of readline: the unfinished line and m_lastchar. */
  datatype Partial = Partial(line: seq<byte>, last: byte)

  datatype Outcome = Line(line: seq<byte>) | WouldBlock | NoSpace

  predicate Ends(p: Partial, c: byte) {
    c == CR || (c == LF && p.last != CR)
  }

  /** A dropped line feed leaves m_lastchar alone, so a whole run of them is dropped. */
  function Next(p: Partial, c: byte): Partial {
    if Ends(p, c) then Partial([], c)
    else if c == LF then p
    else Partial(p.line + [c], c)
  }

  datatype ReadResult = ReadResult(outcome: Outcome, after: Partial, held: seq<byte>)

  /** The loop of readline over the bytes held in the buffer. */
  function ReadLoop(p: Partial, held: seq<byte>, maxlen: int): ReadResult
    decreases |held|
  {
    if held == [] || |p.line| >= maxlen then
      ReadResult(if |p.line| == maxlen then NoSpace else WouldBlock, p, held)
    else if Ends(p, held[0]) then
      ReadResult(Line(p.line), Next(p, held[0]), held[1..])
    else
      ReadLoop(Next(p, held[0]), held[1..], maxlen)
  }

  function ReadLine(p: Partial, held: seq<byte>, maxlen: int): ReadResult {
    if held == [] then ReadResult(WouldBlock, p, held) else ReadLoop(p, held, maxlen)
  }

  // ---------- sessions: bytes arrive in any pieces, readline is called at any time ----------

  datatype Event = Arrive(bytes: seq<byte>) | Read

  datatype Session = Session(p: Partial, held: seq<byte>, arrived: seq<byte>, outcomes: seq<Outcome>)

  const START := Session(Partial([], 0), [], [], [])

  function Step(s: Session, e: Event, maxlen: int): Session {
    match e
    case Arrive(b) => s.(held := s.held + b, arrived := s.arrived + b)
    case Read =>
      var r := ReadLine(s.p, s.held, maxlen);
      s.(p := r.after, held := r.held, outcomes := s.outcomes + [r.outcome])
  }

  function Run(events: seq<Event>, maxlen: int): Session {
    if events == [] then START else Step(Run(events[..|events| - 1], maxlen), events[|events| - 1], maxlen)
  }

  function LinesOf(outcomes: seq<Outcome>): seq<seq<byte>> {
    if outcomes == [] then []
    else
      var ls, o := LinesOf(outcomes[..|outcomes| - 1]), outcomes[|outcomes| - 1];
      if o.Line? then ls + [o.line] else ls
  }

  // ---------- the reader computes the reference definition ----------

  /** p and lines are what the reference makes of the stream s. */
  ghost predicate Agrees(s: seq<byte>, p: Partial, lines: seq<seq<byte>>) {
    Lines(s) == Cut(lines, p.line) && (p.last == CR <==> AfterReturn(s, false))
  }

  /** Whether a line feed after s would be dropped. */
  function AfterReturn(s: seq<byte>, before: bool): bool {
    if s == [] then before
    else if s[|s| - 1] == LF then AfterReturn(s[..|s| - 1], before)
    else s[|s| - 1] == CR
  }

  lemma {:induction false} DropFeedsAppend(s: seq<byte>, c: byte, before: bool)
    ensures DropFeeds(s + [c], before) ==
            DropFeeds(s, before) + if c == LF && AfterReturn(s, before) then [] else [c]
  {
    if s == [] {
      assert s + [c] == [c] && [c][1..] == [];
    } else {
      assert (s + [c])[1..] == s[1..] + [c] && (s + [c])[0] == s[0];
      var now := if s[0] == LF && before then true else s[0] == CR;
      DropFeedsAppend(s[1..], c, now);
      AfterReturnSkips(s, before);
    }
  }

  lemma {:induction false} AfterReturnSkips(s: seq<byte>, before: bool)
    requires s != []
    ensures AfterReturn(s, before) == AfterReturn(s[1..], if s[0] == LF then before else s[0] == CR)
  {
    if |s| > 1 {
      var n := |s| - 1;
      assert s[1..][..n - 1] == s[..n][1..] && s[1..][n - 1] == s[n];
      AfterReturnSkips(s[..n], before);
    }
  }

  lemma {:induction false} AgreesNext(s: seq<byte>, p: Partial, lines: seq<seq<byte>>, c: byte)
    requires Agrees(s, p, lines)
    ensures Agrees(s + [c], Next(p, c), if Ends(p, c) then lines + [p.line] else lines)
  {
    DropFeedsAppend(s, c, false);
    assert (s + [c])[..|s|] == s;
    var d := DropFeeds(s, false);
    assert (d + [c])[..|d|] == d && d + [] == d;
  }

  /** What one call of readline has made of n more bytes. */
  ghost predicate ReadTo(s: seq<byte>, lines: seq<seq<byte>>, held: seq<byte>, maxlen: int, n: nat, r: ReadResult) {
    && n <= |held| && r.held == held[n..] && |r.after.line| <= maxlen
    && Agrees(s + held[..n], r.after, if r.outcome.Line? then lines + [r.outcome.line] else lines)
    && (r.outcome.Line? ==> |r.outcome.line| < maxlen && r.after.line == [])
    && (r.outcome.WouldBlock? ==> r.held == [] && |r.after.line| < maxlen)
    && (r.outcome.NoSpace? <==> |r.after.line| == maxlen && !r.outcome.Line?)
  }

  lemma ReadToMore(s: seq<byte>, lines: seq<seq<byte>>, held: seq<byte>, maxlen: int, n: nat, r: ReadResult)
    requires held != [] && ReadTo(s + [held[0]], lines, held[1..], maxlen, n, r)
    ensures ReadTo(s, lines, held, maxlen, n + 1, r)
  {
    hide Agrees;
    assert s + [held[0]] + held[1..][..n] == s + held[..n + 1];
    assert held[1..][n..] == held[n + 1..];
  }

  /** One call of readline hands over at most one line, and reads on from where the last stopped. */
  lemma {:induction false} ReadLoopAgrees(s: seq<byte>, p: Partial, lines: seq<seq<byte>>, held: seq<byte>, maxlen: int)
      returns (n: nat)
    requires Agrees(s, p, lines) && |p.line| <= maxlen
    ensures ReadTo(s, lines, held, maxlen, n, ReadLoop(p, held, maxlen))
    decreases |held|
  {
    hide Agrees;
    if held == [] || |p.line| >= maxlen {
      n := 0;
      assert s + held[..0] == s;
    } else {
      AgreesNext(s, p, lines, held[0]);
      if Ends(p, held[0]) {
        n := 1;
        assert held[..1] == [held[0]];
      } else {
        hide ReadTo;
        n := ReadLoopAgrees(s + [held[0]], Next(p, held[0]), lines, held[1..], maxlen);
        ReadToMore(s, lines, held, maxlen, n, ReadLoop(p, held, maxlen));
        n := n + 1;
      }
    }
  }

  /** What holds after every event of every session. */
  ghost predicate Consistent(s: Session, maxlen: int) {
    var n := |s.arrived| - |s.held|;
    && 0 <= n && s.held == s.arrived[n..]
    && Agrees(s.arrived[..n], s.p, LinesOf(s.outcomes))
    && |s.p.line| <= maxlen && (NoSpace in s.outcomes <==> |s.p.line| == maxlen)
    && (forall l | l in LinesOf(s.outcomes) :: |l| < maxlen)
  }

  lemma LinesOfAppend(outcomes: seq<Outcome>, o: Outcome)
    ensures LinesOf(outcomes + [o]) == LinesOf(outcomes) + if o.Line? then [o.line] else []
  {
    assert (outcomes + [o])[..|outcomes|] == outcomes;
  }

  lemma StepConsistent(s: Session, e: Event, maxlen: int)
    requires 1 <= maxlen && Consistent(s, maxlen)
    ensures Consistent(Step(s, e, maxlen), maxlen)
  {
    var t, n := Step(s, e, maxlen), |s.arrived| - |s.held|;
    match e
    case Arrive(b) =>
      assert t.arrived[..n] == s.arrived[..n];
    case Read =>
      LinesOfAppend(s.outcomes, ReadLine(s.p, s.held, maxlen).outcome);
      if s.held != [] {
        ReadConsistent(s, maxlen);
      }
  }

  lemma TakeMore<T>(s: seq<T>, n: nat, t: seq<T>, m: nat)
    requires n <= |s| && t == s[n..] && m <= |t|
    ensures s[..n] + t[..m] == s[..n + m] && t[m..] == s[n + m..]
  {
  }

  lemma ReadConsistent(s: Session, maxlen: int)
    requires 1 <= maxlen && Consistent(s, maxlen) && s.held != []
    ensures Consistent(Step(s, Read, maxlen), maxlen)
  {
    var n, lines := |s.arrived| - |s.held|, LinesOf(s.outcomes);
    var r := ReadLoop(s.p, s.held, maxlen);
    assert |s.p.line| == maxlen ==> r == ReadResult(NoSpace, s.p, s.held);
    hide Agrees, ReadLoop, ReadTo;
    var m := ReadLoopAgrees(s.arrived[..n], s.p, lines, s.held, maxlen);
    ConsistentAfterRead(s, n, m, r, maxlen);
  }

  lemma ConsistentAfterRead(s: Session, n: nat, m: nat, r: ReadResult, maxlen: int)
    requires 1 <= maxlen && s.held != [] && r == ReadLoop(s.p, s.held, maxlen)
    requires n <= |s.arrived| && s.held == s.arrived[n..]
    requires ReadTo(s.arrived[..n], LinesOf(s.outcomes), s.held, maxlen, m, r)
    requires NoSpace in s.outcomes ==> r.outcome == NoSpace
    requires forall l | l in LinesOf(s.outcomes) :: |l| < maxlen
    ensures Consistent(Step(s, Read, maxlen), maxlen)
  {
    hide Agrees, LinesOf, ReadLoop;
    TakeMore(s.arrived, n, s.held, m);
    LinesOfAppend(s.outcomes, r.outcome);
    var lines := LinesOf(s.outcomes);
    assert lines + [] == lines;
  }

  lemma {:induction false} RunConsistent(events: seq<Event>, maxlen: int)
    requires 1 <= maxlen
    ensures Consistent(Run(events, maxlen), maxlen)
  {
    if events != [] {
      RunConsistent(events[..|events| - 1], maxlen);
      StepConsistent(Run(events[..|events| - 1], maxlen), events[|events| - 1], maxlen);
    }
  }

  lemma {:induction false} PrefixFits(s: seq<byte>, n: nat, maxlen: int)
    requires n <= |s| && Fits(Lines(s), maxlen)
    ensures Fits(Lines(s[..n]), maxlen)
    decreases |s|
  {
    if n < |s| {
      var k := |s| - 1;
      assert s == s[..k] + [s[k]] && s[..k][..n] == s[..n];
      DropFeedsAppend(s[..k], s[k], false);
      var d := DropFeeds(s[..k], false);
      assert d + [] == d && (d + [s[k]])[..|d|] == d;
      var c := CutLines(d);
      assert forall l | l in c.lines :: l in (c.lines + [c.rest]);
      assert c.rest in (c.lines + [c.rest]);
      PrefixFits(s[..k], n, maxlen);
    } else {
      assert s[..n] == s;
    }
  }

  /** However the bytes arrive and however often readline stops early, once the buffer is empty
      the lines handed over are the lines of the whole stream, and what is left is its last,
      unfinished line.  The room in linebuf never runs out if and only if every line fits. */
  lemma {:induction false} AnySessionSplitsTheStream(events: seq<Event>, maxlen: int)
    requires 1 <= maxlen
    ensures var s := Run(events, maxlen);
            (s.held == [] ==> Lines(s.arrived) == Cut(LinesOf(s.outcomes), s.p.line)) &&
            (Fits(Lines(s.arrived), maxlen) ==> NoSpace !in s.outcomes) &&
            (s.held == [] && NoSpace !in s.outcomes ==> Fits(Lines(s.arrived), maxlen))
  {
    RunConsistent(events, maxlen);
    var s := Run(events, maxlen);
    var n := |s.arrived| - |s.held|;
    if Fits(Lines(s.arrived), maxlen) {
      PrefixFits(s.arrived, n, maxlen);
    }
    if s.held == [] {
      assert s.arrived[..n] == s.arrived;
    }
  }

  /** Two sessions over the same stream, cut into pieces and polled in any two ways. */
  lemma {:induction false} PiecesDoNotMatter(a: seq<Event>, b: seq<Event>, maxlen: int)
    requires 1 <= maxlen && Run(a, maxlen).held == [] && Run(b, maxlen).held == []
    requires Run(a, maxlen).arrived == Run(b, maxlen).arrived
    ensures LinesOf(Run(a, maxlen).outcomes) == LinesOf(Run(b, maxlen).outcomes)
    ensures Run(a, maxlen).p.line == Run(b, maxlen).p.line
  {
    AnySessionSplitsTheStream(a, maxlen);
    AnySessionSplitsTheStream(b, maxlen);
  }

  /** Reading on after every "would block" empties the buffer. */
  lemma {:induction false} WouldBlockMeansEmpty(events: seq<Event>, maxlen: int)
    requires 1 <= maxlen && ReadLine(Run(events, maxlen).p, Run(events, maxlen).held, maxlen).outcome == WouldBlock
    ensures Run(events + [Read], maxlen).held == []
  {
    RunConsistent(events, maxlen);
    var s := Run(events, maxlen);
    assert (events + [Read])[..|events|] == events;
    if s.held != [] {
      var n := |s.arrived| - |s.held|;
      var m := ReadLoopAgrees(s.arrived[..n], s.p, LinesOf(s.outcomes), s.held, maxlen);
    }
  }
}
