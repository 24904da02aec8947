/** Reading numbers off a reply line, as atoi and sscanf("%d,...") do, and the host-port form of
    section 4.1.2 of RFC 959. */
module HostPort {

  datatype Option<T> = None | Some(value: T)

  predicate IsDigit(c: char) {
    '0' <= c <= '9'
  }

  predicate IsSpace(c: char) {
    c == ' ' || '\t' <= c <= '\r'
  }

  function DigitValue(c: char): int
    requires IsDigit(c)
  {
    c as int - '0' as int
  }

  function SkipSpaces(s: string): string {
    if s != [] && IsSpace(s[0]) then SkipSpaces(s[1..]) else s
  }

  datatype Scan = Scan(value: int, rest: string)

  /** The digits at the start of s, read onto the number acc. */
  function ScanDigits(s: string, acc: int): Scan {
    if s != [] && IsDigit(s[0]) then ScanDigits(s[1..], 10 * acc + DigitValue(s[0])) else Scan(acc, s)
  }

  function ScanUnsigned(s: string): Option<Scan> {
    if s != [] && IsDigit(s[0]) then Some(ScanDigits(s, 0)) else None
  }

  /** What %d reads: white space, an optional sign, and at least one digit. */
  function ScanInt(s: string): Option<Scan> {
    var t := SkipSpaces(s);
    if t != [] && (t[0] == '-' || t[0] == '+') then
      match ScanUnsigned(t[1..])
      case None => None
      case Some(r) => Some(Scan(if t[0] == '-' then -r.value else r.value, r.rest))
    else ScanUnsigned(t)
  }

  function Atoi(s: string): int {
    match ScanInt(s)
    case None => 0
    case Some(r) => r.value
  }

  /** n numbers with a comma between each two. */
  function ScanList(s: string, n: nat): (l: Option<seq<int>>)
    ensures l.Some? ==> |l.value| == n
    decreases n
  {
    if n == 0 then Some([])
    else match ScanInt(s)
      case None => None
      case Some(r) =>
        if n == 1 then Some([r.value])
        else if r.rest == [] || r.rest[0] != ',' then None
        else match ScanList(r.rest[1..], n - 1)
          case None => None
          case Some(vs) => Some([r.value] + vs)
  }

  /** The position of the first comma, or the length of s. */
  function FindComma(s: string): (i: nat)
    ensures i <= |s| && ',' !in s[..i] && (i < |s| ==> s[i] == ',')
  {
    if s == [] || s[0] == ',' then 0
    else
      var i := 1 + FindComma(s[1..]);
      assert s[..i] == [s[0]] + s[1..][..i - 1];
      i
  }

  /** Back over the digits that end at i. */
  function StepBack(s: string, i: nat): (j: nat)
    requires i <= |s|
    ensures j <= i && (j > 0 ==> !IsDigit(s[j - 1])) && forall k | j <= k < i :: IsDigit(s[k])
  {
    if i > 0 && IsDigit(s[i - 1]) then StepBack(s, i - 1) else i
  }

  /** The six numbers of a reply to PASV: from the digits before the first comma on. */
  function ParseSix(line: string): (r: Option<seq<int>>)
    ensures r.Some? ==> |r.value| == 6
  {
    var i := FindComma(line);
    if i == |line| then None
    else ScanList(line[StepBack(line, i)..], 6)
  }

  // ---------- printing ----------

  function DigitChar(d: int): (c: char)
    requires 0 <= d < 10
    ensures IsDigit(c) && DigitValue(c) == d
  {
    '0' + d as char
  }

  function Decimal(n: nat): (s: string)
    ensures s != [] && forall i | 0 <= i < |s| :: IsDigit(s[i])
  {
    if n < 10 then [DigitChar(n)] else Decimal(n / 10) + [DigitChar(n % 10)]
  }

  function PrintList(vs: seq<nat>): string {
    if vs == [] then ""
    else if |vs| == 1 then Decimal(vs[0])
    else Decimal(vs[0]) + "," + PrintList(vs[1..])
  }

  predicate StartsWithDigit(s: string) {
    s != [] && IsDigit(s[0])
  }

  lemma {:induction false} ScanDigitsSplit(a: string, b: string, acc: int)
    requires forall i | 0 <= i < |a| :: IsDigit(a[i])
    ensures ScanDigits(a + b, acc) == ScanDigits(b, ScanDigits(a, acc).value)
  {
    if a == [] {
      assert a + b == b;
    } else {
      assert (a + b)[1..] == a[1..] + b;
      ScanDigitsSplit(a[1..], b, 10 * acc + DigitValue(a[0]));
    }
  }

  lemma {:induction false} ScanDecimal(n: nat)
    ensures ScanDigits(Decimal(n), 0).value == n
  {
    if n >= 10 {
      ScanDecimal(n / 10);
      ScanDigitsSplit(Decimal(n / 10), [DigitChar(n % 10)], 0);
    }
  }

  /** A printed number is read back, up to where it ends. */
  lemma {:induction false} ScanPrinted(n: nat, rest: string)
    requires !StartsWithDigit(rest)
    ensures ScanInt(Decimal(n) + rest) == Some(Scan(n, rest))
  {
    var s := Decimal(n) + rest;
    assert s[0] == Decimal(n)[0];
    ScanDecimal(n);
    ScanDigitsSplit(Decimal(n), rest, 0);
  }

  lemma PrintListUnfolds(vs: seq<nat>, rest: string)
    requires |vs| > 1
    ensures PrintList(vs) + rest == Decimal(vs[0]) + ("," + (PrintList(vs[1..]) + rest))
  {
    Regroup(Decimal(vs[0]), ",", PrintList(vs[1..]), rest);
    hide Decimal;
  }

  lemma Regroup(a: string, b: string, c: string, d: string)
    ensures a + b + c + d == a + (b + (c + d))
  {
  }

  lemma {:induction false} ScanPrintedList(vs: seq<nat>, rest: string)
    requires vs != [] && !StartsWithDigit(rest)
    ensures ScanList(PrintList(vs) + rest, |vs|) == Some(vs)
  {
    if |vs| == 1 {
      ScanPrinted(vs[0], rest);
      assert [vs[0]] == vs;
    } else {
      var list := PrintList(vs[1..]) + rest;
      var more := "," + list;
      PrintListUnfolds(vs, rest);
      ScanPrinted(vs[0], more);
      assert more[1..] == list;
      ScanPrintedList(vs[1..], rest);
      assert [vs[0]] + vs[1..] == vs;
    }
  }

  lemma {:induction false} FirstComma(a: string, b: string)
    requires ',' !in a && b != [] && b[0] == ','
    ensures FindComma(a + b) == |a|
  {
    var i := FindComma(a + b);
    assert (a + b)[|a|] == ',' && forall k | 0 <= k < |a| :: (a + b)[k] == a[k];
  }

  lemma {:induction false} StepBackStops(s: string, i: nat, j: nat)
    requires j <= i <= |s| && (j > 0 ==> !IsDigit(s[j - 1])) && forall k | j <= k < i :: IsDigit(s[k])
    ensures StepBack(s, i) == j
    decreases i
  {
    if j < i {
      StepBackStops(s, i - 1, j);
    }
  }

  lemma LocateDigits(before: string, d: string, tail: string)
    requires ',' !in before && (before != [] ==> !IsDigit(before[|before| - 1]))
    requires (forall k | 0 <= k < |d| :: IsDigit(d[k])) && tail != [] && tail[0] == ','
    ensures var line := before + (d + tail);
            FindComma(line) == |before + d| < |line| && StepBack(line, |before + d|) == |before| &&
            line[|before|..] == d + tail
  {
    var line := before + (d + tail);
    Slices(before, d, tail);
    DigitsAreNoCommas(before, d);
    hide *;
    FirstComma(before + d, tail);
    StepBackStops(line, |before + d|, |before|);
  }

  lemma DigitsAreNoCommas(before: string, d: string)
    requires ',' !in before && forall k | 0 <= k < |d| :: IsDigit(d[k])
    ensures ',' !in before + d
  {
  }

  lemma Slices(before: string, d: string, tail: string)
    ensures var line := before + (d + tail);
            line == (before + d) + tail && line[|before|..] == d + tail &&
            (before != [] ==> line[|before| - 1] == before[|before| - 1]) &&
            forall k | |before| <= k < |before + d| :: line[k] == d[k - |before|]
  {
  }

  /** Any six numbers printed in host-port form are found and read back, after any text without a
      comma that does not end in a digit and before any text that does not start with one: with or
      without parentheses (section 4.1.2.6 of RFC 1123). */
  lemma {:induction false} ParsePrinted(before: string, vs: seq<nat>, rest: string)
    requires |vs| == 6 && ',' !in before && !StartsWithDigit(rest)
    requires before != [] ==> !IsDigit(before[|before| - 1])
    ensures ParseSix(before + (PrintList(vs) + rest)) == Some(vs)
  {
    PrintListUnfolds(vs, rest);
    ScanPrintedList(vs, rest);
    LocateDigits(before, Decimal(vs[0]), "," + (PrintList(vs[1..]) + rest));
  }

  // ---------- exactly which replies are read, and as what ----------

  predicate AllDigits(s: string) {
    forall i | 0 <= i < |s| :: IsDigit(s[i])
  }

  predicate AllSpaces(s: string) {
    forall i | 0 <= i < |s| :: IsSpace(s[i])
  }

  /** What %d takes: white space, a sign or none, and digits. */
  datatype Numeral = Numeral(spaces: string, sign: string, digits: string)

  predicate Proper(n: Numeral) {
    AllSpaces(n.spaces) && (n.sign == "" || n.sign == "+" || n.sign == "-") && n.digits != "" && AllDigits(n.digits)
  }

  function Text(n: Numeral): string {
    n.spaces + (n.sign + n.digits)
  }

  /** The number a string of digits stands for. */
  function Value(digits: string): int
    requires AllDigits(digits)
  {
    if digits == "" then 0
    else 10 * Value(digits[..|digits| - 1]) + DigitValue(digits[|digits| - 1])
  }

  function ValueOf(n: Numeral): int
    requires Proper(n)
  {
    if n.sign == "-" then -Value(n.digits) else Value(n.digits)
  }

  /** Numerals with a comma between each two. */
  function Joined(ns: seq<Numeral>): string {
    if ns == [] then ""
    else if |ns| == 1 then Text(ns[0])
    else Text(ns[0]) + "," + Joined(ns[1..])
  }

  /** text starts with the numerals ns, which stand for v; what follows is no digit. */
  ghost predicate Reads(text: string, ns: seq<Numeral>, tail: string, v: seq<int>) {
    && text == Joined(ns) + tail && !StartsWithDigit(tail) && |ns| == |v|
    && forall i | 0 <= i < |ns| :: Proper(ns[i]) && v[i] == ValueOf(ns[i])
  }

  lemma {:induction false} SkipAll(spaces: string, t: string)
    requires AllSpaces(spaces) && (t == "" || !IsSpace(t[0]))
    ensures SkipSpaces(spaces + t) == t
  {
    if spaces == "" {
      assert spaces + t == t;
    } else {
      assert (spaces + t)[1..] == spaces[1..] + t;
      SkipAll(spaces[1..], t);
    }
  }

  lemma {:induction false} Skipped(s: string) returns (spaces: string)
    ensures AllSpaces(spaces) && s == spaces + SkipSpaces(s)
  {
    if s != "" && IsSpace(s[0]) {
      var rest := Skipped(s[1..]);
      spaces := [s[0]] + rest;
      assert s == [s[0]] + s[1..];
      assert spaces + SkipSpaces(s) == [s[0]] + (rest + SkipSpaces(s[1..]));
    } else {
      spaces := "";
    }
  }

  lemma {:induction false} DigitsAreValue(digits: string)
    requires AllDigits(digits)
    ensures ScanDigits(digits, 0).value == Value(digits)
  {
    if digits != "" {
      var n := |digits| - 1;
      assert digits == digits[..n] + [digits[n]];
      DigitsAreValue(digits[..n]);
      ScanDigitsSplit(digits[..n], [digits[n]], 0);
    }
  }

  lemma ScanAllDigits(digits: string, rest: string)
    requires AllDigits(digits) && digits != "" && !StartsWithDigit(rest)
    ensures ScanUnsigned(digits + rest) == Some(Scan(Value(digits), rest))
  {
    DigitsAreValue(digits);
    ScanDigitsSplit(digits, rest, 0);
    assert (digits + rest)[0] == digits[0];
  }

  lemma {:induction false} ScannedDigits(s: string, acc: int) returns (digits: string)
    ensures AllDigits(digits) && s == digits + ScanDigits(s, acc).rest && !StartsWithDigit(ScanDigits(s, acc).rest)
    ensures StartsWithDigit(s) ==> digits != ""
  {
    if StartsWithDigit(s) {
      var more := ScannedDigits(s[1..], 10 * acc + DigitValue(s[0]));
      digits := [s[0]] + more;
      assert s == [s[0]] + s[1..];
      assert digits + ScanDigits(s, acc).rest == [s[0]] + (more + ScanDigits(s, acc).rest);
    } else {
      digits := "";
    }
  }

  /** A numeral is read up to where it ends ... */
  lemma {:induction false} ScanNumeral(n: Numeral, rest: string)
    requires Proper(n) && !StartsWithDigit(rest)
    ensures ScanInt(Text(n) + rest) == Some(Scan(ValueOf(n), rest))
  {
    var t := n.sign + (n.digits + rest);
    assert Text(n) + rest == n.spaces + t;
    assert t[0] == if n.sign == "" then n.digits[0] else n.sign[0];
    SkipAll(n.spaces, t);
    ScanAllDigits(n.digits, rest);
    if n.sign == "" {
      assert t == n.digits + rest;
    } else {
      assert t[1..] == n.digits + rest;
    }
    hide SkipSpaces, ScanUnsigned, Value, AllDigits, AllSpaces;
  }

  function SignOf(t: string): string {
    if t != "" && (t[0] == '-' || t[0] == '+') then [t[0]] else ""
  }

  /** The reading of a number, past its sign. */
  lemma ScanIntSplits(s: string)
    ensures var t := SkipSpaces(s);
            var u := t[|SignOf(t)|..];
            t == SignOf(t) + u && (SignOf(t) == "" || SignOf(t) == "+" || SignOf(t) == "-") &&
            ScanInt(s) ==
            if !StartsWithDigit(u) then None
            else
              var r := ScanDigits(u, 0);
              Some(Scan(if SignOf(t) == "-" then -r.value else r.value, r.rest))
  {
    hide SkipSpaces, ScanDigits;
    var t := SkipSpaces(s);
    if SignOf(t) != "" {
      assert t == [t[0]] + t[1..];
    }
  }

  lemma UnsignedRest(u: string)
    requires StartsWithDigit(u)
    ensures ScanUnsigned(u) == Some(ScanDigits(u, 0))
  {
  }

  /** ... and whatever is read is a numeral. */
  lemma {:induction false} ScannedNumeral(s: string) returns (n: Numeral)
    requires ScanInt(s).Some?
    ensures Proper(n) && s == Text(n) + ScanInt(s).value.rest && ValueOf(n) == ScanInt(s).value.value
    ensures !StartsWithDigit(ScanInt(s).value.rest)
  {
    hide SkipSpaces, ScanDigits, ScanInt, ScanUnsigned, SignOf, AllSpaces, AllDigits, Value, StartsWithDigit;
    ScanIntSplits(s);
    var spaces := Skipped(s);
    var t := SkipSpaces(s);
    var u := t[|SignOf(t)|..];
    UnsignedRest(u);
    var digits := ScannedDigits(u, 0);
    var rest := ScanDigits(u, 0).rest;
    ScanAllDigits(digits, rest);
    n := Numeral(spaces, SignOf(t), digits);
    RegroupText(n, rest);
  }

  lemma RegroupText(n: Numeral, rest: string)
    ensures Text(n) + rest == n.spaces + (n.sign + (n.digits + rest))
  {
    assert n.spaces + (n.sign + n.digits) + rest == n.spaces + ((n.sign + n.digits) + rest);
    assert (n.sign + n.digits) + rest == n.sign + (n.digits + rest);
  }

  lemma Unjoin(ns: seq<Numeral>, tail: string)
    requires |ns| > 1
    ensures Joined(ns) + tail == Text(ns[0]) + ("," + (Joined(ns[1..]) + tail))
  {
    Regroup(Text(ns[0]), ",", Joined(ns[1..]), tail);
    hide Text;
  }

  lemma {:induction false} ListIsRead(text: string, ns: seq<Numeral>, tail: string, v: seq<int>)
    requires Reads(text, ns, tail, v) && ns != []
    ensures ScanList(text, |ns|) == Some(v)
    decreases |ns|
  {
    if |ns| == 1 {
      ScanNumeral(ns[0], tail);
      assert v == [v[0]];
    } else {
      var more := Joined(ns[1..]) + tail;
      Unjoin(ns, tail);
      ScanNumeral(ns[0], "," + more);
      assert ("," + more)[1..] == more;
      assert Reads(more, ns[1..], tail, v[1..]);
      ListIsRead(more, ns[1..], tail, v[1..]);
      assert v == [v[0]] + v[1..];
    }
  }

  lemma {:induction false} ReadIsList(text: string, n: nat) returns (ns: seq<Numeral>, tail: string)
    requires n > 0 && ScanList(text, n).Some?
    ensures |ns| == n && Reads(text, ns, tail, ScanList(text, n).value)
    decreases n
  {
    var first := ScannedNumeral(text);
    var r := ScanInt(text).value;
    if n == 1 {
      ns, tail := [first], r.rest;
    } else {
      var more;
      more, tail := ReadIsList(r.rest[1..], n - 1);
      ns := [first] + more;
      assert ns[1..] == more;
      assert r.rest == "," + r.rest[1..];
      Unjoin(ns, tail);
    }
  }

  /** text starts with digits, or none, and a comma. */
  ghost predicate DigitsThenComma(text: string) {
    exists k | 0 <= k < |text| :: text[k] == ',' && AllDigits(text[..k])
  }

  /** text is line from the digits before the first comma on. */
  ghost predicate FromFirstComma(line: string, before: string, text: string) {
    line == before + text && ',' !in before && (before != "" ==> !IsDigit(before[|before| - 1])) &&
    DigitsThenComma(text)
  }

  lemma FromFirstCommaIs(line: string, before: string, text: string)
    requires FromFirstComma(line, before, text)
    ensures var i := FindComma(line);
            i < |line| && StepBack(line, i) == |before| && line[|before|..] == text
  {
    var k :| 0 <= k < |text| && text[k] == ',' && AllDigits(text[..k]);
    assert text == text[..k] + text[k..];
    LocateDigits(before, text[..k], text[k..]);
  }

  lemma SplitAt(s: string, j: nat, i: nat, d: string)
    requires j <= i < |s| && d == s[j..][..i - j]
    ensures s == s[..j] + s[j..] && s[j..][i - j] == s[i] && s[..j] == s[..i][..j]
    ensures forall k | 0 <= k < |d| :: d[k] == s[j + k]
  {
  }

  lemma PrefixLacks(s: string, c: char, j: nat)
    requires c !in s && j <= |s|
    ensures c !in s[..j]
  {
  }

  lemma FirstCommaSplits(line: string)
    requires FindComma(line) < |line|
    ensures var j := StepBack(line, FindComma(line)); FromFirstComma(line, line[..j], line[j..])
  {
    hide FindComma, StepBack;
    var i := FindComma(line);
    var j := StepBack(line, i);
    SplitAt(line, j, i, line[j..][..i - j]);
    PrefixLacks(line[..i], ',', j);
    var text := line[j..];
    assert AllDigits(text[..i - j]);
    assert DigitsThenComma(text);
  }

  /** The numbers in line: six numerals with commas between them, from the digits before the first
      comma on, and anything after them that is no digit. */
  ghost predicate HoldsSix(line: string, v: seq<int>) {
    exists before, text, ns, tail :: FromFirstComma(line, before, text) && |ns| == 6 && Reads(text, ns, tail, v)
  }

  /** The parser finds v exactly in the lines that hold it. */
  lemma {:induction false} ParseSixIffHeld(line: string, v: seq<int>)
    ensures ParseSix(line) == Some(v) <==> HoldsSix(line, v)
  {
    if HoldsSix(line, v) {
      var before, text, ns, tail :| FromFirstComma(line, before, text) && |ns| == 6 && Reads(text, ns, tail, v);
      FromFirstCommaIs(line, before, text);
      ListIsRead(text, ns, tail, v);
    }
    if ParseSix(line) == Some(v) {
      var j := StepBack(line, FindComma(line));
      FirstCommaSplits(line);
      var ns, tail := ReadIsList(line[j..], 6);
    }
  }

  // ---------- reply codes ----------

  /** atoi is the value of the numeral at the start, whatever follows ... */
  lemma {:induction false} AtoiReads(n: Numeral, rest: string)
    requires Proper(n) && !StartsWithDigit(rest)
    ensures Atoi(Text(n) + rest) == ValueOf(n)
  {
    ScanNumeral(n, rest);
  }

  /** ... and 0 if there is none. */
  lemma {:induction false} AtoiNeedsNumeral(s: string) returns (n: Numeral, rest: string)
    requires Atoi(s) != 0
    ensures Proper(n) && s == Text(n) + rest && !StartsWithDigit(rest) && Atoi(s) == ValueOf(n)
  {
    n := ScannedNumeral(s);
    rest := ScanInt(s).value.rest;
  }

  lemma SmallValue(d: string)
    requires AllDigits(d)
    ensures 0 <= Value(d) && (|d| <= 2 ==> Value(d) < 100)
    decreases |d|
  {
    if |d| > 0 {
      SmallValue(d[..|d| - 1]);
    }
    if |d| == 2 {
      assert d[..1][..0] == "" && Value(d[..1]) == DigitValue(d[0]);
    }
  }

  lemma ValueOfThree(d: string)
    requires AllDigits(d) && |d| == 3
    ensures Value(d) == 100 * DigitValue(d[0]) + 10 * DigitValue(d[1]) + DigitValue(d[2])
  {
    assert d[..2][..1] == d[..1] && d[..1][..0] == "";
    assert Value(d[..1]) == DigitValue(d[0]);
    assert Value(d[..2]) == 10 * Value(d[..1]) + DigitValue(d[1]);
  }

  lemma {:induction false} DecimalOfValue(d: string)
    requires AllDigits(d) && d != "" && d[0] != '0'
    ensures Value(d) > 0 && Decimal(Value(d)) == d
  {
    var n := |d| - 1;
    if n == 0 {
      assert d[..0] == "" && d == [d[0]];
    } else {
      DecimalOfValue(d[..n]);
      LastDigit(Value(d[..n]), DigitValue(d[n]));
      assert d == d[..n] + [d[n]];
    }
  }

  lemma LastDigit(v: nat, c: nat)
    requires v > 0 && c < 10
    ensures Decimal(10 * v + c) == Decimal(v) + [DigitChar(c)]
  {
    assert (10 * v + c) / 10 == v && (10 * v + c) % 10 == c;
  }

  lemma ThreeDigits(d: string)
    requires AllDigits(d) && |d| == 3 && Value(d) >= 100
    ensures Decimal(Value(d)) == d
  {
    ValueOfThree(d);
    DecimalOfValue(d);
  }

  lemma AtoiPastSpaces(line: string)
    requires |line| >= 3 && AllSpaces(line[..3])
    ensures Atoi(line) == Atoi(line[3..])
  {
    assert forall i | 0 <= i < 3 :: line[..3][i] == line[i];
    assert line[1..][1..] == line[2..] && line[2..][1..] == line[3..];
    assert SkipSpaces(line) == SkipSpaces(line[1..]);
    assert SkipSpaces(line[1..]) == SkipSpaces(line[2..]);
    assert SkipSpaces(line[2..]) == SkipSpaces(line[3..]);
  }

  /** A line has a three-digit code for its status if and only if it starts with that code or, what
      RFC 959 gives no meaning, with three blanks before a text that does so for atoi. */
  lemma {:induction false} StatusIffCode(line: string, code: nat)
    requires |line| >= 3 && (|line| > 3 ==> !IsDigit(line[3])) && 100 <= code < 1000
    ensures Atoi(line) == code <==>
            line[..3] == Decimal(code) || (AllSpaces(line[..3]) && Atoi(line[3..]) == code)
  {
    hide Atoi, Value, Decimal, SkipSpaces;
    if line[..3] == Decimal(code) {
      assert line == Decimal(code) + line[3..];
      AtoiPrinted(code, line[3..]);
    } else if AllSpaces(line[..3]) {
      AtoiPastSpaces(line);
    } else if Atoi(line) == code {
      var n, rest := AtoiNeedsNumeral(line);
      CodeIsInFront(line, n, rest);
    }
  }

  lemma AtoiPrinted(n: nat, rest: string)
    requires !StartsWithDigit(rest)
    ensures Atoi(Decimal(n) + rest) == n
  {
    ScanPrinted(n, rest);
  }

  lemma WhatIsAtThree(spaces: string, sign: string, digits: string, rest: string)
    requires AllSpaces(spaces) && AllDigits(digits)
    ensures var line, k := spaces + (sign + (digits + rest)), |spaces| + |sign|;
            (|spaces| >= 3 ==> AllSpaces(line[..3])) &&
            (k <= 3 < k + |digits| ==> IsDigit(line[3])) &&
            (k == 0 && |digits| == 3 ==> line[..3] == digits)
  {
    var line := spaces + (sign + (digits + rest));
    assert forall i | 0 <= i < |spaces| :: line[i] == spaces[i];
    assert forall i | 0 <= i < |digits| :: line[|spaces| + |sign| + i] == digits[i];
  }

  lemma CodeIsInFront(line: string, n: Numeral, rest: string)
    requires |line| >= 3 && (|line| > 3 ==> !IsDigit(line[3])) && Proper(n) && line == Text(n) + rest
    requires !StartsWithDigit(rest) && 100 <= ValueOf(n) < 1000 && !AllSpaces(line[..3])
    ensures line[..3] == Decimal(ValueOf(n))
  {
    SmallValue(n.digits);
    RegroupText(n, rest);
    WhatIsAtThree(n.spaces, n.sign, n.digits, rest);
    hide Value, Decimal, AllSpaces, AllDigits, Text, StartsWithDigit;
    assert |line| == |n.spaces| + |n.sign| + |n.digits| + |rest|;
    assert |n.digits| >= 3;
    assert |n.spaces| + |n.sign| == 0 && |n.digits| == 3;
    ThreeDigits(n.digits);
  }
}
