/** The client side of the FTP control connection (RFC 959): reply lines in, command lines out. */
module FtpProto {
  import opened HostPort

  const LINELEN := 512
  const MAXPASSWORD := 32
  const MAXFNAME := 256
  const STACKLEN := 3

  datatype Errno = OK | EACCES | EINVAL | EISCONN | EWOULDBLOCK | E2BIG

  datatype State = UNINIT | INIT | CONNECTED | USER | PASS | IDLE | CWD | TYPE | SIZE | PORT | PASV | RETR | QUIT

  /** The four bytes of an IPv4 address, as they stand in a socket address. */
  datatype Ip = Ip(a: nat, b: nat, c: nat, d: nat)

  /** An IPv4 address and port as numbers. */
  datatype Address = Address(host: int, port: int)

  /** Everything the protocol object holds.  An empty obuf means that no output is pending. */
  datatype Proto = Proto(
    state: State, stack: seq<State>, sentUser: bool, obuf: string, multiline: bool, status: int,
    response: string, password: string, fname: string, addressReady: bool, address: Address)

  const START := Proto(INIT, [], false, "", false, 0, "", "", "", false, Address(0, 0))

  const CRLF: string := "\r\n"

  function Truncate(s: string, n: nat): string {
    if |s| <= n then s else s[..n]
  }

  predicate Completed(status: int) { 200 <= status < 300 }

  /** The casts to unsigned char and the shifts of MAKE_INT32. */
  function MakeInt32(a: int, b: int, c: int, d: int): int {
    (a % 256) * 0x100_0000 + (b % 256) * 0x1_0000 + (c % 256) * 0x100 + d % 256
  }

  function MakeAddress(v: seq<int>): Address
    requires |v| == 6
  {
    Address(MakeInt32(v[0], v[1], v[2], v[3]), MakeInt32(0, 0, v[4], v[5]))
  }

  /** One state is saved exactly while a reply to PORT or PASV is awaited. */
  predicate StackFits(s: Proto) {
    if s.state == PORT || s.state == PASV then s.stack == [RETR] else s.stack == []
  }

  predicate IsLine(line: string) {
    3 <= |line| && '\n' !in line && '\0' !in line
  }

  /** ibuf[3]; a line of three characters has its terminator there. */
  function Fourth(line: string): char
    requires 3 <= |line|
  {
    if |line| > 3 then line[3] else '\0'
  }

  // ---------- a line from the server ----------

  /** The first line of a reply, or its only one, with its status and text saved. */
  function React(s: Proto, line: string): (r: (Proto, Errno))
    requires StackFits(s)
    ensures StackFits(r.0) && r.0.multiline == s.multiline
  {
    var status := s.status;
    match s.state
    case INIT =>
      if !Completed(status) then (s.(state := UNINIT), EACCES)
      else if s.sentUser then (s.(state := USER, sentUser := false), OK)
      else (s.(state := CONNECTED), OK)
    case USER =>
      if Completed(status) then (s.(state := IDLE), OK)
      else if 300 <= status < 400 then (s.(obuf := "PASS " + s.password + CRLF, state := PASS), OK)
      else (s.(state := INIT), OK)
    case PASS => (s.(state := if Completed(status) then IDLE else INIT), OK)
    case CWD => (s.(state := IDLE), OK)
    case TYPE => (s.(state := IDLE), OK)
    case SIZE => (s.(state := IDLE), OK)
    case PORT =>
      if Completed(status) then (s.(state := s.stack[0], stack := []), OK)
      else (s.(state := IDLE, stack := []), OK)
    case PASV =>
      var six := ParseSix(line);
      if Completed(status) && six.Some? then
        var t := s.(address := MakeAddress(six.value), addressReady := true, state := s.stack[0], stack := []);
        (if t.state == RETR then t.(obuf := "RETR " + s.fname + CRLF) else t, OK)
      else (s.(state := IDLE, stack := []), OK)
    case RETR => (if 100 <= status < 200 then s else s.(state := IDLE), OK)
    case _ => (s, EINVAL)
  }

  predicate EndsReply(line: string, status: int)
    requires IsLine(line)
  {
    Fourth(line) == ' ' && Atoi(line) == status
  }

  function SaveReply(s: Proto, line: string): Proto
    requires IsLine(line)
  {
    s.(status := Atoi(line), response := Truncate(line, LINELEN), multiline := s.multiline || Fourth(line) == '-')
  }

  function Give(s: Proto, line: string): (r: (Proto, Errno))
    requires StackFits(s) && IsLine(line)
    ensures StackFits(r.0)
  {
    if s.multiline then (s.(multiline := !EndsReply(line, s.status)), OK)
    else React(SaveReply(s, line), line)
  }

  /** The reply to PASV, on its own. */
  lemma PassiveReact(s: Proto, line: string)
    requires s.state == PASV && StackFits(s)
    ensures var six := ParseSix(line);
            React(s, line) ==
            if Completed(s.status) && six.Some? then
              (s.(address := MakeAddress(six.value), addressReady := true, state := RETR, stack := [],
                obuf := "RETR " + s.fname + CRLF), OK)
            else (s.(state := IDLE, stack := []), OK)
  {
    hide ParseSix, MakeAddress;
  }

  /** The replies that only move the state on. */
  lemma PlainReact(s: Proto, line: string)
    requires StackFits(s) && s.state != INIT && s.state != USER && s.state != PORT && s.state != PASV
    ensures var ok := Completed(s.status);
            React(s, line) ==
            match s.state
            case PASS => (s.(state := if ok then IDLE else INIT), OK)
            case CWD => (s.(state := IDLE), OK)
            case TYPE => (s.(state := IDLE), OK)
            case SIZE => (s.(state := IDLE), OK)
            case RETR => (s.(state := if 100 <= s.status < 200 then RETR else IDLE), OK)
            case _ => (s, EINVAL)
  {
    hide ParseSix, MakeAddress;
  }

  // ---------- calls from the user ----------

  datatype Event =
    | Input(line: string)
    | Login(username: string, password: string)
    | Cd(dir: string)
    | Type(ttype: string)
    | Size(file: string)
    | Get(file: string, adr: Option<Ip>)
    | AdvanceOutput
    | TakePort

  function Request(s: Proto, command: string, next: State): (Proto, Errno) {
    if s.state != IDLE then (s, EISCONN)
    else if s.obuf != "" then (s, EWOULDBLOCK)
    else (s.(obuf := command + CRLF, state := next), OK)
  }

  /** The port printed is taken from the address field: on a machine that keeps the low byte of a
      word first, it consists of the first two bytes of the address. */
  function PortCommand(ip: Ip): string {
    "PORT " + PrintList([ip.a % 256, ip.b % 256, ip.c % 256, ip.d % 256, ip.a % 256, ip.b % 256])
  }

  function Step(s: Proto, e: Event): (r: (Proto, Errno))
    requires StackFits(s) && (e.Input? ==> IsLine(e.line))
    ensures StackFits(r.0)
  {
    match e
    case Input(line) => Give(s, line)
    case Login(username, password) =>
      if (s.state != INIT && s.state != CONNECTED) || s.sentUser then (s, EISCONN)
      else if s.obuf != "" then (s, EWOULDBLOCK)
      else
        var t := s.(obuf := "USER " + username + CRLF, password := Truncate(password, MAXPASSWORD - 1));
        (if s.state == CONNECTED then t.(state := USER) else t.(sentUser := true), OK)
    case Cd(dir) => Request(s, if dir == ".." then "CDUP" else "CWD " + dir, CWD)
    case Type(t) => Request(s, "TYPE " + t, TYPE)
    case Size(f) => Request(s, "SIZE " + f, SIZE)
    case Get(f, adr) =>
      if s.state == IDLE && s.obuf == "" && |f| >= MAXFNAME then (s, E2BIG)
      else
        var r := if adr.Some? then Request(s, PortCommand(adr.value), PORT) else Request(s, "PASV", PASV);
        if r.1 == OK then (r.0.(fname := f, stack := [RETR]), OK) else r
    case AdvanceOutput => (s.(obuf := ""), OK)
    case TakePort => (s.(addressReady := false), OK)
  }

  /** The last reply's status, once the command it belongs to is over; 0 while it is in progress. */
  function GetStatus(s: Proto): int {
    if s.state != IDLE && s.state != INIT then 0 else s.status
  }

  ghost predicate Lines(events: seq<Event>) {
    forall e | e in events :: e.Input? ==> IsLine(e.line)
  }

  // ---------- continuation lines can be erased ----------

  function Plain(s: Proto): Proto {
    s.(multiline := false)
  }

  /** A protocol object that knows no multi-line replies: every line is a whole reply. */
  function PlainStep(s: Proto, e: Event): (r: (Proto, Errno))
    requires StackFits(s) && (e.Input? ==> IsLine(e.line))
    ensures StackFits(r.0)
  {
    var r := Step(Plain(s), e);
    (Plain(r.0), r.1)
  }

  /** Drops every line of a multi-line reply but the first (section 4.2 of RFC 959); inside and
      status say whether such a reply is open, and which. */
  function Erase(inside: bool, status: int, events: seq<Event>): seq<Event>
    requires Lines(events)
    decreases |events|
  {
    if events == [] then []
    else
      var e, rest := events[0], events[1..];
      assert e in events && Lines(rest);
      if !e.Input? then [e] + Erase(inside, status, rest)
      else if inside then Erase(!EndsReply(e.line, status), status, rest)
      else [e] + Erase(Fourth(e.line) == '-', Atoi(e.line), rest)
  }

  /** What can be seen after an event: its return code, and everything the object holds except
      whether it is inside a reply. */
  datatype Seen = Seen(err: Errno, object: Proto)

  datatype History = History(seen: seq<Seen>, final: Proto)

  /** A run of the real object; continuation lines are not looked at. */
  function Run(s: Proto, events: seq<Event>): (h: History)
    requires StackFits(s) && Lines(events)
    ensures StackFits(h.final)
    decreases |events|
  {
    if events == [] then History([], s)
    else
      assert events[0] in events;
      var r := Step(s, events[0]);
      var h := Run(r.0, events[1..]);
      if events[0].Input? && s.multiline then h
      else History([Seen(r.1, Plain(r.0))] + h.seen, h.final)
  }

  function PlainRun(s: Proto, events: seq<Event>): (h: History)
    requires StackFits(s) && Lines(events)
    ensures StackFits(h.final)
    decreases |events|
  {
    if events == [] then History([], s)
    else
      assert events[0] in events;
      var r := PlainStep(s, events[0]);
      var h := PlainRun(r.0, events[1..]);
      History([Seen(r.1, r.0)] + h.seen, h.final)
  }

  lemma {:induction false} EraseKeepsLines(inside: bool, status: int, events: seq<Event>)
    requires Lines(events)
    ensures Lines(Erase(inside, status, events))
    decreases |events|
  {
    if events != [] {
      assert events[0] in events;
      var e, rest := events[0], events[1..];
      if !e.Input? {
        EraseKeepsLines(inside, status, rest);
      } else if inside {
        EraseKeepsLines(!EndsReply(e.line, status), status, rest);
      } else {
        EraseKeepsLines(Fourth(e.line) == '-', Atoi(e.line), rest);
      }
    }
  }

  /** For any interleaving of user calls and server lines, erasing the continuation lines gives the
      same return codes, states, statuses, stacks, commands and addresses, event by event. */
  lemma {:induction false} ContinuationsCanBeErased(s: Proto, events: seq<Event>)
    requires StackFits(s) && Lines(events)
    ensures Lines(Erase(s.multiline, s.status, events))
    ensures var h := Run(s, events);
            PlainRun(Plain(s), Erase(s.multiline, s.status, events)) == History(h.seen, Plain(h.final))
    decreases |events|
  {
    EraseKeepsLines(s.multiline, s.status, events);
    if events != [] {
      assert events[0] in events;
      var e, rest := events[0], events[1..];
      var r := Step(s, e);
      ContinuationsCanBeErased(r.0, rest);
      StepIgnoresMultiline(s, e);
      var erased := Erase(s.multiline, s.status, events);
      if !(e.Input? && s.multiline) {
        assert erased == [e] + Erase(r.0.multiline, r.0.status, rest);
        assert erased[1..] == Erase(r.0.multiline, r.0.status, rest);
      }
    }
  }

  lemma ReactIgnoresMultiline(s: Proto, line: string)
    requires StackFits(s)
    ensures React(Plain(s), line) == (Plain(React(s, line).0), React(s, line).1)
    ensures React(s, line).0.status == s.status
  {
    hide ParseSix, MakeAddress, React;
    if s.state == PASV {
      PassiveReact(s, line);
      PassiveReact(Plain(s), line);
    } else if s.state != INIT && s.state != USER && s.state != PORT {
      PlainReact(s, line);
      PlainReact(Plain(s), line);
    } else {
      FirstReactIgnoresMultiline(s, line);
    }
  }

  lemma FirstReactIgnoresMultiline(s: Proto, line: string)
    requires StackFits(s) && (s.state == INIT || s.state == USER || s.state == PORT)
    ensures React(Plain(s), line) == (Plain(React(s, line).0), React(s, line).1)
    ensures React(s, line).0.status == s.status
  {
    hide ParseSix, MakeAddress;
  }

  lemma GiveIgnoresMultiline(s: Proto, line: string)
    requires StackFits(s) && IsLine(line) && !s.multiline
    ensures var r := Give(s, line);
            PlainStep(s, Input(line)) == (Plain(r.0), r.1) && r.0.status == Atoi(line) &&
            r.0.multiline == (Fourth(line) == '-')
  {
    ReactIgnoresMultiline(SaveReply(s, line), line);
    assert Plain(s) == s;
    hide React, Atoi;
  }

  lemma StepIgnoresMultiline(s: Proto, e: Event)
    requires StackFits(s) && (e.Input? ==> IsLine(e.line))
    ensures var r := Step(s, e);
            if e.Input? && s.multiline then
              Plain(r.0) == Plain(s) && r.0.status == s.status && r.0.multiline == !EndsReply(e.line, s.status)
            else
              PlainStep(Plain(s), e) == (Plain(r.0), r.1) &&
              (e.Input? ==> r.0.status == Atoi(e.line) && r.0.multiline == (Fourth(e.line) == '-')) &&
              (!e.Input? ==> r.0.status == s.status && r.0.multiline == s.multiline)
  {
    hide React, Atoi, SaveReply, PortCommand;
    if e.Input? {
      if !s.multiline {
        GiveIgnoresMultiline(s, e.line);
        assert Plain(s) == s;
      }
    } else {
      UserStepIgnoresMultiline(s, e);
    }
  }

  lemma UserStepIgnoresMultiline(s: Proto, e: Event)
    requires StackFits(s) && !e.Input?
    ensures var r := Step(s, e);
            PlainStep(Plain(s), e) == (Plain(r.0), r.1) && r.0.status == s.status && r.0.multiline == s.multiline
  {
    hide React, Atoi, SaveReply, PortCommand, Request;
    assert Plain(Plain(s)) == Plain(s);
    forall command, next { RequestIgnoresMultiline(s, command, next); }
  }

  lemma RequestIgnoresMultiline(s: Proto, command: string, next: State)
    ensures var r := Request(s, command, next);
            Request(Plain(s), command, next) == (Plain(r.0), r.1) && r.0.status == s.status &&
            r.0.multiline == s.multiline
    ensures var r := Request(s, command, next); r.1 == OK ==>
              r.0.state == next && r.0.stack == s.stack && s.state == IDLE
    ensures var r := Request(s, command, next); r.1 != OK ==> r.0 == s
  {
  }

  // ---------- passive mode ----------

  /** Any six bytes in host-port form in a positive reply to PASV come out as the same address and
      port, and the machine goes on to RETR with that command queued. */
  lemma {:induction false} PassiveReplyRoundTrip(s: Proto, before: string, b: seq<nat>, rest: string)
    requires s.state == PASV && StackFits(s) && !s.multiline
    requires |b| == 6 && forall i | 0 <= i < 6 :: b[i] < 256
    requires ',' !in before && (before != [] ==> !IsDigit(before[|before| - 1])) && !StartsWithDigit(rest)
    requires IsLine(before + (PrintList(b) + rest)) && Completed(Atoi(before + (PrintList(b) + rest)))
    ensures var line := before + (PrintList(b) + rest);
            var t := Give(s, line).0;
            Give(s, line).1 == OK && t.state == RETR && t.stack == [] && t.obuf == "RETR " + s.fname + CRLF &&
            t.addressReady && t.address.host == ((b[0] * 256 + b[1]) * 256 + b[2]) * 256 + b[3] &&
            t.address.port == b[4] * 256 + b[5]
  {
    ParsePrinted(before, b, rest);
    AddressOfBytes(b);
    hide ParseSix, Atoi, PrintList, Decimal, MakeAddress, MakeInt32, IsLine, StartsWithDigit;
    var line := before + (PrintList(b) + rest);
    assert ParseSix(line) == Some(b);
    PassiveReply(s, line, b);
  }

  lemma AddressOfBytes(b: seq<nat>)
    requires |b| == 6 && forall i | 0 <= i < 6 :: b[i] < 256
    ensures MakeAddress(b) == Address(((b[0] * 256 + b[1]) * 256 + b[2]) * 256 + b[3], b[4] * 256 + b[5])
  {
    forall i | 0 <= i < 6 ensures b[i] % 256 == b[i] {
      ByteIsItself(b[i]);
    }
  }

  /** Any six numbers make an address of their low bytes, in order. */
  lemma {:induction false} AddressTakesLowBytes(v: seq<int>)
    requires |v| == 6
    ensures var a := MakeAddress(v);
            a.host / 0x100_0000 == v[0] % 256 && a.host / 0x1_0000 % 256 == v[1] % 256 &&
            a.host / 0x100 % 256 == v[2] % 256 && a.host % 256 == v[3] % 256 &&
            a.port / 256 == v[4] % 256 && a.port % 256 == v[5] % 256
  {
    BytesOfWord(v[0] % 256, v[1] % 256, v[2] % 256, v[3] % 256);
    BytesOfWord(0, 0, v[4] % 256, v[5] % 256);
  }

  lemma BytesOfWord(a: int, b: int, c: int, d: int)
    requires 0 <= a < 256 && 0 <= b < 256 && 0 <= c < 256 && 0 <= d < 256
    ensures var w := a * 0x100_0000 + b * 0x1_0000 + c * 0x100 + d;
            w / 0x100_0000 == a && w / 0x1_0000 % 256 == b && w / 0x100 % 256 == c && w % 256 == d &&
            (a == b == 0 ==> w / 256 == c)
  {
    var w := a * 0x100_0000 + b * 0x1_0000 + c * 0x100 + d;
    assert w / 0x1_0000 == a * 256 + b;
    assert w / 0x100 == (a * 256 + b) * 256 + c;
  }

  /** What PORT tells the server: the address asked for, and as the port the first two bytes of the
      address again, whatever port was asked for. */
  lemma {:induction false} PortTellsAddress(ip: Ip)
    requires ip.a < 256 && ip.b < 256 && ip.c < 256 && ip.d < 256
    ensures PortCommand(ip)[..5] == "PORT " && '\r' !in PortCommand(ip)
    ensures ParseSix(PortCommand(ip)) == Some([ip.a, ip.b, ip.c, ip.d, ip.a, ip.b])
  {
    hide ParseSix, PrintList;
    var vs := [ip.a, ip.b, ip.c, ip.d, ip.a, ip.b];
    ParsePrinted("PORT ", vs, "");
    ListIsPlain(vs);
    BytesAreThemselves(ip);
    assert PrintList(vs) + "" == PrintList(vs);
    hide PortCommand;
  }

  lemma BytesAreThemselves(ip: Ip)
    requires ip.a < 256 && ip.b < 256 && ip.c < 256 && ip.d < 256
    ensures PortCommand(ip) == "PORT " + PrintList([ip.a, ip.b, ip.c, ip.d, ip.a, ip.b])
  {
    ByteIsItself(ip.a);
    ByteIsItself(ip.b);
    ByteIsItself(ip.c);
    ByteIsItself(ip.d);
    hide PrintList;
  }

  lemma {:induction false} ListIsPlain(vs: seq<nat>)
    ensures forall c | c in PrintList(vs) :: IsDigit(c) || c == ','
  {
    hide Decimal;
    if |vs| > 1 {
      ListIsPlain(vs[1..]);
    }
  }

  lemma ByteIsItself(x: int)
    requires 0 <= x < 256
    ensures x % 256 == x
  {
  }

  lemma PassiveReply(s: Proto, line: string, v: seq<int>)
    requires s.state == PASV && StackFits(s) && !s.multiline && IsLine(line) && Completed(Atoi(line))
    requires |v| == 6 && ParseSix(line) == Some(v)
    ensures var t := Give(s, line).0;
            Give(s, line).1 == OK && t.state == RETR && t.stack == [] && t.obuf == "RETR " + s.fname + CRLF &&
            t.addressReady && t.address == MakeAddress(v)
  {
    hide ParseSix, Atoi, MakeAddress;
  }

  /** The reply to PASV leads on to RETR if and only if it is positive and holds six numbers, and
      then they are the address. */
  lemma {:induction false} PassiveReplyReadIffHeld(s: Proto, line: string)
    requires s.state == PASV && StackFits(s) && !s.multiline && IsLine(line)
    ensures Give(s, line).0.state == RETR <==> Completed(Atoi(line)) && exists v :: HoldsSix(line, v)
    ensures forall v | HoldsSix(line, v) && Completed(Atoi(line)) ::
              |v| == 6 && Give(s, line).0.address == MakeAddress(v)
    ensures Give(s, line).0.state != RETR ==>
              Give(s, line).0.state == IDLE && Give(s, line).0.obuf == s.obuf && Give(s, line).0.address == s.address
  {
    hide ParseSix, Atoi, MakeAddress, HoldsSix;
    forall v ensures ParseSix(line) == Some(v) <==> HoldsSix(line, v) {
      ParseSixIffHeld(line, v);
    }
    if ParseSix(line).Some? {
      assert HoldsSix(line, ParseSix(line).value);
    }
  }

  // ---------- dialogues ----------

  predicate WholeReply(line: string) {
    IsLine(line) && Fourth(line) != '-'
  }

  ghost predicate AllLines(lines: seq<string>) {
    forall i | 0 <= i < |lines| :: IsLine(lines[i])
  }

  function Inputs(lines: seq<string>): (events: seq<Event>)
    requires AllLines(lines)
    ensures Lines(events)
  {
    if lines == [] then [] else [Input(lines[0])] + Inputs(lines[1..])
  }

  /** The states left by the first line of a reply. */
  predicate AwaitsOne(s: Proto) {
    s.state == CWD || s.state == TYPE || s.state == SIZE
  }

  /** Some reply is to come: to a command, or the greeting once the user has logged in. */
  predicate Awaits(s: Proto) {
    || AwaitsOne(s) || s.state == PORT || s.state == PASV || s.state == RETR
    || s.state == USER || s.state == PASS || (s.state == INIT && s.sentUser)
  }

  /** While a reply is awaited, nothing the user does changes anything, but for the output being
      sent. */
  lemma {:induction false} NothingUntilReply(s: Proto, events: seq<Event>)
    requires Awaits(s) && StackFits(s) && Lines(events) && forall e | e in events :: !e.Input?
    ensures var t := Run(s, events).final;
            t == s.(obuf := t.obuf, addressReady := t.addressReady) &&
            (s.state != INIT ==> GetStatus(t) == 0) &&
            t.obuf == if AdvanceOutput in events then "" else s.obuf
    decreases |events|
  {
    if events != [] {
      assert events[0] in events;
      assert events == [events[0]] + events[1..];
      CallWhileWaiting(s, events[0]);
      hide Step, StackFits;
      NothingUntilReply(Step(s, events[0]).0, events[1..]);
    }
  }

  lemma CallWhileWaiting(s: Proto, e: Event)
    requires Awaits(s) && StackFits(s) && !e.Input?
    ensures var r := Step(s, e).0;
            r == s.(obuf := r.obuf, addressReady := r.addressReady) &&
            r.obuf == if e.AdvanceOutput? then "" else s.obuf
  {
    hide PortCommand;
  }

  /** A user call is refused in exactly these cases, and then changes nothing. */
  lemma {:induction false} CallRefusedIff(s: Proto, e: Event)
    requires StackFits(s) && !e.Input?
    ensures var r := Step(s, e);
            var command := e.Cd? || e.Type? || e.Size? || e.Get?;
            (r.1 == EISCONN <==>
               (command && s.state != IDLE) ||
               (e.Login? && (s.sentUser || (s.state != INIT && s.state != CONNECTED)))) &&
            (r.1 == EWOULDBLOCK <==> (command || e.Login?) && r.1 != EISCONN && s.obuf != "") &&
            (r.1 == E2BIG <==> e.Get? && s.state == IDLE && s.obuf == "" && |e.file| >= 256) &&
            (r.1 == OK || r.1 == EISCONN || r.1 == EWOULDBLOCK || r.1 == E2BIG) && (r.1 != OK ==> r.0 == s)
  {
    hide PortCommand;
  }

  /** A line that nothing was asked for is refused; it changes the status all the same. */
  lemma {:induction false} UnaskedLineRefused(s: Proto, line: string)
    requires StackFits(s) && IsLine(line) && !s.multiline
    requires s.state == IDLE || s.state == CONNECTED || s.state == UNINIT || s.state == QUIT
    ensures var r := Step(s, Input(line));
            r.1 == EINVAL && r.0 == s.(status := Atoi(line), response := r.0.response, multiline := Fourth(line) == '-')
  {
    hide Atoi;
  }

  /** The text of a reply is that of its first line, as much as fits. */
  lemma {:induction false} TextIsSaved(s: Proto, line: string)
    requires StackFits(s) && IsLine(line) && !s.multiline
    ensures var t := Step(s, Input(line)).0;
            t.response <= line && |t.response| == if |line| < 512 then |line| else 512
  {
    hide Atoi, ParseSix, MakeAddress;
  }

  /** No line but the last ends the reply that status began. */
  ghost predicate Continues(lines: seq<string>, status: int) {
    && AllLines(lines)
    && forall i | 0 <= i < |lines| :: EndsReply(lines[i], status) <==> i == |lines| - 1
  }

  lemma {:induction false} RestOfReply(s: Proto, lines: seq<string>)
    requires StackFits(s) && s.multiline && lines != [] && Continues(lines, s.status)
    ensures Run(s, Inputs(lines)).final == s.(multiline := false)
    decreases |lines|
  {
    assert EndsReply(lines[0], s.status) == (|lines| == 1);
    var r := Step(s, Input(lines[0])).0;
    assert Inputs(lines)[1..] == Inputs(lines[1..]);
    if |lines| > 1 {
      assert forall i | 0 <= i < |lines| - 1 :: lines[1..][i] == lines[i + 1];
      RestOfReply(r, lines[1..]);
    } else {
      assert Inputs(lines[1..]) == [];
    }
  }

  /** A reply of one line, or of several. */
  ghost predicate IsReply(first: string, rest: seq<string>) {
    IsLine(first) && if Fourth(first) == '-' then rest != [] && Continues(rest, Atoi(first)) else rest == []
  }

  /** Which lines end a reply of several lines that began with a three-digit code: those that start
      with the code and a space, as section 4.2 of RFC 959 wants it, but also those that start with four
      blanks, the last a space, before what atoi reads as the code. */
  lemma {:induction false} EndsReplyIff(line: string, code: nat)
    requires IsLine(line) && 100 <= code < 1000
    ensures EndsReply(line, code) <==>
            |line| > 3 && line[3] == ' ' &&
            (line[..3] == Decimal(code) || (AllSpaces(line[..3]) && Atoi(line[3..]) == code))
  {
    hide Atoi, Decimal, AllSpaces;
    if |line| > 3 && line[3] == ' ' {
      StatusIffCode(line, code);
    }
  }

  /** A reply to a command that is over too soon: a line in the middle of it that begins with its code,
      padded, as section 4.2 of RFC 959 asks for, with four blanks, is taken for the last. */
  lemma {:induction false} PaddedLineEndsReply(s: Proto, code: nat, first: string, second: string)
    requires s.state == CWD && StackFits(s) && !s.multiline && 100 <= code < 1000
    requires IsLine(first) && IsLine(second) && |first| > 3 && |second| > 4
    requires first[..3] == Decimal(code) && first[3] == '-'
    requires AllSpaces(second[..3]) && second[3] == ' '
    requires exists y :: second[4..] == Decimal(code) + y && !StartsWithDigit(y)
    ensures var t := Step(s, Input(first)).0;
            t.multiline && !Step(t, Input(second)).0.multiline
  {
    hide Atoi, Decimal, AllSpaces, Step;
    var y :| second[4..] == Decimal(code) + y && !StartsWithDigit(y);
    StatusIffCode(first, code);
    AtoiPrinted(code, y);
    AtoiPastSpaces(second);
    BlankSkipped(second[3..]);
    assert second[3..][1..] == second[4..];
    OpenedAndEnded(s, first, second, code);
  }

  lemma BlankSkipped(s: string)
    requires s != "" && s[0] == ' '
    ensures Atoi(s) == Atoi(s[1..])
  {
    assert SkipSpaces(s) == SkipSpaces(s[1..]);
  }

  lemma OpenedAndEnded(s: Proto, first: string, second: string, code: int)
    requires s.state == CWD && StackFits(s) && !s.multiline && IsLine(first) && IsLine(second)
    requires Fourth(first) == '-' && Fourth(second) == ' ' && Atoi(first) == Atoi(second) == code
    ensures var t := Step(s, Input(first)).0;
            t.multiline && !Step(t, Input(second)).0.multiline
  {
    hide Atoi;
    FirstLineAnswers(s, first);
  }

  /** The lines of a reply after the first change nothing but the multi-line flag. */
  lemma ReplyEnds(s: Proto, first: string, rest: seq<string>)
    requires StackFits(s) && IsReply(first, rest) && s.status == Atoi(first) && s.multiline == (Fourth(first) == '-')
    ensures AllLines(rest) && Run(s, Inputs(rest)).final == s.(multiline := false)
  {
    hide Run, Atoi;
    if rest != [] {
      RestOfReply(s, rest);
    } else {
      NoInputs(s);
    }
  }

  /** From the call to the last line of the reply: a command has no status while the user goes on
      calling and until the first line of its reply, then the status of that line, through all the
      lines that follow; and no other command is sent meanwhile. */
  lemma {:induction false} CommandGetsItsReply(s: Proto, e: Event, before: seq<Event>, first: string, rest: seq<string>)
    requires s.state == IDLE && StackFits(s) && s.obuf == "" && !s.multiline && (e.Cd? || e.Type? || e.Size?)
    requires Lines(before) && forall b | b in before :: !b.Input?
    requires IsReply(first, rest)
    ensures var t := Step(s, e).0;
            var u := Run(t, before).final;
            var v := Step(u, Input(first)).0;
            var w := Run(v, Inputs(rest)).final;
            t.obuf == CommandText(e) + "\r\n" && AwaitsOne(t) && GetStatus(t) == 0 && GetStatus(u) == 0 &&
            (u.obuf == t.obuf || u.obuf == "") &&
            GetStatus(v) == Atoi(first) && w == v.(multiline := false) && w.state == IDLE && w.obuf == u.obuf &&
            w.stack == []
  {
    hide Run, Atoi, Continues, Give, PortCommand;
    var t := Step(s, e).0;
    CommandIsSent(s, e);
    NothingUntilReply(t, before);
    var u := Run(t, before).final;
    var v := Step(u, Input(first)).0;
    FirstLineAnswers(u, first);
    hide Step, IsReply;
    ReplyEnds(v, first, rest);
  }

  lemma CommandIsSent(s: Proto, e: Event)
    requires s.state == IDLE && StackFits(s) && s.obuf == "" && (e.Cd? || e.Type? || e.Size?)
    ensures var t := Step(s, e).0; AwaitsOne(t) && t == s.(state := t.state, obuf := CommandText(e) + "\r\n")
  {
  }

  /** The commands of sections 4.1.1 and 4.1.3 of RFC 959, and SIZE. */
  function CommandText(e: Event): string
    requires e.Cd? || e.Type? || e.Size?
  {
    match e
    case Cd(dir) => if dir == ".." then "CDUP" else "CWD " + dir
    case Type(t) => "TYPE " + t
    case Size(f) => "SIZE " + f
  }

  lemma FirstLineAnswers(s: Proto, line: string)
    requires AwaitsOne(s) && StackFits(s) && !s.multiline && IsLine(line)
    ensures var t := Step(s, Input(line)).0;
            t.state == IDLE && t.stack == [] && t.obuf == s.obuf && t.status == Atoi(line) &&
            t.multiline == (Fourth(line) == '-') &&
            Step(s, Input(line)) == Give(s, line)
  {
    hide Atoi;
  }

  lemma NoInputs(s: Proto)
    requires StackFits(s)
    ensures Run(s, Inputs([])).final == s
  {
  }

  /** From get to the last line of the reply to its first command, with any user calls in between
      once that command is sent: RETR is queued if and only if no address was given and the reply is
      positive and holds six numbers.  With an address, a positive reply leads to RETR as well, but
      nothing more is sent. */
  lemma {:induction false} GetSendsRetrIffPassive(s: Proto, file: string, adr: Option<Ip>,
      before: seq<Event>, first: string, rest: seq<string>)
    requires s.state == IDLE && StackFits(s) && s.obuf == "" && !s.multiline && |file| < MAXFNAME
    requires Lines(before) && (forall b | b in before :: !b.Input?) && AdvanceOutput in before
    requires IsReply(first, rest)
    ensures var t := Step(s, Get(file, adr)).0;
            var u := Run(t, before).final;
            var v := Step(u, Input(first)).0;
            var w := Run(v, Inputs(rest)).final;
            var held := exists six :: HoldsSix(first, six);
            t.obuf == (if adr.Some? then PortCommand(adr.value) else "PASV") + CRLF && t.stack == [RETR] &&
            w == v.(multiline := false) && w.stack == [] &&
            (w.obuf == "RETR " + file + CRLF <==> adr.None? && Completed(Atoi(first)) && held) &&
            (w.obuf == "" <==> w.obuf != "RETR " + file + CRLF) &&
            w.state == if Completed(Atoi(first)) && (adr.Some? || held) then RETR else IDLE
  {
    hide Run, Atoi, Continues, PortCommand, IsReply, HoldsSix;
    var t := Step(s, Get(file, adr)).0;
    GetAsks(s, file, adr);
    hide Step;
    NothingUntilReply(t, before);
    var u := Run(t, before).final;
    FirstOfReply(first, rest);
    if adr.Some? {
      PortAnswered(u, first);
    } else {
      PasvAnswered(u, first);
    }
    ReplyEnds(Step(u, Input(first)).0, first, rest);
  }

  // ---------- logging in ----------

  /** The object when a whole reply has come. */
  function Answered(s: Proto, first: string, rest: seq<string>): (t: Proto)
    requires StackFits(s) && IsLine(first) && AllLines(rest)
    ensures StackFits(t)
  {
    Run(Step(s, Input(first)).0, Inputs(rest)).final
  }

  /** Connected, with nothing said yet by either side. */
  predicate Fresh(s: Proto) {
    s.state == INIT && s.stack == [] && s.obuf == "" && !s.sentUser && !s.multiline && s.status == 0
  }

  lemma {:induction false} FreshStart()
    ensures Fresh(START) && GetStatus(START) == 0
  {
  }

  /** The user may log in before the server's greeting or after it: the outcome is the same, also
      when the greeting refuses. */
  lemma {:induction false} LoginCommutesWithGreeting(s: Proto, username: string, password: string,
      greeting: string, rest: seq<string>)
    requires Fresh(s) && IsReply(greeting, rest)
    ensures var early := Answered(Step(s, Login(username, password)).0, greeting, rest);
            var late := Step(Answered(s, greeting, rest), Login(username, password));
            if 200 <= Atoi(greeting) < 300 then
              late == (early, OK) && early.state == USER && early.obuf == "USER " + username + "\r\n" && !early.sentUser
            else late.1 == EISCONN && late.0.state == early.state == UNINIT && late.0.obuf == ""
  {
    hide Run, Atoi, IsReply, Step;
    FirstOfReply(greeting, rest);
    LoginAsks(s, username, password);
    var t := Step(s, Login(username, password)).0;
    GreetingAnswers(t, greeting);
    GreetingAnswers(s, greeting);
    ReplyEnds(Step(t, Input(greeting)).0, greeting, rest);
    ReplyEnds(Step(s, Input(greeting)).0, greeting, rest);
    LoginAsks(Answered(s, greeting, rest), username, password);
  }

  lemma LoginAsks(s: Proto, username: string, password: string)
    requires StackFits(s) && s.obuf == "" && (s.state == INIT || s.state == CONNECTED || s.state == UNINIT)
    ensures var r := Step(s, Login(username, password));
            if s.state == UNINIT || s.sentUser then r == (s, EISCONN)
            else r == (s.(obuf := "USER " + username + "\r\n", password := FirstOf(password, 31),
                          state := if s.state == INIT then INIT else USER, sentUser := s.state == INIT), OK)
  {
    assert FirstOf(password, 31) == Truncate(password, MAXPASSWORD - 1);
  }

  /** At most n characters of s. */
  function FirstOf(s: string, n: nat): (t: string)
    ensures t <= s && |t| == if |s| < n then |s| else n
  {
    s[..if |s| < n then |s| else n]
  }

  lemma GreetingAnswers(s: Proto, line: string)
    requires s.state == INIT && StackFits(s) && !s.multiline && IsLine(line)
    ensures var ok := 200 <= Atoi(line) < 300;
            var r := Step(s, Input(line));
            r.1 == (if ok then OK else EACCES) &&
            r.0 == s.(status := Atoi(line), response := FirstOf(line, 512), multiline := Fourth(line) == '-',
                      state := if !ok then UNINIT else if s.sentUser then USER else CONNECTED,
                      sentUser := s.sentUser && !ok)
  {
    assert FirstOf(line, 512) == Truncate(line, LINELEN);
    hide Atoi;
  }

  lemma UserAnswers(s: Proto, line: string)
    requires s.state == USER && StackFits(s) && !s.multiline && IsLine(line)
    ensures var n := Atoi(line);
            Step(s, Input(line)) ==
            (s.(status := n, response := FirstOf(line, 512), multiline := Fourth(line) == '-',
                state := if 200 <= n < 300 then IDLE else if 300 <= n < 400 then PASS else INIT,
                obuf := if 300 <= n < 400 then "PASS " + s.password + "\r\n" else s.obuf), OK)
  {
    assert FirstOf(line, 512) == Truncate(line, LINELEN);
    hide Atoi;
  }

  lemma PassAnswers(s: Proto, line: string)
    requires s.state == PASS && StackFits(s) && !s.multiline && IsLine(line)
    ensures var n := Atoi(line);
            Step(s, Input(line)) ==
            (s.(status := n, response := FirstOf(line, 512), multiline := Fourth(line) == '-',
                state := if 200 <= n < 300 then IDLE else INIT), OK)
  {
    assert FirstOf(line, 512) == Truncate(line, LINELEN);
    hide Atoi;
  }

  /** The greeting, of one line or several, while the user makes any calls: it leads on to the reply
      to the name, or ends the session. */
  lemma {:induction false} GreetingAdmits(s: Proto, username: string, password: string, calls: seq<Event>,
      greeting: string, more: seq<string>)
    requires Fresh(s) && IsReply(greeting, more) && Lines(calls) && forall c | c in calls :: !c.Input?
    ensures var t := Step(s, Login(username, password)).0;
            var c := Run(t, calls).final;
            var g := Answered(c, greeting, more);
            var ok := 200 <= Atoi(greeting) < 300;
            t.obuf == "USER " + username + "\r\n" && (c.obuf == t.obuf || c.obuf == "") && GetStatus(c) == 0 &&
            Step(c, Input(greeting)).1 == (if ok then OK else EACCES) && g.state == (if ok then USER else UNINIT) &&
            GetStatus(g) == 0 && g.stack == [] && !g.multiline && g.sentUser == !ok && g.obuf == c.obuf &&
            g.password == FirstOf(password, 31)
  {
    hide Run, Atoi, IsReply, Step, GetStatus;
    FirstOfReply(greeting, more);
    LoginAsks(s, username, password);
    var t := Step(s, Login(username, password)).0;
    NothingUntilReply(t, calls);
    var c := Run(t, calls).final;
    GreetingAnswers(c, greeting);
    ReplyEnds(Step(c, Input(greeting)).0, greeting, more);
    StatusWhile(c);
    StatusWhile(Answered(c, greeting, more));
  }

  /** The reply to the name: exactly if it asks for the password, that is sent, and there is no
      status until it is answered. */
  lemma {:induction false} PasswordSentIffAsked(g: Proto, calls: seq<Event>, first: string, rest: seq<string>)
    requires g.state == USER && g.stack == [] && !g.multiline && IsReply(first, rest)
    requires Lines(calls) && forall c | c in calls :: !c.Input?
    ensures var u := Run(g, calls).final;
            var a := Answered(u, first, rest);
            var n := Atoi(first);
            GetStatus(u) == 0 && (u.obuf == g.obuf || u.obuf == "") && a.stack == [] && !a.multiline &&
            a.state == (if 200 <= n < 300 then IDLE else if 300 <= n < 400 then PASS else INIT) &&
            a.obuf == (if 300 <= n < 400 then "PASS " + g.password + "\r\n" else u.obuf) &&
            GetStatus(a) == if 300 <= n < 400 then 0 else n
  {
    hide Run, Atoi, IsReply, Step, GetStatus;
    FirstOfReply(first, rest);
    NothingUntilReply(g, calls);
    var u := Run(g, calls).final;
    UserAnswers(u, first);
    ReplyEnds(Step(u, Input(first)).0, first, rest);
    StatusWhile(u);
    StatusWhile(Answered(u, first, rest));
  }

  lemma StatusWhile(s: Proto)
    ensures GetStatus(s) == if s.state == IDLE || s.state == INIT then s.status else 0
  {
  }

  /** The whole of logging in, with replies of one line or several and any user calls in between.  The
      name goes out; a reply that asks for it gets the first 31 characters of the password, with no
      status until that is answered.  The user ends logged in if and only if the name was accepted, or
      the name wanted a password and that was accepted; otherwise back at the start, with the status
      that refused. */
  lemma {:induction false} LoginDialogue(s: Proto, username: string, password: string, calls: seq<Event>,
      greeting: string, more: seq<string>, calls2: seq<Event>, first: string, rest: seq<string>,
      calls3: seq<Event>, second: string, rest2: seq<string>)
    requires Fresh(s) && IsReply(greeting, more) && IsReply(first, rest) && IsReply(second, rest2)
    requires Lines(calls) && Lines(calls2) && Lines(calls3) && forall c | c in calls + calls2 + calls3 :: !c.Input?
    requires 200 <= Atoi(greeting) < 300
    ensures var t := Step(s, Login(username, password)).0;
            var g := Answered(Run(t, calls).final, greeting, more);
            var a := Answered(Run(g, calls2).final, first, rest);
            var w := Run(a, calls3).final;
            var asked := 300 <= Atoi(first) < 400;
            var z := if asked then Answered(w, second, rest2) else a;
            t.obuf == "USER " + username + "\r\n" && GetStatus(Run(t, calls).final) == 0 &&
            GetStatus(Run(g, calls2).final) == 0 &&
            (asked ==> a.obuf == "PASS " + FirstOf(password, 31) + "\r\n" && GetStatus(a) == 0 && GetStatus(w) == 0) &&
            (z.state == IDLE <==> 200 <= Atoi(first) < 300 || (asked && 200 <= Atoi(second) < 300)) &&
            (z.state == IDLE || z.state == INIT) && GetStatus(z) == (if asked then Atoi(second) else Atoi(first)) &&
            !z.multiline && z.stack == []
  {
    hide Run, Atoi, IsReply, Step, GetStatus;
    assert forall c :: c in calls ==> c in calls + calls2 + calls3;
    assert forall c :: c in calls2 ==> c in calls + calls2 + calls3;
    assert forall c :: c in calls3 ==> c in calls + calls2 + calls3;
    FirstOfReply(greeting, more);
    FirstOfReply(first, rest);
    GreetingAdmits(s, username, password, calls, greeting, more);
    var g := Answered(Run(Step(s, Login(username, password)).0, calls).final, greeting, more);
    PasswordSentIffAsked(g, calls2, first, rest);
    var a := Answered(Run(g, calls2).final, first, rest);
    if 300 <= Atoi(first) < 400 {
      PasswordAnswered(a, calls3, second, rest2);
    }
  }

  lemma PasswordAnswered(a: Proto, calls: seq<Event>, second: string, rest: seq<string>)
    requires a.state == PASS && a.stack == [] && !a.multiline && IsReply(second, rest)
    requires Lines(calls) && forall c | c in calls :: !c.Input?
    ensures var w := Run(a, calls).final;
            var z := Answered(w, second, rest);
            GetStatus(w) == 0 && z.state == (if 200 <= Atoi(second) < 300 then IDLE else INIT) &&
            GetStatus(z) == Atoi(second) && !z.multiline && z.stack == [] && z.obuf == w.obuf
  {
    hide Run, Atoi, IsReply, Step, GetStatus;
    FirstOfReply(second, rest);
    NothingUntilReply(a, calls);
    var w := Run(a, calls).final;
    PassAnswers(w, second);
    ReplyEnds(Step(w, Input(second)).0, second, rest);
    StatusWhile(w);
    StatusWhile(Answered(w, second, rest));
  }

  lemma FirstOfReply(first: string, rest: seq<string>)
    requires IsReply(first, rest)
    ensures IsLine(first) && AllLines(rest)
  {
  }

  lemma GetAsks(s: Proto, file: string, adr: Option<Ip>)
    requires s.state == IDLE && StackFits(s) && s.obuf == "" && |file| < MAXFNAME
    ensures Step(s, Get(file, adr)).0 ==
            s.(state := if adr.Some? then PORT else PASV, stack := [RETR], fname := file,
               obuf := (if adr.Some? then PortCommand(adr.value) else "PASV") + CRLF)
  {
    hide PortCommand;
  }

  lemma PortAnswered(s: Proto, line: string)
    requires s.state == PORT && StackFits(s) && !s.multiline && IsLine(line)
    ensures var t := Step(s, Input(line)).0;
            t.state == (if Completed(Atoi(line)) then RETR else IDLE) && t.stack == [] && t.obuf == s.obuf &&
            t.status == Atoi(line) && t.multiline == (Fourth(line) == '-')
  {
    hide Atoi;
  }

  lemma PasvAnswered(s: Proto, line: string)
    requires s.state == PASV && StackFits(s) && !s.multiline && IsLine(line)
    ensures var t := Step(s, Input(line)).0;
            var read := Completed(Atoi(line)) && exists six :: HoldsSix(line, six);
            t.state == (if read then RETR else IDLE) && t.stack == [] &&
            t.obuf == (if read then "RETR " + s.fname + CRLF else s.obuf) &&
            t.status == Atoi(line) && t.multiline == (Fourth(line) == '-')
  {
    hide Atoi, ParseSix, HoldsSix, MakeAddress, React;
    PassiveReact(SaveReply(s, line), line);
    forall v ensures ParseSix(line) == Some(v) <==> HoldsSix(line, v) {
      ParseSixIffHeld(line, v);
    }
    if ParseSix(line).Some? {
      assert HoldsSix(line, ParseSix(line).value);
    }
  }

  /** Replies of one line each, with a status from 100 to 199. */
  ghost predicate Preliminary(lines: seq<string>) {
    AllLines(lines) && forall i | 0 <= i < |lines| :: WholeReply(lines[i]) && 100 <= Atoi(lines[i]) < 200
  }

  /** Any number of preliminary replies leave a transfer in progress. */
  lemma {:induction false} PreliminariesWait(s: Proto, lines: seq<string>)
    requires s.state == RETR && StackFits(s) && !s.multiline
    requires Preliminary(lines)
    ensures var t := Run(s, Inputs(lines)).final;
            t.state == RETR && t.obuf == s.obuf && !t.multiline && GetStatus(t) == 0
    decreases |lines|
  {
    hide Atoi;
    if lines != [] {
      var r := Step(s, Input(lines[0])).0;
      assert Inputs(lines)[1..] == Inputs(lines[1..]);
      PreliminariesWait(r, lines[1..]);
    }
  }

  /** A whole transfer: PASV goes out, a readable reply to it sends RETR, preliminary replies keep
      it going, and the next other reply ends it with its status. */
  lemma {:induction false} TransferDialogue(s: Proto, file: string, passive: string, more: seq<string>, last: string)
    requires s.state == IDLE && StackFits(s) && s.obuf == "" && !s.multiline && |file| < MAXFNAME
    requires WholeReply(passive) && Completed(Atoi(passive)) && ParseSix(passive).Some?
    requires Preliminary(more)
    requires WholeReply(last) && !(100 <= Atoi(last) < 200)
    ensures var t := Step(s, Get(file, None)).0;
            var u := Step(Step(t, AdvanceOutput).0, Input(passive)).0;
            var v := Run(u, Inputs(more)).final;
            var w := Step(v, Input(last)).0;
            t.obuf == "PASV" + CRLF && GetStatus(t) == 0 &&
            u.obuf == "RETR " + file + CRLF && GetStatus(u) == 0 && u.addressReady &&
            v.obuf == u.obuf && GetStatus(v) == 0 &&
            w.state == IDLE && GetStatus(w) == Atoi(last)
  {
    hide Atoi, ParseSix, Run, MakeAddress;
    GetAsksPassive(s, file);
    hide React;
    var waiting := Step(Step(s, Get(file, None)).0, AdvanceOutput).0;
    PassiveReply(waiting, passive, ParseSix(passive).value);
    var u := Give(waiting, passive).0;
    WholeReplyStaysPlain(waiting, passive);
    PreliminariesWait(u, more);
    TransferEnds(Run(u, Inputs(more)).final, last);
  }

  lemma GetAsksPassive(s: Proto, file: string)
    requires s.state == IDLE && StackFits(s) && s.obuf == "" && |file| < MAXFNAME
    ensures var t := Step(s, Get(file, None)).0;
            t == s.(state := PASV, stack := [RETR], obuf := "PASV" + CRLF, fname := file)
  {
  }

  lemma WholeReplyStaysPlain(s: Proto, line: string)
    requires StackFits(s) && !s.multiline && WholeReply(line)
    ensures !Give(s, line).0.multiline
  {
  }

  lemma TransferEnds(s: Proto, line: string)
    requires s.state == RETR && StackFits(s) && !s.multiline && WholeReply(line) && !(100 <= Atoi(line) < 200)
    ensures var t := Give(s, line).0; t.state == IDLE && GetStatus(t) == Atoi(line)
  {
    hide Atoi;
  }

  lemma DecimalIsShort(n: nat)
    requires n < 256
    ensures |Decimal(n)| <= 3
  {
    var m := n / 10;
    assert m < 26 && |Decimal(m / 10)| == 1;
    assert |Decimal(m)| <= 2;
  }

  lemma {:induction false} ListIsShort(vs: seq<nat>)
    requires forall i | 0 <= i < |vs| :: vs[i] < 256
    ensures |PrintList(vs)| <= 4 * |vs|
  {
    if vs != [] {
      DecimalIsShort(vs[0]);
      if |vs| > 1 {
        ListIsShort(vs[1..]);
      }
    }
    hide Decimal;
  }

  lemma PortFits(ip: Ip)
    ensures |PortCommand(ip) + CRLF| <= LINELEN
  {
    ListIsShort([ip.a % 256, ip.b % 256, ip.c % 256, ip.d % 256, ip.a % 256, ip.b % 256]);
    hide PrintList;
  }

  // ---------- the object ----------

  class FtpProto {
    var m_state: State
    const m_stack: array<State>
    var m_stack_ptr: int
    var m_sent_user: bool
    var m_obuf: string
    var m_obuflen: int
    var m_multiline: bool
    var m_status: int
    var m_response: string
    var m_password: string
    var m_fname: string
    var m_address_ready: bool
    var m_address: Address

    ghost predicate Shape()
      reads this
    {
      m_stack.Length == STACKLEN && 0 <= m_stack_ptr <= STACKLEN && (m_obuflen == 0 || m_obuflen == |m_obuf|)
    }

    ghost function Abs(): Proto
      requires Shape()
      reads this, m_stack
    {
      Proto(m_state, m_stack[..m_stack_ptr], m_sent_user, if m_obuflen == 0 then "" else m_obuf, m_multiline, m_status,
            m_response, m_password, m_fname, m_address_ready, m_address)
    }

    ghost predicate Valid()
      reads this, m_stack
    {
      Shape() && StackFits(Abs())
    }

    constructor ()
      ensures Valid() && Abs() == START && fresh(m_stack)
    {
      m_stack := new State[STACKLEN](_ => UNINIT);
      m_status, m_state, m_obuflen, m_stack_ptr := 0, INIT, 0, 0;
      m_multiline, m_address_ready, m_sent_user := false, false, false;
      m_obuf, m_response, m_password, m_fname, m_address := "", "", "", "", Address(0, 0);
    }

    method CallState(jumpTo: State, returnTo: State)
      requires Shape() && m_stack_ptr < STACKLEN
      modifies `m_state, `m_stack_ptr, m_stack
      ensures Shape() && Abs() == old(Abs()).(state := jumpTo, stack := old(Abs().stack) + [returnTo])
    {
      m_stack[m_stack_ptr] := returnTo;
      m_stack_ptr := m_stack_ptr + 1;
      m_state := jumpTo;
    }

    method PopState() returns (s: State)
      requires Shape() && m_stack_ptr > 0
      modifies `m_stack_ptr, m_stack
      ensures Shape() && s == old(m_stack[m_stack_ptr - 1])
      ensures Abs() == old(Abs()).(stack := old(m_stack[..m_stack_ptr - 1]))
    {
      m_stack_ptr := m_stack_ptr - 1;
      s := m_stack[m_stack_ptr];
      m_stack[m_stack_ptr] := UNINIT;
    }

    method ReturnState()
      requires Shape() && m_stack_ptr > 0
      modifies `m_state, `m_stack_ptr, m_stack
      ensures Shape()
      ensures Abs() == old(Abs()).(state := old(m_stack[m_stack_ptr - 1]), stack := old(m_stack[..m_stack_ptr - 1]))
    {
      var s := PopState();
      m_state := s;
    }

    /** sprintf into m_obuf; the caller must keep the line within LINELEN. */
    method Print(line: string)
      requires Shape() && 0 < |line| <= LINELEN
      modifies `m_obuf, `m_obuflen
      ensures Shape() && Abs() == old(Abs()).(obuf := line)
    {
      m_obuf := line;
      m_obuflen := |line|;
    }

    /** The scan of a reply to PASV. */
    method FindAddress(ibuf: string) returns (six: Option<seq<int>>)
      ensures six == ParseSix(ibuf)
    {
      var comma := FindComma(ibuf);
      if comma == |ibuf| {
        return None;
      }
      var p := comma;
      while p > 0 && IsDigit(ibuf[p - 1])
        invariant 0 <= p <= comma && StepBack(ibuf, p) == StepBack(ibuf, comma)
      {
        p := p - 1;
      }
      return ScanList(ibuf[p..], 6);
    }

    method GiveInput(ibuf: string) returns (err: Errno)
      requires Valid() && IsLine(ibuf) && |m_password| < MAXPASSWORD && |m_fname| < MAXFNAME
      modifies this, m_stack
      ensures Valid() && (Abs(), err) == Give(old(Abs()), ibuf)
      ensures m_password == old(m_password) && m_fname == old(m_fname)
    {
      hide ParseSix, Atoi;
      var status := Atoi(ibuf);
      if m_multiline {
        if Fourth(ibuf) == ' ' && status == m_status {
          m_multiline := false;
        }
        return OK;
      }
      m_status := status;
      m_response := Truncate(ibuf, LINELEN);
      if Fourth(ibuf) == '-' {
        m_multiline := true;
      }
      ghost var saved := Abs();
      assert saved == SaveReply(old(Abs()), ibuf);
      err := Answer(ibuf, saved);
    }

    /** The switch on the state. */
    method Answer(ibuf: string, ghost saved: Proto) returns (err: Errno)
      requires Valid() && IsLine(ibuf) && |m_password| < MAXPASSWORD && |m_fname| < MAXFNAME && saved == Abs()
      modifies this, m_stack
      ensures Valid() && (Abs(), err) == React(saved, ibuf)
      ensures m_password == old(m_password) && m_fname == old(m_fname)
    {
      hide ParseSix, MakeAddress, IsLine, React, StackFits;
      match m_state {
        case INIT =>
          err := AnswerGreeting(ibuf);
          return;
        case USER =>
          AnswerUser(ibuf);
        case PORT =>
          AnswerPort(ibuf);
        case PASV =>
          AnswerPassive(ibuf);
        case _ =>
          err := AnswerPlain(ibuf);
          return;
      }
      return OK;
    }

    /** The states that a reply only moves on. */
    method AnswerPlain(ghost ibuf: string) returns (err: Errno)
      requires Valid() && m_state != INIT && m_state != USER && m_state != PORT && m_state != PASV
      modifies `m_state
      ensures Valid() && (Abs(), err) == React(old(Abs()), ibuf)
    {
      PlainReact(Abs(), ibuf);
      hide React;
      match m_state {
        case PASS =>
          m_state := if 200 <= m_status < 300 then IDLE else INIT;
        case CWD =>
          m_state := IDLE;
        case TYPE =>
          m_state := IDLE;
        case SIZE =>
          m_state := IDLE;
        case RETR =>
          m_state := if 100 <= m_status < 200 then RETR else IDLE;
        case _ =>
          return EINVAL;
      }
      return OK;
    }

    method AnswerGreeting(ghost ibuf: string) returns (err: Errno)
      requires Valid() && m_state == INIT
      modifies `m_state, `m_sent_user
      ensures Valid() && (Abs(), err) == React(old(Abs()), ibuf)
    {
      if 200 <= m_status < 300 {
        if m_sent_user {
          m_state := USER;
          m_sent_user := false;
        } else {
          m_state := CONNECTED;
        }
      } else {
        m_state := UNINIT;
        return EACCES;
      }
      return OK;
    }

    method AnswerUser(ghost ibuf: string)
      requires Valid() && m_state == USER && |m_password| < MAXPASSWORD
      modifies `m_state, `m_obuf, `m_obuflen
      ensures Valid() && (Abs(), OK) == React(old(Abs()), ibuf)
    {
      if 200 <= m_status < 300 {
        m_state := IDLE;
      } else if 300 <= m_status < 400 {
        Print("PASS " + m_password + CRLF);
        m_state := PASS;
      } else {
        m_state := INIT;
      }
    }

    lemma OneSaved()
      requires Valid() && (m_state == PORT || m_state == PASV)
      ensures m_stack_ptr == 1 && m_stack[0] == RETR && m_stack[..0] == []
    {
      assert m_stack[..m_stack_ptr] == [RETR];
    }

    method AnswerPort(ghost ibuf: string)
      requires Valid() && m_state == PORT
      modifies `m_state, `m_stack_ptr, m_stack
      ensures Valid() && (Abs(), OK) == React(old(Abs()), ibuf)
    {
      OneSaved();
      if 200 <= m_status < 300 {
        ReturnState();
      } else {
        var ignored := PopState();
        m_state := IDLE;
      }
    }

    method AnswerPassive(ibuf: string)
      requires Valid() && IsLine(ibuf) && |m_fname| < MAXFNAME && m_state == PASV
      modifies this, m_stack
      ensures Valid() && (Abs(), OK) == React(old(Abs()), ibuf)
      ensures m_password == old(m_password) && m_fname == old(m_fname)
    {
      hide ParseSix, MakeAddress, IsLine, React;
      var status := m_status;
      OneSaved();
      ghost var was := Abs();
      PassiveReact(was, ibuf);
      if 200 <= status < 300 {
        var six := FindAddress(ibuf);
        if six.Some? {
          Accept(six.value);
          return;
        }
      }
      var ignored := PopState();
      m_state := IDLE;
    }

    /** The address has been read. */
    method Accept(six: seq<int>)
      requires Valid() && m_state == PASV && |six| == 6 && |m_fname| < MAXFNAME
      modifies `m_address, `m_address_ready, `m_state, `m_stack_ptr, `m_obuf, `m_obuflen, m_stack
      ensures Valid()
      ensures Abs() == old(Abs()).(address := MakeAddress(six), addressReady := true, state := RETR, stack := [],
                                   obuf := "RETR " + m_fname + CRLF)
    {
      hide MakeAddress;
      OneSaved();
      m_address := MakeAddress(six);
      m_address_ready := true;
      ReturnState();
      if m_state == RETR {
        Print("RETR " + m_fname + CRLF);
      }
    }

    /** cd, type and size: one command, allowed only when idle with nothing to send. */
    method Ask(command: string, next: State) returns (err: Errno)
      requires Valid() && |command| + 2 <= LINELEN && next != PORT && next != PASV
      modifies this
      ensures Valid() && (Abs(), err) == Request(old(Abs()), command, next)
    {
      if m_state != IDLE {
        return EISCONN;
      }
      if m_obuflen != 0 {
        return EWOULDBLOCK;
      }
      Print(command + CRLF);
      m_state := next;
      return OK;
    }

    method DoLogin(username: string, password: string) returns (err: Errno)
      requires Valid() && |username| + 7 <= LINELEN
      modifies this
      ensures Valid() && (Abs(), err) == Step(old(Abs()), Login(username, password))
      ensures |old(m_password)| < MAXPASSWORD ==> |m_password| < MAXPASSWORD
    {
      if m_state != INIT && m_state != CONNECTED {
        return EISCONN;
      }
      if m_sent_user {
        return EISCONN;
      }
      if m_obuflen != 0 {
        return EWOULDBLOCK;
      }
      Print("USER " + username + CRLF);
      m_password := Truncate(password, MAXPASSWORD - 1);
      if m_state == CONNECTED {
        m_state := USER;
      } else {
        m_sent_user := true;
      }
      return OK;
    }

    method DoGet(fname: string, adr: Option<Ip>) returns (err: Errno)
      requires Valid()
      modifies this, m_stack
      ensures Valid() && (Abs(), err) == Step(old(Abs()), Get(fname, adr))
      ensures |old(m_fname)| < MAXFNAME ==> |m_fname| < MAXFNAME
    {
      if m_state != IDLE {
        return EISCONN;
      }
      if m_obuflen != 0 {
        return EWOULDBLOCK;
      }
      if |fname| >= MAXFNAME {
        return E2BIG;
      }
      m_fname := fname;
      if adr.Some? {
        PortFits(adr.value);
        Print(PortCommand(adr.value) + CRLF);
        CallState(PORT, RETR);
      } else {
        Print("PASV" + CRLF);
        CallState(PASV, RETR);
      }
      return OK;
    }

    method DoAdvanceOutput()
      requires Valid()
      modifies `m_obuflen
      ensures Valid() && Abs() == Step(old(Abs()), AdvanceOutput).0
    {
      m_obuflen := 0;
    }

    method IsPortReady() returns (ready: bool, address: Address)
      requires Valid()
      modifies `m_address_ready
      ensures Valid() && Abs() == Step(old(Abs()), TakePort).0
      ensures ready == old(m_address_ready) && address == m_address && !m_address_ready
    {
      if !m_address_ready {
        return false, m_address;
      }
      m_address_ready := false;
      return true, m_address;
    }
  }
}
