/** The control conversation of an FTP session as a log, and what the log has to satisfy. */
module FtpLog {
  import opened Text
  import opened FtpVerbs

  /** The handlers of the command loop. */
  datatype Handler = Cwd | List | Mkd | Pasv | Port | Pwd | Retr | Size | Stor | Syst | Type | User | Unsupported

  /** The branch taken for a verb; most verbs of the table are answered 500. */
  function HandlerOf(verb: Option<string>): Handler {
    if verb == Some("CWD") then Cwd
    else if verb == Some("LIST") then List
    else if verb == Some("MKD") then Mkd
    else if verb == Some("PASV") then Pasv
    else if verb == Some("PORT") then Port
    else if verb == Some("PWD") then Pwd
    else if verb == Some("RETR") then Retr
    else if verb == Some("SIZE") then Size
    else if verb == Some("STOR") then Stor
    else if verb == Some("SYST") then Syst
    else if verb == Some("TYPE") then Type
    else if verb == Some("USER") then User
    else Unsupported
  }

  /** What a read on the control connection brings. */
  datatype Delivery = Message(text: string) | Failure  // a read that ends or breaks

  datatype Event =
    | Received(text: string, handler: Handler, atMain: bool)  // a control message, and where it was read
    | RecvFailed                                              // a read that threw
    | Sent(text: string)                                      // a reply
    | Unsent(text: string)                                    // a reply whose sending threw
    | Dialed(host: string, port: int, ok: bool)               // a data connection tried, the old one deleted
    | Moved(ok: bool)                                         // a transfer on it: through, and deleted; or thrown
  {
    predicate IsControl() { Received? || RecvFailed? || Sent? }
  }

  /** A message, with the handler the command loop has for it. */
  function Arrival(text: string, atMain: bool): Event {
    Received(text, HandlerOf(Dispatch(text)), atMain)
  }

  datatype Log = Start | Then(before: Log, event: Event)

  /** The control events, in order. */
  function Conversation(log: Log): seq<Event> {
    match log
    case Start => []
    case Then(before, e) => if e.IsControl() then Conversation(before) + [e] else Conversation(before)
  }

  /** Everything read so far. */
  function Reads(log: Log): seq<Delivery> {
    match log
    case Start => []
    case Then(before, Received(text, _, _)) => Reads(before) + [Message(text)]
    case Then(before, RecvFailed) => Reads(before) + [Failure]
    case Then(before, _) => Reads(before)
  }

  /** Whether there is a data connection: one was made, and no transfer has gone through on it. */
  function Has(log: Log): bool {
    match log
    case Start => false
    case Then(_, Dialed(_, _, ok)) => ok
    case Then(before, Moved(ok)) => Has(before) && !ok
    case Then(before, _) => Has(before)
  }

  // Reply codes, by their three digits.
  predicate Is150(t: string) { |t| >= 3 && t[0] == '1' && t[1] == '5' && t[2] == '0' }
  predicate Is226(t: string) { |t| >= 3 && t[0] == '2' && t[1] == '2' && t[2] == '6' }
  predicate Is500(t: string) { |t| >= 3 && t[0] == '5' && t[1] == '0' && t[2] == '0' }

  // ---------- one reply for each message ----------

  predicate IsReply(e: Event) { e.Sent? && !Is150(e.text) }
  predicate IsCommand(e: Event, h: Handler) { e.Received? && e.atMain && e.handler == h }

  function Weight(e: Event): int {
    match e
    case Received(_, handler, atMain) => if atMain && (handler == Size || handler == User) then 0 else 1
    case RecvFailed => 1
    case Sent(text) => if Is150(text) then 0 else -1
    case _ => 0
  }

  /** Replies still owed: the greeting, and one for each message, with the exceptions. */
  function Owed(log: Log): int {
    match log
    case Start => 1
    case Then(before, e) => Owed(before) + Weight(e)
  }

  function Count(log: Log, p: Event -> bool): nat {
    match log
    case Start => 0
    case Then(before, e) => Count(before, p) + if p(e) then 1 else 0
  }

  /** In counts: the greeting, plus a reply for every message and failed read, except for main-loop SIZE
      (never answered) and main-loop USER (whose login reads on), less the replies sent, 150s apart. */
  lemma {:induction false} OwedInCounts(log: Log)
    ensures Owed(log) == 1 + Count(log, (e: Event) => e.Received?) + Count(log, (e: Event) => e.RecvFailed?)
      - Count(log, e => IsCommand(e, Size)) - Count(log, e => IsCommand(e, User))
      - Count(log, e => IsReply(e))
  {
    if log.Then? {
      OwedInCounts(log.before);
    }
  }

  // ---------- every 150 is concluded ----------

  datatype Phase = Idle | Transferring | Broken

  function Step(ph: Phase, e: Event): Phase {
    match (ph, e)
    case (_, Dialed(_, _, _)) => ph
    case (_, Moved(_)) => ph
    case (_, Unsent(_)) => ph
    case (Idle, Sent(t)) => if Is150(t) then Transferring else if Is226(t) then Broken else Idle
    case (Idle, _) => Idle
    case (Transferring, Sent(t)) => if Is226(t) || Is500(t) then Idle else Broken
    case _ => Broken
  }

  /** Where the conversation stands: `Broken` once a 226 comes without a 150, or anything other than one
      226 or 500 follows a 150. */
  function PhaseOf(log: Log): Phase {
    match log
    case Start => Idle
    case Then(before, e) => Step(PhaseOf(before), e)
  }

  lemma {:induction false} SilentIsIdle(log: Log)
    requires Conversation(log) == []
    ensures PhaseOf(log) == Idle
  {
    if log.Then? {
      SilentIsIdle(log.before);
    }
  }

  /** In a conversation that is not broken, a 150 that is not the last control event is followed at
      once by a 226 or a 500, and a 226 comes only there. */
  lemma {:induction false} PhasePairs(log: Log, i: nat)
    requires PhaseOf(log) != Broken && i < |Conversation(log)|
    ensures var es := Conversation(log);
      && (es[i].Sent? && Is150(es[i].text) && i + 1 < |es| ==>
            es[i + 1].Sent? && (Is226(es[i + 1].text) || Is500(es[i + 1].text)))
      && (es[i].Sent? && Is226(es[i].text) ==> i > 0 && es[i - 1].Sent? && Is150(es[i - 1].text))
      && (i == |es| - 1 ==> (PhaseOf(log) == Transferring <==> es[i].Sent? && Is150(es[i].text)))
  {
    var n := |Conversation(log.before)|;
    if i < n || !log.event.IsControl() {
      PhasePairs(log.before, i);
    } else if n > 0 {
      PhasePairs(log.before, n - 1);
    } else {
      SilentIsIdle(log.before);
    }
  }

  // ---------- the working directory ----------

  const HOME := "/home/ho80/"
  const NAME_MAX := 512

  /** `sscanf(line, "VERB %s", name)` */
  function ScanArg(verb: string, line: string): Option<string> {
    match ScanLiteral(verb, line)
    case None => None
    case Some(rest) =>
      match ScanToken(rest)
      case None => None
      case Some((arg, _)) => Some(arg)
  }

  /** The line is the verb, white space or none, and the argument, up to white space, a NUL or the end. */
  ghost predicate Names(line: string, verb: string, arg: string) {
    exists sp, end :: line == verb + (sp + (arg + end)) && AllSpace(sp) && IsToken(arg)
      && (end == "" || IsSpace(end[0]) || end[0] == NUL)
  }

  lemma SpaceBefore(s: string) returns (sp: string)
    ensures s == sp + SkipSpace(s) && AllSpace(sp)
  {
    sp := "";
    if s != [] && IsSpace(s[0]) {
      var more := SpaceBefore(s[1..]);
      sp := [s[0]] + more;
      assert s == [s[0]] + s[1..];
    }
  }

  lemma ScanArgFinds(line: string, verb: string, arg: string)
    requires ScanArg(verb, line) == Some(arg)
    ensures Names(line, verb, arg)
  {
    var rest := line[|verb|..];
    var sp := SpaceBefore(rest);
    var t, n := SkipSpace(rest), TokenRun(SkipSpace(rest));
    assert t == arg + t[n..] && line == verb + rest;
    assert line == verb + (sp + (arg + t[n..]));
  }

  lemma ScanArgExactly(line: string, verb: string, arg: string)
    ensures ScanArg(verb, line) == Some(arg) <==> Names(line, verb, arg)
  {
    if ScanArg(verb, line) == Some(arg) {
      ScanArgFinds(line, verb, arg);
    } else if Names(line, verb, arg) {
      var sp, end :| line == verb + (sp + (arg + end)) && AllSpace(sp) && IsToken(arg)
        && (end == "" || IsSpace(end[0]) || end[0] == NUL);
      assert line[|verb|..] == sp + (arg + end);
      SpacedToken(sp, arg, end);
    }
  }

  /** The argument overruns the fixed buffer it is read into. */
  predicate Overlong(verb: string, line: string) {
    var arg := ScanArg(verb, line);
    arg.Some? && |arg.value| >= NAME_MAX
  }

  function ChangeDir(pwd: string, arg: string): string {
    if arg != "" && arg[0] == '/' then arg else pwd + "/" + arg
  }

  /** The argument of a CWD command that is accepted. */
  function CwdArg(e: Event): Option<string> {
    if IsCommand(e, Cwd) then
      var arg := ScanArg("CWD", e.text);
      if arg.Some? && |arg.value| >= NAME_MAX then None else arg
    else None
  }

  function DirAfter(dir: string, e: Event): string {
    var arg := CwdArg(e);
    if arg.Some? then ChangeDir(dir, arg.value) else dir
  }

  /** The working directory after a conversation. */
  function Where(log: Log): string {
    match log
    case Start => HOME
    case Then(before, e) => DirAfter(Where(before), e)
  }

  function Accepted(log: Log): seq<string> {
    match log
    case Start => []
    case Then(before, e) =>
      var arg := CwdArg(e);
      if arg.Some? then Accepted(before) + [arg.value] else Accepted(before)
  }

  /** What is accepted: exactly the argument of a CWD line that is read and fits its buffer. */
  lemma AcceptedExactly(log: Log, e: Event, arg: string)
    ensures Accepted(Then(log, e)) == Accepted(log) + [arg] <==>
      IsCommand(e, Cwd) && Names(e.text, "CWD", arg) && |arg| < 512
    ensures Accepted(Then(log, e)) == Accepted(log) || exists a :: Accepted(Then(log, e)) == Accepted(log) + [a]
  {
    if e.Received? {
      ScanArgExactly(e.text, "CWD", arg);
    }
    assert |Accepted(log) + [arg]| > |Accepted(log)|;
    assert (Accepted(log) + [arg])[|Accepted(log)|] == arg;
  }

  predicate IsAbsolute(arg: string) { arg != "" && arg[0] == '/' }

  /** The relative arguments, each behind a slash. */
  function Descend(args: seq<string>): string {
    if args == [] then "" else Descend(args[..|args| - 1]) + "/" + args[|args| - 1]
  }

  function Fold(args: seq<string>): string {
    if args == [] then HOME else ChangeDir(Fold(args[..|args| - 1]), args[|args| - 1])
  }

  lemma {:induction false} WhereIsFold(log: Log)
    ensures Where(log) == Fold(Accepted(log))
  {
    if log.Then? {
      WhereIsFold(log.before);
      if CwdArg(log.event).Some? {
        assert Accepted(log)[..|Accepted(log)| - 1] == Accepted(log.before);
      }
    }
  }

  lemma DescendPush(args: seq<string>, k: nat)
    requires k < |args|
    ensures Descend(args[k..]) == Descend(args[..|args| - 1][k..]) + "/" + args[|args| - 1]
  {
    var tail := args[k..];
    assert tail[..|tail| - 1] == args[..|args| - 1][k..];
  }

  lemma DescendOnce(base: string, rel: string, last: string)
    requires !IsAbsolute(last)
    ensures ChangeDir(base + rel, last) == base + (rel + "/" + last)
  {
    Reassociate(base, rel, "/" + last);
    Reassociate(base + rel, "/", last);
    Reassociate(rel, "/", last);
  }

  lemma {:induction false} FoldIsResolved(args: seq<string>, k: nat)
    requires k <= |args| && (k == 0 || IsAbsolute(args[k - 1]))
    requires forall i :: k <= i < |args| ==> !IsAbsolute(args[i])
    ensures Fold(args) == (if k == 0 then HOME else args[k - 1]) + Descend(args[k..])
    decreases |args|
  {
    var base := if k == 0 then HOME else args[k - 1];
    if k == |args| {
      assert args[k..] == [] && base + "" == base;
    } else {
      var front, last := args[..|args| - 1], args[|args| - 1];
      FoldIsResolved(front, k);
      DescendPush(args, k);
      DescendOnce(base, Descend(front[k..]), last);
    }
  }

  /** Where the session is, from the arguments accepted: the last absolute one, or the home directory,
      followed by every later relative one. */
  lemma WhereIsResolved(log: Log, k: nat)
    requires k <= |Accepted(log)| && (k == 0 || IsAbsolute(Accepted(log)[k - 1]))
    requires forall i :: k <= i < |Accepted(log)| ==> !IsAbsolute(Accepted(log)[i])
    ensures Where(log) == (if k == 0 then "/home/ho80/" else Accepted(log)[k - 1]) + Descend(Accepted(log)[k..])
    ensures IsAbsolute(Where(log))
  {
    WhereIsFold(log);
    FoldIsResolved(Accepted(log), k);
    var base := if k == 0 then HOME else Accepted(log)[k - 1];
    assert IsAbsolute(base) && (base + Descend(Accepted(log)[k..]))[0] == base[0];
  }

  // ---------- replies ----------

  const SYNTAX_ERROR := "500 " + "Syntax error, command unrecognized.\n"

  /** The one reply of a handler that sends one, for a message and the working directory after it; of
      PORT, for a line that is understood. */
  function ReplyTo(h: Handler, message: string, pwd: string): string {
    match h
    case Cwd => if ScanArg("CWD", message).None? then SYNTAX_ERROR else "250 " + "Directory successfully changed.\r\n"
    case Mkd =>
      var name := ScanArg("MKD", message);
      if name.None? then SYNTAX_ERROR else "257 " + "Make directory " + name.value + " complete.\n"
    case Pasv => "227 " + "Entering Passive Mode.\n"
    case Port => "200 " + "PORT command successful. Consider using PASV.\n"
    case Pwd => "257 " + "\"" + pwd + "\" is the current directory\r\n"
    case Syst => "215 " + "UNIX Type: L8\n"
    case Type => "200 " + "okay.\n"
    case _ => SYNTAX_ERROR
  }

  /** The conclusion of a transfer, its 226 or a 500, by handler. */
  function Concluding(h: Handler): string {
    match h
    case List => "226 " + "Directory send OK.\n"
    case Retr => "226 " + "file send OK.\n"
    case _ => "226 " + "Transfer complete.\n"
  }

  function Preliminary(h: Handler): string {
    match h
    case List => "150 " + "Here comes the directory listing.\n"
    case Retr => "150 " + "file open\n"
    case _ => "150 " + "Ok to send data.\n"
  }

  lemma Codes(h: Handler, message: string, pwd: string)
    ensures !Is150(ReplyTo(h, message, pwd)) && !Is226(ReplyTo(h, message, pwd))
    ensures Is150(Preliminary(h)) && Is226(Concluding(h)) && Is500(SYNTAX_ERROR)
  {}

  // ---------- PORT ----------

  /** `count` numbers separated by commas, as `%d,%d,...` reads them into 32-bit integers. */
  function ScanInts(s: string, count: nat): (r: Option<seq<int>>)
    requires count > 0
    ensures r.Some? ==> |r.value| == count
    decreases count, |s|
  {
    match ScanInt(s)
    case None => None
    case Some((v, rest)) =>
      if count == 1 then Some([ToInt32(ToLong(v))])
      else
        match ScanLiteral(",", rest)
        case None => None
        case Some(more) =>
          match ScanInts(more, count - 1)
          case None => None
          case Some(vs) => Some([ToInt32(ToLong(v))] + vs)
  }

  /** `std::to_string` of an `int`. */
  function Show(v: int): string { if v < 0 then "-" + Decimal(-v) else Decimal(v) }

  /** Numbers with dots between them. */
  function Dots(v: seq<int>): string {
    if v == [] then "" else if |v| == 1 then Show(v[0]) else Show(v[0]) + "." + Dots(v[1..])
  }

  function Dotted(v: seq<int>): string
    requires |v| >= 4
  {
    Dots(v[..4])
  }

  const PORT_FIELDS: nat := 6

  /** `sscanf(line, "PORT %d,%d,%d,%d,%d,%d")`, when all six are read. */
  function PortNumbers(line: string): (r: Option<seq<int>>)
    ensures r.Some? ==> |r.value| == PORT_FIELDS
  {
    match ScanLiteral("PORT", line)
    case None => None
    case Some(rest) => ScanInts(rest, PORT_FIELDS)
  }

  function PortOf(v: seq<int>): int
    requires |v| == PORT_FIELDS
  {
    ToInt32(v[4] * 256 + v[5])
  }

  /** The host and port a PORT line names. */
  function Target(line: string): Option<(string, int)> {
    match PortNumbers(line)
    case None => None
    case Some(v) => Some((Dotted(v), PortOf(v)))
  }

  /** Numbers printed with commas between them. */
  function Commas(v: seq<nat>): string {
    if v == [] then "" else if |v| == 1 then Decimal(v[0]) else Decimal(v[0]) + ("," + Commas(v[1..]))
  }

  lemma ScanIntsOnce(n: nat, rest: string)
    requires n < 0x8000_0000 && (rest == [] || !IsDigit(rest[0]))
    ensures ScanInts(Decimal(n) + rest, 1) == Some([n])
  {
    ScanIntOf(n, rest);
  }

  lemma ScanIntsMore(s: string, n: int, more: string, count: nat)
    requires count > 0 && ScanInt(s) == Some((n, "," + more)) && 0 <= n < 0x8000_0000
    ensures ScanInts(more, count).Some? ==> ScanInts(s, count + 1) == Some([n] + ScanInts(more, count).value)
  {
    assert ("," + more)[1..] == more;
  }

  lemma CommasStep(d: string, tail: string, rest: string)
    ensures d + ("," + tail) + rest == d + ("," + (tail + rest))
  {}

  lemma ScanCommasStep(n: nat, tail: seq<nat>, rest: string)
    requires tail != [] && n < 0x8000_0000 && ScanInts(Commas(tail) + rest, |tail|) == Some(tail)
    ensures ScanInts(Decimal(n) + ("," + Commas(tail)) + rest, |tail| + 1) == Some([n] + tail)
  {
    var more := Commas(tail) + rest;
    CommasStep(Decimal(n), Commas(tail), rest);
    ScanIntOf(n, "," + more);
    ScanIntsMore(Decimal(n) + ("," + more), n, more, |tail|);
  }

  lemma {:induction false} ScanCommas(v: seq<nat>, rest: string)
    requires v != [] && (rest == [] || !IsDigit(rest[0]))
    requires forall i :: 0 <= i < |v| ==> v[i] < 0x8000_0000
    ensures ScanInts(Commas(v) + rest, |v|) == Some(v)
    decreases |v|
  {
    var n, tail := v[0], v[1..];
    if |v| == 1 {
      assert v == [n];
      ScanIntsOnce(n, rest);
    } else {
      assert v == [n] + tail;
      ScanCommas(tail, rest);
      ScanCommasStep(n, tail, rest);
    }
  }

  lemma SpaceFirst(s: string, count: nat)
    requires count > 0
    ensures ScanInts(" " + s, count) == ScanInts(s, count)
  {
    assert (" " + s)[1..] == s;
    assert SkipSpace(" " + s) == SkipSpace(s);
  }

  /** The PORT line a client prints for an address and a port (section 4.1.2 of RFC 959) gives both
      back, whatever ends the line. */
  lemma PortRoundTrip(v: seq<nat>, port: nat, end: string)
    requires |v| == PORT_FIELDS && port < 65536 && v[4] == port / 256 && v[5] == port % 256
    requires forall i :: 0 <= i < 4 ==> v[i] < 256
    requires end == "" || !IsDigit(end[0])
    ensures PortNumbers("PORT" + (" " + (Commas(v) + end))) == Some(v) && PortOf(v) == port
  {
    var args := Commas(v) + end;
    ScanCommas(v, end);
    SpaceFirst(args, PORT_FIELDS);
    assert ("PORT" + (" " + args))[4..] == " " + args;
  }

  /** Four octets with dots between them. */
  function Address(v: seq<nat>): string
    requires |v| >= 4
  {
    Decimal(v[0]) + "." + Decimal(v[1]) + "." + Decimal(v[2]) + "." + Decimal(v[3])
  }

  lemma DotsFrom(v: seq<int>, w: seq<nat>, i: nat)
    requires |v| == 4 && |w| >= 4 && i < 4 && forall k :: 0 <= k < 4 ==> v[k] == w[k]
    ensures Dots(v[i..]) == if i == 3 then Decimal(w[3]) else Decimal(w[i]) + "." + Dots(v[i + 1..])
  {
    assert v[i..][0] == w[i] && v[i..][1..] == v[i + 1..];
  }

  lemma DottedIsAddress(v: seq<int>, w: seq<nat>)
    requires |v| >= 4 && |w| >= 4 && forall k :: 0 <= k < 4 ==> v[k] == w[k]
    ensures Dotted(v) == Address(w)
  {
    var u := v[..4];
    assert u[0..] == u;
    DotsFrom(u, w, 0);
    DotsFrom(u, w, 1);
    DotsFrom(u, w, 2);
    DotsFrom(u, w, 3);
    var a, b, c, d := Decimal(w[0]), Decimal(w[1]), Decimal(w[2]), Decimal(w[3]);
    Reassociate(a + ".", b + ".", c + "." + d);
    Reassociate(a + ".", b, ".");
    Reassociate(b + ".", c + ".", d);
    Reassociate(b + ".", c, ".");
    assert Dotted(v) == a + "." + (b + "." + (c + "." + d));
    assert a + "." + (b + "." + (c + "." + d)) == a + "." + b + "." + c + "." + d;
  }

  /** So the address as it was written, and the port, are what a data connection is made to. */
  lemma TargetRoundTrip(v: seq<nat>, port: nat, end: string)
    requires |v| == PORT_FIELDS && port < 65536 && v[4] == port / 256 && v[5] == port % 256
    requires forall i :: 0 <= i < 4 ==> v[i] < 256
    requires end == "" || !IsDigit(end[0])
    ensures Target("PORT" + (" " + (Commas(v) + end))) == Some((Address(v), port))
  {
    PortRoundTrip(v, port, end);
    DottedIsAddress(v, v);
  }

  /** What ends a list of numbers. */
  predicate EndsNumbers(rest: string) { rest == "" || (!IsDigit(rest[0]) && rest[0] != ',') }

  lemma TooFewOnce(n: nat, rest: string, count: nat)
    requires EndsNumbers(rest) && count > 1
    ensures ScanInts(Decimal(n) + rest, count) == None
  {
    ScanIntOf(n, rest);
  }

  lemma ScanIntsLess(s: string, n: int, more: string, count: nat)
    requires count > 0 && ScanInt(s) == Some((n, "," + more)) && ScanInts(more, count) == None
    ensures ScanInts(s, count + 1) == None
  {
    assert ("," + more)[1..] == more;
  }

  lemma ScanTooFewStep(n: nat, tail: string, rest: string, count: nat)
    requires count > 0 && ScanInts(tail + rest, count) == None
    ensures ScanInts(Decimal(n) + ("," + tail) + rest, count + 1) == None
  {
    var more := tail + rest;
    CommasStep(Decimal(n), tail, rest);
    ScanIntOf(n, "," + more);
    ScanIntsLess(Decimal(n) + ("," + more), n, more, count);
  }

  lemma CommasOf(v: seq<nat>)
    requires v != []
    ensures Commas(v) == if |v| == 1 then Decimal(v[0]) else Decimal(v[0]) + ("," + Commas(v[1..]))
  {}

  lemma {:induction false} ScanTooFew(v: seq<nat>, rest: string, count: nat)
    requires 0 < |v| < count && EndsNumbers(rest)
    ensures ScanInts(Commas(v) + rest, count) == None
    decreases |v|
  {
    CommasOf(v);
    var n := v[0];
    if |v| == 1 {
      TooFewOnce(n, rest, count);
    } else {
      ScanTooFew(v[1..], rest, count - 1);
      ScanTooFewStep(n, Commas(v[1..]), rest, count - 1);
    }
  }

  /** A PORT line with fewer than six numbers is not understood. */
  lemma TooFewNumbers(v: seq<nat>, end: string)
    requires 0 < |v| < PORT_FIELDS && EndsNumbers(end)
    ensures Target("PORT" + (" " + (Commas(v) + end))) == None
  {
    var args := Commas(v) + end;
    ScanTooFew(v, end, PORT_FIELDS);
    SpaceFirst(args, PORT_FIELDS);
    assert ("PORT" + (" " + args))[4..] == " " + args;
  }

  predicate NoCapitals(s: string) { forall i | 0 <= i < |s| :: !IsUpper(s[i]) }

  lemma {:induction false} CommasNoCapitals(v: seq<nat>)
    ensures NoCapitals(Commas(v))
  {
    if v != [] {
      ValueOfDecimal(v[0]);
      if |v| > 1 {
        CommasNoCapitals(v[1..]);
      }
    }
  }

  lemma NoCapitalsNoWord(s: string, w: string)
    requires NoCapitals(s) && IsWord(w)
    ensures !Contains(s, w)
  {
    forall i | 0 <= i <= |s| - |w| ensures !Occurs(s, w, i) {
      if Occurs(s, w, i) {
        OccursLetters(s, w, i);
        assert false;
      }
    }
  }

  /** And the line is dispatched to PORT. */
  lemma PortLineIsPort(v: seq<nat>, end: string)
    requires NoCapitals(end)
    ensures Dispatch("PORT" + [' '] + (Commas(v) + end)) == Some("PORT")
  {
    var k: nat := 31;
    var args := Commas(v) + end;
    CommasNoCapitals(v);
    forall j | 0 <= j < k ensures !Contains(args, Verb(j)) {
      VerbIsWord(j);
      NoCapitalsNoWord(args, Verb(j));
    }
    assert Verb(k) == "PORT";
    DispatchIsExact(k, ' ', args);
  }
}
