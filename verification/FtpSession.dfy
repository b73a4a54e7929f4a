/** The sessions of the FTP server: an acceptor that reads a log one event at a time, and what holds of
    every log it accepts. `Ftp` proves that the server produces no others. */
module FtpSession {
  import opened Text
  import opened FtpVerbs
  import opened FtpLog

  const GREETING := "220 " + "(ho80 server)\r\n"
  const ASK_PASSWORD := "331 " + "Please specify the password.\n"
  const WELCOME := "230 " + "Login successful.\n"

  /** The reply to a first login message that could not be read, or has no USER in it. */
  function Refusal(unread: bool): string {
    "530 " + if unread then "Login incorrect.\r\n" else "Please Login again.\n"
  }

  /** The files that can be opened, with their contents, and the lines of the directories that can. */
  datatype Disk = Disk(files: map<string, string>, listings: map<string, seq<string>>)

  /** What a step depends on besides the point: the working directory and whether there is a data
      connection, both as the log tells, and the disk. */
  datatype Env = Env(dir: string, has: bool, disk: Disk)

  function EnvOf(log: Log, disk: Disk): Env { Env(Where(log), Has(log), disk) }

  /** What the server does next. `again` marks the login that USER starts in the command loop: whatever
      comes of it, the command loop goes on. `moved` is false when a listing is concluded because its 500
      could not be sent. */
  datatype Point =
    | Greeting
    | Login(again: bool)
    | Refusing(unread: bool, again: bool)
    | Asking
    | Password
    | Welcoming
    | Command
    | Dialing(line: string, host: string, port: int)
    | Replying(handler: Handler, line: string)
    | Storing
    | Opening(handler: Handler, line: string)
    | Moving(handler: Handler, line: string)
    | Closing(handler: Handler, moved: bool)
    | Ended(open: bool)  // an exception nothing catches, with or without a 150 left open
    | Off                // not a session of this server

  /** What a command is owed. */
  function Due(h: Handler, line: string): Point {
    match h
    case Size => Command
    case User => Login(true)
    case Stor => Storing
    case List => Opening(List, line)
    case Retr => Opening(Retr, line)
    case Port =>
      var to := Target(line);
      if to.Some? then Dialing(line, to.value.0, to.value.1) else Replying(Unsupported, line)
    case _ => Replying(h, line)
  }

  /** The contents of the file a RETR line names, if it names one that can be opened. */
  function Asked(line: string, dir: string, disk: Disk): Option<string> {
    match ScanArg("RETR", line)
    case None => None
    case Some(name) => if dir + "/" + name in disk.files then Some(disk.files[dir + "/" + name]) else None
  }

  predicate Openable(h: Handler, line: string, env: Env) {
    if h == List then env.dir in env.disk.listings else Asked(line, env.dir, env.disk).Some?
  }

  /** Where the server's behaviour is undefined: a null data connection is used, or a name overruns its
      buffer. */
  predicate Undefined(p: Point, env: Env) {
    match p
    case Replying(Cwd, line) => Overlong("CWD", line)
    case Replying(Mkd, line) => Overlong("MKD", line)
    case Storing => !env.has
    case Moving(h, line) =>
      if h == List then !env.has else Overlong("RETR", line) || (Openable(h, line, env) && !env.has)
    case _ => false
  }

  predicate IsRead(p: Point) { p.Login? || p.Password? || p.Command? }

  /** Whether a reply comes next. After the 150 of a transfer, one does if there is nothing to transfer. */
  predicate Speaks(p: Point, env: Env) {
    match p
    case Greeting => true
    case Refusing(_, _) => true
    case Asking => true
    case Welcoming => true
    case Replying(_, _) => !Undefined(p, env)
    case Opening(_, _) => true
    case Moving(h, line) => !Undefined(p, env) && !Openable(h, line, env)
    case Closing(_, _) => true
    case _ => false
  }

  /** Which. */
  function Line(p: Point, dir: string): string {
    match p
    case Greeting => GREETING
    case Refusing(unread, _) => Refusal(unread)
    case Asking => ASK_PASSWORD
    case Welcoming => WELCOME
    case Replying(h, line) => ReplyTo(h, line, dir)
    case Opening(h, _) => Preliminary(h)
    case Closing(h, _) => Concluding(h)
    case _ => SYNTAX_ERROR
  }

  /** Where it leads. */
  function Onward(p: Point): Point {
    match p
    case Greeting => Login(false)
    case Refusing(_, again) => if again then Command else Login(false)
    case Asking => Password
    case Opening(h, line) => if h == Stor then Closing(Stor, true) else Moving(h, line)
    case _ => Command
  }

  /** And where it leads when it cannot be sent: the exception is caught only inside a listing. */
  function Failing(p: Point): Point {
    if p.Moving? && p.handler == List then Closing(List, false) else Ended(p.Moving? || p.Closing?)
  }

  /** A read. */
  function Heard(p: Point, e: Event): Point {
    match p
    case Login(again) =>
      if e.RecvFailed? then Refusing(true, again)
      else if !e.Received? || e.atMain then Off
      else if Contains(e.text, "USER") then Asking
      else Refusing(false, again)
    case Password => if e.RecvFailed? then Ended(false) else if e.Received? && !e.atMain then Welcoming else Off
    case Command =>
      if e.RecvFailed? then Ended(false) else if e.Received? && e.atMain then Due(e.handler, e.text) else Off
    case _ => Off
  }

  /** A data connection tried, or a transfer on it, for which there has to be something to transfer. */
  function Shifted(p: Point, e: Event, env: Env): Point {
    match p
    case Dialing(line, host, port) =>
      if e.Dialed? && e.host == host && e.port == port then Replying(Port, line) else Off
    case Storing => if e.Moved? && env.has then Opening(Stor, "") else Off
    case Moving(h, line) =>
      if e.Moved? && !Undefined(p, env) && Openable(h, line, env) then Closing(h, true) else Off
    case _ => Off
  }

  /** The sessions of this server, one event at a time. */
  function Next(p: Point, e: Event, env: Env): Point {
    match e
    case Sent(text) => if Speaks(p, env) && text == Line(p, env.dir) then Onward(p) else Off
    case Unsent(text) => if Speaks(p, env) && text == Line(p, env.dir) then Failing(p) else Off
    case Dialed(_, _, _) => Shifted(p, e, env)
    case Moved(_) => Shifted(p, e, env)
    case _ => Heard(p, e)
  }

  function PointOf(log: Log, disk: Disk): Point {
    match log
    case Start => Greeting
    case Then(before, e) => Next(PointOf(before, disk), e, EnvOf(before, disk))
  }

  /** Every message is given to the handler of the verb it is dispatched to. */
  predicate Dispatched(log: Log) {
    match log
    case Start => true
    case Then(before, Received(text, h, _)) => Dispatched(before) && h == HandlerOf(Dispatch(text))
    case Then(before, _) => Dispatched(before)
  }

  /** One more read moves one delivery from what is to come to what was read. */
  lemma ReadOn(log: Log, e: Event, next: Delivery, rest: seq<Delivery>)
    requires if next.Failure? then e == RecvFailed else e.Received? && e.text == next.text
    ensures Reads(Then(log, e)) + rest == Reads(log) + ([next] + rest)
    ensures e.RecvFailed? || !e.atMain ==> Where(Then(log, e)) == Where(log)
  {}

  // ---------- replies owed, and every 150 concluded ----------

  /** Replies owed at a point. */
  function OwedAt(p: Point): int { if IsRead(p) then 0 else 1 }

  function PhaseAt(p: Point): Phase {
    if p.Moving? || p.Closing? || (p.Ended? && p.open) then Transferring else Idle
  }

  /** What is said opens a transfer only as its 150, and is a 226 only to conclude one. */
  lemma LineCodes(p: Point, dir: string, env: Env)
    requires Speaks(p, env)
    ensures (Is150(Line(p, dir)) <==> p.Opening?) && (Is226(Line(p, dir)) <==> p.Closing?)
    ensures p.Moving? ==> Is500(Line(p, dir))
  {
    match p
    case Replying(h, line) => Codes(h, line, dir);
    case Opening(h, line) => Codes(h, line, dir);
    case Closing(h, _) => Codes(h, "", dir);
    case _ =>
  }

  ghost predicate Settles(p: Point, e: Event, next: Point) {
    next != Off ==> OwedAt(next) == OwedAt(p) + Weight(e) && PhaseAt(next) == Step(PhaseAt(p), e)
  }

  lemma HeardSettles(p: Point, e: Event)
    requires e.Received? || e.RecvFailed?
    ensures Settles(p, e, Heard(p, e))
  {}

  lemma ShiftedSettles(p: Point, e: Event, env: Env)
    requires e.Dialed? || e.Moved?
    ensures Settles(p, e, Shifted(p, e, env))
  {}

  lemma SettledStep(p: Point, e: Event, env: Env)
    ensures Settles(p, e, Next(p, e, env))
  {
    match e
    case Sent(_) => if Speaks(p, env) { LineCodes(p, env.dir, env); }
    case Unsent(_) =>
    case Dialed(_, _, _) => ShiftedSettles(p, e, env);
    case Moved(_) => ShiftedSettles(p, e, env);
    case _ => HeardSettles(p, e);
  }

  /** In every session, wherever the server reads, nothing is owed and no 150 is open. */
  lemma {:induction false} SessionIsSettled(log: Log, disk: Disk)
    requires PointOf(log, disk) != Off
    ensures Owed(log) == OwedAt(PointOf(log, disk)) && PhaseOf(log) == PhaseAt(PointOf(log, disk))
  {
    if log.Then? {
      SettledStep(PointOf(log.before, disk), log.event, EnvOf(log.before, disk));
      SessionIsSettled(log.before, disk);
    }
  }

  /** At each point where the command loop is about to read, in counts: every reply but the 150s is the
      greeting's or answers one message or failed read, main-loop SIZE and USER apart. */
  lemma CommandsAreAnswered(log: Log, disk: Disk)
    requires PointOf(log, disk) == Command
    ensures Count(log, e => IsReply(e)) == 1
      + Count(log, (e: Event) => e.Received?) + Count(log, (e: Event) => e.RecvFailed?)
      - Count(log, e => IsCommand(e, Size)) - Count(log, e => IsCommand(e, User))
  {
    SessionIsSettled(log, disk);
    OwedInCounts(log);
  }

  // ---------- what is said after a command ----------

  /** The front part of a log that holds its first `n` control events, with what follows them on data
      connections. */
  function Front(log: Log, n: nat): Log {
    if log.Start? || |Conversation(log)| <= n then log else Front(log.before, n)
  }

  /** The last control event but `k`. */
  predicate IsLast(log: Log, k: nat, e: Event) {
    k < |Conversation(log)| && Conversation(log)[|Conversation(log)| - 1 - k] == e
  }

  lemma LastBefore(log: Log, k: nat, e: Event)
    requires log.Then? && IsLast(log, k, e)
    ensures if !log.event.IsControl() then IsLast(log.before, k, e)
            else if k == 0 then log.event == e
            else IsLast(log.before, k - 1, e)
  {}

  /** Between a command and what is said next, only data connections move. */
  ghost predicate Answering(p: Point, h: Handler, line: string) {
    || p == Due(h, line) || p.Ended?
    || (h == Port && p == Replying(Port, line) && Target(line).Some?)
    || (h == Stor && p == Opening(Stor, ""))
  }

  lemma SilentFromDue(e: Event, env: Env, h: Handler, line: string)
    requires !e.IsControl() && Next(Due(h, line), e, env) != Off
    ensures Answering(Next(Due(h, line), e, env), h, line)
  {
    var p := Due(h, line);
    if h == Port && Target(line).Some? {
      assert p.Dialing?;
    } else if h == Stor {
      assert p == Storing;
    } else {
      assert !p.Dialing? && !p.Storing? && !p.Moving?;
    }
  }

  lemma SilentStep(p: Point, e: Event, env: Env, h: Handler, line: string)
    requires !e.IsControl() && Next(p, e, env) != Off && Answering(p, h, line)
    ensures Answering(Next(p, e, env), h, line)
  {
    if p == Due(h, line) {
      SilentFromDue(e, env, h, line);
    }
  }

  lemma CommandStep(p: Point, e: Event, env: Env)
    requires Next(p, e, env) != Off && e.Received? && e.atMain
    ensures Next(p, e, env) == Due(e.handler, e.text)
  {}

  lemma {:induction false} AfterCommand(log: Log, disk: Disk, line: string, h: Handler)
    requires PointOf(log, disk) != Off && IsLast(log, 0, Received(line, h, true))
    ensures Answering(PointOf(log, disk), h, line)
  {
    var p, env := PointOf(log.before, disk), EnvOf(log.before, disk);
    if log.event.IsControl() {
      CommandStep(p, log.event, env);
    } else {
      AfterCommand(log.before, disk, line, h);
      SilentStep(p, log.event, env, h, line);
    }
  }

  /** What is said after a command whose handler is `h`. */
  ghost predicate Answers(next: Event, h: Handler, line: string, dir: string) {
    if h in {Size, User} then !next.Sent?
    else if h in {List, Retr, Stor} then next == Sent(Preliminary(h))
    else next == Sent(ReplyTo(if h == Port && Target(line).None? then Unsupported else h, line, dir))
  }

  lemma SaidStep(p: Point, text: string, env: Env, h: Handler, line: string)
    requires Next(p, Sent(text), env) != Off && Answering(p, h, line)
    ensures Answers(Sent(text), h, line, env.dir)
  {
    assert Speaks(p, env) && text == Line(p, env.dir);
  }

  lemma HeardStep(p: Point, e: Event, env: Env, h: Handler, line: string)
    requires (e.Received? || e.RecvFailed?) && Next(p, e, env) != Off && Answering(p, h, line)
    ensures Answers(e, h, line, env.dir)
  {
    assert IsRead(p);
  }

  /** Control event `i + 1` answers the command that is event `i`. */
  ghost predicate AnswersAt(log: Log, i: nat)
    requires i + 1 < |Conversation(log)| && Conversation(log)[i].Received?
  {
    var command := Conversation(log)[i];
    Answers(Conversation(log)[i + 1], command.handler, command.text, Where(Front(log, i + 1)))
  }

  lemma AnsweredNow(log: Log, disk: Disk, line: string, h: Handler)
    requires PointOf(log, disk) != Off && log.Then? && log.event.IsControl()
    requires IsLast(log.before, 0, Received(line, h, true))
    ensures Answers(log.event, h, line, Where(log.before))
  {
    var p, env := PointOf(log.before, disk), EnvOf(log.before, disk);
    AfterCommand(log.before, disk, line, h);
    if log.event.Sent? {
      SaidStep(p, log.event.text, env, h, line);
    } else {
      HeardStep(p, log.event, env, h, line);
    }
  }

  /** In every session, what the server says after a command: the one reply of its handler, PWD quoting
      the directory where the session then is; a 150 for a transfer; nothing for SIZE, and nothing for
      USER before it has read on. */
  lemma {:induction false} EveryCommandAnswered(log: Log, disk: Disk, i: nat)
    requires PointOf(log, disk) != Off && i + 1 < |Conversation(log)|
    requires Conversation(log)[i].Received? && Conversation(log)[i].atMain
    ensures AnswersAt(log, i)
  {
    if !log.event.IsControl() || i + 1 < |Conversation(log.before)| {
      EveryCommandAnswered(log.before, disk, i);
    } else {
      assert Front(log, i + 1) == log.before && IsLast(log.before, 0, Conversation(log)[i]);
      AnsweredNow(log, disk, Conversation(log)[i].text, Conversation(log)[i].handler);
    }
  }

  /** After the 150 of a listing or a file. */
  ghost predicate Transfers(p: Point, h: Handler, line: string, openable: bool) {
    || p == Moving(h, line) || p.Ended?
    || (p == Closing(h, true) && openable)
    || (p == Closing(List, false) && h == List && !openable)
  }

  lemma TransferStep(p: Point, e: Event, env: Env, h: Handler, line: string)
    requires h in {List, Retr} && !e.IsControl() && Next(p, e, env) != Off
    requires Transfers(p, h, line, Openable(h, line, env))
    ensures Transfers(Next(p, e, env), h, line, Openable(h, line, env))
  {}

  lemma OpeningStep(p: Point, text: string, env: Env, h: Handler, line: string)
    requires h in {List, Retr} && Next(p, Sent(text), env) != Off && Answering(p, h, line)
    ensures Next(p, Sent(text), env) == Moving(h, line)
  {
    assert p == Opening(h, line);
  }

  lemma OpenedNow(log: Log, disk: Disk, h: Handler, line: string, text: string)
    requires PointOf(log, disk) != Off && h in {List, Retr} && log.Then? && log.event == Sent(text)
    requires IsLast(log.before, 0, Received(line, h, true))
    ensures PointOf(log, disk) == Moving(h, line)
  {
    AfterCommand(log.before, disk, line, h);
    OpeningStep(PointOf(log.before, disk), text, EnvOf(log.before, disk), h, line);
  }

  lemma StillOpenable(log: Log, disk: Disk, h: Handler, line: string)
    requires log.Then? && !log.event.IsControl()
    ensures Openable(h, line, EnvOf(log, disk)) == Openable(h, line, EnvOf(log.before, disk))
  {
    assert Where(log) == Where(log.before);
  }

  lemma {:induction false} AfterOpening(log: Log, disk: Disk, h: Handler, line: string, text: string)
    requires PointOf(log, disk) != Off && h in {List, Retr}
    requires IsLast(log, 1, Received(line, h, true)) && IsLast(log, 0, Sent(text))
    ensures Transfers(PointOf(log, disk), h, line, Openable(h, line, EnvOf(log, disk)))
  {
    LastBefore(log, 1, Received(line, h, true));
    LastBefore(log, 0, Sent(text));
    if log.event.IsControl() {
      OpenedNow(log, disk, h, line, text);
    } else {
      AfterOpening(log.before, disk, h, line, text);
      StillOpenable(log, disk, h, line);
      TransferStep(PointOf(log.before, disk), log.event, EnvOf(log.before, disk), h, line);
    }
  }

  /** How a listing or a file ends: 226 when there is something to transfer; when there is not, 500, or for
      a listing whose 500 could not be sent, 226. */
  ghost predicate Concludes(last: Event, h: Handler, openable: bool) {
    || (last == Sent(Concluding(h)) && (openable || h == List))
    || (last == Sent(SYNTAX_ERROR) && !openable)
  }

  lemma ConcludingStep(p: Point, e: Event, env: Env, h: Handler, line: string)
    requires h in {List, Retr} && e.IsControl() && Next(p, e, env) != Off
    requires Transfers(p, h, line, Openable(h, line, env))
    ensures Concludes(e, h, Openable(h, line, env))
  {}

  lemma ConcludedNow(log: Log, disk: Disk, h: Handler, line: string, text: string)
    requires PointOf(log, disk) != Off && h in {List, Retr} && log.Then? && log.event.IsControl()
    requires IsLast(log.before, 1, Received(line, h, true)) && IsLast(log.before, 0, Sent(text))
    ensures Concludes(log.event, h, Openable(h, line, EnvOf(log.before, disk)))
  {
    AfterOpening(log.before, disk, h, line, text);
    ConcludingStep(PointOf(log.before, disk), log.event, EnvOf(log.before, disk), h, line);
  }

  lemma OpeningIsSaid(next: Event, h: Handler, line: string, dir: string)
    requires Answers(next, h, line, dir) && h in {List, Retr}
    ensures next == Sent(Preliminary(h))
  {}

  lemma OpeningSaid(log: Log, disk: Disk, line: string, h: Handler)
    requires PointOf(log, disk) != Off && h in {List, Retr} && IsLast(log, 1, Received(line, h, true))
    ensures IsLast(log, 0, Sent(Preliminary(h)))
  {
    var i := |Conversation(log)| - 2;
    EveryCommandAnswered(log, disk, i);
    assert AnswersAt(log, i);
    OpeningIsSaid(Conversation(log)[i + 1], h, line, Where(Front(log, i + 1)));
  }

  /** Control event `i` is a command to transfer, and event `i + 2` concludes it. */
  ghost predicate ConcludesAt(log: Log, disk: Disk, i: nat)
    requires i + 2 < |Conversation(log)| && Conversation(log)[i].Received?
  {
    var command, last := Conversation(log)[i], Conversation(log)[i + 2];
    Concludes(last, command.handler, Openable(command.handler, command.text, EnvOf(Front(log, i + 2), disk)))
  }

  lemma ConcludedLast(log: Log, disk: Disk, line: string, h: Handler)
    requires PointOf(log, disk) != Off && h in {List, Retr} && log.Then? && log.event.IsControl()
    requires IsLast(log.before, 1, Received(line, h, true))
    ensures Concludes(log.event, h, Openable(h, line, EnvOf(log.before, disk)))
  {
    OpeningSaid(log.before, disk, line, h);
    ConcludedNow(log, disk, h, line, Preliminary(h));
  }

  lemma ConcludesStill(log: Log, disk: Disk, i: nat)
    requires log.Then? && i + 2 < |Conversation(log.before)| && Conversation(log.before)[i].Received?
    requires ConcludesAt(log.before, disk, i)
    ensures ConcludesAt(log, disk, i)
  {
    assert Front(log, i + 2) == Front(log.before, i + 2);
  }

  lemma ConcludesLast(log: Log, disk: Disk, i: nat)
    requires PointOf(log, disk) != Off && log.Then? && log.event.IsControl()
    requires i + 2 == |Conversation(log.before)| && Conversation(log.before)[i].Received?
    requires Conversation(log.before)[i].atMain && Conversation(log.before)[i].handler in {List, Retr}
    ensures ConcludesAt(log, disk, i)
  {
    var command := Conversation(log.before)[i];
    assert Front(log, i + 2) == log.before && IsLast(log.before, 1, command);
    ConcludedLast(log, disk, command.text, command.handler);
  }

  /** In every session, a file is answered 500 exactly when the line names none that can be opened, and a
      listing only when its directory cannot be. */
  lemma {:induction false} EveryTransferConcluded(log: Log, disk: Disk, i: nat)
    requires PointOf(log, disk) != Off && i + 2 < |Conversation(log)|
    requires Conversation(log)[i].Received? && Conversation(log)[i].atMain
    requires Conversation(log)[i].handler in {List, Retr}
    ensures ConcludesAt(log, disk, i)
  {
    if !log.event.IsControl() || i + 2 < |Conversation(log.before)| {
      EveryTransferConcluded(log.before, disk, i);
      ConcludesStill(log, disk, i);
    } else {
      ConcludesLast(log, disk, i);
    }
  }

  // ---------- the data connection ----------

  /** The last thing that happened to a data connection. */
  function LastData(log: Log): Option<Event> {
    match log
    case Start => None
    case Then(before, e) => if e.Dialed? || e.Moved? then Some(e) else LastData(before)
  }

  predicate Leaves(data: Option<Event>) {
    match data
    case Some(Dialed(_, _, ok)) => ok
    case Some(Moved(ok)) => !ok
    case _ => false
  }

  /** A transfer has already moved, and its 226 is still to come. */
  predicate HasMoved(p: Point) { (p.Closing? && p.moved) || (p.Opening? && p.handler == Stor) }

  lemma MovedStep(p: Point, e: Event, env: Env)
    requires Next(p, e, env) != Off
    ensures e.Moved? ==> env.has
    ensures HasMoved(Next(p, e, env)) ==> e.Moved? || (HasMoved(p) && !e.Dialed?)
    ensures var next := Next(p, e, env); next.Closing? && !next.moved ==> env.has && e.Unsent?
  {}

  lemma {:induction false} ConnectionFate(log: Log, disk: Disk)
    requires PointOf(log, disk) != Off
    ensures Has(log) <==> Leaves(LastData(log))
    ensures var p := PointOf(log, disk);
      && (HasMoved(p) ==> LastData(log).Some? && LastData(log).value.Moved?)
      && (p.Closing? && !p.moved ==> Has(log))
  {
    if log.Then? {
      ConnectionFate(log.before, disk);
      MovedStep(PointOf(log.before, disk), log.event, EnvOf(log.before, disk));
    }
  }

  /** In every session, after a 226 the data connection is gone exactly when the transfer went through;
      one that threw has left it in place. */
  lemma GoneExactlyWhenThrough(log: Log, disk: Disk)
    requires PointOf(log, disk) != Off && log.Then? && log.event.Sent? && Is226(log.event.text)
    ensures !Has(log) <==> LastData(log) == Some(Moved(true))
  {
    var p, env := PointOf(log.before, disk), EnvOf(log.before, disk);
    ConnectionFate(log.before, disk);
    LineCodes(p, env.dir, env);
    assert p.Closing?;
  }

  // ---------- when a session is undefined ----------

  /** The last command read by the command loop. */
  function LastCommand(log: Log): Option<Event> {
    match log
    case Start => None
    case Then(before, e) => if e.Received? && e.atMain then Some(e) else LastCommand(before)
  }

  /** A point inside an answer tells which command it answers. */
  ghost predicate Tells(p: Point, command: Option<Event>) {
    (p.Dialing? || p.Replying? || p.Storing? || p.Opening? || p.Moving? ==> command.Some? && command.value.Received?) &&
    match p
    case Dialing(line, _, _) => command.value.handler == Port && command.value.text == line
    case Replying(h, line) =>
      command.value.text == line && (command.value.handler == h || (h == Unsupported && command.value.handler == Port))
    case Storing => command.value.handler == Stor
    case Opening(h, line) =>
      h in {List, Retr, Stor} && command.value.handler == h && (h == Stor || command.value.text == line)
    case Moving(h, line) => h in {List, Retr} && command.value.handler == h && command.value.text == line
    case _ => true
  }

  lemma TellsOn(p: Point, e: Event, env: Env, command: Option<Event>)
    requires Next(p, e, env) != Off && Tells(p, command)
    ensures Tells(Next(p, e, env), if e.Received? && e.atMain then Some(e) else command)
  {}

  lemma {:induction false} SessionTells(log: Log, disk: Disk)
    requires PointOf(log, disk) != Off
    ensures Tells(PointOf(log, disk), LastCommand(log))
  {
    if log.Then? {
      SessionTells(log.before, disk);
      TellsOn(PointOf(log.before, disk), log.event, EnvOf(log.before, disk), LastCommand(log.before));
    }
  }

  predicate TooLong(arg: Option<string>) { arg.Some? && |arg.value| >= 512 }

  /** A transfer without a data connection, or a name that overruns its buffer. */
  predicate IsFault(h: Handler, line: string, has: bool) {
    || (h in {List, Retr, Stor} && !has)
    || (h == Cwd && TooLong(ScanArg("CWD", line)))
    || (h == Mkd && TooLong(ScanArg("MKD", line)))
    || (h == Retr && TooLong(ScanArg("RETR", line)))
  }

  lemma UndefinedTells(p: Point, env: Env, command: Option<Event>)
    requires Undefined(p, env) && Tells(p, command)
    ensures command.Some? && command.value.Received?
    ensures IsFault(command.value.handler, command.value.text, env.has)
  {}

  /** A session becomes undefined only on a transfer commanded without a data connection, or on a name that
      overruns its buffer: one that avoids both never does. */
  lemma UndefinedOnlyThen(log: Log, disk: Disk)
    requires PointOf(log, disk) != Off && Undefined(PointOf(log, disk), EnvOf(log, disk))
    ensures LastCommand(log).Some? && LastCommand(log).value.Received?
    ensures IsFault(LastCommand(log).value.handler, LastCommand(log).value.text, Has(log))
  {
    SessionTells(log, disk);
    UndefinedTells(PointOf(log, disk), EnvOf(log, disk), LastCommand(log));
  }
}
