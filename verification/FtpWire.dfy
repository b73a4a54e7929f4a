/** The sessions of the FTP server as its client sees them: what stands at which place of the control
    conversation, with the texts written out. */
module FtpWire {
  import opened Text
  import opened FtpVerbs
  import opened FtpLog
  import opened FtpSession

  // ---------- the greeting and the login ----------

  /** A message that the server takes as the first of a login. */
  predicate IsUser(e: Event) { e.Received? && !e.atMain && Contains(e.text, "USER") }

  /** Control events `j` to `j + 3` are a login. */
  predicate LoginAt(es: seq<Event>, j: nat) {
    && j + 3 < |es| && IsUser(es[j])
    && es[j + 1] == Sent("331 " + "Please specify the password.\n")
    && es[j + 2].Received? && !es[j + 2].atMain
    && es[j + 3] == Sent("230 " + "Login successful.\n")
  }

  ghost predicate LoggedIn(es: seq<Event>) { exists j: nat :: LoginAt(es, j) }

  /** Points that only a login leads to. */
  predicate Inside(p: Point) {
    || p.Command? || p.Dialing? || p.Replying? || p.Storing? || p.Opening? || p.Moving? || p.Closing?
    || p == Login(true) || (p.Refusing? && p.again)
  }

  /** The last control event is a message read in a login. */
  predicate EndsInMessage(es: seq<Event>) {
    |es| > 1 && es[|es| - 1].Received? && !es[|es| - 1].atMain
  }

  predicate IsAsk(e: Event) { e == Sent("331 " + "Please specify the password.\n") }

  /** What stands at the end of the conversation at each point of a login. */
  ghost predicate Stage(p: Point, es: seq<Event>) {
    var n := |es|;
    && (p == Greeting ==> es == [])
    && (p.Login? ==> n > 0 && !IsAsk(es[n - 1]))
    && (p.Refusing? ==>
          if p.unread then n > 1 && es[n - 1] == RecvFailed
          else EndsInMessage(es) && !IsUser(es[n - 1]) && !IsAsk(es[n - 2]))
    && (p.Asking? ==> EndsInMessage(es) && IsUser(es[n - 1]) && !IsAsk(es[n - 2]))
    && (p.Password? ==> n > 1 && IsUser(es[n - 2]) && IsAsk(es[n - 1]))
    && (p.Welcoming? ==> n > 2 && IsUser(es[n - 3]) && IsAsk(es[n - 2]) && EndsInMessage(es))
    && (Inside(p) ==> LoggedIn(es))
  }

  /** And conversely, what its end says about the point. */
  ghost predicate Shows(p: Point, es: seq<Event>) {
    var n := |es|;
    && (es == [] ==> p == Greeting || p.Ended?)
    && (n > 0 && es[n - 1].Received? && !es[n - 1].atMain ==>
          p.Asking? || (p.Refusing? && !p.unread) || p.Welcoming? || p.Ended?)
    && (n > 0 && es[n - 1] == RecvFailed ==> (p.Refusing? && p.unread) || p.Ended?)
  }

  lemma StillLoggedIn(es: seq<Event>, e: Event)
    requires LoggedIn(es)
    ensures LoggedIn(es + [e])
  {
    var j: nat :| LoginAt(es, j);
    assert LoginAt(es + [e], j);
  }

  lemma NotAsked(unread: bool)
    ensures GREETING[0] == '2' && Refusal(unread)[0] == '5'
  {}

  lemma SaidStage(p: Point, text: string, env: Env, es: seq<Event>)
    requires Next(p, Sent(text), env) != Off && Stage(p, es) && Shows(p, es)
    ensures Stage(Next(p, Sent(text), env), es + [Sent(text)]) && Shows(Next(p, Sent(text), env), es + [Sent(text)])
  {
    NotAsked(p.Refusing? && p.unread);
    assert Speaks(p, env) && text == Line(p, env.dir);
    if LoggedIn(es) {
      StillLoggedIn(es, Sent(text));
    }
    if p.Welcoming? {
      assert LoginAt(es + [Sent(text)], |es| - 3);
    }
  }

  lemma HeardStage(p: Point, e: Event, es: seq<Event>)
    requires Heard(p, e) != Off && Stage(p, es) && Shows(p, es) && (e.Received? || e.RecvFailed?)
    ensures Stage(Heard(p, e), es + [e]) && Shows(Heard(p, e), es + [e])
  {
    if LoggedIn(es) {
      StillLoggedIn(es, e);
    }
  }

  lemma SilentStage(p: Point, e: Event, env: Env, es: seq<Event>)
    requires !e.IsControl() && Next(p, e, env) != Off && Stage(p, es) && Shows(p, es)
    ensures Stage(Next(p, e, env), es) && Shows(Next(p, e, env), es)
  {}

  lemma {:induction false} SessionStage(log: Log, disk: Disk)
    requires PointOf(log, disk) != Off
    ensures Stage(PointOf(log, disk), Conversation(log)) && Shows(PointOf(log, disk), Conversation(log))
  {
    if log.Then? {
      var p, e, env, es := PointOf(log.before, disk), log.event, EnvOf(log.before, disk), Conversation(log.before);
      SessionStage(log.before, disk);
      if e.Sent? {
        SaidStage(p, e.text, env, es);
      } else if e.IsControl() {
        HeardStage(p, e, es);
      } else {
        SilentStage(p, e, env, es);
      }
    }
  }

  /** Every session opens with the greeting. */
  lemma {:induction false} OpensWithGreeting(log: Log, disk: Disk)
    requires PointOf(log, disk) != Off && Conversation(log) != []
    ensures Conversation(log)[0] == Sent("220 " + "(ho80 server)\r\n")
  {
    if !log.event.IsControl() || Conversation(log.before) != [] {
      OpensWithGreeting(log.before, disk);
    } else {
      SessionStage(log.before, disk);
      assert PointOf(log.before, disk) == Greeting;
    }
  }

  lemma StillLoginAt(es: seq<Event>, more: seq<Event>, j: nat)
    requires LoginAt(es, j)
    ensures LoginAt(es + more, j)
  {}

  /** In every session, each command was read after a login had succeeded. */
  lemma {:induction false} CommandsFollowLogin(log: Log, disk: Disk, i: nat)
    requires PointOf(log, disk) != Off && i < |Conversation(log)|
    requires Conversation(log)[i].Received? && Conversation(log)[i].atMain
    ensures exists j: nat :: j + 3 < i && LoginAt(Conversation(log), j)
  {
    var es := Conversation(log.before);
    if !log.event.IsControl() {
      CommandsFollowLogin(log.before, disk, i);
    } else if i < |es| {
      CommandsFollowLogin(log.before, disk, i);
      var j: nat :| j + 3 < i && LoginAt(es, j);
      StillLoginAt(es, [log.event], j);
    } else {
      SessionStage(log.before, disk);
      assert PointOf(log.before, disk) == Command;
      var j: nat :| LoginAt(es, j);
      StillLoginAt(es, [log.event], j);
    }
  }

  /** A read that fails is the first of a login, and is to be refused, or it ends the session: the read of a
      password, or of a command after a login had succeeded. */
  lemma FailedReads(log: Log, disk: Disk)
    requires PointOf(log, disk) != Off && log.Then? && log.event == RecvFailed
    ensures PointOf(log, disk).Ended? || (PointOf(log, disk).Refusing? && PointOf(log, disk).unread)
    ensures PointOf(log, disk).Ended? ==>
      var es := Conversation(log.before); LoggedIn(es) || (es != [] && IsAsk(es[|es| - 1]))
  {
    SessionStage(log.before, disk);
  }

  /** What is said after control event `i`, read in a login: 230 to a password, 331 to a message with USER in
      it, and one 530 or the other to any other message and to a read that failed. */
  predicate LoginAnswered(es: seq<Event>, i: nat)
    requires 0 < i && i + 1 < |es|
  {
    es[i + 1] == Sent(
      if es[i] == RecvFailed then "530 " + "Login incorrect.\r\n"
      else if IsAsk(es[i - 1]) then "230 " + "Login successful.\n"
      else if IsUser(es[i]) then "331 " + "Please specify the password.\n"
      else "530 " + "Please Login again.\n")
  }

  lemma LoginAnsweredNow(p: Point, text: string, env: Env, es: seq<Event>)
    requires Next(p, Sent(text), env) != Off && Stage(p, es) && Shows(p, es) && |es| > 1
    requires es[|es| - 1] == RecvFailed || (es[|es| - 1].Received? && !es[|es| - 1].atMain)
    ensures LoginAnswered(es + [Sent(text)], |es| - 1)
  {
    assert Speaks(p, env) && text == Line(p, env.dir);
  }

  predicate IsLoginRead(e: Event) { e == RecvFailed || (e.Received? && !e.atMain) }

  ghost predicate LoginAnsweredAt(log: Log, i: nat) {
    0 < i && i + 1 < |Conversation(log)| && LoginAnswered(Conversation(log), i)
  }

  lemma LoginAnsweredLast(log: Log, disk: Disk, i: nat)
    requires PointOf(log, disk) != Off && log.Then? && log.event.IsControl()
    requires i + 1 == |Conversation(log.before)| && IsLoginRead(Conversation(log.before)[i])
    ensures LoginAnsweredAt(log, i)
  {
    var p, e, env, es := PointOf(log.before, disk), log.event, EnvOf(log.before, disk), Conversation(log.before);
    SessionStage(log.before, disk);
    assert Speaks(p, env) && e.Sent?;
    LoginAnsweredNow(p, e.text, env, es);
  }

  lemma LoginAnsweredStill(log: Log, i: nat)
    requires log.Then? && LoginAnsweredAt(log.before, i)
    ensures LoginAnsweredAt(log, i)
  {}

  /** In every session, each message and failed read of a login is answered so. */
  lemma {:induction false} EveryLoginAnswered(log: Log, disk: Disk, i: nat)
    requires PointOf(log, disk) != Off && i + 1 < |Conversation(log)| && IsLoginRead(Conversation(log)[i])
    ensures LoginAnsweredAt(log, i)
  {
    if log.event.IsControl() && i + 1 == |Conversation(log.before)| {
      LoginAnsweredLast(log, disk, i);
    } else {
      EveryLoginAnswered(log.before, disk, i);
      LoginAnsweredStill(log, i);
    }
  }

  // ---------- the commands ----------

  const REFUSED := "500 " + "Syntax error, command unrecognized.\n"

  /** What the server says next on a line dispatched to a verb, in a directory. SIZE has no answer, and USER
      none before its login is read. */
  predicate Spelled(verb: Option<string>, line: string, next: Event, dir: string) {
    if verb == Some("SIZE") || verb == Some("USER") then !next.Sent?
    else if verb == Some("LIST") then next == Sent("150 " + "Here comes the directory listing.\n")
    else if verb == Some("RETR") then next == Sent("150 " + "file open\n")
    else if verb == Some("STOR") then next == Sent("150 " + "Ok to send data.\n")
    else if verb == Some("PASV") then next == Sent("227 " + "Entering Passive Mode.\n")
    else if verb == Some("SYST") then next == Sent("215 " + "UNIX Type: L8\n")
    else if verb == Some("TYPE") then next == Sent("200 " + "okay.\n")
    else if verb == Some("PWD") then next == Sent("257 " + "\"" + dir + "\" is the current directory\r\n")
    else if verb == Some("CWD") && ScanArg("CWD", line).Some? then
      next == Sent("250 " + "Directory successfully changed.\r\n")
    else if verb == Some("MKD") && ScanArg("MKD", line).Some? then
      next == Sent("257 " + "Make directory " + ScanArg("MKD", line).value + " complete.\n")
    else if verb == Some("PORT") && Target(line).Some? then
      next == Sent("200 " + "PORT command successful. Consider using PASV.\n")
    else next == Sent(REFUSED)
  }

  lemma AnswersSpelled(verb: Option<string>, line: string, next: Event, dir: string)
    requires Answers(next, HandlerOf(verb), line, dir)
    ensures Spelled(verb, line, next, dir)
  {}

  lemma {:induction false} DispatchedAt(log: Log, i: nat)
    requires Dispatched(log) && i < |Conversation(log)| && Conversation(log)[i].Received?
    ensures Conversation(log)[i].handler == HandlerOf(Dispatch(Conversation(log)[i].text))
  {
    if i < |Conversation(log.before)| {
      DispatchedAt(log.before, i);
    }
  }

  /** In every session, text by text: what follows each command. */
  lemma EveryCommandSpelled(log: Log, disk: Disk, i: nat)
    requires PointOf(log, disk) != Off && Dispatched(log) && i + 1 < |Conversation(log)|
    requires Conversation(log)[i].Received? && Conversation(log)[i].atMain
    ensures var line := Conversation(log)[i].text;
      Spelled(Dispatch(line), line, Conversation(log)[i + 1], Where(Front(log, i + 1)))
  {
    var line := Conversation(log)[i].text;
    EveryCommandAnswered(log, disk, i);
    DispatchedAt(log, i);
    assert AnswersAt(log, i);
    AnswersSpelled(Dispatch(line), line, Conversation(log)[i + 1], Where(Front(log, i + 1)));
  }

  // ---------- the transfers ----------

  /** How a transfer ends, after its 150: 226 for a file or a directory that can be opened, and 500 for one
      that cannot, except that the 226 of a listing also stands for a 500 that could not be sent; always 226
      for a file that is stored. */
  predicate Ends(h: Handler, line: string, last: Event, dir: string, disk: Disk) {
    var name := ScanArg("RETR", line);
    match h
    case List =>
      || last == Sent("226 " + "Directory send OK.\n")
      || (last == Sent(REFUSED) && dir !in disk.listings)
    case Retr =>
      last == Sent(if name.Some? && dir + "/" + name.value in disk.files then "226 " + "file send OK.\n" else REFUSED)
    case _ => last == Sent("226 " + "Transfer complete.\n")
  }

  lemma ConcludesEnds(h: Handler, line: string, last: Event, env: Env)
    requires h in {List, Retr} && Concludes(last, h, Openable(h, line, env))
    ensures Ends(h, line, last, env.dir, env.disk)
  {}

  /** After the 150 of a STOR. */
  ghost predicate Stored(p: Point) { p == Closing(Stor, true) || p.Ended? }

  lemma StoringStep(p: Point, text: string, env: Env, line: string)
    requires Next(p, Sent(text), env) != Off && Answering(p, Stor, line)
    ensures Stored(Next(p, Sent(text), env))
  {
    assert p == Opening(Stor, "");
  }

  lemma StoredStep(p: Point, e: Event, env: Env)
    requires Stored(p) && Next(p, e, env) != Off
    ensures if e.IsControl() then e == Sent("226 " + "Transfer complete.\n") else Stored(Next(p, e, env))
  {}

  lemma {:induction false} AfterStored(log: Log, disk: Disk, line: string, text: string)
    requires PointOf(log, disk) != Off
    requires IsLast(log, 1, Received(line, Stor, true)) && IsLast(log, 0, Sent(text))
    ensures Stored(PointOf(log, disk))
  {
    var p, env := PointOf(log.before, disk), EnvOf(log.before, disk);
    LastBefore(log, 1, Received(line, Stor, true));
    LastBefore(log, 0, Sent(text));
    if log.event.IsControl() {
      AfterCommand(log.before, disk, line, Stor);
      StoringStep(p, text, env, line);
    } else {
      AfterStored(log.before, disk, line, text);
      StoredStep(p, log.event, env);
    }
  }

  ghost predicate EndsAt(log: Log, disk: Disk, i: nat) {
    var es := Conversation(log);
    && i + 2 < |es| && es[i].Received?
    && Ends(es[i].handler, es[i].text, es[i + 2], Where(Front(log, i + 2)), disk)
  }

  lemma StoredLast(log: Log, disk: Disk, i: nat)
    requires PointOf(log, disk) != Off && log.Then? && log.event.IsControl()
    requires i + 2 == |Conversation(log.before)| && Conversation(log.before)[i].Received?
    requires Conversation(log.before)[i].atMain && Conversation(log.before)[i].handler == Stor
    ensures EndsAt(log, disk, i)
  {
    var es := Conversation(log.before);
    EveryCommandAnswered(log.before, disk, i);
    assert AnswersAt(log.before, i) && es[i + 1].Sent?;
    assert IsLast(log.before, 1, es[i]) && IsLast(log.before, 0, es[i + 1]);
    AfterStored(log.before, disk, es[i].text, es[i + 1].text);
    StoredStep(PointOf(log.before, disk), log.event, EnvOf(log.before, disk));
  }

  lemma EndsStill(log: Log, disk: Disk, i: nat)
    requires log.Then? && EndsAt(log.before, disk, i)
    ensures EndsAt(log, disk, i)
  {
    assert Front(log, i + 2) == Front(log.before, i + 2);
  }

  lemma {:induction false} EveryStoreEnds(log: Log, disk: Disk, i: nat)
    requires PointOf(log, disk) != Off && i + 2 < |Conversation(log)|
    requires Conversation(log)[i].Received? && Conversation(log)[i].atMain && Conversation(log)[i].handler == Stor
    ensures EndsAt(log, disk, i)
  {
    if log.event.IsControl() && i + 2 == |Conversation(log.before)| {
      StoredLast(log, disk, i);
    } else {
      EveryStoreEnds(log.before, disk, i);
      EndsStill(log, disk, i);
    }
  }

  /** In every session, text by text: how each transfer ends. */
  lemma EveryTransferEnds(log: Log, disk: Disk, i: nat)
    requires PointOf(log, disk) != Off && i + 2 < |Conversation(log)|
    requires Conversation(log)[i].Received? && Conversation(log)[i].atMain
    requires Conversation(log)[i].handler in {List, Retr, Stor}
    ensures EndsAt(log, disk, i)
  {
    var e := Conversation(log)[i];
    if e.handler == Stor {
      EveryStoreEnds(log, disk, i);
    } else {
      EveryTransferConcluded(log, disk, i);
      assert ConcludesAt(log, disk, i);
      ConcludesEnds(e.handler, e.text, Conversation(log)[i + 2], EnvOf(Front(log, i + 2), disk));
    }
  }

  /** A reply that cannot be sent ends the session, except the 500 of a listing. */
  lemma UnsentEnds(log: Log, disk: Disk)
    requires PointOf(log, disk) != Off && log.Then? && log.event.Unsent?
    ensures PointOf(log, disk).Ended? || (
      && log.event.text == REFUSED && PointOf(log, disk) == Closing(List, false)
      && LastCommand(log).Some? && LastCommand(log).value.Received? && LastCommand(log).value.handler == List)
  {
    SessionTells(log.before, disk);
    assert Speaks(PointOf(log.before, disk), EnvOf(log.before, disk));
  }

  // ---------- the data connection ----------

  /** Between a PORT line that is understood and its reply, the host and port it names are dialed. */
  ghost predicate Dials(p: Point, line: string, data: Option<Event>) {
    match Target(line)
    case None => true
    case Some(to) =>
      || p == Dialing(line, to.0, to.1) || p.Ended?
      || (p == Replying(Port, line) && exists ok :: data == Some(Dialed(to.0, to.1, ok)))
  }

  lemma DialStep(p: Point, e: Event, env: Env, line: string, data: Option<Event>)
    requires !e.IsControl() && Next(p, e, env) != Off && Dials(p, line, data)
    ensures Dials(Next(p, e, env), line, if e.Dialed? || e.Moved? then Some(e) else data)
  {}

  lemma {:induction false} AfterPort(log: Log, disk: Disk, line: string)
    requires PointOf(log, disk) != Off && IsLast(log, 0, Received(line, Port, true))
    ensures Dials(PointOf(log, disk), line, LastData(log))
  {
    var p, env := PointOf(log.before, disk), EnvOf(log.before, disk);
    LastBefore(log, 0, Received(line, Port, true));
    if log.event.IsControl() {
      CommandStep(p, log.event, env);
    } else {
      AfterPort(log.before, disk, line);
      DialStep(p, log.event, env, line, LastData(log.before));
    }
  }

  /** In every session, when a PORT line that names a host and a port is answered, that host and port have
      been dialed, with success or without. */
  lemma PortIsDialed(log: Log, disk: Disk, line: string)
    requires PointOf(log, disk) != Off && log.Then? && log.event.IsControl()
    requires IsLast(log.before, 0, Received(line, Port, true)) && Target(line).Some?
    ensures exists ok :: LastData(log.before) == Some(Dialed(Target(line).value.0, Target(line).value.1, ok))
  {
    AfterPort(log.before, disk, line);
  }

  /** And a line printed as section 4.1.2 of RFC 959 says is dialed at the address written and that port. */
  lemma PrintedPortIsDialed(log: Log, disk: Disk, v: seq<nat>, port: nat, end: string)
    requires |v| == PORT_FIELDS && port < 65536 && v[4] == port / 256 && v[5] == port % 256
    requires (forall i :: 0 <= i < 4 ==> v[i] < 256) && (end == "" || !IsDigit(end[0]))
    requires PointOf(log, disk) != Off && log.Then? && log.event.IsControl()
    requires IsLast(log.before, 0, Received("PORT" + (" " + (Commas(v) + end)), Port, true))
    ensures exists ok :: LastData(log.before) == Some(Dialed(
      Decimal(v[0]) + "." + Decimal(v[1]) + "." + Decimal(v[2]) + "." + Decimal(v[3]), port, ok))
  {
    TargetRoundTrip(v, port, end);
    PortIsDialed(log, disk, "PORT" + (" " + (Commas(v) + end)));
  }
}
