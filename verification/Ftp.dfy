/** The FTP session, in place: login, the command loop and its handlers, the working directory and the
    data connection. `delivery` is what the control connection will bring; a run over a delivery is a
    prefix of a session, up to a point where the server waits for a message. */
module Ftp {
  import opened Text
  import opened FtpVerbs
  import opened FtpLog
  import opened FtpSession

  /** How a handler ends. `Waiting`: at a read, of the control connection with nothing more delivered, or of
      a data connection that its peer keeps open. `Undefined`: a null data connection used, or a name of 512
      characters or more. */
  datatype Status = Fine | Thrown | Waiting | Undefined

  /** What became of a transfer. `Unrefused`: its 500 could not be sent, and was caught. `Refused` also
      stands for one that was never begun or never ends. */
  datatype Transfer = Refused | Unrefused | Through | Threw

  /** A `ConnectSocket` on the heap, with what `ProtocolSimple` promises of it: a send that throws has
      sent a front of its text, a receive that does not throw has read to the end of the stream. */
  class DataConnection {
    const host: string
    const port: int
    const incoming: string    // what the peer sends
    const peerShuts: bool     // and whether it then shuts its side
    var sent: string
    ghost var deleted: bool
    ghost var throws: nat     // calls that threw

    constructor (host: string, port: int, incoming: string, peerShuts: bool)
      ensures this.host == host && this.port == port && this.incoming == incoming && this.peerShuts == peerShuts
      ensures sent == "" && !deleted && throws == 0
    {
      this.host, this.port, this.incoming, this.peerShuts, sent := host, port, incoming, peerShuts, "";
      deleted, throws := false, 0;
    }

    method Send(text: string) returns (ok: bool)
      requires !deleted
      modifies this`sent, this`throws
      ensures throws == old(throws) + (if ok then 0 else 1)
      ensures if ok then sent == old(sent) + text else old(sent) <= sent <= old(sent) + text
    {
      var put: int := *;
      ok := put >= |text|;
      sent := sent + (if ok then text else if put < 0 then "" else text[..put]);
      throws := throws + if ok then 0 else 1;
    }

    method Receive() returns (st: Status, text: string)
      requires !deleted
      modifies this`throws
      ensures throws == old(throws) + (if st == Thrown then 1 else 0)
      ensures match st
        case Fine => peerShuts && text == incoming
        case Thrown => text <= incoming
        case Waiting => !peerShuts
        case Undefined => false
    {
      var got: int := *;
      st := if got < |incoming| then Thrown else if peerShuts then Fine else Waiting;
      text := if st == Fine then incoming else if got < 0 || got > |incoming| then "" else incoming[..got];
      throws := throws + if st == Thrown then 1 else 0;
    }

    method Delete()
      requires !deleted
      modifies this`deleted
      ensures deleted
    {
      deleted := true;
    }
  }

  class ProtocolFtp {
    const disk: Disk
    var delivery: seq<Delivery>
    ghost const script: seq<Delivery>   // all of it, from the start
    ghost var log: Log
    var recvMessage: string
    var pwd: string
    var client: DataConnection?
    ghost var created: set<DataConnection>
    ghost var refused: bool      // a data connection could not be made

    constructor (disk: Disk, delivery: seq<Delivery>)
      ensures this.disk == disk && this.delivery == script == delivery
      ensures Valid() && Placed() && log == Start && client == null && !refused
    {
      this.disk, this.delivery, script := disk, delivery, delivery;
      log, created, refused := Start, {}, false;
      recvMessage, pwd, client := "", HOME, null;
    }

    /** Every data connection ever made has been deleted, except the one `client` points to, which is
        there exactly when the log has one; what was read and what is still to come is the delivery. */
    ghost predicate Valid()
      reads this, created
    {
      && (client != null ==> client in created)
      && (forall c :: c in created ==> (c.deleted <==> c != client))
      && (client != null <==> Has(log))
      && Reads(log) + delivery == script && Dispatched(log)
    }

    ghost predicate Placed()
      reads this
    {
      pwd == Where(log)
    }

    /** Where the session stands, and what the next step depends on. */
    ghost function Here(): Point
      reads this
    {
      PointOf(log, disk)
    }

    ghost function Now(): Env
      reads this
    {
      EnvOf(log, disk)
    }

    /** How a handler may end, whatever it did: in a session of this server, and never for no reason. */
    ghost predicate Ends(st: Status)
      reads this
    {
      && Here() != Off
      && (st == Waiting ==>
            if IsRead(Here()) then delivery == [] else Here() == Storing && client != null && !client.peerShuts)
      && (st == Thrown <==> Here().Ended?)
      && (st == Undefined <==> FtpSession.Undefined(Here(), Now()))
    }

    method SendMessage(text: string) returns (ok: bool)
      modifies this`log
      ensures log == Then(old(log), if ok then Sent(text) else Unsent(text))
      ensures Where(log) == Where(old(log)) && Has(log) == Has(old(log))
      ensures Reads(log) == Reads(old(log)) && Dispatched(log) == Dispatched(old(log))
    {
      ok := *;
      log := Then(log, if ok then Sent(text) else Unsent(text));
    }

    method RecvMessage(ghost atMain: bool) returns (st: Status)
      requires Valid()
      modifies this`log, this`delivery, this`recvMessage
      ensures Valid() && |delivery| <= |old(delivery)| && st != Undefined
      ensures match st
        case Waiting => log == old(log) && delivery == []
        case Thrown => log == Then(old(log), RecvFailed)
        case _ => log == Then(old(log), Arrival(recvMessage, atMain)) && |delivery| < |old(delivery)|
      ensures st != Fine || !atMain ==> Where(log) == Where(old(log))
    {
      if delivery == [] {
        return Waiting;
      }
      var next := delivery[0];
      assert delivery == [next] + delivery[1..];
      delivery := delivery[1..];
      if next == Failure {
        ReadOn(log, RecvFailed, next, delivery);
        log := Then(log, RecvFailed);
        return Thrown;
      }
      recvMessage := next.text;
      ReadOn(log, Arrival(recvMessage, atMain), next, delivery);
      log := Then(log, Arrival(recvMessage, atMain));
      return Fine;
    }

    /** The reply that the session has at this point; an exception is not caught. */
    method Reply(text: string) returns (st: Status)
      requires Valid() && Here() != Off && Speaks(Here(), Now()) && text == Line(Here(), Where(log))
      requires Failing(Here()).Ended?
      modifies this`log
      ensures Valid() && Where(log) == Where(old(log)) && (st == Fine || st == Thrown)
      ensures log == Then(old(log), if st == Fine then Sent(text) else Unsent(text))
      ensures Here() == if st == Fine then Onward(old(Here())) else Failing(old(Here()))
    {
      var ok := SendMessage(text);
      st := if ok then Fine else Thrown;
    }

    /** The end of a login: any message, and 230. */
    method ReadPassword() returns (st: Status)
      requires Valid() && Placed() && Here() == Password
      modifies this`log, this`delivery, this`recvMessage
      ensures Valid() && Placed() && Ends(st) && st != Undefined && |delivery| <= |old(delivery)|
      ensures st == Fine ==> Here() == Command
      ensures st == Fine ==> log == Then(Then(old(log), Arrival(recvMessage, false)), Sent(WELCOME))
    {
      st := RecvMessage(false);
      if st == Fine {
        assert Here() == Welcoming;
        st := Reply(WELCOME);
      }
    }

    /** Where a failed login leaves the session. */
    static ghost function After(was: Point): Point {
      if was == Login(true) then Command else Login(false)
    }

    static ghost function LoggedIn(was: Log, user: string, password: string): Log {
      Then(Then(Then(Then(was, Arrival(user, false)), Sent(ASK_PASSWORD)), Arrival(password, false)), Sent(WELCOME))
    }

    /** A message with USER in it, 331, any message, 230. */
    static ghost predicate IsLogin(was: Log, now: Log) {
      exists user, password :: now == LoggedIn(was, user, password) && Contains(user, "USER")
    }

    /** A failed read, or a message without USER, and the 530 that goes with it. */
    static ghost predicate IsRefusal(was: Log, now: Log) {
      || now == Then(Then(was, RecvFailed), Sent(Refusal(true)))
      || (exists text :: now == Then(Then(was, Arrival(text, false)), Sent(Refusal(false))) && !Contains(text, "USER"))
    }

    /** A failed first read is answered 530 and reported as a failed login; a failed read of the password
        is not caught. */
    method HandleLogin() returns (st: Status, code: int)
      requires Valid() && Placed() && Here().Login?
      modifies this`log, this`delivery, this`recvMessage
      ensures Valid() && Placed() && Ends(st) && st != Undefined
      ensures |delivery| <= |old(delivery)| && (st == Fine ==> |delivery| < |old(delivery)|)
      ensures st == Fine && code == 0 ==> IsLogin(old(log), log) && Here() == Command
      ensures st == Fine && code != 0 ==> code == -1 && IsRefusal(old(log), log) && Here() == After(old(Here()))
    {
      st := RecvMessage(false);
      code := -1;
      if st == Waiting {
        return;
      }
      if st == Thrown {
        st := Reply(Refusal(true));
        return;
      }
      if !Contains(recvMessage, "USER") {
        st := Reply(Refusal(false));
        return;
      }
      ghost var user := recvMessage;
      st := Reply(ASK_PASSWORD);
      code := 0;
      if st == Fine {
        st := ReadPassword();
        assert st == Fine ==> log == LoggedIn(old(log), user, recvMessage);
      }
    }

    /** A handler that sends one reply sends the one the reference names, or throws. */
    method Answer(h: Handler) returns (st: Status)
      requires Valid() && Placed() && Here() == Replying(h, recvMessage)
      requires !FtpSession.Undefined(Here(), Now())
      modifies this`log
      ensures Valid() && Placed() && Ends(st) && (st == Fine || st == Thrown)
      ensures st == Fine ==> Here() == Command
      ensures log == Then(old(log), if st == Fine then Sent(ReplyTo(h, recvMessage, pwd))
                                    else Unsent(ReplyTo(h, recvMessage, pwd)))
    {
      st := Reply(ReplyTo(h, recvMessage, pwd));
    }

    /** The directory is changed before the reply is sent. */
    method HandleCWD() returns (st: Status)
      requires Valid() && Where(log) == DirAfter(pwd, Received(recvMessage, Cwd, true))
      requires Here() == Replying(Cwd, recvMessage)
      modifies this`log, this`pwd
      ensures Valid() && Placed() && Ends(st) && st != Waiting
      ensures st == Fine ==> log == Then(old(log), Sent(ReplyTo(Cwd, recvMessage, pwd))) && Here() == Command
      ensures match ScanArg("CWD", recvMessage)
        case None => pwd == old(pwd) && st != Undefined
        case Some(path) =>
          if |path| >= NAME_MAX then st == Undefined && pwd == old(pwd)
          else st != Undefined && pwd == ChangeDir(old(pwd), path)
    {
      var path := ScanArg("CWD", recvMessage);
      if path.Some? {
        if |path.value| >= NAME_MAX {
          return Undefined;
        }
        if path.value[0] == '/' {
          pwd := path.value;
        } else {
          pwd := pwd + "/";
          pwd := pwd + path.value;
        }
      }
      st := Answer(Cwd);
    }

    method HandleMKD() returns (st: Status)
      requires Valid() && Placed() && Here() == Replying(Mkd, recvMessage)
      modifies this`log
      ensures Valid() && Placed() && Ends(st) && st != Waiting
      ensures st == Fine ==> log == Then(old(log), Sent(ReplyTo(Mkd, recvMessage, pwd))) && Here() == Command
      ensures st == Undefined <==> Overlong("MKD", recvMessage)
    {
      var name := ScanArg("MKD", recvMessage);
      if name.Some? && |name.value| >= NAME_MAX {
        return Undefined;
      }
      st := Answer(Mkd);
    }

    /** The old connection is deleted before the new one is tried, so a failed connect leaves none. */
    method Reconnect(host: string, port: int)
      requires Valid()
      modifies this`log, this`client, this`created, this`refused, created
      ensures Valid() && fresh(created - old(created)) && old(created) <= created
      ensures refused == (client == null || old(refused))
      ensures log == Then(old(log), Dialed(host, port, client != null)) && Where(log) == Where(old(log))
      ensures client != null ==> fresh(client) && client.host == host && client.port == port
    {
      if client != null {
        client.Delete();
        client := null;
      }
      var connected: bool := *;
      if connected {
        var incoming: string, peerShuts: bool := *, *;
        client := new DataConnection(host, port, incoming, peerShuts);
        created := created + {client};
      } else {
        refused := true;
      }
      log := Then(log, Dialed(host, port, client != null));
    }

    static ghost predicate IsPortAnswer(was: Log, to: Option<(string, int)>, message: string, pwd: string, now: Log) {
      if to.Some? then
        exists ok :: now == Then(Then(was, Dialed(to.value.0, to.value.1, ok)), Sent(ReplyTo(Port, message, pwd)))
      else now == Then(was, Sent(SYNTAX_ERROR))
    }

    /** One reply, after the new data connection in the case of a PORT that was understood. */
    static ghost predicate IsAnswer(was: Log, h: Handler, message: string, pwd: string, now: Log) {
      if h == Port then IsPortAnswer(was, Target(message), message, pwd, now)
      else now == Then(was, Sent(ReplyTo(h, message, pwd)))
    }

    /** A PORT line that is understood: the reply is 200 whether or not the connection was made. */
    method Dial(host: string, port: int) returns (st: Status)
      requires Valid() && Placed() && Here() == Dialing(recvMessage, host, port)
      modifies this`log, this`client, this`created, this`refused, created
      ensures Valid() && fresh(created - old(created)) && old(created) <= created
      ensures Placed() && Ends(st) && (st == Fine || st == Thrown) && (st == Fine ==> Here() == Command)
      ensures if client == null then refused else fresh(client) && client.host == host && client.port == port
      ensures var dialed, reply := Then(old(log), Dialed(host, port, client != null)), ReplyTo(Port, recvMessage, pwd);
        log == Then(dialed, if st == Fine then Sent(reply) else Unsent(reply))
    {
      Reconnect(host, port);
      assert Here() == Replying(Port, recvMessage);
      st := Answer(Port);
    }

    /** What a PORT line does, given the host and port read from it, if they were. */
    method PortTo(to: Option<(string, int)>) returns (st: Status)
      requires Valid() && Placed()
      requires Here() == if to.Some? then Dialing(recvMessage, to.value.0, to.value.1)
                         else Replying(Unsupported, recvMessage)
      modifies this`log, this`client, this`created, this`refused, created
      ensures Valid() && fresh(created - old(created)) && old(created) <= created
      ensures Placed() && Ends(st) && (st == Fine || st == Thrown) && (st == Fine ==> Here() == Command)
      ensures st == Fine ==> IsPortAnswer(old(log), to, recvMessage, pwd, log)
      ensures to.None? ==> client == old(client) && created == old(created)
      ensures to.Some? && client == null ==> refused
      ensures to.Some? && client != null ==> fresh(client) && (client.host, client.port) == to.value
    {
      if to.None? {
        st := Answer(Unsupported);
      } else {
        st := Dial(to.value.0, to.value.1);
      }
    }

    method HandlePORT() returns (st: Status)
      requires Valid() && Placed() && Here() == Due(Port, recvMessage)
      modifies this`log, this`client, this`created, this`refused, created
      ensures Valid() && fresh(created - old(created)) && old(created) <= created
      ensures Placed() && Ends(st) && (st == Fine || st == Thrown) && (st == Fine ==> Here() == Command)
      ensures var to := Target(recvMessage);
        && (st == Fine ==> IsPortAnswer(old(log), to, recvMessage, pwd, log))
        && (to.None? ==> client == old(client) && created == old(created))
        && (to.Some? && client == null ==> refused)
        && (to.Some? && client != null ==> fresh(client) && (client.host, client.port) == to.value)
    {
      st := PortTo(Target(recvMessage));
    }

    /** Where a transfer leaves the data connection, and the log: dropped once it has gone through, kept
        when it has thrown. */
    method Conclude(through: bool)
      requires Valid() && client != null
      modifies this`log, this`client, client`deleted
      ensures Valid() && client == if through then null else old(client)
      ensures log == Then(old(log), Moved(through)) && Where(log) == Where(old(log))
    {
      if through {
        client.Delete();
        client := null;
      }
      log := Then(log, Moved(through));
    }

    static ghost function Concluded(was: Log, h: Handler, t: Transfer): Log {
      if t == Refused then Then(was, Sent(SYNTAX_ERROR))
      else if t == Unrefused then Then(Then(was, Unsent(SYNTAX_ERROR)), Sent(Concluding(h)))
      else Then(Then(was, Moved(t == Through)), Sent(Concluding(h)))
    }

    /** The events of a whole transfer. STOR moves its data before the 150. */
    static ghost function Transferred(was: Log, h: Handler, t: Transfer): Log {
      if h == Stor then Then(Then(Then(was, Moved(t == Through)), Sent(Preliminary(h))), Sent(Concluding(h)))
      else Concluded(Then(was, Sent(Preliminary(h))), h, t)
    }

    /** One line for each directory entry, until one cannot be sent. */
    method SendEntries(lines: seq<string>) returns (ok: bool)
      requires Valid() && client != null
      modifies client`sent, client`throws
      ensures Valid() && client.throws == old(client.throws) + (if ok then 0 else 1)
      ensures ok ==> client.sent == old(client.sent) + Flatten(lines)
      ensures old(client.sent) <= client.sent <= old(client.sent) + Flatten(lines)
    {
      ok := true;
      var i := 0;
      ghost var before := client.sent;
      while i < |lines| && ok
        invariant 0 <= i <= |lines| && client.throws == old(client.throws) + (if ok then 0 else 1)
        invariant ok ==> client.sent == before + Flatten(lines[..i])
        invariant before <= client.sent <= before + Flatten(lines)
      {
        FlattenNext(lines, i);
        FlattenSplit(lines, i + 1);
        ok := client.Send(lines[i]);
        i := i + 1;
      }
      assert i == |lines| ==> lines[..i] == lines;
    }

    /** The data of a listing. */
    method MoveListing() returns (t: Transfer)
      requires Valid() && Placed() && Here() == Moving(List, recvMessage) && client != null && pwd in disk.listings
      modifies this`log, this`client, client
      ensures Valid() && Here() == Closing(List, true) && t in {Through, Threw}
      ensures log == Then(old(log), Moved(t == Through)) && Where(log) == Where(old(log))
      ensures client == if t == Through then null else old(client)
      ensures old(client).throws == old(client.throws) + (if t == Threw then 1 else 0)
      ensures t == Through ==> old(client).sent == old(client.sent) + Flatten(disk.listings[pwd])
    {
      var ok := SendEntries(disk.listings[pwd]);
      t := if ok then Through else Threw;
      Conclude(ok);
    }

    /** A listing of a directory that cannot be opened: a 500, or when that cannot be sent, a 226. */
    method RefuseList() returns (st: Status, t: Transfer)
      requires Valid() && Placed() && Here() == Moving(List, recvMessage)
      requires client != null && pwd !in disk.listings
      modifies this`log
      ensures Valid() && Placed() && Ends(st) && (st == Fine || st == Thrown) && t in {Refused, Unrefused}
      ensures st == Fine ==> log == Concluded(old(log), List, t) && Here() == Command
    {
      var ok := SendMessage(SYNTAX_ERROR);
      if ok {
        return Fine, Refused;
      }
      t := Unrefused;
      st := Reply(Concluding(List));
    }

    /** The part of a listing after its 150. */
    method FinishList() returns (st: Status, t: Transfer)
      requires Valid() && Placed() && Here() == Moving(List, recvMessage)
      modifies this`log, this`client, created
      ensures Valid() && Placed() && Ends(st) && st != Waiting
      ensures st == Fine ==> log == Concluded(old(log), List, t) && Here() == Command
      ensures st == Undefined <==> old(client) == null
      ensures st == Undefined ==> t == Refused
      ensures client == if t == Through then null else old(client)
      ensures old(client) != null ==>
        && old(client).throws == old(client.throws) + (if t == Threw then 1 else 0)
        && (t in {Refused, Unrefused} <==> pwd !in disk.listings)
        && (t == Through ==> old(client).sent == old(client.sent) + Flatten(disk.listings[pwd]))
    {
      t := Refused;
      if client == null {
        return Undefined, t;
      }
      if pwd !in disk.listings {
        st, t := RefuseList();
      } else {
        t := MoveListing();
        st := Reply(Concluding(List));
      }
    }

    /** An exception while listing leaves the data connection in place, and is answered 226 all the same;
        so is a 500 that could not be sent. The connection goes with a listing that went through, and with
        nothing else. */
    method HandleLIST() returns (st: Status, t: Transfer)
      requires Valid() && Placed() && Here() == Opening(List, recvMessage)
      modifies this`log, this`client, created
      ensures Valid() && Placed() && Ends(st) && st != Waiting
      ensures st == Fine ==> log == Transferred(old(log), List, t) && Here() == Command
      ensures st == Fine || st == Undefined ==> (st == Undefined <==> old(client) == null)
      ensures client == if t == Through then null else old(client)
      ensures old(client) != null ==> old(client).throws == old(client.throws) + (if t == Threw then 1 else 0)
      ensures st == Fine ==> (t in {Refused, Unrefused} <==> pwd !in disk.listings)
      ensures t == Through ==> pwd in disk.listings && old(client) != null
      ensures t == Through ==> old(client).sent == old(client.sent) + Flatten(disk.listings[pwd])
    {
      t := Refused;
      st := Reply(Preliminary(List));
      if st == Fine {
        st, t := FinishList();
      }
    }

    /** The data of a file that was opened. */
    method MoveFile(text: string) returns (t: Transfer)
      requires Valid() && Placed() && Here() == Moving(Retr, recvMessage) && client != null
      requires Asked(recvMessage, pwd, disk) == Some(text) && !Overlong("RETR", recvMessage)
      modifies this`log, this`client, client
      ensures Valid() && Here() == Closing(Retr, true) && t in {Through, Threw}
      ensures log == Then(old(log), Moved(t == Through)) && Where(log) == Where(old(log))
      ensures client == if t == Through then null else old(client)
      ensures old(client).throws == old(client.throws) + (if t == Threw then 1 else 0)
      ensures t == Through ==> old(client).sent == old(client.sent) + text
    {
      var ok := client.Send(text);
      t := if ok then Through else Threw;
      Conclude(ok);
    }

    /** Send a file that was opened. */
    method SendFile(text: string) returns (st: Status, t: Transfer)
      requires Valid() && Placed() && Here() == Moving(Retr, recvMessage) && client != null
      requires Asked(recvMessage, pwd, disk) == Some(text) && !Overlong("RETR", recvMessage)
      modifies this`log, this`client, client
      ensures Valid() && Placed() && Ends(st) && (st == Fine || st == Thrown) && t in {Through, Threw}
      ensures st == Fine ==> log == Concluded(old(log), Retr, t) && Here() == Command
      ensures client == if t == Through then null else old(client)
      ensures old(client).throws == old(client.throws) + (if t == Threw then 1 else 0)
      ensures t == Through ==> old(client).sent == old(client.sent) + text
    {
      t := MoveFile(text);
      st := Reply(Concluding(Retr));
    }

    /** The part of a RETR after its 150. */
    method FinishRetr() returns (st: Status, t: Transfer)
      requires Valid() && Placed() && Here() == Moving(Retr, recvMessage)
      modifies this`log, this`client, created
      ensures Valid() && Placed() && Ends(st) && st != Waiting
      ensures st == Fine ==> log == Concluded(old(log), Retr, t) && Here() == Command
      ensures st == Undefined ==> t == Refused
      ensures st != Undefined ==> (t == Refused <==> Asked(recvMessage, pwd, disk).None?)
      ensures st == Undefined <==>
        Overlong("RETR", recvMessage) || (Asked(recvMessage, pwd, disk).Some? && old(client) == null)
      ensures t != Unrefused && client == if t == Through then null else old(client)
      ensures old(client) != null ==> old(client).throws == old(client.throws) + (if t == Threw then 1 else 0)
      ensures t == Through ==> old(client) != null && Asked(recvMessage, pwd, disk).Some?
      ensures t == Through ==> old(client).sent == old(client.sent) + Asked(recvMessage, pwd, disk).value
    {
      t := Refused;
      var name := ScanArg("RETR", recvMessage);
      if name.Some? && |name.value| >= NAME_MAX {
        return Undefined, t;
      }
      if name.None? || pwd + "/" + name.value !in disk.files {
        st := Reply(SYNTAX_ERROR);
      } else if client == null {
        st := Undefined;
      } else {
        st, t := SendFile(disk.files[pwd + "/" + name.value]);
      }
    }

    /** A file that is named and can be opened is answered 226, however the sending goes. The connection
        goes with a file that went through, and with nothing else. */
    method HandleRETR() returns (st: Status, t: Transfer)
      requires Valid() && Placed() && Here() == Opening(Retr, recvMessage)
      modifies this`log, this`client, created
      ensures Valid() && Placed() && Ends(st) && st != Waiting
      ensures st == Fine ==> log == Transferred(old(log), Retr, t) && Here() == Command
      ensures st == Fine ==> (t == Refused <==> Asked(recvMessage, pwd, disk).None?)
      ensures st == Fine || st == Undefined ==> (st == Undefined <==>
        Overlong("RETR", recvMessage) || (Asked(recvMessage, pwd, disk).Some? && old(client) == null))
      ensures t != Unrefused && client == if t == Through then null else old(client)
      ensures old(client) != null ==> old(client).throws == old(client.throws) + (if t == Threw then 1 else 0)
      ensures t == Through ==> old(client) != null && Asked(recvMessage, pwd, disk).Some?
      ensures t == Through ==> old(client).sent == old(client.sent) + Asked(recvMessage, pwd, disk).value
    {
      t := Refused;
      st := Reply(Preliminary(Retr));
      if st == Fine {
        st, t := FinishRetr();
      }
    }

    /** The two replies of STOR. */
    method AnswerStor() returns (st: Status)
      requires Valid() && Placed() && Here() == Opening(Stor, "")
      modifies this`log
      ensures Valid() && Placed() && Ends(st) && (st == Fine || st == Thrown)
      ensures st == Fine ==> Here() == Command
      ensures st == Fine ==> log == Then(Then(old(log), Sent(Preliminary(Stor))), Sent(Concluding(Stor)))
    {
      st := Reply(Preliminary(Stor));
      if st == Fine {
        st := Reply(Concluding(Stor));
      }
    }

    /** The data is read before the 150 is sent, into the message itself, and goes nowhere else. The
        connection goes with a stream that was read to its end, and with nothing else. */
    method HandleSTOR() returns (st: Status, t: Transfer)
      requires Valid() && Placed() && Here() == Storing
      modifies this`log, this`client, this`recvMessage, created
      ensures Valid() && Placed() && Ends(st)
      ensures st == Fine ==> log == Transferred(old(log), Stor, t) && Here() == Command
      ensures st == Undefined <==> old(client) == null
      ensures client == if t == Through then null else old(client)
      ensures old(client) != null ==> old(client).throws == old(client.throws) + (if t == Threw then 1 else 0)
      ensures old(client) != null ==> match t
        case Through => recvMessage == old(client).incoming && old(client).peerShuts
        case Threw => recvMessage <= old(client).incoming
        case _ => st == Waiting && !old(client).peerShuts
    {
      t := Refused;
      if client == null {
        return Undefined, t;
      }
      st, recvMessage := client.Receive();
      if st != Waiting {
        t := if st == Fine then Through else Threw;
        Conclude(st == Fine);
        assert Here() == Opening(Stor, "");
        st := AnswerStor();
      }
    }

    /** The transfer branches. */
    method HandleTransfer(h: Handler) returns (st: Status, t: Transfer)
      requires h in {List, Retr, Stor} && Valid() && Placed() && Here() == Due(h, recvMessage)
      modifies this`log, this`client, this`recvMessage, created
      ensures Valid() && created == old(created) && Placed() && Ends(st)
      ensures st == Fine ==> log == Transferred(old(log), h, t) && Here() == Command
      ensures client == if t == Through then null else old(client)
      ensures st == Fine && h != Stor ==> (t in {Refused, Unrefused} <==> !Openable(h, old(recvMessage), old(Now())))
    {
      if h == List {
        st, t := HandleLIST();
      } else if h == Retr {
        st, t := HandleRETR();
      } else {
        st, t := HandleSTOR();
      }
    }

    /** The branches with one reply. */
    method HandleOne(h: Handler) returns (st: Status)
      requires h !in {List, Retr, Stor, Size, User} && Valid()
      requires Here() == Due(h, recvMessage) && Where(log) == DirAfter(pwd, Received(recvMessage, h, true))
      modifies this`log, this`client, this`created, this`refused, this`pwd, created
      ensures Valid() && fresh(created - old(created)) && old(created) <= created
      ensures Placed() && Ends(st) && st != Waiting
      ensures st == Fine ==> IsAnswer(old(log), h, recvMessage, pwd, log) && Here() == Command
      ensures st == Undefined <==>
        (h == Cwd && Overlong("CWD", recvMessage)) || (h == Mkd && Overlong("MKD", recvMessage))
      ensures h != Port ==> client == old(client)
    {
      if h == Cwd {
        st := HandleCWD();
      } else if h == Mkd {
        st := HandleMKD();
      } else if h == Port {
        st := HandlePORT();
      } else {
        st := Answer(h);
      }
    }

    /** What a message given to handler `h` leads to, once it has ended well. */
    static ghost predicate Answered(was: Log, h: Handler, message: string, pwd: string, now: Log) {
      if h == Size then now == was
      else if h == User then IsLogin(was, now) || IsRefusal(was, now)
      else if h in {List, Retr, Stor} then exists t :: now == Transferred(was, h, t)
      else IsAnswer(was, h, message, pwd, now)
    }

    /** The branch taken. SIZE is not answered; USER reads on. */
    method Handle(h: Handler) returns (st: Status)
      requires Valid() && Here() == Due(h, recvMessage)
      requires Where(log) == DirAfter(pwd, Received(recvMessage, h, true))
      modifies this, created
      ensures Valid() && fresh(created - old(created)) && old(created) <= created
      ensures Placed() && Ends(st) && |delivery| <= |old(delivery)| && (st == Fine ==> Here() == Command)
      ensures st == Fine ==> Answered(old(log), h, old(recvMessage), pwd, log)
    {
      if h == Size {
        st := Fine;
      } else if h == User {
        var code;
        st, code := HandleLogin();
      } else if h == List || h == Retr || h == Stor {
        var t;
        st, t := HandleTransfer(h);
      } else {
        st := HandleOne(h);
      }
    }

    /** One turn of the command loop, after its read: the handler of the first verb in table order that
        occurs in the message. */
    method HandleCommand() returns (st: Status)
      requires log.Then? && log.event == Arrival(recvMessage, true) && PointOf(log.before, disk) == Command
      requires Valid() && pwd == Where(log.before)
      modifies this, created
      ensures Valid() && fresh(created - old(created)) && old(created) <= created
      ensures Placed() && Ends(st) && |delivery| <= |old(delivery)| && (st == Fine ==> Here() == Command)
      ensures st == Fine ==>
        Answered(old(log), HandlerOf(Dispatch(old(recvMessage))), old(recvMessage), pwd, log)
    {
      st := Handle(HandlerOf(Dispatch(recvMessage)));
    }

    /** Login messages, until one succeeds. */
    method LogIn() returns (st: Status)
      requires Valid() && Placed() && Here() == Login(false)
      modifies this`log, this`delivery, this`recvMessage
      ensures Valid() && Placed() && Ends(st) && st != Undefined && (st == Fine ==> Here() == Command)
    {
      var code := -1;
      while code != 0
        invariant Valid() && Placed() && Here() == if code == 0 then Command else Login(false)
        decreases |delivery|
      {
        st, code := HandleLogin();
        if st != Fine {
          return;
        }
      }
      st := Fine;
    }

    /** Commands, until the delivery runs out or an ending no handler catches. */
    method TakeCommands() returns (st: Status)
      requires Valid() && Placed() && Here() == Command
      modifies this, created
      ensures st != Fine && Valid() && Placed() && Ends(st)
    {
      while true
        invariant Valid() && Placed() && Here() == Command
        invariant fresh(created - old(created)) && old(created) <= created
        decreases |delivery|
      {
        st := RecvMessage(true);
        if st != Fine {
          return;
        }
        st := HandleCommand();
        if st != Fine {
          return;
        }
      }
    }

    /** The whole session, from the greeting to where the delivery runs out or an ending no handler
        catches. The log is a session of the reference; its reads are the consumed part of the delivery;
        all data connections but the current one have been deleted. */
    method StartProtocol() returns (st: Status)
      requires Valid() && Placed() && log == Start && created == {}
      modifies this
      ensures st != Fine && Valid() && Placed() && Ends(st)
      ensures Reads(log) + delivery == old(delivery)
      ensures st == Waiting && IsRead(Here()) ==> Owed(log) == 0 && PhaseOf(log) == Idle
    {
      st := Reply(GREETING);
      if st == Fine {
        st := LogIn();
      }
      if st == Fine {
        st := TakeCommands();
      }
      SessionIsSettled(log, disk);
    }
  }
}
