/** `ProtocolHttp`: the request and response methods, in place, over an `IOSocket`. */
module Http {
  import opened Text
  import opened Lines
  import opened Transport
  import opened Simple
  import opened HttpRequest
  import opened HttpResponse

  /** `Exception` is the socket's; `Waiting` is a read that does not return. */
  datatype Code = Returned(value: int) | Exception | LengthError | Overrun | Waiting

  const BUF_SIZE := 4096 * 100

  const DEFAULT_HEADER := [
    "user-agent: Mozilla/5.0 AppleWebKit/537.36 Chrome/69.0.3497.100 Safari/537.36\r\n",
    "cookie: \r\n",
    "Connection: close\r\n"]

  /** The header loop with the lines appended so far. */
  function Resume(s: string, off: nat, lines: seq<string>): Scan
    requires off <= |s|
    decreases |s| - off
  {
    var pos := LineEnd(s, off);
    if pos == -1 then Unended(lines)
    else if pos == off then Stopped(lines, off, true)
    else if |s| <= pos + 2 then Stopped(lines + [s[off..pos]], pos + 2, false)
    else Resume(s, pos + 2, lines + [s[off..pos]])
  }

  lemma {:induction false} ResumeAppends(s: string, off: nat, lines: seq<string>)
    requires off <= |s|
    ensures var r := ScanLines(s, off); Resume(s, off, lines) == r.(lines := lines + r.lines)
    decreases |s| - off
  {
    var pos := LineEnd(s, off);
    assert lines + [] == lines;
    if pos > off && pos + 2 < |s| {
      var line, rest := s[off..pos], ScanLines(s, pos + 2).lines;
      ResumeAppends(s, pos + 2, lines + [line]);
      assert lines + [line] + rest == lines + ([line] + rest);
    }
  }

  lemma PushChar(body: string, text: string, held: string)
    requires |text| + |held| < |body| && body[..|text| + |held|] == text + held
    ensures body[..|text| + |held| + 1] == text + (held + [body[|text| + |held|]])
  {}

  /** The members of a new object. */
  const FRESH := Request("GET", "/", "1.1", "127.0.0.1", DEFAULT_HEADER)

  class ProtocolHttp {
    const socket: IOSocket
    var requestMethod: string
    var requestPath: string
    var requestVersion: string
    var requestHost: string
    var requestHeader: seq<string>
    var range: Range
    // The stream `m_file`: the contents of the file it has open, and whether a read has hit their end.
    // Nothing clears that state, and a stream in it reports size -1 and gives out nothing.
    var file: Option<string>
    var spent: bool

    constructor (socket: IOSocket)
      ensures this.socket == socket
      ensures Members() == FRESH
      ensures range == Range(0, 0, false) && file == None && !spent
    {
      this.socket := socket;
      requestMethod, requestPath, requestVersion, requestHost := "GET", "/", "1.1", "127.0.0.1";
      requestHeader := DEFAULT_HEADER;
      range, file, spent := Range(0, 0, false), None, false;
    }

    /** What the open stream has to give, as `seekg` and `tellg` see it. */
    function Contents(): string
      reads this
    {
      if file.None? || spent then "" else file.value
    }

    /** What a response gives out of, when the path names `found`: the file that is already open, if
        one is. */
    function Source(found: Option<string>): Option<string>
      reads this
    {
      if file.None? then found else Some(Contents())
    }

    function Members(): Request
      reads this
    {
      Request(requestMethod, requestPath, requestVersion, requestHost, requestHeader)
    }

    /** One write of a series: piece `k` of `pieces`, after those before it. */
    method Put(message: string, ghost pieces: seq<string>, ghost k: nat, ghost before: string) returns (r: IoResult)
      requires k < |pieces| && message == pieces[k]
      requires socket.sent == before + Flatten(pieces[..k])
      modifies socket`sent, socket`failed
      ensures socket.failed == (r.Thrown? || old(socket.failed)) && !r.Waiting?
      ensures r.Done? ==> socket.sent == before + Flatten(pieces[..k + 1])
      ensures before <= socket.sent <= before + Flatten(pieces)
    {
      FlattenNext(pieces, k);
      FlattenSplit(pieces, k + 1);
      r := socket.PutMessage(message);
    }

    /** Done: the whole request is on the wire. Thrown: a front part of it is. */
    method SendRequest() returns (r: IoResult)
      modifies socket`sent, socket`failed
      ensures socket.failed == (r.Thrown? || old(socket.failed)) && !r.Waiting?
      ensures r.Done? ==> socket.sent == old(socket.sent) + Flatten(Pieces(Members()))
      ensures old(socket.sent) <= socket.sent <= old(socket.sent) + Flatten(Pieces(Members()))
    {
      ghost var pieces := Pieces(Members());
      var message := ThreeTokens(requestMethod, requestPath, "HTTP/" + requestVersion) + CRLF;
      r := Put(message, pieces, 0, old(socket.sent));
      if r.Thrown? { return; }
      message := "Host: " + requestHost + CRLF;
      r := Put(message, pieces, 1, old(socket.sent));
      if r.Thrown? { return; }
      for i := 0 to |requestHeader|
        invariant socket.sent == old(socket.sent) + Flatten(pieces[..i + 2])
        invariant Members() == old(Members()) && socket.failed == old(socket.failed)
      {
        r := Put(requestHeader[i], pieces, i + 2, old(socket.sent));
        if r.Thrown? { return; }
      }
      r := Put(CRLF, pieces, |pieces| - 1, old(socket.sent));
      assert pieces[..|pieces|] == pieces;
    }

    /** The position of the first CRLF in `buf[from..size]`, or -1. The byte after the message is
        looked at when the message ends in a CR; it is the NUL the buffer was filled with. */
    method ReadLine(buf: array<char>, from: nat, size: nat, ghost s: string) returns (r: int)
      requires from <= size < buf.Length && buf[size] == NUL && s == buf[..size]
      ensures LineEnd(s, from) == if r == -1 then -1 else from + r
      ensures -1 <= r
    {
      var pos := from;
      while pos < size
        invariant from <= pos <= size
        invariant forall i :: from <= i < pos ==> !IsLineEnd(s, i)
      {
        if buf[pos] == '\r' && buf[pos + 1] == '\n' {
          assert IsLineEnd(s, pos);
          return pos - from;
        }
        pos := pos + 1;
      }
      return -1;
    }

    /** The part of the parse before the header loop. */
    method ReadRequestLine(buf: array<char>, size: nat, ghost s: string) returns (first: Parse, offset: nat)
      requires size < buf.Length && buf[size] == NUL && s == buf[..size]
      ensures first == FirstLine(s)
      ensures first.Parsed? ==> offset == LineEnd(s, 0) + 2 <= size
    {
      var pos := ReadLine(buf, 0, size, s);
      if pos == -1 || pos >= LINE_MAX {
        return Wild, 0;
      }
      assert s[..pos] == buf[..pos];
      return ScanRequestLine(buf[..pos]), pos + 2;
    }

    /** The header loop: a zero-length line ends it, and so does the end of the buffer. */
    method AppendLines(buf: array<char>, start: nat, size: nat, ghost s: string) returns (code: Code)
      requires start <= size < buf.Length && buf[size] == NUL && s == buf[..size]
      modifies this`requestHeader
      ensures requestHeader == old(requestHeader) + ScanLines(s, start).lines
      ensures code == if ScanLines(s, start).Stopped? then Returned(0) else LengthError
    {
      ghost var before := requestHeader;
      var offset := start;
      code := LengthError;
      while true
        invariant start <= offset <= size
        invariant forall k :: 0 <= k < size ==> buf[k] == s[k]
        invariant Resume(s, offset, requestHeader) == Resume(s, start, before)
        decreases size - offset
      {
        assert buf[..size] == s;
        var next := ReadLine(buf, offset, size, s);
        if next <= 0 {
          code := if next == 0 then Returned(0) else LengthError;
          break;
        }
        var line := buf[offset..offset + next];
        assert line == s[offset..offset + next];
        requestHeader := requestHeader + [line];
        offset := offset + next + 2;
        if size <= offset {
          code := Returned(0);
          break;
        }
      }
      ResumeAppends(s, start, before);
    }

    method ParseRequestHeader(buf: array<char>, size: nat, ghost s: string) returns (code: Code)
      requires size < buf.Length && buf[size] == NUL && s == buf[..size]
      modifies this`requestMethod, this`requestPath, this`requestVersion, this`requestHeader
      ensures match ParseRequest(s)
        case Wild => code == Overrun
        case NoLineEnd => code == LengthError
        case BadRequestLine => code == Returned(-1) && Members() == old(Members())
        case Parsed(verb, path, version, lines) =>
          && code == Returned(0)
          && Members() == Request(verb, path, version, old(requestHost), old(requestHeader) + lines)
    {
      var first, offset := ReadRequestLine(buf, size, s);
      if first == BadRequestLine {
        return Returned(-1);
      }
      if first == Wild {
        return Overrun;
      }
      requestMethod, requestPath, requestVersion := first.verb, first.path, first.version;
      code := AppendLines(buf, offset, size, s);
    }

    /** `message` is left holding what was received, whatever the parse makes of it. */
    method RecvRequest(message: CppString) returns (code: Code, ghost chunks: seq<string>)
      requires message.Valid()
      modifies this`requestMethod, this`requestPath, this`requestVersion, this`requestHeader
      modifies socket`incoming, socket`failed, message, message.buf
      ensures code == Exception ==>
        socket.fd == 0 || socket.failed || (socket.secure && socket.incoming == "" && socket.peerShuts)
      ensures message.Valid() && old(socket.incoming) == Flatten(chunks) + socket.incoming
      ensures forall i | 0 <= i < |chunks| :: chunks[i] != "" && (i < |chunks| - 1 ==> !EndOfHeader(chunks[i]))
      ensures code != Exception ==> socket.failed == old(socket.failed)
      // Nothing more comes, and nothing that came was accepted.
      ensures code.Waiting? ==>
        && socket.incoming == "" && !socket.peerShuts && |Flatten(chunks)| < message.buf.Length - 1
        && (forall i | 0 <= i < |chunks| :: !EndOfHeader(chunks[i]))
      ensures code == Exception || code.Waiting? || (
        && message.Text() == Flatten(chunks)
        // Reading stopped at an accepted chunk, at a full buffer, or at end of stream.
        && (|| (chunks != [] && EndOfHeader(chunks[|chunks| - 1]))
            || |Flatten(chunks)| == message.buf.Length - 1
            || (!socket.secure && socket.incoming == "" && socket.peerShuts))
        && match ParseRequest(message.Text())
           case Wild => code == Overrun
           case NoLineEnd => code == LengthError
           case BadRequestLine => code == Returned(-1) && Members() == old(Members())
           case Parsed(verb, path, version, lines) =>
             && code == Returned(0)
             && Members() == Request(verb, path, version, old(requestHost), old(requestHeader) + lines))
      ensures message.buf.Length >= 2048
    {
      message.Resize(0);
      message.Reserve(2048);
      message.Resize(message.buf.Length);
      var dataMax := message.buf.Length - 1;
      ghost var filled := message.buf[..];
      var got;
      got, chunks := socket.GetMessage(message.buf, 0, dataMax, -1, EndOfHeader);
      ghost var text := Flatten(chunks);
      StoredPrefix(message.buf[..], filled, 0, text);
      assert message.buf[..|text|] == text;
      if got.Thrown? {
        message.Resize(0);
        return Exception, chunks;
      }
      if got.Waiting? {
        return Code.Waiting, chunks;
      }
      assert message.buf[..][got.count] == filled[got.count];
      code := ParseRequestHeader(message.buf, got.count, text);
      message.Resize(got.count);
    }

    /** Takes the contents of the file at the path; `None` when it cannot be opened. */
    method GetBodySize(found: Option<string>) returns (code: int, bodySize: nat)
      requires file.None? ==> !spent
      modifies this`range, this`file
      ensures range == FindRange(requestHeader, old(range))
      ensures file == if old(file).None? then found else old(file)
      ensures match old(Source(found))
        case None => code == 404
        case Some(text) => code == 200 && bodySize == |text| && Contents() == text
    {
      var k := 0;
      while k < |requestHeader|
        invariant 0 <= k <= |requestHeader|
        invariant FindRange(requestHeader[k..], range) == FindRange(requestHeader, old(range))
        invariant file == old(file)
      {
        var option := requestHeader[k];
        if Contains(option, RANGE) {
          range := ScanRange(option[|RANGE|..], range).(present := true);
        }
        assert requestHeader[k..][1..] == requestHeader[k + 1..];
        k := k + 1;
      }
      if file.None? {
        file := found;
        if file.None? {
          return 404, 0;
        }
      }
      var size := if spent then -1 else |file.value|;
      return 200, if size < 0 then 0 else size;
    }

    /** One block of the body, after the blocks already sent. */
    method PutBlock(block: string, ghost blocks: seq<string>, ghost body: string, ghost before: string)
      returns (r: IoResult)
      requires Flatten(blocks) + block <= body
      requires socket.sent == before + Flatten(blocks)
      modifies socket`sent, socket`failed
      ensures socket.failed == (r.Thrown? || old(socket.failed)) && !r.Waiting?
      ensures r.Done? ==> socket.sent == before + (Flatten(blocks) + block)
      ensures Flatten(blocks + [block]) == Flatten(blocks) + block
      ensures before + Flatten(blocks) <= socket.sent <= before + body
    {
      FlattenPush(blocks, block);
      assert before + (Flatten(blocks) + block) <= before + body;
      r := socket.PutMessage(block);
    }

    /** The body loop: characters are gathered into a buffer that is sent when full, and what is left
        is sent at the end. An exception is swallowed: the return value is the same. */
    method SendBody() returns (code: int, ghost blocks: seq<string>, ghost complete: bool)
      requires file.Some?
      modifies this`spent, socket`sent, socket`failed
      ensures code == 200 && socket.failed == (!complete || old(socket.failed))
      // Once it has read to the end of the file, the stream is spent.
      ensures (complete ==> spent) && (old(spent) ==> spent)
      // Every block sent whole is full but the last, and none is empty.
      ensures forall i :: 0 <= i < |blocks| ==>
        0 < |blocks[i]| <= BUF_SIZE && (i < |blocks| - 1 ==> |blocks[i]| == BUF_SIZE)
      ensures Flatten(blocks) <= old(Body(Contents(), range.start))
      ensures old(socket.sent) + Flatten(blocks) <= socket.sent <= old(socket.sent) + old(Body(Contents(), range.start))
      ensures complete ==> Flatten(blocks) == old(Body(Contents(), range.start))
    {
      ghost var body, before, text := Body(Contents(), range.start), socket.sent, "";
      var source := Contents();
      var buf := new char[BUF_SIZE + 4];
      var offset, pos := 0, range.start;
      blocks := [];
      while pos < |source|
        invariant 0 <= offset < BUF_SIZE && range.start <= pos
        invariant pos <= |source| || pos == range.start
        invariant pos - range.start == |text| + offset <= |body|
        invariant body[..|text| + offset] == text + buf[..offset]
        invariant text == Flatten(blocks) && socket.sent == before + text
        invariant forall i :: 0 <= i < |blocks| ==> |blocks[i]| == BUF_SIZE
        invariant socket.failed == old(socket.failed)
      {
        PushChar(body, text, buf[..offset]);
        buf[offset] := source[pos];
        assert buf[..offset + 1] == buf[..offset] + [body[|text| + offset]];
        offset, pos := offset + 1, pos + 1;
        if offset == BUF_SIZE {
          var r := PutBlock(buf[..offset], blocks, body, before);
          if r.Thrown? {
            return 200, blocks, false;
          }
          text, blocks := text + buf[..offset], blocks + [buf[..offset]];
          offset := 0;
          forall i | 0 <= i < BUF_SIZE {
            buf[i] := NUL;
          }
        }
      }
      spent := true;
      assert body[..|text| + offset] == body;
      if offset != 0 {
        var r := PutBlock(buf[..offset], blocks, body, before);
        if r.Thrown? {
          return 200, blocks, false;
        }
        blocks := blocks + [buf[..offset]];
      }
      return 200, blocks, true;
    }

    /** `_ResponseError(404)` */
    method SendNotFound(date: string) returns (code: Code)
      modifies socket`sent, socket`failed
      ensures code == Returned(0) || (code == Exception && socket.failed)
      ensures code == Returned(0) ==> socket.failed == old(socket.failed)
      ensures code == Returned(0) ==> socket.sent == old(socket.sent) + ErrorHead(date) + NOT_FOUND
    {
      var r := socket.PutMessage(ErrorHead(date));
      if r.Done? {
        r := socket.PutMessage(NOT_FOUND);
      }
      code := if r.Done? then Returned(0) else Exception;
    }

    /** `date` is what `asctime` gives, `kind` the media type chosen from the path, `found` the file the
        path names. An object that has sent a whole file has nothing but an empty one for every later
        request. */
    method SendResponse(found: Option<string>, date: string, kind: string) returns (code: Code, ghost complete: bool)
      requires file.None? ==> !spent
      modifies this`range, this`file, this`spent, socket
      ensures range == FindRange(requestHeader, old(range)) && (file.None? ==> !spent)
      ensures file == if old(file).None? then found else old(file)
      ensures code == Returned(0) || (code == Exception && socket.failed)
      ensures match old(Source(found))
        case None => code == Returned(0) ==> socket.sent == old(socket.sent) + (ErrorHead(date) + NOT_FOUND)
        case Some(text) => code == Returned(0) ==>
          var page, body := Head(date, |text|, range, kind), Body(text, range.start);
          && old(socket.sent) + page <= socket.sent <= old(socket.sent) + page + body
          && (complete ==> socket.sent == old(socket.sent) + page + body && Source(found) == Some(""))
          && socket.failed == (!complete || old(socket.failed)) && socket.writeShut
    {
      complete := false;
      var status, bodySize := GetBodySize(found);
      if status != 200 {
        code := SendNotFound(date);
        return;
      }
      var header := Head(date, bodySize, range, kind);
      var r := socket.PutMessage(header);
      if r.Thrown? {
        return Exception, false;
      }
      ghost var blocks;
      status, blocks, complete := SendBody();
      var shut := socket.PutClose();
      if shut.Thrown? {
        return Exception, complete;
      }
      return Returned(0), complete;
    }
  }

  lemma FramingOf(wire: string, before: string, date: string, text: string, r: Range, kind: string)
    requires wire == before + Head(date, |text|, r, kind) + Body(text, r.start)
    requires NoCR(date) && NoCR(kind) && |text| < WORD && r.start < WORD
    ensures Framed(wire[|before|..]) <==> r.start <= |text|
  {
    assert wire[|before|..] == Head(date, |text|, r, kind) + Body(text, r.start);
    Framing(date, text, r, kind);
  }

  /** Any response sent whole, the first of its object or a later one, is framed exactly when the range
      starts inside what the stream has, or at its end; for a later one that is nothing. */
  method ServeFile(server: ProtocolHttp, found: string, date: string, kind: string)
    returns (code: Code, ghost complete: bool)
    requires server.file.None? ==> !server.spent
    requires NoCR(date) && NoCR(kind) && |server.Source(Some(found)).value| < WORD
    modifies server`range, server`file, server`spent, server.socket
    ensures server.range == FindRange(server.requestHeader, old(server.range))
    ensures code == Returned(0) && !server.socket.failed && server.range.start < WORD ==>
      && |old(server.socket.sent)| <= |server.socket.sent|
      && (Framed(server.socket.sent[|old(server.socket.sent)|..])
          <==> server.range.start <= |old(server.Source(Some(found))).value|)
      && server.Source(Some(found)) == Some("")
  {
    ghost var before, text := server.socket.sent, server.Source(Some(found)).value;
    code, complete := server.SendResponse(Some(found), date, kind);
    if code == Returned(0) && complete && server.range.start < WORD {
      FramingOf(server.socket.sent, before, date, text, server.range, kind);
    }
  }

  /** A request delivered in chunks, with `rest` left unread when the reading stops. */
  ghost predicate Delivered(r: Request, chunks: seq<string>, rest: string) {
    && Flatten(Pieces(r)) == Flatten(chunks) + rest
    // Only the last chunk is ever accepted, and only a bare CRLF leaves anything behind.
    && (forall i | 0 <= i < |chunks| - 1 :: !EndOfHeader(chunks[i]))
    && (rest != "" ==> chunks != [] && chunks[|chunks| - 1] == CRLF)
    // Runs of whole writes leave nothing, and the scan has seen the end unless there is a NUL in it.
    && (forall cuts | Runs(chunks, Pieces(r), cuts) ::
          rest == "" && chunks != [] && (EndOfHeader(chunks[|chunks| - 1]) <==> NUL !in chunks[|chunks| - 1]))
  }

  /** A request that fits the buffer does not fill it and leave something over. */
  lemma RoomLeft(wire: string, text: string, rest: string, capacity: nat)
    requires wire == text + rest && |wire| < 2048 <= capacity && |text| == capacity - 1
    ensures rest == ""
  {
    assert |wire| == |text| + |rest|;
  }

  lemma EndsInCRLF(front: seq<string>)
    ensures IsLineEnd(Flatten(front + [CRLF]), |Flatten(front + [CRLF])| - 2)
  {
    FlattenPush(front, CRLF);
    var s, n := Flatten(front) + CRLF, |Flatten(front)|;
    assert s[n] == CRLF[0] && s[n + 1] == CRLF[1];
  }

  /** What is left unread comes after a bare CRLF that was a chunk of its own. */
  lemma UnreadAfterCRLF(r: Request, bodies: seq<string>, front: seq<string>, last: string, rest: string)
    requires r.header == Terminated(bodies) && WellFormed(r, bodies)
    requires Flatten(Pieces(r)) == Flatten(front + [last]) + rest && EndOfHeader(last) && rest != ""
    ensures last == CRLF && IsLineEnd(Flatten(front + [last]), |Flatten(front + [last])| - 2)
  {
    if last != CRLF {
      RequestEndsAtBlank(r, bodies);
      AcceptedIsWhole(front, last, rest);
    }
    EndsInCRLF(front);
  }

  lemma IsDelivered(r: Request, bodies: seq<string>, chunks: seq<string>, rest: string)
    requires r.header == Terminated(bodies) && WellFormed(r, bodies)
    requires Flatten(Pieces(r)) == Flatten(chunks) + rest
    requires forall i | 0 <= i < |chunks| :: chunks[i] != "" && (i < |chunks| - 1 ==> !EndOfHeader(chunks[i]))
    requires (chunks != [] && EndOfHeader(chunks[|chunks| - 1])) || rest == ""
    ensures Delivered(r, chunks, rest)
    ensures rest != "" ==> IsLineEnd(Flatten(chunks), |Flatten(chunks)| - 2)
  {
    if rest != "" {
      assert chunks[..|chunks| - 1] + [chunks[|chunks| - 1]] == chunks;
      UnreadAfterCRLF(r, bodies, chunks[..|chunks| - 1], chunks[|chunks| - 1], rest);
    }
    forall cuts | Runs(chunks, Pieces(r), cuts)
      ensures rest == "" && chunks != [] && (EndOfHeader(chunks[|chunks| - 1]) <==> NUL !in chunks[|chunks| - 1])
    {
      WholeWritesAreReceived(r, bodies, chunks, cuts, rest);
    }
  }

  /** The server's members, from the `before` it starts with, when it has received the client's request. */
  function Received(before: Request, r: Request, bodies: seq<string>): Request {
    Request(r.verb, r.path, "HTTP/" + r.version, before.host, before.header + (["Host: " + r.host] + bodies))
  }

  lemma SameTail(a: seq<string>, b: seq<string>, c: seq<string>)
    ensures a + b == a + c <==> b == c
  {
    assert (a + b)[|a|..] == b && (a + c)[|a|..] == c;
  }

  /** The members tell what the parse was. */
  lemma MembersTell(parse: Parse, code: Code, before: Request, now: Request, r: Request, bodies: seq<string>)
    requires parse.Wild? ==> code == Overrun
    requires parse.NoLineEnd? ==> code == LengthError
    requires parse.BadRequestLine? ==> code == Returned(-1)
    requires parse.Parsed? ==> code == Returned(0)
    requires parse.Parsed? ==>
      now == Request(parse.verb, parse.path, parse.version, before.host, before.header + parse.lines)
    ensures code == Returned(0) && now == Received(before, r, bodies)
       <==> parse == Parsed(r.verb, r.path, "HTTP/" + r.version, ["Host: " + r.host] + bodies)
  {
    if parse.Parsed? {
      SameTail(before.header, parse.lines, ["Host: " + r.host] + bodies);
    }
  }

  /** What the end of the reading says about the chunks. */
  lemma WaitingIsSeen(r: Request, bodies: seq<string>, chunks: seq<string>, rest: string, capacity: nat,
                      open: bool, code: Code)
    requires r.header == Terminated(bodies) && WellFormed(r, bodies)
    requires Flatten(Pieces(r)) == Flatten(chunks) + rest && |Flatten(Pieces(r))| < 2048 <= capacity
    requires forall i | 0 <= i < |chunks| :: chunks[i] != "" && (i < |chunks| - 1 ==> !EndOfHeader(chunks[i]))
    requires if code.Waiting? then
        && rest == "" && open && |Flatten(chunks)| < capacity - 1
        && (forall i | 0 <= i < |chunks| :: !EndOfHeader(chunks[i]))
      else
        || (chunks != [] && EndOfHeader(chunks[|chunks| - 1]))
        || |Flatten(chunks)| == capacity - 1 || (rest == "" && !open)
    ensures Delivered(r, chunks, rest) && (rest != "" ==> IsLineEnd(Flatten(chunks), |Flatten(chunks)| - 2))
    ensures code.Waiting? <==> open && NeverSeen(chunks) && |Flatten(Pieces(r))| < capacity - 1
  {
    var wire, text := Flatten(Pieces(r)), Flatten(chunks);
    if |text| == capacity - 1 {
      RoomLeft(wire, text, rest, capacity);
    }
    IsDelivered(r, bodies, chunks, rest);
    RequestEndsAtBlank(r, bodies);
    if code.Waiting? {
      assert text + "" == text;
      SentSize(r, bodies);
      UnseenIsNeverSeen(chunks);
    } else {
      AcceptedIsSeen(wire, chunks, rest);
    }
  }

  /** The receiving end, on a connection that brings a whole request and may then be kept open. */
  method Receive(server: ProtocolHttp, message: CppString, ghost r: Request, ghost bodies: seq<string>)
    returns (code: Code, ghost chunks: seq<string>)
    requires r.header == Terminated(bodies) && WellFormed(r, bodies) && |Flatten(Pieces(r))| < 2048
    requires message.Valid() && server.socket.incoming == Flatten(Pieces(r)) && server.socket.fd != 0
    modifies server, server.socket, message, message.buf
    ensures var rest, open := server.socket.incoming, !server.socket.peerShuts;
      if code == Exception then server.socket.failed || (server.socket.secure && !open)
      else
        && Delivered(r, chunks, rest)
        && (code.Waiting? <==> open && NeverSeen(chunks) && |Flatten(Pieces(r))| < message.buf.Length - 1)
        && (code == Returned(0) && server.Members() == Received(old(server.Members()), r, bodies)
            <==> !code.Waiting? && (rest == "" || rest == CRLF))
  {
    ghost var before := server.Members();
    code, chunks := server.RecvRequest(message);
    if code != Exception {
      WaitingIsSeen(r, bodies, chunks, server.socket.incoming, message.buf.Length, !server.socket.peerShuts, code);
      if !code.Waiting? {
        ReadsBackExactly(r, bodies, Flatten(chunks), server.socket.incoming);
        MembersTell(ParseRequest(Flatten(chunks)), code, before, server.Members(), r, bodies);
      }
    }
  }

  /** A request sent by one end, which then waits for its answer, and received by the other, over any
      fragmentation: `chunks` is what the reads delivered. Only a chunk that is a bare CRLF can stop the
      reading early. If none is, and the last chunk does not show the blank line, the server waits too, for
      ever, unless its buffer is exactly full. Otherwise it has the request exactly when at most the final
      CRLF is left unread. When every chunk is a run of whole writes, nothing is. */
  method Exchange(client: ProtocolHttp, message: CppString, ghost bodies: seq<string>)
    returns (server: ProtocolHttp, code: Code, ghost chunks: seq<string>)
    requires client.requestHeader == Terminated(bodies) && WellFormed(client.Members(), bodies)
    requires |Flatten(Pieces(client.Members()))| < 2048
    requires client.socket.sent == "" && !client.socket.writeShut && message.Valid()
    modifies client.socket, message, message.buf
    ensures fresh(server) && fresh(server.socket)
    ensures code == Exception ==> client.socket.failed || server.socket.failed
    ensures code != Exception ==>
      var r, rest := old(client.Members()), server.socket.incoming;
      && client.socket.sent == Flatten(Pieces(r)) && Delivered(r, chunks, rest)
      && (code.Waiting? <==> NeverSeen(chunks) && |client.socket.sent| < message.buf.Length - 1)
      && (code == Returned(0) && server.Members() == Received(FRESH, r, bodies)
          <==> !code.Waiting? && (rest == "" || rest == CRLF))
  {
    ghost var r := client.Members();
    chunks := [];
    var accepted := new IOSocket(3, client.socket.secure, "", false);
    server := new ProtocolHttp(accepted);
    var sent := client.SendRequest();
    if sent.Thrown? {
      return server, Exception, [];
    }
    accepted := new IOSocket(3, client.socket.secure, client.socket.sent, client.socket.writeShut);
    server := new ProtocolHttp(accepted);
    code, chunks := Receive(server, message, r, bodies);
  }
}
