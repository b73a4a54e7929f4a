/** HTTP requests as pure text: what `sendRequest` prints, what `_ParseRequestHeader` reads back, and
    where the end-of-header scan of `recvRequest` stops. */
module HttpRequest {
  import opened Text
  import opened Lines

  /** The request members of `ProtocolHttp`. */
  datatype Request = Request(verb: string, path: string, version: string, host: string, header: seq<string>)

  function ThreeTokens(verb: string, path: string, version: string): string {
    verb + (" " + (path + (" " + version)))
  }

  function RequestLine(r: Request): string {
    ThreeTokens(r.verb, r.path, "HTTP/" + r.version)
  }

  /** The successive writes of `sendRequest`. */
  function Pieces(r: Request): seq<string> {
    [RequestLine(r) + CRLF, "Host: " + r.host + CRLF] + r.header + [CRLF]
  }

  // ---------- parsing ----------

  datatype Parse =
    | Parsed(verb: string, path: string, version: string, lines: seq<string>)
    | BadRequestLine   // sscanf converts fewer than three tokens: return -1
    | Wild             // a fixed buffer overrun
    | NoLineEnd        // a header line without CRLF: std::length_error

  const LINE_MAX := 2048
  const METHOD_MAX := 16
  const PATH_MAX := 1024
  const VERSION_MAX := 16

  /** `sscanf(line, "%s %s %s", method, path, version)` into the fixed buffers. */
  function ScanRequestLine(line: string): (r: Parse)
    ensures r.Parsed? ==> IsToken(r.verb) && IsToken(r.path) && IsToken(r.version)
    ensures r.Parsed? ==> |r.verb| < METHOD_MAX && |r.path| < PATH_MAX && |r.version| < VERSION_MAX
  {
    match ScanToken(line)
    case None => BadRequestLine
    case Some((verb, l1)) =>
      if |verb| >= METHOD_MAX then Wild else
      match ScanToken(l1)
      case None => BadRequestLine
      case Some((path, l2)) =>
        if |path| >= PATH_MAX then Wild else
        match ScanToken(l2)
        case None => BadRequestLine
        case Some((version, _)) =>
          if |version| >= VERSION_MAX then Wild else Parsed(verb, path, version, [])
  }

  /** The request line, up to the first CRLF, copied into a fixed buffer. */
  function FirstLine(s: string): (r: Parse)
    ensures r.Parsed? ==> 0 <= LineEnd(s, 0) <= |s| - 2
  {
    var pos := LineEnd(s, 0);
    if pos == -1 || pos >= LINE_MAX then Wild else ScanRequestLine(s[..pos])
  }

  /** The header loop, after the first line. */
  function ParseAfter(s: string, first: Parse): (r: Parse)
    requires first.Parsed? ==> 0 <= LineEnd(s, 0) <= |s| - 2
    ensures r.Parsed? ==> first.Parsed? && ScanLines(s, LineEnd(s, 0) + 2).Stopped?
    ensures r.Parsed? ==> r.lines == ScanLines(s, LineEnd(s, 0) + 2).lines
  {
    if !first.Parsed? then first
    else
      match ScanLines(s, LineEnd(s, 0) + 2)
      case Unended(_) => NoLineEnd
      case Stopped(lines, _, _) => first.(lines := lines)
  }

  function ParseRequest(s: string): (r: Parse)
    ensures r.Parsed? ==> 0 <= LineEnd(s, 0) <= |s| - 2
    ensures r.Parsed? ==> ScanLines(s, LineEnd(s, 0) + 2).Stopped? && r.lines == ScanLines(s, LineEnd(s, 0) + 2).lines
  {
    ParseAfter(s, FirstLine(s))
  }

  /** A request line of no, one or two tokens, however spaced, is refused, as long as the buffers hold them. */
  lemma FewTokensAreRefused(sp0: string, verb: string, sp1: string, path: string, end: string)
    requires AllSpace(sp0) && AllSpace(sp1) && sp1 != "" && IsEnd(end)
    requires IsToken(verb) && IsToken(path) && |verb| < METHOD_MAX && |path| < PATH_MAX
    ensures ScanRequestLine(end) == BadRequestLine
    ensures ScanRequestLine(sp0 + (verb + end)) == BadRequestLine
    ensures ScanRequestLine(sp0 + (verb + (sp1 + (path + end)))) == BadRequestLine
  {
    NoTokenAtEnd(end);
    SpacedToken(sp0, verb, end);
    SpacedToken(sp1, path, end);
    assert sp1[0] in sp1 && (sp1 + (path + end))[0] == sp1[0];
    SpacedToken(sp0, verb, sp1 + (path + end));
  }

  // ---------- the round trip ----------

  function Terminated(bodies: seq<string>): seq<string> {
    seq(|bodies|, i requires 0 <= i < |bodies| => bodies[i] + CRLF)
  }

  /** A request whose parts fit the buffers and the line format. */
  ghost predicate WellFormed(r: Request, bodies: seq<string>) {
    && IsToken(r.verb) && |r.verb| < METHOD_MAX
    && IsToken(r.path) && |r.path| < PATH_MAX
    && IsToken("HTTP/" + r.version) && |r.version| + 5 < VERSION_MAX
    && CrlfFree(r.host) && Printable(bodies)
  }

  lemma {:induction false} FlattenTerminated(bodies: seq<string>)
    ensures Flatten(Terminated(bodies)) == Join(bodies)
  {
    if bodies != [] {
      assert Terminated(bodies)[1..] == Terminated(bodies[1..]);
      FlattenTerminated(bodies[1..]);
    }
  }

  lemma SentText(r: Request, bodies: seq<string>)
    requires r.header == Terminated(bodies)
    ensures Pieces(r) == Terminated([RequestLine(r), "Host: " + r.host] + bodies) + [CRLF]
    ensures Flatten(Pieces(r)) == Join([RequestLine(r), "Host: " + r.host] + bodies) + CRLF
  {
    var line, host := RequestLine(r), "Host: " + r.host;
    var all := [line, host] + bodies;
    assert Terminated(all) == [line + CRLF, host + CRLF] + Terminated(bodies);
    assert Pieces(r) == Terminated(all) + [CRLF];
    FlattenPush(Terminated(all), CRLF);
    FlattenTerminated(all);
  }

  lemma ScanNext(t: string, rest: string)
    requires IsToken(t) && (rest == [] || IsSpace(rest[0]))
    ensures ScanToken(" " + (t + rest)) == Some((t, rest))
  {
    assert (" " + (t + rest))[1..] == t + rest;
    ScanTokenOf(t, rest);
  }

  lemma ScanPrintedLine(verb: string, path: string, version: string)
    requires IsToken(verb) && IsToken(path) && IsToken(version)
    requires |verb| < METHOD_MAX && |path| < PATH_MAX && |version| < VERSION_MAX
    ensures ScanRequestLine(ThreeTokens(verb, path, version)) == Parsed(verb, path, version, [])
  {
    var l2 := " " + version;
    var l1 := " " + (path + l2);
    ScanTokenOf(verb, l1);
    ScanNext(path, l2);
    assert version + "" == version;
    ScanNext(version, "");
  }

  lemma TokenLineIsCrlfFree(verb: string, path: string, version: string)
    requires IsToken(verb) && IsToken(path) && IsToken(version)
    ensures CrlfFree(ThreeTokens(verb, path, version))
  {
    var s := ThreeTokens(verb, path, version);
    forall i | 0 <= i < |s| ensures s[i] != '\r' {
      if i < |verb| {
        assert s[i] == verb[i] && verb[i] in verb;
      } else if |verb| < i <= |verb| + |path| {
        assert s[i] == path[i - |verb| - 1] && path[i - |verb| - 1] in path;
      } else if i >= |verb| + |path| + 2 {
        assert s[i] == version[i - |verb| - |path| - 2] && version[i - |verb| - |path| - 2] in version;
      }
    }
  }

  lemma PrefixedCrlfFree(pre: string, s: string)
    ensures CrlfFree(pre + s) ==> CrlfFree(s)
    ensures CrlfFree(pre) && (pre == "" || pre[|pre| - 1] != '\r') && CrlfFree(s) ==> CrlfFree(pre + s)
  {
    if CrlfFree(pre + s) {
      forall i ensures !IsLineEnd(s, i) {
        assert !IsLineEnd(pre + s, |pre| + i);
      }
    }
    if CrlfFree(pre) && (pre == "" || pre[|pre| - 1] != '\r') && CrlfFree(s) {
      forall i ensures !IsLineEnd(pre + s, i) {
        assert !IsLineEnd(s, i - |pre|) && !IsLineEnd(pre, i);
      }
    }
  }

  lemma SentAt(r: Request, bodies: seq<string>)
    requires r.header == Terminated(bodies)
    ensures var s, line := Flatten(Pieces(r)), RequestLine(r);
      && At(s, 0, line) && At(s, |line|, CRLF)
      && At(s, |line| + 2, Join(["Host: " + r.host] + bodies) + CRLF)
  {
    var line, lines := RequestLine(r), ["Host: " + r.host] + bodies;
    var s := Flatten(Pieces(r));
    SentText(r, bodies);
    assert ([line, "Host: " + r.host] + bodies)[1..] == lines;
    assert s == line + CRLF + Join(lines) + CRLF && At(s, 0, s);
    AtLine(s, 0, line, Join(lines));
  }

  lemma SentLinesAt(r: Request, bodies: seq<string>)
    requires r.header == Terminated(bodies) && WellFormed(r, bodies)
    ensures var s, lines := Flatten(Pieces(r)), ["Host: " + r.host] + bodies;
      && At(s, 0, RequestLine(r)) && At(s, |RequestLine(r)|, CRLF) && LinesAt(s, |RequestLine(r)| + 2, lines)
      && Printable(lines)
  {
    SentAt(r, bodies);
    PrefixedCrlfFree("Host: ", r.host);
    JoinIsLinesAt(Flatten(Pieces(r)), |RequestLine(r)| + 2, ["Host: " + r.host] + bodies);
  }

  lemma FirstLineIs(s: string, line: string, first: Parse)
    requires CrlfFree(line) && |line| < LINE_MAX && ScanRequestLine(line) == first
    requires At(s, 0, line) && At(s, |line|, CRLF)
    ensures FirstLine(s) == first && LineEnd(s, 0) == |line|
  {
    LineEndAt(s, 0, line);
    assert s[..|line|] == line;
  }

  lemma LinesAfter(s: string, pos: nat, first: Parse, lines: seq<string>)
    requires first.Parsed? && LineEnd(s, 0) == pos && pos + 2 <= |s| && Printable(lines)
    requires LinesAt(s, pos + 2, lines)
    ensures ParseAfter(s, first) == first.(lines := lines)
  {
    ScanOfLinesAt(s, pos + 2, lines);
  }

  lemma FirstLineReadsBack(r: Request, bodies: seq<string>, s: string)
    requires WellFormed(r, bodies) && At(s, 0, RequestLine(r)) && At(s, |RequestLine(r)|, CRLF)
    ensures FirstLine(s) == Parsed(r.verb, r.path, "HTTP/" + r.version, []) && LineEnd(s, 0) == |RequestLine(r)|
  {
    var version := "HTTP/" + r.version;
    TokenLineIsCrlfFree(r.verb, r.path, version);
    ScanPrintedLine(r.verb, r.path, version);
    FirstLineIs(s, RequestLine(r), Parsed(r.verb, r.path, version, []));
  }

  lemma WellFormedReadsBack(r: Request, bodies: seq<string>)
    requires r.header == Terminated(bodies) && WellFormed(r, bodies)
    ensures ParseRequest(Flatten(Pieces(r)))
         == Parsed(r.verb, r.path, "HTTP/" + r.version, ["Host: " + r.host] + bodies)
  {
    var s, lines := Flatten(Pieces(r)), ["Host: " + r.host] + bodies;
    SentLinesAt(r, bodies);
    FirstLineReadsBack(r, bodies, s);
    LinesAfter(s, |RequestLine(r)|, Parsed(r.verb, r.path, "HTTP/" + r.version, []), lines);
  }

  /** `sendRequest` then `_ParseRequestHeader` gives back the method, the path, the version and the
      header lines in order, exactly when the request is well formed. */
  lemma RoundTrip(r: Request, bodies: seq<string>)
    requires r.header == Terminated(bodies)
    ensures WellFormed(r, bodies) <==>
      ParseRequest(Flatten(Pieces(r)))
        == Parsed(r.verb, r.path, "HTTP/" + r.version, ["Host: " + r.host] + bodies)
  {
    var lines := ["Host: " + r.host] + bodies;
    var s := Flatten(Pieces(r));
    if WellFormed(r, bodies) {
      WellFormedReadsBack(r, bodies);
    } else if ParseRequest(s) == Parsed(r.verb, r.path, "HTTP/" + r.version, lines) {
      JoinOfScan(s, LineEnd(s, 0) + 2);
      assert CrlfFree(lines[0]) && Printable(lines[1..]) && lines[1..] == bodies;
      PrefixedCrlfFree("Host: ", r.host);
      assert false;
    }
  }

  lemma SentSize(r: Request, bodies: seq<string>)
    requires r.header == Terminated(bodies)
    ensures var lines := ["Host: " + r.host] + bodies;
      Size(lines) == |Join(lines)| && |Flatten(Pieces(r))| == |RequestLine(r)| + 2 + Size(lines) + 2
  {
    var all := [RequestLine(r), "Host: " + r.host] + bodies;
    SentText(r, bodies);
    JoinSize(all);
    JoinSize(["Host: " + r.host] + bodies);
    assert all[1..] == ["Host: " + r.host] + bodies;
  }

  lemma LinesOnlyAfter(s: string, pos: nat, first: Parse, lines: seq<string>)
    requires first.Parsed? && LineEnd(s, 0) == pos && Printable(lines) && lines != []
    requires LinesAt(s + CRLF, pos + 2, lines) && pos + 2 + Size(lines) == |s|
    ensures ParseAfter(s, first) == first.(lines := lines)
  {
    ScanOfLinesOnly(s, pos + 2, lines);
  }

  lemma AtFront(s: string, rest: string, off: nat, w: string)
    requires At(s + rest, off, w) && off + |w| <= |s|
    ensures At(s, off, w)
  {
    forall i | off <= i < off + |w| ensures s[i] == w[i - off] {
      assert (s + rest)[i] == s[i];
    }
  }

  /** The header loop also stops at the end of the buffer, so the final CRLF is not needed. */
  lemma ReadsBackWithoutBlank(r: Request, bodies: seq<string>, s: string)
    requires r.header == Terminated(bodies) && WellFormed(r, bodies) && Flatten(Pieces(r)) == s + CRLF
    ensures ParseRequest(s) == Parsed(r.verb, r.path, "HTTP/" + r.version, ["Host: " + r.host] + bodies)
  {
    var line, lines := RequestLine(r), ["Host: " + r.host] + bodies;
    SentLinesAt(r, bodies);
    SentSize(r, bodies);
    AtFront(s, CRLF, 0, line);
    AtFront(s, CRLF, |line|, CRLF);
    FirstLineReadsBack(r, bodies, s);
    LinesOnlyAfter(s, |line|, Parsed(r.verb, r.path, "HTTP/" + r.version, []), lines);
  }

  lemma PrintedPart(s: string, pos: nat)
    requires IsLineEnd(s, pos) && ScanLines(s, pos + 2).Stopped?
    ensures var r := ScanLines(s, pos + 2);
      && Printable(r.lines) && pos + 2 <= r.end <= |s| && s[..r.end] == s[..pos] + CRLF + Join(r.lines)
      && (if r.blank then IsLineEnd(s, r.end) else r.end == |s|)
  {
    JoinOfScan(s, pos + 2);
    var end := ScanLines(s, pos + 2).end;
    SplitLine(s, 0, pos, end);
    assert s[0..end] == s[..end] && s[0..pos] == s[..pos];
  }

  /** Whatever is parsed prints back: the request line and the lines appended, each with its CRLF,
      are the buffer up to where the loop stopped. */
  lemma ParsePrint(s: string, pos: nat, r: Scan)
    requires ParseRequest(s).Parsed? && pos == LineEnd(s, 0) && r == ScanLines(s, pos + 2)
    ensures ParseRequest(s).lines == r.lines && Printable(r.lines)
    ensures r.Stopped? && pos + 2 <= r.end <= |s| && s[..r.end] == s[..pos] + CRLF + Join(r.lines)
    ensures if r.blank then IsLineEnd(s, r.end) else r.end == |s|
  {
    PrintedPart(s, pos);
  }

  /** A parse that yields all the lines has taken all of the request but its final CRLF. */
  lemma AllLinesTaken(r: Request, bodies: seq<string>, s: string, rest: string)
    requires r.header == Terminated(bodies) && WellFormed(r, bodies) && Flatten(Pieces(r)) == s + rest
    requires ParseRequest(s).Parsed? && ParseRequest(s).lines == ["Host: " + r.host] + bodies
    ensures |rest| <= 2
  {
    var wire, pos := s + rest, LineEnd(s, 0);
    SentAt(r, bodies);
    SentSize(r, bodies);
    TokenLineIsCrlfFree(r.verb, r.path, "HTTP/" + r.version);
    LineEndAt(wire, 0, RequestLine(r));
    assert IsLineEnd(wire, pos);
    ParsePrint(s, pos, ScanLines(s, pos + 2));
  }

  lemma ShortRest(s: string, rest: string)
    requires 0 < |rest| <= 2 && IsLineEnd(s, |s| - 2) && IsLineEnd(s + rest, |s + rest| - 2)
    ensures rest == CRLF
  {
    var wire := s + rest;
    assert wire[|s| - 1] == s[|s| - 1];
    assert rest == wire[|s|..];
  }

  lemma RequestEndsInLine(r: Request, bodies: seq<string>)
    requires r.header == Terminated(bodies)
    ensures IsLineEnd(Flatten(Pieces(r)), |Flatten(Pieces(r))| - 2)
  {
    SentText(r, bodies);
    var front := Join([RequestLine(r), "Host: " + r.host] + bodies);
    assert (front + CRLF)[|front|] == CRLF[0] && (front + CRLF)[|front| + 1] == CRLF[1];
  }

  /** The front of a request that has been received, ending in a CRLF when there is more to come, is
      parsed as that request exactly when at most the final CRLF is missing. */
  lemma ReadsBackExactly(r: Request, bodies: seq<string>, s: string, rest: string)
    requires r.header == Terminated(bodies) && WellFormed(r, bodies) && Flatten(Pieces(r)) == s + rest
    requires rest != "" ==> IsLineEnd(s, |s| - 2)
    ensures ParseRequest(s) == Parsed(r.verb, r.path, "HTTP/" + r.version, ["Host: " + r.host] + bodies)
       <==> rest == "" || rest == CRLF
  {
    if rest == "" {
      assert s == s + rest;
      WellFormedReadsBack(r, bodies);
    } else if rest == CRLF {
      ReadsBackWithoutBlank(r, bodies, s);
    } else if ParseRequest(s) == Parsed(r.verb, r.path, "HTTP/" + r.version, ["Host: " + r.host] + bodies) {
      AllLinesTaken(r, bodies, s, rest);
      RequestEndsInLine(r, bodies);
      ShortRest(s, rest);
    }
  }

  ghost predicate BlankExactlyAtEnd(s: string) {
    forall i :: Occurs(s, BLANK, i) <==> i == |s| - 4
  }

  lemma OnlyBlank(s: string, i: int)
    requires BlankExactlyAtEnd(s)
    ensures IsLineEnd(s, i) && IsLineEnd(s, i + 2) <==> i == |s| - 4
  {
    BlankIsTwoEnds(s, i);
  }

  lemma LastLineEnd(s: string)
    requires IsLineEnd(s, |s| - 2)
    ensures s == s[..|s| - 2] + CRLF
  {}

  /** If the buffer ends at its only blank line, the header loop stops there. */
  lemma {:induction false} StopsAtBlank(s: string, off: nat)
    requires 2 <= off <= |s| - 2 && IsLineEnd(s, off - 2) && IsLineEnd(s, |s| - 2)
    requires IsLineEnd(s, |s| - 4) && BlankExactlyAtEnd(s)
    ensures var r := ScanLines(s, off); r.Stopped? && r.end == |s| - 2
    decreases |s| - off
  {
    var pos := LineEnd(s, off);
    if pos == off {
      OnlyBlank(s, off - 2);
    } else {
      assert pos != |s| - 2 && pos != |s| - 3;
      StopsAtBlank(s, pos + 2);
    }
  }

  /** On a buffer that ends at its only blank line, nothing is lost: it is rebuilt whole. */
  lemma ParsePrintWhole(s: string)
    requires ParseRequest(s).Parsed? && BlankExactlyAtEnd(s) && |s| >= 4
    ensures s == s[..LineEnd(s, 0)] + CRLF + Join(ParseRequest(s).lines) + CRLF
  {
    OnlyBlank(s, |s| - 4);
    StopsAtBlank(s, LineEnd(s, 0) + 2);
    ParsePrint(s, LineEnd(s, 0), ScanLines(s, LineEnd(s, 0) + 2));
    LastLineEnd(s);
  }

  // ---------- the end-of-header scan ----------

  /** The scan looks at the latest chunk only, through C string functions. */
  predicate EndOfHeader(chunk: string) {
    if |chunk| == 2 && CStr(chunk) == CRLF then true
    else |chunk| >= 4 && Contains(CStr(chunk), BLANK)
  }

  lemma PrefixOccurs(s: string, t: string, w: string, i: int)
    requires t <= s && Occurs(t, w, i)
    ensures Occurs(s, w, i)
  {
    assert s[i..i + |w|] == t[i..i + |w|];
  }

  /** On a chunk whose only blank line is its end, only a NUL can hide it. */
  lemma ScanOfFinal(chunk: string)
    requires BlankExactlyAtEnd(chunk) && |chunk| >= 4
    ensures EndOfHeader(chunk) <==> NUL !in chunk
  {
    assert Occurs(chunk, BLANK, |chunk| - 4);
    if NUL in chunk && Contains(CStr(chunk), BLANK) {
      var i :| 0 <= i <= |CStr(chunk)| - 4 && Occurs(CStr(chunk), BLANK, i);
      PrefixOccurs(chunk, CStr(chunk), BLANK, i);
      assert false;
    }
  }

  /** A chunk with no blank line is accepted only if it is a lone CRLF. */
  lemma ScanOfInner(chunk: string)
    requires forall i :: !Occurs(chunk, BLANK, i)
    ensures EndOfHeader(chunk) <==> chunk == CRLF
  {
    if Contains(CStr(chunk), BLANK) {
      var i :| 0 <= i <= |CStr(chunk)| - 4 && Occurs(CStr(chunk), BLANK, i);
      PrefixOccurs(chunk, CStr(chunk), BLANK, i);
      assert false;
    }
    assert CRLF[0] != NUL && CRLF[1] != NUL && NUL !in CRLF;
  }

  /** Which chunks the scan accepts, without C strings: the bare CRLF, and any that has a blank line with no
      NUL in front of its end. What follows the blank line does not matter. */
  lemma AcceptedExactly(chunk: string)
    ensures EndOfHeader(chunk) <==>
      chunk == CRLF || exists i | 0 <= i <= |chunk| - |BLANK| :: Occurs(chunk, BLANK, i) && NUL !in chunk[..i + 4]
  {
    var c := CStr(chunk);
    if Contains(c, BLANK) {
      var i :| 0 <= i <= |c| - |BLANK| && Occurs(c, BLANK, i);
      PrefixOccurs(chunk, c, BLANK, i);
      assert chunk[..i + 4] == c[..i + 4];
    }
    if i :| 0 <= i <= |chunk| - |BLANK| && Occurs(chunk, BLANK, i) && NUL !in chunk[..i + 4] {
      assert c[i..i + 4] == chunk[i..i + 4];
      assert Occurs(c, BLANK, i);
    }
    assert CRLF[0] != NUL && CRLF[1] != NUL && NUL !in CRLF;
  }

  lemma FlattenAround(chunks: seq<string>, i: nat)
    requires i < |chunks|
    ensures Flatten(chunks) == Flatten(chunks[..i]) + (chunks[i] + Flatten(chunks[i + 1..]))
  {
    var front, back := chunks[..i], chunks[i..];
    assert front + back == chunks;
    FlattenAppend(front, back);
    assert back[0] == chunks[i] && back[1..] == chunks[i + 1..];
  }

  lemma OccursInside(a: string, s: string, b: string, w: string, j: int)
    requires Occurs(s, w, j)
    ensures Occurs(a + (s + b), w, |a| + j)
  {
    assert (a + (s + b))[|a| + j..|a| + j + |w|] == s[j..j + |w|];
  }

  lemma InnerChunk(chunks: seq<string>, i: nat)
    requires i < |chunks| - 1 && BlankExactlyAtEnd(Flatten(chunks))
    requires chunks[i + 1] != ""
    ensures forall j :: !Occurs(chunks[i], BLANK, j)
  {
    var a, b := Flatten(chunks[..i]), Flatten(chunks[i + 1..]);
    FlattenAround(chunks, i);
    assert chunks[i + 1..][0] == chunks[i + 1];
    assert |b| > 0;
    forall j ensures !Occurs(chunks[i], BLANK, j) {
      if Occurs(chunks[i], BLANK, j) {
        OccursInside(a, chunks[i], b, BLANK, j);
        assert false;
      }
    }
  }

  lemma OccursInTail(a: string, s: string, w: string, i: nat)
    ensures Occurs(a + s, w, |a| + i) <==> Occurs(s, w, i)
  {
    if i <= |s| - |w| {
      assert (a + s)[|a| + i..|a| + i + |w|] == s[i..i + |w|];
    }
  }

  lemma LastChunk(chunks: seq<string>)
    requires chunks != [] && BlankExactlyAtEnd(Flatten(chunks)) && |Flatten(chunks)| >= 4
    ensures var last := chunks[|chunks| - 1];
      if |last| >= 4 then BlankExactlyAtEnd(last) else forall i :: !Occurs(last, BLANK, i)
  {
    var n := |chunks| - 1;
    var a, last := Flatten(chunks[..n]), chunks[n];
    FlattenPush(chunks[..n], last);
    assert chunks[..n] + [last] == chunks;
    forall i ensures Occurs(last, BLANK, i) <==> i == |last| - 4 && i >= 0 {
      if i >= 0 {
        OccursInTail(a, last, BLANK, i);
      }
    }
  }

  /** For every way of cutting a well-formed request into chunks: the scan accepts the last chunk and
      no other exactly when that chunk is the bare final CRLF, or has four characters or more and no
      NUL, and no earlier chunk happens to be a bare CRLF. */
  lemma ScanStopsAtEnd(chunks: seq<string>)
    requires chunks != [] && BlankExactlyAtEnd(Flatten(chunks))
    requires forall i :: 0 <= i < |chunks| ==> chunks[i] != ""
    requires |Flatten(chunks)| >= 4
    ensures var n, last := |chunks| - 1, chunks[|chunks| - 1];
      (EndOfHeader(last) && forall i :: 0 <= i < n ==> !EndOfHeader(chunks[i]))
      <==>
      ((last == CRLF || (|last| >= 4 && NUL !in last)) && forall i :: 0 <= i < n ==> chunks[i] != CRLF)
  {
    var n := |chunks| - 1;
    forall i | 0 <= i < n ensures EndOfHeader(chunks[i]) <==> chunks[i] == CRLF {
      InnerChunk(chunks, i);
      ScanOfInner(chunks[i]);
    }
    LastChunk(chunks);
    if |chunks[n]| >= 4 {
      ScanOfFinal(chunks[n]);
    } else {
      ScanOfInner(chunks[n]);
    }
  }

  /** What `sendRequest` prints for printable lines has its only blank line at its end. */
  lemma SentEndsAtBlank(lines: seq<string>)
    requires Printable(lines) && lines != []
    ensures BlankExactlyAtEnd(Join(lines) + CRLF) && |Join(lines) + CRLF| >= 5
  {
    forall i ensures Occurs(Join(lines) + CRLF, BLANK, i) <==> i == |Join(lines) + CRLF| - 4 {
      BlankOnlyAtEnd(lines, i);
    }
    JoinSize(lines);
  }

  lemma InnerWrites(run: seq<string>)
    requires Printable(run) && run != []
    ensures !EndOfHeader(Join(run))
  {
    var s := Join(run) + CRLF;
    SentEndsAtBlank(run);
    forall i ensures !Occurs(Join(run), BLANK, i) {
      if Occurs(Join(run), BLANK, i) {
        PrefixOccurs(s, Join(run), BLANK, i);
        assert false;
      }
    }
    ScanOfInner(Join(run));
  }

  lemma FinalWrites(run: seq<string>)
    requires Printable(run)
    ensures EndOfHeader(Join(run) + CRLF) <==> NUL !in Join(run) + CRLF
  {
    if run == [] {
      assert Join(run) + CRLF == CRLF;
      assert CRLF[0] != NUL && CRLF[1] != NUL && NUL !in CRLF;
    } else {
      SentEndsAtBlank(run);
      ScanOfFinal(Join(run) + CRLF);
    }
  }

  /** A chunk made of consecutive whole writes of `sendRequest` is accepted exactly when it holds the
      final blank line, unless a NUL hides it: neither earlier nor later. */
  lemma WholeWrites(lines: seq<string>, a: nat, b: nat)
    requires Printable(lines) && a < b <= |lines| + 1
    ensures var chunk := Flatten((Terminated(lines) + [CRLF])[a..b]);
      EndOfHeader(chunk) <==> b == |lines| + 1 && NUL !in chunk
  {
    var pieces := Terminated(lines) + [CRLF];
    if b <= |lines| {
      assert pieces[a..b] == Terminated(lines[a..b]);
      FlattenTerminated(lines[a..b]);
      InnerWrites(lines[a..b]);
    } else {
      assert pieces[a..b] == Terminated(lines[a..]) + [CRLF];
      FlattenPush(Terminated(lines[a..]), CRLF);
      FlattenTerminated(lines[a..]);
      FinalWrites(lines[a..]);
    }
  }

  /** Every chunk is a run of whole pieces, cut at the given places. */
  ghost predicate Runs(chunks: seq<string>, pieces: seq<string>, cuts: seq<nat>) {
    && |cuts| == |chunks| + 1 && cuts[0] == 0
    && (forall i :: 0 <= i < |cuts| ==> cuts[i] <= |pieces|)
    && (forall i :: 0 <= i < |chunks| ==> cuts[i] < cuts[i + 1] && chunks[i] == Flatten(pieces[cuts[i]..cuts[i + 1]]))
  }

  lemma FlattenRun(pieces: seq<string>, a: nat, b: nat)
    requires a <= b <= |pieces|
    ensures Flatten(pieces[..b]) == Flatten(pieces[..a]) + Flatten(pieces[a..b])
  {
    FlattenAppend(pieces[..a], pieces[a..b]);
    assert pieces[..a] + pieces[a..b] == pieces[..b];
  }

  lemma {:induction false} FlattenRuns(chunks: seq<string>, pieces: seq<string>, cuts: seq<nat>)
    requires Runs(chunks, pieces, cuts)
    ensures Flatten(chunks) == Flatten(pieces[..cuts[|chunks|]])
    decreases |chunks|
  {
    if chunks != [] {
      var n := |chunks| - 1;
      var front := chunks[..n];
      FlattenRuns(front, pieces, cuts[..n + 1]);
      FlattenPush(front, chunks[n]);
      assert front + [chunks[n]] == chunks;
      FlattenRun(pieces, cuts[n], cuts[n + 1]);
    }
  }

  lemma BlankInAccepted(chunk: string) returns (i: int)
    requires EndOfHeader(chunk) && chunk != CRLF
    ensures Occurs(chunk, BLANK, i)
  {
    i :| 0 <= i <= |CStr(chunk)| - |BLANK| && Occurs(CStr(chunk), BLANK, i);
    PrefixOccurs(chunk, CStr(chunk), BLANK, i);
  }

  /** However a request was cut: once the scan accepts a chunk, nothing of the request is left to read,
      unless that chunk is a bare CRLF. */
  lemma AcceptedIsWhole(front: seq<string>, last: string, rest: string)
    requires EndOfHeader(last) && last != CRLF
    requires BlankExactlyAtEnd(Flatten(front + [last]) + rest)
    ensures rest == ""
  {
    var a := Flatten(front);
    FlattenPush(front, last);
    assert (a + last) + rest == a + (last + rest);
    var i := BlankInAccepted(last);
    OccursInside(a, last, rest, BLANK, i);
  }

  /** No chunk of a request is accepted: none is a bare CRLF, and the last one does not show the blank
      line. */
  ghost predicate NeverSeen(chunks: seq<string>) {
    && chunks != [] && (forall i | 0 <= i < |chunks| :: chunks[i] != CRLF)
    && (|chunks[|chunks| - 1]| < 4 || NUL in chunks[|chunks| - 1])
  }

  lemma BareCRLFIsAccepted()
    ensures EndOfHeader(CRLF)
  {
    assert CRLF[0] != NUL && CRLF[1] != NUL && NUL !in CRLF;
  }

  /** A request that has been delivered whole without any chunk being accepted. */
  lemma UnseenIsNeverSeen(chunks: seq<string>)
    requires chunks != [] && BlankExactlyAtEnd(Flatten(chunks)) && |Flatten(chunks)| >= 4
    requires forall i | 0 <= i < |chunks| :: chunks[i] != "" && !EndOfHeader(chunks[i])
    ensures NeverSeen(chunks)
  {
    BareCRLFIsAccepted();
    ScanStopsAtEnd(chunks);
  }

  /** And one whose last chunk has been accepted. */
  lemma AcceptedIsSeen(wire: string, chunks: seq<string>, rest: string)
    requires BlankExactlyAtEnd(wire) && wire == Flatten(chunks) + rest
    ensures chunks != [] && EndOfHeader(chunks[|chunks| - 1]) ==> !NeverSeen(chunks)
  {
    if chunks != [] && EndOfHeader(chunks[|chunks| - 1]) && chunks[|chunks| - 1] != CRLF {
      var front, last := chunks[..|chunks| - 1], chunks[|chunks| - 1];
      assert front + [last] == chunks;
      AcceptedIsWhole(front, last, rest);
      assert wire == Flatten(chunks);
      FlattenPush(front, last);
      LastChunk(chunks);
      ScanOfFinal(last);
    }
  }

  /** A well-formed request has its only blank line at its end. */
  lemma RequestEndsAtBlank(r: Request, bodies: seq<string>)
    requires r.header == Terminated(bodies) && WellFormed(r, bodies)
    ensures BlankExactlyAtEnd(Flatten(Pieces(r)))
  {
    var lines := [RequestLine(r), "Host: " + r.host] + bodies;
    SentText(r, bodies);
    TokenLineIsCrlfFree(r.verb, r.path, "HTTP/" + r.version);
    PrefixedCrlfFree("Host: ", r.host);
    SentEndsAtBlank(lines);
  }

  /** Only all the pieces together are the whole request. */
  lemma LastPieceNeeded(pieces: seq<string>, b: nat)
    requires pieces != [] && pieces[|pieces| - 1] != "" && b <= |pieces|
    ensures Flatten(pieces[..b]) == Flatten(pieces) <==> b == |pieces|
  {
    var n := |pieces|;
    assert pieces[..n] == pieces;
    if b < n {
      FlattenRun(pieces, b, n - 1);
      FlattenRun(pieces, n - 1, n);
      assert pieces[n - 1..n] == [pieces[n - 1]];
      assert |Flatten(pieces)| > |Flatten(pieces[..b])|;
    }
  }

  lemma LastRun(lines: seq<string>, pieces: seq<string>, a: nat, b: nat, last: string)
    requires Printable(lines) && pieces == Terminated(lines) + [CRLF] && a < b <= |pieces|
    requires last == Flatten(pieces[a..b])
    ensures EndOfHeader(last) <==> b == |pieces| && NUL !in last
  {
    WholeWrites(lines, a, b);
  }

  lemma RunsAreReceived(lines: seq<string>, pieces: seq<string>, chunks: seq<string>, cuts: seq<nat>, rest: string)
    requires Printable(lines) && pieces == Terminated(lines) + [CRLF]
    requires Runs(chunks, pieces, cuts) && Flatten(pieces) == Flatten(chunks) + rest
    requires (chunks != [] && EndOfHeader(chunks[|chunks| - 1])) || rest == ""
    ensures rest == "" && chunks != []
    ensures EndOfHeader(chunks[|chunks| - 1]) <==> NUL !in chunks[|chunks| - 1]
  {
    var n := |chunks|;
    FlattenRuns(chunks, pieces, cuts);
    LastPieceNeeded(pieces, cuts[n]);
    assert n > 0;
    LastRun(lines, pieces, cuts[n - 1], cuts[n], chunks[n - 1]);
    assert cuts[n] == |pieces|;
    assert pieces[..|pieces|] == pieces;
  }

  lemma AllPrintable(r: Request, bodies: seq<string>)
    requires WellFormed(r, bodies)
    ensures Printable([RequestLine(r), "Host: " + r.host] + bodies)
  {
    TokenLineIsCrlfFree(r.verb, r.path, "HTTP/" + r.version);
    PrefixedCrlfFree("Host: ", r.host);
  }

  /** When every chunk is a run of whole writes, nothing of the request is left unread, and the scan has
      accepted the last chunk unless there is a NUL in it. */
  lemma WholeWritesAreReceived(r: Request, bodies: seq<string>, chunks: seq<string>, cuts: seq<nat>, rest: string)
    requires r.header == Terminated(bodies) && WellFormed(r, bodies)
    requires Runs(chunks, Pieces(r), cuts) && Flatten(Pieces(r)) == Flatten(chunks) + rest
    requires (chunks != [] && EndOfHeader(chunks[|chunks| - 1])) || rest == ""
    ensures rest == "" && chunks != []
    ensures EndOfHeader(chunks[|chunks| - 1]) <==> NUL !in chunks[|chunks| - 1]
  {
    SentText(r, bodies);
    AllPrintable(r, bodies);
    RunsAreReceived([RequestLine(r), "Host: " + r.host] + bodies, Pieces(r), chunks, cuts, rest);
  }

  /** Cut between the two halves of the blank line, the end is never seen. */
  lemma StraddledBlankIsMissed()
    ensures !EndOfHeader("A B C\r\n\r") && !EndOfHeader("\n")
  {
    var c := "A B C\r\n\r";
    assert forall k :: 0 <= k < |c| ==> c[k] != NUL;
    forall i ensures !Occurs(c, BLANK, i) {
      BlankIsTwoEnds(c, i);
    }
  }
}
