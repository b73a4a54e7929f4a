/** HTTP responses as pure text: the header `sendResponse` prints, the range it answers, and an
    independent reading of both by the client. */
module HttpResponse {
  import opened Text
  import opened Lines

  const WORD := 0x1_0000_0000_0000_0000  // size_t
  const HALF := 0x1_0000_0000            // what one %d overwrites of it

  // ---------- the range ----------

  datatype Range = Range(start: nat, end: nat, present: bool)

  const RANGE := "Range: bytes="

  /** A `%d` conversion through the address of a `size_t`: the low half is replaced. */
  function StoreInt(word: nat, v: int): nat {
    word / HALF * HALF + ToLong(v) % HALF
  }

  /** `sscanf(option + 13, "%d-%d", &start, &end)` */
  function ScanRange(text: string, r: Range): Range {
    match ScanInt(text)
    case None => r
    case Some((a, rest)) =>
      var r1 := r.(start := StoreInt(r.start, a));
      match ScanLiteral("-", rest)
      case None => r1
      case Some(rest1) =>
        match ScanInt(rest1)
        case None => r1
        case Some((b, _)) => r1.(end := StoreInt(r.end, b))
  }

  /** The loop over the header options in `_GetBodySize`. */
  function FindRange(header: seq<string>, r: Range): Range {
    if header == [] then r
    else FindRange(header[1..],
      if Contains(header[0], RANGE) then ScanRange(header[0][|RANGE|..], r).(present := true) else r)
  }

  function RangeLine(n: nat): string { RANGE + Decimal(n) + "-" }

  lemma StoreFits(word: nat, n: nat)
    requires word < HALF
    ensures StoreInt(word, n) < HALF && (StoreInt(word, n) == n <==> n < HALF)
  {}

  lemma RangeStart(n: nat, rest: string, r: Range)
    requires rest != "" && rest[0] == '-'
    ensures ScanRange(Decimal(n) + rest, r).start == StoreInt(r.start, n)
    ensures ScanRange(Decimal(n) + rest, r).present == r.present
  {
    ScanIntOf(n, rest);
  }

  lemma HoldsRange(text: string)
    ensures (RANGE + text)[|RANGE|..] == text && Contains(RANGE + text, RANGE)
  {
    assert (RANGE + text)[0..|RANGE|] == RANGE && Occurs(RANGE + text, RANGE, 0);
  }

  /** An open-ended range header is understood exactly when its start fits 32 bits. */
  lemma RangeReadsBack(n: nat, r: Range)
    requires r.start < HALF
    ensures ScanRange(RangeLine(n)[|RANGE|..], r).start == n <==> n < HALF
    ensures ScanRange(RangeLine(n)[|RANGE|..], r).start < HALF
    ensures Contains(RangeLine(n), RANGE)
  {
    HoldsRange(Decimal(n) + "-");
    assert RANGE + (Decimal(n) + "-") == RangeLine(n);
    RangeStart(n, "-", r);
    StoreFits(r.start, n);
  }

  // ---------- the header ----------

  const LENGTH := "Content-Length: "
  const CONTENT_RANGE := "Content-Range: bytes "

  function LengthLine(n: nat): string { LENGTH + Decimal(n) }

  function ContentRangeLine(size: nat, start: nat): string {
    CONTENT_RANGE + (Decimal(start) + ("-" + (Decimal((size - 1) % WORD) + ("/" + Decimal(size)))))
  }

  function FrontLines(date: string, size: nat, r: Range): seq<string> {
    [ if r.present then "HTTP/1.1 206 Partial Content" else "HTTP/1.1 200 OK",
      "Date: " + date + "Server: ho80",
      "Accept-Ranges: bytes",
      LengthLine((size - r.start) % WORD) ]
  }

  function RangeLines(size: nat, r: Range): seq<string> {
    if r.present then [ContentRangeLine(size, r.start)] else []
  }

  /** The header lines between CRLFs. `asctime` ends its text in a bare LF, so the date and the server
      name share a line. Sizes are computed in `size_t`. */
  function HeadLines(date: string, size: nat, r: Range, kind: string): seq<string> {
    FrontLines(date, size, r) + RangeLines(size, r) + ["Content-Type: " + kind, "Connection: Closed"]
  }

  function Head(date: string, size: nat, r: Range, kind: string): string {
    Join(HeadLines(date, size, r, kind)) + CRLF
  }

  /** What reading the file from `start` yields; past the end, nothing. */
  function Body(file: string, start: nat): string {
    if start <= |file| then file[start..] else ""
  }

  const NOT_FOUND := "Not Found"

  function ErrorLines(date: string): seq<string> {
    [ "HTTP/1.1 404 Not Found",
      "Date: " + date + "Server: ho80",
      LengthLine(|NOT_FOUND|),
      "Content-Type: text/html",
      "Connection: Closed" ]
  }

  /** What `_ResponseError` sends for the one code `_GetBodySize` fails with. */
  function ErrorHead(date: string): string {
    Join(ErrorLines(date)) + CRLF
  }

  // ---------- the client's reading ----------

  /** The header lines and the body of a message: split at the first blank line. */
  function Split(wire: string): Option<(seq<string>, string)> {
    match ScanLines(wire, 0)
    case Stopped(lines, end, true) => if end + 2 <= |wire| then Some((lines, wire[end + 2..])) else None
    case _ => None
  }

  /** The value of the first line that starts with `name`. */
  function Field(lines: seq<string>, name: string): Option<string> {
    if lines == [] then None
    else if name <= lines[0] then Some(lines[0][|name|..])
    else Field(lines[1..], name)
  }

  function Number(s: string): Option<nat> {
    if s != "" && Digits(s) then Some(Value(s)) else None
  }

  /** Content-Length counts exactly the bytes of the body (section 3.3.2 of RFC 7230). */
  predicate Counted(lines: seq<string>, body: string) {
    match Field(lines, LENGTH)
    case None => false
    case Some(text) => Number(text) == Some(|body|)
  }

  predicate Framed(wire: string) {
    match Split(wire)
    case None => false
    case Some((lines, body)) => Counted(lines, body)
  }

  /** A number and the separator after it. */
  function ScanIntThen(s: string, sep: string): Option<(int, string)> {
    match ScanInt(s)
    case None => None
    case Some((n, rest)) => if sep <= rest then Some((n, rest[|sep|..])) else None
  }

  /** `first-last/total`, read with the same decimal reader. */
  function ReadRange(text: string): Option<(int, int, int)> {
    match ScanIntThen(text, "-")
    case None => None
    case Some((first, t1)) =>
      match ScanIntThen(t1, "/")
      case None => None
      case Some((last, t2)) =>
        match ScanIntThen(t2, "")
        case None => None
        case Some((total, _)) => Some((first, last, total))
  }

  /** The status line of a response. */
  function Status(lines: seq<string>): string { if lines == [] then "" else lines[0] }

  /** The Content-Range and the body of a partial response, which says so in its status. */
  function ReadPartial(wire: string): Option<((int, int, int), string)> {
    match Split(wire)
    case None => None
    case Some((lines, body)) =>
      if Status(lines) != "HTTP/1.1 206 Partial Content" then None else
      match Field(lines, CONTENT_RANGE)
      case None => None
      case Some(text) =>
        match ReadRange(text)
        case None => None
        case Some(range) => Some((range, body))
  }

  predicate Describes(range: (int, int, int), body: string, total: nat) {
    range.0 <= range.1 < range.2 == total && range.1 - range.0 + 1 == |body|
  }

  /** A valid Content-Range (section 4.2 of RFC 7233) that describes exactly the bytes sent. */
  predicate RangeDescribes(wire: string, total: nat) {
    match ReadPartial(wire)
    case None => false
    case Some((range, body)) => Describes(range, body, total)
  }

  /** A whole file: status 200, its length, its bytes, and no Content-Range. */
  predicate Whole(lines: seq<string>, body: string, file: string) {
    && Status(lines) == "HTTP/1.1 200 OK" && Field(lines, CONTENT_RANGE).None?
    && Counted(lines, body) && body == file
  }

  predicate IsWhole(wire: string, file: string) {
    match Split(wire)
    case None => false
    case Some((lines, body)) => Whole(lines, body, file)
  }

  // ---------- proofs ----------

  ghost predicate NoCR(s: string) { forall i :: 0 <= i < |s| ==> s[i] != '\r' }

  lemma NoCRConcat(a: string, b: string)
    requires NoCR(a) && NoCR(b)
    ensures NoCR(a + b) && CrlfFree(a + b)
  {
    forall i | 0 <= i < |a + b| ensures (a + b)[i] != '\r' {
      assert (a + b)[i] == if i < |a| then a[i] else b[i - |a|];
    }
  }

  lemma NoCRDecimal(n: nat)
    ensures NoCR(Decimal(n))
  {
    ValueOfDecimal(n);
    assert !IsDigit('\r');
  }

  lemma RangeLineNoCR(size: nat, start: nat)
    ensures NoCR(ContentRangeLine(size, start)) && CrlfFree(ContentRangeLine(size, start))
  {
    var a, b, c := Decimal(start), Decimal((size - 1) % WORD), Decimal(size);
    NoCRDecimal(start);
    NoCRDecimal((size - 1) % WORD);
    NoCRDecimal(size);
    NoCRConcat("/", c);
    NoCRConcat(b, "/" + c);
    NoCRConcat("-", b + ("/" + c));
    NoCRConcat(a, "-" + (b + ("/" + c)));
    NoCRConcat(CONTENT_RANGE, a + ("-" + (b + ("/" + c))));
  }

  lemma NoCRPrintable(line: string)
    requires line != "" && NoCR(line)
    ensures Printable([line])
  {}

  lemma PrintableConcat(a: seq<string>, b: seq<string>)
    requires Printable(a) && Printable(b)
    ensures Printable(a + b)
  {}

  lemma DateLine(date: string)
    requires NoCR(date)
    ensures Printable(["Date: " + date + "Server: ho80"])
  {
    NoCRConcat("Date: ", date);
    NoCRConcat("Date: " + date, "Server: ho80");
    NoCRPrintable("Date: " + date + "Server: ho80");
  }

  lemma FrontLinesPrintable(date: string, size: nat, r: Range)
    requires NoCR(date)
    ensures Printable(FrontLines(date, size, r))
  {
    var n := (size - r.start) % WORD;
    var status := if r.present then "HTTP/1.1 206 Partial Content" else "HTTP/1.1 200 OK";
    var dated := "Date: " + date + "Server: ho80";
    NoCRDecimal(n);
    NoCRConcat(LENGTH, Decimal(n));
    NoCRPrintable(LengthLine(n));
    NoCRPrintable("Accept-Ranges: bytes");
    NoCRPrintable(status);
    DateLine(date);
    PrintableConcat([status], [dated]);
    PrintableConcat(["Accept-Ranges: bytes"], [LengthLine(n)]);
    PrintableConcat([status] + [dated], ["Accept-Ranges: bytes"] + [LengthLine(n)]);
    assert FrontLines(date, size, r) == [status] + [dated] + (["Accept-Ranges: bytes"] + [LengthLine(n)]);
  }

  lemma HeadLinesPrintable(date: string, size: nat, r: Range, kind: string)
    requires NoCR(date) && NoCR(kind)
    ensures Printable(HeadLines(date, size, r, kind))
  {
    var typed := "Content-Type: " + kind;
    FrontLinesPrintable(date, size, r);
    RangeLineNoCR(size, r.start);
    NoCRConcat("Content-Type: ", kind);
    PrintableConcat(FrontLines(date, size, r), RangeLines(size, r));
    NoCRPrintable(typed);
    NoCRPrintable("Connection: Closed");
    PrintableConcat([typed], ["Connection: Closed"]);
    assert [typed] + ["Connection: Closed"] == [typed, "Connection: Closed"];
    PrintableConcat(FrontLines(date, size, r) + RangeLines(size, r), [typed, "Connection: Closed"]);
  }

  /** Any printable header followed by any body is split where it was joined. */
  lemma SplitOfJoin(lines: seq<string>, body: string)
    requires Printable(lines)
    ensures Split(Join(lines) + CRLF + body) == Some((lines, body))
  {
    var head := Join(lines) + CRLF;
    var wire := head + body;
    assert At(wire, 0, head);
    ScanOfJoin(wire, 0, lines);
    assert wire[|head|..] == body;
  }

  lemma NotPrefix(a: string, b: string)
    requires a != "" && b != "" && a[0] != b[0]
    ensures !(a <= b)
  {}

  /** The header of a response is split back into its lines; the body is what follows it. */
  lemma ResponseSplits(date: string, size: nat, r: Range, kind: string, body: string)
    requires NoCR(date) && NoCR(kind)
    ensures Split(Head(date, size, r, kind) + body) == Some((HeadLines(date, size, r, kind), body))
  {
    HeadLinesPrintable(date, size, r, kind);
    SplitOfJoin(HeadLines(date, size, r, kind), body);
  }

  lemma FieldAt(lines: seq<string>, name: string, k: nat)
    requires k < |lines| && name <= lines[k]
    requires forall i :: 0 <= i < k ==> !(name <= lines[i])
    ensures Field(lines, name) == Some(lines[k][|name|..])
    decreases k
  {
    if k > 0 {
      FieldAt(lines[1..], name, k - 1);
    }
  }

  lemma LengthField(date: string, size: nat, r: Range, kind: string)
    ensures Field(HeadLines(date, size, r, kind), LENGTH) == Some(Decimal((size - r.start) % WORD))
  {
    var lines := HeadLines(date, size, r, kind);
    assert lines[0][0] == 'H' && lines[1][0] == 'D' && lines[2][0] == 'A' && LENGTH[0] == 'C';
    NotPrefix(LENGTH, lines[0]);
    NotPrefix(LENGTH, lines[1]);
    NotPrefix(LENGTH, lines[2]);
    FieldAt(lines, LENGTH, 3);
    assert lines[3][|LENGTH|..] == Decimal((size - r.start) % WORD);
  }

  lemma RangeField(date: string, size: nat, r: Range, kind: string)
    requires r.present
    ensures Field(HeadLines(date, size, r, kind), CONTENT_RANGE)
         == Some(ContentRangeLine(size, r.start)[|CONTENT_RANGE|..])
  {
    var lines := HeadLines(date, size, r, kind);
    assert lines[0][0] == 'H' && lines[1][0] == 'D' && lines[2][0] == 'A' && CONTENT_RANGE[0] == 'C';
    NotPrefix(CONTENT_RANGE, lines[0]);
    NotPrefix(CONTENT_RANGE, lines[1]);
    NotPrefix(CONTENT_RANGE, lines[2]);
    assert lines[3][8] == 'L' && CONTENT_RANGE[8] == 'R';
    FieldAt(lines, CONTENT_RANGE, 4);
  }

  lemma ScanIntThenOf(n: nat, sep: string, rest: string)
    requires sep == "-" || sep == "/"
    ensures ScanIntThen(Decimal(n) + (sep + rest), sep) == Some((n, rest))
  {
    assert (sep + rest)[0] == sep[0] && !IsDigit(sep[0]);
    ScanIntOf(n, sep + rest);
    assert (sep + rest)[|sep|..] == rest;
  }

  lemma ReadPrintedRange(size: nat, start: nat)
    ensures ReadRange(ContentRangeLine(size, start)[|CONTENT_RANGE|..])
         == Some((start, (size - 1) % WORD, size))
  {
    var b, c := Decimal((size - 1) % WORD), Decimal(size);
    assert ContentRangeLine(size, start)[|CONTENT_RANGE|..] == Decimal(start) + ("-" + (b + ("/" + c)));
    ScanIntThenOf(start, "-", b + ("/" + c));
    ScanIntThenOf((size - 1) % WORD, "/", c);
    assert c + "" == c;
    ScanIntOf(size, "");
  }

  lemma LengthCounts(lines: seq<string>, file: string, start: nat)
    requires |file| < WORD && start < WORD
    requires Field(lines, LENGTH) == Some(Decimal((|file| - start) % WORD))
    ensures Counted(lines, Body(file, start)) <==> start <= |file|
  {
    ValueOfDecimal((|file| - start) % WORD);
  }

  /** Content-Length is the number of body bytes exactly when the range starts inside the file. */
  lemma Framing(date: string, file: string, r: Range, kind: string)
    requires NoCR(date) && NoCR(kind) && |file| < WORD && r.start < WORD
    ensures Framed(Head(date, |file|, r, kind) + Body(file, r.start)) <==> r.start <= |file|
  {
    ResponseSplits(date, |file|, r, kind, Body(file, r.start));
    LengthField(date, |file|, r, kind);
    LengthCounts(HeadLines(date, |file|, r, kind), file, r.start);
  }

  /** The last byte of a file, in `size_t`. */
  function LastByte(size: nat): nat { if size == 0 then WORD - 1 else size - 1 }

  lemma LastByteWraps(size: nat)
    requires size < WORD
    ensures (size - 1) % WORD == LastByte(size)
  {
    if size == 0 {
      assert (size - 1) % WORD == (size - 1 + WORD) % WORD;
    }
  }

  lemma {:induction false} FieldNone(lines: seq<string>, name: string)
    requires forall i :: 0 <= i < |lines| ==> !(name <= lines[i])
    ensures Field(lines, name) == None
  {
    if lines != [] {
      FieldNone(lines[1..], name);
    }
  }

  lemma DiffersAt(a: string, b: string, i: nat)
    requires i < |a| && i < |b| && a[i] != b[i]
    ensures !(a <= b)
  {}

  lemma NoRangeField(date: string, size: nat, r: Range, kind: string)
    requires !r.present
    ensures Field(HeadLines(date, size, r, kind), CONTENT_RANGE) == None
  {
    var lines := HeadLines(date, size, r, kind);
    assert |lines| == 6 && CONTENT_RANGE[0] == 'C' && CONTENT_RANGE[3] == 't' && CONTENT_RANGE[8] == 'R';
    assert lines[0][0] == 'H' && lines[1][0] == 'D' && lines[2][0] == 'A' && lines[3][8] == 'L';
    assert lines[4][8] == 'T' && lines[5][3] == 'n';
    DiffersAt(CONTENT_RANGE, lines[0], 0);
    DiffersAt(CONTENT_RANGE, lines[1], 0);
    DiffersAt(CONTENT_RANGE, lines[2], 0);
    DiffersAt(CONTENT_RANGE, lines[3], 8);
    DiffersAt(CONTENT_RANGE, lines[4], 8);
    DiffersAt(CONTENT_RANGE, lines[5], 3);
    FieldNone(lines, CONTENT_RANGE);
  }

  lemma StatusOf(date: string, size: nat, r: Range, kind: string)
    ensures Status(HeadLines(date, size, r, kind))
         == if r.present then "HTTP/1.1 206 Partial Content" else "HTTP/1.1 200 OK"
    ensures Field(HeadLines(date, size, r, kind), CONTENT_RANGE).Some? <==> r.present
  {
    if r.present {
      RangeField(date, size, r, kind);
    } else {
      NoRangeField(date, size, r, kind);
    }
  }

  /** What the client makes of a partial response. */
  lemma PartialReadsBack(date: string, size: nat, r: Range, kind: string, body: string)
    requires NoCR(date) && NoCR(kind) && r.present && size < WORD
    ensures ReadPartial(Head(date, size, r, kind) + body) == Some(((r.start, LastByte(size), size), body))
  {
    ResponseSplits(date, size, r, kind, body);
    RangeField(date, size, r, kind);
    StatusOf(date, size, r, kind);
    ReadPrintedRange(size, r.start);
    LastByteWraps(size);
  }

  lemma DescribesIf(file: string, start: nat)
    ensures Describes((start, LastByte(|file|), |file|), Body(file, start), |file|) <==> start < |file|
  {}

  /** Content-Range is valid and describes exactly the bytes sent when, and only when, the range
      starts at a byte of the file. */
  lemma RangeFraming(date: string, file: string, r: Range, kind: string)
    requires NoCR(date) && NoCR(kind) && |file| < WORD && r.present
    ensures RangeDescribes(Head(date, |file|, r, kind) + Body(file, r.start), |file|)
       <==> r.start < |file|
  {
    PartialReadsBack(date, |file|, r, kind, Body(file, r.start));
    DescribesIf(file, r.start);
  }

  lemma ErrorLinesPrintable(date: string)
    requires NoCR(date)
    ensures Printable(ErrorLines(date))
  {
    NoCRDecimal(|NOT_FOUND|);
    NoCRConcat(LENGTH, Decimal(|NOT_FOUND|));
    NoCRPrintable(LengthLine(|NOT_FOUND|));
    NoCRPrintable("HTTP/1.1 404 Not Found");
    NoCRPrintable("Content-Type: text/html");
    NoCRPrintable("Connection: Closed");
    DateLine(date);
    var dated := "Date: " + date + "Server: ho80";
    PrintableConcat(["HTTP/1.1 404 Not Found"], [dated]);
    PrintableConcat(["Content-Type: text/html"], ["Connection: Closed"]);
    PrintableConcat([LengthLine(|NOT_FOUND|)], ["Content-Type: text/html"] + ["Connection: Closed"]);
    PrintableConcat(["HTTP/1.1 404 Not Found"] + [dated],
                    [LengthLine(|NOT_FOUND|)] + (["Content-Type: text/html"] + ["Connection: Closed"]));
    assert ErrorLines(date) == ["HTTP/1.1 404 Not Found"] + [dated]
      + ([LengthLine(|NOT_FOUND|)] + (["Content-Type: text/html"] + ["Connection: Closed"]));
  }

  /** The error page is framed too, and says 404. */
  lemma ErrorFraming(date: string)
    requires NoCR(date)
    ensures Framed(ErrorHead(date) + NOT_FOUND)
    ensures var page := Split(ErrorHead(date) + NOT_FOUND);
      page.Some? && Status(page.value.0) == "HTTP/1.1 404 Not Found" && page.value.1 == "Not Found"
  {
    var lines := ErrorLines(date);
    ErrorLinesPrintable(date);
    SplitOfJoin(lines, NOT_FOUND);
    assert lines[0][0] == 'H' && lines[1][0] == 'D' && LENGTH[0] == 'C';
    NotPrefix(LENGTH, lines[0]);
    NotPrefix(LENGTH, lines[1]);
    FieldAt(lines, LENGTH, 2);
    assert lines[2][|LENGTH|..] == Decimal(|NOT_FOUND|);
    ValueOfDecimal(|NOT_FOUND|);
  }

  /** The header's first blank line is its end. */
  lemma HeadEndsAtFirstBlank(date: string, size: nat, r: Range, kind: string, i: int)
    requires NoCR(date) && NoCR(kind)
    ensures Occurs(Head(date, size, r, kind), BLANK, i) <==> i == |Head(date, size, r, kind)| - 4
  {
    HeadLinesPrintable(date, size, r, kind);
    BlankOnlyAtEnd(HeadLines(date, size, r, kind), i);
  }

  /** A request asks for a range when any of its header lines says so, wherever in the line. */
  ghost predicate AsksForRange(header: seq<string>) {
    exists l | l in header :: Contains(l, "Range: bytes=")
  }

  lemma {:induction false} RangeIsPresent(header: seq<string>, r: Range)
    ensures FindRange(header, r).present <==> r.present || AsksForRange(header)
  {
    if header != [] {
      var rest := header[1..];
      assert forall l :: l in header <==> l == header[0] || l in rest;
      RangeIsPresent(rest, if Contains(header[0], RANGE)
                           then ScanRange(header[0][|RANGE|..], r).(present := true) else r);
    }
  }

  /** The status a client reads: 206 if and only if it has asked for a range, if and only if there is a
      Content-Range; and 200 otherwise. */
  lemma StatusTells(header: seq<string>, date: string, size: nat, kind: string, body: string)
    requires NoCR(date) && NoCR(kind)
    ensures var wire := Head(date, size, FindRange(header, Range(0, 0, false)), kind) + body;
      && Split(wire).Some? && Split(wire).value.1 == body
      && var lines := Split(wire).value.0;
         && Status(lines) == (if AsksForRange(header) then "HTTP/1.1 206 Partial Content" else "HTTP/1.1 200 OK")
         && (Field(lines, CONTENT_RANGE).Some? <==> AsksForRange(header))
  {
    var r := FindRange(header, Range(0, 0, false));
    RangeIsPresent(header, Range(0, 0, false));
    ResponseSplits(date, size, r, kind, body);
    StatusOf(date, size, r, kind);
  }

  lemma {:induction false} NoRangeAmong(lines: seq<string>, r: Range)
    requires forall l :: l in lines ==> !Contains(l, RANGE)
    ensures FindRange(lines, r) == r
  {
    if lines != [] {
      NoRangeAmong(lines[1..], r);
    }
  }

  lemma {:induction false} FindRangeAppend(a: seq<string>, b: seq<string>, r: Range)
    ensures FindRange(a + b, r) == FindRange(b, FindRange(a, r))
  {
    if a == [] {
      assert a + b == b;
    } else {
      assert (a + b)[0] == a[0] && (a + b)[1..] == a[1..] + b;
      FindRangeAppend(a[1..], b, if Contains(a[0], RANGE) then ScanRange(a[0][|RANGE|..], r).(present := true) else r);
    }
  }

  /** The start that is read always fits 32 bits. */
  lemma {:induction false} StartFits(header: seq<string>, r: Range)
    requires r.start < HALF
    ensures FindRange(header, r).start < HALF
  {
    if header != [] {
      var next := if Contains(header[0], RANGE) then ScanRange(header[0][|RANGE|..], r).(present := true) else r;
      assert next.start < HALF;
      StartFits(header[1..], next);
    }
  }

  /** The last range line decides, whatever stands before it. */
  lemma FindRangeAmong(pre: seq<string>, line: string, post: seq<string>, r: Range)
    requires (forall l :: l in post ==> !Contains(l, RANGE)) && Contains(line, RANGE) && r.start < HALF
    ensures var before := FindRange(pre, r);
      && before.start < HALF
      && FindRange(pre + [line] + post, r) == ScanRange(line[|RANGE|..], before).(present := true)
  {
    StartFits(pre, r);
    FindRangeAppend(pre + [line], post, r);
    FindRangeAppend(pre, [line], r);
    assert [line][1..] == [];
    NoRangeAmong(post, FindRange(pre + [line], r));
  }

  lemma WholeIf(lines: seq<string>, file: string)
    requires Status(lines) == "HTTP/1.1 200 OK" && Field(lines, CONTENT_RANGE) == None
    requires Field(lines, LENGTH) == Some(Decimal(|file|))
    ensures Whole(lines, file, file)
  {
    ValueOfDecimal(|file|);
  }

  lemma WholeLines(date: string, file: string, r: Range, kind: string)
    requires |file| < WORD && !r.present && r.start == 0
    ensures Whole(HeadLines(date, |file|, r, kind), file, file)
  {
    var lines := HeadLines(date, |file|, r, kind);
    StatusOf(date, |file|, r, kind);
    LengthField(date, |file|, r, kind);
    assert (|file| - r.start) % WORD == |file|;
    WholeIf(lines, file);
  }

  lemma WholeIsRead(date: string, file: string, r: Range, kind: string)
    requires NoCR(date) && NoCR(kind) && |file| < WORD && !r.present && r.start == 0
    ensures IsWhole(Head(date, |file|, r, kind) + file, file)
  {
    WholeLines(date, file, r, kind);
    ResponseSplits(date, |file|, r, kind, file);
  }

  /** A client that asks for no range gets the whole file. */
  lemma PlainRequestAnswered(header: seq<string>, date: string, file: string, kind: string)
    requires forall l :: l in header ==> !Contains(l, RANGE)
    requires NoCR(date) && NoCR(kind) && |file| < WORD
    ensures var r := FindRange(header, Range(0, 0, false));
      IsWhole(Head(date, |file|, r, kind) + Body(file, r.start), file)
  {
    NoRangeAmong(header, Range(0, 0, false));
    assert Body(file, 0) == file;
    WholeIsRead(date, file, Range(0, 0, false), kind);
  }

  /** A client that asks for everything from byte `n` on, after any other headers, gets a valid answer
      to that question exactly when `n` fits 32 bits and the file has a byte `n`. */
  lemma RangeRequestAnswered(pre: seq<string>, n: nat, post: seq<string>, date: string, file: string, kind: string)
    requires forall l :: l in post ==> !Contains(l, RANGE)
    requires NoCR(date) && NoCR(kind) && |file| < WORD
    ensures var r := FindRange(pre + [RangeLine(n)] + post, Range(0, 0, false));
      && r.present
      && (r.start == n && RangeDescribes(Head(date, |file|, r, kind) + Body(file, r.start), |file|)
          <==> n < HALF && n < |file|)
  {
    var r0 := FindRange(pre, Range(0, 0, false));
    HoldsRange(Decimal(n) + "-");
    assert RANGE + (Decimal(n) + "-") == RangeLine(n);
    FindRangeAmong(pre, RangeLine(n), post, Range(0, 0, false));
    RangeReadsBack(n, r0);
    var r := ScanRange(RangeLine(n)[|RANGE|..], r0).(present := true);
    RangeFraming(date, file, r, kind);
  }

  // ---------- a range with an end ----------

  function ClosedRangeLine(a: nat, b: nat): string { RANGE + (Decimal(a) + ("-" + Decimal(b))) }

  /** The bytes from `a` to `b` that the file has. */
  function Slice(file: string, a: nat, b: nat): string
    requires a <= b
  {
    if a >= |file| then "" else file[a..if b < |file| then b + 1 else |file|]
  }

  predicate Answers(range: (int, int, int), body: string, file: string, a: nat, b: nat)
    requires a <= b
  {
    a < |file| && range == (a, if b < |file| then b else |file| - 1, |file|) && body == Slice(file, a, b)
  }

  /** A valid answer to a request for bytes `a` to `b`: exactly those the file has, and a Content-Range
      that says so (section 4.2 of RFC 7233). */
  predicate AnswersRange(wire: string, file: string, a: nat, b: nat)
    requires a <= b
  {
    match ReadPartial(wire)
    case None => false
    case Some((range, body)) => Answers(range, body, file, a, b)
  }

  lemma ClosedRangeReadsBack(a: nat, b: nat, r: Range)
    requires r.start < HALF
    ensures ScanRange(ClosedRangeLine(a, b)[|RANGE|..], r).start == a <==> a < HALF
    ensures ScanRange(ClosedRangeLine(a, b)[|RANGE|..], r).start < HALF
    ensures Contains(ClosedRangeLine(a, b), RANGE)
  {
    HoldsRange(Decimal(a) + ("-" + Decimal(b)));
    RangeStart(a, "-" + Decimal(b), r);
    StoreFits(r.start, a);
  }

  lemma AnswersIf(file: string, start: nat, a: nat, b: nat)
    requires a <= b
    ensures Answers((start, LastByte(|file|), |file|), Body(file, start), file, a, b)
       <==> start == a && a < |file| && b + 1 >= |file|
  {
    assert a < |file| ==> file[a..|file|] == file[a..];
  }

  lemma AnswerIs(date: string, file: string, r: Range, kind: string, a: nat, b: nat)
    requires NoCR(date) && NoCR(kind) && |file| < WORD && r.present && a <= b
    ensures AnswersRange(Head(date, |file|, r, kind) + Body(file, r.start), file, a, b)
       <==> r.start == a && a < |file| && b + 1 >= |file|
  {
    PartialReadsBack(date, |file|, r, kind, Body(file, r.start));
    AnswersIf(file, r.start, a, b);
  }

  /** A client that asks for bytes `a` to `b`, after any other headers, gets them exactly when `a` fits 32
      bits and is a byte of the file, and `b` is its last byte or beyond: the end is read and ignored. */
  lemma ClosedRangeAnswered(pre: seq<string>, a: nat, b: nat, post: seq<string>,
                            date: string, file: string, kind: string)
    requires forall l :: l in post ==> !Contains(l, RANGE)
    requires NoCR(date) && NoCR(kind) && |file| < WORD && a <= b
    ensures var r := FindRange(pre + [ClosedRangeLine(a, b)] + post, Range(0, 0, false));
      AnswersRange(Head(date, |file|, r, kind) + Body(file, r.start), file, a, b)
      <==> a < HALF && a < |file| && b + 1 >= |file|
  {
    var r0 := FindRange(pre, Range(0, 0, false));
    HoldsRange(Decimal(a) + ("-" + Decimal(b)));
    FindRangeAmong(pre, ClosedRangeLine(a, b), post, Range(0, 0, false));
    ClosedRangeReadsBack(a, b, r0);
    AnswerIs(date, file, ScanRange(ClosedRangeLine(a, b)[|RANGE|..], r0).(present := true), kind, a, b);
  }

  /** Asked for the first of two bytes, the server sends both. */
  lemma RangeEndIsIgnored(date: string, kind: string)
    requires NoCR(date) && NoCR(kind)
    ensures var r := FindRange([ClosedRangeLine(0, 0)], Range(0, 0, false));
      !AnswersRange(Head(date, 2, r, kind) + Body("ab", r.start), "ab", 0, 0)
  {
    assert [] + [ClosedRangeLine(0, 0)] + [] == [ClosedRangeLine(0, 0)];
    ClosedRangeAnswered([], 0, 0, [], date, "ab", kind);
  }

  // ---------- the end of a file ----------

  function SuffixRangeLine(n: nat): string { RANGE + ("-" + Decimal(n)) }

  function Minus(n: nat): int { 0 - (n as int) }

  lemma ScanNegative(n: nat)
    ensures ScanInt("-" + Decimal(n)) == Some((Minus(n), ""))
  {
    var d := Decimal(n);
    ValueOfDecimal(n);
    DigitRunOf(d, "");
    assert ("-" + d)[1..] == d && d + "" == d && d[..|d|] == d && d[|d|..] == "";
  }

  lemma SuffixStart(n: nat, r: Range)
    ensures ScanRange("-" + Decimal(n), r) == r.(start := StoreInt(r.start, Minus(n)))
  {
    ScanNegative(n);
  }

  const LONG_MAX := 0x7fff_ffff_ffff_ffff

  /** When the last `n` bytes of a file are found: `n` is read as a negative start, so the size has to be a
      multiple of 2^32 that is less than 2^32 above `n`; for an `n` beyond the file, `n` itself has to be a
      multiple; and one that is too large for a long is read as the smallest long, which is one. */
  predicate SuffixFits(n: nat, size: nat) {
    if n > LONG_MAX + 1 then size <= n
    else if n <= size then size % HALF == 0 && size - n < HALF
    else n % HALF == 0
  }

  /** The first of the last `n` bytes. */
  function SuffixFirst(n: nat, size: nat): nat { if n <= size then size - n else 0 }

  lemma NegativeMod(n: nat, rest: nat)
    ensures Minus(n) % HALF == rest <==> (n + rest) % HALF == 0 && rest < HALF
  {
    var k, m := Minus(n) / HALF, Minus(n) % HALF;
    assert n == -k * HALF - m;
    if m == rest {
      assert n + rest == -k * HALF;
    }
  }

  lemma NegativeStart(n: nat, size: nat)
    requires 0 < n
    ensures StoreInt(0, Minus(n)) == SuffixFirst(n, size) <==> SuffixFits(n, size)
  {
    if n <= LONG_MAX + 1 {
      assert ToLong(Minus(n)) == Minus(n);
      NegativeMod(n, SuffixFirst(n, size));
    } else {
      assert ToLong(Minus(n)) % HALF == 0;
    }
  }

  lemma SuffixIsRead(pre: seq<string>, n: nat, post: seq<string>)
    requires forall l :: l in post ==> !Contains(l, RANGE)
    ensures var r := FindRange(pre + [SuffixRangeLine(n)] + post, Range(0, 0, false));
      r.present && r.start == StoreInt(0, Minus(n))
  {
    var r0 := FindRange(pre, Range(0, 0, false));
    HoldsRange("-" + Decimal(n));
    FindRangeAmong(pre, SuffixRangeLine(n), post, Range(0, 0, false));
    SuffixStart(n, r0);
    assert r0.start / HALF == 0;
  }

  /** A client that asks for the last `n` bytes, after any other headers, gets them exactly then. */
  lemma SuffixRangeAnswered(pre: seq<string>, n: nat, post: seq<string>, date: string, file: string, kind: string)
    requires forall l :: l in post ==> !Contains(l, RANGE)
    requires NoCR(date) && NoCR(kind) && 0 < |file| < WORD && 0 < n
    ensures var r := FindRange(pre + [SuffixRangeLine(n)] + post, Range(0, 0, false));
      AnswersRange(Head(date, |file|, r, kind) + Body(file, r.start), file, SuffixFirst(n, |file|), |file| - 1)
      <==> SuffixFits(n, |file|)
  {
    SuffixIsRead(pre, n, post);
    NegativeStart(n, |file|);
    AnswerIs(date, file, FindRange(pre + [SuffixRangeLine(n)] + post, Range(0, 0, false)), kind,
             SuffixFirst(n, |file|), |file| - 1);
  }
}
