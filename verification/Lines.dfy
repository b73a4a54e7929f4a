/** CRLF-terminated header lines: `_ReadLine`, the header loop of `_ParseRequestHeader` as a function,
    and printing as its partner. */
module Lines {
  import opened Text

  const CRLF := "\r\n"
  const BLANK := "\r\n\r\n"

  predicate IsLineEnd(s: string, i: int) {
    0 <= i && i + 1 < |s| && s[i] == '\r' && s[i + 1] == '\n'
  }

  ghost predicate CrlfFree(s: string) {
    forall i :: !IsLineEnd(s, i)
  }

  /** The first line end at or after `from`, or -1. */
  function LineEnd(s: string, from: nat): (r: int)
    requires from <= |s|
    ensures r == -1 ==> forall i :: from <= i ==> !IsLineEnd(s, i)
    ensures r != -1 ==> from <= r && IsLineEnd(s, r) && forall i :: from <= i < r ==> !IsLineEnd(s, i)
    decreases |s| - from
  {
    if from + 1 >= |s| then -1
    else if IsLineEnd(s, from) then from
    else LineEnd(s, from + 1)
  }

  /** What the header loop makes of a buffer: the lines it appends, and how it stops. */
  datatype Scan =
    | Stopped(lines: seq<string>, end: nat, blank: bool)  // at a blank line, or at the end of the buffer
    | Unended(lines: seq<string>)                         // a line without CRLF: size_t(-1) used as a length
  {
    function Prepend(line: string): Scan {
      if Stopped? then Stopped([line] + lines, end, blank) else Unended([line] + lines)
    }
  }

  /** The header loop from `off` on. */
  function ScanLines(s: string, off: nat): Scan
    requires off <= |s|
    decreases |s| - off
  {
    var pos := LineEnd(s, off);
    if pos == -1 then Unended([])
    else if pos == off then Stopped([], off, true)
    else if |s| <= pos + 2 then Stopped([s[off..pos]], pos + 2, false)
    else ScanLines(s, pos + 2).Prepend(s[off..pos])
  }

  /** Each line followed by CRLF. */
  function Join(lines: seq<string>): string {
    if lines == [] then "" else lines[0] + CRLF + Join(lines[1..])
  }

  /** Every line fit to be printed and read back. */
  ghost predicate Printable(lines: seq<string>) {
    forall i :: 0 <= i < |lines| ==> lines[i] != "" && CrlfFree(lines[i])
  }

  /** `w` stands in `s` from `off` on. */
  ghost predicate At(s: string, off: nat, w: string) {
    off + |w| <= |s| && forall i :: off <= i < off + |w| ==> s[i] == w[i - off]
  }

  lemma AtConcat(s: string, off: nat, a: string, b: string)
    ensures At(s, off, a + b) <==> At(s, off, a) && At(s, off + |a|, b)
  {
    if At(s, off, a) && At(s, off + |a|, b) {
      forall i | off <= i < off + |a + b| ensures s[i] == (a + b)[i - off] {}
    }
    if At(s, off, a + b) {
      forall i | off <= i < off + |a| ensures s[i] == a[i - off] {
        assert s[i] == (a + b)[i - off];
      }
      forall i | off + |a| <= i < off + |a| + |b| ensures s[i] == b[i - off - |a|] {
        assert s[i] == (a + b)[i - off];
      }
    }
  }

  lemma LineEndAt(s: string, off: nat, line: string)
    requires CrlfFree(line) && At(s, off, line) && At(s, off + |line|, CRLF)
    ensures LineEnd(s, off) == off + |line|
  {
    assert s[off + |line|] == CRLF[0] && s[off + |line| + 1] == CRLF[1];
    forall i | off <= i < off + |line| ensures !IsLineEnd(s, i) {
      assert !IsLineEnd(line, i - off);
    }
    assert IsLineEnd(s, off + |line|);
  }

  function Size(lines: seq<string>): nat {
    if lines == [] then 0 else |lines[0]| + 2 + Size(lines[1..])
  }

  /** The lines, each with its CRLF, and the blank line stand in `s` from `off` on. */
  ghost predicate LinesAt(s: string, off: nat, lines: seq<string>): (b: bool)
    ensures b ==> off + Size(lines) + 2 <= |s|
    decreases |lines|
  {
    if lines == [] then At(s, off, CRLF)
    else
      && At(s, off, lines[0]) && At(s, off + |lines[0]|, CRLF)
      && LinesAt(s, off + |lines[0]| + 2, lines[1..])
  }

  lemma {:induction false} JoinSize(lines: seq<string>)
    ensures |Join(lines)| == Size(lines)
  {
    if lines != [] {
      JoinSize(lines[1..]);
    }
  }

  lemma AtLine(s: string, off: nat, line: string, rest: string)
    ensures At(s, off, line + CRLF + rest + CRLF) <==>
      At(s, off, line) && At(s, off + |line|, CRLF) && At(s, off + |line| + 2, rest + CRLF)
  {
    Reassociate(line + CRLF, rest, CRLF);
    Reassociate(line, CRLF, rest + CRLF);
    AtConcat(s, off, line, CRLF + (rest + CRLF));
    AtConcat(s, off + |line|, CRLF, rest + CRLF);
  }

  lemma {:induction false} JoinIsLinesAt(s: string, off: nat, lines: seq<string>)
    ensures At(s, off, Join(lines) + CRLF) <==> LinesAt(s, off, lines)
    decreases |lines|
  {
    if lines == [] {
      assert Join(lines) + CRLF == CRLF;
    } else {
      AtLine(s, off, lines[0], Join(lines[1..]));
      JoinIsLinesAt(s, off + |lines[0]| + 2, lines[1..]);
    }
  }

  /** One turn of the header loop. */
  lemma ScanStep(s: string, off: nat, line: string)
    requires line != "" && CrlfFree(line) && At(s, off, line) && At(s, off + |line|, CRLF)
    requires off + |line| + 2 < |s|
    ensures ScanLines(s, off) == ScanLines(s, off + |line| + 2).Prepend(line)
  {
    LineEndAt(s, off, line);
    assert s[off..off + |line|] == line;
  }

  lemma {:induction false} ScanOfLinesAt(s: string, off: nat, lines: seq<string>)
    requires off <= |s| && Printable(lines) && LinesAt(s, off, lines)
    ensures ScanLines(s, off) == Stopped(lines, off + Size(lines), true)
    decreases |lines|
  {
    if lines == [] {
      LineEndAt(s, off, "");
    } else {
      var line, tail := lines[0], lines[1..];
      ScanStep(s, off, line);
      ScanOfLinesAt(s, off + |line| + 2, tail);
      assert lines == [line] + tail;
    }
  }

  /** Parse after print: the lines come back, and the blank line is found after them. */
  lemma ScanOfJoin(s: string, off: nat, lines: seq<string>)
    requires off <= |s| && Printable(lines) && At(s, off, Join(lines) + CRLF)
    ensures ScanLines(s, off) == Stopped(lines, off + |Join(lines)|, true)
  {
    JoinIsLinesAt(s, off, lines);
    JoinSize(lines);
    ScanOfLinesAt(s, off, lines);
  }

  /** Without the blank line, the same lines come back: the end of the buffer stops the loop. */
  lemma {:induction false} ScanOfLinesOnly(s: string, off: nat, lines: seq<string>)
    requires Printable(lines) && lines != [] && LinesAt(s + CRLF, off, lines)
    requires off + Size(lines) == |s|
    ensures ScanLines(s, off) == Stopped(lines, |s|, false)
    decreases |lines|
  {
    var line, tail := lines[0], lines[1..];
    var next := off + |line| + 2;
    assert forall i :: off <= i < next ==> s[i] == (s + CRLF)[i];
    if tail == [] {
      LineEndAt(s, off, line);
      assert s[off..off + |line|] == line && lines == [line];
    } else {
      ScanStep(s, off, line);
      ScanOfLinesOnly(s, next, tail);
      assert lines == [line] + tail;
    }
  }

  lemma SliceFree(s: string, lo: nat, hi: nat)
    requires lo <= hi <= |s| && forall i :: lo <= i < hi ==> !IsLineEnd(s, i)
    ensures CrlfFree(s[lo..hi])
  {
    forall i ensures !IsLineEnd(s[lo..hi], i) {
      if IsLineEnd(s[lo..hi], i) {
        assert IsLineEnd(s, lo + i);
      }
    }
  }

  lemma SplitLine(s: string, off: nat, pos: nat, end: nat)
    requires off <= pos && IsLineEnd(s, pos) && pos + 2 <= end <= |s|
    ensures s[off..end] == s[off..pos] + CRLF + s[pos + 2..end]
  {}

  /** Print after parse: the lines appended contain no CRLF and rebuild the buffer between `off` and
      the stopping point, where the blank line is. */
  lemma {:induction false} JoinOfScan(s: string, off: nat)
    requires off <= |s|
    ensures Printable(ScanLines(s, off).lines)
    ensures ScanLines(s, off).Stopped? ==>
      var r := ScanLines(s, off);
      && off <= r.end <= |s| && s[off..r.end] == Join(r.lines)
      && (if r.blank then IsLineEnd(s, r.end) else r.end == |s| && r.lines != [])
    decreases |s| - off
  {
    var pos := LineEnd(s, off);
    if pos > off {
      var line := s[off..pos];
      SliceFree(s, off, pos);
      if pos + 2 < |s| {
        JoinOfScan(s, pos + 2);
        var r := ScanLines(s, pos + 2);
        assert ([line] + r.lines)[1..] == r.lines;
        if r.Stopped? {
          SplitLine(s, off, pos, r.end);
        }
      } else {
        SplitLine(s, off, pos, |s|);
        assert Join([line]) == line + CRLF + Join([]) && s[pos + 2..] == "";
      }
    }
  }

  lemma BlankIsTwoEnds(s: string, i: int)
    ensures Occurs(s, BLANK, i) <==> IsLineEnd(s, i) && IsLineEnd(s, i + 2)
  {
    if 0 <= i <= |s| - 4 {
      var w := s[i..i + 4];
      assert w[0] == s[i] && w[1] == s[i + 1] && w[2] == s[i + 2] && w[3] == s[i + 3];
      assert w == [w[0], w[1], w[2], w[3]];
    }
  }

  lemma {:induction false} TwoEndsOnlyAtEnd(s: string, off: nat, lines: seq<string>, i: nat)
    requires Printable(lines) && lines != [] && LinesAt(s, off, lines)
    requires off <= i < off + Size(lines)
    ensures IsLineEnd(s, i) && IsLineEnd(s, i + 2) <==> i == off + Size(lines) - 2
    decreases |lines|
  {
    LineEndAt(s, off, lines[0]);
    var next := off + |lines[0]| + 2;
    if lines[1..] == [] {
      assert At(s, next, CRLF);
      LineEndAt(s, next, "");
    } else {
      LineEndAt(s, next, lines[1..][0]);
      if i >= next {
        TwoEndsOnlyAtEnd(s, next, lines[1..], i);
      }
    }
  }

  /** Joined printable lines and a final CRLF contain a blank line in exactly one place: the end. */
  lemma BlankOnlyAtEnd(lines: seq<string>, i: int)
    requires Printable(lines) && lines != []
    ensures Occurs(Join(lines) + CRLF, BLANK, i) <==> i == |Join(lines)| - 2
  {
    var s := Join(lines) + CRLF;
    BlankIsTwoEnds(s, i);
    assert At(s, 0, s);
    JoinIsLinesAt(s, 0, lines);
    JoinSize(lines);
    if 0 <= i < |Join(lines)| {
      TwoEndsOnlyAtEnd(s, 0, lines, i);
    }
  }
}
