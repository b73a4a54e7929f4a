/** Character strings as the C and C++ libraries see them: concatenation of pieces, substring
    search, NUL-terminated views, decimal numerals, and the two `sscanf` conversions in use. */
module Text {

  datatype Option<+T> = None | Some(value: T)

  const NUL: char := '\0'

  /** The bytes of several pieces, one after the other. */
  function Flatten(parts: seq<string>): string {
    if parts == [] then [] else parts[0] + Flatten(parts[1..])
  }

  lemma {:induction false} FlattenAppend(a: seq<string>, b: seq<string>)
    ensures Flatten(a + b) == Flatten(a) + Flatten(b)
  {
    if a == [] {
      assert a + b == b;
    } else {
      assert (a + b)[1..] == a[1..] + b;
      FlattenAppend(a[1..], b);
    }
  }

  lemma FlattenPush(a: seq<string>, last: string)
    ensures Flatten(a + [last]) == Flatten(a) + last
  {
    FlattenAppend(a, [last]);
  }

  lemma FlattenSplit(pieces: seq<string>, k: nat)
    requires k <= |pieces|
    ensures Flatten(pieces) == Flatten(pieces[..k]) + Flatten(pieces[k..])
  {
    var front, back := pieces[..k], pieces[k..];
    assert front + back == pieces;
    FlattenAppend(front, back);
  }

  lemma FlattenNext(pieces: seq<string>, k: nat)
    requires k < |pieces|
    ensures Flatten(pieces[..k + 1]) == Flatten(pieces[..k]) + pieces[k]
  {
    var front := pieces[..k];
    assert pieces[..k + 1] == front + [pieces[k]];
    FlattenPush(front, pieces[k]);
  }

  lemma Reassociate(a: string, b: string, c: string)
    ensures a + (b + c) == (a + b) + c
  {}

  // ---------- substring search ----------

  predicate Occurs(s: string, w: string, i: int) {
    0 <= i <= |s| - |w| && s[i..i + |w|] == w
  }

  /** `s.find(w) != npos` */
  predicate Contains(s: string, w: string) {
    exists i | 0 <= i <= |s| - |w| :: Occurs(s, w, i)
  }

  /** The characters before the first NUL: what `std::string str = buf` copies. */
  function CStr(s: string): (r: string)
    ensures r <= s && NUL !in r
    ensures NUL !in s ==> r == s
    ensures r == s || s[|r|] == NUL
  {
    if s == [] || s[0] == NUL then [] else [s[0]] + CStr(s[1..])
  }

  // ---------- decimal numerals ----------

  predicate IsDigit(c: char) { '0' <= c <= '9' }

  predicate Digits(s: string) { forall i | 0 <= i < |s| :: IsDigit(s[i]) }

  function Digit(d: nat): char
    requires d < 10
  {
    '0' + d as char
  }

  /** `std::to_string` of an unsigned value. */
  function Decimal(n: nat): string {
    if n < 10 then [Digit(n)] else Decimal(n / 10) + [Digit(n % 10)]
  }

  function Value(s: string): nat
    requires Digits(s)
  {
    if s == [] then 0 else 10 * Value(s[..|s| - 1]) + (s[|s| - 1] as int - '0' as int)
  }

  lemma {:induction false} ValueOfDecimal(n: nat)
    ensures Decimal(n) != [] && Digits(Decimal(n)) && Value(Decimal(n)) == n
  {
    if n >= 10 {
      ValueOfDecimal(n / 10);
      assert Decimal(n)[..|Decimal(n)| - 1] == Decimal(n / 10);
    }
  }

  /** Length of the run of digits at the front of `s`. */
  function DigitRun(s: string): (n: nat)
    ensures n <= |s| && Digits(s[..n])
    ensures n < |s| ==> !IsDigit(s[n])
  {
    if s == [] || !IsDigit(s[0]) then 0 else
      assert forall i | 1 <= i <= DigitRun(s[1..]) :: s[i] == s[1..][i - 1];
      1 + DigitRun(s[1..])
  }

  lemma {:induction false} DigitRunOf(ds: string, rest: string)
    requires Digits(ds) && (rest == [] || !IsDigit(rest[0]))
    ensures DigitRun(ds + rest) == |ds|
  {
    if ds == [] {
      assert ds + rest == rest;
    } else {
      assert (ds + rest)[1..] == ds[1..] + rest;
      DigitRunOf(ds[1..], rest);
    }
  }

  // ---------- sscanf ----------

  predicate IsSpace(c: char) { c == ' ' || '\t' <= c <= '\r' }

  function SkipSpace(s: string): (r: string)
    ensures |r| <= |s| && (r == [] || !IsSpace(r[0]))
  {
    if s != [] && IsSpace(s[0]) then SkipSpace(s[1..]) else s
  }

  /** Non-empty, and free of white space and NUL: exactly what one `%s` can store. */
  predicate IsToken(t: string) {
    t != [] && forall c | c in t :: !IsSpace(c) && c != NUL
  }

  /** Length of the run of `%s` characters at the front of `s`. */
  function TokenRun(s: string): (n: nat)
    ensures n <= |s| && (n > 0 ==> IsToken(s[..n]))
    ensures n < |s| ==> IsSpace(s[n]) || s[n] == NUL
  {
    if s == [] || IsSpace(s[0]) || s[0] == NUL then 0
    else
      var n := TokenRun(s[1..]);
      assert s[..n + 1] == [s[0]] + s[1..][..n];
      n + 1
  }

  /** The `%s` conversion: the token read and the input after it. */
  function ScanToken(s: string): (r: Option<(string, string)>)
    ensures r.Some? ==> IsToken(r.value.0)
  {
    var t := SkipSpace(s);
    var n := TokenRun(t);
    if n == 0 then None else Some((t[..n], t[n..]))
  }

  lemma {:induction false} TokenRunOf(t: string, rest: string)
    requires t == [] || IsToken(t)
    requires rest == [] || IsSpace(rest[0]) || rest[0] == NUL
    ensures TokenRun(t + rest) == |t|
  {
    if t == [] {
      assert t + rest == rest;
    } else {
      assert t[0] in t && (t + rest)[0] == t[0];
      assert (t + rest)[1..] == t[1..] + rest;
      TokenRunOf(t[1..], rest);
    }
  }

  lemma ScanTokenOf(t: string, rest: string)
    requires IsToken(t) && (rest == [] || IsSpace(rest[0]) || rest[0] == NUL)
    ensures ScanToken(t + rest) == Some((t, rest))
  {
    TokenRunOf(t, rest);
    assert SkipSpace(t + rest) == t + rest;
    assert (t + rest)[..|t|] == t && (t + rest)[|t|..] == rest;
  }

  predicate AllSpace(s: string) { forall c | c in s :: IsSpace(c) }

  /** Nothing more to read: white space, up to the end or to a NUL. */
  predicate IsEnd(s: string) {
    AllSpace(s) || exists i | 0 <= i < |s| :: s[i] == NUL && AllSpace(s[..i])
  }

  lemma {:induction false} SkipSpaceOf(sp: string, rest: string)
    requires AllSpace(sp) && (rest == [] || !IsSpace(rest[0]))
    ensures SkipSpace(sp + rest) == rest
  {
    if sp == [] {
      assert sp + rest == rest;
    } else {
      assert (sp + rest)[1..] == sp[1..] + rest && (sp + rest)[0] == sp[0] && sp[0] in sp;
      SkipSpaceOf(sp[1..], rest);
    }
  }

  lemma NoTokenAtEnd(s: string)
    requires IsEnd(s)
    ensures ScanToken(s) == None && (s == "" || IsSpace(s[0]) || s[0] == NUL)
  {
    if AllSpace(s) {
      assert s + "" == s && (s != "" ==> s[0] in s);
      SkipSpaceOf(s, "");
    } else {
      var i :| 0 <= i < |s| && s[i] == NUL && AllSpace(s[..i]);
      assert s[..i] + s[i..] == s && (i > 0 ==> s[0] in s[..i]);
      SkipSpaceOf(s[..i], s[i..]);
    }
  }

  lemma SpacedToken(sp: string, t: string, rest: string)
    requires AllSpace(sp) && IsToken(t) && (rest == [] || IsSpace(rest[0]) || rest[0] == NUL)
    ensures ScanToken(sp + (t + rest)) == Some((t, rest))
  {
    assert t[0] in t && (t + rest)[0] == t[0];
    SkipSpaceOf(sp, t + rest);
    ScanTokenOf(t, rest);
    assert SkipSpace(t + rest) == t + rest;
  }

  /** The `%d` conversion on mathematical integers: optional sign, then at least one digit. */
  function ScanInt(s: string): Option<(int, string)> {
    var t := SkipSpace(s);
    var sign := if t != [] && t[0] == '-' then -1 else 1;
    var u := if t != [] && (t[0] == '-' || t[0] == '+') then t[1..] else t;
    var n := DigitRun(u);
    if n == 0 then None else Some((sign * Value(u[..n]), u[n..]))
  }

  lemma ScanIntOf(n: nat, rest: string)
    requires rest == [] || !IsDigit(rest[0])
    ensures ScanInt(Decimal(n) + rest) == Some((n, rest))
  {
    ValueOfDecimal(n);
    var d := Decimal(n);
    DigitRunOf(d, rest);
    assert IsDigit(d[0]) && (d + rest)[0] == d[0];
    assert (d + rest)[..|d|] == d && (d + rest)[|d|..] == rest;
  }

  /** A literal character of a `sscanf` format. */
  function ScanLiteral(w: string, s: string): Option<string> {
    if w <= s then Some(s[|w|..]) else None
  }

  /** A numeral as `strtol`, which `%d` reads with, gives it back: kept within 64 bits. */
  function ToLong(v: int): (r: int)
    ensures -0x8000_0000_0000_0000 <= v < 0x8000_0000_0000_0000 ==> r == v
  {
    if v < -0x8000_0000_0000_0000 then -0x8000_0000_0000_0000
    else if v > 0x7fff_ffff_ffff_ffff then 0x7fff_ffff_ffff_ffff
    else v
  }

  /** Storing a `long` through a 32-bit `int`, or computing with one. */
  function ToInt32(v: int): (r: int)
    ensures -0x8000_0000 <= r < 0x8000_0000
    ensures -0x8000_0000 <= v < 0x8000_0000 ==> r == v
  {
    (v + 0x8000_0000) % 0x1_0000_0000 - 0x8000_0000
  }
}
