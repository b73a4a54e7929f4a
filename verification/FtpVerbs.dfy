/** The command dispatch of `ProtocolFtp::startProtocol`: a chain of substring tests in table order. */
module FtpVerbs {
  import opened Text

  const COUNT := 51

  /** The verbs, in the order they are tested. */
  function Verb(i: nat): string
    requires i < COUNT
  {
    match i
    case 0 => "ABOR" case 1 => "ACCT" case 2 => "ADAT" case 3 => "ALLO" case 4 => "APPE" case 5 => "AUTH"
    case 6 => "CCC" case 7 => "CDUP" case 8 => "CONF" case 9 => "CWD" case 10 => "DELE" case 11 => "ENC"
    case 12 => "EPRT" case 13 => "EPSV" case 14 => "FEAT" case 15 => "LANG" case 16 => "LIST" case 17 => "LPRT"
    case 18 => "LPSV" case 19 => "MDTM" case 20 => "MIC" case 21 => "MKD" case 22 => "MLSD" case 23 => "MLST"
    case 24 => "MODE" case 25 => "NLST" case 26 => "NOOP" case 27 => "OPTS" case 28 => "PASS" case 29 => "PASV"
    case 30 => "PBSZ" case 31 => "PORT" case 32 => "PROT" case 33 => "PWD" case 34 => "QUIT" case 35 => "REIN"
    case 36 => "REST" case 37 => "RETR" case 38 => "RMD" case 39 => "RNFR" case 40 => "RNTO" case 41 => "SITE"
    case 42 => "SIZE" case 43 => "SMNT" case 44 => "STAT" case 45 => "STOR" case 46 => "STOU" case 47 => "STRU"
    case 48 => "SYST" case 49 => "TYPE" case _ => "USER"
  }

  /** The first verb of the table, from position `i` on, that occurs anywhere in the line. */
  function FirstVerb(line: string, i: nat): (r: nat)
    requires i <= COUNT
    ensures i <= r <= COUNT
    ensures forall j :: i <= j < r ==> !Contains(line, Verb(j))
    ensures r < COUNT ==> Contains(line, Verb(r))
    decreases COUNT - i, |line|
  {
    if i == COUNT || Contains(line, Verb(i)) then i else FirstVerb(line, i + 1)
  }

  /** The verb whose handler the line is given to. */
  function Dispatch(line: string): Option<string> {
    var k := FirstVerb(line, 0);
    if k < COUNT then Some(Verb(k)) else None
  }

  // ---------- the table ----------

  predicate IsUpper(c: char) { 'A' <= c <= 'Z' }

  predicate IsWord(w: string) {
    3 <= |w| <= 4 && IsUpper(w[0]) && IsUpper(w[1]) && IsUpper(w[2]) && (|w| == 4 ==> IsUpper(w[3]))
  }

  /** Words as numbers, letter by letter. */
  function Three(a: char, b: char, c: char): int { (a as int * 100 + b as int) * 100 + c as int }

  function Key(w: string): int
    requires IsWord(w)
  {
    Three(w[0], w[1], w[2]) * 100 + if |w| == 4 then w[3] as int else 0
  }

  // CCC, CWD, ENC, MIC, MKD, PWD, RMD
  const SHORT := {676767, 678768, 697867, 777367, 777568, 808768, 827768}

  lemma VerbIsWord(i: nat)
    requires i < COUNT
    ensures IsWord(Verb(i))
  {}

  lemma SortedLow(i: nat)
    requires i < 25 && IsWord(Verb(i)) && IsWord(Verb(i + 1))
    ensures Key(Verb(i)) < Key(Verb(i + 1))
  {}

  lemma SortedHigh(i: nat)
    requires 25 <= i < 50 && IsWord(Verb(i)) && IsWord(Verb(i + 1))
    ensures Key(Verb(i)) < Key(Verb(i + 1))
  {}

  /** No four-letter verb starts or ends with a three-letter one. */
  predicate Apart(w: string) {
    IsWord(w) &&
    if |w| == 3 then Three(w[0], w[1], w[2]) in SHORT
    else Three(w[0], w[1], w[2]) !in SHORT && Three(w[1], w[2], w[3]) !in SHORT
  }

  lemma ApartLow(i: nat)
    requires i < 25
    ensures Apart(Verb(i))
  {}

  lemma ApartHigh(i: nat)
    requires 25 <= i < COUNT
    ensures Apart(Verb(i))
  {}

  lemma {:induction false} Sorted(i: nat, j: nat)
    requires i < j < COUNT
    ensures IsWord(Verb(i)) && IsWord(Verb(j)) && Key(Verb(i)) < Key(Verb(j))
    decreases j - i
  {
    VerbIsWord(i);
    VerbIsWord(i + 1);
    if i < 25 {
      SortedLow(i);
    } else {
      SortedHigh(i);
    }
    if i + 1 < j {
      Sorted(i + 1, j);
    }
  }

  lemma ContainsItself(w: string)
    ensures Contains(w, w)
  {
    assert w[0..|w|] == w && Occurs(w, w, 0);
  }

  lemma OccursLetters(s: string, w: string, i: int)
    requires Occurs(s, w, i)
    ensures forall p :: i <= p < i + |w| ==> s[p] == w[p - i]
  {
    var m := s[i..i + |w|];
    assert forall p :: i <= p < i + |w| ==> s[p] == m[p - i];
  }

  lemma InWord(w: string, u: string)
    requires Apart(w) && Apart(u) && Contains(w, u)
    ensures w == u
  {
    var i :| 0 <= i <= |w| - |u| && Occurs(w, u, i);
    OccursLetters(w, u, i);
    assert w[i] == u[0] && w[i + 1] == u[1] && w[i + 2] == u[2];
    assert i == 0 || i == 1;
  }

  /** No verb of the table occurs in another. */
  lemma NoVerbInAnother(i: nat, j: nat)
    requires i < COUNT && j < COUNT
    ensures Contains(Verb(i), Verb(j)) <==> i == j
  {
    var w, u := Verb(i), Verb(j);
    ContainsItself(w);
    if i < 25 { ApartLow(i); } else { ApartHigh(i); }
    if j < 25 { ApartLow(j); } else { ApartHigh(j); }
    if i != j && Contains(w, u) {
      InWord(w, u);
      Sorted(if i < j then i else j, if i < j then j else i);
      assert false;
    }
  }

  // ---------- dispatch ----------

  lemma OccursAcross(a: string, sep: char, b: string, w: string, i: int)
    requires IsWord(w) && !IsUpper(sep) && Occurs(a + [sep] + b, w, i)
    ensures Occurs(a, w, i) || Occurs(b, w, i - |a| - 1)
  {
    var s := a + [sep] + b;
    OccursLetters(s, w, i);
    assert s[|a|] == sep;
    forall p | i <= p < i + |w| ensures s[p] != sep {
      assert IsUpper(w[p - i]);
    }
    if i + |w| <= |a| {
      assert s[i..i + |w|] == a[i..i + |w|];
    } else {
      assert i > |a|;
      assert s[i..i + |w|] == b[i - |a| - 1..i - |a| - 1 + |w|];
    }
  }

  lemma ContainsAcross(a: string, sep: char, b: string, w: string)
    requires IsWord(w) && !IsUpper(sep)
    ensures Contains(a + [sep] + b, w) <==> Contains(a, w) || Contains(b, w)
  {
    var s := a + [sep] + b;
    if Contains(a, w) {
      var i :| 0 <= i <= |a| - |w| && Occurs(a, w, i);
      assert s[i..i + |w|] == a[i..i + |w|];
      assert Occurs(s, w, i);
    }
    if Contains(b, w) {
      var i :| 0 <= i <= |b| - |w| && Occurs(b, w, i);
      assert s[|a| + 1 + i..|a| + 1 + i + |w|] == b[i..i + |w|];
      assert Occurs(s, w, |a| + 1 + i);
    }
    if Contains(s, w) {
      var i :| 0 <= i <= |s| - |w| && Occurs(s, w, i);
      OccursAcross(a, sep, b, w, i);
    }
  }

  /** A line made of a verb, a character that is no capital, and an argument is given to that verb's
      handler exactly when no verb listed before it occurs anywhere in the argument. */
  lemma DispatchIsExact(k: nat, sep: char, arg: string)
    requires k < COUNT && !IsUpper(sep)
    ensures FirstVerb(Verb(k) + [sep] + arg, 0) == k
       <==> forall j :: 0 <= j < k ==> !Contains(arg, Verb(j))
    ensures (forall j :: 0 <= j < k ==> !Contains(arg, Verb(j))) ==>
      Dispatch(Verb(k) + [sep] + arg) == Some(Verb(k))
  {
    var line := Verb(k) + [sep] + arg;
    forall j | 0 <= j <= k ensures Contains(line, Verb(j)) <==> j == k || Contains(arg, Verb(j)) {
      VerbIsWord(j);
      ContainsAcross(Verb(k), sep, arg, Verb(j));
      NoVerbInAnother(k, j);
    }
  }

  /** Storing a file named PORTFOLIO is not dispatched as STOR: the name holds an earlier verb. */
  lemma StorPortfolioIsNotStor(stor: nat, port: nat, name: string)
    requires stor < COUNT && port < COUNT && Verb(stor) == "STOR" && Verb(port) == "PORT" && name == "PORTFOLIO"
    ensures FirstVerb(Verb(stor) + [' '] + name, 0) != stor
  {
    assert Key(Verb(port)) < Key(Verb(stor));
    if stor < port {
      Sorted(stor, port);
    }
    assert name[0..4] == Verb(port) && Occurs(name, Verb(port), 0);
    DispatchIsExact(stor, ' ', name);
  }
}
