/** The patterns of the bulletin code, piece by piece: a text is recognised exactly if it is put together from
    the pieces of the pattern, and taken apart into these. */
module Recognisers {
  import opened Text
  import opened Bulletins

  // ----- Runs of a class -----

  predicate All(s: string, p: char -> bool) {
    forall c | c in s :: p(c)
  }

  predicate AllBlank(s: string) {
    forall c | c in s :: c == ' '
  }

  lemma {:induction false} LeadingOf(a: string, b: string, p: char -> bool)
    requires All(a, p)
    ensures Leading(a + b, p) == |a| + Leading(b, p)
    decreases |a|
  {
    if a == "" {
      assert a + b == b;
    } else {
      assert a[0] in a && (a + b)[0] == a[0] && (a + b)[1..] == a[1..] + b;
      assert forall c | c in a[1..] :: c in a;
      LeadingOf(a[1..], b, p);
    }
  }

  // A run in front makes no difference to what comes after it.
  lemma AfterMore(a: string, b: string, p: char -> bool)
    requires All(a, p)
    ensures AfterRun(a + b, p) == AfterRun(b, p)
  {
    hide Leading;
    LeadingOf(a, b, p);
  }

  lemma AfterOther(b: string, p: char -> bool)
    requires b == "" || !p(b[0])
    ensures AfterRun(b, p) == b
  {
  }

  lemma AfterAll(s: string, p: char -> bool)
    ensures AfterRun(s, p) == "" <==> All(s, p)
  {
    var run := CutRun(s, p);
    assert run + "" == run;
    if All(s, p) {
      AfterMore(s, "", p);
      assert s + "" == s;
    }
  }

  lemma CutRun(s: string, p: char -> bool) returns (run: string)
    ensures All(run, p) && s == run + AfterRun(s, p)
    ensures var t := AfterRun(s, p); t == "" || !p(t[0])
  {
    var n := Leading(s, p);
    run := s[..n];
    forall c | c in run
      ensures p(c)
    {
      var i :| 0 <= i < n && run[i] == c;
    }
  }

  lemma SpacesMore(a: string, b: string)
    requires AllBlank(a)
    ensures Spaces(a + b) == |a| + Spaces(b) && AfterSpaces(a + b) == AfterSpaces(b)
  {
    hide Leading;
    LeadingOf(a, b, c => c == ' ');
  }

  lemma SpacesOther(b: string)
    requires b == "" || b[0] != ' '
    ensures Spaces(b) == 0 && AfterSpaces(b) == b
  {
  }

  lemma CutSpaces(s: string) returns (run: string)
    ensures AllBlank(run) && s == run + AfterSpaces(s)
    ensures var t := AfterSpaces(s); t == "" || t[0] != ' '
  {
    run := CutRun(s, c => c == ' ');
  }

  lemma BlankIsSpace(s: string)
    requires AllBlank(s)
    ensures All(s, IsSpace)
  {
  }

  // ----- NIL -----

  // Space, a number or none, blanks, NIL, blanks, "=" or nothing, and space.
  ghost predicate NilText(s: string) {
    exists a, n, b, c, e, z :: NilOf(s, a, n, b, c, e, z)
  }

  predicate NilOf(s: string, a: string, n: string, b: string, c: string, e: string, z: string) {
    && s == a + (n + (b + ("NIL" + (c + (e + z)))))
    && All(a, IsSpace) && All(n, IsDigit) && AllBlank(b) && AllBlank(c) && (e == "" || e == "=") && All(z, IsSpace)
  }

  lemma NilTaken(s: string)
    requires SynopIsNil(s)
    ensures NilText(s)
  {
    hide AfterRun, AfterSpaces, IsSpace, IsDigit, All, AllBlank;
    var a := CutRun(s, IsSpace);
    var s1 := AfterRun(s, IsSpace);
    var n := CutRun(s1, IsDigit);
    var s2 := AfterRun(s1, IsDigit);
    var b := CutSpaces(s2);
    var t := AfterSpaces(s2);
    assert t == "NIL" + t[3..];
    var c := CutSpaces(t[3..]);
    var u := AfterSpaces(t[3..]);
    var e := if u != "" && u[0] == '=' then "=" else "";
    var z := if u != "" && u[0] == '=' then u[1..] else u;
    assert u == e + z;
    AfterAll(z, IsSpace);
    assert NilOf(s, a, n, b, c, e, z);
  }

  lemma NilStart(a: string, n: string, b: string, t: string)
    requires All(a, IsSpace) && All(n, IsDigit) && AllBlank(b) && "N" <= t
    ensures AfterSpaces(AfterRun(AfterRun(a + (n + (b + t)), IsSpace), IsDigit)) == t
  {
    hide AfterRun, AfterSpaces;
    AfterMore(a, n + (b + t), IsSpace);
    if n == "" {
      assert n + (b + t) == b + t;
      BlankIsSpace(b);
      AfterMore(b, t, IsSpace);
      AfterOther(t, IsSpace);
      AfterOther(t, IsDigit);
    } else {
      assert n[0] in n;
      AfterOther(n + (b + t), IsSpace);
      AfterMore(n, b + t, IsDigit);
      assert b != "" ==> b[0] in b;
      AfterOther(b + t, IsDigit);
    }
    assert "" + t == t;
    SpacesMore(b, t);
    SpacesMore("", t);
    SpacesOther(t);
  }

  lemma NilEnd(c: string, e: string, z: string)
    requires AllBlank(c) && (e == "" || e == "=") && All(z, IsSpace)
    ensures var u := AfterSpaces(c + (e + z));
      AfterRun(if u != "" && u[0] == '=' then u[1..] else u, IsSpace) == ""
  {
    hide AfterRun, AfterSpaces;
    SpacesMore(c, e + z);
    if e == "=" {
      SpacesOther(e + z);
      assert (e + z)[1..] == z;
      AfterAll(z, IsSpace);
    } else {
      assert e + z == z;
      var run := CutSpaces(z);
      var u := AfterSpaces(z);
      assert forall x | x in u :: x in z;
      assert u != "" ==> u[0] in u;
      AfterAll(u, IsSpace);
    }
  }

  // Which reports are NIL.
  lemma NilExactly(s: string)
    ensures SynopIsNil(s) <==> NilText(s)
  {
    hide SynopIsNil;
    if SynopIsNil(s) {
      NilTaken(s);
    }
    if a, n, b, c, e, z :| NilOf(s, a, n, b, c, e, z) {
      NilRead(a, n, b, c, e, z);
    }
  }

  lemma NilRead(a: string, n: string, b: string, c: string, e: string, z: string)
    requires All(a, IsSpace) && All(n, IsDigit) && AllBlank(b)
    requires AllBlank(c) && (e == "" || e == "=") && All(z, IsSpace)
    ensures SynopIsNil(a + (n + (b + ("NIL" + (c + (e + z))))))
  {
    hide AfterRun, AfterSpaces, IsSpace, IsDigit, All, AllBlank;
    var t := "NIL" + (c + (e + z));
    NilStart(a, n, b, t);
    assert t[3..] == c + (e + z);
    NilEnd(c, e, z);
  }

  // ----- Headings -----

  // S and one of some letters, four word characters, a word, a number and a word or none, with blanks between
  // and before them.
  ghost predicate HeadingText(s: string, second: string) {
    exists b0, x, four, b1, w, b2, n, b3, v :: HeadingOf(s, second, b0, x, four, b1, w, b2, n, b3, v)
  }

  predicate HeadingOf(s: string, second: string, b0: string, x: char, four: string, b1: string, w: string,
                      b2: string, n: string, b3: string, v: string)
  {
    && s == b0 + ("S" + [x] + (four + (b1 + (w + (b2 + (n + (b3 + v)))))))
    && AllBlank(b0) && x in second && |four| == 4 && All(four, IsWord)
    && AllBlank(b1) && b1 != "" && All(w, IsWord) && w != "" && AllBlank(b2) && b2 != ""
    && All(n, IsDigit) && n != "" && AllBlank(b3) && All(v, IsWord)
  }

  lemma HeadingTaken(s: string, second: string)
    requires IsHeading(s, second)
    ensures HeadingText(s, second)
  {
    hide AfterRun, AfterSpaces, IsWord, IsDigit, HeadingTail;
    var b0 := CutSpaces(s);
    var t := AfterSpaces(s);
    var four, b1, w, b2, n, b3, v := TailTaken(t[2..]);
    assert t == "S" + [t[1]] + t[2..];
    assert HeadingOf(s, second, b0, t[1], four, b1, w, b2, n, b3, v);
  }

  predicate TailOf(s: string, four: string, b1: string, w: string, b2: string, n: string, b3: string, v: string) {
    && s == four + (b1 + (w + (b2 + (n + (b3 + v)))))
    && |four| == 4 && All(four, IsWord) && AllBlank(b1) && b1 != "" && All(w, IsWord) && w != "" && AllBlank(b2)
    && b2 != "" && All(n, IsDigit) && n != "" && AllBlank(b3) && All(v, IsWord)
  }

  lemma TailTaken(s: string)
    returns (four: string, b1: string, w: string, b2: string, n: string, b3: string, v: string)
    requires HeadingTail(s)
    ensures TailOf(s, four, b1, w, b2, n, b3, v)
  {
    hide AfterRun, AfterSpaces, IsWord, IsDigit, AllBlank;
    four := s[..4];
    b1 := CutSpaces(s[4..]);
    var b := AfterSpaces(s[4..]);
    w := CutRun(b, IsWord);
    var c := AfterRun(b, IsWord);
    b2 := CutSpaces(c);
    var d := AfterSpaces(c);
    n := CutRun(d, IsDigit);
    var e := AfterRun(d, IsDigit);
    b3 := CutSpaces(e);
    v := AfterSpaces(e);
    AfterAll(v, IsWord);
    assert s == four + s[4..];
  }

  // Blanks and a word, a part of which may have been taken for digits.
  lemma WordsOnly(b3: string, v: string)
    requires AllBlank(b3) && All(v, IsWord)
    ensures AfterRun(AfterSpaces(AfterRun(b3 + v, IsDigit)), IsWord) == ""
  {
    hide AfterRun, AfterSpaces;
    if b3 != "" {
      assert b3[0] in b3;
      AfterOther(b3 + v, IsDigit);
      SpacesMore(b3, v);
      NoSpaces(v);
      AfterAll(v, IsWord);
    } else {
      assert b3 + v == v;
      var run := CutRun(v, IsDigit);
      var e := AfterRun(v, IsDigit);
      assert forall x | x in e :: x in v;
      NoSpaces(e);
      AfterAll(e, IsWord);
    }
  }

  lemma NoSpaces(v: string)
    requires All(v, IsWord)
    ensures AfterSpaces(v) == v
  {
    assert v != "" ==> v[0] in v;
    SpacesOther(v);
  }

  lemma DigitNotBlank(n: string)
    requires All(n, IsDigit) && n != ""
    ensures n[0] != ' '
  {
    assert n[0] in n;
  }

  lemma WordNotBlank(w: string)
    requires All(w, IsWord) && w != ""
    ensures w[0] != ' '
  {
    assert w[0] in w;
  }

  lemma BlankNoWord(b: string)
    requires AllBlank(b) && b != ""
    ensures !IsWord(b[0])
  {
    assert b[0] in b;
  }

  lemma TailRead(four: string, b1: string, w: string, b2: string, n: string, b3: string, v: string)
    requires |four| == 4 && All(four, IsWord) && AllBlank(b1) && b1 != "" && All(w, IsWord) && w != "" && AllBlank(b2)
    requires b2 != "" && All(n, IsDigit) && n != "" && AllBlank(b3) && All(v, IsWord)
    ensures HeadingTail(four + (b1 + (w + (b2 + (n + (b3 + v))))))
  {
    hide AfterRun, AfterSpaces, IsWord, IsDigit, AllBlank;
    var d := n + (b3 + v);
    var c := b2 + d;
    var b := w + c;
    var s := four + (b1 + b);
    assert s[4..] == b1 + b;
    assert forall i | 0 <= i < 4 :: s[i] == four[i] && four[i] in four;
    SpacesMore(b1, b);
    WordNotBlank(w);
    SpacesOther(b);
    AfterMore(w, c, IsWord);
    BlankNoWord(b2);
    AfterOther(c, IsWord);
    SpacesMore(b2, d);
    DigitNotBlank(n);
    SpacesOther(d);
    AfterMore(n, b3 + v, IsDigit);
    WordsOnly(b3, v);
  }

  // Which lines are headings.
  lemma HeadingExactly(s: string, second: string)
    ensures IsHeading(s, second) <==> HeadingText(s, second)
  {
    hide IsHeading;
    if IsHeading(s, second) {
      HeadingTaken(s, second);
    }
    if b0, x, four, b1, w, b2, n, b3, v :| HeadingOf(s, second, b0, x, four, b1, w, b2, n, b3, v) {
      HeadingRead(second, b0, x, four, b1, w, b2, n, b3, v);
    }
  }

  lemma HeadingRead(second: string, b0: string, x: char, four: string, b1: string, w: string, b2: string, n: string,
                    b3: string, v: string)
    requires AllBlank(b0) && x in second && |four| == 4 && All(four, IsWord) && AllBlank(b1) && b1 != ""
    requires All(w, IsWord) && w != "" && AllBlank(b2) && b2 != ""
    requires All(n, IsDigit) && n != "" && AllBlank(b3) && All(v, IsWord)
    ensures IsHeading(b0 + ("S" + [x] + (four + (b1 + (w + (b2 + (n + (b3 + v))))))), second)
  {
    hide AfterRun, AfterSpaces, IsWord, IsDigit, AllBlank, HeadingTail;
    var tail := four + (b1 + (w + (b2 + (n + (b3 + v)))));
    var t := "S" + [x] + tail;
    TailRead(four, b1, w, b2, n, b3, v);
    SpacesMore(b0, t);
    SpacesOther(t);
    assert t[2..] == tail;
  }

  // A SYNOP heading begins with SI, SM or SN, a METAR heading with SA or SP.
  lemma KindExactly(s: string)
    ensures HasHeading(SYNOP, s) <==> HeadingText(s, "IMN")
    ensures HasHeading(METAR, s) <==> HeadingText(s, "AP")
  {
    hide IsHeading, HeadingText;
    HeadingExactly(s, "IMN");
    HeadingExactly(s, "AP");
  }

  // ----- Identifiers -----

  // Blanks and one of the two words; what follows is the report.
  lemma MetarRead(b0: string, w: string, rest: string)
    requires AllBlank(b0) && (w == "METAR" || w == "SPECI")
    ensures MetarType(b0 + (w + rest)) == Parsed(w, false, rest)
  {
    var s := b0 + (w + rest);
    SpacesMore(b0, w + rest);
    SpacesOther(w + rest);
    assert s[|b0|..|b0| + 5] == w && s[|b0| + 5..] == rest;
  }

  ghost predicate MetarText(s: string) {
    exists b0, w, rest :: AllBlank(b0) && (w == "METAR" || w == "SPECI") && s == b0 + (w + rest)
  }

  // Without these all of the text is the report, and there is no identifier.
  lemma MetarExactly(s: string)
    ensures MetarType(s).ident != "" <==> MetarText(s)
    ensures !MetarText(s) ==> MetarType(s) == Parsed("", false, s)
  {
    hide Spaces, AfterSpaces;
    if b0, w, rest :| AllBlank(b0) && (w == "METAR" || w == "SPECI") && s == b0 + (w + rest) {
      MetarRead(b0, w, rest);
    }
    var run := CutSpaces(s);
    SpacesAre(s);
    var a := Spaces(s);
    if a + 5 <= |s| && s[a..a + 5] in ["METAR", "SPECI"] {
      assert s == run + (s[a..a + 5] + s[a + 5..]);
    }
  }

  lemma SpacesAre(s: string)
    ensures AfterSpaces(s) == s[Spaces(s)..] && |AfterSpaces(s)| == |s| - Spaces(s)
  {
  }

  // A section, blanks, four digits and a character or nothing, blanks, and a word or nothing.
  predicate SectionPieces(b0: string, w: string, b1: string, t: string, b2: string, u: string, rest: string) {
    && AllBlank(b0) && (w == "AAXX" || w == "BBXX" || w == "OOXX") && AllBlank(b1) && AllBlank(b2) && All(u, IsWord)
    && (t == "" || (|t| == 5 && All(t[..4], IsDigit)))
    // each piece takes as much as it can
    && (t == "" ==> b2 == "" && !TimeGroupAt(u + rest, 0))
    && (rest != "" ==> !IsWord(rest[0]) && (u == "" ==> rest[0] != ' '))
  }

  lemma TimeShift(s: string, b: nat, t: string)
    requires b <= |s| && s[b..] == t
    ensures TimeGroupAt(s, b) <==> TimeGroupAt(t, 0)
  {
    assert forall i | 0 <= i < |t| :: t[i] == s[b + i];
  }

  lemma TimeIs(t: string, more: string)
    requires |t| == 5 && All(t[..4], IsDigit)
    ensures TimeGroupAt(t + more, 0)
  {
    var d := t[..4];
    assert d[0] in d && d[1] in d && d[2] in d && d[3] in d;
  }

  lemma WordAndRest(u: string, rest: string)
    requires All(u, IsWord) && (rest != "" ==> !IsWord(rest[0]) && (u == "" ==> rest[0] != ' '))
    ensures Spaces(u + rest) == 0 && Leading(u + rest, IsWord) == |u|
  {
    hide Spaces, Leading;
    if u != "" {
      WordNotBlank(u);
    }
    SpacesOther(u + rest);
    LeadingOf(u, rest, IsWord);
    NotLeading(rest);
  }

  lemma NotLeading(rest: string)
    requires rest == "" || !IsWord(rest[0])
    ensures Leading(rest, IsWord) == 0
  {
  }

  lemma TimeAndRest(t: string, b2: string, u: string, rest: string)
    requires SectionPieces("", "AAXX", "", t, b2, u, rest)
    ensures var s := t + (b2 + (u + rest)); Spaces(s) == 0 && (TimeGroupAt(s, 0) <==> t != "")
  {
    hide Spaces, Leading, IsWord;
    var s := t + (b2 + (u + rest));
    if t == "" {
      assert s == u + rest;
      WordAndRest(u, rest);
    } else {
      TimeIs(t, b2 + (u + rest));
      assert t[..4][0] in t[..4];
      SpacesOther(s);
    }
  }

  lemma Suffix(s: string, a: nat, x: string, y: string)
    requires a <= |s| && s[a..] == x + y
    ensures a + |x| <= |s| && s[a..a + |x|] == x && s[a + |x|..] == y
  {
    assert s[a..][|x|..] == s[a + |x|..] && s[a..][..|x|] == s[a..a + |x|];
  }

  lemma OfPieces(b0: string, w: string, b1: string, t: string, b2: string, u: string, rest: string)
    requires SectionPieces(b0, w, b1, t, b2, u, rest)
    ensures SectionPieces("", "AAXX", "", t, b2, u, rest)
    ensures |w| == 4 && w[0] != ' ' && (w[0] == 'O' <==> w == "OOXX")
  {
  }

  lemma SectionEnds(s: string, a: nat, b1: string, more: string)
    requires a + 4 <= |s| && s[a + 4..] == b1 + more && AllBlank(b1) && Spaces(more) == 0
    ensures AfterSection(s, a) == a + 4 + |b1| && s[a + 4 + |b1|..] == more
  {
    hide Spaces;
    SpacesMore(b1, more);
    Suffix(s, a + 4, b1, more);
  }

  lemma TimeEnds(s: string, b: nat, t: string, more: string)
    requires b <= |s| && s[b..] == t + more && |t| in {0, 5} && (TimeGroupAt(t + more, 0) <==> t != "")
    ensures AfterTime(s, b) == b + |t| && s[b + |t|..] == more
  {
    hide TimeGroupAt;
    TimeShift(s, b, t + more);
    Suffix(s, b, t, more);
  }

  lemma WordEnds(s: string, c: nat, b2: string, u: string, rest: string)
    requires c <= |s| && s[c..] == b2 + (u + rest) && AllBlank(b2) && Spaces(u + rest) == 0
    requires Leading(u + rest, IsWord) == |u|
    ensures WordEnd(s, WordStart(s, c)) == c + |b2| + |u| && s[c + |b2| + |u|..] == rest
  {
    hide Spaces, Leading;
    SpacesMore(b2, u + rest);
    Suffix(s, c, b2, u + rest);
    Suffix(s, c + |b2|, u, rest);
  }

  lemma IdentEnds(s: string, a: nat, b1: string, t: string, b2: string, u: string, rest: string)
    requires a + 4 <= |s| && s[a + 4..] == b1 + (t + (b2 + (u + rest)))
    requires AllBlank(b1) && SectionPieces("", "AAXX", "", t, b2, u, rest)
    ensures var e := a + 4 + |b1| + |t| + |b2| + |u|; IdentEnd(s, a) == e && s[e..] == rest
  {
    hide Spaces, IsWord, IsDigit, AllBlank, All, TimeGroupAt, Leading, AfterSection, AfterTime, WordStart, WordEnd;
    TimeAndRest(t, b2, u, rest);
    WordAndRest(u, rest);
    SectionEnds(s, a, b1, t + (b2 + (u + rest)));
    TimeEnds(s, a + 4 + |b1|, t, b2 + (u + rest));
    WordEnds(s, a + 4 + |b1| + |t|, b2, u, rest);
  }

  // A section line is taken apart into these pieces: identifier, mobile or not, and what follows.
  lemma SynopRead(b0: string, w: string, b1: string, t: string, b2: string, u: string, rest: string)
    requires SectionPieces(b0, w, b1, t, b2, u, rest)
    ensures SynopType(b0 + (w + (b1 + (t + (b2 + (u + rest)))))) == Parsed(w + b1 + t + b2 + u, w == "OOXX", rest)
  {
    hide Spaces, IdentEnd, TimeGroupAt, All, AllBlank, IsWord, IsDigit, SynopType;
    var more := b1 + (t + (b2 + (u + rest)));
    var s := b0 + (w + more);
    OfPieces(b0, w, b1, t, b2, u, rest);
    SpacesMore(b0, w + more);
    SpacesOther(w + more);
    Suffix(s, |b0|, w, more);
    IdentEnds(s, |b0|, b1, t, b2, u, rest);
    Rejoined(w, b1, t, b2, u, rest);
    Suffix(s, |b0|, w + b1 + t + b2 + u, rest);
    Typed(s, |b0|, w, w + b1 + t + b2 + u, rest);
  }

  lemma Rejoined(w: string, b1: string, t: string, b2: string, u: string, rest: string)
    ensures w + (b1 + (t + (b2 + (u + rest)))) == w + b1 + t + b2 + u + rest
    ensures |w + b1 + t + b2 + u| == |w| + |b1| + |t| + |b2| + |u|
  {
  }

  lemma Typed(s: string, a: nat, w: string, ident: string, rest: string)
    requires Spaces(s) == a && a + 4 <= |s| && s[a..a + 4] == w && w in ["AAXX", "BBXX", "OOXX"]
    requires IdentEnd(s, a) == a + |ident| <= |s| && s[a..a + |ident|] == ident && s[a + |ident|..] == rest
    ensures SynopType(s) == Parsed(ident, w == "OOXX", rest)
  {
    hide Spaces, IdentEnd;
    assert s[a] == w[0];
  }

  // Without a section in front all of the text is the report, and there is no identifier.
  ghost predicate SynopText(s: string) {
    exists b0, w, rest :: AllBlank(b0) && (w == "AAXX" || w == "BBXX" || w == "OOXX") && s == b0 + (w + rest)
  }

  lemma SectionFound(b0: string, w: string, rest: string)
    requires AllBlank(b0) && (w == "AAXX" || w == "BBXX" || w == "OOXX")
    ensures var s := b0 + (w + rest); Spaces(s) == |b0| && SectionAt(s, |b0|)
  {
    hide Spaces, AfterSpaces;
    SpacesMore(b0, w + rest);
    SpacesOther(w + rest);
    Suffix(b0 + (w + rest), |b0|, w, rest);
  }

  lemma SectionTyped(s: string)
    ensures SynopType(s).ident != "" <==> SectionAt(s, Spaces(s))
    ensures !SectionAt(s, Spaces(s)) ==> SynopType(s) == Parsed("", false, s)
  {
    hide Spaces, IdentEnd;
  }

  lemma SynopExactly(s: string)
    ensures SynopType(s).ident != "" <==> SynopText(s)
    ensures !SynopText(s) ==> SynopType(s) == Parsed("", false, s)
  {
    hide Spaces, AfterSpaces, SynopType;
    SectionTyped(s);
    if b0, w, rest :| AllBlank(b0) && (w == "AAXX" || w == "BBXX" || w == "OOXX") && s == b0 + (w + rest) {
      SectionFound(b0, w, rest);
    }
    var run := CutSpaces(s);
    SpacesAre(s);
    var a := Spaces(s);
    if SectionAt(s, a) {
      assert s == run + (s[a..a + 4] + s[a + 4..]);
    }
  }
}
