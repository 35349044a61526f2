/** What every text is made of, what is erased as trailer, and what becomes of a message that has not ended
    where the text ends. */
module FramingEnds {
  import opened Framing
  import opened FramingLaws
  import opened FramingLimits
  import opened Text

  // ----- Every text is its messages, what was skipped between them, and what is left over -----

  // The messages of a text: those that were closed, and one whose trailer the end of the text has cut after
  // a carriage return.
  function Messages(m: Machine): seq<Piece> {
    match m.mode
    case Tail(line, body, trailer, crs) => if crs > 0 then m.out + [Piece(m.gap, line, body, trailer)] else m.out
    case _ => m.out
  }

  function LeftOver(m: Machine): string
    requires Sane(m.mode)
  {
    if m.mode.Tail? && m.mode.crs > 0 then "" else m.gap + Pending(m.mode)
  }

  predicate Cut(p: Piece, crs: nat) {
    crs > 0 && WellTail(p.body, p.trailer, crs)
  }

  ghost predicate WellCut(p: Piece) {
    WellLine(p.line) && exists crs: nat :: Cut(p, crs)
  }

  // On every input: the bodies handed over are disjoint slices in increasing order, with nothing lost or made
  // up in between; each piece has the shape of a message, and only one at the very end may lack its line feed.
  lemma TextAccountedFor(s: string)
    ensures var m := Run(START, s);
      var messages := Messages(m);
      && Deframe(s).bodies == Bodies(messages)
      && s == Woven(messages) + LeftOver(m)
      && forall i | 0 <= i < |messages| ::
           WellPiece(messages[i]) || (i == |messages| - 1 && LeftOver(m) == "" && WellCut(messages[i]))
  {
    hide Run, WellPiece, WellTail, WellLine, Kept, Woven, Pending;
    var m := Run(START, s);
    RunKeeps(START, s);
    RunWell(s);
    StartKept(s);
    MessagesKept(m);
    MessagesAreBodies(m);
    if m.mode.Tail? && m.mode.crs > 0 {
      assert Cut(Messages(m)[|m.out|], m.mode.crs);
    }
  }

  lemma StartKept(s: string)
    ensures Kept(START) + s == s
  {
  }

  lemma MessagesKept(m: Machine)
    requires Sane(m.mode)
    ensures Kept(m) == Woven(Messages(m)) + LeftOver(m)
  {
    if m.mode.Tail? && m.mode.crs > 0 {
      var Tail(line, body, trailer, crs) := m.mode;
      var p := Piece(m.gap, line, body, trailer);
      assert (m.out + [p])[..|m.out|] == m.out;
      assert Woven(m.out) + Whole(p) + "" == Woven(m.out) + m.gap + (line + body + trailer);
    } else {
      assert Woven(m.out) + (m.gap + Pending(m.mode)) == Woven(m.out) + m.gap + Pending(m.mode);
    }
  }

  lemma MessagesAreBodies(m: Machine)
    ensures Finish(m).bodies == Bodies(Messages(m))
  {
    if m.mode.Tail? && m.mode.crs > 0 {
      BodiesMore(m.out, Messages(m));
    } else if m.mode.Tail? {
      assert Bodies(m.out) + [] == Bodies(m.out);
    }
  }

  // ----- What is erased -----

  // The mark that ends a body: line ends and Ns, three line ends at least, NNNN last.
  predicate EndMark(mark: string) {
    |mark| >= 7 && Eols(mark) >= 3 && OccursAt("NNNN", mark, |mark| - 4)
  }

  lemma MarkMeaning(body: string, mark: string)
    requires WellMarked(body, mark)
    ensures EndMark(mark) && forall c | c in mark :: IsTrailerChar(c)
  {
    hide Scanned, Eols, Unmarked;
    var buf := body + mark;
    ScannedMeaning(buf);
    assert buf[|buf| - |mark|..] == mark;
    forall i | 0 <= i < |mark|
      ensures mark[i] == buf[|body| + i]
    {
    }
    EolsAndNs(mark, 4);
    LastFour(mark);
  }

  lemma {:induction false} EolsAndNs(s: string, n: nat)
    requires n <= |s| && forall i | |s| - n <= i < |s| :: s[i] == 'N'
    ensures Eols(s) + n <= |s|
    decreases |s|
  {
    if s != "" {
      EolsAndNs(s[..|s| - 1], if n > 0 then n - 1 else 0);
    }
  }

  lemma {:induction false} CrsAreEols(n: nat)
    ensures forall c | c in Crs(n) :: IsEol(c)
  {
    if n > 0 {
      CrsAreEols(n - 1);
    }
  }

  ghost predicate Erased(trailer: string, mark: string, crs: nat, lf: bool) {
    trailer == mark + Crs(crs) + (if lf then "\n" else "") && EndMark(mark) && (lf || crs > 0)
  }

  // What is erased of a message, whole or cut, is an end mark, the carriage returns after it and the line
  // feed; all of it N, CR or LF.
  lemma TrailerMeaning(p: Piece)
    requires WellPiece(p) || WellCut(p)
    ensures (forall c | c in p.trailer :: IsTrailerChar(c)) && exists mark, crs, lf :: Erased(p.trailer, mark, crs, lf)
  {
    hide WellMarked, Eols;
    if WellPiece(p) {
      var crs: nat :| Closed(p, crs);
      var t := p.trailer[..|p.trailer| - 1];
      TailMeaning(p.body, t, crs);
      assert p.trailer == t + "\n";
      assert Erased(p.trailer, t[..|t| - crs], crs, true);
    } else {
      var crs: nat :| Cut(p, crs);
      TailMeaning(p.body, p.trailer, crs);
      assert p.trailer == p.trailer + "";
      assert Erased(p.trailer, p.trailer[..|p.trailer| - crs], crs, false);
    }
  }

  lemma TailMeaning(body: string, trailer: string, crs: nat)
    requires WellTail(body, trailer, crs)
    ensures var mark := trailer[..|trailer| - crs]; EndMark(mark) && trailer == mark + Crs(crs)
    ensures forall c | c in trailer :: IsTrailerChar(c)
  {
    hide WellMarked, EndMark;
    var mark := trailer[..|trailer| - crs];
    MarkMeaning(body, mark);
    CrsAreEols(crs);
    assert trailer == mark + Crs(crs);
  }

  // ----- A message whose trailer is not complete where the text ends -----

  lemma {:induction false} NsPrefix(n: nat, k: nat)
    requires k <= n
    ensures Ns(n)[..k] == Ns(k)
  {
    if k < n {
      NsPrefix(n - 1, k);
      assert Ns(n)[..k] == Ns(n - 1)[..k];
    }
  }

  lemma {:induction false} CrsPrefix(n: nat, k: nat)
    requires k <= n
    ensures Crs(n)[..k] == Crs(k)
  {
    if k < n {
      CrsPrefix(n - 1, k);
      assert Crs(n)[..k] == Crs(n - 1)[..k];
    }
  }

  lemma ProperPrefix(a: string, b: string, c: string, last: string, t: string)
    requires t <= a + b + c + last && |last| == 1 && |t| < |a| + |b| + |c| + 1
    ensures |t| <= |a| ==> t == a[..|t|]
    ensures |a| < |t| < |a| + |b| ==> t == a + b[..|t| - |a|]
    ensures |a| + |b| <= |t| ==> |t| - |a| - |b| <= |c| && t == a + b + c[..|t| - |a| - |b|]
  {
    var s := a + b + c + last;
    assert t == s[..|t|];
  }

  // A proper beginning of a trailer is part of the pad, the pad and some Ns, or all of the mark and some
  // carriage returns.
  lemma TrailerCut(f: Frame, t: string)
    requires t <= Trailer(f) && t != Trailer(f)
    ensures |t| <= |f.pad| ==> t == f.pad[..|t|]
    ensures |f.pad| < |t| < |f.pad| + 4 ==> t == f.pad + Ns(|t| - |f.pad|)
    ensures |f.pad| + 4 <= |t| ==> |t| - |f.pad| - 4 <= f.crs && t == f.pad + Ns(4) + Crs(|t| - |f.pad| - 4)
  {
    hide Ns, Crs;
    ShorterPrefix(t, Trailer(f));
    ProperPrefix(f.pad, Ns(4), Crs(f.crs), "\n", t);
    if |f.pad| < |t| < |f.pad| + 4 {
      NsPrefix(4, |t| - |f.pad|);
    } else if |f.pad| + 4 <= |t| {
      CrsPrefix(f.crs, |t| - |f.pad| - 4);
    }
  }

  lemma ShorterPrefix(t: string, s: string)
    requires t <= s && t != s
    ensures |t| < |s|
  {
  }

  // The machine after a body and a trailer that is cut.
  lemma CutRuns(m: Machine, f: Frame, line: string, t: string)
    requires m.mode == Body(line, f.body) && Printable(f) && t <= Trailer(f) && t != Trailer(f)
    ensures var m' := Run(m, t);
      && m'.out == m.out
      && if |f.pad| + 4 <= |t|
         then m'.mode.Tail? && m'.mode.body == Stripped(f.body) && m'.mode.crs == |t| - |f.pad| - 4
         else m'.mode.Body?
  {
    hide Run, Scanned, Feed, Ns, Crs, Trailer;
    TrailerCut(f, t);
    if |t| <= |f.pad| {
      PadRuns(m, line, f.body, t);
    } else {
      PadRuns(m, line, f.body, f.pad);
      var m1 := Run(m, f.pad);
      if |t| < |f.pad| + 4 {
        NsRun(m1, line, f.body + f.pad, |t| - |f.pad|);
        RunAppend(m, f.pad, Ns(|t| - |f.pad|));
      } else {
        MarkFour(m1, line, f.body + f.pad);
        var m2 := Run(m1, Ns(4));
        var cut := |f.body| - Scanned(f.body).count;
        assert (f.body + f.pad + Ns(4))[..cut] == f.body[..cut];
        CrsRun(m2, line, Stripped(f.body), m2.mode.trailer, |t| - |f.pad| - 4);
        RunAppend(m, f.pad, Ns(4));
        RunAppend(m, f.pad + Ns(4), Crs(|t| - |f.pad| - 4));
      }
    }
  }

  // A last message whose trailer is cut short, or missing altogether, is handed over exactly when of the
  // trailer the pad, NNNN and at least one carriage return are there; otherwise it is dropped.
  lemma UnfinishedFrame(fs: seq<Frame>, f: Frame, t: string)
    requires (forall x | x in fs :: Printable(x)) && Printable(f) && t <= Trailer(f) && t != Trailer(f)
    ensures Deframe(PrintAll(fs) + (Opened(f) + t)) ==
      Decoded(StrippedBodies(fs) + if f.pad + Ns(4) + "\r" <= t then [Stripped(f.body)] else [], false)
  {
    hide Run, Printable, Opened, PrintAll, Trailer;
    FramesRun(fs);
    var m := Run(START, PrintAll(fs));
    FrameOpens(m, f);
    var m1 := Run(m, Opened(f));
    CutRuns(m1, f, ZCZC + f.header, t);
    RunAppend(START, PrintAll(fs), Opened(f) + t);
    RunAppend(m, Opened(f), t);
    MarkAndReturn(f, t);
  }

  lemma MarkAndReturn(f: Frame, t: string)
    requires t <= Trailer(f) && t != Trailer(f)
    ensures f.pad + Ns(4) + "\r" <= t <==> |t| > |f.pad| + 4
  {
    hide Ns, Crs;
    TrailerCut(f, t);
    if |t| > |f.pad| + 4 {
      var n := |t| - |f.pad| - 4;
      CrsPrefix(n, 1);
      OneCr();
      assert t[..|f.pad| + 5] == f.pad + Ns(4) + Crs(n)[..1];
    }
  }

  lemma OneCr()
    ensures Crs(1) == "\r"
  {
    assert Crs(0) == "";
  }

  // ----- Which texts the source gives a meaning to -----

  // The length of the run of Ns a text ends in.
  function NRun(s: string): nat {
    if s == "" || s[|s| - 1] != 'N' then 0 else NRun(s[..|s| - 1]) + 1
  }

  // The counter for NNNN starts afresh with every fifth N.
  lemma {:induction false} ScannedNs(s: string)
    ensures Scanned(s).n == NRun(s) % 5
  {
    if s != "" {
      ScannedNs(s[..|s| - 1]);
    }
  }

  lemma {:induction false} NRunBehind(a: string, b: string)
    requires b != "" && b[0] != 'N'
    ensures NRun(a + b) == NRun(b)
    decreases |b|
  {
    var s := a + b;
    if b[|b| - 1] == 'N' {
      assert |b| > 1 && s[..|s| - 1] == a + b[..|b| - 1];
      NRunBehind(a, b[..|b| - 1]);
    }
  }

  predicate InBody(s: string) {
    Run(START, s).mode.Body?
  }

  // In a body the run of Ns is that of the text as a whole, for the line before it ends in a line feed.
  lemma BodyNs(s: string)
    requires InBody(s)
    ensures NRun(Run(START, s).mode.buf) == NRun(s)
  {
    hide Run, WellPiece, NRun;
    var m := Run(START, s);
    RunKeeps(START, s);
    RunWell(s);
    StartKept(s);
    var Body(line, buf) := m.mode;
    var front := Woven(m.out) + m.gap + line[..|line| - 1];
    assert line == line[..|line| - 1] + "\n";
    assert s == front + ("\n" + buf);
    NRunBehind(front, "\n" + buf);
    NRunAfterEol(buf);
  }

  lemma {:induction false} NRunAfterEol(buf: string)
    ensures NRun("\n" + buf) == NRun(buf)
    decreases |buf|
  {
    var s := "\n" + buf;
    if buf == "" {
      assert s == "\n";
    } else {
      assert s[..|s| - 1] == "\n" + buf[..|buf| - 1];
      NRunAfterEol(buf[..|buf| - 1]);
    }
  }

  lemma PastMarkMeans(s: string, c: char)
    ensures PastMark(Run(START, s).mode, c) <==> c == '\0' && InBody(s) && NRun(s) % 5 == 4
  {
    hide Run, Scanned, NRun;
    if InBody(s) {
      BodyNs(s);
      ScannedNs(Run(START, s).mode.buf);
    }
  }

  // The source stays within "NNNN" on exactly those texts in which no NUL stands in a body after four, nine,
  // fourteen ... Ns in a row.
  lemma DefinedExactly(s: string)
    ensures Defined(START, s) <==>
      forall i: nat | i < |s| && s[i] == '\0' && InBody(s[..i]) :: NRun(s[..i]) % 5 != 4
  {
    hide Run, PastMark, Feed, Defined, InBody, NRun;
    DefinedOver(s);
    forall i: nat | i < |s|
      ensures PastMark(Run(START, s[..i]).mode, s[i]) <==> s[i] == '\0' && InBody(s[..i]) && NRun(s[..i]) % 5 == 4
    {
      PastMarkMeans(s[..i], s[i]);
    }
  }

  lemma {:induction false} DefinedOver(s: string)
    ensures Defined(START, s) <==> forall i: nat | i < |s| :: !PastMark(Run(START, s[..i]).mode, s[i])
    decreases |s|
  {
    hide Run, PastMark, Feed, Defined;
    if s == "" {
      DefinedNone(START);
    } else {
      var s', c := s[..|s| - 1], s[|s| - 1];
      DefinedOver(s');
      assert s == s' + [c];
      DefinedAppend(START, s', [c]);
      DefinedOne(Run(START, s'), c);
      assert forall i: nat | i < |s'| :: s'[..i] == s[..i] && s'[i] == s[i];
    }
  }

  lemma DefinedNone(m: Machine)
    requires Sane(m.mode)
    ensures Defined(m, "")
  {
  }

  lemma DefinedOne(m: Machine, c: char)
    requires Sane(m.mode)
    ensures Defined(m, [c]) <==> !PastMark(m.mode, c)
  {
    hide Feed, PastMark;
    assert [c][1..] == "";
  }

  lemma {:induction false} DefinedAlike(m1: Machine, m2: Machine, pre: seq<string>, s: string)
    requires Alike(m1, m2, pre)
    ensures Defined(m1, s) <==> Defined(m2, s)
    decreases |s|
  {
    hide Feed, Scanned;
    if s != "" {
      FeedAlike(m1, m2, pre, s[0]);
      DefinedAlike(Feed(m1, s[0]), Feed(m2, s[0]), pre, s[1..]);
    }
  }

  // After a text that leaves the decoder idle the rest is as well defined as on its own.
  lemma IdleDefined(a: string, b: string)
    requires Run(START, a).mode == Seek(0)
    ensures Defined(START, a + b) <==> Defined(START, a) && Defined(START, b)
  {
    hide Run, Defined;
    DefinedAppend(START, a, b);
    var m := Run(START, a);
    assert Bodies(m.out) == Bodies(m.out) + Bodies([]);
    DefinedAlike(m, START, Bodies(m.out), b);
  }

  // So every text in which no NUL follows NNNN has one.
  lemma NoNulDefined(s: string)
    requires forall i: nat :: !OccursAt("NNNN\0", s, i)
    ensures Defined(START, s)
  {
    hide Run, Scanned, Feed, Defined;
    DefinedOver(s);
    forall i: nat | i < |s|
      ensures !PastMark(Run(START, s[..i]).mode, s[i])
    {
      var m := Run(START, s[..i]);
      if PastMark(m.mode, s[i]) {
        RunKeeps(START, s[..i]);
        StartKept(s[..i]);
        var buf := m.mode.buf;
        MarkAtEnd(buf);
        assert Woven(m.out) + m.gap + (m.mode.line + buf) == (Woven(m.out) + m.gap + m.mode.line) + buf;
        assert s[..i] == (Woven(m.out) + m.gap + m.mode.line) + buf;
        NulAfterMark(s, i, Woven(m.out) + m.gap + m.mode.line, buf);
      }
    }
  }

  lemma NulAfterMark(s: string, i: nat, front: string, buf: string)
    requires i < |s| && s[..i] == front + buf && s[i] == '\0' && |buf| >= 4 && OccursAt("NNNN", buf, |buf| - 4)
    ensures i >= 4 && OccursAt("NNNN\0", s, i - 4)
  {
    assert s[i - 4..i + 1] == s[..i][i - 4..] + [s[i]];
    assert (front + buf)[i - 4..] == buf[|buf| - 4..];
  }
}
