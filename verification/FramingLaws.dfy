/** What cutting bulletins out of a text guarantees: printing undone, safe places to cut, and the start matcher. */
module FramingLaws {
  import opened Framing
  import opened Text

  // ----- What the scanner's numbers mean -----

  function Eols(s: string): nat {
    if s == [] then 0 else Eols(s[..|s| - 1]) + (if IsEol(s[|s| - 1]) then 1 else 0)
  }

  lemma ScannedNext(s: string, c: char)
    ensures Scanned(s + [c]) == Step(Scanned(s), c)
  {
    assert (s + [c])[..|s|] == s;
  }

  lemma EolsNext(s: string, c: char)
    ensures Eols(s + [c]) == Eols(s) + (if IsEol(c) then 1 else 0)
  {
    assert (s + [c])[..|s|] == s;
  }

  predicate Meant(s: string, sc: Scan) {
    && sc.n <= 4 && sc.n <= sc.count <= |s|
    && (forall i | |s| - sc.count <= i < |s| :: IsTrailerChar(s[i]))
    && (forall i | |s| - sc.n <= i < |s| :: s[i] == 'N')
    && Eols(s[|s| - sc.count..]) == sc.rn
  }

  lemma MeantNext(s: string, sc: Scan, c: char)
    requires Meant(s, sc)
    ensures Meant(s + [c], Step(sc, c))
  {
    hide Eols;
    var t := s[|s| - sc.count..];
    EolsNext(t, c);
    assert (s + [c])[|s| - sc.count..] == t + [c];
    NoEols();
    assert (s + [c])[|s| + 1..] == "";
  }

  lemma NoEols()
    ensures Eols("") == 0
  {
  }

  lemma {:induction false} ScannedMeant(s: string)
    ensures Meant(s, Scanned(s))
  {
    hide Meant, Step;
    if s == "" {
      NothingMeant();
    } else {
      var s', c := s[..|s| - 1], s[|s| - 1];
      ScannedMeant(s');
      assert s == s' + [c];
      MeantNext(s', Scanned(s'), c);
    }
  }

  lemma NothingMeant()
    ensures Meant("", IDLE)
  {
    NoEols();
    assert ""[0..] == "";
  }

  // The last count characters are trailer characters, rn of them line ends, and the last n are N.
  lemma ScannedMeaning(s: string)
    ensures var sc := Scanned(s);
      && sc.n <= 4 && sc.n <= sc.count
      && (forall i | |s| - sc.count <= i < |s| :: IsTrailerChar(s[i]))
      && (forall i | |s| - sc.n <= i < |s| :: s[i] == 'N')
      && Eols(s[|s| - sc.count..]) == sc.rn
  {
    hide Scanned, Eols, IsTrailerChar;
    ScannedMeant(s);
  }

  predicate OccursAt(w: string, s: string, i: nat) {
    i + |w| <= |s| && s[i..i + |w|] == w
  }

  lemma MarkAtEnd(s: string)
    requires Scanned(s).n == 4
    ensures |s| >= 4 && OccursAt("NNNN", s, |s| - 4)
  {
    hide Scanned, Eols;
    ScannedMeaning(s);
    LastFour(s);
  }

  lemma LastFour(s: string)
    requires |s| >= 4 && forall i | |s| - 4 <= i < |s| :: s[i] == 'N'
    ensures OccursAt("NNNN", s, |s| - 4)
  {
    var t := s[|s| - 4..|s|];
    assert t[0] == 'N' && t[1] == 'N' && t[2] == 'N' && t[3] == 'N';
  }

  lemma {:induction false} NoMarkInside(s: string)
    requires forall i: nat :: !OccursAt("NNNN", s, i)
    ensures Unmarked(s)
  {
    if s != [] {
      var s' := s[..|s| - 1];
      forall i: nat | OccursAt("NNNN", s', i)
        ensures OccursAt("NNNN", s, i)
      {
        assert s'[i..i + 4] == s[i..i + 4];
      }
      NoMarkInside(s');
      if AtEndMark(Scanned(s)) {
        MarkAtEnd(s);
      }
    }
  }

  // What of a body is kept: its trailing line ends and Ns are taken for the trailer.
  function Stripped(body: string): string {
    body[..|body| - Scanned(body).count]
  }

  // A body is kept whole unless its last character is a line end or an N, a fifth N in a row excepted.
  lemma KeptWhole(body: string)
    ensures Stripped(body) == body <==>
      body == "" || !IsTrailerChar(body[|body| - 1]) || (body[|body| - 1] == 'N' && Scanned(body[..|body| - 1]).n == 4)
  {
    if body != "" {
      ScannedMeaning(body[..|body| - 1]);
    }
  }

  // ----- A printed frame is read back -----

  datatype Frame = Frame(gap: string, header: string, body: string, pad: string, crs: nat)

  // A gap after which the search for ZCZC starts afresh.
  predicate Quiet(gap: string) {
    Run(START, gap).mode == Seek(0) && Run(START, gap).out == []
  }

  predicate Printable(f: Frame) {
    && Quiet(f.gap)
    && f.header != "" && f.header[|f.header| - 1] == '\n' && (forall c | c in f.header :: IsHeaderChar(c))
    && f.body != "" && !IsHeaderChar(f.body[0]) && Unmarked(f.body)
    && |f.pad| >= 3 && (forall c | c in f.pad :: IsEol(c))
  }

  function Trailer(f: Frame): string {
    f.pad + Ns(4) + Crs(f.crs) + "\n"
  }

  // What a frame holds before its trailer.
  function Opened(f: Frame): string {
    f.gap + ZCZC + f.header + f.body
  }

  function Print(f: Frame): string {
    Opened(f) + Trailer(f)
  }

  function PrintAll(fs: seq<Frame>): string {
    if fs == [] then "" else PrintAll(fs[..|fs| - 1]) + Print(fs[|fs| - 1])
  }

  // Two machines that go on alike, the first with the bodies pre in front.
  ghost predicate Alike(m1: Machine, m2: Machine, pre: seq<string>) {
    m1.mode == m2.mode && Sane(m1.mode) && Bodies(m1.out) == pre + Bodies(m2.out)
  }

  lemma BodyFedAlike(m1: Machine, m2: Machine, line: string, buf: string, c: char)
    ensures var m1', m2' := FeedBody(m1, line, buf, c), FeedBody(m2, line, buf, c);
      m1'.mode == m2'.mode && m1'.out == m1.out && m2'.out == m2.out
  {
    hide Scanned, AtEndMark;
  }

  lemma FeedAlike(m1: Machine, m2: Machine, pre: seq<string>, c: char)
    requires Alike(m1, m2, pre)
    ensures Alike(Feed(m1, c), Feed(m2, c), pre)
  {
    hide FeedBody, Bodies;
    match m1.mode
    case Seek(_) =>
    case Head(line) =>
      BodyFedAlike(m1, m2, line, "", c);
    case Body(line, buf) =>
      BodyFedAlike(m1, m2, line, buf, c);
    case Tail(_, body, _, _) =>
      if c == '\n' {
        BodiesMore(m1.out, Feed(m1, c).out);
        BodiesMore(m2.out, Feed(m2, c).out);
        assert pre + (Bodies(m2.out) + [body]) == pre + Bodies(m2.out) + [body];
      }
  }

  lemma BodiesMore(out: seq<Piece>, out': seq<Piece>)
    requires |out'| == |out| + 1 && out'[..|out|] == out
    ensures Bodies(out') == Bodies(out) + [out'[|out|].body]
  {
    forall i | 0 <= i < |out|
      ensures Bodies(out')[i] == Bodies(out)[i]
    {
      assert out'[..|out|][i] == out'[i];
    }
  }

  lemma {:induction false} RunAlike(m1: Machine, m2: Machine, pre: seq<string>, s: string)
    requires Alike(m1, m2, pre)
    ensures Alike(Run(m1, s), Run(m2, s), pre)
  {
    hide Feed;
    if s != [] {
      RunAlike(m1, m2, pre, s[..|s| - 1]);
      FeedAlike(Run(m1, s[..|s| - 1]), Run(m2, s[..|s| - 1]), pre, s[|s| - 1]);
    }
  }

  lemma RunNext(m: Machine, s: string, c: char)
    requires Sane(m.mode)
    ensures Run(m, s + [c]) == Feed(Run(m, s), c)
  {
    assert (s + [c])[..|s|] == s;
  }

  lemma MarkRuns(m: Machine)
    requires m.mode == Seek(0)
    ensures Run(m, ZCZC) == m.(mode := Head(ZCZC))
  {
    RunOne(m, 'Z');
    RunNext(m, "Z", 'C');
    RunNext(m, "ZC", 'Z');
    RunNext(m, "ZCZ", 'C');
    assert "Z" + "C" == "ZC" && "ZC" + "Z" == "ZCZ" && "ZCZ" + "C" == ZCZC;
  }

  lemma {:induction false} HeaderRuns(m: Machine, line: string, h: string)
    requires line != "" && m.mode == Head(line) && forall c | c in h :: IsHeaderChar(c)
    ensures Run(m, h) == m.(mode := Head(line + h))
  {
    if h == [] {
      assert line + h == line;
    } else {
      var h', c := h[..|h| - 1], h[|h| - 1];
      HeaderRuns(m, line, h');
      assert c in h && line + h' + [c] == line + h;
    }
  }

  lemma {:induction false} BodyRuns(m: Machine, line: string, body: string)
    requires line != "" && line[|line| - 1] == '\n' && m.mode == Head(line)
    requires body != "" && !IsHeaderChar(body[0]) && Unmarked(body)
    ensures Run(m, body) == m.(mode := Body(line, body))
  {
    hide Scanned;
    var b', c := body[..|body| - 1], body[|body| - 1];
    assert body == b' + [c];
    if b' == "" {
      assert Run(m, b') == m;
    } else {
      BodyRuns(m, line, b');
    }
  }

  lemma EolFed(m: Machine, line: string, buf: string, c: char)
    requires m.mode == Body(line, buf) && IsEol(c)
    ensures Feed(m, c) == m.(mode := Body(line, buf + [c]))
    ensures Scanned(buf + [c]) == Scan(0, Scanned(buf).rn + 1, Scanned(buf).count + 1)
  {
    ScannedNext(buf, c);
  }

  lemma {:induction false} PadRuns(m: Machine, line: string, buf: string, pad: string)
    requires m.mode == Body(line, buf) && forall c | c in pad :: IsEol(c)
    ensures Run(m, pad) == m.(mode := Body(line, buf + pad))
    ensures var sc, sc' := Scanned(buf), Scanned(buf + pad);
      sc'.rn == sc.rn + |pad| && sc'.count == sc.count + |pad| && (pad != "" ==> sc'.n == 0)
  {
    hide Scanned, Feed;
    if pad == "" {
      assert buf + pad == buf;
    } else {
      var p', c := pad[..|pad| - 1], pad[|pad| - 1];
      assert c in pad;
      PadRuns(m, line, buf, p');
      EolFed(m.(mode := Body(line, buf + p')), line, buf + p', c);
      assert buf + pad == (buf + p') + [c];
    }
  }

  lemma NFed(m: Machine, line: string, buf: string)
    requires m.mode == Body(line, buf) && Scanned(buf).n < 3
    ensures Feed(m, 'N') == m.(mode := Body(line, buf + "N"))
    ensures Scanned(buf + "N") == Scan(Scanned(buf).n + 1, Scanned(buf).rn, Scanned(buf).count + 1)
  {
    ScannedNext(buf, 'N');
  }

  // The machine at an end mark, the body being all of a text but its last count characters.
  function AtMark(m: Machine, line: string, buf: string, count: nat): Machine
    requires count <= |buf|
  {
    m.(mode := Tail(line, buf[..|buf| - count], buf[|buf| - count..], 0))
  }

  lemma LastNFed(m: Machine, line: string, buf: string)
    requires m.mode == Body(line, buf) && Scanned(buf).n == 3 && Scanned(buf).rn > 2
    ensures Scanned(buf).count < |buf + "N"|
    ensures Feed(m, 'N') == AtMark(m, line, buf + "N", Scanned(buf).count + 1)
  {
    ScannedNext(buf, 'N');
  }

  function Ns(k: nat): (s: string)
    ensures |s| == k
  {
    if k == 0 then "" else Ns(k - 1) + ['N']
  }

  lemma OneMoreN(buf: string, k: nat)
    ensures Ns(k) + ['N'] == Ns(k + 1) && buf + Ns(k) + "N" == buf + Ns(k + 1) && buf + Ns(0) == buf
  {
  }

  lemma {:induction false} NsRun(m: Machine, line: string, buf: string, k: nat)
    requires k < 4 && m.mode == Body(line, buf) && Scanned(buf).n == 0
    ensures Run(m, Ns(k)) == m.(mode := Body(line, buf + Ns(k)))
    ensures Scanned(buf + Ns(k)) == Scan(k, Scanned(buf).rn, Scanned(buf).count + k)
  {
    hide Scanned, Feed, Run, Ns;
    if k == 0 {
      OneMoreN(buf, 0);
      RunNone(m, Ns(0));
    } else {
      NsRun(m, line, buf, k - 1);
      OneMoreN(buf, k - 1);
      var buf' := buf + Ns(k - 1);
      NFed(m.(mode := Body(line, buf')), line, buf');
      RunNext(m, Ns(k - 1), 'N');
    }
  }

  lemma RunNone(m: Machine, s: string)
    requires Sane(m.mode) && |s| == 0
    ensures Run(m, s) == m
  {
  }

  lemma MarkFour(m: Machine, line: string, buf: string)
    requires m.mode == Body(line, buf) && Scanned(buf).n == 0 && Scanned(buf).rn > 2
    ensures Run(m, Ns(4)) == AtMark(m, line, buf + Ns(4), Scanned(buf).count + 4)
  {
    hide *;
    NsRun(m, line, buf, 3);
    OneMoreN(buf, 3);
    RunNext(m, Ns(3), 'N');
    LastNFed(m.(mode := Body(line, buf + Ns(3))), line, buf + Ns(3));
    AtMarkOf(m, line, buf + Ns(3), buf + Ns(4), Scanned(buf).count + 4);
  }

  lemma AtMarkOf(m: Machine, line: string, buf: string, buf': string, count: nat)
    requires count <= |buf'|
    ensures AtMark(m.(mode := Body(line, buf)), line, buf', count) == AtMark(m, line, buf', count)
  {
  }

  lemma {:induction false} CrsRun(m: Machine, line: string, body: string, trailer: string, n: nat)
    requires m.mode == Tail(line, body, trailer, 0)
    ensures Run(m, Crs(n)) == m.(mode := Tail(line, body, trailer + Crs(n), n))
  {
    if n == 0 {
      assert trailer + "" == trailer;
    } else {
      CrsRun(m, line, body, trailer, n - 1);
      RunNext(m, Crs(n - 1), '\r');
      assert trailer + Crs(n - 1) + ['\r'] == trailer + Crs(n);
    }
  }

  // From the end of a body on: the trailer is recognised and the body handed over, stripped.
  lemma TrailerRuns(m: Machine, line: string, body: string, pad: string, crs: nat)
    requires m.mode == Body(line, body)
    requires |pad| >= 3 && forall c | c in pad :: IsEol(c)
    ensures var m' := Run(m, pad + Ns(4) + Crs(crs) + "\n");
      m'.mode == Seek(0) && Bodies(m'.out) == Bodies(m.out) + [Stripped(body)]
  {
    hide Run, Scanned;
    PadRuns(m, line, body, pad);
    var m1 := Run(m, pad);
    MarkFour(m1, line, body + pad);
    var m2 := Run(m1, Ns(4));
    var cut := |body| - Scanned(body).count;
    assert (body + pad + Ns(4))[..cut] == body[..cut];
    CrsRun(m2, line, Stripped(body), m2.mode.trailer, crs);
    var m3 := Run(m2, Crs(crs));
    RunAppend(m, pad, Ns(4));
    RunAppend(m, pad + Ns(4), Crs(crs));
    RunNext(m, pad + Ns(4) + Crs(crs), '\n');
    BodiesMore(m.out, Feed(m3, '\n').out);
  }

  lemma FrameOpens(m: Machine, f: Frame)
    requires m.mode == Seek(0) && Printable(f)
    ensures var m' := Run(m, Opened(f)); m'.mode == Body(ZCZC + f.header, f.body) && Bodies(m'.out) == Bodies(m.out)
  {
    hide Run, Scanned;
    assert Bodies(m.out) == Bodies(m.out) + Bodies([]);
    RunAlike(m, START, Bodies(m.out), f.gap);
    var m1 := Run(m, f.gap);
    MarkRuns(m1);
    var m2 := Run(m1, ZCZC);
    HeaderRuns(m2, ZCZC, f.header);
    var m3 := Run(m2, f.header);
    BodyRuns(m3, ZCZC + f.header, f.body);
    RunAppend(m, f.gap, ZCZC);
    RunAppend(m, f.gap + ZCZC, f.header);
    RunAppend(m, f.gap + ZCZC + f.header, f.body);
  }

  lemma FrameRuns(m: Machine, f: Frame)
    requires m.mode == Seek(0) && Printable(f)
    ensures var m' := Run(m, Print(f));
      m'.mode == Seek(0) && Bodies(m'.out) == Bodies(m.out) + [Stripped(f.body)]
  {
    hide Run, Scanned;
    FrameOpens(m, f);
    TrailerRuns(Run(m, Opened(f)), ZCZC + f.header, f.body, f.pad, f.crs);
    RunAppend(m, Opened(f), Trailer(f));
  }

  function StrippedBodies(fs: seq<Frame>): (bodies: seq<string>)
    ensures |bodies| == |fs| && forall i: nat | i < |fs| :: bodies[i] == Stripped(fs[i].body)
  {
    seq(|fs|, i requires 0 <= i < |fs| => Stripped(fs[i].body))
  }

  lemma NothingRun()
    ensures Run(START, "") == START
  {
  }

  lemma {:induction false} FramesRun(fs: seq<Frame>)
    requires forall f | f in fs :: Printable(f)
    ensures var m := Run(START, PrintAll(fs)); m.mode == Seek(0) && Bodies(m.out) == StrippedBodies(fs)
  {
    hide Scanned, Feed, Run, Print, Printable, Stripped;
    if fs == [] {
      NothingRun();
    } else {
      var fs', f := fs[..|fs| - 1], fs[|fs| - 1];
      FramesRun(fs');
      FrameRuns(Run(START, PrintAll(fs')), f);
      RunAppend(START, PrintAll(fs'), Print(f));
      assert StrippedBodies(fs) == StrippedBodies(fs') + [Stripped(f.body)];
    }
  }

  // ----- Joining texts -----

  function Join(x: Decoded, y: Decoded): Decoded {
    Decoded(x.bodies + y.bodies, x.hangs || y.hangs)
  }

  // From a text that leaves the machine idle, decoding starts afresh.
  lemma IdleAppend(a: string, b: string)
    requires Run(START, a).mode == Seek(0)
    ensures Deframe(a + b) == Join(Deframe(a), Deframe(b))
  {
    hide Run;
    var m := Run(START, a);
    RunAppend(START, a, b);
    assert Bodies(m.out) == Bodies(m.out) + Bodies([]);
    RunAlike(m, START, Bodies(m.out), b);
    var mb := Run(START, b);
    if mb.mode.Tail? && mb.mode.crs > 0 {
      assert Bodies(m.out) + (Bodies(mb.out) + [mb.mode.body]) == Bodies(m.out) + Bodies(mb.out) + [mb.mode.body];
    } else {
      assert Bodies(mb.out) + [] == Bodies(mb.out);
      assert Bodies(m.out) + Bodies(mb.out) + [] == Bodies(m.out) + Bodies(mb.out);
    }
  }

  // Deframing undoes framing, whatever text follows the frames.
  lemma PrintedFramesReadBack(fs: seq<Frame>, rest: string)
    requires forall f | f in fs :: Printable(f)
    ensures Deframe(PrintAll(fs) + rest) == Join(Decoded(StrippedBodies(fs), false), Deframe(rest))
  {
    hide Run;
    FramesRun(fs);
    IdleAppend(PrintAll(fs), rest);
  }

  // Printed bodies come back unchanged exactly when none of them ends in what the trailer is made of.
  lemma RoundTrip(fs: seq<Frame>)
    requires forall f | f in fs :: Printable(f)
    ensures (forall i: nat | i < |fs| :: Stripped(fs[i].body) == fs[i].body) <==>
            Deframe(PrintAll(fs)) == Decoded(seq(|fs|, i requires 0 <= i < |fs| => fs[i].body), false)
  {
    hide *;
    FramesRun(fs);
    IdleFinish(PrintAll(fs));
    var whole := seq(|fs|, i requires 0 <= i < |fs| => fs[i].body);
    if StrippedBodies(fs) == whole {
      forall i: nat | i < |fs|
        ensures Stripped(fs[i].body) == fs[i].body
      {
        assert StrippedBodies(fs)[i] == whole[i];
      }
    }
  }

  lemma IdleFinish(s: string)
    requires Run(START, s).mode == Seek(0)
    ensures Deframe(s) == Decoded(Bodies(Run(START, s).out), false)
  {
  }
}
