/** Where a text may be cut, which ZCZC is found, and what every text is made of. */
module FramingLimits {
  import opened Framing
  import opened FramingLaws
  import opened Text

  // ----- The start matcher -----

  // The length of the run of Zs a text ends in.
  function ZRun(s: string): nat {
    if s == "" || s[|s| - 1] != 'Z' then 0 else ZRun(s[..|s| - 1]) + 1
  }

  ghost predicate MarkFree(s: string) {
    forall i: nat :: !OccursAt(ZCZC, s, i)
  }

  lemma MarkFreePrefix(s: string, n: nat)
    requires n <= |s| && MarkFree(s)
    ensures MarkFree(s[..n])
  {
    forall i: nat | OccursAt(ZCZC, s[..n], i)
      ensures OccursAt(ZCZC, s, i)
    {
      assert s[..n][i..i + 4] == s[i..i + 4];
    }
  }

  lemma MarkChars(k: nat)
    requires k < 4
    ensures ZCZC[k] == if k % 2 == 0 then 'Z' else 'C'
  {
  }

  lemma MatchGrows(s: string, k: nat)
    requires k < 4 && k < |s| && s[|s| - 1] == ZCZC[k]
    requires s[..|s| - 1][|s| - 1 - k..] == ZCZC[..k]
    ensures s[|s| - (k + 1)..] == ZCZC[..k + 1]
  {
    var s' := s[..|s| - 1];
    assert s[|s| - (k + 1)..] == s'[|s'| - k..] + [ZCZC[k]];
    assert ZCZC[..k + 1] == ZCZC[..k] + [ZCZC[k]];
  }

  // On a text without ZCZC the matcher keeps looking, and stands at a Z exactly after an odd run of them:
  // after an even run the last Z was taken for a mismatch and not looked at again.
  lemma {:induction false} Seeking(m: Machine, s: string)
    requires m.mode == Seek(0) && MarkFree(s)
    ensures var m' := Run(m, s);
      && m'.mode.Seek? && m'.out == m.out
      && var k := m'.mode.k;
         k < 4 && k <= |s| && s[|s| - k..] == ZCZC[..k] && (k % 2 == 1 <==> ZRun(s) % 2 == 1)
  {
    hide Feed;
    if s == "" {
      assert s[0..] == ZCZC[..0];
    } else {
      var s', c := s[..|s| - 1], s[|s| - 1];
      MarkFreePrefix(s, |s| - 1);
      Seeking(m, s');
      var k := Run(m, s').mode.k;
      SeekFed(Run(m, s'), k, c);
      MarkChars(k);
      if c == ZCZC[k] {
        MatchGrows(s, k);
        if k == 3 {
          WholeMark(s);
        }
      } else {
        assert s[|s|..] == ZCZC[..0];
      }
    }
  }

  lemma WholeMark(s: string)
    requires |s| >= 4 && s[|s| - 4..] == ZCZC[..4]
    ensures OccursAt(ZCZC, s, |s| - 4)
  {
    assert ZCZC[..4] == ZCZC;
    assert s[|s| - 4..|s|] == s[|s| - 4..];
  }

  // The exact condition for finding the first ZCZC: the run of Zs that ends at its first letter is odd.
  lemma FirstMarkFound(m: Machine, s: string, i: nat)
    requires m.mode == Seek(0) && OccursAt(ZCZC, s, i)
    requires forall j: nat | j < i :: !OccursAt(ZCZC, s, j)
    ensures forall n: nat | n < i + 4 :: Run(m, s[..n]).mode.Seek?
    ensures Run(m, s[..i + 4]).mode.Head? <==> ZRun(s[..i + 1]) % 2 == 1
    ensures Run(m, s[..i + 4]).mode.Head? ==> Run(m, s[..i + 4]).mode == Head(ZCZC)
  {
    hide Feed, Run;
    forall n: nat | n < i + 4
      ensures MarkFree(s[..n]) && Run(m, s[..n]).mode.Seek?
    {
      EarlierMarkFree(s, i, n);
      Seeking(m, s[..n]);
    }
    var w := s[i..i + 4];
    assert s[i] == w[0] == 'Z' && s[i + 1] == w[1] == 'C' && s[i + 2] == w[2] == 'Z' && s[i + 3] == w[3] == 'C';
    Seeking(m, s[..i + 1]);
    var k1 := Run(m, s[..i + 1]).mode.k;
    SeekNext(m, s, i + 1, k1);
    var k2 := Run(m, s[..i + 2]).mode.k;
    SeekNext(m, s, i + 2, k2);
    var k3 := Run(m, s[..i + 3]).mode.k;
    SeekNext(m, s, i + 3, k3);
    MarkChars(k1);
    MarkChars(k2);
    MarkChars(k3);
  }

  lemma EarlierMarkFree(s: string, i: nat, n: nat)
    requires OccursAt(ZCZC, s, i) && n < i + 4
    requires forall j: nat | j < i :: !OccursAt(ZCZC, s, j)
    ensures MarkFree(s[..n])
  {
    forall j: nat | OccursAt(ZCZC, s[..n], j)
      ensures OccursAt(ZCZC, s, j) && j < i
    {
      assert s[..n][j..j + 4] == s[j..j + 4];
    }
  }

  lemma SeekNext(m: Machine, s: string, n: nat, k: nat)
    requires Sane(m.mode) && n < |s| && k < 4 && Run(m, s[..n]).mode == Seek(k)
    ensures Run(m, s[..n + 1]).mode ==
      if s[n] != ZCZC[k] then Seek(0) else if k == 3 then Head(ZCZC) else Seek(k + 1)
  {
    hide Feed;
    assert s[..n + 1] == s[..n] + [s[n]];
    RunNext(m, s[..n], s[n]);
    SeekFed(Run(m, s[..n]), k, s[n]);
  }

  predicate DoubleZ(s: string, j: nat) {
    j + 1 < |s| && s[j] == 'Z' && s[j + 1] == 'Z'
  }

  // Without two Zs in a row the first ZCZC is always found.
  lemma NoDoubleZ(m: Machine, s: string, i: nat)
    requires m.mode == Seek(0) && OccursAt(ZCZC, s, i)
    requires forall j: nat | j < i :: !OccursAt(ZCZC, s, j)
    requires forall j: nat :: !DoubleZ(s, j)
    ensures Run(m, s[..i + 4]).mode == Head(ZCZC)
  {
    hide Run;
    FirstMarkFound(m, s, i);
    var w := s[i..i + 4];
    assert s[i] == w[0] == 'Z';
    var t := s[..i + 1];
    assert t[..i] == s[..i];
    assert ZRun(t) == ZRun(s[..i]) + 1;
    if i > 0 {
      assert !DoubleZ(s, i - 1);
      assert s[..i][i - 1] == s[i - 1];
    }
    assert ZRun(s[..i]) == 0;
  }

  // ----- Safe places to cut a text -----

  lemma {:induction false} NoZIsQuiet(m: Machine, s: string)
    requires m.mode == Seek(0) && 'Z' !in s
    ensures Run(m, s).mode == Seek(0) && Run(m, s).out == m.out
  {
    if s != "" {
      NoZIsQuiet(m, s[..|s| - 1]);
    }
  }

  lemma {:induction false} ShortText(s: string)
    requires |s| < 4
    ensures Run(START, s).mode.Seek? && Run(START, s).mode.k <= |s|
  {
    if s != "" {
      ShortText(s[..|s| - 1]);
    }
  }

  lemma MarkCompleted(m: Machine, k: nat)
    requires k < 4 && m.mode == Seek(k)
    ensures Run(m, ZCZC[k..]).mode == Head(ZCZC)
    decreases 4 - k
  {
    hide Run, Feed;
    var s := ZCZC[k..];
    RunFirst(m, s);
    SeekFed(m, k, s[0]);
    if k == 3 {
      RunNone(Feed(m, s[0]), s[1..]);
    } else {
      assert s[1..] == ZCZC[k + 1..];
      MarkCompleted(Feed(m, s[0]), k + 1);
    }
  }

  ghost predicate SafeCut(a: string) {
    forall b :: Deframe(a + b) == Join(Deframe(a), Deframe(b))
  }

  // A text that, put after one that leaves the machine elsewhere than idle, is not decoded as on its own.
  function Spoiler(mode: Mode): string
    requires Sane(mode)
  {
    match mode
    case Seek(k) => ZCZC[k..]
    case Head(_) => "X"
    case Body(_, _) => "\n\n\n" + Ns(4) + Crs(0) + "\n"
    case Tail(_, _, _, crs) => if crs > 0 then "X" else "\n"
  }

  lemma Spoils(a: string)
    requires Run(START, a).mode != Seek(0)
    ensures var b := Spoiler(Run(START, a).mode); Deframe(a + b) != Join(Deframe(a), Deframe(b))
  {
    hide Run, Feed;
    var m := Run(START, a);
    var b := Spoiler(m.mode);
    RunAppend(START, a, b);
    match m.mode
    case Seek(k) =>
      ShortText(b);
      MarkCompleted(m, k);
    case Head(line) =>
      RunOne(m, 'X');
      LeavesHeader(m);
    case Body(line, buf) =>
      TrailerRuns(m, line, buf, "\n\n\n", 0);
      NoZIsQuiet(START, b);
    case Tail(line, body, trailer, crs) =>
      RunOne(m, b[0]);
      EndsTail(m);
      NoZIsQuiet(START, b);
  }

  lemma LeavesHeader(m: Machine)
    requires m.mode.Head? && Sane(m.mode)
    ensures !Feed(m, 'X').mode.Head?
  {
  }

  lemma EndsTail(m: Machine)
    requires m.mode.Tail?
    ensures Feed(m, 'X').mode == Seek(0) && Feed(m, 'X').out == m.out
    ensures Feed(m, '\n').mode == Seek(0) && |Feed(m, '\n').out| == |m.out| + 1
  {
  }

  // A text can be cut off and decoded on its own, whatever follows, exactly when it leaves the machine idle.
  lemma SafeCutExactly(a: string)
    ensures SafeCut(a) <==> Run(START, a).mode == Seek(0)
  {
    hide Run, Deframe;
    if Run(START, a).mode == Seek(0) {
      forall b
        ensures Deframe(a + b) == Join(Deframe(a), Deframe(b))
      {
        IdleAppend(a, b);
      }
    } else {
      Spoils(a);
    }
  }

  // ----- Every text is its messages, what was skipped between them, and what is pending -----

  predicate WellHead(line: string) {
    |line| >= 4 && line[..4] == ZCZC && forall i | 4 <= i < |line| :: IsHeaderChar(line[i])
  }

  predicate WellLine(line: string) {
    WellHead(line) && line[|line| - 1] == '\n'
  }

  predicate WellBody(buf: string) {
    buf != "" && !IsHeaderChar(buf[0]) && Unmarked(buf)
  }

  // The text up to and including the end mark, of which the scanner's count is not body.
  predicate WellMarked(body: string, mark: string) {
    var buf := body + mark;
    buf != "" && !IsHeaderChar(buf[0]) && Unmarked(buf[..|buf| - 1]) && AtEndMark(Scanned(buf)) &&
    |mark| == Scanned(buf).count
  }

  predicate WellTail(body: string, trailer: string, crs: nat) {
    crs <= |trailer| && trailer[|trailer| - crs..] == Crs(crs) && WellMarked(body, trailer[..|trailer| - crs])
  }

  predicate Closed(p: Piece, crs: nat) {
    p.trailer != "" && p.trailer[|p.trailer| - 1] == '\n' && WellTail(p.body, p.trailer[..|p.trailer| - 1], crs)
  }

  ghost predicate WellPiece(p: Piece) {
    WellLine(p.line) && exists crs: nat :: Closed(p, crs)
  }

  predicate WellMode(mode: Mode) {
    match mode
    case Seek(k) => k < 4
    case Head(line) => WellHead(line)
    case Body(line, buf) => WellLine(line) && WellBody(buf)
    case Tail(line, body, trailer, crs) => WellLine(line) && WellTail(body, trailer, crs)
  }

  ghost predicate Well(m: Machine) {
    WellMode(m.mode) && forall p | p in m.out :: WellPiece(p)
  }

  lemma FeedBodyWell(m: Machine, line: string, buf: string, c: char)
    requires WellLine(line) && (forall p | p in m.out :: WellPiece(p))
    requires if buf == "" then !IsHeaderChar(c) else WellBody(buf)
    ensures Well(FeedBody(m, line, buf, c))
  {
    hide Scanned, WellPiece, WellLine, WellTail, AtEndMark, IsHeaderChar;
    var buf' := buf + [c];
    assert buf'[..|buf'| - 1] == buf && Unmarked(buf);
    if AtEndMark(Scanned(buf')) {
      MarkSplits(buf');
    }
  }

  lemma MarkSplits(buf: string)
    requires buf != "" && !IsHeaderChar(buf[0]) && Unmarked(buf[..|buf| - 1]) && AtEndMark(Scanned(buf))
    ensures var cut := |buf| - Scanned(buf).count; WellTail(buf[..cut], buf[cut..], 0)
  {
    hide Scanned, AtEndMark, IsHeaderChar, Unmarked, WellTail;
    var cut := |buf| - Scanned(buf).count;
    assert buf[..cut] + buf[cut..] == buf;
    NoCrsYet(buf[..cut], buf[cut..]);
  }

  lemma NoCrsYet(body: string, mark: string)
    requires WellMarked(body, mark)
    ensures WellTail(body, mark, 0)
  {
    hide WellMarked;
    assert mark[..|mark| - 0] == mark && mark[|mark|..] == Crs(0);
  }

  lemma TailGrows(body: string, trailer: string, crs: nat)
    requires WellTail(body, trailer, crs)
    ensures WellTail(body, trailer + ['\r'], crs + 1)
  {
    hide WellMarked;
    var t := trailer + ['\r'];
    assert t[..|t| - (crs + 1)] == trailer[..|trailer| - crs];
    assert t[|t| - (crs + 1)..] == trailer[|trailer| - crs..] + ['\r'];
  }

  lemma TailCloses(gap: string, line: string, body: string, trailer: string, crs: nat)
    requires WellLine(line) && WellTail(body, trailer, crs)
    ensures WellPiece(Piece(gap, line, body, trailer + ['\n']))
  {
    hide WellTail, WellLine;
    var t := trailer + ['\n'];
    assert t[..|t| - 1] == trailer;
    assert Closed(Piece(gap, line, body, t), crs);
  }

  lemma FeedTailWell(m: Machine, c: char)
    requires Well(m) && m.mode.Tail?
    ensures Well(Feed(m, c))
  {
    hide WellTail, WellPiece, WellLine;
    var Tail(line, body, trailer, crs) := m.mode;
    TailGrows(body, trailer, crs);
    TailCloses(m.gap, line, body, trailer, crs);
  }

  lemma FeedWell(m: Machine, c: char)
    requires Well(m)
    ensures Well(Feed(m, c))
  {
    hide WellPiece, WellTail, FeedBody;
    match m.mode
    case Seek(k) =>
    case Head(line) =>
      if !IsHeaderChar(c) && line[|line| - 1] == '\n' {
        FeedBodyWell(m, line, "", c);
      }
    case Body(line, buf) =>
      FeedBodyWell(m, line, buf, c);
    case Tail(_, _, _, _) =>
      FeedTailWell(m, c);
  }

  lemma {:induction false} RunWell(s: string)
    ensures Well(Run(START, s))
  {
    hide Feed;
    if s != "" {
      RunWell(s[..|s| - 1]);
      FeedWell(Run(START, s[..|s| - 1]), s[|s| - 1]);
    }
  }

  // ----- When decoding never ends -----

  // Where the next Z is taken as the start of a ZCZC.
  predicate Ready(mode: Mode)
    requires Sane(mode)
  {
    mode == Seek(0) || (mode.Head? && mode.line[|mode.line| - 1] != '\n')
  }

  predicate AllHeader(run: string) {
    forall c | c in run :: IsHeaderChar(c)
  }

  lemma FedBack(m: Machine, c: char)
    requires Sane(m.mode) && Feed(m, c).mode.Seek? && Feed(m, c).mode.k > 0
    ensures var k := Feed(m, c).mode.k;
      if k == 1 then Ready(m.mode) && c == 'Z' else m.mode == Seek(k - 1) && c == ZCZC[k - 1]
  {
    hide FeedBody;
  }

  lemma {:induction false} StartOfMatch(s: string)
    requires Run(START, s).mode.Seek? && Run(START, s).mode.k > 0
    ensures var k := Run(START, s).mode.k;
      k <= |s| && Ready(Run(START, s[..|s| - k]).mode) && s[|s| - k..] == ZCZC[..k]
  {
    hide Feed;
    var s', c := s[..|s| - 1], s[|s| - 1];
    var k := Run(START, s).mode.k;
    FedBack(Run(START, s'), c);
    if k > 1 {
      StartOfMatch(s');
      assert s'[..|s'| - (k - 1)] == s[..|s| - k];
      MatchGrows(s, k - 1);
    } else {
      MatchGrows(s, 0);
    }
  }

  // Decoding hangs exactly on the texts that end in a ZCZC which is looked for, followed by nothing but a
  // header run.
  lemma HangsExactly(s: string)
    ensures Deframe(s).hangs <==> exists a: string, run: string ::
      s == a + ZCZC + run && AllHeader(run) && Ready(Run(START, a).mode)
  {
    hide Run;
    if Deframe(s).hangs {
      var a, run := HangingMark(s);
    }
    forall a: string, run: string | s == a + ZCZC + run && AllHeader(run) && Ready(Run(START, a).mode)
      ensures Deframe(s).hangs
    {
      ReadyHangs(a, run);
    }
  }

  lemma ReadyHangs(a: string, run: string)
    requires AllHeader(run) && Ready(Run(START, a).mode)
    ensures Deframe(a + ZCZC + run).hangs
  {
    hide Run;
    var m := Run(START, a);
    RunAppend(START, a, ZCZC);
    RunAppend(START, a + ZCZC, run);
    ReadyMark(m);
    HeaderRuns(Run(m, ZCZC), ZCZC, run);
  }

  lemma ReadyMark(m: Machine)
    requires Sane(m.mode) && Ready(m.mode)
    ensures Run(m, ZCZC).mode == Head(ZCZC)
  {
    hide Run;
    RunFirst(m, ZCZC);
    assert ZCZC[1..] == "CZC";
    MarkCompleted(Feed(m, 'Z'), 1);
  }

  lemma FedHead(m: Machine, c: char)
    requires Sane(m.mode) && Feed(m, c).mode.Head?
    ensures (m.mode.Head? && IsHeaderChar(c)) || (m.mode == Seek(3) && c == 'C')
  {
    hide FeedBody;
  }

  lemma {:induction false} HangingMark(s: string) returns (a: string, run: string)
    requires Run(START, s).mode.Head?
    ensures s == a + ZCZC + run && AllHeader(run) && Ready(Run(START, a).mode)
  {
    hide Feed;
    var s', c := s[..|s| - 1], s[|s| - 1];
    assert s == s' + [c];
    FedHead(Run(START, s'), c);
    if Run(START, s').mode.Head? {
      a, run := HangingMark(s');
      run := run + [c];
    } else {
      StartOfMatch(s');
      a, run := s'[..|s'| - 3], "";
      assert s' == a + ZCZC[..3];
      assert ZCZC[..3] + ['C'] == ZCZC;
    }
  }
}
