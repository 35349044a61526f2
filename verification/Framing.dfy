/** How bulletins are cut out of the raw text of a file, as one pass over its characters.

    The machine below is the reference for the stream code in Deframer.dfy: it never puts a character
    back, and it keeps every character it has read. */
module Framing {

  const ZCZC := "ZCZC"

  predicate IsHeaderChar(c: char) {
    c == ' ' || '0' <= c <= '9' || c == '\r' || c == '\n'
  }

  predicate IsEol(c: char) {
    c == '\r' || c == '\n'
  }

  predicate IsTrailerChar(c: char) {
    c == 'N' || IsEol(c)
  }

  // ----- The scanner for the end mark -----

  // n characters of NNNN matched, rn line ends and count trailer characters since the last other character.
  datatype Scan = Scan(n: nat, rn: nat, count: nat)

  const IDLE := Scan(0, 0, 0)

  function Step(sc: Scan, c: char): Scan {
    if sc.n < 4 && c == 'N' then Scan(sc.n + 1, sc.rn, sc.count + 1)
    else if IsEol(c) then Scan(0, sc.rn + 1, sc.count + 1)
    else IDLE
  }

  predicate AtEndMark(sc: Scan) {
    sc.n == 4 && sc.rn > 2
  }

  // The scanner's state after a text.
  function Scanned(s: string): (sc: Scan)
    ensures sc.count <= |s|
  {
    if s == [] then IDLE else Step(Scanned(s[..|s| - 1]), s[|s| - 1])
  }

  // No prefix of the text ends in an end mark.
  predicate Unmarked(s: string) {
    s == [] || (Unmarked(s[..|s| - 1]) && !AtEndMark(Scanned(s)))
  }

  // ----- The machine -----

  // A message as it stood in the text, with what was skipped before it.
  datatype Piece = Piece(gap: string, line: string, body: string, trailer: string)

  datatype Mode =
    | Seek(k: nat)                                                // k characters of ZCZC matched
    | Head(line: string)                                          // ZCZC and the header run so far
    | Body(line: string, buf: string)                             // no end mark yet
    | Tail(line: string, body: string, trailer: string, crs: nat) // end mark and crs carriage returns seen

  datatype Machine = Machine(out: seq<Piece>, gap: string, mode: Mode)

  const START := Machine([], "", Seek(0))

  predicate Sane(mode: Mode) {
    match mode
    case Seek(k) => k < 4
    case Head(line) => line != ""
    case _ => true
  }

  function FeedSeek(m: Machine, k: nat, c: char): (m': Machine)
    requires k < 4
    ensures Sane(m'.mode)
  {
    if c == ZCZC[k] then
      m.(mode := if k == 3 then Head(ZCZC) else Seek(k + 1))
    else
      m.(gap := m.gap + ZCZC[..k] + [c], mode := Seek(0))
  }

  function FeedBody(m: Machine, line: string, buf: string, c: char): (m': Machine)
    ensures m'.mode.Body? || m'.mode.Tail?
  {
    var buf' := buf + [c];
    var sc := Scanned(buf');
    if AtEndMark(sc) then
      m.(mode := Tail(line, buf'[..|buf'| - sc.count], buf'[|buf'| - sc.count..], 0))
    else
      m.(mode := Body(line, buf'))
  }

  function Feed(m: Machine, c: char): (m': Machine)
    requires Sane(m.mode)
    ensures Sane(m'.mode)
  {
    match m.mode
    case Seek(k) => FeedSeek(m, k, c)
    case Head(line) =>
      if IsHeaderChar(c) then m.(mode := Head(line + [c]))
      else if line[|line| - 1] == '\n' then FeedBody(m, line, "", c)
      else FeedSeek(m.(gap := m.gap + line), 0, c)
    case Body(line, buf) => FeedBody(m, line, buf, c)
    case Tail(line, body, trailer, crs) =>
      if c == '\r' then m.(mode := Tail(line, body, trailer + [c], crs + 1))
      else if c == '\n' then Machine(m.out + [Piece(m.gap, line, body, trailer + [c])], "", Seek(0))
      else m.(gap := m.gap + line + body + trailer + [c], mode := Seek(0))
  }

  function Run(m: Machine, s: string): (m': Machine)
    requires Sane(m.mode)
    ensures Sane(m'.mode)
  {
    if s == [] then m else Feed(Run(m, s[..|s| - 1]), s[|s| - 1])
  }

  // When four Ns have matched after too few line ends, the source compares the next character with the NUL
  // that ends "NNNN"; on a NUL in the text it goes past that, where C++ defines nothing.
  predicate PastMark(mode: Mode, c: char) {
    mode.Body? && Scanned(mode.buf).n == 4 && c == '\0'
  }

  // The texts that are read without going there.
  predicate Defined(m: Machine, s: string)
    requires Sane(m.mode)
    decreases |s|
  {
    s == "" || (!PastMark(m.mode, s[0]) && Defined(Feed(m, s[0]), s[1..]))
  }

  // What a text yields: the message bodies in order, and whether decoding never ends.
  datatype Decoded = Decoded(bodies: seq<string>, hangs: bool)

  function Bodies(out: seq<Piece>): (bodies: seq<string>)
    ensures |bodies| == |out| && forall i: nat | i < |out| :: bodies[i] == out[i].body
  {
    seq(|out|, i requires 0 <= i < |out| => out[i].body)
  }

  function Finish(m: Machine): Decoded {
    match m.mode
    case Head(_) => Decoded(Bodies(m.out), true)
    case Tail(_, body, _, crs) => Decoded(Bodies(m.out) + (if crs > 0 then [body] else []), false)
    case _ => Decoded(Bodies(m.out), false)
  }

  function Deframe(s: string): Decoded {
    Finish(Run(START, s))
  }

  lemma {:induction false} RunAppend(m: Machine, a: string, b: string)
    requires Sane(m.mode)
    ensures Run(m, a + b) == Run(Run(m, a), b)
  {
    if b == [] {
      assert a + b == a;
    } else {
      assert (a + b)[..|a + b| - 1] == a + b[..|b| - 1];
      RunAppend(m, a, b[..|b| - 1]);
    }
  }

  lemma RunOne(m: Machine, c: char)
    requires Sane(m.mode)
    ensures Run(m, [c]) == Feed(m, c)
  {
    assert Run(m, []) == m;
  }

  lemma RunFirst(m: Machine, s: string)
    requires Sane(m.mode) && s != []
    ensures Run(m, s) == Run(Feed(m, s[0]), s[1..])
  {
    assert s == [s[0]] + s[1..];
    RunAppend(m, [s[0]], s[1..]);
    RunOne(m, s[0]);
  }

  lemma DefinedAppend(m: Machine, a: string, b: string)
    requires Sane(m.mode)
    ensures Defined(m, a + b) <==> Defined(m, a) && Defined(Run(m, a), b)
    decreases |a|
  {
    hide Feed, PastMark;
    if a == "" {
      assert a + b == b && Run(m, a) == m;
    } else {
      assert (a + b)[1..] == a[1..] + b;
      RunFirst(m, a);
      DefinedAppend(Feed(m, a[0]), a[1..], b);
    }
  }

  lemma SeekFed(m: Machine, k: nat, c: char)
    requires k < 4 && m.mode == Seek(k)
    ensures var m' := Feed(m, c);
      m'.out == m.out && m'.mode == if c != ZCZC[k] then Seek(0) else if k == 3 then Head(ZCZC) else Seek(k + 1)
  {
  }

  // ----- Nothing is lost: every text is its messages, the gaps between them and what is pending -----

  function Whole(p: Piece): string {
    p.gap + p.line + p.body + p.trailer
  }

  function Woven(out: seq<Piece>): string {
    if out == [] then "" else Woven(out[..|out| - 1]) + Whole(out[|out| - 1])
  }

  function Pending(mode: Mode): string
    requires Sane(mode)
  {
    match mode
    case Seek(k) => ZCZC[..k]
    case Head(line) => line
    case Body(line, buf) => line + buf
    case Tail(line, body, trailer, _) => line + body + trailer
  }

  function Kept(m: Machine): string
    requires Sane(m.mode)
  {
    Woven(m.out) + m.gap + Pending(m.mode)
  }

  lemma FeedSeekKeeps(m: Machine, k: nat, c: char)
    requires k < 4
    ensures Kept(FeedSeek(m, k, c)) == Woven(m.out) + m.gap + ZCZC[..k] + [c]
  {
    if c == ZCZC[k] {
      assert ZCZC[..k] + [c] == ZCZC[..k + 1];
      assert ZCZC[..4] == ZCZC;
    }
  }

  lemma FeedBodyKeeps(m: Machine, line: string, buf: string, c: char)
    ensures Kept(FeedBody(m, line, buf, c)) == Woven(m.out) + m.gap + line + buf + [c]
  {
    hide Scanned;
    var buf' := buf + [c];
    var cut := |buf'| - Scanned(buf').count;
    assert buf' == buf'[..cut] + buf'[cut..];
  }

  lemma EmitKeeps(m: Machine, line: string, body: string, trailer: string, c: char)
    ensures Woven(m.out + [Piece(m.gap, line, body, trailer + [c])]) ==
            Woven(m.out) + m.gap + (line + body + trailer) + [c]
  {
    var p := Piece(m.gap, line, body, trailer + [c]);
    assert (m.out + [p])[..|m.out|] == m.out;
    assert Woven(m.out) + Whole(p) == Woven(m.out) + m.gap + (line + body + trailer) + [c];
  }

  lemma SkipKeeps(w: string, gap: string, skipped: string, c: char)
    ensures w + (gap + skipped) + [c] == w + gap + skipped + [c]
    ensures w + (gap + skipped) + "" + [c] == w + gap + skipped + [c]
    ensures w + (gap + skipped + [c]) + "" == w + gap + skipped + [c]
    ensures w + gap + (skipped + [c]) == w + gap + skipped + [c]
    ensures w + gap + skipped + "" + [c] == w + gap + skipped + [c]
  {
  }

  lemma FeedKeeps(m: Machine, c: char)
    requires Sane(m.mode)
    ensures Kept(Feed(m, c)) == Kept(m) + [c]
  {
    hide FeedSeek, FeedBody;
    var w := Woven(m.out);
    match m.mode
    case Seek(k) =>
      FeedSeekKeeps(m, k, c);
    case Head(line) =>
      FeedSeekKeeps(m.(gap := m.gap + line), 0, c);
      FeedBodyKeeps(m, line, "", c);
      SkipKeeps(w, m.gap, line, c);
    case Body(line, buf) =>
      FeedBodyKeeps(m, line, buf, c);
      assert w + m.gap + line + buf + [c] == w + m.gap + (line + buf) + [c];
    case Tail(line, body, trailer, crs) =>
      if c == '\n' {
        EmitKeeps(m, line, body, trailer, c);
        assert Kept(Feed(m, c)) == Woven(m.out + [Piece(m.gap, line, body, trailer + [c])]) + "" + "";
      } else if c == '\r' {
        assert line + body + (trailer + [c]) == line + body + trailer + [c];
        SkipKeeps(w, m.gap, line + body + trailer, c);
      } else {
        assert m.gap + line + body + trailer + [c] == m.gap + (line + body + trailer) + [c];
        SkipKeeps(w, m.gap, line + body + trailer, c);
      }
  }

  lemma {:induction false} RunKeeps(m: Machine, s: string)
    requires Sane(m.mode)
    ensures Kept(Run(m, s)) == Kept(m) + s
  {
    hide Feed, Kept;
    if s == [] {
      assert Kept(m) + s == Kept(m);
    } else {
      var s', c := s[..|s| - 1], s[|s| - 1];
      RunKeeps(m, s');
      FeedKeeps(Run(m, s'), c);
      assert Kept(m) + s' + [c] == Kept(m) + s;
    }
  }
}
