/** Which characters the program tells apart, spelled out, and what that means for bulletins: they are read
    as they stand in a file, with numbers, blanks and line ends after ZCZC. */
module Alphabets {
  import opened Text
  import opened Framing
  import opened FramingLaws
  import opened FramingLimits
  import opened Reports

  const HEADER_CHARS := " 1234567890\r\n"
  const DIGITS := "0123456789"
  const CAPITALS := "ABCDEFGHIJKLM" + "NOPQRSTUVWXYZ"
  const SMALL := "abcdefghijklm" + "nopqrstuvwxyz"

  // ----- The classes, character by character -----

  lemma HeaderChars(c: char)
    ensures IsHeaderChar(c) <==> c in HEADER_CHARS
  {
  }

  lemma TrailerChars(c: char)
    ensures (IsEol(c) <==> c in "\r\n") && (IsTrailerChar(c) <==> c in "N\r\n")
  {
  }

  lemma Capitals(c: char)
    ensures c in CAPITALS <==> 'A' <= c <= 'Z'
  {
    assert c in "ABCDEFGHIJKLM" <==> 'A' <= c <= 'M';
    assert c in "NOPQRSTUVWXYZ" <==> 'N' <= c <= 'Z';
  }

  lemma SmallLetters(c: char)
    ensures c in SMALL <==> 'a' <= c <= 'z'
  {
    assert c in "abcdefghijklm" <==> 'a' <= c <= 'm';
    assert c in "nopqrstuvwxyz" <==> 'n' <= c <= 'z';
  }

  lemma WordChars(c: char)
    ensures IsDigit(c) <==> c in DIGITS
    ensures IsAlnum(c) <==> c in DIGITS || c in CAPITALS || c in SMALL
    ensures IsWord(c) <==> IsAlnum(c) || c == '_'
  {
    Capitals(c);
    SmallLetters(c);
  }

  lemma LineChars(c: char)
    ensures IsLineChar(c) <==> c in DIGITS || c in CAPITALS || c in SMALL || c in " /="
    ensures c in BLANKS <==> c in " \t\r\n"
    ensures c in LINE_ENDS <==> c in "\t\r\n"
  {
    WordChars(c);
  }

  lemma SpaceChars(c: char)
    ensures IsSpace(c) <==> c in " \t\n\r\U{00000B}\U{00000C}"
  {
  }

  // ----- Bulletins as they stand in a file -----

  datatype Bulletin = Bulletin(gap: string, header: string, body: string, pad: string, crs: string)

  // No Z before it; blanks, digits and line ends after ZCZC, a line feed last; a body that begins with
  // something else, does not end in what trailers are made of, and holds no NNNN.
  ghost predicate Plain(b: Bulletin) {
    && 'Z' !in b.gap
    && b.header != "" && b.header[|b.header| - 1] == '\n' && (forall c | c in b.header :: c in HEADER_CHARS)
    && b.body != "" && b.body[0] !in HEADER_CHARS && b.body[|b.body| - 1] !in "N\r\n"
    && (forall i: nat :: !OccursAt("NNNN", b.body, i))
    && |b.pad| >= 3 && (forall c | c in b.pad :: c in "\r\n")
    && (forall c | c in b.crs :: c == '\r')
  }

  function Written(b: Bulletin): string {
    b.gap + "ZCZC" + b.header + b.body + b.pad + "NNNN" + b.crs + "\n"
  }

  function WrittenAll(bs: seq<Bulletin>): string {
    if bs == [] then "" else WrittenAll(bs[..|bs| - 1]) + Written(bs[|bs| - 1])
  }

  function BodiesOf(bs: seq<Bulletin>): (bodies: seq<string>)
    ensures |bodies| == |bs| && forall i: nat | i < |bs| :: bodies[i] == bs[i].body
  {
    seq(|bs|, i requires 0 <= i < |bs| => bs[i].body)
  }

  function FrameOf(b: Bulletin): Frame {
    Frame(b.gap, b.header, b.body, b.pad, |b.crs|)
  }

  lemma {:induction false} CrsAre(s: string)
    requires forall c | c in s :: c == '\r'
    ensures s == Crs(|s|)
  {
    if s != "" {
      var s', c := s[..|s| - 1], s[|s| - 1];
      assert s == s' + [c] && (forall x | x in s' :: x in s) && c in s;
      CrsAre(s');
    }
  }

  lemma FourNs()
    ensures Ns(4) == "NNNN"
  {
    assert Ns(1) == "N";
    assert Ns(2) == "NN";
    assert Ns(3) == "NNN";
  }

  lemma PlainFrame(b: Bulletin)
    requires Plain(b)
    ensures Printable(FrameOf(b)) && Print(FrameOf(b)) == Written(b) && Stripped(b.body) == b.body
  {
    hide Scanned, Run, Ns, Crs;
    HeaderChars(b.body[0]);
    forall c | c in b.header
      ensures IsHeaderChar(c)
    {
      HeaderChars(c);
    }
    forall c | c in b.pad
      ensures IsEol(c)
    {
      TrailerChars(c);
    }
    assert forall i | 0 <= i < |b.gap| :: b.gap[i] in b.gap;
    RunNone(START, "");
    NoZIsQuiet(START, b.gap);
    NoMarkInside(b.body);
    TrailerChars(b.body[|b.body| - 1]);
    KeptWhole(b.body);
    FourNs();
    CrsAre(b.crs);
  }

  lemma {:induction false} PlainFrames(bs: seq<Bulletin>) returns (fs: seq<Frame>)
    requires forall b | b in bs :: Plain(b)
    ensures (forall f | f in fs :: Printable(f)) && PrintAll(fs) == WrittenAll(bs) && StrippedBodies(fs) == BodiesOf(bs)
  {
    hide Plain, Printable, Print, Written, Stripped;
    if bs == [] {
      fs := [];
    } else {
      var bs', b := bs[..|bs| - 1], bs[|bs| - 1];
      var fs' := PlainFrames(bs');
      assert b in bs;
      PlainFrame(b);
      fs := fs' + [FrameOf(b)];
      assert fs[..|fs| - 1] == fs';
      assert StrippedBodies(fs) == StrippedBodies(fs') + [Stripped(b.body)];
      assert BodiesOf(bs) == BodiesOf(bs') + [b.body];
    }
  }

  // Bulletins written one after the other are read as they stand, whatever follows them.
  lemma WrittenReadBack(bs: seq<Bulletin>, rest: string)
    requires forall b | b in bs :: Plain(b)
    ensures Deframe(WrittenAll(bs) + rest) == Join(Decoded(BodiesOf(bs), false), Deframe(rest))
  {
    hide *;
    var fs := PlainFrames(bs);
    PrintedFramesReadBack(fs, rest);
  }

  // The modes after a header run and one more character.
  function AfterHead(line: string, c: char): Mode
    requires line != ""
  {
    if c in HEADER_CHARS then Head(line + [c])
    else if line[|line| - 1] == '\n' then Body(line, [c])
    else Seek(if c == 'Z' then 1 else 0)
  }

  lemma HeadFed(m: Machine, line: string, c: char)
    requires line != "" && m.mode == Head(line)
    ensures Feed(m, c).mode == AfterHead(line, c) && Feed(m, c).out == m.out
  {
    HeaderChars(c);
    assert [c][..0] == "" && Scanned("") == IDLE && "" + [c] == [c];
  }

  lemma HeadRuns(h: string)
    requires forall x | x in h :: x in HEADER_CHARS
    ensures Run(START, ZCZC + h) == START.(mode := Head(ZCZC + h))
  {
    hide Run, IsHeaderChar;
    MarkRuns(START);
    forall x | x in h
      ensures IsHeaderChar(x)
    {
      HeaderChars(x);
    }
    HeaderRuns(START.(mode := Head(ZCZC)), ZCZC, h);
    RunAppend(START, ZCZC, h);
  }

  // What stands after ZCZC is read on in exactly as long as there are blanks, digits and line ends; what
  // comes then is the body if a line feed stands before it, and otherwise skipped.
  lemma HeaderEndsExactly(h: string, c: char)
    requires forall x | x in h :: x in HEADER_CHARS
    ensures Run(START, "ZCZC" + h + [c]).out == []
    ensures Run(START, "ZCZC" + h + [c]).mode == AfterHead("ZCZC" + h, c)
  {
    hide Run, Feed, AfterHead;
    HeadRuns(h);
    RunNext(START, ZCZC + h, c);
    HeadFed(Run(START, ZCZC + h), ZCZC + h, c);
  }
}
