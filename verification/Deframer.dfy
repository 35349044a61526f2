/** The stream code that cuts bulletins out of a file's text, proved against the one-pass machine. */
module Deframer {
  import opened Streams
  import opened Framing

  datatype Answer = Yes | No | Hangs

  // From m on, s is read like s' from m' on.
  ghost predicate ReadsAs(m: Machine, s: string, m': Machine, s': string)
    requires Sane(m.mode) && Sane(m'.mode)
  {
    Run(m, s) == Run(m', s') && (Defined(m, s) ==> Defined(m', s'))
  }

  // One more character is read: what the machine does with the rest of the text does not change.
  lemma ReadOne(m: Machine, text: string, p: nat)
    requires Sane(m.mode) && p < |text|
    ensures ReadsAs(m, text[p..], Feed(m, text[p]), text[p + 1..])
    ensures Defined(m, text[p..]) ==> !PastMark(m.mode, text[p])
  {
    hide Feed, PastMark;
    RunFirst(m, text[p..]);
    assert text[p..][1..] == text[p + 1..];
  }

  // A header run that ends with a character outside its alphabet is either a message or skipped text.
  function AfterHeader(m: Machine, line: string): Machine
    requires line != ""
  {
    if line[|line| - 1] == '\n' then m.(mode := Body(line, "")) else m.(gap := m.gap + line, mode := Seek(0))
  }

  // The old mode plays no part in these two steps.
  lemma ModeReplaced(m: Machine, mode: Mode, line: string, buf: string, c: char)
    ensures FeedBody(m.(mode := mode), line, buf, c) == FeedBody(m, line, buf, c)
    ensures FeedSeek(m.(mode := mode), 0, c) == FeedSeek(m, 0, c)
  {
    hide Scanned, AtEndMark;
  }

  lemma AfterHeaderFed(m: Machine, line: string, c: char)
    requires m.mode == Head(line) && line != "" && !IsHeaderChar(c)
    ensures Feed(AfterHeader(m, line), c) == Feed(m, c)
  {
    hide FeedBody, FeedSeek;
    ModeReplaced(m, Body(line, ""), line, "", c);
    ModeReplaced(m.(gap := m.gap + line), Seek(0), line, "", c);
  }

  lemma HeaderEnds(m: Machine, line: string, text: string, p: nat)
    requires m.mode == Head(line) && line != "" && p < |text| && !IsHeaderChar(text[p])
    ensures ReadsAs(m, text[p..], AfterHeader(m, line), text[p..])
  {
    hide Run, Feed, PastMark;
    ReadOne(m, text, p);
    ReadOne(AfterHeader(m, line), text, p);
    AfterHeaderFed(m, line, text[p]);
    assert text[p..][1..] == text[p + 1..];
    BodyNotBegun(m, line, text[p]);
  }

  lemma BodyNotBegun(m: Machine, line: string, c: char)
    requires line != ""
    ensures !PastMark(AfterHeader(m, line).mode, c)
  {
  }

  // First loop of findZCZC: up to and including the next ZCZC.
  method SeekMark(ist: InStream, ghost m: Machine) returns (found: bool, ch: char, line: string, ghost m': Machine)
    requires ist.Valid() && m.mode == Seek(0)
    modifies ist
    ensures ist.Valid()
    ensures !old(ist.Good()) ==> !found && ist.pos == old(ist.pos) && !ist.Good() && ist.eof == old(ist.eof)
    ensures old(ist.Good()) ==> Sane(m'.mode) && m'.out == m.out && ReadsAs(m, old(ist.Rest()), m', ist.Rest())
    ensures old(ist.Good()) && !found ==> ist.eof && m'.mode.Seek?
    ensures found ==> ist.Good() && ch == 'C' && line == ZCZC && m'.mode == Head(line) && ist.pos >= old(ist.pos) + 4
  {
    hide Run, Feed, Defined, PastMark;
    var izc := 0;
    ch := *;
    found := false;
    line := "";
    m' := m;
    while !found && !ist.eof
      invariant ist.Valid() && izc <= 4 && found == (izc == 4)
      invariant izc > 0 ==> ch == ZCZC[izc - 1]
      invariant !old(ist.Good()) ==> !found && ist.pos == old(ist.pos) && !ist.Good() && ist.eof == old(ist.eof)
      invariant old(ist.Good()) ==> Sane(m'.mode) && m'.out == m.out && ReadsAs(m, old(ist.Rest()), m', ist.Rest())
      invariant old(ist.Good()) ==> ist.Good() == !ist.eof
      invariant old(ist.Good()) && ist.Good() ==> line == ZCZC[..izc] && ist.pos >= old(ist.pos) + izc
      invariant old(ist.Good()) && ist.Good() ==> m'.mode == (if found then Head(ZCZC) else Seek(izc))
      invariant old(ist.Good()) && ist.eof ==> !found && m'.mode.Seek?
      decreases |ist.text| - ist.pos, !ist.eof
    {
      ghost var p := ist.pos;
      ch := ist.Get(ch);
      if ist.fail && !ist.eof {
        return false, ch, line, m';
      }
      if ist.Good() {
        ReadOne(m', ist.text, p);
        SeekFed(m', izc, ch);
        m' := Feed(m', ch);
      }
      // at end of input the last character is looked at once more
      if ch == ZCZC[izc] {
        line := line + [ch];
        izc := izc + 1;
      } else {
        izc := 0;
        line := "";
      }
      if izc == 4 {
        found := true;
      }
    }
  }

  // Second loop: the header run after ZCZC. At end of input the failed read leaves ch as it was, so
  // if that is a character of the run the loop never ends.
  method ReadHeaderRun(ist: InStream, ch0: char, line0: string, ghost m: Machine)
    returns (r: Answer, line: string, ghost m': Machine)
    requires ist.Valid() && ist.Good() && line0 == ZCZC && ch0 == 'C' && m.mode == Head(line0)
    modifies ist
    ensures ist.Valid() && m'.out == m.out && ist.pos >= old(ist.pos)
    ensures Sane(m'.mode) && ReadsAs(m, old(ist.Rest()), m', ist.Rest())
    ensures ist.Good() ==> r != Hangs && m'.mode == (if r == Yes then Body(line, "") else Seek(0))
    ensures ist.Good() ==> ist.pos < |ist.text|
    ensures !ist.Good() ==> r == (if ist.eof then Hangs else No) && m'.mode.Head? && ist.Rest() == ""
  {
    hide Run, Defined, PastMark;
    line := line0;
    m' := m;
    var ch, prevch := ch0, ch0;
    while true
      invariant ist.Valid() && ist.Good() && m'.out == m.out && ist.pos >= old(ist.pos)
      invariant line != "" && ch == line[|line| - 1] && m'.mode == Head(line)
      invariant IsHeaderChar(ch) || ch == 'C'
      invariant ReadsAs(m, old(ist.Rest()), m', ist.Rest())
      decreases |ist.text| - ist.pos
    {
      ghost var p := ist.pos;
      prevch := ch;
      ch := ist.Get(ch);
      if ist.fail && !ist.eof {
        return No, line, m';
      }
      var isValidCh := IsHeaderChar(ch);
      if isValidCh && ist.eof {
        return Hangs, line, m';
      }
      if !isValidCh {
        if ist.Good() {
          HeaderEnds(m', line, ist.text, p);
          m' := AfterHeader(m', line);
        }
        break;
      }
      ReadOne(m', ist.text, p);
      line := line + [ch];
      m' := Feed(m', ch);
    }
    ist.Putback(ch);
    r := if prevch == '\n' then Yes else No;
  }

  // The same loop as its state after n rounds, to show what Hangs stands for.
  datatype Loop = Running(rest: string, ch: char) | Left

  function HeaderLoop(rest: string, ch: char, n: nat): Loop {
    if n == 0 then Running(rest, ch)
    else if rest != "" then if IsHeaderChar(rest[0]) then HeaderLoop(rest[1..], rest[0], n - 1) else Left
    else if IsHeaderChar(ch) then HeaderLoop(rest, ch, n - 1) else Left
  }

  lemma {:induction false} LoopRuns(rest: string, ch: char, n: nat)
    requires (forall c | c in rest :: IsHeaderChar(c)) && (rest == "" ==> IsHeaderChar(ch))
    ensures HeaderLoop(rest, ch, n).Running?
    decreases n
  {
    if n > 0 {
      if rest == "" {
        LoopRuns(rest, ch, n - 1);
      } else {
        assert rest[0] in rest;
        LoopRuns(rest[1..], rest[0], n - 1);
      }
    }
  }

  lemma {:induction false} LoopLeft(rest: string, ch: char) returns (n: nat)
    requires if rest == "" then !IsHeaderChar(ch) else exists c :: c in rest && !IsHeaderChar(c)
    ensures HeaderLoop(rest, ch, n) == Left
    decreases |rest|
  {
    if rest == "" || !IsHeaderChar(rest[0]) {
      n := 1;
    } else {
      var c :| c in rest && !IsHeaderChar(c);
      assert c in rest[1..];
      n := LoopLeft(rest[1..], rest[0]);
      n := n + 1;
    }
  }

  // After ZCZC the loop runs for ever exactly when some header run follows and nothing comes after it.
  lemma HeaderLoopForever(rest: string)
    ensures (forall n: nat :: HeaderLoop(rest, 'C', n).Running?) <==>
            rest != "" && forall c | c in rest :: IsHeaderChar(c)
  {
    if rest != "" && forall c | c in rest :: IsHeaderChar(c) {
      forall n: nat
        ensures HeaderLoop(rest, 'C', n).Running?
      {
        LoopRuns(rest, 'C', n);
      }
    } else {
      var n := LoopLeft(rest, 'C');
    }
  }

  method FindZCZC(ist: InStream, ghost m: Machine) returns (r: Answer, line: string, ghost m': Machine)
    requires ist.Valid() && m.mode == Seek(0)
    modifies ist
    ensures ist.Valid()
    ensures !old(ist.Good()) ==> r == No && ist.pos == old(ist.pos) && !ist.Good() && ist.eof == old(ist.eof)
    ensures old(ist.Good()) ==> Sane(m'.mode) && m'.out == m.out && ReadsAs(m, old(ist.Rest()), m', ist.Rest())
    ensures ist.Good() ==> r != Hangs && m'.mode == (if r == Yes then Body(line, "") else Seek(0))
    ensures ist.Good() ==> old(ist.pos) + 4 <= ist.pos < |ist.text|
    ensures old(ist.Good()) && !ist.Good() ==> r != Yes && ist.Rest() == ""
    ensures old(ist.Good()) && !ist.Good() ==> if ist.eof && r == No then m'.mode.Seek? else m'.mode.Head?
  {
    hide Run, Defined, PastMark;
    var found, ch;
    found, ch, line, m' := SeekMark(ist, m);
    if !found {
      return No, line, m';
    }
    r, line, m' := ReadHeaderRun(ist, ch, line, m');
  }

  // ----- getMessage -----

  lemma BodyFed(m: Machine, line: string, buf: string, c: char)
    requires m.mode == Body(line, buf)
    ensures var m', buf' := Feed(m, c), buf + [c];
      var sc := Scanned(buf');
      && sc == Step(Scanned(buf), c)
      && m'.out == m.out && m'.gap == m.gap
      && m'.mode == if AtEndMark(sc) then Tail(line, buf'[..|buf'| - sc.count], buf'[|buf'| - sc.count..], 0)
                    else Body(line, buf')
  {
    assert (buf + [c])[..|buf|] == buf;
  }

  // What the stream has come to when a message ended: the machine that reads on is idle again.
  ghost predicate Ended(m: Machine, m': Machine, line: string, msg: string) {
    m'.mode == Seek(0) && exists p: Piece :: p.line == line && p.body == msg && m'.out == m.out + [p]
  }

  // The part of getMessage after NNNN: carriage returns, then one line feed or the end of input.
  method ReadTrailer(ist: InStream, ch0: char, ost0: string, count0: nat, line: string, ghost m: Machine)
    returns (ok: bool, msg: string, ghost m': Machine)
    requires ist.Valid() && ist.Good() && ch0 == 'N' && count0 <= |ost0|
    requires m.mode == Tail(line, ost0[..|ost0| - count0], ost0[|ost0| - count0..], 0)
    modifies ist
    ensures ist.Valid() && ist.pos >= old(ist.pos)
    ensures ist.Good() ==> Sane(m'.mode) && ReadsAs(m, old(ist.Rest()), m', ist.Rest())
    ensures ist.Good() ==> if ok then Ended(m, m', line, msg) else m'.mode == Seek(0) && m'.out == m.out
    ensures !ist.Good() ==> ist.eof
    ensures !ist.Good() ==>
      Finish(Run(m, old(ist.Rest()))) == Decoded(Bodies(m.out) + (if ok then [msg] else []), false)
  {
    hide Run, Scanned, Defined;
    var ch, prevCh := ch0, ch0;
    var ost := ost0;
    var count: nat, rnCount := count0, 0;
    ghost var body := ost0[..|ost0| - count0];
    m' := m;
    while true
      invariant ist.Valid() && ist.Good() && ist.pos >= old(ist.pos)
      invariant count <= |ost| && ost[..|ost| - count] == body
      invariant Sane(m'.mode) && ReadsAs(m, old(ist.Rest()), m', ist.Rest())
      invariant ch == '\n' ==> rnCount > 0 && Ended(m, m', line, body)
      invariant ch != '\n' ==> m'.out == m.out && m'.mode.Tail? && m'.mode.line == line && m'.mode.body == body
      invariant ch != '\n' ==> m'.mode.crs == rnCount
      decreases |ist.text| - ist.pos
    {
      ghost var p := ist.pos;
      prevCh := ch;
      ch := ist.Get(ch);
      if ist.fail {
        RunNone(m', ist.Rest());
        if ch == '\n' {
          EndedBodies(m, m', line, body);
        }
        if rnCount > 0 && ist.eof {
          return true, ost[..|ost| - count], m';
        } else {
          return false, "", m';
        }
      }
      if prevCh == '\n' && rnCount > 0 {
        ist.Putback(ch);
        return true, ost[..|ost| - count], m';
      } else if IsEol(ch) {
        rnCount := rnCount + 1;
        count := count + 1;
        ost := ost + [ch];
        ReadOne(m', ist.text, p);
        TailFed(m', ch);
        m' := Feed(m', ch);
      } else {
        ReadOne(m', ist.text, p);
        TailFed(m', ch);
        m' := Feed(m', ch);
        return false, "", m';
      }
    }
  }

  lemma RunNone(m: Machine, s: string)
    requires Sane(m.mode) && |s| == 0
    ensures Run(m, s) == m
    ensures Bodies(m.out) + [] == Bodies(m.out)
  {
  }

  lemma TailFed(m: Machine, c: char)
    requires m.mode.Tail?
    ensures var m' := Feed(m, c);
      if c == '\r' then
        m'.out == m.out && m'.mode == m.mode.(trailer := m.mode.trailer + [c], crs := m.mode.crs + 1)
      else if c == '\n' then Ended(m, m', m.mode.line, m.mode.body)
      else m'.mode == Seek(0) && m'.out == m.out
  {
    if c == '\n' {
      var p := Piece(m.gap, m.mode.line, m.mode.body, m.mode.trailer + [c]);
      assert Feed(m, c).out == m.out + [p];
    }
  }

  lemma EndedBodies(m: Machine, m': Machine, line: string, msg: string)
    requires Ended(m, m', line, msg)
    ensures Bodies(m'.out) == Bodies(m.out) + [msg]
  {
  }

  // The loop of getMessage that looks for the end mark; the numbers are those of the machine's scanner.
  method ReadBody(ist: InStream, line: string, ghost m: Machine) returns (ok: bool, msg: string, ghost m': Machine)
    requires ist.Valid() && ist.Good() && !ist.eof && m.mode == Body(line, "") && Defined(m, ist.Rest())
    modifies ist
    ensures ist.Valid() && ist.pos >= old(ist.pos)
    ensures ist.Good() ==> Sane(m'.mode) && ReadsAs(m, old(ist.Rest()), m', ist.Rest())
    ensures ist.Good() ==> if ok then Ended(m, m', line, msg) else m'.mode == Seek(0) && m'.out == m.out
    ensures !ist.Good() ==> ist.eof
    ensures !ist.Good() ==>
      Finish(Run(m, old(ist.Rest()))) == Decoded(Bodies(m.out) + (if ok then [msg] else []), false)
  {
    hide Run, Scanned, Defined;
    var iNNN: nat, rnCount: nat, count: nat := 0, 0, 0;
    var ch: char := *;
    var ost := "";
    m' := m;
    ScannedNone();
    while !ist.eof
      invariant ist.Valid() && ist.Good() && !ist.eof && ist.pos >= old(ist.pos)
      invariant ost == ist.text[old(ist.pos)..ist.pos]
      invariant m'.out == m.out && m'.mode == Body(line, ost)
      invariant ReadsAs(m, old(ist.Rest()), m', ist.Rest())
      invariant Scanned(ost) == Scan(iNNN, rnCount, count) && iNNN <= 4
      decreases |ist.text| - ist.pos
    {
      ghost var p := ist.pos;
      ch := ist.Get(ch);
      if ist.fail {
        RunNone(m', ist.Rest());
        return false, "", m';
      }
      ReadOne(m', ist.text, p);
      BodyFed(m', line, ost, ch);
      m' := Feed(m', ch);
      ost := ost + [ch];
      var nnnn := if iNNN < 4 then 'N' else '\0';
      if nnnn == ch || ch == '\n' || ch == '\r' {
        count := count + 1;
        if nnnn == ch {
          iNNN := iNNN + 1;
        } else {
          rnCount := rnCount + 1;
          iNNN := 0;
        }
      } else {
        count := 0;
        iNNN := 0;
        rnCount := 0;
      }
      if iNNN == 4 && rnCount > 2 {
        ghost var mt := m';
        ok, msg, m' := ReadTrailer(ist, ch, ost, count, line, mt);
        return;
      }
    }
    // never here: end of input is only found by a failed read, which returns above
    assert false;
    ok, msg := false, "";
  }

  method GetMessage(ist: InStream, ghost m: Machine) returns (r: Answer, msg: string, line: string, ghost m': Machine)
    requires ist.Valid() && m.mode == Seek(0) && (ist.Good() ==> Defined(m, ist.Rest()))
    modifies ist
    ensures ist.Valid()
    ensures !old(ist.Good()) ==> r == No && ist.pos == old(ist.pos) && !ist.Good() && ist.eof == old(ist.eof)
    ensures ist.Good() ==> ist.pos >= old(ist.pos) + 4 && r != Hangs
    ensures ist.Good() ==> m'.mode == Seek(0) && ReadsAs(m, old(ist.Rest()), m', ist.Rest())
    ensures ist.Good() ==> if r == Yes then Ended(m, m', line, msg) else m'.out == m.out
    ensures old(ist.Good()) && !ist.Good() ==>
      Finish(Run(m, old(ist.Rest()))) ==
      Decoded(Bodies(m.out) + (if r == Yes then [msg] else []), r == Hangs || !ist.eof)
  {
    hide Run, Defined, PastMark;
    r, line, m' := FindZCZC(ist, m);
    if r != Yes {
      if old(ist.Good()) && !ist.Good() {
        RunNone(m', ist.Rest());
      }
      return r, "", line, m';
    }
    var ok;
    ok, msg, m' := ReadBody(ist, line, m');
    r := if ok then Yes else No;
  }

  // The loop of decode on a stream that has failed short of eof: after any number of rounds nothing has
  // been read, no message found, and eof is not set, so that there is another round.
  method DecodeLoopForever(ist: InStream, rounds: nat)
    requires ist.Valid() && ist.fail && !ist.eof
    modifies ist
    ensures ist.Valid() && ist.fail && !ist.eof && ist.pos == old(ist.pos)
  {
    var i := 0;
    while !ist.eof && i < rounds
      invariant ist.Valid() && ist.fail && !ist.eof && ist.pos == old(ist.pos) && i <= rounds
    {
      var r, msg, theZCZCline;
      ghost var m;
      r, msg, theZCZCline, m := GetMessage(ist, START);
      assert r == No;
      i := i + 1;
    }
    assert i == rounds;
  }

  lemma ScannedNone()
    ensures Scanned("") == IDLE
  {
  }
}
