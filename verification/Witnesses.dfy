/** Single inputs: those on which the program does not do what one might expect of it, one for each such finding,
    and some that it must tell apart. */
module Witnesses {
  import opened Text
  import opened Crc
  import opened Framing
  import opened FramingLaws
  import opened FramingLimits
  import opened FramingEnds
  import opened FileEntries
  import opened Scanning
  import opened Persistence
  import opened Runs
  import opened FileRuns
  import opened CopyDisk
  import R = Recognisers
  import B = Bulletins
  import A = Alphabets
  import O = Outbox

  // A text that stops after a header run is never decoded to its end.
  lemma HeaderAtEnd()
    ensures Deframe("ZCZC\n").hangs
  {
    hide Run, Deframe;
    RunNone(START, "");
    ReadyHangs("", "\n");
    assert "ZCZC\n" == "" + ZCZC + "\n";
  }

  // Four Ns that close nothing, and a NUL.
  lemma NulAfterNs()
    ensures !Defined(START, "ZCZC\nNNNN\0")
  {
    hide Run, Defined, NRun, Ns, Opened;
    var f := Frame("", "\n", Ns(4), "\n\n\n", 0);
    FourNsPrintable();
    FrameOpens(START, f);
    FourNs();
    var s := "ZCZC\nNNNN\0";
    assert s[..9] == "ZCZC\nNNNN" && s[9] == '\0';
    assert InBody(s[..9]);
    DefinedExactly(s);
  }

  lemma {:induction false} NsCounted(k: nat)
    ensures NRun(Ns(k)) == k
  {
    if k > 0 {
      NsCounted(k - 1);
      assert Ns(k)[..k - 1] == Ns(k - 1);
    }
  }

  lemma FourIs()
    ensures Ns(4) == "NNNN"
  {
    assert Ns(1) == "N";
    assert Ns(2) == "NN";
    assert Ns(3) == "NNN";
  }

  lemma FourNs()
    ensures Ns(4) == "NNNN" && NRun("ZCZC\nNNNN") == 4
    ensures Opened(Frame("", "\n", Ns(4), "\n\n\n", 0)) == "ZCZC\nNNNN"
  {
    hide NRun, Ns;
    FourIs();
    NsCounted(4);
    NRunBehind("ZCZC", "\n" + Ns(4));
    NRunAfterEol(Ns(4));
    assert "ZCZC\nNNNN" == "ZCZC" + ("\n" + Ns(4));
  }

  // A frame with an empty gap and the shortest header.
  lemma ShortFrame(body: string)
    requires body != "" && !IsHeaderChar(body[0]) && Unmarked(body)
    ensures Printable(Frame("", "\n", body, "\n\n\n", 0))
  {
    hide Scanned;
    RunNone(START, "");
  }

  lemma FourNsPrintable()
    ensures Printable(Frame("", "\n", Ns(4), "\n\n\n", 0))
  {
    NoLineEnds(4);
    ShortFrame(Ns(4));
  }

  lemma {:induction false} NoLineEnds(k: nat)
    ensures Scanned(Ns(k)).rn == 0 && Unmarked(Ns(k)) && (k > 0 ==> Ns(k)[0] == 'N')
  {
    if k > 0 {
      NoLineEnds(k - 1);
      assert Ns(k)[..k - 1] == Ns(k - 1);
    }
  }

  // A last message without an end mark is dropped.
  lemma NoEndMark()
    ensures Deframe("ZCZC\nA") == Decoded([], false)
  {
    hide Deframe, Printable;
    var f := Frame("", "\n", "A", "\n\n\n", 0);
    OneLetter("A");
    ShortFrame("A");
    UnfinishedFrame([], f, "");
    assert PrintAll([]) + (Opened(f) + "") == "ZCZC\nA";
    assert StrippedBodies([]) + [] == [];
  }

  lemma OneLetter(s: string)
    requires |s| == 1
    ensures Unmarked(s)
  {
    assert s[..0] == "" && Scanned(s[..0]) == IDLE && Unmarked(s[..0]);
  }

  // Of two Zs before CZC the second is taken for a mismatch.
  lemma Overlooked()
    ensures !Run(START, "ZZCZC").mode.Head?
  {
    hide Run;
    var s := "ZZCZC";
    assert s[1..5] == ZCZC && s[..5] == s && s[0..4][1] == 'Z' != ZCZC[1];
    assert !OccursAt(ZCZC, s, 0);
    FirstMarkFound(START, s, 1);
    assert s[..2] == "ZZ" && "ZZ"[..1] == "Z" && "Z"[..0] == "";
    assert ZRun("Z") == 1 && ZRun("ZZ") == 2;
  }

  // A body that ends in N comes back without it.
  lemma LastLetterLost()
    ensures Deframe(Print(Frame("", "\n", "AN", "\n\n\n", 0))) == Decoded(["A"], false)
  {
    hide Run, Print, Printable, Stripped;
    var f := Frame("", "\n", "AN", "\n\n\n", 0);
    LettersAN();
    ShortFrame("AN");
    FramesRun([f]);
    OneFrame(f);
    IdleFinish(Print(f));
    assert StrippedBodies([f]) == ["A"];
  }

  lemma OneFrame(f: Frame)
    ensures PrintAll([f]) == Print(f)
  {
    hide Print;
    assert [f][..0] == [];
    assert "" + Print(f) == Print(f);
  }

  lemma LettersAN()
    ensures Unmarked("AN") && Stripped("AN") == "A"
  {
    assert "AN"[..1] == "A" && "A"[..0] == "";
    assert Scanned("A") == IDLE;
  }

  // A file whose copy cannot be read in the pass that gets to it is stuck, for whatever its name and time.
  lemma UnreadableCopy(l: Listed, tmpdir: string)
    requires l.copied && l.restat == Some(l.mtime)
    ensures var none := Poll([l], Copies(map[], {}), {l.name});
      PossibleRun(EMPTY, [none, none, none], tmpdir) &&
      StuckAt(After(EMPTY, [none, none, none], tmpdir), l.name, CopyName(tmpdir, l))
  {
    hide Turn, CopyName, PossibleRun, After;
    var none := Poll([l], Copies(map[], {}), {l.name});
    assert Find([l], l.name) == Some(l);
    var w1 := Turn(EMPTY, none, tmpdir);
    TurnEach(EMPTY, none, tmpdir, l.name);
    var w2 := Turn(w1, none, tmpdir);
    TurnEach(w1, none, tmpdir, l.name);
    TurnEach(w2, none, tmpdir, l.name);
    NoTurns(EMPTY, tmpdir);
    ThreeOn(EMPTY, [], none, none, none, tmpdir);
    assert [] + [none, none, none] == [none, none, none];
  }

  // A file that is missing from one listing is handed on twice, whatever it holds.
  lemma MissedOnce(l: Listed, other: Listed, c: Bytes, tmpdir: string)
    requires l.copied && l.restat == Some(l.mtime) && other.name != l.name && c != []
    ensures var good := Poll([l], Copies(map[CopyName(tmpdir, l) := c], {CopyName(tmpdir, l)}), {l.name});
      var missed := Poll([other], Copies(map[], {}), {});
      var evs := [good, good, good, missed, good, good, good];
      PossibleRun(EMPTY, evs, tmpdir) && HandedSoFar(After(EMPTY, evs, tmpdir), l.name) == [c, c]
  {
    hide Turn, CopyName, PossibleRun, After;
    var good := Poll([l], Copies(map[CopyName(tmpdir, l) := c], {CopyName(tmpdir, l)}), {l.name});
    var missed := Poll([other], Copies(map[], {}), {});
    assert Find([l], l.name) == Some(l) && Find([other], l.name) == None;
    NewFileHanded(EMPTY, good, good, good, tmpdir, l.name, l.mtime);
    var w3 := Turn(Turn(Turn(EMPTY, good, tmpdir), good, tmpdir), good, tmpdir);
    PollOthers(w3, [other], Copies(map[], {}), {}, tmpdir, l.name);
    var w4 := Turn(w3, missed, tmpdir);
    NewFileHanded(w4, good, good, good, tmpdir, l.name, l.mtime);
    NoTurns(EMPTY, tmpdir);
    ThreeOn(EMPTY, [], good, good, good, tmpdir);
    var three := [good, good, good];
    assert [] + three == three;
    AfterNext(EMPTY, three, missed, tmpdir);
    ThreeOn(EMPTY, three + [missed], good, good, good, tmpdir);
    assert three + [missed] + three == [good, good, good, missed, good, good, good];
  }

  lemma NoTurns(w: World, tmpdir: string)
    ensures PossibleRun(w, [], tmpdir) && After(w, [], tmpdir) == w
  {
  }

  lemma ThreeOn(w: World, evs: seq<Event>, ev1: Event, ev2: Event, ev3: Event, tmpdir: string)
    requires ev1.Poll? && ev2.Poll? && ev3.Poll?
    requires Distinct(ev1.listing) && Distinct(ev2.listing) && Distinct(ev3.listing)
    requires PossibleRun(w, evs, tmpdir)
    ensures PossibleRun(w, evs + [ev1, ev2, ev3], tmpdir)
    ensures After(w, evs + [ev1, ev2, ev3], tmpdir) ==
            Turn(Turn(Turn(After(w, evs, tmpdir), ev1, tmpdir), ev2, tmpdir), ev3, tmpdir)
  {
    hide Turn, PossibleRun, After;
    AfterNext(w, evs, ev1, tmpdir);
    AfterNext(w, evs + [ev1], ev2, tmpdir);
    AfterNext(w, evs + [ev1] + [ev2], ev3, tmpdir);
    assert evs + [ev1] + [ev2] + [ev3] == evs + [ev1, ev2, ev3];
  }

  // A file name with a line feed is gone after a restart.
  lemma LineFeedInName(e: Entry, mtime: int)
    ensures var index, disk := map["a\nb" := e], map["a\nb" := mtime];
      ReadState(PrintState(["a\nb"], index), disk, map[]) != Loaded(map["a\nb" := Reloaded("a\nb", e, mtime)])
  {
    hide ReadState, PrintState, Reloaded;
    var index, disk := map["a\nb" := e], map["a\nb" := mtime];
    var all := map name | name in index :: Reloaded(name, index[name], disk[name]);
    assert '\n' == "a\nb"[1] && '\n' in "a\nb";
    assert Enumerates(["a\nb"], index.Keys);
    RestoredUnlessLineFeed(["a\nb"], index, disk);
    assert all == map["a\nb" := Reloaded("a\nb", e, mtime)];
  }

  // A message for a decoder with "/" in its name is lost when kvalobs is down, however much room there is.
  lemma SlashInDecoder(text: string, disk: O.Disk)
    ensures O.ApplyAll(O.EMPTY, [O.Send(O.Message("bufr/x", text), O.UNREACHABLE, disk)]).fate ==
            map[0 := O.Lost]
  {
    hide O.NameToWrite;
    var m := O.Message("bufr/x", text);
    var ops := [O.Send(m, O.UNREACHABLE, disk)];
    assert ops[..0] == [] && O.ApplyAll(O.EMPTY, []) == O.EMPTY;
    assert O.SavedPrefix(m)[11] == '/' && '/' in O.SavedPrefix(m);
    O.SlashNotWritten(map[], O.SavedPrefix(m), O.SavedText(m), disk);
  }

  // A NIL report of a station is told from an observation.
  lemma NilStation()
    ensures B.SynopIsNil("01007 NIL=") && !B.SynopIsNil("01008 11478=")
  {
    hide B.SynopIsNil;
    R.NilRead("", "01007", " ", "", "=", "");
    assert "" + ("01007" + (" " + ("NIL" + ("" + ("=" + ""))))) == "01007 NIL=";
    R.NilExactly("01008 11478=");
    NilHasN("01008 11478=");
  }

  lemma NilHasN(s: string)
    ensures R.NilText(s) ==> 'N' in s
  {
    hide IsSpace, IsDigit;
    if a, n, b, c, e, z :| R.NilOf(s, a, n, b, c, e, z) {
      assert s[|a| + |n| + |b|] == 'N';
    }
  }

  // The digits of a message's number are all skipped.
  lemma NumberedMessage()
    ensures Deframe("ZCZC 780\r\r\nAN.\n\n\nNNNN\r\n") == Decoded(["AN."], false)
  {
    hide Run, Deframe;
    var b := A.Bulletin("", " 780\r\r\n", "AN.", "\n\n\n", "\r");
    assert A.Plain(b);
    A.WrittenReadBack([b], "");
    assert [b][..0] == [] && A.WrittenAll([]) == "";
    assert A.WrittenAll([b]) + "" == A.Written(b) == "ZCZC 780\r\r\nAN.\n\n\nNNNN\r\n";
    assert A.BodiesOf([b]) == ["AN."];
    NothingDeframed();
    assert ["AN."] + [] == ["AN."];
  }

  lemma NothingDeframed()
    ensures Deframe("") == Decoded([], false)
  {
  }

  // A file that goes away between the copy and the stat after it is dropped, and its copy stays on the disk.
  lemma CopyLeft(disk: Disk, e: Entry, l: Listed, tmpdir: string, debug: bool)
    requires Copying(Some(e), l) && l.restat == None
    ensures Visit(Some(e), l, tmpdir) == None
    ensures CopyName(tmpdir, l) in DiskAfterVisit(disk, Some(e), l, tmpdir, debug)
  {
    hide CopyName;
  }
}
