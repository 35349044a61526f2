/** Runs with a directory of copies: what is read of a file is what that file itself held when it was listed. */
module CopyRuns {
  import opened Text
  import opened Crc
  import opened FileEntries
  import opened Scanning
  import opened CopyDisk
  import opened Persistence
  import opened Runs
  import opened FileRuns

  // The directory after one turn, and after a run.
  function DiskAfterTurn(disk: Disk, w: World, ev: Event, tmpdir: string, debug: bool): Disk {
    match ev
    case Restart(_, _) => disk
    case Poll(listing, copies, done) =>
      var scanned := DiskAfterScan(disk, w.index, listing, tmpdir, debug);
      if HasNewFiles(w.index, listing, tmpdir)
      then DiskAfterPass(scanned, Scan(w.index, listing, tmpdir), done, debug) else scanned
  }

  ghost function DiskAfterRun(disk: Disk, w: World, evs: seq<Event>, tmpdir: string, debug: bool): Disk
    requires PossibleRun(w, evs, tmpdir)
    decreases |evs|
  {
    if evs == [] then disk
    else DiskAfterRun(DiskAfterTurn(disk, w, evs[0], tmpdir, debug), Turn(w, evs[0], tmpdir), evs[1..], tmpdir, debug)
  }

  // What is read is what is there.
  predicate Agrees(copies: Copies, disk: Disk) {
    forall f | f in copies.contents :: f in disk && copies.contents[f] == disk[f]
  }

  // The files are listed from one directory, the clock has moved on since the last copies were made, and the
  // pass reads what the scan has left in the directory of copies.
  ghost predicate Orderly(w: World, disk: Disk, ev: Event, dir: string, tmpdir: string, debug: bool) {
    ev.Poll? ==>
      && OfDirectory(ev.listing, dir)
      && (forall l | l in ev.listing :: Unused(w.index, l, tmpdir))
      && Agrees(ev.copies, DiskAfterScan(disk, w.index, ev.listing, tmpdir, debug))
  }

  ghost predicate OrderlyRun(w: World, disk: Disk, evs: seq<Event>, dir: string, tmpdir: string, debug: bool)
    requires PossibleRun(w, evs, tmpdir)
    decreases |evs|
  {
    evs == [] ||
    (Orderly(w, disk, evs[0], dir, tmpdir, debug) &&
     OrderlyRun(Turn(w, evs[0], tmpdir), DiskAfterTurn(disk, w, evs[0], tmpdir, debug), evs[1..], dir, tmpdir, debug))
  }

  lemma {:induction false} DiskAfterNext(disk: Disk, w: World, evs: seq<Event>, ev: Event, tmpdir: string, debug: bool)
    requires PossibleRun(w, evs, tmpdir) && Possible(After(w, evs, tmpdir), ev)
    ensures PossibleRun(w, evs + [ev], tmpdir)
    ensures DiskAfterRun(disk, w, evs + [ev], tmpdir, debug) ==
            DiskAfterTurn(DiskAfterRun(disk, w, evs, tmpdir, debug), After(w, evs, tmpdir), ev, tmpdir, debug)
    decreases |evs|
  {
    hide Turn, Possible, DiskAfterTurn;
    AfterNext(w, evs, ev, tmpdir);
    if evs == [] {
      assert evs + [ev] == [ev] && [ev][1..] == [];
    } else {
      assert (evs + [ev])[1..] == evs[1..] + [ev];
      DiskAfterNext(DiskAfterTurn(disk, w, evs[0], tmpdir, debug), Turn(w, evs[0], tmpdir), evs[1..], ev, tmpdir,
                    debug);
    }
  }

  function TakenAfterTurn(taken: Disk, w: World, ev: Event, tmpdir: string): Disk {
    if ev.Poll? then TakenAfterScan(taken, w.index, ev.listing, tmpdir) else taken
  }

  lemma NoCopyOwn(index: Index, disk: Disk, taken: Disk)
    requires forall n | n in index :: index[n].copy == ""
    ensures Own(index, disk, taken)
  {
  }

  // One turn keeps it so that copies are of the files they are held for.
  lemma TurnOwn(w: World, disk: Disk, taken: Disk, ev: Event, dir: string, tmpdir: string, debug: bool)
    requires Possible(w, ev) && Own(w.index, disk, taken) && Orderly(w, disk, ev, dir, tmpdir, debug)
    ensures Own(Turn(w, ev, tmpdir).index, DiskAfterTurn(disk, w, ev, tmpdir, debug),
                TakenAfterTurn(taken, w, ev, tmpdir))
  {
    hide Own, Scan, DiskAfterScan, TakenAfterScan, HasNewFiles, CollectAll, DiskAfterPass, Unused, OfDirectory;
    if ev.Poll? {
      ScanOwn(w.index, disk, taken, ev.listing, dir, tmpdir, debug);
      PassOwn(Scan(w.index, ev.listing, tmpdir), DiskAfterScan(disk, w.index, ev.listing, tmpdir, debug),
              TakenAfterScan(taken, w.index, ev.listing, tmpdir), ev.copies, ev.done, debug);
    } else {
      forall n | n in Turn(w, ev, tmpdir).index
        ensures Turn(w, ev, tmpdir).index[n].copy == ""
      {
        RestartFresh(w, ev, tmpdir, n);
      }
      NoCopyOwn(Turn(w, ev, tmpdir).index, disk, taken);
    }
  }

  // What is read of a file is what was taken of it.
  lemma ReadTaken(w: World, disk: Disk, taken: Disk, ev: Event, dir: string, tmpdir: string, debug: bool,
                  name: string)
    requires Possible(w, ev) && Own(w.index, disk, taken) && Orderly(w, disk, ev, dir, tmpdir, debug)
    ensures var c := ReadNow(w, ev, tmpdir, name); var taken' := TakenAfterTurn(taken, w, ev, tmpdir);
      c.Some? ==> name in taken' && taken'[name] == c.value
  {
    hide Scan, DiskAfterScan, TakenAfterScan, Visit, Unused, OfDirectory, CopiesApart;
    if ReadNow(w, ev, tmpdir, name).Some? {
      var l := Find(ev.listing, name).value;
      ScanEach(w.index, ev.listing, tmpdir, l);
      ScanOwn(w.index, disk, taken, ev.listing, dir, tmpdir, debug);
    }
  }

  lemma {:induction false} AllTaken(taken: Disk, index: Index, listing: seq<Listed>, tmpdir: string, name: string)
    requires Distinct(listing)
    ensures var taken' := TakenAfterAll(taken, index, listing, tmpdir);
      && (name !in Names(listing) ==> TakenFor(taken', name) == TakenFor(taken, name))
      && forall l | l in listing && l.name == name ::
           TakenFor(taken', name) == TakenFor(TakenAfterVisit(taken, Get(index, name), l), name)
    decreases |listing|
  {
    hide TakenAfterVisit, Visit, TakenFor;
    if listing != [] {
      var init, last := listing[..|listing| - 1], listing[|listing| - 1];
      AllTaken(taken, index, init, tmpdir, name);
      VisitAllEach(index, init, tmpdir, name);
      assert forall l :: l in listing <==> l in init || l == last;
      var before := TakenAfterAll(taken, index, init, tmpdir);
      TakenEach(before, taken, Get(VisitAll(index, init, tmpdir), last.name), last, name);
      if last.name == name {
        NotIn(listing);
      }
    }
  }

  function TakenFor(taken: Disk, name: string): Option<Bytes> {
    if name in taken then Some(taken[name]) else None
  }

  lemma TakenEach(a: Disk, b: Disk, e: Option<Entry>, l: Listed, name: string)
    ensures l.name != name ==> TakenFor(TakenAfterVisit(a, e, l), name) == TakenFor(a, name)
    ensures l.name == name && TakenFor(a, name) == TakenFor(b, name) ==>
            TakenFor(TakenAfterVisit(a, e, l), name) == TakenFor(TakenAfterVisit(b, e, l), name)
  {
  }

  // After a scan: the content the file was listed with if it was copied for good, and else what it was before.
  lemma ScanTaken(taken: Disk, index: Index, listing: seq<Listed>, tmpdir: string, l: Listed)
    requires Distinct(listing) && l in listing
    ensures TakenFor(TakenAfterScan(taken, index, listing, tmpdir), l.name) ==
            TakenFor(TakenAfterVisit(taken, Get(index, l.name), l), l.name)
  {
    hide TakenAfterVisit, TakenFor, Forget;
    AllTaken(taken, Forget(index, listing), listing, tmpdir, l.name);
    ForgetKeeps(index, listing, l);
  }

  // A scan and the pass after it: what is read of a file is what the file itself held when it was copied in this
  // scan, or in an earlier one if the copy made then is still in the way.
  lemma ReadOwn(w: World, disk: Disk, taken: Disk, ev: Event, dir: string, tmpdir: string, debug: bool, name: string)
    requires Possible(w, ev) && Own(w.index, disk, taken) && Orderly(w, disk, ev, dir, tmpdir, debug)
    requires ReadNow(w, ev, tmpdir, name).Some?
    ensures var l := Find(ev.listing, name).value;
      && name in w.index
      && Some(ReadNow(w, ev, tmpdir, name).value) ==
         if StaleCopy(w.index[name], l) then TakenFor(taken, name) else Some(l.content)
  {
    hide Scan, DiskAfterScan, TakenAfterScan, Unused, OfDirectory, Own, Agrees, CopyName;
    var l := Find(ev.listing, name).value;
    ReadTaken(w, disk, taken, ev, dir, tmpdir, debug, name);
    IsOrderly(w, disk, ev, dir, tmpdir, debug);
    ScanTaken(taken, w.index, ev.listing, tmpdir, l);
  }

  lemma IsOrderly(w: World, disk: Disk, ev: Event, dir: string, tmpdir: string, debug: bool)
    requires Orderly(w, disk, ev, dir, tmpdir, debug) && ev.Poll?
    ensures Distinct(ev.listing)
  {
  }

  // A copy is still there when its turn in a pass comes.
  lemma ThereInTurn(index: Index, disk: Disk, done: set<string>, name: string, debug: bool)
    requires CopiesApart(index) && name in index && name !in done && ToBeCollected(index[name])
    requires index[name].copy in disk
    ensures var disk' := DiskAfterPass(disk, index, done, debug);
      index[name].copy in disk' && disk'[index[name].copy] == disk[index[name].copy]
  {
  }

  // ----- Over runs -----

  // Some listing shows the file with this content.
  ghost predicate Showed(evs: seq<Event>, name: string, c: Bytes) {
    exists k: nat, l :: k < |evs| && evs[k].Poll? && l in evs[k].listing && l.name == name && l.content == c
  }

  lemma ShowedBefore(evs: seq<Event>, ev: Event, name: string, c: Bytes)
    requires Showed(evs, name, c)
    ensures Showed(evs + [ev], name, c)
  {
    var k: nat, l :| k < |evs| && evs[k].Poll? && l in evs[k].listing && l.name == name && l.content == c;
    assert (evs + [ev])[k] == evs[k];
  }

  lemma ShowedNow(evs: seq<Event>, ev: Event, l: Listed)
    requires ev.Poll? && l in ev.listing
    ensures Showed(evs + [ev], l.name, l.content)
  {
    assert (evs + [ev])[|evs|] == ev;
  }

  ghost predicate AllShowed(evs: seq<Event>, taken: Disk) {
    forall name | name in taken :: Showed(evs, name, taken[name])
  }

  lemma TurnShowed(w: World, taken: Disk, pre: seq<Event>, ev: Event, tmpdir: string)
    requires Possible(w, ev) && AllShowed(pre, taken)
    ensures AllShowed(pre + [ev], TakenAfterTurn(taken, w, ev, tmpdir))
  {
    hide Showed, TakenAfterVisit;
    var taken' := TakenAfterTurn(taken, w, ev, tmpdir);
    forall name | name in taken'
      ensures Showed(pre + [ev], name, taken'[name])
    {
      if name in taken && taken'[name] == taken[name] {
        ShowedBefore(pre, ev, name, taken[name]);
      } else {
        NewlyTaken(w, taken, ev, tmpdir, name);
        ShowedNow(pre, ev, Find(ev.listing, name).value);
      }
    }
  }

  lemma NewlyTaken(w: World, taken: Disk, ev: Event, tmpdir: string, name: string)
    requires Possible(w, ev)
    requires TakenFor(TakenAfterTurn(taken, w, ev, tmpdir), name) != TakenFor(taken, name)
    ensures ev.Poll? && Find(ev.listing, name).Some?
    ensures TakenFor(TakenAfterTurn(taken, w, ev, tmpdir), name) == Some(Find(ev.listing, name).value.content)
  {
    hide Forget, VisitAll;
    AllTaken(taken, Forget(w.index, ev.listing), ev.listing, tmpdir, name);
  }

  lemma {:induction false} RunShows(w: World, disk: Disk, taken: Disk, pre: seq<Event>, evs: seq<Event>, dir: string,
                                    tmpdir: string, debug: bool, name: string, last: Bytes)
    requires GrowingRun(w, evs, tmpdir, name, last) && PossibleRun(w, evs, tmpdir)
    requires OrderlyRun(w, disk, evs, dir, tmpdir, debug) && Own(w.index, disk, taken) && AllShowed(pre, taken)
    requires last == [] || Showed(pre, name, last)
    ensures var last' := Outcome(w, evs, tmpdir, name, last).1; last' == [] || Showed(pre + evs, name, last')
    decreases |evs|
  {
    hide Turn, Orderly, Own, AllShowed, Showed, ReadNow, TakenAfterTurn, DiskAfterTurn, Storable;
    if evs == [] {
      assert pre + evs == pre;
    } else {
      var ev := evs[0];
      TurnOwn(w, disk, taken, ev, dir, tmpdir, debug);
      TurnShowed(w, taken, pre, ev, tmpdir);
      ReadTaken(w, disk, taken, ev, dir, tmpdir, debug, name);
      var taken' := TakenAfterTurn(taken, w, ev, tmpdir);
      var last' := LastAfter(w, ev, tmpdir, name, last);
      if ReadNow(w, ev, tmpdir, name).Some? {
        ShowedTaken(pre + [ev], taken', name);
      } else if last != [] {
        ShowedBefore(pre, ev, name, last);
      }
      assert pre + [ev] + evs[1..] == pre + evs;
      RunShows(Turn(w, ev, tmpdir), DiskAfterTurn(disk, w, ev, tmpdir, debug), taken', pre + [ev], evs[1..], dir,
               tmpdir, debug, name, last');
    }
  }

  lemma ShowedTaken(evs: seq<Event>, taken: Disk, name: string)
    requires AllShowed(evs, taken) && name in taken
    ensures Showed(evs, name, taken[name])
  {
  }

  // Over every run in which copies keep apart: what was last read of a growing file, and by HandedOnOnce handed
  // on of it, is what that file itself was listed with; no byte of another file is.
  lemma OwnContentRead(evs: seq<Event>, dir: string, tmpdir: string, debug: bool, name: string)
    requires GrowingRun(EMPTY, evs, tmpdir, name, []) && PossibleRun(EMPTY, evs, tmpdir)
    requires OrderlyRun(EMPTY, map[], evs, dir, tmpdir, debug)
    ensures var last := Outcome(EMPTY, evs, tmpdir, name, []).1; last == [] || Showed(evs, name, last)
  {
    hide GrowingRun, PossibleRun, OrderlyRun, Outcome, Showed;
    NoCopyOwn(map[], map[], map[]);
    assert AllShowed([], map[]);
    RunShows(EMPTY, map[], map[], [], evs, dir, tmpdir, debug, name, []);
    assert [] + evs == evs;
  }

  // ----- A copy that could not be read, outside debugging -----

  lemma {:induction false} NothingElseWritten(disk: Disk, index: Index, listing: seq<Listed>, tmpdir: string,
                                              debug: bool, f: string)
    requires f !in disk && forall l | l in listing :: f != CopyName(tmpdir, l)
    ensures f !in DiskAfterAll(disk, index, listing, tmpdir, debug)
    decreases |listing|
  {
    hide CopyName;
    if listing != [] {
      NothingElseWritten(disk, index, listing[..|listing| - 1], tmpdir, debug, f);
    }
  }

  lemma ScanLeavesOut(w: World, disk: Disk, ev: Event, dir: string, tmpdir: string, debug: bool, name: string)
    requires ev.Poll? && Orderly(w, disk, ev, dir, tmpdir, debug) && name in w.index && w.index[name].copy !in disk
    ensures w.index[name].copy !in DiskAfterScan(disk, w.index, ev.listing, tmpdir, debug)
    ensures w.index[name].copy !in ev.copies.contents
  {
    hide CopyName, DiskAfterAll, OfDirectory;
    forall l | l in ev.listing
      ensures w.index[name].copy != CopyName(tmpdir, l)
    {
      assert Unused(w.index, l, tmpdir);
    }
    NothingElseWritten(disk, Forget(w.index, ev.listing), ev.listing, tmpdir, debug, w.index[name].copy);
  }

  // What sets a stuck file free when its copy is gone: it never becomes readable again.
  predicate FreesGone(w: World, ev: Event, name: string)
    requires name in w.index
  {
    match ev
    case Restart(_, _) => true
    case Poll(listing, _, done) =>
      listing != [] &&
      var l := Find(listing, name);
      l.None? || if l.value.mtime != w.index[name].mtime then l.value.restat.None? else name !in done
  }

  // Outside debugging the pass that fails to read a copy removes it, though its name stays.
  lemma UnreadableGone(w: World, disk: Disk, ev: Event, tmpdir: string, name: string)
    requires ev.Poll? && Possible(w, ev) && name in ev.done && Find(ev.listing, name).Some?
    requires var v := Visit(Get(w.index, name), Find(ev.listing, name).value, tmpdir);
      IsPending(v) && v.value.copy !in ev.copies.contents
    ensures var w' := Turn(w, ev, tmpdir);
      name in w'.index && StuckAt(w', name, w'.index[name].copy) &&
      w'.index[name].copy !in DiskAfterTurn(disk, w, ev, tmpdir, false)
  {
    hide Turn, Visit, Scan, DiskAfterScan, HasNewFiles;
    var l := Find(ev.listing, name).value;
    ScanEach(w.index, ev.listing, tmpdir, l);
    PollEach(w, ev.listing, ev.copies, ev.done, tmpdir, l);
    assert l in ev.listing;
    NoticedExactly(w.index, ev.listing, tmpdir);
  }

  // From then on the file stays as it is exactly unless there is a restart, a listing without it, a failed stat
  // at a changed time, or a pass that is cut off before it; and the copy stays gone.
  lemma GoneForGood(w: World, disk: Disk, ev: Event, dir: string, tmpdir: string, name: string, copy: string)
    requires Possible(w, ev) && Orderly(w, disk, ev, dir, tmpdir, false) && StuckAt(w, name, copy) && copy !in disk
    ensures StuckAt(Turn(w, ev, tmpdir), name, copy) <==> !FreesGone(w, ev, name)
    ensures copy !in DiskAfterTurn(disk, w, ev, tmpdir, false)
  {
    hide Turn, Scan, DiskAfterScan, HasNewFiles, Orderly;
    FreedExactly(w, ev, tmpdir, name, copy);
    if ev.Poll? {
      ScanLeavesOut(w, disk, ev, dir, tmpdir, false, name);
    }
  }

  // ----- Nothing is left behind -----

  // No file is dropped, and no restart forgets a copy.
  ghost predicate KeepsFiles(w: World, ev: Event, tmpdir: string) {
    match ev
    case Restart(_, _) => forall n | n in w.index :: w.index[n].copy == ""
    case Poll(listing, _, _) => forall n | n in w.index :: n in Scan(w.index, listing, tmpdir)
  }

  ghost predicate KeepsFilesRun(w: World, evs: seq<Event>, tmpdir: string)
    requires PossibleRun(w, evs, tmpdir)
    decreases |evs|
  {
    evs == [] || (KeepsFiles(w, evs[0], tmpdir) && KeepsFilesRun(Turn(w, evs[0], tmpdir), evs[1..], tmpdir))
  }

  lemma TurnHeld(w: World, disk: Disk, ev: Event, tmpdir: string)
    requires Possible(w, ev) && AllHeld(w.index, disk) && KeepsFiles(w, ev, tmpdir)
    ensures AllHeld(Turn(w, ev, tmpdir).index, DiskAfterTurn(disk, w, ev, tmpdir, false))
  {
    hide Scan, DiskAfterScan, HasNewFiles, CollectAll, DiskAfterPass, HeldFor;
    if ev.Poll? {
      ScanHeld(w.index, disk, ev.listing, tmpdir);
      PassHeld(Scan(w.index, ev.listing, tmpdir), DiskAfterScan(disk, w.index, ev.listing, tmpdir, false), ev.copies,
               ev.done);
    } else {
      NoneHeld(w.index, disk);
    }
  }

  lemma NoneHeld(index: Index, disk: Disk)
    requires AllHeld(index, disk) && forall n | n in index :: index[n].copy == ""
    ensures disk == map[]
  {
    hide HeldFor;
    forall f | f in disk
      ensures f == ""
    {
      HeldEmpty(index, f);
    }
  }

  lemma HeldEmpty(index: Index, f: string)
    requires HeldFor(index, f) && forall n | n in index :: index[n].copy == ""
    ensures f == ""
  {
  }

  // Outside debugging, over every run in which no file is dropped: every file in the directory of copies is one
  // that is held for a file, and when none is held the directory is empty.
  lemma {:induction false} NothingLeftBehind(w: World, disk: Disk, evs: seq<Event>, tmpdir: string)
    requires PossibleRun(w, evs, tmpdir) && KeepsFilesRun(w, evs, tmpdir) && AllHeld(w.index, disk)
    ensures var w', disk' := After(w, evs, tmpdir), DiskAfterRun(disk, w, evs, tmpdir, false);
      AllHeld(w'.index, disk') && ((forall n | n in w'.index :: w'.index[n].copy == "") ==> disk' == map[])
    decreases |evs|
  {
    hide Turn, DiskAfterTurn, AllHeld, KeepsFiles;
    if evs == [] {
      if forall n | n in w.index :: w.index[n].copy == "" {
        NoneHeld(w.index, disk);
      }
    } else {
      TurnHeld(w, disk, evs[0], tmpdir);
      NothingLeftBehind(Turn(w, evs[0], tmpdir), DiskAfterTurn(disk, w, evs[0], tmpdir, false), evs[1..], tmpdir);
    }
  }

  // ----- Such runs exist -----

  lemma OneScanned(disk: Disk, index: Index, l: Listed, tmpdir: string, debug: bool)
    ensures DiskAfterScan(disk, index, [l], tmpdir, debug) ==
            DiskAfterVisit(disk, Get(index, l.name), l, tmpdir, debug)
  {
    hide DiskAfterVisit, Visit, Forget;
    var before := Forget(index, [l]);
    ForgetKeeps(index, [l], l);
    NoneVisited(disk, map[], before, tmpdir, debug);
    assert [l][..0] == [] && VisitAll(before, [], tmpdir) == before;
    assert DiskAfterAll(disk, before, [l][..0], tmpdir, debug) == disk;
  }

  // A turn that lists a single file.
  lemma OneTurn(w: World, l: Listed, copies: Copies, tmpdir: string)
    requires forall n | n in w.index :: n == l.name
    ensures var ev, v := Poll([l], copies, {l.name}), Visit(Get(w.index, l.name), l, tmpdir);
      var w' := Turn(w, ev, tmpdir);
      && (forall n | n in w'.index :: n == l.name)
      && Get(w'.index, l.name) == Round(Get(w.index, l.name), l, copies, tmpdir)
      && (v.Some? ==> HandedSoFar(w', l.name) == OneMore(HandedSoFar(w, l.name), HandedPart(v.value, copies)))
  {
    hide Turn, Visit, CollectEntry, HandedPart;
    var ev := Poll([l], copies, {l.name});
    assert Find([l], l.name) == Some(l);
    forall n | n in Turn(w, ev, tmpdir).index
      ensures n == l.name
    {
      if n != l.name {
        PollOthers(w, [l], copies, {l.name}, tmpdir, n);
      }
    }
    PollEach(w, [l], copies, {l.name}, tmpdir, l);
  }

  // The first two turns only look at the file.
  lemma EarlyTurn(w: World, l: Listed, dir: string, tmpdir: string, debug: bool)
    requires OfDirectory([l], dir) && (forall n | n in w.index :: n == l.name)
    requires l.name in w.index ==> w.index[l.name] == NewEntry(l)
    ensures var ev := Poll([l], Copies(map[], {}), {l.name});
      var w' := Turn(w, ev, tmpdir);
      && Orderly(w, map[], ev, dir, tmpdir, debug) && DiskAfterTurn(map[], w, ev, tmpdir, debug) == map[]
      && (forall n | n in w'.index :: n == l.name) && HandedSoFar(w', l.name) == HandedSoFar(w, l.name)
      && Get(w'.index, l.name) == Some(if l.name in w.index then NewEntry(l).(seen := true) else NewEntry(l))
  {
    hide Turn, DiskAfterScan, Scan, HasNewFiles;
    OneTurn(w, l, Copies(map[], {}), tmpdir);
    OneScanned(map[], w.index, l, tmpdir, debug);
    PassesNothing(Scan(w.index, [l], tmpdir), {l.name}, debug);
    assert CopyName(tmpdir, l) != "";
  }

  lemma PassesNothing(index: Index, done: set<string>, debug: bool)
    ensures DiskAfterPass(map[], index, done, debug) == map[]
  {
  }

  lemma LateTurn(w: World, l: Listed, dir: string, tmpdir: string, debug: bool)
    requires l.copied && l.restat == Some(l.mtime) && OfDirectory([l], dir)
    requires (forall n | n in w.index :: n == l.name) && Get(w.index, l.name) == Some(NewEntry(l).(seen := true))
    ensures var ev := Poll([l], Copies(map[CopyName(tmpdir, l) := l.content], {CopyName(tmpdir, l)}), {l.name});
      && Orderly(w, map[], ev, dir, tmpdir, debug)
      && HandedSoFar(Turn(w, ev, tmpdir), l.name) == OneMore(HandedSoFar(w, l.name), l.content)
  {
    hide Turn, DiskAfterScan, Scan, CopyName;
    OneTurn(w, l, Copies(map[CopyName(tmpdir, l) := l.content], {CopyName(tmpdir, l)}), tmpdir);
    OneScanned(map[], w.index, l, tmpdir, debug);
    assert CopyName(tmpdir, l) != "";
  }

  // A new file that stays as it is is read by the third turn in an orderly run, whatever it holds.
  lemma OrderlyThree(l: Listed, dir: string, tmpdir: string, debug: bool)
    requires l.copied && l.restat == Some(l.mtime) && OfDirectory([l], dir)
    ensures var copy := CopyName(tmpdir, l);
      var early := Poll([l], Copies(map[], {}), {l.name});
      var late := Poll([l], Copies(map[copy := l.content], {copy}), {l.name});
      var evs := [early, early, late];
      && PossibleRun(EMPTY, evs, tmpdir) && OrderlyRun(EMPTY, map[], evs, dir, tmpdir, debug)
      && HandedSoFar(After(EMPTY, evs, tmpdir), l.name) == OneMore([], l.content)
  {
    hide Turn, CopyName, Orderly, DiskAfterTurn, OfDirectory;
    var copy := CopyName(tmpdir, l);
    var early := Poll([l], Copies(map[], {}), {l.name});
    var late := Poll([l], Copies(map[copy := l.content], {copy}), {l.name});
    EarlyTurn(EMPTY, l, dir, tmpdir, debug);
    var w1 := Turn(EMPTY, early, tmpdir);
    EarlyTurn(w1, l, dir, tmpdir, debug);
    var w2 := Turn(w1, early, tmpdir);
    LateTurn(w2, l, dir, tmpdir, debug);
    RunOfThree(EMPTY, w1, w2, early, late, dir, tmpdir, debug);
  }

  lemma RunOfThree(w0: World, w1: World, w2: World, early: Event, late: Event, dir: string, tmpdir: string, debug: bool)
    requires Possible(w0, early) && Possible(w1, early) && Possible(w2, late)
    requires w1 == Turn(w0, early, tmpdir) && w2 == Turn(w1, early, tmpdir)
    requires Orderly(w0, map[], early, dir, tmpdir, debug) && Orderly(w1, map[], early, dir, tmpdir, debug)
    requires Orderly(w2, map[], late, dir, tmpdir, debug)
    requires DiskAfterTurn(map[], w0, early, tmpdir, debug) == map[] == DiskAfterTurn(map[], w1, early, tmpdir, debug)
    ensures var evs := [early, early, late];
      && PossibleRun(w0, evs, tmpdir) && OrderlyRun(w0, map[], evs, dir, tmpdir, debug)
      && After(w0, evs, tmpdir) == Turn(w2, late, tmpdir)
  {
    hide *;
    assert [late] + [] == [late] && [early] + [late] == [early, late];
    assert [early] + [early, late] == [early, early, late];
    RunEnds(Turn(w2, late, tmpdir), DiskAfterTurn(map[], w2, late, tmpdir, debug), dir, tmpdir, debug);
    RunStarts(w2, map[], late, [], dir, tmpdir, debug);
    RunStarts(w1, map[], early, [late], dir, tmpdir, debug);
    RunStarts(w0, map[], early, [early, late], dir, tmpdir, debug);
  }

  lemma RunEnds(w: World, disk: Disk, dir: string, tmpdir: string, debug: bool)
    ensures PossibleRun(w, [], tmpdir) && OrderlyRun(w, disk, [], dir, tmpdir, debug) && After(w, [], tmpdir) == w
  {
  }

  lemma RunStarts(w: World, disk: Disk, ev: Event, evs: seq<Event>, dir: string, tmpdir: string, debug: bool)
    requires Possible(w, ev) && PossibleRun(Turn(w, ev, tmpdir), evs, tmpdir)
    ensures PossibleRun(w, [ev] + evs, tmpdir)
    ensures After(w, [ev] + evs, tmpdir) == After(Turn(w, ev, tmpdir), evs, tmpdir)
    ensures Orderly(w, disk, ev, dir, tmpdir, debug) &&
            OrderlyRun(Turn(w, ev, tmpdir), DiskAfterTurn(disk, w, ev, tmpdir, debug), evs, dir, tmpdir, debug) ==>
            OrderlyRun(w, disk, [ev] + evs, dir, tmpdir, debug)
  {
    hide Turn, Possible, Orderly, DiskAfterTurn;
    assert ([ev] + evs)[0] == ev && ([ev] + evs)[1..] == evs;
  }
}
