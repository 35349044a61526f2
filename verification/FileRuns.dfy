/** What the collector's runs guarantee for one file: when it is collected, when it is not collected again,
    and what becomes of it when a copy of it cannot be read. */
module FileRuns {
  import opened Text
  import opened FileEntries
  import opened Scanning
  import opened Persistence
  import opened Runs

  // One turn for the entry of a file that is listed and reached by the pass.
  function Round(e: Option<Entry>, l: Listed, copies: Copies, tmpdir: string): Option<Entry> {
    var v := Visit(e, l, tmpdir);
    if v.Some? then Some(CollectEntry(v.value, copies)) else None
  }

  // An earlier copy is left over.
  predicate Stuck(e: Entry, copy: string) {
    e.copy == copy && copy != "" && !e.seen && !e.collected
  }

  lemma RestartFresh(w: World, ev: Event, tmpdir: string, name: string)
    requires ev.Restart? && Possible(w, ev)
    ensures var w' := Turn(w, ev, tmpdir); name in w'.index ==> Fresh(w'.index[name])
  {
    hide ReadState, PrintState, AllFresh;
    NothingFresh();
    LoadedFresh(PrintState(ev.order, w.saved), ev.disk, map[]);
    FreshAt(Turn(w, ev, tmpdir).index, name);
  }

  lemma NothingFresh()
    ensures AllFresh(map[])
  {
  }

  lemma FreshAt(index: Index, name: string)
    requires AllFresh(index)
    ensures name in index ==> Fresh(index[name])
  {
  }

  function Polled(e: Option<Entry>, ev: Event, tmpdir: string, name: string): Option<Entry>
    requires ev.Poll?
  {
    var l := Find(ev.listing, name);
    if ev.listing == [] then e
    else if l.None? then None
    else if name in ev.done then Round(e, l.value, ev.copies, tmpdir)
    else Visit(e, l.value, tmpdir)
  }

  // What a turn makes of the entry of a file.
  lemma TurnEach(w: World, ev: Event, tmpdir: string, name: string)
    requires Possible(w, ev)
    ensures var e' := Get(Turn(w, ev, tmpdir).index, name);
      if ev.Restart? then e'.Some? ==> Fresh(e'.value) else e' == Polled(Get(w.index, name), ev, tmpdir, name)
  {
    hide Turn, Visit, CollectEntry;
    if ev.Restart? {
      RestartFresh(w, ev, tmpdir, name);
    } else if ev.listing == [] {
      EmptyListing(w, ev, tmpdir);
    } else if Find(ev.listing, name).None? {
      PollOthers(w, ev.listing, ev.copies, ev.done, tmpdir, name);
    } else {
      PollEach(w, ev.listing, ev.copies, ev.done, tmpdir, Find(ev.listing, name).value);
    }
  }

  // ----- Stability -----

  // The copy of the file is read in every pass it is to be collected in.
  ghost predicate CopyRead(w: World, ev: Event, tmpdir: string, name: string) {
    match ev
    case Restart(_, _) => true
    case Poll(listing, copies, done) =>
      var l := Find(listing, name);
      l.Some? ==> var v := Visit(Get(w.index, name), l.value, tmpdir);
                  IsPending(v) ==> name in done && Readable(v.value.copy, copies)
  }

  ghost predicate CopiesRead(w: World, evs: seq<Event>, tmpdir: string, name: string)
    requires PossibleRun(w, evs, tmpdir)
    decreases |evs|
  {
    evs == [] || (CopyRead(w, evs[0], tmpdir, name) && CopiesRead(Turn(w, evs[0], tmpdir), evs[1..], tmpdir, name))
  }

  // The modification time the file was listed with by the last listing that was not empty, if it was listed
  // there and the program has not been restarted since.
  function TimeAfter(t: Option<int>, ev: Event, name: string): Option<int> {
    match ev
    case Restart(_, _) => None
    case Poll(listing, _, _) =>
      if listing == [] then t
      else match Find(listing, name)
        case None => None
        case Some(l) => Some(l.mtime)
  }

  function LastTime(t: Option<int>, evs: seq<Event>, name: string): Option<int>
    decreases |evs|
  {
    if evs == [] then t else LastTime(TimeAfter(t, evs[0], name), evs[1..], name)
  }

  predicate Settled(w: World, name: string, t: Option<int>) {
    name in w.index ==> w.index[name].copy == "" && (w.index[name].seen ==> t == Some(w.index[name].mtime))
  }

  lemma RoundSettles(e: Option<Entry>, l: Listed, copies: Copies, tmpdir: string, done: bool)
    requires e.Some? ==> e.value.copy == ""
    requires var v := Visit(e, l, tmpdir); IsPending(v) ==> done && Readable(v.value.copy, copies)
    ensures var e' := if done then Round(e, l, copies, tmpdir) else Visit(e, l, tmpdir);
      e'.Some? ==> e'.value.copy == "" && (e'.value.seen ==> e'.value.mtime == l.mtime)
  {
  }

  lemma TurnSettles(w: World, ev: Event, tmpdir: string, name: string, t: Option<int>)
    requires Possible(w, ev) && CopyRead(w, ev, tmpdir, name) && Settled(w, name, t)
    ensures Settled(Turn(w, ev, tmpdir), name, TimeAfter(t, ev, name))
  {
    hide Turn, Visit, Round;
    TurnEach(w, ev, tmpdir, name);
    if ev.Poll? && Find(ev.listing, name).Some? {
      RoundSettles(Get(w.index, name), Find(ev.listing, name).value, ev.copies, tmpdir, name in ev.done);
    }
  }

  // Between turns no copy of the file is pending, and it counts as seen only with the time it was last
  // listed with.
  lemma {:induction false} RunSettles(w: World, evs: seq<Event>, tmpdir: string, name: string, t: Option<int>)
    requires PossibleRun(w, evs, tmpdir) && CopiesRead(w, evs, tmpdir, name) && Settled(w, name, t)
    ensures Settled(After(w, evs, tmpdir), name, LastTime(t, evs, name))
    decreases |evs|
  {
    hide Turn, CopyRead, Settled, TimeAfter;
    if evs != [] {
      TurnSettles(w, evs[0], tmpdir, name, t);
      RunSettles(Turn(w, evs[0], tmpdir), evs[1..], tmpdir, name, TimeAfter(t, evs[0], name));
    }
  }

  // In every run in which its copies are read, a file is to be collected only if it was listed with one
  // modification time in this turn and by the last listing before, was copied in this turn, and had that
  // time still after the copy. After the pass no copy of it is pending.
  lemma StableWhenCollected(evs: seq<Event>, ev: Event, tmpdir: string, name: string)
    requires PossibleRun(EMPTY, evs, tmpdir) && CopiesRead(EMPTY, evs, tmpdir, name)
    requires ev.Poll? && Find(ev.listing, name).Some? && Possible(After(EMPTY, evs, tmpdir), ev)
    ensures var w, l := After(EMPTY, evs, tmpdir), Find(ev.listing, name).value;
      var v := Visit(Get(w.index, name), l, tmpdir);
      && (IsPending(v) ==> LastTime(None, evs, name) == Some(l.mtime) && name in w.index &&
                           CopiedNow(w.index[name], v.value, l, tmpdir))
      && (CopyRead(w, ev, tmpdir, name) ==> !IsPending(Get(Turn(w, ev, tmpdir).index, name)))
  {
    hide After, Turn;
    RunSettles(EMPTY, evs, tmpdir, name, None);
    var w := After(EMPTY, evs, tmpdir);
    if CopyRead(w, ev, tmpdir, name) {
      TurnSettles(w, ev, tmpdir, name, LastTime(None, evs, name));
    }
  }

  // ----- Progress -----

  // A collected file has been seen and has no copy.
  predicate Proper(e: Entry) {
    e.collected ==> e.seen && e.copy == ""
  }

  lemma RoundProper(e: Option<Entry>, l: Listed, copies: Copies, tmpdir: string)
    requires e.Some? ==> Proper(e.value)
    ensures var v, r := Visit(e, l, tmpdir), Round(e, l, copies, tmpdir);
      (v.Some? ==> Proper(v.value)) && (r.Some? ==> Proper(r.value))
  {
  }

  lemma {:induction false} ProperKept(w: World, evs: seq<Event>, tmpdir: string, name: string)
    requires PossibleRun(w, evs, tmpdir) && (name in w.index ==> Proper(w.index[name]))
    ensures var w' := After(w, evs, tmpdir); name in w'.index ==> Proper(w'.index[name])
    decreases |evs|
  {
    hide Turn, Visit, Round;
    if evs != [] {
      var ev := evs[0];
      TurnEach(w, ev, tmpdir, name);
      if ev.Poll? && Find(ev.listing, name).Some? {
        RoundProper(Get(w.index, name), Find(ev.listing, name).value, ev.copies, tmpdir);
      }
      ProperKept(Turn(w, ev, tmpdir), evs[1..], tmpdir, name);
    }
  }

  // Copying, the stat after it, and reading the copy all succeed.
  predicate GoodRound(l: Listed, copies: Copies, tmpdir: string) {
    l.copied && l.restat == Some(l.mtime) && Readable(CopyName(tmpdir, l), copies)
  }

  // Whether three good rounds with one modification time collect a file: not if an earlier copy is left
  // over that gets in the way and cannot be read when it does.
  predicate CollectedInThree(e: Option<Entry>, mtime: int, c1: Copies, c2: Copies, c3: Copies) {
    || e.None?
    || e.value.copy == ""
    || (e.value.mtime == mtime && (e.value.seen || e.value.copy in c1.contents))
    || Readable(e.value.copy, c2)
    || (e.value.copy !in c2.contents && Readable(e.value.copy, c3))
  }

  // After a good round an entry without a copy has been seen with the listed time, or is on its way there.
  lemma FreeRound(e: Option<Entry>, l: Listed, copies: Copies, tmpdir: string)
    requires GoodRound(l, copies, tmpdir) && (e.Some? ==> Proper(e.value) && e.value.copy == "")
    ensures var e' := Round(e, l, copies, tmpdir);
      && e'.Some? && Proper(e'.value) && e'.value.copy == "" && e'.value.mtime == l.mtime
      && (if e.None? || e.value.mtime != l.mtime then !e'.value.seen
          else e'.value.seen && (e'.value.collected <==> e.value.seen))
  {
  }

  lemma LeftOverRound(e: Entry, l: Listed, copies: Copies, tmpdir: string)
    requires GoodRound(l, copies, tmpdir) && e.copy != "" && !e.collected
    ensures var r := Round(Some(e), l, copies, tmpdir);
      && r.Some? && Proper(r.value) && r.value.mtime == l.mtime
      && if e.mtime != l.mtime then Stuck(r.value, e.copy)
         else if e.seen || Readable(e.copy, copies) then r.value.collected
         else if e.copy in copies.contents then Fresh(r.value)
         else Stuck(r.value, e.copy)
  {
  }

  lemma ThreeRounds(e: Option<Entry>, l1: Listed, l2: Listed, l3: Listed, c1: Copies, c2: Copies, c3: Copies,
                    tmpdir: string)
    requires l1.mtime == l2.mtime == l3.mtime
    requires GoodRound(l1, c1, tmpdir) && GoodRound(l2, c2, tmpdir) && GoodRound(l3, c3, tmpdir)
    requires e.Some? ==> Proper(e.value)
    ensures var e3 := Round(Round(Round(e, l1, c1, tmpdir), l2, c2, tmpdir), l3, c3, tmpdir);
      e3.Some? && e3.value.mtime == l3.mtime && (e3.value.collected <==> CollectedInThree(e, l1.mtime, c1, c2, c3))
  {
    hide Round, GoodRound;
    var e1 := Round(e, l1, c1, tmpdir);
    var e2 := Round(e1, l2, c2, tmpdir);
    if e.Some? && e.value.copy != "" {
      LeftOverRound(e.value, l1, c1, tmpdir);
      if e1.value.copy != "" {
        LeftOverRound(e1.value, l2, c2, tmpdir);
      } else {
        FreeRound(e1, l2, c2, tmpdir);
      }
      if e2.value.copy != "" {
        LeftOverRound(e2.value, l3, c3, tmpdir);
      } else {
        FreeRound(e2, l3, c3, tmpdir);
      }
    } else {
      FreeRound(e, l1, c1, tmpdir);
      FreeRound(e1, l2, c2, tmpdir);
      FreeRound(e2, l3, c3, tmpdir);
    }
  }

  // A turn in which the file is listed with a certain time, and all goes well.
  predicate GoodTurn(ev: Event, tmpdir: string, name: string, mtime: int) {
    ev.Poll? && Distinct(ev.listing) && name in ev.done &&
    var l := Find(ev.listing, name);
    l.Some? && l.value.mtime == mtime && GoodRound(l.value, ev.copies, tmpdir)
  }

  lemma GoodTurnRounds(w: World, ev: Event, tmpdir: string, name: string, mtime: int)
    requires GoodTurn(ev, tmpdir, name, mtime)
    ensures Get(Turn(w, ev, tmpdir).index, name) ==
            Round(Get(w.index, name), Find(ev.listing, name).value, ev.copies, tmpdir)
  {
    hide Turn, Round, GoodRound;
    TurnEach(w, ev, tmpdir, name);
  }

  // Whatever has happened so far: three turns in which a file is listed with one time and all goes well
  // collect it, exactly unless an earlier copy is left over that cannot be read.
  lemma CollectedByThird(evs: seq<Event>, ev1: Event, ev2: Event, ev3: Event, tmpdir: string, name: string, mtime: int)
    requires PossibleRun(EMPTY, evs, tmpdir)
    requires GoodTurn(ev1, tmpdir, name, mtime) && GoodTurn(ev2, tmpdir, name, mtime)
    requires GoodTurn(ev3, tmpdir, name, mtime)
    ensures var w := After(EMPTY, evs, tmpdir);
      var e := Get(Turn(Turn(Turn(w, ev1, tmpdir), ev2, tmpdir), ev3, tmpdir).index, name);
      && e.Some? && e.value.mtime == mtime
      && (e.value.collected <==> CollectedInThree(Get(w.index, name), mtime, ev1.copies, ev2.copies, ev3.copies))
  {
    hide Turn, Round, After, GoodRound, CollectedInThree;
    var w := After(EMPTY, evs, tmpdir);
    ProperKept(EMPTY, evs, tmpdir, name);
    var w1 := Turn(w, ev1, tmpdir);
    var w2 := Turn(w1, ev2, tmpdir);
    GoodTurnRounds(w, ev1, tmpdir, name, mtime);
    GoodTurnRounds(w1, ev2, tmpdir, name, mtime);
    GoodTurnRounds(w2, ev3, tmpdir, name, mtime);
    ThreeRounds(Get(w.index, name), Find(ev1.listing, name).value, Find(ev2.listing, name).value,
                Find(ev3.listing, name).value, ev1.copies, ev2.copies, ev3.copies, tmpdir);
  }

  lemma NewFileRounds(l1: Listed, l2: Listed, l3: Listed, c1: Copies, c2: Copies, tmpdir: string)
    requires l1.mtime == l2.mtime == l3.mtime
    requires GoodRound(l1, c1, tmpdir) && GoodRound(l2, c2, tmpdir) && l3.copied && l3.restat == Some(l3.mtime)
    ensures var e1, e2 := Round(None, l1, c1, tmpdir), Round(Round(None, l1, c1, tmpdir), l2, c2, tmpdir);
      && e1 == Some(NewEntry(l1)) && e2 == Some(NewEntry(l1).(seen := true))
      && Visit(e2, l3, tmpdir) == Some(NewEntry(l1).(seen := true, copy := CopyName(tmpdir, l3)))
  {
  }

  // What such turns hand on of a file that was not known: nothing twice, and then all of it.
  lemma NewFileHanded(w: World, ev1: Event, ev2: Event, ev3: Event, tmpdir: string, name: string, mtime: int)
    requires name !in w.index
    requires GoodTurn(ev1, tmpdir, name, mtime) && GoodTurn(ev2, tmpdir, name, mtime)
    requires GoodTurn(ev3, tmpdir, name, mtime)
    ensures var w3 := Turn(Turn(Turn(w, ev1, tmpdir), ev2, tmpdir), ev3, tmpdir);
      HandedSoFar(w3, name) ==
      OneMore(HandedSoFar(w, name), ev3.copies.contents[CopyName(tmpdir, Find(ev3.listing, name).value)])
  {
    hide Turn, Visit, CopyName;
    var l1, l2, l3 := Find(ev1.listing, name).value, Find(ev2.listing, name).value, Find(ev3.listing, name).value;
    var w1 := Turn(w, ev1, tmpdir);
    var w2 := Turn(w1, ev2, tmpdir);
    GoodTurnRounds(w, ev1, tmpdir, name, mtime);
    GoodTurnRounds(w1, ev2, tmpdir, name, mtime);
    NewFileRounds(l1, l2, l3, ev1.copies, ev2.copies, tmpdir);
    PollEach(w, ev1.listing, ev1.copies, ev1.done, tmpdir, l1);
    PollEach(w1, ev2.listing, ev2.copies, ev2.done, tmpdir, l2);
    PollEach(w2, ev3.listing, ev3.copies, ev3.done, tmpdir, l3);
    FirstVisits(l1, l2, tmpdir);
  }

  lemma FirstVisits(l1: Listed, l2: Listed, tmpdir: string)
    requires l1.mtime == l2.mtime
    ensures Visit(None, l1, tmpdir) == Some(NewEntry(l1))
    ensures Visit(Some(NewEntry(l1)), l2, tmpdir) == Some(NewEntry(l1).(seen := true))
  {
  }

  // ----- No repeats -----

  // The file is listed with its time, or nothing is.
  predicate Unchanged(ev: Event, name: string, mtime: int) {
    ev.Poll? && (ev.listing == [] || (Find(ev.listing, name).Some? && Find(ev.listing, name).value.mtime == mtime))
  }

  lemma CollectedStays(w: World, ev: Event, tmpdir: string, name: string)
    requires Possible(w, ev) && name in w.index && w.index[name].collected && Proper(w.index[name])
    requires Unchanged(ev, name, w.index[name].mtime)
    ensures var w' := Turn(w, ev, tmpdir);
      Get(w'.index, name) == Get(w.index, name) && HandedSoFar(w', name) == HandedSoFar(w, name)
  {
    hide Turn;
    if ev.listing == [] {
      EmptyListing(w, ev, tmpdir);
    } else {
      PollEach(w, ev.listing, ev.copies, ev.done, tmpdir, Find(ev.listing, name).value);
    }
  }

  // Once collected, a file is left alone and nothing is handed on of it as long as it is listed with the
  // same time and the program is not restarted.
  lemma {:induction false} NotCollectedAgain(w: World, evs: seq<Event>, tmpdir: string, name: string)
    requires PossibleRun(w, evs, tmpdir) && name in w.index && w.index[name].collected && Proper(w.index[name])
    requires forall ev | ev in evs :: Unchanged(ev, name, w.index[name].mtime)
    ensures var w' := After(w, evs, tmpdir);
      Get(w'.index, name) == Get(w.index, name) && HandedSoFar(w', name) == HandedSoFar(w, name)
    decreases |evs|
  {
    hide Turn, Unchanged, Proper, HandedSoFar;
    if evs != [] {
      CollectedStays(w, evs[0], tmpdir, name);
      assert forall ev | ev in evs[1..] :: ev in evs;
      NotCollectedAgain(Turn(w, evs[0], tmpdir), evs[1..], tmpdir, name);
    }
  }

  // ----- A copy that could not be read -----

  predicate StuckAt(w: World, name: string, copy: string) {
    name in w.index && Stuck(w.index[name], copy)
  }

  lemma FailedReadSticks(e: Entry, copies: Copies)
    requires ToBeCollected(e)
    ensures Stuck(CollectEntry(e, copies), e.copy) <==> e.copy !in copies.contents
  {
  }

  // What sets a file free that is stuck: a restart; a listing without it; a failed stat when its time has
  // changed; or, when its time has not, a copy that can be read, or a pass that is cut off before it.
  predicate Frees(w: World, ev: Event, name: string, copy: string)
    requires StuckAt(w, name, copy)
  {
    match ev
    case Restart(_, _) => true
    case Poll(listing, copies, done) =>
      listing != [] &&
      var l := Find(listing, name);
      l.None? ||
      if l.value.mtime != w.index[name].mtime then l.value.restat.None? else name !in done || copy in copies.contents
  }

  lemma RoundFrees(e: Entry, copy: string, l: Listed, copies: Copies, tmpdir: string, done: bool)
    requires Stuck(e, copy)
    ensures var v := Visit(Some(e), l, tmpdir);
      var e' := if done && v.Some? then Some(CollectEntry(v.value, copies)) else v;
      var frees := if l.mtime != e.mtime then l.restat.None? else !done || copy in copies.contents;
      && ((e'.Some? && Stuck(e'.value, copy)) <==> !frees)
      && (!frees && done && v.Some? ==> HandedPart(v.value, copies) == [])
  {
  }

  // One turn: the file stays stuck exactly if the turn does not set it free, and then nothing is handed on.
  lemma FreedExactly(w: World, ev: Event, tmpdir: string, name: string, copy: string)
    requires Possible(w, ev) && StuckAt(w, name, copy)
    ensures var w' := Turn(w, ev, tmpdir);
      && (StuckAt(w', name, copy) <==> !Frees(w, ev, name, copy))
      && (!Frees(w, ev, name, copy) ==> HandedSoFar(w', name) == HandedSoFar(w, name))
  {
    hide Turn, Visit, CollectEntry, HandedPart;
    TurnEach(w, ev, tmpdir, name);
    if ev.Restart? {
      RestartHands(w, ev, tmpdir, name);
    } else if ev.listing == [] {
      EmptyListing(w, ev, tmpdir);
    } else if Find(ev.listing, name).Some? {
      var l := Find(ev.listing, name).value;
      RoundFrees(w.index[name], copy, l, ev.copies, tmpdir, name in ev.done);
      PollEach(w, ev.listing, ev.copies, ev.done, tmpdir, l);
    }
  }

  ghost predicate StuckThroughout(w: World, evs: seq<Event>, tmpdir: string, name: string, copy: string)
    requires PossibleRun(w, evs, tmpdir)
    decreases |evs|
  {
    StuckAt(w, name, copy) && (evs == [] || StuckThroughout(Turn(w, evs[0], tmpdir), evs[1..], tmpdir, name, copy))
  }

  ghost predicate NeverFreed(w: World, evs: seq<Event>, tmpdir: string, name: string, copy: string)
    requires PossibleRun(w, evs, tmpdir)
    decreases |evs|
  {
    evs == [] || (
      (StuckAt(w, name, copy) ==> !Frees(w, evs[0], name, copy)) &&
      NeverFreed(Turn(w, evs[0], tmpdir), evs[1..], tmpdir, name, copy))
  }

  // Over any run: a file whose copy could not be read stays as it is exactly as long as nothing sets it free,
  // and until then nothing is handed on of it.
  lemma {:induction false} StuckUntilFreed(w: World, evs: seq<Event>, tmpdir: string, name: string, copy: string)
    requires PossibleRun(w, evs, tmpdir) && StuckAt(w, name, copy)
    ensures StuckThroughout(w, evs, tmpdir, name, copy) <==> NeverFreed(w, evs, tmpdir, name, copy)
    ensures NeverFreed(w, evs, tmpdir, name, copy) ==>
      HandedSoFar(After(w, evs, tmpdir), name) == HandedSoFar(w, name)
    decreases |evs|
  {
    hide Turn, StuckAt, Frees, HandedSoFar;
    if evs != [] {
      FreedExactly(w, evs[0], tmpdir, name, copy);
      var w' := Turn(w, evs[0], tmpdir);
      if StuckAt(w', name, copy) {
        StuckUntilFreed(w', evs[1..], tmpdir, name, copy);
      } else {
        NotStuck(w', evs[1..], tmpdir, name, copy);
      }
    }
  }

  lemma NotStuck(w: World, evs: seq<Event>, tmpdir: string, name: string, copy: string)
    requires PossibleRun(w, evs, tmpdir) && !StuckAt(w, name, copy)
    ensures !StuckThroughout(w, evs, tmpdir, name, copy)
  {
    hide StuckAt;
  }
}
