/** The collector's main loop over any interleaving of scans, collection passes, saves and restarts, and
    what of one growing file it hands on. */
module Runs {
  import opened Text
  import opened Crc
  import opened Increments
  import opened FileEntries
  import opened Scanning
  import opened Persistence

  // The index, the entries last written to the state file, and the parts handed on of each file.
  datatype World = World(index: Index, saved: Index, handed: map<string, seq<Bytes>>)

  const EMPTY := World(map[], map[], map[])

  // done: the files the collection pass gets to before a shutdown is asked for; order: that of the lines
  // in the state file; disk: the files that exist at the restart.
  datatype Event =
    | Poll(listing: seq<Listed>, copies: Copies, done: set<string>)
    | Restart(order: seq<string>, disk: map<string, int>)

  function HandedSoFar(w: World, name: string): seq<Bytes> {
    if name in w.handed then w.handed[name] else []
  }

  function OneMore(parts: seq<Bytes>, part: Bytes): seq<Bytes> {
    if part != [] then parts + [part] else parts
  }

  function HandOn(w: World, index: Index, copies: Copies, done: set<string>): map<string, seq<Bytes>> {
    map name | name in w.handed.Keys + index.Keys ::
      if name in index && name in done then OneMore(HandedSoFar(w, name), HandedPart(index[name], copies))
      else HandedSoFar(w, name)
  }

  // A program that cannot read its state file does not get past the restart.
  ghost predicate Possible(w: World, ev: Event) {
    match ev
    case Poll(listing, _, _) => Distinct(listing)
    case Restart(order, disk) =>
      Enumerates(order, w.saved.Keys) && ReadState(PrintState(order, w.saved), disk, map[]).Loaded?
  }

  // One turn of the loop. The state is written after every collection pass; reading it back is what a
  // restart begins with.
  ghost function Turn(w: World, ev: Event, tmpdir: string): World
    requires Possible(w, ev)
  {
    match ev
    case Poll(listing, copies, done) =>
      var index := Scan(w.index, listing, tmpdir);
      if HasNewFiles(w.index, listing, tmpdir) then
        var index' := CollectAll(index, copies, done);
        World(index', index', HandOn(w, index, copies, done))
      else
        w.(index := index)
    case Restart(order, disk) =>
      w.(index := ReadState(PrintState(order, w.saved), disk, map[]).index)
  }

  ghost predicate PossibleRun(w: World, evs: seq<Event>, tmpdir: string)
    decreases |evs|
  {
    evs == [] || (Possible(w, evs[0]) && PossibleRun(Turn(w, evs[0], tmpdir), evs[1..], tmpdir))
  }

  ghost function After(w: World, evs: seq<Event>, tmpdir: string): World
    requires PossibleRun(w, evs, tmpdir)
    decreases |evs|
  {
    if evs == [] then w else After(Turn(w, evs[0], tmpdir), evs[1..], tmpdir)
  }

  lemma {:induction false} AfterNext(w: World, evs: seq<Event>, ev: Event, tmpdir: string)
    requires PossibleRun(w, evs, tmpdir) && Possible(After(w, evs, tmpdir), ev)
    ensures PossibleRun(w, evs + [ev], tmpdir)
    ensures After(w, evs + [ev], tmpdir) == Turn(After(w, evs, tmpdir), ev, tmpdir)
    decreases |evs|
  {
    hide Turn, Possible;
    if evs == [] {
      assert evs + [ev] == [ev] && [ev][1..] == [];
    } else {
      assert (evs + [ev])[1..] == evs[1..] + [ev];
      AfterNext(Turn(w, evs[0], tmpdir), evs[1..], ev, tmpdir);
    }
  }

  // ----- One file -----

  function Find(listing: seq<Listed>, name: string): (l: Option<Listed>)
    ensures l.Some? ==> l.value in listing && l.value.name == name
    ensures l.None? ==> name !in Names(listing)
  {
    if listing == [] then None
    else if listing[0].name == name then Some(listing[0])
    else
      assert forall l | l in listing :: l == listing[0] || l in listing[1..];
      Find(listing[1..], name)
  }

  // A file that is to be collected is noticed.
  lemma {:induction false} PendingNoticed(index: Index, listing: seq<Listed>, tmpdir: string, l: Listed)
    requires Distinct(listing) && l in listing && IsPending(Visit(Get(index, l.name), l, tmpdir))
    ensures AnyPending(index, listing, tmpdir)
  {
    hide Visit;
    var last := listing[|listing| - 1];
    if l == last {
      VisitAllEach(index, listing, tmpdir, l.name);
    } else {
      var i :| 0 <= i < |listing| && listing[i] == l;
      assert l == listing[..|listing| - 1][i];
      PendingNoticed(index, listing[..|listing| - 1], tmpdir, l);
    }
  }

  lemma {:induction false} SomePending(index: Index, listing: seq<Listed>, tmpdir: string)
    requires Distinct(listing) && AnyPending(index, listing, tmpdir)
    ensures exists l :: l in listing && IsPending(Visit(Get(index, l.name), l, tmpdir))
    decreases |listing|
  {
    hide Visit;
    var init, last := listing[..|listing| - 1], listing[|listing| - 1];
    VisitAllEach(index, listing, tmpdir, last.name);
    assert last in listing;
    if AnyPending(index, init, tmpdir) {
      SomePending(index, init, tmpdir);
      var l :| l in init && IsPending(Visit(Get(index, l.name), l, tmpdir));
      assert l in listing;
    }
  }

  // A scan says there is something to collect exactly if some listed file is to be collected when it is visited.
  lemma NoticedExactly(index: Index, listing: seq<Listed>, tmpdir: string)
    requires Distinct(listing)
    ensures HasNewFiles(index, listing, tmpdir) <==>
            exists l :: l in listing && IsPending(Visit(Get(index, l.name), l, tmpdir))
  {
    hide Visit, AnyPending, Forget;
    var kept := Forget(index, listing);
    forall l | l in listing
      ensures Get(kept, l.name) == Get(index, l.name)
    {
      ForgetKeeps(index, listing, l);
    }
    if l :| l in listing && IsPending(Visit(Get(index, l.name), l, tmpdir)) {
      PendingNoticed(kept, listing, tmpdir, l);
    }
    if HasNewFiles(index, listing, tmpdir) {
      SomePending(kept, listing, tmpdir);
    }
  }

  // What one turn does to a listed file: a visit and, if it is reached, a collection.
  lemma PollEach(w: World, listing: seq<Listed>, copies: Copies, done: set<string>, tmpdir: string, l: Listed)
    requires Distinct(listing) && l in listing
    ensures var w', v := Turn(w, Poll(listing, copies, done), tmpdir), Visit(Get(w.index, l.name), l, tmpdir);
      && Get(w'.index, l.name) == (if v.Some? && l.name in done then Some(CollectEntry(v.value, copies)) else v)
      && HandedSoFar(w', l.name) ==
           (if v.Some? && l.name in done then OneMore(HandedSoFar(w, l.name), HandedPart(v.value, copies))
            else HandedSoFar(w, l.name))
      && (w'.saved == w.saved || w'.saved == w'.index)
      && (IsPending(v) && l.name in done ==> w'.saved == w'.index)
  {
    hide Visit, Scan, AnyPending, CollectEntry, HandedPart, VisitAll;
    ScanEach(w.index, listing, tmpdir, l);
    var v := Visit(Get(w.index, l.name), l, tmpdir);
    NothingToCollect(v, copies);
    if IsPending(v) {
      ForgetKeeps(w.index, listing, l);
      PendingNoticed(Forget(w.index, listing), listing, tmpdir, l);
    }
  }

  lemma ForgetKeeps(index: Index, listing: seq<Listed>, l: Listed)
    requires l in listing
    ensures Get(Forget(index, listing), l.name) == Get(index, l.name)
  {
    assert l.name in Names(listing);
  }

  lemma NothingToCollect(v: Option<Entry>, copies: Copies)
    ensures v.Some? && !IsPending(v) ==> CollectEntry(v.value, copies) == v.value && HandedPart(v.value, copies) == []
  {
  }

  // A file that is missing from a listing is forgotten, and nothing is handed on of it.
  lemma PollOthers(w: World, listing: seq<Listed>, copies: Copies, done: set<string>, tmpdir: string, name: string)
    requires Distinct(listing) && listing != [] && name !in Names(listing)
    ensures var w' := Turn(w, Poll(listing, copies, done), tmpdir);
      && name !in w'.index && HandedSoFar(w', name) == HandedSoFar(w, name)
      && (w'.saved == w.saved || w'.saved == w'.index)
  {
    hide Scan, AnyPending, CollectEntry, HandedPart;
    NotListed(w.index, listing, tmpdir, name);
  }

  lemma EmptyListing(w: World, ev: Event, tmpdir: string)
    requires ev.Poll? && ev.listing == []
    ensures Turn(w, ev, tmpdir) == w
  {
  }

  lemma RestartHands(w: World, ev: Event, tmpdir: string, name: string)
    requires ev.Restart? && Possible(w, ev)
    ensures var w' := Turn(w, ev, tmpdir); HandedSoFar(w', name) == HandedSoFar(w, name) && w'.saved == w.saved
  {
  }

  // ----- A file that only grows -----

  // What is read of the file in this turn, if it is collected.
  function ReadNow(w: World, ev: Event, tmpdir: string, name: string): Option<Bytes> {
    match ev
    case Restart(_, _) => None
    case Poll(listing, copies, done) =>
      var l := Find(listing, name);
      if l.None? then None else
        var v := Visit(Get(w.index, name), l.value, tmpdir);
        if IsPending(v) && name in done && Readable(v.value.copy, copies) then Some(copies.contents[v.value.copy])
        else None
  }

  // The file has only grown since it was last read. Anything else may happen: the file may be missing,
  // copies and reads may fail, passes may be cut short, and other files may do what they like as long as
  // the state file can hold their names.
  ghost predicate Grows(w: World, ev: Event, tmpdir: string, name: string, last: Bytes) {
    && Possible(w, ev)
    && (ev.Restart? ==> forall n | n in w.saved :: Storable(n, w.saved[n]))
    && (var c := ReadNow(w, ev, tmpdir, name); c.Some? ==> last <= c.value)
  }

  // The file is read from an entry that has forgotten what was read before.
  ghost predicate StartsOver(w: World, ev: Event, tmpdir: string, name: string, last: Bytes) {
    ReadNow(w, ev, tmpdir, name).Some? && last != [] && (name in w.index ==> w.index[name].offset == 0)
  }

  function LastAfter(w: World, ev: Event, tmpdir: string, name: string, last: Bytes): Bytes {
    var c := ReadNow(w, ev, tmpdir, name);
    if c.Some? then c.value else last
  }

  // An entry knows what was last read, or nothing.
  predicate Knows(e: Entry, last: Bytes) {
    e.offset == 0 || (e.offset == |last| && e.crc == CrcOf(last))
  }

  ghost predicate Tracked(w: World, name: string, last: Bytes) {
    (name in w.index ==> Knows(w.index[name], last)) && (name in w.saved ==> Knows(w.saved[name], last))
  }

  lemma CollectedPart(e: Entry, last: Bytes, copies: Copies)
    requires ToBeCollected(e) && Readable(e.copy, copies) && Knows(e, last) && last <= copies.contents[e.copy]
    ensures var c := copies.contents[e.copy];
      && HandedPart(e, copies) == (if last != [] && e.offset == 0 then c else c[|last|..])
      && Knows(CollectEntry(e, copies), c)
  {
    hide CrcOf;
    var c := copies.contents[e.copy];
    if last != [] {
      NoCollision(last, c);
      PartsAgree(last, c);
    } else {
      assert c[0..] == c;
    }
  }

  lemma NotCollected(e: Entry, last: Bytes, copies: Copies)
    requires Knows(e, last) && !(ToBeCollected(e) && Readable(e.copy, copies))
    ensures HandedPart(e, copies) == [] && Knows(CollectEntry(e, copies), last)
  {
  }

  lemma VisitKnows(e: Option<Entry>, l: Listed, tmpdir: string, last: Bytes)
    requires e.Some? ==> Knows(e.value, last)
    ensures var v := Visit(e, l, tmpdir);
      v.Some? ==> Knows(v.value, last) && v.value.offset == if e.Some? then e.value.offset else 0
  {
  }

  // One turn: what the entries know, and what is handed on.
  lemma TurnTracks(w: World, ev: Event, tmpdir: string, name: string, last: Bytes)
    requires Grows(w, ev, tmpdir, name, last) && Tracked(w, name, last)
    ensures var w', c := Turn(w, ev, tmpdir), ReadNow(w, ev, tmpdir, name);
      && Tracked(w', name, LastAfter(w, ev, tmpdir, name, last))
      && HandedSoFar(w', name) ==
         if c.None? then HandedSoFar(w, name)
         else OneMore(HandedSoFar(w, name),
                      if StartsOver(w, ev, tmpdir, name, last) then c.value else c.value[|last|..])
  {
    hide Turn;
    if ev.Restart? {
      RestartTracks(w, ev, tmpdir, name, last);
    } else if ev.listing == [] {
      EmptyListing(w, ev, tmpdir);
    } else if Find(ev.listing, name).None? {
      PollOthers(w, ev.listing, ev.copies, ev.done, tmpdir, name);
    } else {
      PollTracks(w, ev, tmpdir, name, last);
    }
  }

  lemma PollTracks(w: World, ev: Event, tmpdir: string, name: string, last: Bytes)
    requires ev.Poll? && Find(ev.listing, name).Some? && Grows(w, ev, tmpdir, name, last) && Tracked(w, name, last)
    ensures var w', c := Turn(w, ev, tmpdir), ReadNow(w, ev, tmpdir, name);
      && Tracked(w', name, LastAfter(w, ev, tmpdir, name, last))
      && HandedSoFar(w', name) ==
         if c.None? then HandedSoFar(w, name)
         else OneMore(HandedSoFar(w, name),
                      if StartsOver(w, ev, tmpdir, name, last) then c.value else c.value[|last|..])
  {
    hide Visit, Turn, CollectEntry, HandedPart, Knows;
    var Poll(listing, copies, done) := ev;
    var l := Find(listing, name).value;
    var e := Get(w.index, name);
    PollEach(w, listing, copies, done, tmpdir, l);
    VisitKnows(e, l, tmpdir, last);
    var v := Visit(e, l, tmpdir);
    if v.Some? && name in done {
      if ToBeCollected(v.value) && Readable(v.value.copy, copies) {
        CollectedPart(v.value, last, copies);
      } else {
        NotCollected(v.value, last, copies);
      }
    }
  }

  lemma RestartTracks(w: World, ev: Event, tmpdir: string, name: string, last: Bytes)
    requires ev.Restart? && Grows(w, ev, tmpdir, name, last) && Tracked(w, name, last)
    ensures Tracked(Turn(w, ev, tmpdir), name, last)
    ensures HandedSoFar(Turn(w, ev, tmpdir), name) == HandedSoFar(w, name)
  {
    hide ReadState, PrintState, CrcOf;
    SavedStateRestored(ev.order, w.saved, ev.disk);
  }

  ghost predicate GrowingRun(w: World, evs: seq<Event>, tmpdir: string, name: string, last: Bytes)
    decreases |evs|
  {
    evs == [] || (
      Grows(w, evs[0], tmpdir, name, last) &&
      GrowingRun(Turn(w, evs[0], tmpdir), evs[1..], tmpdir, name, LastAfter(w, evs[0], tmpdir, name, last)))
  }

  // The world and the last content read of the file at the end of a run.
  ghost function Outcome(w: World, evs: seq<Event>, tmpdir: string, name: string, last: Bytes): (World, Bytes)
    requires GrowingRun(w, evs, tmpdir, name, last)
    decreases |evs|
  {
    if evs == [] then (w, last) else
      Outcome(Turn(w, evs[0], tmpdir), evs[1..], tmpdir, name, LastAfter(w, evs[0], tmpdir, name, last))
  }

  ghost predicate NeverStartsOver(w: World, evs: seq<Event>, tmpdir: string, name: string, last: Bytes)
    requires GrowingRun(w, evs, tmpdir, name, last)
    decreases |evs|
  {
    evs == [] || (
      !StartsOver(w, evs[0], tmpdir, name, last) &&
      NeverStartsOver(Turn(w, evs[0], tmpdir), evs[1..], tmpdir, name, LastAfter(w, evs[0], tmpdir, name, last)))
  }

  lemma {:induction false} OutcomeIsAfter(w: World, evs: seq<Event>, tmpdir: string, name: string, last: Bytes)
    requires GrowingRun(w, evs, tmpdir, name, last)
    ensures PossibleRun(w, evs, tmpdir) && Outcome(w, evs, tmpdir, name, last).0 == After(w, evs, tmpdir)
    decreases |evs|
  {
    hide Turn, ReadNow;
    if evs != [] {
      OutcomeIsAfter(Turn(w, evs[0], tmpdir), evs[1..], tmpdir, name, LastAfter(w, evs[0], tmpdir, name, last));
    }
  }

  lemma {:induction false} ConcatAppend(parts: seq<Bytes>, part: Bytes)
    ensures Concat(parts + [part]) == Concat(parts) + part
    decreases |parts|
  {
    if parts == [] {
      ConcatOne(part);
      assert parts + [part] == [part];
    } else {
      assert (parts + [part])[1..] == parts[1..] + [part];
      ConcatAppend(parts[1..], part);
      Regroup(parts[0], Concat(parts[1..]), part);
    }
  }

  lemma ConcatOne(part: Bytes)
    ensures Concat([part]) == part && Concat([]) == []
  {
    assert [part][1..] == [];
  }

  lemma ConcatNext(parts: seq<Bytes>, part: Bytes)
    ensures Concat(OneMore(parts, part)) == Concat(parts) + part
  {
    hide Concat;
    if part == [] {
      assert Concat(parts) + part == Concat(parts);
    } else {
      ConcatAppend(parts, part);
    }
  }

  // How many bytes more were handed on of the file than it has: none are taken back, and starting over
  // hands on again all that was there.
  lemma TurnHands(w: World, ev: Event, tmpdir: string, name: string, last: Bytes)
    requires Grows(w, ev, tmpdir, name, last) && Tracked(w, name, last)
    ensures var w', last' := Turn(w, ev, tmpdir), LastAfter(w, ev, tmpdir, name, last);
      var before, after := Concat(HandedSoFar(w, name)), Concat(HandedSoFar(w', name));
      if StartsOver(w, ev, tmpdir, name, last) then |after| - |last'| == |before| && last != []
      else |after| - |last'| == |before| - |last| && (before == last ==> after == last')
  {
    hide Turn, StartsOver, Tracked, Storable, Concat, HandedSoFar, OneMore, ReadNow;
    TurnTracks(w, ev, tmpdir, name, last);
    OverMeans(w, ev, tmpdir, name, last);
    var c := ReadNow(w, ev, tmpdir, name);
    if c.Some? {
      PartHanded(HandedSoFar(w, name), last, c.value, StartsOver(w, ev, tmpdir, name, last));
    }
  }

  lemma PartHanded(parts: seq<Bytes>, last: Bytes, c: Bytes, over: bool)
    requires last <= c
    ensures var before, after := Concat(parts), Concat(OneMore(parts, if over then c else c[|last|..]));
      if over then |after| - |c| == |before| else |after| - |c| == |before| - |last| && (before == last ==> after == c)
  {
    hide Concat, OneMore;
    ConcatNext(parts, if over then c else c[|last|..]);
    assert last + c[|last|..] == c;
  }

  lemma LastIsPrefix(w: World, ev: Event, tmpdir: string, name: string, last: Bytes)
    requires Grows(w, ev, tmpdir, name, last)
    ensures var c := ReadNow(w, ev, tmpdir, name); c.Some? ==> last <= c.value
  {
  }

  lemma OverMeans(w: World, ev: Event, tmpdir: string, name: string, last: Bytes)
    ensures StartsOver(w, ev, tmpdir, name, last) ==> ReadNow(w, ev, tmpdir, name).Some? && last != []
  {
  }

  lemma {:induction false} RunHands(w: World, evs: seq<Event>, tmpdir: string, name: string, last: Bytes)
    requires GrowingRun(w, evs, tmpdir, name, last) && Tracked(w, name, last)
    requires |Concat(HandedSoFar(w, name))| >= |last|
    ensures var (w', last') := Outcome(w, evs, tmpdir, name, last);
      var before, after := Concat(HandedSoFar(w, name)), Concat(HandedSoFar(w', name));
      && Tracked(w', name, last')
      && if NeverStartsOver(w, evs, tmpdir, name, last)
         then |after| - |last'| == |before| - |last| && (before == last ==> after == last')
         else |after| > |last'|
    decreases |evs|
  {
    hide Turn, StartsOver, Tracked, LastAfter, HandedSoFar, Concat, ReadNow, Storable;
    if evs != [] {
      TurnHands(w, evs[0], tmpdir, name, last);
      TurnTracks(w, evs[0], tmpdir, name, last);
      RunHands(Turn(w, evs[0], tmpdir), evs[1..], tmpdir, name, LastAfter(w, evs[0], tmpdir, name, last));
    }
  }

  // ----- What makes the program forget a file -----

  // Whether the running program, and the state file, remember what was last read of a file.
  datatype Memory = Memory(index: bool, saved: bool)

  predicate Remembered(index: Index, name: string) {
    name in index && index[name].offset != 0
  }

  predicate Matches(w: World, name: string, mem: Memory) {
    (mem.index <==> Remembered(w.index, name)) && (mem.saved <==> Remembered(w.saved, name))
  }

  // A scan forgets a file that is not listed, that has a new time and cannot be stat'ed, or that should be
  // copied and cannot be; a restart, one that the state file does not remember or that is gone.
  predicate Forgets(w: World, ev: Event, name: string) {
    match ev
    case Restart(_, disk) => !(Remembered(w.saved, name) && name in disk)
    case Poll(listing, _, _) =>
      listing != [] && var l := Find(listing, name); l.None? || DroppedBy(Get(w.index, name), l.value)
  }

  // How memory changes, told by what happens in the turn: a read remembers in both places; a scan may
  // forget, a pass saves what is known, and a restart goes back to what was saved.
  function MemoryAfter(mem: Memory, w: World, ev: Event, tmpdir: string, name: string): Memory {
    match ev
    case Restart(_, disk) => mem.(index := mem.saved && name in disk)
    case Poll(listing, _, _) =>
      var c := ReadNow(w, ev, tmpdir, name);
      if c.Some? then Memory(c.value != [], c.value != [])
      else
        var index := mem.index && !Forgets(w, ev, name);
        Memory(index, if HasNewFiles(w.index, listing, tmpdir) then index else mem.saved)
  }

  lemma VisitRemembers(e: Option<Entry>, l: Listed, copies: Copies, tmpdir: string)
    ensures var v := Visit(e, l, tmpdir);
      && (v.Some? <==> !DroppedBy(e, l))
      && (v.Some? ==> v.value.offset == if e.Some? then e.value.offset else 0)
      && (v.Some? && !(ToBeCollected(v.value) && Readable(v.value.copy, copies)) ==>
            CollectEntry(v.value, copies).offset == v.value.offset)
      && (v.Some? && ToBeCollected(v.value) && Readable(v.value.copy, copies) ==>
            CollectEntry(v.value, copies).offset == |copies.contents[v.value.copy]|)
  {
  }

  lemma PollRemembers(w: World, ev: Event, tmpdir: string, name: string)
    requires ev.Poll? && Possible(w, ev)
    ensures var w', c := Turn(w, ev, tmpdir), ReadNow(w, ev, tmpdir, name);
      && Remembered(w'.index, name) ==
         (if c.Some? then c.value != [] else Remembered(w.index, name) && !Forgets(w, ev, name))
      && w'.saved == (if HasNewFiles(w.index, ev.listing, tmpdir) then w'.index else w.saved)
      && (c.Some? ==> HasNewFiles(w.index, ev.listing, tmpdir))
  {
    hide Visit, CollectEntry, HandedPart, Scanning.Scan, AnyPending, VisitAll, HandOn, DroppedBy;
    var Poll(listing, copies, done) := ev;
    var l := Find(listing, name);
    if listing == [] {
      EmptyListing(w, ev, tmpdir);
    } else if l.None? {
      PollOthers(w, listing, copies, done, tmpdir, name);
    } else {
      var v := Visit(Get(w.index, name), l.value, tmpdir);
      PollEach(w, listing, copies, done, tmpdir, l.value);
      VisitRemembers(Get(w.index, name), l.value, copies, tmpdir);
      if IsPending(v) {
        ForgetKeeps(w.index, listing, l.value);
        PendingNoticed(Forget(w.index, listing), listing, tmpdir, l.value);
      }
    }
  }

  lemma RestartRemembers(w: World, ev: Event, tmpdir: string, name: string)
    requires ev.Restart? && Possible(w, ev) && forall n | n in w.saved :: Storable(n, w.saved[n])
    ensures Remembered(Turn(w, ev, tmpdir).index, name) <==> Remembered(w.saved, name) && name in ev.disk
  {
    hide ReadState, PrintState;
    SavedStateRestored(ev.order, w.saved, ev.disk);
  }

  lemma TurnRemembers(w: World, ev: Event, tmpdir: string, name: string, mem: Memory)
    requires Possible(w, ev) && (ev.Restart? ==> forall n | n in w.saved :: Storable(n, w.saved[n]))
    requires Matches(w, name, mem)
    ensures Matches(Turn(w, ev, tmpdir), name, MemoryAfter(mem, w, ev, tmpdir, name))
  {
    hide Turn, Remembered, ReadNow, HasNewFiles, Forgets, Storable;
    if ev.Poll? {
      PollRemembers(w, ev, tmpdir, name);
    } else {
      RestartRemembers(w, ev, tmpdir, name);
      RestartHands(w, ev, tmpdir, name);
    }
  }

  // One turn: a growing file that is remembered is still remembered after it exactly if the turn does not
  // make the program forget it.
  lemma ForgottenExactly(w: World, ev: Event, tmpdir: string, name: string, last: Bytes)
    requires Grows(w, ev, tmpdir, name, last) && Tracked(w, name, last) && last != [] && Remembered(w.index, name)
    ensures Remembered(Turn(w, ev, tmpdir).index, name) <==> !Forgets(w, ev, name)
  {
    hide Turn, Visit, CollectEntry, HandedPart, Tracked, Storable, DroppedBy;
    if ev.Poll? {
      PollRemembers(w, ev, tmpdir, name);
      LastIsPrefix(w, ev, tmpdir, name, last);
      ReadNotForgotten(w, ev, tmpdir, name);
    } else {
      RestartRemembers(w, ev, tmpdir, name);
    }
  }

  lemma ReadNotForgotten(w: World, ev: Event, tmpdir: string, name: string)
    requires ev.Poll?
    ensures ReadNow(w, ev, tmpdir, name).Some? ==> !Forgets(w, ev, name)
  {
    if ev.listing != [] && Find(ev.listing, name).Some? {
      VisitRemembers(Get(w.index, name), Find(ev.listing, name).value, ev.copies, tmpdir);
    }
  }

  // Every time something more is read of a file the program remembers it.
  ghost predicate ReadsRemembered(w: World, evs: seq<Event>, tmpdir: string, name: string, last: Bytes, mem: Memory)
    requires GrowingRun(w, evs, tmpdir, name, last)
    decreases |evs|
  {
    evs == [] || (
      (ReadNow(w, evs[0], tmpdir, name).Some? && last != [] ==> mem.index) &&
      ReadsRemembered(Turn(w, evs[0], tmpdir), evs[1..], tmpdir, name, LastAfter(w, evs[0], tmpdir, name, last),
                      MemoryAfter(mem, w, evs[0], tmpdir, name)))
  }

  lemma OverExactly(w: World, ev: Event, tmpdir: string, name: string, last: Bytes, mem: Memory)
    requires Matches(w, name, mem)
    ensures StartsOver(w, ev, tmpdir, name, last) <==>
            ReadNow(w, ev, tmpdir, name).Some? && last != [] && !mem.index
  {
    hide ReadNow;
  }

  lemma {:induction false} OverByForgetting(w: World, evs: seq<Event>, tmpdir: string, name: string, last: Bytes,
                                            mem: Memory)
    requires GrowingRun(w, evs, tmpdir, name, last) && Matches(w, name, mem)
    ensures NeverStartsOver(w, evs, tmpdir, name, last) <==> ReadsRemembered(w, evs, tmpdir, name, last, mem)
    decreases |evs|
  {
    hide Turn, StartsOver, ReadNow, Matches, MemoryAfter, LastAfter, Storable;
    if evs != [] {
      OverExactly(w, evs[0], tmpdir, name, last, mem);
      TurnRemembers(w, evs[0], tmpdir, name, mem);
      OverByForgetting(Turn(w, evs[0], tmpdir), evs[1..], tmpdir, name, LastAfter(w, evs[0], tmpdir, name, last),
                       MemoryAfter(mem, w, evs[0], tmpdir, name));
    }
  }

  const NO_MEMORY := Memory(false, false)

  // Exactly once: over every run of scans, failed reads, cut passes and restarts, the parts handed on of a
  // growing file are, put together, what was last read of it - exactly when the program remembers the file
  // whenever it reads on in it.
  lemma HandedOnOnce(evs: seq<Event>, tmpdir: string, name: string)
    requires GrowingRun(EMPTY, evs, tmpdir, name, [])
    ensures var (w, last) := Outcome(EMPTY, evs, tmpdir, name, []);
      Concat(HandedSoFar(w, name)) == last <==> ReadsRemembered(EMPTY, evs, tmpdir, name, [], NO_MEMORY)
  {
    hide Outcome, NeverStartsOver, GrowingRun, ReadsRemembered;
    RunHands(EMPTY, evs, tmpdir, name, []);
    OverByForgetting(EMPTY, evs, tmpdir, name, [], NO_MEMORY);
  }

  // A copy or stat that fails makes the program forget the file: the next time it is listed, unless there
  // is a restart before, it starts over, and all of it is new.
  lemma DroppedStartsOver(index: Index, listing: seq<Listed>, l: Listed, listing': seq<Listed>, l': Listed,
                          tmpdir: string, obs: Bytes)
    requires Distinct(listing) && l in listing && DroppedBy(Get(index, l.name), l)
    requires Distinct(listing') && l' in listing' && l'.name == l.name
    ensures var e := Get(Scan(Scan(index, listing, tmpdir), listing', tmpdir), l.name);
      e == Some(NewEntry(l')) && NewPart(e.value.offset, e.value.crc, obs) == obs
  {
    ScanEach(index, listing, tmpdir, l);
    ScanEach(Scan(index, listing, tmpdir), listing', tmpdir, l');
  }
}
