/** The pipeline as a whole: what is listed of a file that grows, poll by poll, against what is listed of the
    whole file; and what of that reaches the sender. */
module Pipeline {
  import opened Text
  import opened Crc
  import opened Increments
  import opened Framing
  import opened FramingLaws
  import opened FramingLimits
  import opened Bulletins
  import opened Scanning
  import opened Persistence
  import opened Runs
  import Collector
  import Outbox
  import Sender

  // ----- Bytes as text -----

  function TextOf(s: Bytes): (t: string)
    ensures |t| == |s|
  {
    seq(|s|, i requires 0 <= i < |s| => s[i] as char)
  }

  // The few characters that a text needs to go on with what another left pending.
  function ByteOf(c: char): (b: bv8)
    requires c in "ZCXN\n"
    ensures b as char == c
  {
    if c == 'Z' then 0x5a else if c == 'C' then 0x43 else if c == 'X' then 0x58 else if c == 'N' then 0x4e else 0x0a
  }

  predicate OfMarks(t: string) {
    forall c | c in t :: c in "ZCXN\n"
  }

  function BytesOf(t: string): (s: Bytes)
    requires OfMarks(t)
    ensures TextOf(s) == t
  {
    seq(|t|, i requires 0 <= i < |t| => ByteOf(t[i]))
  }

  // Every byte stands for the character with its number.
  lemma ByteChars(s: Bytes)
    ensures forall i | 0 <= i < |s| :: TextOf(s)[i] as int == s[i] as int
  {
  }

  lemma TextAppend(a: Bytes, b: Bytes)
    ensures TextOf(a + b) == TextOf(a) + TextOf(b)
  {
  }

  // ----- Decoding part by part -----

  function DecodeOf(s: Bytes): Decoded {
    Deframe(TextOf(s))
  }

  // Each part is split by an object of its own.
  function DecodeParts(parts: seq<Bytes>): Decoded {
    if parts == [] then Decoded([], false)
    else Join(DecodeParts(parts[..|parts| - 1]), DecodeOf(parts[|parts| - 1]))
  }

  // Decoding ends at the end of a message or in a gap, with no letter of a ZCZC matched.
  predicate Idle(s: Bytes) {
    Run(START, TextOf(s)).mode == Seek(0)
  }

  lemma IdleJoin(a: Bytes, b: Bytes)
    requires Idle(a)
    ensures DecodeOf(a + b) == Join(DecodeOf(a), DecodeOf(b))
  {
    hide Run, Deframe, TextOf;
    TextAppend(a, b);
    IdleAppend(TextOf(a), TextOf(b));
  }

  lemma PartNext(parts: seq<Bytes>, part: Bytes)
    ensures DecodeParts(parts + [part]) == Join(DecodeParts(parts), DecodeOf(part))
    ensures DecodeParts(OneMore(parts, part)) == Join(DecodeParts(parts), DecodeOf(part))
  {
    hide Deframe;
    assert (parts + [part])[..|parts|] == parts;
    if part == [] {
      NothingDecoded();
      assert DecodeParts(parts).bodies + [] == DecodeParts(parts).bodies;
    }
  }

  lemma NothingDecoded()
    ensures DecodeOf([]) == Decoded([], false)
  {
    assert TextOf([]) == "";
  }

  lemma {:induction false} HangsInParts(parts: seq<Bytes>)
    ensures DecodeParts(parts).hangs <==> exists k :: 0 <= k < |parts| && DecodeOf(parts[k]).hangs
    decreases |parts|
  {
    hide DecodeOf;
    if parts != [] {
      var init := parts[..|parts| - 1];
      HangsInParts(init);
      assert forall k | 0 <= k < |init| :: init[k] == parts[k];
    }
  }

  lemma SpoilerOfMarks(mode: Mode)
    requires Sane(mode)
    ensures OfMarks(Spoiler(mode))
  {
    match mode
    case Seek(_) =>
    case Head(_) =>
    case Body(_, _) =>
      assert Ns(4) == "NNNN" && Crs(0) == "";
    case Tail(_, _, _, _) =>
  }

  // What was read of a file may be decoded on its own, whatever is appended later, exactly when decoding it
  // ends idle.
  lemma CutExactly(a: Bytes)
    ensures Idle(a) <==> forall b: Bytes :: DecodeParts([a, b]) == DecodeOf(a + b)
  {
    hide Run, Deframe, TextOf, Spoiler, BytesOf;
    forall b: Bytes
      ensures DecodeParts([a, b]) == Join(DecodeOf(a), DecodeOf(b))
      ensures Idle(a) ==> DecodeOf(a + b) == Join(DecodeOf(a), DecodeOf(b))
    {
      TwoParts(a, b);
      if Idle(a) {
        IdleJoin(a, b);
      }
    }
    if !Idle(a) {
      var spoiler := Spoiler(Run(START, TextOf(a)).mode);
      SpoilerOfMarks(Run(START, TextOf(a)).mode);
      TextAppend(a, BytesOf(spoiler));
      Spoils(TextOf(a));
      assert DecodeParts([a, BytesOf(spoiler)]) != DecodeOf(a + BytesOf(spoiler));
    }
  }

  lemma TwoParts(a: Bytes, b: Bytes)
    ensures DecodeParts([a, b]) == Join(DecodeOf(a), DecodeOf(b))
  {
    hide Deframe, TextOf, OneMore;
    PartNext([], a);
    PartNext([a], b);
    assert [] + [a] == [a] && [a] + [b] == [a, b];
    assert [] + DecodeOf(a).bodies == DecodeOf(a).bodies;
  }

  // ----- Incremental equals batch, over one file's snapshots -----

  // Every snapshot but the last ends idle.
  predicate EndIdle(last: Bytes, snapshots: seq<Bytes>)
    decreases |snapshots|
  {
    snapshots == [] || (Idle(last) && EndIdle(snapshots[0], snapshots[1..]))
  }

  lemma {:induction false} PartsDecoded(last: Bytes, snapshots: seq<Bytes>, before: seq<Bytes>)
    requires Growing(last, snapshots) && EndIdle(last, snapshots) && DecodeParts(before) == DecodeOf(last)
    ensures DecodeParts(before + Parts(|last|, CrcOf(last), snapshots)) ==
            DecodeOf(if snapshots == [] then last else snapshots[|snapshots| - 1])
    decreases |snapshots|
  {
    hide NewPart, CrcOf, Deframe, Idle, TextOf;
    var parts := Parts(|last|, CrcOf(last), snapshots);
    if snapshots == [] {
      assert before + parts == before;
    } else {
      var s := snapshots[0];
      NoCollision(last, s);
      PartsAgree(last, s);
      var part := s[|last|..];
      assert last + part == s;
      IdleJoin(last, part);
      PartNext(before, part);
      PartsDecoded(s, snapshots[1..], before + [part]);
      assert parts == [part] + Parts(|s|, CrcOf(s), snapshots[1..]);
      assert before + parts == (before + [part]) + Parts(|s|, CrcOf(s), snapshots[1..]);
    }
  }

  // What is listed of a file under an identifier, and of its parts one after the other.
  function ListsOf(kind: WmoRaport, s: Bytes, collect: set<WmoRaport>, id: string): seq<string> {
    FromBodies(kind, DecodeOf(s).bodies, collect, id)
  }

  function ListsOfParts(kind: WmoRaport, parts: seq<Bytes>, collect: set<WmoRaport>, id: string): seq<string> {
    if parts == [] then []
    else ListsOfParts(kind, parts[..|parts| - 1], collect, id) + ListsOf(kind, parts[|parts| - 1], collect, id)
  }

  lemma {:induction false} ListsFromParts(kind: WmoRaport, parts: seq<Bytes>, collect: set<WmoRaport>, id: string)
    ensures ListsOfParts(kind, parts, collect, id) == FromBodies(kind, DecodeParts(parts).bodies, collect, id)
    decreases |parts|
  {
    hide Deframe, TextOf, ReportsOf, Bulletins.Listed;
    if parts != [] {
      ListsFromParts(kind, parts[..|parts| - 1], collect, id);
      FromBodiesAppend(kind, DecodeParts(parts[..|parts| - 1]).bodies, DecodeOf(parts[|parts| - 1]).bodies,
                       collect, id);
    }
  }

  // Incremental equals batch: a file grows from nothing and is read any number of times, each time but the
  // last where decoding ends idle. Then what is listed of the parts, one after the other, is what is listed
  // of the last content as a whole, for every kind of report and every identifier.
  lemma IncrementalIsBatch(kind: WmoRaport, snapshots: seq<Bytes>, collect: set<WmoRaport>, id: string)
    requires Growing([], snapshots) && EndIdle([], snapshots) && snapshots != []
    ensures ListsOfParts(kind, Parts(0, 0, snapshots), collect, id) ==
            ListsOf(kind, snapshots[|snapshots| - 1], collect, id)
  {
    hide NewPart, CrcOf, Deframe, Idle, TextOf, FromBodies;
    NothingDecoded();
    FirstParts(snapshots);
    var parts := Parts(0, CrcOf([]), snapshots);
    PartsDecoded([], snapshots, []);
    assert [] + parts == parts;
    ListsFromParts(kind, parts, collect, id);
  }

  lemma FirstParts(snapshots: seq<Bytes>)
    requires snapshots != []
    ensures Parts(0, 0, snapshots) == Parts(0, CrcOf([]), snapshots)
  {
    hide CrcOf;
  }

  // A file of printed frames, with a gap free of Z after the last, ends idle.
  lemma FramesEndIdle(fs: seq<Frame>, gap: string, s: Bytes)
    requires (forall f | f in fs :: Printable(f)) && 'Z' !in gap && TextOf(s) == PrintAll(fs) + gap
    ensures Idle(s)
  {
    hide Run, Printable, PrintAll, TextOf;
    FramesRun(fs);
    RunAppend(START, PrintAll(fs), gap);
    NoZIsQuiet(Run(START, PrintAll(fs)), gap);
  }

  // ----- Incremental equals batch, over every run of the collector -----

  // Whenever the file is read, what was read of it before ended idle.
  ghost predicate ReadsIdle(w: World, evs: seq<Event>, tmpdir: string, name: string, last: Bytes)
    requires GrowingRun(w, evs, tmpdir, name, last)
    decreases |evs|
  {
    evs == [] || (
      (ReadNow(w, evs[0], tmpdir, name).Some? ==> Idle(last)) &&
      ReadsIdle(Turn(w, evs[0], tmpdir), evs[1..], tmpdir, name, LastAfter(w, evs[0], tmpdir, name, last)))
  }

  lemma TurnDecodes(w: World, ev: Event, tmpdir: string, name: string, last: Bytes)
    requires Grows(w, ev, tmpdir, name, last) && Tracked(w, name, last) && !StartsOver(w, ev, tmpdir, name, last)
    requires ReadNow(w, ev, tmpdir, name).Some? ==> Idle(last)
    requires DecodeParts(HandedSoFar(w, name)) == DecodeOf(last)
    ensures DecodeParts(HandedSoFar(Turn(w, ev, tmpdir), name)) == DecodeOf(LastAfter(w, ev, tmpdir, name, last))
  {
    hide Deframe, TextOf, Idle, Turn, Tracked, StartsOver, Grows, HandedSoFar, OneMore, DecodeParts;
    TurnTracks(w, ev, tmpdir, name, last);
    var c := ReadNow(w, ev, tmpdir, name);
    if c.Some? {
      LastIsPrefix(w, ev, tmpdir, name, last);
      var part := c.value[|last|..];
      assert last + part == c.value;
      IdleJoin(last, part);
      PartNext(HandedSoFar(w, name), part);
    }
  }

  lemma {:induction false} RunDecodes(w: World, evs: seq<Event>, tmpdir: string, name: string, last: Bytes)
    requires GrowingRun(w, evs, tmpdir, name, last)
    requires NeverStartsOver(w, evs, tmpdir, name, last) && ReadsIdle(w, evs, tmpdir, name, last)
    requires Tracked(w, name, last) && DecodeParts(HandedSoFar(w, name)) == DecodeOf(last)
    ensures var (w', last') := Outcome(w, evs, tmpdir, name, last);
      DecodeParts(HandedSoFar(w', name)) == DecodeOf(last')
    decreases |evs|
  {
    hide Turn, Tracked, StartsOver, LastAfter, ReadNow, Storable, DecodeParts, DecodeOf, Idle, HandedSoFar;
    if evs != [] {
      TurnDecodes(w, evs[0], tmpdir, name, last);
      TurnTracks(w, evs[0], tmpdir, name, last);
      RunDecodes(Turn(w, evs[0], tmpdir), evs[1..], tmpdir, name, LastAfter(w, evs[0], tmpdir, name, last));
    }
  }

  // The same over every run of scans, failed reads, cut passes and restarts: what is listed of the parts
  // handed on, one after the other, is what is listed of the file as it was last read, and decoding some
  // part never ends exactly when decoding the file never does.
  lemma RunIsBatch(kind: WmoRaport, evs: seq<Event>, tmpdir: string, name: string, collect: set<WmoRaport>, id: string)
    requires GrowingRun(EMPTY, evs, tmpdir, name, [])
    requires ReadsRemembered(EMPTY, evs, tmpdir, name, [], NO_MEMORY) && ReadsIdle(EMPTY, evs, tmpdir, name, [])
    ensures var (w, last) := Outcome(EMPTY, evs, tmpdir, name, []);
      var parts := HandedSoFar(w, name);
      && ListsOfParts(kind, parts, collect, id) == ListsOf(kind, last, collect, id)
      && (DecodeOf(last).hangs <==> exists k :: 0 <= k < |parts| && DecodeOf(parts[k]).hangs)
  {
    hide Deframe, TextOf, FromBodies, Outcome, GrowingRun, NeverStartsOver, ReadsRemembered, ReadsIdle;
    OverByForgetting(EMPTY, evs, tmpdir, name, [], NO_MEMORY);
    NothingDecoded();
    RunDecodes(EMPTY, evs, tmpdir, name, []);
    var (w, last) := Outcome(EMPTY, evs, tmpdir, name, []);
    ListsFromParts(kind, HandedSoFar(w, name), collect, id);
    HangsInParts(HandedSoFar(w, name));
  }

  // A run the results above are about, at whose end c is what was last read of the file.
  ghost predicate RunGives(w: World, evs: seq<Event>, tmpdir: string, name: string, last: Bytes, c: Bytes) {
    && GrowingRun(w, evs, tmpdir, name, last)
    && NeverStartsOver(w, evs, tmpdir, name, last)
    && ReadsIdle(w, evs, tmpdir, name, last)
    && Outcome(w, evs, tmpdir, name, last).1 == c
  }

  // The shortest such run: a file that is there, unchanged and readable, is read by the third turn, whatever
  // it holds.
  lemma ThreeTurnsRead(l: Listed, c: Bytes, tmpdir: string)
    requires l.copied && l.restat == Some(l.mtime)
    ensures var copies := Copies(map[CopyName(tmpdir, l) := c], {CopyName(tmpdir, l)});
      var poll := Poll([l], copies, {l.name});
      RunGives(EMPTY, [poll, poll, poll], tmpdir, l.name, [], c) &&
      ReadsRemembered(EMPTY, [poll, poll, poll], tmpdir, l.name, [], NO_MEMORY)
  {
    hide Turn, CopyName;
    var copies := Copies(map[CopyName(tmpdir, l) := c], {CopyName(tmpdir, l)});
    var poll := Poll([l], copies, {l.name});
    assert Find([l], l.name) == Some(l);
    var w1 := Turn(EMPTY, poll, tmpdir);
    PollEach(EMPTY, [l], copies, {l.name}, tmpdir, l);
    assert Get(w1.index, l.name) == Some(NewEntry(l));
    var w2 := Turn(w1, poll, tmpdir);
    PollEach(w1, [l], copies, {l.name}, tmpdir, l);
    assert Get(w2.index, l.name) == Some(NewEntry(l).(seen := true));
    var w3 := Turn(w2, poll, tmpdir);
    assert ReadNow(w2, poll, tmpdir, l.name) == Some(c);
    assert TextOf([]) == "";
    assert [poll, poll, poll][1..] == [poll, poll] && [poll, poll][1..] == [poll] && [poll][1..] == [];
    assert RunGives(w3, [], tmpdir, l.name, c, c);
    assert RunGives(w2, [poll], tmpdir, l.name, [], c);
    assert RunGives(w1, [poll, poll], tmpdir, l.name, [], c);
    assert RunGives(EMPTY, [poll, poll, poll], tmpdir, l.name, [], c);
    RememberedToo([poll, poll, poll], tmpdir, l.name, c);
  }

  lemma RememberedToo(evs: seq<Event>, tmpdir: string, name: string, c: Bytes)
    requires RunGives(EMPTY, evs, tmpdir, name, [], c)
    ensures ReadsRemembered(EMPTY, evs, tmpdir, name, [], NO_MEMORY)
  {
    hide GrowingRun, ReadsRemembered, NeverStartsOver;
    OverByForgetting(EMPTY, evs, tmpdir, name, [], NO_MEMORY);
  }

  // ----- The class and the model of the whole run -----

  // The parts a pass hands on of one file.
  function PartsFor(handed: seq<(string, Bytes)>, name: string): seq<Bytes> {
    if handed == [] then [] else
      PartsFor(handed[..|handed| - 1], name) +
      if handed[|handed| - 1].0 == name then [handed[|handed| - 1].1] else []
  }

  // What a collection pass of the class hands on is what a turn of a run hands on, file by file.
  lemma PassIsTurn(order: seq<string>, done: set<string>, index: Index, copies: Copies, w: World, name: string)
    requires Enumerates(order, done) && done <= index.Keys
    ensures HandedSoFar(w.(handed := HandOn(w, index, copies, done)), name) ==
            HandedSoFar(w, name) + PartsFor(Collector.PassParts(order, index, copies), name)
  {
    hide CollectEntry, HandedPart, Collector.PassParts, PartsFor;
    if name in index {
      PassPartsFor(order, index, copies, name);
      assert HandedSoFar(w, name) + [] == HandedSoFar(w, name);
    } else {
      NotInPass(order, index, copies, name);
      assert HandedSoFar(w, name) + [] == HandedSoFar(w, name);
    }
  }

  lemma {:induction false} PassPartsFor(order: seq<string>, index: Index, copies: Copies, name: string)
    requires (forall n | n in order :: n in index) && (forall i, j | 0 <= i < j < |order| :: order[i] != order[j])
    requires name in index
    ensures PartsFor(Collector.PassParts(order, index, copies), name) ==
            if name in order && HandedPart(index[name], copies) != [] then [HandedPart(index[name], copies)] else []
    decreases |order|
  {
    hide CollectEntry, HandedPart, Collector.PassParts, PartsFor, CollectAll;
    if order == [] {
      Collector.PassNone(index, copies, false);
      PartsForNone(name);
    } else {
      var init, last := order[..|order| - 1], order[|order| - 1];
      assert last in order && order == init + [last];
      assert forall n | n in init :: n in order;
      assert forall i | 0 <= i < |init| :: init[i] == order[i];
      PassPartsFor(init, index, copies, name);
      Collector.PassNext(init, {}, last, index, copies, false);
      PartsForNext(Collector.PassParts(init, index, copies), (last, HandedPart(index[last], copies)), name);
    }
  }

  lemma {:induction false} NotInPass(order: seq<string>, index: Index, copies: Copies, name: string)
    requires (forall n | n in order :: n in index) && name !in index
    ensures PartsFor(Collector.PassParts(order, index, copies), name) == []
    decreases |order|
  {
    hide HandedPart, Collector.PassParts, PartsFor;
    if order == [] {
      Collector.PassNone(index, copies, false);
      PartsForNone(name);
    } else {
      var init, last := order[..|order| - 1], order[|order| - 1];
      assert last in order && order == init + [last];
      assert forall n | n in init :: n in order;
      NotInPass(init, index, copies, name);
      Collector.PassNext(init, {}, last, index, copies, false);
      PartsForNext(Collector.PassParts(init, index, copies), (last, HandedPart(index[last], copies)), name);
    }
  }

  lemma PartsForNone(name: string)
    ensures PartsFor([], name) == []
  {
  }

  lemma PartsForNext(handed: seq<(string, Bytes)>, x: (string, Bytes), name: string)
    ensures PartsFor(handed + [x], name) ==
            if x.0 == name then PartsFor(handed, name) + [x.1] else PartsFor(handed, name)
  {
    assert (handed + [x])[..|handed|] == handed;
  }

  // ----- From the lists to the messages -----

  // A report map as it is sent: its keys in the order of the map.
  function GroupsOf(keys: seq<string>, m: MsgMap): (groups: seq<Sender.Group>)
    requires forall id | id in keys :: id in m
  {
    seq(|keys|, i requires 0 <= i < |keys| => Sender.Group(keys[i], "", true, m[keys[i]]))
  }

  // The messages sent of a map are, for each identifier in turn, its reports in order, each under the
  // identifier; nothing else.
  lemma {:induction false} MessagesSent(decoder: string, keys: seq<string>, m: MsgMap, x: Outbox.Message)
    requires forall id | id in keys :: id in m
    ensures x in Sender.OfGroups(decoder, GroupsOf(keys, m)) <==>
      exists i, k :: 0 <= i < |keys| && 0 <= k < |m[keys[i]]| &&
        x == Outbox.Message(decoder, keys[i] + " \n" + m[keys[i]][k])
    decreases |keys|
  {
    var groups := GroupsOf(keys, m);
    if keys != [] {
      var init, last := keys[..|keys| - 1], keys[|keys| - 1];
      assert groups[..|groups| - 1] == GroupsOf(init, m);
      MessagesSent(decoder, init, m, x);
      var g := groups[|groups| - 1];
      assert last in keys;
      var of := Sender.OfGroup(decoder, g, g.msgs);
      assert forall k | 0 <= k < |m[last]| :: of[k] == Outbox.Message(decoder, last + " \n" + m[last][k]);
      assert forall i | 0 <= i < |init| :: init[i] == keys[i];
    }
  }
}
