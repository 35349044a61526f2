/** The main loop: new observations are looked for, collected, split and sent; the state is saved; saved
    messages are sent again; and the program may be stopped and started at any time. */
module MainLoop {
  import opened Text
  import opened Streams
  import opened Crc
  import opened Framing
  import opened Bulletins
  import opened Scanning
  import opened Persistence
  import opened Runs
  import opened FileRuns
  import opened CopyDisk
  import opened CopyRuns
  import opened Increments
  import opened FileEntries
  import opened Pipeline
  import opened EndToEnd
  import C = Collector
  import R = Replies

  // ----- Histories -----

  lemma HistoryNext(history: seq<Delivery>, d: Delivery, name: string)
    ensures PartsOf(history + [d], name) == PartsOf(history, name) + if d.file == name then [d.part] else []
    ensures AllMessages(history + [d]) == AllMessages(history) + d.messages
  {
    assert (history + [d])[..|history|] == history;
  }

  lemma Joined<T>(a: seq<T>, b: seq<T>, c: seq<T>)
    ensures a + b + c == a + (b + c) && a + [] == a
  {
  }

  lemma {:induction false} PartsAppend(a: seq<Delivery>, b: seq<Delivery>, name: string)
    ensures PartsOf(a + b, name) == PartsOf(a, name) + PartsOf(b, name)
    decreases |b|
  {
    if b == [] {
      assert a + b == a;
    } else {
      hide PartsOf, AllMessages;
      var init, d := b[..|b| - 1], b[|b| - 1];
      assert a + b == a + init + [d] && b == init + [d];
      PartsAppend(a, init, name);
      HistoryNext(a + init, d, name);
      HistoryNext(init, d, name);
      Joined(PartsOf(a, name), PartsOf(init, name), if d.file == name then [d.part] else []);
    }
  }

  lemma {:induction false} MessagesAppend(a: seq<Delivery>, b: seq<Delivery>)
    ensures AllMessages(a + b) == AllMessages(a) + AllMessages(b)
    decreases |b|
  {
    if b == [] {
      assert a + b == a;
    } else {
      hide PartsOf, AllMessages;
      var init, d := b[..|b| - 1], b[|b| - 1];
      assert a + b == a + init + [d] && b == init + [d];
      MessagesAppend(a, init);
      HistoryNext(a + init, d, "");
      HistoryNext(init, d, "");
      Joined(AllMessages(a), AllMessages(init), d.messages);
    }
  }

  lemma {:induction false} SentMessages(history: seq<Delivery>, collect: set<WmoRaport>, decoder: WmoRaport -> string)
    requires AllSent(history, collect, decoder) && PlainDecoders(decoder)
    ensures forall m | m in AllMessages(history) :: O.Parsable(m)
    decreases |history|
  {
    if history != [] {
      var init, d := history[..|history| - 1], history[|history| - 1];
      assert d in history && forall x | x in init :: x in history;
      SentMessages(init, collect, decoder);
      assert SentFor(d.part, d.messages, collect, decoder);
    }
  }

  // Decoder names come from the configuration, a line each.
  ghost predicate PlainDecoders(decoder: WmoRaport -> string) {
    '\n' !in decoder(SYNOP) && '\n' !in decoder(METAR)
  }

  // No part that can be handed on has a NUL where the splitter would go past its end mark.
  ghost predicate PartsDefined(index: Index, copies: Copies) {
    forall name | name in index :: Defined(START, TextOf(HandedPart(index[name], copies)))
  }

  ghost predicate SomeHangs(index: Index, copies: Copies) {
    exists name :: name in index && DecodeOf(HandedPart(index[name], copies)).hangs
  }

  // No part of any copy has one.
  ghost predicate AllDefined(copies: Copies) {
    forall f, k: nat | f in copies.contents && k <= |copies.contents[f]| ::
      Defined(START, TextOf(copies.contents[f][k..]))
  }

  lemma PartsAllDefined(index: Index, copies: Copies)
    requires AllDefined(copies)
    ensures PartsDefined(index, copies)
  {
    hide Defined, TextOf;
    forall name | name in index
      ensures Defined(START, TextOf(HandedPart(index[name], copies)))
    {
      PartDefined(index[name], copies);
    }
  }

  lemma PartDefined(e: Entry, copies: Copies)
    requires AllDefined(copies)
    ensures Defined(START, TextOf(HandedPart(e, copies)))
  {
    hide Defined, CrcOf;
    if e.copy in copies.contents {
      var c := copies.contents[e.copy];
      assert c[0..] == c && c[|c|..] == [];
    }
    NothingDefined();
  }

  ghost predicate SomeCopyHangs(copies: Copies) {
    exists f, k: nat :: f in copies.contents && k <= |copies.contents[f]| && DecodeOf(copies.contents[f][k..]).hangs
  }

  lemma HangsInCopy(index: Index, copies: Copies)
    ensures SomeHangs(index, copies) ==> SomeCopyHangs(copies)
  {
    hide HandedPart, DecodeOf, SomeCopyHangs;
    if SomeHangs(index, copies) {
      var name :| name in index && DecodeOf(HandedPart(index[name], copies)).hangs;
      PartInCopy(index[name], copies);
    }
  }

  lemma PartInCopy(e: Entry, copies: Copies)
    ensures DecodeOf(HandedPart(e, copies)).hangs ==> SomeCopyHangs(copies)
  {
    hide CrcOf, DecodeOf;
    NothingHangs();
    if e.copy in copies.contents {
      var c := copies.contents[e.copy];
      assert c[0..] == c && c[|c|..] == [];
    }
  }

  lemma NothingHangs()
    ensures !DecodeOf([]).hangs
  {
    assert TextOf([]) == "";
  }

  lemma NothingDefined()
    ensures Defined(START, TextOf([]))
  {
    assert TextOf([]) == "";
  }

  // ----- Accounts -----

  // What the sender's accounts say, what went over the wire, and the operations both come from.
  datatype Mail = Mail(box: O.Box, wire: seq<S.Transmission>, ops: seq<O.Op>)

  ghost predicate MailInOrder(mail: Mail) {
    && S.InLog(mail.box.log) == S.OnWire(mail.wire)
    && mail.box == O.ApplyAll(O.EMPTY, mail.ops)
    && O.Conserved(mail.box)
  }

  ghost function MailSent(mail: Mail, ms: seq<O.Message>, answer: nat -> S.Answer): Mail {
    Mail(O.ApplyAll(mail.box, S.SendOps(ms, answer)), mail.wire + S.Transmissions(ms, answer),
         mail.ops + S.SendOps(ms, answer))
  }

  lemma SendingKeepsOrder(mail: Mail, ms: seq<O.Message>, answer: nat -> S.Answer)
    requires MailInOrder(mail) && forall m | m in ms :: O.Parsable(m)
    ensures MailInOrder(MailSent(mail, ms, answer)) && MailSent(mail, ms, answer).box.texts == mail.box.texts + ms
  {
    hide O.Conserved, O.ApplyAll, S.SendOps, S.Transmissions, S.InLog, S.OnWire, O.Parsable;
    S.SendingConserves(mail.box, ms, answer);
    S.AllEntered(mail.box, ms, answer);
    S.WireAppend(mail.wire, S.Transmissions(ms, answer));
    S.ApplyOn(O.EMPTY, mail.ops, S.SendOps(ms, answer));
  }

  ghost function MailResent(mail: Mail, turns: seq<S.Turn>, test: bool): Mail {
    Mail(S.Resent(mail.box, turns, test), mail.wire + S.SentInPass(mail.box, turns, test),
         mail.ops + S.PassOps(mail.box, turns, test))
  }

  lemma ResendingKeepsOrder(mail: Mail, turns: seq<S.Turn>, test: bool)
    requires MailInOrder(mail)
    ensures MailInOrder(MailResent(mail, turns, test)) && MailResent(mail, turns, test).box.texts == mail.box.texts
  {
    hide O.Conserved, O.ApplyAll, S.Resent, S.SentInPass, S.PassOps, S.InLog, S.OnWire;
    S.ResentConserves(mail.box, turns, test);
    S.ResentTexts(mail.box, turns, test);
    S.PassLogged(mail.box, turns, test);
    S.PassIsOps(mail.box, turns, test);
    S.WireAppend(mail.wire, S.SentInPass(mail.box, turns, test));
    S.ApplyOn(O.EMPTY, mail.ops, S.PassOps(mail.box, turns, test));
  }

  // A pass over all saved files in which kvalobs accepts or refuses everything.
  ghost predicate Settling(files: map<string, string>, turns: seq<S.Turn>) {
    && S.ListedOnce(turns)
    && (forall t | t in turns :: t.readable && !t.shutdown && O.Judge(t.reply) != O.Later)
    && (forall file | file in files :: exists k: nat :: k < |turns| && turns[k].file == file)
  }

  // Every message was accepted, refused or lost.
  ghost predicate NoneWaits(box: O.Box) {
    forall id: nat | id < |box.texts| :: id in box.fate && box.fate[id] in {O.Taken, O.Refused, O.Lost}
  }

  lemma SettledByPass(mail: Mail, turns: seq<S.Turn>)
    requires MailInOrder(mail) && Settling(mail.box.files, turns)
    ensures S.Resent(mail.box, turns, false).files == map[] && NoneWaits(S.Resent(mail.box, turns, false))
  {
    hide O.Conserved, O.Judge, S.Resent, S.InLog, S.OnWire, O.ApplyAll;
    S.AllSettled(mail.box, turns);
  }

  // What has been delivered is what a run of turns hands on, and what the accounts and the wire show.
  ghost predicate Accounted(w: World, history: seq<Delivery>, mail: Mail, collect: set<WmoRaport>,
                            decoder: WmoRaport -> string)
  {
    && (forall name :: PartsOf(history, name) == HandedSoFar(w, name))
    && AllSent(history, collect, decoder)
    && MailInOrder(mail) && mail.box.texts == AllMessages(history)
  }

  ghost predicate StateHolds(text: string, saved: Index) {
    exists order :: Enumerates(order, saved.Keys) && text == PrintState(order, saved)
  }

  const NO_MAIL := Mail(O.EMPTY, [], [])

  lemma NothingDelivered(collect: set<WmoRaport>, decoder: WmoRaport -> string)
    ensures Accounted(EMPTY, [], NO_MAIL, collect, decoder) && StateHolds("", map[])
  {
    hide O.FilesKept, O.LogKept, O.AllTransmitted;
    O.EmptyConserved();
    EnumeratesNone();
    var none: Index := map[];
    assert Enumerates([], none.Keys) && PrintState([], none) == "";
  }

  // After a pass whose parts were all sent the accounts are right again.
  lemma PassAccounted(w: World, index: Index, copies: Copies, order: seq<string>, done: set<string>,
                      history: seq<Delivery>, ds: seq<Delivery>, mail: Mail, answer: nat -> S.Answer,
                      collect: set<WmoRaport>, decoder: WmoRaport -> string)
    requires Accounted(w, history, mail, collect, decoder) && Enumerates(order, done) && done <= index.Keys
    requires AllSent(ds, collect, decoder) && PlainDecoders(decoder)
    requires forall name :: PartsOf(ds, name) == PartsFor(C.PassParts(order, index, copies), name)
    ensures Accounted(w.(handed := HandOn(w, index, copies, done)), history + ds,
                      MailSent(mail, AllMessages(ds), answer), collect, decoder)
  {
    hide SentFor, MailInOrder, MailSent, HandedSoFar, HandOn, PartsOf, PartsFor, C.PassParts, AllMessages;
    forall name
      ensures PartsOf(history + ds, name) == HandedSoFar(w.(handed := HandOn(w, index, copies, done)), name)
    {
      PartsAppend(history, ds, name);
      PassIsTurn(order, done, index, copies, w, name);
    }
    MessagesAppend(history, ds);
    SentMessages(ds, collect, decoder);
    SendingKeepsOrder(mail, AllMessages(ds), answer);
  }

  // How far a pass gets: to all entries, or to as many as there were rounds before the shutdown.
  ghost predicate AsFarAs(reached: set<string>, index: Index, rounds: nat) {
    reached <= index.Keys && if |index| <= rounds then reached == index.Keys else |reached| == rounds
  }

  // A look reaches as far if there are new files; if not there is no pass, and it does not matter.
  ghost predicate GetsTo(reached: set<string>, index: Index, listing: seq<Listed>, tmpdir: string, rounds: nat) {
    var scanned := Scanning.Scan(index, listing, tmpdir);
    AsFarAs(reached, scanned, rounds) || (!HasNewFiles(index, listing, tmpdir) && reached == scanned.Keys)
  }

  // ----- The program -----

  // What one look for new observations meets with.
  datatype Input = Input(listing: seq<Listed>, copies: Copies, rounds: nat, answer: nat -> S.Answer)

  // A look in which a file is listed with a certain time, all goes well with it, and no shutdown cuts in.
  ghost predicate GoodLook(input: Input, tmpdir: string, name: string, mtime: int) {
    Distinct(input.listing) && AllDefined(input.copies) && |input.listing| <= input.rounds &&
    var l := Find(input.listing, name);
    l.Some? && l.value.mtime == mtime && GoodRound(l.value, input.copies, tmpdir)
  }

  // What is read of the file in such a look.
  ghost function ContentOf(input: Input, tmpdir: string, name: string): Bytes
    requires Find(input.listing, name).Some?
    requires Readable(CopyName(tmpdir, Find(input.listing, name).value), input.copies)
  {
    input.copies.contents[CopyName(tmpdir, Find(input.listing, name).value)]
  }

  class Norcom2kv {
    const tmpdir: string
    const debug: bool
    const collect: set<WmoRaport>
    const decoder: WmoRaport -> string
    const sender: S.KvSender
    var collector: C.CollectWmoReports
    var stateFile: string
    // All turns so far, what they amount to, all that was delivered, and what the sender did.
    ghost var evs: seq<Event>
    ghost var world: World
    ghost var history: seq<Delivery>
    ghost var ops: seq<O.Op>

    ghost function MailNow(): Mail
      reads this, sender
    {
      Mail(sender.box, sender.wire, ops)
    }

    ghost predicate Valid()
      reads this, collector, collector.Entries(), sender
    {
      && PlainDecoders(decoder)
      && collector.Valid() && collector.tmpdir == tmpdir && collector.debug == debug
      && collector.Contents() == world.index
      && StateHolds(stateFile, world.saved)
      && Reached(world, collector.disk, evs, tmpdir, debug)
      && sender.Valid() && Accounted(world, history, MailNow(), collect, decoder)
    }

    constructor (tmpdir: string, debug: bool, collect: set<WmoRaport>, decoder: WmoRaport -> string)
      requires PlainDecoders(decoder)
      ensures Valid() && evs == [] && this.collect == collect && this.decoder == decoder && this.tmpdir == tmpdir
    {
      this.tmpdir, this.debug, this.collect, this.decoder := tmpdir, debug, collect, decoder;
      sender := new S.KvSender();
      collector := new C.CollectWmoReports(tmpdir, debug);
      stateFile := "";
      evs, world, history, ops := [], EMPTY, [], [];
      NothingDelivered(collect, decoder);
    }

    // The parts of a pass are split and sent one after the other; false if splitting one never ends.
    method SendParts(handed: seq<(string, Bytes)>, answer: nat -> S.Answer)
      returns (done: bool, ghost ds: seq<Delivery>)
      requires sender.Valid()
      requires forall k | 0 <= k < |handed| :: Defined(START, TextOf(handed[k].1))
      modifies sender
      ensures sender.Valid()
      ensures done <==> forall k | 0 <= k < |handed| :: !DecodeOf(handed[k].1).hangs
      ensures done ==> AllSent(ds, collect, decoder) && forall name :: PartsOf(ds, name) == PartsFor(handed, name)
      ensures sender.box == O.ApplyAll(old(sender.box), S.SendOps(AllMessages(ds), answer))
      ensures sender.wire == old(sender.wire) + S.Transmissions(AllMessages(ds), answer)
    {
      hide SentFor, O.ApplyAll, S.SendOps, S.Transmissions, Defined, DecodeOf, TextOf, PartsOf, PartsFor, AllMessages;
      ghost var box0 := sender.box;
      ds := [];
      StartSending(box0, answer);
      var start := |sender.wire|;
      var k := 0;
      while k < |handed|
        invariant k <= |handed| && sender.Valid() && AllSent(ds, collect, decoder)
        invariant forall j | 0 <= j < k :: !DecodeOf(handed[j].1).hangs
        invariant forall name :: PartsOf(ds, name) == PartsFor(handed[..k], name)
        invariant |sender.wire| == start + |AllMessages(ds)|
        invariant sender.wire == old(sender.wire) + S.Transmissions(AllMessages(ds), answer)
        invariant sender.box == O.ApplyAll(box0, S.SendOps(AllMessages(ds), answer))
      {
        var n: nat := |sender.wire| - start;
        ghost var ms;
        done, ms := DoNewObs(sender, handed[k].1, collect, decoder, S.From(answer, n));
        S.SentOn(box0, AllMessages(ds), ms, answer);
        if !done {
          assert AllMessages(ds) + ms == AllMessages(ds);
          return;
        }
        ghost var d := Delivery(handed[k].0, handed[k].1, ms);
        TransmittedLength(ms, S.From(answer, n));
        OnePartMore(ds, d, handed, k);
        ds := ds + [d];
        k := k + 1;
      }
      assert handed[..k] == handed;
      done := true;
    }

    // Sending leaves the index as it is.
    method SendPass(handed: seq<(string, Bytes)>, answer: nat -> S.Answer)
      returns (done: bool, ghost ds: seq<Delivery>)
      requires sender.Valid() && collector.Valid()
      requires forall k | 0 <= k < |handed| :: Defined(START, TextOf(handed[k].1))
      modifies sender
      ensures collector.Valid() && collector.Contents() == old(collector.Contents())
      ensures sender.Valid()
      ensures done <==> forall k | 0 <= k < |handed| :: !DecodeOf(handed[k].1).hangs
      ensures done ==> AllSent(ds, collect, decoder) && forall name :: PartsOf(ds, name) == PartsFor(handed, name)
      ensures MailNow() == MailSent(old(MailNow()), AllMessages(ds), answer).(ops := ops)
    {
      hide C.CollectWmoReports.Contents, C.CollectWmoReports.Entries, AllSent, PartsOf, PartsFor, DecodeOf, Defined,
           TextOf, AllMessages, O.ApplyAll, S.SendOps, S.Transmissions;
      done, ds := SendParts(handed, answer);
      collector.Untouched();
    }

    method SaveState() returns (saved: string)
      requires collector.Valid()
      ensures collector.Valid() && collector.Contents() == old(collector.Contents())
      ensures StateHolds(saved, collector.Contents())
    {
      hide C.CollectWmoReports.Contents, C.CollectWmoReports.Entries, StateHolds;
      saved := SaveFInfoList(collector.Contents());
      collector.Untouched();
      StateSaved(saved, collector.Contents());
    }

    // A pass: what it collects is sent, and the state is written out.
    method Pass(copies: Copies, roundsBeforeShutdown: nat, answer: nat -> S.Answer)
      returns (done: bool, saved: string, ghost reached: set<string>, ghost ds: seq<Delivery>)
      requires PlainDecoders(decoder) && collector.Valid() && PartsDefined(collector.Contents(), copies)
      requires collector.debug == debug
      requires sender.Valid() && Accounted(world, history, MailNow(), collect, decoder)
      modifies collector.Entries(), collector`disk, sender
      ensures AsFarAs(reached, old(collector.Contents()), roundsBeforeShutdown)
      ensures MailNow() == MailSent(old(MailNow()), AllMessages(ds), answer).(ops := ops)
      ensures done ==> collector.Valid() && sender.Valid() && StateHolds(saved, collector.Contents())
      ensures done ==> collector.Contents() == CollectAll(old(collector.Contents()), copies, reached)
      ensures collector.disk == DiskAfterPass(old(collector.disk), old(collector.Contents()), reached, debug)
      ensures done ==> Accounted(world.(handed := HandOn(world, old(collector.Contents()), copies, reached)),
                                 history + ds, MailSent(old(MailNow()), AllMessages(ds), answer), collect, decoder)
      ensures !done ==> SomeHangs(old(collector.Contents()), copies)
    {
      hide CollectAll, HandOn, Accounted, DecodeOf, C.PassParts, HandedPart, Enumerates, PartsDefined, PartsFor,
           MailSent, StateHolds, C.CollectWmoReports.Contents, C.CollectWmoReports.Entries;
      ghost var index, mail := collector.Contents(), MailNow();
      ghost var order;
      var handed, unlinked;
      collector.SameKeys();
      handed, unlinked, order, reached := collector.CollectObservations(copies, roundsBeforeShutdown);
      EnumeratesSize(order, reached);
      FarAs(reached, index, collector.fileInfoList.Keys, roundsBeforeShutdown);
      PartsOfPass(order, reached, index, copies, handed);
      saved := "";
      done, ds := SendPass(handed, answer);
      if !done {
        return;
      }
      PassAccounted(world, index, copies, order, reached, history, ds, mail, answer, collect, decoder);
      saved := SaveState();
    }

    // The look itself: what it leaves is what a turn of a run leaves.
    method LookAndPass(listing: seq<Listed>, copies: Copies, roundsBeforeShutdown: nat, answer: nat -> S.Answer)
      returns (done: bool, saved: string, ghost reached: set<string>, ghost ds: seq<Delivery>, ghost mail: Mail)
      requires Valid() && Distinct(listing)
      requires PartsDefined(Scanning.Scan(collector.Contents(), listing, tmpdir), copies)
      modifies collector, collector.Entries(), sender
      ensures fresh(collector.Entries() - old(collector.Entries()))
      ensures GetsTo(reached, world.index, listing, tmpdir, roundsBeforeShutdown)
      ensures sender.wire == old(sender.wire) + S.Transmissions(AllMessages(ds), answer)
      ensures done ==> collector.Valid() && sender.Valid() && MailNow() == mail.(ops := ops)
      ensures done ==>
        var w := Turn(world, Poll(listing, copies, reached), tmpdir);
        && collector.Contents() == w.index && StateHolds(saved, w.saved)
        && collector.disk == DiskAfterTurn(old(collector.disk), world, Poll(listing, copies, reached), tmpdir, debug)
        && Accounted(w, history + ds, mail, collect, decoder)
      ensures !done ==> SomeHangs(Scanning.Scan(world.index, listing, tmpdir), copies)
    {
      hide Scanning.Scan, HasNewFiles, Reached, Accounted, SomeHangs, PartsDefined, CollectAll, HandOn, StateHolds,
           AsFarAs, AllMessages, O.ApplyAll, S.SendOps, S.Transmissions,
           C.CollectWmoReports.Contents, C.CollectWmoReports.Entries;
      reached, ds := Scanning.Scan(world.index, listing, tmpdir).Keys, [];
      saved, mail := stateFile, MailNow();
      StartSending(sender.box, answer);
      var hasNewFilesToCollect, unlinked := collector.CheckForNewObservations(listing);
      if hasNewFilesToCollect {
        done, saved, reached, ds := Pass(copies, roundsBeforeShutdown, answer);
        if !done {
          return;
        }
        mail := MailSent(mail, AllMessages(ds), answer);
      }
      SameParts(world, Turn(world, Poll(listing, copies, reached), tmpdir), history + ds, mail, collect, decoder);
      assert history + [] == history;
      done := true;
    }

    // One look for new observations, and the pass that follows if there are some; false if splitting some
    // part never ends. What is delivered goes over the wire.
    method Look(listing: seq<Listed>, copies: Copies, roundsBeforeShutdown: nat, answer: nat -> S.Answer)
      returns (done: bool, ghost reached: set<string>, ghost ds: seq<Delivery>)
      requires Valid() && Distinct(listing)
      requires PartsDefined(Scanning.Scan(collector.Contents(), listing, tmpdir), copies)
      modifies this`stateFile, this`evs, this`world, this`history, this`ops, collector, collector.Entries(), sender
      ensures fresh(collector.Entries() - old(collector.Entries()))
      ensures GetsTo(reached, old(world).index, listing, tmpdir, roundsBeforeShutdown)
      ensures sender.wire == old(sender.wire) + S.Transmissions(AllMessages(ds), answer)
      ensures done ==> Valid() && evs == old(evs) + [Poll(listing, copies, reached)] && history == old(history) + ds
      ensures done ==> world == Turn(old(world), Poll(listing, copies, reached), tmpdir)
      ensures !done ==> SomeHangs(Scanning.Scan(old(world).index, listing, tmpdir), copies)
    {
      hide Scanning.Scan, GetsTo, Reached, Accounted, SomeHangs, PartsDefined, Turn, StateHolds, AllMessages,
           DiskAfterTurn, S.Transmissions, C.CollectWmoReports.Contents, C.CollectWmoReports.Entries;
      var saved;
      ghost var mail;
      done, saved, reached, ds, mail := LookAndPass(listing, copies, roundsBeforeShutdown, answer);
      if !done {
        return;
      }
      label Passed:
      ghost var ev := Poll(listing, copies, reached);
      ReachedNext(world, old(collector.disk), evs, ev, tmpdir, debug);
      evs, world, history, stateFile := evs + [ev], Turn(world, ev, tmpdir), history + ds, saved;
      ops := mail.ops;
      collector.Untouched@Passed();
    }

    // The program is started again: the index is what the state file holds of the files that still exist. A
    // number in it that cannot be read ends the program.
    method Start(disk: map<string, int>) returns (done: bool, ghost order: seq<string>)
      requires Valid()
      modifies this`collector, this`evs, this`world
      ensures done <==> ReadState(stateFile, disk, map[]).Loaded?
      ensures done ==> Valid() && evs == old(evs) + [Restart(order, disk)] && fresh(collector)
    {
      hide ReadState, PrintState, Reached, Accounted, StateHolds, C.CollectWmoReports.Contents,
           C.CollectWmoReports.Entries;
      order := [];
      var fist := new InStream(stateFile);
      var infoList := ReadFInfoList(fist, disk, map[]);
      if infoList.BadNumber? {
        return false, order;
      }
      LoadedFresh(stateFile, disk, map[]);
      order := OrderOf(stateFile, world.saved);
      ghost var ev := Restart(order, disk);
      ReachedNext(world, collector.disk, evs, ev, tmpdir, debug);
      SameParts(world, Turn(world, ev, tmpdir), history, MailNow(), collect, decoder);
      var restarted := new C.CollectWmoReports.FromState(tmpdir, debug, infoList.index, collector.disk);
      label Loaded:
      collector, evs, world := restarted, evs + [ev], Turn(world, ev, tmpdir);
      collector.Untouched@Loaded();
      done := true;
    }

    // The saved messages are sent again.
    method Resend(fileList: seq<S.Turn>, test: bool)
      requires Valid()
      modifies this`ops, sender
      ensures Valid() && MailNow() == MailResent(old(MailNow()), fileList, test)
      ensures !test && Settling(old(sender.files), fileList) ==> sender.files == map[] && NoneWaits(sender.box)
    {
      hide Reached, AllSent, PartsOf, HandedSoFar, AllMessages, MailInOrder, StateHolds, S.Resent, S.SentInPass,
           S.PassOps, Settling, NoneWaits, C.CollectWmoReports.Contents, C.CollectWmoReports.Entries;
      ResendingKeepsOrder(MailNow(), fileList, test);
      if !test && Settling(sender.files, fileList) {
        SettledByPass(MailNow(), fileList);
      }
      ops := ops + S.PassOps(sender.box, fileList, test);
      sender.TryToSendSavedObservations(fileList, test);
      collector.Untouched();
    }

    // Three looks in which a file is listed with one time and all goes well collect it, exactly unless an
    // earlier copy is left over that cannot be read; and a file that was not known is delivered as a whole.
    method ThreeLooks(name: string, mtime: int, input1: Input, input2: Input, input3: Input) returns (done: bool)
      requires Valid() && GoodLook(input1, tmpdir, name, mtime) && GoodLook(input2, tmpdir, name, mtime)
      requires GoodLook(input3, tmpdir, name, mtime)
      modifies this`stateFile, this`evs, this`world, this`history, this`ops, collector, collector.Entries(), sender
      ensures done ==> Valid() && name in collector.fileInfoList
      ensures done ==> (collector.fileInfoList[name].collected <==>
        CollectedInThree(Get(old(world).index, name), mtime, input1.copies, input2.copies, input3.copies))
      ensures done && name !in old(world).index ==>
        PartsOf(history, name) == OneMore(PartsOf(old(history), name), ContentOf(input3, tmpdir, name))
      ensures !done ==> SomeCopyHangs(input1.copies) || SomeCopyHangs(input2.copies) || SomeCopyHangs(input3.copies)
    {
      hide Reached, Accounted, StateHolds, PartsDefined, AllDefined, SomeHangs, SomeCopyHangs, Scanning.Scan,
           GetsTo, Turn, CollectedInThree, CopyName, GoodRound, O.ApplyAll, S.SendOps, S.Transmissions, AllMessages,
           C.CollectWmoReports.Contents, C.CollectWmoReports.Entries;
      ghost var w, evs0 := world, evs;
      Start3(w, collector.disk, evs, history, MailNow(), tmpdir, debug, collect, decoder, name);
      ghost var reached1, reached2, reached3, ds;
      PartsAllDefined(Scanning.Scan(w.index, input1.listing, tmpdir), input1.copies);
      done, reached1, ds := Look(input1.listing, input1.copies, input1.rounds, input1.answer);
      if !done {
        HangsInCopy(Scanning.Scan(w.index, input1.listing, tmpdir), input1.copies);
        return;
      }
      GoodLookReaches(input1, w, tmpdir, name, mtime, reached1);
      ghost var w1 := world;
      PartsAllDefined(Scanning.Scan(w1.index, input2.listing, tmpdir), input2.copies);
      done, reached2, ds := Look(input2.listing, input2.copies, input2.rounds, input2.answer);
      if !done {
        HangsInCopy(Scanning.Scan(w1.index, input2.listing, tmpdir), input2.copies);
        return;
      }
      GoodLookReaches(input2, w1, tmpdir, name, mtime, reached2);
      ghost var w2 := world;
      PartsAllDefined(Scanning.Scan(w2.index, input3.listing, tmpdir), input3.copies);
      done, reached3, ds := Look(input3.listing, input3.copies, input3.rounds, input3.answer);
      if !done {
        HangsInCopy(Scanning.Scan(w2.index, input3.listing, tmpdir), input3.copies);
        return;
      }
      GoodLookReaches(input3, w2, tmpdir, name, mtime, reached3);
      ThreeTurns(w, evs0, Poll(input1.listing, input1.copies, reached1), Poll(input2.listing, input2.copies, reached2),
                 Poll(input3.listing, input3.copies, reached3), tmpdir, name, mtime);
      Start3(world, collector.disk, evs, history, MailNow(), tmpdir, debug, collect, decoder, name);
      collector.ContentsAt(name);
    }

    // At any time: if the file only grows, is remembered whenever it is read on in, and is read where decoding
    // ends idle, then what was delivered of it under an identifier is, in order, exactly what one reading of
    // its last content lists under that. What was delivered of all files is, message by message and in order,
    // what went over the wire for the first time; and every message is in exactly one place.
    lemma Delivered(kind: WmoRaport, name: string, id: string)
      requires Valid() && kind in {SYNOP, METAR} && IdentOf(kind, id)
      requires GrowingRun(EMPTY, evs, tmpdir, name, [])
      requires ReadsRemembered(EMPTY, evs, tmpdir, name, [], NO_MEMORY) && ReadsIdle(EMPTY, evs, tmpdir, name, [])
      ensures Under(Flat(MessagesOf(history, name)), id) ==
              ToSend(kind, Outcome(EMPTY, evs, tmpdir, name, []).1, collect, decoder(kind), id)
      ensures |sender.box.log| == |sender.wire| && S.FirstOnWire(sender.box.log, sender.wire) == AllMessages(history)
      ensures O.Conserved(sender.box)
    {
      hide GrowingRun, ReadsRemembered, ReadsIdle, Outcome, Under, AllSent, PartsOf, HandedSoFar, AllMessages,
           S.InLog, S.OnWire, O.FilesKept, O.LogKept, O.FirstSent, O.IdsIn, O.ApplyAll, S.FirstOnWire,
           StateHolds, IdentOf, C.CollectWmoReports.Contents, C.CollectWmoReports.Entries;
      OutcomeIsAfter(EMPTY, evs, tmpdir, name, []);
      SentIsBatch(kind, evs, tmpdir, name, history, collect, decoder, id);
      S.FirstOnWireIs(sender.box.log, sender.wire);
    }

    // If moreover copies keep apart, that last content is one this file itself was listed with.
    lemma OwnContent(name: string, dir: string)
      requires Valid() && GrowingRun(EMPTY, evs, tmpdir, name, [])
      requires OrderlyRun(EMPTY, map[], evs, dir, tmpdir, debug)
      ensures var last := Outcome(EMPTY, evs, tmpdir, name, []).1; last == [] || Showed(evs, name, last)
    {
      hide *;
      OutcomeIsAfter(EMPTY, evs, tmpdir, name, []);
      OwnContentRead(evs, dir, tmpdir, debug, name);
    }

    // A message that operation k of the sender was about is lost exactly if it had to be saved then and could
    // not be.
    lemma LostByItsOwnWrite(k: nat)
      requires Valid() && k < |ops| && ops[k].Send?
      ensures var id := O.SendCount(ops[..k]);
        id in sender.box.fate &&
        (sender.box.fate[id] == O.Lost <==> O.WriteFails(O.ApplyAll(O.EMPTY, ops[..k]), ops[k]))
    {
      hide AllSent, PartsOf, HandedSoFar, AllMessages, O.Conserved, StateHolds, O.WriteFails, O.SendCount, O.ApplyAll,
           C.CollectWmoReports.Contents, C.CollectWmoReports.Entries;
      O.LostExactly(ops, k);
    }

    // While there is room on the disk no message is ever lost.
    lemma NothingLost()
      requires Valid() && R.RoomThroughout(ops)
      ensures !O.AnyLost(sender.box)
    {
      hide *;
      BoxIs();
      R.NoneLost(ops);
    }

    lemma BoxIs()
      requires Valid()
      ensures sender.box == O.ApplyAll(O.EMPTY, ops)
    {
      hide AllSent, PartsOf, HandedSoFar, AllMessages, O.Conserved, StateHolds, O.ApplyAll, Reached,
           C.CollectWmoReports.Contents, C.CollectWmoReports.Entries;
    }
  }

  lemma FarAs(reached: set<string>, index: Index, keys: set<string>, rounds: nat)
    requires index.Keys == keys && reached <= keys
    requires if |keys| <= rounds then reached == keys else |reached| == rounds
    ensures AsFarAs(reached, index, rounds)
  {
  }

  // What the invariant says of one file.
  lemma Start3(w: World, disk: Disk, evs: seq<Event>, history: seq<Delivery>, mail: Mail, tmpdir: string, debug: bool,
               collect: set<WmoRaport>, decoder: WmoRaport -> string, name: string)
    requires Reached(w, disk, evs, tmpdir, debug) && Accounted(w, history, mail, collect, decoder)
    ensures PossibleRun(EMPTY, evs, tmpdir) && w == After(EMPTY, evs, tmpdir)
    ensures PartsOf(history, name) == HandedSoFar(w, name)
  {
    hide MailInOrder, AllSent;
  }

  lemma {:induction false} NamesBound(listing: seq<Listed>)
    ensures |Names(listing)| <= |listing|
    decreases |listing|
  {
    if listing == [] {
      assert Names(listing) == {};
    } else {
      var init, last := listing[..|listing| - 1], listing[|listing| - 1];
      NamesBound(init);
      assert Names(listing) == Names(init) + {last.name};
    }
  }

  lemma {:induction false} SubsetSize(a: set<string>, b: set<string>)
    requires a <= b
    ensures |a| <= |b|
    decreases |a|
  {
    if a != {} {
      var x :| x in a;
      SubsetSize(a - {x}, b - {x});
    }
  }

  lemma GoodLookReaches(input: Input, w: World, tmpdir: string, name: string, mtime: int, reached: set<string>)
    requires GoodLook(input, tmpdir, name, mtime)
    requires GetsTo(reached, w.index, input.listing, tmpdir, input.rounds)
    ensures GoodTurn(Poll(input.listing, input.copies, reached), tmpdir, name, mtime)
  {
    hide Scanning.Scan, AllDefined, Visit;
    var l := Find(input.listing, name).value;
    var index := Scanning.Scan(w.index, input.listing, tmpdir);
    ScanEach(w.index, input.listing, tmpdir, l);
    GoodVisit(Get(w.index, name), l, input.copies, tmpdir);
    ScannedNames(w.index, input.listing, tmpdir);
    SubsetSize(index.Keys, Names(input.listing));
    NamesBound(input.listing);
  }

  lemma ScannedNames(index: Index, listing: seq<Listed>, tmpdir: string)
    requires listing != [] && Distinct(listing)
    ensures Scanning.Scan(index, listing, tmpdir).Keys <= Names(listing)
  {
    hide Scanning.Scan;
    forall name | name in Scanning.Scan(index, listing, tmpdir)
      ensures name in Names(listing)
    {
      if name !in Names(listing) {
        NotListed(index, listing, tmpdir, name);
      }
    }
  }

  lemma GoodVisit(e: Option<Entry>, l: Listed, copies: Copies, tmpdir: string)
    requires GoodRound(l, copies, tmpdir)
    ensures Visit(e, l, tmpdir).Some?
  {
  }

  lemma ThreeTurns(w: World, evs: seq<Event>, ev1: Event, ev2: Event, ev3: Event, tmpdir: string, name: string,
                   mtime: int)
    requires PossibleRun(EMPTY, evs, tmpdir) && w == After(EMPTY, evs, tmpdir)
    requires GoodTurn(ev1, tmpdir, name, mtime) && GoodTurn(ev2, tmpdir, name, mtime)
    requires GoodTurn(ev3, tmpdir, name, mtime)
    ensures var w3 := Turn(Turn(Turn(w, ev1, tmpdir), ev2, tmpdir), ev3, tmpdir);
      && name in w3.index
      && (w3.index[name].collected <==>
            CollectedInThree(Get(w.index, name), mtime, ev1.copies, ev2.copies, ev3.copies))
      && (name !in w.index ==>
            HandedSoFar(w3, name) ==
            OneMore(HandedSoFar(w, name), ev3.copies.contents[CopyName(tmpdir, Find(ev3.listing, name).value)]))
  {
    hide Turn, After, CollectedInThree, CopyName, GoodRound;
    CollectedByThird(evs, ev1, ev2, ev3, tmpdir, name, mtime);
    if name !in w.index {
      NewFileHanded(w, ev1, ev2, ev3, tmpdir, name, mtime);
    }
  }

  lemma OrderOf(text: string, saved: Index) returns (order: seq<string>)
    requires StateHolds(text, saved)
    ensures Enumerates(order, saved.Keys) && text == PrintState(order, saved)
  {
    order :| Enumerates(order, saved.Keys) && text == PrintState(order, saved);
  }

  lemma StateSaved(text: string, index: Index)
    requires exists order :: Enumerates(order, index.Keys) && text == PrintState(order, index)
    ensures StateHolds(text, index)
  {
    hide Enumerates, PrintState;
  }

  ghost predicate Reached(w: World, disk: Disk, evs: seq<Event>, tmpdir: string, debug: bool) {
    && PossibleRun(EMPTY, evs, tmpdir) && w == After(EMPTY, evs, tmpdir)
    && disk == DiskAfterRun(map[], EMPTY, evs, tmpdir, debug)
  }

  lemma ReachedNext(w: World, disk: Disk, evs: seq<Event>, ev: Event, tmpdir: string, debug: bool)
    requires Reached(w, disk, evs, tmpdir, debug) && Possible(w, ev)
    ensures Reached(Turn(w, ev, tmpdir), DiskAfterTurn(disk, w, ev, tmpdir, debug), evs + [ev], tmpdir, debug)
  {
    hide Turn, Possible, DiskAfterTurn;
    AfterNext(EMPTY, evs, ev, tmpdir);
    DiskAfterNext(map[], EMPTY, evs, ev, tmpdir, debug);
  }

  lemma StartSending(box: O.Box, answer: nat -> S.Answer)
    ensures AllMessages([]) == [] && O.ApplyAll(box, S.SendOps([], answer)) == box && S.Transmissions([], answer) == []
    ensures forall name :: PartsOf([], name) == [] && PartsFor([], name) == []
  {
    S.NothingSent(box, answer);
  }

  lemma TransmittedLength(ms: seq<O.Message>, answer: nat -> S.Answer)
    ensures |S.Transmissions(ms, answer)| == |ms|
  {
  }

  lemma OnePartMore(ds: seq<Delivery>, d: Delivery, handed: seq<(string, Bytes)>, k: nat)
    requires k < |handed| && d.file == handed[k].0 && d.part == handed[k].1
    requires forall name :: PartsOf(ds, name) == PartsFor(handed[..k], name)
    ensures forall name :: PartsOf(ds + [d], name) == PartsFor(handed[..k + 1], name)
    ensures AllMessages(ds + [d]) == AllMessages(ds) + d.messages
  {
    hide PartsOf, PartsFor, AllMessages;
    assert handed[..k + 1] == handed[..k] + [handed[k]];
    forall name
      ensures PartsOf(ds + [d], name) == PartsFor(handed[..k + 1], name)
    {
      HistoryNext(ds, d, name);
      PartsForNext(handed[..k], handed[k], name);
    }
    HistoryNext(ds, d, "");
  }

  // The parts of a pass are those of entries of the index.
  lemma PartsOfPass(order: seq<string>, done: set<string>, index: Index, copies: Copies, handed: seq<(string, Bytes)>)
    requires Enumerates(order, done) && done <= index.Keys && handed == C.PassParts(order, index, copies)
    ensures PartsDefined(index, copies) ==> forall k | 0 <= k < |handed| :: Defined(START, TextOf(handed[k].1))
    ensures (exists k :: 0 <= k < |handed| && DecodeOf(handed[k].1).hangs) ==> SomeHangs(index, copies)
  {
    hide HandedPart, DecodeOf, Defined, TextOf;
    EachPart(order, index, copies);
    assert forall k | 0 <= k < |handed| :: handed[k] in handed;
  }

  lemma {:induction false} EachPart(order: seq<string>, index: Index, copies: Copies)
    requires forall n | n in order :: n in index
    ensures forall x | x in C.PassParts(order, index, copies) :: x.0 in index && x.1 == HandedPart(index[x.0], copies)
    decreases |order|
  {
    hide HandedPart;
    if order != [] {
      assert order[|order| - 1] in order && forall n | n in order[..|order| - 1] :: n in order;
      EachPart(order[..|order| - 1], index, copies);
    }
  }

  lemma SameParts(w: World, w': World, history: seq<Delivery>, mail: Mail, collect: set<WmoRaport>,
                  decoder: WmoRaport -> string)
    ensures Accounted(w.(handed := w'.handed), history, mail, collect, decoder) ==>
            Accounted(w', history, mail, collect, decoder)
  {
    hide MailInOrder, AllSent, PartsOf;
  }
}
