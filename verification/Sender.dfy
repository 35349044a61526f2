/** The class that sends reports to kvalobs, keeps in files what could not be sent, and sends those again. */
module Sender {
  import opened Outbox

  // ----- What is sent of some lists of reports -----

  // The reports listed under one key of a report map.
  datatype Group = Group(what: string, decoderExtra: string, addWhatInFront: bool, msgs: seq<string>)

  // One report map, and the decoder configured for its kind of report ("" for none).
  datatype Listing = Listing(decoder: string, groups: seq<Group>)

  function DecoderName(decoder: string, g: Group): string {
    if g.decoderExtra != "" then decoder + "/" + g.decoderExtra else decoder
  }

  function TextToSend(g: Group, msg: string): string {
    if g.addWhatInFront then g.what + " \n" + msg else msg
  }

  function OfGroup(decoder: string, g: Group, msgs: seq<string>): seq<Message> {
    seq(|msgs|, i requires 0 <= i < |msgs| => Message(DecoderName(decoder, g), TextToSend(g, msgs[i])))
  }

  function OfGroups(decoder: string, groups: seq<Group>): seq<Message> {
    if groups == [] then [] else
      var g := groups[|groups| - 1];
      OfGroups(decoder, groups[..|groups| - 1]) + OfGroup(decoder, g, g.msgs)
  }

  // The messages of some listings: none for a kind of report without a decoder.
  function Outgoing(listings: seq<Listing>): seq<Message> {
    if listings == [] then [] else
      var l := listings[|listings| - 1];
      Outgoing(listings[..|listings| - 1]) + if l.decoder == "" then [] else OfGroups(l.decoder, l.groups)
  }

  // What kvalobs and the disk answer to a transmission.
  datatype Answer = Answer(reply: Reply, disk: Disk)

  // A message on its way to kvalobs, and the answer.
  datatype Transmission = Transmission(message: Message, reply: Reply)

  // What a log shows of each transmission, and what the transmissions show.
  ghost function InLog(log: seq<Sent>): seq<(Message, Verdict)> {
    seq(|log|, i requires 0 <= i < |log| => (log[i].message, log[i].verdict))
  }

  ghost function OnWire(wire: seq<Transmission>): seq<(Message, Verdict)> {
    seq(|wire|, i requires 0 <= i < |wire| => (wire[i].message, Judge(wire[i].reply)))
  }

  lemma WireAppend(a: seq<Transmission>, b: seq<Transmission>)
    ensures OnWire(a + b) == OnWire(a) + OnWire(b)
  {
    hide Judge;
  }

  // What went over the wire for the first time, the log telling which transmissions those are.
  ghost function FirstOnWire(log: seq<Sent>, wire: seq<Transmission>): seq<Message>
    requires |log| == |wire|
    decreases |log|
  {
    if log == [] then [] else
      var n := |log| - 1;
      FirstOnWire(log[..n], wire[..n]) + if log[n].id in IdsIn(log[..n]) then [] else [wire[n].message]
  }

  lemma {:induction false} FirstOnWireIs(log: seq<Sent>, wire: seq<Transmission>)
    requires InLog(log) == OnWire(wire)
    ensures |log| == |wire| && FirstOnWire(log, wire) == FirstSent(log)
    decreases |log|
  {
    hide Judge, IdsIn;
    assert |InLog(log)| == |OnWire(wire)|;
    if log != [] {
      var n := |log| - 1;
      assert InLog(log)[n] == OnWire(wire)[n];
      assert InLog(log[..n]) == InLog(log)[..n] && OnWire(wire[..n]) == OnWire(wire)[..n];
      FirstOnWireIs(log[..n], wire[..n]);
    }
  }

  ghost function Transmissions(ms: seq<Message>, answer: nat -> Answer): seq<Transmission> {
    seq(|ms|, i requires 0 <= i < |ms| => Transmission(ms[i], answer(i).reply))
  }

  ghost function SendOps(ms: seq<Message>, answer: nat -> Answer): seq<Op> {
    seq(|ms|, i requires 0 <= i < |ms| => Send(ms[i], answer(i).reply, answer(i).disk))
  }

  lemma SendOpsNext(box: Box, ms: seq<Message>, m: Message, answer: nat -> Answer)
    ensures ApplyAll(box, SendOps(ms + [m], answer)) ==
      SendNew(ApplyAll(box, SendOps(ms, answer)), m, answer(|ms|).reply, answer(|ms|).disk)
  {
    hide SendNew;
    var ops := SendOps(ms + [m], answer);
    assert ops[..|ops| - 1] == SendOps(ms, answer);
  }

  // Every message of every listing enters the accounts, in order, and the log shows what was transmitted.
  lemma {:induction false} AllEntered(box: Box, ms: seq<Message>, answer: nat -> Answer)
    ensures var after := ApplyAll(box, SendOps(ms, answer));
      after.texts == box.texts + ms && InLog(after.log) == InLog(box.log) + OnWire(Transmissions(ms, answer))
    decreases |ms|
  {
    hide Judge, ApplyAll, SendOps;
    if ms == [] {
      NothingSent(box, answer);
    } else {
      var m := ms[|ms| - 1];
      AllEntered(box, ms[..|ms| - 1], answer);
      SendOpsNext(box, ms[..|ms| - 1], m, answer);
      assert ms == ms[..|ms| - 1] + [m];
      OneEntered(ApplyAll(box, SendOps(ms[..|ms| - 1], answer)), ms[..|ms| - 1], m, answer);
    }
  }

  lemma OneEntered(box: Box, ms: seq<Message>, m: Message, answer: nat -> Answer)
    ensures var reply := answer(|ms|).reply;
      InLog(SendNew(box, m, reply, answer(|ms|).disk).log) == InLog(box.log) + [(m, Judge(reply))] &&
      OnWire(Transmissions(ms + [m], answer)) == OnWire(Transmissions(ms, answer)) + [(m, Judge(reply))]
  {
    hide Judge, NameToWrite;
  }

  lemma {:induction false} SendingConserves(box: Box, ms: seq<Message>, answer: nat -> Answer)
    requires Conserved(box) && forall m | m in ms :: Parsable(m)
    ensures Conserved(ApplyAll(box, SendOps(ms, answer)))
    decreases |ms|
  {
    hide Conserved, SendNew;
    if ms == [] {
      assert SendOps(ms, answer) == [];
    } else {
      var m := ms[|ms| - 1];
      SendingConserves(box, ms[..|ms| - 1], answer);
      SendNewConserves(ApplyAll(box, SendOps(ms[..|ms| - 1], answer)), m,
                       answer(|ms| - 1).reply, answer(|ms| - 1).disk);
      SendOpsNext(box, ms[..|ms| - 1], m, answer);
      assert ms == ms[..|ms| - 1] + [m];
    }
  }

  // ----- One pass over the saved files -----

  // A file of the listing: whether it can be read, what kvalobs would answer, and whether the program is
  // asked to stop before its turn.
  datatype Turn = Turn(file: string, readable: bool, reply: Reply, shutdown: bool)

  // Whether a file holds a message.
  predicate Sendable(files: map<string, string>, t: Turn) {
    t.readable && t.file in files && ParseSaved(files[t.file]).Some?
  }

  // The pass ends with a file.
  predicate Stops(files: map<string, string>, t: Turn, test: bool) {
    Sendable(files, t) && (test || t.reply == UNREACHABLE)
  }

  // A file is removed if it holds no message or its message is accepted or refused.
  predicate Removes(files: map<string, string>, t: Turn, test: bool) {
    t.readable && t.file in files && (ParseSaved(files[t.file]).None? || (!test && Judge(t.reply) != Later))
  }

  ghost function AfterTurn(box: Box, t: Turn, test: bool): Box {
    if !t.readable || (test && Sendable(box.files, t)) then box else RetryFile(box, t.file, t.reply)
  }

  ghost function Resent(box: Box, turns: seq<Turn>, test: bool): Box
    decreases |turns|
  {
    if turns == [] || turns[0].shutdown then box
    else if Stops(box.files, turns[0], test) then AfterTurn(box, turns[0], test)
    else Resent(AfterTurn(box, turns[0], test), turns[1..], test)
  }

  // A pass as operations of the accounts.
  ghost function TurnOps(box: Box, t: Turn, test: bool): seq<Op> {
    if !t.readable || (test && Sendable(box.files, t)) then [] else [Resend(t.file, t.reply)]
  }

  ghost function PassOps(box: Box, turns: seq<Turn>, test: bool): seq<Op>
    decreases |turns|
  {
    if turns == [] || turns[0].shutdown then []
    else
      TurnOps(box, turns[0], test) +
      if Stops(box.files, turns[0], test) then [] else PassOps(AfterTurn(box, turns[0], test), turns[1..], test)
  }

  lemma {:induction false} ApplyOn(box: Box, a: seq<Op>, b: seq<Op>)
    ensures ApplyAll(box, a + b) == ApplyAll(ApplyAll(box, a), b)
    decreases |b|
  {
    hide Apply;
    if b == [] {
      assert a + b == a;
    } else {
      assert (a + b)[..|a + b| - 1] == a + b[..|b| - 1];
      ApplyOn(box, a, b[..|b| - 1]);
    }
  }

  lemma TurnIsOps(box: Box, t: Turn, test: bool)
    ensures AfterTurn(box, t, test) == ApplyAll(box, TurnOps(box, t, test))
  {
    hide RetryFile, Sendable;
    assert [Resend(t.file, t.reply)][..0] == [];
  }

  lemma {:induction false} PassIsOps(box: Box, turns: seq<Turn>, test: bool)
    ensures Resent(box, turns, test) == ApplyAll(box, PassOps(box, turns, test))
    decreases |turns|
  {
    hide AfterTurn, TurnOps, Stops, ApplyAll;
    if turns == [] || turns[0].shutdown {
      NoOps(box);
    } else {
      var ops, box' := TurnOps(box, turns[0], test), AfterTurn(box, turns[0], test);
      TurnIsOps(box, turns[0], test);
      if Stops(box.files, turns[0], test) {
        assert ops + [] == ops;
      } else {
        PassIsOps(box', turns[1..], test);
        ApplyOn(box, ops, PassOps(box', turns[1..], test));
      }
    }
  }

  lemma NoOps(box: Box)
    ensures ApplyAll(box, []) == box
  {
  }

  ghost function SentInTurn(box: Box, t: Turn, test: bool): seq<Transmission> {
    if Sendable(box.files, t) && !test then [Transmission(ParseSaved(box.files[t.file]).value, t.reply)] else []
  }

  ghost function SentInPass(box: Box, turns: seq<Turn>, test: bool): seq<Transmission>
    decreases |turns|
  {
    if turns == [] || turns[0].shutdown then []
    else
      SentInTurn(box, turns[0], test) +
      if Stops(box.files, turns[0], test) then [] else SentInPass(AfterTurn(box, turns[0], test), turns[1..], test)
  }

  lemma TurnLogged(box: Box, t: Turn, test: bool)
    requires Conserved(box)
    ensures Conserved(AfterTurn(box, t, test))
    ensures InLog(AfterTurn(box, t, test).log) == InLog(box.log) + OnWire(SentInTurn(box, t, test))
  {
    hide ParseSaved, Judge, Conserved;
    RetryFileConserves(box, t.file, t.reply);
    if t.file in box.files {
      HasOwner(box, t.file);
    }
  }

  lemma HasOwner(box: Box, file: string)
    requires Conserved(box) && file in box.files
    ensures OwnerOf(box, file).Some?
  {
    hide LogKept, AllTransmitted, SavedText;
    var id: nat :| IsHeld(box, id) && box.fate[id].file == file;
    assert box.fate[id] == Held(file);
  }

  // The log shows exactly what a pass transmitted.
  lemma {:induction false} PassLogged(box: Box, turns: seq<Turn>, test: bool)
    requires Conserved(box)
    ensures InLog(Resent(box, turns, test).log) == InLog(box.log) + OnWire(SentInPass(box, turns, test))
    decreases |turns|
  {
    hide Conserved, AfterTurn, SentInTurn, Stops, Judge;
    if turns != [] {
      TurnLogged(box, turns[0], test);
      PassLogged(AfterTurn(box, turns[0], test), turns[1..], test);
    }
  }

  lemma {:induction false} ResentConserves(box: Box, turns: seq<Turn>, test: bool)
    requires Conserved(box)
    ensures Conserved(Resent(box, turns, test))
    decreases |turns|
  {
    hide Conserved, RetryFile, Stops, Sendable;
    if turns != [] {
      RetryFileConserves(box, turns[0].file, turns[0].reply);
      ResentConserves(AfterTurn(box, turns[0], test), turns[1..], test);
    }
  }

  lemma TurnTexts(box: Box, t: Turn, test: bool)
    ensures AfterTurn(box, t, test).texts == box.texts
  {
    hide ParseSaved, Judge, OwnerOf;
  }

  lemma {:induction false} ResentTexts(box: Box, turns: seq<Turn>, test: bool)
    ensures Resent(box, turns, test).texts == box.texts
    decreases |turns|
  {
    hide AfterTurn, Stops;
    if turns != [] {
      TurnTexts(box, turns[0], test);
      ResentTexts(AfterTurn(box, turns[0], test), turns[1..], test);
    }
  }

  // Turn k comes up: no request to stop until then, and no file before it that ends the pass.
  ghost predicate ComesUp(files: map<string, string>, turns: seq<Turn>, k: nat, test: bool)
    requires k < |turns|
  {
    (forall j | 0 <= j <= k :: !turns[j].shutdown) && (forall j | 0 <= j < k :: !Stops(files, turns[j], test))
  }

  ghost predicate RemovedIn(files: map<string, string>, turns: seq<Turn>, k: nat, test: bool)
    requires k < |turns|
  {
    ComesUp(files, turns, k, test) && Removes(files, turns[k], test)
  }

  ghost predicate Dropped(files: map<string, string>, turns: seq<Turn>, file: string, test: bool) {
    exists k: nat :: k < |turns| && turns[k].file == file && RemovedIn(files, turns, k, test)
  }

  ghost predicate ListedOnce(turns: seq<Turn>) {
    forall i, j | 0 <= i < j < |turns| :: turns[i].file != turns[j].file
  }

  lemma TurnFiles(box: Box, t: Turn, test: bool)
    ensures AfterTurn(box, t, test).files == if Removes(box.files, t, test) then box.files - {t.file} else box.files
  {
    hide ParseSaved, Judge, OwnerOf;
  }

  lemma ShiftRemoved(files: map<string, string>, files': map<string, string>, turns: seq<Turn>, k: nat, test: bool)
    requires turns != [] && k < |turns| - 1 && ListedOnce(turns)
    requires files' == files || files' == files - {turns[0].file}
    requires !turns[0].shutdown && !Stops(files, turns[0], test)
    ensures RemovedIn(files', turns[1..], k, test) <==> RemovedIn(files, turns, k + 1, test)
  {
    hide ParseSaved, Judge;
    var rest := turns[1..];
    assert forall j | 0 <= j < |rest| :: rest[j] == turns[j + 1];
    assert forall j | 1 <= j < |turns| :: turns[j] == rest[j - 1];
    assert forall j | 0 <= j < |rest| :: Stops(files', rest[j], test) == Stops(files, turns[j + 1], test);
  }

  lemma ShiftDropped(files: map<string, string>, files': map<string, string>, turns: seq<Turn>,
                     file: string, test: bool)
    requires turns != [] && ListedOnce(turns)
    requires files' == if Removes(files, turns[0], test) then files - {turns[0].file} else files
    requires !turns[0].shutdown && !Stops(files, turns[0], test)
    ensures (file in files && !Dropped(files, turns, file, test)) <==>
            (file in files' && !Dropped(files', turns[1..], file, test))
  {
    hide Removes, Stops;
    if Dropped(files', turns[1..], file, test) {
      var k: nat :| k < |turns[1..]| && turns[1..][k].file == file && RemovedIn(files', turns[1..], k, test);
      ShiftRemoved(files, files', turns, k, test);
      assert turns[k + 1].file == file;
    }
    if Dropped(files, turns, file, test) {
      var k: nat :| k < |turns| && turns[k].file == file && RemovedIn(files, turns, k, test);
      if k > 0 {
        ShiftRemoved(files, files', turns, k - 1, test);
        assert turns[1..][k - 1].file == file;
      }
    }
    if file in files && file !in files' {
      assert RemovedIn(files, turns, 0, test);
    }
  }

  // After a pass a saved file is still there exactly if it was there before and was not removed in a turn of
  // its own; what remains is unchanged.
  lemma {:induction false} StaysSaved(box: Box, turns: seq<Turn>, test: bool, file: string)
    requires ListedOnce(turns)
    ensures var after := Resent(box, turns, test).files;
      (file in after <==> file in box.files && !Dropped(box.files, turns, file, test)) &&
      (file in after ==> after[file] == box.files[file])
    decreases |turns|
  {
    hide Removes, Stops, AfterTurn;
    if turns != [] && !turns[0].shutdown {
      var box' := AfterTurn(box, turns[0], test);
      TurnFiles(box, turns[0], test);
      if Stops(box.files, turns[0], test) {
        StopsAtOnce(box.files, turns, file, test);
      } else {
        ShiftDropped(box.files, box'.files, turns, file, test);
        StaysSaved(box', turns[1..], test, file);
      }
    }
  }

  lemma StopsAtOnce(files: map<string, string>, turns: seq<Turn>, file: string, test: bool)
    requires turns != [] && !turns[0].shutdown && Stops(files, turns[0], test)
    ensures Dropped(files, turns, file, test) <==> (turns[0].file == file && Removes(files, turns[0], test))
  {
    hide Stops, Removes;
    if turns[0].file == file && Removes(files, turns[0], test) {
      assert RemovedIn(files, turns, 0, test);
    }
  }

  // When kvalobs accepts or refuses everything, a pass over all saved files leaves none.
  lemma Drained(box: Box, turns: seq<Turn>)
    requires ListedOnce(turns)
    requires forall t | t in turns :: t.readable && !t.shutdown && Judge(t.reply) != Later
    requires forall file | file in box.files :: exists k: nat :: k < |turns| && turns[k].file == file
    ensures Resent(box, turns, false).files == map[]
  {
    hide Resent, ParseSaved;
    forall file
      ensures file !in Resent(box, turns, false).files
    {
      StaysSaved(box, turns, false, file);
      if file in box.files {
        var k: nat :| k < |turns| && turns[k].file == file;
        assert RemovedIn(box.files, turns, k, false);
      }
    }
  }

  // Then no message waits any more: each was accepted or refused, or had been lost before the pass.
  lemma AllSettled(box: Box, turns: seq<Turn>)
    requires Conserved(box) && ListedOnce(turns)
    requires forall t | t in turns :: t.readable && !t.shutdown && Judge(t.reply) != Later
    requires forall file | file in box.files :: exists k: nat :: k < |turns| && turns[k].file == file
    ensures var after := Resent(box, turns, false);
      after.files == map[] && |after.texts| == |box.texts| &&
      forall id: nat | id < |box.texts| :: id in box.fate && id in after.fate &&
        after.fate[id] in {Taken, Refused, Lost} && (after.fate[id] == Lost <==> box.fate[id] == Lost)
  {
    hide Resent, Judge, ParseSaved, LogKept, AllTransmitted, PassOps;
    Drained(box, turns);
    ResentConserves(box, turns, false);
    ResentTexts(box, turns, false);
    PassKeepsLost(box, turns, false, |box.texts|);
    Numbered(box);
    Numbered(Resent(box, turns, false));
  }

  lemma TurnLosesNone(box: Box, t: Turn, test: bool, n: nat)
    requires NumberedTo(box, n)
    ensures NumberedTo(AfterTurn(box, t, test), n)
    ensures forall id: nat | id < n :: AfterTurn(box, t, test).fate[id] == Lost <==> box.fate[id] == Lost
  {
    hide RetryFile, Sendable;
    OthersStay(box, Resend(t.file, t.reply), n);
  }

  lemma {:induction false} PassKeepsLost(box: Box, turns: seq<Turn>, test: bool, n: nat)
    requires NumberedTo(box, n)
    ensures NumberedTo(Resent(box, turns, test), n)
    ensures forall id: nat | id < n :: Resent(box, turns, test).fate[id] == Lost <==> box.fate[id] == Lost
    decreases |turns|
  {
    hide AfterTurn, Stops;
    if turns != [] {
      TurnLosesNone(box, turns[0], test, n);
      PassKeepsLost(AfterTurn(box, turns[0], test), turns[1..], test, n);
    }
  }

  // ----- The class -----

  class KvSender {
    // The directory of saved messages, and all that was ever sent.
    var files: map<string, string>
    var wire: seq<Transmission>
    ghost var box: Box

    ghost predicate Valid()
      reads this
    {
      box.files == files
    }

    constructor ()
      ensures Valid() && box == EMPTY && wire == []
    {
      files, wire, box := map[], [], EMPTY;
    }

    // The verdict on a message is spread over three flags.
    method SendMessageToKvalobs(m: Message, reply: Reply) returns (ok: bool, kvServerIsUp: bool, tryToResend: bool)
      modifies `wire
      ensures wire == old(wire) + [Transmission(m, reply)]
      ensures ok <==> Judge(reply) == Accepted
      ensures tryToResend <==> Judge(reply) == Later
      ensures kvServerIsUp <==> reply != UNREACHABLE
    {
      hide UnknownStation;
      wire := wire + [Transmission(m, reply)];
      if reply == UNREACHABLE {
        return false, false, true;
      }
      ok, kvServerIsUp, tryToResend := false, true, false;
      if reply == OK {
        ok := true;
      } else if reply == NOTSAVED || reply == ERROR {
        tryToResend := true;
      } else if reply.DECODEERROR? {
        ok := UnknownStation(reply.message);
      }
    }

    method WriteFile(fname: string, content: string, disk: Disk) returns (file: string)
      modifies `files
      ensures var name := NameToWrite(old(files), fname, content, disk);
        file == (if name.Some? then name.value else "") &&
        files == if name.Some? then old(files)[name.value := content] else old(files)
    {
      hide Candidate, Creatable;
      ghost var free := FirstFree(files, fname, disk, 0);
      var i := 0;
      var open := false;
      file := "";
      while i < MAX_COUNT
        invariant 0 <= i <= MAX_COUNT && files == old(files) && !open
        invariant free == FirstFree(files, fname, disk, i)
      {
        file := Candidate(fname, disk, i);
        if file !in files && Creatable(file, disk) {
          files := files[file := ""];
          open := true;
          break;
        }
        i := i + 1;
      }
      if !open {
        return "";
      }
      if disk.full || content == "" {
        files := files - {file};
        file := "";
      } else {
        files := files[file := content];
      }
    }

    // One report: sent, and saved if it is to be sent again.
    method SendOne(m: Message, answer: Answer)
      requires Valid()
      modifies this
      ensures Valid() && box == SendNew(old(box), m, answer.reply, answer.disk)
      ensures wire == old(wire) + [Transmission(m, answer.reply)]
    {
      hide NameToWrite, Judge;
      var ok, up, again := SendMessageToKvalobs(m, answer.reply);
      if !ok && again {
        var fname := WriteFile(SavedPrefix(m), SavedText(m), answer.disk);
      }
      box := SendNew(box, m, answer.reply, answer.disk);
    }

    // Every report of every kind that has a decoder is sent, in order.
    method SendWMORaport(listings: seq<Listing>, answer: nat -> Answer)
      requires Valid()
      modifies this
      ensures Valid() && box == ApplyAll(old(box), SendOps(Outgoing(listings), answer))
      ensures wire == old(wire) + Transmissions(Outgoing(listings), answer)
    {
      hide SendNew, TextToSend, DecoderName, ApplyAll, SendOps, OfGroup;
      ghost var sent: seq<Message> := [];
      var n := 0;
      NothingSent(box, answer);
      for k := 0 to |listings|
        invariant Valid() && sent == Outgoing(listings[..k]) && n == |sent|
        invariant box == ApplyAll(old(box), SendOps(sent, answer)) && wire == old(wire) + Transmissions(sent, answer)
      {
        var l := listings[k];
        assert listings[..k + 1][..k] == listings[..k];
        if l.decoder != "" {
          for j := 0 to |l.groups|
            invariant Valid() && sent == Outgoing(listings[..k]) + OfGroups(l.decoder, l.groups[..j]) && n == |sent|
            invariant box == ApplyAll(old(box), SendOps(sent, answer))
            invariant wire == old(wire) + Transmissions(sent, answer)
          {
            var g := l.groups[j];
            assert l.groups[..j + 1][..j] == l.groups[..j];
            ghost var before := sent;
            n := SendGroup(l.decoder, g, answer, n, sent, old(box), old(wire));
            sent := before + OfGroup(l.decoder, g, g.msgs);
          }
          assert l.groups[..|l.groups|] == l.groups;
        }
      }
      assert listings[..|listings|] == listings;
    }

    // The innermost loop: the reports of one group.
    method SendGroup(decoder: string, g: Group, answer: nat -> Answer, first: nat,
                     ghost sent: seq<Message>, ghost start: Box, ghost wire0: seq<Transmission>)
      returns (n: nat)
      requires Valid() && first == |sent| && box == ApplyAll(start, SendOps(sent, answer))
      requires wire == wire0 + Transmissions(sent, answer)
      modifies this
      ensures Valid() && n == |sent + OfGroup(decoder, g, g.msgs)|
      ensures box == ApplyAll(start, SendOps(sent + OfGroup(decoder, g, g.msgs), answer))
      ensures wire == wire0 + Transmissions(sent + OfGroup(decoder, g, g.msgs), answer)
    {
      hide SendNew, TextToSend, DecoderName, ApplyAll, SendOps;
      n := first;
      assert sent + OfGroup(decoder, g, []) == sent;
      for i := 0 to |g.msgs|
        invariant Valid() && n == |sent| + i
        invariant box == ApplyAll(start, SendOps(sent + OfGroup(decoder, g, g.msgs[..i]), answer))
        invariant wire == wire0 + Transmissions(sent + OfGroup(decoder, g, g.msgs[..i]), answer)
      {
        var m := Message(DecoderName(decoder, g), TextToSend(g, g.msgs[i]));
        SendOpsNext(start, sent + OfGroup(decoder, g, g.msgs[..i]), m, answer);
        SendOne(m, answer(n));
        n := n + 1;
        assert sent + OfGroup(decoder, g, g.msgs[..i + 1]) == sent + OfGroup(decoder, g, g.msgs[..i]) + [m];
      }
      assert g.msgs[..|g.msgs|] == g.msgs;
    }

    // One saved file; whether the pass ends with it.
    method ResendOne(it: Turn, test: bool) returns (stop: bool)
      requires Valid()
      modifies this
      ensures Valid() && box == AfterTurn(old(box), it, test)
      ensures wire == old(wire) + SentInTurn(old(box), it, test)
      ensures stop <==> Stops(old(files), it, test)
    {
      hide ParseSaved, UnknownStation, OwnerOf;
      if !it.readable || it.file !in files {
        return false;
      }
      var message := ParseSaved(files[it.file]);
      if message.None? {
        files := files - {it.file};
        box := RetryFile(box, it.file, it.reply);
        return false;
      }
      if test {
        return true;
      }
      var ok, kvServerIsUp, tryToResend := SendMessageToKvalobs(message.value, it.reply);
      box := RetryFile(box, it.file, it.reply);
      stop := false;
      if !ok {
        if !tryToResend {
          files := files - {it.file};
        }
        if !kvServerIsUp {
          stop := true;
        }
      } else {
        files := files - {it.file};
      }
    }

    method TryToSendSavedObservations(fileList: seq<Turn>, test: bool)
      requires Valid()
      modifies this
      ensures Valid() && box == Resent(old(box), fileList, test)
      ensures wire == old(wire) + SentInPass(old(box), fileList, test)
    {
      hide AfterTurn, SentInTurn, Stops, Resent, SentInPass;
      var it := 0;
      assert fileList[0..] == fileList;
      while it < |fileList| && !fileList[it].shutdown
        invariant 0 <= it <= |fileList| && Valid()
        invariant Resent(box, fileList[it..], test) == Resent(old(box), fileList, test)
        invariant wire + SentInPass(box, fileList[it..], test) == old(wire) + SentInPass(old(box), fileList, test)
      {
        assert fileList[it..][1..] == fileList[it + 1..] && fileList[it..][0] == fileList[it];
        PassNext(box, fileList[it..], test);
        var stop := ResendOne(fileList[it], test);
        if stop {
          break;
        }
        it := it + 1;
      }
      if it == |fileList| || fileList[it].shutdown {
        PassOver(box, fileList[it..], test);
      }
    }
  }

  lemma PassOver(box: Box, turns: seq<Turn>, test: bool)
    requires turns == [] || turns[0].shutdown
    ensures Resent(box, turns, test) == box && SentInPass(box, turns, test) == []
  {
  }

  lemma PassNext(box: Box, turns: seq<Turn>, test: bool)
    requires turns != [] && !turns[0].shutdown
    ensures var t := turns[0];
      var box', sent := AfterTurn(box, t, test), SentInTurn(box, t, test);
      if Stops(box.files, t, test)
      then Resent(box, turns, test) == box' && SentInPass(box, turns, test) == sent
      else Resent(box, turns, test) == Resent(box', turns[1..], test) &&
           SentInPass(box, turns, test) == sent + SentInPass(box', turns[1..], test)
  {
    hide AfterTurn, SentInTurn, Stops;
    assert SentInTurn(box, turns[0], test) + [] == SentInTurn(box, turns[0], test);
  }

  // The answers from the n-th transmission on.
  function From(answer: nat -> Answer, n: nat): nat -> Answer {
    (i: nat) => answer(n + i)
  }

  // Sending on: first some messages, then others.
  lemma {:induction false} SentOn(box: Box, a: seq<Message>, b: seq<Message>, answer: nat -> Answer)
    ensures ApplyAll(box, SendOps(a + b, answer)) ==
            ApplyAll(ApplyAll(box, SendOps(a, answer)), SendOps(b, From(answer, |a|)))
    ensures Transmissions(a + b, answer) == Transmissions(a, answer) + Transmissions(b, From(answer, |a|))
    decreases |b|
  {
    hide ApplyAll, SendOps, SendNew;
    if b == [] {
      assert a + b == a;
      NothingSent(ApplyAll(box, SendOps(a, answer)), From(answer, |a|));
    } else {
      var init, m := b[..|b| - 1], b[|b| - 1];
      SentOn(box, a, init, answer);
      assert b == init + [m] && a + b == (a + init) + [m];
      SendOpsNext(box, a + init, m, answer);
      SendOpsNext(ApplyAll(box, SendOps(a, answer)), init, m, From(answer, |a|));
    }
  }

  lemma NothingSent(box: Box, answer: nat -> Answer)
    ensures ApplyAll(box, SendOps([], answer)) == box
  {
    assert SendOps([], answer) == [];
  }
}
