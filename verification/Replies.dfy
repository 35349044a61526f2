/** What the answers of kvalobs and the state of the disk come to for each message: who keeps it, under which
    name, for how long, and what a pass over the saved files transmits. */
module Replies {
  import opened Text
  import Streams
  import opened Persistence
  import opened Outbox
  import opened Sender

  // ----- Names to save under -----

  lemma DecimalApart(i: nat, j: nat)
    requires Decimal(i) == Decimal(j)
    ensures i == j
  {
    DecimalParsed(i);
    DecimalParsed(j);
  }

  // The ten thousand names tried for a text are ten thousand different names.
  lemma CandidatesApart(fname: string, disk: Disk, i: nat, j: nat)
    requires Candidate(fname, disk, i) == Candidate(fname, disk, j)
    ensures i == j
  {
    hide Decimal;
    var p, a, b := fname + disk.stamp, Candidate(fname, disk, i), Candidate(fname, disk, j);
    if i != 0 && j != 0 {
      assert a == p + ("_" + Decimal(i)) && b == p + ("_" + Decimal(j));
      assert a[|p| + 1..] == Decimal(i) && b[|p| + 1..] == Decimal(j);
      DecimalApart(i, j);
    }
  }

  lemma {:induction false} CandidatesMany(fname: string, disk: Disk, n: nat) returns (names: set<string>)
    ensures |names| == n && forall x | x in names :: exists i: nat :: i < n && x == Candidate(fname, disk, i)
  {
    hide Candidate;
    if n == 0 {
      names := {};
    } else {
      names := CandidatesMany(fname, disk, n - 1);
      var x := Candidate(fname, disk, n - 1);
      if x in names {
        var i: nat :| i < n - 1 && x == Candidate(fname, disk, i);
        CandidatesApart(fname, disk, i, n - 1);
      }
      names := names + {x};
    }
  }

  lemma {:induction false} OneOutside(names: set<string>, taken: set<string>) returns (x: string)
    requires |names| > |taken|
    ensures x in names && x !in taken
    decreases |names|
  {
    x :| x in names;
    if x in taken {
      x := OneOutside(names - {x}, taken - {x});
    }
  }

  lemma DigitsNoSlash(i: nat)
    ensures '/' !in Decimal(i)
  {
    DecimalParsed(i);
    assert forall c | c in Decimal(i) :: IsDigit(c);
  }

  lemma CandidateNoSlash(fname: string, disk: Disk, i: nat)
    requires '/' !in fname && '/' !in disk.stamp
    ensures '/' !in Candidate(fname, disk, i)
  {
    hide Decimal;
    DigitsNoSlash(i);
  }

  // The disk takes a text, no "/" is in its name, and fewer than ten thousand names are taken or locked.
  predicate Room(files: map<string, string>, m: Message, disk: Disk) {
    !disk.full && '/' !in m.decoder && '/' !in disk.stamp && |files.Keys + disk.locked| < 10000
  }

  // Then the message can be saved.
  lemma RoomSaves(files: map<string, string>, m: Message, disk: Disk)
    requires Room(files, m, disk)
    ensures NameToWrite(files, SavedPrefix(m), SavedText(m), disk).Some?
  {
    hide Candidate;
    var names := CandidatesMany(SavedPrefix(m), disk, MAX_COUNT);
    var x := OneOutside(names, files.Keys + disk.locked);
    var i: nat :| i < MAX_COUNT && x == Candidate(SavedPrefix(m), disk, i);
    CandidateNoSlash(SavedPrefix(m), disk, i);
    WrittenExactly(files, SavedPrefix(m), SavedText(m), disk);
  }

  // The name is that of kind, decoder and time, with the least number that makes it a free one, none being
  // written for zero.
  lemma SavedAs(files: map<string, string>, m: Message, disk: Disk)
    ensures var name := NameToWrite(files, SavedPrefix(m), SavedText(m), disk);
      name.Some? ==> exists i: nat ::
        i < 10000 && NameNumbered("kvdata_" + m.decoder + "_" + disk.stamp, i) == name.value && name.value !in files &&
        forall j: nat | j < i ::
          var x := NameNumbered("kvdata_" + m.decoder + "_" + disk.stamp, j);
          x in files || x in disk.locked || '/' in x
  {
    hide Decimal, Candidate;
    var name := NameToWrite(files, SavedPrefix(m), SavedText(m), disk);
    if name.Some? {
      var i := LeastFree(files, SavedPrefix(m), disk, 0);
      forall j: nat
        ensures NameNumbered("kvdata_" + m.decoder + "_" + disk.stamp, j) == Candidate(SavedPrefix(m), disk, j)
      {
        Numbering(m, disk, j);
      }
    }
  }

  function NameNumbered(name: string, i: nat): string {
    if i == 0 then name else name + "_" + Decimal(i)
  }

  lemma Numbering(m: Message, disk: Disk, j: nat)
    ensures NameNumbered("kvdata_" + m.decoder + "_" + disk.stamp, j) == Candidate(SavedPrefix(m), disk, j)
  {
    hide Decimal;
    var p := "kvdata_" + m.decoder + "_" + disk.stamp;
    assert p == SavedPrefix(m) + disk.stamp;
    assert p + "_" + Decimal(j) == p + ("_" + Decimal(j)) && p + "" == p;
  }

  lemma {:induction false} LeastFree(files: map<string, string>, fname: string, disk: Disk, i: nat) returns (k: nat)
    requires FirstFree(files, fname, disk, i).Some?
    ensures i <= k < MAX_COUNT && FirstFree(files, fname, disk, i) == Some(Candidate(fname, disk, k))
    ensures Candidate(fname, disk, k) !in files
    ensures forall j: nat | i <= j < k :: var x := Candidate(fname, disk, j); x in files || !Creatable(x, disk)
    decreases MAX_COUNT - i
  {
    hide Candidate, Creatable;
    if Candidate(fname, disk, i) !in files && Creatable(Candidate(fname, disk, i), disk) {
      k := i;
    } else {
      k := LeastFree(files, fname, disk, i + 1);
    }
  }

  // ----- No message is lost while there is room -----

  ghost predicate RoomThroughout(ops: seq<Op>) {
    forall k: nat | k < |ops| && ops[k].Send? :: Room(ApplyAll(EMPTY, ops[..k]).files, ops[k].m, ops[k].disk)
  }

  // Over every run: while there is room, no message is lost, whatever kvalobs answers.
  lemma {:induction false} NoneLost(ops: seq<Op>)
    requires RoomThroughout(ops)
    ensures !AnyLost(ApplyAll(EMPTY, ops))
    decreases |ops|
  {
    hide Apply, Room, WriteFails, NumberedTo, AnyLost;
    if ops == [] {
      NothingLostYet();
    } else {
      var ops', op := ops[..|ops| - 1], ops[|ops| - 1];
      forall k: nat | k < |ops'| && ops'[k].Send?
        ensures Room(ApplyAll(EMPTY, ops'[..k]).files, ops'[k].m, ops'[k].disk)
      {
        assert ops'[..k] == ops[..k] && ops'[k] == ops[k];
      }
      NoneLost(ops');
      var box, n := ApplyAll(EMPTY, ops'), SendCount(ops');
      RunNumbered(ops');
      OthersStay(box, op, n);
      if op.Send? {
        RoomSaves(box.files, op.m, op.disk);
        Saves(box, op);
        NewLost(box, op, n);
      }
      LosesNone(box, op, n);
    }
  }

  lemma Saves(box: Box, op: Op)
    requires op.Send? && NameToWrite(box.files, SavedPrefix(op.m), SavedText(op.m), op.disk).Some?
    ensures !WriteFails(box, op)
  {
  }

  lemma LosesNone(box: Box, op: Op, n: nat)
    requires NumberedTo(box, n) && NumberedTo(Apply(box, op), if op.Send? then n + 1 else n) && !AnyLost(box)
    requires forall id: nat | id < n :: Apply(box, op).fate[id] == Lost <==> box.fate[id] == Lost
    requires op.Send? ==> n in Apply(box, op).fate && Apply(box, op).fate[n] != Lost
    ensures !AnyLost(Apply(box, op))
  {
    hide Apply;
  }

  // There is room in particular while no more than ten thousand messages have been sent.
  predicate EasyDisk(op: Op) {
    op.Send? ==> !op.disk.full && '/' !in op.m.decoder && '/' !in op.disk.stamp && op.disk.locked == {}
  }

  lemma SendSaves(box: Box, m: Message, reply: Reply, disk: Disk)
    ensures |SendNew(box, m, reply, disk).files| <= |box.files| + 1
  {
    hide Judge, NameToWrite, SavedText, SavedPrefix;
    var files := SendNew(box, m, reply, disk).files;
    var name := NameToWrite(box.files, SavedPrefix(m), SavedText(m), disk);
    if files != box.files {
      assert files.Keys == box.files.Keys + {name.value} && |files| == |files.Keys|;
    }
  }

  lemma TurnSaves(box: Box, op: Op)
    ensures |Apply(box, op).files| <= |box.files| + if op.Send? then 1 else 0
  {
    hide Judge, SendNew, ParseSaved, OwnerOf;
    match op
    case Send(m, reply, disk) =>
      SendSaves(box, m, reply, disk);
    case Resend(file, reply) =>
      SubsetSize(Apply(box, op).files.Keys, box.files.Keys);
  }

  lemma {:induction false} SubsetSize(a: set<string>, b: set<string>)
    requires a <= b
    ensures |a| <= |b|
    decreases |a|
  {
    if a != {} {
      var x :| x in a;
      SubsetSize(a - {x}, b - {x});
    }
  }

  lemma {:induction false} FilesCounted(ops: seq<Op>)
    ensures |ApplyAll(EMPTY, ops).files| <= SendCount(ops)
    decreases |ops|
  {
    hide Apply;
    if ops != [] {
      FilesCounted(ops[..|ops| - 1]);
      TurnSaves(ApplyAll(EMPTY, ops[..|ops| - 1]), ops[|ops| - 1]);
    }
  }

  lemma {:induction false} CountGrows(ops: seq<Op>, k: nat)
    requires k < |ops|
    ensures SendCount(ops[..k]) + (if ops[k].Send? then 1 else 0) <= SendCount(ops)
    decreases |ops|
  {
    var ops' := ops[..|ops| - 1];
    if k < |ops'| {
      assert ops'[..k] == ops[..k] && ops'[k] == ops[k];
      CountGrows(ops', k);
    } else {
      assert ops[..k] == ops';
    }
  }

  lemma FewNotLost(ops: seq<Op>)
    requires forall op | op in ops :: EasyDisk(op)
    requires SendCount(ops) <= 10000
    ensures !AnyLost(ApplyAll(EMPTY, ops))
  {
    hide ApplyAll, AnyLost, SendCount;
    forall k: nat | k < |ops| && ops[k].Send?
      ensures Room(ApplyAll(EMPTY, ops[..k]).files, ops[k].m, ops[k].disk)
    {
      assert ops[k] in ops;
      FilesCounted(ops[..k]);
      CountGrows(ops, k);
      var files := ApplyAll(EMPTY, ops[..k]).files;
      assert files.Keys + ops[k].disk.locked == files.Keys;
    }
    NoneLost(ops);
  }

  // ----- What each answer means -----

  ghost predicate Mentions(message: string, words: string) {
    exists before, after :: message == before + words + after
  }

  lemma ContainsExactly(message: string, words: string)
    ensures Contains(message, words) <==> Mentions(message, words)
  {
    if i: nat :| i <= |message| && FoundAt(message, words, i) {
      assert message == message[..i] + words + message[i + |words|..];
    }
    if before, after :| message == before + words + after {
      assert FoundAt(message, words, |before|);
    }
  }

  // The answers after which a message is taken, and after which it is kept to be sent again.
  ghost predicate Takes(reply: Reply) {
    || reply == OK
    || (reply.DECODEERROR? && (Mentions(reply.message, "unknown station/position") ||
                               Mentions(reply.message, "Missing or unknown stationid!")))
  }

  predicate Keeps(reply: Reply) {
    reply == NOTSAVED || reply == ERROR || reply == UNREACHABLE
  }

  lemma VerdictIs(reply: Reply)
    ensures Judge(reply) == Accepted <==> Takes(reply)
    ensures Judge(reply) == Later <==> Keeps(reply)
  {
    hide Contains, Mentions;
    if reply.DECODEERROR? {
      ContainsExactly(reply.message, "unknown station/position");
      ContainsExactly(reply.message, "Missing or unknown stationid!");
    }
  }

  // A new message is taken, kept if there is a name to save it under, or refused, by its answer.
  lemma FateByReply(box: Box, m: Message, reply: Reply, disk: Disk)
    ensures var after, id := SendNew(box, m, reply, disk), |box.texts|;
      var name := NameToWrite(box.files, SavedPrefix(m), SavedText(m), disk);
      && id in after.fate
      && after.fate[id] == (if Takes(reply) then Taken
                            else if !Keeps(reply) then Refused
                            else if name.Some? then Held(name.value) else Lost)
      && after.files == if Keeps(reply) && name.Some? then box.files[name.value := m.decoder + "\n" + m.text + "\n"]
                        else box.files
  {
    hide Judge, NameToWrite, SavedPrefix, Takes;
    VerdictIs(reply);
  }

  // ----- How long a message is kept -----

  // The files of others are left alone, and so is a message's own file until it is taken or refused.
  lemma HeldOn(box: Box, op: Op, id: nat, file: string)
    requires Conserved(box) && id in box.fate && box.fate[id] == Held(file)
    ensures var after := Apply(box, op);
      id in after.fate &&
      (after.fate[id] == Held(file) <==> !(op.Resend? && op.file == file && !Keeps(op.reply))) &&
      (after.fate[id] != Held(file) ==> after.fate[id] == Taken || after.fate[id] == Refused)
  {
    hide Judge, NameToWrite, SavedText, SavedPrefix, ParseSaved, LogKept, AllTransmitted, Takes;
    Numbered(box);
    if op.Resend? {
      VerdictIs(op.reply);
      if op.file == file {
        RetryConserves(box, id, file, op.reply);
        OwnOwner(box, id, file);
      }
    }
  }

  lemma OwnOwner(box: Box, id: nat, file: string)
    requires Conserved(box) && id in box.fate && box.fate[id] == Held(file)
    ensures OwnerOf(box, file) == Some(id)
  {
    hide SavedText, LogKept, AllTransmitted, HeldWritten;
    var owner := OwnerOf(box, file);
    assert IsHeld(box, id) && IsHeld(box, owner.value);
  }

  lemma SettledStays(box: Box, op: Op, id: nat)
    requires Conserved(box) && id in box.fate && (box.fate[id] == Taken || box.fate[id] == Refused)
    ensures var after := Apply(box, op); id in after.fate && after.fate[id] == box.fate[id]
  {
    hide Judge, NameToWrite, SavedText, SavedPrefix, ParseSaved, LogKept, AllTransmitted;
    Numbered(box);
  }

  // Whether some operation from the k-th on sends a file again and gets an answer that settles it.
  predicate SettledSince(ops: seq<Op>, k: nat, file: string) {
    exists j: nat :: k <= j < |ops| && ops[j].Resend? && ops[j].file == file && !Keeps(ops[j].reply)
  }

  lemma {:induction false} KeptSince(ops: seq<Op>, k: nat, id: nat, file: string)
    requires k <= |ops| && forall op | op in ops && op.Send? :: Parsable(op.m)
    requires var box := ApplyAll(EMPTY, ops[..k]); id in box.fate && box.fate[id] == Held(file)
    ensures var after := ApplyAll(EMPTY, ops);
      && id in after.fate
      && (after.fate[id] == Held(file) <==> !SettledSince(ops, k, file))
      && (after.fate[id] != Held(file) ==> after.fate[id] == Taken || after.fate[id] == Refused)
    decreases |ops|
  {
    hide Apply, Keeps, Conserved;
    if k == |ops| {
      assert ops[..k] == ops;
    } else {
      var ops', op := ops[..|ops| - 1], ops[|ops| - 1];
      forall o | o in ops'
        ensures o in ops
      {
      }
      assert ops'[..k] == ops[..k];
      KeptSince(ops', k, id, file);
      MessagesConserved(ops');
      var box := ApplyAll(EMPTY, ops');
      SettledNext(ops, k, file);
      if box.fate[id] == Held(file) {
        HeldOn(box, op, id, file);
      } else {
        SettledStays(box, op, id);
      }
    }
  }

  lemma SettledNext(ops: seq<Op>, k: nat, file: string)
    requires k < |ops|
    ensures var op := ops[|ops| - 1];
      SettledSince(ops, k, file) <==>
      SettledSince(ops[..|ops| - 1], k, file) || (op.Resend? && op.file == file && !Keeps(op.reply))
  {
    hide Keeps;
    var ops' := ops[..|ops| - 1];
    if j: nat :| k <= j < |ops'| && ops'[j].Resend? && ops'[j].file == file && !Keeps(ops'[j].reply) {
      assert ops[j] == ops'[j];
    }
    if j: nat :| k <= j < |ops| && ops[j].Resend? && ops[j].file == file && !Keeps(ops[j].reply) {
      assert j < |ops'| ==> ops'[j] == ops[j];
    }
  }

  // The name a message is saved under.
  function SavedName(box: Box, op: Op): Option<string>
    requires op.Send?
  {
    NameToWrite(box.files, SavedPrefix(op.m), SavedText(op.m), op.disk)
  }

  // Message by message, over every run: one that was answered NOTSAVED or ERROR, or could not be delivered,
  // and had room, is kept in its own file exactly until that is sent again and answered otherwise.
  lemma KeptUntilSettled(ops: seq<Op>, k: nat)
    requires k < |ops| && ops[k].Send? && Keeps(ops[k].reply)
    requires forall op | op in ops && op.Send? :: Parsable(op.m)
    requires Room(ApplyAll(EMPTY, ops[..k]).files, ops[k].m, ops[k].disk)
    ensures var id, after := SendCount(ops[..k]), ApplyAll(EMPTY, ops);
      var name := SavedName(ApplyAll(EMPTY, ops[..k]), ops[k]);
      && name.Some? && "kvdata_" + ops[k].m.decoder + "_" <= name.value
      && id in after.fate
      && (after.fate[id] == Held(name.value) <==> !SettledSince(ops, k + 1, name.value))
      && (after.fate[id] != Held(name.value) ==> after.fate[id] == Taken || after.fate[id] == Refused)
  {
    hide *;
    var box := ApplyAll(EMPTY, ops[..k]);
    RunNumbered(ops[..k]);
    CountIs(box, SendCount(ops[..k]));
    HeldWhenSent(box, ops[k]);
    OneOn(ops, k);
    KeptSince(ops, k + 1, SendCount(ops[..k]), SavedName(box, ops[k]).value);
  }

  lemma HeldWhenSent(box: Box, op: Op)
    requires op.Send? && Keeps(op.reply) && Room(box.files, op.m, op.disk)
    ensures var after, id, name := Apply(box, op), |box.texts|, SavedName(box, op);
      && name.Some? && "kvdata_" + op.m.decoder + "_" <= name.value
      && id in after.fate && after.fate[id] == Held(name.value)
  {
    hide SendNew, Room, Keeps, NameToWrite, Takes;
    RoomSaves(box.files, op.m, op.disk);
    FateByReply(box, op.m, op.reply, op.disk);
    KeepsTakesNot(op.reply);
  }

  lemma OneOn(ops: seq<Op>, k: nat)
    requires k < |ops|
    ensures ApplyAll(EMPTY, ops[..k + 1]) == Apply(ApplyAll(EMPTY, ops[..k]), ops[k])
  {
    hide Apply;
    assert ops[..k + 1][..k] == ops[..k];
  }

  lemma CountIs(box: Box, n: nat)
    requires NumberedTo(box, n)
    ensures |box.texts| == n
  {
  }

  lemma KeepsTakesNot(reply: Reply)
    ensures Keeps(reply) ==> !Takes(reply)
  {
  }

  // ----- What a pass transmits -----

  // What the readable files of some turns hold, each once, in order.
  function AllHeld(files: map<string, string>, turns: seq<Turn>): seq<Transmission> {
    if turns == [] then [] else
      var t := turns[0];
      (if Sendable(files, t) then [Transmission(ParseSaved(files[t.file]).value, t.reply)] else []) +
      AllHeld(files, turns[1..])
  }

  lemma {:induction false} OthersHeld(files: map<string, string>, files': map<string, string>, file: string,
                                      turns: seq<Turn>)
    requires files' == files || files' == files - {file}
    requires forall t | t in turns :: t.file != file
    ensures AllHeld(files', turns) == AllHeld(files, turns)
    decreases |turns|
  {
    hide ParseSaved;
    if turns != [] {
      assert turns[0] in turns;
      OthersHeld(files, files', file, turns[1..]);
    }
  }

  // A turn in which nobody asks the program to stop, and kvalobs is there if something is sent.
  predicate GoesOn(files: map<string, string>, t: Turn) {
    !t.shutdown && !(Sendable(files, t) && t.reply == UNREACHABLE)
  }

  // The pass ends here: at the end of the list, at a request to stop, or with a file for which kvalobs is gone.
  predicate Ends(files: map<string, string>, turns: seq<Turn>) {
    turns == [] || turns[0].shutdown || (Sendable(files, turns[0]) && turns[0].reply == UNREACHABLE)
  }

  function LastHeld(files: map<string, string>, turns: seq<Turn>): seq<Transmission> {
    if turns == [] || turns[0].shutdown then [] else AllHeld(files, [turns[0]])
  }

  // A pass transmits what every readable file holds, once and in order, whatever kvalobs answers, until there
  // is a request to stop, which ends it before the next file, or kvalobs is gone, which ends it after that one.
  lemma {:induction false} PassSends(box: Box, a: seq<Turn>, b: seq<Turn>)
    requires ListedOnce(a + b) && (forall t | t in a :: GoesOn(box.files, t)) && Ends(box.files, b)
    ensures SentInPass(box, a + b, false) == AllHeld(box.files, a) + LastHeld(box.files, b)
    decreases |a|
  {
    hide GoesOn, Ends, AfterTurn, ListedOnce, SentInPass, SentInTurn, AllHeld, LastHeld, Removes;
    if a == [] {
      assert a + b == b;
      LastSent(box, b);
    } else {
      var t, rest, box' := a[0], a[1..], AfterTurn(box, a[0], false);
      assert t in a && (a + b)[0] == t && (a + b)[1..] == rest + b;
      TurnFiles(box, t, false);
      NotAgain(a + b);
      SameAfter(box.files, box'.files, t.file, rest, b);
      PassSends(box', rest, b);
      GoneOn(box, a + b);
      FirstHeld(box, a);
    }
  }

  lemma FirstHeld(box: Box, turns: seq<Turn>)
    requires turns != []
    ensures AllHeld(box.files, turns) == SentInTurn(box, turns[0], false) + AllHeld(box.files, turns[1..])
  {
    hide ParseSaved;
  }

  lemma SameAfter(files: map<string, string>, files': map<string, string>, file: string, a: seq<Turn>, b: seq<Turn>)
    requires (files' == files || files' == files - {file}) && forall t | t in a + b :: t.file != file
    ensures forall t | t in a && GoesOn(files, t) :: GoesOn(files', t)
    ensures Ends(files', b) == Ends(files, b) && LastHeld(files', b) == LastHeld(files, b)
    ensures AllHeld(files', a) == AllHeld(files, a)
  {
    hide Sendable, AllHeld;
    forall t | t in a
      ensures Sendable(files', t) == Sendable(files, t)
    {
      assert t in a + b;
      SameSendable(files, files', file, t);
    }
    OthersHeld(files, files', file, a);
    if b != [] {
      assert b[0] in a + b;
      SameSendable(files, files', file, b[0]);
      OthersHeld(files, files', file, [b[0]]);
    }
  }

  lemma LastSent(box: Box, b: seq<Turn>)
    requires Ends(box.files, b)
    ensures SentInPass(box, b, false) == [] + LastHeld(box.files, b) && AllHeld(box.files, []) == []
  {
    hide ParseSaved;
    if b != [] && !b[0].shutdown {
      var sent := SentInTurn(box, b[0], false);
      assert [b[0]][1..] == [] && AllHeld(box.files, []) == [];
      assert AllHeld(box.files, [b[0]]) == sent + [] == sent;
      assert SentInPass(box, b, false) == sent + [];
    }
  }

  lemma GoneOn(box: Box, turns: seq<Turn>)
    requires turns != [] && GoesOn(box.files, turns[0])
    ensures SentInPass(box, turns, false) ==
            SentInTurn(box, turns[0], false) + SentInPass(AfterTurn(box, turns[0], false), turns[1..], false)
  {
    hide ParseSaved, AfterTurn, SentInTurn;
  }

  lemma NotAgain(turns: seq<Turn>)
    requires turns != [] && ListedOnce(turns)
    ensures ListedOnce(turns[1..]) && forall t | t in turns[1..] :: t.file != turns[0].file
  {
  }

  lemma SameSendable(files: map<string, string>, files': map<string, string>, file: string, t: Turn)
    requires (files' == files || files' == files - {file}) && t.file != file
    ensures Sendable(files', t) == Sendable(files, t)
  {
    hide ParseSaved;
  }

  // In test mode a pass transmits nothing.
  lemma {:induction false} TestSendsNothing(box: Box, turns: seq<Turn>)
    ensures SentInPass(box, turns, true) == []
    decreases |turns|
  {
    hide AfterTurn, Sendable, Stops;
    if turns != [] {
      TestSendsNothing(AfterTurn(box, turns[0], true), turns[1..]);
    }
  }

  // A saved file is a message exactly if a decoder stands on its first line.
  lemma ParsedExactly(content: string, m: Message)
    ensures ParseSaved(content) == Some(m) <==>
            content == m.decoder + "\n" + m.text && m.decoder != "" && '\n' !in m.decoder
  {
    if content == m.decoder + "\n" + m.text && m.decoder != "" && '\n' !in m.decoder {
      assert content == m.decoder + ("\n" + m.text);
      Streams.FirstIndex("\n" + m.text, content, m.decoder);
      assert content[|m.decoder| + 1..] == m.text;
    }
    var i := Streams.IndexOf(content, '\n');
    assert i < |content| ==> content == content[..i] + "\n" + content[i + 1..];
  }

  // ----- What is sent of the lists -----

  function Sending(decoder: string, g: Group, msg: string): Message {
    Message(if g.decoderExtra == "" then decoder else decoder + "/" + g.decoderExtra,
            if g.addWhatInFront then g.what + " \n" + msg else msg)
  }

  ghost predicate OfGroupsSent(decoder: string, groups: seq<Group>, m: Message) {
    exists g, msg :: g in groups && msg in g.msgs && m == Sending(decoder, g, msg)
  }

  lemma GroupSent(decoder: string, g: Group, m: Message)
    ensures m in OfGroup(decoder, g, g.msgs) <==> exists msg :: msg in g.msgs && m == Sending(decoder, g, msg)
  {
    var ms := OfGroup(decoder, g, g.msgs);
    assert forall i | 0 <= i < |ms| :: ms[i] == Sending(decoder, g, g.msgs[i]);
    if msg :| msg in g.msgs && m == Sending(decoder, g, msg) {
      var i :| 0 <= i < |g.msgs| && g.msgs[i] == msg;
      assert ms[i] == m;
    }
  }

  lemma {:induction false} GroupsSent(decoder: string, groups: seq<Group>, m: Message)
    ensures m in OfGroups(decoder, groups) <==> OfGroupsSent(decoder, groups, m)
    decreases |groups|
  {
    hide Sending, OfGroup;
    if groups != [] {
      var init, g := groups[..|groups| - 1], groups[|groups| - 1];
      GroupsSent(decoder, init, m);
      GroupSent(decoder, g, m);
      assert groups == init + [g];
    }
  }

  // A message is sent exactly if it is a listed report of a kind with a decoder, for that decoder or its
  // variant, with the identifier on a line of its own in front if it is to stand there.
  lemma {:induction false} SentExactly(listings: seq<Listing>, m: Message)
    ensures m in Outgoing(listings) <==>
            exists l :: l in listings && l.decoder != "" && OfGroupsSent(l.decoder, l.groups, m)
    decreases |listings|
  {
    hide OfGroups, OfGroupsSent;
    if listings != [] {
      var init, l := listings[..|listings| - 1], listings[|listings| - 1];
      SentExactly(init, m);
      GroupsSent(l.decoder, l.groups, m);
      assert listings == init + [l];
    }
  }
}
