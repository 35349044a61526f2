/** Sending reports to kvalobs, saving what could not be sent, and trying again: where every message is at
    any time. */
module Outbox {
  import opened Text
  import opened Streams
  import opened Persistence

  datatype Message = Message(decoder: string, text: string)

  // What kvalobs answers, or the exception of a failed connection.
  datatype Reply = OK | NOTSAVED | ERROR | NODECODER | DECODEERROR(message: string) | OTHER | UNREACHABLE

  datatype Verdict = Accepted | Rejected | Later

  predicate FoundAt(s: string, w: string, i: nat) {
    i + |w| <= |s| && s[i..i + |w|] == w
  }

  predicate Contains(s: string, w: string) {
    exists i: nat :: i <= |s| && FoundAt(s, w, i)
  }

  // A decode error about an unknown station counts as accepted.
  predicate UnknownStation(message: string) {
    Contains(message, "unknown station/position") || Contains(message, "Missing or unknown stationid!")
  }

  function Judge(reply: Reply): Verdict {
    match reply
    case OK => Accepted
    case NOTSAVED => Later
    case ERROR => Later
    case UNREACHABLE => Later
    case DECODEERROR(message) => if UnknownStation(message) then Accepted else Rejected
    case NODECODER => Rejected
    case OTHER => Rejected
  }

  // ----- Saved files -----

  // What the file system answers while a file is being written: the time stamp in its name, the names that
  // cannot be opened for writing, and whether the write fails.
  datatype Disk = Disk(stamp: string, locked: set<string>, full: bool)

  const MAX_COUNT := 10000

  // A name with a "/" in it lies in a directory that does not exist.
  predicate Creatable(name: string, disk: Disk) {
    '/' !in name && name !in disk.locked
  }

  function Candidate(fname: string, disk: Disk, i: nat): string {
    fname + disk.stamp + if i == 0 then "" else "_" + Decimal(i)
  }

  function FirstFree(files: map<string, string>, fname: string, disk: Disk, i: nat): (name: Option<string>)
    ensures name.Some? ==> name.value !in files && Creatable(name.value, disk) && fname <= name.value
    decreases MAX_COUNT - i
  {
    if i >= MAX_COUNT then None
    else if Candidate(fname, disk, i) !in files && Creatable(Candidate(fname, disk, i), disk)
    then Some(Candidate(fname, disk, i))
    else FirstFree(files, fname, disk, i + 1)
  }

  // An empty text cannot be written: fwrite of nothing writes no item.
  function NameToWrite(files: map<string, string>, fname: string, content: string, disk: Disk): (name: Option<string>)
    ensures name.Some? ==> name.value !in files && fname <= name.value
  {
    if disk.full || content == "" then None else FirstFree(files, fname, disk, 0)
  }

  // A file can be written exactly when the disk takes it and one of the names tried is free and can be opened.
  lemma WrittenExactly(files: map<string, string>, fname: string, content: string, disk: Disk)
    ensures NameToWrite(files, fname, content, disk).Some? <==>
      !disk.full && content != "" &&
      exists i: nat :: i < MAX_COUNT && Candidate(fname, disk, i) !in files &&
                       Creatable(Candidate(fname, disk, i), disk)
  {
    FreeExactly(files, fname, disk, 0);
  }

  lemma {:induction false} FreeExactly(files: map<string, string>, fname: string, disk: Disk, i: nat)
    ensures FirstFree(files, fname, disk, i).Some? <==>
      exists j: nat :: i <= j < MAX_COUNT && Candidate(fname, disk, j) !in files &&
                       Creatable(Candidate(fname, disk, j), disk)
    decreases MAX_COUNT - i
  {
    hide Candidate, Creatable;
    if i < MAX_COUNT {
      FreeExactly(files, fname, disk, i + 1);
    }
  }

  // A decoder name with a "/" can never be saved under.
  lemma SlashNotWritten(files: map<string, string>, fname: string, content: string, disk: Disk)
    requires '/' in fname
    ensures NameToWrite(files, fname, content, disk).None?
  {
    hide Candidate;
    WrittenExactly(files, fname, content, disk);
    forall i: nat
      ensures !Creatable(Candidate(fname, disk, i), disk)
    {
      CandidateStarts(fname, disk, i);
    }
  }

  lemma CandidateStarts(fname: string, disk: Disk, i: nat)
    ensures fname <= Candidate(fname, disk, i)
    ensures '/' in fname ==> '/' in Candidate(fname, disk, i)
  {
    var c := Candidate(fname, disk, i);
    if '/' in fname {
      var k :| 0 <= k < |fname| && fname[k] == '/';
      assert c[k] == '/';
    }
  }

  function SavedText(m: Message): string {
    m.decoder + "\n" + m.text + "\n"
  }

  function SavedPrefix(m: Message): string {
    "kvdata_" + m.decoder + "_"
  }

  // The decoder is the first line of a saved file, the message the rest.
  function ParseSaved(content: string): Option<Message> {
    var i := IndexOf(content, '\n');
    if i == |content| || i == 0 then None else Some(Message(content[..i], content[i + 1..]))
  }

  // A saved message is read back with its decoder and its text plus one newline exactly when the decoder's
  // name is not empty and holds no newline.
  lemma SavedReadBack(m: Message)
    ensures ParseSaved(SavedText(m)) == Some(Message(m.decoder, m.text + "\n")) <==>
            m.decoder != "" && '\n' !in m.decoder
  {
    var s := SavedText(m);
    if '\n' !in m.decoder {
      FirstIndex("\n" + m.text + "\n", s, m.decoder);
      assert s == m.decoder + ("\n" + m.text + "\n");
      assert s[|m.decoder| + 1..] == m.text + "\n";
    } else {
      NewlineInside(m.decoder, "\n" + m.text + "\n");
      assert s == m.decoder + ("\n" + m.text + "\n");
    }
  }

  lemma {:induction false} NewlineInside(a: string, b: string)
    requires '\n' in a
    ensures IndexOf(a + b, '\n') < |a|
    decreases |a|
  {
    if a[0] != '\n' {
      assert (a + b)[1..] == a[1..] + b;
      NewlineInside(a[1..], b);
    }
  }

  // ----- Where every message is -----

  datatype Fate = Taken | Refused | Held(file: string) | Lost

  // A transmission: of which message, what was sent, and the verdict.
  datatype Sent = Sent(id: nat, message: Message, verdict: Verdict)

  // files: the directory of saved messages. texts: all messages there ever were, numbered in order. fate:
  // what has become of each. log: every transmission.
  datatype Box = Box(files: map<string, string>, texts: seq<Message>, fate: map<nat, Fate>, log: seq<Sent>)

  const EMPTY := Box(map[], [], map[], [])

  function SendNew(box: Box, m: Message, reply: Reply, disk: Disk): Box {
    var id, v := |box.texts|, Judge(reply);
    var name := NameToWrite(box.files, SavedPrefix(m), SavedText(m), disk);
    Box(
      if v == Later && name.Some? then box.files[name.value := SavedText(m)] else box.files,
      box.texts + [m],
      box.fate[id := match v
                     case Accepted => Taken
                     case Rejected => Refused
                     case Later => if name.Some? then Held(name.value) else Lost],
      box.log + [Sent(id, m, v)])
  }

  // One saved file tried again: message id, sent as m.
  function Retry(box: Box, id: nat, file: string, m: Message, reply: Reply): Box {
    var v := Judge(reply);
    Box(
      if v == Later then box.files else box.files - {file},
      box.texts,
      match v
      case Accepted => box.fate[id := Taken]
      case Rejected => box.fate[id := Refused]
      case Later => box.fate,
      box.log + [Sent(id, m, v)])
  }

  predicate Parsable(m: Message) {
    m.decoder != "" && '\n' !in m.decoder
  }

  predicate IsHeld(box: Box, id: nat) {
    id in box.fate && box.fate[id].Held?
  }

  ghost predicate HeldWritten(box: Box) {
    forall id: nat | IsHeld(box, id) ::
      id < |box.texts| && box.fate[id].file in box.files && box.files[box.fate[id].file] == SavedText(box.texts[id])
  }

  ghost predicate HeldApart(box: Box) {
    forall id: nat, id': nat | IsHeld(box, id) && IsHeld(box, id') && id != id' ::
      box.fate[id].file != box.fate[id'].file
  }

  ghost predicate Owned(box: Box, file: string) {
    exists id: nat :: IsHeld(box, id) && box.fate[id].file == file
  }

  // Every message is accounted for: it is accepted, refused, lost, or in one saved file of its own, which
  // holds its decoder and text; and there are no other saved files.
  ghost predicate FilesKept(box: Box) {
    && (forall id: nat :: id in box.fate <==> id < |box.texts|)
    && HeldWritten(box) && HeldApart(box)
    && forall file | file in box.files :: Owned(box, file)
  }

  // What is sent is the message, or the message and one more newline.
  predicate Faithful(sent: Message, m: Message) {
    sent == m || sent == Message(m.decoder, m.text + "\n")
  }

  ghost predicate LogFaithful(box: Box) {
    forall i | 0 <= i < |box.log| ::
      box.log[i].id in box.fate && box.log[i].id < |box.texts| &&
      Faithful(box.log[i].message, box.texts[box.log[i].id]) &&
      (box.log[i].verdict == Accepted ==> box.fate[box.log[i].id] == Taken) &&
      (box.log[i].verdict == Rejected ==> box.fate[box.log[i].id] == Refused)
  }

  // A message is sent until it is accepted or refused and not once after that.
  ghost predicate SentNoMore(log: seq<Sent>) {
    forall i, j | 0 <= i < j < |log| && log[i].verdict != Later :: log[j].id != log[i].id
  }

  ghost predicate LogShows(log: seq<Sent>, id: nat, v: Verdict) {
    exists i :: 0 <= i < |log| && log[i].id == id && log[i].verdict == v
  }

  // What is held to be accepted or refused was answered so.
  ghost predicate LogProves(box: Box) {
    && (forall id | id in box.fate && box.fate[id] == Taken :: LogShows(box.log, id, Accepted))
    && (forall id | id in box.fate && box.fate[id] == Refused :: LogShows(box.log, id, Rejected))
  }

  ghost predicate LogKept(box: Box) {
    LogFaithful(box) && SentNoMore(box.log) && LogProves(box)
  }

  function IdsIn(log: seq<Sent>): set<nat> {
    if log == [] then {} else IdsIn(log[..|log| - 1]) + {log[|log| - 1].id}
  }

  // What was transmitted for the first time.
  function FirstSent(log: seq<Sent>): seq<Message> {
    if log == [] then [] else
      var init, last := log[..|log| - 1], log[|log| - 1];
      FirstSent(init) + if last.id in IdsIn(init) then [] else [last.message]
  }

  // Every message has been transmitted, for the first time in its turn and as it is.
  ghost predicate AllTransmitted(box: Box) {
    FirstSent(box.log) == box.texts && forall id: nat :: id in IdsIn(box.log) <==> id < |box.texts|
  }

  lemma FirstNext(log: seq<Sent>, sent: Sent)
    ensures FirstSent(log + [sent]) == FirstSent(log) + if sent.id in IdsIn(log) then [] else [sent.message]
    ensures IdsIn(log + [sent]) == IdsIn(log) + {sent.id}
  {
    assert (log + [sent])[..|log|] == log;
  }

  lemma SentTransmitted(box: Box, m: Message, reply: Reply, disk: Disk)
    requires AllTransmitted(box)
    ensures AllTransmitted(SendNew(box, m, reply, disk))
  {
    hide Judge, NameToWrite, SavedText, SavedPrefix, FirstSent, IdsIn;
    FirstNext(box.log, Sent(|box.texts|, m, Judge(reply)));
  }

  lemma RetriedTransmitted(box: Box, id: nat, file: string, m: Message, reply: Reply)
    requires AllTransmitted(box) && id < |box.texts|
    ensures AllTransmitted(Retry(box, id, file, m, reply))
  {
    hide Judge, FirstSent, IdsIn;
    FirstNext(box.log, Sent(id, m, Judge(reply)));
  }

  ghost predicate Conserved(box: Box) {
    FilesKept(box) && LogKept(box) && AllTransmitted(box) && forall m | m in box.texts :: Parsable(m)
  }

  lemma SentWritten(box: Box, m: Message, reply: Reply, disk: Disk)
    requires FilesKept(box)
    ensures HeldWritten(SendNew(box, m, reply, disk))
  {
    hide Judge, NameToWrite, SavedText, SavedPrefix, HeldApart, Owned;
  }

  lemma SentApart(box: Box, m: Message, reply: Reply, disk: Disk)
    requires FilesKept(box)
    ensures HeldApart(SendNew(box, m, reply, disk))
  {
    hide Judge, NameToWrite, SavedText, SavedPrefix, Owned;
  }

  lemma SentOwned(box: Box, m: Message, reply: Reply, disk: Disk, file: string)
    requires FilesKept(box) && file in SendNew(box, m, reply, disk).files
    ensures Owned(SendNew(box, m, reply, disk), file)
  {
    hide Judge, NameToWrite, SavedText, SavedPrefix, HeldApart, HeldWritten;
    var box' := SendNew(box, m, reply, disk);
    if file in box.files {
      var id: nat :| IsHeld(box, id) && box.fate[id].file == file;
      assert IsHeld(box', id) && box'.fate[id].file == file;
    } else {
      assert IsHeld(box', |box.texts|) && box'.fate[|box.texts|].file == file;
    }
  }

  lemma SendNewKeepsFiles(box: Box, m: Message, reply: Reply, disk: Disk)
    requires FilesKept(box)
    ensures FilesKept(SendNew(box, m, reply, disk))
  {
    hide Judge, NameToWrite, SavedText, SavedPrefix, HeldApart, HeldWritten, Owned;
    SentWritten(box, m, reply, disk);
    SentApart(box, m, reply, disk);
    forall file | file in SendNew(box, m, reply, disk).files
      ensures Owned(SendNew(box, m, reply, disk), file)
    {
      SentOwned(box, m, reply, disk, file);
    }
  }

  lemma RetriedWritten(box: Box, id: nat, file: string, m: Message, reply: Reply)
    requires FilesKept(box) && id in box.fate && box.fate[id] == Held(file)
    ensures HeldWritten(Retry(box, id, file, m, reply)) && HeldApart(Retry(box, id, file, m, reply))
  {
    hide Judge, SavedText, Owned;
    var box' := Retry(box, id, file, m, reply);
    assert IsHeld(box, id);
    assert forall i: nat | IsHeld(box', i) :: IsHeld(box, i) && box'.fate[i] == box.fate[i];
  }

  lemma RetriedOwned(box: Box, id: nat, file: string, m: Message, reply: Reply, f: string)
    requires FilesKept(box) && id in box.fate && box.fate[id] == Held(file) && f in Retry(box, id, file, m, reply).files
    ensures Owned(Retry(box, id, file, m, reply), f)
  {
    hide Judge, SavedText, HeldApart, HeldWritten;
    var box' := Retry(box, id, file, m, reply);
    var i: nat :| IsHeld(box, i) && box.fate[i].file == f;
    assert IsHeld(box', i) && box'.fate[i].file == f;
  }

  lemma RetryKeepsFiles(box: Box, id: nat, file: string, m: Message, reply: Reply)
    requires FilesKept(box) && id in box.fate && box.fate[id] == Held(file)
    ensures FilesKept(Retry(box, id, file, m, reply))
  {
    hide Judge, SavedText, HeldApart, HeldWritten, Owned;
    RetriedWritten(box, id, file, m, reply);
    forall f | f in Retry(box, id, file, m, reply).files
      ensures Owned(Retry(box, id, file, m, reply), f)
    {
      RetriedOwned(box, id, file, m, reply, f);
    }
  }

  // One more transmission, of a message that was neither accepted nor refused before.
  ghost predicate OneMoreSent(box: Box, box': Box, sent: Sent) {
    && box'.log == box.log + [sent] && sent.id in box'.fate && sent.id < |box'.texts|
    && box.texts <= box'.texts && Faithful(sent.message, box'.texts[sent.id])
    && (sent.id in box.fate ==> !box.fate[sent.id].Taken? && !box.fate[sent.id].Refused?)
    && (forall i | i in box.fate && i != sent.id :: i in box'.fate && box'.fate[i] == box.fate[i])
    && (forall i | i in box'.fate && i != sent.id :: i in box.fate)
    && (sent.verdict == Accepted <==> box'.fate[sent.id] == Taken)
    && (sent.verdict == Rejected <==> box'.fate[sent.id] == Refused)
  }

  lemma NotFinalBefore(box: Box, box': Box, sent: Sent)
    requires LogFaithful(box) && OneMoreSent(box, box', sent)
    ensures forall i | 0 <= i < |box.log| && box.log[i].verdict != Later :: box.log[i].id != sent.id
    ensures LogFaithful(box')
  {
    hide Faithful;
    assert forall i | 0 <= i < |box.log| :: box'.log[i] == box.log[i];
  }

  lemma ProofNext(box: Box, box': Box, sent: Sent, id: nat, v: Verdict)
    requires LogProves(box) && OneMoreSent(box, box', sent)
    requires id in box'.fate && box'.fate[id] == (if v == Accepted then Taken else Refused) && v != Later
    ensures LogShows(box'.log, id, v)
  {
    hide Faithful;
    if id == sent.id {
      assert box'.log[|box.log|] == sent;
    } else {
      var i :| 0 <= i < |box.log| && box.log[i].id == id && box.log[i].verdict == v;
      assert box'.log[i] == box.log[i];
    }
  }

  lemma LogNext(box: Box, box': Box, sent: Sent)
    requires LogKept(box) && OneMoreSent(box, box', sent)
    ensures LogKept(box')
  {
    hide LogFaithful, LogShows, Faithful;
    NotFinalBefore(box, box', sent);
    assert forall i | 0 <= i < |box.log| :: box'.log[i] == box.log[i];
    forall id | id in box'.fate && box'.fate[id] == Taken
      ensures LogShows(box'.log, id, Accepted)
    {
      ProofNext(box, box', sent, id, Accepted);
    }
    forall id | id in box'.fate && box'.fate[id] == Refused
      ensures LogShows(box'.log, id, Rejected)
    {
      ProofNext(box, box', sent, id, Rejected);
    }
  }

  // What every transmission keeps.
  lemma SendNewConserves(box: Box, m: Message, reply: Reply, disk: Disk)
    requires Conserved(box) && Parsable(m)
    ensures Conserved(SendNew(box, m, reply, disk))
  {
    hide Judge, NameToWrite, SavedText, SavedPrefix, FilesKept, LogKept, AllTransmitted;
    SentTransmitted(box, m, reply, disk);
    SendNewKeepsFiles(box, m, reply, disk);
    Numbered(box);
    LogNext(box, SendNew(box, m, reply, disk), Sent(|box.texts|, m, Judge(reply)));
  }

  lemma Numbered(box: Box)
    requires FilesKept(box)
    ensures forall id: nat :: id in box.fate <==> id < |box.texts|
    ensures forall id | id in box.fate && box.fate[id].Held? ::
      box.fate[id].file in box.files && box.files[box.fate[id].file] == SavedText(box.texts[id])
  {
  }

  lemma RetryConserves(box: Box, id: nat, file: string, reply: Reply)
    requires Conserved(box) && id in box.fate && box.fate[id] == Held(file)
    ensures file in box.files && id < |box.texts|
    ensures var m := ParseSaved(box.files[file]);
      m == Some(Message(box.texts[id].decoder, box.texts[id].text + "\n")) &&
      Conserved(Retry(box, id, file, m.value, reply))
  {
    hide Judge, SavedText, FilesKept, LogKept, AllTransmitted, ParseSaved;
    Numbered(box);
    assert box.texts[id] in box.texts;
    SavedReadBack(box.texts[id]);
    var m := ParseSaved(box.files[file]).value;
    RetryKeepsFiles(box, id, file, m, reply);
    RetriedTransmitted(box, id, file, m, reply);
    LogNext(box, Retry(box, id, file, m, reply), Sent(id, m, Judge(reply)));
  }

  // ----- Whole runs -----

  // The message a file holds, if it is one of ours.
  ghost function OwnerOf(box: Box, file: string): (id: Option<nat>)
    ensures id.Some? ==> id.value in box.fate && box.fate[id.value] == Held(file)
    ensures id.None? ==> forall i | i in box.fate :: box.fate[i] != Held(file)
  {
    if exists id :: id in box.fate && box.fate[id] == Held(file)
    then var id :| id in box.fate && box.fate[id] == Held(file); Some(id)
    else None
  }

  // One saved file of a listing. A file in another format is removed unsent.
  ghost function RetryFile(box: Box, file: string, reply: Reply): Box {
    if file !in box.files then box
    else match ParseSaved(box.files[file])
      case None => box.(files := box.files - {file})
      case Some(m) =>
        var id := OwnerOf(box, file);
        if id.Some? then Retry(box, id.value, file, m, reply)
        else box.(files := if Judge(reply) == Later then box.files else box.files - {file})
  }

  datatype Op = Send(m: Message, reply: Reply, disk: Disk) | Resend(file: string, reply: Reply)

  ghost function Apply(box: Box, op: Op): Box {
    match op
    case Send(m, reply, disk) => SendNew(box, m, reply, disk)
    case Resend(file, reply) => RetryFile(box, file, reply)
  }

  ghost function ApplyAll(box: Box, ops: seq<Op>): Box {
    if ops == [] then box else Apply(ApplyAll(box, ops[..|ops| - 1]), ops[|ops| - 1])
  }

  lemma RetryFileConserves(box: Box, file: string, reply: Reply)
    requires Conserved(box)
    ensures Conserved(RetryFile(box, file, reply))
  {
    hide SavedText, ParseSaved, LogKept, Retry, AllTransmitted;
    if file in box.files {
      var id := OwnerOf(box, file);
      assert id.Some?;
      RetryConserves(box, id.value, file, reply);
    }
  }

  // Over every run of sending and resending: each message is accepted, finally refused, lost or in exactly
  // one saved file of its own, and none is sent again after it was accepted or refused.
  lemma {:induction false} MessagesConserved(ops: seq<Op>)
    requires forall op | op in ops && op.Send? :: Parsable(op.m)
    ensures Conserved(ApplyAll(EMPTY, ops))
  {
    hide Conserved, SendNew, RetryFile;
    if ops == [] {
      EmptyConserved();
    } else {
      var op := ops[|ops| - 1];
      MessagesConserved(ops[..|ops| - 1]);
      assert op in ops;
      var box := ApplyAll(EMPTY, ops[..|ops| - 1]);
      if op.Send? {
        SendNewConserves(box, op.m, op.reply, op.disk);
      } else {
        RetryFileConserves(box, op.file, op.reply);
      }
    }
  }

  lemma EmptyConserved()
    ensures Conserved(EMPTY)
  {
  }

  // A message has to be saved and cannot be.
  predicate WriteFails(box: Box, op: Op) {
    op.Send? && Judge(op.reply) == Later &&
    NameToWrite(box.files, SavedPrefix(op.m), SavedText(op.m), op.disk).None?
  }

  function SendCount(ops: seq<Op>): nat {
    if ops == [] then 0 else SendCount(ops[..|ops| - 1]) + if ops[|ops| - 1].Send? then 1 else 0
  }

  // Messages are numbered as they are sent.
  ghost predicate NumberedTo(box: Box, n: nat) {
    |box.texts| == n && forall id: nat :: id in box.fate <==> id < n
  }

  // A later transmission changes no number and does not lose a message, nor find a lost one.
  lemma OthersStay(box: Box, op: Op, n: nat)
    requires NumberedTo(box, n)
    ensures NumberedTo(Apply(box, op), if op.Send? then n + 1 else n)
    ensures forall id: nat | id < n :: Apply(box, op).fate[id] == Lost <==> box.fate[id] == Lost
  {
    hide Judge, ParseSaved, NameToWrite, SavedPrefix, SavedText;
  }

  lemma NewLost(box: Box, op: Op, n: nat)
    requires NumberedTo(box, n) && op.Send?
    ensures n in Apply(box, op).fate && (Apply(box, op).fate[n] == Lost <==> WriteFails(box, op))
  {
    hide Judge, NameToWrite, SavedPrefix, SavedText;
  }

  lemma {:induction false} RunNumbered(ops: seq<Op>)
    ensures NumberedTo(ApplyAll(EMPTY, ops), SendCount(ops))
    decreases |ops|
  {
    hide Apply, NumberedTo;
    if ops == [] {
      EmptyNumbered();
    } else {
      RunNumbered(ops[..|ops| - 1]);
      OthersStay(ApplyAll(EMPTY, ops[..|ops| - 1]), ops[|ops| - 1], SendCount(ops[..|ops| - 1]));
    }
  }

  lemma EmptyNumbered()
    ensures NumberedTo(EMPTY, 0)
  {
  }

  // Message by message: the message that was sent first by operation k of a run is lost at its end exactly
  // if it had to be saved then and could not be.
  lemma {:induction false} LostExactly(ops: seq<Op>, k: nat)
    requires k < |ops| && ops[k].Send?
    ensures var id, after := SendCount(ops[..k]), ApplyAll(EMPTY, ops);
      id < |after.texts| && id in after.fate &&
      (after.fate[id] == Lost <==> WriteFails(ApplyAll(EMPTY, ops[..k]), ops[k]))
    decreases |ops|
  {
    hide Apply, WriteFails;
    var ops', op := ops[..|ops| - 1], ops[|ops| - 1];
    var box, n := ApplyAll(EMPTY, ops'), SendCount(ops');
    RunNumbered(ops');
    RunNumbered(ops);
    OthersStay(box, op, n);
    if k == |ops| - 1 {
      NewLost(box, op, n);
    } else {
      assert ops'[..k] == ops[..k] && ops'[k] == ops[k];
      LostExactly(ops', k);
    }
  }

  // Whether a message of a run had to be saved and could not be.
  ghost predicate FailedWrite(ops: seq<Op>) {
    ops != [] && (
      FailedWrite(ops[..|ops| - 1]) || WriteFails(ApplyAll(EMPTY, ops[..|ops| - 1]), ops[|ops| - 1]))
  }

  ghost predicate AnyLost(box: Box) {
    exists id :: id in box.fate && box.fate[id] == Lost
  }

  // Messages are lost exactly by failed writes.
  lemma {:induction false} LostOnlyByFailedWrites(ops: seq<Op>)
    requires forall op | op in ops && op.Send? :: Parsable(op.m)
    ensures AnyLost(ApplyAll(EMPTY, ops)) <==> FailedWrite(ops)
  {
    hide Judge, NameToWrite, SavedText, SavedPrefix, SendNew, RetryFile, Conserved, AnyLost;
    if ops == [] {
      NothingLostYet();
    } else {
      var ops', op := ops[..|ops| - 1], ops[|ops| - 1];
      forall o | o in ops'
        ensures o in ops
      {
      }
      LostOnlyByFailedWrites(ops');
      MessagesConserved(ops');
      var box := ApplyAll(EMPTY, ops');
      ConservedNumbers(box);
      if op.Send? {
        SendLoses(box, op.m, op.reply, op.disk);
      } else {
        RetryLosesNone(box, op.file, op.reply);
      }
    }
  }

  lemma NothingLostYet()
    ensures !AnyLost(EMPTY)
  {
  }

  lemma ConservedNumbers(box: Box)
    requires Conserved(box)
    ensures |box.texts| !in box.fate
  {
  }

  lemma SendLoses(box: Box, m: Message, reply: Reply, disk: Disk)
    requires |box.texts| !in box.fate
    ensures AnyLost(SendNew(box, m, reply, disk)) <==>
      (AnyLost(box) || (Judge(reply) == Later && NameToWrite(box.files, SavedPrefix(m), SavedText(m), disk).None?))
  {
    hide Judge, NameToWrite, SavedPrefix, SavedText;
    var box' := SendNew(box, m, reply, disk);
    assert forall id | id in box.fate :: id in box'.fate && box'.fate[id] == box.fate[id];
    assert |box.texts| in box'.fate;
  }

  lemma RetryLosesNone(box: Box, file: string, reply: Reply)
    ensures AnyLost(RetryFile(box, file, reply)) <==> AnyLost(box)
  {
    hide ParseSaved, Judge;
    var box' := RetryFile(box, file, reply);
    assert forall id | id in box.fate :: id in box'.fate && (box'.fate[id] == Lost <==> box.fate[id] == Lost);
    assert forall id | id in box'.fate :: id in box.fate;
  }
}
