/** One scan of the directory and one collection pass, as functions of the entries and of what the file
    system answers; and what they guarantee over runs. */
module Scanning {
  import opened Text
  import opened Crc
  import opened Increments
  import opened FileEntries

  // A file as a scan lists it, with the answers the scan gets if it asks: whether the copy succeeds, the
  // modification time of a later stat, the time stamp the copy is named by, and what the file holds then.
  datatype Listed = Listed(
    name: string, mtime: int, copied: bool, restat: Option<int>, stamp: string, content: Bytes)

  // The copies that can be read, with their contents, and those that can be stat'ed.
  datatype Copies = Copies(contents: map<string, Bytes>, stats: set<string>)

  function NamePart(name: string): string
    decreases |name|
  {
    if '/' in name then NamePart(name[1..]) else name
  }

  function CopyName(tmpdir: string, l: Listed): (s: string)
    ensures s != ""
  {
    tmpdir + NamePart(l.name) + "_" + l.stamp
  }

  // ----- One entry in one scan -----

  function NewEntry(l: Listed): Entry {
    Entry(l.name, l.mtime, 0, 0, false, false, "")
  }

  // A stat that fails drops the entry.
  function Restat(e: Entry, l: Listed): Option<Entry> {
    if l.restat.None? then None else Some(e.(mtime := l.restat.value, seen := false, collected := false))
  }

  // A copy that fails drops the entry; a file that changed meanwhile starts over.
  function CopyFile(e: Entry, l: Listed, tmpdir: string): Option<Entry> {
    if !l.copied || l.restat.None? then None
    else if l.restat.value != e.mtime then Restat(e, l)
    else Some(e.(copy := CopyName(tmpdir, l)))
  }

  // The files copyFile removes: the copy of a file that has changed, or an earlier copy unless debugging.
  function UnlinkedByCopy(e: Entry, l: Listed, tmpdir: string, debug: bool): seq<string> {
    if !l.copied || l.restat.None? then []
    else if l.restat.value != e.mtime then [CopyName(tmpdir, l)]
    else if e.copy != "" && !debug then [e.copy]
    else []
  }

  function VisitKnown(e: Entry, l: Listed, tmpdir: string): Option<Entry> {
    if e.mtime != l.mtime then Restat(e, l)
    else if !e.seen then Some(e.(seen := true))
    else if e.collected then Some(e)
    else CopyFile(e, l, tmpdir)
  }

  function Visit(e: Option<Entry>, l: Listed, tmpdir: string): Option<Entry> {
    if e.None? then Some(NewEntry(l)) else VisitKnown(e.value, l, tmpdir)
  }

  // ----- One entry in a collection pass -----

  function CollectEntry(e: Entry, copies: Copies): Entry {
    if !ToBeCollected(e) then e
    else if e.copy !in copies.contents then e.(seen := false, collected := false)
    else if e.copy !in copies.stats then e.(copy := "", seen := false, collected := false)
    else
      var obs := copies.contents[e.copy];
      e.(copy := "", collected := true, offset := |obs|, crc := CrcOf(obs))
  }

  // A copy is removed by the pass that gets to it, whether it could be read or not, unless debugging.
  function UnlinkedByCollect(e: Entry, debug: bool): seq<string> {
    if ToBeCollected(e) && !debug then [e.copy] else []
  }

  // The part handed on, empty if there is none.
  function HandedPart(e: Entry, copies: Copies): Bytes {
    if ToBeCollected(e) && e.copy in copies.contents && e.copy in copies.stats
    then NewPart(e.offset, e.crc, copies.contents[e.copy])
    else []
  }

  predicate Readable(copy: string, copies: Copies) {
    copy in copies.contents && copy in copies.stats
  }

  predicate IsPending(e: Option<Entry>) {
    e.Some? && ToBeCollected(e.value)
  }

  // ----- A whole pass and a whole scan -----

  type Index = map<string, Entry>

  // A pass gets to some of the files before a shutdown is asked for.
  function CollectAll(index: Index, copies: Copies, done: set<string>): Index {
    map name | name in index :: if name in done then CollectEntry(index[name], copies) else index[name]
  }

  function Get(index: Index, name: string): Option<Entry> {
    if name in index then Some(index[name]) else None
  }

  function Set(index: Index, name: string, e: Option<Entry>): Index {
    if e.Some? then index[name := e.value] else index - {name}
  }

  function Names(listing: seq<Listed>): set<string> {
    set l | l in listing :: l.name
  }

  // Entries of files that are not listed are erased.
  function Forget(index: Index, listing: seq<Listed>): Index {
    map name | name in index && name in Names(listing) :: index[name]
  }

  function VisitAll(index: Index, listing: seq<Listed>, tmpdir: string): Index {
    if listing == [] then index else
      var before := VisitAll(index, listing[..|listing| - 1], tmpdir);
      var l := listing[|listing| - 1];
      Set(before, l.name, Visit(Get(before, l.name), l, tmpdir))
  }

  // Whether some file was found to be collected when it was visited.
  predicate AnyPending(index: Index, listing: seq<Listed>, tmpdir: string) {
    listing != [] && (
      AnyPending(index, listing[..|listing| - 1], tmpdir) ||
      var e := Get(VisitAll(index, listing, tmpdir), listing[|listing| - 1].name);
      e.Some? && ToBeCollected(e.value))
  }

  function UnlinkedByVisit(e: Option<Entry>, l: Listed, tmpdir: string, debug: bool): seq<string> {
    if e.Some? && e.value.mtime == l.mtime && e.value.seen && !e.value.collected
    then UnlinkedByCopy(e.value, l, tmpdir, debug) else []
  }

  // The files a scan removes, in the order of the listing.
  function UnlinkedByAll(index: Index, listing: seq<Listed>, tmpdir: string, debug: bool): seq<string> {
    if listing == [] then [] else
      var l := listing[|listing| - 1];
      UnlinkedByAll(index, listing[..|listing| - 1], tmpdir, debug) +
      UnlinkedByVisit(Get(VisitAll(index, listing[..|listing| - 1], tmpdir), l.name), l, tmpdir, debug)
  }

  // An empty listing leaves everything as it is.
  function Scan(index: Index, listing: seq<Listed>, tmpdir: string): Index {
    if listing == [] then index else VisitAll(Forget(index, listing), listing, tmpdir)
  }

  predicate HasNewFiles(index: Index, listing: seq<Listed>, tmpdir: string) {
    listing != [] && AnyPending(Forget(index, listing), listing, tmpdir)
  }

  // ----- The index stays faithful -----

  predicate Keyed(index: Index) {
    forall name | name in index :: index[name].name == name
  }

  // No name is listed twice.
  predicate Distinct(listing: seq<Listed>) {
    forall i, j | 0 <= i < j < |listing| :: listing[i].name != listing[j].name
  }

  lemma {:induction false} VisitAllKeyed(index: Index, listing: seq<Listed>, tmpdir: string)
    requires Keyed(index)
    ensures Keyed(VisitAll(index, listing, tmpdir))
  {
    if listing != [] {
      VisitAllKeyed(index, listing[..|listing| - 1], tmpdir);
    }
  }

  // In a listing without repetition every file is visited once, from its entry before the scan.
  lemma {:induction false} VisitAllEach(index: Index, listing: seq<Listed>, tmpdir: string, name: string)
    requires Distinct(listing)
    ensures var e := Get(VisitAll(index, listing, tmpdir), name);
      && (name !in Names(listing) ==> e == Get(index, name))
      && (forall l | l in listing && l.name == name :: e == Visit(Get(index, name), l, tmpdir))
  {
    hide Visit;
    if listing != [] {
      var init, last := listing[..|listing| - 1], listing[|listing| - 1];
      VisitAllEach(index, init, tmpdir, name);
      assert forall l :: l in listing <==> l in init || l == last;
      if last.name == name {
        forall l | l in init
          ensures l.name != name
        {
          var i :| 0 <= i < |init| && init[i] == l;
          assert listing[i] == l;
        }
        assert name !in Names(init);
      } else if name in Names(listing) {
        var l :| l in listing && l.name == name;
        assert l in init;
      } else {
        assert name !in Names(init);
      }
    }
  }

  // One scan, file by file.
  lemma ScanEach(index: Index, listing: seq<Listed>, tmpdir: string, l: Listed)
    requires l in listing && Distinct(listing)
    ensures Get(Scan(index, listing, tmpdir), l.name) == Visit(Get(index, l.name), l, tmpdir)
  {
    hide Visit;
    assert l.name in Names(listing);
    VisitAllEach(Forget(index, listing), listing, tmpdir, l.name);
    assert Get(Forget(index, listing), l.name) == Get(index, l.name);
  }

  // Which listed files a scan drops.
  predicate DroppedBy(e: Option<Entry>, l: Listed) {
    && e.Some?
    && if e.value.mtime != l.mtime then l.restat.None?
       else e.value.seen && !e.value.collected && (!l.copied || l.restat.None?)
  }

  // After a scan the index holds exactly the listed files that were not dropped, each under its own name,
  // and a file known before keeps its offset and checksum.
  lemma ScanFaithful(index: Index, listing: seq<Listed>, tmpdir: string)
    requires listing != [] && Distinct(listing) && Keyed(index)
    ensures var index' := Scan(index, listing, tmpdir);
      && Keyed(index')
      && (forall name :: name in index' <==>
            exists l :: l in listing && l.name == name && !DroppedBy(Get(index, name), l))
      && (forall name | name in index && name in index' ::
            index'[name].offset == index[name].offset && index'[name].crc == index[name].crc)
      && (forall name | name !in index && name in index' :: index'[name].offset == 0 && !index'[name].seen)
  {
    hide VisitAll, Forget;
    var index' := Scan(index, listing, tmpdir);
    ForgetKeyed(index, listing);
    VisitAllKeyed(Forget(index, listing), listing, tmpdir);
    forall name
      ensures name in index' <==> exists l :: l in listing && l.name == name && !DroppedBy(Get(index, name), l)
      ensures name in index && name in index' ==>
        index'[name].offset == index[name].offset && index'[name].crc == index[name].crc
      ensures name !in index && name in index' ==> index'[name].offset == 0 && !index'[name].seen
    {
      if name in Names(listing) {
        var l :| l in listing && l.name == name;
        ScanEach(index, listing, tmpdir, l);
        OnlyOne(listing, l);
      } else {
        NotListed(index, listing, tmpdir, name);
      }
    }
  }

  lemma OnlyOne(listing: seq<Listed>, l: Listed)
    requires Distinct(listing) && l in listing
    ensures forall l' | l' in listing && l'.name == l.name :: l' == l
  {
  }

  lemma ForgetKeyed(index: Index, listing: seq<Listed>)
    requires Keyed(index)
    ensures Keyed(Forget(index, listing))
  {
  }

  lemma NotListed(index: Index, listing: seq<Listed>, tmpdir: string, name: string)
    requires listing != [] && Distinct(listing) && name !in Names(listing)
    ensures name !in Scan(index, listing, tmpdir)
    ensures forall l | l in listing :: l.name != name
  {
    VisitAllEach(Forget(index, listing), listing, tmpdir, name);
  }

  // ----- A file is collected only when it has been stable -----

  // When a visit leaves an entry to be collected, its copy was made in this very visit, of a file whose
  // modification time was the same when it was remembered, when it was listed, and after the copy -
  // unless the name of an earlier copy was still set.
  predicate CopiedNow(e: Entry, e': Entry, l: Listed, tmpdir: string) {
    && l.copied && l.restat == Some(l.mtime) && e.mtime == l.mtime && e.seen
    && e'.mtime == l.mtime && e'.copy == CopyName(tmpdir, l)
  }

  predicate StaleCopy(e: Entry, l: Listed) {
    e.copy != "" && !e.seen && !e.collected && e.mtime == l.mtime
  }

  lemma PendingExactly(e: Entry, l: Listed, tmpdir: string)
    requires var v := VisitKnown(e, l, tmpdir); v.Some? && ToBeCollected(v.value)
    ensures CopiedNow(e, VisitKnown(e, l, tmpdir).value, l, tmpdir) <==> !StaleCopy(e, l)
    ensures StaleCopy(e, l) ==> VisitKnown(e, l, tmpdir).value.copy == e.copy
  {
  }
}
