/** The directory of copies: under which names files are copied, what is written and removed there, and that what
    is read of a file's copy is what that file held when it was copied. */
module CopyDisk {
  import opened Text
  import opened Crc
  import opened FileEntries
  import opened Scanning

  // ----- Names of copies -----

  // A file's own name is what follows the last "/".
  lemma {:induction false} NamePartExactly(name: string)
    ensures var part := NamePart(name); '/' !in part && exists dir :: DirPart(dir) && name == dir + part
    decreases |name|
  {
    if '/' in name {
      NamePartExactly(name[1..]);
      var part := NamePart(name);
      var dir :| DirPart(dir) && name[1..] == dir + part;
      FirstOfDir(name, dir, part);
    } else {
      assert name == "" + name && DirPart("");
    }
  }

  lemma FirstOfDir(name: string, dir: string, part: string)
    requires '/' in name && '/' !in part && DirPart(dir) && name[1..] == dir + part
    ensures var dir' := [name[0]] + dir; DirPart(dir') && name == dir' + part
  {
    if dir == "" {
      assert name == [name[0]] + part;
    }
  }

  predicate DirPart(dir: string) {
    dir == "" || dir[|dir| - 1] == '/'
  }

  lemma {:induction false} NamePartOf(dir: string, part: string)
    requires DirPart(dir) && '/' !in part
    ensures NamePart(dir + part) == part
    decreases |dir|
  {
    var name := dir + part;
    if dir == "" {
      assert name == part;
    } else {
      assert name[|dir| - 1] == '/';
      assert name[1..] == dir[1..] + part;
      NamePartOf(dir[1..], part);
    }
  }

  // Time stamps have one length, so that a copy's name tells both the file's own name and the time.
  lemma CopyNamesApart(tmpdir: string, l: Listed, l': Listed)
    requires |l.stamp| == |l'.stamp| && CopyName(tmpdir, l) == CopyName(tmpdir, l')
    ensures NamePart(l.name) == NamePart(l'.name) && l.stamp == l'.stamp
  {
    hide NamePart;
    var a, b := NamePart(l.name), NamePart(l'.name);
    var x, y := CopyName(tmpdir, l), CopyName(tmpdir, l');
    assert x == tmpdir + (a + ("_" + l.stamp)) && y == tmpdir + (b + ("_" + l'.stamp));
    assert x[|tmpdir|..] == a + ("_" + l.stamp) && y[|tmpdir|..] == b + ("_" + l'.stamp);
    assert |a| == |b|;
    assert x[|tmpdir|..][..|a|] == a && y[|tmpdir|..][..|b|] == b;
    assert x[|tmpdir|..][|a| + 1..] == l.stamp && y[|tmpdir|..][|b| + 1..] == l'.stamp;
  }

  // A listing is of one directory, each file once; all stamps have one length.
  predicate OfDirectory(listing: seq<Listed>, dir: string) {
    && DirPart(dir) && Distinct(listing)
    && (forall l | l in listing :: dir <= l.name && '/' !in l.name[|dir|..])
    && (forall l, l' | l in listing && l' in listing :: |l.stamp| == |l'.stamp|)
  }

  // No two files of it are copied to one name.
  lemma ListedApart(listing: seq<Listed>, dir: string, tmpdir: string, l: Listed, l': Listed)
    requires OfDirectory(listing, dir) && l in listing && l' in listing
    requires CopyName(tmpdir, l) == CopyName(tmpdir, l')
    ensures l == l'
  {
    hide CopyName, NamePart;
    CopyNamesApart(tmpdir, l, l');
    assert l.name == dir + l.name[|dir|..] && l'.name == dir + l'.name[|dir|..];
    NamePartOf(dir, l.name[|dir|..]);
    NamePartOf(dir, l'.name[|dir|..]);
    var i :| 0 <= i < |listing| && listing[i] == l;
    var j :| 0 <= j < |listing| && listing[j] == l';
  }

  // ----- The directory -----

  type Disk = map<string, Bytes>

  function Without(disk: Disk, gone: seq<string>): Disk {
    map f | f in disk && f !in gone :: disk[f]
  }

  lemma WithoutNone(disk: Disk)
    ensures Without(disk, []) == disk
  {
  }

  lemma WithoutAppend(disk: Disk, a: seq<string>, b: seq<string>)
    ensures Without(Without(disk, a), b) == Without(disk, a + b)
  {
  }

  // Whether a visit gets to copy the file.
  predicate Copying(e: Option<Entry>, l: Listed) {
    e.Some? && e.value.mtime == l.mtime && e.value.seen && !e.value.collected && l.copied
  }

  function DiskAfterVisit(disk: Disk, e: Option<Entry>, l: Listed, tmpdir: string, debug: bool): Disk {
    if Copying(e, l)
    then Without(disk[CopyName(tmpdir, l) := l.content], UnlinkedByVisit(e, l, tmpdir, debug))
    else disk
  }

  function DiskAfterAll(disk: Disk, index: Index, listing: seq<Listed>, tmpdir: string, debug: bool): Disk {
    if listing == [] then disk else
      var init, l := listing[..|listing| - 1], listing[|listing| - 1];
      DiskAfterVisit(DiskAfterAll(disk, index, init, tmpdir, debug), Get(VisitAll(index, init, tmpdir), l.name), l,
                     tmpdir, debug)
  }

  function DiskAfterScan(disk: Disk, index: Index, listing: seq<Listed>, tmpdir: string, debug: bool): Disk {
    DiskAfterAll(disk, Forget(index, listing), listing, tmpdir, debug)
  }

  // The copies a pass removes that gets to some of the files.
  function Collected(index: Index, done: set<string>, debug: bool): set<string> {
    set name | name in index && name in done && ToBeCollected(index[name]) && !debug :: index[name].copy
  }

  function DiskAfterPass(disk: Disk, index: Index, done: set<string>, debug: bool): Disk {
    map f | f in disk && f !in Collected(index, done, debug) :: disk[f]
  }

  lemma PassRemoves(disk: Disk, index: Index, done: set<string>, name: string, debug: bool)
    requires name in index
    ensures DiskAfterPass(disk, index, done + {name}, debug) ==
            Without(DiskAfterPass(disk, index, done, debug), UnlinkedByCollect(index[name], debug))
  {
    CollectedNext(index, done, name, debug);
  }

  lemma PassLeaves(disk: Disk, index: Index, debug: bool)
    ensures DiskAfterPass(disk, index, {}, debug) == disk
  {
    assert Collected(index, {}, debug) == {};
  }

  lemma CollectedNext(index: Index, done: set<string>, name: string, debug: bool)
    requires name in index
    ensures Collected(index, done + {name}, debug) ==
            Collected(index, done, debug) + if ToBeCollected(index[name]) && !debug then {index[name].copy} else {}
  {
    hide ToBeCollected;
  }

  // ----- Copies are of the file they are held for -----

  // What each file held when the copy was made that is held for it.
  function TakenAfterVisit(taken: Disk, e: Option<Entry>, l: Listed): Disk {
    if Copying(e, l) && l.restat == Some(l.mtime) then taken[l.name := l.content] else taken
  }

  function TakenAfterAll(taken: Disk, index: Index, listing: seq<Listed>, tmpdir: string): Disk {
    if listing == [] then taken else
      var init, l := listing[..|listing| - 1], listing[|listing| - 1];
      TakenAfterVisit(TakenAfterAll(taken, index, init, tmpdir), Get(VisitAll(index, init, tmpdir), l.name), l)
  }

  function TakenAfterScan(taken: Disk, index: Index, listing: seq<Listed>, tmpdir: string): Disk {
    TakenAfterAll(taken, Forget(index, listing), listing, tmpdir)
  }

  // No copy is held for two files.
  ghost predicate CopiesApart(index: Index) {
    forall n, n' | n in index && n' in index && n != n' && index[n].copy != "" :: index[n].copy != index[n'].copy
  }

  ghost predicate Own(index: Index, disk: Disk, taken: Disk) {
    && CopiesApart(index)
    && forall n | n in index && index[n].copy != "" && index[n].copy in disk ::
         n in taken && disk[index[n].copy] == taken[n]
  }

  // The names of these copies are not in use: the clock has moved on.
  ghost predicate Unused(index: Index, l: Listed, tmpdir: string) {
    forall n | n in index :: index[n].copy != CopyName(tmpdir, l)
  }

  // What a visit does to the copy that is held for the file.
  lemma VisitCopies(e: Option<Entry>, l: Listed, tmpdir: string)
    ensures var v := Visit(e, l, tmpdir);
      v.Some? ==>
        v.value.copy == if Copying(e, l) && l.restat == Some(l.mtime) then CopyName(tmpdir, l)
                        else if e.Some? then e.value.copy else ""
  {
  }

  lemma VisitWrites(disk: Disk, e: Option<Entry>, l: Listed, tmpdir: string, debug: bool)
    requires e.Some? ==> e.value.copy != CopyName(tmpdir, l)
    ensures var disk' := DiskAfterVisit(disk, e, l, tmpdir, debug);
      && (forall f | f in disk' && f != CopyName(tmpdir, l) :: f in disk && disk'[f] == disk[f])
      && (Copying(e, l) && l.restat == Some(l.mtime) ==>
            CopyName(tmpdir, l) in disk' && disk'[CopyName(tmpdir, l)] == l.content)
  {
    hide CopyName;
  }

  lemma VisitOwn(index: Index, disk: Disk, taken: Disk, l: Listed, tmpdir: string, debug: bool)
    requires Own(index, disk, taken) && Unused(index, l, tmpdir)
    ensures var e := Get(index, l.name);
      Own(Set(index, l.name, Visit(e, l, tmpdir)), DiskAfterVisit(disk, e, l, tmpdir, debug),
          TakenAfterVisit(taken, e, l))
  {
    hide CopyName, Visit, DiskAfterVisit, Copying;
    var e := Get(index, l.name);
    VisitCopies(e, l, tmpdir);
    VisitWrites(disk, e, l, tmpdir, debug);
  }

  lemma VisitUnused(index: Index, l: Listed, l': Listed, tmpdir: string)
    requires Unused(index, l', tmpdir) && CopyName(tmpdir, l) != CopyName(tmpdir, l')
    ensures Unused(Set(index, l.name, Visit(Get(index, l.name), l, tmpdir)), l', tmpdir)
  {
    hide Visit, Copying;
    VisitCopies(Get(index, l.name), l, tmpdir);
  }

  lemma {:induction false} AllOwn(index: Index, disk: Disk, taken: Disk, listing: seq<Listed>, k: nat, dir: string,
                                  tmpdir: string, debug: bool)
    requires Own(index, disk, taken) && OfDirectory(listing, dir) && k <= |listing|
    requires forall l | l in listing :: Unused(index, l, tmpdir)
    ensures var index' := VisitAll(index, listing[..k], tmpdir);
      && Own(index', DiskAfterAll(disk, index, listing[..k], tmpdir, debug),
             TakenAfterAll(taken, index, listing[..k], tmpdir))
      && forall j: nat | k <= j < |listing| :: Unused(index', listing[j], tmpdir)
  {
    hide Own, Unused, Visit, DiskAfterVisit, TakenAfterVisit, CopyName;
    if k > 0 {
      AllOwn(index, disk, taken, listing, k - 1, dir, tmpdir, debug);
      var init, l := listing[..k - 1], listing[k - 1];
      assert listing[..k][..k - 1] == init;
      var before := VisitAll(index, init, tmpdir);
      VisitOwn(before, DiskAfterAll(disk, index, init, tmpdir, debug), TakenAfterAll(taken, index, init, tmpdir), l,
               tmpdir, debug);
      forall j: nat | k <= j < |listing|
        ensures Unused(Set(before, l.name, Visit(Get(before, l.name), l, tmpdir)), listing[j], tmpdir)
      {
        if CopyName(tmpdir, l) == CopyName(tmpdir, listing[j]) {
          ListedApart(listing, dir, tmpdir, l, listing[j]);
        }
        assert listing[k - 1].name != listing[j].name;
        VisitUnused(before, l, listing[j], tmpdir);
      }
    }
  }

  lemma ForgetOwn(index: Index, disk: Disk, taken: Disk, listing: seq<Listed>)
    requires Own(index, disk, taken)
    ensures Own(Forget(index, listing), disk, taken)
  {
  }

  // A scan keeps it so that what is on the disk as the copy of a file is what that file held.
  lemma ScanOwn(index: Index, disk: Disk, taken: Disk, listing: seq<Listed>, dir: string, tmpdir: string, debug: bool)
    requires Own(index, disk, taken) && OfDirectory(listing, dir)
    requires forall l | l in listing :: Unused(index, l, tmpdir)
    ensures Own(Scan(index, listing, tmpdir), DiskAfterScan(disk, index, listing, tmpdir, debug),
                TakenAfterScan(taken, index, listing, tmpdir))
  {
    hide Own, VisitAll, DiskAfterAll, TakenAfterAll, Unused;
    ForgetOwn(index, disk, taken, listing);
    if listing == [] {
      NoneVisited(disk, taken, Forget(index, listing), tmpdir, debug);
    } else {
      forall l | l in listing
        ensures Unused(Forget(index, listing), l, tmpdir)
      {
        StillUnused(index, listing, l, tmpdir);
      }
      AllOwn(Forget(index, listing), disk, taken, listing, |listing|, dir, tmpdir, debug);
      assert listing[..|listing|] == listing;
    }
  }

  lemma NoneVisited(disk: Disk, taken: Disk, index: Index, tmpdir: string, debug: bool)
    ensures DiskAfterAll(disk, index, [], tmpdir, debug) == disk && TakenAfterAll(taken, index, [], tmpdir) == taken
  {
  }

  lemma StillUnused(index: Index, listing: seq<Listed>, l: Listed, tmpdir: string)
    requires Unused(index, l, tmpdir)
    ensures Unused(Forget(index, listing), l, tmpdir)
  {
  }

  // So does a pass.
  lemma PassOwn(index: Index, disk: Disk, taken: Disk, copies: Copies, done: set<string>, debug: bool)
    requires Own(index, disk, taken)
    ensures Own(CollectAll(index, copies, done), DiskAfterPass(disk, index, done, debug), taken)
  {
    hide CollectEntry;
    var after := CollectAll(index, copies, done);
    forall n | n in index
      ensures after[n].copy == index[n].copy || after[n].copy == ""
    {
      CollectedCopy(index[n], copies);
    }
  }

  lemma CollectedCopy(e: Entry, copies: Copies)
    ensures CollectEntry(e, copies).copy == e.copy || CollectEntry(e, copies).copy == ""
  {
  }

  // ----- Nothing is left behind -----

  ghost predicate HeldFor(index: Index, f: string) {
    exists n :: n in index && index[n].copy == f
  }

  // Every file in the directory is the copy held for some file.
  ghost predicate AllHeld(index: Index, disk: Disk) {
    "" !in disk && forall f | f in disk :: HeldFor(index, f)
  }

  // Outside debugging a visit leaves no other copy on the disk than the one that is then held for the file.
  lemma VisitLeaves(disk: Disk, e: Option<Entry>, l: Listed, tmpdir: string)
    requires var v := Visit(e, l, tmpdir); v.Some?
    ensures var v, disk' := Visit(e, l, tmpdir), DiskAfterVisit(disk, e, l, tmpdir, false);
      forall f | f in disk' && f != "" :: f == v.value.copy || (f in disk && (e.Some? ==> f != e.value.copy))
  {
    hide CopyName;
  }

  lemma VisitHeld(index: Index, disk: Disk, l: Listed, tmpdir: string)
    requires AllHeld(index, disk) && Visit(Get(index, l.name), l, tmpdir).Some?
    ensures var e := Get(index, l.name);
      AllHeld(Set(index, l.name, Visit(e, l, tmpdir)), DiskAfterVisit(disk, e, l, tmpdir, false))
  {
    hide CopyName, Visit;
    var e := Get(index, l.name);
    var index', disk' := Set(index, l.name, Visit(e, l, tmpdir)), DiskAfterVisit(disk, e, l, tmpdir, false);
    VisitLeaves(disk, e, l, tmpdir);
    assert CopyName(tmpdir, l) != "";
    forall f | f in disk'
      ensures HeldFor(index', f)
    {
      if f == index'[l.name].copy {
        assert l.name in index';
      } else {
        var n :| n in index && index[n].copy == f;
        assert n in index' && index'[n].copy == f;
      }
    }
  }

  lemma {:induction false} AllVisitsHeld(index: Index, disk: Disk, listing: seq<Listed>, tmpdir: string)
    requires AllHeld(index, disk) && Distinct(listing)
    requires forall l | l in listing :: Visit(Get(index, l.name), l, tmpdir).Some?
    ensures AllHeld(VisitAll(index, listing, tmpdir), DiskAfterAll(disk, index, listing, tmpdir, false))
    decreases |listing|
  {
    hide AllHeld, Visit, DiskAfterVisit;
    if listing != [] {
      var init, l := listing[..|listing| - 1], listing[|listing| - 1];
      assert l in listing && forall x | x in init :: x in listing;
      AllVisitsHeld(index, disk, init, tmpdir);
      NotIn(listing);
      VisitAllEach(index, init, tmpdir, l.name);
      VisitHeld(VisitAll(index, init, tmpdir), DiskAfterAll(disk, index, init, tmpdir, false), l, tmpdir);
    }
  }

  lemma NotIn(listing: seq<Listed>)
    requires listing != [] && Distinct(listing)
    ensures listing[|listing| - 1].name !in Names(listing[..|listing| - 1])
  {
  }

  // A scan that drops no file, and a pass, keep it so.
  lemma ScanHeld(index: Index, disk: Disk, listing: seq<Listed>, tmpdir: string)
    requires AllHeld(index, disk) && Distinct(listing)
    requires forall n | n in index :: n in Scan(index, listing, tmpdir)
    ensures AllHeld(Scan(index, listing, tmpdir), DiskAfterScan(disk, index, listing, tmpdir, false))
  {
    hide AllHeld, VisitAll, DiskAfterAll, Visit;
    if listing == [] {
      NoneVisited(disk, disk, Forget(index, listing), tmpdir, false);
    } else {
      forall n | n in index
        ensures n in Names(listing)
      {
        if n !in Names(listing) {
          NotListed(index, listing, tmpdir, n);
        }
      }
      assert Forget(index, listing) == index;
      forall l | l in listing
        ensures Visit(Get(index, l.name), l, tmpdir).Some?
      {
        ScanEach(index, listing, tmpdir, l);
        KnownOrNew(index, l, tmpdir);
      }
      AllVisitsHeld(index, disk, listing, tmpdir);
    }
  }

  lemma KnownOrNew(index: Index, l: Listed, tmpdir: string)
    ensures l.name !in index ==> Visit(Get(index, l.name), l, tmpdir).Some?
  {
  }

  lemma PassHeld(index: Index, disk: Disk, copies: Copies, done: set<string>)
    requires AllHeld(index, disk)
    ensures AllHeld(CollectAll(index, copies, done), DiskAfterPass(disk, index, done, false))
  {
    hide CollectEntry, ToBeCollected;
    var after, disk' := CollectAll(index, copies, done), DiskAfterPass(disk, index, done, false);
    forall f | f in disk'
      ensures HeldFor(after, f)
    {
      var n :| n in index && index[n].copy == f;
      CopyKept(index[n], copies);
      assert n in after && after[n].copy == f;
    }
  }

  lemma CopyKept(e: Entry, copies: Copies)
    ensures !ToBeCollected(e) ==> CollectEntry(e, copies) == e
  {
  }
}
