/** The collector as the source has it: entries are objects updated in place, held in a map by file name. */
module Collector {
  import opened Text
  import opened Crc
  import opened Increments
  import opened FileEntries
  import opened Scanning
  import opened Persistence
  import opened CopyDisk

  class FInfo {
    const name: string
    var mtime: int
    var offset: int
    var crc: bv32
    var collected: bool
    var seen: bool
    var fcopy: string

    constructor (name: string, mtime: int, offset: int, crc: bv32)
      ensures this.name == name && Value() == Entry(name, mtime, offset, crc, false, false, "")
    {
      this.name, this.mtime, this.offset, this.crc := name, mtime, offset, crc;
      collected, seen, fcopy := false, false, "";
    }

    function Value(): Entry
      reads this
    {
      Entry(name, mtime, offset, crc, collected, seen, fcopy)
    }

    predicate IsToBeCollected()
      reads this
      ensures IsToBeCollected() == ToBeCollected(Value())
    {
      !collected && seen && fcopy != ""
    }

    // The name of the copy is forgotten; the copy itself is removed unless debugging.
    method RemoveCopy(removefile: bool) returns (unlinked: Option<string>)
      modifies this`fcopy
      ensures fcopy == ""
      ensures unlinked == if old(fcopy) != "" && removefile then Some(old(fcopy)) else None
    {
      unlinked := None;
      if fcopy != "" {
        if removefile {
          unlinked := Some(fcopy);
        }
        fcopy := "";
      }
    }

    // A stat request; false stands for the StatException.
    method MtimeNow(stat: Option<int>) returns (ok: bool)
      modifies this`mtime
      ensures ok == stat.Some?
      ensures mtime == if stat.Some? then stat.value else old(mtime)
    {
      if stat.None? {
        return false;
      }
      mtime := stat.value;
      ok := true;
    }
  }

  class CollectWmoReports {
    var fileInfoList: map<string, FInfo>
    // The directory of copies.
    var disk: Disk
    const tmpdir: string
    const debug: bool

    constructor (tmpdir: string, debug: bool)
      ensures Valid() && Contents() == map[] && disk == map[] && this.tmpdir == tmpdir && this.debug == debug
    {
      fileInfoList, disk := map[], map[];
      this.tmpdir, this.debug := tmpdir, debug;
    }

    // The map as readFInfoList has filled it, and the copies that were left on the disk.
    constructor FromState(tmpdir: string, debug: bool, index: Index, disk: Disk)
      requires AllFresh(index)
      ensures Valid() && Contents() == index && this.disk == disk && this.tmpdir == tmpdir && this.debug == debug
      ensures fresh(Entries())
    {
      fileInfoList, this.disk := map[], disk;
      this.tmpdir, this.debug := tmpdir, debug;
      new;
      var left := index.Keys;
      while left != {}
        invariant left <= index.Keys && fileInfoList.Keys == index.Keys - left && this.disk == disk
        invariant forall name | name in fileInfoList ::
          fresh(fileInfoList[name]) && fileInfoList[name].Value() == index[name]
        decreases |left|
      {
        var name :| name in left;
        var e := index[name];
        var fi := new FInfo(name, e.mtime, e.offset, e.crc);
        fileInfoList := fileInfoList[name := fi];
        left := left - {name};
      }
    }

    // Every entry is held under its own name, so that no entry is held twice.
    ghost predicate Valid()
      reads this`fileInfoList
    {
      forall name | name in fileInfoList :: fileInfoList[name].name == name
    }

    ghost function Entries(): set<FInfo>
      reads this`fileInfoList
    {
      set name | name in fileInfoList :: fileInfoList[name]
    }

    function Contents(): Index
      reads this`fileInfoList, Entries()
    {
      map name | name in fileInfoList :: fileInfoList[name].Value()
    }

    // getNewObsPart: what is new, and what is remembered of it.
    method GetNewObsPart(obs: Bytes, it: FInfo) returns (newObs: Bytes)
      modifies it
      ensures newObs == NewPart(old(it.offset), old(it.crc), obs)
      ensures it.Value() == old(it.Value()).(offset := |obs|, crc := CrcOf(obs))
    {
      hide Checksum, Wide;
      if it.offset > 0 {
        if it.offset <= |obs| {
          var sub := obs[..it.offset];
          var crc := CrcOfString(sub);
          if crc == it.crc {
            newObs := obs[it.offset..];
          } else {
            newObs := obs;
          }
        } else {
          newObs := obs;
        }
      } else {
        newObs := obs;
      }
      it.offset := |obs|;
      it.crc := CrcOfString(obs);
    }

    // copyFile: false when the entry has been erased.
    method CopyFile(it: FInfo, l: Listed) returns (kept: bool, unlinked: seq<string>)
      requires Valid() && it.name == l.name && it.name in fileInfoList && fileInfoList[it.name] == it
      modifies this`fileInfoList, this`disk, it
      ensures Valid() && kept == (it.name in fileInfoList)
      ensures fileInfoList == if kept then old(fileInfoList) else old(fileInfoList) - {it.name}
      ensures (if kept then Some(it.Value()) else None) == Scanning.CopyFile(old(it.Value()), l, tmpdir)
      ensures unlinked == UnlinkedByCopy(old(it.Value()), l, tmpdir, debug)
      ensures disk == if l.copied then Without(old(disk)[CopyName(tmpdir, l) := l.content], unlinked) else old(disk)
    {
      var oldtime := it.mtime;
      var tofile := CopyName(tmpdir, l);
      unlinked := [];
      if !l.copied {
        fileInfoList := fileInfoList - {it.name};
        return false, unlinked;
      }
      disk := disk[tofile := l.content];
      WithoutNone(disk);
      var ok := it.MtimeNow(l.restat);
      if !ok {
        fileInfoList := fileInfoList - {it.name};
        return false, unlinked;
      }
      if it.mtime != oldtime {
        unlinked := [tofile];
        it.seen := false;
        it.collected := false;
      } else {
        var removed := it.RemoveCopy(!debug);
        if removed.Some? {
          unlinked := [removed.value];
        }
        it.fcopy := tofile;
      }
      disk := Without(disk, unlinked);
      kept := true;
    }

    // The first loop of checkForNewObservations: entries of files that are gone are erased.
    method Erase(fileList: seq<Listed>)
      requires Valid()
      modifies this`fileInfoList
      ensures Valid() && Contents() == Forget(old(Contents()), fileList) && Entries() <= old(Entries())
    {
      var left := fileInfoList.Keys;
      ghost var before := fileInfoList;
      while left != {}
        invariant Valid() && left <= before.Keys
        invariant fileInfoList == map name | name in before && (name in left || name in Names(fileList)) :: before[name]
        decreases |left|
      {
        var name :| name in left;
        var i := 0;
        while i < |fileList| && fileList[i].name != name
          invariant i <= |fileList| && forall j | 0 <= j < i :: fileList[j].name != name
        {
          i := i + 1;
        }
        if i == |fileList| {
          fileInfoList := fileInfoList - {name};
        } else {
          assert fileList[i] in fileList;
        }
        left := left - {name};
      }
    }

    // One round of the second loop for a file that is known already.
    method VisitKnownFile(fiIt: FInfo, l: Listed) returns (there: bool, unlinked: seq<string>)
      requires Valid() && fiIt.name == l.name && l.name in fileInfoList && fileInfoList[l.name] == fiIt
      modifies this`fileInfoList, this`disk, fiIt
      ensures Valid() && there == (l.name in fileInfoList)
      ensures fileInfoList == if there then old(fileInfoList) else old(fileInfoList) - {l.name}
      ensures (if there then Some(fiIt.Value()) else None) == VisitKnown(old(fiIt.Value()), l, tmpdir)
      ensures unlinked == UnlinkedByVisit(Some(old(fiIt.Value())), l, tmpdir, debug)
      ensures disk == DiskAfterVisit(old(disk), Some(old(fiIt.Value())), l, tmpdir, debug)
    {
      there, unlinked := true, [];
      if fiIt.mtime != l.mtime {
        var ok := fiIt.MtimeNow(l.restat);
        if ok {
          fiIt.seen := false;
          fiIt.collected := false;
        } else {
          fileInfoList := fileInfoList - {l.name};
          there := false;
        }
      } else if fiIt.seen {
        if !fiIt.collected {
          there, unlinked := CopyFile(fiIt, l);
        }
      } else {
        fiIt.seen := true;
      }
    }

    // When only the entry of one file has changed, so has only its place in the index.
    twostate lemma OneChanged(name: string)
      requires old(Valid()) && Valid()
      requires forall n | n in old(fileInfoList) && n != name ::
        n in fileInfoList && fileInfoList[n] == old(fileInfoList[n]) &&
        fileInfoList[n].Value() == old(fileInfoList[n].Value())
      requires forall n | n in fileInfoList && n != name :: n in old(fileInfoList)
      ensures Contents() == Set(old(Contents()), name,
                                if name in fileInfoList then Some(fileInfoList[name].Value()) else None)
    {
    }

    // One round of the second loop; true if the file is to be collected.
    method VisitFile(l: Listed) returns (pending: bool, unlinked: seq<string>)
      requires Valid()
      modifies this`fileInfoList, this`disk, Entries()
      ensures Valid() && fresh(Entries() - old(Entries()))
      ensures Contents() == Set(old(Contents()), l.name, Visit(Get(old(Contents()), l.name), l, tmpdir))
      ensures pending == var e := Get(Contents(), l.name); e.Some? && ToBeCollected(e.value)
      ensures unlinked == UnlinkedByVisit(Get(old(Contents()), l.name), l, tmpdir, debug)
      ensures disk == DiskAfterVisit(old(disk), Get(old(Contents()), l.name), l, tmpdir, debug)
    {
      hide VisitKnown, UnlinkedByCopy;
      var there := true;
      unlinked := [];
      if l.name !in fileInfoList {
        var fi := new FInfo(l.name, l.mtime, 0, 0);
        fileInfoList := fileInfoList[l.name := fi];
      } else {
        var fiIt := fileInfoList[l.name];
        there, unlinked := VisitKnownFile(fiIt, l);
      }
      OneChanged(l.name);
      pending := false;
      if there && fileInfoList[l.name].IsToBeCollected() {
        pending := true;
      }
    }

    // checkForNewObservations: true if there are files to be collected.
    method CheckForNewObservations(fileList: seq<Listed>)
      returns (hasNewFilesToCollect: bool, unlinked: seq<string>)
      requires Valid()
      modifies this`fileInfoList, this`disk, Entries()
      ensures Valid() && fresh(Entries() - old(Entries()))
      ensures Contents() == Scan(old(Contents()), fileList, tmpdir)
      ensures hasNewFilesToCollect == HasNewFiles(old(Contents()), fileList, tmpdir)
      ensures unlinked == UnlinkedByAll(Forget(old(Contents()), fileList), fileList, tmpdir, debug)
      ensures disk == DiskAfterScan(old(disk), old(Contents()), fileList, tmpdir, debug)
    {
      hide Visit, Forget, UnlinkedByVisit, DiskAfterVisit;
      hasNewFilesToCollect, unlinked := false, [];
      if fileList == [] {
        return;
      }
      ghost var index := old(Contents());
      Erase(fileList);
      var i := 0;
      assert fileList[..0] == [];
      while i < |fileList|
        invariant i <= |fileList| && Valid() && fresh(Entries() - old(Entries()))
        invariant Contents() == VisitAll(Forget(index, fileList), fileList[..i], tmpdir)
        invariant hasNewFilesToCollect == AnyPending(Forget(index, fileList), fileList[..i], tmpdir)
        invariant unlinked == UnlinkedByAll(Forget(index, fileList), fileList[..i], tmpdir, debug)
        invariant disk == DiskAfterAll(old(disk), Forget(index, fileList), fileList[..i], tmpdir, debug)
      {
        assert fileList[..i + 1][..i] == fileList[..i];
        var pending, removed := VisitFile(fileList[i]);
        unlinked := unlinked + removed;
        if pending {
          hasNewFilesToCollect := true;
        }
        i := i + 1;
      }
      assert fileList[..i] == fileList;
    }

    // One round of collectObservations; the part is empty if there is nothing to hand on.
    method CollectFile(it: FInfo, copies: Copies) returns (newObsPart: Bytes, unlinked: seq<string>)
      modifies it, this`disk
      ensures it.Value() == CollectEntry(old(it.Value()), copies)
      ensures newObsPart == HandedPart(old(it.Value()), copies)
      ensures unlinked == UnlinkedByCollect(old(it.Value()), debug)
      ensures disk == Without(old(disk), unlinked)
    {
      newObsPart, unlinked := [], [];
      WithoutNone(disk);
      if it.IsToBeCollected() {
        var fromfile := it.fcopy;
        if fromfile !in copies.contents {
          if !debug {
            unlinked := [fromfile];
            disk := Without(disk, unlinked);
          }
          // the name of the copy stays
          it.seen := false;
          it.collected := false;
          return;
        }
        var removed := it.RemoveCopy(!debug);
        if removed.Some? {
          unlinked := [removed.value];
          disk := Without(disk, unlinked);
        }
        if fromfile !in copies.stats {
          it.seen := false;
          it.collected := false;
          return;
        }
        newObsPart := GetNewObsPart(copies.contents[fromfile], it);
        it.collected := true;
      }
    }

    // One round of the pass, as a step of the index.
    method CollectNamed(name: string, copies: Copies) returns (newObsPart: Bytes, unlinked: seq<string>)
      requires Valid() && name in fileInfoList
      modifies fileInfoList[name], this`disk
      ensures Valid()
      ensures Contents() == old(Contents())[name := CollectEntry(old(Contents())[name], copies)]
      ensures newObsPart == HandedPart(old(Contents())[name], copies)
      ensures unlinked == UnlinkedByCollect(old(Contents())[name], debug)
      ensures disk == Without(old(disk), unlinked)
    {
      hide CollectEntry, HandedPart, UnlinkedByCollect;
      newObsPart, unlinked := CollectFile(fileInfoList[name], copies);
      OneChanged(name);
    }

    // One round of the pass, as far as it has come.
    method CollectNext(name: string, copies: Copies, handed: seq<(string, Bytes)>, unlinked: seq<string>,
                       ghost order: seq<string>, ghost done: set<string>, ghost index: Index, ghost disk0: Disk)
      returns (handed': seq<(string, Bytes)>, unlinked': seq<string>)
      requires Valid() && name in fileInfoList && name !in done
      requires PassIs(order, done, handed, unlinked, Contents(), disk, index, copies, disk0, debug)
      modifies fileInfoList[name], this`disk
      ensures Valid()
      ensures PassIs(order + [name], done + {name}, handed', unlinked', Contents(), disk, index, copies, disk0, debug)
    {
      hide CollectEntry, HandedPart, UnlinkedByCollect, PassIs, Contents, Without;
      SameKeys();
      PassGoesOn(order, done, handed, unlinked, Contents(), disk, index, copies, disk0, debug, name);
      var newObsPart, removed := CollectNamed(name, copies);
      handed' := if newObsPart != [] then handed + [(name, newObsPart)] else handed;
      unlinked' := unlinked + removed;
    }

    // collectObservations: a pass over the entries, in some order, that ends early when a shutdown is asked
    // for. Parts that are not empty are handed on.
    method CollectObservations(copies: Copies, roundsBeforeShutdown: nat)
      returns (handed: seq<(string, Bytes)>, unlinked: seq<string>, ghost order: seq<string>, ghost done: set<string>)
      requires Valid()
      modifies Entries(), this`disk
      ensures Valid() && fileInfoList == old(fileInfoList)
      ensures Enumerates(order, done) && done <= fileInfoList.Keys
      ensures if |fileInfoList| <= roundsBeforeShutdown then done == fileInfoList.Keys
              else |order| == roundsBeforeShutdown
      ensures Contents() == CollectAll(old(Contents()), copies, done)
      ensures handed == PassParts(order, old(Contents()), copies)
      ensures unlinked == PassUnlinked(order, old(Contents()), debug)
      ensures disk == DiskAfterPass(old(disk), old(Contents()), done, debug)
    {
      hide *;
      ghost var index := old(Contents());
      handed, unlinked, order, done := [], [], [], {};
      SameKeys();
      PassBegins(index, copies, disk, debug);
      AllLeft(fileInfoList.Keys);
      var left := fileInfoList.Keys;
      var rounds := 0;
      while left != {} && rounds < roundsBeforeShutdown
        invariant Valid() && LeftOver(fileInfoList.Keys, left, done) && |order| == rounds <= roundsBeforeShutdown
        invariant PassIs(order, done, handed, unlinked, Contents(), disk, index, copies, old(disk), debug)
        decreases |left|
      {
        var name :| name in left;
        NextLeft(fileInfoList.Keys, left, done, name);
        EntryHeld(name);
        handed, unlinked := CollectNext(name, copies, handed, unlinked, order, done, index, old(disk));
        left := left - {name};
        order, done := order + [name], done + {name};
        rounds := rounds + 1;
      }
      PassEnds(order, done, handed, unlinked, Contents(), disk, index, copies, old(disk), debug);
      EnumeratesSize(order, done);
      LeftCounted(fileInfoList.Keys, left, done);
    }

    lemma EntryHeld(name: string)
      ensures name in fileInfoList ==> fileInfoList[name] in Entries()
    {
    }

    // What other objects do leaves the index as it is.
    twostate lemma Untouched()
      requires fileInfoList == old(fileInfoList)
      requires forall name | name in fileInfoList :: fileInfoList[name].Value() == old(fileInfoList[name].Value())
      ensures Contents() == old(Contents()) && (old(Valid()) ==> Valid())
    {
    }

    lemma ContentsAt(name: string)
      ensures name in Contents() <==> name in fileInfoList
      ensures name in fileInfoList ==> Contents()[name] == fileInfoList[name].Value()
    {
    }

    lemma SameKeys()
      ensures Contents().Keys == fileInfoList.Keys
    {
    }
  }

  function PassParts(order: seq<string>, index: Index, copies: Copies): seq<(string, Bytes)>
    requires forall name | name in order :: name in index
  {
    if order == [] then [] else
      var name := order[|order| - 1];
      assert name in order;
      var part := HandedPart(index[name], copies);
      PassParts(order[..|order| - 1], index, copies) + if part != [] then [(name, part)] else []
  }

  function PassUnlinked(order: seq<string>, index: Index, debug: bool): seq<string>
    requires forall name | name in order :: name in index
  {
    if order == [] then [] else
      var name := order[|order| - 1];
      assert name in order;
      PassUnlinked(order[..|order| - 1], index, debug) + UnlinkedByCollect(index[name], debug)
  }

  // How far a pass has come.
  ghost predicate PassIs(order: seq<string>, done: set<string>, handed: seq<(string, Bytes)>, unlinked: seq<string>,
                         contents: Index, disk: Disk, index: Index, copies: Copies, disk0: Disk, debug: bool)
  {
    && Enumerates(order, done) && done <= index.Keys
    && contents == CollectAll(index, copies, done)
    && handed == PassParts(order, index, copies)
    && unlinked == PassUnlinked(order, index, debug)
    && disk == DiskAfterPass(disk0, index, done, debug)
  }

  lemma PassBegins(index: Index, copies: Copies, disk: Disk, debug: bool)
    ensures PassIs([], {}, [], [], index, disk, index, copies, disk, debug)
  {
    hide CollectAll, PassParts, PassUnlinked;
    PassNone(index, copies, debug);
    EnumeratesNone();
    PassLeaves(disk, index, debug);
  }

  lemma PassGoesOn(order: seq<string>, done: set<string>, handed: seq<(string, Bytes)>, unlinked: seq<string>,
                   contents: Index, disk: Disk, index: Index, copies: Copies, disk0: Disk, debug: bool, name: string)
    requires PassIs(order, done, handed, unlinked, contents, disk, index, copies, disk0, debug)
    requires name in contents && name !in done
    ensures var part, more := HandedPart(contents[name], copies), UnlinkedByCollect(contents[name], debug);
      PassIs(order + [name], done + {name}, if part != [] then handed + [(name, part)] else handed, unlinked + more,
             contents[name := CollectEntry(contents[name], copies)], Without(disk, more), index, copies, disk0, debug)
  {
    hide CollectEntry, HandedPart, UnlinkedByCollect, PassParts, PassUnlinked, DiskAfterPass, Without;
    EnumeratesNext(order, done, name);
    PassNext(order, done, name, index, copies, debug);
    PassRemoves(disk0, index, done, name, debug);
  }

  lemma PassEnds(order: seq<string>, done: set<string>, handed: seq<(string, Bytes)>, unlinked: seq<string>,
                 contents: Index, disk: Disk, index: Index, copies: Copies, disk0: Disk, debug: bool)
    requires PassIs(order, done, handed, unlinked, contents, disk, index, copies, disk0, debug)
    ensures Enumerates(order, done) && done <= index.Keys && contents == CollectAll(index, copies, done)
    ensures handed == PassParts(order, index, copies) && unlinked == PassUnlinked(order, index, debug)
    ensures disk == DiskAfterPass(disk0, index, done, debug)
  {
  }

  // What a pass has still to get to.
  ghost predicate LeftOver(keys: set<string>, left: set<string>, done: set<string>) {
    left <= keys && done == keys - left
  }

  lemma AllLeft(keys: set<string>)
    ensures LeftOver(keys, keys, {})
  {
  }

  lemma NextLeft(keys: set<string>, left: set<string>, done: set<string>, name: string)
    requires LeftOver(keys, left, done) && name in left
    ensures name in keys && name !in done && LeftOver(keys, left - {name}, done + {name})
  {
  }

  lemma LeftCounted(keys: set<string>, left: set<string>, done: set<string>)
    requires LeftOver(keys, left, done)
    ensures |keys| == |left| + |done| && (left == {} ==> done == keys) && done <= keys
  {
    assert keys == left + done;
  }

  lemma PassNone(index: Index, copies: Copies, debug: bool)
    ensures CollectAll(index, copies, {}) == index && PassParts([], index, copies) == []
    ensures PassUnlinked([], index, debug) == []
  {
  }

  lemma PassNext(order: seq<string>, done: set<string>, name: string, index: Index, copies: Copies, debug: bool)
    requires (forall n | n in order :: n in index) && name in index && name !in done
    ensures var before := CollectAll(index, copies, done);
      && name in before && before[name] == index[name]
      && CollectAll(index, copies, done + {name}) == before[name := CollectEntry(index[name], copies)]
    ensures var part := HandedPart(index[name], copies);
      PassParts(order + [name], index, copies) ==
      if part != [] then PassParts(order, index, copies) + [(name, part)] else PassParts(order, index, copies)
    ensures PassUnlinked(order + [name], index, debug) ==
            PassUnlinked(order, index, debug) + UnlinkedByCollect(index[name], debug)
  {
    hide CollectEntry, HandedPart, UnlinkedByCollect;
    assert (order + [name])[..|order|] == order;
    assert forall n :: n in order + [name] <==> n in order || n == name;
  }
}
