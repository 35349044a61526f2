/** The class that splits the text of a file into bulletins and lists their reports by identifier. */
module WmoRaports {
  import opened Text
  import opened Streams
  import opened Framing
  import opened Deframer
  import opened Reports
  import opened Bulletins

  // The loop of removeEmptyKeys: keys that are blank are erased.
  method RemoveEmptyKeys(msgMap: MsgMap) returns (kept: MsgMap)
    ensures kept == map id | id in msgMap && Trim(id) != "" :: msgMap[id]
  {
    hide Trim;
    kept := msgMap;
    var left := msgMap.Keys;
    while left != {}
      invariant left <= msgMap.Keys
      invariant kept == map id | id in msgMap && (id in left || Trim(id) != "") :: msgMap[id]
      decreases |left|
    {
      var id :| id in left;
      if Trim(id) == "" {
        kept := kept - {id};
      }
      left := left - {id};
    }
  }

  // What a bulletin's reports add to the lists.
  ghost predicate Added(kind: WmoRaport, m: MsgMap, m': MsgMap, reports: seq<string>) {
    forall id :: Lookup(m', id) == Lookup(m, id) + Listed(kind, reports, id)
  }

  lemma AddedNone(kind: WmoRaport, m: MsgMap)
    ensures Added(kind, m, m, [])
  {
  }

  lemma AddedNext(kind: WmoRaport, m: MsgMap, m': MsgMap, reports: seq<string>, report: string)
    requires Added(kind, m, m', reports)
    ensures var rs := reports + [report];
      Added(kind, m, if IsListed(kind, rs) then PushBack(m', InForce(kind, rs).ident, Entry(kind, report)) else m', rs)
  {
    hide IsListed, InForce, Entry, Lookup, PushBack, Listed;
    var rs := reports + [report];
    var m1 := if IsListed(kind, rs) then PushBack(m', InForce(kind, rs).ident, Entry(kind, report)) else m';
    forall id
      ensures Lookup(m1, id) == Lookup(m, id) + Listed(kind, rs, id)
    {
      ListedStep(kind, reports, report, id);
      PushedLookup(m', InForce(kind, rs).ident, Entry(kind, report), id);
      assert Lookup(m', id) == Lookup(m, id) + Listed(kind, reports, id);
    }
  }

  lemma ListedStep(kind: WmoRaport, reports: seq<string>, report: string, id: string)
    ensures var rs := reports + [report];
      Listed(kind, rs, id) == if IsListed(kind, rs) && InForce(kind, rs).ident == id
                              then Listed(kind, reports, id) + [Entry(kind, report)] else Listed(kind, reports, id)
  {
    hide IsListed, InForce, Entry;
    assert (reports + [report])[..|reports|] == reports;
  }

  lemma PushedLookup(m: MsgMap, key: string, text: string, id: string)
    ensures Lookup(PushBack(m, key, text), id) == if id == key then Lookup(m, id) + [text] else Lookup(m, id)
  {
  }

  lemma InForceNext(kind: WmoRaport, reports: seq<string>, report: string)
    ensures var p := Parse(kind, report);
      InForce(kind, reports + [report]) == if p.ident != "" then p.(rest := "") else InForce(kind, reports)
  {
    assert (reports + [report])[..|reports|] == reports;
  }

  // No list is empty.
  ghost predicate NoEmptyList(m: MsgMap) {
    forall id | id in m :: m[id] != []
  }

  lemma RemovedTidy(kind: WmoRaport, m: MsgMap, m': MsgMap, m'': MsgMap, reports: seq<string>)
    requires Tidy(m) && Added(kind, m, m', reports) && NoEmptyList(m')
    requires m'' == map id | id in m' && Trim(id) != "" :: m'[id]
    ensures AddsTo(kind, m, m'', reports)
  {
    hide Trim, Listed;
    forall id | Trim(id) != ""
      ensures Lookup(m'', id) == Lookup(m, id) + Listed(kind, reports, id)
    {
      assert Lookup(m', id) == Lookup(m, id) + Listed(kind, reports, id);
    }
  }

  // The lists of one kind after the reports of one more bulletin.
  ghost predicate AddsTo(kind: WmoRaport, m: MsgMap, m': MsgMap, reports: seq<string>) {
    Tidy(m') && forall id | Trim(id) != "" :: Lookup(m', id) == Lookup(m, id) + Listed(kind, reports, id)
  }

  lemma NothingAdded(kind: WmoRaport, m: MsgMap)
    requires Tidy(m)
    ensures AddsTo(kind, m, m, [])
  {
  }

  // The lists of one kind after the bulletins that were handed over.
  ghost predicate Holds(kind: WmoRaport, m: MsgMap, m': MsgMap, bodies: seq<string>, collect: set<WmoRaport>) {
    && Tidy(m')
    && forall id | Trim(id) != "" :: Lookup(m', id) == Lookup(m, id) + FromBodies(kind, bodies, collect, id)
  }

  class WMORaport {
    var synop: MsgMap
    var metar: MsgMap
    var raportsToCollect: set<WmoRaport>

    constructor ()
      ensures synop == map[] && metar == map[] && raportsToCollect == {}
    {
      synop, metar, raportsToCollect := map[], map[], {};
    }

    method DoSynop(ist: InStream)
      requires Sound(ist) && Tidy(synop)
      modifies this`synop, ist
      ensures AddsTo(SYNOP, old(synop), synop, AllReports(old(ist.Rest())))
      ensures forall id | id in old(synop) :: id in synop
    {
      hide Lookup, Listed, Trim, SynopType, SynopIsNil, NextReport, TrimRight, CString, Entry, Parse, InForce, IsListed;
      ghost var all := AllReports(ist.Rest());
      ghost var m0 := synop;
      var skip, ident := false, "";
      var ok, line := ReadReport(ist);
      ghost var reports: seq<string> := [];
      AddedNone(SYNOP, synop);
      InForceNone(SYNOP);
      while ok
        invariant Sound(ist) && all == reports + (if ok then [line] + AllReports(ist.Rest()) else [])
        invariant Added(SYNOP, m0, synop, reports) && Tidy(synop)
        invariant InForce(SYNOP, reports) == Parsed(ident, skip, "")
        invariant forall id | id in m0 :: id in synop
        decreases ok, |ist.Rest()|
      {
        ghost var report := line;
        ghost var rs := reports + [report];
        AddedNext(SYNOP, m0, synop, reports, report);
        InForceNext(SYNOP, reports, report);
        SynopIdentNotBlank(rs);
        SynopEntry(reports, report);
        var what := SynopType(CString(TrimRight(line)));
        if what.ident != "" {
          ident := what.ident;
          skip := what.mobile;
        }
        line := what.rest;
        if line != "" && !skip && ident != "" {
          line := Trim(line);
          if !SynopIsNil(line) {
            PushedTidy(synop, ident, line);
            synop := PushBack(synop, ident, line);
          }
        }
        reports := rs;
        ok, line := ReadReport(ist);
        assert all == reports + (if ok then [line] + AllReports(ist.Rest()) else []);
      }
      assert all == reports;
      ghost var m1 := synop;
      synop := RemoveEmptyKeys(synop);
      TidyKept(m1, synop);
    }

    method DoMetar(ist: InStream)
      requires Sound(ist) && Tidy(metar)
      modifies this`metar, ist
      ensures AddsTo(METAR, old(metar), metar, AllReports(old(ist.Rest())))
    {
      hide Lookup, Listed, Trim, MetarType, NextReport, CString, Entry, Parse, InForce, IsListed;
      ghost var all := AllReports(ist.Rest());
      ghost var m0 := metar;
      var ident := "";
      var ok, line := ReadReport(ist);
      ghost var reports: seq<string> := [];
      AddedNone(METAR, metar);
      InForceNone(METAR);
      while ok
        invariant Sound(ist) && all == reports + (if ok then [line] + AllReports(ist.Rest()) else [])
        invariant Added(METAR, m0, metar, reports) && NoEmptyList(metar)
        invariant InForce(METAR, reports).ident == ident
        decreases ok, |ist.Rest()|
      {
        ghost var report := line;
        ghost var rs := reports + [report];
        AddedNext(METAR, m0, metar, reports, report);
        InForceNext(METAR, reports, report);
        MetarEntry(reports, report);
        var what := MetarType(CString(line));
        if what.ident != "" {
          ident := what.ident;
        }
        line := Trim(what.rest);
        if line != "" {
          PushedNoEmpty(metar, ident, line);
          metar := PushBack(metar, ident, line);
        }
        reports := rs;
        ok, line := ReadReport(ist);
        assert all == reports + (if ok then [line] + AllReports(ist.Rest()) else []);
      }
      assert all == reports;
      ghost var m1 := metar;
      metar := RemoveEmptyKeys(metar);
      RemovedTidy(METAR, m0, m1, metar, reports);
    }

    // The maps of the other kinds are not part of this model: their handlers change neither of these two.
    method DoDispatch(kind: WmoRaport, ist: InStream)
      requires Sound(ist) && Tidy(synop) && Tidy(metar)
      modifies this`synop, this`metar, ist
      ensures AddsTo(SYNOP, old(synop), synop,
                     if kind == SYNOP && Collects(kind, raportsToCollect) then AllReports(old(ist.Rest())) else [])
      ensures AddsTo(METAR, old(metar), metar,
                     if kind == METAR && Collects(kind, raportsToCollect) then AllReports(old(ist.Rest())) else [])
    {
      hide AddsTo, AllReports;
      NothingAdded(SYNOP, synop);
      NothingAdded(METAR, metar);
      if raportsToCollect != {} && kind !in raportsToCollect {
        return;
      }
      if kind == SYNOP {
        DoSynop(ist);
      } else if kind == METAR {
        DoMetar(ist);
      }
    }

    method Dispatch(msg: string)
      requires Tidy(synop) && Tidy(metar)
      modifies this`synop, this`metar
      ensures AddsTo(SYNOP, old(synop), synop, ReportsOf(SYNOP, msg, raportsToCollect))
      ensures AddsTo(METAR, old(metar), metar, ReportsOf(METAR, msg, raportsToCollect))
    {
      hide AddsTo, AllReports, FirstLine, IsHeading;
      NothingAdded(SYNOP, synop);
      NothingAdded(METAR, metar);
      var ist := new InStream(msg);
      assert ist.Rest() == msg;
      var buf := SkipEmptyLines(ist);
      if buf == "" {
        return;
      }
      HeadingsDiffer(buf);
      if HasHeading(SYNOP, buf) {
        DoDispatch(SYNOP, ist);
      } else if HasHeading(METAR, buf) {
        DoDispatch(METAR, ist);
      }
    }

    method Decode(ist: InStream) returns (done: bool)
      requires ist.Valid() && ist.Good() && ist.pos == 0 && Defined(START, ist.text) && Tidy(synop) && Tidy(metar)
      modifies this`synop, this`metar, ist
      ensures done == !Deframe(ist.text).hangs
      ensures Holds(SYNOP, old(synop), synop, Deframe(ist.text).bodies, raportsToCollect)
      ensures Holds(METAR, old(metar), metar, Deframe(ist.text).bodies, raportsToCollect)
    {
      hide Lookup, Trim, Listed, Run, ReportsOf, Defined;
      ghost var m := START;
      ghost var bodies: seq<string> := [];
      assert ist.Rest() == ist.text;
      HoldsNone(SYNOP, synop, raportsToCollect);
      HoldsNone(METAR, metar, raportsToCollect);
      while !ist.eof
        invariant ist.Valid() && Tidy(synop) && Tidy(metar)
        invariant ist.Good() ==> m.mode == Seek(0) && Bodies(m.out) == bodies
        invariant ist.Good() ==> Deframe(ist.text) == Finish(Run(m, ist.Rest())) && Defined(m, ist.Rest())
        invariant !ist.Good() ==> ist.eof && Deframe(ist.text) == Decoded(bodies, false)
        invariant Holds(SYNOP, old(synop), synop, bodies, raportsToCollect)
        invariant Holds(METAR, old(metar), metar, bodies, raportsToCollect)
        decreases |ist.text| - ist.pos, !ist.eof
      {
        ghost var m0 := m;
        var r, msg, theZCZCline;
        r, msg, theZCZCline, m := GetMessage(ist, m);
        assert bodies + [] == bodies;
        if r == Hangs {
          return false;
        }
        if r == Yes {
          HoldsNext(SYNOP, old(synop), synop, bodies, msg, raportsToCollect);
          HoldsNext(METAR, old(metar), metar, bodies, msg, raportsToCollect);
          Dispatch(msg);
          if ist.Good() {
            EndedBodies(m0, m, theZCZCline, msg);
          }
          bodies := bodies + [msg];
        }
        if ist.fail && !ist.eof {
          // every further round leaves the stream as it is: see DecodeLoopForever
          return false;
        }
      }
      done := true;
    }

    method Split(raport: string, collectRaports: set<WmoRaport>) returns (done: bool)
      requires Defined(START, raport) && Tidy(synop) && Tidy(metar)
      modifies this
      ensures raportsToCollect == collectRaports
      ensures done == !Deframe(raport).hangs
      ensures Holds(SYNOP, old(synop), synop, Deframe(raport).bodies, collectRaports)
      ensures Holds(METAR, old(metar), metar, Deframe(raport).bodies, collectRaports)
    {
      var inputStream := new InStream(raport);
      raportsToCollect := collectRaports;
      done := Decode(inputStream);
    }
  }

  lemma HeadingsDiffer(header: string)
    ensures !(HasHeading(SYNOP, header) && HasHeading(METAR, header))
  {
    hide HeadingTail, AfterSpaces;
  }

  lemma HoldsNone(kind: WmoRaport, m: MsgMap, collect: set<WmoRaport>)
    requires Tidy(m)
    ensures Holds(kind, m, m, [], collect)
  {
  }

  // One more bulletin: whatever adds its list to the lists so far holds the longer run.
  lemma HoldsNext(kind: WmoRaport, m: MsgMap, m': MsgMap, bodies: seq<string>, body: string, collect: set<WmoRaport>)
    requires Holds(kind, m, m', bodies, collect)
    ensures forall m'': MsgMap | AddsTo(kind, m', m'', ReportsOf(kind, body, collect)) ::
      Holds(kind, m, m'', bodies + [body], collect)
  {
    hide Lookup, Trim, Listed, ReportsOf;
    assert (bodies + [body])[..|bodies|] == bodies;
  }

  lemma MetarEntry(reports: seq<string>, report: string)
    ensures var rs, p := reports + [report], MetarType(CString(report));
      Parse(METAR, report) == p && Entry(METAR, report) == Trim(p.rest) && IsListed(METAR, rs) == (Trim(p.rest) != "")
  {
  }

  lemma PushedNoEmpty(m: MsgMap, id: string, text: string)
    requires NoEmptyList(m)
    ensures NoEmptyList(PushBack(m, id, text))
  {
  }

  lemma InForceNone(kind: WmoRaport)
    ensures InForce(kind, []) == Parsed("", false, "")
  {
  }

  lemma SynopEntry(reports: seq<string>, report: string)
    ensures var rs, p := reports + [report], SynopType(CString(TrimRight(report)));
      && Parse(SYNOP, report) == p
      && Entry(SYNOP, report) == Trim(p.rest)
      && IsListed(SYNOP, rs) == (p.rest != "" && InForce(SYNOP, rs).ident != "" && !InForce(SYNOP, rs).mobile &&
                                 !SynopIsNil(Trim(p.rest)))
  {
  }

  lemma PushedTidy(m: MsgMap, id: string, text: string)
    requires Tidy(m) && Trim(id) != ""
    ensures Tidy(PushBack(m, id, text))
  {
    hide Trim;
  }

  // removeEmptyKeys never removes a key from tidy lists.
  lemma TidyKept(m: MsgMap, m': MsgMap)
    requires Tidy(m) && m' == map id | id in m && Trim(id) != "" :: m[id]
    ensures m' == m
  {
    hide Trim;
  }
}
