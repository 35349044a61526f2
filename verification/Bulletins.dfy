/** What a SYNOP or METAR bulletin contributes: its reports, each listed under the identifier that was in
    force when it was read. */
module Bulletins {
  import opened Text
  import opened Reports

  datatype WmoRaport = SYNOP | METAR | TEMP | PILO | AREP | DRAU | BATH | TIDE | BUFR_SURFACE

  type MsgMap = map<string, seq<string>>

  // ----- The recognisers -----

  // Two letters and "XX", an optional group of four digits and one more character, an optional word.
  datatype Parsed = Parsed(ident: string, mobile: bool, rest: string)

  predicate SectionAt(s: string, a: nat) {
    a + 4 <= |s| && s[a..a + 4] in ["AAXX", "BBXX", "OOXX"]
  }

  predicate TimeGroupAt(s: string, b: nat) {
    b + 5 <= |s| && IsDigit(s[b]) && IsDigit(s[b + 1]) && IsDigit(s[b + 2]) && IsDigit(s[b + 3])
  }

  // Where the blanks after a section end, the optional time after that, and the identifier.
  function AfterSection(s: string, a: nat): (b: nat)
    requires a + 4 <= |s|
    ensures a + 4 <= b <= |s|
  {
    a + 4 + Spaces(s[a + 4..])
  }

  function AfterTime(s: string, b: nat): (c: nat)
    requires b <= |s|
    ensures b <= c <= |s|
  {
    if TimeGroupAt(s, b) then b + 5 else b
  }

  function WordStart(s: string, c: nat): (d: nat)
    requires c <= |s|
    ensures c <= d <= |s|
  {
    c + Spaces(s[c..])
  }

  function WordEnd(s: string, d: nat): (e: nat)
    requires d <= |s|
    ensures d <= e <= |s|
  {
    d + Leading(s[d..], IsWord)
  }

  function IdentEnd(s: string, a: nat): (e: nat)
    requires a + 4 <= |s|
    ensures a + 4 <= e <= |s|
  {
    WordEnd(s, WordStart(s, AfterTime(s, AfterSection(s, a))))
  }

  function SynopType(s: string): Parsed {
    var a := Spaces(s);
    if SectionAt(s, a) then Parsed(s[a..IdentEnd(s, a)], s[a] == 'O', s[IdentEnd(s, a)..])
    else Parsed("", false, s)
  }

  function MetarType(s: string): Parsed {
    var a := Spaces(s);
    if a + 5 <= |s| && s[a..a + 5] in ["METAR", "SPECI"] then Parsed(s[a..a + 5], false, s[a + 5..])
    else Parsed("", false, s)
  }

  // Space, an optional number, blanks, NIL, blanks, an optional "=", space, and nothing else.
  predicate SynopIsNil(s: string) {
    var t := AfterSpaces(AfterRun(AfterRun(s, IsSpace), IsDigit));
    "NIL" <= t &&
    var u := AfterSpaces(t[3..]);
    AfterRun(if u != "" && u[0] == '=' then u[1..] else u, IsSpace) == ""
  }

  // A heading after its two letters: four word characters, a word, a number, an optional word.
  predicate HeadingTail(s: string) {
    |s| >= 4 && (forall i | 0 <= i < 4 :: IsWord(s[i])) &&
    var a := s[4..];
    var b := AfterSpaces(a);
    var c := AfterRun(b, IsWord);
    var d := AfterSpaces(c);
    var e := AfterRun(d, IsDigit);
    |e| < |d| < |c| < |b| < |a| && AfterRun(AfterSpaces(e), IsWord) == ""
  }

  predicate IsHeading(s: string, second: string) {
    var t := AfterSpaces(s);
    |t| >= 2 && t[0] == 'S' && t[1] in second && HeadingTail(t[2..])
  }

  predicate HasHeading(kind: WmoRaport, header: string) {
    match kind
    case SYNOP => IsHeading(header, "IMN")
    case METAR => IsHeading(header, "AP")
    case _ => false
  }

  // ----- Grouping -----

  function Parse(kind: WmoRaport, report: string): Parsed {
    if kind == SYNOP then SynopType(CString(TrimRight(report))) else MetarType(CString(report))
  }

  // The identifier in force after some reports: that of the last one that has one.
  function InForce(kind: WmoRaport, reports: seq<string>): Parsed {
    if reports == [] then Parsed("", false, "") else
      var p := Parse(kind, reports[|reports| - 1]);
      if p.ident != "" then p.(rest := "") else InForce(kind, reports[..|reports| - 1])
  }

  // What is listed of the last of some reports, and whether it is listed at all.
  function Entry(kind: WmoRaport, report: string): string {
    Trim(Parse(kind, report).rest)
  }

  predicate IsListed(kind: WmoRaport, reports: seq<string>)
    requires reports != []
  {
    var report := reports[|reports| - 1];
    if kind == SYNOP then
      var at := InForce(kind, reports);
      Parse(kind, report).rest != "" && at.ident != "" && !at.mobile && !SynopIsNil(Entry(kind, report))
    else
      Entry(kind, report) != ""
  }

  function Listed(kind: WmoRaport, reports: seq<string>, id: string): seq<string> {
    if reports == [] then [] else
      Listed(kind, reports[..|reports| - 1], id) +
      if IsListed(kind, reports) && InForce(kind, reports).ident == id
      then [Entry(kind, reports[|reports| - 1])] else []
  }

  predicate Collects(kind: WmoRaport, collect: set<WmoRaport>) {
    collect == {} || kind in collect
  }

  // The reports of a bulletin, if it is of a kind and that kind is collected.
  function ReportsOf(kind: WmoRaport, body: string, collect: set<WmoRaport>): seq<string> {
    var l := FirstLine(body);
    if l.text != "" && HasHeading(kind, l.text) && Collects(kind, collect) then AllReports(l.rest) else []
  }

  function FromBodies(kind: WmoRaport, bodies: seq<string>, collect: set<WmoRaport>, id: string): seq<string> {
    if bodies == [] then [] else
      FromBodies(kind, bodies[..|bodies| - 1], collect, id) +
      Listed(kind, ReportsOf(kind, bodies[|bodies| - 1], collect), id)
  }

  lemma {:induction false} FromBodiesAppend(kind: WmoRaport, a: seq<string>, b: seq<string>, collect: set<WmoRaport>,
                                            id: string)
    ensures FromBodies(kind, a + b, collect, id) == FromBodies(kind, a, collect, id) + FromBodies(kind, b, collect, id)
  {
    hide Listed, ReportsOf;
    if b == [] {
      assert a + b == a;
    } else {
      assert (a + b)[..|a + b| - 1] == a + b[..|b| - 1];
      assert (a + b)[|a + b| - 1] == b[|b| - 1];
      FromBodiesAppend(kind, a, b[..|b| - 1], collect, id);
    }
  }

  // ----- Lists in a map -----

  function Lookup(m: MsgMap, id: string): seq<string> {
    if id in m then m[id] else []
  }

  // No key is blank and no list is empty, so that the lists determine the map.
  ghost predicate Tidy(m: MsgMap) {
    forall id | id in m :: Trim(id) != "" && m[id] != []
  }

  lemma ListsDetermineMap(m: MsgMap, m': MsgMap)
    requires Tidy(m) && Tidy(m') && forall id :: Lookup(m, id) == Lookup(m', id)
    ensures m == m'
  {
    forall id
      ensures id in m <==> id in m'
      ensures id in m ==> m[id] == m'[id]
    {
      assert Lookup(m, id) == Lookup(m', id);
    }
  }

  function PushBack(m: MsgMap, id: string, text: string): MsgMap {
    m[id := Lookup(m, id) + [text]]
  }

  // The section of a SYNOP identifier, by which reports from mobile stations are told.
  predicate Section(p: Parsed) {
    |p.ident| >= 4 && p.ident[..4] in ["AAXX", "BBXX", "OOXX"] && (p.mobile <==> p.ident[..4] == "OOXX")
  }

  lemma SynopSection(s: string)
    ensures var p := SynopType(s); p.ident == "" || Section(p)
  {
    hide Spaces, IdentEnd;
    var a := Spaces(s);
    if SectionAt(s, a) {
      var e := IdentEnd(s, a);
      assert s[a..e][..4] == s[a..a + 4];
      assert s[a] == s[a..a + 4][0];
    }
  }

  // The identifier of a SYNOP report is never blank.
  lemma {:induction false} SynopIdentNotBlank(reports: seq<string>)
    ensures var id := InForce(SYNOP, reports).ident; id != "" ==> Trim(id) != ""
    decreases |reports|
  {
    hide SynopType, Trim, Section;
    if reports != [] {
      var p := Parse(SYNOP, reports[|reports| - 1]);
      SynopSection(CString(TrimRight(reports[|reports| - 1])));
      if p.ident != "" {
        SectionNotBlank(p);
      } else {
        SynopIdentNotBlank(reports[..|reports| - 1]);
      }
    }
  }

  lemma SectionNotBlank(p: Parsed)
    requires Section(p)
    ensures Trim(p.ident) != ""
  {
    hide Trim;
    assert p.ident[2] == p.ident[..4][2] == 'X';
    NotBlank(p.ident, 2);
  }

  // ----- What grouping guarantees -----

  // The identifier in force is that of the nearest report, at or before this one, that has one.
  lemma {:induction false} NearestIdentifier(kind: WmoRaport, reports: seq<string>, j: nat)
    requires j < |reports| && Parse(kind, reports[j]).ident != ""
    requires forall i | j < i < |reports| :: Parse(kind, reports[i]).ident == ""
    ensures InForce(kind, reports) == Parse(kind, reports[j]).(rest := "")
  {
    hide Parse;
    if j < |reports| - 1 {
      NearestIdentifier(kind, reports[..|reports| - 1], j);
    }
  }

  lemma {:induction false} NoIdentifierYet(kind: WmoRaport, reports: seq<string>)
    requires forall r | r in reports :: Parse(kind, r).ident == ""
    ensures InForce(kind, reports).ident == ""
  {
    hide Parse;
    if reports != [] {
      NoIdentifierYet(kind, reports[..|reports| - 1]);
    }
  }

  // What is listed of some reports, wherever.
  function Entries(kind: WmoRaport, reports: seq<string>): multiset<string> {
    if reports == [] then multiset{}
    else
      Entries(kind, reports[..|reports| - 1]) +
      if IsListed(kind, reports) then multiset{Entry(kind, reports[|reports| - 1])} else multiset{}
  }

  function Idents(kind: WmoRaport, reports: seq<string>): set<string> {
    if reports == [] then {}
    else
      Idents(kind, reports[..|reports| - 1]) + if IsListed(kind, reports) then {InForce(kind, reports).ident} else {}
  }

  // The lists of some identifiers together.
  function Together(kind: WmoRaport, reports: seq<string>, ids: seq<string>): multiset<string> {
    if ids == [] then multiset{}
    else Together(kind, reports, ids[..|ids| - 1]) + multiset(Listed(kind, reports, ids[|ids| - 1]))
  }

  lemma ListedNext(kind: WmoRaport, reports: seq<string>, id: string)
    requires reports != []
    ensures multiset(Listed(kind, reports, id)) ==
      multiset(Listed(kind, reports[..|reports| - 1], id)) +
      if IsListed(kind, reports) && InForce(kind, reports).ident == id
      then multiset{Entry(kind, reports[|reports| - 1])} else multiset{}
  {
    hide IsListed, InForce, Entry;
  }

  lemma {:induction false} TogetherNext(kind: WmoRaport, reports: seq<string>, ids: seq<string>)
    requires reports != [] && forall i, j | 0 <= i < j < |ids| :: ids[i] != ids[j]
    ensures Together(kind, reports, ids) ==
      Together(kind, reports[..|reports| - 1], ids) +
      if IsListed(kind, reports) && InForce(kind, reports).ident in ids
      then multiset{Entry(kind, reports[|reports| - 1])} else multiset{}
    decreases |ids|
  {
    hide IsListed, InForce, Entry, Listed;
    if ids != [] {
      var init, last := ids[..|ids| - 1], ids[|ids| - 1];
      TogetherNext(kind, reports, init);
      ListedNext(kind, reports, last);
      assert ids == init + [last];
      assert last !in init;
    }
  }

  // Conservation: the lists of all identifiers hold every listed report once, and nothing else.
  lemma {:induction false} ReportsConserved(kind: WmoRaport, reports: seq<string>, ids: seq<string>)
    requires forall id | id in Idents(kind, reports) :: id in ids
    requires forall i, j | 0 <= i < j < |ids| :: ids[i] != ids[j]
    ensures Together(kind, reports, ids) == Entries(kind, reports)
    decreases |reports|
  {
    hide IsListed, InForce, Entry;
    if reports == [] {
      NothingListed(kind, ids);
    } else {
      TogetherNext(kind, reports, ids);
      ReportsConserved(kind, reports[..|reports| - 1], ids);
    }
  }

  lemma {:induction false} NothingListed(kind: WmoRaport, ids: seq<string>)
    ensures Together(kind, [], ids) == multiset{}
    decreases |ids|
  {
    if ids != [] {
      NothingListed(kind, ids[..|ids| - 1]);
      assert Listed(kind, [], ids[|ids| - 1]) == [];
    }
  }
}
