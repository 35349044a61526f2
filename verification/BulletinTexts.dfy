/** Whole bulletins: what is listed of a printed SYNOP or METAR bulletin, and under which identifier. */
module BulletinTexts {
  import opened Text
  import opened Reports
  import opened ReportLaws
  import opened OpenReports
  import opened Bulletins
  import opened Recognisers
  import F = Framing
  import L = FramingLaws
  import A = Alphabets
  import P = Pipeline
  import Crc

  // ----- Trimming -----

  lemma {:induction false} TrimRightBehind(a: string, b: string)
    requires TrimRight(b) != ""
    ensures TrimRight(a + b) == a + TrimRight(b)
    decreases |b|
  {
    assert b != "";
    assert (a + b)[|a + b| - 1] == b[|b| - 1];
    if IsSpace(b[|b| - 1]) {
      assert (a + b)[..|a + b| - 1] == a + b[..|b| - 1];
      TrimRightBehind(a, b[..|b| - 1]);
    }
  }

  lemma TrimRightTwice(s: string)
    ensures TrimRight(TrimRight(s)) == TrimRight(s) && Trim(TrimRight(s)) == Trim(s)
  {
  }

  lemma NoNul(s: string)
    requires '\0' !in s
    ensures CString(s) == s
  {
    LeadingOf(s, "", c => c != '\0');
    assert s + "" == s && s[..|s|] == s;
  }

  // ----- A section and its reports -----

  lemma SameListed(kind: WmoRaport, a: seq<string>, b: seq<string>)
    requires a != [] && b != [] && a[|a| - 1] == b[|b| - 1] && InForce(kind, a) == InForce(kind, b)
    ensures IsListed(kind, a) == IsListed(kind, b)
  {
    hide InForce, Parse, SynopIsNil, Entry;
  }

  // A new identifier starts the lists afresh.
  lemma {:induction false} InForceAfresh(kind: WmoRaport, a: seq<string>, b: seq<string>)
    requires b != [] && Parse(kind, b[0]).ident != ""
    ensures InForce(kind, a + b) == InForce(kind, b)
    decreases |b|
  {
    hide Parse;
    var init, last := b[..|b| - 1], b[|b| - 1];
    assert (a + b)[..|a + b| - 1] == a + init && (a + b)[|a + b| - 1] == last;
    if init != [] {
      InForceAfresh(kind, a, init);
    }
  }

  lemma {:induction false} SectionAfresh(kind: WmoRaport, a: seq<string>, b: seq<string>, id: string)
    requires b != [] && Parse(kind, b[0]).ident != ""
    ensures Listed(kind, a + b, id) == Listed(kind, a, id) + Listed(kind, b, id)
    decreases |b|
  {
    hide Parse, InForce, IsListed, Entry;
    var init, last := b[..|b| - 1], b[|b| - 1];
    assert (a + b)[..|a + b| - 1] == a + init && (a + b)[|a + b| - 1] == last;
    InForceAfresh(kind, a, b);
    SameListed(kind, a + b, b);
    if init == [] {
      assert a + init == a && Listed(kind, b[..0], id) == [];
    } else {
      SectionAfresh(kind, a, init, id);
    }
  }

  // What is kept of some reports: each trimmed, without the ones that are NIL or blank.
  ghost function Kept(reports: seq<string>): seq<string> {
    if reports == [] then [] else
      var init, text := reports[..|reports| - 1], Trim(reports[|reports| - 1]);
      Kept(init) + if text == "" || NilText(text) then [] else [text]
  }

  lemma ParsedAs(report: string)
    requires '\0' !in report
    ensures Parse(SYNOP, report) == SynopType(TrimRight(report)) && Parse(METAR, report) == MetarType(report)
  {
    hide TrimRight, SynopType, MetarType, CString;
    TrimRightSub(report);
    NoNul(TrimRight(report));
    NoNul(report);
  }

  lemma TrimRightSub(s: string)
    ensures forall c | c in TrimRight(s) :: c in s
  {
  }

  // A report without a section of its own, after some under an identifier.
  lemma PlainListed(reports: seq<string>, report: string, at: Parsed, id: string)
    requires '\0' !in report && !SynopText(TrimRight(report)) && InForce(SYNOP, reports) == at && at.ident != ""
    ensures InForce(SYNOP, reports + [report]) == at
    ensures Listed(SYNOP, reports + [report], id) ==
            Listed(SYNOP, reports, id) + if at.ident == id && !at.mobile then Kept([report]) else []
  {
    hide SynopIsNil, SynopType, TrimRight, Trim, NilText, SynopText;
    var rs := reports + [report];
    assert rs[..|reports|] == reports;
    ParsedAs(report);
    SynopExactly(TrimRight(report));
    TrimRightTwice(report);
    NilExactly(Trim(report));
    BlankOnes(report);
    KeptOne(report);
  }

  lemma BlankOnes(report: string)
    ensures Trim(report) == "" <==> TrimRight(report) == ""
  {
    hide Trim, TrimRight;
    TrimEmpty(report);
    TrimRightBlank(report);
  }

  lemma KeptOne(report: string)
    ensures Kept([report]) == var text := Trim(report); if text == "" || NilText(text) then [] else [text]
  {
    hide Trim, NilText;
    assert [report][..0] == [];
  }

  // A report that begins with a section.
  lemma FirstListed(b0: string, w: string, b1: string, t: string, b2: string, u: string, rest: string, id: string)
    requires SectionPieces(b0, w, b1, t, b2, u, rest) && TrimRight(rest) != ""
    requires '\0' !in b0 + (w + (b1 + (t + (b2 + (u + rest)))))
    ensures var reports, ident := [b0 + (w + (b1 + (t + (b2 + (u + rest)))))], w + b1 + t + b2 + u;
      && InForce(SYNOP, reports) == Parsed(ident, w == "OOXX", "")
      && Listed(SYNOP, reports, id) == if ident == id && w != "OOXX" then Kept([rest]) else []
  {
    hide SynopIsNil, SynopType, TrimRight, Trim, NilText;
    var report, ident := b0 + (w + (b1 + (t + (b2 + (u + rest))))), w + b1 + t + b2 + u;
    var t1 := TrimRight(rest);
    FirstParsed(b0, w, b1, t, b2, u, rest);
    assert [report][..0] == [];
    TrimRightTwice(rest);
    NilExactly(Trim(rest));
    BlankOnes(rest);
    KeptOne(rest);
    assert |ident| >= |w| > 0;
  }

  lemma FirstParsed(b0: string, w: string, b1: string, t: string, b2: string, u: string, rest: string)
    requires SectionPieces(b0, w, b1, t, b2, u, rest) && TrimRight(rest) != ""
    requires '\0' !in b0 + (w + (b1 + (t + (b2 + (u + rest)))))
    ensures Parse(SYNOP, b0 + (w + (b1 + (t + (b2 + (u + rest)))))) ==
            Parsed(w + b1 + t + b2 + u, w == "OOXX", TrimRight(rest))
  {
    hide SynopType, TrimRight, SectionPieces;
    ParsedAs(b0 + (w + (b1 + (t + (b2 + (u + rest))))));
    TrimRightBehind(u, rest);
    TrimRightBehind(b2, u + rest);
    TrimRightBehind(t, b2 + (u + rest));
    TrimRightBehind(b1, t + (b2 + (u + rest)));
    TrimRightBehind(w, b1 + (t + (b2 + (u + rest))));
    TrimRightBehind(b0, w + (b1 + (t + (b2 + (u + rest)))));
    TrimmedPieces(b0, w, b1, t, b2, u, rest);
    SynopRead(b0, w, b1, t, b2, u, TrimRight(rest));
  }

  lemma TrimmedPieces(b0: string, w: string, b1: string, t: string, b2: string, u: string, rest: string)
    requires SectionPieces(b0, w, b1, t, b2, u, rest) && TrimRight(rest) != ""
    ensures SectionPieces(b0, w, b1, t, b2, u, TrimRight(rest))
  {
    var r := TrimRight(rest);
    assert r <= rest && u + r <= u + rest;
    TimePrefix(u + r, u + rest);
  }

  lemma TimePrefix(s: string, s': string)
    requires s <= s'
    ensures TimeGroupAt(s, 0) ==> TimeGroupAt(s', 0)
  {
  }

  // A section line and what it stands in front of, then reports without a section: exactly those that are
  // not NIL are listed, in order, under exactly the identifier of the section; none if it is a mobile one.
  lemma {:induction false} SectionListed(b0: string, w: string, b1: string, t: string, b2: string, u: string,
                                         rest: string, others: seq<string>, id: string)
    requires SectionPieces(b0, w, b1, t, b2, u, rest) && TrimRight(rest) != ""
    requires '\0' !in b0 + (w + (b1 + (t + (b2 + (u + rest)))))
    requires forall r | r in others :: '\0' !in r && !SynopText(TrimRight(r))
    ensures var reports := [b0 + (w + (b1 + (t + (b2 + (u + rest)))))] + others;
      && InForce(SYNOP, reports) == Parsed(w + b1 + t + b2 + u, w == "OOXX", "")
      && Listed(SYNOP, reports, id) == if w + b1 + t + b2 + u == id && w != "OOXX" then Kept([rest] + others) else []
    decreases |others|
  {
    hide SectionPieces, TrimRight, InForce, Listed, SynopText, Kept;
    var first := b0 + (w + (b1 + (t + (b2 + (u + rest)))));
    if others == [] {
      FirstListed(b0, w, b1, t, b2, u, rest, id);
      assert [first] + others == [first] && [rest] + others == [rest];
    } else {
      var init, last := others[..|others| - 1], others[|others| - 1];
      assert others == init + [last];
      assert forall r | r in init :: r in others;
      SectionListed(b0, w, b1, t, b2, u, rest, init, id);
      assert last in others && |w + b1 + t + b2 + u| >= |w|;
      OfPieces(b0, w, b1, t, b2, u, rest);
      PlainListed([first] + init, last, Parsed(w + b1 + t + b2 + u, w == "OOXX", ""), id);
      assert [first] + others == [first] + init + [last];
      KeptNext([rest] + init, last);
      assert [rest] + others == [rest] + init + [last];
    }
  }

  lemma KeptNext(reports: seq<string>, report: string)
    ensures Kept(reports + [report]) == Kept(reports) + Kept([report])
  {
    hide Trim, NilText;
    KeptOne(report);
    assert (reports + [report])[..|reports|] == reports;
  }

  // ----- METAR -----

  function NotBlankOnes(reports: seq<string>): seq<string> {
    if reports == [] then [] else
      var init, text := reports[..|reports| - 1], Trim(reports[|reports| - 1]);
      NotBlankOnes(init) + if text == "" then [] else [text]
  }

  lemma MetarNext(reports: seq<string>, report: string, rest: string, at: string, id: string)
    requires MetarType(CString(report)).rest == rest && InForce(METAR, reports + [report]).ident == at
    ensures Listed(METAR, reports + [report], id) ==
            Listed(METAR, reports, id) + if at == id && Trim(rest) != "" then [Trim(rest)] else []
  {
    hide MetarType, CString, Trim, InForce;
    assert (reports + [report])[..|reports|] == reports;
  }

  lemma BlankNext(reports: seq<string>, report: string)
    ensures NotBlankOnes(reports + [report]) ==
            NotBlankOnes(reports) + if Trim(report) == "" then [] else [Trim(report)]
  {
    hide Trim;
    assert (reports + [report])[..|reports|] == reports;
  }

  // METAR or SPECI and what it stands in front of, then reports without: all that are not blank are listed, in
  // order, under exactly that word.
  lemma {:induction false} MetarListed(b0: string, w: string, rest: string, others: seq<string>, id: string)
    requires AllBlank(b0) && (w == "METAR" || w == "SPECI") && '\0' !in b0 + (w + rest)
    requires forall r | r in others :: '\0' !in r && !MetarText(r)
    ensures var reports := [b0 + (w + rest)] + others;
      InForce(METAR, reports).ident == w &&
      Listed(METAR, reports, id) == if w == id then NotBlankOnes([rest] + others) else []
    decreases |others|
  {
    hide MetarType, CString, Trim, MetarText, Listed, NotBlankOnes;
    var first := b0 + (w + rest);
    if others == [] {
      assert [first] + others == [] + [first] && [rest] + others == [] + [rest];
      NoNul(first);
      MetarRead(b0, w, rest);
      MetarNext([], first, rest, w, id);
      NoneListed(id);
      BlankNext([], rest);
    } else {
      var init, last := others[..|others| - 1], others[|others| - 1];
      assert others == init + [last] && (forall r | r in init :: r in others) && last in others;
      MetarListed(b0, w, rest, init, id);
      NoNul(last);
      MetarExactly(last);
      assert [first] + others == [first] + init + [last] && [rest] + others == [rest] + init + [last];
      assert ([first] + init + [last])[..|[first] + init|] == [first] + init;
      MetarNext([first] + init, last, last, w, id);
      BlankNext([rest] + init, last);
    }
  }

  lemma NoneListed(id: string)
    ensures Listed(METAR, [], id) == [] && NotBlankOnes([]) == []
  {
  }

  // ----- Whole bulletins -----

  // A heading line and the reports behind it.
  lemma HeadedReports(kind: WmoRaport, h: string, n: nat, tail: string, collect: set<WmoRaport>, id: string)
    requires h != "" && FirstLineOk(h)
    ensures FromBodies(kind, [h + Eol(n) + tail], collect, id) ==
            if HasHeading(kind, h) && Collects(kind, collect) then Listed(kind, AllReports(tail), id) else []
  {
    hide FirstLine, AllReports, HasHeading, Listed, DropIn;
    var body := h + Eol(n) + tail;
    FirstLineRead("", h, n, tail) by {
      IsFirst(h);
    }
    assert "" + h + Eol(n) + tail == body;
    LeadingEndsIgnored(tail);
    assert [body][..0] == [] && [] + Listed(kind, AllReports(tail), id) == Listed(kind, AllReports(tail), id);
    NothingBefore(kind, collect, id);
    NothingAtAll(kind, id);
  }

  lemma NothingBefore(kind: WmoRaport, collect: set<WmoRaport>, id: string)
    ensures FromBodies(kind, [], collect, id) == []
  {
  }

  lemma NothingAtAll(kind: WmoRaport, id: string)
    ensures Listed(kind, [], id) == []
  {
  }

  // The pieces of a section line.
  datatype SectionLine = SectionLine(w: string, b1: string, t: string, b2: string, u: string)

  function Ident(l: SectionLine): string {
    l.w + l.b1 + l.t + l.b2 + l.u
  }

  predicate SectionBefore(l: SectionLine, rest: string) {
    SectionPieces("", l.w, l.b1, l.t, l.b2, l.u, rest)
  }

  // A printed SYNOP bulletin: its heading, a section line, reports, the first right behind the section line, and
  // perhaps a last one without "=". All of them but the NIL ones are listed, in order, under exactly the
  // section; none if the section is a mobile one.
  lemma SynopBulletin(h: string, n: nat, l: SectionLine, r: Printed, rs: seq<Printed>, end: string, last: seq<string>,
                      collect: set<WmoRaport>, id: string)
    requires h != "" && FirstLineOk(h) && HeadingText(h, "IMN")
    requires PrintableReport(r) && |r.lines| > 1 && TrimRight(r.lines[0]) == Ident(l)
    requires (forall x | x in rs :: PrintableReport(x)) && AllReports(end) == last
    requires SectionBefore(l, "\n" + Expected(r.lines[1..])) && '\0' !in Ident(l) + Expected(r.lines[1..])
    requires forall x | x in ExpectedReports(rs) + last :: '\0' !in x && !SynopText(TrimRight(x))
    ensures FromBodies(SYNOP, [h + Eol(n) + (PrintReports([r] + rs) + end)], collect, id) ==
            if Collects(SYNOP, collect) && id == Ident(l) && l.w != "OOXX"
            then Kept(["\n" + Expected(r.lines[1..])] + (ExpectedReports(rs) + last)) else []
  {
    hide *;
    KindExactly(h);
    HeadedReports(SYNOP, h, n, PrintReports([r] + rs) + end, collect, id);
    FirstAndOthers(r, rs, end);
    SectionPrinted(l, r, ExpectedReports(rs) + last, id);
  }

  lemma FirstAndOthers(r: Printed, rs: seq<Printed>, end: string)
    requires PrintableReport(r) && forall x | x in rs :: PrintableReport(x)
    ensures forall x | x in [r] + rs :: PrintableReport(x)
    ensures AllReports(PrintReports([r] + rs) + end) == [Expected(r.lines)] + (ExpectedReports(rs) + AllReports(end))
  {
    hide PrintableReport, Expected, AllReports, PrintReports;
    assert forall x | x in [r] + rs :: x == r || x in rs;
    PrintedReportsReadBack([r] + rs, end);
    assert ([r] + rs)[1..] == rs;
  }

  lemma SectionPrinted(l: SectionLine, r: Printed, others: seq<string>, id: string)
    requires |r.lines| > 1 && TrimRight(r.lines[0]) == Ident(l)
    requires SectionBefore(l, "\n" + Expected(r.lines[1..])) && '\0' !in Ident(l) + Expected(r.lines[1..])
    requires forall x | x in others :: '\0' !in x && !SynopText(TrimRight(x))
    ensures Listed(SYNOP, [Expected(r.lines)] + others, id) ==
            if id == Ident(l) && l.w != "OOXX" then Kept(["\n" + Expected(r.lines[1..])] + others) else []
  {
    hide Expected, Kept, TrimRight, SynopText, Listed, SectionPieces;
    ExpectedFirst(r, l);
    ClosedNotBlank(r.lines[1..]);
    SectionListed("", l.w, l.b1, l.t, l.b2, l.u, "\n" + Expected(r.lines[1..]), others, id);
  }

  lemma ExpectedFirst(r: Printed, l: SectionLine)
    requires |r.lines| > 1 && TrimRight(r.lines[0]) == Ident(l)
    ensures var rest := "\n" + Expected(r.lines[1..]);
      var first := "" + (l.w + (l.b1 + (l.t + (l.b2 + (l.u + rest)))));
      Expected(r.lines) == first && forall c | c in first :: c in Ident(l) + Expected(r.lines[1..]) || c == '\n'
  {
    hide TrimRight, Expected, Ident;
    var e := Expected(r.lines[1..]);
    FirstLineOf(r.lines);
    Regrouped(l, e);
  }

  lemma FirstLineOf(ls: seq<string>)
    requires |ls| > 1
    ensures Expected(ls) == TrimRight(ls[0]) + "\n" + Expected(ls[1..])
  {
    hide TrimRight;
  }

  lemma Regrouped(l: SectionLine, e: string)
    ensures var first := "" + (l.w + (l.b1 + (l.t + (l.b2 + (l.u + ("\n" + e))))));
      first == Ident(l) + "\n" + e && forall c | c in first :: c in Ident(l) + e || c == '\n'
  {
    Recognisers.Rejoined(l.w, l.b1, l.t, l.b2, l.u, "\n" + e);
    Broken(Ident(l), e);
  }

  lemma Broken(a: string, e: string)
    ensures a + ("\n" + e) == a + "\n" + e && forall c | c in a + "\n" + e :: c in a + e || c == '\n'
  {
  }

  // A report that was closed ends in "=", and so is not blank.
  lemma {:induction false} ClosedEnds(ls: seq<string>)
    requires ls != []
    ensures var e := Expected(ls); |e| >= 2 && e[|e| - 2] == '='
    decreases |ls|
  {
    hide TrimRight;
    if |ls| > 1 {
      ClosedEnds(ls[1..]);
    }
  }

  lemma ClosedNotBlank(ls: seq<string>)
    requires ls != []
    ensures TrimRight("\n" + Expected(ls)) != ""
  {
    hide TrimRight, Expected;
    ClosedEnds(ls);
    var s := "\n" + Expected(ls);
    TrimRightBlank(s);
    assert s[|s| - 2] == '=' && s[|s| - 2] in s;
  }

  // A printed METAR bulletin, whose first report begins with METAR or SPECI.
  lemma MetarBulletin(h: string, n: nat, w: string, rest: string, r: Printed, rs: seq<Printed>, end: string,
                      last: seq<string>, collect: set<WmoRaport>, id: string)
    requires h != "" && FirstLineOk(h) && HeadingText(h, "AP") && (w == "METAR" || w == "SPECI")
    requires PrintableReport(r) && Expected(r.lines) == w + rest && '\0' !in w + rest
    requires (forall x | x in rs :: PrintableReport(x)) && AllReports(end) == last
    requires forall x | x in ExpectedReports(rs) + last :: '\0' !in x && !MetarText(x)
    ensures FromBodies(METAR, [h + Eol(n) + (PrintReports([r] + rs) + end)], collect, id) ==
            if Collects(METAR, collect) && id == w then NotBlankOnes([rest] + (ExpectedReports(rs) + last)) else []
  {
    hide *;
    KindExactly(h);
    HeadedReports(METAR, h, n, PrintReports([r] + rs) + end, collect, id);
    FirstAndOthers(r, rs, end);
    MetarStarts(w, rest, ExpectedReports(rs) + last, id);
  }

  lemma MetarStarts(w: string, rest: string, others: seq<string>, id: string)
    requires (w == "METAR" || w == "SPECI") && '\0' !in w + rest
    requires forall r | r in others :: '\0' !in r && !MetarText(r)
    ensures Listed(METAR, [w + rest] + others, id) == if w == id then NotBlankOnes([rest] + others) else []
  {
    hide MetarText, Listed, NotBlankOnes, InForce;
    MetarListed("", w, rest, others, id);
    assert "" + (w + rest) == w + rest;
  }

  // What is listed of a file of such bulletins is what each of them lists, and whatever is appended may be
  // decoded on its own.
  lemma FileOfBulletins(kind: WmoRaport, s: Crc.Bytes, bs: seq<A.Bulletin>, collect: set<WmoRaport>, id: string)
    requires (forall b | b in bs :: A.Plain(b)) && P.TextOf(s) == A.WrittenAll(bs)
    ensures P.ListsOf(kind, s, collect, id) == FromBodies(kind, A.BodiesOf(bs), collect, id)
    ensures P.Idle(s) && !P.DecodeOf(s).hangs
  {
    hide *;
    var fs := A.PlainFrames(bs);
    L.FramesRun(fs);
    L.IdleFinish(P.TextOf(s));
    IdleIs(kind, s, collect, id);
  }

  lemma IdleIs(kind: WmoRaport, s: Crc.Bytes, collect: set<WmoRaport>, id: string)
    ensures P.Idle(s) <==> F.Run(F.START, P.TextOf(s)).mode == F.Seek(0)
    ensures P.DecodeOf(s) == F.Deframe(P.TextOf(s))
    ensures P.ListsOf(kind, s, collect, id) == FromBodies(kind, P.DecodeOf(s).bodies, collect, id)
  {
    hide F.Run, FromBodies;
  }
}
