/** From the file to the server: what is sent under an identifier, over all polls and restarts, is what a
    single reading of the whole file lists under it. */
module EndToEnd {
  import opened Text
  import opened Crc
  import opened Framing
  import opened Bulletins
  import opened Runs
  import opened Pipeline
  import W = WmoRaports
  import O = Outbox
  import S = Sender

  // ----- Reading identifiers back from the messages -----

  // Where the line break is that ends the identifier in front of a report.
  function BreakAt(t: string): (n: nat)
    ensures n <= |t| && (n < |t| ==> n + 2 <= |t|)
  {
    if |t| < 2 then |t| else if t[0] == ' ' && t[1] == '\n' then 0 else 1 + BreakAt(t[1..])
  }

  function ReportUnder(text: string, id: string): seq<string> {
    var i := BreakAt(text);
    if i < |text| && text[..i] == id then [text[i + 2..]] else []
  }

  // The reports that were sent under an identifier, in order.
  function Under(ms: seq<O.Message>, id: string): seq<string> {
    if ms == [] then [] else Under(ms[..|ms| - 1], id) + ReportUnder(ms[|ms| - 1].text, id)
  }

  lemma {:induction false} UnderAppend(a: seq<O.Message>, b: seq<O.Message>, id: string)
    ensures Under(a + b, id) == Under(a, id) + Under(b, id)
    decreases |b|
  {
    hide ReportUnder;
    if b == [] {
      assert a + b == a;
    } else {
      assert (a + b)[..|a + b| - 1] == a + b[..|b| - 1];
      UnderAppend(a, b[..|b| - 1], id);
    }
  }

  predicate BreaksAt(id: string, i: nat) {
    i + 1 < |id| && id[i] == ' ' && id[i + 1] == '\n'
  }

  predicate Unbroken(id: string) {
    forall i: nat | i < |id| :: !BreaksAt(id, i)
  }

  lemma {:induction false} BreakFound(id: string, msg: string)
    requires Unbroken(id)
    ensures BreakAt(id + " \n" + msg) == |id|
    decreases |id|
  {
    var t := id + " \n" + msg;
    if id != "" {
      assert !BreaksAt(id, 0);
      assert t[1..] == id[1..] + " \n" + msg;
      forall i: nat | i < |id[1..]|
        ensures !BreaksAt(id[1..], i)
      {
        assert !BreaksAt(id, i + 1);
      }
      BreakFound(id[1..], msg);
    }
  }

  lemma SentUnder(g: S.Group, msg: string, id: string)
    requires g.addWhatInFront && Unbroken(g.what)
    ensures ReportUnder(S.TextToSend(g, msg), id) == if g.what == id then [msg] else []
  {
    hide Unbroken;
    BreakFound(g.what, msg);
    var t := S.TextToSend(g, msg);
    assert t[..|g.what|] == g.what && t[|g.what| + 2..] == msg;
  }

  lemma UnderNext(ms: seq<O.Message>, x: O.Message, id: string)
    ensures Under(ms + [x], id) == Under(ms, id) + ReportUnder(x.text, id)
  {
    hide ReportUnder;
    assert (ms + [x])[..|ms|] == ms;
  }

  lemma GroupNext(decoder: string, g: S.Group, msgs: seq<string>, msg: string)
    ensures S.OfGroup(decoder, g, msgs + [msg]) ==
            S.OfGroup(decoder, g, msgs) + [O.Message(S.DecoderName(decoder, g), S.TextToSend(g, msg))]
  {
    hide S.DecoderName, S.TextToSend;
  }

  lemma {:induction false} GroupUnder(decoder: string, g: S.Group, msgs: seq<string>, id: string)
    requires g.addWhatInFront && Unbroken(g.what)
    ensures Under(S.OfGroup(decoder, g, msgs), id) == if g.what == id then msgs else []
    decreases |msgs|
  {
    hide ReportUnder, Unbroken, S.TextToSend, S.DecoderName, S.OfGroup, Under;
    if msgs == [] {
      NoneOfGroup(decoder, g);
      NothingUnder(id);
    } else {
      var init, msg := msgs[..|msgs| - 1], msgs[|msgs| - 1];
      assert msgs == init + [msg];
      GroupUnder(decoder, g, init, id);
      GroupNext(decoder, g, init, msg);
      UnderNext(S.OfGroup(decoder, g, init), O.Message(S.DecoderName(decoder, g), S.TextToSend(g, msg)), id);
      SentUnder(g, msg, id);
    }
  }

  lemma NoneOfGroup(decoder: string, g: S.Group)
    ensures S.OfGroup(decoder, g, []) == []
  {
  }

  lemma {:induction false} GroupsUnder(decoder: string, keys: seq<string>, m: MsgMap, id: string)
    requires (forall i, j | 0 <= i < j < |keys| :: keys[i] != keys[j])
    requires forall k | k in keys :: k in m && Unbroken(k)
    ensures Under(S.OfGroups(decoder, GroupsOf(keys, m)), id) == if id in keys then m[id] else []
    decreases |keys|
  {
    hide Unbroken, Under, S.OfGroup;
    var groups := GroupsOf(keys, m);
    if keys == [] {
      NothingUnder(id);
    } else {
      var init, last := keys[..|keys| - 1], keys[|keys| - 1];
      assert last in keys && keys == init + [last];
      assert groups[..|groups| - 1] == GroupsOf(init, m);
      GroupsUnder(decoder, init, m, id);
      var g := groups[|groups| - 1];
      GroupUnder(decoder, g, g.msgs, id);
      UnderAppend(S.OfGroups(decoder, GroupsOf(init, m)), S.OfGroup(decoder, g, g.msgs), id);
    }
  }

  lemma NothingUnder(id: string)
    ensures Under([], id) == []
  {
  }

  // ----- Identifiers are unbroken -----

  lemma ParsedUnbroken(kind: WmoRaport, report: string)
    ensures Unbroken(Parse(kind, report).ident)
  {
    if kind == SYNOP {
      SynopUnbroken(CString(TrimRight(report)));
    } else {
      MetarUnbroken(CString(report));
    }
  }

  lemma MetarUnbroken(s: string)
    ensures Unbroken(MetarType(s).ident)
  {
    var id := MetarType(s).ident;
    assert id in ["METAR", "SPECI", ""];
  }

  // A line break in a SYNOP identifier can only stand right after the four digits of the time.
  lemma PiecesUnbroken(s: string, a: nat, b: nat, c: nat, d: nat, e: nat)
    requires a + 4 <= b <= c <= d <= e <= |s|
    requires forall i | a <= i < a + 4 || d <= i < e :: IsWord(s[i])
    requires forall i | a + 4 <= i < b || c <= i < d :: s[i] == ' '
    requires c == b || (c == b + 5 && forall i | b <= i < b + 4 :: IsDigit(s[i]))
    ensures Unbroken(s[a..e])
  {
    var id := s[a..e];
    forall i: nat | i < |id|
      ensures !BreaksAt(id, i)
    {
      if i + 1 < |id| {
        var k := a + i;
        assert id[i] == s[k] && id[i + 1] == s[k + 1];
        assert s[k] != ' ' || s[k + 1] != '\n';
      }
    }
  }

  lemma EmptyUnbroken()
    ensures Unbroken("")
  {
  }

  lemma SynopUnbroken(s: string)
    ensures Unbroken(SynopType(s).ident)
  {
    hide Unbroken, Spaces, SectionAt, AfterSection, AfterTime, WordStart, WordEnd;
    if SectionAt(s, Spaces(s)) {
      SectionChars(s, Spaces(s));
      IdentUnbroken(s, Spaces(s));
    } else {
      EmptyUnbroken();
    }
  }

  lemma IdentUnbroken(s: string, a: nat)
    requires a + 4 <= |s| && forall i | a <= i < a + 4 :: IsWord(s[i])
    ensures Unbroken(s[a..IdentEnd(s, a)])
  {
    hide Unbroken, Spaces, Leading, IsWord, IsDigit;
    var b := AfterSection(s, a);
    var c := AfterTime(s, b);
    var d := WordStart(s, c);
    SpacesAre(s, a + 4);
    SpacesAre(s, c);
    WordsAre(s, d);
    PiecesUnbroken(s, a, b, c, d, WordEnd(s, d));
  }

  lemma SectionChars(s: string, a: nat)
    requires SectionAt(s, a)
    ensures a + 4 <= |s| && forall i | a <= i < a + 4 :: IsWord(s[i])
  {
    var w := s[a..a + 4];
    assert s[a] == w[0] && s[a + 1] == w[1] && s[a + 2] == w[2] && s[a + 3] == w[3];
  }

  lemma SpacesAre(s: string, from: nat)
    requires from <= |s|
    ensures forall i | from <= i < from + Spaces(s[from..]) :: s[i] == ' '
  {
    var n := Spaces(s[from..]);
    forall i | from <= i < from + n
      ensures s[i] == ' '
    {
      assert s[i] == s[from..][i - from];
    }
  }

  lemma WordsAre(s: string, from: nat)
    requires from <= |s|
    ensures forall i | from <= i < from + Leading(s[from..], IsWord) :: IsWord(s[i])
  {
    var n := Leading(s[from..], IsWord);
    forall i | from <= i < from + n
      ensures IsWord(s[i])
    {
      assert s[i] == s[from..][i - from];
    }
  }

  // ----- Which identifiers there are -----

  // SYNOP identifiers are AAXX or BBXX and what follows; METAR identifiers are two words.
  predicate IdentOf(kind: WmoRaport, id: string) {
    Unbroken(id) && if kind == SYNOP then |id| >= 4 && id[..4] in ["AAXX", "BBXX"] else id in ["METAR", "SPECI"]
  }

  lemma {:induction false} InForceIdent(kind: WmoRaport, reports: seq<string>)
    ensures var p := InForce(kind, reports);
      p.ident == "" || (Unbroken(p.ident) && if kind == SYNOP then Section(p) else p.ident in ["METAR", "SPECI"])
    decreases |reports|
  {
    hide Unbroken, Section, SynopType;
    if reports != [] {
      var report := reports[|reports| - 1];
      ParsedUnbroken(kind, report);
      SynopSection(CString(TrimRight(report)));
      SectionOnly(Parse(kind, report));
      InForceIdent(kind, reports[..|reports| - 1]);
    }
  }

  lemma SectionOnly(p: Parsed)
    ensures Section(p.(rest := "")) == Section(p)
  {
  }

  lemma {:induction false} ListedIdent(kind: WmoRaport, reports: seq<string>, id: string)
    requires Bulletins.Listed(kind, reports, id) != []
    ensures IdentOf(kind, id) || (kind != SYNOP && id == "")
    decreases |reports|
  {
    hide Unbroken, InForce, Entry;
    if IsListed(kind, reports) && InForce(kind, reports).ident == id {
      InForceIdent(kind, reports);
    } else {
      ListedIdent(kind, reports[..|reports| - 1], id);
    }
  }

  // Nothing is ever listed under anything else; in particular no report from a mobile station is. METAR
  // reports before a first identifier are listed under a blank key, which is removed.
  lemma {:induction false} FromBodiesIdent(kind: WmoRaport, bodies: seq<string>, collect: set<WmoRaport>, id: string)
    requires FromBodies(kind, bodies, collect, id) != []
    ensures IdentOf(kind, id) || (kind != SYNOP && id == "")
    decreases |bodies|
  {
    hide IdentOf, Bulletins.Listed, ReportsOf;
    var last := bodies[|bodies| - 1];
    if Bulletins.Listed(kind, ReportsOf(kind, last, collect), id) != [] {
      ListedIdent(kind, ReportsOf(kind, last, collect), id);
    } else {
      FromBodiesIdent(kind, bodies[..|bodies| - 1], collect, id);
    }
  }

  lemma ListedUnbroken(kind: WmoRaport, bodies: seq<string>, collect: set<WmoRaport>, id: string)
    requires FromBodies(kind, bodies, collect, id) != []
    ensures Unbroken(id)
  {
    hide FromBodies;
    FromBodiesIdent(kind, bodies, collect, id);
  }

  lemma IdentNotBlank(kind: WmoRaport, id: string)
    requires IdentOf(kind, id)
    ensures Trim(id) != ""
  {
    hide Unbroken, Trim;
    TrimEmpty(id);
    var c := if kind == SYNOP then id[2] else id[0];
    assert c in id && !IsSpace(c);
  }

  // ----- One part: split by a new object, then sent -----

  // What is sent of one kind of report under an identifier.
  function ToSend(kind: WmoRaport, s: Bytes, collect: set<WmoRaport>, decoder: string, id: string): seq<string> {
    if kind in collect && decoder != "" then ListsOf(kind, s, collect, id) else []
  }

  // A report of some kind under an identifier of that kind.
  ghost predicate IsReport(kind: WmoRaport, decoder: string, x: O.Message) {
    x.decoder == decoder != "" && exists id :: IdentOf(kind, id) && ReportUnder(x.text, id) != []
  }

  // A message list that holds, of every kind and under every identifier, what is listed of a part, and
  // nothing else.
  ghost predicate SentFor(part: Bytes, ms: seq<O.Message>, collect: set<WmoRaport>, decoder: WmoRaport -> string) {
    && (forall kind, id | kind in {SYNOP, METAR} && IdentOf(kind, id) ::
          Under(ms, id) == ToSend(kind, part, collect, decoder(kind), id))
    && (forall x | x in ms :: IsReport(SYNOP, decoder(SYNOP), x) || IsReport(METAR, decoder(METAR), x))
  }

  lemma GroupsOfKind(kind: WmoRaport, part: Bytes, m: MsgMap, keys: seq<string>, collect: set<WmoRaport>,
                     decoder: string, id: string)
    requires W.Holds(kind, map[], m, DecodeOf(part).bodies, collect) && Enumerates(keys, m.Keys) && Trim(id) != ""
    ensures Under(S.OfGroups(decoder, GroupsOf(keys, m)), id) == ListsOf(kind, part, collect, id)
  {
    hide Trim, FromBodies, DecodeOf, Under, GroupsOf, Unbroken, IdentOf, S.OfGroups;
    forall k | k in keys
      ensures k in m && Unbroken(k)
    {
      assert Lookup(m, k) == Lookup(map[], k) + FromBodies(kind, DecodeOf(part).bodies, collect, k);
      ListedUnbroken(kind, DecodeOf(part).bodies, collect, k);
    }
    GroupsUnder(decoder, keys, m, id);
    assert Lookup(m, id) == Lookup(map[], id) + FromBodies(kind, DecodeOf(part).bodies, collect, id);
  }

  lemma GroupsHoldReports(kind: WmoRaport, part: Bytes, m: MsgMap, keys: seq<string>, collect: set<WmoRaport>,
                          decoder: string, x: O.Message)
    requires W.Holds(kind, map[], m, DecodeOf(part).bodies, collect) && Enumerates(keys, m.Keys)
    requires x in S.OfGroups(decoder, GroupsOf(keys, m)) && decoder != ""
    ensures IsReport(kind, decoder, x)
  {
    hide Trim, FromBodies, DecodeOf, GroupsOf, Unbroken, IdentOf, S.OfGroups, ReportUnder, Enumerates;
    KeysIn(keys, m);
    MessagesSent(decoder, keys, m, x);
    var i, k :| 0 <= i < |keys| && 0 <= k < |m[keys[i]]| &&
      x == O.Message(decoder, keys[i] + " \n" + m[keys[i]][k]);
    var id := keys[i];
    assert id in keys;
    assert Lookup(m, id) == Lookup(map[], id) + FromBodies(kind, DecodeOf(part).bodies, collect, id);
    FromBodiesIdent(kind, DecodeOf(part).bodies, collect, id);
    BlankKey();
    ListedUnbroken(kind, DecodeOf(part).bodies, collect, id);
    SentUnder(S.Group(id, "", true, m[id]), m[id][k], id);
  }

  lemma BlankKey()
    ensures Trim("") == ""
  {
  }

  lemma ListingNext(listings: seq<S.Listing>, l: S.Listing, id: string)
    ensures Under(S.Outgoing(listings + [l]), id) ==
      Under(S.Outgoing(listings), id) + if l.decoder == "" then [] else Under(S.OfGroups(l.decoder, l.groups), id)
    ensures forall x | x in S.Outgoing(listings + [l]) ::
      x in S.Outgoing(listings) || (l.decoder != "" && x in S.OfGroups(l.decoder, l.groups))
  {
    hide Under, S.OfGroups;
    assert (listings + [l])[..|listings|] == listings;
    UnderAppend(S.Outgoing(listings), if l.decoder == "" then [] else S.OfGroups(l.decoder, l.groups), id);
    NothingUnder(id);
  }

  lemma OtherKind(kind: WmoRaport, other: WmoRaport, s: Bytes, collect: set<WmoRaport>, id: string)
    requires kind != other && {kind, other} == {SYNOP, METAR} && IdentOf(kind, id)
    ensures ListsOf(other, s, collect, id) == []
  {
    hide FromBodies, DecodeOf, IdentOf;
    if ListsOf(other, s, collect, id) != [] {
      FromBodiesIdent(other, DecodeOf(s).bodies, collect, id);
      NotBoth(id);
    }
  }

  lemma NotBoth(id: string)
    ensures !(IdentOf(SYNOP, id) && IdentOf(METAR, id))
    ensures !IdentOf(SYNOP, "")
  {
    if |id| >= 4 {
      assert id[2] == id[..4][2];
    }
  }

  method KeysInOrder(m: MsgMap) returns (keys: seq<string>)
    ensures Enumerates(keys, m.Keys)
  {
    keys := [];
    var left := m.Keys;
    while left != {}
      invariant left <= m.Keys && Enumerates(keys, m.Keys - left)
      decreases |left|
    {
      var id :| id in left;
      left := left - {id};
      keys := keys + [id];
    }
  }

  // The lists of one kind, if it is collected.
  method AddListing(kind: WmoRaport, m: MsgMap, collect: set<WmoRaport>, decoder: string, listings: seq<S.Listing>,
                    ghost part: Bytes)
    returns (more: seq<S.Listing>)
    requires W.Holds(kind, map[], m, DecodeOf(part).bodies, collect)
    ensures forall id | Trim(id) != "" ::
      Under(S.Outgoing(more), id) == Under(S.Outgoing(listings), id) + ToSend(kind, part, collect, decoder, id)
    ensures forall x | x in S.Outgoing(more) :: x in S.Outgoing(listings) || IsReport(kind, decoder, x)
  {
    hide Trim, Under, ListsOf, S.Outgoing, S.OfGroups, W.Holds, Enumerates, IsReport;
    more := listings;
    if kind in collect {
      var keys := KeysInOrder(m);
      KeysIn(keys, m);
      var l := S.Listing(decoder, GroupsOf(keys, m));
      more := more + [l];
      forall id | Trim(id) != ""
        ensures Under(S.Outgoing(more), id) ==
                Under(S.Outgoing(listings), id) + ToSend(kind, part, collect, decoder, id)
      {
        ListingNext(listings, l, id);
        GroupsOfKind(kind, part, m, keys, collect, decoder, id);
      }
      ListingNext(listings, l, "");
      forall x | x in S.Outgoing(more)
        ensures x in S.Outgoing(listings) || IsReport(kind, decoder, x)
      {
        if x !in S.Outgoing(listings) {
          GroupsHoldReports(kind, part, m, keys, collect, decoder, x);
        }
      }
    }
  }

  lemma KeysIn(keys: seq<string>, m: MsgMap)
    requires Enumerates(keys, m.Keys)
    ensures forall id | id in keys :: id in m
  {
  }

  // What is done with a part: it is split by a new object, and the lists of the collected kinds are sent.
  method DoNewObs(sender: S.KvSender, obs: Bytes, collect: set<WmoRaport>, decoder: WmoRaport -> string,
                  answer: nat -> S.Answer)
    returns (done: bool, ghost ms: seq<O.Message>)
    requires sender.Valid() && Defined(START, TextOf(obs))
    modifies sender
    ensures sender.Valid()
    ensures done <==> !DecodeOf(obs).hangs
    ensures done ==> SentFor(obs, ms, collect, decoder)
    ensures sender.box == O.ApplyAll(old(sender.box), S.SendOps(ms, answer))
    ensures sender.wire == old(sender.wire) + S.Transmissions(ms, answer)
    ensures !done ==> ms == []
  {
    hide Trim, Under, ListsOf, S.Outgoing, W.Holds, Deframe, IdentOf, Defined, TextOf, IsReport;
    ms := [];
    S.NothingSent(sender.box, answer);
    var wmoRaport := new W.WMORaport();
    done := wmoRaport.Split(TextOf(obs), collect);
    if !done {
      return;
    }
    var none := AddListing(SYNOP, wmoRaport.synop, collect, decoder(SYNOP), [], obs);
    var listings := AddListing(METAR, wmoRaport.metar, collect, decoder(METAR), none, obs);
    sender.SendWMORaport(listings, answer);
    ms := S.Outgoing(listings);
    NothingOutgoing();
    forall kind, id | kind in {SYNOP, METAR} && IdentOf(kind, id)
      ensures Under(ms, id) == ToSend(kind, obs, collect, decoder(kind), id)
    {
      IdentNotBlank(kind, id);
      OtherKind(kind, if kind == SYNOP then METAR else SYNOP, obs, collect, id);
    }
  }

  lemma NothingOutgoing()
    ensures S.Outgoing([]) == [] && forall id :: Under(S.Outgoing([]), id) == []
  {
  }

  // ----- All parts -----

  function Flat(mss: seq<seq<O.Message>>): seq<O.Message> {
    if mss == [] then [] else Flat(mss[..|mss| - 1]) + mss[|mss| - 1]
  }

  lemma {:induction false} PartsUnder(kind: WmoRaport, parts: seq<Bytes>, mss: seq<seq<O.Message>>,
                                      collect: set<WmoRaport>, decoder: WmoRaport -> string, id: string)
    requires |parts| == |mss| && kind in {SYNOP, METAR} && IdentOf(kind, id)
    requires forall k | 0 <= k < |parts| :: SentFor(parts[k], mss[k], collect, decoder)
    ensures Under(Flat(mss), id) ==
            if kind in collect && decoder(kind) != "" then ListsOfParts(kind, parts, collect, id) else []
    decreases |parts|
  {
    hide Under, ListsOf, IdentOf, IsReport;
    if parts == [] {
      NothingUnder(id);
    } else {
      var n := |parts| - 1;
      PartsUnder(kind, parts[..n], mss[..n], collect, decoder, id);
      assert SentFor(parts[n], mss[n], collect, decoder);
      UnderAppend(Flat(mss[..n]), mss[n], id);
    }
  }

  // ----- What was delivered, file by file -----

  // A part that was handed on of a file, and the messages it was sent as.
  datatype Delivery = Delivery(file: string, part: Bytes, messages: seq<O.Message>)

  function PartsOf(history: seq<Delivery>, name: string): seq<Bytes> {
    if history == [] then [] else
      var d := history[|history| - 1];
      PartsOf(history[..|history| - 1], name) + if d.file == name then [d.part] else []
  }

  function MessagesOf(history: seq<Delivery>, name: string): (mss: seq<seq<O.Message>>)
    ensures |mss| == |PartsOf(history, name)|
  {
    if history == [] then [] else
      var d := history[|history| - 1];
      MessagesOf(history[..|history| - 1], name) + if d.file == name then [d.messages] else []
  }

  function AllMessages(history: seq<Delivery>): seq<O.Message> {
    if history == [] then [] else AllMessages(history[..|history| - 1]) + history[|history| - 1].messages
  }

  ghost predicate AllSent(history: seq<Delivery>, collect: set<WmoRaport>, decoder: WmoRaport -> string) {
    forall d | d in history :: SentFor(d.part, d.messages, collect, decoder)
  }

  lemma {:induction false} EachSent(history: seq<Delivery>, name: string, collect: set<WmoRaport>,
                                    decoder: WmoRaport -> string)
    requires AllSent(history, collect, decoder)
    ensures forall k | 0 <= k < |PartsOf(history, name)| ::
      SentFor(PartsOf(history, name)[k], MessagesOf(history, name)[k], collect, decoder)
    decreases |history|
  {
    hide SentFor;
    if history != [] {
      var init, d := history[..|history| - 1], history[|history| - 1];
      assert d in history && forall x | x in init :: x in history;
      EachSent(init, name, collect, decoder);
    }
  }

  // Over every run of scans, failed reads, cut passes and restarts, of a file that only grows, is
  // remembered whenever it is read on in, and is read where decoding ends idle: what is sent of it under an
  // identifier is, in order, exactly what a single reading of its last content lists under that.
  lemma SentIsBatch(kind: WmoRaport, evs: seq<Event>, tmpdir: string, name: string, history: seq<Delivery>,
                    collect: set<WmoRaport>, decoder: WmoRaport -> string, id: string)
    requires GrowingRun(EMPTY, evs, tmpdir, name, [])
    requires ReadsRemembered(EMPTY, evs, tmpdir, name, [], NO_MEMORY) && ReadsIdle(EMPTY, evs, tmpdir, name, [])
    requires kind in {SYNOP, METAR} && IdentOf(kind, id)
    requires AllSent(history, collect, decoder)
    requires PartsOf(history, name) == HandedSoFar(Outcome(EMPTY, evs, tmpdir, name, []).0, name)
    ensures Under(Flat(MessagesOf(history, name)), id) ==
            ToSend(kind, Outcome(EMPTY, evs, tmpdir, name, []).1, collect, decoder(kind), id)
  {
    hide GrowingRun, ReadsRemembered, ReadsIdle, Outcome, Under, ListsOf, SentFor, ListsOfParts, HandedSoFar, IdentOf,
         PartsOf, MessagesOf, AllSent;
    RunIsBatch(kind, evs, tmpdir, name, collect, id);
    EachSent(history, name, collect, decoder);
    PartsUnder(kind, PartsOf(history, name), MessagesOf(history, name), collect, decoder, id);
  }
}
