/** Splitting a bulletin into reports undoes printing them. */
module ReportLaws {
  import opened Text
  import opened Streams
  import opened Reports

  // A report as it is printed: blanks, then lines, the "=" after the last one, and how many carriage
  // returns stand before each line feed.
  datatype Printed = Printed(lead: string, lines: seq<string>, crs: seq<nat>)

  predicate PlainLine(l: string) {
    '=' !in l && '\n' !in l
  }

  predicate FirstLineOk(l: string) {
    (forall c | c in l :: IsLineChar(c)) && (l != "" ==> l[0] != ' ')
  }

  // With "=" at the very end and nowhere else; the first line over letters, digits, space and "/"; the
  // second line not empty and not starting with a tab or line end.
  predicate PrintableReport(r: Printed) {
    && |r.crs| == |r.lines| > 0
    && (forall c | c in r.lead :: c in BLANKS)
    && (forall l | l in r.lines :: PlainLine(l))
    && FirstLineOk(r.lines[0])
    && (|r.lines| > 1 ==> r.lines[0] != "")
    && (|r.lines| > 1 ==> var second := r.lines[1] + (if |r.lines| == 2 then "=" else "");
                          second != "" && second[0] !in LINE_ENDS)
  }

  function Eol(n: nat): string {
    Crs(n) + "\n"
  }

  // The lines of a report; last is what follows the "=".
  function PrintLines(ls: seq<string>, crs: seq<nat>, last: string): string
    requires |ls| == |crs| > 0
  {
    if |ls| == 1 then ls[0] + "=" + last else ls[0] + Eol(crs[0]) + PrintLines(ls[1..], crs[1..], last)
  }

  function PrintReport(r: Printed): string
    requires PrintableReport(r)
  {
    r.lead + PrintLines(r.lines, r.crs, Eol(r.crs[|r.crs| - 1]))
  }

  // What is read back: the same lines, trimmed on the right.
  function Expected(ls: seq<string>): string
    requires ls != []
  {
    if |ls| == 1 then ls[0] + "=" + "\n" else TrimRight(ls[0]) + "\n" + Expected(ls[1..])
  }

  // ----- Lines -----

  lemma {:induction false} IndexOfFirst(a: string, c: char, b: string)
    requires c !in a
    ensures IndexOf(a + [c] + b, c) == |a|
  {
    if a == "" {
      assert (a + [c] + b)[0] == c;
    } else {
      assert (a + [c] + b)[1..] == a[1..] + [c] + b;
      IndexOfFirst(a[1..], c, b);
    }
  }

  lemma {:induction false} IndexOfNone(a: string, c: char)
    requires c !in a
    ensures IndexOf(a, c) == |a|
  {
    if a != "" {
      IndexOfNone(a[1..], c);
    }
  }

  lemma CrsPlain(n: nat)
    ensures forall c | c in Crs(n) :: c == '\r'
  {
  }

  lemma {:induction false} TrimRightCrs(l: string, n: nat)
    ensures TrimRight(l + Crs(n)) == TrimRight(l)
  {
    if n == 0 {
      assert l + "" == l;
    } else {
      var s := l + Crs(n);
      assert s[..|s| - 1] == l + Crs(n - 1);
      TrimRightCrs(l, n - 1);
    }
  }

  // Reading one printed line.
  lemma OneLine(l: string, n: nat, rest: string)
    requires '\n' !in l
    ensures var s := l + Eol(n) + rest; LineOf(s) == l + Crs(n) && AfterLine(s) == rest
  {
    CrsPlain(n);
    var a := l + Crs(n);
    assert l + Eol(n) + rest == a + ['\n'] + rest;
    IndexOfFirst(a, '\n', rest);
  }

  // A line with the closing mark: everything up to the mark is taken.
  lemma MarkedLine(l: string, tail: string, s: string, buf: string)
    requires '=' !in l
    ensures Gather(l + "=" + tail, s, buf) == Report(buf + (l + "=") + "\n", s)
  {
    var x := l + "=" + tail;
    var t := TrimRight(x);
    assert x[|l|] == '=' && !IsSpace(x[|l|]);
    assert |t| > |l|;
    var tail' := t[|l| + 1..];
    assert t == l + ['='] + tail' by {
      assert t <= x;
      assert t[..|l| + 1] == x[..|l| + 1] == l + "=";
    }
    IndexOfFirst(l, '=', tail');
    assert t[..|l| + 1] == l + "=";
  }

  lemma PlainGather(line: string, s: string, buf: string)
    requires '=' !in line && s != ""
    ensures Gather(line, s, buf) == Gather(LineOf(s), AfterLine(s), buf + TrimRight(line) + "\n")
  {
    var l := TrimRight(line);
    assert forall c | c in l :: c in line;
    IndexOfNone(l, '=');
  }

  ghost predicate Closes(last: string, rest: string) {
    (exists n: nat :: last == Eol(n)) || (last == "" && rest == "")
  }

  lemma LastLine(l: string, last: string, rest: string)
    requires PlainLine(l) && Closes(last, rest)
    ensures var s := l + "=" + last + rest;
      AfterLine(s) == rest && exists tail: string :: LineOf(s) == l + "=" + tail
  {
    var l' := l + "=";
    if n: nat :| last == Eol(n) {
      OneLine(l', n, rest);
      assert LineOf(l' + last + rest) == l + "=" + Crs(n);
    } else {
      IndexOfNone(l', '\n');
      assert l + "=" + last + rest == l';
      assert LineOf(l') == l + "=" + "";
    }
  }

  lemma LastGathered(l: string, last: string, rest: string, buf: string)
    requires PlainLine(l) && Closes(last, rest)
    ensures var s := l + "=" + last + rest;
      Gather(LineOf(s), AfterLine(s), buf) == Report(buf + (l + "=") + "\n", rest)
  {
    hide Gather, LineOf, AfterLine, Closes, IndexOf;
    LastLine(l, last, rest);
    var tail: string :| LineOf(l + "=" + last + rest) == l + "=" + tail;
    MarkedLine(l, tail, rest, buf);
  }

  // The lines after the first, as readReport gathers them.
  lemma {:induction false} LinesGathered(line: string, ls: seq<string>, crs: seq<nat>, last: string, rest: string,
                                         buf: string)
    requires |ls| == |crs| > 0 && (forall l | l in ls :: PlainLine(l)) && Closes(last, rest) && '=' !in line
    ensures Gather(line, PrintLines(ls, crs, last) + rest, buf) ==
            Report(buf + TrimRight(line) + "\n" + Expected(ls), rest)
    decreases |ls|
  {
    hide Gather, LineOf, AfterLine, TrimRight, Closes, IndexOf, Crs;
    var buf' := buf + TrimRight(line) + "\n";
    var s := PrintLines(ls, crs, last) + rest;
    PlainGather(line, s, buf);
    assert PlainLine(ls[0]);
    if |ls| == 1 {
      LastGathered(ls[0], last, rest, buf');
      assert buf' + (ls[0] + "=") + "\n" == buf' + Expected(ls);
    } else {
      var next := PrintLines(ls[1..], crs[1..], last) + rest;
      assert s == ls[0] + Eol(crs[0]) + next;
      OneLine(ls[0], crs[0], next);
      CrsPlain(crs[0]);
      TrimRightCrs(ls[0], crs[0]);
      assert '=' !in Crs(crs[0]);
      LinesGathered(ls[0] + Crs(crs[0]), ls[1..], crs[1..], last, rest, buf');
      assert buf' + TrimRight(ls[0]) + "\n" + Expected(ls[1..]) == buf' + Expected(ls);
    }
  }

  // ----- The first line -----

  lemma {:induction false} DropPrefix(a: string, s: string, what: string)
    requires forall c | c in a :: c in what
    ensures DropIn(a + s, what) == DropIn(s, what)
  {
    if a == "" {
      assert a + s == s;
    } else {
      assert a[0] in a;
      assert (a + s)[1..] == a[1..] + s;
      DropPrefix(a[1..], s, what);
    }
  }

  lemma {:induction false} DropTwice(s: string)
    ensures DropIn(DropIn(s, LINE_ENDS), BLANKS) == DropIn(s, BLANKS)
  {
    if s != "" && s[0] in LINE_ENDS {
      DropTwice(s[1..]);
    }
  }

  lemma EolDropped(n: nat, rest: string)
    ensures var t := Eol(n) + rest; !IsLineChar(t[0]) && DropIn(t[1..], LINE_ENDS) == DropIn(rest, LINE_ENDS)
  {
    CrsPlain(n);
    var e := Eol(n);
    assert e[0] == '\r' || e[0] == '\n' by {
      if n > 0 {
        assert Crs(n)[0] in Crs(n);
      }
    }
    forall c | c in e[1..]
      ensures c in LINE_ENDS
    {
      assert c in e;
    }
    assert (e + rest)[1..] == e[1..] + rest;
    DropPrefix(e[1..], rest, LINE_ENDS);
  }

  // The first line of a printed report, up to its line end.
  lemma FirstLineRead(lead: string, l: string, n: nat, rest: string)
    requires (forall c | c in lead :: c in BLANKS) && l != "" && l[0] != ' ' && forall c | c in l :: IsLineChar(c)
    ensures FirstLine(lead + l + Eol(n) + rest) == Line(l, DropIn(rest, LINE_ENDS))
  {
    var s := l + (Eol(n) + rest);
    assert lead + l + Eol(n) + rest == lead + s;
    DropPrefix(lead, s, BLANKS);
    assert l[0] in l && s[0] == l[0] && s[0] !in BLANKS;
    EolDropped(n, rest);
    var e := Eol(n) + rest;
    RunOf(l, e);
    assert s[|l| + 1..] == e[1..];
    assert s[..|l|] == l;
  }

  lemma LastFirstLine(lead: string, l: string)
    requires (forall c | c in lead :: c in BLANKS) && l != "" && l[0] != ' ' && forall c | c in l :: IsLineChar(c)
    ensures FirstLine(lead + l) == Line(l + [l[|l| - 1]], "")
  {
    DropPrefix(lead, l, BLANKS);
    assert l[0] in l && l[0] !in BLANKS;
    RunOf(l, "");
    assert l + "" == l;
  }

  // ----- Reports -----

  // The text after a report that the next one is read from.
  function After(r: Printed, rest: string): string
    requires r.lines != []
  {
    if |r.lines| == 1 then DropIn(rest, LINE_ENDS) else rest
  }

  lemma SecondLineStays(r: Printed, last: string, rest: string)
    requires PrintableReport(r) && |r.lines| > 1
    ensures var s := PrintLines(r.lines[1..], r.crs[1..], last) + rest; s != "" && DropIn(s, LINE_ENDS) == s
  {
    var ls, crs := r.lines[1..], r.crs[1..];
    assert ls[0] == r.lines[1];
    var s := PrintLines(ls, crs, last) + rest;
    var second := ls[0] + (if |ls| == 1 then "=" else "");
    assert second <= s;
  }

  lemma ReportRead(r: Printed, last: string, rest: string)
    requires PrintableReport(r) && (if |r.lines| == 1 then last == Eol(r.crs[0]) else Closes(last, rest))
    ensures NextReport(r.lead + PrintLines(r.lines, r.crs, last) + rest) == Report(Expected(r.lines), After(r, rest))
  {
    hide Gather, FirstLine, DropIn;
    var l := r.lines[0];
    assert PlainLine(l);
    if |r.lines| == 1 {
      MarkIsLineChar(l);
      FirstLineRead(r.lead, l + "=", r.crs[0], rest);
      assert r.lead + (l + "=") + Eol(r.crs[0]) + rest == r.lead + PrintLines(r.lines, r.crs, last) + rest;
      assert l + "=" + "" == l + "=";
      MarkedLine(l, "", DropIn(rest, LINE_ENDS), "");
      assert "" + (l + "=") + "\n" == Expected(r.lines);
    } else {
      var ls, crs := r.lines[1..], r.crs[1..];
      var s := PrintLines(ls, crs, last) + rest;
      assert r.lead + PrintLines(r.lines, r.crs, last) + rest == r.lead + l + Eol(r.crs[0]) + s;
      FirstLineRead(r.lead, l, r.crs[0], s);
      SecondLineStays(r, last, rest);
      forall x | x in ls
        ensures PlainLine(x)
      {
        assert x in r.lines;
      }
      LinesGathered(l, ls, crs, last, rest, "");
      assert "" + TrimRight(l) + "\n" + Expected(ls) == Expected(r.lines);
    }
  }

  lemma MarkIsLineChar(l: string)
    requires FirstLineOk(l)
    ensures FirstLineOk(l + "=") && l + "=" != ""
  {
  }

  // The last report may end in the last character of the bulletin: the first line is then read with that
  // character twice, which the search for "=" does not notice.
  lemma LastReportRead(r: Printed)
    requires PrintableReport(r)
    ensures NextReport(r.lead + PrintLines(r.lines, r.crs, "")) == Report(Expected(r.lines), "")
  {
    hide Gather, FirstLine, DropIn;
    var s := r.lead + PrintLines(r.lines, r.crs, "");
    if |r.lines| == 1 {
      var l := r.lines[0];
      assert PlainLine(l);
      MarkIsLineChar(l);
      LastFirstLine(r.lead, l + "=");
      MarkedLine(l, "=", "", "");
      var l' := l + "=";
      assert s == r.lead + l';
      assert l + "=" + "=" == l' + [l'[|l'| - 1]];
      assert "" + (l + "=") + "\n" == Expected(r.lines);
    } else {
      assert s + "" == s;
      ReportRead(r, "", "");
    }
  }

  function PrintReports(rs: seq<Printed>): string
    requires forall r | r in rs :: PrintableReport(r)
  {
    if rs == [] then "" else PrintReport(rs[0]) + PrintReports(rs[1..])
  }

  function ExpectedReports(rs: seq<Printed>): seq<string>
    requires forall r | r in rs :: PrintableReport(r)
  {
    if rs == [] then [] else
      assert PrintableReport(rs[0]);
      [Expected(rs[0].lines)] + ExpectedReports(rs[1..])
  }

  lemma LeadingEndsIgnored(s: string)
    ensures AllReports(DropIn(s, LINE_ENDS)) == AllReports(s)
  {
    DropTwice(s);
    assert FirstLine(DropIn(s, LINE_ENDS)) == FirstLine(s);
  }

  lemma OneReport(r: Printed, s: string)
    requires PrintableReport(r)
    ensures AllReports(PrintReport(r) + s) == [Expected(r.lines)] + AllReports(s)
  {
    hide NextReport, DropIn, Expected, PrintLines;
    ReportRead(r, Eol(r.crs[|r.crs| - 1]), s);
    LeadingEndsIgnored(s);
  }

  // Printed reports are read back in order, whatever follows them.
  lemma {:induction false} PrintedReportsReadBack(rs: seq<Printed>, rest: string)
    requires forall r | r in rs :: PrintableReport(r)
    ensures AllReports(PrintReports(rs) + rest) == ExpectedReports(rs) + AllReports(rest)
  {
    hide AllReports, PrintReport, PrintableReport, Expected;
    if rs == [] {
      assert PrintReports(rs) + rest == rest;
      assert ExpectedReports(rs) + AllReports(rest) == AllReports(rest);
    } else {
      var s := PrintReports(rs[1..]) + rest;
      assert PrintableReport(rs[0]);
      OneReport(rs[0], s);
      assert PrintReports(rs) + rest == PrintReport(rs[0]) + s;
      PrintedReportsReadBack(rs[1..], rest);
    }
  }

  // A bulletin of nothing but printed reports, closed by its last "=" or by a line end and blanks.
  lemma BulletinReadBack(rs: seq<Printed>, r: Printed, tail: string)
    requires (forall x | x in rs :: PrintableReport(x)) && PrintableReport(r) && forall c | c in tail :: c in BLANKS
    ensures AllReports(PrintReports(rs) + r.lead + PrintLines(r.lines, r.crs, "")) ==
            ExpectedReports(rs) + [Expected(r.lines)]
    ensures AllReports(PrintReports(rs) + tail) == ExpectedReports(rs)
  {
    hide NextReport, DropIn;
    var s := r.lead + PrintLines(r.lines, r.crs, "");
    LastReportRead(r);
    NothingLeft("");
    assert AllReports(s) == [Expected(r.lines)] + AllReports("");
    PrintedReportsReadBack(rs, s);
    assert PrintReports(rs) + r.lead + PrintLines(r.lines, r.crs, "") == PrintReports(rs) + s;
    PrintedReportsReadBack(rs, tail);
    NothingLeft(tail);
  }

  lemma NothingLeft(tail: string)
    requires forall c | c in tail :: c in BLANKS
    ensures AllReports(tail) == []
  {
    DropPrefix(tail, "", BLANKS);
    assert tail + "" == tail;
  }
}
