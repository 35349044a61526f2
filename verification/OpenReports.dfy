/** The last report of a bulletin need not be closed by "=": it is then what is left, and exactly when there is
    no next report. */
module OpenReports {
  import opened Text
  import opened Streams
  import opened Reports
  import opened ReportLaws

  // Lines, each with its line end; last is the end of the last one.
  function OpenLines(ls: seq<string>, crs: seq<nat>, last: string): string
    requires |ls| == |crs| > 0
  {
    if |ls| == 1 then ls[0] + last else ls[0] + Eol(crs[0]) + OpenLines(ls[1..], crs[1..], last)
  }

  function TrimmedLines(ls: seq<string>): string {
    if ls == [] then "" else TrimRight(ls[0]) + "\n" + TrimmedLines(ls[1..])
  }

  // The text may end without a line end, but then not in an empty line.
  ghost predicate EndsOpen(l: string, last: string) {
    (exists n: nat :: last == Eol(n)) || (last == "" && l != "")
  }

  lemma {:induction false} NotBlankFirst(a: string, b: string)
    requires Trim(a) != ""
    ensures Trim(a + b) != ""
  {
    hide Trim;
    TrimEmpty(a);
    var c :| c in a && !IsSpace(c);
    var i :| 0 <= i < |a| && a[i] == c;
    NotBlank(a + b, i);
  }

  lemma GatherOpen(line: string, s: string, buf: string)
    requires '=' !in line && Trim(buf + TrimRight(line)) != ""
    ensures var buf' := buf + TrimRight(line) + "\n";
      Gather(line, s, buf) == if s != "" then Gather(LineOf(s), AfterLine(s), buf') else Report(buf' + "\n", "")
  {
    hide Trim;
    var l := TrimRight(line);
    assert forall c | c in l :: c in line;
    IndexOfNone(l, '=');
    NotBlankFirst(buf + l, "\n");
  }

  lemma LastOpenLine(l: string, last: string)
    requires PlainLine(l) && EndsOpen(l, last)
    ensures var s := l + last;
      s != "" && AfterLine(s) == "" && '=' !in LineOf(s) && TrimRight(LineOf(s)) == TrimRight(l)
  {
    hide TrimRight;
    if n: nat :| last == Eol(n) {
      OneLine(l, n, "");
      assert l + Eol(n) + "" == l + last;
      TrimRightCrs(l, n);
      CrsPlain(n);
    } else {
      IndexOfNone(l, '\n');
      assert l + "" == l;
    }
  }

  lemma MoreLines(l: string, n: nat, next: string)
    requires PlainLine(l)
    ensures var s := l + Eol(n) + next;
      && s != "" && LineOf(s) == l + Crs(n) && AfterLine(s) == next
      && '=' !in l + Crs(n) && TrimRight(l + Crs(n)) == TrimRight(l)
  {
    hide LineOf, AfterLine, TrimRight;
    OneLine(l, n, next);
    CrsPlain(n);
    TrimRightCrs(l, n);
    assert |Eol(n)| > 0;
  }

  lemma {:induction false} OpenGathered(line: string, ls: seq<string>, crs: seq<nat>, last: string, buf: string)
    requires |ls| == |crs| > 0 && (forall l | l in ls :: PlainLine(l)) && EndsOpen(ls[|ls| - 1], last)
    requires '=' !in line && Trim(buf + TrimRight(line)) != ""
    ensures Gather(line, OpenLines(ls, crs, last), buf) ==
            Report(buf + TrimRight(line) + "\n" + TrimmedLines(ls) + "\n", "")
    decreases |ls|
  {
    hide Gather, LineOf, AfterLine, TrimRight, EndsOpen, Eol, Crs, Trim, PlainLine, TrimmedLines;
    var buf' := buf + TrimRight(line) + "\n";
    var l := ls[0];
    assert l in ls;
    NotBlankFirst(buf + TrimRight(line), "\n");
    NotBlankFirst(buf', TrimRight(l));
    LinesOn(buf', ls);
    if |ls| == 1 {
      LastOpenLine(l, last);
      GatherOpen(line, l + last, buf);
      GatherOpen(LineOf(l + last), "", buf');
    } else {
      var next := OpenLines(ls[1..], crs[1..], last);
      MoreLines(l, crs[0], next);
      GatherOpen(line, l + Eol(crs[0]) + next, buf);
      OpenGathered(l + Crs(crs[0]), ls[1..], crs[1..], last, buf');
    }
  }

  lemma Rejoined(buf: string, l: string, more: string)
    ensures buf + l + "\n" + more + "\n" == buf + (l + "\n" + more) + "\n"
    ensures more == "" ==> buf + l + "\n" + "\n" == buf + (l + "\n" + more) + "\n"
  {
  }

  lemma LinesOn(buf: string, ls: seq<string>)
    requires ls != []
    ensures buf + TrimRight(ls[0]) + "\n" + TrimmedLines(ls[1..]) + "\n" == buf + TrimmedLines(ls) + "\n"
    ensures |ls| == 1 ==> buf + TrimRight(ls[0]) + "\n" + "\n" == buf + TrimmedLines(ls) + "\n"
  {
    hide TrimRight;
    Rejoined(buf, TrimRight(ls[0]), TrimmedLines(ls[1..]));
  }

  // A report without "=" that is the rest of a bulletin: the first line not empty, after it line ends only,
  // then the other lines.
  datatype OpenReport = OpenReport(lead: string, first: string, n: nat, gap: string, lines: seq<string>, crs: seq<nat>,
                                   last: string)

  ghost predicate PrintableOpen(r: OpenReport) {
    && (forall c | c in r.lead :: c in BLANKS)
    && FirstLineOk(r.first) && PlainLine(r.first) && r.first != ""
    && (forall c | c in r.gap :: c in LINE_ENDS)
    && |r.lines| == |r.crs| && (forall l | l in r.lines :: PlainLine(l))
    && (r.lines != [] ==> r.lines[0] != "" && r.lines[0][0] !in LINE_ENDS && EndsOpen(r.lines[|r.lines| - 1], r.last))
  }

  function PrintOpen(r: OpenReport): string
    requires |r.lines| == |r.crs|
  {
    r.lead + r.first + Eol(r.n) + r.gap + if r.lines == [] then "" else OpenLines(r.lines, r.crs, r.last)
  }

  // All its lines, trimmed on the right, and one more line end.
  function ExpectedOpen(r: OpenReport): string {
    TrimmedLines([r.first] + r.lines) + "\n"
  }

  lemma FirstNotBlank(l: string)
    requires FirstLineOk(l) && l != ""
    ensures Trim(TrimRight(l)) != "" && Trim("" + TrimRight(l)) != ""
  {
    hide Trim;
    var t := TrimRight(l);
    assert l[0] in l && !IsSpace(l[0]);
    assert t[0] == l[0];
    NotBlank(t, 0);
    assert "" + t == t;
  }

  lemma OpenStarts(r: OpenReport)
    requires PrintableOpen(r)
    ensures var s := if r.lines == [] then "" else OpenLines(r.lines, r.crs, r.last); DropIn(r.gap + s, LINE_ENDS) == s
  {
    hide EndsOpen;
    var s := if r.lines == [] then "" else OpenLines(r.lines, r.crs, r.last);
    DropPrefix(r.gap, s, LINE_ENDS);
    if r.lines != [] {
      assert r.lines[0] <= s;
    }
  }

  // What is left of a bulletin after its last "=" is one more report.
  lemma OpenReportRead(r: OpenReport)
    requires PrintableOpen(r)
    ensures NextReport(PrintOpen(r)) == Report(ExpectedOpen(r), "")
  {
    hide Gather, FirstLine, DropIn, TrimRight, Trim, EndsOpen;
    var s := if r.lines == [] then "" else OpenLines(r.lines, r.crs, r.last);
    FirstLineRead(r.lead, r.first, r.n, r.gap + s);
    assert PrintOpen(r) == r.lead + r.first + Eol(r.n) + (r.gap + s);
    OpenStarts(r);
    FirstNotBlank(r.first);
    assert ([r.first] + r.lines)[1..] == r.lines;
    if r.lines == [] {
      GatherOpen(r.first, "", "");
      assert "" + TrimRight(r.first) + "\n" == TrimmedLines([r.first] + r.lines);
    } else {
      OpenGathered(r.first, r.lines, r.crs, r.last, "");
      assert "" + TrimRight(r.first) + "\n" + TrimmedLines(r.lines) == TrimmedLines([r.first] + r.lines);
    }
  }

  // A single line that ends the bulletin without a line end is read with its last character twice.
  lemma OpenLineRead(lead: string, l: string)
    requires (forall c | c in lead :: c in BLANKS) && FirstLineOk(l) && PlainLine(l) && l != ""
    ensures NextReport(lead + l) == Report(TrimRight(l + [l[|l| - 1]]) + "\n\n", "")
  {
    hide Gather, FirstLine, DropIn, TrimRight, Trim, FirstLineOk;
    LastFirstLine(lead, l) by {
      IsFirst(l);
    }
    var l' := l + [l[|l| - 1]];
    DoubledOk(l);
    FirstNotBlank(l');
    GatherOpen(l', "", "");
    assert "" + TrimRight(l') + "\n" + "\n" == TrimRight(l') + "\n\n";
  }

  lemma IsFirst(l: string)
    requires FirstLineOk(l) && l != ""
    ensures l[0] != ' ' && forall c | c in l :: IsLineChar(c)
  {
  }

  lemma DoubledOk(l: string)
    requires FirstLineOk(l) && PlainLine(l) && l != ""
    ensures var l' := l + [l[|l| - 1]]; FirstLineOk(l') && '=' !in l' && l' != ""
  {
    hide IsLineChar;
    assert l[|l| - 1] in l;
  }

  // Reports closed by "=", and after them one that is not.
  lemma OpenBulletinReadBack(rs: seq<Printed>, r: OpenReport)
    requires (forall x | x in rs :: PrintableReport(x)) && PrintableOpen(r)
    ensures AllReports(PrintReports(rs) + PrintOpen(r)) == ExpectedReports(rs) + [ExpectedOpen(r)]
  {
    hide NextReport, DropIn, PrintOpen, ExpectedOpen;
    OpenReportRead(r);
    NothingLeft("");
    assert AllReports(PrintOpen(r)) == [ExpectedOpen(r)] + AllReports("");
    PrintedReportsReadBack(rs, PrintOpen(r));
  }

  // A first line ends at the first character that cannot stand in it, which is dropped, and so are the tabs and
  // line ends after that one.
  lemma FirstLineEnds(lead: string, l: string, c: char, rest: string)
    requires (forall x | x in lead :: x in " \t\r\n") && l != "" && l[0] != ' ' && (forall x | x in l :: IsLineChar(x))
    requires !IsLineChar(c)
    ensures FirstLine(lead + l + [c] + rest) == Line(l, DropIn(rest, "\t\r\n"))
  {
    hide DropIn, IsLineChar;
    var s := l + ([c] + rest);
    assert lead + l + [c] + rest == lead + s;
    DropPrefix(lead, s, BLANKS);
    NoBlankFirst(l[0]);
    DropNothing(s);
    RunOf(l, [c] + rest);
    assert s[|l| + 1..] == rest && s[..|l|] == l;
  }

  lemma NoBlankFirst(c: char)
    ensures IsLineChar(c) && c != ' ' ==> c !in BLANKS
  {
  }

  lemma DropNothing(s: string)
    requires s != "" && s[0] !in BLANKS
    ensures DropIn(s, BLANKS) == s
  {
  }

  // ----- When there is a report -----

  lemma {:induction false} GatherFinds(line: string, s: string, buf: string)
    requires Trim(buf + TrimRight(line)) != ""
    ensures Gather(line, s, buf).Report?
    decreases |s|
  {
    hide Trim, LineOf, AfterLine, TrimRight, IndexOf;
    var l := TrimRight(line);
    NotBlankFirst(buf + l, "\n");
    var buf' := buf + l + "\n";
    if IndexOf(l, '=') == |l| && s != "" {
      NotBlankFirst(buf', TrimRight(LineOf(s)));
      GatherFinds(LineOf(s), AfterLine(s), buf');
    }
  }

  // There is no next report exactly if nothing but blanks is left, or after them a character that cannot stand
  // in a first line: a letter, digit, "/" or "=".
  lemma NoReportExactly(s: string)
    ensures NextReport(s) == NoReport <==> var t := DropIn(s, BLANKS); t == "" || !IsLineChar(t[0])
  {
    hide Gather, DropIn, TrimRight, Trim;
    var t := DropIn(s, BLANKS);
    if t != "" && IsLineChar(t[0]) {
      DroppedStarts(s);
      var l := FirstLine(s);
      FirstFound(s);
      FirstNotBlank(l.text);
      GatherFinds(l.text, l.rest, "");
    }
  }

  lemma {:induction false} DroppedStarts(s: string)
    ensures var t := DropIn(s, BLANKS); t != "" ==> t[0] !in BLANKS
  {
    if s != "" && s[0] in BLANKS {
      DroppedStarts(s[1..]);
    }
  }

  lemma FirstFound(s: string)
    requires var t := DropIn(s, BLANKS); t != "" && IsLineChar(t[0]) && t[0] !in BLANKS
    ensures FirstLine(s).text != "" && FirstLineOk(FirstLine(s).text)
  {
    hide DropIn, IsLineChar;
    var t := DropIn(s, BLANKS);
    var n := Leading(t, IsLineChar);
    assert n > 0;
    assert t[0] != ' ';
    assert forall c | c in t[..n] :: IsLineChar(c);
    assert n == |t| ==> t[n - 1] in t[..n];
  }
}
