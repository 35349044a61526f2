/** How a bulletin is split into its reports: skipEmptyLines and readReport, as functions of the text
    left to read and as the stream code that computes them. */
module Reports {
  import opened Text
  import opened Streams

  const BLANKS := " \t\r\n"
  const LINE_ENDS := "\t\r\n"

  predicate IsLineChar(c: char) {
    IsAlnum(c) || c == ' ' || c == '/' || c == '='
  }

  datatype Line = Line(text: string, rest: string)

  // The first line that is not empty. A character outside its alphabet ends it and is dropped; at end of
  // input the last character is there twice.
  function FirstLine(s: string): (l: Line)
    ensures |l.rest| <= |s| && (l.text != "" ==> |l.rest| < |s|)
  {
    var t := DropIn(s, BLANKS);
    var n := Leading(t, IsLineChar);
    if t == "" then Line("", "")
    else if n == |t| then Line(t + [t[n - 1]], "")
    else Line(t[..n], DropIn(t[n + 1..], LINE_ENDS))
  }

  datatype Report = NoReport | Report(text: string, rest: string)

  // Lines are gathered, trimmed on the right, up to the first "=" or the end of the text.
  function Gather(line: string, s: string, buf: string): (r: Report)
    ensures r.Report? ==> |r.rest| <= |s|
    decreases |s|
  {
    var l := TrimRight(line);
    var i := IndexOf(l, '=');
    if i < |l| then Report(buf + l[..i + 1] + "\n", s)
    else
      var buf' := buf + l + "\n";
      if s != "" then Gather(LineOf(s), AfterLine(s), buf')
      else if Trim(buf') != "" then Report(buf' + "\n", "")
      else NoReport
  }

  function NextReport(s: string): (r: Report)
    ensures r.Report? ==> |r.rest| < |s|
  {
    var l := FirstLine(s);
    if l.text == "" then NoReport else Gather(l.text, l.rest, "")
  }

  // All reports of a bulletin, in order, up to the first one that cannot be read.
  function AllReports(s: string): seq<string>
    decreases |s|
  {
    match NextReport(s)
    case NoReport => []
    case Report(text, rest) => [text] + AllReports(rest)
  }

  // ----- The stream code -----

  // A message stream has failed or reached its end only with nothing left to read.
  ghost predicate Sound(ist: InStream)
    reads ist
  {
    ist.Valid() && (!ist.Good() ==> ist.eof)
  }

  lemma DropStep(text: string, p: nat, what: string)
    requires p < |text|
    ensures DropIn(text[p..], what) == if text[p] in what then DropIn(text[p + 1..], what) else text[p..]
  {
    RestOf(text, p);
  }

  lemma DropNone(s: string, what: string)
    requires |s| == 0
    ensures s == "" && DropIn(s, what) == s
  {
  }

  method Skip(ist: InStream, what: string)
    requires Sound(ist)
    modifies ist
    ensures Sound(ist) && ist.Rest() == DropIn(old(ist.Rest()), what)
    ensures ist.Good() ==> ist.Rest() != ""
  {
    hide DropIn;
    var ch: char := *;
    while !ist.eof
      invariant Sound(ist) && DropIn(ist.Rest(), what) == DropIn(old(ist.Rest()), what)
      decreases |ist.text| - ist.pos, !ist.eof
    {
      ghost var p := ist.pos;
      ch := ist.Get(ch);
      if ist.fail {
        DropNone(ist.Rest(), what);
        return;
      }
      DropStep(ist.text, p, what);
      if ch !in what {
        ist.Putback(ch);
        return;
      }
    }
    DropNone(ist.Rest(), what);
  }

  // One round of the second loop of skipEmptyLines, and its three ways out.
  lemma LineStep(text: string, p: nat, q: nat, line: string)
    requires p <= q < |text| && line == text[p..q]
    requires (forall c | c in line :: IsLineChar(c))
    ensures IsLineChar(text[q]) ==>
      line + [text[q]] == text[p..q + 1] && forall c | c in line + [text[q]] :: IsLineChar(c)
    ensures !IsLineChar(text[q]) ==>
      |line| < |text[p..]| && Leading(text[p..], IsLineChar) == |line| && text[p..][..|line|] == line
    ensures !IsLineChar(text[q]) ==> text[p..][|line| + 1..] == text[q + 1..]
  {
    hide IsLineChar;
    var t := text[p..];
    assert t == line + text[q..];
    if !IsLineChar(text[q]) {
      RunOf(line, text[q..]);
    }
  }

  lemma {:induction false} RunOf(line: string, rest: string)
    requires (forall c | c in line :: IsLineChar(c)) && (rest == "" || !IsLineChar(rest[0]))
    ensures Leading(line + rest, IsLineChar) == |line|
    decreases |line|
  {
    hide IsLineChar;
    if line == "" {
      assert line + rest == rest;
    } else {
      assert line[0] in line;
      assert (line + rest)[1..] == line[1..] + rest;
      RunOf(line[1..], rest);
    }
  }

  lemma WholeLine(t: string, line: string)
    requires t == line && forall c | c in line :: IsLineChar(c)
    ensures Leading(t, IsLineChar) == |t|
  {
    hide IsLineChar;
    RunOf(line, "");
    assert line + "" == line;
  }

  method SkipEmptyLines(ist: InStream) returns (line: string)
    requires Sound(ist)
    modifies ist
    ensures Sound(ist) && Line(line, ist.Rest()) == FirstLine(old(ist.Rest()))
  {
    hide DropIn, Leading, IsLineChar;
    line := "";
    var ch: char := *;
    Skip(ist, BLANKS);
    ghost var t := ist.Rest();
    ghost var p := ist.pos;
    while !ist.eof
      invariant Sound(ist) && p <= ist.pos && ist.text[p..] == t
      invariant !ist.eof ==> ist.Good() && t != "" && line == ist.text[p..ist.pos]
      invariant !ist.eof && line != "" ==> ch == line[|line| - 1]
      invariant !ist.eof ==> forall c | c in line :: IsLineChar(c)
      invariant ist.eof ==> Line(line, ist.Rest()) == FirstLine(old(ist.Rest()))
      decreases |ist.text| - ist.pos, !ist.eof
    {
      ghost var q := ist.pos;
      ch := ist.Get(ch);
      if ist.fail && !ist.eof {
        break;
      }
      if IsLineChar(ch) {
        if ist.eof {
          WholeLine(t, line);
        } else {
          LineStep(ist.text, p, q, line);
        }
        line := line + [ch];
      } else {
        if ist.eof {
          LastIsLineChar(line, ch);
        }
        LineStep(ist.text, p, q, line);
        Skip(ist, LINE_ENDS);
        break;
      }
    }
  }

  lemma LastIsLineChar(line: string, ch: char)
    requires line != "" && ch == line[|line| - 1] && forall c | c in line :: IsLineChar(c)
    ensures IsLineChar(ch)
  {
    assert ch in line;
  }

  method ReadReport(ist: InStream) returns (ok: bool, report: string)
    requires Sound(ist)
    modifies ist
    ensures Sound(ist)
    ensures NextReport(old(ist.Rest())) == if ok then Report(report, ist.Rest()) else NoReport
  {
    hide FirstLine, TrimRight, Trim;
    var buf := "";
    report := "";
    var line := SkipEmptyLines(ist);
    if line == "" {
      return false, report;
    }
    while true
      invariant Sound(ist) && Gather(line, ist.Rest(), buf) == NextReport(old(ist.Rest()))
      decreases |ist.text| - ist.pos, !ist.fail
    {
      line := TrimRight(line);
      var i := IndexOf(line, '=');
      if i < |line| {
        line := line[..i + 1];
        buf := buf + line + "\n";
        return true, buf;
      } else {
        buf := buf + line + "\n";
      }
      line := ist.GetLine(line);
      if ist.fail {
        break;
      }
    }
    line := buf;
    if Trim(line) != "" {
      report := line + "\n";
      return true, report;
    }
    return false, report;
  }
}
