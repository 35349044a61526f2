/** Character classes, the string helpers the report code uses (trim, leading runs), and lists of names. */
module Text {

  datatype Option<+T> = None | Some(value: T)

  predicate IsDigit(c: char) {
    '0' <= c <= '9'
  }

  predicate IsAlnum(c: char) {
    IsDigit(c) || 'a' <= c <= 'z' || 'A' <= c <= 'Z'
  }

  // \w
  predicate IsWord(c: char) {
    IsAlnum(c) || c == '_'
  }

  // \s and isspace
  predicate IsSpace(c: char) {
    c == ' ' || c == '\t' || c == '\n' || c == '\r' || c == 11 as char || c == 12 as char
  }

  function TrimRight(s: string): (t: string)
    ensures t <= s && (t != "" ==> !IsSpace(t[|t| - 1]))
    ensures forall i | |t| <= i < |s| :: IsSpace(s[i])
  {
    if s != "" && IsSpace(s[|s| - 1]) then TrimRight(s[..|s| - 1]) else s
  }

  function TrimLeft(s: string): (t: string)
    ensures |t| <= |s| && t == s[|s| - |t|..] && (t != "" ==> !IsSpace(t[0]))
  {
    AfterRun(s, IsSpace)
  }

  function Trim(s: string): string {
    TrimLeft(TrimRight(s))
  }

  predicate IsBlank(s: string) {
    forall c | c in s :: IsSpace(c)
  }

  lemma {:induction false} TrimRightBlank(s: string)
    ensures TrimRight(s) == "" <==> IsBlank(s)
  {
    if s != "" {
      var c := s[|s| - 1];
      assert s == s[..|s| - 1] + [c];
      TrimRightBlank(s[..|s| - 1]);
      if !IsSpace(c) {
        assert c in s;
      }
    }
  }

  lemma TrimEmpty(s: string)
    ensures Trim(s) == "" <==> IsBlank(s)
  {
    TrimRightBlank(s);
    var t := TrimRight(s);
    if t != "" {
      assert TrimLeft(t) != "" by {
        KeepsLast(t);
      }
    }
  }

  lemma NotBlank(s: string, i: nat)
    requires i < |s| && !IsSpace(s[i])
    ensures Trim(s) != ""
  {
    hide Trim, IsSpace;
    TrimEmpty(s);
    assert s[i] in s;
  }

  lemma KeepsLast(t: string)
    requires t != "" && !IsSpace(t[|t| - 1])
    ensures TrimLeft(t) != ""
  {
    hide IsSpace;
  }

  lemma AndLast(s: string, t: string, z: string)
    requires s != "" && s[..|s| - 1] == t + z
    ensures s == t + (z + [s[|s| - 1]])
  {
  }

  lemma LeftCut(s: string) returns (a: string)
    ensures IsBlank(a) && s == a + TrimLeft(s)
  {
    hide IsSpace;
    a := s[..Leading(s, IsSpace)];
    assert forall i | 0 <= i < |a| :: a[i] == s[i];
  }

  lemma {:induction false} RightCut(s: string) returns (z: string)
    ensures IsBlank(z) && s == TrimRight(s) + z
  {
    hide IsSpace;
    z := "";
    if s != "" && IsSpace(s[|s| - 1]) {
      z := RightCut(s[..|s| - 1]);
      AndLast(s, TrimRight(s[..|s| - 1]), z);
      z := z + [s[|s| - 1]];
    }
  }

  lemma TrimmedIs(s: string)
    ensures Trim(s) == TrimLeft(TrimRight(s))
  {
  }

  lemma SameLast(r: string, a: string, t: string)
    requires r == a + t && t != ""
    ensures r != "" && t[|t| - 1] == r[|r| - 1]
  {
  }

  // What trimming takes away is space on both sides, and it leaves none there.
  lemma TrimmedExactly(s: string)
    ensures var t := Trim(s);
      && (t != "" ==> !IsSpace(t[0]) && !IsSpace(t[|t| - 1]))
      && exists a, z :: IsBlank(a) && IsBlank(z) && s == a + t + z
  {
    hide *;
    TrimmedIs(s);
    var r := TrimRight(s);
    var t := TrimLeft(r);
    var a := LeftCut(r);
    var z := RightCut(s);
    assert s == a + t + z;
    if t != "" {
      SameLast(r, a, t);
    }
  }

  // The number of leading characters of a class.
  function Leading(s: string, p: char -> bool): (n: nat)
    ensures n <= |s| && (forall i | 0 <= i < n :: p(s[i])) && (n < |s| ==> !p(s[n]))
  {
    if s != "" && p(s[0]) then
      var n := Leading(s[1..], p) + 1;
      assert forall i | 1 <= i < n :: s[i] == s[1..][i - 1];
      n
    else 0
  }

  function Spaces(s: string): (n: nat)
    ensures n <= |s|
  {
    Leading(s, c => c == ' ')
  }

  // A text without its leading characters of a class, and without its leading blanks.
  function AfterRun(s: string, p: char -> bool): (t: string)
    ensures |t| <= |s|
  {
    s[Leading(s, p)..]
  }

  function AfterSpaces(s: string): (t: string)
    ensures |t| <= |s|
  {
    s[Spaces(s)..]
  }

  // What a C string function sees of a string: up to the first NUL.
  function CString(s: string): string {
    s[..Leading(s, c => c != '\0')]
  }

  // A text without the leading characters that are in a set.
  function DropIn(s: string, what: string): (t: string)
    ensures |t| <= |s|
  {
    if s != "" && s[0] in what then DropIn(s[1..], what) else s
  }

  lemma {:induction false} DropInExactly(s: string, what: string)
    ensures var t := DropIn(s, what);
      && (t != "" ==> t[0] !in what)
      && exists a :: s == a + t && forall c | c in a :: c in what
  {
    if s != "" && s[0] in what {
      DropInExactly(s[1..], what);
      var t := DropIn(s, what);
      var a: string :| s[1..] == a + t && forall c | c in a :: c in what;
      assert s == [s[0]] + a + t;
      assert forall c | c in [s[0]] + a :: c in what;
    } else {
      var none: string := "";
      assert s == none + s && forall c | c in none :: c in what;
    }
  }

  lemma CStringExactly(s: string)
    ensures var t := CString(s); t <= s && '\0' !in t && (|t| < |s| ==> s[|t|] == '\0')
  {
    assert forall i | 0 <= i < |CString(s)| :: CString(s)[i] == s[i];
  }

  function Crs(n: nat): (s: string)
    ensures |s| == n
  {
    if n == 0 then "" else Crs(n - 1) + "\r"
  }

  // Some names in some order, each once.
  ghost predicate Enumerates(order: seq<string>, names: set<string>) {
    && (forall k :: k in order <==> k in names)
    && (forall i, j | 0 <= i < j < |order| :: order[i] != order[j])
  }

  lemma EnumeratesNone()
    ensures Enumerates([], {})
  {
  }

  lemma EnumeratesNext(order: seq<string>, names: set<string>, name: string)
    requires Enumerates(order, names) && name !in names
    ensures Enumerates(order + [name], names + {name})
  {
  }

  lemma {:induction false} EnumeratesSize(order: seq<string>, names: set<string>)
    requires Enumerates(order, names)
    ensures |order| == |names|
    decreases |order|
  {
    if order == [] {
      assert names == {};
    } else {
      var init, last := order[..|order| - 1], order[|order| - 1];
      assert last in order && forall k :: k in init <==> k in names - {last};
      EnumeratesSize(init, names - {last});
    }
  }
}
