/** An input stream over a string: a cursor and the two state flags, as std::istringstream has them. */
module Streams {

  class InStream {
    const text: string
    var pos: nat
    var eof: bool
    var fail: bool

    ghost predicate Valid()
      reads this
    {
      pos <= |text| && (eof ==> pos == |text|)
    }

    predicate Good()
      reads this
    {
      !eof && !fail
    }

    // What is left to read.
    ghost function Rest(): string
      requires Valid()
      reads this
    {
      text[pos..]
    }

    constructor (text: string)
      ensures Valid() && Good() && pos == 0 && this.text == text
    {
      this.text := text;
      pos, eof, fail := 0, false, false;
    }

    // A failed read sets the flags and leaves the caller's character as it was.
    method Get(prev: char) returns (ch: char)
      requires Valid()
      modifies this
      ensures Valid()
      ensures old(Good()) && old(pos) < |text| ==> ch == text[old(pos)] && pos == old(pos) + 1 && Good()
      ensures old(Good()) && old(pos) == |text| ==> ch == prev && pos == old(pos) && fail && eof
      ensures !old(Good()) ==> ch == prev && pos == old(pos) && fail && eof == old(eof)
    {
      ch := prev;
      if eof || fail {
        fail := true;
        return;
      }
      if pos == |text| {
        eof, fail := true, true;
        return;
      }
      ch := text[pos];
      pos := pos + 1;
    }

    // Since C++11 putback first clears eof; a stream that has failed stays where it is.
    method Putback(ch: char)
      requires Valid()
      modifies this
      ensures Valid() && !eof
      ensures !old(fail) && old(pos) > 0 && text[old(pos) - 1] == ch ==> pos == old(pos) - 1 && !fail
      ensures !(!old(fail) && old(pos) > 0 && text[old(pos) - 1] == ch) ==> pos == old(pos) && fail
    {
      eof := false;
      if !fail && pos > 0 && text[pos - 1] == ch {
        pos := pos - 1;
      } else {
        fail := true;
      }
    }

    // std::getline: a last line without a newline sets eof only; nothing left to read fails as well.
    method GetLine(prev: string) returns (line: string)
      requires Valid()
      modifies this
      ensures Valid()
      ensures !old(Good()) ==> line == prev && pos == old(pos) && fail && eof == old(eof)
      ensures old(Good()) && old(pos) == |text| ==> line == "" && pos == old(pos) && fail && eof
      ensures old(Good()) && old(pos) < |text| ==>
        !fail && line == LineOf(old(Rest())) && Rest() == AfterLine(old(Rest())) && (eof ==> pos == |text|)
    {
      if eof || fail {
        fail := true;
        return prev;
      }
      hide LineOf, AfterLine;
      line := "";
      while pos < |text| && text[pos] != '\n'
        invariant Valid() && Good() && old(pos) <= pos
        invariant line == text[old(pos)..pos] && '\n' !in line
      {
        line := line + [text[pos]];
        pos := pos + 1;
      }
      LineFound(text, old(pos), pos);
      if pos < |text| {
        pos := pos + 1;
      } else {
        eof := true;
        fail := line == "";
      }
    }
  }

  // The first position of a character, or the length.
  function IndexOf(s: string, c: char): (i: nat)
    ensures i <= |s| && c !in s[..i] && (i < |s| ==> s[i] == c)
  {
    if s == "" || s[0] == c then 0 else
      var i := IndexOf(s[1..], c) + 1;
      assert s[..i] == [s[0]] + s[1..][..i - 1];
      i
  }

  function LineOf(s: string): string {
    s[..IndexOf(s, '\n')]
  }

  function AfterLine(s: string): (t: string)
    ensures s != "" ==> |t| < |s|
  {
    var i := IndexOf(s, '\n');
    if i < |s| then s[i + 1..] else ""
  }

  lemma {:induction false} FirstIndex(rest: string, s: string, line: string)
    requires s == line + rest && '\n' !in line && (rest == "" || rest[0] == '\n')
    ensures IndexOf(s, '\n') == |line|
    decreases |line|
  {
    if line != "" {
      assert s[1..] == line[1..] + rest;
      FirstIndex(rest, s[1..], line[1..]);
    }
  }

  lemma LineFound(text: string, p: nat, q: nat)
    requires p <= q <= |text| && '\n' !in text[p..q] && (q < |text| ==> text[q] == '\n')
    ensures LineOf(text[p..]) == text[p..q]
    ensures AfterLine(text[p..]) == if q < |text| then text[q + 1..] else ""
  {
    assert text[p..] == text[p..q] + text[q..];
    FirstIndex(text[q..], text[p..], text[p..q]);
  }

  lemma RestOf(text: string, p: nat)
    requires p < |text|
    ensures text[p..] != "" && text[p..][0] == text[p] && text[p..][1..] == text[p + 1..]
  {
  }
}
