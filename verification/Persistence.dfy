/** The state file: one line "name:offset:crc" for every known file, and how it is read back. */
module Persistence {
  import opened Text
  import opened Streams
  import opened FileEntries

  // ----- Numbers in text -----

  function Digit(d: nat): char
    requires d < 10
  {
    ['0', '1', '2', '3', '4', '5', '6', '7', '8', '9'][d]
  }

  function Decimal(n: nat): string {
    if n < 10 then [Digit(n)] else Decimal(n / 10) + [Digit(n % 10)]
  }

  function DecimalInt(i: int): string {
    if i < 0 then "-" + Decimal(-i) else Decimal(i)
  }

  function DigitValue(c: char): nat
    requires IsDigit(c)
  {
    (c - '0') as nat
  }

  function ParseDecimal(s: string): Option<nat> {
    if s == "" || !IsDigit(s[|s| - 1]) then None
    else if |s| == 1 then Some(DigitValue(s[0]))
    else match ParseDecimal(s[..|s| - 1])
      case None => None
      case Some(n) => Some(10 * n + DigitValue(s[|s| - 1]))
  }

  // lexical_cast<long>: an optional sign, then digits, within range.
  function ParseLong(s: string): Option<int> {
    if s == "" then None
    else
      var digits := ParseDecimal(if s[0] == '-' || s[0] == '+' then s[1..] else s);
      if digits.None? then None
      else
        var n: int := digits.value;
        var i := if s[0] == '-' then -n else n;
        if -0x8000_0000_0000_0000 <= i < 0x8000_0000_0000_0000 then Some(i) else None
  }

  function ToWord(n: nat, negative: bool): bv32
    requires n < 0x1_0000_0000
  {
    if negative then 0 - (n as bv32) else n as bv32
  }

  // lexical_cast<unsigned int>: a minus sign negates modulo 2^32.
  function ParseUnsigned(s: string): Option<bv32> {
    if s == "" then None
    else
      var digits := ParseDecimal(if s[0] == '-' || s[0] == '+' then s[1..] else s);
      if digits.None? || digits.value >= 0x1_0000_0000 then None else Some(ToWord(digits.value, s[0] == '-'))
  }

  lemma {:induction false} DecimalParsed(n: nat)
    ensures ParseDecimal(Decimal(n)) == Some(n)
    ensures Decimal(n) != "" && forall c | c in Decimal(n) :: IsDigit(c)
  {
    if n >= 10 {
      DecimalParsed(n / 10);
      var s := Decimal(n);
      assert s[..|s| - 1] == Decimal(n / 10);
    }
  }

  lemma LongParsed(i: int)
    requires -0x8000_0000_0000_0000 <= i < 0x8000_0000_0000_0000
    ensures ParseLong(DecimalInt(i)) == Some(i) && ':' !in DecimalInt(i) && '\n' !in DecimalInt(i)
  {
    var n: nat := if i < 0 then -i else i;
    DecimalParsed(n);
    if i < 0 {
      assert DecimalInt(i)[1..] == Decimal(n);
    } else {
      assert Decimal(n)[0] in Decimal(n);
    }
  }

  function OfWord(crc: bv32): (n: nat)
    ensures n < 0x1_0000_0000
  {
    crc as nat
  }

  lemma SameWord(crc: bv32)
    ensures ToWord(OfWord(crc), false) == crc
  {
  }

  lemma UnsignedParsed(crc: bv32)
    ensures var s := Decimal(OfWord(crc)); ParseUnsigned(s) == Some(crc) && ':' !in s && '\n' !in s
  {
    hide OfWord, ToWord;
    var n := OfWord(crc);
    DecimalParsed(n);
    assert Decimal(n)[0] in Decimal(n);
    SameWord(crc);
  }

  // ----- Lines -----

  function StateLine(name: string, e: Entry): string {
    name + ":" + DecimalInt(e.offset) + ":" + Decimal(OfWord(e.crc))
  }

  // The position after the last occurrence of a character, or 0.
  function AfterLast(s: string, c: char): (i: nat)
    ensures i <= |s| && (i > 0 ==> s[i - 1] == c) && c !in s[i..]
  {
    if s == "" then 0
    else if s[|s| - 1] == c then |s|
    else
      var i := AfterLast(s[..|s| - 1], c);
      assert s[i..] == s[..|s| - 1][i..] + [s[|s| - 1]];
      i
  }

  datatype Fields = NoMatch | Fields(name: string, offset: string, crc: string)

  // The pattern (.*):(.*):(.*), whose first part takes as much as it can.
  function SplitLine(line: string): Fields {
    var k := AfterLast(line, ':');
    if k == 0 then NoMatch else
      var front := line[..k - 1];
      var j := AfterLast(front, ':');
      if j == 0 then NoMatch else Fields(front[..j - 1], front[j..], line[k..])
  }

  datatype Loaded = Loaded(index: map<string, Entry>) | BadNumber

  // disk gives the modification times of the files that can be stat'ed.
  function ReadLine(line: string, disk: map<string, int>, index: map<string, Entry>): Loaded {
    match SplitLine(line)
    case NoMatch => Loaded(index)
    case Fields(name, offset, crc) =>
      if name == "" || name !in disk then Loaded(index)
      else match ParseLong(offset)
        case None => BadNumber
        case Some(o) =>
          match ParseUnsigned(crc)
          case None => BadNumber
          case Some(w) => Loaded(index[name := Entry(name, disk[name], o, w, false, false, "")])
  }

  function ReadState(s: string, disk: map<string, int>, index: map<string, Entry>): Loaded
    decreases |s|
  {
    if s == "" then Loaded(index) else
      match ReadLine(LineOf(s), disk, index)
      case BadNumber => BadNumber
      case Loaded(index') => ReadState(AfterLine(s), disk, index')
  }

  // What a restart finds in the state file is unseen, not collected and without a copy.
  predicate Fresh(e: Entry) {
    !e.seen && !e.collected && e.copy == ""
  }

  ghost predicate AllFresh(index: map<string, Entry>) {
    forall name | name in index :: index[name].name == name && Fresh(index[name])
  }

  lemma {:induction false} LoadedFresh(s: string, disk: map<string, int>, index: map<string, Entry>)
    requires AllFresh(index)
    ensures var r := ReadState(s, disk, index); r.Loaded? ==> AllFresh(r.index)
    decreases |s|
  {
    hide ReadLine, LineOf, AfterLine, AllFresh;
    if s != "" {
      var r := ReadLine(LineOf(s), disk, index);
      LineFresh(LineOf(s), disk, index);
      if r.Loaded? {
        LoadedFresh(AfterLine(s), disk, r.index);
      }
    }
  }

  lemma LineFresh(line: string, disk: map<string, int>, index: map<string, Entry>)
    requires AllFresh(index)
    ensures var r := ReadLine(line, disk, index); r.Loaded? ==> AllFresh(r.index)
  {
    hide SplitLine, ParseLong, ParseUnsigned;
  }

  // The loop of readFInfoList; a number that cannot be converted ends it with an exception.
  method ReadFInfoList(fist: InStream, disk: map<string, int>, infoList: map<string, Entry>) returns (r: Loaded)
    requires fist.Valid() && fist.Good() && fist.pos == 0
    modifies fist
    ensures r == ReadState(fist.text, disk, infoList)
  {
    hide ReadLine, LineOf, AfterLine;
    r := Loaded(infoList);
    var line := "";
    assert fist.Rest() == fist.text;
    while true
      invariant fist.Valid() && (fist.Good() || fist.Rest() == "")
      invariant r.Loaded? && ReadState(fist.Rest(), disk, r.index) == ReadState(fist.text, disk, infoList)
      decreases |fist.Rest()|
    {
      line := fist.GetLine(line);
      if fist.fail {
        break;
      }
      r := ReadLine(line, disk, r.index);
      if r.BadNumber? {
        return;
      }
    }
  }

  function PrintState(order: seq<string>, index: map<string, Entry>): string
    requires forall name | name in order :: name in index
  {
    if order == [] then "" else
      assert order[0] in order;
      StateLine(order[0], index[order[0]]) + "\n" + PrintState(order[1..], index)
  }

  lemma {:induction false} PrintStateNext(order: seq<string>, name: string, index: map<string, Entry>)
    requires (forall x | x in order :: x in index) && name in index
    ensures PrintState(order + [name], index) == PrintState(order, index) + (StateLine(name, index[name]) + "\n")
  {
    hide StateLine;
    if order == [] {
      assert order + [name] == [name];
      assert PrintState([name][1..], index) == "";
    } else {
      assert order[0] in order;
      assert (order + [name])[1..] == order[1..] + [name];
      PrintStateNext(order[1..], name, index);
    }
  }

  // The loop of saveFInfoList, in some order of the keys.
  method SaveFInfoList(infoList: map<string, Entry>) returns (text: string)
    ensures exists order :: Enumerates(order, infoList.Keys) && text == PrintState(order, infoList)
  {
    hide StateLine;
    text := "";
    ghost var order: seq<string> := [];
    var left := infoList.Keys;
    while left != {}
      invariant left <= infoList.Keys && Enumerates(order, infoList.Keys - left)
      invariant text == PrintState(order, infoList)
      decreases |left|
    {
      var name :| name in left;
      PrintStateNext(order, name, infoList);
      text := text + (StateLine(name, infoList[name]) + "\n");
      order := order + [name];
      left := left - {name};
    }
  }

  // ----- Reading back what was saved -----

  lemma {:induction false} LastFound(a: string, c: char, b: string)
    requires c !in b
    ensures AfterLast(a + [c] + b, c) == |a| + 1
  {
    var s := a + [c] + b;
    if b != "" {
      assert s[..|s| - 1] == a + [c] + b[..|b| - 1];
      LastFound(a, c, b[..|b| - 1]);
    }
  }

  lemma StateLineSplit(name: string, e: Entry)
    requires -0x8000_0000_0000_0000 <= e.offset < 0x8000_0000_0000_0000
    ensures SplitLine(StateLine(name, e)) == Fields(name, DecimalInt(e.offset), Decimal(OfWord(e.crc)))
  {
    hide DecimalInt, Decimal, ParseLong, ParseUnsigned;
    var o, w := DecimalInt(e.offset), Decimal(OfWord(e.crc));
    LongParsed(e.offset);
    UnsignedParsed(e.crc);
    var front := name + ":" + o;
    LastFound(front, ':', w);
    LastFound(name, ':', o);
    var line := StateLine(name, e);
    assert line == front + [':'] + w;
    assert line[..|front|] == front && line[|front| + 1..] == w;
    assert front == name + [':'] + o;
    assert front[..|name|] == name && front[|name| + 1..] == o;
  }

  predicate Storable(name: string, e: Entry) {
    name != "" && '\n' !in name && -0x8000_0000_0000_0000 <= e.offset < 0x8000_0000_0000_0000
  }

  // What is known of a file after a restart: its offset and checksum, if it still exists.
  function Reloaded(name: string, e: Entry, mtime: int): Entry {
    Entry(name, mtime, e.offset, e.crc, false, false, "")
  }

  function Restored(order: seq<string>, index: map<string, Entry>, disk: map<string, int>): map<string, Entry>
    requires forall name | name in order :: name in index
  {
    map name | name in order && name in disk :: Reloaded(name, index[name], disk[name])
  }

  lemma LineReadBack(name: string, e: Entry, disk: map<string, int>, acc: map<string, Entry>)
    requires Storable(name, e)
    ensures ReadLine(StateLine(name, e), disk, acc) ==
      Loaded(if name in disk then acc[name := Reloaded(name, e, disk[name])] else acc)
  {
    hide SplitLine, StateLine, DecimalInt, Decimal, ParseLong, ParseUnsigned;
    StateLineSplit(name, e);
    LongParsed(e.offset);
    UnsignedParsed(e.crc);
  }

  lemma LineIsLine(name: string, e: Entry, rest: string)
    requires Storable(name, e)
    ensures var s := StateLine(name, e) + "\n" + rest; LineOf(s) == StateLine(name, e) && AfterLine(s) == rest
  {
    hide DecimalInt, Decimal, ParseLong, ParseUnsigned;
    LongParsed(e.offset);
    UnsignedParsed(e.crc);
    var line := StateLine(name, e);
    var s := line + "\n" + rest;
    FirstIndex("\n" + rest, s, line);
  }

  lemma {:induction false} StateReadBack(order: seq<string>, index: map<string, Entry>, disk: map<string, int>,
                                         acc: map<string, Entry>)
    requires forall name | name in order :: name in index && Storable(name, index[name])
    requires forall i, j | 0 <= i < j < |order| :: order[i] != order[j]
    ensures ReadState(PrintState(order, index), disk, acc) == Loaded(acc + Restored(order, index, disk))
    decreases |order|
  {
    hide ReadLine, StateLine, Storable, LineOf, AfterLine;
    if order == [] {
      assert acc + Restored([], index, disk) == acc;
    } else {
      var name, rest := order[0], order[1..];
      assert name in order;
      var e := index[name];
      var s := PrintState(order, index);
      LineIsLine(name, e, PrintState(rest, index));
      LineReadBack(name, e, disk, acc);
      var acc' := if name in disk then acc[name := Reloaded(name, e, disk[name])] else acc;
      StateReadBack(rest, index, disk, acc');
      RestoredNext(order, index, disk, acc);
    }
  }

  lemma RestoredAt(order: seq<string>, index: map<string, Entry>, disk: map<string, int>, x: string)
    requires forall name | name in order :: name in index
    ensures x in Restored(order, index, disk) <==> x in order && x in disk
    ensures x in order && x in disk ==> Restored(order, index, disk)[x] == Reloaded(x, index[x], disk[x])
  {
    hide Reloaded;
  }

  lemma RestoredNext(order: seq<string>, index: map<string, Entry>, disk: map<string, int>, acc: map<string, Entry>)
    requires order != [] && forall name | name in order :: name in index
    requires forall i, j | 0 <= i < j < |order| :: order[i] != order[j]
    ensures var name := order[0];
      var acc' := if name in disk then acc[name := Reloaded(name, index[name], disk[name])] else acc;
      acc' + Restored(order[1..], index, disk) == acc + Restored(order, index, disk)
  {
    hide Reloaded, Restored;
    var name, rest := order[0], order[1..];
    var acc' := if name in disk then acc[name := Reloaded(name, index[name], disk[name])] else acc;
    var m, m' := acc + Restored(order, index, disk), acc' + Restored(rest, index, disk);
    assert order == [name] + rest && name !in rest;
    forall x
      ensures x in m' <==> x in m
      ensures x in m ==> m'[x] == m[x]
    {
      RestoredAt(order, index, disk, x);
      RestoredAt(rest, index, disk, x);
    }
  }

  // Reading the state file gives back offset and checksum of exactly the saved files that still exist, with
  // nothing seen, collected or copied; names may contain ":".
  lemma SavedStateRestored(order: seq<string>, index: map<string, Entry>, disk: map<string, int>)
    requires Enumerates(order, index.Keys) && forall name | name in index :: Storable(name, index[name])
    ensures ReadState(PrintState(order, index), disk, map[]) ==
      Loaded(map name | name in index && name in disk :: Reloaded(name, index[name], disk[name]))
  {
    hide Storable, ReadState, PrintState;
    StateReadBack(order, index, disk, map[]);
    assert map[] + Restored(order, index, disk) ==
           map name | name in index && name in disk :: Reloaded(name, index[name], disk[name]);
  }

  lemma {:induction false} KeysAreLines(s: string, disk: map<string, int>, index: map<string, Entry>)
    requires forall name | name in index :: '\n' !in name
    ensures var r := ReadState(s, disk, index); r.Loaded? ==> forall name | name in r.index :: '\n' !in name
    decreases |s|
  {
    if s != "" {
      hide ParseLong, ParseUnsigned;
      var line := LineOf(s);
      assert '\n' !in line;
      var fields := SplitLine(line);
      if fields.Fields? {
        forall c | c in fields.name
          ensures c in line
        {
        }
      }
      var r := ReadLine(line, disk, index);
      if r.Loaded? {
        KeysAreLines(AfterLine(s), disk, r.index);
      }
    }
  }

  // Of files that all still exist, the saved state is restored exactly when no name holds a line feed.
  lemma RestoredUnlessLineFeed(order: seq<string>, index: map<string, Entry>, disk: map<string, int>)
    requires Enumerates(order, index.Keys) && index.Keys <= disk.Keys
    requires forall name | name in index :: Storable(name, index[name]) || '\n' in name
    ensures ReadState(PrintState(order, index), disk, map[]) ==
            Loaded(map name | name in index :: Reloaded(name, index[name], disk[name])) <==>
            forall name | name in index :: '\n' !in name
  {
    hide ReadState, PrintState, Reloaded;
    var all := map name | name in index :: Reloaded(name, index[name], disk[name]);
    if forall name | name in index :: '\n' !in name {
      SavedStateRestored(order, index, disk);
      assert all == map name | name in index && name in disk :: Reloaded(name, index[name], disk[name]);
    } else {
      KeysAreLines(PrintState(order, index), disk, map[]);
      var name :| name in index && '\n' in name;
      assert name in all;
    }
  }
}
