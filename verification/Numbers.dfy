/** Which lines of a state file are entries, and which texts are numbers. */
module Numbers {
  import opened Text
  import opened Persistence

  // A line is an entry exactly if it holds two ":"; what follows the last two is offset and checksum.
  lemma SplitExactly(line: string, name: string, offset: string, crc: string)
    ensures SplitLine(line) == Fields(name, offset, crc) <==>
            line == name + ":" + offset + ":" + crc && ':' !in offset && ':' !in crc
  {
    if line == name + ":" + offset + ":" + crc && ':' !in offset && ':' !in crc {
      SplitBack(name, offset, crc);
    }
    SplitKeeps(line);
  }

  lemma SplitBack(name: string, offset: string, crc: string)
    requires ':' !in offset && ':' !in crc
    ensures SplitLine(name + ":" + offset + ":" + crc) == Fields(name, offset, crc)
  {
    hide AfterLast;
    var front := name + ":" + offset;
    var line := front + ":" + crc;
    LastFound(front, ':', crc);
    LastFound(name, ':', offset);
    assert line[..|front|] == front && line[|front| + 1..] == crc;
    assert front[..|name|] == name && front[|name| + 1..] == offset;
  }

  lemma Cut(s: string, i: nat)
    requires 0 < i <= |s| && s[i - 1] == ':'
    ensures s == s[..i - 1] + ":" + s[i..]
  {
  }

  lemma SplitKeeps(line: string)
    ensures var f := SplitLine(line);
      f.Fields? ==> line == f.name + ":" + f.offset + ":" + f.crc && ':' !in f.offset && ':' !in f.crc
  {
    var k := AfterLast(line, ':');
    if k > 0 {
      var front := line[..k - 1];
      var j := AfterLast(front, ':');
      Cut(line, k);
      if j > 0 {
        Cut(front, j);
      }
    }
  }

  lemma NoEntryExactly(line: string)
    ensures SplitLine(line) == NoMatch <==>
            !exists name, offset, crc :: line == name + ":" + offset + ":" + crc && ':' !in offset && ':' !in crc
  {
    hide SplitLine;
    if name, offset, crc :| line == name + ":" + offset + ":" + crc && ':' !in offset && ':' !in crc {
      SplitExactly(line, name, offset, crc);
    }
    if SplitLine(line) != NoMatch {
      var f := SplitLine(line);
      SplitExactly(line, f.name, f.offset, f.crc);
    }
  }

  // ----- Numbers -----

  function Zeros(k: nat): (z: string)
    ensures |z| == k
  {
    if k == 0 then "" else Zeros(k - 1) + "0"
  }

  // Digits that are a number in decimal, with zeros in front or not.
  ghost predicate Digits(s: string, n: nat) {
    exists k: nat :: s == Zeros(k) + Decimal(n)
  }

  // One digit more.
  lemma ParsedNext(s: string, d: nat)
    requires d < 10
    ensures var n := ParseDecimal(s);
      ParseDecimal(s + [Digit(d)]) == if s == "" then Some(d) else if n.Some? then Some(10 * n.value + d) else None
  {
    assert (s + [Digit(d)])[..|s|] == s;
  }

  lemma DecimalNext(m: nat, d: nat)
    requires d < 10
    ensures Decimal(10 * m + d) == if m == 0 then [Digit(d)] else Decimal(m) + [Digit(d)]
  {
  }

  lemma {:induction false} ZerosParsed(k: nat)
    requires k > 0
    ensures ParseDecimal(Zeros(k)) == Some(0)
  {
    hide ParseDecimal;
    ParsedNext(Zeros(k - 1), 0);
    if k > 1 {
      ZerosParsed(k - 1);
    }
  }

  lemma {:induction false} DigitsParsed(k: nat, n: nat)
    ensures ParseDecimal(Zeros(k) + Decimal(n)) == Some(n)
    decreases n
  {
    hide ParseDecimal, Decimal, Zeros, Digit;
    DecimalNext(n / 10, n % 10);
    if n < 10 {
      ParsedNext(Zeros(k), n);
      if k > 0 {
        ZerosParsed(k);
      }
    } else {
      DigitsParsed(k, n / 10);
      DecimalParsed(n / 10);
      ParsedNext(Zeros(k) + Decimal(n / 10), n % 10);
      assert Zeros(k) + Decimal(n) == Zeros(k) + Decimal(n / 10) + [Digit(n % 10)];
    }
  }

  lemma LastDigit(s: string) returns (init: string, d: nat)
    requires ParseDecimal(s).Some?
    ensures d < 10 && s == init + [Digit(d)]
    ensures init != "" ==> ParseDecimal(init).Some? && ParseDecimal(s).value == 10 * ParseDecimal(init).value + d
    ensures init == "" ==> ParseDecimal(s).value == d
  {
    init, d := s[..|s| - 1], DigitValue(s[|s| - 1]);
    assert Digit(d) == s[|s| - 1];
  }

  lemma {:induction false} ParsedDigits(s: string)
    ensures var n := ParseDecimal(s); n.Some? ==> Digits(s, n.value)
    decreases |s|
  {
    hide ParseDecimal, Decimal, Digit, Zeros;
    if ParseDecimal(s).Some? {
      var init, d := LastDigit(s);
      if init == "" {
        DecimalNext(0, d);
        assert s == Zeros(0) + Decimal(d);
      } else {
        ParsedDigits(init);
        var m := ParseDecimal(init).value;
        var k: nat :| init == Zeros(k) + Decimal(m);
        DigitOn(k, m, d);
      }
    }
  }

  lemma Grouped(a: string, b: string, c: string)
    ensures a + b + c == a + (b + c)
  {
  }

  lemma MoreZeros(k: nat)
    ensures Zeros(k + 1) == Zeros(k) + "0"
  {
  }

  lemma DigitOn(k: nat, m: nat, d: nat)
    requires d < 10
    ensures Digits(Zeros(k) + Decimal(m) + [Digit(d)], 10 * m + d)
  {
    hide Decimal, Digit, Zeros;
    DecimalNext(m, d);
    DecimalNext(0, 0);
    ZeroDigit();
    MoreZeros(k);
    Grouped(Zeros(k), Decimal(m), [Digit(d)]);
    if m == 0 {
      assert Zeros(k) + Decimal(m) + [Digit(d)] == Zeros(k + 1) + Decimal(10 * m + d);
    } else {
      assert Zeros(k) + Decimal(m) + [Digit(d)] == Zeros(k) + Decimal(10 * m + d);
    }
  }

  lemma ZeroDigit()
    ensures Digit(0) == '0'
  {
  }

  lemma DecimalExactly(s: string, n: nat)
    ensures ParseDecimal(s) == Some(n) <==> Digits(s, n)
  {
    hide ParseDecimal, Decimal;
    if k: nat :| s == Zeros(k) + Decimal(n) {
      DigitsParsed(k, n);
    }
    ParsedDigits(s);
  }

  // A sign or none, and digits.
  ghost predicate NumberText(s: string, n: nat, negative: bool) {
    exists sign, d :: s == sign + d && Digits(d, n) && (if negative then sign == "-" else sign == "" || sign == "+")
  }

  lemma DigitsFirst(d: string, n: nat)
    requires Digits(d, n)
    ensures d != "" && d[0] != '-' && d[0] != '+'
  {
    hide Decimal;
    var k: nat :| d == Zeros(k) + Decimal(n);
    DecimalParsed(n);
    if k == 0 {
      assert d == Decimal(n) && d[0] in Decimal(n);
    } else {
      ZerosAre(k);
    }
  }

  lemma {:induction false} ZerosAre(k: nat)
    requires k > 0
    ensures Zeros(k)[0] == '0'
  {
    if k > 1 {
      ZerosAre(k - 1);
    }
  }

  lemma SignTaken(s: string, n: nat, negative: bool)
    ensures NumberText(s, n, negative) <==>
            s != "" && negative == (s[0] == '-') &&
            ParseDecimal(if s[0] == '-' || s[0] == '+' then s[1..] else s) == Some(n)
  {
    hide ParseDecimal, Digits;
    if sign, d :| s == sign + d && Digits(d, n) && (if negative then sign == "-" else sign == "" || sign == "+") {
      DigitsFirst(d, n);
      DecimalExactly(d, n);
      if sign == "" {
        assert s == d;
      } else {
        assert s[0] == sign[0] && s[1..] == d;
      }
    }
    if s != "" {
      var signed := s[0] == '-' || s[0] == '+';
      var sign, d := if signed then s[..1] else "", if signed then s[1..] else s;
      assert s == sign + d;
      DecimalExactly(d, n);
    }
  }

  // An offset is a number of 64 bits.
  lemma OffsetExactly(s: string, i: int)
    ensures ParseLong(s) == Some(i) <==>
            -0x8000_0000_0000_0000 <= i < 0x8000_0000_0000_0000 &&
            exists n: nat, negative :: NumberText(s, n, negative) && i == (if negative then -(n as int) else n as int)
  {
    hide ParseDecimal, NumberText;
    if n: nat, negative :| NumberText(s, n, negative) && i == (if negative then -(n as int) else n as int) {
      SignTaken(s, n, negative);
    }
    if ParseLong(s).Some? {
      var n := ParseDecimal(if s[0] == '-' || s[0] == '+' then s[1..] else s).value;
      SignTaken(s, n, s[0] == '-');
    }
  }

  // A checksum is one of 32 bits, negated modulo 2^32 by a minus sign.
  lemma ChecksumExactly(s: string, w: bv32)
    ensures ParseUnsigned(s) == Some(w) <==>
            exists n: nat, negative :: n < 0x1_0000_0000 && NumberText(s, n, negative) && w == ToWord(n, negative)
  {
    hide ParseDecimal, NumberText, ToWord;
    if n: nat, negative :| n < 0x1_0000_0000 && NumberText(s, n, negative) && w == ToWord(n, negative) {
      SignTaken(s, n, negative);
    }
    if ParseUnsigned(s).Some? {
      var n := ParseDecimal(if s[0] == '-' || s[0] == '+' then s[1..] else s).value;
      SignTaken(s, n, s[0] == '-');
    }
  }
}
