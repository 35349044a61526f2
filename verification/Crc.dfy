/** The 16-bit CCITT checksum that the collector keeps of a file it has read.

    The program looks two nibbles up in two tables; the reference here divides bit by bit by
    x^16 + x^12 + x^5 + 1 (bit-reversed, starting from zero), and knows nothing of tables. */
module Crc {

  type Bytes = seq<bv8>

  // ----- Reference: division one bit at a time -----

  // Addition of polynomials over GF(2).
  function Xor(a: bv16, b: bv16): bv16 {
    a ^ b
  }

  // One division step: the lowest bit leaves, and if it was set the generator is subtracted
  // (0x8408 is x^12 + x^5 + 1 with the lowest power in the highest bit).
  function Shift(reg: bv16): bv16 {
    (reg >> 1) ^ ((0 - (reg & 1)) & 0x8408)
  }

  function BitStep(reg: bv16, bit: bool): bv16 {
    Shift(if bit then Xor(reg, 1) else reg)
  }

  function Divide(reg: bv16, bits: seq<bool>): bv16
    decreases bits
  {
    if bits == [] then reg else Divide(BitStep(reg, bits[0]), bits[1..])
  }

  // The bits of a byte in the order the division takes them: lowest first.
  function BitsOf(b: bv8): (bits: seq<bool>)
    ensures |bits| == 8
  {
    [b & 0x01 != 0, b & 0x02 != 0, b & 0x04 != 0, b & 0x08 != 0,
     b & 0x10 != 0, b & 0x20 != 0, b & 0x40 != 0, b & 0x80 != 0]
  }

  function Bits(s: Bytes): (bits: seq<bool>)
    ensures |bits| == 8 * |s|
  {
    if s == [] then [] else BitsOf(s[0]) + Bits(s[1..])
  }

  function Checksum(s: Bytes): bv16 {
    Divide(0, Bits(s))
  }

  // ----- The program: two nibble tables -----

  function TableHigh(i: bv32): bv32 {
    if i == 0 then 0x0000 else if i == 1 then 0x1081 else if i == 2 then 0x2102 else if i == 3 then 0x3183
    else if i == 4 then 0x4204 else if i == 5 then 0x5285 else if i == 6 then 0x6306 else if i == 7 then 0x7387
    else if i == 8 then 0x8408 else if i == 9 then 0x9489 else if i == 10 then 0xa50a else if i == 11 then 0xb58b
    else if i == 12 then 0xc60c else if i == 13 then 0xd68d else if i == 14 then 0xe70e else 0xf78f
  }

  function TableLow(i: bv32): bv32 {
    if i == 0 then 0x0000 else if i == 1 then 0x1189 else if i == 2 then 0x2312 else if i == 3 then 0x329b
    else if i == 4 then 0x4624 else if i == 5 then 0x57ad else if i == 6 then 0x6536 else if i == 7 then 0x74bf
    else if i == 8 then 0x8c48 else if i == 9 then 0x9dc1 else if i == 10 then 0xaf5a else if i == 11 then 0xbed3
    else if i == 12 then 0xca6c else if i == 13 then 0xdbe5 else if i == 14 then 0xe97e else 0xf8f7
  }

  // A plain char promoted to a 32-bit word: the sign bit fills the upper 24 bits.
  function Promoted(b: bv8): bv32 {
    if b & 0x80 == 0 then b as bv32 else (b as bv32) | 0xffff_ff00
  }

  // A register as the unsigned int it is kept in.
  function Wide(reg: bv16): bv32 {
    reg as bv32
  }

  function Xor32(a: bv32, b: bv32): bv32 {
    a ^ b
  }

  function Mix(low: bv32, high: bv32, upper: bv32): bv32 {
    Xor32(Xor32(TableLow(low), TableHigh(high)), upper)
  }

  // One round of the program's loop, x being the promoted char.
  function TableStep(crc: bv32, x: bv32): bv32 {
    var n := x ^ crc;
    Mix(n & 0x0f, (n >> 4) & 0x0f, crc >> 8)
  }

  // ----- Eight division steps are one table step -----

  function Shifts(v: bv16, n: nat): bv16 {
    if n == 0 then v else Shift(Shifts(v, n - 1))
  }

  lemma {:induction false} ShiftsAfter(v: bv16, n: nat)
    ensures Shifts(Shift(v), n) == Shifts(v, n + 1)
  {
    hide Shift;
    if n > 0 {
      ShiftsAfter(v, n - 1);
    }
  }

  function Low(v: bv16): bv16 {
    v & 0x0f
  }

  function Rest(v: bv16): bv16 {
    v >> 4
  }

  // What four shifts make of the four lowest bits: the upper table on sixteen bits.
  function Nibble(i: bv16): bv16 {
    ((0 - (i & 1)) & 0x1081) ^ ((0 - ((i >> 1) & 1)) & 0x2102) ^
    ((0 - ((i >> 2) & 1)) & 0x4204) ^ ((0 - ((i >> 3) & 1)) & 0x8408)
  }

  function FourSteps(v: bv16): bv16 {
    Xor(Rest(v), Nibble(Low(v)))
  }

  lemma FourShifts(v: bv16)
    ensures Shift(Shift(Shift(Shift(v)))) == FourSteps(v)
  {
  }

  lemma EightShifts(v: bv16)
    ensures Shift(Shift(Shift(Shift(Shift(Shift(Shift(Shift(v)))))))) == FourSteps(FourSteps(v))
  {
    hide *;
    FourShifts(v);
    FourShifts(FourSteps(v));
  }

  lemma UpperTable(i: bv16)
    requires i < 16
    ensures TableHigh(Wide(i)) == Wide(Nibble(i))
  {
  }

  // The lower table takes a nibble through eight shifts.
  lemma LowerTable(i: bv16)
    requires i < 16
    ensures TableLow(Wide(i)) == Wide(FourSteps(Nibble(i)))
  {
  }

  lemma NibbleLinear(i: bv16, j: bv16)
    ensures Nibble(Xor(i, j)) == Xor(Nibble(i), Nibble(j))
  {
  }

  lemma PartsLinear(i: bv16, j: bv16)
    ensures Rest(Xor(i, j)) == Xor(Rest(i), Rest(j))
    ensures Low(Xor(i, j)) == Xor(Low(i), Low(j))
  {
  }

  lemma XorLaws(a: bv16, b: bv16, c: bv16)
    ensures Xor(a, b) == Xor(b, a)
    ensures Xor(Xor(a, b), c) == Xor(a, Xor(b, c))
  {
  }

  lemma TwoPairs(u: bv16, n: bv16, h: bv16, m: bv16)
    ensures Xor(Xor(u, n), Xor(h, m)) == Xor(Xor(Xor(n, m), h), u)
  {
    hide *;
    XorLaws(u, n, Xor(h, m));
    XorLaws(u, Xor(n, Xor(h, m)), 0);
    XorLaws(h, m, 0);
    XorLaws(n, m, h);
  }

  lemma OneStep(v: bv16)
    ensures FourSteps(v) == Xor(Rest(v), Nibble(Low(v)))
  {
  }

  lemma EightSteps(v: bv16)
    ensures FourSteps(FourSteps(v)) == Xor(Xor(FourSteps(Nibble(Low(v))), Nibble(Low(Rest(v)))), Rest(Rest(v)))
  {
    hide *;
    var rest, n := Rest(v), Nibble(Low(v));
    OneStep(v);
    OneStep(Xor(rest, n));
    OneStep(n);
    PartsLinear(rest, n);
    NibbleLinear(Low(rest), Low(n));
    TwoPairs(Rest(rest), Rest(n), Nibble(Low(rest)), Nibble(Low(n)));
  }

  lemma LowIsSmall(v: bv16)
    ensures Low(v) < 16
  {
  }

  lemma WideXor(a: bv16, b: bv16)
    ensures Wide(Xor(a, b)) == Xor32(Wide(a), Wide(b))
  {
  }

  lemma MixIs(low: bv32, high: bv32, upper: bv32)
    ensures Mix(low, high, upper) == Xor32(Xor32(TableLow(low), TableHigh(high)), upper)
  {
  }

  lemma Unrolled(v: bv16)
    ensures Shifts(v, 8) == Shift(Shift(Shift(Shift(Shift(Shift(Shift(Shift(v))))))))
  {
    hide Shift;
    assert Shifts(v, 1) == Shift(Shifts(v, 0));
    assert Shifts(v, 2) == Shift(Shifts(v, 1));
    assert Shifts(v, 3) == Shift(Shifts(v, 2));
    assert Shifts(v, 4) == Shift(Shifts(v, 3));
    assert Shifts(v, 5) == Shift(Shifts(v, 4));
    assert Shifts(v, 6) == Shift(Shifts(v, 5));
    assert Shifts(v, 7) == Shift(Shifts(v, 6));
  }

  lemma ByteStep(v: bv16)
    ensures Wide(Shifts(v, 8)) == Mix(Wide(Low(v)), Wide(Low(Rest(v))), Wide(Rest(Rest(v))))
  {
    hide *;
    var low, high, upper := Low(v), Low(Rest(v)), Rest(Rest(v));
    Unrolled(v);
    EightShifts(v);
    EightSteps(v);
    LowIsSmall(v);
    LowIsSmall(Rest(v));
    LowerTable(low);
    UpperTable(high);
    WideXor(Xor(FourSteps(Nibble(low)), Nibble(high)), upper);
    WideXor(FourSteps(Nibble(low)), Nibble(high));
    MixIs(Wide(low), Wide(high), Wide(upper));
  }

  // Of the promoted char only the low byte matters to what is looked up.
  lemma Arguments(crc: bv32, x: bv32, reg: bv16, b: bv16)
    requires crc == Wide(reg) && x & 0xff == Wide(b)
    ensures var v := Xor(reg, b);
      && (x ^ crc) & 0x0f == Wide(Low(v)) && ((x ^ crc) >> 4) & 0x0f == Wide(Low(Rest(v)))
      && crc >> 8 == Wide(Rest(Rest(v)))
  {
  }

  lemma LookedUp(crc: bv32, x: bv32, low: bv32, high: bv32, upper: bv32)
    requires low == (x ^ crc) & 0x0f && high == ((x ^ crc) >> 4) & 0x0f && upper == crc >> 8
    ensures TableStep(crc, x) == Mix(low, high, upper)
  {
    hide Mix;
  }

  lemma TableStepDivides(crc: bv32, x: bv32, reg: bv16, b: bv16)
    requires crc == Wide(reg) && x & 0xff == Wide(b)
    ensures TableStep(crc, x) == Wide(Shifts(Xor(reg, b), 8))
  {
    hide *;
    var v := Xor(reg, b);
    Arguments(crc, x, reg, b);
    LookedUp(crc, x, Wide(Low(v)), Wide(Low(Rest(v))), Wide(Rest(Rest(v))));
    ByteStep(v);
  }

  // ----- Eight message bits go into the register as one word -----

  // A run of bits as a word, first bit lowest.
  function Word(bits: seq<bool>): bv16 {
    if bits == [] then 0 else Pushed(Word(bits[1..]), bits[0])
  }

  function Pushed(w: bv16, bit: bool): bv16 {
    if bit then (w << 1) ^ 1 else w << 1
  }

  // The positions a word of n bits leaves empty.
  function Room(n: nat): bv16 {
    if n == 0 then 0xffff else Wider(Room(n - 1))
  }

  function Wider(room: bv16): bv16 {
    room << 1
  }

  predicate Apart(w: bv16, room: bv16) {
    w & room == 0
  }

  lemma PushedApart(w: bv16, room: bv16, bit: bool)
    requires Apart(w, room)
    ensures Apart(Pushed(w, bit), Wider(room))
  {
    if bit {
      assert ((w << 1) ^ 1) & (room << 1) == 0;
    } else {
      assert (w << 1) & (room << 1) == 0;
    }
  }

  lemma NothingFits()
    ensures Apart(Word([]), Room(0))
  {
  }

  lemma {:induction false} WordFits(bits: seq<bool>)
    ensures Apart(Word(bits), Room(|bits|))
  {
    hide Apart, Pushed, Wider;
    if bits == [] {
      NothingFits();
    } else {
      WordFits(bits[1..]);
      PushedApart(Word(bits[1..]), Room(|bits| - 1), bits[0]);
    }
  }

  lemma RoomAtTop(n: nat)
    requires n < 8
    ensures HasTop(Room(n))
  {
    assert Room(1) == 0xfffe;
    assert Room(2) == 0xfffc;
    assert Room(3) == 0xfff8;
    assert Room(4) == 0xfff0;
    assert Room(5) == 0xffe0;
    assert Room(6) == 0xffc0;
    assert Room(7) == 0xff80;
  }

  predicate HasTop(room: bv16) {
    room & 0x8000 == 0x8000
  }

  // Adding a word after a step is adding it one place higher before the step.
  lemma PushZero(v: bv16, w: bv16, room: bv16)
    requires Apart(w, room) && HasTop(room)
    ensures Xor(Shift(v), w) == Shift(Xor(v, Pushed(w, false)))
  {
  }

  lemma PushOne(v: bv16, w: bv16, room: bv16)
    requires Apart(w, room) && HasTop(room)
    ensures Xor(Shift(Xor(v, 1)), w) == Shift(Xor(v, Pushed(w, true)))
  {
  }

  lemma XorZero(v: bv16)
    ensures Xor(v, 0) == v
  {
  }

  lemma {:induction false} DivideByWord(reg: bv16, bits: seq<bool>)
    requires |bits| <= 8
    ensures Divide(reg, bits) == Shifts(Xor(reg, Word(bits)), |bits|)
    decreases bits
  {
    hide Xor, Shift, Pushed, Room, Apart, HasTop;
    if bits == [] {
      XorZero(reg);
    } else {
      var rest := bits[1..];
      DivideByWord(BitStep(reg, bits[0]), rest);
      WordFits(rest);
      RoomAtTop(|rest|);
      if bits[0] {
        PushOne(reg, Word(rest), Room(|rest|));
      } else {
        PushZero(reg, Word(rest), Room(|rest|));
      }
      ShiftsAfter(Xor(reg, Word(bits)), |rest|);
    }
  }

  // A word without its lowest bit, and that bit.
  function Upper(w: bv16): bv16 {
    w >> 1
  }

  predicate Odd(w: bv16) {
    w & 1 == 1
  }

  lemma OddWord(w: bv16)
    requires Odd(w)
    ensures Pushed(Upper(w), true) == w
  {
  }

  lemma EvenWord(w: bv16)
    requires !Odd(w)
    ensures Pushed(Upper(w), false) == w
  {
    assert w & 1 == 0;
  }

  function Dropped(w: bv16, k: nat): bv16 {
    if k == 0 then w else Upper(Dropped(w, k - 1))
  }

  lemma {:induction false} WordFromBits(bits: seq<bool>, w: bv16, k: nat)
    requires k <= |bits| && Dropped(w, |bits|) == 0
    requires forall i: nat | i < |bits| :: bits[i] == Odd(Dropped(w, i))
    ensures Word(bits[k..]) == Dropped(w, k)
    decreases |bits| - k
  {
    hide Pushed, Upper, Odd;
    if k < |bits| {
      WordFromBits(bits, w, k + 1);
      assert bits[k..][1..] == bits[k + 1..];
      if bits[k] {
        OddWord(Dropped(w, k));
      } else {
        EvenWord(Dropped(w, k));
      }
    }
  }

  lemma BitsAreOdd(b: bv8, w: bv16)
    requires w == b as bv16
    ensures BitsOf(b) ==
      [Odd(w), Odd(w >> 1), Odd(w >> 2), Odd(w >> 3), Odd(w >> 4), Odd(w >> 5), Odd(w >> 6), Odd(w >> 7)]
    ensures w >> 8 == 0
  {
  }

  lemma UpperOf(w: bv16)
    ensures Upper(w) == w >> 1 && Upper(w >> 1) == w >> 2 && Upper(w >> 2) == w >> 3 && Upper(w >> 3) == w >> 4
    ensures Upper(w >> 4) == w >> 5 && Upper(w >> 5) == w >> 6 && Upper(w >> 6) == w >> 7 && Upper(w >> 7) == w >> 8
  {
  }

  lemma DroppedBits(w: bv16)
    ensures Dropped(w, 1) == w >> 1 && Dropped(w, 2) == w >> 2 && Dropped(w, 3) == w >> 3 && Dropped(w, 4) == w >> 4
    ensures Dropped(w, 5) == w >> 5 && Dropped(w, 6) == w >> 6 && Dropped(w, 7) == w >> 7 && Dropped(w, 8) == w >> 8
  {
    hide Upper;
    UpperOf(w);
    assert Dropped(w, 1) == Upper(Dropped(w, 0));
    assert Dropped(w, 2) == Upper(Dropped(w, 1));
    assert Dropped(w, 3) == Upper(Dropped(w, 2));
    assert Dropped(w, 4) == Upper(Dropped(w, 3));
    assert Dropped(w, 5) == Upper(Dropped(w, 4));
    assert Dropped(w, 6) == Upper(Dropped(w, 5));
    assert Dropped(w, 7) == Upper(Dropped(w, 6));
  }

  lemma WordOfByte(b: bv8)
    ensures Word(BitsOf(b)) == b as bv16
  {
    hide Odd, BitsOf, Upper, Pushed;
    var bits, w := BitsOf(b), b as bv16;
    BitsAreOdd(b, w);
    DroppedBits(w);
    WordFromBits(bits, w, 0);
    assert bits[0..] == bits;
  }

  // ----- The loops -----

  lemma {:induction false} DivideAppend(reg: bv16, a: seq<bool>, b: seq<bool>)
    ensures Divide(reg, a + b) == Divide(Divide(reg, a), b)
    decreases a
  {
    if a == [] {
      assert a + b == b;
    } else {
      assert (a + b)[1..] == a[1..] + b;
      DivideAppend(BitStep(reg, a[0]), a[1..], b);
    }
  }

  lemma {:induction false} BitsAppend(s: Bytes, t: Bytes)
    ensures Bits(s + t) == Bits(s) + Bits(t)
  {
    if s == [] {
      assert s + t == t;
    } else {
      assert (s + t)[1..] == s[1..] + t;
      BitsAppend(s[1..], t);
    }
  }

  // What one more byte does to the checksum of what came before.
  lemma ChecksumNext(s: Bytes, k: nat, crc: bv32)
    requires k < |s| && crc == Wide(Checksum(s[..k]))
    ensures TableStep(crc, Promoted(s[k])) == Wide(Checksum(s[..k + 1]))
  {
    hide BitStep, TableStep, BitsOf, Promoted, Xor, Wide;
    var b := s[k];
    var bits := BitsOf(b);
    var reg := Checksum(s[..k]);
    assert s[..k + 1] == s[..k] + [b];
    BitsAppend(s[..k], [b]);
    assert Bits([b]) == bits + Bits([]) == bits;
    DivideAppend(0, Bits(s[..k]), bits);
    DivideByWord(reg, bits);
    WordOfByte(b);
    ByteDivides(crc, b, reg, Word(bits));
  }

  lemma ByteDivides(crc: bv32, b: bv8, reg: bv16, w: bv16)
    requires crc == Wide(reg) && w == b as bv16
    ensures TableStep(crc, Promoted(b)) == Wide(Shifts(Xor(reg, w), 8))
  {
    hide TableStep, Xor, Shifts, Promoted;
    PromotedLow(b);
    TableStepDivides(crc, Promoted(b), reg, w);
  }

  lemma PromotedLow(b: bv8)
    ensures Promoted(b) & 0xff == (b as bv16) as bv32
  {
  }

  lemma NothingYet(s: Bytes)
    ensures Wide(Checksum(s[..0])) == 0
  {
  }

  // The program's checksum of a string is the remainder of the division.
  method CrcOfString(buf: Bytes) returns (crc: bv32)
    ensures crc == Wide(Checksum(buf))
  {
    hide *;
    crc := 0;
    NothingYet(buf);
    var i := 0;
    while i < |buf|
      invariant i <= |buf|
      invariant crc == Wide(Checksum(buf[..i]))
    {
      ChecksumNext(buf, i, crc);
      crc := TableStep(crc, Promoted(buf[i]));
      i := i + 1;
    }
    assert buf[..i] == buf;
    Short(crc, Checksum(buf));
    crc := crc & 0xffff;
  }

  lemma Short(crc: bv32, reg: bv16)
    requires crc == Wide(reg)
    ensures crc & 0xffff == crc
  {
  }

  // The same loop over a C string: it stops at the first NUL.
  method CrcOfCString(buf: Bytes, ghost n: nat) returns (crc: bv32)
    requires n < |buf| && buf[n] == 0 && 0 !in buf[..n]
    ensures crc == Wide(Checksum(buf[..n]))
  {
    hide *;
    crc := 0;
    NothingYet(buf);
    var i := 0;
    while buf[i] != 0
      invariant i <= n
      decreases n - i
      invariant crc == Wide(Checksum(buf[..i]))
    {
      assert i < n;
      ChecksumNext(buf, i, crc);
      crc := TableStep(crc, Promoted(buf[i]));
      i := i + 1;
    }
    assert i == n;
    Short(crc, Checksum(buf[..n]));
    crc := crc & 0xffff;
  }

  // ----- Linearity -----

  function Diff(u: seq<bool>, v: seq<bool>): (d: seq<bool>)
    requires |u| == |v|
    ensures |d| == |u| && forall i: nat | i < |u| :: d[i] == (u[i] != v[i])
  {
    seq(|u|, i requires 0 <= i < |u| => u[i] != v[i])
  }

  lemma ShiftLinear(v: bv16, w: bv16)
    ensures Shift(Xor(v, w)) == Xor(Shift(v), Shift(w))
  {
  }

  lemma XorOneLeft(r: bv16, s: bv16)
    ensures Xor(Xor(r, 1), s) == Xor(Xor(r, s), 1)
  {
  }

  lemma XorOneRight(r: bv16, s: bv16)
    ensures Xor(r, Xor(s, 1)) == Xor(Xor(r, s), 1)
  {
  }

  lemma XorOneBoth(r: bv16, s: bv16)
    ensures Xor(Xor(r, 1), Xor(s, 1)) == Xor(r, s)
  {
  }

  lemma BitStepLinear(r: bv16, s: bv16, a: bool, b: bool)
    ensures BitStep(Xor(r, s), a != b) == Xor(BitStep(r, a), BitStep(s, b))
  {
    hide Shift, Xor;
    XorOneLeft(r, s);
    XorOneRight(r, s);
    XorOneBoth(r, s);
    ShiftLinear(if a then Xor(r, 1) else r, if b then Xor(s, 1) else s);
  }

  lemma {:induction false} DivideLinear(r: bv16, s: bv16, u: seq<bool>, v: seq<bool>)
    requires |u| == |v|
    ensures Divide(Xor(r, s), Diff(u, v)) == Xor(Divide(r, u), Divide(s, v))
    decreases u
  {
    hide BitStep, Xor;
    if u != [] {
      BitStepLinear(r, s, u[0], v[0]);
      assert Diff(u, v)[1..] == Diff(u[1..], v[1..]);
      DivideLinear(BitStep(r, u[0]), BitStep(s, v[0]), u[1..], v[1..]);
    }
  }

  lemma XorSelf(v: bv16)
    ensures Xor(v, v) == 0
  {
  }

  // ----- Bursts -----

  // A lower bound on the register k steps after the first wrong bit entered it.
  function Bar(k: nat): bv16 {
    if k == 0 then 0x8408 else Halved(Bar(k - 1))
  }

  function Halved(t: bv16): bv16 {
    t >> 1
  }

  predicate Reaches(d: bv16, t: bv16) {
    d >= t
  }

  lemma OddShift(d: bv16)
    requires Odd(d)
    ensures Shift(d) == Xor(Upper(d), 0x8408)
  {
  }

  lemma EvenShift(d: bv16)
    requires !Odd(d)
    ensures Shift(d) == Upper(d)
  {
    assert d & 1 == 0;
  }

  lemma OddReaches(d: bv16, t: bv16)
    requires Odd(d)
    ensures Reaches(Shift(d), Halved(t))
  {
  }

  lemma EvenReaches(d: bv16, t: bv16)
    requires !Odd(d) && Reaches(d, t)
    ensures Reaches(Shift(d), Halved(t))
  {
    hide Shift;
    EvenShift(d);
  }

  lemma Flipped(d: bv16)
    ensures Odd(Xor(d, 1)) == !Odd(d)
  {
  }

  lemma UpperReaches(d: bv16, t: bv16)
    requires Reaches(d, t)
    ensures Reaches(Upper(d), Halved(t))
  {
  }

  lemma FlippedUpper(d: bv16)
    ensures Upper(Xor(d, 1)) == Upper(d)
  {
  }

  lemma StepReaches(d: bv16, t: bv16, bit: bool)
    requires Reaches(d, t)
    ensures Reaches(BitStep(d, bit), Halved(t))
  {
    hide Shift, Xor, Reaches, Halved;
    hide Odd, Upper;
    var v := if bit then Xor(d, 1) else d;
    Flipped(d);
    if Odd(v) {
      OddReaches(v, t);
    } else {
      EvenShift(v);
      if bit {
        FlippedUpper(d);
        UpperReaches(d, t);
      } else {
        EvenReaches(d, t);
      }
    }
  }

  lemma {:induction false} BurstSurvives(d: bv16, bits: seq<bool>, k: nat)
    requires Reaches(d, Bar(k))
    ensures Reaches(Divide(d, bits), Bar(k + |bits|))
    decreases bits
  {
    hide Reaches, BitStep, Halved;
    if bits != [] {
      StepReaches(d, Bar(k), bits[0]);
      BurstSurvives(BitStep(d, bits[0]), bits[1..], k + 1);
    }
  }

  lemma BarPositive(k: nat)
    requires k <= 15
    ensures Bar(k) >= 1
  {
    assert Bar(1) == 0x4204 && Bar(2) == 0x2102 && Bar(3) == 0x1081 && Bar(4) == 0x0840;
    assert Bar(5) == 0x0420 && Bar(6) == 0x0210 && Bar(7) == 0x0108 && Bar(8) == 0x0084;
    assert Bar(9) == 0x0042 && Bar(10) == 0x0021 && Bar(11) == 0x0010 && Bar(12) == 0x0008;
    assert Bar(13) == 0x0004 && Bar(14) == 0x0002 && Bar(15) == 0x0001;
  }

  lemma Positive(d: bv16, t: bv16)
    requires Reaches(d, t) && t >= 1
    ensures d != 0
  {
  }

  lemma ReachesBar(d: bv16, k: nat)
    requires k <= 15 && Reaches(d, Bar(k))
    ensures d != 0
  {
    hide Bar, Reaches;
    BarPositive(k);
    Positive(d, Bar(k));
  }

  lemma ShiftZero(d: bv16)
    ensures Shift(d) == 0 <==> d == 0
  {
  }

  lemma {:induction false} ZerosKeep(d: bv16, bits: seq<bool>)
    requires true !in bits
    ensures Divide(d, bits) == 0 <==> d == 0
    decreases bits
  {
    hide Shift, Xor;
    if bits != [] {
      ShiftZero(d);
      ZerosKeep(Shift(d), bits[1..]);
    }
  }

  lemma FirstError()
    ensures Reaches(BitStep(0, true), Bar(0))
  {
    assert Shift(0 ^ 1) == 0x8408;
  }

  // Sixteen bits starting with the first wrong one leave a register that is not zero.
  lemma AfterFirstError(d: bv16, burst: seq<bool>)
    requires |burst| <= 15 && Reaches(d, Bar(0))
    ensures Divide(d, burst) != 0
  {
    hide *;
    BurstSurvives(d, burst, 0);
    ReachesBar(Divide(d, burst), |burst|);
  }

  lemma ShortBurst(burst: seq<bool>)
    requires |burst| <= 15
    ensures Divide(0, [true] + burst) != 0
  {
    hide BitStep, Reaches, Bar;
    assert ([true] + burst)[1..] == burst;
    FirstError();
    AfterFirstError(BitStep(0, true), burst);
  }

  lemma ErrorStays(e: seq<bool>, i: nat)
    requires i < |e| && e[i] && true !in e[..i]
    requires forall j: nat | i + 16 <= j < |e| :: !e[j]
    ensures Divide(0, e) != 0
  {
    hide Divide;
    var n := if i + 16 <= |e| then i + 16 else |e|;
    var burst, after := [true] + e[i + 1..n], e[n..];
    assert e[i..] == burst + after;
    assert e == e[..i] + e[i..];
    DivideAppend(0, e[..i], e[i..]);
    ZerosKeep(0, e[..i]);
    DivideAppend(0, burst, after);
    ShortBurst(e[i + 1..n]);
    ZerosKeep(Divide(0, burst), after);
  }

  lemma FirstTrue(e: seq<bool>) returns (i: nat)
    requires true in e
    ensures i < |e| && e[i] && true !in e[..i]
  {
    i := 0;
    while !e[i]
      invariant i < |e| && true !in e[..i]
      invariant true in e[i..]
      decreases |e| - i
    {
      assert e[i..] == [e[i]] + e[i + 1..];
      assert e[..i + 1] == e[..i] + [e[i]];
      i := i + 1;
    }
  }

  // Two bit strings that differ, and only within some window of sixteen bits, never share a remainder.
  lemma BurstDetected(reg: bv16, u: seq<bool>, v: seq<bool>, w: nat)
    requires |u| == |v| && u != v
    requires forall j: nat | j < |u| && u[j] != v[j] :: w <= j < w + 16
    ensures Divide(reg, u) != Divide(reg, v)
  {
    hide Xor, BitStep;
    var e := Diff(u, v);
    var m: nat :| m < |u| && u[m] != v[m];
    assert e[m];
    var i := FirstTrue(e);
    ErrorStays(e, i);
    DivideLinear(reg, reg, u, v);
    XorSelf(reg);
    XorSelf(Divide(reg, u));
  }

  lemma {:induction false} BitAt(s: Bytes, k: nat, i: nat)
    requires k < |s| && i < 8
    ensures Bits(s)[8 * k + i] == BitsOf(s[k])[i]
  {
    hide BitsOf;
    if k > 0 {
      BitAt(s[1..], k - 1, i);
      assert Bits(s)[8 * k + i] == Bits(s[1..])[8 * (k - 1) + i];
    }
  }

  lemma Widened(a: bv8, b: bv8)
    requires a as bv16 == b as bv16
    ensures a == b
  {
  }

  lemma ByteBitsDiffer(a: bv8, b: bv8)
    requires a != b
    ensures BitsOf(a) != BitsOf(b)
  {
    hide BitsOf;
    WordOfByte(a);
    WordOfByte(b);
    if BitsOf(a) == BitsOf(b) {
      Widened(a, b);
    }
  }

  // An overwrite confined to two adjacent bytes always changes the checksum.
  lemma TwoByteOverwriteDetected(s: Bytes, t: Bytes, k: nat)
    requires |s| == |t| && s != t
    requires forall j: nat | j < |s| && s[j] != t[j] :: k <= j <= k + 1
    ensures Checksum(s) != Checksum(t)
  {
    hide BitsOf, Divide;
    var u, v := Bits(s), Bits(t);
    forall j: nat | j < |u| && u[j] != v[j]
      ensures 8 * k <= j < 8 * k + 16
    {
      BitAt(s, j / 8, j % 8);
      BitAt(t, j / 8, j % 8);
    }
    var m: nat :| m < |s| && s[m] != t[m];
    ByteBitsDiffer(s[m], t[m]);
    var i: nat :| i < 8 && BitsOf(s[m])[i] != BitsOf(t[m])[i];
    BitAt(s, m, i);
    BitAt(t, m, i);
    BurstDetected(0, u, v, 8 * k);
  }

  // ----- Odd numbers of wrong bits -----

  predicate OddBits(bits: seq<bool>) {
    bits != [] && bits[0] != OddBits(bits[1..])
  }

  // Whether an odd number of the lowest n bits of a word are set.
  predicate Parity(v: bv16, n: nat) {
    n > 0 && Odd(v) != Parity(Upper(v), n - 1)
  }

  predicate OddWeight(v: bv16) {
    Parity(v, 16)
  }

  lemma XorOdd(v: bv16, w: bv16)
    ensures Odd(Xor(v, w)) == (Odd(v) != Odd(w))
  {
  }

  lemma XorUpper(v: bv16, w: bv16)
    ensures Upper(Xor(v, w)) == Xor(Upper(v), Upper(w))
  {
  }

  lemma {:induction false} ParityXor(v: bv16, w: bv16, n: nat)
    ensures Parity(Xor(v, w), n) == (Parity(v, n) != Parity(w, n))
    decreases n
  {
    hide Xor, Odd, Upper;
    if n > 0 {
      XorOdd(v, w);
      XorUpper(v, w);
      ParityXor(Upper(v), Upper(w), n - 1);
    }
  }

  lemma {:induction false} DroppedAfter(v: bv16, n: nat)
    ensures Dropped(Upper(v), n) == Dropped(v, n + 1)
  {
    hide Upper;
    if n > 0 {
      DroppedAfter(v, n - 1);
    }
  }

  lemma ZeroEven()
    ensures !Odd(0)
  {
  }

  lemma {:induction false} ParityLonger(v: bv16, n: nat)
    requires Dropped(v, n) == 0
    ensures Parity(v, n + 1) == Parity(v, n)
    decreases n
  {
    hide Odd, Upper;
    if n == 0 {
      ZeroEven();
      assert !Parity(Upper(v), 0);
    } else {
      DroppedAfter(v, n - 1);
      ParityLonger(Upper(v), n - 1);
    }
  }

  lemma WordEnds(v: bv16)
    ensures Dropped(Upper(v), 15) == 0
  {
    hide Upper;
    var w := v >> 8;
    DroppedBits(v);
    DroppedBits(w);
    DroppedTwice(v, 8, 8);
    DroppedAfter(v, 15);
    ShiftedOut(v);
  }

  lemma ShiftedOut(v: bv16)
    ensures (v >> 8) >> 8 == 0
  {
  }

  lemma {:induction false} DroppedTwice(v: bv16, m: nat, n: nat)
    ensures Dropped(Dropped(v, m), n) == Dropped(v, m + n)
  {
    hide Upper;
    if n > 0 {
      DroppedTwice(v, m, n - 1);
    }
  }

  // The subtracted generator has an odd number of terms left, like the bit that left.
  lemma GeneratorParity()
    ensures OddWeight(0x8408)
  {
    assert Parity(0x0001, 1);
    assert Parity(0x0002, 2);
    assert Parity(0x0004, 3);
    assert Parity(0x0008, 4);
    assert Parity(0x0010, 5);
    assert !Parity(0x0021, 6);
    assert !Parity(0x0042, 7);
    assert !Parity(0x0084, 8);
    assert !Parity(0x0108, 9);
    assert !Parity(0x0210, 10);
    assert !Parity(0x0420, 11);
    assert !Parity(0x0840, 12);
    assert Parity(0x1081, 13);
    assert Parity(0x2102, 14);
    assert Parity(0x4204, 15);
  }

  lemma ShiftParity(d: bv16)
    ensures OddWeight(Shift(d)) == OddWeight(d)
  {
    hide Shift, Xor, Odd, Upper;
    WordEnds(d);
    ParityLonger(Upper(d), 15);
    if Odd(d) {
      OddShift(d);
      ParityXor(Upper(d), 0x8408, 16);
      GeneratorParity();
    } else {
      EvenShift(d);
    }
  }

  lemma OneParity()
    ensures OddWeight(1)
  {
    hide Odd, Upper;
    OneBit();
    ZeroParity(15);
  }

  lemma OneBit()
    ensures Odd(1) && Upper(1) == 0 && Upper(0) == 0
  {
  }

  lemma {:induction false} ZeroParity(n: nat)
    ensures !Parity(0, n)
  {
    hide Odd, Upper;
    if n > 0 {
      ZeroEven();
      OneBit();
      ZeroParity(n - 1);
    }
  }

  // The whole generator has an even number of terms: a step flips the parity exactly for a set bit.
  lemma StepParity(d: bv16, bit: bool)
    ensures OddWeight(BitStep(d, bit)) == (OddWeight(d) != bit)
  {
    hide Shift, Xor, Parity;
    ShiftParity(if bit then Xor(d, 1) else d);
    ParityXor(d, 1, 16);
    OneParity();
  }

  lemma {:induction false} RemainderParity(d: bv16, bits: seq<bool>)
    ensures OddWeight(Divide(d, bits)) == (OddWeight(d) != OddBits(bits))
    decreases bits
  {
    hide OddWeight, BitStep;
    if bits != [] {
      StepParity(d, bits[0]);
      RemainderParity(BitStep(d, bits[0]), bits[1..]);
    }
  }

  // An overwrite that flips an odd number of bits, wherever they are, changes the checksum.
  lemma OddOverwriteDetected(s: Bytes, t: Bytes)
    requires |s| == |t| && OddBits(Diff(Bits(s), Bits(t)))
    ensures Checksum(s) != Checksum(t)
  {
    hide Xor, BitStep;
    var u, v := Bits(s), Bits(t);
    DivideLinear(0, 0, u, v);
    XorSelf(0);
    RemainderParity(0, Diff(u, v));
    XorSelf(Divide(0, u));
    ZeroParity(16);
  }
}
