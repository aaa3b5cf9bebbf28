/** The CRC of the image writer (src/a2gspu_png.hpp): table-driven, against division one bit at
    a time.
 */
module Crc {

  import opened Bytes

  // ---------------------------------------------------------------- words of 32 bits

  type word = bv32

  function Xor(x: word, y: word): word { x ^ y }

  function Half(x: word): word { x >> 1 }

  predicate Odd(x: word) { x & 1 != 0 }

  function Low(x: word): word { x & 0xFF }

  function High(x: word): word { x & 0xFFFF_FF00 }

  function Down8(x: word): word { x >> 8 }

  lemma HalfOfXor(x: word, y: word)
    ensures Half(Xor(x, y)) == Xor(Half(x), Half(y))
  {
  }

  lemma OddOfXor(x: word, y: word)
    ensures Odd(Xor(x, y)) <==> Odd(x) != Odd(y)
  {
  }

  lemma XorGroups(x: word, y: word, z: word)
    ensures Xor(Xor(x, y), z) == Xor(x, Xor(y, z))
  {
  }

  lemma XorSwaps(x: word, y: word)
    ensures Xor(x, y) == Xor(y, x)
  {
  }

  lemma XorCancels(x: word, y: word)
    ensures Xor(x, Xor(x, y)) == y
  {
  }

  lemma LowAndHigh(x: word)
    ensures Xor(Low(x), High(x)) == x && Low(Low(x)) == Low(x) && High(Low(x)) == 0
  {
  }

  // ---------------------------------------------------------------- CRC-32

  const POLYNOMIAL: word := 0xEDB8_8320

  /** Divide by the (reflected) polynomial for one bit. */
  function Shift(c: word): word { if Odd(c) then Xor(POLYNOMIAL, Half(c)) else Half(c) }

  function Shifts(c: word, k: nat): word { if k == 0 then c else Shift(Shifts(c, k - 1)) }

  /** Bit-serial division: each message bit meets the lowest bit of the register. */
  function Serial(c: word, bits: seq<bool>): word {
    if bits == [] then c else Shift(Xor(Serial(c, bits[..|bits| - 1]), if bits[|bits| - 1] then 1 else 0))
  }

  /** The bits of a word from the lowest, `n` of them. */
  function BitsFrom(b: word, n: nat): (r: seq<bool>)
    ensures |r| == n
  {
    if n == 0 then [] else [Odd(b)] + BitsFrom(Half(b), n - 1)
  }

  function BitsOf(bytes: seq<byte>): seq<bool> {
    if bytes == [] then [] else BitsOf(bytes[..|bytes| - 1]) + BitsFrom(bytes[|bytes| - 1] as word, 8)
  }

  /** One byte through the table. */
  function Lookup(c: word, b: word): word { Xor(Shifts(Low(Xor(c, b)), 8), Down8(c)) }

  lemma ShiftIsLinear(x: word, y: word)
    ensures Shift(Xor(x, y)) == Xor(Shift(x), Shift(y))
  {
    hide Xor, Half, Odd;
    HalfOfXor(x, y);
    OddOfXor(x, y);
    var a, b := Half(x), Half(y);
    XorGroups(POLYNOMIAL, a, b);
    XorSwaps(a, Xor(POLYNOMIAL, b));
    XorGroups(POLYNOMIAL, b, a);
    XorSwaps(a, b);
    XorGroups(POLYNOMIAL, a, Xor(POLYNOMIAL, b));
    XorCancels(POLYNOMIAL, Xor(b, a));
  }

  lemma {:induction false} ShiftsAreLinear(x: word, y: word, k: nat)
    ensures Shifts(Xor(x, y), k) == Xor(Shifts(x, k), Shifts(y, k))
  {
    hide Shift, Xor;
    if k > 0 {
      ShiftsAreLinear(x, y, k - 1);
      ShiftIsLinear(Shifts(x, k - 1), Shifts(y, k - 1));
    }
  }

  /** `x` halved `k` times. */
  function Halves(x: word, k: nat): word { if k == 0 then x else Half(Halves(x, k - 1)) }

  lemma HighIsEven(x: word)
    ensures !Odd(High(x)) && !Odd(Half(High(x))) && !Odd(Half(Half(High(x)))) && !Odd(Half(Half(Half(High(x)))))
  {
  }

  lemma HighStaysEven(x: word)
    ensures var y := Half(Half(Half(Half(High(x)))));
            !Odd(y) && !Odd(Half(y)) && !Odd(Half(Half(y))) && !Odd(Half(Half(Half(y))))
  {
  }

  lemma EightHalves(x: word)
    ensures Half(Half(Half(Half(Half(Half(Half(Half(High(x))))))))) == Down8(x)
  {
  }

  /** The upper bits only move down. */
  lemma HighFallsThrough(x: word)
    ensures Shifts(High(x), 8) == Down8(x)
  {
    hide Odd, Half, Xor, High, Down8;
    HighIsEven(x);
    HighStaysEven(x);
    EightHalves(x);
    var y := High(x);
    assert Shifts(y, 1) == Half(y);
    assert Shifts(y, 2) == Half(Half(y));
    assert Shifts(y, 3) == Half(Half(Half(y)));
    assert Shifts(y, 4) == Half(Half(Half(Half(y))));
    var z := Half(Half(Half(Half(y))));
    assert Shifts(y, 5) == Half(z);
    assert Shifts(y, 6) == Half(Half(z));
    assert Shifts(y, 7) == Half(Half(Half(z)));
  }

  lemma DownIgnoresLow(c: word, b: word)
    requires High(b) == 0
    ensures Down8(Xor(c, b)) == Down8(c)
  {
  }

  /** The table does eight bits at once. */
  lemma LookupIsEightShifts(c: word, b: word)
    requires High(b) == 0
    ensures Lookup(c, b) == Shifts(Xor(c, b), 8)
  {
    hide Shift, Shifts, Xor, Low, High, Down8;
    var x := Xor(c, b);
    LowAndHigh(x);
    ShiftsAreLinear(Low(x), High(x), 8);
    HighFallsThrough(x);
    DownIgnoresLow(c, b);
  }

  // ---------------------------------------------------------------- from bits to bytes

  lemma HalfMeetsBit(b: word)
    ensures Half(Xor(b, if Odd(b) then 1 else 0)) == Half(b) && !Odd(Xor(b, if Odd(b) then 1 else 0))
  {
  }

  lemma EvenHalves(x: word)
    requires !Odd(x)
    ensures Shift(x) == Half(x)
  {
    hide Xor, Half, Odd;
  }

  lemma SplitBit(c: word, b: word)
    ensures Xor(c, b) == Xor(Xor(c, if Odd(b) then 1 else 0), Xor(b, if Odd(b) then 1 else 0))
  {
  }

  /** Meeting one bit and shifting is meeting the whole word and shifting. */
  lemma OneBit(c: word, b: word)
    ensures Shift(Xor(c, b)) == Xor(Shift(Xor(c, if Odd(b) then 1 else 0)), Half(b))
  {
    hide Shift, Xor, Half, Odd;
    var bit: word := if Odd(b) then 1 else 0;
    SplitBit(c, b);
    ShiftIsLinear(Xor(c, bit), Xor(b, bit));
    HalfMeetsBit(b);
    EvenHalves(Xor(b, bit));
  }

  lemma {:induction false} SerialAppends(c: word, x: seq<bool>, y: seq<bool>)
    ensures Serial(c, x + y) == Serial(Serial(c, x), y)
  {
    hide Shift, Xor;
    if y == [] {
      assert x + y == x;
    } else {
      assert (x + y)[..|x + y| - 1] == x + y[..|y| - 1];
      SerialAppends(c, x, y[..|y| - 1]);
    }
  }

  lemma {:induction false} ShiftsFromInside(c: word, k: nat)
    ensures Shifts(Shift(c), k) == Shifts(c, k + 1)
  {
    hide Shift;
    if k > 0 { ShiftsFromInside(c, k - 1); }
  }

  lemma SerialOne(c: word, bit: bool)
    ensures Serial(c, [bit]) == Shift(Xor(c, if bit then 1 else 0))
  {
    hide Shift, Xor;
    assert [bit][..0] == [];
    assert Serial(c, []) == c;
  }

  /** `n` bits of a word, one at a time or all at once; what is left of the word is left over. */
  lemma {:induction false} SerialIsShifts(c: word, b: word, n: nat)
    ensures Shifts(Xor(c, b), n) == Xor(Serial(c, BitsFrom(b, n)), Halves(b, n))
    decreases n
  {
    hide Shift, Xor, Half, Odd;
    if n > 0 {
      var next := Serial(c, [Odd(b)]);
      SerialOne(c, Odd(b));
      OneBit(c, b);
      SerialAppends(c, [Odd(b)], BitsFrom(Half(b), n - 1));
      SerialIsShifts(next, Half(b), n - 1);
      ShiftsFromInside(Xor(c, b), n - 1);
      HalvesFromInside(b, n - 1);
    }
  }

  lemma {:induction false} HalvesFromInside(b: word, k: nat)
    ensures Halves(Half(b), k) == Halves(b, k + 1)
  {
    hide Half;
    if k > 0 { HalvesFromInside(b, k - 1); }
  }

  lemma ByteIsUsedUp(b: word)
    requires High(b) == 0
    ensures Half(Half(Half(Half(Half(Half(Half(Half(b)))))))) == 0
  {
  }

  lemma EighthHalf(b: word)
    ensures Halves(b, 8) == Half(Half(Half(Half(Half(Half(Half(Half(b))))))))
  {
    hide Half;
    assert Halves(b, 1) == Half(b);
    assert Halves(b, 2) == Half(Halves(b, 1));
    assert Halves(b, 3) == Half(Halves(b, 2));
    assert Halves(b, 4) == Half(Halves(b, 3));
    assert Halves(b, 5) == Half(Halves(b, 4));
    assert Halves(b, 6) == Half(Halves(b, 5));
    assert Halves(b, 7) == Half(Halves(b, 6));
  }

  lemma XorZero(x: word)
    ensures Xor(x, 0) == x
  {
  }

  /** One table step is one byte of the bit-serial division. */
  lemma LookupIsSerial(c: word, b: word)
    requires High(b) == 0
    ensures Lookup(c, b) == Serial(c, BitsFrom(b, 8))
  {
    hide Shift, Xor, Half, Odd, High, Lookup, Serial, BitsFrom, Shifts;
    LookupIsEightShifts(c, b);
    SerialIsShifts(c, b, 8);
    ByteIsUsedUp(b);
    EighthHalf(b);
    XorZero(Serial(c, BitsFrom(b, 8)));
  }

  lemma ByteIsLow(b: byte)
    ensures High(b as word) == 0
  {
  }

  /** The lazily filled table. */
  class Table {
    const entries: array<word>
    var filled: bool

    ghost predicate Valid()
      reads this, entries
    {
      entries.Length == 256 && (filled ==> forall i :: 0 <= i < 256 ==> entries[i] == Shifts(i as word, 8))
    }

    constructor ()
      ensures Valid() && fresh(entries) && !filled
    {
      entries := new word[256];
      filled := false;
    }

    method Fill()
      requires Valid()
      modifies this`filled, entries
      ensures Valid() && filled
    {
      hide Shift;
      for i := 0 to 256
        invariant forall j :: 0 <= j < i ==> entries[j] == Shifts(j as word, 8)
      {
        var c := i as word;
        for k := 0 to 8
          invariant c == Shifts(i as word, k)
        {
          c := Shift(c);
        }
        entries[i] := c;
      }
      filled := true;
    }

    /** `crc32_of` divides its input by the polynomial, bit by bit, from any starting value. */
    method Of(p: seq<byte>, start: word) returns (crc: word)
      requires Valid()
      modifies this`filled, entries
      ensures Valid() && filled && crc == Serial(start, BitsOf(p))
    {
      hide Shift, Shifts, Xor, Down8, Low, Serial, BitsOf;
      if !filled { Fill(); }
      crc := start;
      SerialNone(start, p);
      for i := 0 to |p|
        invariant crc == Serial(start, BitsOf(p[..i]))
        invariant Valid() && filled
      {
        var b := p[i] as word;
        OneMoreByte(start, p, i);
        LowIndex(Xor(crc, b));
        crc := Xor(entries[Low(Xor(crc, b)) as int], Down8(crc));
      }
      assert p[..|p|] == p;
    }
  }

  lemma SerialNone(c: word, p: seq<byte>)
    ensures Serial(c, BitsOf(p[..0])) == c
  {
  }

  lemma OneMoreByte(start: word, p: seq<byte>, i: nat)
    requires i < |p|
    ensures Lookup(Serial(start, BitsOf(p[..i])), p[i] as word) == Serial(start, BitsOf(p[..i + 1]))
  {
    hide Lookup, Serial, BitsFrom;
    ByteIsLow(p[i]);
    LookupIsSerial(Serial(start, BitsOf(p[..i])), p[i] as word);
    assert p[..i + 1][..i] == p[..i];
    SerialAppends(start, BitsOf(p[..i]), BitsFrom(p[i] as word, 8));
  }

  lemma LowIndex(x: word)
    ensures 0 <= Low(x) as int < 256 && Low(x) as int as word == Low(x)
  {
  }

  // ---------------------------------------------------------------- a known checksum

  lemma EightShifts(x0: word, x1: word, x2: word, x3: word, x4: word, x5: word, x6: word, x7: word, x8: word)
    requires Shift(x0) == x1 && Shift(x1) == x2 && Shift(x2) == x3 && Shift(x3) == x4
    requires Shift(x4) == x5 && Shift(x5) == x6 && Shift(x6) == x7 && Shift(x7) == x8
    ensures Shifts(x0, 8) == x8
  {
    hide Shift;
    assert Shifts(x0, 1) == x1;
    assert Shifts(x0, 2) == x2;
    assert Shifts(x0, 3) == x3;
    assert Shifts(x0, 4) == x4;
    assert Shifts(x0, 5) == x5;
    assert Shifts(x0, 6) == x6;
    assert Shifts(x0, 7) == x7;
  }

  lemma XorIs(c: word, b: word, x: word)
    requires c ^ b == x
    ensures Xor(c, b) == x
  {
  }

  lemma FirstByte()
    ensures Shifts(Xor(0xFFFF_FFFF, 0x49), 8) == 0x22FD_E946
  {
    EightShifts(0xFFFF_FFB6, 0x7FFF_FFDB, 0xD247_7CCD, 0x849B_3D46, 0x424D_9EA3, 0xCC9E_4C71, 0x8BF7_A518, 0x45FB_D28C, 0x22FD_E946);
    XorIs(0xFFFF_FFFF, 0x49, 0xFFFF_FFB6);
  }

  lemma SecondByte()
    ensures Shifts(Xor(0x22FD_E946, 0x45), 8) == 0x992B_AC53
  {
    EightShifts(0x22FD_E903, 0xFCC6_77A1, 0x93DB_B8F0, 0x49ED_DC78, 0x24F6_EE3C, 0x127B_771E, 0x093D_BB8F, 0xE926_5EE7, 0x992B_AC53);
    XorIs(0x22FD_E946, 0x45, 0x22FD_E903);
  }

  lemma ThirdByte()
    ensures Shifts(Xor(0x992B_AC53, 0x4E), 8) == 0x639F_4775
  {
    EightShifts(0x992B_AC1D, 0xA12D_552E, 0x5096_AA97, 0xC5F3_D66B, 0x8F41_6815, 0xAA18_372A, 0x550C_1B95, 0xC73E_8EEA, 0x639F_4775);
    XorIs(0x992B_AC53, 0x4E, 0x992B_AC1D);
  }

  lemma FourthByte()
    ensures Shifts(Xor(0x639F_4775, 0x44), 8) == 0x51BD_9F7D
  {
    EightShifts(0x639F_4731, 0xDC77_20B8, 0x6E3B_905C, 0x371D_C82E, 0x1B8E_E417, 0xE07F_F12B, 0x9D87_7BB5, 0xA37B_3EFA, 0x51BD_9F7D);
    XorIs(0x639F_4775, 0x44, 0x639F_4731);
  }

  /** The checksum of the four letters IEND, as every image file ends. */
  lemma EndIsKnown(p: seq<byte>)
    requires |p| == 4 && p[0] == 0x49 && p[1] == 0x45 && p[2] == 0x4E && p[3] == 0x44
    ensures Serial(0xFFFF_FFFF, BitsOf(p)) == 0x51BD_9F7D
  {
    hide Shifts, Xor, Serial, BitsOf, Lookup, Shift, High;
    TwoAreKnown(p);
    ThirdByte();
    OneMoreKnown(0xFFFF_FFFF, p, 2, 0x992B_AC53, 0x639F_4775);
    FourthByte();
    OneMoreKnown(0xFFFF_FFFF, p, 3, 0x639F_4775, 0x51BD_9F7D);
    assert p[..4] == p;
  }

  lemma TwoAreKnown(p: seq<byte>)
    requires |p| == 4 && p[0] == 0x49 && p[1] == 0x45
    ensures Serial(0xFFFF_FFFF, BitsOf(p[..2])) == 0x992B_AC53
  {
    hide Shifts, Xor, Serial, BitsOf, Lookup, Shift, High;
    SerialNone(0xFFFF_FFFF, p);
    FirstByte();
    OneMoreKnown(0xFFFF_FFFF, p, 0, 0xFFFF_FFFF, 0x22FD_E946);
    SecondByte();
    OneMoreKnown(0xFFFF_FFFF, p, 1, 0x22FD_E946, 0x992B_AC53);
  }

  lemma OneMoreKnown(start: word, p: seq<byte>, i: nat, c: word, d: word)
    requires i < |p|
    requires Serial(start, BitsOf(p[..i])) == c && Shifts(Xor(c, p[i] as word), 8) == d
    ensures Serial(start, BitsOf(p[..i + 1])) == d
  {
    hide Shifts, Xor, Serial, BitsOf, Lookup;
    OneMoreByte(start, p, i);
    ByteIsLow(p[i]);
    LookupIsEightShifts(Serial(start, BitsOf(p[..i])), p[i] as word);
  }
}
