/** The CRC of the packet layer: reflected polynomial 0xEDB88320, no final
  * complement.  The table-driven loop, the shift register it computes, and what
  * the register detects.
  *
  * Word operations have names so that proofs can `hide` them and reason with the
  * few identities they need. */
module Crc {
  import opened Bytes

  const POLY: bv32 := 0xEDB8_8320
  const ALL_ONES: bv32 := 0xFFFF_FFFF

  // ------------------------------------------------------------- word operations

  function Xor(a: bv32, b: bv32): bv32 { a ^ b }

  function Low(w: bv32): bool { w & 1 != 0 }

  function Half(w: bv32): bv32 { w >> 1 }

  function ShiftByte(w: bv32): bv32 { w >> 8 }

  predicate IsSmall(v: bv32) { v < 256 }

  function LowByte(w: bv32): (b: bv32)
    ensures IsSmall(b)
  {
    w & 0xFF
  }

  function Narrow(v: bv32): (b: byte)
    requires IsSmall(v)
    ensures Wide(b) == v
  {
    v as byte
  }

  function Wide(b: byte): bv32 { b as bv32 }

  function BitWord(bit: bool): bv32 { if bit then 1 else 0 }

  lemma XorZero(a: bv32)
    ensures Xor(a, 0) == a && Xor(0, a) == a && Xor(a, a) == 0
  {
  }

  lemma XorCommutes(a: bv32, b: bv32)
    ensures Xor(a, b) == Xor(b, a)
  {
  }

  lemma XorAssociates(a: bv32, b: bv32, c: bv32)
    ensures Xor(Xor(a, b), c) == Xor(a, Xor(b, c))
  {
  }

  lemma XorExchange(a: bv32, b: bv32, c: bv32, d: bv32)
    ensures Xor(Xor(a, b), Xor(c, d)) == Xor(Xor(a, c), Xor(b, d))
  {
    hide Xor;
    XorAssociates(a, b, Xor(c, d));
    XorAssociates(b, c, d);
    XorCommutes(b, c);
    XorAssociates(c, b, d);
    XorAssociates(a, c, Xor(b, d));
  }

  lemma XorCancel(a: bv32, b: bv32, c: bv32)
    ensures Xor(a, b) == Xor(a, c) <==> b == c
  {
    assert a ^ (a ^ b) == b && a ^ (a ^ c) == c;
  }

  lemma XorHalf(a: bv32, b: bv32)
    ensures Half(Xor(a, b)) == Xor(Half(a), Half(b))
  {
  }

  lemma XorLow(a: bv32, b: bv32)
    ensures Low(Xor(a, b)) == (Low(a) != Low(b))
  {
    assert (a ^ b) & 1 == (a & 1) ^ (b & 1);
    assert (a & 1 == 0 || a & 1 == 1) && (b & 1 == 0 || b & 1 == 1);
  }

  // ---------------------------------------------------------- the shift register

  /** One shift of the register. */
  function Shift(c: bv32): bv32 { if Low(c) then Xor(Half(c), POLY) else Half(c) }

  function Shifts(c: bv32, n: nat): bv32
    decreases n
  {
    if n == 0 then c else Shifts(Shift(c), n - 1)
  }

  /** Mix one input bit into the low end and shift. */
  function Feed(c: bv32, bit: bool): bv32 { Shift(Xor(c, BitWord(bit))) }

  /** Bit by bit: the definition. */
  function Register(c: bv32, bits: seq<bool>): bv32
    decreases |bits|
  {
    if bits == [] then c else Register(Feed(c, bits[0]), bits[1..])
  }

  /** The lowest `n` bits of a word, least significant first. */
  function WordBits(w: bv32, n: nat): (bits: seq<bool>)
    ensures |bits| == n
    decreases n
  {
    if n == 0 then [] else [Low(w)] + WordBits(Half(w), n - 1)
  }

  function ByteBits(b: byte): (bits: seq<bool>)
    ensures |bits| == 8
  {
    WordBits(Wide(b), 8)
  }

  /** The bits of a byte string, each byte least significant bit first. */
  function BitsOf(data: seq<byte>): (bits: seq<bool>)
    ensures |bits| == 8 * |data|
  {
    if data == [] then [] else ByteBits(data[0]) + BitsOf(data[1..])
  }

  /** The checksum of `data` from a start value, by the bitwise definition. */
  function Checksum(start: bv32, data: seq<byte>): bv32 { Register(start, BitsOf(data)) }

  lemma {:induction false} RegisterAppend(c: bv32, a: seq<bool>, b: seq<bool>)
    ensures Register(c, a + b) == Register(Register(c, a), b)
    decreases |a|
  {
    hide Feed;
    if a == [] {
      assert a + b == b;
    } else {
      assert (a + b)[1..] == a[1..] + b;
      RegisterAppend(Feed(c, a[0]), a[1..], b);
    }
  }

  lemma {:induction false} BitsOfAppend(a: seq<byte>, b: seq<byte>)
    ensures BitsOf(a + b) == BitsOf(a) + BitsOf(b)
  {
    hide ByteBits;
    if a == [] {
      assert a + b == b;
    } else {
      assert (a + b)[1..] == a[1..] + b;
      BitsOfAppend(a[1..], b);
    }
  }

  // ----------------------------------------------------- linear algebra of Shift

  lemma ShiftLinear(a: bv32, b: bv32)
    ensures Shift(Xor(a, b)) == Xor(Shift(a), Shift(b))
  {
    hide Low, Half, Xor;
    var p, x, y := POLY, Half(a), Half(b);
    XorLow(a, b);
    XorHalf(a, b);
    XorExchange(x, p, y, p);
    XorExchange(x, p, y, 0);
    XorExchange(x, 0, y, p);
    XorZero(p);
    XorZero(x);
    XorZero(y);
    XorZero(Xor(x, y));
  }

  lemma {:induction false} ShiftsLinear(a: bv32, b: bv32, n: nat)
    ensures Shifts(Xor(a, b), n) == Xor(Shifts(a, n), Shifts(b, n))
    decreases n
  {
    hide Shift, Xor;
    if n > 0 {
      ShiftLinear(a, b);
      ShiftsLinear(Shift(a), Shift(b), n - 1);
    }
  }

  /** The top bit of the polynomial is set, so a shift can be taken back. */
  lemma ShiftInjective(a: bv32, b: bv32)
    requires Shift(a) == Shift(b)
    ensures a == b
  {
    assert Shift(a) & 0x8000_0000 != 0 <==> Low(a) by { TopTellsLow(a); }
    assert Shift(b) & 0x8000_0000 != 0 <==> Low(b) by { TopTellsLow(b); }
    XorCommutes(POLY, Half(a));
    XorCommutes(POLY, Half(b));
    XorCancel(POLY, Half(a), Half(b));
  }

  lemma TopTellsLow(c: bv32)
    ensures Shift(c) & 0x8000_0000 != 0 <==> Low(c)
  {
  }

  lemma {:induction false} ShiftsInjective(a: bv32, b: bv32, n: nat)
    requires Shifts(a, n) == Shifts(b, n)
    ensures a == b
    decreases n
  {
    hide Shift;
    if n > 0 {
      ShiftsInjective(Shift(a), Shift(b), n - 1);
      ShiftInjective(a, b);
    }
  }

  lemma {:induction false} ShiftsOfZero(n: nat)
    ensures Shifts(0, n) == 0
  {
    assert Shift(0) == 0;
    hide Shift;
    if n > 0 {
      ShiftsOfZero(n - 1);
    }
  }

  lemma {:induction false} ShiftsSplit(c: bv32, m: nat, n: nat)
    ensures Shifts(c, m + n) == Shifts(Shifts(c, m), n)
    decreases m
  {
    hide Shift;
    if m > 0 {
      ShiftsSplit(Shift(c), m - 1, n);
    }
  }

  // --------------------------------------------------------- bits and their words

  /** `w` without its lowest `n` bits, one bit at a time. */
  function Drop(w: bv32, n: nat): bv32
    decreases n
  {
    if n == 0 then w else Drop(Half(w), n - 1)
  }

  lemma {:induction false} DropSplit(w: bv32, m: nat, n: nat)
    ensures Drop(w, m + n) == Drop(Drop(w, m), n)
    decreases m
  {
    hide Half;
    if m > 0 {
      DropSplit(Half(w), m - 1, n);
    }
  }

  /** Eight applications, listed. */
  lemma DropListed(w: bv32)
    ensures Drop(w, 8) == Half(Half(Half(Half(Half(Half(Half(Half(w))))))))
  {
    hide Half;
    var w4 := Half(Half(Half(Half(w))));
    DropFour(w);
    DropFour(w4);
    DropSplit(w, 4, 4);
  }

  lemma DropFour(w: bv32)
    ensures Drop(w, 4) == Half(Half(Half(Half(w))))
  {
    hide Half;
    assert Drop(Half(Half(Half(w))), 1) == Drop(Half(Half(Half(Half(w)))), 0);
    assert Drop(Half(Half(w)), 2) == Drop(Half(Half(Half(w))), 1);
    assert Drop(Half(w), 3) == Drop(Half(Half(w)), 2);
  }

  lemma EightHalves(w: bv32)
    ensures Half(Half(Half(Half(Half(Half(Half(Half(w)))))))) == ShiftByte(w)
  {
  }

  lemma DropEight(w: bv32)
    ensures Drop(w, 8) == ShiftByte(w)
  {
    hide Half, ShiftByte, Drop;
    DropListed(w);
    EightHalves(w);
  }

  lemma FourShifts(w: bv32)
    ensures ShiftByte(ShiftByte(ShiftByte(ShiftByte(w)))) == 0
  {
  }

  /** Nothing is left after 32 bits of a word, or after 8 bits of a byte. */
  lemma WordUsedUp(w: bv32)
    ensures Drop(w, 32) == 0
  {
    hide Drop, ShiftByte;
    var w1 := ShiftByte(w);
    var w2 := ShiftByte(w1);
    var w3 := ShiftByte(w2);
    DropEight(w);
    DropEight(w1);
    DropEight(w2);
    DropEight(w3);
    FourShifts(w);
    DropSplit(w, 8, 8);
    DropSplit(w, 16, 8);
    DropSplit(w, 24, 8);
  }

  lemma ByteUsedUp(b: byte)
    ensures Drop(Wide(b), 8) == 0
  {
    hide Drop;
    DropEight(Wide(b));
  }

  lemma {:induction false} WordBitsSplit(w: bv32, m: nat, n: nat)
    ensures WordBits(w, m + n) == WordBits(w, m) + WordBits(Drop(w, m), n)
    decreases m
  {
    hide Low, Half;
    if m > 0 {
      WordBitsSplit(Half(w), m - 1, n);
    }
  }

  lemma FourListed(w: bv32)
    ensures WordBits(w, 4) == [Low(w), Low(Half(w)), Low(Half(Half(w))), Low(Half(Half(Half(w))))]
  {
    hide Low, Half;
    assert WordBits(Half(Half(Half(w))), 1) == [Low(Half(Half(Half(w))))];
    assert WordBits(Half(Half(w)), 2) == [Low(Half(Half(w)))] + WordBits(Half(Half(Half(w))), 1);
    assert WordBits(Half(w), 3) == [Low(Half(w))] + WordBits(Half(Half(w)), 2);
  }

  lemma EightListed(w: bv32)
    ensures var v := Half(Half(Half(Half(w))));
      WordBits(w, 8) == [Low(w), Low(Half(w)), Low(Half(Half(w))), Low(Half(Half(Half(w)))),
                         Low(v), Low(Half(v)), Low(Half(Half(v))), Low(Half(Half(Half(v))))]
  {
    hide Low, Half, WordBits, Drop;
    var v := Half(Half(Half(Half(w))));
    FourListed(w);
    FourListed(v);
    DropFour(w);
    WordBitsSplit(w, 4, 4);
  }

  lemma LowByteBits(w: bv32)
    ensures WordBits(w, 8) == WordBits(LowByte(w), 8)
  {
    EightListed(w);
    EightListed(LowByte(w));
    SameLowBits(w);
    hide Low, Half, LowByte, WordBits;
  }

  lemma SameLowBits(w: bv32)
    ensures var x, v, y := LowByte(w), Half(Half(Half(Half(w)))), Half(Half(Half(Half(LowByte(w)))));
      && Low(w) == Low(x) && Low(Half(w)) == Low(Half(x))
      && Low(Half(Half(w))) == Low(Half(Half(x))) && Low(Half(Half(Half(w)))) == Low(Half(Half(Half(x))))
      && Low(v) == Low(y) && Low(Half(v)) == Low(Half(y))
      && Low(Half(Half(v))) == Low(Half(Half(y))) && Low(Half(Half(Half(v)))) == Low(Half(Half(Half(y))))
  {
  }

  /** The bits of a word, one byte at a time. */
  lemma PeelByte(w: bv32, n: nat)
    ensures WordBits(w, 8 + n) == WordBits(LowByte(w), 8) + WordBits(ShiftByte(w), n)
  {
    hide WordBits, Drop, LowByte, ShiftByte;
    WordBitsSplit(w, 8, n);
    DropEight(w);
    LowByteBits(w);
  }

  lemma FourBytesOfBits(w: bv32)
    ensures var w1 := ShiftByte(w); var w2 := ShiftByte(w1); var w3 := ShiftByte(w2);
      WordBits(w, 32) == WordBits(LowByte(w), 8) + (WordBits(LowByte(w1), 8)
        + (WordBits(LowByte(w2), 8) + WordBits(LowByte(w3), 8)))
  {
    hide WordBits, LowByte, ShiftByte;
    var w1 := ShiftByte(w);
    var w2 := ShiftByte(w1);
    var w3 := ShiftByte(w2);
    PeelByte(w, 24);
    PeelByte(w1, 16);
    PeelByte(w2, 8);
    LowByteBits(w3);
  }

  /** Feeding the bits of a word is mixing it in and shifting. */
  lemma {:induction false} RegisterOfWord(c: bv32, w: bv32, n: nat)
    requires Drop(w, n) == 0
    ensures Register(c, WordBits(w, n)) == Shifts(Xor(c, w), n)
    decreases n
  {
    hide Shift, Feed, Low, Half, Xor;
    if n == 0 {
      XorZero(c);
    } else {
      LowBitMixed(c, w);
      assert WordBits(w, n)[1..] == WordBits(Half(w), n - 1);
      RegisterOfWord(Feed(c, Low(w)), Half(w), n - 1);
    }
  }

  lemma LowBitMixed(c: bv32, w: bv32)
    ensures Shift(Xor(c, w)) == Xor(Feed(c, Low(w)), Half(w))
  {
    var bit := BitWord(Low(w));
    EvenRest(w, bit);
    hide Xor, Half, Low, BitWord;
    ShiftLinear(Xor(c, bit), Xor(w, bit));
    XorExchange(c, bit, w, bit);
    XorZero(bit);
    XorZero(Xor(c, w));
  }

  lemma EvenRest(w: bv32, bit: bv32)
    requires bit == BitWord(Low(w))
    ensures !Low(Xor(w, bit)) && Half(Xor(w, bit)) == Half(w)
  {
  }

  // ----------------------------------------------------------- the table-driven loop

  /** Shifting a word with eight zero low bits only moves it. */
  lemma ShiftsOfHighBytes(c: bv32)
    requires LowByte(c) == 0
    ensures Shifts(c, 8) == ShiftByte(c)
  {
    var c1 := Half(c);
    var c2 := Half(c1);
    var c3 := Half(c2);
    var c4 := Half(c3);
    ZeroLowBits(c);
    EightHalves(c);
    hide Low, Half, Xor, LowByte, ShiftByte;
    ShiftsOfEven(c);
    ShiftsOfEven(c4);
    ShiftsSplit(c, 4, 4);
  }

  lemma ShiftsOfEven(c: bv32)
    requires !Low(c) && !Low(Half(c)) && !Low(Half(Half(c))) && !Low(Half(Half(Half(c))))
    ensures Shifts(c, 4) == Half(Half(Half(Half(c))))
  {
    hide Low, Half, Xor;
    assert Shifts(Half(Half(Half(c))), 1) == Half(Half(Half(Half(c))));
    assert Shifts(Half(Half(c)), 2) == Shifts(Half(Half(Half(c))), 1);
    assert Shifts(Half(c), 3) == Shifts(Half(Half(c)), 2);
  }

  lemma ZeroLowBits(c: bv32)
    requires LowByte(c) == 0
    ensures !Low(c) && !Low(Half(c)) && !Low(Half(Half(c))) && !Low(Half(Half(Half(c))))
    ensures var d := Half(Half(Half(Half(c))));
      !Low(d) && !Low(Half(d)) && !Low(Half(Half(d))) && !Low(Half(Half(Half(d))))
  {
  }

  /** The part of a word above its low byte. */
  function HighBytes(w: bv32): bv32 { w & 0xFFFF_FF00 }

  lemma TwoParts(x: bv32)
    ensures x == Xor(LowByte(x), HighBytes(x)) && LowByte(HighBytes(x)) == 0
    ensures ShiftByte(HighBytes(x)) == ShiftByte(x)
  {
  }

  lemma HighUnchanged(c: bv32, b: byte)
    ensures ShiftByte(Xor(c, Wide(b))) == ShiftByte(c)
  {
    assert (c ^ Wide(b)) >> 8 == (c >> 8) ^ (Wide(b) >> 8);
  }

  /** The lookup of one byte equals eight shifts. */
  lemma LookupIsEightShifts(c: bv32, b: byte)
    ensures Xor(Shifts(LowByte(Xor(c, Wide(b))), 8), ShiftByte(c)) == Register(c, ByteBits(b))
  {
    hide Shifts, WordBits, Register, Drop, Xor, LowByte, HighBytes, ShiftByte;
    var x := Xor(c, Wide(b));
    ByteUsedUp(b);
    RegisterOfWord(c, Wide(b), 8);
    TwoParts(x);
    HighUnchanged(c, b);
    ShiftsLinear(LowByte(x), HighBytes(x), 8);
    ShiftsOfHighBytes(HighBytes(x));
  }

  /** A lookup table holds eight shifts of every byte. */
  ghost predicate IsTable(table: seq<bv32>)
  {
    |table| == 256 && forall i: bv32 :: i < 256 ==> table[i as int] == Shifts(i, 8)
  }

  /** `CRC32_TABLE`, as the constant initialiser builds it. */
  method BuildTable() returns (table: seq<bv32>)
    ensures IsTable(table)
  {
    hide Shifts;
    var cells := new bv32[256](_ => 0);
    var i: bv32 := 0;
    NothingFilled(cells[..]);
    while i < 256
      invariant i <= 256
      invariant Filled(cells[..], i)
      decreases 256 - i
    {
      var crc := ShiftEight(i);
      NextFilled(cells[..], i, crc);
      cells[i as int] := crc;
      i := i + 1;
    }
    table := cells[..];
  }

  /** The entries below `i` are in place. */
  ghost predicate Filled(cells: seq<bv32>, i: bv32)
  {
    |cells| == 256 && forall k: bv32 :: k < i && k < 256 ==> cells[k as int] == Shifts(k, 8)
  }

  lemma NothingFilled(cells: seq<bv32>)
    ensures |cells| == 256 ==> Filled(cells, 0)
  {
  }

  lemma NextFilled(cells: seq<bv32>, i: bv32, crc: bv32)
    requires i < 256 && Filled(cells, i) && crc == Shifts(i, 8)
    ensures Filled(cells[i as int := crc], i + 1)
  {
    hide Shifts;
  }

  method ShiftEight(i: bv32) returns (crc: bv32)
    ensures crc == Shifts(i, 8)
  {
    hide Shift;
    crc := i;
    var j := 0;
    while j < 8
      invariant 0 <= j <= 8
      invariant Shifts(crc, 8 - j) == Shifts(i, 8)
    {
      crc := ShiftOnce(crc);
      j := j + 1;
    }
  }

  method ShiftOnce(c: bv32) returns (crc: bv32)
    ensures crc == Shift(c)
  {
    if c & 1 != 0 {
      crc := (c >> 1) ^ POLY;
    } else {
      crc := c >> 1;
    }
  }

  /** `crc32_with_start`: one table lookup per byte. */
  method Crc32WithStart(table: seq<bv32>, data: seq<byte>, start: bv32) returns (crc: bv32)
    requires IsTable(table)
    ensures crc == Checksum(start, data)
  {
    hide Register, ByteBits, Shifts;
    crc := start;
    assert data[0..] == data;
    for i := 0 to |data|
      invariant Register(crc, BitsOf(data[i..])) == Checksum(start, data)
    {
      NextByte(crc, data, i);
      crc := Lookup(table, crc, data[i]);
    }
    NoBits(crc);
  }

  method Lookup(table: seq<bv32>, crc: bv32, b: byte) returns (next: bv32)
    requires IsTable(table)
    ensures next == Register(crc, ByteBits(b))
  {
    var index := (crc ^ Wide(b)) & 0xFF;
    LookupIsEightShifts(crc, b);
    assert index < 256 && index as int < 256;
    hide Shifts, Register, ByteBits;
    next := Xor(table[index as int], ShiftByte(crc));
  }

  lemma NoBits(c: bv32)
    ensures Register(c, BitsOf([])) == c
  {
  }

  lemma NextByte(c: bv32, data: seq<byte>, i: nat)
    requires i < |data|
    ensures Register(c, BitsOf(data[i..])) == Register(Register(c, ByteBits(data[i])), BitsOf(data[i + 1..]))
  {
    hide ByteBits, Register;
    assert data[i..][1..] == data[i + 1..];
    RegisterAppend(c, ByteBits(data[i]), BitsOf(data[i + 1..]));
  }

  // ------------------------------------------------------------ the residue test

  /** `to_le_bytes` of a checksum. */
  function WordBytes(w: bv32): (s: seq<byte>)
    ensures |s| == 4
  {
    var w1 := ShiftByte(w);
    var w2 := ShiftByte(w1);
    var w3 := ShiftByte(w2);
    [Narrow(LowByte(w)), Narrow(LowByte(w1)), Narrow(LowByte(w2)), Narrow(LowByte(w3))]
  }

  /** `from_le_bytes` of a checksum. */
  function WordOfBytes(s: seq<byte>): bv32
    requires |s| == 4
  {
    Join(Wide(s[0]), Wide(s[1]), Wide(s[2]), Wide(s[3]))
  }

  lemma WordBytesRoundTrip(w: bv32)
    ensures WordOfBytes(WordBytes(w)) == w
  {
  }

  lemma BytesWordRoundTrip(s: seq<byte>)
    requires |s| == 4
    ensures WordBytes(WordOfBytes(s)) == s
  {
    hide LowByte, ShiftByte, HighBytes, Join, Narrow, Wide, IsSmall;
    WideByte(s[0]);
    WideByte(s[1]);
    WideByte(s[2]);
    WideByte(s[3]);
    Joined(Wide(s[0]), Wide(s[1]), Wide(s[2]), Wide(s[3]));
    assert WordBytes(WordOfBytes(s)) == [s[0], s[1], s[2], s[3]];
  }

  lemma WideByte(b: byte)
    ensures HighBytes(Wide(b)) == 0 && IsSmall(Wide(b)) && Narrow(Wide(b)) == b
  {
  }

  /** The bits of four little-endian bytes are the bits of the word. */
  lemma BitsOfWordBytes(w: bv32)
    ensures BitsOf(WordBytes(w)) == WordBits(w, 32)
  {
    hide WordBits, LowByte, ShiftByte, Narrow, Wide, IsSmall;
    FourBytesOfBits(w);
    BitsOfFour(WordBytes(w));
  }

  lemma BitsOfFour(s: seq<byte>)
    requires |s| == 4
    ensures BitsOf(s) == ByteBits(s[0]) + (ByteBits(s[1]) + (ByteBits(s[2]) + ByteBits(s[3])))
  {
    hide ByteBits;
    assert s[1..][1..] == s[2..] && s[2..][1..] == s[3..] && s[3..][1..] == [];
    assert BitsOf(s[3..]) == ByteBits(s[3]) + [];
    assert BitsOf(s[2..]) == ByteBits(s[2]) + BitsOf(s[3..]);
    assert BitsOf(s[1..]) == ByteBits(s[1]) + BitsOf(s[2..]);
  }

  /** A stored checksum is the right one exactly when the register over data and
    * checksum together ends at zero. */
  lemma ResidueTest(start: bv32, payload: seq<byte>, stored: bv32)
    ensures Checksum(start, payload) == stored <==> Checksum(start, payload + WordBytes(stored)) == 0
  {
    hide Register, WordBits, Shifts, WordBytes, Drop, Xor;
    var c := Checksum(start, payload);
    BitsOfAppend(payload, WordBytes(stored));
    RegisterAppend(start, BitsOf(payload), BitsOf(WordBytes(stored)));
    BitsOfWordBytes(stored);
    WordUsedUp(stored);
    RegisterOfWord(c, stored, 32);
    ShiftsOfZero(32);
    XorZero(stored);
    XorCancel(stored, c, stored);
    XorCommutes(stored, c);
    if Shifts(Xor(c, stored), 32) == 0 {
      ShiftsInjective(Xor(c, stored), 0, 32);
    }
  }

  // -------------------------------------------------------------- burst detection

  /** Eight bits as a word. */
  function PackByte(x: seq<bool>): (w: bv32)
    requires |x| == 8
  {
    (if x[0] then 1 else 0) | (if x[1] then 2 else 0) | (if x[2] then 4 else 0) | (if x[3] then 8 else 0)
      | (if x[4] then 16 else 0) | (if x[5] then 32 else 0) | (if x[6] then 64 else 0) | (if x[7] then 128 else 0)
  }

  /** Four bytes as a word, the first lowest. */
  function Join(a: bv32, b: bv32, c: bv32, d: bv32): bv32 { a | (b << 8) | (c << 16) | (d << 24) }

  lemma Joined(a: bv32, b: bv32, c: bv32, d: bv32)
    requires HighBytes(a) == 0 && HighBytes(b) == 0 && HighBytes(c) == 0 && HighBytes(d) == 0
    ensures var w := Join(a, b, c, d); var w1 := ShiftByte(w); var w2 := ShiftByte(w1); var w3 := ShiftByte(w2);
      LowByte(w) == a && LowByte(w1) == b && LowByte(w2) == c && LowByte(w3) == d
  {
  }

  lemma PackedBits(x: seq<bool>)
    requires |x| == 8
    ensures var w := PackByte(x); var v := Half(Half(Half(Half(w))));
      && HighBytes(w) == 0
      && Low(w) == x[0] && Low(Half(w)) == x[1] && Low(Half(Half(w))) == x[2] && Low(Half(Half(Half(w)))) == x[3]
      && Low(v) == x[4] && Low(Half(v)) == x[5] && Low(Half(Half(v))) == x[6] && Low(Half(Half(Half(v)))) == x[7]
  {
  }

  lemma PackByteBits(x: seq<bool>)
    requires |x| == 8
    ensures HighBytes(PackByte(x)) == 0 && WordBits(PackByte(x), 8) == x
  {
    PackedBits(x);
    hide PackByte, Low, Half, HighBytes, WordBits;
    EightListed(PackByte(x));
  }

  /** Every string of 32 bits is the bits of a word. */
  lemma Packed(x: seq<bool>) returns (w: bv32)
    requires |x| == 32
    ensures WordBits(w, 32) == x
  {
    hide WordBits, PackByte, Join, HighBytes, LowByte, ShiftByte;
    PackByteBits(x[..8]);
    PackByteBits(x[8..16]);
    PackByteBits(x[16..24]);
    PackByteBits(x[24..]);
    var a, b, c, d := PackByte(x[..8]), PackByte(x[8..16]), PackByte(x[16..24]), PackByte(x[24..]);
    w := Join(a, b, c, d);
    Joined(a, b, c, d);
    FourBytesOfBits(w);
    assert x == x[..8] + (x[8..16] + (x[16..24] + x[24..]));
  }

  /** From one state, different 32-bit inputs lead to different states. */
  lemma WindowSeparates(c: bv32, x: seq<bool>, y: seq<bool>)
    requires |x| == |y| == 32 && Register(c, x) == Register(c, y)
    ensures x == y
  {
    hide WordBits, Drop, Shifts, Register, Xor;
    var v := Packed(x);
    var w := Packed(y);
    WordUsedUp(v);
    WordUsedUp(w);
    RegisterOfWord(c, v, 32);
    RegisterOfWord(c, w, 32);
    ShiftsInjective(Xor(c, v), Xor(c, w), 32);
    XorCancel(c, v, w);
  }

  lemma FeedInjective(c: bv32, d: bv32, bit: bool)
    requires Feed(c, bit) == Feed(d, bit)
    ensures c == d
  {
    hide Shift, Xor, BitWord;
    ShiftInjective(Xor(c, BitWord(bit)), Xor(d, BitWord(bit)));
    XorCommutes(c, BitWord(bit));
    XorCommutes(d, BitWord(bit));
    XorCancel(BitWord(bit), c, d);
  }

  /** Different states stay different under equal input. */
  lemma {:induction false} RegisterInjective(c: bv32, d: bv32, bits: seq<bool>)
    requires Register(c, bits) == Register(d, bits)
    ensures c == d
    decreases |bits|
  {
    hide Feed;
    if bits != [] {
      RegisterInjective(Feed(c, bits[0]), Feed(d, bits[0]), bits[1..]);
      FeedInjective(c, d, bits[0]);
    }
  }

  /** Two bit strings that agree outside the window of 32 bits at `p`. */
  predicate AgreeOutside(u: seq<bool>, v: seq<bool>, p: nat)
  {
    && |u| == |v| && p + 32 <= |u|
    && u[..p] == v[..p] && u[p + 32..] == v[p + 32..]
  }

  /** Changes inside 32 consecutive bits always change the checksum. */
  lemma BurstDetected(c: bv32, u: seq<bool>, v: seq<bool>, p: nat)
    requires AgreeOutside(u, v, p) && u != v
    ensures Register(c, u) != Register(c, v)
  {
    hide Register;
    var x, y, tail := u[p..p + 32], v[p..p + 32], u[p + 32..];
    assert u == u[..p] + (x + tail) && v == u[..p] + (y + tail);
    RegisterAppend(c, u[..p], x + tail);
    RegisterAppend(c, u[..p], y + tail);
    var s := Register(c, u[..p]);
    RegisterAppend(s, x, tail);
    RegisterAppend(s, y, tail);
    if Register(c, u) == Register(c, v) {
      RegisterInjective(Register(s, x), Register(s, y), tail);
      WindowSeparates(s, x, y);
      assert false;
    }
  }

  // ------------------------------------------------------- the bound is exact

  function XorBits(u: seq<bool>, e: seq<bool>): (r: seq<bool>)
    requires |u| == |e|
    ensures |r| == |u|
  {
    seq(|u|, i requires 0 <= i < |u| => u[i] != e[i])
  }

  lemma FeedLinear(c: bv32, d: bv32, u: bool, e: bool)
    ensures Feed(Xor(c, d), u != e) == Xor(Feed(c, u), Feed(d, e))
  {
    assert BitWord(u != e) == Xor(BitWord(u), BitWord(e));
    hide Xor, Shift, BitWord;
    XorExchange(c, d, BitWord(u), BitWord(e));
    ShiftLinear(Xor(c, BitWord(u)), Xor(d, BitWord(e)));
  }

  lemma {:induction false} RegisterLinear(c: bv32, d: bv32, u: seq<bool>, e: seq<bool>)
    requires |u| == |e|
    ensures Register(Xor(c, d), XorBits(u, e)) == Xor(Register(c, u), Register(d, e))
    decreases |u|
  {
    hide Feed, Xor;
    if u != [] {
      FeedLinear(c, d, u[0], e[0]);
      assert XorBits(u, e)[1..] == XorBits(u[1..], e[1..]);
      RegisterLinear(Feed(c, u[0]), Feed(d, e[0]), u[1..], e[1..]);
    }
  }

  /** The 33 bits of the generator polynomial. */
  function Generator(): (g: seq<bool>)
    ensures |g| == 33
  {
    [true] + WordBits(POLY, 32)
  }

  lemma GeneratorVanishes()
    ensures Register(0, Generator()) == 0
  {
    assert Feed(0, true) == POLY;
    hide WordBits, Feed, Shifts, Xor, Drop;
    assert Generator()[1..] == WordBits(POLY, 32);
    WordUsedUp(POLY);
    RegisterOfWord(POLY, POLY, 32);
    XorZero(POLY);
    ShiftsOfZero(32);
    assert Register(0, Generator()) == Register(Feed(0, true), Generator()[1..]);
  }

  /** Flipping the generator's 33 bits anywhere is never noticed. */
  lemma GeneratorUndetected(c: bv32, u: seq<bool>, p: nat)
    requires p + 33 <= |u|
    ensures Register(c, u[..p] + XorBits(u[p..p + 33], Generator()) + u[p + 33..]) == Register(c, u)
  {
    hide Generator, Register, Xor;
    var s, x, tail := Register(c, u[..p]), u[p..p + 33], u[p + 33..];
    GeneratorVanishes();
    RegisterLinear(s, 0, x, Generator());
    XorZero(s);
    XorZero(Register(s, x));
    assert u == u[..p] + x + tail;
    RegisterAppend(c, u[..p] + x, tail);
    RegisterAppend(c, u[..p], x);
    RegisterAppend(c, u[..p] + XorBits(x, Generator()), tail);
    RegisterAppend(c, u[..p], XorBits(x, Generator()));
  }
}
