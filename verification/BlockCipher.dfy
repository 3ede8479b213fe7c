/** The 16-round Feistel network that layer 1 of the .tbl cipher runs in place on
  * a block of 64 one-bit cells.
  *
  * The 768 key bits and the eight S-boxes are parameters: everything proved here
  * holds for any key of bits and any S-boxes whose words have only 0/1 bytes. */
module BlockCipher {
  import opened Bytes

  const ROUNDS: nat := 16

  /** Expansion table E of FIPS 46-3 (one-based, into the right half), in two halves. */
  const EXPANSION_LOW: seq<nat> :=
    [ 32, 1, 2, 3, 4, 5, 4, 5, 6, 7, 8, 9, 8, 9, 10, 11, 12, 13, 12, 13, 14, 15, 16, 17 ]
  const EXPANSION_HIGH: seq<nat> :=
    [ 16, 17, 18, 19, 20, 21, 20, 21, 22, 23, 24, 25, 24, 25, 26, 27, 28, 29, 28, 29, 30, 31, 32, 1 ]

  /** Permutation P of FIPS 46-3 (one-based). */
  const PERMUTATION: seq<nat> :=
    [ 16, 7, 20, 21, 29, 12, 28, 17, 1, 15, 23, 26, 5, 18, 31, 10,
      2, 8, 24, 14, 32, 27, 3, 9, 19, 13, 30, 6, 22, 11, 4, 25 ]

  predicate IsBit(c: byte) { c == 0 || c == 1 }

  predicate IsBits(s: seq<byte>) { forall i :: 0 <= i < |s| ==> IsBit(s[i]) }

  /** A block: 64 cells, each 0 or 1; the left half is the first 32 cells. */
  predicate IsBlock(b: seq<byte>) { |b| == 64 && IsBits(b) }

  type Block = b: seq<byte> | IsBlock(b) witness seq(64, _ => 0)

  type Half = h: seq<byte> | |h| == 32 && IsBits(h) witness seq(32, _ => 0)

  /** The expanded half: eight groups of six cells. */
  type Expanded = e: seq<byte> | |e| == 48 && IsBits(e) witness seq(48, _ => 0)

  /** The number of a round key. */
  type Key = k: nat | k < ROUNDS

  /** An S-box word all of whose four bytes are 0 or 1. */
  predicate IsBitWord(w: bv32) { w & 0xFEFE_FEFE == 0 }

  /** One-based positions in a half of 32 cells. */
  predicate IsSelection(s: seq<nat>) { forall i :: 0 <= i < |s| ==> 1 <= s[i] <= 32 }

  datatype Tables = Tables(key: seq<byte>, sboxes: seq<seq<bv32>>, expansion: seq<nat>, permutation: seq<nat>) {
    predicate Valid() {
      && |key| == 48 * ROUNDS
      && IsBits(key)
      && |sboxes| == 8
      && (forall s :: 0 <= s < 8 ==> |sboxes[s]| == 64)
      && (forall s, i :: 0 <= s < 8 && 0 <= i < 64 ==> IsBitWord(sboxes[s][i]))
      && |expansion| == 48 && IsSelection(expansion)
      && |permutation| == 32 && IsSelection(permutation)
    }
  }

  /** Tables the cipher can run on; the witness is only there to show that some exist. */
  type Cipher = t: Tables | t.Valid()
    witness Tables(seq(768, _ => 0), seq(8, _ => seq(64, _ => 0)), seq(48, _ => 1), seq(32, _ => 1))

  /** The source's expansion and permutation are such tables. */
  lemma FipsSelections()
    ensures |EXPANSION_LOW + EXPANSION_HIGH| == 48 && IsSelection(EXPANSION_LOW + EXPANSION_HIGH)
    ensures |PERMUTATION| == 32 && IsSelection(PERMUTATION)
  {
  }

  // ------------------------------------------------------------------ one round

  /** Byte `j` of `w.to_le_bytes()`. */
  function WordByte(w: bv32, j: nat): (b: byte)
    requires j < 4
    ensures IsBitWord(w) ==> IsBit(b)
  {
    if j == 0 then (w & 0xFF) as byte
    else if j == 1 then ((w >> 8) & 0xFF) as byte
    else if j == 2 then ((w >> 16) & 0xFF) as byte
    else ((w >> 24) & 0xFF) as byte
  }

  /** The S-box row and column packed as the source packs them: cells 0 and 5 give the row. */
  function SBoxIndex(c: seq<byte>, base: nat): (i: nat)
    requires base + 6 <= |c| && IsBits(c)
    ensures i < 64
  {
    (c[base + 4] | (2 * (c[base + 3] | (2 * (c[base + 2] | (2 * (c[base + 1]
      | (2 * (c[base + 5] | (2 * c[base])))))))))) as int
  }

  /** The index as a number: the outer cells give the row, the inner four the column. */
  lemma SBoxIndexValue(c: seq<byte>, base: nat)
    requires base + 6 <= |c| && IsBits(c)
    ensures SBoxIndex(c, base) == 16 * (2 * (c[base] as int) + c[base + 5] as int)
      + 8 * (c[base + 1] as int) + 4 * (c[base + 2] as int) + 2 * (c[base + 3] as int) + c[base + 4] as int
  {
    SixCells(c[base], c[base + 1], c[base + 2], c[base + 3], c[base + 4], c[base + 5]);
  }

  lemma SixCells(c0: byte, c1: byte, c2: byte, c3: byte, c4: byte, c5: byte)
    requires c0 <= 1 && c1 <= 1 && c2 <= 1 && c3 <= 1 && c4 <= 1 && c5 <= 1
    ensures (c4 | (2 * (c3 | (2 * (c2 | (2 * (c1 | (2 * (c5 | (2 * c0)))))))))) as int
      == 16 * (2 * (c0 as int) + c5 as int) + 8 * (c1 as int) + 4 * (c2 as int) + 2 * (c3 as int) + c4 as int
  {
  }

  lemma XorKeepsBits(a: seq<byte>, b: seq<byte>)
    requires |a| == |b| && IsBits(a) && IsBits(b)
    ensures IsBits(XorBytes(a, b))
  {
  }

  /** The right half expanded to 48 cells and mixed with round key `k`. */
  function KeyedExpansion(t: Cipher, k: Key, right: Half): Expanded
  {
    seq(48, i requires 0 <= i < 48 => t.key[48 * k + i] ^ right[t.expansion[i] - 1])
  }

  /** The eight S-box words laid out as 32 cells. */
  function Substituted(t: Cipher, buffer: Expanded): Half
  {
    seq(32, d requires 0 <= d < 32 => WordByte(t.sboxes[d / 4][SBoxIndex(buffer, d / 4 * 6)], d % 4))
  }

  lemma SubstitutedAt(t: Cipher, buffer: Expanded, s: nat)
    requires s < 8
    ensures var w := t.sboxes[s][SBoxIndex(buffer, s * 6)];
      Substituted(t, buffer)[s * 4..s * 4 + 4] == [WordByte(w, 0), WordByte(w, 1), WordByte(w, 2), WordByte(w, 3)]
  {
    hide SBoxIndex, WordByte;
    assert (s * 4) / 4 == s && (s * 4 + 1) / 4 == s && (s * 4 + 2) / 4 == s && (s * 4 + 3) / 4 == s;
  }

  /** The round function: it reads only the right half and the round key. */
  function RoundFunction(t: Cipher, k: Key, right: Half): Half
  {
    var dest: seq<byte> := Substituted(t, KeyedExpansion(t, k, right));
    seq(32, n requires 0 <= n < 32 => dest[t.permutation[n] - 1])
  }

  function Round(t: Cipher, k: Key, b: Block): Block
  {
    XorKeepsBits(b[..32], RoundFunction(t, k, b[32..]));
    b[32..] + XorBytes(b[..32], RoundFunction(t, k, b[32..]))
  }

  function Flip(b: Block): Block { b[32..] + b[..32] }

  // ------------------------------------------------------------- the whole network

  /** The rounds with keys `ks`, each of them swapping the halves. */
  function Rounds(t: Cipher, ks: seq<Key>, b: Block): Block
    decreases |ks|
  {
    if ks == [] then b else Rounds(t, ks[1..], Round(t, ks[0], b))
  }

  /** The network: the last round does not swap. */
  function Network(t: Cipher, ks: seq<Key>, b: Block): Block { Flip(Rounds(t, ks, b)) }

  /** Key order of the two directions: descending to decode (`p2 == 0`), ascending to encode. */
  function KeyOrder(p2: int): (ks: seq<Key>)
    ensures |ks| == ROUNDS
  {
    seq(ROUNDS, i requires 0 <= i < ROUNDS => if p2 == 0 then ROUNDS - 1 - i else i)
  }

  function Reverse<T>(s: seq<T>): (r: seq<T>)
    ensures |r| == |s|
    ensures forall i :: 0 <= i < |s| ==> r[i] == s[|s| - 1 - i]
  {
    if s == [] then [] else [s[|s| - 1]] + Reverse(s[..|s| - 1])
  }

  // ------------------------------------------------------------------ the inverse

  /** Feistel's step: the same round, applied to the flipped result, gives the flipped argument. */
  lemma RoundUndone(t: Cipher, k: Key, b: Block)
    ensures Round(t, k, Flip(Round(t, k, b))) == Flip(b)
  {
    var l, r := b[..32], b[32..];
    var f := RoundFunction(t, k, r);
    var c := Round(t, k, b);
    assert c[..32] == r && c[32..] == XorBytes(l, f);
    var d := Flip(c);
    assert d[..32] == XorBytes(l, f) && d[32..] == r;
    XorBytesTwice(l, f);
  }

  lemma {:induction false} RoundsAppend(t: Cipher, ks: seq<Key>, k: Key, b: Block)
    ensures Rounds(t, ks + [k], b) == Round(t, k, Rounds(t, ks, b))
    decreases |ks|
  {
    hide IsBlock, Round;
    if ks == [] {
      assert (ks + [k])[1..] == [];
    } else {
      assert (ks + [k])[1..] == ks[1..] + [k];
      RoundsAppend(t, ks[1..], k, Round(t, ks[0], b));
    }
  }

  lemma {:induction false} RoundsUndone(t: Cipher, ks: seq<Key>, b: Block)
    ensures Rounds(t, Reverse(ks), Flip(Rounds(t, ks, b))) == Flip(b)
    decreases |ks|
  {
    hide IsBlock, Round, Flip;
    if ks != [] {
      var init, k := ks[..|ks| - 1], ks[|ks| - 1];
      assert ks == init + [k];
      RoundsAppend(t, init, k, b);
      RoundUndone(t, k, Rounds(t, init, b));
      assert Reverse(ks)[1..] == Reverse(init);
      RoundsUndone(t, init, b);
    }
  }

  /** The network run with the reversed key order is its inverse, for any key order. */
  lemma NetworkInverse(t: Cipher, ks: seq<Key>, b: Block)
    ensures Network(t, Reverse(ks), Network(t, ks, b)) == b
  {
    RoundsUndone(t, ks, b);
    assert Flip(Flip(b)) == b;
  }

  /** Decoding undoes encoding and encoding undoes decoding, on every block. */
  lemma DirectionsInverse(t: Cipher, b: Block)
    ensures Network(t, KeyOrder(0), Network(t, KeyOrder(1), b)) == b
    ensures Network(t, KeyOrder(1), Network(t, KeyOrder(0), b)) == b
  {
    assert Reverse(KeyOrder(1)) == KeyOrder(0);
    assert Reverse(KeyOrder(0)) == KeyOrder(1);
    NetworkInverse(t, KeyOrder(1), b);
    NetworkInverse(t, KeyOrder(0), b);
  }

  // ---------------------------------------------------------- the in-place routine

  /** The cells after `n` passes of the loop; the last pass does not exchange the halves. */
  ghost function AfterPasses(t: Cipher, ks: seq<Key>, b: Block, n: nat): Block
    requires |ks| == ROUNDS && n <= ROUNDS
  {
    if n < ROUNDS then Rounds(t, ks[..n], b) else Flip(Rounds(t, ks[..n], b))
  }

  lemma PassesStart(t: Cipher, ks: seq<Key>, b: Block)
    requires |ks| == ROUNDS
    ensures AfterPasses(t, ks, b, 0) == b
    ensures AfterPasses(t, ks, b, ROUNDS) == Network(t, ks, b)
  {
    hide IsBlock, Round;
    assert ks[..ROUNDS] == ks;
  }

  lemma PassesStep(t: Cipher, ks: seq<Key>, b: Block, n: nat)
    requires |ks| == ROUNDS && n < ROUNDS
    ensures AfterPasses(t, ks, b, n + 1)
      == (var r := Round(t, ks[n], AfterPasses(t, ks, b, n)); if n == ROUNDS - 1 then Flip(r) else r)
  {
    hide IsBlock, Round, Rounds, Flip;
    RoundsAppend(t, ks[..n], ks[n], b);
    assert ks[..n + 1] == ks[..n] + [ks[n]];
  }

  lemma KeyOrderAt(p2: int, n: nat)
    requires n < ROUNDS
    ensures KeyOrder(p2)[n] == if p2 == 0 then ROUNDS - 1 - n else n
  {
  }

  /** `initial_decode_sub`: the 16 rounds on the cells of `p1`, in place. */
  method InitialDecodeSub(t: Cipher, p1: array<byte>, p2: int)
    requires IsBlock(p1[..])
    modifies p1
    ensures p1[..] == Network(t, KeyOrder(p2), old(p1[..]))
  {
    hide IsBlock, Round, Rounds, Flip, Network, KeyOrder, AfterPasses;
    ghost var ks, b0 := KeyOrder(p2), p1[..];
    var num, num2 := 0, 15;
    PassesStart(t, ks, b0);
    while num2 > -1
      invariant 0 <= num <= 16 && num2 == 15 - num
      invariant p1[..] == AfterPasses(t, ks, b0, num)
    {
      PassesStep(t, ks, b0, num);
      KeyOrderAt(p2, num);
      RunRound(t, p1, if p2 == 0 then num2 else num, num2 <= 0);
      num2 := num2 - 1;
      num := num + 1;
    }
  }

  /** One pass of the loop body: key mixing, S-boxes, and the permutation with or without the exchange. */
  method RunRound(t: Cipher, p1: array<byte>, k: Key, last: bool)
    requires IsBlock(p1[..])
    modifies p1
    ensures p1[..] == if last then Flip(Round(t, k, old(p1[..]))) else Round(t, k, old(p1[..]))
  {
    ghost var b := p1[..];
    var buffer := ExpandWithKey(t, p1, k);
    var dest := Substitute(t, buffer);
    ghost var f := RoundFunction(t, k, b[32..]);
    assert forall n :: 0 <= n < 32 ==> dest[..][t.permutation[n] - 1] == f[n];
    if last {
      XorLeft(t, p1, dest, f);
    } else {
      SwapHalves(t, p1, dest, f);
    }
  }

  method ExpandWithKey(t: Cipher, p1: array<byte>, k: Key) returns (buffer: array<byte>)
    requires IsBlock(p1[..])
    ensures fresh(buffer) && buffer[..] == KeyedExpansion(t, k, p1[..][32..])
  {
    buffer := new byte[48](_ => 0);
    var index := 0;
    while index < 48
      invariant 0 <= index <= 48
      invariant forall i :: 0 <= i < index ==> buffer[i] == KeyedExpansion(t, k, p1[..][32..])[i]
    {
      buffer[index] := t.key[48 * k + index] ^ p1[t.expansion[index] + 31];
      index := index + 1;
    }
  }

  method Substitute(t: Cipher, buffer: array<byte>) returns (dest: array<byte>)
    requires buffer.Length == 48 && IsBits(buffer[..])
    ensures fresh(dest) && dest[..] == Substituted(t, buffer[..])
  {
    dest := new byte[32](_ => 0);
    ghost var expected := Substituted(t, buffer[..]);
    for s := 0 to 8
      invariant dest[..4 * s] == expected[..4 * s]
    {
      var cells := buffer[..];
      SubstitutedAt(t, cells, s);
      PutWord(dest, s * 4, t.sboxes[s][SBoxIndex(cells, s * 6)]);
      assert expected[..4 * (s + 1)] == expected[..4 * s] + expected[4 * s..4 * s + 4];
    }
    assert dest[..] == dest[..32] && expected == expected[..32];
  }

  method PutWord(dest: array<byte>, offset: nat, word: bv32)
    requires offset + 4 <= dest.Length
    modifies dest
    ensures dest[..offset + 4] == old(dest[..offset])
      + [WordByte(word, 0), WordByte(word, 1), WordByte(word, 2), WordByte(word, 3)]
  {
    dest[offset] := WordByte(word, 0);
    dest[offset + 1] := WordByte(word, 1);
    dest[offset + 2] := WordByte(word, 2);
    dest[offset + 3] := WordByte(word, 3);
  }

  /** The last round: the left half is mixed, the halves stay where they are. */
  method XorLeft(t: Cipher, p1: array<byte>, dest: array<byte>, ghost f: seq<byte>)
    requires p1.Length == 64 && dest.Length == 32 && |f| == 32 && dest != p1
    requires forall n :: 0 <= n < 32 ==> dest[..][t.permutation[n] - 1] == f[n]
    modifies p1
    ensures p1[..] == XorBytes(old(p1[..])[..32], f) + old(p1[..])[32..]
  {
    ghost var b := p1[..];
    var num7 := 0;
    while num7 < 32
      invariant 0 <= num7 <= 32
      invariant forall n :: 0 <= n < num7 ==> p1[n] == b[n] ^ f[n]
      invariant forall n :: num7 <= n < 64 ==> p1[n] == b[n]
    {
      p1[num7] := p1[num7] ^ dest[t.permutation[num7] - 1];
      num7 := num7 + 1;
    }
  }

  /** The other rounds: each left cell is mixed and exchanged with its right cell. */
  method SwapHalves(t: Cipher, p1: array<byte>, dest: array<byte>, ghost f: seq<byte>)
    requires p1.Length == 64 && dest.Length == 32 && |f| == 32 && dest != p1
    requires forall n :: 0 <= n < 32 ==> dest[..][t.permutation[n] - 1] == f[n]
    modifies p1
    ensures p1[..] == old(p1[..])[32..] + XorBytes(old(p1[..])[..32], f)
  {
    ghost var b := p1[..];
    var num7 := 0;
    while num7 < 32
      invariant 0 <= num7 <= 32
      invariant forall n :: 0 <= n < num7 ==> p1[n] == b[n + 32]
      invariant forall n :: 32 <= n < num7 + 32 ==> p1[n] == b[n - 32] ^ f[n - 32]
      invariant forall n :: num7 <= n < 32 ==> p1[n] == b[n]
      invariant forall n :: num7 + 32 <= n < 64 ==> p1[n] == b[n]
    {
      var num10 := p1[num7 + 32];
      var num11 := p1[num7] ^ dest[t.permutation[num7] - 1];
      num7 := num7 + 1;
      p1[num7 + 31] := num11;
      p1[num7 - 1] := num10;
    }
  }
}
