/** The .tbl file cipher: a ciphertext-feedback XOR stream (layer 2) under the
  * block cipher (layer 1), with a header and a big-endian length field. */
module TblCipher {
  import opened Bytes
  import opened BlockCipher
  import opened Wrappers

  // ------------------------------------------------------------ bytes and cells

  /** Bit `k` of a byte. */
  function BitOf(b: byte, k: Bit): byte { (b >> k) & 1 }

  type Bit = k: nat | k < 8

  /** The eight cells of a byte, most significant bit first. */
  function ByteCells(b: byte): (c: seq<byte>)
    ensures |c| == 8 && IsBits(c)
  {
    [ BitOf(b, 7), BitOf(b, 6), BitOf(b, 5), BitOf(b, 4), BitOf(b, 3), BitOf(b, 2), BitOf(b, 1), BitOf(b, 0) ]
  }

  /** The byte of eight cells, merged as both directions of the source merge them. */
  function MergeCells(c: seq<byte>): byte
    requires |c| == 8
  {
    c[7] | (2 * (c[6] | (2 * (c[5] | (2 * (c[4] | (2 * (c[3] | (2 * (c[2] | (2 * (c[1] | (2 * c[0])))))))))))))
  }

  /** The cells are the binary digits of the byte. */
  lemma ByteCellsValue(b: byte)
    ensures var c := ByteCells(b);
      b == 128 * c[0] + 64 * c[1] + 32 * c[2] + 16 * c[3] + 8 * c[4] + 4 * c[5] + 2 * c[6] + c[7]
  {
  }

  lemma MergeByteCells(b: byte)
    ensures MergeCells(ByteCells(b)) == b
  {
  }

  lemma ByteCellsMerge(c: seq<byte>)
    requires |c| == 8 && IsBits(c)
    ensures ByteCells(MergeCells(c)) == c
  {
    assert c == [c[0], c[1], c[2], c[3], c[4], c[5], c[6], c[7]];
    MergedBits(c[0], c[1], c[2], c[3], c[4], c[5], c[6], c[7]);
  }

  lemma MergedBits(c0: byte, c1: byte, c2: byte, c3: byte, c4: byte, c5: byte, c6: byte, c7: byte)
    requires c0 <= 1 && c1 <= 1 && c2 <= 1 && c3 <= 1 && c4 <= 1 && c5 <= 1 && c6 <= 1 && c7 <= 1
    ensures var b := MergeCells([c0, c1, c2, c3, c4, c5, c6, c7]);
      ByteCells(b) == [c0, c1, c2, c3, c4, c5, c6, c7]
  {
  }

  function CellsOf(s: seq<byte>): (c: seq<byte>)
    ensures |c| == 8 * |s| && IsBits(c)
  {
    if s == [] then [] else ByteCells(s[0]) + CellsOf(s[1..])
  }

  function BytesOf(c: seq<byte>): (s: seq<byte>)
    requires |c| % 8 == 0
    ensures |s| == |c| / 8
  {
    if c == [] then [] else [MergeCells(c[..8])] + BytesOf(c[8..])
  }

  lemma {:induction false} BytesOfCells(s: seq<byte>)
    ensures BytesOf(CellsOf(s)) == s
  {
    if s != [] {
      MergeByteCells(s[0]);
      assert CellsOf(s)[..8] == ByteCells(s[0]) && CellsOf(s)[8..] == CellsOf(s[1..]);
      BytesOfCells(s[1..]);
    }
  }

  lemma {:induction false} CellsOfBytes(c: seq<byte>)
    requires |c| % 8 == 0 && IsBits(c)
    ensures CellsOf(BytesOf(c)) == c
  {
    if c != [] {
      ByteCellsMerge(c[..8]);
      CellsOfBytes(c[8..]);
      assert c == c[..8] + c[8..];
    }
  }

  // ------------------------------------------------------------- layer 1: blocks

  /** One 8-byte block in direction `p2`. */
  function CryptBlock(t: Cipher, p2: int, s: seq<byte>): (r: seq<byte>)
    requires |s| == 8
    ensures |r| == 8
  {
    BytesOf(Network(t, KeyOrder(p2), CellsOf(s)))
  }

  function Blocks(t: Cipher, p2: int, s: seq<byte>): (r: seq<byte>)
    requires |s| % 8 == 0
    ensures |r| == |s|
  {
    if s == [] then [] else CryptBlock(t, p2, s[..8]) + Blocks(t, p2, s[8..])
  }

  lemma {:induction false} BlocksAppend(t: Cipher, p2: int, s: seq<byte>, last: seq<byte>)
    requires |s| % 8 == 0 && |last| == 8
    ensures Blocks(t, p2, s + last) == Blocks(t, p2, s) + CryptBlock(t, p2, last)
  {
    hide CryptBlock;
    if s == [] {
      assert (s + last)[..8] == last && (s + last)[8..] == [];
    } else {
      assert (s + last)[..8] == s[..8] && (s + last)[8..] == s[8..] + last;
      BlocksAppend(t, p2, s[8..], last);
    }
  }

  /** The data while block by block is replaced: `n` bytes done, the rest untouched. */
  function PartlyDone(t: Cipher, p2: int, s: seq<byte>, n: nat): (r: seq<byte>)
    requires n <= |s| && n % 8 == 0
    ensures |r| == |s| && r[n..] == s[n..]
  {
    Blocks(t, p2, s[..n]) + s[n..]
  }

  lemma NextBlock(t: Cipher, p2: int, s: seq<byte>, n: nat)
    requires n % 8 == 0 && n + 8 <= |s|
    ensures Blocks(t, p2, s[..n + 8]) == Blocks(t, p2, s[..n]) + CryptBlock(t, p2, s[n..n + 8])
  {
    BlocksAppend(t, p2, s[..n], s[n..n + 8]);
    assert s[..n + 8] == s[..n] + s[n..n + 8];
  }

  lemma BlocksStep(t: Cipher, p2: int, s: seq<byte>, n: nat)
    requires n % 8 == 0 && n + 8 <= |s|
    ensures var d := PartlyDone(t, p2, s, n);
      d[..n] + CryptBlock(t, p2, d[n..n + 8]) + d[n + 8..] == PartlyDone(t, p2, s, n + 8)
  {
    NextBlock(t, p2, s, n);
    var d := PartlyDone(t, p2, s, n);
    assert d[..n] == Blocks(t, p2, s[..n]);
    assert d[n..n + 8] == d[n..][..8] == s[n..][..8] == s[n..n + 8];
    assert d[n + 8..] == d[n..][8..] == s[n..][8..] == s[n + 8..];
  }

  lemma AllDone(t: Cipher, p2: int, s: seq<byte>)
    requires |s| % 8 == 0
    ensures PartlyDone(t, p2, s, |s|) == Blocks(t, p2, s)
  {
    assert s[..|s|] == s && s[|s|..] == [];
  }

  lemma DecodeEncodeBlock(t: Cipher, s: seq<byte>)
    requires |s| == 8
    ensures CryptBlock(t, 0, CryptBlock(t, 1, s)) == s
  {
    CellsOfBytes(Network(t, KeyOrder(1), CellsOf(s)));
    DirectionsInverse(t, CellsOf(s));
    BytesOfCells(s);
  }

  lemma {:induction false} DecodeEncodeBlocks(t: Cipher, s: seq<byte>)
    requires |s| % 8 == 0
    ensures Blocks(t, 0, Blocks(t, 1, s)) == s
  {
    if s != [] {
      var c := Blocks(t, 1, s);
      assert c[..8] == CryptBlock(t, 1, s[..8]) && c[8..] == Blocks(t, 1, s[8..]);
      DecodeEncodeBlock(t, s[..8]);
      DecodeEncodeBlocks(t, s[8..]);
    }
  }

  /** Zero padding to whole blocks. */
  function Padded(s: seq<byte>): (r: seq<byte>)
    ensures |r| % 8 == 0 && |s| <= |r| < |s| + 8 && r[..|s|] == s
    ensures |s| % 8 == 0 ==> r == s
  {
    s + seq((|s| + 7) / 8 * 8 - |s|, _ => 0)
  }

  /** Run one block of an array through the network in the decoding direction, in place. */
  method CryptBlockAt(t: Cipher, p2: int, data: array<byte>, offset: nat)
    requires offset + 8 <= data.Length
    modifies data
    ensures data[..] == old(data[..])[..offset] + CryptBlock(t, p2, old(data[..])[offset..offset + 8])
      + old(data[..])[offset + 8..]
  {
    assert data[offset..offset + 8] == data[..][offset..offset + 8];
    var block := new byte[64](_ => 0);
    SplitBlock(data, offset, block);
    InitialDecodeSub(t, block, p2);
    MergeBlock(block, data, offset);
  }

  /** Merge 64 cells back into eight bytes. */
  method MergeBlock(block: array<byte>, data: array<byte>, offset: nat)
    requires offset + 8 <= data.Length && block.Length == 64 && block != data
    modifies data
    ensures data[..] == old(data[..])[..offset] + BytesOf(block[..]) + old(data[..])[offset + 8..]
  {
    ghost var before, bytes := data[..], BytesOf(block[..]);
    var i := 0;
    while i < 8
      invariant 0 <= i <= 8
      invariant forall j :: 0 <= j < offset || offset + i <= j < data.Length ==> data[j] == before[j]
      invariant forall j :: offset <= j < offset + i ==> data[j] == bytes[j - offset]
    {
      MergedAt(block[..], i);
      assert block[..][8 * i..8 * i + 8] == block[8 * i..8 * i + 8];
      data[offset + i] := MergeCells(block[8 * i..8 * i + 8]);
      i := i + 1;
    }
  }

  /** Spread eight bytes over 64 cells. */
  method SplitBlock(data: array<byte>, offset: nat, block: array<byte>)
    requires offset + 8 <= data.Length && block.Length == 64 && block != data
    modifies block
    ensures block[..] == CellsOf(data[offset..offset + 8])
  {
    hide CellsOf, ByteCells;
    ghost var s := data[offset..offset + 8];
    var i := 0;
    while i < 8
      invariant 0 <= i <= 8
      invariant block[..8 * i] == CellsOf(s)[..8 * i]
    {
      CellsAt(s, i);
      PutCells(block, i * 8, data[offset + i]);
      assert block[8 * i..8 * i + 8] == CellsOf(s)[8 * i..8 * i + 8];
      ThreeSlices(block[..], 8 * i);
      ThreeSlices(CellsOf(s), 8 * i);
      i := i + 1;
    }
    assert block[..] == block[..64] && CellsOf(s) == CellsOf(s)[..64];
  }

  lemma ThreeSlices(s: seq<byte>, n: nat)
    requires n + 8 <= |s|
    ensures s[..n + 8] == s[..n] + s[n..n + 8]
  {
  }

  method PutCells(block: array<byte>, base: nat, b: byte)
    requires base + 8 <= block.Length
    modifies block
    ensures block[..base] == old(block[..base])
    ensures forall j :: 0 <= j < 8 ==> block[base + j] == ByteCells(b)[j]
  {
    hide BitOf, IsBits;
    block[base] := BitOf(b, 7);
    block[base + 1] := BitOf(b, 6);
    block[base + 2] := BitOf(b, 5);
    block[base + 3] := BitOf(b, 4);
    block[base + 4] := BitOf(b, 3);
    block[base + 5] := BitOf(b, 2);
    block[base + 6] := BitOf(b, 1);
    block[base + 7] := BitOf(b, 0);
  }

  lemma {:induction false} CellsAt(s: seq<byte>, i: nat)
    requires i < |s|
    ensures CellsOf(s)[8 * i..8 * i + 8] == ByteCells(s[i])
  {
    hide ByteCells, IsBits;
    if i > 0 {
      CellsAt(s[1..], i - 1);
      SliceBehind(ByteCells(s[0]), CellsOf(s[1..]), 8 * i);
    }
  }

  lemma SliceBehind(a: seq<byte>, b: seq<byte>, n: nat)
    requires |a| <= n && n + 8 <= |a| + |b|
    ensures (a + b)[n..n + 8] == b[n - |a|..n - |a| + 8]
  {
  }

  lemma {:induction false} MergedAt(c: seq<byte>, i: nat)
    requires |c| % 8 == 0 && 8 * i + 8 <= |c|
    ensures BytesOf(c)[i] == MergeCells(c[8 * i..8 * i + 8])
  {
    if i > 0 {
      MergedAt(c[8..], i - 1);
      assert c == c[..8] + c[8..];
      SliceBehind(c[..8], c[8..], 8 * i);
    }
  }

  /** One more block of a partly processed array. */
  method CryptNext(t: Cipher, p2: int, data: array<byte>, offset: nat, ghost s: seq<byte>)
    requires offset % 8 == 0 && offset + 8 <= |s|
    requires data[..] == PartlyDone(t, p2, s, offset)
    modifies data
    ensures data[..] == PartlyDone(t, p2, s, offset + 8)
  {
    CryptBlockAt(t, p2, data, offset);
    BlocksStep(t, p2, s, offset);
  }

  /** `decode_layer1`: the blocks after the 20-byte header, decoded in place.  The
    * loop always runs one block, and a block that is not whole indexes past the
    * end; both panics are `None`. */
  method DecodeLayer1(t: Cipher, input: seq<byte>) returns (output: Option<seq<byte>>)
    requires |input| >= 20
    ensures output == DecodedBlocks(t, input[20..])
  {
    hide PartlyDone, Blocks;
    var length := |input| - 20;
    ghost var body := input[20..];
    NoneDone(t, 0, body);
    var data := ArrayFrom(input, 20);
    var mainCounter := (length + 7) / 8;
    ghost var blocks := mainCounter;
    var num3 := 0;
    ghost var done := 0;
    while true
      invariant 0 <= done && num3 == 8 * done <= length
      invariant mainCounter == blocks - done
      invariant done > 0 ==> blocks > done
      invariant data[..] == PartlyDone(t, 0, body, num3)
      decreases length - num3
    {
      if num3 + 8 > length {
        NotWhole(length, done);
        return None;
      }
      CryptNext(t, 0, data, num3, body);
      num3, done := num3 + 8, done + 1;
      mainCounter := mainCounter - 1;
      if mainCounter == 0 {
        break;
      }
    }
    WholeLength(length, done);
    AllDone(t, 0, body);
    return Some(data[..]);
  }

  method ArrayFrom(input: seq<byte>, start: nat) returns (data: array<byte>)
    requires start <= |input|
    ensures fresh(data) && data[..] == input[start..]
  {
    data := new byte[|input| - start](i requires 0 <= i < |input| - start => input[start + i]);
    assert data[..] == input[start..];
  }

  lemma NoneDone(t: Cipher, p2: int, s: seq<byte>)
    ensures PartlyDone(t, p2, s, 0) == s
  {
  }

  lemma WholeLength(length: nat, done: nat)
    requires 8 * done <= length && (length + 7) / 8 == done
    ensures length == 8 * done && length % 8 == 0
  {
  }

  lemma NotWhole(length: nat, done: nat)
    requires 8 * done <= length < 8 * done + 8
    requires done > 0 ==> (length + 7) / 8 > done
    ensures length == 0 || length % 8 != 0
  {
  }

  function DecodedBlocks(t: Cipher, body: seq<byte>): (r: Option<seq<byte>>)
    ensures r.Some? ==> |r.value| == |body|
  {
    if body != [] && |body| % 8 == 0 then Some(Blocks(t, 0, body)) else None
  }

  /** `encode_layer1`: zero padding, then block by block into a second buffer. */
  method EncodeLayer1(t: Cipher, input: seq<byte>) returns (result: seq<byte>)
    ensures result == Blocks(t, 1, Padded(input))
  {
    hide Blocks, Padded, CryptBlock;
    ghost var padded := Padded(input);
    NoBlocks(t, 1, padded[..0]);
    var data := PaddedArray(input);
    var output := new byte[data.Length](_ => 0);
    var blocks := data.Length / 8;
    for block := 0 to blocks
      invariant data[..] == padded && fresh(output) && output != data && output.Length == data.Length
      invariant output[..8 * block] == Blocks(t, 1, padded[..8 * block])
    {
      EncodeNext(t, data, output, 8 * block, padded);
    }
    AllEncoded(t, padded, output[..]);
    result := output[..];
  }

  lemma NoBlocks(t: Cipher, p2: int, none: seq<byte>)
    ensures none == [] ==> Blocks(t, p2, none) == []
  {
  }

  method PaddedArray(input: seq<byte>) returns (data: array<byte>)
    ensures fresh(data) && data[..] == Padded(input)
  {
    var length := |input|;
    data := new byte[(length + 7) / 8 * 8](_ => 0);
    for i := 0 to length
      invariant data[..i] == input[..i]
      invariant forall j :: i <= j < data.Length ==> data[j] == 0
    {
      data[i] := input[i];
    }
  }

  method EncodeNext(t: Cipher, data: array<byte>, output: array<byte>, offset: nat, ghost padded: seq<byte>)
    requires data != output && data.Length == output.Length && offset % 8 == 0 && offset + 8 <= data.Length
    requires data[..] == padded && output[..offset] == Blocks(t, 1, padded[..offset])
    modifies output
    ensures output[..offset + 8] == Blocks(t, 1, padded[..offset + 8])
  {
    NextBlock(t, 1, padded, offset);
    assert data[offset..offset + 8] == padded[offset..offset + 8];
    EncodeBlock(t, data, output, offset);
  }

  method EncodeBlock(t: Cipher, data: array<byte>, output: array<byte>, offset: nat)
    requires data != output && data.Length == output.Length && offset + 8 <= data.Length
    modifies output
    ensures output[..offset + 8] == old(output[..offset]) + CryptBlock(t, 1, data[offset..offset + 8])
  {
    var plainByteBlock := new byte[64](_ => 0);
    SplitBlock(data, offset, plainByteBlock);
    InitialDecodeSub(t, plainByteBlock, 1);
    MergeBlock(plainByteBlock, output, offset);
  }

  lemma AllEncoded(t: Cipher, padded: seq<byte>, output: seq<byte>)
    requires |padded| % 8 == 0 && |output| == |padded|
    requires output[..|padded| / 8 * 8] == Blocks(t, 1, padded[..|padded| / 8 * 8])
    ensures output == Blocks(t, 1, padded)
  {
    assert |padded| / 8 * 8 == |padded|;
    assert padded[..|padded|] == padded && output[..|padded|] == output;
  }

  // ------------------------------------------------------------- layer 2: stream

  /** A stream cipher: the start key and the key that follows a key and a ciphertext byte. */
  datatype Stream = Stream(start: bv16, next: (bv16, byte) -> bv16)

  function ChaosNext(key: bv16, c: byte): bv16 { (c as bv16 + key) * 0x8041 + 0x1804 }

  function StandartNext(key: bv16, c: byte): bv16 { (c as bv16 + key) * 0x6081 + 0x1608 }

  const CHAOS_STREAM := Stream(0x0418, ChaosNext)
  const STANDART_STREAM := Stream(0x0816, StandartNext)

  function KeyByte(key: bv16): byte { ((key & 0xFF00) >> 8) as byte }

  /** The key byte is the high half of the key. */
  lemma KeyByteIsHigh(key: bv16)
    ensures KeyByte(key) as bv16 == key / 256
  {
  }

  function StreamDecoded(c: Stream, key: bv16, s: seq<byte>): (r: seq<byte>)
    ensures |r| == |s|
    decreases |s|
  {
    if s == [] then [] else [KeyByte(key) ^ s[0]] + StreamDecoded(c, c.next(key, s[0]), s[1..])
  }

  function StreamEncoded(c: Stream, key: bv16, s: seq<byte>): (r: seq<byte>)
    ensures |r| == |s|
    decreases |s|
  {
    if s == [] then [] else
      var e := KeyByte(key) ^ s[0];
      [e] + StreamEncoded(c, c.next(key, e), s[1..])
  }

  lemma {:induction false} StreamRoundTrip(c: Stream, key: bv16, s: seq<byte>)
    ensures StreamDecoded(c, key, StreamEncoded(c, key, s)) == s
    decreases |s|
  {
    if s != [] {
      var e := KeyByte(key) ^ s[0];
      assert StreamEncoded(c, key, s)[1..] == StreamEncoded(c, c.next(key, e), s[1..]);
      StreamRoundTrip(c, c.next(key, e), s[1..]);
      XorTwice(s[0], KeyByte(key));
      assert KeyByte(key) ^ e == e ^ KeyByte(key);
      assert e == s[0] ^ KeyByte(key);
    }
  }

  /** A decoded byte depends only on the ciphertext up to it. */
  lemma {:induction false} StreamPrefix(c: Stream, key: bv16, s: seq<byte>, n: nat)
    requires n <= |s|
    ensures StreamDecoded(c, key, s)[..n] == StreamDecoded(c, key, s[..n])
    decreases n
  {
    if n > 0 {
      StreamPrefix(c, c.next(key, s[0]), s[1..], n - 1);
      assert s[..n][1..] == s[1..][..n - 1];
      assert StreamDecoded(c, key, s)[..n]
          == [KeyByte(key) ^ s[0]] + StreamDecoded(c, c.next(key, s[0]), s[1..])[..n - 1];
    }
  }

  lemma StreamDecodedStep(c: Stream, key: bv16, s: seq<byte>, i: nat, full: seq<byte>)
    requires i < |s| == |full| && StreamDecoded(c, key, s[i..]) == full[i..]
    ensures full[i] == KeyByte(key) ^ s[i]
    ensures StreamDecoded(c, c.next(key, s[i]), s[i + 1..]) == full[i + 1..]
  {
    assert s[i..][1..] == s[i + 1..] && full[i..][1..] == full[i + 1..];
    assert full[i] == full[i..][0];
  }

  lemma StreamEncodedStep(c: Stream, key: bv16, s: seq<byte>, i: nat, full: seq<byte>)
    requires i < |s| == |full| && StreamEncoded(c, key, s[i..]) == full[i..]
    ensures full[i] == KeyByte(key) ^ s[i]
    ensures StreamEncoded(c, c.next(key, full[i]), s[i + 1..]) == full[i + 1..]
  {
    assert s[i..][1..] == s[i + 1..] && full[i..][1..] == full[i + 1..];
    assert full[i] == full[i..][0];
  }

  /** `decode_layer2` and `decode_standart`: decode in place. */
  method DecodeStream(c: Stream, data: array<byte>)
    modifies data
    ensures data[..] == StreamDecoded(c, c.start, old(data[..]))
  {
    ghost var s, full := data[..], StreamDecoded(c, c.start, data[..]);
    var volatileKey := c.start;
    assert s[0..] == s && full[0..] == full;
    for i := 0 to data.Length
      invariant forall j :: 0 <= j < i ==> data[j] == full[j]
      invariant forall j :: i <= j < data.Length ==> data[j] == s[j]
      invariant StreamDecoded(c, volatileKey, s[i..]) == full[i..]
    {
      StreamDecodedStep(c, volatileKey, s, i, full);
      var rawByte := data[i];
      var decrypted := KeyByte(volatileKey) ^ rawByte;
      volatileKey := c.next(volatileKey, rawByte);
      data[i] := decrypted;
    }
  }

  /** `encode_layer2`: encode in place. */
  method EncodeStream(c: Stream, data: array<byte>)
    modifies data
    ensures data[..] == StreamEncoded(c, c.start, old(data[..]))
  {
    ghost var s, full := data[..], StreamEncoded(c, c.start, data[..]);
    var volatileKey := c.start;
    assert s[0..] == s && full[0..] == full;
    for i := 0 to data.Length
      invariant forall j :: 0 <= j < i ==> data[j] == full[j]
      invariant forall j :: i <= j < data.Length ==> data[j] == s[j]
      invariant StreamEncoded(c, volatileKey, s[i..]) == full[i..]
    {
      StreamEncodedStep(c, volatileKey, s, i, full);
      var encrypted := KeyByte(volatileKey) ^ data[i];
      volatileKey := c.next(volatileKey, encrypted);
      data[i] := encrypted;
    }
  }

  // ----------------------------------------------------------------- whole files

  const CHAOS_HEADER: seq<byte> :=
    [ 0x4C, 0x26, 0x43, 0x7F, 0x80, 0xF1, 0x57, 0x98, 0x79, 0xFC, 0xAF, 0x26, 0x86, 0xD6, 0x20, 0x8E ]

  /** The largest length of a Rust vector of bytes (64-bit target). */
  const ISIZE_MAX: nat := 0x7FFF_FFFF_FFFF_FFFF

  /** The four bytes `put_real_length` writes, most significant first. */
  function LengthField(n: nat): (s: seq<byte>)
    ensures |s| == 4
  {
    Reverse(I32Bytes(n))
  }

  /** `get_real_length`, as the usize that `decrypt_tbl` compares with. */
  function RealLength(field: seq<byte>): nat
    requires |field| == 4
  {
    AsUsize(I32Of(Reverse(field)))
  }

  lemma ReversedField(s: seq<byte>)
    requires |s| == 4
    ensures RealLength(Reverse(s)) == AsUsize(I32Of(s))
  {
    assert Reverse(Reverse(s)) == s;
  }

  /** The length field carries `n as i32` sign-extended to usize, and nothing more. */
  lemma LengthFieldValue(n: nat)
    ensures RealLength(LengthField(n)) == AsUsize(AsI32(n))
  {
    ReversedField(I32Bytes(n));
    I32RoundTrip(n);
  }

  datatype Encryption = ChaosExpansion | Standart | Plain

  predicate PlausibleColumnCount(data: seq<byte>)
  {
    |data| >= 4 && 0 < I32Of(data[..4]) < 500
  }

  /** `detect_encryption`. */
  function Detected(data: seq<byte>): Encryption
  {
    if |data| >= 20 && data[..16] == CHAOS_HEADER then ChaosExpansion
    else if PlausibleColumnCount(StreamDecoded(STANDART_STREAM, STANDART_STREAM.start, data)) then Standart
    else if PlausibleColumnCount(data) then Plain
    else Standart
  }

  /** Drop what follows the real length, if there is that much. */
  function Truncated(s: seq<byte>, n: nat): (r: seq<byte>)
    ensures r <= s
  {
    if n <= |s| then s[..n] else s
  }

  function ChaosDecrypted(t: Cipher, field: seq<byte>, body: seq<byte>): Option<(seq<byte>, bool)>
    requires |field| == 4
  {
    match DecodedBlocks(t, body)
    case None => None
    case Some(layer1) =>
      Some((Truncated(StreamDecoded(CHAOS_STREAM, CHAOS_STREAM.start, layer1), RealLength(field)), true))
  }

  /** What `decrypt_tbl` returns: the plaintext and the new-structure flag; `None` is a panic. */
  function Decrypted(t: Cipher, data: seq<byte>): Option<(seq<byte>, bool)>
  {
    match Detected(data)
    case ChaosExpansion => ChaosDecrypted(t, data[16..20], data[20..])
    case Standart => Some((StreamDecoded(STANDART_STREAM, STANDART_STREAM.start, data), false))
    case Plain => Some((data, false))
  }

  /** What `encrypt_tbl` writes. */
  function Encrypted(t: Cipher, plaintext: seq<byte>): (r: seq<byte>)
  {
    CHAOS_HEADER + LengthField(|plaintext|)
      + Blocks(t, 1, Padded(StreamEncoded(CHAOS_STREAM, CHAOS_STREAM.start, plaintext)))
  }

  method DetectEncryption(data: seq<byte>) returns (e: Encryption)
    ensures e == Detected(data)
  {
    if |data| >= 20 && data[..16] == CHAOS_HEADER {
      return ChaosExpansion;
    }
    var test := new byte[|data|](i requires 0 <= i < |data| => data[i]);
    assert test[..] == data;
    DecodeStream(STANDART_STREAM, test);
    if test.Length >= 4 && 0 < I32Of(test[..4]) < 500 {
      return Standart;
    }
    if PlausibleColumnCount(data) {
      return Plain;
    }
    return Standart;
  }

  method DecryptTbl(t: Cipher, data: seq<byte>) returns (r: Option<(seq<byte>, bool)>)
    ensures r == Decrypted(t, data)
  {
    var enc := DetectEncryption(data);
    match enc
    case ChaosExpansion =>
      var realLen := RealLength(data[16..20]);
      var layer1 := DecodeLayer1(t, data);
      if layer1.None? {
        return None;
      }
      var output := new byte[|layer1.value|](i requires 0 <= i < |layer1.value| => layer1.value[i]);
      assert output[..] == layer1.value;
      DecodeStream(CHAOS_STREAM, output);
      return Some((if realLen <= output.Length then output[..realLen] else output[..], true));
    case Standart =>
      var output := new byte[|data|](i requires 0 <= i < |data| => data[i]);
      assert output[..] == data;
      DecodeStream(STANDART_STREAM, output);
      return Some((output[..], false));
    case Plain =>
      return Some((data, false));
  }

  method EncryptTbl(t: Cipher, plaintext: seq<byte>) returns (output: seq<byte>)
    ensures output == Encrypted(t, plaintext)
  {
    var layer2Data := new byte[|plaintext|](i requires 0 <= i < |plaintext| => plaintext[i]);
    assert layer2Data[..] == plaintext;
    EncodeStream(CHAOS_STREAM, layer2Data);
    var encryptedBody := EncodeLayer1(t, layer2Data[..]);
    output := CHAOS_HEADER;
    output := output + LengthField(|plaintext|);
    output := output + encryptedBody;
  }

  // ------------------------------------------------------------- the round trip

  lemma HeaderDetected(t: Cipher, field: seq<byte>, body: seq<byte>)
    requires |field| == 4
    ensures Decrypted(t, CHAOS_HEADER + field + body) == ChaosDecrypted(t, field, body)
  {
    var file := CHAOS_HEADER + field + body;
    assert file[..16] == CHAOS_HEADER && file[16..20] == field && file[20..] == body;
    assert Detected(file) == ChaosExpansion;
  }

  lemma BodyDecoded(t: Cipher, field: seq<byte>, body: seq<byte>)
    requires |field| == 4 && |body| % 8 == 0 && body != []
    ensures ChaosDecrypted(t, field, Blocks(t, 1, body))
      == Some((Truncated(StreamDecoded(CHAOS_STREAM, CHAOS_STREAM.start, body), RealLength(field)), true))
  {
    DecodeEncodeBlocks(t, body);
  }

  /** The layer-2 ciphertext of `p`, padded to whole blocks. */
  function Layer2(p: seq<byte>): (r: seq<byte>)
    ensures |p| <= |r| < |p| + 8 && |r| % 8 == 0
  {
    Padded(StreamEncoded(CHAOS_STREAM, CHAOS_STREAM.start, p))
  }

  /** The padded plaintext that the two layers give back. */
  function Recovered(p: seq<byte>): (r: seq<byte>)
    ensures |p| <= |r| < |p| + 8 && |r| % 8 == 0
  {
    StreamDecoded(CHAOS_STREAM, CHAOS_STREAM.start, Layer2(p))
  }

  lemma RecoveredPrefix(p: seq<byte>)
    ensures Recovered(p)[..|p|] == p
  {
    var e := StreamEncoded(CHAOS_STREAM, CHAOS_STREAM.start, p);
    StreamPrefix(CHAOS_STREAM, CHAOS_STREAM.start, Padded(e), |p|);
    StreamRoundTrip(CHAOS_STREAM, CHAOS_STREAM.start, p);
  }

  /** Decryption of an encrypted plaintext, before the length field is understood. */
  lemma DecryptedEncrypted(t: Cipher, p: seq<byte>)
    ensures Decrypted(t, Encrypted(t, p))
      == if p == [] then None else Some((Truncated(Recovered(p), AsUsize(AsI32(|p|))), true))
  {
    HeaderDetected(t, LengthField(|p|), Blocks(t, 1, Layer2(p)));
    if p != [] {
      BodyDecoded(t, LengthField(|p|), Layer2(p));
      LengthFieldValue(|p|);
    }
  }

  /** Exactly when decryption undoes encryption: the plaintext is not empty, and its
    * length either survives `as i32` or turns negative there on a whole number of blocks. */
  predicate LengthSurvives(n: nat)
  {
    0 < n < 0x8000_0000 || (n % 0x1_0000_0000 >= 0x8000_0000 && n % 8 == 0)
  }

  /** What the length field and the truncation make of a plaintext with its padding. */
  lemma TruncatedExactly(p: seq<byte>, padded: seq<byte>)
    requires 0 < |p| && |p| + 27 <= ISIZE_MAX
    requires |p| <= |padded| < |p| + 8 && |padded| % 8 == 0 && padded[..|p|] == p
    ensures Truncated(padded, AsUsize(AsI32(|p|))) == p <==> LengthSurvives(|p|)
  {
    var n := AsUsize(AsI32(|p|));
    if n == |p| {
      assert Truncated(padded, n) == p;
    } else if n > |padded| {
      assert Truncated(padded, n) == padded;
      assert |padded| == |p| <==> |p| % 8 == 0;
    } else {
      assert |Truncated(padded, n)| == n;
    }
  }

  lemma RoundTripExactly(t: Cipher, p: seq<byte>)
    requires |p| + 27 <= ISIZE_MAX
    ensures Decrypted(t, Encrypted(t, p)) == Some((p, true)) <==> LengthSurvives(|p|)
  {
    DecryptedEncrypted(t, p);
    if p != [] {
      RecoveredPrefix(p);
      TruncatedExactly(p, Recovered(p));
    }
  }

  /** The promise: every non-empty plaintext below 2 GiB comes back, flagged as new structure. */
  lemma RoundTrip(t: Cipher, p: seq<byte>)
    requires 0 < |p| < 0x8000_0000
    ensures Decrypted(t, Encrypted(t, p)) == Some((p, true))
  {
    RoundTripExactly(t, p);
  }

  // ------------------------------------------------------------- files of other kinds

  predicate HasChaosHeader(data: seq<byte>) { |data| >= 20 && data[..16] == CHAOS_HEADER }

  /** A table with less than 500 columns under the older stream cipher is recognised and decrypted. */
  lemma StandartRead(t: Cipher, p: seq<byte>)
    requires |p| >= 4 && 0 < I32Of(p[..4]) < 500
    requires !HasChaosHeader(StreamEncoded(STANDART_STREAM, 0x0816, p))
    ensures Decrypted(t, StreamEncoded(STANDART_STREAM, 0x0816, p)) == Some((p, false))
  {
    hide I32Of, StreamDecoded, StreamEncoded;
    StreamRoundTrip(STANDART_STREAM, 0x0816, p);
  }

  /** A table that is not encrypted is taken as it is, unless decrypting it would give a table as well. */
  lemma PlainRead(t: Cipher, p: seq<byte>)
    requires |p| >= 4 && 0 < I32Of(p[..4]) < 500 && !HasChaosHeader(p)
    requires !(0 < I32Of(StreamDecoded(STANDART_STREAM, 0x0816, p)[..4]) < 500)
    ensures Decrypted(t, p) == Some((p, false))
  {
    hide I32Of, StreamDecoded;
  }
}
