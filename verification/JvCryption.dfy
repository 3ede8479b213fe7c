/** The length-keyed XOR transform of the packet layer and its checksum. */
module JvCryption {
  import opened Bytes
  import opened Crc
  import opened Wrappers

  const PRIVATE_KEY: bv64 := 0x1207_5001_2012_8966
  const INITIAL_RKEY: bv32 := 2157

  /** The working key of a public key. */
  function WorkingKey(publicKey: bv64): bv64 { publicKey ^ PRIVATE_KEY }

  // --------------------------------------------------------------- the key stream

  /** `rkey.wrapping_mul(2171)`. */
  function NextRkey(r: bv32): bv32 { r * 2171 }

  function Rkey(i: nat): bv32 { if i == 0 then INITIAL_RKEY else NextRkey(Rkey(i - 1)) }

  function RotationByte(r: bv32): byte { ((r >> 8) & 0xFF) as byte }

  /** `tkey.to_le_bytes()`. */
  function KeyBytes(k: bv64): (s: seq<byte>)
    ensures |s| == 8
  {
    [ (k & 0xFF) as byte, ((k >> 8) & 0xFF) as byte, ((k >> 16) & 0xFF) as byte, ((k >> 24) & 0xFF) as byte,
      ((k >> 32) & 0xFF) as byte, ((k >> 40) & 0xFF) as byte, ((k >> 48) & 0xFF) as byte, ((k >> 56) & 0xFF) as byte ]
  }

  /** `(len as u8).wrapping_mul(157)`. */
  function LengthKey(length: nat): byte { Times157(ByteOf(length % 256)) }

  function Times157(b: byte): byte { b * 157 }

  /** One byte through the three layers. */
  function Layers(b: byte, rotation: byte, session: byte, length: byte): byte
  {
    ((b ^ rotation) ^ session) ^ length
  }

  /** What `transform` makes of a buffer. */
  function Transformed(tkey: bv64, s: seq<byte>): (r: seq<byte>)
    ensures |r| == |s|
  {
    seq(|s|, i requires 0 <= i < |s| =>
      Layers(s[i], RotationByte(Rkey(i)), KeyBytes(tkey)[i % 8], LengthKey(|s|)))
  }

  /** The parts of the mask in numbers: the second byte of the rolling key, the byte of the
    * working key by its place value, and the length times 157, all modulo 256. */
  lemma MaskByte(tkey: bv64, s: seq<byte>, i: nat)
    requires i < |s|
    ensures var rotation, session, length := RotationByte(Rkey(i)), KeyBytes(tkey)[i % 8], LengthKey(|s|);
      && Transformed(tkey, s)[i] == s[i] ^ rotation ^ session ^ length
      && rotation as bv32 == Rkey(i) / 256 % 256
      && length as int == |s| * 157 % 256
  {
    hide Transformed, RotationByte, Rkey, KeyBytes, LengthKey;
    TransformedAt(tkey, s, i);
    RotationValue(Rkey(i));
    LengthValue(|s|);
  }

  lemma TransformedAt(tkey: bv64, s: seq<byte>, i: nat)
    requires i < |s|
    ensures Transformed(tkey, s)[i] == s[i] ^ RotationByte(Rkey(i)) ^ KeyBytes(tkey)[i % 8] ^ LengthKey(|s|)
  {
    hide RotationByte, Rkey, KeyBytes, LengthKey;
  }

  lemma RotationValue(r: bv32)
    ensures RotationByte(r) as bv32 == r / 256 % 256
  {
  }

  lemma KeyBytesValue(k: bv64)
    ensures var b := KeyBytes(k);
      k == b[0] as bv64 + 0x100 * b[1] as bv64 + 0x1_0000 * b[2] as bv64 + 0x100_0000 * b[3] as bv64
        + 0x1_0000_0000 * b[4] as bv64 + 0x100_0000_0000 * b[5] as bv64
        + 0x1_0000_0000_0000 * b[6] as bv64 + 0x100_0000_0000_0000 * b[7] as bv64
  {
  }

  lemma LengthValue(n: nat)
    ensures LengthKey(n) as int == n * 157 % 256
  {
    hide ByteOf, Times157;
    TimesValue(n % 256);
    Reduced(n);
  }

  lemma Reduced(n: nat)
    ensures (n % 256) * 157 % 256 == n * 157 % 256
  {
    var q, r := n / 256, n % 256;
    assert n * 157 == r * 157 + (q * 157) * 256;
    AddMultiple(r * 157, q * 157);
  }

  lemma {:induction false} AddMultiple(a: nat, k: nat)
    ensures (a + k * 256) % 256 == a % 256
  {
    if k > 0 {
      AddMultiple(a, k - 1);
      assert a + k * 256 == (a + (k - 1) * 256) + 256;
    }
  }

  lemma NextMultiple(n: nat)
    requires n > 0
    ensures ((n - 1) * 157 % 256 + 157) % 256 == n * 157 % 256
  {
    var a := (n - 1) * 157;
    var q, r := a / 256, a % 256;
    assert n * 157 == (r + 157) + q * 256;
    AddMultiple(r + 157, q);
  }

  lemma {:induction false} TimesValue(n: nat)
    requires n < 256
    ensures Times157(ByteOf(n)) as int == n * 157 % 256
  {
    hide ByteOf, Times157;
    if n == 0 {
      TimesZero();
    } else {
      TimesValue(n - 1);
      NextProduct(ByteOf(n - 1), ByteOf(n));
      NextMultiple(n);
    }
  }

  lemma TimesZero()
    ensures ByteOf(0) == 0 && Times157(0) == 0
  {
  }

  lemma NextProduct(b: byte, c: byte)
    requires c as int == b as int + 1
    ensures Times157(c) as int == (Times157(b) as int + 157) % 256
  {
    hide Times157;
    ProductStep(b, c);
    SumValue(Times157(b));
  }

  lemma ProductStep(b: byte, c: byte)
    requires c as int == b as int + 1
    ensures Times157(c) == Times157(b) + 157
  {
  }

  lemma SumValue(b: byte)
    ensures (b + 157) as int == (b as int + 157) % 256
  {
  }

  /** The transform of an all-zero buffer. */
  function KeyStream(tkey: bv64, length: nat): (r: seq<byte>)
    ensures |r| == length
  {
    seq(length, i requires 0 <= i < length =>
      Layers(0, RotationByte(Rkey(i)), KeyBytes(tkey)[i % 8], LengthKey(length)))
  }

  lemma LayersAsMask(b: byte, rotation: byte, session: byte, length: byte)
    ensures Layers(b, rotation, session, length) == b ^ Layers(0, rotation, session, length)
  {
  }

  /** The transform adds a key stream that depends on the length, not on the data. */
  lemma TransformedIsMasked(tkey: bv64, s: seq<byte>)
    ensures Transformed(tkey, s) == XorBytes(s, KeyStream(tkey, |s|))
  {
    hide Layers, RotationByte, Rkey, KeyBytes, LengthKey;
    forall i | 0 <= i < |s|
      ensures Transformed(tkey, s)[i] == XorBytes(s, KeyStream(tkey, |s|))[i]
    {
      LayersAsMask(s[i], RotationByte(Rkey(i)), KeyBytes(tkey)[i % 8], LengthKey(|s|));
    }
  }

  /** Encryption is its own inverse. */
  lemma {:induction false} TransformInvolution(tkey: bv64, s: seq<byte>)
    ensures Transformed(tkey, Transformed(tkey, s)) == s
  {
    hide Transformed, KeyStream;
    var t := Transformed(tkey, s);
    TransformedIsMasked(tkey, s);
    TransformedIsMasked(tkey, t);
    XorBytesTwice(s, KeyStream(tkey, |s|));
  }

  lemma SameMask(x: byte, y: byte, m: byte)
    ensures (x ^ m) ^ (y ^ m) == x ^ y
  {
  }

  /** At equal length the difference of two buffers is the difference of their transforms. */
  lemma {:induction false} DifferencePreserved(tkey: bv64, g: seq<byte>, h: seq<byte>)
    requires |g| == |h|
    ensures XorBytes(Transformed(tkey, g), Transformed(tkey, h)) == XorBytes(g, h)
  {
    hide Transformed, KeyStream;
    TransformedIsMasked(tkey, g);
    TransformedIsMasked(tkey, h);
    var k := KeyStream(tkey, |g|);
    forall i | 0 <= i < |g|
      ensures (g[i] ^ k[i]) ^ (h[i] ^ k[i]) == g[i] ^ h[i]
    {
      SameMask(g[i], h[i], k[i]);
    }
  }

  // ---------------------------------------------------------- checksummed buffers

  /** `encrypt_with_crc32`: the payload and its checksum, transformed together. */
  function Protected(tkey: bv64, payload: seq<byte>): (r: seq<byte>)
    ensures |r| == |payload| + 4
  {
    Transformed(tkey, payload + WordBytes(Checksum(ALL_ONES, payload)))
  }

  /** The test `decrypt_with_crc32` makes after decrypting. */
  predicate ChecksumHolds(plain: seq<byte>)
    requires |plain| >= 4
  {
    var n := |plain| - 4;
    Checksum(ALL_ONES, plain[..n]) == WordOfBytes(plain[n..])
  }

  predicate Accepted(tkey: bv64, data: seq<byte>)
  {
    |data| >= 4 && ChecksumHolds(Transformed(tkey, data))
  }

  lemma ChecksumIsResidue(plain: seq<byte>)
    requires |plain| >= 4
    ensures ChecksumHolds(plain) <==> Checksum(ALL_ONES, plain) == 0
  {
    hide Checksum, WordOfBytes, WordBytes;
    var n := |plain| - 4;
    BytesWordRoundTrip(plain[n..]);
    ResidueTest(ALL_ONES, plain[..n], WordOfBytes(plain[n..]));
    assert plain == plain[..n] + plain[n..];
  }

  /** A protected buffer is accepted and decrypts to its payload and checksum. */
  lemma ProtectedAccepted(tkey: bv64, payload: seq<byte>)
    ensures Accepted(tkey, Protected(tkey, payload))
    ensures Transformed(tkey, Protected(tkey, payload))[..|payload|] == payload
  {
    hide Checksum, WordOfBytes, WordBytes, Transformed;
    var crc := Checksum(ALL_ONES, payload);
    var plain := payload + WordBytes(crc);
    TransformInvolution(tkey, plain);
    WordBytesRoundTrip(crc);
    assert plain[..|payload|] == payload && plain[|payload|..] == WordBytes(crc);
  }

  lemma {:induction false} WordBitsXor(v: bv32, w: bv32, n: nat)
    ensures WordBits(Xor(v, w), n) == XorBits(WordBits(v, n), WordBits(w, n))
    decreases n
  {
    hide Xor, Low, Half;
    if n > 0 {
      XorLow(v, w);
      XorHalf(v, w);
      WordBitsXor(Half(v), Half(w), n - 1);
    }
  }

  lemma WideXor(x: byte, y: byte)
    ensures Wide(x ^ y) == Xor(Wide(x), Wide(y))
  {
  }

  lemma ByteBitsXor(x: byte, y: byte)
    ensures ByteBits(x ^ y) == XorBits(ByteBits(x), ByteBits(y))
  {
    WideXor(x, y);
    hide WordBits, Xor;
    WordBitsXor(Wide(x), Wide(y), 8);
  }

  lemma XorBitsAppend(a: seq<bool>, b: seq<bool>, c: seq<bool>, d: seq<bool>)
    requires |a| == |c| && |b| == |d|
    ensures XorBits(a + b, c + d) == XorBits(a, c) + XorBits(b, d)
  {
  }

  lemma {:induction false} BitsOfXor(g: seq<byte>, h: seq<byte>)
    requires |g| == |h|
    ensures BitsOf(XorBytes(g, h)) == XorBits(BitsOf(g), BitsOf(h))
  {
    hide ByteBits;
    if g != [] {
      assert XorBytes(g, h)[1..] == XorBytes(g[1..], h[1..]);
      ByteBitsXor(g[0], h[0]);
      BitsOfXor(g[1..], h[1..]);
      XorBitsAppend(ByteBits(g[0]), BitsOf(g[1..]), ByteBits(h[0]), BitsOf(h[1..]));
    }
  }

  /** The register of the difference, from zero. */
  function Syndrome(e: seq<byte>): bv32 { Register(0, BitsOf(e)) }

  lemma ChecksumOfXor(start: bv32, g: seq<byte>, e: seq<byte>)
    requires |g| == |e|
    ensures Checksum(start, XorBytes(g, e)) == Xor(Checksum(start, g), Syndrome(e))
  {
    hide Register, BitsOf, Xor;
    BitsOfXor(g, e);
    XorZero(start);
    RegisterLinear(start, 0, BitsOf(g), BitsOf(e));
  }

  /** Exactly which changes of an accepted buffer go unnoticed: those whose
    * difference has syndrome zero. */
  lemma ChangeAcceptedExactly(tkey: bv64, g: seq<byte>, h: seq<byte>)
    requires |g| == |h| && Accepted(tkey, g)
    ensures Accepted(tkey, h) <==> Syndrome(XorBytes(g, h)) == 0
  {
    hide Checksum, Syndrome, Transformed, Xor, ChecksumHolds;
    var p, q := Transformed(tkey, g), Transformed(tkey, h);
    var e := XorBytes(g, h);
    DifferencePreserved(tkey, g, h);
    XorRecovers(p, q);
    ChecksumIsResidue(p);
    ChecksumIsResidue(q);
    ChecksumOfXor(ALL_ONES, p, e);
    XorZero(Syndrome(e));
  }

  // ------------------------------------------------------------- keys that differ

  /** Where two keys differ, repeated over a buffer. */
  function KeyDifference(a: bv64, b: bv64, length: nat): (r: seq<byte>)
    ensures |r| == length
  {
    seq(length, i requires 0 <= i < length => KeyBytes(a)[i % 8] ^ KeyBytes(b)[i % 8])
  }

  lemma LayersDiffer(x: byte, rotation: byte, a: byte, b: byte, length: byte)
    ensures Layers(x, rotation, a, length) ^ Layers(x, rotation, b, length) == a ^ b
  {
  }

  /** Two keys make buffers of one that differ as the keys do. */
  lemma KeysDiffer(a: bv64, b: bv64, g: seq<byte>)
    ensures XorBytes(Transformed(a, g), Transformed(b, g)) == KeyDifference(a, b, |g|)
  {
    hide Layers, KeyBytes, RotationByte, Rkey, LengthKey;
    forall i | 0 <= i < |g|
      ensures Transformed(a, g)[i] ^ Transformed(b, g)[i] == KeyBytes(a)[i % 8] ^ KeyBytes(b)[i % 8]
    {
      LayersDiffer(g[i], RotationByte(Rkey(i)), KeyBytes(a)[i % 8], KeyBytes(b)[i % 8], LengthKey(|g|));
    }
  }

  /** What one end protects after `init` the other end accepts, and recovers, when both have the
    * same public key; with another public key it is accepted exactly when the difference of
    * the working keys, repeated over the buffer, has syndrome zero. */
  lemma KeysAgreeExactly(a: bv64, b: bv64, payload: seq<byte>)
    ensures var g := Protected(WorkingKey(a), payload);
      && (Accepted(WorkingKey(b), g) <==> Syndrome(KeyDifference(WorkingKey(a), WorkingKey(b), |g|)) == 0)
      && (a == b ==> Accepted(WorkingKey(b), g) && Transformed(WorkingKey(b), g)[..|payload|] == payload)
  {
    hide WorkingKey, Checksum, Syndrome, Transformed, Protected, Xor, ChecksumHolds, KeyDifference, WordBytes;
    var k, k' := WorkingKey(a), WorkingKey(b);
    var g := Protected(k, payload);
    ProtectedAccepted(k, payload);
    KeysDiffer(k, k', g);
    var p, q := Transformed(k, g), Transformed(k', g);
    XorRecovers(p, q);
    ChecksumIsResidue(p);
    ChecksumIsResidue(q);
    ChecksumOfXor(ALL_ONES, p, KeyDifference(k, k', |g|));
    XorZero(Syndrome(KeyDifference(k, k', |g|)));
  }

  lemma XorRecovers(p: seq<byte>, q: seq<byte>)
    requires |p| == |q|
    ensures XorBytes(p, XorBytes(p, q)) == q
  {
    forall i | 0 <= i < |p|
      ensures p[i] ^ (p[i] ^ q[i]) == q[i]
    {
      XorAgain(p[i], q[i]);
    }
  }

  lemma XorAgain(x: byte, y: byte)
    ensures x ^ (x ^ y) == y
  {
  }

  lemma LowsDetermineByte(x: byte, y: byte)
    requires var v, w := Wide(x), Wide(y); var v4, w4 := Half(Half(Half(Half(v)))), Half(Half(Half(Half(w))));
      && Low(v) == Low(w) && Low(Half(v)) == Low(Half(w))
      && Low(Half(Half(v))) == Low(Half(Half(w))) && Low(Half(Half(Half(v)))) == Low(Half(Half(Half(w))))
      && Low(v4) == Low(w4) && Low(Half(v4)) == Low(Half(w4))
      && Low(Half(Half(v4))) == Low(Half(Half(w4))) && Low(Half(Half(Half(v4)))) == Low(Half(Half(Half(w4))))
    ensures x == y
  {
  }

  lemma ByteBitsInjective(x: byte, y: byte)
    requires ByteBits(x) == ByteBits(y)
    ensures x == y
  {
    hide WordBits, Low, Half;
    EightListed(Wide(x));
    EightListed(Wide(y));
    var u, v := ByteBits(x), ByteBits(y);
    assert u[0] == v[0] && u[1] == v[1] && u[2] == v[2] && u[3] == v[3];
    assert u[4] == v[4] && u[5] == v[5] && u[6] == v[6] && u[7] == v[7];
    LowsDetermineByte(x, y);
  }

  lemma {:induction false} BitsOfInjective(g: seq<byte>, h: seq<byte>)
    requires |g| == |h| && BitsOf(g) == BitsOf(h)
    ensures g == h
  {
    hide ByteBits;
    if g != [] {
      assert BitsOf(g)[..8] == ByteBits(g[0]) && BitsOf(g)[8..] == BitsOf(g[1..]);
      assert BitsOf(h)[..8] == ByteBits(h[0]) && BitsOf(h)[8..] == BitsOf(h[1..]);
      ByteBitsInjective(g[0], h[0]);
      BitsOfInjective(g[1..], h[1..]);
    }
  }

  /** Adding the same bits to both sides keeps where they agree. */
  lemma AgreementMasked(u: seq<bool>, v: seq<bool>, m: seq<bool>, p: nat)
    requires |m| == |u| && AgreeOutside(u, v, p)
    ensures AgreeOutside(XorBits(u, m), XorBits(v, m), p)
  {
    forall i | 0 <= i < p
      ensures u[i] == v[i]
    {
      assert u[i] == u[..p][i] && v[i] == v[..p][i];
    }
    forall i | p + 32 <= i < |u|
      ensures u[i] == v[i]
    {
      assert u[i] == u[p + 32..][i - p - 32] && v[i] == v[p + 32..][i - p - 32];
    }
  }

  /** Any change confined to 32 consecutive bits of an accepted buffer is rejected. */
  lemma BurstRejected(tkey: bv64, g: seq<byte>, h: seq<byte>, p: nat)
    requires |g| == |h| && g != h && AgreeOutside(BitsOf(g), BitsOf(h), p)
    requires Accepted(tkey, g)
    ensures !Accepted(tkey, h)
  {
    hide Transformed, KeyStream, BitsOf, Register, AgreeOutside, ChecksumHolds, XorBytes;
    var k := KeyStream(tkey, |g|);
    var x, y := Transformed(tkey, g), Transformed(tkey, h);
    TransformedIsMasked(tkey, g);
    TransformedIsMasked(tkey, h);
    BitsOfXor(g, k);
    BitsOfXor(h, k);
    AgreementMasked(BitsOf(g), BitsOf(h), BitsOf(k), p);
    if BitsOf(x) == BitsOf(y) {
      BitsOfInjective(x, y);
      TransformInvolution(tkey, g);
      TransformInvolution(tkey, h);
      assert false;
    }
    BurstDetected(ALL_ONES, BitsOf(x), BitsOf(y), p);
    ChecksumIsResidue(x);
    ChecksumIsResidue(y);
  }

  /** Bytes outside four consecutive positions carry the bits outside 32. */
  lemma FourByteWindow(g: seq<byte>, h: seq<byte>, k: nat)
    requires |g| == |h| && k + 4 <= |g| && g[..k] == h[..k] && g[k + 4..] == h[k + 4..]
    ensures AgreeOutside(BitsOf(g), BitsOf(h), 8 * k)
  {
    hide BitsOf, AgreeOutside;
    var a, x, y, z := g[..k], g[k..k + 4], h[k..k + 4], g[k + 4..];
    assert g == a + (x + z);
    assert h == a + (y + z);
    PartsWindow(a, x, y, z);
  }

  lemma PartsWindow(a: seq<byte>, x: seq<byte>, y: seq<byte>, z: seq<byte>)
    requires |x| == |y| == 4
    ensures AgreeOutside(BitsOf(a + (x + z)), BitsOf(a + (y + z)), 8 * |a|)
  {
    hide BitsOf, AgreeOutside;
    BitsOfThree(a, x, z);
    BitsOfThree(a, y, z);
    WindowSlices(BitsOf(a), BitsOf(x), BitsOf(y), BitsOf(z));
  }

  lemma BitsOfThree(a: seq<byte>, x: seq<byte>, z: seq<byte>)
    ensures BitsOf(a + (x + z)) == BitsOf(a) + (BitsOf(x) + BitsOf(z))
  {
    hide BitsOf;
    BitsOfAppend(a, x + z);
    BitsOfAppend(x, z);
  }

  lemma WindowSlices(a: seq<bool>, x: seq<bool>, y: seq<bool>, z: seq<bool>)
    requires |x| == |y| == 32
    ensures AgreeOutside(a + (x + z), a + (y + z), |a|)
  {
  }

  /** A protected buffer changed in any way within four consecutive bytes, payload
    * or checksum or both, is rejected. */
  lemma FourBytesRejected(tkey: bv64, payload: seq<byte>, h: seq<byte>, k: nat)
    requires var g := Protected(tkey, payload);
      |g| == |h| && g != h && k + 4 <= |g| && g[..k] == h[..k] && g[k + 4..] == h[k + 4..]
    ensures !Accepted(tkey, h)
  {
    hide Protected, Accepted, BitsOf, AgreeOutside;
    var g := Protected(tkey, payload);
    ProtectedAccepted(tkey, payload);
    FourByteWindow(g, h, k);
    BurstRejected(tkey, g, h, 8 * k);
  }

  // --------------------------------------------------- five bytes are too many

  function Zeros(n: nat): (s: seq<byte>)
    ensures |s| == n
  {
    seq(n, _ => 0)
  }

  lemma {:induction false} RegisterOfZeros(n: nat)
    ensures Register(0, BitsOf(Zeros(n))) == 0
  {
    hide Register, WordBits, Shifts, Drop, Xor;
    if n == 0 {
      NoBits(0);
    } else {
      assert Zeros(n)[1..] == Zeros(n - 1);
      RegisterAppend(0, ByteBits(0), BitsOf(Zeros(n - 1)));
      ByteUsedUp(0);
      RegisterOfWord(0, 0, 8);
      XorZero(0);
      ShiftsOfZero(8);
      RegisterOfZeros(n - 1);
    }
  }

  /** A byte followed by the word that cancels what it left in the register. */
  function Cancelling(x: byte): (e: seq<byte>)
    ensures |e| == 5
  {
    [x] + WordBytes(Register(0, ByteBits(x)))
  }

  lemma CancellingVanishes(x: byte)
    ensures Register(0, BitsOf(Cancelling(x))) == 0
  {
    hide Register, WordBits, Shifts, Drop, Xor, WordBytes;
    var c := Register(0, ByteBits(x));
    assert Cancelling(x)[1..] == WordBytes(c);
    RegisterAppend(0, ByteBits(x), BitsOf(WordBytes(c)));
    BitsOfWordBytes(c);
    WordUsedUp(c);
    RegisterOfWord(c, c, 32);
    XorZero(c);
    ShiftsOfZero(32);
  }

  /** Any byte can be changed at any place, together with the four after it, so
    * that the buffer is still accepted: four is the most that is always caught. */
  lemma FiveBytesUndetected(tkey: bv64, g: seq<byte>, k: nat, x: byte)
    requires Accepted(tkey, g) && k + 5 <= |g| && x != 0
    ensures var h := XorBytes(g, Zeros(k) + Cancelling(x) + Zeros(|g| - k - 5));
      && Accepted(tkey, h) && h != g
      && h[..k] == g[..k] && h[k + 5..] == g[k + 5..]
  {
    hide Accepted, BitsOf, Register, Cancelling;
    var e := Zeros(k) + Cancelling(x) + Zeros(|g| - k - 5);
    var h := XorBytes(g, e);
    BitsOfAppend(Zeros(k) + Cancelling(x), Zeros(|g| - k - 5));
    BitsOfAppend(Zeros(k), Cancelling(x));
    RegisterAppend(0, BitsOf(Zeros(k)) + BitsOf(Cancelling(x)), BitsOf(Zeros(|g| - k - 5)));
    RegisterAppend(0, BitsOf(Zeros(k)), BitsOf(Cancelling(x)));
    RegisterOfZeros(k);
    CancellingVanishes(x);
    RegisterOfZeros(|g| - k - 5);
    XorRecovers(g, e);
    ChangeAcceptedExactly(tkey, g, h);
    ChangedWhere(g, e, k, x);
  }

  lemma ChangedWhere(g: seq<byte>, e: seq<byte>, k: nat, x: byte)
    requires k + 5 <= |g| && x != 0 && e == Zeros(k) + Cancelling(x) + Zeros(|g| - k - 5)
    ensures var h := XorBytes(g, e); h[k] != g[k] && h[..k] == g[..k] && h[k + 5..] == g[k + 5..]
  {
    var h := XorBytes(g, e);
    assert e[k] == x by { assert Cancelling(x)[0] == x; }
    ChangedByte(g[k], x);
    forall i | 0 <= i < k || k + 5 <= i < |g|
      ensures h[i] == g[i]
    {
      assert e[i] == 0;
      UnchangedByte(g[i]);
    }
  }

  lemma ChangedByte(b: byte, x: byte)
    requires x != 0
    ensures b ^ x != b
  {
    XorAgain(b, x);
    assert b ^ b == 0;
  }

  lemma UnchangedByte(b: byte)
    ensures b ^ 0 == b
  {
  }

  // ------------------------------------------------------------------- the object

  /** The encryption state of one connection. */
  class JvCryption {
    var publicKey: bv64
    var tkey: bv64
    var enabled: bool
    const table: seq<bv32>

    constructor ()
      ensures IsTable(table) && !enabled && publicKey == 0 && tkey == 0
    {
      var t := BuildTable();
      publicKey, tkey, enabled, table := 0, 0, false, t;
    }

    /** `init`: derive the working key. */
    method Init()
      modifies this`tkey, this`enabled
      ensures enabled && tkey == WorkingKey(publicKey)
    {
      tkey := WorkingKey(publicKey);
      enabled := true;
    }

    /** A new public key does not take effect before the next `Init`. */
    method SetPublicKey(key: bv64)
      modifies this`publicKey
      ensures publicKey == key
    {
      publicKey := key;
    }

    /** `transform`: both directions, in place. */
    method Transform(data: array<byte>)
      modifies data
      ensures data[..] == Transformed(tkey, old(data[..]))
    {
      hide KeyBytes, LengthKey, NextRkey, RotationByte, Layers;
      ghost var s := data[..];
      var pkey, lkey := KeyBytes(tkey), LengthKey(data.Length);
      var rkey := INITIAL_RKEY;
      for i := 0 to data.Length
        invariant rkey == Rkey(i)
        invariant forall j :: 0 <= j < i ==> data[j] == Transformed(tkey, s)[j]
        invariant forall j :: i <= j < data.Length ==> data[j] == s[j]
      {
        data[i] := Layers(data[i], RotationByte(rkey), pkey[i % 8], lkey);
        rkey := NextRkey(rkey);
      }
    }

    /** `decrypt_with_crc32`: decrypt in place, then verify; the payload length if it holds. */
    method DecryptWithCrc32(data: array<byte>) returns (r: Option<nat>)
      requires IsTable(table)
      modifies data
      ensures data.Length < 4 ==> data[..] == old(data[..])
      ensures data.Length >= 4 ==> data[..] == Transformed(tkey, old(data[..]))
      ensures r == if Accepted(tkey, old(data[..])) then Some(data.Length - 4) else None
    {
      hide Transformed, Checksum, WordOfBytes;
      if data.Length < 4 {
        return None;
      }
      Transform(data);
      var payloadLen := data.Length - 4;
      assert data[..payloadLen] == data[..][..payloadLen] && data[payloadLen..] == data[..][payloadLen..];
      var computed := Crc32WithStart(table, data[..payloadLen], ALL_ONES);
      var stored := WordOfBytes(data[payloadLen..]);
      return if computed == stored then Some(payloadLen) else None;
    }

    /** `encrypt_with_crc32`: append the checksum, then encrypt everything. */
    method EncryptWithCrc32(data: seq<byte>) returns (out: seq<byte>)
      requires IsTable(table)
      ensures out == Protected(tkey, data)
    {
      hide Transformed, Checksum, WordBytes;
      var crc := Crc32WithStart(table, data, ALL_ONES);
      var whole := data + WordBytes(crc);
      var buffer := new byte[|whole|](i requires 0 <= i < |whole| => whole[i]);
      assert buffer[..] == whole;
      Transform(buffer);
      out := buffer[..];
    }
  }
}
