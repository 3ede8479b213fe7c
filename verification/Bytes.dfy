/** Bytes, little-endian integers and the integer widths of the Rust source. */
module Bytes {

  type byte = bv8

  /** The lowest byte of a value that fits in one byte (`n as u8`). */
  function ByteOf(n: nat): (b: byte)
    requires n < 256
    ensures b as int == n
  {
    if n == 0 then 0 else
      var p := ByteOf(n - 1);
      Successor(p);
      p + 1
  }

  lemma Successor(b: byte)
    requires b as int < 255
    ensures (b + 1) as int == b as int + 1
  {
  }

  lemma ByteOfValue(b: byte)
    ensures ByteOf(b as int) == b
  {
  }

  /** Byte by byte exclusive or. */
  function XorBytes(a: seq<byte>, b: seq<byte>): (r: seq<byte>)
    requires |a| == |b|
    ensures |r| == |a|
  {
    seq(|a|, i requires 0 <= i < |a| => a[i] ^ b[i])
  }

  lemma XorTwice(x: byte, y: byte)
    ensures (x ^ y) ^ y == x
  {
  }

  lemma XorBytesTwice(a: seq<byte>, b: seq<byte>)
    requires |a| == |b|
    ensures XorBytes(XorBytes(a, b), b) == a
  {
    forall i | 0 <= i < |a|
      ensures XorBytes(XorBytes(a, b), b)[i] == a[i]
    {
      XorTwice(a[i], b[i]);
    }
  }

  /** 256 to the power `k`: the number of values of a `k`-byte integer. */
  function Span(k: nat): (n: nat)
    ensures n >= 1
  {
    if k == 0 then 1 else 256 * Span(k - 1)
  }

  /** `to_le_bytes` of an unsigned integer of `k` bytes. */
  function LeBytes(n: nat, k: nat): (s: seq<byte>)
    ensures |s| == k
  {
    if k == 0 then [] else [ByteOf(n % 256)] + LeBytes(n / 256, k - 1)
  }

  /** Two bytes, the low one first. */
  lemma TwoBytes(n: nat)
    requires n < 0x1_0000
    ensures LeBytes(n, 2)[0] as int == n % 256 && LeBytes(n, 2)[1] as int == n / 256
  {
    hide ByteOf;
    assert LeBytes(n, 2) == [ByteOf(n % 256)] + LeBytes(n / 256, 1);
    assert LeBytes(n / 256, 1) == [ByteOf(n / 256 % 256)] + LeBytes(n / 256 / 256, 0);
  }

  /** `from_le_bytes` of an unsigned integer. */
  function LeValue(s: seq<byte>): (n: nat)
    ensures n < Span(|s|)
  {
    if s == [] then 0 else s[0] as int + 256 * LeValue(s[1..])
  }

  /** Reading back what was written loses exactly what does not fit in `k` bytes. */
  lemma {:induction false} LeRoundTrip(n: nat, k: nat)
    ensures LeValue(LeBytes(n, k)) == n % Span(k)
  {
    if k > 0 {
      LeRoundTrip(n / 256, k - 1);
      assert LeBytes(n, k)[1..] == LeBytes(n / 256, k - 1);
      ModStep(n, Span(k - 1));
    }
  }

  lemma ModStep(n: nat, m: nat)
    requires m >= 1
    ensures n % (256 * m) == n % 256 + 256 * (n / 256 % m)
  {
    var q, r := n / 256, n % 256;
    var q2, r2 := q / m, q % m;
    assert q == q2 * m + r2;
    assert n == 256 * (q2 * m + r2) + r;
    assert n == q2 * (256 * m) + (256 * r2 + r);
    assert 0 <= 256 * r2 + r < 256 * m by {
      assert r2 <= m - 1;
    }
    QuotientUnique(n, 256 * m, q2, 256 * r2 + r);
  }

  lemma QuotientUnique(n: nat, d: nat, q: nat, r: nat)
    requires d >= 1 && r < d && n == q * d + r
    ensures n / d == q && n % d == r
  {
    var q', r' := n / d, n % d;
    assert (q - q') * d == r' - r;
    if q' < q {
      MulAtLeast(q - q', d);
    } else if q' > q {
      assert (q' - q) * d == r - r';
      MulAtLeast(q' - q, d);
    }
  }

  lemma MulAtLeast(a: nat, d: nat)
    requires a >= 1
    ensures a * d >= d
  {
    assert a * d == (a - 1) * d + d;
  }

  lemma {:induction false} LeValueInverse(s: seq<byte>)
    ensures LeBytes(LeValue(s), |s|) == s
  {
    if s != [] {
      LeValueInverse(s[1..]);
      ByteOfValue(s[0]);
      QuotientUnique(LeValue(s), 256, LeValue(s[1..]), s[0] as int);
      assert s == [s[0]] + s[1..];
    }
  }

  lemma SpanValues()
    ensures Span(1) == 0x100 && Span(2) == 0x1_0000 && Span(4) == 0x1_0000_0000
    ensures Span(8) == 0x1_0000_0000_0000_0000
  {
    assert Span(3) == 256 * Span(2);
    assert Span(4) == 256 * Span(3);
    assert Span(5) == 256 * Span(4);
    assert Span(6) == 256 * Span(5);
    assert Span(7) == 256 * Span(6);
    assert Span(8) == 256 * Span(7);
  }

  /** A value that fits comes back unchanged. */
  lemma LeRoundTripFits(n: nat, k: nat)
    requires n < Span(k)
    ensures LeValue(LeBytes(n, k)) == n
  {
    LeRoundTrip(n, k);
    QuotientUnique(n, Span(k), 0, n);
  }

  // ------------------------------------------------- fixed widths and signs

  function Le1(s: seq<byte>): (n: nat)
    requires |s| == 1
    ensures n < 0x100 && n == LeValue(s)
  {
    SpanValues();
    LeValue(s)
  }

  function Le2(s: seq<byte>): (n: nat)
    requires |s| == 2
    ensures n < 0x1_0000 && n == LeValue(s)
  {
    SpanValues();
    LeValue(s)
  }

  function Le4(s: seq<byte>): (n: nat)
    requires |s| == 4
    ensures n < 0x1_0000_0000 && n == LeValue(s)
  {
    SpanValues();
    LeValue(s)
  }

  function Le8(s: seq<byte>): (n: nat)
    requires |s| == 8
    ensures n < 0x1_0000_0000_0000_0000 && n == LeValue(s)
  {
    SpanValues();
    LeValue(s)
  }

  lemma FixedWidthRoundTrips(n: nat)
    ensures n < 0x100 ==> Le1(LeBytes(n, 1)) == n
    ensures n < 0x1_0000 ==> Le2(LeBytes(n, 2)) == n
    ensures n < 0x1_0000_0000 ==> Le4(LeBytes(n, 4)) == n
    ensures n < 0x1_0000_0000_0000_0000 ==> Le8(LeBytes(n, 8)) == n
  {
    SpanValues();
    if n < Span(1) { LeRoundTripFits(n, 1); }
    if n < Span(2) { LeRoundTripFits(n, 2); }
    if n < Span(4) { LeRoundTripFits(n, 4); }
    if n < Span(8) { LeRoundTripFits(n, 8); }
  }

  /** Two's complement: the unsigned value, below `m`, with the same bits as `v`. */
  function Unsigned(v: int, m: nat): nat
    requires -(m as int) <= v
  {
    if v < 0 then v + m else v
  }

  /** The signed reading of a bit pattern below `m`. */
  function Signed(n: nat, m: nat): int
  {
    if 2 * n < m then n else n - m
  }

  lemma SignedRoundTrip(v: int, m: nat)
    requires m % 2 == 0 && -(m as int) <= 2 * v < m
    ensures Unsigned(v, m) < m && Signed(Unsigned(v, m), m) == v
  {
  }

  /** `n as i32`. */
  function AsI32(n: nat): (v: int)
    ensures -0x8000_0000 <= v < 0x8000_0000
  {
    Signed(n % 0x1_0000_0000, 0x1_0000_0000)
  }

  /** `v as usize` of an i32 on a 64-bit target: negative numbers become enormous. */
  function AsUsize(v: int): (n: nat)
    requires -0x8000_0000 <= v < 0x8000_0000
  {
    if v < 0 then v + 0x1_0000_0000_0000_0000 else v
  }

  /** `i32::from_le_bytes`. */
  function I32Of(s: seq<byte>): (v: int)
    requires |s| == 4
    ensures -0x8000_0000 <= v < 0x8000_0000
  {
    Signed(Le4(s), 0x1_0000_0000)
  }

  /** `(n as i32).to_le_bytes()`. */
  function I32Bytes(n: nat): (s: seq<byte>)
    ensures |s| == 4
  {
    LeBytes(n % 0x1_0000_0000, 4)
  }

  lemma I32RoundTrip(n: nat)
    ensures I32Of(I32Bytes(n)) == AsI32(n)
  {
    FixedWidthRoundTrips(n % 0x1_0000_0000);
  }
}
