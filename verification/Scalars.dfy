/**
 What the decoder makes of a scalar on the wire, for every input: which value it stores
 and what it refuses, said without the casts and tests that compute it.
 */
module Scalars {
  import opened Wrappers
  import opened Bits
  import opened Varint
  import opened Descriptor
  import opened Wire

  // ----- Integers -----

  /** Two numbers of one signed type that differ by a multiple of its range are equal. */
  lemma SignedUnique(a: int, b: int, size: nat)
    requires IntSize(size) && InSigned(a, size) && InSigned(b, size) && (a - b) % Modulus(size) == 0
    ensures a == b
  {
  }

  lemma CastCongruent(x: int, size: nat)
    requires IntSize(size)
    ensures InSigned(SignedCast(x, size), size) && (SignedCast(x, size) - x) % Modulus(size) == 0
  {
    SignedCastKeeps(x, size);
    var p := Modulus(size);
    hide Modulus;
    var q := x / p;
    assert x == q * p + x % p;
    var k := if SignedCast(x, size) == x % p then -q else -q - 1;
    assert SignedCast(x, size) - x == k * p;
    hide SignedCast;
    MultipleOf(k, p);
  }

  lemma CastExactly(x: int, n: int, size: nat)
    requires IntSize(size)
    ensures SignedCast(x, size) == n <==> InSigned(n, size) && (n - x) % Modulus(size) == 0
  {
    CastCongruent(x, size);
    if InSigned(n, size) && (n - x) % Modulus(size) == 0 {
      DifferenceCongruent(SignedCast(x, size), n, x, Modulus(size));
      SignedUnique(SignedCast(x, size), n, size);
    }
  }

  lemma DifferenceCongruent(a: int, b: int, x: int, p: nat)
    requires p > 0 && (a - x) % p == 0 && (b - x) % p == 0
    ensures (a - b) % p == 0
  {
    var i, j := (a - x) / p, (b - x) / p;
    assert a - b == (i - j) * p;
    MultipleOf(i - j, p);
  }

  lemma MultipleOf(k: int, p: nat)
    requires p > 0
    ensures (k * p) % p == 0
  {
    var r := (k * p) % p;
    assert k * p == p * (k * p / p) + r;
    assert r == p * (k - k * p / p);
    var d := k - k * p / p;
    assert d >= 1 ==> p * d >= p;
    assert d <= -1 ==> p * d + p <= 0;
  }

  /** How many bytes of the varint of a signed field count. */
  function Width(f: Field): nat { if f.dataSize == 8 then 8 else 4 }

  /** A signed field holds `n` exactly when `n` is in its range and equal to the varint
      modulo 2^32, or 2^64 for a 64-bit field; anything else is refused. */
  lemma SignedExactly(f: Field, s: seq<byte>, n: int)
    requires WellFormedField(f) && f.ltype.Varint?
    ensures DecScalar(f, s).Got? ==> DecScalar(f, s).value.Num? && DecScalar(f, s).rest == DecVarint64(s).rest
    ensures DecScalar(f, s).Got? && DecScalar(f, s).value == Num(n) <==>
      DecVarint64(s).Got? && InSigned(n, f.dataSize) && (n - DecVarint64(s).value) % Modulus(Width(f)) == 0
  {
    hide DecVarint64;
    if DecVarint64(s).Got? {
      var v := DecVarint64(s).value;
      var x := SignedCast(v, Width(f));
      CastExactly(v, n, Width(f));
      SignedCastKeeps(x, f.dataSize);
      hide SignedCast;
      if InSigned(n, f.dataSize) { Widens(n, f.dataSize, Width(f)); }
    }
  }

  lemma Widens(n: int, size: nat, wide: nat)
    requires IntSize(size) && InSigned(n, size) && (wide == 8 || (wide == 4 && size <= 4))
    ensures InSigned(n, wide)
  {
  }

  /** An unsigned field holds the varint itself, if it is in range. */
  lemma UnsignedExactly(f: Field, s: seq<byte>, n: int)
    requires WellFormedField(f) && f.ltype.UVarint?
    ensures DecScalar(f, s).Got? ==> DecScalar(f, s).value.Num? && DecScalar(f, s).rest == DecVarint64(s).rest
    ensures DecScalar(f, s).Got? && DecScalar(f, s).value == Num(n) <==>
      DecVarint64(s).Got? && n == DecVarint64(s).value && InUnsigned(n, f.dataSize)
  {
    hide DecVarint64;
    if DecVarint64(s).Got? { SmallRemainder(DecVarint64(s).value, Modulus(f.dataSize)); }
  }

  lemma SmallRemainder(v: nat, p: nat)
    requires p > 0
    ensures v % p == v <==> v < p
  {
  }

  /** A zigzag field holds the number the varint is the code of, if it is in range. */
  lemma ZigZagExactly(f: Field, s: seq<byte>, n: int)
    requires WellFormedField(f) && f.ltype.SVarint?
    ensures DecScalar(f, s).Got? ==> DecScalar(f, s).value.Num? && DecScalar(f, s).rest == DecVarint64(s).rest
    ensures DecScalar(f, s).Got? && DecScalar(f, s).value == Num(n) <==>
      DecVarint64(s).Got? && ZigZag(n) == DecVarint64(s).value && InSigned(n, f.dataSize)
  {
    hide DecVarint64;
    if DecVarint64(s).Got? {
      var v := DecVarint64(s).value;
      ZigZagInverts(n, v);
      SignedCastKeeps(UnZigZag(v), f.dataSize);
      hide SignedCast, ZigZag, UnZigZag, Modulus;
    }
  }

  /** Any non-zero varint is true. */
  lemma BoolExactly(f: Field, s: seq<byte>)
    requires f.ltype.Bool?
    ensures DecScalar(f, s).Got? <==> DecVarint32(s).Got?
    ensures DecScalar(f, s).Got? ==>
      && DecScalar(f, s).rest == DecVarint32(s).rest
      && (DecScalar(f, s).value == Num(0) <==> DecVarint32(s).value == 0)
      && (DecScalar(f, s).value == Num(1) <==> DecVarint32(s).value > 0)
  {
    hide DecVarint32;
  }

  lemma {:induction false} FromBytes(s: seq<byte>)
    ensures LittleEndian(FromLittleEndian(s), |s|) == s
  {
    if s != [] {
      FromBytes(s[1..]);
      var v := FromLittleEndian(s[1..]);
      assert FromLittleEndian(s) == s[0] + 256 * v;
      assert FromLittleEndian(s) % 256 == s[0] && FromLittleEndian(s) / 256 == v;
    }
  }

  /** A fixed-width field holds the number of which byte `k` is digit `k` to base 256. */
  lemma FixedExactly(f: Field, s: seq<byte>)
    requires f.ltype.Fixed32? || f.ltype.Fixed64?
    ensures var size := if f.ltype.Fixed32? then 4 else 8;
      && (DecScalar(f, s).Got? <==> |s| >= size)
      && (DecScalar(f, s).Got? ==>
            && DecScalar(f, s).rest == s[size..]
            && DecScalar(f, s).value.Num? && DecScalar(f, s).value.n >= 0
            && LittleEndian(DecScalar(f, s).value.n, size) == s[..size])
  {
    hide FromLittleEndian, LittleEndian;
    var size := if f.ltype.Fixed32? then 4 else 8;
    if |s| >= size { FromBytes(s[..size]); }
  }

  // ----- Bytes and strings -----

  /** A bytes field holds all the bytes announced, if they are there and fit. */
  lemma BytesExactly(f: Field, s: seq<byte>, b: seq<byte>)
    requires f.ltype.Bytes?
    ensures DecScalar(f, s).Got? && DecScalar(f, s).value == Str(b) <==>
      var p := DecVarint32(s);
      p.Got? && b <= p.rest && |b| == p.value && |b| + BYTES_HEADER <= f.dataSize
    ensures DecScalar(f, s).Got? ==>
      DecScalar(f, s).value.Str? && DecScalar(f, s).rest == DecVarint32(s).rest[DecVarint32(s).value..]
  {
    hide DecVarint32;
  }

  /** A string field takes all the bytes announced, if they are there and leave room for
      a NUL, and holds those before the first NUL among them. */
  lemma StringExactly(f: Field, s: seq<byte>)
    requires f.ltype.String?
    ensures DecScalar(f, s).Got? <==>
      var p := DecVarint32(s); p.Got? && |p.rest| >= p.value && p.value + 1 < TWO32 && p.value < f.dataSize
    ensures DecScalar(f, s).Got? ==>
      var p := DecVarint32(s);
      var b := StrOf(DecScalar(f, s).value);
      && DecScalar(f, s).value.Str? && DecScalar(f, s).rest == p.rest[p.value..]
      && b <= p.rest[..p.value] && 0 !in b && (|b| < p.value ==> p.rest[|b|] == 0)
  {
    hide DecVarint32, UpToNul;
    if DecScalar(f, s).Got? { UpToFirstNul(DecVarint32(s).rest[..DecVarint32(s).value]); }
  }

  /** A field of fixed length takes its length exactly, or none at all for zeros. */
  lemma FixedLengthExactly(f: Field, s: seq<byte>, b: seq<byte>)
    requires WellFormedField(f) && f.ltype.FixedLengthBytes?
    ensures DecScalar(f, s).Got? && DecScalar(f, s).value == Str(b) <==>
      var p := DecVarint32(s);
      p.Got? && |b| == f.dataSize &&
      if p.value == 0 then forall k :: 0 <= k < |b| ==> b[k] == 0 else |b| == p.value && b <= p.rest
    ensures DecScalar(f, s).Got? ==>
      DecScalar(f, s).value.Str? && DecScalar(f, s).rest == DecVarint32(s).rest[DecVarint32(s).value..]
  {
    hide DecVarint32, Zeros;
    forall k | 0 <= k < f.dataSize ensures Zeros(f.dataSize)[k] == 0 { ZerosAt(f.dataSize, k); }
    if DecVarint32(s).Got? && DecVarint32(s).value == 0 && |b| == f.dataSize &&
       forall k :: 0 <= k < |b| ==> b[k] == 0 {
      assert b == Zeros(f.dataSize);
    }
  }

  // ----- Too large for the field -----

  /** 300, and 150 as a zigzag code, fit a field of 16 bits but none of 8. */
  lemma TooLargeExample()
    ensures var f := Field(1, UVarint, Required, 0, 0, 1, 0, 0, [], None);
      && DecScalar(f, [0xAC, 0x02]).Fail?
      && DecScalar(f.(dataSize := 2), [0xAC, 0x02]) == Got(Num(300), [])
    ensures var f := Field(1, Varint, Required, 0, 0, 1, 0, 0, [], None);
      && DecScalar(f, [0xAC, 0x02]).Fail?
      && DecScalar(f.(dataSize := 2), [0xAC, 0x02]) == Got(Num(300), [])
    ensures var f := Field(1, SVarint, Required, 0, 0, 1, 0, 0, [], None);
      && DecScalar(f, [0xAC, 0x02]).Fail?
      && DecScalar(f.(dataSize := 2), [0xAC, 0x02]) == Got(Num(150), [])
  {
    assert RawVarint([0x02], 9) == Got(2, []);
    assert RawVarint([0xAC, 0x02], 10) == Got(300, []);
    assert DecVarint64([0xAC, 0x02]) == Got(300, []);
    hide DecVarint64, RawVarint;
  }
}
