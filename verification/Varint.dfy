/**
 The integer encodings of the Protocol Buffers Encoding specification, sections
 "Base 128 Varints" and "Signed Integers", as nanopb reads and writes them.
 */
module Varint {
  import opened Wrappers
  import opened Bits

  // ----- Writing -----

  /** Base-128 groups, least significant first; every byte but the last has its
      top bit set. */
  function EncVarint(v: nat): (s: seq<byte>)
    ensures |s| > 0
  {
    if v < 128 then [v] else [128 + v % 128] + EncVarint(v / 128)
  }

  lemma {:induction false} VarintLength(v: nat, k: nat)
    requires k > 0 && v < Pow2(7 * k)
    ensures |EncVarint(v)| <= k
  {
    if v >= 128 {
      if k == 1 {
        Pow2Words();
      } else {
        Pow2Adds(7, 7 * (k - 1));
        Pow2Words();
        assert v / 128 < Pow2(7 * (k - 1));
        VarintLength(v / 128, k - 1);
      }
    }
  }

  lemma Varint64Length(v: nat)
    requires v < TWO64
    ensures |EncVarint(v)| <= 10
  {
    Pow2Adds(64, 6);
    Pow2Words();
    VarintLength(v, 10);
  }

  // ----- Reading -----

  /** Reads one varint of at most `max` bytes; its value is not truncated. */
  function RawVarint(s: seq<byte>, max: nat): (p: Parse<nat>)
    ensures p.Got? ==> |p.rest| < |s|
    decreases |s|
  {
    if max == 0 || s == [] then Fail
    else if s[0] < 128 then Got(s[0], s[1..])
    else
      match RawVarint(s[1..], max - 1)
      case Fail => Fail
      case Got(v, rest) => Got(s[0] - 128 + 128 * v, rest)
  }

  /** `pb_decode_varint`: at most ten bytes, the bits above 64 are dropped. */
  function DecVarint64(s: seq<byte>): (p: Parse<nat>)
    ensures p.Got? ==> |p.rest| < |s| && p.value < TWO64
  {
    match RawVarint(s, 10)
    case Fail => Fail
    case Got(v, rest) => Got(v % TWO64, rest)
  }

  /** The multi-byte loop of `pb_decode_varint32_eof`. `bitpos` is an eight-bit
      counter, so it wraps around at byte number 37. */
  function Loop32(s: seq<byte>, result: nat, bitpos: nat): (p: Parse<nat>)
    requires result < TWO32 && bitpos < 256
    ensures p.Got? ==> |p.rest| < |s| && p.value < TWO32
    decreases |s|
  {
    if s == [] then Fail
    else
      var b := s[0];
      if bitpos >= 32 && b % 128 != 0
         && (result / 0x8000_0000 == 0 || b != (if bitpos < 63 then 0xFF else 0x01)) then Fail
      else
        var result' := if bitpos >= 32 then result else Or32(result, b, bitpos);
        var bitpos' := (bitpos + 7) % 256;
        if b >= 128 then Loop32(s[1..], result', bitpos')
        else if bitpos' == 35 && b / 16 % 8 != 0 then Fail
        else Got(result', s[1..])
  }

  /** `result |= (uint32_t)(b & 0x7F) << bitpos` */
  function Or32(result: nat, b: byte, bitpos: nat): (r: nat)
    requires result < TWO32
    ensures r < TWO32
  {
    var high := (b % 128 * Pow2(bitpos)) % TWO32;
    BitOrBound32(result, high);
    BitOr(result, high)
  }

  lemma BitOrBound32(x: nat, y: nat)
    requires x < TWO32 && y < TWO32
    ensures BitOr(x, y) < TWO32
  {
    Pow2Words();
    BitOrBound(x, y, 32);
  }

  /** `pb_decode_varint32_eof` */
  function DecVarint32(s: seq<byte>): (p: Parse<nat>)
    ensures p.Got? ==> |p.rest| < |s| && p.value < TWO32
  {
    if s == [] then Fail
    else if s[0] < 128 then Got(s[0], s[1..])
    else Loop32(s[1..], s[0] % 128, 7)
  }

  // ----- Reading back what was written -----

  lemma {:induction false} RawVarintInverts(v: nat, max: nat, rest: seq<byte>)
    requires |EncVarint(v)| <= max
    ensures RawVarint(EncVarint(v) + rest, max) == Got(v, rest)
  {
    var s := EncVarint(v) + rest;
    if v < 128 {
      assert s[1..] == rest;
    } else {
      assert s[1..] == EncVarint(v / 128) + rest;
      RawVarintInverts(v / 128, max - 1, rest);
    }
  }

  /** The 64-bit decoder inverts the encoder and consumes exactly its bytes. */
  lemma Varint64Inverts(v: nat, rest: seq<byte>)
    requires v < TWO64
    ensures DecVarint64(EncVarint(v) + rest) == Got(v, rest)
  {
    hide EncVarint, RawVarint;
    Varint64Length(v);
    RawVarintInverts(v, 10, rest);
  }

  /** No shorter byte string reads as the same value. */
  lemma {:induction false} VarintMinimal(s: seq<byte>, max: nat)
    requires RawVarint(s, max).Got?
    ensures |EncVarint(RawVarint(s, max).value)| <= |s| - |RawVarint(s, max).rest|
  {
    if s[0] >= 128 {
      VarintMinimal(s[1..], max - 1);
      var v := RawVarint(s[1..], max - 1).value;
      var w := s[0] - 128 + 128 * v;
      assert w / 128 == v;
    }
  }

  /** The groups of a 32-bit word after the first: where each starts and its weight.
      The last one has only four bits left. */
  predicate Group(bitpos: nat, weight: nat) {
    || (bitpos == 7 && weight == 0x80)
    || (bitpos == 14 && weight == 0x4000)
    || (bitpos == 21 && weight == 0x20_0000)
    || (bitpos == 28 && weight == TOP_WEIGHT)
  }

  const TOP_WEIGHT: nat := 0x1000_0000

  lemma GroupWeight(bitpos: nat, weight: nat)
    requires Group(bitpos, weight)
    ensures weight == Pow2(bitpos)
  {
    hide Pow2;
    Pow2Words();
    Pow2Adds(7, 7);
    Pow2Adds(7, 14);
    Pow2Adds(14, 14);
  }

  /** `result` with `v` placed `weight` above it, in a 32-bit word. */
  function Combine(result: nat, v: nat, weight: nat): nat {
    (result + v * weight) % TWO32
  }

  lemma GroupBelowTop(result: nat, g: nat, weight: nat)
    requires g < 128 && result < weight <= 0x20_0000
    ensures result + g * weight < 128 * weight < TWO32
  {
    assert g * weight <= 127 * weight;
  }

  lemma SplitGroup(w: nat, weight: nat)
    ensures w * weight == w % 128 * weight + w / 128 * (128 * weight)
  {
    var q, r := w / 128, w % 128;
    assert w == r + 128 * q;
    assert (r + 128 * q) * weight == r * weight + q * (128 * weight);
  }

  lemma Or32Below(result: nat, b: byte, bitpos: nat, weight: nat)
    requires weight == Pow2(bitpos) && result < weight <= 0x20_0000
    ensures Or32(result, b, bitpos) == Combine(result, b % 128, weight)
  {
    hide BitOr;
    hide Pow2;
    GroupBelowTop(result, b % 128, weight);
    BitOrDisjoint(result, b % 128, bitpos);
    var high := b % 128 * weight;
    SmallWord(high);
    SmallWord(result + high);
    assert Or32(result, b, bitpos) == BitOr(result, high);
  }

  lemma SmallWord(x: nat)
    requires x < TWO32
    ensures x % TWO32 == x
  {
  }

  lemma Or32Top(result: nat, b: byte, bitpos: nat)
    requires TOP_WEIGHT == Pow2(bitpos) && result < TOP_WEIGHT
    ensures Or32(result, b, bitpos) == Combine(result, b % 128, TOP_WEIGHT)
  {
    hide BitOr;
    hide Pow2;
    BitOrDisjoint(result, b % 16, bitpos);
    TopGroup(result, b % 128);
    assert Or32(result, b, bitpos) == BitOr(result, b % 16 * TOP_WEIGHT);
  }

  lemma TopGroup(result: nat, g: nat)
    requires result < TOP_WEIGHT && g < 128
    ensures (g * TOP_WEIGHT) % TWO32 == g % 16 * TOP_WEIGHT
    ensures (result + g * TOP_WEIGHT) % TWO32 == result + g % 16 * TOP_WEIGHT
  {
  }

  /** Or-ing the next group onto the bits read so far adds it, modulo the word. */
  lemma Or32Adds(result: nat, b: byte, bitpos: nat, weight: nat)
    requires Group(bitpos, weight) && result < weight
    ensures result < TWO32
    ensures Or32(result, b, bitpos) == Combine(result, b % 128, weight)
  {
    GroupWeight(bitpos, weight);
    hide *;
    if bitpos == 28 { Or32Top(result, b, bitpos); } else { Or32Below(result, b, bitpos, weight); }
  }

  /** One turn of the 32-bit loop within the word. */
  lemma LoopTurn(s: seq<byte>, result: nat, bitpos: nat)
    requires bitpos <= 28 && result < TWO32 && s != []
    ensures s[0] >= 128 ==> Loop32(s, result, bitpos) == Loop32(s[1..], Or32(result, s[0], bitpos), bitpos + 7)
    ensures s[0] < 128 && (bitpos == 28 ==> s[0] < 16) ==>
      Loop32(s, result, bitpos) == Got(Or32(result, s[0], bitpos), s[1..])
  {
    hide Or32;
  }

  /** `w` holds the groups of `v` from `bitpos` on, `result` those before. */
  ghost predicate GroupsFrom(w: nat, result: nat, bitpos: nat, weight: nat, v: nat) {
    Group(bitpos, weight) && result < weight && v == result + w * weight < TWO32
  }

  lemma GroupsInWord(w: nat, result: nat, bitpos: nat, weight: nat, v: nat)
    requires GroupsFrom(w, result, bitpos, weight, v)
    ensures Group(bitpos, weight) && bitpos <= 28 && result < weight && result < TWO32
  {
  }

  lemma LastGroupFits(w: nat, result: nat, bitpos: nat, weight: nat, v: nat)
    requires GroupsFrom(w, result, bitpos, weight, v) && w < 128
    ensures Combine(result, w % 128, weight) == v && (bitpos == 28 ==> w < 16)
  {
    assert w % 128 == w;
    SmallWord(v);
  }

  /** Taking one group of a value that fits leaves the higher groups. */
  lemma MoreGroups(w: nat, result: nat, bitpos: nat, weight: nat, v: nat)
    requires GroupsFrom(w, result, bitpos, weight, v) && w >= 128
    ensures GroupsFrom(w / 128, Combine(result, w % 128, weight), bitpos + 7, 128 * weight, v)
  {
    assert bitpos != 28;
    var g, q := w % 128, w / 128;
    assert g < 128;
    SplitGroup(w, weight);
    GroupBelowTop(result, g, weight);
    var low, high: nat := g * weight, q * (128 * weight);
    SmallWord(result + low);
    assert v == result + low + high;
  }

  lemma FrontOfVarint(w: nat, rest: seq<byte>)
    ensures var s := EncVarint(w) + rest;
      && s[0] % 128 == w % 128 && (s[0] < 128 <==> w < 128) && (w < 128 ==> s[0] == w)
      && s[1..] == if w < 128 then rest else EncVarint(w / 128) + rest
  {
    var s := EncVarint(w) + rest;
    if w < 128 {
      assert s == [w] + rest;
    } else {
      assert s == [128 + w % 128] + (EncVarint(w / 128) + rest);
      hide EncVarint;
      AddGroup(w % 128);
    }
  }

  lemma AddGroup(g: nat)
    requires g < 128
    ensures (128 + g) % 128 == g
  {
  }

  /** The 32-bit loop reads the rest of a canonical varint whose value fits. */
  lemma {:induction false} Loop32Inverts(w: nat, result: nat, bitpos: nat, weight: nat, v: nat, rest: seq<byte>)
    requires GroupsFrom(w, result, bitpos, weight, v)
    ensures result < TWO32 && bitpos < 256
    ensures Loop32(EncVarint(w) + rest, result, bitpos) == Got(v, rest)
    decreases w
  {
    hide Or32, Loop32, EncVarint, Group, Combine, GroupsFrom;
    var s := EncVarint(w) + rest;
    FrontOfVarint(w, rest);
    GroupsInWord(w, result, bitpos, weight, v);
    Or32Adds(result, s[0], bitpos, weight);
    LoopTurn(s, result, bitpos);
    if w < 128 {
      LastGroupFits(w, result, bitpos, weight, v);
    } else {
      MoreGroups(w, result, bitpos, weight, v);
      Loop32Inverts(w / 128, Combine(result, w % 128, weight), bitpos + 7, 128 * weight, v, rest);
    }
  }

  /** The 32-bit decoder inverts the encoder on every 32-bit value. */
  lemma Varint32Inverts(v: nat, rest: seq<byte>)
    requires v < TWO32
    ensures DecVarint32(EncVarint(v) + rest) == Got(v, rest)
  {
    hide Loop32;
    var s := EncVarint(v) + rest;
    if v < 128 {
      assert s[1..] == rest;
    } else {
      assert s[1..] == EncVarint(v / 128) + rest;
      Loop32Inverts(v / 128, v % 128, 7, 128, v, rest);
    }
  }

  // ----- The 32-bit decoder against the 64-bit one -----

  lemma GroupStep(bitpos: nat)
    ensures Pow2(bitpos + 7) == 128 * Pow2(bitpos)
  {
    Pow2Adds(7, bitpos);
    Pow2Words();
  }

  lemma {:induction false} WordsAbove32(bitpos: nat)
    requires bitpos >= 32
    ensures Pow2(bitpos) % TWO32 == 0
  {
    Pow2Words();
    if bitpos > 32 { WordsAbove32(bitpos - 1); }
  }

  /** The bytes of a varint, up to the first one without a continuation bit. */
  function VarintSize(s: seq<byte>): (n: nat)
    ensures n <= |s| && (s != [] ==> n > 0)
  {
    if s == [] then 0 else if s[0] < 128 then 1 else 1 + VarintSize(s[1..])
  }

  /** The varint at the front of `s` ends within it. */
  predicate Complete(s: seq<byte>) { s != [] && s[VarintSize(s) - 1] < 128 }

  lemma {:induction false} RawVarintSize(s: seq<byte>, max: nat)
    requires RawVarint(s, max).Got?
    ensures 0 < VarintSize(s) <= max && RawVarint(s, max).rest == s[VarintSize(s)..]
    ensures RawVarint(s, VarintSize(s)) == RawVarint(s, max)
    decreases |s|
  {
    if s[0] >= 128 { RawVarintSize(s[1..], max - 1); }
  }

  lemma {:induction false} RawVarintExactly(s: seq<byte>, max: nat)
    ensures RawVarint(s, max).Got? <==> Complete(s) && VarintSize(s) <= max
    decreases |s|
  {
    if s != [] && s[0] >= 128 && max > 0 { RawVarintExactly(s[1..], max - 1); }
  }

  /** The 64-bit decoder takes every varint that ends within ten bytes, and no other. */
  lemma Varint64Exactly(s: seq<byte>)
    ensures DecVarint64(s).Got? <==> Complete(s) && VarintSize(s) <= 10
    ensures DecVarint64(s).Got? ==>
      && DecVarint64(s).rest == s[VarintSize(s)..]
      && RawVarint(s, VarintSize(s)).Got?
      && DecVarint64(s).value == RawVarint(s, VarintSize(s)).value % TWO64
  {
    hide RawVarint, VarintSize;
    RawVarintExactly(s, 10);
    if DecVarint64(s).Got? { RawVarintSize(s, 10); }
  }

  lemma {:induction false} Loop32Size(s: seq<byte>, result: nat, bitpos: nat)
    requires result < TWO32 && bitpos < 256 && Loop32(s, result, bitpos).Got?
    ensures RawVarint(s, VarintSize(s)).Got?
    ensures Loop32(s, result, bitpos).rest == s[VarintSize(s)..]
    decreases |s|
  {
    hide Or32;
    if s[0] >= 128 {
      Loop32Size(s[1..], if bitpos >= 32 then result else Or32(result, s[0], bitpos), (bitpos + 7) % 256);
    }
  }

  lemma Varint32Size(s: seq<byte>)
    requires DecVarint32(s).Got?
    ensures RawVarint(s, VarintSize(s)).Got?
    ensures DecVarint32(s).rest == s[VarintSize(s)..] == RawVarint(s, VarintSize(s)).rest
  {
    hide Loop32;
    if s[0] >= 128 { Loop32Size(s[1..], s[0] % 128, 7); }
    RawVarintSize(s, VarintSize(s));
  }

  lemma GroupBits(b: byte, k: nat)
    ensures Bit(b % 128, k) <==> k < 7 && Bit(b, k)
  {
    hide Bit;
    Pow2Words();
    BitOfMod(b, 7, k);
  }

  /** Bit `i` of the value of a varint is bit `i % 7` of byte `i / 7`. */
  lemma {:induction false} RawVarintBits(s: seq<byte>, max: nat, i: nat)
    requires RawVarint(s, max).Got?
    ensures Bit(RawVarint(s, max).value, i) <==> i / 7 < VarintSize(s) && Bit(s[i / 7], i % 7)
    decreases |s|
  {
    hide Bit, Pow2;
    var v := RawVarint(s, max).value;
    Pow2Words();
    GroupBits(s[0], i);
    if s[0] < 128 {
      if i >= 7 { assert i / 7 >= 1; }
    } else {
      var w := RawVarint(s[1..], max - 1).value;
      assert v == s[0] % 128 + w * 128;
      hide RawVarint;
      BitOfJoin(s[0] % 128, w, 7, i);
      if i >= 7 {
        RawVarintBits(s[1..], max - 1, i - 7);
        ByteOfBit(i);
        assert i / 7 < VarintSize(s) ==> s[1..][i / 7 - 1] == s[i / 7];
      }
    }
  }

  lemma ByteOfBit(i: nat)
    requires i >= 7
    ensures (i - 7) / 7 == i / 7 - 1 && (i - 7) % 7 == i % 7
  {
  }

  /** Where the 32-bit decoder places byte `k`: the shift counter has eight bits. */
  function Place(bitpos: nat, k: nat): nat { (bitpos + 7 * k) % 256 }

  lemma PlaceNext(bitpos: nat, k: nat)
    requires k > 0
    ensures Place((bitpos + 7) % 256, k - 1) == Place(bitpos, k)
  {
    var x := bitpos + 7;
    assert bitpos + 7 * k == x % 256 + 7 * (k - 1) + 256 * (x / 256);
    SameRemainder(x % 256 + 7 * (k - 1), x / 256);
  }

  lemma SameRemainder(x: nat, q: nat)
    ensures (x + 256 * q) % 256 == x % 256
  {
  }

  /** Byte `k` of `s` sets bit `i`, when byte 0 is placed at `bitpos`. */
  predicate Sets(s: seq<byte>, bitpos: nat, k: nat, i: nat) {
    k < |s| && Place(bitpos, k) <= i < Place(bitpos, k) + 7 && Bit(s[k], i - Place(bitpos, k))
  }

  ghost predicate SomeSets(s: seq<byte>, bitpos: nat, i: nat) {
    exists k: nat :: k < VarintSize(s) && Sets(s, bitpos, k, i)
  }

  lemma SetsLater(s: seq<byte>, bitpos: nat, k: nat, i: nat)
    requires s != [] && k > 0
    ensures Sets(s, bitpos, k, i) <==> Sets(s[1..], (bitpos + 7) % 256, k - 1, i)
  {
    hide Place, Bit;
    PlaceNext(bitpos, k);
  }

  /** The bits of a varint are those of its first byte and of the others. */
  lemma SomeSetsStep(s: seq<byte>, bitpos: nat, i: nat)
    requires s != []
    ensures SomeSets(s, bitpos, i) <==>
      Sets(s, bitpos, 0, i) || (s[0] >= 128 && SomeSets(s[1..], (bitpos + 7) % 256, i))
  {
    hide Sets;
    if SomeSets(s, bitpos, i) && !Sets(s, bitpos, 0, i) {
      var k: nat :| k < VarintSize(s) && Sets(s, bitpos, k, i);
      SetsLater(s, bitpos, k, i);
    }
    if s[0] >= 128 && SomeSets(s[1..], (bitpos + 7) % 256, i) {
      var k: nat :| k < VarintSize(s[1..]) && Sets(s[1..], (bitpos + 7) % 256, k, i);
      SetsLater(s, bitpos, k + 1, i);
    }
  }

  lemma Or32Bits(result: nat, b: byte, bitpos: nat, i: nat)
    requires result < TWO32 && bitpos < 32
    ensures Bit(Or32(result, b, bitpos), i) <==>
      Bit(result, i) || (i < 32 && bitpos <= i < bitpos + 7 && Bit(b, i - bitpos))
  {
    hide Bit, BitOr, Pow2;
    Pow2Words();
    var high := b % 128 * Pow2(bitpos);
    BitOfBitOr(result, high % TWO32, i);
    BitOfMod(high, 32, i);
    BitOfShift(b % 128, bitpos, i);
    if i >= bitpos { GroupBits(b, i - bitpos); }
  }

  /** The 32-bit loop keeps the bits it has and sets those of the bytes it reads, each
      at its place, as far as they are within the word. */
  lemma {:induction false} Loop32Bits(s: seq<byte>, result: nat, bitpos: nat, i: nat)
    requires result < TWO32 && bitpos < 256 && Loop32(s, result, bitpos).Got?
    ensures Bit(Loop32(s, result, bitpos).value, i) <==> Bit(result, i) || (i < 32 && SomeSets(s, bitpos, i))
    decreases |s|
  {
    hide Bit, Or32, SomeSets;
    SomeSetsStep(s, bitpos, i);
    if bitpos < 32 { Or32Bits(result, s[0], bitpos, i); }
    if s[0] >= 128 {
      Loop32Bits(s[1..], if bitpos >= 32 then result else Or32(result, s[0], bitpos), (bitpos + 7) % 256, i);
    }
  }

  /** Every accepted input, of any length: bit `i` of the result is set exactly when
      some byte sets it at its place, counted modulo 256. */
  lemma Varint32Bits(s: seq<byte>, i: nat)
    requires DecVarint32(s).Got?
    ensures Bit(DecVarint32(s).value, i) <==> i < 32 && SomeSets(s, 0, i)
  {
    hide Bit, Loop32, SomeSets;
    SomeSetsStep(s, 0, i);
    GroupBits(s[0], i);
    if s[0] >= 128 {
      Loop32Bits(s[1..], s[0] % 128, 7, i);
    }
  }

  /** Before the counter wraps around, byte `i / 7` is the one that sets bit `i`. */
  lemma SetsInPlace(s: seq<byte>, k: nat, i: nat)
    requires k < 37
    ensures Sets(s, 0, k, i) <==> k == i / 7 && k < |s| && Bit(s[k], i % 7)
  {
    hide Bit;
    if Sets(s, 0, k, i) {
      assert i == 7 * k + (i - 7 * k);
      assert i / 7 == k && i % 7 == i - 7 * k;
    }
  }

  /** No byte after the counter has wrapped around sets a bit the value has not. */
  ghost predicate NothingWrongSet(s: seq<byte>, value: nat) {
    forall k: nat, i: nat :: 37 <= k < VarintSize(s) && i < 32 && Sets(s, 0, k, i) ==> Bit(value, i)
  }

  /** The bits of the result are those of the value, and those of the bytes from
      number 37 on that fall into the word again. */
  lemma Varint32BitsAgain(s: seq<byte>, i: nat)
    requires DecVarint32(s).Got? && RawVarint(s, VarintSize(s)).Got?
    ensures Bit(DecVarint32(s).value, i) <==>
      i < 32 && (Bit(RawVarint(s, VarintSize(s)).value, i) ||
                 exists k: nat :: 37 <= k < VarintSize(s) && Sets(s, 0, k, i))
  {
    hide Bit, DecVarint32, RawVarint, Sets;
    var n := VarintSize(s);
    Varint32Bits(s, i);
    RawVarintBits(s, n, i);
    if i < 32 {
      assert i / 7 < 37;
      SetsInPlace(s, i / 7, i);
      if SomeSets(s, 0, i) {
        var k: nat :| k < n && Sets(s, 0, k, i);
        if k < 37 { SetsInPlace(s, k, i); }
      }
    }
  }

  /** An accepted input is read as its value modulo 2^32 exactly when no byte from
      number 37 on sets a wrong bit; so always when there are at most 37 bytes. */
  lemma Varint32Exact(s: seq<byte>)
    requires DecVarint32(s).Got?
    ensures RawVarint(s, VarintSize(s)).Got?
    ensures DecVarint32(s).rest == RawVarint(s, VarintSize(s)).rest
    ensures DecVarint32(s).value == RawVarint(s, VarintSize(s)).value % TWO32 <==>
            NothingWrongSet(s, RawVarint(s, VarintSize(s)).value)
    ensures VarintSize(s) <= 37 ==> DecVarint32(s).value == RawVarint(s, VarintSize(s)).value % TWO32
  {
    Varint32Size(s);
    hide Bit, Pow2, DecVarint32, RawVarint, Sets;
    var v, w := DecVarint32(s).value, RawVarint(s, VarintSize(s)).value;
    Pow2Words();
    forall i: nat
      ensures Bit(w % TWO32, i) <==> i < 32 && Bit(w, i)
      ensures Bit(v, i) <==>
        i < 32 && (Bit(w, i) || exists k: nat :: 37 <= k < VarintSize(s) && Sets(s, 0, k, i))
    {
      BitOfMod(w, 32, i);
      Varint32BitsAgain(s, i);
    }
    if NothingWrongSet(s, w) { SameBits(v, w % TWO32); }
  }

  /** Continuation bytes without any bits. */
  function Padding(n: nat): (s: seq<byte>)
    ensures |s| == n
  {
    if n == 0 then [] else [0x80] + Padding(n - 1)
  }

  lemma PaddingTurn(s: seq<byte>, bitpos: nat)
    requires bitpos < 256 && s != [] && s[0] == 0x80
    ensures Loop32(s, 0, bitpos) == Loop32(s[1..], 0, (bitpos + 7) % 256)
  {
    hide Pow2;
    assert Or32(0, 0x80, bitpos) == 0;
    hide Or32;
  }

  lemma {:induction false} Loop32Padding(n: nat, bitpos: nat, t: seq<byte>)
    requires bitpos < 256
    ensures Loop32(Padding(n) + t, 0, bitpos) == Loop32(t, 0, Place(bitpos, n))
    decreases n
  {
    hide Loop32;
    if n == 0 {
      assert Padding(n) + t == t;
      assert Place(bitpos, 0) == bitpos;
    } else {
      var s := Padding(n) + t;
      assert s[0] == 0x80 && s[1..] == Padding(n - 1) + t;
      hide Padding, Place;
      PaddingTurn(s, bitpos);
      PlaceNext(bitpos, n);
      Loop32Padding(n - 1, (bitpos + 7) % 256, t);
    }
  }

  lemma {:induction false} RawPadding(n: nat)
    ensures RawVarint(Padding(n) + [1], n + 1) == Got(Pow2(7 * n), [])
  {
    if n == 0 {
      assert Padding(0) + [1] == [1];
    } else {
      var s := Padding(n) + [1];
      assert s[0] == 0x80 && s[1..] == Padding(n - 1) + [1];
      RawPadding(n - 1);
      GroupStep(7 * (n - 1));
      hide Pow2;
    }
  }

  lemma LastGroup()
    ensures Loop32([1], 0, 3) == Got(8, [])
  {
    assert Pow2(3) == 8;
    assert Or32(0, 1, 3) == 8;
  }

  /** A varint of 38 bytes whose value is a multiple of 2^32 is read as 8. */
  lemma LongVarintExample()
    ensures DecVarint32(Padding(37) + [1]) == Got(8, [])
    ensures RawVarint(Padding(37) + [1], 38) == Got(Pow2(259), []) && Pow2(259) % TWO32 == 0
    ensures DecVarint64(Padding(37) + [1]).Fail?
  {
    hide Loop32, RawVarint, Pow2;
    var s := Padding(37) + [1];
    assert s[0] == 0x80 && s[1..] == Padding(36) + [1];
    Loop32Padding(36, 7, [1]);
    LastGroup();
    RawPadding(37);
    WordsAbove32(259);
    if RawVarint(s, 10).Got? {
      RawVarintSize(s, 10);
      RawVarintSize(s, 38);
    }
  }

  /** Whenever both decoders accept the same bytes they consume the same count, and
      the 32-bit result is the 64-bit result modulo 2^32. */
  lemma Varint32RefinesVarint64(s: seq<byte>)
    requires DecVarint32(s).Got? && DecVarint64(s).Got?
    ensures DecVarint32(s).rest == DecVarint64(s).rest
    ensures DecVarint32(s).value == DecVarint64(s).value % TWO32
  {
    hide DecVarint32, RawVarint;
    RawVarintSize(s, 10);
    Varint32Exact(s);
    ModMod(RawVarint(s, 10).value);
  }

  lemma ModMod(v: nat)
    ensures v % TWO64 % TWO32 == v % TWO32
  {
  }

  /** The last five bytes of a sign-extended negative number. */
  const SIGN_TAIL: seq<byte> := [0xFF, 0xFF, 0xFF, 0xFF, 0x01]

  lemma SignTail(result: nat, rest: seq<byte>)
    requires 0x8000_0000 <= result < TWO32
    ensures Loop32(SIGN_TAIL + rest, result, 35) == Got(result, rest)
  {
    hide BitOr;
    hide Or32;
    var s := SIGN_TAIL + rest;
    assert s[1..][1..][1..][1..][1..] == rest;
    assert Loop32(s[1..][1..][1..][1..], result, 63) == Got(result, rest);
    assert Loop32(s[1..][1..][1..], result, 56) == Got(result, rest);
    assert Loop32(s[1..][1..], result, 49) == Got(result, rest);
    assert Loop32(s[1..], result, 42) == Got(result, rest);
  }

  lemma EncSignTail()
    ensures EncVarint(0x1FFF_FFFF) == SIGN_TAIL
  {
    assert EncVarint(0x1) == [0x01];
    assert EncVarint(0xFF) == [0xFF, 0x01];
    assert EncVarint(0x7FFF) == [0xFF, 0xFF, 0x01];
    assert EncVarint(0x3F_FFFF) == [0xFF, 0xFF, 0xFF, 0x01];
  }

  /** `w` holds the groups from `bitpos` on of a sign-extended negative number. */
  ghost predicate SignExtendedFrom(w: nat, result: nat, bitpos: nat, weight: nat, total: nat) {
    && Group(bitpos, weight) && result < weight
    && TWO64 - 0x8000_0000 <= total < TWO64
    && total == result + w * weight
  }

  lemma SignExtendedStep(w: nat, result: nat, bitpos: nat, weight: nat, total: nat, result': nat)
    requires SignExtendedFrom(w, result, bitpos, weight, total)
    requires result' == (result + w % 128 * weight) % TWO32
    ensures w >= 128
    ensures bitpos == 28 ==> w / 128 == 0x1FFF_FFFF && result' == total - (TWO64 - TWO32) >= 0x8000_0000
    ensures bitpos != 28 ==> SignExtendedFrom(w / 128, result', bitpos + 7, 128 * weight, total)
  {
    if bitpos != 28 {
      GroupBelowTop(result, w % 128, weight);
      SplitGroup(w, weight);
      if w < 128 {
        GroupBelowTop(result, w, weight);
        assert false;
      }
    }
  }

  /** From bit 7 on, the 32-bit loop reads a sign-extended negative number. */
  lemma {:induction false} Loop32SignExtended(w: nat, result: nat, bitpos: nat, weight: nat, total: nat, rest: seq<byte>)
    requires SignExtendedFrom(w, result, bitpos, weight, total)
    ensures Loop32(EncVarint(w) + rest, result, bitpos) == Got(total - (TWO64 - TWO32), rest)
    decreases 35 - bitpos
  {
    hide Or32;
    hide Loop32;
    var s := EncVarint(w) + rest;
    var result' := (result + w % 128 * weight) % TWO32;
    SignExtendedStep(w, result, bitpos, weight, total, result');
    Or32Adds(result, 128 + w % 128, bitpos, weight);
    assert s[0] == 128 + w % 128 && s[1..] == EncVarint(w / 128) + rest;
    LoopTurn(s, result, bitpos);
    if bitpos == 28 {
      EncSignTail();
      SignTail(result', rest);
    } else {
      Loop32SignExtended(w / 128, result', bitpos + 7, 128 * weight, total, rest);
    }
  }

  /** A negative 32-bit number written as a ten-byte varint is read back by the
      32-bit decoder as its two's complement word. */
  lemma Varint32SignExtended(n: nat, rest: seq<byte>)
    requires 0 < n <= 0x8000_0000
    ensures DecVarint32(EncVarint(TWO64 - n) + rest) == Got(TWO32 - n, rest)
  {
    hide Loop32;
    var v := TWO64 - n;
    var s := EncVarint(v) + rest;
    assert s[1..] == EncVarint(v / 128) + rest;
    Loop32SignExtended(v / 128, v % 128, 7, 128, v, rest);
  }

  // ----- Signed and fixed-width integers -----

  /** "ZigZag": small absolute values get small codes. */
  function ZigZag(i: int): nat {
    if i < 0 then -2 * i - 1 else 2 * i
  }

  /** `pb_decode_svarint` after the varint is read. */
  function UnZigZag(v: nat): int {
    if v % 2 == 1 then -(v / 2) - 1 else v / 2
  }

  /** Zigzag is a bijection between the signed and the unsigned 64-bit integers. */
  lemma ZigZagInverts(i: int, v: nat)
    ensures UnZigZag(ZigZag(i)) == i && ZigZag(UnZigZag(v)) == v
    ensures InSigned(i, 8) <==> ZigZag(i) < TWO64
  {
  }

  function Abs(i: int): nat { if i < 0 then -i else i }

  /** Numbers with a small absolute value get small codes, the negative one of two
      opposite numbers the smaller. With the bijection this leaves one function. */
  lemma ZigZagOrders(i: int, j: int)
    ensures Abs(i) < Abs(j) ==> ZigZag(i) < ZigZag(j)
    ensures i > 0 ==> ZigZag(-i) < ZigZag(i)
    ensures ZigZag(i) / 2 + ZigZag(i) % 2 == Abs(i)
  {
  }

  /** The table of the section "Signed Integers". */
  lemma ZigZagTable()
    ensures ZigZag(0) == 0 && ZigZag(-1) == 1 && ZigZag(1) == 2 && ZigZag(-2) == 3
    ensures ZigZag(0x7FFF_FFFF) == 0xFFFF_FFFE && ZigZag(-0x8000_0000) == 0xFFFF_FFFF
    ensures UnZigZag(0) == 0 && UnZigZag(1) == -1 && UnZigZag(2) == 1 && UnZigZag(3) == -2
  {
  }

  /** `size` bytes of a word, least significant first. */
  function LittleEndian(v: nat, size: nat): (s: seq<byte>)
    ensures |s| == size
  {
    if size == 0 then [] else [v % 256] + LittleEndian(v / 256, size - 1)
  }

  function FromLittleEndian(s: seq<byte>): (v: nat)
    ensures v < Pow2(8 * |s|)
  {
    if s == [] then 0 else
      Pow2Adds(8, 8 * |s[1..]|);
      s[0] + 256 * FromLittleEndian(s[1..])
  }

  lemma {:induction false} LittleEndianInverts(v: nat, size: nat)
    requires v < Pow2(8 * size)
    ensures FromLittleEndian(LittleEndian(v, size)) == v
  {
    if size > 0 {
      Pow2Adds(8, 8 * (size - 1));
      assert v / 256 < Pow2(8 * (size - 1));
      LittleEndianInverts(v / 256, size - 1);
      assert LittleEndian(v, size)[1..] == LittleEndian(v / 256, size - 1);
    }
  }

  lemma NextDigit(k: nat)
    requires k > 0
    ensures Pow2(8 * k) == 256 * Pow2(8 * (k - 1)) && 8 * k >= 0
  {
    assert Pow2(1) == 2;
    hide Pow2;
    Pow2Words();
    Product(1, 2, 7, 128);
    Product(8, 256, 8 * (k - 1), Pow2(8 * (k - 1)));
  }

  lemma FirstDigit(v: nat)
    ensures v / Pow2(0) == v
  {
  }

  /** Byte `k` has the weight 256^k. */
  lemma {:induction false} LittleEndianAt(v: nat, size: nat, k: nat)
    requires k < size
    ensures LittleEndian(v, size)[k] == v / Pow2(8 * k) % 256
  {
    hide Pow2;
    if k > 0 {
      NextDigit(k);
      DivideTwice(v, Pow2(8 * (k - 1)));
      LittleEndianAt(v / 256, size - 1, k - 1);
      assert LittleEndian(v, size)[k] == LittleEndian(v / 256, size - 1)[k - 1];
    } else {
      FirstDigit(v);
    }
  }

  lemma DivideTwice(v: nat, p: nat)
    requires p > 0
    ensures v / 256 / p == v / (256 * p)
  {
    var q, r := v / (256 * p), v % (256 * p);
    assert v == 256 * (p * q) + r;
    var q', r' := r / 256, r % 256;
    assert v / 256 == p * q + q';
    Quotient(p, q, q');
  }

  lemma Quotient(p: nat, q: int, r: nat)
    requires r < p && q >= 0
    ensures (p * q + r) / p == q
  {
    var x := p * q + r;
    assert p * (x / p - q) == r - x % p;
    var d := x / p - q;
    assert d >= 1 ==> p * d >= p;
    assert d <= -1 ==> p * d + p <= 0;
  }
}
