/**
 Which varints the 32-bit decoder of nanopb refuses: what its overflow tests come
 down to, byte by byte, and when an accepted one is in range.
 */
module VarintRange {
  import opened Wrappers
  import opened Bits
  import opened Varint

  /** What byte number `k` above the word may be: no bits at all, or, under a number
      with its sign bit set, all bits of a 64-bit sign extension. */
  predicate HighByte(b: byte, k: nat, sign: bool) {
    b % 128 == 0 || (sign && b == if k < 9 then 0xFF else 0x01)
  }

  /** `s` holds the bytes from number `k` on. */
  predicate HighBytes(s: seq<byte>, k: nat, sign: bool) {
    forall j :: 0 <= j < VarintSize(s) && k + j >= 5 ==> HighByte(s[j], k + j, sign)
  }

  lemma HighBytesStep(s: seq<byte>, k: nat, sign: bool)
    requires s != []
    ensures HighBytes(s, k, sign) <==>
      (k >= 5 ==> HighByte(s[0], k, sign)) && (s[0] >= 128 ==> HighBytes(s[1..], k + 1, sign))
  {
    hide HighByte;
    if HighBytes(s, k, sign) && s[0] >= 128 {
      forall j | 0 <= j < VarintSize(s[1..]) && k + 1 + j >= 5 ensures HighByte(s[1..][j], k + 1 + j, sign) {
        assert HighByte(s[j + 1], k + (j + 1), sign);
      }
    }
    if (k >= 5 ==> HighByte(s[0], k, sign)) && (s[0] >= 128 ==> HighBytes(s[1..], k + 1, sign)) {
      forall j | 0 <= j < VarintSize(s) && k + j >= 5 ensures HighByte(s[j], k + j, sign) {
        if j > 0 { assert HighByte(s[1..][j - 1], k + 1 + (j - 1), sign); }
      }
    }
  }

  /** One turn above the word, before the shift counter wraps around. */
  lemma HighTurn(s: seq<byte>, result: nat, k: nat)
    requires 5 <= k <= 36 && result < TWO32 && s != []
    ensures !HighByte(s[0], k, result >= 0x8000_0000) ==> Loop32(s, result, 7 * k).Fail?
    ensures HighByte(s[0], k, result >= 0x8000_0000) ==>
      Loop32(s, result, 7 * k) ==
      if s[0] >= 128 then Loop32(s[1..], result, (7 * k + 7) % 256) else Got(result, s[1..])
  {
  }

  lemma {:induction false} LoopAboveWord(s: seq<byte>, result: nat, k: nat)
    requires 5 <= k && k + VarintSize(s) <= 37 && 7 * k < 256 && result < TWO32
    ensures Loop32(s, result, 7 * k).Got? <==> Complete(s) && HighBytes(s, k, result >= 0x8000_0000)
    decreases |s|
  {
    hide Loop32, HighByte;
    if s == [] {
      EmptyFails(result, 7 * k);
    } else {
      HighBytesStep(s, k, result >= 0x8000_0000);
      HighTurn(s, result, k);
      if s[0] >= 128 {
        if s[1..] == [] {
          if 7 * k + 7 < 256 { EmptyFails(result, 7 * k + 7); } else { EmptyFails(result, (7 * k + 7) % 256); }
        } else {
          LoopAboveWord(s[1..], result, k + 1);
        }
      }
    }
  }

  lemma EmptyFails(result: nat, bitpos: nat)
    requires result < TWO32 && bitpos < 256
    ensures Loop32([], result, bitpos).Fail?
  {
  }

  /** The bit of byte number 4 that becomes bit 31 of the word. */
  predicate SignBit(b: byte) { b / 8 % 2 == 1 }

  lemma TopGroupSign(result: nat, b: byte)
    requires result < TOP_WEIGHT
    ensures Combine(result, b % 128, TOP_WEIGHT) < TWO32
    ensures Combine(result, b % 128, TOP_WEIGHT) >= 0x8000_0000 <==> SignBit(b)
  {
    var g: nat := b % 128 % 16;
    TopGroup(result, b % 128);
    SignGroup(b);
    hide SignBit;
    assert Combine(result, b % 128, TOP_WEIGHT) == result + g * TOP_WEIGHT;
  }

  lemma SignGroup(b: byte)
    ensures b % 128 % 16 >= 8 <==> SignBit(b)
  {
  }

  lemma GroupPlace(k: nat, weight: nat)
    requires Group(7 * k, weight)
    ensures 1 <= k <= 4 && (k == 4 ==> weight == TOP_WEIGHT) && (k < 4 ==> Group(7 * (k + 1), 128 * weight))
  {
  }

  lemma LastTurn(s: seq<byte>, result: nat)
    requires result < TWO32 && s != [] && 16 <= s[0] < 128
    ensures Loop32(s, result, 28).Fail?
  {
    hide Or32, BitOr, Pow2;
    assert s[0] / 16 % 8 != 0;
  }

  /** Within the word, `s` holding the bytes from number `k` on. */
  lemma {:induction false} LoopWithinWord(s: seq<byte>, result: nat, k: nat, weight: nat)
    requires Group(7 * k, weight) && k <= 4 && result < weight && result < TWO32
    requires k + VarintSize(s) <= 37
    ensures Loop32(s, result, 7 * k).Got? <==>
      && Complete(s)
      && (k + VarintSize(s) == 5 ==> s[4 - k] < 16)
      && (k + VarintSize(s) > 5 ==> HighBytes(s, k, SignBit(s[4 - k])))
    decreases |s|
  {
    hide Loop32, Or32, HighByte, Group, Combine, SignBit, HighBytes;
    GroupPlace(k, weight);
    if s == [] {
      EmptyFails(result, 7 * k);
    } else {
      var n := k + VarintSize(s);
      Or32Adds(result, s[0], 7 * k, weight);
      LoopTurn(s, result, 7 * k);
      if n > 5 { HighBytesStep(s, k, SignBit(s[4 - k])); }
      if s[0] < 128 {
        if k == 4 && s[0] >= 16 { LastTurn(s, result); }
      } else if k == 4 {
        TopGroupSign(result, s[0]);
        if s[1..] == [] {
          EmptyFails(Combine(result, s[0] % 128, weight), 35);
        } else {
          LoopAboveWord(s[1..], Combine(result, s[0] % 128, weight), 5);
        }
      } else {
        MoreInWord(result, s[0], 7 * k, weight);
        LoopWithinWord(s[1..], Combine(result, s[0] % 128, weight), k + 1, 128 * weight);
        assert n > 5 ==> s[1..][4 - (k + 1)] == s[4 - k];
      }
    }
  }

  lemma MoreInWord(result: nat, b: byte, bitpos: nat, weight: nat)
    requires Group(bitpos, weight) && bitpos != 28 && result < weight
    ensures Combine(result, b % 128, weight) < 128 * weight <= TWO32
  {
    GroupBelowTop(result, b % 128, weight);
    SmallWord(result + b % 128 * weight);
  }

  /** What the overflow tests refuse, for inputs of up to 37 bytes: a fifth and last byte
      with bits past the word, and after a fifth byte that goes on, any byte but an
      empty one or one of a sign extension. */
  lemma AcceptedExactly(s: seq<byte>)
    requires VarintSize(s) <= 37
    ensures DecVarint32(s).Got? <==>
      && Complete(s)
      && (VarintSize(s) == 5 ==> s[4] < 16)
      && (VarintSize(s) > 5 ==> HighBytes(s, 0, SignBit(s[4])))
  {
    hide Loop32, HighByte, SignBit;
    if s != [] && s[0] >= 128 {
      LoopWithinWord(s[1..], s[0] % 128, 1, 128);
      if VarintSize(s) > 5 { HighBytesStep(s, 0, SignBit(s[4])); }
    }
  }

  // ----- Accepted, but out of range -----

  lemma RawTurn(s: seq<byte>, max: nat)
    requires RawVarint(s, max).Got?
    ensures max > 0
    ensures VarintSize(s) == if s[0] < 128 then 1 else 1 + VarintSize(s[1..])
    ensures s[0] >= 128 ==>
      max > 1 && RawVarint(s[1..], max - 1).Got? && VarintSize(s[1..]) > 0 &&
      RawVarint(s, max).value == s[0] % 128 + 128 * RawVarint(s[1..], max - 1).value
    ensures s[0] < 128 ==> RawVarint(s, max).value == s[0]
  {
  }

  lemma RawGoesOn(b: byte, t: seq<byte>, max: nat)
    requires b >= 128 && max > 0 && RawVarint(t, max - 1).Got?
    ensures RawVarint([b] + t, max) == Got(b - 128 + 128 * RawVarint(t, max - 1).value, RawVarint(t, max - 1).rest)
    ensures VarintSize([b] + t) == 1 + VarintSize(t)
  {
    assert ([b] + t)[1..] == t;
  }

  const DROPPED_BITS: seq<byte> := [0x80, 0x80, 0x80, 0x80, 0x90, 0x00]

  lemma DroppedBitsValue()
    ensures RawVarint(DROPPED_BITS, 10) == Got(TWO32, []) && VarintSize(DROPPED_BITS) == 6
  {
    var a, b, c, d: seq<byte> := [0x90] + [0x00], [0x80] + [0x90, 0x00], [0x80] + [0x80, 0x90, 0x00], [0x80] + [0x80, 0x80, 0x90, 0x00];
    assert RawVarint([0x00], 5) == Got(0, []) && VarintSize([0x00]) == 1;
    hide RawVarint, VarintSize;
    RawGoesOn(0x90, [0x00], 6);
    assert a == [0x90, 0x00];
    RawGoesOn(0x80, [0x90, 0x00], 7);
    assert b == [0x80, 0x90, 0x00];
    RawGoesOn(0x80, [0x80, 0x90, 0x00], 8);
    assert c == [0x80, 0x80, 0x90, 0x00];
    RawGoesOn(0x80, [0x80, 0x80, 0x90, 0x00], 9);
    assert d == [0x80, 0x80, 0x80, 0x90, 0x00];
    RawGoesOn(0x80, [0x80, 0x80, 0x80, 0x90, 0x00], 10);
    assert DROPPED_BITS == [0x80] + [0x80, 0x80, 0x80, 0x90, 0x00];
  }

  /** Of a fifth byte that goes on, the three bits past the word are dropped unseen: 2^32
      written in six bytes is read as 0. */
  lemma DroppedBitsExample()
    ensures DecVarint32(DROPPED_BITS) == Got(0, [])
    ensures RawVarint(DROPPED_BITS, 10) == Got(TWO32, [])
  {
    hide DecVarint32, RawVarint, VarintSize, HighByte, SignBit;
    var s := DROPPED_BITS;
    DroppedBitsValue();
    forall j | 0 <= j < 6 && j >= 5 ensures HighByte(s[j], j, SignBit(s[4])) { EmptyByte(j, SignBit(s[4])); }
    AcceptedExactly(s);
    Varint32Exact(s);
    RawVarintSize(s, 10);
    assert s[6..] == [];
  }

  lemma EmptyByte(k: nat, sign: bool)
    ensures HighByte(0, k, sign)
  {
  }

  /** The value is a 32-bit word, or a negative 32-bit number in 64 bits. */
  predicate InRange32(w: nat) { w < TWO32 || TWO64 - 0x8000_0000 <= w < TWO64 }

  /** No bit past the word. */
  predicate NothingAbove(s: seq<byte>) {
    (VarintSize(s) > 4 ==> s[4] % 128 < 16) && forall k :: 5 <= k < VarintSize(s) ==> s[k] % 128 == 0
  }

  /** Ten bytes with all bits from 31 to 63 set, and none above. */
  predicate OnesAbove(s: seq<byte>) {
    VarintSize(s) == 10 && s[4] % 128 >= 120 && s[5..10] == SIGN_TAIL
  }

  lemma {:induction false} ZeroValue(s: seq<byte>, max: nat)
    requires RawVarint(s, max).Got?
    ensures RawVarint(s, max).value == 0 <==> forall k :: 0 <= k < VarintSize(s) ==> s[k] % 128 == 0
    decreases |s|
  {
    hide RawVarint;
    RawTurn(s, max);
    if s[0] >= 128 {
      ZeroValue(s[1..], max - 1);
      if forall k :: 0 <= k < VarintSize(s) ==> s[k] % 128 == 0 {
        forall k | 0 <= k < VarintSize(s[1..]) ensures s[1..][k] % 128 == 0 { assert s[k + 1] % 128 == 0; }
      }
      if RawVarint(s, max).value == 0 {
        forall k | 0 <= k < VarintSize(s) ensures s[k] % 128 == 0 {
          if k > 0 { assert s[1..][k - 1] % 128 == 0; }
        }
      }
    }
  }

  /** The number of 7 n - 6 bits that are all set, and its bytes. */
  function Ones(n: nat): (v: nat)
    requires n > 0
    ensures v > 0
  {
    if n == 1 then 1 else 127 + 128 * Ones(n - 1)
  }

  function OnesBytes(n: nat): (s: seq<byte>)
    requires n > 0
    ensures |s| == n
  {
    if n == 1 then [0x01] else [0xFF] + OnesBytes(n - 1)
  }

  lemma {:induction false} OnesValue(s: seq<byte>, n: nat)
    requires n > 0 && RawVarint(s, n).Got?
    ensures RawVarint(s, n).value == Ones(n) <==> VarintSize(s) == n && s[..n] == OnesBytes(n)
    decreases n
  {
    hide RawVarint;
    RawTurn(s, n);
    if s[0] < 128 {
      if n > 1 { assert VarintSize(s) == 1; }
    } else {
      OnesValue(s[1..], n - 1);
      assert VarintSize(s) == 1 + VarintSize(s[1..]);
      if VarintSize(s) == n {
        assert s[..n] == [s[0]] + s[1..][..n - 1];
      }
    }
  }

  /** The first four groups, and the value of the rest. */
  lemma Drop4(s: seq<byte>) returns (low: nat)
    requires RawVarint(s, 10).Got? && VarintSize(s) > 4
    ensures RawVarint(s[4..], 6).Got? && VarintSize(s[4..]) == VarintSize(s) - 4
    ensures low < TOP_WEIGHT && RawVarint(s, 10).value == low + TOP_WEIGHT * RawVarint(s[4..], 6).value
  {
    hide RawVarint;
    var a, b, c := s[1..], s[2..], s[3..];
    assert a == s[1..] && b == a[1..] && c == b[1..] && s[4..] == c[1..];
    RawTurn(s, 10);
    RawTurn(a, 9);
    RawTurn(b, 8);
    RawTurn(c, 7);
    var g0: nat, g1: nat, g2: nat, g3: nat := s[0] % 128, a[0] % 128, b[0] % 128, c[0] % 128;
    low := g0 + 128 * (g1 + 128 * (g2 + 128 * g3));
  }

  lemma Small(s: seq<byte>)
    requires RawVarint(s, 10).Got? && VarintSize(s) <= 4
    ensures RawVarint(s, 10).value < TOP_WEIGHT
  {
    hide RawVarint;
    RawTurn(s, 10);
    if s[0] >= 128 {
      var a := s[1..];
      RawTurn(a, 9);
      if a[0] >= 128 {
        var b := a[1..];
        RawTurn(b, 8);
        if b[0] >= 128 { RawTurn(b[1..], 7); }
      }
    }
  }

  /** A varint of at most ten bytes is in range exactly when it has no bit past the word
      or is a complete sign extension. */
  lemma InRangeExactly(s: seq<byte>)
    requires RawVarint(s, 10).Got?
    ensures InRange32(RawVarint(s, 10).value) <==> NothingAbove(s) || OnesAbove(s)
  {
    hide RawVarint, VarintSize, OnesBytes, Ones;
    var w := RawVarint(s, 10).value;
    if VarintSize(s) <= 4 {
      Small(s);
    } else {
      var low := Drop4(s);
      TopBytes(s);
    }
  }

  lemma TopBytes(s: seq<byte>)
    requires VarintSize(s) > 4 && RawVarint(s[4..], 6).Got? && VarintSize(s[4..]) == VarintSize(s) - 4
    ensures var h := RawVarint(s[4..], 6).value;
      && (h < 16 <==> NothingAbove(s))
      && (0x10_0000_0000 - 8 <= h < 0x10_0000_0000 <==> OnesAbove(s))
  {
    hide RawVarint;
    var t := s[4..];
    RawTurn(t, 6);
    if t[0] >= 128 {
      var u := t[1..];
      assert u == s[5..] && VarintSize(u) == VarintSize(s) - 5;
      ZeroValue(u, 5);
      assert (forall k :: 0 <= k < VarintSize(u) ==> u[k] % 128 == 0) <==>
             (forall k :: 5 <= k < VarintSize(s) ==> s[k] % 128 == 0) by {
        forall k | 5 <= k < VarintSize(s) ensures s[k] == u[k - 5] { }
        forall k | 0 <= k < VarintSize(u) ensures u[k] == s[k + 5] { }
      }
      OnesValue(u, 5);
      FiveOnes();
      assert VarintSize(u) == 5 ==> u[..5] == s[5..10];
    }
  }

  lemma FiveOnes()
    ensures Ones(5) == 0x1FFF_FFFF && OnesBytes(5) == SIGN_TAIL
  {
    assert Ones(3) == 127 + 128 * (127 + 128);
    assert OnesBytes(3) == [0xFF, 0xFF, 0x01];
  }

  /** Every value in range is accepted, however it is padded up to ten bytes. One out of
      range is accepted as well exactly when the fifth byte goes on and the bytes after
      it pass their test, without making up nothing or a complete sign extension. */
  lemma RefusedExactly(s: seq<byte>)
    requires RawVarint(s, 10).Got?
    ensures InRange32(RawVarint(s, 10).value) ==> DecVarint32(s).Got?
    ensures !InRange32(RawVarint(s, 10).value) ==>
      (DecVarint32(s).Got? <==> VarintSize(s) > 5 && HighBytes(s, 0, SignBit(s[4])))
  {
    hide RawVarint, DecVarint32, SignBit, HighBytes, VarintSize, Complete, NothingAbove, OnesAbove, InRange32;
    RawVarintSize(s, 10);
    InRangeExactly(s);
    AcceptedExactly(s);
    RawComplete(s, 10);
    AboveFive(s);
    if NothingAbove(s) { NothingAccepted(s); }
    if OnesAbove(s) { OnesAccepted(s); }
  }

  lemma AboveFive(s: seq<byte>)
    requires Complete(s)
    ensures VarintSize(s) <= 4 ==> NothingAbove(s)
    ensures VarintSize(s) == 5 ==> (NothingAbove(s) <==> s[4] < 16)
    ensures OnesAbove(s) ==> VarintSize(s) == 10
  {
  }

  lemma {:induction false} RawComplete(s: seq<byte>, max: nat)
    requires RawVarint(s, max).Got?
    ensures Complete(s)
    decreases |s|
  {
    if s[0] >= 128 { RawComplete(s[1..], max - 1); }
  }

  lemma NothingAccepted(s: seq<byte>)
    requires Complete(s) && NothingAbove(s)
    ensures VarintSize(s) == 5 ==> s[4] < 16
    ensures VarintSize(s) > 5 ==> HighBytes(s, 0, SignBit(s[4]))
  {
  }

  lemma OnesAccepted(s: seq<byte>)
    requires OnesAbove(s)
    ensures HighBytes(s, 0, SignBit(s[4]))
  {
    assert SignBit(s[4]);
    forall j | 0 <= j < 10 && j >= 5 ensures HighByte(s[j], j, true) {
      assert s[j] == s[5..10][j - 5];
    }
  }
}
