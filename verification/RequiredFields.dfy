/**
 The bitmap `fields_seen` of `pb_decode_noinit`: two 32-bit words, one bit for each
 of the first 64 required fields.
 */
module RequiredFields {
  import opened Bits
  import opened Descriptor
  import opened Wire

  const ALL_BITS: nat := 0xFFFF_FFFF

  /** The field at position `i` is the required field number `r`. */
  predicate IsRequiredNumber(fields: seq<Field>, i: nat, r: nat) {
    i < |fields| && fields[i].htype.Required? && RequiredBefore(fields, i) == r
  }

  ghost predicate SeenBit(fields: seq<Field>, seen: set<nat>, r: nat) {
    exists i :: i in seen && IsRequiredNumber(fields, i, r)
  }

  /** The words hold exactly the required fields found so far. */
  ghost predicate Records(fields: seq<Field>, low: nat, high: nat, seen: set<nat>) {
    && low < TWO32 && high < TWO32
    && (forall r: nat :: r < 32 ==> (Bit(low, r) <==> WordBit(fields, seen, 0, r)))
    && (forall r: nat :: r < 32 ==> (Bit(high, r) <==> WordBit(fields, seen, 1, r)))
  }

  /** Bit `r` of word number `word`. */
  ghost predicate WordBit(fields: seq<Field>, seen: set<nat>, word: nat, r: nat) {
    SeenBit(fields, seen, 32 * word + r)
  }

  lemma NothingSeen(fields: seq<Field>)
    ensures Records(fields, 0, 0, {})
  {
    forall r: nat ensures !Bit(0, r) { BitOfZero(r); }
  }

  /** `fields_seen[index >> 5] |= 1 << (index & 31)` */
  function SetBit(word: nat, r: nat): (w: nat)
    requires word < TWO32 && r < 32
    ensures w < TWO32
    ensures forall k: nat :: Bit(w, k) <==> Bit(word, k) || k == r
  {
    SetBitBound(word, r);
    assert forall k: nat :: Bit(BitOr(word, Pow2(r)), k) <==> Bit(word, k) || k == r by {
      forall k: nat ensures Bit(BitOr(word, Pow2(r)), k) <==> Bit(word, k) || k == r {
        BitOfBitOr(word, Pow2(r), k);
        BitOfPow2(r, k);
      }
    }
    BitOr(word, Pow2(r))
  }

  lemma SetBitBound(word: nat, r: nat)
    requires word < TWO32 && r < 32
    ensures BitOr(word, Pow2(r)) < TWO32
  {
    hide Pow2, BitOr;
    Pow2Words();
    Pow2Adds(r, 32 - r);
    SmallerPower(r, 32);
    BitOrBound(word, Pow2(r), 32);
  }

  lemma {:induction false} SmallerPower(m: nat, n: nat)
    requires m < n
    ensures Pow2(m) < Pow2(n)
  {
    if m < n - 1 { SmallerPower(m, n - 1); }
  }

  /** Finding field `i` once more. */
  lemma SeeOne(fields: seq<Field>, seen: set<nat>, i: nat, r: nat)
    requires i < |fields|
    ensures SeenBit(fields, seen + {i}, r) <==> SeenBit(fields, seen, r) || IsRequiredNumber(fields, i, r)
  {
    if SeenBit(fields, seen + {i}, r) {
      var j :| j in seen + {i} && IsRequiredNumber(fields, j, r);
    }
    if SeenBit(fields, seen, r) {
      var j :| j in seen && IsRequiredNumber(fields, j, r);
      assert j in seen + {i};
    }
    if IsRequiredNumber(fields, i, r) { assert i in seen + {i}; }
  }

  lemma RecordsUpdate(fields: seq<Field>, low: nat, high: nat, seen: set<nat>, i: nat, low': nat, high': nat)
    requires Records(fields, low, high, seen) && i < |fields|
    requires var r := RequiredBefore(fields, i);
      if !fields[i].htype.Required? || r >= 64 then low' == low && high' == high
      else if r < 32 then low' == SetBit(low, r) && high' == high
      else low' == low && high' == SetBit(high, r - 32)
    ensures Records(fields, low', high', seen + {i})
  {
    hide RequiredBefore, Bit, SeenBit;
    WordUpdate(fields, low, 0, seen, i, low');
    WordUpdate(fields, high, 1, seen, i, high');
  }

  lemma WordUpdate(fields: seq<Field>, w: nat, word: nat, seen: set<nat>, i: nat, w': nat)
    requires i < |fields|
    requires forall r: nat :: r < 32 ==> (Bit(w, r) <==> WordBit(fields, seen, word, r))
    requires forall r: nat :: r < 32 ==> (Bit(w', r) <==> Bit(w, r) || IsRequiredNumber(fields, i, 32 * word + r))
    ensures forall r: nat :: r < 32 ==> (Bit(w', r) <==> WordBit(fields, seen + {i}, word, r))
  {
    hide Bit, SeenBit, IsRequiredNumber;
    forall r: nat | r < 32 ensures Bit(w', r) <==> WordBit(fields, seen + {i}, word, r) {
      SeeOne(fields, seen, i, 32 * word + r);
      assert Bit(w, r) <==> WordBit(fields, seen, word, r);
    }
  }

  // ----- The required fields are numbered without gaps -----

  lemma {:induction false} RequiredUp(fields: seq<Field>, i: nat, j: nat)
    requires i <= j <= |fields|
    ensures RequiredBefore(fields, i) <= RequiredBefore(fields, j)
    ensures i < j && fields[i].htype.Required? ==> RequiredBefore(fields, i) < RequiredBefore(fields, j)
    decreases j - i
  {
    if i < j { RequiredUp(fields, i, j - 1); }
  }

  lemma RequiredInjective(fields: seq<Field>, i: nat, j: nat, r: nat)
    requires IsRequiredNumber(fields, i, r) && IsRequiredNumber(fields, j, r)
    ensures i == j
  {
    if i < j { RequiredUp(fields, i, j); }
    if j < i { RequiredUp(fields, j, i); }
  }

  lemma {:induction false} RequiredExists(fields: seq<Field>, n: nat, r: nat) returns (i: nat)
    requires n <= |fields| && r < RequiredBefore(fields, n)
    ensures IsRequiredNumber(fields, i, r)
  {
    if fields[n - 1].htype.Required? && RequiredBefore(fields, n - 1) == r {
      i := n - 1;
    } else {
      i := RequiredExists(fields, n - 1, r);
    }
  }

  /** The number of required fields that are tracked: `req_field_count`. */
  function TrackedCount(fields: seq<Field>): (n: nat)
    ensures n <= 64
  {
    var n := RequiredBefore(fields, |fields|);
    if n > PB_MAX_REQUIRED_FIELDS then PB_MAX_REQUIRED_FIELDS else n
  }

  /** Acceptance in terms of the numbers of the required fields. */
  lemma AllRequiredByNumber(fields: seq<Field>, seen: set<nat>)
    ensures AllRequired(fields, seen) <==> forall r: nat :: r < TrackedCount(fields) ==> SeenBit(fields, seen, r)
  {
    if AllRequired(fields, seen) {
      forall r: nat | r < TrackedCount(fields) ensures SeenBit(fields, seen, r) {
        var i := RequiredExists(fields, |fields|, r);
        assert i in seen;
      }
    }
    if forall r: nat :: r < TrackedCount(fields) ==> SeenBit(fields, seen, r) {
      forall i | 0 <= i < |fields| && fields[i].htype.Required? && RequiredBefore(fields, i) < PB_MAX_REQUIRED_FIELDS
        ensures i in seen
      {
        var r := RequiredBefore(fields, i);
        RequiredUp(fields, i, |fields|);
        assert SeenBit(fields, seen, r);
        var j :| j in seen && IsRequiredNumber(fields, j, r);
        RequiredInjective(fields, i, j, r);
      }
    }
  }

  /** No bit is set past the last required field. */
  lemma SeenBitsEnd(fields: seq<Field>, seen: set<nat>, r: nat)
    requires SeenBit(fields, seen, r)
    ensures r < RequiredBefore(fields, |fields|)
  {
    var i :| i in seen && IsRequiredNumber(fields, i, r);
    RequiredUp(fields, i, |fields|);
  }

  // ----- The mask tests -----

  /** A word whose bits from `n` on are clear is smaller than 2^n. */
  lemma {:induction false} HighBitsClear(w: nat, n: nat, m: nat)
    requires n <= m && w < Pow2(m) && forall k: nat :: n <= k < m ==> !Bit(w, k)
    ensures w < Pow2(n)
    decreases m
  {
    if m > 0 {
      if n > 0 {
        forall k: nat | n - 1 <= k < m - 1 ensures !Bit(w / 2, k) { assert !Bit(w, k + 1); }
        HighBitsClear(w / 2, n - 1, m - 1);
      } else {
        assert !Bit(w, 0);
        forall k: nat | 0 <= k < m - 1 ensures !Bit(w / 2, k) { assert !Bit(w, k + 1); }
        HighBitsClear(w / 2, 0, m - 1);
      }
    }
  }

  /** `allbits >> (32 - n)` is the word with exactly the low `n` bits set, so the test
      on the remaining bits is exact when no higher bit is set. */
  lemma MaskTest(w: nat, n: nat)
    requires n <= 32 && w < TWO32 && forall k: nat :: n <= k < 32 ==> !Bit(w, k)
    ensures w == ALL_BITS / Pow2(32 - n) <==> LowBitsSet(w, n)
  {
    hide Pow2, Bit, LowBitsSet;
    Pow2Words();
    HighBitsClear(w, n, 32);
    AllOnes(w, n);
    Pow2Adds(n, 32 - n);
    MaskValue(Pow2(n), Pow2(32 - n));
  }

  lemma MaskValue(p: nat, q: nat)
    requires p > 0 && q > 0 && p * q == TWO32
    ensures ALL_BITS / q == p - 1
  {
    assert (p - 1) * q == p * q - q;
    var a, b := ALL_BITS / q, ALL_BITS % q;
    assert a * q + b == (p - 1) * q + (q - 1);
    assert (a - (p - 1)) * q == (q - 1) - b;
    SmallMultiple(a - (p - 1), q);
  }

  lemma SmallMultiple(k: int, q: nat)
    requires 0 <= k * q < q
    ensures k == 0
  {
  }

  /** The test of the words and remaining bits for `n` tracked fields. */
  predicate MasksMatch(low: nat, high: nat, n: nat)
    requires n <= 64
  {
    && (n >= 32 ==> low == ALL_BITS)
    && (n == 64 ==> high == ALL_BITS)
    && (0 < n < 32 ==> low == ALL_BITS / Pow2(32 - n))
    && (32 < n < 64 ==> high == ALL_BITS / Pow2(64 - n))
  }

  lemma FullMask()
    ensures ALL_BITS / Pow2(0) == ALL_BITS
  {
  }

  /** How many bits of a word are compared. */
  function BitsOf(n: nat, word: nat): nat {
    if n < 32 * word then 0 else if n - 32 * word > 32 then 32 else n - 32 * word
  }

  lemma WordTest(fields: seq<Field>, w: nat, word: nat, seen: set<nat>, n: nat)
    requires w < TWO32 && word < 2 && n <= 64
    requires forall r: nat :: r < 32 ==> (Bit(w, r) <==> WordBit(fields, seen, word, r))
    requires forall r: nat :: n <= r < 64 ==> !SeenBit(fields, seen, r)
    ensures BitsOf(n, word) > 0 ==>
      (w == ALL_BITS / Pow2(32 - BitsOf(n, word)) <==>
       forall r: nat :: r < BitsOf(n, word) ==> WordBit(fields, seen, word, r))
  {
    hide Pow2, Bit, SeenBit;
    var k := BitsOf(n, word);
    if k > 0 {
      forall r: nat | k <= r < 32 ensures !Bit(w, r) { assert !SeenBit(fields, seen, 32 * word + r); }
      MaskTest(w, k);
    }
  }

  /** The bitmap test accepts exactly when each of the first 64 required fields was
      found. */
  lemma BitmapIsExact(fields: seq<Field>, low: nat, high: nat, seen: set<nat>)
    requires Records(fields, low, high, seen)
    ensures MasksMatch(low, high, TrackedCount(fields)) <==> AllRequired(fields, seen)
  {
    hide RequiredBefore, Pow2, Bit;
    var n := TrackedCount(fields);
    AllRequiredByNumber(fields, seen);
    forall r: nat | n <= r < 64 ensures !SeenBit(fields, seen, r) {
      if SeenBit(fields, seen, r) { SeenBitsEnd(fields, seen, r); }
    }
    WordTest(fields, low, 0, seen, n);
    WordTest(fields, high, 1, seen, n);
    FullMask();
    SplitWords(fields, seen, n);
    hide WordBit;
  }

  lemma SplitWords(fields: seq<Field>, seen: set<nat>, n: nat)
    requires n <= 64
    ensures (forall r: nat :: r < n ==> SeenBit(fields, seen, r)) <==>
            (forall r: nat :: r < BitsOf(n, 0) ==> WordBit(fields, seen, 0, r)) &&
            (forall r: nat :: r < BitsOf(n, 1) ==> WordBit(fields, seen, 1, r))
  {
    hide SeenBit;
    if (forall r: nat :: r < BitsOf(n, 0) ==> WordBit(fields, seen, 0, r)) &&
       (forall r: nat :: r < BitsOf(n, 1) ==> WordBit(fields, seen, 1, r)) {
      forall r: nat | r < n ensures SeenBit(fields, seen, r) {
        if r < 32 { assert WordBit(fields, seen, 0, r); } else { assert WordBit(fields, seen, 1, r - 32); }
      }
    }
  }
}
