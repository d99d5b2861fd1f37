/**
 Decoding what was encoded. The main results are `DecodeEncoded`, `RoundTrip` and
 `AcceptedIffTerminated`.
 */
module RoundTrip {
  import opened Wrappers
  import opened Bits
  import opened Varint
  import opened Descriptor
  import opened Wire
  import opened Merge

  lemma TakeBack(body: seq<byte>, rest: seq<byte>)
    ensures Take(body + rest, |body|) == Got(body, rest)
  {
    assert (body + rest)[..|body|] == body;
    assert (body + rest)[|body|..] == rest;
  }

  lemma DelimitedBack(body: seq<byte>, rest: seq<byte>)
    requires |body| < TWO32
    ensures TakeDelimited(Delimited(body) + rest) == Got(body, rest)
    ensures DecVarint32(Delimited(body) + rest) == Got(|body|, body + rest)
  {
    assert Delimited(body) + rest == EncVarint(|body|) + (body + rest);
    Varint32Inverts(|body|, body + rest);
    TakeBack(body, rest);
  }

  lemma KeyBack(tag: nat, wireType: nat, rest: seq<byte>)
    requires 0 < tag < 0x2000_0000 && wireType < 8
    ensures DecTag(EncKey(tag, wireType) + rest) == Key(tag, wireType, rest)
  {
    hide EncVarint, DecVarint32;
    Varint32Inverts(tag * 8 + wireType, rest);
    assert (tag * 8 + wireType) / 8 == tag && (tag * 8 + wireType) % 8 == wireType;
  }

  /** A field and a value of it that `pb_encode` accepts. */
  ghost predicate Sound(f: Field, v: Value) {
    WellFormedField(f) && TypedValue(f, v) && EncodableValue(f, v)
  }

  /** What reading back an encoded scalar gives: the value, unless it is a string
      without room for its NUL. */
  ghost predicate ReadsBack(f: Field, v: Value, rest: seq<byte>) {
    DecScalar(f, EncScalar(f, v) + rest) ==
      if TerminatedValue(f, v) then Got(MergeValue(f, UNUSED, v), rest) else Fail
  }

  lemma BoolBack(f: Field, v: Value, rest: seq<byte>)
    requires Sound(f, v) && f.ltype.Bool?
    ensures ReadsBack(f, v, rest)
  {
    hide EncVarint, DecVarint32;
    Varint32Inverts(if NumOf(v) != 0 then 1 else 0, rest);
  }

  lemma VarintBack(f: Field, v: Value, rest: seq<byte>)
    requires Sound(f, v) && f.ltype.Varint?
    ensures ReadsBack(f, v, rest)
  {
    hide EncVarint, DecVarint64;
    SignedBack(v.n, f.dataSize);
    Varint64Inverts(v.n % TWO64, rest);
    hide SignedCast, Modulus;
  }

  lemma UVarintBack(f: Field, v: Value, rest: seq<byte>)
    requires Sound(f, v) && f.ltype.UVarint?
    ensures ReadsBack(f, v, rest)
  {
    hide EncVarint, DecVarint64;
    Varint64Inverts(v.n, rest);
  }

  lemma SVarintBack(f: Field, v: Value, rest: seq<byte>)
    requires Sound(f, v) && f.ltype.SVarint?
    ensures ReadsBack(f, v, rest)
  {
    hide EncVarint, DecVarint64;
    ZigZagInverts(v.n, 0);
    SignedWidens(v.n, f.dataSize);
    SignedBack(v.n, f.dataSize);
    Varint64Inverts(ZigZag(v.n), rest);
    hide SignedCast, Modulus, ZigZag, UnZigZag;
  }

  lemma FixedBack(f: Field, v: Value, rest: seq<byte>)
    requires Sound(f, v) && (f.ltype.Fixed32? || f.ltype.Fixed64?)
    ensures ReadsBack(f, v, rest)
  {
    hide LittleEndian, FromLittleEndian, Pow2, Take;
    Pow2Words();
    if f.ltype.Fixed32? {
      LittleEndianInverts(v.n, 4);
      TakeBack(LittleEndian(v.n, 4), rest);
    } else {
      LittleEndianInverts(v.n, 8);
      TakeBack(LittleEndian(v.n, 8), rest);
    }
  }

  lemma StrBack(f: Field, v: Value, rest: seq<byte>)
    requires Sound(f, v) && !Packable(f.ltype) && !f.ltype.Submessage?
    requires |StrOf(v)| + 1 < TWO32
    ensures ReadsBack(f, v, rest)
  {
    hide EncVarint, DecVarint32;
    DelimitedBack(v.bytes, rest);
    TakeBack(v.bytes, rest);
    if v.bytes == [] {
      assert Zeros(0) == v.bytes;
      assert v.bytes + rest == rest;
    }
    hide Delimited, Take;
  }

  lemma ScalarBack(f: Field, v: Value, rest: seq<byte>)
    requires Sound(f, v) && !f.ltype.Submessage?
    requires |EncScalar(f, v)| < TWO32
    ensures ReadsBack(f, v, rest)
  {
    hide ReadsBack;
    match f.ltype
    case Bool => BoolBack(f, v, rest);
    case Varint => VarintBack(f, v, rest);
    case UVarint => UVarintBack(f, v, rest);
    case SVarint => SVarintBack(f, v, rest);
    case Fixed32 => FixedBack(f, v, rest);
    case Fixed64 => FixedBack(f, v, rest);
    case _ => StrBack(f, v, rest);
  }

  lemma SignedWidens(n: int, size: nat)
    requires IntSize(size) && InSigned(n, size)
    ensures InSigned(n, 8)
  {
  }

  /** Sign extension to 64 bits is undone by the casts of `pb_dec_varint`. */
  lemma SignedBack(n: int, size: nat)
    requires IntSize(size) && InSigned(n, size)
    ensures SignedCast(n % TWO64, if size == 8 then 8 else 4) == n
    ensures SignedCast(n, size) == n
  {
    SignedCastKeeps(n, size);
    var wide := if size == 8 then 8 else 4;
    assert InSigned(n, wide);
    assert n % TWO64 % Modulus(wide) == n % Modulus(wide) by { if wide == 8 { } else { } }
    SignedCastKeeps(n, wide);
    hide Modulus;
  }

  // ----- Submessages, slots and messages -----

  ghost predicate AllSound(f: Field, vs: seq<Value>) {
    forall k :: 0 <= k < |vs| ==> Sound(f, vs[k])
  }

  ghost predicate AllTerminated(f: Field, vs: seq<Value>) {
    forall k :: 0 <= k < |vs| ==> TerminatedValue(f, vs[k])
  }

  /** A value is read back merged into the current one, unless it holds an
      unterminated string or overflows an array. */
  lemma ValueBack(f: Field, cur: Value, v: Value, rest: seq<byte>)
    requires Sound(f, v) && ShapedValue(f, cur) && |EncValue(f, v)| < TWO32
    ensures DecValue(f, cur, EncValue(f, v) + rest) ==
            if TerminatedValue(f, v) && FitsValue(f, cur, v) then Got(MergeValue(f, cur, v), rest) else Fail
    decreases f, 0
  {
    if f.ltype.Submessage? {
      var body := Enc(f.sub, v.slots);
      DelimitedBack(body, rest);
      MessageBack(f.sub, MsgOf(cur), v.slots, body);
    } else {
      ScalarBack(f, v, rest);
    }
  }

  /** A submessage decoded from exactly the bytes it was encoded to. */
  lemma MessageBack(fields: seq<Field>, a: seq<Slot>, m: seq<Slot>, body: seq<byte>)
    requires WellFormed(fields) && Typed(fields, m) && Encodable(fields, m) && Shaped(fields, a)
    requires body == Enc(fields, m) && |body| < TWO32
    ensures Decode(fields, a, body) ==
            if Terminated(fields, m) && Fits(fields, a, m) then Got(MergeMsg(fields, a, m), []) else Fail
    decreases fields, |fields| + 1
  {
    hide EncFrom, MergeFrom, WellFormed, Typed, Encodable;
    FieldsBack(fields, a, m, 0, {}, []);
    assert body + [] == body;
    SeenGrows(fields, m, 0, {});
    TerminatedAll(fields, m, 0);
  }

  /** One record of a known field at the front of the input. */
  lemma RunRecord(fields: seq<Field>, m: seq<Slot>, seen: set<nat>, i: nat, wireType: nat, tail: seq<byte>)
    requires i < |fields| && wireType < 8 && WellFormed(fields)
    ensures var f := fields[i];
      Run(fields, m, seen, EncKey(f.tag, wireType) + tail) ==
      match DecSlot(f, At(m, f.slot), wireType, tail)
      case Fail => Bad
      case Got(x, rest) => Run(fields, Put(m, f.slot, x), seen + {i}, rest)
  {
    hide DecSlot, DecTag, EncVarint;
    var f := fields[i];
    assert WellFormedField(f);
    hide WellFormed;
    KeyBack(f.tag, wireType, tail);
    FindsTag(fields, i);
  }

  /** A record with the wire type of the field's own type stores one value, also in an
      array that could be packed. */
  lemma SlotRecord(f: Field, x: Slot, s: seq<byte>)
    requires SlotKind(f, x)
    requires f.htype.Repeated? ==> |x.items| < f.arraySize
    ensures DecSlot(f, x, WireType(f.ltype), s) ==
      match DecValue(f, Current(f, x), s)
      case Fail => Fail
      case Got(v, rest) => Got(StoreValue(f, x, v), rest)
  {
    hide DecValue;
  }

  lemma SlotFull(f: Field, x: Slot, s: seq<byte>)
    requires SlotKind(f, x) && f.htype.Repeated? && |x.items| >= f.arraySize
    ensures DecSlot(f, x, WireType(f.ltype), s).Fail?
  {
    hide DecValue;
  }

  /** One record of a field with a single value. */
  lemma RecordBack(fields: seq<Field>, m: seq<Slot>, i: nat, v: Value, seen: set<nat>, more: seq<byte>)
    requires i < |fields| && |m| == NumSlots(fields) && WellFormed(fields)
    requires var f := fields[i];
      && ShapedSlot(f, At(m, f.slot)) && Sound(f, v) && |EncValue(f, v)| < TWO32
    ensures var f, x := fields[i], At(m, fields[i].slot);
      Run(fields, m, seen, EncKey(f.tag, WireType(f.ltype)) + (EncValue(f, v) + more)) ==
      if TerminatedValue(f, v) && FitsSlot(f, x, [v]) then
        Run(fields, Put(m, f.slot, StoreValue(f, x, MergeValue(f, Current(f, x), v))), seen + {i}, more)
      else Bad
    decreases fields[i], 1, 0
  {
    var f := fields[i];
    var x := At(m, f.slot);
    var tail := EncValue(f, v) + more;
    assert FitsSlot(f, x, [v]) <==> (f.htype.Repeated? ==> |x.items| < f.arraySize) && FitsValue(f, Current(f, x), v) by {
      assert [v][0] == v;
    }
    assert SlotKind(f, x) && ShapedValue(f, Current(f, x));
    hide Run, FitsSlot, FitsValue, ShapedSlot, ShapedValue, DecSlot, DecValue, EncValue, WellFormed, MergeValue, StoreValue, Current;
    RunRecord(fields, m, seen, i, WireType(f.ltype), tail);
    if f.htype.Repeated? && |x.items| >= f.arraySize {
      SlotFull(f, x, tail);
    } else {
      SlotRecord(f, x, tail);
      ValueBack(f, Current(f, x), v, more);
    }
  }

  lemma SlotExists(fields: seq<Field>, i: nat)
    requires i < |fields| && WellFormed(fields)
    ensures fields[i].slot < NumSlots(fields)
  {
    SlotInRange(fields, i);
  }

  /** Records of one field with a single value each. */
  lemma RecordsBack(fields: seq<Field>, m: seq<Slot>, i: nat, vs: seq<Value>, seen: set<nat>, rest: seq<byte>)
    requires i < |fields| && |m| == NumSlots(fields) && WellFormed(fields)
    requires var f := fields[i];
      && AllSound(f, vs) && |EncRecords(f, vs)| < TWO32
      && (f.htype.Repeated? ==> |ItemsOf(At(m, f.slot))| <= f.arraySize)
      && (vs != [] ==> ShapedSlot(f, At(m, f.slot)))
      && (f.htype.Repeated? || |vs| <= 1)
    ensures var f := fields[i];
      Run(fields, m, seen, EncRecords(f, vs) + rest) ==
      if AllTerminated(f, vs) && FitsSlot(f, At(m, f.slot), vs) then
        Run(fields, Put(m, f.slot, MergeAll(f, At(m, f.slot), vs)), if vs == [] then seen else seen + {i}, rest)
      else Bad
    decreases fields[i], 1, |vs|
  {
    hide Run, EncValue, WellFormed, MergeValue, EncKey, FitsSlot, AllSound, AllTerminated, StoreValue, Current, Sound;
    hide TerminatedValue, EncRecords, ShapedSlot;
    var f := fields[i];
    SlotExists(fields, i);
    if vs == [] {
      assert EncRecords(f, vs) + rest == rest by { NoRecords(f, rest); }
      assert Put(m, f.slot, At(m, f.slot)) == m;
      assert AllTerminated(f, vs) by { NothingToTerminate(f); }
      NothingToFit(f, At(m, f.slot));
    } else {
      var x := m[f.slot];
      var more := EncRecords(f, vs[1..]) + rest;
      FirstRecord(f, vs, rest);
      ShapedCount(f, x);
      SplitFits(f, x, vs);
      SplitSound(f, vs);
      RecordBack(fields, m, i, vs[0], seen, more);
      SplitTerminated(f, vs);
      if TerminatedValue(f, vs[0]) && FitsSlot(f, x, [vs[0]]) {
        var x' := StoreValue(f, x, MergeValue(f, Current(f, x), vs[0]));
        var m' := Put(m, f.slot, x');
        StaysShaped(f, x, vs);
        RecordsBack(fields, m', i, vs[1..], seen + {i}, rest);
        PutTwice(m, f.slot, x', MergeAll(f, x', vs[1..]));
        assert seen + {i} + {i} == seen + {i};
      }
    }
  }

  lemma NothingToFit(f: Field, x: Slot)
    requires f.htype.Repeated? ==> |ItemsOf(x)| <= f.arraySize
    ensures FitsSlot(f, x, [])
  {
  }

  /** There is room for all values when there is for the first one, and then for the
      others. */
  lemma SplitFits(f: Field, x: Slot, vs: seq<Value>)
    requires SlotKind(f, x) && vs != [] && (f.htype.Repeated? || |vs| <= 1)
    ensures var x' := StoreValue(f, x, MergeValue(f, Current(f, x), vs[0]));
      FitsSlot(f, x, vs) <==> FitsSlot(f, x, [vs[0]]) && FitsSlot(f, x', vs[1..])
  {
    hide MergeValue, FitsValue;
    var x' := StoreValue(f, x, MergeValue(f, Current(f, x), vs[0]));
    if FitsSlot(f, x, vs) {
      forall k | 0 <= k < |vs[1..]| ensures FitsValue(f, Current(f, x'), vs[1..][k]) {
        assert FitsValue(f, Current(f, x), vs[k + 1]);
      }
    }
    if FitsSlot(f, x, [vs[0]]) && FitsSlot(f, x', vs[1..]) {
      forall k | 0 <= k < |vs| ensures FitsValue(f, Current(f, x), vs[k]) {
        if k == 0 { assert [vs[0]][0] == vs[0]; } else { assert vs[1..][k - 1] == vs[k]; }
      }
    }
  }

  lemma StaysShaped(f: Field, x: Slot, vs: seq<Value>)
    requires ShapedSlot(f, x) && vs != [] && (f.htype.Repeated? || |vs| <= 1) && FitsSlot(f, x, [vs[0]])
    ensures var x' := StoreValue(f, x, MergeValue(f, Current(f, x), vs[0]));
      && (f.htype.Repeated? ==> |ItemsOf(x')| <= f.arraySize)
      && (vs[1..] != [] ==> ShapedSlot(f, x'))
  {
    hide MergeValue, ShapedValue;
  }

  lemma NoRecords(f: Field, rest: seq<byte>)
    ensures EncRecords(f, []) + rest == rest
  {
  }

  lemma FirstRecord(f: Field, vs: seq<Value>, rest: seq<byte>)
    requires vs != []
    ensures EncRecords(f, vs) + rest ==
      EncKey(f.tag, WireType(f.ltype)) + (EncValue(f, vs[0]) + (EncRecords(f, vs[1..]) + rest))
    ensures |EncRecords(f, vs)| >= |EncValue(f, vs[0])| + |EncRecords(f, vs[1..])|
  {
    hide EncKey, EncValue, EncRecords;
    RecordsSplit(f, vs, 0);
    var one, more := EncKey(f.tag, WireType(f.ltype)) + EncValue(f, vs[0]), EncRecords(f, vs[1..]);
    assert vs[..0] == [];
    NoRecords(f, one + more);
    assert EncRecords(f, vs) == one + more;
  }

  lemma NothingToTerminate(f: Field)
    ensures AllTerminated(f, [])
  {
  }

  lemma SplitSound(f: Field, vs: seq<Value>)
    requires AllSound(f, vs) && vs != []
    ensures Sound(f, vs[0]) && AllSound(f, vs[1..])
  {
    hide Sound;
  }

  lemma SplitTerminated(f: Field, vs: seq<Value>)
    requires vs != []
    ensures AllTerminated(f, vs) <==> TerminatedValue(f, vs[0]) && AllTerminated(f, vs[1..])
  {
    if TerminatedValue(f, vs[0]) && AllTerminated(f, vs[1..]) {
      forall k | 0 <= k < |vs| ensures TerminatedValue(f, vs[k]) {
        if k > 0 { assert TerminatedValue(f, vs[1..][k - 1]); }
      }
    }
    if AllTerminated(f, vs) {
      forall k | 0 <= k < |vs[1..]| ensures TerminatedValue(f, vs[1..][k]) {
        assert TerminatedValue(f, vs[k + 1]);
      }
    }
  }

  /** The body of a packed array is read back unless the array overflows. */
  lemma {:induction false} PackedBack(f: Field, x: Slot, vs: seq<Value>)
    requires f.htype.Repeated? && Packable(f.ltype) && x.Counted? && |x.items| <= f.arraySize
    requires AllSound(f, vs) && |EncPacked(f, vs)| < TWO32
    ensures MergeAll(f, x, vs).Counted?
    ensures DecPacked(f, x.items, f.arraySize, EncPacked(f, vs)) ==
            if |x.items| + |vs| <= f.arraySize then Got(MergeAll(f, x, vs).items, []) else Fail
    decreases |vs|
  {
    if vs != [] {
      hide EncScalar, DecScalar;
      var more := EncPacked(f, vs[1..]);
      assert EncPacked(f, vs) == EncScalar(f, vs[0]) + more;
      ScalarBack(f, vs[0], more);
      var v := MergeValue(f, UNUSED, vs[0]);
      assert v == MergeValue(f, Current(f, x), vs[0]);
      if |x.items| < f.arraySize {
        PackedBack(f, StoreValue(f, x, v), vs[1..]);
      } else {
        MergeAllKeepsKind(f, x, vs);
      }
    }
  }

  /** The single record of a packed array. */
  lemma PackedSlotBack(f: Field, x: Slot, vs: seq<Value>, rest: seq<byte>)
    requires f.htype.Repeated? && Packable(f.ltype) && ShapedSlot(f, x)
    requires AllSound(f, vs) && |Delimited(EncPacked(f, vs))| < TWO32
    ensures DecSlot(f, x, WT_STRING, Delimited(EncPacked(f, vs)) + rest) ==
            if FitsSlot(f, x, vs) then Got(MergeAll(f, x, vs), rest) else Fail
  {
    hide Delimited, DecPacked, EncPacked, TakeDelimited, MergeAll, Sound;
    DelimitedIsLonger(EncPacked(f, vs));
    DelimitedBack(EncPacked(f, vs), rest);
    PackedBack(f, x, vs);
  }

  lemma PackedTerminated(f: Field, vs: seq<Value>)
    requires Packable(f.ltype)
    ensures AllTerminated(f, vs)
  {
  }

  lemma DelimitedIsLonger(body: seq<byte>)
    ensures |body| < |Delimited(body)|
  {
  }

  lemma ShapedCount(f: Field, x: Slot)
    requires ShapedSlot(f, x)
    ensures SlotKind(f, x) && (f.htype.Repeated? ==> |ItemsOf(x)| <= f.arraySize)
  {
    hide ShapedValue;
  }

  lemma SlotBytes(f: Field, y: Slot, packed: bool)
    requires packed <==> Payload(f, y) != [] && f.htype.Repeated? && Packable(f.ltype)
    ensures var vs := Payload(f, y);
      EncSlot(f, y) == if packed then EncKey(f.tag, WT_STRING) + Delimited(EncPacked(f, vs)) else EncRecords(f, vs)
    ensures TerminatedSlot(f, y) <==> AllTerminated(f, Payload(f, y))
    ensures f.htype.Repeated? || |Payload(f, y)| <= 1
  {
    hide EncKey, Delimited, EncPacked, EncRecords, IsZero;
  }

  lemma PackedFieldBack(fields: seq<Field>, m: seq<Slot>, i: nat, vs: seq<Value>, seen: set<nat>, rest: seq<byte>)
    requires i < |fields| && |m| == NumSlots(fields) && WellFormed(fields)
    requires var f := fields[i];
      && f.htype.Repeated? && Packable(f.ltype) && ShapedSlot(f, At(m, f.slot)) && AllSound(f, vs)
      && |Delimited(EncPacked(f, vs))| < TWO32
    ensures var f, x := fields[i], At(m, fields[i].slot);
      Run(fields, m, seen, EncKey(f.tag, WT_STRING) + (Delimited(EncPacked(f, vs)) + rest)) ==
      if FitsSlot(f, x, vs) then Run(fields, Put(m, f.slot, MergeAll(f, x, vs)), seen + {i}, rest) else Bad
  {
    hide Run, WellFormed, Delimited, EncKey, EncPacked, DecSlot, FitsSlot, AllSound, MergeAll, ShapedSlot, AllTerminated;
    RunRecord(fields, m, seen, i, WT_STRING, Delimited(EncPacked(fields[i], vs)) + rest);
    PackedSlotBack(fields[i], At(m, fields[i].slot), vs, rest);
  }

  /** All records of one field. */
  lemma FieldBack(fields: seq<Field>, m: seq<Slot>, i: nat, y: Slot, seen: set<nat>, rest: seq<byte>)
    requires i < |fields| && |m| == NumSlots(fields) && WellFormed(fields)
    requires var f := fields[i];
      && ShapedSlot(f, At(m, f.slot)) && AllSound(f, Payload(f, y)) && |EncSlot(f, y)| < TWO32
    ensures var f, vs := fields[i], Payload(fields[i], y);
      Run(fields, m, seen, EncSlot(f, y) + rest) ==
      if TerminatedSlot(f, y) && FitsSlot(f, At(m, f.slot), vs) then
        Run(fields, Put(m, f.slot, MergeAll(f, At(m, f.slot), vs)), if vs == [] then seen else seen + {i}, rest)
      else Bad
    decreases fields[i], 2
  {
    hide Run, WellFormed, EncSlot, TerminatedSlot, Payload, Delimited, EncKey, EncPacked, EncRecords, DecSlot;
    hide FitsSlot, AllSound, MergeAll, ShapedSlot, AllTerminated, At, Put;
    var f := fields[i];
    var vs := Payload(f, y);
    var packed := vs != [] && f.htype.Repeated? && Packable(f.ltype);
    SlotBytes(f, y, packed);
    ShapedCount(f, At(m, f.slot));
    if packed {
      var key, body := EncKey(f.tag, WT_STRING), Delimited(EncPacked(f, vs));
      assert key + body + rest == key + (body + rest);
      PackedTerminated(f, vs);
      PackedFieldBack(fields, m, i, vs, seen, rest);
    } else {
      RecordsBack(fields, m, i, vs, seen, rest);
    }
  }

  /** All records of a message from field `i` on: they merge it into `a`. */
  lemma FieldsBack(fields: seq<Field>, a: seq<Slot>, m: seq<Slot>, i: nat, seen: set<nat>, rest: seq<byte>)
    requires i <= |fields|
    requires WellFormed(fields) && Typed(fields, m) && Encodable(fields, m) && ShapedFrom(fields, a, i)
    requires |EncFrom(fields, m, i)| < TWO32
    ensures Run(fields, a, seen, EncFrom(fields, m, i) + rest) ==
            if TerminatedFrom(fields, m, i) && FitsFrom(fields, a, m, i) then
              Run(fields, MergeFrom(fields, a, m, i), SeenFrom(fields, m, i, seen), rest)
            else Bad
    decreases fields, |fields| - i
  {
    hide Run, EncSlot, MergeAll, WellFormed, Typed, Encodable, FitsSlot, ShapedSlot, TerminatedSlot, AllSound;
    hide ShapedFrom, FitsFrom;
    FitsStep(fields, a, m, i);
    if i == |fields| {
      assert EncFrom(fields, m, i) + rest == rest;
    } else {
      var f, y := fields[i], At(m, fields[i].slot);
      var vs := Payload(f, y);
      var more := EncFrom(fields, m, i + 1) + rest;
      assert EncFrom(fields, m, i) + rest == EncSlot(f, y) + more;
      SoundPayload(fields, m, i);
      FieldBack(fields, a, i, y, seen, more);
      if TerminatedSlot(f, y) && FitsSlot(f, At(a, f.slot), vs) {
        var x := MergeAll(f, At(a, f.slot), vs);
        var a' := Put(a, f.slot, x);
        MergeAllKeepsKind(f, At(a, f.slot), vs);
        StillFits(fields, a, m, i, x);
        FieldsBack(fields, a', m, i + 1, if vs == [] then seen else seen + {i}, rest);
      }
    }
  }

  lemma FitsStep(fields: seq<Field>, a: seq<Slot>, m: seq<Slot>, i: nat)
    requires i <= |fields| && ShapedFrom(fields, a, i)
    ensures |a| == NumSlots(fields)
    ensures i == |fields| ==> FitsFrom(fields, a, m, i)
    ensures i < |fields| ==> ShapedSlot(fields[i], At(a, fields[i].slot))
    ensures i < |fields| ==> SlotKind(fields[i], At(a, fields[i].slot))
    ensures i < |fields| ==>
      (FitsFrom(fields, a, m, i) <==>
       FitsSlot(fields[i], At(a, fields[i].slot), Payload(fields[i], At(m, fields[i].slot))) && FitsFrom(fields, a, m, i + 1))
  {
    hide FitsSlot, ShapedValue;
  }

  predicate TerminatedFrom(fields: seq<Field>, m: seq<Slot>, i: nat)
    requires i <= |fields|
    decreases |fields| - i
  {
    i == |fields| || (TerminatedSlot(fields[i], At(m, fields[i].slot)) && TerminatedFrom(fields, m, i + 1))
  }

  lemma {:induction false} TerminatedAll(fields: seq<Field>, m: seq<Slot>, i: nat)
    requires i <= |fields|
    ensures TerminatedFrom(fields, m, i) <==>
            forall j :: i <= j < |fields| ==> TerminatedSlot(fields[j], At(m, fields[j].slot))
    decreases |fields| - i
  {
    if i < |fields| { TerminatedAll(fields, m, i + 1); }
  }

  lemma SoundPayload(fields: seq<Field>, m: seq<Slot>, i: nat)
    requires WellFormed(fields) && Typed(fields, m) && Encodable(fields, m) && i < |fields|
    ensures AllSound(fields[i], Payload(fields[i], At(m, fields[i].slot)))
  {
    var f, x := fields[i], At(m, fields[i].slot);
    assert WellFormedField(f) && TypedSlot(f, x) && EncodableSlot(f, x);
  }

  /** Storing into one slot changes neither the shape of the fields after it nor the
      room they have. */
  lemma StillFits(fields: seq<Field>, a: seq<Slot>, m: seq<Slot>, i: nat, x: Slot)
    requires WellFormed(fields) && i < |fields| && ShapedFrom(fields, a, i)
    requires SlotKind(fields[i], x)
    ensures ShapedFrom(fields, Put(a, fields[i].slot, x), i + 1)
    ensures FitsFrom(fields, Put(a, fields[i].slot, x), m, i + 1) <==> FitsFrom(fields, a, m, i + 1)
  {
    hide FitsValue, ShapedValue;
    var a' := Put(a, fields[i].slot, x);
    forall j | i + 1 <= j < |fields|
      ensures var f, vs := fields[j], Payload(fields[j], At(m, fields[j].slot));
        && ShapedSlot(f, At(a', f.slot))
        && (FitsSlot(f, At(a', f.slot), vs) <==> FitsSlot(f, At(a, f.slot), vs))
    {
      var f := fields[j];
      assert ShapedSlot(f, At(a, f.slot));
      if f.slot == fields[i].slot {
        SlotsShared(fields, i, j);
        assert Current(f, x) == Current(f, At(a, f.slot));
      }
    }
  }
}
