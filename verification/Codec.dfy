/**
 The main results about `pb_encode` and `pb_decode` together.
 */
module Codec {
  import opened Wrappers
  import opened Bits
  import opened Varint
  import opened Descriptor
  import opened Wire
  import opened Merge
  import opened NormalForm
  import RT = RoundTrip

  // ----- When two messages say the same -----

  ghost predicate SameValue(f: Field, a: Value, b: Value)
    decreases f, 0
  {
    match f.ltype
    case Submessage => Same(f.sub, MsgOf(a), MsgOf(b))
    case Bool => (NumOf(a) != 0) == (NumOf(b) != 0)
    case _ => a == b
  }

  /** Equal presence and equal data where it is present. */
  ghost predicate SameSlot(f: Field, x: Slot, y: Slot)
    decreases f, 1
  {
    && SlotKind(f, x) && SlotKind(f, y)
    && match x
       case Plain(v) => SameValue(f, v, y.v)
       case Flagged(has, v) => has == y.has && (has ==> SameValue(f, v, y.v))
       case Counted(items) =>
         && |items| == |y.items|
         && (forall k :: 0 <= k < |items| ==> SameValue(f, items[k], y.items[k]))
       case Union(which, v) =>
         (which == f.tag) == (y.which == f.tag) && (which == f.tag ==> SameValue(f, v, y.v))
  }

  /** Two structures a reader of the message cannot tell apart. */
  ghost predicate Same(fields: seq<Field>, a: seq<Slot>, b: seq<Slot>)
    decreases fields, 0
  {
    forall i :: 0 <= i < |fields| ==> SameSlot(fields[i], At(a, fields[i].slot), At(b, fields[i].slot))
  }

  lemma ZeroSame(f: Field, v: Value)
    requires WellFormedField(f) && f.dflt.None? && TypedValue(f, v) && IsZero(f, v)
    ensures SameValue(f, v, DefaultValue(f))
    decreases f, 0
  {
    if f.ltype.Submessage? { AllZeroSame(f.sub, v.slots); }
  }

  lemma AllZeroSame(fields: seq<Field>, m: seq<Slot>)
    requires WellFormed(fields) && Typed(fields, m) && IsDefault(fields, m, 0)
    ensures Same(fields, m, Defaults(fields))
    decreases fields, 0
  {
    DefaultSlots(fields, m, 0);
    forall i | 0 <= i < |fields|
      ensures SameSlot(fields[i], At(m, fields[i].slot), At(Defaults(fields), fields[i].slot))
    {
      var f, x := fields[i], At(m, fields[i].slot);
      assert WellFormedField(f) && TypedSlot(f, x);
      DefaultsAt(fields, i);
      if f.htype.Optional? && f.sizeOffset == 0 { ZeroSame(f, x.v); }
    }
  }

  lemma MergedValueSame(f: Field, v: Value)
    requires WellFormedField(f) && TypedValue(f, v)
    ensures SameValue(f, v, MergeValue(f, DefaultValue(f), v))
    decreases f, 0
  {
    if f.ltype.Submessage? { MergedSame(f.sub, v.slots); }
  }

  lemma MergedSlotSame(f: Field, x: Slot)
    requires WellFormedField(f) && TypedSlot(f, x) && !f.htype.OneOf?
    ensures SameSlot(f, x, MergeAll(f, DefaultSlot(f), Payload(f, x)))
    decreases f, 1
  {
    hide MergeValue, DefaultValue, TypedValue, SameValue, IsZero;
    var vs := Payload(f, x);
    match f.htype
    case Repeated =>
      MergeAllItems(f, DefaultSlot(f), vs);
      forall k | 0 <= k < |vs| ensures SameValue(f, vs[k], MergeValue(f, DefaultValue(f), vs[k])) {
        MergedValueSame(f, vs[k]);
      }
    case Required =>
      MergedValueSame(f, x.v);
    case Optional =>
      if vs != [] {
        assert TypedValue(f, vs[0]);
        MergedValueSame(f, x.v);
      } else if f.sizeOffset == 0 {
        ZeroSame(f, x.v);
      }
  }

  /** Merging a message into a fresh structure keeps all a reader can see of it. */
  lemma MergedSame(fields: seq<Field>, m: seq<Slot>)
    requires WellFormed(fields) && Typed(fields, m)
    ensures Same(fields, m, MergeMsg(fields, Defaults(fields), m))
    decreases fields, 0
  {
    var r := MergeMsg(fields, Defaults(fields), m);
    forall j | 0 <= j < |fields|
      ensures SameSlot(fields[j], At(m, fields[j].slot), At(r, fields[j].slot))
    {
      MergedSameAt(fields, m, j);
    }
  }

  lemma MergedSameAt(fields: seq<Field>, m: seq<Slot>, j: nat)
    requires WellFormed(fields) && Typed(fields, m) && j < |fields|
    ensures SameSlot(fields[j], At(m, fields[j].slot), At(MergeMsg(fields, Defaults(fields), m), fields[j].slot))
    decreases fields, 0, 0
  {
    hide MergeFrom, MergeValue, DefaultValue, TypedValue;
    var a, f := Defaults(fields), fields[j];
    var x := At(m, f.slot);
    assert WellFormedField(f) && TypedSlot(f, x);
    DefaultsAt(fields, j);
    if !f.htype.OneOf? {
      OnlyPayload(fields, m, j);
      MergedAt(fields, a, m, 0, j);
      MergedSlotSame(f, x);
    } else if k :| 0 <= k < |fields| && fields[k].slot == f.slot && fields[k].htype.OneOf? && fields[k].tag == x.which {
      OnlyPayload(fields, m, k);
      MergedAt(fields, a, m, 0, k);
      if k == j {
        assert TypedValue(f, Payload(f, x)[0]);
        MergedValueSame(f, x.v);
      } else {
        assert fields[k].tag != f.tag;
      }
    } else {
      forall k | 0 <= k < |fields| && fields[k].slot == f.slot ensures Payload(fields[k], x) == [] {
        if k != j { SlotsShared(fields, k, j); }
      }
      MergedUntouched(fields, a, m, 0, f.slot);
    }
  }

  // ----- Encoding and decoding -----

  /** Decoding an encoded message into an existing structure merges it: arrays grow,
      submessages merge, everything else is replaced. It fails exactly when an array
      at some depth has no room left, or a string no NUL. */
  lemma DecodeEncoded(fields: seq<Field>, a: seq<Slot>, m: seq<Slot>)
    requires WellFormed(fields) && Typed(fields, m) && Encodable(fields, m)
    requires Shaped(fields, a) && |Enc(fields, m)| < TWO32
    ensures Decode(fields, a, Enc(fields, m)) ==
            if Terminated(fields, m) && Fits(fields, a, m) then Got(MergeMsg(fields, a, m), []) else Fail
  {
    RT.MessageBack(fields, a, m, Enc(fields, m));
  }

  /** `pb_decode`: initialises the structure, then merges the records of `s`. */
  function DecodeFresh(fields: seq<Field>, s: seq<byte>): Parse<seq<Slot>> {
    Decode(fields, Defaults(fields), s)
  }

  /** Whole-message round trip: all the bytes are consumed and the decoded message
      says the same as the encoded one, in normal form. */
  lemma RoundTrip(fields: seq<Field>, m: seq<Slot>)
    requires WellFormed(fields) && Typed(fields, m) && Encodable(fields, m) && Terminated(fields, m)
    requires |Enc(fields, m)| < TWO32
    ensures DecodeFresh(fields, Enc(fields, m)).Got?
    ensures DecodeFresh(fields, Enc(fields, m)).rest == []
    ensures Same(fields, m, DecodeFresh(fields, Enc(fields, m)).value)
    ensures Normal(fields, DecodeFresh(fields, Enc(fields, m)).value)
  {
    hide Enc, Decode, Run, Normal, Same, Typed, Encodable, Terminated;
    DefaultsFit(fields, m);
    DefaultsShaped(fields);
    DecodeEncoded(fields, Defaults(fields), m);
    MergedSame(fields, m);
    DefaultsNormal(fields);
    DecodeNormal(fields, Defaults(fields), Enc(fields, m));
  }

  /** The encoder accepts strings that fill their buffer, the decoder does not: an
      encoded message is decodable exactly when every encoded string is terminated. */
  lemma AcceptedIffTerminated(fields: seq<Field>, m: seq<Slot>)
    requires WellFormed(fields) && Typed(fields, m) && Encodable(fields, m)
    requires |Enc(fields, m)| < TWO32
    ensures DecodeFresh(fields, Enc(fields, m)).Got? <==> Terminated(fields, m)
  {
    DefaultsFit(fields, m);
    DefaultsShaped(fields);
    RT.MessageBack(fields, Defaults(fields), m, Enc(fields, m));
  }

  /** The smallest message the encoder accepts and the decoder refuses: a one-byte
      string buffer holding one character. */
  lemma UnterminatedExample()
    ensures var f := Field(1, String, Required, 0, 0, 1, 0, 0, [], None);
      var m := [Plain(Str([65]))];
      && WellFormed([f]) && Typed([f], m) && Encodable([f], m)
      && Enc([f], m) == [0x0A, 0x01, 0x41]
      && DecodeFresh([f], Enc([f], m)).Fail?
  {
    var f := Field(1, String, Required, 0, 0, 1, 0, 0, [], None);
    var m := [Plain(Str([65]))];
    assert WellFormedField(f);
    assert TypedSlot(f, m[0]);
    assert EncVarint(10) == [0x0A] && EncVarint(1) == [0x01];
    assert EncFrom([f], m, 1) == [] && EncRecords(f, [Str([65])][1..]) == [];
    assert EncSlot(f, m[0]) == [0x0A, 0x01, 0x41];
    assert !TerminatedSlot(f, At(m, 0)) by { assert !TerminatedValue(f, Payload(f, m[0])[0]); }
    AcceptedIffTerminated([f], m);
  }

  // The worked examples of the Protocol Buffers Encoding specification.

  const INT32_FIELD: Field := Field(1, Varint, Optional, 0, 0, 4, 0, 0, [], None)

  /** "A Simple Message": an int32 150; zero is not encoded. */
  lemma ExampleInt32()
    ensures Enc([INT32_FIELD], [Plain(Num(150))]) == [0x08, 0x96, 0x01]
    ensures Enc([INT32_FIELD], [Plain(Num(0))]) == []
  {
    assert EncVarint(150) == [0x96, 0x01];
    OneField(INT32_FIELD, Plain(Num(150)));
    OneField(INT32_FIELD, Plain(Num(0)));
    assert EncRecords(INT32_FIELD, [Num(150)][1..]) == [];
  }

  /** The wire type of a record is not compared with the type of its field. It only
      tells a packed array from one item of it. */
  lemma WireTypeIgnored(f: Field, x: Slot, v: nat, w: nat, s: seq<byte>)
    requires !(f.htype.Repeated? && Packable(f.ltype)) || (v == WT_STRING <==> w == WT_STRING)
    ensures DecSlot(f, x, v, s) == DecSlot(f, x, w, s)
  {
    hide DecValue, DecPacked;
  }

  /** An int32 with the wire type of a string: the length is read as the number. */
  lemma WireTypeExample()
    ensures DecodeFresh([INT32_FIELD], [0x0A, 0x05]) == Got([Plain(Num(5))], [])
    ensures DecodeFresh([INT32_FIELD], [0x08, 0x05]) == Got([Plain(Num(5))], [])
  {
    OneNumberRead(WT_STRING);
    OneNumberRead(WT_VARINT);
  }

  lemma FiveRead(w: nat)
    requires w < 8
    ensures DecTag([8 + w, 5]) == Key(1, w, [5]) && DecVarint64([5]) == Got(5, [])
  {
    hide Loop32;
    assert RawVarint([5], 10) == Got(5, []);
  }

  lemma FiveStored(w: nat)
    ensures DecSlot(INT32_FIELD, Plain(Num(0)), w, [5]) == Got(Plain(Num(5)), [])
  {
    FiveRead(0);
    hide DecVarint64, DecTag;
    assert SignedCast(5, 4) == 5;
    hide SignedCast;
    assert DecScalar(INT32_FIELD, [5]) == Got(Num(5), []);
  }

  lemma OneNumberRead(w: nat)
    requires w < 8
    ensures DecodeFresh([INT32_FIELD], [8 + w, 5]) == Got([Plain(Num(5))], [])
  {
    hide DecTag, DecSlot, DecVarint64, Defaults, NormalScalar;
    var fields, s, done := [INT32_FIELD], [8 + w, 5], [Plain(Num(5))];
    FiveRead(w);
    FiveStored(w);
    assert DefaultSlot(INT32_FIELD) == Plain(Num(0));
    DefaultsAt(fields, 0);
    assert fields[0] == INT32_FIELD && FindTag(fields, 1) == 0;
    assert Put(Defaults(fields), 0, Plain(Num(5))) == done;
    assert NextRecord(fields, Defaults(fields), {}, s) == Continue(done, {} + {0}, []);
    hide NextRecord;
    RunEmpty(fields, done, {} + {0});
    assert Run(fields, Defaults(fields), {}, s) == Good(done, {} + {0}, [], false);
    assert AllRequired(fields, {} + {0});
  }

  /** "Submessages": the same message in field 3. */
  lemma ExampleSubmessage()
    ensures var c := Field(3, Submessage, Optional, 4, -4, 4, 0, 0, [INT32_FIELD], None);
      Enc([c], [Flagged(true, Msg([Plain(Num(150))]))]) == [0x1A, 0x03, 0x08, 0x96, 0x01]
  {
    var c := Field(3, Submessage, Optional, 4, -4, 4, 0, 0, [INT32_FIELD], None);
    var v := Msg([Plain(Num(150))]);
    ExampleInt32();
    hide EncFrom, Enc;
    assert EncVarint(3) == [0x03] && EncVarint(26) == [0x1A];
    assert EncValue(c, v) == [0x03, 0x08, 0x96, 0x01];
    OneField(c, Flagged(true, v));
    assert EncRecords(c, [v][1..]) == [];
  }

  /** "Packed Repeated Fields": 3, 270 and 86942 in field 6. */
  lemma ExamplePacked()
    ensures var e := Field(6, Varint, Repeated, 4, -4, 4, 8, 0, [], None);
      Enc([e], [Counted([Num(3), Num(270), Num(86942)])]) == [0x32, 0x06, 0x03, 0x8E, 0x02, 0x9E, 0xA7, 0x05]
  {
    var e := Field(6, Varint, Repeated, 4, -4, 4, 8, 0, [], None);
    var vs := [Num(3), Num(270), Num(86942)];
    OneField(e, Counted(vs));
    PackedBytes(e);
    hide Enc, EncFrom, EncPacked;
    assert EncVarint(50) == [0x32] && EncVarint(6) == [0x06];
  }

  lemma PackedBytes(e: Field)
    requires e.ltype.Varint?
    ensures EncPacked(e, [Num(3), Num(270), Num(86942)]) == [0x03, 0x8E, 0x02, 0x9E, 0xA7, 0x05]
  {
    assert EncVarint(270) == [0x8E, 0x02];
    assert EncVarint(679) == [0xA7, 0x05];
    assert EncVarint(86942) == [0x9E, 0xA7, 0x05];
    var vs := [Num(3), Num(270), Num(86942)];
    assert vs[1..] == [Num(270), Num(86942)] && vs[1..][1..] == [Num(86942)];
    assert EncPacked(e, [Num(86942)][1..]) == [];
    assert EncPacked(e, [Num(270), Num(86942)]) == [0x8E, 0x02, 0x9E, 0xA7, 0x05];
  }

  lemma OneField(f: Field, x: Slot)
    requires f.slot == 0
    ensures Enc([f], [x]) == EncSlot(f, x)
  {
    assert EncFrom([f], [x], 1) == [];
  }

  lemma DecodeNormal(fields: seq<Field>, a: seq<Slot>, s: seq<byte>)
    requires WellFormed(fields) && Normal(fields, a) && Decode(fields, a, s).Got?
    ensures Normal(fields, Decode(fields, a, s).value)
  {
    RunNormal(fields, a, {}, s);
  }

  /** Whatever bytes are accepted, the decoded message is within its capacities, can
      be encoded, and encoding and decoding it gives it back unchanged. */
  lemma DecodedIsStable(fields: seq<Field>, s: seq<byte>)
    requires WellFormed(fields) && DecodeFresh(fields, s).Got?
    ensures var m := DecodeFresh(fields, s).value;
      && Normal(fields, m) && Typed(fields, m) && Encodable(fields, m) && Terminated(fields, m)
      && (|Enc(fields, m)| < TWO32 ==> DecodeFresh(fields, Enc(fields, m)) == Got(m, []))
  {
    hide Enc, Decode, Normal, Typed, Encodable, Terminated, MergeMsg;
    var m := DecodeFresh(fields, s).value;
    DefaultsNormal(fields);
    DecodeNormal(fields, Defaults(fields), s);
    NormalIsEncodable(fields, m);
    if |Enc(fields, m)| < TWO32 {
      DefaultsFit(fields, m);
      DefaultsShaped(fields);
      DecodeEncoded(fields, Defaults(fields), m);
      NormalUnchanged(fields, m);
    }
  }
}
