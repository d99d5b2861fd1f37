/**
 The bytes of one field of every type, and of a message of several fields.
 */
module Examples {
  import opened Wrappers
  import opened Bits
  import opened Varint
  import opened Descriptor
  import opened Wire
  import opened Codec

  /** A required field number 1 of the given type. */
  function One(t: LType, size: nat): Field { Field(1, t, Required, 0, 0, size, 0, 0, [], None) }

  lemma OneRecord(f: Field, v: Value)
    requires f.htype.Required?
    ensures EncSlot(f, Plain(v)) == EncKey(f.tag, WireType(f.ltype)) + EncValue(f, v)
  {
    hide EncKey, EncValue;
    assert EncRecords(f, [v][1..]) == [];
  }

  lemma OneByte(v: nat)
    requires v < 128
    ensures EncVarint(v) == [v]
  {
  }

  lemma KeyByte(w: nat)
    requires w < 8
    ensures EncKey(1, w) == [8 + w]
  {
    OneByte(8 + w);
  }

  lemma BoolBytes()
    ensures EncSlot(One(Bool, 1), Plain(Num(1))) == [0x08, 0x01]
    ensures EncSlot(One(Bool, 1), Plain(Num(0))) == [0x08, 0x00]
  {
    hide EncKey, EncVarint;
    OneRecord(One(Bool, 1), Num(1));
    OneRecord(One(Bool, 1), Num(0));
    KeyByte(0);
    OneByte(1);
    OneByte(0);
  }

  lemma UnsignedBytes()
    ensures EncSlot(One(UVarint, 4), Plain(Num(2))) == [0x08, 0x02]
    ensures EncSlot(One(UVarint, 8), Plain(Num(300))) == [0x08, 0xAC, 0x02]
  {
    assert EncVarint(300) == [0xAC, 0x02];
    hide EncKey, EncVarint;
    OneRecord(One(UVarint, 4), Num(2));
    OneRecord(One(UVarint, 8), Num(300));
    KeyByte(0);
    OneByte(2);
  }

  /** A negative number takes ten bytes whatever the size of its field. */
  lemma NegativeBytes()
    ensures EncSlot(One(Varint, 4), Plain(Num(-2))) == [0x08, 0xFE] + [0xFF, 0xFF, 0xFF, 0xFF, 0xFF, 0xFF, 0xFF, 0xFF, 0x01]
  {
    hide EncKey;
    OneRecord(One(Varint, 4), Num(-2));
    KeyByte(0);
    assert -2 % TWO64 == 0xFFFF_FFFF_FFFF_FFFE;
    EncSignTail();
    hide EncVarint;
    Groups();
  }

  lemma Groups()
    ensures EncVarint(0xFFFF_FFFF_FFFF_FFFE) == [0xFE, 0xFF, 0xFF, 0xFF, 0xFF, 0xFF, 0xFF, 0xFF, 0xFF, 0x01]
  {
    EncSignTail();
    assert EncVarint(0xF_FFFF_FFFF) == [0xFF] + EncVarint(0x1FFF_FFFF);
    assert EncVarint(0x7FF_FFFF_FFFF) == [0xFF] + EncVarint(0xF_FFFF_FFFF);
    assert EncVarint(0x3_FFFF_FFFF_FFFF) == [0xFF] + EncVarint(0x7FF_FFFF_FFFF);
    assert EncVarint(0x1FF_FFFF_FFFF_FFFF) == [0xFF] + EncVarint(0x3_FFFF_FFFF_FFFF);
    assert EncVarint(0xFFFF_FFFF_FFFF_FFFE) == [0xFE] + EncVarint(0x1FF_FFFF_FFFF_FFFF);
  }

  /** "Signed Integers": -1 is written as 1, and 3600 as 7200. */
  lemma ZigZagBytes()
    ensures EncSlot(One(SVarint, 4), Plain(Num(-1))) == [0x08, 0x01]
    ensures EncSlot(One(SVarint, 4), Plain(Num(1))) == [0x08, 0x02]
    ensures EncSlot(One(SVarint, 8), Plain(Num(3600))) == [0x08, 0xA0, 0x38]
  {
    assert EncVarint(7200) == [0xA0, 0x38];
    hide EncKey, EncVarint;
    OneRecord(One(SVarint, 4), Num(-1));
    OneRecord(One(SVarint, 4), Num(1));
    OneRecord(One(SVarint, 8), Num(3600));
    KeyByte(0);
    OneByte(1);
    OneByte(2);
  }

  lemma Digit(v: nat, size: nat)
    requires size > 0
    ensures LittleEndian(v, size) == [v % 256] + LittleEndian(v / 256, size - 1)
  {
  }

  lemma FourDigits(more: nat)
    ensures LittleEndian(0x0403_0201, more + 4) == [0x01, 0x02, 0x03, 0x04] + LittleEndian(0, more)
  {
    hide LittleEndian;
    Digit(0x0403_0201, more + 4);
    Digit(0x04_0302, more + 3);
    Digit(0x0403, more + 2);
    Digit(0x04, more + 1);
  }

  lemma NoDigits()
    ensures LittleEndian(0, 0) == [] && LittleEndian(0, 4) == [0, 0, 0, 0]
  {
  }

  lemma FixedBytes()
    ensures EncSlot(One(Fixed32, 4), Plain(Num(0x0403_0201))) == [0x0D, 0x01, 0x02, 0x03, 0x04]
    ensures EncSlot(One(Fixed64, 8), Plain(Num(0x0403_0201))) == [0x09, 0x01, 0x02, 0x03, 0x04, 0x00, 0x00, 0x00, 0x00]
  {
    hide EncKey, LittleEndian;
    OneRecord(One(Fixed32, 4), Num(0x0403_0201));
    OneRecord(One(Fixed64, 8), Num(0x0403_0201));
    KeyByte(5);
    KeyByte(1);
    FourDigits(0);
    FourDigits(4);
    NoDigits();
  }

  lemma LengthBytes()
    ensures EncSlot(One(Bytes, 8), Plain(Str([0xAA, 0x00]))) == [0x0A, 0x02, 0xAA, 0x00]
    ensures EncSlot(One(String, 8), Plain(Str([0x68, 0x69]))) == [0x0A, 0x02, 0x68, 0x69]
    ensures EncSlot(One(FixedLengthBytes, 2), Plain(Str([0x01, 0x02]))) == [0x0A, 0x02, 0x01, 0x02]
  {
    hide EncKey, EncVarint;
    OneRecord(One(Bytes, 8), Str([0xAA, 0x00]));
    OneRecord(One(String, 8), Str([0x68, 0x69]));
    OneRecord(One(FixedLengthBytes, 2), Str([0x01, 0x02]));
    KeyByte(2);
    OneByte(2);
  }

  // ----- Several fields -----

  lemma {:induction false} FromExtends(fields: seq<Field>, g: Field, m: seq<Slot>, i: nat)
    requires i <= |fields|
    ensures EncFrom(fields + [g], m, i) == EncFrom(fields, m, i) + EncSlot(g, At(m, g.slot))
    decreases |fields| - i
  {
    hide EncSlot;
    if i < |fields| {
      FromExtends(fields, g, m, i + 1);
    } else {
      assert EncFrom(fields + [g], m, i + 1) == [];
    }
  }

  /** Fields are written in the order of the descriptor. */
  lemma WrittenInOrder(fields: seq<Field>, g: Field, m: seq<Slot>)
    ensures Enc([], m) == []
    ensures Enc(fields + [g], m) == Enc(fields, m) + EncSlot(g, At(m, g.slot))
  {
    hide EncSlot, EncFrom;
    FromExtends(fields, g, m, 0);
    NoFields(m);
  }

  lemma NoFields(m: seq<Slot>)
    ensures EncFrom([], m, 0) == []
  {
  }

  /** The field `qos_tier` of a log request: an optional enum in field 9. */
  lemma EnumExample()
    ensures var f := Field(9, UVarint, Optional, 4, -4, 4, 0, 0, [], None);
      Enc([f], [Flagged(true, Num(2))]) == [0x48, 0x02] && Enc([f], [Flagged(false, Num(2))]) == []
  {
    var f := Field(9, UVarint, Optional, 4, -4, 4, 0, 0, [], None);
    OneField(f, Flagged(true, Num(2)));
    OneField(f, Flagged(false, Num(2)));
    assert EncRecords(f, [Num(2)][1..]) == [];
    OneByte(0x48);
    OneByte(2);
  }
}
