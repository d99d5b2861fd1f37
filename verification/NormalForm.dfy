/**
 The messages the decoder produces: their form is kept by every decoding step, and
 they are exactly reproduced by encoding and decoding them again.
 */
module NormalForm {
  import opened Wrappers
  import opened Bits
  import opened Varint
  import opened Descriptor
  import opened Wire
  import opened Merge

  // ----- Normal messages -----

  ghost predicate NormalValue(f: Field, v: Value)
    decreases f, 0
  {
    if f.ltype.Submessage? then v.Msg? && Normal(f.sub, v.slots) else NormalScalar(f, v)
  }

  /** Data within its capacity; absent data at its default. */
  ghost predicate NormalSlot(f: Field, x: Slot)
    decreases f, 1
  {
    && SlotKind(f, x)
    && match x
       case Plain(v) => NormalValue(f, v)
       case Flagged(has, v) => NormalValue(f, v) && (!has ==> v == DefaultValue(f))
       case Counted(items) =>
         |items| <= f.arraySize && (forall k :: 0 <= k < |items| ==> NormalValue(f, items[k]))
       case Union(which, v) => (which == f.tag ==> NormalValue(f, v)) && (which == 0 ==> v == UNUSED)
  }

  /** The which_ member of every oneof names one of its fields, or none. */
  ghost predicate UnionsKnown(fields: seq<Field>, m: seq<Slot>) {
    forall i :: 0 <= i < |fields| && fields[i].htype.OneOf? ==> UnionKnown(fields, At(m, fields[i].slot), fields[i].slot)
  }

  ghost predicate UnionKnown(fields: seq<Field>, x: Slot, slot: nat) {
    x.Union? &&
    (x.which == 0 || exists j :: 0 <= j < |fields| && fields[j].slot == slot && fields[j].tag == x.which)
  }

  ghost predicate Normal(fields: seq<Field>, m: seq<Slot>)
    decreases fields, 0
  {
    && |m| == NumSlots(fields)
    && (forall i :: 0 <= i < |fields| ==> NormalSlot(fields[i], At(m, fields[i].slot)))
    && UnionsKnown(fields, m)
  }

  /** Normal messages can be encoded, and their strings are terminated. */
  lemma NormalIsEncodable(fields: seq<Field>, m: seq<Slot>)
    requires WellFormed(fields) && Normal(fields, m)
    ensures Typed(fields, m) && Encodable(fields, m) && Terminated(fields, m)
    decreases fields, 0
  {
    forall i | 0 <= i < |fields|
      ensures var f, x := fields[i], At(m, fields[i].slot);
        TypedSlot(f, x) && EncodableSlot(f, x) && TerminatedSlot(f, x)
    {
      var f, x := fields[i], At(m, fields[i].slot);
      assert WellFormedField(f) && NormalSlot(f, x);
      NormalSlotIsEncodable(f, x);
    }
  }

  lemma NormalSlotIsEncodable(f: Field, x: Slot)
    requires WellFormedField(f) && NormalSlot(f, x)
    ensures TypedSlot(f, x) && EncodableSlot(f, x) && TerminatedSlot(f, x)
    decreases f, 1
  {
    hide IsZero;
    var vs := Payload(f, x);
    if x.Plain? { NormalValueIsEncodable(f, x.v); }
    forall k | 0 <= k < |vs|
      ensures TypedValue(f, vs[k]) && EncodableValue(f, vs[k]) && TerminatedValue(f, vs[k])
    {
      assert NormalValue(f, vs[k]);
      NormalValueIsEncodable(f, vs[k]);
    }
  }

  lemma NormalValueIsEncodable(f: Field, v: Value)
    requires WellFormedField(f) && NormalValue(f, v)
    ensures TypedValue(f, v) && EncodableValue(f, v) && TerminatedValue(f, v)
    decreases f, 0
  {
    if f.ltype.Submessage? {
      NormalIsEncodable(f.sub, v.slots);
    }
  }

  // ----- Initialisation -----

  /** `pb_message_set_to_defaults` sets every slot, whatever it held. */
  lemma {:induction false} SetDefaultsAt(fields: seq<Field>, m: seq<Slot>, i: nat, j: nat)
    requires WellLaidOut(fields) && i <= |fields| && j < |fields| && |m| == NumSlots(fields)
    requires j >= i || At(m, fields[j].slot) == DefaultSlot(fields[j])
    ensures At(SetDefaults(fields, m, i), fields[j].slot) == DefaultSlot(fields[j])
    decreases |fields| - i
  {
    hide DefaultValue;
    if i < |fields| {
      SlotInRange(fields, j);
      if i != j && fields[i].slot == fields[j].slot { SlotsShared(fields, i, j); }
      SetDefaultsAt(fields, Put(m, fields[i].slot, DefaultSlot(fields[i])), i + 1, j);
    }
  }

  lemma DefaultsAt(fields: seq<Field>, j: nat)
    requires WellLaidOut(fields) && j < |fields|
    ensures At(Defaults(fields), fields[j].slot) == DefaultSlot(fields[j])
  {
    hide DefaultSlot, SetDefaults;
    SetDefaultsAt(fields, Blank(NumSlots(fields)), 0, j);
  }

  /** Initialisation does not depend on what the structure held before. */
  lemma SetDefaultsForgets(fields: seq<Field>, m: seq<Slot>)
    requires WellLaidOut(fields) && |m| == NumSlots(fields)
    ensures SetDefaults(fields, m, 0) == Defaults(fields)
  {
    hide SetDefaults, DefaultSlot;
    var a, b := SetDefaults(fields, m, 0), Defaults(fields);
    forall k | 0 <= k < |a| ensures a[k] == b[k] {
      var j := SlotsCovered(fields, k);
      SetDefaultsAt(fields, m, 0, j);
      DefaultsAt(fields, j);
    }
  }

  lemma DefaultsNormal(fields: seq<Field>)
    requires WellFormed(fields)
    ensures Normal(fields, Defaults(fields))
    decreases fields, 0
  {
    var m := Defaults(fields);
    forall i | 0 <= i < |fields| ensures NormalSlot(fields[i], At(m, fields[i].slot)) {
      assert WellFormedField(fields[i]);
      DefaultsAt(fields, i);
      DefaultNormal(fields[i]);
    }
    forall i | 0 <= i < |fields| && fields[i].htype.OneOf?
      ensures UnionKnown(fields, At(m, fields[i].slot), fields[i].slot)
    {
      DefaultsAt(fields, i);
    }
  }

  lemma DefaultNormal(f: Field)
    requires WellFormedField(f)
    ensures NormalValue(f, DefaultValue(f)) && NormalSlot(f, DefaultSlot(f))
    decreases f, 0
  {
    if f.ltype.Submessage? { DefaultsNormal(f.sub); }
  }

  // ----- Decoding keeps messages normal -----

  lemma ScalarNormal(f: Field, s: seq<byte>)
    requires WellFormedField(f) && !f.ltype.Submessage? && DecScalar(f, s).Got?
    ensures NormalScalar(f, DecScalar(f, s).value)
  {
    hide DecVarint32, DecVarint64, RawVarint, FromLittleEndian, Pow2;
    Pow2Words();
    match f.ltype
    case Varint =>
      var x := SignedCast(DecVarint64(s).value, if f.dataSize == 8 then 8 else 4);
      SignedCastKeeps(x, f.dataSize);
      hide SignedCast;
    case SVarint =>
      SignedCastKeeps(UnZigZag(DecVarint64(s).value), f.dataSize);
      hide SignedCast;
    case _ =>
  }

  lemma {:induction false} PackedNormal(f: Field, items: seq<Value>, s: seq<byte>)
    requires WellFormedField(f) && NormalSlot(f, Counted(items)) && f.htype.Repeated?
    requires DecPacked(f, items, f.arraySize, s).Got?
    ensures NormalSlot(f, Counted(DecPacked(f, items, f.arraySize, s).value))
    decreases |s|
  {
    if s != [] {
      hide DecScalar, NormalScalar;
      ScalarNormal(f, s);
      var v := DecScalar(f, s).value;
      StoreNormal(f, Counted(items), v);
      PackedNormal(f, items + [v], DecScalar(f, s).rest);
    }
  }

  lemma StoreNormal(f: Field, x: Slot, v: Value)
    requires WellFormedField(f) && NormalSlot(f, x) && NormalValue(f, v)
    requires f.htype.Repeated? ==> |x.items| < f.arraySize
    ensures NormalSlot(f, StoreValue(f, x, v))
  {
    hide NormalValue;
  }

  lemma ValueNormal(f: Field, cur: Value, s: seq<byte>)
    requires WellFormedField(f) && DecValue(f, cur, s).Got?
    requires f.ltype.Submessage? ==> NormalValue(f, cur)
    ensures NormalValue(f, DecValue(f, cur, s).value)
    decreases f, 0
  {
    if f.ltype.Submessage? {
      var body := TakeDelimited(s).value;
      RunNormal(f.sub, cur.slots, {}, body);
      hide TakeDelimited, Run;
    } else {
      ScalarNormal(f, s);
    }
  }

  lemma SlotNormal(f: Field, x: Slot, wireType: nat, s: seq<byte>)
    requires WellFormedField(f) && NormalSlot(f, x) && DecSlot(f, x, wireType, s).Got?
    ensures NormalSlot(f, DecSlot(f, x, wireType, s).value)
    ensures f.htype.OneOf? ==> DecSlot(f, x, wireType, s).value.which == f.tag
    decreases f, 1
  {
    hide TakeDelimited, DecPacked, DecValue, NormalValue;
    if f.htype.Repeated? && wireType == WT_STRING && Packable(f.ltype) {
      PackedNormal(f, x.items, TakeDelimited(s).value);
    } else {
      DefaultNormal(f);
      var cur := Current(f, x);
      ValueNormal(f, cur, s);
      StoreNormal(f, x, DecValue(f, cur, s).value);
    }
  }

  lemma PutNormal(fields: seq<Field>, m: seq<Slot>, i: nat, x: Slot)
    requires WellFormed(fields) && Normal(fields, m) && i < |fields|
    requires NormalSlot(fields[i], x) && (fields[i].htype.OneOf? ==> x.which == fields[i].tag)
    ensures Normal(fields, Put(m, fields[i].slot, x))
  {
    hide NormalValue;
    var m' := Put(m, fields[i].slot, x);
    SlotInRange(fields, i);
    forall j | 0 <= j < |fields| ensures NormalSlot(fields[j], At(m', fields[j].slot)) {
      SlotInRange(fields, j);
      if j != i && fields[j].slot == fields[i].slot {
        SlotsShared(fields, i, j);
        assert fields[j].tag != fields[i].tag;
        assert WellFormedField(fields[i]);
      }
    }
    forall j | 0 <= j < |fields| && fields[j].htype.OneOf?
      ensures UnionKnown(fields, At(m', fields[j].slot), fields[j].slot)
    {
      SlotInRange(fields, j);
      assert UnionKnown(fields, At(m, fields[j].slot), fields[j].slot);
      if fields[j].slot == fields[i].slot && i != j { SlotsShared(fields, i, j); }
    }
  }

  /** Every decoding run keeps a message normal: counts, strings and bytes within
      capacity, absent fields at their default, at most one field of a oneof set. */
  lemma {:induction false} RunNormal(fields: seq<Field>, m: seq<Slot>, seen: set<nat>, s: seq<byte>)
    requires WellFormed(fields) && Normal(fields, m) && Run(fields, m, seen, s).Good?
    ensures Normal(fields, Run(fields, m, seen, s).m)
    decreases fields, |s|
  {
    hide NextRecord, Normal, WellFormed;
    if s != [] && NextRecord(fields, m, seen, s).Continue? {
      TurnNormal(fields, m, seen, s);
      var t := NextRecord(fields, m, seen, s);
      RunNormal(fields, t.m, t.seen, t.rest);
    }
  }

  lemma NormalAt(fields: seq<Field>, m: seq<Slot>, i: nat)
    requires WellFormed(fields) && Normal(fields, m) && i < |fields|
    ensures WellFormedField(fields[i]) && NormalSlot(fields[i], At(m, fields[i].slot))
  {
  }

  /** One turn of the record loop keeps a message normal. */
  lemma TurnNormal(fields: seq<Field>, m: seq<Slot>, seen: set<nat>, s: seq<byte>)
    requires WellFormed(fields) && Normal(fields, m) && s != [] && NextRecord(fields, m, seen, s).Continue?
    ensures Normal(fields, NextRecord(fields, m, seen, s).m)
    decreases fields, |s|, 0
  {
    hide DecTag, DecSlot, SkipField, DecVarint32, Normal, WellFormed, FindTag;
    var Key(tag, wireType, rest) := DecTag(s);
    var i := FindTag(fields, tag);
    if i < |fields| {
      var f := fields[i];
      NormalAt(fields, m, i);
      SlotNormal(f, At(m, f.slot), wireType, rest);
      PutNormal(fields, m, i, DecSlot(f, At(m, f.slot), wireType, rest).value);
    }
  }

  // ----- What a failed decode leaves -----

  ghost predicate IntactValue(f: Field, v: Value)
    decreases f, 0
  {
    f.ltype.Submessage? ==> v.Msg? && Intact(f.sub, v.slots)
  }

  /** Every member still is of its kind. A count is at most one too large; all items
      but the last one are as they were decoded. */
  ghost predicate IntactSlot(f: Field, x: Slot)
    decreases f, 1
  {
    && SlotKind(f, x)
    && match x
       case Plain(v) => IntactValue(f, v)
       case Flagged(_, v) => IntactValue(f, v)
       case Counted(items) =>
         |items| <= f.arraySize + 1 && (forall k :: 0 <= k < |items| - 1 ==> NormalValue(f, items[k]))
       case Union(which, v) => which == f.tag ==> IntactValue(f, v)
  }

  ghost predicate Intact(fields: seq<Field>, m: seq<Slot>)
    decreases fields, 0
  {
    && |m| == NumSlots(fields)
    && (forall i :: 0 <= i < |fields| ==> IntactSlot(fields[i], At(m, fields[i].slot)))
  }

  lemma NormalIntact(fields: seq<Field>, m: seq<Slot>)
    requires Normal(fields, m)
    ensures Intact(fields, m)
    decreases fields, 0
  {
    forall i | 0 <= i < |fields| ensures IntactSlot(fields[i], At(m, fields[i].slot)) {
      NormalSlotIntact(fields[i], At(m, fields[i].slot));
    }
  }

  lemma NormalSlotIntact(f: Field, x: Slot)
    requires NormalSlot(f, x)
    ensures IntactSlot(f, x)
    decreases f, 1
  {
    if x.Plain? || x.Flagged? || (x.Union? && x.which == f.tag) { NormalValueIntact(f, x.v); }
  }

  lemma NormalValueIntact(f: Field, v: Value)
    requires NormalValue(f, v)
    ensures IntactValue(f, v)
    decreases f, 0
  {
    if f.ltype.Submessage? { NormalIntact(f.sub, v.slots); }
  }

  /** A member left behind by a failed record does not touch the others. */
  lemma PutIntact(fields: seq<Field>, m: seq<Slot>, i: nat, x: Slot)
    requires WellFormed(fields) && Normal(fields, m) && i < |fields|
    requires IntactSlot(fields[i], x) && (fields[i].htype.OneOf? ==> x.which == fields[i].tag)
    ensures Intact(fields, Put(m, fields[i].slot, x))
  {
    hide NormalValue, IntactValue;
    var m' := Put(m, fields[i].slot, x);
    SlotInRange(fields, i);
    forall j | 0 <= j < |fields| ensures IntactSlot(fields[j], At(m', fields[j].slot)) {
      SlotInRange(fields, j);
      if j != i && fields[j].slot == fields[i].slot {
        SlotsShared(fields, i, j);
        assert fields[j].tag != fields[i].tag;
      } else if j != i {
        NormalSlotIntact(fields[j], At(m, fields[j].slot));
      }
    }
  }

  // ----- Room in a fresh structure -----

  /** Whatever can be encoded fits a freshly initialised structure. */
  lemma DefaultsFit(fields: seq<Field>, m: seq<Slot>)
    requires WellFormed(fields) && Encodable(fields, m)
    ensures Fits(fields, Defaults(fields), m)
    decreases fields, 0
  {
    var a := Defaults(fields);
    forall i | 0 <= i < |fields|
      ensures FitsSlot(fields[i], At(a, fields[i].slot), Payload(fields[i], At(m, fields[i].slot)))
    {
      var f, x := fields[i], At(m, fields[i].slot);
      assert WellFormedField(f) && EncodableSlot(f, x);
      DefaultsAt(fields, i);
      forall k | 0 <= k < |Payload(f, x)| ensures FitsValue(f, DefaultValue(f), Payload(f, x)[k]) {
        assert EncodableValue(f, Payload(f, x)[k]);
        if f.ltype.Submessage? { DefaultsFit(f.sub, MsgOf(Payload(f, x)[k])); }
      }
    }
  }

  /** A decoded structure can be merged into again. */
  lemma NormalIsShaped(fields: seq<Field>, m: seq<Slot>)
    requires WellFormed(fields) && Normal(fields, m)
    ensures Shaped(fields, m)
    decreases fields
  {
    forall i | 0 <= i < |fields| ensures ShapedSlot(fields[i], At(m, fields[i].slot)) {
      NormalAt(fields, m, i);
      var f, x := fields[i], At(m, fields[i].slot);
      if f.ltype.Submessage? {
        DefaultNormal(f);
        assert NormalValue(f, Current(f, x));
        NormalIsShaped(f.sub, MsgOf(Current(f, x)));
      }
    }
  }

  lemma DefaultsShaped(fields: seq<Field>)
    requires WellFormed(fields)
    ensures Shaped(fields, Defaults(fields))
  {
    DefaultsNormal(fields);
    NormalIsShaped(fields, Defaults(fields));
  }

  // ----- A merge, slot by slot -----

  lemma {:induction false} MergedUntouched(fields: seq<Field>, a: seq<Slot>, b: seq<Slot>, i: nat, slot: nat)
    requires i <= |fields|
    requires forall k :: i <= k < |fields| && fields[k].slot == slot ==> Payload(fields[k], At(b, slot)) == []
    ensures At(MergeFrom(fields, a, b, i), slot) == At(a, slot)
    decreases |fields| - i
  {
    hide Payload;
    if i < |fields| {
      var f := fields[i];
      var x := MergeAll(f, At(a, f.slot), Payload(f, At(b, f.slot)));
      MergedUntouched(fields, Put(a, f.slot, x), b, i + 1, slot);
    }
  }

  /** The slot of a field that alone has something to merge into it. */
  lemma {:induction false} MergedAt(fields: seq<Field>, a: seq<Slot>, b: seq<Slot>, i: nat, k: nat)
    requires WellLaidOut(fields) && i <= k < |fields| && |a| == NumSlots(fields)
    requires forall j :: i <= j < |fields| && j != k && fields[j].slot == fields[k].slot ==>
      Payload(fields[j], At(b, fields[k].slot)) == []
    ensures At(MergeFrom(fields, a, b, i), fields[k].slot) ==
            MergeAll(fields[k], At(a, fields[k].slot), Payload(fields[k], At(b, fields[k].slot)))
    decreases |fields| - i
  {
    hide Payload;
    var f := fields[i];
    var x := MergeAll(f, At(a, f.slot), Payload(f, At(b, f.slot)));
    SlotInRange(fields, k);
    if i < k {
      MergedAt(fields, Put(a, f.slot, x), b, i + 1, k);
    } else {
      MergedUntouched(fields, Put(a, f.slot, x), b, i + 1, f.slot);
    }
  }

  /** Of the fields that share the slot of field `k`, none but `k` is present. */
  lemma OnlyPayload(fields: seq<Field>, m: seq<Slot>, k: nat)
    requires WellFormed(fields) && k < |fields|
    requires fields[k].htype.OneOf? ==> At(m, fields[k].slot).Union? && At(m, fields[k].slot).which == fields[k].tag
    ensures forall j :: 0 <= j < |fields| && j != k && fields[j].slot == fields[k].slot ==>
      Payload(fields[j], At(m, fields[k].slot)) == []
  {
    forall j | 0 <= j < |fields| && j != k && fields[j].slot == fields[k].slot
      ensures Payload(fields[j], At(m, fields[k].slot)) == []
    {
      SlotsShared(fields, j, k);
      assert fields[j].tag != fields[k].tag;
    }
  }

  lemma {:induction false} MergeAllItems(f: Field, x: Slot, vs: seq<Value>)
    requires f.htype.Repeated? && x.Counted?
    ensures var y := MergeAll(f, x, vs);
      && y.Counted? && |y.items| == |x.items| + |vs| && y.items[..|x.items|] == x.items
      && (forall k :: 0 <= k < |vs| ==> y.items[|x.items| + k] == MergeValue(f, DefaultValue(f), vs[k]))
    decreases |vs|
  {
    hide MergeValue, DefaultValue;
    if vs != [] {
      var x' := StoreValue(f, x, MergeValue(f, Current(f, x), vs[0]));
      MergeAllItems(f, x', vs[1..]);
      var y := MergeAll(f, x, vs);
      assert y == MergeAll(f, x', vs[1..]);
      assert y.items[..|x.items|] == y.items[..|x'.items|][..|x.items|];
      assert y.items[|x.items|] == y.items[..|x'.items|][|x.items|];
      forall k | 0 <= k < |vs| ensures y.items[|x.items| + k] == MergeValue(f, DefaultValue(f), vs[k]) {
        if k > 0 { assert vs[k] == vs[1..][k - 1]; }
      }
    }
  }

  // ----- Normal messages survive unchanged -----

  lemma ZeroIsDefault(f: Field, v: Value)
    requires WellFormedField(f) && f.dflt.None? && NormalValue(f, v) && IsZero(f, v)
    ensures v == DefaultValue(f)
    decreases f, 0
  {
    if f.ltype.Submessage? { AllDefault(f.sub, v.slots); }
  }

  lemma {:induction false} DefaultSlots(fields: seq<Field>, m: seq<Slot>, i: nat)
    requires i <= |fields| && IsDefault(fields, m, i)
    ensures forall j :: i <= j < |fields| ==> IsDefaultSlot(fields[j], At(m, fields[j].slot))
    decreases |fields| - i
  {
    if i < |fields| { DefaultSlots(fields, m, i + 1); }
  }

  lemma AllDefault(fields: seq<Field>, m: seq<Slot>)
    requires WellFormed(fields) && Normal(fields, m) && IsDefault(fields, m, 0)
    ensures m == Defaults(fields)
    decreases fields, 0
  {
    var a := Defaults(fields);
    DefaultSlots(fields, m, 0);
    forall k | 0 <= k < |m| ensures m[k] == a[k] {
      var j := SlotsCovered(fields, k);
      DefaultsAt(fields, j);
      NormalAt(fields, m, j);
      var f := fields[j];
      assert IsDefaultSlot(f, m[k]);
      if f.htype.Optional? && f.sizeOffset == 0 { ZeroIsDefault(f, m[k].v); }
    }
  }

  lemma ValueUnchanged(f: Field, v: Value)
    requires WellFormedField(f) && NormalValue(f, v)
    ensures MergeValue(f, DefaultValue(f), v) == v
    decreases f, 0
  {
    if f.ltype.Submessage? { NormalUnchanged(f.sub, v.slots); }
  }

  lemma SlotUnchanged(f: Field, x: Slot)
    requires WellFormedField(f) && NormalSlot(f, x) && !f.htype.OneOf?
    ensures MergeAll(f, DefaultSlot(f), Payload(f, x)) == x
    decreases f, 1
  {
    hide MergeValue, DefaultValue, NormalValue, IsZero;
    match f.htype
    case Repeated =>
      MergeAllItems(f, DefaultSlot(f), x.items);
      forall k | 0 <= k < |x.items| ensures MergeValue(f, DefaultValue(f), x.items[k]) == x.items[k] {
        ValueUnchanged(f, x.items[k]);
      }
      assert MergeAll(f, DefaultSlot(f), Payload(f, x)).items == x.items;
    case Required =>
      ValueUnchanged(f, x.v);
    case Optional =>
      ValueUnchanged(f, x.v);
      if f.sizeOffset == 0 && IsZero(f, x.v) { ZeroIsDefault(f, x.v); }
  }

  /** Merging a normal message into a fresh structure reproduces it. */
  lemma NormalUnchanged(fields: seq<Field>, m: seq<Slot>)
    requires WellFormed(fields) && Normal(fields, m)
    ensures MergeMsg(fields, Defaults(fields), m) == m
    decreases fields, 0
  {
    var a := Defaults(fields);
    var r := MergeMsg(fields, a, m);
    forall k | 0 <= k < |m| ensures r[k] == m[k] {
      var j := SlotsCovered(fields, k);
      SlotBackToItself(fields, m, j);
    }
  }

  lemma SlotBackToItself(fields: seq<Field>, m: seq<Slot>, j: nat)
    requires WellFormed(fields) && Normal(fields, m) && j < |fields|
    ensures At(MergeMsg(fields, Defaults(fields), m), fields[j].slot) == At(m, fields[j].slot)
    decreases fields, 0, 0
  {
    hide MergeFrom, MergeValue, DefaultValue, NormalValue;
    var a, f := Defaults(fields), fields[j];
    var x := At(m, f.slot);
    DefaultsAt(fields, j);
    NormalAt(fields, m, j);
    if !f.htype.OneOf? {
      OnlyPayload(fields, m, j);
      MergedAt(fields, a, m, 0, j);
      SlotUnchanged(f, x);
    } else {
      assert UnionKnown(fields, x, f.slot);
      if x.which == 0 {
        forall k | 0 <= k < |fields| && fields[k].slot == f.slot ensures Payload(fields[k], x) == [] {
          assert WellFormedField(fields[k]);
          if k != j { SlotsShared(fields, k, j); }
        }
        MergedUntouched(fields, a, m, 0, f.slot);
      } else {
        var k :| 0 <= k < |fields| && fields[k].slot == f.slot && fields[k].tag == x.which;
        if k != j { SlotsShared(fields, k, j); }
        OnlyPayload(fields, m, k);
        MergedAt(fields, a, m, 0, k);
        NormalAt(fields, m, k);
        ValueUnchanged(fields[k], x.v);
      }
    }
  }
}
