/**
 The decoder proper (`pb_decode.c`), on streams and structures updated in place.
 Each method is proved to compute the wire format function it is named after; the
 bitmap of required fields is proved to implement `AllRequired`.
 */
module Decoder {
  import opened Wrappers
  import opened Bits
  import opened Varint
  import opened Descriptor
  import opened Wire
  import opened FieldIters
  import opened RequiredFields
  import opened IStreams
  import Merge
  import NF = NormalForm
  import Framing = Records

  /** A C structure that a descriptor describes. */
  class Struct {
    var slots: seq<Slot>

    constructor (slots: seq<Slot>)
      ensures this.slots == slots
    {
      this.slots := slots;
    }
  }

  // ----- Initialisation -----

  /** `pb_message_set_to_defaults` with `pb_field_set_to_default` */
  method MessageSetToDefaults(fields: seq<Field>, dest: Struct)
    requires WellFormed(fields)
    modifies dest
    ensures dest.slots == SetDefaults(fields, old(dest.slots), 0)
    decreases fields
  {
    var iter := NewIter(fields);
    if iter.Tag() == 0 {
      return;
    }
    while true
      invariant iter.Valid() && iter.fields == fields && iter.pos < |fields|
      invariant fresh(iter)
      invariant SetDefaults(fields, dest.slots, iter.pos) == SetDefaults(fields, old(dest.slots), 0)
      decreases |fields| - iter.pos
    {
      var f := fields[iter.pos];
      assert WellFormedField(f);
      var x;
      match f.htype {
        case Required => { var v := InitialData(f); x := Plain(v); }
        case Optional => {
          var v := InitialData(f);
          x := if f.sizeOffset != 0 then Flagged(false, v) else Plain(v);
        }
        case Repeated => { x := Counted([]); }
        case OneOf => { x := Union(0, UNUSED); }
      }
      dest.slots := Put(dest.slots, f.slot, x);
      var more := iter.Next();
      if !more {
        return;
      }
    }
  }

  /** The data part: defaults of the submessage, the default value, or zeros. */
  method InitialData(f: Field) returns (v: Value)
    requires WellFormedField(f)
    ensures v == DefaultValue(f)
    decreases f
  {
    match f.ltype {
      case Submessage => {
        var sub := new Struct(Blank(NumSlots(f.sub)));
        MessageSetToDefaults(f.sub, sub);
        v := Msg(sub.slots);
      }
      case _ => {
        if f.dflt.Some? {
          v := f.dflt.value;
        } else if f.ltype.Bytes? || f.ltype.String? {
          v := Str([]);
        } else if f.ltype.FixedLengthBytes? {
          v := Str(Zeros(f.dataSize));
        } else {
          v := Num(0);
        }
      }
    }
  }

  method NewIter(fields: seq<Field>) returns (iter: FieldIter)
    requires WellFormed(fields)
    ensures fresh(iter) && iter.Valid() && iter.fields == fields && iter.pos == 0
  {
    forall i | 0 <= i < |fields| ensures fields[i].tag != 0 { assert WellFormedField(fields[i]); }
    iter := new FieldIter(fields, 0);
  }

  // ----- Field decoders -----

  method DecBool(stream: IStream, f: Field) returns (ok: bool, v: Value)
    requires stream.Valid() && f.ltype.Bool?
    modifies stream
    ensures stream.Valid() && stream.End() == old(stream.End())
    ensures ok <==> DecScalar(f, old(stream.Contents())).Got?
    ensures ok ==> DecScalar(f, old(stream.Contents())) == Got(v, stream.Contents())
  {
    hide DecVarint32;
    var value, eof;
    ok, value, eof := stream.DecodeVarint32();
    v := Num(if value != 0 then 1 else 0);
  }

  method DecVarint(stream: IStream, f: Field) returns (ok: bool, v: Value)
    requires stream.Valid() && f.ltype.Varint?
    modifies stream
    ensures stream.Valid() && stream.End() == old(stream.End())
    ensures ok <==> DecScalar(f, old(stream.Contents())).Got?
    ensures ok ==> DecScalar(f, old(stream.Contents())) == Got(v, stream.Contents())
  {
    hide DecVarint64, SignedCast;
    v := UNUSED;
    var value;
    ok, value := stream.DecodeVarint();
    if !ok {
      return;
    }
    var svalue, clamped;
    if f.dataSize == 8 {
      svalue := SignedCast(value, 8);
    } else {
      svalue := SignedCast(value, 4);
    }
    if f.dataSize == 8 {
      clamped := SignedCast(svalue, 8);
    } else if f.dataSize == 4 {
      clamped := SignedCast(svalue, 4);
    } else if f.dataSize == 2 {
      clamped := SignedCast(svalue, 2);
    } else if f.dataSize == 1 {
      clamped := SignedCast(svalue, 1);
    } else {
      ok := false;
      return;
    }
    v := Num(clamped);
    ok := clamped == svalue;
  }

  method DecUVarint(stream: IStream, f: Field) returns (ok: bool, v: Value)
    requires stream.Valid() && f.ltype.UVarint?
    modifies stream
    ensures stream.Valid() && stream.End() == old(stream.End())
    ensures ok <==> DecScalar(f, old(stream.Contents())).Got?
    ensures ok ==> DecScalar(f, old(stream.Contents())) == Got(v, stream.Contents())
  {
    hide DecVarint64;
    v := UNUSED;
    var value;
    ok, value := stream.DecodeVarint();
    if !ok {
      return;
    }
    var clamped;
    if f.dataSize == 8 {
      clamped := value % TWO64;
    } else if f.dataSize == 4 {
      clamped := value % TWO32;
    } else if f.dataSize == 2 {
      clamped := value % 0x1_0000;
    } else if f.dataSize == 1 {
      clamped := value % 0x100;
    } else {
      ok := false;
      return;
    }
    v := Num(clamped);
    ok := clamped == value;
  }

  /** `pb_decode_svarint`: the unsigned complement is cast to a signed word. */
  method DecodeSVarint(stream: IStream) returns (ok: bool, dest: int)
    requires stream.Valid()
    modifies stream
    ensures stream.Valid() && stream.End() == old(stream.End())
    ensures ok <==> DecVarint64(old(stream.Contents())).Got?
    ensures ok ==> dest == UnZigZag(DecVarint64(old(stream.Contents())).value)
    ensures ok ==> stream.Contents() == DecVarint64(old(stream.Contents())).rest
  {
    hide DecVarint64;
    dest := 0;
    var value;
    ok, value := stream.DecodeVarint();
    if !ok {
      return;
    }
    if value % 2 == 1 {
      dest := SignedCast(TWO64 - 1 - value / 2, 8);
    } else {
      dest := SignedCast(value / 2, 8);
    }
  }

  method DecSVarint(stream: IStream, f: Field) returns (ok: bool, v: Value)
    requires stream.Valid() && f.ltype.SVarint?
    modifies stream
    ensures stream.Valid() && stream.End() == old(stream.End())
    ensures ok <==> DecScalar(f, old(stream.Contents())).Got?
    ensures ok ==> DecScalar(f, old(stream.Contents())) == Got(v, stream.Contents())
  {
    hide DecVarint64, SignedCast, UnZigZag;
    v := UNUSED;
    var value;
    ok, value := DecodeSVarint(stream);
    if !ok {
      return;
    }
    var clamped;
    if f.dataSize == 8 {
      clamped := SignedCast(value, 8);
    } else if f.dataSize == 4 {
      clamped := SignedCast(value, 4);
    } else if f.dataSize == 2 {
      clamped := SignedCast(value, 2);
    } else if f.dataSize == 1 {
      clamped := SignedCast(value, 1);
    } else {
      ok := false;
      return;
    }
    v := Num(clamped);
    ok := clamped == value;
  }

  /** `pb_decode_fixed32` */
  method DecFixed32(stream: IStream, f: Field) returns (ok: bool, v: Value)
    requires stream.Valid() && f.ltype.Fixed32?
    modifies stream
    ensures stream.Valid() && stream.End() == old(stream.End())
    ensures ok <==> DecScalar(f, old(stream.Contents())).Got?
    ensures ok ==> DecScalar(f, old(stream.Contents())) == Got(v, stream.Contents())
  {
    v := UNUSED;
    var bytes := new byte[4];
    ok := stream.Read(bytes, 4);
    if !ok {
      return;
    }
    hide FromLittleEndian;
    FourBytes(bytes[..]);
    NoBytes(bytes[4..]);
    assert bytes[..][4..] == bytes[4..] && bytes[..4] == bytes[..];
    v := Num(Word32(bytes[0], bytes[1], bytes[2], bytes[3]));
  }

  lemma NoBytes(s: seq<byte>)
    requires s == []
    ensures FromLittleEndian(s) == 0
  {
  }

  /** Four bytes shifted into their places. */
  function Word32(b0: nat, b1: nat, b2: nat, b3: nat): nat {
    b0 + b1 * 0x100 + b2 * 0x1_0000 + b3 * 0x100_0000
  }

  lemma FourBytes(s: seq<byte>)
    requires |s| >= 4
    ensures FromLittleEndian(s) == Word32(s[0], s[1], s[2], s[3]) + TWO32 * FromLittleEndian(s[4..])
  {
    assert s[1..][1..][1..][1..] == s[4..];
    var t: nat := FromLittleEndian(s[4..]);
    var b1: nat, b2: nat, b3: nat := s[1], s[2], s[3];
    assert FromLittleEndian(s[1..][1..][1..]) == b3 + 0x100 * t;
    assert FromLittleEndian(s[1..][1..]) == b2 + 0x100 * b3 + 0x1_0000 * t;
    assert FromLittleEndian(s[1..]) == b1 + 0x100 * b2 + 0x1_0000 * b3 + 0x100_0000 * t;
  }

  /** `pb_decode_fixed64` */
  method DecFixed64(stream: IStream, f: Field) returns (ok: bool, v: Value)
    requires stream.Valid() && f.ltype.Fixed64?
    modifies stream
    ensures stream.Valid() && stream.End() == old(stream.End())
    ensures ok <==> DecScalar(f, old(stream.Contents())).Got?
    ensures ok ==> DecScalar(f, old(stream.Contents())) == Got(v, stream.Contents())
  {
    v := UNUSED;
    var bytes := new byte[8];
    ok := stream.Read(bytes, 8);
    if !ok {
      return;
    }
    hide FromLittleEndian;
    FourBytes(bytes[..]);
    FourBytes(bytes[4..]);
    NoBytes(bytes[8..]);
    assert bytes[..][4..] == bytes[4..] && bytes[4..][4..] == bytes[8..] && bytes[..8] == bytes[..];
    v := Num(Word32(bytes[0], bytes[1], bytes[2], bytes[3]) +
             TWO32 * Word32(bytes[4], bytes[5], bytes[6], bytes[7]));
  }

  method DecBytes(stream: IStream, f: Field) returns (ok: bool, v: Value)
    requires stream.Valid() && f.ltype.Bytes?
    modifies stream
    ensures stream.Valid() && stream.End() == old(stream.End())
    ensures ok <==> DecScalar(f, old(stream.Contents())).Got?
    ensures ok ==> DecScalar(f, old(stream.Contents())) == Got(v, stream.Contents())
  {
    hide DecVarint32;
    v := UNUSED;
    var size, eof;
    ok, size, eof := stream.DecodeVarint32();
    if !ok {
      return;
    }
    if size > PB_SIZE_MAX {
      ok := false;
      return;
    }
    var allocSize := size + BYTES_HEADER;
    if allocSize > f.dataSize {
      ok := false;
      return;
    }
    var dest := new byte[size];
    ok := stream.Read(dest, size);
    assert dest[..size] == dest[..];
    v := Str(dest[..]);
  }

  method DecString(stream: IStream, f: Field) returns (ok: bool, v: Value)
    requires stream.Valid() && f.ltype.String?
    modifies stream
    ensures stream.Valid() && stream.End() == old(stream.End())
    ensures ok <==> DecScalar(f, old(stream.Contents())).Got?
    ensures ok ==> DecScalar(f, old(stream.Contents())) == Got(v, stream.Contents())
  {
    hide DecVarint32, UpToNul, Zeros;
    v := UNUSED;
    DecStringSteps(f, stream.Contents());
    hide DecScalar, Take;
    var size, eof;
    ok, size, eof := stream.DecodeVarint32();
    if !ok {
      return;
    }
    var allocSize := (size + 1) % TWO32;
    if allocSize < size || allocSize > f.dataSize {
      ok := false;
      return;
    }
    var dest := new byte[allocSize];
    ok := stream.Read(dest, size);
    ghost var read := dest[..size];
    dest[size] := 0;
    assert dest[..] == read + [0];
    UpToNulTerminated(read);
    v := Str(UpToNul(dest[..]));
  }

  lemma DecStringSteps(f: Field, s: seq<byte>)
    requires f.ltype.String?
    ensures DecVarint32(s).Fail? ==> DecScalar(f, s).Fail?
    ensures DecVarint32(s).Got? ==>
      var n := DecVarint32(s).value;
      var p := Take(DecVarint32(s).rest, n);
      if (n + 1) % TWO32 < n || (n + 1) % TWO32 > f.dataSize || p.Fail? then DecScalar(f, s).Fail?
      else DecScalar(f, s) == Got(Str(UpToNul(p.value)), p.rest)
  {
    hide DecVarint32, UpToNul, Take;
  }

  lemma {:induction false} UpToNulTerminated(s: seq<byte>)
    ensures UpToNul(s + [0]) == UpToNul(s)
  {
    if s != [] && s[0] != 0 {
      assert (s + [0])[1..] == s[1..] + [0];
      UpToNulTerminated(s[1..]);
    }
  }

  method DecFixedLengthBytes(stream: IStream, f: Field) returns (ok: bool, v: Value)
    requires stream.Valid() && f.ltype.FixedLengthBytes?
    modifies stream
    ensures stream.Valid() && stream.End() == old(stream.End())
    ensures ok <==> DecScalar(f, old(stream.Contents())).Got?
    ensures ok ==> DecScalar(f, old(stream.Contents())) == Got(v, stream.Contents())
  {
    hide DecVarint32;
    v := UNUSED;
    var size, eof;
    ok, size, eof := stream.DecodeVarint32();
    if !ok {
      return;
    }
    if size > PB_SIZE_MAX {
      ok := false;
      return;
    }
    if size == 0 {
      v := Str(Zeros(f.dataSize));
      return;
    }
    if size != f.dataSize {
      ok := false;
      return;
    }
    var dest := new byte[f.dataSize];
    ok := stream.Read(dest, f.dataSize);
    assert dest[..size] == dest[..];
    v := Str(dest[..]);
  }

  /** The `PB_DECODERS` table, except its submessage entry. */
  method DecodeScalar(stream: IStream, f: Field) returns (ok: bool, v: Value)
    requires stream.Valid() && !f.ltype.Submessage?
    modifies stream
    ensures stream.Valid() && stream.End() == old(stream.End())
    ensures ok <==> DecScalar(f, old(stream.Contents())).Got?
    ensures ok ==> DecScalar(f, old(stream.Contents())) == Got(v, stream.Contents())
  {
    hide DecScalar;
    match f.ltype {
      case Bool => { ok, v := DecBool(stream, f); }
      case Varint => { ok, v := DecVarint(stream, f); }
      case UVarint => { ok, v := DecUVarint(stream, f); }
      case SVarint => { ok, v := DecSVarint(stream, f); }
      case Fixed32 => { ok, v := DecFixed32(stream, f); }
      case Fixed64 => { ok, v := DecFixed64(stream, f); }
      case Bytes => { ok, v := DecBytes(stream, f); }
      case String => { ok, v := DecString(stream, f); }
      case FixedLengthBytes => { ok, v := DecFixedLengthBytes(stream, f); }
      case Submessage => { assert false; }
    }
  }

  // ----- Fields -----

  /** Array entries are initialised, other submessages already are and get merged
      into. */
  method DecodeChild(sub: IStream, f: Field, cur: Value) returns (status: bool, slots: seq<Slot>)
    requires sub.Valid() && f.ltype.Submessage? && WellFormedField(f)
    modifies sub
    ensures var base := if f.htype.Repeated? then Defaults(f.sub) else MsgOf(cur);
      var want := Wire.Decode(f.sub, base, old(sub.Contents()));
      && (status <==> want.Got?)
      && (status ==> sub.End() == old(sub.End()) && slots == want.value)
      && (NF.Normal(f.sub, base) ==> NF.Intact(f.sub, slots))
    ensures sub.Valid() && sub.End() <= old(sub.End())
    decreases f, 0
  {
    hide Wire.Decode, SetDefaults;
    var dest;
    if f.htype.Repeated? {
      dest := new Struct(Blank(NumSlots(f.sub)));
      status := Decode(sub, f.sub, dest);
    } else {
      dest := new Struct(MsgOf(cur));
      status := DecodeNoinit(sub, f.sub, dest);
    }
    slots := dest.slots;
  }

  /** `pb_dec_submessage`: the child is closed whether it was decoded or not. */
  method DecSubmessage(stream: IStream, f: Field, cur: Value) returns (ok: bool, v: Value)
    requires stream.Valid() && f.ltype.Submessage? && WellFormedField(f)
    modifies stream
    ensures var cur' := if f.htype.Repeated? then DefaultValue(f) else cur;
      var want := DecValue(f, cur', old(stream.Contents()));
      && (ok <==> want.Got?)
      && (ok ==> stream.Valid() && stream.End() == old(stream.End()) && want == Got(v, stream.Contents()))
    ensures stream.Valid() && stream.End() <= old(stream.End())
    ensures NF.NormalValue(f, cur) ==> NF.IntactValue(f, v)
    decreases f, 1
  {
    hide TakeDelimited, Wire.Decode, NF.Normal, NF.Intact;
    v := cur;
    DecSubmessageStep(f, if f.htype.Repeated? then DefaultValue(f) else cur, stream.Contents());
    SubmessageForms(f, cur);
    hide DecValue, DefaultValue, WellFormedField, NF.NormalValue, NF.IntactValue;
    var sub;
    ok, sub := stream.MakeSubstream();
    if !ok {
      return;
    }
    var status, slots := DecodeChild(sub, f, cur);
    v := Msg(slots);
    ok := stream.CloseSubstream(sub);
    ok := ok && status;
  }

  lemma SubmessageForms(f: Field, cur: Value)
    requires f.ltype.Submessage? && WellFormedField(f)
    ensures MsgOf(DefaultValue(f)) == Defaults(f.sub) && NF.Normal(f.sub, Defaults(f.sub))
    ensures NF.NormalValue(f, cur) ==> NF.Normal(f.sub, MsgOf(cur)) && NF.IntactValue(f, cur)
    ensures forall slots :: NF.Intact(f.sub, slots) ==> NF.IntactValue(f, Msg(slots))
  {
    hide NF.Normal, NF.Intact;
    NF.DefaultsNormal(f.sub);
    if NF.NormalValue(f, cur) { NF.NormalValueIntact(f, cur); }
  }

  lemma DecSubmessageStep(f: Field, cur: Value, s: seq<byte>)
    requires f.ltype.Submessage?
    ensures DecValue(f, cur, s).Got? <==>
      TakeDelimited(s).Got? && Wire.Decode(f.sub, MsgOf(cur), TakeDelimited(s).value).Got?
    ensures DecValue(f, cur, s).Got? ==>
      DecValue(f, cur, s) ==
      Got(Msg(Wire.Decode(f.sub, MsgOf(cur), TakeDelimited(s).value).value), TakeDelimited(s).rest)
  {
    hide TakeDelimited, Wire.Decode;
  }

  /** The `PB_DECODERS` table. */
  method DecodeValue(stream: IStream, f: Field, cur: Value) returns (ok: bool, v: Value)
    requires stream.Valid() && WellFormedField(f)
    modifies stream
    ensures var cur' := if f.htype.Repeated? then DefaultValue(f) else cur;
      var want := DecValue(f, cur', old(stream.Contents()));
      && (ok <==> want.Got?)
      && (ok ==> stream.End() == old(stream.End()) && want == Got(v, stream.Contents()))
    ensures stream.Valid() && stream.End() <= old(stream.End())
    ensures NF.NormalValue(f, cur) || !f.ltype.Submessage? ==> NF.IntactValue(f, v)
    decreases f, 2
  {
    hide DecScalar, Wire.Decode, TakeDelimited, NF.NormalValue, NF.Intact;
    if f.ltype.Submessage? {
      ok, v := DecSubmessage(stream, f, cur);
    } else {
      ok, v := DecodeScalar(stream, f);
    }
  }

  /** The packed array loop of `decode_static_field`. */
  method DecodePacked(sub: IStream, f: Field, dest: Struct) returns (status: bool)
    requires sub.Valid() && Packable(f.ltype) && WellFormedField(f)
    requires f.htype.Repeated? && At(dest.slots, f.slot).Counted?
    modifies sub, dest
    ensures sub.Valid() && sub.End() == old(sub.End())
    ensures var want := DecPacked(f, ItemsOf(At(old(dest.slots), f.slot)), f.arraySize, old(sub.Contents()));
      && (status && sub.bytesLeft == 0 <==> want.Got?)
      && (want.Got? ==> dest.slots == Put(old(dest.slots), f.slot, Counted(want.value)))
    ensures LeavesIntact(f, old(dest.slots), dest.slots)
  {
    hide DecScalar, NF.NormalValue, WellFormedField;
    status := true;
    var items := ItemsOf(At(dest.slots, f.slot));
    ghost var want := DecPacked(f, items, f.arraySize, sub.Contents());
    ghost var normal := NF.NormalSlot(f, At(dest.slots, f.slot));
    while sub.bytesLeft > 0 && |items| < f.arraySize
      invariant sub.Valid() && sub.End() == old(sub.End())
      invariant dest.slots == Put(old(dest.slots), f.slot, Counted(items))
      invariant normal ==> NF.NormalSlot(f, Counted(items))
      invariant status && DecPacked(f, items, f.arraySize, sub.Contents()) == want
      decreases sub.bytesLeft
    {
      ghost var s := sub.Contents();
      var v;
      status, v := DecodeScalar(sub, f);
      if !status {
        break;
      }
      NF.ScalarNormal(f, s);
      ItemNormal(f, items, v);
      items := items + [v];
      dest.slots := Put(dest.slots, f.slot, Counted(items));
    }
    if normal { NF.NormalSlotIntact(f, Counted(items)); }
    StoredIntact(f, old(dest.slots), Counted(items));
  }

  lemma ItemNormal(f: Field, items: seq<Value>, v: Value)
    requires WellFormedField(f) && f.htype.Repeated? && !f.ltype.Submessage? && NormalScalar(f, v) && |items| < f.arraySize
    ensures NF.NormalSlot(f, Counted(items)) ==> NF.NormalSlot(f, Counted(items + [v]))
  {
    hide NormalScalar;
  }

  /** `after` is `before` with the member of `f` changed; it still has the form a failed
      decode may leave, if it was in normal form. */
  ghost predicate LeavesIntact(f: Field, before: seq<Slot>, after: seq<Slot>) {
    && after == Put(before, f.slot, At(after, f.slot))
    && (NF.NormalSlot(f, At(before, f.slot)) ==>
          NF.IntactSlot(f, At(after, f.slot)) && (f.htype.OneOf? ==> At(after, f.slot) == At(before, f.slot) ||
                                                                     At(after, f.slot).which == f.tag))
  }

  lemma StoredIntact(f: Field, before: seq<Slot>, x: Slot)
    requires NF.NormalSlot(f, At(before, f.slot)) ==> NF.IntactSlot(f, x)
    requires f.htype.OneOf? ==> x.Union? && x.which == f.tag
    ensures LeavesIntact(f, before, Put(before, f.slot, x))
  {
    if NF.NormalSlot(f, At(before, f.slot)) { NF.NormalSlotIntact(f, At(before, f.slot)); }
  }

  lemma NothingStored(f: Field, before: seq<Slot>)
    ensures LeavesIntact(f, before, before)
  {
    if NF.NormalSlot(f, At(before, f.slot)) { NF.NormalSlotIntact(f, At(before, f.slot)); }
  }

  /** The packed branch of `decode_static_field`. */
  method DecodePackedArray(stream: IStream, f: Field, dest: Struct) returns (ok: bool)
    requires stream.Valid() && Packable(f.ltype) && WellFormedField(f)
    requires f.htype.Repeated? && At(dest.slots, f.slot).Counted?
    modifies stream, dest
    ensures stream.Valid() && stream.End() <= old(stream.End())
    ensures LeavesIntact(f, old(dest.slots), dest.slots)
    ensures var body := TakeDelimited(old(stream.Contents()));
      && (ok ==> body.Got? && stream.End() == old(stream.End()) && stream.Contents() == body.rest)
      && (body.Fail? ==> !ok)
      && (body.Got? ==>
            var want := DecPacked(f, ItemsOf(At(old(dest.slots), f.slot)), f.arraySize, body.value);
            && (ok <==> want.Got?)
            && (ok ==> dest.slots == Put(old(dest.slots), f.slot, Counted(want.value))))
  {
    hide DecPacked, TakeDelimited, LeavesIntact, WellFormedField;
    NothingStored(f, dest.slots);
    var sub;
    ok, sub := stream.MakeSubstream();
    if !ok {
      return;
    }
    var status := DecodePacked(sub, f, dest);
    if sub.bytesLeft != 0 {
      return false;
    }
    ok := stream.CloseSubstream(sub);
    ok := ok && status;
  }

  lemma ScalarIgnoresCurrent(f: Field, a: Value, b: Value, s: seq<byte>)
    ensures !f.ltype.Submessage? ==> DecValue(f, a, s) == DecValue(f, b, s)
  {
  }

  /** The repeated branch of `decode_static_field`. */
  method DecodeRepeated(stream: IStream, wireType: nat, f: Field, dest: Struct) returns (ok: bool)
    requires stream.Valid() && WellFormedField(f) && f.htype.Repeated? && At(dest.slots, f.slot).Counted?
    modifies stream, dest
    ensures var want := DecSlot(f, At(old(dest.slots), f.slot), wireType, old(stream.Contents()));
      && (ok <==> want.Got?)
      && (ok ==> && stream.End() == old(stream.End()) && stream.Contents() == want.rest
                 && dest.slots == Put(old(dest.slots), f.slot, want.value))
    ensures stream.Valid() && stream.End() <= old(stream.End())
    ensures LeavesIntact(f, old(dest.slots), dest.slots)
    decreases f, 3
  {
    hide DecValue, DecPacked, TakeDelimited, DefaultValue, LeavesIntact, WellFormedField, NF.NormalValue, NF.IntactValue;
    ghost var before := dest.slots;
    var x := At(dest.slots, f.slot);
    if wireType == WT_STRING && Packable(f.ltype) {
      ok := DecodePackedArray(stream, f, dest);
    } else {
      if |x.items| >= f.arraySize {
        // the count is one too large now
        dest.slots := Put(dest.slots, f.slot, Counted(x.items + [UNUSED]));
        StoredIntact(f, before, Counted(x.items + [UNUSED]));
        return false;
      }
      var v;
      ok, v := DecodeValue(stream, f, UNUSED);
      dest.slots := Put(dest.slots, f.slot, Counted(x.items + [v]));
      StoredIntact(f, before, Counted(x.items + [v]));
    }
  }

  /** The oneof branch of `decode_static_field`. */
  method DecodeOneOf(stream: IStream, wireType: nat, f: Field, dest: Struct) returns (ok: bool)
    requires stream.Valid() && WellFormedField(f) && f.htype.OneOf? && At(dest.slots, f.slot).Union?
    modifies stream, dest
    ensures var want := DecSlot(f, At(old(dest.slots), f.slot), wireType, old(stream.Contents()));
      && (ok <==> want.Got?)
      && (ok ==> && stream.End() == old(stream.End()) && stream.Contents() == want.rest
                 && dest.slots == Put(old(dest.slots), f.slot, want.value))
    ensures stream.Valid() && stream.End() <= old(stream.End())
    ensures LeavesIntact(f, old(dest.slots), dest.slots)
    decreases f, 3
  {
    hide DecValue, DefaultValue, LeavesIntact, WellFormedField, NF.NormalValue, NF.IntactValue;
    ghost var before := dest.slots;
    var x := At(dest.slots, f.slot);
    dest.slots := Put(dest.slots, f.slot, Union(f.tag, x.v));
    var initial := x.v;
    if f.ltype.Submessage? {
      initial := InitialData(f);
      NF.DefaultNormal(f);
    }
    ScalarIgnoresCurrent(f, x.v, DefaultValue(f), stream.Contents());
    var v;
    ok, v := DecodeValue(stream, f, initial);
    PutTwice(before, f.slot, Union(f.tag, x.v), Union(f.tag, v));
    dest.slots := Put(dest.slots, f.slot, Union(f.tag, v));
    StoredIntact(f, before, Union(f.tag, v));
  }

  /** `decode_static_field`: one record of field `f` into its slot. A slot that does
      not have the C type of the field is an invalid field type. */
  method DecodeStaticField(stream: IStream, wireType: nat, f: Field, dest: Struct) returns (ok: bool)
    requires stream.Valid() && WellFormedField(f)
    modifies stream, dest
    ensures var want := DecSlot(f, At(old(dest.slots), f.slot), wireType, old(stream.Contents()));
      && (ok <==> want.Got?)
      && (ok ==> && stream.End() == old(stream.End()) && stream.Contents() == want.rest
                 && dest.slots == Put(old(dest.slots), f.slot, want.value))
    ensures stream.Valid() && stream.End() <= old(stream.End())
    ensures LeavesIntact(f, old(dest.slots), dest.slots)
    decreases f, 4
  {
    hide DecValue, DecPacked, TakeDelimited, DefaultValue, LeavesIntact, WellFormedField, NF.NormalValue, NF.IntactValue;
    ghost var before := dest.slots;
    var x := At(dest.slots, f.slot);
    if !SlotKind(f, x) {
      NothingStored(f, before);
      return false;
    }
    var v;
    match f.htype {
      case Required => {
        ok, v := DecodeValue(stream, f, x.v);
        dest.slots := Put(dest.slots, f.slot, Plain(v));
        StoredIntact(f, before, Plain(v));
      }
      case Optional => {
        if f.sizeOffset != 0 {
          dest.slots := Put(dest.slots, f.slot, Flagged(true, x.v));
        }
        ok, v := DecodeValue(stream, f, x.v);
        PutTwice(before, f.slot, Flagged(true, x.v), Flagged(true, v));
        dest.slots := Put(dest.slots, f.slot, if f.sizeOffset != 0 then Flagged(true, v) else Plain(v));
        StoredIntact(f, before, if f.sizeOffset != 0 then Flagged(true, v) else Plain(v));
      }
      case Repeated => ok := DecodeRepeated(stream, wireType, f, dest);
      case OneOf => ok := DecodeOneOf(stream, wireType, f, dest);
    }
  }

  // ----- Messages -----

  /** The terminator entry, read as a field: what `pb_field_iter_find` finds for
      tag 0 in an empty descriptor. */
  const TERMINATOR: Field := Field(0, Bool, Required, 0, 0, 0, 0, 0, [], None)

  lemma RunStep(fields: seq<Field>, m: seq<Slot>, seen: set<nat>, s: seq<byte>)
    requires s != []
    ensures Run(fields, m, seen, s) ==
      match NextRecord(fields, m, seen, s)
      case BadRecord => Bad
      case EndOfMessage(rest) => Good(m, seen, rest, true)
      case Continue(m', seen', rest) => Run(fields, m', seen', rest)
  {
    hide NextRecord;
  }

  lemma FoundAt(fields: seq<Field>, tag: nat, i: nat)
    requires WellFormed(fields) && i < |fields| && fields[i].tag == tag
    ensures FindTag(fields, tag) == i && WellFormedField(fields[i])
  {
    Merge.FindsTag(fields, i);
  }

  /** Sets the bit of required field number `index` in `fields_seen`. */
  method MarkSeen(fieldsSeen: array<nat>, index: nat)
    requires fieldsSeen.Length == 2 && fieldsSeen[0] < TWO32 && fieldsSeen[1] < TWO32
    requires index < PB_MAX_REQUIRED_FIELDS
    modifies fieldsSeen
    ensures if index < 32
      then fieldsSeen[0] == SetBit(old(fieldsSeen[0]), index) && fieldsSeen[1] == old(fieldsSeen[1])
      else fieldsSeen[0] == old(fieldsSeen[0]) && fieldsSeen[1] == SetBit(old(fieldsSeen[1]), index - 32)
  {
    hide SetBit;
    var k, r := index / 32, index % 32;
    fieldsSeen[k] := SetBit(fieldsSeen[k], r);
  }

  /** The required-field check at the end of `pb_decode_noinit`: the number of
      required fields is found by walking on to the end of the array. */
  method RequiredFieldsPresent(iter: FieldIter, fieldsSeen: array<nat>, ghost seen: set<nat>) returns (ok: bool)
    requires iter.Valid() && fieldsSeen.Length == 2
    requires iter.fields != [] ==> Records(iter.fields, fieldsSeen[0], fieldsSeen[1], seen)
    modifies iter
    ensures ok <==> AllRequired(iter.fields, seen)
  {
    hide Records, Pow2;
    var fields := iter.fields;
    var reqFieldCount, lastType;
    while true
      invariant iter.Valid()
      decreases |fields| - iter.pos
    {
      reqFieldCount := iter.requiredFieldIndex;
      lastType := if iter.pos < |fields| then fields[iter.pos].htype else TERMINATOR.htype;
      var more := iter.Next();
      if !more {
        break;
      }
    }
    if lastType.Required? && iter.Tag() != 0 {
      reqFieldCount := reqFieldCount + 1;
    }
    assert reqFieldCount == RequiredBefore(fields, |fields|);
    if reqFieldCount > PB_MAX_REQUIRED_FIELDS {
      reqFieldCount := PB_MAX_REQUIRED_FIELDS;
    }
    if fields != [] { BitmapIsExact(fields, fieldsSeen[0], fieldsSeen[1], seen); }
    if reqFieldCount > 0 {
      var i := 0;
      while i < reqFieldCount / 32
        invariant i <= reqFieldCount / 32
        invariant forall j :: 0 <= j < i ==> fieldsSeen[j] == ALL_BITS
      {
        if fieldsSeen[i] != ALL_BITS {
          return false;
        }
        i := i + 1;
      }
      if reqFieldCount % 32 != 0 {
        if fieldsSeen[reqFieldCount / 32] != ALL_BITS / Pow2(32 - reqFieldCount % 32) {
          return false;
        }
      }
    }
    return true;
  }

  /** One turn of the record loop of `pb_decode_noinit`; `eof` reports a zero tag. */
  method DecodeRecord(stream: IStream, iter: FieldIter, dest: Struct, fieldsSeen: array<nat>, ghost seen: set<nat>)
    returns (ok: bool, eof: bool, ghost seen': set<nat>)
    requires stream.Valid() && stream.bytesLeft != 0
    requires iter.Valid() && WellFormed(iter.fields)
    requires fieldsSeen.Length == 2 && fieldsSeen[0] < TWO32 && fieldsSeen[1] < TWO32
    requires iter.fields != [] ==> Records(iter.fields, fieldsSeen[0], fieldsSeen[1], seen)
    modifies stream, iter, dest, fieldsSeen
    ensures iter.Valid() && fieldsSeen[0] < TWO32 && fieldsSeen[1] < TWO32
    ensures ok && iter.fields != [] ==> Records(iter.fields, fieldsSeen[0], fieldsSeen[1], seen')
    ensures ok ==> stream.End() == old(stream.End())
    ensures stream.Valid() && stream.End() <= old(stream.End())
    ensures NF.Normal(iter.fields, old(dest.slots)) ==> NF.Intact(iter.fields, dest.slots)
    ensures ok == !NextRecord(iter.fields, old(dest.slots), seen, old(stream.Contents())).BadRecord?
    ensures ok ==> (
      NextRecord(iter.fields, old(dest.slots), seen, old(stream.Contents())) ==
      if eof then EndOfMessage(stream.Contents()) else Continue(dest.slots, seen', stream.Contents()))
    ensures ok && eof ==> dest.slots == old(dest.slots) && seen' == seen
    decreases iter.fields, 0, 0
  {
    hide DecTag, DecSlot, Wire.SkipField, DecVarint32, FindTag, Records, RequiredBefore, SetBit, WellFormed;
    hide LeavesIntact, NF.Normal, NF.Intact, DataAddress, SizeAddress;
    var fields := iter.fields;
    ghost var before := dest.slots;
    UntouchedIntact(fields, before);
    seen' := seen;
    var tagOk, wireType, tag;
    tagOk, wireType, tag, eof := stream.DecodeTag();
    if !tagOk {
      return eof, eof, seen;
    }
    eof := false;
    var found := iter.Find(tag);
    if !found {
      NotFound(fields, tag);
      ok := stream.SkipField(wireType);
      return;
    }
    if iter.pos < |fields| { FoundAt(fields, tag, iter.pos); }
    ghost var low, high := fieldsSeen[0], fieldsSeen[1];
    var f := if iter.pos < |fields| then fields[iter.pos] else TERMINATOR;
    if f.htype.Required? && iter.requiredFieldIndex < PB_MAX_REQUIRED_FIELDS {
      MarkSeen(fieldsSeen, iter.requiredFieldIndex);
      assert fieldsSeen[0] < TWO32 && fieldsSeen[1] < TWO32 by { SetBitFits(low, high, iter.requiredFieldIndex); }
    }
    if iter.pos < |fields| {
      ok := DecodeStaticField(stream, wireType, f, dest);
      FieldLeavesIntact(fields, iter.pos, before, dest.slots);
      RecordsUpdate(fields, low, high, seen, iter.pos, fieldsSeen[0], fieldsSeen[1]);
      seen' := seen + {iter.pos};
    } else {
      // a bool into the padding of the empty struct
      NoFieldsFound(fields, tag);
      var unused;
      ok, unused := DecBool(stream, f);
    }
  }

  lemma UntouchedIntact(fields: seq<Field>, m: seq<Slot>)
    ensures NF.Normal(fields, m) ==> NF.Intact(fields, m)
  {
    hide NF.Normal, NF.Intact;
    if NF.Normal(fields, m) { NF.NormalIntact(fields, m); }
  }

  lemma FieldLeavesIntact(fields: seq<Field>, i: nat, before: seq<Slot>, after: seq<Slot>)
    requires WellFormed(fields) && i < |fields| && LeavesIntact(fields[i], before, after)
    ensures NF.Normal(fields, before) ==> NF.Intact(fields, after)
  {
    hide WellFormed, NF.Normal, NF.Intact;
    if NF.Normal(fields, before) {
      NF.NormalAt(fields, before, i);
      var f := fields[i];
      if At(after, f.slot) == At(before, f.slot) {
        assert after == before;
        NF.NormalIntact(fields, before);
      } else {
        NF.PutIntact(fields, before, i, At(after, f.slot));
      }
    }
  }

  lemma SetBitFits(low: nat, high: nat, index: nat)
    requires low < TWO32 && high < TWO32
    ensures index < 32 ==> SetBit(low, index) < TWO32
    ensures 32 <= index < 64 ==> SetBit(high, index - 32) < TWO32
  {
  }

  lemma NoFieldsFound(fields: seq<Field>, tag: nat)
    ensures fields == [] ==> FindTag(fields, tag) == 0
  {
  }

  lemma TurnKeepsNormal(fields: seq<Field>, m: seq<Slot>, seen: set<nat>, s: seq<byte>)
    requires WellFormed(fields) && s != []
    ensures var t := NextRecord(fields, m, seen, s);
      t.Continue? && NF.Normal(fields, m) ==> NF.Normal(fields, t.m)
  {
    hide NextRecord, WellFormed, NF.Normal;
    if NextRecord(fields, m, seen, s).Continue? && NF.Normal(fields, m) { NF.TurnNormal(fields, m, seen, s); }
  }

  /** `pb_decode_noinit`. Also when it fails, the structure keeps its form, with counts
      that are at most one too large. */
  method DecodeNoinit(stream: IStream, fields: seq<Field>, dest: Struct) returns (ok: bool)
    requires stream.Valid() && WellFormed(fields)
    modifies stream, dest
    ensures var want := Wire.Decode(fields, old(dest.slots), old(stream.Contents()));
      && (ok <==> want.Got?)
      && (ok ==> && stream.End() == old(stream.End()) && stream.Contents() == want.rest
                 && dest.slots == want.value)
    ensures stream.Valid() && stream.End() <= old(stream.End())
    ensures NF.Normal(fields, old(dest.slots)) ==> NF.Intact(fields, dest.slots)
    decreases fields, 1
  {
    hide Run, NextRecord, Records, WellFormed, NF.Normal, NF.Intact, AllRequired, RequiredBefore, DataAddress, SizeAddress;
    var fieldsSeen := new nat[2];
    fieldsSeen[0], fieldsSeen[1] := 0, 0;
    var iter := NewIter(fields);
    ghost var seen: set<nat> := {};
    ghost var want := Run(fields, dest.slots, {}, stream.Contents());
    ghost var stopped := false;
    ghost var normal := NF.Normal(fields, dest.slots);
    NothingSeen(fields);
    RunEnds(fields);
    while stream.bytesLeft != 0
      invariant stream.Valid() && stream.End() == old(stream.End())
      invariant iter.Valid() && iter.fields == fields && fresh(iter)
      invariant fresh(fieldsSeen) && fieldsSeen.Length == 2
      invariant fieldsSeen[0] < TWO32 && fieldsSeen[1] < TWO32
      invariant fields != [] ==> Records(fields, fieldsSeen[0], fieldsSeen[1], seen)
      invariant Run(fields, dest.slots, seen, stream.Contents()) == want
      invariant normal ==> NF.Normal(fields, dest.slots)
      decreases stream.bytesLeft
    {
      RunStep(fields, dest.slots, seen, stream.Contents());
      TurnKeepsNormal(fields, dest.slots, seen, stream.Contents());
      var eof;
      ok, eof, seen := DecodeRecord(stream, iter, dest, fieldsSeen, seen);
      if !ok {
        return;
      }
      if eof {
        stopped := true;
        break;
      }
    }
    assert want == Good(dest.slots, seen, stream.Contents(), stopped);
    UntouchedIntact(fields, dest.slots);
    ok := RequiredFieldsPresent(iter, fieldsSeen, seen);
  }

  lemma RunEnds(fields: seq<Field>)
    ensures forall m: seq<Slot>, seen: set<nat> :: Run(fields, m, seen, []) == Good(m, seen, [], false)
  {
    hide NextRecord;
  }

  /** `pb_decode` */
  method Decode(stream: IStream, fields: seq<Field>, dest: Struct) returns (ok: bool)
    requires stream.Valid() && WellFormed(fields) && |dest.slots| == NumSlots(fields)
    modifies stream, dest
    ensures var want := Wire.Decode(fields, Defaults(fields), old(stream.Contents()));
      && (ok <==> want.Got?)
      && (ok ==> && stream.End() == old(stream.End()) && stream.Contents() == want.rest
                 && dest.slots == want.value)
    ensures stream.Valid() && stream.End() <= old(stream.End()) && NF.Intact(fields, dest.slots)
    decreases fields, 2
  {
    hide Wire.Decode;
    NF.DefaultsNormal(fields);
    NF.SetDefaultsForgets(fields, dest.slots);
    MessageSetToDefaults(fields, dest);
    ok := DecodeNoinit(stream, fields, dest);
  }

  /** `pb_decode_delimited` */
  method DecodeDelimited(stream: IStream, fields: seq<Field>, dest: Struct) returns (ok: bool)
    requires stream.Valid() && WellFormed(fields) && |dest.slots| == NumSlots(fields)
    modifies stream, dest
    ensures var want := Framing.DecodeDelimited(fields, old(stream.Contents()));
      && (ok <==> want.Got?)
      && (ok ==> && stream.End() == old(stream.End()) && stream.Contents() == want.rest
                 && dest.slots == want.value)
    ensures stream.Valid() && stream.End() <= old(stream.End())
    ensures NF.Intact(fields, dest.slots) || dest.slots == old(dest.slots)
  {
    hide Wire.Decode, TakeDelimited;
    var sub;
    ok, sub := stream.MakeSubstream();
    if !ok {
      return;
    }
    var status := Decode(sub, fields, dest);
    ok := stream.CloseSubstream(sub);
    ok := ok && status;
  }

  /** `pb_decode_nullterminated`: the same as `pb_decode`, which stops at a zero tag. */
  method DecodeNullTerminated(stream: IStream, fields: seq<Field>, dest: Struct) returns (ok: bool)
    requires stream.Valid() && WellFormed(fields) && |dest.slots| == NumSlots(fields)
    modifies stream, dest
    ensures var want := Wire.Decode(fields, Defaults(fields), old(stream.Contents()));
      && (ok <==> want.Got?)
      && (ok ==> && stream.End() == old(stream.End()) && stream.Contents() == want.rest
                 && dest.slots == want.value)
    ensures stream.Valid() && stream.End() <= old(stream.End()) && NF.Intact(fields, dest.slots)
  {
    ok := Decode(stream, fields, dest);
  }
}
