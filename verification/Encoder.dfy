/**
 The encoder proper (`pb_encode.c`). Each method writes exactly the bytes of the
 wire format function it is named after, and succeeds exactly when the message is
 acceptable and the bytes fit; so the sizing pass of a submessage agrees with the
 pass that writes it.
 */
module Encoder {
  import opened Wrappers
  import opened Bits
  import opened Varint
  import opened Descriptor
  import opened Wire
  import opened OStreams
  import Decoder

  // ----- Presence -----

  /** `pb_check_proto3_default_value` */
  method CheckProto3Default(f: Field, x: Slot) returns (r: bool)
    requires WellFormedField(f)
    ensures r <==> IsDefaultSlot(f, x)
    decreases f
  {
    if f.htype.Required? {
      return false;
    } else if f.htype.Repeated? {
      if f.sizeOffset != 0 {
        return |ItemsOf(x)| == 0;
      } else {
        return false;
      }
    } else if f.htype.OneOf? {
      return x.Union? && x.which == 0;
    } else if f.htype.Optional? && f.sizeOffset != 0 {
      return x.Flagged? && !x.has;
    }
    var v := DataOf(x);
    match f.ltype {
      case Bytes => return |StrOf(v)| == 0;
      case String => return |StrOf(v)| == 0;
      case FixedLengthBytes => return f.dataSize == 0;
      case Submessage => {
        var m := MsgOf(v);
        var iter := Decoder.NewIter(f.sub);
        if iter.Tag() != 0 {
          while true
            invariant iter.Valid() && iter.fields == f.sub && iter.pos < |f.sub|
            invariant IsDefault(f.sub, m, iter.pos) <==> IsDefault(f.sub, m, 0)
            decreases |f.sub| - iter.pos
          {
            assert WellFormedField(f.sub[iter.pos]);
            var zero := CheckProto3Default(f.sub[iter.pos], At(m, f.sub[iter.pos].slot));
            if !zero {
              return false;
            }
            assert IsDefault(f.sub, m, |f.sub|);
            var more := iter.Next();
            if !more {
              return true;
            }
          }
        }
        assert f.sub == [] && IsDefault(f.sub, m, 0);
        return true;
      }
      case _ => return f.dataSize == 0 || NumOf(v) == 0;
    }
  }

  // ----- Keys and scalars -----

  /** `pb_encode_tag` */
  method EncodeTag(stream: OStream, wireType: nat, fieldNumber: nat) returns (ok: bool)
    requires stream.Valid() && wireType < 8 && fieldNumber < 0x2000_0000
    modifies stream.Frame()
    ensures stream.Valid() && Writes(ok, true, old(stream.Snap()), stream.Snap(), EncKey(fieldNumber, wireType))
  {
    hide Writes;
    ok := stream.EncodeVarint(fieldNumber * 8 + wireType);
  }

  /** `pb_encode_tag_for_field` */
  method EncodeTagForField(stream: OStream, f: Field) returns (ok: bool)
    requires stream.Valid() && WellFormedField(f)
    modifies stream.Frame()
    ensures stream.Valid()
    ensures Writes(ok, true, old(stream.Snap()), stream.Snap(), EncKey(f.tag, WireType(f.ltype)))
  {
    hide Writes;
    var wireType;
    match f.ltype {
      case Bool => wireType := WT_VARINT;
      case Varint => wireType := WT_VARINT;
      case UVarint => wireType := WT_VARINT;
      case SVarint => wireType := WT_VARINT;
      case Fixed32 => wireType := WT_32BIT;
      case Fixed64 => wireType := WT_64BIT;
      case _ => wireType := WT_STRING;
    }
    ok := EncodeTag(stream, wireType, f.tag);
  }

  /** `pb_encode_string` */
  method EncodeString(stream: OStream, bytes: seq<byte>) returns (ok: bool)
    requires stream.Valid() && |bytes| < TWO64
    modifies stream.Frame()
    ensures stream.Valid() && Writes(ok, true, old(stream.Snap()), stream.Snap(), Delimited(bytes))
  {
    hide EncVarint, Writes;
    ghost var a := stream.Snap();
    ok := stream.EncodeVarint(|bytes|);
    if !ok {
      Failed(true, true, a, stream.Snap(), EncVarint(|bytes|), bytes);
      return;
    }
    Wrote(true, a, stream.Snap(), EncVarint(|bytes|));
    ok := stream.Write(bytes);
    Then(ok, true, a, EncVarint(|bytes|), stream.Snap(), bytes);
  }

  /** What a successful writer leaves behind. */
  lemma Wrote(acceptable: bool, a: Snapshot, b: Snapshot, bs: seq<byte>)
    requires Writes(true, acceptable, a, b, bs)
    ensures acceptable && Room(a, |bs|) && b == Advance(a, bs)
  {
  }

  /** `pb_encode_svarint`: the complement of the doubled unsigned value, when negative. */
  method EncodeSVarint(stream: OStream, value: int) returns (ok: bool)
    requires stream.Valid() && InSigned(value, 8)
    modifies stream.Frame()
    ensures stream.Valid() && Writes(ok, true, old(stream.Snap()), stream.Snap(), EncVarint(ZigZag(value)))
  {
    hide Writes, EncVarint;
    var doubled := (value % TWO64 * 2) % TWO64;
    var zigzagged;
    if value < 0 {
      zigzagged := TWO64 - 1 - doubled;
    } else {
      zigzagged := doubled;
    }
    ok := stream.EncodeVarint(zigzagged);
  }

  /** `pb_encode_fixed32` */
  method EncodeFixed32(stream: OStream, val: nat) returns (ok: bool)
    requires stream.Valid() && val < TWO32
    modifies stream.Frame()
    ensures stream.Valid() && Writes(ok, true, old(stream.Snap()), stream.Snap(), LittleEndian(val, 4))
  {
    hide Writes;
    var bytes := new byte[4];
    bytes[0] := val % 256;
    bytes[1] := val / 0x100 % 256;
    bytes[2] := val / 0x1_0000 % 256;
    bytes[3] := val / 0x100_0000 % 256;
    FourPlaces(val, bytes[..]);
    ok := stream.Write(bytes[..]);
  }

  lemma FourPlaces(v: nat, s: seq<byte>)
    requires |s| == 4 && s[0] == v % 256 && s[1] == v / 0x100 % 256
    requires s[2] == v / 0x1_0000 % 256 && s[3] == v / 0x100_0000 % 256
    ensures LittleEndian(v, 4) == s
    ensures LittleEndian(v, 8) == s + LittleEndian(v / TWO32, 4)
  {
    hide LittleEndian;
    Quotients(v);
    FourBytesOf(v, v / 0x100, v / 0x1_0000, v / 0x100_0000, v / TWO32, 0);
    FourBytesOf(v, v / 0x100, v / 0x1_0000, v / 0x100_0000, v / TWO32, 4);
    NextByte(v / TWO32, 0);
  }

  lemma Quotients(v: nat)
    ensures v / 0x100 / 256 == v / 0x1_0000 && v / 0x1_0000 / 256 == v / 0x100_0000
    ensures v / 0x100_0000 / 256 == v / TWO32
  {
  }

  lemma FourBytesOf(v: nat, a: nat, b: nat, c: nat, d: nat, more: nat)
    requires v / 256 == a && a / 256 == b && b / 256 == c && c / 256 == d
    ensures LittleEndian(v, more + 4) == [v % 256, a % 256, b % 256, c % 256] + LittleEndian(d, more)
  {
    hide LittleEndian;
    NextByte(v, more + 4);
    NextByte(a, more + 3);
    NextByte(b, more + 2);
    NextByte(c, more + 1);
  }

  lemma NextByte(v: nat, size: nat)
    ensures LittleEndian(v, size) == if size == 0 then [] else [v % 256] + LittleEndian(v / 256, size - 1)
  {
  }

  /** `pb_encode_fixed64` */
  method EncodeFixed64(stream: OStream, val: nat) returns (ok: bool)
    requires stream.Valid() && val < TWO64
    modifies stream.Frame()
    ensures stream.Valid() && Writes(ok, true, old(stream.Snap()), stream.Snap(), LittleEndian(val, 8))
  {
    hide Writes, LittleEndian;
    var bytes := new byte[8];
    bytes[0] := val % 256;
    bytes[1] := val / 0x100 % 256;
    bytes[2] := val / 0x1_0000 % 256;
    bytes[3] := val / 0x100_0000 % 256;
    bytes[4] := val / 0x1_0000_0000 % 256;
    bytes[5] := val / 0x100_0000_0000 % 256;
    bytes[6] := val / 0x1_0000_0000_0000 % 256;
    bytes[7] := val / 0x100_0000_0000_0000 % 256;
    FourPlaces(val, bytes[..4]);
    HighBytes(val);
    FourPlaces(val / TWO32, bytes[4..]);
    assert bytes[..] == bytes[..4] + bytes[4..];
    ok := stream.Write(bytes[..]);
  }

  lemma HighBytes(v: nat)
    ensures v / TWO32 / 0x100 == v / 0x100_0000_0000
    ensures v / TWO32 / 0x1_0000 == v / 0x1_0000_0000_0000
    ensures v / TWO32 / 0x100_0000 == v / 0x100_0000_0000_0000
  {
  }

  method EncBool(stream: OStream, f: Field, v: Value) returns (ok: bool)
    requires stream.Valid() && f.ltype.Bool?
    modifies stream.Frame()
    ensures stream.Valid() && Writes(ok, true, old(stream.Snap()), stream.Snap(), EncScalar(f, v))
  {
    hide Writes;
    var value := if NumOf(v) != 0 then 1 else 0;
    ok := stream.EncodeVarint(value);
  }

  method EncVarintField(stream: OStream, f: Field, v: Value) returns (ok: bool)
    requires stream.Valid() && f.ltype.Varint? && TypedValue(f, v)
    modifies stream.Frame()
    ensures stream.Valid()
    ensures Writes(ok, EncodableValue(f, v), old(stream.Snap()), stream.Snap(), EncScalar(f, v))
  {
    if f.dataSize != 1 && f.dataSize != 2 && f.dataSize != 4 && f.dataSize != 8 {
      return false;
    }
    hide Writes;
    ok := stream.EncodeVarint(NumOf(v) % TWO64);
  }

  lemma UnsignedFits(n: int, size: nat)
    requires InUnsigned(n, size)
    ensures 0 <= n < TWO64 && n % TWO64 == n
  {
  }

  method EncUVarint(stream: OStream, f: Field, v: Value) returns (ok: bool)
    requires stream.Valid() && f.ltype.UVarint? && TypedValue(f, v)
    modifies stream.Frame()
    ensures stream.Valid()
    ensures Writes(ok, EncodableValue(f, v), old(stream.Snap()), stream.Snap(), EncScalar(f, v))
  {
    if f.dataSize != 1 && f.dataSize != 2 && f.dataSize != 4 && f.dataSize != 8 {
      return false;
    }
    UnsignedFits(v.n, f.dataSize);
    hide Writes, EncVarint, Modulus;
    ok := stream.EncodeVarint(v.n);
  }

  method EncSVarint(stream: OStream, f: Field, v: Value) returns (ok: bool)
    requires stream.Valid() && f.ltype.SVarint? && TypedValue(f, v)
    modifies stream.Frame()
    ensures stream.Valid()
    ensures Writes(ok, EncodableValue(f, v), old(stream.Snap()), stream.Snap(), EncScalar(f, v))
  {
    if f.dataSize != 1 && f.dataSize != 2 && f.dataSize != 4 && f.dataSize != 8 {
      return false;
    }
    hide Writes;
    ok := EncodeSVarint(stream, v.n);
  }

  method EncBytes(stream: OStream, f: Field, v: Value) returns (ok: bool)
    requires stream.Valid() && f.ltype.Bytes? && TypedValue(f, v)
    modifies stream.Frame()
    ensures stream.Valid()
    ensures Writes(ok, EncodableValue(f, v), old(stream.Snap()), stream.Snap(), EncScalar(f, v))
  {
    var allocSize := |v.bytes| + BYTES_HEADER;
    if allocSize > f.dataSize {
      return false;
    }
    hide Writes;
    ok := EncodeString(stream, v.bytes);
  }

  /** The `PB_ENCODERS` table, except its submessage entry. */
  method EncodeScalar(stream: OStream, f: Field, v: Value) returns (ok: bool)
    requires stream.Valid() && !f.ltype.Submessage? && TypedValue(f, v) && |EncScalar(f, v)| < TWO64
    modifies stream.Frame()
    ensures stream.Valid()
    ensures Writes(ok, EncodableValue(f, v), old(stream.Snap()), stream.Snap(), EncScalar(f, v))
  {
    hide Writes, LittleEndian, EncVarint;
    match f.ltype {
      case Bool => ok := EncBool(stream, f, v);
      case Varint => ok := EncVarintField(stream, f, v);
      case UVarint => ok := EncUVarint(stream, f, v);
      case SVarint => ok := EncSVarint(stream, f, v);
      case Fixed32 => ok := EncodeFixed32(stream, v.n);
      case Fixed64 => ok := EncodeFixed64(stream, v.n);
      case Bytes => ok := EncBytes(stream, f, v);
      case String => ok := EncodeString(stream, v.bytes);
      case FixedLengthBytes => ok := EncodeString(stream, v.bytes);
      case Submessage => assert false;
    }
  }

  // ----- Fields and messages -----

  /** `pb_encode_submessage`: a sizing pass, the length, and the pass that writes into
      a substream of exactly that size. */
  method EncodeSubmessage(stream: OStream, fields: seq<Field>, m: seq<Slot>) returns (ok: bool)
    requires stream.Valid() && WellFormed(fields) && Typed(fields, m) && |Enc(fields, m)| < TWO64
    modifies stream.Frame()
    ensures stream.Valid()
    ensures Writes(ok, Encodable(fields, m), old(stream.Snap()), stream.Snap(), Delimited(Enc(fields, m)))
    decreases fields, 3
  {
    hide Enc, Encodable, Typed, WellFormed, EncVarint, Writes;
    ghost var body := Enc(fields, m);
    ghost var a := stream.Snap();
    var substream := new OStream.Sizing();
    ok := Encode(substream, fields, m);
    if !ok {
      NotAcceptable(Encodable(fields, m), Snapshot(true, [], 0, 0, 0), substream.Snap(), body, a, Delimited(body));
      return;
    }
    Wrote(Encodable(fields, m), Snapshot(true, [], 0, 0, 0), substream.Snap(), body);
    var size := substream.bytesWritten;
    assert size == |body|;
    ok := stream.EncodeVarint(size);
    if !ok {
      Failed(true, Encodable(fields, m), a, stream.Snap(), EncVarint(size), body);
      return;
    }
    ghost var b := stream.Snap();
    Wrote(true, a, b, EncVarint(size));
    if stream.buf == null {
      stream.Count(size);
      Counted(Encodable(fields, m), b, stream.Snap(), body);
      Then(true, Encodable(fields, m), a, EncVarint(size), stream.Snap(), body);
      return true;
    }
    if stream.bytesWritten + size > stream.maxSize {
      NoRoom(Encodable(fields, m), b, body);
      Then(false, Encodable(fields, m), a, EncVarint(size), b, body);
      return false;
    }
    substream := new OStream.OnBuffer(stream.buf, stream.state, size);
    ghost var c := substream.Snap();
    var status := Encode(substream, fields, m);
    SecondPass(status, Encodable(fields, m), b, c, substream.Snap(), body);
    stream.bytesWritten := stream.bytesWritten + substream.bytesWritten;
    stream.state := substream.state;
    if substream.bytesWritten != size {
      assert false;  // "submsg size changed"
      return false;
    }
    Then(true, Encodable(fields, m), a, EncVarint(size), stream.Snap(), body);
    return status;
  }

  lemma NotAcceptable(acceptable: bool, s: Snapshot, t: Snapshot, bs: seq<byte>, a: Snapshot, all: seq<byte>)
    requires s.sizing && Writes(false, acceptable, s, t, bs)
    ensures !acceptable && Writes(false, acceptable, a, a, all)
  {
  }

  lemma Counted(acceptable: bool, a: Snapshot, b: Snapshot, bs: seq<byte>)
    requires acceptable && a.sizing && b == a.(bytesWritten := a.bytesWritten + |bs|)
    ensures Writes(true, acceptable, a, b, bs)
  {
  }

  lemma NoRoom(acceptable: bool, a: Snapshot, bs: seq<byte>)
    requires !Room(a, |bs|)
    ensures Writes(false, acceptable, a, a, bs)
  {
  }

  /** The second pass has the room the first one measured, so it succeeds and writes
      the same number of bytes. */
  lemma SecondPass(status: bool, acceptable: bool, b: Snapshot, c: Snapshot, d: Snapshot, body: seq<byte>)
    requires acceptable && !b.sizing && Sane(b) && Room(b, |body|)
    requires c == Snapshot(false, b.memory, b.state, |body|, 0) && Writes(status, acceptable, c, d, body)
    ensures status && d.bytesWritten == |body| && d.state == b.state + |body|
    ensures Writes(true, acceptable, b, b.(memory := d.memory, state := d.state, bytesWritten := b.bytesWritten + |body|), body)
  {
  }

  /** The `PB_ENCODERS` table. */
  method EncodeValue(stream: OStream, f: Field, v: Value) returns (ok: bool)
    requires stream.Valid() && WellFormedField(f) && TypedValue(f, v) && |EncValue(f, v)| < TWO64
    modifies stream.Frame()
    ensures stream.Valid()
    ensures Writes(ok, EncodableValue(f, v), old(stream.Snap()), stream.Snap(), EncValue(f, v))
    decreases f, 0
  {
    hide Writes, EncScalar, Enc;
    if f.ltype.Submessage? {
      ok := EncodeSubmessage(stream, f.sub, v.slots);
    } else {
      ok := EncodeScalar(stream, f, v);
    }
  }

  /** A key and a value. */
  method EncodeRecord(stream: OStream, f: Field, v: Value) returns (ok: bool)
    requires stream.Valid() && WellFormedField(f) && TypedValue(f, v) && |EncValue(f, v)| < TWO64
    modifies stream.Frame()
    ensures stream.Valid()
    ensures Writes(ok, EncodableValue(f, v), old(stream.Snap()), stream.Snap(),
                    EncKey(f.tag, WireType(f.ltype)) + EncValue(f, v))
    decreases f, 1
  {
    hide Writes, EncValue, EncKey, EncodableValue, TypedValue, WellFormedField;
    ghost var a := stream.Snap();
    ghost var key := EncKey(f.tag, WireType(f.ltype));
    ok := EncodeTagForField(stream, f);
    if !ok {
      Failed(true, EncodableValue(f, v), a, stream.Snap(), key, EncValue(f, v));
      return;
    }
    Wrote(true, a, stream.Snap(), key);
    ok := EncodeValue(stream, f, v);
    Then(ok, EncodableValue(f, v), a, key, stream.Snap(), EncValue(f, v));
  }

  // ----- Arrays -----

  predicate AllEncodable(f: Field, vs: seq<Value>) {
    forall k :: 0 <= k < |vs| ==> EncodableValue(f, vs[k])
  }

  ghost predicate AllTyped(f: Field, vs: seq<Value>) {
    forall k :: 0 <= k < |vs| ==> TypedValue(f, vs[k])
  }

  lemma {:induction false} PackedSplit(f: Field, vs: seq<Value>, i: nat)
    requires i < |vs|
    ensures EncPacked(f, vs[..i + 1]) == EncPacked(f, vs[..i]) + EncScalar(f, vs[i])
    ensures EncPacked(f, vs) == EncPacked(f, vs[..i]) + EncScalar(f, vs[i]) + EncPacked(f, vs[i + 1..])
  {
    hide EncScalar;
    if i == 0 {
      assert vs[..1][1..] == [];
      assert vs[..1][0] == vs[0];
    } else {
      var t := vs[1..];
      PackedSplit(f, t, i - 1);
      assert vs[..i + 1][1..] == t[..i] && vs[..i][1..] == t[..i - 1] && vs[i + 1..] == t[i..];
      assert vs[..i + 1][0] == vs[0] && vs[..i][0] == vs[0];
    }
  }

  /** The prefix `x` has been written; writing `y` gave `ok`, with `z` still to come. */
  lemma PartWay(ok: bool, one: bool, all: bool, a: Snapshot, x: seq<byte>, c: Snapshot, y: seq<byte>, z: seq<byte>)
    requires Sane(a) && Room(a, |x|) && Writes(ok, one, Advance(a, x), c, y) && (all ==> one)
    ensures !ok ==> Writes(false, all, a, c, x + y + z)
    ensures ok ==> Room(a, |x + y|) && c == Advance(a, x + y)
  {
    Then(ok, one, a, x, c, y);
  }

  lemma Done(all: bool, a: Snapshot, bs: seq<byte>)
    requires all && Sane(a) && Room(a, |bs|)
    ensures Writes(true, all, a, Advance(a, bs), bs)
  {
    AdvanceTwice(a, bs, []);
  }

  lemma Nothing(a: Snapshot)
    requires Sane(a)
    ensures Room(a, 0) && Advance(a, []) == a
  {
    if !a.sizing { assert Splice(a.memory, a.state, []) == a.memory; }
  }

  /** The scalars of a packed array, one after another. */
  method EncodeItems(stream: OStream, f: Field, items: seq<Value>) returns (ok: bool)
    requires stream.Valid() && !f.ltype.Submessage? && AllTyped(f, items) && |EncPacked(f, items)| < TWO64
    modifies stream.Frame()
    ensures stream.Valid()
    ensures Writes(ok, AllEncodable(f, items), old(stream.Snap()), stream.Snap(), EncPacked(f, items))
  {
    hide Writes, EncScalar, EncPacked, Advance, Room, TypedValue, EncodableValue;
    ghost var a := stream.Snap();
    Nothing(a);
    NoItems(f);
    assert items[..0] == [];
    var i := 0;
    while i < |items|
      invariant stream.Valid() && i <= |items|
      invariant Room(a, |EncPacked(f, items[..i])|) && stream.Snap() == Advance(a, EncPacked(f, items[..i]))
      invariant forall k :: 0 <= k < i ==> EncodableValue(f, items[k])
    {
      ghost var x, y, z := EncPacked(f, items[..i]), EncScalar(f, items[i]), EncPacked(f, items[i + 1..]);
      PackedSplit(f, items, i);
      ok := EncodeScalar(stream, f, items[i]);
      PartWay(ok, EncodableValue(f, items[i]), AllEncodable(f, items), a, x, stream.Snap(), y, z);
      if !ok {
        return;
      }
      AcceptedOne(ok, EncodableValue(f, items[i]), Advance(a, x), stream.Snap(), y);
      i := i + 1;
    }
    assert items[..i] == items;
    Done(AllEncodable(f, items), a, EncPacked(f, items));
    return true;
  }

  lemma NoItems(f: Field)
    ensures EncPacked(f, []) == [] && EncRecords(f, []) == []
  {
  }

  lemma AcceptedOne(ok: bool, acceptable: bool, a: Snapshot, b: Snapshot, bs: seq<byte>)
    requires ok && Writes(ok, acceptable, a, b, bs)
    ensures acceptable
  {
  }

  /** The total size of the items of a packed array. */
  method PackedSize(f: Field, items: seq<Value>) returns (ok: bool, size: nat)
    requires Packable(f.ltype) && AllTyped(f, items) && |EncPacked(f, items)| < TWO64
    ensures ok <==> AllEncodable(f, items)
    ensures ok ==> size == |EncPacked(f, items)|
  {
    hide EncPacked, EncScalar, Writes, TypedValue;
    if f.ltype.Fixed32? {
      FixedSize(f, items, 4);
      return true, 4 * |items|;
    } else if f.ltype.Fixed64? {
      FixedSize(f, items, 8);
      return true, 8 * |items|;
    }
    var sizestream := new OStream.Sizing();
    ok := EncodeItems(sizestream, f, items);
    size := sizestream.bytesWritten;
    Measured(ok, AllEncodable(f, items), sizestream.Snap(), EncPacked(f, items));
  }

  lemma {:induction false} FixedSize(f: Field, items: seq<Value>, size: nat)
    requires (f.ltype.Fixed32? && size == 4) || (f.ltype.Fixed64? && size == 8)
    ensures |EncPacked(f, items)| == size * |items|
  {
    if items != [] { FixedSize(f, items[1..], size); }
  }

  lemma Measured(ok: bool, acceptable: bool, b: Snapshot, bs: seq<byte>)
    requires Writes(ok, acceptable, Snapshot(true, [], 0, 0, 0), b, bs)
    ensures ok == acceptable && (ok ==> b.bytesWritten == |bs|)
  {
  }

  /** The packed branch of `encode_array`. */
  method EncodePackedArray(stream: OStream, f: Field, items: seq<Value>) returns (ok: bool)
    requires stream.Valid() && WellFormedField(f) && Packable(f.ltype) && AllTyped(f, items)
    requires |EncPacked(f, items)| < TWO64
    modifies stream.Frame()
    ensures stream.Valid()
    ensures Writes(ok, AllEncodable(f, items), old(stream.Snap()), stream.Snap(),
                   EncKey(f.tag, WT_STRING) + Delimited(EncPacked(f, items)))
  {
    hide Writes, EncPacked, EncKey, EncVarint, AllTyped, AllEncodable;
    ghost var a := stream.Snap();
    ghost var key, body := EncKey(f.tag, WT_STRING), EncPacked(f, items);
    ghost var all := AllEncodable(f, items);
    ok := EncodeTag(stream, WT_STRING, f.tag);
    if !ok {
      Failed(true, all, a, stream.Snap(), key, Delimited(body));
      return;
    }
    ghost var b := stream.Snap();
    Wrote(true, a, b, key);
    var size;
    ok, size := PackedSize(f, items);
    if !ok {
      Refused(all, b, Delimited(body));
      Then(false, all, a, key, b, Delimited(body));
      return;
    }
    ok := stream.EncodeVarint(size);
    if !ok {
      Failed(true, all, b, stream.Snap(), EncVarint(size), body);
      Then(false, all, a, key, stream.Snap(), Delimited(body));
      return;
    }
    ghost var c := stream.Snap();
    Wrote(true, b, c, EncVarint(size));
    if stream.buf == null {
      stream.Count(size);
      Counted(all, c, stream.Snap(), body);
      Then(true, all, b, EncVarint(size), stream.Snap(), body);
      Then(true, all, a, key, stream.Snap(), Delimited(body));
      return true;
    }
    ok := EncodeItems(stream, f, items);
    Then(ok, all, b, EncVarint(size), stream.Snap(), body);
    Then(ok, all, a, key, stream.Snap(), Delimited(body));
  }

  lemma Refused(acceptable: bool, a: Snapshot, bs: seq<byte>)
    requires !acceptable
    ensures Writes(false, acceptable, a, a, bs)
  {
  }

  /** One record for each item. */
  method EncodeRecords(stream: OStream, f: Field, items: seq<Value>) returns (ok: bool)
    requires stream.Valid() && WellFormedField(f) && AllTyped(f, items) && |EncRecords(f, items)| < TWO64
    modifies stream.Frame()
    ensures stream.Valid()
    ensures Writes(ok, AllEncodable(f, items), old(stream.Snap()), stream.Snap(), EncRecords(f, items))
    decreases f, 2
  {
    hide Writes, EncValue, EncKey, EncRecords, Advance, Room, TypedValue, EncodableValue, WellFormedField;
    ghost var a := stream.Snap();
    Nothing(a);
    NoItems(f);
    assert items[..0] == [];
    var i := 0;
    while i < |items|
      invariant stream.Valid() && i <= |items|
      invariant Room(a, |EncRecords(f, items[..i])|) && stream.Snap() == Advance(a, EncRecords(f, items[..i]))
      invariant forall k :: 0 <= k < i ==> EncodableValue(f, items[k])
    {
      ghost var x, z := EncRecords(f, items[..i]), EncRecords(f, items[i + 1..]);
      ghost var y := EncKey(f.tag, WireType(f.ltype)) + EncValue(f, items[i]);
      RecordsSplit(f, items, i);
      ok := EncodeRecord(stream, f, items[i]);
      PartWay(ok, EncodableValue(f, items[i]), AllEncodable(f, items), a, x, stream.Snap(), y, z);
      if !ok {
        return;
      }
      AcceptedOne(ok, EncodableValue(f, items[i]), Advance(a, x), stream.Snap(), y);
      i := i + 1;
    }
    assert items[..i] == items;
    Done(AllEncodable(f, items), a, EncRecords(f, items));
    return true;
  }

  /** `encode_array` */
  method EncodeArray(stream: OStream, f: Field, items: seq<Value>) returns (ok: bool)
    requires stream.Valid() && WellFormedField(f) && f.htype.Repeated? && AllTyped(f, items)
    requires |EncSlot(f, Descriptor.Counted(items))| < TWO64
    modifies stream.Frame()
    ensures stream.Valid()
    ensures var x := Descriptor.Counted(items);
      Writes(ok, EncodableSlot(f, x), old(stream.Snap()), stream.Snap(), EncSlot(f, x))
    decreases f, 3
  {
    hide Writes, EncRecords, EncPacked, EncKey, AllTyped, WellFormedField, EncodableValue;
    ghost var a := stream.Snap();
    var count := |items|;
    NoItems(f);
    if count == 0 {
      Nothing(a);
      Done(true, a, []);
      return true;
    }
    if count > f.arraySize {
      Refused(EncodableSlot(f, Descriptor.Counted(items)), a, EncSlot(f, Descriptor.Counted(items)));
      return false;
    }
    if Packable(f.ltype) {
      ok := EncodePackedArray(stream, f, items);
    } else {
      ok := EncodeRecords(stream, f, items);
    }
  }

  /** `encode_basic_field` */
  method EncodeBasicField(stream: OStream, f: Field, x: Slot) returns (ok: bool)
    requires stream.Valid() && WellFormedField(f) && TypedSlot(f, x) && |EncSlot(f, x)| < TWO64
    modifies stream.Frame()
    ensures stream.Valid()
    ensures Writes(ok, EncodableSlot(f, x), old(stream.Snap()), stream.Snap(), EncSlot(f, x))
    decreases f, 4
  {
    hide Writes, EncValue, EncKey, EncPacked, WellFormedField, EncodableValue, TypedValue;
    ghost var a := stream.Snap();
    ghost var vs := Payload(f, x);
    var present := true;
    if f.htype.Optional? {
      if f.sizeOffset != 0 {
        present := x.has;
      } else {
        var zero := CheckProto3Default(f, x);
        present := !zero;
      }
    } else if f.htype.OneOf? {
      present := x.which == f.tag;
    }
    if f.htype.Repeated? {
      ok := EncodeArray(stream, f, x.items);
    } else if present {
      assert vs == [x.v];
      OneRecord(f, x.v);
      ok := EncodeRecord(stream, f, x.v);
    } else {
      assert vs == [];
      NoItems(f);
      Nothing(a);
      Done(true, a, []);
      return true;
    }
  }

  lemma OneRecord(f: Field, v: Value)
    ensures EncRecords(f, [v]) == EncKey(f.tag, WireType(f.ltype)) + EncValue(f, v)
    ensures EncodableValue(f, [v][0]) == EncodableValue(f, v)
  {
    assert [v][1..] == [];
  }

  /** `pb_encode` */
  method Encode(stream: OStream, fields: seq<Field>, m: seq<Slot>) returns (ok: bool)
    requires stream.Valid() && WellFormed(fields) && Typed(fields, m) && |Enc(fields, m)| < TWO64
    modifies stream.Frame()
    ensures stream.Valid()
    ensures Writes(ok, Encodable(fields, m), old(stream.Snap()), stream.Snap(), Enc(fields, m))
    decreases fields, 2
  {
    hide Writes, EncSlot, EncodableSlot, Encodable, TypedSlot, Advance, Room, WellFormedField, EncFrom, Typed, WellFormed;
    ghost var a := stream.Snap();
    Nothing(a);
    NoFields(fields, m);
    var iter := Decoder.NewIter(fields);
    if iter.Tag() == 0 {
      Done(true, a, []);
      return true;
    }
    ghost var x: seq<byte> := [];
    while true
      invariant stream.Valid() && iter.Valid() && iter.fields == fields && iter.pos < |fields|
      invariant fresh(iter)
      invariant Enc(fields, m) == x + EncFrom(fields, m, iter.pos)
      invariant Room(a, |x|) && stream.Snap() == Advance(a, x)
      invariant forall j :: 0 <= j < iter.pos ==> EncodableSlot(fields[j], At(m, fields[j].slot))
      decreases |fields| - iter.pos
    {
      var f := fields[iter.pos];
      ghost var y, z := EncSlot(f, At(m, f.slot)), EncFrom(fields, m, iter.pos + 1);
      FieldParts(fields, m, iter.pos);
      assert Enc(fields, m) == x + y + z;
      ok := EncodeBasicField(stream, f, At(m, f.slot));
      PartWay(ok, EncodableSlot(f, At(m, f.slot)), Encodable(fields, m), a, x, stream.Snap(), y, z);
      if !ok {
        return;
      }
      AcceptedOne(ok, EncodableSlot(f, At(m, f.slot)), Advance(a, x), stream.Snap(), y);
      x := x + y;
      var more := iter.Next();
      if !more {
        assert x == Enc(fields, m);
        AllFieldsEncodable(fields, m);
        Done(Encodable(fields, m), a, x);
        return true;
      }
    }
  }

  lemma AllFieldsEncodable(fields: seq<Field>, m: seq<Slot>)
    requires forall i :: 0 <= i < |fields| ==> EncodableSlot(fields[i], At(m, fields[i].slot))
    ensures Encodable(fields, m)
  {
    hide EncodableSlot;
  }

  lemma NoFields(fields: seq<Field>, m: seq<Slot>)
    ensures EncFrom(fields, m, |fields|) == []
    ensures fields == [] ==> Encodable(fields, m)
  {
  }

  lemma FieldParts(fields: seq<Field>, m: seq<Slot>, i: nat)
    requires WellFormed(fields) && Typed(fields, m) && i < |fields|
    ensures WellFormedField(fields[i]) && TypedSlot(fields[i], At(m, fields[i].slot))
    ensures EncFrom(fields, m, i) == EncSlot(fields[i], At(m, fields[i].slot)) + EncFrom(fields, m, i + 1)
    ensures Encodable(fields, m) ==> EncodableSlot(fields[i], At(m, fields[i].slot))
  {
    hide WellFormedField, TypedSlot, EncSlot, EncodableSlot;
  }

  // ----- The other entry points -----

  /** `pb_encode_delimited` */
  method EncodeDelimited(stream: OStream, fields: seq<Field>, m: seq<Slot>) returns (ok: bool)
    requires stream.Valid() && WellFormed(fields) && Typed(fields, m) && |Enc(fields, m)| < TWO64
    modifies stream.Frame()
    ensures stream.Valid()
    ensures Writes(ok, Encodable(fields, m), old(stream.Snap()), stream.Snap(), Delimited(Enc(fields, m)))
  {
    ok := EncodeSubmessage(stream, fields, m);
  }

  /** `pb_encode_nullterminated` */
  method EncodeNullTerminated(stream: OStream, fields: seq<Field>, m: seq<Slot>) returns (ok: bool)
    requires stream.Valid() && WellFormed(fields) && Typed(fields, m) && |Enc(fields, m)| < TWO64
    modifies stream.Frame()
    ensures stream.Valid()
    ensures Writes(ok, Encodable(fields, m), old(stream.Snap()), stream.Snap(), Enc(fields, m) + [0])
  {
    hide Writes, Enc, Encodable, Typed;
    ghost var a := stream.Snap();
    ok := Encode(stream, fields, m);
    if !ok {
      Failed(Encodable(fields, m), true, a, stream.Snap(), Enc(fields, m), [0]);
      return;
    }
    Wrote(Encodable(fields, m), a, stream.Snap(), Enc(fields, m));
    ok := stream.Write([0]);
    Then(ok, true, a, Enc(fields, m), stream.Snap(), [0]);
  }

  /** `pb_get_encoded_size` */
  method GetEncodedSize(fields: seq<Field>, m: seq<Slot>) returns (ok: bool, size: nat)
    requires WellFormed(fields) && Typed(fields, m) && |Enc(fields, m)| < TWO64
    ensures ok <==> Encodable(fields, m)
    ensures ok ==> size == |Enc(fields, m)|
  {
    hide Writes, Enc, Encodable, Typed;
    var stream := new OStream.Sizing();
    ok := Encode(stream, fields, m);
    size := stream.bytesWritten;
    Measured(ok, Encodable(fields, m), stream.Snap(), Enc(fields, m));
  }

  /** Encoding into a buffer of `n` bytes: it succeeds exactly when the measured size
      is at most `n`, and then changes precisely that prefix of the buffer. */
  method EncodeToBuffer(buffer: array<byte>, fields: seq<Field>, m: seq<Slot>) returns (ok: bool, written: nat)
    requires WellFormed(fields) && Typed(fields, m) && |Enc(fields, m)| < TWO64
    modifies buffer
    ensures ok <==> Encodable(fields, m) && |Enc(fields, m)| <= buffer.Length
    ensures ok ==> written == |Enc(fields, m)|
    ensures ok ==> buffer[..] == Enc(fields, m) + old(buffer[..])[written..]
  {
    hide Enc, Encodable, Typed;
    var stream := new OStream.OnBuffer(buffer, 0, buffer.Length);
    ok := Encode(stream, fields, m);
    written := stream.bytesWritten;
  }
}
