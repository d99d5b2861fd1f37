/**
 Unknown fields: what the payload of each wire type is, that exactly it is skipped,
 and that every field is written with the wire type other readers skip it by.
 */
module Skipping {
  import opened Wrappers
  import opened Bits
  import opened Varint
  import opened Descriptor
  import opened Wire
  import opened Records
  import RT = RoundTrip

  // ----- Payloads -----

  /** The payloads of the wire types in the section "Message Structure": a varint of any
      length, eight bytes, a length with that many bytes, four bytes. */
  ghost predicate IsPayload(wireType: nat, p: seq<byte>) {
    if wireType == 0 then Complete(p) && VarintSize(p) == |p|
    else if wireType == 1 then |p| == 8
    else if wireType == 2 then exists body: seq<byte> :: |body| < TWO32 && p == Delimited(body)
    else if wireType == 5 then |p| == 4
    else false
  }

  lemma {:induction false} VarintSkipped(s: seq<byte>)
    ensures SkipVarint(s) == if Complete(s) then Got((), s[VarintSize(s)..]) else Fail
    decreases |s|
  {
    if s != [] && s[0] >= 128 { VarintSkipped(s[1..]); }
  }

  lemma {:induction false} CompleteExtends(s: seq<byte>, t: seq<byte>)
    requires Complete(s)
    ensures Complete(s + t) && VarintSize(s + t) == VarintSize(s)
    decreases |s|
  {
    assert (s + t)[1..] == s[1..] + t;
    if s[0] >= 128 { CompleteExtends(s[1..], t); }
  }

  /** A payload is skipped, and nothing of what follows it. */
  lemma PayloadSkipped(wireType: nat, p: seq<byte>, t: seq<byte>)
    requires IsPayload(wireType, p)
    ensures SkipField(wireType, p + t) == Got((), t)
  {
    hide SkipVarint, Delimited, DecVarint32, Complete, VarintSize;
    if wireType == 0 {
      CompleteExtends(p, t);
      VarintSkipped(p + t);
      assert (p + t)[|p|..] == t;
    } else if wireType == 2 {
      var body: seq<byte> :| |body| < TWO32 && p == Delimited(body);
      RT.DelimitedBack(body, t);
    } else {
      RT.TakeBack(p, t);
    }
  }

  /** When a field can be skipped at all, and up to where. */
  lemma SkipExactly(wireType: nat, s: seq<byte>)
    ensures wireType == 0 ==>
      SkipField(wireType, s) == if Complete(s) then Got((), s[VarintSize(s)..]) else Fail
    ensures wireType == 1 ==> SkipField(wireType, s) == if |s| >= 8 then Got((), s[8..]) else Fail
    ensures wireType == 2 ==>
      var p := DecVarint32(s);
      SkipField(wireType, s) ==
      if p.Got? && |p.rest| >= p.value then Got((), p.rest[p.value..]) else Fail
    ensures wireType == 5 ==> SkipField(wireType, s) == if |s| >= 4 then Got((), s[4..]) else Fail
    ensures wireType !in {0, 1, 2, 5} ==> SkipField(wireType, s).Fail?
  {
    hide SkipVarint, DecVarint32, Complete, VarintSize;
    VarintSkipped(s);
  }

  /** A key is a non-zero varint, eight times the tag plus the wire type; a zero, in
      whatever form, ends the message. */
  lemma KeyExactly(s: seq<byte>, tag: nat, wireType: nat)
    ensures DecTag(s).BadTag? <==> DecVarint32(s).Fail?
    ensures DecTag(s).ZeroTag? <==> DecVarint32(s).Got? && DecVarint32(s).value == 0
    ensures DecTag(s).Key? && DecTag(s).tag == tag && DecTag(s).wireType == wireType <==>
      DecVarint32(s).Got? && wireType < 8 && DecVarint32(s).value == 8 * tag + wireType > 0
  {
    hide DecVarint32;
  }

  // ----- Unknown records -----

  predicate Lacks(fields: seq<Field>, tag: nat) {
    forall i :: 0 <= i < |fields| ==> fields[i].tag != tag
  }

  lemma KeyedRecord(fields: seq<Field>, tag: nat, wireType: nat, p: seq<byte>)
    requires Lacks(fields, tag) && 0 < tag < 0x2000_0000 && wireType < 8 && IsPayload(wireType, p)
    ensures UnknownRecord(fields, EncKey(tag, wireType) + p)
  {
    hide SkipField, IsPayload, DecVarint32, EncVarint;
    RT.KeyBack(tag, wireType, p);
    NotFound(fields, tag);
    PayloadSkipped(wireType, p, []);
    assert p + [] == p;
    hide DecTag;
  }

  /** A record of an unknown tag, with any payload of its wire type, put between records
      and any bytes changes neither acceptance nor the message nor what is left. */
  lemma UnknownFieldIgnored(fields: seq<Field>, a: seq<Slot>, s: seq<byte>, tag: nat, wireType: nat, p: seq<byte>,
                            t: seq<byte>)
    requires IsRecords(fields, a, s)
    requires Lacks(fields, tag) && 0 < tag < 0x2000_0000 && wireType < 8 && IsPayload(wireType, p)
    ensures Decode(fields, a, s + (EncKey(tag, wireType) + p) + t) == Decode(fields, a, s + t)
  {
    hide Decode, IsRecords, UnknownRecord, IsPayload;
    KeyedRecord(fields, tag, wireType, p);
    UnknownIsTransparent(fields, a, s, EncKey(tag, wireType) + p, t);
  }

  /** A record of an unknown tag that cannot be skipped is refused: a payload cut short,
      or the wire type of a group. */
  lemma UnknownFieldRefused(fields: seq<Field>, a: seq<Slot>, s: seq<byte>, tag: nat, wireType: nat, t: seq<byte>)
    requires IsRecords(fields, a, s)
    requires Lacks(fields, tag) && 0 < tag < 0x2000_0000 && wireType < 8 && SkipField(wireType, t).Fail?
    ensures Decode(fields, a, s + (EncKey(tag, wireType) + t)).Fail?
  {
    hide SkipField, DecVarint32, EncVarint;
    var u := EncKey(tag, wireType) + t;
    var o := Run(fields, a, {}, s);
    RT.KeyBack(tag, wireType, t);
    NotFound(fields, tag);
    hide DecTag, FindTag;
    assert u != [] by { KeyNotEmpty(tag, wireType, t); }
    assert Run(fields, o.m, o.seen, u).Bad?;
    RunConcat(fields, a, {}, s, u);
  }

  lemma KeyNotEmpty(tag: nat, wireType: nat, t: seq<byte>)
    ensures EncKey(tag, wireType) + t != []
  {
    hide EncVarint;
  }

  /** An unknown string is skipped with its contents, whatever they look like. */
  lemma UnknownStringExample()
    ensures var f := Field(1, Varint, Optional, 0, 0, 4, 0, 0, [], None);
      Decode([f], [Plain(Num(0))], [0x12, 0x02, 0x08, 0x07]) == Got([Plain(Num(0))], [])
  {
    hide EncVarint;
    var f := Field(1, Varint, Optional, 0, 0, 4, 0, 0, [], None);
    var fields, a := [f], [Plain(Num(0))];
    assert EncVarint(18) == [0x12] && EncVarint(2) == [0x02] by { SmallVarints(); }
    assert Delimited([0x08, 0x07]) == [0x02, 0x08, 0x07];
    assert IsPayload(2, [0x02, 0x08, 0x07]);
    hide IsPayload, Run;
    RunEmpty(fields, a, {});
    var none: seq<byte> := [];
    assert none + none == none;
    UnknownFieldIgnored(fields, a, none, 2, 2, [0x02, 0x08, 0x07], none);
    assert none + (EncKey(2, 2) + [0x02, 0x08, 0x07]) + none == [0x12, 0x02, 0x08, 0x07];
  }

  lemma SmallVarints()
    ensures forall v: nat :: v < 128 ==> EncVarint(v) == [v]
  {
  }

  // ----- Fields are written with the wire type they are skipped by -----

  lemma {:induction false} WrittenComplete(v: nat)
    ensures Complete(EncVarint(v)) && VarintSize(EncVarint(v)) == |EncVarint(v)|
  {
    if v >= 128 {
      WrittenComplete(v / 128);
      assert EncVarint(v)[1..] == EncVarint(v / 128);
    }
  }

  /** The encoding of a value is a payload of the wire type in the key of its field. */
  lemma ValueIsPayload(f: Field, v: Value)
    requires RT.Sound(f, v) && |EncValue(f, v)| < TWO32
    ensures IsPayload(WireType(f.ltype), EncValue(f, v))
  {
    hide EncVarint, LittleEndian, Enc, Complete, VarintSize;
    match f.ltype
    case Bool => WrittenComplete(if NumOf(v) != 0 then 1 else 0);
    case Varint => WrittenComplete(NumOf(v) % TWO64);
    case UVarint => WrittenComplete(NumOf(v) % TWO64);
    case SVarint => WrittenComplete(ZigZag(NumOf(v)));
    case Fixed32 =>
    case Fixed64 =>
    case Submessage => assert EncValue(f, v) == Delimited(Enc(f.sub, MsgOf(v)));
    case _ => assert EncValue(f, v) == Delimited(StrOf(v));
  }

  /** Only numbers can be packed: the types that are not written with a length. */
  lemma PackableIsNumeric(t: LType)
    ensures Packable(t) <==> WireType(t) != WT_STRING
  {
  }

  lemma RecordSkipped(fields: seq<Field>, m: seq<Slot>, seen: set<nat>, tag: nat, wireType: nat, p: seq<byte>,
                      rest: seq<byte>)
    requires Lacks(fields, tag) && 0 < tag < 0x2000_0000 && wireType < 8 && IsPayload(wireType, p)
    ensures Run(fields, m, seen, EncKey(tag, wireType) + p + rest) == Run(fields, m, seen, rest)
  {
    hide Run, UnknownRecord, IsPayload;
    KeyedRecord(fields, tag, wireType, p);
    UnknownSkipped(fields, m, seen, EncKey(tag, wireType) + p, rest);
  }

  lemma {:induction false} RecordsSkipped(fields: seq<Field>, m: seq<Slot>, seen: set<nat>, f: Field, vs: seq<Value>,
                                          rest: seq<byte>)
    requires WellFormedField(f) && Lacks(fields, f.tag)
    requires RT.AllSound(f, vs) && |EncRecords(f, vs)| < TWO32
    ensures Run(fields, m, seen, EncRecords(f, vs) + rest) == Run(fields, m, seen, rest)
    decreases |vs|
  {
    hide Run, EncRecords, EncValue, EncKey, RT.AllSound, RT.Sound, Lacks, IsPayload;
    if vs == [] {
      RT.NoRecords(f, rest);
    } else {
      var more := EncRecords(f, vs[1..]) + rest;
      RT.FirstRecord(f, vs, rest);
      RT.SplitSound(f, vs);
      ValueIsPayload(f, vs[0]);
      RecordSkipped(fields, m, seen, f.tag, WireType(f.ltype), EncValue(f, vs[0]), more);
      assert EncKey(f.tag, WireType(f.ltype)) + (EncValue(f, vs[0]) + more) ==
             EncKey(f.tag, WireType(f.ltype)) + EncValue(f, vs[0]) + more;
      RecordsSkipped(fields, m, seen, f, vs[1..], rest);
    }
  }

  lemma SlotSkipped(fields: seq<Field>, m: seq<Slot>, seen: set<nat>, f: Field, y: Slot, rest: seq<byte>)
    requires WellFormedField(f) && Lacks(fields, f.tag)
    requires RT.AllSound(f, Payload(f, y)) && |EncSlot(f, y)| < TWO32
    ensures Run(fields, m, seen, EncSlot(f, y) + rest) == Run(fields, m, seen, rest)
  {
    hide Run, EncSlot, EncRecords, EncPacked, EncKey, EncVarint, RT.AllSound, Lacks, Payload, WellFormedField, TerminatedSlot;
    var vs := Payload(f, y);
    var packed := vs != [] && f.htype.Repeated? && Packable(f.ltype);
    RT.SlotBytes(f, y, packed);
    TagInRange(f);
    if packed {
      var body := EncPacked(f, vs);
      RT.DelimitedIsLonger(body);
      assert IsPayload(2, Delimited(body));
      hide Delimited, IsPayload;
      RecordSkipped(fields, m, seen, f.tag, WT_STRING, Delimited(body), rest);
    } else {
      RecordsSkipped(fields, m, seen, f, vs, rest);
    }
  }

  lemma TagInRange(f: Field)
    requires WellFormedField(f)
    ensures 0 < f.tag < 0x2000_0000
  {
  }

  lemma {:induction false} FieldsSkipped(others: seq<Field>, m: seq<Slot>, seen: set<nat>, fields: seq<Field>, n: seq<Slot>,
                                         i: nat, rest: seq<byte>)
    requires i <= |fields| && WellFormed(fields) && Typed(fields, n) && Encodable(fields, n)
    requires forall j :: 0 <= j < |fields| ==> Lacks(others, fields[j].tag)
    requires |EncFrom(fields, n, i)| < TWO32
    ensures Run(others, m, seen, EncFrom(fields, n, i) + rest) == Run(others, m, seen, rest)
    decreases |fields| - i
  {
    hide Run, EncSlot, Lacks, Typed, Encodable, RT.AllSound, Payload;
    if i == |fields| {
      assert EncFrom(fields, n, i) + rest == rest;
    } else {
      var f, y := fields[i], At(n, fields[i].slot);
      RT.SoundPayload(fields, n, i);
      assert WellFormedField(f);
      hide WellFormed, WellFormedField;
      var more := EncFrom(fields, n, i + 1) + rest;
      assert EncFrom(fields, n, i) + rest == EncSlot(f, y) + more;
      SlotSkipped(others, m, seen, f, y, more);
      FieldsSkipped(others, m, seen, fields, n, i + 1, rest);
    }
  }

  /** A message of which the reader knows no field is skipped to its end: the wire type
      of every field frames its value for readers that do not know it. */
  lemma ForeignMessageSkipped(others: seq<Field>, a: seq<Slot>, fields: seq<Field>, n: seq<Slot>, rest: seq<byte>)
    requires WellFormed(fields) && Typed(fields, n) && Encodable(fields, n) && |Enc(fields, n)| < TWO32
    requires forall j :: 0 <= j < |fields| ==> Lacks(others, fields[j].tag)
    ensures Decode(others, a, Enc(fields, n) + rest) == Decode(others, a, rest)
  {
    hide Run, EncFrom, Lacks, WellFormed, Typed, Encodable;
    FieldsSkipped(others, a, {}, fields, n, 0, rest);
  }
}
