/**
 Message descriptors (`pb_field_t` arrays) and the C structures they describe.

 A structure is a sequence of slots, one per struct member; the members of one
 oneof share a slot, as they share a C union. Unused storage (array entries past
 the count, an unselected union, string bytes past the NUL) is not represented.
 */
module Descriptor {
  import opened Wrappers
  import opened Bits

  // Widths of the repository's build (`PB_FIELD_32BIT`): `pb_size_t` is 32 bits wide.
  const PB_SIZE_MAX: nat := 0xFFFF_FFFF
  const PB_SIZE_WIDTH: nat := 4
  const BYTES_HEADER: nat := PB_SIZE_WIDTH
  const PB_MAX_REQUIRED_FIELDS: nat := 64

  datatype LType =
    Bool | Varint | UVarint | SVarint | Fixed32 | Fixed64 | Bytes | String | Submessage | FixedLengthBytes

  datatype HType = Required | Optional | Repeated | OneOf

  /** One `pb_field_t` with static allocation. `slot` is the struct member the field
      lives in; `sub` and `dflt` are the two readings of its `ptr`. An optional field
      with `sizeOffset == 0` has no `has_` flag (proto3 implicit presence). */
  datatype Field = Field(
    tag: nat, ltype: LType, htype: HType,
    dataOffset: nat, sizeOffset: int, dataSize: nat, arraySize: nat,
    slot: nat, sub: seq<Field>, dflt: Option<Value>)

  datatype Value =
    | Num(n: int)              // bool, integers, bit patterns of fixed32 and fixed64
    | Str(bytes: seq<byte>)    // bytes, fixed length bytes, string up to its NUL
    | Msg(slots: seq<Slot>)

  datatype Slot =
    | Plain(v: Value)                  // required, or implicit presence
    | Flagged(has: bool, v: Value)     // optional with a has_ flag
    | Counted(items: seq<Value>)       // repeated with a _count
    | Union(which: nat, v: Value)      // oneof with its which_ member

  // ----- Total accessors -----

  function NumOf(v: Value): int { if v.Num? then v.n else 0 }
  function StrOf(v: Value): seq<byte> { if v.Str? then v.bytes else [] }
  function MsgOf(v: Value): seq<Slot> { if v.Msg? then v.slots else [] }
  function ItemsOf(x: Slot): seq<Value> { if x.Counted? then x.items else [] }
  function DataOf(x: Slot): Value { if x.Counted? then UNUSED else x.v }
  function At(m: seq<Slot>, k: nat): Slot { if k < |m| then m[k] else Counted([]) }
  function Put(m: seq<Slot>, k: nat, x: Slot): (r: seq<Slot>)
    ensures |r| == |m|
  {
    if k < |m| then m[k := x] else m
  }

  lemma PutTwice(m: seq<Slot>, k: nat, x: Slot, y: Slot)
    ensures Put(Put(m, k, x), k, y) == Put(m, k, y)
    ensures k < |m| ==> At(Put(m, k, x), k) == x
  {
  }

  /** Stands for storage nothing reads. */
  const UNUSED: Value := Num(0)

  predicate Packable(t: LType) {
    t.Bool? || t.Varint? || t.UVarint? || t.SVarint? || t.Fixed32? || t.Fixed64?
  }

  predicate IntSize(size: nat) { size == 1 || size == 2 || size == 4 || size == 8 }

  function NumSlots(fields: seq<Field>): nat {
    if fields == [] then 0 else fields[|fields| - 1].slot + 1
  }

  // ----- Default values -----

  function Zeros(n: nat): (s: seq<byte>)
    ensures |s| == n
  {
    if n == 0 then [] else [0] + Zeros(n - 1)
  }

  lemma {:induction false} ZerosAt(n: nat, k: nat)
    requires k < n
    ensures Zeros(n)[k] == 0
  {
    if k > 0 { ZerosAt(n - 1, k - 1); }
  }

  /** The data `pb_field_set_to_default` stores. */
  function DefaultValue(f: Field): Value
    decreases f, 0
  {
    if f.ltype.Submessage? then Msg(Defaults(f.sub))
    else if f.dflt.Some? then f.dflt.value
    else if f.ltype.Bytes? || f.ltype.String? then Str([])
    else if f.ltype.FixedLengthBytes? then Str(Zeros(f.dataSize))
    else Num(0)
  }

  /** `pb_field_set_to_default` */
  function DefaultSlot(f: Field): Slot
    decreases f, 1
  {
    match f.htype
    case Required => Plain(DefaultValue(f))
    case Optional => if f.sizeOffset != 0 then Flagged(false, DefaultValue(f)) else Plain(DefaultValue(f))
    case Repeated => Counted([])
    case OneOf => Union(0, UNUSED)
  }

  /** `pb_message_set_to_defaults`, from field `i` on. */
  function SetDefaults(fields: seq<Field>, m: seq<Slot>, i: nat): (r: seq<Slot>)
    requires i <= |fields|
    ensures |r| == |m|
    decreases fields, |fields| - i
  {
    if i == |fields| then m
    else SetDefaults(fields, Put(m, fields[i].slot, DefaultSlot(fields[i])), i + 1)
  }

  function Blank(n: nat): (m: seq<Slot>)
    ensures |m| == n
  {
    seq(n, _ => Counted([]))
  }

  /** A freshly initialised structure. */
  function Defaults(fields: seq<Field>): (m: seq<Slot>)
    ensures |m| == NumSlots(fields)
    decreases fields, |fields| + 1
  {
    SetDefaults(fields, Blank(NumSlots(fields)), 0)
  }

  // ----- Presence -----

  /** `pb_check_proto3_default_value` on the data alone. */
  predicate IsZero(f: Field, v: Value)
    decreases f, 0
  {
    match f.ltype
    case Bytes => StrOf(v) == []
    case String => StrOf(v) == []
    case FixedLengthBytes => f.dataSize == 0
    case Submessage => IsDefault(f.sub, MsgOf(v), 0)
    case _ => f.dataSize == 0 || NumOf(v) == 0
  }

  /** `pb_check_proto3_default_value` */
  predicate IsDefaultSlot(f: Field, x: Slot)
    decreases f, 1
  {
    match f.htype
    case Required => false
    case Repeated => f.sizeOffset != 0 && ItemsOf(x) == []
    case OneOf => x.Union? && x.which == 0
    case Optional => if f.sizeOffset != 0 then x.Flagged? && !x.has else IsZero(f, DataOf(x))
  }

  predicate IsDefault(fields: seq<Field>, m: seq<Slot>, i: nat)
    requires i <= |fields|
    decreases fields, |fields| - i
  {
    i == |fields| || (IsDefaultSlot(fields[i], At(m, fields[i].slot)) && IsDefault(fields, m, i + 1))
  }

  /** The values of a field that are present, and so are encoded, in order. */
  function Payload(f: Field, x: Slot): seq<Value> {
    match f.htype
    case Required => [DataOf(x)]
    case Optional =>
      if f.sizeOffset != 0 then (if x.Flagged? && x.has then [x.v] else [])
      else (if IsZero(f, DataOf(x)) then [] else [DataOf(x)])
    case Repeated => ItemsOf(x)
    case OneOf => if x.Union? && x.which == f.tag then [x.v] else []
  }

  // ----- Descriptors the generator produces -----

  /** The layout of consecutive fields: the next struct member, or the same union. */
  predicate Follows(f: Field, g: Field) {
    if g.slot == f.slot then
      f.htype.OneOf? && g.htype.OneOf? && g.dataOffset == PB_SIZE_MAX && g.sizeOffset == f.sizeOffset
    else
      g.slot == f.slot + 1 && !(f.htype.OneOf? && g.htype.OneOf? && g.dataOffset == PB_SIZE_MAX)
  }

  ghost predicate DistinctTags(fields: seq<Field>) {
    forall i, j :: 0 <= i < j < |fields| ==> fields[i].tag != fields[j].tag
  }

  /** Bytes a field's data takes in the struct. */
  function Footprint(f: Field): nat {
    if f.htype.Repeated? then f.dataSize * f.arraySize else f.dataSize
  }

  /** Bytes of its has_, _count or which_ member. */
  function SizeWidth(f: Field): nat {
    if f.sizeOffset == 0 then 0 else if f.htype.Optional? then 1 else PB_SIZE_WIDTH
  }

  /** How far from the end of the previous data the member starts, with its has_, _count
      or which_ member. */
  function Gap(f: Field): int { f.dataOffset + f.sizeOffset }

  /** A has_, _count or which_ member lies before its data. */
  predicate SizeFirst(f: Field) { f.sizeOffset + SizeWidth(f) <= 0 }

  /** The member that starts at field `j` lies past the data of field `i`, when `i`
      belongs to the member before. */
  predicate StartsPast(fields: seq<Field>, i: nat, j: nat)
    requires i < j < |fields|
  {
    fields[i].slot == fields[j - 1].slot != fields[j].slot ==>
      Footprint(fields[i]) <= Footprint(fields[j - 1]) + Gap(fields[j])
  }

  ghost predicate WellLaidOut(fields: seq<Field>) {
    && (fields != [] ==> fields[0].slot == 0 && Gap(fields[0]) >= 0)
    && (forall i :: 0 < i < |fields| ==> Follows(fields[i - 1], fields[i]))
    && (forall i :: 0 <= i < |fields| ==> SizeFirst(fields[i]))
    && (forall i, j :: 0 <= i < j < |fields| ==> StartsPast(fields, i, j))
  }

  ghost predicate WellFormed(fields: seq<Field>)
    decreases fields, 0
  {
    && DistinctTags(fields)
    && WellLaidOut(fields)
    && (forall i :: 0 <= i < |fields| ==> WellFormedField(fields[i]))
  }

  ghost predicate WellFormedField(f: Field)
    decreases f, 0
  {
    && 0 < f.tag < 0x2000_0000
    && (f.htype.Required? ==> f.sizeOffset == 0)
    && (f.htype.Repeated? || f.htype.OneOf? ==> f.sizeOffset != 0)
    && (f.ltype.Bool? ==> f.dataSize == 1)
    && (f.ltype.Varint? || f.ltype.UVarint? || f.ltype.SVarint? ==> IntSize(f.dataSize))
    && (f.ltype.Fixed32? ==> f.dataSize == 4)
    && (f.ltype.Fixed64? ==> f.dataSize == 8)
    && (f.ltype.Bytes? ==> f.dataSize >= BYTES_HEADER)
    && (f.ltype.String? ==> f.dataSize >= 1)
    && (f.ltype.FixedLengthBytes? ==> f.dataSize <= PB_SIZE_MAX)
    && (f.ltype.Submessage? ==> WellFormed(f.sub))
    && (f.htype.Optional? && f.sizeOffset == 0 ==> f.dflt.None?)
    && (f.dflt.Some? && !f.ltype.Submessage? ==> NormalScalar(f, f.dflt.value))
  }

  /** A value of a non-message field that the decoder can store. */
  predicate NormalScalar(f: Field, v: Value) {
    match f.ltype
    case Bool => v == Num(0) || v == Num(1)
    case Varint => v.Num? && InSigned(v.n, f.dataSize)
    case UVarint => v.Num? && InUnsigned(v.n, f.dataSize)
    case SVarint => v.Num? && InSigned(v.n, f.dataSize)
    case Fixed32 => v.Num? && 0 <= v.n < TWO32
    case Fixed64 => v.Num? && 0 <= v.n < TWO64
    case Bytes => v.Str? && |v.bytes| <= PB_SIZE_MAX && |v.bytes| + BYTES_HEADER <= f.dataSize
    case String => v.Str? && |v.bytes| < f.dataSize && 0 !in v.bytes
    case FixedLengthBytes => v.Str? && |v.bytes| == f.dataSize
    case Submessage => false
  }

  // ----- Messages -----

  /** What the C type of the field can hold. A bool may hold any byte; a string may
      fill its buffer without a terminating NUL; a bytes size may exceed its buffer. */
  ghost predicate TypedValue(f: Field, v: Value)
    decreases f, 0
  {
    match f.ltype
    case Bool => v.Num? && 0 <= v.n < 256
    case Bytes => v.Str? && |v.bytes| <= PB_SIZE_MAX
    case String => v.Str? && |v.bytes| <= f.dataSize && 0 !in v.bytes
    case Submessage => v.Msg? && Typed(f.sub, v.slots)
    case _ => NormalScalar(f, v)
  }

  predicate SlotKind(f: Field, x: Slot) {
    match f.htype
    case Required => x.Plain?
    case Optional => if f.sizeOffset != 0 then x.Flagged? else x.Plain?
    case Repeated => x.Counted?
    case OneOf => x.Union?
  }

  ghost predicate TypedSlot(f: Field, x: Slot)
    decreases f, 1
  {
    && SlotKind(f, x)
    && (x.Plain? ==> TypedValue(f, x.v))
    && (forall k :: 0 <= k < |Payload(f, x)| ==> TypedValue(f, Payload(f, x)[k]))
  }

  ghost predicate Typed(fields: seq<Field>, m: seq<Slot>)
    decreases fields, 0
  {
    && |m| == NumSlots(fields)
    && (forall i :: 0 <= i < |fields| ==> TypedSlot(fields[i], At(m, fields[i].slot)))
  }

  /** The messages `pb_encode` accepts. */
  predicate EncodableValue(f: Field, v: Value)
    decreases f, 0
  {
    match f.ltype
    case Varint => IntSize(f.dataSize)
    case UVarint => IntSize(f.dataSize)
    case SVarint => IntSize(f.dataSize)
    case Bytes => |StrOf(v)| + BYTES_HEADER <= f.dataSize
    case Submessage => Encodable(f.sub, MsgOf(v))
    case _ => true
  }

  predicate EncodableSlot(f: Field, x: Slot)
    decreases f, 1
  {
    && (f.htype.Repeated? ==> |ItemsOf(x)| <= f.arraySize)
    && (forall k :: 0 <= k < |Payload(f, x)| ==> EncodableValue(f, Payload(f, x)[k]))
  }

  predicate Encodable(fields: seq<Field>, m: seq<Slot>)
    decreases fields, 0
  {
    forall i :: 0 <= i < |fields| ==> EncodableSlot(fields[i], At(m, fields[i].slot))
  }

  /** Every string that is encoded leaves room for its NUL. */
  predicate TerminatedValue(f: Field, v: Value)
    decreases f, 0
  {
    match f.ltype
    case String => |StrOf(v)| < f.dataSize
    case Submessage => Terminated(f.sub, MsgOf(v))
    case _ => true
  }

  predicate TerminatedSlot(f: Field, x: Slot)
    decreases f, 1
  {
    forall k :: 0 <= k < |Payload(f, x)| ==> TerminatedValue(f, Payload(f, x)[k])
  }

  predicate Terminated(fields: seq<Field>, m: seq<Slot>)
    decreases fields, 0
  {
    forall i :: 0 <= i < |fields| ==> TerminatedSlot(fields[i], At(m, fields[i].slot))
  }
}
