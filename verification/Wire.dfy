/**
 The wire format as functions on byte strings: what `pb_encode` writes and what
 `pb_decode` makes of any input.
 */
module Wire {
  import opened Wrappers
  import opened Bits
  import opened Varint
  import opened Descriptor

  const WT_VARINT: nat := 0
  const WT_64BIT: nat := 1
  const WT_STRING: nat := 2
  const WT_32BIT: nat := 5

  function WireType(t: LType): (w: nat)
    ensures w < 8
  {
    match t
    case Fixed32 => WT_32BIT
    case Fixed64 => WT_64BIT
    case Bytes => WT_STRING
    case String => WT_STRING
    case Submessage => WT_STRING
    case FixedLengthBytes => WT_STRING
    case _ => WT_VARINT
  }

  // ----- Encoding -----

  function EncKey(tag: nat, wireType: nat): seq<byte> {
    EncVarint(tag * 8 + wireType)
  }

  function Delimited(body: seq<byte>): seq<byte> {
    EncVarint(|body|) + body
  }

  function EncScalar(f: Field, v: Value): seq<byte> {
    match f.ltype
    case Bool => EncVarint(if NumOf(v) != 0 then 1 else 0)
    case Varint => EncVarint(NumOf(v) % TWO64)
    case UVarint => EncVarint(NumOf(v) % TWO64)
    case SVarint => EncVarint(ZigZag(NumOf(v)))
    case Fixed32 => LittleEndian(NumOf(v) % TWO32, 4)
    case Fixed64 => LittleEndian(NumOf(v) % TWO64, 8)
    case _ => Delimited(StrOf(v))
  }

  function EncValue(f: Field, v: Value): seq<byte>
    decreases f, 0
  {
    if f.ltype.Submessage? then Delimited(Enc(f.sub, MsgOf(v))) else EncScalar(f, v)
  }

  /** The values of a packed array, without keys. */
  function EncPacked(f: Field, vs: seq<Value>): seq<byte> {
    if vs == [] then [] else EncScalar(f, vs[0]) + EncPacked(f, vs[1..])
  }

  /** One record for each value. */
  function EncRecords(f: Field, vs: seq<Value>): seq<byte>
    decreases f, 1, |vs|
  {
    if vs == [] then []
    else EncKey(f.tag, WireType(f.ltype)) + EncValue(f, vs[0]) + EncRecords(f, vs[1..])
  }

  /** The records before item `i`, its own, and those after it. */
  lemma {:induction false} RecordsSplit(f: Field, vs: seq<Value>, i: nat)
    requires i < |vs|
    ensures var one := EncKey(f.tag, WireType(f.ltype)) + EncValue(f, vs[i]);
      && EncRecords(f, vs[..i + 1]) == EncRecords(f, vs[..i]) + one
      && EncRecords(f, vs) == EncRecords(f, vs[..i]) + one + EncRecords(f, vs[i + 1..])
    decreases i
  {
    hide EncValue, EncKey;
    if i == 0 {
      assert vs[..1][1..] == [];
      assert vs[..1][0] == vs[0];
    } else {
      var t := vs[1..];
      RecordsSplit(f, t, i - 1);
      assert vs[..i + 1][1..] == t[..i] && vs[..i][1..] == t[..i - 1] && vs[i + 1..] == t[i..];
      assert vs[..i + 1][0] == vs[0] && vs[..i][0] == vs[0];
    }
  }

  function EncSlot(f: Field, x: Slot): seq<byte>
    decreases f, 2
  {
    var vs := Payload(f, x);
    if vs != [] && f.htype.Repeated? && Packable(f.ltype) then
      EncKey(f.tag, WT_STRING) + Delimited(EncPacked(f, vs))
    else EncRecords(f, vs)
  }

  function EncFrom(fields: seq<Field>, m: seq<Slot>, i: nat): seq<byte>
    requires i <= |fields|
    decreases fields, |fields| - i
  {
    if i == |fields| then []
    else EncSlot(fields[i], At(m, fields[i].slot)) + EncFrom(fields, m, i + 1)
  }

  function Enc(fields: seq<Field>, m: seq<Slot>): seq<byte>
    decreases fields, |fields| + 1
  {
    EncFrom(fields, m, 0)
  }

  // ----- Decoding -----

  datatype Tag =
    | BadTag
    | ZeroTag(rest: seq<byte>)                             // ends a null-terminated message
    | Key(tag: nat, wireType: nat, rest: seq<byte>)

  /** `pb_decode_tag` on a stream that is not at its end */
  function DecTag(s: seq<byte>): (t: Tag)
    ensures t.ZeroTag? || t.Key? ==> |t.rest| < |s|
    ensures t.Key? ==> t.wireType < 8
  {
    match DecVarint32(s)
    case Fail => BadTag
    case Got(v, rest) => if v == 0 then ZeroTag(rest) else Key(v / 8, v % 8, rest)
  }

  /** Splits off the next `n` bytes. */
  function Take(s: seq<byte>, n: nat): (p: Parse<seq<byte>>)
    ensures p.Got? ==> |p.rest| + n == |s|
  {
    if |s| < n then Fail else Got(s[..n], s[n..])
  }

  /** A length and that many bytes: `pb_make_string_substream`. */
  function TakeDelimited(s: seq<byte>): (p: Parse<seq<byte>>)
    ensures p.Got? ==> |p.rest| < |s|
  {
    match DecVarint32(s)
    case Fail => Fail
    case Got(n, rest) => Take(rest, n)
  }

  /** `pb_skip_varint`: any number of continuation bytes. */
  function SkipVarint(s: seq<byte>): (p: Parse<()>)
    ensures p.Got? ==> |p.rest| < |s|
  {
    if s == [] then Fail
    else if s[0] < 128 then Got((), s[1..])
    else SkipVarint(s[1..])
  }

  function Forget<T>(p: Parse<T>): Parse<()> {
    match p case Fail => Fail case Got(_, rest) => Got((), rest)
  }

  /** `pb_skip_field` */
  function SkipField(wireType: nat, s: seq<byte>): (p: Parse<()>)
    ensures p.Got? ==> |p.rest| < |s|
  {
    if wireType == WT_VARINT then SkipVarint(s)
    else if wireType == WT_64BIT then Forget(Take(s, 8))
    else if wireType == WT_STRING then Forget(TakeDelimited(s))
    else if wireType == WT_32BIT then Forget(Take(s, 4))
    else Fail
  }

  /** A C string: the bytes before the first NUL. */
  function UpToNul(s: seq<byte>): (r: seq<byte>)
    ensures 0 !in r && |r| <= |s| && (0 !in s ==> r == s)
  {
    if s == [] || s[0] == 0 then [] else [s[0]] + UpToNul(s[1..])
  }

  lemma {:induction false} UpToFirstNul(s: seq<byte>)
    ensures UpToNul(s) <= s && (|UpToNul(s)| < |s| ==> s[|UpToNul(s)|] == 0)
  {
    if s != [] && s[0] != 0 { UpToFirstNul(s[1..]); }
  }

  /** Stores an integer of the field's size, or reports that it is too large. */
  function Narrow(x: int, stored: int, size: nat, rest: seq<byte>): Parse<Value> {
    if !IntSize(size) || stored != x then Fail else Got(Num(stored), rest)
  }

  /** The `pb_dec_*` functions except the one for submessages. */
  function DecScalar(f: Field, s: seq<byte>): (p: Parse<Value>)
    ensures p.Got? ==> |p.rest| <= |s|
    ensures p.Got? && Packable(f.ltype) ==> |p.rest| < |s|
  {
    match f.ltype
    case Bool => (
      match DecVarint32(s)
      case Fail => Fail
      case Got(v, rest) => Got(Num(if v != 0 then 1 else 0), rest))
    case Varint => (
      match DecVarint64(s)
      case Fail => Fail
      case Got(v, rest) =>
        // fields of up to 32 bits take the sign from bit 31
        var x := SignedCast(v, if f.dataSize == 8 then 8 else 4);
        Narrow(x, SignedCast(x, f.dataSize), f.dataSize, rest))
    case UVarint => (
      match DecVarint64(s)
      case Fail => Fail
      case Got(v, rest) => Narrow(v, v % Modulus(f.dataSize), f.dataSize, rest))
    case SVarint => (
      match DecVarint64(s)
      case Fail => Fail
      case Got(v, rest) => Narrow(UnZigZag(v), SignedCast(UnZigZag(v), f.dataSize), f.dataSize, rest))
    case Fixed32 => (
      match Take(s, 4)
      case Fail => Fail
      case Got(b, rest) => Got(Num(FromLittleEndian(b)), rest))
    case Fixed64 => (
      match Take(s, 8)
      case Fail => Fail
      case Got(b, rest) => Got(Num(FromLittleEndian(b)), rest))
    case Bytes => (
      match DecVarint32(s)
      case Fail => Fail
      case Got(n, rest) =>
        if n > PB_SIZE_MAX || n + BYTES_HEADER > f.dataSize then Fail else AsStr(Take(rest, n)))
    case String => (
      match DecVarint32(s)
      case Fail => Fail
      case Got(n, rest) =>
        if n + 1 == TWO32 || n + 1 > f.dataSize then Fail
        else match Take(rest, n) case Fail => Fail case Got(b, r) => Got(Str(UpToNul(b)), r))
    case FixedLengthBytes => (
      match DecVarint32(s)
      case Fail => Fail
      case Got(n, rest) =>
        if n > PB_SIZE_MAX then Fail
        else if n == 0 then Got(Str(Zeros(f.dataSize)), rest)
        else if n != f.dataSize then Fail
        else AsStr(Take(rest, n)))
    case Submessage => Fail
  }

  function AsStr(p: Parse<seq<byte>>): (r: Parse<Value>) {
    match p case Fail => Fail case Got(b, rest) => Got(Str(b), rest)
  }

  /** Appends packed values to the items already there, all of `s` and at most
      `max` items in all. */
  function DecPacked(f: Field, items: seq<Value>, max: nat, s: seq<byte>): (p: Parse<seq<Value>>)
    decreases |s|
  {
    if s == [] then Got(items, [])
    else if |items| >= max || !Packable(f.ltype) then Fail
    else
      match DecScalar(f, s)
      case Fail => Fail
      case Got(v, rest) => DecPacked(f, items + [v], max, rest)
  }

  /** A decoding run over records: the message and the fields found so far, what is
      left of the input, and whether a zero tag ended the run. */
  datatype Outcome =
    | Bad
    | Good(m: seq<Slot>, seen: set<nat>, rest: seq<byte>, stopped: bool)

  function FindTag(fields: seq<Field>, tag: nat): (i: nat)
    ensures i <= |fields|
    ensures i < |fields| ==> fields[i].tag == tag
    ensures forall j :: 0 <= j < i ==> fields[j].tag != tag
    decreases |fields|
  {
    if fields == [] then 0
    else if fields[0].tag == tag then 0
    else 1 + FindTag(fields[1..], tag)
  }

  /** The required fields before position `i`: `required_field_index`. */
  function RequiredBefore(fields: seq<Field>, i: nat): (n: nat)
    requires i <= |fields|
    ensures n <= i
  {
    if i == 0 then 0
    else RequiredBefore(fields, i - 1) + (if fields[i - 1].htype.Required? then 1 else 0)
  }

  /** Each of the first 64 required fields was found. */
  predicate AllRequired(fields: seq<Field>, seen: set<nat>) {
    forall i :: 0 <= i < |fields| ==>
      fields[i].htype.Required? && RequiredBefore(fields, i) < PB_MAX_REQUIRED_FIELDS ==> i in seen
  }

  /** One value of a field; a submessage is merged into `cur`. */
  function DecValue(f: Field, cur: Value, s: seq<byte>): (p: Parse<Value>)
    ensures p.Got? ==> |p.rest| <= |s|
    decreases f, 0
  {
    if !f.ltype.Submessage? then DecScalar(f, s)
    else
      match TakeDelimited(s)
      case Fail => Fail
      case Got(body, rest) =>
        match Decode(f.sub, MsgOf(cur), body)
        case Fail => Fail
        case Got(m, _) => Got(Msg(m), rest)
  }

  /** `decode_static_field` */
  function DecSlot(f: Field, x: Slot, wireType: nat, s: seq<byte>): (p: Parse<Slot>)
    ensures p.Got? ==> |p.rest| <= |s|
    decreases f, 1
  {
    if !SlotKind(f, x) then Fail
    else if f.htype.Repeated? && wireType == WT_STRING && Packable(f.ltype) then
      match TakeDelimited(s)
      case Fail => Fail
      case Got(body, rest) =>
        match DecPacked(f, x.items, f.arraySize, body)
        case Fail => Fail
        case Got(items, _) => Got(Counted(items), rest)
    else if f.htype.Repeated? && |x.items| >= f.arraySize then Fail
    else
      // array entries and oneof members are initialised anew
      var cur := if f.htype.Repeated? || f.htype.OneOf? then DefaultValue(f) else x.v;
      match DecValue(f, cur, s)
      case Fail => Fail
      case Got(v, rest) => Got(StoreValue(f, x, v), rest)
  }

  /** The slot after a value of the field is stored in it. */
  function StoreValue(f: Field, x: Slot, v: Value): Slot {
    match f.htype
    case Required => Plain(v)
    case Optional => if f.sizeOffset != 0 then Flagged(true, v) else Plain(v)
    case Repeated => Counted(ItemsOf(x) + [v])
    case OneOf => Union(f.tag, v)
  }

  /** What one turn of the record loop does. */
  datatype Turn =
    | BadRecord
    | EndOfMessage(rest: seq<byte>)
    | Continue(m: seq<Slot>, seen: set<nat>, rest: seq<byte>)

  /** One record of a non-empty input. An empty descriptor takes tag 0 for a required
      bool, since the search looks at the terminator entry. */
  function NextRecord(fields: seq<Field>, m: seq<Slot>, seen: set<nat>, s: seq<byte>): (t: Turn)
    requires s != []
    ensures t.EndOfMessage? ==> |t.rest| < |s|
    ensures t.Continue? ==> |t.rest| < |s| && |t.m| == |m|
    decreases fields, |s|, 0
  {
    match DecTag(s)
    case BadTag => BadRecord
    case ZeroTag(rest) => EndOfMessage(rest)
    case Key(tag, wireType, rest) =>
      var i := FindTag(fields, tag);
      if i < |fields| then
        match DecSlot(fields[i], At(m, fields[i].slot), wireType, rest)
        case Fail => BadRecord
        case Got(x, rest') => Continue(Put(m, fields[i].slot, x), seen + {i}, rest')
      else
        match (if fields == [] && tag == 0 then Forget(DecVarint32(rest)) else SkipField(wireType, rest))
        case Fail => BadRecord
        case Got(_, rest') => Continue(m, seen, rest')
  }

  /** The record loop of `pb_decode_noinit`. */
  function Run(fields: seq<Field>, m: seq<Slot>, seen: set<nat>, s: seq<byte>): (o: Outcome)
    ensures o.Good? ==> |o.m| == |m| && |o.rest| <= |s|
    decreases fields, |s|, 1
  {
    if s == [] then Good(m, seen, [], false)
    else
      match NextRecord(fields, m, seen, s)
      case BadRecord => Bad
      case EndOfMessage(rest) => Good(m, seen, rest, true)
      case Continue(m', seen', rest) => Run(fields, m', seen', rest)
  }

  lemma RunEmpty(fields: seq<Field>, m: seq<Slot>, seen: set<nat>)
    ensures Run(fields, m, seen, []) == Good(m, seen, [], false)
  {
  }

  lemma NotFound(fields: seq<Field>, tag: nat)
    requires forall i :: 0 <= i < |fields| ==> fields[i].tag != tag
    ensures FindTag(fields, tag) == |fields|
  {
  }

  /** `pb_decode_noinit`: merges the records of `s` into `m`. */
  function Decode(fields: seq<Field>, m: seq<Slot>, s: seq<byte>): (p: Parse<seq<Slot>>)
    ensures p.Got? ==> |p.value| == |m| && |p.rest| <= |s|
    decreases fields, |s| + 1
  {
    match Run(fields, m, {}, s)
    case Bad => Fail
    case Good(m', seen, rest, _) => if AllRequired(fields, seen) then Got(m', rest) else Fail
  }
}
