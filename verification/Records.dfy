/**
 Messages as sequences of records: decoding reads the front of its input and no
 more, so records can be concatenated, inserted and framed.
 */
module Records {
  import opened Wrappers
  import opened Bits
  import opened Varint
  import opened Descriptor
  import opened Wire
  import opened Merge
  import opened NormalForm
  import opened Codec
  import RT = RoundTrip

  // ----- A successful read does not look at what follows -----

  function Append<T>(p: Parse<T>, t: seq<byte>): Parse<T> {
    match p case Fail => Fail case Got(v, rest) => Got(v, rest + t)
  }

  lemma {:induction false} RawVarintExtends(s: seq<byte>, max: nat, t: seq<byte>)
    requires RawVarint(s, max).Got?
    ensures RawVarint(s + t, max) == Append(RawVarint(s, max), t)
    decreases |s|
  {
    assert (s + t)[1..] == s[1..] + t;
    if s[0] >= 128 { RawVarintExtends(s[1..], max - 1, t); }
  }

  lemma {:induction false} Loop32Extends(s: seq<byte>, result: nat, bitpos: nat, t: seq<byte>)
    requires result < TWO32 && bitpos < 256 && Loop32(s, result, bitpos).Got?
    ensures Loop32(s + t, result, bitpos) == Append(Loop32(s, result, bitpos), t)
    decreases |s|
  {
    hide Or32;
    assert (s + t)[1..] == s[1..] + t;
    if s[0] >= 128 {
      var result' := if bitpos >= 32 then result else Or32(result, s[0], bitpos);
      Loop32Extends(s[1..], result', (bitpos + 7) % 256, t);
    }
  }

  lemma Varint32Extends(s: seq<byte>, t: seq<byte>)
    requires DecVarint32(s).Got?
    ensures DecVarint32(s + t) == Append(DecVarint32(s), t)
  {
    hide Loop32;
    assert (s + t)[1..] == s[1..] + t;
    if s[0] >= 128 { Loop32Extends(s[1..], s[0] % 128, 7, t); }
  }

  lemma Varint64Extends(s: seq<byte>, t: seq<byte>)
    requires DecVarint64(s).Got?
    ensures DecVarint64(s + t) == Append(DecVarint64(s), t)
  {
    hide RawVarint;
    RawVarintExtends(s, 10, t);
  }

  lemma TakeExtends(s: seq<byte>, n: nat, t: seq<byte>)
    requires Take(s, n).Got?
    ensures Take(s + t, n) == Append(Take(s, n), t)
  {
    assert (s + t)[..n] == s[..n] && (s + t)[n..] == s[n..] + t;
  }

  lemma DelimitedExtends(s: seq<byte>, t: seq<byte>)
    requires TakeDelimited(s).Got?
    ensures TakeDelimited(s + t) == Append(TakeDelimited(s), t)
  {
    hide DecVarint32, Take;
    Varint32Extends(s, t);
    TakeExtends(DecVarint32(s).rest, DecVarint32(s).value, t);
  }

  lemma {:induction false} SkipVarintExtends(s: seq<byte>, t: seq<byte>)
    requires SkipVarint(s).Got?
    ensures SkipVarint(s + t) == Append(SkipVarint(s), t)
  {
    assert (s + t)[1..] == s[1..] + t;
    if s[0] >= 128 { SkipVarintExtends(s[1..], t); }
  }

  lemma SkipExtends(wireType: nat, s: seq<byte>, t: seq<byte>)
    requires SkipField(wireType, s).Got?
    ensures SkipField(wireType, s + t) == Append(SkipField(wireType, s), t)
  {
    hide SkipVarint, TakeDelimited, Take;
    if wireType == WT_VARINT { SkipVarintExtends(s, t); }
    else if wireType == WT_64BIT { TakeExtends(s, 8, t); }
    else if wireType == WT_STRING { DelimitedExtends(s, t); }
    else { TakeExtends(s, 4, t); }
  }

  lemma ScalarExtends(f: Field, s: seq<byte>, t: seq<byte>)
    requires DecScalar(f, s).Got?
    ensures DecScalar(f, s + t) == Append(DecScalar(f, s), t)
  {
    hide DecVarint32, DecVarint64, Take, FromLittleEndian, UpToNul, SignedCast, Zeros;
    match f.ltype
    case Bool => Varint32Extends(s, t);
    case Varint => Varint64Extends(s, t);
    case UVarint => Varint64Extends(s, t);
    case SVarint => Varint64Extends(s, t);
    case Fixed32 => TakeExtends(s, 4, t);
    case Fixed64 => TakeExtends(s, 8, t);
    case FixedLengthBytes =>
      Varint32Extends(s, t);
      if DecVarint32(s).value != 0 { TakeExtends(DecVarint32(s).rest, DecVarint32(s).value, t); }
    case Bytes =>
      Varint32Extends(s, t);
      TakeExtends(DecVarint32(s).rest, DecVarint32(s).value, t);
    case String =>
      Varint32Extends(s, t);
      TakeExtends(DecVarint32(s).rest, DecVarint32(s).value, t);
    case Submessage => assert false;
  }

  lemma ValueExtends(f: Field, cur: Value, s: seq<byte>, t: seq<byte>)
    requires DecValue(f, cur, s).Got?
    ensures DecValue(f, cur, s + t) == Append(DecValue(f, cur, s), t)
  {
    hide DecScalar, TakeDelimited, Decode;
    if f.ltype.Submessage? { DelimitedExtends(s, t); } else { ScalarExtends(f, s, t); }
  }

  lemma SlotExtends(f: Field, x: Slot, wireType: nat, s: seq<byte>, t: seq<byte>)
    requires DecSlot(f, x, wireType, s).Got?
    ensures DecSlot(f, x, wireType, s + t) == Append(DecSlot(f, x, wireType, s), t)
  {
    hide DecValue, TakeDelimited, DecPacked, StoreValue;
    if f.htype.Repeated? && wireType == WT_STRING && Packable(f.ltype) {
      DelimitedExtends(s, t);
    } else {
      ValueExtends(f, Current(f, x), s, t);
    }
  }

  lemma TagExtends(s: seq<byte>, t: seq<byte>)
    requires !DecTag(s).BadTag?
    ensures DecTag(s + t) == match DecTag(s)
      case BadTag => BadTag
      case ZeroTag(rest) => ZeroTag(rest + t)
      case Key(tag, wireType, rest) => Key(tag, wireType, rest + t)
  {
    hide DecVarint32;
    Varint32Extends(s, t);
  }

  // ----- Concatenation -----

  /** A run that used up its input goes on with whatever is appended, as if it had
      started there with the message and the fields found so far; a run ended by a
      zero tag leaves what is appended unread. */
  lemma {:induction false} RunConcat(fields: seq<Field>, m: seq<Slot>, seen: set<nat>, s: seq<byte>, t: seq<byte>)
    requires Run(fields, m, seen, s).Good?
    ensures Run(fields, m, seen, s + t) ==
      match Run(fields, m, seen, s)
      case Bad => Bad
      case Good(m', seen', rest, stopped) =>
        if stopped then Good(m', seen', rest + t, true) else Run(fields, m', seen', t)
    decreases |s|
  {
    hide DecTag, DecSlot, SkipField, DecVarint32, Put, FindTag;
    if s == [] {
      assert s + t == t;
    } else {
      TagExtends(s, t);
      if DecTag(s).Key? {
        var Key(tag, wireType, rest) := DecTag(s);
        var i := FindTag(fields, tag);
        if i < |fields| {
          var f := fields[i];
          SlotExtends(f, At(m, f.slot), wireType, rest, t);
          var p := DecSlot(f, At(m, f.slot), wireType, rest);
          RunConcat(fields, Put(m, f.slot, p.value), seen + {i}, p.rest, t);
        } else if fields == [] && tag == 0 {
          Varint32Extends(rest, t);
          RunConcat(fields, m, seen, DecVarint32(rest).rest, t);
        } else {
          SkipExtends(wireType, rest, t);
          RunConcat(fields, m, seen, SkipField(wireType, rest).rest, t);
        }
      }
    }
  }

  /** The fields found earlier play no part in how records are read. */
  lemma {:induction false} RunSeen(fields: seq<Field>, m: seq<Slot>, seen: set<nat>, more: set<nat>, s: seq<byte>)
    ensures Run(fields, m, seen + more, s) ==
      match Run(fields, m, seen, s)
      case Bad => Bad
      case Good(m', seen', rest, stopped) => Good(m', seen' + more, rest, stopped)
    decreases |s|
  {
    hide DecTag, DecSlot, SkipField, DecVarint32, Put, FindTag;
    if s != [] && DecTag(s).Key? {
      var Key(tag, wireType, rest) := DecTag(s);
      var i := FindTag(fields, tag);
      if i < |fields| {
        var f := fields[i];
        var p := DecSlot(f, At(m, f.slot), wireType, rest);
        if p.Got? {
          RunSeen(fields, Put(m, f.slot, p.value), seen + {i}, more, p.rest);
          assert seen + {i} + more == seen + more + {i};
        }
      } else {
        var p := if fields == [] && tag == 0 then Forget(DecVarint32(rest)) else SkipField(wireType, rest);
        if p.Got? { RunSeen(fields, m, seen, more, p.rest); }
      }
    }
  }

  /** `s` is a sequence of records that decodes into `a`, up to its last byte. */
  predicate IsRecords(fields: seq<Field>, a: seq<Slot>, s: seq<byte>) {
    var o := Run(fields, a, {}, s);
    o.Good? && !o.stopped
  }

  predicate NoRequired(fields: seq<Field>) {
    forall i :: 0 <= i < |fields| ==> !fields[i].htype.Required?
  }

  /** "Last One Wins": decoding records `s` followed by any bytes `t` is decoding `t`
      into the result of decoding `s`; both are accepted or neither is. */
  lemma ConcatIsMerge(fields: seq<Field>, a: seq<Slot>, s: seq<byte>, t: seq<byte>)
    requires NoRequired(fields) && IsRecords(fields, a, s)
    ensures Decode(fields, a, s).Got?
    ensures Decode(fields, a, s + t) == Decode(fields, Decode(fields, a, s).value, t)
  {
    hide Run;
    RunConcat(fields, a, {}, s, t);
    var o := Run(fields, a, {}, s);
    RunSeen(fields, o.m, {}, o.seen, t);
    assert {} + o.seen == o.seen;
  }

  /** With required fields: once `s` alone is accepted, `s + t` is accepted exactly
      when the records of `t` can be read, and `t` need not repeat required fields. */
  lemma ConcatOntoAccepted(fields: seq<Field>, a: seq<Slot>, s: seq<byte>, t: seq<byte>)
    requires IsRecords(fields, a, s) && Decode(fields, a, s).Got?
    ensures Decode(fields, a, s + t) ==
      match Run(fields, Decode(fields, a, s).value, {}, t)
      case Bad => Fail
      case Good(m, _, rest, _) => Got(m, rest)
  {
    hide Run;
    RunConcat(fields, a, {}, s, t);
    var o := Run(fields, a, {}, s);
    RunSeen(fields, o.m, {}, o.seen, t);
    assert {} + o.seen == o.seen;
  }

  /** Concatenating two encodings merges the two messages in order, and is refused
      exactly when the arrays of the first leave no room for those of the second. */
  lemma EncodedConcat(fields: seq<Field>, m: seq<Slot>, n: seq<Slot>)
    requires WellFormed(fields)
    requires Typed(fields, m) && Encodable(fields, m) && Terminated(fields, m) && |Enc(fields, m)| < TWO32
    requires Typed(fields, n) && Encodable(fields, n) && Terminated(fields, n) && |Enc(fields, n)| < TWO32
    ensures var first := MergeMsg(fields, Defaults(fields), m);
      DecodeFresh(fields, Enc(fields, m) + Enc(fields, n)) ==
      if Fits(fields, first, n) then Got(MergeMsg(fields, first, n), []) else Fail
  {
    hide Run, Enc, MergeMsg, Typed, Encodable, Terminated, Fits, WellFormed;
    var a := Defaults(fields);
    DefaultsFit(fields, m);
    DefaultsShaped(fields);
    EncodedRun(fields, a, m, {}, Enc(fields, n));
    MergedShaped(fields, m);
    EncodedRun(fields, MergeMsg(fields, a, m), n, SeenFrom(fields, m, 0, {}), []);
    assert Enc(fields, n) + [] == Enc(fields, n);
    SeenGrows(fields, m, 0, {});
    SeenGrows(fields, n, 0, SeenFrom(fields, m, 0, {}));
    RunEmpty(fields, MergeMsg(fields, MergeMsg(fields, a, m), n), SeenFrom(fields, n, 0, SeenFrom(fields, m, 0, {})));
  }

  lemma MergedShaped(fields: seq<Field>, m: seq<Slot>)
    requires WellFormed(fields) && Typed(fields, m) && Encodable(fields, m) && Terminated(fields, m)
    requires |Enc(fields, m)| < TWO32
    ensures Shaped(fields, MergeMsg(fields, Defaults(fields), m))
  {
    hide Run, Enc, MergeMsg, Typed, Encodable, Terminated, Fits, WellFormed, Shaped, Decode, Normal;
    DefaultsFit(fields, m);
    DefaultsShaped(fields);
    DecodeEncoded(fields, Defaults(fields), m);
    DefaultsNormal(fields);
    DecodeNormal(fields, Defaults(fields), Enc(fields, m));
    NormalIsShaped(fields, MergeMsg(fields, Defaults(fields), m));
  }

  lemma EncodedRun(fields: seq<Field>, a: seq<Slot>, m: seq<Slot>, seen: set<nat>, rest: seq<byte>)
    requires WellFormed(fields) && Typed(fields, m) && Encodable(fields, m) && Terminated(fields, m)
    requires Shaped(fields, a) && |Enc(fields, m)| < TWO32
    ensures Run(fields, a, seen, Enc(fields, m) + rest) ==
            if Fits(fields, a, m) then
              Run(fields, MergeMsg(fields, a, m), SeenFrom(fields, m, 0, seen), rest)
            else Bad
  {
    hide Run, EncFrom, MergeFrom;
    RT.TerminatedAll(fields, m, 0);
    RT.FieldsBack(fields, a, m, 0, seen, rest);
  }

  // ----- Field order -----

  /** `r` is one record of field `i`, and a structure holding `x` takes it as `y`. */
  predicate RecordOf(fields: seq<Field>, i: nat, r: seq<byte>, x: Slot, y: Slot) {
    && i < |fields|
    && DecTag(r).Key?
    && FindTag(fields, DecTag(r).tag) == i
    && DecSlot(fields[i], x, DecTag(r).wireType, DecTag(r).rest) == Got(y, [])
  }

  lemma RunOneRecord(fields: seq<Field>, m: seq<Slot>, seen: set<nat>, i: nat, r: seq<byte>, y: Slot, t: seq<byte>)
    requires i < |fields| && RecordOf(fields, i, r, At(m, fields[i].slot), y)
    ensures Run(fields, m, seen, r + t) == Run(fields, Put(m, fields[i].slot, y), seen + {i}, t)
  {
    hide DecTag, DecSlot, FindTag, Put;
    assert r != [] by { NoTag(); }
    TagExtends(r, t);
    SlotExtends(fields[i], At(m, fields[i].slot), DecTag(r).wireType, DecTag(r).rest, t);
    assert [] + t == t;
  }

  lemma NoTag()
    ensures DecTag([]).BadTag?
  {
  }

  /** Records of fields in different struct members may come in any order. */
  lemma RecordsCommute(fields: seq<Field>, m: seq<Slot>, seen: set<nat>, i: nat, r: seq<byte>, x: Slot,
                       j: nat, u: seq<byte>, y: Slot, t: seq<byte>)
    requires i < |fields| && j < |fields| && fields[i].slot != fields[j].slot
    requires RecordOf(fields, i, r, At(m, fields[i].slot), x)
    requires RecordOf(fields, j, u, At(m, fields[j].slot), y)
    ensures Run(fields, m, seen, r + u + t) == Run(fields, m, seen, u + r + t)
  {
    hide Run, RecordOf;
    var a, b := fields[i].slot, fields[j].slot;
    RunOneRecord(fields, m, seen, i, r, x, u + t);
    RunOneRecord(fields, Put(m, a, x), seen + {i}, j, u, y, t);
    RunOneRecord(fields, m, seen, j, u, y, r + t);
    RunOneRecord(fields, Put(m, b, y), seen + {j}, i, r, x, t);
    assert Put(Put(m, a, x), b, y) == Put(Put(m, b, y), a, x);
    assert seen + {i} + {j} == seen + {j} + {i};
    assert r + u + t == r + (u + t) && u + r + t == u + (r + t);
  }

  // ----- Unknown fields -----

  /** One well-formed record whose tag no field has. */
  predicate UnknownRecord(fields: seq<Field>, u: seq<byte>) {
    && u != []
    && var t := DecTag(u);
    && t.Key?
    && FindTag(fields, t.tag) == |fields|
    && (fields != [] || t.tag != 0)
    && SkipField(t.wireType, t.rest) == Got((), [])
  }

  lemma UnknownSkipped(fields: seq<Field>, m: seq<Slot>, seen: set<nat>, u: seq<byte>, t: seq<byte>)
    requires UnknownRecord(fields, u)
    ensures Run(fields, m, seen, u + t) == Run(fields, m, seen, t)
  {
    hide SkipField, DecTag, FindTag;
    var Key(tag, wireType, rest) := DecTag(u);
    TagExtends(u, t);
    SkipExtends(wireType, rest, t);
    assert [] + t == t;
  }

  /** Unknown fields are transparent: a record with an unknown tag put between the
      records `s` and any bytes `t` changes neither acceptance nor the message. */
  lemma UnknownIsTransparent(fields: seq<Field>, a: seq<Slot>, s: seq<byte>, u: seq<byte>, t: seq<byte>)
    requires IsRecords(fields, a, s) && UnknownRecord(fields, u)
    ensures Decode(fields, a, s + u + t) == Decode(fields, a, s + t)
  {
    hide Run, UnknownRecord;
    RunConcat(fields, a, {}, s, u + t);
    RunConcat(fields, a, {}, s, t);
    var o := Run(fields, a, {}, s);
    UnknownSkipped(fields, o.m, o.seen, u, t);
    assert s + u + t == s + (u + t);
  }

  // ----- A record with tag 0 and an empty descriptor -----

  /** One well-formed record with tag 0. */
  predicate ZeroTagRecord(u: seq<byte>) {
    && DecTag(u).Key? && DecTag(u).tag == 0
    && SkipField(DecTag(u).wireType, DecTag(u).rest) == Got((), [])
  }

  /** A non-empty descriptor has no field with tag 0, an empty one finds its terminator:
      this is the only case in which a record of no field is not skipped. */
  lemma ZeroTagIsUnknown(fields: seq<Field>, u: seq<byte>)
    requires WellFormed(fields) && ZeroTagRecord(u)
    ensures UnknownRecord(fields, u) <==> fields != []
  {
    hide SkipField, DecVarint32;
    forall i | 0 <= i < |fields| ensures fields[i].tag != 0 { assert WellFormedField(fields[i]); }
  }

  /** With an empty descriptor such a record is read as a bool and not skipped. It is
      transparent exactly when what the bool leaves of it is again a sequence of
      records. */
  lemma ZeroTagExactly(a: seq<Slot>, u: seq<byte>)
    requires ZeroTagRecord(u)
    ensures (forall t: seq<byte> :: Decode([], a, u + t) == Decode([], a, t)) <==>
            var b := DecVarint32(DecTag(u).rest); b.Got? && IsRecords([], a, b.rest)
  {
    hide Run, SkipField, DecVarint32, NextRecord;
    var rest := DecTag(u).rest;
    var b := DecVarint32(rest);
    if b.Got? && IsRecords([], a, b.rest) {
      forall t: seq<byte> ensures Decode([], a, u + t) == Decode([], a, t) {
        ZeroTagRead(a, u, t);
        RunConcat([], a, {}, b.rest, t);
        var o := Run([], a, {}, b.rest);
        EmptyKeeps(a, {}, b.rest);
        RunSeen([], a, {}, o.seen, t);
        assert {} + o.seen == o.seen;
      }
    } else if forall t: seq<byte> :: Decode([], a, u + t) == Decode([], a, t) {
      NothingLeft(a, u);
    }
  }

  lemma ZeroTagRead(a: seq<Slot>, u: seq<byte>, t: seq<byte>)
    requires ZeroTagRecord(u)
    ensures DecVarint32(DecTag(u).rest).Got? ==>
      Run([], a, {}, u + t) == Run([], a, {}, DecVarint32(DecTag(u).rest).rest + t)
    ensures DecVarint32(DecTag(u).rest).Fail? ==> Run([], a, {}, u).Bad?
  {
    hide SkipField, DecVarint32;
    TagExtends(u, t);
    if DecVarint32(DecTag(u).rest).Got? { Varint32Extends(DecTag(u).rest, t); }
  }

  /** An empty message keeps the structure as it is. */
  lemma {:induction false} EmptyKeeps(a: seq<Slot>, seen: set<nat>, s: seq<byte>)
    requires Run([], a, seen, s).Good?
    ensures Run([], a, seen, s).m == a
    decreases |s|
  {
    hide DecTag, SkipField, DecVarint32;
    if s != [] && DecTag(s).Key? {
      var Key(tag, wireType, rest) := DecTag(s);
      EmptyKeeps(a, seen, (if tag == 0 then Forget(DecVarint32(rest)) else SkipField(wireType, rest)).rest);
    }
  }

  /** A transparent record leaves a sequence of records behind the bool. */
  lemma NothingLeft(a: seq<Slot>, u: seq<byte>)
    requires ZeroTagRecord(u)
    requires forall t: seq<byte> :: Decode([], a, u + t) == Decode([], a, t)
    ensures var b := DecVarint32(DecTag(u).rest); b.Got? && IsRecords([], a, b.rest)
  {
    hide Run, SkipField, DecVarint32, NextRecord;
    var b := DecVarint32(DecTag(u).rest);
    RunEmpty([], a, {});
    assert Decode([], a, u + []) == Decode([], a, []);
    assert u + [] == u;
    ZeroTagRead(a, u, []);
    assert b.Got? && b.rest + [] == b.rest;
    var o := Run([], a, {}, b.rest);
    assert o.Good? && o.rest == [];
    if o.stopped {
      assert Decode([], a, u + [0x01]) == Decode([], a, [0x01]);
      ZeroTagRead(a, u, [0x01]);
      RunConcat([], a, {}, b.rest, [0x01]);
      LoneKey(a);
    }
  }

  lemma SmallBytes(rest: seq<byte>)
    ensures DecTag([0x01] + rest) == Key(0, 1, rest)
    ensures DecVarint32([0] + rest) == Got(0, rest)
  {
    hide Loop32;
    assert ([0x01] + rest)[1..] == rest && ([0] + rest)[1..] == rest;
  }

  lemma LoneKey(a: seq<Slot>)
    ensures Run([], a, {}, [0x01]).Bad?
  {
    SmallBytes([]);
    assert [0x01] + [] == [0x01];
  }

  /** A 64-bit zero with tag 0: skipped by any other message, but an empty one takes
      its first byte for the bool and its second for the end of the message. */
  lemma EmptyMessageExample()
    ensures var u := [0x01, 0, 0, 0, 0, 0, 0, 0, 0];
      && ZeroTagRecord(u)
      && Decode([], [], u) == Got([], [0, 0, 0, 0, 0, 0])
      && Decode([], [], []) == Got([], [])
  {
    hide Run, NextRecord, DecVarint32, DecTag;
    var u, tail := [0x01, 0, 0, 0, 0, 0, 0, 0, 0], [0, 0, 0, 0, 0, 0];
    assert u == [0x01] + ([0] + ([0] + tail));
    SmallBytes([0] + ([0] + tail));
    SmallBytes([0] + tail);
    EightBytes([0] + ([0] + tail));
    ZeroTagRead([], u, []);
    assert u + [] == u && [0] + tail + [] == [0] + tail;
    RunZero([], [], {}, tail);
    RunEmpty([], [], {});
  }

  lemma EightBytes(s: seq<byte>)
    requires |s| == 8
    ensures SkipField(WT_64BIT, s) == Got((), [])
  {
  }

  // ----- Self-delimiting forms -----

  /** `pb_decode_delimited`: the child may stop early, the parent still moves past
      the whole declared length. */
  function DecodeDelimited(fields: seq<Field>, s: seq<byte>): Parse<seq<Slot>> {
    match TakeDelimited(s)
    case Fail => Fail
    case Got(body, rest) =>
      match DecodeFresh(fields, body)
      case Fail => Fail
      case Got(m, _) => Got(m, rest)
  }

  /** A delimited message is read off the front of any bytes, leaving exactly those. */
  lemma DelimitedRoundTrip(fields: seq<Field>, m: seq<Slot>, t: seq<byte>)
    requires WellFormed(fields) && Typed(fields, m) && Encodable(fields, m) && Terminated(fields, m)
    requires |Enc(fields, m)| < TWO32
    ensures DecodeDelimited(fields, Delimited(Enc(fields, m)) + t) == Got(MergeMsg(fields, Defaults(fields), m), t)
  {
    hide Enc, Decode, MergeMsg, Typed, Encodable, Terminated;
    RT.DelimitedBack(Enc(fields, m), t);
    DefaultsFit(fields, m);
    DefaultsShaped(fields);
    DecodeEncoded(fields, Defaults(fields), m);
  }

  /** The message may be ended by a zero tag within the declared length; the rest of
      that length is passed over all the same. */
  lemma DelimitedEndsEarly(fields: seq<Field>, m: seq<Slot>, junk: seq<byte>, t: seq<byte>)
    requires WellFormed(fields) && Typed(fields, m) && Encodable(fields, m) && Terminated(fields, m)
    requires |Enc(fields, m) + [0] + junk| < TWO32
    ensures DecodeDelimited(fields, Delimited(Enc(fields, m) + [0] + junk) + t) ==
            Got(MergeMsg(fields, Defaults(fields), m), t)
  {
    hide Enc, Decode, MergeMsg, Typed, Encodable, Terminated, Delimited;
    RT.DelimitedBack(Enc(fields, m) + [0] + junk, t);
    NullTerminatedRoundTrip(fields, m, junk);
  }

  /** So is a null-terminated one: no encoded record starts with a zero tag, and the
      terminator is consumed. */
  lemma NullTerminatedRoundTrip(fields: seq<Field>, m: seq<Slot>, t: seq<byte>)
    requires WellFormed(fields) && Typed(fields, m) && Encodable(fields, m) && Terminated(fields, m)
    requires |Enc(fields, m)| < TWO32
    ensures DecodeFresh(fields, Enc(fields, m) + [0] + t) == Got(MergeMsg(fields, Defaults(fields), m), t)
  {
    hide Run, Enc, MergeMsg, Typed, Encodable, Terminated, WellFormed;
    var a := Defaults(fields);
    DefaultsFit(fields, m);
    DefaultsShaped(fields);
    EncodedRun(fields, a, m, {}, [0] + t);
    SeenGrows(fields, m, 0, {});
    RunZero(fields, MergeMsg(fields, a, m), SeenFrom(fields, m, 0, {}), t);
    assert Enc(fields, m) + [0] + t == Enc(fields, m) + ([0] + t);
  }

  lemma RunZero(fields: seq<Field>, m: seq<Slot>, seen: set<nat>, t: seq<byte>)
    ensures Run(fields, m, seen, [0] + t) == Good(m, seen, t, true)
  {
    assert ([0] + t)[1..] == t;
    assert DecVarint32([0] + t) == Got(0, t);
  }
}
