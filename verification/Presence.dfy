/**
 What is absent: which fields the encoder leaves out, what the decoder stores for them,
 which members a run touches, and when a message is refused for a missing field.
 */
module Presence {
  import opened Wrappers
  import opened Bits
  import opened Varint
  import opened Descriptor
  import opened Wire
  import opened Merge
  import opened NormalForm
  import opened Codec
  import Records
  import RT = RoundTrip

  // ----- Initial values -----

  /** A declared default is stored; without one the data is zero or empty; nothing is
      present. */
  lemma InitialMembers(fields: seq<Field>, j: nat)
    requires WellFormed(fields) && j < |fields|
    ensures var f, x := fields[j], At(Defaults(fields), fields[j].slot);
      && (x.Flagged? ==> !x.has) && (x.Counted? ==> x.items == []) && (x.Union? ==> x.which == 0)
      && (f.htype.Required? || f.htype.Optional? ==>
            && (f.ltype.Submessage? ==> DataOf(x) == Msg(Defaults(f.sub)))
            && (!f.ltype.Submessage? && f.dflt.Some? ==> DataOf(x) == f.dflt.value)
            && (Packable(f.ltype) && f.dflt.None? ==> DataOf(x) == Num(0))
            && ((f.ltype.Bytes? || f.ltype.String?) && f.dflt.None? ==> DataOf(x) == Str([]))
            && (f.ltype.FixedLengthBytes? && f.dflt.None? ==>
                  && DataOf(x).Str? && |DataOf(x).bytes| == f.dataSize
                  && (forall k :: 0 <= k < f.dataSize ==> DataOf(x).bytes[k] == 0)))
  {
    hide Defaults, WellFormed, Zeros;
    WellLaid(fields);
    DefaultsAt(fields, j);
    var n := fields[j].dataSize;
    forall k | 0 <= k < n ensures Zeros(n)[k] == 0 { ZerosAt(n, k); }
  }

  lemma WellLaid(fields: seq<Field>)
    requires WellFormed(fields)
    ensures WellLaidOut(fields)
  {
  }

  /** Decoding nothing leaves them so. */
  lemma NothingDecoded(fields: seq<Field>)
    requires Records.NoRequired(fields)
    ensures DecodeFresh(fields, []) == Got(Defaults(fields), [])
  {
    RunEmpty(fields, Defaults(fields), {});
  }

  // ----- What the encoder leaves out -----

  /** The zero value of the field can be told from nothing by no reader. */
  predicate CanBeOmitted(f: Field)
    decreases f, 0
  {
    match f.ltype
    case FixedLengthBytes => f.dataSize == 0
    case Submessage => forall j :: 0 <= j < |f.sub| ==> CanBeEmpty(f.sub[j])
    case _ => true
  }

  predicate CanBeEmpty(g: Field)
    decreases g, 1
  {
    !g.htype.Required? && (g.htype.Optional? && g.sizeOffset == 0 ==> CanBeOmitted(g))
  }

  lemma {:induction false} DefaultsAll(fields: seq<Field>, m: seq<Slot>, i: nat)
    requires i <= |fields|
    ensures IsDefault(fields, m, i) <==>
            forall j :: i <= j < |fields| ==> IsDefaultSlot(fields[j], At(m, fields[j].slot))
    decreases |fields| - i
  {
    hide IsDefaultSlot;
    if i < |fields| { DefaultsAll(fields, m, i + 1); }
  }

  /** Data without a presence flag counts as zero exactly when it has its initial value,
      and, for messages, nothing in it must be written anyway. */
  lemma ZeroExactly(f: Field, v: Value)
    requires WellFormedField(f) && f.dflt.None? && NormalValue(f, v)
    ensures IsZero(f, v) <==> v == DefaultValue(f) && CanBeOmitted(f)
    decreases f, 0
  {
    if f.ltype.Submessage? {
      if IsZero(f, v) { ZeroIsDefault(f, v); }
      if v == DefaultValue(f) {
        DefaultsAll(f.sub, v.slots, 0);
        DefaultsNormal(f.sub);
        forall j | 0 <= j < |f.sub|
          ensures IsDefaultSlot(f.sub[j], At(v.slots, f.sub[j].slot)) <==> CanBeEmpty(f.sub[j])
        {
          InitialSlot(f.sub, j);
        }
      }
    }
  }

  lemma InitialSlot(fields: seq<Field>, j: nat)
    requires WellFormed(fields) && j < |fields| && Normal(fields, Defaults(fields))
    ensures IsDefaultSlot(fields[j], At(Defaults(fields), fields[j].slot)) <==> CanBeEmpty(fields[j])
    decreases fields, 0
  {
    hide Defaults, DefaultValue, NormalValue;
    var g := fields[j];
    DefaultsAt(fields, j);
    NormalAt(fields, Defaults(fields), j);
    if g.htype.Optional? && g.sizeOffset == 0 { ZeroExactly(g, DefaultValue(g)); }
  }

  lemma {:induction false} RecordsEmpty(f: Field, vs: seq<Value>)
    ensures EncRecords(f, vs) == [] <==> vs == []
  {
    hide EncKey, EncValue, EncVarint;
    if vs != [] { KeyIsLong(f); }
  }

  lemma KeyIsLong(f: Field)
    ensures |EncKey(f.tag, WireType(f.ltype))| > 0 && |EncKey(f.tag, WT_STRING)| > 0
  {
    hide EncVarint;
  }

  /** Which fields of a decoded message are written at all. */
  lemma WrittenExactly(f: Field, x: Slot)
    requires WellFormedField(f) && NormalSlot(f, x)
    ensures EncSlot(f, x) != [] <==>
      match f.htype
      case Required => true
      case Optional => if f.sizeOffset != 0 then x.has else x.v != DefaultValue(f) || !CanBeOmitted(f)
      case Repeated => x.items != []
      case OneOf => x.which == f.tag
  {
    hide EncKey, EncRecords, EncPacked, Delimited, IsZero, NormalValue, DefaultValue, CanBeOmitted;
    var vs := Payload(f, x);
    RecordsEmpty(f, vs);
    KeyIsLong(f);
    if f.htype.Optional? && f.sizeOffset == 0 { ZeroExactly(f, x.v); }
  }

  // ----- Which members a run touches -----

  /** The tags of the records that a run reads. */
  function TagsRead(fields: seq<Field>, m: seq<Slot>, seen: set<nat>, s: seq<byte>): set<nat>
    decreases |s|
  {
    if s == [] then {}
    else
      match NextRecord(fields, m, seen, s)
      case Continue(m', seen', rest) => {TagOf(s)} + TagsRead(fields, m', seen', rest)
      case _ => {}
  }

  /** The tag in the key at the front of `s`. */
  function TagOf(s: seq<byte>): nat { if DecTag(s).Key? then DecTag(s).tag else 0 }

  lemma TurnSees(fields: seq<Field>, m: seq<Slot>, seen: set<nat>, s: seq<byte>, i: nat)
    requires WellFormed(fields) && i < |fields| && s != [] && NextRecord(fields, m, seen, s).Continue?
    ensures i in NextRecord(fields, m, seen, s).seen <==> i in seen || fields[i].tag == TagOf(s)
  {
    hide DecTag, DecSlot, SkipField, DecVarint32, WellFormed;
    Tags(fields);
    if fields[i].tag == DecTag(s).tag { FindsTag(fields, i); }
  }

  lemma Tags(fields: seq<Field>)
    requires WellFormed(fields)
    ensures DistinctTags(fields)
  {
  }

  /** The fields found are those of which a record was read. */
  lemma {:induction false} SeenExactly(fields: seq<Field>, m: seq<Slot>, seen: set<nat>, s: seq<byte>, i: nat)
    requires WellFormed(fields) && i < |fields| && Run(fields, m, seen, s).Good?
    ensures i in Run(fields, m, seen, s).seen <==> i in seen || fields[i].tag in TagsRead(fields, m, seen, s)
    decreases |s|
  {
    hide NextRecord, WellFormed, TagOf;
    if s != [] && NextRecord(fields, m, seen, s).Continue? {
      TurnSees(fields, m, seen, s, i);
      var t := NextRecord(fields, m, seen, s);
      SeenExactly(fields, t.m, t.seen, t.rest, i);
    }
  }

  lemma TurnTouches(fields: seq<Field>, m: seq<Slot>, seen: set<nat>, s: seq<byte>, k: nat)
    requires s != [] && NextRecord(fields, m, seen, s).Continue?
    requires forall i :: 0 <= i < |fields| && fields[i].slot == k ==> fields[i].tag != TagOf(s)
    ensures At(NextRecord(fields, m, seen, s).m, k) == At(m, k)
  {
    hide DecTag, DecSlot, SkipField, DecVarint32;
  }

  /** A member no record was read for is left as it was. */
  lemma {:induction false} OthersUntouched(fields: seq<Field>, m: seq<Slot>, seen: set<nat>, s: seq<byte>, k: nat)
    requires Run(fields, m, seen, s).Good?
    requires forall i :: 0 <= i < |fields| && fields[i].slot == k ==> fields[i].tag !in TagsRead(fields, m, seen, s)
    ensures At(Run(fields, m, seen, s).m, k) == At(m, k)
    decreases |s|
  {
    hide NextRecord, TagOf, At;
    if s != [] && NextRecord(fields, m, seen, s).Continue? {
      TurnTouches(fields, m, seen, s, k);
      var t := NextRecord(fields, m, seen, s);
      OthersUntouched(fields, t.m, t.seen, t.rest, k);
    }
  }

  // ----- Required fields -----

  /** The required fields before field `i`. */
  function RequiredSet(fields: seq<Field>, i: nat): set<nat>
    requires i <= |fields|
  {
    set j: nat | j < i && fields[j].htype.Required?
  }

  lemma {:induction false} RequiredCounted(fields: seq<Field>, i: nat)
    requires i <= |fields|
    ensures RequiredBefore(fields, i) == |RequiredSet(fields, i)|
  {
    if i > 0 {
      RequiredCounted(fields, i - 1);
      var before := RequiredSet(fields, i - 1);
      if fields[i - 1].htype.Required? {
        assert RequiredSet(fields, i) == before + {i - 1};
      } else {
        assert RequiredSet(fields, i) == before;
      }
    } else {
      assert RequiredSet(fields, 0) == {};
    }
  }

  /** A message is accepted exactly when all its records can be read and among them is one
      for each of the first 64 required fields. */
  lemma AcceptedExactly(fields: seq<Field>, a: seq<Slot>, s: seq<byte>)
    requires WellFormed(fields)
    ensures Decode(fields, a, s).Got? <==>
      && Run(fields, a, {}, s).Good?
      && (forall i :: 0 <= i < |fields| && fields[i].htype.Required? && |RequiredSet(fields, i)| < 64 ==>
            fields[i].tag in TagsRead(fields, a, {}, s))
  {
    hide Run, TagsRead, RequiredBefore, RequiredSet, WellFormed;
    if Run(fields, a, {}, s).Good? {
      forall i: nat | i < |fields|
        ensures RequiredBefore(fields, i) == |RequiredSet(fields, i)|
        ensures i in Run(fields, a, {}, s).seen <==> fields[i].tag in TagsRead(fields, a, {}, s)
      {
        RequiredCounted(fields, i);
        SeenExactly(fields, a, {}, s, i);
      }
    }
  }

  /** Nothing at all is refused when there is a required field, and accepted when not. */
  lemma EmptyInput(fields: seq<Field>)
    requires WellFormed(fields)
    ensures DecodeFresh(fields, []).Got? <==> Records.NoRequired(fields)
  {
    if Records.NoRequired(fields) {
      NothingDecoded(fields);
    } else {
      var i :| 0 <= i < |fields| && fields[i].htype.Required?;
      var k := FirstRequired(fields, i);
      AcceptedExactly(fields, Defaults(fields), []);
    }
  }

  lemma {:induction false} FirstRequired(fields: seq<Field>, i: nat) returns (k: nat)
    requires i < |fields| && fields[i].htype.Required?
    ensures k < |fields| && fields[k].htype.Required? && |RequiredSet(fields, k)| == 0
  {
    if RequiredSet(fields, i) == {} {
      k := i;
    } else {
      var j :| j in RequiredSet(fields, i);
      k := FirstRequired(fields, j);
    }
  }

  // ----- A submessage that ends early -----

  /** A submessage may be ended by a zero tag within its declared length; what is left of
      it is passed over, and reading goes on right behind it. */
  lemma ChildEndsEarly(f: Field, cur: Value, n: seq<Slot>, junk: seq<byte>, rest: seq<byte>)
    requires WellFormedField(f) && f.ltype.Submessage?
    requires Typed(f.sub, n) && Encodable(f.sub, n) && Terminated(f.sub, n)
    requires Shaped(f.sub, MsgOf(cur)) && Fits(f.sub, MsgOf(cur), n)
    requires |Enc(f.sub, n) + [0] + junk| < TWO32
    ensures DecValue(f, cur, Delimited(Enc(f.sub, n) + [0] + junk) + rest) ==
            Got(Msg(MergeMsg(f.sub, MsgOf(cur), n)), rest)
  {
    hide Run, Enc, MergeMsg, Typed, Encodable, Terminated, Shaped, Fits, Delimited, TakeDelimited;
    var fields, a, body := f.sub, MsgOf(cur), Enc(f.sub, n) + [0] + junk;
    RT.DelimitedBack(body, rest);
    Records.EncodedRun(fields, a, n, {}, [0] + junk);
    Records.RunZero(fields, MergeMsg(fields, a, n), SeenFrom(fields, n, 0, {}), junk);
    SeenGrows(fields, n, 0, {});
    assert body == Enc(fields, n) + ([0] + junk);
  }
}
