/**
 The section "Last One Wins" of the Protocol Buffers Encoding specification as a merge
 of messages, and exactly when decoding meets it. The two differ on a oneof
 submessage that is selected already: the section merges into it, the code
 initialises it anew.
 */
module LastOneWins {
  import opened Wrappers
  import opened Bits
  import opened Varint
  import opened Descriptor
  import opened Wire
  import opened Merge
  import opened NormalForm
  import opened Codec
  import opened Records

  // ----- The merge the specification asks for -----

  /** A later value of a singular field: messages are merged, other values replaced. */
  function SpecValue(f: Field, cur: Value, v: Value): Value
    decreases f, 0
  {
    match f.ltype
    case Submessage => Msg(SpecMerge(f.sub, MsgOf(cur), MsgOf(v)))
    case Bool => Num(if NumOf(v) != 0 then 1 else 0)
    case _ => v
  }

  /** What becomes of member `x` when `y` sets field `f` of it. */
  function SpecSlot(f: Field, x: Slot, y: Slot): Slot
    decreases f, 1
  {
    match f.htype
    case Repeated =>
      var items := ItemsOf(y);
      Counted(ItemsOf(x) + seq(|items|, k requires 0 <= k < |items| => SpecValue(f, DefaultValue(f), items[k])))
    case OneOf => Union(f.tag, SpecValue(f, if Selects(f, x) then x.v else DefaultValue(f), DataOf(y)))
    case _ => StoreValue(f, x, SpecValue(f, DataOf(x), DataOf(y)))
  }

  /** A oneof member holds field `f`. */
  predicate Selects(f: Field, x: Slot) { x.Union? && x.which == f.tag }

  /** The field from `i` on through which `b` sets member `k`, or none. */
  function Writer(fields: seq<Field>, b: seq<Slot>, k: nat, i: nat): (j: nat)
    requires i <= |fields|
    ensures i <= j <= |fields|
    ensures j < |fields| ==> fields[j].slot == k && Payload(fields[j], At(b, k)) != []
    ensures forall n :: i <= n < j && fields[n].slot == k ==> Payload(fields[n], At(b, k)) == []
    decreases |fields| - i
  {
    if i == |fields| || (fields[i].slot == k && Payload(fields[i], At(b, k)) != []) then i
    else Writer(fields, b, k, i + 1)
  }

  /** `b` merged into `a`, member by member. */
  function SpecMerge(fields: seq<Field>, a: seq<Slot>, b: seq<Slot>): (r: seq<Slot>)
    ensures |r| == |a|
    decreases fields, 2
  {
    seq(|a|, k requires 0 <= k < |a| =>
      var j := Writer(fields, b, k, 0);
      if j < |fields| then SpecSlot(fields[j], a[k], At(b, k)) else a[k])
  }

  // ----- The merge the code makes, member by member -----

  lemma CodeSlot(fields: seq<Field>, a: seq<Slot>, b: seq<Slot>, k: nat)
    requires WellFormed(fields) && |a| == NumSlots(fields) && k < |a|
    ensures var j := Writer(fields, b, k, 0);
      MergeMsg(fields, a, b)[k] ==
      if j < |fields| then MergeAll(fields[j], a[k], Payload(fields[j], At(b, k))) else a[k]
  {
    hide MergeFrom, MergeAll;
    var j := Writer(fields, b, k, 0);
    if j < |fields| {
      OnlyPayload(fields, b, j);
      MergedAt(fields, a, b, 0, j);
    } else {
      MergedUntouched(fields, a, b, 0, k);
    }
  }

  lemma CodeSingular(f: Field, x: Slot, y: Slot)
    requires !f.htype.Repeated? && Payload(f, y) != []
    ensures MergeAll(f, x, Payload(f, y)) == StoreValue(f, x, MergeValue(f, Current(f, x), DataOf(y)))
  {
    hide MergeValue, IsZero;
    var vs := Payload(f, y);
    assert vs == [DataOf(y)];
    assert MergeAll(f, StoreValue(f, x, MergeValue(f, Current(f, x), vs[0])), vs[1..]) ==
           StoreValue(f, x, MergeValue(f, Current(f, x), vs[0]));
  }

  /** Into fresh storage both merge alike. */
  lemma FreshValue(f: Field, v: Value)
    requires WellFormedField(f) && TypedValue(f, v)
    ensures SpecValue(f, DefaultValue(f), v) == MergeValue(f, DefaultValue(f), v)
    decreases f, 0
  {
    if f.ltype.Submessage? { FreshMerge(f.sub, v.slots); }
  }

  lemma FreshSubmessage(f: Field)
    requires f.ltype.Submessage?
    ensures DefaultValue(f) == Msg(Defaults(f.sub))
  {
    hide Defaults;
  }

  lemma RepeatedAlike(f: Field, x: Slot, y: Slot)
    requires WellFormedField(f) && f.htype.Repeated? && TypedSlot(f, y) && x.Counted?
    ensures SpecSlot(f, x, y) == MergeAll(f, x, Payload(f, y))
    ensures |ItemsOf(SpecSlot(f, x, y))| == |x.items| + |Payload(f, y)|
    ensures ItemsOf(SpecSlot(f, x, y))[|x.items|..] == ItemsOf(SpecSlot(f, Counted([]), y))
    decreases f, 1
  {
    hide SpecValue, MergeValue, DefaultValue, TypedValue;
    var vs := Payload(f, y);
    MergeAllItems(f, x, vs);
    forall k | 0 <= k < |vs| ensures SpecValue(f, DefaultValue(f), vs[k]) == MergeValue(f, DefaultValue(f), vs[k]) {
      FreshValue(f, vs[k]);
    }
    assert SpecSlot(f, x, y).items == MergeAll(f, x, vs).items;
  }

  lemma FreshMerge(fields: seq<Field>, b: seq<Slot>)
    requires WellFormed(fields) && Typed(fields, b)
    ensures SpecMerge(fields, Defaults(fields), b) == MergeMsg(fields, Defaults(fields), b)
    decreases fields, 0
  {
    var a := Defaults(fields);
    forall k | 0 <= k < |a| ensures SpecMerge(fields, a, b)[k] == MergeMsg(fields, a, b)[k] {
      CodeSlot(fields, a, b, k);
      var j := Writer(fields, b, k, 0);
      if j < |fields| { FreshSlot(fields, b, j); }
    }
  }

  lemma FreshSlot(fields: seq<Field>, b: seq<Slot>, j: nat)
    requires WellFormed(fields) && Typed(fields, b) && j < |fields|
    requires Payload(fields[j], At(b, fields[j].slot)) != []
    ensures var f, y := fields[j], At(b, fields[j].slot);
      SpecSlot(f, At(Defaults(fields), f.slot), y) == MergeAll(f, At(Defaults(fields), f.slot), Payload(f, y))
    decreases fields, 0, 0
  {
    hide SpecValue, MergeValue, DefaultValue, TypedValue, MergeAll, Defaults;
    var f := fields[j];
    var x, y := At(Defaults(fields), f.slot), At(b, f.slot);
    assert WellFormedField(f) && TypedSlot(f, y);
    DefaultsAt(fields, j);
    if f.htype.Repeated? {
      RepeatedAlike(f, x, y);
    } else {
      CodeSingular(f, x, y);
      assert TypedValue(f, Payload(f, y)[0]);
      FreshValue(f, DataOf(y));
    }
  }

  // ----- When merging into a value is the same as starting anew -----

  /** Everything `was` holds, `n` sets again, so merging `n` into it leaves nothing of it. */
  predicate Covers(fields: seq<Field>, was: seq<Slot>, n: seq<Slot>)
    decreases fields, 0
  {
    |was| == NumSlots(fields) && forall k :: 0 <= k < |was| ==> CoversAt(fields, was, n, k)
  }

  predicate CoversAt(fields: seq<Field>, was: seq<Slot>, n: seq<Slot>, k: nat)
    requires k < |was| == NumSlots(fields)
    decreases fields, 0, 0
  {
    var j := Writer(fields, n, k, 0);
    if j < |fields| then CoversField(fields[j], was[k], At(n, k)) else was[k] == Defaults(fields)[k]
  }

  predicate CoversField(f: Field, x: Slot, y: Slot)
    decreases f
  {
    match f.htype
    case Repeated => ItemsOf(x) == []
    case OneOf => f.ltype.Submessage? && Selects(f, x) ==> Covers(f.sub, MsgOf(x.v), MsgOf(DataOf(y)))
    case _ => f.ltype.Submessage? ==> Covers(f.sub, MsgOf(DataOf(x)), MsgOf(DataOf(y)))
  }

  lemma CoversExactly(fields: seq<Field>, was: seq<Slot>, n: seq<Slot>)
    requires WellFormed(fields) && Normal(fields, was) && Typed(fields, n)
    ensures SpecMerge(fields, was, n) == MergeMsg(fields, Defaults(fields), n) <==> Covers(fields, was, n)
    decreases fields, 0
  {
    hide CoversAt, MergeMsg, Normal, Typed, WellFormed, Defaults;
    var s, m := SpecMerge(fields, was, n), MergeMsg(fields, Defaults(fields), n);
    NormalLength(fields, was);
    forall k | 0 <= k < |was| ensures s[k] == m[k] <==> CoversAt(fields, was, n, k) {
      CoversExactlyAt(fields, was, n, k);
    }
    if Covers(fields, was, n) { assert s == m; }
  }

  lemma NormalLength(fields: seq<Field>, m: seq<Slot>)
    requires Normal(fields, m)
    ensures |m| == NumSlots(fields)
  {
  }

  lemma CoversExactlyAt(fields: seq<Field>, was: seq<Slot>, n: seq<Slot>, k: nat)
    requires WellFormed(fields) && Normal(fields, was) && Typed(fields, n) && k < |was|
    ensures SpecMerge(fields, was, n)[k] == MergeMsg(fields, Defaults(fields), n)[k] <==> CoversAt(fields, was, n, k)
    decreases fields, 0, 0
  {
    hide MergeMsg, Defaults, MergeAll, SpecSlot, CoversField;
    CodeSlot(fields, Defaults(fields), n, k);
    var j := Writer(fields, n, k, 0);
    if j < |fields| {
      DefaultsAt(fields, j);
      NormalAt(fields, was, j);
      assert TypedSlot(fields[j], At(n, k));
      CoversFieldExactly(fields[j], was[k], At(n, k));
    }
  }

  lemma CoversFieldExactly(f: Field, x: Slot, y: Slot)
    requires WellFormedField(f) && NormalSlot(f, x) && TypedSlot(f, y) && Payload(f, y) != []
    ensures SpecSlot(f, x, y) == MergeAll(f, DefaultSlot(f), Payload(f, y)) <==> CoversField(f, x, y)
    decreases f
  {
    hide MergeAll, DefaultValue, Defaults, Covers, IsZero, WellFormed, Normal, Typed, MergeMsg, SpecMerge;
    if f.htype.Repeated? {
      RepeatedAlike(f, x, y);
      RepeatedAlike(f, DefaultSlot(f), y);
    } else {
      CodeSingular(f, DefaultSlot(f), y);
      assert TypedValue(f, Payload(f, y)[0]);
      FreshValue(f, DataOf(y));
      if f.ltype.Submessage? {
        FreshSubmessage(f);
        if !f.htype.OneOf? || Selects(f, x) {
          assert NormalValue(f, DataOf(x));
          CoversExactly(f.sub, MsgOf(DataOf(x)), MsgOf(DataOf(y)));
        }
      }
    }
  }

  // ----- When the code meets the section -----

  /** Wherever `a` and `b` select the same oneof submessage, `b` leaves nothing of what
      `a` holds there. */
  predicate Agrees(fields: seq<Field>, a: seq<Slot>, b: seq<Slot>)
    decreases fields, 0
  {
    forall k :: 0 <= k < |a| ==> AgreesAt(fields, a, b, k)
  }

  predicate AgreesAt(fields: seq<Field>, a: seq<Slot>, b: seq<Slot>, k: nat)
    requires k < |a|
    decreases fields, 0, 0
  {
    var j := Writer(fields, b, k, 0);
    j < |fields| ==> AgreesField(fields[j], a[k], At(b, k))
  }

  predicate AgreesField(f: Field, x: Slot, y: Slot)
    decreases f
  {
    f.ltype.Submessage? ==>
      match f.htype
      case Repeated => true
      case OneOf => Selects(f, x) ==> Covers(f.sub, MsgOf(x.v), MsgOf(DataOf(y)))
      case _ => Agrees(f.sub, MsgOf(DataOf(x)), MsgOf(DataOf(y)))
  }

  /** The merge of the code is that of the specification exactly when no oneof
      submessage is selected on both sides with something to lose. */
  lemma MeetsSpecExactly(fields: seq<Field>, a: seq<Slot>, b: seq<Slot>)
    requires WellFormed(fields) && Normal(fields, a) && Typed(fields, b)
    ensures MergeMsg(fields, a, b) == SpecMerge(fields, a, b) <==> Agrees(fields, a, b)
    decreases fields, 0
  {
    hide AgreesAt, MergeMsg, Normal, Typed, WellFormed;
    var s, m := SpecMerge(fields, a, b), MergeMsg(fields, a, b);
    forall k | 0 <= k < |a| ensures m[k] == s[k] <==> AgreesAt(fields, a, b, k) {
      MeetsSpecAt(fields, a, b, k);
    }
    if Agrees(fields, a, b) { assert m == s; }
  }

  lemma MeetsSpecAt(fields: seq<Field>, a: seq<Slot>, b: seq<Slot>, k: nat)
    requires WellFormed(fields) && Normal(fields, a) && Typed(fields, b) && k < |a|
    ensures MergeMsg(fields, a, b)[k] == SpecMerge(fields, a, b)[k] <==> AgreesAt(fields, a, b, k)
    decreases fields, 0, 0
  {
    hide MergeMsg, MergeAll, SpecSlot, AgreesField;
    CodeSlot(fields, a, b, k);
    var j := Writer(fields, b, k, 0);
    if j < |fields| {
      NormalAt(fields, a, j);
      assert TypedSlot(fields[j], At(b, k));
      FieldMeetsSpec(fields[j], a[k], At(b, k));
    }
  }

  lemma FieldMeetsSpec(f: Field, x: Slot, y: Slot)
    requires WellFormedField(f) && NormalSlot(f, x) && TypedSlot(f, y) && Payload(f, y) != []
    ensures MergeAll(f, x, Payload(f, y)) == SpecSlot(f, x, y) <==> AgreesField(f, x, y)
    decreases f
  {
    hide MergeAll, DefaultValue, Defaults, Covers, Agrees, IsZero, WellFormed, Normal, Typed, MergeMsg, SpecMerge;
    if f.htype.Repeated? {
      RepeatedAlike(f, x, y);
    } else {
      CodeSingular(f, x, y);
      assert TypedValue(f, Payload(f, y)[0]);
      FreshValue(f, DataOf(y));
      if f.ltype.Submessage? {
        FreshSubmessage(f);
        if !f.htype.OneOf? {
          assert NormalValue(f, DataOf(x));
          MeetsSpecExactly(f.sub, MsgOf(DataOf(x)), MsgOf(DataOf(y)));
        } else if Selects(f, x) {
          assert NormalValue(f, DataOf(x));
          CoversExactly(f.sub, MsgOf(DataOf(x)), MsgOf(DataOf(y)));
        }
      }
    }
  }

  /** At no depth do `a` and `b` select the same oneof submessage. */
  predicate NoClash(fields: seq<Field>, a: seq<Slot>, b: seq<Slot>)
    decreases fields
  {
    forall j :: 0 <= j < |fields| && Payload(fields[j], At(b, fields[j].slot)) != [] ==>
      NoClashIn(fields[j], At(a, fields[j].slot), At(b, fields[j].slot))
  }

  predicate NoClashIn(f: Field, x: Slot, y: Slot)
    decreases f
  {
    f.ltype.Submessage? ==>
      match f.htype
      case Repeated => true
      case OneOf => !Selects(f, x)
      case _ => NoClash(f.sub, MsgOf(DataOf(x)), MsgOf(DataOf(y)))
  }

  lemma NoClashAgrees(fields: seq<Field>, a: seq<Slot>, b: seq<Slot>)
    requires NoClash(fields, a, b)
    ensures Agrees(fields, a, b)
    decreases fields
  {
    hide Covers;
    forall k | 0 <= k < |a| ensures AgreesAt(fields, a, b, k) {
      var j := Writer(fields, b, k, 0);
      if j < |fields| {
        var f, x, y := fields[j], a[k], At(b, k);
        assert NoClashIn(f, x, y);
        if f.ltype.Submessage? && !f.htype.Repeated? && !f.htype.OneOf? {
          NoClashAgrees(f.sub, MsgOf(DataOf(x)), MsgOf(DataOf(y)));
        }
      }
    }
  }

  /** So the code meets the section whenever no oneof submessage is set again. */
  lemma NoClashMeetsSpec(fields: seq<Field>, a: seq<Slot>, b: seq<Slot>)
    requires WellFormed(fields) && Normal(fields, a) && Typed(fields, b) && NoClash(fields, a, b)
    ensures MergeMsg(fields, a, b) == SpecMerge(fields, a, b)
  {
    hide MergeMsg, SpecMerge, NoClash, Agrees;
    NoClashAgrees(fields, a, b);
    MeetsSpecExactly(fields, a, b);
  }

  // ----- On the wire -----

  /** Decoding an encoded message onto a decoded one gives what the section asks for,
      exactly when they agree. */
  lemma DecodeMeetsSpecExactly(fields: seq<Field>, a: seq<Slot>, b: seq<Slot>)
    requires WellFormed(fields) && Normal(fields, a)
    requires Typed(fields, b) && Encodable(fields, b) && Terminated(fields, b) && |Enc(fields, b)| < TWO32
    requires Fits(fields, a, b)
    ensures Decode(fields, a, Enc(fields, b)) == Got(SpecMerge(fields, a, b), []) <==> Agrees(fields, a, b)
  {
    hide Enc, Decode, Normal, Typed, Encodable, Terminated, Fits, WellFormed, MergeMsg, SpecMerge, Agrees, Shaped;
    NormalIsShaped(fields, a);
    DecodeEncoded(fields, a, b);
    MeetsSpecExactly(fields, a, b);
  }

  /** So does decoding two encodings one after the other. */
  lemma ConcatMeetsSpecExactly(fields: seq<Field>, m: seq<Slot>, n: seq<Slot>)
    requires WellFormed(fields)
    requires Typed(fields, m) && Encodable(fields, m) && Terminated(fields, m) && |Enc(fields, m)| < TWO32
    requires Typed(fields, n) && Encodable(fields, n) && Terminated(fields, n) && |Enc(fields, n)| < TWO32
    requires Fits(fields, MergeMsg(fields, Defaults(fields), m), n)
    ensures var first := MergeMsg(fields, Defaults(fields), m);
      DecodeFresh(fields, Enc(fields, m) + Enc(fields, n)) == Got(SpecMerge(fields, first, n), []) <==>
      Agrees(fields, first, n)
  {
    hide Enc, Decode, Normal, Typed, Encodable, Terminated, Fits, WellFormed, MergeMsg, SpecMerge, Agrees, Shaped;
    EncodedConcat(fields, m, n);
    DefaultsFit(fields, m);
    DefaultsShaped(fields);
    DecodeEncoded(fields, Defaults(fields), m);
    DefaultsNormal(fields);
    DecodeNormal(fields, Defaults(fields), Enc(fields, m));
    MeetsSpecExactly(fields, MergeMsg(fields, Defaults(fields), m), n);
  }

  // ----- What is lost -----

  const FIELD_A: Field := Field(1, Varint, Optional, 4, -4, 4, 0, 0, [], None)
  const FIELD_B: Field := Field(2, Varint, Optional, 4, -4, 4, 0, 1, [], None)
  const CHOICE: Field := Field(1, Submessage, OneOf, 4, -4, 16, 0, 0, [FIELD_A, FIELD_B], None)

  function Chosen(a: Slot, b: Slot): seq<Slot> { [Union(1, Msg([a, b]))] }

  const UNSET: Slot := Flagged(false, Num(0))

  lemma ChoiceWellFormed()
    ensures WellFormed([CHOICE]) && WellFormed([FIELD_A, FIELD_B])
  {
    var sub := [FIELD_A, FIELD_B];
    assert WellFormedField(FIELD_A) && WellFormedField(FIELD_B);
    assert Follows(FIELD_A, FIELD_B);
    assert StartsPast(sub, 0, 1);
    assert WellFormed(sub);
    assert WellFormedField(CHOICE);
  }

  /** A message in which `a` and `b` are each unset or hold a 32-bit number. */
  predicate SmallSlot(x: Slot) { x.Flagged? && x.v.Num? && (x.has || x.v.n == 0) && InSigned(x.v.n, 4) }

  lemma ChosenNormal(a: Slot, b: Slot)
    requires SmallSlot(a) && SmallSlot(b)
    ensures Normal([CHOICE], Chosen(a, b))
  {
    hide InSigned;
    var sub, m := [FIELD_A, FIELD_B], Chosen(a, b);
    assert NormalSlot(FIELD_A, a) && NormalSlot(FIELD_B, b);
    assert Normal(sub, [a, b]);
    assert NormalSlot(CHOICE, m[0]);
    assert [CHOICE][0].slot == 0 && [CHOICE][0].tag == m[0].which;
    assert UnionKnown([CHOICE], m[0], 0);
  }

  /** The bytes of a selected submessage. */
  lemma ChosenBytes(a: Slot, b: Slot, body: seq<byte>)
    requires Enc([FIELD_A, FIELD_B], [a, b]) == body && |body| == 2
    ensures Enc([CHOICE], Chosen(a, b)) == [0x0A, 0x02] + body
  {
    hide Enc, EncFrom;
    var v := Msg([a, b]);
    OneField(CHOICE, Union(1, v));
    assert EncVarint(10) == [0x0A] && EncVarint(2) == [0x02];
    assert EncValue(CHOICE, v) == [0x02] + body;
    assert EncRecords(CHOICE, [v][1..]) == [];
  }

  lemma BodyBytes()
    ensures Enc([FIELD_A, FIELD_B], [Flagged(true, Num(1)), UNSET]) == [0x08, 0x01]
    ensures Enc([FIELD_A, FIELD_B], [UNSET, Flagged(true, Num(2))]) == [0x10, 0x02]
  {
    OneNumber(FIELD_A, 1);
    OneNumber(FIELD_B, 2);
    NoNumber(FIELD_A);
    NoNumber(FIELD_B);
    hide EncSlot;
    TwoFields(Flagged(true, Num(1)), UNSET);
    TwoFields(UNSET, Flagged(true, Num(2)));
  }

  lemma OneNumber(f: Field, n: nat)
    requires f == FIELD_A || f == FIELD_B
    requires n < 128
    ensures EncSlot(f, Flagged(true, Num(n))) == [8 * f.tag, n]
  {
    assert EncRecords(f, [Num(n)][1..]) == [];
    assert EncVarint(8 * f.tag) == [8 * f.tag] && EncVarint(n) == [n];
    assert n % TWO64 == n;
  }

  lemma NoNumber(f: Field)
    requires f == FIELD_A || f == FIELD_B
    ensures EncSlot(f, UNSET) == []
  {
    assert Payload(f, UNSET) == [];
  }

  lemma TwoFields(a: Slot, b: Slot)
    ensures Enc([FIELD_A, FIELD_B], [a, b]) == EncSlot(FIELD_A, a) + EncSlot(FIELD_B, b)
  {
    hide EncSlot;
    var sub, m := [FIELD_A, FIELD_B], [a, b];
    assert EncFrom(sub, m, 2) == [];
    assert EncFrom(sub, m, 1) == EncSlot(FIELD_B, b);
  }

  /** The code keeps only the later selection, the section both fields. */
  lemma MergesOfChosen(a: Slot, b: Slot)
    requires SmallSlot(a) && SmallSlot(b) && a.has && b.has
    ensures MergeMsg([CHOICE], Chosen(a, UNSET), Chosen(UNSET, b)) == Chosen(UNSET, b)
    ensures SpecMerge([CHOICE], Chosen(a, UNSET), Chosen(UNSET, b)) == Chosen(a, b)
  {
    var m, n := Chosen(a, UNSET), Chosen(UNSET, b);
    ChoiceWellFormed();
    ChosenNormal(UNSET, b);
    NormalUnchanged([CHOICE], n);
    CodeSlot([CHOICE], m, n, 0);
    CodeSlot([CHOICE], Defaults([CHOICE]), n, 0);
    DefaultsAt([CHOICE], 0);
    assert Writer([CHOICE], n, 0, 0) == 0;
    CodeSingular(CHOICE, m[0], n[0]);
    CodeSingular(CHOICE, DefaultSlot(CHOICE), n[0]);
    hide MergeMsg, MergeAll, MergeValue, Defaults;
    SpecOfChosen(a, b);
    hide SpecMerge;
    assert SpecValue(CHOICE, m[0].v, DataOf(n[0])) == Msg([a, b]);
    assert SpecSlot(CHOICE, m[0], n[0]) == Union(1, Msg([a, b]));
    SpecOfOne(m, n);
  }

  lemma SpecOfOne(m: seq<Slot>, n: seq<Slot>)
    requires |m| == 1 && Writer([CHOICE], n, 0, 0) == 0
    ensures SpecMerge([CHOICE], m, n) == [SpecSlot(CHOICE, m[0], At(n, 0))]
  {
    hide SpecSlot;
  }

  lemma SpecOfChosen(a: Slot, b: Slot)
    requires SmallSlot(a) && SmallSlot(b) && a.has && b.has
    ensures SpecMerge([FIELD_A, FIELD_B], [a, UNSET], [UNSET, b]) == [a, b]
  {
    var n := [UNSET, b];
    assert Writer([FIELD_A, FIELD_B], n, 0, 2) == 2;
    assert Writer([FIELD_A, FIELD_B], n, 0, 1) == 2;
    assert Writer([FIELD_A, FIELD_B], n, 0, 0) == 2;
    assert Writer([FIELD_A, FIELD_B], n, 1, 1) == 1;
    assert Writer([FIELD_A, FIELD_B], n, 1, 0) == 1;
    hide Writer;
    assert SpecSlot(FIELD_B, UNSET, b) == b;
  }

  /** A submessage with a = 1, and again with b = 2: decoding gives only b = 2. */
  lemma LostFieldExample()
    ensures var a, b := Flagged(true, Num(1)), Flagged(true, Num(2));
      && WellFormed([CHOICE])
      && DecodeFresh([CHOICE], [0x0A, 0x02, 0x08, 0x01]) == Got(Chosen(a, UNSET), [])
      && DecodeFresh([CHOICE], [0x0A, 0x02, 0x08, 0x01, 0x0A, 0x02, 0x10, 0x02]) == Got(Chosen(UNSET, b), [])
      && SpecMerge([CHOICE], Chosen(a, UNSET), Chosen(UNSET, b)) == Chosen(a, b)
  {
    var a, b := Flagged(true, Num(1)), Flagged(true, Num(2));
    var m, n := Chosen(a, UNSET), Chosen(UNSET, b);
    ChoiceWellFormed();
    ChosenNormal(a, UNSET);
    ChosenNormal(UNSET, b);
    BodyBytes();
    ChosenBytes(a, UNSET, [0x08, 0x01]);
    ChosenBytes(UNSET, b, [0x10, 0x02]);
    MergesOfChosen(a, b);
    hide Enc, Decode, Normal, Typed, Encodable, Terminated, WellFormed, MergeMsg, SpecMerge, Shaped, Defaults;
    NormalIsEncodable([CHOICE], m);
    NormalIsEncodable([CHOICE], n);
    NormalUnchanged([CHOICE], m);
    DefaultsFit([CHOICE], m);
    DefaultsShaped([CHOICE]);
    DecodeEncoded([CHOICE], Defaults([CHOICE]), m);
    ChosenFits(m, n);
    EncodedConcat([CHOICE], m, n);
    assert [0x0A, 0x02] + [0x08, 0x01] == [0x0A, 0x02, 0x08, 0x01];
    assert [0x0A, 0x02] + [0x08, 0x01] + ([0x0A, 0x02] + [0x10, 0x02]) ==
      [0x0A, 0x02, 0x08, 0x01, 0x0A, 0x02, 0x10, 0x02];
  }

  lemma ChosenFits(m: seq<Slot>, n: seq<Slot>)
    requires WellFormed([CHOICE]) && |m| == 1 && m[0].Union? && Encodable([CHOICE], n)
    ensures Fits([CHOICE], m, n)
  {
    DefaultsFit([CHOICE], n);
    DefaultsAt([CHOICE], 0);
    var vs := Payload(CHOICE, At(n, 0));
    assert FitsSlot(CHOICE, At(Defaults([CHOICE]), 0), vs);
    assert FitsSlot(CHOICE, m[0], vs);
  }
}
