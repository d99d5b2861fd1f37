/**
 What decoding an encoded message into an existing structure amounts to: a merge
 of messages, as in the section "Last One Wins" of the Protocol Buffers Encoding
 specification, except that a oneof submessage replaces the old one.
 */
module Merge {
  import opened Descriptor
  import opened Wire

  /** What a value of the field is merged into. */
  function Current(f: Field, x: Slot): Value {
    if f.htype.Repeated? || f.htype.OneOf? then DefaultValue(f) else DataOf(x)
  }

  /** Submessages are merged, other values replace the old one. Bools become 0 or 1. */
  function MergeValue(f: Field, cur: Value, v: Value): Value
    decreases f, 0
  {
    match f.ltype
    case Submessage => Msg(MergeMsg(f.sub, MsgOf(cur), MsgOf(v)))
    case Bool => Num(if NumOf(v) != 0 then 1 else 0)
    case _ => v
  }

  /** Merges values into a slot one after another; repeated fields append. */
  function MergeAll(f: Field, x: Slot, vs: seq<Value>): Slot
    decreases f, 1, |vs|
  {
    if vs == [] then x
    else MergeAll(f, StoreValue(f, x, MergeValue(f, Current(f, x), vs[0])), vs[1..])
  }

  function MergeFrom(fields: seq<Field>, a: seq<Slot>, b: seq<Slot>, i: nat): (r: seq<Slot>)
    requires i <= |fields|
    ensures |r| == |a|
    decreases fields, |fields| - i
  {
    if i == |fields| then a
    else
      var f := fields[i];
      var x := MergeAll(f, At(a, f.slot), Payload(f, At(b, f.slot)));
      MergeFrom(fields, Put(a, f.slot, x), b, i + 1)
  }

  /** `b` merged into `a`. */
  function MergeMsg(fields: seq<Field>, a: seq<Slot>, b: seq<Slot>): (r: seq<Slot>)
    ensures |r| == |a|
    decreases fields, |fields| + 1
  {
    MergeFrom(fields, a, b, 0)
  }

  lemma {:induction false} MergeAllKeepsKind(f: Field, x: Slot, vs: seq<Value>)
    requires SlotKind(f, x)
    ensures SlotKind(f, MergeAll(f, x, vs))
    decreases |vs|
  {
    hide MergeValue;
    if vs != [] {
      MergeAllKeepsKind(f, StoreValue(f, x, MergeValue(f, Current(f, x), vs[0])), vs[1..]);
    }
  }

  // ----- Capacity -----

  ghost predicate FitsValue(f: Field, cur: Value, v: Value)
    decreases f, 0
  {
    f.ltype.Submessage? ==> Fits(f.sub, MsgOf(cur), MsgOf(v))
  }

  ghost predicate FitsSlot(f: Field, x: Slot, vs: seq<Value>)
    decreases f, 1
  {
    && (f.htype.Repeated? ==> |ItemsOf(x)| + |vs| <= f.arraySize)
    && (forall k :: 0 <= k < |vs| ==> FitsValue(f, Current(f, x), vs[k]))
  }

  ghost predicate FitsFrom(fields: seq<Field>, a: seq<Slot>, b: seq<Slot>, i: nat)
    decreases fields, 0
  {
    forall j :: i <= j < |fields| ==>
      FitsSlot(fields[j], At(a, fields[j].slot), Payload(fields[j], At(b, fields[j].slot)))
  }

  /** `a` has room for what `b` adds to it: no array overflows, at any depth. */
  ghost predicate Fits(fields: seq<Field>, a: seq<Slot>, b: seq<Slot>)
    decreases fields, 1
  {
    FitsFrom(fields, a, b, 0)
  }

  // ----- Structures that can be merged into -----

  ghost predicate ShapedValue(f: Field, cur: Value)
    decreases f, 0
  {
    f.ltype.Submessage? ==> Shaped(f.sub, MsgOf(cur))
  }

  ghost predicate ShapedSlot(f: Field, x: Slot)
    decreases f, 1
  {
    && SlotKind(f, x)
    && (f.htype.Repeated? ==> |ItemsOf(x)| <= f.arraySize)
    && ShapedValue(f, Current(f, x))
  }

  ghost predicate ShapedFrom(fields: seq<Field>, a: seq<Slot>, i: nat)
    decreases fields, 0
  {
    && |a| == NumSlots(fields)
    && (forall j :: i <= j < |fields| ==> ShapedSlot(fields[j], At(a, fields[j].slot)))
  }

  /** `a` is a structure of this type, with no more items than its arrays hold. */
  ghost predicate Shaped(fields: seq<Field>, a: seq<Slot>)
    decreases fields, 1
  {
    ShapedFrom(fields, a, 0)
  }

  // ----- Which fields an encoding mentions -----

  function SeenFrom(fields: seq<Field>, m: seq<Slot>, i: nat, seen: set<nat>): set<nat>
    requires i <= |fields|
    decreases |fields| - i
  {
    if i == |fields| then seen
    else
      var vs := Payload(fields[i], At(m, fields[i].slot));
      SeenFrom(fields, m, i + 1, if vs == [] then seen else seen + {i})
  }

  lemma {:induction false} SeenGrows(fields: seq<Field>, m: seq<Slot>, i: nat, seen: set<nat>)
    requires i <= |fields|
    ensures seen <= SeenFrom(fields, m, i, seen)
    ensures forall j :: i <= j < |fields| && fields[j].htype.Required? ==> j in SeenFrom(fields, m, i, seen)
    decreases |fields| - i
  {
    if i < |fields| {
      var vs := Payload(fields[i], At(m, fields[i].slot));
      SeenGrows(fields, m, i + 1, if vs == [] then seen else seen + {i});
    }
  }

  // ----- Slots of a well-formed descriptor -----

  lemma {:induction false} SlotsOrdered(fields: seq<Field>, i: nat, j: nat)
    requires WellLaidOut(fields) && i <= j < |fields|
    ensures fields[i].slot <= fields[j].slot
    ensures i < j && fields[i].slot == fields[j].slot ==> fields[i].htype.OneOf? && fields[j].htype.OneOf?
    decreases j - i
  {
    if i < j {
      SlotsOrdered(fields, i, j - 1);
      assert Follows(fields[j - 1], fields[j]);
    }
  }

  lemma SlotInRange(fields: seq<Field>, i: nat)
    requires WellLaidOut(fields) && i < |fields|
    ensures fields[i].slot < NumSlots(fields)
  {
    SlotsOrdered(fields, i, |fields| - 1);
  }

  lemma SlotsShared(fields: seq<Field>, i: nat, j: nat)
    requires WellLaidOut(fields) && i < |fields| && j < |fields| && i != j
    requires fields[i].slot == fields[j].slot
    ensures fields[i].htype.OneOf? && fields[j].htype.OneOf?
  {
    if i < j { SlotsOrdered(fields, i, j); } else { SlotsOrdered(fields, j, i); }
  }

  lemma {:induction false} SlotsCovered(fields: seq<Field>, k: nat) returns (i: nat)
    requires WellLaidOut(fields) && k < NumSlots(fields)
    ensures i < |fields| && fields[i].slot == k
  {
    i := SlotsCoveredUpTo(fields, k, |fields| - 1);
  }

  lemma {:induction false} SlotsCoveredUpTo(fields: seq<Field>, k: nat, j: nat) returns (i: nat)
    requires WellLaidOut(fields) && j < |fields| && k <= fields[j].slot
    ensures i <= j && fields[i].slot == k
    decreases j
  {
    if fields[j].slot == k {
      i := j;
    } else {
      assert j > 0;
      assert Follows(fields[j - 1], fields[j]);
      i := SlotsCoveredUpTo(fields, k, j - 1);
    }
  }

  lemma FindsTag(fields: seq<Field>, i: nat)
    requires DistinctTags(fields) && i < |fields|
    ensures FindTag(fields, fields[i].tag) == i
  {
  }
}
