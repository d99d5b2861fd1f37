/**
 The wrapping iterator over a descriptor array (`pb_common.c`). Addresses are
 integers; the array ends in a terminator entry with tag 0, at index |fields|.
 */
module FieldIters {
  import opened Wrappers
  import opened Descriptor
  import opened Wire

  // ----- What a fresh walk to a position computes -----

  predicate IsUnionMember(fields: seq<Field>, i: nat)
    requires 0 < i < |fields|
  {
    fields[i - 1].htype.OneOf? && fields[i].htype.OneOf? && fields[i].dataOffset == PB_SIZE_MAX
  }

  function DataOffsetAt(fields: seq<Field>, i: nat): nat {
    if i < |fields| then fields[i].dataOffset else 0
  }

  function SizeOffsetAt(fields: seq<Field>, i: nat): int {
    if i < |fields| then fields[i].sizeOffset else 0
  }

  /** The address of the data of field `i` in a struct at `base`. */
  function DataAddress(fields: seq<Field>, base: int, i: nat): int
    requires i == 0 || i < |fields|
  {
    if i == 0 then base + DataOffsetAt(fields, 0)
    else if IsUnionMember(fields, i) then DataAddress(fields, base, i - 1)
    else DataAddress(fields, base, i - 1) + Footprint(fields[i - 1]) + fields[i].dataOffset
  }

  /** The address of its has_, _count or which_ member. */
  function SizeAddress(fields: seq<Field>, base: int, i: nat): int
    requires i == 0 || i < |fields|
  {
    if i > 0 && IsUnionMember(fields, i) then SizeAddress(fields, base, i - 1)
    else DataAddress(fields, base, i) + SizeOffsetAt(fields, i)
  }

  /** In a well-formed descriptor that is also what the field's own offset gives. */
  lemma {:induction false} SizeAddressOwn(fields: seq<Field>, base: int, i: nat)
    requires WellLaidOut(fields) && i < |fields|
    ensures SizeAddress(fields, base, i) == DataAddress(fields, base, i) + fields[i].sizeOffset
  {
    if i > 0 {
      assert Follows(fields[i - 1], fields[i]);
      if IsUnionMember(fields, i) { SizeAddressOwn(fields, base, i - 1); }
    }
  }

  /** Where the member of field `i` starts: at its has_, _count or which_ member, if it
      has one. */
  function StartAddress(fields: seq<Field>, base: int, i: nat): int
    requires i < |fields|
  {
    if fields[i].sizeOffset == 0 then DataAddress(fields, base, i) else SizeAddress(fields, base, i)
  }

  /** A member starts within the struct, and its has_, _count or which_ member ends
      before its data. */
  lemma {:induction false} MemberInOrder(fields: seq<Field>, base: int, i: nat)
    requires WellLaidOut(fields) && i < |fields|
    ensures StartAddress(fields, base, i) == DataAddress(fields, base, i) + fields[i].sizeOffset
    ensures base <= StartAddress(fields, base, i)
    ensures StartAddress(fields, base, i) + SizeWidth(fields[i]) <= DataAddress(fields, base, i)
  {
    SizeAddressOwn(fields, base, i);
    assert SizeFirst(fields[i]);
    if i > 0 {
      assert Follows(fields[i - 1], fields[i]);
      MemberInOrder(fields, base, i - 1);
      assert StartsPast(fields, i - 1, i);
    }
  }

  /** Fields of one slot share their addresses; the whole members of different slots,
      with their has_, _count and which_ members, do not overlap. So a slot may stand
      for its memory. */
  lemma {:induction false} SlotsAreMemory(fields: seq<Field>, base: int, i: nat, j: nat)
    requires WellLaidOut(fields) && i < j < |fields|
    ensures fields[i].slot == fields[j].slot ==>
      && DataAddress(fields, base, i) == DataAddress(fields, base, j)
      && SizeAddress(fields, base, i) == SizeAddress(fields, base, j)
    ensures fields[i].slot != fields[j].slot ==>
      DataAddress(fields, base, i) + Footprint(fields[i]) <= StartAddress(fields, base, j)
    decreases j - i
  {
    assert Follows(fields[j - 1], fields[j]);
    MemberInOrder(fields, base, j - 1);
    MemberInOrder(fields, base, j);
    assert StartsPast(fields, i, j) && StartsPast(fields, j - 1, j);
    if i < j - 1 {
      SlotsAreMemory(fields, base, i, j - 1);
      SlotsUp(fields, i, j);
    }
  }

  /** Every item of an array lies before the members behind it. */
  lemma ItemsFit(fields: seq<Field>, base: int, i: nat, j: nat, k: nat)
    requires WellLaidOut(fields) && i < j < |fields| && fields[i].htype.Repeated? && k < fields[i].arraySize
    requires fields[i].slot != fields[j].slot
    ensures DataAddress(fields, base, i) + (k + 1) * fields[i].dataSize <= StartAddress(fields, base, j)
  {
    hide WellLaidOut, DataAddress, StartAddress, SizeAddress;
    SlotsAreMemory(fields, base, i, j);
    FewerItems(k + 1, fields[i].arraySize, fields[i].dataSize);
  }

  lemma FewerItems(k: nat, n: nat, size: nat)
    requires k <= n
    ensures k * size <= size * n
  {
  }

  /** A 32-bit number, an array of eight 16-bit numbers with its count, and a flag. */
  lemma AddressExample(base: int)
    ensures var fields := [
        Field(1, Varint, Required, 0, 0, 4, 0, 0, [], None),
        Field(2, Varint, Repeated, 4, -4, 2, 8, 1, [], None),
        Field(3, Bool, Required, 0, 0, 1, 0, 2, [], None)];
      && DataAddress(fields, base, 0) == base
      && SizeAddress(fields, base, 1) == base + 4 && DataAddress(fields, base, 1) == base + 8
      && DataAddress(fields, base, 2) == base + 24
  {
  }

  lemma {:induction false} SlotsUp(fields: seq<Field>, i: nat, j: nat)
    requires WellLaidOut(fields) && i < j < |fields|
    ensures fields[i].slot <= fields[j - 1].slot <= fields[j].slot
    decreases j - i
  {
    assert Follows(fields[j - 1], fields[j]);
    if i < j - 1 { SlotsUp(fields, i, j - 1); }
  }

  // ----- The iterator -----

  class FieldIter {
    const fields: seq<Field>
    const destStruct: int
    var pos: nat
    var requiredFieldIndex: nat
    var pData: int
    var pSize: int

    /** Every member is what a fresh walk to `pos` computes. */
    ghost predicate Valid()
      reads this
    {
      && (forall i :: 0 <= i < |fields| ==> fields[i].tag != 0)
      && (if fields == [] then pos == 0 else pos < |fields|)
      && requiredFieldIndex == RequiredBefore(fields, pos)
      && pData == DataAddress(fields, destStruct, pos)
      && pSize == SizeAddress(fields, destStruct, pos)
    }

    /** The tag at `pos`, which may be the terminator. */
    function Tag(): nat
      reads this
    {
      if pos < |fields| then fields[pos].tag else 0
    }

    constructor (fields: seq<Field>, destStruct: int)
      requires forall i :: 0 <= i < |fields| ==> fields[i].tag != 0
      ensures Valid() && pos == 0
      ensures this.fields == fields && this.destStruct == destStruct
    {
      this.fields := fields;
      this.destStruct := destStruct;
      pos := 0;
      requiredFieldIndex := 0;
      pData := destStruct + DataOffsetAt(fields, 0);
      pSize := destStruct + DataOffsetAt(fields, 0) + SizeOffsetAt(fields, 0);
    }

    /** `pb_field_iter_begin` */
    method Begin() returns (nonEmpty: bool)
      requires forall i :: 0 <= i < |fields| ==> fields[i].tag != 0
      modifies this
      ensures Valid() && pos == 0
      ensures nonEmpty <==> fields != []
    {
      pos := 0;
      requiredFieldIndex := 0;
      pData := destStruct + DataOffsetAt(fields, pos);
      pSize := pData + SizeOffsetAt(fields, pos);
      nonEmpty := Tag() != 0;
    }

    /** `pb_field_iter_next`: false when the iterator wraps around. */
    method Next() returns (more: bool)
      requires Valid()
      modifies this
      ensures Valid()
      ensures more <==> old(pos) + 1 < |fields|
      ensures pos == if more then old(pos) + 1 else 0
    {
      var prev := pos;
      if Tag() == 0 {
        return false;
      }
      pos := pos + 1;
      if Tag() == 0 {
        var _ := Begin();
        return false;
      }
      var prevSize := fields[prev].dataSize;
      if fields[prev].htype.OneOf? && fields[pos].htype.OneOf? && fields[pos].dataOffset == PB_SIZE_MAX {
        return true;
      } else if fields[prev].htype.Repeated? {
        prevSize := prevSize * fields[prev].arraySize;
      }
      if fields[prev].htype.Required? {
        requiredFieldIndex := requiredFieldIndex + 1;
      }
      pData := pData + prevSize + fields[pos].dataOffset;
      pSize := pData + fields[pos].sizeOffset;
      return true;
    }

    /** `pb_field_iter_find`: searches from `pos` around the whole array; without a
        match the iterator is back where it was. */
    method Find(tag: nat) returns (found: bool)
      requires Valid()
      modifies this
      ensures Valid()
      ensures found <==> (fields == [] && tag == 0) || (exists i :: 0 <= i < |fields| && fields[i].tag == tag)
      ensures found ==> Tag() == tag
      ensures !found ==> pos == old(pos)
    {
      var start := pos;
      ghost var wrapped := false;
      while true
        invariant Valid()
        invariant start == old(pos)
        invariant fields == [] ==> !wrapped
        invariant !wrapped ==> start <= pos && forall i :: start <= i < pos ==> fields[i].tag != tag
        invariant wrapped ==> pos < start
        invariant wrapped ==> forall i :: start <= i < |fields| ==> fields[i].tag != tag
        invariant wrapped ==> forall i :: 0 <= i < pos ==> fields[i].tag != tag
        decreases if wrapped then start - pos else |fields| - pos + start + 1
      {
        if Tag() == tag {
          return true;
        }
        var more := Next();
        if pos == start {
          return false;
        }
        if !more { wrapped := true; }
      }
    }
  }
}
