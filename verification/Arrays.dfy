/**
 Arrays of numbers on the wire: packed into one record, with a record for each item,
 or in any mixture of the two. The encoder only packs them; the decoder takes all.
 */
module Arrays {
  import opened Wrappers
  import opened Bits
  import opened Descriptor
  import opened Wire
  import opened Merge
  import NF = NormalForm
  import RT = RoundTrip

  /** Some items of an array: in one packed record, or in records of their own. */
  datatype Chunk = Packed(values: seq<Value>) | Single(values: seq<Value>)

  function EncChunk(f: Field, c: Chunk): seq<byte> {
    match c
    case Packed(vs) => EncKey(f.tag, WT_STRING) + Delimited(EncPacked(f, vs))
    case Single(vs) => EncRecords(f, vs)
  }

  function EncChunks(f: Field, cs: seq<Chunk>): seq<byte> {
    if cs == [] then [] else EncChunk(f, cs[0]) + EncChunks(f, cs[1..])
  }

  function AllValues(cs: seq<Chunk>): seq<Value> {
    if cs == [] then [] else cs[0].values + AllValues(cs[1..])
  }

  /** What a number is stored as: bools become 0 or 1. */
  function Stored(f: Field, v: Value): Value {
    if f.ltype.Bool? then Num(if NumOf(v) != 0 then 1 else 0) else v
  }

  /** The array with more items behind the ones it has. */
  function Appended(f: Field, items: seq<Value>, vs: seq<Value>): (r: seq<Value>)
    ensures |r| == |items| + |vs| && items <= r
  {
    items + seq(|vs|, k requires 0 <= k < |vs| => Stored(f, vs[k]))
  }

  predicate IsNumberArray(f: Field) { f.htype.Repeated? && Packable(f.ltype) }

  ghost predicate SoundChunk(f: Field, c: Chunk) {
    c.values != [] && RT.AllSound(f, c.values) && |EncChunk(f, c)| < TWO32
  }

  lemma MergedIsAppended(f: Field, items: seq<Value>, vs: seq<Value>)
    requires IsNumberArray(f)
    ensures MergeAll(f, Counted(items), vs) == Counted(Appended(f, items, vs))
    ensures FitsSlot(f, Counted(items), vs) <==> |items| + |vs| <= f.arraySize
    ensures |items| <= f.arraySize ==> ShapedSlot(f, Counted(items))
    ensures RT.AllTerminated(f, vs)
  {
    hide MergeAll;
    NF.MergeAllItems(f, Counted(items), vs);
    var r := MergeAll(f, Counted(items), vs).items;
    assert r == Appended(f, items, vs) by {
      forall k | 0 <= k < |r| ensures r[k] == Appended(f, items, vs)[k] {
        if k < |items| {
          assert r[k] == r[..|items|][k];
        } else {
          assert r[|items| + (k - |items|)] == MergeValue(f, DefaultValue(f), vs[k - |items|]);
        }
      }
    }
  }

  lemma ChunkBack(fields: seq<Field>, m: seq<Slot>, i: nat, c: Chunk, seen: set<nat>, rest: seq<byte>)
    requires i < |fields| && |m| == NumSlots(fields) && WellFormed(fields)
    requires var f, x := fields[i], At(m, fields[i].slot);
      IsNumberArray(f) && x.Counted? && |x.items| <= f.arraySize && SoundChunk(f, c)
    ensures var f, x := fields[i], At(m, fields[i].slot);
      Run(fields, m, seen, EncChunk(f, c) + rest) ==
      if |x.items| + |c.values| <= f.arraySize then
        Run(fields, Put(m, f.slot, Counted(Appended(f, x.items, c.values))), seen + {i}, rest)
      else Bad
  {
    hide Run, WellFormed, EncKey, Delimited, EncPacked, EncRecords, Appended, MergeAll, FitsSlot, ShapedSlot;
    hide RT.AllSound, RT.AllTerminated;
    var f := fields[i];
    var x := At(m, f.slot);
    MergedIsAppended(f, x.items, c.values);
    match c
    case Packed(vs) =>
      var key, body := EncKey(f.tag, WT_STRING), Delimited(EncPacked(f, vs));
      assert key + body + rest == key + (body + rest);
      RT.PackedFieldBack(fields, m, i, vs, seen, rest);
    case Single(vs) =>
      RT.RecordsBack(fields, m, i, vs, seen, rest);
  }

  /** However an array of numbers is cut into packed and single records, its items are
      appended in order, and it is refused exactly when they do not fit. */
  lemma {:induction false} ChunksBack(fields: seq<Field>, m: seq<Slot>, i: nat, cs: seq<Chunk>, seen: set<nat>,
                                      rest: seq<byte>)
    requires i < |fields| && |m| == NumSlots(fields) && WellFormed(fields)
    requires var f, x := fields[i], At(m, fields[i].slot);
      IsNumberArray(f) && x.Counted? && |x.items| <= f.arraySize
    requires forall k :: 0 <= k < |cs| ==> SoundChunk(fields[i], cs[k])
    ensures var f, x, vs := fields[i], At(m, fields[i].slot), AllValues(cs);
      Run(fields, m, seen, EncChunks(f, cs) + rest) ==
      if |x.items| + |vs| <= f.arraySize then
        Run(fields, Put(m, f.slot, Counted(Appended(f, x.items, vs))), if cs == [] then seen else seen + {i}, rest)
      else Bad
    decreases |cs|
  {
    hide Run, WellFormed, EncChunk, SoundChunk, RT.AllSound, Stored;
    var f := fields[i];
    var x := At(m, f.slot);
    RT.SlotExists(fields, i);
    if cs == [] {
      assert EncChunks(f, cs) + rest == rest;
      assert Appended(f, x.items, []) == x.items;
      assert Put(m, f.slot, x) == m;
    } else {
      var more := EncChunks(f, cs[1..]) + rest;
      assert EncChunks(f, cs) + rest == EncChunk(f, cs[0]) + more;
      ChunkBack(fields, m, i, cs[0], seen, more);
      if |x.items| + |cs[0].values| <= f.arraySize {
        var items := Appended(f, x.items, cs[0].values);
        ChunksBack(fields, Put(m, f.slot, Counted(items)), i, cs[1..], seen + {i}, rest);
        assert Appended(f, items, AllValues(cs[1..])) == Appended(f, x.items, AllValues(cs));
        PutTwice(m, f.slot, Counted(items), Counted(Appended(f, x.items, AllValues(cs))));
        assert seen + {i} + {i} == seen + {i};
      }
    }
  }

  /** How an array is cut makes no difference; so a record for each item is as good as
      one packed record. */
  lemma CutIsIrrelevant(fields: seq<Field>, m: seq<Slot>, i: nat, cs: seq<Chunk>, ds: seq<Chunk>, seen: set<nat>,
                        rest: seq<byte>)
    requires i < |fields| && |m| == NumSlots(fields) && WellFormed(fields)
    requires var f, x := fields[i], At(m, fields[i].slot);
      IsNumberArray(f) && x.Counted? && |x.items| <= f.arraySize
    requires forall k :: 0 <= k < |cs| ==> SoundChunk(fields[i], cs[k])
    requires forall k :: 0 <= k < |ds| ==> SoundChunk(fields[i], ds[k])
    requires cs != [] && ds != [] && AllValues(cs) == AllValues(ds)
    ensures Run(fields, m, seen, EncChunks(fields[i], cs) + rest) ==
            Run(fields, m, seen, EncChunks(fields[i], ds) + rest)
  {
    hide Run, WellFormed, EncChunks, SoundChunk, Appended, AllValues;
    ChunksBack(fields, m, i, cs, seen, rest);
    ChunksBack(fields, m, i, ds, seen, rest);
  }

  lemma UnpackedIsPacked(fields: seq<Field>, m: seq<Slot>, i: nat, vs: seq<Value>, seen: set<nat>, rest: seq<byte>)
    requires i < |fields| && |m| == NumSlots(fields) && WellFormed(fields)
    requires var f, x := fields[i], At(m, fields[i].slot);
      IsNumberArray(f) && x.Counted? && |x.items| <= f.arraySize
    requires SoundChunk(fields[i], Packed(vs)) && SoundChunk(fields[i], Single(vs))
    ensures Run(fields, m, seen, EncRecords(fields[i], vs) + rest) ==
            Run(fields, m, seen, EncKey(fields[i].tag, WT_STRING) + Delimited(EncPacked(fields[i], vs)) + rest)
  {
    hide Run, WellFormed, EncKey, Delimited, EncPacked, EncRecords, SoundChunk;
    var f := fields[i];
    var cs, ds := [Single(vs)], [Packed(vs)];
    assert EncChunks(f, cs[1..]) == [] && EncChunks(f, ds[1..]) == [];
    assert EncChunks(f, cs) == EncRecords(f, vs);
    assert EncChunks(f, ds) == EncKey(f.tag, WT_STRING) + Delimited(EncPacked(f, vs));
    assert AllValues(cs) == vs == AllValues(ds);
    CutIsIrrelevant(fields, m, i, cs, ds, seen, rest);
  }

  lemma OneChunkDecoded(f: Field, c: Chunk)
    requires WellFormed([f]) && IsNumberArray(f) && SoundChunk(f, c) && |c.values| <= f.arraySize
    ensures Decode([f], Defaults([f]), EncChunk(f, c)) == Got([Counted(Appended(f, [], c.values))], [])
  {
    hide Run, EncChunk, SoundChunk, Appended, Defaults, RequiredBefore;
    var fields, none: seq<byte> := [f], [];
    assert fields[0] == f;
    NF.DefaultsAt(fields, 0);
    assert Defaults(fields) == [Counted([])];
    ChunkBack(fields, [Counted([])], 0, c, {}, none);
    assert EncChunk(f, c) + none == EncChunk(f, c);
    var done := Counted(Appended(f, [], c.values));
    assert Put([Counted([])], 0, done) == [done];
    RunEmpty(fields, [done], {} + {0});
    assert Run(fields, [Counted([])], {}, EncChunk(f, c)) == Good([done], {} + {0}, [], false);
  }

  const NUMBERS: Field := Field(1, Varint, Repeated, 4, -4, 4, 8, 0, [], None)

  lemma NumbersSound()
    ensures WellFormed([NUMBERS]) && RT.AllSound(NUMBERS, [Num(1), Num(2)])
  {
    assert WellFormedField(NUMBERS);
  }

  /** Two records of their own: 08 01 08 02 is the array 1, 2, as packed 0A 02 01 02 is. */
  lemma UnpackedExample()
    ensures Decode([NUMBERS], Defaults([NUMBERS]), [0x08, 0x01, 0x08, 0x02]) == Got([Counted([Num(1), Num(2)])], [])
    ensures Decode([NUMBERS], Defaults([NUMBERS]), [0x0A, 0x02, 0x01, 0x02]) == Got([Counted([Num(1), Num(2)])], [])
  {
    var vs := [Num(1), Num(2)];
    NumbersSound();
    ExampleBytes(NUMBERS);
    assert Appended(NUMBERS, [], vs) == vs;
    hide EncRecords, EncPacked, EncKey, Delimited, Decode, Defaults, WellFormed, RT.AllSound, Appended;
    OneChunkDecoded(NUMBERS, Single(vs));
    OneChunkDecoded(NUMBERS, Packed(vs));
  }

  lemma ExampleBytes(f: Field)
    requires f.tag == 1 && f.ltype.Varint?
    ensures EncRecords(f, [Num(1), Num(2)]) == [0x08, 0x01, 0x08, 0x02]
    ensures EncKey(f.tag, WT_STRING) + Delimited(EncPacked(f, [Num(1), Num(2)])) == [0x0A, 0x02, 0x01, 0x02]
  {
    var vs := [Num(1), Num(2)];
    assert vs[1..] == [Num(2)] && vs[1..][1..] == [];
    assert EncRecords(f, vs[1..][1..]) == [] && EncPacked(f, vs[1..][1..]) == [];
    assert EncRecords(f, vs[1..]) == [0x08, 0x02];
    assert EncPacked(f, vs[1..]) == [0x02];
    assert EncPacked(f, vs) == [0x01, 0x02];
  }
}
