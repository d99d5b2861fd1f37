/**
 Output streams over memory buffers (`pb_encode.c`). A stream without a buffer only
 counts.
 */
module OStreams {
  import opened Wrappers
  import opened Bits
  import opened Varint

  /** The state of a stream and of the memory it writes to. */
  datatype Snapshot = Snapshot(sizing: bool, memory: seq<byte>, state: nat, maxSize: nat, bytesWritten: nat)

  function Splice(memory: seq<byte>, at: nat, bs: seq<byte>): (r: seq<byte>)
    requires at + |bs| <= |memory|
    ensures |r| == |memory|
  {
    memory[..at] + bs + memory[at + |bs|..]
  }

  /** The stream has room for `n` more bytes. */
  predicate Room(a: Snapshot, n: nat) {
    a.sizing || (a.bytesWritten + n <= a.maxSize && a.state + n <= |a.memory|)
  }

  ghost predicate Sane(a: Snapshot) {
    a.sizing || (a.bytesWritten <= a.maxSize && a.state + (a.maxSize - a.bytesWritten) <= |a.memory|)
  }

  /** The stream after `bs` has been written. */
  function Advance(a: Snapshot, bs: seq<byte>): Snapshot
    requires Room(a, |bs|)
  {
    if a.sizing then a.(bytesWritten := a.bytesWritten + |bs|)
    else a.(memory := Splice(a.memory, a.state, bs), state := a.state + |bs|, bytesWritten := a.bytesWritten + |bs|)
  }

  /** Nothing changed outside the part of the buffer the stream may write. */
  ghost predicate Contained(a: Snapshot, b: Snapshot) {
    !a.sizing ==>
      && |b.memory| == |a.memory|
      && (forall k :: 0 <= k < |a.memory| && !(a.state <= k < a.state + (a.maxSize - a.bytesWritten)) ==>
            b.memory[k] == a.memory[k])
  }

  /** The contract of a writer of `bs`: it succeeds exactly when the data is acceptable
      and fits; on success precisely `bs` has been written; in any case nothing beyond
      the limit of the stream has changed. */
  ghost predicate Writes(ok: bool, acceptable: bool, a: Snapshot, b: Snapshot, bs: seq<byte>) {
    && (ok <==> acceptable && Room(a, |bs|))
    && (ok ==> b == Advance(a, bs))
    && Contained(a, b)
  }

  lemma AdvanceTwice(a: Snapshot, x: seq<byte>, y: seq<byte>)
    requires Sane(a) && Room(a, |x|)
    ensures Sane(Advance(a, x))
    ensures Room(Advance(a, x), |y|) <==> Room(a, |x + y|)
    ensures Room(a, |x + y|) ==> Advance(Advance(a, x), y) == Advance(a, x + y)
    ensures Contained(a, Advance(a, x))
  {
    if !a.sizing && Room(a, |x + y|) {
      assert Advance(Advance(a, x), y).memory == Advance(a, x + y).memory;
    }
  }

  /** A second writer goes on where the first one stopped. */
  lemma Then(ok: bool, acceptable: bool, a: Snapshot, x: seq<byte>, c: Snapshot, y: seq<byte>)
    requires Sane(a) && Room(a, |x|) && Writes(ok, acceptable, Advance(a, x), c, y)
    ensures Writes(ok, acceptable, a, c, x + y)
  {
    AdvanceTwice(a, x, y);
  }

  /** Once a writer has failed, so has the whole. */
  lemma Failed(acceptable: bool, more: bool, a: Snapshot, b: Snapshot, x: seq<byte>, y: seq<byte>)
    requires Sane(a) && Writes(false, acceptable, a, b, x)
    ensures Writes(false, acceptable && more, a, b, x + y)
  {
  }

  class OStream {
    const buf: array?<byte>
    var state: nat
    var maxSize: nat
    var bytesWritten: nat

    ghost function Frame(): set<object> {
      if buf == null then {this} else {this, buf}
    }

    ghost function Snap(): (a: Snapshot)
      reads this, buf
      ensures a.sizing <==> buf == null
    {
      Snapshot(buf == null, if buf == null then [] else buf[..], state, maxSize, bytesWritten)
    }

    ghost predicate Valid()
      reads this, buf
    {
      Sane(Snap())
    }

    /** `pb_ostream_from_buffer`, at some index of the buffer */
    constructor OnBuffer(buf: array<byte>, start: nat, size: nat)
      requires start + size <= buf.Length
      ensures this.buf == buf && Valid() && Snap() == Snapshot(false, buf[..], start, size, 0)
    {
      this.buf := buf;
      state, maxSize, bytesWritten := start, size, 0;
    }

    /** `PB_OSTREAM_SIZING` */
    constructor Sizing()
      ensures buf == null && Valid() && Snap() == Snapshot(true, [], 0, 0, 0)
    {
      buf := null;
      state, maxSize, bytesWritten := 0, 0, 0;
    }

    /** `pb_write` */
    method Write(data: seq<byte>) returns (ok: bool)
      requires Valid()
      modifies Frame()
      ensures Valid() && Writes(ok, true, old(Snap()), Snap(), data)
    {
      var count := |data|;
      if count > 0 && buf != null {
        if bytesWritten + count > maxSize {
          return false;
        }
        CopyBytes(buf, state, data);
        state := state + count;
      }
      bytesWritten := bytesWritten + count;
      return true;
    }

    /** `pb_write` of `size` bytes that are not given, on a sizing stream */
    method Count(size: nat)
      requires Valid() && buf == null
      modifies this
      ensures Valid() && Snap() == old(Snap()).(bytesWritten := old(bytesWritten) + size)
    {
      bytesWritten := bytesWritten + size;
    }

    /** `pb_encode_varint` */
    method EncodeVarint(value: nat) returns (ok: bool)
      requires Valid() && value < TWO64
      modifies Frame()
      ensures Valid() && Writes(ok, true, old(Snap()), Snap(), EncVarint(value))
    {
      hide Writes;
      if value <= 0x7F {
        ok := Write([value]);
        return;
      }
      var buffer := new byte[10];
      var i := FillVarint(buffer, value);
      ok := Write(buffer[..i]);
    }
  }

  /** `buf_write` */
  method CopyBytes(buf: array<byte>, dest: nat, data: seq<byte>)
    requires dest + |data| <= buf.Length
    modifies buf
    ensures buf[..] == Splice(old(buf[..]), dest, data)
  {
    var i := 0;
    while i < |data|
      invariant i <= |data|
      invariant buf[..dest] == old(buf[..dest])
      invariant buf[dest..dest + i] == data[..i]
      invariant buf[dest + i..] == old(buf[..])[dest + i..]
    {
      buf[dest + i] := data[i];
      i := i + 1;
    }
    assert buf[..] == buf[..dest] + buf[dest..dest + |data|] + buf[dest + |data|..];
    assert data[..|data|] == data;
  }

  /** The loop of `pb_encode_varint`: every group with its top bit set, and the last
      one cleared afterwards. */
  method FillVarint(buffer: array<byte>, value: nat) returns (i: nat)
    requires buffer.Length == 10 && 0 < value < TWO64
    modifies buffer
    ensures i <= 10 && buffer[..i] == EncVarint(value)
  {
    hide EncVarint;
    i := 0;
    var v := value;
    Varint64Length(value);
    assert buffer[..0] + EncVarint(value) == EncVarint(value);
    while v != 0
      invariant i <= 10 && (v == 0 ==> 0 < i)
      invariant v != 0 ==> EncVarint(value) == buffer[..i] + EncVarint(v)
      invariant v == 0 ==> buffer[i - 1] >= 128 && EncVarint(value) == buffer[..i - 1] + [buffer[i - 1] - 128]
      decreases v
    {
      ghost var before := buffer[..i];
      NextGroup(v);
      buffer[i] := v % 128 + 128;
      v := v / 128;
      i := i + 1;
      assert buffer[..i] == before + [buffer[i - 1]] && buffer[..i - 1] == before;
    }
    buffer[i - 1] := buffer[i - 1] % 128;
    assert buffer[..i] == buffer[..i - 1] + [buffer[i - 1]];
  }

  lemma NextGroup(v: nat)
    ensures v / 128 == 0 ==> EncVarint(v) == [v % 128]
    ensures v / 128 != 0 ==> EncVarint(v) == [v % 128 + 128] + EncVarint(v / 128)
  {
  }
}
