/**
 Input streams over memory buffers and the readers of single values
 (`pb_decode.c`). Every method is proved against the wire format functions: it
 succeeds exactly when they do, stores what they read, and leaves the stream at the
 bytes they leave; the end of the stream never moves.
 */
module IStreams {
  import opened Wrappers
  import opened Bits
  import opened Varint
  import opened Wire

  class IStream {
    const buf: array<byte>
    var state: nat        // index of the next byte
    var bytesLeft: nat

    ghost predicate Valid()
      reads this
    {
      state + bytesLeft <= buf.Length
    }

    ghost function Contents(): (s: seq<byte>)
      reads this, buf
      requires Valid()
      ensures |s| == bytesLeft
    {
      buf[state..state + bytesLeft]
    }

    ghost function End(): nat
      reads this
    {
      state + bytesLeft
    }

    /** `pb_istream_from_buffer`, at some index of the buffer */
    constructor (buf: array<byte>, start: nat, size: nat)
      requires start + size <= buf.Length
      ensures Valid() && this.buf == buf && state == start && bytesLeft == size
    {
      this.buf := buf;
      state := start;
      bytesLeft := size;
    }

    /** `pb_read` into a buffer of the caller */
    method Read(dest: array<byte>, count: nat) returns (ok: bool)
      requires Valid() && dest != buf && count <= dest.Length
      modifies this, dest
      ensures Valid() && End() == old(End())
      ensures ok <==> Take(old(Contents()), count).Got?
      ensures ok ==> dest[..count] == Take(old(Contents()), count).value
      ensures ok ==> dest[count..] == old(dest[count..])
      ensures ok ==> Contents() == Take(old(Contents()), count).rest
      ensures !ok ==> state == old(state) && dest[..] == old(dest[..])
    {
      if count == 0 {
        return true;
      }
      if bytesLeft < count {
        return false;
      }
      var source := state;
      state := state + count;
      bytesLeft := bytesLeft - count;
      ghost var want := buf[source..source + count];
      assert want == old(Contents())[..count] && Contents() == old(Contents())[count..];
      var i := 0;
      while i < count
        modifies dest
        invariant i <= count
        invariant dest[..i] == want[..i]
        invariant dest[count..] == old(dest[count..])
      {
        assert buf[source + i] == want[i];
        dest[i] := buf[source + i];
        i := i + 1;
      }
      return true;
    }

    /** `pb_read` without a destination: skips bytes */
    method Skip(count: nat) returns (ok: bool)
      requires Valid()
      modifies this
      ensures Valid() && End() == old(End())
      ensures ok <==> Take(old(Contents()), count).Got?
      ensures ok ==> Contents() == Take(old(Contents()), count).rest
      ensures !ok ==> state == old(state)
    {
      if count == 0 {
        return true;
      }
      if bytesLeft < count {
        return false;
      }
      state := state + count;
      bytesLeft := bytesLeft - count;
      return true;
    }

    /** `pb_readbyte` */
    method ReadByte() returns (ok: bool, b: byte)
      requires Valid()
      modifies this
      ensures Valid() && End() == old(End())
      ensures ok <==> old(Contents()) != []
      ensures ok ==> b == old(Contents())[0] && Contents() == old(Contents())[1..]
      ensures !ok ==> state == old(state)
    {
      if bytesLeft == 0 {
        return false, 0;
      }
      b := buf[state];
      state := state + 1;
      bytesLeft := bytesLeft - 1;
      ok := true;
    }

    /** `pb_decode_varint32_eof`; `eof` reports that there was no first byte. */
    method DecodeVarint32() returns (ok: bool, dest: nat, eof: bool)
      requires Valid()
      modifies this
      ensures Valid() && End() == old(End())
      ensures ok <==> DecVarint32(old(Contents())).Got?
      ensures ok ==> DecVarint32(old(Contents())) == Got(dest, Contents())
      ensures eof <==> old(Contents()) == []
    {
      hide Or32;
      ghost var s := Contents();
      eof := false;
      dest := 0;
      var b;
      ok, b := ReadByte();
      if !ok {
        eof := true;
        return;
      }
      if b < 128 {
        return true, b, false;
      }
      var bitpos: nat := 7;
      var result: nat := b % 128;
      ghost var want := Loop32(Contents(), result, bitpos);
      while true
        invariant Valid() && End() == old(End())
        invariant result < TWO32 && bitpos < 256
        invariant Loop32(Contents(), result, bitpos) == want
        decreases bytesLeft
      {
        ok, b := ReadByte();
        if !ok {
          return;
        }
        if bitpos >= 32 {
          var signExtension := if bitpos < 63 then 0xFF else 0x01;
          if b % 128 != 0 && (result / 0x8000_0000 == 0 || b != signExtension) {
            ok := false;
            return;
          }
        } else {
          result := Or32(result, b, bitpos);
        }
        bitpos := (bitpos + 7) % 256;
        if b < 128 {
          break;
        }
      }
      if bitpos == 35 && b / 16 % 8 != 0 {
        ok := false;
        return;
      }
      dest := result;
    }

    /** `pb_decode_varint` */
    method DecodeVarint() returns (ok: bool, dest: nat)
      requires Valid()
      modifies this
      ensures Valid() && End() == old(End())
      ensures ok <==> DecVarint64(old(Contents())).Got?
      ensures ok ==> DecVarint64(old(Contents())) == Got(dest, Contents())
    {
      hide RawVarint, BitOr, Pow2, Or64;
      ghost var s := Contents();
      dest := 0;
      var bitpos: nat := 0;
      var result: nat := 0;
      ghost var low: nat := 0;           // the groups read so far, not truncated
      assert Pow2(0) == 1 by { Pow2Zero(); }
      while true
        invariant Valid() && End() == old(End())
        invariant bitpos % 7 == 0 && bitpos <= 70
        invariant low < Pow2(bitpos) && result == low % TWO64
        invariant Continues(s, 10, Contents(), 10 - bitpos / 7, low, Pow2(bitpos))
        decreases bytesLeft
      {
        if bitpos >= 64 {
          RawVarintEnds(Contents());
          return false, 0;
        }
        ghost var before := Contents();
        var b;
        ok, b := ReadByte();
        if !ok {
          RawVarintEmpty(10 - bitpos / 7);
          return;
        }
        ContinuesStep(s, 10, before, 10 - bitpos / 7, low, bitpos);
        Or64Adds(low, b, bitpos);
        result := Or64(result, b, bitpos);
        low := low + b % 128 * Pow2(bitpos);
        bitpos := bitpos + 7;
        if b < 128 {
          break;
        }
      }
      dest := result;
    }

    /** `pb_skip_varint` */
    method SkipVarint() returns (ok: bool)
      requires Valid()
      modifies this
      ensures Valid() && End() == old(End())
      ensures ok <==> Wire.SkipVarint(old(Contents())).Got?
      ensures ok ==> Contents() == Wire.SkipVarint(old(Contents())).rest
    {
      ghost var want := Wire.SkipVarint(Contents());
      while true
        invariant Valid() && End() == old(End())
        invariant Wire.SkipVarint(Contents()) == want
        decreases bytesLeft
      {
        var b;
        ok, b := ReadByte();
        if !ok || b < 128 {
          return;
        }
      }
    }

    /** `pb_skip_string` */
    method SkipString() returns (ok: bool)
      requires Valid()
      modifies this
      ensures Valid() && End() == old(End())
      ensures ok <==> TakeDelimited(old(Contents())).Got?
      ensures ok ==> Contents() == TakeDelimited(old(Contents())).rest
    {
      hide DecVarint32;
      var length, eof;
      ok, length, eof := DecodeVarint32();
      if ok {
        ok := Skip(length);
      }
    }

    /** `pb_skip_field` */
    method SkipField(wireType: nat) returns (ok: bool)
      requires Valid()
      modifies this
      ensures Valid() && End() == old(End())
      ensures ok <==> Wire.SkipField(wireType, old(Contents())).Got?
      ensures ok ==> Contents() == Wire.SkipField(wireType, old(Contents())).rest
    {
      hide TakeDelimited, Wire.SkipVarint;
      if wireType == WT_VARINT {
        ok := SkipVarint();
      } else if wireType == WT_64BIT {
        ok := Skip(8);
      } else if wireType == WT_STRING {
        ok := SkipString();
      } else if wireType == WT_32BIT {
        ok := Skip(4);
      } else {
        ok := false;
      }
    }

    /** `pb_decode_tag` */
    method DecodeTag() returns (ok: bool, wireType: nat, tag: nat, eof: bool)
      requires Valid()
      modifies this
      ensures Valid() && End() == old(End())
      ensures old(Contents()) == [] ==> !ok && eof
      ensures old(Contents()) != [] ==>
        match DecTag(old(Contents()))
        case BadTag => !ok && !eof
        case ZeroTag(rest) => !ok && eof && Contents() == rest
        case Key(t, w, rest) => ok && tag == t && wireType == w && Contents() == rest
    {
      hide DecVarint32;
      wireType, tag := 0, 0;
      var temp;
      ok, temp, eof := DecodeVarint32();
      if !ok {
        return;
      }
      if temp == 0 {
        eof := true;
        ok := false;
        return;
      }
      tag := temp / 8;
      wireType := temp % 8;
    }

    /** `pb_make_string_substream`: the child gets the next bytes; the parent has
        given them up but is not moved past them until the child is closed. */
    method MakeSubstream() returns (ok: bool, sub: IStream)
      requires Valid()
      modifies this
      ensures Valid() && sub.Valid() && sub.buf == buf
      ensures ok <==> TakeDelimited(old(Contents())).Got?
      ensures ok ==> fresh(sub) && sub.Contents() == TakeDelimited(old(Contents())).value
      ensures ok ==> sub.state == state && sub.End() + bytesLeft == old(End())
      ensures ok ==> buf[sub.End()..sub.End() + bytesLeft] == TakeDelimited(old(Contents())).rest
      ensures !ok ==> End() == old(End())
    {
      hide DecVarint32;
      sub := this;
      var size, eof;
      ok, size, eof := DecodeVarint32();
      if !ok {
        return;
      }
      if bytesLeft < size {
        ok := false;
        return;
      }
      ghost var rest := Contents();
      sub := new IStream(buf, state, size);
      bytesLeft := bytesLeft - size;
      assert rest[..size] == sub.Contents();
      assert rest[size..] == buf[state + size..state + size + bytesLeft];
    }

    /** `pb_close_string_substream`: whatever the child left unread is skipped. */
    method CloseSubstream(sub: IStream) returns (ok: bool)
      requires sub.Valid() && sub != this && sub.buf == buf
      requires sub.End() + bytesLeft <= buf.Length
      modifies this, sub
      ensures ok && Valid() && state == old(sub.End()) && bytesLeft == old(bytesLeft)
      ensures Contents() == buf[old(sub.End())..old(sub.End()) + bytesLeft]
    {
      ok := true;
      if sub.bytesLeft != 0 {
        ok := sub.Skip(sub.bytesLeft);
        if !ok {
          return;
        }
      }
      state := sub.state;
    }
  }

  // ----- The 64-bit varint loop -----

  /** Reading a varint from `s` comes down to reading the rest of it from `t`, the
      groups read so far being `low`. */
  ghost predicate Continues(s: seq<byte>, max: nat, t: seq<byte>, left: int, low: nat, weight: nat) {
    left >= 0 &&
    RawVarint(s, max) ==
      match RawVarint(t, left)
      case Fail => Fail
      case Got(v, rest) => Got(low + v * weight, rest)
  }

  lemma Pow2Zero()
    ensures Pow2(0) == 1
  {
  }

  lemma RawVarintEnds(t: seq<byte>)
    ensures RawVarint(t, 0).Fail?
  {
  }

  lemma RawVarintEmpty(max: nat)
    ensures RawVarint([], max).Fail?
  {
  }

  lemma GroupRoom(low: nat, g: nat, p: nat)
    requires low < p && g < 128
    ensures low + g * p < 128 * p
  {
    assert (g + 1) * p <= 128 * p;
  }

  lemma GroupAbove(low: nat, g: nat, v: nat, p: nat)
    ensures low + (g + 128 * v) * p == low + g * p + v * (128 * p)
  {
    assert (g + 128 * v) * p == g * p + v * (128 * p);
  }

  lemma ContinuesStep(s: seq<byte>, max: nat, t: seq<byte>, left: nat, low: nat, bitpos: nat)
    requires Continues(s, max, t, left, low, Pow2(bitpos)) && t != [] && left > 0 && low < Pow2(bitpos)
    ensures low + t[0] % 128 * Pow2(bitpos) < Pow2(bitpos + 7)
    ensures t[0] < 128 ==> RawVarint(s, max) == Got(low + t[0] % 128 * Pow2(bitpos), t[1..])
    ensures t[0] >= 128 ==>
      Continues(s, max, t[1..], left - 1, low + t[0] % 128 * Pow2(bitpos), Pow2(bitpos + 7))
  {
    GroupStep(bitpos);
    hide Pow2;
    GroupRoom(low, t[0] % 128, Pow2(bitpos));
    if t[0] >= 128 && RawVarint(t[1..], left - 1).Got? {
      GroupAbove(low, t[0] % 128, RawVarint(t[1..], left - 1).value, Pow2(bitpos));
    }
  }

  /** `result |= (uint64_t)(b & 0x7F) << bitpos` */
  function Or64(result: nat, b: byte, bitpos: nat): nat {
    BitOr(result, (b % 128 * Pow2(bitpos)) % TWO64)
  }

  lemma TopBit()
    ensures TWO64 == 2 * Pow2(63)
  {
    hide Pow2;
    Pow2Words();
    Pow2Adds(1, 63);
    Pow2One();
  }

  lemma Pow2One()
    ensures Pow2(1) == 2
  {
  }

  lemma Pow2Divides(m: nat, n: nat)
    requires m <= n
    ensures Pow2(m) <= Pow2(n)
  {
    hide Pow2;
    Pow2Adds(m, n - m);
    var p, q := Pow2(m), Pow2(n - m);
    assert p <= p * q;
  }

  lemma Or64AddsTop(low: nat, b: byte, p: nat)
    requires p == Pow2(63) && low < p
    ensures low % TWO64 == low
    ensures Or64(low, b, 63) == (low + b % 128 * p) % TWO64
  {
    hide BitOr, Pow2;
    TopBit();
    Or64Top(low, b % 128, p);
    BitOrDisjoint(low, b % 128 % 2, 63);
  }

  lemma Or64AddsBelow(low: nat, b: byte, bitpos: nat, p: nat)
    requires bitpos <= 56 && p == Pow2(bitpos) && low < p
    ensures low % TWO64 == low
    ensures Or64(low, b, bitpos) == (low + b % 128 * p) % TWO64
  {
    hide BitOr, Pow2;
    GroupStep(bitpos);
    Pow2Divides(bitpos + 7, 63);
    TopBit();
    Or64Below(low, b % 128, p);
    BitOrDisjoint(low, b % 128, bitpos);
  }

  /** Or-ing a group onto the bits read so far adds it, modulo the word. */
  lemma Or64Adds(low: nat, b: byte, bitpos: nat)
    requires bitpos % 7 == 0 && bitpos <= 63 && low < Pow2(bitpos)
    ensures low % TWO64 == low
    ensures Or64(low, b, bitpos) == (low + b % 128 * Pow2(bitpos)) % TWO64
  {
    hide Pow2, Or64;
    if bitpos == 63 { Or64AddsTop(low, b, Pow2(63)); } else { Or64AddsBelow(low, b, bitpos, Pow2(bitpos)); }
  }

  lemma Or64Top(low: nat, g: nat, p: nat)
    requires TWO64 == 2 * p && low < p
    ensures (g * p) % TWO64 == g % 2 * p
    ensures low % TWO64 == low && (low + g * p) % TWO64 == low + g % 2 * p
  {
    assert g * p == g / 2 * TWO64 + g % 2 * p by {
      assert g == 2 * (g / 2) + g % 2;
      assert (2 * (g / 2) + g % 2) * p == g / 2 * (2 * p) + g % 2 * p;
    }
    AddWords(g % 2 * p, g / 2);
    AddWords(low + g % 2 * p, g / 2);
  }

  lemma AddWords(x: nat, k: nat)
    requires x < TWO64
    ensures (x + k * TWO64) % TWO64 == x
  {
  }

  lemma Or64Below(low: nat, g: nat, p: nat)
    requires 128 * p < TWO64 && low < p && g < 128
    ensures low % TWO64 == low && (g * p) % TWO64 == g * p && (low + g * p) % TWO64 == low + g * p
  {
    GroupRoom(low, g, p);
    var high := g * p;
    AddWords(low, 0);
    AddWords(high, 0);
    AddWords(low + high, 0);
  }
}
