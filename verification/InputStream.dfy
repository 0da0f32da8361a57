/**
  pb_istream_t over a constant memory buffer: a cursor and the bytes left in
  the current frame. Every reader is proved to do to the remaining bytes exactly
  what its specification says, and to stay inside the frame.
 */
module InputStream {
  import opened Wire
  import opened Descriptor
  import opened Varint
  import opened Decoding

  class IStream {
    const buf: seq<byte>
    /** How far stream->state has moved from the start of the buffer. */
    var pos: nat
    var bytesLeft: nat

    ghost predicate Valid()
      reads this
    {
      pos + bytesLeft <= |buf|
    }

    /** The unread bytes of the frame. */
    ghost function Rest(): (r: seq<byte>)
      requires Valid()
      reads this
      ensures |r| == bytesLeft
    {
      buf[pos..pos + bytesLeft]
    }

    /** Where the frame ends; reading never moves it. */
    ghost function End(): nat
      reads this
    {
      pos + bytesLeft
    }

    /** pb_istream_from_buffer */
    constructor FromBuffer(buf: seq<byte>, msglen: nat)
      requires msglen <= |buf|
      ensures Valid() && this.buf == buf && pos == 0 && bytesLeft == msglen
      ensures Rest() == buf[..msglen]
    {
      this.buf := buf;
      pos, bytesLeft := 0, msglen;
    }

    /** A copy of the stream structure, limited to the next len bytes. */
    constructor Slice(other: IStream, len: nat)
      requires other.Valid() && len <= other.bytesLeft
      ensures Valid() && buf == other.buf && pos == other.pos && bytesLeft == len
      ensures Rest() == other.Rest()[..len]
    {
      buf := other.buf;
      pos, bytesLeft := other.pos, len;
    }

    /** Advance over count bytes of the frame. */
    method Advance(count: nat)
      requires Valid() && count <= bytesLeft
      modifies this
      ensures Valid() && pos == old(pos) + count && End() == old(End())
      ensures Rest() == old(Rest())[count..]
    {
      pos, bytesLeft := pos + count, bytesLeft - count;
    }

    /** pb_read into memory. */
    method ReadInto(dst: array<byte>, count: nat) returns (ok: bool)
      requires Valid() && count <= dst.Length
      modifies this, dst
      ensures Valid() && End() == old(End())
      ensures ok <==> count <= old(bytesLeft)
      ensures ok ==> dst[..count] == old(Rest())[..count] && Rest() == old(Rest())[count..]
      ensures dst[count..] == old(dst[count..])
    {
      if count == 0 { return true; }
      if bytesLeft < count { return false; }
      forall i | 0 <= i < count { dst[i] := buf[pos + i]; }
      Advance(count);
      ok := true;
    }

    /** pb_read without a destination. */
    method SkipBytes(count: nat) returns (ok: bool)
      requires Valid()
      modifies this
      ensures Valid() && End() == old(End())
      ensures ok <==> count <= old(bytesLeft)
      ensures ok ==> Rest() == old(Rest())[count..]
    {
      if count == 0 { return true; }
      if bytesLeft < count { return false; }
      Advance(count);
      ok := true;
    }

    method ReadByte() returns (ok: bool, b: byte)
      requires Valid()
      modifies this
      ensures Valid() && End() == old(End())
      ensures ok <==> old(bytesLeft) > 0
      ensures !ok ==> bytesLeft == 0
      ensures ok ==> b == old(Rest())[0] && Rest() == old(Rest())[1..]
    {
      if bytesLeft == 0 { return false, 0; }
      b := buf[pos];
      Advance(1);
      ok := true;
    }

    /** pb_decode_varint32_eof */
    method DecodeVarint32Eof() returns (ok: bool, value: nat, eof: bool)
      requires Valid()
      modifies this
      ensures Valid() && End() == old(End())
      ensures ok <==> Read32(old(Rest())).Ok?
      ensures ok ==> Ok(value, Rest()) == Read32(old(Rest()))
      ensures eof <==> old(bytesLeft) == 0
    {
      value, eof := 0, false;
      var b;
      ok, b := ReadByte();
      if !ok {
        eof := bytesLeft == 0;
        return;
      }
      if b < 0x80 {
        value := b;
        assert Gather32(b, 0, 0) == b;
        return;
      }
      var bitpos := 7;
      ghost var k := 1;
      var result: nat := b % 0x80;
      assert Gather32(b, 0, 0) == result;
      while b >= 0x80
        invariant Valid() && End() == old(End()) && old(bytesLeft) > 0
        invariant k > 0 && bitpos == 7 * k
        invariant b >= 0x80 ==> Read32(old(Rest())) == Read32From(Rest(), k, result)
        invariant b < 0x80 ==> Read32(old(Rest())) == Ok(result, Rest())
        decreases bytesLeft, b
      {
        ghost var before, low := Rest(), result;
        ok, b := ReadByte();
        if !ok { return; }
        if bitpos >= 32 {
          var signExtension := if bitpos < 63 then 0xFF else 0x01;
          var validExtension := b % 0x80 == 0 || (result / TWO31 != 0 && b == signExtension);
          if bitpos >= 64 || !validExtension { return false, 0, false; }
        } else if bitpos == 28 {
          if b / 16 % 8 != 0 && b / 8 % 16 != 15 { return false, 0, false; }
          result := result + (b % 16) * Weight(4);
        } else {
          result := result + (b % 0x80) * Weight(bitpos / 7);
        }
        assert before[0] == b && before[1..] == Rest();
        assert Accepts32(b, k, low) && result == Gather32(b, k, low);
        bitpos := bitpos + 7;
        k := k + 1;
      }
      value := result;
    }

    /** pb_decode_varint32 */
    method DecodeVarint32() returns (ok: bool, value: nat)
      requires Valid()
      modifies this
      ensures Valid() && End() == old(End())
      ensures ok <==> Read32(old(Rest())).Ok?
      ensures ok ==> Ok(value, Rest()) == Read32(old(Rest()))
    {
      var eof;
      ok, value, eof := DecodeVarint32Eof();
    }

    /** pb_decode_varint */
    method DecodeVarint() returns (ok: bool, value: nat)
      requires Valid()
      modifies this
      ensures Valid() && End() == old(End())
      ensures ok <==> Read64(old(Rest()), 0).Ok?
      ensures ok ==> Ok(value, Rest()) == Read64(old(Rest()), 0)
    {
      var bitpos := 0;
      var result: nat := 0;
      ghost var k := 0;
      value := 0;
      var b: byte := 0x80;
      while b >= 0x80
        invariant Valid() && End() == old(End())
        invariant bitpos == 7 * k
        invariant b >= 0x80 ==> Read64(old(Rest()), 0) == Offset(result, k, Read64(Rest(), k))
        invariant b < 0x80 ==> Read64(old(Rest()), 0) == Ok(result, Rest())
        decreases bytesLeft, b
      {
        ghost var before := Rest();
        ok, b := ReadByte();
        if !ok { return; }
        assert before[0] == b && before[1..] == Rest();
        if bitpos >= 63 && b / 2 != 0 { return false, 0; }
        OffsetStep(result, k, before);
        assert bitpos / 7 == k;
        result := Gather(result, b, bitpos / 7);
        bitpos := bitpos + 7;
        k := k + 1;
      }
      ok, value := true, result;
    }

    /** pb_skip_varint */
    method SkipVarint() returns (ok: bool)
      requires Valid()
      modifies this
      ensures Valid() && End() == old(End())
      ensures ok <==> Skip(old(Rest())).Ok?
      ensures ok ==> Rest() == Skip(old(Rest())).rest
    {
      var b: byte := 0x80;
      while b >= 0x80
        invariant Valid() && End() == old(End())
        invariant b >= 0x80 ==> Skip(old(Rest())) == Skip(Rest())
        invariant b < 0x80 ==> Skip(old(Rest())) == Ok((), Rest())
        decreases bytesLeft, b
      {
        ok, b := ReadByte();
        if !ok { return; }
      }
      ok := true;
    }

    /** pb_skip_string */
    method SkipString() returns (ok: bool)
      requires Valid()
      modifies this
      ensures Valid() && End() == old(End())
      ensures ok <==> ReadFrame(old(Rest())).Ok?
      ensures ok ==> Rest() == ReadFrame(old(Rest())).rest
    {
      var length;
      ok, length := DecodeVarint32();
      if !ok { return; }
      ok := SkipBytes(length);
    }

    /** pb_decode_tag */
    method DecodeTag() returns (ok: bool, wireType: nat, tag: nat, eof: bool)
      requires Valid()
      modifies this
      ensures Valid() && End() == old(End())
      ensures ok <==> ReadTag(old(Rest())).Ok?
      ensures ok ==> Ok((tag, wireType), Rest()) == ReadTag(old(Rest()))
      ensures eof <==> old(bytesLeft) == 0
    {
      var temp;
      wireType, tag := 0, 0;
      ok, temp, eof := DecodeVarint32Eof();
      if ok { tag, wireType := temp / 8, temp % 8; }
    }

    /** pb_skip_field */
    method SkipField(wireType: nat) returns (ok: bool)
      requires Valid()
      modifies this
      ensures Valid() && End() == old(End())
      ensures ok <==> SkipValue(wireType, old(Rest())).Ok?
      ensures ok ==> Rest() == SkipValue(wireType, old(Rest())).rest
      ensures wireType == 1 ==> (ok <==> old(bytesLeft) >= 8) && (ok ==> Rest() == old(Rest())[8..])
      ensures wireType == 5 ==> (ok <==> old(bytesLeft) >= 4) && (ok ==> Rest() == old(Rest())[4..])
      ensures wireType !in {0, 1, 2, 5} ==> !ok
    {
      if wireType == WT_VARINT {
        ok := SkipVarint();
      } else if wireType == WT_64BIT {
        ok := SkipBytes(8);
      } else if wireType == WT_STRING {
        ok := SkipString();
      } else if wireType == WT_32BIT {
        ok := SkipBytes(4);
      } else {
        ok := false;
      }
    }

    /** pb_make_string_substream: a stream over the payload; this stream keeps what is behind it. */
    method MakeStringSubstream() returns (ok: bool, sub: IStream)
      requires Valid()
      modifies this
      ensures Valid() && fresh(sub) && End() <= old(End())
      ensures ok <==> ReadFrame(old(Rest())).Ok?
      ensures ok ==>
                && sub.buf == buf && sub.Valid() && sub.Rest() == ReadFrame(old(Rest())).value
                && sub.pos == pos && sub.End() + bytesLeft == old(End())
                && buf[sub.End()..old(End())] == ReadFrame(old(Rest())).rest
    {
      var size;
      ok, size := DecodeVarint32();
      if !ok || bytesLeft < size {
        sub := new IStream.Slice(this, 0);
        return false, sub;
      }
      sub := new IStream.Slice(this, size);
      assert buf[pos + size..pos + bytesLeft] == Rest()[size..];
      bytesLeft := bytesLeft - size;
    }

    /**
      pb_close_string_substream: whatever the reader of the substream has
      consumed, this stream continues right behind the payload.
     */
    method CloseStringSubstream(sub: IStream) returns (ok: bool)
      requires Valid() && sub.Valid() && sub != this && sub.buf == buf
      requires sub.End() + bytesLeft <= |buf|
      modifies this, sub
      ensures ok && Valid() && pos == old(sub.End()) && bytesLeft == old(bytesLeft)
    {
      if sub.bytesLeft != 0 {
        ok := sub.SkipBytes(sub.bytesLeft);
        if !ok { return; }
      }
      pos := sub.pos;
      ok := true;
    }

    /** pb_decode_bool */
    method DecodeBool() returns (ok: bool, value: bool)
      requires Valid()
      modifies this
      ensures Valid() && End() == old(End())
      ensures ok <==> Read32(old(Rest())).Ok?
      ensures ok ==> (value <==> Read32(old(Rest())).value != 0) && Rest() == Read32(old(Rest())).rest
    {
      var n;
      ok, n := DecodeVarint32();
      value := n != 0;
    }

    /** pb_decode_svarint: the bit tests and the complement of a 64-bit word. */
    method DecodeSVarint() returns (ok: bool, value: int)
      requires Valid()
      modifies this
      ensures Valid() && End() == old(End())
      ensures ok <==> Read64(old(Rest()), 0).Ok?
      ensures ok ==> value == UnZigZag(Read64(old(Rest()), 0).value) && Rest() == Read64(old(Rest()), 0).rest
      ensures ok ==> Read64(old(Rest()), 0).value == if value < 0 then -2 * value - 1 else 2 * value
    {
      var n;
      ok, n := DecodeVarint();
      value := 0;
      if !ok { return; }
      Read64Bound(old(Rest()), 0);
      Room0();
      var half := n / 2;
      value := if n % 2 == 1 then Signed(TWO64 - 1 - half, TWO63) else Signed(half, TWO63);
    }

    /** pb_decode_fixed32 and pb_decode_fixed64, byte by byte. */
    method DecodeFixed(width: nat) returns (ok: bool, value: nat)
      requires Valid() && (width == 4 || width == 8)
      modifies this
      ensures Valid() && End() == old(End())
      ensures ok <==> width <= old(bytesLeft)
      ensures ok ==> value == FromLittleEndian(old(Rest())[..width]) && Rest() == old(Rest())[width..]
    {
      var bytes := new byte[width];
      ok := ReadInto(bytes, width);
      value := 0;
      if !ok { return; }
      var i := width;
      assert bytes[width..] == [];
      while i > 0
        invariant 0 <= i <= width
        invariant value == FromLittleEndian(bytes[i..])
      {
        i := i - 1;
        assert bytes[i..][1..] == bytes[i + 1..];
        value := bytes[i] + 0x100 * value;
      }
      assert bytes[..width] == bytes[0..];
    }
  }

  /** A 64-bit read in progress: the low groups are known, p reads the others. */
  function Offset(low: nat, k: nat, p: Parsed<nat>): Parsed<nat> {
    match p
    case Fail => Fail
    case Ok(v, r) => Ok(Joined(low, k, v), r)
  }

  /** The word after byte b has been added as group number k. */
  function Gather(low: nat, b: byte, k: nat): nat {
    low + (b % 0x80) * Weight(k)
  }

  lemma OffsetStep(low: nat, k: nat, bs: seq<byte>)
    requires bs != [] && !(k >= 9 && bs[0] >= 2)
    ensures Offset(low, k, Read64(bs, k))
         == if bs[0] >= 0x80 then Offset(Gather(low, bs[0], k), k + 1, Read64(bs[1..], k + 1))
            else Ok(Gather(low, bs[0], k), bs[1..])
  {
    if bs[0] >= 0x80 {
      var p := Read64(bs[1..], k + 1);
      assert bs[0] % 0x80 == bs[0] - 0x80;
      if p.Ok? { JoinedStep(bs[0], k, low, p.value); }
    }
  }
}
