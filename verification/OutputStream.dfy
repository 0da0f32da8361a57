/**
  pb_ostream_t over a memory buffer, or over nothing when only the size is
  wanted, and the writers of pb_encode.c below the level of fields. Every one
  is proved to put exactly the bytes of a form at the cursor if the stream has
  room for them, and otherwise to leave everything outside its window alone.
 */
module OutputStream {
  import opened Wire
  import opened Varint
  import opened Encoding
  import Arithmetic

  /** A stream and its buffer at one moment; a sizing stream has no buffer. */
  datatype Image = Image(sizing: bool, out: seq<byte>, pos: nat, max: nat, written: nat) {
    ghost predicate Valid() {
      !sizing ==> written <= max < TWO64 && pos + (max - written) <= |out|
    }

    /** The end of the part of the buffer the stream may write. */
    function End(): int {
      pos + (max - written)
    }

    predicate Takes(n: nat) {
      sizing || written + n <= max
    }

    /** The stream after bs has been written. */
    ghost function Put(bs: seq<byte>): Image
      requires Valid() && Takes(|bs|)
    {
      if sizing then this.(written := written + |bs|)
      else Image(false, out[..pos] + bs + out[pos + |bs|..], pos + |bs|, max, written + |bs|)
    }
  }

  /** Same stream, same limit, and no byte changed outside the window of s. */
  ghost predicate Outside(s: Image, t: Image) {
    && s.Valid() && t.Valid() && t.sizing == s.sizing && t.max == s.max
    && (!s.sizing ==>
          && |t.out| == |s.out| && t.End() == s.End() && s.pos <= t.pos
          && t.out[..s.pos] == s.out[..s.pos] && t.out[s.End()..] == s.out[s.End()..])
  }

  /**
    A call that took the stream from s to t wrote the form: it succeeds exactly
    if there is a form and room for it, and then precisely its bytes were written.
   */
  ghost predicate Emits(s: Image, t: Image, ok: bool, form: Form) {
    && Outside(s, t)
    && (ok <==> form.Some? && s.Takes(|form.value|))
    && (ok ==> t == s.Put(form.value))
  }

  lemma EmitsNothing(s: Image)
    requires s.Valid()
    ensures Emits(s, s, true, Some([]))
  {
    assert !s.sizing ==> s.out == s.out[..s.pos] + [] + s.out[s.pos..];
  }

  /** Two writes, one after the other. */
  lemma Chain(s: Image, t: Image, u: Image, ok: bool, a: Form, b: Form)
    requires Emits(s, t, true, a) && Emits(t, u, ok, b)
    ensures Emits(s, u, ok, Cat(a, b))
  {
    if !s.sizing {
      WindowShrinks(s, t, u);
      if ok {
        var x, y, p := a.value, b.value, s.pos;
        assert t.out[..p + |x|] == s.out[..p] + x;
        assert t.out[p + |x| + |y|..] == s.out[p + |x| + |y|..];
        assert s.out[..p] + x + y == s.out[..p] + (x + y);
      }
    }
  }

  lemma WindowShrinks(s: Image, t: Image, u: Image)
    requires Outside(s, t) && Outside(t, u)
    ensures Outside(s, u)
  {
    if !s.sizing {
      assert u.out[..s.pos] == u.out[..t.pos][..s.pos];
      assert t.out[..s.pos] == t.out[..t.pos][..s.pos];
    }
  }

  /** A write that fails makes the whole fail. */
  lemma Broken(s: Image, t: Image, a: Form, b: Form)
    requires Emits(s, t, false, a)
    ensures Emits(s, t, false, Cat(a, b))
  {
  }

  /**
    Sizing agrees with writing: a form that a sizing stream counts as n bytes
    fits a buffer of capacity c exactly if n <= c, and then exactly n bytes are
    written, at its start, and nothing else changes.
   */
  lemma SizingAgrees(s: Image, s': Image, w: Image, w': Image, sized: bool, ok: bool, form: Form)
    requires Emits(s, s', sized, form) && s.sizing && s.written == 0
    requires Emits(w, w', ok, form) && !w.sizing && w.written == 0 && w.pos == 0
    ensures ok <==> sized && s'.written <= w.max
    ensures ok ==> w'.written == s'.written && w'.out == form.value + w.out[s'.written..]
    ensures w'.written <= w'.max && w'.out[w.max..] == w.out[w.max..]
  {
  }

  /** A sum that wraps around is noticed: together the two comparisons are exact. */
  lemma WrapIsFull(written: nat, n: nat, max: nat)
    requires written <= max < TWO64 && n < TWO64
    ensures (written + n) % TWO64 < written || (written + n) % TWO64 > max <==> written + n > max
  {
    if written + n >= TWO64 { assert (written + n) % TWO64 == written + n - TWO64; }
  }

  class OStream {
    /** Whether the write callback is NULL: only count. */
    const sizing: bool
    const buf: array<byte>
    /** How far stream->state has moved from the start of the buffer. */
    var pos: nat
    var maxSize: nat
    var bytesWritten: nat

    ghost function Now(): Image
      reads this, buf
    {
      Image(sizing, if sizing then [] else buf[..], pos, maxSize, bytesWritten)
    }

    ghost predicate Valid()
      reads this, buf
    {
      Now().Valid()
    }

    /** pb_ostream_from_buffer */
    constructor FromBuffer(buf: array<byte>, size: nat)
      requires size <= buf.Length && size < TWO64
      ensures Now() == Image(false, buf[..], 0, size, 0) && this.buf == buf && Valid()
    {
      sizing, this.buf := false, buf;
      pos, maxSize, bytesWritten := 0, size, 0;
    }

    /** PB_OSTREAM_SIZING */
    constructor Sizing()
      ensures Now() == Image(true, [], 0, 0, 0) && fresh(buf) && Valid()
    {
      sizing, buf := true, new byte[0];
      pos, maxSize, bytesWritten := 0, 0, 0;
    }

    /** A substream that writes where `other` does and may write size bytes. */
    constructor Sub(other: OStream, size: nat)
      requires other.Valid() && !other.sizing && other.bytesWritten + size <= other.maxSize
      ensures Now() == Image(false, other.buf[..], other.pos, size, 0) && buf == other.buf && Valid()
    {
      sizing, buf := false, other.buf;
      pos, maxSize, bytesWritten := other.pos, size, 0;
    }

    /** pb_write: the sum of the test may wrap around. */
    method Write(src: seq<byte>) returns (ok: bool)
      requires Valid() && |src| < TWO64
      modifies this, buf
      ensures Emits(old(Now()), Now(), ok, Some(src))
    {
      ghost var s := Now();
      if |src| > 0 && !sizing {
        var sum := (bytesWritten + |src|) % TWO64;
        WrapIsFull(bytesWritten, |src|, maxSize);
        if sum < bytesWritten || sum > maxSize { return false; }
        forall i | 0 <= i < |src| { buf[pos + i] := src[i]; }
        assert buf[..] == s.out[..pos] + src + s.out[pos + |src|..];
        pos := pos + |src|;
      } else if !sizing {
        EmitsNothing(s);
        assert src == [];
      }
      bytesWritten := bytesWritten + |src|;
      ok := true;
    }

    /** pb_write without data, on a sizing stream. */
    method Count(n: nat, ghost what: seq<byte>) returns (ok: bool)
      requires Valid() && sizing && |what| == n
      modifies this
      ensures ok && Emits(old(Now()), Now(), ok, Some(what))
    {
      bytesWritten := bytesWritten + n;
      ok := true;
    }

    /** pb_encode_varint_32: ten bytes at most, from two 32-bit halves. */
    method EncodeVarint32(low: nat, high: nat) returns (ok: bool)
      requires Valid() && low < TWO32 && high < TWO32
      modifies this, buf
      ensures Emits(old(Now()), Now(), ok, Some(Shortest(low + TWO32 * high)))
    {
      var buffer := new byte[10];
      var i := FillVarint(buffer, low, high);
      ok := Write(buffer[..i]);
    }

    /** pb_encode_varint */
    method EncodeVarint(value: nat) returns (ok: bool)
      requires Valid() && value < TWO64
      modifies this, buf
      ensures Emits(old(Now()), Now(), ok, Some(Shortest(value)))
    {
      if value <= 0x7F {
        ok := Write([value]);
      } else {
        ok := EncodeVarint32(value % TWO32, value / TWO32);
      }
    }

    /** pb_encode_svarint: shift, mask and complement on the unsigned word. */
    method EncodeSVarint(value: int) returns (ok: bool)
      requires Valid() && -TWO63 <= value < TWO63
      modifies this, buf
      ensures Emits(old(Now()), Now(), ok, Some(Shortest(ZigZag(value))))
      ensures Emits(old(Now()), Now(), ok, Some(Shortest(if value < 0 then -2 * value - 1 else 2 * value)))
    {
      var word := value % TWO64;
      var mask := (TWO64 - 1) / 2;
      var zigzagged := if value < 0 then TWO64 - 1 - word % (mask + 1) * 2 else word * 2;
      assert zigzagged == ZigZag(value);
      ok := EncodeVarint(zigzagged);
    }

    /** pb_encode_fixed32 */
    method EncodeFixed32(val: nat) returns (ok: bool)
      requires Valid() && val < TWO32
      modifies this, buf
      ensures Emits(old(Now()), Now(), ok, Some(LittleEndian(val, 4)))
    {
      var bytes := [val % 0x100, val / 0x100 % 0x100, val / 0x1_0000 % 0x100, val / 0x100_0000 % 0x100];
      Bytes4(val);
      ok := Write(bytes);
    }

    /** pb_encode_fixed64 */
    method EncodeFixed64(val: nat) returns (ok: bool)
      requires Valid() && val < TWO64
      modifies this, buf
      ensures Emits(old(Now()), Now(), ok, Some(LittleEndian(val, 8)))
    {
      var bytes := [
        val % 0x100, val / 0x100 % 0x100, val / 0x1_0000 % 0x100, val / 0x100_0000 % 0x100,
        val / TWO32 % 0x100, val / 0x100_0000_0000 % 0x100,
        val / 0x1_0000_0000_0000 % 0x100, val / 0x100_0000_0000_0000 % 0x100];
      Bytes8(val);
      ok := Write(bytes);
    }

    /** pb_encode_tag */
    method EncodeTag(wiretype: nat, fieldNumber: nat) returns (ok: bool)
      requires Valid() && wiretype < 8 && fieldNumber < TWO32
      modifies this, buf
      ensures Emits(old(Now()), Now(), ok, Some(Shortest(8 * fieldNumber + wiretype)))
    {
      ok := EncodeVarint(fieldNumber * 8 + wiretype);
    }

    /** pb_encode_string: a length prefix and the bytes. */
    method EncodeString(bytes: seq<byte>) returns (ok: bool)
      requires Valid() && |bytes| < TWO64
      modifies this, buf
      ensures Emits(old(Now()), Now(), ok, Some(Prefixed(bytes)))
    {
      ghost var s := Now();
      ok := EncodeVarint(|bytes|);
      if !ok {
        Broken(s, Now(), Some(Shortest(|bytes|)), Some(bytes));
        return;
      }
      ghost var t := Now();
      ok := Write(bytes);
      Chain(s, t, Now(), ok, Some(Shortest(|bytes|)), Some(bytes));
    }
  }

  // ----- the varint encoder on two halves -----

  /** 2 to the power 32 - 7i: the weight of the high half once i groups have been taken from the low half. */
  function Gap(i: nat): (w: nat)
    requires i <= 4
  {
    if i == 0 then TWO32 else if i == 1 then 0x200_0000 else if i == 2 then 0x4_0000 else if i == 3 then 0x800 else 0x10
  }

  /** What is left of the low half fits below the high half. */
  ghost predicate LowFits(b: nat, low: nat, i: nat) {
    i <= 4 && b < 0x80 && b + 0x80 * low < Gap(i)
  }

  /** What is still to be written once i bytes have been stored. */
  function Left(b: nat, low: nat, high: nat, i: nat): nat
    requires i <= 4
  {
    if i == 0 then b + 0x80 * low + 0x1_0000_0000 * high
    else if i == 1 then b + 0x80 * low + 0x200_0000 * high
    else if i == 2 then b + 0x80 * low + 0x4_0000 * high
    else if i == 3 then b + 0x80 * low + 0x800 * high
    else b + 0x80 * low + 0x10 * high
  }

  /** A bound on the high half once i bytes have been stored. */
  function HighBound(i: nat): nat
    requires 4 <= i <= 9
  {
    if i == 4 then 0x2000_0000 else if i == 5 then 0x40_0000 else if i == 6 then 0x8000
    else if i == 7 then 0x100 else if i == 8 then 2 else 1
  }

  /** The bytes stored so far and the number still to be written make up the shortest form of n. */
  ghost predicate Splits(n: nat, stored: seq<byte>, left: nat) {
    Shortest(n) == stored + Shortest(left)
  }

  lemma NextGroup(n: nat, stored: seq<byte>, b: byte, left: nat)
    requires b < 128 && left > 0 && Splits(n, stored, b + 128 * left)
    ensures Splits(n, stored + [b + 128], left)
  {
    var m := b + 128 * left;
    assert m % 128 == b && m / 128 == left;
    assert stored + ([b + 128] + Shortest(left)) == stored + [b + 128] + Shortest(left);
  }

  lemma LastGroup(n: nat, stored: seq<byte>, b: byte)
    requires b < 128 && Splits(n, stored, b)
    ensures Shortest(n) == stored + [b]
  {
  }

  /** byte = word & 0x7F; word >>= 7. */
  method NextSeven(word: nat) returns (b: byte, shifted: nat)
    ensures b < 0x80 && word == b + 0x80 * shifted
  {
    b, shifted := word % 0x80, word / 0x80;
  }

  lemma LeftStep(b: nat, low: nat, high: nat, b': nat, low': nat, i: nat)
    requires i < 4 && LowFits(b, low, i) && b' < 0x80 && low == b' + 0x80 * low'
    ensures LowFits(b', low', i + 1)
    ensures Left(b, low, high, i) == b + 0x80 * Left(b', low', high, i + 1)
    ensures low != 0 || high != 0 ==> Left(b', low', high, i + 1) > 0
  {
  }

  /** One round of the first loop. */
  lemma LowGroup(n: nat, stored: seq<byte>, b: byte, low: nat, high: nat, b': nat, low': nat, i: nat)
    requires i < 4 && LowFits(b, low, i) && (low != 0 || high != 0)
    requires b' < 0x80 && low == b' + 0x80 * low' && Splits(n, stored, Left(b, low, high, i))
    ensures LowFits(b', low', i + 1)
    ensures Splits(n, stored + [b + 0x80], Left(b', low', high, i + 1))
  {
    LeftStep(b, low, high, b', low', i);
    NextGroup(n, stored, b, Left(b', low', high, i + 1));
  }

  /** How the first loop ends. */
  lemma LowDone(b: nat, low: nat, high: nat, i: nat)
    requires LowFits(b, low, i) && (i == 4 || (low == 0 && high == 0))
    ensures b < 0x80 && Left(b, low, high, i) == b + 0x10 * high && (high != 0 ==> b < 0x10)
  {
  }

  method Store(buffer: array<byte>, i: nat, b: byte)
    requires i < buffer.Length
    modifies buffer
    ensures buffer[..i + 1] == old(buffer[..i]) + [b]
  {
    buffer[i] := b;
  }

  /** A state of the first loop. */
  ghost predicate LowState(n: nat, stored: seq<byte>, b: byte, low: nat, high: nat, i: nat) {
    LowFits(b, low, i) && Splits(n, stored, Left(b, low, high, i))
  }

  /** Its body. */
  method LowRound(buffer: array<byte>, ghost n: nat, i: nat, b: byte, low: nat, high: nat) returns (b': byte, low': nat)
    requires buffer.Length == 10 && i < 4 && LowState(n, buffer[..i], b, low, high, i) && (low != 0 || high != 0)
    modifies buffer
    ensures LowState(n, buffer[..i + 1], b', low', high, i + 1)
  {
    b', low' := NextSeven(low);
    LowGroup(n, buffer[..i], b, low, high, b', low', i);
    Store(buffer, i, b + 0x80);
  }

  /** The first loop of pb_encode_varint_32: groups of the low half, four bytes at most. */
  method FillLow(buffer: array<byte>, ghost n: nat, low0: nat, high: nat) returns (i: nat, b: byte)
    requires buffer.Length == 10 && low0 < TWO32 && n == low0 + 0x1_0000_0000 * high
    modifies buffer
    ensures i <= 4 && (high != 0 ==> i == 4) && b < if high == 0 then 0x80 else 0x10
    ensures Splits(n, buffer[..i], b + 0x10 * high)
  {
    var low: nat;
    i := 0;
    b, low := NextSeven(low0);
    while i < 4 && (low != 0 || high != 0)
      invariant i <= 4 && LowState(n, buffer[..i], b, low, high, i)
    {
      b, low := LowRound(buffer, n, i, b, low, high);
      i := i + 1;
    }
    LowDone(b, low, high, i);
  }

  lemma HighGroup(high: nat, b: byte, high': nat, i: nat)
    requires 4 <= i <= 9 && 0 < high < HighBound(i) && high == b + 0x80 * high'
    ensures i < 9 && high' < HighBound(i + 1)
  {
  }

  /** byte |= (high & 7) << 4; high >>= 3. */
  method ShareByte(b: byte, high: nat) returns (b': byte, shifted: nat)
    requires b < 0x10
    ensures b' < 0x80 && b' + 0x80 * shifted == b + 0x10 * high
  {
    b', shifted := b + high % 8 * 0x10, high / 8;
  }

  /** A state of the second loop. */
  ghost predicate HighState(n: nat, stored: seq<byte>, b: byte, high: nat, i: nat)
    requires 4 <= i <= 9
  {
    b < 0x80 && high < HighBound(i) && Splits(n, stored, b + 0x80 * high)
  }

  lemma HighStart(n: nat, stored: seq<byte>, b0: byte, high0: nat, b: nat, high: nat)
    requires b0 < 0x10 && high0 < TWO32 && Splits(n, stored, b0 + 0x10 * high0)
    requires b < 0x80 && b + 0x80 * high == b0 + 0x10 * high0
    ensures HighState(n, stored, b, high, 4)
  {
  }

  lemma HighDone(n: nat, stored: seq<byte>, b: byte, i: nat)
    requires 4 <= i <= 9 && HighState(n, stored, b, 0, i)
    ensures b < 0x80 && Splits(n, stored, b)
  {
  }

  /** Its body. */
  method HighRound(buffer: array<byte>, ghost n: nat, i: nat, b: byte, high: nat) returns (b': byte, high': nat)
    requires buffer.Length == 10 && 4 <= i <= 9 && HighState(n, buffer[..i], b, high, i) && high != 0
    modifies buffer
    ensures i < 9 && HighState(n, buffer[..i + 1], b', high', i + 1)
  {
    b', high' := NextSeven(high);
    HighGroup(high, b', high', i);
    NextGroup(n, buffer[..i], b, high);
    Store(buffer, i, b + 0x80);
  }

  /** The second loop: groups of the high half, the first of which shares a byte with the low half. */
  method FillHigh(buffer: array<byte>, ghost n: nat, b0: byte, high0: nat) returns (i: nat, b: byte)
    requires buffer.Length == 10 && b0 < 0x10 && 0 < high0 < TWO32
    requires Splits(n, buffer[..4], b0 + 0x10 * high0)
    modifies buffer
    ensures 4 <= i <= 9 && b < 0x80 && Splits(n, buffer[..i], b)
  {
    i := 4;
    var high: nat;
    b, high := ShareByte(b0, high0);
    HighStart(n, buffer[..4], b0, high0, b, high);
    while high != 0
      invariant 4 <= i <= 9 && HighState(n, buffer[..i], b, high, i)
      decreases 9 - i
    {
      b, high := HighRound(buffer, n, i, b, high);
      i := i + 1;
    }
    HighDone(n, buffer[..i], b, i);
  }

  /** The bytes of pb_encode_varint_32. */
  method FillVarint(buffer: array<byte>, low: nat, high: nat) returns (i: nat)
    requires buffer.Length == 10 && low < TWO32 && high < TWO32
    modifies buffer
    ensures i <= 10 && buffer[..i] == Shortest(low + TWO32 * high)
  {
    var b;
    ghost var n := low + 0x1_0000_0000 * high;
    i, b := FillLow(buffer, n, low, high);
    if high != 0 { i, b := FillHigh(buffer, n, b, high); }
    LastGroup(n, buffer[..i], b);
    Store(buffer, i, b);
    i := i + 1;
  }

  // ----- fixed-width integers -----

  lemma ByteOf(n: nat, k: nat, j: nat)
    requires j < k
    ensures LittleEndian(n, k)[j] == n / Pow256(j) % 256
    decreases k
  {
    if j > 0 {
      ByteOf(n / 256, k - 1, j - 1);
      Arithmetic.DivDiv(n, 256, Pow256(j - 1));
    }
  }

  lemma Bytes4(n: nat)
    ensures LittleEndian(n, 4) == [n % 0x100, n / 0x100 % 0x100, n / 0x1_0000 % 0x100, n / 0x100_0000 % 0x100]
  {
    Pow256Values();
    ByteOf(n, 4, 0);
    ByteOf(n, 4, 1);
    ByteOf(n, 4, 2);
    ByteOf(n, 4, 3);
  }

  lemma Bytes8(n: nat)
    ensures LittleEndian(n, 8) == [
              n % 0x100, n / 0x100 % 0x100, n / 0x1_0000 % 0x100, n / 0x100_0000 % 0x100,
              n / TWO32 % 0x100, n / 0x100_0000_0000 % 0x100,
              n / 0x1_0000_0000_0000 % 0x100, n / 0x100_0000_0000_0000 % 0x100]
  {
    Pow256Values();
    ByteOf(n, 8, 0);
    ByteOf(n, 8, 1);
    ByteOf(n, 8, 2);
    ByteOf(n, 8, 3);
    ByteOf(n, 8, 4);
    ByteOf(n, 8, 5);
    ByteOf(n, 8, 6);
    ByteOf(n, 8, 7);
  }
}
