/**
  The field decoders of pb_decode.c that do not recurse: numbers, byte arrays
  and strings, each proved to compute the decoding function of the bytes it is
  given.
 */
module LeafDecoder {
  import opened Wire
  import opened Descriptor
  import opened Varint
  import opened Decoding
  import opened DecodedMessages
  import opened InputStream
  import opened WireFormat

  // ----- single values -----

  /** The number a member of s bytes holds after n has been cast to its signed type. */
  function CastSigned(n: int, s: nat): int
    requires IsIntSize(s)
  {
    Signed(n % (2 * HalfRange(s)), HalfRange(s))
  }

  lemma CastSignedKeeps(n: int, s: nat)
    requires IsIntSize(s) && -TWO63 <= n < TWO63
    ensures CastSigned(n, s) == n <==> FitsSigned(n, s)
  {
  }

  lemma CastUnsignedKeeps(n: nat, s: nat)
    requires IsIntSize(s)
    ensures n % (2 * HalfRange(s)) == n <==> FitsUnsigned(n, s)
  {
  }

  /** The number the member is given is the one the word stands for; it is refused only if there is none. */
  ghost predicate IsExact(f: Field, word: Parsed<nat>, number: Option<int>) {
    match number
    case None => word.Ok? ==> forall x: int :: !StandsFor(f, word.value, x)
    case Some(x) => word.Ok? && StandsFor(f, word.value, x)
  }

  function NumberRead(p: Parsed<int>): Option<int> {
    if p.Ok? then Some(p.value) else None
  }

  lemma ReadIsExact(f: Field, bs: seq<byte>)
    requires f.ltype.LVarint? || f.ltype.LUVarint? || f.ltype.LSVarint?
    ensures IsExact(f, Read64(bs, 0), NumberRead(ReadNum(f, 0, bs)))
  {
    if Read64(bs, 0).Ok? {
      var n := Read64(bs, 0).value;
      Read64Bound(bs, 0);
      Room0();
      if ReadNum(f, 0, bs).Ok? {
        NarrowIsExact(f, n, ReadNum(f, 0, bs).value);
      } else {
        forall x: int ensures !StandsFor(f, n, x) { NarrowIsExact(f, n, x); }
      }
    }
  }

  /** pb_dec_varint */
  method DecVarint(stream: IStream, f: Field) returns (ok: bool, value: int)
    requires stream.Valid()
    requires f.ltype.LVarint? || f.ltype.LUVarint? || f.ltype.LSVarint?
    modifies stream
    ensures stream.Valid() && stream.End() == old(stream.End())
    ensures ok <==> ReadNum(f, WT_VARINT, old(stream.Rest())).Ok?
    ensures ok ==> Ok(value, stream.Rest()) == ReadNum(f, WT_VARINT, old(stream.Rest()))
    ensures IsExact(f, Read64(old(stream.Rest()), 0), if ok then Some(value) else None)
  {
    ReadIsExact(f, stream.Rest());
    var size := f.dataSize;
    value := 0;
    if f.ltype.LUVarint? {
      var n;
      ok, n := stream.DecodeVarint();
      if !ok { return; }
      if size != 1 && size != 2 && size != 4 && size != 8 { return false, 0; }
      var clamped := n % (2 * HalfRange(size));
      CastUnsignedKeeps(n, size);
      if clamped != n { return false, 0; }
      value := n;
    } else {
      var svalue: int;
      if f.ltype.LSVarint? {
        ok, svalue := stream.DecodeSVarint();
        if !ok { return; }
      } else {
        var n;
        ok, n := stream.DecodeVarint();
        if !ok { return; }
        svalue := if size == 8 then Signed(n, TWO63) else Signed(n % TWO32, TWO31);
      }
      Read64Bound(old(stream.Rest()), 0);
      Room0();
      if size != 1 && size != 2 && size != 4 && size != 8 { return false, 0; }
      var clamped := CastSigned(svalue, size);
      CastSignedKeeps(svalue, size);
      if clamped != svalue { return false, 0; }
      value := svalue;
    }
  }

  /** pb_dec_bytes: size and content go into a pb_bytes_array_t. */
  method DecBytes(stream: IStream, f: Field) returns (ok: bool, value: seq<byte>)
    requires stream.Valid() && f.ltype.LBytes?
    modifies stream
    ensures stream.Valid() && stream.End() == old(stream.End())
    ensures ok <==> ReadBlob(f, WT_STRING, old(stream.Rest())).Ok?
    ensures ok ==> Ok(value, stream.Rest()) == ReadBlob(f, WT_STRING, old(stream.Rest()))
  {
    var size;
    value := [];
    ok, size := stream.DecodeVarint32();
    if !ok { return; }
    Read32Bound(old(stream.Rest()));
    if size > SIZE_MAX { return false, []; }
    var allocSize := size + BYTES_OFFSET;
    if f.atype.Pointer? {
      if stream.bytesLeft < size { return false, []; }
    } else {
      if allocSize > f.dataSize { return false, []; }
    }
    var bytes := new byte[allocSize - BYTES_OFFSET];
    ok := stream.ReadInto(bytes, size);
    value := bytes[..size];
  }

  /** pb_dec_string: terminate, then read into the char array. */
  method DecString(stream: IStream, f: Field) returns (ok: bool, value: seq<byte>)
    requires stream.Valid() && f.ltype.LString?
    modifies stream
    ensures stream.Valid() && stream.End() == old(stream.End())
    ensures ok <==> ReadBlob(f, WT_STRING, old(stream.Rest())).Ok?
    ensures ok ==> Ok(value, stream.Rest()) == ReadBlob(f, WT_STRING, old(stream.Rest()))
  {
    var size;
    value := [];
    ok, size := stream.DecodeVarint32();
    if !ok { return; }
    Read32Bound(old(stream.Rest()));
    if size == TWO32 - 1 { return false, []; }
    var allocSize := size + 1;
    if f.atype.Pointer? {
      if stream.bytesLeft < size { return false, []; }
    } else {
      if allocSize > f.dataSize { return false, []; }
    }
    var dest := new byte[if f.atype.Pointer? then allocSize else f.dataSize];
    dest[size] := 0;
    ghost var r := stream.Rest();
    ok := stream.ReadInto(dest, size);
    if !ok { return; }
    assert dest[size..][0] == 0;
    CStringInBuffer(dest[..], r[..size]);
    value := CString(dest[..]);
  }

  /** pb_dec_fixed_length_bytes */
  method DecFixedLengthBytes(stream: IStream, f: Field) returns (ok: bool, value: seq<byte>)
    requires stream.Valid() && f.ltype.LFixedBytes?
    modifies stream
    ensures stream.Valid() && stream.End() == old(stream.End())
    ensures ok <==> ReadBlob(f, WT_STRING, old(stream.Rest())).Ok?
    ensures ok ==> Ok(value, stream.Rest()) == ReadBlob(f, WT_STRING, old(stream.Rest()))
  {
    var size;
    value := [];
    ok, size := stream.DecodeVarint32();
    if !ok { return; }
    Read32Bound(old(stream.Rest()));
    if size > SIZE_MAX { return false, []; }
    if size == 0 { return true, Zeros(f.dataSize); }
    if size != f.dataSize { return false, []; }
    var dest := new byte[f.dataSize];
    ok := stream.ReadInto(dest, size);
    value := dest[..size];
  }

  /** The numeric cases of decode_basic_field. */
  method DecodeNumber(stream: IStream, wt: nat, f: Field) returns (ok: bool, value: int)
    requires stream.Valid() && Packable(f.ltype) && SizeOk(f)
    modifies stream
    ensures stream.Valid() && stream.End() == old(stream.End())
    ensures ok <==> ReadNum(f, wt, old(stream.Rest())).Ok?
    ensures ok ==> Ok(value, stream.Rest()) == ReadNum(f, wt, old(stream.Rest()))
  {
    value := 0;
    if f.ltype.LBool? {
      if wt != WT_VARINT && wt != WT_PACKED { return false, 0; }
      var b;
      ok, b := stream.DecodeBool();
      value := if b then 1 else 0;
    } else if f.ltype.LFixed32? {
      if wt != WT_32BIT && wt != WT_PACKED { return false, 0; }
      ok, value := stream.DecodeFixed(4);
    } else if f.ltype.LFixed64? {
      if wt != WT_64BIT && wt != WT_PACKED { return false, 0; }
      ok, value := stream.DecodeFixed(8);
    } else {
      if wt != WT_VARINT && wt != WT_PACKED { return false, 0; }
      ok, value := DecVarint(stream, f);
    }
  }

  /** decode_basic_field for everything but submessages. */
  method DecodeLeaf(T: Table, stream: IStream, wt: nat, f: Field, ghost start: Value) returns (ok: bool, value: Value)
    requires stream.Valid() && !f.ltype.LSubmsg? && SizeOk(f)
    modifies stream
    ensures stream.Valid() && stream.End() == old(stream.End())
    ensures ok <==> ReadValue(T, f, wt, old(stream.Rest()), start).Ok?
    ensures ok ==> Ok(value, stream.Rest()) == ReadValue(T, f, wt, old(stream.Rest()), start)
  {
    value := Num(0);
    if Packable(f.ltype) {
      var n;
      ok, n := DecodeNumber(stream, wt, f);
      value := Num(n);
    } else {
      if wt != WT_STRING { return false, value; }
      var b;
      if f.ltype.LBytes? {
        ok, b := DecBytes(stream, f);
      } else if f.ltype.LString? {
        ok, b := DecString(stream, f);
      } else {
        ok, b := DecFixedLengthBytes(stream, f);
      }
      value := Blob(b);
    }
  }
}
