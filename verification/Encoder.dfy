/**
  pb_encode.c from fields upwards. Every method is proved to emit exactly the
  wire form of what it is given, so the theorems about that form hold of it,
  for buffers and for sizing streams alike.
 */
module Encoder {
  import opened Wire
  import opened Varint
  import opened Descriptor
  import opened Encoding
  import opened OutputStream
  import opened WireFormat
  import opened WrittenForms
  import opened FieldIterator
  import opened Packing

  // ----- what a C structure can hold -----

  /** A number a member of this type and size can store. */
  ghost predicate HoldsNumber(f: Field, n: int) {
    if f.ltype.LFixed32? || f.ltype.LFixed64? then
      (f.dataSize == 4 ==> 0 <= n < TWO32) && (f.dataSize == 8 ==> 0 <= n < TWO64)
    else
      IsIntSize(f.dataSize) ==> if f.ltype.LUVarint? then FitsUnsigned(n, f.dataSize) else FitsSigned(n, f.dataSize)
  }

  ghost predicate HoldsLeaf(f: Field, v: Value) {
    if Packable(f.ltype) then v.Num? && HoldsNumber(f, v.n)
    else
      && v.Blob? && |v.bytes| < TWO64 - 1
      && (f.ltype.LFixedBytes? ==> |v.bytes| == f.dataSize)
      && (f.ltype.LString? ==> forall i :: 0 <= i < |v.bytes| ==> v.bytes[i] != 0)
  }

  /**
    A structure in memory: any numbers its members can store, any counts, any
    strings. It need not conform to its descriptor; the encoder reports what
    does not. Its encoded parts are small enough to be counted in a size_t.
   */
  ghost predicate Holds(T: Table, d: nat, ss: seq<Slot>)
    decreases ss, 2
  {
    && |ss| == |At(T, d)|
    && forall i :: 0 <= i < |ss| ==> HoldsSlot(T, At(T, d)[i], ss[i])
  }

  ghost predicate HoldsSlot(T: Table, f: Field, s: Slot)
    decreases s, 1
  {
    match s
    case One(v) => f.atype.Static? && !f.htype.Repeated? && !Flagged(f) && HoldsValue(T, f, v)
    case Opt(has, v) => Flagged(f) && (has ==> HoldsValue(T, f, v))
    case Many(items) =>
      f.htype.Repeated? && |items| < TWO32 && forall i :: 0 <= i < |items| ==> HoldsValue(T, f, items[i])
    case Ptr(p) =>
      f.atype.Pointer? && !f.htype.Repeated? && match p { case None => true case Some(v) => HoldsValue(T, f, v) }
  }

  ghost predicate HoldsValue(T: Table, f: Field, v: Value)
    decreases v, 0
  {
    if f.ltype.LSubmsg? then v.Msg? && Holds(T, f.sub, v.slots) && Countable(Encode(T, f.sub, v.slots))
    else HoldsLeaf(f, v)
  }

  ghost predicate Countable(form: Form) {
    form.Some? ==> |form.value| < TWO64
  }

  /** A structure that conforms, and whose size can be counted, can be held. */
  lemma {:induction false} ConformsHolds(T: Table, d: nat, ss: seq<Slot>)
    requires TableOk(T) && Conforms(T, d, ss, false) && Countable(Encode(T, d, ss))
    ensures Holds(T, d, ss)
    decreases ss, 3
  {
    EncodeFromExists(T, d, ss, 0);
    forall i | 0 <= i < |ss| ensures HoldsSlot(T, At(T, d)[i], ss[i]) {
      FieldOkAt(T, d, i);
      SlotFormExists(T, d, At(T, d)[i], ss[i]);
      SlotIsPart(T, d, ss, 0, i);
      SlotHolds(T, d, At(T, d)[i], ss[i]);
    }
  }

  lemma {:induction false} SlotHolds(T: Table, d: nat, f: Field, s: Slot)
    requires TableOk(T) && FieldOk(T, d, f) && ConformsSlot(T, d, f, s, false)
    requires SlotForm(T, d, f, s).Some? && |SlotForm(T, d, f, s).value| < TWO64
    ensures HoldsSlot(T, f, s)
    decreases s, 2
  {
    match s
    case One(v) =>
      if LeftOut(T, d, f, s) { DefaultHolds(T, d, f, s); } else { ValueHolds(T, d, f, v); }
    case Opt(has, v) => if has { ValueHolds(T, d, f, v); }
    case Ptr(p) => if p.Some? { ValueHolds(T, d, f, p.value); }
    case Many(items) =>
      forall i | 0 <= i < |items| ensures HoldsValue(T, f, items[i]) {
        if !Packable(f.ltype) { RecordIsPart(T, f, items, i); }
        if Packable(f.ltype) { LeafHolds(T, d, f, items[i]); } else { ValueHolds(T, d, f, items[i]); }
      }
  }

  /** A member that counts as absent can be held, whatever it is made of. */
  lemma {:induction false} DefaultHolds(T: Table, d: nat, f: Field, s: Slot)
    requires TableOk(T) && FieldOk(T, d, f) && Shaped(f, s) && IsDefault(T, d, f, s)
    ensures HoldsSlot(T, f, s)
    decreases s
  {
    if s.One? && f.ltype.LSubmsg? {
      DefaultIsEmpty(T, f.sub, s.v.slots, 0);
      forall i | 0 <= i < |s.v.slots| ensures HoldsSlot(T, At(T, f.sub)[i], s.v.slots[i]) {
        FieldOkAt(T, f.sub, i);
        DefaultHolds(T, f.sub, At(T, f.sub)[i], s.v.slots[i]);
      }
    }
  }

  lemma LeafHolds(T: Table, d: nat, f: Field, v: Value)
    requires FieldOk(T, d, f) && LeafOk(f, v)
    ensures HoldsLeaf(f, v)
  {
  }

  lemma {:induction false} ValueHolds(T: Table, d: nat, f: Field, v: Value)
    requires TableOk(T) && FieldOk(T, d, f) && ConformsValue(T, f, v, false)
    requires Record(T, f, v).Some? && |Record(T, f, v).value| < TWO64
    ensures HoldsValue(T, f, v)
    decreases v, 1
  {
    if f.ltype.LSubmsg? { ConformsHolds(T, f.sub, v.slots); } else { LeafHolds(T, d, f, v); }
  }

  // ----- leaves -----

  /** pb_enc_bool */
  method EncBool(stream: OStream, n: int) returns (ok: bool)
    requires stream.Valid()
    modifies stream, stream.buf
    ensures Emits(old(stream.Now()), stream.Now(), ok, Some(Shortest(if n != 0 then 1 else 0)))
  {
    ok := stream.EncodeVarint(if n != 0 then 1 else 0);
  }

  lemma VarintHolds(f: Field, n: int)
    requires !f.ltype.LFixed32? && !f.ltype.LFixed64? && HoldsNumber(f, n) && IsIntSize(f.dataSize)
    ensures -TWO63 <= n < TWO64 && (!f.ltype.LUVarint? ==> n < TWO63)
    ensures f.ltype.LUVarint? ==> n >= 0 && VarintForm(f, n) == Some(Shortest(n))
  {
    if f.ltype.LUVarint? { assert n % TWO64 == n; }
  }

  /** pb_enc_varint */
  method EncVarint(stream: OStream, f: Field, n: int) returns (ok: bool)
    requires stream.Valid() && !f.ltype.LFixed32? && !f.ltype.LFixed64? && HoldsNumber(f, n)
    modifies stream, stream.buf
    ensures Emits(old(stream.Now()), stream.Now(), ok, VarintForm(f, n))
  {
    if f.dataSize != 1 && f.dataSize != 2 && f.dataSize != 4 && f.dataSize != 8 { return false; }
    VarintHolds(f, n);
    if f.ltype.LUVarint? {
      ok := stream.EncodeVarint(n);
    } else if f.ltype.LSVarint? {
      ok := stream.EncodeSVarint(n);
    } else {
      ok := stream.EncodeVarint(n % TWO64);
    }
  }

  lemma FixedHolds(f: Field, n: int)
    requires (f.ltype.LFixed32? || f.ltype.LFixed64?) && HoldsNumber(f, n)
    ensures f.dataSize == 4 ==> 0 <= n < TWO32 && FixedForm(f, n) == Some(LittleEndian(n, 4))
    ensures f.dataSize == 8 ==> 0 <= n < TWO64 && FixedForm(f, n) == Some(LittleEndian(n, 8))
  {
    if f.dataSize == 4 { assert n % TWO32 == n; }
    if f.dataSize == 8 { assert n % TWO64 == n; }
  }

  /** pb_enc_fixed */
  method EncFixed(stream: OStream, f: Field, n: int) returns (ok: bool)
    requires stream.Valid() && (f.ltype.LFixed32? || f.ltype.LFixed64?) && HoldsNumber(f, n)
    modifies stream, stream.buf
    ensures Emits(old(stream.Now()), stream.Now(), ok, FixedForm(f, n))
  {
    FixedHolds(f, n);
    if f.dataSize == 4 {
      ok := stream.EncodeFixed32(n);
    } else if f.dataSize == 8 {
      ok := stream.EncodeFixed64(n);
    } else {
      ok := false;
    }
  }

  /** A number of any kind, as an array element or a member. */
  method EncNumber(stream: OStream, f: Field, v: Value) returns (ok: bool)
    requires stream.Valid() && Packable(f.ltype) && HoldsLeaf(f, v)
    modifies stream, stream.buf
    ensures Emits(old(stream.Now()), stream.Now(), ok, PackedForm(f, v))
  {
    if f.ltype.LFixed32? || f.ltype.LFixed64? {
      ok := EncFixed(stream, f, v.n);
    } else {
      ok := EncVarint(stream, f, v.n);
    }
  }

  /** pb_enc_bytes */
  method EncBytes(stream: OStream, f: Field, v: Value) returns (ok: bool)
    requires stream.Valid() && f.ltype.LBytes? && HoldsLeaf(f, v)
    modifies stream, stream.buf
    ensures Emits(old(stream.Now()), stream.Now(), ok, LeafForm(f, v))
  {
    if f.atype.Static? && |v.bytes| + BYTES_OFFSET > f.dataSize { return false; }
    ok := stream.EncodeString(v.bytes);
  }

  /** What is at str[i] of a NUL-terminated string. */
  function CharAt(str: seq<byte>, i: nat): byte
    requires i <= |str|
  {
    if i < |str| then str[i] else 0
  }

  /** pb_enc_string: find the terminator, but not beyond the member. */
  method EncString(stream: OStream, f: Field, v: Value) returns (ok: bool)
    requires stream.Valid() && f.ltype.LString? && HoldsLeaf(f, v)
    modifies stream, stream.buf
    ensures Emits(old(stream.Now()), stream.Now(), ok, LeafForm(f, v))
  {
    var maxSize: nat := TWO64 - 1;
    if f.atype.Static? {
      if f.dataSize == 0 { return false; }
      maxSize := f.dataSize - 1;
    }
    var size: nat := 0;
    while size < maxSize && CharAt(v.bytes, size) != 0
      invariant size <= |v.bytes| && size <= maxSize
      decreases maxSize - size
    {
      size := size + 1;
    }
    if CharAt(v.bytes, size) != 0 { return false; }
    assert v.bytes[..size] == v.bytes;
    ok := stream.EncodeString(v.bytes[..size]);
  }

  /** pb_encode_tag_for_field */
  method EncodeTagForField(stream: OStream, f: Field) returns (ok: bool)
    requires stream.Valid() && f.tag < 0x2000_0000
    modifies stream, stream.buf
    ensures Emits(old(stream.Now()), stream.Now(), ok, Some(Tag(f, WireType(f.ltype))))
  {
    ok := stream.EncodeTag(WireType(f.ltype), f.tag);
  }

  // ----- presence -----

  /** The bytes of a number in memory. */
  function InMemory(f: Field, n: int): (mem: seq<byte>)
    ensures |mem| == f.dataSize
  {
    LittleEndian(n % Pow256(f.dataSize), f.dataSize)
  }

  /** Whether a number in memory is zero. */
  method AllZero(f: Field, n: int) returns (zero: bool)
    requires Packable(f.ltype) && SizeOk(f) && HoldsNumber(f, n)
    ensures zero <==> n == 0
  {
    ZeroInMemory(f, n);
    zero := BytesZero(InMemory(f, n));
  }

  /** The loop over the bytes. */
  method BytesZero(mem: seq<byte>) returns (zero: bool)
    ensures zero <==> FromLittleEndian(mem) == 0
  {
    var i := 0;
    while i < |mem|
      invariant 0 <= i <= |mem|
      invariant forall k :: 0 <= k < i ==> mem[k] == 0
    {
      if mem[i] != 0 {
        NonzeroByte(mem, i);
        return false;
      }
      i := i + 1;
    }
    ZeroBytes(mem);
    zero := true;
  }

  lemma ZeroInMemory(f: Field, n: int)
    requires Packable(f.ltype) && SizeOk(f) && HoldsNumber(f, n)
    ensures FromLittleEndian(InMemory(f, n)) == 0 <==> n == 0
  {
    NumberInMemory(f, n);
    LittleEndianRoundTrip(n % Pow256(f.dataSize), f.dataSize);
  }

  lemma NumberInMemory(f: Field, n: int)
    requires Packable(f.ltype) && SizeOk(f) && HoldsNumber(f, n)
    ensures n % Pow256(f.dataSize) == 0 <==> n == 0
  {
    Pow256Values();
    if n < 0 { assert n % Pow256(f.dataSize) == n + Pow256(f.dataSize); }
  }

  lemma {:induction false} ZeroBytes(mem: seq<byte>)
    requires forall k :: 0 <= k < |mem| ==> mem[k] == 0
    ensures FromLittleEndian(mem) == 0
  {
    if mem == [] {
    } else {
      ZeroBytes(mem[1..]);
    }
  }

  lemma {:induction false} NonzeroByte(mem: seq<byte>, i: nat)
    requires i < |mem| && mem[i] != 0
    ensures FromLittleEndian(mem) > 0
  {
    if i == 0 {
    } else {
      NonzeroByte(mem[1..], i - 1);
    }
  }

  /** pb_check_proto3_default_value */
  method CheckProto3Default(T: Table, d: nat, f: Field, s: Slot) returns (absent: bool)
    requires TableOk(T) && SizeOk(f) && HoldsSlot(T, f, s)
    ensures absent <==> IsDefault(T, d, f, s)
    ensures IsPlain(T, d, f) && Packable(f.ltype) ==> (absent <==> s == One(Num(0)))
    ensures IsPlain(T, d, f) && IsBlob(f.ltype) ==> (absent <==> s == One(Blob([])))
    ensures Flagged(f) ==> (absent <==> !s.has)
    ensures f.htype.Required? && f.atype.Static? ==> !absent
    decreases s, 0
  {
    if f.atype.Pointer? && !f.htype.Repeated? { return s.p.None?; }
    if f.htype.Repeated? { return |s.items| == 0; }
    if f.htype.Required? { return false; }
    if f.sizeOffset != 0 { return !s.has; }
    if HasDefaults(At(T, d)) { return false; }
    if Packable(f.ltype) {
      absent := AllZero(f, s.v.n);
    } else if f.ltype.LFixedBytes? {
      absent := f.dataSize == 0;
    } else if f.ltype.LSubmsg? {
      absent := CheckSubmessage(T, f.sub, s.v.slots);
    } else {
      absent := |s.v.bytes| == 0;
    }
  }

  /** The field under the cursor. */
  method CheckCurrent(T: Table, d: nat, iter: FieldIter<Slot>) returns (absent: bool)
    requires TableOk(T) && iter.Valid() && iter.fields == At(T, d) && iter.fields != [] && Holds(T, d, iter.message)
    ensures absent <==> IsDefault(T, d, iter.Current(), iter.message[iter.index])
    ensures Shaped(iter.Current(), iter.message[iter.index])
    decreases iter.message, 0
  {
    var i := iter.index;
    FieldOkAt(T, d, i);
    iter.FieldIsCurrent();
    assert HoldsSlot(T, At(T, d)[i], iter.message[i]);
    PlainHolds(T, At(T, d)[i], iter.message[i]);
    PlainIsDefault(T, d, At(T, d)[i], iter.message[i]);
    absent := CheckProto3Default(T, d, iter.Field(), iter.message[i]);
  }

  /** Its loop over the fields of a submessage. */
  method CheckSubmessage(T: Table, d: nat, ss: seq<Slot>) returns (absent: bool)
    requires TableOk(T) && Holds(T, d, ss)
    ensures absent <==> IsDefaultMsg(T, d, ss)
    decreases ss, 1
  {
    BindableAt(T, d);
    var iter := new FieldIter<Slot>.Begin(At(T, d), ss);
    if iter.desc.fieldCount == 0 { return true; }
    var more := true;
    ghost var i := 0;
    while more
      invariant iter.Valid() && iter.fields == At(T, d) && iter.message == ss && fresh(iter)
      invariant if more then iter.index == i < |ss| else i == |ss|
      invariant forall k :: 0 <= k < i ==> Shaped(At(T, d)[k], ss[k]) && IsDefault(T, d, At(T, d)[k], ss[k])
      decreases |ss| - i
    {
      var field := CheckCurrent(T, d, iter);
      if !field { return false; }
      more := iter.Next();
      i := i + 1;
    }
    absent := true;
  }

  // ----- the descriptor entry says all that matters -----

  lemma PlainHolds(T: Table, f: Field, s: Slot)
    ensures HoldsSlot(T, Plain(f), s) == HoldsSlot(T, f, s)
  {
    assert forall v :: HoldsValue(T, Plain(f), v) == HoldsValue(T, f, v);
  }

  lemma PlainIsDefault(T: Table, d: nat, f: Field, s: Slot)
    ensures IsDefault(T, d, Plain(f), s) == IsDefault(T, d, f, s)
  {
  }

  lemma PlainRecord(T: Table, f: Field, v: Value)
    ensures Record(T, Plain(f), v) == Record(T, f, v)
  {
    assert Payload(T, Plain(f), v) == Payload(T, f, v);
  }

  lemma {:induction false} PlainRecords(T: Table, f: Field, items: seq<Value>)
    ensures Records(T, Plain(f), items) == Records(T, f, items)
  {
    if items == [] {
    } else {
      PlainRecord(T, f, items[0]);
      PlainRecords(T, f, items[1..]);
    }
  }

  lemma {:induction false} PlainElements(f: Field, items: seq<Value>)
    ensures Elements(Plain(f), items) == Elements(f, items)
  {
    if items == [] {
    } else {
      PlainElements(f, items[1..]);
    }
  }

  lemma PlainSlotForm(T: Table, d: nat, f: Field, s: Slot)
    ensures SlotForm(T, d, Plain(f), s) == SlotForm(T, d, f, s)
  {
    match s
    case One(v) =>
      PlainRecord(T, f, v);
      PlainIsDefault(T, d, f, s);
    case Opt(has, v) => PlainRecord(T, f, v);
    case Many(items) =>
      PlainRecords(T, f, items);
      PlainElements(f, items);
    case Ptr(p) => if p.Some? { PlainRecord(T, f, p.value); }
  }

  // ----- fields -----

  /** pb_encode_submessage: a sizing pass, the length, and a writing pass limited to that length. */
  method EncodeSubmessage(T: Table, d: nat, stream: OStream, ss: seq<Slot>) returns (ok: bool)
    requires TableOk(T) && Holds(T, d, ss) && Countable(Encode(T, d, ss)) && stream.Valid()
    modifies stream, stream.buf
    ensures Emits(old(stream.Now()), stream.Now(), ok, Delimited(Encode(T, d, ss)))
    decreases ss, 9
  {
    ghost var form, s := Encode(T, d, ss), stream.Now();
    var substream := new OStream.Sizing();
    ok := PbEncode(T, d, substream, ss);
    if !ok { return; }
    var size := substream.bytesWritten;
    assert size == |form.value|;
    ok := stream.EncodeVarint(size);
    ghost var t := stream.Now();
    if !ok {
      Broken(s, t, Some(Shortest(size)), form);
      return;
    }
    ok := EncodeBody(T, d, stream, ss, size);
    Chain(s, t, stream.Now(), ok, Some(Shortest(size)), form);
  }

  /** The rest of pb_encode_submessage, the length having been written. */
  method EncodeBody(T: Table, d: nat, stream: OStream, ss: seq<Slot>, size: nat) returns (ok: bool)
    requires TableOk(T) && Holds(T, d, ss) && stream.Valid()
    requires Encode(T, d, ss).Some? && size == |Encode(T, d, ss).value|
    modifies stream, stream.buf
    ensures Emits(old(stream.Now()), stream.Now(), ok, Encode(T, d, ss))
    decreases ss, 8
  {
    if stream.sizing {
      ok := stream.Count(size, Encode(T, d, ss).value);
      return;
    }
    if stream.bytesWritten + size > stream.maxSize { return false; }
    var substream := new OStream.Sub(stream, size);
    var status := PbEncode(T, d, substream, ss);
    stream.bytesWritten := stream.bytesWritten + substream.bytesWritten;
    stream.pos := substream.pos;
    // Both passes agree: the error "submsg size changed" is never reported.
    assert status && substream.bytesWritten == size;
    ok := status && substream.bytesWritten == size;
  }

  function Delimited(form: Form): Form {
    match form
    case None => None
    case Some(bs) => Some(Prefixed(bs))
  }

  /** The switch of encode_basic_field. */
  method EncodePayload(T: Table, stream: OStream, f: Field, v: Value) returns (ok: bool)
    requires TableOk(T) && HoldsValue(T, f, v) && stream.Valid()
    modifies stream, stream.buf
    ensures Emits(old(stream.Now()), stream.Now(), ok, Payload(T, f, v))
    decreases v, 0
  {
    match f.ltype
    case LBool => ok := EncBool(stream, v.n);
    case LVarint | LUVarint | LSVarint => ok := EncVarint(stream, f, v.n);
    case LFixed32 | LFixed64 => ok := EncFixed(stream, f, v.n);
    case LBytes => ok := EncBytes(stream, f, v);
    case LString => ok := EncString(stream, f, v);
    case LSubmsg => ok := EncodeSubmessage(T, f.sub, stream, v.slots);
    case LFixedBytes => ok := stream.EncodeString(v.bytes);
  }

  /** encode_basic_field */
  method EncodeBasicField(T: Table, stream: OStream, f: Field, v: Value) returns (ok: bool)
    requires TableOk(T) && HoldsValue(T, f, v) && stream.Valid() && f.tag < 0x2000_0000
    modifies stream, stream.buf
    ensures Emits(old(stream.Now()), stream.Now(), ok, Record(T, f, v))
    ensures Emits(old(stream.Now()), stream.Now(), ok,
                  Cat(Some(Shortest(8 * f.tag + ExpectedType(f.ltype))), Payload(T, f, v)))
    decreases v, 1
  {
    RecordIsTagged(T, f, v);
    ghost var s, tag, payload := stream.Now(), Some(Tag(f, WireType(f.ltype))), Payload(T, f, v);
    assert Record(T, f, v) == Cat(tag, payload);
    ok := EncodeTagForField(stream, f);
    ghost var t := stream.Now();
    if !ok {
      Broken(s, t, tag, payload);
      return;
    }
    ok := EncodePayload(T, stream, f, v);
    Chain(s, t, stream.Now(), ok, tag, payload);
  }

  // ----- arrays -----

  /** One step of a loop that emits parts of a form in order. */
  lemma Onward(s: Image, t: Image, u: Image, ok: bool, done: Form, part: Form, left: Form)
    requires Emits(s, t, true, done) && Emits(t, u, ok, part)
    ensures Emits(s, u, ok, Cat(done, part))
    ensures !ok ==> Emits(s, u, false, Cat(done, Cat(part, left)))
    ensures Cat(done, Cat(part, left)) == Cat(Cat(done, part), left)
  {
    Chain(s, t, u, ok, done, part);
    CatAssociates(done, part, left);
    if !ok { Broken(s, u, Cat(done, part), left); }
  }

  lemma {:induction false} ElementsSize(f: Field, items: seq<Value>)
    requires Packable(f.ltype) && forall i :: 0 <= i < |items| ==> HoldsLeaf(f, items[i])
    ensures Elements(f, items).Some? ==> |Elements(f, items).value| <= 10 * |items|
    ensures Elements(f, items).Some? && f.ltype.LFixed32? && SizeOk(f) ==> |Elements(f, items).value| == 4 * |items|
    ensures Elements(f, items).Some? && f.ltype.LFixed64? && SizeOk(f) ==> |Elements(f, items).value| == 8 * |items|
    ensures (f.ltype.LFixed32? || f.ltype.LFixed64?) && SizeOk(f) ==> Elements(f, items).Some?
  {
    if items == [] {
    } else {
      ElementsSize(f, items[1..]);
      ElementSize(f, items[0].n);
    }
  }

  lemma ElementSize(f: Field, n: int)
    requires Packable(f.ltype) && HoldsNumber(f, n)
    ensures VarintForm(f, n).Some? ==> f.ltype.LFixed32? || f.ltype.LFixed64? || |VarintForm(f, n).value| <= 10
  {
    if !f.ltype.LFixed32? && !f.ltype.LFixed64? && IsIntSize(f.dataSize) {
      if f.ltype.LSVarint? { ZigZagRoundTrip(n, []); }
      RoundTrip64(n % TWO64, []);
      if f.ltype.LSVarint? { RoundTrip64(ZigZag(n), []); }
    }
  }

  /** The elements of a packed array, one after the other. */
  method WriteElements(stream: OStream, f: Field, items: seq<Value>) returns (ok: bool)
    requires stream.Valid() && Packable(f.ltype) && forall i :: 0 <= i < |items| ==> HoldsLeaf(f, items[i])
    modifies stream, stream.buf
    ensures Emits(old(stream.Now()), stream.Now(), ok, Elements(f, items))
  {
    ghost var s, done := stream.Now(), Some([]);
    EmitsNothing(s);
    CatNothing(Elements(f, items));
    assert items[0..] == items;
    var i := 0;
    while i < |items|
      invariant 0 <= i <= |items| && stream.Valid() && Emits(s, stream.Now(), true, done)
      invariant Elements(f, items) == Cat(done, Elements(f, items[i..]))
    {
      ghost var t, part, left := stream.Now(), PackedForm(f, items[i]), Elements(f, items[i + 1..]);
      ok := EncNumber(stream, f, items[i]);
      Onward(s, t, stream.Now(), ok, done, part, left);
      assert items[i..][1..] == items[i + 1..];
      if !ok { return; }
      done, i := Cat(done, part), i + 1;
    }
    CatNothing(done);
    ok := true;
  }

  /** The size of a packed array: known for fixed-width types, otherwise a sizing pass. */
  method SizeElements(f: Field, items: seq<Value>) returns (ok: bool, size: nat)
    requires Packable(f.ltype) && SizeOk(f) && forall i :: 0 <= i < |items| ==> HoldsLeaf(f, items[i])
    ensures ok <==> Elements(f, items).Some?
    ensures ok ==> size == |Elements(f, items).value|
  {
    ElementsSize(f, items);
    if f.ltype.LFixed32? { return true, 4 * |items|; }
    if f.ltype.LFixed64? { return true, 8 * |items|; }
    var sizestream := new OStream.Sizing();
    ok := WriteElements(sizestream, f, items);
    size := sizestream.bytesWritten;
  }

  /** Size and elements of a packed array, its tag having been written. */
  method EncodePackedBody(stream: OStream, f: Field, items: seq<Value>) returns (ok: bool)
    requires stream.Valid() && Packable(f.ltype) && SizeOk(f) && |items| < TWO32
    requires forall i :: 0 <= i < |items| ==> HoldsLeaf(f, items[i])
    modifies stream, stream.buf
    ensures Emits(old(stream.Now()), stream.Now(), ok, Delimited(Elements(f, items)))
  {
    ghost var s, form := stream.Now(), Elements(f, items);
    ElementsSize(f, items);
    var size;
    ok, size := SizeElements(f, items);
    if !ok { return; }
    ok := stream.EncodeVarint(size);
    ghost var t := stream.Now();
    if !ok {
      Broken(s, t, Some(Shortest(size)), form);
      return;
    }
    if stream.sizing {
      ok := stream.Count(size, form.value);
    } else {
      ok := WriteElements(stream, f, items);
    }
    Chain(s, t, stream.Now(), ok, Some(Shortest(size)), form);
  }

  /** The packed case of encode_array. */
  method EncodePacked(stream: OStream, f: Field, items: seq<Value>) returns (ok: bool)
    requires stream.Valid() && Packable(f.ltype) && SizeOk(f) && |items| < TWO32 && f.tag < 0x2000_0000
    requires forall i :: 0 <= i < |items| ==> HoldsLeaf(f, items[i])
    modifies stream, stream.buf
    ensures Emits(old(stream.Now()), stream.Now(), ok, Cat(Some(Tag(f, WT_STRING)), Delimited(Elements(f, items))))
  {
    ghost var s, tag, body := stream.Now(), Some(Tag(f, WT_STRING)), Delimited(Elements(f, items));
    ok := stream.EncodeTag(WT_STRING, f.tag);
    ghost var t := stream.Now();
    if !ok {
      Broken(s, t, tag, body);
      return;
    }
    ok := EncodePackedBody(stream, f, items);
    Chain(s, t, stream.Now(), ok, tag, body);
  }

  /** The unpacked case of encode_array. */
  method EncodeUnpacked(T: Table, stream: OStream, f: Field, items: seq<Value>) returns (ok: bool)
    requires TableOk(T) && stream.Valid() && f.tag < 0x2000_0000
    requires forall i :: 0 <= i < |items| ==> HoldsValue(T, f, items[i])
    modifies stream, stream.buf
    ensures Emits(old(stream.Now()), stream.Now(), ok, Records(T, f, items))
    decreases items, 2
  {
    ghost var s, done := stream.Now(), Some([]);
    EmitsNothing(s);
    CatNothing(Records(T, f, items));
    assert items[0..] == items;
    var i := 0;
    while i < |items|
      invariant 0 <= i <= |items| && stream.Valid() && Emits(s, stream.Now(), true, done)
      invariant Records(T, f, items) == Cat(done, Records(T, f, items[i..]))
    {
      ghost var t, part, left := stream.Now(), Record(T, f, items[i]), Records(T, f, items[i + 1..]);
      ok := EncodeBasicField(T, stream, f, items[i]);
      Onward(s, t, stream.Now(), ok, done, part, left);
      assert items[i..][1..] == items[i + 1..];
      if !ok { return; }
      done, i := Cat(done, part), i + 1;
    }
    CatNothing(done);
    ok := true;
  }

  /** encode_array */
  method EncodeArray(T: Table, stream: OStream, f: Field, items: seq<Value>) returns (ok: bool)
    requires TableOk(T) && stream.Valid() && SizeOk(f) && |items| < TWO32 && f.tag < 0x2000_0000
    requires forall i :: 0 <= i < |items| ==> HoldsValue(T, f, items[i])
    modifies stream, stream.buf
    ensures Emits(old(stream.Now()), stream.Now(), ok, ArrayForm(T, f, items))
    decreases items, 3
  {
    EmitsNothing(stream.Now());
    if |items| == 0 { return true; }
    if f.atype.Static? && |items| > f.arraySize { return false; }
    if Packable(f.ltype) {
      ok := EncodePacked(stream, f, items);
    } else {
      ok := EncodeUnpacked(T, stream, f, items);
    }
  }

  // ----- messages -----

  /** encode_field: presence, then contents. */
  method EncodeField(T: Table, d: nat, stream: OStream, f: Field, slot: Slot) returns (ok: bool)
    requires TableOk(T) && stream.Valid() && SizeOk(f) && f.tag < 0x2000_0000 && HoldsSlot(T, f, slot)
    modifies stream, stream.buf
    ensures Emits(old(stream.Now()), stream.Now(), ok, SlotForm(T, d, f, slot))
    decreases slot, 4
  {
    EmitsNothing(stream.Now());
    if f.htype.Optional? && f.atype.Static? {
      if f.sizeOffset != 0 {
        if !slot.has { return true; }
      } else {
        var absent := CheckProto3Default(T, d, f, slot);
        if absent { return true; }
      }
    }
    if slot.Ptr? && slot.p.None? {
      return !f.htype.Required?;
    }
    if f.htype.Repeated? {
      ok := EncodeArray(T, stream, f, slot.items);
    } else {
      var v := if slot.Ptr? then slot.p.value else slot.v;
      ok := EncodeBasicField(T, stream, f, v);
    }
  }

  /** The field under the cursor. */
  method EncodeCurrent(T: Table, d: nat, stream: OStream, iter: FieldIter<Slot>) returns (ok: bool)
    requires TableOk(T) && stream.Valid() && iter.Valid() && iter.fields == At(T, d) && iter.fields != []
    requires Holds(T, d, iter.message)
    modifies stream, stream.buf
    ensures Emits(old(stream.Now()), stream.Now(), ok, SlotForm(T, d, iter.Current(), iter.message[iter.index]))
    decreases iter.message, 5
  {
    var i := iter.index;
    FieldOkAt(T, d, i);
    iter.FieldIsCurrent();
    assert HoldsSlot(T, At(T, d)[i], iter.message[i]);
    PlainHolds(T, iter.Current(), iter.message[i]);
    PlainSlotForm(T, d, iter.Current(), iter.message[i]);
    ok := EncodeField(T, d, stream, iter.Field(), iter.message[i]);
  }

  /** The fields before i have been written. */
  ghost predicate Written(T: Table, d: nat, ss: seq<Slot>, s: Image, t: Image, done: Form, i: nat) {
    Emits(s, t, true, done) && Encode(T, d, ss) == Cat(done, EncodeFrom(T, d, ss, i))
  }

  lemma WrittenStart(T: Table, d: nat, ss: seq<Slot>, s: Image)
    requires s.Valid()
    ensures Written(T, d, ss, s, s, Some([]), 0)
  {
    EmitsNothing(s);
    CatNothing(Encode(T, d, ss));
  }

  lemma WrittenAll(T: Table, d: nat, ss: seq<Slot>, s: Image, t: Image, done: Form)
    requires Written(T, d, ss, s, t, done, |At(T, d)|)
    ensures Emits(s, t, true, Encode(T, d, ss))
  {
    CatNothing(done);
  }

  lemma WrittenOnward(T: Table, d: nat, ss: seq<Slot>, s: Image, t: Image, u: Image, ok: bool, done: Form, i: nat)
    requires |ss| == |At(T, d)| && i < |ss|
    requires Written(T, d, ss, s, t, done, i) && Emits(t, u, ok, SlotForm(T, d, At(T, d)[i], ss[i]))
    ensures ok ==> Written(T, d, ss, s, u, Cat(done, SlotForm(T, d, At(T, d)[i], ss[i])), i + 1)
    ensures !ok ==> Emits(s, u, false, Encode(T, d, ss))
  {
    Onward(s, t, u, ok, done, SlotForm(T, d, At(T, d)[i], ss[i]), EncodeFrom(T, d, ss, i + 1));
  }

  /** One round of the loop of pb_encode: the field under the cursor, then the next one. */
  method EncodeRound(T: Table, d: nat, stream: OStream, iter: FieldIter<Slot>, ghost s: Image, ghost done: Form)
    returns (ok: bool, more: bool, ghost done': Form)
    requires TableOk(T) && stream.Valid() && iter.Valid() && iter.fields == At(T, d) && iter.fields != []
    requires Holds(T, d, iter.message) && Written(T, d, iter.message, s, stream.Now(), done, iter.index)
    modifies stream, stream.buf, iter
    ensures iter.Valid() && iter.message == old(iter.message)
    ensures ok ==> stream.Valid() && Written(T, d, iter.message, s, stream.Now(), done', old(iter.index) + 1)
    ensures ok ==> (more <==> old(iter.index) + 1 < |At(T, d)|) && iter.index == if more then old(iter.index) + 1 else 0
    ensures !ok ==> Emits(s, stream.Now(), false, Encode(T, d, iter.message))
    decreases iter.message, 6
  {
    ghost var t, i := stream.Now(), iter.index;
    more := false;
    done' := Cat(done, SlotForm(T, d, At(T, d)[i], iter.message[i]));
    ok := EncodeCurrent(T, d, stream, iter);
    WrittenOnward(T, d, iter.message, s, t, stream.Now(), ok, done, i);
    if ok { more := iter.Next(); }
  }

  /** pb_encode */
  method PbEncode(T: Table, d: nat, stream: OStream, ss: seq<Slot>) returns (ok: bool)
    requires TableOk(T) && Holds(T, d, ss) && stream.Valid()
    modifies stream, stream.buf
    ensures Emits(old(stream.Now()), stream.Now(), ok, Encode(T, d, ss))
    decreases ss, 7
  {
    ghost var s, done := stream.Now(), Some([]);
    WrittenStart(T, d, ss, s);
    BindableAt(T, d);
    var iter := new FieldIter<Slot>.Begin(At(T, d), ss);
    if iter.desc.fieldCount == 0 {
      WrittenAll(T, d, ss, s, s, done);
      return true;
    }
    var more := true;
    ghost var i := 0;
    while more
      invariant iter.Valid() && iter.fields == At(T, d) && iter.message == ss
      invariant if more then iter.index == i < |ss| else i == |ss|
      invariant stream.Valid() && Written(T, d, ss, s, stream.Now(), done, i)
      decreases |ss| - i
    {
      ok, more, done := EncodeRound(T, d, stream, iter, s, done);
      if !ok { return; }
      i := i + 1;
    }
    WrittenAll(T, d, ss, s, stream.Now(), done);
    ok := true;
  }

  /** pb_get_encoded_size */
  method GetEncodedSize(T: Table, d: nat, ss: seq<Slot>) returns (ok: bool, size: nat)
    requires TableOk(T) && Holds(T, d, ss)
    ensures ok <==> Encode(T, d, ss).Some?
    ensures ok ==> size == |Encode(T, d, ss).value|
  {
    var stream := new OStream.Sizing();
    ok := PbEncode(T, d, stream, ss);
    size := stream.bytesWritten;
  }
}
