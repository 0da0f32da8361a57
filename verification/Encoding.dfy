/**
  The wire form of a message: what pb_encode writes, as a function of the
  descriptor and the structure. None stands for any error other than a full
  output stream.
 */
module Encoding {
  import opened Wire
  import opened Descriptor
  import opened Varint

  type Form = Option<seq<byte>>

  function Cat(a: Form, b: Form): Form {
    if a.None? || b.None? then None else Some(a.value + b.value)
  }

  function Tag(f: Field, wt: nat): seq<byte> {
    Shortest(8 * f.tag + wt)
  }

  /** A length prefix and the bytes it announces. */
  function Prefixed(bs: seq<byte>): seq<byte> {
    Shortest(|bs|) + bs
  }

  /** pb_enc_varint: sign or zero extension to 64 bits by data_size. */
  function VarintForm(f: Field, n: int): Form {
    if !IsIntSize(f.dataSize) then None
    else if f.ltype.LSVarint? then Some(Shortest(ZigZag(n)))
    else Some(Shortest(n % TWO64))
  }

  /** pb_enc_fixed: the width is that of the member. */
  function FixedForm(f: Field, n: int): Form {
    if f.dataSize == 4 then Some(LittleEndian(n % TWO32, 4))
    else if f.dataSize == 8 then Some(LittleEndian(n % TWO64, 8))
    else None
  }

  /** An element of a packed array; booleans go through pb_enc_varint here. */
  function PackedForm(f: Field, v: Value): Form {
    if !v.Num? then None
    else if f.ltype.LFixed32? || f.ltype.LFixed64? then FixedForm(f, v.n)
    else VarintForm(f, v.n)
  }

  function LeafForm(f: Field, v: Value): Form {
    match f.ltype
    case LBool => if v.Num? then Some(Shortest(if v.n != 0 then 1 else 0)) else None
    case LVarint | LUVarint | LSVarint | LFixed32 | LFixed64 => PackedForm(f, v)
    case LBytes =>
      if !v.Blob? || (f.atype.Static? && |v.bytes| + BYTES_OFFSET > f.dataSize) then None
      else Some(Prefixed(v.bytes))
    case LString =>
      if !v.Blob? || (f.atype.Static? && |v.bytes| >= f.dataSize) then None
      else Some(Prefixed(v.bytes))
    case LFixedBytes =>
      if !v.Blob? || |v.bytes| != f.dataSize then None else Some(Prefixed(v.bytes))
    case LSubmsg => None
  }

  /** The payload of a single value, without its tag. */
  function Payload(T: Table, f: Field, v: Value): Form
    decreases v, 0
  {
    if f.ltype.LSubmsg? then
      if !v.Msg? then None
      else
        match EncodeFrom(T, f.sub, v.slots, 0)
        case None => None
        case Some(bs) => Some(Prefixed(bs))
    else LeafForm(f, v)
  }

  /** encode_basic_field: tag and payload. */
  function Record(T: Table, f: Field, v: Value): Form
    decreases v, 1
  {
    match Payload(T, f, v)
    case None => None
    case Some(bs) => Some(Tag(f, WireType(f.ltype)) + bs)
  }

  /** The elements of an unpacked array, one record each. */
  function Records(T: Table, f: Field, items: seq<Value>): Form
    decreases items, 2
  {
    if items == [] then Some([]) else Cat(Record(T, f, items[0]), Records(T, f, items[1..]))
  }

  /** The elements of a packed array, back to back. */
  function Elements(f: Field, items: seq<Value>): Form {
    if items == [] then Some([]) else Cat(PackedForm(f, items[0]), Elements(f, items[1..]))
  }

  /** encode_array */
  function ArrayForm(T: Table, f: Field, items: seq<Value>): Form
    decreases items, 3
  {
    if items == [] then Some([])
    else if f.atype.Static? && |items| > f.arraySize then None
    else if Packable(f.ltype) then
      match Elements(f, items)
      case None => None
      case Some(bs) => Some(Tag(f, WT_STRING) + Prefixed(bs))
    else Records(T, f, items)
  }

  /** encode_field: presence, then contents. */
  function SlotForm(T: Table, d: nat, f: Field, s: Slot): Form
    decreases s, 4
  {
    match s
    case One(v) => if LeftOut(T, d, f, s) then Some([]) else Record(T, f, v)
    case Opt(has, v) => if has then Record(T, f, v) else Some([])
    case Many(items) => ArrayForm(T, f, items)
    case Ptr(p) =>
      match p
      case None => if f.htype.Required? then None else Some([])
      case Some(v) => Record(T, f, v)
  }

  /** The fields from number i on, in the order of the descriptor. */
  function EncodeFrom(T: Table, d: nat, ss: seq<Slot>, i: nat): Form
    decreases ss, |At(T, d)| - i
  {
    if i >= |At(T, d)| then Some([])
    else if i >= |ss| then None
    else Cat(SlotForm(T, d, At(T, d)[i], ss[i]), EncodeFrom(T, d, ss, i + 1))
  }

  function Encode(T: Table, d: nat, ss: seq<Slot>): Form {
    EncodeFrom(T, d, ss, 0)
  }

  lemma CatAssociates(a: Form, b: Form, c: Form)
    ensures Cat(a, Cat(b, c)) == Cat(Cat(a, b), c)
  {
    if a.Some? && b.Some? && c.Some? { assert a.value + (b.value + c.value) == a.value + b.value + c.value; }
  }

  lemma CatNothing(a: Form)
    ensures Cat(Some([]), a) == a && Cat(a, Some([])) == a
  {
    if a.Some? { assert [] + a.value == a.value == a.value + []; }
  }

  // ----- conforming structures always have a wire form -----

  lemma {:induction false} ElementsExist(f: Field, items: seq<Value>)
    requires SizeOk(f) && Packable(f.ltype)
    requires forall i :: 0 <= i < |items| ==> LeafOk(f, items[i])
    ensures Elements(f, items).Some?
  {
    if items == [] {
    } else {
      ElementsExist(f, items[1..]);
    }
  }

  lemma {:induction false} PayloadExists(T: Table, f: Field, v: Value)
    requires TableOk(T) && SizeOk(f) && ConformsValue(T, f, v, false)
    ensures Payload(T, f, v).Some?
    decreases v, 0
  {
    if f.ltype.LSubmsg? { EncodeFromExists(T, f.sub, v.slots, 0); }
  }

  lemma {:induction false} RecordsExist(T: Table, f: Field, items: seq<Value>)
    requires TableOk(T) && SizeOk(f)
    requires forall i :: 0 <= i < |items| ==> ConformsValue(T, f, items[i], false)
    ensures Records(T, f, items).Some?
    decreases items, 1
  {
    if items == [] {
    } else {
      PayloadExists(T, f, items[0]);
      RecordsExist(T, f, items[1..]);
    }
  }

  lemma {:induction false} SlotFormExists(T: Table, d: nat, f: Field, s: Slot)
    requires TableOk(T) && FieldOk(T, d, f) && ConformsSlot(T, d, f, s, false)
    ensures SlotForm(T, d, f, s).Some?
    decreases s, 2
  {
    match s
    case One(v) => if !LeftOut(T, d, f, s) { PayloadExists(T, f, v); }
    case Opt(has, v) => if has { PayloadExists(T, f, v); }
    case Many(items) => if Packable(f.ltype) { ElementsExist(f, items); } else { RecordsExist(T, f, items); }
    case Ptr(p) => if p.Some? { PayloadExists(T, f, p.value); }
  }

  lemma {:induction false} EncodeFromExists(T: Table, d: nat, ss: seq<Slot>, i: nat)
    requires TableOk(T) && Conforms(T, d, ss, false)
    ensures EncodeFrom(T, d, ss, i).Some?
    decreases ss, 3, |ss| - i
  {
    if i >= |ss| {
    } else {
      FieldOkAt(T, d, i);
      SlotFormExists(T, d, At(T, d)[i], ss[i]);
      EncodeFromExists(T, d, ss, i + 1);
    }
  }

  // ----- absence -----

  /** Nothing is written for a member that counts as absent, but a required pointer is missed. */
  lemma DefaultSlotIsEmpty(T: Table, d: nat, f: Field, s: Slot)
    requires Shaped(f, s) && IsDefault(T, d, f, s)
    ensures SlotForm(T, d, f, s) == if f.htype.Required? && f.atype.Pointer? then None else Some([])
  {
    match s
    case One(v) => assert f.htype.Optional?;
    case Opt(has, v) =>
    case Many(items) =>
    case Ptr(p) =>
  }

  /** A structure that counts as absent has an empty wire form, or none if one of its pointers is required. */
  lemma {:induction false} DefaultIsEmpty(T: Table, d: nat, ss: seq<Slot>, i: nat)
    requires IsDefaultMsg(T, d, ss) && i <= |ss|
    ensures EncodeFrom(T, d, ss, i)
         == if exists k :: i <= k < |ss| && IsRequiredPointer(T, d, k) then None else Some([])
    decreases |ss| - i
  {
    if i >= |ss| {
    } else {
      DefaultSlotIsEmpty(T, d, At(T, d)[i], ss[i]);
      DefaultIsEmpty(T, d, ss, i + 1);
      assert IsRequiredPointer(T, d, i) || !IsRequiredPointer(T, d, i);
      CatNothing(EncodeFrom(T, d, ss, i + 1));
    }
  }

  lemma {:induction false} RecordsNonempty(T: Table, f: Field, items: seq<Value>)
    ensures items != [] && Records(T, f, items).Some? ==> |Records(T, f, items).value| > 0
  {
  }

  /** What is written as nothing counts as absent. */
  lemma EmptySlotIsDefault(T: Table, d: nat, f: Field, s: Slot)
    requires ConformsSlot(T, d, f, s, false) && SlotForm(T, d, f, s) == Some([])
    ensures Shaped(f, s) && IsDefault(T, d, f, s) && !f.htype.Required?
  {
    if s.Many? { RecordsNonempty(T, f, s.items); }
  }

  /** A structure has an empty wire form exactly if it counts as absent. */
  lemma EmptyIffDefault(T: Table, d: nat, ss: seq<Slot>)
    requires TableOk(T) && Conforms(T, d, ss, false)
    ensures Encode(T, d, ss) == Some([]) <==> IsDefaultMsg(T, d, ss)
  {
    if Encode(T, d, ss) == Some([]) {
      forall i | 0 <= i < |ss| ensures Shaped(At(T, d)[i], ss[i]) && IsDefault(T, d, At(T, d)[i], ss[i]) {
        SlotIsPart(T, d, ss, 0, i);
        EmptySlotIsDefault(T, d, At(T, d)[i], ss[i]);
      }
    }
    if IsDefaultMsg(T, d, ss) {
      DefaultIsEmpty(T, d, ss, 0);
      EncodeFromExists(T, d, ss, 0);
    }
  }

  // ----- lengths -----

  /** Every length prefix in the wire form is a 32-bit number. */
  ghost predicate LengthsFit(T: Table, d: nat, ss: seq<Slot>)
    decreases ss, 2
  {
    forall i :: 0 <= i < |ss| && i < |At(T, d)| ==> SlotLengthsFit(T, d, At(T, d)[i], ss[i])
  }

  ghost predicate SlotLengthsFit(T: Table, d: nat, f: Field, s: Slot)
    decreases s, 1
  {
    match s
    case One(v) => LeftOut(T, d, f, s) || ValueLengthsFit(T, f, v)
    case Opt(has, v) => has ==> ValueLengthsFit(T, f, v)
    case Many(items) =>
      if Packable(f.ltype) then Elements(f, items).Some? ==> |Elements(f, items).value| < TWO32
      else forall i :: 0 <= i < |items| ==> ValueLengthsFit(T, f, items[i])
    case Ptr(p) => p.Some? ==> ValueLengthsFit(T, f, p.value)
  }

  ghost predicate ValueLengthsFit(T: Table, f: Field, v: Value)
    decreases v, 0
  {
    f.ltype.LSubmsg? && v.Msg? ==>
      && LengthsFit(T, f.sub, v.slots)
      && (Encode(T, f.sub, v.slots).Some? ==> |Encode(T, f.sub, v.slots).value| < TWO32)
  }

  lemma {:induction false} SlotIsPart(T: Table, d: nat, ss: seq<Slot>, k: nat, i: nat)
    requires k <= i < |ss| && i < |At(T, d)|
    requires EncodeFrom(T, d, ss, k).Some?
    ensures SlotForm(T, d, At(T, d)[i], ss[i]).Some?
    ensures |SlotForm(T, d, At(T, d)[i], ss[i]).value| <= |EncodeFrom(T, d, ss, k).value|
    decreases i - k
  {
    if k >= i {
    } else {
      SlotIsPart(T, d, ss, k + 1, i);
    }
  }

  lemma {:induction false} RecordIsPart(T: Table, f: Field, items: seq<Value>, i: nat)
    requires i < |items| && Records(T, f, items).Some?
    ensures Record(T, f, items[i]).Some? && |Record(T, f, items[i]).value| <= |Records(T, f, items).value|
  {
    if i == 0 {
    } else {
      RecordIsPart(T, f, items[1..], i - 1);
    }
  }

  /** A message of less than 4 GiB has no longer lengths in it. */
  lemma {:induction false} ShortLengthsFit(T: Table, d: nat, ss: seq<Slot>)
    requires Encode(T, d, ss).Some? && |Encode(T, d, ss).value| < TWO32
    ensures LengthsFit(T, d, ss)
    decreases ss, 2
  {
    forall i | 0 <= i < |ss| && i < |At(T, d)| ensures SlotLengthsFit(T, d, At(T, d)[i], ss[i]) {
      SlotIsPart(T, d, ss, 0, i);
      ShortSlotLengthsFit(T, d, At(T, d)[i], ss[i]);
    }
  }

  lemma {:induction false} ShortSlotLengthsFit(T: Table, d: nat, f: Field, s: Slot)
    requires SlotForm(T, d, f, s).Some? && |SlotForm(T, d, f, s).value| < TWO32
    ensures SlotLengthsFit(T, d, f, s)
    decreases s, 1
  {
    match s
    case One(v) => if !LeftOut(T, d, f, s) { ShortValueLengthsFit(T, f, v); }
    case Opt(has, v) => if has { ShortValueLengthsFit(T, f, v); }
    case Ptr(p) => if p.Some? { ShortValueLengthsFit(T, f, p.value); }
    case Many(items) =>
      if items != [] && !Packable(f.ltype) {
        forall i | 0 <= i < |items| ensures ValueLengthsFit(T, f, items[i]) {
          RecordIsPart(T, f, items, i);
          ShortValueLengthsFit(T, f, items[i]);
        }
      }
  }

  lemma {:induction false} ShortValueLengthsFit(T: Table, f: Field, v: Value)
    requires Record(T, f, v).Some? && |Record(T, f, v).value| < TWO32
    ensures ValueLengthsFit(T, f, v)
    decreases v, 0
  {
    if f.ltype.LSubmsg? && v.Msg? { ShortLengthsFit(T, f.sub, v.slots); }
  }
}
