/**
  Message descriptors and the messages they describe: the field list that
  PB_BIND compiles into tables (pb.h), the values a message structure holds,
  and what it means for a structure to conform to its descriptor.
 */
module Descriptor {
  import opened Wire

  datatype LType =
    | LBool | LVarint | LUVarint | LSVarint | LFixed32 | LFixed64
    | LBytes | LString | LSubmsg | LFixedBytes

  datatype HType = Required | Optional | Repeated

  datatype AType = Static | Pointer

  /**
    One entry of a field list. `sizeOffset` is the distance back to the count
    or has-flag, 0 when there is none; `width` is the number of words of its
    table entry; `sub` is the position in the table of the descriptor of a
    submessage; `dflt` is the default the schema declares.
   */
  datatype Field = Field(
    tag: nat, ltype: LType, htype: HType, atype: AType,
    dataSize: nat, arraySize: nat, dataOffset: nat, sizeOffset: nat,
    width: nat, sub: nat, dflt: Option<Value>)

  datatype Desc = Desc(fields: seq<Field>)

  /** All descriptors of a program; a submessage is named by its position. */
  type Table = seq<Desc>

  /** What a field holds: a number, the bytes of a string or byte array, a structure. */
  datatype Value = Num(n: int) | Blob(bytes: seq<byte>) | Msg(slots: seq<Slot>)

  /**
    The storage of one field: a plain member, a member with a has-flag, the
    first `count` entries of an array, or a pointer.
   */
  datatype Slot =
    | One(v: Value)
    | Opt(has: bool, v: Value)
    | Many(items: seq<Value>)
    | Ptr(p: Option<Value>)

  /** PB_SIZE_MAX of the build message.pb.c asks for (PB_FIELD_32BIT). */
  const SIZE_MAX: nat := 0xFFFF_FFFF
  /** offsetof(pb_bytes_array_t, bytes) in that build. */
  const BYTES_OFFSET: nat := 4
  /** PB_MAX_REQUIRED_FIELDS */
  const MAX_REQUIRED: nat := 64

  const WT_VARINT: nat := 0
  const WT_64BIT: nat := 1
  const WT_STRING: nat := 2
  const WT_32BIT: nat := 5
  /** Internal marker for the elements of a packed array. */
  const WT_PACKED: nat := 255

  predicate Packable(l: LType) {
    l.LBool? || l.LVarint? || l.LUVarint? || l.LSVarint? || l.LFixed32? || l.LFixed64?
  }

  predicate IsBlob(l: LType) {
    l.LBytes? || l.LString? || l.LFixedBytes?
  }

  function WireType(l: LType): nat {
    match l
    case LFixed32 => WT_32BIT
    case LFixed64 => WT_64BIT
    case LBool | LVarint | LUVarint | LSVarint => WT_VARINT
    case _ => WT_STRING
  }

  /** A static member whose presence is stored beside it. */
  predicate Flagged(f: Field) {
    f.atype.Static? && f.htype.Optional? && f.sizeOffset != 0
  }

  /** The most entries a repeated field can count. */
  function Capacity(f: Field): nat {
    if f.atype.Pointer? then SIZE_MAX else f.arraySize
  }

  function At(T: Table, d: nat): seq<Field> {
    if d < |T| then T[d].fields else []
  }

  /** Whether the descriptor carries a default value stream. */
  predicate HasDefaults(fields: seq<Field>) {
    exists i :: 0 <= i < |fields| && fields[i].dflt.Some?
  }

  /** Plain lookup in a field list: the position of the tag, or the length if absent. */
  function Find(fields: seq<Field>, tag: nat): (i: nat)
    ensures i <= |fields|
    ensures i < |fields| ==> fields[i].tag == tag
    ensures forall j :: 0 <= j < i ==> fields[j].tag != tag
  {
    if fields == [] || fields[0].tag == tag then 0 else 1 + Find(fields[1..], tag)
  }

  predicate Precedes(fields: seq<Field>, i: nat, j: nat)
    requires i < |fields| && j < |fields|
  {
    fields[i].tag < fields[j].tag
  }

  predicate Sorted(fields: seq<Field>) {
    forall i, j :: 0 <= i < j < |fields| ==> Precedes(fields, i, j)
  }

  lemma FindSorted(fields: seq<Field>, i: nat)
    requires Sorted(fields) && i < |fields|
    ensures Find(fields, fields[i].tag) == i
  {
    var j := Find(fields, fields[i].tag);
    assert j < i ==> Precedes(fields, j, i);
  }

  /** How many of the first i fields are required. */
  function Rank(fields: seq<Field>, i: nat): (r: nat)
    requires i <= |fields|
    ensures r <= i
  {
    if i == 0 then 0 else Rank(fields, i - 1) + if fields[i - 1].htype.Required? then 1 else 0
  }

  // ----- ranges of the integer types -----

  predicate IsIntSize(s: nat) {
    s == 1 || s == 2 || s == 4 || s == 8
  }

  /** 2 to the power 8s - 1. */
  function HalfRange(s: nat): (h: int)
    requires IsIntSize(s)
    ensures h > 0
  {
    if s == 1 then 0x80 else if s == 2 then 0x8000 else if s == 4 then TWO31 else TWO63
  }

  predicate FitsSigned(n: int, s: nat) {
    IsIntSize(s) && -HalfRange(s) <= n < HalfRange(s)
  }

  predicate FitsUnsigned(n: int, s: nat) {
    IsIntSize(s) && 0 <= n < 2 * HalfRange(s)
  }

  // ----- initial values -----

  function ZeroLeaf(f: Field): Value {
    if IsBlob(f.ltype) then Blob(if f.ltype.LFixedBytes? then Zeros(f.dataSize) else []) else Num(0)
  }

  /** The value a plain member starts with: its declared default, else zero. */
  function InitValue(T: Table, d: nat, f: Field): Value
    decreases d, 0
  {
    if f.ltype.LSubmsg? then Msg(if f.sub < d then InitMsg(T, f.sub) else [])
    else if f.dflt.Some? then f.dflt.value
    else ZeroLeaf(f)
  }

  function InitSlot(T: Table, d: nat, f: Field): Slot
    decreases d, 1
  {
    if f.htype.Repeated? then Many([])
    else if f.atype.Pointer? then Ptr(None)
    else if Flagged(f) then Opt(false, InitValue(T, d, f))
    else One(InitValue(T, d, f))
  }

  /** The structure pb_message_set_to_defaults leaves behind. */
  function InitMsg(T: Table, d: nat): (ss: seq<Slot>)
    ensures |ss| == |At(T, d)|
    decreases d, 2
  {
    seq(|At(T, d)|, i requires 0 <= i < |At(T, d)| => InitSlot(T, d, At(T, d)[i]))
  }

  /** The value a new array entry or a newly allocated pointee starts with. */
  function Fresh(T: Table, f: Field): Value {
    if f.ltype.LSubmsg? then Msg(InitMsg(T, f.sub)) else ZeroLeaf(f)
  }

  // ----- presence -----

  /** A member stored the way its descriptor entry says. */
  predicate Shaped(f: Field, s: Slot) {
    match s
    case One(_) => f.atype.Static? && !f.htype.Repeated? && !Flagged(f)
    case Opt(_, _) => Flagged(f)
    case Many(_) => f.htype.Repeated?
    case Ptr(_) => f.atype.Pointer? && !f.htype.Repeated?
  }

  /** pb_check_proto3_default_value: whether a member counts as absent in a proto3 structure. */
  predicate IsDefault(T: Table, d: nat, f: Field, s: Slot)
    decreases s, 0
  {
    match s
    case Ptr(p) => p.None?
    case Many(items) => items == []
    case Opt(has, _) => !has
    case One(v) =>
      if f.htype.Required? || HasDefaults(At(T, d)) then false
      else
        match v
        case Num(n) => Packable(f.ltype) && n == 0
        case Blob(bytes) => IsBlob(f.ltype) && bytes == [] && (f.ltype.LFixedBytes? ==> f.dataSize == 0)
        case Msg(slots) => f.ltype.LSubmsg? && IsDefaultMsg(T, f.sub, slots)
  }

  predicate IsDefaultMsg(T: Table, d: nat, ss: seq<Slot>)
    decreases ss, 1
  {
    && |ss| == |At(T, d)|
    && forall i :: 0 <= i < |ss| ==> Shaped(At(T, d)[i], ss[i]) && IsDefault(T, d, At(T, d)[i], ss[i])
  }

  /** A member without has-flag that the encoder leaves out because it counts as absent. */
  predicate LeftOut(T: Table, d: nat, f: Field, s: Slot) {
    s.One? && f.htype.Optional? && IsDefault(T, d, f, s)
  }

  // ----- conformance -----

  predicate LeafOk(f: Field, v: Value) {
    match f.ltype
    case LBool => v.Num? && 0 <= v.n <= 1
    case LVarint | LSVarint => v.Num? && FitsSigned(v.n, f.dataSize)
    case LUVarint => v.Num? && FitsUnsigned(v.n, f.dataSize)
    case LFixed32 => v.Num? && 0 <= v.n < TWO32
    case LFixed64 => v.Num? && 0 <= v.n < TWO64
    case LBytes => v.Blob? && if f.atype.Static? then |v.bytes| + BYTES_OFFSET <= f.dataSize else |v.bytes| < TWO32
    case LString =>
      && v.Blob?
      && (forall i :: 0 <= i < |v.bytes| ==> v.bytes[i] != 0)
      && if f.atype.Static? then |v.bytes| < f.dataSize else |v.bytes| < TWO32 - 1
    case LFixedBytes => v.Blob? && |v.bytes| == f.dataSize
    case LSubmsg => false
  }

  /**
    Whether a structure conforms to its descriptor. With `stored` it is a
    structure as the decoder leaves it: members without their has-flag keep
    their initial value. Without it, it is one the encoder may be given: only
    what is written counts, and required pointers in it are set.
   */
  ghost predicate Conforms(T: Table, d: nat, ss: seq<Slot>, stored: bool)
    decreases ss, 2
  {
    && |ss| == |At(T, d)|
    && forall i :: 0 <= i < |ss| ==> ConformsSlot(T, d, At(T, d)[i], ss[i], stored)
  }

  ghost predicate ConformsSlot(T: Table, d: nat, f: Field, s: Slot, stored: bool)
    decreases s, 1
  {
    match s
    case One(v) =>
      && f.atype.Static? && !f.htype.Repeated? && !Flagged(f)
      && (ConformsValue(T, f, v, stored) || (!stored && LeftOut(T, d, f, s)))
    case Opt(has, v) =>
      && Flagged(f)
      && (has || stored ==> ConformsValue(T, f, v, stored))
      && (stored && !has ==> v == InitValue(T, d, f))
    case Many(items) =>
      && f.htype.Repeated? && |items| <= Capacity(f)
      && forall i :: 0 <= i < |items| ==> ConformsValue(T, f, items[i], stored)
    case Ptr(p) =>
      && f.atype.Pointer? && !f.htype.Repeated?
      && match p
         case None => stored || !f.htype.Required?
         case Some(v) => ConformsValue(T, f, v, stored)
  }

  ghost predicate ConformsValue(T: Table, f: Field, v: Value, stored: bool)
    decreases v, 0
  {
    if f.ltype.LSubmsg? then v.Msg? && Conforms(T, f.sub, v.slots, stored) else LeafOk(f, v)
  }

  // ----- well-formed tables -----

  /** data_size is that of a C type, which for a pointee is not empty, and agrees with the field type. */
  predicate SizeOk(f: Field) {
    && f.dataSize < TWO31 && (f.atype.Pointer? ==> f.dataSize > 0)
    && match f.ltype
       case LBool => f.dataSize == 1
       case LVarint | LUVarint | LSVarint => IsIntSize(f.dataSize)
       case LFixed32 => f.dataSize == 4
       case LFixed64 => f.dataSize == 8
       case LBytes => f.dataSize >= BYTES_OFFSET
       case LString => f.dataSize >= 1
       case _ => true
  }

  /** PB_FITS(value, bits) */
  predicate Below(value: nat, limit: int) {
    value < limit
  }

  /** The static assertions PB_FIELDINFO_ASSERT_1/2/4/8. */
  predicate Fits(f: Field) {
    match f.width
    case 1 =>
      && Below(f.tag, 0x40) && Below(f.dataOffset, 0x100) && Below(f.sizeOffset, 0x10)
      && Below(f.dataSize, 0x10) && f.arraySize == 1
    case 2 =>
      && Below(f.tag, 0x400) && Below(f.dataOffset, 0x1_0000) && Below(f.sizeOffset, 0x10)
      && Below(f.dataSize, 0x1000) && Below(f.arraySize, 0x1000)
    case 4 =>
      && Below(f.tag, 0x4000_0000) && Below(f.dataOffset, TWO31) && Below(f.sizeOffset, 0x100)
      && Below(f.dataSize, TWO31) && Below(f.arraySize, 0x1_0000)
    case 8 =>
      && Below(f.tag, 0x4000_0000) && Below(f.dataOffset, TWO31) && Below(f.sizeOffset, 0x100)
      && Below(f.dataSize, TWO31) && Below(f.arraySize, TWO31)
    case _ => false
  }

  predicate FieldOk(T: Table, d: nat, f: Field) {
    && 1 <= f.tag < 0x2000_0000
    && Fits(f) && f.sizeOffset < 0x80
    && SizeOk(f)
    && (f.htype.Repeated? ==> f.sizeOffset != 0 && f.arraySize < TWO32)
    && (f.atype.Pointer? && !f.htype.Repeated? ==> f.sizeOffset == 0)
    && (f.ltype.LSubmsg? ==> f.sub < |T| && (f.atype.Static? ==> f.sub < d))
    && (f.dflt.Some? ==> f.atype.Static? && !f.htype.Repeated? && LeafOk(f, f.dflt.value))
  }

  /**
    A table the generator can produce: tags sorted and unique, sizes matching
    the types, every array counted, and static submessages declared before
    the structures that contain them. Pointers may refer to any descriptor.
   */
  predicate TableOk(T: Table) {
    forall d :: 0 <= d < |T| ==> DescOk(T, d)
  }

  predicate DescOk(T: Table, d: nat) {
    Sorted(At(T, d)) && forall i :: 0 <= i < |At(T, d)| ==> EntryOk(T, d, i)
  }

  predicate EntryOk(T: Table, d: nat, i: nat)
    requires i < |At(T, d)|
  {
    FieldOk(T, d, At(T, d)[i])
  }

  predicate IsRequiredPointer(T: Table, d: nat, i: nat)
    requires i < |At(T, d)|
  {
    At(T, d)[i].htype.Required? && At(T, d)[i].atype.Pointer?
  }

  lemma FieldOkAt(T: Table, d: nat, i: nat)
    requires TableOk(T) && i < |At(T, d)|
    ensures d < |T| && FieldOk(T, d, At(T, d)[i]) && Sorted(At(T, d))
  {
    assert DescOk(T, d) && EntryOk(T, d, i);
  }

  lemma SortedAt(T: Table, d: nat)
    requires TableOk(T)
    ensures Sorted(At(T, d))
  {
    assert d < |T| ==> DescOk(T, d);
  }

  /** The initial structure is one the decoder may start from. */
  lemma {:induction false} InitConforms(T: Table, d: nat)
    requires TableOk(T)
    ensures Conforms(T, d, InitMsg(T, d), true)
    decreases d
  {
    forall i | 0 <= i < |At(T, d)|
      ensures ConformsSlot(T, d, At(T, d)[i], InitMsg(T, d)[i], true)
    {
      FieldOkAt(T, d, i);
      InitSlotConforms(T, d, At(T, d)[i]);
    }
  }

  lemma {:induction false} InitSlotConforms(T: Table, d: nat, f: Field)
    requires TableOk(T) && FieldOk(T, d, f)
    ensures ConformsSlot(T, d, f, InitSlot(T, d, f), true)
    ensures f.atype.Static? && !f.htype.Repeated? ==> ConformsValue(T, f, InitValue(T, d, f), true)
    decreases d, 0
  {
    if f.ltype.LSubmsg? && f.sub < d { InitConforms(T, f.sub); }
  }
}
