/**
  The generator's maximum encoded sizes (nanopb_generator.py): they are bounds
  exactly when they are not below the largest encodings, and they never are
  without padded byte arrays.
 */
module SizeBound {
  import opened Arithmetic
  import opened Wire
  import opened Varint
  import opened Descriptor
  import opened Encoding
  import opened LargestEncoding

  // ----- varint_max_size -----

  /** maxValue >> (7 * i), one group at a time. */
  function DropGroups(n: nat, i: nat): nat
    decreases i
  {
    if i == 0 then n else DropGroups(n / 128, i - 1)
  }

  lemma {:induction false} GroupsAreBytes(n: nat, i: nat)
    requires i > 0
    ensures DropGroups(n, i) == 0 <==> |Shortest(n)| <= i
    decreases i
  {
    if i > 1 {
      GroupsAreBytes(n / 128, i - 1);
      if n < 128 { ZeroGroups(i - 1); }
    } else {
      assert DropGroups(n, 1) == DropGroups(n / 128, 0);
    }
  }

  lemma {:induction false} ZeroGroups(i: nat)
    ensures DropGroups(0, i) == 0
  {
    if i == 0 {
    } else {
      ZeroGroups(i - 1);
    }
  }

  /** 2 to the power 70: what ten groups can hold. */
  const TENTH_GROUP: int := 64 * TWO64

  /** varint_max_size: None is the ValueError of a number beyond ten groups. */
  method VarintMaxSize(maxValue: int) returns (size: Option<nat>)
    ensures maxValue >= 0 ==> size == if |Shortest(maxValue)| <= 10 then Some(|Shortest(maxValue)|) else None
    ensures maxValue < 0 ==> size == if TWO64 - maxValue < TENTH_GROUP then Some(10) else None
  {
    var value: nat := if maxValue < 0 then TWO64 - maxValue else maxValue;
    if maxValue < 0 { NegativeIsLong(value); }
    for i := 1 to 11
      invariant |Shortest(value)| >= i
    {
      GroupsAreBytes(value, i);
      if DropGroups(value, i) == 0 { return Some(i); }
    }
    size := None;
  }

  lemma NegativeIsLong(value: nat)
    requires TWO64 < value
    ensures |Shortest(value)| >= 10
    ensures |Shortest(value)| == 10 <==> value < TENTH_GROUP
  {
    var v1 := value / 128 / 128 / 128;
    var v2 := v1 / 128 / 128 / 128;
    var v3 := v2 / 128 / 128;
    assert |Shortest(value)| == 3 + |Shortest(v1)| by { ThreeGroups(value); }
    assert |Shortest(v1)| == 3 + |Shortest(v2)| by { ThreeGroups(v1); }
    assert |Shortest(v2)| == 2 + |Shortest(v3)|;
    assert v3 >= 128 && |Shortest(v3)| == 1 + |Shortest(v3 / 128)|;
    assert v3 / 128 < 128 <==> value < TENTH_GROUP;
  }

  lemma ThreeGroups(n: nat)
    requires n >= 0x20_0000
    ensures |Shortest(n)| == 3 + |Shortest(n / 128 / 128 / 128)|
  {
    assert |Shortest(n)| == 1 + |Shortest(n / 128)|;
    assert |Shortest(n / 128)| == 1 + |Shortest(n / 128 / 128)|;
  }

  // ----- the generator's view of a message -----

  datatype Kind = Number(ltype: LType, size: nat) | Text | Bytes | FixedBytes | Message

  datatype Rule = RequiredRule | OptionalRule | SingularRule | RepeatedRule

  datatype GenField = GenField(tag: nat, kind: Kind, rule: Rule, isStatic: bool, maxSize: nat, maxCount: nat, sub: nat)

  type Schema = seq<seq<GenField>>

  function Fields(S: Schema, m: nat): seq<GenField> {
    if m < |S| then S[m] else []
  }

  /** enc_size of the Field constructor. */
  function LeafSize(g: GenField): int {
    match g.kind
    case Number(ltype, size) => NumberSize(ltype, size)
    case Text => |Shortest(g.maxSize)| + g.maxSize - 1
    case _ => |Shortest(g.maxSize)| + g.maxSize
  }

  /** Tag and, for an array, the number of entries; one more byte for an array of one. */
  function WithTag(g: GenField, size: int): int {
    var one := size + |Shortest(8 * g.tag)|;
    if g.rule.RepeatedRule? then one * g.maxCount + if g.maxCount == 1 then 1 else 0 else one
  }

  /** Field.encoded_size; None if the size cannot be determined. */
  function FieldSize(S: Schema, m: nat, g: GenField): Option<int>
    decreases m, 0
  {
    if !g.isStatic then None
    else if g.kind.Message? then
      if g.sub >= m then None
      else
        match MessageSize(S, g.sub, 0)
        case None => None
        case Some(size) => if size < 0 then None else Some(WithTag(g, size + |Shortest(size)|))
    else Some(WithTag(g, LeafSize(g)))
  }

  /** Message.encoded_size: the sum over the fields from number i on. */
  function MessageSize(S: Schema, m: nat, i: nat): Option<int>
    decreases m, 1, |Fields(S, m)| - i
  {
    if i >= |Fields(S, m)| then Some(0)
    else
      match FieldSize(S, m, Fields(S, m)[i])
      case None => None
      case Some(a) =>
        match MessageSize(S, m, i + 1)
        case None => None
        case Some(b) => Some(a + b)
  }

  // ----- what the generated descriptor says of a field -----

  /** sizeof(PB_BYTES_ARRAY_T(n)): a 32-bit count and n bytes, padded to the alignment of the count. */
  function BytesSizeof(n: nat): nat {
    (BYTES_OFFSET + n + 3) / 4 * 4
  }

  /** A descriptor entry is that of a generator field. */
  predicate Describes(f: Field, g: GenField) {
    && f.tag == g.tag
    && (f.atype.Static? <==> g.isStatic)
    && (match g.rule
        case RequiredRule => f.htype.Required?
        case OptionalRule => f.htype.Optional? && (g.isStatic ==> f.sizeOffset != 0)
        case SingularRule => f.htype.Optional? && f.sizeOffset == 0
        case RepeatedRule => f.htype.Repeated? && (g.isStatic ==> f.arraySize == g.maxCount))
    && (match g.kind
        case Number(ltype, size) => Packable(ltype) && f.ltype == ltype && f.dataSize == size
        case Text => f.ltype.LString? && (g.isStatic ==> f.dataSize == g.maxSize)
        case Bytes => f.ltype.LBytes? && (g.isStatic ==> f.dataSize == BytesSizeof(g.maxSize))
        case FixedBytes => f.ltype.LFixedBytes? && f.dataSize == g.maxSize
        case Message => f.ltype.LSubmsg? && f.sub == g.sub)
  }

  predicate DescribedAt(T: Table, S: Schema, d: nat, i: nat)
    requires i < |At(T, d)| && i < |Fields(S, d)|
  {
    Describes(At(T, d)[i], Fields(S, d)[i])
  }

  predicate DescribedMessage(T: Table, S: Schema, d: nat) {
    |At(T, d)| == |Fields(S, d)| && forall i :: 0 <= i < |At(T, d)| ==> DescribedAt(T, S, d, i)
  }

  /** The tables are those generated from the schema, field by field. */
  predicate Compiled(T: Table, S: Schema) {
    |T| == |S| && forall d :: 0 <= d < |T| ==> DescribedMessage(T, S, d)
  }

  /** No byte array of the C structure has room for more bytes than the schema allows. */
  predicate Unpadded(g: GenField) {
    g.kind.Bytes? ==> g.maxSize % 4 == 0
  }

  predicate UnpaddedAt(S: Schema, m: nat, i: nat)
    requires i < |Fields(S, m)|
  {
    Unpadded(Fields(S, m)[i])
  }

  /** No padded byte array in message m, nor in a message it contains. */
  predicate UnpaddedFrom(S: Schema, m: nat)
    decreases m
  {
    forall i :: 0 <= i < |Fields(S, m)| ==>
      && UnpaddedAt(S, m, i)
      && (Fields(S, m)[i].kind.Message? && Fields(S, m)[i].sub < m ==> UnpaddedFrom(S, Fields(S, m)[i].sub))
  }

  // ----- the generator's size against it -----

  /** A message that has a size has static fields only. */
  lemma {:induction false} SizedIsStatic(T: Table, S: Schema, d: nat)
    requires TableOk(T) && Compiled(T, S) && d < |T| && MessageSize(S, d, 0).Some?
    ensures AllStatic(T, d)
    decreases d
  {
    forall i | 0 <= i < |At(T, d)| ensures StaticField(T, d, At(T, d)[i]) {
      FieldOkAt(T, d, i);
      assert DescribedMessage(T, S, d) && DescribedAt(T, S, d, i);
      SizeHasParts(S, d, 0, i);
      if At(T, d)[i].ltype.LSubmsg? { SizedIsStatic(T, S, At(T, d)[i].sub); }
    }
  }

  lemma {:induction false} SizeHasParts(S: Schema, m: nat, i: nat, k: nat)
    requires MessageSize(S, m, i).Some? && i <= k < |Fields(S, m)|
    ensures FieldSize(S, m, Fields(S, m)[k]).Some?
    decreases k - i
  {
    if i == k {
    } else {
      SizeHasParts(S, m, i + 1, k);
    }
  }

  /** Every conforming structure of the message fits a buffer of the given size. */
  ghost predicate Bounds(T: Table, d: nat, size: int) {
    forall ss :: Conforms(T, d, ss, false) ==> Encode(T, d, ss).Some? && |Encode(T, d, ss).value| <= size
  }

  /** The size of the generator is a bound exactly if it is not below the largest encoding. */
  lemma SizeBoundsIff(T: Table, S: Schema, d: nat)
    requires TableOk(T) && Compiled(T, S) && d < |T| && MessageSize(S, d, 0).Some?
    ensures Bounds(T, d, MessageSize(S, d, 0).value) <==> MaxMessage(T, d, 0) <= MessageSize(S, d, 0).value
  {
    SizedIsStatic(T, S, d);
    MostMessageAttains(T, d, 0);
    forall ss | Conforms(T, d, ss, false)
      ensures Encode(T, d, ss).Some? && |Encode(T, d, ss).value| <= MaxMessage(T, d, 0)
    {
      MessageWithin(T, d, ss, 0);
    }
  }

  /** A length takes one byte, and another for every 128 it counts at most. */
  lemma {:induction false} LengthOfLength(n: nat)
    ensures |Shortest(n)| <= 1 + n / 128
  {
    if n < 128 {
    } else {
      LengthOfLength(n / 128);
    }
  }

  /**
    A packed array fits the budget of the unpacked one: one tag and a length
    take no more than the tags they replace, except in an array of one.
   */
  lemma PackedFits(e: nat, t: nat, count: nat)
    requires 1 <= e <= 10 && t >= 1 && count >= 1
    ensures t + WithPrefix(e * count) <= (e + t) * count + if count == 1 then 1 else 0
  {
    var p := e * count;
    assert p <= 10 * count by { MulMonotone(e, 10, count); }
    LengthOfLength(p);
    MulMonotone(1, t, count - 1);
    Expand(e, t, count);
  }

  lemma Expand(e: int, t: int, n: int)
    ensures (e + t) * n == e * n + t * (n - 1) + t && t * (n - 1) == (n - 1) * t
  {
  }

  /** A byte array that never exceeds its budget: its C type is not padded, or there is slack for the padding. */
  predicate BytesFit(g: GenField) {
    || Unpadded(g)
    || (g.rule.RepeatedRule? && g.maxCount == 0)
    || (g.rule.RepeatedRule? && g.maxCount == 1 && OneSpare(g))
  }

  /** One byte of padding, which does not lengthen the prefix. */
  predicate OneSpare(g: GenField) {
    g.maxSize % 4 == 3 && |Shortest(g.maxSize + 1)| == |Shortest(g.maxSize)|
  }

  lemma PackedWithin(T: Table, S: Schema, d: nat, f: Field, g: GenField)
    requires FieldOk(T, d, f) && Describes(f, g) && g.isStatic && Packable(f.ltype) && f.htype.Repeated?
    ensures FieldSize(S, d, g).Some? && MaxSlot(T, d, f) <= FieldSize(S, d, g).value
  {
    var t, e := |Shortest(8 * g.tag)|, NumberSize(f.ltype, f.dataSize);
    assert FieldSize(S, d, g) == Some(WithTag(g, e));
    if f.arraySize == 0 { Times0(e + t); } else { PackedFits(e, t, f.arraySize); }
  }

  lemma Times0(x: int)
    ensures x * 0 == 0
  {
  }

  /** The budget of a field, by the budget of one value. */
  lemma Budget(T: Table, S: Schema, d: nat, f: Field, g: GenField)
    requires Describes(f, g) && FieldSize(S, d, g).Some?
    ensures FieldSize(S, d, g) == Some(WithTag(g, PayloadSize(S, g)))
  {
  }

  /** The largest form of a field is within its budget, but for padded byte arrays. */
  lemma FieldWithin(T: Table, S: Schema, d: nat, f: Field, g: GenField)
    requires FieldOk(T, d, f) && Describes(f, g) && FieldSize(S, d, g).Some?
    requires f.ltype.LSubmsg? ==> f.sub < d && MaxMessage(T, f.sub, 0) <= MessageSize(S, f.sub, 0).value
    requires Unpadded(g)
    ensures MaxSlot(T, d, f) <= FieldSize(S, d, g).value
  {
    if f.htype.Repeated? && Packable(f.ltype) {
      PackedWithin(T, S, d, f, g);
    } else {
      PayloadWithin(T, S, d, f, g);
      Budget(T, S, d, f, g);
      SlotBudget(T, d, f, g, PayloadSize(S, g));
    }
  }

  lemma SlotBudget(T: Table, d: nat, f: Field, g: GenField, size: int)
    requires FieldOk(T, d, f) && Describes(f, g) && g.isStatic && !(f.htype.Repeated? && Packable(f.ltype))
    requires MaxPayload(T, d, f) <= size
    ensures MaxSlot(T, d, f) <= WithTag(g, size)
  {
    var one := size + |Shortest(8 * g.tag)|;
    assert MaxRecord(T, d, f) <= one;
    if f.htype.Repeated? { MulMonotone(MaxRecord(T, d, f), one, g.maxCount); }
  }

  /** The generator's size of a value that is not packed. */
  function PayloadSize(S: Schema, g: GenField): int {
    if g.kind.Message? then
      match MessageSize(S, g.sub, 0)
      case None => 0
      case Some(size) => if size < 0 then 0 else WithPrefix(size)
    else LeafSize(g)
  }

  lemma PayloadWithin(T: Table, S: Schema, d: nat, f: Field, g: GenField)
    requires FieldOk(T, d, f) && Describes(f, g) && FieldSize(S, d, g).Some?
    requires f.ltype.LSubmsg? ==> f.sub < d && MaxMessage(T, f.sub, 0) <= MessageSize(S, f.sub, 0).value
    requires Unpadded(g)
    ensures MaxPayload(T, d, f) <= PayloadSize(S, g)
  {
    if f.ltype.LSubmsg? {
      DelimitedGrows(MaxMessage(T, f.sub, 0), MessageSize(S, f.sub, 0).value);
    } else if f.ltype.LBytes? {
      Padding(g.maxSize);
    } else if f.ltype.LString? {
      ShortestGrows(g.maxSize - 1, g.maxSize);
    }
  }

  /** Without padding the sizes of the generator are not below the largest encodings. */
  lemma {:induction false} UnpaddedWithin(T: Table, S: Schema, d: nat, i: nat)
    requires TableOk(T) && Compiled(T, S) && UnpaddedFrom(S, d) && d < |T| && MessageSize(S, d, i).Some?
    ensures MaxMessage(T, d, i) <= MessageSize(S, d, i).value
    decreases d, |At(T, d)| - i
  {
    assert DescribedMessage(T, S, d);
    if i >= |At(T, d)| {
    } else {
      var f, g := At(T, d)[i], Fields(S, d)[i];
      FieldOkAt(T, d, i);
      assert DescribedAt(T, S, d, i) && UnpaddedAt(S, d, i);
      if f.ltype.LSubmsg? { UnpaddedWithin(T, S, f.sub, 0); }
      FieldWithin(T, S, d, f, g);
      UnpaddedWithin(T, S, d, i + 1);
    }
  }

  /** The bound as the header file promises it: a buffer of that size is always large enough. */
  lemma EncodedSizeIsBound(T: Table, S: Schema, d: nat, ss: seq<Slot>)
    requires TableOk(T) && Compiled(T, S) && UnpaddedFrom(S, d) && d < |T|
    requires Conforms(T, d, ss, false) && MessageSize(S, d, 0).Some?
    ensures Encode(T, d, ss).Some? && |Encode(T, d, ss).value| <= MessageSize(S, d, 0).value
  {
    UnpaddedWithin(T, S, d, 0);
    SizeBoundsIff(T, S, d);
  }

  // ----- padded byte arrays -----

  /** Every conforming content of a field takes at most its budget. */
  ghost predicate FieldBounds(T: Table, d: nat, f: Field, size: int) {
    forall s :: ConformsSlot(T, d, f, s, false) ==> SlotForm(T, d, f, s).Some? && |SlotForm(T, d, f, s).value| <= size
  }

  /**
    For a byte array, single or repeated, the size is a bound exactly if its
    maximum is a multiple of four, unless it is an array of none, or of one
    whose spare byte the padding may use up. Otherwise the C type has room for
    more bytes, and both coders accept them.
   */
  lemma BytesBoundIff(T: Table, S: Schema, d: nat, f: Field, g: GenField)
    requires TableOk(T) && FieldOk(T, d, f) && Describes(f, g) && g.kind.Bytes? && g.isStatic
    ensures FieldSize(S, d, g).Some?
    ensures FieldBounds(T, d, f, FieldSize(S, d, g).value) <==> BytesFit(g)
  {
    var size := FieldSize(S, d, g).value;
    MostSlotAttains(T, d, f);
    forall s | ConformsSlot(T, d, f, s, false)
      ensures SlotForm(T, d, f, s).Some? && |SlotForm(T, d, f, s).value| <= MaxSlot(T, d, f)
    {
      SlotWithin(T, d, f, s);
    }
    BytesBudget(T, S, d, f, g);
  }

  lemma BytesRecord(T: Table, d: nat, f: Field, g: GenField)
    requires Describes(f, g) && g.kind.Bytes? && g.isStatic
    ensures MaxRecord(T, d, f) == |Shortest(8 * g.tag)| + WithPrefix(BytesSizeof(g.maxSize) - BYTES_OFFSET)
    ensures MaxPayload(T, d, f) == WithPrefix(BytesSizeof(g.maxSize) - BYTES_OFFSET)
  {
    Padding(g.maxSize);
  }

  lemma BytesSize(S: Schema, d: nat, g: GenField)
    requires g.kind.Bytes? && g.isStatic
    ensures FieldSize(S, d, g) == Some(WithTag(g, WithPrefix(g.maxSize)))
  {
  }

  lemma BytesBudget(T: Table, S: Schema, d: nat, f: Field, g: GenField)
    requires FieldOk(T, d, f) && Describes(f, g) && g.kind.Bytes? && g.isStatic
    ensures FieldSize(S, d, g).Some?
    ensures MaxSlot(T, d, f) <= FieldSize(S, d, g).value <==> BytesFit(g)
  {
    BytesSize(S, d, g);
    BytesRecord(T, d, f, g);
    if Unpadded(g) {
      Padding(g.maxSize);
      SlotBudget(T, d, f, g, WithPrefix(g.maxSize));
    } else {
      PaddedBudget(T, d, f, g);
    }
  }

  lemma PaddedBudget(T: Table, d: nat, f: Field, g: GenField)
    requires Describes(f, g) && g.kind.Bytes? && g.isStatic && !Unpadded(g)
    ensures MaxSlot(T, d, f) <= WithTag(g, WithPrefix(g.maxSize)) <==> BytesFit(g)
  {
    PaddedCost(T, d, f, g);
    PaddedSlot(T, d, f, g, MaxRecord(T, d, f), WithPrefix(g.maxSize) + |Shortest(8 * g.tag)|);
  }

  /** One value in the padded type against its budget. */
  lemma PaddedCost(T: Table, d: nat, f: Field, g: GenField)
    requires Describes(f, g) && g.kind.Bytes? && g.isStatic && !Unpadded(g)
    ensures var one := WithPrefix(g.maxSize) + |Shortest(8 * g.tag)|;
            && MaxRecord(T, d, f) > one
            && (MaxRecord(T, d, f) == one + 1 <==> OneSpare(g))
    ensures !AlwaysAbsent(T, d, f)
  {
    BytesRecord(T, d, f, g);
    Padding(g.maxSize);
    Spare(g.maxSize, g.maxSize + 4 - g.maxSize % 4);
  }

  lemma PaddedSlot(T: Table, d: nat, f: Field, g: GenField, most: nat, one: nat)
    requires Describes(f, g) && g.kind.Bytes? && g.isStatic && !Unpadded(g) && !AlwaysAbsent(T, d, f)
    requires most == MaxRecord(T, d, f) && one == WithPrefix(g.maxSize) + |Shortest(8 * g.tag)| && most > one
    requires most == one + 1 <==> OneSpare(g)
    ensures MaxSlot(T, d, f) <= WithTag(g, WithPrefix(g.maxSize)) <==> BytesFit(g)
  {
    if g.rule.RepeatedRule? { BudgetOfMany(most, one, g.maxCount); }
  }

  /** The room in the padded type. */
  lemma Padding(n: nat)
    ensures n % 4 == 0 ==> BytesSizeof(n) == BYTES_OFFSET + n
    ensures n % 4 != 0 ==> BytesSizeof(n) == BYTES_OFFSET + n + 4 - n % 4
  {
  }

  /** What the padding costs; it is one byte only for one byte of padding that does not lengthen the prefix. */
  lemma Spare(n: nat, room: nat)
    requires n % 4 != 0 && room == n + 4 - n % 4
    ensures WithPrefix(room) > WithPrefix(n)
    ensures WithPrefix(room) == WithPrefix(n) + 1 <==> n % 4 == 3 && |Shortest(n + 1)| == |Shortest(n)|
  {
    ShortestGrows(n, n + 1);
    ShortestGrows(n + 1, room);
  }

  lemma BudgetOfMany(most: nat, one: nat, count: nat)
    requires most > one
    ensures most * count <= one * count + (if count == 1 then 1 else 0)
         <==> count == 0 || (count == 1 && most == one + 1)
  {
    if count >= 2 {
      MulMonotone(one + 1, most, count);
      MulSuccessor(one, count);
    }
  }

  /** bytes max_size:5 in field 1 of a message of its own. */
  function PaddedSchema(): Schema {
    [[GenField(1, Bytes, RequiredRule, true, 5, 0, 0)]]
  }

  function PaddedTable(): Table {
    [Desc([Field(1, LBytes, Required, Static, 12, 1, 0, 0, 1, 0, None)])]
  }

  /** Its size is 7, but a message with eight bytes, which the C type has room for, takes 10. */
  lemma PaddingExceedsBudget()
    ensures TableOk(PaddedTable()) && Compiled(PaddedTable(), PaddedSchema())
    ensures MessageSize(PaddedSchema(), 0, 0) == Some(7)
    ensures Conforms(PaddedTable(), 0, [One(Blob(Zeros(8)))], false)
    ensures Encode(PaddedTable(), 0, [One(Blob(Zeros(8)))]).Some?
    ensures |Encode(PaddedTable(), 0, [One(Blob(Zeros(8)))]).value| == 10
  {
    var T, S, v := PaddedTable(), PaddedSchema(), Blob(Zeros(8));
    assert DescOk(T, 0) by { assert EntryOk(T, 0, 0); }
    assert DescribedMessage(T, S, 0) by { assert DescribedAt(T, S, 0, 0); }
    assert |Shortest(5)| == 1 && |Shortest(8)| == 1 && |Shortest(8 + WT_STRING)| == 1;
    assert MessageSize(S, 0, 1) == Some(0);
    assert EncodeFrom(T, 0, [One(v)], 1) == Some([]);
    assert |Record(T, At(T, 0)[0], v).value| == 10;
  }
}
