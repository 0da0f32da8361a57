/**
  The descriptor tables of pb.h: each field is packed into 1, 2, 4 or 8 words
  of 32 bits, and pb_common.c unpacks them. Shifts and masks are written as
  division and remainder; an OR of disjoint bit ranges is a sum.
 */
module Packing {
  import opened Wire
  import opened Descriptor
  import opened Arithmetic

  // ----- type bytes -----

  function LCode(l: LType): (c: nat)
    ensures c < 0x10
  {
    match l
    case LBool => 0x0 case LVarint => 0x1 case LUVarint => 0x2 case LSVarint => 0x3
    case LFixed32 => 0x4 case LFixed64 => 0x5 case LBytes => 0x6 case LString => 0x7
    case LSubmsg => 0x8 case LFixedBytes => 0xB
  }

  function TypeByte(f: Field): (t: nat)
    ensures t < 0x100
  {
    LCode(f.ltype) + HCode(f.htype) * 0x10 + ACode(f.atype) * 0x40
  }

  function HCode(h: HType): nat {
    match h case Required => 0 case Optional => 1 case Repeated => 2
  }

  function ACode(a: AType): nat {
    match a case Static => 0 case Pointer => 2
  }

  /** PB_LTYPE, PB_HTYPE and PB_ATYPE of a type byte. */
  function LTypeOf(t: nat): LType {
    match t % 0x10
    case 0x0 => LBool case 0x1 => LVarint case 0x2 => LUVarint case 0x3 => LSVarint
    case 0x4 => LFixed32 case 0x5 => LFixed64 case 0x6 => LBytes case 0x7 => LString
    case 0x8 => LSubmsg case _ => LFixedBytes
  }

  function HTypeOf(t: nat): HType {
    match t / 0x10 % 4 case 0 => Required case 1 => Optional case _ => Repeated
  }

  function ATypeOf(t: nat): AType {
    if t / 0x40 == 0 then Static else Pointer
  }

  lemma TypeByteRoundTrip(f: Field)
    ensures LTypeOf(TypeByte(f)) == f.ltype && HTypeOf(TypeByte(f)) == f.htype && ATypeOf(TypeByte(f)) == f.atype
  {
    var t, h, a := TypeByte(f), HCode(f.htype), ACode(f.atype);
    assert t == LCode(f.ltype) + (h + a * 4) * 0x10;
    Split(LCode(f.ltype), h + a * 4, 0x10);
    Split(h, a, 4);
    DivDiv(t, 0x10, 4);
  }

  /** The bytes of some members: a required string and int32, an array of structures, an optional pointer to one. */
  lemma TypeBytes(f: Field)
    ensures f.ltype == LString && f.htype == Required && f.atype == Static ==> TypeByte(f) == 0x07
    ensures f.ltype == LVarint && f.htype == Required && f.atype == Static ==> TypeByte(f) == 0x01
    ensures f.ltype == LSubmsg && f.htype == Repeated && f.atype == Static ==> TypeByte(f) == 0x28
    ensures f.ltype == LSubmsg && f.htype == Optional && f.atype == Pointer ==> TypeByte(f) == 0x98
    ensures LTypeOf(0x00) == LBool && LTypeOf(0x02) == LUVarint && LTypeOf(0x03) == LSVarint
    ensures LTypeOf(0x04) == LFixed32 && LTypeOf(0x05) == LFixed64 && LTypeOf(0x06) == LBytes
    ensures LTypeOf(0x0B) == LFixedBytes
  {
  }

  // ----- packing: PB_FIELDINFO_1/2/4/8 -----

  /** The two length bits, the low six tag bits and the type byte, common to all widths. */
  function Head(code: nat, f: Field): nat {
    code + f.tag * 4 % 0x100 + TypeByte(f) * 0x100
  }

  /** Word 1 of the wide forms: size_offset goes through int_least8_t and is sign-extended over the tag. */
  function WideTag(f: Field): nat {
    var low := f.sizeOffset % 0x100;
    if low < 0x80 then low + f.tag * 4 % TWO32 / 0x100 * 0x100 else low + 0xFFFF_FF00
  }

  function Pack(f: Field): (ws: seq<nat>)
    requires Fits(f)
    ensures |ws| == f.width && ws[0] % 4 < 4
  {
    if f.width == 1 then
      [Head(0, f) + f.dataOffset % 0x100 * 0x1_0000
       + f.sizeOffset % 0x10 * 0x100_0000 + f.dataSize % 0x10 * 0x1000_0000]
    else if f.width == 2 then
      [Head(1, f) + f.arraySize % 0x1000 * 0x1_0000 + f.sizeOffset % 0x10 * 0x1000_0000,
       f.dataOffset % 0x1_0000 + f.dataSize % 0x1000 * 0x1_0000 + f.tag % 0x400 / 0x40 * 0x1000_0000]
    else if f.width == 4 then
      [Head(2, f) + f.arraySize % 0x1_0000 * 0x1_0000, WideTag(f), f.dataOffset, f.dataSize]
    else
      [Head(3, f), WideTag(f), f.dataOffset, f.dataSize, f.arraySize, 0, 0, 0]
  }

  // ----- unpacking: load_descriptor_values -----

  /** What load_descriptor_values extracts from the words of a field. */
  datatype Entry = Entry(tag: nat, kind: nat, dataSize: nat, arraySize: nat, dataOffset: nat, sizeOffset: int)

  function EntryOf(f: Field): Entry {
    Entry(f.tag, TypeByte(f), f.dataSize, f.arraySize, f.dataOffset, f.sizeOffset)
  }

  /** 2 to the power of the length bits. */
  function WidthOf(word0: nat): nat {
    match word0 % 4 case 0 => 1 case 1 => 2 case 2 => 4 case _ => 8
  }

  function Int8(n: nat): int {
    if n % 0x100 < 0x80 then n % 0x100 else n % 0x100 - 0x100
  }

  function Unpack(ws: seq<nat>): Entry
    requires |ws| > 0 && |ws| >= WidthOf(ws[0])
  {
    var kind := ws[0] / 0x100 % 0x100;
    var low := ws[0] / 4 % 0x40;
    match ws[0] % 4
    case 0 => Entry(low, kind, ws[0] / 0x1000_0000 % 0x10, 1, ws[0] / 0x1_0000 % 0x100, ws[0] / 0x100_0000 % 0x10)
    case 1 => Entry(low + ws[1] / 0x1000_0000 * 0x40, kind, ws[1] / 0x1_0000 % 0x1000, ws[0] / 0x1_0000 % 0x1000,
                    ws[1] % 0x1_0000, ws[0] / 0x1000_0000 % 0x10)
    case 2 => Entry(low + ws[1] / 0x100 * 0x40, kind, ws[3], ws[0] / 0x1_0000, ws[2], Int8(ws[1]))
    case _ => Entry(low + ws[1] / 0x100 * 0x40, kind, ws[3], ws[4], ws[2], Int8(ws[1]))
  }

  /** Length bits, tag bits and type of a word whose low half is a head. */
  lemma HeadBits(code: nat, f: Field, above: nat)
    requires code < 4
    ensures var w := Head(code, f) + above * 0x1_0000;
            w % 4 == code && w / 4 % 0x40 == f.tag % 0x40 && w / 0x100 % 0x100 == TypeByte(f) && w / 0x1_0000 == above
  {
    var t, k := f.tag % 0x40, TypeByte(f);
    assert f.tag * 4 % 0x100 == t * 4;
    var w := Head(code, f) + above * 0x1_0000;
    assert w == code + (t + (k + above * 0x100) * 0x40) * 4;
    Split(code, t + (k + above * 0x100) * 0x40, 4);
    Split(t, k + above * 0x100, 0x40);
    assert w / 0x100 == w / 4 / 0x40 by { DivDiv(w, 4, 0x40); }
    Split(k, above, 0x100);
    assert w / 0x1_0000 == w / 0x100 / 0x100 by { DivDiv(w, 0x100, 0x100); }
  }

  /** Three ranges of 8, 4 and 4 bits above the low half of a word. */
  lemma UpperBits1(w: nat, offset: nat, sizeOffset: nat, size: nat)
    requires offset < 0x100 && sizeOffset < 0x10 && size < 0x10
    requires w / 0x1_0000 == offset + (sizeOffset + size * 0x10) * 0x100
    ensures w / 0x1_0000 % 0x100 == offset
    ensures w / 0x100_0000 % 0x10 == sizeOffset && w / 0x1000_0000 % 0x10 == size
  {
    Split(offset, sizeOffset + size * 0x10, 0x100);
    Split(sizeOffset, size, 0x10);
    assert w / 0x100_0000 == w / 0x1_0000 / 0x100 by { DivDiv(w, 0x1_0000, 0x100); }
    assert w / 0x1000_0000 == w / 0x100_0000 / 0x10 by { DivDiv(w, 0x100_0000, 0x10); }
  }

  lemma Unpack1(f: Field)
    requires Fits(f) && f.width == 1
    ensures WidthOf(Pack(f)[0]) == 1 && Unpack(Pack(f)) == EntryOf(f)
  {
    var above := f.dataOffset + (f.sizeOffset + f.dataSize * 0x10) * 0x100;
    var w := Head(0, f) + above * 0x1_0000;
    assert Pack(f) == [w] by {
      assert f.dataOffset % 0x100 == f.dataOffset;
      assert f.sizeOffset % 0x10 == f.sizeOffset && f.dataSize % 0x10 == f.dataSize;
    }
    HeadBits(0, f, above);
    UpperBits1(w, f.dataOffset, f.sizeOffset, f.dataSize);
    assert f.tag % 0x40 == f.tag;
  }

  /** Ranges of 12 and 4 bits, and of 16, 12 and 4 bits. */
  lemma UpperBits2(w: nat, v: nat, count: nat, sizeOffset: nat, offset: nat, size: nat, tag: nat)
    requires count < 0x1000 && sizeOffset < 0x10 && offset < 0x1_0000 && size < 0x1000
    requires w / 0x1_0000 == count + sizeOffset * 0x1000
    requires v == offset + (size + tag * 0x1000) * 0x1_0000
    ensures w / 0x1_0000 % 0x1000 == count && w / 0x1000_0000 % 0x10 == sizeOffset
    ensures v % 0x1_0000 == offset && v / 0x1_0000 % 0x1000 == size && v / 0x1000_0000 == tag
  {
    Split(count, sizeOffset, 0x1000);
    assert w / 0x1000_0000 == w / 0x1_0000 / 0x1000 by { DivDiv(w, 0x1_0000, 0x1000); }
    Split(offset, size + tag * 0x1000, 0x1_0000);
    Split(size, tag, 0x1000);
    assert v / 0x1000_0000 == v / 0x1_0000 / 0x1000 by { DivDiv(v, 0x1_0000, 0x1000); }
  }

  lemma Unpack2(f: Field)
    requires Fits(f) && f.width == 2
    ensures WidthOf(Pack(f)[0]) == 2 && Unpack(Pack(f)) == EntryOf(f)
  {
    var above := f.arraySize + f.sizeOffset * 0x1000;
    var w := Head(1, f) + above * 0x1_0000;
    var v := f.dataOffset + (f.dataSize + f.tag / 0x40 * 0x1000) * 0x1_0000;
    assert Pack(f) == [w, v] by {
      assert f.arraySize % 0x1000 == f.arraySize && f.sizeOffset % 0x10 == f.sizeOffset;
      assert f.dataOffset % 0x1_0000 == f.dataOffset && f.dataSize % 0x1000 == f.dataSize && f.tag % 0x400 == f.tag;
    }
    HeadBits(1, f, above);
    UpperBits2(w, v, f.arraySize, f.sizeOffset, f.dataOffset, f.dataSize, f.tag / 0x40);
  }

  lemma WideTagBits(f: Field)
    requires f.tag < 0x4000_0000 && f.sizeOffset < 0x100
    ensures Int8(WideTag(f)) == f.sizeOffset <==> f.sizeOffset < 0x80
    ensures f.sizeOffset < 0x80 ==> WideTag(f) / 0x100 == f.tag / 0x40
  {
    assert f.tag * 4 % TWO32 == f.tag * 4;
    assert f.tag * 4 / 0x100 == f.tag / 0x40;
  }

  lemma Unpack4(f: Field)
    requires Fits(f) && f.width == 4
    ensures WidthOf(Pack(f)[0]) == 4
    ensures Unpack(Pack(f)) == EntryOf(f) <==> f.sizeOffset < 0x80
  {
    assert f.arraySize % 0x1_0000 == f.arraySize;
    assert Pack(f)[0] == Head(2, f) + f.arraySize * 0x1_0000;
    HeadBits(2, f, f.arraySize);
    WideTagBits(f);
  }

  lemma Unpack8(f: Field)
    requires Fits(f) && f.width == 8
    ensures WidthOf(Pack(f)[0]) == 8
    ensures Unpack(Pack(f)) == EntryOf(f) <==> f.sizeOffset < 0x80
  {
    assert Pack(f)[0] == Head(3, f) + 0 * 0x1_0000;
    HeadBits(3, f, 0);
    WideTagBits(f);
  }

  /** Unpacking inverts packing for every field that fits, exactly when size_offset is below 128. */
  lemma UnpackOfPack(f: Field)
    requires Fits(f)
    ensures WidthOf(Pack(f)[0]) == f.width
    ensures Unpack(Pack(f)) == EntryOf(f) <==> f.sizeOffset < 0x80
  {
    match f.width
    case 1 => Unpack1(f);
    case 2 => Unpack2(f);
    case 4 => Unpack4(f);
    case _ => Unpack8(f);
  }

  /** Tag bits and type of the first word are the same in all widths. */
  lemma FirstWord(f: Field)
    requires Fits(f)
    ensures Pack(f)[0] / 4 % 0x40 == f.tag % 0x40 && Pack(f)[0] / 0x100 % 0x100 == TypeByte(f)
  {
    match f.width
    case 1 =>
      var above := f.dataOffset % 0x100 + f.sizeOffset % 0x10 * 0x100 + f.dataSize % 0x10 * 0x1000;
      assert Pack(f)[0] == Head(0, f) + above * 0x1_0000;
      HeadBits(0, f, above);
    case 2 =>
      var above := f.arraySize % 0x1000 + f.sizeOffset % 0x10 * 0x1000;
      assert Pack(f)[0] == Head(1, f) + above * 0x1_0000;
      HeadBits(1, f, above);
    case 4 => HeadBits(2, f, f.arraySize % 0x1_0000);
    case _ =>
      assert Pack(f)[0] == Head(3, f) + 0 * 0x1_0000;
      HeadBits(3, f, 0);
  }

  // ----- PB_BIND -----

  /** pb_msgdesc_t; submessage descriptors are named by their position in the table. */
  datatype MsgDesc = MsgDesc(
    fieldInfo: seq<nat>, submsgInfo: seq<nat>, fieldCount: nat, requiredCount: nat, largestTag: nat)

  predicate AllFit(fields: seq<Field>) {
    forall i :: 0 <= i < |fields| ==> FitsAt(fields, i)
  }

  /** Field i can be packed, unpacked again, and told from the cleared iterator. */
  predicate FitsAt(fields: seq<Field>, i: nat)
    requires i < |fields|
  {
    Fits(fields[i]) && fields[i].sizeOffset < 0x80 && fields[i].tag > 0
  }

  lemma AllFitTail(fields: seq<Field>)
    requires AllFit(fields) && fields != []
    ensures FitsAt(fields, 0) && AllFit(fields[1..])
  {
    forall i | 0 <= i < |fields[1..]| ensures FitsAt(fields[1..], i) { assert FitsAt(fields, i + 1); }
  }

  function PackAll(fields: seq<Field>): seq<nat>
    requires AllFit(fields)
  {
    if fields == [] then [0] else AllFitTail(fields); Pack(fields[0]) + PackAll(fields[1..])
  }

  function Subs(fields: seq<Field>): seq<nat> {
    if fields == [] then []
    else (if fields[0].ltype.LSubmsg? then [fields[0].sub] else []) + Subs(fields[1..])
  }

  /** 0 + (htype == REQUIRED) + ... */
  function RequiredCount(fields: seq<Field>): nat {
    if fields == [] then 0
    else RequiredCount(fields[..|fields| - 1]) + if fields[|fields| - 1].htype.Required? then 1 else 0
  }

  /** 0 * 0 + tag * 0 + tag ...: each step of PB_GEN_LARGEST_TAG forgets the sum so far. */
  function LargestTag(fields: seq<Field>): nat {
    if fields == [] then 0 else LargestTag(fields[..|fields| - 1]) * 0 + fields[|fields| - 1].tag
  }

  function Bind(fields: seq<Field>): MsgDesc
    requires AllFit(fields)
  {
    MsgDesc(PackAll(fields), Subs(fields), |fields|, RequiredCount(fields), LargestTag(fields))
  }

  /** Every descriptor of a table can be bound. */
  lemma BindableAt(T: Table, d: nat)
    requires TableOk(T)
    ensures AllFit(At(T, d)) && Sorted(At(T, d))
  {
    SortedAt(T, d);
    forall i | 0 <= i < |At(T, d)| ensures FitsAt(At(T, d), i) { FieldOkAt(T, d, i); }
  }

  /** In a sorted list the last tag is the largest. */
  lemma LargestTagIsLargest(fields: seq<Field>)
    requires Sorted(fields)
    ensures forall i :: 0 <= i < |fields| ==> fields[i].tag <= LargestTag(fields)
    ensures fields != [] ==> exists i :: 0 <= i < |fields| && fields[i].tag == LargestTag(fields)
  {
    if fields != [] {
      var last := |fields| - 1;
      assert fields[last].tag == LargestTag(fields);
      forall i | 0 <= i < last ensures fields[i].tag < fields[last].tag { assert Precedes(fields, i, last); }
    }
  }

  lemma {:induction false} RequiredCountIsRank(fields: seq<Field>)
    ensures RequiredCount(fields) == Rank(fields, |fields|)
  {
    if fields == [] {
    } else {
      var init := fields[..|fields| - 1];
      RequiredCountIsRank(init);
      RankOfPrefix(init, fields, |init|);
    }
  }

  lemma {:induction false} RankOfPrefix(p: seq<Field>, fields: seq<Field>, i: nat)
    requires p <= fields && i <= |p|
    ensures Rank(p, i) == Rank(fields, i)
  {
    if i == 0 {
    } else {
      RankOfPrefix(p, fields, i - 1);
    }
  }

  // ----- where things are in the tables -----

  /** Sum of the widths of the first i fields. */
  function WordsBefore(fields: seq<Field>, i: nat): nat
    requires i <= |fields|
  {
    if i == 0 then 0 else WordsBefore(fields, i - 1) + fields[i - 1].width
  }

  /** Number of submessage fields among the first i. */
  function SubsBefore(fields: seq<Field>, i: nat): nat
    requires i <= |fields|
  {
    if i == 0 then 0 else SubsBefore(fields, i - 1) + if fields[i - 1].ltype.LSubmsg? then 1 else 0
  }

  lemma {:induction false} WordsBeforeShift(fields: seq<Field>, i: nat)
    requires 0 < i <= |fields|
    ensures WordsBefore(fields, i) == fields[0].width + WordsBefore(fields[1..], i - 1)
    ensures SubsBefore(fields, i) == (if fields[0].ltype.LSubmsg? then 1 else 0) + SubsBefore(fields[1..], i - 1)
    decreases i
  {
    if i <= 1 {
    } else {
      WordsBeforeShift(fields, i - 1);
    }
  }

  /** From position `at` on, ws holds the words w. */
  ghost predicate Holds(ws: seq<nat>, at: nat, w: seq<nat>) {
    at + |w| <= |ws| && ws[at..at + |w|] == w
  }

  lemma HoldsBehind(p: seq<nat>, ws: seq<nat>, at: nat, w: seq<nat>)
    ensures Holds(p + ws, 0, p)
    ensures Holds(ws, at, w) ==> Holds(p + ws, |p| + at, w)
  {
    assert (p + ws)[0..|p|] == p;
    if Holds(ws, at, w) { assert (p + ws)[|p| + at..|p| + at + |w|] == ws[at..at + |w|]; }
  }

  lemma PackAllSplit(fields: seq<Field>)
    requires AllFit(fields) && fields != []
    ensures FitsAt(fields, 0) && AllFit(fields[1..]) && PackAll(fields) == Pack(fields[0]) + PackAll(fields[1..])
    ensures |Pack(fields[0])| == fields[0].width
  {
    AllFitTail(fields);
  }

  /** The words of field i start at the sum of the widths before it. */
  lemma {:induction false} WordsAt(fields: seq<Field>, i: nat)
    requires AllFit(fields) && i < |fields|
    ensures FitsAt(fields, i) && |Pack(fields[i])| == fields[i].width
    ensures Holds(PackAll(fields), WordsBefore(fields, i), Pack(fields[i]))
    decreases |fields|
  {
    PackAllSplit(fields);
    var p, ws := Pack(fields[0]), PackAll(fields[1..]);
    if i == 0 {
      HoldsBehind(p, ws, 0, p);
    } else {
      WordsAt(fields[1..], i - 1);
      WordsBeforeShift(fields, i);
      HoldsBehind(p, ws, WordsBefore(fields[1..], i - 1), Pack(fields[i]));
    }
  }

  lemma {:induction false} SubsAt(fields: seq<Field>, i: nat)
    requires i < |fields| && fields[i].ltype.LSubmsg?
    ensures SubsBefore(fields, i) < |Subs(fields)|
    ensures Subs(fields)[SubsBefore(fields, i)] == fields[i].sub
    decreases |fields|
  {
    if i == 0 {
    } else {
      SubsAt(fields[1..], i - 1);
      WordsBeforeShift(fields, i);
    }
  }
}
