/**
  The query protocol on the wire: which structures are its messages, and their
  bytes with the tags of message.proto in figures, field after field.
 */
module QueryBytes {
  import opened Wire
  import opened Varint
  import opened Descriptor
  import opened Encoding
  import opened Decoding
  import opened WrittenForms
  import opened QueryMessage
  import Packing

  // ----- the messages -----

  /** A member of 1024 characters, the last of them a NUL. */
  predicate IsText(s: Slot) {
    s.One? && s.v.Blob? && |s.v.bytes| < 1024 && forall i :: 0 <= i < |s.v.bytes| ==> s.v.bytes[i] != 0
  }

  predicate IsNumber(s: Slot, low: int, high: int) {
    s.One? && s.v.Num? && low <= s.v.n < high
  }

  predicate IsInt32(s: Slot) {
    IsNumber(s, -0x8000_0000, 0x8000_0000)
  }

  predicate IsKeyValuePair(m: seq<Slot>) {
    && |m| == 5 && IsText(m[0]) && IsInt32(m[1]) && IsNumber(m[2], -0x8000_0000_0000_0000, 0x8000_0000_0000_0000)
    && IsNumber(m[3], 0, 0x1_0000_0000) && IsText(m[4])
  }

  /** A member that is a key-value pair. */
  predicate HoldsPair(s: Slot) {
    s.One? && s.v.Msg? && IsKeyValuePair(s.v.slots)
  }

  predicate IsValueSetting(m: seq<Slot>) {
    |m| == 1 && HoldsPair(m[0])
  }

  predicate IsComparator(m: seq<Slot>) {
    |m| == 2 && IsInt32(m[0]) && HoldsPair(m[1])
  }

  predicate HoldsComparator(v: Value) {
    v.Msg? && IsComparator(v.slots)
  }

  predicate IsFilter(m: seq<Slot>) {
    |m| == 1 && m[0].Many? && |m[0].items| <= 20 && forall i :: 0 <= i < |m[0].items| ==> HoldsComparator(m[0].items[i])
  }

  predicate HoldsFilter(v: Value) {
    v.Msg? && IsFilter(v.slots)
  }

  predicate HoldsSetting(v: Value) {
    v.Msg? && IsValueSetting(v.slots)
  }

  predicate IsQuery(m: seq<Slot>) {
    && |m| == 3 && IsInt32(m[0])
    && m[1].Many? && |m[1].items| <= 20 && (forall i :: 0 <= i < |m[1].items| ==> HoldsFilter(m[1].items[i]))
    && m[2].Many? && |m[2].items| <= 20 && (forall i :: 0 <= i < |m[2].items| ==> HoldsSetting(m[2].items[i]))
  }

  predicate IsResponse(m: seq<Slot>) {
    |m| == 2 && IsText(m[0]) && IsInt32(m[1])
  }

  // ----- their bytes -----

  function Delimited(bs: seq<byte>): seq<byte> {
    Shortest(|bs|) + bs
  }

  function Text(s: Slot): seq<byte>
    requires IsText(s)
  {
    Delimited(s.v.bytes)
  }

  /** A signed number, as a word of 64 bits. */
  function Signed64(s: Slot): seq<byte>
    requires IsNumber(s, -0x8000_0000_0000_0000, 0x8000_0000_0000_0000)
  {
    Shortest(if s.v.n < 0 then s.v.n + 0x1_0000_0000_0000_0000 else s.v.n)
  }

  function Bits32(s: Slot): seq<byte>
    requires IsNumber(s, 0, 0x1_0000_0000)
  {
    [s.v.n % 0x100, s.v.n / 0x100 % 0x100, s.v.n / 0x1_0000 % 0x100, s.v.n / 0x100_0000]
  }

  function KeyValuePairBytes(m: seq<Slot>): seq<byte>
    requires IsKeyValuePair(m)
  {
    ([0x0A] + Text(m[0])) + (([0x10] + Signed64(m[1])) + (([0x18] + Signed64(m[2]))
      + (([0x25] + Bits32(m[3])) + ([0x2A] + Text(m[4])))))
  }

  function PairBytes(s: Slot): seq<byte>
    requires HoldsPair(s)
  {
    Delimited(KeyValuePairBytes(s.v.slots))
  }

  function ValueSettingBytes(m: seq<Slot>): seq<byte>
    requires IsValueSetting(m)
  {
    [0x0A] + PairBytes(m[0])
  }

  function ComparatorBytes(m: seq<Slot>): seq<byte>
    requires IsComparator(m)
  {
    ([0x08] + Signed64(m[0])) + ([0x12] + PairBytes(m[1]))
  }

  function Comparators(items: seq<Value>): (forms: seq<seq<byte>>)
    requires forall i :: 0 <= i < |items| ==> HoldsComparator(items[i])
    ensures |forms| == |items|
  {
    seq(|items|, i requires 0 <= i < |items| && HoldsComparator(items[i]) => Delimited(ComparatorBytes(items[i].slots)))
  }

  function FilterBytes(m: seq<Slot>): seq<byte>
    requires IsFilter(m)
  {
    Each([0x0A], Comparators(m[0].items))
  }

  function Filters(items: seq<Value>): (forms: seq<seq<byte>>)
    requires forall i :: 0 <= i < |items| ==> HoldsFilter(items[i])
    ensures |forms| == |items|
  {
    seq(|items|, i requires 0 <= i < |items| && HoldsFilter(items[i]) => Delimited(FilterBytes(items[i].slots)))
  }

  function Settings(items: seq<Value>): (forms: seq<seq<byte>>)
    requires forall i :: 0 <= i < |items| ==> HoldsSetting(items[i])
    ensures |forms| == |items|
  {
    seq(|items|, i requires 0 <= i < |items| && HoldsSetting(items[i]) => Delimited(ValueSettingBytes(items[i].slots)))
  }

  function QueryBytes(m: seq<Slot>): seq<byte>
    requires IsQuery(m)
  {
    ([0x08] + Signed64(m[0])) + (Each([0x12], Filters(m[1].items)) + Each([0x1A], Settings(m[2].items)))
  }

  function ResponseBytes(m: seq<Slot>): seq<byte>
    requires IsResponse(m)
  {
    ([0x0A] + Text(m[0])) + ([0x10] + Signed64(m[1]))
  }

  // ----- single members -----

  lemma TextForm(d: nat, f: Field, s: Slot)
    requires f.ltype.LString? && f.atype.Static? && f.dataSize == 1024 && f.htype.Required? && 0 < f.tag < 16
    requires IsText(s)
    ensures SlotForm(Descriptors(), d, f, s) == Some([8 * f.tag + 2] + Text(s))
  {
    BlobIsWritten(Descriptors(), f, s.v.bytes);
    assert s.v == Blob(s.v.bytes);
  }

  lemma NumberForm(d: nat, f: Field, s: Slot)
    requires f.ltype.LVarint? && SizeOk(f) && f.htype.Required? && 0 < f.tag < 16
    requires IsNumber(s, -0x8000_0000_0000_0000, 0x8000_0000_0000_0000)
    ensures SlotForm(Descriptors(), d, f, s) == Some([8 * f.tag] + Signed64(s))
  {
    NumberIsWritten(Descriptors(), f, s.v.n);
    assert s.v == Num(s.v.n);
  }

  lemma FloatForm(d: nat, f: Field, s: Slot)
    requires f.ltype.LFixed32? && f.dataSize == 4 && f.htype.Required? && 0 < f.tag < 15
    requires IsNumber(s, 0, 0x1_0000_0000)
    ensures SlotForm(Descriptors(), d, f, s) == Some([8 * f.tag + 5] + Bits32(s))
  {
    Fixed32IsWritten(Descriptors(), f, s.v.n);
    assert s.v == Num(s.v.n);
  }

  lemma PairForm(d: nat, f: Field, s: Slot)
    requires f.ltype.LSubmsg? && f.sub == 0 && f.htype.Required? && 0 < f.tag < 16 && HoldsPair(s)
    ensures SlotForm(Descriptors(), d, f, s) == Some([8 * f.tag + 2] + PairBytes(s))
  {
    KeyValuePairForm(s.v.slots);
    MessageIsWritten(Descriptors(), f, s.v.slots);
  }

  // ----- whole messages -----

  lemma JoinOne(a: seq<byte>)
    ensures Each([], [a]) == a
  {
  }

  lemma JoinTwo(a: seq<byte>, b: seq<byte>)
    ensures Each([], [a, b]) == a + b
  {
    assert [a, b][1..] == [b];
    JoinOne(b);
  }

  lemma JoinThree(a: seq<byte>, b: seq<byte>, c: seq<byte>)
    ensures Each([], [a, b, c]) == a + (b + c)
  {
    assert [a, b, c][1..] == [b, c];
    JoinTwo(b, c);
  }

  lemma JoinFive(a: seq<byte>, b: seq<byte>, c: seq<byte>, d: seq<byte>, e: seq<byte>)
    ensures Each([], [a, b, c, d, e]) == a + (b + (c + (d + e)))
  {
    assert [a, b, c, d, e][1..] == [b, c, d, e] && [b, c, d, e][1..] == [c, d, e];
    JoinThree(c, d, e);
  }

  lemma KeyValuePairForm(m: seq<Slot>)
    requires IsKeyValuePair(m)
    ensures Encode(Descriptors(), 0, m) == Some(KeyValuePairBytes(m))
  {
    var fs := At(Descriptors(), 0);
    TextForm(0, fs[0], m[0]);
    NumberForm(0, fs[1], m[1]);
    NumberForm(0, fs[2], m[2]);
    FloatForm(0, fs[3], m[3]);
    TextForm(0, fs[4], m[4]);
    var a, b, c, d, e :=
      [0x0A] + Text(m[0]), [0x10] + Signed64(m[1]), [0x18] + Signed64(m[2]), [0x25] + Bits32(m[3]), [0x2A] + Text(m[4]);
    MembersAreJoined(Descriptors(), 0, m, 0, [a, b, c, d, e]);
    JoinFive(a, b, c, d, e);
  }

  lemma ResponseForm(m: seq<Slot>)
    requires IsResponse(m)
    ensures Encode(Descriptors(), 5, m) == Some(ResponseBytes(m))
  {
    var fs := At(Descriptors(), 5);
    TextForm(5, fs[0], m[0]);
    NumberForm(5, fs[1], m[1]);
    var a, b := [0x0A] + Text(m[0]), [0x10] + Signed64(m[1]);
    MembersAreJoined(Descriptors(), 5, m, 0, [a, b]);
    JoinTwo(a, b);
  }

  lemma ValueSettingForm(m: seq<Slot>)
    requires IsValueSetting(m)
    ensures Encode(Descriptors(), 1, m) == Some(ValueSettingBytes(m))
  {
    PairForm(1, At(Descriptors(), 1)[0], m[0]);
    var a := [0x0A] + PairBytes(m[0]);
    MembersAreJoined(Descriptors(), 1, m, 0, [a]);
    JoinOne(a);
  }

  lemma ComparatorForm(m: seq<Slot>)
    requires IsComparator(m)
    ensures Encode(Descriptors(), 2, m) == Some(ComparatorBytes(m))
  {
    var fs := At(Descriptors(), 2);
    NumberForm(2, fs[0], m[0]);
    PairForm(2, fs[1], m[1]);
    var a, b := [0x08] + Signed64(m[0]), [0x12] + PairBytes(m[1]);
    MembersAreJoined(Descriptors(), 2, m, 0, [a, b]);
    JoinTwo(a, b);
  }

  /** An array of messages of at most 20 entries, each with its tag and length. */
  lemma MessagesForm(d: nat, f: Field, items: seq<Value>, forms: seq<seq<byte>>)
    requires f.ltype.LSubmsg? && f.arraySize == 20 && 0 < f.tag < 16 && |forms| == |items| <= 20
    requires forall i :: 0 <= i < |items| ==> Payload(Descriptors(), f, items[i]) == Some(forms[i])
    ensures SlotForm(Descriptors(), d, f, Many(items)) == Some(Each([8 * f.tag + 2], forms))
  {
    ArrayIsWritten(Descriptors(), f, items, forms);
  }

  lemma FilterForm(m: seq<Slot>)
    requires IsFilter(m)
    ensures Encode(Descriptors(), 3, m) == Some(FilterBytes(m))
  {
    var f, items := At(Descriptors(), 3)[0], m[0].items;
    forall i | 0 <= i < |items| ensures Payload(Descriptors(), f, items[i]) == Some(Comparators(items)[i]) {
      ComparatorForm(items[i].slots);
    }
    MessagesForm(3, f, items, Comparators(items));
    MembersAreJoined(Descriptors(), 3, m, 0, [FilterBytes(m)]);
    JoinOne(FilterBytes(m));
  }

  lemma FiltersForm(f: Field, s: Slot)
    requires f == At(Descriptors(), 4)[1] && s.Many? && |s.items| <= 20
    requires forall i :: 0 <= i < |s.items| ==> HoldsFilter(s.items[i])
    ensures SlotForm(Descriptors(), 4, f, s) == Some(Each([0x12], Filters(s.items)))
  {
    forall i | 0 <= i < |s.items| ensures Payload(Descriptors(), f, s.items[i]) == Some(Filters(s.items)[i]) {
      FilterForm(s.items[i].slots);
    }
    MessagesForm(4, f, s.items, Filters(s.items));
  }

  lemma SettingsForm(f: Field, s: Slot)
    requires f == At(Descriptors(), 4)[2] && s.Many? && |s.items| <= 20
    requires forall i :: 0 <= i < |s.items| ==> HoldsSetting(s.items[i])
    ensures SlotForm(Descriptors(), 4, f, s) == Some(Each([0x1A], Settings(s.items)))
  {
    forall i | 0 <= i < |s.items| ensures Payload(Descriptors(), f, s.items[i]) == Some(Settings(s.items)[i]) {
      ValueSettingForm(s.items[i].slots);
    }
    MessagesForm(4, f, s.items, Settings(s.items));
  }

  lemma JoinMembers(d: nat, m: seq<Slot>, a: seq<byte>, b: seq<byte>, c: seq<byte>)
    requires |m| == |At(Descriptors(), d)| == 3
    requires SlotForm(Descriptors(), d, At(Descriptors(), d)[0], m[0]) == Some(a)
    requires SlotForm(Descriptors(), d, At(Descriptors(), d)[1], m[1]) == Some(b)
    requires SlotForm(Descriptors(), d, At(Descriptors(), d)[2], m[2]) == Some(c)
    ensures Encode(Descriptors(), d, m) == Some(a + (b + c))
  {
    MembersAreJoined(Descriptors(), d, m, 0, [a, b, c]);
    JoinThree(a, b, c);
  }

  lemma QueryForm(m: seq<Slot>)
    requires IsQuery(m)
    ensures Encode(Descriptors(), 4, m) == Some(QueryBytes(m))
  {
    var fs := At(Descriptors(), 4);
    NumberForm(4, fs[0], m[0]);
    FiltersForm(fs[1], m[1]);
    SettingsForm(fs[2], m[2]);
    JoinMembers(4, m, [0x08] + Signed64(m[0]), Each([0x12], Filters(m[1].items)), Each([0x1A], Settings(m[2].items)));
  }

  // ----- these are all the messages -----

  lemma TextConforms(d: nat, f: Field, s: Slot)
    requires f.ltype.LString? && f.atype.Static? && f.dataSize == 1024 && f.htype.Required? && f.sizeOffset == 0
    ensures ConformsSlot(Descriptors(), d, f, s, false) <==> IsText(s)
  {
  }

  lemma NumberConforms(d: nat, f: Field, s: Slot)
    requires f.atype.Static? && f.htype.Required? && f.sizeOffset == 0
    requires (f.ltype.LVarint? && (f.dataSize == 4 || f.dataSize == 8)) || f.ltype.LFixed32?
    ensures ConformsSlot(Descriptors(), d, f, s, false) <==>
              if f.ltype.LFixed32? then IsNumber(s, 0, 0x1_0000_0000)
              else if f.dataSize == 4 then IsInt32(s)
              else IsNumber(s, -0x8000_0000_0000_0000, 0x8000_0000_0000_0000)
  {
  }

  lemma KeyValuePairConforms(m: seq<Slot>)
    ensures Conforms(Descriptors(), 0, m, false) <==> IsKeyValuePair(m)
  {
    var fs := At(Descriptors(), 0);
    if |m| == 5 {
      TextConforms(0, fs[0], m[0]);
      NumberConforms(0, fs[1], m[1]);
      NumberConforms(0, fs[2], m[2]);
      NumberConforms(0, fs[3], m[3]);
      TextConforms(0, fs[4], m[4]);
    }
  }

  lemma PairConforms(d: nat, f: Field, s: Slot)
    requires f.ltype.LSubmsg? && f.sub == 0 && f.atype.Static? && f.htype.Required? && f.sizeOffset == 0
    ensures ConformsSlot(Descriptors(), d, f, s, false) <==> HoldsPair(s)
  {
    if s.One? && s.v.Msg? { KeyValuePairConforms(s.v.slots); }
  }

  lemma ValueSettingConforms(m: seq<Slot>)
    ensures Conforms(Descriptors(), 1, m, false) <==> IsValueSetting(m)
  {
    if |m| == 1 { PairConforms(1, At(Descriptors(), 1)[0], m[0]); }
  }

  lemma ComparatorConforms(m: seq<Slot>)
    ensures Conforms(Descriptors(), 2, m, false) <==> IsComparator(m)
  {
    var fs := At(Descriptors(), 2);
    if |m| == 2 {
      NumberConforms(2, fs[0], m[0]);
      PairConforms(2, fs[1], m[1]);
    }
  }

  lemma ResponseConforms(m: seq<Slot>)
    ensures Conforms(Descriptors(), 5, m, false) <==> IsResponse(m)
  {
    var fs := At(Descriptors(), 5);
    if |m| == 2 {
      TextConforms(5, fs[0], m[0]);
      NumberConforms(5, fs[1], m[1]);
    }
  }

  lemma FilterConforms(m: seq<Slot>)
    ensures Conforms(Descriptors(), 3, m, false) <==> IsFilter(m)
  {
    var f := At(Descriptors(), 3)[0];
    if |m| == 1 && m[0].Many? {
      var items := m[0].items;
      forall i | 0 <= i < |items|
        ensures ConformsValue(Descriptors(), f, items[i], false) <==> HoldsComparator(items[i])
      {
        if items[i].Msg? { ComparatorConforms(items[i].slots); }
      }
      assert ConformsSlot(Descriptors(), 3, f, m[0], false) <==> IsFilter(m);
    }
  }

  lemma FiltersConform(f: Field, s: Slot)
    requires f == At(Descriptors(), 4)[1]
    ensures ConformsSlot(Descriptors(), 4, f, s, false) <==>
              s.Many? && |s.items| <= 20 && forall i :: 0 <= i < |s.items| ==> HoldsFilter(s.items[i])
  {
    if s.Many? {
      forall i | 0 <= i < |s.items|
        ensures ConformsValue(Descriptors(), f, s.items[i], false) <==> HoldsFilter(s.items[i])
      {
        if s.items[i].Msg? { FilterConforms(s.items[i].slots); }
      }
    }
  }

  lemma SettingsConform(f: Field, s: Slot)
    requires f == At(Descriptors(), 4)[2]
    ensures ConformsSlot(Descriptors(), 4, f, s, false) <==>
              s.Many? && |s.items| <= 20 && forall i :: 0 <= i < |s.items| ==> HoldsSetting(s.items[i])
  {
    if s.Many? {
      forall i | 0 <= i < |s.items|
        ensures ConformsValue(Descriptors(), f, s.items[i], false) <==> HoldsSetting(s.items[i])
      {
        if s.items[i].Msg? { ValueSettingConforms(s.items[i].slots); }
      }
    }
  }

  lemma QueryConforms(m: seq<Slot>)
    ensures Conforms(Descriptors(), 4, m, false) <==> IsQuery(m)
  {
    var fs := At(Descriptors(), 4);
    if |m| == 3 {
      NumberConforms(4, fs[0], m[0]);
      FiltersConform(fs[1], m[1]);
      SettingsConform(fs[2], m[2]);
    }
  }

  // ----- the protocol -----

  /** The messages by the position of their descriptors. */
  predicate IsMessage(d: nat, m: seq<Slot>) {
    match d
    case 0 => IsKeyValuePair(m)
    case 1 => IsValueSetting(m)
    case 2 => IsComparator(m)
    case 3 => IsFilter(m)
    case 4 => IsQuery(m)
    case 5 => IsResponse(m)
    case _ => false
  }

  function MessageBytes(d: nat, m: seq<Slot>): seq<byte>
    requires IsMessage(d, m)
  {
    match d
    case 0 => KeyValuePairBytes(m)
    case 1 => ValueSettingBytes(m)
    case 2 => ComparatorBytes(m)
    case 3 => FilterBytes(m)
    case 4 => QueryBytes(m)
    case 5 => ResponseBytes(m)
  }

  /** The descriptors admit exactly the structures of message.proto. */
  lemma MessagesConform(d: nat, m: seq<Slot>)
    requires d < 6
    ensures Conforms(Descriptors(), d, m, false) <==> IsMessage(d, m)
  {
    match d
    case 0 => KeyValuePairConforms(m);
    case 1 => ValueSettingConforms(m);
    case 2 => ComparatorConforms(m);
    case 3 => FilterConforms(m);
    case 4 => QueryConforms(m);
    case 5 => ResponseConforms(m);
  }

  /** Each is encoded in exactly its bytes, and decoding those gives it back. */
  lemma ProtocolBytes(d: nat, m: seq<Slot>)
    requires IsMessage(d, m)
    ensures Encode(Descriptors(), d, m) == Some(MessageBytes(d, m))
    ensures Decode(Descriptors(), d, MessageBytes(d, m)) == Some(m)
  {
    MessageForm(d, m);
    MessagesConform(d, m);
    ProtocolRoundTrip(d, m);
  }

  lemma MessageForm(d: nat, m: seq<Slot>)
    requires IsMessage(d, m)
    ensures Encode(Descriptors(), d, m) == Some(MessageBytes(d, m))
  {
    match d
    case 0 => KeyValuePairForm(m);
    case 1 => ValueSettingForm(m);
    case 2 => ComparatorForm(m);
    case 3 => FilterForm(m);
    case 4 => QueryForm(m);
    case 5 => ResponseForm(m);
  }

  /** The shortest Response: an empty text and the number zero. */
  lemma SmallestResponse()
    ensures Encode(Descriptors(), 5, [One(Blob([])), One(Num(0))]) == Some([0x0A, 0x00, 0x10, 0x00])
    ensures Decode(Descriptors(), 5, [0x0A, 0x00, 0x10, 0x00]) == Some([One(Blob([])), One(Num(0))])
  {
    var m := [One(Blob([])), One(Num(0))];
    ProtocolBytes(5, m);
    assert MessageBytes(5, m) == [0x0A, 0x00, 0x10, 0x00];
  }

  /** The words that PB_BIND makes of Response.rString. */
  lemma TextWords(f: Field)
    requires f == Member(1, LString, 1024, 0, 2, 0)
    ensures At(Descriptors(), 5)[0] == f && Packing.Pack(f) == [0x0001_0705, 0x0400_0000]
  {
    assert Packing.TypeByte(f) == 0x07;
    assert Packing.Head(1, f) == 0x0705;
  }

  /** And of Filter.compList. */
  lemma ArrayWords(f: Field)
    requires f == Array(1, 2080, 8, 8, 2)
    ensures At(Descriptors(), 3)[0] == f && Packing.Pack(f) == [0x0014_2806, 8, 8, 2080]
  {
    assert Packing.TypeByte(f) == 0x28;
    assert Packing.Head(2, f) == 0x2806;
    assert Packing.WideTag(f) == 8;
  }
}
