/**
  The query protocol of the database: the field lists of message.pb.h as
  generator input and as compiled descriptors, and the sizes the header claims.
 */
module QueryMessage {
  import opened Wire
  import opened Varint
  import opened Descriptor
  import opened Encoding
  import opened Decoding
  import opened RequiredPointers
  import opened RoundTrip
  import opened InputStream
  import opened OutputStream
  import opened Defaults
  import opened Decoder
  import opened Encoder
  import opened SizeBound

  const KEY_VALUE_PAIR: nat := 0
  const VALUE_SETTING: nat := 1
  const COMPARATOR: nat := 2
  const FILTER: nat := 3
  const QUERY: nat := 4
  const RESPONSE: nat := 5

  function Gen(tag: nat, kind: Kind, rule: Rule, sub: nat): GenField {
    GenField(tag, kind, rule, true, 1024, 20, sub)
  }

  const INT32: Kind := Number(LVarint, 4)
  const INT64: Kind := Number(LVarint, 8)
  const FLOAT: Kind := Number(LFixed32, 4)

  /** message.proto with max_size:1024 and max_count:20 from message.options, fields by tag. */
  function Protocol(): Schema {
    [
      [Gen(1, Text, RequiredRule, 0), Gen(2, INT32, RequiredRule, 0), Gen(3, INT64, RequiredRule, 0),
       Gen(4, FLOAT, RequiredRule, 0), Gen(5, Text, RequiredRule, 0)],
      [Gen(1, Message, RequiredRule, KEY_VALUE_PAIR)],
      [Gen(1, INT32, RequiredRule, 0), Gen(2, Message, RequiredRule, KEY_VALUE_PAIR)],
      [Gen(1, Message, RepeatedRule, COMPARATOR)],
      [Gen(1, INT32, RequiredRule, 0), Gen(2, Message, RepeatedRule, FILTER),
       Gen(3, Message, RepeatedRule, VALUE_SETTING)],
      [Gen(1, Text, RequiredRule, 0), Gen(2, INT32, RequiredRule, 0)]
    ]
  }

  /** A required member of a structure whose descriptor has two words a field. */
  function Member(tag: nat, ltype: LType, size: nat, offset: nat, width: nat, sub: nat): Field {
    Field(tag, ltype, Required, Static, size, 1, offset, 0, width, sub, None)
  }

  /** An array of 20 structures, its count `gap` bytes before it. */
  function Array(tag: nat, size: nat, offset: nat, gap: nat, sub: nat): Field {
    Field(tag, LSubmsg, Repeated, Static, size, 20, offset, gap, 4, sub, None)
  }

  /** What PB_BIND makes of them, with the member sizes and offsets of a 64-bit ABI. */
  function Descriptors(): Table {
    [
      Desc([Member(1, LString, 1024, 0, 2, 0), Member(2, LVarint, 4, 1024, 2, 0), Member(3, LVarint, 8, 1032, 2, 0),
            Member(4, LFixed32, 4, 1040, 2, 0), Member(5, LString, 1024, 1044, 2, 0)]),
      Desc([Member(1, LSubmsg, 2072, 0, 2, KEY_VALUE_PAIR)]),
      Desc([Member(1, LVarint, 4, 0, 2, 0), Member(2, LSubmsg, 2072, 8, 2, KEY_VALUE_PAIR)]),
      Desc([Array(1, 2080, 8, 8, COMPARATOR)]),
      Desc([Member(1, LVarint, 4, 0, 4, 0), Array(2, 41608, 8, 4, FILTER), Array(3, 2072, 832176, 8, VALUE_SETTING)]),
      Desc([Member(1, LString, 1024, 0, 2, 0), Member(2, LVarint, 4, 1024, 2, 0)])
    ]
  }

  /** The tables are well formed: they can be packed, and every theorem about tables holds of them. */
  lemma DescriptorsAreOk()
    ensures TableOk(Descriptors()) && Reencodable(Descriptors())
  {
    var T := Descriptors();
    forall d | 0 <= d < |T| ensures DescOk(T, d) {
      forall i | 0 <= i < |At(T, d)| ensures EntryOk(T, d, i) { EntriesAreOk(d, i); }
      forall i, j | 0 <= i < j < |At(T, d)| ensures Precedes(At(T, d), i, j) { }
    }
    forall d, i | 0 <= d < |T| && 0 <= i < |At(T, d)| ensures FieldReencodable(T, d, i) { EntriesAreTracked(d, i); }
  }

  /** Every required field is among the first 64, and what may be missing is an array. */
  lemma EntriesAreTracked(d: nat, i: nat)
    requires d < |Descriptors()| && i < |At(Descriptors(), d)|
    ensures FieldReencodable(Descriptors(), d, i)
  {
    assert i < 5 && Rank(At(Descriptors(), d), i) <= i;
  }

  lemma EntriesAreOk(d: nat, i: nat)
    requires d < |Descriptors()| && i < |At(Descriptors(), d)|
    ensures EntryOk(Descriptors(), d, i)
  {
  }

  lemma DescriptorsAreCompiled()
    ensures Compiled(Descriptors(), Protocol())
  {
    var T, S := Descriptors(), Protocol();
    forall d | 0 <= d < |T| ensures DescribedMessage(T, S, d) {
      forall i | 0 <= i < |At(T, d)| ensures DescribedAt(T, S, d, i) {
      }
    }
  }

  /** The protocol has no byte arrays at all. */
  lemma {:induction false} ProtocolIsUnpadded(m: nat)
    ensures UnpaddedFrom(Protocol(), m)
    decreases m
  {
    var S := Protocol();
    forall i | 0 <= i < |Fields(S, m)|
      ensures UnpaddedAt(S, m, i)
      ensures Fields(S, m)[i].kind.Message? && Fields(S, m)[i].sub < m ==> UnpaddedFrom(S, Fields(S, m)[i].sub)
    {
      if Fields(S, m)[i].sub < m { ProtocolIsUnpadded(Fields(S, m)[i].sub); }
    }
  }

  // ----- the sizes of message.pb.h -----

  /** Lengths of the lengths and tags that occur. */
  lemma Lengths()
    ensures |Shortest(8)| == 1 && |Shortest(16)| == 1 && |Shortest(24)| == 1
    ensures |Shortest(32)| == 1 && |Shortest(40)| == 1
    ensures |Shortest(1024)| == 2 && |Shortest(2079)| == 2 && |Shortest(2082)| == 2 && |Shortest(2093)| == 2
    ensures |Shortest(41920)| == 3
  {
    assert |Shortest(41920 / 128)| == 2;
  }

  lemma KeyValuePairSize()
    ensures MessageSize(Protocol(), KEY_VALUE_PAIR, 0) == Some(2079)
  {
    Lengths();
    var S := Protocol();
    assert MessageSize(S, 0, 5) == Some(0);
    assert MessageSize(S, 0, 4) == Some(1026);
    assert MessageSize(S, 0, 3) == Some(1031);
    assert MessageSize(S, 0, 2) == Some(1042);
    assert MessageSize(S, 0, 1) == Some(1053);
  }

  lemma ValueSettingSize()
    ensures MessageSize(Protocol(), VALUE_SETTING, 0) == Some(2082)
  {
    Lengths();
    KeyValuePairSize();
    assert MessageSize(Protocol(), 1, 1) == Some(0);
  }

  lemma ComparatorSize()
    ensures MessageSize(Protocol(), COMPARATOR, 0) == Some(2093)
  {
    Lengths();
    KeyValuePairSize();
    assert MessageSize(Protocol(), 2, 2) == Some(0);
    assert MessageSize(Protocol(), 2, 1) == Some(2082);
  }

  lemma FilterSize()
    ensures MessageSize(Protocol(), FILTER, 0) == Some(41920)
  {
    Lengths();
    ComparatorSize();
    assert MessageSize(Protocol(), 3, 1) == Some(0);
  }

  lemma FiltersSize()
    ensures FieldSize(Protocol(), QUERY, Fields(Protocol(), QUERY)[1]) == Some(838480)
  {
    Lengths();
    FilterSize();
  }

  lemma SettingsSize()
    ensures FieldSize(Protocol(), QUERY, Fields(Protocol(), QUERY)[2]) == Some(41700)
  {
    Lengths();
    ValueSettingSize();
  }

  lemma SizeStep(S: Schema, m: nat, i: nat, a: int, b: int)
    requires i < |Fields(S, m)| && FieldSize(S, m, Fields(S, m)[i]) == Some(a) && MessageSize(S, m, i + 1) == Some(b)
    ensures MessageSize(S, m, i) == Some(a + b)
  {
  }

  lemma SizeEnd(S: Schema, m: nat)
    ensures MessageSize(S, m, |Fields(S, m)|) == Some(0)
  {
  }

  lemma CommandSize()
    ensures |Fields(Protocol(), QUERY)| == 3
    ensures FieldSize(Protocol(), QUERY, Fields(Protocol(), QUERY)[0]) == Some(11)
  {
    Lengths();
  }

  lemma QuerySize()
    ensures MessageSize(Protocol(), QUERY, 0) == Some(880191)
  {
    CommandSize();
    FiltersSize();
    SettingsSize();
    AddUp(Protocol());
  }

  lemma AddUp(S: Schema)
    requires |Fields(S, QUERY)| == 3 && FieldSize(S, QUERY, Fields(S, QUERY)[0]) == Some(11)
    requires FieldSize(S, QUERY, Fields(S, QUERY)[1]) == Some(838480)
    requires FieldSize(S, QUERY, Fields(S, QUERY)[2]) == Some(41700)
    ensures MessageSize(S, QUERY, 0) == Some(880191)
  {
    SizeEnd(S, QUERY);
    SizeStep(S, QUERY, 2, 41700, 0);
    SizeStep(S, QUERY, 1, 838480, 41700);
    SizeStep(S, QUERY, 0, 11, 880180);
  }

  lemma ResponseSize()
    ensures MessageSize(Protocol(), RESPONSE, 0) == Some(1037)
  {
    Lengths();
    assert MessageSize(Protocol(), 5, 2) == Some(0);
    assert MessageSize(Protocol(), 5, 1) == Some(11);
  }

  /** The generator's size of a message of the protocol bounds its encodings. */
  lemma Bounded(d: nat, m: seq<Slot>)
    requires d < 6 && Conforms(Descriptors(), d, m, false)
    ensures MessageSize(Protocol(), d, 0).Some? ==>
              && Encode(Descriptors(), d, m).Some?
              && |Encode(Descriptors(), d, m).value| <= MessageSize(Protocol(), d, 0).value
  {
    DescriptorsAreOk();
    DescriptorsAreCompiled();
    ProtocolIsUnpadded(d);
    if MessageSize(Protocol(), d, 0).Some? { EncodedSizeIsBound(Descriptors(), Protocol(), d, m); }
  }

  /** No Query is encoded in more than 880191 bytes. */
  lemma QueryBound(q: seq<Slot>)
    requires Conforms(Descriptors(), QUERY, q, false)
    ensures Encode(Descriptors(), QUERY, q).Some? && |Encode(Descriptors(), QUERY, q).value| <= 880191
  {
    QuerySize();
    Bounded(QUERY, q);
  }

  /** And no Response in more than 1037. */
  lemma ResponseBound(r: seq<Slot>)
    requires Conforms(Descriptors(), RESPONSE, r, false)
    ensures Encode(Descriptors(), RESPONSE, r).Some? && |Encode(Descriptors(), RESPONSE, r).value| <= 1037
  {
    ResponseSize();
    Bounded(RESPONSE, r);
  }

  /** Nor does any other message of the protocol exceed the size of a Query. */
  lemma ProtocolBound(d: nat, m: seq<Slot>)
    requires d < 6 && Conforms(Descriptors(), d, m, false)
    ensures Encode(Descriptors(), d, m).Some? && |Encode(Descriptors(), d, m).value| <= 880191
  {
    if d == KEY_VALUE_PAIR {
      KeyValuePairSize();
      Bounded(d, m);
    } else if d == VALUE_SETTING {
      ValueSettingSize();
      Bounded(d, m);
    } else if d == COMPARATOR {
      ComparatorSize();
      Bounded(d, m);
    } else if d == FILTER {
      FilterSize();
      Bounded(d, m);
    } else if d == QUERY {
      QueryBound(m);
    } else {
      ResponseBound(m);
    }
  }

  // ----- round trip -----

  /** A table in which presence is never stored: nothing can be lost by encoding. */
  predicate NoOptionals(T: Table) {
    forall d, i :: 0 <= d < |T| && 0 <= i < |At(T, d)| ==> !IsOptional(T, d, i)
  }

  predicate IsOptional(T: Table, d: nat, i: nat)
    requires i < |At(T, d)|
  {
    At(T, d)[i].htype.Optional?
  }

  lemma {:induction false} RestoreIsIdentity(T: Table, d: nat, ss: seq<Slot>)
    requires NoOptionals(T) && Conforms(T, d, ss, false)
    ensures Restore(T, d, ss) == ss
    decreases ss, 2
  {
    forall i | 0 <= i < |ss| ensures Restore(T, d, ss)[i] == ss[i] {
      assert !IsOptional(T, d, i) && ConformsSlot(T, d, At(T, d)[i], ss[i], false);
      RestoreSlotIsIdentity(T, d, At(T, d)[i], ss[i]);
    }
  }

  lemma {:induction false} RestoreSlotIsIdentity(T: Table, d: nat, f: Field, s: Slot)
    requires NoOptionals(T) && ConformsSlot(T, d, f, s, false) && !f.htype.Optional?
    ensures RestoreSlot(T, d, f, s) == s
    decreases s, 1
  {
    match s
    case One(v) => RestoreValueIsIdentity(T, f, v);
    case Opt(has, v) =>
    case Many(items) =>
      forall i | 0 <= i < |items| ensures RestoreValue(T, f, items[i]) == items[i] {
        RestoreValueIsIdentity(T, f, items[i]);
      }
    case Ptr(p) => if p.Some? { RestoreValueIsIdentity(T, f, p.value); }
  }

  lemma {:induction false} RestoreValueIsIdentity(T: Table, f: Field, v: Value)
    requires NoOptionals(T) && ConformsValue(T, f, v, false)
    ensures RestoreValue(T, f, v) == v
    decreases v, 0
  {
    if f.ltype.LSubmsg? { RestoreIsIdentity(T, f.sub, v.slots); }
  }

  lemma NothingOptional()
    ensures NoOptionals(Descriptors())
  {
  }

  /** A message of the protocol is decoded to exactly what was encoded. */
  lemma ProtocolRoundTrip(d: nat, m: seq<Slot>)
    requires d < 6 && Conforms(Descriptors(), d, m, false)
    ensures Encode(Descriptors(), d, m).Some?
    ensures Decode(Descriptors(), d, Encode(Descriptors(), d, m).value) == Some(m)
  {
    ProtocolBound(d, m);
    DescriptorsAreOk();
    NothingOptional();
    ShortLengthsFit(Descriptors(), d, m);
    DecodeOfEncode(Descriptors(), d, m);
    RestoreIsIdentity(Descriptors(), d, m);
  }

  /**
    A whole exchange through the methods of the codec: a buffer of Query_size
    bytes takes every Query, and what is received is what was sent.
   */
  method Exchange(q: seq<Slot>, buf: array<byte>) returns (received: seq<Slot>)
    requires Conforms(Descriptors(), QUERY, q, false) && buf.Length == 880191
    modifies buf
    ensures received == q
  {
    QueryFits(q);
    var output := new OStream.FromBuffer(buf, buf.Length);
    var ok := PbEncode(Descriptors(), QUERY, output, q);
    assert ok;
    var input := new IStream.FromBuffer(buf[..], output.bytesWritten);
    assert input.Rest() == Encode(Descriptors(), QUERY, q).value;
    ok, received := PbDecode(Descriptors(), QUERY, input, ZeroMsg(Descriptors(), QUERY));
  }

  lemma QueryFits(q: seq<Slot>)
    requires Conforms(Descriptors(), QUERY, q, false)
    ensures TableOk(Descriptors()) && Holds(Descriptors(), QUERY, q)
    ensures Encode(Descriptors(), QUERY, q).Some? && |Encode(Descriptors(), QUERY, q).value| <= 880191
    ensures Decode(Descriptors(), QUERY, Encode(Descriptors(), QUERY, q).value) == Some(q)
  {
    DescriptorsAreOk();
    QueryBound(q);
    ConformsHolds(Descriptors(), QUERY, q);
    ProtocolRoundTrip(QUERY, q);
  }
}
