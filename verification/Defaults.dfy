/**
  pb_message_set_to_defaults: one pass over the fields and over the stream of
  default values leaves exactly the initial structure and consumes the stream.
 */
module Defaults {
  import opened Wire
  import opened Descriptor
  import opened Encoding
  import opened Decoding
  import opened Merging
  import opened InputStream
  import opened FieldIterator
  import opened LeafDecoder
  import opened Packing

  // ----- the stream of default values -----

  /** The record of the default value of a field, if it has one. */
  function DefaultForm(T: Table, f: Field): seq<byte> {
    if f.dflt.None? then []
    else match Record(T, f, f.dflt.value) { case None => [] case Some(r) => r }
  }

  /** The default values of the fields from number i on, as the generator serialises them. */
  function DefaultsFrom(T: Table, fields: seq<Field>, i: nat): (bs: seq<byte>)
    decreases |fields| - i
  {
    if i >= |fields| then [] else DefaultForm(T, fields[i]) + DefaultsFrom(T, fields, i + 1)
  }

  /** The default_value string of a descriptor, with its terminating zero; absent without defaults. */
  function DefaultValue(T: Table, fields: seq<Field>): Option<seq<byte>> {
    if HasDefaults(fields) then Some(DefaultsFrom(T, fields, 0) + [0]) else None
  }

  /** The default stream when the fields before i have been served. */
  function Remaining(T: Table, d: nat, i: nat): seq<byte> {
    DefaultsFrom(T, At(T, d), i) + [0]
  }

  lemma TagInFront(tag: seq<byte>, p: seq<byte>, more: seq<byte>)
    ensures tag + p + more + [0] == tag + (p + (more + [0]))
  {
  }

  /** A field with a default puts a record at the front of the stream. */
  lemma DefaultBytes(T: Table, d: nat, i: nat)
    requires TableOk(T) && i < |At(T, d)| && At(T, d)[i].dflt.Some?
    ensures Payload(T, At(T, d)[i], At(T, d)[i].dflt.value).Some?
    ensures Remaining(T, d, i) == Tag(At(T, d)[i], WireType(At(T, d)[i].ltype))
                                + (Payload(T, At(T, d)[i], At(T, d)[i].dflt.value).value + Remaining(T, d, i + 1))
  {
    FieldOkAt(T, d, i);
    var f := At(T, d)[i];
    PayloadExists(T, f, f.dflt.value);
    var tag, p := Tag(f, WireType(f.ltype)), Payload(T, f, f.dflt.value).value;
    assert DefaultForm(T, f) == tag + p;
    TagInFront(tag, p, DefaultsFrom(T, At(T, d), i + 1));
  }

  /** A field with a default is next in the stream, and its value is read back. */
  lemma DefaultIsNext(T: Table, d: nat, i: nat)
    requires TableOk(T) && i < |At(T, d)| && At(T, d)[i].dflt.Some?
    ensures ReadTag(Remaining(T, d, i)).Ok? && ReadTag(Remaining(T, d, i)).value.0 == At(T, d)[i].tag
    ensures DefaultIsRead(T, d, i, ReadTag(Remaining(T, d, i)).value.1, ReadTag(Remaining(T, d, i)).rest)
  {
    FieldOkAt(T, d, i);
    DefaultBytes(T, d, i);
    var f, more := At(T, d)[i], Remaining(T, d, i + 1);
    ReadTagOfForm(f, WireType(f.ltype), Payload(T, f, f.dflt.value).value + more);
    DefaultPayload(T, f, more);
  }

  ghost predicate DefaultIsRead(T: Table, d: nat, i: nat, wt: nat, bs: seq<byte>)
    requires i < |At(T, d)| && At(T, d)[i].dflt.Some?
  {
    var f := At(T, d)[i];
    ReadValue(T, f, wt, bs, ZeroLeaf(f)) == Ok(f.dflt.value, Remaining(T, d, i + 1))
  }

  /** The end of the stream, or a field from number i on. */
  ghost predicate FromOn(fields: seq<Field>, i: nat, tag: nat) {
    tag == 0 || exists k :: i <= k < |fields| && fields[k].tag == tag
  }

  /** There is always a next tag, and it is that of no field already served. */
  lemma {:induction false} NextTag(T: Table, d: nat, i: nat)
    requires TableOk(T) && i <= |At(T, d)|
    ensures ReadTag(Remaining(T, d, i)).Ok? && FromOn(At(T, d), i, ReadTag(Remaining(T, d, i)).value.0)
    ensures i == |At(T, d)| ==> ReadTag(Remaining(T, d, i)) == Ok((0, 0), [])
    decreases |At(T, d)| - i
  {
    if i == |At(T, d)| {
      assert [] + [0] == [0] && ReadTag([0]) == Ok((0, 0), []);
    } else if At(T, d)[i].dflt.Some? {
      DefaultIsNext(T, d, i);
    } else {
      assert Remaining(T, d, i) == Remaining(T, d, i + 1);
      NextTag(T, d, i + 1);
    }
  }

  lemma ServedOnce(T: Table, d: nat, i: nat, tag: nat)
    requires TableOk(T) && i < |At(T, d)| && FromOn(At(T, d), i + 1, tag)
    ensures tag != At(T, d)[i].tag
  {
    FieldOkAt(T, d, i);
    forall k | i < k < |At(T, d)| ensures At(T, d)[k].tag != At(T, d)[i].tag { assert Precedes(At(T, d), i, k); }
  }

  lemma DefaultPayload(T: Table, f: Field, more: seq<byte>)
    requires TableOk(T) && SizeOk(f) && f.dflt.Some? && LeafOk(f, f.dflt.value)
    requires Payload(T, f, f.dflt.value).Some?
    ensures ReadValue(T, f, WireType(f.ltype), Payload(T, f, f.dflt.value).value + more, ZeroLeaf(f))
         == Ok(f.dflt.value, more)
  {
    if Packable(f.ltype) {
      ReadNumOfForm(f, f.dflt.value, WireType(f.ltype), more);
    } else {
      ReadBlobOfForm(f, f.dflt.value, more);
    }
  }

  /** The tag read ahead of field i, and the bytes behind it. */
  ghost predicate Pending(T: Table, d: nat, i: nat, tag: nat, wt: nat, bs: seq<byte>) {
    if HasDefaults(At(T, d)) then ReadTag(Remaining(T, d, i)) == Ok((tag, wt), bs) else tag == 0
  }

  lemma PendingHit(T: Table, d: nat, i: nat, tag: nat, wt: nat, bs: seq<byte>)
    requires TableOk(T) && i < |At(T, d)| && Pending(T, d, i, tag, wt, bs)
    requires tag != 0 && tag == At(T, d)[i].tag
    ensures var f := At(T, d)[i];
            f.dflt.Some? && ReadValue(T, f, wt, bs, ZeroLeaf(f)) == Ok(f.dflt.value, Remaining(T, d, i + 1))
    ensures HasDefaults(At(T, d)) && ReadTag(Remaining(T, d, i + 1)).Ok?
  {
    if At(T, d)[i].dflt.Some? {
      DefaultIsNext(T, d, i);
    } else {
      assert Remaining(T, d, i) == Remaining(T, d, i + 1);
      NextTag(T, d, i + 1);
      ServedOnce(T, d, i, tag);
    }
    NextTag(T, d, i + 1);
  }

  lemma PendingMiss(T: Table, d: nat, i: nat, tag: nat, wt: nat, bs: seq<byte>)
    requires TableOk(T) && i < |At(T, d)| && Pending(T, d, i, tag, wt, bs)
    requires tag == 0 || tag != At(T, d)[i].tag
    ensures At(T, d)[i].dflt.None? && Pending(T, d, i + 1, tag, wt, bs)
  {
    FieldOkAt(T, d, i);
    if At(T, d)[i].dflt.Some? {
      assert HasDefaults(At(T, d));
      DefaultIsNext(T, d, i);
    } else {
      assert Remaining(T, d, i) == Remaining(T, d, i + 1);
    }
  }

  // ----- initialisation -----

  /** The slot a field gets before its declared default, if any, is applied. */
  function ZeroSlot(T: Table, d: nat, f: Field): Slot {
    InitSlot(T, d, f.(dflt := None))
  }

  /** Memory cleared with memset, seen as a structure. */
  function ZeroMsg(T: Table, d: nat): seq<Slot> {
    seq(|At(T, d)|, i requires 0 <= i < |At(T, d)| => ZeroSlot(T, d, At(T, d)[i]))
  }

  /** Whether a descriptor has submessage fields (submsg_info[0] != NULL). */
  predicate HasSubmessages(fields: seq<Field>) {
    exists i :: 0 <= i < |fields| && fields[i].ltype.LSubmsg?
  }

  /** Clearing memory is enough for a structure without defaults. */
  lemma ZeroIsInit(T: Table, d: nat)
    requires !HasDefaults(At(T, d))
    ensures ZeroMsg(T, d) == InitMsg(T, d)
  {
    forall i | 0 <= i < |At(T, d)| ensures ZeroMsg(T, d)[i] == InitMsg(T, d)[i] {
      assert At(T, d)[i].dflt.None?;
    }
  }

  /** An iterator over the structure the initialisation may run on. */
  ghost predicate Over<S>(T: Table, d: nat, iter: FieldIter<S>)
    reads iter
  {
    TableOk(T) && d < |T| && iter.Valid() && iter.fields == At(T, d) && iter.fields != []
  }

  /** The data of a static member: recursion into submessages that need it, else zeros. */
  method InitData(T: Table, d: nat, f: Field) returns (v: Value)
    requires TableOk(T) && f.dflt.None? && (f.ltype.LSubmsg? ==> f.sub < d)
    ensures v == InitValue(T, d, f)
    decreases d, 0
  {
    if f.ltype.LSubmsg? {
      if HasDefaults(At(T, f.sub)) || HasSubmessages(At(T, f.sub)) {
        BindableAt(T, f.sub);
        var iter := new FieldIter<Slot>.Begin(At(T, f.sub), ZeroMsg(T, f.sub));
        MessageSetToDefaults(T, f.sub, iter);
        v := Msg(iter.message);
      } else {
        ZeroIsInit(T, f.sub);
        v := Msg(ZeroMsg(T, f.sub));
      }
    } else if Packable(f.ltype) {
      v := Num(0);
    } else {
      v := Blob(if f.ltype.LFixedBytes? then Zeros(f.dataSize) else []);
    }
  }

  /** pb_field_set_to_default */
  method FieldSetToDefault(T: Table, d: nat, f: Field) returns (slot: Slot)
    requires TableOk(T) && f.dflt.None? && (f.ltype.LSubmsg? && f.atype.Static? ==> f.sub < d)
    ensures slot == InitSlot(T, d, f)
    decreases d, 1
  {
    if f.atype.Static? && !f.htype.Repeated? {
      var v := InitData(T, d, f);
      slot := Held(f, v);
    } else {
      slot := if f.htype.Repeated? then Many([]) else Ptr(None);
    }
  }

  /** A value in a plain member, or in one whose has-flag is cleared. */
  function Held(f: Field, v: Value): Slot {
    if f.htype.Optional? && f.sizeOffset != 0 then Opt(false, v) else One(v)
  }

  /** Only the type of the storage and the submessage matter for the slot of a field without default. */
  lemma ZeroSlotIsPlain(T: Table, d: nat, f: Field)
    ensures InitSlot(T, d, Plain(f)) == ZeroSlot(T, d, f)
  {
    assert InitValue(T, d, Plain(f)) == InitValue(T, d, f.(dflt := None));
  }

  /** The default of field i, if the stream has it next, and the tag after it. */
  method NextDefault(T: Table, d: nat, ghost i: nat, f: Field, defstream: IStream, wireType: nat, tag: nat)
    returns (hit: bool, v: Value, nextType: nat, nextTag: nat)
    requires TableOk(T) && i < |At(T, d)| && f == Plain(At(T, d)[i])
    requires defstream.Valid() && Pending(T, d, i, tag, wireType, defstream.Rest())
    modifies defstream
    ensures At(T, d)[i].dflt == if hit then Some(v) else None
    ensures defstream.Valid() && Pending(T, d, i + 1, nextTag, nextType, defstream.Rest())
  {
    FieldOkAt(T, d, i);
    hit := tag != 0 && f.tag == tag;
    if hit {
      ghost var g := At(T, d)[i];
      PendingHit(T, d, i, tag, wireType, defstream.Rest());
      ReadLeafPlain(T, g, wireType, defstream.Rest(), ZeroLeaf(g));
      var ok, eof;
      ok, v := DecodeLeaf(T, defstream, wireType, f, ZeroLeaf(g));
      ok, nextType, nextTag, eof := defstream.DecodeTag();
    } else {
      v, nextType, nextTag := Num(0), wireType, tag;
      PendingMiss(T, d, i, tag, wireType, defstream.Rest());
    }
  }

  lemma ReadLeafPlain(T: Table, f: Field, wt: nat, bs: seq<byte>, start: Value)
    requires !f.ltype.LSubmsg?
    ensures ReadValue(T, Plain(f), wt, bs, start) == ReadValue(T, f, wt, bs, start)
  {
  }

  /** A field with a default holds that, and any other what it is cleared to. */
  lemma WithDefault(T: Table, d: nat, f: Field, v: Value)
    requires FieldOk(T, d, f)
    ensures f.dflt == Some(v) ==> InitSlot(T, d, f) == Held(Plain(f), v)
    ensures f.dflt == None ==> InitSlot(T, d, f) == ZeroSlot(T, d, f)
  {
    assert f.dflt == None ==> f.(dflt := None) == f;
  }

  /** The stream over the default_value string of a descriptor, its first tag read. */
  method OpenDefaults(T: Table, d: nat) returns (defstream: IStream, wireType: nat, tag: nat)
    requires TableOk(T)
    ensures fresh(defstream) && defstream.Valid()
    ensures Pending(T, d, 0, tag, wireType, defstream.Rest())
  {
    var value := DefaultValue(T, At(T, d));
    var bytes := if value.Some? then value.value else [];
    defstream := new IStream.FromBuffer(bytes, |bytes|);
    wireType, tag := 0, 0;
    if value.Some? {
      assert defstream.Rest() == Remaining(T, d, 0);
      NextTag(T, d, 0);
      var ok, eof;
      ok, wireType, tag, eof := defstream.DecodeTag();
    }
  }

  /** What a member is set to: cleared, and then its default, if the stream has it next. */
  method InitialSlot(T: Table, d: nat, ghost i: nat, f: Field, defstream: IStream, wireType: nat, tag: nat)
    returns (slot: Slot, nextType: nat, nextTag: nat)
    requires TableOk(T) && i < |At(T, d)| && f == Plain(At(T, d)[i])
    requires defstream.Valid() && Pending(T, d, i, tag, wireType, defstream.Rest())
    modifies defstream
    ensures slot == InitSlot(T, d, At(T, d)[i])
    ensures defstream.Valid() && Pending(T, d, i + 1, nextTag, nextType, defstream.Rest())
    decreases d, 2
  {
    FieldOkAt(T, d, i);
    ZeroSlotIsPlain(T, d, At(T, d)[i]);
    slot := FieldSetToDefault(T, d, f);
    var hit, v;
    hit, v, nextType, nextTag := NextDefault(T, d, i, f, defstream, wireType, tag);
    WithDefault(T, d, At(T, d)[i], v);
    if hit { slot := Held(f, v); }
  }

  /** The descriptor entry under the cursor. */
  method CurrentField(T: Table, d: nat, iter: FieldIter<Slot>) returns (f: Field)
    requires Over(T, d, iter)
    ensures iter.index < |At(T, d)| && f == Plain(At(T, d)[iter.index])
  {
    iter.FieldIsCurrent();
    f := iter.Field();
  }

  /** The member under the cursor. */
  method InitField(T: Table, d: nat, ghost i: nat, iter: FieldIter<Slot>, defstream: IStream, wireType: nat, tag: nat)
    returns (nextType: nat, nextTag: nat)
    requires Over(T, d, iter) && iter.index == i < |At(T, d)|
    requires defstream.Valid() && Pending(T, d, i, tag, wireType, defstream.Rest())
    modifies iter`message, defstream
    ensures Over(T, d, iter) && iter.message == old(iter.message)[i := InitSlot(T, d, At(T, d)[i])]
    ensures defstream.Valid() && Pending(T, d, i + 1, nextTag, nextType, defstream.Rest())
    decreases d, 3
  {
    var slot;
    var f := CurrentField(T, d, iter);
    slot, nextType, nextTag := InitialSlot(T, d, i, f, defstream, wireType, tag);
    iter.Store(slot);
  }

  /** Members before i hold their initial value and the stream is at the next default. */
  ghost predicate Initialised(
    T: Table, d: nat, i: nat, iter: FieldIter<Slot>, defstream: IStream, wireType: nat, tag: nat)
    reads iter, defstream
  {
    && Over(T, d, iter) && defstream.Valid() && i <= |At(T, d)|
    && iter.message[..i] == InitMsg(T, d)[..i]
    && Pending(T, d, i, tag, wireType, defstream.Rest())
  }

  /** One round of the loop: the member under the cursor, then the next one. */
  method InitRound(T: Table, d: nat, ghost i: nat, iter: FieldIter<Slot>, defstream: IStream, wireType: nat, tag: nat)
    returns (more: bool, nextType: nat, nextTag: nat)
    requires Initialised(T, d, i, iter, defstream, wireType, tag) && iter.index == i < |At(T, d)|
    modifies iter, defstream
    ensures Initialised(T, d, i + 1, iter, defstream, nextType, nextTag)
    ensures iter.index == (if i + 1 == |At(T, d)| then 0 else i + 1) && (more <==> i + 1 < |At(T, d)|)
    decreases d, 4
  {
    nextType, nextTag := InitField(T, d, i, iter, defstream, wireType, tag);
    OneMore(iter.message, InitMsg(T, d), i);
    more := iter.Next();
  }

  /** pb_message_set_to_defaults */
  method MessageSetToDefaults(T: Table, d: nat, iter: FieldIter<Slot>)
    requires Over(T, d, iter) && iter.index == 0
    modifies iter
    ensures Over(T, d, iter) && iter.index == 0
    ensures iter.message == InitMsg(T, d)
    decreases d, 5
  {
    ghost var n := |At(T, d)|;
    var defstream, wireType, tag := OpenDefaults(T, d);
    ghost var i := 0;
    var more := true;
    while more
      invariant Initialised(T, d, i, iter, defstream, wireType, tag)
      invariant if more then iter.index == i < n else iter.index == 0 && i == n
      decreases n - i
    {
      more, wireType, tag := InitRound(T, d, i, iter, defstream, wireType, tag);
      i := i + 1;
    }
    Finished(T, d, iter, defstream, wireType, tag);
  }

  /** In the end every member holds its initial value and the stream of defaults is empty. */
  lemma Finished(T: Table, d: nat, iter: FieldIter<Slot>, defstream: IStream, wireType: nat, tag: nat)
    requires Initialised(T, d, |At(T, d)|, iter, defstream, wireType, tag)
    ensures iter.message == InitMsg(T, d)
    ensures HasDefaults(At(T, d)) ==> defstream.Rest() == []
  {
    NextTag(T, d, |At(T, d)|);
    var n := |At(T, d)|;
    assert iter.message == iter.message[..n] && InitMsg(T, d) == InitMsg(T, d)[..n];
  }

  lemma OneMore(a: seq<Slot>, b: seq<Slot>, i: nat)
    requires i < |a| && i < |b| && a[..i] == b[..i] && a[i] == b[i]
    ensures a[..i + 1] == b[..i + 1]
  {
    assert a[..i + 1] == a[..i] + [a[i]];
    assert b[..i + 1] == b[..i] + [b[i]];
  }
}
