/**
  pb_field_iter_t: a circular cursor over the packed descriptor words. It is
  proved to agree with the plain field list the words were packed from: every
  index is a prefix sum, and searching is plain lookup.
 */
module FieldIterator {
  import opened Wire
  import opened Descriptor
  import opened Packing

  class FieldIter<S> {
    const desc: MsgDesc
    /** The field list the descriptor was bound to. */
    ghost const fields: seq<Field>
    /** The structure the iterator walks over. */
    var message: seq<S>

    var index: nat
    var fieldInfoIndex: nat
    var requiredFieldIndex: nat
    var submessageIndex: nat

    /** Tag, type, sizes and offsets of the current field, as last loaded. */
    var loaded: Entry
    var submsgDesc: nat
    /** Where the member and its count or has-flag are, from the start of the structure. */
    var pField: int
    var pSize: Option<int>

    ghost predicate Bound() {
      AllFit(fields) && Sorted(fields) && desc == Bind(fields)
    }

    /** The four indexes are the prefix sums of the fields before the cursor. */
    ghost predicate Positioned()
      reads this
    {
      && index < |fields|
      && fieldInfoIndex == WordsBefore(fields, index)
      && requiredFieldIndex == Rank(fields, index)
      && submessageIndex == SubsBefore(fields, index)
    }

    /** The loaded values are those of the field under the cursor. */
    ghost predicate Loaded()
      requires index < |fields|
      reads this
    {
      var f := fields[index];
      && loaded == EntryOf(f)
      && submsgDesc == (if f.ltype.LSubmsg? then f.sub else 0)
      && pField == f.dataOffset
      && pSize == if loaded.sizeOffset != 0 then Some(f.dataOffset - loaded.sizeOffset) else None
    }

    ghost predicate Valid()
      reads this
    {
      && Bound() && |message| == |fields|
      && if fields == [] then index == 0 && loaded.tag == 0 else Positioned() && Loaded()
    }

    /** The field under the cursor. */
    ghost function Current(): Field
      requires index < |fields|
      reads this
    {
      fields[index]
    }

    /** The loaded values, as the field decoders and encoders read them. */
    function Field(): Field
      requires loaded.sizeOffset >= 0
      reads this
    {
      Descriptor.Field(
        loaded.tag, LTypeOf(loaded.kind), HTypeOf(loaded.kind), ATypeOf(loaded.kind),
        loaded.dataSize, loaded.arraySize, loaded.dataOffset, loaded.sizeOffset as nat, 0, submsgDesc, None)
    }

    lemma FieldIsCurrent()
      requires Valid() && fields != []
      ensures loaded.sizeOffset >= 0 && Field() == Plain(Current())
    {
      TypeByteRoundTrip(Current());
    }

    /** What the words under the cursor say. */
    lemma WordsHere()
      requires Bound() && Positioned()
      ensures Fits(Current()) && fieldInfoIndex + Current().width <= |desc.fieldInfo|
      ensures var word0 := desc.fieldInfo[fieldInfoIndex];
              && WidthOf(word0) == Current().width
              && word0 / 4 % 0x40 == Current().tag % 0x40
              && word0 / 0x100 % 0x100 == TypeByte(Current())
              && Unpack(desc.fieldInfo[fieldInfoIndex..fieldInfoIndex + WidthOf(word0)]) == EntryOf(Current())
    {
      var f := Current();
      WordsAt(fields, index);
      assert desc.fieldInfo[fieldInfoIndex] == desc.fieldInfo[fieldInfoIndex..fieldInfoIndex + f.width][0];
      UnpackOfPack(f);
      FirstWord(f);
    }

    /** pb_field_iter_begin: ready is false for an empty message type. */
    constructor Begin(fields: seq<Field>, message: seq<S>)
      requires AllFit(fields) && Sorted(fields) && |message| == |fields|
      ensures Valid() && this.fields == fields && this.message == message && index == 0
    {
      this.fields := fields;
      desc := Bind(fields);
      this.message := message;
      index, fieldInfoIndex, requiredFieldIndex, submessageIndex := 0, 0, 0, 0;
      loaded, submsgDesc, pField, pSize := Entry(0, 0, 0, 0, 0, 0), 0, 0, None;
      new;
      var ready := Load();
    }

    /** Write to the member under the cursor. */
    method Store(s: S)
      requires Valid() && fields != []
      modifies this`message
      ensures Valid() && message == old(message)[index := s]
    {
      message := message[index := s];
    }

    /** The switch of load_descriptor_values over the width of the entry. */
    method ReadEntry() returns (e: Entry)
      requires Bound() && Positioned()
      ensures e == EntryOf(Current())
    {
      WordsHere();
      var word0 := desc.fieldInfo[fieldInfoIndex];
      e := Unpack(desc.fieldInfo[fieldInfoIndex..fieldInfoIndex + WidthOf(word0)]);
    }

    /** load_descriptor_values */
    method Load() returns (ok: bool)
      requires Bound() && |message| == |fields| && (index < |fields| ==> Positioned())
      modifies this`loaded, this`submsgDesc, this`pField, this`pSize
      ensures ok <==> index < |fields|
      ensures ok ==> Valid()
      ensures !ok ==> loaded == old(loaded)
    {
      if index >= desc.fieldCount { return false; }
      loaded := ReadEntry();
      pField := loaded.dataOffset;
      pSize := if loaded.sizeOffset != 0 then Some(pField - loaded.sizeOffset) else None;
      TypeByteRoundTrip(Current());
      if LTypeOf(loaded.kind).LSubmsg? {
        SubsAt(fields, index);
        submsgDesc := desc.submsgInfo[submessageIndex];
      } else {
        submsgDesc := 0;
      }
      ok := true;
    }

    /** advance_iterator: past the end it restarts; an index beyond the list forces that. */
    method Advance()
      requires Bound() && fields != [] && (index < |fields| ==> Positioned())
      modifies this`index, this`fieldInfoIndex, this`requiredFieldIndex, this`submessageIndex
      ensures Positioned()
      ensures index == if old(index) + 1 >= |fields| then 0 else old(index) + 1
    {
      if index < |fields| {
        WordsHere();
        TypeByteRoundTrip(Current());
      }
      index := index + 1;
      if index >= desc.fieldCount {
        index, fieldInfoIndex, submessageIndex, requiredFieldIndex := 0, 0, 0, 0;
      } else {
        var prev := desc.fieldInfo[fieldInfoIndex];
        var prevType := prev / 0x100 % 0x100;
        fieldInfoIndex := fieldInfoIndex + WidthOf(prev);
        requiredFieldIndex := requiredFieldIndex + if HTypeOf(prevType).Required? then 1 else 0;
        submessageIndex := submessageIndex + if LTypeOf(prevType).LSubmsg? then 1 else 0;
      }
    }

    /** pb_field_iter_next */
    method Next() returns (more: bool)
      requires Valid() && fields != []
      modifies this
      ensures Valid() && message == old(message)
      ensures index == if old(index) + 1 >= |fields| then 0 else old(index) + 1
      ensures more <==> index != 0
    {
      Advance();
      var ok := Load();
      more := index != 0;
    }

    /** One step of the search: advance, compare the low tag bits, and only then load. */
    method Try(wanted: nat) returns (found: bool)
      requires Bound() && |message| == |fields| && fields != [] && (index < |fields| ==> Positioned())
      modifies this
      ensures Positioned() && message == old(message)
      ensures index == if old(index) + 1 >= |fields| then 0 else old(index) + 1
      ensures found <==> fields[index].tag == wanted
      ensures found ==> Valid()
    {
      Advance();
      WordsHere();
      var fieldinfo := desc.fieldInfo[fieldInfoIndex];
      if fieldinfo / 4 % 0x40 == wanted % 0x40 {
        var ok := Load();
        if loaded.tag == wanted { return true; }
      }
      found := false;
    }

    /**
      pb_field_iter_find: from any position of the cursor, one lap at most,
      success exactly for the tags in the list, and the cursor back where it
      was on failure.
     */
    method Find(wanted: nat) returns (found: bool)
      requires Valid() && wanted > 0
      modifies this
      ensures Valid() && message == old(message)
      ensures found <==> Descriptor.Find(fields, wanted) < |fields|
      ensures index == if found then Descriptor.Find(fields, wanted) else old(index)
    {
      if loaded.tag == wanted {
        FindSorted(fields, index);
        return true;
      }
      if wanted > desc.largestTag {
        BeyondLargest(fields, wanted);
        return false;
      }
      var start := index;
      if wanted < loaded.tag { index := desc.fieldCount; }
      found := Lap(wanted, start);
      if !found {
        AbsentFind(fields, wanted);
        var ok := Load();
      }
    }

    /** Advance until the tag is found or the cursor is back at `start`. */
    method Lap(wanted: nat, start: nat) returns (found: bool)
      requires Bound() && |message| == |fields| && start < |fields| && fields[start].tag != wanted
      requires if index < |fields| then Positioned() && index == start
               else index == |fields| && wanted < fields[start].tag
      modifies this
      ensures message == old(message) && Positioned()
      ensures found ==> Valid() && index == Descriptor.Find(fields, wanted)
      ensures !found ==> index == start && Absent(fields, wanted, 0, |fields|)
    {
      AbsentBehind(fields, start, wanted);
      ghost var wrapped := false;
      var searching := true;
      while searching
        invariant message == old(message)
        invariant index < |fields| ==> Positioned()
        invariant !wrapped ==> searching && start <= index <= |fields| && AbsentTo(fields, wanted, start, index)
        invariant wrapped ==> index <= start && (searching <==> index != start)
        invariant wrapped ==> Absent(fields, wanted, start, |fields|) && Absent(fields, wanted, 0, index + 1)
        decreases !wrapped, if wrapped then start - index else |fields| - index, searching
      {
        ghost var before := index;
        found := Try(wanted);
        if found {
          FindSorted(fields, index);
          return;
        }
        if index <= before { wrapped := true; }
        searching := index != start;
      }
      found := false;
    }
  }

  /** A field without what its table entry does not say: width and default. */
  function Plain(f: Field): Field {
    f.(width := 0, dflt := None, sub := if f.ltype.LSubmsg? then f.sub else 0)
  }

  /** No field in the given range has the tag. */
  ghost predicate Absent(fields: seq<Field>, tag: nat, lo: nat, hi: nat)
    requires hi <= |fields|
  {
    forall j :: lo <= j < hi ==> fields[j].tag != tag
  }

  /** The same for a range that includes position hi when there is one. */
  ghost predicate AbsentTo(fields: seq<Field>, tag: nat, lo: nat, hi: nat)
    requires hi <= |fields|
  {
    Absent(fields, tag, lo, hi) && (hi < |fields| ==> fields[hi].tag != tag)
  }

  lemma AbsentBehind(fields: seq<Field>, i: nat, tag: nat)
    requires Sorted(fields) && i < |fields|
    ensures tag < fields[i].tag ==> Absent(fields, tag, i, |fields|)
  {
    forall j | i < j < |fields| ensures fields[i].tag < fields[j].tag { assert Precedes(fields, i, j); }
  }

  lemma AbsentFind(fields: seq<Field>, tag: nat)
    requires Absent(fields, tag, 0, |fields|)
    ensures Descriptor.Find(fields, tag) == |fields|
  {
  }

  lemma BeyondLargest(fields: seq<Field>, tag: nat)
    requires Sorted(fields) && tag > LargestTag(fields)
    ensures Descriptor.Find(fields, tag) == |fields|
  {
    LargestTagIsLargest(fields);
  }
}
