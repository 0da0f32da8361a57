/**
  The decoder with heap storage. It is proved to compute the same message as
  the decoding function, unless an allocation is refused; and, on any input
  and whatever is refused, at every step each allocated block is reachable
  from the message exactly once, so that a failed pb_decode can give all of
  them back, and does.
 */
module HeapDecoder {
  import opened Arithmetic
  import opened Wire
  import opened Descriptor
  import opened Decoding
  import opened DecodedMessages
  import opened InputStream
  import opened LeafDecoder
  import opened FieldIterator
  import opened Packing
  import opened RequiredFields
  import opened RequiredTracking
  import opened Defaults
  import Decoder
  import opened Heap

  /** The live blocks are those of the message part at hand and the rest. */
  ghost predicate Conserved(heap: Allocator, rest: multiset<Block>, blocks: multiset<Block>)
    reads heap
  {
    heap.Valid() && multiset(heap.live) == rest + blocks
  }

  /**
    A call that read `bytes` for what the decoding function calls `expected`:
    same outcome, except that it may fail when an allocation was refused.
   */
  ghost predicate Agrees<T>(heap: Allocator, ok: bool, value: T, left: seq<byte>, expected: Parsed<T>)
    reads heap
  {
    ok || !heap.denied ==> expected == if ok then Ok(value, left) else Fail
  }

  lemma Inside(heap: Allocator, rest: multiset<Block>, outer: multiset<Block>, inner: multiset<Block>)
    ensures Conserved(heap, rest, outer + inner) <==> Conserved(heap, rest + outer, inner)
    ensures Conserved(heap, rest, inner + outer) <==> Conserved(heap, rest + outer, inner)
  {
    assert rest + (outer + inner) == rest + outer + inner == rest + (inner + outer);
  }

  /** What allocate_field asks malloc for: neither a zero size nor a product beyond size_t. */
  ghost predicate Allocatable(dataSize: nat, arraySize: nat) {
    0 < dataSize && 0 < arraySize && dataSize * arraySize < TWO64
  }

  /** The members and arrays of a table can be allocated as far as their sizes go. */
  lemma SizesAllow(f: Field, n: nat)
    requires SizeOk(f) && f.atype.Pointer? && 0 < n <= SIZE_MAX
    ensures Allocatable(f.dataSize, n)
  {
    MulMonotone(f.dataSize, TWO31, n);
  }

  /** allocate_field: zero sizes and products beyond size_t are refused before malloc is asked. */
  method AllocateField(heap: Allocator, p: Option<Block>, dataSize: nat, arraySize: nat, ghost rest: multiset<Block>)
    returns (ok: bool, q: Option<Block>)
    requires Conserved(heap, rest, Own(p))
    modifies heap
    ensures Conserved(heap, rest, Own(q)) && (if ok then q.Some? else q == p)
    ensures heap.denied <==> old(heap.denied) || (Allocatable(dataSize, arraySize) && !ok)
    ensures ok ==> Allocatable(dataSize, arraySize) && q.value.size == dataSize * arraySize
  {
    if dataSize == 0 || arraySize == 0 { return false, p; }
    NoOverflow(dataSize, arraySize);
    if dataSize >= TWO32 || arraySize >= TWO32 {
      if (TWO64 - 1) / arraySize < dataSize { return false, p; }
    }
    q := heap.Realloc(p, dataSize * arraySize, rest);
    ok := q.Some?;
    if !ok { q := p; }
  }

  /** The overflow check of allocate_field is exact. */
  lemma NoOverflow(a: nat, n: nat)
    requires n > 0
    ensures a < TWO32 && n < TWO32 ==> a * n < TWO64
    ensures a * n < TWO64 <==> a <= (TWO64 - 1) / n
  {
    var q, r := (TWO64 - 1) / n, (TWO64 - 1) % n;
    assert TWO64 - 1 == q * n + r && 0 <= r < n;
    if a <= q {
      MulMonotone(a, q, n);
    } else {
      MulMonotone(q + 1, a, n);
      MulSuccessor(q, n);
    }
    if a < TWO32 && n < TWO32 {
      MulMonotone(a, TWO32, n);
      MulMonotone(n, TWO32, TWO32);
      MulSuccessor(n, TWO32);
    }
  }

  /** Strings and byte arrays behind pointers have a block of their own. */
  predicate HasOwn(f: Field) {
    f.atype.Pointer? && (f.ltype.LString? || f.ltype.LBytes?)
  }

  /** The content of a string or byte array of the announced bytes. */
  function Content(f: Field, bytes: seq<byte>): seq<byte> {
    if f.ltype.LString? then CString(bytes) else bytes
  }

  /** The size checks of pb_dec_bytes and pb_dec_string before memory is asked for. */
  method BlobSize(stream: IStream, f: Field) returns (ok: bool, size: nat)
    requires stream.Valid() && HasOwn(f)
    modifies stream
    ensures stream.Valid() && stream.End() == old(stream.End()) && (ok ==> size <= stream.bytesLeft && size <= SIZE_MAX)
    ensures ReadBlob(f, WT_STRING, old(stream.Rest()))
         == if ok then Ok(Content(f, stream.Rest()[..size]), stream.Rest()[size..]) else Fail
  {
    ok, size := stream.DecodeVarint32();
    if !ok { return; }
    Read32Bound(old(stream.Rest()));
    if size > SIZE_MAX || (f.ltype.LString? && size == TWO32 - 1) { return false, 0; }
    if stream.bytesLeft < size { return false, 0; }
  }

  /** The pointer cases of pb_dec_bytes and pb_dec_string. */
  method DecPointerBlob(stream: IStream, heap: Allocator, f: Field, p: Option<Block>, ghost rest: multiset<Block>)
    returns (ok: bool, q: Option<Block>, value: seq<byte>)
    requires stream.Valid() && Conserved(heap, rest, Own(p)) && HasOwn(f) && HasRoom(p, Needed(f, NIL))
    modifies stream, heap
    ensures stream.Valid() && stream.End() == old(stream.End())
    ensures Conserved(heap, rest, Own(q)) && (ok ==> q.Some?) && (old(heap.denied) ==> heap.denied)
    ensures HasRoom(q, Needed(f, Leaf(Blob(value))))
    ensures Agrees(heap, ok, value, stream.Rest(), ReadBlob(f, WT_STRING, old(stream.Rest())))
  {
    q, value := p, [];
    var size;
    ok, size := BlobSize(stream, f);
    if !ok { return; }
    var allocSize := if f.ltype.LString? then size + 1 else size + BYTES_OFFSET;
    assert Allocatable(allocSize, 1);
    ok, q := AllocateField(heap, p, allocSize, 1, rest);
    if !ok { return; }
    var dest := new byte[size];
    ok := stream.ReadInto(dest, size);
    assert dest[..size] == dest[..];
    value := Content(f, dest[..]);
  }

  /** Whether a submessage is decoded into what is there already (PB_DECODE_NOINIT). */
  predicate NoInit(f: Field) {
    f.atype.Static? && !f.htype.Repeated?
  }

  /** What a value is decoded into. */
  ghost function Start(T: Table, f: Field, v: HVal): Value {
    if NoInit(f) then StoredVal(v) else Fresh(T, f)
  }

  /** pb_dec_submessage */
  method DecSubmessage(T: Table, stream: IStream, heap: Allocator, f: Field, v: HVal, ghost rest: multiset<Block>)
    returns (ok: bool, w: HVal)
    requires TableOk(T) && stream.Valid() && f.ltype.LSubmsg? && ShapeVal(T, f, v)
    requires Conserved(heap, rest, ValBlocks(v)) && (!NoInit(f) ==> ValBlocks(v) == multiset{})
    modifies stream, heap
    ensures stream.Valid() && stream.End() <= old(stream.End()) && (ok ==> stream.End() == old(stream.End()))
    ensures Conserved(heap, rest, ValBlocks(w)) && ShapeVal(T, f, w) && (old(heap.denied) ==> heap.denied)
    ensures Agrees(heap, ok, StoredVal(w), stream.Rest(),
              ReadValue(T, f, WT_STRING, old(stream.Rest()), Start(T, f, v)))
    decreases stream.bytesLeft, 0
  {
    w := v;
    var sub;
    ok, sub := stream.MakeStringSubstream();
    if !ok { return; }
    var status, res := DecodeInner(T, f.sub, sub, heap, v.slots, NoInit(f), rest);
    w := Struct(res);
    ok := stream.CloseStringSubstream(sub);
    ok := status;
    ReadSubmessage(T, f, old(stream.Rest()), Start(T, f, v));
  }

  /** A string or byte array behind a pointer. */
  method DecodeBlobEntry(T: Table, stream: IStream, heap: Allocator, f: Field, e: HEntry, ghost rest: multiset<Block>)
    returns (ok: bool, r: HEntry)
    requires stream.Valid() && HasOwn(f)
    requires ShapeEntry(T, f, e) && Conserved(heap, rest, EntryBlocks(e))
    modifies stream, heap
    ensures stream.Valid() && stream.End() == old(stream.End())
    ensures Conserved(heap, rest, EntryBlocks(r)) && ShapeEntry(T, f, r) && (ok ==> r.own.Some?)
    ensures old(heap.denied) ==> heap.denied
    ensures Agrees(heap, ok, StoredEntry(r), stream.Rest(), ReadValue(T, f, WT_STRING, old(stream.Rest()), Fresh(T, f)))
  {
    LeafEntry(T, f, e);
    var q, bytes;
    ok, q, bytes := DecPointerBlob(stream, heap, f, e.own, rest);
    r := Item(q, Leaf(Blob(bytes)));
    LeafEntry(T, f, r);
  }

  /** decode_basic_field on an array entry, a pointee or a member. */
  method DecodeBasicField(
    T: Table, stream: IStream, wt: nat, heap: Allocator, f: Field, e: HEntry, ghost rest: multiset<Block>)
    returns (ok: bool, r: HEntry)
    requires TableOk(T) && stream.Valid() && SizeOk(f) && ShapeEntry(T, f, e) && (f.atype.Static? ==> e.own.None?)
    requires Conserved(heap, rest, EntryBlocks(e)) && (!NoInit(f) ==> ValBlocks(e.v) == multiset{})
    modifies stream, heap
    ensures stream.Valid() && stream.End() <= old(stream.End()) && (ok ==> stream.End() == old(stream.End()))
    ensures Conserved(heap, rest, EntryBlocks(r)) && ShapeEntry(T, f, r) && (old(heap.denied) ==> heap.denied)
    ensures r.own.Some? ==> HasOwn(f)
    ensures ok && HasOwn(f) ==> r.own.Some?
    ensures Agrees(heap, ok, StoredEntry(r), stream.Rest(), ReadValue(T, f, wt, old(stream.Rest()), Start(T, f, e.v)))
    decreases stream.bytesLeft, 1
  {
    r := e;
    if f.ltype.LSubmsg? {
      if wt != WT_STRING { return false, e; }
      Nothing(ValBlocks(e.v));
      var w;
      ok, w := DecSubmessage(T, stream, heap, f, e.v, rest);
      Nothing(ValBlocks(w));
      r := Item(None, w);
    } else if HasOwn(f) {
      if wt != WT_STRING { return false, e; }
      ok, r := DecodeBlobEntry(T, stream, heap, f, e, rest);
    } else {
      var value;
      ok, value := DecodeLeaf(T, stream, wt, f, Start(T, f, e.v));
      LeafEntry(T, f, e);
      if ok {
        r := Item(e.own, Leaf(value));
        LeafEntry(T, f, r);
      }
    }
  }

  // ----- static members -----

  /** One more entry. */
  lemma Append(heap: Allocator, rest: multiset<Block>, es: seq<HEntry>, r: HEntry)
    ensures EntriesBlocks(es + [r]) == EntriesBlocks(es) + EntryBlocks(r)
    ensures Conserved(heap, rest, EntriesBlocks(es + [r]))
         <==> Conserved(heap, rest + EntriesBlocks(es), EntryBlocks(r))
  {
    EntriesConcat(es, [r]);
    EntryAlone(r);
    Inside(heap, rest, EntriesBlocks(es), EntryBlocks(r));
  }

  /** Storage that is new: cleared, owning nothing, and then decoded into. */
  method DecodeNew(T: Table, stream: IStream, wt: nat, heap: Allocator, f: Field, ghost rest: multiset<Block>)
    returns (ok: bool, e: HEntry)
    requires TableOk(T) && stream.Valid() && SizeOk(f) && !NoInit(f) && heap.Valid() && multiset(heap.live) == rest
    modifies stream, heap
    ensures stream.Valid() && stream.End() <= old(stream.End()) && (ok ==> stream.End() == old(stream.End()))
    ensures Conserved(heap, rest, EntryBlocks(e)) && ShapeEntry(T, f, e) && (old(heap.denied) ==> heap.denied)
    ensures e.own.Some? ==> HasOwn(f)
    ensures ok && HasOwn(f) ==> e.own.Some?
    ensures Agrees(heap, ok, StoredEntry(e), stream.Rest(), ReadValue(T, f, wt, old(stream.Rest()), Fresh(T, f)))
    decreases stream.bytesLeft, 2
  {
    NewItemOwnsNothing(T, f);
    Nothing(multiset{});
    Nothing(rest);
    ok, e := DecodeBasicField(T, stream, wt, heap, f, Item(None, NewItem(T, f)), rest);
  }

  /** One more entry of an array, as the decoding function reads it. */
  lemma ReadEntry(T: Table, f: Field, wt: nat, bs: seq<byte>, items: seq<Value>)
    requires !(wt == WT_STRING && Packable(f.ltype)) && |items| < Capacity(f)
    ensures ReadSlot(T, f, wt, bs, Many(items))
         == match ReadValue(T, f, wt, bs, Fresh(T, f))
            { case Fail => Fail
              case Ok(x, r) => Ok(Many(items + [x]), r) }
  {
  }

  /** The entry a number makes. */
  function NumberEntry(n: int): HEntry {
    Item(None, Leaf(Num(n)))
  }

  /** One more number in a static array that has room. */
  lemma StaticMore(T: Table, f: Field, es: seq<HEntry>, count: nat, e: HEntry)
    requires ShapeSlot(T, f, Entries(es, count)) && count < f.arraySize && ShapeEntry(T, f, e) && e.own.None?
    ensures ShapeSlot(T, f, Entries(es + [e], count + 1))
    ensures StoredEntries(es + [e]) == StoredEntries(es) + [StoredEntry(e)]
  {
    StoredMore(es, e);
  }

  /** The loop over a packed static array. */
  method FillStatic(sub: IStream, T: Table, f: Field, es: seq<HEntry>, count: nat)
    returns (status: bool, fs: seq<HEntry>, n: nat)
    requires sub.Valid() && SizeOk(f) && Packable(f.ltype) && ShapeSlot(T, f, Entries(es, count))
    modifies sub
    ensures sub.Valid() && sub.End() == old(sub.End()) && ShapeSlot(T, f, Entries(fs, n))
    ensures ReadPacked(f, old(sub.Rest()), StoredEntries(es))
         == if status && sub.bytesLeft == 0 then Some(StoredEntries(fs)) else None
  {
    fs, n, status := es, count, true;
    while sub.bytesLeft > 0 && n < f.arraySize && status
      invariant sub.Valid() && sub.End() == old(sub.End()) && ShapeSlot(T, f, Entries(fs, n))
      invariant ReadPacked(f, old(sub.Rest()), StoredEntries(es))
           == if status then ReadPacked(f, sub.Rest(), StoredEntries(fs)) else None
      decreases status, sub.bytesLeft
    {
      var value;
      status, value := DecodeNumber(sub, WT_PACKED, f);
      if status {
        StaticMore(T, f, fs, n, NumberEntry(value));
        fs, n := fs + [NumberEntry(value)], n + 1;
      }
    }
  }

  /** The packed case of decode_static_field: numbers only, no blocks. */
  method DecodePackedStatic(T: Table, stream: IStream, f: Field, s: HSlot) returns (ok: bool, r: HSlot)
    requires stream.Valid() && SizeOk(f) && Packable(f.ltype) && s.Entries? && ShapeSlot(T, f, s)
    modifies stream
    ensures stream.Valid() && stream.End() <= old(stream.End()) && (ok ==> stream.End() == old(stream.End()))
    ensures r.Entries? && ShapeSlot(T, f, r)
    ensures ReadSlot(T, f, WT_STRING, old(stream.Rest()), StoredSlot(s))
         == if ok then Ok(StoredSlot(r), stream.Rest()) else Fail
  {
    r := s;
    var sub;
    ok, sub := stream.MakeStringSubstream();
    if !ok { return; }
    var status, fs, n := FillStatic(sub, T, f, s.entries, s.count);
    r := Entries(fs, n);
    if sub.bytesLeft != 0 { return false, r; }
    ok := stream.CloseStringSubstream(sub);
    ok := status;
  }

  /** The unpacked case: the count goes up before the entry is decoded, even past the end. */
  method DecodeStaticEntry(
    T: Table, stream: IStream, wt: nat, heap: Allocator, f: Field, s: HSlot, ghost rest: multiset<Block>)
    returns (ok: bool, r: HSlot)
    requires TableOk(T) && stream.Valid() && SizeOk(f) && s.Entries? && ShapeSlot(T, f, s)
    requires Conserved(heap, rest, SlotBlocks(s)) && !(wt == WT_STRING && Packable(f.ltype))
    modifies stream, heap
    ensures stream.Valid() && stream.End() <= old(stream.End()) && (ok ==> stream.End() == old(stream.End()))
    ensures Conserved(heap, rest, SlotBlocks(r)) && ShapeSlot(T, f, r) && (old(heap.denied) ==> heap.denied)
    ensures Agrees(heap, ok, StoredSlot(r), stream.Rest(), ReadSlot(T, f, wt, old(stream.Rest()), StoredSlot(s)))
    decreases stream.bytesLeft, 3
  {
    if s.count >= f.arraySize { return false, Entries(s.entries, s.count + 1); }
    ReadEntry(T, f, wt, stream.Rest(), StoredEntries(s.entries));
    var e;
    ok, e := DecodeNew(T, stream, wt, heap, f, rest + EntriesBlocks(s.entries));
    Append(heap, rest, s.entries, e);
    StaticMore(T, f, s.entries, s.count, e);
    r := Entries(s.entries + [e], s.count + 1);
  }

  /** A single static member; its has-flag is set. */
  method DecodeMember(
    T: Table, stream: IStream, wt: nat, heap: Allocator, f: Field, s: HSlot, ghost rest: multiset<Block>)
    returns (ok: bool, r: HSlot)
    requires TableOk(T) && stream.Valid() && SizeOk(f) && s.Member? && ShapeSlot(T, f, s)
    requires Conserved(heap, rest, SlotBlocks(s))
    modifies stream, heap
    ensures stream.Valid() && stream.End() <= old(stream.End()) && (ok ==> stream.End() == old(stream.End()))
    ensures Conserved(heap, rest, SlotBlocks(r)) && ShapeSlot(T, f, r) && (old(heap.denied) ==> heap.denied)
    ensures Agrees(heap, ok, StoredSlot(r), stream.Rest(), ReadSlot(T, f, wt, old(stream.Rest()), StoredSlot(s)))
    decreases stream.bytesLeft, 2
  {
    Nothing(ValBlocks(s.v));
    var e;
    ok, e := DecodeBasicField(T, stream, wt, heap, f, Item(None, s.v), rest);
    Nothing(ValBlocks(e.v));
    r := Member(if s.has.Some? then Some(true) else None, e.v);
  }

  /** decode_static_field */
  method DecodeStaticField(
    T: Table, stream: IStream, wt: nat, heap: Allocator, f: Field, s: HSlot, ghost rest: multiset<Block>)
    returns (ok: bool, r: HSlot)
    requires TableOk(T) && stream.Valid() && SizeOk(f) && f.atype.Static? && ShapeSlot(T, f, s)
    requires Conserved(heap, rest, SlotBlocks(s))
    modifies stream, heap
    ensures stream.Valid() && stream.End() <= old(stream.End()) && (ok ==> stream.End() == old(stream.End()))
    ensures Conserved(heap, rest, SlotBlocks(r)) && ShapeSlot(T, f, r) && (old(heap.denied) ==> heap.denied)
    ensures Agrees(heap, ok, StoredSlot(r), stream.Rest(), ReadSlot(T, f, wt, old(stream.Rest()), StoredSlot(s)))
    decreases stream.bytesLeft, 4
  {
    if !f.htype.Repeated? {
      ok, r := DecodeMember(T, stream, wt, heap, f, s, rest);
    } else if wt == WT_STRING && Packable(f.ltype) {
      PlainEntries(T, f, s.entries);
      ok, r := DecodePackedStatic(T, stream, f, s);
      PlainEntries(T, f, r.entries);
    } else {
      ok, r := DecodeStaticEntry(T, stream, wt, heap, f, s, rest);
    }
  }

  // ----- pointers -----

  /** A pointer that is NULL afterwards if it was a submessage: the duplicate is released first. */
  method DropDuplicate(
    T: Table, heap: Allocator, f: Field, s: HSlot, ghost rest: multiset<Block>)
    returns (p: Option<Block>)
    requires s.Ref? && ShapeSlot(T, f, s) && Conserved(heap, rest, SlotBlocks(s))
    modifies heap
    ensures Conserved(heap, rest, Own(p)) && heap.denied == old(heap.denied)
    ensures p == if f.ltype.LSubmsg? then None else s.block
    ensures HasRoom(p, Needed(f, NIL))
  {
    p := s.block;
    if f.ltype.LSubmsg? && s.block.Some? {
      ReleasePointer(T, heap, f, s, rest);
      p := None;
      Nothing(rest);
    } else if s.block.Some? {
      assert ShapeVal(T, f, s.v) && ValBlocks(s.v) == multiset{};
      Nothing(Own(s.block));
    } else {
      assert SlotBlocks(s) == multiset{} == Own(p);
    }
  }

  /** A pointer, as the decoding function reads it: from a fresh value. */
  lemma ReadRef(T: Table, f: Field, wt: nat, bs: seq<byte>, p: Option<Value>)
    ensures ReadSlot(T, f, wt, bs, Ptr(p))
         == match ReadValue(T, f, wt, bs, Fresh(T, f))
            { case Fail => Fail
              case Ok(x, r) => Ok(Ptr(Some(x)), r) }
  {
  }

  /** A string behind a pointer is its own block. */
  lemma BlobRef(T: Table, f: Field, e: HEntry)
    requires HasOwn(f) && ShapeEntry(T, f, e)
    ensures EntryBlocks(e) == SlotBlocks(Ref(e.own, e.v))
  {
    LeafEntry(T, f, e);
    assert ShapeVal(T, f, e.v);
    Nothing(Own(e.own));
  }

  /** A pointer to a string or byte array. */
  method DecodeBlobRef(
    T: Table, stream: IStream, wt: nat, heap: Allocator, f: Field, p: Option<Block>, ghost rest: multiset<Block>)
    returns (ok: bool, r: HSlot)
    requires TableOk(T) && stream.Valid() && SizeOk(f) && HasOwn(f) && !f.htype.Repeated?
    requires Conserved(heap, rest, Own(p)) && HasRoom(p, Needed(f, NIL))
    modifies stream, heap
    ensures stream.Valid() && stream.End() <= old(stream.End()) && (ok ==> stream.End() == old(stream.End()))
    ensures Conserved(heap, rest, SlotBlocks(r)) && ShapeSlot(T, f, r) && (old(heap.denied) ==> heap.denied)
    ensures Agrees(heap, ok, StoredSlot(r), stream.Rest(), ReadSlot(T, f, wt, old(stream.Rest()), Ptr(None)))
    decreases stream.bytesLeft, 2
  {
    var e;
    Nothing(Own(p));
    ReadRef(T, f, wt, stream.Rest(), None);
    ok, e := DecodeBasicField(T, stream, wt, heap, f, Item(p, Leaf(Blob([]))), rest);
    assert EntryBlocks(e) == SlotBlocks(Ref(e.own, e.v)) by { BlobRef(T, f, e); }
    r := Ref(e.own, e.v);
  }

  /** A pointer to anything else: its block first, then what is in it. */
  method DecodeItemRef(
    T: Table, stream: IStream, wt: nat, heap: Allocator, f: Field, p: Option<Block>, ghost rest: multiset<Block>)
    returns (ok: bool, r: HSlot)
    requires TableOk(T) && stream.Valid() && SizeOk(f) && f.atype.Pointer? && !HasOwn(f) && !f.htype.Repeated?
    requires Conserved(heap, rest, Own(p)) && HasRoom(p, Needed(f, NIL)) && (f.ltype.LSubmsg? ==> p.None?)
    modifies stream, heap
    ensures stream.Valid() && stream.End() <= old(stream.End()) && (ok ==> stream.End() == old(stream.End()))
    ensures Conserved(heap, rest, SlotBlocks(r)) && ShapeSlot(T, f, r) && (old(heap.denied) ==> heap.denied)
    ensures Agrees(heap, ok, StoredSlot(r), stream.Rest(), ReadSlot(T, f, wt, old(stream.Rest()), Ptr(None)))
    decreases stream.bytesLeft, 3
  {
    var q;
    SizesAllow(f, 1);
    ok, q := AllocateField(heap, p, f.dataSize, 1, rest);
    if !ok {
      Nothing(Own(q));
      return false, Ref(q, NIL);
    }
    ReadRef(T, f, wt, stream.Rest(), None);
    var e;
    ok, e := DecodeNew(T, stream, wt, heap, f, rest + Own(q));
    Nothing(ValBlocks(e.v));
    Inside(heap, rest, Own(q), ValBlocks(e.v));
    r := Ref(q, e.v);
  }

  /** The single pointer of decode_pointer_field. */
  method DecodeRef(T: Table, stream: IStream, wt: nat, heap: Allocator, f: Field, s: HSlot, ghost rest: multiset<Block>)
    returns (ok: bool, r: HSlot)
    requires TableOk(T) && stream.Valid() && SizeOk(f) && s.Ref? && ShapeSlot(T, f, s)
    requires Conserved(heap, rest, SlotBlocks(s))
    modifies stream, heap
    ensures stream.Valid() && stream.End() <= old(stream.End()) && (ok ==> stream.End() == old(stream.End()))
    ensures Conserved(heap, rest, SlotBlocks(r)) && ShapeSlot(T, f, r) && (old(heap.denied) ==> heap.denied)
    ensures Agrees(heap, ok, StoredSlot(r), stream.Rest(), ReadSlot(T, f, wt, old(stream.Rest()), StoredSlot(s)))
    decreases stream.bytesLeft, 4
  {
    ReadRef(T, f, wt, stream.Rest(), if s.block.Some? then Some(StoredVal(s.v)) else None);
    ReadRef(T, f, wt, stream.Rest(), None);
    var p := DropDuplicate(T, heap, f, s, rest);
    if HasOwn(f) {
      ok, r := DecodeBlobRef(T, stream, wt, heap, f, p, rest);
    } else {
      ok, r := DecodeItemRef(T, stream, wt, heap, f, p, rest);
    }
  }

  /** A guess at the room for what is still to come, but one more entry at least. */
  method NextRoom(dataSize: nat, room0: nat, left: nat) returns (room: nat)
    requires dataSize > 0 && left > 0 && room0 < SIZE_MAX
    ensures room0 < room <= SIZE_MAX
  {
    var remain := (left - 1) / dataSize + 1;
    room := if remain < SIZE_MAX - room0 then room0 + remain else room0 + 1;
  }

  /** Room for one more entry of a packed pointer array. */
  method Grow(
    heap: Allocator, f: Field, p: Option<Block>, size: nat, room0: nat, left: nat, ghost rest: multiset<Block>)
    returns (ok: bool, q: Option<Block>, room: nat)
    requires Conserved(heap, rest, Own(p)) && left > 0 && size <= room0 && (room0 > 0 ==> p.Some?)
    requires SizeOk(f) && f.atype.Pointer? && size < SIZE_MAX && HasRoom(p, f.dataSize * room0)
    modifies heap
    ensures Conserved(heap, rest, Own(q)) && (p.Some? ==> q.Some?)
    ensures if ok then size < room && q.Some? && heap.denied == old(heap.denied) else heap.denied && q == p
    ensures ok ==> HasRoom(q, f.dataSize * room)
  {
    if size + 1 <= room0 { return true, p, room0; }
    room := NextRoom(f.dataSize, room0, left);
    SizesAllow(f, room);
    ok, q := AllocateField(heap, p, f.dataSize, room, rest);
  }

  ghost predicate IsNumber(e: HEntry) {
    e.own.None? && e.v.Leaf? && !e.v.value.Msg?
  }

  /** A pointer array of numbers. */
  ghost predicate NumberArray(f: Field, q: Option<Block>, es: seq<HEntry>) {
    && |es| <= SIZE_MAX && (q.None? ==> es == []) && HasRoom(q, f.dataSize * |es|)
    && forall i :: 0 <= i < |es| ==> IsNumber(es[i])
  }

  /** A block with room for n entries has room for fewer. */
  lemma RoomForLess(q: Option<Block>, size: nat, m: nat, n: nat)
    requires HasRoom(q, size * n) && m <= n
    ensures HasRoom(q, size * m)
  {
    MulMonotone(m, n, size);
  }

  /** The arrays of a field that stores numbers. */
  lemma NumbersShape(T: Table, f: Field, q: Option<Block>, es: seq<HEntry>)
    requires Packable(f.ltype) && f.atype.Pointer? && f.htype.Repeated?
    ensures ShapeSlot(T, f, RefArray(q, es)) <==> NumberArray(f, q, es)
  {
    forall i | 0 <= i < |es| ensures ShapeEntry(T, f, es[i]) <==> IsNumber(es[i]) {
      assert ShapeVal(T, f, es[i].v) <==> es[i].v.Leaf? && !es[i].v.value.Msg?;
    }
  }

  /** They have no blocks but their own. */
  lemma NumbersOwnNothing(f: Field, q: Option<Block>, es: seq<HEntry>)
    requires NumberArray(f, q, es)
    ensures SlotBlocks(RefArray(q, es)) == Own(q)
  {
    forall i | 0 <= i < |es| ensures EntryBlocks(es[i]) == multiset{} {
      assert IsNumber(es[i]);
      Nothing(multiset{});
    }
    NoEntryBlocks(es);
    Nothing(Own(q));
  }

  /** One number of a packed pointer array. */
  method FillOne(
    sub: IStream, heap: Allocator, f: Field, p: Option<Block>, es: seq<HEntry>, room0: nat, ghost rest: multiset<Block>)
    returns (status: bool, q: Option<Block>, fs: seq<HEntry>, room: nat)
    requires sub.Valid() && sub.bytesLeft > 0 && SizeOk(f) && Packable(f.ltype) && f.atype.Pointer?
    requires NumberArray(f, p, es) && |es| <= room0 && (room0 > 0 ==> p.Some?) && Conserved(heap, rest, Own(p))
    requires HasRoom(p, f.dataSize * room0)
    modifies sub, heap
    ensures sub.Valid() && sub.End() == old(sub.End()) && (old(heap.denied) ==> heap.denied)
    ensures status ==> sub.bytesLeft < old(sub.bytesLeft) && |fs| <= room && (room > 0 ==> q.Some?)
    ensures status ==> HasRoom(q, f.dataSize * room)
    ensures Conserved(heap, rest, Own(q)) && NumberArray(f, q, fs)
    ensures status ==> ReadPacked(f, old(sub.Rest()), StoredEntries(es)) == ReadPacked(f, sub.Rest(), StoredEntries(fs))
    ensures !status && !heap.denied ==> ReadPacked(f, old(sub.Rest()), StoredEntries(es)) == None
  {
    q, fs, room := p, es, room0;
    if |fs| == SIZE_MAX { return false, q, fs, room; }
    status, q, room := Grow(heap, f, q, |fs|, room, sub.bytesLeft, rest);
    if !status { return; }
    RoomForLess(q, f.dataSize, |fs| + 1, room);
    RoomForLess(q, f.dataSize, |fs|, room);
    var value;
    status, value := DecodeNumber(sub, WT_PACKED, f);
    if status {
      StoredMore(fs, NumberEntry(value));
      fs := fs + [NumberEntry(value)];
    }
  }

  /** The loop over a packed pointer array: its storage grows as needed. */
  method FillRef(
    sub: IStream, heap: Allocator, f: Field, p: Option<Block>, es: seq<HEntry>, ghost rest: multiset<Block>)
    returns (status: bool, q: Option<Block>, fs: seq<HEntry>)
    requires sub.Valid() && SizeOk(f) && Packable(f.ltype) && f.atype.Pointer?
    requires NumberArray(f, p, es) && Conserved(heap, rest, Own(p))
    modifies sub, heap
    ensures sub.Valid() && sub.End() == old(sub.End()) && (old(heap.denied) ==> heap.denied)
    ensures Conserved(heap, rest, Own(q)) && NumberArray(f, q, fs)
    ensures status || !heap.denied ==>
              ReadPacked(f, old(sub.Rest()), StoredEntries(es)) == if status then Some(StoredEntries(fs)) else None
    ensures status ==> sub.bytesLeft == 0
  {
    q, fs, status := p, es, true;
    var room := |es|;
    while sub.bytesLeft > 0
      invariant sub.Valid() && sub.End() == old(sub.End()) && (old(heap.denied) ==> heap.denied) && status
      invariant Conserved(heap, rest, Own(q)) && NumberArray(f, q, fs)
      invariant |fs| <= room && (room > 0 ==> q.Some?) && HasRoom(q, f.dataSize * room)
      invariant ReadPacked(f, old(sub.Rest()), StoredEntries(es)) == ReadPacked(f, sub.Rest(), StoredEntries(fs))
      decreases sub.bytesLeft
    {
      status, q, fs, room := FillOne(sub, heap, f, q, fs, room, rest);
      if !status { return; }
    }
  }

  /** A packed array, as the decoding function reads it. */
  lemma ReadPackedSlot(T: Table, f: Field, bs: seq<byte>, items: seq<Value>)
    requires Packable(f.ltype) && ReadFrame(bs).Ok?
    ensures ReadSlot(T, f, WT_STRING, bs, Many(items))
         == match ReadPacked(f, ReadFrame(bs).value, items)
            { case None => Fail
              case Some(xs) => Ok(Many(xs), ReadFrame(bs).rest) }
  {
  }

  /** The packed case of decode_pointer_field. */
  method DecodePackedRef(T: Table, stream: IStream, heap: Allocator, f: Field, s: HSlot, ghost rest: multiset<Block>)
    returns (ok: bool, r: HSlot)
    requires stream.Valid() && SizeOk(f) && Packable(f.ltype) && f.atype.Pointer?
    requires s.RefArray? && NumberArray(f, s.block, s.entries) && Conserved(heap, rest, Own(s.block))
    modifies stream, heap
    ensures stream.Valid() && stream.End() <= old(stream.End()) && (ok ==> stream.End() == old(stream.End()))
    ensures r.RefArray? && NumberArray(f, r.block, r.entries) && Conserved(heap, rest, Own(r.block))
    ensures old(heap.denied) ==> heap.denied
    ensures Agrees(heap, ok, StoredSlot(r), stream.Rest(), ReadSlot(T, f, WT_STRING, old(stream.Rest()), StoredSlot(s)))
  {
    r := s;
    var sub;
    ok, sub := stream.MakeStringSubstream();
    if !ok { return; }
    ReadPackedSlot(T, f, old(stream.Rest()), StoredEntries(s.entries));
    var status, q, fs := FillRef(sub, heap, f, s.block, s.entries, rest);
    r := RefArray(q, fs);
    ok := stream.CloseStringSubstream(sub);
    ok := status;
  }

  /** Storage for one more entry of a pointer array. */
  method ReserveEntry(
    T: Table, heap: Allocator, f: Field, s: HSlot, ghost rest: multiset<Block>)
    returns (ok: bool, q: Option<Block>)
    requires s.RefArray? && ShapeSlot(T, f, s) && Conserved(heap, rest, SlotBlocks(s))
    requires SizeOk(f) && |s.entries| < SIZE_MAX
    modifies heap
    ensures if ok then q.Some? && Conserved(heap, rest + EntriesBlocks(s.entries), Own(q))
            else Conserved(heap, rest, SlotBlocks(s))
    ensures heap.denied <==> old(heap.denied) || !ok
    ensures ok ==> HasRoom(q, f.dataSize * (|s.entries| + 1))
  {
    ghost var es := EntriesBlocks(s.entries);
    assert SlotBlocks(s) == Own(s.block) + es by { Nothing(multiset{}); }
    Inside(heap, rest, es, Own(s.block));
    SizesAllow(f, |s.entries| + 1);
    ok, q := AllocateField(heap, s.block, f.dataSize, |s.entries| + 1, rest + es);
    Inside(heap, rest, es, Own(s.block));
  }

  lemma RefMore(T: Table, f: Field, es: seq<HEntry>, e: HEntry, q: Option<Block>)
    requires f.atype.Pointer? && f.htype.Repeated? && |es| < SIZE_MAX && q.Some? && HasRoom(q, f.dataSize * (|es| + 1))
    requires (forall i :: 0 <= i < |es| ==> ShapeEntry(T, f, es[i])) && ShapeEntry(T, f, e)
    ensures ShapeSlot(T, f, RefArray(q, es + [e])) && StoredEntries(es + [e]) == StoredEntries(es) + [StoredEntry(e)]
  {
    StoredMore(es, e);
  }

  /** The unpacked case: the array grows by one, and the new entry is decoded. */
  method DecodeRefEntry(
    T: Table, stream: IStream, wt: nat, heap: Allocator, f: Field, s: HSlot, ghost rest: multiset<Block>)
    returns (ok: bool, r: HSlot)
    requires TableOk(T) && stream.Valid() && SizeOk(f) && s.RefArray? && ShapeSlot(T, f, s)
    requires Conserved(heap, rest, SlotBlocks(s)) && !(wt == WT_STRING && Packable(f.ltype))
    modifies stream, heap
    ensures stream.Valid() && stream.End() <= old(stream.End()) && (ok ==> stream.End() == old(stream.End()))
    ensures Conserved(heap, rest, SlotBlocks(r)) && ShapeSlot(T, f, r) && (old(heap.denied) ==> heap.denied)
    ensures Agrees(heap, ok, StoredSlot(r), stream.Rest(), ReadSlot(T, f, wt, old(stream.Rest()), StoredSlot(s)))
    decreases stream.bytesLeft, 3
  {
    if |s.entries| == SIZE_MAX { return false, s; }
    ghost var es := EntriesBlocks(s.entries);
    var q;
    ok, q := ReserveEntry(T, heap, f, s, rest);
    if !ok { return false, s; }
    ReadEntry(T, f, wt, stream.Rest(), StoredEntries(s.entries));
    var e;
    ok, e := DecodeNew(T, stream, wt, heap, f, rest + es + Own(q));
    r := RefArray(q, s.entries + [e]);
    RefMore(T, f, s.entries, e, q);
    Grown(heap, rest, es, Own(q), EntryBlocks(e));
    Append(heap, rest, s.entries, e);
  }

  lemma Grown(heap: Allocator, rest: multiset<Block>, es: multiset<Block>, q: multiset<Block>, e: multiset<Block>)
    ensures Conserved(heap, rest + es + q, e) <==> Conserved(heap, rest, q + (es + e))
  {
    assert rest + es + q + e == rest + (q + (es + e));
  }

  /** decode_pointer_field */
  method DecodePointerField(
    T: Table, stream: IStream, wt: nat, heap: Allocator, f: Field, s: HSlot, ghost rest: multiset<Block>)
    returns (ok: bool, r: HSlot)
    requires TableOk(T) && stream.Valid() && SizeOk(f) && f.atype.Pointer? && ShapeSlot(T, f, s)
    requires Conserved(heap, rest, SlotBlocks(s))
    modifies stream, heap
    ensures stream.Valid() && stream.End() <= old(stream.End()) && (ok ==> stream.End() == old(stream.End()))
    ensures Conserved(heap, rest, SlotBlocks(r)) && ShapeSlot(T, f, r) && (old(heap.denied) ==> heap.denied)
    ensures Agrees(heap, ok, StoredSlot(r), stream.Rest(), ReadSlot(T, f, wt, old(stream.Rest()), StoredSlot(s)))
    decreases stream.bytesLeft, 5
  {
    if !f.htype.Repeated? {
      ok, r := DecodeRef(T, stream, wt, heap, f, s, rest);
    } else if wt == WT_STRING && Packable(f.ltype) {
      NumbersShape(T, f, s.block, s.entries);
      NumbersOwnNothing(f, s.block, s.entries);
      ok, r := DecodePackedRef(T, stream, heap, f, s, rest);
      NumbersShape(T, f, r.block, r.entries);
      NumbersOwnNothing(f, r.block, r.entries);
    } else {
      ok, r := DecodeRefEntry(T, stream, wt, heap, f, s, rest);
    }
  }

  // ----- messages -----

  /** decode_field */
  method DecodeField(
    T: Table, stream: IStream, wt: nat, heap: Allocator, f: Field, s: HSlot, ghost rest: multiset<Block>)
    returns (ok: bool, r: HSlot)
    requires TableOk(T) && stream.Valid() && SizeOk(f) && ShapeSlot(T, f, s) && Conserved(heap, rest, SlotBlocks(s))
    modifies stream, heap
    ensures stream.Valid() && stream.End() <= old(stream.End()) && (ok ==> stream.End() == old(stream.End()))
    ensures Conserved(heap, rest, SlotBlocks(r)) && ShapeSlot(T, f, r) && (old(heap.denied) ==> heap.denied)
    ensures Agrees(heap, ok, StoredSlot(r), stream.Rest(), ReadSlot(T, f, wt, old(stream.Rest()), StoredSlot(s)))
    decreases stream.bytesLeft, 6
  {
    if f.atype.Static? {
      ok, r := DecodeStaticField(T, stream, wt, heap, f, s, rest);
    } else {
      ok, r := DecodePointerField(T, stream, wt, heap, f, s, rest);
    }
  }

  /** The blocks of a structure are those of one member and the others. */
  lemma ZoomIn(heap: Allocator, rest: multiset<Block>, ss: seq<HSlot>, i: nat, r: HSlot)
    requires i < |ss|
    ensures Conserved(heap, rest, SlotsBlocks(ss[i := r])) <==> Conserved(heap, rest + Others(ss, i), SlotBlocks(r))
  {
    Focus(ss, i, r);
    Inside(heap, rest, Others(ss, i), SlotBlocks(r));
  }

  lemma ShapeUpdate(T: Table, d: nat, ss: seq<HSlot>, i: nat, r: HSlot)
    requires Shape(T, d, ss) && i < |ss| && ShapeSlot(T, At(T, d)[i], r)
    ensures Shape(T, d, ss[i := r])
  {
  }

  /** The table entry says all that matters for the shape of a member. */
  lemma ShapePlain(T: Table, f: Field, s: HSlot)
    ensures ShapeSlot(T, Plain(f), s) == ShapeSlot(T, f, s)
  {
    assert forall v :: ShapeVal(T, Plain(f), v) == ShapeVal(T, f, v);
    assert forall v :: Needed(Plain(f), v) == Needed(f, v);
    assert forall e :: ShapeEntry(T, Plain(f), e) == ShapeEntry(T, f, e);
  }

  /** The member at position i, its tag already read and its entry loaded. */
  method DecodeAt(
    T: Table, d: nat, i: nat, f: Field, stream: IStream, wt: nat, heap: Allocator, ss: seq<HSlot>,
    ghost rest: multiset<Block>)
    returns (ok: bool, r: HSlot)
    requires TableOk(T) && stream.Valid() && Shape(T, d, ss) && i < |ss| && Conserved(heap, rest, SlotsBlocks(ss))
    requires f == Plain(At(T, d)[i])
    modifies stream, heap
    ensures stream.Valid() && stream.End() <= old(stream.End()) && (ok ==> stream.End() == old(stream.End()))
    ensures Conserved(heap, rest, SlotsBlocks(ss[i := r])) && Shape(T, d, ss[i := r])
    ensures old(heap.denied) ==> heap.denied
    ensures Agrees(heap, ok, StoredSlot(r), stream.Rest(),
              ReadSlot(T, At(T, d)[i], wt, old(stream.Rest()), Stored(ss)[i]))
    decreases stream.bytesLeft, 7
  {
    FieldOkAt(T, d, i);
    ZoomIn(heap, rest, ss, i, ss[i]);
    assert ss[i := ss[i]] == ss && ShapeSlot(T, At(T, d)[i], ss[i]);
    ShapePlain(T, At(T, d)[i], ss[i]);
    Decoder.ReadSlotPlain(T, At(T, d)[i], wt, stream.Rest(), Stored(ss)[i]);
    ok, r := DecodeField(T, stream, wt, heap, f, ss[i], rest + Others(ss, i));
    ShapePlain(T, At(T, d)[i], r);
    ZoomIn(heap, rest, ss, i, r);
    ShapeUpdate(T, d, ss, i, r);
  }

  /** Iterator and required-field bits as the loop keeps them. */
  ghost predicate Tracking(T: Table, d: nat, iter: FieldIter<HSlot>, seen: FieldsSeen)
    reads iter, seen.bitfield
  {
    TableOk(T) && Marking(T, d, iter, seen) && Shape(T, d, iter.message)
  }

  /** The decoding loop as the heap decoder follows it. */
  ghost predicate Follows(
    T: Table, d: nat, before: seq<byte>, ss: seq<HSlot>, seen: set<nat>, after: seq<byte>, res: seq<HSlot>,
    seen': set<nat>)
  {
    Loop(T, d, before, Stored(ss), seen) == Loop(T, d, after, Stored(res), seen')
  }

  /** The field under the cursor, its tag already read: whatever was decoded stays in the member, also on failure. */
  method DecodeKnown(
    T: Table, d: nat, stream: IStream, wt: nat, heap: Allocator, iter: FieldIter<HSlot>, seen: FieldsSeen,
    ghost rest: multiset<Block>)
    returns (ok: bool)
    requires stream.Valid() && Tracking(T, d, iter, seen) && iter.fields != []
    requires Conserved(heap, rest, SlotsBlocks(iter.message))
    modifies stream, heap, iter, seen.bitfield
    ensures stream.Valid() && stream.End() <= old(stream.End()) && (ok ==> stream.End() == old(stream.End()))
    ensures Tracking(T, d, iter, seen) && iter.index == old(iter.index)
    ensures Conserved(heap, rest, SlotsBlocks(iter.message)) && (old(heap.denied) ==> heap.denied)
    ensures seen.Ranks() == Mark(At(T, d), iter.index, old(seen.Ranks()))
    ensures iter.message == old(iter.message)[iter.index := iter.message[iter.index]]
    ensures Agrees(heap, ok, StoredSlot(iter.message[iter.index]), stream.Rest(),
              ReadSlot(T, At(T, d)[iter.index], wt, old(stream.Rest()), Stored(old(iter.message))[iter.index]))
    decreases stream.bytesLeft, 8
  {
    iter.FieldIsCurrent();
    var f := iter.Field();
    MarkSeen(T, d, iter, seen);
    var r;
    ok, r := DecodeAt(T, d, iter.index, f, stream, wt, heap, iter.message, rest);
    iter.Store(r);
  }

  /** What a decoded member means for the loop. */
  lemma KnownFollows(
    T: Table, d: nat, i: nat, tag: nat, wt: nat, r: seq<byte>, ss: seq<HSlot>, s: HSlot, left: seq<byte>,
    seen: set<nat>)
    requires i < |At(T, d)| == |ss| && i == Find(At(T, d), tag) && tag != 0
    ensures ReadSlot(T, At(T, d)[i], wt, r, Stored(ss)[i]) == Ok(StoredSlot(s), left) ==>
              Step(T, d, tag, wt, r, Stored(ss), seen) == Loop(T, d, left, Stored(ss[i := s]), Mark(At(T, d), i, seen))
    ensures ReadSlot(T, At(T, d)[i], wt, r, Stored(ss)[i]) == Fail ==> Step(T, d, tag, wt, r, Stored(ss), seen) == Stop
  {
    StoredUpdate(ss, i, s);
  }

  /** A field whose tag has been read, known or to be skipped. */
  method DecodeTagged(
    T: Table, d: nat, tag: nat, wt: nat, stream: IStream, heap: Allocator, iter: FieldIter<HSlot>, seen: FieldsSeen,
    ghost rest: multiset<Block>)
    returns (ok: bool)
    requires stream.Valid() && tag != 0 && Tracking(T, d, iter, seen)
    requires Conserved(heap, rest, SlotsBlocks(iter.message))
    modifies stream, heap, iter, seen.bitfield
    ensures stream.Valid() && stream.End() <= old(stream.End()) && (ok ==> stream.End() == old(stream.End()))
    ensures ok ==> stream.bytesLeft <= old(stream.bytesLeft)
    ensures Tracking(T, d, iter, seen)
    ensures Conserved(heap, rest, SlotsBlocks(iter.message)) && (old(heap.denied) ==> heap.denied)
    ensures ok || !heap.denied ==>
              Step(T, d, tag, wt, old(stream.Rest()), Stored(old(iter.message)), old(seen.Ranks()))
              == if ok then Loop(T, d, stream.Rest(), Stored(iter.message), seen.Ranks()) else Stop
    decreases stream.bytesLeft, 9
  {
    ghost var r, ss, ranks := stream.Rest(), iter.message, seen.Ranks();
    var found := iter.Find(tag);
    if found {
      ok := DecodeKnown(T, d, stream, wt, heap, iter, seen, rest);
      KnownFollows(T, d, iter.index, tag, wt, r, ss, iter.message[iter.index], stream.Rest(), ranks);
    } else {
      ok := stream.SkipField(wt);
    }
  }

  /** One round of the loop: a tag, and the field or the data to skip. */
  method DecodeOne(
    T: Table, d: nat, stream: IStream, heap: Allocator, iter: FieldIter<HSlot>, seen: FieldsSeen,
    ghost rest: multiset<Block>)
    returns (ok: bool)
    requires stream.Valid() && stream.bytesLeft > 0 && Tracking(T, d, iter, seen)
    requires Conserved(heap, rest, SlotsBlocks(iter.message))
    modifies stream, heap, iter, seen.bitfield
    ensures stream.Valid() && stream.End() <= old(stream.End())
    ensures ok ==> stream.End() == old(stream.End()) && stream.bytesLeft < old(stream.bytesLeft)
    ensures Tracking(T, d, iter, seen)
    ensures Conserved(heap, rest, SlotsBlocks(iter.message)) && (old(heap.denied) ==> heap.denied)
    ensures ok ==> Follows(T, d, old(stream.Rest()), old(iter.message), old(seen.Ranks()), stream.Rest(),
              iter.message, seen.Ranks())
    ensures !ok && !heap.denied ==> Loop(T, d, old(stream.Rest()), Stored(old(iter.message)), old(seen.Ranks())) == Stop
    decreases stream.bytesLeft, 9
  {
    ghost var bs, ss, ranks := stream.Rest(), Stored(iter.message), seen.Ranks();
    var wt, tag, eof;
    ok, wt, tag, eof := stream.DecodeTag();
    if !ok { return; }
    assert Loop(T, d, bs, ss, ranks) == Step(T, d, tag, wt, stream.Rest(), ss, ranks);
    if tag == 0 { return false; }
    ok := DecodeTagged(T, d, tag, wt, stream, heap, iter, seen, rest);
  }

  /** The members of an initial structure: nothing is allocated. */
  function Placed(T: Table, d: nat, ss: seq<Slot>): (hs: seq<HSlot>)
    requires |ss| == |At(T, d)|
    ensures |hs| == |ss|
    decreases ss, 2
  {
    seq(|ss|, i requires 0 <= i < |ss| => PlacedSlot(T, At(T, d)[i], ss[i]))
  }

  function PlacedSlot(T: Table, f: Field, s: Slot): HSlot
    decreases s, 1
  {
    match s
    case One(v) => Member(None, PlacedValue(T, f, v))
    case Opt(has, v) => Member(Some(has), PlacedValue(T, f, v))
    case Many(_) => if f.atype.Static? then Entries([], 0) else RefArray(None, [])
    case Ptr(_) => Ref(None, NIL)
  }

  function PlacedValue(T: Table, f: Field, v: Value): HVal
    decreases v, 0
  {
    if v.Msg? then Struct(if |v.slots| == |At(T, f.sub)| then Placed(T, f.sub, v.slots) else []) else Leaf(v)
  }

  lemma {:induction false} PlacedInit(T: Table, d: nat)
    requires TableOk(T)
    ensures Placed(T, d, InitMsg(T, d)) == NewStruct(T, d, true)
    decreases d, 1
  {
    forall i | 0 <= i < |At(T, d)| ensures Placed(T, d, InitMsg(T, d))[i] == NewStruct(T, d, true)[i] {
      FieldOkAt(T, d, i);
      PlacedInitSlot(T, d, At(T, d)[i]);
    }
  }

  lemma {:induction false} PlacedInitSlot(T: Table, d: nat, f: Field)
    requires TableOk(T) && FieldOk(T, d, f)
    ensures PlacedSlot(T, f, InitSlot(T, d, f)) == NewSlot(T, d, f, true)
    decreases d, 0
  {
    if f.ltype.LSubmsg? && f.sub < d { PlacedInit(T, f.sub); }
    assert !f.ltype.LSubmsg? ==> !InitValue(T, d, f).Msg?;
  }

  /** An iterator over the destination, initialised unless told not to. */
  method Prepare(T: Table, d: nat, dest: seq<HSlot>, noInit: bool) returns (iter: FieldIter<HSlot>)
    requires TableOk(T) && Shape(T, d, dest)
    ensures fresh(iter) && iter.Valid() && iter.fields == At(T, d)
    ensures iter.message == if noInit then dest else NewStruct(T, d, true)
  {
    BindableAt(T, d);
    if noInit || |At(T, d)| == 0 {
      iter := new FieldIter<HSlot>.Begin(At(T, d), dest);
    } else {
      var defaults := new FieldIter<Slot>.Begin(At(T, d), ZeroMsg(T, d));
      MessageSetToDefaults(T, d, defaults);
      PlacedInit(T, d);
      iter := new FieldIter<HSlot>.Begin(At(T, d), Placed(T, d, defaults.message));
    }
  }

  /**
    pb_decode_inner: the message of the decoding function unless memory was
    refused; and whatever happens, the blocks in use are those the message owns.
   */
  method DecodeInner(
    T: Table, d: nat, stream: IStream, heap: Allocator, dest: seq<HSlot>, noInit: bool, ghost rest: multiset<Block>)
    returns (ok: bool, res: seq<HSlot>)
    requires TableOk(T) && stream.Valid() && Shape(T, d, dest) && Conserved(heap, rest, SlotsBlocks(dest))
    requires !noInit ==> SlotsBlocks(dest) == multiset{}
    modifies stream, heap
    ensures stream.Valid() && stream.End() <= old(stream.End())
    ensures ok ==> stream.End() == old(stream.End()) && stream.bytesLeft == 0
    ensures Conserved(heap, rest, SlotsBlocks(res)) && Shape(T, d, res) && (old(heap.denied) ==> heap.denied)
    ensures ok || !heap.denied ==>
              DecodeInto(T, d, old(stream.Rest()), if noInit then Stored(dest) else InitMsg(T, d))
              == if ok then Some(Stored(res)) else None
    decreases stream.bytesLeft, 10
  {
    NewOwnsNothing(T, d, true);
    NewStoresInit(T, d);
    var iter := Prepare(T, d, dest, noInit);
    var seen := new FieldsSeen();
    ghost var start := iter.message;
    res := iter.message;
    while stream.bytesLeft > 0
      invariant stream.Valid() && stream.End() == old(stream.End()) && stream.bytesLeft <= old(stream.bytesLeft)
      invariant Tracking(T, d, iter, seen) && res == iter.message
      invariant Conserved(heap, rest, SlotsBlocks(res)) && (old(heap.denied) ==> heap.denied)
      invariant Follows(T, d, old(stream.Rest()), start, {}, stream.Rest(), res, seen.Ranks())
      decreases stream.bytesLeft
    {
      ok := DecodeOne(T, d, stream, heap, iter, seen, rest);
      res := iter.message;
      if !ok { return; }
    }
    ok := CheckRequired(T, d, iter, seen);
  }

  /**
    pb_decode on a destination without blocks: unless memory is refused it
    does what the decoding function says; on success exactly the blocks the
    message owns have been added, on failure none is left.
   */
  method PbDecode(
    T: Table, d: nat, stream: IStream, heap: Allocator, dest: seq<HSlot>)
    returns (ok: bool, res: seq<HSlot>)
    requires TableOk(T) && stream.Valid() && heap.Valid() && Shape(T, d, dest) && SlotsBlocks(dest) == multiset{}
    modifies stream, heap
    ensures Shape(T, d, res)
    ensures ok || !heap.denied ==> Decode(T, d, old(stream.Rest())) == if ok then Some(Stored(res)) else None
    ensures ok ==> Conserved(heap, multiset(old(heap.live)), SlotsBlocks(res)) && stream.bytesLeft == 0
    ensures !ok ==> heap.Valid() && heap.live == old(heap.live) && SlotsBlocks(res) == multiset{}
  {
    ghost var rest := multiset(heap.live);
    Nothing(rest);
    ok, res := DecodeInner(T, d, stream, heap, dest, false, rest);
    if !ok {
      res := Release(T, d, heap, res, rest);
      SameBlocks(heap.live, old(heap.live));
    }
  }

  lemma SameBlocks(a: set<Block>, b: set<Block>)
    requires multiset(a) == multiset(b)
    ensures a == b
  {
    forall x: Block ensures x in a <==> x in b { assert x in multiset(a) <==> x in multiset(b); }
  }
}
