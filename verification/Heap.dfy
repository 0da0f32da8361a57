/**
  Heap storage of pointer fields: the allocator, the blocks a structure owns,
  and pb_release. A structure owns each of its blocks once, release frees
  exactly those, and nothing is ever freed that is not allocated.
 */
module Heap {
  import opened Wire
  import opened Descriptor

  // ----- the allocator -----

  /** A block of memory: an identity and the size that was asked for. */
  datatype Block = Block(id: nat, size: nat)

  function Own(p: Option<Block>): multiset<Block> {
    if p.Some? then multiset{p.value} else multiset{}
  }

  /** malloc as the decoder sees it: any request may be refused. */
  class Allocator {
    var live: set<Block>
    var next: nat
    /** Whether request number n is granted. */
    const grants: nat -> bool
    /** Every block freed so far. */
    ghost var freed: multiset<Block>
    /** Whether malloc has ever refused a request. */
    ghost var denied: bool

    ghost predicate Valid()
      reads this
    {
      forall b :: b in live ==> b.id < next
    }

    constructor (grants: nat -> bool)
      ensures Valid() && live == {} && freed == multiset{} && !denied
    {
      this.grants := grants;
      live, next, freed, denied := {}, 0, multiset{}, false;
    }

    /** pb_realloc: a new block in place of p; on failure p stays as it is. */
    method Realloc(p: Option<Block>, size: nat, ghost rest: multiset<Block>) returns (q: Option<Block>)
      requires Valid() && multiset(live) == rest + Own(p)
      modifies this
      ensures Valid() && freed == old(freed)
      ensures multiset(live) == rest + Own(if q.Some? then q else p)
      ensures denied <==> old(denied) || q.None?
      ensures q.Some? ==> q.value.size == size
    {
      var request := Block(next, size);
      next := next + 1;
      if !grants(request.id) {
        denied := true;
        return None;
      }
      if p.Some? {
        assert p.value in multiset(live);
        Removed(live, p.value, rest);
        live := live - {p.value};
      }
      Added(live, request, rest);
      live := live + {request};
      q := Some(request);
    }

    /** pb_free: only a live block, or NULL, may be given back. */
    method Free(p: Option<Block>, ghost rest: multiset<Block>)
      requires Valid() && multiset(live) == rest + Own(p)
      modifies this
      ensures Valid() && multiset(live) == rest && freed == old(freed) + Own(p) && denied == old(denied)
    {
      if p.Some? {
        assert p.value in multiset(live);
        Removed(live, p.value, rest);
        live := live - {p.value};
        freed := freed + multiset{p.value};
      }
    }
  }

  lemma Removed(live: set<Block>, b: Block, rest: multiset<Block>)
    requires multiset(live) == rest + multiset{b}
    ensures multiset(live - {b}) == rest
  {
    forall x: Block ensures multiset(live - {b})[x] == rest[x] {
      assert multiset(live)[x] == rest[x] + multiset{b}[x];
    }
  }

  lemma Added(live: set<Block>, b: Block, rest: multiset<Block>)
    requires multiset(live) == rest && b !in live
    ensures multiset(live + {b}) == rest + multiset{b}
  {
  }

  /** Sums of collections of blocks, rearranged. */
  lemma Nothing(a: multiset<Block>)
    ensures a + multiset{} == a && multiset{} + a == a
  {
  }

  lemma First(rest: multiset<Block>, x: multiset<Block>, more: multiset<Block>)
    ensures rest + (x + more) == rest + more + x
  {
  }

  lemma Next(done: multiset<Block>, x: multiset<Block>, more: multiset<Block>)
    ensures done + x + more == done + (x + more)
  {
  }

  /**
    The books of a release: `done` of the total has been freed, `more` is
    still live beside the rest.
   */
  ghost predicate Books(
    live: multiset<Block>, freed: multiset<Block>, before: multiset<Block>,
    rest: multiset<Block>, done: multiset<Block>, more: multiset<Block>, total: multiset<Block>)
  {
    live == rest + more && freed == before + done && done + more == total
  }

  lemma Open(live: multiset<Block>, freed: multiset<Block>, rest: multiset<Block>, total: multiset<Block>)
    requires live == rest + total
    ensures Books(live, freed, freed, rest, multiset{}, total, total)
  {
    Nothing(freed);
    Nothing(total);
  }

  lemma Take(
    live: multiset<Block>, freed: multiset<Block>, before: multiset<Block>,
    rest: multiset<Block>, done: multiset<Block>, x: multiset<Block>, more: multiset<Block>, total: multiset<Block>)
    requires Books(live, freed, before, rest, done, x + more, total)
    ensures live == rest + more + x
    ensures Books(rest + more, freed + x, before, rest, done + x, more, total)
  {
    First(rest, x, more);
    Next(done, x, more);
    Next(before, done, x);
  }

  lemma Close(
    live: multiset<Block>, freed: multiset<Block>, before: multiset<Block>,
    rest: multiset<Block>, done: multiset<Block>, total: multiset<Block>)
    requires Books(live, freed, before, rest, done, multiset{}, total)
    ensures live == rest && freed == before + total
  {
    Nothing(rest);
    Nothing(done);
  }

  // ----- structures with pointers -----

  /** What a member holds: a number, string or byte array, or a structure. */
  datatype HVal = Leaf(value: Value) | Struct(slots: seq<HSlot>)

  /** An array entry; entries of string and bytes pointer arrays have a block of their own. */
  datatype HEntry = Item(own: Option<Block>, v: HVal)

  /**
    A member: a value, with its has-flag if it has one, a static array with
    its count, a pointer (None is NULL), or a pointer to an array.
   */
  datatype HSlot =
    | Member(has: Option<bool>, v: HVal)
    | Entries(entries: seq<HEntry>, count: nat)
    | Ref(block: Option<Block>, v: HVal)
    | RefArray(block: Option<Block>, entries: seq<HEntry>)

  /** The blocks reachable from a structure, each as often as it is referred to. */
  function SlotsBlocks(ss: seq<HSlot>): multiset<Block>
    decreases ss, 3
  {
    if ss == [] then multiset{} else SlotBlocks(ss[0]) + SlotsBlocks(ss[1..])
  }

  function SlotBlocks(s: HSlot): multiset<Block>
    decreases s, 2
  {
    match s
    case Member(_, v) => ValBlocks(v)
    case Entries(es, _) => EntriesBlocks(es)
    case Ref(b, v) => if b.None? then multiset{} else Own(b) + ValBlocks(v)
    case RefArray(b, es) => if b.None? then multiset{} else Own(b) + EntriesBlocks(es)
  }

  function EntriesBlocks(es: seq<HEntry>): multiset<Block>
    decreases es, 1
  {
    if es == [] then multiset{} else EntryBlocks(es[0]) + EntriesBlocks(es[1..])
  }

  function EntryBlocks(e: HEntry): multiset<Block>
    decreases e, 0
  {
    Own(e.own) + ValBlocks(e.v)
  }

  function ValBlocks(v: HVal): multiset<Block>
    decreases v, 0
  {
    if v.Struct? then SlotsBlocks(v.slots) else multiset{}
  }

  lemma {:induction false} SlotsConcat(a: seq<HSlot>, b: seq<HSlot>)
    ensures SlotsBlocks(a + b) == SlotsBlocks(a) + SlotsBlocks(b)
  {
    if a == [] {
      assert a + b == b;
    } else {
      assert (a + b)[1..] == a[1..] + b;
      SlotsConcat(a[1..], b);
      Next(SlotBlocks(a[0]), SlotsBlocks(a[1..]), SlotsBlocks(b));
    }
  }

  lemma {:induction false} EntriesConcat(a: seq<HEntry>, b: seq<HEntry>)
    ensures EntriesBlocks(a + b) == EntriesBlocks(a) + EntriesBlocks(b)
  {
    if a == [] {
      assert a + b == b;
    } else {
      assert (a + b)[1..] == a[1..] + b;
      EntriesConcat(a[1..], b);
      Next(EntryBlocks(a[0]), EntriesBlocks(a[1..]), EntriesBlocks(b));
    }
  }

  lemma EntryAlone(e: HEntry)
    ensures EntriesBlocks([e]) == EntryBlocks(e)
  {
    Nothing(EntryBlocks(e));
  }

  lemma SlotBlocksAlone(s: HSlot)
    ensures SlotsBlocks([s]) == SlotBlocks(s)
  {
    Nothing(SlotBlocks(s));
  }

  /** The blocks of all members but number i. */
  function Others(ss: seq<HSlot>, i: nat): multiset<Block>
    requires i < |ss|
  {
    SlotsBlocks(ss[..i]) + SlotsBlocks(ss[i + 1..])
  }

  /** Exchanging one member exchanges its blocks. */
  lemma Focus(ss: seq<HSlot>, i: nat, s: HSlot)
    requires i < |ss|
    ensures SlotsBlocks(ss) == Others(ss, i) + SlotBlocks(ss[i])
    ensures SlotsBlocks(ss[i := s]) == Others(ss, i) + SlotBlocks(s)
  {
    Parts(ss, i);
    var t := ss[i := s];
    Parts(t, i);
    assert t[..i] == ss[..i] && t[i + 1..] == ss[i + 1..];
  }

  lemma Parts(ss: seq<HSlot>, i: nat)
    requires i < |ss|
    ensures SlotsBlocks(ss) == SlotsBlocks(ss[..i]) + SlotBlocks(ss[i]) + SlotsBlocks(ss[i + 1..])
  {
    assert ss == ss[..i] + ([ss[i]] + ss[i + 1..]);
    Middle(ss[..i], ss[i], ss[i + 1..]);
  }

  lemma Middle(a: seq<HSlot>, s: HSlot, b: seq<HSlot>)
    ensures SlotsBlocks(a + ([s] + b)) == SlotsBlocks(a) + SlotBlocks(s) + SlotsBlocks(b)
  {
    SlotsConcat(a, [s] + b);
    SlotsConcat([s], b);
    SlotBlocksAlone(s);
    Next(SlotsBlocks(a), SlotBlocks(s), SlotsBlocks(b));
  }

  lemma {:induction false} NoBlocks(ss: seq<HSlot>)
    requires forall i :: 0 <= i < |ss| ==> SlotBlocks(ss[i]) == multiset{}
    ensures SlotsBlocks(ss) == multiset{}
  {
    if ss == [] {
    } else {
      NoBlocks(ss[1..]);
      Nothing(multiset{});
    }
  }

  // ----- shape -----

  /** The least size of a block that holds the value: for strings and byte arrays that of the content. */
  function Needed(f: Field, v: HVal): nat {
    match f.ltype
    case LString => if v.Leaf? && v.value.Blob? then |v.value.bytes| + 1 else 1
    case LBytes => if v.Leaf? && v.value.Blob? then BYTES_OFFSET + |v.value.bytes| else BYTES_OFFSET
    case _ => f.dataSize
  }

  ghost predicate HasRoom(b: Option<Block>, size: nat) {
    b.Some? ==> b.value.size >= size
  }

  /** A structure has the members its descriptor says, and every block is as large as what is in it. */
  ghost predicate Shape(T: Table, d: nat, ss: seq<HSlot>)
    decreases ss, 2
  {
    |ss| == |At(T, d)| && forall i :: 0 <= i < |ss| ==> ShapeSlot(T, At(T, d)[i], ss[i])
  }

  function Min(a: nat, b: nat): nat {
    if a < b then a else b
  }

  /** The count of a static array can be one too high after an overflow; a NULL array is empty. */
  ghost predicate ShapeSlot(T: Table, f: Field, s: HSlot)
    decreases s, 1
  {
    match s
    case Member(has, v) => f.atype.Static? && !f.htype.Repeated? && (has.Some? <==> Flagged(f)) && ShapeVal(T, f, v)
    case Entries(es, count) =>
      && f.atype.Static? && f.htype.Repeated? && |es| == Min(count, f.arraySize)
      && forall i :: 0 <= i < |es| ==> ShapeEntry(T, f, es[i]) && es[i].own.None?
    case Ref(b, v) =>
      && f.atype.Pointer? && !f.htype.Repeated?
      && (b.Some? ==> ShapeVal(T, f, v)) && HasRoom(b, Needed(f, v))
    case RefArray(b, es) =>
      && f.atype.Pointer? && f.htype.Repeated? && (b.None? ==> es == []) && |es| <= SIZE_MAX
      && HasRoom(b, f.dataSize * |es|)
      && forall i :: 0 <= i < |es| ==> ShapeEntry(T, f, es[i])
  }

  ghost predicate ShapeEntry(T: Table, f: Field, e: HEntry)
    decreases e, 1
  {
    && (e.own.Some? ==> f.ltype.LString? || f.ltype.LBytes?) && HasRoom(e.own, Needed(f, e.v))
    && ShapeVal(T, f, e.v)
  }

  ghost predicate ShapeVal(T: Table, f: Field, v: HVal)
    decreases v, 0
  {
    if f.ltype.LSubmsg? then v.Struct? && Shape(T, f.sub, v.slots) else v.Leaf? && !v.value.Msg?
  }

  // ----- what a structure stores -----

  /** The message a structure stores, pointers followed. */
  function Stored(ss: seq<HSlot>): (rs: seq<Slot>)
    ensures |rs| == |ss|
    decreases ss, 3
  {
    seq(|ss|, i requires 0 <= i < |ss| => StoredSlot(ss[i]))
  }

  function StoredSlot(s: HSlot): Slot
    decreases s, 2
  {
    match s
    case Member(has, v) => if has.Some? then Opt(has.value, StoredVal(v)) else One(StoredVal(v))
    case Entries(es, _) => Many(StoredEntries(es))
    case Ref(b, v) => Ptr(if b.Some? then Some(StoredVal(v)) else None)
    case RefArray(_, es) => Many(StoredEntries(es))
  }

  function StoredEntries(es: seq<HEntry>): (vs: seq<Value>)
    ensures |vs| == |es|
    decreases es, 1
  {
    seq(|es|, i requires 0 <= i < |es| => StoredEntry(es[i]))
  }

  function StoredEntry(e: HEntry): Value
    decreases e, 0
  {
    StoredVal(e.v)
  }

  function StoredVal(v: HVal): Value
    decreases v, 0
  {
    if v.Struct? then Msg(Stored(v.slots)) else v.value
  }

  lemma StoredMore(es: seq<HEntry>, e: HEntry)
    ensures StoredEntries(es + [e]) == StoredEntries(es) + [StoredVal(e.v)]
  {
  }

  lemma StoredUpdate(ss: seq<HSlot>, i: nat, s: HSlot)
    requires i < |ss|
    ensures Stored(ss[i := s]) == Stored(ss)[i := StoredSlot(s)]
  {
  }

  // ----- new structures -----

  function NewVal(T: Table, d: nat, f: Field, defaults: bool): HVal
    decreases d, 0
  {
    if f.ltype.LSubmsg? then Struct(if f.sub < d then NewStruct(T, f.sub, defaults) else [])
    else Leaf(if defaults && f.dflt.Some? then f.dflt.value else ZeroLeaf(f))
  }

  function NewSlot(T: Table, d: nat, f: Field, defaults: bool): HSlot
    decreases d, 1
  {
    if f.htype.Repeated? then if f.atype.Static? then Entries([], 0) else RefArray(None, [])
    else if f.atype.Pointer? then Ref(None, NIL)
    else Member(if Flagged(f) then Some(false) else None, NewVal(T, d, f, defaults))
  }

  /** A structure cleared by memset or, with its defaults, as pb_message_set_to_defaults leaves it. */
  function NewStruct(T: Table, d: nat, defaults: bool): seq<HSlot>
    decreases d, 2
  {
    seq(|At(T, d)|, i requires 0 <= i < |At(T, d)| => NewSlot(T, d, At(T, d)[i], defaults))
  }

  /** What a NULL pointer points to. */
  const NIL: HVal := Leaf(Num(0))

  /** The storage of a new array entry or pointee, cleared. */
  function NewItem(T: Table, f: Field): HVal {
    if f.ltype.LSubmsg? then Struct(NewStruct(T, f.sub, false)) else Leaf(ZeroLeaf(f))
  }

  lemma {:induction false} NewOwnsNothing(T: Table, d: nat, defaults: bool)
    requires TableOk(T)
    ensures Shape(T, d, NewStruct(T, d, defaults)) && SlotsBlocks(NewStruct(T, d, defaults)) == multiset{}
    decreases d, 1
  {
    var ss := NewStruct(T, d, defaults);
    forall i | 0 <= i < |ss| ensures ShapeSlot(T, At(T, d)[i], ss[i]) && SlotBlocks(ss[i]) == multiset{} {
      FieldOkAt(T, d, i);
      var f := At(T, d)[i];
      assert ss[i] == NewSlot(T, d, f, defaults);
      NewSlotOwnsNothing(T, d, f, defaults);
    }
    NoBlocks(ss);
  }

  lemma {:induction false} NewSlotOwnsNothing(T: Table, d: nat, f: Field, defaults: bool)
    requires TableOk(T) && FieldOk(T, d, f)
    ensures ShapeSlot(T, f, NewSlot(T, d, f, defaults)) && SlotBlocks(NewSlot(T, d, f, defaults)) == multiset{}
    decreases d, 0
  {
    if f.atype.Static? && !f.htype.Repeated? {
      var v := NewVal(T, d, f, defaults);
      if f.ltype.LSubmsg? {
        NewOwnsNothing(T, f.sub, defaults);
      } else if f.dflt.Some? {
        assert LeafOk(f, f.dflt.value);
      }
      assert ShapeVal(T, f, v) && ValBlocks(v) == multiset{};
      assert NewSlot(T, d, f, defaults) == Member(if Flagged(f) then Some(false) else None, v);
    }
  }

  /** The defaults stored are those of the initial message. */
  lemma {:induction false} NewStoresInit(T: Table, d: nat)
    ensures Stored(NewStruct(T, d, true)) == InitMsg(T, d)
    decreases d
  {
    var ss := NewStruct(T, d, true);
    forall i | 0 <= i < |ss| ensures StoredSlot(ss[i]) == InitMsg(T, d)[i] {
      var f := At(T, d)[i];
      assert ss[i] == NewSlot(T, d, f, true) && InitMsg(T, d)[i] == InitSlot(T, d, f);
      if f.ltype.LSubmsg? && f.sub < d { NewStoresInit(T, f.sub); }
      assert StoredVal(NewVal(T, d, f, true)) == InitValue(T, d, f);
    }
  }

  lemma NewItemOwnsNothing(T: Table, f: Field)
    requires TableOk(T)
    ensures ShapeVal(T, f, NewItem(T, f)) && ValBlocks(NewItem(T, f)) == multiset{}
  {
    if f.ltype.LSubmsg? { NewOwnsNothing(T, f.sub, false); }
  }

  // ----- pb_release -----

  /** pb_release on one structure of a field; nothing to do for other types. */
  method ReleaseVal(T: Table, heap: Allocator, f: Field, v: HVal, ghost rest: multiset<Block>) returns (w: HVal)
    requires heap.Valid() && ShapeVal(T, f, v) && multiset(heap.live) == rest + ValBlocks(v)
    modifies heap
    ensures heap.Valid() && multiset(heap.live) == rest && heap.denied == old(heap.denied)
    ensures heap.freed == old(heap.freed) + ValBlocks(v)
    ensures ShapeVal(T, f, w) && ValBlocks(w) == multiset{}
    decreases v, 0
  {
    if f.ltype.LSubmsg? {
      var res := Release(T, f.sub, heap, v.slots, rest);
      w := Struct(res);
    } else {
      Nothing(rest);
      Nothing(heap.freed);
      w := v;
    }
  }

  /** An entry that owns nothing. */
  ghost predicate Clear(T: Table, f: Field, e: HEntry) {
    ShapeEntry(T, f, e) && e.own.None? && EntryBlocks(e) == multiset{}
  }

  lemma AllClear(T: Table, f: Field, es: seq<HEntry>)
    requires forall k :: 0 <= k < |es| ==> Clear(T, f, es[k])
    ensures EntriesBlocks(es) == multiset{}
    ensures forall k :: 0 <= k < |es| ==> ShapeEntry(T, f, es[k]) && es[k].own.None?
  {
    forall k | 0 <= k < |es| ensures EntryBlocks(es[k]) == multiset{} { assert Clear(T, f, es[k]); }
    NoEntryBlocks(es);
  }

  /** One structure of an array. */
  method ReleaseEntry(T: Table, heap: Allocator, f: Field, e: HEntry, ghost rest: multiset<Block>) returns (r: HEntry)
    requires heap.Valid() && multiset(heap.live) == rest + EntryBlocks(e)
    requires ShapeEntry(T, f, e) && e.own.None?
    modifies heap
    ensures heap.Valid() && multiset(heap.live) == rest && heap.denied == old(heap.denied)
    ensures heap.freed == old(heap.freed) + EntryBlocks(e)
    ensures Clear(T, f, r)
    decreases e, 0
  {
    Nothing(ValBlocks(e.v));
    var w := ReleaseVal(T, heap, f, e.v, rest);
    r := Item(None, w);
    Nothing(multiset{});
  }

  /** The blocks of the entries from number i on. */
  function EntriesFrom(es: seq<HEntry>, i: nat): multiset<Block>
    requires i <= |es|
  {
    EntriesBlocks(es[i..])
  }

  lemma EntriesFromStep(es: seq<HEntry>, i: nat)
    requires i < |es|
    ensures EntriesFrom(es, i) == EntryBlocks(es[i]) + EntriesFrom(es, i + 1)
  {
    assert es[i..][1..] == es[i + 1..];
  }

  lemma {:induction false} NoEntryBlocks(es: seq<HEntry>)
    requires forall i :: 0 <= i < |es| ==> EntryBlocks(es[i]) == multiset{}
    ensures EntriesBlocks(es) == multiset{}
  {
    if es == [] {
    } else {
      NoEntryBlocks(es[1..]);
      Nothing(multiset{});
    }
  }

  /** The loop over the structures of an array. */
  method ReleaseEntries(
    T: Table, heap: Allocator, f: Field, es: seq<HEntry>, ghost rest: multiset<Block>)
    returns (fs: seq<HEntry>)
    requires heap.Valid() && multiset(heap.live) == rest + EntriesBlocks(es)
    requires forall i :: 0 <= i < |es| ==> ShapeEntry(T, f, es[i]) && es[i].own.None?
    modifies heap
    ensures heap.Valid() && multiset(heap.live) == rest && heap.denied == old(heap.denied)
    ensures heap.freed == old(heap.freed) + EntriesBlocks(es)
    ensures |fs| == |es| && EntriesBlocks(fs) == multiset{}
    ensures forall i :: 0 <= i < |fs| ==> ShapeEntry(T, f, fs[i]) && fs[i].own.None?
    decreases es, 1
  {
    fs := [];
    var i := 0;
    ghost var total, done := EntriesBlocks(es), multiset{};
    assert es[0..] == es;
    Open(multiset(heap.live), heap.freed, rest, total);
    while i < |es|
      invariant 0 <= i <= |es| && |fs| == i && heap.Valid() && heap.denied == old(heap.denied)
      invariant Books(multiset(heap.live), heap.freed, old(heap.freed), rest, done, EntriesFrom(es, i), total)
      invariant forall k :: 0 <= k < i ==> Clear(T, f, fs[k])
    {
      ghost var x, more := EntryBlocks(es[i]), EntriesFrom(es, i + 1);
      EntriesFromStep(es, i);
      Take(multiset(heap.live), heap.freed, old(heap.freed), rest, done, x, more, total);
      var r := ReleaseEntry(T, heap, f, es[i], rest + more);
      done := done + x;
      fs, i := fs + [r], i + 1;
    }
    AllClear(T, f, fs);
    Close(multiset(heap.live), heap.freed, old(heap.freed), rest, done, total);
  }

  /** Entries that own their own block at most. */
  ghost predicate OwnOnly(es: seq<HEntry>) {
    forall i :: 0 <= i < |es| ==> EntryBlocks(es[i]) == Own(es[i].own)
  }

  /** One string or byte array. */
  method FreeEntry(heap: Allocator, e: HEntry, ghost rest: multiset<Block>)
    requires heap.Valid() && multiset(heap.live) == rest + EntryBlocks(e) && EntryBlocks(e) == Own(e.own)
    modifies heap
    ensures heap.Valid() && multiset(heap.live) == rest && heap.denied == old(heap.denied)
    ensures heap.freed == old(heap.freed) + EntryBlocks(e)
  {
    heap.Free(e.own, rest);
  }

  /** The loop that frees the entries of a string or bytes pointer array. */
  method FreeEntries(heap: Allocator, es: seq<HEntry>, ghost rest: multiset<Block>)
    requires heap.Valid() && multiset(heap.live) == rest + EntriesBlocks(es) && OwnOnly(es)
    modifies heap
    ensures heap.Valid() && multiset(heap.live) == rest && heap.denied == old(heap.denied)
    ensures heap.freed == old(heap.freed) + EntriesBlocks(es)
  {
    var i := 0;
    ghost var total, done := EntriesBlocks(es), multiset{};
    assert es[0..] == es;
    Open(multiset(heap.live), heap.freed, rest, total);
    while i < |es|
      invariant 0 <= i <= |es| && heap.Valid() && heap.denied == old(heap.denied)
      invariant Books(multiset(heap.live), heap.freed, old(heap.freed), rest, done, EntriesFrom(es, i), total)
    {
      ghost var x, more := EntryBlocks(es[i]), EntriesFrom(es, i + 1);
      EntriesFromStep(es, i);
      Take(multiset(heap.live), heap.freed, old(heap.freed), rest, done, x, more, total);
      FreeEntry(heap, es[i], rest + more);
      done := done + x;
      i := i + 1;
    }
    Close(multiset(heap.live), heap.freed, old(heap.freed), rest, done, total);
  }

  /** An entry that is no structure owns its own block at most. */
  lemma LeafEntry(T: Table, f: Field, e: HEntry)
    requires !f.ltype.LSubmsg? && ShapeEntry(T, f, e)
    ensures EntryBlocks(e) == Own(e.own)
  {
    assert ShapeVal(T, f, e.v);
    Nothing(Own(e.own));
  }

  /** Entries that are neither structures nor strings own nothing. */
  lemma PlainEntries(T: Table, f: Field, es: seq<HEntry>)
    requires !f.ltype.LSubmsg? && (forall i :: 0 <= i < |es| ==> ShapeEntry(T, f, es[i]))
    requires forall i :: 0 <= i < |es| ==> es[i].own.None?
    ensures EntriesBlocks(es) == multiset{}
  {
    forall i | 0 <= i < |es| ensures EntryBlocks(es[i]) == multiset{} { LeafEntry(T, f, es[i]); }
    NoEntryBlocks(es);
  }

  /** What is inside a pointer array, before the array itself is freed. */
  method ReleaseContents(T: Table, heap: Allocator, f: Field, es: seq<HEntry>, ghost rest: multiset<Block>)
    requires heap.Valid() && multiset(heap.live) == rest + EntriesBlocks(es)
    requires forall i :: 0 <= i < |es| ==> ShapeEntry(T, f, es[i])
    modifies heap
    ensures heap.Valid() && multiset(heap.live) == rest && heap.denied == old(heap.denied)
    ensures heap.freed == old(heap.freed) + EntriesBlocks(es)
    decreases es, 2
  {
    if f.ltype.LSubmsg? {
      forall i | 0 <= i < |es| ensures es[i].own.None? { assert ShapeEntry(T, f, es[i]); }
      var fs := ReleaseEntries(T, heap, f, es, rest);
    } else if f.ltype.LString? || f.ltype.LBytes? {
      forall i | 0 <= i < |es| ensures EntryBlocks(es[i]) == Own(es[i].own) { LeafEntry(T, f, es[i]); }
      FreeEntries(heap, es, rest);
    } else {
      forall i | 0 <= i < |es| ensures es[i].own.None? { assert ShapeEntry(T, f, es[i]); }
      PlainEntries(T, f, es);
      Nothing(rest);
      Nothing(heap.freed);
    }
  }

  /** The array in a static member. */
  method ReleaseArray(T: Table, heap: Allocator, f: Field, s: HSlot, ghost rest: multiset<Block>) returns (r: HSlot)
    requires heap.Valid() && s.Entries? && ShapeSlot(T, f, s) && multiset(heap.live) == rest + SlotBlocks(s)
    modifies heap
    ensures heap.Valid() && multiset(heap.live) == rest && heap.denied == old(heap.denied)
    ensures heap.freed == old(heap.freed) + SlotBlocks(s)
    ensures ShapeSlot(T, f, r) && SlotBlocks(r) == multiset{}
    decreases s, 0
  {
    if f.ltype.LSubmsg? {
      var fs := ReleaseEntries(T, heap, f, s.entries, rest);
      r := Entries(fs, s.count);
    } else {
      PlainEntries(T, f, s.entries);
      Nothing(rest);
      Nothing(heap.freed);
      r := s;
    }
  }

  /** A pointer, what it points to first. */
  method ReleasePointer(T: Table, heap: Allocator, f: Field, s: HSlot, ghost rest: multiset<Block>)
    requires heap.Valid() && (s.Ref? || s.RefArray?) && ShapeSlot(T, f, s)
    requires multiset(heap.live) == rest + SlotBlocks(s)
    modifies heap
    ensures heap.Valid() && multiset(heap.live) == rest && heap.denied == old(heap.denied)
    ensures heap.freed == old(heap.freed) + SlotBlocks(s)
    decreases s, 0
  {
    if s.block.None? {
      Nothing(rest);
      Nothing(heap.freed);
      return;
    }
    ghost var inside := if s.Ref? then ValBlocks(s.v) else EntriesBlocks(s.entries);
    Next(rest, Own(s.block), inside);
    Swap(Own(s.block), inside);
    if s.Ref? {
      var w := ReleaseVal(T, heap, f, s.v, rest + Own(s.block));
    } else {
      ReleaseContents(T, heap, f, s.entries, rest + Own(s.block));
    }
    heap.Free(s.block, rest);
    Next(old(heap.freed), inside, Own(s.block));
  }

  lemma Swap(a: multiset<Block>, b: multiset<Block>)
    ensures a + b == b + a
  {
  }

  /** pb_release_single_field */
  method ReleaseSlot(T: Table, heap: Allocator, f: Field, s: HSlot, ghost rest: multiset<Block>) returns (r: HSlot)
    requires heap.Valid() && ShapeSlot(T, f, s) && multiset(heap.live) == rest + SlotBlocks(s)
    modifies heap
    ensures heap.Valid() && multiset(heap.live) == rest && heap.denied == old(heap.denied)
    ensures heap.freed == old(heap.freed) + SlotBlocks(s)
    ensures ShapeSlot(T, f, r) && SlotBlocks(r) == multiset{}
    decreases s, 1
  {
    match s
    case Member(has, v) =>
      var w := ReleaseVal(T, heap, f, v, rest);
      r := Member(has, w);
    case Entries(es, count) => r := ReleaseArray(T, heap, f, s, rest);
    case Ref(b, v) =>
      ReleasePointer(T, heap, f, s, rest);
      r := Ref(None, NIL);
    case RefArray(b, es) =>
      ReleasePointer(T, heap, f, s, rest);
      r := RefArray(None, []);
  }

  /** The blocks of the members from number i on. */
  function BlocksFrom(ss: seq<HSlot>, i: nat): multiset<Block>
    requires i <= |ss|
  {
    SlotsBlocks(ss[i..])
  }

  lemma BlocksFromStep(ss: seq<HSlot>, i: nat)
    requires i < |ss|
    ensures BlocksFrom(ss, i) == SlotBlocks(ss[i]) + BlocksFrom(ss, i + 1)
  {
    assert ss[i..][1..] == ss[i + 1..];
  }

  /** The members released so far have their shape and own nothing. */
  ghost predicate Emptied(T: Table, d: nat, res: seq<HSlot>) {
    |res| <= |At(T, d)|
    && forall k :: 0 <= k < |res| ==> ShapeSlot(T, At(T, d)[k], res[k]) && SlotBlocks(res[k]) == multiset{}
  }

  lemma EmptiedMore(T: Table, d: nat, res: seq<HSlot>, r: HSlot)
    requires Emptied(T, d, res) && |res| < |At(T, d)|
    requires ShapeSlot(T, At(T, d)[|res|], r) && SlotBlocks(r) == multiset{}
    ensures Emptied(T, d, res + [r])
  {
  }

  lemma EmptiedAll(T: Table, d: nat, res: seq<HSlot>)
    requires Emptied(T, d, res) && |res| == |At(T, d)|
    ensures Shape(T, d, res) && SlotsBlocks(res) == multiset{}
  {
    NoBlocks(res);
  }

  /**
    pb_release: frees each block of the structure exactly once and no other,
    and leaves a structure that owns nothing, so that a second call frees nothing.
   */
  method Release(
    T: Table, d: nat, heap: Allocator, ss: seq<HSlot>, ghost rest: multiset<Block>)
    returns (res: seq<HSlot>)
    requires heap.Valid() && Shape(T, d, ss) && multiset(heap.live) == rest + SlotsBlocks(ss)
    modifies heap
    ensures heap.Valid() && multiset(heap.live) == rest && heap.denied == old(heap.denied)
    ensures heap.freed == old(heap.freed) + SlotsBlocks(ss)
    ensures Shape(T, d, res) && SlotsBlocks(res) == multiset{}
    decreases ss, 2
  {
    res := [];
    var i := 0;
    ghost var total, done := SlotsBlocks(ss), multiset{};
    assert ss[0..] == ss;
    Open(multiset(heap.live), heap.freed, rest, total);
    while i < |ss|
      invariant 0 <= i <= |ss| && |res| == i && heap.Valid() && heap.denied == old(heap.denied)
      invariant Books(multiset(heap.live), heap.freed, old(heap.freed), rest, done, BlocksFrom(ss, i), total)
      invariant Emptied(T, d, res)
    {
      ghost var x, more := SlotBlocks(ss[i]), BlocksFrom(ss, i + 1);
      BlocksFromStep(ss, i);
      Take(multiset(heap.live), heap.freed, old(heap.freed), rest, done, x, more, total);
      var r := ReleaseSlot(T, heap, At(T, d)[i], ss[i], rest + more);
      EmptiedMore(T, d, res, r);
      done := done + x;
      res, i := res + [r], i + 1;
    }
    EmptiedAll(T, d, res);
    Close(multiset(heap.live), heap.freed, old(heap.freed), rest, done, total);
  }

  /** Releasing twice: the second call finds nothing to free. */
  method ReleaseTwice(
    T: Table, d: nat, heap: Allocator, ss: seq<HSlot>, ghost rest: multiset<Block>)
    returns (res: seq<HSlot>)
    requires heap.Valid() && Shape(T, d, ss) && multiset(heap.live) == rest + SlotsBlocks(ss)
    modifies heap
    ensures multiset(heap.live) == rest && heap.freed == old(heap.freed) + SlotsBlocks(ss)
  {
    res := Release(T, d, heap, ss, rest);
    ghost var freed := heap.freed;
    res := Release(T, d, heap, res, rest);
    assert heap.freed == freed;
  }
}
