/**
  The decoder loop's use of the bit field: the field under the cursor marks
  its rank, and the final check looks at the ranks of all required fields.
 */
module RequiredTracking {
  import opened Descriptor
  import opened Decoding
  import opened FieldIterator
  import opened Packing
  import opened RequiredFields

  /** A cursor over the fields of a descriptor, and bits for its required fields only. */
  ghost predicate Marking<S>(T: Table, d: nat, iter: FieldIter<S>, seen: FieldsSeen)
    reads iter, seen.bitfield
  {
    && iter.Valid() && iter.fields == At(T, d)
    && seen.Valid() && forall r :: r in seen.Ranks() ==> r < Rank(At(T, d), |At(T, d)|)
  }

  /** Mark a required field in the bit field. */
  method MarkSeen<S>(T: Table, d: nat, iter: FieldIter<S>, seen: FieldsSeen)
    requires Marking(T, d, iter, seen) && iter.fields != []
    modifies seen.bitfield
    ensures Marking(T, d, iter, seen)
    ensures seen.Ranks() == Mark(At(T, d), iter.index, old(seen.Ranks()))
  {
    iter.FieldIsCurrent();
    if iter.Field().htype.Required? && iter.requiredFieldIndex < MAX_REQUIRED {
      RankIsUnique(At(T, d), iter.index, iter.index, iter.requiredFieldIndex);
      seen.Mark(iter.requiredFieldIndex);
    }
  }

  /** The check for missing required fields. */
  method CheckRequired<S>(T: Table, d: nat, iter: FieldIter<S>, seen: FieldsSeen) returns (ok: bool)
    requires Marking(T, d, iter, seen)
    ensures ok <==> AllSeen(At(T, d), seen.Ranks())
  {
    RequiredCountIsRank(At(T, d));
    ok := seen.Complete(iter.desc.requiredCount);
  }
}
