/** The cyclic iterator over the fields of a descriptor (pb_common.c). */
module FieldIterator {
  import opened Basics
  import opened Schema

  /** The position k steps after start on a cycle of n positions. */
  function Cyclic(start: nat, k: nat, n: nat): nat
    requires start < n && k <= n
  {
    if start + k < n then start + k else start + k - n
  }

  class FieldIter {
    const fields: seq<Field>
    var pos: nat
    var requiredIndex: nat

    /** The terminator after the last field is never pointed at, unless there is no field at all. */
    ghost predicate Valid()
      reads this
    {
      && (if fields == [] then pos == 0 else pos < |fields|)
      && requiredIndex == RequiredIndex(fields, pos)
    }

    /** The tag at the current position; the terminator has tag 0. */
    function Tag(): nat
      reads this
    {
      if pos < |fields| then fields[pos].tag else 0
    }

    /** The k positions from start on have other tags. */
    ghost predicate NoneBefore(start: nat, k: nat, tag: nat)
      requires start < |fields| && k <= |fields|
    {
      forall j :: 0 <= j < k ==> fields[Cyclic(start, j, |fields|)].tag != tag
    }

    constructor (fields: seq<Field>)
      ensures Valid() && this.fields == fields && pos == 0
    {
      this.fields := fields;
      pos := 0;
      requiredIndex := 0;
    }

    /** Advances; returns false after wrapping around to the first field. */
    method Next() returns (more: bool)
      requires Valid()
      modifies this
      ensures Valid()
      ensures more <==> old(pos) + 1 < |fields|
      ensures pos == if more then old(pos) + 1 else 0
    {
      if fields == [] { return false; }
      var prev := fields[pos];
      pos := pos + 1;
      if pos == |fields| {
        pos := 0;
        requiredIndex := 0;
        return false;
      }
      if prev.htype.Required? { requiredIndex := requiredIndex + 1; }
      return true;
    }

    /**
     Moves to the first field with the given tag at or after the current position, going around the
     cycle at most once. An unsuccessful search ends where it began.
     */
    method FindTag(tag: nat) returns (found: bool)
      requires Valid()
      modifies this
      ensures Valid()
      ensures fields == [] ==> (found <==> tag == 0)
      ensures fields != [] ==> (found <==> exists k :: 0 <= k < |fields| && fields[k].tag == tag)
      ensures !found ==> pos == old(pos)
      ensures found && fields != [] ==> fields[pos].tag == tag
      ensures found && fields != [] ==>
                exists k :: 0 <= k < |fields| && pos == Cyclic(old(pos), k, |fields|) && NoneBefore(old(pos), k, tag)
    {
      var start := pos;
      ghost var steps := 0;
      while true
        invariant Valid()
        invariant steps <= |fields| && (fields != [] ==> steps < |fields| && pos == Cyclic(start, steps, |fields|))
        invariant fields != [] ==> NoneBefore(start, steps, tag)
        decreases |fields| - steps
      {
        if Tag() == tag { return true; }
        var _ := Next();
        if pos == start {
          forall k | 0 <= k < |fields| ensures fields[k].tag != tag {
            assert k == Cyclic(start, if start <= k then k - start else k + |fields| - start, |fields|);
          }
          return false;
        }
        steps := steps + 1;
      }
    }
  }

  /** With distinct tags the result of a search does not depend on where it starts. */
  lemma SearchIsFind(fields: seq<Field>, tag: nat, pos: nat)
    requires DistinctTags(fields) && pos < |fields| && fields[pos].tag == tag
    ensures Find(fields, tag) == Some(pos)
  {}
}
