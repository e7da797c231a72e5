/** Order-preserving selection from a sequence of ids, the shape every index of the registry has. */
module Filtering {

  type Id = string

  predicate NoDup(ids: seq<Id>) {
    forall i, j :: 0 <= i < j < |ids| ==> ids[i] != ids[j]
  }

  /** The elements of ids that are in keep, in their order. */
  function Filter(ids: seq<Id>, keep: set<Id>): (r: seq<Id>)
    ensures forall id :: id in r <==> id in ids && id in keep
  {
    if ids == [] then []
    else
      var last := ids[|ids| - 1];
      var before := Filter(ids[..|ids| - 1], keep);
      assert ids == ids[..|ids| - 1] + [last];
      if last in keep then before + [last] else before
  }

  lemma {:induction false} FilterNoDup(ids: seq<Id>, keep: set<Id>)
    requires NoDup(ids)
    ensures NoDup(Filter(ids, keep))
  {
    if ids != [] {
      FilterNoDup(ids[..|ids| - 1], keep);
      assert ids[|ids| - 1] !in ids[..|ids| - 1];
    }
  }

  lemma {:induction false} FilterTwice(ids: seq<Id>, keep: set<Id>, keep': set<Id>)
    ensures Filter(Filter(ids, keep), keep') == Filter(ids, keep * keep')
  {
    if ids != [] {
      FilterTwice(ids[..|ids| - 1], keep, keep');
      var before := Filter(ids[..|ids| - 1], keep);
      var last := ids[|ids| - 1];
      if last in keep {
        assert (before + [last])[..|before|] == before;
      }
    }
  }

  lemma {:induction false} FilterAgree(ids: seq<Id>, keep: set<Id>, keep': set<Id>)
    requires forall id :: id in ids ==> (id in keep <==> id in keep')
    ensures Filter(ids, keep) == Filter(ids, keep')
  {
    if ids != [] {
      FilterAgree(ids[..|ids| - 1], keep, keep');
    }
  }

  lemma {:induction false} FilterAll(ids: seq<Id>, keep: set<Id>)
    requires forall id :: id in ids ==> id in keep
    ensures Filter(ids, keep) == ids
  {
    if ids != [] {
      FilterAll(ids[..|ids| - 1], keep);
      assert ids == ids[..|ids| - 1] + [ids[|ids| - 1]];
    }
  }

  lemma FilterAppend(ids: seq<Id>, id: Id, keep: set<Id>)
    ensures Filter(ids + [id], keep) == if id in keep then Filter(ids, keep) + [id] else Filter(ids, keep)
  {
    assert (ids + [id])[..|ids|] == ids;
  }

  /** Closing the gap at one position keeps the others, in order. */
  lemma {:induction false} RemoveAtIsFilter(ids: seq<Id>, i: nat, keep: set<Id>)
    requires i < |ids| && ids[i] !in keep
    requires forall k :: 0 <= k < |ids| && k != i ==> ids[k] in keep
    ensures ids[..i] + ids[i + 1..] == Filter(ids, keep)
  {
    var front, last := ids[..|ids| - 1], ids[|ids| - 1];
    if i == |front| {
      FilterAll(front, keep);
    } else {
      RemoveAtIsFilter(front, i, keep);
      GapSnoc(front, last, i, ids);
    }
  }

  lemma GapSnoc(front: seq<Id>, last: Id, i: nat, ids: seq<Id>)
    requires i < |front| && ids == front + [last]
    ensures ids[..i] + ids[i + 1..] == (front[..i] + front[i + 1..]) + [last]
  {
  }
}
