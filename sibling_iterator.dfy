/**
 * SiblingIterator (src/hierarchy.rs:181-224): a cursor that walks a circular sibling
 * list from a first entity until the next link leads back to it.
 */
module SiblingIteration {
  import opened Records
  import opened ChildLists

  /** Where the cursor moves from `cursor` (lines 207-221). */
  function Advance(recs: Store, first: Entity, cursor: Entity): (c: Option<Entity>)
    requires cursor in recs
    ensures c.Some? <==> recs[cursor].siblings.Some? && NextOf(recs, cursor) != first
    ensures c.Some? ==> c.value == NextOf(recs, cursor)
  {
    match recs[cursor].siblings
    case Some((_, nextSibling)) => if nextSibling == first then None else Some(nextSibling)
    case None => None
  }

  /** The cursor after `k` calls of next on an iterator created with `first`. */
  function CursorAfter(recs: Store, first: Option<Entity>, k: nat): (c: Option<Entity>)
    requires Closed(recs) && (first.Some? ==> first.value in recs)
    ensures c.Some? ==> first.Some? && c.value in recs
  {
    if k == 0 then first
    else
      var c := CursorAfter(recs, first, k - 1);
      if first.None? || c.None? then None
      else
        assert RefersInto(recs[c.value], recs);
        Advance(recs, first.value, c.value)
  }

  /** The entities yielded by the first `k` calls of next, in order. */
  function Walk(recs: Store, first: Option<Entity>, k: nat): (w: seq<Entity>)
    requires Closed(recs) && (first.Some? ==> first.value in recs)
    ensures |w| <= k
  {
    if k == 0 then []
    else
      var c := CursorAfter(recs, first, k - 1);
      Walk(recs, first, k - 1) + (if first.Some? && c.Some? then [c.value] else [])
  }

  /** Once the cursor is empty, next yields nothing more and the cursor stays empty. */
  lemma {:induction false} WalkStops(recs: Store, first: Option<Entity>, k: nat, m: nat)
    requires Closed(recs) && (first.Some? ==> first.value in recs)
    requires CursorAfter(recs, first, k).None? && k <= m
    ensures CursorAfter(recs, first, m).None? && Walk(recs, first, m) == Walk(recs, first, k)
  {
    if m > k {
      WalkStops(recs, first, k, m - 1);
    }
  }

  /**
   * An iterator created with no first entity yields nothing (the empty walks the tests
   * assert at lines 255 and 351).
   */
  lemma EmptyWalk(recs: Store, k: nat)
    requires Closed(recs)
    ensures Walk(recs, None, k) == [] && CursorAfter(recs, None, k).None?
  {
    WalkStops(recs, None, 0, k);
  }

  /**
   * Walking a ring from its first member visits the members in order, one per call, and
   * the cursor is empty exactly from the |s|-th call on.
   */
  lemma {:induction false} RingWalk(recs: Store, s: seq<Entity>, k: nat)
    requires Closed(recs) && Ring(recs, s) && NoDup(s) && s != [] && k <= |s|
    ensures CursorAfter(recs, Some(s[0]), k) == if k < |s| then Some(s[k]) else None
    ensures Walk(recs, Some(s[0]), k) == s[..k]
  {
    if k > 0 {
      RingWalk(recs, s, k - 1);
      var c := s[k - 1];
      if |s| >= 2 {
        RingLinks(recs, s, k - 1);
        assert (k < |s| ==> NextOf(recs, c) == s[k]) && (k == |s| ==> NextOf(recs, c) == s[0]);
        assert k < |s| ==> s[k] != s[0];
      }
      assert s[..k] == s[..k - 1] + [c];
    }
  }

  /**
   * In a valid store, the walk from a parent's first_child yields exactly its child
   * sequence: each child once, in order, and nothing after it.
   */
  lemma ChildrenWalk(recs: Store, kids: Kids, p: Entity, k: nat)
    requires ValidStore(recs, kids) && p in recs
    ensures k < |kids[p]| ==> CursorAfter(recs, recs[p].firstChild, k) == Some(kids[p][k])
    ensures k < |kids[p]| ==> Walk(recs, recs[p].firstChild, k + 1) == kids[p][..k + 1]
    ensures k >= |kids[p]| ==> CursorAfter(recs, recs[p].firstChild, k).None?
    ensures k >= |kids[p]| ==> Walk(recs, recs[p].firstChild, k) == kids[p]
  {
    var s := kids[p];
    assert recs[p].firstChild == Head(s);
    if s == [] {
      EmptyWalk(recs, k);
    } else {
      assert Ring(recs, s) && NoDup(s);
      if k < |s| {
        RingWalk(recs, s, k);
        RingWalk(recs, s, k + 1);
      } else {
        RingWalk(recs, s, |s|);
        assert s[..|s|] == s;
        WalkStops(recs, Some(s[0]), |s|, k);
      }
    }
  }

  /**
   * The iterator over the store `recs` it borrows. `calls` counts the calls of Next so far;
   * the cursor is always the one CursorAfter gives for that count.
   */
  class SiblingIterator {
    const recs: Store
    const firstEntity: Option<Entity>
    var cursor: Option<Entity>
    ghost var calls: nat

    ghost predicate Valid()
      reads this
    {
      && Closed(recs) && (firstEntity.Some? ==> firstEntity.value in recs)
      && cursor == CursorAfter(recs, firstEntity, calls)
    }

    /** SiblingIterator::new: the cursor starts at the first entity. */
    constructor (recs: Store, firstEntity: Option<Entity>)
      requires Closed(recs) && (firstEntity.Some? ==> firstEntity.value in recs)
      ensures Valid() && calls == 0
      ensures this.recs == recs && this.firstEntity == firstEntity && cursor == firstEntity
    {
      this.recs := recs;
      this.firstEntity := firstEntity;
      cursor := firstEntity;
      calls := 0;
    }

    /**
     * next: yield the cursor and move it on, or yield nothing once it is empty; what has
     * been yielded over all calls so far is always Walk(recs, firstEntity, calls).
     */
    method Next() returns (item: Option<Entity>)
      requires Valid()
      modifies this
      ensures Valid() && calls == old(calls) + 1
      ensures item == if firstEntity.Some? then old(cursor) else None
      ensures Walk(recs, firstEntity, calls) ==
        Walk(recs, firstEntity, old(calls)) + (if item.Some? then [item.value] else [])
    {
      calls := calls + 1;
      if firstEntity.None? {
        return None;
      }
      var first := firstEntity.value;
      if cursor.None? {
        return None;
      }
      var current := cursor.value;
      match recs[current].siblings {
        case Some((_, nextSibling)) =>
          if nextSibling == first {
            cursor := None;
          } else {
            cursor := Some(nextSibling);
          }
        case None =>
          cursor := None;
      }
      item := Some(current);
    }
  }
}
