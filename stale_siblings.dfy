/**
 * set_parent_entity on a root whose siblings field is left over from an earlier parent
 * (src/hierarchy.rs:62-66 together with un_parent_entity never clearing it, lines 92-119):
 * the new parent's first (and only) child still points at its former siblings, and the
 * walk over the new parent's children runs into the old parent's child list.
 */
module StaleSiblings {
  import opened Records
  import opened ChildLists
  import opened Operations
  import opened SiblingIteration
  import opened Preservation
  import opened SetParent

  /** After set_parent_entity(3, 2) from no records. */
  const S1: Store := map[2 := Hierarchy(None, Some(3), None), 3 := Hierarchy(Some(2), None, None)]

  /** After set_parent_entity(4, 2) next: 3 and 4 are each other's siblings. */
  const S2: Store := map[2 := Hierarchy(None, Some(3), None),
                         3 := Hierarchy(Some(2), None, Some((4, 4))),
                         4 := Hierarchy(Some(2), None, Some((3, 3)))]

  /** After set_parent_entity(3, 1) next, 1 having no record yet. */
  const S3: Store := map[1 := Hierarchy(None, Some(3), None),
                         2 := Hierarchy(None, Some(4), None),
                         3 := Hierarchy(Some(1), None, Some((4, 4))),
                         4 := Hierarchy(Some(2), None, None)]

  /** The stores the first two calls produce. */
  lemma FirstCall()
    ensures CanSetParent(map[], 3, 2) && Parented(map[], 3, 2) == S1
  {
  }

  lemma SecondCall()
    ensures CanSetParent(S1, 4, 2) && Parented(S1, 4, 2) == S2
  {
  }

  /** Before the third call the store is valid: 2's children are 3 and 4. */
  lemma SecondCallValid()
    ensures ValidStore(S2, map[2 := [3, 4], 3 := [], 4 := []])
  {
    var kids: Kids := map[2 := [3, 4], 3 := [], 4 := []];
    assert Adjacent(S2, 3, 4) && Adjacent(S2, 4, 3);
    assert Ring(S2, kids[2]) && NoDup(kids[2]);
  }

  /** Inside the third call, once 3 is un-parented: 3 keeps its links to 4, 4 loses its own. */
  const S2Unparented: Store := map[1 := EmptyHierarchy,
                                   2 := Hierarchy(None, Some(4), None),
                                   3 := Hierarchy(None, None, Some((4, 4))),
                                   4 := Hierarchy(Some(2), None, None)]

  lemma ThirdCallUnparents()
    ensures Prepared(S2, 3, 1) == S2[1 := EmptyHierarchy]
    ensures CanUnparent(S2[1 := EmptyHierarchy], 3) && Unparented(S2[1 := EmptyHierarchy], 3) == S2Unparented
  {
  }

  lemma ThirdCallLinks()
    ensures CanLink(S2Unparented, 3, 1) && Link(S2Unparented, 3, 1) == S3
  {
  }

  lemma ThirdCall()
    ensures CanSetParent(S2, 3, 1) && Parented(S2, 3, 1) == S3
  {
    ThirdCallUnparents();
    ThirdCallLinks();
  }

  /** The walks over the children of 1 and of 2 in S3. */
  lemma ThirdCallWalks()
    ensures Walk(S3, S3[1].firstChild, 3) == [3, 4] && CursorAfter(S3, S3[1].firstChild, 3).None?
    ensures Walk(S3, S3[2].firstChild, 2) == [4]
  {
  }

  /**
   * Parenting 3 to the childless 1 after it was parented to 2 next to 4: 3 keeps its
   * links to 4, so children of 1 yields 3 and then 4, whose parent is still 2, and 2
   * still lists 4 as its only child.
   */
  lemma StaleSiblingsCounterexample()
    ensures S2[3].HasSiblings() && 1 !in S2
    ensures CanSetParent(S2, 3, 1) && Parented(S2, 3, 1) == S3
    ensures Walk(S3, S3[1].firstChild, 3) == [3, 4] && CursorAfter(S3, S3[1].firstChild, 3).None?
    ensures S3[4].parent == Some(2) && Walk(S3, S3[2].firstChild, 2) == [4]
  {
    ThirdCall();
    ThirdCallWalks();
  }

  /**
   * S3 after un-parenting 3, as inside a repeated set_parent_entity(3, 1) or at the end of
   * the round trip: 1's first_child has moved on to 4.
   */
  const S3Unparented: Store := map[1 := Hierarchy(None, Some(4), None),
                                   2 := Hierarchy(None, Some(4), None),
                                   3 := Hierarchy(None, None, Some((4, 4))),
                                   4 := Hierarchy(Some(2), None, None)]

  /** After set_parent_entity(3, 1) a second time: 4 is now 1's first child. */
  const S4: Store := map[1 := Hierarchy(None, Some(4), None),
                         2 := Hierarchy(None, Some(4), None),
                         3 := Hierarchy(Some(1), None, Some((4, 4))),
                         4 := Hierarchy(Some(2), None, Some((3, 3)))]

  lemma RepeatUnparents()
    ensures Prepared(S3, 3, 1) == S3
    ensures CanUnparent(S3, 3) && Unparented(S3, 3) == S3Unparented
  {
  }

  lemma RepeatLinks()
    ensures CanLink(S3Unparented, 3, 1) && Link(S3Unparented, 3, 1) == S4
  {
  }

  /**
   * Without the stale-links requirement set_parent_entity is not idempotent: repeating
   * set_parent_entity(3, 1) on S3 moves 1's first_child from 3 to 4.
   */
  lemma RepeatNotIdempotent()
    ensures CanSetParent(S2, 3, 1) && Parented(S2, 3, 1) == S3
    ensures CanSetParent(S3, 3, 1) && Parented(S3, 3, 1) == S4
    ensures S3[1].firstChild == Some(3) && S4[1].firstChild == Some(4) && S4 != S3
  {
    ThirdCall();
    RepeatUnparents();
    RepeatLinks();
  }

  /** In S3Unparented the walk from 4 yields 4 alone. */
  lemma RepeatWalk()
    ensures Walk(S3Unparented, Some(4), 2) == [4]
  {
  }

  /**
   * Without the stale-links requirement the round trip goes wrong: un-parenting 3 after
   * set_parent_entity(3, 1) leaves 1 with first_child 4, so children of 1 yields [4]
   * (RepeatWalk). Un-parenting alone leaves 1 with no children.
   */
  lemma RoundTripBroken()
    ensures CanSetParent(S2, 3, 1) && Parented(S2, 3, 1) == S3
    ensures CanUnparent(S3, 3) && Unparented(S3, 3) == S3Unparented && S3Unparented[1].firstChild == Some(4)
    ensures Prepared(S2, 3, 1) == S2[1 := EmptyHierarchy] && Unparented(S2[1 := EmptyHierarchy], 3) == S2Unparented
    ensures S2Unparented[1].firstChild == None
  {
    ThirdCall();
    RepeatUnparents();
    ThirdCallUnparents();
  }  // The evident intent, from the comment at lines 12-13: an entity with no parent has no
  // siblings. un_parent_entity then clears the siblings links of `e` as well. It does so also
  // when `e` has no parent, where the source returns early (lines 86-89): on a root with
  // stale links the corrected un_parent_entity is not a no-op.

  /**
   * un_parent_entity, with e's own siblings links cleared afterwards, also when `e` had no
   * parent to begin with.
   */
  function UnparentedCleared(recs: Store, e: Entity): (r: Store)
    requires CanUnparent(recs, e)
    ensures r.Keys == recs.Keys
    ensures e in recs ==> r[e].parent.None? && r[e].siblings.None?
  {
    var u := Unparented(recs, e);
    if e in recs then u[e := u[e].(siblings := None)] else u
  }

  /** The unwraps of set_parent_entity succeed on top of UnparentedCleared. */
  ghost predicate CanSetParentCleared(recs: Store, e: Entity, p: Entity)
  {
    CanUnparent(Prepared(recs, e, p), e) && CanLink(UnparentedCleared(Prepared(recs, e, p), e), e, p)
  }

  /** set_parent_entity on top of UnparentedCleared. */
  function ParentedCleared(recs: Store, e: Entity, p: Entity): (r: Store)
    requires CanSetParentCleared(recs, e, p)
    ensures r.Keys == recs.Keys + {e, p} && r[e].parent == Some(p)
  {
    Link(UnparentedCleared(Prepared(recs, e, p), e), e, p)
  }

  /** Clearing a root's siblings links keeps a store valid. */
  lemma ClearRootValid(recs: Store, kids: Kids, x: Entity)
    requires ValidStore(recs, kids) && x in recs && recs[x].parent.None?
    ensures ValidStore(recs[x := recs[x].(siblings := None)], kids)
  {
    var r := recs[x := recs[x].(siblings := None)];
    assert RefersInto(recs[x], recs);
    UpdateClosed(recs, x, recs[x].(siblings := None));
    forall q | q in kids ensures Ring(r, kids[q]) {
      assert Ring(recs, kids[q]);
      forall y | y in kids[q] ensures y in r && r[y].siblings == recs[y].siblings {
        var i :| 0 <= i < |kids[q]| && kids[q][i] == y;
        assert recs[y].parent == Some(q);
      }
      RingFrame(recs, r, kids[q]);
    }
    assert ChildrenHaveParent(r, kids);
    assert ParentsListChildren(r, kids);
  }

  /** The corrected un_parent_entity keeps the store valid with the same sequences. */
  lemma UnparentedClearedValid(recs: Store, kids: Kids, e: Entity)
    requires ValidStore(recs, kids)
    ensures CanUnparent(recs, e)
    ensures ValidStore(UnparentedCleared(recs, e), KidsUnparented(recs, kids, e))
    ensures forall x | x in recs && x != e :: UnparentedCleared(recs, e)[x] == Unparented(recs, e)[x]
  {
    UnparentValid(recs, kids, e);
    if e in recs {
      ClearRootValid(Unparented(recs, e), KidsUnparented(recs, kids, e), e);
    }
  }

  /**
   * With un_parent_entity clearing e's siblings links, set_parent_entity never fails on a
   * valid store and keeps it valid, with `e` appended to p's sequence, for every `e` other
   * than `p`: the guard on stale links is no longer needed.
   */
  lemma ParentedClearedValid(recs: Store, kids: Kids, e: Entity, p: Entity)
    requires ValidStore(recs, kids) && e != p
    ensures CanSetParentCleared(recs, e, p)
    ensures ValidStore(ParentedCleared(recs, e, p), KidsParented(recs, kids, e, p))
  {
    var r0 := Prepared(recs, e, p);
    var k0 := KidsWith(KidsWith(kids, p), e);
    PreparedValid(recs, kids, e, p);
    UnparentedClearedValid(r0, k0, e);
    LinkValid(UnparentedCleared(r0, e), KidsUnparented(r0, k0, e), e, p);
  }

  /** After the corrected set_parent_entity(3, 1): 3 is 1's sole child and carries no links. */
  const S3Cleared: Store := map[1 := Hierarchy(None, Some(3), None),
                                2 := Hierarchy(None, Some(4), None),
                                3 := Hierarchy(Some(1), None, None),
                                4 := Hierarchy(Some(2), None, None)]

  lemma ThirdCallClearedStore()
    ensures CanSetParentCleared(S2, 3, 1) && ParentedCleared(S2, 3, 1) == S3Cleared
  {
    ThirdCallUnparents();
    var u := S2Unparented[3 := S2Unparented[3].(siblings := None)];
    assert UnparentedCleared(S2[1 := EmptyHierarchy], 3) == u;
    assert CanLink(u, 3, 1) && Link(u, 3, 1) == S3Cleared;
  }

  /**
   * On the store of the counterexample, the corrected call gives 1 the single child 3:
   * the walk from 1's first_child stops after 3.
   */
  lemma ThirdCallCleared()
    ensures CanSetParentCleared(S2, 3, 1)
    ensures Walk(ParentedCleared(S2, 3, 1), Some(3), 2) == [3]
    ensures CursorAfter(ParentedCleared(S2, 3, 1), Some(3), 1).None?
    ensures ParentedCleared(S2, 3, 1)[1].firstChild == Some(3)
  {
    ThirdCallClearedStore();
  }
}
