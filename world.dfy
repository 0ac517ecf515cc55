/**
 * The operations of src/hierarchy.rs as they run: each rewrites the Hierarchy records of
 * the world one field at a time, in the source's order. The child sequences are ghost
 * state that the operations keep in step with the records.
 */
module Worlds {
  import opened Records
  import opened ChildLists
  import opened Operations
  import opened Preservation
  import opened SetParent
  import opened SiblingIteration

  class World {
    /** The Hierarchy component of every entity that has one. */
    var recs: Store
    /** Every entity's children, in the order the sibling iterator yields them. */
    ghost var kids: Kids

    ghost predicate Valid()
      reads this
    {
      ValidStore(recs, kids)
    }

    /** A world without Hierarchy components. */
    constructor ()
      ensures Valid() && recs == map[] && kids == map[]
    {
      recs := map[];
      kids := map[];
    }

    /** ensure_hierarchy_present (lines 167-178). */
    method EnsureHierarchyPresent(e: Entity)
      requires Valid()
      modifies this
      ensures Valid()
      ensures recs == WithHierarchy(old(recs), e) && kids == KidsWith(old(kids), e)
    {
      EnsureValid(recs, kids, e);
      if e !in recs {
        recs := recs[e := Hierarchy(None, None, None)];
        kids := kids[e := []];
      }
    }

    /** un_parent_entity (lines 71-145). */
    method UnparentEntity(e: Entity)
      requires Valid()
      modifies this
      ensures Valid() && CanUnparent(old(recs), e)
      ensures recs == Unparented(old(recs), e) && kids == KidsUnparented(old(recs), old(kids), e)
      ensures e in old(recs) ==> recs[e] == old(recs)[e].(parent := None)
      ensures forall q | q in kids :: kids[q] == Without(old(kids)[q], e)
    {
      UnparentValid(recs, kids, e);
      KidsUnparentedAll(recs, kids, e);
      if e !in recs {
        return;
      }
      if !recs[e].HasParent() {
        return;
      }
      UnparentedIsUnlinked(recs, e);
      kids := KidsUnparented(recs, kids, e);
      var siblings := recs[e].siblings;
      ClearParent(e);
      UnlinkSiblings(siblings);
    }

    /**
     * The first part of un_parent_entity (lines 92-119): clear e's parent link and move the
     * parent's first_child on if it was `e`.
     */
    method ClearParent(e: Entity)
      requires e in recs && recs[e].parent.Some? && recs[e].parent.value in recs
      requires recs[recs[e].parent.value].firstChild.Some?
      modifies this
      ensures recs == Detached(old(recs), e) && kids == old(kids)
    {
      var parent := recs[e].parent.value;
      recs := recs[e := recs[e].(parent := None)];
      var siblings := recs[e].siblings;
      if recs[parent].firstChild.value == e {
        recs := recs[parent := recs[parent].(firstChild := if siblings.Some? then Some(siblings.value.1) else None)];
      }
    }

    /** The rest of un_parent_entity (lines 121-144): unlink `siblings` from each other. */
    method UnlinkSiblings(siblings: Option<(Entity, Entity)>)
      requires CanUnlink(recs, siblings)
      modifies this
      ensures recs == Unlink(old(recs), siblings) && kids == old(kids)
    {
      match siblings {
        case Some((previous, next)) =>
          if previous == next {
            recs := recs[next := recs[next].(siblings := None)];
          } else {
            recs := recs[previous := recs[previous].(siblings := Some((recs[previous].siblings.value.0, next)))];
            recs := recs[next := recs[next].(siblings := Some((previous, recs[next].siblings.value.1)))];
          }
        case None =>
      }
    }

    /**
     * set_parent_entity (lines 21-68): `e` ends up last in p's child sequence and leaves its
     * old parent's. `e` must not be `p`, and if `e` carries siblings links (current or left
     * over from an earlier un-parenting) `p` must already have a child.
     */
    method SetParentEntity(e: Entity, p: Entity)
      requires Valid() && e != p
      requires e in recs && recs[e].HasSiblings() ==> p in recs && recs[p].HasChildren()
      modifies this
      ensures Valid() && CanSetParent(old(recs), e, p)
      ensures recs == Parented(old(recs), e, p) && kids == KidsParented(old(recs), old(kids), e, p)
      ensures kids.Keys == old(kids).Keys + {e, p}
      ensures kids[p] == Without(ChildrenIn(old(kids), p), e) + [e]
      ensures forall q | q in kids && q != p :: kids[q] == Without(ChildrenIn(old(kids), q), e)
    {
      ParentedKids(recs, kids, e, p);
      ghost var r0, k0 := recs, kids;
      EnsureHierarchyPresent(p);
      EnsureHierarchyPresent(e);
      assert recs == Prepared(r0, e, p) && kids == KidsWith(KidsWith(k0, p), e);
      StaleLinksAvoided(recs, kids, e, p);
      UnparentEntity(e);
      LinkValid(recs, kids, e, p);
      LinkEntity(e, p);
    }

    /**
     * The rest of set_parent_entity (lines 29-67): set e's parent link, then make `e` the
     * first child, the second child, or wire it in just before the first child; `e` is
     * recorded as the last of p's children.
     */
    method LinkEntity(e: Entity, p: Entity)
      requires CanLink(recs, e, p) && p in kids
      modifies this
      ensures recs == Link(old(recs), e, p) && kids == old(kids)[p := old(kids)[p] + [e]]
    {
      kids := kids[p := kids[p] + [e]];
      recs := recs[e := recs[e].(parent := Some(p))];
      var firstChild := recs[p].firstChild;
      match firstChild {
        case Some(first) =>
          var firstSiblings := recs[first].siblings;
          match firstSiblings {
            case Some((oldPrevious, _)) =>
              recs := recs[first := recs[first].(siblings := Some((e, recs[first].siblings.value.1)))];
              recs := recs[oldPrevious := recs[oldPrevious].(siblings := Some((recs[oldPrevious].siblings.value.0, e)))];
              recs := recs[e := recs[e].(siblings := Some((oldPrevious, first)))];
            case None =>
              recs := recs[first := recs[first].(siblings := Some((e, e)))];
              recs := recs[e := recs[e].(siblings := Some((first, first)))];
          }
        case None =>
          recs := recs[p := recs[p].(firstChild := Some(e))];
          recs := recs[e := recs[e].(parent := Some(p))];
      }
    }

    /** children (lines 163-165): an iterator over the list that `h.first_child` enters. */
    method Children(h: Hierarchy) returns (it: SiblingIterator)
      requires Valid() && (h.firstChild.Some? ==> h.firstChild.value in recs)
      ensures fresh(it) && it.Valid() && it.calls == 0
      ensures it.recs == recs && it.firstEntity == h.firstChild
    {
      it := new SiblingIterator(recs, h.firstChild);
    }
  }
}
