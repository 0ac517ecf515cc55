/**
 * The tests of src/hierarchy.rs (lines 232-357) as methods over a World, with what their
 * assertions check as postconditions.
 */
module Scenarios {
  import opened Records
  import opened ChildLists
  import opened Operations
  import opened SiblingIteration
  import opened Worlds

  /** `children(&world).collect()` for e's record: exactly e's child sequence. */
  method ChildrenOf(w: World, e: Entity) returns (items: seq<Entity>)
    requires w.Valid() && e in w.recs
    ensures items == w.kids[e]
  {
    var h := w.recs[e];
    assert RefersInto(h, w.recs);
    var it := w.Children(h);
    items := [];
    while true
      invariant it.Valid() && it.recs == w.recs && it.firstEntity == h.firstChild
      invariant it.calls <= |w.kids[e]|
      invariant items == Walk(w.recs, h.firstChild, it.calls)
      decreases |w.kids[e]| - it.calls
    {
      ChildrenWalk(w.recs, w.kids, e, it.calls);
      var item := it.Next();
      if item.None? {
        break;
      }
      items := items + [item.value];
    }
  }

  /**
   * The child sequences after appending `e`, which no sequence lists, to p's, where `p`
   * may have no sequence yet.
   */
  lemma AdoptedKids(k0: Kids, k: Kids, e: Entity, p: Entity)
    requires e !in k0 && e != p
    requires forall q, i | q in k0 && 0 <= i < |k0[q]| :: k0[q][i] != e
    requires k.Keys == k0.Keys + {e, p} && k[p] == Without(ChildrenIn(k0, p), e) + [e]
    requires forall q | q in k && q != p :: k[q] == Without(ChildrenIn(k0, q), e)
    ensures k == k0[p := ChildrenIn(k0, p) + [e]][e := []]
  {
    forall q | q in k ensures k[q] == k0[p := ChildrenIn(k0, p) + [e]][e := []][q] {
      if q != e && q in k0 {
        assert e !in k0[q];
      }
    }
  }

  /** The child sequences after taking `e`, which only q's sequence lists, out of that one. */
  lemma ReleasedKids(k0: Kids, k: Kids, e: Entity, q: Entity)
    requires q in k0 && forall q', i | q' in k0 && q' != q && 0 <= i < |k0[q']| :: k0[q'][i] != e
    requires k.Keys == k0.Keys && forall q' | q' in k :: k[q'] == Without(k0[q'], e)
    ensures k == k0[q := Without(k0[q], e)]
  {
    forall q' | q' in k ensures k[q'] == k0[q := Without(k0[q], e)][q'] {
      if q' != q {
        assert e !in k0[q'];
      }
    }
  }

  /**
   * set_parent_entity on an entity that has no record yet, as in the tests: `e` is appended
   * to p's child sequence (empty when `p` has no record either) and gets an empty one of its
   * own. `e`'s parent becomes `p`, a new record for `p` has no parent, and no other parent
   * changes.
   */
  method Adopt(w: World, e: Entity, p: Entity, ghost before: seq<Entity>)
    requires w.Valid() && e != p && e !in w.recs && ChildrenIn(w.kids, p) == before
    modifies w
    ensures w.Valid() && w.recs.Keys == old(w.recs.Keys) + {e, p}
    ensures w.kids == old(w.kids)[p := before + [e]][e := []]
    ensures w.recs[e].parent == Some(p) && (p !in old(w.recs) ==> w.recs[p].parent.None?)
    ensures forall x | x in old(w.recs) :: w.recs[x].parent == old(w.recs)[x].parent
  {
    ghost var k0 := w.kids;
    forall q, i | q in k0 && 0 <= i < |k0[q]| ensures k0[q][i] != e {
      assert k0[q][i] in w.recs;
    }
    w.SetParentEntity(e, p);
    AdoptedKids(k0, w.kids, e, p);
  }

  /**
   * un_parent_entity on a child of `q`, then q's children collected: q's sequence loses `e`,
   * the others stay as they were, and no other parent link changes.
   */
  method Release(w: World, e: Entity, q: Entity, ghost before: seq<Entity>) returns (after: seq<Entity>)
    requires w.Valid() && q in w.kids && w.kids[q] == before && e in before
    modifies w
    ensures w.Valid() && w.recs.Keys == old(w.recs.Keys)
    ensures w.kids == old(w.kids)[q := Without(before, e)] && after == Without(before, e)
    ensures !w.recs[e].HasParent()
    ensures forall x | x in w.recs && x != e :: w.recs[x].parent == old(w.recs)[x].parent
  {
    ghost var k0 := w.kids;
    forall q', i | q' in k0 && q' != q && 0 <= i < |k0[q']| ensures k0[q'][i] != e {
      var j :| 0 <= j < |before| && before[j] == e;
      assert w.recs[before[j]].parent == Some(q);
    }
    w.UnparentEntity(e);
    ReleasedKids(k0, w.kids, e, q);
    after := ChildrenOf(w, q);
  }

  /**
   * parent_one (lines 233-256): what the accessors and `children` return for the parent and
   * for the child.
   */
  method ParentOne(e1: Entity, e2: Entity)
    returns (parentHasParent: bool, parentHasChildren: bool, parentChildren: seq<Entity>,
             childHasParent: bool, childHasChildren: bool, childParent: Option<Entity>,
             childChildren: seq<Entity>)
    requires e1 != e2
    ensures !parentHasParent && parentHasChildren && parentChildren == [e2]
    ensures childHasParent && !childHasChildren && childParent == Some(e1) && childChildren == []
  {
    var w := new World();
    Adopt(w, e2, e1, []);
    var h1 := w.recs[e1];
    Accessors(w.recs, w.kids, e1);
    parentHasParent, parentHasChildren := h1.HasParent(), h1.HasChildren();
    parentChildren := ChildrenOf(w, e1);
    var h2 := w.recs[e2];
    Accessors(w.recs, w.kids, e2);
    childHasParent, childHasChildren, childParent := h2.HasParent(), h2.HasChildren(), h2.Parent();
    childChildren := ChildrenOf(w, e2);
  }

  /**
   * parent_many (lines 259-286): the parent has no parent, has children, and lists them in
   * the order they were parented.
   */
  method ParentMany(e1: Entity, e2: Entity, e3: Entity, e4: Entity)
    returns (parentHasParent: bool, parentHasChildren: bool, children: seq<Entity>)
    requires e1 != e2 && e1 != e3 && e1 != e4 && e2 != e3 && e2 != e4 && e3 != e4
    ensures !parentHasParent && parentHasChildren && children == [e2, e3, e4]
  {
    var w := ThreeChildren(e1, e2, e3, e4);
    Accessors(w.recs, w.kids, e1);
    parentHasParent, parentHasChildren := w.recs[e1].HasParent(), w.recs[e1].HasChildren();
    children := ChildrenOf(w, e1);
  }

  /** The first two set_parent_entity calls of parent_many and remove_many_children. */
  method TwoChildren(parent: Entity, e1: Entity, e2: Entity) returns (w: World)
    requires parent != e1 && parent != e2 && e1 != e2
    ensures fresh(w) && w.Valid() && w.recs.Keys == {parent, e1, e2} && !w.recs[parent].HasParent()
    ensures w.kids[parent] == [e1, e2] && w.kids[e1] == [] && w.kids[e2] == []
  {
    w := new World();
    Adopt(w, e1, parent, []);
    assert w.kids[parent] == [e1] && w.recs.Keys == {parent, e1};
    Adopt(w, e2, parent, [e1]);
  }

  /**
   * The set-up of parent_many and remove_many_children (lines 273-275, 303-305): three
   * entities parented to `parent` in turn.
   */
  method ThreeChildren(parent: Entity, e1: Entity, e2: Entity, e3: Entity) returns (w: World)
    requires parent != e1 && parent != e2 && parent != e3 && e1 != e2 && e1 != e3 && e2 != e3
    ensures fresh(w) && w.Valid() && w.kids.Keys == {parent, e1, e2, e3} && !w.recs[parent].HasParent()
    ensures w.kids[parent] == [e1, e2, e3] && w.kids[e1] == [] && w.kids[e2] == [] && w.kids[e3] == []
  {
    w := TwoChildren(parent, e1, e2);
    Adopt(w, e3, parent, [e1, e2]);
  }

  /**
   * The middle of remove_many_children (lines 316-346): un-parenting e1, e3 and e2 in turn
   * leaves the others in their order, and none of them keeps a parent.
   */
  method RemoveInTurn(w: World, parent: Entity, e1: Entity, e2: Entity, e3: Entity)
    returns (afterFirst: seq<Entity>, afterLast: seq<Entity>, none: seq<Entity>)
    requires w.Valid() && parent in w.kids && w.kids[parent] == [e1, e2, e3]
    requires e1 in w.kids && w.kids[e1] == [] && e2 in w.kids && e3 in w.kids
    requires parent != e1 && parent != e2 && parent != e3 && e1 != e2 && e1 != e3 && e2 != e3
    modifies w
    ensures w.Valid() && e1 in w.kids && w.kids[e1] == [] && e2 in w.recs && e3 in w.recs
    ensures afterFirst == [e2, e3] && afterLast == [e2] && none == []
    ensures !w.recs[e1].HasParent() && !w.recs[e2].HasParent() && !w.recs[e3].HasParent()
  {
    WithoutHead(e1, [e2, e3]);
    assert [e1] + [e2, e3] == [e1, e2, e3];
    afterFirst := Release(w, e1, parent, [e1, e2, e3]);
    assert w.kids[parent] == [e2, e3] && w.kids[e1] == [];
    afterLast, none := RemoveLastTwo(w, parent, e1, e2, e3);
  }

  /** The end of remove_many_children's removals (lines 326-346): e3 and then e2 leave. */
  method RemoveLastTwo(w: World, parent: Entity, e1: Entity, e2: Entity, e3: Entity)
    returns (afterLast: seq<Entity>, none: seq<Entity>)
    requires w.Valid() && parent in w.kids && w.kids[parent] == [e2, e3]
    requires e1 in w.kids && w.kids[e1] == [] && !w.recs[e1].HasParent()
    requires parent != e1 && parent != e2 && parent != e3 && e1 != e2 && e1 != e3 && e2 != e3
    modifies w
    ensures w.Valid() && e1 in w.kids && w.kids[e1] == [] && e2 in w.recs && e3 in w.recs
    ensures afterLast == [e2] && none == []
    ensures !w.recs[e1].HasParent() && !w.recs[e2].HasParent() && !w.recs[e3].HasParent()
  {
    WithoutAppend([e2], e3);
    assert [e2] + [e3] == [e2, e3];
    afterLast := Release(w, e3, parent, [e2, e3]);
    assert w.kids[parent] == [e2] && w.kids[e1] == [];
    WithoutHead(e2, []);
    assert [e2] + [] == [e2];
    none := Release(w, e2, parent, [e2]);
  }

  /**
   * remove_many_children (lines 289-357): the parent's children after each step, and what
   * the accessors and `children` return for e1, e2 and e3 at the end.
   */
  method RemoveManyChildren(parent: Entity, e1: Entity, e2: Entity, e3: Entity)
    returns (all: seq<Entity>, afterFirst: seq<Entity>, afterLast: seq<Entity>, none: seq<Entity>,
             e1HasChildren: bool, ofE1: seq<Entity>,
             e1HasParent: bool, e2HasParent: bool, e3HasParent: bool)
    requires parent != e1 && parent != e2 && parent != e3 && e1 != e2 && e1 != e3 && e2 != e3
    ensures all == [e1, e2, e3] && afterFirst == [e2, e3] && afterLast == [e2] && none == []
    ensures !e1HasChildren && ofE1 == []
    ensures !e1HasParent && !e2HasParent && !e3HasParent
  {
    var w := ThreeChildren(parent, e1, e2, e3);
    all := ChildrenOf(w, parent);
    afterFirst, afterLast, none := RemoveInTurn(w, parent, e1, e2, e3);
    Accessors(w.recs, w.kids, e1);
    e1HasChildren := w.recs[e1].HasChildren();
    ofE1 := ChildrenOf(w, e1);
    e1HasParent, e2HasParent, e3HasParent := w.recs[e1].HasParent(), w.recs[e2].HasParent(), w.recs[e3].HasParent();
  }
}
