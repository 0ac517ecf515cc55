/**
 * The effect on the store of `ensure_hierarchy_present`, `un_parent_entity` and
 * `set_parent_entity` (src/hierarchy.rs), as functions of the store before the call.
 * Each follows the source's writes in order; every `unwrap()` of the source is a
 * precondition (`CanUnparent`, `CanLink`, `CanSetParent`).
 */
module Operations {
  import opened Records
  import opened ChildLists

  /** ensure_hierarchy_present: insert an empty record unless one exists. */
  function WithHierarchy(recs: Store, e: Entity): (r: Store)
    ensures r.Keys == recs.Keys + {e}
    ensures forall x {:trigger r[x]} | x in recs :: r[x] == recs[x]
    ensures e !in recs ==> r[e] == EmptyHierarchy
  {
    if e in recs then recs else recs[e := EmptyHierarchy]
  }

  /** The unwraps of the unlinking step succeed. */
  ghost predicate CanUnlink(r: Store, sibs: Option<(Entity, Entity)>)
  {
    sibs.Some? ==>
      var (previous, next) := sibs.value;
      next in r && (previous != next ==>
        previous in r && r[previous].siblings.Some? && r[next].siblings.Some?)
  }

  /**
   * Take an entity whose links were `sibs` out of its circular list: with one other
   * sibling, that sibling loses its links; with more, previous and next are joined.
   */
  function Unlink(r: Store, sibs: Option<(Entity, Entity)>): (r': Store)
    requires CanUnlink(r, sibs)
    ensures r'.Keys == r.Keys
    ensures forall x {:trigger r'[x]} | x in r ::
      r'[x].parent == r[x].parent && r'[x].firstChild == r[x].firstChild
  {
    match sibs
    case None => r
    case Some((previous, next)) =>
      if previous == next then
        r[next := r[next].(siblings := None)]
      else
        var r1 := r[previous := r[previous].(siblings := Some((r[previous].siblings.value.0, next)))];
        r1[next := r1[next].(siblings := Some((previous, r1[next].siblings.value.1)))]
  }

  /** The unwraps of un_parent_entity succeed. */
  ghost predicate CanUnparent(recs: Store, e: Entity)
  {
    e in recs && recs[e].parent.Some? ==>
      var q := recs[e].parent.value;
      q in recs && recs[q].firstChild.Some? && CanUnlink(recs, recs[e].siblings)
  }

  /**
   * The first writes of un_parent_entity (lines 92-119): clear the parent link and, when
   * `e` is the first child, move first_child on to `e`'s next sibling, if any.
   */
  function Detached(recs: Store, e: Entity): (r2: Store)
    requires e in recs && recs[e].parent.Some? && recs[e].parent.value in recs
    requires recs[recs[e].parent.value].firstChild.Some?
    ensures r2.Keys == recs.Keys
    ensures forall x {:trigger r2[x]} | x in recs ::
      && r2[x].parent == (if x == e then None else recs[x].parent)
      && r2[x].siblings == recs[x].siblings
      && (x != recs[e].parent.value ==> r2[x].firstChild == recs[x].firstChild)
  {
    var q := recs[e].parent.value;
    var r1 := recs[e := recs[e].(parent := None)];
    var sibs := r1[e].siblings;
    if r1[q].firstChild.value == e then
      r1[q := r1[q].(firstChild := if sibs.Some? then Some(sibs.value.1) else None)]
    else r1
  }

  /** un_parent_entity. */
  function Unparented(recs: Store, e: Entity): (r: Store)
    requires CanUnparent(recs, e)
    ensures r.Keys == recs.Keys
    ensures e in recs ==> r[e].parent.None?
    ensures forall x {:trigger r[x]} | x in recs && x != e :: r[x].parent == recs[x].parent
    ensures e !in recs || recs[e].parent.None? ==> r == recs
  {
    if e !in recs || recs[e].parent.None? then recs
    else Unlink(Detached(recs, e), recs[e].siblings)
  }

  /** Un-parenting twice is un-parenting once: the second call finds no parent. */
  lemma UnparentIdempotent(recs: Store, e: Entity)
    requires CanUnparent(recs, e)
    ensures CanUnparent(Unparented(recs, e), e)
    ensures Unparented(Unparented(recs, e), e) == Unparented(recs, e)
  {
  }

  /** The unwraps of set_parent_entity's linking step (after un-parenting) succeed. */
  ghost predicate CanLink(r: Store, e: Entity, p: Entity)
  {
    && e in r && p in r
    && var r1 := r[e := r[e].(parent := Some(p))];
       r1[p].firstChild.Some? ==>
         var f := r1[p].firstChild.value;
         f in r && (r1[f].siblings.Some? ==>
           var previous := r1[f].siblings.value.0;
           previous in r && (previous == f || r1[previous].siblings.Some?))
  }

  /**
   * set_parent_entity after its un-parenting step: set the parent link, then make `e`
   * the first child, the second child, or put it just before the first child.
   */
  function Link(r: Store, e: Entity, p: Entity): (r': Store)
    requires CanLink(r, e, p)
    ensures r'.Keys == r.Keys
    ensures r'[e].parent == Some(p)
    ensures forall x {:trigger r'[x]} | x in r && x != e :: r'[x].parent == r[x].parent
  {
    var r1 := r[e := r[e].(parent := Some(p))];
    match r1[p].firstChild
    case Some(f) =>
      (match r1[f].siblings
       case Some((oldPrevious, _)) =>
         var r2 := r1[f := r1[f].(siblings := Some((e, r1[f].siblings.value.1)))];
         var r3 := r2[oldPrevious := r2[oldPrevious].(siblings := Some((r2[oldPrevious].siblings.value.0, e)))];
         r3[e := r3[e].(siblings := Some((oldPrevious, f)))]
       case None =>
         var r2 := r1[f := r1[f].(siblings := Some((e, e)))];
         r2[e := r2[e].(siblings := Some((f, f)))])
    case None =>
      var r2 := r1[p := r1[p].(firstChild := Some(e))];
      r2[e := r2[e].(parent := Some(p))]
  }

  /** The store set_parent_entity works on once both records are present. */
  function Prepared(recs: Store, e: Entity, p: Entity): (r: Store)
    ensures r.Keys == recs.Keys + {e, p}
    ensures forall x {:trigger r[x]} | x in recs :: r[x] == recs[x]
    ensures forall x {:trigger r[x]} | x in r && x !in recs :: r[x] == EmptyHierarchy
  {
    WithHierarchy(WithHierarchy(recs, p), e)
  }

  /** The unwraps of set_parent_entity succeed. */
  ghost predicate CanSetParent(recs: Store, e: Entity, p: Entity)
  {
    CanUnparent(Prepared(recs, e, p), e) && CanLink(Unparented(Prepared(recs, e, p), e), e, p)
  }

  /** set_parent_entity. */
  function Parented(recs: Store, e: Entity, p: Entity): (r: Store)
    requires CanSetParent(recs, e, p)
    ensures r.Keys == recs.Keys + {e, p}
    ensures r[e].parent == Some(p)
    ensures forall x {:trigger r[x]} | x in r && x != e ::
      r[x].parent == if x in recs then recs[x].parent else None
  {
    Link(Unparented(Prepared(recs, e, p), e), e, p)
  }

  // The child sequences after each operation.

  ghost function KidsWith(kids: Kids, e: Entity): (k: Kids)
  {
    if e in kids then kids else kids[e := []]
  }

  ghost function KidsUnparented(recs: Store, kids: Kids, e: Entity): (k: Kids)
    ensures k.Keys == kids.Keys
  {
    if e in recs && recs[e].parent.Some? && recs[e].parent.value in kids then
      kids[recs[e].parent.value := Without(kids[recs[e].parent.value], e)]
    else kids
  }

  ghost function KidsParented(recs: Store, kids: Kids, e: Entity, p: Entity): (k: Kids)
  {
    var k1 := KidsUnparented(Prepared(recs, e, p), KidsWith(KidsWith(kids, p), e), e);
    k1[p := k1[p] + [e]]
  }
}
