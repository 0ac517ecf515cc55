/**
 * The Hierarchy component of src/hierarchy.rs and the store that holds one per entity.
 */
module Records {

  datatype Option<T> = None | Some(value: T)

  /** Entities are opaque identifiers owned by the component store; only equality is used. */
  type Entity = nat

  /**
   * One entity's place in the scene graph: its parent, the child its child list starts
   * from, and the (previous, next) links of the circular list of its parent's children.
   */
  datatype Hierarchy = Hierarchy(
    parent: Option<Entity>,
    firstChild: Option<Entity>,
    siblings: Option<(Entity, Entity)>)
  {
    predicate HasParent() { parent.Some? }

    predicate HasSiblings() { siblings.Some? }

    predicate HasChildren() { firstChild.Some? }

    function Parent(): Option<Entity> { parent }
  }

  /** The record `ensure_hierarchy_present` inserts. */
  const EmptyHierarchy := Hierarchy(None, None, None)

  /** The component store, restricted to its Hierarchy components. */
  type Store = map<Entity, Hierarchy>

  /** Every entity that `h` mentions has a record of its own. */
  ghost predicate RefersInto(h: Hierarchy, recs: Store)
  {
    && (h.parent.Some? ==> h.parent.value in recs)
    && (h.firstChild.Some? ==> h.firstChild.value in recs)
    && (h.siblings.Some? ==> h.siblings.value.0 in recs && h.siblings.value.1 in recs)
  }

  /** No record holds a dangling link (records are never deleted). */
  ghost predicate Closed(recs: Store)
  {
    forall x {:trigger recs[x]} | x in recs :: RefersInto(recs[x], recs)
  }

  /** Writing a record whose links point at existing records keeps the store closed. */
  lemma UpdateClosed(r: Store, x: Entity, h: Hierarchy)
    requires Closed(r) && x in r && RefersInto(h, r)
    ensures Closed(r[x := h])
  {
    var r' := r[x := h];
    forall y | y in r' ensures RefersInto(r'[y], r') {
      if y != x { assert RefersInto(r[y], r); }
    }
  }

  function PrevOf(recs: Store, x: Entity): Entity
    requires x in recs && recs[x].siblings.Some?
  {
    recs[x].siblings.value.0
  }

  function NextOf(recs: Store, x: Entity): Entity
    requires x in recs && recs[x].siblings.Some?
  {
    recs[x].siblings.value.1
  }
}
