/**
 * The structural invariant of src/hierarchy.rs: every parent's children form one circular
 * doubly-linked list through their `siblings` links, entered at the parent's `first_child`.
 * The abstract view is a child sequence per entity, in traversal order.
 */
module ChildLists {
  import opened Records

  /** Child sequences, one per entity that has a record. */
  type Kids = map<Entity, seq<Entity>>

  ghost predicate NoDup(s: seq<Entity>)
  {
    forall i, j | 0 <= i < j < |s| :: s[i] != s[j]
  }

  function Head(s: seq<Entity>): (h: Option<Entity>)
    ensures h.Some? <==> s != []
    ensures h.Some? ==> h.value == s[0]
  {
    if s == [] then None else Some(s[0])
  }

  function IndexOf(s: seq<Entity>, x: Entity): (i: nat)
    requires x in s
    ensures i < |s| && s[i] == x && x !in s[..i]
  {
    if s[0] == x then 0 else 1 + IndexOf(s[1..], x)
  }

  /** `s` with (the first occurrence of) `x` taken out, the rest in their order. */
  function Without(s: seq<Entity>, x: Entity): (t: seq<Entity>)
    ensures x !in s ==> t == s
    ensures x in s ==> t == s[..IndexOf(s, x)] + s[IndexOf(s, x) + 1..]
  {
    if x in s then s[..IndexOf(s, x)] + s[IndexOf(s, x) + 1..] else s
  }

  /** The child sequence of `q`, empty for an entity without a record. */
  function ChildrenIn(kids: Kids, q: Entity): seq<Entity>
  {
    if q in kids then kids[q] else []
  }

  /** Taking out an element just appended gives back the sequence. */
  lemma WithoutAppend(s: seq<Entity>, x: Entity)
    requires x !in s
    ensures Without(s + [x], x) == s
  {
    forall i | 0 <= i < |s| ensures (s + [x])[i] != x {
      assert (s + [x])[i] == s[i];
    }
    assert (s + [x])[..|s|] == s;
  }

  /** Taking out the first element gives the rest. */
  lemma WithoutHead(x: Entity, s: seq<Entity>)
    ensures Without([x] + s, x) == s
  {
    assert IndexOf([x] + s, x) == 0;
  }

  /** In a duplicate-free sequence, taking `x` out leaves no `x` behind. */
  lemma WithoutRemoves(s: seq<Entity>, x: Entity)
    requires NoDup(s)
    ensures x !in Without(s, x) && NoDup(Without(s, x))
  {
    if x in s {
      var k := IndexOf(s, x);
      var t := s[..k] + s[k + 1..];
      forall i | 0 <= i < |t| ensures t[i] != x && t[i] == s[if i < k then i else i + 1] {
      }
      forall i, j | 0 <= i < j < |t| ensures t[i] != t[j] {
        assert s[if i < k then i else i + 1] != s[if j < k then j else j + 1];
      }
    }
  }

  /** `a`'s next link leads to `b`, and `b`'s previous link leads back to `a`. */
  ghost predicate Adjacent(recs: Store, a: Entity, b: Entity)
  {
    && a in recs && recs[a].siblings.Some?
    && b in recs && recs[b].siblings.Some?
    && NextOf(recs, a) == b && PrevOf(recs, b) == a
  }

  /**
   * The siblings links of the members of `s` form the circular list s[0], s[1], ..., s[0];
   * a sole child carries no links.
   */
  ghost predicate Ring(recs: Store, s: seq<Entity>)
  {
    && (forall i | 0 <= i < |s| :: s[i] in recs)
    && (|s| == 1 ==> recs[s[0]].siblings.None?)
    && (|s| >= 2 ==>
          && (forall i | 0 <= i < |s| - 1 :: Adjacent(recs, s[i], s[i + 1]))
          && Adjacent(recs, s[|s| - 1], s[0]))
  }

  /** Every listed child names the list's owner as its parent. */
  ghost predicate ChildrenHaveParent(recs: Store, kids: Kids)
  {
    forall p, i | p in kids && 0 <= i < |kids[p]| ::
      kids[p][i] in recs && recs[kids[p][i]].parent == Some(p)
  }

  /** Every entity with a parent is listed by that parent. */
  ghost predicate ParentsListChildren(recs: Store, kids: Kids)
  {
    forall c {:trigger recs[c].parent} | c in recs && recs[c].parent.Some? ::
      recs[c].parent.value in kids && c in kids[recs[c].parent.value]
  }

  ghost predicate NoSelfParent(recs: Store)
  {
    forall c {:trigger recs[c].parent} | c in recs :: recs[c].parent != Some(c)
  }

  /** Each child sequence is duplicate-free and is the ring of its members' links. */
  ghost predicate Rings(recs: Store, kids: Kids)
  {
    && (forall p {:trigger NoDup(kids[p])} | p in kids :: NoDup(kids[p]))
    && (forall p {:trigger Ring(recs, kids[p])} | p in kids :: Ring(recs, kids[p]))
  }

  /** Each first_child is the head of the child sequence. */
  ghost predicate FirstChildren(recs: Store, kids: Kids)
    requires recs.Keys <= kids.Keys
  {
    forall p {:trigger recs[p].firstChild} | p in recs :: recs[p].firstChild == Head(kids[p])
  }

  /**
   * The store agrees with the child sequences `kids`: parent links and child sequences
   * match, no child is listed twice, nobody is its own parent, `first_child` is the head
   * of the sequence and the siblings links form the ring. A root's own `siblings` field is
   * left unconstrained, because un-parenting leaves it as it was.
   */
  ghost predicate ValidStore(recs: Store, kids: Kids)
  {
    && Closed(recs)
    && kids.Keys == recs.Keys
    && ChildrenHaveParent(recs, kids)
    && ParentsListChildren(recs, kids)
    && NoSelfParent(recs)
    && Rings(recs, kids)
    && FirstChildren(recs, kids)
  }

  /** A ring depends on nothing but the siblings links of its own members. */
  lemma RingFrame(recs: Store, recs': Store, s: seq<Entity>)
    requires Ring(recs, s)
    requires forall x | x in s :: x in recs' && recs'[x].siblings == recs[x].siblings
    ensures Ring(recs', s)
  {
    if |s| >= 2 {
      forall i | 0 <= i < |s| - 1 ensures Adjacent(recs', s[i], s[i + 1]) {
        assert Adjacent(recs, s[i], s[i + 1]);
      }
      assert Adjacent(recs, s[|s| - 1], s[0]);
    }
  }

  /** In a ring of two or more, each member's links are its neighbours in the sequence. */
  lemma RingLinks(recs: Store, s: seq<Entity>, i: nat)
    requires Ring(recs, s) && |s| >= 2 && i < |s|
    ensures recs[s[i]].siblings ==
      Some((s[if i == 0 then |s| - 1 else i - 1], s[if i == |s| - 1 then 0 else i + 1]))
  {
    if i == |s| - 1 { assert Adjacent(recs, s[i], s[0]); } else { assert Adjacent(recs, s[i], s[i + 1]); }
    if i == 0 { assert Adjacent(recs, s[|s| - 1], s[0]); } else { assert Adjacent(recs, s[i - 1], s[i]); }
  }

  /**
   * Two valid stores over the same child sequences agree on every parent and first_child
   * link and on the siblings links of every entity that has a parent: only roots' stale
   * links can differ.
   */
  lemma {:induction false} StoreDetermined(a: Store, b: Store, kids: Kids)
    requires ValidStore(a, kids) && ValidStore(b, kids)
    ensures a.Keys == b.Keys
    ensures forall x | x in a ::
      && a[x].parent == b[x].parent
      && a[x].firstChild == b[x].firstChild
      && (a[x].parent.Some? ==> a[x].siblings == b[x].siblings)
  {
    forall x | x in a
      ensures a[x].parent == b[x].parent
      ensures a[x].firstChild == b[x].firstChild
      ensures a[x].parent.Some? ==> a[x].siblings == b[x].siblings
    {
      if a[x].parent.Some? {
        var q := a[x].parent.value;
        assert b[x].parent == Some(q);
        var s := kids[q];
        var i :| 0 <= i < |s| && s[i] == x;
        assert Ring(a, s) && Ring(b, s);
        if |s| >= 2 {
          RingLinks(a, s, i);
          RingLinks(b, s, i);
        }
      }
    }
  }

  /**
   * Two valid stores over the same child sequences whose roots carry the same siblings links
   * are the same store.
   */
  lemma SameStore(a: Store, b: Store, kids: Kids)
    requires ValidStore(a, kids) && ValidStore(b, kids)
    requires forall x | x in a && a[x].parent.None? :: x in b && b[x].siblings == a[x].siblings
    ensures a == b
  {
    StoreDetermined(a, b, kids);
    forall x | x in a ensures a[x] == b[x] {
      if a[x].parent.None? {
        assert b[x].siblings == a[x].siblings;
      }
    }
  }

  /**
   * What the accessors of a record mean in a valid store: `has_children` says the child
   * sequence is non-empty, `parent` names the entity whose sequence lists it, and a child
   * has sibling links exactly when its parent has two or more children.
   */
  lemma Accessors(recs: Store, kids: Kids, x: Entity)
    requires ValidStore(recs, kids) && x in recs
    ensures recs[x].HasChildren() <==> kids[x] != []
    ensures forall q | q in kids :: recs[x].Parent() == Some(q) <==> x in kids[q]
    ensures recs[x].HasParent() ==>
      recs[x].Parent().value in kids &&
      (recs[x].HasSiblings() <==> |kids[recs[x].Parent().value]| >= 2)
  {
    if recs[x].HasParent() {
      var s := kids[recs[x].parent.value];
      var i :| 0 <= i < |s| && s[i] == x;
      assert Ring(recs, s);
      if |s| >= 2 {
        RingLinks(recs, s, i);
      }
    }
  }
}
