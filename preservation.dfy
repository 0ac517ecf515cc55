/**
 * Each operation of src/hierarchy.rs keeps the store valid, and moves the child
 * sequences the way the source's comments and tests describe.
 */
module Preservation {
  import opened Records
  import opened ChildLists
  import opened Operations

  lemma NoDupRemove(s: seq<Entity>, k: nat)
    requires NoDup(s) && k < |s|
    ensures NoDup(s[..k] + s[k + 1..])
    ensures s[k] !in s[..k] + s[k + 1..]
    ensures forall x | x in s && x != s[k] :: x in s[..k] + s[k + 1..]
  {
    var t := s[..k] + s[k + 1..];
    forall i, j | 0 <= i < j < |t| ensures t[i] != t[j] {
      var i' := if i < k then i else i + 1;
      var j' := if j < k then j else j + 1;
      assert t[i] == s[i'] && t[j] == s[j'];
    }
    forall x | x in s && x != s[k] ensures x in t {
      var i :| 0 <= i < |s| && s[i] == x;
      if i < k { assert t[i] == x; } else { assert t[i - 1] == x; }
    }
  }

  /**
   * When the neighbours of the k-th member of a ring of three or more are joined to each
   * other, the other members form a ring in their order.
   */
  lemma RingSplice(r: Store, r': Store, s: seq<Entity>, k: nat)
    requires Ring(r, s) && NoDup(s) && 3 <= |s| && k < |s|
    requires var prev, next := s[if k == 0 then |s| - 1 else k - 1], s[if k == |s| - 1 then 0 else k + 1];
      && (forall x | x in r && x != prev && x != next :: x in r' && r'[x] == r[x])
      && prev in r && r[prev].siblings.Some? && next in r && r[next].siblings.Some?
      && prev in r' && r'[prev].siblings == Some((PrevOf(r, prev), next))
      && next in r' && r'[next].siblings == Some((prev, NextOf(r, next)))
    ensures Ring(r', s[..k] + s[k + 1..])
  {
    var n := |s|;
    var t := s[..k] + s[k + 1..];
    var pk := if k == 0 then n - 1 else k - 1;
    var nk := if k == n - 1 then 0 else k + 1;
    var prev, next := s[pk], s[nk];
    assert forall j | 0 <= j < |t| :: t[j] == s[if j < k then j else j + 1];
    forall j | 0 <= j < |t| - 1 ensures Adjacent(r', t[j], t[j + 1]) {
      var a := if j < k then j else j + 1;
      if j + 1 == k {
        assert t[j] == prev && t[j + 1] == next;
      } else {
        assert t[j] == s[a] && t[j + 1] == s[a + 1];
        assert Adjacent(r, s[a], s[a + 1]);
        assert a != pk && a + 1 != nk;
      }
    }
    if k == 0 || k == n - 1 {
      assert t[|t| - 1] == prev && t[0] == next;
    } else {
      assert t[|t| - 1] == s[n - 1] && t[0] == s[0];
      assert Adjacent(r, s[n - 1], s[0]);
    }
  }

  /**
   * Splicing the k-th member out of a ring (lines 121-144) leaves a ring of the others in
   * their order, and touches no record outside the ring.
   */
  lemma RingRemove(r: Store, s: seq<Entity>, k: nat)
    requires Ring(r, s) && NoDup(s) && k < |s|
    ensures CanUnlink(r, r[s[k]].siblings)
    ensures Ring(Unlink(r, r[s[k]].siblings), s[..k] + s[k + 1..])
    ensures forall x | x in r && (x == s[k] || x !in s) :: Unlink(r, r[s[k]].siblings)[x] == r[x]
  {
    if |s| == 1 {
      assert s[..k] + s[k + 1..] == [];
    } else if |s| == 2 {
      RingRemovePair(r, s, k);
    } else {
      RingRemoveSplice(r, s, k);
    }
  }

  /** With two members, the one left carries no links. */
  lemma RingRemovePair(r: Store, s: seq<Entity>, k: nat)
    requires Ring(r, s) && NoDup(s) && |s| == 2 && k < 2
    ensures CanUnlink(r, r[s[k]].siblings)
    ensures Ring(Unlink(r, r[s[k]].siblings), s[..k] + s[k + 1..])
    ensures forall x | x in r && (x == s[k] || x !in s) :: Unlink(r, r[s[k]].siblings)[x] == r[x]
  {
    RingLinks(r, s, k);
    assert s[..k] + s[k + 1..] == [s[1 - k]];
  }

  /** With three or more members, the neighbours are joined to each other. */
  lemma RingRemoveSplice(r: Store, s: seq<Entity>, k: nat)
    requires Ring(r, s) && NoDup(s) && 3 <= |s| && k < |s|
    ensures CanUnlink(r, r[s[k]].siblings)
    ensures Ring(Unlink(r, r[s[k]].siblings), s[..k] + s[k + 1..])
    ensures forall x | x in r && (x == s[k] || x !in s) :: Unlink(r, r[s[k]].siblings)[x] == r[x]
  {
    var n := |s|;
    RingLinks(r, s, k);
    var pk := if k == 0 then n - 1 else k - 1;
    var nk := if k == n - 1 then 0 else k + 1;
    RingLinks(r, s, pk);
    RingLinks(r, s, nk);
    assert s[pk] != s[nk];
    RingSplice(r, Unlink(r, r[s[k]].siblings), s, k);
  }

  /**
   * When `e` is wired in between the last member L and the first member F of a ring of two
   * or more (lines 39-53), the ring runs through `e` after L.
   */
  lemma RingInsert(r: Store, r': Store, s: seq<Entity>, e: Entity)
    requires Ring(r, s) && NoDup(s) && 2 <= |s| && e !in s
    requires var f, l := s[0], s[|s| - 1];
      && (forall x | x in s && x != f && x != l :: x in r' && r'[x].siblings == r[x].siblings)
      && r[f].siblings.Some? && r[l].siblings.Some?
      && f in r' && r'[f].siblings == Some((e, NextOf(r, f)))
      && l in r' && r'[l].siblings == Some((PrevOf(r, l), e))
      && e in r' && r'[e].siblings == Some((l, f))
    ensures Ring(r', s + [e])
  {
    var n := |s|;
    var t := s + [e];
    forall i | 0 <= i < |t| - 1 ensures Adjacent(r', t[i], t[i + 1]) {
      if i < n - 1 {
        assert t[i] == s[i] && t[i + 1] == s[i + 1];
        assert Adjacent(r, s[i], s[i + 1]);
        assert i != n - 1 && i + 1 != 0;
      } else {
        assert t[i] == s[n - 1] && t[i + 1] == e;
      }
    }
    assert t[|t| - 1] == e && t[0] == s[0];
  }

  /** A child sequence other than q's keeps its ring when no other child's links change. */
  lemma OtherRingKept(recs: Store, kids: Kids, r': Store, q: Entity, p: Entity)
    requires ValidStore(recs, kids) && q in kids && p in kids && p != q
    requires forall x | x in recs && x !in kids[q] && recs[x].parent.Some? ::
      x in r' && r'[x].siblings == recs[x].siblings
    ensures NoDup(kids[p]) && Ring(r', kids[p])
  {
    forall x | x in kids[p] ensures x in r' && r'[x].siblings == recs[x].siblings {
      assert recs[x].parent == Some(p);
      assert x !in kids[q];
    }
    RingFrame(recs, r', kids[p]);
  }

  /**
   * `r'` differs from `recs` only by the removal of the k-th member of q's child sequence
   * `s`: its parent link is cleared, q's first_child is the head of the rest, the rest
   * form a ring, and no other link changes.
   */
  ghost predicate RemovedFrom(recs: Store, s: seq<Entity>, r': Store, q: Entity, k: nat)
    requires k < |s|
  {
    var t := s[..k] + s[k + 1..];
    && r'.Keys == recs.Keys && q in r' && Closed(r')
    && (forall x {:trigger r'[x]} | x in recs :: r'[x].parent == if x == s[k] then None else recs[x].parent)
    && (forall x {:trigger r'[x]} | x in recs && x != q :: r'[x].firstChild == recs[x].firstChild)
    && r'[q].firstChild == Head(t)
    && (forall x {:trigger r'[x]} | x in recs && x !in s :: r'[x].siblings == recs[x].siblings)
    && Ring(r', t)
  }

  lemma RemovalRings(recs: Store, kids: Kids, r': Store, q: Entity, k: nat)
    requires ValidStore(recs, kids) && q in kids && k < |kids[q]| && RemovedFrom(recs, kids[q], r', q, k)
    ensures Rings(r', kids[q := kids[q][..k] + kids[q][k + 1..]])
  {
    RemovalNoDups(kids, q, k);
    var kids' := kids[q := kids[q][..k] + kids[q][k + 1..]];
    forall p | p in kids' ensures Ring(r', kids'[p]) {
      if p != q {
        OtherRingKept(recs, kids, r', q, p);
      }
    }
  }

  /** Taking one member out of one duplicate-free sequence leaves all of them duplicate-free. */
  lemma RemovalNoDups(kids: Kids, q: Entity, k: nat)
    requires q in kids && k < |kids[q]|
    requires forall p {:trigger NoDup(kids[p])} | p in kids :: NoDup(kids[p])
    ensures var kids' := kids[q := kids[q][..k] + kids[q][k + 1..]];
      forall p {:trigger NoDup(kids'[p])} | p in kids' :: NoDup(kids'[p])
  {
    NoDupRemove(kids[q], k);
  }

  lemma RemovalChildren(recs: Store, kids: Kids, r': Store, q: Entity, k: nat)
    requires ChildrenHaveParent(recs, kids) && q in kids && k < |kids[q]| && NoDup(kids[q])
    requires RemovedFrom(recs, kids[q], r', q, k)
    ensures ChildrenHaveParent(r', kids[q := kids[q][..k] + kids[q][k + 1..]])
  {
    var s := kids[q];
    NoDupRemove(s, k);
    assert s[k] in recs && recs[s[k]].parent == Some(q);
    KeptChildren(recs, kids, r', q, s[k], s[..k] + s[k + 1..]);
  }

  /** Every child but `e` that was listed keeps its parent, so the lists without `e` hold. */
  lemma KeptChildren(recs: Store, kids: Kids, r': Store, q: Entity, e: Entity, t: seq<Entity>)
    requires ChildrenHaveParent(recs, kids) && q in kids && e !in t
    requires e in recs && recs[e].parent == Some(q)
    requires forall i | 0 <= i < |t| :: t[i] in kids[q]
    requires r'.Keys == recs.Keys
    requires forall x {:trigger r'[x]} | x in recs :: r'[x].parent == if x == e then None else recs[x].parent
    ensures ChildrenHaveParent(r', kids[q := t])
  {
    var kids' := kids[q := t];
    forall p, i | p in kids' && 0 <= i < |kids'[p]|
      ensures kids'[p][i] in r' && r'[kids'[p][i]].parent == Some(p)
    {
      var c := kids'[p][i];
      if p == q {
        assert c == t[i] && c != e;
        var j :| 0 <= j < |kids[q]| && kids[q][j] == c;
        assert recs[kids[q][j]].parent == Some(q);
      } else {
        assert c == kids[p][i];
        assert recs[kids[p][i]].parent == Some(p);
        assert c != e;
      }
    }
  }

  lemma RemovalParents(recs: Store, kids: Kids, r': Store, q: Entity, k: nat)
    requires ValidStore(recs, kids) && q in kids && k < |kids[q]| && RemovedFrom(recs, kids[q], r', q, k)
    ensures ParentsListChildren(r', kids[q := kids[q][..k] + kids[q][k + 1..]])
    ensures NoSelfParent(r')
  {
    var s := kids[q];
    var kids' := kids[q := s[..k] + s[k + 1..]];
    NoDupRemove(s, k);
    forall c | c in r' && r'[c].parent.Some?
      ensures r'[c].parent.value in kids' && c in kids'[r'[c].parent.value]
    {
      assert c != s[k];
      assert recs[c].parent.Some?;
      assert c in kids[recs[c].parent.value];
    }
    forall c | c in r' ensures r'[c].parent != Some(c) {
      assert recs[c].parent != Some(c);
    }
  }

  /** A store that differs from a valid one only by the removal of one child is valid. */
  lemma RemovalValid(recs: Store, kids: Kids, r': Store, kids': Kids, q: Entity, k: nat)
    requires ValidStore(recs, kids) && q in kids && k < |kids[q]| && RemovedFrom(recs, kids[q], r', q, k)
    requires kids' == kids[q := kids[q][..k] + kids[q][k + 1..]]
    ensures ValidStore(r', kids')
  {
    RemovalRings(recs, kids, r', q, k);
    assert NoDup(kids[q]);
    RemovalChildren(recs, kids, r', q, k);
    RemovalParents(recs, kids, r', q, k);
    forall p | p in r' ensures r'[p].firstChild == Head(kids'[p]) {
      if p != q { assert recs[p].firstChild == Head(kids[p]); }
    }
  }

  /** Unlinking keeps every link pointing at an existing record. */
  lemma UnlinkClosed(r: Store, sibs: Option<(Entity, Entity)>)
    requires Closed(r) && CanUnlink(r, sibs)
    requires sibs.Some? ==> sibs.value.0 in r && sibs.value.1 in r
    ensures Closed(Unlink(r, sibs))
  {
    var r' := Unlink(r, sibs);
    forall x | x in r' ensures RefersInto(r'[x], r') {
      assert RefersInto(r[x], r);
    }
  }

  lemma UnparentedIsUnlinked(recs: Store, e: Entity)
    requires e in recs && recs[e].parent.Some? && CanUnparent(recs, e)
    ensures CanUnlink(Detached(recs, e), recs[e].siblings)
    ensures Unparented(recs, e) == Unlink(Detached(recs, e), recs[e].siblings)
  {
  }

  /** Un-parenting the k-th child of `q` is a removal from q's sequence in the sense of RemovedFrom. */
  lemma UnlinkRemoval(recs: Store, s: seq<Entity>, q: Entity, k: nat)
    requires Closed(recs) && Ring(recs, s) && NoDup(s) && k < |s|
    requires recs[s[k]].parent == Some(q) && q != s[k] && q in recs && recs[q].firstChild == Head(s)
    ensures CanUnparent(recs, s[k])
    ensures RemovedFrom(recs, s, Unparented(recs, s[k]), q, k)
    ensures Unparented(recs, s[k])[s[k]] == recs[s[k]].(parent := None)
  {
    var e := s[k];
    var sibs := recs[e].siblings;
    var r2 := Detached(recs, e);
    RingFrame(recs, r2, s);
    RingRemove(r2, s, k);
    assert CanUnlink(recs, sibs);
    UnparentedIsUnlinked(recs, e);
    var r' := Unlink(r2, sibs);
    assert r2[e] == recs[e].(parent := None);
    var t := s[..k] + s[k + 1..];
    assert r'[q].firstChild == Head(t) by {
      if k == 0 && |s| >= 2 {
        RingLinks(recs, s, 0);
      }
    }
    DetachedClosed(recs, e);
    assert sibs.Some? ==> sibs.value.0 in r2 && sibs.value.1 in r2 by {
      assert RefersInto(recs[e], recs);
    }
    UnlinkClosed(r2, sibs);
    forall x | x in recs && x !in s ensures r'[x].siblings == recs[x].siblings {
      assert r'[x] == r2[x];
    }
  }

  lemma DetachedClosed(recs: Store, e: Entity)
    requires Closed(recs) && e in recs && recs[e].parent.Some? && recs[e].parent.value in recs
    requires recs[recs[e].parent.value].firstChild.Some?
    ensures Closed(Detached(recs, e))
  {
    var r2 := Detached(recs, e);
    forall x | x in r2 ensures RefersInto(r2[x], r2) {
      assert RefersInto(recs[x], recs);
      assert RefersInto(recs[e], recs);
    }
  }

  /** Un-parenting a child is a removal from its parent's sequence in the sense of RemovedFrom. */
  lemma UnparentShape(recs: Store, kids: Kids, e: Entity)
    requires ValidStore(recs, kids) && e in recs && recs[e].parent.Some?
    ensures CanUnparent(recs, e)
    ensures var q := recs[e].parent.value;
      && q in kids && e in kids[q]
      && RemovedFrom(recs, kids[q], Unparented(recs, e), q, IndexOf(kids[q], e))
    ensures Unparented(recs, e)[e] == recs[e].(parent := None)
  {
    var q := recs[e].parent.value;
    var s := kids[q];
    var k := IndexOf(s, e);
    assert recs[q].firstChild == Head(s);
    assert Ring(recs, s) && NoDup(s);
    assert recs[e].parent != Some(e);
    UnlinkRemoval(recs, s, q, k);
  }

  /** The un-parenting of an entity that has a parent. */
  lemma UnparentChild(recs: Store, kids: Kids, e: Entity)
    requires ValidStore(recs, kids) && e in recs && recs[e].parent.Some?
    ensures CanUnparent(recs, e)
    ensures ValidStore(Unparented(recs, e), KidsUnparented(recs, kids, e))
    ensures Unparented(recs, e)[e] == recs[e].(parent := None)
  {
    var q := recs[e].parent.value;
    UnparentShape(recs, kids, e);
    var k := IndexOf(kids[q], e);
    RemovalValid(recs, kids, Unparented(recs, e), KidsUnparented(recs, kids, e), q, k);
  }

  /** Un-parenting a child changes no siblings links outside its parent's sequence. */
  lemma UnparentRootsKept(recs: Store, kids: Kids, e: Entity)
    requires ValidStore(recs, kids) && e in recs && recs[e].parent.Some?
    ensures CanUnparent(recs, e)
    ensures forall x | x in recs && x != e && recs[x].parent.None? ::
      Unparented(recs, e)[x].siblings == recs[x].siblings
  {
    var q := recs[e].parent.value;
    UnparentShape(recs, kids, e);
    forall x | x in recs && x != e && recs[x].parent.None?
      ensures x !in kids[q]
    {
      forall i | 0 <= i < |kids[q]| ensures kids[q][i] != x {
        assert recs[kids[q][i]].parent == Some(q);
      }
    }
  }

  /**
   * un_parent_entity keeps the store valid: `e` leaves its parent's child sequence, the
   * others keep their order, `e`'s own first_child and siblings fields stay as they were,
   * and no root's links change.
   */
  lemma UnparentValid(recs: Store, kids: Kids, e: Entity)
    requires ValidStore(recs, kids)
    ensures CanUnparent(recs, e)
    ensures ValidStore(Unparented(recs, e), KidsUnparented(recs, kids, e))
    ensures e in recs ==> Unparented(recs, e)[e] == recs[e].(parent := None)
    ensures forall x | x in recs && x != e && recs[x].parent.None? ::
      Unparented(recs, e)[x].siblings == recs[x].siblings
  {
    if e in recs && recs[e].parent.Some? {
      UnparentChild(recs, kids, e);
      UnparentRootsKept(recs, kids, e);
    } else {
      assert Unparented(recs, e) == recs;
      assert KidsUnparented(recs, kids, e) == kids;
    }
  }

  /**
   * ensure_hierarchy_present keeps the store valid; a new record starts as a root with an
   * empty child sequence and nothing else changes.
   */
  lemma EnsureValid(recs: Store, kids: Kids, e: Entity)
    requires ValidStore(recs, kids)
    ensures ValidStore(WithHierarchy(recs, e), KidsWith(kids, e))
  {
    if e !in recs {
      var r := WithHierarchy(recs, e);
      var k := KidsWith(kids, e);
      forall x | x in r ensures RefersInto(r[x], r) {
        if x != e { assert RefersInto(recs[x], recs); }
      }
      forall p, i | p in k && 0 <= i < |k[p]| ensures k[p][i] in r && r[k[p][i]].parent == Some(p) {
        assert k[p][i] == kids[p][i];
      }
      forall c | c in r && r[c].parent.Some? ensures r[c].parent.value in k && c in k[r[c].parent.value] {
        assert c != e;
        assert c in kids[recs[c].parent.value];
      }
      forall c | c in r ensures r[c].parent != Some(c) {
        if c != e { assert recs[c].parent != Some(c); }
      }
      forall p | p in k ensures NoDup(k[p]) && Ring(r, k[p]) {
        if p != e {
          assert NoDup(kids[p]) && Ring(recs, kids[p]);
          RingFrame(recs, r, kids[p]);
        }
      }
      forall p | p in r ensures r[p].firstChild == Head(k[p]) {
        if p != e { assert recs[p].firstChild == Head(kids[p]); }
      }
    }
  }

  /** Un-parenting takes `e` out of every child sequence, and changes nothing else about them. */
  lemma KidsUnparentedAll(recs: Store, kids: Kids, e: Entity)
    requires ChildrenHaveParent(recs, kids)
    ensures forall q | q in kids :: KidsUnparented(recs, kids, e)[q] == Without(kids[q], e)
  {
    forall q | q in kids ensures KidsUnparented(recs, kids, e)[q] == Without(kids[q], e) {
      if !(e in recs && recs[e].parent == Some(q)) {
        forall i | 0 <= i < |kids[q]| ensures kids[q][i] != e {
          assert recs[kids[q][i]].parent == Some(q);
        }
      }
    }
  }
}
