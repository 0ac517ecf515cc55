/**
 * set_parent_entity (src/hierarchy.rs:21-68) keeps the store valid and appends the entity
 * to its new parent's child sequence, provided a root's stale siblings links cannot be
 * picked up by a parent that has no children.
 */
module SetParent {
  import opened Records
  import opened ChildLists
  import opened Operations
  import opened Preservation

  /**
   * `r'` differs from `r` only by the appending of the root `e` to p's child sequence `s`:
   * e's parent is p, p's first_child is the head of the longer sequence, the longer
   * sequence is a ring, and no other link changes.
   */
  ghost predicate AppendedTo(r: Store, s: seq<Entity>, r': Store, p: Entity, e: Entity)
  {
    && r'.Keys == r.Keys && p in r' && Closed(r')
    && (forall x {:trigger r'[x]} | x in r :: r'[x].parent == if x == e then Some(p) else r[x].parent)
    && (forall x {:trigger r'[x]} | x in r && x != p :: r'[x].firstChild == r[x].firstChild)
    && r'[p].firstChild == Head(s + [e])
    && (forall x {:trigger r'[x]} | x in r && x !in s && x != e :: r'[x].siblings == r[x].siblings)
    && Ring(r', s + [e])
  }

  /** The linking step keeps every link pointing at an existing record. */
  lemma LinkClosed(r: Store, e: Entity, p: Entity)
    requires Closed(r) && CanLink(r, e, p)
    ensures Closed(Link(r, e, p))
  {
    assert RefersInto(r[e], r);
    var r1 := r[e := r[e].(parent := Some(p))];
    UpdateClosed(r, e, r[e].(parent := Some(p)));
    if r1[p].firstChild.Some? {
      var f := r1[p].firstChild.value;
      assert RefersInto(r1[f], r1);
      if r1[f].siblings.Some? {
        var oldPrevious := r1[f].siblings.value.0;
        var r2 := r1[f := r1[f].(siblings := Some((e, r1[f].siblings.value.1)))];
        UpdateClosed(r1, f, r1[f].(siblings := Some((e, r1[f].siblings.value.1))));
        assert RefersInto(r2[oldPrevious], r2);
        var h3 := r2[oldPrevious].(siblings := Some((r2[oldPrevious].siblings.value.0, e)));
        UpdateClosed(r2, oldPrevious, h3);
        var r3 := r2[oldPrevious := h3];
        assert RefersInto(r3[e], r3);
        UpdateClosed(r3, e, r3[e].(siblings := Some((oldPrevious, f))));
      } else {
        var r2 := r1[f := r1[f].(siblings := Some((e, e)))];
        UpdateClosed(r1, f, r1[f].(siblings := Some((e, e))));
        assert RefersInto(r2[e], r2);
        UpdateClosed(r2, e, r2[e].(siblings := Some((f, f))));
      }
    } else {
      assert RefersInto(r1[p], r1);
      var r2 := r1[p := r1[p].(firstChild := Some(e))];
      UpdateClosed(r1, p, r1[p].(firstChild := Some(e)));
      assert RefersInto(r2[e], r2);
      UpdateClosed(r2, e, r2[e].(parent := Some(p)));
    }
  }

  /** The facts about the store before linking that each case of the linking step uses. */
  ghost predicate LinkReady(r: Store, s: seq<Entity>, e: Entity, p: Entity)
  {
    && Closed(r) && Ring(r, s) && NoDup(s)
    && e in r && p in r && e != p && e !in s
    && r[p].firstChild == Head(s)
  }

  /** A parent without children: e becomes its first child, and keeps its own links. */
  lemma LinkFirst(r: Store, s: seq<Entity>, e: Entity, p: Entity)
    requires LinkReady(r, s, e, p) && s == [] && r[e].siblings.None?
    ensures CanLink(r, e, p) && AppendedTo(r, s, Link(r, e, p), p, e)
  {
    LinkClosed(r, e, p);
    assert s + [e] == [e];
  }

  /** A parent with one child F: F and e become each other's previous and next. */
  lemma LinkSecond(r: Store, s: seq<Entity>, e: Entity, p: Entity)
    requires LinkReady(r, s, e, p) && |s| == 1
    ensures CanLink(r, e, p) && AppendedTo(r, s, Link(r, e, p), p, e)
  {
    LinkClosed(r, e, p);
    var r' := Link(r, e, p);
    var f := s[0];
    assert r'[f].siblings == Some((e, e)) && r'[e].siblings == Some((f, f));
    assert (s + [e])[0] == f && (s + [e])[1] == e;
    assert Adjacent(r', f, e) && Adjacent(r', e, f);
  }

  /** A parent with two or more children: e goes between the last child L and the first F. */
  lemma LinkLater(r: Store, s: seq<Entity>, e: Entity, p: Entity)
    requires LinkReady(r, s, e, p) && |s| >= 2
    ensures CanLink(r, e, p) && AppendedTo(r, s, Link(r, e, p), p, e)
  {
    var f, l := s[0], s[|s| - 1];
    RingLinks(r, s, 0);
    RingLinks(r, s, |s| - 1);
    assert f != l;
    assert CanLink(r, e, p);
    LinkClosed(r, e, p);
    var r' := Link(r, e, p);
    assert r'[f].siblings == Some((e, NextOf(r, f)));
    assert r'[l].siblings == Some((PrevOf(r, l), e));
    assert r'[e].siblings == Some((l, f));
    forall x | x in s && x != f && x != l ensures x in r' && r'[x].siblings == r[x].siblings {
    }
    RingInsert(r, r', s, e);
  }

  /** The linking step appends e to p's child sequence. */
  lemma LinkShape(r: Store, s: seq<Entity>, e: Entity, p: Entity)
    requires LinkReady(r, s, e, p) && (s == [] ==> r[e].siblings.None?)
    ensures CanLink(r, e, p) && AppendedTo(r, s, Link(r, e, p), p, e)
  {
    if s == [] {
      LinkFirst(r, s, e, p);
    } else if |s| == 1 {
      LinkSecond(r, s, e, p);
    } else {
      LinkLater(r, s, e, p);
    }
  }

  lemma NoDupAppend(s: seq<Entity>, e: Entity)
    requires NoDup(s) && e !in s
    ensures NoDup(s + [e])
  {
    forall i, j | 0 <= i < j < |s + [e]| ensures (s + [e])[i] != (s + [e])[j] {
      assert (s + [e])[i] == s[i];
    }
  }

  lemma AppendRings(r: Store, kids: Kids, r': Store, p: Entity, e: Entity)
    requires ValidStore(r, kids) && p in kids && e in r && r[e].parent.None?
    requires AppendedTo(r, kids[p], r', p, e)
    ensures Rings(r', kids[p := kids[p] + [e]])
  {
    var s := kids[p];
    var kids' := kids[p := s + [e]];
    forall i | 0 <= i < |s| ensures s[i] != e {
      assert r[s[i]].parent == Some(p);
    }
    assert NoDup(s);
    NoDupAppend(s, e);
    forall q | q in kids' && q != p ensures NoDup(kids'[q]) && Ring(r', kids'[q]) {
      OtherRingKept(r, kids, r', p, q);
    }
  }

  lemma AppendParents(r: Store, kids: Kids, r': Store, p: Entity, e: Entity)
    requires ValidStore(r, kids) && p in kids && e in r && e != p && r[e].parent.None?
    requires AppendedTo(r, kids[p], r', p, e)
    ensures ChildrenHaveParent(r', kids[p := kids[p] + [e]])
    ensures ParentsListChildren(r', kids[p := kids[p] + [e]])
    ensures NoSelfParent(r')
  {
    var s := kids[p];
    var kids' := kids[p := s + [e]];
    forall q, i | q in kids' && 0 <= i < |kids'[q]|
      ensures kids'[q][i] in r' && r'[kids'[q][i]].parent == Some(q)
    {
      if q == p {
        if i < |s| {
          assert kids'[q][i] == s[i];
          assert r[s[i]].parent == Some(p);
        }
      } else {
        assert kids'[q][i] == kids[q][i];
        assert r[kids[q][i]].parent == Some(q);
      }
    }
    forall c | c in r' && r'[c].parent.Some?
      ensures r'[c].parent.value in kids' && c in kids'[r'[c].parent.value]
    {
      if c == e {
        assert (s + [e])[|s|] == e;
      } else {
        assert r[c].parent.Some?;
        var q := r[c].parent.value;
        assert c in kids[q];
        if q == p {
          var i :| 0 <= i < |s| && s[i] == c;
          assert (s + [e])[i] == c;
        }
      }
    }
    forall c | c in r' ensures r'[c].parent != Some(c) {
      assert r[c].parent != Some(c);
    }
  }

  /** A store that differs from a valid one only by the appending of a root is valid. */
  lemma AppendValid(r: Store, kids: Kids, r': Store, p: Entity, e: Entity)
    requires ValidStore(r, kids) && p in kids && e in r && e != p && r[e].parent.None?
    requires AppendedTo(r, kids[p], r', p, e)
    ensures ValidStore(r', kids[p := kids[p] + [e]])
  {
    AppendRings(r, kids, r', p, e);
    AppendParents(r, kids, r', p, e);
    var kids' := kids[p := kids[p] + [e]];
    forall q | q in r' ensures r'[q].firstChild == Head(kids'[q]) {
      if q != p { assert r[q].firstChild == Head(kids[q]); }
    }
  }

  /**
   * The linking step of set_parent_entity (lines 29-67) on a valid store where `e` is a
   * root: `e` is appended to p's child sequence. A parent without children adopts e's own
   * siblings links as they are, so those must be empty then.
   */
  lemma LinkValid(r: Store, kids: Kids, e: Entity, p: Entity)
    requires ValidStore(r, kids) && e in r && p in r && e != p && r[e].parent.None?
    requires kids[p] == [] ==> r[e].siblings.None?
    ensures CanLink(r, e, p)
    ensures ValidStore(Link(r, e, p), kids[p := kids[p] + [e]])
    ensures forall x | x in r && x !in kids[p] && x != e :: Link(r, e, p)[x].siblings == r[x].siblings
  {
    var s := kids[p];
    forall i | 0 <= i < |s| ensures s[i] != e {
      assert r[s[i]].parent == Some(p);
    }
    assert Ring(r, s) && NoDup(s) && r[p].firstChild == Head(s);
    LinkShape(r, s, e, p);
    AppendValid(r, kids, Link(r, e, p), p, e);
  }

  /**
   * The linking step (lines 39-66) changes no record other than those of `e`, `p`, and p's
   * first and last children.
   */
  lemma LinkFrame(r: Store, kids: Kids, e: Entity, p: Entity)
    requires ValidStore(r, kids) && e in r && p in r && e != p && r[e].parent.None?
    requires kids[p] == [] ==> r[e].siblings.None?
    ensures CanLink(r, e, p)
    ensures forall x | x in r && x != e && x != p &&
      (kids[p] != [] ==> x != kids[p][0] && x != kids[p][|kids[p]| - 1]) :: Link(r, e, p)[x] == r[x]
  {
    var s := kids[p];
    forall i | 0 <= i < |s| ensures s[i] != e {
      assert r[s[i]].parent == Some(p);
    }
    assert Ring(r, s) && NoDup(s) && r[p].firstChild == Head(s);
    LinkShape(r, s, e, p);
    var r' := Link(r, e, p);
    forall x | x in r && x != e && x != p && (s != [] ==> x != s[0] && x != s[|s| - 1])
      ensures r'[x] == r[x]
    {
      if x in s {
        var i :| 0 <= i < |s| && s[i] == x;
        RingLinks(r, s, i);
        RingLinks(r', s + [e], i);
      }
    }
  }

  /** Both records are present after the first two steps of set_parent_entity. */
  lemma PreparedValid(recs: Store, kids: Kids, e: Entity, p: Entity)
    requires ValidStore(recs, kids)
    ensures ValidStore(Prepared(recs, e, p), KidsWith(KidsWith(kids, p), e))
    ensures var k0 := KidsWith(KidsWith(kids, p), e);
      k0.Keys == kids.Keys + {e, p} && forall q | q in k0 :: k0[q] == ChildrenIn(kids, q)
  {
    EnsureValid(recs, kids, p);
    EnsureValid(WithHierarchy(recs, p), KidsWith(kids, p), e);
  }

  /**
   * If e's siblings links, when present, meet a parent that has a child, then after
   * un-parenting e a parent without children meets no siblings links of e.
   */
  lemma StaleLinksAvoided(r: Store, kids: Kids, e: Entity, p: Entity)
    requires ValidStore(r, kids) && e in r && p in r
    requires r[e].HasSiblings() ==> r[p].HasChildren()
    ensures KidsUnparented(r, kids, e)[p] == [] ==> r[e].siblings.None?
  {
    KidsUnparentedAll(r, kids, e);
    if r[e].siblings.Some? {
      if r[e].parent == Some(p) {
        Accessors(r, kids, e);
        var i :| 0 <= i < |kids[p]| && kids[p][i] == e;
        NoDupRemove(kids[p], i);
        assert kids[p][if i == 0 then 1 else 0] in KidsUnparented(r, kids, e)[p];
      } else {
        forall i | 0 <= i < |kids[p]| ensures kids[p][i] != e {
          assert r[kids[p][i]].parent == Some(p);
        }
        assert kids[p] != [];
      }
    }
  }

  /**
   * set_parent_entity keeps the store valid and appends `e` to p's child sequence. The
   * entity must not be its own parent, and a stale siblings link must not meet a parent
   * without children: if e has siblings links, p must already have a child.
   */
  lemma ParentedValid(recs: Store, kids: Kids, e: Entity, p: Entity)
    requires ValidStore(recs, kids) && e != p
    requires e in recs && recs[e].HasSiblings() ==> p in recs && recs[p].HasChildren()
    ensures CanSetParent(recs, e, p)
    ensures ValidStore(Parented(recs, e, p), KidsParented(recs, kids, e, p))
  {
    var r0 := Prepared(recs, e, p);
    var k0 := KidsWith(KidsWith(kids, p), e);
    PreparedValid(recs, kids, e, p);
    UnparentValid(r0, k0, e);
    StaleLinksAvoided(r0, k0, e, p);
    LinkValid(Unparented(r0, e), KidsUnparented(r0, k0, e), e, p);
  }

  /**
   * The child sequences after set_parent_entity: `e` is last in p's sequence, and every
   * other sequence has lost `e` and is otherwise unchanged.
   */
  lemma ParentedKids(recs: Store, kids: Kids, e: Entity, p: Entity)
    requires ValidStore(recs, kids)
    ensures var k := KidsParented(recs, kids, e, p);
      && k.Keys == kids.Keys + {e, p}
      && k[p] == Without(ChildrenIn(kids, p), e) + [e]
      && forall q | q in k && q != p :: k[q] == Without(ChildrenIn(kids, q), e)
  {
    var r0 := Prepared(recs, e, p);
    var k0 := KidsWith(KidsWith(kids, p), e);
    PreparedValid(recs, kids, e, p);
    KidsUnparentedAll(r0, k0, e);
    var k1 := KidsUnparented(r0, k0, e);
    forall q | q in k1 ensures k1[q] == Without(ChildrenIn(kids, q), e) {
      assert k0[q] == ChildrenIn(kids, q);
    }
  }

  /**
   * set_parent_entity changes no root's siblings links other than e's own (roots of the
   * store once both records are present).
   */
  lemma ParentedFrame(recs: Store, kids: Kids, e: Entity, p: Entity)
    requires ValidStore(recs, kids) && e != p
    requires e in recs && recs[e].HasSiblings() ==> p in recs && recs[p].HasChildren()
    ensures CanSetParent(recs, e, p)
    ensures forall x | x in Prepared(recs, e, p) && x != e && Prepared(recs, e, p)[x].parent.None? ::
      Parented(recs, e, p)[x].siblings == Prepared(recs, e, p)[x].siblings
  {
    var r0 := Prepared(recs, e, p);
    var k0 := KidsWith(KidsWith(kids, p), e);
    PreparedValid(recs, kids, e, p);
    UnparentValid(r0, k0, e);
    StaleLinksAvoided(r0, k0, e, p);
    var r1 := Unparented(r0, e);
    var k1 := KidsUnparented(r0, k0, e);
    LinkValid(r1, k1, e, p);
    forall x | x in r0 && x != e && r0[x].parent.None? ensures x !in k1[p] {
      assert r1[x].parent.None?;
    }
  }

  /** Pure sequence reasoning behind RoundTripKids. */
  lemma KidsAgree(k0: Kids, kp: Kids, ka: Kids, kb: Kids, e: Entity, p: Entity)
    requires p in k0 && kp.Keys == k0.Keys && ka.Keys == k0.Keys && kb.Keys == k0.Keys
    requires forall q | q in k0 :: NoDup(k0[q])
    requires kp[p] == Without(k0[p], e) + [e]
    requires forall q | q in k0 && q != p :: kp[q] == Without(k0[q], e)
    requires forall q | q in kp :: ka[q] == Without(kp[q], e)
    requires forall q | q in k0 :: kb[q] == Without(k0[q], e)
    ensures ka == kb
  {
    forall q | q in ka ensures ka[q] == kb[q] {
      WithoutRemoves(k0[q], e);
      if q == p {
        WithoutAppend(Without(k0[q], e), e);
      }
    }
  }

  /** The child sequences after set_parent_entity and then un_parent_entity. */
  lemma RoundTripKids(recs: Store, kids: Kids, e: Entity, p: Entity)
    requires ValidStore(recs, kids) && e != p
    requires e in recs && recs[e].HasSiblings() ==> p in recs && recs[p].HasChildren()
    ensures CanSetParent(recs, e, p)
    ensures KidsUnparented(Parented(recs, e, p), KidsParented(recs, kids, e, p), e)
      == KidsUnparented(Prepared(recs, e, p), KidsWith(KidsWith(kids, p), e), e)
  {
    ParentedValid(recs, kids, e, p);
    var k0 := KidsWith(KidsWith(kids, p), e);
    var kp := KidsParented(recs, kids, e, p);
    PreparedKids(recs, kids, e, p);
    ParentedKidsUnparented(recs, kids, e, p);
    KidsAgree(k0, kp, KidsUnparented(Parented(recs, e, p), kp, e),
      KidsUnparented(Prepared(recs, e, p), k0, e), e, p);
  }

  /** The facts about the child sequences before and after set_parent_entity that KidsAgree uses. */
  lemma PreparedKids(recs: Store, kids: Kids, e: Entity, p: Entity)
    requires ValidStore(recs, kids)
    ensures var k0, kp := KidsWith(KidsWith(kids, p), e), KidsParented(recs, kids, e, p);
      && p in k0 && kp.Keys == k0.Keys
      && (forall q | q in k0 :: NoDup(k0[q]))
      && kp[p] == Without(k0[p], e) + [e]
      && (forall q | q in k0 && q != p :: kp[q] == Without(k0[q], e))
      && KidsUnparented(Prepared(recs, e, p), k0, e).Keys == k0.Keys
      && (forall q | q in k0 :: KidsUnparented(Prepared(recs, e, p), k0, e)[q] == Without(k0[q], e))
  {
    ParentedKids(recs, kids, e, p);
    PreparedValid(recs, kids, e, p);
    KidsUnparentedAll(Prepared(recs, e, p), KidsWith(KidsWith(kids, p), e), e);
  }

  /** Un-parenting after set_parent_entity takes `e` out of every child sequence. */
  lemma ParentedKidsUnparented(recs: Store, kids: Kids, e: Entity, p: Entity)
    requires ValidStore(recs, kids) && e != p
    requires e in recs && recs[e].HasSiblings() ==> p in recs && recs[p].HasChildren()
    ensures CanSetParent(recs, e, p)
    ensures var kp := KidsParented(recs, kids, e, p);
      var ka := KidsUnparented(Parented(recs, e, p), kp, e);
      ka.Keys == kp.Keys && forall q | q in kp :: ka[q] == Without(kp[q], e)
  {
    ParentedValid(recs, kids, e, p);
    KidsUnparentedAll(Parented(recs, e, p), KidsParented(recs, kids, e, p), e);
  }

  /** The store after set_parent_entity and un_parent_entity, and its roots' links. */
  lemma RoundTripStore(recs: Store, kids: Kids, e: Entity, p: Entity)
    requires ValidStore(recs, kids) && e != p
    requires e in recs && recs[e].HasSiblings() ==> p in recs && recs[p].HasChildren()
    ensures CanSetParent(recs, e, p) && CanUnparent(Parented(recs, e, p), e)
    ensures var a := Unparented(Parented(recs, e, p), e);
      && ValidStore(a, KidsUnparented(Prepared(recs, e, p), KidsWith(KidsWith(kids, p), e), e))
      && forall x | x in a && x != e && a[x].parent.None? :: a[x].siblings == Prepared(recs, e, p)[x].siblings
  {
    ParentedValid(recs, kids, e, p);
    ParentedFrame(recs, kids, e, p);
    UnparentValid(Parented(recs, e, p), KidsParented(recs, kids, e, p), e);
    RoundTripKids(recs, kids, e, p);
  }

  /** The store after un_parent_entity alone, and its roots' links. */
  lemma UnparentStore(recs: Store, kids: Kids, e: Entity, p: Entity)
    requires ValidStore(recs, kids)
    ensures CanUnparent(Prepared(recs, e, p), e)
    ensures var b := Unparented(Prepared(recs, e, p), e);
      && ValidStore(b, KidsUnparented(Prepared(recs, e, p), KidsWith(KidsWith(kids, p), e), e))
      && forall x | x in b && x != e && b[x].parent.None? :: b[x].siblings == Prepared(recs, e, p)[x].siblings
  {
    PreparedValid(recs, kids, e, p);
    UnparentValid(Prepared(recs, e, p), KidsWith(KidsWith(kids, p), e), e);
  }

  /**
   * set_parent_entity followed by un_parent_entity gives back, for every entity other than
   * `e`, the record that un-parenting alone gives (in the store where both records are
   * present), and the same child sequences; `e` itself gets back its parent and first_child
   * links and keeps the siblings links the linking step gave it.
   */
  lemma ParentThenUnparent(recs: Store, kids: Kids, e: Entity, p: Entity)
    requires ValidStore(recs, kids) && e != p
    requires e in recs && recs[e].HasSiblings() ==> p in recs && recs[p].HasChildren()
    ensures CanSetParent(recs, e, p) && CanUnparent(Parented(recs, e, p), e)
    ensures var a, b := Unparented(Parented(recs, e, p), e), Unparented(Prepared(recs, e, p), e);
      && a.Keys == b.Keys
      && (forall x | x in a && x != e :: a[x] == b[x])
      && a[e].parent == b[e].parent && a[e].firstChild == b[e].firstChild
  {
    RoundTripStore(recs, kids, e, p);
    UnparentStore(recs, kids, e, p);
    var a, b := Unparented(Parented(recs, e, p), e), Unparented(Prepared(recs, e, p), e);
    StoreDetermined(a, b, KidsUnparented(Prepared(recs, e, p), KidsWith(KidsWith(kids, p), e), e));
  }

  /** A child sequence of a valid store, or the empty one of a missing entity, is duplicate-free. */
  lemma ChildrenInNoDup(recs: Store, kids: Kids, q: Entity)
    requires ValidStore(recs, kids)
    ensures NoDup(ChildrenIn(kids, q))
  {
    if q in kids {
      assert NoDup(kids[q]);
    }
  }

  /** Parenting `e` to `p` a second time leaves the child sequences as the first call left them. */
  lemma ParentedKidsTwice(recs: Store, kids: Kids, e: Entity, p: Entity)
    requires ValidStore(recs, kids) && e != p
    requires e in recs && recs[e].HasSiblings() ==> p in recs && recs[p].HasChildren()
    ensures CanSetParent(recs, e, p)
    ensures var k1 := KidsParented(recs, kids, e, p);
      KidsParented(Parented(recs, e, p), k1, e, p) == k1
  {
    var k1 := KidsParented(recs, kids, e, p);
    ParentedValid(recs, kids, e, p);
    var k2 := KidsParented(Parented(recs, e, p), k1, e, p);
    ParentedKids(recs, kids, e, p);
    ParentedKids(Parented(recs, e, p), k1, e, p);
    forall q | q in k2 ensures k2[q] == k1[q] {
      ChildrenInNoDup(recs, kids, q);
      WithoutRemoves(ChildrenIn(kids, q), e);
      if q == p {
        WithoutAppend(Without(ChildrenIn(kids, p), e), e);
      }
    }
  }

  /**
   * set_parent_entity is idempotent: parenting `e` to `p` a second time is defined and
   * leaves the store exactly as the first call left it.
   */
  lemma SetParentTwice(recs: Store, kids: Kids, e: Entity, p: Entity)
    requires ValidStore(recs, kids) && e != p
    requires e in recs && recs[e].HasSiblings() ==> p in recs && recs[p].HasChildren()
    ensures CanSetParent(recs, e, p) && CanSetParent(Parented(recs, e, p), e, p)
    ensures Parented(Parented(recs, e, p), e, p) == Parented(recs, e, p)
  {
    ParentedValid(recs, kids, e, p);
    var r1, k1 := Parented(recs, e, p), KidsParented(recs, kids, e, p);
    ParentedKids(recs, kids, e, p);
    assert k1[p] != [];
    ParentedValid(r1, k1, e, p);
    ParentedFrame(r1, k1, e, p);
    ParentedKidsTwice(recs, kids, e, p);
    assert Prepared(r1, e, p) == r1;
    SameStore(r1, Parented(r1, e, p), k1);
  }
}
