# Scene-graph hierarchy of legion_transform, in Dafny

This project models the parent/child hierarchy of `src/hierarchy.rs`. Every entity that takes
part carries a `Hierarchy` record. The record holds an optional parent, an optional first
child, and an optional `(previous, next)` pair of sibling links. The sibling links of a
parent's children form one circular doubly-linked list, and the list is entered at the
parent's `first_child`.

The model covers:

- `set_parent_entity`, `un_parent_entity` and `ensure_hierarchy_present`, which rewrite these
  records in place;
- the accessors;
- `children`;
- the `SiblingIterator`;
- the three tests of the file.

The project has these modules:

- `Records` holds the record and the store. The store is a map from entity to record.
- `ChildLists` holds the structural invariant `ValidStore`. It ties the store to an abstract
  child sequence per entity, `kids`, in the order the iterator yields them. It also holds
  what the accessors mean under that invariant.
- `Operations` gives each mutating operation as a function of the store before the call. Each
  function follows the source's writes in their order. Every `unwrap()` becomes a
  precondition (`CanUnparent`, `CanLink`, `CanSetParent`).
- `Preservation` and `SetParent` prove that the operations keep `ValidStore`. They also prove
  what the operations do to the child sequences:
  - un-parenting removes the entity and keeps the order of the rest;
  - parenting appends the entity last;
  - parenting and then un-parenting gives back the store of un-parenting alone, for every
    entity but e. This holds under the two requirements of set_parent_entity listed under
    "## Left out".
- `SiblingIteration` defines the walk of the iterator. It has the `SiblingIterator` class,
  whose `Next` method is proved against that walk.
- `Worlds` has the `World` class. Its methods update the records one field at a time, as the
  source does. Each method is proved to produce the operation's function of the old store.
  The three public operations (`EnsureHierarchyPresent`, `UnparentEntity`,
  `SetParentEntity`) are also proved to keep the invariant. The write steps inside them
  (`ClearParent`, `UnlinkSiblings`, `LinkEntity`) pass through stores where it does not hold.
- `Scenarios` replays the three tests on a `World`, with the same calls in the same order.
  Each value a test asserts on is returned as an out-parameter: an accessor's result or a
  collected `children` list. Each assertion becomes a postcondition on that value.
- `StaleSiblings` works through, on a concrete store, what happens when a stale siblings
  link reaches a parent with no children. It also proves the corrected behaviour: in it,
  un_parent_entity clears the siblings links (see "## Findings").

## Model

| member | source | states |
|---|---|---|
| Records.Hierarchy.HasParent | src/hierarchy.rs:147-149 | `has_parent`: the parent field is set |
| Records.Hierarchy.HasSiblings | src/hierarchy.rs:151-153 | `has_siblings`: the siblings field is set |
| Records.Hierarchy.HasChildren | src/hierarchy.rs:155-157 | `has_children`: the first_child field is set |
| Records.Hierarchy.Parent | src/hierarchy.rs:159-161 | `parent()`: the parent field |
| Records.UpdateClosed | src/hierarchy.rs:14 | writing a record whose links all point at existing records leaves no dangling link in the store |
| ChildLists.Accessors | src/hierarchy.rs:147-161 | in a valid store, `has_children` holds iff the child sequence is non-empty, and `parent()` is `q` iff q's sequence lists the entity. A child has siblings links iff its parent has two or more children |
| ChildLists.StoreDetermined | src/hierarchy.rs:8-17 | two valid stores over the same child sequences agree on every parent and first_child link, and on the siblings links of every entity that has a parent |
| ChildLists.RingLinks | src/hierarchy.rs:8-9 | in a ring of two or more, each member's (previous, next) pair is its two neighbours in the child sequence, wrapping round at both ends |
| ChildLists.RingFrame | src/hierarchy.rs:8-9 | a ring depends only on its own members' siblings links |
| ChildLists.WithoutAppend | src/hierarchy.rs:71-145 | removing an entity that was just appended gives back the sequence |
| ChildLists.WithoutRemoves | src/hierarchy.rs:71-145 | removing an entity from a duplicate-free sequence leaves no copy of it, and keeps the sequence duplicate-free |
| Operations.WithHierarchy | src/hierarchy.rs:167-178 | inserts an empty record exactly when the entity has none. Every existing record stays as it was |
| Operations.Unlink | src/hierarchy.rs:121-144 | the unlinking step changes only siblings links. The key set, parents and first children stay as they were |
| Operations.Detached | src/hierarchy.rs:92-119 | clears e's parent. Only the old parent's first_child can change, and no siblings link changes |
| Operations.Unparented | src/hierarchy.rs:71-145 | a no-op without a record or without a parent. Otherwise e's parent becomes None and no other entity's parent changes |
| Operations.UnparentIdempotent | src/hierarchy.rs:71-90 | un-parenting twice gives the same store as un-parenting once |
| Operations.Link | src/hierarchy.rs:29-67 | the linking step sets e's parent to p and changes no other parent |
| Operations.Prepared | src/hierarchy.rs:22-24 | after the two ensure calls, both records exist, the old records are unchanged, and the new ones are empty |
| Operations.Parented | src/hierarchy.rs:21-68 | the key set gains e and p, e's parent is p, and every other parent stays as it was (None for a new record) |
| Preservation.NoDupRemove | src/hierarchy.rs:121-144 | taking the k-th member out of a duplicate-free sequence leaves the other members, without duplicates |
| Preservation.RingSplice | src/hierarchy.rs:133-143 | joining the neighbours of a member of a ring of three or more leaves a ring of the others, in their order |
| Preservation.RingRemove | src/hierarchy.rs:121-144 | the three cases of the unlinking step leave a ring of the other members, in order, and touch no record outside the ring except e's. The cases are: no siblings, one sibling (`previous == next`), and two or more |
| Preservation.RingRemovePair | src/hierarchy.rs:126-132 | with one other sibling, that sibling is left as a sole child with no links |
| Preservation.RingRemoveSplice | src/hierarchy.rs:133-143 | with two or more other siblings, previous.next becomes next and next.previous becomes previous |
| Preservation.RingInsert | src/hierarchy.rs:39-53 | wiring e in between the last member and the first member gives the ring of the sequence extended by e |
| Preservation.RemovalValid | src/hierarchy.rs:92-144 | a store that differs from a valid one only by the removal of one child from one sequence is valid for the shortened sequence |
| Preservation.UnlinkRemoval | src/hierarchy.rs:92-144 | on a ring, the writes of un_parent_entity are exactly such a removal of the k-th child. The first_child moves on to the next sibling when e was the first |
| Preservation.UnparentShape | src/hierarchy.rs:71-145 | un-parenting a child of a valid store is the removal of e from its parent's sequence |
| Preservation.UnparentValid | src/hierarchy.rs:71-145 | un_parent_entity never fails on a valid store and keeps it valid. e leaves its parent's sequence, e keeps its other fields, and no other root's siblings links change |
| Preservation.UnparentRootsKept | src/hierarchy.rs:121-144 | un-parenting a child changes no siblings links of any other root |
| Preservation.EnsureValid | src/hierarchy.rs:167-178 | ensure_hierarchy_present keeps the store valid. A new record starts as a root with an empty child sequence |
| Preservation.KidsUnparentedAll | src/hierarchy.rs:71-145 | after un-parenting, every child sequence is the old one without e |
| SetParent.LinkClosed | src/hierarchy.rs:29-67 | the linking step leaves no dangling link |
| SetParent.LinkFirst | src/hierarchy.rs:62-66 | for a parent without children, e becomes the first child with its own links unchanged, and the sequence is [e] |
| SetParent.LinkSecond | src/hierarchy.rs:54-60 | for a parent with one child F, F and e point at each other both ways, and the sequence is [F, e] |
| SetParent.LinkLater | src/hierarchy.rs:39-53 | for a parent with two or more children, e goes between the last child and the first, and so goes last in the sequence |
| SetParent.LinkShape | src/hierarchy.rs:29-67 | in all three cases the linking step appends e to p's sequence and leaves every other link alone |
| SetParent.LinkFrame | src/hierarchy.rs:39-66 | on a valid store with e as a root, the linking step changes no record other than those of e, p, and p's first and last children |
| SetParent.AppendValid | src/hierarchy.rs:29-67 | a store that differs from a valid one only by the appending of a root to one sequence is valid |
| SetParent.LinkValid | src/hierarchy.rs:29-67 | on a valid store with e as a root, the linking step never fails and keeps the store valid, with e appended to p's sequence. This needs e to have no siblings links when p has no children |
| SetParent.PreparedValid | src/hierarchy.rs:21-24 | the two ensure calls keep the store valid, and p and e each have a sequence |
| SetParent.StaleLinksAvoided | src/hierarchy.rs:26-27 | if e's siblings links only ever meet a parent that has a child, then after un-parenting a childless p meets no siblings links of e |
| SetParent.ParentedValid | src/hierarchy.rs:21-68 | set_parent_entity never fails on a valid store with e not p, as long as a stale siblings link on e does not meet a childless p. It keeps the store valid |
| SetParent.ParentedKids | src/hierarchy.rs:21-68 | after set_parent_entity, e is last in p's sequence. Every other sequence has lost e and is otherwise unchanged |
| SetParent.ParentedFrame | src/hierarchy.rs:21-68 | set_parent_entity changes no root's siblings links except e's own |
| SetParent.RoundTripKids | src/hierarchy.rs:21-145 | when e is not p and any siblings links e carries meet a parent that already has a child, set_parent_entity then un_parent_entity gives the same child sequences as un_parent_entity alone |
| SetParent.RoundTripStore | src/hierarchy.rs:21-145 | when e is not p and any siblings links e carries meet a parent that already has a child, the store after the round trip is valid for those sequences, and its roots keep their links |
| SetParent.UnparentStore | src/hierarchy.rs:71-145 | the store after un-parenting alone is valid for the same sequences, and its roots keep their links |
| SetParent.SetParentTwice | src/hierarchy.rs:21-68 | when e is not p and any siblings links e carries meet a parent that already has a child, set_parent_entity is idempotent: calling it a second time with the same entity and parent is defined and leaves the store exactly as the first call left it |
| SetParent.ParentedKidsTwice | src/hierarchy.rs:21-68 | under the same two requirements, a second set_parent_entity with the same entity and parent leaves every child sequence as the first call left it |
| ChildLists.SameStore | src/hierarchy.rs:8-17 | two valid stores over the same child sequences, whose roots carry the same siblings links, are equal |
| SetParent.ParentThenUnparent | src/hierarchy.rs:21-145 | when e is not p and any siblings links e carries meet a parent that already has a child, after the round trip, every entity other than e has the record that un-parenting alone gives it, and the keys are the same. e gets back its parent and first_child links |
| SiblingIteration.Advance | src/hierarchy.rs:207-221 | the cursor moves to the next sibling unless that is the first entity or the record has no sibling links, in which case it becomes empty |
| SiblingIteration.CursorAfter | src/hierarchy.rs:200-224 | after any number of calls a non-empty cursor names an existing record |
| SiblingIteration.Walk | src/hierarchy.rs:200-224 | k calls of next yield at most k entities |
| SiblingIteration.WalkStops | src/hierarchy.rs:203-204 | once the cursor is empty, further calls yield nothing |
| SiblingIteration.EmptyWalk | src/hierarchy.rs:163-165 | an iterator with no first entity yields nothing |
| SiblingIteration.RingWalk | src/hierarchy.rs:200-224 | walking a ring from its first member yields the members in order, each once. The cursor is empty exactly from the |s|-th call on |
| SiblingIteration.ChildrenWalk | src/hierarchy.rs:163-165 | in a valid store, the walk from a parent's first_child yields exactly its child sequence and then stops |
| SiblingIteration.SiblingIterator.constructor | src/hierarchy.rs:188-194 | the cursor starts at the first entity |
| SiblingIteration.SiblingIterator.Next | src/hierarchy.rs:200-224 | yields the old cursor, or nothing when there is no first entity, and moves the cursor. All that has been yielded so far is the walk for that number of calls |
| Worlds.World.EnsureHierarchyPresent | src/hierarchy.rs:167-178 | the store becomes WithHierarchy of the old store, and the invariant is kept |
| Worlds.World.UnparentEntity | src/hierarchy.rs:71-145 | the store becomes Unparented of the old store, and the invariant is kept. e's record only loses its parent, and each sequence loses e |
| Worlds.World.ClearParent | src/hierarchy.rs:92-119 | the first writes of un_parent_entity give Detached of the old store |
| Worlds.World.UnlinkSiblings | src/hierarchy.rs:121-144 | the unlinking writes give Unlink of the old store |
| Worlds.World.SetParentEntity | src/hierarchy.rs:21-68 | the store becomes Parented of the old store, and the invariant is kept. e is last in p's sequence, and every other sequence is the old one without e |
| Worlds.World.LinkEntity | src/hierarchy.rs:29-67 | the linking writes give Link of the old store |
| Worlds.World.Children | src/hierarchy.rs:163-165 | a fresh iterator over the store, starting at the record's first_child |
| Scenarios.ChildrenOf | src/hierarchy.rs:248 | collecting children yields exactly the entity's child sequence |
| Scenarios.Adopt | src/hierarchy.rs:242 | parenting an entity without a record appends it to p's sequence, gives it an empty one of its own, and makes p its parent. p may lack a record too, as in the tests: its sequence then starts empty and it gets no parent. No other parent changes |
| Scenarios.Release | src/hierarchy.rs:316-322 | un-parenting a child of q removes it from q's sequence only, clears its parent, and changes no other parent |
| Scenarios.ParentOne | src/hierarchy.rs:233-256 | after e2 is parented to e1, `has_parent` is false for e1, `has_children` is true, and its children are [e2]. For e2, `has_parent` is true, `has_children` is false, `parent()` is e1, and its children are [] |
| Scenarios.ParentMany | src/hierarchy.rs:259-286 | after e2, e3 and e4 are parented to e1, `has_parent` is false for e1 and `has_children` is true. Its children come in the order they were parented: [e2, e3, e4] |
| Scenarios.TwoChildren | src/hierarchy.rs:273-274 | after two set_parent_entity calls, the parent lists the two entities in order |
| Scenarios.ThreeChildren | src/hierarchy.rs:303-305 | after three set_parent_entity calls, the parent lists the three entities in order |
| Scenarios.RemoveInTurn | src/hierarchy.rs:316-346 | un-parenting e1, then e3, then e2 leaves [e2, e3], then [e2], then [], and none of them has a parent |
| Scenarios.RemoveLastTwo | src/hierarchy.rs:326-346 | un-parenting e3, then e2 leaves [e2], then [], and none of e1, e2 and e3 has a parent |
| Scenarios.RemoveManyChildren | src/hierarchy.rs:289-357 | the children after each step are as the test asserts. At the end, e1 has no children and collects to [], and `has_parent` is false for e1, e2 and e3 |
| StaleSiblings.FirstCall | src/hierarchy.rs:62-66 | set_parent_entity(3, 2) on an empty store gives S1 |
| StaleSiblings.SecondCall | src/hierarchy.rs:54-60 | set_parent_entity(4, 2) next gives S2, where 3 and 4 point at each other |
| StaleSiblings.SecondCallValid | src/hierarchy.rs:8-17 | S2 is valid, with 2's children being [3, 4] |
| StaleSiblings.ThirdCallUnparents | src/hierarchy.rs:92-144 | un-parenting 3 in S2 leaves 3's siblings links pointing at 4 |
| StaleSiblings.ThirdCallLinks | src/hierarchy.rs:62-66 | linking 3 to the childless 1 keeps those stale links |
| StaleSiblings.ThirdCallWalks | src/hierarchy.rs:200-224 | in S3, children of 1 yields [3, 4], and children of 2 yields [4] |
| StaleSiblings.StaleSiblingsCounterexample | src/hierarchy.rs:62-66 | from a valid store that the source itself builds, set_parent_entity(3, 1) makes 1's children [3, 4] while 4's parent is still 2 |
| StaleSiblings.UnparentedCleared | src/hierarchy.rs:12-13 | the corrected un_parent_entity: e ends with no parent and no siblings links, and the key set is unchanged |
| StaleSiblings.ParentedCleared | src/hierarchy.rs:21-68 | set_parent_entity built on the corrected un_parent_entity: the key set gains e and p, and e's parent is p |
| StaleSiblings.ClearRootValid | src/hierarchy.rs:12-13 | clearing the siblings links of an entity without a parent keeps a store valid |
| StaleSiblings.UnparentedClearedValid | src/hierarchy.rs:71-145 | the corrected un_parent_entity never fails on a valid store and keeps it valid for the same sequences as un_parent_entity. Only e's record differs from un_parent_entity's result |
| StaleSiblings.ParentedClearedValid | src/hierarchy.rs:21-68 | with the corrected un_parent_entity, set_parent_entity never fails on a valid store and keeps it valid, with e appended to p's sequence, for every e other than p. The stale-links requirement is not needed |
| StaleSiblings.ThirdCallClearedStore | src/hierarchy.rs:62-66 | on the counterexample's store, the corrected set_parent_entity(3, 1) leaves 3 as 1's sole child with no links, and 2's record as it was after un-parenting |
| StaleSiblings.ThirdCallCleared | src/hierarchy.rs:200-224 | on that store, the corrected call makes the children of 1 just [3] |
| StaleSiblings.RepeatUnparents | src/hierarchy.rs:92-144 | inside a repeated set_parent_entity(3, 1) on S3, un-parenting 3 moves 1's first_child on to 4 |
| StaleSiblings.RepeatLinks | src/hierarchy.rs:54-60 | the second-child branch then links 3 after 4, leaving 4 as 1's first child |
| StaleSiblings.RepeatNotIdempotent | src/hierarchy.rs:21-68 | without the stale-links requirement set_parent_entity is not idempotent: repeating set_parent_entity(3, 1) on S3 changes 1's first_child from 3 to 4 |
| StaleSiblings.RepeatWalk | src/hierarchy.rs:200-224 | in the store after the round trip, the walk from 4 yields just [4] |
| StaleSiblings.RoundTripBroken | src/hierarchy.rs:71-145 | without the stale-links requirement the round trip goes wrong. After set_parent_entity(3, 1) then un_parent_entity(3), 1's first_child is 4, so children of 1 yields [4] (StaleSiblings.RepeatWalk). Un-parenting 3 alone leaves 1 with no first_child |

## Left out

- The `println!` calls of `un_parent_entity` (lines 72, 80, 87, 100, 110-114 and 127-130) are output only. They are not modelled.
- `src/local_to_world_system.rs`, `src/transform.rs`, `src/lib.rs` and `src/components/mod.rs` are not part of this model. They compute transforms, which is floating-point work over the same world.
- Legion's `World`, `Universe` and component storage are not modelled. The store is a map from entity to its Hierarchy component. An entity is a `nat`, and only equality of entities is used.
- Lookups that cannot fail: every `unwrap()` of the source that would panic becomes a precondition (`CanUnparent`, `CanLink`, `CanSetParent`). These preconditions are proved to hold on every valid store. For set_parent_entity they are proved under the two requirements below.
- Worlds.World.SetParentEntity: requires `entity != parent_entity`. The source accepts that call and would make an entity its own child.
- Worlds.World.SetParentEntity: also requires that the parent already has a child whenever `entity` carries siblings links. un_parent_entity leaves those links stale, and the "first child" branch (lines 62-66) keeps them. StaleSiblings.StaleSiblingsCounterexample shows, on a concrete store, that without this requirement the parent's child walk runs into the old parent's children.
- SetParent.ParentedValid: has the same two requirements as Worlds.World.SetParentEntity, for the same reasons.
- SetParent.SetParentTwice: has the same two requirements as SetParent.ParentedValid. Without them the source is not idempotent (StaleSiblings.RepeatNotIdempotent).
- SetParent.ParentedKidsTwice: has the same two requirements as SetParent.ParentedValid, for the same reason as SetParent.SetParentTwice.
- SetParent.RoundTripKids: has the same two requirements as SetParent.ParentedValid. Without them the source's round trip is wrong (StaleSiblings.RoundTripBroken).
- SetParent.RoundTripStore: has the same two requirements as SetParent.ParentedValid. Without them the source's round trip is wrong (StaleSiblings.RoundTripBroken).
- SetParent.ParentThenUnparent: has the same two requirements as SetParent.ParentedValid. Without them the source's round trip is wrong (StaleSiblings.RoundTripBroken).
- Cycles longer than one entity (a parent set below its own descendant) are not excluded. The source does not check for them, and they do not affect the sibling lists that the invariant constrains.
- The comment at lines 12-13 says that an entity with no parent has no siblings. The code never clears `siblings` when it un-parents (see "## Findings"). The model follows the code, so `ValidStore` leaves a root's `siblings` field unconstrained, and SetParent.ParentThenUnparent compares e's parent and first_child but not its siblings.
- Dropping the iterator, and any use of it after the world changes, falls under Rust's borrow rules. These are not modelled. `SiblingIterator` holds the store it was created over as a constant.

## Findings

| source | as written | input that shows it | evidently intended | confidence | as-written member | corrected member |
|---|---|---|---|---|---|---|
| src/hierarchy.rs:92-144 with 62-66 | un_parent_entity never clears the entity's `siblings` field. The first-child branch of set_parent_entity (lines 62-66) keeps that field as it is. | set_parent_entity(3, 2), then (4, 2), then (3, 1), with 1 having no record: the children of 1 are [3, 4], while 4's parent is still 2. Repeating (3, 1) then moves 1's first_child to 4, so the call is not idempotent (StaleSiblings.RepeatNotIdempotent). Un-parenting 3 after (3, 1) leaves children of 1 as [4] instead of [] (StaleSiblings.RoundTripBroken) | an entity without a parent has no siblings (lines 12-13). un_parent_entity then clears them, and set_parent_entity keeps the lists valid for every entity other than its parent. The correction also clears the links of an entity that has no parent, where the source returns early (lines 86-89). So on a root with stale links it is not a no-op | high (not executed) | StaleSiblings.StaleSiblingsCounterexample | StaleSiblings.ParentedClearedValid |

The `World` class follows the code as written. Its `SetParentEntity` therefore keeps the
stale-links requirement, and so does `SetParent.ParentedValid`. That requirement is exactly
what the corrected un_parent_entity makes unnecessary.
