# pi_slotmap_tree hierarchy engine in Dafny

This project models the hierarchy engine of `pi_slotmap_tree` (`src/lib.rs`). The engine
keeps parent, child and sibling relations between nodes. Nodes are named by opaque handles,
and one handle is the null handle. All state lives in three keyed record tables:

- `Up { parent, prev, next }`: where a node hangs and who its siblings are.
- `Down { head, tail, len, count }`: the summary of a node's child list, plus the number of
  nodes below it.
- `Layer { layer, root }`: the depth of a node in a rooted tree (null when unrooted), and the
  tree's root.

The model has three layers.

- **Imperative model.** `Engine.Tree` (`tree.dfy`) is a class with the three tables as
  `map` fields. Its methods follow the Rust code statement by statement:
  - `insert_child` with its two-ended slot search;
  - `insert_brother`;
  - `insert_node`, split into `Move` (same parent) and `Adopt` (new parent);
  - `insert_as_root`;
  - `insert_tree` and `remove_tree`;
  - `modify_count`;
  - `remove` and `remove_node`.

  The iterators `ChildrenIterator` and `RecursiveIterator` are classes in `Traversal`.
  `RecursiveIterator` keeps the source's 32-slot array.
- **Specification.** The methods for the source's operations (`InsertNode`, `Move`,
  `InsertAsRoot`, `InsertChild`, `InsertBrother`, `Remove`) are proved to leave exactly the
  tables that a function of `Semantics` computes from the old tables:
  - `Splice` (`Reposition` or `Attach`);
  - `MakeRoot` and `InsertAsRoot`;
  - `Remove`;
  - `InsertChild` and `InsertBrother`.

  Those functions are built from small pieces, and the internal steps are proved against
  the pieces directly:
  - `Link` and `Unlink` (sibling links): `LinkAround`, `CloseGap`, `FixVacated`;
  - `Grown` and `Shrunk` (the parent's summary): `Propagate`, `RemoveNode`;
  - `Bumped` (the count propagation): `ModifyCount`, `Propagate`, `RemoveNode`;
  - `Stamps` (the depth labels): `InsertTree`, `StampSubtree`.

  `Adopt` states its new tables as expressions in these pieces.
- **Properties.** The `Properties` module and the lemmas beside each piece state what the
  operations mean. A parent's list of children `cs` is described by `Links.ChildList`: the
  sibling links are symmetric, `head`, `tail` and `len` summarise `cs`, and every child
  names the parent. The properties proved over this description are:
  - a fresh node lands at position `min(order, len)`;
  - a brother insert lands next to the brother;
  - a detach removes exactly one node;
  - counts move by the node's count plus one along the ancestor path;
  - detach followed by re-attach restores the Up and Down tables;
  - roots and subtrees get the right depth labels;
  - the iterators yield the child list and the pre-order.

The loops of the source terminate only on well-formed storage: finite and acyclic parent and
sibling chains. This well-formedness is not a global invariant here. Each operation instead
takes ghost witnesses of the finite walks it performs:

- `path` is the sequence of ancestors that `modify_count` visits (`Ancestry.Climb`).
- `w` is the finite first-child/next-sibling walk that `insert_tree`, `remove_tree` and the
  recursive iterator perform (`Walks.Describes`, `Walks.DescribesStrip`).

The unchecked `unwrap`s of the source become preconditions (`SpliceReady`, `RemoveReady`,
...). The logged refusals and panics become outcomes:

- `Refused` is the logged return of `insert_as_root`.
- `Fatal(ParentMismatch)` is the panic of `insert_node`.
- `Fatal(InvalidBrother)` is the panic of `insert_brother`.

The model follows the code where the code has quirks. Each quirk is proved, not hidden:

- **Repositioning.** Moving a node within its own parent still adds one to the parent's
  `len`. It also keeps `head`/`tail` corrections that were computed on a discarded copy
  (`Semantics.Reposition`).
  - `Properties.ReappendLastChild`: re-appending the last child makes it its own neighbour
    and cuts it off the chain.
  - `Properties.MoveLastToFront`: moving the last child to the front leaves the recorded tail
    stale.
  - Because of this, "len equals the number of children" is stated only for fresh attaches
    and detaches.
- **Counts.** `Down.count` is meant to count strict descendants. What is proved is the
  local step: an attach adds, and a detach takes away, the node's own count plus one along
  the parent and every ancestor, which is exactly the number of nodes that join or leave
  the subtree when the node's own count is right (`Properties.FreshCountIsSubtreeSize`).
  That the counts stay right across every operation is not proved (see "Left out"). A
  missing parent record starts from count 0, and so do roots. The `default_children`
  summary (count 1) is read for its head, tail and length; its count is never read
  (`Semantics.ChildrenOf`).
- **`remove_tree`.** It stops a sibling walk at the first node without a Down record
  (`Walks.StripStopsAtBareNode`).
- **Removing a root.** The root's own Layer record survives
  (`Properties.RemoveRootKeepsOwnLayer`).

## Model

| member | source | states |
|---|---|---|
| Links.FreshCount | src/lib.rs:355-357 | the amount an attach or detach moves every ancestor's count by is at least one, and is the node's own count plus one when it has a Down record |
| Links.Link | src/lib.rs:360-370 | pointing the neighbours at a spliced node rewrites existing Up records only |
| Links.Unlink | src/lib.rs:511-518 | closing a gap rewrites existing Up records only |
| Links.RelinkKeepsParents | src/lib.rs:360-382 | rewriting sibling links never changes any node's parent |
| Links.LinkExtendsChain | src/lib.rs:360-370 | splicing a node into gap `k` of a well-linked child list yields the well-linked list with the node at position `k` |
| Links.LinkSparesOtherChain | src/lib.rs:360-370 | that splice leaves every other parent's child list well linked |
| Links.UnlinkShortensChain | src/lib.rs:511-518 | unlinking the child at position `k` and deleting its Up record yields the well-linked list without it |
| Links.UnlinkSparesOtherChain | src/lib.rs:511-518 | that unlink leaves every other parent's child list well linked |
| Links.GrownSummarises | src/lib.rs:399-408 | the parent's head/tail/len update after a fresh splice at gap `k` summarises the new list exactly, and its count grows by exactly the added amount |
| Links.ShrunkSummarises | src/lib.rs:521-529 | the parent's head/tail/len update after a detach at position `k` summarises the shorter list exactly, and its count drops by exactly the removed amount |
| Links.RelinkRestores | src/lib.rs:509-529 | detaching the node at position `k` and splicing it back into the same gap restores every Up record and the parent's Down record exactly |
| Ancestry.ClimbDistinct | src/lib.rs:496-507 | the upward walk of `modify_count` never visits a node twice |
| Ancestry.ClimbStep | src/lib.rs:502-505 | each node on the walk has the next node of the walk as its parent, and the last one has none |
| Ancestry.ClimbAvoidsStart | src/lib.rs:496-507 | the walk above a parent never comes back to that parent |
| Ancestry.ClimbAvoidsChild | src/lib.rs:496-507 | the walk above a parent contains neither the parent nor any child of it |
| Ancestry.ClimbInDown | src/lib.rs:497-501 | every node the walk visits is non-null and has a Down record (`down_mut` unwraps it) |
| Ancestry.ClimbFrame | src/lib.rs:496-507 | the walk depends only on the parent links and Down records of the nodes on it |
| Ancestry.BumpedFrame | src/lib.rs:496-507 | `modify_count` changes counts only: the same nodes keep their head, tail and len |
| Ancestry.BumpedCounts | src/lib.rs:496-507 | along a walk without repeats, the propagation is possible exactly when no count on the walk goes negative, and it adds `delta` to exactly the nodes on the walk |
| Ancestry.BumpUpwards | src/lib.rs:499-500 | a non-negative `delta` can always be propagated |
| Ancestry.BumpedOff | src/lib.rs:496-507 | propagating along a walk that avoids `p` commutes with overwriting `p`'s record |
| Ancestry.BumpedZero | src/lib.rs:410-412 | propagating zero (a moved node) changes nothing |
| Ancestry.BumpedRoundTrip | src/lib.rs:531-535 | subtracting a count along a walk and adding it back restores the Down table |
| Slots.ForwardAlongChain | src/lib.rs:247-254 | the forward search from `head` over a well-linked list moves `n` gaps to the right, stopping at the end |
| Slots.BackwardAlongChain | src/lib.rs:236-245 | the backward search from `tail` moves `n` gaps to the left, stopping at the front |
| Slots.SlotFindsOrdinal | src/lib.rs:232-256 | both branches of the slot search land on gap `min(order, len)`: `prev` is the child before it, or null at the front, and `next` is the child at it, or null at the end |
| Walks.PreOrderCoversNodes | src/lib.rs:647-668 | the pre-order sequence of a walk has one entry per visit and contains exactly the walk's nodes |
| Walks.DescribesUnique | src/lib.rs:454-468 | the first-child/next-sibling walk from a node is unique |
| Walks.OwnerNotBelow | src/lib.rs:454-468 | the walk below a node never reaches the node itself |
| Walks.StripOwnerNotBelow | src/lib.rs:470-483 | the walk of `remove_tree` below a node never reaches the node itself |
| Walks.DescribesFrame | src/lib.rs:454-468 | the walk depends only on the first-child and next-sibling links of the nodes it visits |
| Walks.StampsStep | src/lib.rs:456-466 | one loop iteration of `insert_tree` (write the node, recurse into its children one level deeper, move to the next sibling) matches the Layer records `Stamps` assigns |
| Walks.StampsCover | src/lib.rs:454-468 | `insert_tree` writes exactly the walk's nodes, all with the given root and depth at least the starting depth |
| Walks.TreeShapedSize | src/lib.rs:454-468 | a walk that visits no node twice visits as many nodes as it has steps |
| Walks.StampsAtStart | src/lib.rs:456-459 | on a proper tree, the starting node gets exactly the starting depth and root |
| Walks.StampsLocal | src/lib.rs:456-466 | on a proper tree, the children's walk is stamped one level deeper and the sibling walk at the same depth |
| Walks.StripAgreesWhereRecorded | src/lib.rs:470-483 | where every node has both records, the walk of `remove_tree` is the walk of `insert_tree` |
| Walks.StripStopsAtBareNode | src/lib.rs:479-481 | `remove_tree` started at a node without a Down record strips that node only, so its later siblings keep their Layer |
| Semantics.AttachKeepsClimb | src/lib.rs:344-370 | linking a node without a parent under `parent` leaves the ancestor walk above `parent` intact |
| Semantics.RepositionKeepsClimb | src/lib.rs:360-382 | moving a node within its parent leaves the ancestor walk above the parent intact |
| Semantics.SpliceKeepsWalk | src/lib.rs:415-419 | the splice and count update leave intact the walk that `insert_tree` then performs below the new node |
| Links.Grown | src/lib.rs:399-408 | the parent's summary after a splice between `prev` and `next`: head or tail replaced at an open end, `len` plus one, `count` plus the added amount (exactness: `Links.GrownSummarises`) |
| Links.Shrunk | src/lib.rs:521-529 | the parent's summary after a detach: head or tail moved past the node at an open end, `len` minus one, `count` minus the removed amount (exactness: `Links.ShrunkSummarises`) |
| Slots.Forward | src/lib.rs:247-254 | the forward search: up to `n` steps along `next` links, stopping at null (`Slots.ForwardAlongChain`) |
| Slots.Backward | src/lib.rs:236-245 | the backward search: up to `n` steps along `prev` links, stopping at null (`Slots.BackwardAlongChain`) |
| Slots.Slot | src/lib.rs:232-256 | the gap `insert_child` searches for: after the tail at or past the end, else backward from the tail for the back half and forward from the head for the front half (`Slots.SlotFindsOrdinal`) |
| Ancestry.Climb | src/lib.rs:496-507 | the finite walk of `modify_count`: each visited node has a Down record and is followed by its parent, ending at a node without one |
| Ancestry.Bumped | src/lib.rs:496-507 | the Down table after `modify_count`: `delta` added to the count of each node of the walk in turn (`Ancestry.BumpedCounts`, `Ancestry.BumpedFrame`) |
| Walks.Describes | src/lib.rs:454-468 | the finite first-child/next-sibling walk that `insert_tree` performs from a node |
| Walks.DescribesStrip | src/lib.rs:470-483 | the walk that `remove_tree` performs, which stops a sibling chain at a node without a Down record |
| Walks.Stamps | src/lib.rs:454-468 | the Layer records `insert_tree` writes: depth `d` on a node and its later siblings, `d + 1` below (`Walks.StampsCover`, `Walks.StampsLocal`) |
| Semantics.Reposition | src/lib.rs:328-412 | moving a node within its parent keeps every Up key, the node's parent and all Layer records, and gives the parent's summary one more `len` and the same count |
| Semantics.Attach | src/lib.rs:344-419 | attaching a node without a parent adds its Up record under `parent`, gives the parent a Down record with one more `len`, and under a depth writes the given layer on the node |
| Semantics.Splice | src/lib.rs:314-420 | either kind of splice leaves the node under `parent` and the parent's `len` one higher |
| Semantics.MakeRoot | src/lib.rs:423-450 | a new root keeps the Up table, gains a Down record if it had none, and has depth 1 with itself as root; exactly the nodes below it gain Layer records |
| Semantics.InsertAsRoot | src/lib.rs:423-450 | the call is refused, with nothing changed, exactly when the node has a parent |
| Semantics.Remove | src/lib.rs:289-311 | a node with a parent loses its Up and Layer records; a node without one leaves Up and Down alone; no Down record appears or goes, and an attached node's walk below loses its Layer records |
| Semantics.InsertChild | src/lib.rs:217-262 | fatal exactly on a parent mismatch, with nothing changed when not done; when done the node hangs under `parent`, or is an attached root for a null parent |
| Semantics.InsertBrother | src/lib.rs:264-286 | fatal with `InvalidBrother` exactly when the brother has no Up record, with nothing changed when not done; when done the node hangs under the brother's parent, or is an attached root when the brother has none |
| Traversal.Trail | src/lib.rs:582-592 | the handles the children iterator yields in `n` calls (`Traversal.TrailFollowsChain`) |
| Traversal.Run | src/lib.rs:647-668 | what `n` calls of the recursive iterator yield and the stack they leave (`Traversal.RunIsPreOrder`) |
| Engine.Tree.constructor | src/lib.rs:184-189 | the engine starts on the given tables |
| Engine.Tree.FindSlot | src/lib.rs:232-256 | the loops compute `Slot`, which on a well-linked list is gap `min(order, len)` |
| Engine.Tree.ModifyCount | src/lib.rs:496-507 | the loop adds `delta` to the count of each node of the ancestor walk and changes nothing else |
| Engine.Tree.InsertTree | src/lib.rs:454-468 | the layers become the old layers overwritten by `Stamps` of the walk; Up and Down are unchanged |
| Engine.Tree.RemoveTree | src/lib.rs:470-483 | the Layer records of exactly the nodes of the strip walk are deleted; Up and Down are unchanged |
| Engine.Tree.LinkAround | src/lib.rs:360-370 | the Up table becomes `Link` of the old one |
| Engine.Tree.CloseGap | src/lib.rs:511-518 | the Up table becomes `Unlink` of the old one |
| Engine.Tree.RemoveNode | src/lib.rs:509-542 | the tables become: gap closed and the node's Up record deleted; parent shrunk and the count subtracted along the ancestors; the node's Layer record deleted |
| Engine.Tree.FixVacated | src/lib.rs:371-397 | a moved node's old neighbours are pointed at each other; the head/tail corrections computed on a copy change nothing |
| Engine.Tree.Propagate | src/lib.rs:399-412 | the parent's summary grows by the new child and the count is added to the parent and all its ancestors |
| Engine.Tree.StampSubtree | src/lib.rs:415-419 | everything below a new node is stamped one level deeper, then the node itself gets its layer |
| Engine.Tree.Move | src/lib.rs:328-412 | the tables become `Reposition` of the old ones |
| Engine.Tree.Adopt | src/lib.rs:344-412 | the node gets its Up record and links, the parent's summary and the ancestor counts grow by the node's count plus one, and the node's layer is written |
| Engine.Tree.InsertNode | src/lib.rs:314-420 | a parent mismatch is fatal and changes nothing; otherwise the tables become `Splice` of the old ones |
| Engine.Tree.InsertAsRoot | src/lib.rs:423-450 | the outcome and tables are those of `Semantics.InsertAsRoot` |
| Engine.Tree.InsertChild | src/lib.rs:217-262 | the outcome and tables are those of `Semantics.InsertChild` |
| Engine.Tree.InsertBrother | src/lib.rs:264-286 | the outcome and tables are those of `Semantics.InsertBrother` |
| Engine.Tree.Remove | src/lib.rs:289-311 | the tables become `Semantics.Remove` of the old ones |
| Traversal.TrailFollowsChain | src/lib.rs:582-592 | following `next` links from position `i` of a well-linked list yields the list from `i` on, then stops at null |
| Traversal.ChildrenIterator.constructor | src/lib.rs:571-576 | the iterator starts at the given head with nothing yielded |
| Traversal.ChildrenIterator.Next | src/lib.rs:582-592 | at null it yields nothing; otherwise it yields the current node and moves to its next sibling (null without an Up record); the yielded sequence extends along `Trail` |
| Traversal.Step | src/lib.rs:647-668 | a call yields nothing exactly when the stack is empty, otherwise the top of the stack, and the stack grows by at most one |
| Traversal.RunSplit | src/lib.rs:647-668 | running `a + b` calls is running `a` calls and then `b` more |
| Traversal.RunIsPreOrder | src/lib.rs:647-668 | from a stack with a node on top, exactly as many calls as the walk has nodes yield the walk in pre-order and restore the stack below |
| Traversal.RecursiveIterator.constructor | src/lib.rs:203-210 | the stack holds the head, or nothing for the null handle |
| Traversal.RecursiveIterator.Next | src/lib.rs:647-668 | a call on the 32-slot array performs exactly one `Step` of the stack |
| Properties.AttachPlacesNode | src/lib.rs:344-412 | a fresh splice into gap `k` puts the node at position `k` with symmetric links and an exact summary; it adds the node's count plus one to the parent and every ancestor, and changes no other record |
| Properties.BumpAbove | src/lib.rs:399-412 | after the parent's record is replaced and `delta` is propagated above it, the parent keeps the new record, each ancestor's count moves by `delta`, and nothing else changes |
| Properties.AttachStamps | src/lib.rs:415-419 | under a depth, the new node gets the given layer and everything below it gets the same root one level deeper or more; no other Layer changes, and without a depth none does |
| Properties.InsertChildPlacesNode | src/lib.rs:217-262 | `insert_child` of a node without a parent succeeds and puts it at position `min(order, len)` with the parent's layer one level deeper |
| Properties.InsertBrotherPlacesNode | src/lib.rs:264-286 | `insert_brother` puts the node just before (`Front`) or just after (`Back`) the brother, under the brother's parent, with the brother's layer |
| Properties.RefusalsChangeNothing | src/lib.rs:328-335 | a parent mismatch and a brother without Up are fatal, and a root insert of a node with a parent is refused, all without changing any record |
| Properties.RootStamps | src/lib.rs:423-450 | a new root gets depth 1 and itself as root, and every node below gets depth at least 2 and the same root; its Down record is kept or created empty |
| Properties.RemoveDetachesNode | src/lib.rs:289-311 | `remove` of the child at position `k` leaves the well-linked list without it and takes its count plus one from the parent and every ancestor; it deletes its Up and Layer records and, when it is attached, the Layer records of the walk below it; it keeps its Down record and every Down record off the parent and the ancestors, every other Layer record, and every Up record outside the list, its children's included |
| Properties.RemoveKeepsOthers | src/lib.rs:470-542 | removing a node with a parent keeps every Down record off the parent and the ancestor path, and every Layer record except its own and those of the walk below it |
| Properties.FreshCountIsSubtreeSize | src/lib.rs:355-357 | when a node's own count equals the number of nodes below it, the amount an attach adds to (or a detach takes from) each ancestor is the number of nodes in its subtree, itself included |
| Properties.SelfAncestryNotReady | src/lib.rs:344-412 | for a node `a` without a parent whose child `b` still names it as parent, `insert_child(a, b, 0)` is outside what the model describes: the slot is `(null, null)` and no ancestor walk makes the call ready, because `modify_count` would climb from `a` back to `a` |
| Properties.RemoveRootKeepsOwnLayer | src/lib.rs:295-303 | removing a root strips the Layer records below it but keeps its own Layer record and all Up and Down records |
| Properties.RemoveThenReattach | src/lib.rs:509-542 | detaching a child and attaching it again into the gap it left restores the Up and Down tables exactly |
| Properties.ReappendLastChild | src/lib.rs:360-408 | re-appending the last child makes it its own prev and next, cuts it off the chain that starts at the head, and still adds one to `len` |
| Properties.MoveLastToFront | src/lib.rs:384-408 | moving the last child to the front gives the right chain, but the tail stays the moved node and `len` grows by one, so the summary no longer describes the list |
| Properties.ChildrenInOrder | src/lib.rs:582-592 | the children iterator started at a parent's head yields exactly its children in order and then stops |
| Properties.RecursiveInPreOrder | src/lib.rs:647-668 | the recursive iterator started at `head` yields the whole walk from `head` in pre-order: `head`, everything below it, then its later siblings and everything below them (each node before its first child, all its descendants before its next sibling), and then has an empty stack; started at a parent's first child this is every strict descendant of the parent |

## Left out

- `Down.count` is an unbounded `nat`. Its wrap-around as `usize`, and the `isize` cast of
  `modify_count`, are not modelled. `Ancestry.CanBump` requires that no count goes negative
  instead.
- Engine.Tree.InsertNode: the source runs one body with a shared tail for both kinds of
  splice. The model splits it into `Move` and `Adopt`, with the same writes in the same order
  within each kind.
- Engine.Tree.InsertChild: the debug-build check that `id != parent` is a plain precondition.
- Engine.Tree.InsertBrother: the debug-build check that `id` is not the brother's parent is a
  plain precondition.
- Traversal.RecursiveIterator.Next: the source would panic on a push past the 32 slots. The
  model requires room for the pushes instead (`Fits`).
- The acyclicity of the storage is not a global invariant. Each operation takes ghost
  witnesses (`path`, `w`) of the finite walks it performs.
- Semantics.SpliceReady: its conjuncts `id !in path`, `prev !in Nodes(w)` and
  `prev == Null ==> parent !in Nodes(w)` leave out calls that would make a node its own
  ancestor, or splice it in after a node below it; on those the source never returns. Example
  (`Properties.SelfAncestryNotReady`): `a` has no parent but its Down record heads `b`, and
  `b` hangs under `a` (as `remove(a)` leaves them); `insert_child(a, b, 0)` makes `b` the
  parent of `a` (src/lib.rs:350), and `modify_count` (src/lib.rs:410-412, 497-506) then
  climbs `a`, `b`, `a`, ... forever. Likewise a `prev` below the new node sends
  `insert_tree` (src/lib.rs:415-419, 454-468) around the new sibling link forever. The
  model does not describe these non-terminating calls.
- `Down.count` as the number of strict descendants is not proved as an invariant of the
  whole store; only the local step (`Properties.FreshCountIsSubtreeSize`) is.
- Logging and diagnostic formatting are not modelled (`pi_print_any::out_any!`, `log`).
- The `serde` derives, `Deref` and `get_storage` are plumbing without behaviour.
- `src/slot_map_tree.rs` is not part of this model. It adapts the external `SecondaryMap`
  storage, which the three Dafny maps replace. Its `set_root` and `remove_root` hooks are
  no-ops there, so the model leaves them out.
- The iterators borrow the storage immutably. The model captures this with a `const` store.
