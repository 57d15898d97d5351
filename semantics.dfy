/** The effect of each engine operation on the three record tables, as functions of the
    tables before the call. The engine's methods are proved to produce exactly these
    tables; the lemmas about them live in `Properties`. */
module Semantics {
  import opened Records
  import opened Links
  import opened Ancestry
  import opened Slots
  import opened Walks

  /** `k` is the null handle or has an Up record, so `up(k)` may be unwrapped. */
  predicate Linkable(up: map<Key, Up>, k: Key)
  {
    k == Null || k in up
  }

  /** The node has a non-null depth: it hangs in a rooted tree. */
  predicate Attached(s: Store, k: Key)
  {
    k in s.layer && s.layer[k].depth.Some?
  }

  /** The summary `insert_child` searches: the parent's Down record or the default children. */
  function ChildrenOf(s: Store, p: Key): Down
  {
    if p in s.down then s.down[p] else DefaultChildren
  }

  /** The Layer `insert_child` gives a new child of `parent` (src/lib.rs:229-230): one level
      deeper and the same root, the null depth kept null, the default without a record. */
  function ChildLayer(s: Store, parent: Key): Layer
  {
    if parent in s.layer then
      var l := s.layer[parent];
      Layer(if l.depth.Some? then Some(l.depth.value + 1) else None, l.root)
    else DefaultLayer
  }

  /** `id` already hangs under a parent other than `parent`: `insert_node` panics before
      writing anything (src/lib.rs:332-335). */
  predicate Mismatch(s: Store, id: Key, parent: Key)
  {
    Parented(s, id) && s.up[id].parent != parent
  }

  // ---------------------------------------------------------------------------
  // insert_node (src/lib.rs:314-420)

  /** What `insert_node` reads without checking, for splicing `id` between `prev` and `next`
      under `parent`. `path` is the walk of `modify_count` above the parent; `w` the walk of
      `insert_tree` below a newly attached node. A node that is moved within its parent keeps
      its Up record; a new one has its Up record written before its neighbours are read,
      so a neighbour may be `id` itself. */
  ghost predicate SpliceReady(s: Store, id: Key, parent: Key, lay: Layer, prev: Key, next: Key,
                              path: seq<Key>, w: Walk)
  {
    && id != Null && parent != Null && id != parent
    && Climb(s, ParentOf(s, parent), path)
    && if Parented(s, id) then
         var u := s.up[id];
         && Linkable(s.up, prev) && Linkable(s.up, next)
         && Linkable(s.up, u.prev) && Linkable(s.up, u.next)
         && (prev == Null || next == Null || u.prev == Null || u.next == Null ==> parent in s.down)
       else
         && (prev == id || Linkable(s.up, prev))
         && (next == id || Linkable(s.up, next))
         && id !in path
         && (lay.depth.Some? ==>
               && Describes(s, HeadOf(s, id), w)
               && prev !in Nodes(w)
               && (prev == Null ==> parent !in Nodes(w)))
  }

  /** The tables after `insert_node(id, parent, lay, prev, next)` for a node that already
      hangs under `parent`: it gets the new links, the new neighbours point at it and the old
      ones at each other, and the parent's summary is rewritten as for a new child: the
      length grows by one, no count is added, and the head/tail corrections for the vacated
      place are computed on a copy that is thrown away (src/lib.rs:384-396). */
  ghost function Reposition(s: Store, id: Key, parent: Key, prev: Key, next: Key): (r: Store)
    requires Parented(s, id)
    requires Linkable(s.up, prev) && Linkable(s.up, next)
    requires Linkable(s.up, s.up[id].prev) && Linkable(s.up, s.up[id].next)
    ensures r.up.Keys == s.up.Keys && r.up[id].parent == s.up[id].parent && r.layer == s.layer
    ensures parent in r.down && r.down[parent].len == DownOf(s, parent).len + 1
    ensures r.down[parent].count == DownOf(s, parent).count
  {
    var u := s.up[id];
    var up0 := s.up[id := u.(prev := prev, next := next)];
    var up1 := Link(up0, id, prev, next);
    RelinkKeepsParents(up0, prev, next, id, id);
    RelinkKeepsParents(up1, u.prev, u.next, u.next, u.prev);
    Store(Unlink(up1, u.prev, u.next),
          s.down[parent := Grown(DownOf(s, parent), id, prev, next, 0)],
          s.layer)
  }

  /** The tables after `insert_node(id, parent, lay, prev, next)` for a node without a
      parent: it gets its Up record and its neighbours' links, the parent's summary grows by
      one with the node's count plus one added, the same amount is added up the ancestor
      path, and under a non-null depth the node gets `lay` and everything below it one level
      more. */
  ghost function Attach(s: Store, id: Key, parent: Key, lay: Layer, prev: Key, next: Key,
                        path: seq<Key>, w: Walk): (r: Store)
    requires !Parented(s, id)
    requires SpliceReady(s, id, parent, lay, prev, next, path, w)
    ensures r.up.Keys == s.up.Keys + {id} && r.up[id].parent == parent
    ensures r.down.Keys == s.down.Keys + {parent} && r.down[parent].len == DownOf(s, parent).len + 1
    ensures lay.depth.None? ==> r.layer == s.layer
    ensures lay.depth.Some? ==> id in r.layer && r.layer[id] == lay
  {
    var c := FreshCount(s, id);
    var down1 := s.down[parent := Grown(DownOf(s, parent), id, prev, next, c)];
    BumpUpwards(down1, path, c);
    BumpedFrame(down1, path, c);
    RelinkKeepsParents(s.up[id := Up(parent, prev, next)], prev, next, id, id);
    Store(Link(s.up[id := Up(parent, prev, next)], id, prev, next),
          Bumped(down1, path, c),
          if lay.depth.Some? then (s.layer + Stamps(w, lay.depth.value + 1, lay.root))[id := lay] else s.layer)
  }

  /** The tables after `insert_node(id, parent, lay, prev, next)` when no panic occurs. */
  ghost function Splice(s: Store, id: Key, parent: Key, lay: Layer, prev: Key, next: Key,
                        path: seq<Key>, w: Walk): (r: Store)
    requires SpliceReady(s, id, parent, lay, prev, next, path, w) && !Mismatch(s, id, parent)
    ensures r.up.Keys == s.up.Keys + {id} && r.up[id].parent == parent
    ensures parent in r.down && r.down[parent].len == DownOf(s, parent).len + 1
  {
    if Parented(s, id) then Reposition(s, id, parent, prev, next)
    else Attach(s, id, parent, lay, prev, next, path, w)
  }

  /** Hanging a node without a parent under `parent` keeps the walk above `parent`: the
      node is not on it, and relinking siblings changes no parent link. */
  lemma AttachKeepsClimb(s: Store, id: Key, parent: Key, prev: Key, next: Key, path: seq<Key>,
                         layer: map<Key, Layer>)
    requires Climb(s, ParentOf(s, parent), path) && id !in path && id != parent
    requires (prev == id || Linkable(s.up, prev)) && (next == id || Linkable(s.up, next))
    ensures var s' := Store(Link(s.up[id := Up(parent, prev, next)], id, prev, next), s.down, layer);
            ParentOf(s', parent) == ParentOf(s, parent) && Climb(s', ParentOf(s, parent), path)
  {
    var up0 := s.up[id := Up(parent, prev, next)];
    var s' := Store(Link(up0, id, prev, next), s.down, layer);
    ClimbInDown(s, ParentOf(s, parent), path);
    RelinkKeepsParents(up0, prev, next, id, id);
    forall k | k in path ensures k in s'.down && ParentOf(s', k) == ParentOf(s, k) {
      if k in s.up {
        assert up0[k] == s.up[k];
      }
    }
    ClimbFrame(s, s', ParentOf(s, parent), path);
  }

  /** Moving a child within `parent` keeps the walk above `parent`. */
  lemma RepositionKeepsClimb(s: Store, id: Key, parent: Key, prev: Key, next: Key, path: seq<Key>)
    requires Parented(s, id) && s.up[id].parent == parent && id != parent
    requires Climb(s, ParentOf(s, parent), path)
    requires Linkable(s.up, prev) && Linkable(s.up, next)
    requires Linkable(s.up, s.up[id].prev) && Linkable(s.up, s.up[id].next)
    ensures var u := s.up[id];
            var up1 := Link(s.up[id := u.(prev := prev, next := next)], id, prev, next);
            var s' := Store(Unlink(up1, u.prev, u.next), s.down, s.layer);
            ParentOf(s', parent) == ParentOf(s, parent) && Climb(s', ParentOf(s, parent), path)
  {
    var u := s.up[id];
    var up0 := s.up[id := u.(prev := prev, next := next)];
    var up1 := Link(up0, id, prev, next);
    var s' := Store(Unlink(up1, u.prev, u.next), s.down, s.layer);
    ClimbInDown(s, ParentOf(s, parent), path);
    RelinkKeepsParents(up0, prev, next, id, id);
    RelinkKeepsParents(up1, u.prev, u.next, u.next, u.prev);
    forall k | k in path ensures k in s'.down && ParentOf(s', k) == ParentOf(s, k) {
      if k in s.up {
        assert up0[k].parent == s.up[k].parent;
      }
    }
    ClimbFrame(s, s', ParentOf(s, parent), path);
  }

  /** Splicing a new node in leaves the walk of `insert_tree` below it intact: the links it
      reads belong to nodes the splice does not touch, and the counts it bumps are not read. */
  lemma SpliceKeepsWalk(s: Store, s': Store, id: Key, parent: Key, prev: Key, next: Key, c: nat,
                        path: seq<Key>, w: Walk)
    requires Describes(s, HeadOf(s, id), w) && prev !in Nodes(w) && (prev == Null ==> parent !in Nodes(w))
    requires prev == id || Linkable(s.up, prev)
    requires next == id || Linkable(s.up, next)
    requires s'.up == Link(s.up[id := Up(parent, prev, next)], id, prev, next)
    requires CanBump(s.down[parent := Grown(DownOf(s, parent), id, prev, next, c)], path, c)
    requires s'.down == Bumped(s.down[parent := Grown(DownOf(s, parent), id, prev, next, c)], path, c)
    ensures Describes(s', HeadOf(s, id), w)
  {
    var down1 := s.down[parent := Grown(DownOf(s, parent), id, prev, next, c)];
    BumpedFrame(down1, path, c);
    OwnerNotBelow(s, id, w);
    forall n | n in Nodes(w) ensures HeadOf(s', n) == HeadOf(s, n) && NextOf(s', n) == NextOf(s, n) {
    }
    DescribesFrame(s, s', HeadOf(s, id), w);
  }

  // ---------------------------------------------------------------------------
  // insert_as_root (src/lib.rs:423-450)

  /** What `insert_as_root` needs: nothing when it refuses, else the walk of `insert_tree`
      below the new root. */
  ghost predicate RootReady(s: Store, id: Key, w: Walk)
  {
    id != Null && (Parented(s, id) || Describes(s, HeadOf(s, id), w))
  }

  /** The tables after a successful `insert_as_root(id)`: an empty Down record when it had
      none, depth 1 and root `id` for the node, depth 2 and root `id` stamped below it. */
  ghost function MakeRoot(s: Store, id: Key, w: Walk): (r: Store)
    requires RootReady(s, id, w) && !Parented(s, id)
    ensures r.up == s.up && r.down.Keys == s.down.Keys + {id}
    ensures r.layer.Keys == s.layer.Keys + Nodes(w) + {id} && r.layer[id] == Layer(Some(1), id)
  {
    StampsCover(w, 2, id);
    Store(s.up,
          if id in s.down then s.down else s.down[id := DefaultDown],
          (s.layer + Stamps(w, 2, id))[id := Layer(Some(1), id)])
  }

  /** `insert_as_root` as a whole: a node that already has a parent is refused (logged) and
      nothing changes. */
  ghost function InsertAsRoot(s: Store, id: Key, w: Walk): (r: (Outcome, Store))
    requires RootReady(s, id, w)
    ensures r.0 != Done <==> Parented(s, id)
    ensures r.0 != Done ==> r.0 == Refused && r.1 == s
  {
    if Parented(s, id) then (Refused, s) else (Done, MakeRoot(s, id, w))
  }

  // ---------------------------------------------------------------------------
  // remove (src/lib.rs:289-311) with remove_tree and remove_node (src/lib.rs:470-542)

  /** What `remove(id)` reads without checking: the walk of `remove_tree` below an attached
      node, and for a node with a parent the neighbours' Up records, the parent's Down
      record with room to subtract, and the ancestor path with counts that stay non-negative. */
  ghost predicate RemoveReady(s: Store, id: Key, w: Walk, path: seq<Key>)
  {
    && id != Null
    && (Attached(s, id) ==> DescribesStrip(s, HeadOf(s, id), w))
    && (Parented(s, id) ==>
          var u := s.up[id];
          var c := FreshCount(s, id);
          && Linkable(s.up, u.prev) && Linkable(s.up, u.next)
          && u.parent in s.down
          && s.down[u.parent].len >= 1 && s.down[u.parent].count >= c
          && Climb(s, ParentOf(s, u.parent), path)
          && CanBump(s.down[u.parent := Shrunk(s.down[u.parent], u.prev, u.next, c)], path, -(c as int)))
  }

  /** The tables after `remove(id)`: an attached node's subtree loses its Layer records along
      the walk of `remove_tree`; a node with a parent is then unlinked from its siblings,
      the parent's summary shrinks by one and its count (and every ancestor's) loses the
      node's count plus one, and the node's own Layer and Up records go. A root keeps its
      own Layer record. */
  ghost function Remove(s: Store, id: Key, w: Walk, path: seq<Key>): (r: Store)
    requires RemoveReady(s, id, w, path)
    ensures Parented(s, id) ==> r.up.Keys == s.up.Keys - {id} && id !in r.layer
    ensures !Parented(s, id) ==> r.up == s.up && r.down == s.down
    ensures r.down.Keys == s.down.Keys && r.layer.Keys <= s.layer.Keys
    ensures Attached(s, id) ==> Nodes(w) !! r.layer.Keys
  {
    var layer1 := if Attached(s, id) then s.layer - Nodes(w) else s.layer;
    if Parented(s, id) then
      var u := s.up[id];
      var c := FreshCount(s, id);
      BumpedFrame(s.down[u.parent := Shrunk(s.down[u.parent], u.prev, u.next, c)], path, -(c as int));
      Store(Unlink(s.up, u.prev, u.next) - {id},
            Bumped(s.down[u.parent := Shrunk(s.down[u.parent], u.prev, u.next, c)], path, -(c as int)),
            layer1 - {id})
    else
      Store(s.up, s.down, layer1)
  }

  // ---------------------------------------------------------------------------
  // insert_child (src/lib.rs:217-262) and insert_brother (src/lib.rs:264-286)

  /** Everything `insert_child(id, parent, order)` reads without checking. */
  ghost predicate InsertChildReady(s: Store, id: Key, parent: Key, order: nat, path: seq<Key>, w: Walk)
  {
    && id != parent
    && if parent == Null then RootReady(s, id, w)
       else
         && SlotReady(s.up, ChildrenOf(s, parent), order)
         && var (prev, next) := Slot(s.up, ChildrenOf(s, parent), order);
            Mismatch(s, id, parent) || SpliceReady(s, id, parent, ChildLayer(s, parent), prev, next, path, w)
  }

  /** `insert_child(id, parent, order)`: a null parent makes `id` a root; otherwise `id` goes
      into the gap the slot search finds, with the parent's layer one level deeper. */
  ghost function InsertChild(s: Store, id: Key, parent: Key, order: nat, path: seq<Key>, w: Walk): (r: (Outcome, Store))
    requires InsertChildReady(s, id, parent, order, path, w)
    ensures r.0.Fatal? <==> parent != Null && Mismatch(s, id, parent)
    ensures r.0 != Done ==> r.1 == s
    ensures r.0 == Done && parent == Null ==> r.1.up == s.up && Attached(r.1, id)
    ensures r.0 == Done && parent != Null ==> id in r.1.up && r.1.up[id].parent == parent
  {
    if parent == Null then InsertAsRoot(s, id, w)
    else if Mismatch(s, id, parent) then (Fatal(ParentMismatch), s)
    else
      var (prev, next) := Slot(s.up, ChildrenOf(s, parent), order);
      (Done, Splice(s, id, parent, ChildLayer(s, parent), prev, next, path, w))
  }

  /** The brother's Layer record as `insert_brother` copies it. */
  function LayerOf(s: Store, k: Key): Layer
  {
    if k in s.layer then s.layer[k] else DefaultLayer
  }

  /** The gap next to `brother` on the given side. */
  function Beside(u: Up, brother: Key, side: Side): (Key, Key)
  {
    match side
    case Front => (u.prev, brother)
    case Back => (brother, u.next)
  }

  /** Everything `insert_brother(id, brother, side)` reads without checking; the debug-build
      check that `id` is not the brother's parent is a caller obligation. */
  ghost predicate InsertBrotherReady(s: Store, id: Key, brother: Key, side: Side, path: seq<Key>, w: Walk)
  {
    brother in s.up ==>
      var u := s.up[brother];
      var (prev, next) := Beside(u, brother, side);
      && id != u.parent
      && if u.parent == Null then RootReady(s, id, w)
         else Mismatch(s, id, u.parent) || SpliceReady(s, id, u.parent, LayerOf(s, brother), prev, next, path, w)
  }

  /** `insert_brother(id, brother, side)`: a brother without an Up record is fatal; a brother
      without a parent makes `id` a root; otherwise `id` goes next to the brother under the
      brother's parent, with a copy of the brother's layer. */
  ghost function InsertBrother(s: Store, id: Key, brother: Key, side: Side, path: seq<Key>, w: Walk): (r: (Outcome, Store))
    requires InsertBrotherReady(s, id, brother, side, path, w)
    ensures r.0 == Fatal(InvalidBrother) <==> brother !in s.up
    ensures r.0 != Done ==> r.1 == s
    ensures r.0 == Done && brother in s.up && s.up[brother].parent == Null ==> r.1.up == s.up && Attached(r.1, id)
    ensures r.0 == Done && brother in s.up && s.up[brother].parent != Null ==>
              id in r.1.up && r.1.up[id].parent == s.up[brother].parent
  {
    if brother !in s.up then (Fatal(InvalidBrother), s)
    else
      var u := s.up[brother];
      var (prev, next) := Beside(u, brother, side);
      if u.parent == Null then InsertAsRoot(s, id, w)
      else if Mismatch(s, id, u.parent) then (Fatal(ParentMismatch), s)
      else (Done, Splice(s, id, u.parent, LayerOf(s, brother), prev, next, path, w))
  }
}
