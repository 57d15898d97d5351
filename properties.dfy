/** What the engine's operations do to a parent's list of children, to the aggregate counts
    above it and to the depth labels below it, stated over the functions of `Semantics`
    that the engine's methods are proved to implement. */
module Properties {
  import opened Records
  import opened Links
  import opened Ancestry
  import opened Slots
  import opened Walks
  import opened Semantics
  import opened Traversal

  // ---------------------------------------------------------------------------
  // Attaching a node without a parent

  /** Splicing a node without a parent into gap `k` of `p`'s child list puts it at position
      `k` with the list's summary kept exact, adds the node's count plus one to `p` and to
      every ancestor of `p`, and touches no other Down record and no Up record outside the
      list. */
  lemma AttachPlacesNode(s: Store, id: Key, p: Key, lay: Layer, cs: seq<Key>, k: nat,
                         path: seq<Key>, w: Walk)
    requires ChildList(s, p, cs) && k <= |cs| && id !in cs && !Parented(s, id)
    requires SpliceReady(s, id, p, lay, Before(cs, k), At(cs, k), path, w)
    ensures var s' := Attach(s, id, p, lay, Before(cs, k), At(cs, k), path, w);
            var c := FreshCount(s, id);
            && ChildList(s', p, cs[..k] + [id] + cs[k..])
            && s'.up[id] == Up(p, Before(cs, k), At(cs, k))
            && s'.down[p] == DownOf(s, p).(head := First(cs[..k] + [id] + cs[k..]),
                                           tail := Last(cs[..k] + [id] + cs[k..]),
                                           len := |cs| + 1,
                                           count := DownOf(s, p).count + c)
            && (forall a :: a in path ==> a in s.down && a in s'.down && s'.down[a] == s.down[a].(count := s.down[a].count + c))
            && (forall a :: a in s.down && a != p && a !in path ==> a in s'.down && s'.down[a] == s.down[a])
            && (forall n :: n in s.up && n != id && n !in cs ==> s'.up[n] == s.up[n])
  {
    var prev, next := Before(cs, k), At(cs, k);
    var c := FreshCount(s, id);
    var down1 := s.down[p := Grown(DownOf(s, p), id, prev, next, c)];
    BumpUpwards(down1, path, c);
    var s' := Attach(s, id, p, lay, prev, next, path, w);
    assert s'.up == Link(s.up[id := Up(p, prev, next)], id, prev, next);
    assert s'.down == Bumped(down1, path, c);
    BumpAbove(s, p, Grown(DownOf(s, p), id, prev, next, c), c, path);
    LinkExtendsChain(s.up, p, cs, k, id);
    assert Null !in cs;
    GrownSummarises(DownOf(s, p), cs, k, id, c);
  }

  /** The Down table after `p`'s record is replaced by `g` and `delta` is added along the
      walk above `p`: `p` keeps `g`, every ancestor has its count moved by `delta`, and
      every other record stays. */
  lemma BumpAbove(s: Store, p: Key, g: Down, delta: int, path: seq<Key>)
    requires p != Null && Climb(s, ParentOf(s, p), path)
    requires CanBump(s.down[p := g], path, delta)
    ensures var d' := Bumped(s.down[p := g], path, delta);
            && d'.Keys == s.down.Keys + {p}
            && d'[p] == g
            && (forall a :: a in path ==>
                  a in s.down && a in d' && s.down[a].count + delta >= 0 &&
                  d'[a] == s.down[a].(count := s.down[a].count + delta))
            && (forall a :: a in s.down && a != p && a !in path ==> a in d' && d'[a] == s.down[a])
  {
    var down1 := s.down[p := g];
    ClimbAvoidsStart(s, p, path);
    ClimbDistinct(s, ParentOf(s, p), path);
    ClimbInDown(s, ParentOf(s, p), path);
    BumpedCounts(down1, path, delta);
    BumpedFrame(down1, path, delta);
  }

  /** What an attach adds to (and a detach takes from) every ancestor's count is the number
      of nodes that join (or leave) the subtree: the node itself and the nodes below it,
      provided the node's own count already counts the nodes below it. */
  lemma FreshCountIsSubtreeSize(s: Store, id: Key, w: Walk)
    requires id != Null && Describes(s, HeadOf(s, id), w) && TreeShaped(w)
    requires id in s.down ==> s.down[id].count == Size(w)
    ensures FreshCount(s, id) == |Nodes(w) + {id}| == Size(w) + 1
  {
    OwnerNotBelow(s, id, w);
    TreeShapedSize(w);
    assert |Nodes(w) + {id}| == |Nodes(w)| + 1;
  }

  /** Under a parent with a depth, a newly attached node gets the given Layer record, every
      node below it the same root one level deeper or more, and no other Layer record
      changes (src/lib.rs:415-419). */
  lemma AttachStamps(s: Store, id: Key, p: Key, lay: Layer, prev: Key, next: Key,
                     path: seq<Key>, w: Walk)
    requires !Parented(s, id) && SpliceReady(s, id, p, lay, prev, next, path, w)
    ensures var s' := Attach(s, id, p, lay, prev, next, path, w);
            && (lay.depth.None? ==> s'.layer == s.layer)
            && (lay.depth.Some? ==>
                  && s'.layer[id] == lay
                  && id !in Nodes(w)
                  && (forall n :: n in Nodes(w) ==>
                        n in s'.layer && s'.layer[n].root == lay.root &&
                        s'.layer[n].depth.Some? && s'.layer[n].depth.value >= lay.depth.value + 1)
                  && (forall n :: n in s.layer && n != id && n !in Nodes(w) ==> s'.layer[n] == s.layer[n]))
  {
    var s' := Attach(s, id, p, lay, prev, next, path, w);
    if lay.depth.Some? {
      var stamps := Stamps(w, lay.depth.value + 1, lay.root);
      assert s'.layer == (s.layer + stamps)[id := lay];
      assert Describes(s, HeadOf(s, id), w);
      StampsCover(w, lay.depth.value + 1, lay.root);
      OwnerNotBelow(s, id, w);
    }
  }

  /** `insert_child(id, p, order)` for a node without a parent puts it at position
      `min(order, len)` of `p`'s children, which is where the two-ended slot search lands,
      and adds its count plus one to `p`'s count. */
  lemma InsertChildPlacesNode(s: Store, id: Key, p: Key, order: nat, cs: seq<Key>,
                              path: seq<Key>, w: Walk)
    requires ChildList(s, p, cs) && id !in cs && !Parented(s, id)
    requires InsertChildReady(s, id, p, order, path, w)
    ensures var k := if order < |cs| then order else |cs|;
            var r := InsertChild(s, id, p, order, path, w);
            && r.0 == Done
            && ChildList(r.1, p, cs[..k] + [id] + cs[k..])
            && r.1.up[id] == Up(p, Before(cs, k), At(cs, k))
            && r.1.down[p].count == DownOf(s, p).count + FreshCount(s, id)
            && (ChildLayer(s, p).depth.Some? ==> r.1.layer[id] == ChildLayer(s, p))
  {
    var k := if order < |cs| then order else |cs|;
    assert Summarises(ChildrenOf(s, p), cs);
    SlotFindsOrdinal(s.up, ChildrenOf(s, p), p, cs, order);
    AttachPlacesNode(s, id, p, ChildLayer(s, p), cs, k, path, w);
  }

  /** `insert_brother(id, cs[k], side)` for a node without a parent puts it just before
      (`Front`) or just after (`Back`) the brother in the brother's parent's list, with a
      copy of the brother's Layer record. */
  lemma InsertBrotherPlacesNode(s: Store, id: Key, p: Key, cs: seq<Key>, k: nat, side: Side,
                                path: seq<Key>, w: Walk)
    requires ChildList(s, p, cs) && k < |cs| && id !in cs && !Parented(s, id)
    requires InsertBrotherReady(s, id, cs[k], side, path, w)
    ensures var j := if side == Front then k else k + 1;
            var r := InsertBrother(s, id, cs[k], side, path, w);
            && r.0 == Done
            && ChildList(r.1, p, cs[..j] + [id] + cs[j..])
            && r.1.up[id] == Up(p, Before(cs, j), At(cs, j))
            && r.1.down[p].count == DownOf(s, p).count + FreshCount(s, id)
            && (LayerOf(s, cs[k]).depth.Some? ==> r.1.layer[id] == LayerOf(s, cs[k]))
  {
    var j := if side == Front then k else k + 1;
    assert s.up[cs[k]] == Up(p, Before(cs, k), At(cs, k + 1));
    assert Beside(s.up[cs[k]], cs[k], side) == (Before(cs, j), At(cs, j));
    AttachPlacesNode(s, id, p, LayerOf(s, cs[k]), cs, j, path, w);
  }

  /** The refusals: a parent mismatch or a brother without an Up record is fatal, and a root
      insertion of a node with a parent is refused, each without changing any record. */
  lemma RefusalsChangeNothing(s: Store, id: Key, p: Key, order: nat, brother: Key, side: Side,
                              path: seq<Key>, w: Walk)
    ensures p != Null && InsertChildReady(s, id, p, order, path, w) && Mismatch(s, id, p) ==>
              InsertChild(s, id, p, order, path, w).0 == Fatal(ParentMismatch) &&
              InsertChild(s, id, p, order, path, w).1 == s
    ensures InsertBrotherReady(s, id, brother, side, path, w) && brother !in s.up ==>
              InsertBrother(s, id, brother, side, path, w).0 == Fatal(InvalidBrother) &&
              InsertBrother(s, id, brother, side, path, w).1 == s
    ensures RootReady(s, id, w) ==>
              (InsertAsRoot(s, id, w).0 == Refused <==> Parented(s, id)) &&
              (Parented(s, id) ==> InsertAsRoot(s, id, w).1 == s)
  {
  }

  /** A call that would make a node its own ancestor is outside `SpliceReady`. Here `a` has
      no parent but heads the list of `b` (as `remove(a)` leaves it), and `b` hangs under
      `a`. `insert_child(a, b, 0)` would make `b` the parent of `a` (src/lib.rs:350) and then
      `modify_count` would climb from `a` (src/lib.rs:410-412, 497-506) through `b`, `a`,
      `b`, ... without end. */
  lemma SelfAncestryNotReady(path: seq<Key>, w: Walk)
    ensures var a, b := Id(0), Id(1);
            var s := Store(map[b := Up(a, Null, Null)], map[a := Down(b, b, 1, 1)], map[]);
            && !Parented(s, a) && ParentOf(s, b) == a
            && Slot(s.up, ChildrenOf(s, b), 0) == (Null, Null)
            && !SpliceReady(s, a, b, ChildLayer(s, b), Null, Null, path, w)
            && !InsertChildReady(s, a, b, 0, path, w)
  {
  }

  // ---------------------------------------------------------------------------
  // Roots

  /** A successful `insert_as_root(id)` labels the node depth 1 with itself as root, labels
      everything below it with the same root at depth 2 or more, keeps its Down record or
      creates an empty one, and changes no Up record and no other Layer record. */
  lemma RootStamps(s: Store, id: Key, w: Walk)
    requires RootReady(s, id, w) && !Parented(s, id)
    ensures var s' := MakeRoot(s, id, w);
            && s'.up == s.up
            && s'.layer[id] == Layer(Some(1), id)
            && id in s'.down && (id in s.down ==> s'.down == s.down)
            && (id !in s.down ==> s'.down[id] == Down(Null, Null, 0, 0))
            && (forall n :: n in Nodes(w) && n != id ==>
                  n in s'.layer && s'.layer[n].root == id &&
                  s'.layer[n].depth.Some? && s'.layer[n].depth.value >= 2)
            && (forall n :: n in s.layer && n != id && n !in Nodes(w) ==> s'.layer[n] == s.layer[n])
  {
    StampsCover(w, 2, id);
  }

  // ---------------------------------------------------------------------------
  // Detaching

  /** `remove(cs[k])` takes the node out of its parent's list with the summary kept exact,
      takes its count plus one from the parent and from every ancestor, deletes its Up and
      Layer records and, when it is attached, the Layer records of the `remove_tree` walk
      below it, keeps its Down record, and touches no other Down or Layer record and no Up
      record outside the list, so in particular none of its children's. */
  lemma RemoveDetachesNode(s: Store, p: Key, cs: seq<Key>, k: nat, w: Walk, path: seq<Key>)
    requires ChildList(s, p, cs) && k < |cs|
    requires RemoveReady(s, cs[k], w, path)
    ensures var id := cs[k];
            var s' := Remove(s, id, w, path);
            var c := FreshCount(s, id);
            && ChildList(s', p, cs[..k] + cs[k + 1..])
            && id !in s'.up && id !in s'.layer
            && p in s.down && p in s'.down && s'.down[p].count == s.down[p].count - c
            && (forall a :: a in path ==> a in s.down && a in s'.down && s.down[a] == s'.down[a].(count := s'.down[a].count + c))
            && (id in s.down ==> id in s'.down && s'.down[id] == s.down[id])
            && (forall a :: a in s.down && a != p && a !in path ==> a in s'.down && s'.down[a] == s.down[a])
            && (Attached(s, id) ==> Nodes(w) !! s'.layer.Keys)
            && (forall n :: n in s.layer && n != id && (Attached(s, id) ==> n !in Nodes(w)) ==>
                  n in s'.layer && s'.layer[n] == s.layer[n])
            && (forall n :: n in s.up && n != id && n !in cs ==> s'.up[n] == s.up[n])
            && (forall n :: n in s.up && s.up[n].parent == id ==> s'.up[n] == s.up[n])
  {
    var id := cs[k];
    var c := FreshCount(s, id);
    var prev, next := Before(cs, k), At(cs, k + 1);
    assert s.up[id] == Up(p, prev, next);
    var d := s.down[p];
    var s' := Remove(s, id, w, path);
    assert s'.up == Unlink(s.up, prev, next) - {id};
    assert s'.down == Bumped(s.down[p := Shrunk(d, prev, next, c)], path, -(c as int));
    RemoveKeepsOthers(s, id, w, path);
    ClimbAvoidsChild(s, p, id, path);
    BumpAbove(s, p, Shrunk(d, prev, next, c), -(c as int), path);
    UnlinkShortensChain(s.up, p, cs, k);
    assert Null !in cs;
    ShrunkSummarises(d, cs, k, c);
    assert ParentOf(s, p) != p by {
      if ParentOf(s, p) != Null {
        assert path[0] in path;
      }
    }
    forall n | n in s.up && s.up[n].parent == id ensures n != id && n !in cs {
      forall i | 0 <= i < |cs| ensures cs[i] != n {
        assert s.up[cs[i]].parent == p;
      }
    }
  }

  /** Removing a node with a parent leaves every Down record off its parent and the
      ancestor path, and every Layer record other than its own and (when it is attached)
      those of the walk below it. */
  lemma RemoveKeepsOthers(s: Store, id: Key, w: Walk, path: seq<Key>)
    requires RemoveReady(s, id, w, path) && Parented(s, id)
    ensures var s' := Remove(s, id, w, path);
            var p := s.up[id].parent;
            && (forall a :: a in s.down && a != p && a !in path ==> a in s'.down && s'.down[a] == s.down[a])
            && (Attached(s, id) ==> Nodes(w) !! s'.layer.Keys)
            && (forall n :: n in s.layer && n != id && (Attached(s, id) ==> n !in Nodes(w)) ==>
                  n in s'.layer && s'.layer[n] == s.layer[n])
  {
    var u := s.up[id];
    var c := FreshCount(s, id);
    var s' := Remove(s, id, w, path);
    assert s'.down == Bumped(s.down[u.parent := Shrunk(s.down[u.parent], u.prev, u.next, c)], path, -(c as int));
    assert s'.layer == (if Attached(s, id) then s.layer - Nodes(w) else s.layer) - {id};
    BumpAbove(s, u.parent, Shrunk(s.down[u.parent], u.prev, u.next, c), -(c as int), path);
  }

  /** Removing a root strips the Layer records of the nodes below it but keeps its own
      Layer record and every Up and Down record. */
  lemma RemoveRootKeepsOwnLayer(s: Store, id: Key, w: Walk, path: seq<Key>)
    requires RemoveReady(s, id, w, path) && !Parented(s, id) && Attached(s, id)
    ensures var s' := Remove(s, id, w, path);
            && s'.up == s.up && s'.down == s.down
            && id in s'.layer && s'.layer[id] == s.layer[id]
            && (forall n :: n in Nodes(w) ==> n !in s'.layer)
  {
    StripOwnerNotBelow(s, id, w);
  }

  /** Removing a node and splicing it back into the gap it left restores every Up record
      and every Down record: what the detach takes from the counts above is exactly what the
      attach adds back. */
  lemma RemoveThenReattach(s: Store, p: Key, cs: seq<Key>, k: nat, w: Walk, path: seq<Key>,
                           lay: Layer, w2: Walk)
    requires ChildList(s, p, cs) && k < |cs|
    requires RemoveReady(s, cs[k], w, path)
    requires SpliceReady(Remove(s, cs[k], w, path), cs[k], p, lay, Before(cs, k), At(cs, k + 1), path, w2)
    ensures !Parented(Remove(s, cs[k], w, path), cs[k])
    ensures var s2 := Attach(Remove(s, cs[k], w, path), cs[k], p, lay, Before(cs, k), At(cs, k + 1), path, w2);
            s2.up == s.up && s2.down == s.down
  {
    var id := cs[k];
    var prev, next := Before(cs, k), At(cs, k + 1);
    assert s.up[id] == Up(p, prev, next);
    var s1 := Remove(s, id, w, path);
    var s2 := Attach(s1, id, p, lay, prev, next, path, w2);
    var c := FreshCount(s, id);
    ReattachRestoresUp(s, p, cs, k, w, path);
    ReattachRestoresDown(s, p, cs, k, w, path);
    assert s2.up == Link(s1.up[id := Up(p, prev, next)], id, prev, next);
    assert s2.down == Bumped(s1.down[p := Grown(DownOf(s1, p), id, prev, next, c)], path, c);
  }

  /** The Up half of `RemoveThenReattach`: relinking into the vacated gap restores the table. */
  lemma ReattachRestoresUp(s: Store, p: Key, cs: seq<Key>, k: nat, w: Walk, path: seq<Key>)
    requires ChildList(s, p, cs) && k < |cs|
    requires RemoveReady(s, cs[k], w, path)
    ensures var s1 := Remove(s, cs[k], w, path);
            && Linkable(s1.up, Before(cs, k)) && Linkable(s1.up, At(cs, k + 1))
            && Link(s1.up[cs[k] := Up(p, Before(cs, k), At(cs, k + 1))], cs[k], Before(cs, k), At(cs, k + 1)) == s.up
  {
    var id := cs[k];
    var prev, next := Before(cs, k), At(cs, k + 1);
    assert s.up[id] == Up(p, prev, next);
    var d := s.down[p];
    RelinkRestores(s.up, d, p, cs, k, FreshCount(s, id));
  }

  /** The Down half of `RemoveThenReattach`: growing the shrunk summary back and adding the
      count back along the path restores the table. */
  lemma ReattachRestoresDown(s: Store, p: Key, cs: seq<Key>, k: nat, w: Walk, path: seq<Key>)
    requires ChildList(s, p, cs) && k < |cs|
    requires RemoveReady(s, cs[k], w, path)
    ensures var s1 := Remove(s, cs[k], w, path);
            var c := FreshCount(s, cs[k]);
            && FreshCount(s1, cs[k]) == c
            && CanBump(s1.down[p := Grown(DownOf(s1, p), cs[k], Before(cs, k), At(cs, k + 1), c)], path, c)
            && Bumped(s1.down[p := Grown(DownOf(s1, p), cs[k], Before(cs, k), At(cs, k + 1), c)], path, c) == s.down
  {
    var id := cs[k];
    var c := FreshCount(s, id);
    var prev, next := Before(cs, k), At(cs, k + 1);
    assert s.up[id] == Up(p, prev, next);
    var d := s.down[p];
    var sh := Shrunk(d, prev, next, c);
    var s1 := Remove(s, id, w, path);
    ClimbAvoidsChild(s, p, id, path);
    ClimbDistinct(s, ParentOf(s, p), path);
    BumpedOff(s.down, path, -(c as int), p, sh);
    var mid := Bumped(s.down, path, -(c as int));
    assert s1.down == mid[p := sh];
    BumpedFrame(s.down, path, -(c as int));
    BumpedCounts(s.down, path, -(c as int));
    assert DownOf(s1, p) == sh;
    RelinkRestores(s.up, d, p, cs, k, c);
    BumpedRoundTrip(s.down, path, c);
    BumpedOff(mid, path, c, p, d);
    assert s1.down[p := Grown(sh, id, prev, next, c)] == mid[p := d];
  }

  // ---------------------------------------------------------------------------
  // Moving a node within its parent

  /** Re-appending the last child (an order at or past the end finds the gap after the tail,
      which is the node itself) makes the node its own neighbour on both sides, cuts it off
      the chain that starts at the head, and still grows the recorded length by one. */
  lemma ReappendLastChild(s: Store, p: Key, cs: seq<Key>)
    requires ChildList(s, p, cs) && |cs| >= 1
    ensures var id := cs[|cs| - 1];
            var s' := Reposition(s, id, p, id, Null);
            && s'.up[id] == Up(p, id, id)
            && DownOf(s', p) == DownOf(s, p).(len := |cs| + 1)
            && Chain(s'.up, p, cs[..|cs| - 1])
  {
    var n := |cs|;
    var id := cs[n - 1];
    var s' := Reposition(s, id, p, id, Null);
    var cs' := cs[..n - 1];
    assert s.up[id] == Up(p, Before(cs, n - 1), Null);
    forall i | 0 <= i < |cs'|
      ensures cs'[i] in s'.up && s'.up[cs'[i]] == Up(p, Before(cs', i), At(cs', i + 1))
    {
      assert cs'[i] == cs[i] && s.up[cs[i]] == Up(p, Before(cs, i), At(cs, i + 1));
    }
  }

  /** Moving the last of at least two children to the front yields the right chain, but the
      recorded tail stays the moved node and the recorded length grows by one, so the
      summary no longer describes the list. */
  lemma MoveLastToFront(s: Store, p: Key, cs: seq<Key>)
    requires ChildList(s, p, cs) && |cs| >= 2
    ensures var id := cs[|cs| - 1];
            var s' := Reposition(s, id, p, Null, cs[0]);
            && Chain(s'.up, p, [id] + cs[..|cs| - 1])
            && DownOf(s', p) == DownOf(s, p).(head := id, len := |cs| + 1)
            && DownOf(s', p).tail == id
            && !Summarises(DownOf(s', p), [id] + cs[..|cs| - 1])
  {
    var n := |cs|;
    var id := cs[n - 1];
    var s' := Reposition(s, id, p, Null, cs[0]);
    var cs' := [id] + cs[..n - 1];
    assert s.up[id] == Up(p, Before(cs, n - 1), Null);
    assert s.up[cs[0]] == Up(p, Null, At(cs, 1));
    var up1 := s.up[id := Up(p, Null, cs[0])][cs[0] := Up(p, id, At(cs, 1))];
    assert s'.up == up1[cs[n - 2] := up1[cs[n - 2]].(next := Null)];
    MovedToFrontChain(s.up, p, cs);
  }

  /** The Up table of `MoveLastToFront`, written out, links the rotated list. */
  lemma MovedToFrontChain(up: map<Key, Up>, p: Key, cs: seq<Key>)
    requires Chain(up, p, cs) && |cs| >= 2
    ensures var n := |cs|;
            var id := cs[n - 1];
            var up1 := up[id := Up(p, Null, cs[0])][cs[0] := Up(p, id, At(cs, 1))];
            && cs[n - 2] in up1
            && Chain(up1[cs[n - 2] := up1[cs[n - 2]].(next := Null)], p, [id] + cs[..n - 1])
  {
    var n := |cs|;
    var id := cs[n - 1];
    var cs' := [id] + cs[..n - 1];
    var up1 := up[id := Up(p, Null, cs[0])][cs[0] := Up(p, id, At(cs, 1))];
    var up2 := up1[cs[n - 2] := up1[cs[n - 2]].(next := Null)];
    forall i | 0 <= i < |cs'|
      ensures cs'[i] in up2 && up2[cs'[i]] == Up(p, Before(cs', i), At(cs', i + 1))
    {
      if i > 0 {
        assert cs'[i] == cs[i - 1] && up[cs[i - 1]] == Up(p, Before(cs, i - 1), At(cs, i));
      }
    }
    MovedToFrontDistinct(cs);
  }

  /** Moving the last element of a list without repetitions to the front keeps it so. */
  lemma MovedToFrontDistinct(cs: seq<Key>)
    requires Distinct(cs) && |cs| >= 1
    ensures Distinct([cs[|cs| - 1]] + cs[..|cs| - 1])
  {
    var cs' := [cs[|cs| - 1]] + cs[..|cs| - 1];
    forall i, j | 0 <= i < j < |cs'| ensures cs'[i] != cs'[j] {
      assert cs'[j] == cs[j - 1];
      if i > 0 {
        assert cs'[i] == cs[i - 1];
      }
    }
  }

  // ---------------------------------------------------------------------------
  // Traversals

  /** The children iterator started at a parent's recorded head yields exactly its list of
      children, in order, and then stops. */
  lemma ChildrenInOrder(s: Store, p: Key, cs: seq<Key>)
    requires ChildList(s, p, cs)
    ensures Trail(s, DownOf(s, p).head, |cs| + 1) == cs
  {
    TrailFollowsChain(s, p, cs, 0, |cs| + 1);
  }

  /** The recursive iterator started at `head` yields every node of the walk from `head`
      (`head`, the nodes below it, its later siblings and the nodes below them), each exactly
      where pre-order puts it, and its stack is then empty. */
  lemma RecursiveInPreOrder(s: Store, head: Key, w: Walk)
    requires Describes(s, head, w)
    ensures Run(s, Push([], head), Size(w)).0 == PreOrder(w)
    ensures Run(s, Push([], head), Size(w)).1 == []
    ensures forall n :: n in Run(s, Push([], head), Size(w)).0 <==> n in Nodes(w)
  {
    RunIsPreOrder(s, [], head, w);
    PreOrderCoversNodes(w);
  }
}
