/** The hierarchy engine (`Tree` in src/lib.rs:163-543): the three record tables it mutates
    in place and the operations that keep parent links, sibling chains, child-list summaries,
    aggregate counts and depths up to date. Each operation is proved to leave exactly the
    tables the matching function of `Semantics` describes; each internal step is proved to
    leave exactly the tables the matching piece (`Link`, `Unlink`, `Grown`, `Shrunk`,
    `Bumped`, `Stamps`) computes from the old ones. */
module Engine {
  import opened Records
  import opened Links
  import opened Ancestry
  import opened Slots
  import opened Walks
  import opened Semantics

  class Tree {
    /** The Up, Down and Layer tables of the storage the engine works on. */
    var up: map<Key, Up>
    var down: map<Key, Down>
    var layer: map<Key, Layer>
    /** The summary searched for a parent without a Down record (src/lib.rs:187). */
    const defaultChildren: Down := DefaultChildren

    /** The tables as one value. */
    function State(): Store
      reads this
    {
      Store(up, down, layer)
    }

    /** `Tree::new(storage)`: the engine over an existing storage (src/lib.rs:184-189). */
    constructor (up0: map<Key, Up>, down0: map<Key, Down>, layer0: map<Key, Layer>)
      ensures State() == Store(up0, down0, layer0)
    {
      up, down, layer := up0, down0, layer0;
    }

    /** The slot search of `insert_child` (src/lib.rs:233-256) over the summary `d`:
        the pair `Slot` describes, which on a well-linked parent is the gap in front of the
        `order`-th child, or after the last one. */
    method FindSlot(d: Down, order: nat) returns (prev: Key, next: Key)
      requires SlotReady(up, d, order)
      ensures (prev, next) == Slot(up, d, order)
      ensures forall p, cs :: Chain(up, p, cs) && Summarises(d, cs) ==>
                (prev, next) == Gap(cs, if order < |cs| then order else |cs|)
    {
      if order >= d.len {
        prev, next := d.tail, Null;
      } else if order + order >= d.len {
        prev, next := d.tail, Null;
        var n: nat := d.len - order;
        while n > 0 && prev != Null
          invariant BackwardReady(up, prev, n)
          invariant Backward(up, prev, next, n) == Backward(up, d.tail, Null, d.len - order)
          decreases n
        {
          n := n - 1;
          next := prev;
          prev := up[next].prev;
        }
      } else {
        prev, next := Null, d.head;
        var n: nat := order;
        while n > 0 && next != Null
          invariant ForwardReady(up, next, n)
          invariant Forward(up, prev, next, n) == Forward(up, Null, d.head, order)
          decreases n
        {
          n := n - 1;
          prev := next;
          next := up[prev].next;
        }
      }
      forall p, cs | Chain(up, p, cs) && Summarises(d, cs)
        ensures (prev, next) == Gap(cs, if order < |cs| then order else |cs|)
      {
        SlotFindsOrdinal(up, d, p, cs, order);
      }
    }

    /** `modify_count(start, delta)` (src/lib.rs:496-507): adds `delta` to the count of every
        node on the upward walk from `start`, and changes nothing else. */
    method ModifyCount(start: Key, delta: int, ghost path: seq<Key>)
      requires Climb(State(), start, path) && CanBump(down, path, delta)
      modifies this
      ensures down == Bumped(old(down), path, delta)
      ensures up == old(up) && layer == old(layer)
    {
      ghost var s0 := State();
      var id := start;
      ghost var i := 0;
      while id != Null
        invariant i <= |path| && Climb(s0, id, path[i..])
        invariant CanBump(old(down), path[..i], delta)
        invariant down == Bumped(old(down), path[..i], delta) && down.Keys == old(down).Keys
        invariant up == old(up) && layer == old(layer)
        decreases |path| - i
      {
        assert path[i] == id;
        assert path[..i + 1][..i] == path[..i];
        CanBumpPrefix(old(down), path, delta, i + 1);
        down := down[id := down[id].(count := down[id].count + delta)];
        assert path[i..][1..] == path[i + 1..];
        i := i + 1;
        if id in up {
          id := up[id].parent;
        } else {
          break;
        }
      }
      assert path[..i] == path;
    }

    /** `insert_tree(id, lay)` (src/lib.rs:454-468): stamps `lay` on every node of the sibling
        walk from `id` and one level deeper on everything below, touching no other table. */
    method InsertTree(id: Key, lay: Layer, ghost w: Walk)
      requires lay.depth.Some? && Describes(State(), id, w)
      modifies this
      ensures layer == old(layer) + Stamps(w, lay.depth.value, lay.root)
      ensures up == old(up) && down == old(down)
      decreases Size(w)
    {
      var d, r := lay.depth.value, lay.root;
      assert lay == Layer(Some(d), r);
      ghost var s0 := State();
      var k := id;
      ghost var cur := w;
      while k != Null
        invariant Describes(s0, k, cur) && Size(cur) <= Size(w)
        invariant layer + Stamps(cur, d, r) == old(layer) + Stamps(w, d, r)
        invariant up == s0.up && down == s0.down
        decreases Size(cur)
      {
        ghost var before := layer;
        layer := layer[k := lay];
        var head := if k in down then down[k].head else Null;
        k := if k in up then up[k].next else Null;
        DescribesSameLinks(s0, State(), head, cur.child);
        InsertTree(head, Layer(Some(d + 1), r), cur.child);
        assert layer == before[cur.node := Layer(Some(d), r)] + Stamps(cur.child, d + 1, r);
        StampsStep(before, cur, d, r);
        cur := cur.sibling;
      }
    }

    /** `remove_tree(id)` (src/lib.rs:470-483): drops the Layer record of every node the
        stripping walk visits, touching no other table. */
    method RemoveTree(id: Key, ghost w: Walk)
      requires DescribesStrip(State(), id, w)
      modifies this
      ensures layer == old(layer) - Nodes(w)
      ensures up == old(up) && down == old(down)
      decreases Size(w)
    {
      ghost var s0 := State();
      var k := id;
      ghost var cur := w;
      while k != Null
        invariant DescribesStrip(s0, k, cur) && Size(cur) <= Size(w)
        invariant layer - Nodes(cur) == old(layer) - Nodes(w)
        invariant up == s0.up && down == s0.down
        decreases Size(cur)
      {
        ghost var before := layer;
        layer := layer - {k};
        if k in down {
          var head := down[k].head;
          StripFrame(s0, State(), head, cur.child);
          RemoveTree(head, cur.child);
          k := up[k].next;
          assert layer - Nodes(cur.sibling) == before - Nodes(cur);
          cur := cur.sibling;
        } else {
          assert Nodes(cur) == {k};
          break;
        }
      }
    }

    /** Points `prev` forward and `next` backward at `id`, as `insert_node` does to its new
        neighbours (src/lib.rs:360-370). */
    method LinkAround(id: Key, prev: Key, next: Key)
      requires Linkable(up, prev) && Linkable(up, next)
      modifies this
      ensures up == Link(old(up), id, prev, next)
      ensures down == old(down) && layer == old(layer)
    {
      if prev != Null {
        up := up[prev := up[prev].(next := id)];
      }
      if next != Null {
        up := up[next := up[next].(prev := id)];
      }
    }

    /** Points `prev` and `next` at each other, closing the gap a node leaves
        (src/lib.rs:371-380 and 511-518). */
    method CloseGap(prev: Key, next: Key)
      requires Linkable(up, prev) && Linkable(up, next)
      modifies this
      ensures up == Unlink(old(up), prev, next)
      ensures down == old(down) && layer == old(layer)
    {
      if prev != Null {
        up := up[prev := up[prev].(next := next)];
      }
      if next != Null {
        up := up[next := up[next].(prev := prev)];
      }
    }

    /** `remove_node(id, parent, count, prev, next)` (src/lib.rs:509-542): closes the gap
        between `prev` and `next`, shrinks the parent's summary, takes `count` from the parent
        and every ancestor, and drops the node's Layer and Up records. */
    method RemoveNode(id: Key, parent: Key, count: nat, prev: Key, next: Key, ghost path: seq<Key>)
      requires Linkable(up, prev) && Linkable(up, next)
      requires parent in down && down[parent].len >= 1 && down[parent].count >= count
      requires Climb(State(), ParentOf(State(), parent), path)
      requires CanBump(down[parent := Shrunk(down[parent], prev, next, count)], path, -(count as int))
      modifies this
      ensures up == Unlink(old(up), prev, next) - {id}
      ensures down == Bumped(old(down)[parent := Shrunk(old(down)[parent], prev, next, count)], path, -(count as int))
      ensures layer == old(layer) - {id}
    {
      ghost var s0 := State();
      CloseGap(prev, next);
      var pDown := down[parent];
      if prev == Null {
        pDown := pDown.(head := next);
      }
      if next == Null {
        pDown := pDown.(tail := prev);
      }
      pDown := pDown.(len := pDown.len - 1, count := pDown.count - count);
      down := down[parent := pDown];
      var pp := if parent in up then up[parent].parent else Null;
      assert pp == ParentOf(s0, parent);
      ClimbInDown(s0, pp, path);
      ClimbFrame(s0, State(), pp, path);
      ModifyCount(pp, -(count as int), path);
      layer := layer - {id};
      up := up - {id};
    }

    /** The same-layer repair of `insert_node` for a node that is moved (src/lib.rs:371-397):
        the old neighbours are pointed at each other; the head and tail corrections are made
        on a copy of the parent's summary that is then dropped. */
    method FixVacated(id: Key, parent: Key, prev: Key, next: Key, fixPrev: Key, fixNext: Key)
      requires Linkable(up, fixPrev) && Linkable(up, fixNext)
      requires prev == Null || next == Null || fixPrev == Null || fixNext == Null ==> parent in down
      modifies this
      ensures up == Unlink(old(up), fixPrev, fixNext)
      ensures down == old(down) && layer == old(layer)
    {
      CloseGap(fixPrev, fixNext);
      if prev == Null || next == Null || fixPrev == Null || fixNext == Null {
        var copy := down[parent];
        if prev == Null {
          copy := copy.(head := id);
        } else if fixPrev == Null {
          copy := copy.(head := fixNext);
        }
        if next == Null {
          copy := copy.(tail := id);
        } else if fixNext == Null {
          copy := copy.(tail := fixPrev);
        }
      }
    }

    /** The parent's summary update of `insert_node` and the count propagation above it
        (src/lib.rs:399-412): a parent without a Down record starts from the empty one; its
        length grows by one, `count` is added to it and to every ancestor. */
    method Propagate(id: Key, parent: Key, prev: Key, next: Key, count: nat, ghost path: seq<Key>)
      requires Climb(State(), ParentOf(State(), parent), path)
      modifies this
      ensures CanBump(old(down)[parent := Grown(DownOf(old(State()), parent), id, prev, next, count)], path, count)
      ensures down == Bumped(old(down)[parent := Grown(DownOf(old(State()), parent), id, prev, next, count)], path, count)
      ensures up == old(up) && layer == old(layer)
    {
      ghost var s0 := State();
      var pDown := if parent in down then down[parent] else DefaultDown;
      if prev == Null {
        pDown := pDown.(head := id);
      }
      if next == Null {
        pDown := pDown.(tail := id);
      }
      pDown := pDown.(len := pDown.len + 1, count := pDown.count + count);
      down := down[parent := pDown];
      var pp := if parent in up then up[parent].parent else Null;
      ClimbInDown(s0, pp, path);
      ClimbFrame(s0, State(), pp, path);
      BumpUpwards(down, path, count);
      ModifyCount(pp, count, path);
    }

    /** The closing step of `insert_node` for a newly attached node under a non-null depth
        (src/lib.rs:415-419): one level deeper on the walk below it, then its own layer. */
    method StampSubtree(id: Key, lay: Layer, head: Key, ghost w: Walk)
      requires lay.depth.Some? && Describes(State(), head, w)
      modifies this
      ensures layer == (old(layer) + Stamps(w, lay.depth.value + 1, lay.root))[id := lay]
      ensures up == old(up) && down == old(down)
    {
      InsertTree(head, Layer(Some(lay.depth.value + 1), lay.root), w);
      layer := layer[id := lay];
    }

    /** `insert_node` for a node that already hangs under `parent` (src/lib.rs:328-342 with
        the `count == 0` steps of 360-412): new links for the node and its new neighbours,
        the old neighbours joined, the parent's summary grown by one, nothing added to any
        count. */
    method Move(id: Key, parent: Key, prev: Key, next: Key, ghost path: seq<Key>)
      requires Parented(State(), id) && up[id].parent == parent && id != parent
      requires Linkable(up, prev) && Linkable(up, next) && Linkable(up, up[id].prev) && Linkable(up, up[id].next)
      requires prev == Null || next == Null || up[id].prev == Null || up[id].next == Null ==> parent in down
      requires Climb(State(), ParentOf(State(), parent), path)
      modifies this
      ensures State() == Reposition(old(State()), id, parent, prev, next)
    {
      ghost var s0 := State();
      var fixPrev, fixNext := up[id].prev, up[id].next;
      up := up[id := up[id].(prev := prev, next := next)];
      LinkAround(id, prev, next);
      FixVacated(id, parent, prev, next, fixPrev, fixNext);
      RepositionKeepsClimb(s0, id, parent, prev, next, path);
      ClimbDistinct(s0, ParentOf(s0, parent), path);
      BumpedZero(down[parent := Grown(DownOf(s0, parent), id, prev, next, 0)], path);
      Propagate(id, parent, prev, next, 0, path);
    }

    /** `insert_node` for a node without a parent, up to the layers below it (src/lib.rs:344-412):
        its layer under a non-null depth, its Up record, its neighbours' links, the parent's
        summary and every ancestor's count grown by the count it brings, its own plus one.
        Returns that count and the node's first child. */
    method Adopt(id: Key, parent: Key, lay: Layer, prev: Key, next: Key, ghost path: seq<Key>)
      returns (count: nat, head: Key)
      requires !Parented(State(), id) && id != parent
      requires (prev == id || Linkable(up, prev)) && (next == id || Linkable(up, next))
      requires Climb(State(), ParentOf(State(), parent), path) && id !in path
      modifies this
      ensures count == FreshCount(old(State()), id) && head == HeadOf(old(State()), id)
      ensures up == Link(old(up)[id := Up(parent, prev, next)], id, prev, next)
      ensures var down1 := old(down)[parent := Grown(DownOf(old(State()), parent), id, prev, next, count)];
              CanBump(down1, path, count) && down == Bumped(down1, path, count)
      ensures layer == if lay.depth.Some? then old(layer)[id := lay] else old(layer)
    {
      ghost var s0 := State();
      if lay.depth.Some? {
        layer := layer[id := lay];
      }
      up := up[id := Up(parent, prev, next)];
      if id in down {
        count, head := down[id].count + 1, down[id].head;
      } else {
        count, head := 1, Null;
      }
      LinkAround(id, prev, next);
      AttachKeepsClimb(s0, id, parent, prev, next, path, layer);
      Propagate(id, parent, prev, next, count, path);
    }

    /** `insert_node(id, parent, lay, prev, next)` (src/lib.rs:314-420): a node hanging
        under another parent is fatal before any write; a node already under `parent` is
        moved, any other is attached and, under a non-null depth, the layers below it are
        stamped one level deeper (src/lib.rs:415-419). The source tells the two paths apart
        by the count it adds, zero exactly for a moved node; here each path is its own method. */
    method InsertNode(id: Key, parent: Key, lay: Layer, prev: Key, next: Key, ghost path: seq<Key>, ghost w: Walk)
      returns (out: Outcome)
      requires Mismatch(State(), id, parent) || SpliceReady(State(), id, parent, lay, prev, next, path, w)
      modifies this
      ensures Mismatch(old(State()), id, parent) ==> out == Fatal(ParentMismatch) && State() == old(State())
      ensures !Mismatch(old(State()), id, parent) ==>
                out == Done && State() == Splice(old(State()), id, parent, lay, prev, next, path, w)
    {
      if id in up && up[id].parent != Null {
        if up[id].parent != parent {
          return Fatal(ParentMismatch);
        }
        Move(id, parent, prev, next, path);
      } else {
        ghost var s0 := State();
        var count, head := Adopt(id, parent, lay, prev, next, path);
        if lay.depth.Some? && count > 0 {
          SpliceKeepsWalk(s0, State(), id, parent, prev, next, count, path, w);
          StampSubtree(id, lay, head, w);
          OverwriteTwice(s0.layer, id, lay, Stamps(w, lay.depth.value + 1, lay.root));
        }
      }
      out := Done;
    }

    /** `insert_as_root(id)` (src/lib.rs:423-450): a node with a parent is refused and nothing
        changes; otherwise the tables become `MakeRoot`. */
    method InsertAsRoot(id: Key, ghost w: Walk) returns (out: Outcome)
      requires RootReady(State(), id, w)
      modifies this
      ensures (out, State()) == Semantics.InsertAsRoot(old(State()), id, w)
    {
      if id in up && up[id].parent != Null {
        return Refused;
      }
      ghost var s0 := State();
      layer := layer[id := Layer(Some(1), id)];
      var head: Key;
      if id in down {
        head := down[id].head;
      } else {
        down := down[id := DefaultDown];
        head := Null;
      }
      DescribesFrame(s0, State(), head, w);
      InsertTree(head, Layer(Some(2), id), w);
      layer := layer[id := Layer(Some(1), id)];
      OverwriteTwice(s0.layer, id, Layer(Some(1), id), Stamps(w, 2, id));
      out := Done;
    }

    /** `insert_child(id, parent, order)` (src/lib.rs:217-262). */
    method InsertChild(id: Key, parent: Key, order: nat, ghost path: seq<Key>, ghost w: Walk) returns (out: Outcome)
      requires InsertChildReady(State(), id, parent, order, path, w)
      modifies this
      ensures (out, State()) == Semantics.InsertChild(old(State()), id, parent, order, path, w)
    {
      if parent != Null {
        var pDown := if parent in down then down[parent] else defaultChildren;
        var lay := if parent in layer then
                     var l := layer[parent];
                     Layer(if l.depth.Some? then Some(l.depth.value + 1) else None, l.root)
                   else DefaultLayer;
        var prev, next := FindSlot(pDown, order);
        out := InsertNode(id, parent, lay, prev, next, path, w);
      } else {
        out := InsertAsRoot(id, w);
      }
    }

    /** `insert_brother(id, brother, side)` (src/lib.rs:264-286). */
    method InsertBrother(id: Key, brother: Key, side: Side, ghost path: seq<Key>, ghost w: Walk) returns (out: Outcome)
      requires InsertBrotherReady(State(), id, brother, side, path, w)
      modifies this
      ensures (out, State()) == Semantics.InsertBrother(old(State()), id, brother, side, path, w)
    {
      if brother !in up {
        return Fatal(InvalidBrother);
      }
      var u := up[brother];
      var lay := if brother in layer then layer[brother] else DefaultLayer;
      var (prev, next) := if side == Front then (u.prev, brother) else (brother, u.next);
      if u.parent != Null {
        out := InsertNode(id, u.parent, lay, prev, next, path, w);
      } else {
        out := InsertAsRoot(id, w);
      }
    }

    /** `remove(id)` (src/lib.rs:289-311): the tables become `Semantics.Remove`. Removing a
        root (depth 1) also calls the storage's `remove_root` hook, which does nothing here. */
    method Remove(id: Key, ghost w: Walk, ghost path: seq<Key>)
      requires RemoveReady(State(), id, w, path)
      modifies this
      ensures State() == Semantics.Remove(old(State()), id, w, path)
    {
      ghost var s0 := State();
      if id in layer && layer[id].depth.Some? {
        RemoveTree(if id in down then down[id].head else Null, w);
      }
      if id in up && up[id].parent != Null {
        var u := up[id];
        ClimbInDown(s0, ParentOf(s0, u.parent), path);
        ClimbFrame(s0, State(), ParentOf(s0, u.parent), path);
        var count := if id in down then down[id].count + 1 else 1;
        RemoveNode(id, u.parent, count, u.prev, u.next, path);
      }
    }
  }
}
