/** The first-child / next-sibling walks that `insert_tree`, `remove_tree` and the recursive
    iterator perform (src/lib.rs:454-483 and 645-668), described by the finite tree of nodes
    they visit. A walk value is the witness that such a loop terminates on a given store. */
module Walks {
  import opened Records
  import opened Links

  /** One visit per node: the walk into its first child, then the walk from its next sibling. */
  datatype Walk = End | Visit(node: Key, child: Walk, sibling: Walk)

  /** `w` is the walk from `k` that follows `get_down(k).head` into the children and
      `get_up(k).next` to the next sibling, a missing record reading as the null handle
      (`insert_tree` at src/lib.rs:454-468, the recursive iterator at src/lib.rs:647-668). */
  ghost predicate Describes(s: Store, k: Key, w: Walk)
    decreases w
  {
    match w
    case End => k == Null
    case Visit(n, c, sib) =>
      k != Null && n == k && Describes(s, HeadOf(s, k), c) && Describes(s, NextOf(s, k), sib)
  }

  /** `w` is the walk of `remove_tree` from `k` (src/lib.rs:470-483): a node without a Down
      record ends the whole sibling walk (the loop breaks), and after a node with one the
      walk moves on through an Up record that must exist (`up(id)` unwraps it). */
  ghost predicate DescribesStrip(s: Store, k: Key, w: Walk)
    decreases w
  {
    match w
    case End => k == Null
    case Visit(n, c, sib) =>
      && k != Null && n == k
      && if k in s.down then
           k in s.up && DescribesStrip(s, s.down[k].head, c) && DescribesStrip(s, s.up[k].next, sib)
         else
           c == End && sib == End
  }

  /** The nodes a walk visits. */
  function Nodes(w: Walk): set<Key>
  {
    match w
    case End => {}
    case Visit(k, c, sib) => {k} + Nodes(c) + Nodes(sib)
  }

  /** The number of visits. */
  function Size(w: Walk): nat
  {
    match w
    case End => 0
    case Visit(_, c, sib) => 1 + Size(c) + Size(sib)
  }

  /** The visits in order: a node, then everything below it, then its later siblings. */
  function PreOrder(w: Walk): seq<Key>
  {
    match w
    case End => []
    case Visit(k, c, sib) => [k] + PreOrder(c) + PreOrder(sib)
  }

  /** The Layer records `insert_tree` writes along `w` when started with depth `d` and root `r`:
      each node gets `d`, its children's walk `d + 1`, its later siblings `d`; a later write
      overrides an earlier one, in the loop's own order. */
  function Stamps(w: Walk, d: nat, r: Key): map<Key, Layer>
  {
    match w
    case End => map[]
    case Visit(k, c, sib) => (map[k := Layer(Some(d), r)] + Stamps(c, d + 1, r)) + Stamps(sib, d, r)
  }

  /** A walk that visits each node once: the shape of a proper tree. */
  ghost predicate TreeShaped(w: Walk)
  {
    Distinct(PreOrder(w))
  }

  // ---------------------------------------------------------------------------
  // Basic facts

  lemma {:induction false} PreOrderCoversNodes(w: Walk)
    ensures |PreOrder(w)| == Size(w)
    ensures forall k :: k in PreOrder(w) <==> k in Nodes(w)
  {
    match w
    case End =>
    case Visit(k, c, sib) =>
      PreOrderCoversNodes(c);
      PreOrderCoversNodes(sib);
  }

  /** A store pins the walk from a handle down: there is at most one. */
  lemma {:induction false} DescribesUnique(s: Store, k: Key, w1: Walk, w2: Walk)
    requires Describes(s, k, w1) && Describes(s, k, w2)
    ensures w1 == w2
    decreases w1
  {
    match w1
    case End =>
    case Visit(_, c, sib) =>
      DescribesUnique(s, HeadOf(s, k), c, w2.child);
      DescribesUnique(s, NextOf(s, k), sib, w2.sibling);
  }

  /** Every node `x` on a walk starts a walk of its own children, strictly smaller. */
  lemma {:induction false} ChildWalkOf(s: Store, k: Key, w: Walk, x: Key) returns (c: Walk)
    requires Describes(s, k, w) && x in Nodes(w)
    ensures Describes(s, HeadOf(s, x), c) && Size(c) < Size(w)
    decreases w
  {
    var Visit(_, wc, ws) := w;
    if x == k {
      c := wc;
    } else if x in Nodes(wc) {
      c := ChildWalkOf(s, HeadOf(s, k), wc, x);
    } else {
      c := ChildWalkOf(s, NextOf(s, k), ws, x);
    }
  }

  /** A node is never reached from its own first child: the walk below `x` cannot visit `x`.
      This is what lets `insert_node` relink `x` without disturbing the walk of its subtree. */
  lemma OwnerNotBelow(s: Store, x: Key, w: Walk)
    requires Describes(s, HeadOf(s, x), w)
    ensures x !in Nodes(w)
  {
    if x in Nodes(w) {
      var c := ChildWalkOf(s, HeadOf(s, x), w, x);
      DescribesUnique(s, HeadOf(s, x), c, w);
      assert false;
    }
  }

  /** The walk of `remove_tree` from a given node is unique. */
  lemma {:induction false} StripUnique(s: Store, k: Key, w1: Walk, w2: Walk)
    requires DescribesStrip(s, k, w1) && DescribesStrip(s, k, w2)
    ensures w1 == w2
    decreases w1
  {
    match w1
    case End =>
    case Visit(_, c, sib) =>
      if k in s.down {
        StripUnique(s, s.down[k].head, c, w2.child);
        StripUnique(s, s.up[k].next, sib, w2.sibling);
      }
  }

  /** Every node `x` on a walk of `remove_tree` starts such a walk of its own children,
      strictly smaller. */
  lemma {:induction false} StripChildWalkOf(s: Store, k: Key, w: Walk, x: Key) returns (c: Walk)
    requires DescribesStrip(s, k, w) && x in Nodes(w)
    ensures DescribesStrip(s, HeadOf(s, x), c) && Size(c) < Size(w)
    decreases w
  {
    var Visit(_, wc, ws) := w;
    if x == k {
      c := wc;
    } else if x in Nodes(wc) {
      c := StripChildWalkOf(s, s.down[k].head, wc, x);
    } else {
      c := StripChildWalkOf(s, s.up[k].next, ws, x);
    }
  }

  /** `remove_tree` below `x` never reaches `x` itself. */
  lemma StripOwnerNotBelow(s: Store, x: Key, w: Walk)
    requires DescribesStrip(s, HeadOf(s, x), w)
    ensures x !in Nodes(w)
  {
    if x in Nodes(w) {
      var c := StripChildWalkOf(s, HeadOf(s, x), w, x);
      StripUnique(s, HeadOf(s, x), c, w);
      assert false;
    }
  }

  /** The walk reads only the first-child and next-sibling links of the nodes it visits. */
  lemma {:induction false} DescribesFrame(s: Store, s': Store, k: Key, w: Walk)
    requires Describes(s, k, w)
    requires forall n :: n in Nodes(w) ==> HeadOf(s', n) == HeadOf(s, n) && NextOf(s', n) == NextOf(s, n)
    ensures Describes(s', k, w)
    decreases w
  {
    match w
    case End =>
    case Visit(_, c, sib) =>
      DescribesFrame(s, s', HeadOf(s, k), c);
      DescribesFrame(s, s', NextOf(s, k), sib);
  }

  /** The walk reads only the Up and Down tables. */
  lemma DescribesSameLinks(s: Store, s': Store, k: Key, w: Walk)
    requires Describes(s, k, w) && s'.up == s.up && s'.down == s.down
    ensures Describes(s', k, w)
  {
    DescribesFrame(s, s', k, w);
  }

  /** The stripping walk reads only the Up and Down tables. */
  lemma {:induction false} StripFrame(s: Store, s': Store, k: Key, w: Walk)
    requires DescribesStrip(s, k, w) && s'.up == s.up && s'.down == s.down
    ensures DescribesStrip(s', k, w)
    decreases w
  {
    match w
    case End =>
    case Visit(_, c, sib) =>
      if k in s.down {
        StripFrame(s, s', s.down[k].head, c);
        StripFrame(s, s', s.up[k].next, sib);
      }
  }

  /** Stamping one node and then the rest of the walk in the loop's order writes what
      `Stamps` writes for the whole walk. */
  lemma StampsStep(layer: map<Key, Layer>, w: Walk, d: nat, r: Key)
    requires w.Visit?
    ensures (layer[w.node := Layer(Some(d), r)] + Stamps(w.child, d + 1, r)) + Stamps(w.sibling, d, r)
            == layer + Stamps(w, d, r)
  {
  }

  // ---------------------------------------------------------------------------
  // What insert_tree writes

  /** `insert_tree` writes exactly the visited nodes, each with the given root and a depth
      no smaller than the one it started with. */
  lemma {:induction false} StampsCover(w: Walk, d: nat, r: Key)
    ensures Stamps(w, d, r).Keys == Nodes(w)
    ensures forall n :: n in Stamps(w, d, r) ==>
              Stamps(w, d, r)[n].root == r && Stamps(w, d, r)[n].depth.Some? && Stamps(w, d, r)[n].depth.value >= d
  {
    match w
    case End =>
    case Visit(k, c, sib) =>
      StampsCover(c, d + 1, r);
      StampsCover(sib, d, r);
  }

  /** The parts of a tree-shaped walk are tree-shaped and visit disjoint nodes. */
  lemma TreeShapedParts(w: Walk)
    requires w.Visit? && TreeShaped(w)
    ensures TreeShaped(w.child) && TreeShaped(w.sibling)
    ensures w.node !in Nodes(w.child) && w.node !in Nodes(w.sibling)
    ensures Nodes(w.child) !! Nodes(w.sibling)
  {
    var Visit(k, c, sib) := w;
    var pc, ps := PreOrder(c), PreOrder(sib);
    var pw := PreOrder(w);
    assert pw == [k] + pc + ps;
    PreOrderCoversNodes(c);
    PreOrderCoversNodes(sib);
    forall i, j | 0 <= i < j < |pc| ensures pc[i] != pc[j] {
      assert pw[1 + i] == pc[i] && pw[1 + j] == pc[j];
    }
    forall i, j | 0 <= i < j < |ps| ensures ps[i] != ps[j] {
      assert pw[1 + |pc| + i] == ps[i] && pw[1 + |pc| + j] == ps[j];
    }
    forall i | 0 <= i < |pc| ensures pc[i] != k {
      assert pw[0] == k && pw[1 + i] == pc[i];
    }
    forall i | 0 <= i < |ps| ensures ps[i] != k {
      assert pw[0] == k && pw[1 + |pc| + i] == ps[i];
    }
    forall i, j | 0 <= i < |pc| && 0 <= j < |ps| ensures pc[i] != ps[j] {
      assert pw[1 + i] == pc[i] && pw[1 + |pc| + j] == ps[j];
    }
  }

  /** A tree-shaped walk visits `Size(w)` different nodes. */
  lemma {:induction false} TreeShapedSize(w: Walk)
    requires TreeShaped(w)
    ensures |Nodes(w)| == Size(w)
  {
    match w
    case End =>
    case Visit(k, c, sib) =>
      TreeShapedParts(w);
      TreeShapedSize(c);
      TreeShapedSize(sib);
      assert |Nodes(c) + Nodes(sib)| == |Nodes(c)| + |Nodes(sib)|;
      assert Nodes(w) == {k} + (Nodes(c) + Nodes(sib));
  }

  /** On a tree-shaped walk the starting node keeps the depth it was stamped with. */
  lemma StampsAtStart(w: Walk, d: nat, r: Key)
    requires w.Visit? && TreeShaped(w)
    ensures w.node in Stamps(w, d, r) && Stamps(w, d, r)[w.node] == Layer(Some(d), r)
  {
    TreeShapedParts(w);
    StampsCover(w.child, d + 1, r);
    StampsCover(w.sibling, d, r);
  }

  /** On a tree-shaped walk no write is overridden: the starting node gets depth `d`, the
      head of its children `d + 1`, its next sibling `d` again, and everything below the
      child or the sibling keeps what the walk from there writes. Applied at every visit,
      this says each node ends one level deeper than the node whose child list holds it. */
  lemma StampsLocal(w: Walk, d: nat, r: Key)
    requires w.Visit? && TreeShaped(w)
    ensures TreeShaped(w.child) && TreeShaped(w.sibling)
    ensures Stamps(w, d, r).Keys == Nodes(w)
    ensures Stamps(w.child, d + 1, r).Keys == Nodes(w.child) && Stamps(w.sibling, d, r).Keys == Nodes(w.sibling)
    ensures Stamps(w, d, r)[w.node] == Layer(Some(d), r)
    ensures forall n :: n in Nodes(w.child) ==> Stamps(w, d, r)[n] == Stamps(w.child, d + 1, r)[n]
    ensures forall n :: n in Nodes(w.sibling) ==> Stamps(w, d, r)[n] == Stamps(w.sibling, d, r)[n]
    ensures w.child.Visit? ==> Stamps(w, d, r)[w.child.node] == Layer(Some(d + 1), r)
    ensures w.sibling.Visit? ==> Stamps(w, d, r)[w.sibling.node] == Layer(Some(d), r)
  {
    TreeShapedParts(w);
    StampsCover(w, d, r);
    StampsCover(w.child, d + 1, r);
    StampsCover(w.sibling, d, r);
    StampsAtStart(w, d, r);
    if w.child.Visit? {
      StampsAtStart(w.child, d + 1, r);
    }
    if w.sibling.Visit? {
      StampsAtStart(w.sibling, d, r);
    }
  }

  // ---------------------------------------------------------------------------
  // The walk of remove_tree

  /** Where every visited node has both records the two walks agree; they differ only in
      that `remove_tree` gives up at a node without a Down record. */
  lemma {:induction false} StripAgreesWhereRecorded(s: Store, k: Key, w: Walk)
    requires forall n :: n in Nodes(w) ==> n in s.down && n in s.up
    ensures Describes(s, k, w) <==> DescribesStrip(s, k, w)
    decreases w
  {
    match w
    case End =>
    case Visit(_, c, sib) =>
      StripAgreesWhereRecorded(s, HeadOf(s, k), c);
      StripAgreesWhereRecorded(s, NextOf(s, k), sib);
  }

  /** A first node without a Down record ends `remove_tree` at once: its later siblings keep
      their Layer records, whatever records they hold. */
  lemma StripStopsAtBareNode(s: Store, k: Key, w: Walk)
    requires DescribesStrip(s, k, w) && k != Null && k !in s.down
    ensures Nodes(w) == {k}
  {
  }

  /** Writing `k` before a union and again after it is the same as writing it after. */
  lemma OverwriteTwice<V>(m: map<Key, V>, k: Key, v: V, m2: map<Key, V>)
    ensures (m[k := v] + m2)[k := v] == (m + m2)[k := v]
  {
  }
}
