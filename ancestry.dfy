/** The upward walk of `modify_count` (src/lib.rs:496-507): which nodes it visits and what
    it does to their aggregate counts. */
module Ancestry {
  import opened Records
  import opened Links

  /** `path` is exactly the sequence of nodes the upward walk from `start` visits: it stops
      at the null handle, and after a node without Up record or with a null parent.
      Every visited node must carry a Down record (`down_mut` unwraps it). A finite `path`
      is the witness that the walk terminates. */
  ghost predicate Climb(s: Store, start: Key, path: seq<Key>)
    decreases |path|
  {
    if start == Null then path == []
    else path != [] && path[0] == start && start in s.down && Climb(s, ParentOf(s, start), path[1..])
  }

  /** `down` after one step of `modify_count` at `k`: `delta` added to its count. */
  function Bump(down: map<Key, Down>, k: Key, delta: int): map<Key, Down>
    requires k in down ==> down[k].count + delta >= 0
  {
    if k in down then down[k := down[k].(count := down[k].count + delta)] else down
  }

  /** Every step of `modify_count` along `path` leaves a count that is not negative: the
      `usize` arithmetic at src/lib.rs:499-500 does not wrap. */
  ghost predicate CanBump(down: map<Key, Down>, path: seq<Key>, delta: int)
    decreases |path|, 0
  {
    path == [] ||
    (CanBump(down, path[..|path| - 1], delta) &&
     var d := Bumped(down, path[..|path| - 1], delta);
     var k := path[|path| - 1];
     k in d ==> d[k].count + delta >= 0)
  }

  /** The Down table after `modify_count` has added `delta` at every node of `path`, one
      node after the other. */
  ghost function Bumped(down: map<Key, Down>, path: seq<Key>, delta: int): map<Key, Down>
    requires CanBump(down, path, delta)
    decreases |path|, 1
  {
    if path == [] then down
    else Bump(Bumped(down, path[..|path| - 1], delta), path[|path| - 1], delta)
  }

  /** The walk from a given node is unique. */
  lemma {:induction false} ClimbUnique(s: Store, start: Key, p1: seq<Key>, p2: seq<Key>)
    requires Climb(s, start, p1) && Climb(s, start, p2)
    ensures p1 == p2
    decreases |p1|
  {
    if start != Null {
      ClimbUnique(s, ParentOf(s, start), p1[1..], p2[1..]);
      assert p1 == [start] + p1[1..] && p2 == [start] + p2[1..];
    }
  }

  /** Every suffix of a walk is the walk from its first node. */
  lemma {:induction false} ClimbSuffix(s: Store, start: Key, path: seq<Key>, i: nat)
    requires Climb(s, start, path) && i < |path|
    ensures path[i] != Null && Climb(s, path[i], path[i..])
    decreases i
  {
    if i > 0 {
      ClimbSuffix(s, ParentOf(s, start), path[1..], i - 1);
      assert path[1..][i - 1..] == path[i..];
    }
  }

  /** The upward walk never visits a node twice: a repeated node would make the walk
      cycle forever, yet `path` ends at a node without a parent. */
  lemma ClimbDistinct(s: Store, start: Key, path: seq<Key>)
    requires Climb(s, start, path)
    ensures Distinct(path)
  {
    forall i, j | 0 <= i < j < |path| ensures path[i] != path[j] {
      ClimbSuffix(s, start, path, i);
      ClimbSuffix(s, start, path, j);
      if path[i] == path[j] {
        ClimbUnique(s, path[i], path[i..], path[j..]);
        assert false;
      }
    }
  }

  /** Each node of a walk has the next node of the walk as its parent, the last one null. */
  lemma {:induction false} ClimbStep(s: Store, start: Key, path: seq<Key>, i: nat)
    requires Climb(s, start, path) && i < |path|
    ensures ParentOf(s, path[i]) == At(path, i + 1)
    decreases i
  {
    if i == 0 {
      if |path| > 1 {
        assert path[1..][0] == path[1];
      }
    } else {
      ClimbStep(s, ParentOf(s, start), path[1..], i - 1);
    }
  }

  /** The ancestors of `parent` do not include `parent` itself: the walk never comes back. */
  lemma ClimbAvoidsStart(s: Store, parent: Key, path: seq<Key>)
    requires Climb(s, ParentOf(s, parent), path) && parent != Null
    ensures parent !in path
  {
    forall i | 0 <= i < |path| ensures path[i] != parent {
      ClimbSuffix(s, ParentOf(s, parent), path, i);
      if path[i] == parent {
        assert Climb(s, parent, [parent] + path) by {
          assert ([parent] + path)[1..] == path;
        }
        ClimbUnique(s, parent, [parent] + path, path[i..]);
        assert false;
      }
    }
  }

  /** The ancestors of `parent` include neither `parent` itself nor any child `x` of it:
      this is why splicing or detaching `x` cannot disturb the walk above `parent`. */
  lemma ClimbAvoidsChild(s: Store, parent: Key, x: Key, path: seq<Key>)
    requires Climb(s, ParentOf(s, parent), path)
    requires parent != Null && ParentOf(s, x) == parent
    ensures parent !in path && x !in path
  {
    ClimbAvoidsStart(s, parent, path);
    forall i | 0 <= i < |path| ensures path[i] != x {
      ClimbStep(s, ParentOf(s, parent), path, i);
    }
  }

  /** Every node of a walk is a real node with a Down record. */
  lemma {:induction false} ClimbInDown(s: Store, start: Key, path: seq<Key>)
    requires Climb(s, start, path)
    ensures forall k :: k in path ==> k != Null && k in s.down
    decreases |path|
  {
    if start != Null {
      ClimbInDown(s, ParentOf(s, start), path[1..]);
      assert path == [start] + path[1..];
    }
  }

  /** The walk only reads parent links and the presence of Down records on the path. */
  lemma {:induction false} ClimbFrame(s: Store, s': Store, start: Key, path: seq<Key>)
    requires Climb(s, start, path)
    requires forall k :: k in path ==> k in s'.down && ParentOf(s', k) == ParentOf(s, k)
    ensures Climb(s', start, path)
    decreases |path|
  {
    if start != Null {
      assert path[0] in path;
      forall k | k in path[1..] ensures k in path {
      }
      ClimbFrame(s, s', ParentOf(s, start), path[1..]);
    }
  }

  /** Bumping changes counts only: the same nodes keep the same heads, tails and lengths. */
  lemma {:induction false} BumpedFrame(down: map<Key, Down>, path: seq<Key>, delta: int)
    requires CanBump(down, path, delta)
    ensures Bumped(down, path, delta).Keys == down.Keys
    ensures forall k :: k in down ==> Bumped(down, path, delta)[k] == down[k].(count := Bumped(down, path, delta)[k].count)
    decreases |path|
  {
    if path != [] {
      BumpedFrame(down, path[..|path| - 1], delta);
    }
  }

  /** Along a path without repetitions, bumping is possible exactly when every count on the
      path can absorb `delta`, and it adds `delta` to exactly the counts of the nodes on the
      path. */
  lemma {:induction false} BumpedCounts(down: map<Key, Down>, path: seq<Key>, delta: int)
    requires Distinct(path)
    ensures CanBump(down, path, delta) <==> forall k :: k in path && k in down ==> down[k].count + delta >= 0
    ensures CanBump(down, path, delta) ==>
              && Bumped(down, path, delta).Keys == down.Keys
              && forall k :: k in down ==> Bumped(down, path, delta)[k].count == down[k].count + (if k in path then delta else 0)
    decreases |path|
  {
    if path != [] {
      var pre := path[..|path| - 1];
      var x := path[|path| - 1];
      assert path == pre + [x];
      assert Distinct(pre) by {
        forall i, j | 0 <= i < j < |pre| ensures pre[i] != pre[j] {
          assert pre[i] == path[i] && pre[j] == path[j];
        }
      }
      assert x !in pre by {
        forall i | 0 <= i < |pre| ensures pre[i] != x {
          assert pre[i] == path[i];
        }
      }
      BumpedCounts(down, pre, delta);
      if CanBump(down, pre, delta) {
        BumpedFrame(down, pre, delta);
      }
      if CanBump(down, path, delta) {
        BumpedFrame(down, path, delta);
      }
    }
  }

  /** If the whole walk can be bumped, so can each of its prefixes. */
  lemma {:induction false} CanBumpPrefix(down: map<Key, Down>, path: seq<Key>, delta: int, i: nat)
    requires CanBump(down, path, delta) && i <= |path|
    ensures CanBump(down, path[..i], delta)
    decreases |path| - i
  {
    if i < |path| {
      var pre := path[..|path| - 1];
      assert pre[..i] == path[..i];
      CanBumpPrefix(down, pre, delta, i);
    } else {
      assert path[..i] == path;
    }
  }

  /** Any walk can absorb a non-negative `delta`. */
  lemma {:induction false} BumpUpwards(down: map<Key, Down>, path: seq<Key>, delta: int)
    requires delta >= 0
    ensures CanBump(down, path, delta)
    decreases |path|
  {
    if path != [] {
      BumpUpwards(down, path[..|path| - 1], delta);
    }
  }

  /** Bumping a walk that avoids `p` commutes with overwriting `p`'s record. */
  lemma {:induction false} BumpedOff(down: map<Key, Down>, path: seq<Key>, delta: int, p: Key, x: Down)
    requires p !in path
    ensures CanBump(down[p := x], path, delta) <==> CanBump(down, path, delta)
    ensures CanBump(down, path, delta) ==> Bumped(down[p := x], path, delta) == Bumped(down, path, delta)[p := x]
    decreases |path|
  {
    if path != [] {
      var pre := path[..|path| - 1];
      assert p !in pre by {
        forall i | 0 <= i < |pre| ensures pre[i] != p {
          assert pre[i] == path[i];
        }
      }
      BumpedOff(down, pre, delta, p, x);
    }
  }

  /** Adding nothing along a walk changes nothing (a move within the same parent). */
  lemma BumpedZero(down: map<Key, Down>, path: seq<Key>)
    requires Distinct(path)
    ensures CanBump(down, path, 0) && Bumped(down, path, 0) == down
  {
    BumpedCounts(down, path, 0);
    BumpedFrame(down, path, 0);
  }

  /** Taking `c` from every count on a walk and adding it back restores the table. */
  lemma BumpedRoundTrip(down: map<Key, Down>, path: seq<Key>, c: nat)
    requires Distinct(path) && CanBump(down, path, -(c as int))
    ensures CanBump(Bumped(down, path, -(c as int)), path, c)
    ensures Bumped(Bumped(down, path, -(c as int)), path, c) == down
  {
    var mid := Bumped(down, path, -(c as int));
    BumpedCounts(down, path, -(c as int));
    BumpedFrame(down, path, -(c as int));
    BumpedCounts(mid, path, c);
    BumpedFrame(mid, path, c);
    var back := Bumped(mid, path, c);
    forall k | k in down ensures back[k] == down[k] {
    }
  }
}
