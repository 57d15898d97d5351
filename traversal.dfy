/** The two read-only traversals of src/lib.rs: the direct-children iterator
    (src/lib.rs:565-593) and the pre-order iterator over a 32-slot stack (src/lib.rs:595-668),
    with the sequences they yield. */
module Traversal {
  import opened Records
  import opened Links
  import opened Walks

  // ---------------------------------------------------------------------------
  // Direct children

  /** The first `n` handles the children iterator yields from `k`: the handle itself, then
      its `next` link, stopping at the null handle; a node without an Up record ends it. */
  function Trail(s: Store, k: Key, n: nat): seq<Key>
    decreases n
  {
    if n == 0 || k == Null then [] else [k] + Trail(s, NextOf(s, k), n - 1)
  }

  /** Started at the first child of a well-linked parent, the children iterator yields the
      children in order, one per call, and then nothing more. */
  lemma {:induction false} TrailFollowsChain(s: Store, p: Key, cs: seq<Key>, i: nat, n: nat)
    requires Chain(s.up, p, cs) && i <= |cs|
    ensures Trail(s, At(cs, i), n) == cs[i..if i + n <= |cs| then i + n else |cs|]
    decreases n
  {
    if n > 0 && i < |cs| {
      assert s.up[cs[i]] == Up(p, Before(cs, i), At(cs, i + 1));
      TrailFollowsChain(s, p, cs, i + 1, n - 1);
      assert cs[i..if i + n <= |cs| then i + n else |cs|]
          == [cs[i]] + cs[i + 1..if i + 1 + (n - 1) <= |cs| then i + 1 + (n - 1) else |cs|];
    }
  }

  /** `ChildrenIterator` (src/lib.rs:565-593) over a storage that does not change while it
      is borrowed. */
  class ChildrenIterator {
    const storage: Store
    var head: Key
    /** What has been yielded so far. */
    ghost var yielded: seq<Key>

    /** `Tree::iter(head)` and `ChildrenIterator::new` (src/lib.rs:198-200, 571-576). */
    constructor (s: Store, h: Key)
      ensures storage == s && head == h && yielded == []
    {
      storage, head, yielded := s, h, [];
    }

    /** `next()` (src/lib.rs:582-592): nothing at the null handle; otherwise the current
        handle, moving on along its `next` link, or to null without an Up record. Together
        the calls yield `Trail` of the start. */
    method Next() returns (r: Option<Key>)
      modifies this
      ensures old(head) == Null ==> r == None && head == Null && yielded == old(yielded)
      ensures old(head) != Null ==> r == Some(old(head)) && head == NextOf(storage, old(head))
      ensures old(head) != Null ==> yielded == old(yielded) + [old(head)]
      ensures forall n: nat :: yielded + Trail(storage, head, n) == old(yielded) + Trail(storage, old(head), n + 1)
    {
      if head == Null {
        return None;
      }
      r := Some(head);
      yielded := yielded + [head];
      if head in storage.up {
        head := storage.up[head].next;
      } else {
        head := Null;
      }
    }
  }

  // ---------------------------------------------------------------------------
  // Pre-order over a stack

  /** `k` pushed onto the stack unless it is the null handle. */
  function Push(st: seq<Key>, k: Key): seq<Key>
  {
    if k == Null then st else st + [k]
  }

  /** One call of `RecursiveIterator::next` on the stack `st` (top at the end): nothing on
      an empty stack; otherwise the top is popped and yielded after its next sibling and
      then its first child are pushed. */
  function Step(s: Store, st: seq<Key>): (r: (Option<Key>, seq<Key>))
    ensures st == [] <==> r.0 == None
    ensures st != [] ==> r.0 == Some(st[|st| - 1]) && |r.1| <= |st| + 1
  {
    if st == [] then (None, st)
    else
      var top := st[|st| - 1];
      (Some(top), Push(Push(st[..|st| - 1], NextOf(s, top)), HeadOf(s, top)))
  }

  /** What `n` calls yield from the stack `st`, and the stack they leave. */
  function Run(s: Store, st: seq<Key>, n: nat): (seq<Key>, seq<Key>)
    decreases n
  {
    if n == 0 || st == [] then ([], st)
    else
      var rest := Run(s, Step(s, st).1, n - 1);
      ([st[|st| - 1]] + rest.0, rest.1)
  }

  /** Running `a + b` calls is running `a`, then `b` from the stack they leave. */
  lemma {:induction false} RunSplit(s: Store, st: seq<Key>, a: nat, b: nat)
    ensures Run(s, st, a + b).0 == Run(s, st, a).0 + Run(s, Run(s, st, a).1, b).0
    ensures Run(s, st, a + b).1 == Run(s, Run(s, st, a).1, b).1
    decreases a
  {
    if a > 0 && st != [] {
      RunSplit(s, Step(s, st).1, a - 1, b);
      assert a + b - 1 == (a - 1) + b;
    }
  }

  /** From a stack with the walk `w`'s start on top, exactly `Size(w)` calls yield the walk in
      pre-order (each node before its first child, everything below it before its next
      sibling) and leave the stack below untouched. */
  lemma {:induction false} RunIsPreOrder(s: Store, st: seq<Key>, k: Key, w: Walk)
    requires Describes(s, k, w)
    ensures Run(s, Push(st, k), Size(w)).0 == PreOrder(w) && Run(s, Push(st, k), Size(w)).1 == st
    decreases w
  {
    match w
    case End =>
      assert Push(st, k) == st;
    case Visit(_, c, sib) =>
      RunIsPreOrder(s, Push(st, NextOf(s, k)), HeadOf(s, k), c);
      RunIsPreOrder(s, st, NextOf(s, k), sib);
      RunThroughVisit(s, st, k, Size(c), Size(sib), PreOrder(c), PreOrder(sib));
      assert Push(st, k) == st + [k];
  }

  /** If the walk below `k` takes `a` calls and the walk from its next sibling `b` more, a
      stack with `k` on top yields `k`, then both in turn, in `a + b + 1` calls. */
  lemma RunThroughVisit(s: Store, st: seq<Key>, k: Key, a: nat, b: nat, below: seq<Key>, after: seq<Key>)
    requires k != Null
    requires Run(s, Push(Push(st, NextOf(s, k)), HeadOf(s, k)), a).0 == below
    requires Run(s, Push(Push(st, NextOf(s, k)), HeadOf(s, k)), a).1 == Push(st, NextOf(s, k))
    requires Run(s, Push(st, NextOf(s, k)), b).0 == after && Run(s, Push(st, NextOf(s, k)), b).1 == st
    ensures Run(s, st + [k], a + b + 1).0 == [k] + below + after
    ensures Run(s, st + [k], a + b + 1).1 == st
  {
    var st2 := Push(Push(st, NextOf(s, k)), HeadOf(s, k));
    RunSplit(s, st2, a, b);
    var both := Run(s, st2, a + b);
    assert both.0 == below + after && both.1 == st;
    RunAfterVisit(s, st, k, a + b);
    assert [k] + below + after == [k] + both.0;
  }

  /** The first call from a stack with `k` on top yields `k` and leaves its next sibling and
      then its first child on the stack. */
  lemma RunAfterVisit(s: Store, st: seq<Key>, k: Key, n: nat)
    requires k != Null
    ensures var st2 := Push(Push(st, NextOf(s, k)), HeadOf(s, k));
            && Run(s, st + [k], n + 1).0 == [k] + Run(s, st2, n).0
            && Run(s, st + [k], n + 1).1 == Run(s, st2, n).1
  {
    var top := st + [k];
    assert top[|top| - 1] == k && top[..|top| - 1] == st;
  }

  /** `RecursiveIterator` (src/lib.rs:595-668): a stack of at most 32 handles in a fixed
      array, over a storage that does not change while it is borrowed. */
  class RecursiveIterator {
    const storage: Store
    const arr: array<Key>
    var len: nat

    /** The array is the 32-slot stack and `len` stays within it. */
    ghost predicate Valid()
      reads this
    {
      arr.Length == 32 && len <= 32
    }

    /** The live part of the stack, bottom first. */
    ghost function Stack(): seq<Key>
      reads this, arr
      requires Valid()
    {
      arr[..len]
    }

    /** `Tree::recursive_iter(head)` and `RecursiveIterator::new` (src/lib.rs:203-210,
        602-640): the stack holds `head`, or nothing for the null handle. */
    constructor (s: Store, head: Key)
      ensures Valid() && fresh(arr) && storage == s
      ensures Stack() == Push([], head)
    {
      storage := s;
      arr := new Key[32](_ => Null);
      new;
      arr[0] := head;
      len := if head == Null then 0 else 1;
    }

    /** The pushes of the coming call fit in the array (the source indexes it unchecked,
        so an overflow would panic). */
    ghost predicate Fits()
      reads this, arr
      requires Valid()
    {
      len == 0 ||
      len - 1 + (if NextOf(storage, arr[len - 1]) != Null then 1 else 0)
              + (if HeadOf(storage, arr[len - 1]) != Null then 1 else 0) <= 32
    }

    /** `next()` (src/lib.rs:647-668): exactly one `Step` of the stack. */
    method Next() returns (r: Option<Key>)
      requires Valid() && Fits()
      modifies this, arr
      ensures Valid() && r == Step(storage, old(Stack())).0 && Stack() == Step(storage, old(Stack())).1
    {
      if len == 0 {
        assert arr[..len] == [];
        return None;
      }
      ghost var st := arr[..len];
      len := len - 1;
      var head := arr[len];
      assert arr[..len] == st[..|st| - 1];
      if head in storage.up && storage.up[head].next != Null {
        arr[len] := storage.up[head].next;
        len := len + 1;
      }
      assert arr[..len] == Push(st[..|st| - 1], NextOf(storage, head));
      if head in storage.down && storage.down[head].head != Null {
        arr[len] := storage.down[head].head;
        len := len + 1;
      }
      r := Some(head);
    }
  }
}
