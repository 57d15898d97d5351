/** The bidirectional search of `insert_child` for the `(prev, next)` pair around an
    ordinal position among a parent's children (src/lib.rs:233-256). */
module Slots {
  import opened Records
  import opened Links

  /** The gap in front of position `k` of `cs`, as a `(prev, next)` pair. */
  function Gap(cs: seq<Key>, k: nat): (Key, Key)
    requires k <= |cs|
  {
    (Before(cs, k), At(cs, k))
  }

  /** Every Up record the forward search reads in `n` steps exists (`unwrap` at src/lib.rs:253). */
  predicate ForwardReady(up: map<Key, Up>, next: Key, n: nat)
    decreases n
  {
    n == 0 || next == Null || (next in up && ForwardReady(up, up[next].next, n - 1))
  }

  /** At most `n` steps forward from the gap `(prev, next)`, stopping early at the null handle
      (src/lib.rs:250-254). */
  function Forward(up: map<Key, Up>, prev: Key, next: Key, n: nat): (Key, Key)
    requires ForwardReady(up, next, n)
    decreases n
  {
    if n == 0 || next == Null then (prev, next) else Forward(up, next, up[next].next, n - 1)
  }

  /** Every Up record the backward search reads in `n` steps exists (`unwrap` at src/lib.rs:243). */
  predicate BackwardReady(up: map<Key, Up>, prev: Key, n: nat)
    decreases n
  {
    n == 0 || prev == Null || (prev in up && BackwardReady(up, up[prev].prev, n - 1))
  }

  /** At most `n` steps backward from the gap `(prev, next)`, stopping early at the null handle
      (src/lib.rs:240-244). */
  function Backward(up: map<Key, Up>, prev: Key, next: Key, n: nat): (Key, Key)
    requires BackwardReady(up, prev, n)
    decreases n
  {
    if n == 0 || prev == Null then (prev, next) else Backward(up, up[prev].prev, prev, n - 1)
  }

  /** The search the parent summary `d` selects for `order` can read what it needs. */
  predicate SlotReady(up: map<Key, Up>, d: Down, order: nat)
  {
    if order >= d.len then true
    else if order + order >= d.len then BackwardReady(up, d.tail, d.len - order)
    else ForwardReady(up, d.head, order)
  }

  /** The `(prev, next)` pair `insert_child` computes: the tail and null past the end, otherwise
      a backward walk from the tail for an order in the back half and a forward walk from
      the head for one in the front half. */
  function Slot(up: map<Key, Up>, d: Down, order: nat): (Key, Key)
    requires SlotReady(up, d, order)
  {
    if order >= d.len then (d.tail, Null)
    else if order + order >= d.len then Backward(up, d.tail, Null, d.len - order)
    else Forward(up, Null, d.head, order)
  }

  /** Walking forward `n` steps along a chain from gap `i` reaches gap `min(i + n, |cs|)`. */
  lemma {:induction false} ForwardAlongChain(up: map<Key, Up>, p: Key, cs: seq<Key>, i: nat, n: nat)
    requires Chain(up, p, cs) && i <= |cs|
    ensures ForwardReady(up, At(cs, i), n)
    ensures Forward(up, Before(cs, i), At(cs, i), n) == Gap(cs, if i + n <= |cs| then i + n else |cs|)
    decreases n
  {
    if n > 0 && i < |cs| {
      assert up[cs[i]] == Up(p, Before(cs, i), At(cs, i + 1));
      ForwardAlongChain(up, p, cs, i + 1, n - 1);
    }
  }

  /** Walking backward `n` steps along a chain from gap `i` reaches gap `max(i - n, 0)`. */
  lemma {:induction false} BackwardAlongChain(up: map<Key, Up>, p: Key, cs: seq<Key>, i: nat, n: nat)
    requires Chain(up, p, cs) && i <= |cs|
    ensures BackwardReady(up, Before(cs, i), n)
    ensures Backward(up, Before(cs, i), At(cs, i), n) == Gap(cs, if i >= n then i - n else 0)
    decreases n
  {
    if n > 0 && i > 0 {
      assert up[cs[i - 1]] == Up(p, Before(cs, i - 1), At(cs, i));
      BackwardAlongChain(up, p, cs, i - 1, n - 1);
    }
  }

  /** For a parent whose records describe the child list `cs`, both search directions find
      the `order`-th child (0-based) as `next` and its predecessor as `prev`; an order at or
      past the end gives `(tail, null)`. */
  lemma SlotFindsOrdinal(up: map<Key, Up>, d: Down, p: Key, cs: seq<Key>, order: nat)
    requires Chain(up, p, cs) && Summarises(d, cs)
    ensures SlotReady(up, d, order)
    ensures Slot(up, d, order) == Gap(cs, if order < |cs| then order else |cs|)
  {
    if order >= |cs| {
    } else if order + order >= |cs| {
      BackwardAlongChain(up, p, cs, |cs|, |cs| - order);
    } else {
      ForwardAlongChain(up, p, cs, 0, order);
    }
  }
}
