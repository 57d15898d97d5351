/** Reading the record tables, the sibling-link rewrites shared by splice and detach,
    and what it means for a parent's records to describe its list of children. */
module Links {
  import opened Records

  /** `get_down(k)`, substituting the all-null default when the record is missing. */
  function DownOf(s: Store, k: Key): Down
  {
    if k in s.down then s.down[k] else DefaultDown
  }

  /** The first child as the walks read it: `get_down(k).map_or(null, |d| d.head)`. */
  function HeadOf(s: Store, k: Key): Key
  {
    if k in s.down then s.down[k].head else Null
  }

  /** The next sibling as the walks read it: null when the node has no Up record. */
  function NextOf(s: Store, k: Key): Key
  {
    if k in s.up then s.up[k].next else Null
  }

  /** `get_up(k).map_or(null, |u| u.parent)`. */
  function ParentOf(s: Store, k: Key): Key
  {
    if k in s.up then s.up[k].parent else Null
  }

  /** The node currently hangs under some parent. */
  predicate Parented(s: Store, k: Key)
  {
    k in s.up && s.up[k].parent != Null
  }

  /** What attaching (or detaching) `k` adds to (or takes from) every ancestor's count:
      its own surviving count plus one, or one when it has no Down record. */
  function FreshCount(s: Store, k: Key): (c: nat)
    ensures c >= 1
    ensures k in s.down ==> c == s.down[k].count + 1
  {
    if k in s.down then s.down[k].count + 1 else 1
  }

  /** Set the `next` link of `k`, a no-op for the null handle. */
  function SetNext(up: map<Key, Up>, k: Key, v: Key): (r: map<Key, Up>)
    requires k == Null || k in up
    ensures r.Keys == up.Keys
  {
    if k == Null then up else up[k := up[k].(next := v)]
  }

  /** Set the `prev` link of `k`, a no-op for the null handle. */
  function SetPrev(up: map<Key, Up>, k: Key, v: Key): (r: map<Key, Up>)
    requires k == Null || k in up
    ensures r.Keys == up.Keys
  {
    if k == Null then up else up[k := up[k].(prev := v)]
  }

  /** Point `prev` forward and `next` backward at `id` (src/lib.rs:361-370). */
  function Link(up: map<Key, Up>, id: Key, prev: Key, next: Key): (r: map<Key, Up>)
    requires prev == Null || prev in up
    requires next == Null || next in up
    ensures r.Keys == up.Keys
  {
    SetPrev(SetNext(up, prev, id), next, id)
  }

  /** Point `prev` and `next` at each other, closing the gap a node leaves
      (src/lib.rs:373-382 and 511-518). */
  function Unlink(up: map<Key, Up>, prev: Key, next: Key): (r: map<Key, Up>)
    requires prev == Null || prev in up
    requires next == Null || next in up
    ensures r.Keys == up.Keys
  {
    SetPrev(SetNext(up, prev, next), next, prev)
  }

  /** Relinking siblings never changes a parent link. */
  lemma RelinkKeepsParents(up: map<Key, Up>, a: Key, b: Key, x: Key, y: Key)
    requires a == Null || a in up
    requires b == Null || b in up
    ensures forall n :: n in up ==> SetPrev(SetNext(up, a, x), b, y)[n].parent == up[n].parent
  {
  }

  /** The parent's summary after a node is spliced in between `prev` and `next`
      and `c` is added to its count (src/lib.rs:399-408). */
  function Grown(d: Down, id: Key, prev: Key, next: Key, c: nat): Down
  {
    d.(head := if prev == Null then id else d.head,
       tail := if next == Null then id else d.tail,
       len := d.len + 1,
       count := d.count + c)
  }

  /** The parent's summary after the node between `prev` and `next` leaves
      and `c` is taken from its count (src/lib.rs:521-529). */
  function Shrunk(d: Down, prev: Key, next: Key, c: nat): Down
    requires d.len >= 1 && d.count >= c
  {
    d.(head := if prev == Null then next else d.head,
       tail := if next == Null then prev else d.tail,
       len := d.len - 1,
       count := d.count - c)
  }

  // ---------------------------------------------------------------------------
  // Child lists

  function First(cs: seq<Key>): Key
  {
    if cs == [] then Null else cs[0]
  }

  function Last(cs: seq<Key>): Key
  {
    if cs == [] then Null else cs[|cs| - 1]
  }

  /** The node just before gap `k` of `cs` (null at the front). */
  function Before(cs: seq<Key>, k: nat): Key
    requires k <= |cs|
  {
    if k == 0 then Null else cs[k - 1]
  }

  /** The node just after gap `k` of `cs` (null at the back). */
  function At(cs: seq<Key>, k: nat): Key
    requires k <= |cs|
  {
    if k == |cs| then Null else cs[k]
  }

  /** No handle occurs twice. */
  ghost predicate Distinct(cs: seq<Key>)
  {
    forall i, j :: 0 <= i < j < |cs| ==> cs[i] != cs[j]
  }

  /** The sibling chain of `p` is exactly `cs`: distinct non-null nodes whose Up records
      name `p` as parent and link each node to its neighbours in `cs`. */
  ghost predicate Chain(up: map<Key, Up>, p: Key, cs: seq<Key>)
  {
    && (forall i :: 0 <= i < |cs| ==> cs[i] != Null)
    && (forall i {:trigger cs[i] in up} :: 0 <= i < |cs| ==> cs[i] in up)
    && (forall i {:trigger up[cs[i]]} :: 0 <= i < |cs| ==> up[cs[i]] == Up(p, Before(cs, i), At(cs, i + 1)))
    && Distinct(cs)
  }

  /** A Down record summarises `cs`: first, last and number of children. */
  predicate Summarises(d: Down, cs: seq<Key>)
  {
    d.len == |cs| && d.head == First(cs) && d.tail == Last(cs)
  }

  /** `p`'s records describe the child list `cs` (sibling symmetry, edge consistency and
      "len is the number of nodes from head to tail"). */
  ghost predicate ChildList(s: Store, p: Key, cs: seq<Key>)
  {
    p != Null && Summarises(DownOf(s, p), cs) && Chain(s.up, p, cs)
  }

  lemma InsertKeepsDistinct(cs: seq<Key>, k: nat, x: Key)
    requires Distinct(cs) && k <= |cs| && x !in cs
    ensures Distinct(cs[..k] + [x] + cs[k..])
  {
    var cs' := cs[..k] + [x] + cs[k..];
    forall i, j | 0 <= i < j < |cs'| ensures cs'[i] != cs'[j] {
      var i0 := if i < k then i else i - 1;
      var j0 := if j < k then j else j - 1;
      if i != k && j != k {
        assert cs'[i] == cs[i0] && cs'[j] == cs[j0] && i0 < j0;
      } else if i == k {
        assert cs'[j] == cs[j0];
      } else {
        assert cs'[i] == cs[i0];
      }
    }
  }

  lemma DeleteKeepsDistinct(cs: seq<Key>, k: nat)
    requires Distinct(cs) && k < |cs|
    ensures Distinct(cs[..k] + cs[k + 1..])
  {
    var cs' := cs[..k] + cs[k + 1..];
    forall i, j | 0 <= i < j < |cs'| ensures cs'[i] != cs'[j] {
      var i0 := if i < k then i else i + 1;
      var j0 := if j < k then j else j + 1;
      assert cs'[i] == cs[i0] && cs'[j] == cs[j0] && i0 < j0;
    }
  }

  /** One position of the chain after a splice into gap `k` (helper of `LinkExtendsChain`). */
  lemma LinkExtendsChainAt(up: map<Key, Up>, p: Key, cs: seq<Key>, k: nat, id: Key, i: nat)
    requires Chain(up, p, cs) && k <= |cs| && i <= |cs|
    requires id != Null && id !in cs
    ensures Before(cs, k) == Null || Before(cs, k) in up
    ensures At(cs, k) == Null || At(cs, k) in up
    ensures var cs' := cs[..k] + [id] + cs[k..];
            var up' := Link(up[id := Up(p, Before(cs, k), At(cs, k))], id, Before(cs, k), At(cs, k));
            cs'[i] != Null && cs'[i] in up' && up'[cs'[i]] == Up(p, Before(cs', i), At(cs', i + 1))
  {
    var prev, next := Before(cs, k), At(cs, k);
    var cs' := cs[..k] + [id] + cs[k..];
    assert |cs'| == |cs| + 1;
    if i < k {
      assert cs'[i] == cs[i] && cs[i] != next && cs[i] != id;
      assert Before(cs', i) == Before(cs, i);
      if i + 1 < k {
        assert cs[i] != prev;
        assert At(cs', i + 1) == At(cs, i + 1);
      } else {
        assert cs[i] == prev && At(cs', i + 1) == id;
      }
    } else if i == k {
      assert cs'[i] == id;
      assert Before(cs', i) == prev && At(cs', i + 1) == next;
    } else {
      assert cs'[i] == cs[i - 1] && cs[i - 1] != prev && cs[i - 1] != id;
      assert At(cs', i + 1) == At(cs, i);
      if i == k + 1 {
        assert cs[i - 1] == next && Before(cs', i) == id;
      } else {
        assert cs[i - 1] != next;
        assert Before(cs', i) == Before(cs, i - 1);
      }
    }
  }

  /** Splicing a node that is in no list into gap `k` of a chain yields the chain with the
      node inserted at position `k`. */
  lemma LinkExtendsChain(up: map<Key, Up>, p: Key, cs: seq<Key>, k: nat, id: Key)
    requires Chain(up, p, cs) && k <= |cs|
    requires id != Null && id !in cs
    ensures Before(cs, k) == Null || Before(cs, k) in up
    ensures At(cs, k) == Null || At(cs, k) in up
    ensures Chain(Link(up[id := Up(p, Before(cs, k), At(cs, k))], id, Before(cs, k), At(cs, k)), p, cs[..k] + [id] + cs[k..])
  {
    var cs' := cs[..k] + [id] + cs[k..];
    var up' := Link(up[id := Up(p, Before(cs, k), At(cs, k))], id, Before(cs, k), At(cs, k));
    forall i | 0 <= i < |cs'|
      ensures cs'[i] != Null && cs'[i] in up' && up'[cs'[i]] == Up(p, Before(cs', i), At(cs', i + 1))
    {
      LinkExtendsChainAt(up, p, cs, k, id, i);
    }
    InsertKeepsDistinct(cs, k, id);
  }

  /** The Up record of a node left of the leaving node `cs[k]` (helper of `UnlinkShortensChain`). */
  lemma UnlinkLeftOf(up: map<Key, Up>, p: Key, cs: seq<Key>, k: nat, i: nat)
    requires Chain(up, p, cs) && i < k < |cs|
    ensures Before(cs, k) == Null || Before(cs, k) in up
    ensures At(cs, k + 1) == Null || At(cs, k + 1) in up
    ensures var up1 := Unlink(up, Before(cs, k), At(cs, k + 1));
            cs[i] in up1 && up1[cs[i]] == Up(p, Before(cs, i), if i + 1 < k then cs[i + 1] else At(cs, k + 1))
  {
    assert cs[i] != At(cs, k + 1) && up[cs[i]] == Up(p, Before(cs, i), At(cs, i + 1));
    if i + 1 < k {
      assert cs[i] != cs[k - 1];
    }
  }

  /** The Up record of a node right of the leaving node `cs[k]` (helper of `UnlinkShortensChain`). */
  lemma UnlinkRightOf(up: map<Key, Up>, p: Key, cs: seq<Key>, k: nat, i: nat)
    requires Chain(up, p, cs) && k < i < |cs|
    ensures Before(cs, k) == Null || Before(cs, k) in up
    ensures At(cs, k + 1) == Null || At(cs, k + 1) in up
    ensures var up1 := Unlink(up, Before(cs, k), At(cs, k + 1));
            cs[i] in up1 && up1[cs[i]] == Up(p, if i == k + 1 then Before(cs, k) else cs[i - 1], At(cs, i + 1))
  {
    assert cs[i] != Before(cs, k) && up[cs[i]] == Up(p, Before(cs, i), At(cs, i + 1));
    if i > k + 1 {
      assert cs[i] != cs[k + 1];
    }
  }

  /** Closing the gap left by the node at position `k` yields the chain without it. */
  lemma UnlinkShortensChain(up: map<Key, Up>, p: Key, cs: seq<Key>, k: nat)
    requires Chain(up, p, cs) && k < |cs|
    ensures Before(cs, k) == Null || Before(cs, k) in up
    ensures At(cs, k + 1) == Null || At(cs, k + 1) in up
    ensures Chain(Unlink(up, Before(cs, k), At(cs, k + 1)) - {cs[k]}, p, cs[..k] + cs[k + 1..])
  {
    var cs' := cs[..k] + cs[k + 1..];
    var up1 := Unlink(up, Before(cs, k), At(cs, k + 1));
    var up' := up1 - {cs[k]};
    forall i | 0 <= i < |cs'|
      ensures cs'[i] != Null && cs'[i] in up'
    {
      var j := if i < k then i else i + 1;
      assert cs'[i] == cs[j] && cs[j] != cs[k];
    }
    forall i | 0 <= i < |cs'|
      ensures up'[cs'[i]] == Up(p, Before(cs', i), At(cs', i + 1))
    {
      if i < k {
        assert cs'[i] == cs[i] && cs[i] != cs[k];
        UnlinkLeftOf(up, p, cs, k, i);
        assert Before(cs', i) == Before(cs, i);
        if i + 1 < k {
          assert At(cs', i + 1) == cs[i + 1];
        } else {
          assert At(cs', i + 1) == At(cs, k + 1);
        }
      } else {
        assert cs'[i] == cs[i + 1] && cs[i + 1] != cs[k];
        UnlinkRightOf(up, p, cs, k, i + 1);
        assert At(cs', i + 1) == At(cs, i + 2);
        if i == k {
          assert Before(cs', i) == Before(cs, k);
        } else {
          assert Before(cs', i) == cs[i];
        }
      }
    }
    DeleteKeepsDistinct(cs, k);
  }

  /** Splicing into `p`'s chain leaves the chain of every other parent as it was. */
  lemma LinkSparesOtherChain(up: map<Key, Up>, p: Key, cs: seq<Key>, k: nat, id: Key, q: Key, ds: seq<Key>)
    requires Chain(up, p, cs) && k <= |cs| && Chain(up, q, ds)
    requires q != p && id !in ds
    ensures Before(cs, k) == Null || Before(cs, k) in up
    ensures At(cs, k) == Null || At(cs, k) in up
    ensures Chain(Link(up[id := Up(p, Before(cs, k), At(cs, k))], id, Before(cs, k), At(cs, k)), q, ds)
  {
    var prev, next := Before(cs, k), At(cs, k);
    assert prev != Null ==> up[prev].parent == p by {
      if prev != Null { assert prev == cs[k - 1]; }
    }
    assert next != Null ==> up[next].parent == p by {
      if next != Null { assert next == cs[k]; }
    }
  }

  /** Detaching from `p`'s chain leaves the chain of every other parent as it was. */
  lemma UnlinkSparesOtherChain(up: map<Key, Up>, p: Key, cs: seq<Key>, k: nat, q: Key, ds: seq<Key>)
    requires Chain(up, p, cs) && k < |cs| && Chain(up, q, ds) && q != p
    ensures Before(cs, k) == Null || Before(cs, k) in up
    ensures At(cs, k + 1) == Null || At(cs, k + 1) in up
    ensures Chain(Unlink(up, Before(cs, k), At(cs, k + 1)) - {cs[k]}, q, ds)
  {
    var prev, next := Before(cs, k), At(cs, k + 1);
    assert up[cs[k]].parent == p;
    assert prev != Null ==> up[prev].parent == p by {
      if prev != Null { assert prev == cs[k - 1]; }
    }
    assert next != Null ==> up[next].parent == p by {
      if next != Null { assert next == cs[k + 1]; }
    }
  }

  /** The parent's summary follows the list through an attach at gap `k`. */
  lemma GrownSummarises(d: Down, cs: seq<Key>, k: nat, id: Key, c: nat)
    requires Summarises(d, cs) && k <= |cs| && Null !in cs
    ensures Summarises(Grown(d, id, Before(cs, k), At(cs, k), c), cs[..k] + [id] + cs[k..])
    ensures Grown(d, id, Before(cs, k), At(cs, k), c).count == d.count + c
  {
    var cs' := cs[..k] + [id] + cs[k..];
    assert cs'[k] == id;
    if k > 0 { assert cs'[0] == cs[0]; }
    if k < |cs| { assert cs'[|cs'| - 1] == cs[|cs| - 1]; }
  }

  /** The parent's summary follows the list through a detach of position `k`. */
  lemma ShrunkSummarises(d: Down, cs: seq<Key>, k: nat, c: nat)
    requires Summarises(d, cs) && k < |cs| && d.count >= c && Null !in cs
    ensures Summarises(Shrunk(d, Before(cs, k), At(cs, k + 1), c), cs[..k] + cs[k + 1..])
    ensures Shrunk(d, Before(cs, k), At(cs, k + 1), c).count == d.count - c
  {
    var cs' := cs[..k] + cs[k + 1..];
    if cs' != [] {
      if k > 0 { assert cs'[0] == cs[0]; } else { assert cs'[0] == cs[1]; }
      if k + 1 < |cs| { assert cs'[|cs'| - 1] == cs[|cs| - 1]; } else { assert cs'[|cs'| - 1] == cs[k - 1]; }
    }
  }

  /** Detaching the node at position `k` and splicing it back into the gap it left restores
      every Up record and the parent's summary exactly. */
  lemma {:induction false} RelinkRestores(up: map<Key, Up>, d: Down, p: Key, cs: seq<Key>, k: nat, c: nat)
    requires Chain(up, p, cs) && Summarises(d, cs) && k < |cs| && d.count >= c
    ensures Before(cs, k) == Null || Before(cs, k) in up
    ensures At(cs, k + 1) == Null || At(cs, k + 1) in up
    ensures var up' := Unlink(up, Before(cs, k), At(cs, k + 1)) - {cs[k]};
            Link(up'[cs[k] := Up(p, Before(cs, k), At(cs, k + 1))], cs[k], Before(cs, k), At(cs, k + 1)) == up
    ensures Grown(Shrunk(d, Before(cs, k), At(cs, k + 1), c), cs[k], Before(cs, k), At(cs, k + 1), c) == d
  {
    var id, prev, next := cs[k], Before(cs, k), At(cs, k + 1);
    var up' := Unlink(up, prev, next) - {id};
    var back := Link(up'[id := Up(p, prev, next)], id, prev, next);
    assert prev != Null ==> prev != id && up[prev].next == id by {
      if prev != Null { assert prev == cs[k - 1]; }
    }
    assert next != Null ==> next != id && up[next].prev == id by {
      if next != Null { assert next == cs[k + 1]; }
    }
    assert back.Keys == up.Keys;
    forall x | x in up ensures back[x] == up[x] {
    }
  }
}
