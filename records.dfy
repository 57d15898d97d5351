/** The relationship records of the hierarchy engine and the keyed tables that hold them. */
module Records {

  /** An opaque node handle minted outside the engine; `Null` is the distinguished "absent" handle. */
  datatype Key = Null | Id(slot: nat)

  datatype Option<T> = None | Some(value: T)

  /** A node's place in its parent's sibling chain. */
  datatype Up = Up(parent: Key, prev: Key, next: Key)

  /** A node's child-list summary: first and last direct child, number of direct children
      and the aggregate count that insertions and removals propagate upward. */
  datatype Down = Down(head: Key, tail: Key, len: nat, count: nat)

  /** A node's depth (`None` stands for the null depth of a node outside any rooted tree)
      and the handle of the root of its tree. */
  datatype Layer = Layer(depth: Option<nat>, root: Key)

  const DefaultUp: Up := Up(Null, Null, Null)
  const DefaultDown: Down := Down(Null, Null, 0, 0)
  const DefaultLayer: Layer := Layer(None, Null)

  /** The summary `insert_child` reads for a parent without a Down record: empty, count 1
      (only its length, head and tail are ever read). */
  const DefaultChildren: Down := Down(Null, Null, 0, 1)

  /** The three record tables, keyed by handle. */
  datatype Store = Store(up: map<Key, Up>, down: map<Key, Down>, layer: map<Key, Layer>)

  /** Where `insert_brother` puts the new node: before (`Front`) or after (`Back`) the brother. */
  datatype Side = Front | Back

  /** The fatal conditions, raised before any record is written. */
  datatype Fault = ParentMismatch | InvalidBrother

  /** How an operation ended: `Refused` is the logged, change-free failure of root creation. */
  datatype Outcome = Done | Refused | Fatal(fault: Fault)
}
