// The singly linked container: a chain of nodes reached from `first`, a tail
// pointer `last`, a cursor `curs` that the read-only (`const`) traversal
// operations still update, and a counter `size`.
//
// The ghost sequence `nodes` is the chain as it is reachable from `first`, and
// the ghost sequence `values` what it holds. A pointer that the source would
// leave dangling (to a node that `remove` has unlinked and freed) is, in this
// model, a node that is no longer in `nodes`; every operation that would
// follow such a pointer requires that it does not.

/** One link of the chain: a value and the next node (null at the end). */
class Node<T> {
  var val: T
  var next: Node?<T>

  constructor (val: T, next: Node?<T>)
    ensures this.val == val && this.next == next
  {
    this.val := val;
    this.next := next;
  }
}

/** The node that follows position `i` of a chain: the next one, or null after the last. */
ghost function Successor<T>(ns: seq<Node<T>>, i: nat): Node?<T>
{
  if i + 1 < |ns| then ns[i + 1] else null
}

/**
  * `ns` is the chain that starts at `head`: each node links to the next and
  * the final one to null.
  */
ghost predicate Linked<T>(head: Node?<T>, ns: seq<Node<T>>)
  reads ns`next
{
  head == (if ns == [] then null else ns[0]) &&
  (forall i {:trigger ns[i].next} :: 0 <= i < |ns| ==> ns[i].next == Successor(ns, i))
}

/** The nodes `ns` hold the values `vs`, position by position. */
ghost predicate Holds<T>(ns: seq<Node<T>>, vs: seq<T>)
  reads ns`val
{
  |ns| == |vs| && forall i :: 0 <= i < |ns| ==> ns[i].val == vs[i]
}

/** Two positions of a chain hold different nodes: they differ in how far they are from the null link. */
lemma {:induction false} DistinctAt<T>(head: Node?<T>, ns: seq<Node<T>>, i: nat, j: nat)
  requires Linked(head, ns) && i < j < |ns|
  ensures ns[i] != ns[j]
  decreases |ns| - j
{
  assert ns[i].next == Successor(ns, i) && ns[j].next == Successor(ns, j);
  if j + 1 < |ns| {
    DistinctAt(head, ns, i + 1, j + 1);
  }
}

/** A chain ending in a null link is acyclic: its nodes are distinct. */
lemma LinkedDistinct<T>(head: Node?<T>, ns: seq<Node<T>>)
  requires Linked(head, ns)
  ensures forall i, j :: 0 <= i < j < |ns| ==> ns[i] != ns[j]
{
  forall i, j | 0 <= i < j < |ns|
    ensures ns[i] != ns[j]
  {
    DistinctAt(head, ns, i, j);
  }
}

/**
  * Bypassing the node at `k`: once its predecessor links past it (or, at the
  * head, the new head is its successor), the chain without it is linked.
  */
lemma SpliceLinked<T>(head: Node?<T>, ns: seq<Node<T>>, k: nat)
  requires k < |ns|
  requires forall i :: 0 <= i < |ns| && i + 1 != k ==> ns[i].next == Successor(ns, i)
  requires k > 0 ==> ns[k - 1].next == Successor(ns, k) && head == ns[0]
  requires k == 0 ==> head == Successor(ns, 0)
  ensures Linked(head, ns[..k] + ns[k + 1..])
{
}

/** Deleting position `k` from both the nodes and the values keeps them in step. */
lemma SpliceHolds<T>(ns: seq<Node<T>>, vs: seq<T>, k: nat)
  requires Holds(ns, vs) && k < |ns|
  ensures Holds(ns[..k] + ns[k + 1..], vs[..k] + vs[k + 1..])
{
}

/** A tail pointer that was the final node, or outside the chain, still is after a splice. */
lemma SpliceTail<T>(head: Node?<T>, tail: Node?<T>, ns: seq<Node<T>>, k: nat)
  requires Linked(head, ns) && k < |ns|
  requires tail in ns ==> tail == ns[|ns| - 1]
  ensures var rest := ns[..k] + ns[k + 1..]; tail in rest ==> tail == rest[|rest| - 1]
{
  var rest := ns[..k] + ns[k + 1..];
  if k == |ns| - 1 {
    LinkedDistinct(head, ns);
    assert rest == ns[..k];
  } else {
    assert rest[|rest| - 1] == ns[|ns| - 1];
  }
}

class LinkedList<T(==)> {
  var first: Node?<T>
  var last: Node?<T>
  var curs: Node?<T>
  var size: int
  ghost var nodes: seq<Node<T>>
  ghost var values: seq<T>
  ghost var cursorAt: int

  /** `nodes` is the chain that starts at `first` and holds `values`. */
  ghost predicate Chain()
    reads this`first, this`nodes, this`values, nodes`next, nodes`val
  {
    Linked(first, nodes) && Holds(nodes, values)
  }

  /**
    * What holds in every state the operations can reach: a well-formed chain,
    * a counter that never undercounts it, and a tail pointer that is null,
    * dangling, or the final node.
    */
  ghost predicate Shape()
    reads this`first, this`last, this`size, this`nodes, this`values, nodes`next, nodes`val
  {
    Chain() && |nodes| <= size && (last in nodes ==> last == nodes[|nodes| - 1])
  }

  /** The invariant the design intends: the counter is exact and `last` is the final node. */
  ghost predicate Valid()
    reads this`first, this`last, this`size, this`nodes, this`values, nodes`next, nodes`val
  {
    Chain() && size == |nodes| && last == if nodes == [] then null else nodes[|nodes| - 1]
  }

  /**
    * The cursor does not dangle: it is null, or the node at index `cursorAt`
    * of the chain.
    */
  ghost predicate CursorLive()
    reads this`curs, this`nodes, this`cursorAt
  {
    curs == null || (0 <= cursorAt < |nodes| && curs == nodes[cursorAt])
  }

  /**
    * The index of the value the next call to `Next` returns: `cursorAt` while
    * the cursor is on a node, and the length once it is null, since `next()`
    * then fails however many values the chain holds.
    */
  ghost function Pending(): int
    reads this`curs, this`cursorAt, this`values
  {
    if curs == null then |values| else cursorAt
  }

  /** A fresh list: null head, tail and cursor, and a size of 0. */
  constructor ()
    ensures Valid() && values == []
    ensures first == null && last == null && curs == null && size == 0 && cursorAt == 0
  {
    first, last, curs, size := null, null, null, 0;
    nodes, values, cursorAt := [], [], 0;
  }

  /**
    * Adds `e` after the tail. When the list is not empty this writes through
    * `last`, so `last` must be the final node (not null, as after `Prepend` on
    * an empty list, and not freed, as after `Remove` of the tail).
    */
  method Append(e: T)
    requires Shape()
    requires first != null ==> last in nodes
    modifies this, last
    ensures Shape() && fresh(last) && nodes == old(nodes) + [last]
    ensures values == old(values) + [e]
    ensures size == old(size) + 1 && curs == old(curs) && cursorAt == old(cursorAt)
    ensures old(CursorLive()) ==> CursorLive()
    ensures old(Valid()) ==> Valid()
  {
    LinkedDistinct(first, nodes);
    var n := new Node(e, null);
    if first == null {
      first := n;
      last := n;
    } else {
      last.next := n;
      last := n;
    }
    size := size + 1;
    nodes := nodes + [n];
    values := values + [e];
    forall i | 0 <= i < |nodes|
      ensures nodes[i].next == Successor(nodes, i)
    {
      if i + 1 < |old(nodes)| {
        assert nodes[i] == old(nodes)[i] != old(last) && nodes[i + 1] == old(nodes)[i + 1];
        assert old(nodes[i].next) == Successor(old(nodes), i);
      }
    }
  }

  /**
    * Adds `e` before the head. The tail pointer is left as it was, so on an
    * empty list the design invariant is lost (the new node is not `last`). A
    * cursor on a node stays on it, which is now one further from the head.
    */
  method Prepend(e: T)
    requires Shape()
    modifies this
    ensures Shape() && fresh(first) && nodes == [first] + old(nodes)
    ensures values == [e] + old(values)
    ensures size == old(size) + 1 && last == old(last) && curs == old(curs)
    ensures cursorAt == if old(curs) != null then old(cursorAt) + 1 else old(cursorAt)
    ensures old(CursorLive()) ==> CursorLive()
    ensures old(Valid()) && old(nodes) != [] ==> Valid()
    ensures old(nodes) == [] ==> !Valid()
  {
    var n := new Node(e, first);
    first := n;
    size := size + 1;
    nodes := [n] + nodes;
    values := [e] + values;
    if curs != null {
      cursorAt := cursorAt + 1;
    }
    forall i | 0 <= i < |nodes|
      ensures nodes[i].next == Successor(nodes, i) && nodes[i].val == values[i]
    {
      if i > 0 {
        assert nodes[i] == old(nodes)[i - 1] && values[i] == old(values)[i - 1];
        assert old(nodes[i - 1].next) == Successor(old(nodes), i - 1);
      }
    }
    assert old(nodes) != [] ==> nodes[|nodes| - 1] == old(nodes)[|old(nodes)| - 1];
  }

  /**
    * Reading `operator[](i)`: EmptyContainer when the counter is 0, whatever
    * `i` is; IndexOutOfBounds when `i` is outside [0, size); otherwise the
    * value `i` links from the head. The walk must stay inside the chain, which a
    * stale counter (after `Remove`) does not guarantee.
    */
  method Read(i: int) returns (r: Result<T, T>)
    requires Chain()
    requires 0 <= i < size ==> i < |nodes|
    ensures size == 0 ==> r == Err(EmptyContainer)
    ensures size != 0 && (i < 0 || size <= i) ==> r == Err(IndexOutOfBounds)
    ensures size != 0 && 0 <= i < size ==> r == Ok(values[i])
  {
    if size == 0 {
      return Err(EmptyContainer);
    }
    if i < 0 || size <= i {
      return Err(IndexOutOfBounds);
    }
    var k := 0;
    var elt := first;
    while k < i
      invariant 0 <= k <= i
      invariant elt == nodes[k]
    {
      elt := elt.next;
      k := k + 1;
    }
    return Ok(elt.val);
  }

  /**
    * Writing through the reference `operator[](i)` returns: the same failures
    * as `Read`; on success only element `i` changes, to `v`.
    */
  method Write(i: int, v: T) returns (r: Result<(), T>)
    requires Chain()
    requires 0 <= i < size ==> i < |nodes|
    modifies this`values, nodes`val
    ensures Chain()
    ensures size == 0 ==> r == Err(EmptyContainer)
    ensures size != 0 && (i < 0 || size <= i) ==> r == Err(IndexOutOfBounds)
    ensures r.Ok? <==> size != 0 && 0 <= i < size
    ensures r.Ok? ==> i < |old(values)| && values == old(values)[i := v]
    ensures r.Err? ==> values == old(values)
  {
    if size == 0 {
      return Err(EmptyContainer);
    }
    if i < 0 || size <= i {
      return Err(IndexOutOfBounds);
    }
    var k := 0;
    var elt := first;
    while k < i
      invariant 0 <= k <= i
      invariant elt == nodes[k]
    {
      elt := elt.next;
      k := k + 1;
    }
    LinkedDistinct(first, nodes);
    elt.val := v;
    values := values[i := v];
    return Ok(());
  }

  /**
    * `hasNext()`: the cursor has not run off the chain; a query that changes
    * nothing. On a cursor that does not dangle it holds exactly while values
    * remain to be returned.
    */
  function HasNext(): (b: bool)
    reads this`curs, this`cursorAt, this`first, this`nodes, this`values, nodes`next, nodes`val
    ensures Chain() && CursorLive() ==> (b <==> Pending() < |values|)
  {
    curs != null
  }

  /**
    * `next()`: returns the value under the cursor and advances it. Once the
    * cursor is null it fails, with EmptyContainer if the counter is 0 and
    * IndexOutOfBounds otherwise, whether or not the chain holds values: a
    * cursor that was never set is null as well.
    */
  method Next() returns (r: Result<T, T>)
    requires Chain() && CursorLive()
    modifies this`curs, this`cursorAt
    ensures Chain() && CursorLive()
    ensures old(curs) != null ==> old(cursorAt) < |values| && r == Ok(values[old(cursorAt)]) &&
                                  cursorAt == old(cursorAt) + 1 && Pending() == old(Pending()) + 1
    ensures old(curs) == null ==> curs == null && cursorAt == old(cursorAt) && r == Err(if size == 0 then EmptyContainer else IndexOutOfBounds)
  {
    if curs != null {
      var ret := curs.val;
      curs := curs.next;
      cursorAt := cursorAt + 1;
      return Ok(ret);
    }
    if size == 0 {
      return Err(EmptyContainer);
    }
    return Err(IndexOutOfBounds);
  }

  /** `first()`: puts the cursor on the head and returns its value; EmptyContainer if there is none. */
  method First() returns (r: Result<T, T>)
    requires Chain()
    modifies this`curs, this`cursorAt
    ensures Chain() && curs == first && CursorLive() && cursorAt == 0
    ensures values == [] ==> r == Err(EmptyContainer)
    ensures values != [] ==> r == Ok(values[0])
  {
    curs := first;
    cursorAt := 0;
    if curs != null {
      return Ok(curs.val);
    }
    return Err(EmptyContainer);
  }

  /**
    * `last()`: the value of the tail node, EmptyContainer when the tail pointer
    * is null (which includes a list whose only node was prepended).
    */
  method Last() returns (r: Result<T, T>)
    requires Shape()
    requires last != null ==> last in nodes
    ensures last == null ==> r == Err(EmptyContainer)
    ensures last != null ==> values != [] && r == Ok(values[|values| - 1])
    ensures Valid() ==> (r == if values == [] then Err(EmptyContainer) else Ok(values[|values| - 1]))
  {
    if last == null {
      return Err(EmptyContainer);
    }
    return Ok(last.val);
  }

  /**
    * `remove(e)`: resets the cursor with `first()` (EmptyContainer on an empty
    * chain), then unlinks the first node holding `e`, or fails with
    * ElementNotFound(e). Neither the counter nor the tail pointer is updated,
    * and the cursor dangles exactly when the head was unlinked.
    */
  method Remove(e: T) returns (r: Result<(), T>)
    requires Shape()
    modifies this, nodes
    ensures Shape()
    ensures r == Position(old(values), e).Void()
    ensures values == Removed(old(values), e)
    ensures size == old(size) && last == old(last) && curs == old(first) && cursorAt == 0
    ensures nodes == if e in old(values) then old(nodes[..IndexOf(values, e)] + nodes[IndexOf(values, e) + 1..]) else old(nodes)
    ensures forall k :: 0 <= k < |nodes| ==> nodes[k] in old(nodes)
    ensures CursorLive() <==> r.Err? || old(values)[0] != e
  {
    LinkedDistinct(first, nodes);
    var f := First();
    if f.Err? {
      return Err(f.error);
    }
    var prev, t, k := Locate(e);
    if t == null {
      return Err(ElementNotFound(e));
    }
    Unlink(prev, t, k);
    return Ok(());
  }

  /**
    * The search loop of `remove`: walks from the head until a node holds `e`,
    * keeping the node before it. `t` is null when no node holds `e`.
    */
  method Locate(e: T) returns (prev: Node?<T>, t: Node?<T>, ghost k: nat)
    requires Chain()
    ensures t == null <==> e !in values
    ensures t != null ==> t.val == e && t == nodes[IndexOf(values, e)]
    ensures k == IndexOf(values, e)
    ensures t == if k < |nodes| then nodes[k] else null
    ensures prev == if k == 0 then null else nodes[k - 1]
  {
    prev, t, k := null, first, 0;
    while t != null && t.val != e
      invariant 0 <= k <= |nodes|
      invariant t == if k < |nodes| then nodes[k] else null
      invariant prev == if k == 0 then null else nodes[k - 1]
      invariant forall j :: 0 <= j < k ==> values[j] != e
      decreases |nodes| - k
    {
      prev := t;
      t := t.next;
      k := k + 1;
    }
    IndexOfFirst(values, e, k);
  }

  /**
    * The splice in `remove`: the node `t` at index `k` is bypassed by its
    * predecessor `prev` (by `first` when it is the head).
    */
  method Unlink(prev: Node?<T>, t: Node<T>, ghost k: nat)
    requires Shape() && k < |nodes| && t == nodes[k]
    requires prev == if k == 0 then null else nodes[k - 1]
    modifies this`first, this`nodes, this`values, prev
    ensures Shape()
    ensures nodes == old(nodes[..k] + nodes[k + 1..])
    ensures values == old(values[..k] + values[k + 1..])
  {
    LinkedDistinct(first, nodes);
    SpliceHolds(nodes, values, k);
    SpliceTail(first, last, nodes, k);
    if prev == null {
      first := t.next;
    } else {
      prev.next := t.next;
    }
    nodes := old(nodes[..k] + nodes[k + 1..]);
    values := old(values[..k] + values[k + 1..]);
    SpliceLinked(first, old(nodes), k);
  }
}
