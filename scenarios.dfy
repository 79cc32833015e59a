// Scenarios on fresh containers: the demonstration driver's sequence of calls
// on each implementation, and the edge cases where the linked list leaves its
// own invariant behind.

/** The contents after `append(i); prepend(-i)` for i = 1..n: -n, ..., -1, 1, ..., n. */
function Demo(n: nat): seq<int>
{
  seq(n, k => k - n) + seq(n, k => k + 1)
}

/** One more round of the driver's loop puts `-(n+1)` in front and `n+1` at the back. */
lemma DemoStep(n: nat)
  ensures Demo(n + 1) == [-(n + 1)] + (Demo(n) + [n + 1])
{
}

/** After the driver's write `(*v)[0] = 77`, 2 sits at index 10 and 12 is absent. */
lemma DemoSearch()
  ensures |Demo(9)[0 := 77]| == 18 && Demo(9)[0 := 77][17] == 9
  ensures Position(Demo(9)[0 := 77], 2) == Ok(10)
  ensures Position(Demo(9)[0 := 77], 12) == Err(ElementNotFound(12))
{
  var s := Demo(9)[0 := 77];
  assert s[10] == 2;
  assert forall j :: 0 <= j < 10 ==> s[j] != 2;
  IndexOfFirst(s, 2, 10);
  assert forall j :: 0 <= j < |s| ==> s[j] != 12;
  IndexOfFirst(s, 12, |s|);
}

/** Removing 5 from the written demo contents leaves 13 still absent. */
lemma DemoRemoval()
  ensures 5 in Demo(9)[0 := 77]
  ensures 13 !in Removed(Demo(9)[0 := 77], 5)
  ensures Position(Removed(Demo(9)[0 := 77], 5), 13) == Err(ElementNotFound(13))
{
  var s := Demo(9)[0 := 77];
  assert s[13] == 5;
  RemovedMultiset(s, 5);
  assert forall j :: 0 <= j < |s| ==> s[j] != 13;
  assert 13 !in multiset(s);
}

/**
  * The driver's loop on a fresh Vector: nine rounds of `append(i); prepend(-i)`.
  * The second cluster is added by the growth check inside `offset`, on the
  * fifth prepend, so 18 live elements end up in 20 slots.
  */
method BuildVectorDemo() returns (v: Vector<int>)
  ensures fresh(v) && fresh(v.tab) && v.Valid() && v.elems == Demo(9)
  ensures v.filled == 18 && v.capacity == 20
{
  v := new Vector<int>();
  var i := 1;
  while i < 10
    invariant 1 <= i <= 10
    invariant fresh(v) && fresh(v.tab) && v.Valid() && v.elems == Demo(i - 1)
    invariant v.capacity == if i <= 5 then 10 else 20
  {
    v.Append(i);
    v.Prepend(-i);
    DemoStep(i - 1);
    i := i + 1;
  }
}

/**
  * The same loop on a fresh LinkedList. The list stays valid throughout,
  * since every round appends before it prepends.
  */
method BuildLinkedListDemo() returns (l: LinkedList<int>)
  ensures fresh(l) && l.Valid() && l.values == Demo(9) && l.size == 18
  ensures forall k :: 0 <= k < |l.nodes| ==> fresh(l.nodes[k])
{
  l := new LinkedList<int>();
  var i := 1;
  while i < 10
    invariant 1 <= i <= 10
    invariant fresh(l) && l.Valid() && l.values == Demo(i - 1)
    invariant forall k :: 0 <= k < |l.nodes| ==> fresh(l.nodes[k])
  {
    l.Append(i);
    l.Prepend(-i);
    DemoStep(i - 1);
    i := i + 1;
  }
}

/**
  * `pos(2)` and `pos(12)` after the driver's write, on either implementation:
  * 2 is found at index 10, 12 is not found. Only the cursor moves.
  */
method DemoSearches(c: AnyList<int>) returns (pos2: Result<int, int>, pos12: Result<int, int>)
  requires c.Intact() && c.View().items == Demo(9)[0 := 77]
  modifies c.Lists()`curs, c.Lists()`cursorAt, c.Vectors()`cursor
  ensures pos2 == Ok(10) && pos12 == Err(ElementNotFound(12))
  ensures c.View().ready && c.View().items == old(c.View().items)
{
  DemoSearch();
  pos2 := Pos(c, 2);
  pos12 := Pos(c, 12);
}

/** The read `(*v)[128]` is out of range; `last()` is 9. Neither changes anything. */
method VectorLookups(v: Vector<int>) returns (at128: Result<int, int>, tail: Result<int, int>)
  requires v.Valid() && v.elems == Demo(9)[0 := 77]
  ensures at128 == Err(IndexOutOfBounds) && tail == Ok(9)
{
  DemoSearch();
  at128 := v.Read(128);
  tail := v.Last();
}

/** The same two lookups on the linked list. */
method LinkedLookups(l: LinkedList<int>) returns (at128: Result<int, int>, tail: Result<int, int>)
  requires l.Valid() && l.values == Demo(9)[0 := 77]
  ensures at128 == Err(IndexOutOfBounds) && tail == Ok(9)
{
  DemoSearch();
  at128 := l.Read(128);
  tail := l.Last();
}

/**
  * The driver's queries on the built Vector: the write `(*v)[0] = 77`,
  * `pos(2)`, `pos(12)`, the read `(*v)[128]` and `last()`.
  */
method VectorQueries(v: Vector<int>) returns (pos2: Result<int, int>, pos12: Result<int, int>,
                                             at128: Result<int, int>, tail: Result<int, int>)
  requires v.Valid() && v.elems == Demo(9)
  modifies v`cursor, v`elems, v.tab
  ensures pos2 == Ok(10) && pos12 == Err(ElementNotFound(12))
  ensures at128 == Err(IndexOutOfBounds) && tail == Ok(9)
  ensures v.Valid() && v.elems == Demo(9)[0 := 77]
{
  DemoSearch();
  var w := v.Write(0, 77);
  pos2, pos12 := DemoSearches(VectorOf(v));
  at128, tail := VectorLookups(v);
}

/** The driver's two removals on the Vector: 5 is taken out, 13 is not there. */
method VectorRemovals(v: Vector<int>) returns (rem5: Result<(), int>, rem13: Result<(), int>)
  requires v.Valid() && v.elems == Demo(9)[0 := 77]
  modifies v`cursor, v`filled, v`elems, v.tab
  ensures rem5 == Ok(()) && rem13 == Err(ElementNotFound(13))
  ensures v.Valid() && v.elems == Removed(old(v.elems), 5)
{
  DemoRemoval();
  rem5 := v.Remove(5);
  rem13 := v.Remove(13);
}

/**
  * The driver's run on a Vector: the build loop, then a write, two searches,
  * an out-of-range read, `last()` and two removals, the second of which fails.
  */
method VectorDemo() returns (filled: int, capacity: int, pos2: Result<int, int>, pos12: Result<int, int>,
                             at128: Result<int, int>, tail: Result<int, int>, rem5: Result<(), int>, rem13: Result<(), int>)
  ensures filled == 18 && capacity == 20
  ensures pos2 == Ok(10) && pos12 == Err(ElementNotFound(12))
  ensures at128 == Err(IndexOutOfBounds) && tail == Ok(9)
  ensures rem5 == Ok(()) && rem13 == Err(ElementNotFound(13))
{
  var v := BuildVectorDemo();
  filled, capacity := v.filled, v.capacity;
  pos2, pos12, at128, tail := VectorQueries(v);
  rem5, rem13 := VectorRemovals(v);
}

/**
  * The driver's queries on the built linked list: the write `(*v)[0] = 77`,
  * `pos(2)`, `pos(12)`, the read `(*v)[128]` and `last()`. The chain's nodes
  * stay the same ones; only a value and the cursor change.
  */
method LinkedQueries(l: LinkedList<int>) returns (pos2: Result<int, int>, pos12: Result<int, int>,
                                                 at128: Result<int, int>, tail: Result<int, int>)
  requires l.Valid() && l.values == Demo(9)
  modifies l`curs, l`cursorAt, l`values, l.nodes
  ensures pos2 == Ok(10) && pos12 == Err(ElementNotFound(12))
  ensures at128 == Err(IndexOutOfBounds) && tail == Ok(9)
  ensures l.Valid() && l.values == Demo(9)[0 := 77]
{
  DemoSearch();
  var w := l.Write(0, 77);
  pos2, pos12 := DemoSearches(ListOf(l));
  at128, tail := LinkedLookups(l);
}

/**
  * The driver's two removals on the linked list: 5 is unlinked, 13 is not
  * there, and the counter keeps its value throughout.
  */
method LinkedRemovals(l: LinkedList<int>) returns (rem5: Result<(), int>, rem13: Result<(), int>)
  requires l.Shape() && l.values == Demo(9)[0 := 77]
  modifies l, l.nodes
  ensures rem5 == Ok(()) && rem13 == Err(ElementNotFound(13))
  ensures l.size == old(l.size) && l.values == Removed(old(l.values), 5)
{
  DemoRemoval();
  rem5 := l.Remove(5);
  rem13 := l.Remove(13);
}

/**
  * The same run on a LinkedList; the first removal unlinks a node but leaves
  * the counter at 18.
  */
method LinkedListDemo() returns (pos2: Result<int, int>, pos12: Result<int, int>, at128: Result<int, int>,
                                 tail: Result<int, int>, rem5: Result<(), int>, rem13: Result<(), int>, size: int)
  ensures pos2 == Ok(10) && pos12 == Err(ElementNotFound(12))
  ensures at128 == Err(IndexOutOfBounds) && tail == Ok(9)
  ensures rem5 == Ok(()) && rem13 == Err(ElementNotFound(13))
  ensures size == 18
{
  var l := BuildLinkedListDemo();
  pos2, pos12, at128, tail := LinkedQueries(l);
  rem5, rem13 := LinkedRemovals(l);
  size := l.size;
}

/**
  * `prepend` on an empty list never sets the tail, so `last()` then fails with
  * EmptyContainer although the list holds `e`.
  */
method PrependOnEmpty<T(==)>(e: T) returns (tail: Result<T, T>, size: int)
  ensures tail == Err(EmptyContainer) && size == 1
{
  var l := new LinkedList<T>();
  l.Prepend(e);
  tail := l.Last();
  size := l.size;
}

/**
  * `append(e)` followed by `last()` returns `e` in every state `append` can be
  * called in, even one the design invariant no longer holds in.
  */
method ListAppendThenLast<T(==)>(l: LinkedList<T>, e: T) returns (tail: Result<T, T>)
  requires l.Shape() && (l.first != null ==> l.last in l.nodes)
  modifies l, l.last
  ensures tail == Ok(e)
{
  l.Append(e);
  tail := l.Last();
}

/** `append(e)` followed by `last()` returns `e`. */
method VectorAppendThenLast<T(==,0)>(v: Vector<T>, e: T) returns (tail: Result<T, T>)
  requires v.Valid()
  modifies v, v.tab
  ensures tail == Ok(e)
{
  v.Append(e);
  tail := v.Last();
}

/**
  * `remove` unlinks the node but keeps the counter: after appending `e` and
  * removing it, the chain is empty while the size still says 1, and a
  * traversal fails at `first()`.
  */
method RemoveKeepsCount<T(==)>(e: T) returns (rem: Result<(), T>, size: int, head: Result<T, T>)
  ensures rem == Ok(()) && size == 1 && head == Err(EmptyContainer)
{
  var l := new LinkedList<T>();
  l.Append(e);
  rem := l.Remove(e);
  size := l.size;
  head := l.First();
}

/**
  * On empty containers every query fails with EmptyContainer: indexing, the
  * cursor's `next()`, `pos` and rendering.
  */
method EmptyFailures<T(==,0)>(i: int, t: T, show: T -> string)
  returns (listRead: Result<T, T>, listNext: Result<T, T>, vectorRead: Result<T, T>, vectorNext: Result<T, T>,
           found: Result<int, T>, shown: Result<string, T>)
  ensures listRead == Err(EmptyContainer) && listNext == Err(EmptyContainer)
  ensures vectorRead == Err(EmptyContainer) && vectorNext == Err(EmptyContainer)
  ensures found == Err(EmptyContainer) && shown == Err(EmptyContainer)
{
  var l := new LinkedList<T>();
  var v := new Vector<T>();
  listRead := l.Read(i);
  listNext := l.Next();
  vectorRead := v.Read(i);
  vectorNext := v.Next();
  found := Pos(VectorOf(v), t);
  shown := Render(ListOf(l), show);
}

/** A fresh list built by three appends. */
method BuildThree<T(==)>(a: T, b: T, c: T) returns (l: LinkedList<T>)
  ensures fresh(l) && l.Valid() && l.values == [a, b, c]
  ensures forall k :: 0 <= k < |l.nodes| ==> fresh(l.nodes[k])
{
  l := new LinkedList<T>();
  l.Append(a);
  l.Append(b);
  l.Append(c);
}

/**
  * A traversal of a three-element list: `first()` and two `next()` calls walk
  * past the head, the third `next()` returns the last value, and a fourth
  * fails with IndexOutOfBounds since the counter is not 0.
  */
method WalkThree<T(==)>(a: T, b: T, c: T) returns (head: Result<T, T>, n1: Result<T, T>, n2: Result<T, T>,
                                                   n3: Result<T, T>, n4: Result<T, T>, more: bool)
  ensures head == Ok(a) && n1 == Ok(a) && n2 == Ok(b) && n3 == Ok(c)
  ensures n4 == Err(IndexOutOfBounds) && !more
{
  var l := BuildThree(a, b, c);
  head := l.First();
  n1 := l.Next();
  n2 := l.Next();
  n3 := l.Next();
  more := l.HasNext();
  n4 := l.Next();
}

/**
  * A traversal that was never started: on a fresh list `append(e)` leaves the
  * cursor null, so `next()` fails with IndexOutOfBounds, while on a fresh
  * vector the cursor sits before slot 0 and the same calls return `e`.
  */
method AppendThenNext<T(==,0)>(e: T) returns (listNext: Result<T, T>, vectorNext: Result<T, T>)
  ensures listNext == Err(IndexOutOfBounds) && vectorNext == Ok(e)
{
  var l := new LinkedList<T>();
  l.Append(e);
  listNext := l.Next();
  var v := new Vector<T>();
  v.Append(e);
  vectorNext := v.Next();
}

/**
  * A list whose traversal has run off the end stays exhausted: after
  * `append(f)` the null cursor still makes `next()` fail with IndexOutOfBounds.
  */
method ExhaustedThenAppend<T(==)>(e: T, f: T) returns (head: Result<T, T>, n1: Result<T, T>, resumed: Result<T, T>)
  ensures head == Ok(e) && n1 == Ok(e) && resumed == Err(IndexOutOfBounds)
{
  var l := new LinkedList<T>();
  l.Append(e);
  head := l.First();
  n1 := l.Next();
  l.Append(f);
  resumed := l.Next();
}

/**
  * `remove` keeps the chain usable behind the unlinked node: on [1, 2, 3],
  * `remove(2)` leaves [1, 3], whose tail `last()` still returns and `append`
  * still extends; the counter, never decremented, then says 4.
  */
method RemoveMiddle() returns (rem: Result<(), int>, tail: Result<int, int>, at1: Result<int, int>,
                               after: Result<int, int>, size: int)
  ensures rem == Ok(()) && tail == Ok(3) && at1 == Ok(3) && after == Ok(4) && size == 4
{
  var l := BuildThree(1, 2, 3);
  rem := l.Remove(2);
  tail := l.Last();
  l.Append(4);
  at1 := l.Read(1);
  after := l.Last();
  size := l.size;
}
