// The shared part of the sequence library: the three failure kinds, the
// abstract meaning of the operations every container offers, and the two
// generic algorithms, `pos` and the stream output operator, which use only
// the container's single shared cursor (first / hasNext / next).
//
// The source has no namespaces, so neither does this model: every file adds
// to Dafny's default module.

/** The three exception classes. ElementNotFound carries the value searched for. */
datatype ListError<T> = EmptyContainer | IndexOutOfBounds | ElementNotFound(element: T)

/** An operation either returns its value or throws one of the three exceptions. */
datatype Result<R, T> = Ok(value: R) | Err(error: ListError<T>)
{
  /** The same outcome with the value dropped, for operations returning `void`. */
  function Void(): Result<(), T>
  {
    match this
    case Ok(_) => Ok(())
    case Err(e) => Err(e)
  }
}

// ---------------------------------------------------------------------------
// Specification functions
// ---------------------------------------------------------------------------

/** The index of the first element of `s` equal to `e`, or `|s|` when there is none. */
function IndexOf<T(==)>(s: seq<T>, e: T): (k: nat)
  ensures k <= |s|
  ensures k < |s| ==> s[k] == e
  ensures forall j :: 0 <= j < k ==> s[j] != e
{
  if s == [] then 0 else if s[0] == e then 0 else 1 + IndexOf(s[1..], e)
}

/**
  * What `pos(t)` reports on a container whose traversal yields `s`: the
  * smallest index holding `t`; EmptyContainer when the container is empty
  * (it calls `first()` before searching); ElementNotFound(t) otherwise.
  */
function Position<T(==)>(s: seq<T>, t: T): (r: Result<int, T>)
  ensures r.Ok? <==> t in s
  ensures r.Ok? ==> 0 <= r.value < |s| && s[r.value] == t
  ensures r.Ok? ==> forall j :: 0 <= j < r.value ==> s[j] != t
  ensures r == Err(EmptyContainer) <==> s == []
  ensures r == Err(ElementNotFound(t)) <==> s != [] && t !in s
  ensures r.Err? ==> r.error != IndexOutOfBounds
{
  if s == [] then Err(EmptyContainer)
  else if IndexOf(s, t) == |s| then Err(ElementNotFound(t))
  else Ok(IndexOf(s, t))
}

/** The elements left once the first element equal to `e` is taken out. */
function Removed<T(==)>(s: seq<T>, e: T): (r: seq<T>)
  ensures e !in s ==> r == s
  ensures e in s ==> |r| == |s| - 1
{
  var k := IndexOf(s, e);
  if k == |s| then s else s[..k] + s[k + 1..]
}

/** `k` is the index of the first `e` when every earlier element differs and `s[k]` is `e` (or `k` is `|s|`). */
lemma IndexOfFirst<T>(s: seq<T>, e: T, k: nat)
  requires k <= |s| && (k < |s| ==> s[k] == e)
  requires forall j :: 0 <= j < k ==> s[j] != e
  ensures IndexOf(s, e) == k
{
}

/** Deleting index `k`: the elements before it stay, the ones after it move down by one. */
lemma DeletedAt<T>(s: seq<T>, k: nat)
  requires k < |s|
  ensures |s[..k] + s[k + 1..]| == |s| - 1
  ensures forall j :: 0 <= j < |s| - 1 ==> (s[..k] + s[k + 1..])[j] == if j < k then s[j] else s[j + 1]
{
}

/** Removal takes out exactly one occurrence of `e` and nothing else. */
lemma RemovedMultiset<T>(s: seq<T>, e: T)
  ensures multiset(Removed(s, e)) == if e in s then multiset(s) - multiset{e} else multiset(s)
{
  var k := IndexOf(s, e);
  if k < |s| {
    assert s == s[..k] + [s[k]] + s[k + 1..];
    calc {
      multiset(s);
      multiset(s[..k]) + multiset{e} + multiset(s[k + 1..]);
      multiset(Removed(s, e)) + multiset{e};
    }
  }
}

/**
  * Removal keeps every other element in its relative order: the result is `s`
  * with one index deleted, and that index is the first occurrence of `e`.
  */
lemma RemovedKeepsOrder<T>(s: seq<T>, e: T)
  requires e in s
  ensures exists k :: 0 <= k < |s| && s[k] == e && e !in s[..k] &&
                      (forall i :: 0 <= i < k ==> Removed(s, e)[i] == s[i]) &&
                      (forall i :: k <= i < |s| - 1 ==> Removed(s, e)[i] == s[i + 1])
{
  var k, r := IndexOf(s, e), Removed(s, e);
  assert r == s[..k] + s[k + 1..];
  assert e !in s[..k] by {
    forall j | 0 <= j < k ensures s[..k][j] != e { }
  }
  assert forall i :: 0 <= i < k ==> r[i] == s[i];
  assert forall i :: k <= i < |s| - 1 ==> r[i] == s[i + 1];
}

/**
  * The elements shown with `show`, separated by ", ", in traversal order: the
  * text starts with the first element, and each of the `|s| - 1` separators
  * adds two characters.
  */
function Join<T>(s: seq<T>, show: T -> string): (r: string)
  ensures s != [] ==> |show(s[0])| + 2 * (|s| - 1) <= |r| && r[..|show(s[0])|] == show(s[0])
{
  if |s| == 0 then ""
  else if |s| == 1 then show(s[0])
  else Join(s[..|s| - 1], show) + ", " + show(s[|s| - 1])
}

/**
  * What the output operator writes for a container whose traversal yields
  * `s`. It calls `first()` before writing '{', so an empty container fails with
  * EmptyContainer and nothing is written.
  */
function Rendered<T>(s: seq<T>, show: T -> string): (r: Result<string, T>)
  ensures r.Err? <==> s == []
  ensures r.Err? ==> r.error == EmptyContainer
  ensures r.Ok? ==> |r.value| >= 2 && r.value[0] == '{' && r.value[|r.value| - 1] == '}'
{
  if s == [] then Err(EmptyContainer) else Ok("{" + Join(s, show) + "}")
}

/** Joining one more element of `s` appends a separator and that element. */
lemma JoinPrefix<T>(s: seq<T>, i: nat, show: T -> string)
  requires i < |s|
  ensures Join(s[..i + 1], show) == if i == 0 then show(s[0]) else Join(s[..i], show) + ", " + show(s[i])
{
  assert s[..i + 1][..i] == s[..i];
}

/**
  * One step of the output loop: after '{' and the first `i` elements with their
  * separator, writing element `i` gives '{' and the first `i + 1` elements.
  */
lemma RenderStep<T>(s: seq<T>, i: nat, show: T -> string, out: string)
  requires i < |s|
  requires i == 0 ==> out == "{"
  requires 0 < i ==> out == "{" + Join(s[..i], show) + ", "
  ensures out + show(s[i]) == "{" + Join(s[..i + 1], show)
{
  JoinPrefix(s, i, show);
}

/** Joining reads left to right: the first element, a separator, then the rest. */
lemma {:induction false} JoinCons<T>(x: T, rest: seq<T>, show: T -> string)
  requires rest != []
  ensures Join([x] + rest, show) == show(x) + ", " + Join(rest, show)
{
  var s := [x] + rest;
  if |rest| == 1 {
    assert s[..|s| - 1] == [x];
  } else {
    var front := rest[..|rest| - 1];
    assert s[..|s| - 1] == [x] + front;
    JoinCons(x, front, show);
    assert Join(rest, show) == Join(front, show) + ", " + show(rest[|rest| - 1]);
  }
}

/** A list of one element is shown as `{e}`. */
lemma RenderedSingleton<T>(x: T, show: T -> string)
  ensures Rendered([x], show) == Ok("{" + show(x) + "}")
{
}

/** A list of three elements is shown as `{a, b, c}`. */
lemma RenderedThree<T>(a: T, b: T, c: T, show: T -> string)
  ensures Rendered([a, b, c], show) == Ok("{" + show(a) + ", " + show(b) + ", " + show(c) + "}")
{
  assert [a, b, c] == [a] + [b, c] && [b, c] == [b] + [c];
  JoinCons(b, [c], show);
  assert Join([b, c], show) == show(b) + ", " + show(c);
  JoinCons(a, [b, c], show);
  var j := Join([a, b, c], show);
  assert j == show(a) + ", " + show(b) + ", " + show(c);
  assert Rendered([a, b, c], show) == Ok("{" + j + "}");
  assert "{" + j + "}" == "{" + show(a) + ", " + show(b) + ", " + show(c) + "}";
}

// ---------------------------------------------------------------------------
// The interface: either container, seen through its shared cursor
// ---------------------------------------------------------------------------

/**
  * A `List<T>`: one of the two implementations. The traversal methods below
  * dispatch on it, as the virtual calls do.
  */
datatype AnyList<T(==,0)> = ListOf(list: LinkedList<T>) | VectorOf(vector: Vector<T>)
{
  /** The linked list inside, if any. */
  function Lists(): set<LinkedList<T>>
  {
    if ListOf? then {list} else {}
  }

  /** The vector inside, if any. */
  function Vectors(): set<Vector<T>>
  {
    if VectorOf? then {vector} else {}
  }

  /** The chain's nodes, when a linked list is inside. */
  ghost function Nodes(): seq<Node<T>>
    reads Lists()
  {
    if ListOf? then list.nodes else []
  }

  /** The vector's array, when a vector is inside. */
  ghost function Arrays(): set<array<T>>
    reads Vectors()
  {
    if VectorOf? then {vector.tab} else {}
  }

  /**
    * `hasNext()`, a query that changes nothing: on either implementation it
    * reports exactly whether the traversal has an element left.
    */
  function HasNext(): (b: bool)
    reads Lists(), Nodes(), Vectors(), Arrays()
    ensures View().ready ==> (b <==> View().pending < |View().items|)
  {
    match this
    case ListOf(l) => l.HasNext()
    case VectorOf(v) => v.HasNext()
  }

  /**
    * The storage is well formed, wherever the cursor is: the linked list's
    * chain, or the vector's invariant. `first()` needs no more.
    */
  ghost predicate Intact()
    reads Lists(), Nodes(), Vectors(), Arrays()
  {
    match this
    case ListOf(l) => l.Chain()
    case VectorOf(v) => v.Valid()
  }

  /** What the traversal sees of the container right now. */
  ghost function View(): Traversal<T>
    reads Lists(), Nodes(), Vectors(), Arrays()
  {
    match this
    case ListOf(l) => Traversal(l.Chain() && l.CursorLive(), l.values, l.Pending(), l.size)
    case VectorOf(v) =>
      Traversal(v.Valid(), v.elems, v.cursor + 1, v.filled)
  }
}

/**
  * A container as its cursor sees it: whether the traversal can run from the
  * current state (`ready`), the elements in traversal order, the index of the
  * element the next call to `next()` returns, and the element counter `next()`
  * consults when it fails (`mSize` or `mFilled`).
  */
datatype Traversal<T> = Traversal(ready: bool, items: seq<T>, pending: int, count: int)

/** `first()`: restarts the traversal and returns the first element; EmptyContainer if there is none. */
method First<T(==,0)>(c: AnyList<T>) returns (r: Result<T, T>)
  requires c.Intact()
  modifies c.Lists()`curs, c.Lists()`cursorAt, c.Vectors()`cursor
  ensures c.View().ready && c.View().items == old(c.View().items) && c.View().count == old(c.View().count)
  ensures c.View().items == [] ==> r == Err(EmptyContainer)
  ensures c.View().items != [] ==> r == Ok(c.View().items[0]) && c.View().pending == 0
{
  match c
  case ListOf(l) => r := l.First();
  case VectorOf(v) => r := v.First();
}

/**
  * `next()`: returns the pending element and moves past it; once the elements
  * are exhausted it fails with EmptyContainer when the counter is 0 and with
  * IndexOutOfBounds otherwise.
  */
method Next<T(==,0)>(c: AnyList<T>) returns (r: Result<T, T>)
  requires c.View().ready
  modifies c.Lists()`curs, c.Lists()`cursorAt, c.Vectors()`cursor
  ensures c.View().ready && c.View().items == old(c.View().items) && c.View().count == old(c.View().count)
  ensures 0 <= old(c.View().pending) < |c.View().items| ==> r == Ok(c.View().items[old(c.View().pending)]) && c.View().pending == old(c.View().pending) + 1
  ensures old(c.View().pending) >= |c.View().items| ==> r == Err(if c.View().count == 0 then EmptyContainer else IndexOutOfBounds)
{
  match c
  case ListOf(l) => r := l.Next();
  case VectorOf(v) => r := v.Next();
}

/**
  * `pos(t)`: restarts the traversal and counts elements up to the first one
  * equal to `t`. Only the cursor moves; it rests just past the element found.
  */
method Pos<T(==,0)>(c: AnyList<T>, t: T) returns (r: Result<int, T>)
  requires c.Intact()
  modifies c.Lists()`curs, c.Lists()`cursorAt, c.Vectors()`cursor
  ensures c.View().ready && c.View().items == old(c.View().items)
  ensures r == Position(old(c.View().items), t)
  ensures r.Ok? ==> c.View().pending == r.value + 1
{
  ghost var s := c.View().items;
  var i := 0;
  var f := First(c);
  if f.Err? {
    return Err(f.error);
  }
  var more := c.HasNext();
  while more
    invariant c.View().ready && c.View().items == s
    invariant 0 <= i == c.View().pending <= |s|
    invariant more <==> i < |s|
    invariant forall j :: 0 <= j < i ==> s[j] != t
    decreases |s| - i
  {
    var v := Next(c);
    if t == v.value {
      IndexOfFirst(s, t, i);
      return Ok(i);
    }
    i := i + 1;
    more := c.HasNext();
  }
  IndexOfFirst(s, t, |s|);
  return Err(ElementNotFound(t));
}

/**
  * `operator<<`: restarts the traversal, then writes '{', the elements shown
  * with `show` and separated by ", ", and '}'. On an empty container `first()`
  * fails before anything is written.
  */
method Render<T(==,0)>(c: AnyList<T>, show: T -> string) returns (r: Result<string, T>)
  requires c.Intact()
  modifies c.Lists()`curs, c.Lists()`cursorAt, c.Vectors()`cursor
  ensures c.View().ready && c.View().items == old(c.View().items)
  ensures r == Rendered(old(c.View().items), show)
{
  var f := First(c);
  if f.Err? {
    return Err(f.error);
  }
  ghost var s := c.View().items;
  var out := "{";
  ghost var i := 0;
  var more := c.HasNext();
  while more
    invariant c.View().ready && c.View().items == s
    invariant 0 <= i == c.View().pending <= |s|
    invariant more <==> i < |s|
    invariant i == 0 ==> out == "{"
    invariant 0 < i < |s| ==> out == "{" + Join(s[..i], show) + ", "
    invariant 0 < i == |s| ==> out == "{" + Join(s[..i], show)
    decreases |s| - i
  {
    var e := Next(c);
    RenderStep(s, i, show, out);
    out := out + show(e.value);
    i := i + 1;
    more := c.HasNext();
    if more {
      out := out + ", ";
    }
  }
  assert s[..i] == s;
  out := out + "}";
  return Ok(out);
}
