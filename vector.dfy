// The array-backed container: a heap array `tab` with `capacity` slots (the
// source's `mSize`), of which the first `filled` are live, and a cursor that
// holds the index of the element `next` returned last (-1 before the first).
// The array grows in whole clusters of ClusterSize slots. The ghost field
// `elems` is the sequence of live elements the array holds.

/** LIST_CLUSTER_SIZE: the number of slots the array grows by at a time. */
const ClusterSize := 10

/**
  * The number of slots `extendTab(n)` adds: the smallest multiple of
  * ClusterSize that exceeds `n`.
  */
function Extension(n: nat): (g: nat)
  ensures n < g <= n + ClusterSize
  ensures g % ClusterSize == 0
{
  (n / ClusterSize + 1) * ClusterSize
}

/**
  * The slots the shift loop of `offset(d, n)` reads, as written: `mTab[i - 1]`
  * for `i` running from `filled` down to `d` inclusive.
  */
function ShiftReads(filled: int, d: int): (r: seq<int>)
  ensures |r| == if filled >= d then filled - d + 1 else 0
  ensures forall k :: 0 <= k < |r| ==> r[k] == filled - 1 - k
  decreases filled - d + 1
{
  if filled < d then [] else [filled - 1] + ShiftReads(filled - 1, d)
}

/** As written, `offset(0, 1)` reads slot -1, whatever the live count is. */
lemma ShiftReadsBeforeStart(filled: nat)
  ensures -1 in ShiftReads(filled, 0)
{
}

/**
  * With the loop stopping at 1, as `Offset` does, every slot read is a live
  * one: the reads are `filled - 1` down to 0.
  */
lemma ShiftReadsFromOne(filled: nat)
  ensures forall x :: x in ShiftReads(filled, 1) ==> 0 <= x < filled
  ensures |ShiftReads(filled, 1)| == filled
{
}

class Vector<T(==,0)> {
  var capacity: int
  var cursor: int
  var filled: int
  var tab: array<T>
  ghost var elems: seq<T>

  /**
    * The array has `capacity` slots, a positive multiple of ClusterSize; at most
    * all of them are live; the cursor lies between -1 and the live count.
    */
  ghost predicate Shape()
    reads this`capacity, this`cursor, this`filled, this`tab
  {
    tab.Length == capacity && 0 < capacity && capacity % ClusterSize == 0 &&
    0 <= filled <= capacity && -1 <= cursor <= filled
  }

  /** The invariant: the shape holds and the live slots hold `elems`, in index order. */
  ghost predicate Valid()
    reads this`capacity, this`cursor, this`filled, this`tab, this`elems, tab
  {
    Shape() && |elems| == filled && forall i :: 0 <= i < filled ==> tab[i] == elems[i]
  }

  /** A fresh vector: one cluster of slots, none live, the cursor before the first. */
  constructor ()
    ensures Valid() && elems == []
    ensures capacity == ClusterSize && cursor == -1 && fresh(tab)
  {
    cursor := -1;
    capacity := ClusterSize;
    filled := 0;
    tab := new T[ClusterSize];
    elems := [];
  }

  /**
    * `extendTab(n)`: moves the live elements into a fresh array with
    * Extension(n) more slots.
    */
  method ExtendTab(n: nat)
    requires Valid()
    modifies this`tab, this`capacity
    ensures Valid() && fresh(tab)
    ensures capacity == old(capacity) + Extension(n)
  {
    var fact := n / ClusterSize + 1;
    var oldTab := tab;
    var newTab := new T[capacity + fact * ClusterSize];
    tab := newTab;
    capacity := capacity + fact * ClusterSize;
    for i := 0 to filled
      invariant tab == newTab && capacity == newTab.Length
      invariant forall j :: 0 <= j < i ==> newTab[j] == oldTab[j]
    {
      newTab[i] := oldTab[i];
    }
  }

  /**
    * `offset(0, 1)`: grows the array if the live elements fill all but at most
    * one slot, then shifts every live element one slot right, leaving slot 0
    * free for `prepend`. Afterwards slot `j` holds element `j - 1`.
    *
    * The source's loop runs `i` from `filled` down to 0; its last iteration
    * (i == 0) copies `mTab[-1]` into slot 0, which `prepend` then overwrites.
    * That out-of-bounds iteration is dropped here: the loop stops at i == 1.
    */
  method Offset()
    requires Valid()
    modifies this`tab, this`capacity, tab
    ensures Shape() && filled < capacity
    ensures capacity == old(capacity) + if 1 + filled >= old(capacity) then ClusterSize else 0
    ensures forall j :: 1 <= j <= filled ==> tab[j] == elems[j - 1]
    ensures tab == old(tab) || fresh(tab)
  {
    if 1 + filled >= capacity {
      ExtendTab(1);
    }
    var a := tab;
    var i := filled;
    while i >= 1
      invariant tab == a && Shape() && capacity == old(capacity) + if 1 + filled >= old(capacity) then ClusterSize else 0
      invariant 0 <= i <= filled < a.Length
      invariant forall j :: 0 <= j < i ==> a[j] == elems[j]
      invariant forall j :: i < j <= filled ==> a[j] == elems[j - 1]
    {
      a[i] := a[i - 1];
      i := i - 1;
    }
  }

  /**
    * `backOffset(d, 1)`: shifts the live elements after slot `d` one slot
    * left, over slot `d`. The last live slot and those beyond keep their values.
    */
  method BackOffset(d: int)
    requires Valid() && 0 <= d < filled
    modifies tab
    ensures forall j :: 0 <= j < d ==> tab[j] == elems[j]
    ensures forall j :: d <= j < filled - 1 ==> tab[j] == elems[j + 1]
    ensures forall j :: filled - 1 <= j < tab.Length ==> tab[j] == old(tab[j])
  {
    var i := d;
    while i <= filled - 2
      invariant d <= i <= filled - 1
      invariant forall j :: 0 <= j < d ==> tab[j] == elems[j]
      invariant forall j :: d <= j < i ==> tab[j] == elems[j + 1]
      invariant forall j :: i <= j < tab.Length ==> tab[j] == old(tab[j])
    {
      tab[i] := tab[i + 1];
      i := i + 1;
    }
  }

  /** `append(e)`: grows the array by one cluster when it is full, then stores `e` after the live elements. */
  method Append(e: T)
    requires Valid()
    modifies this`tab, this`capacity, this`filled, this`elems, tab
    ensures Valid() && elems == old(elems) + [e]
    ensures capacity == old(capacity) + if old(filled) == old(capacity) then ClusterSize else 0
    ensures tab == old(tab) || fresh(tab)
  {
    if filled == capacity {
      ExtendTab(1);
    }
    tab[filled] := e;
    filled := filled + 1;
    elems := elems + [e];
  }

  /**
    * `prepend(e)`: grows the array when it is full, shifts the elements right
    * (which grows it again when only one slot is free), and stores `e` in slot 0.
    */
  method Prepend(e: T)
    requires Valid()
    modifies this`tab, this`capacity, this`filled, this`elems, tab
    ensures Valid() && elems == [e] + old(elems)
    ensures capacity == old(capacity) + if old(filled) + 1 >= old(capacity) then ClusterSize else 0
    ensures tab == old(tab) || fresh(tab)
  {
    if filled == capacity {
      ExtendTab(1);
    }
    Offset();
    tab[0] := e;
    filled := filled + 1;
    elems := [e] + elems;
  }

  /**
    * Reading `operator[](i)`: EmptyContainer when nothing is live, whatever `i`
    * is; IndexOutOfBounds when `i` is outside [0, filled); otherwise element `i`.
    */
  method Read(i: int) returns (r: Result<T, T>)
    requires Valid()
    ensures elems == [] ==> r == Err(EmptyContainer)
    ensures elems != [] && (i < 0 || |elems| <= i) ==> r == Err(IndexOutOfBounds)
    ensures elems != [] && 0 <= i < |elems| ==> r == Ok(elems[i])
  {
    if filled == 0 {
      return Err(EmptyContainer);
    }
    if i < 0 || filled <= i {
      return Err(IndexOutOfBounds);
    }
    return Ok(tab[i]);
  }

  /**
    * Writing through the reference `operator[](i)` returns: the same failures
    * as `Read`; on success only element `i` changes, to `v`.
    */
  method Write(i: int, v: T) returns (r: Result<(), T>)
    requires Valid()
    modifies tab, this`elems
    ensures Valid()
    ensures old(elems) == [] ==> r == Err(EmptyContainer)
    ensures old(elems) != [] && (i < 0 || |old(elems)| <= i) ==> r == Err(IndexOutOfBounds)
    ensures r.Ok? <==> 0 <= i < |old(elems)|
    ensures elems == if r.Ok? then old(elems)[i := v] else old(elems)
    ensures forall j :: filled <= j < tab.Length ==> tab[j] == old(tab[j])
  {
    if filled == 0 {
      return Err(EmptyContainer);
    }
    if i < 0 || filled <= i {
      return Err(IndexOutOfBounds);
    }
    tab[i] := v;
    elems := elems[i := v];
    return Ok(());
  }

  /**
    * `hasNext()`: an element follows the one returned last; a query that
    * changes nothing. Under the invariant it holds exactly while the element
    * after the cursor exists.
    */
  function HasNext(): (b: bool)
    reads this`capacity, this`cursor, this`filled, this`tab, this`elems, tab
    ensures Valid() ==> (b <==> cursor + 1 < |elems|)
  {
    cursor + 1 < filled
  }

  /**
    * `next()`: advances the cursor and returns that element. Once the cursor is
    * on the last element it fails, with EmptyContainer if nothing is live and
    * IndexOutOfBounds otherwise, and the cursor stays.
    */
  method Next() returns (r: Result<T, T>)
    requires Valid()
    modifies this`cursor
    ensures Valid()
    ensures old(cursor) + 1 < |elems| ==> cursor == old(cursor) + 1 && r == Ok(elems[cursor])
    ensures old(cursor) + 1 >= |elems| ==> cursor == old(cursor) && r == Err(if elems == [] then EmptyContainer else IndexOutOfBounds)
  {
    if HasNext() {
      cursor := cursor + 1;
      return Ok(tab[cursor]);
    }
    if filled == 0 {
      return Err(EmptyContainer);
    }
    return Err(IndexOutOfBounds);
  }

  /** `first()`: puts the cursor before slot 0 and returns element 0; EmptyContainer (cursor untouched) if nothing is live. */
  method First() returns (r: Result<T, T>)
    requires Valid()
    modifies this`cursor
    ensures Valid()
    ensures elems == [] ==> r == Err(EmptyContainer) && cursor == old(cursor)
    ensures elems != [] ==> r == Ok(elems[0]) && cursor == -1
  {
    if filled == 0 {
      return Err(EmptyContainer);
    }
    cursor := -1;
    return Ok(tab[cursor + 1]);
  }

  /** `last()`: the last live element; EmptyContainer if nothing is live. */
  method Last() returns (r: Result<T, T>)
    requires Valid()
    ensures r == if elems == [] then Err(EmptyContainer) else Ok(elems[|elems| - 1])
  {
    if filled == 0 {
      return Err(EmptyContainer);
    }
    return Ok(tab[filled - 1]);
  }

  /**
    * `remove(e)`: finds the first `e` with `pos`, shifts the elements after it
    * one slot left and drops the last live slot. When `pos` fails its exception
    * propagates and nothing changes but the cursor.
    */
  method Remove(e: T) returns (r: Result<(), T>)
    requires Valid()
    modifies this`cursor, this`filled, this`elems, tab
    ensures Valid()
    ensures r == Position(old(elems), e).Void()
    ensures elems == Removed(old(elems), e)
    ensures capacity == old(capacity)
  {
    var p := Pos(VectorOf(this), e);
    if p.Err? {
      return Err(p.error);
    }
    assert p.value == IndexOf(elems, e);
    var k := p.value;
    ghost var rest := elems[..k] + elems[k + 1..];
    BackOffset(k);
    DeletedAt(elems, k);
    filled := filled - 1;
    elems := rest;
    return Ok(());
  }
}
