/**
 The static bump pool of the value reader (src/codec/serialize.c:39-42): one cell per nested element.
 A list is a slice of cells; what a cell stands for is told by Stored.
 */
module Pool {
  import opened Octets
  import opened Values

  /** osp_value_t: a list holds a pointer into the pool and a count. */
  datatype Cell = Leaf(value: Value) | Slice(isArray: bool, start: nat, count: nat)

  class ReadPool {
    const cells: array<Cell>
    var used: nat

    ghost predicate Valid()
      reads this
    {
      cells.Length == POOL && used <= POOL
    }

    constructor ()
      ensures Valid() && used == 0 && fresh(cells)
    {
      cells := new Cell[POOL](_ => Leaf(Null));
      used := 0;
    }
  }

  /** Cell c stands for v, whose nested elements occupy the Nodes(v) slots from lo on, in bump order. */
  ghost predicate Stored(cells: seq<Cell>, c: Cell, v: Value, lo: nat)
    decreases v, 0
  {
    if v.List? then
      && c == Slice(v.isArray, lo, |v.items|) && lo + |v.items| <= |cells|
      && StoredAll(cells, lo, v.items, lo + |v.items|)
    else c == Leaf(v)
  }

  /** The cells from `at` on stand for the items, whose own elements start at lo. */
  ghost predicate StoredAll(cells: seq<Cell>, at: nat, items: seq<Value>, lo: nat)
    decreases items, 1
  {
    items == [] ||
    var n := |items| - 1;
    && at + n < |cells|
    && StoredAll(cells, at, items[..n], lo)
    && Stored(cells, cells[at + n], items[n], lo + AllNodes(items[..n]))
  }

  ghost predicate Agree(a: seq<Cell>, b: seq<Cell>, from: nat, upto: nat) {
    |a| == |b| && forall k :: from <= k < upto && k < |a| ==> a[k] == b[k]
  }

  /** What is stored depends only on its own slots. */
  lemma {:induction false} StoredFrame(a: seq<Cell>, b: seq<Cell>, c: Cell, v: Value, lo: nat)
    requires Stored(a, c, v, lo) && Agree(a, b, lo, lo + Nodes(v))
    ensures Stored(b, c, v, lo)
    decreases v, 0
  {
    if v.List? { StoredAllFrame(a, b, lo, v.items, lo + |v.items|); }
  }

  lemma {:induction false} StoredAllFrame(a: seq<Cell>, b: seq<Cell>, at: nat, items: seq<Value>, lo: nat)
    requires StoredAll(a, at, items, lo)
    requires Agree(a, b, at, at + |items|) && Agree(a, b, lo, lo + AllNodes(items))
    ensures StoredAll(b, at, items, lo)
    decreases items, 1
  {
    if items != [] {
      var n := |items| - 1;
      StoredAllFrame(a, b, at, items[..n], lo);
      StoredFrame(a, b, a[at + n], items[n], lo + AllNodes(items[..n]));
    }
  }

  lemma StoredNone(cells: seq<Cell>, at: nat, lo: nat)
    ensures StoredAll(cells, at, [], lo) && AllNodes([]) == 0
  {}

  /** One more element: read into `mid` above the slots in use, then stored in its own slot. */
  lemma StoredOneMore(before: seq<Cell>, mid: seq<Cell>, start: nat, items: seq<Value>, base: nat, c: Cell, v: Value)
    requires StoredAll(before, start, items, base) && start + |items| < base && start + |items| < |before|
    requires Agree(before, mid, 0, base + AllNodes(items)) && Stored(mid, c, v, base + AllNodes(items))
    ensures StoredAll(mid[start + |items| := c], start, items + [v], base)
  {
    hide Stored, Nodes;
    var i := |items|;
    var after := mid[start + i := c];
    StoredAllFrame(before, after, start, items, base);
    StoredFrame(mid, after, c, v, base + AllNodes(items));
    assert (items + [v])[..i] == items;
  }
}
