/**
 osp_value_read (src/codec/serialize.c:1121-1343): the recursive reader over a cursor buffer that stores
 nested elements in the bump pool. There is no depth check: every level with elements takes slots,
 so the pool bounds the recursion.
 */
module ValueRead {
  import opened Octets
  import opened Lengths
  import opened Values
  import opened Compact
  import opened ValueParse
  import opened Pool
  import opened FieldRead
  import opened CompactRead

  /** The value at the cursor, for every content of the buffer; `deepest` is the depth the recursion reaches. */
  method ReadImpl(buf: Buf, pool: ReadPool, ghost depth: nat) returns (r: Result<Cell>, ghost deepest: nat)
    requires buf.Valid() && pool.Valid() && depth <= pool.used + 1
    modifies buf`rd, pool`used, pool.cells
    ensures buf.Valid() && pool.Valid() && old(buf.rd) <= buf.rd
    ensures old(pool.used) <= pool.used && Agree(old(pool.cells[..]), pool.cells[..], 0, old(pool.used))
    ensures ReadAs(ValueAt(buf.written, old(buf.rd), old(pool.used)), r, buf.rd, pool.cells[..], old(pool.used),
            pool.used)
    ensures deepest <= DEEPEST
    decreases |buf.written| - buf.rd, 0
  {
    hide LenAt, LeafAt, CompactAt, ListAt, StoredAll, AllNodes, FormOf;
    deepest := depth;
    var tag := buf.ReadU8();
    if tag.Fail? { r := Fail(tag.err); return; }
    var form := FormOf(tag.value);
    if form.ListForm? {
      var n := ReadLen(buf);
      if n.Fail? { r := Fail(n.err); return; }
      r, deepest := ReadList(buf, pool, n.value, form.isArray, depth);
    } else if form.CompactForm? {
      r, deepest := ReadCompact(buf, pool, depth);
    } else {
      var leaf := ReadLeaf(buf, form);
      r := if leaf.Ok? then Ok(Leaf(leaf.value)) else Fail(leaf.err);
    }
  }

  /** The slice for n elements, then the elements. */
  method ReadList(buf: Buf, pool: ReadPool, n: nat, isArray: bool, ghost depth: nat)
    returns (r: Result<Cell>, ghost deepest: nat)
    requires buf.Valid() && pool.Valid() && depth <= pool.used + 1
    modifies buf`rd, pool`used, pool.cells
    ensures buf.Valid() && pool.Valid() && old(buf.rd) <= buf.rd
    ensures old(pool.used) <= pool.used && Agree(old(pool.cells[..]), pool.cells[..], 0, old(pool.used))
    ensures ReadAs(ListAt(buf.written, old(buf.rd), old(pool.used), n, isArray), r, buf.rd, pool.cells[..],
            old(pool.used), pool.used)
    ensures deepest <= DEEPEST
    decreases |buf.written| - buf.rd, n + 3
  {
    hide ItemsAt, StoredAll, AllNodes;
    deepest := depth;
    if n > ListLimit(isArray) || pool.used + n > POOL { r := Fail(NoMem); return; }
    var start := pool.used;
    pool.used := pool.used + n;
    var all: Result<()>;
    ghost var inner;
    all, inner := ReadItems(buf, pool, start, n, depth + 1);
    deepest := Deeper(depth, inner);
    r := if all.Ok? then Ok(Slice(isArray, start, n)) else Fail(all.err);
  }

  method ReadItems(buf: Buf, pool: ReadPool, start: nat, n: nat, ghost depth: nat)
    returns (r: Result<()>, ghost deepest: nat)
    requires buf.Valid() && pool.Valid() && start + n == pool.used && (n > 0 ==> depth <= pool.used + 1)
    modifies buf`rd, pool`used, pool.cells
    ensures buf.Valid() && pool.Valid() && old(buf.rd) <= buf.rd
    ensures old(pool.used) <= pool.used && Agree(old(pool.cells[..]), pool.cells[..], 0, start)
    ensures var at := ItemsAt(buf.written, old(buf.rd), old(pool.used), n, []);
            if at.Ok? then r.Ok? && buf.rd == at.value.1 && pool.used == old(pool.used) + AllNodes(at.value.0) &&
                           StoredAll(pool.cells[..], start, at.value.0, old(pool.used))
            else r == Fail(at.err)
    ensures deepest <= DEEPEST
    decreases |buf.written| - buf.rd, n + 2
  {
    hide ValueAt, StoredAll, Nodes, AllNodes;
    ghost var base := pool.used;
    ghost var items: seq<Value> := [];
    ghost var goal := ItemsAt(buf.written, buf.rd, base, n, []);
    deepest := 0;
    StoredNone(pool.cells[..], start, base);
    for i := 0 to n
      invariant buf.Valid() && pool.Valid() && old(buf.rd) <= buf.rd
      invariant |items| == i && pool.used == base + AllNodes(items)
      invariant goal == ItemsAt(buf.written, buf.rd, pool.used, n - i, items)
      invariant StoredAll(pool.cells[..], start, items, base)
      invariant Agree(old(pool.cells[..]), pool.cells[..], 0, start)
      invariant deepest <= DEEPEST
    {
      ghost var at := ValueAt(buf.written, buf.rd, pool.used);
      ghost var inner;
      r, inner := ReadInto(buf, pool, start, start + i, items, base, depth);
      deepest := Deeper(deepest, inner);
      if r.Fail? { return; }
      items := items + [at.value.0];
    }
    r := Ok(());
  }

  /** The next element goes to the slot after those already stored. */
  ghost predicate ReadAsNext(at: Result<(Value, nat)>, r: Result<()>, rd: nat, cells: seq<Cell>, start: nat,
                             items: seq<Value>, base: nat, used: nat) {
    match at
    case Ok((v, e)) =>
      && r.Ok? && rd == e && used == base + AllNodes(items + [v])
      && AllNodes(items + [v]) == AllNodes(items) + Nodes(v)
      && StoredAll(cells, start, items + [v], base)
    case Fail(err) => r == Fail(err)
  }

  method ReadInto(buf: Buf, pool: ReadPool, start: nat, slot: nat, ghost items: seq<Value>, ghost base: nat,
                  ghost depth: nat)
    returns (r: Result<()>, ghost deepest: nat)
    requires buf.Valid() && pool.Valid() && depth <= pool.used + 1
    requires slot == start + |items| < base && pool.used == base + AllNodes(items) &&
             StoredAll(pool.cells[..], start, items, base)
    modifies buf`rd, pool`used, pool.cells
    ensures buf.Valid() && pool.Valid() && old(buf.rd) <= buf.rd
    ensures old(pool.used) <= pool.used && Agree(old(pool.cells[..]), pool.cells[..], 0, start)
    ensures ReadAsNext(ValueAt(buf.written, old(buf.rd), old(pool.used)), r, buf.rd, pool.cells[..], start, items,
            base, pool.used)
    ensures deepest <= DEEPEST
    decreases |buf.written| - buf.rd, 1
  {
    hide ValueAt, StoredAll, Stored, Nodes;
    ghost var before, at := pool.cells[..], ValueAt(buf.written, buf.rd, pool.used);
    var cell: Result<Cell>;
    cell, deepest := ReadImpl(buf, pool, depth);
    if cell.Fail? { r := Fail(cell.err); return; }
    ghost var v, mid := at.value.0, pool.cells[..];
    StoredOneMore(before, mid, start, items, base, cell.value, v);
    pool.cells[slot] := cell.value;
    assert pool.cells[..] == mid[slot := cell.value];
    assert (items + [v])[..|items|] == items;
    r := Ok(());
  }

  /** osp_value_read: the pool starts empty. */
  method Read(buf: Buf, pool: ReadPool) returns (r: Result<Cell>, ghost deepest: nat)
    requires buf.Valid() && pool.Valid()
    modifies buf`rd, pool`used, pool.cells
    ensures buf.Valid() && pool.Valid() && old(buf.rd) <= buf.rd
    ensures ReadAs(ValueAt(buf.written, old(buf.rd), 0), r, buf.rd, pool.cells[..], 0, pool.used)
    ensures deepest <= DEEPEST
  {
    hide ValueAt, Stored, Nodes;
    pool.used := 0;
    r, deepest := ReadImpl(buf, pool, 1);
  }
}
