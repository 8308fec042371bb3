/**
 The compact-array decoder over cursor buffers (src/codec/serialize.c:496-529, 840-1077): windows on the
 description and the contents, a counting pass, and a walk that fills the pool.
 */
module CompactRead {
  import opened Octets
  import opened Lengths
  import opened Values
  import opened Compact
  import opened SkipDepth
  import opened FieldRead
  import opened Pool

  /** A second cursor over some of the octets of a buffer. */
  method Window(buf: Buf, from: nat, upto: nat) returns (w: Buf)
    requires buf.Valid() && from <= upto <= buf.wr
    ensures fresh(w) && fresh(w.mem) && w.Valid() && w.rd == 0 && w.written == buf.written[from..upto]
  {
    var part := buf.mem[from..upto];
    var mem := new byte[upto - from](i requires 0 <= i < upto - from => part[i]);
    w := new Buf.Received(mem);
    assert mem[..] == part == buf.written[from..upto];
  }

  // ── Type descriptions ──────────────────────────────────────────────────────

  /** skip_type_description; `deepest` is the level the recursion reaches, `base` that of the outermost call. */
  method SkipTypeDescription(buf: Buf, depth: nat, ghost base: nat) returns (r: Result<()>, ghost deepest: nat)
    requires buf.Valid() && depth <= MAX_TYPE_DEPTH
    modifies buf`rd
    ensures buf.Valid() && old(buf.rd) <= buf.rd
    ensures var at := SkipType(buf.written, old(buf.rd), depth);
            if at.Ok? then r.Ok? && buf.rd == at.value else r == Fail(at.err)
    ensures deepest <= base + MAX_TYPE_DEPTH
    decreases |buf.written| - buf.rd, 0
  {
    hide LenAt;
    deepest := base + depth;
    if depth >= MAX_TYPE_DEPTH { r := Fail(Invalid); return; }
    var tag := buf.ReadU8();
    if tag.Fail? { r := Fail(tag.err); return; }
    if tag.value == STRUCTURE {
      var n := ReadLen(buf);
      if n.Fail? { r := Fail(n.err); return; }
      r, deepest := SkipTypeDescriptions(buf, n.value, depth + 1, base);
    } else if tag.value == ARRAY {
      if buf.wr - buf.rd < 2 { r := Fail(Invalid); return; }
      buf.rd := buf.rd + 2;
      r, deepest := SkipTypeDescription(buf, depth + 1, base);
    } else {
      r := Ok(());
    }
  }

  method SkipTypeDescriptions(buf: Buf, n: nat, depth: nat, ghost base: nat) returns (r: Result<()>, ghost deepest: nat)
    requires buf.Valid() && depth <= MAX_TYPE_DEPTH
    modifies buf`rd
    ensures buf.Valid() && old(buf.rd) <= buf.rd
    ensures var at := SkipTypes(buf.written, old(buf.rd), n, depth);
            if at.Ok? then r.Ok? && buf.rd == at.value else r == Fail(at.err)
    ensures deepest <= base + MAX_TYPE_DEPTH
    decreases |buf.written| - buf.rd, n + 1
  {
    hide SkipType;
    ghost var goal := SkipTypes(buf.written, buf.rd, n, depth);
    deepest := base;
    for i := 0 to n
      invariant buf.Valid() && old(buf.rd) <= buf.rd
      invariant goal == SkipTypes(buf.written, buf.rd, n - i, depth)
      invariant deepest <= base + MAX_TYPE_DEPTH
    {
      ghost var inner;
      r, inner := SkipTypeDescription(buf, depth, base);
      deepest := Deeper(deepest, inner);
      if r.Fail? { return; }
    }
    r := Ok(());
  }

  ghost function Deeper(a: nat, b: nat): nat { if a >= b then a else b }

  // ── The skip pass ──────────────────────────────────────────────────────────

  method SkipBytes(c: Buf, n: nat) returns (r: Result<()>)
    requires c.Valid()
    modifies c`rd
    ensures c.Valid() && old(c.rd) <= c.rd
    ensures var at := SkipOctets(c.written, old(c.rd), n);
            if at.Ok? then r.Ok? && c.rd == at.value else r == Fail(at.err)
  {
    if c.wr - c.rd < n { return Fail(Invalid); }
    c.rd := c.rd + n;
    return Ok(());
  }

  method SkipPackedValue(c: Buf, tag: byte) returns (r: Result<()>)
    requires c.Valid()
    modifies c`rd
    ensures c.Valid() && old(c.rd) <= c.rd
    ensures var at := SkipPacked(c.written, old(c.rd), tag);
            if at.Ok? then r.Ok? && c.rd == at.value else r == Fail(at.err)
  {
    hide LenAt, SkipOctets, FormOf;
    var fixed := TypeSize(tag);
    if fixed > 0 { r := SkipBytes(c, fixed); return; }
    if FormOf(tag).NullForm? { return Ok(()); }
    if !FormOf(tag).TextForm? && !FormOf(tag).BitsForm? { return Fail(Unsupported); }
    var n := ReadLen(c);
    if n.Fail? { return Fail(n.err); }
    r := SkipBytes(c, if FormOf(tag).TextForm? then n.value else (n.value as int + 7) % 0x1_0000_0000 / 8);
  }

  method ReadTwo(d: Buf) returns (r: Result<nat>)
    requires d.Valid()
    modifies d`rd
    ensures d.Valid() && old(d.rd) <= d.rd
    ensures if |d.written| - old(d.rd) < 2 then r == Fail(Invalid)
            else r == Ok(Two(d.written, old(d.rd))) && d.rd == old(d.rd) + 2
  {
    if d.wr - d.rd < 2 { return Fail(Invalid); }
    var n := ReadOctets(d, 2);
    return Ok(n);
  }

  /** Both cursors move as the outcome says. */
  ghost predicate Moved(at: Result<(nat, nat)>, r: Result<()>, dp: nat, cp: nat) {
    match at
    case Ok(ends) => r.Ok? && dp == ends.0 && cp == ends.1
    case Fail(err) => r == Fail(err)
  }

  /** compact_skip_description, on a description that skip_type_description accepted. */
  method SkipDescription(d: Buf, c: Buf, ghost level: nat, ghost base: nat) returns (r: Result<()>, ghost deepest: nat)
    requires d.Valid() && c.Valid() && d != c && Accepted(d.written, d.rd, level)
    modifies d`rd, c`rd
    ensures d.Valid() && c.Valid() && old(d.rd) <= d.rd && old(c.rd) <= c.rd
    ensures Moved(SkipDesc(d.written, old(d.rd), c.written, old(c.rd)), r, d.rd, c.rd)
    ensures deepest < base + MAX_TYPE_DEPTH
    decreases |d.written| - d.rd, 0
  {
    hide LenAt, SkipPacked, Accepted, SkipTypes;
    AcceptedParts(d.written, d.rd, level);
    deepest := base + level;
    var tag := d.ReadU8();
    if tag.Fail? { r := Fail(tag.err); return; }
    if tag.value == STRUCTURE {
      var n := ReadLen(d);
      if n.Fail? { r := Fail(n.err); return; }
      r, deepest := SkipFieldDescriptions(d, c, n.value, level + 1, base);
    } else if tag.value == ARRAY {
      var n := ReadTwo(d);
      if n.Fail? { r := Fail(n.err); return; }
      r, deepest := SkipElements(d, c, n.value, level + 1, base);
    } else {
      r := SkipPackedValue(c, tag.value);
    }
  }

  method SkipFieldDescriptions(d: Buf, c: Buf, n: nat, ghost level: nat, ghost base: nat)
    returns (r: Result<()>, ghost deepest: nat)
    requires d.Valid() && c.Valid() && d != c && SkipTypes(d.written, d.rd, n, level).Ok?
    modifies d`rd, c`rd
    ensures d.Valid() && c.Valid() && old(d.rd) <= d.rd && old(c.rd) <= c.rd
    ensures Moved(SkipFields(d.written, old(d.rd), c.written, old(c.rd), n), r, d.rd, c.rd)
    ensures deepest < base + MAX_TYPE_DEPTH
    decreases |d.written| - d.rd, n + 1
  {
    hide SkipDesc, SkipType;
    ghost var goal := SkipFields(d.written, d.rd, c.written, c.rd, n);
    ghost var left := n;
    deepest := base;
    for i := 0 to n
      invariant d.Valid() && c.Valid() && old(d.rd) <= d.rd && old(c.rd) <= c.rd
      invariant goal == SkipFields(d.written, d.rd, c.written, c.rd, n - i)
      invariant left >= n - i && SkipTypes(d.written, d.rd, left, level).Ok? && deepest < base + MAX_TYPE_DEPTH
    {
      ghost var dp, cp := d.rd, c.rd;
      ghost var inner;
      r, inner := SkipDescription(d, c, level, base);
      deepest := Deeper(deepest, inner);
      if r.Fail? { return; }
      ghost var m := Residue(d.written, dp, c.written, cp, level);
      SkipTypesJoin(d.written, d.rd, m, left - 1, level);
      left := m + (left - 1);
    }
    r := Ok(());
  }

  method SkipElements(d: Buf, c: Buf, n: nat, ghost level: nat, ghost base: nat)
    returns (r: Result<()>, ghost deepest: nat)
    requires d.Valid() && c.Valid() && d != c && Accepted(d.written, d.rd, level)
    modifies d`rd, c`rd
    ensures d.Valid() && c.Valid() && old(d.rd) <= d.rd && old(c.rd) <= c.rd
    ensures Moved(SkipRepeat(d.written, old(d.rd), old(d.rd), c.written, old(c.rd), n), r, d.rd, c.rd)
    ensures deepest < base + MAX_TYPE_DEPTH
    decreases |d.written| - d.rd, n + 1
  {
    hide SkipDesc, SkipType;
    var elem := d.rd;
    ghost var goal := SkipRepeat(d.written, elem, elem, c.written, c.rd, n);
    deepest := base;
    for i := 0 to n
      invariant d.Valid() && c.Valid() && elem <= d.rd && old(c.rd) <= c.rd && deepest < base + MAX_TYPE_DEPTH
      invariant goal == SkipRepeat(d.written, elem, d.rd, c.written, c.rd, n - i)
    {
      d.rd := elem;
      ghost var inner;
      r, inner := SkipDescription(d, c, level, base);
      deepest := Deeper(deepest, inner);
      if r.Fail? { return; }
    }
    r := Ok(());
  }

  method CountElements(d: Buf, c: Buf, ghost base: nat) returns (r: Result<nat>, ghost deepest: nat)
    requires d.Valid() && c.Valid() && d != c && Accepted(d.written, 0, 0)
    modifies d`rd, c`rd
    ensures d.Valid() && c.Valid()
    ensures r == Count(d.written, c.written, old(c.rd), 0)
    ensures deepest < base + MAX_TYPE_DEPTH
  {
    hide SkipDesc, SkipType;
    var count := 0;
    ghost var goal := Count(d.written, c.written, c.rd, 0);
    deepest := base;
    while c.rd < c.wr
      invariant d.Valid() && c.Valid() && count <= MAX_ARRAY && deepest < base + MAX_TYPE_DEPTH
      invariant goal == Count(d.written, c.written, c.rd, count)
      decreases MAX_ARRAY - count
    {
      if count >= MAX_ARRAY { r := Fail(NoMem); return; }
      d.rd := 0;
      var s: Result<()>;
      ghost var inner;
      s, inner := SkipDescription(d, c, 0, base);
      deepest := Deeper(deepest, inner);
      if s.Fail? { r := Fail(s.err); return; }
      count := count + 1;
    }
    r := Ok(count);
  }

  // ── The walk pass ──────────────────────────────────────────────────────────

  method ReadPackedBits(c: Buf) returns (r: Result<Value>)
    requires c.Valid()
    modifies c`rd
    ensures c.Valid() && old(c.rd) <= c.rd
    ensures var at := PackedAt(c.written, old(c.rd), BitsForm);
            if at.Ok? then r == Ok(at.value.0) && c.rd == at.value.1 else r == Fail(at.err)
  {
    hide LenAt;
    var n := ReadLen(c);
    if n.Fail? { return Fail(n.err); }
    if n.value > MAX_BITS { return Fail(Invalid); }
    var bits := ReadSlice(c, (n.value as int + 7) / 8);
    if bits.Fail? { return Fail(bits.err); }
    return Ok(BitString(n.value, bits.value));
  }

  method ReadPackedValue(c: Buf, form: Form) returns (r: Result<Value>)
    requires c.Valid()
    modifies c`rd
    ensures c.Valid() && old(c.rd) <= c.rd
    ensures var at := PackedAt(c.written, old(c.rd), form);
            if at.Ok? then r == Ok(at.value.0) && c.rd == at.value.1 else r == Fail(at.err)
  {
    hide TextAt, PlainAt, LenAt, PackedBits;
    if form.TextForm? {
      var text := ReadText(c, PackedLimit(form.text), Invalid);
      if text.Fail? { return Fail(text.err); }
      return Ok(Text(form.text, text.value));
    }
    if form.BitsForm? { r := ReadPackedBits(c); return; }
    r := ReadPlain(c, form);
  }

  /** The cell, both cursors and the pool are as the walk says. */
  ghost predicate Walked(at: Result<(Value, nat, nat)>, r: Result<Cell>, dp: nat, cp: nat, cells: seq<Cell>, lo: nat,
                         used: nat) {
    match at
    case Ok((v, e, q)) => r.Ok? && dp == e && cp == q && used == lo + Nodes(v) && Stored(cells, r.value, v, lo)
    case Fail(err) => r == Fail(err)
  }

  ghost predicate WalkedAll(at: Result<(seq<Value>, nat, nat)>, r: Result<()>, dp: nat, cp: nat, cells: seq<Cell>,
                            start: nat, base: nat, used: nat) {
    match at
    case Ok((items, e, q)) =>
      r.Ok? && dp == e && cp == q && used == base + AllNodes(items) && StoredAll(cells, start, items, base)
    case Fail(err) => r == Fail(err)
  }

  /** compact_walk_description; `deepest` is the depth the recursion reaches. */
  method WalkDescription(d: Buf, c: Buf, pool: ReadPool, ghost depth: nat) returns (r: Result<Cell>, ghost deepest: nat)
    requires d.Valid() && c.Valid() && d != c && pool.Valid() && depth <= pool.used + 1
    modifies d`rd, c`rd, pool`used, pool.cells
    ensures d.Valid() && c.Valid() && pool.Valid() && old(d.rd) <= d.rd && old(c.rd) <= c.rd
    ensures old(pool.used) <= pool.used && Agree(old(pool.cells[..]), pool.cells[..], 0, old(pool.used))
    ensures Walked(Walk(d.written, old(d.rd), c.written, old(c.rd), old(pool.used)), r, d.rd, c.rd,
                   pool.cells[..], old(pool.used), pool.used)
    ensures deepest <= POOL + 1
    decreases |d.written| - d.rd, 0
  {
    hide LenAt, PackedAt, WalkList, StoredAll, AllNodes, FormOf;
    deepest := depth;
    var tag := d.ReadU8();
    if tag.Fail? { r := Fail(tag.err); return; }
    if tag.value == STRUCTURE {
      var n := ReadLen(d);
      if n.Fail? { r := Fail(n.err); return; }
      r, deepest := WalkListInto(d, c, pool, n.value, false, depth);
    } else if tag.value == ARRAY {
      var n := ReadTwo(d);
      if n.Fail? { r := Fail(n.err); return; }
      r, deepest := WalkListInto(d, c, pool, n.value, true, depth);
    } else {
      var leaf := ReadPackedValue(c, FormOf(tag.value));
      r := if leaf.Ok? then Ok(Leaf(leaf.value)) else Fail(leaf.err);
    }
  }

  /** The slice for n elements, then the elements. */
  method WalkListInto(d: Buf, c: Buf, pool: ReadPool, n: nat, isArray: bool, ghost depth: nat)
    returns (r: Result<Cell>, ghost deepest: nat)
    requires d.Valid() && c.Valid() && d != c && pool.Valid() && depth <= pool.used + 1
    modifies d`rd, c`rd, pool`used, pool.cells
    ensures d.Valid() && c.Valid() && pool.Valid() && old(d.rd) <= d.rd && old(c.rd) <= c.rd
    ensures old(pool.used) <= pool.used && Agree(old(pool.cells[..]), pool.cells[..], 0, old(pool.used))
    ensures Walked(WalkList(d.written, old(d.rd), c.written, old(c.rd), old(pool.used), n, isArray), r, d.rd, c.rd,
                   pool.cells[..], old(pool.used), pool.used)
    ensures deepest <= POOL + 1
    decreases |d.written| - d.rd, n + 3
  {
    hide WalkFields, WalkRepeat, StoredAll, AllNodes;
    deepest := depth;
    if n > ListLimit(isArray) || pool.used + n > POOL { r := Fail(NoMem); return; }
    var start := pool.used;
    pool.used := pool.used + n;
    var all: Result<()>;
    ghost var inner;
    if isArray {
      all, inner := WalkElements(d, c, pool, start, n, depth + 1);
    } else {
      all, inner := WalkFieldList(d, c, pool, start, n, depth + 1);
    }
    deepest := Deeper(depth, inner);
    r := if all.Ok? then Ok(Slice(isArray, start, n)) else Fail(all.err);
  }

  /** The next element goes to the slot after those already stored. */
  ghost predicate WalkedInto(at: Result<(Value, nat, nat)>, r: Result<()>, dp: nat, cp: nat, cells: seq<Cell>,
                             start: nat, items: seq<Value>, base: nat, used: nat) {
    match at
    case Ok((v, e, q)) =>
      && r.Ok? && dp == e && cp == q && used == base + AllNodes(items + [v])
      && AllNodes(items + [v]) == AllNodes(items) + Nodes(v)
      && StoredAll(cells, start, items + [v], base)
    case Fail(err) => r == Fail(err)
  }

  method WalkInto(d: Buf, c: Buf, pool: ReadPool, start: nat, slot: nat, ghost items: seq<Value>, ghost base: nat,
                  ghost depth: nat)
    returns (r: Result<()>, ghost deepest: nat)
    requires d.Valid() && c.Valid() && d != c && pool.Valid() && depth <= pool.used + 1
    requires slot == start + |items| < base && pool.used == base + AllNodes(items) &&
             StoredAll(pool.cells[..], start, items, base)
    modifies d`rd, c`rd, pool`used, pool.cells
    ensures d.Valid() && c.Valid() && pool.Valid() && old(d.rd) <= d.rd && old(c.rd) <= c.rd
    ensures old(pool.used) <= pool.used && Agree(old(pool.cells[..]), pool.cells[..], 0, start)
    ensures WalkedInto(Walk(d.written, old(d.rd), c.written, old(c.rd), old(pool.used)), r, d.rd, c.rd,
                       pool.cells[..], start, items, base, pool.used)
    ensures deepest <= POOL + 1
    decreases |d.written| - d.rd, 1
  {
    hide Walk, StoredAll, Stored, Nodes;
    ghost var before, at := pool.cells[..], Walk(d.written, d.rd, c.written, c.rd, pool.used);
    var cell: Result<Cell>;
    cell, deepest := WalkDescription(d, c, pool, depth);
    if cell.Fail? { r := Fail(cell.err); return; }
    ghost var v, mid := at.value.0, pool.cells[..];
    StoredOneMore(before, mid, start, items, base, cell.value, v);
    pool.cells[slot] := cell.value;
    assert pool.cells[..] == mid[slot := cell.value];
    assert (items + [v])[..|items|] == items;
    r := Ok(());
  }

  /** The loop over the fields of a structure. */
  method WalkFieldList(d: Buf, c: Buf, pool: ReadPool, start: nat, n: nat, ghost depth: nat)
    returns (r: Result<()>, ghost deepest: nat)
    requires d.Valid() && c.Valid() && d != c && pool.Valid() && start + n == pool.used
    requires n > 0 ==> depth <= pool.used + 1
    modifies d`rd, c`rd, pool`used, pool.cells
    ensures d.Valid() && c.Valid() && pool.Valid() && old(d.rd) <= d.rd && old(c.rd) <= c.rd
    ensures old(pool.used) <= pool.used && Agree(old(pool.cells[..]), pool.cells[..], 0, start)
    ensures WalkedAll(WalkFields(d.written, old(d.rd), c.written, old(c.rd), old(pool.used), n, []),
                      r, d.rd, c.rd, pool.cells[..], start, old(pool.used), pool.used)
    ensures deepest <= POOL + 1
    decreases |d.written| - d.rd, n + 2
  {
    hide Walk, StoredAll, Nodes, AllNodes;
    ghost var base := pool.used;
    ghost var items: seq<Value> := [];
    ghost var goal := WalkFields(d.written, d.rd, c.written, c.rd, base, n, []);
    deepest := 0;
    StoredNone(pool.cells[..], start, base);
    for i := 0 to n
      invariant d.Valid() && c.Valid() && pool.Valid() && old(d.rd) <= d.rd && old(c.rd) <= c.rd
      invariant |items| == i && pool.used == base + AllNodes(items)
      invariant goal == WalkFields(d.written, d.rd, c.written, c.rd, pool.used, n - i, items)
      invariant StoredAll(pool.cells[..], start, items, base)
      invariant Agree(old(pool.cells[..]), pool.cells[..], 0, start)
      invariant deepest <= POOL + 1
    {
      ghost var at := Walk(d.written, d.rd, c.written, c.rd, pool.used);
      ghost var inner;
      r, inner := WalkInto(d, c, pool, start, start + i, items, base, depth);
      deepest := Deeper(deepest, inner);
      if r.Fail? { return; }
      items := items + [at.value.0];
    }
    r := Ok(());
  }

  /** The loop over the elements of an array: each starts again at the element description. */
  method WalkElements(d: Buf, c: Buf, pool: ReadPool, start: nat, n: nat, ghost depth: nat)
    returns (r: Result<()>, ghost deepest: nat)
    requires d.Valid() && c.Valid() && d != c && pool.Valid() && start + n == pool.used
    requires n > 0 ==> depth <= pool.used + 1
    modifies d`rd, c`rd, pool`used, pool.cells
    ensures d.Valid() && c.Valid() && pool.Valid() && old(d.rd) <= d.rd && old(c.rd) <= c.rd
    ensures old(pool.used) <= pool.used && Agree(old(pool.cells[..]), pool.cells[..], 0, start)
    ensures WalkedAll(WalkRepeat(d.written, old(d.rd), old(d.rd), c.written, old(c.rd), old(pool.used), n, []),
                      r, d.rd, c.rd, pool.cells[..], start, old(pool.used), pool.used)
    ensures deepest <= POOL + 1
    decreases |d.written| - d.rd, n + 2
  {
    hide Walk, StoredAll, Nodes, AllNodes;
    var elem := d.rd;
    ghost var base := pool.used;
    ghost var items: seq<Value> := [];
    ghost var goal := WalkRepeat(d.written, elem, d.rd, c.written, c.rd, base, n, []);
    deepest := 0;
    StoredNone(pool.cells[..], start, base);
    for i := 0 to n
      invariant d.Valid() && c.Valid() && pool.Valid() && old(d.rd) <= d.rd && old(c.rd) <= c.rd
      invariant |items| == i && pool.used == base + AllNodes(items)
      invariant goal == WalkRepeat(d.written, elem, d.rd, c.written, c.rd, pool.used, n - i, items)
      invariant StoredAll(pool.cells[..], start, items, base)
      invariant Agree(old(pool.cells[..]), pool.cells[..], 0, start)
      invariant deepest <= POOL + 1
    {
      d.rd := elem;
      ghost var at := Walk(d.written, d.rd, c.written, c.rd, pool.used);
      ghost var inner;
      r, inner := WalkInto(d, c, pool, start, start + i, items, base, depth);
      deepest := Deeper(deepest, inner);
      if r.Fail? { return; }
      items := items + [at.value.0];
    }
    r := Ok(());
  }

  // ── The whole array ────────────────────────────────────────────────────────

  ghost predicate Decoded(at: Result<Value>, r: Result<Cell>, cells: seq<Cell>, lo: nat, used: nat) {
    match at
    case Ok(v) => r.Ok? && used == lo + Nodes(v) && Stored(cells, r.value, v, lo)
    case Fail(err) => r == Fail(err)
  }

  method WalkRows(d: Buf, c: Buf, pool: ReadPool, start: nat, n: nat, ghost depth: nat)
    returns (r: Result<()>, ghost deepest: nat)
    requires d.Valid() && c.Valid() && d != c && pool.Valid() && start + n == pool.used && c.rd == 0
    requires n > 0 ==> depth <= pool.used + 1
    modifies d`rd, c`rd, pool`used, pool.cells
    ensures d.Valid() && c.Valid() && pool.Valid()
    ensures old(pool.used) <= pool.used && Agree(old(pool.cells[..]), pool.cells[..], 0, start)
    ensures var at := Rows(d.written, c.written, 0, old(pool.used), n, []);
            if at.Ok? then r.Ok? && pool.used == old(pool.used) + AllNodes(at.value) &&
                           StoredAll(pool.cells[..], start, at.value, old(pool.used))
            else r == Fail(at.err)
    ensures deepest <= POOL + 1
  {
    hide Walk, StoredAll, Nodes, AllNodes;
    ghost var base := pool.used;
    ghost var items: seq<Value> := [];
    ghost var goal := Rows(d.written, c.written, 0, base, n, []);
    deepest := 0;
    StoredNone(pool.cells[..], start, base);
    for i := 0 to n
      invariant d.Valid() && c.Valid() && pool.Valid()
      invariant |items| == i && pool.used == base + AllNodes(items)
      invariant goal == Rows(d.written, c.written, c.rd, pool.used, n - i, items)
      invariant StoredAll(pool.cells[..], start, items, base)
      invariant Agree(old(pool.cells[..]), pool.cells[..], 0, start)
      invariant deepest <= POOL + 1
    {
      d.rd := 0;
      ghost var at := Walk(d.written, 0, c.written, c.rd, pool.used);
      ghost var inner;
      r, inner := WalkInto(d, c, pool, start, start + i, items, base, depth);
      deepest := Deeper(deepest, inner);
      if r.Fail? { return; }
      items := items + [at.value.0];
    }
    r := Ok(());
  }

  /** The pool bounds the levels with elements; a skip pass adds one level and 16 more. */
  const DEEPEST: nat := POOL + 1 + 1 + MAX_TYPE_DEPTH

  method DecodeElements(d: Buf, c: Buf, pool: ReadPool, ghost depth: nat) returns (r: Result<Cell>, ghost deepest: nat)
    requires d.Valid() && c.Valid() && d != c && pool.Valid() && c.rd == 0 && depth <= pool.used + 1
    requires Accepted(d.written, 0, 0)
    modifies d`rd, c`rd, pool`used, pool.cells
    ensures pool.Valid() && old(pool.used) <= pool.used && Agree(old(pool.cells[..]), pool.cells[..], 0, old(pool.used))
    ensures Decoded(Decode(d.written, c.written, old(pool.used)), r, pool.cells[..], old(pool.used), pool.used)
    ensures deepest <= DEEPEST
  {
    hide Count, Rows, StoredAll, AllNodes, SkipType;
    var n: Result<nat>;
    n, deepest := CountElements(d, c, depth + 1);
    if n.Fail? { r := Fail(n.err); return; }
    if pool.used + n.value > POOL { r := Fail(NoMem); return; }
    var start := pool.used;
    pool.used := pool.used + n.value;
    c.rd := 0;
    var all: Result<()>;
    ghost var inner;
    all, inner := WalkRows(d, c, pool, start, n.value, depth + 1);
    deepest := Deeper(deepest, inner);
    r := if all.Ok? then Ok(Slice(true, start, n.value)) else Fail(all.err);
  }

  /** The cell, the cursor and the pool are as a read says. */
  ghost predicate ReadAs(at: Result<(Value, nat)>, r: Result<Cell>, rd: nat, cells: seq<Cell>, lo: nat, used: nat) {
    match at
    case Ok((v, e)) => r.Ok? && rd == e && used == lo + Nodes(v) && Stored(cells, r.value, v, lo)
    case Fail(err) => r == Fail(err)
  }

  /** Where the description at the cursor ends, found with a second cursor. */
  method DescriptionEnd(buf: Buf, ghost base: nat) returns (r: Result<nat>, ghost deepest: nat)
    requires buf.Valid()
    ensures r == SkipType(buf.written, buf.rd, 0) && deepest <= base + MAX_TYPE_DEPTH
    ensures r.Ok? ==> Accepted(buf.written[buf.rd..r.value], 0, 0)
  {
    hide SkipType;
    var probe := new Buf.Copy(buf);
    var skipped: Result<()>;
    skipped, deepest := SkipTypeDescription(probe, 0, base);
    if skipped.Fail? { r := Fail(skipped.err); return; }
    TypeInWindow(buf.written, buf.rd, probe.rd, buf.rd, 0);
    r := Ok(probe.rd);
  }

  /** The windows on the description and the contents; the cursor moves past both. */
  method OpenCompact(buf: Buf, ghost base: nat) returns (r: Result<(Buf, Buf)>, ghost deepest: nat)
    requires buf.Valid()
    modifies buf`rd
    ensures buf.Valid() && old(buf.rd) <= buf.rd
    ensures match CompactHead(buf.written, old(buf.rd))
            case Ok((dEnd, p, e)) =>
              && r.Ok? && buf.rd == e && fresh(r.value.0) && fresh(r.value.1) && r.value.0 != r.value.1
              && r.value.0.Valid() && r.value.1.Valid() && r.value.1.rd == 0
              && r.value.0.written == buf.written[old(buf.rd)..dEnd] && r.value.1.written == buf.written[p..e]
              && Accepted(r.value.0.written, 0, 0)
            case Fail(err) => r == Fail(err)
    ensures deepest <= base + MAX_TYPE_DEPTH
  {
    hide SkipType, LenAt, Accepted;
    var dEnd: Result<nat>;
    dEnd, deepest := DescriptionEnd(buf, base);
    if dEnd.Fail? { r := Fail(dEnd.err); return; }
    var d := Window(buf, buf.rd, dEnd.value);
    buf.rd := dEnd.value;
    var n := ReadLen(buf);
    if n.Fail? { r := Fail(n.err); return; }
    if buf.wr - buf.rd < n.value { r := Fail(Invalid); return; }
    var c := Window(buf, buf.rd, buf.rd + n.value);
    buf.rd := buf.rd + n.value;
    r := Ok((d, c));
  }

  /** read_compact_array. */
  method ReadCompact(buf: Buf, pool: ReadPool, ghost depth: nat) returns (r: Result<Cell>, ghost deepest: nat)
    requires buf.Valid() && pool.Valid() && depth <= pool.used + 1
    modifies buf`rd, pool`used, pool.cells
    ensures buf.Valid() && pool.Valid() && old(buf.rd) <= buf.rd
    ensures old(pool.used) <= pool.used && Agree(old(pool.cells[..]), pool.cells[..], 0, old(pool.used))
    ensures ReadAs(CompactAt(buf.written, old(buf.rd), old(pool.used)), r, buf.rd, pool.cells[..], old(pool.used),
            pool.used)
    ensures deepest <= DEEPEST
  {
    hide CompactHead, Decode, Stored, Nodes, SkipType;
    var windows: Result<(Buf, Buf)>;
    windows, deepest := OpenCompact(buf, depth + 1);
    if windows.Fail? { r := Fail(windows.err); return; }
    ghost var inner;
    r, inner := DecodeElements(windows.value.0, windows.value.1, pool, depth);
    deepest := Deeper(deepest, inner);
  }
}
