/**
 The compact-array round trip (src/codec/serialize.c:531-725, 1079-1115): rows of one shape, written
 as a type description and packed contents, come back as they were - exactly when a row occupies
 at least one octet.
 */
module CompactTrip {
  import opened Octets
  import opened Lengths
  import opened Values
  import opened Compact

  // ── Shapes ─────────────────────────────────────────────────────────────────

  datatype Shape = Leaf(tag: byte) | StructOf(fields: seq<Shape>) | ArrayOf(n: nat, elem: Shape)

  /** A value of this shape: nested arrays are non-empty and uniform. */
  predicate Fits(v: Value, sh: Shape)
    decreases sh
  {
    match sh
    case Leaf(tag) => !v.List? && Tag(v) == tag
    case StructOf(fs) =>
      v.List? && !v.isArray && |v.items| == |fs| && forall i :: 0 <= i < |fs| ==> Fits(v.items[i], fs[i])
    case ArrayOf(n, elem) =>
      v.List? && v.isArray && 0 < |v.items| == n && forall i :: 0 <= i < n ==> Fits(v.items[i], elem)
  }

  function TypeBytes(sh: Shape): (s: seq<byte>)
    ensures |s| >= 1
  {
    match sh
    case Leaf(tag) => [tag]
    case StructOf(fs) => [STRUCTURE] + (LenBytes(Len32(|fs|)) + TypeAll(fs))
    case ArrayOf(n, elem) => [ARRAY] + (BigEndian(n, 2) + TypeBytes(elem))
  }

  function TypeAll(fs: seq<Shape>): seq<byte> {
    if fs == [] then [] else TypeBytes(fs[0]) + TypeAll(fs[1..])
  }

  function Levels(sh: Shape): (n: nat)
    ensures n >= 1
  {
    match sh
    case Leaf(_) => 1
    case StructOf(fs) => 1 + MaxLevels(fs)
    case ArrayOf(_, elem) => 1 + Levels(elem)
  }

  function MaxLevels(fs: seq<Shape>): nat {
    if fs == [] then 0 else var a, b := Levels(fs[0]), MaxLevels(fs[1..]); if a >= b then a else b
  }

  /** A shape whose values pack to nothing. */
  predicate ZeroSize(sh: Shape) {
    match sh
    case Leaf(tag) => tag == 0
    case StructOf(fs) => forall i :: 0 <= i < |fs| ==> ZeroSize(fs[i])
    case ArrayOf(_, elem) => ZeroSize(elem)
  }

  // ── The writer ─────────────────────────────────────────────────────────────

  /** pack_value. */
  function Pack(v: Value): seq<byte> {
    if v.List? then PackAll(v.items)
    else if v.BitString? then LenBytes(Len32(v.count)) + v.packed
    else LeafBody(v)
  }

  function PackAll(items: seq<Value>): seq<byte> {
    if items == [] then [] else Pack(items[0]) + PackAll(items[1..])
  }

  function CompactBytes(rows: seq<Value>, sh: Shape): seq<byte> {
    TypeBytes(sh) + (LenBytes(Len32(|PackAll(rows)|)) + PackAll(rows))
  }

  // ── The description is skipped over exactly ────────────────────────────────

  lemma AtHead(s: seq<byte>, pos: nat, b: byte, y: seq<byte>)
    requires At(s, pos, [b] + y)
    ensures pos < |s| && s[pos] == b && At(s, pos + 1, y)
  {
    AtParts(s, pos, [b], y);
    assert s[pos] == s[pos..pos + 1][0];
  }

  lemma TwoAt(s: seq<byte>, pos: nat, n: nat, y: seq<byte>)
    requires n < 0x1_0000 && At(s, pos, BigEndian(n, 2) + y)
    ensures pos + 2 + |y| <= |s| && Two(s, pos) == n && At(s, pos + 2, y)
  {
    AtParts(s, pos, BigEndian(n, 2), y);
    Pow256Values();
    FromBigEndianInverts(n, 2);
  }

  /** Shapes whose counts a description can hold. */
  predicate Small(sh: Shape) {
    match sh
    case Leaf(tag) => tag != STRUCTURE && tag != ARRAY
    case StructOf(fs) => |fs| < 256 && forall i :: 0 <= i < |fs| ==> Small(fs[i])
    case ArrayOf(n, elem) => n < 256 && Small(elem)
  }

  lemma {:induction false} SkipTypeExact(s: seq<byte>, pos: nat, sh: Shape, depth: nat)
    requires Small(sh) && At(s, pos, TypeBytes(sh)) && depth + Levels(sh) <= MAX_TYPE_DEPTH
    ensures SkipType(s, pos, depth) == Ok(pos + |TypeBytes(sh)|)
    decreases sh
  {
    hide At, LenAt, LenBytes, BigEndian, Two, SkipTypes, TypeAll;
    match sh
    case Leaf(tag) => AtHead(s, pos, tag, []) by { assert [tag] + [] == [tag]; }
    case StructOf(fs) =>
      AtHead(s, pos, STRUCTURE, LenBytes(Len32(|fs|)) + TypeAll(fs));
      LenThen(s, pos + 1, |fs|, TypeAll(fs));
      SkipTypesExact(s, pos + 1 + |LenBytes(Len32(|fs|))|, fs, depth + 1);
    case ArrayOf(n, elem) =>
      AtHead(s, pos, ARRAY, BigEndian(n, 2) + TypeBytes(elem));
      TwoAt(s, pos + 1, n, TypeBytes(elem));
      SkipTypeExact(s, pos + 3, elem, depth + 1);
  }

  lemma {:induction false} SkipTypesExact(s: seq<byte>, pos: nat, fs: seq<Shape>, depth: nat)
    requires (forall i :: 0 <= i < |fs| ==> Small(fs[i])) && At(s, pos, TypeAll(fs))
    requires depth + MaxLevels(fs) <= MAX_TYPE_DEPTH
    ensures SkipTypes(s, pos, |fs|, depth) == Ok(pos + |TypeAll(fs)|)
    decreases fs
  {
    hide At, SkipType, TypeBytes, Levels;
    if fs != [] {
      AtParts(s, pos, TypeBytes(fs[0]), TypeAll(fs[1..]));
      SkipTypeExact(s, pos, fs[0], depth);
      SkipTypesExact(s, pos + |TypeBytes(fs[0])|, fs[1..], depth);
    }
  }

  /** Beyond 16 levels it is refused. */
  lemma {:induction false} SkipTypeDeep(s: seq<byte>, pos: nat, sh: Shape, depth: nat)
    requires Small(sh) && At(s, pos, TypeBytes(sh)) && depth + Levels(sh) > MAX_TYPE_DEPTH
    ensures SkipType(s, pos, depth).Fail?
    decreases sh
  {
    hide At, LenAt, LenBytes, BigEndian, Two, SkipTypes, TypeAll;
    match sh
    case Leaf(tag) => {}
    case StructOf(fs) =>
      AtHead(s, pos, STRUCTURE, LenBytes(Len32(|fs|)) + TypeAll(fs));
      LenThen(s, pos + 1, |fs|, TypeAll(fs));
      if depth < MAX_TYPE_DEPTH { SkipTypesDeep(s, pos + 1 + |LenBytes(Len32(|fs|))|, fs, depth + 1); }
    case ArrayOf(n, elem) =>
      AtHead(s, pos, ARRAY, BigEndian(n, 2) + TypeBytes(elem));
      TwoAt(s, pos + 1, n, TypeBytes(elem));
      SkipTypeDeep(s, pos + 3, elem, depth + 1);
  }

  lemma {:induction false} SkipTypesDeep(s: seq<byte>, pos: nat, fs: seq<Shape>, depth: nat)
    requires (forall i :: 0 <= i < |fs| ==> Small(fs[i])) && At(s, pos, TypeAll(fs))
    requires depth <= MAX_TYPE_DEPTH < depth + MaxLevels(fs)
    ensures SkipTypes(s, pos, |fs|, depth).Fail?
    decreases fs
  {
    hide At, SkipType, TypeBytes, Levels;
    AtParts(s, pos, TypeBytes(fs[0]), TypeAll(fs[1..]));
    if depth + Levels(fs[0]) > MAX_TYPE_DEPTH {
      SkipTypeDeep(s, pos, fs[0], depth);
    } else {
      SkipTypeExact(s, pos, fs[0], depth);
      SkipTypesDeep(s, pos + |TypeBytes(fs[0])|, fs[1..], depth);
    }
  }

  // ── One element comes back ─────────────────────────────────────────────────

  /** The limits of packed values: those of plain ones, but for UTF-8 strings. */
  predicate PackWithin(v: Value) {
    match v
    case Text(k, s) => |s| <= PackedLimit(k)
    case List(isArray, items) => |items| <= ListLimit(isArray) && forall i :: 0 <= i < |items| ==> PackWithin(items[i])
    case _ => Within(v)
  }

  lemma {:induction false} WithinPacks(v: Value)
    requires Within(v)
    ensures PackWithin(v)
  {
    if v.List? { forall i | 0 <= i < |v.items| ensures PackWithin(v.items[i]) { WithinPacks(v.items[i]); } }
  }

  /** Limits on a value are limits on its shape. */
  lemma {:induction false} FitsSmall(v: Value, sh: Shape)
    requires PackWithin(v) && Fits(v, sh)
    ensures Small(sh)
    decreases sh
  {
    match sh
    case Leaf(tag) => LeafTag(v);
    case StructOf(fs) => forall i | 0 <= i < |fs| ensures Small(fs[i]) { FitsSmall(v.items[i], fs[i]); }
    case ArrayOf(n, elem) => FitsSmall(v.items[0], elem);
  }

  lemma LeafTag(v: Value)
    requires !v.List?
    ensures Tag(v) != STRUCTURE && Tag(v) != ARRAY
  {
    match v
    case Fixed(k, _) => {}
    case Text(k, _) => {}
    case _ => {}
  }

  lemma PackedRoundTrip(c: seq<byte>, cp: nat, v: Value)
    requires PackWithin(v) && !v.List? && At(c, cp, Pack(v))
    ensures PackedAt(c, cp, FormOf(Tag(v))) == Ok((v, cp + |Pack(v)|))
  {
    FormOfTag(v);
    hide At, LenAt, LenBytes, TextAt, PlainAt, TextBytes, PlainBody, FormOf, Tag;
    if v.Text? {
      TextRoundTrip(c, cp, v.octets, PackedLimit(v.text), Invalid);
    } else if v.BitString? {
      LenThen(c, cp, v.count, v.packed);
      TakeRoundTrip(c, cp + |LenBytes(Len32(v.count))|, v.packed);
    } else {
      PlainRoundTrip(c, cp, v);
    }
  }

  lemma {:induction false} WalkRoundTrip(d: seq<byte>, dp: nat, c: seq<byte>, cp: nat, used: nat, v: Value, sh: Shape)
    requires PackWithin(v) && Fits(v, sh) && used + Nodes(v) <= POOL
    requires At(d, dp, TypeBytes(sh)) && At(c, cp, Pack(v))
    ensures Walk(d, dp, c, cp, used) == Ok((v, dp + |TypeBytes(sh)|, cp + |Pack(v)|))
    decreases sh, 0
  {
    hide At, Walk, Pack, Nodes, PackWithin, Fits;
    if sh.Leaf? {
      WalkLeaf(d, dp, c, cp, used, v, sh.tag);
    } else if sh.StructOf? {
      WalkStruct(d, dp, c, cp, used, v, sh.fields);
    } else {
      WalkArray(d, dp, c, cp, used, v, sh.n, sh.elem);
    }
  }

  lemma {:induction false} WalkStruct(d: seq<byte>, dp: nat, c: seq<byte>, cp: nat, used: nat, v: Value, fs: seq<Shape>)
    requires PackWithin(v) && Fits(v, StructOf(fs)) && used + Nodes(v) <= POOL
    requires At(d, dp, TypeBytes(StructOf(fs))) && At(c, cp, Pack(v))
    ensures Walk(d, dp, c, cp, used) == Ok((v, dp + |TypeBytes(StructOf(fs))|, cp + |Pack(v)|))
    decreases fs, 2
  {
    hide At, LenAt, LenBytes, WalkFields, TypeAll, PackAll, AllNodes;
    AtHead(d, dp, STRUCTURE, LenBytes(Len32(|fs|)) + TypeAll(fs));
    LenThen(d, dp + 1, |fs|, TypeAll(fs));
    FieldsRoundTrip(d, dp + 1 + |LenBytes(Len32(|fs|))|, c, cp, used + |fs|, [], v.items, fs);
    assert [] + v.items == v.items;
  }

  lemma {:induction false} WalkArray(d: seq<byte>, dp: nat, c: seq<byte>, cp: nat, used: nat, v: Value, n: nat,
                                     elem: Shape)
    requires PackWithin(v) && Fits(v, ArrayOf(n, elem)) && used + Nodes(v) <= POOL
    requires At(d, dp, TypeBytes(ArrayOf(n, elem))) && At(c, cp, Pack(v))
    ensures Walk(d, dp, c, cp, used) == Ok((v, dp + |TypeBytes(ArrayOf(n, elem))|, cp + |Pack(v)|))
    decreases elem, 2
  {
    hide At, BigEndian, Two, WalkRepeat, PackAll, AllNodes;
    AtHead(d, dp, ARRAY, BigEndian(n, 2) + TypeBytes(elem));
    TwoAt(d, dp + 1, n, TypeBytes(elem));
    RepeatRoundTrip(d, dp + 3, dp + 3, c, cp, used + n, [], v.items, elem);
    assert [] + v.items == v.items;
  }

  lemma WalkLeaf(d: seq<byte>, dp: nat, c: seq<byte>, cp: nat, used: nat, v: Value, tag: byte)
    requires PackWithin(v) && Fits(v, Leaf(tag)) && used <= POOL
    requires At(d, dp, [tag]) && At(c, cp, Pack(v))
    ensures Walk(d, dp, c, cp, used) == Ok((v, dp + 1, cp + |Pack(v)|))
  {
    hide PackedAt, FormOf, Pack, Tag, PackWithin;
    LeafTag(v);
    AtHead(d, dp, tag, []) by { assert [tag] + [] == [tag]; }
    PackedRoundTrip(c, cp, v);
  }

  /** Nodes of a front and a rest. */
  lemma {:induction false} AllNodesSplit(a: seq<Value>, b: seq<Value>)
    ensures AllNodes(a + b) == AllNodes(a) + AllNodes(b)
  {
    if b == [] {
      assert a + b == a;
    } else {
      AllNodesSplit(a, b[..|b| - 1]);
      assert (a + b)[..|a + b| - 1] == a + b[..|b| - 1];
    }
  }

  lemma HeadNodes(items: seq<Value>)
    requires items != []
    ensures AllNodes(items) == Nodes(items[0]) + AllNodes(items[1..])
  {
    AllNodesSplit([items[0]], items[1..]);
    assert [items[0]] + items[1..] == items;
    assert [items[0]][..0] == [];
  }

  lemma {:induction false} FieldsRoundTrip(d: seq<byte>, dp: nat, c: seq<byte>, cp: nat, used: nat, acc: seq<Value>,
                                           items: seq<Value>, fs: seq<Shape>)
    requires |items| == |fs|
    requires forall i :: 0 <= i < |fs| ==> PackWithin(items[i]) && Fits(items[i], fs[i])
    requires used + AllNodes(items) <= POOL && At(d, dp, TypeAll(fs)) && At(c, cp, PackAll(items))
    ensures WalkFields(d, dp, c, cp, used, |fs|, acc) == Ok((acc + items, dp + |TypeAll(fs)|, cp + |PackAll(items)|))
    decreases fs, 1
  {
    hide At, Walk, TypeBytes, Pack, PackWithin, Fits, Nodes;
    if fs == [] {
      assert acc + items == acc;
    } else {
      HeadNodes(items);
      AtParts(d, dp, TypeBytes(fs[0]), TypeAll(fs[1..]));
      AtParts(c, cp, Pack(items[0]), PackAll(items[1..]));
      WalkRoundTrip(d, dp, c, cp, used, items[0], fs[0]);
      FieldsRoundTrip(d, dp + |TypeBytes(fs[0])|, c, cp + |Pack(items[0])|, used + Nodes(items[0]),
                      acc + [items[0]], items[1..], fs[1..]);
      assert acc + [items[0]] + items[1..] == acc + items;
    }
  }

  lemma {:induction false} RepeatRoundTrip(d: seq<byte>, elem: nat, dp: nat, c: seq<byte>, cp: nat, used: nat,
                                           acc: seq<Value>, items: seq<Value>, sh: Shape)
    requires (forall i :: 0 <= i < |items| ==> PackWithin(items[i]) && Fits(items[i], sh)) && elem <= dp <= |d|
    requires used + AllNodes(items) <= POOL && At(d, elem, TypeBytes(sh)) && At(c, cp, PackAll(items))
    ensures WalkRepeat(d, elem, dp, c, cp, used, |items|, acc) ==
            Ok((acc + items, if items == [] then dp else elem + |TypeBytes(sh)|, cp + |PackAll(items)|))
    decreases sh, 1, |items|
  {
    hide At, Walk, TypeBytes, Pack, PackWithin, Fits, Nodes;
    if items == [] {
      assert acc + items == acc;
    } else {
      HeadNodes(items);
      AtParts(c, cp, Pack(items[0]), PackAll(items[1..]));
      WalkRoundTrip(d, elem, c, cp, used, items[0], sh);
      RepeatRoundTrip(d, elem, elem + |TypeBytes(sh)|, c, cp + |Pack(items[0])|, used + Nodes(items[0]),
                      acc + [items[0]], items[1..], sh);
      assert acc + [items[0]] + items[1..] == acc + items;
    }
  }

  // ── All rows come back ─────────────────────────────────────────────────────

  ghost predicate Uniform(rows: seq<Value>, sh: Shape) {
    forall i :: 0 <= i < |rows| ==> PackWithin(rows[i]) && Fits(rows[i], sh)
  }

  lemma {:induction false} RowsRoundTrip(d: seq<byte>, c: seq<byte>, cp: nat, used: nat, acc: seq<Value>,
                                         rows: seq<Value>, sh: Shape)
    requires Uniform(rows, sh) && d == TypeBytes(sh) && used + AllNodes(rows) <= POOL && At(c, cp, PackAll(rows))
    ensures Rows(d, c, cp, used, |rows|, acc) == Ok(acc + rows)
    decreases |rows|
  {
    hide Walk, TypeBytes, Pack, PackWithin, Fits, Nodes;
    if rows == [] {
      assert acc + rows == acc;
    } else {
      HeadNodes(rows);
      AtParts(c, cp, Pack(rows[0]), PackAll(rows[1..]));
      WalkRoundTrip(d, 0, c, cp, used, rows[0], sh);
      RowsRoundTrip(d, c, cp + |Pack(rows[0])|, used + Nodes(rows[0]), acc + [rows[0]], rows[1..], sh);
      assert acc + [rows[0]] + rows[1..] == acc + rows;
    }
  }

  /** The counting pass finds every row, provided each occupies something. */
  lemma {:induction false} CountsRows(d: seq<byte>, c: seq<byte>, cp: nat, count: nat, rows: seq<Value>, sh: Shape)
    requires Uniform(rows, sh) && d == TypeBytes(sh) && !ZeroSize(sh) && AllNodes(rows) <= POOL
    requires At(c, cp, PackAll(rows)) && cp + |PackAll(rows)| == |c| && count + |rows| <= MAX_ARRAY
    ensures Count(d, c, cp, count) == Ok(count + |rows|)
    decreases |rows|
  {
    hide Walk, SkipDesc, TypeBytes, Pack, PackWithin, Fits, Nodes, ZeroSize;
    if rows != [] {
      HeadNodes(rows);
      AtParts(c, cp, Pack(rows[0]), PackAll(rows[1..]));
      WalkRoundTrip(d, 0, c, cp, 0, rows[0], sh);
      SkipAgrees(d, 0, c, cp, 0);
      PackedNothing(rows[0], sh);
      CountsRows(d, c, cp + |Pack(rows[0])|, count + 1, rows[1..], sh);
    }
  }

  /** A value packs to nothing exactly when its shape says so. */
  lemma {:induction false} PackedNothing(v: Value, sh: Shape)
    requires Fits(v, sh)
    ensures |Pack(v)| == 0 <==> ZeroSize(sh)
    decreases sh
  {
    match sh
    case Leaf(tag) => LeafSize(v);
    case StructOf(fs) =>
      forall i | 0 <= i < |fs| ensures |Pack(v.items[i])| == 0 <==> ZeroSize(fs[i]) {
        PackedNothing(v.items[i], fs[i]);
      }
      PackAllNothing(v.items);
    case ArrayOf(n, elem) =>
      forall i | 0 <= i < n ensures |Pack(v.items[i])| == 0 <==> ZeroSize(elem) { PackedNothing(v.items[i], elem); }
      PackAllNothing(v.items);
      assert |Pack(v.items[0])| == 0 <==> ZeroSize(elem);
  }

  lemma LeafSize(v: Value)
    requires !v.List?
    ensures |Pack(v)| == 0 <==> Tag(v) == 0
  {
    match v
    case Fixed(k, _) => {}
    case Text(k, _) => {}
    case _ => {}
  }

  lemma {:induction false} PackAllNothing(items: seq<Value>)
    ensures |PackAll(items)| == 0 <==> forall i :: 0 <= i < |items| ==> |Pack(items[i])| == 0
  {
    if items != [] {
      PackAllNothing(items[1..]);
      assert forall i :: 1 <= i < |items| ==> items[i] == items[1..][i - 1];
    }
  }

  lemma DecodeRoundTrip(rows: seq<Value>, sh: Shape, used: nat)
    requires Uniform(rows, sh) && 1 <= |rows| <= MAX_ARRAY && used + |rows| + AllNodes(rows) <= POOL
    ensures Decode(TypeBytes(sh), PackAll(rows), used) == Ok(List(true, if ZeroSize(sh) then [] else rows))
  {
    hide Walk, SkipDesc, TypeBytes, PackAll, Pack, PackWithin, Fits, Nodes, AllNodes, ZeroSize;
    var d, c := TypeBytes(sh), PackAll(rows);
    if ZeroSize(sh) {
      forall i | 0 <= i < |rows| ensures |Pack(rows[i])| == 0 { PackedNothing(rows[i], sh); }
      PackAllNothing(rows);
    } else {
      CountsRows(d, c, 0, 0, rows, sh);
      RowsRoundTrip(d, c, 0, used + |rows|, [], rows, sh);
      assert [] + rows == rows;
    }
  }

  /**
   Reading the compact encoding of uniform rows, wherever it stands: the rows themselves if a row
   occupies at least one octet, and an empty array otherwise.
   */
  lemma CompactRoundTrip(s: seq<byte>, pos: nat, rows: seq<Value>, sh: Shape, used: nat)
    requires Uniform(rows, sh) && 1 <= |rows| <= MAX_ARRAY && used + |rows| + AllNodes(rows) <= POOL
    requires Levels(sh) <= MAX_TYPE_DEPTH && |PackAll(rows)| < 0x1_0000_0000
    requires At(s, pos, CompactBytes(rows, sh))
    ensures CompactAt(s, pos, used) ==
            Ok((List(true, if ZeroSize(sh) then [] else rows), pos + |CompactBytes(rows, sh)|))
  {
    hide At, LenAt, LenBytes, TypeBytes, PackAll, Decode, SkipType, AllNodes, PackWithin, Fits, ZeroSize, Levels;
    var t, c := TypeBytes(sh), PackAll(rows);
    AtParts(s, pos, t, LenBytes(Len32(|c|)) + c);
    FitsSmall(rows[0], sh);
    SkipTypeExact(s, pos, sh, 0);
    LenThen(s, pos + |t|, |c|, c);
    DecodeRoundTrip(rows, sh, used);
  }
}
