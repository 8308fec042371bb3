/**
 Compact arrays of rows that differ in shape (src/codec/serialize.c:531-570, 943-1115): the writer describes them by
 the first row alone and accepts them, and they come back as they were exactly when they are uniform after all.
 */
module CompactMixed {
  import opened Octets
  import opened Lengths
  import opened Values
  import opened Compact
  import opened CompactTrip
  import opened CompactWrite
  import opened ValueWrite

  // ── The shape a description denotes ────────────────────────────────────────

  /** The shape by which write_type_description describes a value: arrays by their first element. */
  function ShapeOf(v: Value): Shape {
    if !v.List? then Leaf(Tag(v))
    else if !v.isArray then StructOf(ShapesOf(v.items))
    else ArrayOf(|v.items|, if v.items == [] then Leaf(0) else ShapeOf(v.items[0]))
  }

  function ShapesOf(items: seq<Value>): (fs: seq<Shape>)
    ensures |fs| == |items|
  {
    if items == [] then [] else [ShapeOf(items[0])] + ShapesOf(items[1..])
  }

  /** No array in it is empty. */
  predicate Proper(sh: Shape) {
    match sh
    case Leaf(_) => true
    case StructOf(fs) => forall i :: 0 <= i < |fs| ==> Proper(fs[i])
    case ArrayOf(n, elem) => n > 0 && Proper(elem)
  }

  lemma {:induction false} DescribedBy(v: Value)
    requires TypeDesc(v).Ok?
    ensures TypeDesc(v) == Ok(TypeBytes(ShapeOf(v))) && Proper(ShapeOf(v)) && (Representable(v) ==> Small(ShapeOf(v)))
    decreases v, 0
  {
    hide LenBytes, BigEndian;
    if v.List? {
      if !v.isArray {
        AllDescribedBy(v.items);
      } else {
        DescribedBy(v.items[0]);
      }
    } else {
      LeafTag(v);
    }
  }

  lemma {:induction false} AllDescribedBy(items: seq<Value>)
    requires TypeDescAll(items).Ok?
    ensures TypeDescAll(items) == Ok(TypeAll(ShapesOf(items)))
    ensures forall i :: 0 <= i < |items| ==> Proper(ShapesOf(items)[i])
    ensures forall i :: 0 <= i < |items| && Representable(items[i]) ==> Small(ShapesOf(items)[i])
    decreases items, 1
  {
    hide TypeDesc, TypeBytes, Proper, Small, Representable;
    if items != [] {
      DescribedBy(items[0]);
      AllDescribedBy(items[1..]);
      var fs := ShapesOf(items);
      assert fs[1..] == ShapesOf(items[1..]);
      forall i | 0 <= i < |items| ensures Proper(fs[i]) && (Representable(items[i]) ==> Small(fs[i])) {
        if i > 0 { assert fs[i] == fs[1..][i - 1] && items[i] == items[1..][i - 1]; }
      }
    }
  }

  // ── Whatever a walk yields has the described shape ─────────────────────────

  lemma PackedTag(c: seq<byte>, cp: nat, tag: byte)
    requires cp <= |c| && PackedAt(c, cp, FormOf(tag)).Ok?
    ensures var v := PackedAt(c, cp, FormOf(tag)).value.0; Tag(v) == tag && PackWithin(v)
  {
    hide LenAt, PlainAt, Pow256, Size;
    if !FormOf(tag).TextForm? && !FormOf(tag).BitsForm? { PlainWithin(c, cp, FormOf(tag)); }
  }

  lemma {:induction false} WalkFits(d: seq<byte>, dp: nat, c: seq<byte>, cp: nat, used: nat, sh: Shape)
    requires dp <= |d| && cp <= |c| && used <= POOL && Small(sh) && Proper(sh) && At(d, dp, TypeBytes(sh))
    requires Walk(d, dp, c, cp, used).Ok?
    ensures var w := Walk(d, dp, c, cp, used).value; Fits(w.0, sh) && PackWithin(w.0) && w.1 == dp + |TypeBytes(sh)|
    decreases sh, 0
  {
    hide At, LenAt, LenBytes, BigEndian, Two, WalkFields, WalkRepeat, TypeAll, PackedAt, FormOf, Tag;
    hide Within, PackedLimit;
    match sh
    case Leaf(tag) => LeafFits(d, dp, c, cp, used, tag);
    case StructOf(fs) =>
      AtHead(d, dp, STRUCTURE, LenBytes(Len32(|fs|)) + TypeAll(fs));
      LenThen(d, dp + 1, |fs|, TypeAll(fs));
      FieldsFit(d, dp + 1 + |LenBytes(Len32(|fs|))|, c, cp, used + |fs|, [], fs);
    case ArrayOf(n, elem) =>
      AtHead(d, dp, ARRAY, BigEndian(n, 2) + TypeBytes(elem));
      TwoAt(d, dp + 1, n, TypeBytes(elem));
      RepeatFit(d, dp + 3, dp + 3, c, cp, used + n, n, [], elem);
  }

  lemma LeafFits(d: seq<byte>, dp: nat, c: seq<byte>, cp: nat, used: nat, tag: byte)
    requires dp <= |d| && cp <= |c| && used <= POOL && Small(Leaf(tag)) && At(d, dp, [tag])
    requires Walk(d, dp, c, cp, used).Ok?
    ensures var w := Walk(d, dp, c, cp, used).value; Fits(w.0, Leaf(tag)) && PackWithin(w.0) && w.1 == dp + 1
  {
    hide At, WalkList, PackedAt, FormOf, Tag, PackWithin;
    AtHead(d, dp, tag, []) by { assert [tag] + [] == [tag]; }
    PackedTag(c, cp, tag);
  }

  lemma Prefix(items: seq<Value>, acc: seq<Value>, v: Value)
    requires |acc| < |items| && items[..|acc| + 1] == acc + [v]
    ensures items[..|acc|] == acc && items[|acc|] == v
  {
    assert items[..|acc|] == items[..|acc| + 1][..|acc|] && items[|acc|] == items[..|acc| + 1][|acc|];
  }

  lemma {:induction false} FieldsFit(d: seq<byte>, dp: nat, c: seq<byte>, cp: nat, used: nat, acc: seq<Value>,
                                     fs: seq<Shape>)
    requires dp <= |d| && cp <= |c| && used <= POOL && At(d, dp, TypeAll(fs))
    requires forall i :: 0 <= i < |fs| ==> Small(fs[i]) && Proper(fs[i])
    requires WalkFields(d, dp, c, cp, used, |fs|, acc).Ok?
    ensures var (items, e, q) := WalkFields(d, dp, c, cp, used, |fs|, acc).value;
            && e == dp + |TypeAll(fs)| && |items| == |acc| + |fs| && items[..|acc|] == acc
            && forall i :: 0 <= i < |fs| ==> Fits(items[|acc| + i], fs[i]) && PackWithin(items[|acc| + i])
    decreases fs, 1
  {
    hide At, Walk, TypeBytes, Small, Proper, Fits, PackWithin;
    if fs != [] {
      AtParts(d, dp, TypeBytes(fs[0]), TypeAll(fs[1..]));
      WalkFits(d, dp, c, cp, used, fs[0]);
      var (v, p, q) := Walk(d, dp, c, cp, used).value;
      FieldsFit(d, p, c, q, used + Nodes(v), acc + [v], fs[1..]);
      var items := WalkFields(d, dp, c, cp, used, |fs|, acc).value.0;
      Prefix(items, acc, v);
      forall i | 0 <= i < |fs| ensures Fits(items[|acc| + i], fs[i]) && PackWithin(items[|acc| + i]) {
        if i > 0 { assert Fits(items[|acc + [v]| + (i - 1)], fs[1..][i - 1]); }
      }
    }
  }

  lemma {:induction false} RepeatFit(d: seq<byte>, elem: nat, dp: nat, c: seq<byte>, cp: nat, used: nat, n: nat,
                                     acc: seq<Value>, sh: Shape)
    requires elem <= dp <= |d| && cp <= |c| && used <= POOL && At(d, elem, TypeBytes(sh)) && Small(sh) && Proper(sh)
    requires WalkRepeat(d, elem, dp, c, cp, used, n, acc).Ok?
    ensures var (items, e, q) := WalkRepeat(d, elem, dp, c, cp, used, n, acc).value;
            && e == (if n == 0 then dp else elem + |TypeBytes(sh)|) && |items| == |acc| + n && items[..|acc|] == acc
            && forall i :: |acc| <= i < |acc| + n ==> Fits(items[i], sh) && PackWithin(items[i])
    decreases sh, 1, n
  {
    hide At, Walk, TypeBytes, Small, Proper, Fits, PackWithin;
    if n > 0 {
      WalkFits(d, elem, c, cp, used, sh);
      var (v, p, q) := Walk(d, elem, c, cp, used).value;
      RepeatFit(d, elem, p, c, q, used + Nodes(v), n - 1, acc + [v], sh);
      var items := WalkRepeat(d, elem, dp, c, cp, used, n, acc).value.0;
      Prefix(items, acc, v);
    }
  }

  lemma {:induction false} RowsFit(d: seq<byte>, c: seq<byte>, cp: nat, used: nat, n: nat, acc: seq<Value>, sh: Shape)
    requires cp <= |c| && used <= POOL && d == TypeBytes(sh) && Small(sh) && Proper(sh)
    requires Rows(d, c, cp, used, n, acc).Ok?
    ensures var rows := Rows(d, c, cp, used, n, acc).value;
            && |rows| == |acc| + n && rows[..|acc|] == acc
            && forall i :: |acc| <= i < |acc| + n ==> Fits(rows[i], sh) && PackWithin(rows[i])
    decreases n
  {
    hide Walk, TypeBytes, Small, Proper, Fits, PackWithin;
    if n > 0 {
      WalkFits(d, 0, c, cp, used, sh);
      var (v, p, q) := Walk(d, 0, c, cp, used).value;
      RowsFit(d, c, q, used + Nodes(v), n - 1, acc + [v], sh);
      var rows := Rows(d, c, cp, used, n, acc).value;
      Prefix(rows, acc, v);
    }
  }

  // ── Mixed rows ─────────────────────────────────────────────────────────────

  /** Whatever the contents, decoding under the description of a shape yields rows of that shape. */
  lemma DecodedFit(sh: Shape, c: seq<byte>, used: nat)
    requires used <= POOL && Small(sh) && Proper(sh) && Decode(TypeBytes(sh), c, used).Ok?
    ensures var v := Decode(TypeBytes(sh), c, used).value;
            && v.List? && v.isArray && |v.items| <= MAX_ARRAY && used + |v.items| + AllNodes(v.items) <= POOL
            && Uniform(v.items, sh)
  {
    hide Rows, Count, TypeBytes, Small, Proper, Fits, PackWithin;
    var d := TypeBytes(sh);
    var n := Count(d, c, 0, 0).value;
    RowsFit(d, c, 0, used + n, n, [], sh);
  }

  /** What reading back takes: one shape with contents, 16 levels, and the limits of the decoder. */
  ghost predicate Readable(rows: seq<Value>, sh: Shape, used: nat) {
    && Uniform(rows, sh) && !ZeroSize(sh) && Levels(sh) <= MAX_TYPE_DEPTH
    && |rows| <= MAX_ARRAY && used + |rows| + AllNodes(rows) <= POOL
  }

  /** Any rows that the writer accepts: reading returns them unchanged if and only if they are readable. */
  lemma ReadBackIff(s: seq<byte>, pos: nat, rows: seq<Value>, used: nat)
    requires used <= POOL && CompactEnc(rows).Ok? && forall i :: 0 <= i < |rows| ==> Representable(rows[i])
    requires At(s, pos, CompactEnc(rows).value[1..])
    ensures CompactAt(s, pos, used) == Ok((List(true, rows), pos + |CompactEnc(rows).value| - 1)) <==>
              Readable(rows, ShapeOf(rows[0]), used)
  {
    hide At, CompactAt, TypeBytes, PackAll, PackWithin, Small, Fits, ZeroSize, Levels, AllNodes, LenBytes, TypeDesc,
        ShapeOf, Proper, Representable, Uniform;
    var sh := ShapeOf(rows[0]);
    DescribedBy(rows[0]);
    assert CompactEnc(rows).value[1..] == CompactBytes(rows, sh);
    AtSlice(s, pos, CompactBytes(rows, sh));
    if Readable(rows, sh, used) {
      CompactRoundTrip(s, pos, rows, sh, used);
    }
    if CompactAt(s, pos, used) == Ok((List(true, rows), pos + |CompactEnc(rows).value| - 1)) {
      CompactFits(s, pos, rows, sh, used);
      CompactRoundTrip(s, pos, rows, sh, used);
    }
  }

  /** What is read from the encoding of any rows, if anything: the description is shallow, and the rows fit it. */
  lemma CompactFits(s: seq<byte>, pos: nat, rows: seq<Value>, sh: Shape, used: nat)
    requires used <= POOL && Small(sh) && Proper(sh) && |PackAll(rows)| < 0x1_0000_0000
    requires At(s, pos, CompactBytes(rows, sh)) && CompactAt(s, pos, used).Ok?
    ensures var v := CompactAt(s, pos, used).value.0;
            && v.List? && v.isArray && |v.items| <= MAX_ARRAY && used + |v.items| + AllNodes(v.items) <= POOL
            && Uniform(v.items, sh) && Levels(sh) <= MAX_TYPE_DEPTH
  {
    hide At, LenAt, LenBytes, TypeBytes, PackAll, Decode, SkipType, Small, Proper, Fits, PackWithin, Levels, AllNodes;
    var t, c := TypeBytes(sh), PackAll(rows);
    AtParts(s, pos, t, LenBytes(Len32(|c|)) + c);
    if Levels(sh) > MAX_TYPE_DEPTH { SkipTypeDeep(s, pos, sh, 0); }
    SkipTypeExact(s, pos, sh, 0);
    LenThen(s, pos + |t|, |c|, c);
    assert s[pos..pos + |t|] == t by { AtSlice(s, pos, t); }
    AtSlice(s, pos + |t| + |LenBytes(Len32(|c|))|, c);
    DecodedFit(sh, c, used);
  }

  /** A description of more than 16 levels is refused, whatever rows it describes. */
  lemma DeepRefused(s: seq<byte>, pos: nat, rows: seq<Value>, used: nat)
    requires used <= POOL && CompactEnc(rows).Ok? && forall i :: 0 <= i < |rows| ==> Representable(rows[i])
    requires At(s, pos, CompactEnc(rows).value[1..]) && Levels(ShapeOf(rows[0])) > MAX_TYPE_DEPTH
    ensures CompactAt(s, pos, used).Fail?
  {
    hide At, TypeBytes, PackAll, Small, LenBytes, TypeDesc, ShapeOf, Proper, Representable, SkipType, Decode, Levels;
    var sh := ShapeOf(rows[0]);
    DescribedBy(rows[0]);
    assert CompactEnc(rows).value[1..] == CompactBytes(rows, sh);
    AtParts(s, pos, TypeBytes(sh), LenBytes(Len32(|PackAll(rows)|)) + PackAll(rows));
    SkipTypeDeep(s, pos, sh, 0);
  }

  lemma AtSlice(s: seq<byte>, pos: nat, x: seq<byte>)
    requires At(s, pos, x)
    ensures pos + |x| <= |s| && s[pos..pos + |x|] == x
  {}

  /** Rows of different types that the writer accepts all the same: a boolean, then an octet. */
  lemma MixedExample()
    ensures var rows := [Bool(true), Fixed(U8, 7)];
            CompactEnc(rows).Ok? && !Fits(rows[1], ShapeOf(rows[0]))
  {
    var rows := [Bool(true), Fixed(U8, 7)];
    assert PackAll(rows) == Pack(rows[0]) + (Pack(rows[1]) + []) by {
      assert rows[1..] == [rows[1]] && [rows[1]][1..] == [];
    }
    assert |Pack(rows[0])| == 1 && |Pack(rows[1])| <= 8;
  }
}
