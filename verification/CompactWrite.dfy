/** The compact-array writer (src/codec/serialize.c:475-490, 531-660, 1079-1115) over a cursor buffer. */
module CompactWrite {
  import opened Octets
  import opened Lengths
  import opened Values
  import opened CompactTrip
  import opened ValueWrite

  // ── The description ────────────────────────────────────────────────────────

  /** write_type_description: arrays are described by their first element, and must have one. */
  function TypeDesc(v: Value): Result<seq<byte>> {
    if !v.List? then Ok([Tag(v)])
    else if !v.isArray then
      var rest :- TypeDescAll(v.items);
      Ok([Tag(v)] + (ListLen(v.items) + rest))
    else if v.items == [] then Fail(Invalid)
    else
      var rest :- TypeDesc(v.items[0]);
      Ok([Tag(v)] + (BigEndian(|v.items|, 2) + rest))
  }

  function TypeDescAll(items: seq<Value>): Result<seq<byte>> {
    if items == [] then Ok([])
    else
      var first :- TypeDesc(items[0]);
      var rest :- TypeDescAll(items[1..]);
      Ok(first + rest)
  }

  /** For a value of a shape, the description is that of the shape. */
  lemma {:induction false} TypeDescOfShape(v: Value, sh: Shape)
    requires Fits(v, sh)
    ensures TypeDesc(v) == Ok(TypeBytes(sh))
    decreases sh
  {
    match sh
    case Leaf(tag) => {}
    case StructOf(fs) => TypeDescAllOfShapes(v.items, fs);
    case ArrayOf(n, elem) => TypeDescOfShape(v.items[0], elem);
  }

  lemma {:induction false} TypeDescAllOfShapes(items: seq<Value>, fs: seq<Shape>)
    requires |items| == |fs| && forall i :: 0 <= i < |fs| ==> Fits(items[i], fs[i])
    ensures TypeDescAll(items) == Ok(TypeAll(fs))
    decreases fs
  {
    if fs != [] {
      TypeDescOfShape(items[0], fs[0]);
      TypeDescAllOfShapes(items[1..], fs[1..]);
    }
  }

  /** As Wrote, for an encoding that may not exist. */
  ghost predicate WroteIf(before: seq<byte>, after: seq<byte>, cap: nat, x: Result<seq<byte>>, ok: bool) {
    match x
    case Ok(bytes) => Wrote(before, after, cap, bytes, ok)
    case Fail(_) => !ok && before <= after
  }

  method WriteType(buf: Buf, v: Value) returns (ok: bool)
    requires buf.Valid() && Representable(v)
    modifies buf`wr, buf`written, buf.mem
    ensures buf.Valid() && WroteIf(old(buf.written), buf.written, buf.mem.Length, TypeDesc(v), ok)
    decreases v, 0
  {
    hide LenBytes, TypeDescAll, BigEndian;
    ghost var before, cap := buf.written, buf.mem.Length;
    ok := buf.WriteU8(Tag(v));
    if !ok || !v.List? { return; }
    ghost var a := buf.written;
    if !v.isArray {
      ok := WriteFieldTypes(buf, v.items);
      var rest := TypeDescAll(v.items);
      if rest.Ok? { WroteThen(before, a, buf.written, cap, [Tag(v)], ListLen(v.items) + rest.value, ok); }
    } else if v.items == [] {
      ok := false;
    } else {
      ok := WriteElementType(buf, |v.items|, v.items[0]);
      var rest := TypeDesc(v.items[0]);
      if rest.Ok? { WroteThen(before, a, buf.written, cap, [Tag(v)], BigEndian(|v.items|, 2) + rest.value, ok); }
    }
  }

  method WriteElementType(buf: Buf, n: nat, v: Value) returns (ok: bool)
    requires buf.Valid() && Representable(v)
    modifies buf`wr, buf`written, buf.mem
    ensures buf.Valid()
    ensures match TypeDesc(v)
            case Ok(rest) => Wrote(old(buf.written), buf.written, buf.mem.Length, BigEndian(n, 2) + rest, ok)
            case Fail(_) => !ok && old(buf.written) <= buf.written
    decreases v, 1
  {
    hide BigEndian, TypeDesc;
    ok := buf.WriteAll(BigEndian(n, 2));
    if !ok { return; }
    ghost var a := buf.written;
    ok := WriteType(buf, v);
    ghost var rest := TypeDesc(v);
    if rest.Ok? { WroteThen(old(buf.written), a, buf.written, buf.mem.Length, BigEndian(n, 2), rest.value, ok); }
  }

  method WriteFieldTypes(buf: Buf, items: seq<Value>) returns (ok: bool)
    requires buf.Valid() && |items| < 256 && forall i :: 0 <= i < |items| ==> Representable(items[i])
    modifies buf`wr, buf`written, buf.mem
    ensures buf.Valid()
    ensures match TypeDescAll(items)
            case Ok(rest) => Wrote(old(buf.written), buf.written, buf.mem.Length, ListLen(items) + rest, ok)
            case Fail(_) => !ok && old(buf.written) <= buf.written
    decreases items, 1
  {
    hide LenBytes, TypeDescAll, Representable;
    var len := WriteLen(buf, |items|);
    if len.Fail? { return false; }
    ghost var start, all := buf.written, TypeDescAll(items);
    ok := WriteTypes(buf, items);
    if all.Ok? { WroteThen(old(buf.written), start, buf.written, buf.mem.Length, ListLen(items), all.value, ok); }
  }

  method WriteTypes(buf: Buf, items: seq<Value>) returns (ok: bool)
    requires buf.Valid() && forall i :: 0 <= i < |items| ==> Representable(items[i])
    modifies buf`wr, buf`written, buf.mem
    ensures buf.Valid() && WroteIf(old(buf.written), buf.written, buf.mem.Length, TypeDescAll(items), ok)
    decreases items, 0
  {
    hide TypeDesc, Representable;
    ghost var start, cap := buf.written, buf.mem.Length;
    ghost var all := TypeDescAll(items);
    ghost var done: seq<byte> := [];
    for i := 0 to |items|
      invariant buf.Valid() && Wrote(start, buf.written, cap, done, true)
      invariant all.Ok? <==> TypeDescAll(items[i..]).Ok?
      invariant all.Ok? ==> done + TypeDescAll(items[i..]).value == all.value
    {
      ghost var mid, desc := buf.written, TypeDesc(items[i]);
      assert items[i..][0] == items[i] && items[i..][1..] == items[i + 1..];
      ok := WriteType(buf, items[i]);
      if desc.Ok? {
        WroteThen(start, mid, buf.written, cap, done, desc.value, ok);
        if all.Ok? { ConcatAssoc(done, desc.value, TypeDescAll(items[i + 1..]).value); }
        done := done + desc.value;
      }
      if !ok { return false; }
    }
    assert items[|items|..] == [] && done + [] == done;
    ok := true;
  }

  // ── The contents ───────────────────────────────────────────────────────────

  /** dlms_encoded_len_size. */
  function LenSize(n: nat): (k: nat)
    ensures n < 0x1_0000_0000 ==> k == |LenBytes(Len32(n))|
  {
    if n < 0x80 then 1 else if n <= 0xFF then 2 else if n <= 0xFFFF then 3 else if n <= 0xFF_FFFF then 4 else 5
  }

  /** packed_value_size is the number of octets pack_value writes. */
  method PackedSize(v: Value) returns (n: nat)
    requires Representable(v)
    ensures n == |Pack(v)|
    decreases v, 0
  {
    hide LenBytes;
    if v.List? {
      n := PackedSizes(v.items);
    } else if v.Text? {
      n := LenSize(|v.octets|) + |v.octets|;
    } else if v.BitString? {
      n := LenSize(v.count) + (v.count + 7) / 8;
    } else {
      n := if v.Null? then 0 else if v.Bool? then 1 else if v.Fixed? then Size(v.kind) else 12;
    }
  }

  method PackedSizes(items: seq<Value>) returns (n: nat)
    requires forall i :: 0 <= i < |items| ==> Representable(items[i])
    ensures n == |PackAll(items)|
    decreases items, 1
  {
    hide Pack;
    n := 0;
    for i := 0 to |items|
      invariant n + |PackAll(items[i..])| == |PackAll(items)|
    {
      assert items[i..][0] == items[i] && items[i..][1..] == items[i + 1..];
      var k := PackedSize(items[i]);
      n := n + k;
    }
    assert items[|items|..] == [];
  }

  method PackValue(buf: Buf, v: Value) returns (ok: bool)
    requires buf.Valid() && Representable(v)
    modifies buf`wr, buf`written, buf.mem
    ensures buf.Valid() && Wrote(old(buf.written), buf.written, buf.mem.Length, Pack(v), ok)
    decreases v, 0
  {
    hide LenBytes, LeafBody, PackAll;
    if v.List? {
      ok := PackItems(buf, v.items);
    } else if v.BitString? {
      var len := WriteLen(buf, v.count);
      if len.Fail? { return false; }
      ghost var a := buf.written;
      ok := buf.WriteAll(v.packed);
      WroteThen(old(buf.written), a, buf.written, buf.mem.Length, LenBytes(v.count), v.packed, ok);
    } else {
      ok := WriteLeaf(buf, v);
    }
  }

  method PackItems(buf: Buf, items: seq<Value>) returns (ok: bool)
    requires buf.Valid() && forall i :: 0 <= i < |items| ==> Representable(items[i])
    modifies buf`wr, buf`written, buf.mem
    ensures buf.Valid() && Wrote(old(buf.written), buf.written, buf.mem.Length, PackAll(items), ok)
    decreases items, 1
  {
    hide Pack, Representable;
    ghost var start, cap := buf.written, buf.mem.Length;
    ghost var done: seq<byte> := [];
    for i := 0 to |items|
      invariant buf.Valid() && Wrote(start, buf.written, cap, done, true)
      invariant done + PackAll(items[i..]) == PackAll(items)
    {
      ghost var mid := buf.written;
      assert items[i..][0] == items[i] && items[i..][1..] == items[i + 1..];
      ok := PackValue(buf, items[i]);
      WroteThen(start, mid, buf.written, cap, done, Pack(items[i]), ok);
      ConcatAssoc(done, Pack(items[i]), PackAll(items[i + 1..]));
      done := done + Pack(items[i]);
      if !ok { return false; }
    }
    assert items[|items|..] == [] && done + [] == done;
    ok := true;
  }

  // ── The whole array ────────────────────────────────────────────────────────

  /** The bytes of a compact array of these rows, if they can be described. */
  function CompactEnc(rows: seq<Value>): Result<seq<byte>> {
    if rows == [] then Fail(Invalid)
    else
      var desc :- TypeDesc(rows[0]);
      if |PackAll(rows)| >= 0x1_0000_0000 then Fail(Invalid)
      else Ok([COMPACT] + (desc + TextBytes(PackAll(rows))))
  }

  /** For uniform rows this is the encoding the decoder inverts. */
  lemma CompactEncOfShape(rows: seq<Value>, sh: Shape)
    requires rows != [] && Uniform(rows, sh) && |PackAll(rows)| < 0x1_0000_0000
    ensures CompactEnc(rows) == Ok([COMPACT] + CompactBytes(rows, sh))
  {
    TypeDescOfShape(rows[0], sh);
  }

  method WriteContents(buf: Buf, rows: seq<Value>) returns (ok: bool)
    requires buf.Valid() && forall i :: 0 <= i < |rows| ==> Representable(rows[i])
    modifies buf`wr, buf`written, buf.mem
    ensures buf.Valid()
    ensures if |PackAll(rows)| < 0x1_0000_0000
            then Wrote(old(buf.written), buf.written, buf.mem.Length, TextBytes(PackAll(rows)), ok)
            else !ok && buf.written == old(buf.written)
  {
    hide LenBytes, PackAll, Representable;
    var total := PackedSizes(rows);
    if total > 0xFFFF_FFFF { return false; }
    var len := WriteLen(buf, total);
    if len.Fail? { return false; }
    ghost var a := buf.written;
    ok := PackItems(buf, rows);
    WroteThen(old(buf.written), a, buf.written, buf.mem.Length, LenBytes(total), PackAll(rows), ok);
  }

  /** osp_value_write_compact_array. */
  method WriteCompact(buf: Buf, rows: seq<Value>) returns (ok: bool)
    requires buf.Valid() && forall i :: 0 <= i < |rows| ==> Representable(rows[i])
    modifies buf`wr, buf`written, buf.mem
    ensures buf.Valid() && WroteIf(old(buf.written), buf.written, buf.mem.Length, CompactEnc(rows), ok)
  {
    hide TypeDesc, TextBytes, PackAll, Representable;
    if rows == [] { return false; }
    ghost var before, cap, desc := buf.written, buf.mem.Length, TypeDesc(rows[0]);
    ok := buf.WriteU8(COMPACT);
    if !ok { return; }
    ghost var a := buf.written;
    ok := WriteType(buf, rows[0]);
    if !ok { return; }
    ghost var b := buf.written;
    ok := WriteContents(buf, rows);
    if |PackAll(rows)| < 0x1_0000_0000 {
      WroteThen(a, b, buf.written, cap, desc.value, TextBytes(PackAll(rows)), ok);
      WroteThen(before, a, buf.written, cap, [COMPACT], desc.value + TextBytes(PackAll(rows)), ok);
    }
  }
}
