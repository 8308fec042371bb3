/**
 The streaming writers that stand in for value trees (src/codec/serialize.c:1465-1480, 1750-1965) and
 the entry window of selective access (src/server/server.c:849-878). What they emit is what the
 value writer emits for the equivalent tree.
 */
module Streaming {
  import opened Octets
  import opened Lengths
  import opened Values
  import opened ValueWrite

  const MAX_OBJECTS: nat := 32
  const MAX_ACCESS: nat := 16
  const MAX_ROWS: nat := 32
  const MAX_CELLS: nat := 32

  function Clip<T>(s: seq<T>, n: nat): (r: seq<T>)
    ensures |r| == Min(|s|, n)
  {
    s[..Min(|s|, n)]
  }

  // ── Object lists ───────────────────────────────────────────────────────────

  datatype Item = Item(id: byte, mode: byte)

  datatype Element = Element(classId: u16, version: byte, name: seq<byte>, attrs: seq<Item>, methods: seq<Item>)

  function AttrTree(i: Item): Value { List(false, [Fixed(Int8, i.id), Fixed(Enum, i.mode), Null]) }
  function MethodTree(i: Item): Value { List(false, [Fixed(Int8, i.id), Fixed(Enum, i.mode)]) }

  function AttrTrees(s: seq<Item>): (r: seq<Value>)
    ensures |r| == |s|
  {
    if s == [] then [] else [AttrTree(s[0])] + AttrTrees(s[1..])
  }

  function MethodTrees(s: seq<Item>): (r: seq<Value>)
    ensures |r| == |s|
  {
    if s == [] then [] else [MethodTree(s[0])] + MethodTrees(s[1..])
  }

  function RightsTree(e: Element): Value {
    List(false, [List(true, AttrTrees(Clip(e.attrs, MAX_ACCESS))),
        List(true, MethodTrees(Clip(e.methods, MAX_ACCESS)))])
  }

  /** The structure one element of the object list is equivalent to. */
  function ElementTree(e: Element): Value {
    List(false, [Fixed(U16, e.classId), Fixed(U8, e.version), Text(Octet, e.name), RightsTree(e)])
  }

  function ElementTrees(s: seq<Element>): (r: seq<Value>)
    ensures |r| == |s|
  {
    if s == [] then [] else [ElementTree(s[0])] + ElementTrees(s[1..])
  }

  function ObjectListTree(list: seq<Element>): Value { List(true, ElementTrees(Clip(list, MAX_OBJECTS))) }

  // ── Encodings of the fixed pieces ──────────────────────────────────────────

  lemma OneByte(b: byte)
    ensures BigEndian(b, 1) == [b]
  {
    assert BigEndian(b / 256, 0) == [];
  }

  lemma TwoBytes(n: u16)
    ensures BigEndian(n, 2) == [n / 256, n % 256]
  {
    assert BigEndian(n / 256, 1) == BigEndian(n / 256 / 256, 0) + [n / 256 % 256];
  }

  lemma EncTwo(a: Value, b: Value)
    ensures EncAll([a, b]) == Enc(a) + Enc(b)
  {
    hide Enc;
    assert [a, b][1..] == [b] && [b][1..] == [];
    assert EncAll([b]) == Enc(b) + EncAll([]);
  }

  lemma EncThree(a: Value, b: Value, c: Value)
    ensures EncAll([a, b, c]) == Enc(a) + (Enc(b) + Enc(c))
  {
    hide Enc;
    EncTwo(b, c);
    assert [a, b, c][1..] == [b, c];
  }

  /** The tag and count of a list. */
  function Head(isArray: bool, n: nat): seq<byte> { [if isArray then ARRAY else STRUCTURE] + LenBytes(Len32(n)) }

  lemma EncList(isArray: bool, items: seq<Value>)
    ensures Enc(List(isArray, items)) == Head(isArray, |items|) + EncAll(items)
  {
    hide LenBytes, EncAll;
    ConcatAssoc([Tag(List(isArray, items))], LenBytes(Len32(|items|)), EncAll(items));
  }

  /** An attribute's access item, octet by octet. */
  function AttrBytes(i: Item): seq<byte> { [STRUCTURE, 3, 15, i.id, 22, i.mode, 0] }
  function MethodBytes(i: Item): seq<byte> { [STRUCTURE, 2, 15, i.id, 22, i.mode] }

  lemma AttrEnc(i: Item)
    ensures Enc(AttrTree(i)) == AttrBytes(i)
  {
    OneByte(i.id);
    OneByte(i.mode);
    EncThree(Fixed(Int8, i.id), Fixed(Enum, i.mode), Null);
    EncList(false, [Fixed(Int8, i.id), Fixed(Enum, i.mode), Null]);
  }

  lemma MethodEnc(i: Item)
    ensures Enc(MethodTree(i)) == MethodBytes(i)
  {
    OneByte(i.id);
    OneByte(i.mode);
    EncTwo(Fixed(Int8, i.id), Fixed(Enum, i.mode));
    EncList(false, [Fixed(Int8, i.id), Fixed(Enum, i.mode)]);
  }

  // ── Writing object lists ───────────────────────────────────────────────────

  /** osp_struct_begin and osp_array_begin. */
  method Begin(buf: Buf, isArray: bool, n: nat) returns (ok: bool)
    requires buf.Valid() && n < 256
    modifies buf`wr, buf`written, buf.mem
    ensures buf.Valid() && Wrote(old(buf.written), buf.written, buf.mem.Length, Head(isArray, n), ok)
  {
    hide LenBytes;
    var tag := if isArray then ARRAY else STRUCTURE;
    ok := buf.WriteU8(tag);
    if !ok { return; }
    ghost var a := buf.written;
    var len := WriteLen(buf, n);
    ok := len.Ok?;
    WroteThen(old(buf.written), a, buf.written, buf.mem.Length, [tag], LenBytes(n), ok);
  }

  /** A run of single-octet writes that stops at the first failure. */
  method WriteEach(buf: Buf, s: seq<byte>) returns (ok: bool)
    requires buf.Valid()
    modifies buf`wr, buf`written, buf.mem
    ensures buf.Valid() && Wrote(old(buf.written), buf.written, buf.mem.Length, s, ok)
  {
    for i := 0 to |s|
      invariant buf.Valid() && buf.written == old(buf.written) + s[..i] && |old(buf.written)| + i <= buf.mem.Length
    {
      ok := buf.WriteU8(s[i]);
      if !ok { return; }
      assert s[..i + 1] == s[..i] + [s[i]];
    }
    assert s[..|s|] == s;
    ok := true;
  }

  method WriteAttrs(buf: Buf, items: seq<Item>) returns (ok: bool)
    requires buf.Valid() && |items| <= MAX_ACCESS
    modifies buf`wr, buf`written, buf.mem
    ensures buf.Valid() && Wrote(old(buf.written), buf.written, buf.mem.Length, Enc(List(true, AttrTrees(items))), ok)
  {
    hide Enc, Head;
    EncList(true, AttrTrees(items));
    ok := Begin(buf, true, |items|);
    if !ok { return; }
    ghost var start, cap := buf.written, buf.mem.Length;
    ghost var done: seq<byte> := [];
    for i := 0 to |items|
      invariant buf.Valid() && Wrote(start, buf.written, cap, done, true)
      invariant done + EncAll(AttrTrees(items[i..])) == EncAll(AttrTrees(items))
    {
      ghost var mid, rest := buf.written, AttrTrees(items[i + 1..]);
      assert items[i..][0] == items[i] && items[i..][1..] == items[i + 1..];
      assert AttrTrees(items[i..])[1..] == rest;
      AttrEnc(items[i]);
      ok := WriteEach(buf, AttrBytes(items[i]));
      WroteThen(start, mid, buf.written, cap, done, AttrBytes(items[i]), ok);
      ConcatAssoc(done, AttrBytes(items[i]), EncAll(rest));
      done := done + AttrBytes(items[i]);
      if !ok { return; }
    }
    assert items[|items|..] == [] && done + [] == done;
    WroteThen(old(buf.written), start, buf.written, cap, Head(true, |items|), EncAll(AttrTrees(items)), true);
    ok := true;
  }

  method WriteMethods(buf: Buf, items: seq<Item>) returns (ok: bool)
    requires buf.Valid() && |items| <= MAX_ACCESS
    modifies buf`wr, buf`written, buf.mem
    ensures buf.Valid() && Wrote(old(buf.written), buf.written, buf.mem.Length, Enc(List(true, MethodTrees(items))), ok)
  {
    hide Enc, Head;
    EncList(true, MethodTrees(items));
    ok := Begin(buf, true, |items|);
    if !ok { return; }
    ghost var start, cap := buf.written, buf.mem.Length;
    ghost var done: seq<byte> := [];
    for i := 0 to |items|
      invariant buf.Valid() && Wrote(start, buf.written, cap, done, true)
      invariant done + EncAll(MethodTrees(items[i..])) == EncAll(MethodTrees(items))
    {
      ghost var mid, rest := buf.written, MethodTrees(items[i + 1..]);
      assert items[i..][0] == items[i] && items[i..][1..] == items[i + 1..];
      assert MethodTrees(items[i..])[1..] == rest;
      MethodEnc(items[i]);
      ok := WriteEach(buf, MethodBytes(items[i]));
      WroteThen(start, mid, buf.written, cap, done, MethodBytes(items[i]), ok);
      ConcatAssoc(done, MethodBytes(items[i]), EncAll(rest));
      done := done + MethodBytes(items[i]);
      if !ok { return; }
    }
    assert items[|items|..] == [] && done + [] == done;
    WroteThen(old(buf.written), start, buf.written, cap, Head(true, |items|), EncAll(MethodTrees(items)), true);
    ok := true;
  }

  /** osp_access_right_write. */
  method WriteRights(buf: Buf, e: Element) returns (ok: bool)
    requires buf.Valid()
    modifies buf`wr, buf`written, buf.mem
    ensures buf.Valid() && Wrote(old(buf.written), buf.written, buf.mem.Length, Enc(RightsTree(e)), ok)
  {
    hide Enc, Head, AttrTrees, MethodTrees;
    ghost var before, cap := buf.written, buf.mem.Length;
    var attrs, methods := Clip(e.attrs, MAX_ACCESS), Clip(e.methods, MAX_ACCESS);
    ghost var x, y := List(true, AttrTrees(attrs)), List(true, MethodTrees(methods));
    EncList(false, [x, y]);
    EncTwo(x, y);
    ok := Begin(buf, false, 2);
    if !ok { return; }
    ghost var a := buf.written;
    ok := WriteAttrs(buf, attrs);
    if !ok { return; }
    ghost var b := buf.written;
    ok := WriteMethods(buf, methods);
    WroteThen(a, b, buf.written, cap, Enc(x), Enc(y), ok);
    WroteThen(before, a, buf.written, cap, Head(false, 2), Enc(x) + Enc(y), ok);
  }

  /** The first three fields of an element. */
  function FieldBytes(e: Element): seq<byte> { [18, e.classId / 256, e.classId % 256, 17, e.version, 9] }

  lemma ElementEnc(e: Element)
    ensures Enc(ElementTree(e)) == Head(false, 4) + (FieldBytes(e) + (TextBytes(e.name) + Enc(RightsTree(e))))
  {
    var a, b, c, d := Fixed(U16, e.classId), Fixed(U8, e.version), Text(Octet, e.name), RightsTree(e);
    EncList(false, [a, b, c, d]);
    FieldEnc(e);
    hide Enc, LenBytes, TextBytes;
    EncThree(b, c, d);
    assert [a, b, c, d][1..] == [b, c, d];
    assert EncAll([a, b, c, d]) == Enc(a) + (Enc(b) + (Enc(c) + Enc(d)));
    assert Enc(a) + (Enc(b) + (([9] + TextBytes(e.name)) + Enc(d))) == FieldBytes(e) + (TextBytes(e.name) + Enc(d));
  }

  lemma FieldEnc(e: Element)
    ensures Enc(Fixed(U16, e.classId)) == [18, e.classId / 256, e.classId % 256]
    ensures Enc(Fixed(U8, e.version)) == [17, e.version]
    ensures Enc(Text(Octet, e.name)) == [9] + TextBytes(e.name)
  {
    hide LenBytes;
    TwoBytes(e.classId);
    OneByte(e.version);
  }

  method WriteElement(buf: Buf, e: Element) returns (ok: bool)
    requires buf.Valid() && |e.name| == 6
    modifies buf`wr, buf`written, buf.mem
    ensures buf.Valid() && Wrote(old(buf.written), buf.written, buf.mem.Length, Enc(ElementTree(e)), ok)
  {
    hide Enc, Head, FieldBytes, TextBytes, RightsTree;
    ghost var before, cap, tail := buf.written, buf.mem.Length, TextBytes(e.name) + Enc(RightsTree(e));
    ElementEnc(e);
    ok := Begin(buf, false, 4);
    if !ok { return; }
    ghost var a := buf.written;
    ok := WriteEach(buf, FieldBytes(e));
    if !ok { return; }
    ghost var b := buf.written;
    ok := WriteTail(buf, e);
    WroteThen(a, b, buf.written, cap, FieldBytes(e), tail, ok);
    WroteThen(before, a, buf.written, cap, Head(false, 4), FieldBytes(e) + tail, ok);
  }

  method WriteTail(buf: Buf, e: Element) returns (ok: bool)
    requires buf.Valid() && |e.name| == 6
    modifies buf`wr, buf`written, buf.mem
    ensures buf.Valid() && Wrote(old(buf.written), buf.written, buf.mem.Length, TextBytes(e.name) + Enc(RightsTree(e)),
            ok)
  {
    hide Enc, TextBytes, RightsTree;
    ok := WriteText(buf, e.name);
    if !ok { return; }
    ghost var a := buf.written;
    ok := WriteRights(buf, e);
    WroteThen(old(buf.written), a, buf.written, buf.mem.Length, TextBytes(e.name), Enc(RightsTree(e)), ok);
  }

  /** osp_object_list_write: exactly the octets of the equivalent array of structures. */
  method WriteObjectList(buf: Buf, list: seq<Element>) returns (ok: bool)
    requires buf.Valid() && forall i :: 0 <= i < |list| ==> |list[i].name| == 6
    modifies buf`wr, buf`written, buf.mem
    ensures buf.Valid() && Wrote(old(buf.written), buf.written, buf.mem.Length, Enc(ObjectListTree(list)), ok)
  {
    hide Enc, Head, ElementTree;
    var elems := Clip(list, MAX_OBJECTS);
    EncList(true, ElementTrees(elems));
    ok := Begin(buf, true, |elems|);
    if !ok { return; }
    ghost var start, cap := buf.written, buf.mem.Length;
    ghost var done: seq<byte> := [];
    for i := 0 to |elems|
      invariant buf.Valid() && Wrote(start, buf.written, cap, done, true)
      invariant done + EncAll(ElementTrees(elems[i..])) == EncAll(ElementTrees(elems))
    {
      ghost var mid, rest, x := buf.written, ElementTrees(elems[i + 1..]), Enc(ElementTree(elems[i]));
      assert elems[i..][0] == elems[i] && elems[i..][1..] == elems[i + 1..];
      assert ElementTrees(elems[i..])[1..] == rest;
      ok := WriteElement(buf, elems[i]);
      WroteThen(start, mid, buf.written, cap, done, x, ok);
      ConcatAssoc(done, x, EncAll(rest));
      done := done + x;
      if !ok { return; }
    }
    assert elems[|elems|..] == [] && done + [] == done;
    WroteThen(old(buf.written), start, buf.written, cap, Head(true, |elems|), EncAll(ElementTrees(elems)), true);
    ok := true;
  }
}
