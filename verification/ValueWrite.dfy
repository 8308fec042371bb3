/**
 osp_value_write and the compact-array writer (src/codec/serialize.c:531-660, 1079-1115, 1345-1460)
 over a cursor buffer: they succeed exactly when the encoding fits, and then append exactly it.
 */
module ValueWrite {
  import opened Octets
  import opened Lengths
  import opened Values

  /** What osp_value_t can hold. */
  predicate Representable(v: Value) {
    match v
    case Text(_, s) => |s| <= MAX_OCTETS
    case BitString(n, s) => n <= MAX_BITS && |s| == (n + 7) / 8
    case List(_, items) => |items| < 256 && forall i :: 0 <= i < |items| ==> Representable(items[i])
    case _ => true
  }

  /** x was appended if and only if it fitted; a failed write leaves some prefix of it behind. */
  ghost predicate Wrote(before: seq<byte>, after: seq<byte>, cap: nat, x: seq<byte>, ok: bool) {
    && (ok <==> |before| + |x| <= cap)
    && (if ok then after == before + x else before <= after)
  }

  /** A write of x, then of y. */
  lemma WroteThen(before: seq<byte>, mid: seq<byte>, after: seq<byte>, cap: nat, x: seq<byte>, y: seq<byte>, ok: bool)
    requires Wrote(before, mid, cap, x, true) && Wrote(mid, after, cap, y, ok)
    ensures Wrote(before, after, cap, x + y, ok)
  {
    ConcatAssoc(before, x, y);
    if !ok { assert before <= mid <= after; }
  }

  method WriteText(buf: Buf, s: seq<byte>) returns (ok: bool)
    requires buf.Valid() && |s| < 0x1_0000_0000
    modifies buf`wr, buf`written, buf.mem
    ensures buf.Valid() && Wrote(old(buf.written), buf.written, buf.mem.Length, TextBytes(s), ok)
  {
    hide LenBytes;
    var len := WriteLen(buf, |s|);
    if len.Fail? { return false; }
    ghost var mid := buf.written;
    ok := buf.WriteAll(s);
    WroteThen(old(buf.written), mid, buf.written, buf.mem.Length, LenBytes(|s|), s, ok);
  }

  method WriteBits(buf: Buf, n: nat, s: seq<byte>) returns (ok: bool)
    requires buf.Valid() && n <= MAX_BITS && |s| == (n + 7) / 8
    modifies buf`wr, buf`written, buf.mem
    ensures buf.Valid() && Wrote(old(buf.written), buf.written, buf.mem.Length, BitBytes(n, s), ok)
  {
    hide LenBytes;
    var unused: byte := 8 * |s| - n;
    ConcatAssoc(LenBytes(1 + |s|), [unused], s);
    var len := WriteLen(buf, 1 + |s|);
    if len.Fail? { return false; }
    ghost var mid := buf.written;
    ok := buf.WriteAll([unused] + s);
    WroteThen(old(buf.written), mid, buf.written, buf.mem.Length, LenBytes(1 + |s|), [unused] + s, ok);
  }

  /** osp_datetime_write: the reserved octets and the deviation are constant. */
  method WriteDateTime(buf: Buf, d: nat, t: nat) returns (ok: bool)
    requires buf.Valid()
    modifies buf`wr, buf`written, buf.mem
    ensures buf.Valid() && Wrote(old(buf.written), buf.written, buf.mem.Length, DateTimeBytes(d, t), ok)
  {
    hide BigEndian;
    ok := buf.WriteAll(BigEndian(d, 5));
    if !ok { return; }
    ghost var a := buf.written;
    ok := buf.WriteAll(BigEndian(t, 4));
    WroteThen(old(buf.written), a, buf.written, buf.mem.Length, BigEndian(d, 5), BigEndian(t, 4), ok);
    if !ok { return; }
    ghost var b := buf.written;
    ok := buf.WriteAll([0xFF, 0xFF, 0x80]);
    WroteThen(old(buf.written), b, buf.written, buf.mem.Length,
              BigEndian(d, 5) + BigEndian(t, 4), [0xFF, 0xFF, 0x80], ok);
  }

  /** Contents of a null, boolean, fixed-width or date-time value. */
  method WritePlain(buf: Buf, v: Value) returns (ok: bool)
    requires buf.Valid() && Plain(v)
    modifies buf`wr, buf`written, buf.mem
    ensures buf.Valid() && Wrote(old(buf.written), buf.written, buf.mem.Length, PlainBody(v), ok)
  {
    if v.Null? {
      ok := buf.WriteAll([]);
    } else if v.Bool? {
      ok := buf.WriteU8(if v.on then 1 else 0);
    } else if v.Fixed? {
      ok := buf.WriteAll(BigEndian(v.bits, Size(v.kind)));
    } else {
      ok := WriteDateTime(buf, v.date, v.time);
    }
  }

  method WriteLeaf(buf: Buf, v: Value) returns (ok: bool)
    requires buf.Valid() && Representable(v) && !v.List?
    modifies buf`wr, buf`written, buf.mem
    ensures buf.Valid() && Wrote(old(buf.written), buf.written, buf.mem.Length, LeafBody(v), ok)
  {
    hide TextBytes, BitBytes, PlainBody, Wrote;
    if v.Text? {
      ok := WriteText(buf, v.octets);
    } else if v.BitString? {
      ok := WriteBits(buf, v.count, v.packed);
    } else {
      ok := WritePlain(buf, v);
    }
  }

  /** osp_value_write. */
  method WriteValue(buf: Buf, v: Value) returns (ok: bool)
    requires buf.Valid() && Representable(v)
    modifies buf`wr, buf`written, buf.mem
    ensures buf.Valid() && Wrote(old(buf.written), buf.written, buf.mem.Length, Enc(v), ok)
    decreases v, 0
  {
    hide LenBytes, LeafBody, EncAll, Tag;
    ok := buf.WriteU8(Tag(v));
    if !ok { return; }
    ghost var start := buf.written;
    if !v.List? {
      ok := WriteLeaf(buf, v);
      WroteThen(old(buf.written), start, buf.written, buf.mem.Length, [Tag(v)], LeafBody(v), ok);
      return;
    }
    ok := WriteItems(buf, v.items);
    WroteThen(old(buf.written), start, buf.written, buf.mem.Length, [Tag(v)], ListLen(v.items) + EncAll(v.items), ok);
  }

  method WriteItems(buf: Buf, items: seq<Value>) returns (ok: bool)
    requires buf.Valid() && |items| < 256 && forall i :: 0 <= i < |items| ==> Representable(items[i])
    modifies buf`wr, buf`written, buf.mem
    ensures buf.Valid() && Wrote(old(buf.written), buf.written, buf.mem.Length, ListLen(items) + EncAll(items), ok)
    decreases items, 1
  {
    hide LenBytes, Enc, Representable;
    var len := WriteLen(buf, |items|);
    if len.Fail? { return false; }
    ghost var start, cap := buf.written, buf.mem.Length;
    ghost var done: seq<byte> := [];
    for i := 0 to |items|
      invariant buf.Valid() && Wrote(start, buf.written, cap, done, true)
      invariant done + EncAll(items[i..]) == EncAll(items)
    {
      ghost var mid := buf.written;
      assert items[i..][0] == items[i] && items[i..][1..] == items[i + 1..];
      ok := WriteValue(buf, items[i]);
      WroteThen(start, mid, buf.written, cap, done, Enc(items[i]), ok);
      ConcatAssoc(done, Enc(items[i]), EncAll(items[i + 1..]));
      done := done + Enc(items[i]);
      if !ok { return false; }
    }
    assert EncAll(items[|items|..]) == [] && done + [] == done;
    WroteThen(old(buf.written), start, buf.written, cap, ListLen(items), EncAll(items), true);
    ok := true;
  }
}
