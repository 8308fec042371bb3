/** Readers of contents without elements, over a cursor buffer (src/codec/serialize.c:1172-1300). */
module FieldRead {
  import opened Octets
  import opened Lengths
  import opened Values

  /** memcpy of n octets out of the buffer, if they are there. */
  method ReadSlice(buf: Buf, n: nat) returns (r: Result<seq<byte>>)
    requires buf.Valid()
    modifies buf`rd
    ensures buf.Valid() && old(buf.rd) <= buf.rd
    ensures var at := Take(buf.written, old(buf.rd), n);
            if at.Ok? then r == Ok(at.value.0) && buf.rd == at.value.1 else r == Fail(at.err)
  {
    if buf.wr - buf.rd < n { return Fail(Invalid); }
    r := Ok(buf.mem[buf.rd..buf.rd + n]);
    assert buf.mem[buf.rd..buf.rd + n] == buf.written[buf.rd..buf.rd + n];
    buf.rd := buf.rd + n;
  }

  method ReadDateTime(buf: Buf) returns (r: Result<Value>)
    requires buf.Valid()
    modifies buf`rd
    ensures buf.Valid() && old(buf.rd) <= buf.rd
    ensures var at := PlainAt(buf.written, old(buf.rd), DateTimeForm);
            if at.Ok? then r == Ok(at.value.0) && buf.rd == at.value.1 else r == Fail(at.err)
  {
    var d := ReadSlice(buf, 5);
    if d.Fail? { return Fail(d.err); }
    var t := ReadSlice(buf, 4);
    if t.Fail? { return Fail(t.err); }
    var x := ReadSlice(buf, 3);
    if x.Fail? { return Fail(x.err); }
    return Ok(DateTime(FromBigEndian(d.value), FromBigEndian(t.value)));
  }

  method ReadPlain(buf: Buf, form: Form) returns (r: Result<Value>)
    requires buf.Valid()
    modifies buf`rd
    ensures buf.Valid() && old(buf.rd) <= buf.rd
    ensures var at := PlainAt(buf.written, old(buf.rd), form);
            if at.Ok? then r == Ok(at.value.0) && buf.rd == at.value.1 else r == Fail(at.err)
  {
    if form.NullForm? { return Ok(Null); }
    if form.DateTimeForm? { r := ReadDateTime(buf); return; }
    if !form.BoolForm? && !form.FixedForm? { return Fail(Unsupported); }
    var b := ReadSlice(buf, if form.BoolForm? then 1 else Size(form.kind));
    if b.Fail? { return Fail(b.err); }
    return Ok(if form.BoolForm? then Bool(b.value[0] != 0) else Fixed(form.kind, FromBigEndian(b.value)));
  }

  method ReadText(buf: Buf, limit: nat, over: Err) returns (r: Result<seq<byte>>)
    requires buf.Valid()
    modifies buf`rd
    ensures buf.Valid() && old(buf.rd) <= buf.rd
    ensures var at := TextAt(buf.written, old(buf.rd), limit, over);
            if at.Ok? then r == Ok(at.value.0) && buf.rd == at.value.1 else r == Fail(at.err)
  {
    hide LenAt;
    var n := ReadLen(buf);
    if n.Fail? { return Fail(n.err); }
    if n.value > limit { return Fail(over); }
    r := ReadSlice(buf, n.value);
  }

  method ReadBits(buf: Buf) returns (r: Result<Value>)
    requires buf.Valid()
    modifies buf`rd
    ensures buf.Valid() && old(buf.rd) <= buf.rd
    ensures var at := BitsAt(buf.written, old(buf.rd));
            if at.Ok? then r == Ok(at.value.0) && buf.rd == at.value.1 else r == Fail(at.err)
  {
    hide LenAt;
    var n := ReadLen(buf);
    if n.Fail? { return Fail(n.err); }
    if n.value == 0 { return Ok(BitString(0, [])); }
    if buf.wr - buf.rd < n.value { return Fail(Invalid); }
    var unused := buf.mem[buf.rd];
    buf.rd := buf.rd + 1;
    var total := 8 * (n.value - 1);
    if total > MAX_BITS { return Fail(NoMem); }
    var bits := ReadSlice(buf, n.value - 1);
    if bits.Fail? { return Fail(bits.err); }
    return Ok(BitString((total - unused) % 0x1_0000_0000, bits.value));
  }

  method ReadLeaf(buf: Buf, form: Form) returns (r: Result<Value>)
    requires buf.Valid()
    modifies buf`rd
    ensures buf.Valid() && old(buf.rd) <= buf.rd
    ensures var at := LeafAt(buf.written, old(buf.rd), form);
            if at.Ok? then r == Ok(at.value.0) && buf.rd == at.value.1 else r == Fail(at.err)
  {
    hide TextAt, BitsAt, PlainAt;
    if form.TextForm? {
      var text := ReadText(buf, TextLimit(form.text), NoMem);
      if text.Fail? { return Fail(text.err); }
      return Ok(Text(form.text, text.value));
    }
    if form.BitsForm? { r := ReadBits(buf); return; }
    r := ReadPlain(buf, form);
  }
}
