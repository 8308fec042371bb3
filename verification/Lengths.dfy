/**
 The shared BER / A-XDR length field (src/codec/codec.c): one octet below 0x80, otherwise
 0x80+n followed by n big-endian octets, 1 <= n <= 4.
 */
module Lengths {
  import opened Octets

  function MinOctets(v: u32): (n: nat)
    ensures 1 <= n <= 4
  {
    if v <= 0xFF then 1 else if v <= 0xFFFF then 2 else if v <= 0xFF_FFFF then 3 else 4
  }

  function LenBytes(v: u32): (s: seq<byte>)
    ensures 1 <= |s| <= 5
  {
    if v < 0x80 then [v] else [0x80 + MinOctets(v)] + BigEndian(v, MinOctets(v))
  }

  /** The length field found at `pos`, and the position after it. */
  function LenAt(s: seq<byte>, pos: nat): (r: Result<(u32, nat)>)
    requires pos <= |s|
    ensures r.Ok? ==> pos < r.value.1 <= |s|
  {
    if pos == |s| then Fail(Invalid)
    else
      var first := s[pos];
      if first < 0x80 then Ok((first, pos + 1))
      else
        var n := first - 0x80;
        if n == 0 then Fail(Unsupported)
        else if n > 4 then Fail(Unsupported)
        else if |s| - (pos + 1) < n then Fail(Invalid)
        else
          var field := s[pos + 1..pos + 1 + n];
          FromBigEndianBound(field);
          Pow256Values();
          Ok((FromBigEndian(field), pos + 1 + n))
  }

  lemma Pow256Values()
    ensures Pow256(1) == 0x100 && Pow256(2) == 0x1_0000
    ensures Pow256(3) == 0x100_0000 && Pow256(4) == 0x1_0000_0000
  {
    assert Pow256(0) == 1;
    assert Pow256(1) == 0x100;
    assert Pow256(2) == 0x1_0000;
    assert Pow256(3) == 0x100_0000;
  }

  /** Every 32-bit length survives the trip, whatever surrounds it. */
  lemma LenRoundTrip(s: seq<byte>, pos: nat, v: u32)
    requires pos + |LenBytes(v)| <= |s|
    requires s[pos..pos + |LenBytes(v)|] == LenBytes(v)
    ensures LenAt(s, pos) == Ok((v, pos + |LenBytes(v)|))
  {
    var b := LenBytes(v);
    assert s[pos] == s[pos..pos + |b|][0];
    if v >= 0x80 {
      var n := MinOctets(v);
      assert s[pos + 1..pos + 1 + n] == s[pos..pos + |b|][1..];
      assert LenBytes(v)[1..] == BigEndian(v, n);
      Pow256Values();
      FromBigEndianInverts(v, n);
    }
  }

  /** No shorter length field denotes the same value: the writer's form is minimal. */
  lemma LenMinimal(s: seq<byte>, pos: nat)
    requires pos <= |s| && LenAt(s, pos).Ok?
    ensures |LenBytes(LenAt(s, pos).value.0)| <= LenAt(s, pos).value.1 - pos
  {
    var first := s[pos];
    if first >= 0x80 {
      FromBigEndianBound(s[pos + 1..pos + 1 + (first - 0x80)]);
      Pow256Values();
    }
  }

  method WriteLen(buf: Buf, len: u32) returns (r: Result<()>)
    requires buf.Valid()
    modifies buf`wr, buf`written, buf.mem
    ensures buf.Valid()
    ensures r == if |old(buf.written)| + |LenBytes(len)| <= buf.mem.Length then Ok(()) else Fail(NoMem)
    ensures buf.written == if r.Ok? then old(buf.written) + LenBytes(len) else old(buf.written)
  {
    if len < 0x80 {
      var ok := buf.WriteU8(len);
      return if ok then Ok(()) else Fail(NoMem);
    }
    var n := MinOctets(len);
    if buf.mem.Length - buf.wr < 1 + n { return Fail(NoMem); }
    var ok := buf.WriteU8(0x80 + n);
    ghost var head, field := buf.written, BigEndian(len, n);
    var i := n;
    while i > 0
      invariant 0 <= i <= n && buf.Valid() && buf.rd == old(buf.rd)
      invariant buf.written == head + field[..n - i]
    {
      i := i - 1;
      var o := ShiftedOctet(len, n, i);
      ok := buf.WriteU8(o);
      assert field[..n - i] == field[..n - i - 1] + [o];
    }
    assert field[..n] == field;
    return Ok(());
  }

  /** (uint8_t)(v >> 8*i). */
  function ShiftedOctet(v: nat, n: nat, i: nat): (o: byte)
    requires i < n
    ensures o == BigEndian(v, n)[n - 1 - i]
  {
    Shifted(v, n, i);
    v / Pow256(i) % 256
  }

  /** Octet i from the right is the value shifted right by 8*i bits. */
  lemma {:induction false} Shifted(v: nat, n: nat, i: nat)
    requires i < n
    ensures BigEndian(v, n)[n - 1 - i] == v / Pow256(i) % 256
  {
    if i > 0 {
      Shifted(v / 256, n - 1, i - 1);
      DivDiv(v, Pow256(i - 1));
    }
  }

  lemma DivDiv(v: nat, m: nat)
    requires m > 0
    ensures v / 256 / m == v / (256 * m)
  {
    var q := v / 256 / m;
    var r := v / 256 % m;
    assert v == 256 * (q * m + r) + v % 256;
    assert v == (256 * m) * q + (256 * r + v % 256);
    assert 256 * r + v % 256 < 256 * m;
    DivUnique(v, 256 * m, q, 256 * r + v % 256);
  }

  lemma DivUnique(v: int, d: int, q: int, r: int)
    requires d > 0 && v == d * q + r && 0 <= r < d
    ensures v / d == q && v % d == r
  {
    var e := v / d - q;
    assert v == d * (v / d) + v % d;
    assert d * e == r - v % d by { assert d * (v / d - q) == d * (v / d) - d * q; }
    Multiples(d, e);
  }

  lemma Multiples(d: int, e: int)
    requires d > 0
    ensures e >= 1 ==> d * e >= d
    ensures e <= -1 ==> d * e <= -d
  {}

  method ReadLen(buf: Buf) returns (r: Result<u32>)
    requires buf.Valid()
    modifies buf`rd
    ensures buf.Valid() && old(buf.rd) <= buf.rd
    ensures var at := LenAt(buf.written, old(buf.rd));
            if at.Ok? then r == Ok(at.value.0) && buf.rd == at.value.1 else r == Fail(at.err)
  {
    ghost var s := buf.written;
    ghost var pos := buf.rd;
    if buf.wr - buf.rd == 0 { return Fail(Invalid); }
    var first := buf.mem[buf.rd];
    buf.rd := buf.rd + 1;
    if first < 0x80 { return Ok(first); }
    var n := first - 0x80;
    if n == 0 { return Fail(Unsupported); }
    if n > 4 || buf.wr - buf.rd < n {
      return Fail(if n > 4 then Unsupported else Invalid);
    }
    var v := ReadOctets(buf, n);
    Pow256Values();
    FromBigEndianBound(s[pos + 1..pos + 1 + n]);
    return Ok(v);
  }

  /** n octets read as one big-endian number. */
  method ReadOctets(buf: Buf, n: nat) returns (v: nat)
    requires buf.Valid() && buf.rd + n <= |buf.written|
    modifies buf`rd
    ensures buf.Valid() && buf.rd == old(buf.rd) + n
    ensures v == FromBigEndian(buf.written[old(buf.rd)..old(buf.rd) + n])
  {
    ghost var s, pos := buf.written, buf.rd;
    v := 0;
    for i := 0 to n
      invariant buf.rd == pos + i && buf.Valid()
      invariant v == FromBigEndian(s[pos..pos + i])
    {
      assert s[pos..pos + (i + 1)][..i] == s[pos..pos + i];
      v := 256 * v + buf.mem[buf.rd] as int;
      buf.rd := buf.rd + 1;
    }
  }
}
