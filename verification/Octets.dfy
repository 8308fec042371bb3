/**
 Octets, fixed-width integers, error codes and the cursor buffer every codec works on
 (osp_buf_t). Widths are subset types, so every assignment below carries the proof that
 the machine integer does not wrap.
 */
module Octets {

  type byte = b: nat | b < 0x100
  type u16 = n: nat | n < 0x1_0000
  type u32 = n: nat | n < 0x1_0000_0000
  type u64 = n: nat | n < 0x1_0000_0000_0000_0000

  datatype Err = NoMem | Io | Invalid | Unsupported | Timeout | Security | NotFound | Disconnected

  datatype Result<+T> = Ok(value: T) | Fail(err: Err) {
    predicate IsFailure() { Fail? }
    function PropagateFailure<U>(): Result<U>
      requires Fail?
    {
      Fail(err)
    }
    function Extract(): T
      requires Ok?
    {
      value
    }
  }

  function Min(a: int, b: int): int { if a <= b then a else b }

  lemma ConcatAssoc<T>(a: seq<T>, b: seq<T>, c: seq<T>)
    ensures (a + b) + c == a + (b + c)
  {}

  lemma SliceOfSlice<T>(s: seq<T>, p: nat, q: nat, i: nat, j: nat)
    requires p + j <= q <= |s| && i <= j
    ensures s[p..q][i..j] == s[p + i..p + j]
  {
    forall k | 0 <= k < j - i ensures s[p..q][i..j][k] == s[p + i..p + j][k] {}
  }

  /** The k low octets of n, most significant first. */
  function BigEndian(n: nat, k: nat): (s: seq<byte>)
    ensures |s| == k
  {
    if k == 0 then [] else BigEndian(n / 256, k - 1) + [n % 256]
  }

  function FromBigEndian(s: seq<byte>): (n: nat)
  {
    if s == [] then 0 else 256 * FromBigEndian(s[..|s| - 1]) + s[|s| - 1]
  }

  function Pow256(k: nat): (p: nat)
    ensures p >= 1
  {
    if k == 0 then 1 else 256 * Pow256(k - 1)
  }

  lemma {:induction false} FromBigEndianInverts(n: nat, k: nat)
    requires n < Pow256(k)
    ensures FromBigEndian(BigEndian(n, k)) == n
  {
    if k > 0 {
      assert n / 256 < Pow256(k - 1);
      FromBigEndianInverts(n / 256, k - 1);
      assert BigEndian(n, k)[..k - 1] == BigEndian(n / 256, k - 1);
    }
  }

  lemma {:induction false} FromBigEndianBound(s: seq<byte>)
    ensures FromBigEndian(s) < Pow256(|s|)
  {
    if s != [] { FromBigEndianBound(s[..|s| - 1]); }
  }

  lemma {:induction false} BigEndianInverts(s: seq<byte>)
    ensures BigEndian(FromBigEndian(s), |s|) == s
  {
    if s != [] {
      var front, last := s[..|s| - 1], s[|s| - 1];
      BigEndianInverts(front);
      var n := FromBigEndian(s);
      assert n / 256 == FromBigEndian(front) && n % 256 == last;
      assert s == front + [last];
    }
  }

  /** Two's-complement reading of a k-bit pattern, and its inverse. */
  function ToSigned(n: nat, modulus: nat): int { if 2 * n < modulus then n else n - modulus }
  function ToUnsigned(i: int, modulus: nat): int { if i >= 0 then i else i + modulus }

  lemma SignedRoundTrip(i: int, half: nat)
    requires half > 0 && 0 <= i + half && i < half
    ensures 0 <= ToUnsigned(i, 2 * half) < 2 * half
    ensures ToSigned(ToUnsigned(i, 2 * half), 2 * half) == i
  {}

  /** A fixed memory area with a read and a write cursor. `written` is what it holds so far. */
  class Buf {
    const mem: array<byte>
    var rd: nat
    var wr: nat
    ghost var written: seq<byte>

    ghost predicate Valid()
      reads this, mem
    {
      rd <= wr <= mem.Length && |written| == wr && written == mem[..wr]
    }

    constructor (mem: array<byte>)
      ensures Valid() && this.mem == mem && rd == 0 && written == []
    {
      this.mem := mem;
      rd := 0;
      wr := 0;
      written := [];
    }

    /** A buffer over octets already received: everything counts as written. */
    constructor Received(mem: array<byte>)
      ensures Valid() && this.mem == mem && rd == 0 && written == mem[..]
    {
      this.mem := mem;
      rd := 0;
      wr := mem.Length;
      written := mem[..];
    }

    /** A second cursor over the same octets. */
    constructor Copy(of: Buf)
      requires of.Valid()
      ensures Valid() && mem == of.mem && rd == of.rd && wr == of.wr && written == of.written
    {
      mem := of.mem;
      rd := of.rd;
      wr := of.wr;
      written := of.written;
    }

    method WriteU8(b: byte) returns (ok: bool)
      requires Valid()
      modifies this`wr, this`written, mem
      ensures Valid()
      ensures ok <==> |old(written)| < mem.Length
      ensures written == if ok then old(written) + [b] else old(written)
    {
      if mem.Length - wr < 1 { return false; }
      mem[wr] := b;
      wr := wr + 1;
      written := written + [b];
      return true;
    }

    /** memcpy of a whole octet string, after one check of the free space. */
    method WriteAll(s: seq<byte>) returns (ok: bool)
      requires Valid()
      modifies this`wr, this`written, mem
      ensures Valid()
      ensures ok <==> |old(written)| + |s| <= mem.Length
      ensures written == if ok then old(written) + s else old(written)
    {
      if mem.Length - wr < |s| { return false; }
      for i := 0 to |s|
        invariant wr == old(wr) && written == old(written)
        invariant mem[..wr + i] == written + s[..i]
      {
        mem[wr + i] := s[i];
      }
      assert s[..|s|] == s;
      wr := wr + |s|;
      written := written + s;
      return true;
    }

    method ReadU8() returns (r: Result<byte>)
      requires Valid()
      modifies this`rd
      ensures Valid() && old(rd) <= rd
      ensures r == if old(rd) < |written| then Ok(written[old(rd)]) else Fail(Invalid)
      ensures rd == old(rd) + if r.Ok? then 1 else 0
    {
      if wr - rd < 1 { return Fail(Invalid); }
      r := Ok(mem[rd]);
      rd := rd + 1;
    }
  }
}
