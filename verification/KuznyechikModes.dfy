/**
 Counter mode, CMAC and the authenticated encryption built from them (src/security/kuznyechik.c:84-315), over
 any 128-bit block function.
 */
module KuznyechikModes {
  import opened Octets
  import opened Kuznyechik
  import opened Lengths

  /** A keyed block function: encryption under one key. */
  type Cipher = Block -> Block

  const ZERO: Block := seq(16, _ => 0)

  /** Kuznyechik under a 256-bit key is one. */
  function Keyed(t: Tables, key: seq<byte>): Cipher
    requires t.Valid() && |key| == 32
  {
    (b: Block) => Encrypt(t, RoundKeys(t, (key[..16], key[16..])), b)
  }

  /** Expansion and encryption of one block. */
  method EncryptUnder(t: Tables, key: seq<byte>, b: seq<byte>) returns (r: seq<byte>)
    requires t.Valid() && |key| == 32 && |b| == 16
    ensures r == Keyed(t, key)(b)
  {
    hide Encrypt, RoundKeys;
    var keys := Expand(t, key);
    var block := new byte[16](i requires 0 <= i < 16 => b[i]);
    assert block[..] == b;
    EncryptInPlace(t, keys, block);
    r := block[..];
  }

  type Iv = s: seq<byte> | |s| == 12 witness seq(12, _ => 0)

  // ── Counter mode ───────────────────────────────────────────────────────────

  /** The counter block of 16-octet chunk b: the counter starts at 1 and is 32 bits wide. */
  function Counter(iv: Iv, b: nat): Block { iv + BigEndian((b + 1) % 0x1_0000_0000, 4) }

  function Stream(e: Cipher, iv: Iv, j: nat): byte { e(Counter(iv, j / 16))[j % 16] }

  function Ctr(e: Cipher, iv: Iv, s: seq<byte>): (r: seq<byte>)
    ensures |r| == |s|
  {
    seq(|s|, j requires 0 <= j < |s| => Xor(s[j], Stream(e, iv, j)))
  }

  /** Applied twice, counter mode is the identity, for every length. */
  lemma CtrTwice(e: Cipher, iv: Iv, s: seq<byte>)
    ensures Ctr(e, iv, Ctr(e, iv, s)) == s
  {
    hide Xor, Stream;
    forall j | 0 <= j < |s| ensures Ctr(e, iv, Ctr(e, iv, s))[j] == s[j] { XorTwice(s[j], Stream(e, iv, j)); }
  }

  /** No counter block repeats within one message of 32-bit length. */
  lemma CountersDiffer(iv: Iv, a: nat, b: nat)
    requires a < b < 0xFFFF_FFFF
    ensures Counter(iv, a) != Counter(iv, b)
  {
    hide BigEndian, FromBigEndian, Pow256;
    Pow256Values();
    FromBigEndianInverts(a + 1, 4);
    FromBigEndianInverts(b + 1, 4);
    assert Counter(iv, a)[12..] == BigEndian(a + 1, 4) && Counter(iv, b)[12..] == BigEndian(b + 1, 4);
  }

  /** osp_gost_kuznyechik_ctr. */
  method CtrRun(e: Cipher, iv: Iv, input: seq<byte>, out: array<byte>)
    requires |input| <= out.Length && |input| < 0x1_0000_0000
    modifies out
    ensures out[..|input|] == Ctr(e, iv, input)
    ensures out[|input|..] == old(out[|input|..])
  {
    hide Xor, Counter;
    var n := |input|;
    var offset, counter := 0, 1;
    while offset < n
      invariant 0 <= offset <= n && (offset < n ==> offset == 16 * (counter - 1)) && counter >= 1
      invariant forall j :: 0 <= j < offset ==> out[j] == Xor(input[j], Stream(e, iv, j))
      invariant out[n..] == old(out[n..])
    {
      var block := e(CounterBlock(iv, counter));
      var chunk := Min(n - offset, 16);
      for i := 0 to chunk
        invariant forall j :: 0 <= j < offset + i ==> out[j] == Xor(input[j], Stream(e, iv, j))
        invariant out[n..] == old(out[n..])
      {
        Chunk(offset + i, counter - 1, i);
        out[offset + i] := Xor(input[offset + i], block[i]);
      }
      offset := offset + chunk;
      counter := counter + 1;
    }
    assert out[..n] == Ctr(e, iv, input);
  }

  /** The four counter octets, shifted out of a 32-bit counter. */
  function CounterBlock(iv: Iv, counter: nat): (b: Block)
    requires counter >= 1
    ensures b == Counter(iv, counter - 1)
  {
    iv + BigEndian(counter % 0x1_0000_0000, 4)
  }

  lemma Chunk(j: nat, q: nat, r: nat)
    requires j == 16 * q + r && r < 16
    ensures j / 16 == q && j % 16 == r
  {}

  // ── CMAC ───────────────────────────────────────────────────────────────────

  /** An octet one bit to the left, with the top bit of the next one. */
  function Shl(x: byte, next: byte): byte { (2 * (x as int)) % 256 + (next as int) / 128 }

  function Next(s: seq<byte>, k: nat): byte { if k + 1 < |s| then s[k + 1] else 0 }

  /** A block one bit to the left. */
  function ShiftBlock(s: seq<byte>): (r: seq<byte>)
    ensures |r| == |s|
  {
    if s == [] then [] else [Shl(s[0], Next(s, 0))] + ShiftBlock(s[1..])
  }

  /** Doubling of section 6.1 of NIST SP 800-38B: the carried-out bit returns as 0x87. */
  function Dbl(s: Block): Block {
    var shifted := ShiftBlock(s);
    if s[0] / 128 == 1 then shifted[..15] + [Xor(shifted[15], 0x87)] else shifted
  }

  /** ShiftBlock doubles the number the octets denote, modulo its width. */
  lemma {:induction false} ShiftDoubles(s: seq<byte>)
    requires s != []
    ensures FromBigEndian(ShiftBlock(s)) + (s[0] / 128) * Pow256(|s|) == 2 * FromBigEndian(s)
  {
    hide FromBigEndian, Next, Pow256;
    HeadValue(s);
    HeadValue(ShiftBlock(s));
    NextIs(s);
    PowerStep(|s| - 1);
    var rest := s[1..];
    assert ShiftBlock(s)[0] == Shl(s[0], Next(s, 0)) && ShiftBlock(s)[1..] == ShiftBlock(rest);
    if rest != [] {
      ShiftDoubles(rest);
      assert rest[0] == s[1];
    } else {
      NoValue();
      assert ShiftBlock(rest) == [];
    }
    hide ShiftBlock;
    ShiftStep(s[0], Next(s, 0) / 128, Pow256(|s| - 1), FromBigEndian(rest), FromBigEndian(ShiftBlock(rest)));
  }

  lemma PowerStep(k: nat)
    ensures Pow256(k + 1) == 256 * Pow256(k)
  {}

  lemma NoValue()
    ensures FromBigEndian([]) == 0
  {}

  lemma NextIs(s: seq<byte>)
    ensures Next(s, 0) == if |s| > 1 then s[1] else 0
  {}

  lemma ShiftStep(x: nat, c: nat, p: nat, v: nat, w: nat)
    requires x < 256 && w + c * p == 2 * v
    ensures ((2 * x) % 256 + c) * p + w + (x / 128) * (256 * p) == 2 * (x * p + v)
  {
    assert (2 * x) % 256 + 256 * (x / 128) == 2 * x;
    assert ((2 * x) % 256 + c) * p == ((2 * x) % 256) * p + c * p;
    assert (x / 128) * (256 * p) == (256 * (x / 128)) * p;
    assert ((2 * x) % 256) * p + (256 * (x / 128)) * p == (2 * x) * p;
  }

  lemma {:induction false} HeadValue(s: seq<byte>)
    requires s != []
    ensures FromBigEndian(s) == s[0] * Pow256(|s| - 1) + FromBigEndian(s[1..])
  {
    if |s| == 1 {
      assert s[..0] == [] && s[1..] == [] && Pow256(0) == 1;
    } else {
      var n := |s| - 1;
      HeadValue(s[..n]);
      assert s[..n][1..] == s[1..][..n - 1] && s[1..][n - 1] == s[n];
      assert 256 * (s[0] * Pow256(n - 1)) == s[0] * (256 * Pow256(n - 1));
    }
  }

  /** kuz_dbl. */
  method DblInPlace(a: array<byte>)
    requires a.Length == 16
    modifies a
    ensures a[..] == Dbl(old(a[..]))
  {
    hide Xor;
    ghost var s: Block := a[..];
    ShiftAt(s);
    var carry := a[0] / 128;
    for i := 0 to 15
      invariant forall k :: 0 <= k < 16 ==> a[k] == if k < i then ShiftBlock(s)[k] else s[k]
    {
      a[i] := Shl(a[i], a[i + 1]);
    }
    a[15] := Xor(Shl(a[15], 0), if carry == 1 then 0x87 else 0);
    XorZero(ShiftBlock(s)[15]);
    assert a[..] == Dbl(s);
  }

  lemma {:induction false} ShiftAt(s: seq<byte>)
    ensures forall k :: 0 <= k < |s| ==> ShiftBlock(s)[k] == Shl(s[k], Next(s, k))
  {
    if s != [] {
      ShiftAt(s[1..]);
      forall k | 0 < k < |s|
        ensures ShiftBlock(s)[k] == Shl(s[k], Next(s, k))
      {
        assert ShiftBlock(s)[k] == ShiftBlock(s[1..])[k - 1];
        assert Next(s[1..], k - 1) == Next(s, k);
      }
    }
  }

  lemma XorZero(a: byte)
    ensures Xor(a, 0) == a
  {
    XorBitsZero(a, 8);
    assert PowTwo(8) == 256;
  }

  lemma {:induction false} XorBitsZero(a: nat, k: nat)
    requires a < PowTwo(k)
    ensures XorBits(a, 0, k) == a
  {
    if k > 0 { XorBitsZero(a / 2, k - 1); }
  }

  /** Cipher block chaining of whole blocks. */
  function Chain(e: Cipher, state: Block, s: seq<byte>): Block
    requires |s| % 16 == 0
    decreases |s|
  {
    if s == [] then state else Chain(e, e(XorBlock(state, s[..16])), s[16..])
  }

  /** The message length without its last block. */
  function Front(n: nat): (f: nat)
    ensures f % 16 == 0 && f <= n && n - f <= 16 && (n > 0 ==> n - f >= 1)
  {
    if n == 0 then 0 else (n - 1) / 16 * 16
  }

  /** The last block, padded with a one bit and zeros unless it is complete. */
  function LastBlock(s: seq<byte>): Block
    requires |s| <= 16
  {
    if |s| == 16 then s else s + [0x80] + seq(15 - |s|, _ => 0)
  }

  /** Section 6.2 of NIST SP 800-38B. */
  function Cmac(e: Cipher, s: seq<byte>): Block {
    var k1 := Dbl(e(ZERO));
    var f := Front(|s|);
    var key := if |s| - f == 16 then k1 else Dbl(k1);
    e(XorBlock(Chain(e, ZERO, s[..f]), XorBlock(LastBlock(s[f..]), key)))
  }

  lemma {:induction false} ChainNext(e: Cipher, state: Block, s: seq<byte>, b: nat)
    requires 16 * b + 16 <= |s|
    ensures Chain(e, state, s[..16 * b + 16]) == e(XorBlock(Chain(e, state, s[..16 * b]), s[16 * b..16 * b + 16]))
    decreases b
  {
    hide XorBlock;
    var t := s[..16 * b + 16];
    if b == 0 {
      assert t[..16] == s[0..16] && t[16..] == [] && s[..0] == [];
    } else {
      var next := e(XorBlock(state, s[..16]));
      assert t[..16] == s[..16] && t[16..] == s[16..][..16 * (b - 1) + 16];
      assert s[..16 * b][..16] == s[..16] && s[..16 * b][16..] == s[16..][..16 * (b - 1)];
      ChainNext(e, next, s[16..], b - 1);
      assert s[16..][16 * (b - 1)..16 * (b - 1) + 16] == s[16 * b..16 * b + 16];
    }
  }

  /** The number of blocks as computed, with a sum 32 bits wide. */
  function BlockCount(n: u32): nat { if n == 0 then 1 else (n + 15) % 0x1_0000_0000 / 16 }

  /** It leaves the last block to the end if and only if the sum does not wrap; otherwise no block is counted. */
  lemma BlockCountIff(n: u32)
    ensures 16 * (BlockCount(n) - 1) == Front(n) <==> n <= 0xFFFF_FFF0
    ensures n > 0xFFFF_FFF0 ==> BlockCount(n) == 0
  {}

  /** osp_gost_kuznyechik_cmac: the chaining loop, then the last block with its subkey. */
  method CmacRun(e: Cipher, data: seq<byte>) returns (mac: Block)
    requires |data| <= 0xFFFF_FFF0
    ensures mac == Cmac(e, data)
  {
    hide Dbl, XorBlock, LastBlock;
    var n := |data|;
    var k1, k2 := Subkeys(e);
    var blocks := BlockCount(n);
    var completeLast := n > 0 && n % 16 == 0;
    BlockCountIff(n);
    var state := ZERO;
    assert data[..0] == [];
    for b := 0 to blocks - 1
      invariant state == Chain(e, ZERO, data[..16 * b])
    {
      ChainNext(e, ZERO, data, b);
      state := e(XorBlock(state, data[16 * b..16 * b + 16]));
    }
    var last := Padded(data[16 * (blocks - 1)..]);
    var key := if completeLast then k1 else k2;
    mac := e(XorBlock(state, XorBlock(last, key)));
  }

  method Subkeys(e: Cipher) returns (k1: Block, k2: Block)
    ensures k1 == Dbl(e(ZERO)) && k2 == Dbl(k1)
  {
    hide Dbl;
    var l := e(ZERO);
    var a := new byte[16](i requires 0 <= i < 16 => l[i]);
    assert a[..] == l;
    DblInPlace(a);
    k1 := a[..];
    DblInPlace(a);
    k2 := a[..];
  }

  /** The last block: zeros, the remaining octets, and 0x80 after them if there is room. */
  method Padded(rest: seq<byte>) returns (last: Block)
    requires |rest| <= 16
    ensures last == LastBlock(rest)
  {
    var a := new byte[16](_ => 0);
    for i := 0 to |rest|
      invariant forall k :: 0 <= k < 16 ==> a[k] == if k < i then rest[k] else 0
    {
      a[i] := rest[i];
    }
    if |rest| < 16 { a[|rest|] := 0x80; }
    last := a[..];
  }
}
