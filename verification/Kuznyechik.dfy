/**
 Kuznyechik (src/security/kuznyechik.c:10-92, RFC 7801): the rotating in-place linear step, the round, the
 key schedule and the block cipher, for any substitution, multiplication and constant tables.
 */
module Kuznyechik {
  import opened Octets

  // ── Exclusive or ───────────────────────────────────────────────────────────

  /** Bitwise exclusive or of the k low bits. */
  function XorBits(a: nat, b: nat, k: nat): nat {
    if k == 0 then 0 else 2 * XorBits(a / 2, b / 2, k - 1) + (a + b) % 2
  }

  function PowTwo(k: nat): nat { if k == 0 then 1 else 2 * PowTwo(k - 1) }

  lemma {:induction false} XorBitsBound(a: nat, b: nat, k: nat)
    ensures XorBits(a, b, k) < PowTwo(k)
  {
    if k > 0 { XorBitsBound(a / 2, b / 2, k - 1); }
  }

  lemma {:induction false} XorBitsTwice(a: nat, b: nat, k: nat)
    requires a < PowTwo(k)
    ensures XorBits(XorBits(a, b, k), b, k) == a
  {
    if k > 0 {
      XorBitsTwice(a / 2, b / 2, k - 1);
      LowBit(a, b, XorBits(a / 2, b / 2, k - 1));
    }
  }

  lemma LowBit(a: nat, b: nat, h: nat)
    ensures var x := 2 * h + (a + b) % 2; x / 2 == h && (x + b) % 2 == a % 2
    ensures a == 2 * (a / 2) + a % 2
  {}

  function Xor(a: byte, b: byte): byte {
    XorBitsBound(a, b, 8);
    assert PowTwo(8) == 256;
    XorBits(a, b, 8)
  }

  lemma XorTwice(a: byte, b: byte)
    ensures Xor(Xor(a, b), b) == a
  {
    assert PowTwo(8) == 256;
    XorBitsTwice(a, b, 8);
  }

  type Block = s: seq<byte> | |s| == 16 witness seq(16, _ => 0)

  function XorBlock(a: Block, b: Block): Block { seq(16, i requires 0 <= i < 16 => Xor(a[i], b[i])) }

  // ── Tables ─────────────────────────────────────────────────────────────────

  type Table = s: seq<byte> | |s| == 256 witness seq(256, _ => 0)

  /** Substitution, products by the seven coefficients, and the 32 constants of the key schedule. */
  datatype Tables = Tables(p: Table, t148: Table, t32: Table, t133: Table, t16: Table, t194: Table, t192: Table,
                           t251: Table,
                           c: seq<Block>)
  {
    ghost predicate Valid() { |c| == 32 }
  }

  // ── The linear transformation ──────────────────────────────────────────────

  /** The linear function of section 4.2 of RFC 7801; s[0] is the most significant octet. */
  function Ell(t: Tables, s: Block): byte {
    var x := Xor(Xor(Xor(Xor(s[15], t.t148[s[14]]), t.t32[s[13]]), t.t133[s[12]]), t.t16[s[11]]);
    var y := Xor(Xor(Xor(Xor(x, t.t194[s[10]]), t.t192[s[9]]), s[8]), t.t251[s[7]]);
    var z := Xor(Xor(Xor(Xor(y, s[6]), t.t192[s[5]]), t.t194[s[4]]), t.t16[s[3]]);
    Xor(Xor(Xor(z, t.t133[s[2]]), t.t32[s[1]]), t.t148[s[0]])
  }

  /** R: one step of the shift register. */
  function R(t: Tables, s: Block): Block { [Ell(t, s)] + s[..15] }

  function Steps(t: Tables, s: Block, n: nat): Block {
    if n == 0 then s else R(t, Steps(t, s, n - 1))
  }

  /** L: sixteen steps. */
  function L(t: Tables, s: Block): Block { Steps(t, s, 16) }

  /** kuz_get_idx. */
  function Index(b: nat, i: nat): (k: nat)
    requires b < 16 && i < 16
    ensures k < 16
  {
    (b + 16 - i) % 16
  }

  /** The register as seen through the rotating index of step i. */
  function Rotated(block: Block, i: nat): Block
    requires i < 16
  {
    seq(16, b requires 0 <= b < 16 => block[Index(b, i)])
  }

  /** kuz_l_step computes one register step without moving the other octets. */
  method LStep(t: Tables, block: array<byte>, i: nat)
    requires block.Length == 16 && i < 16
    modifies block
    ensures block[..] == old(block[..])[Index(15, i) := Ell(t, Rotated(old(block[..]), i))]
  {
    ghost var view: Block := Rotated(block[..], i);
    var x := Xor(Xor(Xor(Xor(block[Index(15, i)], t.t148[block[Index(14, i)]]), t.t32[block[Index(13, i)]]),
        t.t133[block[Index(12, i)]]), t.t16[block[Index(11, i)]]);
    x := Xor(Xor(Xor(Xor(x, t.t194[block[Index(10, i)]]), t.t192[block[Index(9, i)]]), block[Index(8, i)]),
        t.t251[block[Index(7, i)]]);
    x := Xor(Xor(Xor(Xor(x, block[Index(6, i)]), t.t192[block[Index(5, i)]]), t.t194[block[Index(4, i)]]),
        t.t16[block[Index(3, i)]]);
    x := Xor(Xor(Xor(x, t.t133[block[Index(2, i)]]), t.t32[block[Index(1, i)]]), t.t148[block[Index(0, i)]]);
    block[Index(15, i)] := x;
  }

  lemma NextView(t: Tables, block: Block, i: nat)
    requires i < 16
    ensures var after: Block := block[Index(15, i) := Ell(t, Rotated(block, i))];
            R(t, Rotated(block, i)) == if i < 15 then Rotated(after, i + 1) else after
  {
    hide Ell;
    var view := Rotated(block, i);
    var after: Block := block[Index(15, i) := Ell(t, view)];
    if i < 15 {
      forall b | 0 <= b < 16 ensures R(t, view)[b] == Rotated(after, i + 1)[b] {
        if b > 0 { assert Index(b, i + 1) == Index(b - 1, i) != Index(15, i); }
      }
    } else {
      forall b | 0 <= b < 16 ensures R(t, view)[b] == after[b] {
        if b > 0 { assert Index(b - 1, 15) == b; }
      }
    }
  }

  /** Sixteen rotating steps in place are the linear transformation. */
  method LInPlace(t: Tables, block: array<byte>)
    requires block.Length == 16
    modifies block
    ensures block[..] == L(t, old(block[..]))
  {
    hide Ell, R, Rotated, Index;
    ghost var start: Block := block[..];
    StartView(start);
    for i := 0 to 16
      invariant Steps(t, start, i) == if i < 16 then Rotated(block[..], i) else block[..]
    {
      NextView(t, block[..], i);
      LStep(t, block, i);
    }
  }

  lemma StartView(block: Block)
    ensures Rotated(block, 0) == block
  {}

  // ── Rounds ─────────────────────────────────────────────────────────────────

  function Sub(t: Tables, x: byte): byte { t.p[x] }

  function Subst(t: Tables, s: Block): Block { seq(16, i requires 0 <= i < 16 => Sub(t, s[i])) }

  function Lsx(t: Tables, s: Block, key: Block): Block { L(t, Subst(t, XorBlock(s, key))) }

  method XorInPlace(a: array<byte>, b: seq<byte>)
    requires a.Length == 16 && |b| == 16
    modifies a
    ensures a[..] == XorBlock(old(a[..]), b)
  {
    hide Xor;
    for i := 0 to 16
      invariant forall k :: 0 <= k < 16 ==> a[k] == if k < i then Xor(old(a[k]), b[k]) else old(a[k])
    {
      a[i] := Xor(a[i], b[i]);
    }
  }

  /** kuz_lsx. */
  method LsxInPlace(t: Tables, block: array<byte>, key: seq<byte>)
    requires block.Length == 16 && |key| == 16
    modifies block
    ensures block[..] == Lsx(t, old(block[..]), key)
  {
    hide Xor, L, XorBlock;
    XorInPlace(block, key);
    ghost var mid: Block := block[..];
    for i := 0 to 16
      invariant forall k :: 0 <= k < 16 ==> block[k] == if k < i then Sub(t, mid[k]) else mid[k]
    {
      block[i] := Sub(t, block[i]);
    }
    assert block[..] == Subst(t, mid);
    LInPlace(t, block);
  }

  // ── Key schedule ───────────────────────────────────────────────────────────

  /** F[C] of section 4.3 of RFC 7801 on a pair of halves. */
  function Feistel(t: Tables, c: Block, k: (Block, Block)): (Block, Block) { (XorBlock(k.1, Lsx(t, k.0, c)), k.0) }

  function FeistelRun(t: Tables, from: nat, n: nat, k: (Block, Block)): (Block, Block)
    requires t.Valid() && from + n <= 32
  {
    if n == 0 then k else Feistel(t, t.c[from + n - 1], FeistelRun(t, from, n - 1, k))
  }

  /** kuz_f: eight Feistel steps, two per pass, the halves trading places without being moved. */
  method KeyStep(t: Tables, k1: array<byte>, k2: array<byte>, n: nat)
    requires t.Valid() && k1.Length == k2.Length == 16 && k1 != k2 && n < 4
    modifies k1, k2
    ensures (k1[..], k2[..]) == FeistelRun(t, 8 * n, 8, (old(k1[..]), old(k2[..])))
  {
    hide Lsx, XorBlock;
    ghost var start: (Block, Block) := (k1[..], k2[..]);
    for i := 0 to 4
      invariant (k1[..], k2[..]) == FeistelRun(t, 8 * n, 2 * i, start)
    {
      HalfStep(t, k1, k2, t.c[8 * n + 2 * i]);
      HalfStep(t, k2, k1, t.c[8 * n + 2 * i + 1]);
      assert FeistelRun(t, 8 * n, 2 * i + 2, start) ==
             Feistel(t, t.c[8 * n + 2 * i + 1], FeistelRun(t, 8 * n, 2 * i + 1, start));
    }
  }

  /** One half pass: b becomes the new first half, a stays as the second. */
  method HalfStep(t: Tables, a: array<byte>, b: array<byte>, c: seq<byte>)
    requires a.Length == b.Length == 16 && a != b && |c| == 16
    modifies b
    ensures (b[..], a[..]) == Feistel(t, c, (old(a[..]), old(b[..])))
  {
    hide Lsx, XorBlock;
    var copy := new byte[16](i requires 0 <= i < 16 reads a => a[i]);
    assert copy[..] == a[..];
    LsxInPlace(t, copy, c);
    XorInPlace(b, copy[..]);
  }

  /** Round keys 2i and 2i + 1 of section 4.4 of RFC 7801. */
  function KeyPair(t: Tables, key: (Block, Block), i: nat): (Block, Block)
    requires t.Valid() && i <= 4
  {
    if i == 0 then key else FeistelRun(t, 8 * (i - 1), 8, KeyPair(t, key, i - 1))
  }

  function RoundKeys(t: Tables, key: (Block, Block)): (r: seq<Block>)
    requires t.Valid()
    ensures |r| == 10
  {
    seq(10, i requires 0 <= i < 10 => if i % 2 == 0 then KeyPair(t, key, i / 2).0 else KeyPair(t, key, i / 2).1)
  }

  /** kuz_expand. */
  method Expand(t: Tables, key: seq<byte>) returns (keys: seq<Block>)
    requires t.Valid() && |key| == 32
    ensures keys == RoundKeys(t, (key[..16], key[16..]))
  {
    hide FeistelRun;
    ghost var pair: (Block, Block) := (key[..16], key[16..]);
    var k1 := new byte[16](i requires 0 <= i < 16 => key[i]);
    var k2 := new byte[16](i requires 0 <= i < 16 => key[16 + i]);
    assert k1[..] == key[..16] && k2[..] == key[16..];
    keys := [k1[..], k2[..]];
    for i := 1 to 5
      invariant |keys| == 2 * i && (k1[..], k2[..]) == KeyPair(t, pair, i - 1)
      invariant forall j :: 0 <= j < 2 * i ==> keys[j] == if j % 2 == 0 then KeyPair(t, pair, j / 2).0
                else KeyPair(t, pair, j / 2).1
    {
      KeyStep(t, k1, k2, i - 1);
      keys := keys + [k1[..], k2[..]];
    }
  }

  // ── The cipher ─────────────────────────────────────────────────────────────

  function Rounds(t: Tables, keys: seq<Block>, s: Block, n: nat): Block
    requires n <= |keys|
  {
    if n == 0 then s else Lsx(t, Rounds(t, keys, s, n - 1), keys[n - 1])
  }

  /** Section 4.5 of RFC 7801: nine rounds and a last key. */
  function Encrypt(t: Tables, keys: seq<Block>, s: Block): Block
    requires |keys| == 10
  {
    XorBlock(Rounds(t, keys, s, 9), keys[9])
  }

  method EncryptInPlace(t: Tables, keys: seq<Block>, block: array<byte>)
    requires |keys| == 10 && block.Length == 16
    modifies block
    ensures block[..] == Encrypt(t, keys, old(block[..]))
  {
    hide Lsx, XorBlock;
    ghost var start: Block := block[..];
    for i := 0 to 9
      invariant block[..] == Rounds(t, keys, start, i)
    {
      LsxInPlace(t, block, keys[i]);
    }
    XorInPlace(block, keys[9]);
  }
}
