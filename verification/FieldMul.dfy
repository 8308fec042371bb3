/**
 Products, powers and inverses modulo p and q (src/security/gost3410.c): a 512-bit product folded
 through 2^256 mod m, square-and-multiply, and the inverse as a power.
 */
module FieldMul {
  import opened Octets
  import opened Limbs
  import opened Field
  import opened Modular
  import Lengths

  // ── Folding a product ──────────────────────────────────────────────────────

  /** Where a number of 512 bits can be after so many folds. */
  function FoldBound(c: nat, folds: nat): nat {
    if folds == 0 then W * W
    else if folds == 1 then (c + 1) * W
    else if folds == 2 then W + c * c
    else W
  }

  lemma FoldShrinks(lo: nat, hi: nat, c: nat, folds: nat)
    requires lo < W && hi > 0 && c < B * B && lo + W * hi < FoldBound(c, folds)
    ensures folds < 3 && lo + hi * c < FoldBound(c, folds + 1)
  {
    MulLe(c, c + 1, B * B - 1, B * B);
    assert c * (c + 1) == c * c + c;
    if folds == 0 {
      HighPart(lo, hi, W);
      MulLe(hi, c, W - 1, c);
      assert (W - 1) * c == W * c - c;
    } else if folds == 1 {
      HighPart(lo, hi, c + 1);
      MulLe(hi, c, c, c);
    } else if folds == 2 {
      HighPart(lo, hi, 2);
    }
  }

  lemma HighPart(lo: nat, hi: nat, n: nat)
    requires lo + W * hi < n * W
    ensures hi < n
  {
    if hi >= n { MulLe(n, W, hi, W); }
  }

  /** One fold keeps the residue, because the fold constant is 2^256 modulo m. */
  lemma FoldKeepsResidue(lo: nat, hi: nat, m: Modulus)
    requires Good(m)
    ensures m.Value() > 0 && (lo + W * hi) % m.Value() == (lo + hi * Val(m.fold)) % m.Value()
  {
    var c := Val(m.fold);
    assert W * hi == m.Value() * hi + c * hi by { assert W * hi == (m.Value() + c) * hi; }
    assert m.Value() * hi == hi * m.Value() && c * hi == hi * c;
    SameResidue(lo + W * hi, lo + hi * c, hi, m.Value());
  }

  method IsZero(w: seq<u64>) returns (zero: bool)
    requires |w| == 4
    ensures zero <==> Val(w) == 0
  {
    zero := w[0] == 0 && w[1] == 0 && w[2] == 0 && w[3] == 0;
    if zero { ValZero(w); } else if Val(w) == 0 { ZeroVal(w); }
  }

  /** One pass of the reduction loop; the carry out of eight limbs is always zero. */
  method Fold(t: array<u64>, hi: seq<u64>, m: Modulus)
    requires t.Length == 8 && Good(m) && hi == t[4..]
    modifies t
    ensures Val(t[..]) == Val(old(t[..4])) + Val(hi) * Val(m.fold)
  {
    ghost var low := t[..4];
    var fold := new u64[8];
    Mul512(fold, hi, m.fold);
    t[4], t[5], t[6], t[7] := 0, 0, 0, 0;
    ghost var cleared := t[..];
    ValSplit(cleared, 4);
    assert cleared[..4] == low;
    ValZero(cleared[4..]);
    NoOverflow(low, hi, m);
    ValBound(t[..]);
    var carry := AddInto(t, t, fold);
    ValBound(t[..]);
    if carry > 0 {
      MulLe(1, PowB(8), carry, PowB(8));
      assert false;
    }
  }

  lemma NoOverflow(low: seq<u64>, hi: seq<u64>, m: Modulus)
    requires |low| == |hi| == 4 && Good(m)
    ensures Val(low) + Val(hi) * Val(m.fold) < PowB(8)
  {
    PowBValues();
    PowBAdd(4, 4);
    ValBound(low);
    ValBound(hi);
    MulLe(Val(hi), Val(m.fold), W - 1, B * B);
    assert (W - 1) * (B * B) + W <= W * W;
  }

  /** reduce512: congruent, in four limbs, after at most three folds. */
  method Reduce512(r: array<u64>, t: array<u64>, m: Modulus) returns (folds: nat)
    requires r.Length == 4 && t.Length == 8 && r != t && Good(m)
    modifies r, t
    ensures Val(r[..]) % m.Value() == Val(old(t[..])) % m.Value()
    ensures folds <= 3
  {
    ghost var mv, c := m.Value(), Val(m.fold);
    ghost var total := Val(t[..]) % mv;
    PowBValues();
    PowBAdd(4, 4);
    ValBound(t[..]);
    folds := 0;
    while folds < 8
      invariant folds <= 3
      invariant Val(t[..]) % mv == total
      invariant Val(t[..]) < FoldBound(c, folds)
      decreases 8 - folds
    {
      var hi := t[4..];
      var zero := IsZero(hi);
      ghost var low := t[..4];
      ValSplit(t[..], 4);
      assert t[..][..4] == low && t[..][4..] == hi;
      if zero { break; }
      ValBound(low);
      FoldShrinks(Val(low), Val(hi), c, folds);
      FoldKeepsResidue(Val(low), Val(hi), m);
      Fold(t, hi, m);
      folds := folds + 1;
    }
    r[0], r[1], r[2], r[3] := t[0], t[1], t[2], t[3];
    assert r[..] == t[..4];
  }

  /** sc_mul and fe_mul: the canonical product of any two 256-bit numbers; r may be a or b. */
  method ModMul(r: array<u64>, a: array<u64>, b: array<u64>, m: Modulus)
    requires r.Length == a.Length == b.Length == 4 && Good(m)
    modifies r
    ensures Val(r[..]) == (Val(old(a[..])) * Val(old(b[..]))) % m.Value()
  {
    var t := new u64[8];
    Mul512(t, a[..], b[..]);
    var folds := Reduce512(r, t, m);
    ghost var passes := Reduce(r, m);
  }

  // ── Powers ─────────────────────────────────────────────────────────────────

  function Pow2(k: nat): (p: nat)
    ensures p >= 1
  {
    if k == 0 then 1 else 2 * Pow2(k - 1)
  }

  function ShiftRight(x: nat, k: nat): nat {
    if k == 0 then x else ShiftRight(x, k - 1) / 2
  }

  function Bit(x: nat, k: nat): nat {
    ShiftRight(x, k) % 2
  }

  lemma {:induction false} ShiftBound(x: nat, k: nat, j: nat)
    requires x < Pow2(j + k)
    ensures ShiftRight(x, k) < Pow2(j)
  {
    if k > 0 { ShiftBound(x, k - 1, j + 1); }
  }

  /** Squaring doubles the exponent; multiplying by the base adds one. */
  lemma SquareAndMultiply(b: nat, e: nat, bit: nat, sq: nat, m: nat)
    requires m > 0 && bit <= 1 && sq == ((Pow(b, e) % m) * (Pow(b, e) % m)) % m
    ensures Pow(b, 2 * e + bit) % m == if bit == 1 then (sq * b) % m else sq
  {
    PowAdd(b, e, e);
    assert e + e == 2 * e;
    MulResidues(Pow(b, e), Pow(b, e), m);
    ResidueOfProduct(Pow(b, 2 * e), b, m);
    assert Pow(b, 2 * e) * b == b * Pow(b, 2 * e);
  }

  lemma Pow2Limb()
    ensures Pow2(64) == B
  {
    assert Pow2(8) == 256;
    assert Pow2(16) == 256 * 256;
    assert Pow2(24) == 256 * 256 * 256;
    assert Pow2(32) == S;
    assert Pow2(40) == 256 * S;
    assert Pow2(48) == 256 * 256 * S;
    assert Pow2(56) == 256 * 256 * 256 * S;
  }

  function ShiftLeft(e: nat, k: nat): nat {
    if k == 0 then e else 2 * ShiftLeft(e, k - 1)
  }

  lemma {:induction false} ShiftLeftIsProduct(e: nat, k: nat)
    ensures ShiftLeft(e, k) == e * Pow2(k)
  {
    if k > 0 { ShiftLeftIsProduct(e, k - 1); }
  }

  /** The exponent consumed when bits 63 down to k of x follow the higher limbs e. */
  ghost function Prefix(e: nat, x: u64, k: nat): nat
    requires k <= 64
  {
    ShiftLeft(e, 64 - k) + ShiftRight(x, k)
  }

  lemma PrefixEnds(e: nat, x: u64)
    ensures Prefix(e, x, 64) == e && Prefix(e, x, 0) == e * B + x
  {
    Pow2Limb();
    ShiftLeftIsProduct(e, 64);
    ShiftBound(x, 64, 0);
  }

  /** The inner loop of sc_pow and fe_pow: 64 more exponent bits, most significant first. */
  method PowLimb(acc: array<u64>, base: array<u64>, x: u64, m: Modulus, ghost e: nat)
    requires acc.Length == base.Length == 4 && acc != base && Good(m)
    requires Val(acc[..]) == Pow(Val(base[..]), e) % m.Value()
    modifies acc
    ensures Val(acc[..]) == Pow(Val(base[..]), e * B + x) % m.Value()
  {
    ghost var b, mv := Val(base[..]), m.Value();
    var bit := 64;
    PrefixEnds(e, x);
    while bit > 0
      invariant 0 <= bit <= 64
      invariant Val(acc[..]) == Pow(b, Prefix(e, x, bit)) % mv
    {
      ghost var now := Prefix(e, x, bit);
      bit := bit - 1;
      ModMul(acc, acc, acc, m);
      ghost var sq := Val(acc[..]);
      SquareAndMultiply(b, now, Bit(x, bit), sq, mv);
      if Bit(x, bit) == 1 { ModMul(acc, acc, base, m); }
    }
  }

  lemma ValHead(w: seq<u64>, i: nat)
    requires i < |w|
    ensures Val(w[i..]) == Val(w[i + 1..]) * B + w[i]
  {
    ValSplit(w[i..], 1);
    assert w[i..][1..] == w[i + 1..] && w[i..][..1] == [w[i]];
    ValSnoc([w[i]], 0);
    PowBValues();
    assert [w[i]][..1] == [w[i]] && [w[i]][..0] == [];
    assert PowB(0) == 1;
  }

  /** sc_pow and fe_pow: the canonical power for every base and exponent of 256 bits. */
  method ModPow(base: array<u64>, exp: seq<u64>, m: Modulus) returns (r: array<u64>)
    requires base.Length == |exp| == 4 && Good(m)
    ensures fresh(r) && r.Length == 4
    ensures Val(r[..]) == Pow(Val(base[..]), Val(exp)) % m.Value()
  {
    r := Copied([1, 0, 0, 0]);
    ValFour(1, 0, 0, 0);
    ghost var b, mv := Val(base[..]), m.Value();
    Lengths.DivUnique(1, mv, 0, 1);
    var limb := 4;
    while limb > 0
      invariant 0 <= limb <= 4
      invariant fresh(r) && r.Length == 4
      invariant base[..] == old(base[..])
      invariant Val(r[..]) == Pow(b, Val(exp[limb..])) % mv
    {
      limb := limb - 1;
      PowLimb(r, base, exp[limb], m, Val(exp[limb + 1..]));
      ValHead(exp, limb);
    }
    assert exp[0..] == exp;
  }

  const Q_MINUS_2: seq<u64> := [0x4584_1B09_B761_B891, 0x6C61_1070_995A_D100, MAX64, MAX64]
  const P_MINUS_2: seq<u64> := [0xFFFF_FFFF_FFFF_FD95, MAX64, MAX64, MAX64]

  lemma InverseExponents()
    ensures Val(Q_MINUS_2) == Q.Value() - 2 && Val(P_MINUS_2) == P.Value() - 2
  {
    ValFour(0xFFFF_FFFF_FFFF_FD97, MAX64, MAX64, MAX64);
    ValFour(0xFFFF_FFFF_FFFF_FD95, MAX64, MAX64, MAX64);
    ValFour(0x4584_1B09_B761_B893, 0x6C61_1070_995A_D100, MAX64, MAX64);
    ValFour(0x4584_1B09_B761_B891, 0x6C61_1070_995A_D100, MAX64, MAX64);
  }

  /** sc_inv and fe_inv: an inverse for every operand that is not a multiple of a prime modulus, else 0. */
  method ModInv(a: array<u64>, m: Modulus) returns (r: array<u64>)
    requires a.Length == 4 && (m == P || m == Q) && Good(m)
    ensures fresh(r) && r.Length == 4
    ensures Val(r[..]) == Pow(Val(a[..]), m.Value() - 2) % m.Value()
    ensures IsPrime(m.Value()) && !Divides(m.Value(), Val(a[..])) ==> (Val(a[..]) * Val(r[..])) % m.Value() == 1
  {
    InverseExponents();
    r := ModPow(a, if m == Q then Q_MINUS_2 else P_MINUS_2, m);
    if IsPrime(m.Value()) && !Divides(m.Value(), Val(a[..])) {
      FermatInverse(Val(a[..]), Val(r[..]), m.Value());
    }
  }
}
