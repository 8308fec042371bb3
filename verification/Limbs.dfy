/**
 Multi-limb arithmetic of src/security/gost3410.c: 64-bit limbs, least significant first,
 with the portable 128-bit product and carries. Val gives the number a limb string denotes.
 */
module Limbs {
  import opened Octets
  import Lengths

  const B: nat := 0x1_0000_0000_0000_0000
  const S: nat := 0x1_0000_0000          // 2^32
  const MAX64: nat := 0xFFFF_FFFF_FFFF_FFFF
  /** 2^256, the value of four full limbs plus one. */
  const W: nat := 0x1_0000_0000_0000_0000_0000_0000_0000_0000_0000_0000_0000_0000_0000_0000_0000_0000

  function PowB(k: nat): (p: nat)
    ensures p >= 1
  {
    if k == 0 then 1 else B * PowB(k - 1)
  }

  function Val(w: seq<u64>): nat {
    if w == [] then 0 else Val(w[..|w| - 1]) + w[|w| - 1] * PowB(|w| - 1)
  }

  lemma PowBValues()
    ensures PowB(1) == B && PowB(2) == B * B && PowB(3) == B * B * B && PowB(4) == W
  {
    assert PowB(0) == 1;
    assert PowB(1) == B;
    assert PowB(2) == B * B;
    assert PowB(3) == B * (B * B);
  }

  lemma {:induction false} PowBAdd(i: nat, j: nat)
    ensures PowB(i + j) == PowB(i) * PowB(j)
  {
    if i > 0 {
      PowBAdd(i - 1, j);
      assert PowB(i + j) == B * PowB(i - 1 + j) == B * (PowB(i - 1) * PowB(j));
      assert B * (PowB(i - 1) * PowB(j)) == (B * PowB(i - 1)) * PowB(j);
    }
  }

  lemma MulLe(x: nat, y: nat, m: nat, n: nat)
    requires x <= m && y <= n
    ensures x * y <= m * n
  {
    assert x * y <= m * y;
    assert m * y <= m * n;
  }

  lemma {:induction false} ValBound(w: seq<u64>)
    ensures Val(w) < PowB(|w|)
  {
    if w != [] {
      var k := |w| - 1;
      ValBound(w[..k]);
      MulLe(w[k], PowB(k), B - 1, PowB(k));
      assert (B - 1) * PowB(k) + PowB(k) == B * PowB(k);
    }
  }

  lemma ValSnoc(w: seq<u64>, k: nat)
    requires k < |w|
    ensures Val(w[..k + 1]) == Val(w[..k]) + w[k] * PowB(k)
  {
    assert w[..k + 1][..k] == w[..k];
  }

  /** Low and high part of a number. */
  lemma {:induction false} ValSplit(w: seq<u64>, k: nat)
    requires k <= |w|
    ensures Val(w) == Val(w[..k]) + PowB(k) * Val(w[k..])
  {
    if k == |w| {
      assert w[..k] == w;
    } else {
      var n := |w| - 1;
      ValSplit(w[..n], k);
      assert w[..n][..k] == w[..k] && w[..n][k..] == w[k..][..n - k];
      PowBAdd(k, n - k);
      SplitStep(Val(w[..k]), PowB(k), Val(w[k..][..n - k]), w[n], PowB(n - k));
    }
  }

  lemma SplitStep(low: int, p: int, high: int, x: int, q: int)
    ensures (low + p * high) + x * (p * q) == low + p * (high + x * q)
  {
    assert p * (high + x * q) == p * high + p * (x * q);
    assert p * (x * q) == x * (p * q);
  }

  /** Changing one limb changes the number by that limb's weight. */
  lemma {:induction false} ValUpdate(w: seq<u64>, k: nat, v: u64)
    requires k < |w|
    ensures Val(w[k := v]) == Val(w) + (v - w[k]) * PowB(k)
  {
    var n := |w| - 1;
    if k == n {
      assert w[k := v][..n] == w[..n];
      assert v * PowB(k) == w[k] * PowB(k) + (v - w[k]) * PowB(k);
    } else {
      ValUpdate(w[..n], k, v);
      assert w[k := v][..n] == w[..n][k := v];
    }
  }

  lemma {:induction false} ValZero(w: seq<u64>)
    requires forall i :: 0 <= i < |w| ==> w[i] == 0
    ensures Val(w) == 0
  {
    if w != [] { ValZero(w[..|w| - 1]); }
  }

  lemma {:induction false} ZeroVal(w: seq<u64>)
    requires Val(w) == 0
    ensures forall i :: 0 <= i < |w| ==> w[i] == 0
  {
    if w != [] {
      var k := |w| - 1;
      if w[k] >= 1 { MulLe(1, PowB(k), w[k], PowB(k)); }
      ZeroVal(w[..k]);
      assert forall i :: 0 <= i < k ==> w[i] == w[..k][i];
    }
  }

  // ── 128-bit building blocks ────────────────────────────────────────────────

  /** osp_u128_mul: the exact product from four 32-bit products, all sums taken modulo 2^64. */
  method U128Mul(a: u64, b: u64) returns (hi: u64, lo: u64)
    ensures hi * B + lo == a * b
  {
    var aLo, aHi := a % S, a / S;
    var bLo, bHi := b % S, b / S;
    PartBounds(aLo, bLo);
    PartBounds(aLo, bHi);
    PartBounds(aHi, bLo);
    PartBounds(aHi, bHi);
    var ll: u64, lh: u64, hl: u64, hh: u64 := aLo * bLo, aLo * bHi, aHi * bLo, aHi * bHi;
    ProductParts(a, b, aLo, aHi, bLo, bHi);
    MulLe(a, b, B - 1, B - 1);
    hi, lo := JoinParts(ll, lh, hl, hh);
  }

  /** The carries of osp_u128_mul, once the four partial products are known. */
  method JoinParts(ll: u64, lh: u64, hl: u64, hh: u64) returns (hi: u64, lo: u64)
    requires ll + S * (lh + hl) + B * hh < B * B
    ensures hi * B + lo == ll + S * (lh + hl) + B * hh
  {
    var mid: u64 := (lh + hl) % B;
    var midCarry := if mid < lh then 1 else 0;
    lo := (ll + mid * S % B) % B;
    var loCarry := if lo < ll then 1 else 0;
    MiddleParts(ll, lh, hl, hh, mid, midCarry, lo, loCarry);
    hi := ((hh + mid / S) % B + midCarry * S % B + loCarry) % B;
  }

  lemma PartBounds(x: nat, y: nat)
    requires x < S && y < S
    ensures 0 <= x * y <= (S - 1) * (S - 1) < B
  {
    MulLe(x, y, S - 1, S - 1);
  }

  lemma ProductParts(a: nat, b: nat, aLo: nat, aHi: nat, bLo: nat, bHi: nat)
    requires a == aHi * S + aLo && b == bHi * S + bLo
    ensures a * b == aLo * bLo + S * (aLo * bHi + aHi * bLo) + B * (aHi * bHi)
  {
    assert a * b == aHi * S * b + aLo * b;
    assert aLo * b == aLo * bHi * S + aLo * bLo;
    assert aHi * b == aHi * bHi * S + aHi * bLo;
    assert aHi * S * b == S * (aHi * b);
  }

  lemma MiddleParts(ll: u64, lh: u64, hl: u64, hh: u64, mid: u64, midCarry: nat, lo: u64, loCarry: nat)
    requires mid == (lh + hl) % B && midCarry == (if mid < lh then 1 else 0)
    requires lo == (ll + mid * S % B) % B && loCarry == if lo < ll then 1 else 0
    ensures (hh + mid / S + midCarry * S + loCarry) * B + lo == ll + S * (lh + hl) + B * hh
  {
    assert lh + hl == mid + midCarry * B;
    assert mid == mid / S * S + mid % S;
    Lengths.DivUnique(mid * S, B, mid / S, mid % S * S);
    assert mid * S % B == mid % S * S;
    assert ll + mid % S * S == lo + loCarry * B;
  }

  /** osp_u128_add3. */
  method U128Add3(a: u64, b: u64, c: u64) returns (sum: u64, carry: u64)
    ensures carry * B + sum == a + b + c && carry <= 2
  {
    var s1: u64 := (a + b) % B;
    var c1 := if s1 < a then 1 else 0;
    sum := (s1 + c) % B;
    var c2 := if sum < s1 then 1 else 0;
    carry := c1 + c2;
  }

  // ── 256 x 256 -> 512 bit product ───────────────────────────────────────────

  /** One row of mul512: t += x * b * B^i, leaving the new top limb at i + 4. */
  method MulRow(t: array<u64>, x: u64, b: seq<u64>, i: nat)
    requires t.Length == 8 && |b| == 4 && i < 4
    requires forall k :: i + 4 <= k < 8 ==> t[k] == 0
    modifies t
    ensures Val(t[..]) == Val(old(t[..])) + PowB(i) * (x * Val(b))
    ensures forall k :: i + 5 <= k < 8 ==> t[k] == 0
  {
    ghost var before := Val(t[..]);
    var carry: u64 := 0;
    for j := 0 to 4
      invariant forall k :: i + 4 <= k < 8 ==> t[k] == 0
      invariant RowSum(t[..], carry, i, j, before, x, b)
    {
      ghost var t0, cin := t[..], carry;
      var hi, lo := U128Mul(x, b[j]);
      var sum, c := U128Add3(lo, t[i + j], carry);
      CarryBound(x, b[j], hi, lo, t0[i + j], cin, sum, c);
      t[i + j] := sum;
      carry := c + hi;
      RowSumStep(t0, cin, i, j, before, x, b, sum, carry);
      assert t[..] == t0[i + j := sum];
    }
    assert b[..4] == b;
    ghost var t0 := t[..];
    ValUpdate(t0, i + 4, carry);
    t[i + 4] := t[i + 4] + carry;
    assert t[..] == t0[i + 4 := carry];
  }

  /** After j limbs of the row: what is in t plus the pending carry is what was there plus x * b[..j] * B^i. */
  ghost predicate RowSum(t: seq<u64>, carry: u64, i: nat, j: nat, before: nat, x: u64, b: seq<u64>)
    requires j <= |b|
  {
    Val(t) + carry * PowB(i + j) == before + PowB(i) * (x * Val(b[..j]))
  }

  lemma RowSumStep(t: seq<u64>, carry: u64, i: nat, j: nat, before: nat, x: u64, b: seq<u64>, sum: u64, carry': u64)
    requires j < |b| && i + j < |t| && RowSum(t, carry, i, j, before, x, b)
    requires carry' * B + sum == x * b[j] + t[i + j] + carry
    ensures RowSum(t[i + j := sum], carry', i, j + 1, before, x, b)
  {
    ValUpdate(t, i + j, sum);
    ValSnoc(b, j);
    PowBAdd(i, j);
    PowBAdd(i, j + 1);
    RowStep(PowB(i), PowB(j), x, b[j], Val(b[..j]), Val(t), before, t[i + j], carry, sum, carry');
  }

  /** The running carry stays below 2^64. */
  lemma CarryBound(x: u64, y: u64, hi: u64, lo: u64, t: u64, cin: u64, sum: u64, c: u64)
    requires hi * B + lo == x * y && c * B + sum == lo + t + cin
    ensures c + hi < B
    ensures (c + hi) * B + sum == x * y + t + cin
  {
    MulLe(x, y, B - 1, B - 1);
    assert (c + hi) * B <= (B - 1) * (B - 1) + 2 * (B - 1);
  }

  lemma RowStep(pi: nat, pj: nat, x: nat, y: nat, low: nat, t: int, before: int, tv: nat, cin: nat, sum: nat, cout: nat)
    requires cout * B + sum == x * y + tv + cin
    requires t + cin * (pi * pj) == before + pi * (x * low)
    ensures t + (sum - tv) * (pi * pj) + cout * (pi * (B * pj)) == before + pi * (x * (low + y * pj))
  {
    var p := pi * pj;
    assert pi * (B * pj) == B * p;
    assert cout * (B * p) == (cout * B) * p;
    assert (cout * B) * p + (sum - tv) * p == (cout * B + sum - tv) * p;
    assert (cout * B + sum - tv) * p == (x * y + cin) * p == (x * y) * p + cin * p;
    assert pi * (x * (low + y * pj)) == pi * (x * low + x * (y * pj)) == pi * (x * low) + pi * (x * (y * pj));
    assert pi * (x * (y * pj)) == (x * y) * p;
  }

  lemma ProductStep(va: int, x: int, p: int, vb: int)
    ensures (va + x * p) * vb == va * vb + p * (x * vb)
  {
    assert (va + x * p) * vb == va * vb + (x * p) * vb;
    assert (x * p) * vb == p * (x * vb);
  }

  /** mul512: the exact 512-bit product. */
  method Mul512(t: array<u64>, a: seq<u64>, b: seq<u64>)
    requires t.Length == 8 && |a| == 4 && |b| == 4
    modifies t
    ensures Val(t[..]) == Val(a) * Val(b)
  {
    for k := 0 to 8
      invariant forall m :: 0 <= m < k ==> t[m] == 0
    {
      t[k] := 0;
    }
    ValZero(t[..]);
    for i := 0 to 4
      invariant forall k :: i + 4 <= k < 8 ==> t[k] == 0
      invariant Val(t[..]) == Val(a[..i]) * Val(b)
    {
      MulRow(t, a[i], b, i);
      ValSnoc(a, i);
      ProductStep(Val(a[..i]), a[i], PowB(i), Val(b));
    }
    assert a[..4] == a;
  }
}
