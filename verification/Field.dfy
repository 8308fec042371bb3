/**
 Arithmetic modulo the 256-bit field prime p and group order q of src/security/gost3410.c:
 comparison, subtraction with its borrow chain, conditional reduction, folding of 512-bit
 products, and the modular operations built from them. Operands may alias the result.
 */
module Field {
  import opened Octets
  import opened Limbs
  import Lengths
  import opened Modular

  /** A modulus m with 2^256 mod m, both as four limbs. */
  datatype Modulus = Modulus(limbs: seq<u64>, fold: seq<u64>) {
    ghost function Value(): nat { Val(limbs) }
  }

  const P := Modulus([0xFFFF_FFFF_FFFF_FD97, MAX64, MAX64, MAX64], [617, 0, 0, 0])
  const Q := Modulus([0x4584_1B09_B761_B893, 0x6C61_1070_995A_D100, MAX64, MAX64],
                     [0xBA7B_E4F6_489E_476D, 0x939E_EF8F_66A5_2EFF, 0, 0])

  /** Once a limb is all ones, so are all limbs above it. */
  predicate OnesOnTop(w: seq<u64>) {
    forall i, j :: 0 <= i < j < |w| && w[i] == MAX64 ==> w[j] == MAX64
  }

  ghost predicate Good(m: Modulus) {
    && |m.limbs| == 4 && |m.fold| == 4
    && Val(m.limbs) + Val(m.fold) == W
    && 0 < Val(m.fold) < B * B
    && OnesOnTop(m.limbs)
  }

  lemma ValFour(a: u64, b: u64, c: u64, d: u64)
    ensures Val([a, b, c, d]) == a + b * B + c * (B * B) + d * (B * B * B)
  {
    PowBValues();
    assert [a, b, c, d][..3] == [a, b, c];
    assert [a, b, c][..2] == [a, b];
    assert [a, b][..1] == [a];
    assert [a][..0] == [];
    assert PowB(0) == 1;
    assert Val([a]) == a;
    assert Val([a, b]) == a + b * B;
    assert Val([a, b, c]) == a + b * B + c * (B * B);
  }

  lemma BothGood()
    ensures Good(P) && Good(Q)
  {
    ValFour(0xFFFF_FFFF_FFFF_FD97, MAX64, MAX64, MAX64);
    ValFour(617, 0, 0, 0);
    ValFour(0x4584_1B09_B761_B893, 0x6C61_1070_995A_D100, MAX64, MAX64);
    ValFour(0xBA7B_E4F6_489E_476D, 0x939E_EF8F_66A5_2EFF, 0, 0);
  }

  // ── Comparison ─────────────────────────────────────────────────────────────

  /** The highest limb that differs decides. */
  lemma CompareAt(a: seq<u64>, b: seq<u64>, i: nat)
    requires |a| == |b| && i < |a| && a[i + 1..] == b[i + 1..] && a[i] > b[i]
    ensures Val(a) > Val(b)
  {
    ValSplit(a, i + 1);
    ValSplit(b, i + 1);
    ValSnoc(a, i);
    ValSnoc(b, i);
    ValBound(b[..i]);
    MulLe(b[i] + 1, PowB(i), a[i], PowB(i));
    assert (b[i] + 1) * PowB(i) == b[i] * PowB(i) + PowB(i);
  }

  /** fe_cmp. */
  method Cmp(a: seq<u64>, b: seq<u64>) returns (c: int)
    requires |a| == |b| == 4
    ensures c == if Val(a) > Val(b) then 1 else if Val(a) < Val(b) then -1 else 0
  {
    var i := 4;
    while i > 0
      invariant 0 <= i <= 4 && a[i..] == b[i..]
    {
      i := i - 1;
      if a[i] > b[i] { CompareAt(a, b, i); return 1; }
      if a[i] < b[i] { CompareAt(b, a, i); return -1; }
      assert a[i..] == [a[i]] + a[i + 1..] && b[i..] == [b[i]] + b[i + 1..];
    }
    assert a == a[0..] == b[0..] == b;
    return 0;
  }

  // ── Subtraction and its borrow chain ───────────────────────────────────────

  /** The borrow into limb i as the code computes it: the sum b[i] + borrow is taken modulo 2^64. */
  function Borrow(a: seq<u64>, b: seq<u64>, i: nat): (c: nat)
    requires |a| == |b| && i <= |a|
    ensures c <= 1
  {
    if i == 0 then 0
    else if a[i - 1] < (b[i - 1] + Borrow(a, b, i - 1)) % B then 1 else 0
  }

  function RawLimb(a: seq<u64>, b: seq<u64>, i: nat): u64
    requires |a| == |b| && i < |a|
  {
    (a[i] - b[i] - Borrow(a, b, i)) % B
  }

  /** What the subtraction loop leaves behind. */
  function RawSub(a: seq<u64>, b: seq<u64>): (r: seq<u64>)
    requires |a| == |b|
    ensures |r| == |a|
  {
    seq(|a|, i requires 0 <= i < |a| => RawLimb(a, b, i))
  }

  /** A borrow into an all-ones limb of the subtrahend is forgotten. */
  predicate LostAt(a: seq<u64>, b: seq<u64>, i: nat)
    requires |a| == |b| && i < |a|
  {
    b[i] == MAX64 && Borrow(a, b, i) == 1
  }

  function LostSum(a: seq<u64>, b: seq<u64>, i: nat): nat
    requires |a| == |b| && i <= |a|
  {
    if i == 0 then 0 else LostSum(a, b, i - 1) + if LostAt(a, b, i - 1) then PowB(i) else 0
  }

  lemma LimbIdentity(x: u64, y: u64, borrow: nat)
    requires borrow <= 1
    ensures var out := if x < (y + borrow) % B then 1 else 0;
            var lost := if y == MAX64 && borrow == 1 then 1 else 0;
            (x - y - borrow) % B == x - y - borrow + B * (out + lost)
  {}

  /** The exact value of the loop's result: every lost borrow adds the weight of the next limb. */
  lemma {:induction false} RawIdentity(a: seq<u64>, b: seq<u64>, i: nat)
    requires |a| == |b| && i <= |a|
    ensures Val(RawSub(a, b)[..i]) == Val(a[..i]) - Val(b[..i]) + Borrow(a, b, i) * PowB(i) + LostSum(a, b, i)
  {
    if i > 0 {
      var k := i - 1;
      RawIdentity(a, b, k);
      ValSnoc(RawSub(a, b), k);
      ValSnoc(a, k);
      ValSnoc(b, k);
      LimbIdentity(a[k], b[k], Borrow(a, b, k));
      var lost := if LostAt(a, b, k) then 1 else 0;
      RawStep(a[k], b[k], Borrow(a, b, k), Borrow(a, b, i), lost, PowB(k));
    }
  }

  lemma RawStep(x: int, y: int, borrow: int, out: int, lost: int, p: int)
    ensures (x - y - borrow + B * (out + lost)) * p == x * p - y * p - borrow * p + out * (B * p) + lost * (B * p)
  {
    assert (x - y - borrow + B * (out + lost)) * p == (x - y - borrow) * p + (B * (out + lost)) * p;
    assert (x - y - borrow) * p == x * p - y * p - borrow * p;
    assert (B * (out + lost)) * p == (out + lost) * (B * p) == out * (B * p) + lost * (B * p);
  }

  /** No all-ones limb of the subtrahend receives a borrow: a condition on the operands alone. */
  ghost predicate BorrowSafe(a: seq<u64>, b: seq<u64>)
    requires |a| == |b|
  {
    forall i :: 0 <= i < |b| && b[i] == MAX64 ==> Val(a[..i]) >= Val(b[..i])
  }

  lemma {:induction false} LostSumZero(a: seq<u64>, b: seq<u64>, i: nat)
    requires |a| == |b| && i <= |a|
    ensures LostSum(a, b, i) == 0 <==> forall k :: 0 <= k < i ==> !LostAt(a, b, k)
  {
    if i > 0 { LostSumZero(a, b, i - 1); }
  }

  /** While nothing is lost, the code's borrow is the true one. */
  lemma BorrowTrue(a: seq<u64>, b: seq<u64>, i: nat)
    requires |a| == |b| && i <= |a| && LostSum(a, b, i) == 0
    ensures Borrow(a, b, i) == if Val(a[..i]) < Val(b[..i]) then 1 else 0
  {
    RawIdentity(a, b, i);
    ValBound(RawSub(a, b)[..i]);
    ValBound(a[..i]);
    ValBound(b[..i]);
  }

  lemma {:induction false} SafeMeansNothingLost(a: seq<u64>, b: seq<u64>, i: nat)
    requires |a| == |b| && i <= |a|
    ensures LostSum(a, b, i) == 0 <==> forall k :: 0 <= k < i && b[k] == MAX64 ==> Val(a[..k]) >= Val(b[..k])
  {
    if i > 0 {
      SafeMeansNothingLost(a, b, i - 1);
      if LostSum(a, b, i - 1) == 0 { BorrowTrue(a, b, i - 1); }
    }
  }

  /**
   The subtraction loop is exact if and only if no all-ones limb of the subtrahend receives a borrow
   (gost3410.c:128-130, 162-164, 170-172, 260-262, 268-270).
   */
  lemma SubExactIff(a: seq<u64>, b: seq<u64>)
    requires |a| == |b| == 4 && Val(a) >= Val(b)
    ensures Val(RawSub(a, b)) == Val(a) - Val(b) <==> BorrowSafe(a, b)
  {
    RawIdentity(a, b, 4);
    SafeMeansNothingLost(a, b, 4);
    assert RawSub(a, b)[..4] == RawSub(a, b) && a[..4] == a && b[..4] == b;
    ValBound(RawSub(a, b));
    PowBValues();
    assert Borrow(a, b, 4) * PowB(4) >= 0;
  }

  /** The condition can fail: the code then returns a number that is off by 2^128 and more. */
  lemma SubInexactExample()
    ensures var a, b := [0, 0, 1, 1], [1, MAX64, 0, 0];
            Val(a) >= Val(b) && Val(RawSub(a, b)) == Val(a) - Val(b) + B * B
  {
    var a, b: seq<u64> := [0, 0, 1, 1], [1, MAX64, 0, 0];
    ValFour(0, 0, 1, 1);
    ValFour(1, MAX64, 0, 0);
    assert Borrow(a, b, 0) == 0 && Borrow(a, b, 1) == 1 && Borrow(a, b, 2) == 0 && Borrow(a, b, 3) == 0;
    assert RawSub(a, b) == [MAX64, 0, 1, 1];
    ValFour(MAX64, 0, 1, 1);
  }

  /** The subtraction loop, in place: r may be a. */
  method SubInto(r: array<u64>, a: array<u64>, b: seq<u64>)
    requires r.Length == a.Length == |b| == 4
    modifies r
    ensures r[..] == RawSub(old(a[..]), b)
  {
    ghost var a0 := a[..];
    var borrow := 0;
    for i := 0 to 4
      invariant borrow == Borrow(a0, b, i)
      invariant forall k :: i <= k < 4 ==> a[k] == a0[k]
      invariant forall k :: 0 <= k < i ==> r[k] == RawLimb(a0, b, k)
    {
      var diff: u64 := (a[i] - b[i] - borrow) % B;
      borrow := if a[i] < (b[i] + borrow) % B then 1 else 0;
      r[i] := diff;
    }
    assert r[..] == RawSub(a0, b);
  }

  // ── Reduction below the modulus ────────────────────────────────────────────

  lemma {:induction false} AllOnes(w: seq<u64>)
    requires forall i :: 0 <= i < |w| ==> w[i] == MAX64
    ensures Val(w) == PowB(|w|) - 1
  {
    if w != [] {
      var k := |w| - 1;
      AllOnes(w[..k]);
      assert MAX64 * PowB(k) + PowB(k) == B * PowB(k);
    }
  }

  /** Subtracting p or q from something no smaller never loses a borrow: the shape of the moduli. */
  lemma OnesOnTopSafe(a: seq<u64>, m: seq<u64>)
    requires |a| == |m| == 4 && OnesOnTop(m) && Val(a) >= Val(m)
    ensures BorrowSafe(a, m)
  {
    forall i | 0 <= i < |m| && m[i] == MAX64 ensures Val(a[..i]) >= Val(m[..i]) {
      AllOnes(m[i..]);
      ValBound(a[i..]);
      ValSplit(a, i);
      ValSplit(m, i);
      MulLe(PowB(i), Val(a[i..]), PowB(i), Val(m[i..]));
    }
  }

  /** fe_mod: one subtraction at most, and the canonical residue. */
  method Reduce(r: array<u64>, m: Modulus) returns (ghost passes: nat)
    requires r.Length == 4 && Good(m)
    modifies r
    ensures Val(r[..]) == Val(old(r[..])) % m.Value()
    ensures passes <= 1
  {
    ghost var v, mv := Val(r[..]), Val(m.limbs);
    ValBound(r[..]);
    PowBValues();
    ModOnce(v, mv);
    passes := 0;
    var c := Cmp(r[..], m.limbs);
    while c >= 0
      invariant (passes == 0 && Val(r[..]) == v) || (passes == 1 && v >= mv && Val(r[..]) == v - mv)
      invariant c >= 0 <==> Val(r[..]) >= mv
      decreases Val(r[..])
    {
      OnesOnTopSafe(r[..], m.limbs);
      SubExactIff(r[..], m.limbs);
      SubInto(r, r, m.limbs);
      passes := passes + 1;
      c := Cmp(r[..], m.limbs);
    }
  }

  lemma ModOnce(v: nat, m: nat)
    requires v < 2 * m
    ensures v % m == if v < m then v else v - m
  {
    if v >= m { Lengths.DivUnique(v, m, 1, v - m); }
  }

  // ── Addition ───────────────────────────────────────────────────────────────

  /** The addition loop with carry: r may be a or b. */
  method AddInto(r: array<u64>, a: array<u64>, b: array<u64>) returns (carry: u64)
    requires r.Length == a.Length == b.Length
    modifies r
    ensures carry * PowB(r.Length) + Val(r[..]) == Val(old(a[..])) + Val(old(b[..]))
    ensures carry <= 1
  {
    ghost var a0, b0 := a[..], b[..];
    carry := 0;
    for i := 0 to r.Length
      invariant carry <= 1
      invariant forall k :: i <= k < r.Length ==> a[k] == a0[k] && b[k] == b0[k]
      invariant carry * PowB(i) + Val(r[..i]) == Val(a0[..i]) + Val(b0[..i])
    {
      ghost var r0, cin := r[..i], carry;
      var limb, out := U128Add3(a[i], b[i], carry);
      r[i], carry := limb, out;
      assert r[..i + 1] == r0 + [limb];
      ValSnoc(a0, i);
      ValSnoc(b0, i);
      AddStep(a0[i], b0[i], cin, limb, carry, PowB(i), Val(a0[..i]), Val(b0[..i]), Val(r0));
    }
    assert r[..] == r[..r.Length] && a0[..r.Length] == a0 && b0[..r.Length] == b0;
  }

  lemma AddStep(x: int, y: int, cin: int, s: int, cout: int, p: int, va: int, vb: int, vr: int)
    requires cout * B + s == x + y + cin && cin * p + vr == va + vb
    ensures cout * (B * p) + (vr + s * p) == (va + x * p) + (vb + y * p)
  {
    assert (cout * B + s) * p == (x + y + cin) * p;
    assert (cout * B + s) * p == cout * (B * p) + s * p;
    assert (x + y + cin) * p == x * p + y * p + cin * p;
  }

  method Copied(s: seq<u64>) returns (a: array<u64>)
    ensures fresh(a) && a[..] == s
  {
    a := new u64[|s|](i requires 0 <= i < |s| => s[i]);
  }

  /** The range of operands whose sum survives: the carry out of the second addition is dropped. */
  ghost predicate AddFits(a: seq<u64>, b: seq<u64>, m: Modulus) {
    Val(a) + Val(b) < 2 * W - Val(m.fold)
  }

  /** What both modular additions promise: canonical, and the true sum exactly when the operands fit. */
  ghost predicate IsSum(r: seq<u64>, a: seq<u64>, b: seq<u64>, m: Modulus)
    requires m.Value() > 0
  {
    && Val(r) < m.Value()
    && (Val(r) == (Val(a) + Val(b)) % m.Value() <==> AddFits(a, b, m))
  }

  /** A 256-bit sum after the fold of its carry; v is what four limbs can hold of it. */
  lemma FoldedSum(sum: nat, v: nat, c: nat, m: nat)
    requires m + c == W && 0 < c < B * B && sum < 2 * W
    requires v == if sum < W then sum else if sum + c < 2 * W then sum - W + c else sum - 2 * W + c
    ensures v % m == sum % m <==> sum < 2 * W - c
  {
    if W <= sum < 2 * W - c {
      SameResidue(sum, v, 1, m);
    } else if sum >= 2 * W - c {
      Lengths.DivUnique(v, m, 0, v);
      Lengths.DivUnique(sum, m, 2, v + c);
    }
  }

  /** sc_add: the fold constant has two words, and is added with a second carry chain. */
  method ScAdd(r: array<u64>, a: array<u64>, b: array<u64>)
    requires r.Length == a.Length == b.Length == 4
    modifies r
    ensures Q.Value() > 0 && IsSum(r[..], old(a[..]), old(b[..]), Q)
  {
    ghost var sum := Val(a[..]) + Val(b[..]);
    BothGood();
    PowBValues();
    ValBound(a[..]);
    ValBound(b[..]);
    var carry := AddInto(r, a, b);
    ValBound(r[..]);
    if carry > 0 {
      var fold := Copied(Q.fold);
      var dropped := AddInto(r, r, fold);
      ValBound(r[..]);
    }
    FoldedSum(sum, Val(r[..]), Val(Q.fold), Q.Value());
    ghost var v := Val(r[..]);
    ghost var passes := Reduce(r, Q);
    Quotient(v, Q.Value());
  }

  /** The carry chain of fe_add: one word added, stopping when the carry dies. */
  method AddWord(r: array<u64>, w: u64) returns (carry: u64)
    requires r.Length == 4
    modifies r
    ensures Val(r[..]) == (Val(old(r[..])) + w) % W
  {
    ghost var v := Val(r[..]);
    PowBValues();
    carry := w;
    var i := 0;
    while i < 4 && carry > 0
      invariant 0 <= i <= 4
      invariant Val(r[..]) + carry * PowB(i) == v + w
      decreases 4 - i
    {
      ghost var before, cin := r[..], carry;
      var sum := r[i] + carry;
      r[i], carry := sum % B, sum / B;
      assert r[..] == before[i := r[i]];
      ValUpdate(before, i, r[i]);
      WordStep(before[i], cin, r[i], carry, PowB(i));
      i := i + 1;
    }
    ValBound(r[..]);
    if carry > 0 { Lengths.DivUnique(v + w, W, carry, Val(r[..])); }
    else { Lengths.DivUnique(v + w, W, 0, Val(r[..])); }
  }

  lemma WordStep(x: int, cin: int, s: int, cout: int, p: int)
    requires x + cin == cout * B + s
    ensures (s - x) * p + cout * (B * p) == cin * p
  {
    assert (cout * B + s) * p == cout * (B * p) + s * p;
    assert (x + cin) * p == x * p + cin * p;
    assert (s - x) * p == s * p - x * p;
  }

  /** fe_add. */
  method FeAdd(r: array<u64>, a: array<u64>, b: array<u64>)
    requires r.Length == a.Length == b.Length == 4
    modifies r
    ensures P.Value() > 0 && IsSum(r[..], old(a[..]), old(b[..]), P)
  {
    ghost var sum := Val(a[..]) + Val(b[..]);
    BothGood();
    PowBValues();
    ValFour(617, 0, 0, 0);
    ValBound(a[..]);
    ValBound(b[..]);
    var carry := AddInto(r, a, b);
    ValBound(r[..]);
    if carry > 0 {
      ghost var low := Val(r[..]);
      var dropped := AddWord(r, P.fold[0]);
      ModOnce(low + 617, W);
    }
    FoldedSum(sum, Val(r[..]), 617, P.Value());
    ghost var v := Val(r[..]);
    ghost var passes := Reduce(r, P);
    Quotient(v, P.Value());
  }

  // ── Modular subtraction ────────────────────────────────────────────────────

  lemma {:induction false} LostSumShape(a: seq<u64>, b: seq<u64>, i: nat)
    requires |a| == |b| && i <= |a| <= 4
    ensures LostSum(a, b, i) <= 2 * PowB(i)
    ensures LostSum(a, b, i) == 0 || LostSum(a, b, i) >= B
  {
    if i > 0 {
      LostSumShape(a, b, i - 1);
      if i > 1 { assert PowB(i) == B * PowB(i - 1) >= 2 * PowB(i - 1); }
    }
  }

  /** What the subtrahend becomes when the modulus is added first. */
  ghost function Lost(a: seq<u64>, b: seq<u64>): int
    requires |a| == |b|
  {
    Val(RawSub(a, b)) - (Val(a) - Val(b))
  }

  /** The error of one subtraction: zero exactly when safe, and otherwise never a multiple of m. */
  lemma LostSize(a: seq<u64>, b: seq<u64>)
    requires |a| == |b| == 4 && Val(a) >= Val(b)
    ensures Lost(a, b) == 0 <==> BorrowSafe(a, b)
    ensures Lost(a, b) == 0 || B <= Lost(a, b) <= 2 * (B * B * B)
  {
    SubExactIff(a, b);
    RawIdentity(a, b, 4);
    assert RawSub(a, b)[..4] == RawSub(a, b) && a[..4] == a && b[..4] == b;
    PowBValues();
    ValBound(RawSub(a, b));
    LostSumShape(a, b, 3);
    LostSumShape(a, b, 4);
  }

  /** sc_sub and fe_sub: r may be a or b. */
  method ModSub(r: array<u64>, a: array<u64>, b: array<u64>, m: Modulus)
    requires r.Length == a.Length == b.Length == 4 && (m == P || m == Q)
    modifies r
    ensures Val(old(a[..])) >= Val(old(b[..])) ==> r[..] == RawSub(old(a[..]), old(b[..]))
    ensures m.Value() > 0
    ensures Val(old(a[..])) < Val(old(b[..])) ==> IsSum(r[..], old(a[..]), RawSub(m.limbs, old(b[..])), m)
    ensures Val(old(a[..])) < Val(old(b[..])) <= m.Value() ==>
              Val(r[..]) == (Val(old(a[..])) - Val(old(b[..])) + Lost(m.limbs, old(b[..]))) % m.Value()
  {
    BothGood();
    var t := b[..];
    var c := Cmp(a[..], b[..]);
    if c < 0 {
      var q := Copied(m.limbs);
      SubInto(q, q, t);
      if m == P { FeAdd(r, a, q); } else { ScAdd(r, a, q); }
      if Val(t) <= m.Value() { AddedComplement(r[..], old(a[..]), t, m); }
    } else {
      SubInto(r, a, t);
    }
  }

  /** Adding m - b to a smaller a leaves no second carry. */
  lemma AddedComplement(r: seq<u64>, a: seq<u64>, b: seq<u64>, m: Modulus)
    requires |a| == |b| == 4 && Good(m) && m.Value() > 0 && Val(a) < Val(b) <= m.Value()
    requires IsSum(r, a, RawSub(m.limbs, b), m)
    ensures Val(r) == (Val(a) - Val(b) + Lost(m.limbs, b)) % m.Value()
  {
    hide Val, RawSub, LostAt;
    PowBValues();
    var q := RawSub(m.limbs, b);
    ValBound(q);
    assert AddFits(a, q, m);
    SameResidue(Val(a) + Val(q), Val(a) - Val(b) + Lost(m.limbs, b), 1, m.Value());
  }

  /** Modular subtraction of canonical operands is right exactly when no borrow is lost. */
  lemma SubCorrectIff(a: seq<u64>, b: seq<u64>, m: Modulus)
    requires |a| == |b| == |m.limbs| == 4 && (m == P || m == Q) && Val(a) < Val(b) <= m.Value()
    ensures BorrowSafe(m.limbs, b) <==>
              (Val(a) - Val(b) + Lost(m.limbs, b)) % m.Value() == (Val(a) - Val(b)) % m.Value()
  {
    hide Val, RawSub, BorrowSafe, Lost;
    LostSize(m.limbs, b);
    var lost, mv := Lost(m.limbs, b), m.Value();
    ModulusSize(m);
    ShiftedResidue(Val(a) - Val(b), lost, mv);
  }

  lemma ShiftedResidue(x: int, d: nat, m: nat)
    requires d < m
    ensures (x + d) % m == x % m <==> d == 0
  {
    DifferenceDivides(x + d, x, m);
    Lengths.DivUnique(d, m, 0, d);
  }

  lemma ModulusSize(m: Modulus)
    requires m == P || m == Q
    ensures m.Value() > 2 * (B * B * B)
  {
    BothGood();
  }
}
