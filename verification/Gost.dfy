/**
 GOST R 34.10 signatures of src/security/gost3410.c (sections 6.1 and 6.2 of RFC 7091): signing with a
 given k, verification, and the key agreement, over any point addition that is an abelian group law
 on the curve.
 */
module Gost {
  import opened Octets
  import opened Limbs
  import opened Field
  import opened FieldMul
  import opened Modular
  import opened Group
  import Lengths

  // ── Numbers as limbs and bytes ─────────────────────────────────────────────

  function LimbsOf(n: nat, k: nat): (w: seq<u64>)
    ensures |w| == k
  {
    if k == 0 then [] else LimbsOf(n, k - 1) + [(n / PowB(k - 1)) % B]
  }

  lemma {:induction false} ValInjective(a: seq<u64>, b: seq<u64>)
    requires |a| == |b| && Val(a) == Val(b)
    ensures a == b
  {
    if a != [] {
      var k := |a| - 1;
      ValBound(a[..k]);
      ValBound(b[..k]);
      Lengths.DivUnique(Val(a), PowB(k), a[k], Val(a[..k]));
      Lengths.DivUnique(Val(b), PowB(k), b[k], Val(b[..k]));
      ValInjective(a[..k], b[..k]);
      assert a == a[..k] + [a[k]] && b == b[..k] + [b[k]];
    }
  }

  function LittleEndian(n: nat, k: nat): (s: seq<byte>)
    ensures |s| == k
  {
    if k == 0 then [] else [(n % 256) as byte] + LittleEndian(n / 256, k - 1)
  }

  function FromLittleEndian(s: seq<byte>): nat {
    if s == [] then 0 else s[0] as nat + 256 * FromLittleEndian(s[1..])
  }

  lemma {:induction false} FromLittleEndianInverts(n: nat, k: nat)
    requires n < Pow256(k)
    ensures FromLittleEndian(LittleEndian(n, k)) == n
  {
    if k > 0 { FromLittleEndianInverts(n / 256, k - 1); }
  }

  lemma {:induction false} FromLittleEndianBound(s: seq<byte>)
    ensures FromLittleEndian(s) < Pow256(|s|)
  {
    if s != [] { FromLittleEndianBound(s[1..]); }
  }

  /** fe_from_le and fe_to_le, one limb. */
  function LimbFrom(s: seq<byte>): u64
    requires |s| == 8
  {
    FromLittleEndianBound(s);
    FromLittleEndian(s)
  }

  function FromLe(s: seq<byte>): (w: seq<u64>)
    requires |s| == 32
    ensures |w| == 4
  {
    [LimbFrom(s[..8]), LimbFrom(s[8..16]), LimbFrom(s[16..24]), LimbFrom(s[24..])]
  }

  function ToLe(w: seq<u64>): (s: seq<byte>)
    requires |w| == 4
    ensures |s| == 32
  {
    LittleEndian(w[0], 8) + LittleEndian(w[1], 8) + LittleEndian(w[2], 8) + LittleEndian(w[3], 8)
  }

  lemma LeRoundTrip(w: seq<u64>)
    requires |w| == 4
    ensures FromLe(ToLe(w)) == w
  {
    assert Pow256(8) == B;
    var s := ToLe(w);
    assert s[..8] == LittleEndian(w[0], 8) && s[8..16] == LittleEndian(w[1], 8);
    assert s[16..24] == LittleEndian(w[2], 8) && s[24..] == LittleEndian(w[3], 8);
    FromLittleEndianInverts(w[0], 8);
    FromLittleEndianInverts(w[1], 8);
    FromLittleEndianInverts(w[2], 8);
    FromLittleEndianInverts(w[3], 8);
  }

  lemma {:induction false} LimbsValue(n: nat, k: nat)
    ensures Val(LimbsOf(n, k)) == n % PowB(k)
  {
    if k > 0 {
      LimbsValue(n, k - 1);
      var w, p := LimbsOf(n, k), PowB(k - 1);
      assert w[..k - 1] == LimbsOf(n, k - 1);
      Quotient(n, p);
      Quotient(n / p, B);
      LimbsStep(n / p / B, (n / p) % B, p, n % p);
      Lengths.DivUnique(n, B * p, n / p / B, ((n / p) % B) * p + n % p);
    } else {
      Lengths.DivUnique(n, 1, n, 0);
    }
  }

  lemma LimbsStep(h: int, x: int, p: int, low: int)
    requires 0 <= low < p && 0 <= x < B
    ensures (h * B + x) * p + low == (B * p) * h + (x * p + low)
    ensures 0 <= x * p + low < B * p
  {
    assert (h * B + x) * p == h * B * p + x * p;
    MulLe(x, p, B - 1, p);
    assert (B - 1) * p + p == B * p;
  }

  // ── The curve ──────────────────────────────────────────────────────────────

  datatype Option<+T> = None | Some(value: T)

  datatype Point = Inf | Aff(x: seq<u64>, y: seq<u64>)

  const A: seq<u64> := [0xFFFF_FFFF_FFFF_FD94, MAX64, MAX64, MAX64]
  const BETA: seq<u64> := [0xA6, 0, 0, 0]
  const GENERATOR := Aff([1, 0, 0, 0],
                         [0x22AC_C99C_9E9F_1E14, 0x3529_4F2D_DF23_E3B1, 0x27DF_505A_453F_2B76, 0x8D91_E471_E098_9CDA])

  /** The field prime and the order of the generator, as numbers. */
  ghost function Prime(): (p: nat)
    ensures 2 * (B * B * B) < p < W
  {
    BothGood();
    P.Value()
  }

  ghost function Order(): (q: nat)
    ensures 2 * (B * B * B) < q < W
  {
    BothGood();
    Q.Value()
  }

  ghost function Cube(x: nat): nat { x * x * x }

  ghost function LinearTerm(x: nat): nat { Val(A) * x }

  /** The curve equation y^2 = x^3 + ax + b modulo p. */
  ghost predicate OnEquation(x: nat, y: nat) {
    (y * y) % Prime() == (Cube(x) + LinearTerm(x) + Val(BETA)) % Prime()
  }

  ghost predicate OnCurve(point: Point) {
    match point
    case Inf => true
    case Aff(x, y) => |x| == |y| == 4 && Val(x) < Prime() && Val(y) < Prime() && OnEquation(Val(x), Val(y))
  }

  /** What is assumed of the curve: an abelian group whose generator has prime order q. */
  ghost predicate Setting(g: Ops<Point>) {
    && IsPrime(Order())
    && Law(g, OnCurve) && g.zero == Inf
    && OnCurve(GENERATOR) && Times(g, Order(), GENERATOR) == Inf
  }

  // ── The scalars ────────────────────────────────────────────────────────────

  ghost predicate Scalar(n: nat) { 0 < n < Order() }

  /** The digest as a scalar: reduced, with 1 in place of 0. */
  ghost function Digest(h: seq<u64>): (e: nat)
    ensures Scalar(e)
  {
    var e := Val(h) % Order();
    if e == 0 then 1 else e
  }

  /** Section 6.1 of RFC 7091: the signature (r, s), or nothing. */
  ghost function Signature(g: Ops<Point>, d: nat, e: nat, k: nat): Option<(nat, nat)> {
    if !Scalar(d) || !Scalar(k) then None else
      match Times(g, k, GENERATOR)
      case Inf => None
      case Aff(x, _) =>
        var r := Val(x) % Order();
        var s := (r * d + k * e) % Order();
        if r == 0 || s == 0 then None else Some((r, s))
  }

  /** The three scalars of verification as the code computes them; z2 should be -rv modulo q. */
  ghost function Inverse(e: nat): nat { Pow(e, Order() - 2) % Order() }
  ghost function Z1(s: nat, e: nat): nat { (s * Inverse(e)) % Order() }
  ghost function Rv(r: nat, e: nat): (w: seq<u64>)
    ensures |w| == 4
  {
    LimbsOf((r * Inverse(e)) % Order(), 4)
  }
  ghost function Z2(r: nat, e: nat): nat { Val(RawSub(Q.limbs, Rv(r, e))) }

  lemma RvValue(r: nat, e: nat)
    ensures Val(Rv(r, e)) == (r * Inverse(e)) % Order()
    ensures Z2(r, e) == Order() - Val(Rv(r, e)) + Lost(Q.limbs, Rv(r, e))
  {
    var n := (r * Inverse(e)) % Order();
    LimbsValue(n, 4);
    PowBValues();
    Lengths.DivUnique(n, W, 0, n);
  }

  /** The algebra of signing then verifying, before any reduction is dropped. */
  lemma Expand(d: int, k: int, e: int, r: int, v: int, q: int, a: int, b: int, c: int, f: int, lost: int)
    requires e * v == 1 + f * q
    ensures var s := r * d + k * e - a * q;
            var z1 := s * v - b * q;
            var z2 := q - (r * v - c * q) + lost;
            z1 + z2 * d == k + lost * d + (k * f - a * v - b + d + c * d) * q
  {
    assert (r * d + k * e - a * q) * v == (r * d) * v + k * (e * v) - (a * v) * q by {
      assert (r * d + k * e - a * q) * v == (r * d) * v + (k * e) * v - (a * q) * v;
    }
    assert k * (e * v) == k + (k * f) * q;
    assert (q - (r * v - c * q) + lost) * d == d * q - (r * d) * v + (c * d) * q + lost * d by {
      assert (q - (r * v - c * q) + lost) * d == q * d - (r * v) * d + (c * q) * d + lost * d;
      assert (r * v) * d == (r * d) * v;
    }
    assert (k * f - a * v - b + d + c * d) * q == (k * f) * q - (a * v) * q - b * q + d * q + (c * d) * q;
  }

  /** What verification's scalars add up to: k, plus d times whatever the subtraction lost. */
  lemma ScalarSum(d: nat, k: nat, e: nat, r: nat, s: nat)
    requires IsPrime(Order()) && Scalar(e) && s == (r * d + k * e) % Order()
    ensures (Z1(s, e) + Z2(r, e) * d) % Order() == (k + Lost(Q.limbs, Rv(r, e)) * d) % Order()
  {
    var q, v := Order(), Inverse(e);
    RvValue(r, e);
    Lengths.DivUnique(e, q, 0, e);
    FermatInverse(e, v, q);
    Quotient(r * d + k * e, q);
    Quotient(s * v, q);
    Quotient(r * v, q);
    Quotient(e * v, q);
    var a, b, c, f := (r * d + k * e) / q, (s * v) / q, (r * v) / q, (e * v) / q;
    var lost := Lost(Q.limbs, Rv(r, e));
    Expand(d, k, e, r, v, q, a, b, c, f, lost);
    SameResidue(Z1(s, e) + Z2(r, e) * d, k + lost * d, k * f - a * v - b + d + c * d, q);
  }

  /** Verification recovers k exactly when the subtraction q - rv loses no borrow. */
  lemma ScalarIdentity(d: nat, k: nat, e: nat, r: nat, s: nat)
    requires IsPrime(Order()) && Scalar(d) && Scalar(k) && Scalar(e) && s == (r * d + k * e) % Order()
    ensures (Z1(s, e) + Z2(r, e) * d) % Order() == k <==> BorrowSafe(Q.limbs, Rv(r, e))
  {
    var q, lost := Order(), Lost(Q.limbs, Rv(r, e));
    ScalarSum(d, k, e, r, s);
    RvValue(r, e);
    Quotient(r * Inverse(e), q);
    LostSize(Q.limbs, Rv(r, e));
    Lengths.DivUnique(k, q, 0, k);
    DifferenceDivides(k + lost * d, k, q);
    if lost == 0 {
      assert lost * d == 0;
    } else {
      Lengths.DivUnique(lost, q, 0, lost);
      Lengths.DivUnique(d, q, 0, d);
      if Divides(q, lost * d) { PrimeDividesFactor(q, lost, d); }
    }
  }

  // ── Acceptance ─────────────────────────────────────────────────────────────

  /** Section 6.2 of RFC 7091, with the scalars the code uses. */
  ghost predicate Accepts(g: Ops<Point>, pk: Point, e: nat, r: nat, s: nat) {
    && Scalar(r) && Scalar(s) && pk.Aff? && OnCurve(pk)
    && var sum := g.add(Times(g, Z1(s, e), GENERATOR), Times(g, Z2(r, e), pk));
       sum.Aff? && Val(sum.x) % Order() == r
  }

  /** The point verification arrives at. */
  lemma VerifiedPoint(g: Ops<Point>, d: nat, k: nat, e: nat, r: nat, s: nat)
    requires Setting(g) && Scalar(e) && s == (r * d + k * e) % Order()
    ensures var n := (k + Lost(Q.limbs, Rv(r, e)) * d) % Order();
            g.add(Times(g, Z1(s, e), GENERATOR), Times(g, Z2(r, e), Times(g, d, GENERATOR))) == Times(g, n, GENERATOR)
  {
    ScalarSum(d, k, e, r, s);
    TimesTimes(g, OnCurve, Z2(r, e), d, GENERATOR);
    TimesAdd(g, OnCurve, Z1(s, e), Z2(r, e) * d, GENERATOR);
    TimesResidue(g, OnCurve, Z1(s, e) + Z2(r, e) * d, Order(), GENERATOR);
  }

  /** A multiple of the generator by a scalar has the generator among its own multiples. */
  lemma BackToGenerator(g: Ops<Point>, d: nat)
    requires Setting(g) && Scalar(d)
    ensures Times(g, Inverse(d), Times(g, d, GENERATOR)) == GENERATOR
  {
    hide OnCurve;
    var q, v := Order(), Inverse(d);
    Lengths.DivUnique(d, q, 0, d);
    FermatInverse(d, v, q);
    assert v * d == d * v;
    TimesTimes(g, OnCurve, v, d, GENERATOR);
    TimesResidue(g, OnCurve, v * d, q, GENERATOR);
    assert Unit(g, OnCurve, GENERATOR);
    assert Times(g, 1, GENERATOR) == g.add(GENERATOR, Times(g, 0, GENERATOR));
  }

  /** So it is never infinite: public keys and nonces are affine points. */
  lemma MultipleIsAffine(g: Ops<Point>, d: nat)
    requires Setting(g) && Scalar(d)
    ensures Times(g, d, GENERATOR).Aff? && OnCurve(Times(g, d, GENERATOR))
  {
    hide OnCurve, Times, Inverse;
    TimesOn(g, OnCurve, d, GENERATOR);
    TimesZero(g, OnCurve, Inverse(d));
    BackToGenerator(g, d);
  }

  /** What verification compares with r: the abscissa of a multiple of the generator modulo q. */
  ghost predicate HasAbscissa(g: Ops<Point>, n: nat, r: nat) {
    var p := Times(g, n, GENERATOR);
    p.Aff? && Val(p.x) % Order() == r
  }

  /**
   Sign then verify: a produced signature is accepted under the signer's public key exactly when k, plus d times what
   the subtraction q - rv loses, still has the abscissa r - in particular whenever nothing is lost.
   */
  lemma SignThenVerify(g: Ops<Point>, d: nat, k: nat, e: nat)
    requires Setting(g) && Scalar(e) && Signature(g, d, e, k).Some?
    ensures var (r, s) := Signature(g, d, e, k).value;
            && (Accepts(g, Times(g, d, GENERATOR), e, r, s) <==>
                  HasAbscissa(g, (k + Lost(Q.limbs, Rv(r, e)) * d) % Order(), r))
            && (BorrowSafe(Q.limbs, Rv(r, e)) ==> Accepts(g, Times(g, d, GENERATOR), e, r, s))
  {
    hide BorrowSafe, Lost, Rv, Z1, Z2;
    var (r, s) := Signature(g, d, e, k).value;
    Quotient(r * d + k * e, Order());
    MultipleIsAffine(g, d);
    VerifiedPoint(g, d, k, e, r, s);
    if BorrowSafe(Q.limbs, Rv(r, e)) {
      ScalarSum(d, k, e, r, s);
      ScalarIdentity(d, k, e, r, s);
      assert HasAbscissa(g, k, r);
    }
  }

  /** A scalar whose second limb is all ones and receives a borrow. */
  const BAD: seq<u64> := [0x4584_1B09_B761_B894, MAX64, 0, 0]

  lemma BadIsBad()
    ensures Scalar(Val(BAD)) && !BorrowSafe(Q.limbs, BAD)
  {
    ValFour(0x4584_1B09_B761_B894, MAX64, 0, 0);
    ValSnoc(BAD, 0);
    ValSnoc(Q.limbs, 0);
    assert BAD[..0] == [] && Q.limbs[..0] == [] && PowB(0) == 1;
    assert Val(Q.limbs[..1]) < Val(BAD[..1]);
  }

  /** Division modulo q: r over w, and r over that again. */
  lemma Divided(r: nat, w: nat)
    requires IsPrime(Order()) && Scalar(r) && Scalar(w)
    ensures var e := (r * Inverse(w)) % Order(); Scalar(e) && (r * Inverse(e)) % Order() == w
  {
    hide Inverse;
    var q := Order();
    var v := Inverse(w);
    var e := (r * v) % q;
    Quotient(r * v, q);
    Lengths.DivUnique(w, q, 0, w);
    Lengths.DivUnique(r, q, 0, r);
    InverseOf(w);
    TakeOut(r, v, w, q);
    if e == 0 { Lengths.DivUnique(0, q, 0, 0); }
    var u := Inverse(e);
    InverseOf(e);
    ResidueOfProduct(e * w, u, q);
    assert (e * w) * u == (e * u) * w;
    ResidueOfProduct(e * u, w, q);
  }

  /** An inverse is one. */
  lemma InverseOf(e: nat)
    requires IsPrime(Order()) && Scalar(e)
    ensures (e * Inverse(e)) % Order() == 1
  {
    Lengths.DivUnique(e, Order(), 0, e);
    FermatInverse(e, Inverse(e), Order());
  }

  lemma TakeOut(r: nat, v: nat, w: nat, q: nat)
    requires q > 0 && (w * v) % q == 1
    ensures (((r * v) % q) * w) % q == r % q
  {
    ResidueOfProduct(r * v, w, q);
    assert (r * v) * w == (w * v) * r;
    ResidueOfProduct(w * v, r, q);
  }

  /**
   Whatever the nonce gives as r, and for every number w that loses a borrow, there is a digest for which verification
   subtracts just w from q: with any keys and nonces the recovered scalar is then wrong.
   */
  lemma EveryNonceLoses(r: nat, w: seq<u64>, d: nat, k: nat)
    requires IsPrime(Order()) && Scalar(r) && Scalar(d) && Scalar(k)
    requires |w| == 4 && Scalar(Val(w)) && !BorrowSafe(Q.limbs, w)
    ensures var e := (r * Inverse(Val(w))) % Order();
            && Digest(LimbsOf(e, 4)) == e && Rv(r, e) == w
            && (Z1((r * d + k * e) % Order(), e) + Z2(r, e) * d) % Order() != k
  {
    hide BorrowSafe, Inverse, Z1, Z2;
    var e := (r * Inverse(Val(w))) % Order();
    Divided(r, Val(w));
    RvValue(r, e);
    ValInjective(Rv(r, e), w);
    LimbsValue(e, 4);
    PowBValues();
    Lengths.DivUnique(e, W, 0, e);
    Lengths.DivUnique(e, Order(), 0, e);
    ScalarIdentity(d, k, e, r, (r * d + k * e) % Order());
  }

  /** Such a number exists. */
  lemma LostBorrowExample(r: nat, d: nat, k: nat) returns (e: nat)
    requires IsPrime(Order()) && Scalar(r) && Scalar(d) && Scalar(k)
    ensures Scalar(e) && Digest(LimbsOf(e, 4)) == e
    ensures (Z1((r * d + k * e) % Order(), e) + Z2(r, e) * d) % Order() != k
  {
    hide BorrowSafe, Inverse, Z1, Z2, Digest;
    BadIsBad();
    EveryNonceLoses(r, BAD, d, k);
    e := (r * Inverse(Val(BAD))) % Order();
    Divided(r, Val(BAD));
  }

  // ── The operations ─────────────────────────────────────────────────────────

  method InScalarRange(w: seq<u64>) returns (ok: bool)
    requires |w| == 4
    ensures ok <==> Scalar(Val(w))
  {
    var zero := IsZero(w);
    var c := Cmp(w, Q.limbs);
    ok := !zero && c < 0;
  }

  /** hash_to_fe, given the digest. */
  method HashToScalar(h: seq<byte>) returns (e: array<u64>)
    requires |h| == 32
    ensures fresh(e) && e.Length == 4 && Val(e[..]) == Digest(FromLe(h))
  {
    BothGood();
    e := Copied(FromLe(h));
    ghost var passes := Reduce(e, Q);
    var zero := IsZero(e[..]);
    if zero {
      ZeroVal(e[..]);
      e[0] := 1;
      assert e[..] == [1, 0, 0, 0];
      ValFour(1, 0, 0, 0);
    }
  }

  /** s = rd + ke modulo q. */
  method SignScalar(r: array<u64>, d: array<u64>, k: array<u64>, e: array<u64>) returns (s: array<u64>)
    requires r.Length == d.Length == k.Length == e.Length == 4
    ensures fresh(s) && s.Length == 4
    ensures Val(s[..]) == (Val(r[..]) * Val(d[..]) + Val(k[..]) * Val(e[..])) % Order()
  {
    BothGood();
    var rd, ke := new u64[4], new u64[4];
    s := new u64[4];
    ModMul(rd, r, d, Q);
    ModMul(ke, k, e, Q);
    ghost var x, y := Val(r[..]) * Val(d[..]), Val(k[..]) * Val(e[..]);
    Quotient(x, Order());
    Quotient(y, Order());
    AddResidues(x, y, Order());
    ScAdd(s, rd, ke);
  }

  /** r = the first coordinate of kG modulo q, unless that is zero or kG is infinite. */
  method NonceScalar(g: Ops<Point>, k: seq<u64>) returns (r: Option<array<u64>>)
    requires |k| == 4 && Setting(g)
    ensures r.Some? ==> fresh(r.value) && r.value.Length == 4
    ensures match Times(g, Val(k), GENERATOR)
            case Inf => r.None?
            case Aff(x, _) => if Val(x) % Order() == 0 then r.None? else r.Some? && Val(r.value[..]) == Val(x) % Order()
  {
    BothGood();
    var c := PointMul(g, OnCurve, k, GENERATOR);
    TimesOn(g, OnCurve, Val(k), GENERATOR);
    if c.Inf? { return None; }
    var x := Copied(c.x);
    ghost var passes := Reduce(x, Q);
    var zero := IsZero(x[..]);
    r := if zero then None else Some(x);
  }

  /** Signing once the scalars are in range. */
  method SignChecked(g: Ops<Point>, d: seq<u64>, e: array<u64>, k: seq<u64>) returns (sig: Option<(seq<u64>, seq<u64>)>)
    requires |d| == e.Length == |k| == 4 && Setting(g) && Scalar(Val(d)) && Scalar(Val(k))
    ensures sig.Some? ==> |sig.value.0| == |sig.value.1| == 4
    ensures Signature(g, Val(d), Val(e[..]), Val(k)) ==
              if sig.None? then None else Some((Val(sig.value.0), Val(sig.value.1)))
  {
    var r := NonceScalar(g, k);
    if r.None? { return None; }
    var da := Copied(d);
    var ka := Copied(k);
    var s := SignScalar(r.value, da, ka, e);
    var zero := IsZero(s[..]);
    sig := if zero then None else Some((r.value[..], s[..]));
  }

  /** osp_gost3410_sign_with_k, given the digest or the failure to compute it. */
  method SignWithK(g: Ops<Point>, d: seq<byte>, h: Option<seq<byte>>, k: seq<byte>)
    returns (sig: Option<(seq<byte>, seq<byte>)>)
    requires |d| == |k| == 32 && (h.Some? ==> |h.value| == 32) && Setting(g)
    ensures h.None? ==> sig.None?
    ensures sig.Some? ==> |sig.value.0| == |sig.value.1| == 32
    ensures h.Some? ==> Signature(g, Val(FromLe(d)), Digest(FromLe(h.value)), Val(FromLe(k))) ==
                          if sig.None? then None else Some((Val(FromLe(sig.value.0)), Val(FromLe(sig.value.1))))
  {
    var dOk := InScalarRange(FromLe(d));
    var kOk := InScalarRange(FromLe(k));
    if !dOk || !kOk || h.None? { return None; }
    var e := HashToScalar(h.value);
    var limbs := SignChecked(g, FromLe(d), e, FromLe(k));
    if limbs.None? { return None; }
    LeRoundTrip(limbs.value.0);
    LeRoundTrip(limbs.value.1);
    return Some((ToLe(limbs.value.0), ToLe(limbs.value.1)));
  }

  /** on_curve with the range checks of verification. */
  method CheckKey(x: seq<u64>, y: seq<u64>) returns (ok: bool)
    requires |x| == |y| == 4
    ensures ok <==> OnCurve(Aff(x, y))
  {
    var cx := Cmp(x, P.limbs);
    var cy := Cmp(y, P.limbs);
    if cx >= 0 || cy >= 0 { return false; }
    ok := Equation(x, y);
  }

  method Equation(x: seq<u64>, y: seq<u64>) returns (ok: bool)
    requires |x| == |y| == 4
    ensures ok <==> OnEquation(Val(x), Val(y))
  {
    hide Cube, LinearTerm, Val;
    BothGood();
    var ya := Copied(y);
    var lhs := new u64[4];
    ModMul(lhs, ya, ya, P);
    var rhs := RightSide(x);
    var c := Cmp(lhs[..], rhs[..]);
    ok := c == 0;
  }

  method RightSide(x: seq<u64>) returns (rhs: array<u64>)
    requires |x| == 4
    ensures fresh(rhs) && rhs.Length == 4
    ensures Val(rhs[..]) == (Cube(Val(x)) + LinearTerm(Val(x)) + Val(BETA)) % Prime()
  {
    hide Cube, LinearTerm, Val;
    var xa := Copied(x);
    rhs := Cubed(xa);
    var t := Linear(xa);
    AddTerms(rhs, t, Cube(Val(x)), LinearTerm(Val(x)));
  }

  method Linear(x: array<u64>) returns (r: array<u64>)
    requires x.Length == 4
    ensures fresh(r) && r.Length == 4 && Val(r[..]) == LinearTerm(Val(x[..])) % Prime()
  {
    hide Val;
    BothGood();
    r := new u64[4];
    var a := Copied(A);
    ModMul(r, a, x, P);
  }

  method AddTerms(rhs: array<u64>, t: array<u64>, ghost cube: nat, ghost linear: nat)
    requires rhs.Length == t.Length == 4 && rhs != t
    requires Val(rhs[..]) == cube % Prime() && Val(t[..]) == linear % Prime()
    modifies rhs
    ensures Val(rhs[..]) == (cube + linear + Val(BETA)) % Prime()
  {
    SumOfThree(cube, linear);
    BothGood();
    var b := Copied(BETA);
    FeAdd(rhs, rhs, t);
    FeAdd(rhs, rhs, b);
  }

  method Cubed(x: array<u64>) returns (r: array<u64>)
    requires x.Length == 4
    ensures fresh(r) && r.Length == 4 && Val(r[..]) == Cube(Val(x[..])) % Prime()
  {
    hide Val;
    BothGood();
    r := new u64[4];
    ModMul(r, x, x, P);
    ModMul(r, r, x, P);
    ResidueOfProduct(Val(x[..]) * Val(x[..]), Val(x[..]), Prime());
  }

  lemma SumOfThree(u: nat, t: nat)
    ensures var p := Prime();
            0 <= u % p < p && 0 <= t % p < p && 0 <= (u % p + t % p) % p < p &&
            (((u % p + t % p) % p) + Val(BETA)) % p == (u + t + Val(BETA)) % p
    ensures Val(BETA) == 0xA6
  {
    ValFour(0xA6, 0, 0, 0);
    AddResidues(u, t, Prime());
    ResidueOfSum(u + t, Val(BETA), Prime());
  }

  /** The scalars of verification. */
  method VerifyScalars(r: array<u64>, s: array<u64>, e: array<u64>) returns (z1: array<u64>, z2: array<u64>)
    requires r.Length == s.Length == e.Length == 4
    ensures fresh(z1) && fresh(z2) && z1.Length == z2.Length == 4
    ensures Val(z1[..]) == Z1(Val(s[..]), Val(e[..])) && Val(z2[..]) == Z2(Val(r[..]), Val(e[..]))
  {
    BothGood();
    var v := ModInv(e, Q);
    z1, z2 := new u64[4], new u64[4];
    ModMul(z1, s, v, Q);
    var rv := new u64[4];
    ModMul(rv, r, v, Q);
    RvValue(Val(r[..]), Val(e[..]));
    ValInjective(rv[..], Rv(Val(r[..]), Val(e[..])));
    var q := Copied(Q.limbs);
    ModSub(z2, q, rv, Q);
  }

  /** osp_gost3410_verify, given the digest or the failure to compute it. */
  method Verify(g: Ops<Point>, pk: (seq<byte>, seq<byte>), h: Option<seq<byte>>, sig: (seq<byte>, seq<byte>))
    returns (ok: bool)
    requires |pk.0| == |pk.1| == |sig.0| == |sig.1| == 32 && (h.Some? ==> |h.value| == 32) && Setting(g)
    ensures ok <==> h.Some? && Accepts(g, Aff(FromLe(pk.0), FromLe(pk.1)), Digest(FromLe(h.value)),
                                       Val(FromLe(sig.0)), Val(FromLe(sig.1)))
  {
    var rOk := InScalarRange(FromLe(sig.0));
    var sOk := InScalarRange(FromLe(sig.1));
    if !rOk || !sOk { return false; }
    var keyOk := CheckKey(FromLe(pk.0), FromLe(pk.1));
    if !keyOk || h.None? { return false; }
    var e := HashToScalar(h.value);
    ok := Combine(g, Aff(FromLe(pk.0), FromLe(pk.1)), FromLe(sig.0), FromLe(sig.1), e);
  }

  /** The last half of verification: one combined point, compared by its first coordinate. */
  method Combine(g: Ops<Point>, pk: Point, r: seq<u64>, s: seq<u64>, e: array<u64>) returns (ok: bool)
    requires |r| == |s| == e.Length == 4 && Setting(g) && OnCurve(pk) && pk.Aff? && Scalar(Val(r)) && Scalar(Val(s))
    ensures ok <==> Accepts(g, pk, Val(e[..]), Val(r), Val(s))
  {
    var ra := Copied(r);
    var sa := Copied(s);
    var z1, z2 := VerifyScalars(ra, sa, e);
    var p1 := PointMul(g, OnCurve, z1[..], GENERATOR);
    var p2 := PointMul(g, OnCurve, z2[..], pk);
    TimesOn(g, OnCurve, Val(z1[..]), GENERATOR);
    TimesOn(g, OnCurve, Val(z2[..]), pk);
    assert Commutes(g, OnCurve, p1, p2);
    var sum := g.add(p1, p2);
    if sum.Inf? { return false; }
    BothGood();
    var x := Copied(sum.x);
    ghost var passes := Reduce(x, Q);
    var c := Cmp(x[..], r);
    ok := c == 0;
  }

  // ── Key agreement ──────────────────────────────────────────────────────────

  /** osp_gost3410_vko, up to the final hash: the shared point for a private key, a peer's key and a nonce. */
  ghost function Shared(g: Ops<Point>, d: nat, pk: Point, ukm: nat): Option<Point> {
    var n := (ukm * d) % Order();
    if !Scalar(d) || !pk.Aff? || !OnCurve(pk) || n == 0 then None
    else if Times(g, n, pk).Inf? then None else Some(Times(g, n, pk))
  }

  /** Both sides of the agreement reach the same point, and they reach one unless q divides the nonce. */
  lemma Agreement(g: Ops<Point>, d1: nat, d2: nat, ukm: nat)
    requires Setting(g) && Scalar(d1) && Scalar(d2)
    ensures Shared(g, d1, Times(g, d2, GENERATOR), ukm) == Shared(g, d2, Times(g, d1, GENERATOR), ukm)
    ensures Shared(g, d1, Times(g, d2, GENERATOR), ukm).Some? <==> ukm % Order() != 0
  {
    hide Shared, Times;
    SharedIs(g, d1, d2, ukm);
    SharedIs(g, d2, d1, ukm);
    Swap(ukm, d1, d2);
  }

  lemma SharedIs(g: Ops<Point>, d1: nat, d2: nat, ukm: nat)
    requires Setting(g) && Scalar(d1) && Scalar(d2)
    ensures Shared(g, d1, Times(g, d2, GENERATOR), ukm)
            == if ukm % Order() == 0 then None else Some(Times(g, (ukm * d1 * d2) % Order(), GENERATOR))
  {
    hide OnCurve, Times, Law, IsPrime;
    MultipleIsAffine(g, d2);
    SharedPoint(g, d1, d2, ukm);
    NonceVanishes(d1, ukm);
    if ukm % Order() != 0 { SharedAffine(g, d1, d2, ukm); }
  }

  lemma NonceVanishes(d: nat, ukm: nat)
    requires IsPrime(Order()) && Scalar(d)
    ensures (ukm * d) % Order() == 0 <==> ukm % Order() == 0
  {
    var q := Order();
    Lengths.DivUnique(d, q, 0, d);
    if (ukm * d) % q == 0 { PrimeDividesFactor(q, ukm, d); }
    if ukm % q == 0 {
      DividesProduct(q, d, ukm);
      assert d * ukm == ukm * d;
    }
  }

  lemma SharedAffine(g: Ops<Point>, d1: nat, d2: nat, ukm: nat)
    requires Setting(g) && Scalar(d1) && Scalar(d2) && ukm % Order() != 0
    ensures Times(g, (ukm * d1 * d2) % Order(), GENERATOR).Aff?
  {
    hide OnCurve, Times, Law, IsPrime;
    var q := Order();
    NonceVanishes(d1, ukm);
    NonceVanishes(d2, ukm * d1);
    Quotient(ukm * d1 * d2, q);
    MultipleIsAffine(g, (ukm * d1 * d2) % q);
  }

  // ── Keys and agreement as operations ───────────────────────────────────────

  /** osp_gost3410_public_key: every private key in range has one, and no other has. */
  method PublicKey(g: Ops<Point>, d: seq<byte>) returns (pk: Option<(seq<byte>, seq<byte>)>)
    requires |d| == 32 && Setting(g)
    ensures pk.Some? <==> Scalar(Val(FromLe(d)))
    ensures pk.Some? ==> |pk.value.0| == |pk.value.1| == 32 &&
                         Aff(FromLe(pk.value.0), FromLe(pk.value.1)) == Times(g, Val(FromLe(d)), GENERATOR)
  {
    var ok := InScalarRange(FromLe(d));
    if !ok { return None; }
    var p := PointMul(g, OnCurve, FromLe(d), GENERATOR);
    MultipleIsAffine(g, Val(FromLe(d)));
    LeRoundTrip(p.x);
    LeRoundTrip(p.y);
    return Some((ToLe(p.x), ToLe(p.y)));
  }

  /** scalar_from_le: the first 32 octets, padded with zeros. */
  function Nonce(ukm: seq<byte>): (w: seq<u64>)
    ensures |w| == 4
  {
    FromLe(if |ukm| >= 32 then ukm[..32] else ukm + seq(32 - |ukm|, _ => 0))
  }

  /** osp_gost3410_vko up to the final hash: the octets of the shared point, or nothing. */
  method SharedOctets(g: Ops<Point>, d: seq<byte>, pk: (seq<byte>, seq<byte>), ukm: seq<byte>)
    returns (r: Option<(seq<byte>, seq<byte>)>)
    requires |d| == |pk.0| == |pk.1| == 32 && Setting(g)
    ensures r.Some? ==> |r.value.0| == |r.value.1| == 32
    ensures Shared(g, Val(FromLe(d)), Aff(FromLe(pk.0), FromLe(pk.1)), Val(Nonce(ukm)))
            == if r.None? then None else Some(Aff(FromLe(r.value.0), FromLe(r.value.1)))
  {
    hide Nonce, FromLe, OnEquation, Val;
    var dOk := InScalarRange(FromLe(d));
    if !dOk { return None; }
    var key := Aff(FromLe(pk.0), FromLe(pk.1));
    var keyOk := CheckKey(FromLe(pk.0), FromLe(pk.1));
    if !keyOk { return None; }
    var n := SharedScalar(FromLe(d), Nonce(ukm));
    var zero := IsZero(n);
    if zero { return None; }
    var p := PointMul(g, OnCurve, n, key);
    TimesOn(g, OnCurve, Val(n), key);
    if p.Inf? { return None; }
    LeRoundTrip(p.x);
    LeRoundTrip(p.y);
    return Some((ToLe(p.x), ToLe(p.y)));
  }

  method SharedScalar(d: seq<u64>, ukm: seq<u64>) returns (n: seq<u64>)
    requires |d| == |ukm| == 4
    ensures |n| == 4 && Val(n) == (Val(ukm) * Val(d)) % Order()
  {
    BothGood();
    var a := Copied(ukm);
    var b := Copied(d);
    var r := new u64[4];
    ModMul(r, a, b, Q);
    n := r[..];
  }

  lemma Swap(u: int, a: int, b: int)
    ensures u * a * b == u * b * a
  {}

  lemma SharedPoint(g: Ops<Point>, d1: nat, d2: nat, ukm: nat)
    requires Setting(g)
    ensures Times(g, (ukm * d1) % Order(), Times(g, d2, GENERATOR)) == Times(g, (ukm * d1 * d2) % Order(), GENERATOR)
  {
    var q, n := Order(), (ukm * d1) % Order();
    TimesTimes(g, OnCurve, n, d2, GENERATOR);
    TimesResidue(g, OnCurve, n * d2, q, GENERATOR);
    ResidueOfProduct(ukm * d1, d2, q);
  }
}
