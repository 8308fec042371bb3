/**
 Point addition and doubling of src/security/gost3410.c:317-372: the chord and tangent formulas on limbs, whose
 subtractions may lose a borrow. The formulas keep the curve; the code gives them exactly while no borrow is lost.
 */
module Curve {
  import opened Octets
  import opened Limbs
  import opened Field
  import opened FieldMul
  import opened Modular
  import opened Group
  import opened Gost
  import Lengths

  // ── A line through a cubic ─────────────────────────────────────────────────

  ghost function Cubic(a: int, b: int, x: int): int { x * x * x + a * x + b }

  ghost function Line(l: int, x1: int, y1: int, x: int): int { l * (x - x1) + y1 }

  /** How far the line misses the curve at x. */
  ghost function Gap(a: int, b: int, l: int, x1: int, y1: int, x: int): int {
    Cubic(a, b, x) - Line(l, x1, y1, x) * Line(l, x1, y1, x)
  }

  /** The divided difference of the gap between two abscissas; their tangent if they coincide. */
  ghost function Secant(a: int, l: int, x1: int, y1: int, x2: int): int {
    x1 * x1 + x1 * x2 + x2 * x2 + a - l * (y1 + Line(l, x1, y1, x2))
  }

  lemma SecantIs(a: int, b: int, l: int, x1: int, y1: int, x2: int)
    ensures Gap(a, b, l, x1, y1, x2) - Gap(a, b, l, x1, y1, x1) == Secant(a, l, x1, y1, x2) * (x2 - x1)
  {
    var u := x2 - x1;
    var t := x1 * x1 + x1 * x2 + x2 * x2;
    assert x2 * x2 * x2 - x1 * x1 * x1 == t * u;
    var m := l * u + y1;
    assert m * m - y1 * y1 == (l * (y1 + m)) * u by {
      assert m * m - y1 * y1 == (m - y1) * (m + y1);
      assert (l * u) * (m + y1) == (l * (y1 + m)) * u;
    }
    assert (t + a - l * (y1 + m)) * u == t * u + a * u - (l * (y1 + m)) * u;
    assert a * u == a * x2 - a * x1;
  }

  lemma PowersMove(x1: int, x2: int, x3: int)
    ensures x1 * x3 + x3 * x3 - x1 * x2 - x2 * x2 == (x1 + x2 + x3) * (x3 - x2)
  {
    assert x1 * x3 - x1 * x2 == x1 * (x3 - x2);
    assert x3 * x3 - x2 * x2 == (x2 + x3) * (x3 - x2);
  }

  lemma LineMoves(l: int, x1: int, y1: int, x2: int, x3: int)
    ensures l * (y1 + Line(l, x1, y1, x3)) - l * (y1 + Line(l, x1, y1, x2)) == (l * l) * (x3 - x2)
  {
    var m2, m3 := Line(l, x1, y1, x2), Line(l, x1, y1, x3);
    assert m3 - m2 == l * (x3 - x2);
    assert l * (y1 + m3) - l * (y1 + m2) == l * (m3 - m2) == l * (l * (x3 - x2));
  }

  lemma SecantMoves(a: int, l: int, x1: int, y1: int, x2: int, x3: int)
    ensures Secant(a, l, x1, y1, x3) - Secant(a, l, x1, y1, x2) == (x1 + x2 + x3 - l * l) * (x3 - x2)
  {
    hide Line;
    PowersMove(x1, x2, x3);
    LineMoves(l, x1, y1, x2, x3);
    Distribute(x1 + x2 + x3, l * l, x3 - x2);
  }

  lemma Distribute(s: int, t: int, w: int)
    ensures (s - t) * w == s * w - t * w
  {}

  /** Newton's form of the gap: it vanishes at a third abscissa with x1 + x2 + x3 = l^2. */
  lemma Newton(a: int, b: int, l: int, x1: int, y1: int, x2: int, x3: int)
    ensures Gap(a, b, l, x1, y1, x3) == Gap(a, b, l, x1, y1, x1) + Secant(a, l, x1, y1, x2) * (x3 - x1)
                                        + ((x3 - x2) * (x3 - x1)) * (x1 + x2 + x3 - l * l)
  {
    hide Gap, Secant;
    SecantIs(a, b, l, x1, y1, x3);
    SecantMoves(a, l, x1, y1, x2, x3);
    NewtonStep(Secant(a, l, x1, y1, x3), Secant(a, l, x1, y1, x2), x1 + x2 + x3 - l * l, x3 - x2, x3 - x1);
  }

  lemma NewtonStep(s3: int, s2: int, t: int, w: int, u: int)
    requires s3 - s2 == t * w
    ensures s3 * u == s2 * u + (w * u) * t
  {
    assert s3 * u == (s2 + t * w) * u == s2 * u + (t * w) * u;
  }

  // ── Modulo a prime ─────────────────────────────────────────────────────────

  lemma DividesSum(p: int, x: int, y: int)
    requires p > 0 && Divides(p, x) && Divides(p, y)
    ensures Divides(p, x + y)
  {
    AddResidues(x, y, p);
    Lengths.DivUnique(0, p, 0, 0);
  }

  lemma SquaresAlike(p: int, x: int, y: int)
    requires p > 0 && (Divides(p, x - y) || Divides(p, x + y))
    ensures Divides(p, x * x - y * y)
  {
    assert x * x - y * y == (x + y) * (x - y) == (x - y) * (x + y);
    if Divides(p, x - y) { DividesProduct(p, x + y, x - y); } else { DividesProduct(p, x - y, x + y); }
  }

  /** The third point of a line that meets the curve in x1 and again in x2, mirrored, is on the curve. */
  lemma ThirdPoint(p: int, a: int, b: int, l: int, x1: int, y1: int, x2: int, x3: int, y3: int)
    requires p > 0 && Divides(p, Gap(a, b, l, x1, y1, x1)) && Divides(p, Secant(a, l, x1, y1, x2))
    requires Divides(p, x1 + x2 + x3 - l * l) && Divides(p, y3 + Line(l, x1, y1, x3))
    ensures Divides(p, y3 * y3 - Cubic(a, b, x3))
  {
    hide Secant, Line, Cubic;
    Newton(a, b, l, x1, y1, x2, x3);
    var m := Line(l, x1, y1, x3);
    assert Secant(a, l, x1, y1, x2) * (x3 - x1) == (x3 - x1) * Secant(a, l, x1, y1, x2);
    DividesProduct(p, x3 - x1, Secant(a, l, x1, y1, x2));
    DividesProduct(p, (x3 - x2) * (x3 - x1), x1 + x2 + x3 - l * l);
    ThirdGap(p, a, b, l, x1, y1, x2, x3);
    SquaresAlike(p, y3, m);
    DividesDifference(p, y3 * y3 - m * m, Gap(a, b, l, x1, y1, x3));
  }

  lemma ThirdGap(p: int, a: int, b: int, l: int, x1: int, y1: int, x2: int, x3: int)
    requires p > 0 && Divides(p, Gap(a, b, l, x1, y1, x1)) && Divides(p, Secant(a, l, x1, y1, x2) * (x3 - x1))
    requires Divides(p, ((x3 - x2) * (x3 - x1)) * (x1 + x2 + x3 - l * l))
    ensures Divides(p, Gap(a, b, l, x1, y1, x3))
  {
    hide Gap, Secant;
    Newton(a, b, l, x1, y1, x2, x3);
    var g, s, t := Gap(a, b, l, x1, y1, x1), Secant(a, l, x1, y1, x2) * (x3 - x1),
        ((x3 - x2) * (x3 - x1)) * (x1 + x2 + x3 - l * l);
    DividesSum(p, g, s);
    DividesSum(p, g + s, t);
  }

  /** Through two points with different abscissas: the secant vanishes. */
  lemma ChordMeets(p: int, a: int, b: int, l: int, x1: int, y1: int, x2: int, y2: int)
    requires IsPrime(p) && !Divides(p, x2 - x1) && Divides(p, y2 - Line(l, x1, y1, x2))
    requires Divides(p, y1 * y1 - Cubic(a, b, x1)) && Divides(p, y2 * y2 - Cubic(a, b, x2))
    ensures Divides(p, Gap(a, b, l, x1, y1, x1)) && Divides(p, Secant(a, l, x1, y1, x2))
  {
    hide Secant, Cubic;
    var m := Line(l, x1, y1, x2);
    StartOfLine(p, a, b, l, x1, y1);
    SquaresAlike(p, y2, m);
    DividesDifference(p, y2 * y2 - m * m, y2 * y2 - Cubic(a, b, x2));
    DividesDifference(p, Gap(a, b, l, x1, y1, x2), Gap(a, b, l, x1, y1, x1));
    SecantIs(a, b, l, x1, y1, x2);
    PrimeDividesFactor(p, Secant(a, l, x1, y1, x2), x2 - x1);
  }

  lemma StartOfLine(p: int, a: int, b: int, l: int, x1: int, y1: int)
    requires p > 0 && Divides(p, y1 * y1 - Cubic(a, b, x1))
    ensures Divides(p, Gap(a, b, l, x1, y1, x1))
  {
    hide Cubic;
    assert Line(l, x1, y1, x1) == y1;
    DividesProduct(p, -1, y1 * y1 - Cubic(a, b, x1));
  }

  /** Along the tangent: the same for a double abscissa. */
  lemma TangentMeets(p: int, a: int, b: int, l: int, x1: int, y1: int)
    requires p > 0 && Divides(p, 3 * (x1 * x1) + a - l * (y1 + y1)) && Divides(p, y1 * y1 - Cubic(a, b, x1))
    ensures Divides(p, Gap(a, b, l, x1, y1, x1)) && Divides(p, Secant(a, l, x1, y1, x1))
  {
    hide Cubic;
    StartOfLine(p, a, b, l, x1, y1);
    assert Line(l, x1, y1, x1) == y1;
  }

  // ── The sum of two points ──────────────────────────────────────────────────

  /** What fe_inv computes. */
  ghost function InverseP(x: nat): nat { Pow(x, Prime() - 2) % Prime() }

  ghost function Over(n: int, d: int): nat { ((n % Prime()) * InverseP(d % Prime())) % Prime() }

  ghost function ThirdX(l: int, x1: int, x2: int): nat { (l * l - x1 - x2) % Prime() }

  ghost function ThirdY(l: int, x1: int, y1: int, x3: int): nat { (l * (x1 - x3) - y1) % Prime() }

  /** The mirrored third point of the line through (x1, y1) with slope l that meets the curve in x2 as well. */
  ghost function Third(l: int, x1: int, y1: int, x2: int): Point {
    var x3 := ThirdX(l, x1, x2);
    Aff(LimbsOf(x3, 4), LimbsOf(ThirdY(l, x1, y1, x3), 4))
  }

  ghost function Chord(x1: int, y1: int, x2: int, y2: int): nat { Over(y2 - y1, x2 - x1) }
  ghost function Tangent(x1: int, y1: int): nat { Over(3 * (x1 * x1) + Val(A), y1 + y1) }

  ghost function Double(a: Point): Point {
    if a.Inf? || Val(a.y) == 0 then Inf
    else Third(Tangent(Val(a.x), Val(a.y)), Val(a.x), Val(a.y), Val(a.x))
  }

  ghost function Sum(a: Point, b: Point): Point {
    if a.Inf? then b
    else if b.Inf? then a
    else if Val(a.x) != Val(b.x) then
      Third(Chord(Val(a.x), Val(a.y), Val(b.x), Val(b.y)), Val(a.x), Val(a.y), Val(b.x))
    else if Val(a.y) == Val(b.y) then Double(a)
    else Inf
  }

  lemma LimbsExact(n: nat)
    requires n < W
    ensures Val(LimbsOf(n, 4)) == n
  {
    LimbsValue(n, 4);
    PowBValues();
    Lengths.DivUnique(n, W, 0, n);
  }

  /** A quotient times its divisor. */
  lemma OverTimes(n: int, d: int)
    requires IsPrime(Prime()) && !Divides(Prime(), d)
    ensures Divides(Prime(), n - Over(n, d) * d)
  {
    hide Pow;
    var p, w, v := Prime(), d % Prime(), InverseP(d % Prime());
    Quotient(d, p);
    Quotient(n, p);
    Lengths.DivUnique(w, p, 0, w);
    FermatInverse(w, v, p);
    TakeOut(n % p, v, w, p);
    Lengths.DivUnique(n % p, p, 0, n % p);
    var l := Over(n, d);
    ResidueOfProduct(d, l, p);
    assert w * l == l * w && d * l == l * d;
    DifferenceDivides(n, l * d, p);
  }

  /** The curve equation, as a divisibility. */
  lemma EquationDivides(x: nat, y: nat)
    ensures OnEquation(x, y) <==> Divides(Prime(), y * y - Cubic(Val(A), Val(BETA), x))
  {
    hide Val;
    DifferenceDivides(y * y, Cubic(Val(A), Val(BETA), x), Prime());
  }

  lemma ThirdOn(l: nat, x1: nat, y1: nat, x2: nat)
    requires Divides(Prime(), Gap(Val(A), Val(BETA), l, x1, y1, x1)) && Divides(Prime(), Secant(Val(A), l, x1, y1, x2))
    ensures OnCurve(Third(l, x1, y1, x2))
  {
    hide Val, Gap, Secant, LimbsOf, OnEquation;
    var p, x3 := Prime(), ThirdX(l, x1, x2);
    var y3 := ThirdY(l, x1, y1, x3);
    Quotient(l * l - x1 - x2, p);
    Quotient(l * (x1 - x3) - y1, p);
    Lengths.DivUnique(x3, p, 0, x3);
    DifferenceDivides(x3, l * l - x1 - x2, p);
    assert x3 - (l * l - x1 - x2) == x1 + x2 + x3 - l * l;
    Lengths.DivUnique(y3, p, 0, y3);
    DifferenceDivides(y3, l * (x1 - x3) - y1, p);
    assert y3 - (l * (x1 - x3) - y1) == y3 + Line(l, x1, y1, x3) by { assert l * (x1 - x3) == -(l * (x3 - x1)); }
    ThirdPoint(p, Val(A), Val(BETA), l, x1, y1, x2, x3, y3);
    EquationDivides(x3, y3);
    LimbsExact(x3);
    LimbsExact(y3);
  }

  lemma SmallNotDivided(p: int, x: int)
    requires -p < x < p && x != 0
    ensures !Divides(p, x)
  {
    if x > 0 { Lengths.DivUnique(x, p, 0, x); } else { Lengths.DivUnique(x, p, -1, x + p); }
  }

  lemma DoubleOn(a: Point)
    requires IsPrime(Prime()) && OnCurve(a)
    ensures OnCurve(Double(a))
  {
    hide Val, Gap, Secant, Third, Over, OnEquation;
    if a.Aff? && Val(a.y) != 0 {
      var p, x, y := Prime(), Val(a.x), Val(a.y);
      SmallNotDivided(p, y);
      SmallNotDivided(p, 2);
      if Divides(p, y + y) { PrimeDividesFactor(p, 2, y) by { assert y + y == 2 * y; } }
      OverTimes(3 * (x * x) + Val(A), y + y);
      EquationDivides(x, y);
      TangentMeets(p, Val(A), Val(BETA), Tangent(x, y), x, y);
      ThirdOn(Tangent(x, y), x, y, x);
    }
  }

  /** The sum of two points of the curve is on the curve. */
  lemma SumOn(a: Point, b: Point)
    requires IsPrime(Prime()) && OnCurve(a) && OnCurve(b)
    ensures OnCurve(Sum(a, b))
  {
    hide Val, Gap, Secant, Third, Over, OnEquation, Double;
    if a.Aff? && b.Aff? && Val(a.x) != Val(b.x) {
      var p, x1, y1, x2, y2 := Prime(), Val(a.x), Val(a.y), Val(b.x), Val(b.y);
      var l := Chord(x1, y1, x2, y2);
      SmallNotDivided(p, x2 - x1);
      OverTimes(y2 - y1, x2 - x1);
      assert y2 - y1 - l * (x2 - x1) == y2 - Line(l, x1, y1, x2);
      EquationDivides(x1, y1);
      EquationDivides(x2, y2);
      ChordMeets(p, Val(A), Val(BETA), l, x1, y1, x2, y2);
      ThirdOn(l, x1, y1, x2);
    } else {
      DoubleOn(a);
    }
  }

  lemma SquareRoots(p: int, x: int, y: int)
    requires IsPrime(p) && 0 <= x < p && 0 <= y < p && (x * x) % p == (y * y) % p
    ensures x == y || x + y == p
  {
    DifferenceDivides(x * x, y * y, p);
    assert x * x - y * y == (x + y) * (x - y);
    PrimeDividesFactor(p, x + y, x - y);
    RootSizes(p, x, y);
  }

  lemma RootSizes(p: int, x: int, y: int)
    requires 0 <= x < p && 0 <= y < p && (Divides(p, x + y) || Divides(p, x - y))
    ensures x == y || x + y == p
  {
    if x != y {
      SmallNotDivided(p, x - y);
      if x + y > p { Lengths.DivUnique(x + y, p, 1, x + y - p); }
      if x + y < p { SmallNotDivided(p, x + y); }
    }
  }

  /** Points of the curve with one abscissa are equal or opposite. */
  lemma Opposite(a: Point, b: Point)
    requires IsPrime(Prime()) && OnCurve(a) && OnCurve(b) && a.Aff? && b.Aff? && Val(a.x) == Val(b.x)
    ensures Val(a.y) == Val(b.y) || Val(a.y) + Val(b.y) == Prime()
  {
    hide Val, Cube, LinearTerm, IsPrime;
    SquareRoots(Prime(), Val(a.y), Val(b.y));
  }

  // ── The group law, but for associativity ───────────────────────────────────

  /** A slope is determined by the two points. */
  lemma SlopeUnique(p: int, d: int, n: int, l: int, m: int)
    requires IsPrime(p) && !Divides(p, d) && 0 <= l < p && 0 <= m < p && Divides(p, n - l * d) && Divides(p, n - m * d)
    ensures l == m
  {
    DividesDifference(p, n - l * d, n - m * d);
    assert (n - l * d) - (n - m * d) == (m - l) * d;
    PrimeDividesFactor(p, m - l, d);
    if l != m { SmallNotDivided(p, m - l); }
  }

  lemma ChordCommutes(x1: nat, y1: nat, x2: nat, y2: nat)
    requires IsPrime(Prime()) && x1 < Prime() && x2 < Prime() && x1 != x2
    ensures Chord(x1, y1, x2, y2) == Chord(x2, y2, x1, y1)
    ensures Divides(Prime(), y2 - y1 - Chord(x1, y1, x2, y2) * (x2 - x1))
  {
    hide Over, Prime;
    var p, l, m := Prime(), Chord(x1, y1, x2, y2), Chord(x2, y2, x1, y1);
    SmallNotDivided(p, x2 - x1);
    SmallNotDivided(p, x1 - x2);
    OverTimes(y2 - y1, x2 - x1);
    OverTimes(y1 - y2, x1 - x2);
    DividesProduct(p, -1, y1 - y2 - m * (x1 - x2));
    assert -1 * (y1 - y2 - m * (x1 - x2)) == y2 - y1 - m * (x2 - x1);
    OverRange(y2 - y1, x2 - x1);
    OverRange(y1 - y2, x1 - x2);
    SlopeUnique(p, x2 - x1, y2 - y1, l, m);
  }

  lemma OverRange(n: int, d: int)
    ensures Over(n, d) < Prime()
  {
    hide Prime, Pow;
    Quotient((n % Prime()) * InverseP(d % Prime()), Prime());
  }

  /** From either point the line reaches the same third one. */
  lemma ThirdCommutes(l: nat, x1: nat, y1: nat, x2: nat, y2: nat)
    requires Divides(Prime(), y2 - y1 - l * (x2 - x1))
    ensures Third(l, x1, y1, x2) == Third(l, x2, y2, x1)
  {
    hide Prime, LimbsOf;
    var x3 := ThirdX(l, x1, x2);
    assert l * l - x1 - x2 == l * l - x2 - x1;
    SameOrdinate(Prime(), l, x1, y1, x2, y2, x3);
  }

  lemma SameOrdinate(p: int, l: int, x1: int, y1: int, x2: int, y2: int, x3: int)
    requires p > 0 && Divides(p, y2 - y1 - l * (x2 - x1))
    ensures (l * (x1 - x3) - y1) % p == (l * (x2 - x3) - y2) % p
  {
    assert (l * (x1 - x3) - y1) - (l * (x2 - x3) - y2) == y2 - y1 - l * (x2 - x1) by {
      assert l * (x1 - x3) - l * (x2 - x3) == -(l * (x2 - x1));
    }
    DifferenceDivides(l * (x1 - x3) - y1, l * (x2 - x3) - y2, p);
  }

  lemma SumCommutes(a: Point, b: Point)
    requires IsPrime(Prime()) && OnCurve(a) && OnCurve(b)
    ensures Sum(a, b) == Sum(b, a)
  {
    hide Val, Third, Over, OnEquation, Prime, Tangent;
    if a.Aff? && b.Aff? && Val(a.x) != Val(b.x) {
      ChordCommutes(Val(a.x), Val(a.y), Val(b.x), Val(b.y));
      ThirdCommutes(Chord(Val(a.x), Val(a.y), Val(b.x), Val(b.y)), Val(a.x), Val(a.y), Val(b.x), Val(b.y));
    }
  }

  /** Chord and tangent form an abelian group if and only if they associate. */
  lemma LawIff()
    requires IsPrime(Prime())
    ensures var g := Ops(Sum, Double, Inf);
            Law(g, OnCurve) <==> forall a, b, c :: Associates(g, OnCurve, a, b, c)
  {
    var g := Ops(Sum, Double, Inf);
    forall a: Point, b: Point ensures Commutes(g, OnCurve, a, b) { CommutesAt(a, b); }
    forall a: Point ensures Unit(g, OnCurve, a) { UnitAt(a); }
    hide Sum, Double, OnEquation, Prime, Associates, Commutes, Unit;
  }

  lemma CommutesAt(a: Point, b: Point)
    requires IsPrime(Prime())
    ensures Commutes(Ops(Sum, Double, Inf), OnCurve, a, b)
  {
    hide Sum, OnCurve, Prime;
    if OnCurve(a) && OnCurve(b) {
      SumOn(a, b);
      SumCommutes(a, b);
    }
  }

  lemma UnitAt(a: Point)
    ensures Unit(Ops(Sum, Double, Inf), OnCurve, a)
  {
    hide OnCurve, Third, Tangent, Chord;
  }

  // ── The operations ─────────────────────────────────────────────────────────

  /** No borrow is lost in x - y, or in p - y where p comes first. */
  ghost predicate SubSafe(x: nat, y: nat) { BorrowSafe(if x < y then P.limbs else LimbsOf(x, 4), LimbsOf(y, 4)) }

  lemma LimbsBack(w: seq<u64>)
    requires |w| == 4
    ensures LimbsOf(Val(w), 4) == w
  {
    ValBound(w);
    PowBValues();
    LimbsExact(Val(w));
    ValInjective(LimbsOf(Val(w), 4), w);
  }

  /** fe_sub on canonical operands is right if and only if it is safe. */
  method FeSub(r: array<u64>, a: array<u64>, b: array<u64>)
    requires r.Length == a.Length == b.Length == 4
    modifies r
    ensures Val(old(a[..])) < Prime() && Val(old(b[..])) < Prime() ==>
              (Val(r[..]) == (Val(old(a[..])) - Val(old(b[..]))) % Prime() <==>
                 SubSafe(Val(old(a[..])), Val(old(b[..]))))
  {
    hide Val, BorrowSafe, RawSub, Lost, LimbsOf;
    ghost var x, y := a[..], b[..];
    BothGood();
    LimbsBack(x);
    LimbsBack(y);
    ModSub(r, a, b, P);
    if Val(x) < Prime() && Val(y) < Prime() {
      if Val(x) < Val(y) {
        SubCorrectIff(x, y, P);
      } else {
        SubExactIff(x, y);
        Lengths.DivUnique(Val(x) - Val(y), Prime(), 0, Val(x) - Val(y));
      }
    }
  }

  ghost function Square(l: nat): (t: nat)
    ensures t < Prime()
  {
    Quotient(l * l, Prime());
    (l * l) % Prime()
  }

  ghost function Less(x: nat, y: nat): (d: nat)
    ensures d < Prime()
  {
    Quotient(x - y, Prime());
    (x - y) % Prime()
  }

  ghost function Slant(l: nat, x1: nat, x3: nat): (t: nat)
    ensures t < Prime()
  {
    Quotient(l * (x1 - x3), Prime());
    (l * (x1 - x3)) % Prime()
  }

  /** The four subtractions after the slope are safe. */
  ghost predicate TailSafe(l: nat, x1: nat, y1: nat, x2: nat) {
    XSafe(l, x1, x2) && YSafe(l, x1, y1, ThirdX(l, x1, x2))
  }

  ghost predicate XSafe(l: nat, x1: nat, x2: nat) { SubSafe(Square(l), x1) && SubSafe(Less(Square(l), x1), x2) }

  ghost predicate YSafe(l: nat, x1: nat, y1: nat, x3: nat) { SubSafe(x1, x3) && SubSafe(Slant(l, x1, x3), y1) }

  lemma LessLess(t: int, x1: int, x2: int, p: int)
    requires p > 0
    ensures ((t % p - x1) % p - x2) % p == (t - x1 - x2) % p
  {
    ResidueOfSum(t % p - x1, -x2, p);
    ResidueOfSum(t, -x1 - x2, p);
  }

  lemma TailX(l: nat, x1: nat, x2: nat)
    ensures Less(Less(Square(l), x1), x2) == ThirdX(l, x1, x2) < Prime()
  {
    hide Prime;
    LessLess(l * l, x1, x2, Prime());
  }

  lemma TimesLess(l: int, d: int, y: int, p: int)
    requires p > 0
    ensures (l * (d % p)) % p == (l * d) % p && ((l * d) % p - y) % p == (l * d - y) % p
  {
    ResidueOfProduct(d, l, p);
    assert (d % p) * l == l * (d % p) && d * l == l * d;
    ResidueOfSum(l * d, -y, p);
  }

  lemma TailY(l: nat, x1: nat, y1: nat, x3: nat)
    ensures (l * Less(x1, x3)) % Prime() == Slant(l, x1, x3)
    ensures Less(Slant(l, x1, x3), y1) == ThirdY(l, x1, y1, x3)
  {
    hide Prime;
    TimesLess(l, x1 - x3, y1, Prime());
  }

  method TailAbscissa(l: array<u64>, x1: array<u64>, x2: array<u64>) returns (x: array<u64>)
    requires l.Length == x1.Length == x2.Length == 4 && Val(x1[..]) < Prime() && Val(x2[..]) < Prime()
    ensures fresh(x) && x.Length == 4
    ensures XSafe(Val(l[..]), Val(x1[..]), Val(x2[..])) ==> Val(x[..]) == ThirdX(Val(l[..]), Val(x1[..]), Val(x2[..]))
  {
    hide Val, SubSafe, ThirdX;
    BothGood();
    var t := new u64[4];
    x := new u64[4];
    ModMul(t, l, l, P);
    assert Val(t[..]) == Square(Val(l[..]));
    hide Square;
    FeSub(x, t, x1);
    assert SubSafe(Square(Val(l[..])), Val(x1[..])) ==> Val(x[..]) == Less(Square(Val(l[..])), Val(x1[..]));
    TailX(Val(l[..]), Val(x1[..]), Val(x2[..]));
    FeSub(x, x, x2);
  }

  method TailOrdinate(l: array<u64>, x1: array<u64>, y1: array<u64>, x3: array<u64>) returns (y: array<u64>)
    requires l.Length == x1.Length == y1.Length == x3.Length == 4 && Val(x1[..]) < Prime() && Val(y1[..]) < Prime()
    ensures fresh(y) && y.Length == 4
    ensures Val(x3[..]) < Prime() && YSafe(Val(l[..]), Val(x1[..]), Val(y1[..]), Val(x3[..])) ==>
              Val(y[..]) == ThirdY(Val(l[..]), Val(x1[..]), Val(y1[..]), Val(x3[..]))
  {
    hide Val, SubSafe, ThirdY, Slant;
    BothGood();
    var t := new u64[4];
    y := new u64[4];
    FeSub(t, x1, x3);
    ghost var d := Less(Val(x1[..]), Val(x3[..]));
    assert Val(x3[..]) < Prime() && SubSafe(Val(x1[..]), Val(x3[..])) ==> Val(t[..]) == d;
    ModMul(t, l, t, P);
    TailY(Val(l[..]), Val(x1[..]), Val(y1[..]), Val(x3[..]));
    FeSub(y, t, y1);
  }

  /** The common end of point_add and point_double. */
  method Tail(l: array<u64>, x1: seq<u64>, y1: seq<u64>, x2: seq<u64>) returns (r: Point)
    requires l.Length == |x1| == |y1| == |x2| == 4
    requires Val(x1) < Prime() && Val(y1) < Prime() && Val(x2) < Prime()
    ensures r.Aff? && |r.x| == |r.y| == 4
    ensures TailSafe(Val(l[..]), Val(x1), Val(y1), Val(x2)) ==> r == Third(Val(l[..]), Val(x1), Val(y1), Val(x2))
  {
    hide Val, SubSafe, LimbsOf, XSafe, YSafe, ThirdX, ThirdY;
    var ax := Copied(x1);
    var ay := Copied(y1);
    var bx := Copied(x2);
    var x := TailAbscissa(l, ax, bx);
    TailX(Val(l[..]), Val(x1), Val(x2));
    var y := TailOrdinate(l, ax, ay, x);
    LimbsBack(x[..]);
    LimbsBack(y[..]);
    r := Aff(x[..], y[..]);
  }

  /** fe_add on canonical operands. */
  method FeSum(r: array<u64>, a: array<u64>, b: array<u64>)
    requires r.Length == a.Length == b.Length == 4 && Val(a[..]) < Prime() && Val(b[..]) < Prime()
    modifies r
    ensures Val(r[..]) == (Val(old(a[..])) + Val(old(b[..]))) % Prime() < Prime()
  {
    BothGood();
    FeAdd(r, a, b);
  }

  lemma CoefficientSize()
    ensures Val(A) == Prime() - 3
  {
    ValFour(0xFFFF_FFFF_FFFF_FD94, MAX64, MAX64, MAX64);
    ValFour(0xFFFF_FFFF_FFFF_FD97, MAX64, MAX64, MAX64);
  }

  /** 3x^2 + a. */
  method TangentRise(x: array<u64>) returns (n: array<u64>)
    requires x.Length == 4
    ensures fresh(n) && n.Length == 4 && Val(n[..]) == (3 * (Val(x[..]) * Val(x[..])) + Val(A)) % Prime() < Prime()
  {
    hide Val;
    BothGood();
    CoefficientSize();
    ghost var p, sq := Prime(), Val(x[..]) * Val(x[..]);
    var a := Copied(A);
    var t := new u64[4];
    n := new u64[4];
    ModMul(t, x, x, P);
    Quotient(sq, p);
    FeSum(n, t, t);
    AddResidues(sq, sq, p);
    FeSum(n, n, t);
    AddResidues(sq + sq, sq, p);
    FeSum(n, n, a);
    ResidueOfSum(sq + sq + sq, Val(A), p);
  }

  /** fe_inv and fe_mul: n over d. */
  method Divide(n: array<u64>, d: array<u64>) returns (l: array<u64>)
    requires n.Length == d.Length == 4
    ensures fresh(l) && l.Length == 4
    ensures Val(l[..]) == (Val(n[..]) * InverseP(Val(d[..]))) % Prime()
  {
    hide Val;
    BothGood();
    var inv := ModInv(d, P);
    l := new u64[4];
    ModMul(l, n, inv, P);
  }

  ghost predicate DoubleSafe(a: Point) {
    a.Aff? && Val(a.y) != 0 ==> TailSafe(Tangent(Val(a.x), Val(a.y)), Val(a.x), Val(a.y), Val(a.x))
  }

  /** point_double: the tangent, while no borrow is lost. */
  method PointDouble(a: Point) returns (r: Point)
    requires OnCurve(a)
    ensures DoubleSafe(a) ==> r == Double(a)
  {
    hide Val, Third, TailSafe, OnEquation, InverseP;
    if a.Inf? { return Inf; }
    var zero := IsZero(a.y);
    if zero { return Inf; }
    var x := Copied(a.x);
    var y := Copied(a.y);
    var n := TangentRise(x);
    var d := new u64[4];
    FeSum(d, y, y);
    var l := Divide(n, d);
    assert Val(l[..]) == Tangent(Val(a.x), Val(a.y));
    r := Tail(l, a.x, a.y, a.x);
  }

  ghost predicate AddSafe(a: Point, b: Point) {
    a.Aff? && b.Aff? ==>
      if Val(a.x) != Val(b.x) then
        && SubSafe(Val(b.y), Val(a.y)) && SubSafe(Val(b.x), Val(a.x))
        && TailSafe(Chord(Val(a.x), Val(a.y), Val(b.x), Val(b.y)), Val(a.x), Val(a.y), Val(b.x))
      else Val(a.y) == Val(b.y) ==> DoubleSafe(a)
  }

  /** The slope of the chord, while no borrow is lost. */
  method ChordSlope(a: Point, b: Point) returns (l: array<u64>)
    requires OnCurve(a) && OnCurve(b) && a.Aff? && b.Aff?
    ensures fresh(l) && l.Length == 4
    ensures SubSafe(Val(b.y), Val(a.y)) && SubSafe(Val(b.x), Val(a.x)) ==>
              Val(l[..]) == Chord(Val(a.x), Val(a.y), Val(b.x), Val(b.y))
  {
    hide Val, SubSafe, OnEquation, InverseP;
    var x1 := Copied(a.x);
    var y1 := Copied(a.y);
    var x2 := Copied(b.x);
    var y2 := Copied(b.y);
    var n, d := new u64[4], new u64[4];
    FeSub(n, y2, y1);
    FeSub(d, x2, x1);
    l := Divide(n, d);
  }

  /** point_add: the chord, the tangent, or infinity, while no borrow is lost. */
  method PointAdd(a: Point, b: Point) returns (r: Point)
    requires OnCurve(a) && OnCurve(b)
    ensures AddSafe(a, b) ==> r == Sum(a, b)
  {
    hide Val, Third, TailSafe, OnEquation, Double, DoubleSafe, SubSafe, Chord;
    if a.Inf? { return b; }
    if b.Inf? { return a; }
    var cx := Cmp(a.x, b.x);
    if cx == 0 {
      var cy := Cmp(a.y, b.y);
      if cy == 0 { r := PointDouble(a); } else { r := Inf; }
      return;
    }
    var l := ChordSlope(a, b);
    r := Tail(l, a.x, a.y, b.x);
  }
}
