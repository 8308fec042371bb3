/**
 Double-and-add of src/security/gost3410.c computes n times a point in any abelian group: the point
 operations are parameters, the scalar is shifted right in place.
 */
module Group {
  import opened Octets
  import opened Limbs
  import opened Field
  import opened FieldMul
  import opened Modular

  /** point_add, point_double and the point at infinity. */
  datatype Ops<!G> = Ops(add: (G, G) -> G, double: G -> G, zero: G)

  ghost predicate Commutes<G(!new)>(g: Ops<G>, on: G -> bool, a: G, b: G) {
    on(a) && on(b) ==> on(g.add(a, b)) && g.add(a, b) == g.add(b, a)
  }

  ghost predicate Associates<G(!new)>(g: Ops<G>, on: G -> bool, a: G, b: G, c: G) {
    on(a) && on(b) && on(c) ==> g.add(g.add(a, b), c) == g.add(a, g.add(b, c))
  }

  ghost predicate Unit<G(!new)>(g: Ops<G>, on: G -> bool, a: G) {
    on(a) ==> g.add(g.zero, a) == a && g.add(a, g.zero) == a && g.double(a) == g.add(a, a)
  }

  /** The hypothesis: an abelian group law on the elements that satisfy on. */
  ghost predicate Law<G(!new)>(g: Ops<G>, on: G -> bool) {
    && on(g.zero)
    && (forall a, b :: Commutes(g, on, a, b))
    && (forall a, b, c :: Associates(g, on, a, b, c))
    && (forall a :: Unit(g, on, a))
  }

  ghost function Times<G>(g: Ops<G>, n: nat, a: G): G {
    if n == 0 then g.zero else g.add(a, Times(g, n - 1, a))
  }

  lemma {:induction false} TimesOn<G(!new)>(g: Ops<G>, on: G -> bool, n: nat, a: G)
    requires Law(g, on) && on(a)
    ensures on(Times(g, n, a))
  {
    if n > 0 {
      TimesOn(g, on, n - 1, a);
      assert Commutes(g, on, a, Times(g, n - 1, a));
    }
  }

  lemma {:induction false} TimesAdd<G(!new)>(g: Ops<G>, on: G -> bool, m: nat, n: nat, a: G)
    requires Law(g, on) && on(a)
    ensures Times(g, m + n, a) == g.add(Times(g, m, a), Times(g, n, a))
  {
    TimesOn(g, on, n, a);
    if m == 0 {
      assert Unit(g, on, Times(g, n, a));
    } else {
      TimesOn(g, on, m - 1, a);
      TimesAdd(g, on, m - 1, n, a);
      assert Associates(g, on, a, Times(g, m - 1, a), Times(g, n, a));
    }
  }

  lemma {:induction false} TimesTimes<G(!new)>(g: Ops<G>, on: G -> bool, m: nat, n: nat, a: G)
    requires Law(g, on) && on(a)
    ensures m * n >= 0 && Times(g, m, Times(g, n, a)) == Times(g, m * n, a)
  {
    if m > 0 {
      TimesTimes(g, on, m - 1, n, a);
      TimesAdd(g, on, n, (m - 1) * n, a);
      assert n + (m - 1) * n == m * n;
    } else {
      assert m * n == 0;
    }
  }

  lemma {:induction false} TimesZero<G(!new)>(g: Ops<G>, on: G -> bool, n: nat)
    requires Law(g, on)
    ensures Times(g, n, g.zero) == g.zero
  {
    if n > 0 {
      TimesZero(g, on, n - 1);
      assert Unit(g, on, g.zero);
    }
  }

  /** Only the residue of the scalar matters once q times the element is zero. */
  lemma TimesResidue<G(!new)>(g: Ops<G>, on: G -> bool, n: nat, q: nat, a: G)
    requires Law(g, on) && on(a) && q > 0 && Times(g, q, a) == g.zero
    ensures Times(g, n, a) == Times(g, n % q, a)
  {
    Quotient(n, q);
    TimesTimes(g, on, n / q, q, a);
    TimesAdd(g, on, (n / q) * q, n % q, a);
    TimesZero(g, on, n / q);
    TimesOn(g, on, n % q, a);
    assert Unit(g, on, Times(g, n % q, a));
  }

  /** The shift of point_mul: one bit to the right across four limbs, in place. */
  method Halve(n: array<u64>) returns (ghost low: nat)
    requires n.Length == 4
    modifies n
    ensures Val(n[..]) == Val(old(n[..])) / 2
    ensures low == old(n[0]) % 2 && Val(old(n[..])) == 2 * Val(n[..]) + low
  {
    ghost var before := n[..];
    var carry := 0;
    var i := 4;
    while i > 0
      invariant 0 <= i <= 4 && 0 <= carry <= 1
      invariant carry == if i == 4 then 0 else before[i] % 2
      invariant forall k :: 0 <= k < i ==> n[k] == before[k]
      invariant 2 * Val(n[i..]) + carry == Val(before[i..])
    {
      i := i - 1;
      var old' := n[i];
      ghost var above := n[i + 1..];
      n[i] := old' / 2 + carry * 0x8000_0000_0000_0000;
      assert n[i..] == [n[i]] + above;
      ValHead(n[..], i);
      assert n[..][i..] == n[i..] && n[..][i + 1..] == above;
      ValHead(before, i);
      carry := old' % 2;
    }
    low := carry;
    assert n[0..] == n[..] && before[0..] == before;
  }

  /** One round of double-and-add. */
  lemma Round<G(!new)>(g: Ops<G>, on: G -> bool, result: G, addend: G, half: nat, low: nat)
    requires Law(g, on) && on(result) && on(addend) && low <= 1
    ensures var next := if low == 1 then g.add(result, addend) else result;
            on(next) && on(g.double(addend)) &&
            g.add(result, Times(g, 2 * half + low, addend)) == g.add(next, Times(g, half, g.double(addend)))
  {
    TwoTimes(g, on, addend);
    TimesTimes(g, on, half, 2, addend);
    assert half * 2 == 2 * half;
    TimesOn(g, on, 2 * half, addend);
    assert Commutes(g, on, result, addend);
    if low == 1 { assert Associates(g, on, result, addend, Times(g, 2 * half, addend)); }
  }

  lemma TwoTimes<G(!new)>(g: Ops<G>, on: G -> bool, a: G)
    requires Law(g, on) && on(a)
    ensures Times(g, 2, a) == g.double(a) && on(g.double(a))
  {
    assert Unit(g, on, a);
    assert Commutes(g, on, a, a);
    assert Times(g, 1, a) == g.add(a, Times(g, 0, a)) == a;
    assert Times(g, 2, a) == g.add(a, Times(g, 1, a));
  }

  /** point_mul: n times the element, for every scalar of 256 bits including 0. */
  method PointMul<G(!new)>(g: Ops<G>, ghost on: G -> bool, k: seq<u64>, a: G) returns (result: G)
    requires |k| == 4 && Law(g, on) && on(a)
    ensures result == Times(g, Val(k), a)
  {
    result := g.zero;
    var addend := a;
    var n := Copied(k);
    TimesOn(g, on, Val(k), a);
    assert Unit(g, on, Times(g, Val(k), a));
    while true
      invariant on(result) && on(addend)
      invariant g.add(result, Times(g, Val(n[..]), addend)) == Times(g, Val(k), a)
      decreases Val(n[..])
    {
      ghost var before := result;
      if n[0] % 2 == 1 { result := g.add(result, addend); }
      ghost var low := Halve(n);
      Round(g, on, before, addend, Val(n[..]), low);
      var zero := IsZero(n[..]);
      if zero { break; }
      addend := g.double(addend);
    }
    assert Unit(g, on, result);
  }
}
