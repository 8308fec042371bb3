/** Octets as polynomials over GF(2): section 4 of FIPS 197, and the shortcuts of src/security/hls_high.c:33-42. */
module Gf {

  datatype Octet = Octet(v: bv8)

  /** Addition. */
  function Plus(a: Octet, b: Octet): Octet { Octet(a.v ^ b.v) }

  /** Multiplication by x. */
  function Double(b: bv8): bv8 { if b & 0x80 != 0 then (b << 1) ^ 0x1b else b << 1 }

  function Xtime(b: Octet): Octet { Octet(Double(b.v)) }

  /** hls_high_galois_multiply. */
  function Galois(value: Octet): (r: Octet)
    ensures r == Xtime(value)
  {
    if value.v >> 7 != 0 then Octet((value.v << 1) ^ 0x1b) else Octet(value.v << 1)
  }

  lemma DoubleLinear(a: bv8, b: bv8)
    ensures Double(a ^ b) == Double(a) ^ Double(b)
  {
    ShiftXor(a, b);
    TopXor(a, b);
    TopCases(a);
    TopCases(b);
    Cancel(a << 1, b << 1, 0x1b);
  }

  lemma ShiftXor(a: bv8, b: bv8)
    ensures (a ^ b) << 1 == (a << 1) ^ (b << 1)
  {}

  lemma TopXor(a: bv8, b: bv8)
    ensures (a ^ b) & 0x80 == (a & 0x80) ^ (b & 0x80)
  {}

  lemma TopCases(a: bv8)
    ensures a & 0x80 == 0 || a & 0x80 == 0x80
  {}

  lemma Cancel(a: bv8, b: bv8, c: bv8)
    ensures (a ^ c) ^ (b ^ c) == a ^ b && (a ^ c) ^ b == (a ^ b) ^ c && a ^ (b ^ c) == (a ^ b) ^ c
  {}

  lemma XtimeLinear(a: Octet, b: Octet)
    ensures Xtime(Plus(a, b)) == Plus(Xtime(a), Xtime(b))
  {
    DoubleLinear(a.v, b.v);
    hide Double;
    assert Plus(a, b).v == a.v ^ b.v;
  }

  lemma Assoc(a: Octet, b: Octet, c: Octet)
    ensures Plus(Plus(a, b), c) == Plus(a, Plus(b, c))
  {
    AssocBits(a.v, b.v, c.v, a.v ^ b.v, b.v ^ c.v);
  }

  lemma AssocBits(a: bv8, b: bv8, c: bv8, ab: bv8, bc: bv8)
    requires ab == a ^ b && bc == b ^ c
    ensures ab ^ c == a ^ bc
  {}

  lemma Meets(p: Octet, a: Octet, b: Octet)
    ensures Plus(Plus(a, p), Plus(a, b)) == Plus(p, b)
  {
    MeetsBits(p.v, a.v, b.v);
  }

  lemma MeetsBits(p: bv8, a: bv8, b: bv8)
    ensures (a ^ p) ^ (a ^ b) == p ^ b
  {}

  lemma Regroup(x: Octet, y: Octet, a: Octet, b: Octet, c: Octet, d: Octet)
    ensures Plus(Plus(a, Plus(x, y)), Plus(Plus(Plus(a, b), c), d)) == Plus(Plus(Plus(x, Plus(y, b)), c), d)
  {
    hide Plus;
    var l := Plus(a, Plus(x, y));
    Assoc(l, Plus(Plus(a, b), c), d);
    Assoc(l, Plus(a, b), c);
    Meets(Plus(x, y), a, b);
    Assoc(x, y, b);
  }

  /** {02}a + {03}b + c + d. */
  function Mix(a: Octet, b: Octet, c: Octet, d: Octet): Octet { Plus(Plus(Plus(Xtime(a), Plus(Xtime(b), b)), c), d) }

  function Sum(a: Octet, b: Octet, c: Octet, d: Octet): Octet { Plus(Plus(Plus(a, b), c), d) }

  /** With the sum of the column at hand, one doubling is enough. */
  lemma Shortcut(a: Octet, b: Octet, c: Octet, d: Octet)
    ensures Plus(Plus(a, Xtime(Plus(a, b))), Sum(a, b, c, d)) == Mix(a, b, c, d)
  {
    hide Plus, Xtime;
    XtimeLinear(a, b);
    Regroup(Xtime(a), Xtime(b), a, b, c, d);
  }

  /** The column sum does not depend on where one starts. */
  lemma Rotate(a: Octet, b: Octet, c: Octet, d: Octet)
    ensures Sum(a, b, c, d) == Sum(b, c, d, a)
  {
    hide Plus;
    Assoc(a, b, c);
    Assoc(a, Plus(b, c), d);
    Swap(a, Plus(Plus(b, c), d));
  }

  lemma Swap(a: Octet, b: Octet)
    ensures Plus(a, b) == Plus(b, a)
  {}

  lemma Arrange(x: Octet, y: Octet, z: Octet)
    ensures Plus(y, Plus(x, z)) == Plus(Plus(x, y), z) && Plus(x, Octet(0)) == x
  {
    Assoc(y, x, z);
    Swap(x, y);
    assert x.v ^ 0 == x.v;
  }
}
