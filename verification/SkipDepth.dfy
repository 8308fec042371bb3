/**
 How deep the two skip passes of a compact array recurse (src/codec/serialize.c:496-529, 840-899). The first pass
 refuses descriptions of more than 16 levels. The second has no check of its own and does not step over the element
 description of an empty array, but it never leaves what the first pass accepted.
 */
module SkipDepth {
  import opened Octets
  import opened Lengths
  import opened Values
  import opened Compact

  /** What is accepted at some depth is accepted one level up. */
  lemma {:induction false} Shallower(s: seq<byte>, pos: nat, depth: nat)
    requires pos <= |s| && SkipType(s, pos, depth + 1).Ok?
    ensures SkipType(s, pos, depth) == SkipType(s, pos, depth + 1)
    decreases |s| - pos, 0
  {
    hide LenAt;
    if s[pos] == STRUCTURE {
      var (n, p) := LenAt(s, pos + 1).value;
      AllShallower(s, p, n, depth + 1);
    } else if s[pos] == ARRAY {
      Shallower(s, pos + 3, depth + 1);
    }
  }

  lemma {:induction false} AllShallower(s: seq<byte>, pos: nat, n: nat, depth: nat)
    requires pos <= |s| && SkipTypes(s, pos, n, depth + 1).Ok?
    ensures SkipTypes(s, pos, n, depth) == SkipTypes(s, pos, n, depth + 1)
    decreases |s| - pos, n + 1
  {
    hide SkipType;
    if n > 0 {
      Shallower(s, pos, depth);
      AllShallower(s, SkipType(s, pos, depth).value, n - 1, depth);
    }
  }

  lemma {:induction false} SkipTypesJoin(s: seq<byte>, pos: nat, a: nat, b: nat, depth: nat)
    requires pos <= |s| && SkipTypes(s, pos, a, depth).Ok?
    ensures SkipTypes(s, pos, a + b, depth) == SkipTypes(s, SkipTypes(s, pos, a, depth).value, b, depth)
    decreases a
  {
    hide SkipType;
    if a > 0 { SkipTypesJoin(s, SkipType(s, pos, depth).value, a - 1, b, depth); }
  }

  lemma One(s: seq<byte>, pos: nat, depth: nat)
    requires pos <= |s| && SkipType(s, pos, depth).Ok?
    ensures SkipTypes(s, pos, 1, depth) == SkipType(s, pos, depth)
  {
    hide SkipType;
    assert SkipTypes(s, SkipType(s, pos, depth).value, 0, depth) == Ok(SkipType(s, pos, depth).value);
  }

  /** A description starts here that the first pass accepts at this level. */
  ghost predicate Accepted(d: seq<byte>, dp: nat, level: nat)
    requires dp <= |d|
  {
    SkipType(d, dp, level).Ok?
  }

  lemma AcceptedParts(d: seq<byte>, dp: nat, level: nat)
    requires dp <= |d| && Accepted(d, dp, level)
    ensures level < MAX_TYPE_DEPTH
    ensures dp < |d| && d[dp] == STRUCTURE && LenAt(d, dp + 1).Ok? ==>
              var (n, p) := LenAt(d, dp + 1).value; SkipTypes(d, p, n, level + 1).Ok?
    ensures dp + 3 <= |d| && d[dp] == ARRAY ==> Accepted(d, dp + 3, level + 1)
  {
    hide LenAt;
  }

  /** Between where the second pass stops and where the first does, there are whole descriptions. */
  lemma {:induction false} Residue(d: seq<byte>, dp: nat, c: seq<byte>, cp: nat, depth: nat) returns (m: nat)
    requires dp <= |d| && cp <= |c| && SkipType(d, dp, depth).Ok? && SkipDesc(d, dp, c, cp).Ok?
    ensures SkipTypes(d, SkipDesc(d, dp, c, cp).value.0, m, depth) == SkipType(d, dp, depth)
    decreases |d| - dp, 0
  {
    hide LenAt, SkipPacked, Two, SkipFields, SkipRepeat;
    if d[dp] == STRUCTURE {
      var (n, p) := LenAt(d, dp + 1).value;
      m := FieldsResidue(d, p, c, cp, n, n, depth + 1);
      AllShallower(d, SkipDesc(d, dp, c, cp).value.0, m, depth);
    } else if d[dp] == ARRAY {
      One(d, dp + 3, depth + 1);
      m := RepeatResidue(d, dp + 3, dp + 3, c, cp, Two(d, dp + 1), 1, depth + 1);
      AllShallower(d, SkipDesc(d, dp, c, cp).value.0, m, depth);
    } else {
      m := 0;
    }
  }

  lemma {:induction false} FieldsResidue(d: seq<byte>, dp: nat, c: seq<byte>, cp: nat, n: nat, k: nat, depth: nat)
    returns (m: nat)
    requires dp <= |d| && cp <= |c| && n <= k && SkipTypes(d, dp, k, depth).Ok? && SkipFields(d, dp, c, cp, n).Ok?
    ensures SkipTypes(d, SkipFields(d, dp, c, cp, n).value.0, m, depth) == SkipTypes(d, dp, k, depth)
    decreases |d| - dp, n + 1
  {
    hide SkipDesc, SkipType;
    if n == 0 {
      m := k;
    } else {
      var (p, q) := SkipDesc(d, dp, c, cp).value;
      var j := Residue(d, dp, c, cp, depth);
      SkipTypesJoin(d, p, j, k - 1, depth);
      m := FieldsResidue(d, p, c, q, n - 1, j + (k - 1), depth);
    }
  }

  lemma {:induction false} RepeatResidue(d: seq<byte>, elem: nat, dp: nat, c: seq<byte>, cp: nat, n: nat, k: nat,
                                         depth: nat)
    returns (m: nat)
    requires elem <= dp <= |d| && cp <= |c| && SkipRepeat(d, elem, dp, c, cp, n).Ok? && SkipType(d, elem, depth).Ok?
    requires SkipTypes(d, dp, k, depth) == SkipType(d, elem, depth)
    ensures SkipTypes(d, SkipRepeat(d, elem, dp, c, cp, n).value.0, m, depth) == SkipType(d, elem, depth)
    decreases |d| - elem, n + 1
  {
    hide SkipDesc, SkipType, SkipTypes;
    if n == 0 {
      m := k;
    } else {
      var (p, q) := SkipDesc(d, elem, c, cp).value;
      var j := Residue(d, elem, c, cp, depth);
      m := RepeatResidue(d, elem, p, c, q, n - 1, j, depth);
    }
  }

  // ── A window on the description ────────────────────────────────────────────

  lemma LenInWindow(s: seq<byte>, lo: nat, hi: nat, pos: nat)
    requires lo <= pos <= hi <= |s| && LenAt(s, pos).Ok? && LenAt(s, pos).value.1 <= hi
    ensures LenAt(s[lo..hi], pos - lo) == Ok((LenAt(s, pos).value.0, LenAt(s, pos).value.1 - lo))
  {
    var w := s[lo..hi];
    var e := LenAt(s, pos).value.1;
    assert w[pos - lo] == s[pos];
    SliceOfSlice(s, lo, hi, pos + 1 - lo, e - lo);
  }

  lemma {:induction false} TypeInWindow(s: seq<byte>, lo: nat, hi: nat, pos: nat, depth: nat)
    requires lo <= pos <= hi <= |s| && SkipType(s, pos, depth).Ok? && SkipType(s, pos, depth).value <= hi
    ensures SkipType(s[lo..hi], pos - lo, depth) == Ok(SkipType(s, pos, depth).value - lo)
    decreases |s| - pos, 0
  {
    hide LenAt;
    var w := s[lo..hi];
    assert w[pos - lo] == s[pos];
    if s[pos] == STRUCTURE {
      var (n, p) := LenAt(s, pos + 1).value;
      LenInWindow(s, lo, hi, pos + 1);
      TypesInWindow(s, lo, hi, p, n, depth + 1);
    } else if s[pos] == ARRAY {
      TypeInWindow(s, lo, hi, pos + 3, depth + 1);
    }
  }

  lemma {:induction false} TypesInWindow(s: seq<byte>, lo: nat, hi: nat, pos: nat, n: nat, depth: nat)
    requires lo <= pos <= hi <= |s| && SkipTypes(s, pos, n, depth).Ok? && SkipTypes(s, pos, n, depth).value <= hi
    ensures SkipTypes(s[lo..hi], pos - lo, n, depth) == Ok(SkipTypes(s, pos, n, depth).value - lo)
    decreases |s| - pos, n + 1
  {
    hide SkipType;
    if n > 0 {
      TypeInWindow(s, lo, hi, pos, depth);
      TypesInWindow(s, lo, hi, SkipType(s, pos, depth).value, n - 1, depth);
    }
  }
}
