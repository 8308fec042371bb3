/**
 Reading one value (osp_value_read, src/codec/serialize.c:1121-1343) as a function of the octets and
 of the pool slots already taken, and the round trip with the writer.
 */
module ValueParse {
  import opened Octets
  import opened Lengths
  import opened Values
  import opened Compact
  import opened CompactTrip
  import opened ValueWrite

  /** The value that starts at pos and the position after it; nested elements take pool slots. */
  function ValueAt(s: seq<byte>, pos: nat, used: nat): (r: Result<(Value, nat)>)
    requires pos <= |s| && used <= POOL
    ensures r.Ok? ==> pos < r.value.1 <= |s| && used + Nodes(r.value.0) <= POOL
    decreases |s| - pos, 0
  {
    if pos == |s| then Fail(Invalid)
    else
      var form := FormOf(s[pos]);
      if form.ListForm? then
        var (n, p) :- LenAt(s, pos + 1);
        ListAt(s, p, used, n, form.isArray)
      else if form.CompactForm? then CompactAt(s, pos + 1, used)
      else LeafAt(s, pos + 1, form)
  }

  function ListAt(s: seq<byte>, pos: nat, used: nat, n: nat, isArray: bool): (r: Result<(Value, nat)>)
    requires pos <= |s| && used <= POOL
    ensures r.Ok? ==> pos <= r.value.1 <= |s| && used + Nodes(r.value.0) <= POOL
    decreases |s| - pos, n + 2
  {
    if n > ListLimit(isArray) || used + n > POOL then Fail(NoMem)
    else
      var (items, e) :- ItemsAt(s, pos, used + n, n, []);
      Ok((List(isArray, items), e))
  }

  function ItemsAt(s: seq<byte>, pos: nat, used: nat, n: nat, acc: seq<Value>): (r: Result<(seq<Value>, nat)>)
    requires pos <= |s| && used <= POOL
    ensures r.Ok? ==> pos <= r.value.1 <= |s|
    ensures r.Ok? ==> |r.value.0| == |acc| + n && used - AllNodes(acc) + AllNodes(r.value.0) <= POOL
    decreases |s| - pos, n + 1
  {
    if n == 0 then Ok((acc, pos))
    else
      var (v, p) :- ValueAt(s, pos, used);
      assert (acc + [v])[..|acc|] == acc;
      ItemsAt(s, p, used + Nodes(v), n - 1, acc + [v])
  }

  // ── Round trip ─────────────────────────────────────────────────────────────

  /**
   Every value within the limits and the pool comes back from the octets the writer emits, wherever
   they stand and whatever follows, and exactly those octets are consumed.
   */
  lemma {:induction false} ValueRoundTrip(s: seq<byte>, pos: nat, used: nat, v: Value)
    requires Within(v) && used + Nodes(v) <= POOL && At(s, pos, Enc(v))
    ensures ValueAt(s, pos, used) == Ok((v, pos + |Enc(v)|))
    decreases v, 0
  {
    hide At, LenAt, LenBytes, EncAll, ItemsAt, LeafAt, LeafBody, AllNodes, FormOf, Tag;
    FormOfTag(v);
    if v.List? {
      var n := |v.items|;
      AtHead(s, pos, Tag(v), LenBytes(Len32(n)) + EncAll(v.items));
      LenThen(s, pos + 1, n, EncAll(v.items));
      ItemsRoundTrip(s, pos + 1 + |LenBytes(Len32(n))|, used + n, [], v.items);
      assert [] + v.items == v.items;
    } else {
      AtHead(s, pos, Tag(v), LeafBody(v));
      LeafRoundTrip(s, pos + 1, v);
    }
  }

  lemma {:induction false} ItemsRoundTrip(s: seq<byte>, pos: nat, used: nat, acc: seq<Value>, items: seq<Value>)
    requires (forall i :: 0 <= i < |items| ==> Within(items[i])) && used + AllNodes(items) <= POOL
    requires At(s, pos, EncAll(items))
    ensures ItemsAt(s, pos, used, |items|, acc) == Ok((acc + items, pos + |EncAll(items)|))
    decreases items, 1
  {
    hide At, ValueAt, Enc, Within, Nodes;
    if items == [] {
      assert acc + items == acc;
    } else {
      HeadNodes(items);
      AtParts(s, pos, Enc(items[0]), EncAll(items[1..]));
      ValueRoundTrip(s, pos, used, items[0]);
      ItemsRoundTrip(s, pos + |Enc(items[0])|, used + Nodes(items[0]), acc + [items[0]], items[1..]);
      assert acc + [items[0]] + items[1..] == acc + items;
    }
  }

  /** Elements read so far stay in front. */
  lemma {:induction false} ItemsPrefix(s: seq<byte>, pos: nat, used: nat, n: nat, acc: seq<Value>)
    requires pos <= |s| && used <= POOL && ItemsAt(s, pos, used, n, acc).Ok?
    ensures acc <= ItemsAt(s, pos, used, n, acc).value.0
    decreases n
  {
    hide ValueAt;
    if n > 0 {
      var (v, p) := ValueAt(s, pos, used).value;
      ItemsPrefix(s, p, used + Nodes(v), n - 1, acc + [v]);
    }
  }

  /** A value that is read from its own octets is within the limits. */
  lemma {:induction false} ReadWithin(s: seq<byte>, pos: nat, used: nat, v: Value)
    requires Representable(v) && used <= POOL && At(s, pos, Enc(v))
    requires ValueAt(s, pos, used).Ok? && ValueAt(s, pos, used).value.0 == v
    ensures Within(v)
    decreases v, 0
  {
    hide At, LenAt, LenBytes, EncAll, ItemsAt, LeafAt, LeafBody, AllNodes, FormOf, Tag;
    FormOfTag(v);
    if v.List? {
      var n := |v.items|;
      AtHead(s, pos, Tag(v), LenBytes(Len32(n)) + EncAll(v.items));
      LenThen(s, pos + 1, n, EncAll(v.items));
      assert [] + v.items == v.items;
      ItemsReadWithin(s, pos + 1 + |LenBytes(Len32(n))|, used + n, [], v.items);
    } else {
      AtHead(s, pos, Tag(v), LeafBody(v));
      LeafReadWithin(s, pos + 1, v);
    }
  }

  lemma LeafReadWithin(s: seq<byte>, pos: nat, v: Value)
    requires Representable(v) && !v.List? && At(s, pos, LeafBody(v))
    requires LeafAt(s, pos, FormOfValue(v)).Ok? && LeafAt(s, pos, FormOfValue(v)).value.0 == v
    ensures Within(v)
  {
    hide At, LenAt, LenBytes, BitsAt, PlainAt;
    if v.Text? {
      LenThen(s, pos, |v.octets|, v.octets);
    } else if !v.BitString? {
      PlainWithin(s, pos, FormOfValue(v));
    }
  }

  lemma {:induction false} ItemsReadWithin(s: seq<byte>, pos: nat, used: nat, acc: seq<Value>, items: seq<Value>)
    requires (forall i :: 0 <= i < |items| ==> Representable(items[i])) && used <= POOL && At(s, pos, EncAll(items))
    requires ItemsAt(s, pos, used, |items|, acc).Ok? && ItemsAt(s, pos, used, |items|, acc).value.0 == acc + items
    ensures forall i :: 0 <= i < |items| ==> Within(items[i])
    decreases items, 1
  {
    hide At, ValueAt, Enc, Within, Nodes, Representable;
    if items != [] {
      FirstRead(s, pos, used, acc, items);
      var (v, p) := ValueAt(s, pos, used).value;
      AtParts(s, pos, Enc(items[0]), EncAll(items[1..]));
      ReadWithin(s, pos, used, items[0]);
      ValueRoundTrip(s, pos, used, items[0]);
      assert acc + [v] + items[1..] == acc + items;
      ItemsReadWithin(s, p, used + Nodes(v), acc + [v], items[1..]);
      assert forall i :: 1 <= i < |items| ==> items[i] == items[1..][i - 1];
    }
  }

  lemma FirstRead(s: seq<byte>, pos: nat, used: nat, acc: seq<Value>, items: seq<Value>)
    requires pos <= |s| && used <= POOL && items != []
    requires ItemsAt(s, pos, used, |items|, acc).Ok? && ItemsAt(s, pos, used, |items|, acc).value.0 == acc + items
    ensures ValueAt(s, pos, used).Ok? && ValueAt(s, pos, used).value.0 == items[0]
  {
    hide ValueAt, Nodes;
    var (v, p) := ValueAt(s, pos, used).value;
    ItemsPrefix(s, p, used + Nodes(v), |items| - 1, acc + [v]);
    assert v == (acc + [v])[|acc|] == (acc + items)[|acc|] == items[0];
  }

  /** Whatever the writer can be given: it is read back if and only if it is within the limits and the pool suffices. */
  lemma ReadBackIff(s: seq<byte>, pos: nat, used: nat, v: Value)
    requires Representable(v) && used <= POOL && At(s, pos, Enc(v))
    ensures ValueAt(s, pos, used) == Ok((v, pos + |Enc(v)|)) <==> Within(v) && used + Nodes(v) <= POOL
  {
    hide ValueAt, Enc, Within, Nodes, Representable;
    if Within(v) && used + Nodes(v) <= POOL {
      ValueRoundTrip(s, pos, used, v);
    } else if ValueAt(s, pos, used).Ok? && ValueAt(s, pos, used).value.0 == v {
      ReadWithin(s, pos, used, v);
    }
  }

  /** The compact form of an array of uniform rows reads as the array itself. */
  lemma CompactReadsAsArray(s: seq<byte>, pos: nat, rows: seq<Value>, sh: Shape, used: nat)
    requires Uniform(rows, sh) && 1 <= |rows| <= MAX_ARRAY && used + Nodes(List(true, rows)) <= POOL
    requires Levels(sh) <= MAX_TYPE_DEPTH && |PackAll(rows)| < 0x1_0000_0000
    requires At(s, pos, [COMPACT] + CompactBytes(rows, sh))
    ensures ValueAt(s, pos, used) == Ok((List(true, rows), pos + 1 + |CompactBytes(rows, sh)|)) <==> !ZeroSize(sh)
  {
    hide At, CompactAt, CompactBytes, Uniform, Levels, AllNodes, ZeroSize;
    AtHead(s, pos, COMPACT, CompactBytes(rows, sh));
    CompactRoundTrip(s, pos + 1, rows, sh, used);
    assert rows != [];
  }

  // ── The slots handed out ───────────────────────────────────────────────────

  /** The element slices of a value whose first free slot is lo, as (start, count), in order of allocation. */
  function Slices(v: Value, lo: nat): seq<(nat, nat)> {
    if v.List? then [(lo, |v.items|)] + SlicesAll(v.items, lo + |v.items|) else []
  }

  function SlicesAll(items: seq<Value>, lo: nat): seq<(nat, nat)> {
    if items == [] then [] else Slices(items[0], lo) + SlicesAll(items[1..], lo + Nodes(items[0]))
  }

  /** Slices that lie end to end from lo to hi. */
  predicate EndToEnd(s: seq<(nat, nat)>, lo: nat, hi: nat) {
    if s == [] then lo == hi else s[0].0 == lo && EndToEnd(s[1..], lo + s[0].1, hi)
  }

  lemma {:induction false} EndToEndJoin(a: seq<(nat, nat)>, b: seq<(nat, nat)>, lo: nat, mid: nat, hi: nat)
    requires EndToEnd(a, lo, mid) && EndToEnd(b, mid, hi)
    ensures EndToEnd(a + b, lo, hi)
  {
    if a == [] {
      assert a + b == b;
    } else {
      EndToEndJoin(a[1..], b, lo + a[0].1, mid, hi);
      assert (a + b)[1..] == a[1..] + b;
    }
  }

  lemma {:induction false} SlicesEndToEnd(v: Value, lo: nat)
    ensures EndToEnd(Slices(v, lo), lo, lo + Nodes(v))
    decreases v, 0
  {
    if v.List? {
      SlicesAllEndToEnd(v.items, lo + |v.items|);
      var rest := SlicesAll(v.items, lo + |v.items|);
      assert ([(lo, |v.items|)] + rest)[1..] == rest;
    }
  }

  lemma NoSlices(lo: nat)
    ensures EndToEnd([], lo, lo)
  {}

  lemma {:induction false} SlicesAllEndToEnd(items: seq<Value>, lo: nat)
    ensures EndToEnd(SlicesAll(items, lo), lo, lo + AllNodes(items))
    decreases items, 1
  {
    hide EndToEnd, Slices, Nodes;
    if items == [] {
      assert EndToEnd([], lo, lo) by { NoSlices(lo); }
    } else {
      var mid := lo + Nodes(items[0]);
      HeadNodes(items);
      SlicesEndToEnd(items[0], lo);
      SlicesAllEndToEnd(items[1..], mid);
      EndToEndJoin(Slices(items[0], lo), SlicesAll(items[1..], mid), lo, mid, lo + AllNodes(items));
    }
  }

  /** End-to-end slices do not overlap and stay in bounds. */
  lemma {:induction false} EndToEndDisjoint(s: seq<(nat, nat)>, lo: nat, hi: nat, i: nat, j: nat)
    requires EndToEnd(s, lo, hi) && i <= j < |s|
    ensures lo <= s[i].0 && s[j].0 + s[j].1 <= hi && (i < j ==> s[i].0 + s[i].1 <= s[j].0)
  {
    if i > 0 {
      EndToEndDisjoint(s[1..], lo + s[0].1, hi, i - 1, j - 1);
    } else if j > 0 {
      EndToEndDisjoint(s[1..], lo + s[0].1, hi, j - 1, j - 1);
    } else {
      EndToEndGrows(s[1..], lo + s[0].1, hi);
    }
  }

  lemma {:induction false} EndToEndGrows(s: seq<(nat, nat)>, lo: nat, hi: nat)
    requires EndToEnd(s, lo, hi)
    ensures lo <= hi
  {
    if s != [] { EndToEndGrows(s[1..], lo + s[0].1, hi); }
  }

  /** On every octet string: the slices of a successful read are disjoint and inside the pool. */
  lemma SlicesSafe(s: seq<byte>, pos: nat, i: nat, j: nat)
    requires pos <= |s| && ValueAt(s, pos, 0).Ok?
    requires i < j < |Slices(ValueAt(s, pos, 0).value.0, 0)|
    ensures var all := Slices(ValueAt(s, pos, 0).value.0, 0);
            all[i].0 + all[i].1 <= all[j].0 && all[j].0 + all[j].1 <= POOL
  {
    hide ValueAt, Slices;
    var v := ValueAt(s, pos, 0).value.0;
    SlicesEndToEnd(v, 0);
    EndToEndDisjoint(Slices(v, 0), 0, Nodes(v), i, j);
  }
}
