/**
 Compact arrays (tag 19, src/codec/serialize.c:496-1115): one type description, then the packed
 contents of all rows. The decoder first skips through the contents to count the rows, then walks
 them again to build values; both passes are driven by the description.
 */
module Compact {
  import opened Octets
  import opened Lengths
  import opened Values

  const MAX_TYPE_DEPTH: nat := 16

  // ── Type descriptions ──────────────────────────────────────────────────────

  function Two(s: seq<byte>, pos: nat): nat
    requires pos + 2 <= |s|
  {
    FromBigEndian(s[pos..pos + 2])
  }

  /** skip_type_description: the end of the description that starts at pos. */
  function SkipType(s: seq<byte>, pos: nat, depth: nat): (r: Result<nat>)
    requires pos <= |s|
    ensures r.Ok? ==> pos < r.value <= |s|
    decreases |s| - pos, 0
  {
    if depth >= MAX_TYPE_DEPTH || pos == |s| then Fail(Invalid)
    else if s[pos] == STRUCTURE then
      var (n, p) :- LenAt(s, pos + 1);
      SkipTypes(s, p, n, depth + 1)
    else if s[pos] == ARRAY then
      if |s| - (pos + 1) < 2 then Fail(Invalid) else SkipType(s, pos + 3, depth + 1)
    else Ok(pos + 1)
  }

  function SkipTypes(s: seq<byte>, pos: nat, n: nat, depth: nat): (r: Result<nat>)
    requires pos <= |s|
    ensures r.Ok? ==> pos <= r.value <= |s|
    decreases |s| - pos, n + 1
  {
    if n == 0 then Ok(pos)
    else
      var p :- SkipType(s, pos, depth);
      SkipTypes(s, p, n - 1, depth)
  }

  // ── Packed values ──────────────────────────────────────────────────────────

  /** Strings in packed form: UTF-8 may be one octet longer here than in a plain value. */
  function PackedLimit(k: TextKind): nat {
    match k case Octet => MAX_OCTETS case Visible => MAX_STRING - 1 case Utf8 => MAX_STRING
  }

  /** read_packed_value. */
  function PackedAt(c: seq<byte>, cp: nat, form: Form): (r: Result<(Value, nat)>)
    requires cp <= |c|
    ensures r.Ok? ==> cp <= r.value.1 <= |c| && !r.value.0.List?
  {
    if form.TextForm? then
      var (text, p) :- TextAt(c, cp, PackedLimit(form.text), Invalid);
      Ok((Text(form.text, text), p))
    else if form.BitsForm? then
      var (n, p) :- LenAt(c, cp);
      PackedBits(c, p, n)
    else PlainAt(c, cp, form)
  }

  function PackedBits(c: seq<byte>, p: nat, n: nat): (r: Result<(Value, nat)>)
    requires p <= |c|
    ensures r.Ok? ==> r.value.1 == p + (n + 7) / 8 <= |c| && n <= MAX_BITS && r.value.0.BitString?
  {
    if n > MAX_BITS then Fail(Invalid)
    else
      var (bits, q) :- Take(c, p, (n + 7) / 8);
      Ok((BitString(n, bits), q))
  }

  /** osp_axdr_type_size: the width of a type, or 0; the delta types have widths but no reader. */
  function TypeSize(tag: byte): nat {
    if FormOf(tag).FixedForm? then Size(FormOf(tag).kind)
    else if FormOf(tag).BoolForm? then 1
    else if FormOf(tag).DateTimeForm? then 12
    else if tag == 28 || tag == 31 then 1
    else if tag == 29 || tag == 32 then 2
    else if tag == 30 || tag == 33 then 4
    else 0
  }

  /** skip_packed_value. */
  function SkipPacked(c: seq<byte>, cp: nat, tag: byte): (r: Result<nat>)
    requires cp <= |c|
    ensures r.Ok? ==> cp <= r.value <= |c|
  {
    if TypeSize(tag) > 0 then SkipOctets(c, cp, TypeSize(tag))
    else if FormOf(tag).NullForm? then Ok(cp)
    else if FormOf(tag).TextForm? then
      var (n, p) :- LenAt(c, cp);
      SkipOctets(c, p, n)
    else if FormOf(tag).BitsForm? then
      var (n, p) :- LenAt(c, cp);
      SkipOctets(c, p, (n + 7) % 0x1_0000_0000 / 8)
    else Fail(Unsupported)
  }

  function SkipOctets(c: seq<byte>, p: nat, n: nat): (r: Result<nat>)
    requires p <= |c|
    ensures r.Ok? ==> p <= r.value <= |c|
  {
    if |c| - p < n then Fail(Invalid) else Ok(p + n)
  }

  /** The skip pass consumes what the walk pass consumes, on one packed value. */
  lemma SkipPackedAgrees(c: seq<byte>, cp: nat, tag: byte)
    requires cp <= |c| && PackedAt(c, cp, FormOf(tag)).Ok?
    ensures SkipPacked(c, cp, tag) == Ok(PackedAt(c, cp, FormOf(tag)).value.1)
  {
    var form := FormOf(tag);
    if form.TextForm? {
      assert TypeSize(tag) == 0;
    } else if form.BitsForm? {
      assert TypeSize(tag) == 0;
    } else {
      PlainWidth(c, cp, tag);
    }
  }

  lemma PlainWidth(c: seq<byte>, cp: nat, tag: byte)
    requires cp <= |c| && PlainAt(c, cp, FormOf(tag)).Ok?
    ensures PlainAt(c, cp, FormOf(tag)).value.1 == cp + TypeSize(tag)
  {
    match FormOf(tag)
    case BoolForm => {}
    case FixedForm(k) => {}
    case DateTimeForm => {}
    case NullForm => {}
    case _ => {}
  }

  // ── The skip pass ──────────────────────────────────────────────────────────

  /** compact_skip_description: where one element ends in the description and in the contents. */
  function SkipDesc(d: seq<byte>, dp: nat, c: seq<byte>, cp: nat): (r: Result<(nat, nat)>)
    requires dp <= |d| && cp <= |c|
    ensures r.Ok? ==> dp < r.value.0 <= |d| && cp <= r.value.1 <= |c|
    decreases |d| - dp, 0
  {
    if dp == |d| then Fail(Invalid)
    else if d[dp] == STRUCTURE then
      var (n, p) :- LenAt(d, dp + 1);
      SkipFields(d, p, c, cp, n)
    else if d[dp] == ARRAY then
      if |d| - (dp + 1) < 2 then Fail(Invalid)
      else SkipRepeat(d, dp + 3, dp + 3, c, cp, Two(d, dp + 1))
    else
      var q :- SkipPacked(c, cp, d[dp]);
      Ok((dp + 1, q))
  }

  function SkipFields(d: seq<byte>, dp: nat, c: seq<byte>, cp: nat, n: nat): (r: Result<(nat, nat)>)
    requires dp <= |d| && cp <= |c|
    ensures r.Ok? ==> dp <= r.value.0 <= |d| && cp <= r.value.1 <= |c|
    decreases |d| - dp, n + 1
  {
    if n == 0 then Ok((dp, cp))
    else
      var (p, q) :- SkipDesc(d, dp, c, cp);
      SkipFields(d, p, c, q, n - 1)
  }

  /** Every array element starts again at the element description. */
  function SkipRepeat(d: seq<byte>, elem: nat, dp: nat, c: seq<byte>, cp: nat, n: nat): (r: Result<(nat, nat)>)
    requires elem <= dp <= |d| && cp <= |c|
    ensures r.Ok? ==> elem <= r.value.0 <= |d| && cp <= r.value.1 <= |c|
    decreases |d| - elem, n + 1
  {
    if n == 0 then Ok((dp, cp))
    else
      var (p, q) :- SkipDesc(d, elem, c, cp);
      SkipRepeat(d, elem, p, c, q, n - 1)
  }

  /** compact_count_elements: rows from cp on, with `count` rows already seen. */
  function Count(d: seq<byte>, c: seq<byte>, cp: nat, count: nat): (r: Result<nat>)
    requires cp <= |c| && count <= MAX_ARRAY
    ensures r.Ok? ==> r.value <= MAX_ARRAY
    decreases MAX_ARRAY - count
  {
    if cp == |c| then Ok(count)
    else if count == MAX_ARRAY then Fail(NoMem)
    else
      var (_, q) :- SkipDesc(d, 0, c, cp);
      Count(d, c, q, count + 1)
  }

  // ── The walk pass ──────────────────────────────────────────────────────────

  /** compact_walk_description: the element, and both ends; `used` is the state of the pool. */
  function Walk(d: seq<byte>, dp: nat, c: seq<byte>, cp: nat, used: nat): (r: Result<(Value, nat, nat)>)
    requires dp <= |d| && cp <= |c| && used <= POOL
    ensures r.Ok? ==> dp < r.value.1 <= |d| && cp <= r.value.2 <= |c| && used + Nodes(r.value.0) <= POOL
    decreases |d| - dp, 0
  {
    if dp == |d| then Fail(Invalid)
    else if d[dp] == STRUCTURE then
      var (n, p) :- LenAt(d, dp + 1);
      WalkList(d, p, c, cp, used, n, false)
    else if d[dp] == ARRAY then
      if |d| - (dp + 1) < 2 then Fail(Invalid)
      else WalkList(d, dp + 3, c, cp, used, Two(d, dp + 1), true)
    else
      var (v, q) :- PackedAt(c, cp, FormOf(d[dp]));
      Ok((v, dp + 1, q))
  }

  function WalkList(d: seq<byte>, dp: nat, c: seq<byte>, cp: nat, used: nat, n: nat,
                    isArray: bool): (r: Result<(Value, nat, nat)>)
    requires dp <= |d| && cp <= |c| && used <= POOL
    ensures r.Ok? ==> dp <= r.value.1 <= |d| && cp <= r.value.2 <= |c| && used + Nodes(r.value.0) <= POOL
    decreases |d| - dp, n + 2
  {
    if n > ListLimit(isArray) || used + n > POOL then Fail(NoMem)
    else
      var (items, e, q) :- if isArray then WalkRepeat(d, dp, dp, c, cp, used + n, n, [])
                           else WalkFields(d, dp, c, cp, used + n, n, []);
      Ok((List(isArray, items), e, q))
  }

  function WalkFields(d: seq<byte>, dp: nat, c: seq<byte>, cp: nat, used: nat, n: nat,
                      acc: seq<Value>): (r: Result<(seq<Value>, nat, nat)>)
    requires dp <= |d| && cp <= |c| && used <= POOL
    ensures r.Ok? ==> dp <= r.value.1 <= |d| && cp <= r.value.2 <= |c|
    ensures r.Ok? ==> |r.value.0| == |acc| + n && used - AllNodes(acc) + AllNodes(r.value.0) <= POOL
    decreases |d| - dp, n + 1
  {
    if n == 0 then Ok((acc, dp, cp))
    else
      var (v, p, q) :- Walk(d, dp, c, cp, used);
      assert (acc + [v])[..|acc|] == acc;
      WalkFields(d, p, c, q, used + Nodes(v), n - 1, acc + [v])
  }

  function WalkRepeat(d: seq<byte>, elem: nat, dp: nat, c: seq<byte>, cp: nat, used: nat, n: nat,
                      acc: seq<Value>): (r: Result<(seq<Value>, nat, nat)>)
    requires elem <= dp <= |d| && cp <= |c| && used <= POOL
    ensures r.Ok? ==> elem <= r.value.1 <= |d| && cp <= r.value.2 <= |c|
    ensures r.Ok? ==> |r.value.0| == |acc| + n && used - AllNodes(acc) + AllNodes(r.value.0) <= POOL
    decreases |d| - elem, n + 1
  {
    if n == 0 then Ok((acc, dp, cp))
    else
      var (v, p, q) :- Walk(d, elem, c, cp, used);
      assert (acc + [v])[..|acc|] == acc;
      WalkRepeat(d, elem, p, c, q, used + Nodes(v), n - 1, acc + [v])
  }

  /** Whenever the walk of one element succeeds, the skip pass succeeds and ends in the same places. */
  lemma {:induction false} SkipAgrees(d: seq<byte>, dp: nat, c: seq<byte>, cp: nat, used: nat)
    requires dp <= |d| && cp <= |c| && used <= POOL && Walk(d, dp, c, cp, used).Ok?
    ensures var w := Walk(d, dp, c, cp, used).value; SkipDesc(d, dp, c, cp) == Ok((w.1, w.2))
    decreases |d| - dp, 0
  {
    if d[dp] == STRUCTURE {
      var (n, p) := LenAt(d, dp + 1).value;
      SkipFieldsAgrees(d, p, c, cp, used + n, n, []);
    } else if d[dp] == ARRAY {
      var n := Two(d, dp + 1);
      SkipRepeatAgrees(d, dp + 3, dp + 3, c, cp, used + n, n, []);
    } else {
      SkipPackedAgrees(c, cp, d[dp]);
    }
  }

  lemma {:induction false} SkipFieldsAgrees(d: seq<byte>, dp: nat, c: seq<byte>, cp: nat, used: nat, n: nat,
                                            acc: seq<Value>)
    requires dp <= |d| && cp <= |c| && used <= POOL && WalkFields(d, dp, c, cp, used, n, acc).Ok?
    ensures var w := WalkFields(d, dp, c, cp, used, n, acc).value; SkipFields(d, dp, c, cp, n) == Ok((w.1, w.2))
    decreases |d| - dp, n + 1
  {
    if n > 0 {
      SkipAgrees(d, dp, c, cp, used);
      var (v, p, q) := Walk(d, dp, c, cp, used).value;
      SkipFieldsAgrees(d, p, c, q, used + Nodes(v), n - 1, acc + [v]);
    }
  }

  lemma {:induction false} SkipRepeatAgrees(d: seq<byte>, elem: nat, dp: nat, c: seq<byte>, cp: nat, used: nat, n: nat,
                                            acc: seq<Value>)
    requires elem <= dp <= |d| && cp <= |c| && used <= POOL && WalkRepeat(d, elem, dp, c, cp, used, n, acc).Ok?
    ensures var w := WalkRepeat(d, elem, dp, c, cp, used, n, acc).value;
            SkipRepeat(d, elem, dp, c, cp, n) == Ok((w.1, w.2))
    decreases |d| - elem, n + 1
  {
    if n > 0 {
      SkipAgrees(d, elem, c, cp, used);
      var (v, p, q) := Walk(d, elem, c, cp, used).value;
      SkipRepeatAgrees(d, elem, p, c, q, used + Nodes(v), n - 1, acc + [v]);
    }
  }

  // ── The whole array ────────────────────────────────────────────────────────

  function Rows(d: seq<byte>, c: seq<byte>, cp: nat, used: nat, n: nat, acc: seq<Value>): (r: Result<seq<Value>>)
    requires cp <= |c| && used <= POOL
    ensures r.Ok? ==> |r.value| == |acc| + n && used - AllNodes(acc) + AllNodes(r.value) <= POOL
    decreases n
  {
    if n == 0 then Ok(acc)
    else
      var (v, _, q) :- Walk(d, 0, c, cp, used);
      assert (acc + [v])[..|acc|] == acc;
      Rows(d, c, q, used + Nodes(v), n - 1, acc + [v])
  }

  /** compact_decode_elements. */
  function Decode(d: seq<byte>, c: seq<byte>, used: nat): (r: Result<Value>)
    requires used <= POOL
    ensures r.Ok? ==> used + Nodes(r.value) <= POOL && r.value.List?
  {
    var n :- Count(d, c, 0, 0);
    if used + n > POOL then Fail(NoMem)
    else
      var items :- Rows(d, c, 0, used + n, n, []);
      Ok(List(true, items))
  }

  /** Where the description ends, and where the contents start and end. */
  function CompactHead(s: seq<byte>, pos: nat): (r: Result<(nat, nat, nat)>)
    requires pos <= |s|
    ensures r.Ok? ==> pos < r.value.0 <= r.value.1 <= r.value.2 <= |s|
  {
    var dEnd :- SkipType(s, pos, 0);
    var (n, p) :- LenAt(s, dEnd);
    if |s| - p < n then Fail(Invalid) else Ok((dEnd, p, p + n))
  }

  /** read_compact_array, after the tag. */
  function CompactAt(s: seq<byte>, pos: nat, used: nat): (r: Result<(Value, nat)>)
    requires pos <= |s| && used <= POOL
    ensures r.Ok? ==> pos < r.value.1 <= |s| && used + Nodes(r.value.0) <= POOL
  {
    var (dEnd, p, e) :- CompactHead(s, pos);
    var v :- Decode(s[pos..dEnd], s[p..e], used);
    Ok((v, e))
  }
}
