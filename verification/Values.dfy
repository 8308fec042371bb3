/**
 COSEM data values and their A-XDR form (src/codec/serialize.c, src/codec/types.h): what the
 writer emits for a value, what the readers accept at a position, and the limits of the types.
 */
module Values {
  import opened Octets
  import opened Lengths

  const MAX_ARRAY: nat := 32
  const MAX_STRUCT: nat := 16
  const MAX_OCTETS: nat := 256
  const MAX_STRING: nat := 256
  const MAX_BITS: nat := 256
  const POOL: nat := 512

  const ARRAY: byte := 1
  const STRUCTURE: byte := 2
  const COMPACT: byte := 19

  /** Types of fixed width. A value is its bit pattern; a date is its five octets, a time its four. */
  datatype Kind = Int8 | Int16 | Int32 | Int64 | U8 | U16 | U32 | U64 | Enum | F32 | F64 | Bcd | Date | Time

  datatype TextKind = Octet | Visible | Utf8

  datatype Value =
    | Null
    | Bool(on: bool)
    | Fixed(kind: Kind, bits: nat)
    | DateTime(date: nat, time: nat)
    | Text(text: TextKind, octets: seq<byte>)
    | BitString(count: nat, packed: seq<byte>)
    | List(isArray: bool, items: seq<Value>)

  function KindTag(k: Kind): byte {
    match k
    case Int8 => 15 case Int16 => 16 case Int32 => 5 case Int64 => 20
    case U8 => 17 case U16 => 18 case U32 => 6 case U64 => 21
    case Enum => 22 case F32 => 23 case F64 => 24 case Bcd => 13 case Date => 26 case Time => 27
  }

  /** osp_axdr_type_size, for the fixed-width types. */
  function Size(k: Kind): (n: nat)
    ensures 1 <= n <= 8
  {
    match k
    case Int8 => 1 case Int16 => 2 case Int32 => 4 case Int64 => 8
    case U8 => 1 case U16 => 2 case U32 => 4 case U64 => 8
    case Enum => 1 case F32 => 4 case F64 => 8 case Bcd => 1 case Date => 5 case Time => 4
  }

  function TextTag(k: TextKind): byte {
    match k case Octet => 9 case Visible => 10 case Utf8 => 12
  }

  function TextLimit(k: TextKind): nat {
    match k case Octet => MAX_OCTETS case Visible => MAX_STRING - 1 case Utf8 => MAX_STRING - 1
  }

  /** What a tag octet announces. */
  datatype Form = NullForm | BoolForm | FixedForm(kind: Kind) | DateTimeForm | TextForm(text: TextKind)
    | BitsForm | ListForm(isArray: bool) | CompactForm | UnknownForm

  function FormOf(tag: byte): Form {
    match tag
    case 0 => NullForm case 1 => ListForm(true) case 2 => ListForm(false) case 3 => BoolForm case 4 => BitsForm
    case 5 => FixedForm(Int32) case 6 => FixedForm(U32) case 9 => TextForm(Octet) case 10 => TextForm(Visible)
    case 12 => TextForm(Utf8) case 13 => FixedForm(Bcd) case 15 => FixedForm(Int8) case 16 => FixedForm(Int16)
    case 17 => FixedForm(U8) case 18 => FixedForm(U16) case 19 => CompactForm case 20 => FixedForm(Int64)
    case 21 => FixedForm(U64) case 22 => FixedForm(Enum) case 23 => FixedForm(F32) case 24 => FixedForm(F64)
    case 25 => DateTimeForm case 26 => FixedForm(Date) case 27 => FixedForm(Time)
    case _ => UnknownForm
  }

  function Tag(v: Value): byte {
    match v
    case Null => 0
    case Bool(_) => 3
    case Fixed(k, _) => KindTag(k)
    case DateTime(_, _) => 25
    case Text(k, _) => TextTag(k)
    case BitString(_, _) => 4
    case List(isArray, _) => if isArray then ARRAY else STRUCTURE
  }

  function FormOfValue(v: Value): Form {
    match v
    case Null => NullForm
    case Bool(_) => BoolForm
    case Fixed(k, _) => FixedForm(k)
    case DateTime(_, _) => DateTimeForm
    case Text(k, _) => TextForm(k)
    case BitString(_, _) => BitsForm
    case List(isArray, _) => ListForm(isArray)
  }

  lemma FormOfTag(v: Value)
    ensures FormOf(Tag(v)) == FormOfValue(v)
  {
    match v
    case Fixed(k, _) => {}
    case Text(k, _) => {}
    case _ => {}
  }

  function ListLimit(isArray: bool): nat { if isArray then MAX_ARRAY else MAX_STRUCT }

  /** The limits of the value types. */
  predicate Within(v: Value) {
    match v
    case Null => true
    case Bool(_) => true
    case Fixed(k, bits) => bits < Pow256(Size(k))
    case DateTime(d, t) => d < Pow256(5) && t < Pow256(4)
    case Text(k, s) => |s| <= TextLimit(k)
    case BitString(n, s) => n <= MAX_BITS && |s| == (n + 7) / 8
    case List(isArray, items) => |items| <= ListLimit(isArray) && forall i :: 0 <= i < |items| ==> Within(items[i])
  }

  /** Slots a value takes in the read pool: one for every nested element. */
  function Nodes(v: Value): nat {
    match v
    case List(_, items) => |items| + AllNodes(items)
    case _ => 0
  }

  function AllNodes(items: seq<Value>): nat {
    if items == [] then 0 else AllNodes(items[..|items| - 1]) + Nodes(items[|items| - 1])
  }

  // ── Writing ────────────────────────────────────────────────────────────────

  function Enc(v: Value): (s: seq<byte>)
    ensures |s| >= 1
  {
    [Tag(v)] + if v.List? then ListLen(v.items) + EncAll(v.items) else LeafBody(v)
  }

  function LeafBody(v: Value): seq<byte> {
    if v.Text? then TextBytes(v.octets)
    else if v.BitString? then BitBytes(v.count, v.packed)
    else if Plain(v) then PlainBody(v)
    else []
  }

  predicate Plain(v: Value) { v.Null? || v.Bool? || v.Fixed? || v.DateTime? }

  function PlainBody(v: Value): seq<byte>
    requires Plain(v)
  {
    match v
    case Null => []
    case Bool(on) => [if on then 1 else 0]
    case Fixed(k, bits) => BigEndian(bits, Size(k))
    case DateTime(d, t) => DateTimeBytes(d, t)
  }

  function EncAll(items: seq<Value>): seq<byte> {
    if items == [] then [] else Enc(items[0]) + EncAll(items[1..])
  }

  function DateTimeBytes(d: nat, t: nat): (s: seq<byte>)
    ensures |s| == 12
  {
    BigEndian(d, 5) + BigEndian(t, 4) + [0xFF, 0xFF, 0x80]
  }

  /** Lengths are 32-bit on the wire; every value within the limits is far below that. */
  function Len32(n: nat): u32 { n % 0x1_0000_0000 }

  function ListLen(items: seq<Value>): seq<byte> { LenBytes(Len32(|items|)) }

  function TextBytes(s: seq<byte>): seq<byte> { LenBytes(Len32(|s|)) + s }

  /** Bit strings carry the number of unused bits of the last octet. */
  function BitBytes(n: nat, s: seq<byte>): seq<byte> {
    LenBytes(Len32(1 + |s|)) + [(8 * |s| - n) % 256] + s
  }

  // ── Reading what has no elements ───────────────────────────────────────────

  /** n octets at a position, if they are there. */
  function Take(s: seq<byte>, pos: nat, n: nat): (r: Result<(seq<byte>, nat)>)
    requires pos <= |s|
    ensures r.Ok? ==> |r.value.0| == n && pos + n == r.value.1 <= |s|
  {
    if |s| - pos < n then Fail(Invalid) else Ok((s[pos..pos + n], pos + n))
  }

  /** Null, boolean, fixed-width and date-time contents; shared by both readers. */
  function PlainAt(s: seq<byte>, pos: nat, form: Form): (r: Result<(Value, nat)>)
    requires pos <= |s|
    ensures r.Ok? ==> pos <= r.value.1 <= |s| && !r.value.0.List? && FormOfValue(r.value.0) == form
  {
    match form
    case NullForm => Ok((Null, pos))
    case BoolForm =>
      var (b, p) :- Take(s, pos, 1);
      Ok((Bool(b[0] != 0), p))
    case FixedForm(k) =>
      var (b, p) :- Take(s, pos, Size(k));
      Ok((Fixed(k, FromBigEndian(b)), p))
    case DateTimeForm =>
      var (d, p) :- Take(s, pos, 5);
      var (t, q) :- Take(s, p, 4);
      var (_, e) :- Take(s, q, 3);
      Ok((DateTime(FromBigEndian(d), FromBigEndian(t)), e))
    case _ => Fail(Unsupported)
  }

  /** A length and that many octets; `over` is the error for a length beyond the limit. */
  function TextAt(s: seq<byte>, pos: nat, limit: nat, over: Err): (r: Result<(seq<byte>, nat)>)
    requires pos <= |s|
    ensures r.Ok? ==> pos < r.value.1 <= |s|
  {
    var (n, p) :- LenAt(s, pos);
    TextBody(s, p, n, limit, over)
  }

  function TextBody(s: seq<byte>, p: nat, n: nat, limit: nat, over: Err): (r: Result<(seq<byte>, nat)>)
    requires p <= |s|
    ensures r.Ok? ==> r.value.1 == p + n <= |s|
  {
    if n > limit then Fail(over) else Take(s, p, n)
  }

  /** The bit string of a plain value: a count octet, then the octets. */
  function BitsAt(s: seq<byte>, pos: nat): (r: Result<(Value, nat)>)
    requires pos <= |s|
    ensures r.Ok? ==> pos < r.value.1 <= |s| && r.value.0.BitString?
  {
    var (n, p) :- LenAt(s, pos);
    BitsBody(s, p, n)
  }

  function BitsBody(s: seq<byte>, p: nat, n: nat): (r: Result<(Value, nat)>)
    requires p <= |s|
    ensures r.Ok? ==> r.value.1 == p + n <= |s| && r.value.0.BitString?
  {
    if n == 0 then Ok((BitString(0, []), p))
    else if |s| - p < n then Fail(Invalid)
    else if 8 * (n - 1) > MAX_BITS then Fail(NoMem)
    else Ok((BitString((8 * (n - 1) - s[p]) % 0x1_0000_0000, s[p + 1..p + n]), p + n))
  }

  /** Everything but lists and compact arrays. */
  function LeafAt(s: seq<byte>, pos: nat, form: Form): (r: Result<(Value, nat)>)
    requires pos <= |s|
    ensures r.Ok? ==> pos <= r.value.1 <= |s| && !r.value.0.List?
  {
    if form.TextForm? then
      var (text, p) :- TextAt(s, pos, TextLimit(form.text), NoMem);
      Ok((Text(form.text, text), p))
    else if form.BitsForm? then BitsAt(s, pos)
    else PlainAt(s, pos, form)
  }

  // ── Round trips of single fields ───────────────────────────────────────────

  /** x stands at position pos of s. */
  predicate At(s: seq<byte>, pos: nat, x: seq<byte>) {
    pos + |x| <= |s| && s[pos..pos + |x|] == x
  }

  lemma AtParts(s: seq<byte>, pos: nat, x: seq<byte>, y: seq<byte>)
    requires At(s, pos, x + y)
    ensures At(s, pos, x) && At(s, pos + |x|, y) && pos + |x| + |y| <= |s|
  {
    var z := s[pos..pos + |x + y|];
    assert s[pos..pos + |x|] == z[..|x|] == x;
    assert s[pos + |x|..pos + |x| + |y|] == z[|x|..] == y;
  }

  lemma TakeRoundTrip(s: seq<byte>, pos: nat, x: seq<byte>)
    requires At(s, pos, x)
    ensures Take(s, pos, |x|) == Ok((x, pos + |x|))
  {}

  lemma PlainRoundTrip(s: seq<byte>, pos: nat, v: Value)
    requires Within(v) && Plain(v) && At(s, pos, PlainBody(v))
    ensures PlainAt(s, pos, FormOfValue(v)) == Ok((v, pos + |PlainBody(v)|))
  {
    var x := PlainBody(v);
    match v
    case Null => {}
    case Bool(on) => TakeRoundTrip(s, pos, x);
    case Fixed(k, bits) => TakeRoundTrip(s, pos, x); FromBigEndianInverts(bits, Size(k));
    case DateTime(d, t) => DateTimeRoundTrip(s, pos, d, t);
  }

  /** Whatever is read is within the limits. */
  lemma PlainWithin(s: seq<byte>, pos: nat, form: Form)
    requires pos <= |s| && PlainAt(s, pos, form).Ok?
    ensures Within(PlainAt(s, pos, form).value.0)
  {
    hide FromBigEndian;
    var v := PlainAt(s, pos, form).value.0;
    if v.Fixed? {
      FromBigEndianBound(s[pos..pos + Size(v.kind)]);
    } else if v.DateTime? {
      FromBigEndianBound(s[pos..pos + 5]);
      FromBigEndianBound(s[pos + 5..pos + 9]);
    }
  }

  lemma DateTimeRoundTrip(s: seq<byte>, pos: nat, d: nat, t: nat)
    requires d < Pow256(5) && t < Pow256(4) && At(s, pos, DateTimeBytes(d, t))
    ensures PlainAt(s, pos, DateTimeForm) == Ok((DateTime(d, t), pos + 12))
  {
    var x, y, z: seq<byte> := BigEndian(d, 5), BigEndian(t, 4), [0xFF, 0xFF, 0x80];
    AtParts(s, pos, x + y, z);
    AtParts(s, pos, x, y);
    TakeRoundTrip(s, pos, x);
    TakeRoundTrip(s, pos + 5, y);
    FromBigEndianInverts(d, 5);
    FromBigEndianInverts(t, 4);
  }

  /** A length field, then something. */
  lemma LenThen(s: seq<byte>, pos: nat, n: nat, x: seq<byte>)
    requires n < 0x1_0000_0000 && At(s, pos, LenBytes(Len32(n)) + x)
    ensures LenAt(s, pos) == Ok((n, pos + |LenBytes(Len32(n))|)) && At(s, pos + |LenBytes(Len32(n))|, x)
    ensures pos + |LenBytes(Len32(n))| + |x| <= |s|
  {
    AtParts(s, pos, LenBytes(Len32(n)), x);
    LenRoundTrip(s, pos, Len32(n));
  }

  lemma TextRoundTrip(s: seq<byte>, pos: nat, text: seq<byte>, limit: nat, over: Err)
    requires |text| <= limit < 0x1_0000_0000 && At(s, pos, TextBytes(text))
    ensures TextAt(s, pos, limit, over) == Ok((text, pos + |TextBytes(text)|))
  {
    hide LenAt, LenBytes;
    LenThen(s, pos, |text|, text);
  }

  lemma BitsBodyRoundTrip(s: seq<byte>, p: nat, n: nat, packed: seq<byte>)
    requires n <= MAX_BITS && |packed| == (n + 7) / 8 && At(s, p, [(8 * |packed| - n) % 256] + packed)
    ensures BitsBody(s, p, 1 + |packed|) == Ok((BitString(n, packed), p + 1 + |packed|))
  {
    var unused: seq<byte> := [(8 * |packed| - n) % 256];
    AtParts(s, p, unused, packed);
    assert s[p] == s[p..p + 1][0] == unused[0];
  }

  lemma BitsRoundTrip(s: seq<byte>, pos: nat, n: nat, packed: seq<byte>)
    requires n <= MAX_BITS && |packed| == (n + 7) / 8 && At(s, pos, BitBytes(n, packed))
    ensures BitsAt(s, pos) == Ok((BitString(n, packed), pos + |BitBytes(n, packed)|))
  {
    hide LenAt, LenBytes, At, BitsBody;
    var head := LenBytes(Len32(1 + |packed|));
    ConcatAssoc(head, [(8 * |packed| - n) % 256], packed);
    LenThen(s, pos, 1 + |packed|, [(8 * |packed| - n) % 256] + packed);
    BitsBodyRoundTrip(s, pos + |head|, n, packed);
  }

  /** Whatever is not a list comes back as it was. */
  lemma LeafRoundTrip(s: seq<byte>, pos: nat, v: Value)
    requires Within(v) && !v.List? && At(s, pos, LeafBody(v))
    ensures LeafAt(s, pos, FormOfValue(v)) == Ok((v, pos + |LeafBody(v)|))
  {
    hide At, TextAt, BitsAt, PlainAt, TextBytes, BitBytes, PlainBody;
    if v.Text? {
      TextRoundTrip(s, pos, v.octets, TextLimit(v.text), NoMem);
    } else if v.BitString? {
      BitsRoundTrip(s, pos, v.count, v.packed);
    } else {
      PlainRoundTrip(s, pos, v);
    }
  }
}
