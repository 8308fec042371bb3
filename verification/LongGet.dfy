/**
 Long GET (src/server/server.c:753-818, src/client/client.c:411-450): the server's pending transfer, the client's
 reassembly loop, and the exchange between them.
 */
module LongGet {
  import opened Octets
  import V = Values
  import P = ValueParse

  /** Payload limit of one block, fixed during a transfer. */
  type Limit = m: nat | m >= 1 witness 1

  const RAW_MAX: nat := 256    // octets of data a block can hold

  /** server_send_payload_max: `info` is the frame limit while an HDLC link is up. */
  function PayloadMax(maxPdu: u32, info: Option<u32>): (m: Limit)
    ensures m <= RAW_MAX
  {
    var pdu := if maxPdu > 0 then maxPdu else 1024;
    var frame := match info
      case None => pdu
      case Some(n) => var i := if n == 0 || n > 1024 then 1024 else n; if i > 16 then i - 16 else 1;
    Min(Min(pdu, frame), RAW_MAX)
  }

  datatype Option<+T> = None | Some(value: T)

  const CLIENT_MAX: nat := 4096

  datatype Response = Block(number: u32, last: bool, data: seq<byte>) | NoTransfer | Aborted

  /** The first k blocks end here. */
  function Offset(m: Limit, k: nat): nat { if k == 0 then 0 else Offset(m, k - 1) + m }

  lemma {:induction false} OffsetIsProduct(m: Limit, k: nat)
    ensures Offset(m, k) == k * m
  {
    if k > 0 { OffsetIsProduct(m, k - 1); }
  }

  lemma {:induction false} OffsetGrows(m: Limit, j: nat, k: nat)
    requires j <= k
    ensures Offset(m, j) + (k - j) <= Offset(m, k)
    decreases k
  {
    if j < k { OffsetGrows(m, j, k - 1); }
  }

  /** osp_server_pending_t of a GET. */
  datatype Pending = Pending(active: bool, data: seq<byte>, next: u32)

  /** What an active transfer has still to send begins inside the data. */
  ghost predicate Inv(p: Pending, m: Limit) {
    p.active ==> p.next >= 1 && Offset(m, p.next - 1) < |p.data| < 0x1_0000_0000
  }

  /** handle_get_next as a function of the transfer. */
  function Next(p: Pending, m: Limit, acked: u32): (Response, Pending)
    requires p.active ==> p.next >= 1 && Offset(m, p.next - 1) <= |p.data|
  {
    if !p.active then (NoTransfer, p)
    else if acked != 0 && (acked + 1) % 0x1_0000_0000 != p.next then (Aborted, p)
    else
      var start := Offset(m, p.next - 1);
      var end := if start + m > |p.data| then |p.data| else start + m;
      var last := end >= |p.data|;
      (Block(p.next, last, p.data[start..end]), Pending(!last, p.data, (p.next + 1) % 0x1_0000_0000))
  }

  /** The invariant holds after every request; an out-of-sequence one changes nothing. */
  lemma NextKeeps(p: Pending, m: Limit, acked: u32)
    requires Inv(p, m)
    ensures var (r, p') := Next(p, m, acked);
            Inv(p', m) && p'.data == p.data && (!r.Block? ==> p' == p) && (r.Block? ==> 1 <= |r.data| <= m && p.active)
  {
    if p.active { OffsetGrows(m, 0, p.next - 1); }
  }

  class GetServer {
    const limit: Limit
    var active: bool
    var data: seq<byte>
    var next: u32

    ghost function View(): Pending
      reads this
    {
      Pending(active, data, next)
    }

    constructor (limit: Limit)
      ensures this.limit == limit && !active
    {
      this.limit := limit;
      active, data, next := false, [], 0;
    }

    /** start_get_blocks. */
    method Start(bytes: seq<byte>) returns (r: Response)
      requires 0 < |bytes| < 0x1_0000_0000
      modifies this
      ensures Inv(View(), limit) && (r, View()) == Next(Pending(true, bytes, 1), limit, 0)
    {
      active, data, next := true, bytes, 1;
      r := GetNext(0);
    }

    /** handle_get_next. */
    method GetNext(acked: u32) returns (r: Response)
      requires Inv(View(), limit)
      modifies this
      ensures Inv(View(), limit) && (r, View()) == Next(old(View()), limit, acked)
    {
      NextKeeps(View(), limit, acked);
      if !active { return NoTransfer; }
      var number := next;
      if acked != 0 && (acked as int + 1) % 0x1_0000_0000 != number { return Aborted; }
      OffsetIsProduct(limit, number - 1);
      var start := (number - 1) * limit;
      var end := start + limit;
      if end > |data| { end := |data|; }
      var last := end >= |data|;
      r := Block(number, last, data[start..end]);
      next := (next as int + 1) % 0x1_0000_0000;
      if last { active := false; }
    }
  }

  /**
   In the middle of an exchange: k blocks are in, block k + 1 is at hand, and the server waits for its
   acknowledgement.
   */
  ghost predicate Going(bytes: seq<byte>, m: Limit, k: nat, acc: seq<byte>, r: Response, p: Pending) {
    && |acc| == Offset(m, k) < |bytes| && acc == bytes[..|acc|] && k + 2 < 0x1_0000_0000
    && r == Block(k + 1, |acc| + m >= |bytes|, bytes[|acc|..Min(|acc| + m, |bytes|)])
    && p == Pending(!r.last, bytes, k + 2)
  }

  lemma GoingStarts(bytes: seq<byte>, m: Limit)
    requires 0 < |bytes| < 0x1_0000_0000
    ensures var (r, p) := Next(Pending(true, bytes, 1), m, 0); Going(bytes, m, 0, [], r, p)
  {
    assert Offset(m, 0) == 0;
  }

  lemma GoingOn(bytes: seq<byte>, m: Limit, k: nat, acc: seq<byte>, r: Response, p: Pending)
    requires Going(bytes, m, k, acc, r, p) && !r.last && |acc + r.data| <= CLIENT_MAX
    ensures var (r', p') := Next(p, m, r.number); Going(bytes, m, k + 1, acc + r.data, r', p')
  {
    OffsetGrows(m, 0, k + 1);
    assert Offset(m, k + 1) == Offset(m, k) + m;
    assert acc + r.data == bytes[..|acc| + m];
  }

  /** The reassembly loop of osp_client_get against a server that starts a transfer. */
  method Reassemble(s: GetServer, bytes: seq<byte>) returns (r: Result<seq<byte>>, blocks: nat)
    requires 0 < |bytes| < 0x1_0000_0000
    modifies s
    ensures r == if |bytes| <= CLIENT_MAX then Ok(bytes) else Fail(NoMem)
    ensures r.Ok? ==> !s.active && blocks >= 1 && (blocks - 1) * s.limit < |bytes| <= blocks * s.limit
  {
    hide Next;
    ghost var m := s.limit;
    GoingStarts(bytes, m);
    var resp := s.Start(bytes);
    var acc: seq<byte> := [];
    blocks := 0;
    while true
      invariant Inv(s.View(), m) && Going(bytes, m, blocks, acc, resp, s.View()) && |acc| <= CLIENT_MAX
      decreases |bytes| - |acc|
    {
      if |acc| + |resp.data| > CLIENT_MAX { return Fail(NoMem), blocks; }
      if !resp.last { GoingOn(bytes, m, blocks, acc, resp, s.View()); }
      acc := acc + resp.data;
      blocks := blocks + 1;
      if resp.last { break; }
      resp := s.GetNext(resp.number);
    }
    BlockCount(m, blocks, |bytes|);
    assert acc == bytes;
    r := Ok(acc);
  }

  lemma BlockCount(m: Limit, blocks: nat, n: nat)
    requires blocks >= 1 && Offset(m, blocks - 1) < n <= Offset(m, blocks - 1) + m
    ensures (blocks - 1) * m < n <= blocks * m
  {
    OffsetIsProduct(m, blocks);
    OffsetIsProduct(m, blocks - 1);
  }

  /** End to end: a value whose encoding fits the client arrives as it was sent. */
  method GetValue(s: GetServer, v: V.Value) returns (r: Result<V.Value>)
    requires V.Within(v) && V.Nodes(v) <= V.POOL && |V.Enc(v)| <= CLIENT_MAX
    modifies s
    ensures r == Ok(v) && !s.active
  {
    var bytes := V.Enc(v);
    var got, blocks := Reassemble(s, bytes);
    P.ValueRoundTrip(bytes, 0, 0, v);
    r := Ok(P.ValueAt(got.value, 0, 0).value.0);
  }
}
