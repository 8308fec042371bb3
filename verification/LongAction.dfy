/**
 Long ACTION results (src/server/server.c:1023-1095, src/client/client.c:785-836): sent in blocks like a long GET, but
 with blocks as large as the server's PDU limit and with a transfer that ends when an acknowledgement is out of order.
 */
module LongAction {
  import opened Octets
  import opened LongGet
  import V = Values
  import P = ValueParse

  /** handle_action_resp_next as a function of the transfer. */
  function NextResult(p: Pending, m: Limit, acked: u32): (Response, Pending)
    requires p.active ==> p.next >= 1 && Offset(m, p.next - 1) <= |p.data|
  {
    var (r, p') := Next(p, m, acked);
    if r.Aborted? then (r, p.(active := false)) else (r, p')
  }

  /** The invariant of a long GET holds here too; an acknowledgement out of order ends the transfer. */
  lemma ResultKeeps(p: Pending, m: Limit, acked: u32)
    requires Inv(p, m)
    ensures var (r, p') := NextResult(p, m, acked);
            Inv(p', m) && p'.data == p.data && (r.Aborted? ==> p.active && !p'.active) &&
                (r.Block? ==> 1 <= |r.data| <= m)
  {
    NextKeeps(p, m, acked);
  }

  // ── Blocks and the room for them ───────────────────────────────────────────

  /** Block k, counted from 0. */
  function Slice(bytes: seq<byte>, m: Limit, k: nat): seq<byte>
    requires Offset(m, k) <= |bytes|
  {
    bytes[Offset(m, k)..Min(Offset(m, k) + m, |bytes|)]
  }

  /**
   A result is sent in blocks when it is longer than the PDU limit. All its blocks fit the 256 octets a block can hold
   if and only if the limit itself does.
   */
  lemma BlocksFitIff(bytes: seq<byte>, m: Limit)
    requires |bytes| > m
    ensures (forall k: nat :: Offset(m, k) < |bytes| ==> |Slice(bytes, m, k)| <= RAW_MAX) <==> m <= RAW_MAX
  {
    assert Offset(m, 0) == 0 && |Slice(bytes, m, 0)| == m;
  }

  /** With the default limit no such result fits: its first block has 1024 octets. */
  lemma DefaultLimitExample(bytes: seq<byte>)
    requires |bytes| > 1024
    ensures var (r, _) := NextResult(Pending(true, bytes, 1), 1024, 0); r.Block? && |r.data| == 1024 > RAW_MAX
  {
    assert Offset(1024, 0) == 0;
  }

  // ── The exchange ───────────────────────────────────────────────────────────

  class ActionServer {
    const limit: Limit
    var active: bool
    var data: seq<byte>
    var next: u32

    ghost function View(): Pending
      reads this
    {
      Pending(active, data, next)
    }

    constructor (limit: Limit)
      ensures this.limit == limit && !active
    {
      this.limit := limit;
      active, data, next := false, [], 0;
    }

    /** The block branch of send_action_invoke_result. */
    method Start(bytes: seq<byte>) returns (r: Response)
      requires limit < |bytes| < 0x1_0000_0000
      modifies this
      ensures Inv(View(), limit) && (r, View()) == NextResult(Pending(true, bytes, 1), limit, 0)
    {
      active, data, next := true, bytes, 1;
      r := ResultNext(0);
    }

    /** handle_action_resp_next. */
    method ResultNext(acked: u32) returns (r: Response)
      requires Inv(View(), limit)
      modifies this
      ensures Inv(View(), limit) && (r, View()) == NextResult(old(View()), limit, acked)
    {
      ResultKeeps(View(), limit, acked);
      if !active { return NoTransfer; }
      var number := next;
      if acked != 0 && (acked as int + 1) % 0x1_0000_0000 != number {
        active := false;
        return Aborted;
      }
      OffsetIsProduct(limit, number - 1);
      var start := (number - 1) * limit;
      var end := start + limit;
      if end > |data| { end := |data|; }
      var last := end >= |data|;
      r := Block(number, last, data[start..end]);
      next := (next as int + 1) % 0x1_0000_0000;
      if last { active := false; }
    }
  }

  /** The loop of client_action_finish_response against a server that starts a transfer whose blocks have room. */
  method FetchResult(s: ActionServer, bytes: seq<byte>) returns (r: Result<seq<byte>>, blocks: nat)
    requires s.limit < |bytes| < 0x1_0000_0000 && s.limit <= RAW_MAX
    modifies s
    ensures r == if |bytes| <= CLIENT_MAX then Ok(bytes) else Fail(NoMem)
    ensures r.Ok? ==> !s.active && blocks >= 1 && (blocks - 1) * s.limit < |bytes| <= blocks * s.limit
  {
    ghost var m := s.limit;
    GoingStarts(bytes, m);
    var resp := s.Start(bytes);
    var acc: seq<byte> := [];
    blocks := 0;
    while true
      invariant Inv(s.View(), m) && Going(bytes, m, blocks, acc, resp, s.View()) && |acc| <= CLIENT_MAX
      decreases |bytes| - |acc|
    {
      hide Next;
      if |acc| + |resp.data| > CLIENT_MAX { return Fail(NoMem), blocks; }
      if !resp.last { GoingOn(bytes, m, blocks, acc, resp, s.View()); }
      acc := acc + resp.data;
      blocks := blocks + 1;
      if resp.last { break; }
      resp := s.ResultNext(resp.number);
    }
    BlockCount(m, blocks, |bytes|);
    assert acc == bytes;
    r := Ok(acc);
  }

  /** End to end: a result in blocks arrives as the method returned it. */
  method ResultValue(s: ActionServer, v: V.Value) returns (r: Result<V.Value>)
    requires V.Within(v) && V.Nodes(v) <= V.POOL && s.limit < |V.Enc(v)| <= CLIENT_MAX && s.limit <= RAW_MAX
    modifies s
    ensures r == Ok(v) && !s.active
  {
    var bytes := V.Enc(v);
    var got, blocks := FetchResult(s, bytes);
    P.ValueRoundTrip(bytes, 0, 0, v);
    r := Ok(P.ValueAt(got.value, 0, 0).value.0);
  }
}
