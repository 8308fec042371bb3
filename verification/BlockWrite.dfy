/**
 Values sent to the server in blocks: SET with data blocks and ACTION with parameter blocks
 (src/client/client.c:555-614, 725-783, src/server/server.c:923-983, 1097-1160). Both sides run the same scheme; T is
 the attribute or method addressed.
 */
module BlockWrite {
  import opened Octets
  import V = Values
  import P = ValueParse

  const BLOCK_SIZE: nat := 64
  const PENDING_MAX: nat := 32768
  const CLIENT_MAX: nat := 4096

  datatype Block = Block(number: u32, last: bool, data: seq<byte>)

  /** The first request names the target; later ones only carry blocks. */
  datatype Request<T> = First(target: T, first: Block) | More(more: Block)

  function BlockOf<T>(q: Request<T>): Block { match q case First(_, b) => b case More(b) => b }

  /** What the dispatcher says of a target before it calls it. */
  datatype Gate = Open | Denied | Missing

  /** The objects behind the server: the dispatcher's gate, and whether an object takes a value it is called with. */
  datatype Objects<!T> = Objects(gate: T -> Gate, takes: (T, V.Value) -> bool)

  /** Results of a whole transfer: type mismatch, scope of access violated, object undefined, success. */
  datatype Outcome = NoValue | Refused | Undefined | Success

  /** Answers: a wrong moment, too much data, block taken, or the outcome of the whole. */
  datatype Answer = NotExpected | TooLong | Taken(number: u32) | Done(number: u32, outcome: Outcome)

  /** One call of the object's set or invoke. */
  datatype Call<T> = Call(target: T, value: V.Value)

  /** The pending transfer of the server. */
  datatype Pending<T> = Idle | Collecting(target: T, buffer: seq<byte>)

  /** What the buffered octets denote, if they are a value. */
  function Meaning(bytes: seq<byte>): Result<V.Value> {
    match P.ValueAt(bytes, 0, 0)
    case Ok((v, _)) => Ok(v)
    case Fail(e) => Fail(e)
  }

  /** The dispatcher with a whole value, or with octets that denote none: the outcome, and the call it made. */
  function Dispatched<T>(o: Objects<T>, target: T, bytes: seq<byte>): (Outcome, seq<Call<T>>) {
    match Meaning(bytes)
    case Fail(_) => (NoValue, [])
    case Ok(v) =>
      match o.gate(target)
      case Denied => (Refused, [])
      case Missing => (Undefined, [])
      case Open => (if o.takes(target, v) then Success else Undefined, [Call(target, v)])
  }

  /** accumulate_set_block and accumulate_action_param_block. */
  function Collect<T>(o: Objects<T>, p: Pending<T>, b: Block): (Answer, Pending<T>, seq<Call<T>>) {
    match p
    case Idle => (NotExpected, Idle, [])
    case Collecting(target, buffer) =>
      if |b.data| + |buffer| > PENDING_MAX then (TooLong, Idle, [])
      else if !b.last then (Taken(b.number), Collecting(target, buffer + b.data), [])
      else
        var (outcome, made) := Dispatched(o, target, buffer + b.data);
        (Done(b.number, outcome), Idle, made)
  }

  /** The block branches of handle_set and handle_action. */
  function Step<T>(o: Objects<T>, p: Pending<T>, q: Request<T>): (Answer, Pending<T>, seq<Call<T>>) {
    match q
    case First(target, b) => Collect(o, Collecting(target, []), b)
    case More(b) => Collect(o, p, b)
  }

  /** The server over a whole run of requests: the pending transfer and all calls made. */
  function Run<T>(o: Objects<T>, qs: seq<Request<T>>): (Pending<T>, seq<Call<T>>) {
    if qs == [] then (Idle, [])
    else
      var (p, calls) := Run(o, qs[..|qs| - 1]);
      var (_, p', more) := Step(o, p, qs[|qs| - 1]);
      (p', calls + more)
  }

  // ── Every run ──────────────────────────────────────────────────────────────

  /** The octets of all blocks since the latest first one, and its target. */
  function Since<T>(qs: seq<Request<T>>): Pending<T> {
    if qs == [] then Idle
    else
      match qs[|qs| - 1]
      case First(target, b) => Collecting(target, b.data)
      case More(b) =>
        match Since(qs[..|qs| - 1])
        case Idle => Idle
        case Collecting(target, bytes) => Collecting(target, bytes + b.data)
  }

  /** What is pending is exactly what arrived since the latest first block. */
  lemma {:induction false} PendingIsSince<T>(o: Objects<T>, qs: seq<Request<T>>)
    ensures Run(o, qs).0.Collecting? ==> Run(o, qs).0 == Since(qs)
    decreases |qs|
  {
    hide Dispatched;
    if qs != [] {
      PendingIsSince(o, qs[..|qs| - 1]);
      if qs[|qs| - 1].First? { assert [] + qs[|qs| - 1].first.data == qs[|qs| - 1].first.data; }
    }
  }

  /**
   In every run: a request makes a call only if it carries a last block, at most one, and then through an open gate,
   with the target of the latest first block and the value that all octets since it denote.
   */
  lemma CallsOnlyAtTheEnd<T>(o: Objects<T>, qs: seq<Request<T>>)
    requires qs != []
    ensures var before, after := Run(o, qs[..|qs| - 1]).1, Run(o, qs).1;
            && before <= after && |after| <= |before| + 1
            && (|after| == |before| + 1 ==>
                  && BlockOf(qs[|qs| - 1]).last && Since(qs).Collecting? && o.gate(Since(qs).target).Open?
                  && Meaning(Since(qs).buffer) == Ok(after[|before|].value)
                  && after[|before|].target == Since(qs).target)
  {
    hide Meaning;
    PendingIsSince(o, qs[..|qs| - 1]);
    var q := qs[|qs| - 1];
    if q.First? { assert [] + q.first.data == q.first.data; }
  }

  // ── The client ─────────────────────────────────────────────────────────────

  /** The i-th chunk of a value's octets. */
  function Chunk(bytes: seq<byte>, i: nat): (c: seq<byte>)
    requires BLOCK_SIZE * i <= |bytes|
    ensures |c| <= BLOCK_SIZE
  {
    bytes[BLOCK_SIZE * i..Min(BLOCK_SIZE * i + BLOCK_SIZE, |bytes|)]
  }

  function ChunkCount(n: nat): nat { (n + BLOCK_SIZE - 1) / BLOCK_SIZE }

  /** Request i of the transfer. */
  function NthRequest<T>(target: T, bytes: seq<byte>, i: nat): Request<T>
    requires BLOCK_SIZE * i <= |bytes| && i < 0xFFFF_FFFF
  {
    var b := Block(i + 1, BLOCK_SIZE * i + BLOCK_SIZE >= |bytes|, Chunk(bytes, i));
    if i == 0 then First(target, b) else More(b)
  }

  ghost predicate IsTransfer<T>(qs: seq<Request<T>>, target: T, bytes: seq<byte>) {
    && |qs| <= ChunkCount(|bytes|) < 0xFFFF_FFFF
    && forall i :: 0 <= i < |qs| ==> qs[i] == NthRequest(target, bytes, i)
  }

  /** While the transfer is cut short nothing is called; the last block makes the one call. */
  lemma {:induction false} TransferCalls<T>(o: Objects<T>, qs: seq<Request<T>>, target: T, bytes: seq<byte>)
    requires IsTransfer(qs, target, bytes) && 0 < |bytes| <= PENDING_MAX
    ensures |qs| < ChunkCount(|bytes|) ==>
              Run(o, qs) == (if qs == [] then Idle else Collecting(target, bytes[..BLOCK_SIZE * |qs|]), [])
    ensures |qs| == ChunkCount(|bytes|) ==> Run(o, qs) == (Idle, Dispatched(o, target, bytes).1)
    decreases |qs|
  {
    hide Dispatched;
    if qs != [] {
      var k := |qs| - 1;
      TransferCalls(o, qs[..k], target, bytes);
      LastStep(o, qs, target, bytes);
      var (_, p, made) := Step(o, Run(o, qs[..k]).0, qs[k]);
      assert [] + made == made;
      assert Run(o, qs) == (p, [] + made);
    }
  }

  /** The last request so far meets what its predecessors left pending. */
  lemma LastStep<T>(o: Objects<T>, qs: seq<Request<T>>, target: T, bytes: seq<byte>)
    requires qs != [] && IsTransfer(qs, target, bytes) && 0 < |bytes| <= PENDING_MAX
    requires var k := |qs| - 1;
             k > 0 ==> BLOCK_SIZE * k <= |bytes| && Run(o, qs[..k]).0 == Collecting(target, bytes[..BLOCK_SIZE * k])
    ensures BLOCK_SIZE * (|qs| - 1) < |bytes|
    ensures var k := |qs| - 1;
            Step(o, Run(o, qs[..k]).0, qs[k]) ==
            if |qs| < ChunkCount(|bytes|) then (Taken(k + 1), Collecting(target, bytes[..BLOCK_SIZE * |qs|]), [])
            else (Done(k + 1, Dispatched(o, target, bytes).0), Idle, Dispatched(o, target, bytes).1)
  {
    hide Dispatched;
    var k := |qs| - 1;
    assert qs[k] == NthRequest(target, bytes, k);
    ChunkJoins(bytes, k);
    var before: seq<byte> := bytes[..BLOCK_SIZE * k];
    assert k == 0 ==> before == [];
    assert Step(o, Run(o, qs[..k]).0, qs[k]) == Collect(o, Collecting(target, before), BlockOf(qs[k]));
  }

  lemma ChunkJoins(bytes: seq<byte>, k: nat)
    requires k < ChunkCount(|bytes|)
    ensures BLOCK_SIZE * k < |bytes|
    ensures var last := BLOCK_SIZE * k + BLOCK_SIZE >= |bytes|;
            (last <==> k + 1 == ChunkCount(|bytes|)) &&
            bytes[..BLOCK_SIZE * k] + Chunk(bytes, k) == if last then bytes else bytes[..BLOCK_SIZE * (k + 1)]
  {}

  class BlockServer<!T> {
    const objects: Objects<T>
    var pending: Pending<T>
    ghost var calls: seq<Call<T>>

    constructor (objects: Objects<T>)
      ensures this.objects == objects && pending.Idle? && calls == []
    {
      this.objects := objects;
      pending := Idle;
      calls := [];
    }

    /** handle_set and handle_action for requests with blocks; `called` is the call made, if any. */
    method Handle(q: Request<T>) returns (a: Answer, called: seq<Call<T>>)
      modifies this
      ensures (a, pending, called) == Step(objects, old(pending), q) && calls == old(calls) + called
    {
      hide Meaning;
      if q.First? { pending := Collecting(q.target, []); }
      var b := BlockOf(q);
      called := [];
      if pending.Idle? {
        a := NotExpected;
      } else if |b.data| + |pending.buffer| > PENDING_MAX {
        a, pending := TooLong, Idle;
      } else {
        var target, buffer := pending.target, pending.buffer + b.data;
        if !b.last {
          a, pending := Taken(b.number), Collecting(target, buffer);
        } else {
          pending := Idle;
          var outcome;
          outcome, called := Deliver(target, buffer);
          a := Done(b.number, outcome);
        }
      }
      calls := calls + called;
    }

    /** Decode, then the dispatcher: its gate, the object, and the result code. */
    method Deliver(target: T, buffer: seq<byte>) returns (outcome: Outcome, called: seq<Call<T>>)
      ensures (outcome, called) == Dispatched(objects, target, buffer)
    {
      hide Meaning;
      var v := Meaning(buffer);
      if v.Fail? { return NoValue, []; }
      var gate := objects.gate(target);
      if gate.Denied? { return Refused, []; }
      if gate.Missing? { return Undefined, []; }
      outcome := if objects.takes(target, v.value) then Success else Undefined;
      called := [Call(target, v.value)];
    }
  }

  lemma RunMore<T>(o: Objects<T>, qs: seq<Request<T>>, q: Request<T>)
    ensures var (p, calls) := Run(o, qs);
            Run(o, qs + [q]) == (Step(o, p, q).1, calls + Step(o, p, q).2)
  {
    assert (qs + [q])[..|qs|] == qs;
  }

  lemma RunNothing<T>(o: Objects<T>)
    ensures Run(o, []) == (Idle, [])
  {}

  /** A first block starts over, whatever was pending. */
  lemma FirstForgets<T>(o: Objects<T>, p: Pending<T>, q: Request<T>)
    ensures q.First? ==> Step(o, p, q) == Step(o, Idle, q)
  {}

  /**
   client_set_blocks and client_action_param_blocks against the server. After the last block the dispatcher is asked
   once, with the value of all octets, if they denote one; the client learns success exactly when the object took it.
   */
  method SendBlocks<T>(s: BlockServer<T>, target: T, bytes: seq<byte>) returns (ok: bool)
    requires 0 < |bytes| <= CLIENT_MAX
    modifies s
    ensures ok <==> Dispatched(s.objects, target, bytes).0.Success?
    ensures s.pending.Idle? && s.calls == old(s.calls) + Dispatched(s.objects, target, bytes).1
  {
    hide Dispatched, Run, Step;
    ghost var o := s.objects;
    var offset := 0;
    var number := 1;
    ghost var qs: seq<Request<T>> := [];
    RunNothing(o);
    ok := false;
    while offset < |bytes|
      invariant offset == BLOCK_SIZE * |qs| && number == |qs| + 1 && IsTransfer(qs, target, bytes)
      invariant |qs| < ChunkCount(|bytes|) && s.calls == old(s.calls)
      invariant Run(o, qs).0 == if qs == [] then Idle else s.pending
      decreases |bytes| - offset
    {
      ghost var k := |qs|;
      ChunkJoins(bytes, k);
      var chunk := |bytes| - offset;
      if chunk > BLOCK_SIZE { chunk := BLOCK_SIZE; }
      var last := offset + chunk >= |bytes|;
      var b := Block(number, last, bytes[offset..offset + chunk]);
      var q := if offset == 0 then First(target, b) else More(b);
      assert q == NthRequest(target, bytes, k);
      ghost var more := qs + [q];
      assert IsTransfer(more, target, bytes) && more[..k] == qs;
      FirstForgets(o, s.pending, q);
      RunMore(o, qs, q);
      TransferCalls(o, qs, target, bytes);
      LastStep(o, more, target, bytes);
      var a, called := s.Handle(q);
      qs := more;
      if last { return a.Done? && a.outcome.Success?; }
      assert s.calls + [] == s.calls;
      offset := offset + chunk;
      number := number + 1;
    }
  }

  /** End to end: a value of 1 to 4096 octets reaches the object unchanged, in one call, if the gate is open. */
  method SendValue<T>(s: BlockServer<T>, target: T, v: V.Value) returns (ok: bool)
    requires V.Within(v) && V.Nodes(v) <= V.POOL && |V.Enc(v)| <= CLIENT_MAX
    modifies s
    ensures ok <==> s.objects.gate(target).Open? && s.objects.takes(target, v)
    ensures s.calls == old(s.calls) + if s.objects.gate(target).Open? then [Call(target, v)] else []
  {
    var bytes := V.Enc(v);
    P.ValueRoundTrip(bytes, 0, 0, v);
    ok := SendBlocks(s, target, bytes);
  }
}
