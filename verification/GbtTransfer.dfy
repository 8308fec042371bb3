/**
 The general block transfer protocol (src/service/gbt.c): the sequential sender, the
 bidirectional sender that resumes from the peer's acknowledgement, and the receiver.
 The transport is a link that delivers any sequence of frames and errors.
 */
module GbtTransfer {
  import opened Octets
  import Lengths
  import opened Gbt

  // ── The link ───────────────────────────────────────────────────────────────

  /** One receive call: a frame (with the stale contents of the block it lands in) or an error. */
  datatype Event = Frame(octets: seq<byte>, stale: seq<byte>) | NoFrame(err: Err)

  ghost predicate ValidEvents(evs: seq<Event>) {
    forall e :: e in evs && e.Frame? ==> |e.stale| == MAX_OCTET
  }

  function Received(e: Event): (r: Result<Block>)
    requires e.Frame? ==> |e.stale| == MAX_OCTET
  {
    match e
    case NoFrame(err) => Fail(err)
    case Frame(o, stale) => Decode(o, stale)
  }

  class Link {
    var sent: seq<seq<byte>>
    var inbox: seq<Event>
    const accepts: nat -> bool    // does the transport take the n-th frame?

    constructor (accepts: nat -> bool, inbox: seq<Event>)
      ensures sent == [] && this.inbox == inbox && this.accepts == accepts
    {
      this.accepts := accepts;
      this.inbox := inbox;
      sent := [];
    }

    method Send(frame: seq<byte>) returns (r: Result<()>)
      modifies this`sent
      ensures r == if accepts(|old(sent)|) then Ok(()) else Fail(Io)
      ensures sent == if r.Ok? then old(sent) + [frame] else old(sent)
    {
      if !accepts(|sent|) { return Fail(Io); }
      sent := sent + [frame];
      return Ok(());
    }

    method Recv() returns (r: Result<Block>)
      requires ValidEvents(inbox)
      modifies this`inbox
      ensures ValidEvents(inbox)
      ensures if old(inbox) == [] then r == Fail(Timeout) && inbox == []
              else r == Received(old(inbox)[0]) && inbox == old(inbox)[1..]
    {
      if inbox == [] { return Fail(Timeout); }
      var e := inbox[0];
      inbox := inbox[1..];
      if e.NoFrame? { return Fail(e.err); }
      var mem := new byte[|e.octets|](i requires 0 <= i < |e.octets| => e.octets[i]);
      var buf := new Buf.Received(mem);
      assert mem[..] == e.octets;
      r := DecodeFrame(buf, e.stale);
      assert buf.written == e.octets;
    }

    /** gbt_send_block: encode into a scratch of `room` octets, then hand over to the transport. */
    method SendBlock(b: Block, room: nat) returns (r: Result<()>)
      modifies this`sent
      ensures r == if |Header(b)| > room then Fail(Invalid)
                   else if accepts(|old(sent)|) then Ok(()) else Fail(Io)
      ensures sent == if r.Ok? then old(sent) + [Gbt.Sent(b, room)] else old(sent)
    {
      var mem := new byte[room];
      var buf := new Buf(mem);
      var ok := Encode(buf, b);
      if !ok { return Fail(Invalid); }
      assert buf.written == [] + Gbt.Sent(b, room) == Gbt.Sent(b, room);
      r := Send(buf.mem[..buf.wr]);
    }
  }

  // ── Sender ─────────────────────────────────────────────────────────────────

  datatype Mode = Sequential | Bidirectional

  datatype Cfg = Cfg(apdu: seq<byte>, payload: nat, window: nat, streaming: bool, mode: Mode)

  predicate ValidCfg(c: Cfg) {
    && 1 <= |c.apdu| <= MAX_APDU
    && 1 <= c.payload <= MAX_OCTET
    && c.window < WINDOW_LIMIT
  }

  /** Where block k starts: k - 1 payloads from the beginning. */
  function Start(payload: nat, k: nat): nat {
    if k <= 1 then 0 else Start(payload, k - 1) + payload
  }

  lemma {:induction false} StartIsProduct(payload: nat, k: nat)
    requires k >= 1
    ensures Start(payload, k) == (k - 1) * payload
  {
    if k > 1 { StartIsProduct(payload, k - 1); }
  }

  lemma {:induction false} StartMonotone(payload: nat, j: nat, k: nat)
    requires 1 <= j <= k
    ensures Start(payload, j) <= Start(payload, k)
    ensures j < k ==> Start(payload, j) + payload <= Start(payload, k)
    ensures payload >= 1 ==> k - j <= Start(payload, k) - Start(payload, j)
  {
    if j < k { StartMonotone(payload, j, k - 1); }
  }

  /** Block number k exists: it starts inside the APDU. */
  predicate IsIndex(c: Cfg, k: int) {
    1 <= k && Start(c.payload, k) < |c.apdu|
  }

  /** Block k of the transfer: it carries slice k and is last exactly when the slice reaches the end. */
  function NthBlock(c: Cfg, k: nat): (b: Block)
    requires ValidCfg(c) && IsIndex(c, k)
  {
    IndexBound(c, k);
    var from := Start(c.payload, k);
    var to := Min(from + c.payload, |c.apdu|);
    Block(to == |c.apdu|, c.streaming, c.window, k, 0, c.apdu[from..to])
  }

  /** Block numbers stay far below 2^16, however the transfer proceeds. */
  lemma IndexBound(c: Cfg, k: nat)
    requires ValidCfg(c) && IsIndex(c, k)
    ensures k <= |c.apdu| <= MAX_APDU
  {
    StartMonotone(c.payload, 1, k);
  }

  datatype Tx =
    | Sending(offset: nat, number: nat, inWindow: nat)
    | Waiting(offset: nat, number: nat)
    | TxDone
    | TxFailed(err: Err)

  const START: Tx := Sending(0, 1, 0)

  predicate TxInv(c: Cfg, tx: Tx) {
    match tx
    case Sending(offset, number, w) => IsIndex(c, number) && offset == Start(c.payload, number)
    case Waiting(offset, number) => IsIndex(c, number) && number >= 2 && offset == Start(c.payload, number)
    case _ => true
  }

  /** The state after the block at `tx` has gone out. */
  function AfterBlock(c: Cfg, tx: Tx): (next: Tx)
    requires ValidCfg(c) && TxInv(c, tx) && tx.Sending?
    ensures TxInv(c, next)
  {
    var chunk := Min(|c.apdu| - tx.offset, c.payload);
    if tx.offset + chunk >= |c.apdu| then TxDone
    else if c.window > 0 && tx.inWindow + 1 >= c.window then Waiting(tx.offset + chunk, tx.number + 1)
    else Sending(tx.offset + chunk, tx.number + 1, tx.inWindow + 1)
  }

  /** Retransmission from the first unconfirmed block. */
  function Resume(c: Cfg, tx: Tx, ack: u16): (next: Tx)
    requires ValidCfg(c) && TxInv(c, tx) && tx.Waiting?
    ensures TxInv(c, next)
  {
    if ack + 1 < tx.number then
      StartMonotone(c.payload, ack + 1, tx.number);
      var from := Start(c.payload, ack + 1);
      if from >= |c.apdu| then START else Sending(from, ack + 1, 0)
    else Sending(tx.offset, tx.number, 0)
  }

  function AfterAck(c: Cfg, tx: Tx, r: Result<Block>): (next: Tx)
    requires ValidCfg(c) && TxInv(c, tx) && tx.Waiting?
    ensures TxInv(c, next)
  {
    match r
    case Fail(e) => TxFailed(e)
    case Ok(a) =>
      if c.mode.Sequential? && (a.data != [] || !a.last || a.streaming || a.ack < tx.number - 1)
      then TxFailed(Invalid)
      else Resume(c, tx, a.ack)
  }

  function Remaining(c: Cfg, tx: Tx): int {
    match tx
    case Sending(offset, _, _) => |c.apdu| - offset
    case Waiting(offset, _) => |c.apdu| - offset
    case _ => -1
  }

  /** All blocks a sender emits from `tx` on, and how it ends, when the peer answers with `inbox`. */
  function SendRun(c: Cfg, tx: Tx, inbox: seq<Event>): (r: (seq<Block>, Tx))
    requires ValidCfg(c) && TxInv(c, tx) && ValidEvents(inbox)
    decreases |inbox|, 1 + Remaining(c, tx)
  {
    match tx
    case Sending(_, number, _) =>
      var (blocks, end) := SendRun(c, AfterBlock(c, tx), inbox);
      ([NthBlock(c, number)] + blocks, end)
    case Waiting(_, _) =>
      if inbox == [] then ([], TxFailed(Timeout))
      else SendRun(c, AfterAck(c, tx, Received(inbox[0])), inbox[1..])
    case _ => ([], tx)
  }

  /** The resume branch of the sequential sender (gbt.c:116-125) never runs. */
  lemma SequentialNeverResumes(c: Cfg, tx: Tx, r: Result<Block>)
    requires ValidCfg(c) && c.mode.Sequential? && TxInv(c, tx) && tx.Waiting?
    ensures AfterAck(c, tx, r).TxFailed? || AfterAck(c, tx, r) == Sending(tx.offset, tx.number, 0)
  {}

  /** Neither does the fall-back to block 1 (gbt.c:119-122, 282-285). */
  lemma ResumePointInside(c: Cfg, tx: Tx, ack: u16)
    requires ValidCfg(c) && TxInv(c, tx) && tx.Waiting? && ack + 1 < tx.number
    ensures Resume(c, tx, ack) == Sending(Start(c.payload, ack + 1), ack + 1, 0)
  {
    StartMonotone(c.payload, ack + 1, tx.number);
  }

  /** Block k always carries slice k, in every run of either sender, resumptions included. */
  lemma {:induction false} EveryBlockIsItsSlice(c: Cfg, tx: Tx, inbox: seq<Event>)
    requires ValidCfg(c) && TxInv(c, tx) && ValidEvents(inbox)
    ensures forall b :: b in SendRun(c, tx, inbox).0 ==> IsIndex(c, b.number) && b == NthBlock(c, b.number)
    decreases |inbox|, 1 + Remaining(c, tx)
  {
    match tx
    case Sending(_, number, _) => EveryBlockIsItsSlice(c, AfterBlock(c, tx), inbox);
    case Waiting(_, _) =>
      if inbox != [] { EveryBlockIsItsSlice(c, AfterAck(c, tx, Received(inbox[0])), inbox[1..]); }
    case _ =>
  }

  /** A sender that reports success has sent every block from its starting point on. */
  lemma {:induction false} SuccessMeansAllSent(c: Cfg, tx: Tx, inbox: seq<Event>, k: nat)
    requires ValidCfg(c) && TxInv(c, tx) && ValidEvents(inbox)
    requires tx.Sending? || tx.Waiting?
    requires SendRun(c, tx, inbox).1.TxDone?
    requires IsIndex(c, k) && tx.number <= k
    ensures NthBlock(c, k) in SendRun(c, tx, inbox).0
    decreases |inbox|, 1 + Remaining(c, tx)
  {
    match tx
    case Sending(_, number, _) =>
      var next := AfterBlock(c, tx);
      if number < k {
        StartMonotone(c.payload, number + 1, k);
        SuccessMeansAllSent(c, next, inbox, k);
      }
    case Waiting(_, _) =>
      var next := AfterAck(c, tx, Received(inbox[0]));
      assert next.number <= tx.number;
      SuccessMeansAllSent(c, next, inbox[1..], k);
  }

  lemma IndexDown(c: Cfg, k: nat, j: nat)
    requires IsIndex(c, k) && 1 <= j <= k
    ensures IsIndex(c, j)
  {
    StartMonotone(c.payload, j, k);
  }

  /** The number of blocks of a transfer, ceil(len / payload). */
  function BlockCount(c: Cfg): (n: nat)
    requires ValidCfg(c)
    ensures IsIndex(c, n) && !IsIndex(c, n + 1)
    ensures forall k :: IsIndex(c, k) ==> k <= n
  {
    var n := (|c.apdu| + c.payload - 1) / c.payload;
    CeilBounds(|c.apdu|, c.payload);
    StartIsProduct(c.payload, n);
    StartIsProduct(c.payload, n + 1);
    assert forall k :: IsIndex(c, k) ==> k <= n by {
      forall k | IsIndex(c, k) && k >= n + 1 ensures false {
        StartMonotone(c.payload, n + 1, k);
      }
    }
    n
  }

  lemma CeilBounds(len: nat, p: nat)
    requires len >= 1 && p >= 1
    ensures var n := (len + p - 1) / p; n >= 1 && (n - 1) * p < len <= n * p
  {
    var n := (len + p - 1) / p;
    assert len + p - 1 == n * p + (len + p - 1) % p;
    Lengths.Multiples(p, n);
  }

  lemma BlockCountUnique(c: Cfg, n: nat)
    requires ValidCfg(c) && IsIndex(c, n) && !IsIndex(c, n + 1)
    ensures n == BlockCount(c)
  {
    if n + 1 <= BlockCount(c) { IndexDown(c, BlockCount(c), n + 1); }
  }

  predicate BlockIs(c: Cfg, k: nat, b: Block)
    requires ValidCfg(c)
  {
    IsIndex(c, k) && b == NthBlock(c, k)
  }

  /** `bs` are the blocks from, from+1, ... in order. */
  ghost predicate InOrder(c: Cfg, from: nat, bs: seq<Block>)
    requires ValidCfg(c)
  {
    forall i :: 0 <= i < |bs| ==> BlockIs(c, from + i, bs[i])
  }

  /** A run from block `from`: blocks in order, and success exactly when the last block went out. */
  ghost predicate OrderedRun(c: Cfg, from: nat, run: (seq<Block>, Tx))
    requires ValidCfg(c)
  {
    && InOrder(c, from, run.0)
    && (run.1.TxDone? <==> !IsIndex(c, from + |run.0|))
    && (run.1.TxDone? || run.1.TxFailed?)
  }

  lemma OrderedRunCons(c: Cfg, from: nat, run: (seq<Block>, Tx))
    requires ValidCfg(c) && IsIndex(c, from) && OrderedRun(c, from + 1, run)
    ensures OrderedRun(c, from, ([NthBlock(c, from)] + run.0, run.1))
  {
    var bs := [NthBlock(c, from)] + run.0;
    forall i | 0 <= i < |bs| ensures BlockIs(c, from + i, bs[i]) {
      if i > 0 { assert BlockIs(c, from + 1 + (i - 1), run.0[i - 1]); }
    }
  }

  /** The sequential sender emits blocks in order without repetition; success means all of them. */
  lemma {:induction false} SequentialSendsInOrder(c: Cfg, tx: Tx, inbox: seq<Event>)
    requires ValidCfg(c) && c.mode.Sequential? && TxInv(c, tx) && ValidEvents(inbox)
    requires tx.Sending? || tx.Waiting?
    ensures OrderedRun(c, tx.number, SendRun(c, tx, inbox))
    decreases |inbox|, 1 + Remaining(c, tx)
  {
    if tx.Sending? {
      var next := AfterBlock(c, tx);
      if !next.TxDone? { SequentialSendsInOrder(c, next, inbox); }
      OrderedRunCons(c, tx.number, SendRun(c, next, inbox));
    } else if inbox != [] {
      SequentialNeverResumes(c, tx, Received(inbox[0]));
      var next := AfterAck(c, tx, Received(inbox[0]));
      if next.Sending? { SequentialSendsInOrder(c, next, inbox[1..]); }
    }
  }

  /** A successful sequential transfer sends exactly ceil(len / payload) blocks. */
  lemma SuccessCount(c: Cfg, inbox: seq<Event>)
    requires ValidCfg(c) && c.mode.Sequential? && ValidEvents(inbox)
    requires SendRun(c, START, inbox).1.TxDone?
    ensures |SendRun(c, START, inbox).0| == BlockCount(c)
  {
    SequentialSendsInOrder(c, START, inbox);
    var n := |SendRun(c, START, inbox).0|;
    assert n >= 1;
    assert BlockIs(c, 1 + (n - 1), SendRun(c, START, inbox).0[n - 1]);
    BlockCountUnique(c, n);
  }

  /**
   The whole sending session: the frames on the link and the result, when the transport takes
   frame n exactly if accepts(n) and the scratch buffer has `room` octets.
   */
  function Session(c: Cfg, tx: Tx, inbox: seq<Event>, sent: seq<seq<byte>>, room: nat, accepts: nat -> bool)
    : (r: (seq<seq<byte>>, Result<()>))
    requires ValidCfg(c) && TxInv(c, tx) && ValidEvents(inbox)
    decreases |inbox|, 1 + Remaining(c, tx)
  {
    match tx
    case Sending(_, number, _) =>
      var b := NthBlock(c, number);
      if |Header(b)| > room then (sent, Fail(Invalid))
      else if !accepts(|sent|) then (sent, Fail(Io))
      else Session(c, AfterBlock(c, tx), inbox, sent + [Gbt.Sent(b, room)], room, accepts)
    case Waiting(_, _) =>
      if inbox == [] then (sent, Fail(Timeout))
      else Session(c, AfterAck(c, tx, Received(inbox[0])), inbox[1..], sent, room, accepts)
    case TxDone => (sent, Ok(()))
    case TxFailed(e) => (sent, Fail(e))
  }

  /** The frames after `sent` are those of the run in order; success means the run succeeded whole. */
  ghost predicate Carried(run: (seq<Block>, Tx), sent: seq<seq<byte>>, out: (seq<seq<byte>>, Result<()>), room: nat) {
    && |sent| <= |out.0| <= |sent| + |run.0|
    && out.0[..|sent|] == sent
    && (forall i :: 0 <= i < |out.0| - |sent| ==> out.0[|sent| + i] == Gbt.Sent(run.0[i], room))
    && (out.1.Ok? ==> run.1.TxDone? && |out.0| == |sent| + |run.0|)
  }

  lemma CarriedCons(b: Block, run: (seq<Block>, Tx), sent: seq<seq<byte>>, out: (seq<seq<byte>>, Result<()>), room: nat)
    requires Carried(run, sent + [Gbt.Sent(b, room)], out, room)
    ensures Carried(([b] + run.0, run.1), sent, out, room)
  {
    var sent' := sent + [Gbt.Sent(b, room)];
    assert out.0[..|sent|] == out.0[..|sent'|][..|sent|] == sent;
    forall i | 0 <= i < |out.0| - |sent| ensures out.0[|sent| + i] == Gbt.Sent(([b] + run.0)[i], room) {
      if i == 0 {
        assert out.0[|sent|] == out.0[..|sent'|][|sent|];
      } else {
        assert out.0[|sent'| + (i - 1)] == Gbt.Sent(run.0[i - 1], room);
      }
    }
  }

  lemma {:induction false} SessionIsRun(c: Cfg, tx: Tx, inbox: seq<Event>, sent: seq<seq<byte>>, room: nat,
                                        accepts: nat -> bool)
    requires ValidCfg(c) && TxInv(c, tx) && ValidEvents(inbox)
    ensures Carried(SendRun(c, tx, inbox), sent, Session(c, tx, inbox, sent, room, accepts), room)
    decreases |inbox|, 1 + Remaining(c, tx)
  {
    match tx
    case Sending(_, number, _) =>
      var b := NthBlock(c, number);
      if |Header(b)| <= room && accepts(|sent|) {
        var next, sent' := AfterBlock(c, tx), sent + [Gbt.Sent(b, room)];
        SessionIsRun(c, next, inbox, sent', room, accepts);
        CarriedCons(b, SendRun(c, next, inbox), sent, Session(c, next, inbox, sent', room, accepts), room);
      }
    case Waiting(_, _) =>
      if inbox != [] {
        SessionIsRun(c, AfterAck(c, tx, Received(inbox[0])), inbox[1..], sent, room, accepts);
      }
    case _ =>
  }

  /** The payloads that come back with acknowledgements, in order, as the receive callback sees them. */
  function Handed(c: Cfg, tx: Tx, inbox: seq<Event>, sent: nat, room: nat, accepts: nat -> bool): seq<seq<byte>>
    requires ValidCfg(c) && TxInv(c, tx) && ValidEvents(inbox)
    decreases |inbox|, 1 + Remaining(c, tx)
  {
    match tx
    case Sending(_, number, _) =>
      if |Header(NthBlock(c, number))| > room || !accepts(sent) then []
      else Handed(c, AfterBlock(c, tx), inbox, sent + 1, room, accepts)
    case Waiting(_, _) =>
      if inbox == [] || AfterAck(c, tx, Received(inbox[0])).TxFailed? then []
      else
        var data := Received(inbox[0]).value.data;
        (if data == [] then [] else [data])
        + Handed(c, AfterAck(c, tx, Received(inbox[0])), inbox[1..], sent, room, accepts)
    case _ => []
  }

  /** A sequential sender hands nothing to anyone. */
  lemma {:induction false} SequentialHandsNothing(c: Cfg, tx: Tx, inbox: seq<Event>, sent: nat, room: nat,
                                                  accepts: nat -> bool)
    requires ValidCfg(c) && TxInv(c, tx) && ValidEvents(inbox) && c.mode.Sequential?
    ensures Handed(c, tx, inbox, sent, room, accepts) == []
    decreases |inbox|, 1 + Remaining(c, tx)
  {
    hide Header, NthBlock;
    match tx
    case Sending(_, _, _) => SequentialHandsNothing(c, AfterBlock(c, tx), inbox, sent + 1, room, accepts);
    case Waiting(_, _) =>
      if inbox != [] {
        SequentialHandsNothing(c, AfterAck(c, tx, Received(inbox[0])), inbox[1..], sent, room, accepts);
      }
    case _ =>
  }

  /** Frames, result and handed payloads of the rest of a session. */
  ghost function Rest(c: Cfg, tx: Tx, inbox: seq<Event>, sent: seq<seq<byte>>, room: nat, accepts: nat -> bool)
    : ((seq<seq<byte>>, Result<()>), seq<seq<byte>>)
    requires ValidCfg(c) && TxInv(c, tx) && ValidEvents(inbox)
  {
    (Session(c, tx, inbox, sent, room, accepts), Handed(c, tx, inbox, |sent|, room, accepts))
  }

  lemma RestSends(c: Cfg, tx: Tx, inbox: seq<Event>, sent: seq<seq<byte>>, room: nat, accepts: nat -> bool)
    requires ValidCfg(c) && TxInv(c, tx) && ValidEvents(inbox) && tx.Sending?
    ensures var b := NthBlock(c, tx.number);
            Rest(c, tx, inbox, sent, room, accepts) ==
            if |Header(b)| > room then ((sent, Fail(Invalid)), [])
            else if !accepts(|sent|) then ((sent, Fail(Io)), [])
            else Rest(c, AfterBlock(c, tx), inbox, sent + [Gbt.Sent(b, room)], room, accepts)
  {
    hide NthBlock, Header, Gbt.Sent;
  }

  lemma RestWaits(c: Cfg, tx: Tx, inbox: seq<Event>, sent: seq<seq<byte>>, room: nat, accepts: nat -> bool)
    requires ValidCfg(c) && TxInv(c, tx) && ValidEvents(inbox) && tx.Waiting?
    ensures Rest(c, tx, inbox, sent, room, accepts) ==
            if inbox == [] then ((sent, Fail(Timeout)), [])
            else
              var next := AfterAck(c, tx, Received(inbox[0]));
              if next.TxFailed? then ((sent, Fail(next.err)), [])
              else
                var rest, data := Rest(c, next, inbox[1..], sent, room, accepts), Received(inbox[0]).value.data;
                (rest.0, (if data == [] then [] else [data]) + rest.1)
  {
    hide Received;
    if inbox != [] {
      var next := AfterAck(c, tx, Received(inbox[0]));
      if next.TxFailed? { assert Session(c, next, inbox[1..], sent, room, accepts) == (sent, Fail(next.err)); }
    }
  }

  lemma RestDone(c: Cfg, inbox: seq<Event>, sent: seq<seq<byte>>, room: nat, accepts: nat -> bool)
    requires ValidCfg(c) && ValidEvents(inbox)
    ensures Rest(c, TxDone, inbox, sent, room, accepts) == ((sent, Ok(())), [])
  {}

  /** gbt_wait_for_ack, or the bidirectional sender's receive with its piggybacked payload. */
  method AwaitAck(link: Link, c: Cfg, blockNumber: u16, ghost tx: Tx) returns (r: Result<u16>, payload: seq<byte>)
    requires ValidCfg(c) && ValidEvents(link.inbox) && TxInv(c, tx) && tx.Waiting? && tx.number == blockNumber
    modifies link`inbox
    ensures ValidEvents(link.inbox)
    ensures old(link.inbox) == [] ==> r == Fail(Timeout)
    ensures old(link.inbox) != [] ==>
              && link.inbox == old(link.inbox)[1..]
              && AfterAck(c, tx, Received(old(link.inbox)[0]))
                 == if r.Fail? then TxFailed(r.err) else Resume(c, tx, r.value)
    ensures payload == if r.Ok? then Received(old(link.inbox)[0]).value.data else []
  {
    payload := [];
    var a := link.Recv();
    if a.Fail? { return Fail(a.err), payload; }
    var ack := a.value;
    if c.mode.Sequential? {
      if ack.data != [] || !ack.last || ack.streaming { return Fail(Invalid), payload; }
      if ack.ack < blockNumber - 1 { return Fail(Invalid), payload; }
    }
    return Ok(ack.ack), ack.data;
  }

  /** Cut the next chunk off the APDU and send it. */
  method SendChunk(link: Link, c: Cfg, offset: nat, blockNumber: u16, room: nat)
    returns (r: Result<()>, chunk: nat, last: bool)
    requires ValidCfg(c) && IsIndex(c, blockNumber) && offset == Start(c.payload, blockNumber)
    modifies link`sent
    ensures chunk == Min(|c.apdu| - offset, c.payload) && last == (offset + chunk >= |c.apdu|)
    ensures var b := NthBlock(c, blockNumber);
            && r == (if |Header(b)| > room then Fail(Invalid)
                     else if link.accepts(|old(link.sent)|) then Ok(()) else Fail(Io))
            && link.sent == if r.Ok? then old(link.sent) + [Gbt.Sent(b, room)] else old(link.sent)
  {
    chunk := |c.apdu| - offset;
    if chunk > c.payload { chunk := c.payload; }
    last := offset + chunk >= |c.apdu|;
    var b := Block(last, c.streaming, c.window, blockNumber, 0, c.apdu[offset..offset + chunk]);
    assert b == NthBlock(c, blockNumber);
    r := link.SendBlock(b, room);
  }

  /** The sender's loop variables as a state of the specification. */
  function LoopTx(c: Cfg, offset: nat, number: u16, inWindow: nat): Tx {
    if offset < |c.apdu| then Sending(offset, number, inWindow) else TxDone
  }

  /** The whole of a session of which the payloads in `done` have been handed over already. */
  ghost function Total(done: seq<seq<byte>>, rest: ((seq<seq<byte>>, Result<()>), seq<seq<byte>>))
    : ((seq<seq<byte>>, Result<()>), seq<seq<byte>>)
  {
    (rest.0, done + rest.1)
  }

  lemma TotalEnds(done: seq<seq<byte>>, out: (seq<seq<byte>>, Result<()>))
    ensures Total(done, (out, [])) == (out, done)
  {
    assert done + [] == done;
  }

  lemma TotalStarts(rest: ((seq<seq<byte>>, Result<()>), seq<seq<byte>>))
    ensures Total([], rest) == rest
  {
    assert [] + rest.1 == rest.1;
  }

  /** The end of a window: wait for the peer, then continue or resume from its first missing block. */
  method ConfirmWindow(link: Link, c: Cfg, offset: nat, number: u16, ghost room: nat, done: seq<seq<byte>>)
    returns (r: Result<(nat, u16)>, now: seq<seq<byte>>)
    requires ValidCfg(c) && ValidEvents(link.inbox) && TxInv(c, Waiting(offset, number))
    modifies link`inbox
    ensures ValidEvents(link.inbox)
    ensures r.Ok? ==> TxInv(c, Sending(r.value.0, r.value.1, 0)) && |link.inbox| < |old(link.inbox)|
    ensures Total(done, Rest(c, Waiting(offset, number), old(link.inbox), link.sent, room, link.accepts))
            == if r.Fail? then ((link.sent, Fail(r.err)), now)
               else Total(now, Rest(c, Sending(r.value.0, r.value.1, 0), link.inbox, link.sent, room, link.accepts))
  {
    hide NthBlock, Header, Received, Rest;
    ghost var tx := Waiting(offset, number);
    RestWaits(c, tx, link.inbox, link.sent, room, link.accepts);
    var ack, payload := AwaitAck(link, c, number, tx);
    now := if payload == [] then done else done + [payload];
    if ack.Fail? {
      TotalEnds(done, (link.sent, Fail(ack.err)));
      return Fail(ack.err), now;
    }
    r := Ok((offset, number));
    if ack.value + 1 < number {
      ResumePointInside(c, tx, ack.value);
      StartIsProduct(c.payload, ack.value + 1);
      r := Ok(((ack.value + 1 - 1) * c.payload, ack.value + 1));
    }
    ghost var rest := Rest(c, Sending(r.value.0, r.value.1, 0), link.inbox, link.sent, room, link.accepts).1;
    assert done + ((if payload == [] then [] else [payload]) + rest) == now + rest;
  }

  /** The window field has six bits; the senders mask what they are given. */
  function Masked(c: Cfg): Cfg { c.(window := c.window % WINDOW_LIMIT) }

  /** The sending loop; the payloads that came back are handed to the receive callback. */
  method SendLoop(link: Link, c: Cfg, room: nat) returns (r: Result<()>, piggyback: seq<seq<byte>>)
    requires ValidCfg(c) && ValidEvents(link.inbox)
    modifies link
    ensures ((link.sent, r), piggyback) == Rest(c, START, old(link.inbox), old(link.sent), room, link.accepts)
  {
    hide NthBlock, Header, Gbt.Sent, Rest, Decode, Total;
    piggyback := [];
    ghost var tx, goal := START, Rest(c, START, link.inbox, link.sent, room, link.accepts);
    TotalStarts(goal);
    var offset: nat, number: u16, inWindow: nat := 0, 1, 0;
    while offset < |c.apdu|
      invariant tx == LoopTx(c, offset, number, inWindow)
      invariant ValidEvents(link.inbox) && TxInv(c, tx)
      invariant goal == Total(piggyback, Rest(c, tx, link.inbox, link.sent, room, link.accepts))
      decreases |link.inbox|, |c.apdu| - offset
    {
      IndexBound(c, number);
      RestSends(c, tx, link.inbox, link.sent, room, link.accepts);
      var chunk, last;
      r, chunk, last := SendChunk(link, c, offset, number, room);
      if r.Fail? {
        TotalEnds(piggyback, (link.sent, r));
        return;
      }
      tx := AfterBlock(c, tx);
      offset, number, inWindow := offset + chunk, number + 1, inWindow + 1;
      if c.window > 0 && !last && inWindow >= c.window {
        var next;
        next, piggyback := ConfirmWindow(link, c, offset, number, room, piggyback);
        if next.Fail? { return Fail(next.err), piggyback; }
        offset, number, inWindow := next.value.0, next.value.1, 0;
        tx := Sending(offset, number, inWindow);
      }
    }
    RestDone(c, link.inbox, link.sent, room, link.accepts);
    TotalEnds(piggyback, (link.sent, Ok(())));
    return Ok(()), piggyback;
  }

  /** gbt_transport_send and osp_gbt_transport_send_streaming_bidir. */
  method Transmit(link: Link, cfg: Cfg, room: nat) returns (r: Result<()>, piggyback: seq<seq<byte>>)
    requires ValidEvents(link.inbox)
    modifies link
    ensures !ValidCfg(Masked(cfg)) ==>
              r == Fail(Invalid) && piggyback == [] && link.sent == old(link.sent) && link.inbox == old(link.inbox)
    ensures ValidCfg(Masked(cfg)) ==>
              && (link.sent, r) == Session(Masked(cfg), START, old(link.inbox), old(link.sent), room, link.accepts)
              && piggyback == Handed(Masked(cfg), START, old(link.inbox), |old(link.sent)|, room, link.accepts)
  {
    hide Session, Handed;
    if !ValidCfg(Masked(cfg)) { return Fail(Invalid), []; }
    r, piggyback := SendLoop(link, Masked(cfg), room);
  }
}
