/**
 The sequential sender and the receiver running together over a reliable first-in-first-out link
 (src/service/gbt.c). Every interleaving of their steps is considered. The composition finishes
 exactly for windows 0 and 1 and for transfers that fit one window: the receiver acknowledges every
 block, and the sender rejects an acknowledgement below the end of its window.
 */
module GbtProgress {
  import opened Octets
  import opened Gbt
  import opened GbtTransfer
  import opened GbtReceive

  datatype Peer = Live(rx: Rx) | Complete(apdu: seq<byte>) | Dead(err: Err)

  /** Both machines, the two queues between them, and how often each kind of step was taken. */
  datatype Sys = Sys(tx: Tx, peer: Peer, data: seq<Block>, acks: seq<Block>, emitted: nat, taken: nat, confirmed: nat)

  const INIT: Sys := Sys(START, Live(IDLE), [], [], 0, 0, 0)

  predicate CanEmit(s: Sys) { s.tx.Sending? }
  predicate CanConfirm(s: Sys) { s.tx.Waiting? && s.acks != [] }
  predicate CanTake(s: Sys) { s.peer.Live? && s.data != [] }

  function Emit(c: Cfg, s: Sys): Sys
    requires ValidCfg(c) && TxInv(c, s.tx) && CanEmit(s)
  {
    s.(data := s.data + [NthBlock(c, s.tx.number)], tx := AfterBlock(c, s.tx), emitted := s.emitted + 1)
  }

  function Confirm(c: Cfg, s: Sys): Sys
    requires ValidCfg(c) && TxInv(c, s.tx) && CanConfirm(s)
  {
    s.(acks := s.acks[1..], tx := AfterAck(c, s.tx, Ok(s.acks[0])), confirmed := s.confirmed + 1)
  }

  function Take(s: Sys, size: nat): Sys
    requires CanTake(s)
  {
    var s' := s.(data := s.data[1..], taken := s.taken + 1);
    match RxStep(s.peer.rx, s.data[0], size)
    case More(rx, acks) => s'.(peer := Live(rx), acks := s.acks + acks)
    case Done(apdu) => s'.(peer := Complete(apdu))
    case Broken(e) => s'.(peer := Dead(e))
  }

  predicate Next(c: Cfg, size: nat, s: Sys, s': Sys)
    requires ValidCfg(c) && TxInv(c, s.tx)
  {
    || (CanEmit(s) && s' == Emit(c, s))
    || (CanConfirm(s) && s' == Confirm(c, s))
    || (CanTake(s) && s' == Take(s, size))
  }

  predicate Stuck(s: Sys) { !CanEmit(s) && !CanConfirm(s) && !CanTake(s) }

  /** A run: any interleaving of steps from the initial state. */
  ghost predicate IsRun(c: Cfg, size: nat, run: seq<Sys>)
    requires ValidCfg(c)
  {
    && |run| > 0
    && var n := |run| - 1;
       if n == 0 then run[0] == INIT
       else IsRun(c, size, run[..n]) && TxInv(c, run[n - 1].tx) && Next(c, size, run[n - 1], run[n])
  }

  // ── The invariant of every reachable state ─────────────────────────────────

  /** n is the number of the last block. */
  predicate LastIs(c: Cfg, n: nat) { IsIndex(c, n) && !IsIndex(c, n + 1) }

  lemma LastBound(c: Cfg, n: nat, k: nat)
    requires LastIs(c, n)
    ensures IsIndex(c, k) ==> k <= n
  {
    if IsIndex(c, k) && n + 1 <= k { IndexDown(c, k, n + 1); }
  }

  lemma LastUnique(c: Cfg, n: nat, k: nat)
    requires LastIs(c, n) && LastIs(c, k)
    ensures k == n
  {
    LastBound(c, n, k);
    LastBound(c, k, n);
  }

  /** The blocks under way are taken+1 .. emitted, in order. */
  ghost predicate InFlight(c: Cfg, n: nat, s: Sys)
    requires ValidCfg(c)
  {
    && s.taken <= s.emitted <= n
    && |s.data| == s.emitted - s.taken
    && InOrder(c, s.taken + 1, s.data)
  }

  predicate IsAck(c: Cfg, b: Block, number: nat) {
    c.window < WINDOW_LIMIT && b.ack == number && b == Ack(c.window, b.ack)
  }

  /** The receiver's acknowledgements not yet read: numbers confirmed+1, confirmed+2, ... */
  ghost predicate Acked(c: Cfg, n: nat, s: Sys)
    requires ValidCfg(c)
  {
    && s.confirmed + |s.acks| == (if c.window == 0 then 0 else Min(s.taken, n - 1))
    && forall i :: 0 <= i < |s.acks| ==> IsAck(c, s.acks[i], s.confirmed + 1 + i)
  }

  ghost predicate PeerInv(c: Cfg, n: nat, s: Sys) {
    match s.peer
    case Live(rx) =>
      && Holds(c, rx) && rx.expected == s.taken + 1
      && rx.peerWindow == if s.taken == 0 then 0 else c.window
    case Complete(apdu) => apdu == c.apdu && s.taken == n
    case Dead(_) => false
  }

  ghost predicate SenderInv(c: Cfg, n: nat, s: Sys) {
    match s.tx
    case Sending(_, number, w) =>
      && TxInv(c, s.tx) && number == s.emitted + 1
      && (if c.window == 1 then w == 0 && s.confirmed == s.emitted else w == s.emitted && s.confirmed == 0)
      && (c.window >= 2 ==> s.emitted < c.window)
    case Waiting(_, number) =>
      && TxInv(c, s.tx) && number == s.emitted + 1 && c.window > 0
      && if c.window == 1 then s.confirmed + 1 == s.emitted else s.emitted == c.window && s.confirmed == 0
    case TxDone =>
      && s.emitted == n
      && if c.window == 1 then s.confirmed + 1 == s.emitted
         else s.confirmed == 0 && (c.window == 0 || s.emitted <= c.window)
    case TxFailed(e) =>
      e == Invalid && c.window >= 2 && s.emitted == c.window < n && s.confirmed == 1
  }

  ghost predicate Inv(c: Cfg, n: nat, s: Sys)
    requires ValidCfg(c)
  {
    match s
    case Sys(_, _, _, _, _, _, _) => InFlight(c, n, s) && Acked(c, n, s) && PeerInv(c, n, s) && SenderInv(c, n, s)
  }

  lemma InOrderSnoc(c: Cfg, from: nat, bs: seq<Block>, k: nat)
    requires ValidCfg(c) && InOrder(c, from, bs) && k == from + |bs| && IsIndex(c, k)
    ensures InOrder(c, from, bs + [NthBlock(c, k)])
  {
    var bs' := bs + [NthBlock(c, k)];
    forall i | 0 <= i < |bs'| ensures BlockIs(c, from + i, bs'[i]) {
      if i < |bs| { assert BlockIs(c, from + i, bs[i]); }
    }
  }

  lemma InOrderTail(c: Cfg, from: nat, bs: seq<Block>)
    requires ValidCfg(c) && InOrder(c, from, bs) && bs != []
    ensures IsIndex(c, from) && bs[0] == NthBlock(c, from) && InOrder(c, from + 1, bs[1..])
  {
    assert BlockIs(c, from + 0, bs[0]);
    var tail := bs[1..];
    forall i | 0 <= i < |tail| ensures BlockIs(c, from + 1 + i, tail[i]) {
      assert BlockIs(c, from + (i + 1), bs[i + 1]);
    }
  }

  lemma EmitKeeps(c: Cfg, n: nat, s: Sys)
    requires ValidCfg(c) && LastIs(c, n) && Inv(c, n, s) && CanEmit(s)
    ensures Inv(c, n, Emit(c, s))
  {
    var s', number := Emit(c, s), s.tx.number;
    InOrderSnoc(c, s.taken + 1, s.data, number);
    LastBound(c, n, number);
    if s'.tx.TxDone? { LastUnique(c, n, number); }
    assert SenderInv(c, n, s');
  }

  lemma ConfirmKeeps(c: Cfg, n: nat, s: Sys)
    requires ValidCfg(c) && c.mode.Sequential? && LastIs(c, n) && Inv(c, n, s) && CanConfirm(s)
    ensures Inv(c, n, Confirm(c, s))
  {
    var s' := Confirm(c, s);
    assert IsAck(c, s.acks[0], s.confirmed + 1 + 0);
    LastBound(c, n, s.emitted + 1);
    assert SenderInv(c, n, s');
    forall i | 0 <= i < |s'.acks| ensures IsAck(c, s'.acks[i], s'.confirmed + 1 + i) {
      assert s'.acks[i] == s.acks[i + 1] && IsAck(c, s.acks[i + 1], s.confirmed + 1 + (i + 1));
    }
  }

  /** What the receiver does with the block it waits for. */
  lemma TakeExpected(c: Cfg, n: nat, rx: Rx, size: nat)
    requires ValidCfg(c) && |c.apdu| <= size && LastIs(c, n) && Holds(c, rx)
    requires rx.peerWindow == if rx.expected == 1 then 0 else c.window
    ensures var k := rx.expected;
            var out := RxStep(rx, NthBlock(c, k), size);
            k <= n &&
            if k == n then out == Done(c.apdu)
            else
              && out.More? && Holds(c, out.rx) && out.rx.expected == k + 1 && out.rx.peerWindow == c.window
              && out.acks == if c.window > 0 then [Ack(c.window, k)] else []
  {
    var k: nat := rx.expected;
    StepSafe(c, rx, k, size);
    LastBound(c, n, k);
    if IsIndex(c, k + 1) {
      LastBound(c, n, k + 1);
      IndexBound(c, k + 1);
    } else {
      LastUnique(c, n, k);
    }
  }

  lemma AcksSnoc(c: Cfg, n: nat, s: Sys, s': Sys, k: u16)
    requires ValidCfg(c) && Acked(c, n, s) && c.window > 0 && s'.confirmed == s.confirmed
    requires k == s.taken + 1 == s'.taken < n && s'.acks == s.acks + [Ack(c.window, k)]
    ensures Acked(c, n, s')
  {}

  lemma TakeKeeps(c: Cfg, n: nat, s: Sys, size: nat)
    requires ValidCfg(c) && |c.apdu| <= size && LastIs(c, n) && Inv(c, n, s) && CanTake(s)
    ensures Inv(c, n, Take(s, size))
  {
    var s', k := Take(s, size), s.taken + 1;
    InOrderTail(c, k, s.data);
    TakeExpected(c, n, s.peer.rx, size);
    IndexBound(c, k);
    if k < n && c.window > 0 { AcksSnoc(c, n, s, s', k); }
    assert Acked(c, n, s');
    assert SenderInv(c, n, s');
    assert PeerInv(c, n, s');
  }

  /** Steps left, at most: every step consumes one. */
  function Work(n: nat, s: Sys): int { 3 * n - s.emitted - s.taken - s.confirmed }

  lemma NextWorks(c: Cfg, n: nat, s: Sys, s': Sys, size: nat)
    requires ValidCfg(c) && TxInv(c, s.tx) && Next(c, size, s, s')
    ensures Work(n, s') == Work(n, s) - 1
  {}

  lemma NextKeeps(c: Cfg, n: nat, s: Sys, s': Sys, size: nat)
    requires ValidCfg(c) && c.mode.Sequential? && |c.apdu| <= size && LastIs(c, n)
    requires TxInv(c, s.tx) && Inv(c, n, s) && Next(c, size, s, s')
    ensures Inv(c, n, s')
  {
    if CanEmit(s) && s' == Emit(c, s) { EmitKeeps(c, n, s); }
    else if CanConfirm(s) && s' == Confirm(c, s) { ConfirmKeeps(c, n, s); }
    else { TakeKeeps(c, n, s, size); }
  }

  /** Every reachable state satisfies the invariant, and each step used up some of the work. */
  lemma {:induction false} RunInv(c: Cfg, n: nat, size: nat, run: seq<Sys>)
    requires ValidCfg(c) && c.mode.Sequential? && |c.apdu| <= size && LastIs(c, n) && IsRun(c, size, run)
    ensures Inv(c, n, run[|run| - 1]) && Work(n, run[|run| - 1]) == 3 * n - (|run| - 1)
  {
    var last := |run| - 1;
    if last > 0 {
      RunInv(c, n, size, run[..last]);
      NextKeeps(c, n, run[last - 1], run[last], size);
      NextWorks(c, n, run[last - 1], run[last], size);
    }
  }

  /** Every run ends: none is longer than three steps a block. */
  lemma RunsAreShort(c: Cfg, size: nat, run: seq<Sys>)
    requires ValidCfg(c) && c.mode.Sequential? && |c.apdu| <= size && IsRun(c, size, run)
    ensures |run| <= 3 * BlockCount(c) + 1
  {
    var n := BlockCount(c);
    RunInv(c, n, size, run);
    var s := run[|run| - 1];
    assert Inv(c, n, s);
  }

  /** The condition under which a transfer over a reliable link completes. */
  predicate Completes(c: Cfg)
    requires ValidCfg(c)
  {
    c.window <= 1 || BlockCount(c) <= c.window
  }

  lemma StuckOutcome(c: Cfg, n: nat, s: Sys)
    requires ValidCfg(c) && LastIs(c, n) && Inv(c, n, s) && Stuck(s)
    ensures if c.window <= 1 || n <= c.window then
              && s.tx.TxDone? && s.peer == Complete(c.apdu) && s.emitted == s.taken == n
              && (c.window == 0 ==> s.confirmed == 0 && s.acks == [])
              && (c.window == 1 ==> s.confirmed == n - 1 && s.acks == [])
            else
              s.tx == TxFailed(Invalid) && s.peer.Live? && s.emitted == s.taken == c.window && s.confirmed == 1
  {
    LastBound(c, n, s.taken + 1);
    LastBound(c, n, s.emitted + 1);
  }

  /**
   How every run that cannot be continued has ended. Sender and receiver both succeed exactly when
   the window is 0 or 1 or the whole transfer fits one window; then ceil(len / payload) blocks went
   out, and with window 1 one acknowledgement fewer came back. Otherwise the sender gives up after
   its first window, on the first acknowledgement it reads.
   */
  lemma FifoOutcome(c: Cfg, size: nat, run: seq<Sys>)
    requires ValidCfg(c) && c.mode.Sequential? && |c.apdu| <= size
    requires IsRun(c, size, run) && Stuck(run[|run| - 1])
    ensures var s, n := run[|run| - 1], BlockCount(c);
            if Completes(c) then
              && s.tx.TxDone? && s.peer == Complete(c.apdu) && s.emitted == s.taken == n
              && (c.window == 0 ==> s.confirmed == 0 && s.acks == [])
              && (c.window == 1 ==> s.confirmed == n - 1 && s.acks == [])
            else
              s.tx == TxFailed(Invalid) && s.peer.Live? && s.emitted == s.taken == c.window && s.confirmed == 1
  {
    RunInv(c, BlockCount(c), size, run);
    StuckOutcome(c, BlockCount(c), run[|run| - 1]);
  }
}
