/**
 The general block transfer receiver (osp_gbt_transport_recv) and the safety of a whole
 transfer over a link that loses, repeats and reorders frames.
 */
module GbtReceive {
  import opened Octets
  import opened Gbt
  import opened GbtTransfer

  datatype Rx = Rx(acc: seq<byte>, expected: u16, peerWindow: Window)

  /** What one block does to a receiver: `acks` is empty or the one acknowledgement it sends. */
  datatype RxOut = More(rx: Rx, acks: seq<Block>) | Done(apdu: seq<byte>) | Broken(err: Err)

  const IDLE: Rx := Rx([], 1, 0)

  function Ack(window: Window, number: u16): Block {
    Block(true, false, window, 1, number, [])
  }

  function GapWindow(gap: nat): Window
    requires gap > 0
  {
    if gap >= WINDOW_LIMIT then WINDOW_LIMIT - 1 else gap
  }

  function RxStep(rx: Rx, b: Block, size: nat): RxOut {
    if b.number > rx.expected then
      More(rx, [Ack(GapWindow(b.number - rx.expected), if rx.expected > 0 then rx.expected - 1 else 0)])
    else if b.number < rx.expected then
      var w := if b.window > 0 then b.window else rx.peerWindow;
      More(rx, if w > 0 then [Ack(w, b.number)] else [])
    else
      var w := if b.window > 0 then b.window else rx.peerWindow;
      if |rx.acc| + |b.data| > size then Broken(NoMem)
      else if b.last then Done(rx.acc + b.data)
      else More(Rx(rx.acc + b.data, (rx.expected + 1) % 0x1_0000, w), if w > 0 then [Ack(w, rx.expected)] else [])
  }

  /** The whole reception: acknowledgements on the link and the reassembled APDU. */
  function Reception(rx: Rx, events: seq<Event>, size: nat, sent: seq<seq<byte>>, room: nat, accepts: nat -> bool)
    : (r: (seq<seq<byte>>, Result<seq<byte>>))
    requires ValidEvents(events)
    decreases |events|
  {
    if events == [] then (sent, Fail(Timeout))
    else match Received(events[0])
      case Fail(e) => (sent, Fail(e))
      case Ok(b) =>
        match RxStep(rx, b, size)
        case Done(apdu) => (sent, Ok(apdu))
        case Broken(e) => (sent, Fail(e))
        case More(rx', acks) =>
          if acks == [] then Reception(rx', events[1..], size, sent, room, accepts)
          else if |Header(acks[0])| > room then (sent, Fail(Invalid))
          else if !accepts(|sent|) then (sent, Fail(Io))
          else Reception(rx', events[1..], size, sent + [Gbt.Sent(acks[0], room)], room, accepts)
  }

  /** The next block: the one already read by the caller, if any, then those from the link. */
  method NextBlock(link: Link, first: seq<byte>, stale: seq<byte>) returns (r: Result<Block>)
    requires ValidEvents(Pending(first, stale, link.inbox)) && |stale| == MAX_OCTET
    modifies link`inbox
    ensures var events := Pending(first, stale, old(link.inbox));
            if events == [] then r == Fail(Timeout)
            else r == Received(events[0]) && link.inbox == events[1..]
    ensures ValidEvents(link.inbox) && |link.inbox| <= |old(link.inbox)|
    ensures first == [] && r.Ok? ==> |link.inbox| < |old(link.inbox)|
  {
    assert forall e :: e in link.inbox ==> e in Pending(first, stale, link.inbox);
    if |first| > 0 {
      assert Pending(first, stale, link.inbox)[1..] == link.inbox;
      if first[0] != TAG { return Fail(Invalid); }
      var mem := new byte[|first|](i requires 0 <= i < |first| => first[i]);
      var buf := new Buf.Received(mem);
      assert mem[..] == first;
      r := DecodeFrame(buf, stale);
      if r.Fail? { return Fail(Invalid); }
    } else {
      assert Pending(first, stale, link.inbox) == link.inbox;
      r := link.Recv();
    }
  }

  function Pending(first: seq<byte>, stale: seq<byte>, inbox: seq<Event>): seq<Event> {
    (if first == [] then [] else [Frame(first, stale)]) + inbox
  }

  /** Everything one accepted block does: store its payload and decide whether to go on. */
  method Store(apdu: array<byte>, accLen: nat, data: Payload) returns (r: Result<nat>)
    requires accLen <= apdu.Length
    modifies apdu
    ensures if accLen + |data| > apdu.Length then r == Fail(NoMem) && apdu[..] == old(apdu[..])
            else r == Ok(accLen + |data|) && apdu[..accLen + |data|] == old(apdu[..accLen]) + data
  {
    if accLen + |data| > apdu.Length { return Fail(NoMem); }
    for i := 0 to |data|
      invariant apdu[..accLen + i] == old(apdu[..accLen]) + data[..i]
    {
      apdu[accLen + i] := data[i];
    }
    assert data[..|data|] == data;
    return Ok(accLen + |data|);
  }

  datatype Step =
    | Go(accLen: nat, expected: u16, peerWindow: Window, acks: seq<Block>)
    | Finished(len: nat)
    | Bad(err: Err)

  /** The body of the receive loop for one block. */
  method TakeBlock(apdu: array<byte>, accLen: nat, expected: u16, peerWindow: Window, b: Block) returns (s: Step)
    requires accLen <= apdu.Length
    modifies apdu
    ensures s.Go? ==> s.accLen <= apdu.Length
    ensures s.Finished? ==> s.len <= apdu.Length
    ensures RxStep(Rx(old(apdu[..accLen]), expected, peerWindow), b, apdu.Length)
            == match s
               case Go(n, e, w, acks) => More(Rx(apdu[..n], e, w), acks)
               case Finished(n) => Done(apdu[..n])
               case Bad(err) => Broken(err)
  {
    if b.number > expected {
      return Go(accLen, expected, peerWindow,
                [Ack(GapWindow(b.number - expected), if expected > 0 then expected - 1 else 0)]);
    }
    var w := if b.window > 0 then b.window else peerWindow;
    if b.number < expected {
      return Go(accLen, expected, peerWindow, if w > 0 then [Ack(w, b.number)] else []);
    }
    var stored := Store(apdu, accLen, b.data);
    if stored.Fail? { return Bad(stored.err); }
    if b.last { return Finished(stored.value); }
    return Go(stored.value, (expected + 1) % 0x1_0000, w, if w > 0 then [Ack(w, expected)] else []);
  }

  /** osp_gbt_transport_recv: on success the first r.value octets of `apdu` are the APDU. */
  method Receive(link: Link, apdu: array<byte>, room: nat, firstBlock: seq<byte>, stale: seq<byte>)
    returns (r: Result<nat>)
    requires |stale| == MAX_OCTET && ValidEvents(Pending(firstBlock, stale, link.inbox))
    modifies link, apdu
    ensures r.Ok? ==> r.value <= apdu.Length
    ensures (link.sent, if r.Ok? then Ok(apdu[..r.value]) else Fail(r.err))
            == Reception(IDLE, Pending(firstBlock, stale, old(link.inbox)), apdu.Length,
                         old(link.sent), room, link.accepts)
  {
    var accLen: nat, expected: u16, peerWindow: Window, first := 0, 1, 0, firstBlock;
    ghost var goal := Reception(IDLE, Pending(first, stale, link.inbox), apdu.Length, link.sent, room, link.accepts);
    while true
      invariant accLen <= apdu.Length && ValidEvents(Pending(first, stale, link.inbox))
      invariant goal == Reception(Rx(apdu[..accLen], expected, peerWindow), Pending(first, stale, link.inbox),
                                  apdu.Length, link.sent, room, link.accepts)
      decreases |link.inbox| + if first == [] then 0 else 1
    {
      var got := NextBlock(link, first, stale);
      if got.Fail? { return Fail(got.err); }
      first := [];
      assert Pending([], stale, link.inbox) == link.inbox;
      var s := TakeBlock(apdu, accLen, expected, peerWindow, got.value);
      if s.Finished? { return Ok(s.len); }
      if s.Bad? { return Fail(s.err); }
      accLen, expected, peerWindow := s.accLen, s.expected, s.peerWindow;
      if s.acks != [] {
        var ok := link.SendBlock(s.acks[0], room);
        if ok.Fail? { return Fail(ok.err); }
      }
    }
  }

  // ── Safety of a transfer ───────────────────────────────────────────────────

  /** A frame of transfer c, as built in a scratch buffer with room for the whole block. */
  ghost predicate FrameOf(c: Cfg, room: nat, octets: seq<byte>)
    requires ValidCfg(c)
  {
    exists k :: IsIndex(c, k) && |Wire(NthBlock(c, k))| <= room && octets == Gbt.Sent(NthBlock(c, k), room)
  }

  /** The link delivers nothing but frames of transfer c: any of them, any number of times, in any order. */
  ghost predicate OnlyFrames(c: Cfg, room: nat, events: seq<Event>)
    requires ValidCfg(c)
  {
    forall e :: e in events && e.Frame? ==> FrameOf(c, room, e.octets)
  }

  /** The receiver holds exactly the slices before the block it waits for. */
  ghost predicate Holds(c: Cfg, rx: Rx) {
    && IsIndex(c, rx.expected)
    && rx.acc == c.apdu[..Start(c.payload, rx.expected)]
  }

  lemma StepSafe(c: Cfg, rx: Rx, k: nat, size: nat)
    requires ValidCfg(c) && Holds(c, rx) && IsIndex(c, k)
    ensures var out := RxStep(rx, NthBlock(c, k), size);
            && (out.Done? ==> out.apdu == c.apdu)
            && (out.More? ==> Holds(c, out.rx))
  {
    IndexBound(c, k);
    if k == rx.expected {
      var from := Start(c.payload, k);
      var to := Min(from + c.payload, |c.apdu|);
      assert rx.acc + c.apdu[from..to] == c.apdu[..to];
      assert to == |c.apdu| || to == Start(c.payload, k + 1);
      assert c.apdu[..|c.apdu|] == c.apdu;
    }
  }

  lemma EventBlock(c: Cfg, room: nat, e: Event) returns (k: nat)
    requires ValidCfg(c) && e.Frame? && |e.stale| == MAX_OCTET && FrameOf(c, room, e.octets)
    ensures IsIndex(c, k) && Received(e) == Ok(NthBlock(c, k))
  {
    k :| IsIndex(c, k) && |Wire(NthBlock(c, k))| <= room && e.octets == Gbt.Sent(NthBlock(c, k), room);
    RoundTrip(NthBlock(c, k), room, e.stale);
  }

  /** Whatever the link loses, repeats or reorders, success means exactly the APDU that was sent. */
  lemma {:induction false} ReceptionSafe(c: Cfg, rx: Rx, events: seq<Event>, size: nat, room: nat,
                                         sent: seq<seq<byte>>, ackRoom: nat, accepts: nat -> bool)
    requires ValidCfg(c) && ValidEvents(events) && Holds(c, rx) && OnlyFrames(c, room, events)
    ensures var r := Reception(rx, events, size, sent, ackRoom, accepts).1;
            r.Ok? ==> r.value == c.apdu
    decreases |events|
  {
    if events != [] && Received(events[0]).Ok? {
      assert events[0] in events;
      var k := EventBlock(c, room, events[0]);
      StepSafe(c, rx, k, size);
      var out := RxStep(rx, NthBlock(c, k), size);
      if out.More? {
        assert OnlyFrames(c, room, events[1..]);
        var sent' := if out.acks == [] then sent else sent + [Gbt.Sent(out.acks[0], ackRoom)];
        ReceptionSafe(c, out.rx, events[1..], size, room, sent', ackRoom, accepts);
      }
    }
  }

  /** The scratch buffer holds every block of the transfer: the first block is the largest. */
  predicate Fits(c: Cfg, room: nat)
    requires ValidCfg(c)
  {
    |Wire(NthBlock(c, 1))| <= room
  }

  lemma FitsAll(c: Cfg, room: nat, k: nat)
    requires ValidCfg(c) && Fits(c, room) && IsIndex(c, k)
    ensures |Wire(NthBlock(c, k))| <= room
  {
    var first, b := NthBlock(c, 1), NthBlock(c, k);
    StartMonotone(c.payload, 1, k);
    assert |b.data| <= |first.data|;
  }

  /**
   The transfer is safe end to end, for the sequential and the bidirectional sender, any window and
   any acknowledgements (resumptions included): if the receiver is given only frames this sender put
   on the link, in any order, with losses and repetitions, then it succeeds only with the sent APDU.
   */
  lemma TransferSafe(c: Cfg, room: nat, acks: seq<Event>, accepts: nat -> bool,
                     events: seq<Event>, size: nat, ackRoom: nat, ackAccepts: nat -> bool)
    requires ValidCfg(c) && Fits(c, room) && ValidEvents(acks) && ValidEvents(events)
    requires var frames := Session(c, START, acks, [], room, accepts).0;
             forall e :: e in events && e.Frame? ==> e.octets in frames
    ensures var r := Reception(IDLE, events, size, [], ackRoom, ackAccepts).1;
            r.Ok? ==> r.value == c.apdu
  {
    var run, out := SendRun(c, START, acks), Session(c, START, acks, [], room, accepts);
    SessionIsRun(c, START, acks, [], room, accepts);
    EveryBlockIsItsSlice(c, START, acks);
    forall e | e in events && e.Frame? ensures FrameOf(c, room, e.octets) {
      var i :| 0 <= i < |out.0| && out.0[i] == e.octets;
      assert out.0[0 + i] == Gbt.Sent(run.0[i], room);
      var b := run.0[i];
      assert b in run.0;
      FitsAll(c, room, b.number);
    }
    ReceptionSafe(c, IDLE, events, size, room, [], ackRoom, ackAccepts);
  }

  // ── The exact condition ────────────────────────────────────────────────────

  function Always(n: nat): bool { true }

  /** An acknowledgement that either sender takes for everything it has sent. */
  function Yes(): (e: Event)
    ensures e.Frame? && |e.stale| == MAX_OCTET
  {
    Frame(Wire(Ack(0, 0xFFFF)), seq(MAX_OCTET, _ => 0))
  }

  ghost predicate AllYes(inbox: seq<Event>) { forall i :: 0 <= i < |inbox| ==> inbox[i] == Yes() }

  lemma YesReceived()
    ensures Received(Yes()) == Ok(Ack(0, 0xFFFF))
  {
    var a := Ack(0, 0xFFFF);
    assert Gbt.Sent(a, |Wire(a)|) == Wire(a);
    RoundTrip(a, |Wire(a)|, seq(MAX_OCTET, _ => 0));
  }

  lemma HeaderFits(c: Cfg, room: nat, k: nat)
    requires ValidCfg(c) && |Header(NthBlock(c, 1))| <= room && IsIndex(c, k)
    ensures |Header(NthBlock(c, k))| <= room
  {
    StartMonotone(c.payload, 1, k);
    assert |NthBlock(c, k).data| <= |NthBlock(c, 1).data|;
  }

  /** If headers fit, the transport takes everything and the peer keeps acknowledging, either sender succeeds. */
  lemma {:induction false} SessionSucceeds(c: Cfg, tx: Tx, inbox: seq<Event>, sent: seq<seq<byte>>, room: nat)
    requires ValidCfg(c) && TxInv(c, tx) && ValidEvents(inbox) && AllYes(inbox)
    requires |Header(NthBlock(c, 1))| <= room && !tx.TxFailed?
    requires |inbox| >= Remaining(c, tx) - if tx.Sending? then 1 else 0
    ensures Session(c, tx, inbox, sent, room, Always).1 == Ok(())
    decreases |inbox|, 1 + Remaining(c, tx)
  {
    hide Header, Gbt.Sent, Wire, NthBlock;
    match tx
    case Sending(_, number, _) =>
      HeaderFits(c, room, number);
      SessionSucceeds(c, AfterBlock(c, tx), inbox, sent + [Gbt.Sent(NthBlock(c, number), room)], room);
    case Waiting(_, number) =>
      YesReceived();
      IndexBound(c, number);
      assert inbox[0] == Yes();
      assert AllYes(inbox[1..]) by {
        forall i | 0 <= i < |inbox| - 1 ensures inbox[1..][i] == Yes() { assert inbox[i + 1] == Yes(); }
      }
      assert AfterAck(c, tx, Received(inbox[0])) == Sending(tx.offset, number, 0);
      SessionSucceeds(c, Sending(tx.offset, number, 0), inbox[1..], sent, room);
    case _ =>
  }

  /** Then every block of the transfer is on the link. */
  lemma AllOnTheLink(c: Cfg, acks: seq<Event>, room: nat, k: nat)
    requires ValidCfg(c) && ValidEvents(acks) && AllYes(acks) && |acks| >= |c.apdu|
    requires |Header(NthBlock(c, 1))| <= room && IsIndex(c, k)
    ensures Gbt.Sent(NthBlock(c, k), room) in Session(c, START, acks, [], room, Always).0
  {
    hide Header, Wire, Gbt.Sent, NthBlock;
    SessionSucceeds(c, START, acks, [], room);
    SessionIsRun(c, START, acks, [], room, Always);
    SuccessMeansAllSent(c, START, acks, k);
    var run, out := SendRun(c, START, acks), Session(c, START, acks, [], room, Always);
    var i :| 0 <= i < |run.0| && run.0[i] == NthBlock(c, k);
    assert out.0[0 + i] == Gbt.Sent(run.0[i], room);
  }

  /** Old scratch contents that differ from the first block everywhere. */
  function Foreign(c: Cfg): (s: seq<byte>)
    requires ValidCfg(c)
    ensures |s| == MAX_OCTET && forall i :: 0 <= i < |NthBlock(c, 1).data| ==> s[i] != NthBlock(c, 1).data[i]
  {
    var data := NthBlock(c, 1).data;
    seq(MAX_OCTET, i requires 0 <= i < MAX_OCTET => if i < |data| && data[i] == 0 then 1 else 0)
  }

  /** The blocks from k on as they were sent, in order, received into such a scratch. */
  function CutEvents(c: Cfg, room: nat, k: nat): (es: seq<Event>)
    requires ValidCfg(c) && k >= 1
    ensures ValidEvents(es)
    decreases |c.apdu| - Start(c.payload, k)
  {
    if !IsIndex(c, k) then [] else [Frame(Gbt.Sent(NthBlock(c, k), room), Foreign(c))] + CutEvents(c, room, k + 1)
  }

  lemma {:induction false} CutEventsAre(c: Cfg, room: nat, k: nat, e: Event) returns (j: nat)
    requires ValidCfg(c) && k >= 1 && e in CutEvents(c, room, k)
    ensures IsIndex(c, j) && e.Frame? && e.octets == Gbt.Sent(NthBlock(c, j), room)
    decreases |c.apdu| - Start(c.payload, k)
  {
    hide NthBlock, Gbt.Sent, Foreign;
    if e == Frame(Gbt.Sent(NthBlock(c, k), room), Foreign(c)) { j := k; } else { j := CutEventsAre(c, room, k + 1, e); }
  }

  /** One cut block: it has its number and length, and an octet of the first block is replaced. */
  lemma CutBlock(c: Cfg, room: nat, k: nat) returns (b: Block)
    requires ValidCfg(c) && |Header(NthBlock(c, 1))| <= room && !Fits(c, room) && IsIndex(c, k)
    ensures Received(Frame(Gbt.Sent(NthBlock(c, k), room), Foreign(c))) == Ok(b)
    ensures b == NthBlock(c, k).(data := b.data) && |b.data| == |NthBlock(c, k).data|
    ensures var at := room - |Header(NthBlock(c, 1))|;
            at < |NthBlock(c, 1).data| && (k == 1 ==> b.data[at] != c.apdu[at])
  {
    hide Header, Decode, Gbt.Sent, Foreign;
    HeaderFits(c, room, k);
    var whole := NthBlock(c, k);
    DecodeSent(whole, room, Foreign(c));
    var kept := Min(room - |Header(whole)|, |whole.data|);
    b := whole.(data := whole.data[..kept] + Foreign(c)[kept..|whole.data|]);
    if k == 1 { assert b.data[kept] == Foreign(c)[kept] && whole.data[kept] == c.apdu[kept]; }
  }

  /** The receiver completes with an octet that was never sent at the place where the first block was cut. */
  lemma {:induction false} CutReception(c: Cfg, room: nat, k: nat, rx: Rx, size: nat, sent: seq<seq<byte>>,
                                        ackRoom: nat)
    requires ValidCfg(c) && |Header(NthBlock(c, 1))| <= room && !Fits(c, room) && IsIndex(c, k)
    requires |c.apdu| <= size && ackRoom >= 11 && rx.expected == k && |rx.acc| == Start(c.payload, k)
    requires k > 1 ==> var at := room - |Header(NthBlock(c, 1))|; at < |rx.acc| && rx.acc[at] != c.apdu[at]
    ensures var r := Reception(rx, CutEvents(c, room, k), size, sent, ackRoom, Always).1;
            r.Ok? && r.value != c.apdu
    decreases |c.apdu| - Start(c.payload, k)
  {
    hide Header, Gbt.Sent, Foreign, Received;
    IndexBound(c, k);
    var at := room - |Header(NthBlock(c, 1))|;
    var b := CutBlock(c, room, k);
    var events := CutEvents(c, room, k);
    assert events[0] == Frame(Gbt.Sent(NthBlock(c, k), room), Foreign(c)) && events[1..] == CutEvents(c, room, k + 1);
    var acc := rx.acc + b.data;
    assert at < |acc| && acc[at] != c.apdu[at];
    if !b.last {
      var out := RxStep(rx, b, size);
      var sent' := if out.acks == [] then sent else sent + [Gbt.Sent(out.acks[0], ackRoom)];
      assert out.rx.acc == acc && out.rx.expected == k + 1 && Start(c.payload, k + 1) == |acc|;
      CutReception(c, room, k + 1, out.rx, size, sent', ackRoom);
    }
  }

  /** Everything a transfer depends on besides its configuration and the sender's scratch. */
  datatype Delivery = Delivery(acks: seq<Event>, accepts: nat -> bool,
                               events: seq<Event>, size: nat, ackRoom: nat, ackAccepts: nat -> bool)

  /** The receiver is given nothing but frames this sender put on the link. */
  ghost predicate Delivers(c: Cfg, room: nat, x: Delivery)
    requires ValidCfg(c)
  {
    && ValidEvents(x.acks) && ValidEvents(x.events)
    && var frames := Session(c, START, x.acks, [], room, x.accepts).0;
       forall e :: e in x.events && e.Frame? ==> e.octets in frames
  }

  /** Then success means the sent APDU. */
  ghost predicate Harmless(c: Cfg, room: nat, x: Delivery)
    requires ValidCfg(c)
  {
    Delivers(c, room, x) ==>
      var r := Reception(IDLE, x.events, x.size, [], x.ackRoom, x.ackAccepts).1;
      r.Ok? ==> r.value == c.apdu
  }

  /**
   Without room for the largest frame, but with room for its header, a delivery of the transfer's own frames in order
   makes the receiver succeed with another APDU, whatever the number of blocks, window and kind of sender.
   */
  lemma ShortScratchCorrupts(c: Cfg, room: nat, size: nat, ackRoom: nat) returns (x: Delivery)
    requires ValidCfg(c) && |Header(NthBlock(c, 1))| <= room && !Fits(c, room) && |c.apdu| <= size && ackRoom >= 11
    ensures x.size == size && x.ackRoom == ackRoom && Delivers(c, room, x) && !Harmless(c, room, x)
  {
    hide Header, NthBlock, Gbt.Sent, Foreign, Reception, Fits;
    var acks := seq(|c.apdu|, _ => Yes());
    x := Delivery(acks, Always, CutEvents(c, room, 1), size, ackRoom, Always);
    forall e | e in x.events && e.Frame? ensures e.octets in Session(c, START, acks, [], room, Always).0 {
      var k := CutEventsAre(c, room, 1, e);
      AllOnTheLink(c, acks, room, k);
    }
    CutReception(c, room, 1, IDLE, size, [], ackRoom);
  }

  /** Without room for the header nothing is sent, and a receiver that is given nothing never succeeds. */
  lemma NothingSent(c: Cfg, room: nat, x: Delivery)
    requires ValidCfg(c) && |Header(NthBlock(c, 1))| > room
    ensures Harmless(c, room, x)
  {
    hide Header, NthBlock;
    if Delivers(c, room, x) && x.events != [] { assert x.events[0] in x.events; }
  }

  /** A transfer is safe under every delivery if and only if a whole frame fits the scratch or not even its header. */
  lemma TransferSafeIff(c: Cfg, room: nat)
    requires ValidCfg(c)
    ensures (forall x: Delivery :: Harmless(c, room, x)) <==> Fits(c, room) || |Header(NthBlock(c, 1))| > room
  {
    hide Harmless, Header, NthBlock;
    if Fits(c, room) {
      forall x: Delivery ensures Harmless(c, room, x) { FitsHarmless(c, room, x); }
    } else if |Header(NthBlock(c, 1))| > room {
      forall x: Delivery ensures Harmless(c, room, x) { NothingSent(c, room, x); }
    } else {
      var x := ShortScratchCorrupts(c, room, |c.apdu|, 11);
      NotAll(c, room, x);
    }
  }

  lemma FitsHarmless(c: Cfg, room: nat, x: Delivery)
    requires ValidCfg(c) && Fits(c, room)
    ensures Harmless(c, room, x)
  {
    hide Reception, Session, Fits;
    if Delivers(c, room, x) {
      TransferSafe(c, room, x.acks, x.accepts, x.events, x.size, x.ackRoom, x.ackAccepts);
    }
  }

  lemma NotAll(c: Cfg, room: nat, x: Delivery)
    requires ValidCfg(c) && !Harmless(c, room, x)
    ensures !forall y: Delivery :: Harmless(c, room, y)
  {}
}
