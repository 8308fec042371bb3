/**
 Where the octets of a reassembled APDU come from (src/service/gbt.c:146-225): which received frame held each of them,
 and when all of them stood in the first one.
 */
module GbtOrigin {
  import opened Octets
  import opened Lengths
  import opened Gbt
  import opened GbtTransfer
  import opened GbtReceive

  /** An octet of a frame, by its position there, or one the frame lacked and the old block contents supplied. */
  datatype Src = InFrame(event: nat, at: nat) | InScratch(event: nat, at: nat)

  /** The payload of a frame that decodes, octet by octet. */
  function PayloadSources(octets: seq<byte>, event: nat): seq<Src> {
    if |octets| < 6 || LenAt(octets, 6).Fail? then []
    else
      var (n, pos) := LenAt(octets, 6).value;
      seq(n, i requires 0 <= i < n => if pos + i < |octets| then InFrame(event, pos + i) else InScratch(event, i))
  }

  /** The whole payload that a frame declares is in it. */
  predicate Complete(octets: seq<byte>) {
    |octets| >= 6 && LenAt(octets, 6).Ok? && LenAt(octets, 6).value.1 + LenAt(octets, 6).value.0 <= |octets|
  }

  /** What a source denotes among these events, the first of which has number `base`. */
  ghost predicate Denotes(events: seq<Event>, base: nat, src: Src, x: byte) {
    && base <= src.event < base + |events| && events[src.event - base].Frame?
    && match src
       case InFrame(e, at) => at < |events[e - base].octets| && events[e - base].octets[at] == x
       case InScratch(e, at) => at < |events[e - base].stale| && events[e - base].stale[at] == x
  }

  /** The sources of the APDU that a reception yields, `src` being those of what is held already. */
  ghost function Sources(rx: Rx, src: seq<Src>, events: seq<Event>, base: nat, size: nat, sent: seq<seq<byte>>,
                         room: nat, accepts: nat -> bool): seq<Src>
    requires ValidEvents(events)
    decreases |events|
  {
    if events == [] || Received(events[0]).Fail? then []
    else
      var b := Received(events[0]).value;
      var now := if b.number == rx.expected then src + PayloadSources(events[0].octets, base) else src;
      match RxStep(rx, b, size)
      case Done(_) => now
      case Broken(_) => []
      case More(rx', acks) =>
        var sent' := if acks == [] then sent else sent + [Gbt.Sent(acks[0], room)];
        if acks != [] && (|Header(acks[0])| > room || !accepts(|sent|)) then []
        else Sources(rx', now, events[1..], base + 1, size, sent', room, accepts)
  }

  /** One source for each octet. */
  ghost predicate Explains(events: seq<Event>, base: nat, src: seq<Src>, octets: seq<byte>) {
    |src| == |octets| && forall j :: 0 <= j < |src| ==> Denotes(events, base, src[j], octets[j])
  }

  /** A payload is explained by its own frame. */
  lemma PayloadExplained(events: seq<Event>, base: nat, b: Block)
    requires events != [] && ValidEvents(events) && Received(events[0]) == Ok(b)
    ensures events[0].Frame? && Explains(events, base, PayloadSources(events[0].octets, base), b.data)
  {
    hide LenAt;
    assert events[0] in events;
  }

  lemma ExplainsLater(events: seq<Event>, base: nat, src: seq<Src>, octets: seq<byte>)
    requires events != [] && Explains(events[1..], base + 1, src, octets)
    ensures Explains(events, base, src, octets)
  {
    forall j | 0 <= j < |src| ensures Denotes(events, base, src[j], octets[j]) {
      assert Denotes(events[1..], base + 1, src[j], octets[j]);
      assert events[1..][src[j].event - base - 1] == events[src[j].event - base];
    }
  }

  lemma ExplainsJoin(events: seq<Event>, base: nat, a: seq<Src>, x: seq<byte>, b: seq<Src>, y: seq<byte>)
    requires Explains(events, base, a, x) && Explains(events, base, b, y)
    ensures Explains(events, base, a + b, x + y)
  {
    hide Denotes;
  }

  /** What a reception adds to the octets it starts with, and its sources: both extend what was there. */
  lemma {:induction false} SourcesTell(rx: Rx, src: seq<Src>, events: seq<Event>, base: nat, size: nat,
                                       sent: seq<seq<byte>>, room: nat, accepts: nat -> bool)
    requires ValidEvents(events) && |src| == |rx.acc|
    requires Reception(rx, events, size, sent, room, accepts).1.Ok?
    ensures var apdu := Reception(rx, events, size, sent, room, accepts).1.value;
            var all := Sources(rx, src, events, base, size, sent, room, accepts);
            && rx.acc <= apdu && src <= all && |all| == |apdu|
            && Explains(events, base, all[|src|..], apdu[|src|..])
    decreases |events|
  {
    hide Received, Explains, PayloadSources, Header, Gbt.Sent;
    var b := Received(events[0]).value;
    PayloadExplained(events, base, b);
    var own := PayloadSources(events[0].octets, base);
    assert |own| == |b.data| by { SameLength(events, base, own, b.data); }
    var apdu := Reception(rx, events, size, sent, room, accepts).1.value;
    var all := Sources(rx, src, events, base, size, sent, room, accepts);
    var out := RxStep(rx, b, size);
    if out.Done? {
      assert all[|src|..] == own && apdu[|src|..] == b.data;
    } else {
      var mine := b.number == rx.expected;
      var now := if mine then src + own else src;
      var sent' := if out.acks == [] then sent else sent + [Gbt.Sent(out.acks[0], room)];
      SourcesTell(out.rx, now, events[1..], base + 1, size, sent', room, accepts);
      ExplainsLater(events, base, all[|now|..], apdu[|now|..]);
      if mine {
        ExplainsJoin(events, base, own, b.data, all[|now|..], apdu[|now|..]);
        assert all[|src|..] == own + all[|now|..] && apdu[|src|..] == b.data + apdu[|now|..];
      }
    }
  }

  lemma SameLength(events: seq<Event>, base: nat, src: seq<Src>, octets: seq<byte>)
    requires Explains(events, base, src, octets)
    ensures |src| == |octets|
  {}

  // ── All octets from the first frame ────────────────────────────────────────

  /** Every octet stood in the first frame. */
  ghost predicate AllInFirst(src: seq<Src>) { forall j :: 0 <= j < |src| ==> src[j].InFrame? && src[j].event == 0 }

  lemma LaterEvents(events: seq<Event>, base: nat, src: seq<Src>, octets: seq<byte>)
    requires Explains(events, base, src, octets)
    ensures forall j :: 0 <= j < |src| ==> src[j].event >= base
  {
    forall j | 0 <= j < |src| ensures src[j].event >= base { assert Denotes(events, base, src[j], octets[j]); }
  }

  /** The APDU is exactly the payload of this frame, which is block 1 and holds all of it. */
  ghost predicate Alone(octets: seq<byte>, stale: seq<byte>, apdu: seq<byte>)
    requires |stale| == MAX_OCTET && Decode(octets, stale).Ok?
  {
    var b := Decode(octets, stale).value;
    b.number == 1 && Complete(octets) && |apdu| == |b.data|
  }

  /** A non-empty APDU comes whole from the first frame if and only if that is block 1, complete, and all of it. */
  lemma FirstFrameIff(octets: seq<byte>, stale: seq<byte>, events: seq<Event>, size: nat, room: nat,
                      accepts: nat -> bool)
    requires |stale| == MAX_OCTET && ValidEvents([Frame(octets, stale)] + events)
    requires var r := Reception(IDLE, [Frame(octets, stale)] + events, size, [], room, accepts).1;
             r.Ok? && r.value != []
    ensures var all := [Frame(octets, stale)] + events;
            && Decode(octets, stale).Ok?
            && (AllInFirst(Sources(IDLE, [], all, 0, size, [], room, accepts)) <==>
                  Alone(octets, stale, Reception(IDLE, all, size, [], room, accepts).1.value))
  {
    hide Explains, Header, Gbt.Sent, LenAt;
    var all := [Frame(octets, stale)] + events;
    assert all[0] == Frame(octets, stale) && all[1..] == events;
    var apdu := Reception(IDLE, all, size, [], room, accepts).1.value;
    var src := Sources(IDLE, [], all, 0, size, [], room, accepts);
    SourcesTell(IDLE, [], all, 0, size, [], room, accepts);
    var b := Decode(octets, stale).value;
    var own := PayloadSources(octets, 0);
    var out := RxStep(IDLE, b, size);
    assert [] + own == own && [] + b.data == b.data;
    var now: seq<Src> := if b.number == 1 then own else [];
    if out.More? {
      assert ValidEvents(events);
      var sent' := if out.acks == [] then [] else [] + [Gbt.Sent(out.acks[0], room)];
      SourcesTell(out.rx, now, events, 1, size, sent', room, accepts);
      assert src == Sources(out.rx, now, events, 1, size, sent', room, accepts);
      LaterEvents(events, 1, src[|now|..], apdu[|now|..]);
      forall j | |now| <= j < |src| ensures src[j].event >= 1 { assert src[j] == src[|now|..][j - |now|]; }
    }
    FirstPart(octets, own, src, now);
  }

  /** It is then the part of that frame behind the length. */
  lemma FirstFrameText(octets: seq<byte>, stale: seq<byte>, events: seq<Event>, size: nat, room: nat,
                       accepts: nat -> bool)
    requires |stale| == MAX_OCTET && ValidEvents([Frame(octets, stale)] + events)
    requires var r := Reception(IDLE, [Frame(octets, stale)] + events, size, [], room, accepts).1;
             r.Ok? && r.value != []
    requires AllInFirst(Sources(IDLE, [], [Frame(octets, stale)] + events, 0, size, [], room, accepts))
    ensures Complete(octets)
    ensures var (n, pos) := LenAt(octets, 6).value;
            Reception(IDLE, [Frame(octets, stale)] + events, size, [], room, accepts).1.value == octets[pos..pos + n]
  {
    hide Header, Gbt.Sent, LenAt, AllInFirst, Explains, Sources;
    var all := [Frame(octets, stale)] + events;
    assert all[0] == Frame(octets, stale) && all[1..] == events;
    FirstFrameIff(octets, stale, events, size, room, accepts);
    var (n, pos) := LenAt(octets, 6).value;
    var b := Decode(octets, stale).value;
    var out := RxStep(IDLE, b, size);
    assert [] + b.data == b.data == octets[pos..pos + n];
    if out.More? {
      var sent' := if out.acks == [] then [] else [] + [Gbt.Sent(out.acks[0], room)];
      SourcesTell(out.rx, PayloadSources(octets, 0), events, 1, size, sent', room, accepts);
    }
  }

  /** Nothing but the payload of the first frame, in octets of that frame. */
  lemma FirstPart(octets: seq<byte>, own: seq<Src>, src: seq<Src>, now: seq<Src>)
    requires own == PayloadSources(octets, 0) && now <= src && (now == own || now == []) && src != []
    requires |octets| >= 6 && LenAt(octets, 6).Ok? && forall j :: |now| <= j < |src| ==> src[j].event >= 1
    ensures AllInFirst(src) <==> now == own && |src| == |own| && Complete(octets)
  {
    hide LenAt;
    var (n, pos) := LenAt(octets, 6).value;
    assert |own| == n;
    var z := src[|src| - 1];
    if AllInFirst(src) {
      assert z.event == 0;
      assert src == now == own;
      if n > 0 { assert src[n - 1].InFrame?; }
    }
  }

  // ── Whatever else arrives ──────────────────────────────────────────────────

  function Zeros(): (s: seq<byte>)
    ensures |s| == MAX_OCTET
  {
    seq(MAX_OCTET, _ => 0)
  }

  /** Old block contents, the frames after the first, and a transport for acknowledgements. */
  datatype Rest = Rest(stale: seq<byte>, events: seq<Event>, accepts: nat -> bool)

  ghost predicate ValidRest(x: Rest) { |x.stale| == MAX_OCTET && ValidEvents(x.events) }

  /** All that arrives, the first frame included. */
  function Arrives(octets: seq<byte>, x: Rest): (all: seq<Event>)
    requires ValidRest(x)
    ensures ValidEvents(all)
  {
    [Frame(octets, x.stale)] + x.events
  }

  /** With this rest, a non-empty APDU comes whole from the first frame. */
  ghost predicate FirstOnly(octets: seq<byte>, size: nat, room: nat, x: Rest)
    requires ValidRest(x)
  {
    var r := Reception(IDLE, Arrives(octets, x), size, [], room, x.accepts).1;
    r.Ok? && r.value != [] ==> AllInFirst(Sources(IDLE, [], Arrives(octets, x), 0, size, [], room, x.accepts))
  }

  /** The frame cannot be decoded, or it is block 1, the last, and complete. */
  predicate Sealed(octets: seq<byte>) {
    var b := Decode(octets, Zeros());
    b.Fail? || (b.value.number == 1 && b.value.last && Complete(octets))
  }

  /** The old contents of a block show in its payload only. */
  lemma DecodeAlike(octets: seq<byte>, stale: seq<byte>)
    requires |stale| == MAX_OCTET
    ensures var a, b := Decode(octets, stale), Decode(octets, Zeros());
            && (a.Ok? <==> b.Ok?)
            && (a.Ok? ==> a.value == b.value.(data := a.value.data) && |a.value.data| == |b.value.data|)
  {
    hide LenAt;
  }

  lemma SealedHolds(octets: seq<byte>, size: nat, room: nat, x: Rest)
    requires Sealed(octets) && ValidRest(x)
    ensures FirstOnly(octets, size, room, x)
  {
    hide Sources, AllInFirst, Complete, Decode;
    var all := Arrives(octets, x);
    DecodeAlike(octets, x.stale);
    assert all[0] == Frame(octets, x.stale);
    var r := Reception(IDLE, all, size, [], room, x.accepts).1;
    if r.Ok? && r.value != [] { FirstFrameIff(octets, x.stale, x.events, size, room, x.accepts); }
  }

  /** A last block with a single octet. */
  function Single(n: u16): Block { Block(true, false, 0, n, 0, [0xC0]) }

  function SingleEvent(n: u16): (e: Event)
    ensures e.Frame? && |e.stale| == MAX_OCTET
  {
    Frame(Wire(Single(n)), Zeros())
  }

  lemma SingleReceived(n: u16)
    ensures Received(SingleEvent(n)) == Ok(Single(n))
  {
    assert Gbt.Sent(Single(n), |Wire(Single(n))|) == Wire(Single(n));
    RoundTrip(Single(n), |Wire(Single(n))|, Zeros());
  }

  /** Otherwise one further block, or the old contents, add an octet that the first frame does not hold. */
  lemma NotSealedFails(octets: seq<byte>, size: nat, room: nat) returns (x: Rest)
    requires !Sealed(octets) && size > MAX_OCTET && room >= 11
    ensures ValidRest(x) && !FirstOnly(octets, size, room, x)
    ensures |Reception(IDLE, Arrives(octets, x), size, [], room, x.accepts).1.value| <= MAX_OCTET + 1
  {
    hide Decode, LenAt, Header, Gbt.Sent, Sources, AllInFirst;
    var b := Decode(octets, Zeros()).value;
    var next: u16 := if b.number == 1 then 2 else 1;
    x := Rest(Zeros(), if b.number == 1 && b.last then [] else [SingleEvent(next)], Always);
    var all := Arrives(octets, x);
    assert all[0] == Frame(octets, Zeros()) && all[1..] == x.events;
    var r := Reception(IDLE, all, size, [], room, Always).1;
    var out := RxStep(IDLE, b, size);
    assert [] + b.data == b.data;
    if b.number == 1 && b.last {
      IncompleteData(octets);
    } else {
      SingleReceived(next);
      assert x.events[0] == SingleEvent(next) && x.events[1..] == [];
      assert out.More? && out.rx.expected == next;
      var sent' := if out.acks == [] then [] else [] + [Gbt.Sent(out.acks[0], room)];
      assert r == Reception(out.rx, x.events, size, sent', room, Always).1;
      assert r == Ok(out.rx.acc + [0xC0]);
    }
    FirstFrameIff(octets, Zeros(), x.events, size, room, Always);
  }

  lemma IncompleteData(octets: seq<byte>)
    requires Decode(octets, Zeros()).Ok? && !Complete(octets)
    ensures Decode(octets, Zeros()).value.data != []
  {
    hide LenAt;
    LenInside(octets);
  }

  lemma LenInside(octets: seq<byte>)
    requires |octets| >= 6 && LenAt(octets, 6).Ok?
    ensures LenAt(octets, 6).value.1 <= |octets|
  {}

  /**
   Whatever else arrives, everything reassembled stood in the first frame: exactly if that frame is undecodable, or
   complete, block 1 and the last.
   */
  lemma FirstOnlyIff(octets: seq<byte>, size: nat, room: nat)
    requires size > MAX_OCTET && room >= 11
    ensures (forall x: Rest :: ValidRest(x) ==> FirstOnly(octets, size, room, x)) <==> Sealed(octets)
  {
    hide FirstOnly, Sealed, ValidRest;
    if Sealed(octets) {
      forall x: Rest | ValidRest(x) ensures FirstOnly(octets, size, room, x) { SealedHolds(octets, size, room, x); }
    } else {
      var x := NotSealedFails(octets, size, room);
      NotAllRests(octets, size, room, x);
    }
  }

  lemma NotAllRests(octets: seq<byte>, size: nat, room: nat, x: Rest)
    requires ValidRest(x) && !FirstOnly(octets, size, room, x)
    ensures !forall y: Rest :: ValidRest(y) ==> FirstOnly(octets, size, room, y)
  {}
}
