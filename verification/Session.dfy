/**
 The server session (src/server/server.c:88-122, 196-227, 310-345, 529-627, 1222-1460): association, handshake,
 ciphering and dispatch as one step per received message, and what every run keeps.
 */
module Session {
  import opened Octets
  import opened Protect
  import T = GbtTransfer
  import R = GbtReceive
  import KuznyechikModes
  import Hls
  import Acl

  // ── Messages and state ─────────────────────────────────────────────────────

  const AARQ: byte := 0x60
  const AARE: byte := 0x61
  const RLRQ: byte := 0x62
  const GET: byte := 0xC0
  const SET: byte := 0xC1
  const ACTION: byte := 0xC3
  const BLOCKS: byte := 0xE0

  /** osp_gbt_applies_to_apdu: the xDLMS services that ciphering and block transfer apply to. */
  predicate Applies(apdu: seq<byte>) { apdu != [] && apdu[0] in {GET, SET, 0xC2, ACTION, 0xC4, 0xC5, 0xC7, 0x0F} }

  /** An association request as decoded; `refused` is the outcome of aarq_validate. */
  datatype Aarq = Aarq(mech: byte, context: byte, title: seq<byte>, auth: Acl.Secret, dedicated: Option<Dedicated>,
                       refused: bool)

  /**
   What the handlers make of a decoded request: pass 3, a service with the objects it addresses, its one response and
   a notification that was queued meanwhile, or nothing but perhaps a response.
   */
  datatype Request =
    | Pass3(msg: seq<byte>)
    | Service(targets: seq<Acl.Target>, reply: Option<seq<byte>>, push: Option<seq<byte>>)
    | Undecodable(reply: Option<seq<byte>>)

  datatype Random = NoGenerator | Failed | Drawn(stoc: Hls.Challenge)

  /** Old contents of a block, and the messages that follow on the link. */
  type Stale = s: seq<byte> | |s| == 256 witness seq(256, _ => 0)
  type Inbox = s: seq<T.Event> | T.ValidEvents(s)

  /** Decoders, randomness and the link during a reassembly, which may behave differently at every step. */
  datatype Env = Env(aarq: seq<byte> -> Option<Aarq>, rlrq: seq<byte> -> bool, random: Random,
                     request: seq<byte> -> Request, stale: Stale, blocks: Inbox, takes: nat -> bool,
                     pass3Reply: seq<byte>)

  /** osp_server_t: session flags, the security context of the handshake, both cipher contexts, and the associations. */
  datatype Srv = Srv(associated: bool, hlsPending: bool, ciphering: bool, gbt: bool, security: Hls.Side,
                     base: Ctx, tx: Ctx, rx: Ctx, assocs: seq<Acl.Assoc>, objects: seq<Acl.Obj>, sap: nat,
                     bound: Acl.Option<Acl.Assoc>)

  /** A received message, a transport failure, or a notification the application sends of its own accord. */
  datatype Input = Received(apdu: seq<byte>, env: Env) | Disconnected | IoError | OtherError | Notify(apdu: seq<byte>)

  /** What a step lets the outside see; `outer` marks a frame accepted in front of the association gate. */
  datatype Ev =
    | Accessed(target: Acl.Target, under: Acl.Option<Acl.Assoc>)
    | SentCiphered(iv: Iv, ic: u32)
    | SentPlain(apdu: seq<byte>)
    | Accepted(ic: u32, outer: bool)

  type Iv = KuznyechikModes.Iv

  // ── Sending ────────────────────────────────────────────────────────────────

  /** osp_svc_cipher_tag_for_plain. */
  function CipherTag(c: Ctx, plain: byte): byte {
    if 0xC0 <= plain <= 0xC7 then (if c.dedicated.Some? then plain + 0x10 else plain + 8) else plain
  }

  /** server_send with block transfer off: a counter value is used at most once, and never 2^32 - 1. */
  function Send(h: Hal, s: Srv, apdu: seq<byte>): (Srv, seq<Ev>) {
    if s.ciphering && Applies(apdu) then
      if Protected(h, s.tx, CipherTag(s.tx, apdu[0]), apdu).None? || s.tx.ic == 0xFFFF_FFFF then (s, [])
      else (s.(tx := s.tx.(ic := s.tx.ic + 1)), [SentCiphered(IvOf(s.tx.title, s.tx.ic), s.tx.ic)])
    else (s, [SentPlain(apdu)])
  }

  /** server_send_service: the response, and if it went out the queued notification. */
  function Answer(h: Hal, s: Srv, reply: Option<seq<byte>>, push: Option<seq<byte>>): (Srv, seq<Ev>) {
    if reply.None? then (s, [])
    else
      var (s1, e1) := Send(h, s, reply.value);
      if e1 == [] || push.None? then (s1, e1)
      else
        var (s2, e2) := Send(h, s1, push.value);
        (s2, e1 + e2)
  }

  const EXCEPTION: seq<byte> := [0xD8]

  // ── Association ────────────────────────────────────────────────────────────

  function Clear(s: Srv): Srv { s.(associated := false, hlsPending := false, ciphering := false) }

  predicate MechMatches(mech: nat, assoc: nat) { mech == assoc || (mech == 2 && assoc == 5) }

  /** server_pick_association: by client address, else by mechanism, else the bound one. */
  function Pick(assocs: seq<Acl.Assoc>, sap: nat, mech: nat, byMech: Acl.Option<Acl.Assoc>,
                bound: Acl.Option<Acl.Assoc>): Acl.Option<Acl.Assoc> {
    if assocs == [] then (if byMech.Some? then byMech else bound)
    else
      var a := assocs[0];
      if a.sap == 0 then Pick(assocs[1..], sap, mech, byMech, bound)
      else if sap != 0 && a.sap % 256 == sap then Acl.Some(a)
      else
        var byMech' := if byMech.None? && MechMatches(mech, a.mech) then Acl.Some(a) else byMech;
        Pick(assocs[1..], sap, mech, byMech', bound)
  }

  function MechOf(m: byte): Hls.Mech {
    match m
    case 2 => Hls.High case 3 => Hls.Md5 case 4 => Hls.Sha1 case 5 => Hls.Gmac case 6 => Hls.Sha256 case 7 => Hls.Ecdsa
    case 8 => Hls.GostCmac case 9 => Hls.GostStreebog case 10 => Hls.GostSig
    case _ => Hls.Lowest
  }

  predicate Handshake(m: byte) { 2 <= m <= 10 }

  function Cut(s: seq<byte>): Hls.Challenge { if |s| > Hls.CHALLENGE_MAX then s[..Hls.CHALLENGE_MAX] else s }

  /** The handshake branch: challenges and titles are taken over, and StoC drawn. */
  function StartHls(s: Srv, a: Aarq, assoc: Acl.Option<Acl.Assoc>, random: Random): (Srv, bool) {
    var mech := MechOf(a.mech);
    if random.NoGenerator? then (s, false)
    else if a.mech == 2 && (assoc.None? || assoc.value.secret == []) then (s, false)
    else
      var secret := if a.mech == 2 then Cut(assoc.value.secret) else [];
      var sec := s.security.(mech := mech, secret := secret);
      if a.mech == 2 && |Cut(a.auth)| != 16 then (s.(security := sec), false)
      else
        var sec' := sec.(ctos := Cut(a.auth), peerTitle := if |a.title| == 8 then a.title else sec.peerTitle);
        if random.Drawn? then (s.(security := sec'.(stoc := random.stoc), hlsPending := true), true)
        else (s.(security := sec'), false)
  }

  /** The decision of handle_aarq: the state and whether the association is accepted. */
  function Decide(s0: Srv, a: Aarq, random: Random): (Srv, bool) {
    var assoc := Pick(s0.assocs, s0.sap, a.mech, Acl.None, s0.bound);
    var s := s0.(bound := if assoc.Some? then assoc else s0.bound, associated := false, hlsPending := false);
    if a.refused then (s, false)
    else if a.mech == 0 then
      if assoc.Some? && assoc.value.mech != 0 then (s, false) else (s.(associated := true), true)
    else if a.mech == 1 then
      if assoc.None? || assoc.value.secret == [] || a.auth != assoc.value.secret then (s, false)
      else (s.(associated := true), true)
    else if Handshake(a.mech) then StartHls(s, a, assoc, random)
    else (s, false)
  }

  /** The handshake context as a cipher context. */
  function Seed(s: Srv): Ctx {
    s.base.(title := s.security.title, peerTitle := s.security.peerTitle, ic := s.security.ic)
  }

  /** server_apply_ciphering_for_aarq, and the dedicated key of the initiate request. */
  function ApplyCiphering(s: Srv, a: Aarq, accepted: bool): Srv {
    if !accepted || !(a.context == 3 || a.context == 4) then s.(ciphering := false)
    else
      var tx := if s.ciphering then s.tx else Seed(s);
      var rx := if s.ciphering then s.rx else Seed(s);
      s.(ciphering := true, tx := Restart(tx, a), rx := Restart(rx, a))
  }

  /** A fresh association: replay state off, the client's title, and its key if it sent one. */
  function Restart(c: Ctx, a: Aarq): Ctx {
    c.(icValid := false, lastPeerIc := 0, peerTitle := if |a.title| == 8 then a.title else c.peerTitle,
       dedicated := if a.dedicated.Some? && a.dedicated.value != [] then a.dedicated else c.dedicated)
  }

  function HandleAarq(h: Hal, s: Srv, a: Aarq, random: Random): (Srv, seq<Ev>) {
    var (s1, accepted) := Decide(s, a, random);
    Send(h, ApplyCiphering(s1, a, accepted), [AARE])
  }

  /** handle_hls_pass3. */
  function HandlePass3(k: Hls.Crypto, s: Srv, msg: seq<byte>, reply: seq<byte>): (Srv, seq<Ev>) {
    if msg == [] then (s, [])
    else
      var (code, sec) := Hls.Verify3(k, s.security, msg);
      if code != 0 then Send(k.hal, s.(security := sec), reply)
      else
        var (answer, sec') := Hls.Build4(k, sec);
        var s1 := s.(security := sec', associated := true, hlsPending := false);
        if answer.None? then (s1, []) else Send(k.hal, s1, reply)
  }

  // ── Deciphering ────────────────────────────────────────────────────────────

  /** The outbound context follows an accepted frame; the sum is 32 bits wide. */
  function Align(s: Srv): Srv {
    var ic := if s.tx.ic <= s.rx.lastPeerIc then (s.rx.lastPeerIc + 1) % 0x1_0000_0000 else s.tx.ic;
    s.(tx := s.tx.(ic := ic, policy := s.rx.policy))
  }

  /** Nothing but the outbound counter and policy is touched. */
  lemma AlignFrame(s: Srv)
    ensures Align(s) == s.(tx := s.tx.(ic := Align(s).tx.ic, policy := s.rx.policy))
    ensures Align(s).tx.ic == if s.tx.ic <= s.rx.lastPeerIc then (s.rx.lastPeerIc + 1) % 0x1_0000_0000 else s.tx.ic
  {}

  /** One attempt to decipher: nothing to do, refused, or the plaintext. */
  datatype Deciphered = Untouched | Refused | Opened(text: seq<byte>)

  function Decipher(h: Hal, s: Srv, apdu: seq<byte>, outer: bool): (Deciphered, Srv, seq<Ev>) {
    if !s.ciphering || apdu == [] || !IsCiphered(apdu[0]) then (Untouched, s, [])
    else
      var (out, rx) := Unprotected(h, s.rx, apdu);
      if out.Plain? then (Opened(out.text), s.(rx := rx), [Accepted(rx.lastPeerIc, outer)]) else (Refused, s, [])
  }

  // ── One step ───────────────────────────────────────────────────────────────

  /** The dispatcher's calls for these targets: those that are implemented and permitted, in order. */
  ghost function Accesses(targets: seq<Acl.Target>, objects: seq<Acl.Obj>, bound: Acl.Option<Acl.Assoc>): seq<Ev> {
    if targets == [] then []
    else
      var t := targets[0];
      (if Acl.Implemented(objects, t) && Acl.Permitted(bound, t) then [Accessed(t, bound)] else [])
      + Accesses(targets[1..], objects, bound)
  }

  /** The service switch at the end of osp_server_accept. */
  ghost function Serve(k: Hls.Crypto, s: Srv, apdu: seq<byte>, env: Env): (Srv, seq<Ev>) {
    if apdu == [] || !(apdu[0] == GET || apdu[0] == SET || apdu[0] == ACTION) then Send(k.hal, s, EXCEPTION)
    else
      match env.request(apdu)
      case Undecodable(reply) => Answer(k.hal, s, reply, None)
      case Pass3(msg) => if apdu[0] == ACTION then HandlePass3(k, s, msg, env.pass3Reply) else (s, [])
      case Service(targets, reply, push) =>
        var (s1, sent) := Answer(k.hal, s, reply, push);
        (s1, Accesses(targets, s.objects, s.bound) + sent)
  }

  const SCRATCH: nat := 4096    // server_rx_scratch
  const PDU: nat := 1024        // rx_buf and tx_buf

  /** The block transfer branch: the APDU that the receiver assembles from this block on, if it fits. */
  function Reassembled(apdu: seq<byte>, env: Env): Option<seq<byte>> {
    match R.Reception(R.IDLE, Blocks(apdu, env), SCRATCH, [], PDU, env.takes).1
    case Ok(whole) => if whole == [] || |whole| > PDU then None else Some(whole)
    case Fail(_) => None
  }

  /** The messages of a reassembly: the one at hand, then those from the link. */
  function Blocks(apdu: seq<byte>, env: Env): (all: seq<T.Event>)
    ensures T.ValidEvents(all)
  {
    R.Pending(apdu, env.stale, env.blocks)
  }

  predicate IsBlock(apdu: seq<byte>) { apdu != [] && apdu[0] == BLOCKS }

  /** What stands behind the gate once a block transfer has been reassembled, or nothing. */
  function Whole(s: Srv, apdu: seq<byte>, env: Env): Option<seq<byte>> {
    if IsBlock(apdu) then (if s.gbt then Reassembled(apdu, env) else None) else Some(apdu)
  }

  /** After the association gate: reassembly, a second deciphering, and the plaintext gate. */
  ghost function Gated(k: Hls.Crypto, s: Srv, apdu: seq<byte>, ciphered: bool, env: Env): (Srv, seq<Ev>) {
    if Whole(s, apdu, env).None? then (s, [])
    else
      var whole := Whole(s, apdu, env).value;
      var (d, s1, got) := Decipher(k.hal, s, whole, false);
      if d.Refused? then Send(k.hal, s1, EXCEPTION)
      else
        var text := if d.Opened? then d.text else whole;
        if s1.ciphering && !ciphered && !d.Opened? && Applies(text) then Send(k.hal, s1, EXCEPTION)
        else
          var (s2, e) := Serve(k, s1, text, env);
          (s2, got + e)
  }

  /** Before the association only pass 3 is heard. */
  ghost function Ungated(k: Hls.Crypto, s: Srv, apdu: seq<byte>, env: Env): (Srv, seq<Ev>) {
    if s.hlsPending && apdu != [] && apdu[0] == ACTION && env.request(apdu).Pass3? then
      HandlePass3(k, s, env.request(apdu).msg, env.pass3Reply)
    else Send(k.hal, s, EXCEPTION)
  }

  /** osp_server_accept for one received APDU. */
  ghost function Accept(k: Hls.Crypto, s: Srv, apdu: seq<byte>, env: Env): (Srv, seq<Ev>) {
    if apdu == [] then (s, [])
    else if apdu[0] == AARQ || apdu[0] == AARE then
      match env.aarq(apdu)
      case None => (s, [])
      case Some(a) => HandleAarq(k.hal, s, a, env.random)
    else if apdu[0] == RLRQ then
      if env.rlrq(apdu) then Send(k.hal, Clear(s), [0x63]) else (s, [])
    else
      var (d, s1, got) := Decipher(k.hal, s, apdu, true);
      if d.Refused? then Send(k.hal, s1, EXCEPTION)
      else if d.Opened? && d.text == [] then
        var (s2, e) := Send(k.hal, Align(s1), EXCEPTION);
        (s2, got + e)
      else
        var (text, s2) := if d.Opened? then (d.text, Align(s1)) else (apdu, s1);
        var (s3, e) := if s2.associated then Gated(k, s2, text, d.Opened?, env) else Ungated(k, s2, text, env);
        (s3, got + e)
  }

  ghost function Step(k: Hls.Crypto, s: Srv, i: Input): (Srv, seq<Ev>) {
    match i
    case Received(apdu, env) => Accept(k, s, apdu, env)
    case Disconnected => (Clear(s), [])
    case IoError => (Clear(s), [])
    case OtherError => (s, [])
    case Notify(apdu) => if s.associated then Send(k.hal, s, apdu) else (s, [])
  }

  ghost function Run(k: Hls.Crypto, s: Srv, inputs: seq<Input>): (Srv, seq<Ev>)
    decreases |inputs|
  {
    if inputs == [] then (s, [])
    else
      var (s1, e1) := Step(k, s, inputs[0]);
      var (s2, e2) := Run(k, s1, inputs[1..]);
      (s2, e1 + e2)
  }
}
