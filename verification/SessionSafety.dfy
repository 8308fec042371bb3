/** What every run of the server session keeps. */
module SessionSafety {
  import opened Octets
  import opened Protect
  import opened Lengths
  import opened Session
  import Gbt
  import T = GbtTransfer
  import R = GbtReceive
  import O = GbtOrigin
  import Hls
  import Acl

  // ── Association state ──────────────────────────────────────────────────────

  ghost predicate Exclusive(s: Srv) { !(s.associated && s.hlsPending) }

  lemma SendFrame(h: Hal, s: Srv, apdu: seq<byte>)
    ensures var s1 := Send(h, s, apdu).0; s1 == s.(tx := s.tx.(ic := s1.tx.ic))
  {
    hide Protected, IvOf, Applies, CipherTag;
  }

  lemma AnswerFrame(h: Hal, s: Srv, reply: Option<seq<byte>>, push: Option<seq<byte>>)
    ensures var s1 := Answer(h, s, reply, push).0; s1 == s.(tx := s.tx.(ic := s1.tx.ic))
  {
    hide Send;
    if reply.Some? {
      SendFrame(h, s, reply.value);
      if push.Some? { SendFrame(h, Send(h, s, reply.value).0, push.value); }
    }
  }

  lemma Pass3Frame(k: Hls.Crypto, s: Srv, msg: seq<byte>, reply: seq<byte>)
    ensures var s1 := HandlePass3(k, s, msg, reply).0;
            && s1 == s.(tx := s.tx.(ic := s1.tx.ic), security := s1.security, associated := s1.associated,
                        hlsPending := s1.hlsPending)
            && ((s1.associated == s.associated && s1.hlsPending == s.hlsPending) ||
                (s1.associated && !s1.hlsPending && msg != [] && Hls.Verify3(k, s.security, msg).0 == 0))
  {
    hide Send, Hls.Verify3, Hls.Build4;
    if msg != [] {
      var (code, sec) := Hls.Verify3(k, s.security, msg);
      var (answer, sec') := Hls.Build4(k, sec);
      SendFrame(k.hal, s.(security := sec), reply);
      SendFrame(k.hal, s.(security := sec', associated := true, hlsPending := false), reply);
    }
  }

  lemma DecipherFrame(h: Hal, s: Srv, apdu: seq<byte>, outer: bool)
    ensures var (d, s1, got) := Decipher(h, s, apdu, outer); s1 == s.(rx := s1.rx)
  {
    hide Unprotected, IsCiphered;
  }

  /** The flags after the service switch: unchanged, or set by a verified pass 3. */
  lemma ServeFlags(k: Hls.Crypto, s: Srv, apdu: seq<byte>, env: Env)
    ensures var s1 := Serve(k, s, apdu, env).0;
            && s1.ciphering == s.ciphering && s1.bound == s.bound && s1.assocs == s.assocs && s1.gbt == s.gbt
            && s1.rx == s.rx
            && ((s1.associated == s.associated && s1.hlsPending == s.hlsPending) || (s1.associated && !s1.hlsPending))
  {
    hide Send, Answer, HandlePass3, Hls.Verify3, Accesses;
    SendFrame(k.hal, s, EXCEPTION);
    if apdu != [] {
      match env.request(apdu)
      case Undecodable(reply) => AnswerFrame(k.hal, s, reply, None);
      case Pass3(msg) => Pass3Frame(k, s, msg, env.pass3Reply);
      case Service(targets, reply, push) => AnswerFrame(k.hal, s, reply, push);
    }
  }

  lemma GatedFlags(k: Hls.Crypto, s: Srv, apdu: seq<byte>, ciphered: bool, env: Env)
    requires s.associated && !s.hlsPending
    ensures var s1 := Gated(k, s, apdu, ciphered, env).0;
            s1.associated && !s1.hlsPending && s1.ciphering == s.ciphering && s1.bound == s.bound && s1.gbt == s.gbt
  {
    hide Serve, Send, Decipher, Applies, Whole;
    if Whole(s, apdu, env).Some? {
      var whole := Whole(s, apdu, env).value;
      var (d, s1, got) := Decipher(k.hal, s, whole, false);
      DecipherFrame(k.hal, s, whole, false);
      SendFrame(k.hal, s1, EXCEPTION);
      ServeFlags(k, s1, if d.Opened? then d.text else whole, env);
    }
  }

  /** The pass-3 message that is heard before the association, if any. */
  ghost function Heard(k: Hls.Crypto, s: Srv, apdu: seq<byte>, env: Env): Option<seq<byte>> {
    var d := Decipher(k.hal, s, apdu, true).0;
    var text := if d.Opened? then d.text else apdu;
    if s.hlsPending && !d.Refused? && text != [] && text[0] == ACTION && env.request(text).Pass3?
    then Some(env.request(text).msg) else None
  }

  /** An association request that is accepted outright. */
  ghost predicate Admitted(s: Srv, a: Aarq) {
    var assoc := Pick(s.assocs, s.sap, a.mech, Acl.None, s.bound);
    && !a.refused
    && if a.mech == 0 then assoc.None? || assoc.value.mech == 0
       else a.mech == 1 && assoc.Some? && assoc.value.secret != [] && a.auth == assoc.value.secret
  }

  lemma DecideFlags(s: Srv, a: Aarq, random: Random)
    ensures var s1 := Decide(s, a, random).0; Exclusive(s1) && (s1.associated <==> Admitted(s, a))
  {
    hide Pick, Cut, MechOf;
  }

  lemma AarqFlags(h: Hal, s: Srv, a: Aarq, random: Random)
    ensures var s1 := HandleAarq(h, s, a, random).0; Exclusive(s1) && (s1.associated <==> Admitted(s, a))
  {
    hide Decide, Send, Restart, Seed, Admitted;
    DecideFlags(s, a, random);
    var (s1, accepted) := Decide(s, a, random);
    SendFrame(h, ApplyCiphering(s1, a, accepted), [AARE]);
  }

  /** Why a step may make the server associated. */
  ghost predicate Cause(k: Hls.Crypto, s: Srv, i: Input) {
    && i.Received? && i.apdu != []
    && if i.apdu[0] == AARQ || i.apdu[0] == AARE then i.env.aarq(i.apdu).Some? && Admitted(s, i.env.aarq(i.apdu).value)
       else Heard(k, s, i.apdu, i.env).Some? && Hls.Verify3(k, s.security, Heard(k, s, i.apdu, i.env).value).0 == 0
  }

  lemma UngatedFlags(k: Hls.Crypto, s: Srv, apdu: seq<byte>, env: Env)
    requires !s.associated
    ensures var s1 := Ungated(k, s, apdu, env).0;
            && Exclusive(s1) && s1.ciphering == s.ciphering && s1.bound == s.bound && s1.gbt == s.gbt
            && (s1.associated ==> s.hlsPending && apdu != [] && apdu[0] == ACTION && env.request(apdu).Pass3? &&
                                  Hls.Verify3(k, s.security, env.request(apdu).msg).0 == 0)
  {
    hide Send, HandlePass3, Hls.Verify3;
    SendFrame(k.hal, s, EXCEPTION);
    if apdu != [] && env.request(apdu).Pass3? { Pass3Frame(k, s, env.request(apdu).msg, env.pass3Reply); }
  }

  /** Flags over the part of osp_server_accept that handles services. */
  lemma ServiceFlags(k: Hls.Crypto, s: Srv, apdu: seq<byte>, env: Env)
    requires Exclusive(s) && apdu != [] && apdu[0] != AARQ && apdu[0] != AARE && apdu[0] != RLRQ
    ensures var s1 := Accept(k, s, apdu, env).0;
            && Exclusive(s1) && s1.ciphering == s.ciphering && s1.gbt == s.gbt
            && (s.associated ==> s1.associated)
            && (!s.associated && s1.associated ==>
                  Heard(k, s, apdu, env).Some? && Hls.Verify3(k, s.security, Heard(k, s, apdu, env).value).0 == 0)
  {
    hide Decipher, Send, Gated, Ungated, Hls.Verify3;
    var (d, s1, got) := Decipher(k.hal, s, apdu, true);
    DecipherFrame(k.hal, s, apdu, true);
    SendFrame(k.hal, s1, EXCEPTION);
    SendFrame(k.hal, Align(s1), EXCEPTION);
    var (text, s2) := if d.Opened? then (d.text, Align(s1)) else (apdu, s1);
    if s2.associated { GatedFlags(k, s2, text, d.Opened?, env); } else { UngatedFlags(k, s2, text, env); }
  }

  /** One step: never both flags, and associated only by admission or a verified pass 3. */
  lemma StepFlags(k: Hls.Crypto, s: Srv, i: Input)
    requires Exclusive(s)
    ensures var s1 := Step(k, s, i).0;
            Exclusive(s1) && (!s.associated && s1.associated ==> Cause(k, s, i))
  {
    hide Send, Decipher, Gated, Ungated, HandleAarq, Admitted, Heard, Hls.Verify3;
    if i.Notify? { SendFrame(k.hal, s, i.apdu); }
    if i.Received? && i.apdu != [] {
      if i.apdu[0] == AARQ || i.apdu[0] == AARE {
        if i.env.aarq(i.apdu).Some? { AarqFlags(k.hal, s, i.env.aarq(i.apdu).value, i.env.random); }
      } else if i.apdu[0] == RLRQ {
        SendFrame(k.hal, Clear(s), [0x63]);
      } else {
        ServiceFlags(k, s, i.apdu, i.env);
      }
    }
  }

  /** Release, disconnection and transport errors end the association. */
  lemma EndsAssociation(k: Hls.Crypto, s: Srv, i: Input)
    requires i.Disconnected? || i.IoError? || (i.Received? && i.apdu != [] && i.apdu[0] == RLRQ && i.env.rlrq(i.apdu))
    ensures var s1 := Step(k, s, i).0; !s1.associated && !s1.hlsPending && !s1.ciphering
  {
    hide Send;
    SendFrame(k.hal, Clear(s), [0x63]);
  }

  // ── Accesses ───────────────────────────────────────────────────────────────

  ghost predicate NoAccess(es: seq<Ev>) { forall i :: 0 <= i < |es| ==> !es[i].Accessed? }

  /** Every access was made under this association and permitted by it. */
  ghost predicate AllPermitted(es: seq<Ev>, bound: Acl.Option<Acl.Assoc>) {
    forall i :: 0 <= i < |es| && es[i].Accessed? ==> es[i].under == bound && Acl.Permitted(bound, es[i].target)
  }

  lemma SendQuiet(h: Hal, s: Srv, apdu: seq<byte>)
    ensures NoAccess(Send(h, s, apdu).1)
  {
    hide Protected, IvOf, Applies;
  }

  lemma AnswerQuiet(h: Hal, s: Srv, reply: Option<seq<byte>>, push: Option<seq<byte>>)
    ensures NoAccess(Answer(h, s, reply, push).1)
  {
    hide Send;
    if reply.Some? {
      SendQuiet(h, s, reply.value);
      if push.Some? { SendQuiet(h, Send(h, s, reply.value).0, push.value); }
    }
  }

  lemma Pass3Quiet(k: Hls.Crypto, s: Srv, msg: seq<byte>, reply: seq<byte>)
    ensures NoAccess(HandlePass3(k, s, msg, reply).1)
  {
    hide Send, Hls.Verify3, Hls.Build4;
    var (code, sec) := Hls.Verify3(k, s.security, msg);
    var (answer, sec') := Hls.Build4(k, sec);
    SendQuiet(k.hal, s.(security := sec), reply);
    SendQuiet(k.hal, s.(security := sec', associated := true, hlsPending := false), reply);
  }

  /** Every access is to one of these. */
  ghost predicate AllNamed(es: seq<Ev>, targets: seq<Acl.Target>) {
    forall i :: 0 <= i < |es| && es[i].Accessed? ==> es[i].target in targets
  }

  lemma {:induction false} AccessesPermitted(targets: seq<Acl.Target>, objects: seq<Acl.Obj>,
                                             bound: Acl.Option<Acl.Assoc>)
    ensures var es := Accesses(targets, objects, bound); AllPermitted(es, bound) && AllNamed(es, targets)
  {
    hide Acl.Permitted, Acl.Implemented;
    if targets != [] {
      AccessesPermitted(targets[1..], objects, bound);
      var rest := Accesses(targets[1..], objects, bound);
      assert AllNamed(rest, targets);
    }
  }

  /** The accesses of a service: permitted, and named by the request that the text denotes. */
  ghost predicate FromText(es: seq<Ev>, text: seq<byte>, env: Env, bound: Acl.Option<Acl.Assoc>) {
    && AllPermitted(es, bound)
    && (NoAccess(es) || (Applies(text) && env.request(text).Service? && AllNamed(es, env.request(text).targets)))
  }

  lemma ServeNamed(k: Hls.Crypto, s: Srv, apdu: seq<byte>, env: Env)
    ensures FromText(Serve(k, s, apdu, env).1, apdu, env, s.bound)
  {
    hide Send, Answer, HandlePass3, Accesses, Acl.Permitted;
    SendQuiet(k.hal, s, EXCEPTION);
    if apdu != [] {
      match env.request(apdu)
      case Undecodable(reply) => AnswerQuiet(k.hal, s, reply, None);
      case Pass3(msg) => Pass3Quiet(k, s, msg, env.pass3Reply);
      case Service(targets, reply, push) =>
        AnswerQuiet(k.hal, s, reply, push);
        AccessesPermitted(targets, s.objects, s.bound);
    }
  }

  lemma JoinText(a: seq<Ev>, b: seq<Ev>, text: seq<byte>, env: Env, bound: Acl.Option<Acl.Assoc>)
    requires NoAccess(a) && FromText(b, text, env, bound)
    ensures FromText(a + b, text, env, bound) && (NoAccess(a + b) <==> NoAccess(b))
  {
    hide Acl.Permitted, Applies;
    if NoAccess(a + b) {
      forall i | 0 <= i < |b| ensures !b[i].Accessed? { assert (a + b)[|a| + i] == b[i]; }
    }
  }

  lemma DecipherQuiet(h: Hal, s: Srv, apdu: seq<byte>, outer: bool)
    ensures var (d, s1, got) := Decipher(h, s, apdu, outer); NoAccess(got) && (d.Opened? ==> s.ciphering)
  {
    hide Unprotected, IsCiphered;
  }

  // ── Which text is served ───────────────────────────────────────────────────

  /** The text that reaches the service switch behind the gate. */
  function GatedText(h: Hal, s: Srv, apdu: seq<byte>, ciphered: bool, env: Env): Option<seq<byte>> {
    var whole := Whole(s, apdu, env);
    if whole.None? then None
    else
      var d := Decipher(h, s, whole.value, false).0;
      var text := if d.Opened? then d.text else whole.value;
      if d.Refused? || (s.ciphering && !ciphered && !d.Opened? && Applies(text)) then None else Some(text)
  }

  /** A message in front of the gate: what deciphering made of it and the state afterwards. */
  function Front(h: Hal, s: Srv, apdu: seq<byte>): (Deciphered, Srv) {
    var (d, s1, _) := Decipher(h, s, apdu, true);
    (d, if d.Opened? then Align(s1) else s1)
  }

  predicate IsService(apdu: seq<byte>) { apdu != [] && apdu[0] != AARQ && apdu[0] != AARE && apdu[0] != RLRQ }

  /** The text that a received message puts before the service switch. */
  function Served(h: Hal, s: Srv, apdu: seq<byte>, env: Env): Option<seq<byte>> {
    var (d, s2) := Front(h, s, apdu);
    if !IsService(apdu) || !s.associated || d.Refused? || d == Opened([]) then None
    else GatedText(h, s2, if d.Opened? then d.text else apdu, d.Opened?, env)
  }

  /** The plaintext of the last frame that unprotect accepted while this message was handled. */
  function LastOpened(h: Hal, s: Srv, apdu: seq<byte>, env: Env): Option<seq<byte>> {
    var (d, s2) := Front(h, s, apdu);
    var whole := Whole(s2, if d.Opened? then d.text else apdu, env);
    if whole.Some? && Decipher(h, s2, whole.value, false).0.Opened?
    then Some(Decipher(h, s2, whole.value, false).0.text)
    else if d.Opened? then Some(d.text) else None
  }

  /** Where the octets of a reassembled APDU come from: event 0 is the accepted plaintext. */
  ghost function BlockSources(text: seq<byte>, env: Env): seq<O.Src> {
    O.Sources(R.IDLE, [], Blocks(text, env), 0, SCRATCH, [], PDU, env.takes)
  }

  /** Every octet of the served text stood in the plaintext of a frame that was accepted for this message. */
  ghost predicate AllDeciphered(h: Hal, s: Srv, apdu: seq<byte>, env: Env) {
    var (d, s2) := Front(h, s, apdu);
    var text := if d.Opened? then d.text else apdu;
    var whole := Whole(s2, text, env);
    && whole.Some?
    && (|| Decipher(h, s2, whole.value, false).0.Opened?
        || (d.Opened? && (IsBlock(text) ==> O.AllInFirst(BlockSources(text, env)))))
  }

  /**
   The accepted frame holds a block, what is reassembled from it is not itself ciphered, and the block is not alone:
   not number 1, or cut short, or followed by others that contribute.
   */
  ghost predicate Mixed(h: Hal, s: Srv, apdu: seq<byte>, env: Env) {
    var d := Front(h, s, apdu).0;
    && s.gbt && d.Opened? && IsBlock(d.text)
    && Reassembled(d.text, env).Some? && !IsCiphered(Reassembled(d.text, env).value[0])
    && !(Gbt.Decode(d.text, env.stale).Ok? && O.Alone(d.text, env.stale, Reassembled(d.text, env).value))
  }

  lemma AloneIff(text: seq<byte>, env: Env)
    requires IsBlock(text) && Reassembled(text, env).Some?
    ensures Gbt.Decode(text, env.stale).Ok?
    ensures O.AllInFirst(BlockSources(text, env)) <==> O.Alone(text, env.stale, Reassembled(text, env).value)
  {
    hide O.Sources, O.AllInFirst, O.Alone, Gbt.Decode;
    assert Blocks(text, env) == [T.Frame(text, env.stale)] + env.blocks;
    O.FirstFrameIff(text, env.stale, env.blocks, SCRATCH, PDU, env.takes);
  }

  lemma GatedNamed(k: Hls.Crypto, s: Srv, apdu: seq<byte>, ciphered: bool, env: Env)
    ensures var es, text := Gated(k, s, apdu, ciphered, env).1, GatedText(k.hal, s, apdu, ciphered, env);
            if text.Some? then FromText(es, text.value, env, s.bound) else NoAccess(es)
  {
    hide Serve, Send, Decipher, Applies, FromText, Whole;
    var whole := Whole(s, apdu, env);
    if whole.Some? {
      var (d, s1, got) := Decipher(k.hal, s, whole.value, false);
      DecipherFrame(k.hal, s, whole.value, false);
      DecipherQuiet(k.hal, s, whole.value, false);
      SendQuiet(k.hal, s1, EXCEPTION);
      var text := if d.Opened? then d.text else whole.value;
      ServeNamed(k, s1, text, env);
      JoinText(got, Serve(k, s1, text, env).1, text, env, s.bound);
    }
  }

  /** Objects are reached only for what the served text names, and only as the bound association permits. */
  lemma AcceptNamed(k: Hls.Crypto, s: Srv, apdu: seq<byte>, env: Env)
    ensures var es, text := Accept(k, s, apdu, env).1, Served(k.hal, s, apdu, env);
            if text.Some? then FromText(es, text.value, env, s.bound) else NoAccess(es)
  {
    hide Send, Decipher, Gated, GatedText, Ungated, HandleAarq, FromText;
    if !IsService(apdu) {
      if apdu != [] && (apdu[0] == AARQ || apdu[0] == AARE) {
        if env.aarq(apdu).Some? { AarqQuiet(k.hal, s, env.aarq(apdu).value, env.random); }
      } else {
        SendQuiet(k.hal, Clear(s), [0x63]);
      }
    } else {
      ServiceNamed(k, s, apdu, env);
    }
  }

  lemma AarqQuiet(h: Hal, s: Srv, a: Aarq, random: Random)
    ensures NoAccess(HandleAarq(h, s, a, random).1)
  {
    hide Send, Decide, ApplyCiphering;
    var (s1, accepted) := Decide(s, a, random);
    SendQuiet(h, ApplyCiphering(s1, a, accepted), [AARE]);
  }

  lemma ServiceNamed(k: Hls.Crypto, s: Srv, apdu: seq<byte>, env: Env)
    requires IsService(apdu)
    ensures var es, text := Accept(k, s, apdu, env).1, Served(k.hal, s, apdu, env);
            if text.Some? then FromText(es, text.value, env, s.bound) else NoAccess(es)
  {
    hide Send, Decipher, Gated, GatedText, Ungated, FromText;
    var (d, s1, got) := Decipher(k.hal, s, apdu, true);
    DecipherFrame(k.hal, s, apdu, true);
    DecipherQuiet(k.hal, s, apdu, true);
    var s2 := Front(k.hal, s, apdu).1;
    SendQuiet(k.hal, s2, EXCEPTION);
    var text := if d.Opened? then d.text else apdu;
    if !d.Refused? && text != [] {
      var e := if s2.associated then Gated(k, s2, text, d.Opened?, env).1 else Ungated(k, s2, text, env).1;
      assert Accept(k, s, apdu, env).1 == got + e;
      if s.associated {
        GatedNamed(k, s2, text, d.Opened?, env);
        var served := GatedText(k.hal, s2, text, d.Opened?, env);
        if served.Some? { JoinText(got, e, served.value, env, s.bound); }
      } else {
        UngatedQuiet(k, s2, text, env);
      }
    }
  }

  lemma UngatedQuiet(k: Hls.Crypto, s: Srv, apdu: seq<byte>, env: Env)
    ensures NoAccess(Ungated(k, s, apdu, env).1)
  {
    hide Send, HandlePass3;
    SendQuiet(k.hal, s, EXCEPTION);
    if apdu != [] && env.request(apdu).Pass3? { Pass3Quiet(k, s, env.request(apdu).msg, env.pass3Reply); }
  }

  /**
   Under ciphering every octet of a served request was deciphered if and only if the message was not mixed; and
   without block transfer the served text is the plaintext of the last accepted frame.
   */
  lemma OriginIff(h: Hal, s: Srv, apdu: seq<byte>, env: Env)
    requires s.ciphering && Served(h, s, apdu, env).Some? && Applies(Served(h, s, apdu, env).value)
    ensures AllDeciphered(h, s, apdu, env) <==> !Mixed(h, s, apdu, env)
    ensures !s.gbt ==> Served(h, s, apdu, env) == LastOpened(h, s, apdu, env)
  {
    hide Unprotected, Align, Reassembled, BlockSources, O.AllInFirst, O.Alone, Gbt.Decode;
    var (d, s2) := Front(h, s, apdu);
    AlignFrame(Decipher(h, s, apdu, true).1);
    if d.Opened? && IsBlock(d.text) && Reassembled(d.text, env).Some? {
      ReassembledSome(d.text, env);
      AloneIff(d.text, env);
    }
  }

  lemma ReassembledSome(text: seq<byte>, env: Env)
    ensures Reassembled(text, env).Some? ==> Reassembled(text, env).value != []
  {
    hide R.Reception;
  }

  /** All deciphered means: the served text is a stretch of the plaintext of the last accepted frame. */
  lemma DecipheredStretch(h: Hal, s: Srv, apdu: seq<byte>, env: Env) returns (lo: nat, hi: nat)
    requires Served(h, s, apdu, env).Some? && AllDeciphered(h, s, apdu, env)
    ensures LastOpened(h, s, apdu, env).Some? && lo <= hi <= |LastOpened(h, s, apdu, env).value|
    ensures Served(h, s, apdu, env).value == LastOpened(h, s, apdu, env).value[lo..hi]
  {
    hide Unprotected, Align, O.AllInFirst, R.Reception, LenAt;
    var (d, s2) := Front(h, s, apdu);
    lo, hi := 0, |LastOpened(h, s, apdu, env).value|;
    var text := if d.Opened? then d.text else apdu;
    if IsBlock(text) && !Decipher(h, s2, Whole(s2, text, env).value, false).0.Opened? {
      assert Blocks(text, env) == [T.Frame(text, env.stale)] + env.blocks;
      O.FirstFrameText(text, env.stale, env.blocks, SCRATCH, PDU, env.takes);
      lo, hi := LenAt(text, 6).value.1, LenAt(text, 6).value.1 + LenAt(text, 6).value.0;
    }
  }

  // ── Whole runs ─────────────────────────────────────────────────────────────

  ghost predicate Ends(i: Input) {
    i.Disconnected? || i.IoError? || (i.Received? && i.apdu != [] && i.apdu[0] == RLRQ && i.env.rlrq(i.apdu))
  }

  /** What one step must not do. */
  ghost predicate StepSafe(k: Hls.Crypto, s: Srv, i: Input) {
    var (s1, es) := Step(k, s, i);
    && AccessSafe(k, s, i)
    && (!s.associated && s1.associated ==> Cause(k, s, i))
    && (Ends(i) ==> !s1.associated && !s1.hlsPending && !s1.ciphering)
    && s1.gbt == s.gbt
  }

  /**
   Objects are reached only while associated, as the bound association permits, and for what the served text names.
   Under ciphering all of that text was deciphered, exactly unless it was mixed from several blocks.
   */
  ghost predicate AccessSafe(k: Hls.Crypto, s: Srv, i: Input) {
    NoAccess(Step(k, s, i).1) ||
    (&& i.Received? && s.associated
     && var text := Served(k.hal, s, i.apdu, i.env);
        && text.Some? && FromText(Step(k, s, i).1, text.value, i.env, s.bound)
        && (s.ciphering ==> (AllDeciphered(k.hal, s, i.apdu, i.env) <==> !Mixed(k.hal, s, i.apdu, i.env)))
        && (s.ciphering && !s.gbt ==> text == LastOpened(k.hal, s, i.apdu, i.env)))
  }

  lemma StepAccesses(k: Hls.Crypto, s: Srv, i: Input)
    ensures AccessSafe(k, s, i)
  {
    hide Accept, Served, LastOpened, AllDeciphered, Mixed, Applies;
    if i.Notify? { SendQuiet(k.hal, s, i.apdu); }
    if i.Received? {
      AcceptNamed(k, s, i.apdu, i.env);
      ServedAssociated(k.hal, s, i.apdu, i.env);
      if !NoAccess(Step(k, s, i).1) && s.ciphering { OriginIff(k.hal, s, i.apdu, i.env); }
    }
  }

  lemma ServedAssociated(h: Hal, s: Srv, apdu: seq<byte>, env: Env)
    ensures Served(h, s, apdu, env).Some? ==> s.associated
  {
    hide Front, GatedText;
  }

  lemma KeepsGbt(k: Hls.Crypto, s: Srv, i: Input)
    requires Exclusive(s)
    ensures Step(k, s, i).0.gbt == s.gbt
  {
    hide Send, Decipher, Gated, Ungated, Decide, ApplyCiphering;
    if i.Notify? { SendFrame(k.hal, s, i.apdu); }
    if i.Received? && i.apdu != [] {
      if i.apdu[0] == AARQ || i.apdu[0] == AARE {
        if i.env.aarq(i.apdu).Some? { AarqGbt(k.hal, s, i.env.aarq(i.apdu).value, i.env.random); }
      } else if i.apdu[0] == RLRQ {
        SendFrame(k.hal, Clear(s), [0x63]);
      } else {
        ServiceFlags(k, s, i.apdu, i.env);
      }
    }
  }

  lemma AarqGbt(h: Hal, s: Srv, a: Aarq, random: Random)
    ensures HandleAarq(h, s, a, random).0.gbt == s.gbt
  {
    hide Send, Pick, Restart, Seed;
    var (s1, accepted) := Decide(s, a, random);
    SendFrame(h, ApplyCiphering(s1, a, accepted), [AARE]);
  }

  ghost predicate SafeRun(k: Hls.Crypto, s: Srv, inputs: seq<Input>)
    decreases |inputs|
  {
    && Exclusive(s)
    && (inputs != [] ==> StepSafe(k, s, inputs[0]) && SafeRun(k, Step(k, s, inputs[0]).0, inputs[1..]))
  }

  /** Every run from a state that is not both associated and waiting for pass 3 is safe at every step. */
  lemma {:induction false} RunSafe(k: Hls.Crypto, s: Srv, inputs: seq<Input>)
    requires Exclusive(s)
    ensures SafeRun(k, s, inputs)
    decreases |inputs|
  {
    hide Step, Cause, AccessSafe;
    if inputs != [] {
      var i := inputs[0];
      StepFlags(k, s, i);
      StepAccesses(k, s, i);
      KeepsGbt(k, s, i);
      if Ends(i) { EndsAssociation(k, s, i); }
      RunSafe(k, Step(k, s, i).0, inputs[1..]);
    }
  }

  // ── Only deciphered octets are served, exactly without block transfer ──────

  /** Under ciphering, whatever this step reaches it reaches for a text all of which was deciphered. */
  ghost predicate DecipheredOnly(k: Hls.Crypto, s: Srv, i: Input) {
    s.ciphering && !NoAccess(Step(k, s, i).1) ==> i.Received? && AllDeciphered(k.hal, s, i.apdu, i.env)
  }

  ghost predicate DecipheredRun(k: Hls.Crypto, s: Srv, inputs: seq<Input>)
    decreases |inputs|
  {
    inputs != [] ==> DecipheredOnly(k, s, inputs[0]) && DecipheredRun(k, Step(k, s, inputs[0]).0, inputs[1..])
  }

  /** A block in an accepted frame is the whole transfer: number 1, the last, and complete. */
  ghost predicate SealedBlocks(k: Hls.Crypto, s: Srv, i: Input) {
    i.Received? && s.gbt ==>
      var d := Front(k.hal, s, i.apdu).0;
      d.Opened? && IsBlock(d.text) ==> O.Sealed(d.text)
  }

  ghost predicate SealedRun(k: Hls.Crypto, s: Srv, inputs: seq<Input>)
    decreases |inputs|
  {
    inputs != [] ==> SealedBlocks(k, s, inputs[0]) && SealedRun(k, Step(k, s, inputs[0]).0, inputs[1..])
  }

  lemma SealedServed(text: seq<byte>, env: Env)
    requires IsBlock(text) && O.Sealed(text) && Reassembled(text, env).Some?
    ensures O.AllInFirst(BlockSources(text, env))
  {
    hide O.Sources, O.AllInFirst, O.Sealed, R.Reception;
    var x := O.Rest(env.stale, env.blocks, env.takes);
    assert Blocks(text, env) == O.Arrives(text, x);
    O.SealedHolds(text, SCRATCH, PDU, x);
  }

  lemma SealedNotMixed(k: Hls.Crypto, s: Srv, i: Input)
    requires i.Received? && SealedBlocks(k, s, i)
    ensures !Mixed(k.hal, s, i.apdu, i.env)
  {
    hide Front, Reassembled, BlockSources, O.AllInFirst, O.Alone, O.Sealed, Gbt.Decode;
    var d := Front(k.hal, s, i.apdu).0;
    if s.gbt && d.Opened? && IsBlock(d.text) && Reassembled(d.text, i.env).Some? {
      SealedServed(d.text, i.env);
      AloneIff(d.text, i.env);
    }
  }

  /** Without block transfer this holds in every run, and with it in every run whose accepted blocks are sealed. */
  lemma {:induction false} RunDeciphered(k: Hls.Crypto, s: Srv, inputs: seq<Input>)
    requires Exclusive(s) && (!s.gbt || SealedRun(k, s, inputs))
    ensures DecipheredRun(k, s, inputs)
    decreases |inputs|
  {
    hide Step, Served, LastOpened, AllDeciphered, Mixed, FromText, NoAccess, Front, O.Sealed;
    if inputs != [] {
      var i := inputs[0];
      StepAccesses(k, s, i);
      if i.Received? { SealedNotMixed(k, s, i); }
      StepFlags(k, s, i);
      KeepsGbt(k, s, i);
      RunDeciphered(k, Step(k, s, i).0, inputs[1..]);
    }
  }

  /** Block 1 of a transfer, not the last, and the last block 2. */
  function Block1(x: Gbt.Payload): Gbt.Block { Gbt.Block(false, false, 0, 1, 0, x) }
  function Block2(y: Gbt.Payload): Gbt.Block { Gbt.Block(true, false, 0, 2, 0, y) }

  ghost function SplitEnv(t: Acl.Target, y: Gbt.Payload): Env {
    Env(_ => None, _ => false, NoGenerator, _ => Service([t], None, None), O.Zeros(),
        [T.Frame(Gbt.Wire(Block2(y)), O.Zeros())], R.Always, [])
  }

  /** A request split over two blocks: the first inside an accepted frame, the second plain on the link. */
  ghost function Split(ic: u32, t: Acl.Target, x: Gbt.Payload, y: Gbt.Payload): Input {
    WireSize(Block1(x));
    Received(Bare(ic, Gbt.Wire(Block1(x))), SplitEnv(t, y))
  }

  lemma WireSize(b: Gbt.Block)
    ensures 7 <= |Gbt.Wire(b)| <= 267 && Gbt.Wire(b)[0] == BLOCKS
  {}

  /** The receiver joins the two. */
  lemma SplitReassembled(t: Acl.Target, x: Gbt.Payload, y: Gbt.Payload)
    requires x + y != []
    ensures Reassembled(Gbt.Wire(Block1(x)), SplitEnv(t, y)) == Some(x + y)
    ensures Gbt.Decode(Gbt.Wire(Block1(x)), SplitEnv(t, y).stale) == Octets.Ok(Block1(x))
  {
    hide Gbt.Wire, Gbt.Decode, Gbt.Header, Gbt.Sent;
    var env := SplitEnv(t, y);
    var first := T.Frame(Gbt.Wire(Block1(x)), env.stale);
    WireSize(Block1(x));
    WireReceived(Block1(x), env.stale);
    WireReceived(Block2(y), O.Zeros());
    var all := Blocks(Gbt.Wire(Block1(x)), env);
    assert all[0] == first && all[1..] == env.blocks && env.blocks[1..] == [];
    var rx := R.Rx(x, 2, 0);
    assert [] + x == x;
    assert R.RxStep(R.IDLE, Block1(x), SCRATCH) == R.More(rx, []);
    assert R.RxStep(rx, Block2(y), SCRATCH) == R.Done(x + y);
    assert R.Reception(rx, env.blocks, SCRATCH, [], PDU, env.takes).1 == Octets.Ok(x + y);
    assert R.Reception(R.IDLE, all, SCRATCH, [], PDU, env.takes).1 == Octets.Ok(x + y);
  }

  lemma WireReceived(b: Gbt.Block, stale: Stale)
    ensures T.Received(T.Frame(Gbt.Wire(b), stale)) == Octets.Ok(b) && Gbt.Decode(Gbt.Wire(b), stale) == Octets.Ok(b)
  {
    assert Gbt.Sent(b, |Gbt.Wire(b)|) == Gbt.Wire(b);
    Gbt.RoundTrip(b, |Gbt.Wire(b)|, stale);
  }

  lemma SplitFront(h: Hal, s: Srv, ic: u32, t: Acl.Target, x: Gbt.Payload, y: Gbt.Payload)
    requires s.ciphering && (s.rx.icValid ==> ic > s.rx.lastPeerIc)
    ensures var (d, s2) := Front(h, s, Split(ic, t, x, y).apdu);
            && d == Opened(Gbt.Wire(Block1(x))) && s2 == s.(tx := s2.tx, rx := s2.rx)
            && Decipher(h, s, Split(ic, t, x, y).apdu, true).2 == [Accepted(ic, true)]
  {
    hide Unprotected, Bare, Align, Gbt.Wire;
    WireSize(Block1(x));
    BareAccepted(h, s.rx, ic, Gbt.Wire(Block1(x)));
    AlignFrame(Decipher(h, s, Split(ic, t, x, y).apdu, true).1);
  }

  lemma SplitGated(k: Hls.Crypto, s: Srv, t: Acl.Target, x: Gbt.Payload, y: Gbt.Payload)
    requires s.ciphering && s.gbt && Acl.Permitted(s.bound, t) && Acl.Implemented(s.objects, t) && y != []
    requires var a := (x + y)[0]; a == GET || a == SET || a == ACTION
    ensures Gated(k, s, Gbt.Wire(Block1(x)), true, SplitEnv(t, y)) == (s, [Accessed(t, s.bound)])
  {
    hide Unprotected, Acl.Permitted, Acl.Implemented, Gbt.Wire, Reassembled;
    WireSize(Block1(x));
    SplitReassembled(t, x, y);
    var es := [Accessed(t, s.bound)];
    assert Accesses([t], s.objects, s.bound) == es by { assert [t][1..] == [] && [t][0] == t; }
    assert Serve(k, s, x + y, SplitEnv(t, y)) == (s, es + []);
    assert es + [] == es && [] + es == es;
  }

  /**
   With block transfer on, such a message reaches the object that the joined request names, although the octets of
   the second block were never deciphered: for every split of a GET, SET or ACTION with a second part.
   */
  lemma SplitExample(k: Hls.Crypto, s: Srv, ic: u32, t: Acl.Target, x: Gbt.Payload, y: Gbt.Payload)
    requires s.associated && s.ciphering && s.gbt && (s.rx.icValid ==> ic > s.rx.lastPeerIc)
    requires Acl.Permitted(s.bound, t) && Acl.Implemented(s.objects, t) && y != []
    requires var a := (x + y)[0]; a == GET || a == SET || a == ACTION
    ensures var i := Split(ic, t, x, y);
            && Step(k, s, i).1 == [Accepted(ic, true), Accessed(t, s.bound)]
            && Served(k.hal, s, i.apdu, i.env) == Some(x + y)
            && Mixed(k.hal, s, i.apdu, i.env) && !AllDeciphered(k.hal, s, i.apdu, i.env)
  {
    hide Unprotected, Bare, Align, Acl.Permitted, Acl.Implemented, Gbt.Wire, Gbt.Decode, Reassembled, Gated;
    hide BlockSources, O.AllInFirst, SplitEnv;
    var w, env, i := Gbt.Wire(Block1(x)), SplitEnv(t, y), Split(ic, t, x, y);
    WireSize(Block1(x));
    SplitFront(k.hal, s, ic, t, x, y);
    SplitReassembled(t, x, y);
    SplitGated(k, Front(k.hal, s, i.apdu).1, t, x, y);
    AloneIff(w, env);
  }

  /**
   A ciphering association that permits something and has not reached the end of the peer's counter: in all its runs
   only deciphered octets are served, if and only if block transfer is off.
   */
  lemma RunDecipheredIff(k: Hls.Crypto, s: Srv, ic: u32, t: Acl.Target)
    requires Exclusive(s) && s.associated && s.ciphering
    requires (s.rx.icValid ==> ic > s.rx.lastPeerIc) && Acl.Permitted(s.bound, t) && Acl.Implemented(s.objects, t)
    ensures (forall inputs: seq<Input> :: DecipheredRun(k, s, inputs)) <==> !s.gbt
  {
    hide Step, Served, AllDeciphered, Mixed, DecipheredRun, Acl.Permitted, Acl.Implemented;
    if s.gbt {
      SplitExample(k, s, ic, t, [GET], [0]);
      var run := [Split(ic, t, [GET], [0])];
      assert Step(k, s, run[0]).1[1].Accessed?;
      OneStep(k, s, run);
      NotAll(k, s, run);
    } else {
      forall inputs: seq<Input> ensures DecipheredRun(k, s, inputs) { RunDeciphered(k, s, inputs); }
    }
  }

  lemma NotAll(k: Hls.Crypto, s: Srv, run: seq<Input>)
    requires !DecipheredRun(k, s, run)
    ensures !forall inputs: seq<Input> :: DecipheredRun(k, s, inputs)
  {}

  lemma OneStep(k: Hls.Crypto, s: Srv, run: seq<Input>)
    requires run != []
    ensures DecipheredRun(k, s, run) ==> DecipheredOnly(k, s, run[0])
  {
    hide DecipheredOnly;
  }

  /** What the accepted frame alone decides: whatever follows on the link, all of it was deciphered or some is not. */
  lemma FrameDecidesIff(text: seq<byte>)
    requires IsBlock(text)
    ensures (forall env: Env :: Reassembled(text, env).Some? ==> O.AllInFirst(BlockSources(text, env))) <==>
              O.Sealed(text)
  {
    hide BlockSources, O.AllInFirst, O.Sealed, Reassembled;
    if O.Sealed(text) {
      forall env: Env | Reassembled(text, env).Some? ensures O.AllInFirst(BlockSources(text, env)) {
        SealedServed(text, env);
      }
    } else {
      var env := UnsealedServed(text);
      NotAllEnvs(text, env);
    }
  }

  lemma UnsealedServed(text: seq<byte>) returns (env: Env)
    requires IsBlock(text) && !O.Sealed(text)
    ensures Reassembled(text, env).Some? && !O.AllInFirst(BlockSources(text, env))
  {
    hide O.Sources, O.AllInFirst, O.Sealed, R.Reception;
    var x := O.NotSealedFails(text, SCRATCH, PDU);
    env := Env(_ => None, _ => false, NoGenerator, _ => Undecodable(None), x.stale, x.events, x.accepts, []);
    assert Blocks(text, env) == O.Arrives(text, x);
  }

  lemma NotAllEnvs(text: seq<byte>, env: Env)
    requires IsBlock(text) && Reassembled(text, env).Some? && !O.AllInFirst(BlockSources(text, env))
    ensures !forall env: Env :: Reassembled(text, env).Some? ==> O.AllInFirst(BlockSources(text, env))
  {}
}
