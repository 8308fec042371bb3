/**
 The server object (src/server/server.c): the fields a session changes and the methods that change them, each
 proved to do what the step functions of Session say.
 */
module Server {
  import opened Octets
  import opened Protect
  import opened Session
  import T = GbtTransfer
  import R = GbtReceive
  import Kuznyechik
  import Hls
  import Acl

  /** secret_eq: unequal lengths and every octet up to the longer one enter the difference. */
  method SecretEq(a: seq<byte>, b: seq<byte>) returns (same: bool)
    requires |a| < 256 && |b| < 256
    ensures same <==> a == b
  {
    hide Hls.Or, Kuznyechik.Xor;
    Hls.Differs(|a|, |b|);
    var diff := Kuznyechik.Xor(|a|, |b|);
    var n := if |a| > |b| then |a| else |b|;
    for i := 0 to n
      invariant diff == 0 <==> |a| == |b| && forall k :: 0 <= k < i && k < |a| && k < |b| ==> a[k] == b[k]
    {
      var av: byte := if i < |a| then a[i] else 0;
      var bv: byte := if i < |b| then b[i] else 0;
      Hls.Differs(av, bv);
      diff := Hls.Or(diff, Kuznyechik.Xor(av, bv));
    }
    same := diff == 0;
  }

  class Server {
    const base: Ctx
    const assocs: seq<Acl.Assoc>
    const objects: seq<Acl.Obj>
    const sap: nat
    const gbt: bool
    var associated: bool
    var hlsPending: bool
    var ciphering: bool
    var security: Hls.Side
    var tx: Ctx
    var rx: Ctx
    var bound: Acl.Option<Acl.Assoc>

    function View(): Srv
      reads this
    {
      Srv(associated, hlsPending, ciphering, gbt, security, base, tx, rx, assocs, objects, sap, bound)
    }

    /** osp_server_init with its configuration: no association, no handshake, no ciphering. */
    constructor (base: Ctx, security: Hls.Side, assocs: seq<Acl.Assoc>, objects: seq<Acl.Obj>, sap: nat, gbt: bool)
      ensures View() == Srv(false, false, false, gbt, security, base, base, base, assocs, objects, sap, Acl.None)
    {
      this.base := base;
      this.assocs := assocs;
      this.objects := objects;
      this.sap := sap;
      this.gbt := gbt;
      associated, hlsPending, ciphering := false, false, false;
      this.security := security;
      tx, rx := base, base;
      bound := Acl.None;
    }

    /** server_send with block transfer off. */
    method SendApdu(h: Hal, apdu: seq<byte>) returns (ghost es: seq<Ev>, frame: Option<seq<byte>>)
      modifies this
      ensures (View(), es) == Send(h, old(View()), apdu)
      ensures es == [] <==> frame.None?
      ensures frame == if es == [] then None
                       else if old(ciphering) && Applies(apdu)
                       then Protected(h, old(tx), CipherTag(old(tx), apdu[0]), apdu)
                       else Some(apdu)
    {
      hide Protected, CipherTag, IvOf;
      if ciphering && Applies(apdu) {
        var p := Protected(h, tx, CipherTag(tx, apdu[0]), apdu);
        if p.None? || tx.ic == 0xFFFF_FFFF { return [], None; }
        es := [SentCiphered(IvOf(tx.title, tx.ic), tx.ic)];
        tx := tx.(ic := tx.ic + 1);
        frame := p;
      } else {
        es := [SentPlain(apdu)];
        frame := Some(apdu);
      }
    }

    /** server_send_service, and the response to an ACTION with the notification it may have queued. */
    method Respond(h: Hal, reply: Option<seq<byte>>, push: Option<seq<byte>>) returns (ghost es: seq<Ev>)
      modifies this
      ensures (View(), es) == Answer(h, old(View()), reply, push)
    {
      hide Send;
      if reply.None? { return []; }
      var frame;
      es, frame := SendApdu(h, reply.value);
      if frame.None? || push.None? { return; }
      ghost var more;
      more, frame := SendApdu(h, push.value);
      es := es + more;
    }

    /** osp_server_send_event_notification and osp_server_send_data_notification, given the encoded message. */
    method SendNotification(h: Hal, apdu: seq<byte>) returns (ghost es: seq<Ev>)
      modifies this
      ensures (View(), es) == if old(associated) then Send(h, old(View()), apdu) else (old(View()), [])
    {
      if !associated { return []; }
      var frame;
      es, frame := SendApdu(h, apdu);
    }

    /** server_pick_association. */
    method PickAssociation(mech: nat) returns (r: Acl.Option<Acl.Assoc>)
      ensures r == Pick(assocs, sap, mech, Acl.None, bound)
    {
      var byMech: Acl.Option<Acl.Assoc> := Acl.None;
      for i := 0 to |assocs|
        invariant Pick(assocs[i..], sap, mech, byMech, bound) == Pick(assocs, sap, mech, Acl.None, bound)
      {
        assert assocs[i..][0] == assocs[i] && assocs[i..][1..] == assocs[i + 1..];
        var a := assocs[i];
        if a.sap == 0 { continue; }
        if sap != 0 && a.sap % 256 == sap { return Acl.Some(a); }
        if byMech.None? && MechMatches(mech, a.mech) { byMech := Acl.Some(a); }
      }
      assert assocs[|assocs|..] == [];
      r := if byMech.Some? then byMech else bound;
    }

    /** The decision part of handle_aarq. */
    method DecideAarq(a: Aarq, random: Random) returns (accepted: bool)
      modifies this
      ensures (View(), accepted) == Decide(old(View()), a, random)
    {
      hide Pick, MechOf, Cut;
      var assoc := PickAssociation(a.mech);
      if assoc.Some? { bound := assoc; }
      associated := false;
      hlsPending := false;
      if a.refused { return false; }
      if a.mech == 0 {
        if assoc.Some? && assoc.value.mech != 0 { return false; }
        associated := true;
        return true;
      }
      if a.mech == 1 {
        if assoc.None? || assoc.value.secret == [] { return false; }
        var same := SecretEq(a.auth, assoc.value.secret);
        associated := same;
        return same;
      }
      if !Handshake(a.mech) { return false; }
      accepted := BeginHls(a, assoc, random);
    }

    method BeginHls(a: Aarq, assoc: Acl.Option<Acl.Assoc>, random: Random) returns (accepted: bool)
      modifies this
      ensures (View(), accepted) == StartHls(old(View()), a, assoc, random)
    {
      hide MechOf, Cut;
      if random.NoGenerator? { return false; }
      if a.mech == 2 && (assoc.None? || assoc.value.secret == []) { return false; }
      security := security.(mech := MechOf(a.mech), secret := if a.mech == 2 then Cut(assoc.value.secret) else []);
      if a.mech == 2 && |Cut(a.auth)| != 16 { return false; }
      security := security.(ctos := Cut(a.auth), peerTitle := if |a.title| == 8 then a.title else security.peerTitle);
      if !random.Drawn? { return false; }
      security := security.(stoc := random.stoc);
      hlsPending := true;
      accepted := true;
    }

    method Associate(h: Hal, a: Aarq, random: Random) returns (ghost es: seq<Ev>)
      modifies this
      ensures (View(), es) == HandleAarq(h, old(View()), a, random)
    {
      hide Decide, Send, Restart, Seed;
      var accepted := DecideAarq(a, random);
      if !accepted || !(a.context == 3 || a.context == 4) {
        ciphering := false;
      } else {
        if !ciphering { tx, rx := Seed(View()), Seed(View()); }
        tx, rx := Restart(tx, a), Restart(rx, a);
        ciphering := true;
      }
      var frame;
      es, frame := SendApdu(h, [AARE]);
    }

    /** handle_hls_pass3. */
    method Pass3Received(k: Hls.Crypto, msg: seq<byte>, reply: seq<byte>) returns (ghost es: seq<Ev>)
      requires Hls.Sized(k)
      modifies this
      ensures (View(), es) == HandlePass3(k, old(View()), msg, reply)
    {
      hide Send, Hls.Verify3, Hls.Build4, Hls.Sized;
      if msg == [] { return []; }
      var ctx := new Hls.HlsContext(security);
      var code := ctx.Pass3Verify(k, msg);
      var frame;
      if code != 0 {
        security := ctx.s;
        es, frame := SendApdu(k.hal, reply);
        return;
      }
      associated := true;
      hlsPending := false;
      var answer := ctx.Pass4Build(k);
      security := ctx.s;
      if answer.None? { return []; }
      es, frame := SendApdu(k.hal, reply);
    }

    /** One attempt to decipher the received APDU. */
    method TryDecipher(h: Hal, apdu: array<byte>, ghost outer: bool) returns (d: Deciphered, ghost es: seq<Ev>)
      modifies this
      ensures (d, View(), es) == Decipher(h, old(View()), apdu[..], outer)
    {
      hide Unprotected, IsCiphered;
      if !ciphering || apdu.Length == 0 || !IsCiphered(apdu[0]) { return Untouched, []; }
      var ctx := new SecContext(rx);
      var out := ctx.Unprotect(h, apdu);
      if !out.Plain? {
        UnprotectState(h, rx, apdu[..]);
        return Refused, [];
      }
      rx := ctx.c;
      return Opened(out.text), [Accepted(rx.lastPeerIc, outer)];
    }

    /** The dispatcher calls of one service, each to an object that is registered and behind the gate. */
    method Dispatch(targets: seq<Acl.Target>) returns (called: seq<Acl.Target>, ghost es: seq<Ev>)
      ensures es == Accesses(targets, objects, bound)
      ensures |called| == |Accesses(targets, objects, bound)|
      ensures forall i :: 0 <= i < |called| ==> Accesses(targets, objects, bound)[i] == Accessed(called[i], bound)
    {
      hide Acl.Permitted, Acl.Implemented;
      called, es := [], [];
      for i := 0 to |targets|
        invariant es + Accesses(targets[i..], objects, bound) == Accesses(targets, objects, bound)
        invariant |called| == |es| && forall j :: 0 <= j < |es| ==> es[j] == Accessed(called[j], bound)
      {
        assert targets[i..][0] == targets[i] && targets[i..][1..] == targets[i + 1..];
        ghost var rest := Accesses(targets[i + 1..], objects, bound);
        var ok := Acl.Implements(objects, targets[i]);
        if ok { ok := Acl.Gate(bound, targets[i]); }
        if ok {
          ConcatAssoc(es, [Accessed(targets[i], bound)], rest);
          called, es := called + [targets[i]], es + [Accessed(targets[i], bound)];
        } else {
          assert [] + rest == rest;
        }
      }
      assert targets[|targets|..] == [] && es + [] == es;
    }

    /** The service switch. */
    method ServeApdu(k: Hls.Crypto, apdu: seq<byte>, env: Env) returns (ghost es: seq<Ev>)
      requires Hls.Sized(k)
      modifies this
      ensures (View(), es) == Serve(k, old(View()), apdu, env)
    {
      hide Send, Answer, HandlePass3, Accesses, Hls.Sized;
      var frame;
      if apdu == [] || !(apdu[0] == GET || apdu[0] == SET || apdu[0] == ACTION) {
        es, frame := SendApdu(k.hal, EXCEPTION);
        return;
      }
      var req := env.request(apdu);
      if req.Undecodable? {
        es := Respond(k.hal, req.reply, None);
      } else if req.Pass3? {
        if apdu[0] == ACTION { es := Pass3Received(k, req.msg, env.pass3Reply); } else { es := []; }
      } else {
        ghost var accesses;
        var called;
        called, accesses := Dispatch(req.targets);
        ghost var sent := Respond(k.hal, req.reply, req.push);
        es := accesses + sent;
      }
    }

    /** The general block transfer branch, through the receiver. */
    method Reassemble(apdu: seq<byte>, env: Env) returns (r: Option<seq<byte>>)
      requires IsBlock(apdu)
      ensures r == Reassembled(apdu, env)
    {
      var link := new T.Link(env.takes, env.blocks);
      var scratch := new byte[SCRATCH];
      assert Blocks(apdu, env) == R.Pending(apdu, env.stale, link.inbox);
      var len := R.Receive(link, scratch, PDU, apdu, env.stale);
      if len.Fail? || len.value == 0 || len.value > PDU { return None; }
      r := Some(scratch[..len.value]);
    }

    /** Between the association gate and the service switch. */
    method Behind(k: Hls.Crypto, apdu: seq<byte>, arrived: bool, env: Env) returns (ghost es: seq<Ev>)
      requires Hls.Sized(k)
      modifies this
      ensures (View(), es) == Gated(k, old(View()), apdu, arrived, env)
    {
      hide Send, Serve, Decipher, Applies, Hls.Sized;
      var whole := apdu;
      if IsBlock(apdu) {
        if !gbt { return []; }
        var r := Reassemble(apdu, env);
        if r.None? { return []; }
        whole := r.value;
      }
      var mem := new byte[|whole|](i requires 0 <= i < |whole| => whole[i]);
      assert mem[..] == whole;
      ghost var got;
      var d, frame;
      d, got := TryDecipher(k.hal, mem, false);
      if d.Refused? {
        es, frame := SendApdu(k.hal, EXCEPTION);
        return;
      }
      var text := if d.Opened? then d.text else whole;
      if ciphering && !arrived && !d.Opened? && Applies(text) {
        es, frame := SendApdu(k.hal, EXCEPTION);
        return;
      }
      ghost var e := ServeApdu(k, text, env);
      es := got + e;
    }

    /** Before the association. */
    method InFront(k: Hls.Crypto, apdu: seq<byte>, env: Env) returns (ghost es: seq<Ev>)
      requires Hls.Sized(k)
      modifies this
      ensures (View(), es) == Ungated(k, old(View()), apdu, env)
    {
      hide Send, HandlePass3, Hls.Sized;
      if hlsPending && apdu != [] && apdu[0] == ACTION && env.request(apdu).Pass3? {
        es := Pass3Received(k, env.request(apdu).msg, env.pass3Reply);
      } else {
        var frame;
        es, frame := SendApdu(k.hal, EXCEPTION);
      }
    }

    /** Services: decipher, follow the peer's counter, then the gate. */
    method ServiceReceived(k: Hls.Crypto, apdu: array<byte>, env: Env) returns (ghost es: seq<Ev>)
      requires Hls.Sized(k) && apdu.Length > 0 && apdu[0] != AARQ && apdu[0] != AARE && apdu[0] != RLRQ
      modifies this
      ensures (View(), es) == Accept(k, old(View()), apdu[..], env)
    {
      hide Send, Decipher, Gated, Ungated, Hls.Sized;
      ghost var got, e;
      var d, frame;
      d, got := TryDecipher(k.hal, apdu, true);
      if d.Refused? {
        es, frame := SendApdu(k.hal, EXCEPTION);
        return;
      }
      if d.Opened? {
        if tx.ic <= rx.lastPeerIc { tx := tx.(ic := (rx.lastPeerIc as int + 1) % 0x1_0000_0000); }
        tx := tx.(policy := rx.policy);
        if d.text == [] {
          e, frame := SendApdu(k.hal, EXCEPTION);
          return got + e;
        }
      }
      var text := if d.Opened? then d.text else apdu[..];
      if associated { e := Behind(k, text, d.Opened?, env); } else { e := InFront(k, text, env); }
      es := got + e;
    }

    /** osp_server_accept once an APDU has arrived. */
    method AcceptApdu(k: Hls.Crypto, apdu: array<byte>, env: Env) returns (ghost es: seq<Ev>)
      requires Hls.Sized(k)
      modifies this
      ensures (View(), es) == Accept(k, old(View()), apdu[..], env)
    {
      hide Send, Decipher, Gated, Ungated, HandleAarq, Hls.Sized;
      if apdu.Length == 0 { return []; }
      var tag, frame := apdu[0], None;
      if tag == AARQ || tag == AARE {
        var a := env.aarq(apdu[..]);
        if a.None? { return []; }
        es := Associate(k.hal, a.value, env.random);
      } else if tag == RLRQ {
        if !env.rlrq(apdu[..]) { return []; }
        associated, hlsPending, ciphering := false, false, false;
        es, frame := SendApdu(k.hal, [0x63]);
      } else {
        es := ServiceReceived(k, apdu, env);
      }
    }
  }
}
