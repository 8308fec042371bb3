/**
 When a ciphered association uses an initialisation vector twice (src/server/server.c:196-253, 310-320, 1222-1402):
 how many ciphered frames a step may send, and what that leaves of a restarted counter.
 */
module SessionVectors {
  import opened Octets
  import opened Protect
  import opened Session
  import opened SessionCounters
  import S = SessionSafety
  import Gbt
  import T = GbtTransfer
  import O = GbtOrigin
  import R = GbtReceive
  import V = Values
  import Hls

  // ── How many frames a step sends ───────────────────────────────────────────

  /** No frame was accepted in front of the gate. */
  ghost predicate NoOuter(es: seq<Ev>) { forall i :: 0 <= i < |es| && es[i].Accepted? ==> !es[i].outer }

  /** No request finds a queued notification. */
  ghost predicate Unpushed(env: Env) { forall x :: env.request(x).Service? ==> env.request(x).push.None? }

  /** Behind the gate: no outer acceptance, at most two ciphered frames, and one without a queued notification. */
  ghost predicate Modest(es: seq<Ev>, env: Env) {
    NoOuter(es) && Sends(es) <= 2 && (Unpushed(env) ==> Sends(es) <= 1)
  }

  lemma {:induction false} SendsJoin(a: seq<Ev>, b: seq<Ev>)
    ensures Sends(a + b) == Sends(a) + Sends(b)
    decreases |a|
  {
    if a == [] {
      assert a + b == b;
    } else {
      assert (a + b)[1..] == a[1..] + b && (a + b)[0] == a[0];
      SendsJoin(a[1..], b);
    }
  }

  lemma SendsOne(e: Ev)
    ensures Sends([e]) == if e.SentCiphered? then 1 else 0
  {
    assert [e][1..] == [] && [e][0] == e;
  }

  lemma {:induction false} SendsNone(es: seq<Ev>)
    requires NoCipherEvents(es)
    ensures Sends(es) == 0
    decreases |es|
  {
    if es != [] {
      assert es[0].Accessed?;
      SendsNone(es[1..]);
    }
  }

  lemma SendModest(h: Hal, s: Srv, apdu: seq<byte>)
    ensures var es := Send(h, s, apdu).1; Deaf(es) && Sends(es) <= 1
    ensures !Applies(apdu) ==> Sends(Send(h, s, apdu).1) == 0
  {
    hide Protected, IvOf, CipherTag, Applies;
    var es := Send(h, s, apdu).1;
    if es != [] {
      assert es == [es[0]];
      SendsOne(es[0]);
    }
  }

  lemma AnswerModest(h: Hal, s: Srv, reply: Option<seq<byte>>, push: Option<seq<byte>>)
    ensures var es := Answer(h, s, reply, push).1; Deaf(es) && Sends(es) <= 2 && (push.None? ==> Sends(es) <= 1)
  {
    hide Send, Sends;
    assert Sends([]) == 0 by { NothingSent(); }
    if reply.Some? {
      var (s1, e1) := Send(h, s, reply.value);
      SendModest(h, s, reply.value);
      if push.Some? {
        SendModest(h, s1, push.value);
        SendsJoin(e1, Send(h, s1, push.value).1);
      }
    }
  }

  lemma NothingSent()
    ensures Sends([]) == 0
  {}

  lemma Pass3Modest(k: Hls.Crypto, s: Srv, msg: seq<byte>, reply: seq<byte>)
    ensures var es := HandlePass3(k, s, msg, reply).1; Deaf(es) && Sends(es) <= 1
  {
    hide Send, Hls.Verify3, Hls.Build4, Sends;
    NothingSent();
    if msg != [] {
      var (code, sec) := Hls.Verify3(k, s.security, msg);
      SendModest(k.hal, s.(security := sec), reply);
      SendModest(k.hal, s.(security := Hls.Build4(k, sec).1, associated := true, hlsPending := false), reply);
    }
  }

  lemma ServeModest(k: Hls.Crypto, s: Srv, apdu: seq<byte>, env: Env)
    ensures Modest(Serve(k, s, apdu, env).1, env) && Deaf(Serve(k, s, apdu, env).1)
    ensures !Applies(apdu) ==> Sends(Serve(k, s, apdu, env).1) == 0
  {
    hide Send, Answer, HandlePass3, Accesses, Sends;
    NothingSent();
    SendModest(k.hal, s, EXCEPTION);
    if apdu != [] {
      match env.request(apdu)
      case Undecodable(reply) => AnswerModest(k.hal, s, reply, None);
      case Pass3(msg) => Pass3Modest(k, s, msg, env.pass3Reply);
      case Service(targets, reply, push) =>
        AnswerModest(k.hal, s, reply, push);
        AccessesSilent(targets, s.objects, s.bound);
        SendsNone(Accesses(targets, s.objects, s.bound));
        SendsJoin(Accesses(targets, s.objects, s.bound), Answer(k.hal, s, reply, push).1);
    }
  }

  lemma GotSilent(h: Hal, s: Srv, apdu: seq<byte>, outer: bool)
    ensures var (d, s1, got) := Decipher(h, s, apdu, outer);
            && Sends(got) == 0 && (!outer ==> NoOuter(got))
            && if d.Opened? then |got| == 1 && got[0].Accepted? && got[0].outer == outer else got == []
  {
    hide Unprotected, IsCiphered;
    var (d, s1, got) := Decipher(h, s, apdu, outer);
    if got != [] { SendsOne(got[0]); }
  }

  /** Under ciphering nothing ciphered is sent unless a frame was opened, here or in front of the gate. */
  lemma GatedModest(k: Hls.Crypto, s: Srv, apdu: seq<byte>, ciphered: bool, env: Env)
    ensures var es := Gated(k, s, apdu, ciphered, env).1;
            && Modest(es, env)
            && (s.ciphering && !ciphered && Deaf(es) ==> Sends(es) == 0)
            && (s.ciphering && !ciphered && !s.gbt && apdu != [] && !IsCiphered(apdu[0]) ==> Deaf(es))
  {
    assert !Applies(EXCEPTION);
    hide Serve, Send, Applies, Reassembled, Unprotected, IsCiphered, Sends;
    NothingSent();
    var whole := Whole(s, apdu, env);
    if whole.Some? {
      var (d, s1, got) := Decipher(k.hal, s, whole.value, false);
      GotSilent(k.hal, s, whole.value, false);
      SendModest(k.hal, s1, EXCEPTION);
      var text := if d.Opened? then d.text else whole.value;
      ServeModest(k, s1, text, env);
      SendsJoin(got, Serve(k, s1, text, env).1);
      if d.Opened? { assert (got + Serve(k, s1, text, env).1)[0] == got[0]; }
    }
  }

  lemma UngatedModest(k: Hls.Crypto, s: Srv, apdu: seq<byte>, env: Env)
    ensures Modest(Ungated(k, s, apdu, env).1, env) && Deaf(Ungated(k, s, apdu, env).1)
  {
    hide Send, HandlePass3, Sends;
    SendModest(k.hal, s, EXCEPTION);
    if apdu != [] && env.request(apdu).Pass3? { Pass3Modest(k, s, env.request(apdu).msg, env.pass3Reply); }
  }

  /** A step's trace: perhaps an outer acceptance, then a modest rest. */
  ghost predicate Shaped(es: seq<Ev>, env: Env) {
    Modest(es, env) || (Opens(es) && Modest(es[1..], env))
  }

  ghost predicate Opens(es: seq<Ev>) { es != [] && es[0].Accepted? && es[0].outer }

  lemma ServiceShaped(k: Hls.Crypto, s: Srv, apdu: seq<byte>, env: Env)
    requires S.IsService(apdu)
    ensures var es := Accept(k, s, apdu, env).1;
            && Shaped(es, env)
            && (s.associated && s.ciphering ==> (Deaf(es) ==> Sends(es) == 0) && (!s.gbt && !Deaf(es) ==> Opens(es)))
  {
    hide Decipher, Send, Gated, Ungated, Align, Sends, IsCiphered;
    var (d, s1, got) := Decipher(k.hal, s, apdu, true);
    GotSilent(k.hal, s, apdu, true);
    RefusedKeeps(k.hal, s, apdu, true);
    SendModest(k.hal, s1, EXCEPTION);
    if d.Opened? {
      AfterOpened(k, s, apdu, env);
    } else if d.Untouched? {
      Untouched(k.hal, s, apdu);
      assert got + Gated(k, s1, apdu, false, env).1 == Gated(k, s1, apdu, false, env).1;
      assert got + Ungated(k, s1, apdu, env).1 == Ungated(k, s1, apdu, env).1;
      GatedModest(k, s1, apdu, false, env);
      UngatedModest(k, s1, apdu, env);
    }
  }

  lemma Untouched(h: Hal, s: Srv, apdu: seq<byte>)
    requires apdu != [] && Decipher(h, s, apdu, true).0.Untouched?
    ensures s.ciphering ==> !IsCiphered(apdu[0])
  {
    hide Unprotected, IsCiphered;
  }

  lemma AfterOpened(k: Hls.Crypto, s: Srv, apdu: seq<byte>, env: Env)
    requires S.IsService(apdu) && Decipher(k.hal, s, apdu, true).0.Opened?
    ensures var es := Accept(k, s, apdu, env).1; Opens(es) && Modest(es[1..], env)
  {
    hide Decipher, Send, Gated, Ungated, Align, Sends;
    var (d, s1, got) := Decipher(k.hal, s, apdu, true);
    GotSilent(k.hal, s, apdu, true);
    var s2 := Align(s1);
    SendModest(k.hal, s2, EXCEPTION);
    GatedModest(k, s2, d.text, true, env);
    UngatedModest(k, s2, d.text, env);
    var e := if d.text == [] then Send(k.hal, s2, EXCEPTION).1
        else if s2.associated then Gated(k, s2, d.text, true, env).1 else Ungated(k, s2, d.text, env).1;
    assert Accept(k, s, apdu, env).1 == got + e;
    assert (got + e)[1..] == e;
  }

  /** A message that is answered as it comes, and nothing sent otherwise. */
  ghost predicate Prompted(i: Input) { !i.Notify? && (i.Received? ==> Unpushed(i.env)) }

  /** A step within an association sends two ciphered frames at most. */
  lemma StepSends(k: Hls.Crypto, s: Srv, i: Input)
    requires Within(i)
    ensures Sends(Step(k, s, i).1) <= 2
  {
    hide Send, Sends, HandleAarq, Unpushed, NoOuter;
    NothingSent();
    if i.Notify? { SendModest(k.hal, s, i.apdu); }
    if i.Received? && S.IsService(i.apdu) {
      ServiceShaped(k, s, i.apdu, i.env);
      var es := Step(k, s, i).1;
      if es != [] {
        assert es == [es[0]] + es[1..];
        SendsJoin([es[0]], es[1..]);
        SendsOne(es[0]);
      }
    }
  }

  lemma {:induction false} RunSends(k: Hls.Crypto, s: Srv, inputs: seq<Input>)
    requires forall j :: 0 <= j < |inputs| ==> Within(inputs[j])
    ensures Sends(Run(k, s, inputs).1) <= 2 * |inputs|
    decreases |inputs|
  {
    hide Step, Within;
    if inputs != [] {
      StepSends(k, s, inputs[0]);
      var s1 := Step(k, s, inputs[0]).0;
      RunSends(k, s1, inputs[1..]);
      SendsJoin(Step(k, s, inputs[0]).1, Run(k, s1, inputs[1..]).1);
    }
  }

  /** The end occurs once, and the sends after it are sends of the run. */
  lemma EndOnce(es: seq<Ev>, m: nat, n: nat)
    requires AcceptedRise(es) && m <= n < |es| && IsEnd(es[m]) && IsEnd(es[n])
    ensures m == n
  {}

  ghost predicate Before(es: seq<Ev>, i: nat)
    requires i <= |es|
  {
    forall n :: 0 <= n < i ==> !IsEnd(es[n])
  }

  /** Where a vector that comes twice was used first, and where the counter restarted. */
  lemma TwiceAt(k: Hls.Crypto, s: Srv, inputs: seq<Input>) returns (i: nat, n: nat)
    requires forall j :: 0 <= j < |inputs| ==> Within(inputs[j])
    requires VectorTwice(Run(k, s, inputs).1)
    ensures var es := Run(k, s, inputs).1;
            i < n < |es| && es[i].SentCiphered? && IsEnd(es[n]) && es[i].ic < Sends(es[n + 1..]) && Before(es, i)
  {
    hide Run, Within, IsEnd, VectorTwice, Sends, SentRise, Straddled;
    var es := Run(k, s, inputs).1;
    CountersMove(k, s, inputs);
    i, n :| 0 <= i < n < |es| && es[i].SentCiphered? && IsEnd(es[n]) && es[i].ic < Sends(es[n + 1..]);
    forall m | 0 <= m < i ensures !IsEnd(es[m]) { if IsEnd(es[m]) { EndOnce(es, m, n); } }
  }

  /** A vector comes twice only if the steps taken could have brought the counter from 0 to where it was at first. */
  lemma TwiceTakesSteps(k: Hls.Crypto, s: Srv, inputs: seq<Input>)
    requires forall j :: 0 <= j < |inputs| ==> Within(inputs[j])
    ensures VectorTwice(Run(k, s, inputs).1) ==> s.tx.ic < 2 * |inputs|
  {
    hide Run, Within, SentIn, GotIn, IsEnd, VectorTwice, Sends, IvsOf;
    var (s1, es) := Run(k, s, inputs);
    if VectorTwice(es) {
      var i, n := TwiceAt(k, s, inputs);
      RunFine(k, s, inputs);
      RunSends(k, s, inputs);
      SentAbove(es, s.tx.ic, s1.tx.ic, i);
      assert es == es[..n + 1] + es[n + 1..];
      SendsJoin(es[..n + 1], es[n + 1..]);
    }
  }

  // ── An established association ─────────────────────────────────────────────

  /** Associated and ciphering; with block transfer, the counter is off its start. */
  ghost predicate Settled(s: Srv) { Established(s) && (s.gbt ==> s.tx.ic >= 1) }

  ghost predicate Established(s: Srv) { s.associated && !s.hlsPending && s.ciphering }

  /** At most one ciphered frame, after an acceptance in the same step; without blocks that is in front of the gate. */
  ghost predicate Prompt(es: seq<Ev>, gbt: bool) {
    && Sends(es) <= 1 && NoOuter(if es == [] then es else es[1..])
    && (Deaf(es) ==> Sends(es) == 0) && (!gbt && !Deaf(es) ==> Opens(es))
  }

  lemma StepPrompt(k: Hls.Crypto, s: Srv, i: Input)
    requires Established(s) && Within(i) && Prompted(i)
    ensures var (s1, es) := Step(k, s, i); Prompt(es, s.gbt) && Established(s1) && s1.gbt == s.gbt
  {
    hide Send, Sends, HandleAarq, Unpushed, Accept;
    NothingSent();
    if i.Received? {
      if S.IsService(i.apdu) {
        ServiceShaped(k, s, i.apdu, i.env);
        S.ServiceFlags(k, s, i.apdu, i.env);
        var es := Accept(k, s, i.apdu, i.env).1;
        if es != [] {
          assert es == [es[0]] + es[1..];
          SendsJoin([es[0]], es[1..]);
          SendsOne(es[0]);
        }
      } else {
        NoService(k, s, i.apdu, i.env);
      }
    }
  }

  lemma NoService(k: Hls.Crypto, s: Srv, apdu: seq<byte>, env: Env)
    requires !S.IsService(apdu) && Within(Received(apdu, env))
    ensures Accept(k, s, apdu, env) == (s, [])
  {}

  /** While nothing is accepted, nothing is sent. */
  lemma {:induction false} DeafSilent(k: Hls.Crypto, s: Srv, inputs: seq<Input>)
    requires Established(s) && forall j :: 0 <= j < |inputs| ==> Within(inputs[j]) && Prompted(inputs[j])
    requires Deaf(Run(k, s, inputs).1)
    ensures Sends(Run(k, s, inputs).1) == 0
    decreases |inputs|
  {
    hide Step, Within, Prompted, Established;
    if inputs != [] {
      var (s1, e1) := Step(k, s, inputs[0]);
      var e2 := Run(k, s1, inputs[1..]).1;
      StepPrompt(k, s, inputs[0]);
      var es := Run(k, s, inputs).1;
      assert es == e1 + e2;
      forall i | 0 <= i < |e2| ensures !e2[i].Accepted? { assert e2[i] == es[|e1| + i]; }
      forall i | 0 <= i < |e1| ensures !e1[i].Accepted? { assert e1[i] == es[i]; }
      DeafSilent(k, s1, inputs[1..]);
      SendsJoin(e1, e2);
    }
  }

  /** Frames before the end carry a positive counter, and one frame at most follows it. */
  ghost predicate Bounded(es: seq<Ev>) {
    && (forall i :: 0 <= i < |es| && es[i].SentCiphered? && Before(es, i) ==> es[i].ic >= 1)
    && (forall n :: 0 <= n < |es| && IsEnd(es[n]) ==> Sends(es[n + 1..]) <= 1)
  }

  /** An outer acceptance that is not the end leaves a positive counter. */
  lemma StepAbove(e1: seq<Ev>, lo: u32, hi: u32, i: nat, gbt: bool)
    requires SentIn(e1, lo, hi) && Prompt(e1, gbt) && (gbt ==> lo >= 1)
    requires i < |e1| && e1[i].SentCiphered? && Before(e1, i)
    ensures e1[i].ic >= 1
  {
    hide Sends;
    SomeSent(e1, i);
    if gbt {
      SentAbove(e1, lo, hi, i);
    } else {
      assert !IsEnd(e1[0]);
      forall n | 0 <= n < i - 1 ensures !IsEnd(e1[1..][n]) { assert e1[1..][n] == e1[n + 1]; }
      SentAbove(e1[1..], After(lo, e1[0]), hi, i - 1);
    }
  }

  lemma {:induction false} NoEndRises(es: seq<Ev>, lo: u32, hi: u32)
    requires SentIn(es, lo, hi) && Before(es, |es|)
    ensures lo <= hi
    decreases |es|
  {
    if es != [] {
      assert !IsEnd(es[0]);
      forall n | 0 <= n < |es[1..]| ensures !IsEnd(es[1..][n]) { assert es[1..][n] == es[n + 1]; }
      NoEndRises(es[1..], After(lo, es[0]), hi);
    }
  }

  lemma JoinAbove(e1: seq<Ev>, e2: seq<Ev>, lo: u32, mid: u32, i: nat, gbt: bool)
    requires SentIn(e1, lo, mid) && Prompt(e1, gbt) && (gbt ==> lo >= 1) && Bounded(e2)
    requires i < |e1 + e2| && (e1 + e2)[i].SentCiphered? && Before(e1 + e2, i)
    ensures (e1 + e2)[i].ic >= 1
  {
    hide SentIn, Sends, IsEnd, Prompt;
    var es := e1 + e2;
    if i < |e1| {
      assert forall n :: 0 <= n < i ==> es[n] == e1[n];
      StepAbove(e1, lo, mid, i, gbt);
    } else {
      assert es[i] == e2[i - |e1|];
      forall n | 0 <= n < i - |e1| ensures !IsEnd(e2[n]) { assert es[|e1| + n] == e2[n]; }
    }
  }

  lemma JoinAfter(e1: seq<Ev>, e2: seq<Ev>, n: nat)
    requires Sends(e1) <= 1 && Bounded(e2) && n < |e1 + e2| && IsEnd((e1 + e2)[n])
    requires (exists m :: 0 <= m < |e1| && IsEnd(e1[m])) ==> Sends(e2) == 0
    ensures Sends((e1 + e2)[n + 1..]) <= 1
  {
    hide Sends, IsEnd, Before;
    var es := e1 + e2;
    if n < |e1| {
      assert IsEnd(e1[n]);
      assert es[n + 1..] == e1[n + 1..] + e2;
      SendsJoin(e1[n + 1..], e2);
      assert e1 == e1[..n + 1] + e1[n + 1..];
      SendsJoin(e1[..n + 1], e1[n + 1..]);
    } else {
      assert es[n] == e2[n - |e1|];
      assert es[n + 1..] == e2[n - |e1| + 1..];
    }
  }

  /** One step further. */
  lemma BoundedJoin(e1: seq<Ev>, e2: seq<Ev>, lo: u32, mid: u32, gbt: bool)
    requires SentIn(e1, lo, mid) && Prompt(e1, gbt) && (gbt ==> lo >= 1) && Bounded(e2)
    requires (exists n :: 0 <= n < |e1| && IsEnd(e1[n])) ==> Sends(e2) == 0
    ensures Bounded(e1 + e2)
  {
    hide SentIn, Sends, IsEnd, Before, NoOuter;
    var es := e1 + e2;
    forall i | 0 <= i < |es| && es[i].SentCiphered? && Before(es, i) ensures es[i].ic >= 1 {
      JoinAbove(e1, e2, lo, mid, i, gbt);
    }
    forall n | 0 <= n < |es| && IsEnd(es[n]) ensures Sends(es[n + 1..]) <= 1 { JoinAfter(e1, e2, n); }
  }

  lemma {:induction false} RunBounded(k: Hls.Crypto, s: Srv, inputs: seq<Input>)
    requires Settled(s) && forall j :: 0 <= j < |inputs| ==> Within(inputs[j]) && Prompted(inputs[j])
    ensures Bounded(Run(k, s, inputs).1)
    decreases |inputs|
  {
    hide Step, Within, Prompted, Established, SentIn, GotIn, IsEnd, Sends, IvsOf, Prompt, Bounded, Deaf;
    if inputs == [] {
      NothingSent();
      NothingBounded([]);
    } else {
      var (s1, e1) := Step(k, s, inputs[0]);
      var (s2, e2) := Run(k, s1, inputs[1..]);
      StepPrompt(k, s, inputs[0]);
      StepFine(k, s, inputs[0]);
      RunFine(k, s1, inputs[1..]);
      if n :| 0 <= n < |e1| && IsEnd(e1[n]) {
        EndDeafens(e1, e2, Last(s), Last(s1), Last(s2), n);
        DeafSilent(k, s1, inputs[1..]);
        NothingBounded(e2);
      } else {
        NoEndRises(e1, s.tx.ic, s1.tx.ic);
        RunBounded(k, s1, inputs[1..]);
      }
      BoundedJoin(e1, e2, s.tx.ic, s1.tx.ic, s.gbt);
    }
  }

  lemma NothingBounded(es: seq<Ev>)
    requires Sends(es) == 0
    ensures Bounded(es)
  {
    hide Sends;
    forall i | 0 <= i < |es| && es[i].SentCiphered? ensures false { SomeSent(es, i); }
    forall n | 0 <= n < |es| && IsEnd(es[n]) ensures Sends(es[n + 1..]) <= 1 {
      assert es == es[..n + 1] + es[n + 1..];
      SendsJoin(es[..n + 1], es[n + 1..]);
    }
  }

  lemma EndDeafens(e1: seq<Ev>, e2: seq<Ev>, a: int, b: int, c: int, n: nat)
    requires GotIn(e1, a, b) && GotIn(e2, b, c) && n < |e1| && IsEnd(e1[n])
    ensures Deaf(e2)
  {
    hide GotIn;
    var es := e1 + e2;
    GotJoin(e1, e2, a, b, c);
    forall i | 0 <= i < |e2| ensures !e2[i].Accepted? {
      assert es[|e1| + i] == e2[i] && es[n] == e1[n];
      if e2[i].Accepted? { GotOrdered(es, a, c, n, |e1| + i); }
    }
  }

  /**
   Once established, an association that only answers never uses a vector twice, whatever arrives: without block
   transfer, and with it if the counter is off its start.
   */
  lemma AnsweringNeverTwice(k: Hls.Crypto, s: Srv, inputs: seq<Input>)
    requires Settled(s) && forall j :: 0 <= j < |inputs| ==> Within(inputs[j]) && Prompted(inputs[j])
    ensures !VectorTwice(Run(k, s, inputs).1)
  {
    hide Run, Within, Prompted, Settled, IsEnd, VectorTwice, Sends, Before;
    if VectorTwice(Run(k, s, inputs).1) {
      var i, n := TwiceAt(k, s, inputs);
      RunBounded(k, s, inputs);
    }
  }

  // ── An established association with blocks ─────────────────────────────────

  /** A short response of a ciphered service. */
  type Reply = s: seq<byte> | 1 <= |s| <= 64 && Applies(s) witness [0xC4]

  lemma ReplySent(h: Hal, s: Srv, reply: Reply)
    requires s.ciphering && s.tx.policy == Policy(false, false) && s.tx.ic < 0xFFFF_FFFF
    ensures Send(h, s, reply) == (s.(tx := s.tx.(ic := s.tx.ic + 1)),
            [SentCiphered(IvOf(s.tx.title, s.tx.ic), s.tx.ic)])
  {
    hide IvOf, BigEndian, V.TextBytes, Applies;
    var sc := Control(s.tx.policy, s.tx.suite);
    assert PolicyOf(sc) == s.tx.policy by { ControlRoundTrip(s.tx.policy, s.tx.suite); }
    assert Seal(h, s.tx, IvOf(s.tx.title, s.tx.ic), sc, reply) == Some(reply);
    assert |Body(sc, s.tx.ic, reply)| == 5 + |reply|;
  }

  /** A request that cannot be decoded, and is answered all the same. */
  ghost function AskEnv(reply: Reply): Env {
    Env(_ => None, _ => false, NoGenerator, _ => Undecodable(Some(reply)), O.Zeros(), [], R.Always, [])
  }

  function Asked(ic: u32): (frame: Gbt.Payload)
    ensures frame != [] && frame[0] == 0xC8 && frame == Bare(ic, [GET])
  {
    BareShort(ic);
    Bare(ic, [GET])
  }

  lemma BareShort(ic: u32)
    ensures |Bare(ic, [GET])| <= 8
  {
    hide BigEndian;
    assert |Body(0, ic, [GET])| == 6;
  }

  /** The ciphered request itself, and the same as the only block of an unciphered transfer. */
  ghost function FramedAsk(ic: u32, reply: Reply): Input { Received(Bare(ic, [GET]), AskEnv(reply)) }
  ghost function BlockAsk(ic: u32, reply: Reply): Input { Received(Gbt.Wire(OnlyBlock(ic)), AskEnv(reply)) }

  function OnlyBlock(ic: u32): Gbt.Block { Gbt.Block(true, false, 0, 1, 0, Asked(ic)) }

  lemma AskServed(k: Hls.Crypto, s: Srv, reply: Reply)
    ensures Serve(k, s, [GET], AskEnv(reply)) == Send(k.hal, s, reply)
  {
    hide Send;
  }

  lemma FramedAskStep(k: Hls.Crypto, s: Srv, reply: Reply)
    requires Established(s) && (s.rx.icValid ==> s.rx.lastPeerIc < 0xFFFF_FFFF)
    ensures Step(k, s, FramedAsk(0xFFFF_FFFF, reply)).1 ==
            [Accepted(0xFFFF_FFFF, true), SentCiphered(IvOf(s.tx.title, 0), 0)]
  {
    hide Unprotected, Bare, Serve, Align, IvOf, Send;
    var ic: u32 := 0xFFFF_FFFF;
    BareAccepted(k.hal, s.rx, ic, [GET]);
    var s1 := s.(rx := s.rx.(lastPeerIc := ic, icValid := true, policy := Policy(false, false)));
    AlignFrame(s1);
    AskServed(k, Align(s1), reply);
    ReplySent(k.hal, Align(s1), reply);
    var e := Serve(k, Align(s1), [GET], AskEnv(reply)).1;
    assert [] + e == e;
    assert Gated(k, Align(s1), [GET], true, AskEnv(reply)).1 == e;
    assert Step(k, s, FramedAsk(ic, reply)).1 == [Accepted(ic, true)] + e;
    assert [Accepted(ic, true)] + [e[0]] == [Accepted(ic, true), e[0]];
  }

  lemma BlockAskWhole(s: Srv, ic: u32, reply: Reply)
    requires s.gbt
    ensures Whole(s, Gbt.Wire(OnlyBlock(ic)), AskEnv(reply)) == Some(Bare(ic, [GET]))
  {
    hide Gbt.Wire, Gbt.Decode, Bare;
    S.WireSize(OnlyBlock(ic));
    S.WireReceived(OnlyBlock(ic), O.Zeros());
    BareShort(ic);
    var all := Blocks(Gbt.Wire(OnlyBlock(ic)), AskEnv(reply));
    assert all[0] == T.Frame(Gbt.Wire(OnlyBlock(ic)), O.Zeros());
    assert [] + Asked(ic) == Asked(ic);
  }

  /** The reply goes out with the counter as it stood: a frame inside blocks does not move it. */
  lemma BlockAskStep(k: Hls.Crypto, s: Srv, reply: Reply)
    requires Established(s) && s.gbt && !s.rx.icValid && s.tx.ic < 0xFFFF_FFFF
    requires Protected(k.hal, s.tx, CipherTag(s.tx, reply[0]), reply).Some?
    ensures var (s1, es) := Step(k, s, BlockAsk(0, reply));
            && es == [Accepted(0, false), SentCiphered(IvOf(s.tx.title, s.tx.ic), s.tx.ic)]
            && Established(s1) && s1.tx.title == s.tx.title && s1.rx.lastPeerIc == 0
  {
    hide Unprotected, Bare, Protected, IvOf, CipherTag, Gbt.Wire, Reassembled, Serve;
    var w := Gbt.Wire(OnlyBlock(0));
    S.WireSize(OnlyBlock(0));
    BlockAskWhole(s, 0, reply);
    BareAccepted(k.hal, s.rx, 0, [GET]);
    var s1 := s.(rx := s.rx.(lastPeerIc := 0, icValid := true, policy := Policy(false, false)));
    AskServed(k, s1, reply);
    var (s2, e) := Serve(k, s1, [GET], AskEnv(reply));
    assert Gated(k, s, w, false, AskEnv(reply)) == (s2, [Accepted(0, false)] + e);
    assert [] + ([Accepted(0, false)] + e) == [Accepted(0, false)] + e == [Accepted(0, false), e[0]];
  }

  /** With block transfer and the counter at its start, two requests suffice. */
  lemma BlockAskTwice(k: Hls.Crypto, s: Srv, reply: Reply)
    requires Established(s) && s.gbt && !s.rx.icValid && s.tx.ic == 0
    requires Protected(k.hal, s.tx, CipherTag(s.tx, reply[0]), reply).Some?
    ensures Answering([BlockAsk(0, reply), FramedAsk(0xFFFF_FFFF, reply)])
    ensures VectorTwice(Run(k, s, [BlockAsk(0, reply), FramedAsk(0xFFFF_FFFF, reply)]).1)
  {
    hide Step, Protected, IvOf, Bare, Gbt.Wire, CipherTag;
    var a, b := BlockAsk(0, reply), FramedAsk(0xFFFF_FFFF, reply);
    S.WireSize(OnlyBlock(0));
    assert Within(a) && Within(b);
    BlockAskStep(k, s, reply);
    var (s1, e1) := Step(k, s, a);
    FramedAskStep(k, s1, reply);
    var (s2, e2) := Step(k, s1, b);
    assert [a, b][1..] == [b] && [b][1..] == [];
    assert Run(k, s2, []) == (s2, []) && e2 + [] == e2;
    assert Run(k, s1, [b]).1 == e2;
    var es := Run(k, s, [a, b]).1;
    assert es == e1 + e2;
    assert es[1] == es[3] == SentCiphered(IvOf(s.tx.title, 0), 0);
  }

  /** Inputs within the association that are only answered. */
  ghost predicate Answering(inputs: seq<Input>) {
    forall j :: 0 <= j < |inputs| ==> Within(inputs[j]) && Prompted(inputs[j])
  }

  /** For a new association that can answer: only answering it never repeats a vector, if and only if it is settled. */
  lemma SettledIff(k: Hls.Crypto, s: Srv, reply: Reply)
    requires Established(s) && !s.rx.icValid
    requires Protected(k.hal, s.tx, CipherTag(s.tx, reply[0]), reply).Some?
    ensures (forall inputs: seq<Input> :: Answering(inputs) ==> !VectorTwice(Run(k, s, inputs).1)) <==> Settled(s)
  {
    hide Run, VectorTwice, Within, Prompted, Protected, CipherTag;
    if Settled(s) {
      forall inputs: seq<Input> | Answering(inputs) ensures !VectorTwice(Run(k, s, inputs).1) {
        AnsweringNeverTwice(k, s, inputs);
      }
    } else {
      BlockAskTwice(k, s, reply);
      NotAlways(k, s, [BlockAsk(0, reply), FramedAsk(0xFFFF_FFFF, reply)]);
    }
  }

  lemma NotAlways(k: Hls.Crypto, s: Srv, run: seq<Input>)
    requires Answering(run) && VectorTwice(Run(k, s, run).1)
    ensures !forall inputs: seq<Input> :: Answering(inputs) ==> !VectorTwice(Run(k, s, inputs).1)
  {}

  // ── An association still in its handshake ──────────────────────────────────

  /** A pass-3 message that is refused and does not count as a failure. */
  ghost predicate Wrong(k: Hls.Crypto, sec: Hls.Side, msg: seq<byte>) {
    msg != [] && Hls.Verify3(k, sec, msg).0 != 0 && Hls.Verify3(k, sec, msg).1 == sec
  }

  /** Such messages exist for both mechanisms with a counter: anything too short. */
  lemma ShortIsWrong(k: Hls.Crypto, sec: Hls.Side, b: byte)
    requires Hls.IsCounted(sec.mech)
    ensures Wrong(k, sec, [b])
  {}

  type ActionText = s: seq<byte> | 1 <= |s| <= MAX_PLAIN && s[0] == ACTION witness [ACTION]

  /** A pass-3 request: its octets, the message they carry, and the response to it. */
  datatype Attempt = Attempt(text: ActionText, msg: seq<byte>, reply: Reply)

  ghost function PassEnv(a: Attempt): Env {
    Env(_ => None, _ => false, NoGenerator, _ => Pass3(a.msg), O.Zeros(), [], R.Always, a.reply)
  }

  /** Pass 3 in a frame with this counter, and pass 3 unciphered. */
  ghost function FramedPass(ic: u32, a: Attempt): Input { Received(Bare(ic, a.text), PassEnv(a)) }
  ghost function PlainPass(a: Attempt): Input { Received(a.text, PassEnv(a)) }

  /** In its handshake, ciphering, and with this answer wrong. */
  ghost predicate Waiting(k: Hls.Crypto, s: Srv, a: Attempt) {
    !s.associated && s.hlsPending && s.ciphering && Wrong(k, s.security, a.msg)
  }

  lemma RefusedPass(k: Hls.Crypto, s: Srv, a: Attempt)
    requires Waiting(k, s, a) && s.tx.policy == Policy(false, false) && s.tx.ic < 0xFFFF_FFFF
    ensures Ungated(k, s, a.text, PassEnv(a)) ==
            (s.(tx := s.tx.(ic := s.tx.ic + 1)), [SentCiphered(IvOf(s.tx.title, s.tx.ic), s.tx.ic)])
  {
    hide Send, IvOf, Hls.Verify3;
    ReplySent(k.hal, s, a.reply);
    assert s.(security := s.security) == s;
  }

  lemma PlainPassStep(k: Hls.Crypto, s: Srv, a: Attempt)
    requires Waiting(k, s, a) && s.tx.policy == Policy(false, false) && s.tx.ic < 0xFFFF_FFFF
    ensures Step(k, s, PlainPass(a)) ==
            (s.(tx := s.tx.(ic := s.tx.ic + 1)), [SentCiphered(IvOf(s.tx.title, s.tx.ic), s.tx.ic)])
  {
    hide Ungated, IvOf, Waiting;
    RefusedPass(k, s, a);
    assert Waiting(k, s, a) ==> !s.associated by { WaitingFlags(k, s, a); }
    var es := Ungated(k, s, a.text, PassEnv(a)).1;
    assert [] + es == es;
  }

  lemma WaitingFlags(k: Hls.Crypto, s: Srv, a: Attempt)
    requires Waiting(k, s, a)
    ensures !s.associated && s.ciphering
  {}

  lemma FramedPassStep(k: Hls.Crypto, s: Srv, ic: u32, a: Attempt)
    requires Waiting(k, s, a) && (s.rx.icValid ==> ic > s.rx.lastPeerIc)
    ensures var c := if s.tx.ic <= ic then (ic + 1) % 0x1_0000_0000 else s.tx.ic;
            c < 0xFFFF_FFFF ==>
              Step(k, s, FramedPass(ic, a)) ==
              (s.(tx := s.tx.(ic := c + 1, policy := Policy(false, false)),
                  rx := s.rx.(lastPeerIc := ic, icValid := true, policy := Policy(false, false))),
               [Accepted(ic, true), SentCiphered(IvOf(s.tx.title, c), c)])
  {
    hide Unprotected, Bare, Ungated, Align, IvOf, Hls.Verify3;
    BareAccepted(k.hal, s.rx, ic, a.text);
    var s1 := s.(rx := s.rx.(lastPeerIc := ic, icValid := true, policy := Policy(false, false)));
    AlignFrame(s1);
    if Align(s1).tx.ic < 0xFFFF_FFFF {
      RefusedPass(k, Align(s1), a);
      var (s2, e) := Ungated(k, Align(s1), a.text, PassEnv(a));
      assert Step(k, s, FramedPass(ic, a)) == (s2, [Accepted(ic, true)] + e);
      assert e == [e[0]] && [Accepted(ic, true)] + [e[0]] == [Accepted(ic, true), e[0]];
    }
  }

  ghost function Copies(i: Input, n: nat): seq<Input> { if n == 0 then [] else [i] + Copies(i, n - 1) }

  /** Repeated, it spends one counter value each time. */
  lemma {:induction false} Repeated(k: Hls.Crypto, s: Srv, a: Attempt, n: nat)
    requires Waiting(k, s, a) && s.tx.policy == Policy(false, false) && s.tx.ic + n <= 0xFFFF_FFFF
    ensures Sends(Run(k, s, Copies(PlainPass(a), n)).1) == n
    decreases n
  {
    hide Step, IvOf, Hls.Verify3;
    if n > 0 {
      PlainPassStep(k, s, a);
      var (s1, e1) := Step(k, s, PlainPass(a));
      var all, rest := Copies(PlainPass(a), n), Copies(PlainPass(a), n - 1);
      assert all[0] == PlainPass(a) && all[1..] == rest;
      Repeated(k, s1, a, n - 1);
      SendsOne(e1[0]);
      SendsJoin(e1, Run(k, s1, rest).1);
    }
  }

  lemma {:induction false} CopiesAre(i: Input, n: nat)
    ensures |Copies(i, n)| == n && forall j :: 0 <= j < n ==> Copies(i, n)[j] == i
  {
    if n > 0 { CopiesAre(i, n - 1); }
  }

  /** Wrong answers: one in a frame with counter 0, one with the peer's last, and then unciphered ones. */
  ghost function WrongAnswers(a: Attempt, n: nat): seq<Input> {
    [FramedPass(0, a), FramedPass(0xFFFF_FFFF, a)] + Copies(PlainPass(a), n)
  }

  lemma WrongAnswersPrompted(a: Attempt, n: nat)
    ensures forall j :: 0 <= j < |WrongAnswers(a, n)| ==>
              Within(WrongAnswers(a, n)[j]) && Prompted(WrongAnswers(a, n)[j])
  {
    hide Bare;
    CopiesAre(PlainPass(a), n);
    assert Within(FramedPass(0, a)) && Within(FramedPass(0xFFFF_FFFF, a)) && Within(PlainPass(a));
  }

  /** Their trace: the counter c is used, the end is accepted, and c + 1 frames follow. */
  lemma WrongAnswersTrace(k: Hls.Crypto, s: Srv, a: Attempt, c: u32)
    requires Waiting(k, s, a) && !s.rx.icValid && s.tx.ic < 0xFFFF_FFFF && c == if s.tx.ic == 0 then 1 else s.tx.ic
    ensures var es := Run(k, s, WrongAnswers(a, c)).1;
            && |es| > 3 && es[1].SentCiphered? && es[1].ic == c && es[2] == Accepted(0xFFFF_FFFF, true)
            && Sends(es[3..]) == c + 1
  {
    hide Step, IvOf, Bare, Sends, Wrong, FramedPass, PlainPass, Copies;
    var x, y, rest := FramedPass(0, a), FramedPass(0xFFFF_FFFF, a), Copies(PlainPass(a), c);
    FramedPassStep(k, s, 0, a);
    var (s1, e1) := Step(k, s, x);
    FramedPassStep(k, s1, 0xFFFF_FFFF, a);
    var (s2, e2) := Step(k, s1, y);
    Repeated(k, s2, a, c);
    var e3, all := Run(k, s2, rest).1, WrongAnswers(a, c);
    assert all[1..] == [y] + rest && ([y] + rest)[1..] == rest;
    assert Run(k, s1, [y] + rest).1 == e2 + e3;
    var es := Run(k, s, all).1;
    assert es == e1 + (e2 + e3);
    assert es[3..] == [e2[1]] + e3;
    SendsOne(e2[1]);
    SendsJoin([e2[1]], e3);
  }

  /** During the handshake the same vector comes twice: for every wrong answer that is not counted. */
  lemma WrongAnswersTwice(k: Hls.Crypto, s: Srv, a: Attempt)
    requires Waiting(k, s, a) && !s.rx.icValid && s.tx.ic < 0xFFFF_FFFF
    ensures VectorTwice(Run(k, s, WrongAnswers(a, if s.tx.ic == 0 then 1 else s.tx.ic)).1)
  {
    hide Run, Sends, Waiting, VectorTwice, WrongAnswers, SentRise, Straddled, AcceptedRise, Within, Prompted;
    var c: u32 := if s.tx.ic == 0 then 1 else s.tx.ic;
    WrongAnswersTrace(k, s, a, c);
    WrongAnswersPrompted(a, c);
    CountersMove(k, s, WrongAnswers(a, c));
    assert IsEnd(Run(k, s, WrongAnswers(a, c)).1[2]);
  }

  /** So answering alone is safe for the vectors if and only if the association is established. */
  lemma NeverTwiceIff(k: Hls.Crypto, s: Srv, a: Attempt)
    requires Settled(s) || (Waiting(k, s, a) && !s.rx.icValid && s.tx.ic < 0xFFFF_FFFF)
    ensures (forall inputs: seq<Input> :: Answering(inputs) ==> !VectorTwice(Run(k, s, inputs).1)) <==> s.associated
  {
    hide Run, VectorTwice, Within, Prompted, Hls.Verify3;
    if s.associated {
      forall inputs: seq<Input> | Answering(inputs) ensures !VectorTwice(Run(k, s, inputs).1) {
        AnsweringNeverTwice(k, s, inputs);
      }
    } else {
      var c := if s.tx.ic == 0 then 1 else s.tx.ic;
      WrongAnswersTwice(k, s, a);
      WrongAnswersPrompted(a, c);
      NotAlways(k, s, WrongAnswers(a, c));
    }
  }
}
