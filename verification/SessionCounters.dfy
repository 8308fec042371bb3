/**
 Invocation counters within one ciphered association (src/server/server.c:196-227, 1377-1402): the trace of a
 run determines both counters, what is accepted moves strictly forward, and exactly when what is sent does.
 */
module SessionCounters {
  import opened Octets
  import opened Protect
  import opened Session
  import opened Lengths
  import Hls
  import Acl

  /** The outbound counter after an event: a sent frame uses one value up, and an outer acceptance is followed. */
  function After(ic: u32, e: Ev): u32 {
    match e
    case SentCiphered(_, _) => (ic + 1) % 0x1_0000_0000
    case Accepted(peer, true) => if ic <= peer then (peer + 1) % 0x1_0000_0000 else ic
    case _ => ic
  }

  /** The trace explains the outbound counter: each ciphered frame carries its value, and it ends as hi. */
  ghost predicate SentIn(es: seq<Ev>, lo: u32, hi: u32) {
    if es == [] then lo == hi
    else (es[0].SentCiphered? ==> es[0].ic == lo < 0xFFFF_FFFF) && SentIn(es[1..], After(lo, es[0]), hi)
  }

  /** Accepted counters are strictly increasing above lo, and the last of them is hi. */
  ghost predicate GotIn(es: seq<Ev>, lo: int, hi: int) {
    if es == [] then lo == hi
    else if es[0].Accepted? then lo < es[0].ic && GotIn(es[1..], es[0].ic, hi)
    else GotIn(es[1..], lo, hi)
  }

  ghost predicate IvsOf(es: seq<Ev>, title: Title) {
    forall i :: 0 <= i < |es| && es[i].SentCiphered? ==> es[i].iv == IvOf(title, es[i].ic)
  }

  ghost predicate Fine(es: seq<Ev>, before: Srv, after: Srv) {
    && SentIn(es, before.tx.ic, after.tx.ic) && GotIn(es, Last(before), Last(after)) && IvsOf(es, before.tx.title)
    && after.tx.title == before.tx.title && after.ciphering == before.ciphering
  }

  function Last(s: Srv): int { if s.rx.icValid then s.rx.lastPeerIc else -1 }

  lemma {:induction false} SentJoin(a: seq<Ev>, b: seq<Ev>, lo: u32, mid: u32, hi: u32)
    requires SentIn(a, lo, mid) && SentIn(b, mid, hi)
    ensures SentIn(a + b, lo, hi)
    decreases |a|
  {
    if a == [] {
      assert a + b == b;
    } else {
      assert (a + b)[1..] == a[1..] + b;
      SentJoin(a[1..], b, After(lo, a[0]), mid, hi);
    }
  }

  lemma {:induction false} GotJoin(a: seq<Ev>, b: seq<Ev>, lo: int, mid: int, hi: int)
    requires GotIn(a, lo, mid) && GotIn(b, mid, hi)
    ensures GotIn(a + b, lo, hi)
    decreases |a|
  {
    if a == [] {
      assert a + b == b;
    } else {
      assert (a + b)[1..] == a[1..] + b;
      GotJoin(a[1..], b, if a[0].Accepted? then a[0].ic else lo, mid, hi);
    }
  }

  lemma FineJoin(a: seq<Ev>, b: seq<Ev>, s0: Srv, s1: Srv, s2: Srv)
    requires Fine(a, s0, s1) && Fine(b, s1, s2)
    ensures Fine(a + b, s0, s2)
  {
    hide SentIn, GotIn, IvOf, Last;
    SentJoin(a, b, s0.tx.ic, s1.tx.ic, s2.tx.ic);
    GotJoin(a, b, Last(s0), Last(s1), Last(s2));
  }

  /** Nothing happened. */
  lemma FineNothing(s: Srv)
    ensures Fine([], s, s)
  {}

  /** One event and its reading. */
  lemma FineOne(e: Ev, s: Srv, s1: Srv)
    requires s1.tx.title == s.tx.title && s1.ciphering == s.ciphering && s1.tx.ic == After(s.tx.ic, e)
    requires e.SentCiphered? ==> e.iv == IvOf(s.tx.title, e.ic) && e.ic == s.tx.ic < 0xFFFF_FFFF
    requires if e.Accepted? then Last(s) < e.ic == Last(s1) else Last(s1) == Last(s)
    ensures Fine([e], s, s1)
  {
    hide IvOf, After, Last;
    var es, lo, hi := [e], Last(s), Last(s1);
    assert es[0] == e && es[1..] == [];
    assert SentIn([], s1.tx.ic, s1.tx.ic);
    assert SentIn(es, s.tx.ic, s1.tx.ic);
    assert GotIn(es, lo, hi) == if e.Accepted? then lo < e.ic && GotIn([], e.ic, hi) else GotIn([], lo, hi);
  }

  lemma SendFine(h: Hal, s: Srv, apdu: seq<byte>)
    ensures Fine(Send(h, s, apdu).1, s, Send(h, s, apdu).0)
  {
    hide Protected, IvOf, Applies, CipherTag, Fine;
    FineNothing(s);
    var (s1, es) := Send(h, s, apdu);
    if es != [] { FineOne(es[0], s, s1); }
  }

  lemma AnswerFine(h: Hal, s: Srv, reply: Option<seq<byte>>, push: Option<seq<byte>>)
    ensures Fine(Answer(h, s, reply, push).1, s, Answer(h, s, reply, push).0)
  {
    hide Send, Fine;
    FineNothing(s);
    if reply.Some? {
      var (s1, e1) := Send(h, s, reply.value);
      SendFine(h, s, reply.value);
      if push.Some? {
        SendFine(h, s1, push.value);
        FineJoin(e1, Send(h, s1, push.value).1, s, s1, Send(h, s1, push.value).0);
      }
    }
  }

  /** Behind the gate an accepted frame leaves the outbound counter alone; in front of it the counter follows. */
  lemma DecipherFine(h: Hal, s: Srv, apdu: seq<byte>, outer: bool)
    ensures var (d, s1, got) := Decipher(h, s, apdu, outer); Fine(got, s, if d.Opened? && outer then Align(s1) else s1)
  {
    hide Unprotected, IsCiphered, Fine;
    var (d, s1, got) := Decipher(h, s, apdu, outer);
    if got == [] {
      FineNothing(s);
    } else {
      UnprotectState(h, s.rx, apdu);
      FineOne(got[0], s, if outer then Align(s1) else s1);
    }
  }

  /** Session fields outside the counters do not matter. */
  lemma FineSame(es: seq<Ev>, a: Srv, a': Srv, b: Srv, b': Srv)
    requires Fine(es, a, b) && a'.tx == a.tx && a'.rx == a.rx && a'.ciphering == a.ciphering
    requires b'.tx == b.tx && b'.rx == b.rx && b'.ciphering == b.ciphering
    ensures Fine(es, a', b')
  {
    hide SentIn, GotIn, IvOf;
  }

  lemma Pass3Fine(k: Hls.Crypto, s: Srv, msg: seq<byte>, reply: seq<byte>)
    ensures Fine(HandlePass3(k, s, msg, reply).1, s, HandlePass3(k, s, msg, reply).0)
  {
    hide Send, Hls.Verify3, Hls.Build4, Fine;
    if msg == [] {
      FineNothing(s);
    } else {
      var (code, sec) := Hls.Verify3(k, s.security, msg);
      var (answer, sec') := Hls.Build4(k, sec);
      var s1 := if code != 0 then s.(security := sec)
          else s.(security := sec', associated := true, hlsPending := false);
      var (s2, es) := if code == 0 && answer.None? then (s1, []) else Send(k.hal, s1, reply);
      if code == 0 && answer.None? { FineNothing(s1); } else { SendFine(k.hal, s1, reply); }
      FineSame(es, s1, s, s2, s2);
    }
  }

  ghost predicate NoCipherEvents(es: seq<Ev>) { forall i :: 0 <= i < |es| ==> es[i].Accessed? }

  lemma {:induction false} FineSilent(es: seq<Ev>, s: Srv)
    requires NoCipherEvents(es)
    ensures Fine(es, s, s)
    decreases |es|
  {
    hide IvOf;
    if es != [] { FineSilent(es[1..], s); }
  }

  lemma {:induction false} AccessesSilent(targets: seq<Acl.Target>, objects: seq<Acl.Obj>, bound: Acl.Option<Acl.Assoc>)
    ensures NoCipherEvents(Accesses(targets, objects, bound))
  {
    hide Acl.Permitted, Acl.Implemented;
    if targets != [] { AccessesSilent(targets[1..], objects, bound); }
  }

  lemma ServeFine(k: Hls.Crypto, s: Srv, apdu: seq<byte>, env: Env)
    ensures Fine(Serve(k, s, apdu, env).1, s, Serve(k, s, apdu, env).0)
  {
    hide Send, Answer, HandlePass3, Accesses, Fine;
    SendFine(k.hal, s, EXCEPTION);
    if apdu != [] {
      match env.request(apdu)
      case Undecodable(reply) => AnswerFine(k.hal, s, reply, None);
      case Pass3(msg) => FineNothing(s); Pass3Fine(k, s, msg, env.pass3Reply);
      case Service(targets, reply, push) =>
        AnswerFine(k.hal, s, reply, push);
        AccessesSilent(targets, s.objects, s.bound);
        FineSilent(Accesses(targets, s.objects, s.bound), s);
        var (s1, sent) := Answer(k.hal, s, reply, push);
        FineJoin(Accesses(targets, s.objects, s.bound), sent, s, s, s1);
    }
  }

  lemma GatedFine(k: Hls.Crypto, s: Srv, apdu: seq<byte>, ciphered: bool, env: Env)
    ensures Fine(Gated(k, s, apdu, ciphered, env).1, s, Gated(k, s, apdu, ciphered, env).0)
  {
    hide Serve, Send, Decipher, Applies, Fine, Whole;
    FineNothing(s);
    if Whole(s, apdu, env).Some? {
      var whole := Whole(s, apdu, env).value;
      var (d, s1, got) := Decipher(k.hal, s, whole, false);
      DecipherFine(k.hal, s, whole, false);
      RefusedKeeps(k.hal, s, whole, false);
      SendFine(k.hal, s1, EXCEPTION);
      var text := if d.Opened? then d.text else whole;
      ServeFine(k, s1, text, env);
      FineJoin(got, Serve(k, s1, text, env).1, s, s1, Serve(k, s1, text, env).0);
    }
  }

  lemma RefusedKeeps(h: Hal, s: Srv, apdu: seq<byte>, outer: bool)
    ensures var (d, s1, got) := Decipher(h, s, apdu, outer); !d.Opened? ==> s1 == s && got == []
  {
    hide Unprotected, IsCiphered;
  }

  /** Exactly when the outbound counter does not go back; at the end of the peer's range it falls to 0. */
  lemma AlignForwardIff(s: Srv)
    ensures Align(s).tx.ic >= s.tx.ic <==> s.rx.lastPeerIc < 0xFFFF_FFFF || s.tx.ic == 0
    ensures s.rx.lastPeerIc == 0xFFFF_FFFF ==> Align(s).tx.ic == 0
  {}

  /** A message that neither starts nor ends an association. */
  ghost predicate Within(i: Input) {
    match i
    case Received(apdu, env) =>
      && (apdu != [] && (apdu[0] == AARQ || apdu[0] == AARE) ==> env.aarq(apdu).None?)
      && (apdu != [] && apdu[0] == RLRQ ==> !env.rlrq(apdu))
    case OtherError | Notify(_) => true
    case _ => false
  }

  lemma UngatedFine(k: Hls.Crypto, s: Srv, apdu: seq<byte>, env: Env)
    ensures Fine(Ungated(k, s, apdu, env).1, s, Ungated(k, s, apdu, env).0)
  {
    hide Send, HandlePass3, Fine;
    SendFine(k.hal, s, EXCEPTION);
    if apdu != [] && env.request(apdu).Pass3? { Pass3Fine(k, s, env.request(apdu).msg, env.pass3Reply); }
  }

  lemma RestFine(k: Hls.Crypto, s: Srv, text: seq<byte>, arrived: bool, env: Env)
    ensures var (s1, e) := if s.associated then Gated(k, s, text, arrived, env) else Ungated(k, s, text, env);
            Fine(e, s, s1)
  {
    hide Gated, Ungated, Fine;
    if s.associated { GatedFine(k, s, text, arrived, env); } else { UngatedFine(k, s, text, env); }
  }

  lemma ServiceFine(k: Hls.Crypto, s: Srv, apdu: seq<byte>, env: Env)
    requires apdu != [] && apdu[0] != AARQ && apdu[0] != AARE && apdu[0] != RLRQ
    ensures Fine(Accept(k, s, apdu, env).1, s, Accept(k, s, apdu, env).0)
  {
    hide Decipher, Send, Gated, Ungated, Fine, Align;
    var (d, s1, got) := Decipher(k.hal, s, apdu, true);
    DecipherFine(k.hal, s, apdu, true);
    RefusedKeeps(k.hal, s, apdu, true);
    SendFine(k.hal, s1, EXCEPTION);
    var (text, s2) := if d.Opened? then (d.text, Align(s1)) else (apdu, s1);
    SendFine(k.hal, s2, EXCEPTION);
    RestFine(k, s2, text, d.Opened?, env);
    var (s3, e) := if s2.associated then Gated(k, s2, text, d.Opened?, env) else Ungated(k, s2, text, env);
    if d.Opened? {
      var (s4, e4) := if text == [] then Send(k.hal, s2, EXCEPTION) else (s3, e);
      assert Accept(k, s, apdu, env) == (s4, got + e4);
      FineJoin(got, e4, s, s2, s4);
    } else {
      assert got + e == e;
    }
  }

  /** Within an association the trace of every step explains both counters. */
  lemma StepFine(k: Hls.Crypto, s: Srv, i: Input)
    requires Within(i)
    ensures Fine(Step(k, s, i).1, s, Step(k, s, i).0)
  {
    hide Decipher, Send, Gated, Ungated, Fine, HandleAarq;
    FineNothing(s);
    if i.Notify? { SendFine(k.hal, s, i.apdu); }
    if i.Received? && i.apdu != [] && i.apdu[0] != AARQ && i.apdu[0] != AARE && i.apdu[0] != RLRQ {
      ServiceFine(k, s, i.apdu, i.env);
    }
  }

  /** Over every run within one association. */
  lemma {:induction false} RunFine(k: Hls.Crypto, s: Srv, inputs: seq<Input>)
    requires forall j :: 0 <= j < |inputs| ==> Within(inputs[j])
    ensures Fine(Run(k, s, inputs).1, s, Run(k, s, inputs).0)
    decreases |inputs|
  {
    hide Step, Fine, Within;
    if inputs == [] {
      FineNothing(s);
    } else {
      var (s1, e1) := Step(k, s, inputs[0]);
      var (s2, e2) := Run(k, s1, inputs[1..]);
      StepFine(k, s, inputs[0]);
      RunFine(k, s1, inputs[1..]);
      FineJoin(e1, e2, s, s1, s2);
    }
  }

  // ── Consequences ───────────────────────────────────────────────────────────

  /** The peer's last counter value accepted in front of the gate: the one event that sets the outbound counter back. */
  predicate IsEnd(e: Ev) { e == Accepted(0xFFFF_FFFF, true) }

  /** Without such an event on the way, counters do not go down. */
  lemma {:induction false} SentAbove(es: seq<Ev>, lo: u32, hi: u32, j: nat)
    requires SentIn(es, lo, hi) && j < |es| && es[j].SentCiphered? && forall n :: 0 <= n < j ==> !IsEnd(es[n])
    ensures lo <= es[j].ic
    decreases |es|
  {
    if j > 0 {
      assert !IsEnd(es[0]);
      SentAbove(es[1..], After(lo, es[0]), hi, j - 1);
    }
  }

  lemma {:induction false} SentOrdered(es: seq<Ev>, lo: u32, hi: u32, i: nat, j: nat)
    requires SentIn(es, lo, hi) && i < j < |es| && es[i].SentCiphered? && es[j].SentCiphered?
    requires forall n :: i < n < j ==> !IsEnd(es[n])
    ensures es[i].ic < es[j].ic
    decreases |es|
  {
    if i > 0 {
      SentOrdered(es[1..], After(lo, es[0]), hi, i - 1, j - 1);
    } else {
      SentAbove(es[1..], After(lo, es[0]), hi, j - 1);
    }
  }

  lemma {:induction false} GotOrdered(es: seq<Ev>, lo: int, hi: int, i: nat, j: nat)
    requires GotIn(es, lo, hi) && i <= j < |es| && es[i].Accepted? && es[j].Accepted?
    ensures lo < es[i].ic && (i < j ==> es[i].ic < es[j].ic)
    decreases |es|
  {
    var next := if es[0].Accepted? then es[0].ic else lo;
    if i > 0 {
      GotOrdered(es[1..], next, hi, i - 1, j - 1);
    } else if j > 0 {
      GotOrdered(es[1..], next, hi, j - 1, j - 1);
    }
  }

  lemma IvInjective(title: Title, a: u32, b: u32)
    requires a != b
    ensures IvOf(title, a) != IvOf(title, b)
  {
    hide BigEndian, FromBigEndian;
    Pow256Values();
    FromBigEndianInverts(a, 4);
    FromBigEndianInverts(b, 4);
    assert IvOf(title, a)[8..] == BigEndian(a, 4) && IvOf(title, b)[8..] == BigEndian(b, 4);
  }

  // ── The end of the peer's range ────────────────────────────────────────────

  ghost predicate Deaf(es: seq<Ev>) { forall i :: 0 <= i < |es| ==> !es[i].Accepted? }

  /** How many ciphered frames were sent. */
  function Sends(es: seq<Ev>): nat {
    if es == [] then 0 else (if es[0].SentCiphered? then 1 else 0) + Sends(es[1..])
  }

  /** After the end nothing is accepted any more and the outbound counter starts at 0. */
  lemma {:induction false} AfterEnd(es: seq<Ev>, lo: u32, hi: u32, a: int, b: int, n: nat)
    requires SentIn(es, lo, hi) && GotIn(es, a, b) && n < |es| && IsEnd(es[n])
    ensures Deaf(es[n + 1..]) && SentIn(es[n + 1..], 0, hi)
    decreases |es|
  {
    if n == 0 {
      forall i | 0 <= i < |es[1..]| ensures !es[1..][i].Accepted? {
        if es[1..][i].Accepted? { GotOrdered(es[1..], 0xFFFF_FFFF, b, i, i); }
      }
    } else {
      assert es[n + 1..] == es[1..][n..];
      AfterEnd(es[1..], After(lo, es[0]), hi, if es[0].Accepted? then es[0].ic else a, b, n - 1);
    }
  }

  /** While nothing is accepted, the frames carry consecutive counters: no other value, and none left out. */
  lemma {:induction false} Consecutive(es: seq<Ev>, lo: u32, hi: u32, j: nat)
    requires SentIn(es, lo, hi) && Deaf(es) && j < |es| && es[j].SentCiphered?
    ensures lo <= es[j].ic < lo + Sends(es)
    decreases |es|
  {
    assert !es[0].Accepted?;
    if j > 0 {
      DeafTail(es);
      Consecutive(es[1..], After(lo, es[0]), hi, j - 1);
    }
  }

  lemma {:induction false} EveryCounter(es: seq<Ev>, lo: u32, hi: u32, x: u32) returns (j: nat)
    requires SentIn(es, lo, hi) && Deaf(es) && lo <= x < lo + Sends(es)
    ensures j < |es| && es[j].SentCiphered? && es[j].ic == x
    decreases |es|
  {
    assert !es[0].Accepted?;
    if es[0].SentCiphered? && x == lo {
      j := 0;
    } else {
      DeafTail(es);
      j := EveryCounter(es[1..], After(lo, es[0]), hi, x);
      j := j + 1;
    }
  }

  lemma DeafTail(es: seq<Ev>)
    requires es != [] && Deaf(es)
    ensures Deaf(es[1..])
  {
    forall i | 0 <= i < |es[1..]| ensures !es[1..][i].Accepted? { assert es[1..][i] == es[i + 1]; }
  }

  lemma {:induction false} SomeSent(es: seq<Ev>, j: nat)
    requires j < |es| && es[j].SentCiphered?
    ensures Sends(es) >= 1
    decreases |es|
  {
    if j > 0 { SomeSent(es[1..], j - 1); }
  }

  // ── Whole runs ─────────────────────────────────────────────────────────────

  /** Accepted counters strictly increase. */
  ghost predicate AcceptedRise(es: seq<Ev>) {
    forall i, j :: 0 <= i < j < |es| && es[i].Accepted? && es[j].Accepted? ==> es[i].ic < es[j].ic
  }

  /** Sent counters strictly increase. */
  ghost predicate SentRise(es: seq<Ev>) {
    forall i, j :: 0 <= i < j < |es| && es[i].SentCiphered? && es[j].SentCiphered? ==> es[i].ic < es[j].ic
  }

  /**
   The end of the peer's range was accepted in front of the gate with a ciphered frame sent before it and after it.
   */
  ghost predicate Straddled(es: seq<Ev>) {
    exists i, n, j :: 0 <= i < n < j < |es| && es[i].SentCiphered? && IsEnd(es[n]) && es[j].SentCiphered?
  }

  /** Two ciphered frames share an initialisation vector. */
  ghost predicate VectorTwice(es: seq<Ev>) {
    exists i, j :: 0 <= i < j < |es| && es[i].SentCiphered? && es[j].SentCiphered? && es[i].iv == es[j].iv
  }

  /** As many frames were sent after the end as it takes to reach a counter used before it. */
  ghost predicate CaughtUp(es: seq<Ev>) {
    exists i, n :: 0 <= i < n < |es| && es[i].SentCiphered? && IsEnd(es[n]) && es[i].ic < Sends(es[n + 1..])
  }

  lemma RiseIff(es: seq<Ev>, lo: u32, hi: u32, a: int, b: int)
    requires SentIn(es, lo, hi) && GotIn(es, a, b)
    ensures SentRise(es) <==> !Straddled(es)
  {
    hide SentIn, GotIn, IsEnd;
    if Straddled(es) {
      var i, n, j :| 0 <= i < n < j < |es| && es[i].SentCiphered? && IsEnd(es[n]) && es[j].SentCiphered?;
      AfterEnd(es, lo, hi, a, b, n);
      assert es[n + 1..][j - n - 1] == es[j];
      SomeSent(es[n + 1..], j - n - 1);
      var m := EveryCounter(es[n + 1..], 0, hi, 0);
      assert es[n + 1 + m].ic == 0 <= es[i].ic;
    } else {
      forall i, j | 0 <= i < j < |es| && es[i].SentCiphered? && es[j].SentCiphered? ensures es[i].ic < es[j].ic {
        SentOrdered(es, lo, hi, i, j);
      }
    }
  }

  lemma VectorsIff(es: seq<Ev>, lo: u32, hi: u32, a: int, b: int, title: Title)
    requires SentIn(es, lo, hi) && GotIn(es, a, b) && IvsOf(es, title)
    ensures VectorTwice(es) <==> CaughtUp(es)
  {
    hide SentIn, GotIn, IsEnd, IvOf, Sends;
    if VectorTwice(es) {
      var i, j :| 0 <= i < j < |es| && es[i].SentCiphered? && es[j].SentCiphered? && es[i].iv == es[j].iv;
      if es[i].ic != es[j].ic { IvInjective(title, es[i].ic, es[j].ic); }
      if forall n :: i < n < j ==> !IsEnd(es[n]) { SentOrdered(es, lo, hi, i, j); }
      var n :| i < n < j && IsEnd(es[n]);
      AfterEnd(es, lo, hi, a, b, n);
      assert es[n + 1..][j - n - 1] == es[j];
      Consecutive(es[n + 1..], 0, hi, j - n - 1);
    }
    if CaughtUp(es) {
      var i, n :| 0 <= i < n < |es| && es[i].SentCiphered? && IsEnd(es[n]) && es[i].ic < Sends(es[n + 1..]);
      AfterEnd(es, lo, hi, a, b, n);
      var m := EveryCounter(es[n + 1..], 0, hi, es[i].ic);
      assert es[n + 1 + m].iv == es[i].iv;
    }
  }

  /**
   In every run within one association, whatever arrives: accepted counters increase; sent counters increase if and
   only if the end of the peer's range was not straddled; and a vector is used twice if and only if the restarted
   counter caught up with an earlier one.
   */
  lemma CountersMove(k: Hls.Crypto, s: Srv, inputs: seq<Input>)
    requires forall n :: 0 <= n < |inputs| ==> Within(inputs[n])
    ensures var es := Run(k, s, inputs).1;
            AcceptedRise(es) && (SentRise(es) <==> !Straddled(es)) && (VectorTwice(es) <==> CaughtUp(es))
  {
    hide Run, Within, IvOf, SentIn, GotIn, Last, Straddled, SentRise, VectorTwice, CaughtUp;
    var (s1, es) := Run(k, s, inputs);
    RunFine(k, s, inputs);
    forall i, j | 0 <= i < j < |es| && es[i].Accepted? && es[j].Accepted? ensures es[i].ic < es[j].ic {
      GotOrdered(es, Last(s), Last(s1), i, j);
    }
    RiseIff(es, s.tx.ic, s1.tx.ic, Last(s), Last(s1));
    VectorsIff(es, s.tx.ic, s1.tx.ic, Last(s), Last(s1), s.tx.title);
  }

  // ── From one association to the next ───────────────────────────────────────

  /**
   An accepted request with ciphering: while ciphering was on the outbound counter and title go on; after a release or
   a disconnection they start again from the configured ones. The replay state is cleared in both cases.
   */
  lemma NextAssociation(s: Srv, a: Aarq)
    requires a.context == 3 || a.context == 4
    ensures var s1 := ApplyCiphering(s, a, true);
            && (s1.tx.ic >= s.tx.ic <==> s.ciphering || s.security.ic >= s.tx.ic)
            && (s.ciphering ==> s1.tx.ic == s.tx.ic && s1.tx.title == s.tx.title)
            && (!s.ciphering ==> s1.tx.ic == s.security.ic && s1.tx.title == s.security.title)
            && !s1.tx.icValid && !s1.rx.icValid
  {}

  /** Two contexts open frames alike. */
  predicate SameKeys(c: Ctx, c': Ctx) {
    && c.suite == c'.suite && AesKey(c) == AesKey(c') && GostKey(c) == GostKey(c') && c.gak[..16] == c'.gak[..16]
    && RxTitle(c) == RxTitle(c')
  }

  /**
   A frame accepted before is accepted again under the same keys and titles exactly when its counter is fresh there.
   */
  lemma AcceptedAgainIff(h: Hal, c: Ctx, c': Ctx, frame: seq<byte>)
    requires Unprotected(h, c, frame).0.Plain? && SameKeys(c, c')
    ensures Unprotected(h, c', frame).0 == Unprotected(h, c, frame).0 <==>
              !c'.icValid || c'.lastPeerIc < Unprotected(h, c, frame).1.lastPeerIc
  {
    hide Fields, AesKey, GostKey, RxTitle, IvOf, GostTag;
  }
}
