/**
 The four-pass handshake (src/security/security.c:120-733): what each side builds and verifies in passes 3 and 4
 for every mechanism, and the lock-out after five failures.
 */
module Hls {
  import opened Octets
  import opened Lengths
  import opened Kuznyechik
  import opened KuznyechikModes
  import opened Protect

  const MAX_FAILURES: nat := 5
  const CHALLENGE_MAX: nat := 64
  const CMAC_SIZE: nat := 16

  /** Authentication mechanisms 2 to 10; 0 and 1 need no handshake. */
  datatype Mech = Lowest | Lls | High | Md5 | Sha1 | Gmac | Sha256 | Ecdsa | GostCmac | GostStreebog | GostSig

  type Challenge = s: seq<byte> | |s| <= CHALLENGE_MAX

  /** The part of osp_sec_context_t the handshake reads and writes. */
  datatype Side = Side(mech: Mech, suite: Suite, title: Title, peerTitle: Title, ic: u32, lastPeerIc: u32,
                       icValid: bool,
                       guek: Key32, gak: Key32, kEm: Key64, signKey: seq<byte>, peerKey: seq<byte>, secret: Challenge,
                       ctos: Challenge, stoc: Challenge, failures: byte)

  /** Digests, signatures, the password cipher of mechanism 2, and the ciphers of Protect. */
  datatype Crypto = Crypto(hal: Hal, md5: seq<byte> -> seq<byte>, sha1: seq<byte> -> seq<byte>,
                           sha256: seq<byte> -> seq<byte>,
                           streebog: seq<byte> -> seq<byte>, high: (seq<byte>, seq<byte>) -> Option<seq<byte>>,
                           sign: (Mech, Suite, seq<byte>, seq<byte>) -> Option<seq<byte>>,
                           check: (Mech, Suite, seq<byte>, seq<byte>, seq<byte>) -> bool)

  /** Widths of digests and MACs, and non-empty results elsewhere. */
  ghost predicate Sized(k: Crypto) {
    && (forall m :: |k.md5(m)| == 16)
    && (forall m :: |k.sha1(m)| == 20)
    && (forall m :: |k.sha256(m)| == 32)
    && (forall m :: |k.streebog(m)| == 32)
    && (forall d, s :: HighSized(k, d, s))
    && (forall key, iv, aad :: TagSized(k, key, iv, aad))
  }

  ghost predicate HighSized(k: Crypto, d: seq<byte>, s: seq<byte>) { k.high(d, s).Some? ==> k.high(d, s).value != [] }

  ghost predicate TagSized(k: Crypto, key: seq<byte>, iv: Iv, aad: seq<byte>) {
    k.hal.seal(key, iv, aad, []).Some? ==> |k.hal.seal(key, iv, aad, []).value.1| == TAG_SIZE
  }

  /** A signature under one key is accepted under its partner. */
  ghost predicate Signs(k: Crypto, mech: Mech, suite: Suite, sk: seq<byte>, pk: seq<byte>) {
    forall m :: SignsOne(k, mech, suite, sk, pk, m)
  }

  ghost predicate SignsOne(k: Crypto, mech: Mech, suite: Suite, sk: seq<byte>, pk: seq<byte>, m: seq<byte>) {
    match k.sign(mech, suite, sk, m)
    case None => true
    case Some(sig) => sig != [] && (mech == GostSig ==> |sig| == 64) && k.check(mech, suite, pk, m, sig)
  }

  const AUTH_ONLY := Policy(true, false)

  predicate IsSignature(m: Mech) { m == Ecdsa || m == GostSig }
  predicate IsCounted(m: Mech) { m == Gmac || m == GostCmac }

  // ── What is computed ───────────────────────────────────────────────────────

  /** osp_hls_gmac over a challenge. */
  function GmacTag(k: Crypto, s: Side, title: Title, ic: u32, data: Challenge): Option<seq<byte>> {
    match k.hal.seal(s.guek[..16], IvOf(title, ic), [Control(AUTH_ONLY, s.suite)] + s.gak[..16] + data, [])
    case None => None
    case Some((_, tag)) => Some(tag)
  }

  /** osp_hls_gost_cmac over both challenges. */
  function GostMacOf(k: Crypto, s: Side, title: Title, sc: byte, ic: u32, a: Challenge, b: Challenge): Block {
    Cmac(k.hal.kuz(s.kEm[32..]), IvOf(title, ic) + [sc] + a + b)
  }

  /** The digest of mechanisms 3, 4, 6 and 9; titles and challenges in the order of the sender. */
  function DigestOf(k: Crypto, s: Side, st: Title, st': Title, a: Challenge, b: Challenge): Option<seq<byte>> {
    match s.mech
    case Md5 => Some(k.md5(a + s.gak[..16]))
    case Sha1 => Some(k.sha1(a + s.gak[..16]))
    case Sha256 => Some(k.sha256(s.gak[..16] + st + st' + a + b))
    case GostStreebog => Some(k.streebog(s.gak[..16] + st + st' + a + b))
    case _ => None
  }

  function SigMessage(st: Title, st': Title, a: Challenge, b: Challenge): seq<byte> { st + st' + a + b }

  /** hls_pass3_sig_build and hls_pass4_sig_build. */
  function SigOf(k: Crypto, s: Side, a: Challenge, b: Challenge): Option<seq<byte>> {
    var m := SigMessage(s.title, s.peerTitle, a, b);
    if s.mech == Ecdsa && (s.suite == Suite0 || s.signKey == []) then None
    else if s.mech == GostSig && |s.signKey| != 32 then None
    else k.sign(s.mech, s.suite, s.signKey, m)
  }

  function SigAccepted(k: Crypto, s: Side, a: Challenge, b: Challenge, msg: seq<byte>): bool {
    var m := SigMessage(s.peerTitle, s.title, a, b);
    if s.mech == Ecdsa then s.peerKey != [] && k.check(s.mech, s.suite, s.peerKey, m, msg)
    else |msg| == 64 && |s.peerKey| == 64 && k.check(s.mech, s.suite, s.peerKey, m, msg)
  }

  function HighOf(k: Crypto, s: Side, a: Challenge): Option<seq<byte>> {
    if s.secret == [] then None else k.high(a, s.secret)
  }

  function Stamp(sc: byte, ic: u32, mac: seq<byte>): seq<byte> { [sc] + BigEndian(ic, 4) + mac }

  /** The answer to challenge a, the other challenge being b, with counter ic. */
  function Answer(k: Crypto, s: Side, ic: u32, a: Challenge, b: Challenge): Option<seq<byte>> {
    var sc := Control(AUTH_ONLY, s.suite);
    if s.mech == High then HighOf(k, s, a)
    else if s.mech == Gmac then
      match GmacTag(k, s, s.title, ic, a)
      case None => None
      case Some(tag) => Some(Stamp(sc, ic, tag))
    else if s.mech == GostCmac then Some(Stamp(sc, ic, GostMacOf(k, s, s.title, sc, ic, a, b)))
    else if IsSignature(s.mech) then SigOf(k, s, a, b)
    else DigestOf(k, s, s.title, s.peerTitle, a, b)
  }

  /** osp_hls_pass3_build: the client answers StoC and keeps its counter. */
  function Build3(k: Crypto, s: Side): Option<seq<byte>> { Answer(k, s, s.ic, s.stoc, s.ctos) }

  /** osp_hls_pass4_build: the server answers CtoS; with a counter it refuses to wrap and moves on. */
  function Build4(k: Crypto, s: Side): (Option<seq<byte>>, Side) {
    if IsCounted(s.mech) then
      if s.ic == 0xFFFF_FFFF then (None, s) else (Answer(k, s, s.ic, s.ctos, s.stoc), s.(ic := s.ic + 1))
    else (Answer(k, s, s.ic, s.ctos, s.stoc), s)
  }

  // ── What is verified ───────────────────────────────────────────────────────

  function IcIn(msg: seq<byte>): (n: u32)
    requires |msg| >= 5
  {
    FromBigEndianBound(msg[1..5]);
    Pow256Values();
    FromBigEndian(msg[1..5])
  }

  /** hls_gmac_iv_title for the peer. */
  function GmacTitle(s: Side): Title { if s.peerTitle == NoTitle() then s.title else s.peerTitle }

  function NoTitle(): Title { seq(8, _ => 0) }

  /** The MAC a received stamp must carry, if it can be computed. */
  function ExpectedMac(k: Crypto, s: Side, msg: seq<byte>, a: Challenge, b: Challenge): Option<seq<byte>>
    requires |msg| >= 5
  {
    if s.mech == Gmac then GmacTag(k, s, GmacTitle(s), IcIn(msg), a)
    else Some(GostMacOf(k, s, s.peerTitle, msg[0], IcIn(msg), a, b))
  }

  function MacSize(m: Mech): nat { if m == Gmac then TAG_SIZE else CMAC_SIZE }

  /** The first octets after the counter; longer messages are tolerated. */
  function MacIn(m: Mech, msg: seq<byte>): seq<byte>
    requires |msg| >= 5 + MacSize(m)
  {
    msg[5..5 + MacSize(m)]
  }

  /** Pass 3 with a counter: code, and the context afterwards. */
  function VerifyCounted(k: Crypto, s: Side, msg: seq<byte>): (int, Side) {
    if |msg| < 5 + MacSize(s.mech) then (-1, s)
    else if s.failures >= MAX_FAILURES then (-2, s)
    else
      var failed := s.(failures := s.failures + 1);
      if s.icValid && IcIn(msg) <= s.lastPeerIc then (-3, failed)
      else
        match ExpectedMac(k, s, msg, s.stoc, s.ctos)
        case None => (-4, failed)
        case Some(mac) =>
          if MacIn(s.mech, msg) != mac then (-5, failed)
          else (0, s.(lastPeerIc := IcIn(msg), icValid := true, failures := 0))
  }

  /** The answer of a mechanism without counter, as the verifier expects it. */
  function Expected(k: Crypto, s: Side, a: Challenge, b: Challenge): Option<seq<byte>> {
    if s.mech == High then HighOf(k, s, a) else DigestOf(k, s, s.peerTitle, s.title, a, b)
  }

  /** osp_hls_pass3_verify. */
  function Verify3(k: Crypto, s: Side, msg: seq<byte>): (int, Side) {
    if msg == [] then (-1, s)
    else if IsCounted(s.mech) then VerifyCounted(k, s, msg)
    else if IsSignature(s.mech) then (if SigAccepted(k, s, s.stoc, s.ctos, msg) then 0 else -1, s)
    else
      match Expected(k, s, s.stoc, s.ctos)
      case None => (-1, s)
      case Some(e) => (if msg == e then 0 else -5, s)
  }

  /** Whether pass 4 is right, apart from the failure count; its counter is not checked for freshness. */
  function Right4(k: Crypto, s: Side, msg: seq<byte>): bool {
    if IsCounted(s.mech) then
      |msg| >= 5 + MacSize(s.mech) && ExpectedMac(k, s, msg, s.ctos, s.stoc) == Some(MacIn(s.mech, msg))
    else if IsSignature(s.mech) then SigAccepted(k, s, s.ctos, s.stoc, msg)
    else Expected(k, s, s.ctos, s.stoc) == Some(msg)
  }

  /** osp_hls_pass4_verify. */
  function Verify4(k: Crypto, s: Side, msg: seq<byte>): (int, Side) {
    if msg == [] then (-1, s)
    else if s.failures >= MAX_FAILURES then (-2, s)
    else if Right4(k, s, msg) then (0, s.(failures := 0))
    else (-1, s.(failures := s.failures + 1))
  }

  // ── Agreement ──────────────────────────────────────────────────────────────

  /** `from` answers, `to` verifies: same mechanism, suite, keys and challenges, titles swapped. */
  ghost predicate Paired(k: Crypto, from: Side, to: Side) {
    Configured(k, from, to) && (from.mech == Gmac ==> Titled(from, to))
  }

  /** An all-zero title stands for no title, and the verifier then takes its own. */
  predicate Titled(from: Side, to: Side) { from.title != NoTitle() || to.title == NoTitle() }

  ghost predicate Configured(k: Crypto, from: Side, to: Side) {
    && from.mech == to.mech && from.suite == to.suite
    && from.title == to.peerTitle && from.peerTitle == to.title
    && from.guek[..16] == to.guek[..16] && from.gak[..16] == to.gak[..16] && from.kEm == to.kEm
    && from.secret == to.secret
    && from.ctos == to.ctos && from.stoc == to.stoc
    && (from.mech == Ecdsa ==> to.peerKey != []) && (from.mech == GostSig ==> |to.peerKey| == 64)
    && (IsSignature(from.mech) ==> Signs(k, from.mech, from.suite, from.signKey, to.peerKey))
  }

  /** The verifier takes the vector of the sender if and only if the sender has a title, or neither has. */
  lemma TitledIff(k: Crypto, from: Side, to: Side, ic: u32)
    requires Configured(k, from, to)
    ensures IvOf(GmacTitle(to), ic) == IvOf(from.title, ic) <==> Titled(from, to)
  {
    hide BigEndian;
    assert IvOf(GmacTitle(to), ic)[..8] == GmacTitle(to) && IvOf(from.title, ic)[..8] == from.title;
  }

  lemma StampFields(sc: byte, ic: u32, mac: seq<byte>)
    ensures var m := Stamp(sc, ic, mac);
            |m| == 5 + |mac| && m[0] == sc && IcIn(m) == ic && m[5..5 + |mac|] == mac
  {
    hide BigEndian, FromBigEndian;
    var m := Stamp(sc, ic, mac);
    Pow256Values();
    FromBigEndianInverts(ic, 4);
    assert m[1..5] == BigEndian(ic, 4);
  }

  /** A counted answer carries the MAC the verifier expects. */
  lemma CountedAgrees(k: Crypto, from: Side, to: Side, ic: u32, a: Challenge, b: Challenge)
    requires Sized(k) && Paired(k, from, to) && IsCounted(from.mech) && Answer(k, from, ic, a, b).Some?
    ensures var m := Answer(k, from, ic, a, b).value;
            |m| == 5 + MacSize(to.mech) && IcIn(m) == ic && ExpectedMac(k, to, m, a, b) == Some(MacIn(to.mech, m))
  {
    hide Cmac, Stamp, IcIn, Control;
    var sc := Control(AUTH_ONLY, from.suite);
    if from.mech == Gmac {
      var tag := GmacTag(k, from, from.title, ic, a).value;
      assert TagSized(k, from.guek[..16], IvOf(from.title, ic), [sc] + from.gak[..16] + a);
      StampFields(sc, ic, tag);
    } else {
      var mac := GostMacOf(k, from, from.title, sc, ic, a, b);
      StampFields(sc, ic, mac);
    }
  }

  /** Answers without counter are what the verifier expects. */
  lemma PlainAgrees(k: Crypto, from: Side, to: Side, a: Challenge, b: Challenge)
    requires Sized(k) && Paired(k, from, to) && !IsCounted(from.mech) && Answer(k, from, from.ic, a, b).Some?
    ensures var m := Answer(k, from, from.ic, a, b).value;
            m != [] && if IsSignature(to.mech) then SigAccepted(k, to, a, b, m) else Expected(k, to, a, b) == Some(m)
  {
    if IsSignature(from.mech) {
      assert SignsOne(k, from.mech, from.suite, from.signKey, to.peerKey, SigMessage(from.title, from.peerTitle, a, b));
    } else if from.mech == High {
      assert HighSized(k, a, from.secret);
    }
  }

  /** Pass 3: what the client builds, the server accepts; a counter must be fresh and the side not locked. */
  lemma Pass3Agrees(k: Crypto, client: Side, server: Side)
    requires Sized(k) && Paired(k, client, server) && Build3(k, client).Some?
    requires IsCounted(client.mech) ==> server.failures < MAX_FAILURES
    requires IsCounted(client.mech) && server.icValid ==> client.ic > server.lastPeerIc
    ensures Verify3(k, server, Build3(k, client).value).0 == 0
  {
    hide Answer, ExpectedMac, Sized, IcIn, Expected, SigAccepted;
    if IsCounted(client.mech) {
      CountedAgrees(k, client, server, client.ic, client.stoc, client.ctos);
    } else {
      PlainAgrees(k, client, server, client.stoc, client.ctos);
    }
  }

  /**
   A client without a title and a server with one: the server accepts if and only if the cipher happens to give the
   same tag under both vectors.
   */
  lemma UntitledPass3Iff(k: Crypto, client: Side, server: Side)
    requires Sized(k) && Configured(k, client, server) && client.mech == Gmac && !Titled(client, server)
    requires Build3(k, client).Some? && server.failures < MAX_FAILURES
    requires server.icValid ==> client.ic > server.lastPeerIc
    ensures IvOf(server.title, client.ic) != IvOf(client.title, client.ic)
    ensures Verify3(k, server, Build3(k, client).value).0 == 0 <==>
              GmacTag(k, server, server.title, client.ic, client.stoc) ==
              GmacTag(k, client, client.title, client.ic, client.stoc)
  {
    TitledIff(k, client, server, client.ic);
    hide Stamp, IcIn, Control, IvOf;
    var sc := Control(AUTH_ONLY, client.suite);
    var tag := GmacTag(k, client, client.title, client.ic, client.stoc).value;
    assert TagSized(k, client.guek[..16], IvOf(client.title, client.ic), [sc] + client.gak[..16] + client.stoc);
    StampFields(sc, client.ic, tag);
  }

  /** Pass 4: what the server builds, the client accepts unless it is locked. */
  lemma Pass4Agrees(k: Crypto, server: Side, client: Side)
    requires Sized(k) && Paired(k, server, client) && Build4(k, server).0.Some? && client.failures < MAX_FAILURES
    ensures Verify4(k, client, Build4(k, server).0.value).0 == 0
  {
    hide Answer, ExpectedMac, Sized, IcIn, Expected, SigAccepted;
    if IsCounted(server.mech) {
      CountedAgrees(k, server, client, server.ic, server.ctos, server.stoc);
    } else {
      PlainAgrees(k, server, client, server.ctos, server.stoc);
    }
  }

  /** A counter answered with once is stale for the same verifier afterwards. */
  lemma Pass3NotTwice(k: Crypto, server: Side, msg: seq<byte>)
    requires IsCounted(server.mech) && Verify3(k, server, msg).0 == 0
    ensures Verify3(k, Verify3(k, server, msg).1, msg).0 == -3
  {
    hide ExpectedMac, IcIn;
  }

  // ── Lock-out ───────────────────────────────────────────────────────────────

  /** What can happen to a context between two initialisations; the caller may replace everything but the count. */
  datatype Op = Pass3(msg: seq<byte>) | Pass4(msg: seq<byte>) | Reply | Reset(config: Side)

  function Step(k: Crypto, s: Side, op: Op): (int, Side) {
    match op
    case Pass3(msg) => Verify3(k, s, msg)
    case Pass4(msg) => Verify4(k, s, msg)
    case Reply => (1, Build4(k, s).1)
    case Reset(config) => (1, config.(failures := s.failures))
  }

  function Run(k: Crypto, s: Side, ops: seq<Op>): Side
    decreases |ops|
  {
    if ops == [] then s else Run(k, Step(k, s, ops[0]).1, ops[1..])
  }

  lemma StepCount(k: Crypto, s: Side, op: Op)
    requires s.failures <= MAX_FAILURES
    ensures Step(k, s, op).1.failures <= MAX_FAILURES
    ensures s.failures == MAX_FAILURES ==> Step(k, s, op).1.failures == MAX_FAILURES
  {
    hide ExpectedMac, Right4, IcIn, Expected, SigAccepted, Answer;
  }

  /** The count never exceeds five, and five stays five, in every run. */
  lemma {:induction false} RunCount(k: Crypto, s: Side, ops: seq<Op>)
    requires s.failures <= MAX_FAILURES
    ensures Run(k, s, ops).failures <= MAX_FAILURES
    ensures s.failures == MAX_FAILURES ==> Run(k, s, ops).failures == MAX_FAILURES
    decreases |ops|
  {
    hide Step;
    if ops != [] {
      StepCount(k, s, ops[0]);
      RunCount(k, Step(k, s, ops[0]).1, ops[1..]);
    }
  }

  /** Once locked, no later counted pass 3 and no later pass 4 is accepted, whatever happened in between. */
  lemma LockedForGood(k: Crypto, s: Side, ops: seq<Op>, msg: seq<byte>)
    requires s.failures == MAX_FAILURES
    ensures var later := Run(k, s, ops);
            Verify4(k, later, msg).0 != 0 && (IsCounted(later.mech) ==> Verify3(k, later, msg).0 != 0)
  {
    hide Run, ExpectedMac, Right4, IcIn;
    RunCount(k, s, ops);
  }

  /** Below five failures, a counted pass 3 that verifies clears the count and one that does not adds one. */
  lemma CountMoves(k: Crypto, s: Side, msg: seq<byte>)
    requires IsCounted(s.mech) && s.failures < MAX_FAILURES && |msg| >= 5 + MacSize(s.mech)
    ensures var (code, after) := Verify3(k, s, msg);
            after.failures == (if code == 0 then 0 else s.failures + 1) &&
                (code != 0 ==> after == s.(failures := after.failures))
  {
    hide ExpectedMac, IcIn;
  }

  // ── The operations ─────────────────────────────────────────────────────────

  function OrBits(a: nat, b: nat, k: nat): nat {
    if k == 0 then 0 else 2 * OrBits(a / 2, b / 2, k - 1) + if a % 2 == 1 || b % 2 == 1 then 1 else 0
  }

  lemma {:induction false} OrNothing(a: nat, b: nat, k: nat)
    requires a < PowTwo(k) && b < PowTwo(k)
    ensures OrBits(a, b, k) < PowTwo(k) && (OrBits(a, b, k) == 0 <==> a == 0 && b == 0)
  {
    if k > 0 { OrNothing(a / 2, b / 2, k - 1); }
  }

  lemma {:induction false} XorNothing(a: nat, b: nat, k: nat)
    requires a < PowTwo(k) && b < PowTwo(k)
    ensures XorBits(a, b, k) == 0 <==> a == b
  {
    if k > 0 { XorNothing(a / 2, b / 2, k - 1); }
  }

  function Or(a: byte, b: byte): (r: byte)
    ensures r == 0 <==> a == 0 && b == 0
  {
    assert PowTwo(8) == 256;
    OrNothing(a, b, 8);
    OrBits(a, b, 8)
  }

  /** The comparison loop that looks at every octet. */
  method Same(a: seq<byte>, b: seq<byte>) returns (same: bool)
    requires |a| == |b|
    ensures same <==> a == b
  {
    hide Or, Xor;
    var diff: byte := 0;
    for i := 0 to |a|
      invariant diff == 0 <==> a[..i] == b[..i]
    {
      Differs(a[i], b[i]);
      diff := Or(diff, Xor(a[i], b[i]));
      assert a[..i + 1] == a[..i] + [a[i]] && b[..i + 1] == b[..i] + [b[i]];
    }
    assert a[..|a|] == a && b[..|b|] == b;
    same := diff == 0;
  }

  lemma Differs(x: byte, y: byte)
    ensures Xor(x, y) == 0 <==> x == y
  {
    assert PowTwo(8) == 256;
    XorNothing(x, y, 8);
  }

  class HlsContext {
    var s: Side

    constructor (s: Side)
      ensures this.s == s
    {
      this.s := s;
    }

    /** The counted branch of osp_hls_pass3_verify. */
    method CountedVerify(k: Crypto, msg: seq<byte>) returns (code: int)
      requires Sized(k) && IsCounted(s.mech)
      modifies this
      ensures (code, s) == VerifyCounted(k, old(s), msg)
    {
      hide IcIn, Cmac, Control, IvOf;
      if |msg| < 5 + MacSize(s.mech) { return -1; }
      if s.failures >= MAX_FAILURES { return -2; }
      var ic := IcIn(msg);
      if s.icValid && ic <= s.lastPeerIc {
        s := s.(failures := s.failures + 1);
        return -3;
      }
      var mac := ExpectedMac(k, s, msg, s.stoc, s.ctos);
      if mac.None? {
        s := s.(failures := s.failures + 1);
        return -4;
      }
      MacWidth(k, s, msg, s.stoc, s.ctos);
      var same := Same(MacIn(s.mech, msg), mac.value);
      if !same {
        s := s.(failures := s.failures + 1);
        return -5;
      }
      s := s.(lastPeerIc := ic, icValid := true, failures := 0);
      return 0;
    }

    /** osp_hls_pass3_verify. */
    method Pass3Verify(k: Crypto, msg: seq<byte>) returns (code: int)
      requires Sized(k)
      modifies this
      ensures (code, s) == Verify3(k, old(s), msg)
    {
      hide VerifyCounted, SigAccepted, Expected, Sized;
      if msg == [] { return -1; }
      if IsCounted(s.mech) {
        code := CountedVerify(k, msg);
      } else if IsSignature(s.mech) {
        code := if SigAccepted(k, s, s.stoc, s.ctos, msg) then 0 else -1;
      } else {
        var e := Expected(k, s, s.stoc, s.ctos);
        if e.None? { return -1; }
        if |msg| != |e.value| { return -5; }
        var same := Same(msg, e.value);
        code := if same then 0 else -5;
      }
    }

    /** osp_hls_pass4_build. */
    method Pass4Build(k: Crypto) returns (r: Option<seq<byte>>)
      modifies this
      ensures (r, s) == Build4(k, old(s))
    {
      hide Answer;
      if !IsCounted(s.mech) { return Answer(k, s, s.ic, s.ctos, s.stoc); }
      if s.ic == 0xFFFF_FFFF { return None; }
      r := Answer(k, s, s.ic, s.ctos, s.stoc);
      s := s.(ic := s.ic + 1);
    }

    /** osp_hls_pass4_verify. */
    method Pass4Verify(k: Crypto, msg: seq<byte>) returns (code: int)
      modifies this
      ensures (code, s) == Verify4(k, old(s), msg)
    {
      hide Right4;
      if msg == [] { return -1; }
      if s.failures >= MAX_FAILURES { return -2; }
      if Right4(k, s, msg) {
        s := s.(failures := 0);
        return 0;
      }
      s := s.(failures := s.failures + 1);
      return -1;
    }
  }

  lemma MacWidth(k: Crypto, s: Side, msg: seq<byte>, a: Challenge, b: Challenge)
    requires Sized(k) && IsCounted(s.mech) && |msg| >= 5 && ExpectedMac(k, s, msg, a, b).Some?
    ensures |ExpectedMac(k, s, msg, a, b).value| == MacSize(s.mech)
  {
    hide Cmac, IcIn;
    if s.mech == Gmac {
      assert TagSized(k, s.guek[..16], IvOf(GmacTitle(s), IcIn(msg)), [Control(AUTH_ONLY, s.suite)] + s.gak[..16] + a);
    }
  }
}
