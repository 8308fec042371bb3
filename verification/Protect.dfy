/**
 APDU protection (src/security/security.c:740-1120, src/security/security.h:85-160): control octet, initialisation
 vectors, keys, protect and unprotect with the replay check, over any GCM and any 128-bit cipher.
 */
module Protect {
  import opened Octets
  import opened Lengths
  import opened Kuznyechik
  import opened KuznyechikModes
  import V = Values

  const MAX_PLAIN: nat := 1024
  const MAX_CIPHERED: nat := 1056
  const TAG_SIZE: nat := 12

  datatype Option<+T> = None | Some(value: T)

  datatype Suite = Suite0 | Suite1 | Suite2 | Suite8 | Suite9

  function SuiteId(s: Suite): (n: nat)
    ensures n < 16
  {
    match s case Suite0 => 0 case Suite1 => 1 case Suite2 => 2 case Suite8 => 8 case Suite9 => 9
  }

  predicate UsesGost(s: Suite) { s == Suite8 || s == Suite9 }

  datatype Policy = Policy(auth: bool, encr: bool)

  /** osp_sec_control_byte, and what a control octet says. */
  function Control(p: Policy, s: Suite): byte {
    SuiteId(s) + (if p.auth then 0x10 else 0) + (if p.encr then 0x20 else 0)
  }

  function PolicyOf(sc: byte): Policy { Policy(sc / 0x10 % 2 == 1, sc / 0x20 % 2 == 1) }

  lemma ControlRoundTrip(p: Policy, s: Suite)
    ensures PolicyOf(Control(p, s)) == p
  {}

  // ── The context ────────────────────────────────────────────────────────────

  type Title = s: seq<byte> | |s| == 8 witness seq(8, _ => 0)
  type Key32 = s: seq<byte> | |s| == 32 witness seq(32, _ => 0)
  type Key64 = s: seq<byte> | |s| == 64 witness seq(64, _ => 0)
  type Dedicated = s: seq<byte> | |s| <= 32

  /** The part of osp_sec_context_t that protection reads and writes. */
  datatype Ctx = Ctx(suite: Suite, policy: Policy, title: Title, peerTitle: Title, ic: u32,
                     lastPeerIc: u32, icValid: bool, guek: Key32, gak: Key32, kEm: Key64, dedicated: Option<Dedicated>)

  /** The hardware layer: GCM with or without a tag to check, and the block cipher under a 256-bit key. */
  datatype Hal = Hal(seal: (seq<byte>, Iv, seq<byte>, seq<byte>) -> Option<(seq<byte>, seq<byte>)>,
                     open: (seq<byte>, Iv, seq<byte>, seq<byte>, Option<seq<byte>>) -> Option<seq<byte>>,
                     kuz: Key32 -> Cipher)

  ghost predicate Opens(h: Hal, key: seq<byte>, iv: Iv, aad: seq<byte>, p: seq<byte>) {
    match h.seal(key, iv, aad, p)
    case None => true
    case Some((c, t)) =>
      && |c| == |p| && |t| == TAG_SIZE
      && h.open(key, iv, aad, c, Some(t)) == Some(p) && h.open(key, iv, aad, c, None) == Some(p)
  }

  /** Decryption inverts encryption. */
  ghost predicate Inverts(h: Hal) { forall key, iv, aad, p :: Opens(h, key, iv, aad, p) }

  /** sec_aes_encryption_key. */
  function AesKey(c: Ctx): seq<byte> {
    if c.dedicated.Some? then c.dedicated.value else if c.suite == Suite2 then c.guek else c.guek[..16]
  }

  /** sec_gost_k_em_for_cipher: a dedicated key replaces the first half, padded with zeros. */
  function GostKey(c: Ctx): Key64 {
    if c.dedicated.None? then c.kEm
    else c.dedicated.value + seq(32 - |c.dedicated.value|, _ => 0) + c.kEm[32..]
  }

  function GostEnc(c: Ctx): Key32 { GostKey(c)[..32] }
  function GostMac(c: Ctx): Key32 { GostKey(c)[32..] }

  function IvOf(title: Title, ic: u32): Iv { title + BigEndian(ic, 4) }

  /** glo_build_iv_rx: the peer's title, or our own if the peer's is all zeros. */
  function RxTitle(c: Ctx): Title { if c.peerTitle == seq(8, _ => 0) then c.title else c.peerTitle }

  // ── Kuznyechik AEAD (kuznyechik.c:217-315) ─────────────────────────────────

  function GostTag(h: Hal, key: Key32, iv: Iv, sc: byte, data: seq<byte>): (t: seq<byte>)
    ensures |t| == TAG_SIZE
  {
    Cmac(h.kuz(key), iv + [sc] + data)[..12]
  }

  /** The protected part, tag included; with neither service an empty text is refused. */
  function GostSeal(h: Hal, c: Ctx, iv: Iv, sc: byte, plain: seq<byte>): Option<seq<byte>> {
    var p := PolicyOf(sc);
    var body := if p.encr then Ctr(h.kuz(GostEnc(c)), iv, plain) else plain;
    if p.auth then Some(body + GostTag(h, GostMac(c), iv, sc, body))
    else if !p.encr && plain == [] then None
    else Some(body)
  }

  // ── Protect ────────────────────────────────────────────────────────────────

  function Aad(c: Ctx, sc: byte, rest: seq<byte>): seq<byte> { [sc] + c.gak[..16] + rest }

  function AesSeal(h: Hal, c: Ctx, iv: Iv, sc: byte, plain: seq<byte>): Option<seq<byte>> {
    var p := PolicyOf(sc);
    if p.auth && p.encr then
      match h.seal(AesKey(c), iv, Aad(c, sc, []), plain)
      case None => None
      case Some((ct, tag)) => Some(ct + tag)
    else if p.auth then
      match h.seal(AesKey(c), iv, Aad(c, sc, plain), [])
      case None => None
      case Some((_, tag)) => Some(plain + tag)
    else if p.encr then
      match h.seal(AesKey(c), iv, [], plain)
      case None => None
      case Some((ct, _)) => Some(ct)
    else Some(plain)
  }

  function Seal(h: Hal, c: Ctx, iv: Iv, sc: byte, plain: seq<byte>): Option<seq<byte>> {
    if UsesGost(c.suite) then GostSeal(h, c, iv, sc, plain) else AesSeal(h, c, iv, sc, plain)
  }

  function Body(sc: byte, ic: u32, part: seq<byte>): seq<byte> { [sc] + BigEndian(ic, 4) + part }

  /** glo_write_ciphered_apdu. */
  function Frame(tag: byte, body: seq<byte>): Option<seq<byte>> {
    if |body| + 8 > MAX_CIPHERED then None else Some([tag] + V.TextBytes(body))
  }

  /** osp_glo_protect. */
  function Protected(h: Hal, c: Ctx, tag: byte, plain: seq<byte>): Option<seq<byte>> {
    if |plain| > MAX_PLAIN then None
    else
      var sc := Control(c.policy, c.suite);
      match Seal(h, c, IvOf(c.title, c.ic), sc, plain)
      case None => None
      case Some(part) => Frame(tag, Body(sc, c.ic, part))
  }

  // ── Unprotect ──────────────────────────────────────────────────────────────

  /** Results of osp_glo_unprotect: 0, -1, -2 and -3. */
  datatype Outcome = Plain(text: seq<byte>) | Malformed | Replay | BadTag

  predicate IsCiphered(tag: byte) {
    tag in {0x21, 0x28, 0xC8, 0xC9, 0xCB, 0xCC, 0xCD, 0xCF, 0xD0, 0xD1, 0xD3, 0xD4, 0xD5, 0xD7}
  }

  function GostOpen(h: Hal, c: Ctx, iv: Iv, sc: byte, part: seq<byte>): Outcome {
    var p := PolicyOf(sc);
    if p.auth && |part| < TAG_SIZE then Malformed
    else
      var n := if p.auth then |part| - TAG_SIZE else |part|;
      if n > MAX_PLAIN then Malformed
      else if p.auth && part[n..] != GostTag(h, GostMac(c), iv, sc, part[..n]) then BadTag
      else Plain(if p.encr then Ctr(h.kuz(GostEnc(c)), iv, part[..n]) else part[..n])
  }

  function AesOpen(h: Hal, c: Ctx, iv: Iv, sc: byte, part: seq<byte>): Outcome {
    var p := PolicyOf(sc);
    if p.auth && |part| < TAG_SIZE then Malformed
    else
      var n := if p.auth then |part| - TAG_SIZE else |part|;
      if n > MAX_PLAIN then Malformed
      else if p.auth && p.encr then
        match h.open(AesKey(c), iv, Aad(c, sc, []), part[..n], Some(part[n..]))
        case None => BadTag
        case Some(text) => Plain(text)
      else if p.auth then
        match h.open(AesKey(c), iv, Aad(c, sc, part[..n]), [], Some(part[n..]))
        case None => BadTag
        case Some(_) => Plain(part[..n])
      else if p.encr then
        match h.open(AesKey(c), iv, [], part, None)
        case None => BadTag
        case Some(text) => Plain(text)
      else Plain(part)
  }

  function Open(h: Hal, c: Ctx, iv: Iv, sc: byte, part: seq<byte>): Outcome {
    if UsesGost(c.suite) then GostOpen(h, c, iv, sc, part) else AesOpen(h, c, iv, sc, part)
  }

  /** Control octet, counter and protected part of a frame. */
  function Fields(s: seq<byte>): (r: Option<(byte, u32, seq<byte>)>) {
    if |s| < 7 || !IsCiphered(s[0]) then None
    else
      match LenAt(s, 1)
      case Fail(_) => None
      case Ok((n, p)) =>
        if n < 5 || |s| - p < n then None
        else
          FromBigEndianBound(s[p + 1..p + 5]);
          Pow256Values();
          Some((s[p], FromBigEndian(s[p + 1..p + 5]), s[p + 5..p + n]))
  }

  /** osp_glo_unprotect: the outcome and the context afterwards. */
  function Unprotected(h: Hal, c: Ctx, s: seq<byte>): (Outcome, Ctx) {
    match Fields(s)
    case None => (Malformed, c)
    case Some((sc, ic, part)) =>
      if c.icValid && ic <= c.lastPeerIc then (Replay, c)
      else
        match Open(h, c, IvOf(RxTitle(c), ic), sc, part)
        case Plain(text) => (Plain(text), c.(lastPeerIc := ic, icValid := true, policy := PolicyOf(sc)))
        case bad => (bad, c)
  }

  // ── Round trip ─────────────────────────────────────────────────────────────

  /** Sender and receiver share suite and keys, and the receiver knows the sender's title. */
  predicate Matching(tx: Ctx, rx: Ctx) {
    && tx.suite == rx.suite && AesKey(tx) == AesKey(rx) && GostKey(tx) == GostKey(rx)
    && tx.gak[..16] == rx.gak[..16] && RxTitle(rx) == tx.title
  }

  lemma GostOpensSealed(h: Hal, tx: Ctx, rx: Ctx, iv: Iv, sc: byte, plain: seq<byte>)
    requires GostKey(tx) == GostKey(rx) && |plain| <= MAX_PLAIN && GostSeal(h, tx, iv, sc, plain).Some?
    ensures GostOpen(h, rx, iv, sc, GostSeal(h, tx, iv, sc, plain).value) == Plain(plain)
    ensures |GostSeal(h, tx, iv, sc, plain).value| <= |plain| + TAG_SIZE
  {
    hide Ctr, GostTag, GostKey;
    var p := PolicyOf(sc);
    var e := h.kuz(GostEnc(tx));
    var body := if p.encr then Ctr(e, iv, plain) else plain;
    CtrTwice(e, iv, plain);
    if p.auth {
      var tag := GostTag(h, GostMac(tx), iv, sc, body);
      assert (body + tag)[..|body|] == body && (body + tag)[|body|..] == tag;
    } else {
      assert body[..|body|] == body;
    }
  }

  lemma AesOpensSealed(h: Hal, tx: Ctx, rx: Ctx, iv: Iv, sc: byte, plain: seq<byte>)
    requires Inverts(h) && AesKey(tx) == AesKey(rx) && tx.gak[..16] == rx.gak[..16]
    requires |plain| <= MAX_PLAIN && AesSeal(h, tx, iv, sc, plain).Some?
    ensures AesOpen(h, rx, iv, sc, AesSeal(h, tx, iv, sc, plain).value) == Plain(plain)
    ensures |AesSeal(h, tx, iv, sc, plain).value| <= |plain| + TAG_SIZE
  {
    hide AesKey;
    var p, part := PolicyOf(sc), AesSeal(h, tx, iv, sc, plain).value;
    if p.auth && p.encr {
      assert Opens(h, AesKey(tx), iv, Aad(tx, sc, []), plain);
      var (ct, tag) := h.seal(AesKey(tx), iv, Aad(tx, sc, []), plain).value;
      assert part[..|ct|] == ct && part[|ct|..] == tag;
    } else if p.auth {
      assert Opens(h, AesKey(tx), iv, Aad(tx, sc, plain), []);
      var (ct, tag) := h.seal(AesKey(tx), iv, Aad(tx, sc, plain), []).value;
      assert part[..|plain|] == plain && part[|plain|..] == tag;
    } else if p.encr {
      assert Opens(h, AesKey(tx), iv, [], plain);
    }
  }

  lemma OpensSealed(h: Hal, tx: Ctx, rx: Ctx, iv: Iv, sc: byte, plain: seq<byte>)
    requires Inverts(h) && Matching(tx, rx) && |plain| <= MAX_PLAIN && Seal(h, tx, iv, sc, plain).Some?
    ensures Open(h, rx, iv, sc, Seal(h, tx, iv, sc, plain).value) == Plain(plain)
    ensures |Seal(h, tx, iv, sc, plain).value| <= |plain| + TAG_SIZE
  {
    hide GostSeal, AesSeal, GostOpen, AesOpen, AesKey, GostKey, Inverts;
    if UsesGost(tx.suite) {
      GostOpensSealed(h, tx, rx, iv, sc, plain);
    } else {
      AesOpensSealed(h, tx, rx, iv, sc, plain);
    }
  }

  /** What a receiver finds in a frame. */
  lemma FrameFields(tag: byte, sc: byte, ic: u32, part: seq<byte>)
    requires IsCiphered(tag) && |part| + 13 <= MAX_CIPHERED && part != []
    ensures Frame(tag, Body(sc, ic, part)).Some?
    ensures Fields(Frame(tag, Body(sc, ic, part)).value) == Some((sc, ic, part))
  {
    hide LenAt, LenBytes, BigEndian, FromBigEndian;
    var body := Body(sc, ic, part);
    var s := [tag] + V.TextBytes(body);
    assert s[1..1 + |V.TextBytes(body)|] == V.TextBytes(body);
    V.LenThen(s, 1, |body|, body);
    var p := 1 + |LenBytes(V.Len32(|body|))|;
    assert s[p..p + |body|] == body;
    BodyFields(s, p, sc, ic, part);
  }

  lemma BodyFields(s: seq<byte>, p: nat, sc: byte, ic: u32, part: seq<byte>)
    requires p + 5 + |part| <= |s| && s[p..p + 5 + |part|] == Body(sc, ic, part)
    ensures s[p] == sc && FromBigEndian(s[p + 1..p + 5]) == ic && s[p + 5..p + 5 + |part|] == part
  {
    hide BigEndian, FromBigEndian;
    var b := s[p..p + 5 + |part|];
    Pow256Values();
    FromBigEndianInverts(ic, 4);
    var q := p + 5 + |part|;
    SliceOfSlice(s, p, q, 1, 5);
    SliceOfSlice(s, p, q, 5, 5 + |part|);
    assert s[p] == b[0] && b[1..5] == BigEndian(ic, 4) && b[5..5 + |part|] == part;
  }

  /** Something is always carried: an empty protected part comes only from an empty text without a tag. */
  lemma SealedNonempty(h: Hal, c: Ctx, iv: Iv, sc: byte, plain: seq<byte>)
    requires Inverts(h) && plain != [] && Seal(h, c, iv, sc, plain).Some?
    ensures Seal(h, c, iv, sc, plain).value != []
  {
    hide Ctr, GostTag, GostKey, AesKey;
    if !UsesGost(c.suite) {
      assert Opens(h, AesKey(c), iv, Aad(c, sc, []), plain);
      assert Opens(h, AesKey(c), iv, [], plain);
    }
  }

  /**
   For every suite, policy, key kind and plaintext of 1..1024 octets: matching contexts recover the plaintext,
   the sender's policy and its counter.
   */
  lemma ProtectRoundTrip(h: Hal, tx: Ctx, rx: Ctx, tag: byte, plain: seq<byte>)
    requires Inverts(h) && Matching(tx, rx) && IsCiphered(tag) && 1 <= |plain| <= MAX_PLAIN
    requires rx.icValid ==> tx.ic > rx.lastPeerIc
    requires Seal(h, tx, IvOf(tx.title, tx.ic), Control(tx.policy, tx.suite), plain).Some?
    ensures Protected(h, tx, tag, plain).Some?
    ensures Unprotected(h, rx, Protected(h, tx, tag, plain).value) ==
            (Plain(plain), rx.(lastPeerIc := tx.ic, icValid := true, policy := tx.policy))
  {
    hide Seal, Open, Matching, Fields, Frame, Inverts, Control, PolicyOf, IvOf, Body, AesKey, GostKey, IsCiphered;
    var sc, iv := Control(tx.policy, tx.suite), IvOf(tx.title, tx.ic);
    var part := Seal(h, tx, iv, sc, plain).value;
    OpensSealed(h, tx, rx, iv, sc, plain);
    SealedNonempty(h, tx, iv, sc, plain);
    FrameFields(tag, sc, tx.ic, part);
    ControlRoundTrip(tx.policy, tx.suite);
    MatchingTitle(tx, rx);
  }

  lemma MatchingTitle(tx: Ctx, rx: Ctx)
    requires Matching(tx, rx)
    ensures RxTitle(rx) == tx.title
  {}

  /** With the Kuznyechik suites, protection of 1..1024 octets never fails. */
  lemma GostSealTotal(h: Hal, c: Ctx, iv: Iv, sc: byte, plain: seq<byte>)
    requires UsesGost(c.suite) && plain != []
    ensures Seal(h, c, iv, sc, plain).Some?
  {}

  // ── Replay state ───────────────────────────────────────────────────────────

  /** A refused frame changes nothing; an accepted one moves the counter forward and only that. */
  lemma UnprotectState(h: Hal, c: Ctx, s: seq<byte>)
    ensures var (out, after) := Unprotected(h, c, s);
            if out.Plain? then
              && after.icValid && (c.icValid ==> after.lastPeerIc > c.lastPeerIc)
              && after == c.(lastPeerIc := after.lastPeerIc, icValid := true, policy := after.policy)
            else after == c
  {
    hide Fields, Open;
  }

  /** The same frame is not accepted twice in a row. */
  lemma NoSecondAcceptance(h: Hal, c: Ctx, s: seq<byte>)
    requires Unprotected(h, c, s).0.Plain?
    ensures Unprotected(h, Unprotected(h, c, s).1, s) == (Replay, Unprotected(h, c, s).1)
  {
    hide Fields, Open;
  }

  // ── What acceptance is worth ───────────────────────────────────────────────

  /** The tag at the end of a protected part is the one the receiver's keys give. */
  ghost predicate TagMatches(h: Hal, c: Ctx, iv: Iv, sc: byte, part: seq<byte>)
    requires |part| >= TAG_SIZE
  {
    var n := |part| - TAG_SIZE;
    if UsesGost(c.suite) then part[n..] == GostTag(h, GostMac(c), iv, sc, part[..n])
    else if PolicyOf(sc).encr then h.open(AesKey(c), iv, Aad(c, sc, []), part[..n], Some(part[n..])).Some?
    else h.open(AesKey(c), iv, Aad(c, sc, part[..n]), [], Some(part[n..])).Some?
  }

  /** What the octets of a part must satisfy: a tag if the control octet asks for one, and almost nothing otherwise. */
  ghost predicate PartAccepted(h: Hal, c: Ctx, iv: Iv, sc: byte, part: seq<byte>) {
    if PolicyOf(sc).auth then TAG_SIZE <= |part| <= TAG_SIZE + MAX_PLAIN && TagMatches(h, c, iv, sc, part)
    else |part| <= MAX_PLAIN && (PolicyOf(sc).encr && !UsesGost(c.suite) ==>
        h.open(AesKey(c), iv, [], part, None).Some?)
  }

  /**
   Exactly the frames that are accepted: a fresh counter, and a matching tag if bit 0x10 of the frame's own control
   octet is set. Without the bit no tag is looked at, whatever policy the context has.
   */
  lemma AcceptedIff(h: Hal, c: Ctx, s: seq<byte>)
    ensures Unprotected(h, c, s).0.Plain? <==>
              && Fields(s).Some?
              && var (sc, ic, part) := Fields(s).value;
                 (c.icValid ==> ic > c.lastPeerIc) && PartAccepted(h, c, IvOf(RxTitle(c), ic), sc, part)
  {
    hide Fields, GostTag, Ctr, AesKey, GostKey, IvOf, RxTitle;
  }

  /** The ciphered frame of a text with neither service. */
  function Bare(ic: u32, text: seq<byte>): (s: seq<byte>)
    requires 1 <= |text| <= MAX_PLAIN
    ensures s != [] && s[0] == 0xC8
  {
    [0xC8] + V.TextBytes(Body(0, ic, text))
  }

  /** It is accepted under any keys, suite and policy of the receiver, as soon as its counter is fresh. */
  lemma BareAccepted(h: Hal, c: Ctx, ic: u32, text: seq<byte>)
    requires 1 <= |text| <= MAX_PLAIN && (c.icValid ==> ic > c.lastPeerIc)
    ensures Unprotected(h, c, Bare(ic, text)) ==
            (Plain(text), c.(lastPeerIc := ic, icValid := true, policy := Policy(false, false)))
  {
    hide Fields, Body, V.TextBytes, IvOf, RxTitle, Ctr, GostTag, AesKey, GostKey;
    FrameFields(0xC8, 0, ic, text);
    BareFrame(ic, text);
    assert PolicyOf(0) == Policy(false, false);
    assert text[..|text|] == text;
  }

  lemma BareFrame(ic: u32, text: seq<byte>)
    requires 1 <= |text| <= MAX_PLAIN
    ensures Frame(0xC8, Body(0, ic, text)) == Some(Bare(ic, text))
  {
    hide V.TextBytes, BigEndian;
  }

  // ── General ciphering (general_ciphering.c:35-101) ─────────────────────────

  const GEN_GLO: byte := 0xDB
  const GEN_DED: byte := 0xDC

  function GloTag(plainTag: byte): byte { if 0xC0 <= plainTag <= 0xC7 then plainTag + 8 else plainTag }

  /** osp_gen_glo_ded_protect: the sender's title travels with the frame. */
  function GenProtected(h: Hal, c: Ctx, dedicated: bool, plainTag: byte, plain: seq<byte>): Option<seq<byte>> {
    match Protected(h, c, GloTag(plainTag), plain)
    case None => None
    case Some(s) => Some([if dedicated then GEN_DED else GEN_GLO] + (V.TextBytes(c.title) + V.TextBytes(s)))
  }

  /** The frame never overruns the caller's buffer, which has 32 octets more than a ciphered service. */
  lemma GenFits(h: Hal, c: Ctx, dedicated: bool, plainTag: byte, plain: seq<byte>)
    requires GenProtected(h, c, dedicated, plainTag, plain).Some?
    ensures |GenProtected(h, c, dedicated, plainTag, plain).value| <= MAX_CIPHERED + 32
  {
    hide Protected, V.TextBytes;
    ProtectedSize(h, c, GloTag(plainTag), plain);
    TextFits(c.title);
    TextFits(Protected(h, c, GloTag(plainTag), plain).value);
  }

  /** Title and ciphered service of a general-ciphering frame. */
  function GenFields(s: seq<byte>): Option<(seq<byte>, Option<seq<byte>>)> {
    if |s| < 3 || (s[0] != GEN_GLO && s[0] != GEN_DED) then None
    else
      match V.TextAt(s, 1, |s|, Invalid)
      case Fail(_) => None
      case Ok((title, p)) =>
        match V.TextAt(s, p, |s|, Invalid)
        case Fail(_) => Some((title, None))
        case Ok((service, _)) => Some((title, if service == [] then None else Some(service)))
  }

  /** osp_glo_plain_tag_for_ciphered. */
  function PlainTag(tag: byte): byte { if 0xC8 <= tag <= 0xCF then tag - 8 else tag }

  /** The plain tag that is reported with a text: that of its first octet, if it has one. */
  function TagOf(text: seq<byte>): Option<byte> { if text == [] then None else Some(PlainTag(text[0])) }

  /** osp_gen_glo_ded_unprotect: text and plain tag; the title is taken over before the service is opened. */
  function GenUnprotected(h: Hal, c: Ctx, s: seq<byte>): (Option<(seq<byte>, Option<byte>)>, Ctx) {
    match GenFields(s)
    case None => (None, c)
    case Some((title, service)) =>
      var c' := if |title| == 8 then c.(peerTitle := title) else c;
      if service.None? then (None, c')
      else
        var (out, after) := Unprotected(h, c', service.value);
        (if out.Plain? then Some((out.text, TagOf(out.text))) else None, after)
  }

  lemma GenFieldsRoundTrip(tag: byte, title: Title, service: seq<byte>)
    requires (tag == GEN_GLO || tag == GEN_DED) && 1 <= |service| < 0x1000_0000
    ensures GenFields([tag] + (V.TextBytes(title) + V.TextBytes(service))) == Some((title, Some(service)))
  {
    var x, y := V.TextBytes(title), V.TextBytes(service);
    var s := [tag] + (x + y);
    assert s[1..1 + |x + y|] == x + y;
    V.AtParts(s, 1, x, y);
    TextFits(title);
    TextFits(service);
    V.TextRoundTrip(s, 1, title, |s|, Invalid);
    V.TextRoundTrip(s, 1 + |x|, service, |s|, Invalid);
  }

  lemma TextFits(s: seq<byte>)
    ensures |s| + 1 <= |V.TextBytes(s)| <= |s| + 5
  {}

  lemma ProtectedSize(h: Hal, c: Ctx, tag: byte, plain: seq<byte>)
    requires Protected(h, c, tag, plain).Some?
    ensures 1 <= |Protected(h, c, tag, plain).value| <= MAX_CIPHERED - 2
  {
    hide Seal;
    var sc := Control(c.policy, c.suite);
    TextFits(Body(sc, c.ic, Seal(h, c, IvOf(c.title, c.ic), sc, plain).value));
  }

  /** The same round trip through general ciphering; the receiver need not know the sender's title beforehand. */
  lemma GenRoundTrip(h: Hal, tx: Ctx, rx: Ctx, dedicated: bool, plainTag: byte, plain: seq<byte>)
    requires Inverts(h) && Matching(tx, rx.(peerTitle := tx.title)) && IsCiphered(GloTag(plainTag)) &&
             1 <= |plain| <= MAX_PLAIN
    requires rx.icValid ==> tx.ic > rx.lastPeerIc
    requires Seal(h, tx, IvOf(tx.title, tx.ic), Control(tx.policy, tx.suite), plain).Some?
    ensures GenProtected(h, tx, dedicated, plainTag, plain).Some?
    ensures GenUnprotected(h, rx, GenProtected(h, tx, dedicated, plainTag, plain).value) ==
            (Some((plain, Some(PlainTag(plain[0])))),
                rx.(peerTitle := tx.title, lastPeerIc := tx.ic, icValid := true, policy := tx.policy))
  {
    hide Seal, Matching, Protected, Unprotected, GenFields, Inverts, Control, IvOf, IsCiphered, V.TextBytes;
    ProtectRoundTrip(h, tx, rx.(peerTitle := tx.title), GloTag(plainTag), plain);
    ProtectedSize(h, tx, GloTag(plainTag), plain);
    var s := Protected(h, tx, GloTag(plainTag), plain).value;
    TextFits(tx.title);
    TextFits(s);
    GenFieldsRoundTrip(if dedicated then GEN_DED else GEN_GLO, tx.title, s);
  }

  /** A refused general-ciphering frame leaves the replay state alone; it may still set the peer's title. */
  lemma GenUnprotectState(h: Hal, c: Ctx, s: seq<byte>)
    requires GenUnprotected(h, c, s).0.None?
    ensures var after := GenUnprotected(h, c, s).1;
            after == c.(peerTitle := after.peerTitle)
  {
    hide GenFields, Unprotected;
    var fields := GenFields(s);
    if fields.Some? && fields.value.1.Some? {
      UnprotectState(h, if |fields.value.0| == 8 then c.(peerTitle := fields.value.0) else c, fields.value.1.value);
    }
  }

  // ── The operations ─────────────────────────────────────────────────────────

  /** The fields of a received frame. */
  method ReadFields(mem: array<byte>) returns (f: Option<(byte, u32, seq<byte>)>)
    ensures f == Fields(mem[..])
  {
    hide LenAt, FromBigEndian;
    if mem.Length < 7 || !IsCiphered(mem[0]) { return None; }
    var buf := new Buf.Received(mem);
    var tag := buf.ReadU8();
    var len := ReadLen(buf);
    if len.Fail? || len.value < 5 || buf.wr - buf.rd < len.value { return None; }
    var p := buf.rd;
    buf.rd := p + 1;
    var ic := ReadOctets(buf, 4);
    FromBigEndianBound(mem[..][p + 1..p + 5]);
    Pow256Values();
    assert mem[p + 5..p + len.value] == mem[..][p + 5..p + len.value];
    f := Some((mem[p], ic, mem[p + 5..p + len.value]));
  }

  class SecContext {
    var c: Ctx

    constructor (c: Ctx)
      ensures this.c == c
    {
      this.c := c;
    }

    /** osp_glo_unprotect over the received octets. */
    method Unprotect(h: Hal, mem: array<byte>) returns (out: Outcome)
      modifies this
      ensures (out, c) == Unprotected(h, old(c), mem[..])
    {
      hide Fields, Open;
      var f := ReadFields(mem);
      if f.None? { return Malformed; }
      var (sc, ic, part) := f.value;
      if c.icValid && ic <= c.lastPeerIc { return Replay; }
      out := Open(h, c, IvOf(RxTitle(c), ic), sc, part);
      if out.Plain? { c := c.(lastPeerIc := ic, icValid := true, policy := PolicyOf(sc)); }
    }

    /** osp_glo_protect into a buffer of OSP_GLO_MAX_CIPHERED octets; the context is only read. */
    method Protect(h: Hal, tag: byte, plain: seq<byte>) returns (r: Option<seq<byte>>)
      ensures r == Protected(h, c, tag, plain)
    {
      hide Seal, LenBytes;
      if |plain| > MAX_PLAIN { return None; }
      var sc := Control(c.policy, c.suite);
      var part := Seal(h, c, IvOf(c.title, c.ic), sc, plain);
      if part.None? { return None; }
      r := WriteFrame(tag, Body(sc, c.ic, part.value));
    }
  }

  /** glo_write_ciphered_apdu. */
  method WriteFrame(tag: byte, body: seq<byte>) returns (r: Option<seq<byte>>)
    ensures r == Frame(tag, body)
  {
    hide LenBytes;
    if |body| + 8 > MAX_CIPHERED { return None; }
    var mem := new byte[MAX_CIPHERED];
    var buf := new Buf(mem);
    var ok := buf.WriteU8(tag);
    assert buf.written == [tag];
    var len := WriteLen(buf, |body|);
    ok := buf.WriteAll(body);
    ConcatAssoc([tag], LenBytes(|body|), body);
    assert V.Len32(|body|) == |body|;
    r := Some(mem[..buf.wr]);
  }
}
