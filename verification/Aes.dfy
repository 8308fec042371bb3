/**
 The password cipher of mechanism 2 (src/security/hls_high.c): an AES-128 routine that works in place, merges
 AddRoundKey with SubBytes, shortens MixColumns and derives the round keys on the way. It is the cipher
 of sections 5.1 and 5.2 of FIPS 197 with expanded keys, for every S-box.
 */
module Aes {
  import opened Gf
  import Octets

  type State = s: seq<Octet> | |s| == 16 witness seq(16, _ => Octet(0))
  type Word = w: seq<Octet> | |w| == 4 witness [Octet(0), Octet(0), Octet(0), Octet(0)]
  type SBox = Octet -> Octet

  const ZERO := Octet(0)

  // ── FIPS 197 ───────────────────────────────────────────────────────────────

  function Rcon(i: nat): Octet
    requires i >= 1
  {
    if i == 1 then Octet(1) else Xtime(Rcon(i - 1))
  }

  function SubWord(sb: SBox, w: Word): Word { [sb(w[0]), sb(w[1]), sb(w[2]), sb(w[3])] }
  function RotWord(w: Word): Word { [w[1], w[2], w[3], w[0]] }
  function XorWord(a: Word, b: Word): Word { [Plus(a[0], b[0]), Plus(a[1], b[1]), Plus(a[2], b[2]), Plus(a[3], b[3])] }

  /** Word i of the expanded key, section 5.2. */
  function KeyWord(sb: SBox, key: State, i: nat): Word {
    if i < 4 then key[4 * i..4 * i + 4]
    else
      var temp := KeyWord(sb, key, i - 1);
      var t := if i % 4 == 0 then XorWord(SubWord(sb, RotWord(temp)), [Rcon(i / 4), ZERO, ZERO, ZERO]) else temp;
      XorWord(KeyWord(sb, key, i - 4), t)
  }

  function RoundKey(sb: SBox, key: State, r: nat): State {
    KeyWord(sb, key, 4 * r) + KeyWord(sb, key, 4 * r + 1) + KeyWord(sb, key, 4 * r + 2) + KeyWord(sb, key, 4 * r + 3)
  }

  function AddRoundKey(s: State, k: State): State { seq(16, i requires 0 <= i < 16 => Plus(s[i], k[i])) }
  function SubBytes(sb: SBox, s: State): State { seq(16, i requires 0 <= i < 16 => sb(s[i])) }

  /** Row i % 4 of the state moves i % 4 columns to the left. */
  function ShiftRows(s: State): State { seq(16, i requires 0 <= i < 16 => s[(i + 4 * (i % 4)) % 16]) }

  /** One column times the polynomial {03}x^3 + {01}x^2 + {01}x + {02}. */
  function MixColumn(a: Octet, b: Octet, c: Octet, d: Octet): Word {
    [Mix(a, b, c, d), Mix(b, c, d, a), Mix(c, d, a, b), Mix(d, a, b, c)]
  }

  function Column(s: State, i: nat): Word
    requires i < 4
  {
    MixColumn(s[4 * i], s[4 * i + 1], s[4 * i + 2], s[4 * i + 3])
  }

  function MixColumns(s: State): State { Column(s, 0) + Column(s, 1) + Column(s, 2) + Column(s, 3) }

  /** The state after AddRoundKey of round r, section 5.1. */
  function StateAt(sb: SBox, key: State, input: State, r: nat): State {
    if r == 0 then AddRoundKey(input, RoundKey(sb, key, 0))
    else
      var t := ShiftRows(SubBytes(sb, StateAt(sb, key, input, r - 1)));
      AddRoundKey(if r < 10 then MixColumns(t) else t, RoundKey(sb, key, r))
  }

  function Cipher(sb: SBox, key: State, input: State): State { StateAt(sb, key, input, 10) }

  // ── The routine ────────────────────────────────────────────────────────────

  const R_CON: seq<Octet> := [Octet(0x01), Octet(0x02), Octet(0x04), Octet(0x08), Octet(0x10), Octet(0x20),
      Octet(0x40), Octet(0x80), Octet(0x1b), Octet(0x36)]

  lemma RconTable(i: nat)
    requires i < 10
    ensures R_CON[i] == Rcon(i + 1)
  {
    if i > 0 { RconTable(i - 1); }
  }

  /** AddRoundKey and SubBytes in one pass. */
  method KeyAndSub(sb: SBox, data: array<Octet>, key: array<Octet>)
    requires data.Length == key.Length == 16 && data != key
    modifies data
    ensures data[..] == SubBytes(sb, AddRoundKey(old(data[..]), key[..]))
  {
    hide Plus;
    for i := 0 to 16
      invariant forall k :: 0 <= k < 16 ==> data[k] == if k < i then sb(Plus(old(data[k]), key[k])) else old(data[k])
    {
      data[i] := sb(Plus(data[i], key[i]));
    }
  }

  /** The byte moves of the routine are ShiftRows: one, two and three places. */
  method ShiftInPlace(data: array<Octet>)
    requires data.Length == 16
    modifies data
    ensures data[..] == ShiftRows(old(data[..]))
  {
    ThreeRows(data[..]);
    FirstRow(data);
    SecondRow(data);
    ThirdRow(data);
  }

  lemma ThreeRows(s: State)
    ensures var t := s[1 := s[5]][5 := s[9]][9 := s[13]][13 := s[1]];
            var u := t[2 := t[10]][6 := t[14]][10 := t[2]][14 := t[6]];
            u[15 := u[11]][11 := u[7]][7 := u[3]][3 := u[15]] == ShiftRows(s)
  {
    var t := s[1 := s[5]][5 := s[9]][9 := s[13]][13 := s[1]];
    var u := t[2 := t[10]][6 := t[14]][10 := t[2]][14 := t[6]];
    var v := u[15 := u[11]][11 := u[7]][7 := u[3]][3 := u[15]];
    forall i | 0 <= i < 16 ensures v[i] == ShiftRows(s)[i] {}
  }

  method FirstRow(data: array<Octet>)
    requires data.Length == 16
    modifies data
    ensures var s := old(data[..]); data[..] == s[1 := s[5]][5 := s[9]][9 := s[13]][13 := s[1]]
  {
    var buf1 := data[1];
    data[1] := data[5];
    data[5] := data[9];
    data[9] := data[13];
    data[13] := buf1;
  }

  method SecondRow(data: array<Octet>)
    requires data.Length == 16
    modifies data
    ensures var s := old(data[..]); data[..] == s[2 := s[10]][6 := s[14]][10 := s[2]][14 := s[6]]
  {
    var buf1 := data[2];
    var buf2 := data[6];
    data[2] := data[10];
    data[6] := data[14];
    data[10] := buf1;
    data[14] := buf2;
  }

  method ThirdRow(data: array<Octet>)
    requires data.Length == 16
    modifies data
    ensures var s := old(data[..]); data[..] == s[15 := s[11]][11 := s[7]][7 := s[3]][3 := s[15]]
  {
    var buf1 := data[15];
    data[15] := data[11];
    data[11] := data[7];
    data[7] := data[3];
    data[3] := buf1;
  }

  method MixOne(data: array<Octet>, i: nat)
    requires data.Length == 16 && i < 4
    modifies data
    ensures data[4 * i..4 * i + 4] == Column(old(data[..]), i)
    ensures forall k :: 0 <= k < 16 && !(4 * i <= k < 4 * i + 4) ==> data[k] == old(data[k])
  {
    hide Xtime, Mix, Plus, Sum;
    var p := 4 * i;
    ghost var a, b, c, d := data[p], data[p + 1], data[p + 2], data[p + 3];
    var mix := Sum(data[p], data[p + 1], data[p + 2], data[p + 3]);
    var first := data[p];
    data[p] := Plus(Plus(data[p], Galois(Plus(data[p], data[p + 1]))), mix);
    data[p + 1] := Plus(Plus(data[p + 1], Galois(Plus(data[p + 1], data[p + 2]))), mix);
    data[p + 2] := Plus(Plus(data[p + 2], Galois(Plus(data[p + 2], data[p + 3]))), mix);
    data[p + 3] := Plus(Plus(data[p + 3], Galois(Plus(data[p + 3], first))), mix);
    Rotate(a, b, c, d);
    Rotate(b, c, d, a);
    Rotate(c, d, a, b);
    Shortcut(a, b, c, d);
    Shortcut(b, c, d, a);
    Shortcut(c, d, a, b);
    Shortcut(d, a, b, c);
    assert data[p..p + 4] == [data[p], data[p + 1], data[p + 2], data[p + 3]];
  }

  method MixInPlace(data: array<Octet>)
    requires data.Length == 16
    modifies data
    ensures data[..] == MixColumns(old(data[..]))
  {
    hide MixColumn;
    ghost var s: State := data[..];
    for i := 0 to 4
      invariant forall c :: 0 <= c < i ==> data[4 * c..4 * c + 4] == Column(s, c)
      invariant forall k :: 4 * i <= k < 16 ==> data[k] == s[k]
    {
      ghost var before := data[..];
      MixOne(data, i);
      forall c | 0 <= c < i ensures data[4 * c..4 * c + 4] == Column(s, c) {
        assert data[4 * c..4 * c + 4] == before[4 * c..4 * c + 4];
      }
    }
    assert data[..] == data[0..4] + data[4..8] + data[8..12] + data[12..16];
    assert data[4 * 0..4 * 0 + 4] == Column(s, 0) && data[4 * 1..4 * 1 + 4] == Column(s, 1);
    assert data[4 * 2..4 * 2 + 4] == Column(s, 2) && data[4 * 3..4 * 3 + 4] == Column(s, 3);
  }

  // ── The key schedule on the way ────────────────────────────────────────────

  /** The next four words from four words, as the routine chains them. */
  function NextKey(sb: SBox, k: State, rcon: Octet): State {
    var w0 := XorWord(k[0..4], XorWord(SubWord(sb, RotWord(k[12..16])), [rcon, ZERO, ZERO, ZERO]));
    var w1 := XorWord(k[4..8], w0);
    var w2 := XorWord(k[8..12], w1);
    w0 + w1 + w2 + XorWord(k[12..16], w2)
  }

  lemma NextRoundKey(sb: SBox, key: State, r: nat)
    ensures NextKey(sb, RoundKey(sb, key, r), Rcon(r + 1)) == RoundKey(sb, key, r + 1)
  {
    hide Rcon, XorWord, SubWord, RotWord, KeyWord;
    var k := RoundKey(sb, key, r);
    var n := 4 * r + 4;
    assert k[0..4] == KeyWord(sb, key, n - 4) && k[4..8] == KeyWord(sb, key, n - 3);
    assert k[8..12] == KeyWord(sb, key, n - 2) && k[12..16] == KeyWord(sb, key, n - 1);
    WordStep(sb, key, n);
    WordStep(sb, key, n + 1);
    WordStep(sb, key, n + 2);
    WordStep(sb, key, n + 3);
    assert n % 4 == 0 && n / 4 == r + 1;
  }

  lemma WordStep(sb: SBox, key: State, i: nat)
    requires i >= 4
    ensures KeyWord(sb, key, i) ==
            XorWord(KeyWord(sb, key, i - 4),
                    if i % 4 == 0
                    then XorWord(SubWord(sb, RotWord(KeyWord(sb, key, i - 1))), [Rcon(i / 4), ZERO, ZERO, ZERO])
                    else KeyWord(sb, key, i - 1))
  {}

  lemma FirstRoundKey(sb: SBox, key: State)
    ensures RoundKey(sb, key, 0) == key
  {
    assert KeyWord(sb, key, 0) == key[0..4] && KeyWord(sb, key, 1) == key[4..8];
    assert KeyWord(sb, key, 2) == key[8..12] && KeyWord(sb, key, 3) == key[12..16];
    assert key == key[0..4] + key[4..8] + key[8..12] + key[12..16];
  }

  method KeyInPlace(sb: SBox, key: array<Octet>, rcon: Octet)
    requires key.Length == 16
    modifies key
    ensures key[..] == NextKey(sb, old(key[..]), rcon)
  {
    ghost var k: State := key[..];
    hide Plus, NextKey;
    FirstWord(sb, k, rcon);
    KeyHead(sb, key, rcon);
    ghost var next := NextKey(sb, k, rcon);
    forall i | 4 <= i < 16 ensures next[i] == Plus(k[i], next[i - 4]) { LaterOctet(sb, k, rcon, i); }
    KeyTail(key, k, next);
  }

  /** The other words, each octet added to the one four places before it. */
  method KeyTail(key: array<Octet>, ghost k: State, ghost next: State)
    requires key.Length == 16 && forall j :: 0 <= j < 16 ==> key[j] == if j < 4 then next[j] else k[j]
    requires forall i :: 4 <= i < 16 ==> next[i] == Plus(k[i], next[i - 4])
    modifies key
    ensures key[..] == next
  {
    hide Plus;
    for i := 4 to 16
      invariant forall j :: 0 <= j < 16 ==> key[j] == if j < i then next[j] else k[j]
    {
      key[i] := Plus(key[i], key[i - 4]);
    }
  }

  /** The first word of the next round key. */
  method KeyHead(sb: SBox, key: array<Octet>, rcon: Octet)
    requires key.Length == 16
    modifies key
    ensures key[0] == Plus(Plus(sb(old(key[13])), old(key[0])), rcon) && key[1] == Plus(sb(old(key[14])), old(key[1]))
    ensures key[2] == Plus(sb(old(key[15])), old(key[2])) && key[3] == Plus(sb(old(key[12])), old(key[3]))
    ensures forall j :: 4 <= j < 16 ==> key[j] == old(key[j])
  {
    hide Plus;
    key[0] := Plus(Plus(sb(key[13]), key[0]), rcon);
    key[1] := Plus(sb(key[14]), key[1]);
    key[2] := Plus(sb(key[15]), key[2]);
    key[3] := Plus(sb(key[12]), key[3]);
  }

  lemma FirstWord(sb: SBox, k: State, rcon: Octet)
    ensures var n := NextKey(sb, k, rcon);
            n[0] == Plus(Plus(sb(k[13]), k[0]), rcon) && n[1] == Plus(sb(k[14]), k[1]) &&
            n[2] == Plus(sb(k[15]), k[2]) && n[3] == Plus(sb(k[12]), k[3])
  {
    hide Plus;
    Arrange(sb(k[13]), k[0], rcon);
    Arrange(sb(k[14]), k[1], ZERO);
    Arrange(sb(k[15]), k[2], ZERO);
    Arrange(sb(k[12]), k[3], ZERO);
    Arrange(Plus(sb(k[14]), k[1]), ZERO, ZERO);
    Arrange(Plus(sb(k[15]), k[2]), ZERO, ZERO);
    Arrange(Plus(sb(k[12]), k[3]), ZERO, ZERO);
    assert RotWord(k[12..16]) == [k[13], k[14], k[15], k[12]];
    assert k[0..4] == [k[0], k[1], k[2], k[3]];
  }

  lemma LaterOctet(sb: SBox, k: State, rcon: Octet, i: nat)
    requires 4 <= i < 16
    ensures var n := NextKey(sb, k, rcon); n[i] == Plus(k[i], n[i - 4])
  {
    hide SubWord, RotWord, Plus;
    var w0 := XorWord(k[0..4], XorWord(SubWord(sb, RotWord(k[12..16])), [rcon, ZERO, ZERO, ZERO]));
    var w1 := XorWord(k[4..8], w0);
    var w2 := XorWord(k[8..12], w1);
    var w3 := XorWord(k[12..16], w2);
    var n: seq<Octet> := NextKey(sb, k, rcon);
    assert n[..4] == w0 && n[4..8] == w1 && n[8..12] == w2 && n[12..] == w3;
    if i < 8 {
      assert n[i] == n[4..8][i - 4] && n[i - 4] == n[..4][i - 4] && k[i] == k[4..8][i - 4];
    } else if i < 12 {
      assert n[i] == n[8..12][i - 8] && n[i - 4] == n[4..8][i - 8] && k[i] == k[8..12][i - 8];
    } else {
      assert n[i] == n[12..][i - 12] && n[i - 4] == n[8..12][i - 12] && k[i] == k[12..16][i - 12];
    }
  }

  /** hls_high_aes1_encrypt_block: the AES-128 cipher of the key that was passed in. */
  method EncryptBlock(sb: SBox, data: array<Octet>, key: array<Octet>)
    requires data.Length == key.Length == 16 && data != key
    modifies data, key
    ensures data[..] == Cipher(sb, old(key[..]), old(data[..]))
  {
    hide AddRoundKey, SubBytes, ShiftRows, MixColumns, RoundKey, NextKey, Rcon;
    ghost var k: State := key[..];
    ghost var input: State := data[..];
    FirstRoundKey(sb, k);
    for round := 0 to 10
      invariant key[..] == RoundKey(sb, k, round)
      invariant AddRoundKey(data[..], key[..]) == StateAt(sb, k, input, round)
    {
      KeyAndSub(sb, data, key);
      ShiftInPlace(data);
      if round < 9 { MixInPlace(data); }
      RconTable(round);
      NextRoundKey(sb, k, round);
      KeyInPlace(sb, key, R_CON[round]);
    }
    AddInPlace(data, key[..]);
  }

  method AddInPlace(data: array<Octet>, key: seq<Octet>)
    requires data.Length == |key| == 16
    modifies data
    ensures data[..] == AddRoundKey(old(data[..]), key)
  {
    hide Plus;
    for i := 0 to 16
      invariant forall k :: 0 <= k < 16 ==> data[k] == if k < i then Plus(old(data[k]), key[k]) else old(data[k])
    {
      data[i] := Plus(data[i], key[i]);
    }
  }

  // ── The password function ──────────────────────────────────────────────────

  const CHALLENGE_MAX: nat := 64

  function RoundUp(n: nat): (m: nat)
    ensures n <= m < n + 16 && m % 16 == 0
  {
    (n + 15) / 16 * 16
  }

  function Longer(data: nat, secret: nat): nat { if secret > data then secret else data }

  /** The length both arguments are padded to, 32 bits wide. */
  function PaddedLen(data: nat, secret: nat): nat { RoundUp(Longer(data, secret)) % 0x1_0000_0000 }

  /** It holds both if and only if it does not wrap; otherwise it is 0. */
  lemma PaddedLenIff(data: Octets.u32, secret: Octets.u32)
    ensures var n := PaddedLen(data, secret);
            && n % 16 == 0 && (n >= data && n >= secret <==> Longer(data, secret) <= 0xFFFF_FFF0)
            && (Longer(data, secret) > 0xFFFF_FFF0 ==> n == 0)
  {}

  function Pad(s: seq<Octet>, n: nat): (r: seq<Octet>)
    requires |s| <= n
    ensures |r| == n
  {
    s + seq(n - |s|, _ => ZERO)
  }

  function KeyOf(secret: seq<Octet>): State { if |secret| >= 16 then secret[..16] else Pad(secret, 16) }

  function Blocks(sb: SBox, key: State, s: seq<Octet>): (r: seq<Octet>)
    requires |s| % 16 == 0
    ensures |r| == |s|
  {
    if s == [] then [] else Cipher(sb, key, s[..16]) + Blocks(sb, key, s[16..])
  }

  /** osp_hls_high_secure: block by block over the zero-padded challenge, or nothing. */
  function Secured(sb: SBox, data: seq<Octet>, secret: seq<Octet>): (bool, seq<Octet>) {
    var n := RoundUp(Longer(|data|, |secret|));
    if data == [] || secret == [] || n > CHALLENGE_MAX then (false, [])
    else (true, Blocks(sb, KeyOf(secret), Pad(data, n)))
  }

  lemma {:induction false} BlocksAt(sb: SBox, key: State, s: seq<Octet>, i: nat)
    requires |s| % 16 == 0 && 16 * i + 16 <= |s|
    ensures Blocks(sb, key, s)[16 * i..16 * i + 16] == Cipher(sb, key, s[16 * i..16 * i + 16])
  {
    hide Cipher;
    var all := Blocks(sb, key, s);
    if i == 0 {
      assert all[0..16] == Cipher(sb, key, s[..16]) && s[0..16] == s[..16];
    } else {
      BlocksAt(sb, key, s[16..], i - 1);
      assert all[16..] == Blocks(sb, key, s[16..]);
      assert all[16 * i..16 * i + 16] == all[16..][16 * (i - 1)..16 * (i - 1) + 16];
      assert s[16 * i..16 * i + 16] == s[16..][16 * (i - 1)..16 * (i - 1) + 16];
    }
  }

  method PaddedLength(data: Octets.u32, secret: Octets.u32) returns (len: Octets.u32)
    ensures len == PaddedLen(data, secret)
  {
    len := data;
    if len % 16 != 0 { len := (len + (16 - data % 16)) % 0x1_0000_0000; }
    if secret > data {
      len := secret;
      if len % 16 != 0 { len := (len + (16 - secret % 16)) % 0x1_0000_0000; }
    }
  }

  method RunBlocks(sb: SBox, key: seq<Octet>, padded: seq<Octet>) returns (out: seq<Octet>)
    requires |key| == 16 && |padded| % 16 == 0
    ensures out == Blocks(sb, key, padded)
  {
    hide Cipher, Blocks;
    ghost var all := Blocks(sb, key, padded);
    out := [];
    var pos := 0;
    while pos < |padded|
      invariant 0 <= pos <= |padded| && pos % 16 == 0 && out == all[..pos]
    {
      ghost var i := pos / 16;
      BlocksAt(sb, key, padded, i);
      assert 16 * i == pos;
      var block := OneBlock(sb, key, padded[pos..pos + 16]);
      assert all[..pos + 16] == all[..pos] + all[pos..pos + 16];
      out := out + block;
      pos := pos + 16;
    }
    assert all[..|padded|] == all;
  }

  /** One block with a fresh copy of the key, which the routine consumes. */
  method OneBlock(sb: SBox, key: seq<Octet>, input: seq<Octet>) returns (out: seq<Octet>)
    requires |key| == |input| == 16
    ensures out == Cipher(sb, key, input)
  {
    hide Cipher;
    var block := new Octet[16](i requires 0 <= i < 16 => input[i]);
    var roundKey := new Octet[16](i requires 0 <= i < 16 => key[i]);
    assert block[..] == input && roundKey[..] == key;
    EncryptBlock(sb, block, roundKey);
    out := block[..];
  }

  /**
   The result is the intended one if and only if the padded length does not wrap: a longer argument is taken for a
   success with no octets. Whatever is copied must fit the output.
   */
  method Secure(sb: SBox, data: seq<Octet>, secret: seq<Octet>) returns (ok: bool, out: seq<Octet>)
    requires |data| < 0x1_0000_0000 && |secret| < 0x1_0000_0000
    requires PaddedLen(|data|, |secret|) <= CHALLENGE_MAX ==> |data| <= CHALLENGE_MAX
    ensures (ok, out) == Secured(sb, data, secret) <==>
              data == [] || secret == [] || Longer(|data|, |secret|) <= 0xFFFF_FFF0
    ensures data != [] && secret != [] && Longer(|data|, |secret|) > 0xFFFF_FFF0 ==> ok && out == []
  {
    hide Blocks;
    if data == [] || secret == [] { return false, []; }
    var len := PaddedLength(|data|, |secret|);
    PaddedLenIff(|data|, |secret|);
    if len > CHALLENGE_MAX { return false, []; }
    var padded := if |data| < len then Pad(data, len) else data[..len];
    out := RunBlocks(sb, KeyOf(secret), padded);
    assert len == 0 ==> out == Blocks(sb, KeyOf(secret), []) == [] by { NoBlocks(sb, KeyOf(secret)); }
    assert |data| == len ==> data[..len] == data == Pad(data, len);
    ok := true;
  }

  lemma NoBlocks(sb: SBox, key: State)
    ensures Blocks(sb, key, []) == []
  {}
}
