/**
 General block transfer blocks and their octet form (src/service/gbt.c).

 The encoder does not check the writes of the payload and the decoder does not check the
 reads of it, so a too small scratch buffer yields a shortened frame and a shortened frame
 decodes with whatever the receiver's block structure held before. Both are modelled:
 `Sent` is the frame a scratch buffer of a given size really holds, and `Decode` takes the
 stale contents as an argument.
 */
module Gbt {
  import opened Octets
  import opened Lengths

  const TAG: byte := 0xE0
  const WINDOW_LIMIT: nat := 64     // OSP_GBT_WINDOW_MASK + 1
  const MAX_APDU: nat := 4096
  const MAX_OCTET: nat := 256

  type Window = w: nat | w < WINDOW_LIMIT
  type Payload = s: seq<byte> | |s| <= MAX_OCTET

  datatype Block = Block(last: bool, streaming: bool, window: Window, number: u16, ack: u16, data: Payload)

  function Control(b: Block): byte {
    (if b.last then 0x80 else 0) + (if b.streaming then 0x40 else 0) + b.window
  }

  function Header(b: Block): (h: seq<byte>)
    ensures 7 <= |h| <= 11
  {
    [TAG, Control(b)] + (BigEndian(b.number, 2) + BigEndian(b.ack, 2)) + LenBytes(|b.data|)
  }

  function Wire(b: Block): seq<byte>
  {
    Header(b) + b.data
  }

  /** The frame built in a scratch buffer of `room` octets: cut off when it does not fit. */
  function Sent(b: Block, room: nat): seq<byte>
  {
    Wire(b)[..Min(room, |Wire(b)|)]
  }

  function Be16(hi: byte, lo: byte): u16 { 256 * (hi as int) + lo as int }

  function U16At(s: seq<byte>, pos: nat): u16
    requires pos + 2 <= |s|
  {
    Be16(s[pos], s[pos + 1])
  }

  function Decode(s: seq<byte>, stale: seq<byte>): (r: Result<Block>)
    requires |stale| == MAX_OCTET
  {
    if |s| < 6 || s[0] != TAG then Fail(Invalid)
    else
      var ctrl := s[1];
      var len := LenAt(s, 6);
      if len.Fail? || len.value.0 > MAX_OCTET then Fail(Invalid)
      else
        var (n, pos) := len.value;
        Ok(Block(ctrl >= 0x80, ctrl % 0x80 >= 0x40, ctrl % 0x40, U16At(s, 2), U16At(s, 4),
                 seq(n, i requires 0 <= i < n => if pos + i < |s| then s[pos + i] else stale[i])))
  }

  lemma BigEndian2(n: u16)
    ensures BigEndian(n, 2) == [n / 256, n % 256]
  {
    assert BigEndian(n / 256, 1) == BigEndian(n / 256 / 256, 0) + [n / 256 % 256];
  }

  /** What a decoder finds in any frame that starts with the header of b. */
  lemma HeaderFields(b: Block, s: seq<byte>)
    requires Header(b) <= s
    ensures s[0] == TAG && s[1] == Control(b) && U16At(s, 2) == b.number && U16At(s, 4) == b.ack
    ensures LenAt(s, 6) == Ok((|b.data|, |Header(b)|))
  {
    var h := Header(b);
    BigEndian2(b.number);
    BigEndian2(b.ack);
    assert forall i :: 0 <= i < 6 ==> s[i] == h[i];
    assert s[6..6 + |LenBytes(|b.data|)|] == h[6..] == LenBytes(|b.data|);
    LenRoundTrip(s, 6, |b.data|);
  }

  lemma ControlBits(b: Block)
    ensures var c := Control(b);
            (c >= 0x80 <==> b.last) && (c % 0x80 >= 0x40 <==> b.streaming) && c % 0x40 == b.window
  {}

  /** Decoding a frame that lost its tail: the missing payload octets are the stale ones. */
  lemma DecodeSent(b: Block, room: nat, stale: seq<byte>)
    requires |stale| == MAX_OCTET && |Header(b)| <= room
    ensures var kept := Min(room - |Header(b)|, |b.data|);
            Decode(Sent(b, room), stale) == Ok(b.(data := b.data[..kept] + stale[kept..|b.data|]))
  {
    var s := Sent(b, room);
    HeaderFields(b, s);
    ControlBits(b);
    var kept := Min(room - |Header(b)|, |b.data|);
    assert Decode(s, stale).value.data == b.data[..kept] + stale[kept..|b.data|];
  }

  /** With room for the whole frame the block survives, whatever the receiver held before. */
  lemma RoundTrip(b: Block, room: nat, stale: seq<byte>)
    requires |stale| == MAX_OCTET && |Wire(b)| <= room
    ensures Decode(Sent(b, room), stale) == Ok(b)
  {
    DecodeSent(b, room, stale);
    assert b.data[..|b.data|] + stale[|b.data|..|b.data|] == b.data;
  }

  /** Exactly the scratch sizes for which no block is ever corrupted on the way. */
  lemma RoundTripIffItFits(b: Block, room: nat)
    requires |Header(b)| <= room
    ensures (forall stale: seq<byte> :: |stale| == MAX_OCTET ==> Decode(Sent(b, room), stale) == Ok(b))
       <==> |Wire(b)| <= room
  {
    if |Wire(b)| <= room {
      forall stale: seq<byte> | |stale| == MAX_OCTET ensures Decode(Sent(b, room), stale) == Ok(b) {
        RoundTrip(b, room, stale);
      }
    } else {
      var kept := room - |Header(b)|;
      var stale: seq<byte> := seq(MAX_OCTET, i requires 0 <= i < MAX_OCTET =>
                                    if i < |b.data| && b.data[i] == 0 then 1 else 0);
      DecodeSent(b, room, stale);
      assert (b.data[..kept] + stale[kept..|b.data|])[kept] != b.data[kept];
    }
  }

  method EncodeHeader(buf: Buf, b: Block) returns (ok: bool)
    requires buf.Valid()
    modifies buf`wr, buf`written, buf.mem
    ensures buf.Valid()
    ensures ok <==> |old(buf.written)| + |Header(b)| <= buf.mem.Length
    ensures ok ==> buf.written == old(buf.written) + Header(b)
  {
    ghost var w0 := buf.written;
    ghost var head, nums, len := [TAG, Control(b)], BigEndian(b.number, 2) + BigEndian(b.ack, 2), LenBytes(|b.data|);
    ok := EncodeControl(buf, b);
    if !ok { return; }
    ok := EncodeNumbers(buf, b);
    if !ok { return; }
    ConcatAssoc(w0, head, nums);
    var r := WriteLen(buf, |b.data|);
    ConcatAssoc(w0, head + nums, len);
    ok := r.Ok?;
  }

  method EncodeNumbers(buf: Buf, b: Block) returns (ok: bool)
    requires buf.Valid()
    modifies buf`wr, buf`written, buf.mem
    ensures buf.Valid()
    ensures ok <==> |old(buf.written)| + 4 <= buf.mem.Length
    ensures ok ==> buf.written == old(buf.written) + (BigEndian(b.number, 2) + BigEndian(b.ack, 2))
  {
    ok := WriteU16(buf, b.number);
    if !ok { return; }
    ok := WriteU16(buf, b.ack);
    ConcatAssoc(old(buf.written), BigEndian(b.number, 2), BigEndian(b.ack, 2));
  }

  method EncodeControl(buf: Buf, b: Block) returns (ok: bool)
    requires buf.Valid()
    modifies buf`wr, buf`written, buf.mem
    ensures buf.Valid()
    ensures ok <==> |old(buf.written)| + 2 <= buf.mem.Length
    ensures ok ==> buf.written == old(buf.written) + [TAG, Control(b)]
  {
    ok := buf.WriteU8(TAG);
    if !ok { return; }
    ok := buf.WriteU8(Control(b));
  }

  method WriteU16(buf: Buf, n: u16) returns (ok: bool)
    requires buf.Valid()
    modifies buf`wr, buf`written, buf.mem
    ensures buf.Valid()
    ensures ok <==> |old(buf.written)| + 2 <= buf.mem.Length
    ensures buf.written == if ok then old(buf.written) + BigEndian(n, 2) else old(buf.written)
  {
    BigEndian2(n);
    ok := buf.WriteAll([n / 256, n % 256]);
  }

  method Encode(buf: Buf, b: Block) returns (ok: bool)
    requires buf.Valid()
    modifies buf`wr, buf`written, buf.mem
    ensures buf.Valid()
    ensures ok <==> |old(buf.written)| + |Header(b)| <= buf.mem.Length
    ensures ok ==> buf.written == old(buf.written) + Sent(b, buf.mem.Length - |old(buf.written)|)
  {
    ok := EncodeHeader(buf, b);
    if !ok { return; }
    ghost var before := old(buf.written);
    ghost var kept := EncodePayload(buf, b.data);
    ConcatAssoc(before, Header(b), kept);
    assert Header(b) + kept == Sent(b, buf.mem.Length - |before|);
  }

  /** The payload loop, whose writes are not checked. */
  method EncodePayload(buf: Buf, data: Payload) returns (ghost kept: seq<byte>)
    requires buf.Valid()
    modifies buf`wr, buf`written, buf.mem
    ensures buf.Valid()
    ensures kept == data[..Min(buf.mem.Length - |old(buf.written)|, |data|)]
    ensures buf.written == old(buf.written) + kept
  {
    ghost var room := buf.mem.Length - |buf.written|;
    for i := 0 to |data|
      invariant buf.Valid() && buf.rd == old(buf.rd)
      invariant buf.written == old(buf.written) + data[..Min(room, i)]
    {
      var _ := buf.WriteU8(data[i]);
    }
    kept := data[..Min(room, |data|)];
  }

  method DecodeFrame(buf: Buf, stale: seq<byte>) returns (r: Result<Block>)
    requires buf.Valid() && buf.rd == 0 && |stale| == MAX_OCTET
    modifies buf`rd
    ensures buf.Valid()
    ensures r == Decode(buf.written, stale)
  {
    ghost var s := buf.written;
    var tag := buf.ReadU8();
    if tag.Fail? || tag.value != TAG { return Fail(Invalid); }
    var ctrl := buf.ReadU8();
    if ctrl.Fail? { return Fail(Invalid); }
    var number := ReadU16(buf);
    if number.Fail? { return Fail(Invalid); }
    var ack := ReadU16(buf);
    if ack.Fail? { return Fail(Invalid); }
    var len := ReadLen(buf);
    if len.Fail? || len.value > MAX_OCTET { return Fail(Invalid); }
    var data := DecodePayload(buf, stale, len.value);
    var c := ctrl.value;
    assert Decode(s, stale).Ok?;
    assert data == Decode(s, stale).value.data;
    return Ok(Block(c >= 0x80, c % 0x80 >= 0x40, c % 0x40, number.value, ack.value, data));
  }

  /** The payload loop, whose reads are not checked: octets that are missing stay stale. */
  method DecodePayload(buf: Buf, stale: seq<byte>, len: nat) returns (data: seq<byte>)
    requires buf.Valid() && len <= MAX_OCTET == |stale|
    modifies buf`rd
    ensures buf.Valid() && |data| == len
    ensures forall i :: 0 <= i < len ==>
              data[i] == if old(buf.rd) + i < |buf.written| then buf.written[old(buf.rd) + i] else stale[i]
  {
    ghost var s, pos := buf.written, buf.rd;
    data := stale[..len];
    for i := 0 to len
      invariant buf.Valid() && buf.rd == Min(pos + i, |s|) && |data| == len
      invariant forall k :: 0 <= k < i ==> data[k] == if pos + k < |s| then s[pos + k] else stale[k]
      invariant forall k :: i <= k < len ==> data[k] == stale[k]
    {
      var o := buf.ReadU8();
      if o.Ok? { data := data[i := o.value]; }
    }
  }

  method ReadU16(buf: Buf) returns (r: Result<u16>)
    requires buf.Valid()
    modifies buf`rd
    ensures buf.Valid()
    ensures if old(buf.rd) + 2 <= buf.wr
            then r == Ok(U16At(buf.written, old(buf.rd))) && buf.rd == old(buf.rd) + 2
            else r == Fail(Invalid) && buf.rd == old(buf.rd)
  {
    if buf.wr - buf.rd < 2 { return Fail(Invalid); }
    r := Ok(Be16(buf.mem[buf.rd], buf.mem[buf.rd + 1]));
    buf.rd := buf.rd + 2;
  }
}
