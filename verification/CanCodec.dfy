/** CAN messages as read() and write() see them: a 16-bit header in little-endian host order
    (data length code, remote request bit, 11-bit identifier), then the data bytes. */
module CanCodec {

  import opened Platform

  const MAXDATALEN: nat := 8
  const HDRLEN: nat := 2
  const MAXMSGLEN: nat := HDRLEN + MAXDATALEN

  datatype RawMsg = Msg(id: nat, rtr: bool, data: seq<Byte>)

  type Msg = m: RawMsg | m.id < 2048 && |m.data| <= MAXDATALEN witness Msg(0, false, [])

  /** CAN_MSGLEN of the message's data length code. */
  function MsgLen(m: Msg): nat { HDRLEN + |m.data| }

  function Low(m: Msg): Byte { (|m.data| + 16 * (if m.rtr then 1 else 0) + 32 * (m.id % 8)) as Byte }

  function High(m: Msg): Byte { (m.id / 8) as Byte }

  function Encode(m: Msg): (bytes: seq<Byte>)
    ensures |bytes| == MsgLen(m)
  {
    [Low(m), High(m)] + m.data
  }

  function EncodeAll(ms: seq<Msg>): seq<Byte> {
    if ms == [] then [] else Encode(ms[0]) + EncodeAll(ms[1..])
  }

  /** A whole message starts at `at`. */
  predicate Whole(bytes: seq<Byte>, at: nat) {
    at + HDRLEN <= |bytes| && bytes[at] as int % 16 <= MAXDATALEN && at + HDRLEN + bytes[at] as int % 16 <= |bytes|
  }

  function Decode(bytes: seq<Byte>, at: nat): Msg
    requires Whole(bytes, at)
  {
    var low, high, dlc := bytes[at] as int, bytes[at + 1] as int, bytes[at] as int % 16;
    Msg(high * 8 + low / 32, low / 16 % 2 == 1, bytes[at + HDRLEN..at + HDRLEN + dlc])
  }

  lemma HeaderBits(m: Msg)
    ensures var low := Low(m) as int; low % 16 == |m.data| && (low / 16 % 2 == 1) == m.rtr && low / 32 == m.id % 8
  {
  }

  /** The layout: the first two bytes, low byte first, are a 16-bit number with the data length in bits
      0 to 3, the remote request in bit 4 and the identifier in bits 5 to 15; the data follow. */
  lemma HeaderWord(m: Msg)
    ensures var bytes := Encode(m);
            var word := bytes[0] as int + 256 * (bytes[1] as int);
            && word % 16 == |m.data| && word / 16 % 2 == (if m.rtr then 1 else 0) && word / 32 == m.id
            && word < 65536 && bytes[HDRLEN..] == m.data
  {
    assert m.id == 8 * (m.id / 8) + m.id % 8;
    Fields(|m.data|, if m.rtr then 1 else 0, m.id);
  }

  lemma Fields(c: int, b: int, a: int)
    requires 0 <= c < 16 && 0 <= b < 2 && 0 <= a
    ensures var word := c + 16 * b + 32 * a; word % 16 == c && word / 16 % 2 == b && word / 32 == a
  {
    assert (c + 16 * b + 32 * a) / 16 == b + 2 * a;
  }

  /** Whatever stands before and behind it, an encoded message is read back. */
  lemma DecodeEncoded(before: seq<Byte>, m: Msg, after: seq<Byte>)
    ensures var s := before + Encode(m) + after; Whole(s, |before|) && Decode(s, |before|) == m
  {
    var s, at := before + Encode(m) + after, |before|;
    HeaderBits(m);
    assert s[at] == Encode(m)[0] && s[at + 1] == Encode(m)[1];
    assert s[at + HDRLEN..at + HDRLEN + |m.data|] == m.data;
    assert m.id / 8 * 8 + m.id % 8 == m.id;
  }

  lemma {:induction false} EncodeAllConcat(a: seq<Msg>, b: seq<Msg>)
    ensures EncodeAll(a + b) == EncodeAll(a) + EncodeAll(b)
  {
    if a == [] {
      assert a + b == b;
    } else {
      assert (a + b)[1..] == a[1..] + b;
      EncodeAllConcat(a[1..], b);
    }
  }

  /** Reading a byte stream message by message. */
  function DecodeAll(bytes: seq<Byte>): seq<Msg>
    decreases |bytes|
  {
    if !Whole(bytes, 0) then [] else [Decode(bytes, 0)] + DecodeAll(bytes[MsgLen(Decode(bytes, 0))..])
  }

  /** The encoding loses nothing: equal bytes mean equal messages, none of them split. */
  lemma {:induction false} DecodeAllEncoded(ms: seq<Msg>)
    ensures DecodeAll(EncodeAll(ms)) == ms
  {
    hide Decode, Encode;
    if ms != [] {
      var rest := EncodeAll(ms[1..]);
      DecodeEncoded([], ms[0], rest);
      assert [] + Encode(ms[0]) + rest == EncodeAll(ms);
      assert EncodeAll(ms)[MsgLen(ms[0])..] == rest;
      DecodeAllEncoded(ms[1..]);
    }
  }
}
