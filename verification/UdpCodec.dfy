/**
 The UDP control messages of proxvn-tunnel/src/backend/cmd/client/main.go: the
 builder, the field decoder and the packet dispatch.
 */
module UdpCodec {
  import opened Bytes
  import opened Wrappers

  const HANDSHAKE: byte := 1
  const DATA: byte := 2
  const CLOSE: byte := 3
  const PING: byte := 4
  const PONG: byte := 5

  // ------------------------------------------------------------------
  // Building
  // ------------------------------------------------------------------

  /** A length-prefixed field; uint16() truncates the length. */
  function Field(s: seq<byte>): (r: seq<byte>)
    ensures |r| == 2 + |s|
  {
    PutU16(|s| % 0x1_0000) + s
  }

  /** Everything behind the key: a handshake has no id field. */
  function Tail(msgType: byte, id: seq<byte>, payload: seq<byte>): seq<byte> {
    if msgType == HANDSHAKE then payload else Field(id) + payload
  }

  function Message(msgType: byte, key: seq<byte>, id: seq<byte>, payload: seq<byte>): seq<byte> {
    [msgType] + Field(key) + Tail(msgType, id, payload)
  }

  lemma MessageFront(msgType: byte, key: seq<byte>, id: seq<byte>, payload: seq<byte>)
    ensures var packet := Message(msgType, key, id, payload);
            packet != [] && packet[0] == msgType && packet[1..] == Field(key) + Tail(msgType, id, payload)
  {}

  /** copy(buf[at:], s) when there is room. */
  method Copy(buf: array<byte>, at: nat, s: seq<byte>)
    requires at + |s| <= buf.Length
    modifies buf
    ensures buf[..] == old(buf[..at]) + s + old(buf[at + |s|..])
  {
    for i := 0 to |s|
      invariant buf[..] == old(buf[..at]) + s[..i] + old(buf[at + i..])
    {
      buf[at + i] := s[i];
    }
    assert s[..|s|] == s;
  }

  /** PutUint16(buf[at:], uint16(len(s))) and the copy behind it. */
  method WriteField(buf: array<byte>, at: nat, s: seq<byte>)
    requires at + 2 + |s| <= buf.Length
    modifies buf
    ensures buf[..] == old(buf[..at]) + Field(s) + old(buf[at + 2 + |s|..])
  {
    Copy(buf, at, PutU16(|s| % 0x1_0000));
    Copy(buf, at + 2, s);
  }

  method BuildUDPMessage(msgType: byte, key: seq<byte>, id: seq<byte>, payload: seq<byte>) returns (buf: array<byte>)
    ensures fresh(buf) && buf[..] == Message(msgType, key, id, payload)
  {
    hide Field, Message;
    var total := 1 + 2 + |key|;
    if msgType != HANDSHAKE { total := total + 2 + |id|; }
    total := total + |payload|;
    buf := new byte[total];
    buf[0] := msgType;
    assert buf[..1] == [msgType];
    WriteField(buf, 1, key);
    var offset := 3 + |key|;
    assert buf[..offset] == [msgType] + Field(key);
    if msgType != HANDSHAKE {
      WriteField(buf, offset, id);
      offset := offset + 2 + |id|;
      assert buf[..offset] == [msgType] + Field(key) + Field(id);
    }
    ghost var front := buf[..offset];
    Copy(buf, offset, payload);
    assert buf[..] == front + payload;
    Assembled(msgType, key, id, payload, front);
  }

  lemma Assembled(msgType: byte, key: seq<byte>, id: seq<byte>, payload: seq<byte>, front: seq<byte>)
    requires front == if msgType == HANDSHAKE then [msgType] + Field(key) else [msgType] + Field(key) + Field(id)
    ensures front + payload == Message(msgType, key, id, payload)
  {}

  // ------------------------------------------------------------------
  // Decoding
  // ------------------------------------------------------------------

  /** The field at an offset and the offset behind it. Every read is inside the packet. */
  function DecodeField(packet: seq<byte>, offset: nat): (r: Option<(seq<byte>, nat)>)
    ensures r.Some? ==> offset + 2 <= r.value.1 <= |packet| && packet[offset + 2..r.value.1] == r.value.0
    ensures r.None? <==> offset + 2 > |packet| || offset + 2 + GetU16(packet[offset..]) > |packet|
  {
    if offset + 2 > |packet| then None
    else
      var l: int := GetU16(packet[offset..offset + 2]);
      if offset + 2 + l > |packet| then None
      else Some((packet[offset + 2..offset + 2 + l], offset + 2 + l))
  }

  /** What handleUDPControlPacket does with a packet. */
  datatype Action =
    | Ignored
    | Deliver(id: seq<byte>, payload: seq<byte>)
    | CloseSession(id: seq<byte>)
    | Ready
    | Ponged(payload: seq<byte>)
    | AnswerPing(payload: seq<byte>)

  method HandleUDPControlPacket(packet: seq<byte>, ownKey: seq<byte>) returns (action: Action)
    ensures action == Dispatch(packet, ownKey)
  {
    if |packet| < 3 { return Ignored; }
    hide Cut;
    var msgType := packet[0];
    var key := DecodeField(packet, 1);
    CutAt(packet, 1);
    if key.None? || key.value.0 == [] || key.value.0 != ownKey { return Ignored; }
    var idx := key.value.1;
    CutAt(packet, idx);
    if msgType == DATA {
      var id := DecodeField(packet, idx);
      if id.None? || id.value.0 == [] { return Ignored; }
      return Deliver(id.value.0, packet[id.value.1..]);
    } else if msgType == CLOSE {
      var id := DecodeField(packet, idx);
      if id.None? || id.value.0 == [] { return Ignored; }
      return CloseSession(id.value.0);
    } else if msgType == HANDSHAKE {
      return Ready;
    } else if msgType == PONG {
      var id := DecodeField(packet, idx);
      if id.None? { return Ignored; }
      return Ponged(packet[id.value.1..]);
    } else if msgType == PING {
      var id := DecodeField(packet, idx);
      if id.None? { return Ignored; }
      return AnswerPing(packet[id.value.1..]);
    }
    return Ignored;
  }

  /** Decoding at an offset is cutting the front of what starts there. */
  lemma CutAt(packet: seq<byte>, offset: nat)
    requires offset <= |packet|
    ensures match DecodeField(packet, offset)
            case None => Cut(packet[offset..]) == None
            case Some((s, next)) => next <= |packet| && Cut(packet[offset..]) == Some((s, packet[next..]))
  {
    var s := packet[offset..];
    if |s| >= 2 {
      assert packet[offset..offset + 2] == s[..2];
      if 2 + GetU16(s) <= |s| {
        assert s[2..2 + GetU16(s)] == packet[offset + 2..offset + 2 + GetU16(s)];
        assert s[2 + GetU16(s)..] == packet[offset + 2 + GetU16(s)..];
      }
    }
  }

  /** The body behind the key: an optional id and what follows it. */
  function Interpret(msgType: byte, rest: Option<(seq<byte>, seq<byte>)>): Action {
    if msgType == HANDSHAKE then Ready
    else
      match rest
      case None => Ignored
      case Some((id, payload)) =>
        if msgType == DATA && id != [] then Deliver(id, payload)
        else if msgType == CLOSE && id != [] then CloseSession(id)
        else if msgType == PONG then Ponged(payload)
        else if msgType == PING then AnswerPing(payload)
        else Ignored
  }

  /** Take one field off the front. */
  function Cut(s: seq<byte>): Option<(seq<byte>, seq<byte>)> {
    if |s| < 2 || 2 + GetU16(s) > |s| then None
    else Some((s[2..2 + GetU16(s)], s[2 + GetU16(s)..]))
  }

  function Dispatch(packet: seq<byte>, ownKey: seq<byte>): Action {
    if packet == [] then Ignored
    else
      match Cut(packet[1..])
      case None => Ignored
      case Some((key, rest)) => if key == [] || key != ownKey then Ignored else Interpret(packet[0], Cut(rest))
  }

  // ------------------------------------------------------------------
  // Round trips
  // ------------------------------------------------------------------

  /** A field comes back, with what follows it, exactly when its length fits in 16 bits. */
  lemma FieldRoundTrip(s: seq<byte>, rest: seq<byte>)
    ensures Cut(Field(s) + rest) == Some((s, rest)) <==> |s| < 0x1_0000
    ensures Cut(Field(s) + rest).Some?
  {
    var data, n := Field(s) + rest, |s| % 0x1_0000;
    assert data == PutU16(n) + (s + rest);
    GetPut16(n, s + rest);
    assert n <= |s|;
    if |s| < 0x1_0000 {
      assert data[2..2 + |s|] == s && data[2 + |s|..] == rest;
    }
  }

  /** The type, key, id and payload carried by a message, in order. */
  function Parts(packet: seq<byte>): Option<(byte, seq<byte>, seq<byte>, seq<byte>)> {
    if packet == [] then None
    else
      match Cut(packet[1..])
      case None => None
      case Some((key, rest)) =>
        if packet[0] == HANDSHAKE then Some((packet[0], key, [], rest))
        else
          match Cut(rest)
          case None => None
          case Some((id, payload)) => Some((packet[0], key, id, payload))
  }

  /** A built message decodes to its parts if and only if its fields are shorter
      than 65536 bytes; a handshake carries no id. */
  lemma MessageRoundTrip(msgType: byte, key: seq<byte>, id: seq<byte>, payload: seq<byte>)
    ensures Parts(Message(msgType, key, id, payload)) ==
            Some((msgType, key, if msgType == 1 then [] else id, payload))
            <==> |key| < 65536 && (msgType == 1 || |id| < 65536)
  {
    hide Message, Tail, Field, Cut, Parts;
    var packet, tail := Message(msgType, key, id, payload), Tail(msgType, id, payload);
    MessageFront(msgType, key, id, payload);
    TailCut(msgType, id, payload);
    if |key| < 0x1_0000 {
      FieldRoundTrip(key, tail);
      PartsOf(packet, key, tail);
    } else {
      ShortKey(key, tail);
      WrongKey(packet, key);
    }
  }

  lemma TailCut(msgType: byte, id: seq<byte>, payload: seq<byte>)
    ensures msgType == HANDSHAKE ==> Tail(msgType, id, payload) == payload
    ensures msgType != HANDSHAKE ==>
              && Cut(Tail(msgType, id, payload)).Some?
              && (Cut(Tail(msgType, id, payload)) == Some((id, payload)) <==> |id| < 0x1_0000)
  {
    hide Field, Cut;
    FieldRoundTrip(id, payload);
  }

  lemma PartsOf(packet: seq<byte>, key: seq<byte>, tail: seq<byte>)
    requires packet != [] && Cut(packet[1..]) == Some((key, tail))
    ensures Parts(packet) ==
            if packet[0] == HANDSHAKE then Some((packet[0], key, [], tail))
            else if Cut(tail).None? then None
            else Some((packet[0], key, Cut(tail).value.0, Cut(tail).value.1))
  {}

  lemma WrongKey(packet: seq<byte>, key: seq<byte>)
    requires packet != [] && Cut(packet[1..]).Some? && Cut(packet[1..]).value.0 != key
    ensures Parts(packet).Some? ==> Parts(packet).value.1 != key
  {}

  /** A key that is too long comes back cut. */
  lemma ShortKey(key: seq<byte>, tail: seq<byte>)
    requires |key| >= 0x1_0000
    ensures Cut(Field(key) + tail).Some? && Cut(Field(key) + tail).value.0 != key
  {
    var n := |key| % 0x1_0000;
    assert Field(key) + tail == PutU16(n) + (key + tail);
    GetPut16(n, key + tail);
  }

  /** Short messages, byte by byte: lengths are big-endian, and the handshake (type 1)
      has no id. */
  lemma MessageLayout(msgType: byte, key: seq<byte>, id: seq<byte>, payload: seq<byte>)
    requires |key| < 256 && |id| < 256
    ensures Message(msgType, key, id, payload) ==
            [msgType, 0, |key|] + key + (if msgType == 1 then [] else [0, |id|] + id) + payload
  {
    FieldLayout(key);
    FieldLayout(id);
    hide Field;
    var k, i := [0, |key|] + key, [0, |id|] + id;
    assert Field(key) == k && Field(id) == i;
    assert Message(msgType, key, id, payload) == [msgType] + k + (if msgType == 1 then payload else i + payload);
    hide Message;
    Regroup(msgType, 0, |key|, key, i, payload);
  }

  lemma Regroup(t: byte, a: byte, b: byte, key: seq<byte>, i: seq<byte>, payload: seq<byte>)
    ensures [t] + ([a, b] + key) == [t, a, b] + key
    ensures [t] + ([a, b] + key) + (i + payload) == [t, a, b] + key + i + payload
    ensures [t] + ([a, b] + key) + payload == [t, a, b] + key + [] + payload
  {}

  /** The length of any field, by its two bytes. */
  lemma FieldLayout(s: seq<byte>)
    ensures Field(s) == [|s| / 256 % 256, |s| % 256] + s
  {
    assert |s| % 0x1_0000 / 0x100 == |s| / 256 % 256 && |s| % 0x1_0000 % 0x100 == |s| % 256;
  }

  /** A key of 65536 zero bytes is written with length 0 and read as three other parts. */
  lemma LongKeyExample(zero: seq<byte>)
    requires |zero| == 0x1_0000 && forall i :: 0 <= i < |zero| ==> zero[i] == 0
    ensures Parts(Message(DATA, zero, [], [])) == Some((DATA, [], [], zero[2..] + [0, 0]))
  {
    var packet, rest := Message(DATA, zero, [], []), zero + Field([]);
    assert Field([]) == [0, 0] && Field(zero) == [0, 0] + zero;
    assert packet[1..] == [0, 0] + rest;
    hide Message, Field;
    CutZero(rest);
    assert rest == [0, 0] + (zero[2..] + [0, 0]);
    CutZero(zero[2..] + [0, 0]);
  }

  lemma CutZero(rest: seq<byte>)
    ensures Cut([0, 0] + rest) == Some(([], rest))
  {
    var s: seq<byte> := [0, 0] + rest;
    assert s[2..2] == [] && s[2..] == rest;
  }

  /** Different messages have different bytes. */
  lemma MessageInjective(t: byte, k: seq<byte>, i: seq<byte>, p: seq<byte>,
                         u: byte, l: seq<byte>, j: seq<byte>, q: seq<byte>)
    requires |k| < 0x1_0000 && |l| < 0x1_0000
    requires (t != HANDSHAKE ==> |i| < 0x1_0000) && (u != HANDSHAKE ==> |j| < 0x1_0000)
    requires Message(t, k, i, p) == Message(u, l, j, q)
    ensures t == u && k == l && p == q && (t != HANDSHAKE ==> i == j)
  {
    MessageRoundTrip(t, k, i, p);
    MessageRoundTrip(u, l, j, q);
  }

  /** What the peer does with a built message: nothing unless it shares the key and
      the key is not empty; otherwise what the message says. */
  lemma DispatchOfMessage(msgType: byte, key: seq<byte>, id: seq<byte>, payload: seq<byte>, ownKey: seq<byte>)
    requires |key| < 0x1_0000 && (msgType != 1 ==> |id| < 0x1_0000)
    ensures Dispatch(Message(msgType, key, id, payload), ownKey) ==
            if key == [] || key != ownKey then Ignored
            else if msgType == 1 then Ready
            else if msgType == 2 && id != [] then Deliver(id, payload)
            else if msgType == 3 && id != [] then CloseSession(id)
            else if msgType == 4 then AnswerPing(payload)
            else if msgType == 5 then Ponged(payload)
            else Ignored
  {
    hide Field, Cut, Message, Tail;
    MessageFront(msgType, key, id, payload);
    TailCut(msgType, id, payload);
    FieldRoundTrip(key, Tail(msgType, id, payload));
  }

  lemma CutInverse(s: seq<byte>)
    requires Cut(s).Some?
    ensures |Cut(s).value.0| < 0x1_0000 && s == Field(Cut(s).value.0) + Cut(s).value.1
  {
    var n := GetU16(s);
    PutGet16(s);
    assert s == s[..2] + s[2..2 + n] + s[2 + n..];
  }

  /** Any packet the peer acts on is a built message under its own key. */
  lemma OnlyMessagesAct(packet: seq<byte>, ownKey: seq<byte>) returns (id: seq<byte>, payload: seq<byte>)
    requires Dispatch(packet, ownKey) != Ignored
    ensures packet != [] && ownKey != [] && |ownKey| < 0x1_0000 && |id| < 0x1_0000
    ensures packet == Message(packet[0], ownKey, id, payload)
  {
    DispatchSays(packet, ownKey);
    hide *;
    var rest := Cut(packet[1..]).value.1;
    CutInverse(packet[1..]);
    id, payload := [], rest;
    if packet[0] != 1 {
      CutInverse(rest);
      id, payload := Cut(rest).value.0, Cut(rest).value.1;
    }
    assert packet == [packet[0]] + packet[1..];
    Wrapped(packet[0], ownKey, id, payload, rest);
  }

  lemma DispatchSays(packet: seq<byte>, ownKey: seq<byte>)
    requires Dispatch(packet, ownKey) != Ignored
    ensures packet != [] && ownKey != [] && Cut(packet[1..]).Some? && Cut(packet[1..]).value.0 == ownKey
    ensures packet[0] != 1 ==> Cut(Cut(packet[1..]).value.1).Some?
  {
    hide Cut;
  }

  lemma Wrapped(msgType: byte, key: seq<byte>, id: seq<byte>, payload: seq<byte>, rest: seq<byte>)
    requires rest == if msgType == 1 then payload else Field(id) + payload
    ensures [msgType] + (Field(key) + rest) == Message(msgType, key, id, payload)
  {
    hide Field;
  }
}
