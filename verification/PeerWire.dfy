/**
  Peer messages on the wire: the "peer messages" of BEP 3, the port message of BEP 5 and the
  messages of BEP 6 (crates/librtbit-peer-protocol/src/lib.rs). This module says what the
  bytes of a message are and what a contiguous buffer decodes to; module PeerCodec holds the
  two-slice cursor and the encoder.
 */
module PeerWire {
  import opened Octets
  import opened Net
  import opened Numbers

  type U32 = x: int | 0 <= x < U32_RANGE
  type U16 = x: int | 0 <= x < 0x1_0000

  datatype BlockRequest = BlockRequest(index: U32, begin: U32, length: U32)

  /** A message other than an extended one; a piece's block comes in two slices. */
  datatype Message =
    | Request(request: BlockRequest)
    | Cancel(request: BlockRequest)
    | RejectRequest(request: BlockRequest)
    | Bitfield(bits: Bytes)
    | KeepAlive
    | Have(piece: U32)
    | Choke
    | Unchoke
    | Interested
    | NotInterested
    | Port(port: U16)
    | SuggestPiece(piece: U32)
    | HaveAll
    | HaveNone
    | AllowedFast(piece: U32)
    | Piece(index: U32, begin: U32, block0: Bytes, block1: Bytes)

  datatype DecodeError =
    | NotEnoughData(missing: nat, seenId: Option<Byte>)
    | NeedContiguous
    | UnsupportedMessageId(msgId: Byte)
    | IncorrectMsgLen(received: nat, expected: nat, msgId: Byte)

  /** A decoded message and its length, an error, or the payload of an extended message. */
  datatype Decoded =
    | Ok(message: Message, length: nat)
    | Err(error: DecodeError)
    | Extended(payload: Bytes, length: nat)

  // ---------- Integers ----------

  function Be32(x: U32): (b: Bytes)
    ensures |b| == 4
  {
    [x / 256 / 256 / 256, x / 256 / 256 % 256, x / 256 % 256, x % 256]
  }

  function ReadBe32(b: Bytes): (x: U32)
    requires |b| == 4
  {
    256 * (256 * (256 * (b[0] as int) + b[1] as int) + b[2] as int) + b[3] as int
  }

  function Be16(x: U16): (b: Bytes)
    ensures |b| == 2
  {
    [x / 256, x % 256]
  }

  function ReadBe16(b: Bytes): (x: U16)
    requires |b| == 2
  {
    256 * (b[0] as int) + b[1] as int
  }

  lemma Be32RoundTrip(x: U32)
    ensures ReadBe32(Be32(x)) == x
  {
  }

  lemma Be16RoundTrip(x: U16)
    ensures ReadBe16(Be16(x)) == x
  {
  }

  // ---------- Encoding ----------

  const CHOKE: Byte := 0
  const UNCHOKE: Byte := 1
  const INTERESTED: Byte := 2
  const NOT_INTERESTED: Byte := 3
  const HAVE: Byte := 4
  const BITFIELD: Byte := 5
  const REQUEST: Byte := 6
  const PIECE: Byte := 7
  const CANCEL: Byte := 8
  const PORT: Byte := 9
  const SUGGEST_PIECE: Byte := 13
  const HAVE_ALL: Byte := 14
  const HAVE_NONE: Byte := 15
  const REJECT_REQUEST: Byte := 16
  const ALLOWED_FAST: Byte := 17
  const EXTENDED: Byte := 20

  function MsgId(m: Message): Byte
    requires !m.KeepAlive?
  {
    match m
    case Request(_) => REQUEST
    case Cancel(_) => CANCEL
    case RejectRequest(_) => REJECT_REQUEST
    case Bitfield(_) => BITFIELD
    case Have(_) => HAVE
    case Choke => CHOKE
    case Unchoke => UNCHOKE
    case Interested => INTERESTED
    case NotInterested => NOT_INTERESTED
    case Port(_) => PORT
    case SuggestPiece(_) => SUGGEST_PIECE
    case HaveAll => HAVE_ALL
    case HaveNone => HAVE_NONE
    case AllowedFast(_) => ALLOWED_FAST
    case Piece(_, _, _, _) => PIECE
  }

  function RequestBytes(r: BlockRequest): (b: Bytes)
    ensures |b| == 12
  {
    Be32(r.index) + Be32(r.begin) + Be32(r.length)
  }

  function Payload(m: Message): Bytes
    requires !m.KeepAlive?
  {
    match m
    case Request(r) => RequestBytes(r)
    case Cancel(r) => RequestBytes(r)
    case RejectRequest(r) => RequestBytes(r)
    case Bitfield(bits) => bits
    case Have(piece) => Be32(piece)
    case Port(port) => Be16(port)
    case SuggestPiece(piece) => Be32(piece)
    case AllowedFast(piece) => Be32(piece)
    case Piece(index, begin, block0, block1) => Be32(index) + Be32(begin) + (block0 + block1)
    case _ => []
  }

  /** The payload length as 32 bits, plus one for the message id, as 32 bits. */
  function LengthPrefix(payloadLen: nat): U32 {
    (payloadLen % U32_RANGE + 1) % U32_RANGE
  }

  function Encode(m: Message): Bytes {
    if m.KeepAlive? then Be32(0)
    else Be32(LengthPrefix(|Payload(m)|)) + [MsgId(m)] + Payload(m)
  }

  // ---------- Decoding ----------

  function Exactly(n: nat, m: Message, id: Byte, payload: Bytes): Decoded {
    if |payload| == n then Ok(m, 5 + n) else Err(IncorrectMsgLen(|payload|, n, id))
  }

  function DecodeRequest(payload: Bytes): BlockRequest
    requires |payload| == 12
  {
    BlockRequest(ReadBe32(payload[..4]), ReadBe32(payload[4..8]), ReadBe32(payload[8..]))
  }

  /** The meaning of a complete message body. */
  function DecodeBody(id: Byte, payload: Bytes): Decoded {
    var n := |payload|;
    if id == CHOKE then Exactly(0, Choke, id, payload)
    else if id == UNCHOKE then Exactly(0, Unchoke, id, payload)
    else if id == INTERESTED then Exactly(0, Interested, id, payload)
    else if id == NOT_INTERESTED then Exactly(0, NotInterested, id, payload)
    else if id == HAVE_ALL then Exactly(0, HaveAll, id, payload)
    else if id == HAVE_NONE then Exactly(0, HaveNone, id, payload)
    else if id == HAVE then
      if n != 4 then Err(IncorrectMsgLen(n, 4, id)) else Ok(Have(ReadBe32(payload)), 9)
    else if id == SUGGEST_PIECE then
      if n != 4 then Err(IncorrectMsgLen(n, 4, id)) else Ok(SuggestPiece(ReadBe32(payload)), 9)
    else if id == ALLOWED_FAST then
      if n != 4 then Err(IncorrectMsgLen(n, 4, id)) else Ok(AllowedFast(ReadBe32(payload)), 9)
    else if id == PORT then
      if n != 2 then Err(IncorrectMsgLen(n, 2, id)) else Ok(Port(ReadBe16(payload)), 7)
    else if id == BITFIELD then
      if n < 1 then Err(IncorrectMsgLen(n, 1, id)) else Ok(Bitfield(payload), 5 + n)
    else if id == REQUEST then
      if n != 12 then Err(IncorrectMsgLen(n, 12, id)) else Ok(Request(DecodeRequest(payload)), 17)
    else if id == CANCEL then
      if n != 12 then Err(IncorrectMsgLen(n, 12, id)) else Ok(Cancel(DecodeRequest(payload)), 17)
    else if id == REJECT_REQUEST then
      if n != 12 then Err(IncorrectMsgLen(n, 12, id)) else Ok(RejectRequest(DecodeRequest(payload)), 17)
    else if id == PIECE then
      if n < 9 then Err(IncorrectMsgLen(n, 9, id))
      else Ok(Piece(ReadBe32(payload[..4]), ReadBe32(payload[4..8]), payload[8..], []), 5 + n)
    else if id == EXTENDED then Extended(payload, 5 + n)
    else Err(UnsupportedMessageId(id))
  }

  function Decode(b: Bytes): Decoded {
    if |b| < 4 then Err(NotEnoughData(4 - |b|, None))
    else
      var len := ReadBe32(b[..4]);
      if len == 0 then Ok(KeepAlive, 4)
      else if |b| < 5 then Err(NotEnoughData(len, None))
      else if |b| < 4 + len then Err(NotEnoughData(4 + len - |b|, Some(b[4])))
      else DecodeBody(b[4], b[5..4 + len])
  }

  // ---------- Round trips ----------

  /** The same message with a piece's block in one slice. */
  function Normal(m: Message): Message {
    if m.Piece? then Piece(m.index, m.begin, m.block0 + m.block1, []) else m
  }

  /** Messages the decoder accepts: bitfields and blocks are not empty and fit the length prefix. */
  predicate Sendable(m: Message) {
    match m
    case Bitfield(bits) => 1 <= |bits| <= U32_RANGE - 2
    case Piece(_, _, block0, block1) => 1 <= |block0| + |block1| <= U32_RANGE - 10
    case _ => true
  }

  lemma DecodeFramed(id: Byte, payload: Bytes, rest: Bytes)
    requires |payload| <= U32_RANGE - 2
    ensures Decode(Be32(LengthPrefix(|payload|)) + [id] + payload + rest) == DecodeBody(id, payload)
  {
    var len := LengthPrefix(|payload|);
    Be32RoundTrip(len);
    DecodeParts(Be32(len), id, payload, rest);
  }

  lemma DecodeParts(p: Bytes, id: Byte, payload: Bytes, rest: Bytes)
    requires |p| == 4 && ReadBe32(p) == |payload| + 1
    ensures Decode(p + [id] + payload + rest) == DecodeBody(id, payload)
  {
    var b := p + [id] + payload + rest;
    assert b[..4] == p && b[4] == id && b[5..5 + |payload|] == payload;
  }

  lemma RequestRoundTrip(r: BlockRequest)
    ensures DecodeRequest(RequestBytes(r)) == r
  {
    var b := RequestBytes(r);
    assert b[..4] == Be32(r.index) && b[4..8] == Be32(r.begin) && b[8..] == Be32(r.length);
    Be32RoundTrip(r.index);
    Be32RoundTrip(r.begin);
    Be32RoundTrip(r.length);
  }

  lemma BodyRoundTrip(m: Message)
    requires !m.KeepAlive? && Sendable(m)
    ensures DecodeBody(MsgId(m), Payload(m)) == Ok(Normal(m), 5 + |Payload(m)|)
  {
    match m {
      case Request(r) => RequestRoundTrip(r);
      case Cancel(r) => RequestRoundTrip(r);
      case RejectRequest(r) => RequestRoundTrip(r);
      case Have(piece) => Be32RoundTrip(piece);
      case SuggestPiece(piece) => Be32RoundTrip(piece);
      case AllowedFast(piece) => Be32RoundTrip(piece);
      case Port(port) => Be16RoundTrip(port);
      case Piece(index, begin, block0, block1) =>
        var b := Payload(m);
        assert b[..4] == Be32(index) && b[4..8] == Be32(begin) && b[8..] == block0 + block1;
        Be32RoundTrip(index);
        Be32RoundTrip(begin);
      case _ =>
    }
  }

  /** A decoded message takes what its length prefix says, which is part of the buffer. */
  lemma DecodeLength(b: Bytes)
    ensures Decode(b).Ok? ==> 4 <= Decode(b).length <= |b| && Decode(b).length == 4 + ReadBe32(b[..4])
  {
  }

  /** Decoding gives an encoded message back, whatever follows it, exactly for the sendable ones. */
  lemma RoundTripIff(m: Message, rest: Bytes)
    ensures Decode(Encode(m) + rest) == Ok(Normal(m), |Encode(m)|) <==> Sendable(m)
  {
    var b := Encode(m) + rest;
    if m.KeepAlive? {
      Be32RoundTrip(0);
      assert b[..4] == Be32(0);
    } else if |Payload(m)| <= U32_RANGE - 2 {
      DecodeFramed(MsgId(m), Payload(m), rest);
      if Sendable(m) { BodyRoundTrip(m); }
    } else {
      DecodeLength(b);
      assert |Encode(m)| == 5 + |Payload(m)|;
    }
  }

  /** A message cut short: how many bytes are asked for, and how many are missing. */
  lemma CutShort(m: Message, k: nat)
    requires Sendable(m) && k < |Encode(m)|
    ensures var r := Decode(Encode(m)[..k]);
            && r.Err? && r.error.NotEnoughData?
            && 0 < r.error.missing <= |Encode(m)| - k
            && (k >= 4 ==> r.error.missing == |Encode(m)| - k)
  {
    if m.KeepAlive? {
      assert Encode(m)[..k] == Be32(0)[..k];
    } else {
      CutFrame(MsgId(m), Payload(m), k);
    }
  }

  lemma CutFrame(id: Byte, payload: Bytes, k: nat)
    requires |payload| <= U32_RANGE - 2 && k < 5 + |payload|
    ensures var r := Decode((Be32(LengthPrefix(|payload|)) + [id] + payload)[..k]);
            && r.Err? && r.error.NotEnoughData?
            && 0 < r.error.missing <= 5 + |payload| - k
            && (k >= 4 ==> r.error.missing == 5 + |payload| - k)
  {
    var len := LengthPrefix(|payload|);
    Be32RoundTrip(len);
    CutParts(Be32(len), [id] + payload, k);
    assert Be32(len) + [id] + payload == Be32(len) + ([id] + payload);
  }

  lemma CutParts(p: Bytes, body: Bytes, k: nat)
    requires |p| == 4 && ReadBe32(p) == |body| > 0 && k < 4 + |body|
    ensures var r := Decode((p + body)[..k]);
            && r.Err? && r.error.NotEnoughData?
            && 0 < r.error.missing <= 4 + |body| - k
            && (k >= 4 ==> r.error.missing == 4 + |body| - k)
  {
    var b := (p + body)[..k];
    if k >= 4 { assert b[..4] == p; }
  }

  // ---------- Streams ----------

  function EncodeAll(ms: seq<Message>): Bytes {
    if ms == [] then [] else Encode(ms[0]) + EncodeAll(ms[1..])
  }

  /** Decodes message after message until the buffer no longer starts with one. */
  function DecodeAll(b: Bytes): seq<(Message, nat)> {
    var r := Decode(b);
    DecodeLength(b);
    if r.Ok? then [(r.message, r.length)] + DecodeAll(b[r.length..]) else []
  }

  /** The messages with their encoded lengths. */
  function Frames(ms: seq<Message>): seq<(Message, nat)> {
    if ms == [] then [] else [(Normal(ms[0]), |Encode(ms[0])|)] + Frames(ms[1..])
  }

  lemma DecodeAllStep(b: Bytes, m: Message, n: nat, rest: Bytes, r: seq<(Message, nat)>)
    requires Decode(b) == Ok(m, n) && n <= |b| && b[n..] == rest && DecodeAll(rest) == r
    ensures DecodeAll(b) == [(m, n)] + r
  {
  }

  /** The buffer comes apart into these messages, with these lengths. */
  ghost predicate ComesApart(b: Bytes, r: seq<(Message, nat)>) {
    DecodeAll(b) == r
  }

  lemma StreamStep(m: Message, rest: Bytes, r: seq<(Message, nat)>)
    requires Sendable(m) && ComesApart(rest, r)
    ensures ComesApart(Encode(m) + rest, [(Normal(m), |Encode(m)|)] + r)
  {
    RoundTripIff(m, rest);
    DecodeAllStep(Encode(m) + rest, Normal(m), |Encode(m)|, rest, r);
  }

  /** A stream of messages comes apart into these messages, each with its own length. */
  lemma {:induction false} StreamRoundTrip(ms: seq<Message>, tail: Bytes, r: seq<(Message, nat)>)
    requires (forall m :: m in ms ==> Sendable(m)) && ComesApart(tail, r)
    ensures ComesApart(EncodeAll(ms) + tail, Frames(ms) + r)
  {
    if ms == [] {
      assert EncodeAll(ms) + tail == tail && Frames(ms) + r == r;
    } else {
      var rest := EncodeAll(ms[1..]) + tail;
      StreamRoundTrip(ms[1..], tail, r);
      StreamStep(ms[0], rest, Frames(ms[1..]) + r);
      EncodeAllStep(ms, tail);
      FramesStep(ms, r);
    }
  }

  lemma FramesStep(ms: seq<Message>, r: seq<(Message, nat)>)
    requires ms != []
    ensures Frames(ms) + r == [(Normal(ms[0]), |Encode(ms[0])|)] + (Frames(ms[1..]) + r)
  {
  }

  lemma EncodeAllStep(ms: seq<Message>, tail: Bytes)
    requires ms != []
    ensures EncodeAll(ms) + tail == Encode(ms[0]) + (EncodeAll(ms[1..]) + tail)
  {
  }

  // ---------- The preamble of a piece ----------

  /** What is written before a block that is sent from elsewhere: 1 + 8 + size, in 32 bits, and the rest. */
  function PiecePreamble(index: U32, offset: U32, size: U32): Bytes {
    Be32((9 + size as int) % U32_RANGE) + [PIECE] + Be32(index) + Be32(offset)
  }

  lemma PreambleMatches(index: U32, offset: U32, block: Bytes)
    requires |block| < U32_RANGE
    ensures PiecePreamble(index, offset, |block|) + block == Encode(Piece(index, offset, block, []))
  {
    assert (9 + |block|) % U32_RANGE == LengthPrefix(8 + |block|);
    assert block + [] == block;
  }
}
