/**
  Peer messages byte by byte, as the "peer messages" of BEP 3, the port message of BEP 5 and the
  messages of BEP 6 lay them out, and that crates/librtbit-peer-protocol/src/lib.rs reads and
  writes just these bytes.
 */
module WireFormats {
  import opened Octets
  import opened Ids
  import opened Net
  import opened PeerWire

  /** Bytes 5 to 16 are index, begin and length, four bytes each. */
  ghost predicate IsBlockRequest(b: Bytes, r: BlockRequest) {
    |b| == 17 && Val(b[5..9]) == r.index && Val(b[9..13]) == r.begin && Val(b[13..17]) == r.length
  }

  /** Bytes 5 to 8 are the number of a piece. */
  ghost predicate IsPieceNumber(b: Bytes, piece: nat) {
    |b| == 9 && Val(b[5..9]) == piece
  }

  /** Byte 4 is the kind of the message; what follows depends on it. */
  ghost predicate HasBody(b: Bytes, m: Message)
    requires |b| >= 5
  {
    match m
    case KeepAlive => false
    case Choke => b[4] == 0 && |b| == 5
    case Unchoke => b[4] == 1 && |b| == 5
    case Interested => b[4] == 2 && |b| == 5
    case NotInterested => b[4] == 3 && |b| == 5
    case Have(piece) => b[4] == 4 && IsPieceNumber(b, piece)
    case Bitfield(bits) => b[4] == 5 && b[5..] == bits != []
    case Request(r) => b[4] == 6 && IsBlockRequest(b, r)
    case Piece(index, begin, block0, block1) =>
      && b[4] == 7 && |b| > 13 && Val(b[5..9]) == index && Val(b[9..13]) == begin
      && b[13..] == block0 + block1
    case Cancel(r) => b[4] == 8 && IsBlockRequest(b, r)
    case Port(port) => b[4] == 9 && |b| == 7 && Val(b[5..7]) == port
    case SuggestPiece(piece) => b[4] == 13 && IsPieceNumber(b, piece)
    case HaveAll => b[4] == 14 && |b| == 5
    case HaveNone => b[4] == 15 && |b| == 5
    case RejectRequest(r) => b[4] == 16 && IsBlockRequest(b, r)
    case AllowedFast(piece) => b[4] == 17 && IsPieceNumber(b, piece)
  }

  /** Bytes 0 to 3 say how many follow; a message without any is a keep-alive. */
  ghost predicate IsMessage(b: Bytes, m: Message) {
    |b| >= 4 && Val(b[..4]) == |b| - 4 && if |b| == 4 then m.KeepAlive? else HasBody(b, m)
  }

  /** The slices that a piece's block comes in do not show. */
  lemma NormalIsMessage(b: Bytes, m: Message)
    ensures IsMessage(b, Normal(m)) <==> IsMessage(b, m)
  {
    if m.Piece? { assert (m.block0 + m.block1) + [] == m.block0 + m.block1; }
  }

  // ---------- Big-endian integers ----------

  lemma Val1(b: Bytes)
    requires |b| == 1
    ensures Val(b) == b[0]
  {
    assert Val(b[..0]) == 0;
  }

  lemma Val2(b: Bytes)
    requires |b| == 2
    ensures Val(b) == ReadBe16(b)
  {
    Val1(b[..1]);
  }

  lemma Val3(b: Bytes)
    requires |b| == 3
    ensures Val(b) == 256 * (256 * (b[0] as int) + b[1] as int) + b[2] as int
  {
    Val2(b[..2]);
  }

  lemma Val4(b: Bytes)
    requires |b| == 4
    ensures Val(b) == ReadBe32(b)
  {
    Val3(b[..3]);
  }

  lemma Val4Bound(b: Bytes)
    requires |b| == 4
    ensures Val(b) < 0x1_0000_0000
  {
    Val4(b);
  }

  // ---------- Encoding ----------

  lemma RequestLaidOut(b: Bytes, p: Bytes, r: BlockRequest)
    requires |p| == 5 && b == p + RequestBytes(r)
    ensures IsBlockRequest(b, r)
  {
    assert b[5..9] == Be32(r.index) && b[9..13] == Be32(r.begin) && b[13..17] == Be32(r.length);
    NumberWritten(r.index);
    NumberWritten(r.begin);
    NumberWritten(r.length);
  }

  lemma NumberWritten(x: U32)
    ensures Val(Be32(x)) == x
  {
    Val4(Be32(x));
    Be32RoundTrip(x);
  }

  lemma PieceNumberLaidOut(b: Bytes, p: Bytes, piece: U32)
    requires |p| == 5 && b == p + Be32(piece)
    ensures IsPieceNumber(b, piece)
  {
    assert b[5..9] == Be32(piece);
    NumberWritten(piece);
  }

  lemma PortLaidOut(b: Bytes, p: Bytes, port: U16)
    requires |p| == 5 && b == p + Be16(port)
    ensures |b| == 7 && Val(b[5..7]) == port
  {
    assert b[5..7] == Be16(port);
    Val2(Be16(port));
    Be16RoundTrip(port);
  }

  lemma PieceLaidOut(b: Bytes, p: Bytes, index: U32, begin: U32, block: Bytes)
    requires |p| == 5 && b == p + (Be32(index) + Be32(begin) + block)
    ensures |b| == 13 + |block| && Val(b[5..9]) == index && Val(b[9..13]) == begin && b[13..] == block
  {
    assert b[5..9] == Be32(index) && b[9..13] == Be32(begin);
    NumberWritten(index);
    NumberWritten(begin);
  }

  lemma BodyLaidOut(b: Bytes, p: Bytes, m: Message)
    requires !m.KeepAlive? && Sendable(m) && |p| == 5 && p[4] == MsgId(m) && b == p + Payload(m)
    ensures HasBody(b, m)
  {
    match m {
      case Request(r) => RequestLaidOut(b, p, r);
      case Cancel(r) => RequestLaidOut(b, p, r);
      case RejectRequest(r) => RequestLaidOut(b, p, r);
      case Have(piece) => PieceNumberLaidOut(b, p, piece);
      case SuggestPiece(piece) => PieceNumberLaidOut(b, p, piece);
      case AllowedFast(piece) => PieceNumberLaidOut(b, p, piece);
      case Port(port) => PortLaidOut(b, p, port);
      case Piece(index, begin, block0, block1) => PieceLaidOut(b, p, index, begin, block0 + block1);
      case Bitfield(bits) => assert b[5..] == bits;
      case _ =>
    }
  }

  lemma PrefixWritten(m: Message, b: Bytes, n: nat)
    requires !m.KeepAlive? && b == Encode(m) && n == |Payload(m)|
    ensures |b| == 5 + n && b == b[..5] + Payload(m) && b[..5][4] == MsgId(m)
    ensures Val(b[..4]) == LengthPrefix(n)
  {
    assert b[..4] == Be32(LengthPrefix(n));
    NumberWritten(LengthPrefix(n));
  }

  /** A message is written in these bytes exactly if it is one the decoder accepts. */
  lemma EncodesIff(m: Message)
    ensures IsMessage(Encode(m), m) <==> Sendable(m)
  {
    if m.KeepAlive? {
      NumberWritten(0);
      assert Encode(m)[..4] == Be32(0);
    } else {
      FrameWrittenIff(m, Encode(m), |Payload(m)|);
    }
  }

  lemma FrameWrittenIff(m: Message, b: Bytes, n: nat)
    requires !m.KeepAlive? && b == Encode(m) && n == |Payload(m)|
    ensures IsMessage(b, m) <==> Sendable(m)
  {
    PrefixWritten(m, b, n);
    if Sendable(m) {
      BodyLaidOut(b, b[..5], m);
      SendableFits(m, n);
    } else {
      NotLaidOut(m, b, n);
    }
  }

  lemma SendableFits(m: Message, n: nat)
    requires !m.KeepAlive? && Sendable(m) && n == |Payload(m)|
    ensures LengthPrefix(n) == n + 1
  {
  }

  lemma NotLaidOut(m: Message, b: Bytes, n: nat)
    requires !m.KeepAlive? && !Sendable(m) && n == |Payload(m)|
    requires |b| == 5 + n && Val(b[..4]) == LengthPrefix(n)
    ensures !IsMessage(b, m)
  {
    if n > 0xffff_fffe { Val4Bound(b[..4]); }
  }

  // ---------- Decoding ----------

  /** A message as it comes out of one slice. */
  predicate OneSlice(m: Message) {
    m.Piece? ==> m.block1 == []
  }

  lemma RequestRead(b: Bytes, r: BlockRequest)
    requires |b| == 17
    ensures IsBlockRequest(b, r) <==> DecodeRequest(b[5..]) == r
  {
    assert b[5..][..4] == b[5..9] && b[5..][4..8] == b[9..13] && b[5..][8..] == b[13..17];
    Val4(b[5..9]);
    Val4(b[9..13]);
    Val4(b[13..17]);
  }

  lemma PieceNumberRead(b: Bytes, piece: nat)
    requires |b| == 9
    ensures IsPieceNumber(b, piece) <==> ReadBe32(b[5..]) == piece
  {
    assert b[5..] == b[5..9];
    Val4(b[5..9]);
  }

  lemma BodyRead(b: Bytes, m: Message)
    requires |b| >= 5
    ensures HasBody(b, m) && OneSlice(m) <==> DecodeBody(b[4], b[5..]) == Ok(m, |b|)
  {
    var payload := b[5..];
    match m {
      case Request(r) => if |b| == 17 { RequestRead(b, r); }
      case Cancel(r) => if |b| == 17 { RequestRead(b, r); }
      case RejectRequest(r) => if |b| == 17 { RequestRead(b, r); }
      case Have(piece) => if |b| == 9 { PieceNumberRead(b, piece); }
      case SuggestPiece(piece) => if |b| == 9 { PieceNumberRead(b, piece); }
      case AllowedFast(piece) => if |b| == 9 { PieceNumberRead(b, piece); }
      case Port(port) =>
        if |b| == 7 {
          assert payload == b[5..7];
          Val2(payload);
        }
      case Piece(index, begin, block0, block1) =>
        if |b| > 13 {
          assert payload[..4] == b[5..9] && payload[4..8] == b[9..13] && payload[8..] == b[13..];
          Val4(b[5..9]);
          Val4(b[9..13]);
          assert block0 + [] == block0;
        }
      case _ =>
    }
  }

  /** Decoding any buffer gives a message exactly if the buffer starts with the bytes of that message. */
  lemma DecodesIff(b: Bytes, m: Message, n: nat)
    ensures Decode(b) == Ok(m, n) <==> n <= |b| && IsMessage(b[..n], m) && OneSlice(m)
  {
    if |b| >= 4 {
      Val4(b[..4]);
      var len := ReadBe32(b[..4]);
      if n == 4 + len <= |b| {
        FrameRead(b, m, n);
      } else {
        DecodeLength(b);
        if 4 <= n <= |b| { assert b[..n][..4] == b[..4]; }
      }
    }
  }

  lemma FrameRead(b: Bytes, m: Message, n: nat)
    requires 4 <= n <= |b| && Val(b[..4]) == ReadBe32(b[..4]) == n - 4
    ensures Decode(b) == Ok(m, n) <==> IsMessage(b[..n], m) && OneSlice(m)
  {
    assert b[..n][..4] == b[..4];
    if n > 4 {
      assert b[..n][4] == b[4] && b[..n][5..] == b[5..n];
      BodyRead(b[..n], m);
    }
  }

  /** Kinds of messages that are refused, and the one whose payload is handed on. */
  lemma OtherKinds(b: Bytes)
    requires |b| >= 5 && 1 <= Val(b[..4]) <= |b| - 4
    ensures Decode(b) == Err(UnsupportedMessageId(b[4])) <==> b[4] in {10, 11, 12, 18, 19} || b[4] > 20
    ensures Decode(b).Extended? <==> b[4] == 20
  {
    Val4(b[..4]);
  }
  /** How long the payload of a message of some kind is, or at least is. */
  predicate PayloadFits(kind: Byte, n: nat) {
    && (kind in {0, 1, 2, 3, 14, 15} ==> n == 0)
    && (kind in {4, 13, 17} ==> n == 4)
    && (kind == 5 ==> n >= 1)
    && (kind in {6, 8, 16} ==> n == 12)
    && (kind == 7 ==> n >= 9)
    && (kind == 9 ==> n == 2)
  }

  /** A complete message is refused for its length exactly if its kind has another one; both lengths are reported. */
  lemma WrongLengthIff(b: Bytes)
    requires |b| >= 5 && 1 <= Val(b[..4]) <= |b| - 4
    ensures var n := Val(b[..4]) - 1;
            && ((Decode(b).Err? && Decode(b).error.IncorrectMsgLen?) <==> !PayloadFits(b[4], n))
            && forall received, expected, kind :: Decode(b) == Err(IncorrectMsgLen(received, expected, kind)) ==>
                 received == n && kind == b[4] && PayloadFits(b[4], expected)
  {
    Val4(b[..4]);
  }
  /** A buffer is too short exactly if it does not hold all that its first four bytes announce, or not even these. */
  lemma NotEnoughIff(b: Bytes)
    ensures (Decode(b).Err? && Decode(b).error.NotEnoughData?) <==> |b| < 4 || |b| < 4 + Val(b[..4])
    ensures Decode(b).Err? && Decode(b).error.NotEnoughData? ==>
              Decode(b).error == NotEnoughData(if |b| < 4 then 4 - |b| else 4 + Val(b[..4]) - |b|,
                                               if |b| < 5 then None else Some(b[4]))
  {
    if |b| >= 4 { Val4(b[..4]); }
  }
}
