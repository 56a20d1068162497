/**
  Decoding from a ring buffer that arrives as two slices
  (crates/librtbit-peer-protocol/src/double_buf.rs) and encoding into an output buffer
  (crates/librtbit-peer-protocol/src/lib.rs).
 */
module PeerCodec {
  import opened Octets
  import opened Net
  import opened Numbers
  import opened PeerWire
  import opened WireFormats

  datatype Consumed<+T> = Got(value: T) | Missing(count: nat)

  // ---------- Two slices as one buffer ----------

  function Drop(s: Bytes, n: nat): Bytes {
    s[Min(|s|, n)..]
  }

  /** By how much n exceeds len. */
  function Excess(n: nat, len: nat): nat {
    if n <= len then 0 else n - len
  }

  /** What is left of two slices after their first n bytes have been taken. */
  function After(a: (Bytes, Bytes), n: nat): (Bytes, Bytes) {
    (Drop(a.0, n), Drop(a.1, Excess(n, |a.0|)))
  }

  /** The first n bytes of two slices, in two slices. */
  function Upto(a: (Bytes, Bytes), n: nat): (Bytes, Bytes) {
    (a.0[..Min(|a.0|, n)], a.1[..Min(n - Min(|a.0|, n), |a.1|)])
  }

  function Joined(a: (Bytes, Bytes)): Bytes {
    a.0 + a.1
  }

  lemma JoinedParts(a: (Bytes, Bytes), n: nat)
    requires n <= |Joined(a)|
    ensures Joined(After(a, n)) == Joined(a)[n..] && Joined(Upto(a, n)) == Joined(a)[..n]
  {
    var b := a.0 + a.1;
    if n <= |a.0| {
      assert a.0[n..] + a.1[0..] == b[n..] && a.0[..n] + a.1[..0] == b[..n];
    } else {
      var m := n - |a.0|;
      assert a.0[|a.0|..] + a.1[m..] == b[n..] && a.0[..|a.0|] + a.1[..m] == b[..n];
    }
  }

  lemma AfterTwice(a: (Bytes, Bytes), n: nat, m: nat)
    ensures After(After(a, n), m) == After(a, n + m)
  {
    DropTwice(a.0, n, m);
    DropTwice(a.1, Excess(n, |a.0|), Excess(m, |Drop(a.0, n)|));
  }

  lemma DropTwice(s: Bytes, n: nat, m: nat)
    ensures Drop(Drop(s, n), m) == Drop(s, n + m)
    ensures Excess(n, |s|) + Excess(m, |Drop(s, n)|) == Excess(n + m, |s|)
  {
    if n + m <= |s| { assert s[n..][m..] == s[n + m..]; }
  }

  class DoubleBuf {
    var buf0: Bytes
    var buf1: Bytes

    ghost function Slices(): (Bytes, Bytes)
      reads this
    {
      (buf0, buf1)
    }

    constructor (buf0: Bytes, buf1: Bytes)
      ensures Slices() == (buf0, buf1)
    {
      this.buf0, this.buf1 := buf0, buf1;
    }

    function Len(): nat
      reads this
    {
      |buf0| + |buf1|
    }

    method ConsumeVariable(len: nat) returns (r: Consumed<(Bytes, Bytes)>)
      modifies this
      ensures if len <= old(Len()) then r == Got(Upto(old(Slices()), len)) && Slices() == After(old(Slices()), len)
              else r == Missing(len - old(Len())) && Slices() == old(Slices())
    {
      var available := |buf0| + |buf1|;
      if available < len {
        return Missing(len - available);
      }
      var firstLen := Min(|buf0|, len);
      var secondLen := Min(len - firstLen, |buf1|);
      r := Got((buf0[..firstLen], buf1[..secondLen]));
      buf0, buf1 := buf0[firstLen..], buf1[secondLen..];
    }

    method Consume(n: nat) returns (r: Consumed<Bytes>)
      modifies this
      ensures if n <= old(Len()) then r == Got(Joined(old(Slices()))[..n]) && Slices() == After(old(Slices()), n)
              else r == Missing(n - old(Len())) && Slices() == old(Slices())
    {
      if |buf0| >= n {
        r := Got(buf0[..n]);
        buf0 := buf0[n..];
        assert (old(buf0) + buf1)[..n] == old(buf0)[..n] && buf1[0..] == buf1;
        return;
      }
      if |buf0| == 0 && |buf1| >= n {
        r := Got(buf1[..n]);
        buf1 := buf1[n..];
        assert buf0 + old(buf1) == old(buf1);
        return;
      }
      var first := Min(|buf0|, n);
      var second := Min(|buf1|, n - first);
      var missing := n - first - second;
      if missing > 0 {
        return Missing(missing);
      }
      r := Got(buf0[..first] + buf1[..second]);
      buf0, buf1 := buf0[first..], buf1[second..];
      assert (old(buf0) + old(buf1))[..n] == old(buf0)[..first] + old(buf1)[..second];
    }

    method ReadU32Be() returns (r: Consumed<U32>)
      modifies this
      ensures if 4 <= old(Len())
              then r == Got(ReadBe32(Joined(old(Slices()))[..4])) && Slices() == After(old(Slices()), 4)
              else r == Missing(4 - old(Len())) && Slices() == old(Slices())
    {
      var data := Consume(4);
      r := if data.Got? then Got(ReadBe32(data.value)) else Missing(data.count);
    }

    method ReadU8() returns (r: Option<Byte>)
      modifies this
      ensures if 1 <= old(Len()) then r == Some(Joined(old(Slices()))[0]) && Slices() == After(old(Slices()), 1)
              else r == None && Slices() == old(Slices())
    {
      if buf0 != [] {
        r := Some(buf0[0]);
        buf0 := buf0[1..];
      } else if buf1 != [] {
        r := Some(buf1[0]);
        buf1 := buf1[1..];
      } else {
        r := None;
      }
    }

    /** A slice of the given length at the start, if one of the two holds it whole. */
    function GetContiguous(len: nat): (r: Option<Bytes>)
      reads this
      ensures r.Some? <==> len <= Len() && (len <= |buf0| || buf0 == [])
      ensures r.Some? ==> r.value == Joined((buf0, buf1))[..len]
    {
      if |buf0| >= len then
        assert (buf0 + buf1)[..len] == buf0[..len];
        Some(buf0[..len])
      else if |buf0| == 0 && |buf1| >= len then
        assert (buf0 + buf1)[..len] == buf1[..len];
        Some(buf1[..len])
      else None
    }

    /** Moves forward; an offset past the end leaves nothing. */
    method Advance(offset: nat)
      modifies this
      ensures Slices() == After(old(Slices()), offset)
      ensures Joined(Slices()) == Joined(old(Slices()))[Min(offset, old(Len()))..]
    {
      var adv0 := Min(|buf0|, offset);
      buf0 := buf0[adv0..];
      var adv1 := Min(offset - adv0, |buf1|);
      buf1 := buf1[adv1..];
    }

    function WithMaxLen(maxLen: nat): (r: (Bytes, Bytes))
      reads this
      ensures Joined(r) == Joined((buf0, buf1))[..Min(maxLen, Len())]
    {
      var len0 := Min(|buf0|, maxLen);
      var len1 := Min(maxLen - len0, |buf1|);
      (buf0[..len0], buf1[..len1])
    }
  }

  // ---------- Decoding from two slices ----------

  /** Two slices split a bitfield's payload: neither holds it whole. */
  predicate Straddles(d: Decoded, a: (Bytes, Bytes)) {
    d.Ok? && d.message.Bitfield? && 5 < |a.0| < d.length
  }

  /** What decoding two slices gives, when the contiguous buffer decodes to d. */
  ghost predicate Agrees(r: Decoded, d: Decoded, a: (Bytes, Bytes)) {
    if Straddles(d, a) then r == Err(NeedContiguous)
    else if d.Ok? then r.Ok? && r.length == d.length && Normal(r.message) == d.message
    else r == d
  }

  lemma HeaderParts(a: (Bytes, Bytes))
    requires 4 <= |Joined(a)|
    ensures After(After(a, 4), 1) == After(a, 5)
    ensures |Joined(a)| > 4 ==> |Joined(After(a, 4))| > 0 && Joined(After(a, 4))[0] == Joined(a)[4]
    ensures |Joined(a)| == 4 ==> Joined(After(a, 4)) == []
  {
    JoinedParts(a, 4);
    AfterTwice(a, 4, 1);
  }

  ghost predicate BodyAgrees(r: Decoded, d: Decoded, a: (Bytes, Bytes), msgLen: nat) {
    if d.Ok? && d.message.Bitfield? && 0 < |a.0| < msgLen then r == Err(NeedContiguous)
    else if d.Ok? then r.Ok? && r.length == d.length && Normal(r.message) == d.message
    else r == d
  }

  lemma WholeFromBody(r: Decoded, a: (Bytes, Bytes), len: nat)
    requires var b := Joined(a);
             && 0 < len && 4 + len <= |b| && ReadBe32(b[..4]) == len
             && BodyAgrees(r, DecodeBody(b[4], Joined(After(a, 5))[..len - 1]), After(a, 5), len - 1)
    ensures Agrees(r, Decode(Joined(a)), a)
  {
    var b := Joined(a);
    JoinedParts(a, 5);
    assert b[5..][..len - 1] == b[5..4 + len];
    DecodeLength(b);
  }

  /** Either the header of a message that has arrived in full, or the result already. */
  datatype Header = Complete(msgId: Byte, msgLen: nat) | Early(result: Decoded)

  ghost predicate HeaderOf(h: Header, b: Bytes) {
    match h
    case Early(r) => Decode(b) == r && (r.Ok? ==> r.message.KeepAlive?)
    case Complete(id, n) => 5 + n <= |b| && ReadBe32(b[..4]) == n + 1 && b[4] == id
  }

  method ReadHeader(buf: DoubleBuf) returns (h: Header)
    modifies buf
    ensures HeaderOf(h, Joined(old(buf.Slices())))
    ensures h.Complete? ==> buf.Slices() == After(old(buf.Slices()), 5)
  {
    ghost var a := buf.Slices();
    var lenPrefix := buf.ReadU32Be();
    if lenPrefix.Missing? {
      return Early(Err(NotEnoughData(lenPrefix.count, None)));
    }
    var len: nat := lenPrefix.value as int;
    if len == 0 {
      return Early(Ok(KeepAlive, len + 4));
    }
    HeaderParts(a);
    var msgId := buf.ReadU8();
    if msgId.None? {
      return Early(Err(NotEnoughData(len, None)));
    }
    JoinedParts(a, 5);
    var msgLen := len - 1;
    if buf.Len() < msgLen {
      return Early(Err(NotEnoughData(msgLen - buf.Len(), Some(msgId.value))));
    }
    h := Complete(msgId.value, msgLen);
  }

  /** The message read is laid out at the start of the buffer, and none is missed but a bitfield across the cut. */
  ghost predicate ReadsBytes(r: Decoded, b: Bytes) {
    && (r.Ok? ==> r.length <= |b| && IsMessage(b[..r.length], r.message))
    && forall m, n :: 0 <= n <= |b| && IsMessage(b[..n], m) ==>
         (r.Ok? && Normal(r.message) == Normal(m) && r.length == n) || (m.Bitfield? && r == Err(NeedContiguous))
  }

  lemma AgreesWithBytes(r: Decoded, a: (Bytes, Bytes), b: Bytes)
    requires b == a.0 + a.1 && Agrees(r, Decode(b), a)
    ensures ReadsBytes(r, b)
  {
    if r.Ok? {
      DecodesIff(b, Normal(r.message), r.length);
      NormalIsMessage(b[..r.length], r.message);
    }
    forall m, n | 0 <= n <= |b| && IsMessage(b[..n], m)
      ensures (r.Ok? && Normal(r.message) == Normal(m) && r.length == n) || (m.Bitfield? && r == Err(NeedContiguous))
    {
      NormalIsMessage(b[..n], m);
      DecodesIff(b, Normal(m), n);
    }
  }

  /** Decodes one message; the slices are those of a ring buffer. */
  method Deserialize(first: Bytes, second: Bytes) returns (r: Decoded)
    ensures Agrees(r, Decode(first + second), (first, second)) && ReadsBytes(r, first + second)
  {
    r := DeserializeSlices(first, second);
    AgreesWithBytes(r, (first, second), first + second);
  }

  /** The same, as far as it can be told from decoding the slices in one. */
  method DeserializeSlices(first: Bytes, second: Bytes) returns (r: Decoded)
    ensures Agrees(r, Decode(first + second), (first, second))
  {
    var buf := new DoubleBuf(first, second);
    var h := ReadHeader(buf);
    match h {
      case Early(result) =>
        return result;
      case Complete(msgId, msgLen) =>
        JoinedParts((first, second), 5);
        r := DeserializeBody(buf, msgId, msgLen);
        WholeFromBody(r, (first, second), msgLen + 1);
    }
  }

  /** Decodes the body of a message, of which all of the payload has arrived. */
  method DeserializeBody(buf: DoubleBuf, msgId: Byte, msgLen: nat) returns (r: Decoded)
    requires msgLen <= buf.Len()
    modifies buf
    ensures BodyAgrees(r, DecodeBody(msgId, Joined(old(buf.Slices()))[..msgLen]), old(buf.Slices()), msgLen)
  {
    var totalLen := msgLen + 5;
    ghost var a := buf.Slices();
    ghost var payload := Joined(a)[..msgLen];
    var noPayload := PlainMessage(msgId);
    if noPayload.Some? {
      return if msgLen == 0 then Ok(noPayload.value, totalLen) else Err(IncorrectMsgLen(msgLen, 0, msgId));
    }
    if msgId == HAVE || msgId == SUGGEST_PIECE || msgId == ALLOWED_FAST {
      if msgLen != 4 {
        return Err(IncorrectMsgLen(msgLen, 4, msgId));
      }
      var v := buf.ReadU32Be();
      var m := if msgId == HAVE then Have(v.value)
               else if msgId == SUGGEST_PIECE then SuggestPiece(v.value)
               else AllowedFast(v.value);
      return Ok(m, totalLen);
    }
    if msgId == PORT {
      if msgLen != 2 {
        return Err(IncorrectMsgLen(msgLen, 2, msgId));
      }
      var port := buf.Consume(2);
      return Ok(Port(ReadBe16(port.value)), totalLen);
    }
    if msgId == BITFIELD {
      if msgLen < 1 {
        return Err(IncorrectMsgLen(msgLen, 1, msgId));
      }
      var data := buf.GetContiguous(msgLen);
      return if data.Some? then Ok(Bitfield(data.value), totalLen) else Err(NeedContiguous);
    }
    if msgId == REQUEST || msgId == CANCEL || msgId == REJECT_REQUEST {
      if msgLen != 12 {
        return Err(IncorrectMsgLen(msgLen, 12, msgId));
      }
      var req := buf.Consume(12);
      var request := DecodeRequest(req.value);
      var m := if msgId == REQUEST then Request(request)
               else if msgId == CANCEL then Cancel(request)
               else RejectRequest(request);
      return Ok(m, totalLen);
    }
    if msgId == PIECE {
      r := DeserializePiece(buf, msgLen);
      return;
    }
    if msgId == EXTENDED {
      return Extended(Joined(buf.WithMaxLen(msgLen)), totalLen);
    }
    r := Err(UnsupportedMessageId(msgId));
  }

  function PlainMessage(id: Byte): Option<Message> {
    if id == CHOKE then Some(Choke)
    else if id == UNCHOKE then Some(Unchoke)
    else if id == INTERESTED then Some(Interested)
    else if id == NOT_INTERESTED then Some(NotInterested)
    else if id == HAVE_ALL then Some(HaveAll)
    else if id == HAVE_NONE then Some(HaveNone)
    else None
  }

  /** A piece's payload, read as two integers and a block from two slices. */
  lemma PieceParts(a: (Bytes, Bytes), n: nat)
    requires 9 <= n <= |Joined(a)|
    ensures var p := Joined(a)[..n];
            && Joined(a)[..4] == p[..4]
            && |Joined(After(a, 4))| >= 4 && Joined(After(a, 4))[..4] == p[4..8]
            && After(After(a, 4), 4) == After(a, 8)
            && |Joined(After(a, 8))| >= n - 8 && Joined(Upto(After(a, 8), n - 8)) == p[8..]
  {
    JoinedParts(a, 4);
    JoinedParts(a, 8);
    AfterTwice(a, 4, 4);
    JoinedParts(After(a, 8), n - 8);
    SliceParts(Joined(a), n);
  }

  lemma SliceParts(b: Bytes, n: nat)
    requires 8 <= n <= |b|
    ensures b[..n][..4] == b[..4] && b[..n][4..8] == b[4..][..4] && b[..n][8..] == b[8..][..n - 8]
  {
  }

  method DeserializePiece(buf: DoubleBuf, msgLen: nat) returns (r: Decoded)
    requires msgLen <= buf.Len()
    modifies buf
    ensures var payload := Joined(old(buf.Slices()))[..msgLen];
            if msgLen < 9 then r == Err(IncorrectMsgLen(msgLen, 9, PIECE))
            else r.Ok? && r.length == 5 + msgLen
                 && Normal(r.message) == Piece(ReadBe32(payload[..4]), ReadBe32(payload[4..8]), payload[8..], [])
  {
    if msgLen < 9 {
      return Err(IncorrectMsgLen(msgLen, 9, PIECE));
    }
    PieceParts(buf.Slices(), msgLen);
    var index := buf.ReadU32Be();
    var begin := buf.ReadU32Be();
    var block := buf.ConsumeVariable(msgLen - 8);
    r := Ok(Piece(index.value, begin.value, block.value.0, block.value.1), msgLen + 5);
  }

  // ---------- Encoding into a buffer ----------

  datatype SerializeResult = Written(length: nat) | NoSpaceInBuffer

  /** s with the bytes b at the given place. */
  function Patch(s: Bytes, at: nat, b: Bytes): (r: Bytes)
    requires at + |b| <= |s|
    ensures |r| == |s|
  {
    s[..at] + b + s[at + |b|..]
  }

  lemma PatchTwice(s: Bytes, at: nat, b: Bytes, c: Bytes)
    requires at + |b| + |c| <= |s|
    ensures Patch(Patch(s, at, b), at + |b|, c) == Patch(s, at, b + c)
  {
  }

  /** Copies bytes into the buffer at the given place and nowhere else. */
  method Put(out: array<Byte>, at: nat, b: Bytes)
    requires at + |b| <= out.Length
    modifies out
    ensures out[..] == Patch(old(out[..]), at, b)
  {
    forall i | 0 <= i < |b| {
      out[at + i] := b[i];
    }
  }

  method WritePreamble(out: array<Byte>, payloadLen: nat, msgId: Byte)
    requires 5 <= out.Length
    modifies out
    ensures out[..] == Patch(old(out[..]), 0, Be32(LengthPrefix(payloadLen)) + [msgId])
  {
    PatchTwice(out[..], 0, Be32(LengthPrefix(payloadLen)), [msgId]);
    Put(out, 0, Be32(LengthPrefix(payloadLen)));
    Put(out, 4, [msgId]);
  }

  /** Writes a message at the start of the buffer, or nothing at all if it does not fit. */
  method Serialize(m: Message, out: array<Byte>) returns (r: SerializeResult)
    modifies out
    ensures r == if |Encode(m)| <= out.Length then Written(|Encode(m)|) else NoSpaceInBuffer
    ensures out[..] == if r.Written? then Patch(old(out[..]), 0, Encode(m)) else old(out[..])
    ensures r.Written? ==> (IsMessage(out[..r.length], m) <==> Sendable(m))
  {
    r := SerializeInto(m, out);
    if r.Written? {
      PatchedStart(old(out[..]), Encode(m));
      EncodesIff(m);
      assert out[..r.length] == out[..][..r.length] == Encode(m);
    }
  }

  /** The same, as far as it can be told from the encoding. */
  method SerializeInto(m: Message, out: array<Byte>) returns (r: SerializeResult)
    modifies out
    ensures r == if |Encode(m)| <= out.Length then Written(|Encode(m)|) else NoSpaceInBuffer
    ensures out[..] == if r.Written? then Patch(old(out[..]), 0, Encode(m)) else old(out[..])
  {
    if m.KeepAlive? {
      if out.Length < 4 {
        return NoSpaceInBuffer;
      }
      Put(out, 0, Be32(0));
      return Written(4);
    }
    var payload := Payload(m);
    var totalLen := 5 + |payload|;
    if out.Length < totalLen {
      return NoSpaceInBuffer;
    }
    PatchTwice(out[..], 0, Be32(LengthPrefix(|payload|)) + [MsgId(m)], payload);
    WritePreamble(out, |payload|, MsgId(m));
    PutPayload(m, out);
    r := Written(totalLen);
  }

  /** Writes the fields of a message one after the other behind the preamble. */
  method PutPayload(m: Message, out: array<Byte>)
    requires !m.KeepAlive? && 5 + |Payload(m)| <= out.Length
    modifies out
    ensures out[..] == Patch(old(out[..]), 5, Payload(m))
  {
    assert Patch(out[..], 5, []) == out[..];
    match m {
      case Request(r) => PutRequest(out, r);
      case Cancel(r) => PutRequest(out, r);
      case RejectRequest(r) => PutRequest(out, r);
      case Bitfield(bits) => Put(out, 5, bits);
      case Have(piece) => Put(out, 5, Be32(piece));
      case SuggestPiece(piece) => Put(out, 5, Be32(piece));
      case AllowedFast(piece) => Put(out, 5, Be32(piece));
      case Port(port) => Put(out, 5, Be16(port));
      case Piece(index, begin, block0, block1) => PutPiece(out, index, begin, block0, block1);
      case _ =>
    }
  }

  method PutRequest(out: array<Byte>, r: BlockRequest)
    requires 17 <= out.Length
    modifies out
    ensures out[..] == Patch(old(out[..]), 5, RequestBytes(r))
  {
    PatchTwice(out[..], 5, Be32(r.index), Be32(r.begin));
    PatchTwice(out[..], 5, Be32(r.index) + Be32(r.begin), Be32(r.length));
    Put(out, 5, Be32(r.index));
    Put(out, 9, Be32(r.begin));
    Put(out, 13, Be32(r.length));
  }

  method PutPiece(out: array<Byte>, index: U32, begin: U32, block0: Bytes, block1: Bytes)
    requires 13 + |block0| + |block1| <= out.Length
    modifies out
    ensures out[..] == Patch(old(out[..]), 5, Be32(index) + Be32(begin) + (block0 + block1))
  {
    var head := Be32(index) + Be32(begin);
    PatchTwice(out[..], 5, Be32(index), Be32(begin));
    PatchTwice(out[..], 5, head, block0);
    PatchTwice(out[..], 5, head + block0, block1);
    assert head + block0 + block1 == head + (block0 + block1);
    Put(out, 5, Be32(index));
    Put(out, 9, Be32(begin));
    Put(out, 13, block0);
    Put(out, 13 + |block0|, block1);
  }

  method SerializePiecePreamble(index: U32, offset: U32, size: U32, out: array<Byte>) returns (n: nat)
    requires 13 <= out.Length
    modifies out
    ensures n == 13 && out[..] == Patch(old(out[..]), 0, PiecePreamble(index, offset, size))
  {
    var len := Be32((9 + size as int) % U32_RANGE);
    PatchTwice(out[..], 0, len, [PIECE]);
    PatchTwice(out[..], 0, len + [PIECE], Be32(index));
    PatchTwice(out[..], 0, len + [PIECE] + Be32(index), Be32(offset));
    Put(out, 0, len);
    Put(out, 4, [PIECE]);
    Put(out, 5, Be32(index));
    Put(out, 9, Be32(offset));
    n := 13;
  }

  /** A message and its length came through. */
  predicate CameThrough(r: Decoded, m: Message) {
    r.Ok? && Normal(r.message) == Normal(m) && r.length == |Encode(m)|
  }

  lemma PatchedStart(s: Bytes, b: Bytes)
    requires |b| <= |s|
    ensures Patch(s, 0, b) == b + Patch(s, 0, b)[|b|..]
  {
  }

  lemma CutRoundTrip(r: Decoded, m: Message, rest: Bytes, a: (Bytes, Bytes))
    requires Joined(a) == Encode(m) + rest && Agrees(r, Decode(Joined(a)), a)
    ensures CameThrough(r, m) <==> Sendable(m) && !(m.Bitfield? && 5 < |a.0| < |Encode(m)|)
  {
    RoundTripIff(m, rest);
  }

  /**
    A message written into a buffer and read back from it in two slices, wherever they are cut, comes
    through exactly if it is one the decoder accepts and not a bitfield with the cut inside.
   */
  method WriteThenRead(m: Message, out: array<Byte>, cut: nat) returns (r: Decoded)
    requires |Encode(m)| <= out.Length && cut <= out.Length
    modifies out
    ensures CameThrough(r, m) <==> Sendable(m) && !(m.Bitfield? && 5 < cut < |Encode(m)|)
  {
    ghost var before := out[..];
    var _ := SerializeInto(m, out);
    var first, second := out[..cut], out[cut..];
    assert first + second == out[..];
    PatchedStart(before, Encode(m));
    r := DeserializeSlices(first, second);
    CutRoundTrip(r, m, out[|Encode(m)|..], (first, second));
  }
}
