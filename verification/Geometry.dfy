/** Pieces and chunks of a torrent (crates/librtbit-core/src/lengths.rs): how its content is cut up. */
module Geometry {
  import opened Net
  import opened Numbers

  const CHUNK_SIZE: nat := 16384

  datatype Lengths = Lengths(
    totalLength: nat,
    pieceLength: nat,
    lastPieceId: nat,
    lastPieceLength: nat,
    chunksPerPiece: nat)

  datatype ChunkInfo = ChunkInfo(
    pieceIndex: nat,
    chunkIndex: nat,
    absoluteIndex: nat,
    size: nat,
    offset: nat)

  function DivCeil(a: nat, b: nat): nat
    requires b > 0
  {
    (a + b - 1) / b
  }

  function LastElementSize(total: nat, each: nat): nat
    requires each > 0
  {
    if total % each == 0 then each else total % each
  }

  /** A value kept in 32 bits. */
  function Wrap(x: int): nat {
    x % U32_RANGE
  }

  /** Lengths::new; None stands for the error about an empty torrent. */
  function New(totalLength: nat, pieceLength: nat): Option<Lengths>
    requires 0 < pieceLength < U32_RANGE
  {
    if totalLength == 0 then None
    else
      Some(Lengths(totalLength, pieceLength,
                   Wrap(Wrap(DivCeil(totalLength, pieceLength)) - 1),
                   Wrap(LastElementSize(totalLength, pieceLength)),
                   Wrap(DivCeil(pieceLength, CHUNK_SIZE))))
  }

  /** The pieces fill the content: all but the last have the piece length, the last has what remains. */
  ghost predicate Shaped(l: Lengths) {
    && 0 < l.lastPieceLength <= l.pieceLength < U32_RANGE
    && l.lastPieceId * l.pieceLength + l.lastPieceLength == l.totalLength
    && l.chunksPerPiece == DivCeil(l.pieceLength, CHUNK_SIZE)
  }

  lemma QuotientBounds(x: nat, d: nat)
    requires d > 0
    ensures x / d * d <= x < x / d * d + d
    ensures x == x / d * d + x % d
  {
  }

  lemma MulLt(a: int, b: int, d: int)
    requires a < b && d > 0
    ensures a * d + d <= b * d
  {
    assert (a + 1) * d <= b * d;
    assert (a + 1) * d == a * d + d;
  }

  /** The quotient is the only number between these bounds. */
  lemma QuotientIs(x: nat, d: nat, q: nat)
    requires d > 0 && q * d <= x < q * d + d
    ensures x / d == q
  {
    QuotientBounds(x, d);
    if x / d < q { MulLt(x / d, q, d); }
    if q < x / d { MulLt(q, x / d, d); }
  }

  lemma CeilBounds(x: nat, d: nat)
    requires d > 0 && x > 0
    ensures DivCeil(x, d) >= 1
    ensures (DivCeil(x, d) - 1) * d + LastElementSize(x, d) == x
    ensures (DivCeil(x, d) - 1) * d < x <= DivCeil(x, d) * d
  {
    var q := x / d;
    QuotientBounds(x, d);
    if x % d == 0 {
      QuotientIs(x + d - 1, d, q);
      assert (q - 1) * d == q * d - d;
    } else {
      assert (q + 1) * d == q * d + d;
      QuotientIs(x + d - 1, d, q + 1);
    }
  }

  /** The constructor shapes the pieces exactly when their number fits 32 bits. */
  lemma NewShapedIff(totalLength: nat, pieceLength: nat)
    requires 0 < pieceLength < U32_RANGE && totalLength > 0
    ensures Shaped(New(totalLength, pieceLength).value) <==> DivCeil(totalLength, pieceLength) <= U32_RANGE
  {
    var n := DivCeil(totalLength, pieceLength);
    var last := LastElementSize(totalLength, pieceLength);
    CeilBounds(totalLength, pieceLength);
    WrapPred(n);
    SmallChunks(pieceLength);
    LastPieceIs(Wrap(n - 1), n - 1, pieceLength, last, totalLength);
  }

  lemma WrapPred(n: nat)
    ensures Wrap(Wrap(n) - 1) == Wrap(n - 1)
    ensures 1 <= n <= U32_RANGE ==> Wrap(n - 1) == n - 1
    ensures n > U32_RANGE ==> Wrap(n - 1) < n - 1
  {
    WrapLess(n);
    WrapSmall(n - 1);
  }

  lemma WrapLess(n: nat)
    ensures Wrap(Wrap(n) - 1) == Wrap(n - 1)
  {
  }

  lemma WrapSmall(x: int)
    ensures 0 <= x < U32_RANGE ==> Wrap(x) == x
    ensures Wrap(x) < U32_RANGE
  {
  }

  lemma SmallChunks(pieceLength: nat)
    requires pieceLength < U32_RANGE
    ensures Wrap(DivCeil(pieceLength, CHUNK_SIZE)) == DivCeil(pieceLength, CHUNK_SIZE)
  {
  }

  lemma LastPieceIs(id: nat, m: nat, pieceLength: nat, last: nat, total: nat)
    requires id <= m && m * pieceLength + last == total && 0 < last <= pieceLength < U32_RANGE
    ensures Wrap(last) == last
    ensures id * pieceLength + last == total <==> id == m
  {
    if id < m { MulLt(id, m, pieceLength); }
  }

  // ---------- Pieces and chunks ----------

  function PieceLength(l: Lengths, i: nat): nat {
    if i == l.lastPieceId then l.lastPieceLength else l.pieceLength
  }

  function PieceOffset(l: Lengths, i: nat): nat {
    i * l.pieceLength
  }

  function ChunksIn(l: Lengths, i: nat): nat {
    if i == l.lastPieceId then DivCeil(l.lastPieceLength, CHUNK_SIZE) else l.chunksPerPiece
  }

  /** How many chunks there are. */
  function TotalChunks(l: Lengths): nat {
    l.lastPieceId * l.chunksPerPiece + ChunksIn(l, l.lastPieceId)
  }

  /** total_chunks: the same in 32 bits. */
  function KeptTotalChunks(l: Lengths): nat {
    Wrap(Wrap(l.lastPieceId * l.chunksPerPiece) + ChunksIn(l, l.lastPieceId))
  }

  function ChunkSize(l: Lengths, piece: nat, chunk: nat): Option<nat>
    requires PieceLength(l, piece) > 0
  {
    var last := DivCeil(PieceLength(l, piece), CHUNK_SIZE) - 1;
    if chunk < last then Some(CHUNK_SIZE)
    else if chunk == last then Some(LastElementSize(PieceLength(l, piece), CHUNK_SIZE))
    else None
  }

  function ChunkOffsetInPiece(l: Lengths, piece: nat, chunk: nat): Option<nat> {
    if chunk >= ChunksIn(l, piece) then None else Some(chunk * CHUNK_SIZE)
  }

  /** The k-th chunk of a piece. */
  function ChunkAt(l: Lengths, piece: nat, k: nat): ChunkInfo
    requires Shaped(l) && k < ChunksIn(l, piece)
  {
    ChunkInfo(piece, k, Wrap(Wrap(piece * l.chunksPerPiece) + k),
              if k + 1 < ChunksIn(l, piece) then CHUNK_SIZE else PieceLength(l, piece) - k * CHUNK_SIZE,
              k * CHUNK_SIZE)
  }

  function ChunksOf(l: Lengths, piece: nat): seq<ChunkInfo>
    requires Shaped(l)
  {
    seq(ChunksIn(l, piece), k requires 0 <= k < ChunksIn(l, piece) => ChunkAt(l, piece, k))
  }

  lemma PieceChunks(l: Lengths, piece: nat)
    requires Shaped(l)
    ensures var n := ChunksIn(l, piece);
            n == DivCeil(PieceLength(l, piece), CHUNK_SIZE) >= 1
            && (n - 1) * CHUNK_SIZE < PieceLength(l, piece) <= n * CHUNK_SIZE
  {
  }

  /** The chunks of a piece as the source produces them, counting down what remains. */
  method IterChunkInfos(l: Lengths, piece: nat) returns (chunks: seq<ChunkInfo>)
    requires Shaped(l)
    ensures chunks == ChunksOf(l, piece)
  {
    PieceChunks(l, piece);
    var remaining := PieceLength(l, piece);
    var absoluteOffset := Wrap(piece * l.chunksPerPiece);
    var offset, idx := 0, 0;
    chunks := [];
    while remaining > 0
      invariant offset + remaining == PieceLength(l, piece) && |chunks| == idx
      invariant offset == if remaining > 0 then idx * CHUNK_SIZE else PieceLength(l, piece)
      invariant remaining == 0 ==> idx == ChunksIn(l, piece)
      invariant remaining > 0 ==> idx < ChunksIn(l, piece)
      invariant forall k :: 0 <= k < idx && k < ChunksIn(l, piece) ==> chunks[k] == ChunkAt(l, piece, k)
    {
      var s := if remaining < CHUNK_SIZE then remaining else CHUNK_SIZE;
      chunks := chunks + [ChunkInfo(piece, idx, Wrap(absoluteOffset + idx), s, offset)];
      offset, remaining, idx := offset + s, remaining - s, idx + 1;
    }
  }

  /** chunk_info_from_received_data, in the order of the source's checks. */
  function ChunkFromReceived(l: Lengths, piece: nat, begin: nat, size: nat): Option<ChunkInfo>
    requires Shaped(l)
  {
    var index := begin / CHUNK_SIZE;
    var expected := ChunkSize(l, piece, index);
    var offset := ChunkOffsetInPiece(l, piece, index);
    if expected.None? || offset.None? then None
    else if offset.value != begin || expected.value != size then None
    else Some(ChunkInfo(piece, index, Wrap(Wrap(piece * l.chunksPerPiece) + index), size, offset.value))
  }

  /** Received data is accepted exactly when it is one of the piece's chunks, and as that chunk. */
  lemma ReceivedIsChunk(l: Lengths, piece: nat, begin: nat, size: nat, c: ChunkInfo)
    requires Shaped(l)
    ensures ChunkFromReceived(l, piece, begin, size) == Some(c)
            <==> c in ChunksOf(l, piece) && c.offset == begin && c.size == size
  {
    var s, k := ChunksOf(l, piece), begin / CHUNK_SIZE;
    ReceivedAt(l, piece, begin, size);
    if ChunkFromReceived(l, piece, begin, size) == Some(c) {
      assert s[k] == c;
    }
    if c in s && c.offset == begin && c.size == size {
      var j :| 0 <= j < |s| && s[j] == c;
      assert j == k;
    }
  }

  /** The check finds the one chunk that could begin there. */
  lemma ReceivedAt(l: Lengths, piece: nat, begin: nat, size: nat)
    requires Shaped(l)
    ensures var k := begin / CHUNK_SIZE;
            ChunkFromReceived(l, piece, begin, size)
            == if k < ChunksIn(l, piece) && ChunkAt(l, piece, k).offset == begin && ChunkAt(l, piece, k).size == size
               then Some(ChunkAt(l, piece, k)) else None
  {
    PieceChunks(l, piece);
    ChunkSizeAt(l, piece, begin / CHUNK_SIZE);
  }

  lemma ChunkSizeAt(l: Lengths, piece: nat, k: nat)
    requires Shaped(l)
    ensures ChunkSize(l, piece, k) == if k < ChunksIn(l, piece) then Some(ChunkAt(l, piece, k).size) else None
  {
    PieceChunks(l, piece);
    CeilBounds(PieceLength(l, piece), CHUNK_SIZE);
  }

  // ---------- All chunks tile the content ----------

  /** The chunks of the first n pieces, in order. */
  function FirstChunks(l: Lengths, n: nat): seq<ChunkInfo>
    requires Shaped(l)
  {
    if n == 0 then [] else FirstChunks(l, n - 1) + ChunksOf(l, n - 1)
  }

  function AbsoluteOffset(l: Lengths, c: ChunkInfo): nat {
    PieceOffset(l, c.pieceIndex) + c.offset
  }

  /** The chunks follow one another from byte 0 to end without gap or overlap, none of them empty. */
  ghost predicate TileContent(l: Lengths, s: seq<ChunkInfo>, end: nat) {
    && (forall j :: 0 <= j < |s| ==> 0 < s[j].size <= CHUNK_SIZE)
    && Adjacent(l, s)
    && (s != [] ==> AbsoluteOffset(l, s[0]) == 0 && AbsoluteOffset(l, s[|s| - 1]) + s[|s| - 1].size == end)
    && (s == [] ==> end == 0)
  }

  /** The chunk at position j has absolute index j. */
  ghost predicate IndexedByPosition(s: seq<ChunkInfo>) {
    forall j :: 0 <= j < |s| ==> s[j].absoluteIndex == j
  }

  /** The place of position j among the chunks of its piece. */
  ghost predicate InPiece(l: Lengths, piece: nat, j: nat) {
    piece * l.chunksPerPiece <= j < piece * l.chunksPerPiece + ChunksIn(l, piece)
  }

  /** The chunk at each position belongs to a piece of the content, at its place there. */
  ghost predicate PlacedByPiece(l: Lengths, s: seq<ChunkInfo>) {
    forall j :: 0 <= j < |s| ==> s[j].pieceIndex <= l.lastPieceId && InPiece(l, s[j].pieceIndex, j)
  }

  /** chunk_range: where the chunks of a piece begin and end, in 32 bits. */
  function ChunkRange(l: Lengths, piece: nat): (nat, nat) {
    var start := Wrap(piece * l.chunksPerPiece);
    (start, Wrap(start + ChunksIn(l, piece)))
  }

  /** The range of each piece holds exactly the positions of its chunks. */
  ghost predicate RangesExact(l: Lengths, s: seq<ChunkInfo>) {
    forall j, p :: 0 <= j < |s| && 0 <= p <= l.lastPieceId ==>
      (s[j].pieceIndex == p <==> ChunkRange(l, p).0 <= j < ChunkRange(l, p).1)
  }

  lemma PieceTiles(l: Lengths, piece: nat)
    requires Shaped(l)
    ensures var s := ChunksOf(l, piece);
            && s != [] && s[0].offset == 0
            && s[|s| - 1].offset + s[|s| - 1].size == PieceLength(l, piece)
            && (forall j :: 0 <= j < |s| ==> 0 < s[j].size <= CHUNK_SIZE && s[j].pieceIndex == piece)
            && (forall j :: 0 < j < |s| ==> s[j - 1].offset + s[j - 1].size == s[j].offset)
  {
    PieceChunks(l, piece);
  }

  /** The chunks follow one another. */
  ghost predicate Adjacent(l: Lengths, s: seq<ChunkInfo>) {
    forall j :: 0 < j < |s| ==> AbsoluteOffset(l, s[j - 1]) + s[j - 1].size == AbsoluteOffset(l, s[j])
  }

  lemma AdjacentAppend(l: Lengths, s: seq<ChunkInfo>, t: seq<ChunkInfo>)
    requires Adjacent(l, s) && Adjacent(l, t) && t != []
    requires s != [] ==> AbsoluteOffset(l, s[|s| - 1]) + s[|s| - 1].size == AbsoluteOffset(l, t[0])
    ensures Adjacent(l, s + t)
  {
    var u := s + t;
    forall j | 0 < j < |u| ensures AbsoluteOffset(l, u[j - 1]) + u[j - 1].size == AbsoluteOffset(l, u[j]) {
      if j < |s| {
        assert u[j - 1] == s[j - 1] && u[j] == s[j];
      } else if j == |s| {
        assert u[j - 1] == s[|s| - 1] && u[j] == t[0];
      } else {
        assert u[j - 1] == t[j - |s| - 1] && u[j] == t[j - |s|];
      }
    }
  }

  lemma PieceAdjacent(l: Lengths, piece: nat)
    requires Shaped(l)
    ensures var t := ChunksOf(l, piece);
            && Adjacent(l, t) && t != [] && AbsoluteOffset(l, t[0]) == PieceOffset(l, piece)
            && AbsoluteOffset(l, t[|t| - 1]) + t[|t| - 1].size == PieceOffset(l, piece) + PieceLength(l, piece)
  {
    PieceTiles(l, piece);
  }

  lemma AppendPiece(l: Lengths, s: seq<ChunkInfo>, piece: nat, start: nat, u: seq<ChunkInfo>, end: nat)
    requires Shaped(l) && start == PieceOffset(l, piece) && TileContent(l, s, start) && (s == [] ==> piece == 0)
    requires u == s + ChunksOf(l, piece) && end == start + PieceLength(l, piece)
    ensures TileContent(l, u, end)
  {
    PieceTiles(l, piece);
    PieceAdjacent(l, piece);
    AdjacentAppend(l, s, ChunksOf(l, piece));
  }

  /** The chunks of the first n pieces tile their bytes. */
  lemma {:induction false} FirstChunksTile(l: Lengths, n: nat, s: seq<ChunkInfo>, end: nat)
    requires Shaped(l) && n <= l.lastPieceId + 1 && s == FirstChunks(l, n) && end == EndOf(l, n)
    ensures TileContent(l, s, end) && (n > 0 ==> s != [])
  {
    if n == 0 {
      assert end == 0;
    } else {
      var prev, start := FirstChunks(l, n - 1), EndOf(l, n - 1);
      FirstChunksTile(l, n - 1, prev, start);
      EndStep(l, n - 1);
      PieceChunks(l, n - 1);
      AppendPiece(l, prev, n - 1, start, s, end);
    }
  }

  /** Where the first n pieces end. */
  function EndOf(l: Lengths, n: nat): nat {
    if n <= l.lastPieceId then PieceOffset(l, n) else l.totalLength
  }

  lemma EndStep(l: Lengths, i: nat)
    requires Shaped(l) && i <= l.lastPieceId
    ensures EndOf(l, i) == PieceOffset(l, i) && EndOf(l, i + 1) == PieceOffset(l, i) + PieceLength(l, i)
  {
    NextPiece(l, i);
  }

  lemma NextPiece(l: Lengths, i: nat)
    ensures PieceOffset(l, i + 1) == PieceOffset(l, i) + l.pieceLength
    ensures (i + 1) * l.chunksPerPiece == i * l.chunksPerPiece + l.chunksPerPiece
  {
  }

  /** The chunks of the first n pieces are as many as the counts say. */
  lemma {:induction false} FirstChunksCount(l: Lengths, n: nat)
    requires Shaped(l) && n <= l.lastPieceId + 1
    ensures |FirstChunks(l, n)| == if n <= l.lastPieceId then n * l.chunksPerPiece else TotalChunks(l)
  {
    if n > 0 {
      FirstChunksCount(l, n - 1);
      NextPiece(l, n - 1);
    }
  }

  /** The chunks of the first n pieces are numbered by their position. */
  lemma {:induction false} FirstChunksIndexed(l: Lengths, n: nat, s: seq<ChunkInfo>)
    requires Shaped(l) && n <= l.lastPieceId + 1 && TotalChunks(l) <= U32_RANGE && s == FirstChunks(l, n)
    ensures IndexedByPosition(s)
  {
    if n > 0 {
      var prev := FirstChunks(l, n - 1);
      FirstChunksIndexed(l, n - 1, prev);
      FirstChunksCount(l, n - 1);
      AppendIndices(l, prev, n - 1, s);
    }
  }

  lemma AppendIndices(l: Lengths, s: seq<ChunkInfo>, piece: nat, u: seq<ChunkInfo>)
    requires Shaped(l) && piece <= l.lastPieceId && TotalChunks(l) <= U32_RANGE
    requires |s| == piece * l.chunksPerPiece && IndexedByPosition(s) && u == s + ChunksOf(l, piece)
    ensures IndexedByPosition(u)
  {
    var t := ChunksOf(l, piece);
    forall j | |s| <= j < |u|
      ensures u[j].absoluteIndex == j && u[j].pieceIndex == piece
    {
      NoWrap(l, piece, j - |s|);
      assert u[j] == t[j - |s|];
    }
  }

  lemma NoWrap(l: Lengths, piece: nat, k: nat)
    requires Shaped(l) && piece <= l.lastPieceId && TotalChunks(l) <= U32_RANGE && k < ChunksIn(l, piece)
    ensures ChunkAt(l, piece, k).absoluteIndex == piece * l.chunksPerPiece + k
  {
    IndexBound(l, piece);
    SmallIndex(piece * l.chunksPerPiece, k);
  }

  lemma IndexBound(l: Lengths, piece: nat)
    requires Shaped(l) && piece <= l.lastPieceId
    ensures piece * l.chunksPerPiece + ChunksIn(l, piece) <= TotalChunks(l)
  {
    PieceChunks(l, l.lastPieceId);
    if piece < l.lastPieceId {
      PieceChunks(l, piece);
      MulLt(piece, l.lastPieceId, l.chunksPerPiece);
    }
  }

  lemma SmallIndex(base: nat, k: nat)
    requires base + k < U32_RANGE
    ensures Wrap(Wrap(base) + k) == base + k
  {
  }

  lemma WrapSum(a: nat, b: nat)
    ensures Wrap(Wrap(a) + b) == a + b <==> a + b < U32_RANGE
  {
  }

  lemma {:induction false} FirstChunksPlaced(l: Lengths, n: nat, s: seq<ChunkInfo>)
    requires Shaped(l) && n <= l.lastPieceId + 1 && s == FirstChunks(l, n)
    ensures PlacedByPiece(l, s)
  {
    if n > 0 {
      var prev := FirstChunks(l, n - 1);
      FirstChunksPlaced(l, n - 1, prev);
      FirstChunksCount(l, n - 1);
      forall j | |prev| <= j < |s| ensures s[j].pieceIndex == n - 1 && InPiece(l, n - 1, j) {
        assert s[j] == ChunksOf(l, n - 1)[j - |prev|];
      }
    }
  }

  /** The places of different pieces are different. */
  lemma InOnePiece(l: Lengths, p: nat, q: nat, j: nat)
    requires Shaped(l) && p <= l.lastPieceId && q <= l.lastPieceId && InPiece(l, p, j)
    ensures InPiece(l, q, j) <==> q == p
  {
    PieceChunks(l, l.lastPieceId);
    LastIsShort(l);
    if p < q { MulLt(p, q, l.chunksPerPiece); }
    if q < p { MulLt(q, p, l.chunksPerPiece); }
  }

  lemma LastIsShort(l: Lengths)
    requires Shaped(l)
    ensures 1 <= ChunksIn(l, l.lastPieceId) <= l.chunksPerPiece
  {
    PieceChunks(l, l.lastPieceId);
    CeilMonotone(l.lastPieceLength, l.pieceLength);
  }

  lemma CeilMonotone(a: nat, b: nat)
    requires a <= b
    ensures DivCeil(a, CHUNK_SIZE) <= DivCeil(b, CHUNK_SIZE)
  {
  }

  /** Below 2^32 chunks nothing wraps. */
  lemma RangeIsPlace(l: Lengths, p: nat, j: nat)
    requires Shaped(l) && p <= l.lastPieceId && TotalChunks(l) < U32_RANGE
    ensures ChunkRange(l, p).0 <= j < ChunkRange(l, p).1 <==> InPiece(l, p, j)
  {
    IndexBound(l, p);
    RangeFrom(l, p, p * l.chunksPerPiece, ChunksIn(l, p), j);
  }

  lemma RangeFrom(l: Lengths, p: nat, base: nat, k: nat, j: nat)
    requires base == p * l.chunksPerPiece && k == ChunksIn(l, p) && base + k < U32_RANGE
    ensures ChunkRange(l, p).0 <= j < ChunkRange(l, p).1 <==> InPiece(l, p, j)
  {
    SmallRange(base, k, j);
  }

  lemma SmallRange(base: nat, k: nat, j: nat)
    requires base + k < U32_RANGE
    ensures Wrap(base) <= j < Wrap(Wrap(base) + k) <==> base <= j < base + k
  {
    SmallIndex(base, 0);
    SmallIndex(base, k);
  }

  /**
    Over all pieces, chunk_range gives exactly the places of a piece's chunks if and only if there
    are fewer than 2^32 chunks. With 2^32 of them the chunk in the last place is in no range.
   */
  lemma ChunkRangesIff(l: Lengths)
    requires Shaped(l)
    ensures RangesExact(l, FirstChunks(l, l.lastPieceId + 1)) <==> TotalChunks(l) < U32_RANGE
  {
    var n := l.lastPieceId + 1;
    var s := FirstChunks(l, n);
    FirstChunksCount(l, n);
    FirstChunksPlaced(l, n, s);
    if TotalChunks(l) < U32_RANGE {
      forall j, p | 0 <= j < |s| && 0 <= p <= l.lastPieceId
        ensures s[j].pieceIndex == p <==> ChunkRange(l, p).0 <= j < ChunkRange(l, p).1
      {
        InOnePiece(l, s[j].pieceIndex, p, j);
        RangeIsPlace(l, p, j);
      }
    } else {
      var j := U32_RANGE - 1;
      assert s[j].pieceIndex <= l.lastPieceId && ChunkRange(l, s[j].pieceIndex).1 <= j;
    }
  }

  /** Such a content is one of 2^46 bytes in pieces of 2^15: the range of its last piece ends at 0. */
  lemma LastRangeEmpty()
    ensures var l := New(0x4000_0000_0000, 0x8000).value;
            && Shaped(l) && TotalChunks(l) == U32_RANGE
            && ChunkRange(l, l.lastPieceId) == (U32_RANGE - 2, 0) && ChunksIn(l, l.lastPieceId) == 2
  {
    assert DivCeil(0x4000_0000_0000, 0x8000) == 0x8000_0000;
  }

  /** A kept index stays below 2^32. */
  lemma {:induction false} IndexFits(l: Lengths, n: nat, s: seq<ChunkInfo>, j: nat)
    requires Shaped(l) && s == FirstChunks(l, n) && j < |s|
    ensures s[j].absoluteIndex < U32_RANGE
  {
    var prev := FirstChunks(l, n - 1);
    if j < |prev| {
      IndexFits(l, n - 1, prev, j);
    } else {
      assert s[j] == ChunksOf(l, n - 1)[j - |prev|];
    }
  }

  /**
    Over all pieces, the chunks tile the content from its first to its last byte. Their absolute
    indices count from 0 to the number of chunks exactly when the last index fits 32 bits, and
    total_chunks is their number exactly when that fits 32 bits.
   */
  lemma ChunksTileContent(l: Lengths)
    requires Shaped(l)
    ensures var s := FirstChunks(l, l.lastPieceId + 1);
            && TileContent(l, s, l.totalLength)
            && |s| == TotalChunks(l)
            && (KeptTotalChunks(l) == |s| <==> TotalChunks(l) < U32_RANGE)
            && (IndexedByPosition(s) <==> TotalChunks(l) <= U32_RANGE)
  {
    var n := l.lastPieceId + 1;
    var s := FirstChunks(l, n);
    FirstChunksTile(l, n, s, l.totalLength);
    FirstChunksCount(l, n);
    WrapSum(l.lastPieceId * l.chunksPerPiece, ChunksIn(l, l.lastPieceId));
    if TotalChunks(l) <= U32_RANGE {
      FirstChunksIndexed(l, n, s);
    } else {
      IndexFits(l, n, s, |s| - 1);
    }
  }
}
