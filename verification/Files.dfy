/**
  Files over pieces: the piece range of a file, and how many bytes of a piece lie in a file
  (crates/librtbit-core/src/lengths.rs and torrent_metainfo.rs).
 */
module Files {
  import opened Numbers
  import opened Geometry

  /** How many bytes the ranges a..b and c..d share. */
  function Overlap(a: nat, b: nat, c: nat, d: nat): nat {
    if Max(a, c) < Min(b, d) then Min(b, d) - Max(a, c) else 0
  }

  /** size_of_piece_in_file: every piece counts as having the full piece length. */
  function SizeOfPieceInFile(l: Lengths, piece: nat, offset: nat, length: nat): nat {
    Overlap(PieceOffset(l, piece), PieceOffset(l, piece) + l.pieceLength, offset, offset + length)
  }

  /** iter_pieces_within_offset: the first piece and the one past the last. */
  function PiecesWithin(l: Lengths, offset: nat, length: nat): (nat, nat)
    requires l.pieceLength > 0
  {
    var from := Min(offset, l.totalLength);
    var to := Min(from + length, l.totalLength);
    var first := Wrap(from / l.pieceLength);
    (first, if to == from then first else Wrap(DivCeil(to, l.pieceLength)))
  }

  // ---------- The piece range of a file ----------

  /** A piece is at or after the one holding byte x exactly when it ends after x. */
  lemma FromPiece(q: nat, p: nat, d: nat, x: nat)
    requires q * d <= x < q * d + d
    ensures q <= p <==> x < p * d + d
  {
    if p < q { MulLt(p, q, d); }
    if q < p { MulLt(q, p, d); }
  }

  /** A piece is before the one past byte x exactly when it begins before x. */
  lemma ToPiece(c: nat, p: nat, d: nat, x: nat)
    requires c >= 1 && (c - 1) * d < x <= c * d && d > 0
    ensures p < c <==> p * d < x
  {
    if p < c - 1 { MulLt(p, c - 1, d); }
    if c < p { MulLt(c, p, d); }
  }

  lemma QuotientLe(x: nat, d: nat, n: nat)
    requires d > 0 && x <= n * d
    ensures x / d <= n && (x > 0 ==> 1 <= DivCeil(x, d) <= n)
  {
    QuotientBounds(x, d);
    FromPiece(x / d, n, d, x);
    if x > 0 {
      CeilBounds(x, d);
      ToPiece(DivCeil(x, d), n, d, x);
    }
  }

  /** The quotients of a range inside the content fit the piece numbers. */
  lemma QuotientsFit(l: Lengths, x: nat)
    requires Shaped(l) && x <= l.totalLength && l.lastPieceId + 1 < U32_RANGE
    ensures Wrap(x / l.pieceLength) == x / l.pieceLength
    ensures x > 0 ==> Wrap(DivCeil(x, l.pieceLength)) == DivCeil(x, l.pieceLength) <= l.lastPieceId + 1
  {
    ContentEnd(l);
    SmallQuotients(x, l.pieceLength, l.lastPieceId + 1);
  }

  lemma ContentEnd(l: Lengths)
    requires Shaped(l)
    ensures l.totalLength <= (l.lastPieceId + 1) * l.pieceLength
  {
    NextPiece(l, l.lastPieceId);
  }

  lemma SmallQuotients(x: nat, d: nat, n: nat)
    requires d > 0 && x <= n * d && n < U32_RANGE
    ensures Wrap(x / d) == x / d
    ensures x > 0 ==> Wrap(DivCeil(x, d)) == DivCeil(x, d) <= n
  {
    QuotientLe(x, d, n);
    FitsWrap(x / d);
    if x > 0 { FitsWrap(DivCeil(x, d)); }
  }

  lemma FitsWrap(x: nat)
    requires x < U32_RANGE
    ensures Wrap(x) == x
  {
  }

  /** The bytes a piece really has in common with a range of the content. */
  function Shared(l: Lengths, piece: nat, offset: nat, length: nat): nat {
    Overlap(PieceOffset(l, piece), PieceOffset(l, piece) + PieceLength(l, piece), offset, offset + length)
  }

  /** The range holds exactly the pieces that have a byte in the file, for any offset and length. */
  lemma PiecesWithinExact(l: Lengths, offset: nat, length: nat, piece: nat)
    requires Shaped(l) && l.lastPieceId + 1 < U32_RANGE
    ensures var r := PiecesWithin(l, offset, length);
            r.0 <= piece < r.1 <==> piece <= l.lastPieceId && Shared(l, piece, offset, length) > 0
  {
    var from := Min(offset, l.totalLength);
    var to := Min(from + length, l.totalLength);
    QuotientsFit(l, from);
    QuotientsFit(l, to);
    QuotientBounds(from, l.pieceLength);
    FromPiece(from / l.pieceLength, piece, l.pieceLength, from);
    if to > from {
      CeilBounds(to, l.pieceLength);
      ToPiece(DivCeil(to, l.pieceLength), piece, l.pieceLength, to);
    }
    PieceEnd(l, piece);
  }

  /** A piece ends inside the content, and only pieces past the last begin after it. */
  lemma PieceEnd(l: Lengths, piece: nat)
    requires Shaped(l)
    ensures piece <= l.lastPieceId ==>
              PieceOffset(l, piece) + PieceLength(l, piece) == Min(PieceOffset(l, piece) + l.pieceLength, l.totalLength)
    ensures piece > l.lastPieceId ==> PieceOffset(l, piece) >= l.totalLength
  {
    if piece < l.lastPieceId { MulLt(piece, l.lastPieceId, l.pieceLength); }
    if piece > l.lastPieceId { MulLt(l.lastPieceId, piece, l.pieceLength); }
  }

  /** With the largest number of pieces the range of the whole content comes out empty, and only then. */
  lemma WholeRangeIff(l: Lengths)
    requires Shaped(l) && l.lastPieceId < U32_RANGE
    ensures PiecesWithin(l, 0, l.totalLength).1 == l.lastPieceId + 1 <==> l.lastPieceId + 1 < U32_RANGE
  {
    if l.lastPieceId + 1 < U32_RANGE {
      PiecesWithinExact(l, 0, l.totalLength, l.lastPieceId);
      PiecesWithinExact(l, 0, l.totalLength, l.lastPieceId + 1);
      PieceEnd(l, l.lastPieceId);
    }
  }

  /** Inside the content the size the source computes is the true one. */
  lemma SizeIsShared(l: Lengths, piece: nat, offset: nat, length: nat)
    requires Shaped(l) && piece <= l.lastPieceId && offset + length <= l.totalLength
    ensures SizeOfPieceInFile(l, piece, offset, length) == Shared(l, piece, offset, length)
  {
    PieceEnd(l, piece);
  }

  // ---------- Summing over pieces ----------

  /** The sizes of the pieces a..b in a file, added up. */
  function SumSizes(l: Lengths, a: nat, b: nat, offset: nat, length: nat): nat {
    if b <= a then 0 else SumSizes(l, a, b - 1, offset, length) + SizeOfPieceInFile(l, b - 1, offset, length)
  }

  lemma OverlapSplits(a: nat, m: nat, b: nat, c: nat, d: nat)
    requires a <= m <= b && c <= d
    ensures Overlap(a, m, c, d) + Overlap(m, b, c, d) == Overlap(a, b, c, d)
    ensures Overlap(c, d, a, m) + Overlap(c, d, m, b) == Overlap(c, d, a, b)
  {
  }

  lemma {:induction false} SumIsOverlap(l: Lengths, a: nat, b: nat, offset: nat, length: nat)
    requires a <= b && l.pieceLength > 0
    ensures SumSizes(l, a, b, offset, length) == Overlap(PieceOffset(l, a), PieceOffset(l, b), offset, offset + length)
  {
    if a < b {
      var start, mid, end := PieceOffset(l, a), PieceOffset(l, b - 1), PieceOffset(l, b);
      SumIsOverlap(l, a, b - 1, offset, length);
      assert start <= mid && end == mid + l.pieceLength by {
        NextPiece(l, b - 1);
        if a < b - 1 { MulLt(a, b - 1, l.pieceLength); }
      }
      OverlapSplits(start, mid, end, offset, offset + length);
    }
  }

  /** Over the file's own range of pieces the sizes add up to the file's length. */
  lemma FileSizesSum(l: Lengths, offset: nat, length: nat)
    requires Shaped(l) && l.lastPieceId + 1 < U32_RANGE && offset + length <= l.totalLength
    ensures var r := PiecesWithin(l, offset, length);
            r.0 <= r.1 <= l.lastPieceId + 1 || length == 0
    ensures var r := PiecesWithin(l, offset, length); SumSizes(l, r.0, r.1, offset, length) == length
  {
    if length > 0 {
      var to := offset + length;
      QuotientsFit(l, offset);
      QuotientsFit(l, to);
      QuotientBounds(offset, l.pieceLength);
      CeilBounds(to, l.pieceLength);
      ToPiece(DivCeil(to, l.pieceLength), offset / l.pieceLength, l.pieceLength, to);
      SumIsOverlap(l, offset / l.pieceLength, DivCeil(to, l.pieceLength), offset, length);
    }
  }

  // ---------- Laying out the files ----------

  datatype FileInfo = FileInfo(offset: nat, length: nat, first: nat, end: nat)

  function Sum(lens: seq<nat>): nat {
    if lens == [] then 0 else Sum(lens[..|lens| - 1]) + lens[|lens| - 1]
  }

  function FileAt(l: Lengths, offset: nat, length: nat): FileInfo
    requires l.pieceLength > 0
  {
    var r := PiecesWithin(l, offset, length);
    FileInfo(offset, length, r.0, r.1)
  }

  /** Each file begins where those before it end. */
  ghost predicate LaidOut(l: Lengths, lens: seq<nat>, files: seq<FileInfo>)
    requires l.pieceLength > 0
  {
    && |files| == |lens|
    && forall i :: 0 <= i < |files| ==> files[i] == FileAt(l, Sum(lens[..i]), lens[i])
  }

  /** iter_file_details_ext: the running offset gives every file its place and its pieces. */
  method IterFileDetails(l: Lengths, lens: seq<nat>) returns (files: seq<FileInfo>)
    requires l.pieceLength > 0
    ensures LaidOut(l, lens, files)
  {
    var accOffset := 0;
    files := [];
    for i := 0 to |lens|
      invariant accOffset == Sum(lens[..i]) && FirstLaidOut(l, lens, files, i)
    {
      var file := FileAt(l, accOffset, lens[i]);
      OneMoreFile(l, lens, files, i, file);
      files := files + [file];
      accOffset := accOffset + lens[i];
    }
  }

  ghost predicate FirstLaidOut(l: Lengths, lens: seq<nat>, files: seq<FileInfo>, n: nat)
    requires l.pieceLength > 0 && n <= |lens|
  {
    |files| == n && forall i :: 0 <= i < n ==> files[i] == FileAt(l, Sum(lens[..i]), lens[i])
  }

  lemma OneMoreFile(l: Lengths, lens: seq<nat>, files: seq<FileInfo>, n: nat, file: FileInfo)
    requires l.pieceLength > 0 && n < |lens| && FirstLaidOut(l, lens, files, n)
    requires file == FileAt(l, Sum(lens[..n]), lens[n])
    ensures FirstLaidOut(l, lens, files + [file], n + 1) && Sum(lens[..n + 1]) == Sum(lens[..n]) + lens[n]
  {
    assert lens[..n + 1][..n] == lens[..n];
  }

  /** The bytes of a piece in the first n files, added up. */
  function SumOverFiles(l: Lengths, piece: nat, files: seq<FileInfo>, n: nat): nat
    requires n <= |files|
  {
    if n == 0 then 0
    else SumOverFiles(l, piece, files, n - 1) + SizeOfPieceInFile(l, piece, files[n - 1].offset, files[n - 1].length)
  }

  lemma SumStep(lens: seq<nat>, n: nat)
    requires n < |lens|
    ensures Sum(lens[..n + 1]) == Sum(lens[..n]) + lens[n]
  {
    assert lens[..n + 1][..n] == lens[..n];
  }

  lemma {:induction false} SumOverFilesIs(l: Lengths, piece: nat, lens: seq<nat>, files: seq<FileInfo>, n: nat)
    requires l.pieceLength > 0 && LaidOut(l, lens, files) && n <= |files|
    ensures SumOverFiles(l, piece, files, n)
            == Overlap(PieceOffset(l, piece), PieceOffset(l, piece) + l.pieceLength, 0, Sum(lens[..n]))
  {
    if n > 0 {
      SumOverFilesIs(l, piece, lens, files, n - 1);
      SumStep(lens, n - 1);
      var start := PieceOffset(l, piece);
      OverlapSplits(0, Sum(lens[..n - 1]), Sum(lens[..n]), start, start + l.pieceLength);
    }
  }

  /** Over all files the sizes of a piece add up to the piece's length. */
  lemma PieceSizesSum(l: Lengths, piece: nat, lens: seq<nat>, files: seq<FileInfo>)
    requires Shaped(l) && LaidOut(l, lens, files) && Sum(lens) == l.totalLength && piece <= l.lastPieceId
    ensures SumOverFiles(l, piece, files, |files|) == PieceLength(l, piece)
  {
    SumOverFilesIs(l, piece, lens, files, |files|);
    assert lens[..|files|] == lens;
    PieceEnd(l, piece);
  }

  /** Files do not overlap, lie in order and inside the content. */
  lemma {:induction false} SumMonotone(lens: seq<nat>, i: nat, j: nat)
    requires i <= j <= |lens|
    ensures Sum(lens[..i]) <= Sum(lens[..j])
  {
    if i < j {
      SumMonotone(lens, i, j - 1);
      SumStep(lens, j - 1);
    }
  }

  lemma FilesOrdered(l: Lengths, lens: seq<nat>, files: seq<FileInfo>, i: nat, j: nat)
    requires l.pieceLength > 0 && LaidOut(l, lens, files) && i < j < |files|
    ensures files[i].offset + files[i].length <= files[j].offset
  {
    SumStep(lens, i);
    SumMonotone(lens, i + 1, j);
  }

  lemma FileInside(l: Lengths, lens: seq<nat>, files: seq<FileInfo>, i: nat)
    requires l.pieceLength > 0 && LaidOut(l, lens, files) && i < |files| && Sum(lens) == l.totalLength
    ensures files[i].offset + files[i].length <= l.totalLength
  {
    SumStep(lens, i);
    SumMonotone(lens, i + 1, |lens|);
    assert lens[..|lens|] == lens;
  }
}
