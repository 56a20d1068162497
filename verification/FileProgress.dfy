/**
  The per-file counts of verified bytes (crates/librtbit/src/chunk_tracker.rs), kept up to date
  piece by piece (crates/librtbit/src/torrent_state/live/mod.rs) instead of being recalculated.
 */
module FileProgress {
  import opened Numbers
  import opened Sorting
  import opened Geometry
  import opened Files

  function SizeIn(l: Lengths, piece: nat, f: FileInfo): nat {
    SizeOfPieceInFile(l, piece, f.offset, f.length)
  }

  /** What recalculate_per_file_bytes adds up over the pieces a..b. */
  function HaveBytes(l: Lengths, have: seq<bool>, f: FileInfo, a: nat, b: nat): nat
    requires b <= |have|
  {
    if b <= a then 0
    else HaveBytes(l, have, f, a, b - 1) + if have[b - 1] then SizeIn(l, b - 1, f) else 0
  }

  /** Verifying one more piece adds its share, if it is one of the pieces counted. */
  lemma {:induction false} HaveMore(l: Lengths, have: seq<bool>, f: FileInfo, a: nat, b: nat, p: nat)
    requires b <= |have| && p < |have| && !have[p]
    ensures HaveBytes(l, have[p := true], f, a, b)
            == HaveBytes(l, have, f, a, b) + if a <= p < b then SizeIn(l, p, f) else 0
  {
    if a < b {
      HaveMore(l, have, f, a, b - 1, p);
    }
  }

  /** The count is the whole sum exactly when every piece that has bytes is verified. */
  lemma {:induction false} HaveAllIff(l: Lengths, have: seq<bool>, f: FileInfo, a: nat, b: nat)
    requires b <= |have|
    requires forall p :: a <= p < b ==> SizeIn(l, p, f) > 0
    ensures HaveBytes(l, have, f, a, b) <= SumSizes(l, a, b, f.offset, f.length)
    ensures HaveBytes(l, have, f, a, b) == SumSizes(l, a, b, f.offset, f.length) <==> forall p :: a <= p < b ==> have[p]
  {
    if a < b {
      HaveAllIff(l, have, f, a, b - 1);
      assert SizeIn(l, b - 1, f) > 0;
    }
  }

  ghost predicate Holds(f: FileInfo, p: nat) {
    f.first <= p < f.end
  }

  /** The files the completion loop visits: the first run of files whose range holds the piece. */
  ghost predicate Visited(files: seq<FileInfo>, p: nat, i: nat)
    requires i < |files|
  {
    Holds(files[i], p) && forall j, k :: 0 <= j < k < i && Holds(files[j], p) ==> Holds(files[k], p)
  }

  /** No empty file lies between two files that share the piece. */
  ghost predicate NoEmptyBetween(files: seq<FileInfo>, p: nat) {
    forall i, j, k :: 0 <= i < j < k < |files| && Holds(files[i], p) && Holds(files[k], p) ==> files[j].length > 0
  }

  ghost predicate FilesOf(l: Lengths, lens: seq<nat>, files: seq<FileInfo>) {
    && Shaped(l) && l.lastPieceId + 1 < U32_RANGE
    && LaidOut(l, lens, files) && Sum(lens) == l.totalLength
  }

  /** A file's range holds a piece exactly when the piece has bytes in it. */
  lemma HoldsIff(l: Lengths, lens: seq<nat>, files: seq<FileInfo>, i: nat, p: nat)
    requires FilesOf(l, lens, files) && i < |files| && p <= l.lastPieceId
    ensures Holds(files[i], p) <==> SizeIn(l, p, files[i]) > 0
  {
    FileInside(l, lens, files, i);
    PiecesWithinExact(l, files[i].offset, files[i].length, p);
    SizeIsShared(l, p, files[i].offset, files[i].length);
  }

  lemma RangeInside(l: Lengths, lens: seq<nat>, files: seq<FileInfo>, i: nat)
    requires FilesOf(l, lens, files) && i < |files|
    ensures files[i].first <= l.lastPieceId + 1 && files[i].end <= l.lastPieceId + 1
  {
    var from := Min(files[i].offset, l.totalLength);
    var to := Min(from + files[i].length, l.totalLength);
    QuotientsFit(l, from);
    QuotientsFit(l, to);
    ContentEnd(l);
    QuotientLe(from, l.pieceLength, l.lastPieceId + 1);
  }

  /** Between two files that share a piece, the non-empty files share it too. */
  lemma BetweenHolds(l: Lengths, lens: seq<nat>, files: seq<FileInfo>, i: nat, j: nat, k: nat, p: nat)
    requires FilesOf(l, lens, files) && i < j < k < |files| && p <= l.lastPieceId
    requires Holds(files[i], p) && Holds(files[k], p)
    ensures Holds(files[j], p) <==> files[j].length > 0
  {
    HoldsIff(l, lens, files, i, p);
    HoldsIff(l, lens, files, j, p);
    HoldsIff(l, lens, files, k, p);
    FilesOrdered(l, lens, files, i, j);
    FilesOrdered(l, lens, files, j, k);
  }

  /** The loop reaches every file that shares the piece exactly when no empty file interrupts them. */
  lemma VisitsAllIff(l: Lengths, lens: seq<nat>, files: seq<FileInfo>, p: nat)
    requires FilesOf(l, lens, files) && p <= l.lastPieceId
    ensures (forall i :: 0 <= i < |files| && Holds(files[i], p) ==> Visited(files, p, i)) <==> NoEmptyBetween(files, p)
  {
    forall i, j, k | 0 <= i < j < k < |files| && Holds(files[i], p) && Holds(files[k], p)
      ensures Holds(files[j], p) <==> files[j].length > 0
    {
      BetweenHolds(l, lens, files, i, j, k, p);
    }
    if !NoEmptyBetween(files, p) {
      var i, j, k :| 0 <= i < j < k < |files| && Holds(files[i], p) && Holds(files[k], p) && files[j].length == 0;
      assert !Visited(files, p, k);
    }
  }

  /** What recalculating a file's count would give. */
  function TrueCount(l: Lengths, have: seq<bool>, f: FileInfo): nat
    requires f.end <= |have|
  {
    HaveBytes(l, have, f, f.first, f.end)
  }

  ghost predicate RangesFit(files: seq<FileInfo>, n: nat) {
    forall i :: 0 <= i < |files| ==> files[i].first <= n && files[i].end <= n
  }

  /** All counts are what recalculating them would give. */
  ghost predicate InStep(l: Lengths, files: seq<FileInfo>, have: seq<bool>, bytes: seq<nat>)
    requires RangesFit(files, |have|)
  {
    |bytes| == |files| && forall i :: 0 <= i < |files| ==> bytes[i] == TrueCount(l, have, files[i])
  }

  /** No count is more than recalculating it would give. */
  ghost predicate Lagging(l: Lengths, files: seq<FileInfo>, have: seq<bool>, bytes: seq<nat>)
    requires RangesFit(files, |have|)
  {
    |bytes| == |files| && forall i :: 0 <= i < |files| ==> bytes[i] <= TrueCount(l, have, files[i])
  }

  /** What the completion of a piece makes of the counts. */
  ghost function AfterLoop(l: Lengths, files: seq<FileInfo>, bytes: seq<nat>, p: nat): seq<nat>
    requires |bytes| == |files|
  {
    seq(|files|, i requires 0 <= i < |files| =>
      bytes[i] + if Visited(files, p, i) then SizeIn(l, p, files[i]) else 0)
  }

  /** A file's count is right afterwards exactly when it was before and the loop visits it or has no need to. */
  lemma CountRightIff(l: Lengths, lens: seq<nat>, files: seq<FileInfo>, have: seq<bool>, b: nat, p: nat, i: nat)
    requires FilesOf(l, lens, files) && |have| == l.lastPieceId + 1 && p < |have| && !have[p]
    requires i < |files| && files[i].end <= |have| && b <= TrueCount(l, have, files[i])
    ensures var size := if Visited(files, p, i) then SizeIn(l, p, files[i]) else 0;
            var right := TrueCount(l, have[p := true], files[i]);
            && b + size <= right
            && (b + size == right
                <==> b == TrueCount(l, have, files[i]) && (Holds(files[i], p) ==> Visited(files, p, i)))
  {
    HoldsIff(l, lens, files, i, p);
    HaveMore(l, have, files[i], files[i].first, files[i].end, p);
  }

  /**
    The completion of a piece never makes a count too large. Afterwards all counts are right
    exactly when they were before and the loop was not interrupted: no later piece makes good
    for one that was missed.
   */
  lemma LoopKeepsStepIff(l: Lengths, lens: seq<nat>, files: seq<FileInfo>, have: seq<bool>, bytes: seq<nat>, p: nat,
                         after: seq<nat>)
    requires FilesOf(l, lens, files) && |have| == l.lastPieceId + 1 && p < |have| && !have[p]
    requires RangesFit(files, |have|) && Lagging(l, files, have, bytes) && after == AfterLoop(l, files, bytes, p)
    ensures Lagging(l, files, have[p := true], after)
    ensures InStep(l, files, have[p := true], after) <==> InStep(l, files, have, bytes) && NoEmptyBetween(files, p)
  {
    VisitsAllIff(l, lens, files, p);
    var more := have[p := true];
    forall i | 0 <= i < |files|
      ensures after[i] <= TrueCount(l, more, files[i])
      ensures after[i] == TrueCount(l, more, files[i])
              <==> bytes[i] == TrueCount(l, have, files[i]) && (Holds(files[i], p) ==> Visited(files, p, i))
    {
      CountRightIff(l, lens, files, have, bytes[i], p, i);
    }
  }

  /** The true count of a file is its length exactly when all its pieces are verified. */
  lemma FinishedIff(l: Lengths, lens: seq<nat>, files: seq<FileInfo>, have: seq<bool>, i: nat)
    requires FilesOf(l, lens, files) && |have| == l.lastPieceId + 1 && i < |files| && files[i].end <= |have|
    ensures TrueCount(l, have, files[i]) <= files[i].length
    ensures TrueCount(l, have, files[i]) == files[i].length
            <==> forall p :: files[i].first <= p < files[i].end ==> have[p]
  {
    FileInside(l, lens, files, i);
    FileSizesSum(l, files[i].offset, files[i].length);
    forall p | files[i].first <= p < files[i].end
      ensures SizeIn(l, p, files[i]) > 0
    {
      HoldsIff(l, lens, files, i, p);
    }
    HaveAllIff(l, have, files[i], files[i].first, files[i].end);
  }

  /** Three files of one, no and one byte in a single piece: the last is left behind. */
  lemma EmptyFileInterrupts(l: Lengths, lens: seq<nat>, files: seq<FileInfo>)
    requires l == Lengths(2, 2, 0, 2, 1) && lens == [1, 0, 1] && LaidOut(l, lens, files)
    ensures FilesOf(l, lens, files) && !NoEmptyBetween(files, 0)
  {
    OneNoneOne(lens);
    HoldsIff(l, lens, files, 0, 0);
    HoldsIff(l, lens, files, 2, 0);
    assert files[1].length == 0;
  }

  lemma OneNoneOne(lens: seq<nat>)
    requires lens == [1, 0, 1]
    ensures Sum(lens[..0]) == 0 && Sum(lens[..1]) == 1 && Sum(lens[..2]) == 1 && Sum(lens) == 2
  {
    assert lens[..3] == lens;
    SumStep(lens, 0);
    SumStep(lens, 1);
    SumStep(lens, 2);
  }

  /** The counts of files start..end have grown by their share of the piece, the others not. */
  ghost predicate Added(l: Lengths, files: seq<FileInfo>, before: seq<nat>, after: seq<nat>,
                        p: nat, start: nat, end: nat)
  {
    && |before| == |after| == |files|
    && forall k :: 0 <= k < |files| ==>
         after[k] == before[k] + if start <= k < end then SizeIn(l, p, files[k]) else 0
  }

  /** One more file is counted. */
  lemma AddOne(l: Lengths, files: seq<FileInfo>, before: seq<nat>, mid: seq<nat>, after: seq<nat>,
               p: nat, start: nat, i: nat)
    requires start <= i < |files| && Added(l, files, before, mid, p, start, i)
    requires after == mid[i := mid[i] + SizeIn(l, p, files[i])]
    ensures Added(l, files, before, after, p, start, i + 1)
  {
  }

  /** Adding to the files visited is what the loop is meant to do. */
  lemma AddedIsAfter(l: Lengths, files: seq<FileInfo>, before: seq<nat>, after: seq<nat>, p: nat, start: nat, end: nat)
    requires Added(l, files, before, after, p, start, end)
    requires forall k :: 0 <= k < |files| ==> (Visited(files, p, k) <==> start <= k < end)
    ensures after == AfterLoop(l, files, before, p)
  {
  }

  /** The first run of files that hold the piece are the files visited. */
  lemma FirstRun(files: seq<FileInfo>, p: nat, start: nat, end: nat)
    requires start <= end <= |files|
    requires forall k :: 0 <= k < start ==> !Holds(files[k], p)
    requires forall k :: start <= k < end ==> Holds(files[k], p)
    requires start < |files| ==> Holds(files[start], p)
    requires end < |files| ==> !Holds(files[end], p)
    ensures forall k :: 0 <= k < |files| ==> (Visited(files, p, k) <==> start <= k < end)
  {
    forall k | 0 <= k < |files| ensures Visited(files, p, k) <==> start <= k < end {
      if end < k {
        assert Holds(files[start], p) && !Holds(files[end], p);
      }
    }
  }

  class ChunkTracker {
    const lengths: Lengths
    const files: seq<FileInfo>
    ghost const lens: seq<nat>
    var have: seq<bool>
    var perFileBytes: seq<nat>

    ghost predicate Fits()
      reads this
    {
      FilesOf(lengths, lens, files) && |have| == lengths.lastPieceId + 1 && RangesFit(files, |have|)
    }

    ghost predicate Valid()
      reads this
    {
      Fits() && Lagging(lengths, files, have, perFileBytes)
    }

    ghost predicate Accurate()
      requires RangesFit(files, |have|)
      reads this
    {
      InStep(lengths, files, have, perFileBytes)
    }

    constructor (l: Lengths, lens: seq<nat>, have: seq<bool>)
      requires Shaped(l) && l.lastPieceId + 1 < U32_RANGE && Sum(lens) == l.totalLength
      requires |have| == l.lastPieceId + 1
      ensures lengths == l && this.have == have && LaidOut(l, lens, files)
      ensures Valid() && Accurate()
    {
      var infos := IterFileDetails(l, lens);
      forall i | 0 <= i < |infos| ensures infos[i].first <= |have| && infos[i].end <= |have| {
        RangeInside(l, lens, infos, i);
      }
      lengths, files, this.lens, this.have := l, infos, lens, have;
      perFileBytes := seq(|infos|, i => 0);
      new;
      RecalculatePerFileBytes();
    }

    method RecalculateFile(f: FileInfo) returns (total: nat)
      requires f.first <= |have| && f.end <= |have|
      ensures total == TrueCount(lengths, have, f)
    {
      total := 0;
      var p := f.first;
      while p < f.end
        invariant f.first <= p <= |have| && (p <= f.end || p == f.first)
        invariant total == HaveBytes(lengths, have, f, f.first, p)
      {
        if have[p] {
          total := total + SizeIn(lengths, p, f);
        }
        p := p + 1;
      }
    }

    method RecalculatePerFileBytes()
      requires Fits() && |perFileBytes| == |files|
      modifies `perFileBytes
      ensures Valid() && Accurate()
    {
      for i := 0 to |files|
        invariant |perFileBytes| == |files|
        invariant forall k :: 0 <= k < i ==> perFileBytes[k] == TrueCount(lengths, have, files[k])
      {
        var total := RecalculateFile(files[i]);
        perFileBytes := perFileBytes[i := total];
      }
    }

    method UpdateFileHave(p: nat, i: nat) returns (remaining: nat)
      requires i < |files| == |perFileBytes|
      modifies `perFileBytes
      ensures perFileBytes == old(perFileBytes)[i := old(perFileBytes)[i] + SizeIn(lengths, p, files[i])]
      ensures remaining == if perFileBytes[i] < files[i].length then files[i].length - perFileBytes[i] else 0
    {
      perFileBytes := perFileBytes[i := perFileBytes[i] + SizeIn(lengths, p, files[i])];
      remaining := if perFileBytes[i] < files[i].length then files[i].length - perFileBytes[i] else 0;
    }

    /** The files up to start, none of which holds the piece, and then a run of files that do. */
    method UpdateFiles(p: nat)
      requires |perFileBytes| == |files|
      modifies `perFileBytes
      ensures perFileBytes == AfterLoop(lengths, files, old(perFileBytes), p)
    {
      var i := 0;
      while i < |files| && !(files[i].first <= p < files[i].end)
        invariant i <= |files| && forall k :: 0 <= k < i ==> !Holds(files[k], p)
      {
        i := i + 1;
      }
      ghost var start := i;
      while i < |files| && files[i].first <= p < files[i].end
        invariant start <= i <= |files| && |perFileBytes| == |files|
        invariant forall k :: start <= k < i ==> Holds(files[k], p)
        invariant Added(lengths, files, old(perFileBytes), perFileBytes, p, start, i)
      {
        ghost var mid := perFileBytes;
        var _ := UpdateFileHave(p, i);
        AddOne(lengths, files, old(perFileBytes), mid, perFileBytes, p, start, i);
        i := i + 1;
      }
      FirstRun(files, p, start, i);
      AddedIsAfter(lengths, files, old(perFileBytes), perFileBytes, p, start, i);
    }

    /** A piece is verified: mark it, then let every file in the loop's reach know. */
    method CompletePiece(p: nat)
      requires Valid() && p < |have| && !have[p]
      modifies this
      ensures Valid() && have == old(have)[p := true]
      ensures Accurate() <==> old(Accurate()) && NoEmptyBetween(files, p)
    {
      LoopKeepsStepIff(lengths, lens, files, have, perFileBytes, p, AfterLoop(lengths, files, perFileBytes, p));
      have := have[p := true];
      UpdateFiles(p);
    }
  }

  /** The pieces verified are those listed. */
  ghost predicate Verified(have: seq<bool>, order: seq<nat>) {
    forall p :: 0 <= p < |have| ==> (have[p] <==> p in order)
  }

  ghost predicate Undisturbed(files: seq<FileInfo>, order: seq<nat>) {
    forall p :: p in order ==> NoEmptyBetween(files, p)
  }

  lemma OneMore(have: seq<bool>, files: seq<FileInfo>, order: seq<nat>, i: nat)
    requires i < |order| && NoDuplicates(order) && order[i] < |have| && Verified(have, order[..i])
    ensures !have[order[i]] && Verified(have[order[i] := true], order[..i + 1])
    ensures Undisturbed(files, order[..i + 1]) <==> Undisturbed(files, order[..i]) && NoEmptyBetween(files, order[i])
  {
    assert order[..i + 1] == order[..i] + [order[i]];
    assert order[i] !in order[..i];
  }

  /**
    A whole download, in any order: the counts of a torrent that starts with nothing are right
    at the end exactly when no empty file lies between two files that share a completed piece.
   */
  method Download(l: Lengths, lens: seq<nat>, order: seq<nat>) returns (t: ChunkTracker)
    requires Shaped(l) && l.lastPieceId + 1 < U32_RANGE && Sum(lens) == l.totalLength
    requires NoDuplicates(order) && forall i :: 0 <= i < |order| ==> order[i] <= l.lastPieceId
    ensures fresh(t) && t.Valid() && t.lengths == l && LaidOut(l, lens, t.files)
    ensures Verified(t.have, order)
    ensures t.Accurate() <==> Undisturbed(t.files, order)
  {
    t := new ChunkTracker(l, lens, seq(l.lastPieceId + 1, _ => false));
    Proceed(t, order);
  }

  /** The tracker after the given pieces have completed. */
  ghost predicate Done(t: ChunkTracker, order: seq<nat>)
    reads t
  {
    t.Valid() && Verified(t.have, order) && (t.Accurate() <==> Undisturbed(t.files, order))
  }

  method Proceed(t: ChunkTracker, order: seq<nat>)
    requires Done(t, []) && NoDuplicates(order) && forall i :: 0 <= i < |order| ==> order[i] <= t.lengths.lastPieceId
    modifies t
    ensures Done(t, order)
  {
    assert order[..0] == [];
    for i := 0 to |order|
      invariant Done(t, order[..i])
    {
      CompleteNext(t, order, i);
    }
    assert order[..|order|] == order;
  }

  method CompleteNext(t: ChunkTracker, order: seq<nat>, i: nat)
    requires i < |order| && NoDuplicates(order) && order[i] <= t.lengths.lastPieceId && Done(t, order[..i])
    modifies t
    ensures Done(t, order[..i + 1])
  {
    OneMore(t.have, t.files, order, i);
    t.CompletePiece(order[i]);
  }
}
