/**
  The routing table's buckets: a binary tree of id ranges kept in a growable array
  (crates/librtbit-dht/src/routing_table.rs). This module holds the array's meaning and the
  facts about it; module RoutingTables holds the operations.
 */
module BucketTrees {
  import opened Ids
  import opened Net
  import opened Sorting

  const BUCKET_SIZE: nat := 8
  const INACTIVITY_TIMEOUT: nat := 15 * 60 * SECOND

  datatype NodeStatus = Good | Questionable | Bad | Unknown

  datatype RoutingTableNode = RoutingTableNode(
    id: Id, addr: SocketAddr,
    lastRequest: Option<Instant>, lastResponse: Option<Instant>, lastQuery: Option<Instant>,
    errorsInARow: nat)
  {
    predicate HeardWithin(now: Instant, t: Option<Instant>) {
      t.Some? && Since(now, t.value) < INACTIVITY_TIMEOUT
    }

    predicate SilentSince(now: Instant, t: Option<Instant>) {
      t.Some? && Since(now, t.value) > INACTIVITY_TIMEOUT
      && (lastRequest.Some? ==> Since(now, lastRequest.value) > INACTIVITY_TIMEOUT)
    }

    function Status(now: Instant): NodeStatus {
      if lastRequest.Some? && errorsInARow >= 2 then Bad
      else if lastRequest.Some? && lastResponse.Some?
              && (HeardWithin(now, lastResponse) || HeardWithin(now, lastQuery)) then Good
      else if SilentSince(now, lastQuery) || SilentSince(now, lastResponse) then Questionable
      else Unknown
    }

    function MarkOutgoingRequest(now: Instant): RoutingTableNode {
      this.(lastRequest := Some(now))
    }

    function MarkLastQuery(now: Instant): RoutingTableNode {
      this.(lastQuery := Some(now))
    }

    function MarkResponse(now: Instant): RoutingTableNode {
      this.(lastResponse := Some(now), errorsInARow := 0,
            lastRequest := if lastRequest.None? then Some(now) else lastRequest)
    }

    function MarkError(): RoutingTableNode {
      this.(errorsInARow := errorsInARow + 1)
    }
  }

  function NewNode(id: Id, addr: SocketAddr): RoutingTableNode {
    RoutingTableNode(id, addr, None, None, None, 0)
  }

  type Nodes = seq<RoutingTableNode>

  datatype NodeData = Leaf(nodes: Nodes, lastRefreshed: Instant) | LeftRight(left: nat, right: nat)

  datatype TreeNode = TreeNode(bits: nat, start: Id, end: Id, data: NodeData)

  type TreeArray = seq<TreeNode>

  // ---------- Well-formed arrays ----------

  ghost predicate Within(id: Id, n: TreeNode) {
    InRange(id, n.start, n.end)
  }

  ghost predicate SameRange(m: TreeNode, n: TreeNode) {
    m.bits == n.bits && m.start == n.start && m.end == n.end
  }

  ghost predicate Disjoint(m: TreeNode, n: TreeNode) {
    Val(m.end) < Val(n.start) || Val(n.end) < Val(m.start)
  }

  ghost predicate Ascending(s: Nodes) {
    forall i, j :: 0 <= i < j < |s| ==> Val(s[i].id) < Val(s[j].id)
  }

  ghost predicate LeafOk(n: TreeNode, s: Nodes) {
    |s| <= BUCKET_SIZE && Ascending(s) && forall x :: x in s ==> Within(x.id, n)
  }

  /** l and r are the two halves of n. */
  ghost predicate Halves(n: TreeNode, l: TreeNode, r: TreeNode) {
    && l.bits + 1 == n.bits && r.bits + 1 == n.bits
    && l.start == n.start && Val(l.end) + 1 == Val(r.start) && r.end == n.end
    && Val(l.start) <= Val(l.end) && Val(r.start) <= Val(r.end)
  }

  /** A leaf's nodes are in order; an inner node has its two halves further on in the array. */
  ghost predicate SlotOk(d: TreeArray, i: nat)
    requires i < |d|
  {
    match d[i].data
    case Leaf(nodes, _) => LeafOk(d[i], nodes)
    case LeftRight(l, r) => i < l < |d| && i < r < |d| && Halves(d[i], d[l], d[r])
  }

  ghost predicate TreeOk(d: TreeArray) {
    forall i :: 0 <= i < |d| ==> SlotOk(d, i)
  }

  ghost predicate Aligned(d: TreeArray) {
    forall i :: 0 <= i < |d| ==> AlignedRange(d[i].start, d[i].end, d[i].bits)
  }

  /** Slot 0 is the root and spans every id. */
  ghost predicate Rooted(d: TreeArray) {
    && |d| > 0
    && d[0].bits == ID_BITS && Val(d[0].start) == 0
    && TreeOk(d) && Aligned(d)
  }

  /** Slots other than k are as in d, and k keeps its range; d' may be longer. */
  ghost predicate ChangedAt(d: TreeArray, d': TreeArray, k: nat) {
    && k < |d| <= |d'|
    && SameRange(d[k], d'[k])
    && forall j :: 0 <= j < |d| && j != k ==> d'[j] == d[j]
  }

  // ---------- What an array stores ----------

  /** The indices of the leaves below slot i, from left to right. */
  ghost function Leaves(d: TreeArray, i: nat): seq<nat>
    requires TreeOk(d) && i < |d|
    decreases |d| - i
  {
    assert SlotOk(d, i);
    match d[i].data
    case Leaf(_, _) => [i]
    case LeftRight(l, r) => Leaves(d, l) + Leaves(d, r)
  }

  /** The nodes stored below slot i, from left to right. */
  ghost function Stored(d: TreeArray, i: nat): Nodes
    requires TreeOk(d) && i < |d|
    decreases |d| - i
  {
    assert SlotOk(d, i);
    match d[i].data
    case Leaf(nodes, _) => nodes
    case LeftRight(l, r) => Stored(d, l) + Stored(d, r)
  }

  /** The comparison the source makes on the bytes. */
  predicate Covers(n: TreeNode, id: Id)
    ensures Covers(n, id) <==> Within(id, n)
  {
    LessIsNumeric(id, n.start);
    LessIsNumeric(n.end, id);
    !Less(id, n.start) && !Less(n.end, id)
  }

  ghost function FindLeaf(d: TreeArray, i: nat, id: Id): (k: nat)
    requires TreeOk(d) && i < |d|
    ensures k < |d| && d[k].data.Leaf?
    decreases |d| - i
  {
    assert SlotOk(d, i);
    match d[i].data
    case Leaf(_, _) => i
    case LeftRight(l, r) => FindLeaf(d, if Covers(d[l], id) then l else r, id)
  }

  lemma {:induction false} FindLeafCovers(d: TreeArray, i: nat, id: Id)
    requires TreeOk(d) && i < |d| && Within(id, d[i])
    ensures var k := d[FindLeaf(d, i, id)];
            Within(id, k) && Val(d[i].start) <= Val(k.start) && Val(k.end) <= Val(d[i].end)
    decreases |d| - i
  {
    assert SlotOk(d, i);
    if d[i].data.LeftRight? {
      FindLeafCovers(d, if Covers(d[d[i].data.left], id) then d[i].data.left else d[i].data.right, id);
    }
  }

  lemma {:induction false} FindLeafShared(d: TreeArray, i: nat, id: Id, other: Id)
    requires TreeOk(d) && i < |d| && Within(id, d[i]) && Within(other, d[FindLeaf(d, i, id)])
    ensures FindLeaf(d, i, other) == FindLeaf(d, i, id)
    decreases |d| - i
  {
    assert SlotOk(d, i);
    if d[i].data.LeftRight? {
      var c := if Covers(d[d[i].data.left], id) then d[i].data.left else d[i].data.right;
      FindLeafCovers(d, c, id);
      FindLeafShared(d, c, id, other);
    }
  }

  ghost predicate LeafSlots(d: TreeArray, s: seq<nat>) {
    forall j :: 0 <= j < |s| ==> s[j] < |d| && d[s[j]].data.Leaf?
  }

  /** The slots in s are leaves whose ranges follow one another from lo to hi without gap or overlap. */
  ghost predicate Tile(d: TreeArray, s: seq<nat>, lo: Id, hi: Id) {
    && |s| > 0
    && LeafSlots(d, s)
    && d[s[0]].start == lo && d[s[|s| - 1]].end == hi
    && (forall j :: 0 < j < |s| ==> Val(d[s[j - 1]].end) + 1 == Val(d[s[j]].start))
  }

  lemma TileAppend(d: TreeArray, s: seq<nat>, t: seq<nat>, lo: Id, mid: Id, mid': Id, hi: Id)
    requires Tile(d, s, lo, mid) && Tile(d, t, mid', hi) && Val(mid) + 1 == Val(mid')
    ensures Tile(d, s + t, lo, hi)
  {
    var u := s + t;
    forall j | 0 < j < |u| ensures Val(d[u[j - 1]].end) + 1 == Val(d[u[j]].start) {
      if j > |s| { assert u[j - 1] == t[j - |s| - 1]; }
    }
  }

  /** From left to right, the leaves tile the range of the slot. */
  lemma {:induction false} LeavesTile(d: TreeArray, i: nat)
    requires TreeOk(d) && i < |d|
    ensures Tile(d, Leaves(d, i), d[i].start, d[i].end)
    decreases |d| - i
  {
    assert SlotOk(d, i);
    if d[i].data.LeftRight? {
      var l, r := d[i].data.left, d[i].data.right;
      LeavesTile(d, l);
      LeavesTile(d, r);
      TileAppend(d, Leaves(d, l), Leaves(d, r), d[l].start, d[l].end, d[r].start, d[r].end);
    }
  }

  lemma {:induction false} LeafWithin(d: TreeArray, i: nat, k: nat)
    requires TreeOk(d) && i < |d| && k in Leaves(d, i)
    ensures k < |d| && Val(d[i].start) <= Val(d[k].start) && Val(d[k].end) <= Val(d[i].end)
    decreases |d| - i
  {
    assert SlotOk(d, i);
    if d[i].data.LeftRight? {
      LeafWithin(d, if k in Leaves(d, d[i].data.left) then d[i].data.left else d[i].data.right, k);
    }
  }

  /** The leaf the search ends at is the only one that covers the id. */
  lemma {:induction false} OnlyLeaf(d: TreeArray, i: nat, id: Id, k: nat)
    requires TreeOk(d) && i < |d| && Within(id, d[i])
    ensures k in Leaves(d, i) && k < |d| && Within(id, d[k]) <==> k == FindLeaf(d, i, id)
    decreases |d| - i
  {
    assert SlotOk(d, i);
    if d[i].data.LeftRight? {
      var l, r := d[i].data.left, d[i].data.right;
      if k in Leaves(d, l) { LeafWithin(d, l, k); }
      if k in Leaves(d, r) { LeafWithin(d, r, k); }
      OnlyLeaf(d, if Covers(d[l], id) then l else r, id, k);
    }
  }

  /** What is stored below a slot lies in its range, in strictly ascending order. */
  lemma {:induction false} StoredAscending(d: TreeArray, i: nat)
    requires TreeOk(d) && i < |d|
    ensures Ascending(Stored(d, i)) && forall x :: x in Stored(d, i) ==> Within(x.id, d[i])
    decreases |d| - i
  {
    assert SlotOk(d, i);
    if d[i].data.LeftRight? {
      StoredAscending(d, d[i].data.left);
      StoredAscending(d, d[i].data.right);
    }
  }

  /** Looking in the one leaf that covers an id is as good as scanning every stored node. */
  lemma {:induction false} LeafHoldsId(d: TreeArray, i: nat, id: Id, x: RoutingTableNode)
    requires TreeOk(d) && i < |d| && Within(id, d[i]) && x.id == id
    ensures x in Stored(d, i) <==> x in d[FindLeaf(d, i, id)].data.nodes
    decreases |d| - i
  {
    assert SlotOk(d, i);
    if d[i].data.LeftRight? {
      StoredAscending(d, d[i].data.left);
      StoredAscending(d, d[i].data.right);
      LeafHoldsId(d, if Covers(d[d[i].data.left], id) then d[i].data.left else d[i].data.right, id, x);
    }
  }

  // ---------- Changing one slot ----------

  lemma {:induction false} DisjointUnchanged(d: TreeArray, d': TreeArray, k: nat, i: nat)
    requires TreeOk(d) && TreeOk(d') && ChangedAt(d, d', k) && i < |d| && Disjoint(d[i], d[k])
    requires Val(d[k].start) <= Val(d[k].end)
    ensures Stored(d', i) == Stored(d, i)
    decreases |d| - i
  {
    assert SlotOk(d, i);
    if d[i].data.LeftRight? {
      DisjointUnchanged(d, d', k, d[i].data.left);
      DisjointUnchanged(d, d', k, d[i].data.right);
    }
  }

  /** Changing one leaf, or splitting it, replaces just its share of the stored nodes. */
  lemma {:induction false} Substitute(d: TreeArray, d': TreeArray, i: nat, id: Id) returns (pre: Nodes, post: Nodes)
    requires TreeOk(d) && TreeOk(d') && i < |d| && Within(id, d[i])
    requires ChangedAt(d, d', FindLeaf(d, i, id))
    ensures var k := FindLeaf(d, i, id);
            Stored(d, i) == pre + Stored(d, k) + post && Stored(d', i) == pre + Stored(d', k) + post
    decreases |d| - i, 1
  {
    assert SlotOk(d, i);
    if d[i].data.Leaf? {
      pre, post := [], [];
    } else if Covers(d[d[i].data.left], id) {
      pre, post := SubstituteLeft(d, d', i, id);
    } else {
      pre, post := SubstituteRight(d, d', i, id);
    }
  }

  lemma {:induction false} SubstituteLeft(d: TreeArray, d': TreeArray, i: nat, id: Id) returns (pre: Nodes, post: Nodes)
    requires TreeOk(d) && TreeOk(d') && i < |d| && Within(id, d[i])
    requires ChangedAt(d, d', FindLeaf(d, i, id))
    requires d[i].data.LeftRight? && SlotOk(d, i) && Within(id, d[d[i].data.left])
    ensures var k := FindLeaf(d, i, id);
            Stored(d, i) == pre + Stored(d, k) + post && Stored(d', i) == pre + Stored(d', k) + post
    decreases |d| - i, 0
  {
    var k, l, r := FindLeaf(d, i, id), d[i].data.left, d[i].data.right;
    FindLeafCovers(d, l, id);
    DisjointUnchanged(d, d', k, r);
    var post';
    pre, post' := Substitute(d, d', l, id);
    post := post' + Stored(d, r);
    assert pre + Stored(d, k) + post == (pre + Stored(d, k) + post') + Stored(d, r);
    assert pre + Stored(d', k) + post == (pre + Stored(d', k) + post') + Stored(d, r);
  }

  lemma {:induction false} SubstituteRight(d: TreeArray, d': TreeArray, i: nat, id: Id)
    returns (pre: Nodes, post: Nodes)
    requires TreeOk(d) && TreeOk(d') && i < |d| && Within(id, d[i])
    requires ChangedAt(d, d', FindLeaf(d, i, id))
    requires d[i].data.LeftRight? && SlotOk(d, i) && !Within(id, d[d[i].data.left])
    ensures var k := FindLeaf(d, i, id);
            Stored(d, i) == pre + Stored(d, k) + post && Stored(d', i) == pre + Stored(d', k) + post
    decreases |d| - i, 0
  {
    var k, l, r := FindLeaf(d, i, id), d[i].data.left, d[i].data.right;
    FindLeafCovers(d, r, id);
    DisjointUnchanged(d, d', k, l);
    var pre';
    pre', post := Substitute(d, d', r, id);
    pre := Stored(d, l) + pre';
    assert pre + Stored(d, k) + post == Stored(d, l) + (pre' + Stored(d, k) + post);
    assert pre + Stored(d', k) + post == Stored(d, l) + (pre' + Stored(d', k) + post);
  }

  /** After a change at one leaf, every search runs as before until it reaches that leaf. */
  lemma {:induction false} FindAfterChange(d: TreeArray, d': TreeArray, k: nat, i: nat, id: Id)
    requires TreeOk(d) && TreeOk(d') && i < |d| && ChangedAt(d, d', k) && d[k].data.Leaf?
    ensures var j := FindLeaf(d, i, id);
            FindLeaf(d', i, id) == if j == k then FindLeaf(d', k, id) else j
    decreases |d| - i
  {
    assert SlotOk(d, i);
    if d[i].data.LeftRight? {
      var l, r := d[i].data.left, d[i].data.right;
      FindAfterChange(d, d', k, if Covers(d[l], id) then l else r, id);
    }
  }

  // ---------- Leaves in id order ----------

  /** The sort key of a leaf is the id, compared as bytes. */
  predicate IdLe(a: RoutingTableNode, b: RoutingTableNode)
    ensures IdLe(a, b) <==> Val(a.id) <= Val(b.id)
  {
    LessIsNumeric(b.id, a.id);
    !Less(b.id, a.id)
  }

  ghost predicate DistinctIds(s: Nodes) {
    forall i, j :: 0 <= i < j < |s| ==> s[i].id != s[j].id
  }

  ghost predicate HasId(s: Nodes, id: Id) {
    exists x :: x in s && x.id == id
  }

  /** Sorting nodes with distinct ids puts them in strictly ascending order. */
  lemma SortedLeaf(s: Nodes)
    requires DistinctIds(s)
    ensures Ascending(Sort(s, IdLe)) && multiset(Sort(s, IdLe)) == multiset(s)
  {
    var r := Sort(s, IdLe);
    SortCorrect(s, IdLe);
    SameElements(r, s);
    PartNoDuplicates(r, s);
    forall i, j | 0 <= i < j < |r| ensures Val(r[i].id) < Val(r[j].id) {
      assert r[i] in s && r[j] in s && IdLe(r[i], r[j]);
      LessIsNumeric(r[i].id, r[j].id);
    }
  }

  lemma {:induction false} AscendingSpan(s: Nodes)
    requires |s| > 0 && Ascending(s)
    ensures Val(s[|s| - 1].id) - Val(s[0].id) >= |s| - 1
  {
    if |s| > 1 { AscendingSpan(s[..|s| - 1]); }
  }

  /** Eight nodes and an absent ninth id in one range: the range has more than 8 ids. */
  lemma FullLeafIsWide(n: TreeNode, s: Nodes, x: RoutingTableNode)
    requires AlignedRange(n.start, n.end, n.bits) && LeafOk(n, s) && |s| == BUCKET_SIZE
    requires Within(x.id, n) && !HasId(s, x.id)
    ensures n.bits >= 4
  {
    var t := Sort(s + [x], IdLe);
    SortedLeaf(s + [x]);
    SameElements(t, s + [x]);
    AscendingSpan(t);
    assert t[0] in s + [x] && t[8] in s + [x];
    Pow2Small();
    if n.bits <= 3 { Pow2Mono(n.bits, 3); }
  }

  // ---------- Splitting ----------

  /** The leaf becomes an inner node over two new leaves, each stamped with its own time. */
  function SplitAt(d: TreeArray, k: nat, ld: Nodes, rd: Nodes, at: (Instant, Instant)): TreeArray
    requires k < |d| && 1 <= d[k].bits <= ID_BITS
  {
    var n := d[k];
    var (le, rs) := SplitBounds(n.start, n.end, n.bits);
    d[k := n.(data := LeftRight(|d|, |d| + 1))]
    + [TreeNode(n.bits - 1, n.start, le, Leaf(ld, at.0)), TreeNode(n.bits - 1, rs, n.end, Leaf(rd, at.1))]
  }

  ghost predicate SplitsInto(d: TreeArray, k: nat, ld: Nodes, rd: Nodes)
    requires k < |d| && 1 <= d[k].bits <= ID_BITS
  {
    var rs := Val(SplitBounds(d[k].start, d[k].end, d[k].bits).1);
    && d[k].data.Leaf? && d[k].data.nodes == ld + rd
    && (forall x :: x in ld ==> Val(x.id) < rs) && (forall x :: x in rd ==> rs <= Val(x.id))
  }

  /** A split keeps the array well formed and stores the same nodes in the same order. */
  lemma SplitOk(d: TreeArray, k: nat, ld: Nodes, rd: Nodes, at: (Instant, Instant))
    requires Rooted(d) && k < |d| && 1 <= d[k].bits <= ID_BITS && SplitsInto(d, k, ld, rd)
    ensures var d' := SplitAt(d, k, ld, rd, at);
            Rooted(d') && ChangedAt(d, d', k) && Stored(d', k) == Stored(d, k)
  {
    var d' := SplitAt(d, k, ld, rd, at);
    SplitAligned(d, k, ld, rd, at);
    SplitTreeOk(d, k, ld, rd, at);
    assert d'[k].data == LeftRight(|d|, |d| + 1);
    assert Stored(d', |d|) == ld && Stored(d', |d| + 1) == rd;
  }

  lemma SplitAligned(d: TreeArray, k: nat, ld: Nodes, rd: Nodes, at: (Instant, Instant))
    requires Aligned(d) && k < |d| && 1 <= d[k].bits <= ID_BITS
    ensures Aligned(SplitAt(d, k, ld, rd, at))
  {
    var d' := SplitAt(d, k, ld, rd, at);
    SplitTiles(d[k].start, d[k].end, d[k].bits);
    forall i | 0 <= i < |d'| ensures AlignedRange(d'[i].start, d'[i].end, d'[i].bits) {
      if i < |d| { assert AlignedRange(d[i].start, d[i].end, d[i].bits); }
    }
  }

  lemma SplitTreeOk(d: TreeArray, k: nat, ld: Nodes, rd: Nodes, at: (Instant, Instant))
    requires Rooted(d) && k < |d| && 1 <= d[k].bits <= ID_BITS && SplitsInto(d, k, ld, rd)
    ensures TreeOk(SplitAt(d, k, ld, rd, at))
  {
    var d' := SplitAt(d, k, ld, rd, at);
    SplitHalvesOk(d, k, ld, rd, at);
    forall i | 0 <= i < |d'| ensures SlotOk(d', i) {
      if i < |d| && i != k { ChangedSlotOk(d, d', k, i); }
    }
  }

  /** Whether a slot is in order depends only on it and on the ranges of the others. */
  lemma ChangedSlotOk(d: TreeArray, d': TreeArray, k: nat, i: nat)
    requires TreeOk(d) && ChangedAt(d, d', k) && i < |d| && i != k
    ensures SlotOk(d', i)
  {
    assert SlotOk(d, i);
  }

  lemma SplitHalvesOk(d: TreeArray, k: nat, ld: Nodes, rd: Nodes, at: (Instant, Instant))
    requires Rooted(d) && k < |d| && 1 <= d[k].bits <= ID_BITS && SplitsInto(d, k, ld, rd)
    ensures var d' := SplitAt(d, k, ld, rd, at);
            Halves(d[k], d'[|d|], d'[|d| + 1]) && LeafOk(d'[|d|], ld) && LeafOk(d'[|d| + 1], rd)
  {
    var n := d[k];
    SplitTiles(n.start, n.end, n.bits);
    assert SlotOk(d, k);
    PartOk(n, ld, rd);
  }

  lemma PartOk(n: TreeNode, s: Nodes, t: Nodes)
    requires LeafOk(n, s + t)
    ensures LeafOk(n, s) && LeafOk(n, t)
  {
    assert forall i :: 0 <= i < |s| ==> (s + t)[i] == s[i];
    assert forall i :: 0 <= i < |t| ==> (s + t)[|s| + i] == t[i];
  }

  // ---------- The spine ----------

  ghost predicate InnerCover(d: TreeArray, self: Id) {
    forall i :: 0 <= i < |d| && d[i].data.LeftRight? ==> Within(self, d[i])
  }

  /**
    Only ranges that cover the table's own id have been split, each split one level deeper
    than the one before, and no range of fewer than 16 ids was split.
   */
  ghost predicate Spine(d: TreeArray, self: Id) {
    && Rooted(d)
    && InnerCover(d, self)
    && var own := d[FindLeaf(d, 0, self)];
       own.bits >= 3 && |d| == 2 * (ID_BITS - own.bits) + 1
  }

  function InitialTree(now: Instant): TreeArray {
    [TreeNode(ID_BITS, seq(20, _ => 0), seq(20, _ => 255), Leaf([], now))]
  }

  lemma InitialSpine(now: Instant, self: Id)
    ensures Spine(InitialTree(now), self) && Stored(InitialTree(now), 0) == []
  {
    var n := InitialTree(now)[0];
    ValZero(n.start);
    ValOnes(n.end);
    assert AlignedRange(n.start, n.end, n.bits);
  }

  lemma RootCovers(d: TreeArray, id: Id)
    requires Rooted(d)
    ensures Within(id, d[0])
  {
    ValBound(id);
  }

  /** Splitting a leaf that covers the own id and at least 16 ids keeps the spine. */
  lemma SplitKeepsSpine(d: TreeArray, self: Id, id: Id, ld: Nodes, rd: Nodes, at: (Instant, Instant))
    requires Spine(d, self)
    requires var n := d[FindLeaf(d, 0, id)]; Within(self, n) && 4 <= n.bits <= ID_BITS
    requires SplitsInto(d, FindLeaf(d, 0, id), ld, rd)
    ensures var k := FindLeaf(d, 0, id);
            var d' := SplitAt(d, k, ld, rd, at);
            Spine(d', self) && FindLeaf(d', 0, id) == FindLeaf(d', k, id)
  {
    var k := FindLeaf(d, 0, id);
    var d' := SplitAt(d, k, ld, rd, at);
    SplitOk(d, k, ld, rd, at);
    RootCovers(d, id);
    FindLeafShared(d, 0, id, self);
    FindAfterChange(d, d', k, 0, id);
    FindAfterChange(d, d', k, 0, self);
    FindInHalves(d, k, ld, rd, at, self);
    SplitInnerCover(d, self, k, ld, rd, at);
  }

  lemma SplitInnerCover(d: TreeArray, self: Id, k: nat, ld: Nodes, rd: Nodes, at: (Instant, Instant))
    requires InnerCover(d, self) && k < |d| && Within(self, d[k]) && 1 <= d[k].bits <= ID_BITS
    ensures InnerCover(SplitAt(d, k, ld, rd, at), self)
  {
  }

  lemma FindInHalves(d: TreeArray, k: nat, ld: Nodes, rd: Nodes, at: (Instant, Instant), id: Id)
    requires Rooted(d) && k < |d| && 1 <= d[k].bits <= ID_BITS && SplitsInto(d, k, ld, rd)
    ensures var d' := SplitAt(d, k, ld, rd, at);
            && Rooted(d')
            && FindLeaf(d', k, id) == if Within(id, d'[|d|]) then |d| else |d| + 1
  {
    SplitOk(d, k, ld, rd, at);
    var d' := SplitAt(d, k, ld, rd, at);
    assert SlotOk(d', k) && SlotOk(d', |d|) && SlotOk(d', |d| + 1);
  }

  /** In every table whose splits follow the own id there are at most 157 of them. */
  lemma ArrayBound(d: TreeArray, self: Id)
    requires Spine(d, self)
    ensures |d| <= 315
  {
  }

  // ---------- Changing the nodes of one leaf ----------

  function SetLeaf(d: TreeArray, k: nat, nodes: Nodes, t: Instant): TreeArray
    requires k < |d|
  {
    d[k := d[k].(data := Leaf(nodes, t))]
  }

  lemma SetLeafOk(d: TreeArray, self: Id, k: nat, nodes: Nodes, t: Instant)
    requires Spine(d, self) && k < |d| && d[k].data.Leaf? && LeafOk(d[k], nodes)
    ensures var d' := SetLeaf(d, k, nodes, t); Spine(d', self) && ChangedAt(d, d', k)
  {
    var d' := SetLeaf(d, k, nodes, t);
    forall i | 0 <= i < |d'| ensures SlotOk(d', i) {
      if i != k { ChangedSlotOk(d, d', k, i); }
    }
    forall i | 0 <= i < |d'| ensures AlignedRange(d'[i].start, d'[i].end, d'[i].bits) {
      assert AlignedRange(d[i].start, d[i].end, d[i].bits);
    }
    FindAfterChange(d, d', k, 0, self);
  }

  lemma LeafSearch(d: TreeArray, id: Id)
    requires Rooted(d)
    ensures var k := d[FindLeaf(d, 0, id)];
            Within(id, k) && LeafOk(k, k.data.nodes) && (HasId(Stored(d, 0), id) <==> HasId(k.data.nodes, id))
  {
    RootCovers(d, id);
    FindLeafCovers(d, 0, id);
    assert SlotOk(d, FindLeaf(d, 0, id));
    forall x: RoutingTableNode | x.id == id
      ensures x in Stored(d, 0) <==> x in d[FindLeaf(d, 0, id)].data.nodes
    {
      LeafHoldsId(d, 0, id, x);
    }
  }

  /** Splitting the leaf of an id leaves every stored node where a scan would meet it. */
  lemma SplitStores(d: TreeArray, id: Id, ld: Nodes, rd: Nodes, at: (Instant, Instant))
    requires Rooted(d)
    requires var k := FindLeaf(d, 0, id); 1 <= d[k].bits <= ID_BITS && SplitsInto(d, k, ld, rd)
    ensures var d' := SplitAt(d, FindLeaf(d, 0, id), ld, rd, at);
            Rooted(d') && Stored(d', 0) == Stored(d, 0)
  {
    var k := FindLeaf(d, 0, id);
    SplitOk(d, k, ld, rd, at);
    RootCovers(d, id);
    var pre, post := Substitute(d, SplitAt(d, k, ld, rd, at), 0, id);
  }

  // ---------- Insertion ----------

  datatype InsertResult = WasExisting | ReplacedBad(node: RoutingTableNode) | Added | Ignored

  /** i is the position of the first bad node, or the length when there is none. */
  ghost predicate FirstBad(s: Nodes, now: Instant, i: nat) {
    && i <= |s|
    && (i < |s| ==> s[i].Status(now).Bad?)
    && forall j :: 0 <= j < i ==> !s[j].Status(now).Bad?
  }

  ghost predicate NoneBad(s: Nodes, now: Instant) {
    FirstBad(s, now, |s|)
  }

  ghost function LeafFor(d: TreeArray, id: Id): TreeNode
    requires Rooted(d)
  {
    d[FindLeaf(d, 0, id)]
  }

  /** What inserting an id does to the stored nodes, for each result. */
  ghost predicate InsertSpec(d: TreeArray, d': TreeArray, self: Id, full: bool,
                             x: RoutingTableNode, now: Instant, res: InsertResult)
    requires Rooted(d) && Rooted(d')
  {
    var before, after := Stored(d, 0), Stored(d', 0);
    var leaf, leaf' := LeafFor(d, x.id).data, LeafFor(d', x.id);
    match res
    case WasExisting => HasId(before, x.id) && d' == d
    case ReplacedBad(b) =>
      && !HasId(before, x.id)
      && (exists i: nat :: FirstBad(leaf.nodes, now, i) && i < |leaf.nodes| && leaf.nodes[i] == b)
      && multiset(after) == multiset(before) - multiset{b} + multiset{x}
      && leaf'.data.lastRefreshed == now
    case Added =>
      && !HasId(before, x.id) && NoneBad(leaf.nodes, now) && !full
      && multiset(after) == multiset(before) + multiset{x}
      && leaf'.data.lastRefreshed == now
    case Ignored =>
      && !HasId(before, x.id) && NoneBad(leaf.nodes, now)
      && after == before
      && (full || (|leaf'.data.nodes| == 8 && !Within(self, leaf')))
  }

  lemma ReplacedLeaf(n: TreeNode, s: Nodes, i: nat, x: RoutingTableNode)
    requires LeafOk(n, s) && i < |s| && Within(x.id, n) && !HasId(s, x.id)
    ensures LeafOk(n, Sort(s[i := x], IdLe))
    ensures multiset(Sort(s[i := x], IdLe)) == multiset(s) - multiset{s[i]} + multiset{x}
  {
    var t := s[i := x];
    assert DistinctIds(t);
    SortedLeaf(t);
    SameElements(Sort(t, IdLe), t);
  }

  lemma ExtendedLeaf(n: TreeNode, s: Nodes, x: RoutingTableNode)
    requires LeafOk(n, s) && |s| < BUCKET_SIZE && Within(x.id, n) && !HasId(s, x.id)
    ensures LeafOk(n, Sort(s + [x], IdLe))
    ensures multiset(Sort(s + [x], IdLe)) == multiset(s) + multiset{x}
  {
    assert DistinctIds(s + [x]);
    SortedLeaf(s + [x]);
    SameElements(Sort(s + [x], IdLe), s + [x]);
  }

  /** Putting a leaf's changed nodes back: the whole table gains and loses what the leaf does. */
  lemma LeafChange(d: TreeArray, self: Id, id: Id, nodes: Nodes, t: Instant,
                   lost: multiset<RoutingTableNode>, gained: multiset<RoutingTableNode>)
    requires Spine(d, self) && LeafOk(LeafFor(d, id), nodes)
    requires lost <= multiset(LeafFor(d, id).data.nodes)
    requires multiset(nodes) == multiset(LeafFor(d, id).data.nodes) - lost + gained
    ensures var d' := SetLeaf(d, FindLeaf(d, 0, id), nodes, t);
            && Spine(d', self)
            && FindLeaf(d', 0, id) == FindLeaf(d, 0, id)
            && multiset(Stored(d', 0)) == multiset(Stored(d, 0)) - lost + gained
            && |Stored(d', 0)| == |Stored(d, 0)| - |lost| + |gained|
  {
    var k := FindLeaf(d, 0, id);
    var d' := SetLeaf(d, k, nodes, t);
    SetLeafOk(d, self, k, nodes, t);
    FindAfterChange(d, d', k, 0, id);
    RootCovers(d, id);
    var pre, post := Substitute(d, d', 0, id);
    var old_ := d[k].data.nodes;
    assert Stored(d, k) == old_ && Stored(d', k) == nodes;
    assert |multiset(nodes)| == |multiset(old_)| - |lost| + |gained|;
    assert multiset(Stored(d, 0)) == multiset(pre) + multiset(old_) + multiset(post);
    assert multiset(Stored(d', 0)) == multiset(pre) + multiset(nodes) + multiset(post);
  }

  // ---------- The insertion loop ----------

  /** Where the loop stands when it has turned array d into d' by splitting the id's leaf. */
  ghost predicate Splitting(d: TreeArray, d': TreeArray, self: Id, id: Id, now: Instant)
    requires Rooted(d)
  {
    && Spine(d', self)
    && Stored(d', 0) == Stored(d, 0)
    && (d' == d || (NoneBad(LeafFor(d, id).data.nodes, now) && !HasId(Stored(d, 0), id)))
    && forall y :: y in LeafFor(d', id).data.nodes ==> y in LeafFor(d, id).data.nodes
  }

  lemma StopReplacing(d: TreeArray, d': TreeArray, self: Id, full: bool, x: RoutingTableNode, now: Instant, b: nat)
    requires Rooted(d) && Splitting(d, d', self, x.id, now)
    requires var nodes := LeafFor(d', x.id).data.nodes;
             !HasId(nodes, x.id) && b < |nodes| && FirstBad(nodes, now, b)
    ensures var nodes := LeafFor(d', x.id).data.nodes;
            var d'' := SetLeaf(d', FindLeaf(d', 0, x.id), Sort(nodes[b := x], IdLe), now);
            && Spine(d'', self) && |Stored(d'', 0)| == |Stored(d, 0)|
            && InsertSpec(d, d'', self, full, x, now, ReplacedBad(nodes[b]))
  {
    var n := LeafFor(d', x.id);
    var nodes := n.data.nodes;
    LeafSearch(d', x.id);
    ReplacedLeaf(n, nodes, b, x);
    LeafChange(d', self, x.id, Sort(nodes[b := x], IdLe), now, multiset{nodes[b]}, multiset{x});
    assert nodes[b] in LeafFor(d, x.id).data.nodes;
    assert d' == d;
  }

  lemma StopAdding(d: TreeArray, d': TreeArray, self: Id, x: RoutingTableNode, now: Instant)
    requires Rooted(d) && Splitting(d, d', self, x.id, now)
    requires var nodes := LeafFor(d', x.id).data.nodes;
             !HasId(nodes, x.id) && NoneBad(nodes, now) && |nodes| < BUCKET_SIZE
    ensures var nodes := LeafFor(d', x.id).data.nodes;
            var d'' := SetLeaf(d', FindLeaf(d', 0, x.id), Sort(nodes + [x], IdLe), now);
            && Spine(d'', self) && |Stored(d'', 0)| == |Stored(d, 0)| + 1
            && InsertSpec(d, d'', self, false, x, now, Added)
  {
    var n := LeafFor(d', x.id);
    LeafSearch(d', x.id);
    ExtendedLeaf(n, n.data.nodes, x);
    LeafChange(d', self, x.id, Sort(n.data.nodes + [x], IdLe), now, multiset{}, multiset{x});
  }

  lemma FullLeafSplits(d: TreeArray, x: RoutingTableNode)
    requires Rooted(d)
    requires var s := LeafFor(d, x.id).data.nodes; |s| == BUCKET_SIZE && !HasId(s, x.id)
    ensures var n := LeafFor(d, x.id); 4 <= n.bits <= ID_BITS && SplitAsserted(n.start, n.end, n.bits)
  {
    var n := LeafFor(d, x.id);
    LeafSearch(d, x.id);
    assert AlignedRange(n.start, n.end, n.bits);
    FullLeafIsWide(n, n.data.nodes, x);
    SplitAssertions(n.start, n.end, n.bits);
  }

  /** One more split: the loop goes on in the half that covers the id, which is one bit narrower. */
  lemma GoOn(d: TreeArray, d': TreeArray, self: Id, x: RoutingTableNode, now: Instant, ld: Nodes, rd: Nodes,
             at: (Instant, Instant))
    requires Rooted(d) && Splitting(d, d', self, x.id, now)
    requires var n := LeafFor(d', x.id);
             && !HasId(n.data.nodes, x.id) && NoneBad(n.data.nodes, now)
             && |n.data.nodes| == BUCKET_SIZE && Within(self, n)
             && 1 <= n.bits <= ID_BITS && SplitsInto(d', FindLeaf(d', 0, x.id), ld, rd)
    ensures var d'' := SplitAt(d', FindLeaf(d', 0, x.id), ld, rd, at);
            && Splitting(d, d'', self, x.id, now)
            && LeafFor(d'', x.id).bits < LeafFor(d', x.id).bits
            && FindLeaf(d'', 0, x.id) == if Less(x.id, d''[|d'| + 1].start) then |d'| else |d'| + 1
  {
    var k, n := FindLeaf(d', 0, x.id), LeafFor(d', x.id);
    FullLeafSplits(d', x);
    LeafSearch(d', x.id);
    SplitStores(d', x.id, ld, rd, at);
    SplitKeepsSpine(d', self, x.id, ld, rd, at);
    SplitFind(d', self, x.id, ld, rd, at);
  }

  lemma SplitFind(d: TreeArray, self: Id, id: Id, ld: Nodes, rd: Nodes, at: (Instant, Instant))
    requires Spine(d, self)
    requires var n := LeafFor(d, id); Within(self, n) && 4 <= n.bits <= ID_BITS
    requires SplitsInto(d, FindLeaf(d, 0, id), ld, rd)
    ensures var d' := SplitAt(d, FindLeaf(d, 0, id), ld, rd, at);
            && Rooted(d')
            && LeafFor(d', id).bits < LeafFor(d, id).bits
            && FindLeaf(d', 0, id) == (if Less(id, d'[|d| + 1].start) then |d| else |d| + 1)
            && forall y :: y in LeafFor(d', id).data.nodes ==> y in LeafFor(d, id).data.nodes
  {
    var k, n := FindLeaf(d, 0, id), LeafFor(d, id);
    var d' := SplitAt(d, k, ld, rd, at);
    LeafSearch(d, id);
    SplitKeepsSpine(d, self, id, ld, rd, at);
    FindInHalves(d, k, ld, rd, at, id);
    SplitHalvesOk(d, k, ld, rd, at);
    LessIsNumeric(id, d'[|d| + 1].start);
    assert forall y :: y in ld || y in rd ==> y in n.data.nodes;
  }

  // ---------- Marking ----------

  /** Changing a node without touching its id keeps the tree in order. */
  lemma MarkedOk(d: TreeArray, self: Id, id: Id, j: nat, y: RoutingTableNode, t: Instant)
    requires Spine(d, self)
    requires var s := LeafFor(d, id).data.nodes; j < |s| && s[j].id == id == y.id
    ensures var s, k := LeafFor(d, id).data.nodes, FindLeaf(d, 0, id);
            Spine(SetLeaf(d, k, s[j := y], t), self) && ChangedAt(d, SetLeaf(d, k, s[j := y], t), k)
  {
    LeafSearch(d, id);
    SameIdLeaf(LeafFor(d, id), LeafFor(d, id).data.nodes, j, y);
    SetLeafOk(d, self, FindLeaf(d, 0, id), LeafFor(d, id).data.nodes[j := y], t);
  }

  /** It changes the node where a scan meets it, and nothing else. */
  lemma MarkedLeaf(d: TreeArray, d': TreeArray, id: Id, j: nat, y: RoutingTableNode, t: Instant) returns (i: nat)
    requires Rooted(d) && Rooted(d') && ChangedAt(d, d', FindLeaf(d, 0, id))
    requires var s := LeafFor(d, id).data.nodes; j < |s| && d' == SetLeaf(d, FindLeaf(d, 0, id), s[j := y], t)
    ensures i < |Stored(d, 0)| && Stored(d, 0)[i] == LeafFor(d, id).data.nodes[j]
    ensures Stored(d', 0) == Stored(d, 0)[i := y]
  {
    RootCovers(d, id);
    var pre, post := Substitute(d, d', 0, id);
    i := |pre| + j;
    UpdateMiddle(pre, LeafFor(d, id).data.nodes, post, j, y);
  }

  lemma SameIdLeaf(n: TreeNode, s: Nodes, j: nat, y: RoutingTableNode)
    requires LeafOk(n, s) && j < |s| && s[j].id == y.id
    ensures LeafOk(n, s[j := y])
  {
    assert forall x :: x in s[j := y] ==> x in s || x == y;
    assert Within(s[j].id, n);
  }

  lemma UpdateMiddle(pre: Nodes, s: Nodes, post: Nodes, j: nat, y: RoutingTableNode)
    requires j < |s|
    ensures (pre + s + post)[|pre| + j] == s[j]
    ensures (pre + s + post)[|pre| + j := y] == pre + s[j := y] + post
  {
  }

  /** The outcome of marking: the node with the id, if there is one, is changed where it stands. */
  ghost predicate Marked(before: Nodes, after: Nodes, id: Id, change: RoutingTableNode -> RoutingTableNode,
                         found: bool)
  {
    && found == HasId(before, id)
    && (!found ==> after == before)
    && (found ==> exists i :: 0 <= i < |before| && before[i].id == id && after == before[i := change(before[i])])
  }

  // ---------- Iteration ----------

  /** How many slots are at or below slot i. */
  ghost function Weight(d: TreeArray, i: nat): nat
    requires TreeOk(d) && i < |d|
    decreases |d| - i
  {
    assert SlotOk(d, i);
    match d[i].data
    case Leaf(_, _) => 1
    case LeftRight(l, r) => 1 + Weight(d, l) + Weight(d, r)
  }

  ghost function StackWeight(d: TreeArray, stack: seq<nat>): nat
    requires TreeOk(d)
  {
    if stack == [] then 0
    else var i := stack[|stack| - 1];
         1 + StackWeight(d, stack[..|stack| - 1]) + if i < |d| then 2 * Weight(d, i) else 0
  }

  /** The leaves still to come when the stack holds these slots; an index out of range stands for nothing. */
  ghost function StackLeaves(d: TreeArray, stack: seq<nat>): seq<nat>
    requires TreeOk(d)
  {
    if stack == [] then []
    else var i := stack[|stack| - 1];
         (if i < |d| then Leaves(d, i) else []) + StackLeaves(d, stack[..|stack| - 1])
  }

  /** Popping an inner slot and pushing its right half, then its left one, changes nothing to come. */
  lemma PushHalves(d: TreeArray, stack: seq<nat>, i: nat)
    requires TreeOk(d) && i < |d| && d[i].data.LeftRight?
    ensures var next := stack + [d[i].data.right] + [d[i].data.left];
            && StackLeaves(d, next) == StackLeaves(d, stack + [i])
            && StackWeight(d, next) < StackWeight(d, stack + [i])
  {
    assert SlotOk(d, i);
    var l, r := d[i].data.left, d[i].data.right;
    PushSlot(d, stack, i);
    PushSlot(d, stack, r);
    PushSlot(d, stack + [r], l);
    assert Leaves(d, i) + StackLeaves(d, stack) == Leaves(d, l) + (Leaves(d, r) + StackLeaves(d, stack));
  }

  lemma PushSlot(d: TreeArray, stack: seq<nat>, i: nat)
    requires TreeOk(d) && i < |d|
    ensures StackLeaves(d, stack + [i]) == Leaves(d, i) + StackLeaves(d, stack)
    ensures StackWeight(d, stack + [i]) == 1 + StackWeight(d, stack) + 2 * Weight(d, i)
  {
    assert (stack + [i])[..|stack|] == stack;
  }

  ghost function NodesOfLeaves(d: TreeArray, s: seq<nat>): Nodes
    requires LeafSlots(d, s)
  {
    if s == [] then [] else d[s[0]].data.nodes + NodesOfLeaves(d, s[1..])
  }

  /** Taking the next leaf's nodes leaves those of the leaves after it. */
  lemma TakeLeaf(d: TreeArray, s: seq<nat>, r: Nodes, all: Nodes)
    requires LeafSlots(d, s) && s != [] && r + NodesOfLeaves(d, s) == all
    ensures LeafSlots(d, s[1..]) && r + d[s[0]].data.nodes + NodesOfLeaves(d, s[1..]) == all
  {
  }

  lemma {:induction false} NodesOfAppend(d: TreeArray, s: seq<nat>, t: seq<nat>)
    requires LeafSlots(d, s) && LeafSlots(d, t)
    ensures LeafSlots(d, s + t)
    ensures NodesOfLeaves(d, s + t) == NodesOfLeaves(d, s) + NodesOfLeaves(d, t)
  {
    if s == [] {
      assert s + t == t;
    } else {
      NodesOfAppend(d, s[1..], t);
      assert (s + t)[1..] == s[1..] + t;
    }
  }

  /** The nodes met leaf by leaf are the stored nodes. */
  lemma {:induction false} LeavesHoldStored(d: TreeArray, i: nat)
    requires TreeOk(d) && i < |d|
    ensures LeafSlots(d, Leaves(d, i))
    ensures NodesOfLeaves(d, Leaves(d, i)) == Stored(d, i)
    decreases |d| - i
  {
    assert SlotOk(d, i);
    LeavesTile(d, i);
    if d[i].data.LeftRight? {
      LeavesHoldStored(d, d[i].data.left);
      LeavesHoldStored(d, d[i].data.right);
      NodesOfAppend(d, Leaves(d, d[i].data.left), Leaves(d, d[i].data.right));
    }
  }
}
