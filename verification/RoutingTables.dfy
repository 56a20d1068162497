/**
  The operations of the routing table (crates/librtbit-dht/src/routing_table.rs): insertion
  with bad-node replacement, the size cap and in-place splitting, lookup by id, marking, and
  the explicit-stack iterator.
 */
module RoutingTables {
  import opened Ids
  import opened Net
  import opened Sorting
  import opened BucketTrees

  /** The position of the node with the given id, or the length when there is none. */
  method IndexOf(s: Nodes, id: Id) returns (i: nat)
    ensures i <= |s| && (i < |s| ==> s[i].id == id)
    ensures i == |s| <==> !HasId(s, id)
  {
    i := 0;
    while i < |s| && s[i].id != id
      invariant i <= |s| && forall j :: 0 <= j < i ==> s[j].id != id
    {
      i := i + 1;
    }
  }

  method FindBad(s: Nodes, now: Instant) returns (i: nat)
    ensures FirstBad(s, now, i)
  {
    i := 0;
    while i < |s| && !s[i].Status(now).Bad?
      invariant i <= |s| && forall j :: 0 <= j < i ==> !s[j].Status(now).Bad?
    {
      i := i + 1;
    }
  }

  /** Drains a leaf's nodes into those below the bound and those not below it. */
  method Partition(s: Nodes, rs: Id) returns (ld: Nodes, rd: Nodes)
    requires Ascending(s)
    ensures s == ld + rd
    ensures (forall x :: x in ld ==> Val(x.id) < Val(rs)) && (forall x :: x in rd ==> Val(rs) <= Val(x.id))
  {
    ld, rd := [], [];
    for i := 0 to |s|
      invariant s[..i] == ld + rd
      invariant (forall x :: x in ld ==> Val(x.id) < Val(rs)) && (forall x :: x in rd ==> Val(rs) <= Val(x.id))
    {
      LessIsNumeric(s[i].id, rs);
      if Less(s[i].id, rs) {
        if rd != [] { assert s[|ld|] == s[..i][|ld|] == rd[0]; }
        ld := ld + [s[i]];
      } else {
        rd := rd + [s[i]];
      }
    }
  }

  class BucketTree {
    var data: TreeArray
    var size: nat
    const maxSize: nat

    ghost predicate Valid(self: Id)
      reads this
    {
      Spine(data, self) && size == |Stored(data, 0)| <= maxSize
    }

    ghost function Contents(): Nodes
      requires Rooted(data)
      reads this
    {
      Stored(data, 0)
    }

    constructor (maxSize: nat, now: Instant)
      ensures this.maxSize == maxSize && data == InitialTree(now) && Rooted(data) && Contents() == []
      ensures forall self :: Valid(self)
    {
      data, size, this.maxSize := InitialTree(now), 0, maxSize;
      new;
      forall self: Id ensures Spine(data, self) && Stored(data, 0) == [] { InitialSpine(now, self); }
      InitialSpine(now, data[0].start);
    }

    /** Descends from the root to the one leaf that covers the id. */
    method GetLeaf(id: Id) returns (k: nat)
      requires Rooted(data)
      ensures k == FindLeaf(data, 0, id)
      ensures Within(id, data[k])
    {
      k := 0;
      while data[k].data.LeftRight?
        invariant k < |data| && FindLeaf(data, k, id) == FindLeaf(data, 0, id)
        decreases |data| - k
      {
        assert SlotOk(data, k);
        k := if Covers(data[data[k].data.left], id) then data[k].data.left else data[k].data.right;
      }
      LeafSearch(data, id);
    }

    /** Replaces the nodes of the leaf that covers the id. */
    method PutLeaf(k: nat, nodes: Nodes, t: Instant)
      requires k < |data|
      modifies this`data
      ensures data == SetLeaf(old(data), k, nodes, t)
    {
      data := data[k := data[k].(data := Leaf(nodes, t))];
    }

    /** Splits a leaf in place: two new slots are pushed and the leaf becomes an inner node. */
    method Split(k: nat, at: (Instant, Instant)) returns (ld: Nodes, rd: Nodes)
      requires Rooted(data) && k < |data| && data[k].data.Leaf? && data[k].bits >= 1
      modifies this`data
      ensures SplitsInto(old(data), k, ld, rd) && data == SplitAt(old(data), k, ld, rd, at)
    {
      var n := data[k];
      assert SlotOk(data, k);
      var (le, rs) := SplitBounds(n.start, n.end, n.bits);
      ld, rd := Partition(n.data.nodes, rs);
      var left := TreeNode(n.bits - 1, n.start, le, Leaf(ld, at.0));
      var right := TreeNode(n.bits - 1, rs, n.end, Leaf(rd, at.1));
      var leftIdx := |data|;
      data := data + [left];
      var rightIdx := |data|;
      data := data + [right];
      data := data[k := data[k].(data := LeftRight(leftIdx, rightIdx))];
    }

    method AddNode(self: Id, id: Id, addr: SocketAddr, now: Instant) returns (res: InsertResult)
      requires Valid(self)
      modifies this`data, this`size
      ensures Valid(self)
      ensures size == old(size) + if res.Added? then 1 else 0
      ensures InsertSpec(old(data), data, self, old(size) == maxSize, NewNode(id, addr), now, res)
    {
      var k := GetLeaf(id);
      res := InsertIntoLeaf(k, self, id, addr, now);
    }

    /** The insertion loop: every round either finishes or splits the leaf that covers the id. */
    method InsertIntoLeaf(idx: nat, self: Id, id: Id, addr: SocketAddr, now: Instant) returns (res: InsertResult)
      requires Valid(self) && idx == FindLeaf(data, 0, id)
      modifies this`data, this`size
      ensures Valid(self)
      ensures size == old(size) + if res.Added? then 1 else 0
      ensures InsertSpec(old(data), data, self, old(size) == maxSize, NewNode(id, addr), now, res)
    {
      var k := idx;
      while true
        invariant size == old(size) && Splitting(old(data), data, self, id, now)
        invariant k == FindLeaf(data, 0, id)
        decreases data[k].bits
      {
        var done := TryLeaf(old(data), k, self, NewNode(id, addr), now);
        if done.Some? {
          return done.value;
        }
        k := SplitToward(old(data), k, self, NewNode(id, addr), now);
      }
    }

    ghost predicate MustSplit(k: nat, self: Id, x: RoutingTableNode, now: Instant)
      requires k < |data| && data[k].data.Leaf?
      reads this
    {
      var nodes := data[k].data.nodes;
      !HasId(nodes, x.id) && NoneBad(nodes, now) && |nodes| == BUCKET_SIZE && Within(self, data[k])
    }

    /** Splits the leaf and moves on to the half that covers the id. The new leaves read the clock themselves. */
    method SplitToward(ghost d: TreeArray, k: nat, ghost self: Id, x: RoutingTableNode, now: Instant)
      returns (next: nat)
      requires Rooted(d) && Splitting(d, data, self, x.id, now) && k == FindLeaf(data, 0, x.id)
      requires MustSplit(k, self, x, now)
      modifies this`data
      ensures Splitting(d, data, self, x.id, now) && next == FindLeaf(data, 0, x.id)
      ensures data[next].bits < old(data)[k].bits
    {
      FullLeafSplits(data, x);
      assert SplitAsserted(data[k].start, data[k].end, data[k].bits);
      var at: (Instant, Instant) := *;
      var ld, rd := Split(k, at);
      GoOn(d, old(data), self, x, now, ld, rd, at);
      next := if Less(x.id, data[|data| - 1].start) then |data| - 2 else |data| - 1;
    }

    /** One round of the loop without the split; None means that the leaf is to be split. */
    method TryLeaf(ghost d: TreeArray, k: nat, self: Id, x: RoutingTableNode, now: Instant)
      returns (res: Option<InsertResult>)
      requires Rooted(d) && Splitting(d, data, self, x.id, now) && k == FindLeaf(data, 0, x.id)
      requires size == |Stored(d, 0)| <= maxSize
      modifies this`data, this`size
      ensures res.Some? ==> Valid(self) && InsertSpec(d, data, self, old(size) == maxSize, x, now, res.value)
      ensures res.Some? ==> size == old(size) + if res.value.Added? then 1 else 0
      ensures res.None? ==>
                data == old(data) && size == old(size) && MustSplit(k, self, x, now)
    {
      var nodes := data[k].data.nodes;
      LeafSearch(data, x.id);
      var i := IndexOf(nodes, x.id);
      if i < |nodes| {
        return Some(WasExisting);
      }
      var b := FindBad(nodes, now);
      if b < |nodes| {
        StopReplacing(d, data, self, size == maxSize, x, now, b);
        PutLeaf(k, Sort(nodes[b := x], IdLe), now);
        return Some(ReplacedBad(nodes[b]));
      }
      if size == maxSize {
        return Some(Ignored);
      }
      if |nodes| < BUCKET_SIZE {
        StopAdding(d, data, self, x, now);
        PutLeaf(k, Sort(nodes + [x], IdLe), now);
        size := size + 1;
        return Some(Added);
      }
      if !Covers(data[k], self) {
        return Some(Ignored);
      }
      res := None;
    }

    /**
      Finds the node with the given id and changes it in place; when it is found and refresh
      is given, its leaf is refreshed.
     */
    method Mark(ghost self: Id, id: Id, refresh: Option<Instant>, change: RoutingTableNode -> RoutingTableNode)
      returns (found: bool)
      requires Valid(self) && forall x :: change(x).id == x.id
      modifies this`data
      ensures Valid(self)
      ensures Marked(old(Contents()), Contents(), id, change, found)
      ensures !found ==> data == old(data)
      ensures LeafFor(data, id).data.lastRefreshed
              == if found && refresh.Some? then refresh.value else LeafFor(old(data), id).data.lastRefreshed
    {
      var k := GetLeaf(id);
      LeafSearch(data, id);
      var nodes := data[k].data.nodes;
      var j := IndexOf(nodes, id);
      found := j < |nodes|;
      if found {
        var t := if refresh.Some? then refresh.value else data[k].data.lastRefreshed;
        var y := change(nodes[j]);
        MarkedOk(data, self, id, j, y, t);
        ghost var i := MarkedLeaf(data, SetLeaf(data, k, nodes[j := y], t), id, j, y, t);
        FindAfterChange(data, SetLeaf(data, k, nodes[j := y], t), k, 0, id);
        PutLeaf(k, nodes[j := y], t);
      }
    }

    /** Every stored node, in the order of the leaves. */
    method Iter() returns (r: Nodes)
      requires Rooted(data)
      ensures r == Contents() && Ascending(r)
    {
      var it := new BucketTreeIterator(this);
      r := [];
      LeavesHoldStored(data, 0);
      StoredAscending(data, 0);
      ghost var left := it.Remaining();
      while true
        invariant fresh(it) && it.tree == this && Rooted(data) && left == it.Remaining()
        invariant LeafSlots(data, left) && r + NodesOfLeaves(data, left) == Contents()
        decreases |left|
      {
        var next := it.Next();
        if next.None? {
          return;
        }
        TakeLeaf(data, left, r, Contents());
        r, left := r + next.value.data.nodes, left[1..];
      }
    }
  }

  /** The explicit-stack iterator over the leaves. */
  class BucketTreeIterator {
    const tree: BucketTree
    var queue: seq<nat>

    ghost function Remaining(): seq<nat>
      requires TreeOk(tree.data)
      reads this, tree
    {
      StackLeaves(tree.data, queue)
    }

    constructor (tree: BucketTree)
      requires Rooted(tree.data)
      ensures this.tree == tree && Remaining() == Leaves(tree.data, 0)
    {
      this.tree := tree;
      queue := [0];
      new;
      assert queue[..0] == [] && StackLeaves(tree.data, queue) == Leaves(tree.data, 0) + [];
    }

    /** Yields the leaves in the order of the recursive traversal, then None. */
    method Next() returns (item: Option<TreeNode>)
      requires Rooted(tree.data)
      modifies this`queue
      ensures item.None? <==> old(Remaining()) == []
      ensures item.None? ==> Remaining() == []
      ensures item.Some? ==> old(Remaining())[0] < |tree.data| && item.value == tree.data[old(Remaining())[0]]
      ensures item.Some? ==> Remaining() == old(Remaining())[1..]
    {
      while queue != []
        invariant Remaining() == old(Remaining())
        decreases StackWeight(tree.data, queue)
      {
        var idx := queue[|queue| - 1];
        ghost var rest := queue[..|queue| - 1];
        assert queue == rest + [idx];
        queue := queue[..|queue| - 1];
        if idx < |tree.data| {
          var node := tree.data[idx];
          match node.data {
            case Leaf(_, _) =>
              return Some(node);
            case LeftRight(left, right) =>
              PushHalves(tree.data, rest, idx);
              queue := queue + [right];
              queue := queue + [left];
          }
        }
      }
      item := None;
    }
  }

  // ---------- Sorting by distance ----------

  function StatusRank(s: NodeStatus): nat {
    match s
    case Good => 0
    case Questionable => 1
    case Unknown => 2
    case Bad => 3
  }

  /** The order in which nodes are queried: better status first, then closer to the target. */
  predicate Preferred(target: Id, now: Instant, a: RoutingTableNode, b: RoutingTableNode)
    ensures Preferred(target, now, a, b) <==>
              var ra, rb := StatusRank(a.Status(now)), StatusRank(b.Status(now));
              ra < rb || (ra == rb && Val(Distance(target, a.id)) <= Val(Distance(target, b.id)))
  {
    var ra, rb := StatusRank(a.Status(now)), StatusRank(b.Status(now));
    LessIsNumeric(Distance(target, b.id), Distance(target, a.id));
    ra < rb || (ra == rb && !Less(Distance(target, b.id), Distance(target, a.id)))
  }

  function ByPreference(target: Id, now: Instant): (RoutingTableNode, RoutingTableNode) -> bool {
    (a, b) => Preferred(target, now, a, b)
  }

  /** The first nodes of the sorted list, however many are taken, are no worse than any other. */
  lemma TakenAreBest(s: Nodes, r: Nodes, target: Id, now: Instant, count: nat, a: RoutingTableNode, b: RoutingTableNode)
    requires multiset(r) == multiset(s) && SortedBy(r, ByPreference(target, now)) && count <= |r|
    requires a in r[..count] && b in s && b !in r[..count]
    ensures Preferred(target, now, a, b)
  {
    SameElements(r, s);
    var i :| 0 <= i < count && r[i] == a;
    var j :| 0 <= j < |r| && r[j] == b;
    assert forall k :: 0 <= k < count ==> r[..count][k] == r[k];
    assert ByPreference(target, now)(r[i], r[j]);
  }

  // ---------- The routing table ----------

  datatype Op =
    | Add(id: Id, addr: SocketAddr, now: Instant)
    | OutgoingRequest(id: Id, now: Instant)
    | Response(id: Id, now: Instant)
    | Error(id: Id)
    | LastQuery(id: Id, now: Instant)

  datatype OpResult = Inserted(result: InsertResult) | Found(found: bool)
  {
    predicate Replaces() {
      Inserted? && result.ReplacedBad?
    }
  }

  /** What an operation other than an addition does to the node it names. */
  function ChangeOf(op: Op): RoutingTableNode -> RoutingTableNode
    requires !op.Add?
  {
    match op
    case OutgoingRequest(_, now) => (x: RoutingTableNode) => x.MarkOutgoingRequest(now)
    case Response(_, now) => (x: RoutingTableNode) => x.MarkResponse(now)
    case Error(_) => (x: RoutingTableNode) => x.MarkError()
    case LastQuery(_, now) => (x: RoutingTableNode) => x.MarkLastQuery(now)
  }

  /** An operation takes the tree d to d', with this result. */
  ghost predicate Applied(d: TreeArray, d': TreeArray, id: Id, maxSize: nat, op: Op, res: OpResult) {
    && Rooted(d) && Rooted(d')
    && match op
       case Add(nodeId, addr, now) =>
         res.Inserted?
         && InsertSpec(d, d', id, |Stored(d, 0)| == maxSize, NewNode(nodeId, addr), now, res.result)
       case _ => res.Found? && Marked(Stored(d, 0), Stored(d', 0), op.id, ChangeOf(op), res.found)
  }

  class RoutingTable {
    const id: Id
    var size: nat
    const buckets: BucketTree
    /** How many insertions so far replaced a bad node. */
    ghost var replaced: nat

    /** The table's own count also grows when a bad node is replaced; the tree's does not. */
    ghost predicate Valid()
      reads this, buckets
    {
      buckets.Valid(id) && size == buckets.size + replaced
    }

    constructor (id: Id, maxSize: nat, now: Instant)
      ensures Valid() && fresh(buckets) && this.id == id && buckets.maxSize == maxSize
      ensures buckets.data == InitialTree(now) && buckets.Contents() == [] && replaced == 0
    {
      this.id, size, replaced := id, 0, 0;
      buckets := new BucketTree(maxSize, now);
    }

    method AddNode(nodeId: Id, addr: SocketAddr, now: Instant) returns (res: InsertResult)
      requires Valid()
      modifies this`size, this`replaced, buckets
      ensures Valid()
      ensures InsertSpec(old(buckets.data), buckets.data, id, old(buckets.size) == buckets.maxSize,
                         NewNode(nodeId, addr), now, res)
      ensures replaced == old(replaced) + if res.ReplacedBad? then 1 else 0
    {
      res := buckets.AddNode(id, nodeId, addr, now);
      if res.ReplacedBad? || res.Added? {
        size := size + 1;
      }
      replaced := replaced + if res.ReplacedBad? then 1 else 0;
    }

    method MarkOutgoingRequest(nodeId: Id, now: Instant) returns (found: bool)
      requires Valid()
      modifies buckets
      ensures Valid()
      ensures Marked(old(buckets.Contents()), buckets.Contents(), nodeId,
                     (x: RoutingTableNode) => x.MarkOutgoingRequest(now), found)
      ensures LeafFor(buckets.data, nodeId).data.lastRefreshed == LeafFor(old(buckets.data), nodeId).data.lastRefreshed
    {
      found := buckets.Mark(id, nodeId, None, (x: RoutingTableNode) => x.MarkOutgoingRequest(now));
    }

    method MarkResponse(nodeId: Id, now: Instant) returns (found: bool)
      requires Valid()
      modifies buckets
      ensures Valid()
      ensures Marked(old(buckets.Contents()), buckets.Contents(), nodeId,
                     (x: RoutingTableNode) => x.MarkResponse(now), found)
      ensures found ==> LeafFor(buckets.data, nodeId).data.lastRefreshed == now
    {
      found := buckets.Mark(id, nodeId, Some(now), (x: RoutingTableNode) => x.MarkResponse(now));
    }

    method MarkError(nodeId: Id) returns (found: bool)
      requires Valid()
      modifies buckets
      ensures Valid()
      ensures Marked(old(buckets.Contents()), buckets.Contents(), nodeId,
                     (x: RoutingTableNode) => x.MarkError(), found)
      ensures LeafFor(buckets.data, nodeId).data.lastRefreshed == LeafFor(old(buckets.data), nodeId).data.lastRefreshed
    {
      found := buckets.Mark(id, nodeId, None, (x: RoutingTableNode) => x.MarkError());
    }

    method MarkLastQuery(nodeId: Id, now: Instant) returns (found: bool)
      requires Valid()
      modifies buckets
      ensures Valid()
      ensures Marked(old(buckets.Contents()), buckets.Contents(), nodeId,
                     (x: RoutingTableNode) => x.MarkLastQuery(now), found)
      ensures LeafFor(buckets.data, nodeId).data.lastRefreshed == LeafFor(old(buckets.data), nodeId).data.lastRefreshed
    {
      found := buckets.Mark(id, nodeId, None, (x: RoutingTableNode) => x.MarkLastQuery(now));
    }

    method SortedByDistanceFrom(target: Id, now: Instant) returns (r: Nodes)
      requires Valid()
      ensures multiset(r) == multiset(buckets.Contents())
      ensures SortedBy(r, ByPreference(target, now))
    {
      r := buckets.Iter();
      SortCorrect(r, ByPreference(target, now));
      r := Sort(r, ByPreference(target, now));
    }

    method Apply(op: Op) returns (res: OpResult)
      requires Valid()
      modifies this`size, this`replaced, buckets
      ensures Valid() && Applied(old(buckets.data), buckets.data, id, buckets.maxSize, op, res)
      ensures replaced == old(replaced) + if res.Replaces() then 1 else 0
    {
      match op {
        case Add(nodeId, addr, now) => var r := AddNode(nodeId, addr, now); res := Inserted(r);
        case OutgoingRequest(nodeId, now) => var f := MarkOutgoingRequest(nodeId, now); res := Found(f);
        case Response(nodeId, now) => var f := MarkResponse(nodeId, now); res := Found(f);
        case Error(nodeId) => var f := MarkError(nodeId); res := Found(f);
        case LastQuery(nodeId, now) => var f := MarkLastQuery(nodeId, now); res := Found(f);
      }
    }
  }

  // ---------- Runs ----------

  /** The trees of a run: each operation takes one to the next, with its result. */
  ghost predicate Ran(trees: seq<TreeArray>, id: Id, maxSize: nat, ops: seq<Op>, results: seq<OpResult>) {
    && |trees| == |ops| + 1 == |results| + 1
    && forall i :: 0 <= i < |ops| ==> Applied(trees[i], trees[i + 1], id, maxSize, ops[i], results[i])
  }

  function Replacements(results: seq<OpResult>): nat {
    if results == [] then 0
    else Replacements(results[..|results| - 1]) + if results[|results| - 1].Replaces() then 1 else 0
  }

  lemma RanOn(trees: seq<TreeArray>, d: TreeArray, id: Id, maxSize: nat, ops: seq<Op>, n: nat,
              results: seq<OpResult>, res: OpResult)
    requires n < |ops| && Ran(trees, id, maxSize, ops[..n], results)
    requires Applied(trees[n], d, id, maxSize, ops[n], res)
    ensures Ran(trees + [d], id, maxSize, ops[..n + 1], results + [res])
    ensures Replacements(results + [res]) == Replacements(results) + if res.Replaces() then 1 else 0
  {
    var ops', results', trees' := ops[..n + 1], results + [res], trees + [d];
    assert results'[..n] == results;
    forall i | 0 <= i <= n ensures Applied(trees'[i], trees'[i + 1], id, maxSize, ops'[i], results'[i]) {
      if i < n {
        assert ops'[i] == ops[..n][i] && results'[i] == results[i];
        assert trees'[i] == trees[i] && trees'[i + 1] == trees[i + 1];
      }
    }
  }

  /**
    Every run of operations on a new table does to the tree, step by step, what its results say,
    and ends in a well-formed, bounded, sorted table whose own count is the number of nodes plus
    that of replacements.
   */
  method Run(id: Id, maxSize: nat, start: Instant, ops: seq<Op>)
    returns (t: RoutingTable, results: seq<OpResult>, ghost trees: seq<TreeArray>)
    ensures t.Valid() && t.id == id && t.buckets.maxSize == maxSize
    ensures Ran(trees, id, maxSize, ops, results) && trees[0] == InitialTree(start) && trees[|ops|] == t.buckets.data
    ensures |t.buckets.data| <= 315
    ensures Tile(t.buckets.data, Leaves(t.buckets.data, 0), t.buckets.data[0].start, t.buckets.data[0].end)
    ensures Ascending(t.buckets.Contents()) && |t.buckets.Contents()| <= maxSize
    ensures t.size == |t.buckets.Contents()| + Replacements(results)
  {
    t, results, trees := Proceed(id, maxSize, start, ops);
    LeavesTile(t.buckets.data, 0);
    StoredAscending(t.buckets.data, 0);
    ArrayBound(t.buckets.data, id);
  }

  method Proceed(id: Id, maxSize: nat, start: Instant, ops: seq<Op>)
    returns (t: RoutingTable, results: seq<OpResult>, ghost trees: seq<TreeArray>)
    ensures t.Valid() && t.id == id && t.buckets.maxSize == maxSize && t.replaced == Replacements(results)
    ensures Ran(trees, id, maxSize, ops, results) && trees[0] == InitialTree(start) && trees[|ops|] == t.buckets.data
  {
    t := new RoutingTable(id, maxSize, start);
    results, trees := [], [t.buckets.data];
    for i := 0 to |ops|
      invariant fresh(t) && fresh(t.buckets) && t.Valid() && t.id == id && t.buckets.maxSize == maxSize
      invariant Ran(trees, id, maxSize, ops[..i], results) && t.replaced == Replacements(results)
      invariant trees[0] == InitialTree(start) && trees[i] == t.buckets.data
    {
      var res := t.Apply(ops[i]);
      RanOn(trees, t.buckets.data, id, maxSize, ops, i, results, res);
      results, trees := results + [res], trees + [t.buckets.data];
    }
    assert ops[..|ops|] == ops;
  }
}
