/**
  What a routing table thinks of its nodes, told from the operations alone
  (crates/librtbit-dht/src/routing_table.rs): which nodes are replaced, which never are, and which
  are queried first, by what was asked of them and heard from them since they were added.
 */
module NodeHistories {
  import opened Ids
  import opened Net
  import opened Sorting
  import opened BucketTrees
  import opened RoutingTables

  // ---------- The history of a node ----------

  /** An operation adds a node with the id. */
  predicate Enters(op: Op, res: OpResult, id: Id) {
    op.Add? && op.id == id && res.Inserted? && (res.result.Added? || res.result.ReplacedBad?)
  }

  /** An operation's result says that the node with the id was replaced. */
  predicate Evicts(res: OpResult, id: Id) {
    res.Inserted? && res.result.ReplacedBad? && res.result.node.id == id
  }

  /** Operation i added a node with the id, and none before the n-th has replaced it. */
  ghost predicate Stays(ops: seq<Op>, results: seq<OpResult>, id: Id, i: nat, n: nat) {
    && i < n <= |ops| == |results| && Enters(ops[i], results[i], id)
    && forall k :: i < k < n ==> !Evicts(results[k], id)
  }

  predicate Asks(op: Op, id: Id) {
    op.OutgoingRequest? && op.id == id
  }

  predicate Answers(op: Op, id: Id) {
    op.Response? && op.id == id
  }

  predicate Queries(op: Op, id: Id) {
    op.LastQuery? && op.id == id
  }

  /** The times of the last request to the node, of its first and last response and of its last query, after i. */
  function LastRequest(ops: seq<Op>, id: Id, i: nat, n: nat): Option<Instant>
    requires n <= |ops|
  {
    if n <= i + 1 then None
    else if Asks(ops[n - 1], id) then Some(ops[n - 1].now) else LastRequest(ops, id, i, n - 1)
  }

  function LastResponse(ops: seq<Op>, id: Id, i: nat, n: nat): Option<Instant>
    requires n <= |ops|
  {
    if n <= i + 1 then None
    else if Answers(ops[n - 1], id) then Some(ops[n - 1].now) else LastResponse(ops, id, i, n - 1)
  }

  function FirstResponse(ops: seq<Op>, id: Id, i: nat, n: nat): Option<Instant>
    requires n <= |ops|
  {
    if n <= i + 1 then None
    else
      var earlier := FirstResponse(ops, id, i, n - 1);
      if earlier.Some? then earlier
      else if Answers(ops[n - 1], id) then Some(ops[n - 1].now) else None
  }

  function LastQueryAt(ops: seq<Op>, id: Id, i: nat, n: nat): Option<Instant>
    requires n <= |ops|
  {
    if n <= i + 1 then None
    else if Queries(ops[n - 1], id) then Some(ops[n - 1].now) else LastQueryAt(ops, id, i, n - 1)
  }

  /** When the node was last asked, as far as the table knows: a response shows that it was. */
  function AskedAt(ops: seq<Op>, id: Id, i: nat, n: nat): Option<Instant>
    requires n <= |ops|
  {
    if LastRequest(ops, id, i, n).Some? then LastRequest(ops, id, i, n) else FirstResponse(ops, id, i, n)
  }

  // ---------- What a history amounts to ----------

  /** The node has been asked, or has answered, since it was added. */
  ghost predicate WasAsked(ops: seq<Op>, id: Id, i: nat, n: nat)
    requires n <= |ops|
  {
    exists k :: i < k < n && (Asks(ops[k], id) || Answers(ops[k], id))
  }

  /** Two errors since it was added, and no response after the first of them. */
  ghost predicate TwoErrors(ops: seq<Op>, id: Id, i: nat, n: nat)
    requires n <= |ops|
  {
    exists j, k :: i < j < k < n && ops[j] == Error(id) && ops[k] == Error(id) && NoResponse(ops, id, j, n)
  }

  predicate NoResponse(ops: seq<Op>, id: Id, j: nat, n: nat)
    requires n <= |ops|
  {
    forall m :: j < m < n ==> !Answers(ops[m], id)
  }

  ghost predicate Failing(ops: seq<Op>, id: Id, i: nat, n: nat)
    requires n <= |ops|
  {
    WasAsked(ops, id, i, n) && TwoErrors(ops, id, i, n)
  }

  /** Less than 15 minutes ago. */
  predicate Recent(t: Option<Instant>, now: Instant) {
    t.Some? && Since(now, t.value) < 900_000_000_000
  }

  /** More than 15 minutes ago. */
  predicate Old(t: Option<Instant>, now: Instant) {
    t.Some? && Since(now, t.value) > 900_000_000_000
  }

  /** It has answered and not failed since, and has answered or queried us within 15 minutes. */
  ghost predicate Healthy(ops: seq<Op>, id: Id, i: nat, n: nat, now: Instant)
    requires n <= |ops|
  {
    && LastResponse(ops, id, i, n).Some? && !TwoErrors(ops, id, i, n)
    && (Recent(LastResponse(ops, id, i, n), now) || Recent(LastQueryAt(ops, id, i, n), now))
  }

  /** Neither, and it was heard from, but nothing was asked of it, for more than 15 minutes. */
  ghost predicate Quiet(ops: seq<Op>, id: Id, i: nat, n: nat, now: Instant)
    requires n <= |ops|
  {
    && !Failing(ops, id, i, n) && !Healthy(ops, id, i, n, now)
    && (Old(LastResponse(ops, id, i, n), now) || Old(LastQueryAt(ops, id, i, n), now))
    && (AskedAt(ops, id, i, n).Some? ==> Old(AskedAt(ops, id, i, n), now))
  }

  // ---------- The node's record is its history ----------

  /** How many errors there were since the last response. */
  function Errors(ops: seq<Op>, id: Id, i: nat, n: nat): nat
    requires n <= |ops|
  {
    if n <= i + 1 || Answers(ops[n - 1], id) then 0
    else Errors(ops, id, i, n - 1) + if ops[n - 1] == Error(id) then 1 else 0
  }

  ghost predicate Tracks(x: RoutingTableNode, ops: seq<Op>, id: Id, i: nat, n: nat)
    requires i < n <= |ops| && ops[i].Add?
  {
    && x.id == id && x.addr == ops[i].addr
    && x.lastRequest == AskedAt(ops, id, i, n) && x.lastResponse == LastResponse(ops, id, i, n)
    && x.lastQuery == LastQueryAt(ops, id, i, n) && x.errorsInARow == Errors(ops, id, i, n)
  }

  /** What an operation makes of a node that is not added or replaced by it. */
  function Changed(op: Op, x: RoutingTableNode): RoutingTableNode {
    if !op.Add? && op.id == x.id then ChangeOf(op)(x) else x
  }

  lemma TracksOn(x: RoutingTableNode, ops: seq<Op>, id: Id, i: nat, n: nat)
    requires i < n < |ops| && ops[i].Add? && Tracks(x, ops, id, i, n)
    ensures Tracks(Changed(ops[n], x), ops, id, i, n + 1)
  {
    AskedIffAnswered(ops, id, i, n);
  }

  lemma {:induction false} AskedIffAnswered(ops: seq<Op>, id: Id, i: nat, n: nat)
    requires n <= |ops|
    ensures LastResponse(ops, id, i, n).Some? <==> FirstResponse(ops, id, i, n).Some?
  {
    if n > i + 1 { AskedIffAnswered(ops, id, i, n - 1); }
  }

  lemma {:induction false} WasAskedIff(ops: seq<Op>, id: Id, i: nat, n: nat)
    requires n <= |ops|
    ensures AskedAt(ops, id, i, n).Some? <==> WasAsked(ops, id, i, n)
  {
    if n > i + 1 {
      WasAskedIff(ops, id, i, n - 1);
      if WasAsked(ops, id, i, n - 1) {
        var k :| i < k < n - 1 && (Asks(ops[k], id) || Answers(ops[k], id));
        assert i < k < n;
      }
    }
  }

  /** An error since it was added, and no response after it. */
  ghost predicate OneError(ops: seq<Op>, id: Id, i: nat, n: nat)
    requires n <= |ops|
  {
    exists j :: i < j < n && ops[j] == Error(id) && NoResponse(ops, id, j, n)
  }

  lemma {:induction false} ErrorsAre(ops: seq<Op>, id: Id, i: nat, n: nat)
    requires n <= |ops|
    ensures Errors(ops, id, i, n) >= 1 <==> OneError(ops, id, i, n)
    ensures Errors(ops, id, i, n) >= 2 <==> TwoErrors(ops, id, i, n)
  {
    if n > i + 1 {
      ErrorsAre(ops, id, i, n - 1);
      if Answers(ops[n - 1], id) {
        NoErrorsAfterAnswer(ops, id, i, n);
      } else {
        OneErrorOn(ops, id, i, n);
        TwoErrorsOn(ops, id, i, n);
      }
    }
  }

  lemma NoErrorsAfterAnswer(ops: seq<Op>, id: Id, i: nat, n: nat)
    requires i + 1 < n <= |ops| && Answers(ops[n - 1], id)
    ensures !OneError(ops, id, i, n) && !TwoErrors(ops, id, i, n)
  {
  }

  lemma OneErrorOn(ops: seq<Op>, id: Id, i: nat, n: nat)
    requires i + 1 < n <= |ops| && !Answers(ops[n - 1], id)
    ensures OneError(ops, id, i, n) <==> OneError(ops, id, i, n - 1) || ops[n - 1] == Error(id)
  {
    if OneError(ops, id, i, n) {
      var j :| i < j < n && ops[j] == Error(id) && NoResponse(ops, id, j, n);
      assert j == n - 1 || NoResponse(ops, id, j, n - 1);
    }
    if OneError(ops, id, i, n - 1) {
      var j :| i < j < n - 1 && ops[j] == Error(id) && NoResponse(ops, id, j, n - 1);
      assert NoResponse(ops, id, j, n);
    }
    if ops[n - 1] == Error(id) { assert NoResponse(ops, id, n - 1, n); }
  }

  lemma TwoErrorsOn(ops: seq<Op>, id: Id, i: nat, n: nat)
    requires i + 1 < n <= |ops| && !Answers(ops[n - 1], id)
    ensures TwoErrors(ops, id, i, n) <==>
              TwoErrors(ops, id, i, n - 1) || (ops[n - 1] == Error(id) && OneError(ops, id, i, n - 1))
  {
    if TwoErrors(ops, id, i, n) {
      var j, k :| i < j < k < n && ops[j] == Error(id) && ops[k] == Error(id) && NoResponse(ops, id, j, n);
      assert NoResponse(ops, id, j, n - 1);
    }
    MoreErrors(ops, id, i, n);
  }

  lemma MoreErrors(ops: seq<Op>, id: Id, i: nat, n: nat)
    requires i + 1 < n <= |ops| && !Answers(ops[n - 1], id)
    ensures TwoErrors(ops, id, i, n - 1) || (ops[n - 1] == Error(id) && OneError(ops, id, i, n - 1)) ==>
              TwoErrors(ops, id, i, n)
  {
    if TwoErrors(ops, id, i, n - 1) {
      var j, k :| i < j < k < n - 1 && ops[j] == Error(id) && ops[k] == Error(id) && NoResponse(ops, id, j, n - 1);
      assert NoResponse(ops, id, j, n) && i < j < k < n;
    } else if ops[n - 1] == Error(id) && OneError(ops, id, i, n - 1) {
      var j :| i < j < n - 1 && ops[j] == Error(id) && NoResponse(ops, id, j, n - 1);
      assert NoResponse(ops, id, j, n) && i < j < n - 1 < n;
    }
  }

  /** What the status of a node says about its history. */
  lemma StatusIs(x: RoutingTableNode, ops: seq<Op>, id: Id, i: nat, n: nat, now: Instant)
    requires i < n <= |ops| && ops[i].Add? && Tracks(x, ops, id, i, n)
    ensures x.Status(now).Bad? <==> Failing(ops, id, i, n)
    ensures x.Status(now).Good? <==> Healthy(ops, id, i, n, now)
    ensures x.Status(now).Questionable? <==> Quiet(ops, id, i, n, now)
  {
    WasAskedIff(ops, id, i, n);
    ErrorsAre(ops, id, i, n);
    AskedIffAnswered(ops, id, i, n);
  }

  // ---------- One operation ----------

  /** What an operation does to the stored nodes. */
  ghost predicate Effect(before: Nodes, after: Nodes, op: Op, res: OpResult) {
    && Ascending(before) && Ascending(after)
    && match op
       case Add(id, addr, _) =>
         && res.Inserted?
         && (res.result.Added? || res.result.ReplacedBad? ==> !HasId(before, id))
         && (match res.result
             case Added => multiset(after) == multiset(before) + multiset{NewNode(id, addr)}
             case ReplacedBad(b) =>
               b in before && multiset(after) == multiset(before) - multiset{b} + multiset{NewNode(id, addr)}
             case WasExisting => after == before
             case Ignored => after == before)
       case _ => res.Found? && Marked(before, after, op.id, ChangeOf(op), res.found)
  }

  lemma EffectOf(d: TreeArray, d': TreeArray, self: Id, maxSize: nat, op: Op, res: OpResult)
    requires Applied(d, d', self, maxSize, op, res)
    ensures Rooted(d) && Rooted(d') && Effect(Stored(d, 0), Stored(d', 0), op, res)
  {
    StoredAscending(d, 0);
    StoredAscending(d', 0);
    if op.Add? && res.result.ReplacedBad? {
      var leaf := LeafFor(d, op.id).data.nodes;
      var i: nat :| FirstBad(leaf, op.now, i) && i < |leaf| && leaf[i] == res.result.node;
      LeafIsStored(d, op.id, leaf[i]);
    }
  }

  lemma LeafIsStored(d: TreeArray, id: Id, x: RoutingTableNode)
    requires Rooted(d) && x in LeafFor(d, id).data.nodes
    ensures x in Stored(d, 0) && LeafFor(d, x.id) == LeafFor(d, id)
  {
    LeafSearch(d, id);
    RootCovers(d, id);
    RootCovers(d, x.id);
    var k := FindLeaf(d, 0, id);
    assert Within(x.id, d[k]);
    FindLeafShared(d, 0, id, x.id);
    LeafHoldsId(d, 0, x.id, x);
  }

  lemma SameId(s: Nodes, x: RoutingTableNode, y: RoutingTableNode)
    requires Ascending(s) && x in s && y in s && x.id == y.id
    ensures x == y
  {
  }

  lemma OtherId(s: Nodes, i: nat, j: nat)
    requires Ascending(s) && i < |s| && j < |s| && i != j
    ensures s[i].id != s[j].id
  {
    if i < j { assert Val(s[i].id) < Val(s[j].id); } else { assert Val(s[j].id) < Val(s[i].id); }
  }

  lemma JustOnce(s: Nodes, x: RoutingTableNode)
    requires Ascending(s)
    ensures multiset(s)[x] <= 1
  {
    assert NoDuplicates(s) by {
      forall i, j | 0 <= i < j < |s| ensures s[i] != s[j] { assert Val(s[i].id) < Val(s[j].id); }
    }
    if x in s { Once(s, x); }
  }

  /** A stored node was just added, or was there and was changed as the operation says. */
  lemma NodeBefore(before: Nodes, after: Nodes, op: Op, res: OpResult, y: RoutingTableNode)
    requires Effect(before, after, op, res) && y in after
    ensures if Enters(op, res, y.id) then y == NewNode(op.id, op.addr)
            else !Evicts(res, y.id) && exists x :: x in before && x.id == y.id && y == Changed(op, x)
  {
    match op {
      case Add(id, addr, _) => AddedBefore(before, after, id, addr, op, res, y);
      case _ => MarkedBefore(before, after, op, res, y);
    }
  }

  lemma AddedBefore(before: Nodes, after: Nodes, id: Id, addr: SocketAddr, op: Op, res: OpResult, y: RoutingTableNode)
    requires op.Add? && op.id == id && op.addr == addr && Effect(before, after, op, res) && y in after
    ensures if Enters(op, res, y.id) then y == NewNode(id, addr) else !Evicts(res, y.id) && y in before
  {
    var x := NewNode(id, addr);
    assert y in multiset(after);
    if res.result.ReplacedBad? {
      var b := res.result.node;
      JustOnce(before, b);
      if y != x {
        assert y in multiset(before) && y != b;
        if y.id == b.id { SameId(before, y, b); }
        assert y.id != id;
      }
    } else if res.result.Added? {
      if y != x { assert y in multiset(before) && y.id != id; }
    }
  }

  lemma MarkedBefore(before: Nodes, after: Nodes, op: Op, res: OpResult, y: RoutingTableNode)
    requires !op.Add? && Effect(before, after, op, res) && y in after
    ensures exists x :: x in before && x.id == y.id && y == Changed(op, x)
  {
    var j :| 0 <= j < |after| && after[j] == y;
    if res.found {
      var i :| 0 <= i < |before| && before[i].id == op.id && after == before[i := ChangeOf(op)(before[i])];
      assert before[j] in before && before[i] in before;
      if j != i { OtherId(before, i, j); }
      assert y == Changed(op, before[j]);
    } else {
      assert y.id != op.id;
      assert y == Changed(op, y);
    }
  }

  /** A stored node that is not replaced is still there, changed as the operation says. */
  lemma NodeAfter(before: Nodes, after: Nodes, op: Op, res: OpResult, x: RoutingTableNode)
    requires Effect(before, after, op, res) && x in before && !Evicts(res, x.id)
    ensures Changed(op, x) in after && !Enters(op, res, x.id)
  {
    if op.Add? { AddedAfter(before, after, op, res, x); } else { MarkedAfter(before, after, op, res, x); }
  }

  lemma AddedAfter(before: Nodes, after: Nodes, op: Op, res: OpResult, x: RoutingTableNode)
    requires op.Add? && Effect(before, after, op, res) && x in before && !Evicts(res, x.id)
    ensures x in after && !Enters(op, res, x.id)
  {
    assert x in multiset(before);
    if res.result.ReplacedBad? { assert x != res.result.node; }
    assert x in multiset(after);
  }

  lemma MarkedAfter(before: Nodes, after: Nodes, op: Op, res: OpResult, x: RoutingTableNode)
    requires !op.Add? && Effect(before, after, op, res) && x in before
    ensures Changed(op, x) in after
  {
    if res.found {
      var i :| 0 <= i < |before| && before[i].id == op.id && after == before[i := ChangeOf(op)(before[i])];
      var j :| 0 <= j < |before| && before[j] == x;
      if j == i {
        assert after[i] in after;
      } else {
        OtherId(before, i, j);
        assert after[j] in after;
      }
    }
  }

  lemma NewNodeThere(before: Nodes, after: Nodes, op: Op, res: OpResult, id: Id)
    requires Effect(before, after, op, res) && Enters(op, res, id)
    ensures NewNode(id, op.addr) in after && !HasId(before, id)
  {
    assert NewNode(id, op.addr) in multiset(after);
  }
  // ---------- Runs ----------

  ghost predicate InRun(trees: seq<TreeArray>, self: Id, maxSize: nat, ops: seq<Op>, results: seq<OpResult>) {
    Ran(trees, self, maxSize, ops, results) && exists t :: trees[0] == InitialTree(t)
  }

  /** The nodes stored before the n-th operation. */
  ghost function NodesAt(trees: seq<TreeArray>, n: nat): Nodes
    requires n < |trees| && Rooted(trees[n])
  {
    Stored(trees[n], 0)
  }

  lemma TreesRooted(trees: seq<TreeArray>, self: Id, maxSize: nat, ops: seq<Op>, results: seq<OpResult>, n: nat)
    requires InRun(trees, self, maxSize, ops, results) && n <= |ops|
    ensures Rooted(trees[n])
    ensures n == 0 ==> NodesAt(trees, n) == []
    ensures n < |ops| ==> Rooted(trees[n + 1]) && Effect(NodesAt(trees, n), NodesAt(trees, n + 1), ops[n], results[n])
  {
    if n < |ops| {
      EffectOf(trees[n], trees[n + 1], self, maxSize, ops[n], results[n]);
    } else if n > 0 {
      assert Applied(trees[n - 1], trees[n - 1 + 1], self, maxSize, ops[n - 1], results[n - 1]);
    }
    if n == 0 {
      var t :| trees[0] == InitialTree(t);
      InitialSpine(t, self);
    }
  }

  lemma EnteredAt(trees: seq<TreeArray>, self: Id, maxSize: nat, ops: seq<Op>, results: seq<OpResult>, n: nat, id: Id)
    requires InRun(trees, self, maxSize, ops, results) && n < |ops| && Enters(ops[n], results[n], id)
    ensures Rooted(trees[n + 1]) && NewNode(id, ops[n].addr) in NodesAt(trees, n + 1)
  {
    TreesRooted(trees, self, maxSize, ops, results, n);
    NewNodeThere(NodesAt(trees, n), NodesAt(trees, n + 1), ops[n], results[n], id);
  }

  lemma KeptAt(trees: seq<TreeArray>, self: Id, maxSize: nat, ops: seq<Op>, results: seq<OpResult>, n: nat,
               x: RoutingTableNode)
    requires InRun(trees, self, maxSize, ops, results) && n < |ops|
    requires Rooted(trees[n]) && x in NodesAt(trees, n) && !Evicts(results[n], x.id)
    ensures Rooted(trees[n + 1]) && Changed(ops[n], x) in NodesAt(trees, n + 1)
  {
    TreesRooted(trees, self, maxSize, ops, results, n);
    NodeAfter(NodesAt(trees, n), NodesAt(trees, n + 1), ops[n], results[n], x);
  }

  lemma WasAt(trees: seq<TreeArray>, self: Id, maxSize: nat, ops: seq<Op>, results: seq<OpResult>, n: nat,
              y: RoutingTableNode) returns (x: RoutingTableNode)
    requires InRun(trees, self, maxSize, ops, results) && n < |ops|
    requires Rooted(trees[n + 1]) && y in NodesAt(trees, n + 1) && !Enters(ops[n], results[n], y.id)
    ensures Rooted(trees[n]) && x in NodesAt(trees, n) && x.id == y.id && !Evicts(results[n], y.id)
  {
    TreesRooted(trees, self, maxSize, ops, results, n);
    NodeBefore(NodesAt(trees, n), NodesAt(trees, n + 1), ops[n], results[n], y);
    x :| x in NodesAt(trees, n) && x.id == y.id && y == Changed(ops[n], x);
  }

  lemma NothingAtFirst(trees: seq<TreeArray>, self: Id, maxSize: nat, ops: seq<Op>, results: seq<OpResult>)
    requires InRun(trees, self, maxSize, ops, results)
    ensures Rooted(trees[0]) && NodesAt(trees, 0) == []
  {
    TreesRooted(trees, self, maxSize, ops, results, 0);
  }

  /** A node that was added and not replaced is stored, with its history as its record. */
  lemma {:induction false} StoredTracks(trees: seq<TreeArray>, self: Id, maxSize: nat, ops: seq<Op>,
                                        results: seq<OpResult>, id: Id, i: nat, n: nat)
    returns (x: RoutingTableNode)
    requires InRun(trees, self, maxSize, ops, results) && Stays(ops, results, id, i, n)
    ensures Rooted(trees[n]) && x in NodesAt(trees, n) && Tracks(x, ops, id, i, n)
  {
    if i == n - 1 {
      EnteredAt(trees, self, maxSize, ops, results, i, id);
      x := NewNode(id, ops[i].addr);
    } else {
      var y := StoredTracks(trees, self, maxSize, ops, results, id, i, n - 1);
      KeptAt(trees, self, maxSize, ops, results, n - 1, y);
      TracksOn(y, ops, id, i, n - 1);
      x := Changed(ops[n - 1], y);
    }
  }

  /** And every stored node was added by some operation, and not replaced since. */
  lemma {:induction false} StoredStays(trees: seq<TreeArray>, self: Id, maxSize: nat, ops: seq<Op>,
                                       results: seq<OpResult>, n: nat, y: RoutingTableNode)
    returns (i: nat)
    requires InRun(trees, self, maxSize, ops, results) && n <= |ops|
    requires Rooted(trees[n]) && y in NodesAt(trees, n)
    ensures Stays(ops, results, y.id, i, n)
  {
    NothingAtFirst(trees, self, maxSize, ops, results);
    if Enters(ops[n - 1], results[n - 1], y.id) {
      i := n - 1;
    } else {
      var x := WasAt(trees, self, maxSize, ops, results, n - 1, y);
      i := StoredStays(trees, self, maxSize, ops, results, n - 1, x);
      StaysOn(ops, results, y.id, i, n - 1);
    }
  }

  lemma StaysOn(ops: seq<Op>, results: seq<OpResult>, id: Id, i: nat, n: nat)
    requires Stays(ops, results, id, i, n) && n < |ops| && !Evicts(results[n], id)
    ensures Stays(ops, results, id, i, n + 1)
  {
  }

  /** A node is stored exactly if it was added and not replaced since; then its record is that of its history. */
  lemma StoredIff(trees: seq<TreeArray>, self: Id, maxSize: nat, ops: seq<Op>, results: seq<OpResult>, n: nat, id: Id)
    requires InRun(trees, self, maxSize, ops, results) && n <= |ops|
    ensures Rooted(trees[n]) && (HasId(NodesAt(trees, n), id) <==> exists i :: Stays(ops, results, id, i, n))
    ensures forall i, x :: Stays(ops, results, id, i, n) && x in NodesAt(trees, n) && x.id == id ==>
              Tracks(x, ops, id, i, n)
  {
    TreesRooted(trees, self, maxSize, ops, results, n);
    StoredAscending(trees[n], 0);
    if HasId(NodesAt(trees, n), id) {
      var y :| y in NodesAt(trees, n) && y.id == id;
      var i := StoredStays(trees, self, maxSize, ops, results, n, y);
    }
    forall i | Stays(ops, results, id, i, n)
      ensures HasId(NodesAt(trees, n), id)
      ensures forall x :: x in NodesAt(trees, n) && x.id == id ==> Tracks(x, ops, id, i, n)
    {
      var y := StoredTracks(trees, self, maxSize, ops, results, id, i, n);
      forall x | x in NodesAt(trees, n) && x.id == id ensures Tracks(x, ops, id, i, n) {
        SameId(NodesAt(trees, n), x, y);
      }
    }
  }

  // ---------- Who is replaced, and who is asked first ----------

  /** The stored node with the id has, by the n-th operation, failed; is healthy; or has been quiet. */
  ghost predicate HasFailed(ops: seq<Op>, results: seq<OpResult>, id: Id, n: nat) {
    exists i :: Stays(ops, results, id, i, n) && Failing(ops, id, i, n)
  }

  ghost predicate IsHealthy(ops: seq<Op>, results: seq<OpResult>, id: Id, n: nat, now: Instant) {
    exists i :: Stays(ops, results, id, i, n) && Healthy(ops, id, i, n, now)
  }

  ghost predicate IsQuiet(ops: seq<Op>, results: seq<OpResult>, id: Id, n: nat, now: Instant) {
    exists i :: Stays(ops, results, id, i, n) && Quiet(ops, id, i, n, now)
  }

  lemma StandingIs(trees: seq<TreeArray>, self: Id, maxSize: nat, ops: seq<Op>, results: seq<OpResult>, n: nat,
                   x: RoutingTableNode, now: Instant)
    requires InRun(trees, self, maxSize, ops, results) && n <= |ops|
    requires Rooted(trees[n]) && x in NodesAt(trees, n)
    ensures x.Status(now).Bad? <==> HasFailed(ops, results, x.id, n)
    ensures x.Status(now).Good? <==> IsHealthy(ops, results, x.id, n, now)
    ensures x.Status(now).Questionable? <==> IsQuiet(ops, results, x.id, n, now)
  {
    var i := StoredStays(trees, self, maxSize, ops, results, n, x);
    StoredIff(trees, self, maxSize, ops, results, n, x.id);
    forall k | Stays(ops, results, x.id, k, n)
      ensures x.Status(now).Bad? <==> Failing(ops, x.id, k, n)
      ensures x.Status(now).Good? <==> Healthy(ops, x.id, k, n, now)
      ensures x.Status(now).Questionable? <==> Quiet(ops, x.id, k, n, now)
    {
      StatusIs(x, ops, x.id, k, n, now);
    }
  }
  /** The nodes in the leaf that covers an id, before the n-th operation. */
  ghost function LeafAt(trees: seq<TreeArray>, n: nat, id: Id): Nodes
    requires n < |trees| && Rooted(trees[n])
  {
    LeafFor(trees[n], id).data.nodes
  }

  lemma LeafStandings(trees: seq<TreeArray>, self: Id, maxSize: nat, ops: seq<Op>, results: seq<OpResult>, n: nat,
                      id: Id, now: Instant, y: RoutingTableNode)
    requires InRun(trees, self, maxSize, ops, results) && n <= |ops|
    requires Rooted(trees[n]) && y in LeafAt(trees, n, id)
    ensures y.Status(now).Bad? <==> HasFailed(ops, results, y.id, n)
  {
    LeafIsStored(trees[n], id, y);
    StandingIs(trees, self, maxSize, ops, results, n, y, now);
  }

  /** Some node of a leaf has failed. */
  ghost predicate SomeFailed(leaf: Nodes, ops: seq<Op>, results: seq<OpResult>, n: nat) {
    exists y :: y in leaf && HasFailed(ops, results, y.id, n)
  }

  /** Of the failed nodes of a leaf, b has the lowest id. */
  ghost predicate LowestFailed(leaf: Nodes, ops: seq<Op>, results: seq<OpResult>, n: nat, b: RoutingTableNode) {
    && b in leaf && HasFailed(ops, results, b.id, n)
    && forall y :: y in leaf && HasFailed(ops, results, y.id, n) ==> Val(b.id) <= Val(y.id)
  }

  /**
    Adding an id replaces a node exactly if the id is new and some node in its leaf has failed: was
    asked, and gave two errors in a row since. It replaces the one of these with the lowest id. So
    a node that is added, or ignored, finds none in its leaf that has failed.
   */
  lemma ReplacedIff(trees: seq<TreeArray>, self: Id, maxSize: nat, ops: seq<Op>, results: seq<OpResult>, n: nat)
    requires InRun(trees, self, maxSize, ops, results) && n < |ops| && ops[n].Add?
    ensures Rooted(trees[n]) && results[n].Inserted?
    ensures results[n].result.ReplacedBad? <==>
              !HasId(NodesAt(trees, n), ops[n].id) && SomeFailed(LeafAt(trees, n, ops[n].id), ops, results, n)
    ensures results[n].result.ReplacedBad? ==>
              LowestFailed(LeafAt(trees, n, ops[n].id), ops, results, n, results[n].result.node)
  {
    assert Applied(trees[n], trees[n + 1], self, maxSize, ops[n], results[n]);
    var leaf, now := LeafAt(trees, n, ops[n].id), ops[n].now;
    forall y | y in leaf ensures y.Status(now).Bad? <==> HasFailed(ops, results, y.id, n) {
      LeafStandings(trees, self, maxSize, ops, results, n, ops[n].id, now, y);
    }
    match results[n].result {
      case WasExisting =>
      case ReplacedBad(b) =>
        LeafSearch(trees[n], ops[n].id);
        FirstIsLowest(leaf, now, b, ops, results, n);
      case Added => NoneFailed(leaf, now, ops, results, n);
      case Ignored => NoneFailed(leaf, now, ops, results, n);
    }
  }

  lemma FirstIsLowest(leaf: Nodes, now: Instant, b: RoutingTableNode, ops: seq<Op>, results: seq<OpResult>, n: nat)
    requires Ascending(leaf) && exists i: nat :: FirstBad(leaf, now, i) && i < |leaf| && leaf[i] == b
    requires forall y :: y in leaf ==> (y.Status(now).Bad? <==> HasFailed(ops, results, y.id, n))
    ensures LowestFailed(leaf, ops, results, n, b) && SomeFailed(leaf, ops, results, n)
  {
    var i: nat :| FirstBad(leaf, now, i) && i < |leaf| && leaf[i] == b;
    assert b in leaf;
    forall y | y in leaf && HasFailed(ops, results, y.id, n) ensures Val(b.id) <= Val(y.id) {
      var j :| 0 <= j < |leaf| && leaf[j] == y;
      assert j >= i;
      if i < j { assert Val(leaf[i].id) < Val(leaf[j].id); }
    }
  }

  lemma NoneFailed(leaf: Nodes, now: Instant, ops: seq<Op>, results: seq<OpResult>, n: nat)
    requires NoneBad(leaf, now)
    requires forall y :: y in leaf ==> (y.Status(now).Bad? <==> HasFailed(ops, results, y.id, n))
    ensures !SomeFailed(leaf, ops, results, n)
  {
  }

  /** No node is ever replaced that has not failed; in particular no healthy one is. */
  lemma HealthyStays(trees: seq<TreeArray>, self: Id, maxSize: nat, ops: seq<Op>, results: seq<OpResult>, n: nat,
                     id: Id, now: Instant)
    requires InRun(trees, self, maxSize, ops, results) && n < |ops|
    requires !HasFailed(ops, results, id, n) || IsHealthy(ops, results, id, n, now)
    ensures !Evicts(results[n], id)
  {
    if Evicts(results[n], id) {
      assert Applied(trees[n], trees[n + 1], self, maxSize, ops[n], results[n]);
      ReplacedIff(trees, self, maxSize, ops, results, n);
      var b := results[n].result.node;
      LeafIsStored(trees[n], ops[n].id, b);
      StandingIs(trees, self, maxSize, ops, results, n, b, now);
    }
  }

  /** The group that the node with the id is in: healthy nodes, quiet ones, others, and failed ones. */
  ghost function Group(ops: seq<Op>, results: seq<OpResult>, id: Id, n: nat, now: Instant): nat {
    if IsHealthy(ops, results, id, n, now) then 0
    else if IsQuiet(ops, results, id, n, now) then 1
    else if HasFailed(ops, results, id, n) then 3
    else 2
  }

  /** Sorted by distance from a target, nodes come group by group, and within a group by XOR distance. */
  lemma SortedByHistory(trees: seq<TreeArray>, self: Id, maxSize: nat, ops: seq<Op>, results: seq<OpResult>, n: nat,
                        target: Id, now: Instant, r: Nodes, p: nat, q: nat)
    requires InRun(trees, self, maxSize, ops, results) && n <= |ops| && Rooted(trees[n])
    requires multiset(r) == multiset(NodesAt(trees, n)) && SortedBy(r, ByPreference(target, now)) && p < q < |r|
    ensures var g, h := Group(ops, results, r[p].id, n, now), Group(ops, results, r[q].id, n, now);
            g < h || (g == h && Val(Distance(target, r[p].id)) <= Val(Distance(target, r[q].id)))
  {
    SameElements(r, NodesAt(trees, n));
    assert r[p] in r && r[q] in r;
    StandingIs(trees, self, maxSize, ops, results, n, r[p], now);
    StandingIs(trees, self, maxSize, ops, results, n, r[q], now);
    assert ByPreference(target, now)(r[p], r[q]);
  }
}
