/**
  The list of useful nodes of a lookup (crates/librtbit-dht/src/dht.rs): which of the nodes found
  so far are worth asking, and what an answer leads to.
 */
module UsefulLists {
  import opened Ids
  import opened Net
  import opened Sorting
  import opened LookupRuns

  const REREQUEST_AFTER: nat := 60 * SECOND

  datatype UsefulNode = UsefulNode(
    id: Id, addr: SocketAddr, lastRequest: Instant, lastResponse: Option<Instant>,
    errorsInARow: nat, returnedPeers: bool)
  {
    function Responded(now: Instant, peers: bool): UsefulNode {
      this.(lastResponse := Some(now), errorsInARow := 0, returnedPeers := peers)
    }

    function Failed(): UsefulNode {
      this.(errorsInARow := errorsInARow + 1)
    }
  }

  type UsefulNodes = seq<UsefulNode>

  ghost predicate DistinctIds(s: UsefulNodes) {
    forall i, j :: 0 <= i < j < |s| ==> s[i].id != s[j].id
  }

  ghost predicate Knows(s: UsefulNodes, id: Id) {
    exists i :: 0 <= i < |s| && s[i].id == id
  }

  // ---------- The order of usefulness ----------

  /** Nodes that returned peers come first, then nodes that answered at all. */
  function Rank(n: UsefulNode): nat {
    (if n.returnedPeers then 0 else 2) + (if n.lastResponse.Some? then 0 else 1)
  }

  /** Within a rank: closer to the target first, then the fresher answer. */
  predicate UsefulLe(target: Id, now: Instant, a: UsefulNode, b: UsefulNode) {
    var da, db := Val(Distance(a.id, target)), Val(Distance(b.id, target));
    || Rank(a) < Rank(b)
    || (Rank(a) == Rank(b)
        && (da < db
            || (da == db && (a.lastResponse.Some? && b.lastResponse.Some? ==>
                               Since(now, a.lastResponse.value) <= Since(now, b.lastResponse.value)))))
  }

  function ByUsefulness(target: Id, now: Instant): (UsefulNode, UsefulNode) -> bool {
    (a, b) => UsefulLe(target, now, a, b)
  }

  lemma UsefulnessIsOrder(target: Id, now: Instant)
    ensures TotalPreorder(ByUsefulness(target, now))
  {
  }

  /**
    Of two nodes the more useful one has returned peers when the other has not; failing that, has
    answered when the other has not; failing that, is closer by XOR; failing that, answered later.
   */
  predicate MoreUseful(target: Id, now: Instant, a: UsefulNode, b: UsefulNode) {
    if a.returnedPeers != b.returnedPeers then a.returnedPeers
    else if a.lastResponse.Some? != b.lastResponse.Some? then a.lastResponse.Some?
    else if Distance(a.id, target) != Distance(b.id, target) then
      Val(Distance(a.id, target)) < Val(Distance(b.id, target))
    else
      a.lastResponse.Some? && Since(now, a.lastResponse.value) < Since(now, b.lastResponse.value)
  }

  /** A list is in the order of usefulness exactly if no node comes after a less useful one. */
  lemma InOrderIff(s: UsefulNodes, target: Id, now: Instant)
    ensures SortedBy(s, ByUsefulness(target, now)) <==>
              forall i, j :: 0 <= i < j < |s| ==> !MoreUseful(target, now, s[j], s[i])
  {
    forall i, j | 0 <= i < j < |s|
      ensures ByUsefulness(target, now)(s[i], s[j]) <==> !MoreUseful(target, now, s[j], s[i])
    {
      UsefulnessIs(target, now, s[i], s[j]);
    }
  }

  lemma UsefulnessIs(target: Id, now: Instant, a: UsefulNode, b: UsefulNode)
    ensures UsefulLe(target, now, a, b) <==> !MoreUseful(target, now, b, a)
  {
    LessIsNumeric(Distance(a.id, target), Distance(b.id, target));
  }

  lemma DistinctPermuted(s: UsefulNodes, r: UsefulNodes)
    requires DistinctIds(s) && multiset(r) == multiset(s)
    ensures DistinctIds(r)
  {
    SameElements(r, s);
    PartNoDuplicates(r, s);
    forall i, j | 0 <= i < j < |r| ensures r[i].id != r[j].id {
      assert r[i] in s && r[j] in s;
    }
  }

  /**
    What a new node does to the list: it joins, and if that makes the list too long the least
    useful node goes. The new node is worth a request exactly when it is not the one that goes.
   */
  ghost predicate Admitted(before: UsefulNodes, after: UsefulNodes, x: UsefulNode,
                           limit: nat, le: (UsefulNode, UsefulNode) -> bool, request: bool)
  {
    && SortedBy(after, le)
    && request == Knows(after, x.id)
    && if |before| < limit then multiset(after) == multiset(before) + multiset{x}
       else exists worst :: multiset(after) + multiset{worst} == multiset(before) + multiset{x}
                            && forall y :: y in after ==> le(y, worst)
  }

  /** r holds before and x, in order. */
  ghost predicate Joined(before: UsefulNodes, x: UsefulNode, r: UsefulNodes, le: (UsefulNode, UsefulNode) -> bool) {
    && |r| == |before| + 1 && DistinctIds(r) && x in r
    && SortedBy(r, le) && multiset(r) == multiset(before) + multiset{x}
  }

  lemma SortJoins(before: UsefulNodes, x: UsefulNode, target: Id, now: Instant)
    requires DistinctIds(before) && !Knows(before, x.id)
    ensures Joined(before, x, Sort(before + [x], ByUsefulness(target, now)), ByUsefulness(target, now))
  {
    var all, le := before + [x], ByUsefulness(target, now);
    UsefulnessIsOrder(target, now);
    SortCorrect(all, le);
    DistinctPermuted(all, Sort(all, le));
    SameElements(Sort(all, le), all);
    assert all[|before|] == x;
  }

  lemma KeepAll(before: UsefulNodes, x: UsefulNode, r: UsefulNodes, le: (UsefulNode, UsefulNode) -> bool, limit: nat)
    requires Joined(before, x, r, le)
    ensures |before| < limit ==> Admitted(before, r, x, limit, le, true)
  {
  }

  /** With a full list, the last node of the sorted one is the least useful. */
  lemma DropLast(before: UsefulNodes, x: UsefulNode, r: UsefulNodes, le: (UsefulNode, UsefulNode) -> bool)
    requires Joined(before, x, r, le)
    ensures Admitted(before, r[..|before|], x, |before|, le, r[|before|].id != x.id)
  {
    var n := |before|;
    CutLast(r, n, le);
    KnownIff(r, n, x);
    assert multiset(r[..n]) + multiset{r[n]} == multiset(before) + multiset{x};
  }

  lemma KnownIff(r: UsefulNodes, n: nat, x: UsefulNode)
    requires DistinctIds(r) && |r| == n + 1 && x in r
    ensures Knows(r[..n], x.id) <==> r[n].id != x.id
  {
    var j :| 0 <= j < |r| && r[j] == x;
    if j < n { assert r[..n][j].id == x.id; }
  }

  // ---------- The list of useful nodes ----------

  /** What a lookup is made with. */
  datatype Params = Params(target: Id, limit: nat, maxDepth: nat)

  ghost predicate ListOk(c: Params, s: UsefulNodes) {
    DistinctIds(s) && |s| <= c.limit
  }

  function IndexOfId(s: UsefulNodes, id: Id): (i: nat)
    ensures i <= |s| && (i < |s| ==> s[i].id == id)
    ensures forall k :: 0 <= k < i ==> s[k].id != id
  {
    if s == [] || s[0].id == id then 0 else 1 + IndexOfId(s[1..], id)
  }

  function IndexOfAddr(s: UsefulNodes, addr: SocketAddr): (i: nat)
    ensures i <= |s| && (i < |s| ==> s[i].addr == addr)
    ensures forall k :: 0 <= k < i ==> s[k].addr != addr
  {
    if s == [] || s[0].addr == addr then 0 else 1 + IndexOfAddr(s[1..], addr)
  }

  /** The first node of a list with an address. */
  predicate FirstAt(s: UsefulNodes, addr: SocketAddr, i: int) {
    0 <= i < |s| && s[i].addr == addr && forall k :: 0 <= k < i ==> s[k].addr != addr
  }

  function MarkResponded(s: UsefulNodes, addr: SocketAddr, now: Instant, peers: bool): UsefulNodes {
    var i := IndexOfAddr(s, addr);
    if i < |s| then s[i := s[i].Responded(now, peers)] else s
  }

  function MarkFailed(s: UsefulNodes, addr: SocketAddr): UsefulNodes {
    var i := IndexOfAddr(s, addr);
    if i < |s| then s[i := s[i].Failed()] else s
  }

  function NewNode(node: (Id, SocketAddr), now: Instant): UsefulNode {
    UsefulNode(node.0, node.1, now, None, 0, false)
  }

  /** A node not in the list yet: the list with it, sorted and cut, and whether to ask the node. */
  function Admit(c: Params, s: UsefulNodes, x: UsefulNode, now: Instant): (UsefulNodes, bool) {
    var r := Sort(s + [x], ByUsefulness(c.target, now));
    if |r| > c.limit then (r[..|r| - 1], r[|r| - 1].id != x.id) else (r, true)
  }

  /** should_request_node: what becomes of the list, and whether to ask the node. */
  function Consider(c: Params, s: UsefulNodes, node: (Id, SocketAddr), depth: nat, now: Instant): (UsefulNodes, bool) {
    if depth >= c.maxDepth then (s, false)
    else
      var i := IndexOfId(s, node.0);
      if i == |s| then Admit(c, s, NewNode(node, now), now)
      else if Since(now, s[i].lastRequest) > REREQUEST_AFTER then (s[i := s[i].(lastRequest := now)], true)
      else (s, false)
  }

  /** A new node is asked exactly if it survives the sorted eviction, which takes the least useful node. */
  lemma AdmitIs(c: Params, s: UsefulNodes, x: UsefulNode, now: Instant)
    requires ListOk(c, s) && !Knows(s, x.id)
    ensures var (t, request) := Admit(c, s, x, now);
            ListOk(c, t) && Admitted(s, t, x, c.limit, ByUsefulness(c.target, now), request)
  {
    var le := ByUsefulness(c.target, now);
    var r := Sort(s + [x], le);
    SortJoins(s, x, c.target, now);
    if |r| > c.limit {
      DropLast(s, x, r, le);
    } else {
      KeepAll(s, x, r, le, c.limit);
    }
  }

  lemma ConsiderKeeps(c: Params, s: UsefulNodes, node: (Id, SocketAddr), depth: nat, now: Instant)
    requires ListOk(c, s)
    ensures ListOk(c, Consider(c, s, node, depth, now).0)
  {
    if IndexOfId(s, node.0) == |s| {
      AdmitIs(c, s, NewNode(node, now), now);
    }
  }

  // ---------- What answers lead to ----------

  function ItemFor(node: (Id, SocketAddr), depth: nat): Item {
    Item(Some(node.0), node.1, depth, false)
  }

  /**
    An answer's nodes are considered one after the other, those of the other address family left
    aside; those worth asking become items one level deeper.
   */
  function Choose(c: Params, s: UsefulNodes, from: Item, nodes: seq<(Id, SocketAddr)>, now: Instant)
    : (UsefulNodes, seq<Item>)
  {
    if nodes == [] then (s, [])
    else
      var n := |nodes| - 1;
      var (t, items) := Choose(c, s, from, nodes[..n], now);
      if nodes[n].1.V4? != from.addr.V4? then (t, items)
      else
        var (u, request) := Consider(c, t, nodes[n], from.depth, now);
        (u, if request then items + [ItemFor(nodes[n], from.depth + 1)] else items)
  }

  lemma {:induction false} ChooseKeeps(c: Params, s: UsefulNodes, from: Item,
                                       nodes: seq<(Id, SocketAddr)>, now: Instant)
    requires ListOk(c, s)
    ensures ListOk(c, Choose(c, s, from, nodes, now).0)
    ensures forall x :: x in Choose(c, s, from, nodes, now).1 ==> NextTo(c.maxDepth, x, from)
  {
    if nodes != [] {
      var n := |nodes| - 1;
      ChooseKeeps(c, s, from, nodes[..n], now);
      ConsiderKeeps(c, Choose(c, s, from, nodes[..n], now).0, nodes[n], from.depth, now);
    }
  }

  // ---------- Which nodes of an answer are asked ----------

  /**
    What becomes of the list when a node is considered, and whether to ask the node. Too deep, it is
    not asked. A node not known joins the list if it is useful enough, and is asked if it does. A
    known one is asked again after a minute.
   */
  ghost predicate Considered(c: Params, before: UsefulNodes, after: UsefulNodes, id: Id, addr: SocketAddr,
                             depth: nat, now: Instant, request: bool)
  {
    if depth >= c.maxDepth then after == before && !request
    else if !Knows(before, id) then
      Admitted(before, after, UsefulNode(id, addr, now, None, 0, false), c.limit, ByUsefulness(c.target, now), request)
    else
      exists i :: 0 <= i < |before| && before[i].id == id
                  && request == (Since(now, before[i].lastRequest) > 60_000_000_000)
                  && after == if request then before[i := before[i].(lastRequest := now)] else before
  }

  /** A node of an answer is considered if it is of the asker's address family. */
  ghost predicate Looked(c: Params, from: Item, node: (Id, SocketAddr), now: Instant,
                         before: UsefulNodes, after: UsefulNodes, request: bool)
  {
    if node.1.V4? == from.addr.V4? then Considered(c, before, after, node.0, node.1, from.depth, now, request)
    else after == before && !request
  }

  /** The lists that looking at the nodes one after the other goes through. */
  ghost predicate Went(c: Params, from: Item, nodes: seq<(Id, SocketAddr)>, now: Instant,
                       lists: seq<UsefulNodes>, requests: seq<bool>)
  {
    && |lists| == |nodes| + 1 == |requests| + 1
    && forall i :: 0 <= i < |nodes| ==> Looked(c, from, nodes[i], now, lists[i], lists[i + 1], requests[i])
  }

  /** The items are the nodes to ask, in order, one level deeper. */
  ghost predicate Requested(from: Item, nodes: seq<(Id, SocketAddr)>, requests: seq<bool>, picks: seq<nat>,
                            items: seq<Item>)
  {
    |requests| == |nodes| && PicksAre(requests, picks) && ItemsAre(from, nodes, picks, items)
  }

  /** The picks are the places of the requests, in order. */
  ghost predicate PicksAre(requests: seq<bool>, picks: seq<nat>) {
    && (forall i, j :: 0 <= i < j < |picks| ==> picks[i] < picks[j])
    && (forall i :: i in picks <==> 0 <= i < |requests| && requests[i])
  }

  ghost predicate ItemsAre(from: Item, nodes: seq<(Id, SocketAddr)>, picks: seq<nat>, items: seq<Item>) {
    && |items| == |picks|
    && forall i :: 0 <= i < |picks| ==>
         picks[i] < |nodes|
         && items[i] == Item(Some(nodes[picks[i]].0), nodes[picks[i]].1, from.depth + 1, false)
  }

  /** An answer with these nodes leads from the list s to the list t and to these items. */
  ghost predicate Chosen(c: Params, s: UsefulNodes, t: UsefulNodes, from: Item, nodes: seq<(Id, SocketAddr)>,
                         now: Instant, items: seq<Item>)
  {
    exists lists, requests, picks :: ChosenBy(c, s, t, from, nodes, now, items, lists, requests, picks)
  }

  ghost predicate ChosenBy(c: Params, s: UsefulNodes, t: UsefulNodes, from: Item, nodes: seq<(Id, SocketAddr)>,
                           now: Instant, items: seq<Item>,
                           lists: seq<UsefulNodes>, requests: seq<bool>, picks: seq<nat>)
  {
    && Went(c, from, nodes, now, lists, requests) && lists[0] == s && lists[|nodes|] == t
    && Requested(from, nodes, requests, picks, items)
  }

  lemma ConsideredIs(c: Params, s: UsefulNodes, node: (Id, SocketAddr), depth: nat, now: Instant)
    requires ListOk(c, s)
    ensures var (t, request) := Consider(c, s, node, depth, now);
            Considered(c, s, t, node.0, node.1, depth, now, request)
  {
    if depth < c.maxDepth {
      var i := IndexOfId(s, node.0);
      if i == |s| {
        AdmitIs(c, s, NewNode(node, now), now);
      } else {
        assert s[i].id == node.0;
      }
    }
  }

  lemma {:induction false} ChooseIs(c: Params, s: UsefulNodes, from: Item, nodes: seq<(Id, SocketAddr)>, now: Instant)
    requires ListOk(c, s)
    ensures Chosen(c, s, Choose(c, s, from, nodes, now).0, from, nodes, now, Choose(c, s, from, nodes, now).1)
  {
    if nodes == [] {
      assert ChosenBy(c, s, s, from, [], now, [], [s], [], []);
    } else {
      ChooseIs(c, s, from, nodes[..|nodes| - 1], now);
      var mid, before, t, request := ChooseStep(c, s, from, nodes, now);
      OneMoreNode(c, s, mid, t, from, nodes, now, before, request);
    }
  }

  function WithItem(items: seq<Item>, node: (Id, SocketAddr), depth: nat, request: bool): seq<Item> {
    if request then items + [ItemFor(node, depth)] else items
  }

  lemma ChooseStep(c: Params, s: UsefulNodes, from: Item, nodes: seq<(Id, SocketAddr)>, now: Instant)
    returns (mid: UsefulNodes, before: seq<Item>, t: UsefulNodes, request: bool)
    requires ListOk(c, s) && nodes != []
    ensures (mid, before) == Choose(c, s, from, nodes[..|nodes| - 1], now)
    ensures Looked(c, from, nodes[|nodes| - 1], now, mid, t, request)
    ensures Choose(c, s, from, nodes, now) == (t, WithItem(before, nodes[|nodes| - 1], from.depth + 1, request))
  {
    var n := |nodes| - 1;
    mid, before := Choose(c, s, from, nodes[..n], now).0, Choose(c, s, from, nodes[..n], now).1;
    ChooseKeeps(c, s, from, nodes[..n], now);
    if nodes[n].1.V4? == from.addr.V4? {
      ConsideredIs(c, mid, nodes[n], from.depth, now);
      t, request := Consider(c, mid, nodes[n], from.depth, now).0, Consider(c, mid, nodes[n], from.depth, now).1;
    } else {
      t, request := mid, false;
    }
  }

  lemma OneMoreNode(c: Params, s: UsefulNodes, mid: UsefulNodes, t: UsefulNodes, from: Item,
                    nodes: seq<(Id, SocketAddr)>, now: Instant, before: seq<Item>, request: bool)
    requires nodes != [] && Chosen(c, s, mid, from, nodes[..|nodes| - 1], now, before)
    requires Looked(c, from, nodes[|nodes| - 1], now, mid, t, request)
    ensures Chosen(c, s, t, from, nodes, now, WithItem(before, nodes[|nodes| - 1], from.depth + 1, request))
  {
    var n := |nodes| - 1;
    var lists, requests, picks :| ChosenBy(c, s, mid, from, nodes[..n], now, before, lists, requests, picks);
    WentOn(c, from, nodes, now, lists, requests, t, request);
    var items, picks' := PickedOn(from, nodes, requests, picks, before, request);
    ChosenOn(c, s, t, from, nodes, now, items, lists, requests, picks', request);
  }

  lemma ChosenOn(c: Params, s: UsefulNodes, t: UsefulNodes, from: Item, nodes: seq<(Id, SocketAddr)>, now: Instant,
                 items: seq<Item>, lists: seq<UsefulNodes>, requests: seq<bool>, picks: seq<nat>, request: bool)
    requires |lists| == |nodes| > 0 && lists[0] == s
    requires Went(c, from, nodes, now, lists + [t], requests + [request])
    requires Requested(from, nodes, requests + [request], picks, items)
    ensures Chosen(c, s, t, from, nodes, now, items)
  {
    assert ChosenBy(c, s, t, from, nodes, now, items, lists + [t], requests + [request], picks);
  }

  lemma WentOn(c: Params, from: Item, nodes: seq<(Id, SocketAddr)>, now: Instant,
               lists: seq<UsefulNodes>, requests: seq<bool>, t: UsefulNodes, request: bool)
    requires nodes != [] && Went(c, from, nodes[..|nodes| - 1], now, lists, requests)
    requires Looked(c, from, nodes[|nodes| - 1], now, lists[|nodes| - 1], t, request)
    ensures Went(c, from, nodes, now, lists + [t], requests + [request])
  {
    var n, lists', requests' := |nodes| - 1, lists + [t], requests + [request];
    forall i | 0 <= i < |nodes| ensures Looked(c, from, nodes[i], now, lists'[i], lists'[i + 1], requests'[i]) {
      if i < n {
        assert nodes[..n][i] == nodes[i] && lists'[i] == lists[i] && lists'[i + 1] == lists[i + 1];
        assert requests'[i] == requests[i];
      }
    }
  }

  lemma PickedOn(from: Item, nodes: seq<(Id, SocketAddr)>, requests: seq<bool>, picks: seq<nat>, items: seq<Item>,
                 request: bool) returns (items': seq<Item>, picks': seq<nat>)
    requires nodes != [] && Requested(from, nodes[..|nodes| - 1], requests, picks, items)
    ensures Requested(from, nodes, requests + [request], picks', items')
    ensures items' == WithItem(items, nodes[|nodes| - 1], from.depth + 1, request)
  {
    var n := |nodes| - 1;
    PicksOn(requests, picks, request);
    ItemsOn(from, nodes, picks, items, request);
    if request {
      picks', items' := picks + [n], items + [ItemFor(nodes[n], from.depth + 1)];
    } else {
      picks', items' := picks, items;
    }
  }

  lemma PicksOn(requests: seq<bool>, picks: seq<nat>, request: bool)
    requires PicksAre(requests, picks)
    ensures PicksAre(requests + [request], if request then picks + [|requests|] else picks)
  {
    var n, requests', picks' := |requests|, requests + [request], if request then picks + [|requests|] else picks;
    forall i ensures i in picks' <==> 0 <= i < |requests'| && requests'[i] {
      assert i in picks <==> 0 <= i < n && requests[i];
      assert request ==> (i in picks' <==> i in picks || i == n);
    }
    forall i | 0 <= i < |picks| ensures picks[i] < n {
      assert picks[i] in picks;
    }
  }

  lemma ItemsOn(from: Item, nodes: seq<(Id, SocketAddr)>, picks: seq<nat>, items: seq<Item>, request: bool)
    requires nodes != [] && ItemsAre(from, nodes[..|nodes| - 1], picks, items)
    ensures var n := |nodes| - 1;
            if request then ItemsAre(from, nodes, picks + [n], items + [ItemFor(nodes[n], from.depth + 1)])
            else ItemsAre(from, nodes, picks, items)
  {
    var n := |nodes| - 1;
    forall i | 0 <= i < |picks| ensures picks[i] < n && nodes[..n][picks[i]] == nodes[picks[i]] {
    }
  }

  /** A node that is new, in a list with room, is asked. */
  lemma RoomMeansAsked(c: Params, before: UsefulNodes, after: UsefulNodes, id: Id, addr: SocketAddr, depth: nat,
                       now: Instant, request: bool)
    requires Considered(c, before, after, id, addr, depth, now, request)
    requires depth < c.maxDepth && !Knows(before, id) && |before| < c.limit
    ensures request
  {
    var x := UsefulNode(id, addr, now, None, 0, false);
    assert multiset(after)[x] > 0;
    assert x in after;
  }

  /** Considering a node adds at most that one. */
  lemma ConsideredAdds(c: Params, before: UsefulNodes, after: UsefulNodes, id: Id, addr: SocketAddr, depth: nat,
                       now: Instant, request: bool, other: Id)
    requires Considered(c, before, after, id, addr, depth, now, request)
    ensures |after| <= |before| + 1
    ensures other != id && Knows(after, other) ==> Knows(before, other)
  {
    if depth < c.maxDepth && !Knows(before, id) {
      AdmittedAdds(before, after, UsefulNode(id, addr, now, None, 0, false), c.limit, ByUsefulness(c.target, now),
                   request, other);
    }
  }

  lemma AdmittedAdds(before: UsefulNodes, after: UsefulNodes, x: UsefulNode, limit: nat,
                     le: (UsefulNode, UsefulNode) -> bool, request: bool, other: Id)
    requires Admitted(before, after, x, limit, le, request)
    ensures |after| <= |before| + 1
    ensures other != x.id && Knows(after, other) ==> Knows(before, other)
  {
    var all := before + [x];
    AppendOne(before, x);
    PartSmaller(after, all);
    if other != x.id && Knows(after, other) {
      var i :| 0 <= i < |after| && after[i].id == other;
      assert after[i] in multiset(after) && after[i] in multiset(all);
      var j :| 0 <= j < |all| && all[j] == after[i];
      assert before[j].id == other;
    }
  }

  lemma PartSmaller(s: UsefulNodes, t: UsefulNodes)
    requires multiset(s) <= multiset(t)
    ensures |s| <= |t|
  {
    assert |multiset(t)| == |multiset(t) - multiset(s)| + |multiset(s)|;
  }

  lemma {:induction false} StillNew(c: Params, from: Item, nodes: seq<(Id, SocketAddr)>, now: Instant,
                                    lists: seq<UsefulNodes>, requests: seq<bool>, j: nat, id: Id)
    requires Went(c, from, nodes, now, lists, requests) && j <= |nodes|
    requires !Knows(lists[0], id) && forall i :: 0 <= i < j ==> nodes[i].0 != id
    ensures !Knows(lists[j], id) && |lists[j]| <= |lists[0]| + j
  {
    if j > 0 {
      var i := j - 1;
      StillNew(c, from, nodes, now, lists, requests, i, id);
      assert lists[i + 1] == lists[j];
      if nodes[i].1.V4? == from.addr.V4? {
        ConsideredAdds(c, lists[i], lists[j], nodes[i].0, nodes[i].1, from.depth, now, requests[i], id);
      }
    }
  }

  /** A node of the asker's family whose id is neither known nor named before, with room left, is asked. */
  lemma NewNodeChosen(c: Params, s: UsefulNodes, t: UsefulNodes, from: Item, nodes: seq<(Id, SocketAddr)>,
                      now: Instant, items: seq<Item>, j: nat)
    requires Chosen(c, s, t, from, nodes, now, items) && from.depth < c.maxDepth
    requires j < |nodes| && nodes[j].1.V4? == from.addr.V4? && |s| + j < c.limit
    requires !Knows(s, nodes[j].0) && forall i :: 0 <= i < j ==> nodes[i].0 != nodes[j].0
    ensures Item(Some(nodes[j].0), nodes[j].1, from.depth + 1, false) in items
  {
    var lists, requests, picks :| ChosenBy(c, s, t, from, nodes, now, items, lists, requests, picks);
    StillNew(c, from, nodes, now, lists, requests, j, nodes[j].0);
    RoomMeansAsked(c, lists[j], lists[j + 1], nodes[j].0, nodes[j].1, from.depth, now, requests[j]);
    assert j in picks;
    var i :| 0 <= i < |picks| && picks[i] == j;
    assert items[i] in items;
  }

  /** And every item is such a node. */
  lemma ChosenWasNamed(c: Params, s: UsefulNodes, t: UsefulNodes, from: Item, nodes: seq<(Id, SocketAddr)>,
                       now: Instant, items: seq<Item>, x: Item) returns (j: nat)
    requires Chosen(c, s, t, from, nodes, now, items) && x in items
    ensures j < |nodes| && x == Item(Some(nodes[j].0), nodes[j].1, from.depth + 1, false)
    ensures nodes[j].1.V4? == from.addr.V4? && from.depth < c.maxDepth
  {
    var lists, requests, picks :| ChosenBy(c, s, t, from, nodes, now, items, lists, requests, picks);
    var i :| 0 <= i < |items| && items[i] == x;
    j := picks[i];
    assert j in picks && requests[j];
    RequestedIsNear(c, from, nodes, now, lists, requests, j);
  }

  lemma RequestedIsNear(c: Params, from: Item, nodes: seq<(Id, SocketAddr)>, now: Instant,
                        lists: seq<UsefulNodes>, requests: seq<bool>, j: nat)
    requires Went(c, from, nodes, now, lists, requests) && j < |nodes| && requests[j]
    ensures nodes[j].1.V4? == from.addr.V4? && from.depth < c.maxDepth
  {
    assert lists[j + 1] == lists[j + 1];
  }

  /** The list after the first of a node's two requests: an answer marks the node. */
  function FirstAnswer(s: UsefulNodes, item: Item, answered: Option<bool>, now: Instant): UsefulNodes {
    if answered.Some? then MarkResponded(s, item.addr, now, answered.value) else s
  }

  /** The list after the second request, and the items its answer leads to. */
  function SecondAnswer(c: Params, s: UsefulNodes, item: Item, a: Answer, now: Instant): (UsefulNodes, seq<Item>) {
    if a.NoResponse? then (MarkFailed(s, item.addr), [])
    else if Good(a) then Choose(c, s, item, a.nodes, now)
    else (s, [])
  }

  /** The list with the first node of an address as given, or as it was if there is none. */
  ghost predicate NodeBecomes(s: UsefulNodes, t: UsefulNodes, addr: SocketAddr, answered: Option<Instant>,
                              errors: nat -> nat, peers: bool -> bool)
  {
    if exists i :: FirstAt(s, addr, i) then
      exists i :: FirstAt(s, addr, i)
                  && t == s[i := UsefulNode(s[i].id, addr, s[i].lastRequest,
                                            if answered.Some? then answered else s[i].lastResponse,
                                            errors(s[i].errorsInARow), peers(s[i].returnedPeers))]
    else t == s
  }

  /** The first answer marks its node: when it came, no errors, and whether there were peers. None marks nothing. */
  lemma FirstMarks(s: UsefulNodes, item: Item, answered: Option<bool>, now: Instant)
    ensures var t := FirstAnswer(s, item, answered, now);
            if answered.None? then t == s
            else NodeBecomes(s, t, item.addr, Some(now), _ => 0, _ => answered.value)
  {
    var i := IndexOfAddr(s, item.addr);
    if i < |s| { assert FirstAt(s, item.addr, i); }
  }

  /** If the second answer does not come, its node has one error more. */
  lemma FailureMarks(c: Params, s: UsefulNodes, item: Item, now: Instant)
    ensures NodeBecomes(s, SecondAnswer(c, s, item, NoResponse, now).0, item.addr, None, n => n + 1, p => p)
  {
    var i := IndexOfAddr(s, item.addr);
    if i < |s| { assert FirstAt(s, item.addr, i); }
  }

  /** A good answer's items are the nodes that it names and that are worth asking; no other answer leads to any. */
  lemma SecondIs(c: Params, s: UsefulNodes, item: Item, a: Answer, now: Instant)
    requires ListOk(c, s)
    ensures var (t, items) := SecondAnswer(c, s, item, a, now);
            if a.Response? && a.peers == 0 then Chosen(c, s, t, item, a.nodes, now, items) else items == []
  {
    if Good(a) { ChooseIs(c, s, item, a.nodes, now); }
  }

  lemma SecondKeeps(c: Params, s: UsefulNodes, item: Item, a: Answer, now: Instant)
    requires ListOk(c, s)
    ensures ListOk(c, SecondAnswer(c, s, item, a, now).0)
    ensures forall x :: x in SecondAnswer(c, s, item, a, now).1 ==> NextTo(c.maxDepth, x, item)
  {
    if Good(a) {
      ChooseKeeps(c, s, item, a.nodes, now);
    }
  }

  /** What a lookup with these parameters does with answers. */
  ghost function RulesOf(c: Params): Rules<UsefulNodes> {
    Rules([],
          (s: UsefulNodes, item: Item, a: Option<bool>, now: Instant) => FirstAnswer(s, item, a, now),
          (s: UsefulNodes, item: Item, a: Answer, now: Instant) => SecondAnswer(c, s, item, a, now),
          (s: UsefulNodes) => ListOk(c, s),
          c.maxDepth)
  }

  /** Answers keep the list in order, and lead to requests one level deeper only. */
  lemma RulesSane(c: Params)
    ensures Sane(RulesOf(c))
  {
    forall s: UsefulNodes, item, a, now | ListOk(c, s)
      ensures ListOk(c, SecondAnswer(c, s, item, a, now).0)
      ensures forall x :: x in SecondAnswer(c, s, item, a, now).1 ==> NextTo(c.maxDepth, x, item)
    {
      SecondKeeps(c, s, item, a, now);
    }
  }
}
