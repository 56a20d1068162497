/**
  The recursive lookup as the source runs it (crates/librtbit-dht/src/dht.rs): the request that
  owns the list of useful nodes, and the loop that asks nodes until nothing is left to do.
 */
module Lookup {
  import opened Ids
  import opened Net
  import opened Sorting
  import opened LookupRuns
  import opened UsefulLists

  const MAX_DEPTH: nat := 4
  const FIND_NODE_LIMIT: nat := 32

  class RecursiveRequest {
    const infoHash: Id
    const usefulNodesLimit: nat
    const maxDepth: nat
    var usefulNodes: UsefulNodes

    ghost function Made(): Params {
      Params(infoHash, usefulNodesLimit, maxDepth)
    }

    ghost predicate Valid()
      reads this
    {
      ListOk(Made(), usefulNodes)
    }

    constructor (infoHash: Id, usefulNodesLimit: nat, maxDepth: nat)
      ensures Valid() && usefulNodes == [] && Made() == Params(infoHash, usefulNodesLimit, maxDepth)
    {
      this.infoHash, this.usefulNodesLimit, this.maxDepth := infoHash, usefulNodesLimit, maxDepth;
      usefulNodes := [];
    }

    method FindId(id: Id) returns (i: nat)
      ensures i == IndexOfId(usefulNodes, id)
    {
      i := 0;
      while i < |usefulNodes| && usefulNodes[i].id != id
        invariant i <= |usefulNodes| && forall j :: 0 <= j < i ==> usefulNodes[j].id != id
      {
        i := i + 1;
      }
    }

    method FindAddr(addr: SocketAddr) returns (i: nat)
      ensures i == IndexOfAddr(usefulNodes, addr)
    {
      i := 0;
      while i < |usefulNodes| && usefulNodes[i].addr != addr
        invariant i <= |usefulNodes| && forall j :: 0 <= j < i ==> usefulNodes[j].addr != addr
      {
        i := i + 1;
      }
    }

    method ShouldRequestNode(id: Id, addr: SocketAddr, depth: nat, now: Instant) returns (request: bool)
      requires Valid()
      modifies this`usefulNodes
      ensures Valid() && (usefulNodes, request) == Consider(Made(), old(usefulNodes), (id, addr), depth, now)
      ensures depth < maxDepth && !Knows(old(usefulNodes), id) ==>
                Admitted(old(usefulNodes), usefulNodes, UsefulNode(id, addr, now, None, 0, false),
                         usefulNodesLimit, ByUsefulness(infoHash, now), request)
    {
      ConsiderKeeps(Made(), usefulNodes, (id, addr), depth, now);
      if depth >= maxDepth {
        return false;
      }
      var i := FindId(id);
      if i < |usefulNodes| {
        request := Since(now, usefulNodes[i].lastRequest) > REREQUEST_AFTER;
        if request {
          usefulNodes := usefulNodes[i := usefulNodes[i].(lastRequest := now)];
        }
        return;
      }
      AdmitIs(Made(), usefulNodes, UsefulNode(id, addr, now, None, 0, false), now);
      usefulNodes := Sort(usefulNodes + [UsefulNode(id, addr, now, None, 0, false)], ByUsefulness(infoHash, now));
      request := true;
      if |usefulNodes| > usefulNodesLimit {
        var popped := usefulNodes[|usefulNodes| - 1];
        usefulNodes := usefulNodes[..|usefulNodes| - 1];
        request := popped.id != id;
      }
    }

    method MarkNodeResponded(addr: SocketAddr, now: Instant, peers: bool)
      requires Valid()
      modifies this`usefulNodes
      ensures Valid() && usefulNodes == MarkResponded(old(usefulNodes), addr, now, peers)
      ensures forall i :: FirstAt(old(usefulNodes), addr, i) ==>
                var n := old(usefulNodes)[i];
                usefulNodes == old(usefulNodes)[i := UsefulNode(n.id, n.addr, n.lastRequest, Some(now), 0, peers)]
      ensures usefulNodes == old(usefulNodes) || exists i :: FirstAt(old(usefulNodes), addr, i)
    {
      var i := FindAddr(addr);
      if i < |usefulNodes| {
        assert FirstAt(usefulNodes, addr, i);
        usefulNodes := usefulNodes[i := usefulNodes[i].Responded(now, peers)];
      }
    }

    method MarkNodeError(addr: SocketAddr)
      requires Valid()
      modifies this`usefulNodes
      ensures Valid() && usefulNodes == MarkFailed(old(usefulNodes), addr)
      ensures forall i :: FirstAt(old(usefulNodes), addr, i) ==>
                var n := old(usefulNodes)[i];
                usefulNodes == old(usefulNodes)[i := UsefulNode(n.id, n.addr, n.lastRequest, n.lastResponse,
                                                                n.errorsInARow + 1, n.returnedPeers)]
      ensures usefulNodes == old(usefulNodes) || exists i :: FirstAt(old(usefulNodes), addr, i)
    {
      var i := FindAddr(addr);
      if i < |usefulNodes| {
        assert FirstAt(usefulNodes, addr, i);
        usefulNodes := usefulNodes[i := usefulNodes[i].Failed()];
      }
    }

    /** The nodes of a response that are worth asking next, one level deeper. */
    method NextItems(from: Item, nodes: seq<(Id, SocketAddr)>, now: Instant) returns (items: seq<Item>)
      requires Valid()
      modifies this`usefulNodes
      ensures Valid() && (usefulNodes, items) == Choose(Made(), old(usefulNodes), from, nodes, now)
      ensures Chosen(Made(), old(usefulNodes), usefulNodes, from, nodes, now, items)
    {
      items := [];
      for i := 0 to |nodes|
        invariant Valid() && (usefulNodes, items) == Choose(Made(), old(usefulNodes), from, nodes[..i], now)
      {
        assert nodes[..i + 1][..i] == nodes[..i];
        if nodes[i].1.V4? == from.addr.V4? {
          var request := ShouldRequestNode(nodes[i].0, nodes[i].1, from.depth, now);
          if request {
            items := items + [ItemFor(nodes[i], from.depth + 1)];
          }
        }
      }
      assert nodes[..|nodes|] == nodes;
      ChooseIs(Made(), old(usefulNodes), from, nodes, now);
    }

    /** The second of a node's two requests ends, and with it the work for the node. */
    method FinishRequest(item: Item, answer: Answer, now: Instant) returns (ok: bool, items: seq<Item>)
      requires Valid()
      modifies this`usefulNodes
      ensures Valid() && ok == Good(answer)
      ensures (usefulNodes, items) == SecondAnswer(Made(), old(usefulNodes), item, answer, now)
      ensures ok ==> Chosen(Made(), old(usefulNodes), usefulNodes, item, answer.nodes, now, items)
      ensures !ok ==> items == [] && (answer.NoResponse? || usefulNodes == old(usefulNodes))
    {
      ok, items := false, [];
      match answer {
        case NoResponse =>
          MarkNodeError(item.addr);
        case ErrorResponse =>
        case Response(peers, nodes) =>
          if peers == 0 {
            ok := true;
            items := NextItems(item, nodes, now);
          }
      }
    }
  }

  datatype LookupResult = Success | NoSuccessfulLookups(errors: nat)

  /**
    Looks up nodes from the given addresses. Queued items are started first; when none is queued
    some started request gets the first or the second of its answers. Which request that is, how
    it is answered and when is up to the world.
   */
  method FindNode(target: Id, addrs: seq<SocketAddr>, world: nat -> Round)
    returns (res: LookupResult, issued: seq<Item>, successes: nat, errors: nat)
    ensures var c := RulesOf(Params(target, 32, 4));
            exists n :: Over(c, addrs, After(c, addrs, world, n), issued, successes, errors)
    ensures res == if successes == 0 then NoSuccessfulLookups(errors) else Success
  {
    var req := new RecursiveRequest(target, FIND_NODE_LIMIT, MAX_DEPTH);
    var futs: seq<Item> := [];
    for i := 0 to |addrs|
      invariant futs == Initial(addrs)[..i]
    {
      futs := futs + [Item(None, addrs[i], 0, false)];
    }
    AtStart(RulesOf(req.Made()), addrs, world);
    issued, successes, errors := AskUntilIdle(req, futs, world, addrs);
    res := if successes == 0 then NoSuccessfulLookups(errors) else Success;
  }

  /** The loop: it ends, as every run does, and only when nothing is queued or in progress. */
  method AskUntilIdle(req: RecursiveRequest, initial: seq<Item>, world: nat -> Round, ghost addrs: seq<SocketAddr>)
    returns (issued: seq<Item>, successes: nat, errors: nat)
    requires req.Valid() && At(RulesOf(req.Made()), addrs, world, 0, [], initial, req.usefulNodes, initial, 0, 0)
    modifies req`usefulNodes
    ensures var c := RulesOf(req.Made());
            exists n :: Over(c, addrs, After(c, addrs, world, n), issued, successes, errors)
  {
    ghost var c := RulesOf(req.Made());
    RulesSane(req.Made());
    ghost var last := Terminates(c, addrs, world);
    var queue: seq<Item>, futs, round := [], initial, 0;
    issued, successes, errors := initial, 0, 0;
    while queue != [] || futs != []
      invariant round <= last && req.Valid()
      invariant At(c, addrs, world, round, queue, futs, req.usefulNodes, issued, successes, errors)
      decreases last - round
    {
      AtBusy(c, addrs, world, round, queue, futs, req.usefulNodes, issued, successes, errors, last);
      round := round + 1;
      if queue != [] {
        AtNext(c, addrs, world, round - 1, queue, futs, req.usefulNodes, issued, successes, errors);
        queue, futs, issued := queue[1..], futs + [queue[0]], issued + [queue[0]];
      } else {
        queue, futs, successes, errors :=
          ReceiveAnswer(req, futs, world, round, addrs, issued, successes, errors);
      }
    }
    AtEnd(c, addrs, world, round, req.usefulNodes, issued, successes, errors);
  }

  /** Some request gets its next answer; after the second one it has succeeded or failed. */
  method ReceiveAnswer(req: RecursiveRequest, futs: seq<Item>, world: nat -> Round, round: nat,
                       ghost addrs: seq<SocketAddr>, ghost issued: seq<Item>, good: nat, bad: nat)
    returns (queue: seq<Item>, futs': seq<Item>, good': nat, bad': nat)
    requires req.Valid() && futs != [] && round > 0
    requires At(RulesOf(req.Made()), addrs, world, round - 1, [], futs, req.usefulNodes, issued, good, bad)
    modifies req`usefulNodes
    ensures req.Valid()
    ensures At(RulesOf(req.Made()), addrs, world, round, queue, futs', req.usefulNodes, issued, good', bad')
  {
    var w := world(round);
    var i := w.pick % |futs|;
    var item := futs[i];
    if !item.answered {
      AtFirst(RulesOf(req.Made()), addrs, world, round - 1, futs, req.usefulNodes, issued, good, bad, i);
      if w.exchange.first.Some? {
        req.MarkNodeResponded(item.addr, w.now, w.exchange.first.value);
      }
      queue, futs', good', bad' := [], futs[i := item.(answered := true)], good, bad;
    } else {
      AtSecond(RulesOf(req.Made()), addrs, world, round - 1, futs, req.usefulNodes, issued, good, bad, i);
      var ok;
      ok, queue := req.FinishRequest(item, w.exchange.second, w.now);
      futs' := futs[..i] + futs[i + 1..];
      good', bad' := if ok then good + 1 else good, if ok then bad else bad + 1;
    }
  }
}
