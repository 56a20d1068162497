/**
  What a lookup asks in the end (crates/librtbit-dht/src/dht.rs): the addresses it starts with and
  nodes that answers name, and among these every new one there is room for.
 */
module LookupAnswers {
  import opened Ids
  import opened Net
  import opened LookupRuns
  import opened UsefulLists

  /** In round k of a lookup, item has its second request answered with a, at time now, and s is the list then. */
  ghost predicate AnswerIn(c: Params, addrs: seq<SocketAddr>, world: nat -> Round, k: nat,
                           item: Item, a: Answer, now: Instant, s: UsefulNodes)
  {
    var st, w := After(RulesOf(c), addrs, world, k), world(k + 1);
    && Answering(st, w) && item == st.futs[Picked(st, w)] && s == st.useful
    && a == w.exchange.second && now == w.now
  }

  /** The items that an answer in some round leads to. */
  lemma AnswerLeadsTo(c: Params, addrs: seq<SocketAddr>, world: nat -> Round, k: nat,
                      item: Item, a: Answer, now: Instant, s: UsefulNodes)
    requires AnswerIn(c, addrs, world, k, item, a, now, s)
    ensures var items := FinishedIn(RulesOf(c), After(RulesOf(c), addrs, world, k), world(k + 1)).items;
            && items == SecondAnswer(c, s, item, a, now).1
            && if Good(a) then exists t :: Chosen(c, s, t, item, a.nodes, now, items) else items == []
  {
    RulesSane(c);
    RunKeeps(RulesOf(c), addrs, world, k);
    SecondIs(c, s, item, a, now);
  }

  /** Every request issued is an initial one, or to a node that a good answer named, one level deeper. */
  lemma AskedWereNamed(c: Params, addrs: seq<SocketAddr>, world: nat -> Round, n: nat, issued: seq<Item>,
                       good: nat, bad: nat, x: Item)
    requires Over(RulesOf(c), addrs, After(RulesOf(c), addrs, world, n), issued, good, bad) && x in issued
    ensures x in Initial(addrs) || NamedIn(c, addrs, world, n, x)
  {
    var done := After(RulesOf(c), addrs, world, n).done;
    if x !in Initial(addrs) {
      InConsequences(done, x);
      var m :| 0 <= m < |done| && x in done[m].items;
      var k := DoneOrigin(RulesOf(c), addrs, world, n, m);
      NamedAt(c, addrs, world, k, x);
    }
  }

  /** Some answer before round n named the node of an item, of the asker's address family and not too deep. */
  ghost predicate NamedIn(c: Params, addrs: seq<SocketAddr>, world: nat -> Round, n: nat, x: Item) {
    exists k, item, a, now, s, j ::
      && 0 <= k < n && AnswerIn(c, addrs, world, k, item, a, now, s)
      && Names(c, item, a, j, x)
  }

  ghost predicate Names(c: Params, item: Item, a: Answer, j: int, x: Item) {
    && Good(a) && 0 <= j < |a.nodes| && item.depth < c.maxDepth && a.nodes[j].1.V4? == item.addr.V4?
    && x == Item(Some(a.nodes[j].0), a.nodes[j].1, item.depth + 1, false)
  }

  lemma NamedAt(c: Params, addrs: seq<SocketAddr>, world: nat -> Round, k: nat, x: Item)
    requires Answering(After(RulesOf(c), addrs, world, k), world(k + 1))
    requires x in FinishedIn(RulesOf(c), After(RulesOf(c), addrs, world, k), world(k + 1)).items
    ensures NamedIn(c, addrs, world, k + 1, x)
  {
    var st, w := After(RulesOf(c), addrs, world, k), world(k + 1);
    var item, a, now, s := st.futs[Picked(st, w)], w.exchange.second, w.now, st.useful;
    var items := FinishedIn(RulesOf(c), st, w).items;
    assert AnswerIn(c, addrs, world, k, item, a, now, s);
    AnswerLeadsTo(c, addrs, world, k, item, a, now, s);
    var t :| Chosen(c, s, t, item, a.nodes, now, items);
    var j := ChosenWasNamed(c, s, t, item, a.nodes, now, items, x);
    assert Names(c, item, a, j, x);
  }

  /**
    And every node that a good answer names is asked, if it is of the asker's address family and not
    too deep, its id is neither known by then nor named earlier in that answer, and there is room.
   */
  lemma NewNodesAreAsked(c: Params, addrs: seq<SocketAddr>, world: nat -> Round, n: nat, issued: seq<Item>,
                         good: nat, bad: nat, k: nat, item: Item, a: Answer, now: Instant, s: UsefulNodes, j: nat,
                         x: Item)
    requires Over(RulesOf(c), addrs, After(RulesOf(c), addrs, world, n), issued, good, bad)
    requires k < n && AnswerIn(c, addrs, world, k, item, a, now, s) && Names(c, item, a, j, x)
    requires !Knows(s, a.nodes[j].0) && (forall i :: 0 <= i < j ==> a.nodes[i].0 != a.nodes[j].0)
    requires |s| + j < c.limit
    ensures x in issued
  {
    var done, d := After(RulesOf(c), addrs, world, n).done,
                   FinishedIn(RulesOf(c), After(RulesOf(c), addrs, world, k), world(k + 1));
    AnswerLeadsTo(c, addrs, world, k, item, a, now, s);
    var t :| Chosen(c, s, t, item, a.nodes, now, d.items);
    NewNodeChosen(c, s, t, item, a.nodes, now, d.items, j);
    DoneStays(RulesOf(c), addrs, world, k, n);
    var m :| 0 <= m < |done| && done[m] == d;
    InConsequences(done, x);
  }
}
