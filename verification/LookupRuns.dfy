/**
  A lookup as a run of rounds (crates/librtbit-dht/src/dht.rs), whatever the list of nodes it keeps
  and whatever the world does: what every run keeps, and why every run ends.
 */
module LookupRuns {
  import opened Ids
  import opened Net
  import opened Sorting
  import opened Descents

  /** A request to a node; answered says that the first of its two requests has ended. */
  datatype Item = Item(id: Option<Id>, addr: SocketAddr, depth: nat, answered: bool)

  datatype Answer = NoResponse | ErrorResponse | Response(peers: nat, nodes: seq<(Id, SocketAddr)>)

  /** What the network does next: whether and how a first request is answered, and how a second one is. */
  datatype Exchange = Exchange(first: Option<bool>, second: Answer)

  /** Peers in an answer have no receiver in a node lookup and make the request fail. */
  predicate Good(a: Answer) {
    a.Response? && a.peers == 0
  }

  /** An item that an answer to another one led to. */
  ghost predicate NextTo(maxDepth: nat, x: Item, from: Item) {
    x.depth == from.depth + 1 <= maxDepth && x.addr.V4? == from.addr.V4? && x.id.Some? && !x.answered
  }

  /**
    What a lookup does with answers: the list of nodes it starts with and what becomes of it, and
    which items the second answer to a request leads to. A list in order is one that is ok.
   */
  datatype Rules<!L> = Rules(
    start: L,
    first: (L, Item, Option<bool>, Instant) -> L,
    second: (L, Item, Answer, Instant) -> (L, seq<Item>),
    ok: L -> bool,
    maxDepth: nat)

  /** Answers keep the list in order, and lead to requests one level deeper only. */
  ghost predicate Sane<L(!new)>(c: Rules<L>) {
    && c.ok(c.start)
    && (forall s, item, a, now :: c.ok(s) ==> c.ok(c.first(s, item, a, now)))
    && (forall s, item, a, now :: c.ok(s) ==> c.ok(c.second(s, item, a, now).0))
    && (forall s, item, a, now, x ::
          c.ok(s) && x in c.second(s, item, a, now).1 ==> NextTo(c.maxDepth, x, item))
  }

  // ---------- Rounds ----------

  /** What the world does in a round: how a request would be answered, which one is, and when. */
  datatype Round = Round(exchange: Exchange, pick: nat, now: Instant)

  /** A finished request: how it was answered, when, and the items that led to. */
  datatype Done = Done(item: Item, answer: Answer, now: Instant, items: seq<Item>)

  /** Where the loop stands, and what was issued and finished to get there. */
  datatype State<L> = State(queue: seq<Item>, futs: seq<Item>, useful: L, issued: seq<Item>, done: seq<Done>)

  predicate Idle<L>(s: State<L>) {
    s.queue == [] && s.futs == []
  }

  function Initial(addrs: seq<SocketAddr>): seq<Item> {
    seq(|addrs|, i requires 0 <= i < |addrs| => Item(None, addrs[i], 0, false))
  }

  function Start<L>(c: Rules<L>, addrs: seq<SocketAddr>): State<L> {
    State([], Initial(addrs), c.start, Initial(addrs), [])
  }

  function Picked<L>(s: State<L>, w: Round): (i: nat)
    requires s.futs != []
    ensures i < |s.futs|
  {
    w.pick % |s.futs|
  }

  function StartNext<L>(s: State<L>): State<L>
    requires s.queue != []
  {
    State(s.queue[1..], s.futs + [s.queue[0]], s.useful, s.issued + [s.queue[0]], s.done)
  }

  function TakeFirst<L>(c: Rules<L>, s: State<L>, i: nat, w: Round): State<L>
    requires i < |s.futs|
  {
    var item := s.futs[i];
    s.(futs := s.futs[i := item.(answered := true)],
       useful := c.first(s.useful, item, w.exchange.first, w.now))
  }

  function TakeSecond<L>(c: Rules<L>, s: State<L>, i: nat, w: Round): State<L>
    requires i < |s.futs|
  {
    var item := s.futs[i];
    var (useful, items) := c.second(s.useful, item, w.exchange.second, w.now);
    State(items, s.futs[..i] + s.futs[i + 1..], useful, s.issued,
          s.done + [Done(item.(answered := false), w.exchange.second, w.now, items)])
  }

  /**
    One round of the loop: a queued item is started, or else the request the world picks gets the
    first or the second of its answers.
   */
  function Step<L>(c: Rules<L>, s: State<L>, w: Round): State<L>
    requires !Idle(s)
  {
    if s.queue != [] then StartNext(s)
    else
      var i := Picked(s, w);
      if !s.futs[i].answered then TakeFirst(c, s, i, w) else TakeSecond(c, s, i, w)
  }

  /** An idle lookup stays as it is. */
  function Advance<L>(c: Rules<L>, s: State<L>, w: Round): State<L> {
    if Idle(s) then s else Step(c, s, w)
  }

  function RoundOf<L>(c: Rules<L>, world: nat -> Round): (State<L>, nat) -> State<L> {
    (s: State<L>, k: nat) => Advance(c, s, world(k))
  }

  /** Where a lookup from the given addresses stands after n rounds. */
  ghost function After<L>(c: Rules<L>, addrs: seq<SocketAddr>, world: nat -> Round, n: nat): State<L> {
    Iterate(RoundOf(c, world), Start(c, addrs), 0, n)
  }

  // ---------- What every run keeps ----------

  /** All items the answers led to, in order. */
  ghost function Consequences(done: seq<Done>): seq<Item> {
    if done == [] then [] else Consequences(done[..|done| - 1]) + done[|done| - 1].items
  }

  function Items(done: seq<Done>): seq<Item> {
    seq(|done|, i requires 0 <= i < |done| => done[i].item)
  }

  /** The requests as they were issued. */
  function Unanswered(s: seq<Item>): seq<Item> {
    seq(|s|, i requires 0 <= i < |s| => s[i].(answered := false))
  }

  function Successes(done: seq<Done>): nat {
    if done == [] then 0 else Successes(done[..|done| - 1]) + if Good(done[|done| - 1].answer) then 1 else 0
  }

  /** A request at an allowed depth, to an address of the family of some initial one. */
  ghost predicate InFamily(maxDepth: nat, x: Item, addrs: seq<SocketAddr>) {
    x.depth <= maxDepth && exists a :: a in addrs && a.V4? == x.addr.V4?
  }

  ghost predicate AllInFamily(maxDepth: nat, s: seq<Item>, addrs: seq<SocketAddr>) {
    forall x :: x in s ==> InFamily(maxDepth, x, addrs)
  }

  /** What was issued or is queued is what was there at the start and what the answers led to. */
  ghost predicate Complete<L>(s: State<L>, addrs: seq<SocketAddr>) {
    s.issued + s.queue == Initial(addrs) + Consequences(s.done)
  }

  /** Each issued request is in progress or has finished, and no other has. */
  ghost predicate Accounted<L>(s: State<L>) {
    multiset(s.issued) == multiset(Items(s.done)) + multiset(Unanswered(s.futs))
  }

  ghost predicate Kept<L(!new)>(c: Rules<L>, addrs: seq<SocketAddr>, s: State<L>) {
    && Complete(s, addrs) && Accounted(s) && c.ok(s.useful)
    && AllInFamily(c.maxDepth, s.queue, addrs) && AllInFamily(c.maxDepth, s.futs, addrs)
    && AllInFamily(c.maxDepth, s.issued, addrs)
    && forall x :: x in s.queue ==> !x.answered
  }

  lemma StartKept<L(!new)>(c: Rules<L>, addrs: seq<SocketAddr>)
    requires Sane(c)
    ensures Kept(c, addrs, Start(c, addrs))
  {
    var s := Start(c, addrs);
    forall x | x in s.futs ensures InFamily(c.maxDepth, x, addrs) {
      var i :| 0 <= i < |addrs| && s.futs[i] == x;
      assert addrs[i] in addrs;
    }
    assert Unanswered(s.futs) == s.futs;
    assert s.issued + [] == s.issued + Consequences([]);
  }

  lemma StartNextKeeps<L(!new)>(c: Rules<L>, addrs: seq<SocketAddr>, s: State<L>)
    requires s.queue != [] && Kept(c, addrs, s)
    ensures Kept(c, addrs, StartNext(s))
  {
    var x := s.queue[0];
    assert x in s.queue;
    assert s.issued + [x] + s.queue[1..] == s.issued + s.queue;
    assert Unanswered(s.futs + [x]) == Unanswered(s.futs) + [x];
  }

  lemma TakeFirstKeeps<L(!new)>(c: Rules<L>, addrs: seq<SocketAddr>, s: State<L>, i: nat, w: Round)
    requires Sane(c) && i < |s.futs| && Kept(c, addrs, s)
    ensures Kept(c, addrs, TakeFirst(c, s, i, w))
  {
    var t := TakeFirst(c, s, i, w);
    assert Unanswered(t.futs) == Unanswered(s.futs);
    assert InFamily(c.maxDepth, s.futs[i], addrs);
  }

  lemma TakeSecondKeeps<L(!new)>(c: Rules<L>, addrs: seq<SocketAddr>, s: State<L>, i: nat, w: Round)
    requires Sane(c) && s.queue == [] && i < |s.futs| && Kept(c, addrs, s)
    ensures Kept(c, addrs, TakeSecond(c, s, i, w))
  {
    var t := TakeSecond(c, s, i, w);
    SecondFamily(c.maxDepth, addrs, s.futs, i, t.queue);
    MoreDone(s, addrs, t.done[|s.done|]);
    RemovedAccounted(s, i, t.done[|s.done|]);
  }

  lemma SecondFamily(maxDepth: nat, addrs: seq<SocketAddr>, futs: seq<Item>, i: nat, items: seq<Item>)
    requires i < |futs| && AllInFamily(maxDepth, futs, addrs) && forall x :: x in items ==> NextTo(maxDepth, x, futs[i])
    ensures AllInFamily(maxDepth, items, addrs) && AllInFamily(maxDepth, futs[..i] + futs[i + 1..], addrs)
    ensures forall x :: x in items ==> !x.answered
  {
    assert InFamily(maxDepth, futs[i], addrs);
  }

  lemma MoreDone<L>(s: State<L>, addrs: seq<SocketAddr>, f: Done)
    requires s.queue == [] && Complete(s, addrs)
    ensures s.issued + f.items == Initial(addrs) + Consequences(s.done + [f])
  {
    assert (s.done + [f])[..|s.done|] == s.done;
    assert s.issued + [] == s.issued;
    assert Initial(addrs) + Consequences(s.done) + f.items == Initial(addrs) + (Consequences(s.done) + f.items);
  }

  lemma RemovedAccounted<L>(s: State<L>, i: nat, f: Done)
    requires i < |s.futs| && f.item == s.futs[i].(answered := false)
    ensures multiset(Items(s.done + [f])) + multiset(Unanswered(s.futs[..i] + s.futs[i + 1..]))
            == multiset(Items(s.done)) + multiset(Unanswered(s.futs))
  {
    var u := Unanswered(s.futs);
    assert Items(s.done + [f]) == Items(s.done) + [f.item];
    assert Unanswered(s.futs[..i] + s.futs[i + 1..]) == u[..i] + u[i + 1..];
    assert u == u[..i] + [u[i]] + u[i + 1..];
  }

  /** After any number of rounds, whatever the world does. */
  lemma {:induction false} RunKeeps<L(!new)>(c: Rules<L>, addrs: seq<SocketAddr>, world: nat -> Round, n: nat)
    requires Sane(c)
    ensures Kept(c, addrs, After(c, addrs, world, n))
  {
    if n == 0 {
      StartKept(c, addrs);
    } else {
      var t := After(c, addrs, world, n - 1);
      assert After(c, addrs, world, n) == Advance(c, t, world(n));
      RunKeeps(c, addrs, world, n - 1);
      if !Idle(t) {
        StepKeeps(c, addrs, t, world(n));
      }
    }
  }

  lemma StepKeeps<L(!new)>(c: Rules<L>, addrs: seq<SocketAddr>, s: State<L>, w: Round)
    requires Sane(c) && !Idle(s) && Kept(c, addrs, s)
    ensures Kept(c, addrs, Step(c, s, w))
  {
    if s.queue != [] {
      StartNextKeeps(c, addrs, s);
    } else {
      var i := Picked(s, w);
      if !s.futs[i].answered {
        TakeFirstKeeps(c, addrs, s, i, w);
      } else {
        TakeSecondKeeps(c, addrs, s, i, w);
      }
    }
  }

  /** When a run is idle, every request issued has finished, and what was issued is what the answers led to. */
  lemma IdleAccounts<L(!new)>(c: Rules<L>, addrs: seq<SocketAddr>, s: State<L>)
    requires Kept(c, addrs, s) && Idle(s)
    ensures s.issued == Initial(addrs) + Consequences(s.done)
    ensures multiset(s.issued) == multiset(Items(s.done)) && |s.issued| == |s.done|
  {
    assert s.issued + [] == s.issued;
    assert Unanswered([]) == [];
    SameElements(s.issued, Items(s.done));
  }

  // ---------- Every run ends ----------

  /** How many answers a request at some depth is still waiting for. */
  function Cost(x: Item, depth: nat): nat {
    if x.depth != depth then 0 else if x.answered then 1 else 2
  }

  ghost function Count(s: seq<Item>, depth: nat): nat {
    if s == [] then 0 else Count(s[..|s| - 1], depth) + Cost(s[|s| - 1], depth)
  }

  lemma {:induction false} CountAppend(s: seq<Item>, t: seq<Item>, depth: nat)
    ensures Count(s + t, depth) == Count(s, depth) + Count(t, depth)
  {
    if t == [] {
      assert s + t == s;
    } else {
      CountAppend(s, t[..|t| - 1], depth);
      assert (s + t)[..|s + t| - 1] == s + t[..|t| - 1];
    }
  }

  lemma CountOne(x: Item, depth: nat)
    ensures Count([x], depth) == Cost(x, depth)
  {
    assert [x][..0] == [];
  }

  lemma CountMiddle(pre: seq<Item>, x: Item, post: seq<Item>, depth: nat)
    ensures Count(pre + [x] + post, depth) == Count(pre, depth) + Cost(x, depth) + Count(post, depth)
  {
    CountAppend(pre + [x], post, depth);
    CountAppend(pre, [x], depth);
    CountOne(x, depth);
  }

  lemma {:induction false} CountNone(s: seq<Item>, depth: nat)
    requires forall x :: x in s ==> x.depth != depth
    ensures Count(s, depth) == 0
  {
    if s != [] { CountNone(s[..|s| - 1], depth); }
  }

  /** The answers still to come at a depth, for items queued and in progress. */
  ghost function Load<L>(s: State<L>, depth: nat): nat {
    Count(s.queue, depth) + Count(s.futs, depth)
  }

  /** Starting a queued item leaves the load alone. */
  lemma StartLoad<L>(s: State<L>, depth: nat)
    requires s.queue != []
    ensures Load(StartNext(s), depth) == Load(s, depth)
  {
    assert s.queue == [s.queue[0]] + s.queue[1..];
    CountAppend([s.queue[0]], s.queue[1..], depth);
    CountAppend(s.futs, [s.queue[0]], depth);
  }

  /** An answer lowers the load at its request's depth and leaves it alone above. */
  lemma AnswerLoad<L(!new)>(c: Rules<L>, s: State<L>, w: Round, depth: nat)
    requires Sane(c) && s.queue == [] && s.futs != [] && c.ok(s.useful)
    ensures var at := s.futs[Picked(s, w)].depth;
            && (depth < at ==> Load(Step(c, s, w), depth) == Load(s, depth))
            && (depth == at ==> Load(Step(c, s, w), depth) < Load(s, depth))
  {
    var i := Picked(s, w);
    var item, pre, post, t := s.futs[i], s.futs[..i], s.futs[i + 1..], Step(c, s, w);
    assert s.futs == pre + [item] + post;
    CountMiddle(pre, item, post, depth);
    if !item.answered {
      assert t.futs == pre + [item.(answered := true)] + post;
      CountMiddle(pre, item.(answered := true), post, depth);
    } else {
      CountAppend(pre, post, depth);
      if depth <= item.depth { CountNone(t.queue, depth); }
    }
  }

  /** A state a run can be in, as far as its end is concerned. */
  ghost predicate Bounded<L(!new)>(c: Rules<L>, s: State<L>) {
    && c.ok(s.useful)
    && (forall x :: x in s.queue ==> x.depth <= c.maxDepth)
    && (forall x :: x in s.futs ==> x.depth <= c.maxDepth)
  }

  lemma StepBounded<L(!new)>(c: Rules<L>, s: State<L>, w: Round)
    requires Sane(c) && !Idle(s) && Bounded(c, s)
    ensures Bounded(c, Step(c, s, w))
  {
    if s.queue == [] {
      var i := Picked(s, w);
    }
  }

  /** The depth a round works at; starting a queued item counts as deeper than any answer. */
  ghost function Level<L>(c: Rules<L>, s: State<L>, w: Round): nat {
    if s.queue == [] && s.futs != [] then s.futs[Picked(s, w)].depth else c.maxDepth + 1
  }

  ghost function LoadAt<L>(c: Rules<L>, s: State<L>, level: nat): nat {
    if level == c.maxDepth + 1 then |s.queue| else Load(s, level)
  }

  ghost function DescentOf<L(!new)>(c: Rules<L>, world: nat -> Round): Descent<State<L>> {
    Descent(RoundOf(c, world), (s: State<L>) => Bounded(c, s), (s: State<L>) => Idle(s),
            (s: State<L>, k: nat) => Level(c, s, world(k)), (s: State<L>, l: nat) => LoadAt(c, s, l), c.maxDepth + 1)
  }

  /** A round lowers the load at its depth and leaves it alone above. */
  lemma RoundLowers<L(!new)>(c: Rules<L>, s: State<L>, w: Round)
    requires Sane(c) && Bounded(c, s) && !Idle(s)
    ensures var t, at := Step(c, s, w), Level(c, s, w);
            && Bounded(c, t) && at <= c.maxDepth + 1 && LoadAt(c, t, at) < LoadAt(c, s, at)
            && forall l :: 0 <= l < at ==> LoadAt(c, t, l) == LoadAt(c, s, l)
  {
    var t, at := Step(c, s, w), Level(c, s, w);
    StepBounded(c, s, w);
    if s.queue != [] {
      forall l | 0 <= l < at ensures LoadAt(c, t, l) == LoadAt(c, s, l) { StartLoad(s, l); }
    } else {
      assert s.futs[Picked(s, w)] in s.futs;
      forall l | 0 <= l < at ensures LoadAt(c, t, l) == LoadAt(c, s, l) { AnswerLoad(c, s, w, l); }
      AnswerLoad(c, s, w, at);
    }
  }

  lemma LookupDescends<L(!new)>(c: Rules<L>, world: nat -> Round)
    requires Sane(c)
    ensures Descends(DescentOf(c, world))
  {
    var d := DescentOf(c, world);
    forall s: State<L>, k: nat | d.inv(s) && !d.done(s) ensures Lowers(d, s, k) {
      RoundLowers(c, s, world(k));
    }
  }

  /** Whatever the world does and however deep a lookup may go, it comes to an end. */
  lemma Terminates<L(!new)>(c: Rules<L>, addrs: seq<SocketAddr>, world: nat -> Round) returns (n: nat)
    requires Sane(c)
    ensures Idle(After(c, addrs, world, n))
  {
    var d := DescentOf(c, world);
    StartKept(c, addrs);
    LookupDescends(c, world);
    n := Ends(d, Start(c, addrs), 0);
  }

  // ---------- Where finished requests come from ----------

  /** In this round some request gets the second of its answers. */
  predicate Answering<L>(s: State<L>, w: Round) {
    s.queue == [] && s.futs != [] && s.futs[Picked(s, w)].answered
  }

  /** The request that does, as it finishes. */
  function FinishedIn<L>(c: Rules<L>, s: State<L>, w: Round): Done
    requires Answering(s, w)
  {
    var item := s.futs[Picked(s, w)];
    Done(item.(answered := false), w.exchange.second, w.now, c.second(s.useful, item, w.exchange.second, w.now).1)
  }

  lemma RoundDone<L(!new)>(c: Rules<L>, addrs: seq<SocketAddr>, world: nat -> Round, n: nat)
    ensures var s, w := After(c, addrs, world, n), world(n + 1);
            After(c, addrs, world, n + 1).done == s.done + if Answering(s, w) then [FinishedIn(c, s, w)] else []
  {
    var s, w := After(c, addrs, world, n), world(n + 1);
    assert After(c, addrs, world, n + 1) == Advance(c, s, w);
  }

  /** Every finished request finished in some round, and as that round's answer had it. */
  lemma {:induction false} DoneOrigin<L(!new)>(c: Rules<L>, addrs: seq<SocketAddr>, world: nat -> Round, n: nat, m: nat)
    returns (k: nat)
    requires m < |After(c, addrs, world, n).done|
    ensures k < n && Answering(After(c, addrs, world, k), world(k + 1))
    ensures After(c, addrs, world, n).done[m] == FinishedIn(c, After(c, addrs, world, k), world(k + 1))
  {
    RoundDone(c, addrs, world, n - 1);
    if m < |After(c, addrs, world, n - 1).done| {
      k := DoneOrigin(c, addrs, world, n - 1, m);
    } else {
      k := n - 1;
    }
  }

  /** And what finished in some round stays finished. */
  lemma {:induction false} DoneStays<L(!new)>(c: Rules<L>, addrs: seq<SocketAddr>, world: nat -> Round, k: nat, n: nat)
    requires k < n && Answering(After(c, addrs, world, k), world(k + 1))
    ensures FinishedIn(c, After(c, addrs, world, k), world(k + 1)) in After(c, addrs, world, n).done
  {
    RoundDone(c, addrs, world, n - 1);
    if k < n - 1 {
      DoneStays(c, addrs, world, k, n - 1);
    } else {
      var done := After(c, addrs, world, n).done;
      assert done[|done| - 1] in done;
    }
  }

  lemma {:induction false} InConsequences(done: seq<Done>, x: Item)
    ensures x in Consequences(done) <==> exists m :: 0 <= m < |done| && x in done[m].items
  {
    if done != [] {
      var n := |done| - 1;
      InConsequences(done[..n], x);
      if m :| 0 <= m < |done| && x in done[m].items {
        if m < n { assert x in done[..n][m].items; }
      }
      if m :| 0 <= m < n && x in done[..n][m].items {
        assert x in done[m].items;
      }
    }
  }

  // ---------- What a loop over rounds is at ----------

  /** After n rounds from the start this is what is queued, in progress, known, issued, and how it went. */
  ghost predicate At<L(!new)>(c: Rules<L>, addrs: seq<SocketAddr>, world: nat -> Round, n: nat, queue: seq<Item>,
                              futs: seq<Item>, useful: L, issued: seq<Item>, good: nat, bad: nat)
  {
    exists s :: StateAt(c, addrs, world, n, s) && s.queue == queue && s.futs == futs && s.useful == useful
                && s.issued == issued && Successes(s.done) == good && |s.done| == good + bad
  }

  ghost predicate StateAt<L(!new)>(c: Rules<L>, addrs: seq<SocketAddr>, world: nat -> Round, n: nat, s: State<L>) {
    Reaches(RoundOf(c, world), Start(c, addrs), 0, n, s)
  }

  lemma AtStart<L(!new)>(c: Rules<L>, addrs: seq<SocketAddr>, world: nat -> Round)
    ensures At(c, addrs, world, 0, [], Initial(addrs), c.start, Initial(addrs), 0, 0)
  {
    assert StateAt(c, addrs, world, 0, Start(c, addrs));
  }

  lemma AtNext<L(!new)>(c: Rules<L>, addrs: seq<SocketAddr>, world: nat -> Round, n: nat, queue: seq<Item>,
                        futs: seq<Item>, useful: L, issued: seq<Item>, good: nat, bad: nat)
    requires At(c, addrs, world, n, queue, futs, useful, issued, good, bad) && queue != []
    ensures At(c, addrs, world, n + 1, queue[1..], futs + [queue[0]], useful, issued + [queue[0]], good, bad)
  {
    var s :| StateAt(c, addrs, world, n, s) && s.queue == queue && s.futs == futs && s.useful == useful
             && s.issued == issued && Successes(s.done) == good && |s.done| == good + bad;
    ReachesNext(RoundOf(c, world), Start(c, addrs), 0, n, s, n + 1);
    assert StateAt(c, addrs, world, n + 1, StartNext(s));
  }

  lemma AtFirst<L(!new)>(c: Rules<L>, addrs: seq<SocketAddr>, world: nat -> Round, n: nat, futs: seq<Item>,
                         useful: L, issued: seq<Item>, good: nat, bad: nat, i: nat)
    requires At(c, addrs, world, n, [], futs, useful, issued, good, bad)
    requires futs != [] && i == world(n + 1).pick % |futs| && !futs[i].answered
    ensures At(c, addrs, world, n + 1, [], futs[i := futs[i].(answered := true)],
               c.first(useful, futs[i], world(n + 1).exchange.first, world(n + 1).now), issued, good, bad)
  {
    var s :| StateAt(c, addrs, world, n, s) && s.queue == [] && s.futs == futs && s.useful == useful
             && s.issued == issued && Successes(s.done) == good && |s.done| == good + bad;
    ReachesNext(RoundOf(c, world), Start(c, addrs), 0, n, s, n + 1);
    assert StateAt(c, addrs, world, n + 1, TakeFirst(c, s, i, world(n + 1)));
  }

  lemma AtSecond<L(!new)>(c: Rules<L>, addrs: seq<SocketAddr>, world: nat -> Round, n: nat, futs: seq<Item>,
                                   useful: L, issued: seq<Item>, good: nat, bad: nat, i: nat)
    requires At(c, addrs, world, n, [], futs, useful, issued, good, bad)
    requires futs != [] && i == world(n + 1).pick % |futs| && futs[i].answered
    ensures var w := world(n + 1);
            var (useful', items) := c.second(useful, futs[i], w.exchange.second, w.now);
            At(c, addrs, world, n + 1, items, futs[..i] + futs[i + 1..], useful', issued,
               if Good(w.exchange.second) then good + 1 else good, if Good(w.exchange.second) then bad else bad + 1)
  {
    var s :| StateAt(c, addrs, world, n, s) && s.queue == [] && s.futs == futs && s.useful == useful
             && s.issued == issued && Successes(s.done) == good && |s.done| == good + bad;
    var t := TakeSecond(c, s, i, world(n + 1));
    ReachesNext(RoundOf(c, world), Start(c, addrs), 0, n, s, n + 1);
    assert t.done[..|s.done|] == s.done;
    assert StateAt(c, addrs, world, n + 1, t);
  }

  /** A loop that is not idle has rounds to go. */
  lemma AtBusy<L(!new)>(c: Rules<L>, addrs: seq<SocketAddr>, world: nat -> Round, n: nat, queue: seq<Item>,
                        futs: seq<Item>, useful: L, issued: seq<Item>, good: nat, bad: nat, last: nat)
    requires At(c, addrs, world, n, queue, futs, useful, issued, good, bad) && (queue != [] || futs != [])
    requires Idle(After(c, addrs, world, last))
    ensures n != last
  {
  }

  /**
    The run of a lookup is over: everything issued has finished, each request once; what was
    issued are the initial requests and the consequences of the answers; and so it went.
   */
  ghost predicate Over<L(!new)>(c: Rules<L>, addrs: seq<SocketAddr>, s: State<L>, issued: seq<Item>,
                                good: nat, bad: nat)
  {
    && Idle(s) && Kept(c, addrs, s)
    && issued == s.issued == Initial(addrs) + Consequences(s.done)
    && multiset(issued) == multiset(Items(s.done))
    && Successes(s.done) == good && good + bad == |s.done| == |issued|
  }

  lemma AtEnd<L(!new)>(c: Rules<L>, addrs: seq<SocketAddr>, world: nat -> Round, n: nat,
                       useful: L, issued: seq<Item>, good: nat, bad: nat)
    requires Sane(c) && At(c, addrs, world, n, [], [], useful, issued, good, bad)
    ensures Over(c, addrs, After(c, addrs, world, n), issued, good, bad)
  {
    var s := After(c, addrs, world, n);
    RunKeeps(c, addrs, world, n);
    IdleAccounts(c, addrs, s);
  }
}
