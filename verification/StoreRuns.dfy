/**
  Runs of the peer store (crates/librtbit-dht/src/peer_store.rs): queries that are given tokens,
  announces, lookups and garbage collections in any order, at any times.
 */
module StoreRuns {
  import opened Net
  import opened Octets
  import opened Ids
  import opened PeerLists
  import opened PeerStores

  /** What can happen to a store. */
  datatype Op =
    | Query(nodeId: Id, addr: SocketAddr, token: Bytes, now: int)
    | Announce(announce: AnnouncePeer, addr: SocketAddr, now: int)
    | Get(hash: Id, want: Want)
    | Collect(now: int)

  datatype OpResult = Done | Stored(stored: bool) | Found(addrs: seq<SocketAddr>)

  const NEW_STORE: Contents := Contents([], map[], 0)

  /** The last tokens, as many as are remembered. */
  function Remembered(s: seq<StoredToken>, max: nat): seq<StoredToken> {
    s[if |s| > max then 1 else 0..]
  }

  /** An operation takes a store's contents c to c', with this result. */
  ghost predicate Applied(l: Limits, c: Contents, c': Contents, op: Op, res: OpResult) {
    && c'.peersLen == Total(c'.peers) <= l.maxPeers
    && match op
       case Query(nodeId, addr, token, now) =>
         && res == Done && c'.peers == c.peers
         && c'.tokens == Remembered(c.tokens + [StoredToken(token, nodeId, addr, now)], l.maxTokens)
       case Announce(a, addr, now) =>
         && res == Stored(Accepts(l, c, a, addr)) && c'.tokens == c.tokens
         && if res.stored then Adds(c.peers, c'.peers, a.infoHash, Announced(a, addr), now) else c'.peers == c.peers
       case Get(hash, want) =>
         c' == c && res == Found(if hash in c.peers then WantedAddrs(c.peers[hash], want) else [])
       case Collect(now) => res == Done && Cleans(c, c', now)
  }

  method Apply(s: PeerStore, op: Op) returns (res: OpResult)
    requires s.Valid()
    modifies s
    ensures s.Valid() && Applied(s.Bounds(), old(s.Snapshot()), s.Snapshot(), op, res)
    ensures s.issued == old(s.issued) + if op.Query? then {IpOf(op.addr)} else {}
  {
    res := Done;
    match op {
      case Query(nodeId, addr, token, now) => s.GenTokenFor(nodeId, addr, token, now);
      case Announce(announce, addr, now) => res := TakeAnnounce(s, announce, addr, now);
      case Get(hash, want) => var addrs := s.GetForInfoHash(hash, want); res := Found(addrs);
      case Collect(now) => CollectIn(s, now);
    }
  }

  method TakeAnnounce(s: PeerStore, a: AnnouncePeer, addr: SocketAddr, now: int) returns (res: OpResult)
    requires s.Valid()
    modifies s`peers, s`peersLen
    ensures s.Valid() && Applied(s.Bounds(), old(s.Snapshot()), s.Snapshot(), Announce(a, addr, now), res)
  {
    var stored := s.StorePeer(a, addr, now);
    res := Stored(stored);
  }

  method CollectIn(s: PeerStore, now: int)
    requires s.Valid()
    modifies s`tokens, s`peers, s`peersLen
    ensures s.Valid() && Applied(s.Bounds(), old(s.Snapshot()), s.Snapshot(), Collect(now), Done)
  {
    s.GarbageCollectPeers(now);
  }

  /** The contents during a run: each operation takes one to the next, with its result. */
  ghost predicate Ran(l: Limits, states: seq<Contents>, ops: seq<Op>, results: seq<OpResult>) {
    && |states| == |ops| + 1 == |results| + 1 && states[0] == NEW_STORE
    && forall i :: 0 <= i < |ops| ==> Applied(l, states[i], states[i + 1], ops[i], results[i])
  }

  lemma RanOn(l: Limits, states: seq<Contents>, c: Contents, ops: seq<Op>, n: nat,
              results: seq<OpResult>, res: OpResult)
    requires n < |ops| && Ran(l, states, ops[..n], results) && Applied(l, states[n], c, ops[n], res)
    ensures Ran(l, states + [c], ops[..n + 1], results + [res])
  {
    var ops', results', states' := ops[..n + 1], results + [res], states + [c];
    forall i | 0 <= i <= n ensures Applied(l, states'[i], states'[i + 1], ops'[i], results'[i]) {
      if i < n {
        assert ops'[i] == ops[..n][i] && results'[i] == results[i];
        assert states'[i] == states[i] && states'[i + 1] == states[i + 1];
      }
    }
  }

  /** The addresses a run has given tokens to. */
  function GivenTokens(ops: seq<Op>): set<Ip> {
    if ops == [] then {}
    else GivenTokens(ops[..|ops| - 1]) + if ops[|ops| - 1].Query? then {IpOf(ops[|ops| - 1].addr)} else {}
  }

  /**
    Any run on a new store does, step by step, what its results say, and ends in a store within its
    limits that holds only peers that were given a token.
   */
  method Run(self: Id, ops: seq<Op>)
    returns (s: PeerStore, results: seq<OpResult>, ghost states: seq<Contents>)
    ensures s.Valid() && s.Bounds() == Limits(self, 1000, 1000, MAX_DISTANCE)
    ensures Ran(s.Bounds(), states, ops, results) && states[|ops|] == s.Snapshot()
    ensures |s.tokens| <= 1000 && s.peersLen == Total(s.peers) <= 1000
    ensures PeersOk(s.peers, self, MAX_DISTANCE, GivenTokens(ops))
  {
    s := new PeerStore(self);
    ghost var l := s.Bounds();
    results, states := [], [NEW_STORE];
    for i := 0 to |ops|
      invariant fresh(s) && s.Valid() && s.Bounds() == l == Limits(self, 1000, 1000, MAX_DISTANCE)
      invariant Ran(l, states, ops[..i], results) && states[i] == s.Snapshot()
      invariant s.issued == GivenTokens(ops[..i])
    {
      assert ops[..i + 1][..i] == ops[..i];
      var res := Apply(s, ops[i]);
      RanOn(l, states, s.Snapshot(), ops, i, results, res);
      results, states := results + [res], states + [s.Snapshot()];
    }
    assert ops[..|ops|] == ops;
  }

  // ---------- What a store holds after a run ----------

  ghost predicate Holds(c: Contents, hash: Id, p: StoredPeer) {
    hash in c.peers && p in c.peers[hash]
  }

  /** No list repeats an address. */
  ghost predicate NoRepeats(m: Peers) {
    forall k :: k in m ==> DistinctAddrs(m[k])
  }

  /** An operation stores the address for the hash, anew or again. */
  predicate Announces(op: Op, res: OpResult, hash: Id, addr: SocketAddr) {
    op.Announce? && res == Stored(true) && op.announce.infoHash == hash && Announced(op.announce, op.addr) == addr
  }

  /** An operation leaves a stored peer alone: no new announce of its address, no collection past its time. */
  predicate Spares(op: Op, res: OpResult, hash: Id, p: StoredPeer) {
    !Announces(op, res, hash, p.addr) && (op.Collect? ==> p.time > op.now - PEER_TTL)
  }

  /** Operation i stored the peer, and none since then up to the n-th has touched it. */
  ghost predicate StoredBy(ops: seq<Op>, results: seq<OpResult>, hash: Id, p: StoredPeer, i: nat, n: nat)
    requires n <= |ops| == |results|
  {
    && i < n && Announces(ops[i], results[i], hash, p.addr) && p.time == ops[i].now
    && forall k :: i < k < n ==> Spares(ops[k], results[k], hash, p)
  }

  lemma RenewedDistinct(before: seq<StoredPeer>, after: seq<StoredPeer>, addr: SocketAddr, now: int)
    requires DistinctAddrs(before) && Renewed(before, after, addr, now)
    ensures DistinctAddrs(after)
  {
  }

  lemma AddsDistinct(m: Peers, m': Peers, hash: Id, addr: SocketAddr, now: int)
    requires NoRepeats(m) && Adds(m, m', hash, addr, now)
    ensures NoRepeats(m')
  {
    RenewedDistinct(if hash in m then m[hash] else [], m'[hash], addr, now);
    forall k | k in m' && k != hash ensures DistinctAddrs(m'[k]) {
      assert k in m' - {hash} && m'[k] == (m' - {hash})[k] == (m - {hash})[k];
    }
  }

  lemma CleanDistinct(m: Peers, cutoff: int)
    requires NoRepeats(m)
    ensures NoRepeats(CleanAll(m, cutoff))
  {
    forall k | k in CleanAll(m, cutoff) ensures DistinctAddrs(Cleaned(m[k], cutoff)) {
      CleanedExact(m[k], cutoff);
      PartIsDistinct(Cleaned(m[k], cutoff), m[k]);
    }
  }

  lemma StepDistinct(l: Limits, c: Contents, c': Contents, op: Op, res: OpResult)
    requires NoRepeats(c.peers) && Applied(l, c, c', op, res)
    ensures NoRepeats(c'.peers)
  {
    match op {
      case Announce(a, addr, now) =>
        if res.stored { AddsDistinct(c.peers, c'.peers, a.infoHash, Announced(a, addr), now); }
      case Collect(now) => CleanDistinct(c.peers, now - PEER_TTL);
      case _ =>
    }
  }

  lemma {:induction false} RunDistinct(l: Limits, states: seq<Contents>, ops: seq<Op>, results: seq<OpResult>, n: nat)
    requires Ran(l, states, ops, results) && n < |states|
    ensures NoRepeats(states[n].peers)
  {
    if n > 0 {
      RunDistinct(l, states, ops, results, n - 1);
      assert Applied(l, states[n - 1], states[n - 1 + 1], ops[n - 1], results[n - 1]);
      StepDistinct(l, states[n - 1], states[n], ops[n - 1], results[n - 1]);
    }
  }

  /** A collection finds more fresh peers for the hash than it leaves. */
  predicate Cuts(op: Op, c: Contents, hash: Id) {
    op.Collect? && hash in c.peers && |Fresh(c.peers[hash], op.now - PEER_TTL)| > MAX_PEERS_PER_INFO_HASH
  }

  /** What is in a renewed list. */
  lemma RenewedHolds(before: seq<StoredPeer>, after: seq<StoredPeer>, addr: SocketAddr, now: int, p: StoredPeer)
    requires DistinctAddrs(before) && Renewed(before, after, addr, now)
    ensures p in after <==> p == StoredPeer(addr, now) || (p in before && p.addr != addr)
  {
    if after != before + [StoredPeer(addr, now)] {
      var i :| 0 <= i < |before| && before[i].addr == addr && after == before[i := StoredPeer(addr, now)];
      assert after[i] in after;
      if p in before && p.addr != addr {
        var j :| 0 <= j < |before| && before[j] == p;
        assert after[j] == p;
      }
    }
  }

  lemma CleanedHolds(s: seq<StoredPeer>, cutoff: int, p: StoredPeer)
    ensures p in Cleaned(s, cutoff) ==> p in s && p.time > cutoff
    ensures |Fresh(s, cutoff)| <= MAX_PEERS_PER_INFO_HASH && p in s && p.time > cutoff ==> p in Cleaned(s, cutoff)
  {
    CleanedExact(s, cutoff);
    FreshIs(s, cutoff, p);
    if p in Cleaned(s, cutoff) {
      assert p in multiset(Cleaned(s, cutoff)) && p in multiset(Fresh(s, cutoff));
    }
    if p in s && p.time > cutoff { assert p in multiset(s) && p in multiset(Fresh(s, cutoff)); }
  }

  /** A peer is there after an operation only if that operation stored it, or it was there and was spared. */
  lemma HeldBefore(l: Limits, c: Contents, c': Contents, op: Op, res: OpResult, hash: Id, p: StoredPeer)
    requires NoRepeats(c.peers) && Applied(l, c, c', op, res) && Holds(c', hash, p)
    ensures || (Announces(op, res, hash, p.addr) && p.time == op.now)
            || (Holds(c, hash, p) && Spares(op, res, hash, p))
  {
    match op {
      case Announce(a, addr, now) =>
        if res.stored && hash == a.infoHash {
          RenewedHolds(if hash in c.peers then c.peers[hash] else [], c'.peers[hash], Announced(a, addr), now, p);
        } else if res.stored {
          assert hash in c'.peers - {a.infoHash};
        }
      case Collect(now) => CleanedHolds(c.peers[hash], now - PEER_TTL, p);
      case _ =>
    }
  }

  /** A peer that an operation stored is there; one that was there and was spared still is, if its list is not cut. */
  lemma HeldAfter(l: Limits, c: Contents, c': Contents, op: Op, res: OpResult, hash: Id, p: StoredPeer)
    requires NoRepeats(c.peers) && Applied(l, c, c', op, res)
    requires !Cuts(op, c, hash)
    requires || (Announces(op, res, hash, p.addr) && p.time == op.now)
             || (Holds(c, hash, p) && Spares(op, res, hash, p))
    ensures Holds(c', hash, p)
  {
    match op {
      case Announce(a, addr, now) =>
        if res.stored && hash == a.infoHash {
          RenewedHolds(if hash in c.peers then c.peers[hash] else [], c'.peers[hash], Announced(a, addr), now, p);
        } else if res.stored {
          assert hash in c.peers - {a.infoHash};
        }
      case Collect(now) => CleanedHolds(c.peers[hash], now - PEER_TTL, p);
      case _ =>
    }
  }

  /** Every stored peer was stored by some announce of the run and has been spared since. */
  lemma {:induction false} PeerOrigin(l: Limits, states: seq<Contents>, ops: seq<Op>, results: seq<OpResult>, n: nat,
                                      hash: Id, p: StoredPeer) returns (i: nat)
    requires Ran(l, states, ops, results) && n < |states| && Holds(states[n], hash, p)
    ensures StoredBy(ops, results, hash, p, i, n)
  {
    HeldInRun(l, states, ops, results, n - 1, hash, p);
    if Announces(ops[n - 1], results[n - 1], hash, p.addr) && p.time == ops[n - 1].now {
      i := n - 1;
    } else {
      i := PeerOrigin(l, states, ops, results, n - 1, hash, p);
      SparedOnce(ops, results, hash, p, i, n - 1);
    }
  }

  lemma SparedOnce(ops: seq<Op>, results: seq<OpResult>, hash: Id, p: StoredPeer, i: nat, n: nat)
    requires n < |ops| == |results|
    requires StoredBy(ops, results, hash, p, i, n) && Spares(ops[n], results[n], hash, p)
    ensures StoredBy(ops, results, hash, p, i, n + 1)
  {
  }

  lemma LastSpared(ops: seq<Op>, results: seq<OpResult>, hash: Id, p: StoredPeer, i: nat, n: nat)
    requires n < |ops| == |results| && StoredBy(ops, results, hash, p, i, n + 1)
    ensures if i == n then Announces(ops[n], results[n], hash, p.addr) && p.time == ops[n].now
            else StoredBy(ops, results, hash, p, i, n) && Spares(ops[n], results[n], hash, p)
  {
  }

  lemma HeldInRun(l: Limits, states: seq<Contents>, ops: seq<Op>, results: seq<OpResult>, n: nat,
                  hash: Id, p: StoredPeer)
    requires Ran(l, states, ops, results) && n < |ops| && Holds(states[n + 1], hash, p)
    ensures || (Announces(ops[n], results[n], hash, p.addr) && p.time == ops[n].now)
            || (Holds(states[n], hash, p) && Spares(ops[n], results[n], hash, p))
  {
    assert Applied(l, states[n], states[n + 1], ops[n], results[n]);
    RunDistinct(l, states, ops, results, n);
    HeldBefore(l, states[n], states[n + 1], ops[n], results[n], hash, p);
  }

  ghost predicate NeverCut(states: seq<Contents>, ops: seq<Op>, hash: Id, n: nat)
    requires n <= |ops| <= |states|
  {
    forall k :: 0 <= k < n ==> !Cuts(ops[k], states[k], hash)
  }

  lemma {:induction false} StaysStored(l: Limits, states: seq<Contents>, ops: seq<Op>, results: seq<OpResult>, n: nat,
                                       hash: Id, p: StoredPeer, i: nat)
    requires Ran(l, states, ops, results) && n < |states| && NeverCut(states, ops, hash, n)
    requires StoredBy(ops, results, hash, p, i, n)
    ensures Holds(states[n], hash, p)
  {
    LastSpared(ops, results, hash, p, i, n - 1);
    if i < n - 1 { StaysStored(l, states, ops, results, n - 1, hash, p, i); }
    HeldOn(l, states, ops, results, n - 1, hash, p);
  }

  lemma HeldOn(l: Limits, states: seq<Contents>, ops: seq<Op>, results: seq<OpResult>, n: nat,
               hash: Id, p: StoredPeer)
    requires Ran(l, states, ops, results) && n < |ops| && !Cuts(ops[n], states[n], hash)
    requires || (Announces(ops[n], results[n], hash, p.addr) && p.time == ops[n].now)
             || (Holds(states[n], hash, p) && Spares(ops[n], results[n], hash, p))
    ensures Holds(states[n + 1], hash, p)
  {
    assert Applied(l, states[n], states[n + 1], ops[n], results[n]);
    RunDistinct(l, states, ops, results, n);
    HeldAfter(l, states[n], states[n + 1], ops[n], results[n], hash, p);
  }

  /**
    After any run the store holds a peer for a hash exactly if some announce stored it and since then
    no accepted announce was for the same address and no collection came after its time to live. If a
    collection had to cut the list to 100 peers, it still is so one way.
   */
  lemma StoredIff(l: Limits, states: seq<Contents>, ops: seq<Op>, results: seq<OpResult>, n: nat,
                  hash: Id, p: StoredPeer)
    requires Ran(l, states, ops, results) && n < |states|
    ensures Holds(states[n], hash, p) ==> exists i :: StoredBy(ops, results, hash, p, i, n)
    ensures NeverCut(states, ops, hash, n) ==>
              (Holds(states[n], hash, p) <==> exists i :: StoredBy(ops, results, hash, p, i, n))
  {
    if Holds(states[n], hash, p) {
      var i := PeerOrigin(l, states, ops, results, n, hash, p);
    }
    if i: nat :| NeverCut(states, ops, hash, n) && StoredBy(ops, results, hash, p, i, n) {
      StaysStored(l, states, ops, results, n, hash, p, i);
    }
  }

  // ---------- Where tokens come from ----------

  /** Query j was given the token, and it has outlived all collections since. */
  ghost predicate GivenBy(ops: seq<Op>, t: StoredToken, j: nat, n: nat)
    requires n <= |ops|
  {
    && j < n && ops[j] == Query(t.nodeId, t.addr, t.token, t.time)
    && forall k :: j < k < n && ops[k].Collect? ==> t.time > ops[k].now - TOKEN_TTL
  }

  lemma {:induction false} TokenOrigin(l: Limits, states: seq<Contents>, ops: seq<Op>, results: seq<OpResult>, n: nat,
                                       t: StoredToken) returns (j: nat)
    requires Ran(l, states, ops, results) && n < |states| && t in states[n].tokens
    ensures GivenBy(ops, t, j, n)
  {
    assert Applied(l, states[n - 1], states[n - 1 + 1], ops[n - 1], results[n - 1]);
    if ops[n - 1] == Query(t.nodeId, t.addr, t.token, t.time) {
      j := n - 1;
    } else {
      j := TokenOrigin(l, states, ops, results, n - 1, t);
    }
  }

  /** The announce that operation i made answers a token that an earlier query, j, was given. */
  ghost predicate VouchedFor(ops: seq<Op>, i: nat, j: nat)
    requires i < |ops|
  {
    && ops[i].Announce? && j < i
    && var a := ops[i].announce;
       ops[j].Query? && GivenBy(ops, StoredToken(a.token, a.id, ops[i].addr, ops[j].now), j, i)
  }

  /**
    Whatever a lookup returns was announced before, under that address and for that hash, by a node
    that had been given the token it showed, at the address that it announced from; and neither the
    token, by then, nor the peer, by now, had been found stale by a collection.
   */
  lemma FoundIsVouchedFor(l: Limits, states: seq<Contents>, ops: seq<Op>, results: seq<OpResult>, n: nat,
                          addr: SocketAddr)
    requires Ran(l, states, ops, results) && n < |ops| && ops[n].Get?
    requires results[n].Found? && addr in results[n].addrs
    ensures exists i, j, p :: StoredBy(ops, results, ops[n].hash, p, i, n) && p.addr == addr && Wanted(p, ops[n].want)
                              && VouchedFor(ops, i, j)
  {
    assert Applied(l, states[n], states[n + 1], ops[n], results[n]);
    var hash, c := ops[n].hash, states[n];
    WantedAddrsAre(c.peers[hash], ops[n].want, addr);
    var m :| 0 <= m < |c.peers[hash]| && c.peers[hash][m].addr == addr && Wanted(c.peers[hash][m], ops[n].want);
    var p := c.peers[hash][m];
    var i := PeerOrigin(l, states, ops, results, n, hash, p);
    var j := AnnounceOrigin(l, states, ops, results, i);
  }

  lemma AnnounceOrigin(l: Limits, states: seq<Contents>, ops: seq<Op>, results: seq<OpResult>, i: nat) returns (j: nat)
    requires Ran(l, states, ops, results) && i < |ops| && ops[i].Announce? && results[i] == Stored(true)
    ensures VouchedFor(ops, i, j)
  {
    assert Applied(l, states[i], states[i + 1], ops[i], results[i]);
    var t :| t in states[i].tokens && Matches(t, ops[i].announce, ops[i].addr);
    j := TokenOrigin(l, states, ops, results, i, t);
  }

  /** And of a list that is never cut, a lookup returns every address that the run stored and has spared since. */
  lemma SparedIsFound(l: Limits, states: seq<Contents>, ops: seq<Op>, results: seq<OpResult>, n: nat,
                      p: StoredPeer, i: nat)
    requires Ran(l, states, ops, results) && n < |ops| && ops[n].Get? && NeverCut(states, ops, ops[n].hash, n)
    requires StoredBy(ops, results, ops[n].hash, p, i, n) && Wanted(p, ops[n].want)
    ensures results[n].Found? && p.addr in results[n].addrs
  {
    assert Applied(l, states[n], states[n + 1], ops[n], results[n]);
    StaysStored(l, states, ops, results, n, ops[n].hash, p, i);
    WantedAddrsAre(states[n].peers[ops[n].hash], ops[n].want, p.addr);
  }
  // ---------- Lookups, told from the operations alone ----------

  /** The address that an announce from some address is stored under: with its own port if it names one. */
  predicate StoredUnder(a: AnnouncePeer, from: SocketAddr, addr: SocketAddr) {
    addr.V4? == from.V4? && addr.ip == from.ip && addr.port == if a.impliedPort == 0 then a.port else from.port
  }

  lemma AnnouncedIs(a: AnnouncePeer, from: SocketAddr, addr: SocketAddr)
    ensures Announced(a, from) == addr <==> StoredUnder(a, from, addr)
  {
  }

  predicate WantsFamily(want: Want, addr: SocketAddr) {
    want == WantBoth || want == if addr.V4? then WantV4 else WantV6
  }

  /** Operation k stores or renews the address for the hash. */
  predicate Renews(ops: seq<Op>, results: seq<OpResult>, k: nat, hash: Id, addr: SocketAddr)
    requires k < |ops| == |results|
  {
    && ops[k].Announce? && results[k] == Stored(true)
    && ops[k].announce.infoHash == hash && StoredUnder(ops[k].announce, ops[k].addr, addr)
  }

  /** Operation i was the last to store the address, and no collection was 15 minutes or more after it. */
  ghost predicate FreshSince(ops: seq<Op>, results: seq<OpResult>, i: nat, n: nat, hash: Id, addr: SocketAddr)
    requires n <= |ops| == |results|
  {
    && i < n && Renews(ops, results, i, hash, addr)
    && forall k :: i < k < n ==>
         !Renews(ops, results, k, hash, addr) && (ops[k].Collect? ==> ops[k].now - ops[i].now < 900_000_000_000)
  }

  lemma FreshIsStored(ops: seq<Op>, results: seq<OpResult>, i: nat, n: nat, hash: Id, p: StoredPeer)
    requires i < n <= |ops| == |results| && ops[i].Announce?
    ensures FreshSince(ops, results, i, n, hash, p.addr) && p.time == ops[i].now
            <==> StoredBy(ops, results, hash, p, i, n)
  {
    forall k | i <= k < n && ops[k].Announce?
      ensures Renews(ops, results, k, hash, p.addr) <==> Announces(ops[k], results[k], hash, p.addr)
    {
      AnnouncedIs(ops[k].announce, ops[k].addr, p.addr);
    }
    if FreshSince(ops, results, i, n, hash, p.addr) && p.time == ops[i].now {
      forall k | i < k < n ensures Spares(ops[k], results[k], hash, p) {
        assert !Renews(ops, results, k, hash, p.addr);
      }
    }
    if StoredBy(ops, results, hash, p, i, n) {
      forall k | i < k < n
        ensures !Renews(ops, results, k, hash, p.addr)
        ensures ops[k].Collect? ==> ops[k].now - ops[i].now < 900_000_000_000
      {
        assert Spares(ops[k], results[k], hash, p);
      }
    }
  }

  /**
    A lookup returns an address exactly if it is of a wanted family and some accepted announce stored
    it, under the port that it named or came from, and no collection came 15 minutes or more after the
    last such announce. That is so as long as no collection has to cut the list of the hash.
   */
  lemma FoundIff(l: Limits, states: seq<Contents>, ops: seq<Op>, results: seq<OpResult>, n: nat, addr: SocketAddr)
    requires Ran(l, states, ops, results) && n < |ops| && ops[n].Get? && NeverCut(states, ops, ops[n].hash, n)
    ensures results[n].Found?
    ensures addr in results[n].addrs <==>
              WantsFamily(ops[n].want, addr) && exists i :: FreshSince(ops, results, i, n, ops[n].hash, addr)
  {
    assert Applied(l, states[n], states[n + 1], ops[n], results[n]);
    var hash := ops[n].hash;
    if addr in results[n].addrs {
      FoundWasStored(l, states, ops, results, n, addr);
    }
    if i: nat :| WantsFamily(ops[n].want, addr) && FreshSince(ops, results, i, n, hash, addr) {
      var p := StoredPeer(addr, ops[i].now);
      FreshIsStored(ops, results, i, n, hash, p);
      SparedIsFound(l, states, ops, results, n, p, i);
    }
  }

  lemma FoundWasStored(l: Limits, states: seq<Contents>, ops: seq<Op>, results: seq<OpResult>, n: nat, addr: SocketAddr)
    requires Ran(l, states, ops, results) && n < |ops| && ops[n].Get?
    requires results[n].Found? && addr in results[n].addrs
    ensures WantsFamily(ops[n].want, addr) && exists i :: FreshSince(ops, results, i, n, ops[n].hash, addr)
  {
    FoundIsVouchedFor(l, states, ops, results, n, addr);
    var i: nat, j: nat, p :| StoredBy(ops, results, ops[n].hash, p, i, n) && p.addr == addr
                             && Wanted(p, ops[n].want) && VouchedFor(ops, i, j);
    FreshIsStored(ops, results, i, n, ops[n].hash, p);
  }

  /** Query j was given the token that announce i shows, and no collection between was 10 minutes or more after it. */
  ghost predicate HadToken(ops: seq<Op>, i: nat, j: nat)
    requires i < |ops| && ops[i].Announce?
  {
    && j < i && ops[j].Query? && ops[j].token == ops[i].announce.token
    && ops[j].nodeId == ops[i].announce.id && ops[j].addr == ops[i].addr
    && forall k :: j < k < i && ops[k].Collect? ==> ops[k].now - ops[j].now < 600_000_000_000
  }

  /** Every accepted announce is for a hash that shares our first 20 bits, and shows a token that is still good. */
  lemma AcceptedHadToken(l: Limits, states: seq<Contents>, ops: seq<Op>, results: seq<OpResult>, i: nat)
    requires Ran(l, states, ops, results) && i < |ops| && ops[i].Announce? && results[i] == Stored(true)
    requires l.maxDistance == MAX_DISTANCE
    ensures SamePrefix(ops[i].announce.infoHash, l.selfId, 20) && exists j :: HadToken(ops, i, j)
  {
    assert Applied(l, states[i], states[i + 1], ops[i], results[i]);
    NearIff(ops[i].announce.infoHash, l.selfId);
    var j := AnnounceOrigin(l, states, ops, results, i);
    assert HadToken(ops, i, j);
  }
}
