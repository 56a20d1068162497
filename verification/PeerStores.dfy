/**
  The peer store (crates/librtbit-dht/src/peer_store.rs): tokens are handed out, announces that
  carry one are stored, and a collector bounds what is remembered. Times and the random bytes
  of tokens are parameters; the orders in which the hash map is walked are arbitrary.
 */
module PeerStores {
  import opened Net
  import opened Octets
  import opened Ids
  import opened Sorting
  import opened PeerLists

  const MAX_DISTANCE: Id := Limit(17)

  /** 0x00000f followed by n bytes 0xff. */
  function Limit(n: nat): (r: Bytes)
    ensures |r| == n + 3
  {
    if n == 0 then [0, 0, 0x0f] else Limit(n - 1) + [0xff]
  }

  /** The largest distance is 2^140 - 1: a hash is stored only if it shares the first 20 bits with us. */
  lemma NearIff(hash: Id, self: Id)
    ensures Less(MAX_DISTANCE, Distance(hash, self)) <==> Val(Distance(hash, self)) >= Pow2(140)
    ensures Less(MAX_DISTANCE, Distance(hash, self)) <==> !SamePrefix(hash, self, 20)
  {
    CloseIff(hash, self, 140);
    LessIsNumeric(MAX_DISTANCE, Distance(hash, self));
    LimitVal(17);
    Pow2Add(4, 136);
    Pow2Small();
  }

  lemma {:induction false} LimitVal(n: nat)
    ensures Val(Limit(n)) + 1 == 16 * Pow2(8 * n)
  {
    var s := Limit(n);
    if n == 0 {
      assert s[..2] == [0, 0] && s[..2][..1] == [0] && s[..2][..1][..0] == [];
      assert Val(s[..2][..1]) == 0;
      assert Val(s[..2]) == 0;
      assert Val(s) == 0x0f;
    } else {
      LimitVal(n - 1);
      Pow2Bytes(n);
      assert s[..|s| - 1] == Limit(n - 1);
      assert Val(s) == 256 * Val(Limit(n - 1)) + 255;
    }
  }

  datatype StoredToken = StoredToken(token: Bytes, nodeId: Id, addr: SocketAddr, time: int)

  datatype AnnouncePeer = AnnouncePeer(id: Id, impliedPort: nat, infoHash: Id, port: nat, token: Bytes)

  datatype Want = WantV4 | WantV6 | WantBoth | WantNone

  /** An address without its port. */
  datatype Ip = Ip(v4: bool, bits: nat)

  function IpOf(a: SocketAddr): Ip {
    Ip(a.V4?, a.ip)
  }

  function SetPort(a: SocketAddr, port: nat): (r: SocketAddr)
    ensures IpOf(r) == IpOf(a) && r.port == port
  {
    match a
    case V4(ip, _) => V4(ip, port)
    case V6(ip, _) => V6(ip, port)
  }

  /** The address an announce asks to be stored under. */
  function Announced(a: AnnouncePeer, addr: SocketAddr): (r: SocketAddr)
    ensures IpOf(r) == IpOf(addr)
  {
    if a.impliedPort == 0 then SetPort(addr, a.port) else addr
  }

  predicate Matches(t: StoredToken, a: AnnouncePeer, addr: SocketAddr) {
    t.token == a.token && t.addr == addr && t.nodeId == a.id
  }

  predicate Wanted(p: StoredPeer, want: Want) {
    match p.addr
    case V4(_, _) => want == WantV4 || want == WantBoth
    case V6(_, _) => want == WantV6 || want == WantBoth
  }

  function WantedAddrs(s: seq<StoredPeer>, want: Want): seq<SocketAddr> {
    if s == [] then []
    else WantedAddrs(s[..|s| - 1], want) + if Wanted(s[|s| - 1], want) then [s[|s| - 1].addr] else []
  }

  lemma {:induction false} WantedAddrsAre(s: seq<StoredPeer>, want: Want, a: SocketAddr)
    ensures a in WantedAddrs(s, want) <==> exists i :: 0 <= i < |s| && s[i].addr == a && Wanted(s[i], want)
  {
    if s != [] {
      var n := |s| - 1;
      WantedAddrsAre(s[..n], want, a);
      if a in WantedAddrs(s[..n], want) {
        var i :| 0 <= i < n && s[..n][i].addr == a && Wanted(s[..n][i], want);
        assert s[i].addr == a && Wanted(s[i], want);
      }
    }
  }

  /** The tokens issued after the cutoff. */
  function FreshTokens(s: seq<StoredToken>, cutoff: int): (r: seq<StoredToken>)
    ensures |r| <= |s|
    ensures forall t :: t in r <==> t in s && t.time > cutoff
  {
    if s == [] then []
    else
      var n := |s| - 1;
      assert s == s[..n] + [s[n]];
      FreshTokens(s[..n], cutoff) + if s[n].time > cutoff then [s[n]] else []
  }

  // ---------- What every store keeps ----------

  ghost predicate ListOk(s: seq<StoredPeer>, issued: set<Ip>) {
    s != [] && DistinctAddrs(s) && forall p :: p in s ==> IpOf(p.addr) in issued
  }

  ghost predicate PeersOk(m: Peers, selfId: Id, maxDistance: Id, issued: set<Ip>) {
    forall k :: k in m ==> !Less(maxDistance, Distance(k, selfId)) && ListOk(m[k], issued)
  }

  lemma PartOk(t: seq<StoredPeer>, s: seq<StoredPeer>, issued: set<Ip>)
    requires ListOk(s, issued) && PartOf(t, s) && t != []
    ensures ListOk(t, issued)
  {
    PartIsDistinct(t, s);
    forall p | p in t ensures IpOf(p.addr) in issued {
      PartMember(t, s, p);
    }
  }

  lemma CleanOk(m: Peers, cutoff: int, selfId: Id, maxDistance: Id, issued: set<Ip>)
    requires PeersOk(m, selfId, maxDistance, issued)
    ensures PeersOk(CleanAll(m, cutoff), selfId, maxDistance, issued)
  {
    forall k | k in CleanAll(m, cutoff) ensures ListOk(CleanAll(m, cutoff)[k], issued) {
      CleanedExact(m[k], cutoff);
      PartOk(Cleaned(m[k], cutoff), m[k], issued);
    }
  }

  /** A list with an address added, or its time renewed. */
  ghost predicate Renewed(before: seq<StoredPeer>, after: seq<StoredPeer>, addr: SocketAddr, now: int) {
    || (after == before + [StoredPeer(addr, now)] && forall k :: 0 <= k < |before| ==> before[k].addr != addr)
    || exists i :: 0 <= i < |before| && before[i].addr == addr && after == before[i := StoredPeer(addr, now)]
  }

  /** An announce takes the peers from m to m'. */
  ghost predicate Adds(m: Peers, m': Peers, hash: Id, addr: SocketAddr, now: int) {
    && hash in m' && m' - {hash} == m - {hash}
    && Renewed(if hash in m then m[hash] else [], m'[hash], addr, now)
  }

  lemma RenewedOk(before: seq<StoredPeer>, after: seq<StoredPeer>, addr: SocketAddr, now: int, issued: set<Ip>)
    requires before == [] || ListOk(before, issued)
    requires Renewed(before, after, addr, now) && IpOf(addr) in issued
    ensures ListOk(after, issued)
  {
    forall p | p in after ensures IpOf(p.addr) in issued {
      var j :| 0 <= j < |after| && after[j] == p;
      assert p.addr == addr || p in before;
    }
  }

  lemma SetOk(m: Peers, k: Id, s: seq<StoredPeer>, selfId: Id, maxDistance: Id, issued: set<Ip>)
    requires PeersOk(m, selfId, maxDistance, issued) && ListOk(s, issued)
    requires !Less(maxDistance, Distance(k, selfId))
    ensures PeersOk(m[k := s], selfId, maxDistance, issued) && m[k := s] - {k} == m - {k}
  {
  }

  ghost predicate NoEmptyList(m: Peers) {
    forall k :: k in m ==> m[k] != []
  }

  predicate Earlier(x: (Id, int), y: (Id, int)) {
    x.1 <= y.1
  }

  /** The hashes with their oldest times, each once. */
  ghost predicate EntriesOf(m: Peers, entries: seq<(Id, int)>)
    requires NoEmptyList(m)
  {
    && NoDuplicates(entries)
    && (forall k :: k in m ==> (k, Oldest(m[k])) in entries)
    && (forall e :: e in entries ==> e.0 in m && e.1 == Oldest(m[e.0]))
  }

  lemma SortedEntries(m: Peers, entries: seq<(Id, int)>, sorted: seq<(Id, int)>)
    requires NoEmptyList(m) && EntriesOf(m, entries) && sorted == Sort(entries, Earlier)
    ensures EntriesOf(m, sorted) && SortedBy(sorted, Earlier)
  {
    SortCorrect(entries, Earlier);
    SameElements(entries, sorted);
    PartNoDuplicates(sorted, entries);
  }

  lemma EntriesOrder(m: Peers, sorted: seq<(Id, int)>, order: seq<Id>)
    requires NoEmptyList(m) && EntriesOf(m, sorted) && SortedBy(sorted, Earlier)
    requires |order| == |sorted| && forall i :: 0 <= i < |order| ==> order[i] == sorted[i].0
    ensures ByOldest(m, order)
  {
    forall k ensures k in order <==> k in m {
      if k in m {
        var i :| 0 <= i < |sorted| && sorted[i] == (k, Oldest(m[k]));
        assert order[i] == k;
      }
      if k in order {
        var i :| 0 <= i < |order| && order[i] == k;
        assert sorted[i] in sorted;
      }
    }
    forall i, j | 0 <= i < j < |order| ensures order[i] != order[j] && Oldest(m[order[i]]) <= Oldest(m[order[j]]) {
      assert sorted[i] in sorted && sorted[j] in sorted && Earlier(sorted[i], sorted[j]);
    }
  }

  lemma OrderedHashes(m: Peers, order: seq<Id>)
    requires ByOldest(m, order)
    ensures HashesOf(m, order) && TotalOf(m, order) == Total(m)
  {
    assert forall i :: 0 <= i < |order| ==> order[i] in order;
    TotalOfAll(m, order);
  }

  /** The n peers over the cap have been evicted in an order of the hashes by their oldest peers. */
  ghost predicate CappedBy(m: Peers, d: Peers, max: nat, order: seq<Id>, n: nat) {
    && n == (if Total(m) > max then Total(m) - max else 0)
    && (n > 0 ==> ByOldest(m, order)) && d == Drain(m, order, n)
  }

  ghost predicate Capped(m: Peers, d: Peers, max: nat) {
    exists order, n :: CappedBy(m, d, max, order, n)
  }

  /** A store within the cap stays as it is. */
  lemma WithinCap(m: Peers, max: nat)
    requires Total(m) <= max
    ensures Capped(m, m, max)
  {
    assert CappedBy(m, m, max, [], 0);
  }

  lemma OverCap(m: Peers, d: Peers, max: nat, n: nat)
    requires Total(m) > max && n == Total(m) - max && Drained(m, d, n)
    ensures Capped(m, d, max)
  {
    var order :| DrainedBy(m, d, order, n);
    assert CappedBy(m, d, max, order, n);
  }

  ghost predicate DrainedBy(m: Peers, d: Peers, order: seq<Id>, n: nat) {
    ByOldest(m, order) && d == Drain(m, order, n)
  }

  ghost predicate Drained(m: Peers, d: Peers, n: nat) {
    exists order :: DrainedBy(m, d, order, n)
  }

  /** Lists only lose peers to the cap, and none is left empty. */
  lemma CappedLists(m: Peers, d: Peers, max: nat, k: Id)
    requires NoEmptyList(m) && Capped(m, d, max) && k in d
    ensures k in m && PartOf(d[k], m[k]) && d[k] != []
  {
    var order, n :| CappedBy(m, d, max, order, n);
    if n > 0 {
      OrderedHashes(m, order);
      DrainParts(m, order, n, d, k);
    }
  }

  lemma CappedOk(m: Peers, d: Peers, max: nat, selfId: Id, maxDistance: Id, issued: set<Ip>)
    requires PeersOk(m, selfId, maxDistance, issued) && Capped(m, d, max)
    ensures PeersOk(d, selfId, maxDistance, issued)
  {
    forall k | k in d ensures k in m && ListOk(d[k], issued) {
      CappedLists(m, d, max, k);
      PartOk(d[k], m[k], issued);
    }
  }

  /** The eviction brings the total to the cap, no more and no less, and leaves a store within it alone. */
  lemma CappedTotal(m: Peers, d: Peers, max: nat)
    requires Capped(m, d, max)
    ensures Total(m) <= max ==> d == m
    ensures Total(d) == if Total(m) <= max then Total(m) else max
  {
    var order, n :| CappedBy(m, d, max, order, n);
    if n > 0 {
      OrderedHashes(m, order);
      DrainTotal(m, order, n);
    }
  }

  ghost predicate TwoHashes(m: Peers, a: Id, b: Id, x: SocketAddr, y: SocketAddr) {
    a != b && m == map[a := [StoredPeer(x, 1), StoredPeer(y, 9)], b := [StoredPeer(x, 2)]]
  }

  /**
    The cap is by hash, not by peer. With one hash seen at times 1 and 9, another at time 2, none of
    them stale, and a cap of one, a collection takes the peer of time 9 and leaves the one of time 2.
   */
  lemma NewerPeerEvicted(m: Peers, d: Peers, a: Id, b: Id, x: SocketAddr, y: SocketAddr)
    requires TwoHashes(m, a, b, x, y) && d == map[b := [StoredPeer(x, 2)]]
    ensures Capped(CleanAll(m, 0), d, 1)
    ensures Gone(m, d, a, StoredPeer(y, 9)) && b in d && StoredPeer(x, 2) in d[b]
  {
    NothingToClean(m, 0);
    ThreePeers(m, a, b, x, y);
    TwoInOrder(m, a, b, x, y);
    DrainBoth(m, a, b, x, y);
    assert DrainedBy(m, d, [a, b], 2);
    OverCap(m, d, 1, 2);
    assert multiset(m[a])[StoredPeer(y, 9)] > 0;
  }

  lemma ThreePeers(m: Peers, a: Id, b: Id, x: SocketAddr, y: SocketAddr)
    requires TwoHashes(m, a, b, x, y)
    ensures Total(m) == 3
  {
    TotalRemove(m, a);
    TotalRemove(m - {a}, b);
    assert m - {a} - {b} == map[];
  }

  lemma TwoInOrder(m: Peers, a: Id, b: Id, x: SocketAddr, y: SocketAddr)
    requires TwoHashes(m, a, b, x, y)
    ensures ByOldest(m, [a, b])
  {
    assert Oldest(m[a]) <= m[a][0].time && Oldest(m[b]) == 2;
  }

  lemma DrainBoth(m: Peers, a: Id, b: Id, x: SocketAddr, y: SocketAddr)
    requires TwoHashes(m, a, b, x, y)
    ensures Drain(m, [a, b], 2) == map[b := [StoredPeer(x, 2)]]
  {
    assert [a, b][1..] == [b];
    assert Drain(m - {a}, [b], 0) == m - {a};
    assert m - {a} == map[b := [StoredPeer(x, 2)]];
  }

  /** What a store is set up with. */
  datatype Limits = Limits(selfId: Id, maxTokens: nat, maxPeers: nat, maxDistance: Id)

  /** What a store holds. */
  datatype Contents = Contents(tokens: seq<StoredToken>, peers: Peers, peersLen: nat)

  /** Whether an address is stored for a hash. */
  ghost predicate Stores(m: Peers, hash: Id, addr: SocketAddr) {
    hash in m && exists i :: 0 <= i < |m[hash]| && m[hash][i].addr == addr
  }

  /** Whether an announce is to be stored: near enough, with a token, and known already or room left. */
  ghost predicate Accepts(l: Limits, c: Contents, a: AnnouncePeer, addr: SocketAddr) {
    && !Less(l.maxDistance, Distance(a.infoHash, l.selfId))
    && (exists t :: t in c.tokens && Matches(t, a, addr))
    && (Stores(c.peers, a.infoHash, Announced(a, addr)) || c.peersLen < l.maxPeers)
  }

  /** A collection in a store that is within its limits takes the contents from c to c'. */
  ghost predicate Cleans(c: Contents, c': Contents, now: int) {
    c'.tokens == FreshTokens(c.tokens, now - TOKEN_TTL) && c'.peers == CleanAll(c.peers, now - PEER_TTL)
  }

  class PeerStore {
    const selfId: Id
    const maxRememberedTokens: nat
    const maxRememberedPeers: nat
    const maxDistance: Id
    var tokens: seq<StoredToken>
    var peers: Peers
    var peersLen: nat
    /** The addresses ever given a token. */
    ghost var issued: set<Ip>

    ghost predicate Valid()
      reads this
    {
      && |tokens| <= maxRememberedTokens
      && (forall t :: t in tokens ==> IpOf(t.addr) in issued)
      && peersLen == Total(peers) <= maxRememberedPeers
      && PeersOk(peers, selfId, maxDistance, issued)
    }

    ghost function Bounds(): Limits {
      Limits(selfId, maxRememberedTokens, maxRememberedPeers, maxDistance)
    }

    ghost function Snapshot(): Contents
      reads this
    {
      Contents(tokens, peers, peersLen)
    }

    constructor (self: Id)
      ensures Valid() && selfId == self && maxRememberedTokens == maxRememberedPeers == 1000
      ensures maxDistance == MAX_DISTANCE && tokens == [] && peers == map[] && issued == {}
    {
      selfId, maxRememberedTokens, maxRememberedPeers, maxDistance := self, 1000, 1000, MAX_DISTANCE;
      tokens, peers, peersLen, issued := [], map[], 0, {};
    }

    /** The new token is remembered last; the oldest one makes room. */
    method GenTokenFor(nodeId: Id, addr: SocketAddr, token: Bytes, now: int)
      requires Valid()
      modifies `tokens, `issued
      ensures Valid() && issued == old(issued) + {IpOf(addr)}
      ensures var all := old(tokens) + [StoredToken(token, nodeId, addr, now)];
              tokens == all[if |all| > maxRememberedTokens then 1 else 0..]
    {
      tokens := tokens + [StoredToken(token, nodeId, addr, now)];
      issued := issued + {IpOf(addr)};
      if |tokens| > maxRememberedTokens {
        tokens := tokens[1..];
      }
    }

    method HasToken(a: AnnouncePeer, addr: SocketAddr) returns (found: bool)
      ensures found <==> exists t :: t in tokens && Matches(t, a, addr)
    {
      for i := 0 to |tokens|
        invariant forall k :: 0 <= k < i ==> !Matches(tokens[k], a, addr)
      {
        if Matches(tokens[i], a, addr) {
          return true;
        }
      }
      return false;
    }

    method FindAddr(s: seq<StoredPeer>, addr: SocketAddr) returns (i: nat)
      ensures i <= |s| && (i < |s| ==> s[i].addr == addr)
      ensures forall k :: 0 <= k < i ==> s[k].addr != addr
    {
      i := 0;
      while i < |s| && s[i].addr != addr
        invariant i <= |s| && forall k :: 0 <= k < i ==> s[k].addr != addr
      {
        i := i + 1;
      }
    }

    method StorePeer(a: AnnouncePeer, from: SocketAddr, now: int) returns (stored: bool)
      requires Valid()
      modifies `peers, `peersLen
      ensures Valid() && stored == old(Accepts(Bounds(), Snapshot(), a, from))
      ensures !stored ==> peers == old(peers)
      ensures stored ==> Adds(old(peers), peers, a.infoHash, Announced(a, from), now)
    {
      var distance := ComputeDistance(a.infoHash, selfId);
      if Less(maxDistance, distance) {
        return false;
      }
      var hasToken := HasToken(a, from);
      if !hasToken {
        return false;
      }
      stored := Remember(a.infoHash, Announced(a, from), now);
    }

    /** The second half: renew the peer's time, or add it if there is room. */
    method Remember(hash: Id, addr: SocketAddr, now: int) returns (stored: bool)
      requires Valid() && !Less(maxDistance, Distance(hash, selfId)) && IpOf(addr) in issued
      modifies `peers, `peersLen
      ensures Valid() && stored == old(Stores(peers, hash, addr) || peersLen < maxRememberedPeers)
      ensures !stored ==> peers == old(peers)
      ensures stored ==> Adds(old(peers), peers, hash, addr, now)
    {
      var list := if hash in peers then peers[hash] else [];
      var i := FindAddr(list, addr);
      if i < |list| {
        ghost var before := peers;
        var renewed := list[i := StoredPeer(addr, now)];
        assert Renewed(list, renewed, addr, now);
        RenewedOk(list, renewed, addr, now, issued);
        SetOk(peers, hash, renewed, selfId, maxDistance, issued);
        TotalUpdate(peers, hash, renewed);
        peers := peers[hash := renewed];
        return true;
      }
      if peersLen >= maxRememberedPeers {
        return false;
      }
      var longer := list + [StoredPeer(addr, now)];
      RenewedOk(list, longer, addr, now, issued);
      SetOk(peers, hash, longer, selfId, maxDistance, issued);
      TotalUpdate(peers, hash, longer);
      peers := peers[hash := longer];
      peersLen := peersLen + 1;
      return true;
    }

    method GetForInfoHash(hash: Id, want: Want) returns (addrs: seq<SocketAddr>)
      ensures addrs == if hash in peers then WantedAddrs(peers[hash], want) else []
    {
      addrs := [];
      if hash in peers {
        var list := peers[hash];
        for i := 0 to |list|
          invariant addrs == WantedAddrs(list[..i], want)
        {
          assert list[..i + 1][..i] == list[..i];
          if Wanted(list[i], want) {
            addrs := addrs + [list[i].addr];
          }
        }
        assert list[..|list|] == list;
      }
    }

    // ---------- Garbage collection ----------

    /** Clean every list where it stands. */
    method CleanEach(cutoff: int) returns (emptyHashes: seq<Id>)
      modifies `peers
      ensures peers.Keys == old(peers).Keys
      ensures forall k :: k in peers ==> peers[k] == Cleaned(old(peers)[k], cutoff)
      ensures forall k :: k in emptyHashes <==> k in peers && peers[k] == []
    {
      var todo := peers.Keys;
      ghost var before := peers;
      emptyHashes := [];
      while todo != {}
        invariant todo <= before.Keys == peers.Keys
        invariant forall k :: k in todo ==> peers[k] == before[k]
        invariant forall k :: k in peers && k !in todo ==> peers[k] == Cleaned(before[k], cutoff)
        invariant forall k :: k in emptyHashes <==> k in peers && k !in todo && peers[k] == []
        decreases |todo|
      {
        var hash :| hash in todo;
        var list := Cleaned(peers[hash], cutoff);
        todo := todo - {hash};
        peers := peers[hash := list];
        if list == [] {
          emptyHashes := emptyHashes + [hash];
        }
      }
    }

    method RemoveHashes(hashes: seq<Id>)
      modifies `peers
      ensures peers == map k | k in old(peers) && k !in hashes :: old(peers)[k]
    {
      for i := 0 to |hashes|
        invariant forall k :: k in peers <==> k in old(peers) && k !in hashes[..i]
        invariant forall k :: k in peers ==> peers[k] == old(peers)[k]
      {
        peers := peers - {hashes[i]};
      }
      assert hashes[..|hashes|] == hashes;
    }

    /** Clean every list, then forget the hashes whose list came out empty. */
    method CleanLists(cutoff: int)
      modifies `peers
      ensures peers == CleanAll(old(peers), cutoff)
    {
      var emptyHashes := CleanEach(cutoff);
      RemoveHashes(emptyHashes);
    }

    method CountPeers() returns (count: nat)
      ensures count == Total(peers)
    {
      var left := peers;
      count := 0;
      while left != map[]
        invariant count + Total(left) == Total(peers)
        decreases left.Keys
      {
        assert left.Keys != {};
        var hash :| hash in left.Keys;
        TotalRemove(left, hash);
        count := count + |left[hash]|;
        left := left - {hash};
      }
    }

    /** All hashes, in some order, with the time of their oldest peer. */
    method OldestTimes() returns (entries: seq<(Id, int)>)
      requires NoEmptyList(peers)
      ensures EntriesOf(peers, entries)
    {
      var todo := peers.Keys;
      entries := [];
      while todo != {}
        invariant todo <= peers.Keys
        invariant forall i, j :: 0 <= i < j < |entries| ==> entries[i].0 != entries[j].0
        invariant forall k :: k in peers && k !in todo ==> (k, Oldest(peers[k])) in entries
        invariant forall e :: e in entries ==> e.0 in peers && e.0 !in todo && e.1 == Oldest(peers[e.0])
        decreases |todo|
      {
        var hash :| hash in todo;
        todo := todo - {hash};
        entries := entries + [(hash, Oldest(peers[hash]))];
      }
    }

    method OrderByOldest() returns (order: seq<Id>)
      requires NoEmptyList(peers)
      ensures ByOldest(peers, order)
    {
      var entries := OldestTimes();
      var sorted := Sort(entries, Earlier);
      SortedEntries(peers, entries, sorted);
      order := seq(|sorted|, i requires 0 <= i < |sorted| => sorted[i].0);
      EntriesOrder(peers, sorted, order);
    }

    /** Drain the lists in order until n peers are gone. */
    method Evict(order: seq<Id>, n: nat)
      modifies `peers
      ensures peers == Drain(old(peers), order, n)
    {
      var evicted, i := 0, 0;
      while i < |order| && evicted < n
        invariant i <= |order| && evicted <= n
        invariant Drain(peers, order[i..], n - evicted) == Drain(old(peers), order, n)
      {
        var hash := order[i];
        DrainRound(peers, order, i, n - evicted);
        if hash in peers {
          var list := Sort(peers[hash], OldestFirst);
          ghost var sorted, start := list, evicted;
          while list != [] && evicted < n
            invariant start <= evicted <= n && evicted - start <= |sorted|
            invariant list == sorted[evicted - start..]
          {
            list := list[1..];
            evicted := evicted + 1;
          }
          if list == [] {
            peers := peers - {hash};
          } else {
            peers := peers[hash := list];
          }
        }
        i := i + 1;
      }
    }

    method EvictOldest(n: nat)
      requires NoEmptyList(peers)
      modifies `peers
      ensures Drained(old(peers), peers, n)
    {
      var order := OrderByOldest();
      Evict(order, n);
      assert DrainedBy(old(peers), peers, order, n);
    }

    method EvictExcess(count: nat)
      requires NoEmptyList(peers) && count == Total(peers) > maxRememberedPeers
      modifies `peers
      ensures Capped(old(peers), peers, maxRememberedPeers)
    {
      EvictOldest(count - maxRememberedPeers);
      OverCap(old(peers), peers, maxRememberedPeers, count - maxRememberedPeers);
    }

    /** The cap over all hashes. */
    method EnforceCap()
      requires NoEmptyList(peers)
      modifies `peers
      ensures Capped(old(peers), peers, maxRememberedPeers)
    {
      var count := CountPeers();
      if count > maxRememberedPeers {
        EvictExcess(count);
      } else {
        WithinCap(peers, maxRememberedPeers);
      }
    }

    /** Token and peer cleanup, the cap per hash, and the cap over all. */
    method GarbageCollectPeers(now: int)
      modifies `tokens, `peers, `peersLen
      ensures tokens == FreshTokens(old(tokens), now - TOKEN_TTL)
      ensures Capped(CleanAll(old(peers), now - PEER_TTL), peers, maxRememberedPeers)
      ensures peersLen == Total(peers) <= maxRememberedPeers
      ensures old(PeersOk(peers, selfId, maxDistance, issued)) ==> PeersOk(peers, selfId, maxDistance, issued)
      ensures old(Valid()) ==> Valid() && Cleans(old(Snapshot()), Snapshot(), now)
    {
      ghost var before := peers;
      tokens := FreshTokens(tokens, now - TOKEN_TTL);
      CleanLists(now - PEER_TTL);
      ghost var kept := peers;
      EnforceCap();
      CappedTotal(kept, peers, maxRememberedPeers);
      peersLen := CountPeers();
      CleanAllShrinks(before, now - PEER_TTL);
      if PeersOk(before, selfId, maxDistance, issued) {
        CleanOk(before, now - PEER_TTL, selfId, maxDistance, issued);
        CappedOk(kept, peers, maxRememberedPeers, selfId, maxDistance, issued);
      }
    }
  }
}
