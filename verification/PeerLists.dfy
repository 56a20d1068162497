/**
  The peers remembered for info hashes, as values: what one garbage collection keeps
  (crates/librtbit-dht/src/peer_store.rs).
 */
module PeerLists {
  import opened Net
  import opened Ids
  import opened Sorting

  const MAX_PEERS_PER_INFO_HASH: nat := 100
  const MINUTE: int := 60 * SECOND
  const PEER_TTL: int := 15 * MINUTE
  const TOKEN_TTL: int := 10 * MINUTE

  datatype StoredPeer = StoredPeer(addr: SocketAddr, time: int)

  type Peers = map<Id, seq<StoredPeer>>

  predicate OldestFirst(a: StoredPeer, b: StoredPeer) {
    a.time <= b.time
  }

  predicate NewestFirst(a: StoredPeer, b: StoredPeer) {
    b.time <= a.time
  }

  lemma TimesAreOrders()
    ensures TotalPreorder(OldestFirst) && TotalPreorder(NewestFirst)
  {
  }

  // ---------- One list ----------

  /** The peers seen after the cutoff. */
  function Fresh(s: seq<StoredPeer>, cutoff: int): seq<StoredPeer> {
    if s == [] then []
    else Fresh(s[..|s| - 1], cutoff) + if s[|s| - 1].time > cutoff then [s[|s| - 1]] else []
  }

  /** What the collector makes of one list. */
  function Cleaned(s: seq<StoredPeer>, cutoff: int): seq<StoredPeer> {
    var recent := Fresh(s, cutoff);
    if |recent| > MAX_PEERS_PER_INFO_HASH then Sort(recent, NewestFirst)[..MAX_PEERS_PER_INFO_HASH] else recent
  }

  lemma {:induction false} FreshIs(s: seq<StoredPeer>, cutoff: int, x: StoredPeer)
    ensures multiset(Fresh(s, cutoff))[x] == if x.time > cutoff then multiset(s)[x] else 0
    ensures |Fresh(s, cutoff)| <= |s|
  {
    if s != [] {
      var n := |s| - 1;
      assert s == s[..n] + [s[n]];
      FreshIs(s[..n], cutoff, x);
      FreshLast(s[..n], s[n], cutoff);
      CountLast(s[..n], s[n], x);
      CountLast(Fresh(s[..n], cutoff), s[n], x);
    }
  }

  lemma FreshLast(s: seq<StoredPeer>, y: StoredPeer, cutoff: int)
    ensures Fresh(s + [y], cutoff) == Fresh(s, cutoff) + if y.time > cutoff then [y] else []
  {
    assert (s + [y])[..|s|] == s;
  }

  /** Part of a list, in any order. */
  ghost predicate PartOf(t: seq<StoredPeer>, s: seq<StoredPeer>) {
    multiset(t) <= multiset(s)
  }

  lemma FreshPartOf(s: seq<StoredPeer>, cutoff: int)
    ensures PartOf(Fresh(s, cutoff), s) && |Fresh(s, cutoff)| <= |s|
  {
    forall x ensures multiset(Fresh(s, cutoff))[x] <= multiset(s)[x] {
      FreshIs(s, cutoff, x);
    }
    FreshIs(s, cutoff, StoredPeer(V4(0, 0), 0));
  }

  /** The list keeps only recent peers, as many as fit, and none newer than one it keeps is lost. */
  lemma CleanedExact(s: seq<StoredPeer>, cutoff: int)
    ensures PartOf(Cleaned(s, cutoff), Fresh(s, cutoff)) && PartOf(Cleaned(s, cutoff), s)
    ensures |Cleaned(s, cutoff)| == if |Fresh(s, cutoff)| <= 100 then |Fresh(s, cutoff)| else 100
    ensures |Cleaned(s, cutoff)| <= |s|
    ensures forall x, y :: x in multiset(Fresh(s, cutoff)) - multiset(Cleaned(s, cutoff)) && y in Cleaned(s, cutoff)
                           ==> x.time <= y.time
  {
    var recent := Fresh(s, cutoff);
    FreshPartOf(s, cutoff);
    if |recent| > MAX_PEERS_PER_INFO_HASH {
      TruncateKeepsNewest(recent, Sort(recent, NewestFirst), MAX_PEERS_PER_INFO_HASH);
    }
  }

  lemma TruncateKeepsNewest(s: seq<StoredPeer>, t: seq<StoredPeer>, n: nat)
    requires t == Sort(s, NewestFirst) && n <= |s|
    ensures PartOf(t[..n], s)
    ensures forall x, y :: x in multiset(s) - multiset(t[..n]) && y in t[..n] ==> x.time <= y.time
  {
    SortedCut(s, t, n, NewestFirst);
    forall x, y | x in multiset(s) - multiset(t[..n]) && y in t[..n] ensures x.time <= y.time {
      assert x in multiset(t[n..]);
      assert NewestFirst(y, x);
    }
  }

  /** Dropping the head of the list by age: survivors are no older than what is dropped. */
  lemma DropKeepsNewest(s: seq<StoredPeer>, t: seq<StoredPeer>, n: nat)
    requires t == Sort(s, OldestFirst) && n <= |s|
    ensures PartOf(t[n..], s) && multiset(s) == multiset(t[..n]) + multiset(t[n..])
    ensures forall x, y :: x in t[..n] && y in t[n..] ==> x.time <= y.time
  {
    SortedCut(s, t, n, OldestFirst);
    forall x, y | x in t[..n] && y in t[n..] ensures x.time <= y.time {
      assert OldestFirst(x, y);
    }
  }

  lemma SortedCut(s: seq<StoredPeer>, t: seq<StoredPeer>, n: nat, le: (StoredPeer, StoredPeer) -> bool)
    requires t == Sort(s, le) && n <= |s| && (le == OldestFirst || le == NewestFirst)
    ensures multiset(s) == multiset(t[..n]) + multiset(t[n..])
    ensures forall x, y :: x in t[..n] && y in t[n..] ==> le(x, y)
  {
    TimesAreOrders();
    SortCorrect(s, le);
    CutSorted(t, n, le);
  }

  // ---------- Distinct addresses ----------

  ghost predicate DistinctAddrs(s: seq<StoredPeer>) {
    forall i, j :: 0 <= i < j < |s| ==> s[i].addr != s[j].addr
  }

  lemma PartIsDistinct(t: seq<StoredPeer>, s: seq<StoredPeer>)
    requires PartOf(t, s) && DistinctAddrs(s)
    ensures DistinctAddrs(t)
  {
    PartNoDuplicates(t, s);
    forall i, j | 0 <= i < j < |t| ensures t[i].addr != t[j].addr {
      PartMember(t, s, t[i]);
      PartMember(t, s, t[j]);
    }
  }

  lemma PartMember(t: seq<StoredPeer>, s: seq<StoredPeer>, x: StoredPeer)
    requires PartOf(t, s) && x in t
    ensures x in s
  {
    assert multiset(t)[x] > 0;
  }

  // ---------- All lists ----------

  ghost function Pick(m: Peers): (k: Id)
    requires m != map[]
    ensures k in m
  {
    assert exists k :: k in m by { assert m.Keys != {}; }
    var k :| k in m; k
  }

  /** How many peers are stored in all. */
  ghost function Total(m: Peers): nat
    decreases m.Keys
  {
    if m == map[] then 0 else var k := Pick(m); |m[k]| + Total(m - {k})
  }

  lemma {:induction false} TotalRemove(m: Peers, k: Id)
    requires k in m
    ensures Total(m) == |m[k]| + Total(m - {k})
    decreases m.Keys
  {
    var j := Pick(m);
    if j != k {
      TotalRemove(m - {j}, k);
      TotalRemove(m - {k}, j);
      assert m - {j} - {k} == m - {k} - {j};
    }
  }

  lemma TotalUpdate(m: Peers, k: Id, s: seq<StoredPeer>)
    ensures Total(m[k := s]) == |s| + Total(m - {k})
    ensures k in m ==> Total(m[k := s]) == Total(m) - |m[k]| + |s|
    ensures k !in m ==> Total(m[k := s]) == Total(m) + |s|
  {
    TotalRemove(m[k := s], k);
    assert m[k := s] - {k} == m - {k};
    if k in m {
      TotalRemove(m, k);
    } else {
      assert m - {k} == m;
    }
  }

  lemma {:induction false} TotalMonotone(a: Peers, b: Peers)
    requires a.Keys <= b.Keys && forall k :: k in a ==> |a[k]| <= |b[k]|
    ensures Total(a) <= Total(b)
    decreases b.Keys
  {
    if b != map[] {
      var k := Pick(b);
      TotalMonotone(a - {k}, b - {k});
      if k in a {
        TotalRemove(a, k);
      } else {
        assert a - {k} == a;
      }
    }
  }

  /** Every list cleaned; hashes left with no peer are forgotten. */
  ghost function CleanAll(m: Peers, cutoff: int): Peers {
    map k | k in m && Cleaned(m[k], cutoff) != [] :: Cleaned(m[k], cutoff)
  }

  lemma CleanAllShrinks(m: Peers, cutoff: int)
    ensures Total(CleanAll(m, cutoff)) <= Total(m)
  {
    forall k | k in CleanAll(m, cutoff) ensures |CleanAll(m, cutoff)[k]| <= |m[k]| {
      CleanedExact(m[k], cutoff);
    }
    TotalMonotone(CleanAll(m, cutoff), m);
  }

  lemma {:induction false} AllFresh(s: seq<StoredPeer>, cutoff: int)
    requires forall i :: 0 <= i < |s| ==> s[i].time > cutoff
    ensures Fresh(s, cutoff) == s
  {
    if s != [] {
      AllFresh(s[..|s| - 1], cutoff);
      assert s == s[..|s| - 1] + [s[|s| - 1]];
    }
  }

  /** Lists that are not too long and have no stale peer are kept as they are. */
  lemma NothingToClean(m: Peers, cutoff: int)
    requires forall k :: k in m ==> m[k] != [] && |m[k]| <= MAX_PEERS_PER_INFO_HASH
    requires forall k, i :: k in m && 0 <= i < |m[k]| ==> m[k][i].time > cutoff
    ensures CleanAll(m, cutoff) == m
  {
    forall k | k in m ensures Cleaned(m[k], cutoff) == m[k] {
      AllFresh(m[k], cutoff);
    }
  }

  // ---------- Evicting the excess ----------

  /** The oldest time in a list. */
  function Oldest(s: seq<StoredPeer>): (t: int)
    requires s != []
    ensures exists i :: 0 <= i < |s| && s[i].time == t
    ensures forall i :: 0 <= i < |s| ==> t <= s[i].time
  {
    if |s| == 1 then s[0].time
    else
      var rest := Oldest(s[..|s| - 1]);
      if s[|s| - 1].time < rest then s[|s| - 1].time else rest
  }

  /** An order of all hashes by their oldest peer. */
  ghost predicate ByOldest(m: Peers, order: seq<Id>) {
    && NoDuplicates(order)
    && (forall k :: k in order <==> k in m)
    && (forall k :: k in m ==> m[k] != [])
    && forall i, j :: 0 <= i < j < |order| ==> Oldest(m[order[i]]) <= Oldest(m[order[j]])
  }

  /** The eviction loop: lists are drained in the given order until n peers are gone. */
  function Drain(m: Peers, order: seq<Id>, n: nat): Peers {
    if n == 0 || order == [] then m
    else if order[0] !in m then Drain(m, order[1..], n)
    else
      var k := order[0];
      var s := Sort(m[k], OldestFirst);
      if n < |s| then m[k := s[n..]] else Drain(m - {k}, order[1..], n - |s|)
  }

  /** One round of the loop. */
  lemma DrainRound(m: Peers, order: seq<Id>, i: nat, n: nat)
    requires i < |order| && n > 0
    ensures Drain(m, order[i..], n)
            == if order[i] !in m then Drain(m, order[i + 1..], n)
               else
                 var s := Sort(m[order[i]], OldestFirst);
                 if n < |s| then Drain(m[order[i] := s[n..]], order[i + 1..], 0)
                 else Drain(m - {order[i]}, order[i + 1..], n - |s|)
  {
    assert order[i..][0] == order[i] && order[i..][1..] == order[i + 1..];
  }

  /** How many peers the listed hashes have. */
  ghost function TotalOf(m: Peers, order: seq<Id>): nat
    requires forall i :: 0 <= i < |order| ==> order[i] in m
  {
    if order == [] then 0 else |m[order[0]]| + TotalOf(m, order[1..])
  }

  lemma {:induction false} TotalOfWithout(m: Peers, order: seq<Id>, k: Id)
    requires k !in order && forall i :: 0 <= i < |order| ==> order[i] in m
    ensures (forall i :: 0 <= i < |order| ==> order[i] in m - {k}) && TotalOf(m - {k}, order) == TotalOf(m, order)
  {
    if order != [] {
      TotalOfWithout(m, order[1..], k);
    }
  }

  lemma {:induction false} TotalOfAll(m: Peers, order: seq<Id>)
    requires NoDuplicates(order) && forall k :: k in order <==> k in m
    ensures TotalOf(m, order) == Total(m)
  {
    if order == [] {
      assert m.Keys == {};
    } else {
      var k, rest := order[0], order[1..];
      TailKeys(m, order);
      TotalRemove(m, k);
      TotalOfWithout(m, rest, k);
      TotalOfAll(m - {k}, rest);
    }
  }

  lemma TailKeys(m: Peers, order: seq<Id>)
    requires order != [] && NoDuplicates(order) && forall i :: 0 <= i < |order| ==> order[i] in m
    ensures NoDuplicates(order[1..]) && order[0] !in order[1..]
    ensures forall i :: 0 <= i < |order[1..]| ==> order[1..][i] in m - {order[0]}
    ensures forall k :: k in order <==> k == order[0] || k in order[1..]
  {
    assert order == [order[0]] + order[1..];
  }

  /** Exactly n peers are evicted. */
  lemma {:induction false} DrainTotal(m: Peers, order: seq<Id>, n: nat)
    requires NoDuplicates(order) && (forall i :: 0 <= i < |order| ==> order[i] in m) && n <= TotalOf(m, order)
    ensures Total(Drain(m, order, n)) == Total(m) - n
    decreases |order|
  {
    if n > 0 && order != [] {
      var k, rest := order[0], order[1..];
      TotalUpdate(m, k, Sort(m[k], OldestFirst)[if n < |m[k]| then n else |m[k]|..]);
      if n >= |m[k]| {
        TailKeys(m, order);
        TotalRemove(m, k);
        TotalOfWithout(m, rest, k);
        DrainTotal(m - {k}, rest, n - |m[k]|);
      }
    }
  }

  /**
    The first c hashes lose everything, the next its r oldest peers, and the hashes after it
    nothing.
   */
  ghost predicate DrainedTo(m: Peers, order: seq<Id>, d: Peers, c: nat, r: nat) {
    && c <= |order| && (c == |order| ==> r == 0)
    && (forall i :: 0 <= i < c ==> order[i] !in d)
    && (forall i :: c <= i < |order| ==> order[i] in m && order[i] in d)
    && (c < |order| ==>
          && r < |m[order[c]]|
          && d[order[c]] == if r == 0 then m[order[c]] else Sort(m[order[c]], OldestFirst)[r..])
    && (forall i :: c < i < |order| ==> d[order[i]] == m[order[i]])
    && (forall k :: k !in order ==> (k in d <==> k in m) && (k in d ==> d[k] == m[k]))
  }

  ghost predicate HashesOf(m: Peers, order: seq<Id>) {
    NoDuplicates(order) && forall i :: 0 <= i < |order| ==> order[i] in m && m[order[i]] != []
  }

  /** Evicting n peers drains c hashes and takes r peers from the next. */
  ghost predicate Evicts(m: Peers, order: seq<Id>, n: nat, d: Peers, c: nat, r: nat)
    requires HashesOf(m, order)
  {
    DrainedTo(m, order, d, c, r) && n == TotalOf(m, order[..c]) + r
  }

  /** The eviction drains whole hashes in order, and at most one hash partly. */
  lemma {:induction false} DrainShape(m: Peers, order: seq<Id>, n: nat, d: Peers) returns (c: nat, r: nat)
    requires HashesOf(m, order) && n <= TotalOf(m, order) && d == Drain(m, order, n)
    ensures Evicts(m, order, n, d, c, r)
    decreases |order|
  {
    if order == [] {
      c, r := 0, 0;
    } else if n < |m[order[0]]| {
      c, r := 0, n;
      DrainFirst(m, order, n, d);
    } else {
      DrainNext(m, order, n);
      c, r := DrainShape(m - {order[0]}, order[1..], n - |m[order[0]]|, d);
      EvictsNext(m, order, n, d, c, r);
      c := c + 1;
    }
  }

  lemma DrainNext(m: Peers, order: seq<Id>, n: nat)
    requires HashesOf(m, order) && order != [] && |m[order[0]]| <= n <= TotalOf(m, order)
    ensures HashesOf(m - {order[0]}, order[1..])
    ensures n - |m[order[0]]| <= TotalOf(m - {order[0]}, order[1..])
    ensures Drain(m, order, n) == Drain(m - {order[0]}, order[1..], n - |m[order[0]]|)
  {
    TailKeys(m, order);
    TotalOfWithout(m, order[1..], order[0]);
  }

  lemma EvictsNext(m: Peers, order: seq<Id>, n: nat, d: Peers, c: nat, r: nat)
    requires HashesOf(m, order) && order != [] && |m[order[0]]| <= n
    requires HashesOf(m - {order[0]}, order[1..])
    requires Evicts(m - {order[0]}, order[1..], n - |m[order[0]]|, d, c, r)
    ensures Evicts(m, order, n, d, c + 1, r)
  {
    DrainedStep(m, order, d, c, r);
    CountStep(m, order, c);
  }

  lemma DrainFirst(m: Peers, order: seq<Id>, n: nat, d: Peers)
    requires HashesOf(m, order) && order != [] && n < |m[order[0]]| && d == Drain(m, order, n)
    ensures Evicts(m, order, n, d, 0, n)
  {
  }

  lemma CountStep(m: Peers, order: seq<Id>, c: nat)
    requires order != [] && c < |order| && NoDuplicates(order) && (forall i :: 0 <= i < |order| ==> order[i] in m)
    ensures forall i :: 0 <= i < c ==> order[1..][..c][i] in m - {order[0]}
    ensures TotalOf(m, order[..c + 1]) == |m[order[0]]| + TotalOf(m - {order[0]}, order[1..][..c])
  {
    var rest := order[1..];
    TailKeys(m, order);
    TotalOfWithout(m, rest[..c], order[0]);
    assert order[..c + 1][1..] == rest[..c];
  }

  lemma DrainedStep(m: Peers, order: seq<Id>, d: Peers, c: nat, r: nat)
    requires order != [] && NoDuplicates(order) && order[0] in m
    requires DrainedTo(m - {order[0]}, order[1..], d, c, r)
    ensures DrainedTo(m, order, d, c + 1, r)
  {
    var rest := order[1..];
    assert forall i :: 0 < i < |order| ==> order[i] == rest[i - 1];
    assert order[0] !in rest;
  }

  /** Every list that is left is part of the list it was. */
  lemma DrainParts(m: Peers, order: seq<Id>, n: nat, d: Peers, k: Id)
    requires HashesOf(m, order) && n <= TotalOf(m, order) && d == Drain(m, order, n) && k in d
    ensures k in m && PartOf(d[k], m[k]) && (m[k] != [] ==> d[k] != [])
  {
    var c, r := DrainShape(m, order, n, d);
    if k in order {
      var i :| 0 <= i < |order| && order[i] == k;
      DropKeepsNewest(m[k], Sort(m[k], OldestFirst), if i == c then r else 0);
    }
  }

  /** A peer of a hash was evicted. */
  ghost predicate Gone(m: Peers, d: Peers, hash: Id, x: StoredPeer) {
    hash in m && multiset(m[hash])[x] > if hash in d then multiset(d[hash])[x] else 0
  }

  /** No evicted peer is newer than one that stays. */
  ghost predicate OldestGoFirst(m: Peers, d: Peers) {
    forall h, x, k, y :: Gone(m, d, h, x) && k in d && y in d[k] ==> x.time <= y.time
  }

  /** The hashes' times do not interleave. */
  ghost predicate Separated(m: Peers, order: seq<Id>)
    requires HashesOf(m, order)
  {
    forall i, j, x, y :: 0 <= i < j < |order| && x in m[order[i]] && y in m[order[j]] ==> x.time <= y.time
  }

  ghost predicate AllOf(m: Peers, order: seq<Id>) {
    HashesOf(m, order) && forall k :: k in m ==> k in order
  }

  /** Which of its peers a hash has lost: all, the oldest r, or none. */
  lemma GoneFrom(m: Peers, order: seq<Id>, d: Peers, c: nat, r: nat, i: nat, x: StoredPeer)
    requires HashesOf(m, order) && DrainedTo(m, order, d, c, r) && i < |order| && Gone(m, d, order[i], x)
    ensures i <= c && x in m[order[i]]
    ensures i == c ==> x in Sort(m[order[c]], OldestFirst)[..r]
  {
    assert x in multiset(m[order[i]]);
    if i == c && r > 0 {
      DropKeepsNewest(m[order[c]], Sort(m[order[c]], OldestFirst), r);
      assert multiset(Sort(m[order[c]], OldestFirst)[..r])[x] > 0;
    }
  }

  /** Which of its peers a hash still has. */
  lemma LeftIn(m: Peers, order: seq<Id>, d: Peers, c: nat, r: nat, j: nat, y: StoredPeer)
    requires HashesOf(m, order) && DrainedTo(m, order, d, c, r) && j < |order| && order[j] in d && y in d[order[j]]
    ensures c <= j && y in m[order[j]]
    ensures j == c && r > 0 ==> y in Sort(m[order[c]], OldestFirst)[r..]
  {
    if j == c && r > 0 {
      DropKeepsNewest(m[order[c]], Sort(m[order[c]], OldestFirst), r);
      PartMember(d[order[j]], m[order[j]], y);
    }
  }

  lemma SeparatedGoInOrder(m: Peers, order: seq<Id>, n: nat, d: Peers)
    requires AllOf(m, order) && Separated(m, order) && n <= TotalOf(m, order) && d == Drain(m, order, n)
    ensures OldestGoFirst(m, d)
  {
    var c, r := DrainShape(m, order, n, d);
    forall h, x, k, y | Gone(m, d, h, x) && k in d && y in d[k] ensures x.time <= y.time {
      DrainParts(m, order, n, d, k);
      var i :| 0 <= i < |order| && order[i] == h;
      var j :| 0 <= j < |order| && order[j] == k;
      GoneFrom(m, order, d, c, r, i, x);
      LeftIn(m, order, d, c, r, j, y);
      if i == j {
        DropKeepsNewest(m[order[c]], Sort(m[order[c]], OldestFirst), r);
      }
    }
  }

  lemma PrefixStep(m: Peers, order: seq<Id>, a: nat)
    requires HashesOf(m, order) && a < |order|
    ensures TotalOf(m, order[..a + 1]) == TotalOf(m, order[..a]) + |m[order[a]]|
  {
    TotalOfAppend(m, order[..a], order[a]);
    assert order[..a + 1] == order[..a] + [order[a]];
  }

  lemma {:induction false} TotalOfAppend(m: Peers, order: seq<Id>, k: Id)
    requires k in m && forall i :: 0 <= i < |order| ==> order[i] in m
    ensures TotalOf(m, order + [k]) == TotalOf(m, order) + |m[k]|
  {
    if order == [] {
      assert ([] + [k])[1..] == [];
    } else {
      TotalOfAppend(m, order[1..], k);
      assert (order + [k])[1..] == order[1..] + [k];
    }
  }

  lemma {:induction false} PrefixGrows(m: Peers, order: seq<Id>, a: nat, b: nat)
    requires HashesOf(m, order) && a < b <= |order|
    ensures TotalOf(m, order[..a]) + |m[order[a]]| <= TotalOf(m, order[..b])
  {
    PrefixStep(m, order, b - 1);
    if a < b - 1 {
      PrefixGrows(m, order, a, b - 1);
    }
  }

  /** Evicting what the first hashes hold empties exactly these. */
  lemma DrainWhole(m: Peers, order: seq<Id>, a: nat, d: Peers)
    requires HashesOf(m, order) && a <= |order| && TotalOf(m, order[..a]) <= TotalOf(m, order)
    requires d == Drain(m, order, TotalOf(m, order[..a]))
    ensures DrainedTo(m, order, d, a, 0)
  {
    var c, r := DrainShape(m, order, TotalOf(m, order[..a]), d);
    if c < a {
      PrefixGrows(m, order, c, a);
    } else if a < c {
      PrefixGrows(m, order, a, c);
    }
  }

  /**
    Oldest peers go first under every number of evictions exactly when no hash has a peer newer
    than some peer of a hash drained later.
   */
  lemma OldestGoFirstIff(m: Peers, order: seq<Id>)
    requires AllOf(m, order)
    ensures AlwaysOldestFirst(m, order) <==> Separated(m, order)
  {
    if Separated(m, order) {
      SeparatedIsEnough(m, order);
    }
    if AlwaysOldestFirst(m, order) {
      SeparatedIsNeeded(m, order);
    }
  }

  ghost predicate AlwaysOldestFirst(m: Peers, order: seq<Id>)
    requires HashesOf(m, order)
  {
    forall n :: 0 <= n <= TotalOf(m, order) ==> OldestGoFirst(m, Drain(m, order, n))
  }

  lemma SeparatedIsEnough(m: Peers, order: seq<Id>)
    requires AllOf(m, order) && Separated(m, order)
    ensures AlwaysOldestFirst(m, order)
  {
    forall n | 0 <= n <= TotalOf(m, order) ensures OldestGoFirst(m, Drain(m, order, n)) {
      SeparatedGoInOrder(m, order, n, Drain(m, order, n));
    }
  }

  lemma SeparatedIsNeeded(m: Peers, order: seq<Id>)
    requires HashesOf(m, order) && AlwaysOldestFirst(m, order)
    ensures Separated(m, order)
  {
    forall i, j, x, y | 0 <= i < j < |order| && x in m[order[i]] && y in m[order[j]] ensures x.time <= y.time {
      EvictionShows(m, order, i, j, x, y);
    }
  }

  /** Draining up to hash i shows the order of its peers and those of hash j. */
  lemma EvictionShows(m: Peers, order: seq<Id>, i: nat, j: nat, x: StoredPeer, y: StoredPeer)
    requires HashesOf(m, order) && i < j < |order| && x in m[order[i]] && y in m[order[j]]
    requires AlwaysOldestFirst(m, order)
    ensures x.time <= y.time
  {
    var n := TotalOf(m, order[..i + 1]);
    PrefixGrows(m, order, i + 1, |order|);
    assert order[..|order|] == order;
    var d := Drain(m, order, n);
    DrainWhole(m, order, i + 1, d);
    assert Gone(m, d, order[i], x);
    assert d[order[j]] == m[order[j]];
  }

  // ---------- The order of one eviction ----------

  /** The peers in the order in which they would go. */
  function Listing(m: Peers, order: seq<Id>): seq<StoredPeer> {
    if order == [] then []
    else (if order[0] in m then Sort(m[order[0]], OldestFirst) else []) + Listing(m, order[1..])
  }

  lemma {:induction false} ListingWithout(m: Peers, order: seq<Id>, k: Id)
    requires k !in order
    ensures Listing(m - {k}, order) == Listing(m, order)
  {
    if order != [] {
      ListingWithout(m, order[1..], k);
    }
  }

  ghost predicate GoneSomewhere(m: Peers, d: Peers, x: StoredPeer) {
    exists h :: Gone(m, d, h, x)
  }

  ghost predicate LeftSomewhere(d: Peers, y: StoredPeer) {
    exists k :: k in d && y in d[k]
  }

  /** What is in the lists is what the listing holds. */
  lemma {:induction false} ListingHolds(m: Peers, order: seq<Id>, y: StoredPeer)
    requires AllOf(m, order)
    ensures LeftSomewhere(m, y) <==> y in Listing(m, order)
  {
    if order == [] {
      assert m.Keys == {};
    } else {
      var k, rest := order[0], order[1..];
      TailAllOf(m, order);
      ListingHolds(m - {k}, rest, y);
      ListingWithout(m, rest, k);
      SortHolds(m[k], y);
      if LeftSomewhere(m, y) && y !in m[k] {
        var h :| h in m && y in m[h];
        assert h in m - {k};
      }
      if LeftSomewhere(m - {k}, y) {
        var h :| h in m - {k} && y in (m - {k})[h];
        assert y in m[h];
      }
    }
  }

  lemma SortHolds(s: seq<StoredPeer>, y: StoredPeer)
    ensures y in Sort(s, OldestFirst) <==> y in s
  {
    TimesAreOrders();
    SortCorrect(s, OldestFirst);
    SameElements(Sort(s, OldestFirst), s);
  }

  lemma TailAllOf(m: Peers, order: seq<Id>)
    requires AllOf(m, order) && order != []
    ensures AllOf(m - {order[0]}, order[1..]) && order[0] !in order[1..]
  {
    assert order == [order[0]] + order[1..];
  }

  /** As for x, the first n of the listing are gone and the others are left. */
  ghost predicate EvictedInOrder(m: Peers, d: Peers, listing: seq<StoredPeer>, n: nat, x: StoredPeer) {
    && n <= |listing|
    && (GoneSomewhere(m, d, x) <==> x in listing[..n])
    && (LeftSomewhere(d, x) <==> x in listing[n..])
  }

  /** An eviction of n peers takes the first n of the listing and leaves the others. */
  lemma {:induction false} EvictsListing(m: Peers, order: seq<Id>, n: nat, d: Peers, x: StoredPeer)
    requires AllOf(m, order) && n <= TotalOf(m, order) && d == Drain(m, order, n)
    ensures EvictedInOrder(m, d, Listing(m, order), n, x)
    decreases |order|
  {
    if order == [] || n == 0 {
      ListingHolds(m, order, x);
    } else if n < |m[order[0]]| {
      EvictsFirst(m, order, n, d, x, Sort(m[order[0]], OldestFirst), Listing(m, order[1..]));
    } else {
      var k, rest := order[0], order[1..];
      DrainNext(m, order, n);
      TailAllOf(m, order);
      EvictsListing(m - {k}, rest, n - |m[k]|, d, x);
      ListingWithout(m, rest, k);
      EvictsOn(m, order, n, d, x, Sort(m[k], OldestFirst), Listing(m, rest));
    }
  }

  /** The first hash loses its oldest peers. */
  lemma EvictsFirst(m: Peers, order: seq<Id>, n: nat, d: Peers, x: StoredPeer,
                    t: seq<StoredPeer>, rest: seq<StoredPeer>)
    requires AllOf(m, order) && order != [] && 0 < n < |m[order[0]]| && d == Drain(m, order, n)
    requires t == Sort(m[order[0]], OldestFirst) && rest == Listing(m, order[1..])
    ensures EvictedInOrder(m, d, t + rest, n, x)
  {
    var k := order[0];
    DropKeepsNewest(m[k], t, n);
    GoneFromOne(m, d, k, t, n, x);
    TailAllOf(m, order);
    ListingHolds(m - {k}, order[1..], x);
    ListingWithout(m, order[1..], k);
    LeftInOne(m, d, k, t[n..], x);
    CutJoined(t, rest, n);
  }

  lemma GoneFromOne(m: Peers, d: Peers, k: Id, t: seq<StoredPeer>, n: nat, x: StoredPeer)
    requires k in m && n <= |t| && multiset(m[k]) == multiset(t[..n]) + multiset(t[n..]) && d == m[k := t[n..]]
    ensures GoneSomewhere(m, d, x) <==> x in t[..n]
  {
    if GoneSomewhere(m, d, x) {
      var h :| Gone(m, d, h, x);
      assert h == k;
      assert multiset(t[..n])[x] > 0;
    }
    if x in t[..n] {
      assert multiset(t[..n])[x] > 0;
      assert Gone(m, d, k, x);
    }
  }

  lemma LeftInOne(m: Peers, d: Peers, k: Id, s: seq<StoredPeer>, x: StoredPeer)
    requires k in m && d == m[k := s]
    ensures LeftSomewhere(d, x) <==> x in s || LeftSomewhere(m - {k}, x)
  {
    if LeftSomewhere(d, x) && x !in s {
      var h :| h in d && x in d[h];
      assert h in m - {k} && x in (m - {k})[h];
    }
    if LeftSomewhere(m - {k}, x) {
      var h :| h in m - {k} && x in (m - {k})[h];
      assert h in d && x in d[h];
    }
    if x in s {
      assert k in d && x in d[k];
    }
  }

  /** The first hash goes, and the eviction goes on. */
  lemma EvictsOn(m: Peers, order: seq<Id>, n: nat, d: Peers, x: StoredPeer,
                 t: seq<StoredPeer>, rest: seq<StoredPeer>)
    requires AllOf(m, order) && order != [] && |m[order[0]]| <= n <= TotalOf(m, order) && d == Drain(m, order, n)
    requires t == Sort(m[order[0]], OldestFirst)
    requires EvictedInOrder(m - {order[0]}, d, rest, n - |m[order[0]]|, x)
    ensures EvictedInOrder(m, d, t + rest, n, x)
  {
    SortHolds(m[order[0]], x);
    GoneWithFirst(m, order, n, d, x);
    CutJoined(t, rest, n);
  }

  lemma GoneWithFirst(m: Peers, order: seq<Id>, n: nat, d: Peers, x: StoredPeer)
    requires AllOf(m, order) && order != [] && |m[order[0]]| <= n <= TotalOf(m, order) && d == Drain(m, order, n)
    ensures GoneSomewhere(m, d, x) <==> x in m[order[0]] || GoneSomewhere(m - {order[0]}, d, x)
  {
    var k := order[0];
    DrainNext(m, order, n);
    TailAllOf(m, order);
    if k in d { DrainParts(m - {k}, order[1..], n - |m[k]|, d, k); }
    assert x in m[k] ==> multiset(m[k])[x] > 0;
    if x in m[k] { assert Gone(m, d, k, x); }
    if GoneSomewhere(m - {k}, d, x) {
      var h :| Gone(m - {k}, d, h, x);
      assert Gone(m, d, h, x);
    }
    if GoneSomewhere(m, d, x) && x !in m[k] {
      var h :| Gone(m, d, h, x);
      assert multiset(m[h])[x] > 0;
      assert Gone(m - {k}, d, h, x);
    }
  }

  /** In the listing, none of the first n is newer than one after them. */
  ghost predicate SplitByAge(s: seq<StoredPeer>, n: nat)
    requires n <= |s|
  {
    forall x, y :: x in s[..n] && y in s[n..] ==> x.time <= y.time
  }

  /** One eviction takes the oldest peers exactly when the listing has them first. */
  lemma OldestGoFirstNowIff(m: Peers, order: seq<Id>, n: nat)
    requires AllOf(m, order) && n <= TotalOf(m, order)
    ensures n <= |Listing(m, order)|
    ensures OldestGoFirst(m, Drain(m, order, n)) <==> SplitByAge(Listing(m, order), n)
  {
    var d, s := Drain(m, order, n), Listing(m, order);
    forall x ensures EvictedInOrder(m, d, s, n, x) { EvictsListing(m, order, n, d, x); }
    assert EvictedInOrder(m, d, s, n, StoredPeer(V4(0, 0), 0));
    InOrderIff(m, d, s, n);
  }

  lemma InOrderIff(m: Peers, d: Peers, s: seq<StoredPeer>, n: nat)
    requires n <= |s| && forall x :: EvictedInOrder(m, d, s, n, x)
    ensures OldestGoFirst(m, d) <==> SplitByAge(s, n)
  {
    if SplitByAge(s, n) {
      forall h, x: StoredPeer, k, y: StoredPeer | Gone(m, d, h, x) && k in d && y in d[k] ensures x.time <= y.time {
        assert EvictedInOrder(m, d, s, n, x) && EvictedInOrder(m, d, s, n, y);
        assert GoneSomewhere(m, d, x) && LeftSomewhere(d, y);
      }
    }
    if OldestGoFirst(m, d) {
      forall x, y | x in s[..n] && y in s[n..] ensures x.time <= y.time {
        assert EvictedInOrder(m, d, s, n, x) && EvictedInOrder(m, d, s, n, y);
        var h :| Gone(m, d, h, x);
        var k :| k in d && y in d[k];
      }
    }
  }
}
