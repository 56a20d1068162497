/**
  The stable sort of the standard library, given by a definition: elements are inserted one
  by one, each after every element that is not greater.
 */
module Sorting {

  ghost predicate TotalPreorder<T(!new)>(le: (T, T) -> bool) {
    && (forall x, y :: le(x, y) || le(y, x))
    && (forall x, y, z :: le(x, y) && le(y, z) ==> le(x, z))
  }

  predicate SortedBy<T>(s: seq<T>, le: (T, T) -> bool) {
    forall i, j :: 0 <= i < j < |s| ==> le(s[i], s[j])
  }

  function Insert<T>(s: seq<T>, x: T, le: (T, T) -> bool): (r: seq<T>)
    ensures |r| == |s| + 1
  {
    if s == [] || le(s[|s| - 1], x) then s + [x]
    else Insert(s[..|s| - 1], x, le) + [s[|s| - 1]]
  }

  function Sort<T>(s: seq<T>, le: (T, T) -> bool): (r: seq<T>)
    ensures |r| == |s|
  {
    if s == [] then [] else Insert(Sort(s[..|s| - 1], le), s[|s| - 1], le)
  }

  lemma AppendOne<T>(s: seq<T>, x: T)
    ensures multiset(s + [x]) == multiset(s) + multiset{x}
  {
  }

  lemma Exchange<T>(m: multiset<T>, x: T, y: T)
    ensures m + multiset{x} + multiset{y} == m + multiset{y} + multiset{x}
  {
  }

  lemma {:induction false} InsertPermutes<T>(s: seq<T>, x: T, le: (T, T) -> bool)
    ensures multiset(Insert(s, x, le)) == multiset(s) + multiset{x}
  {
    if s != [] && !le(s[|s| - 1], x) {
      var n := |s| - 1;
      InsertPermutes(s[..n], x, le);
      AppendOne(Insert(s[..n], x, le), s[n]);
      AppendOne(s[..n], s[n]);
      assert s == s[..n] + [s[n]];
      Exchange(multiset(s[..n]), x, s[n]);
    } else {
      AppendOne(s, x);
    }
  }

  lemma {:induction false} InsertSorts<T(!new)>(s: seq<T>, x: T, le: (T, T) -> bool)
    requires TotalPreorder(le) && SortedBy(s, le)
    ensures SortedBy(Insert(s, x, le), le)
  {
    if s != [] {
      var n := |s| - 1;
      if le(s[n], x) {
        assert forall i :: 0 <= i < n ==> le(s[i], s[n]);
      } else {
        InsertSorts(s[..n], x, le);
        InsertPermutes(s[..n], x, le);
        var r := Insert(s[..n], x, le);
        forall i | 0 <= i < |r| ensures le(r[i], s[n]) {
          assert r[i] in multiset(r);
        }
      }
    }
  }

  /** Sorting rearranges its input into ascending order. */
  lemma {:induction false} SortCorrect<T(!new)>(s: seq<T>, le: (T, T) -> bool)
    requires TotalPreorder(le)
    ensures SortedBy(Sort(s, le), le) && multiset(Sort(s, le)) == multiset(s)
  {
    if s != [] {
      var n := |s| - 1;
      SortCorrect(s[..n], le);
      InsertSorts(Sort(s[..n], le), s[n], le);
      InsertPermutes(Sort(s[..n], le), s[n], le);
      assert s == s[..n] + [s[n]];
    }
  }

  /** Cutting a sorted sequence separates its elements. */
  lemma CutSorted<T>(t: seq<T>, n: nat, le: (T, T) -> bool)
    requires SortedBy(t, le) && n <= |t|
    ensures multiset(t) == multiset(t[..n]) + multiset(t[n..])
    ensures forall x, y :: x in t[..n] && y in t[n..] ==> le(x, y)
  {
    assert t == t[..n] + t[n..];
    forall x, y | x in t[..n] && y in t[n..] ensures le(x, y) {
      var i :| 0 <= i < n && t[..n][i] == x;
      var j :| 0 <= j < |t| - n && t[n..][j] == y;
      assert t[i] == x && t[n + j] == y;
    }
  }

  /** The last of a sorted sequence is the greatest. */
  lemma CutLast<T>(t: seq<T>, n: nat, le: (T, T) -> bool)
    requires SortedBy(t, le) && |t| == n + 1
    ensures SortedBy(t[..n], le) && multiset(t) == multiset(t[..n]) + multiset{t[n]}
    ensures forall x :: x in t[..n] ==> le(x, t[n])
  {
    assert t == t[..n] + [t[n]];
  }

  lemma CountLast<T>(s: seq<T>, y: T, x: T)
    ensures multiset(s + [y])[x] == multiset(s)[x] + if x == y then 1 else 0
  {
  }

  /** Cutting a concatenation inside its first and inside its second part. */
  lemma CutJoined<T>(s: seq<T>, t: seq<T>, n: nat)
    requires n <= |s + t|
    ensures n <= |s| ==> (s + t)[..n] == s[..n] && (s + t)[n..] == s[n..] + t
    ensures n >= |s| ==> (s + t)[..n] == s + t[..n - |s|] && (s + t)[n..] == t[n - |s|..]
  {
  }

  ghost predicate NoDuplicates<T>(s: seq<T>) {
    forall i, j :: 0 <= i < j < |s| ==> s[i] != s[j]
  }

  lemma {:induction false} Once<T>(s: seq<T>, x: T)
    requires NoDuplicates(s)
    ensures multiset(s)[x] <= 1
  {
    if s != [] {
      var n := |s| - 1;
      Once(s[..n], x);
      assert s == s[..n] + [s[n]];
      assert s[n] !in s[..n];
    }
  }

  lemma Twice<T>(s: seq<T>, i: nat, j: nat)
    requires i < j < |s| && s[i] == s[j]
    ensures multiset(s)[s[i]] >= 2
  {
    assert s == s[..j] + [s[j]] + s[j + 1..];
    assert s[i] in s[..j];
  }

  /** Part of a sequence without duplicates has none either, in any order. */
  lemma PartNoDuplicates<T>(t: seq<T>, s: seq<T>)
    requires multiset(t) <= multiset(s) && NoDuplicates(s)
    ensures NoDuplicates(t)
  {
    forall i, j | 0 <= i < j < |t| ensures t[i] != t[j] {
      if t[i] == t[j] {
        Twice(t, i, j);
        Once(s, t[i]);
      }
    }
  }

  /** Membership and indices of two sequences with the same elements. */
  lemma SameElements<T>(s: seq<T>, t: seq<T>)
    requires multiset(s) == multiset(t)
    ensures |s| == |t|
    ensures forall x :: x in s <==> x in t
  {
    assert |multiset(s)| == |multiset(t)|;
    forall x ensures x in s <==> x in t {
      assert x in s <==> x in multiset(s);
      assert x in t <==> x in multiset(t);
    }
  }
}
