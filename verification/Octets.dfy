/** Bytes, byte strings and their order. */
module Octets {

  type Byte = b: int | 0 <= b < 256

  type Bytes = seq<Byte>

  /** The order of byte vectors of any length: lexicographic, a prefix before its extensions. */
  predicate LexLess(a: Bytes, b: Bytes) {
    b != [] && (a == [] || a[0] < b[0] || (a[0] == b[0] && LexLess(a[1..], b[1..])))
  }

  lemma {:induction false} LexTotal(a: Bytes, b: Bytes)
    ensures LexLess(a, b) || LexLess(b, a) || a == b
    ensures !(LexLess(a, b) && LexLess(b, a))
    ensures !LexLess(a, a)
  {
    if a != [] { LexIrreflexive(a); }
    if a != [] && b != [] {
      LexTotal(a[1..], b[1..]);
      assert a == [a[0]] + a[1..] && b == [b[0]] + b[1..];
    }
  }

  lemma {:induction false} LexIrreflexive(a: Bytes)
    ensures !LexLess(a, a)
  {
    if a != [] { LexIrreflexive(a[1..]); }
  }

  lemma {:induction false} LexTransitive(a: Bytes, b: Bytes, c: Bytes)
    requires LexLess(a, b) && LexLess(b, c)
    ensures LexLess(a, c)
  {
    if a != [] && a[0] == b[0] && b[0] == c[0] { LexTransitive(a[1..], b[1..], c[1..]); }
  }

  /** k is the least of the given keys. */
  predicate IsLeast(k: Bytes, keys: set<Bytes>) {
    k in keys && forall x :: x in keys && x != k ==> LexLess(k, x)
  }

  lemma {:induction false} LeastExists(keys: set<Bytes>)
    requires keys != {}
    ensures exists k :: IsLeast(k, keys)
  {
    var k :| k in keys;
    if keys == {k} {
      assert IsLeast(k, keys);
    } else {
      assert keys - {k} != {} by { assert keys == {k} + (keys - {k}); }
      LeastExists(keys - {k});
      var m :| IsLeast(m, keys - {k});
      LexTotal(m, k);
      if LexLess(k, m) {
        forall x | x in keys && x != k ensures LexLess(k, x) {
          if x != m { LexTransitive(k, m, x); }
        }
        assert IsLeast(k, keys);
      } else {
        assert IsLeast(m, keys);
      }
    }
  }

  lemma LeastUnique(k: Bytes, k': Bytes, keys: set<Bytes>)
    requires IsLeast(k, keys) && IsLeast(k', keys)
    ensures k == k'
  {
    LexTotal(k, k');
  }

  /** The keys in ascending order. */
  ghost function SortedKeys(keys: set<Bytes>): (r: seq<Bytes>)
    ensures forall k :: k in r <==> k in keys
    ensures keys == {} <==> r == []
  {
    if keys == {} then []
    else
      LeastExists(keys);
      var k :| IsLeast(k, keys);
      [k] + SortedKeys(keys - {k})
  }

  ghost predicate StrictlyAscending(s: seq<Bytes>) {
    forall i, j :: 0 <= i < j < |s| ==> LexLess(s[i], s[j])
  }

  lemma {:induction false} SortedKeysAscend(keys: set<Bytes>)
    ensures StrictlyAscending(SortedKeys(keys))
  {
    if keys != {} {
      var r := SortedKeys(keys);
      var k := r[0];
      SortedKeysAscend(keys - {k});
      forall i | 0 < i < |r| ensures LexLess(k, r[i]) {
        assert r[i] == SortedKeys(keys - {k})[i - 1];
      }
    }
  }

  lemma FirstSortedKey(k: Bytes, keys: set<Bytes>)
    requires IsLeast(k, keys)
    ensures SortedKeys(keys) == [k] + SortedKeys(keys - {k})
  {
    var r := SortedKeys(keys);
    forall x | IsLeast(x, keys) ensures x == k { LeastUnique(x, k, keys); }
  }
}
