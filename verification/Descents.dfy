/**
  Loops that end because every round does its work at some level: it lowers the load of that level,
  leaves the levels before it alone, and may pile any load on those after it.
 */
module Descents {

  /** The state n rounds after round r, when round k takes a state x to f(x, k). */
  ghost function Iterate<S>(f: (S, nat) -> S, s: S, r: nat, n: nat): S {
    if n == 0 then s else f(Iterate(f, s, r, n - 1), r + n)
  }

  ghost predicate Reaches<S(!new)>(f: (S, nat) -> S, s: S, r: nat, n: nat, t: S) {
    Iterate(f, s, r, n) == t
  }

  lemma ReachesNext<S(!new)>(f: (S, nat) -> S, s: S, r: nat, n: nat, t: S, k: nat)
    requires Reaches(f, s, r, n, t) && k == r + n + 1
    ensures Reaches(f, s, r, n + 1, f(t, k))
  {
  }

  lemma {:induction false} ReachesOn<S(!new)>(f: (S, nat) -> S, s: S, r: nat, n: nat, t: S, m: nat, u: S)
    requires Reaches(f, s, r, n, t) && Reaches(f, t, r + n, m, u)
    ensures Reaches(f, s, r, n + m, u)
    decreases m
  {
    if m > 0 {
      var v := Iterate(f, t, r + n, m - 1);
      ReachesOn(f, s, r, n, t, m - 1, v);
      ReachesNext(f, s, r, n + m - 1, v, r + n + m);
    }
  }

  datatype Descent<!S> = Descent(
    round: (S, nat) -> S,
    inv: S -> bool,
    done: S -> bool,
    level: (S, nat) -> nat,
    load: (S, nat) -> nat,
    top: nat)

  ghost predicate SameBelow<S(!new)>(d: Descent<S>, s: S, t: S, level: nat) {
    forall l :: 0 <= l < level ==> d.load(t, l) == d.load(s, l)
  }

  /** What a round does in a state that is not done. */
  ghost predicate Lowers<S(!new)>(d: Descent<S>, s: S, k: nat) {
    var t, l := d.round(s, k), d.level(s, k);
    d.inv(t) && l <= d.top && d.load(t, l) < d.load(s, l) && SameBelow(d, s, t, l)
  }

  ghost predicate Descends<S(!new)>(d: Descent<S>) {
    forall s, k: nat :: d.inv(s) && !d.done(s) ==> Lowers(d, s, k)
  }

  /** In n rounds the loop comes to a state that is done or works below the given level next. */
  ghost predicate Settles<S(!new)>(d: Descent<S>, s: S, r: nat, level: nat, n: nat, t: S) {
    && Reaches(d.round, s, r, n, t) && d.inv(t) && SameBelow(d, s, t, level)
    && (d.done(t) || d.level(t, r + n + 1) < level)
  }

  ghost predicate CanSettle<S(!new)>(d: Descent<S>, s: S, r: nat, level: nat) {
    exists n: nat, t: S :: Settles(d, s, r, level, n, t)
  }

  lemma SettlesLater<S(!new)>(d: Descent<S>, s: S, r: nat, level: nat, n: nat, t: S)
    requires Reaches(d.round, s, r, n, t) && SameBelow(d, s, t, level) && CanSettle(d, t, r + n, level)
    ensures CanSettle(d, s, r, level)
  {
    var m: nat, u: S :| Settles(d, t, r + n, level, m, u);
    ReachesOn(d.round, s, r, n, t, m, u);
    assert Settles(d, s, r, level, n + m, u);
  }

  /** By induction from the top level down, and at each level on its load. */
  lemma {:induction false} Settle<S(!new)>(d: Descent<S>, s: S, r: nat, level: nat)
    requires Descends(d) && d.inv(s) && level <= d.top + 1
    ensures CanSettle(d, s, r, level)
    decreases d.top + 1 - level, d.load(s, level)
  {
    if level == d.top + 1 {
      assert d.done(s) || Lowers(d, s, r + 1);
      assert Settles(d, s, r, level, 0, s);
    } else {
      Settle(d, s, r, level + 1);
      var n: nat, t: S :| Settles(d, s, r, level + 1, n, t);
      if d.done(t) || d.level(t, r + n + 1) < level {
        assert Settles(d, s, r, level, n, t);
      } else {
        var u := d.round(t, r + n + 1);
        assert Lowers(d, t, r + n + 1);
        ReachesNext(d.round, s, r, n, t, r + n + 1);
        Settle(d, u, r + n + 1, level);
        SettlesLater(d, s, r, level, n + 1, u);
      }
    }
  }

  /** Every loop that descends comes to a state that is done. */
  lemma Ends<S(!new)>(d: Descent<S>, s: S, r: nat) returns (n: nat)
    requires Descends(d) && d.inv(s)
    ensures d.done(Iterate(d.round, s, r, n))
  {
    Settle(d, s, r, 0);
    var t: S;
    n, t :| Settles(d, s, r, 0, n, t);
  }
}
