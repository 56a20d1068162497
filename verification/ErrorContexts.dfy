/**
  The keys an error is reported with (crates/librtbit-bencode/src/deserialize.rs). The reader keeps
  the first four keys on the way to where it is and counts up to 255 more; deeper keys go
  uncounted, and are missed when it comes back up.
 */
module ErrorContexts {
  import opened Octets
  import opened Numbers
  import opened Bencode

  const CONTEXT_SIZE: nat := 4
  const COUNTER_MAX: nat := 255
  const MAX_LEVEL: nat := CONTEXT_SIZE + COUNTER_MAX

  /** The keys that fit into the context. */
  function Fit(path: seq<Bytes>): seq<Bytes> {
    path[..Min(|path|, CONTEXT_SIZE)]
  }

  /**
    How many keys the context stands for after values that went depth keys deep have been read:
    as many as before, unless the counter was exhausted on the way.
   */
  function LevelAfter(level: nat, depth: nat): nat {
    if depth <= MAX_LEVEL then Min(level, MAX_LEVEL - depth) else 0
  }

  /** What is left of the keys at some level. */
  function Cut(keys: seq<Bytes>, level: nat): seq<Bytes> {
    keys[..Min(|keys|, level)]
  }

  /** The keys held, and how many they stand for. */
  datatype Context = Context(keys: seq<Bytes>, level: nat)
  {
    predicate Ok() {
      |keys| == Min(level, CONTEXT_SIZE) && level <= MAX_LEVEL
    }

    function Push(k: Bytes): Context {
      Context(Fit(keys + [k]), Min(level + 1, MAX_LEVEL))
    }

    function Pop(): Context {
      if level == 0 then this else Context(Cut(keys, level - 1), level - 1)
    }

    /** After values that went depth keys deep. */
    function After(depth: nat): Context {
      Context(Cut(keys, LevelAfter(level, depth)), LevelAfter(level, depth))
    }
  }

  const EMPTY: Context := Context([], 0)

  /** Reading values leaves the context as it was exactly when the counter could count that far, or it was empty. */
  lemma ContextKeptIff(c: Context, depth: nat)
    requires c.Ok()
    ensures c.After(depth) == c <==> c == EMPTY || c.level + depth <= 259
  {
    if c.level == 0 { assert c.keys == []; }
  }

  /** Pushing a key, reading its value and popping the key is reading one key deeper. */
  lemma PushPop(c: Context, k: Bytes, depth: nat)
    requires c.Ok()
    ensures c.Push(k).Ok() && c.Push(k).After(depth).Pop() == c.After(depth + 1)
  {
  }

  lemma AfterTwice(c: Context, d: nat, e: nat)
    requires c.Ok()
    ensures c.After(d).Ok() && c.After(d).After(e) == c.After(Max(d, e)) && c.After(0) == c
  {
    assert LevelAfter(LevelAfter(c.level, d), e) == LevelAfter(c.level, Max(d, e));
  }

  /** The keys reported at the end of a trail that starts in the given context. */
  function Reported(c: Context, t: Trail): seq<Bytes>
    decreases t
  {
    if t.Here? then c.After(t.done).keys else Reported(c.After(t.done).Push(t.key), t.next)
  }

  lemma ReportedHere(c: Context)
    requires c.Ok()
    ensures Reported(c, Here(0)) == c.keys && c.After(0) == c
  {
  }

  /** Reading further values first is the same as having them on the trail. */
  lemma ReportedAfter(c: Context, depth: nat, t: Trail)
    requires c.Ok()
    ensures Reported(c.After(depth), t) == Reported(c, t.After(depth))
  {
    AfterTwice(c, depth, t.done);
  }

  /** A key on the trail is a key on the context. */
  lemma ReportedBelow(c: Context, k: Bytes, t: Trail)
    requires c.Ok()
    ensures Reported(c.Push(k), t) == Reported(c, Below(0, k, t))
  {
    AfterTwice(c, 0, 0);
  }

  // ---------- When the report is right ----------

  /** Values that went this deep, read at depth j, leave the context alone; at depth 0 it is empty. */
  predicate KeepsContext(done: nat, j: nat) {
    j == 0 || done + Min(4, j) <= 259
  }

  /**
    From depth j on, no value finished on the way went so deep that a key of the context was
    given up for it.
   */
  ghost predicate Fine(t: Trail, j: nat) {
    KeepsContext(t.done, j) && (t.Below? ==> Fine(t.next, j + 1))
  }

  /** The context holds the first keys of the path to where the reader is. */
  ghost predicate Intact(c: Context, path: seq<Bytes>) {
    c.Ok() && c.keys == Fit(path)
  }

  lemma IntactStep(c: Context, path: seq<Bytes>, done: nat, k: Bytes)
    requires Intact(c, path) && KeepsContext(done, |path|)
    ensures c.After(done).keys == c.keys && Intact(c.After(done).Push(k), path + [k])
  {
    AfterTwice(c, done, 0);
    assert Fit(c.keys + [k]) == Fit(path + [k]);
  }

  lemma {:induction false} FineIsRight(c: Context, path: seq<Bytes>, t: Trail)
    requires Intact(c, path) && Fine(t, |path|)
    ensures Reported(c, t) == Fit(path + t.Path())
    decreases t
  {
    IntactStep(c, path, t.done, if t.Here? then [] else t.key);
    if t.Here? {
      assert path + [] == path;
    } else {
      FineIsRight(c.After(t.done).Push(t.key), path + [t.key], t.next);
      assert path + [t.key] + t.next.Path() == path + ([t.key] + t.next.Path());
    }
  }

  /** At position i the context has nothing, or a key from further down the path. */
  ghost predicate LostAt(ctx: seq<Bytes>, path: seq<Bytes>, i: nat) {
    && i <= |ctx| && i < Min(CONTEXT_SIZE, |path|)
    && (i == |ctx| || exists q :: i < q < |path| && ctx[i] == path[q])
  }

  ghost predicate Lost(ctx: seq<Bytes>, path: seq<Bytes>) {
    exists i: nat :: LostAt(ctx, path, i)
  }

  lemma CutStaysLost(ctx: seq<Bytes>, path: seq<Bytes>, l: nat)
    requires Lost(ctx, path)
    ensures Lost(Cut(ctx, l), path)
  {
    var i: nat :| LostAt(ctx, path, i);
    assert LostAt(Cut(ctx, l), path, if i < |Cut(ctx, l)| then i else |Cut(ctx, l)|);
  }

  lemma PushStaysLost(ctx: seq<Bytes>, path: seq<Bytes>, k: Bytes)
    requires |ctx| <= CONTEXT_SIZE && Lost(ctx, path)
    ensures Lost(Fit(ctx + [k]), path + [k])
  {
    var i: nat :| LostAt(ctx, path, i);
    if i == |ctx| {
      assert Fit(ctx + [k])[i] == k == (path + [k])[|path|];
    } else {
      var q :| i < q < |path| && ctx[i] == path[q];
      assert Fit(ctx + [k])[i] == ctx[i] == (path + [k])[q];
    }
    assert LostAt(Fit(ctx + [k]), path + [k], i);
  }

  lemma {:induction false} StaysLost(c: Context, path: seq<Bytes>, t: Trail)
    requires |c.keys| <= CONTEXT_SIZE && Lost(c.keys, path)
    ensures Lost(Reported(c, t), path + t.Path())
    decreases t
  {
    var e := c.After(t.done);
    CutStaysLost(c.keys, path, e.level);
    if t.Here? {
      assert path + [] == path;
    } else {
      PushStaysLost(e.keys, path, t.key);
      StaysLost(e.Push(t.key), path + [t.key], t.next);
      assert path + [t.key] + t.next.Path() == path + ([t.key] + t.next.Path());
    }
  }

  lemma {:induction false} NotFineIsLost(c: Context, path: seq<Bytes>, t: Trail)
    requires Intact(c, path) && !Fine(t, |path|)
    ensures Lost(Reported(c, t), path + t.Path())
    decreases t
  {
    if !KeepsContext(t.done, |path|) {
      GivenUp(c, path, t);
    } else {
      IntactStep(c, path, t.done, t.key);
      NotFineIsLost(c.After(t.done).Push(t.key), path + [t.key], t.next);
      assert path + [t.key] + t.next.Path() == path + ([t.key] + t.next.Path());
    }
  }

  /** A value went too deep: keys of the context are given up for it. */
  lemma GivenUp(c: Context, path: seq<Bytes>, t: Trail)
    requires Intact(c, path) && !KeepsContext(t.done, |path|)
    ensures Lost(Reported(c, t), path + t.Path())
  {
    var e := c.After(t.done);
    assert LostAt(e.keys, path, |e.keys|);
    AfterTwice(c, t.done, t.done);
    StaysLost(e, path, t);
    assert Reported(e, t) == Reported(c, t);
  }

  /** The same trail with other keys: the decimal numbers of their depths. */
  function Numbered(t: Trail, j: nat): Trail {
    match t
    case Here(done) => Here(done)
    case Below(done, _, next) => Below(done, Digits(j), Numbered(next, j + 1))
  }

  ghost predicate SameDepths(t: Trail, u: Trail) {
    && t.done == u.done && t.Here? == u.Here?
    && (t.Below? ==> SameDepths(t.next, u.next))
  }

  lemma {:induction false} NumberedIs(t: Trail, j: nat)
    ensures SameDepths(t, Numbered(t, j))
    ensures CountsFrom(Numbered(t, j).Path(), j)
  {
    if t.Below? {
      NumberedIs(t.next, j + 1);
      assert Numbered(t, j).Path() == [Digits(j)] + Numbered(t.next, j + 1).Path();
      CountsOn(Numbered(t.next, j + 1).Path(), j);
    }
  }

  ghost predicate CountsFrom(p: seq<Bytes>, j: nat) {
    forall i :: 0 <= i < |p| ==> p[i] == Digits(j + i)
  }

  lemma CountsOn(p: seq<Bytes>, j: nat)
    requires CountsFrom(p, j + 1)
    ensures CountsFrom([Digits(j)] + p, j)
  {
    forall i | 0 < i <= |p| ensures ([Digits(j)] + p)[i] == Digits(j + i) {
      assert p[i - 1] == Digits(j + 1 + (i - 1));
      assert j + 1 + (i - 1) == j + i;
    }
  }

  lemma {:induction false} SameFine(t: Trail, u: Trail, j: nat)
    requires SameDepths(t, u)
    ensures Fine(t, j) <==> Fine(u, j)
  {
    if t.Below? {
      SameFine(t.next, u.next, j + 1);
    }
  }

  lemma LostIsWrong(ctx: seq<Bytes>, t: Trail)
    requires Lost(ctx, Numbered(t, 0).Path())
    ensures ctx != Fit(Numbered(t, 0).Path())
  {
    var p := Numbered(t, 0).Path();
    var i: nat :| LostAt(ctx, p, i);
    NumberedIs(t, 0);
    if i < |ctx| {
      var q :| i < q < |p| && ctx[i] == p[q];
      DecimalOfDigits(i);
      DecimalOfDigits(q);
    }
  }

  function FirstFour(path: seq<Bytes>): seq<Bytes> {
    path[..if |path| < 4 then |path| else 4]
  }

  /** The first four keys of the path, whatever the keys on a trail of these depths. */
  ghost predicate AlwaysRight(t: Trail) {
    forall u :: SameDepths(t, u) ==> Reported(EMPTY, u) == FirstFour(u.Path())
  }

  /**
    Whatever the keys, an error is reported with the first four keys of the path to it exactly when
    no value that was finished on the way, at depth j > 0, went deeper than 259 - min(4, j) keys.
   */
  lemma ReportRightIff(t: Trail)
    ensures AlwaysRight(t) <==> Fine(t, 0)
  {
    if Fine(t, 0) {
      forall u | SameDepths(t, u) ensures Reported(EMPTY, u) == FirstFour(u.Path()) {
        SameFine(t, u, 0);
        FineIsRight(EMPTY, [], u);
        assert [] + u.Path() == u.Path();
      }
    } else {
      var u := Numbered(t, 0);
      NumberedIs(t, 0);
      SameFine(t, u, 0);
      NotFineIsLost(EMPTY, [], u);
      assert [] + u.Path() == u.Path();
      LostIsWrong(Reported(EMPTY, u), t);
    }
  }
  // ---------- Inputs for trails ----------

  /** A value that goes n keys deep. */
  ghost function Deep(n: nat): Value {
    if n == 0 then Integer(0) else Dict(map[[] := Deep(n - 1)])
  }

  lemma {:induction false} DeepIsDeep(n: nat)
    ensures DictDepth(Deep(n)) == n
  {
    if n > 0 {
      DeepIsDeep(n - 1);
      OneKey(Deep(n), Deep(n - 1));
    }
  }

  lemma OneKey(v: Value, x: Value)
    requires v == Dict(map[[] := x])
    ensures DictDepth(v) == DictDepth(x) + 1
  {
    var keys: set<Bytes> := {[]};
    FirstSortedKey([], keys);
    assert keys - {[]} == {} && v.entries.Keys == keys;
    var sorted := SortedKeys(keys);
    assert sorted == [[]] && sorted[1..] == [];
    assert EntriesDepth(v, sorted[1..]) == 0 && v.entries[sorted[0]] == x;
    assert DictDepth(v) == EntriesDepth(v, sorted) == Max(DictDepth(x) + 1, 0);
  }

  const NO_VALUE: Bytes := [120]

  /** In a list: a value that goes that deep, and then what fails, or a dictionary in which something does. */
  ghost function InputFor(t: Trail): Bytes {
    [L] + (Print(Deep(t.done)) + if t.Here? then NO_VALUE else [D] + (PrintBytes(t.key) + InputFor(t.next)))
  }

  lemma NoValue()
    ensures ParseValue(NO_VALUE) == Fail(InvalidValue, Here(0))
  {
    assert DigitCount(NO_VALUE) == 0;
  }

  /** A failure as the second item of a list comes after the first one's depth. */
  lemma SecondItemFails(v: Value, b: Bytes, t: Trail)
    requires !StartsWith(b, E) && ParseValue(b) == Fail(InvalidValue, t)
    ensures ParseValue([L] + (Print(v) + b)) == Fail(InvalidValue, t.After(DictDepth(v)))
  {
    var items := Print(v) + b;
    var r := ParseItems(items, [], 0);
    RoundTrip(v, b);
    PrintStarts(v);
    ItemsRound(items, [], 0, ParseValue(items), r);
    ItemsRound(b, [] + [v], DictDepth(v), ParseValue(b), r);
    ListFails([L] + items, r);
  }

  lemma ListFails(b: Bytes, r: Parsed<seq<Value>>)
    requires StartsWith(b, L) && r == ParseItems(b[1..], [], 0) && r.Fail?
    ensures ParseValue(b) == Fail(r.error, r.trail)
  {
  }

  /** A failure under the first key of a dictionary is below that key. */
  lemma FirstEntryFails(k: Bytes, b: Bytes, t: Trail)
    requires ParseValue(b) == Fail(InvalidValue, t)
    ensures ParseValue([D] + (PrintBytes(k) + b)) == Fail(InvalidValue, Below(0, k, t))
  {
    var entries := PrintBytes(k) + b;
    var x, r := ParseEntry(entries), ParseEntries(entries, map[], 0);
    ParsePrintedBytes(k, b);
    assert IsDigit(Digits(|k|)[0]) && entries[0] == Digits(|k|)[0];
    EntryRound(entries, ParseBytes(entries), x);
    EntriesRound(entries, map[], 0, x, r);
    DictFails([D] + entries, r);
  }

  lemma DictFails(b: Bytes, r: Parsed<map<Bytes, Value>>)
    requires StartsWith(b, D) && r == ParseEntries(b[1..], map[], 0) && r.Fail?
    ensures ParseValue(b) == Fail(r.error, r.trail)
  {
  }

  /** Every trail is that of some input. */
  lemma {:induction false} EveryTrail(t: Trail)
    ensures ParseValue(InputFor(t)) == Fail(InvalidValue, t)
  {
    DeepIsDeep(t.done);
    if t.Here? {
      NoValue();
      SecondItemFails(Deep(t.done), NO_VALUE, Here(0));
    } else {
      EveryTrail(t.next);
      FirstEntryFails(t.key, InputFor(t.next), t.next);
      SecondItemFails(Deep(t.done), [D] + (PrintBytes(t.key) + InputFor(t.next)), Below(0, t.key, t.next));
    }
  }

  /** If reading the input fails, the keys reported are the first ones of the path to the failure. */
  ghost predicate ReportsRight(b: Bytes) {
    var r := ParseValue(b);
    r.Fail? ==> Reported(EMPTY, r.trail) == FirstFour(r.trail.Path())
  }

  ghost predicate FailsAlike(b: Bytes, t: Trail) {
    ParseValue(b).Fail? && SameDepths(t, ParseValue(b).trail)
  }

  /** The condition is exact for inputs too: all that fail after values of these depths are reported rightly. */
  lemma InputsRightIff(t: Trail)
    ensures (forall b :: FailsAlike(b, t) ==> ReportsRight(b)) <==> Fine(t, 0)
  {
    ReportRightIff(t);
    if !Fine(t, 0) {
      var u :| SameDepths(t, u) && Reported(EMPTY, u) != FirstFour(u.Path());
      EveryTrail(u);
      assert FailsAlike(InputFor(u), t) && !ReportsRight(InputFor(u));
    }
  }

  /** For one: a failure under a single key, after a value that goes n keys deep, is reported without it past 258. */
  lemma KeyLost(k: Bytes, n: nat)
    ensures var b, t := [D] + (PrintBytes(k) + ([L] + (Print(Deep(n)) + NO_VALUE))), Below(0, k, Here(n));
            && ParseValue(b) == Fail(InvalidValue, t) && t.Path() == [k]
            && Reported(EMPTY, t) == if n <= 258 then [k] else []
  {
    var t := Here(n);
    EveryTrail(t);
    FirstEntryFails(k, InputFor(t), t);
    assert EMPTY.After(0).Push(k) == Context([k], 1);
  }
}
