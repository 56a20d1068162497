/**
  The grammar of bencoding, as the "bencoding" section of BEP 3 gives it, on bytes and with the
  characters it names. It has a strict form, in which every value is written in just one way, and
  the looser form that crates/librtbit-bencode/src/deserialize.rs accepts. The reader reads
  exactly the one, and the writer writes exactly the other.
 */
module BencodeGrammar {
  import opened Octets
  import opened Numbers
  import opened Bencode

  // ---------- Numbers ----------

  predicate IsNumeral(b: Bytes) {
    forall i :: 0 <= i < |b| ==> '0' as int <= b[i] <= '9' as int
  }

  function Decimal(b: Bytes): (n: int)
    requires IsNumeral(b)
    ensures n >= 0
  {
    if b == [] then 0 else 10 * Decimal(b[..|b| - 1]) + (b[|b| - 1] - '0' as int)
  }

  predicate NoLeadingZero(b: Bytes) {
    |b| == 1 || (|b| > 1 && b[0] != '0' as int)
  }

  /** An optional minus sign and digits. The loose form also takes a plus sign, and no digits after a sign as 0. */
  predicate IsNumber(b: Bytes, i: int, strict: bool) {
    || (b != [] && IsNumeral(b) && Decimal(b) == i && (strict ==> NoLeadingZero(b)))
    || (b != [] && b[0] == '-' as int && IsNumeral(b[1..]) && -Decimal(b[1..]) == i
        && (strict ==> NoLeadingZero(b[1..]) && i != 0))
    || (b != [] && b[0] == '+' as int && IsNumeral(b[1..]) && Decimal(b[1..]) == i && !strict)
  }

  // ---------- Strings, lists and dictionaries ----------

  /** The length in decimal, a colon, and that many bytes. */
  predicate IsString(b: Bytes, s: Bytes, strict: bool) {
    var n := |b| - |s| - 1;
    && n >= 1 && b[n] == ':' as int && b[n + 1..] == s
    && IsNumeral(b[..n]) && Decimal(b[..n]) == |s| && (strict ==> NoLeadingZero(b[..n]))
  }

  /** What is between the first and the last byte. */
  function Inside(b: Bytes): Bytes
    requires |b| >= 2
  {
    b[1..|b| - 1]
  }

  predicate Between(b: Bytes, first: char, last: char) {
    |b| >= 2 && b[0] == first as int && b[|b| - 1] == last as int
  }

  type Pairs = seq<(Bytes, Value)>

  /** The order of keys: where they first differ, or the shorter one first. */
  ghost predicate Before(x: Bytes, y: Bytes) {
    exists i :: DiffersAt(x, y, i)
  }

  ghost predicate DiffersAt(x: Bytes, y: Bytes, i: nat) {
    i <= |x| && i < |y| && x[..i] == y[..i] && (i < |x| ==> x[i] < y[i])
  }

  ghost predicate KeysAscend(pairs: Pairs) {
    forall i, j :: 0 <= i < j < |pairs| ==> Before(pairs[i].0, pairs[j].0)
  }

  /** Pair i is the last one with its key. */
  ghost predicate LastWithKey(pairs: Pairs, i: nat) {
    i < |pairs| && forall j :: i < j < |pairs| ==> pairs[j].0 != pairs[i].0
  }

  /** The last pair with the key k has the value x. */
  ghost predicate HeldLast(pairs: Pairs, k: Bytes, x: Value) {
    exists i: nat :: LastWithKey(pairs, i) && pairs[i] == (k, x)
  }

  /** The dictionary that pairs make up: a repeated key counts as its last occurrence. */
  ghost predicate MadeOf(m: map<Bytes, Value>, pairs: Pairs) {
    && (forall i :: 0 <= i < |pairs| ==> pairs[i].0 in m)
    && (forall k :: k in m ==> HeldLast(pairs, k, m[k]))
  }

  ghost predicate IsValue(b: Bytes, v: Value, strict: bool)
    decreases |b|, 0
  {
    match v
    case Str(s) => IsString(b, s, strict)
    case Integer(i) => Between(b, 'i', 'e') && IsNumber(Inside(b), i, strict)
    case List(items) => Between(b, 'l', 'e') && AreItems(Inside(b), items, strict)
    case Dict(m) =>
      Between(b, 'd', 'e')
      && exists pairs :: AreEntries(Inside(b), pairs, strict) && MadeOf(m, pairs) && (strict ==> KeysAscend(pairs))
  }

  ghost predicate AreItems(b: Bytes, items: seq<Value>, strict: bool)
    decreases |b|, 2
  {
    if items == [] then b == []
    else exists k :: 0 < k <= |b| && IsValue(b[..k], items[0], strict) && AreItems(b[k..], items[1..], strict)
  }

  ghost predicate IsEntry(b: Bytes, k: Bytes, v: Value, strict: bool)
    decreases |b|, 1
  {
    exists j :: 0 < j <= |b| && IsString(b[..j], k, strict) && IsValue(b[j..], v, strict)
  }

  ghost predicate AreEntries(b: Bytes, pairs: Pairs, strict: bool)
    decreases |b|, 2
  {
    if pairs == [] then b == []
    else
      exists k :: 0 < k <= |b| && IsEntry(b[..k], pairs[0].0, pairs[0].1, strict)
                  && AreEntries(b[k..], pairs[1..], strict)
  }

  // ---------- Numbers and strings, read ----------

  lemma {:induction false} NumeralIs(b: Bytes)
    ensures IsNumeral(b) <==> AllDigits(b)
    ensures IsNumeral(b) ==> Decimal(b) == DecimalValue(b)
  {
    if b != [] { NumeralIs(b[..|b| - 1]); }
  }

  lemma StringRead(p: Bytes, s: Bytes, rest: Bytes)
    requires IsString(p, s, false)
    ensures ParseBytes(p + rest) == Ok(s, rest, 0)
  {
    var b, n := p + rest, |p| - |s| - 1;
    NumeralIs(p[..n]);
    assert b[..n] == p[..n] && b[n] == p[n];
    ScanIs(b, n, p[..n]);
    assert b[n + 1..] == s + rest;
  }

  lemma StringFound(b: Bytes) returns (p: Bytes)
    requires ParseBytes(b).Ok?
    ensures b == p + ParseBytes(b).rest && IsString(p, ParseBytes(b).value, false)
  {
    var (v, n) := ScanUnsigned(b);
    p := b[..n + 1 + v];
    NumeralIs(b[..n]);
    assert p[..n] == b[..n] && p[n + 1..] == b[n + 1..][..v];
  }

  lemma NumberRead(p: Bytes, i: int, rest: Bytes)
    requires IsNumber(p, i, false) && rest != [] && !IsDigit(rest[0])
    ensures ScanSigned(p + rest) == (i, |p|)
  {
    var b := p + rest;
    if IsNumeral(p) {
      NumeralIs(p);
      assert b[..|p|] == p && b[0] == p[0];
      ScanIs(b, |p|, p);
    } else {
      NumeralIs(p[1..]);
      assert b[1..] == p[1..] + rest && b[0] == p[0];
      assert b[1..][..|p| - 1] == p[1..];
      ScanIs(b[1..], |p| - 1, p[1..]);
    }
  }

  lemma NumberFound(b: Bytes)
    requires var n := ScanSigned(b).1; 0 < n <= |b|
    ensures var (v, n) := ScanSigned(b); IsNumber(b[..n], v, false)
  {
    var (v, n) := ScanSigned(b);
    if b[0] == MINUS || b[0] == PLUS {
      assert b[..n][1..] == b[1..][..n - 1];
      NumeralIs(b[1..][..n - 1]);
    } else {
      NumeralIs(b[..n]);
    }
  }

  lemma IntegerRead(p: Bytes, i: int, rest: Bytes)
    requires IsValue(p, Integer(i), false)
    ensures ParseValue(p + rest) == Ok(Integer(i), rest, 0)
  {
    var b, n := p + rest, |p| - 2;
    assert b[1..] == Inside(p) + (['e' as int] + rest);
    NumberRead(Inside(p), i, ['e' as int] + rest);
    assert b[1..][n] == 'e' as int && b[1..][n + 1..] == rest;
  }

  lemma IntegerFound(b: Bytes) returns (p: Bytes)
    requires StartsWith(b, I) && ParseInteger(b).Ok?
    ensures var r := ParseInteger(b); b == p + r.rest && IsValue(p, r.value, false)
  {
    var n := ScanSigned(b[1..]).1;
    p := b[..n + 2];
    NumberFound(b[1..]);
    assert Inside(p) == b[1..][..n] && p[n + 1] == b[1..][n];
  }

  // ---------- What is in the grammar is read ----------

  lemma ValueStarts(p: Bytes, v: Value)
    requires IsValue(p, v, false)
    ensures p != [] && p[0] != E && (v.Str? ==> IsDigit(p[0]))
    ensures v.Integer? ==> p[0] == I
    ensures v.List? ==> p[0] == L
    ensures v.Dict? ==> p[0] == D
  {
    if v.Str? {
      var n := |p| - |v.bytes| - 1;
      assert p[0] == p[..n][0];
    }
  }

  lemma PairsOf(p: Bytes, m: map<Bytes, Value>, strict: bool) returns (pairs: Pairs)
    requires IsValue(p, Dict(m), strict)
    ensures Between(p, 'd', 'e') && AreEntries(Inside(p), pairs, strict)
    ensures MadeOf(m, pairs) && (strict ==> KeysAscend(pairs))
  {
    pairs :| AreEntries(Inside(p), pairs, strict) && MadeOf(m, pairs) && (strict ==> KeysAscend(pairs));
  }

  lemma {:induction false} ValueRead(p: Bytes, v: Value, rest: Bytes) returns (d: nat)
    requires IsValue(p, v, false)
    ensures ParseValue(p + rest) == Ok(v, rest, d)
    decreases |p|, 0
  {
    ValueStarts(p, v);
    match v {
      case Str(s) =>
        StringRead(p, s, rest);
        d := 0;
      case Integer(i) =>
        IntegerRead(p, i, rest);
        d := 0;
      case List(items) =>
        var r := ItemsRead(Inside(p), items, rest, [], 0);
        d := r.depth;
        assert (p + rest)[1..] == Inside(p) + (['e' as int] + rest) && [] + items == items;
        ListStep(p + rest, r);
      case Dict(m) =>
        var pairs := PairsOf(p, m, false);
        var r := EntriesRead(Inside(p), pairs, rest, map[], 0);
        d := r.depth;
        MadeOfIs(m, pairs);
        assert (p + rest)[1..] == Inside(p) + (['e' as int] + rest);
        DictStep(p + rest, r);
    }
  }

  lemma ItemsSplit(b: Bytes, items: seq<Value>, strict: bool) returns (k: nat)
    requires items != [] && AreItems(b, items, strict)
    ensures 0 < k <= |b| && IsValue(b[..k], items[0], strict) && AreItems(b[k..], items[1..], strict)
  {
    k :| 0 < k <= |b| && IsValue(b[..k], items[0], strict) && AreItems(b[k..], items[1..], strict);
  }

  lemma EntrySplit(b: Bytes, k: Bytes, v: Value, strict: bool) returns (j: nat)
    requires IsEntry(b, k, v, strict)
    ensures 0 < j <= |b| && IsString(b[..j], k, strict) && IsValue(b[j..], v, strict)
  {
    j :| 0 < j <= |b| && IsString(b[..j], k, strict) && IsValue(b[j..], v, strict);
  }

  lemma EntriesSplit(b: Bytes, pairs: Pairs, strict: bool) returns (k: nat)
    requires pairs != [] && AreEntries(b, pairs, strict)
    ensures 0 < k <= |b| && IsEntry(b[..k], pairs[0].0, pairs[0].1, strict) && AreEntries(b[k..], pairs[1..], strict)
  {
    k :| 0 < k <= |b| && IsEntry(b[..k], pairs[0].0, pairs[0].1, strict) && AreEntries(b[k..], pairs[1..], strict);
  }

  lemma {:induction false} ItemsRead(b: Bytes, items: seq<Value>, rest: Bytes, acc: seq<Value>, depth: nat)
    returns (r: Parsed<seq<Value>>)
    requires AreItems(b, items, false)
    ensures ItemsAt(b + (['e' as int] + rest), acc, depth, r) && r.Ok? && r.value == acc + items && r.rest == rest
    decreases |b|, 2
  {
    if items == [] {
      ItemsEnd(rest, acc, depth);
      assert b + ([E] + rest) == [E] + rest && acc + items == acc;
      r := Ok(acc, rest, depth);
    } else {
      var k := ItemsSplit(b, items, false);
      var tail := b[k..] + (['e' as int] + rest);
      var d := ValueRead(b[..k], items[0], tail);
      ValueStarts(b[..k], items[0]);
      r := ItemsRead(b[k..], items[1..], rest, acc + [items[0]], Max(depth, d));
      OneMoreItem(b, k, items, tail, rest, acc, depth, d, r);
    }
  }

  lemma OneMoreItem(b: Bytes, k: nat, items: seq<Value>, tail: Bytes, rest: Bytes, acc: seq<Value>, depth: nat, d: nat,
                    r: Parsed<seq<Value>>)
    requires 0 < k <= |b| && b[0] != E && items != [] && tail == b[k..] + (['e' as int] + rest)
    requires ParseValue(b[..k] + tail) == Ok(items[0], tail, d) && ItemsAt(tail, acc + [items[0]], Max(depth, d), r)
    ensures ItemsAt(b + (['e' as int] + rest), acc, depth, r)
    ensures acc + items == acc + [items[0]] + items[1..]
  {
    CutAndJoined(b, k, ['e' as int] + rest);
    ItemsStep(b[..k] + tail, acc, depth, Ok(items[0], tail, d), r);
  }

  lemma {:induction false} EntryRead(b: Bytes, k: Bytes, v: Value, rest: Bytes) returns (d: nat)
    requires IsEntry(b, k, v, false)
    ensures ParseEntry(b + rest) == Ok((k, v), rest, d + 1) && b != [] && IsDigit(b[0])
    decreases |b|, 1
  {
    var j := EntrySplit(b, k, v, false);
    StringRead(b[..j], k, b[j..] + rest);
    d := ValueRead(b[j..], v, rest);
    ValueStarts(b[..j], Str(k));
    EntryJoined(b, j, k, v, rest, d);
  }

  lemma EntryJoined(b: Bytes, j: nat, k: Bytes, v: Value, rest: Bytes, d: nat)
    requires j <= |b| && ParseBytes(b[..j] + (b[j..] + rest)) == Ok(k, b[j..] + rest, 0)
    requires ParseValue(b[j..] + rest) == Ok(v, rest, d)
    ensures ParseEntry(b + rest) == Ok((k, v), rest, d + 1)
  {
    CutAndJoined(b, j, rest);
    EntryStep(b[..j] + (b[j..] + rest), Ok(k, b[j..] + rest, 0), Ok(v, rest, d));
  }

  lemma CutAndJoined(b: Bytes, j: nat, rest: Bytes)
    requires j <= |b|
    ensures b + rest == b[..j] + (b[j..] + rest)
  {
  }

  lemma {:induction false} EntriesRead(b: Bytes, pairs: Pairs, rest: Bytes, acc: map<Bytes, Value>, depth: nat)
    returns (r: Parsed<map<Bytes, Value>>)
    requires AreEntries(b, pairs, false)
    ensures EntriesAt(b + (['e' as int] + rest), acc, depth, r) && r.Ok?
    ensures r.value == Overlaid(acc, pairs) && r.rest == rest
    decreases |b|, 2
  {
    if pairs == [] {
      assert b + ([E] + rest) == [E] + rest;
      EntriesDone(rest, acc, depth);
      r := Ok(acc, rest, depth);
    } else {
      var x := pairs[0];
      var k := EntriesSplit(b, pairs, false);
      var tail := b[k..] + (['e' as int] + rest);
      var d := EntryRead(b[..k], x.0, x.1, tail);
      r := EntriesRead(b[k..], pairs[1..], rest, acc[x.0 := x.1], Max(depth, d + 1));
      OneMoreEntry(b, k, x, tail, rest, acc, depth, d, r);
    }
  }

  lemma OneMoreEntry(b: Bytes, k: nat, x: (Bytes, Value), tail: Bytes, rest: Bytes, acc: map<Bytes, Value>, depth: nat,
                     d: nat, r: Parsed<map<Bytes, Value>>)
    requires 0 < k <= |b| && IsDigit(b[0]) && tail == b[k..] + (['e' as int] + rest)
    requires ParseEntry(b[..k] + tail) == Ok(x, tail, d + 1) && EntriesAt(tail, acc[x.0 := x.1], Max(depth, d + 1), r)
    ensures EntriesAt(b + (['e' as int] + rest), acc, depth, r)
  {
    CutAndJoined(b, k, ['e' as int] + rest);
    EntriesStep(b[..k] + tail, acc, depth, Ok(x, tail, d + 1), r);
  }

  lemma EntriesDone(rest: Bytes, acc: map<Bytes, Value>, depth: nat)
    ensures ParseEntries([E] + rest, acc, depth) == Ok(acc, rest, depth)
  {
    assert ([E] + rest)[1..] == rest;
  }

  // ---------- Dictionaries from pairs ----------

  /** The pairs, one after the other, put into a map. */
  ghost function Overlaid(acc: map<Bytes, Value>, pairs: Pairs): map<Bytes, Value>
    decreases |pairs|
  {
    if pairs == [] then acc else Overlaid(acc[pairs[0].0 := pairs[0].1], pairs[1..])
  }

  ghost predicate NoneWithKey(pairs: Pairs, k: Bytes) {
    forall i :: 0 <= i < |pairs| ==> pairs[i].0 != k
  }

  /** What the map has for a key: the last pair with it, or what was there before. */
  lemma {:induction false} OverlaidAt(acc: map<Bytes, Value>, pairs: Pairs, k: Bytes)
    ensures k in Overlaid(acc, pairs) <==> k in acc || !NoneWithKey(pairs, k)
    ensures !NoneWithKey(pairs, k) ==> HeldLast(pairs, k, Overlaid(acc, pairs)[k])
    ensures NoneWithKey(pairs, k) && k in acc ==> Overlaid(acc, pairs)[k] == acc[k]
    decreases |pairs|
  {
    if pairs != [] {
      var acc', rest := acc[pairs[0].0 := pairs[0].1], pairs[1..];
      OverlaidAt(acc', rest, k);
      FirstKey(pairs, k);
      if !NoneWithKey(rest, k) {
        HeldShifted(pairs, k, Overlaid(acc', rest)[k]);
      } else if pairs[0].0 == k {
        assert HeldLast(pairs, k, pairs[0].1);
      }
    }
  }

  lemma FirstKey(pairs: Pairs, k: Bytes)
    requires pairs != []
    ensures NoneWithKey(pairs, k) <==> pairs[0].0 != k && NoneWithKey(pairs[1..], k)
    ensures pairs[0].0 == k && NoneWithKey(pairs[1..], k) ==> LastWithKey(pairs, 0)
  {
    assert forall i :: 0 < i < |pairs| ==> pairs[i] == pairs[1..][i - 1];
    assert NoneWithKey(pairs, k) ==> forall i :: 0 <= i < |pairs| - 1 ==> pairs[1..][i] == pairs[i + 1];
  }

  lemma HeldShifted(pairs: Pairs, k: Bytes, x: Value)
    requires pairs != [] && HeldLast(pairs[1..], k, x)
    ensures HeldLast(pairs, k, x)
  {
    var i: nat :| LastWithKey(pairs[1..], i) && pairs[1..][i] == (k, x);
    forall j | i + 1 < j < |pairs| ensures pairs[j].0 != pairs[i + 1].0 {
      assert pairs[1..][j - 1].0 != pairs[1..][i].0;
    }
    assert LastWithKey(pairs, i + 1);
  }

  lemma OverlaidIsMade(pairs: Pairs)
    ensures MadeOf(Overlaid(map[], pairs), pairs)
  {
    var m := Overlaid(map[], pairs);
    forall i | 0 <= i < |pairs| ensures pairs[i].0 in m { OverlaidAt(map[], pairs, pairs[i].0); }
    forall k | k in m ensures HeldLast(pairs, k, m[k]) { OverlaidAt(map[], pairs, k); }
  }

  lemma HeldOnce(pairs: Pairs, k: Bytes, x: Value, y: Value)
    requires HeldLast(pairs, k, x) && HeldLast(pairs, k, y)
    ensures x == y
  {
  }

  lemma HeldIsThere(m: map<Bytes, Value>, pairs: Pairs, k: Bytes, x: Value)
    requires MadeOf(m, pairs) && HeldLast(pairs, k, x)
    ensures k in m && m[k] == x
  {
    var i: nat :| LastWithKey(pairs, i) && pairs[i] == (k, x);
    assert pairs[i].0 in m;
    HeldOnce(pairs, k, x, m[k]);
  }

  lemma MadeOfUnique(m: map<Bytes, Value>, n: map<Bytes, Value>, pairs: Pairs)
    requires MadeOf(m, pairs) && MadeOf(n, pairs)
    ensures m == n
  {
    forall k | k in m ensures k in n && n[k] == m[k] { HeldIsThere(n, pairs, k, m[k]); }
    forall k | k in n ensures k in m { HeldIsThere(m, pairs, k, n[k]); }
  }

  lemma MadeOfIs(m: map<Bytes, Value>, pairs: Pairs)
    requires MadeOf(m, pairs)
    ensures m == Overlaid(map[], pairs)
  {
    OverlaidIsMade(pairs);
    MadeOfUnique(m, Overlaid(map[], pairs), pairs);
  }

  // ---------- What is read is in the grammar ----------

  lemma Enclosed(b: Bytes, body: Bytes, rest: Bytes, first: char) returns (p: Bytes)
    requires b != [] && b[0] == first as int && b[1..] == body + (['e' as int] + rest)
    ensures b == p + rest && Between(p, first, 'e') && Inside(p) == body
  {
    p := [b[0]] + body + ['e' as int];
    assert b == [b[0]] + b[1..];
  }

  lemma {:induction false} ValueFound(b: Bytes) returns (p: Bytes)
    requires ParseValue(b).Ok?
    ensures b == p + ParseValue(b).rest && IsValue(p, ParseValue(b).value, false)
    decreases |b|, 1
  {
    if b[0] == D {
      var r := ParseEntries(b[1..], map[], 0);
      var body, pairs := EntriesFound(b[1..], map[], 0, r);
      p := Enclosed(b, body, r.rest, 'd');
      OverlaidIsMade(pairs);
    } else if b[0] == I {
      p := IntegerFound(b);
    } else if b[0] == L {
      var r := ParseItems(b[1..], [], 0);
      var body, items := ItemsFound(b[1..], [], 0, r);
      p := Enclosed(b, body, r.rest, 'l');
      assert [] + items == items;
    } else {
      p := StringFound(b);
    }
  }

  lemma {:induction false} ItemsFound(b: Bytes, acc: seq<Value>, depth: nat, r: Parsed<seq<Value>>)
    returns (body: Bytes, items: seq<Value>)
    requires ItemsAt(b, acc, depth, r) && r.Ok?
    ensures b == body + (['e' as int] + r.rest) && r.value == acc + items && AreItems(body, items, false)
    decreases |b|, 2
  {
    var v := ParseValue(b);
    ItemsRound(b, acc, depth, v, r);
    if StartsWith(b, E) {
      body, items := [], [];
      assert b == [b[0]] + b[1..];
    } else {
      var p := ValueFound(b);
      var q, more := ItemsFound(v.rest, acc + [v.value], Max(depth, v.depth), r);
      body, items := ItemAdded(p, v.value, q, more, ['e' as int] + r.rest, acc);
    }
  }

  lemma ItemAdded(p: Bytes, v: Value, q: Bytes, more: seq<Value>, tail: Bytes, acc: seq<Value>)
    returns (body: Bytes, items: seq<Value>)
    requires IsValue(p, v, false) && AreItems(q, more, false)
    ensures AreItems(body, items, false) && p + (q + tail) == body + tail && acc + [v] + more == acc + items
  {
    ValueStarts(p, v);
    body, items := p + q, [v] + more;
    assert body[..|p|] == p && body[|p|..] == q && items[1..] == more;
  }

  lemma {:induction false} EntriesFound(b: Bytes, acc: map<Bytes, Value>, depth: nat, r: Parsed<map<Bytes, Value>>)
    returns (body: Bytes, pairs: Pairs)
    requires EntriesAt(b, acc, depth, r) && r.Ok?
    ensures b == body + (['e' as int] + r.rest) && r.value == Overlaid(acc, pairs) && AreEntries(body, pairs, false)
    decreases |b|, 3
  {
    var x := ParseEntry(b);
    EntriesRound(b, acc, depth, x, r);
    if StartsWith(b, E) {
      body, pairs := [], [];
      assert b == [b[0]] + b[1..];
    } else {
      var p := EntryFound(b, x);
      var q, more := EntriesFound(x.rest, acc[x.value.0 := x.value.1], Max(depth, x.depth), r);
      body, pairs := EntryAdded(p, x.value, q, more, ['e' as int] + r.rest, acc);
    }
  }

  lemma {:induction false} EntryFound(b: Bytes, x: Parsed<(Bytes, Value)>) returns (p: Bytes)
    requires x == ParseEntry(b) && x.Ok?
    ensures b == p + x.rest && p != [] && IsEntry(p, x.value.0, x.value.1, false)
    decreases |b|, 2
  {
    var k, v := EntryParts(b);
    var key := StringFound(b);
    var val := ValueFound(k.rest);
    p := EntryMade(key, k.value, val, v.value, x.rest);
  }

  lemma EntryMade(key: Bytes, k: Bytes, val: Bytes, v: Value, rest: Bytes) returns (p: Bytes)
    requires IsString(key, k, false) && IsValue(val, v, false)
    ensures IsEntry(p, k, v, false) && p != [] && key + (val + rest) == p + rest
  {
    p := key + val;
    assert p[..|key|] == key && p[|key|..] == val;
  }

  lemma EntryAdded(p: Bytes, x: (Bytes, Value), q: Bytes, more: Pairs, tail: Bytes, acc: map<Bytes, Value>)
    returns (body: Bytes, pairs: Pairs)
    requires p != [] && IsEntry(p, x.0, x.1, false) && AreEntries(q, more, false)
    ensures AreEntries(body, pairs, false) && p + (q + tail) == body + tail
    ensures Overlaid(acc, pairs) == Overlaid(acc[x.0 := x.1], more)
  {
    body, pairs := p + q, [x] + more;
    assert body[..|p|] == p && body[|p|..] == q && pairs[1..] == more;
  }

  /** The reader reads a value and leaves a rest exactly if the input is that value in the loose form, and the rest. */
  lemma ReadsIff(b: Bytes, v: Value, rest: Bytes)
    ensures (exists d :: ParseValue(b) == Ok(v, rest, d)) <==> exists p :: b == p + rest && IsValue(p, v, false)
  {
    if d :| ParseValue(b) == Ok(v, rest, d) {
      var p := ValueFound(b);
    }
    if p :| b == p + rest && IsValue(p, v, false) {
      var d := ValueRead(p, v, rest);
    }
  }
  // ---------- The strict form is what the writer writes ----------

  lemma SameHead(x: Bytes, y: Bytes, i: nat)
    requires DiffersAt(x, y, i)
    ensures i > 0 ==> x != [] && y != [] && x[0] == y[0]
  {
    if i > 0 { assert x[..i][0] == x[0] && y[..i][0] == y[0]; }
  }

  lemma FirstDiffers(x: Bytes, y: Bytes)
    requires x == [] || y == [] || x[0] != y[0]
    ensures Before(x, y) <==> LexLess(x, y)
  {
    if Before(x, y) {
      var i: nat :| DiffersAt(x, y, i);
      SameHead(x, y, i);
    }
    if LexLess(x, y) { assert DiffersAt(x, y, 0); }
  }

  /** The order of keys is the one of byte vectors. */
  lemma {:induction false} BeforeIff(x: Bytes, y: Bytes)
    ensures Before(x, y) <==> LexLess(x, y)
  {
    if x == [] || y == [] || x[0] != y[0] {
      FirstDiffers(x, y);
    } else {
      BeforeIff(x[1..], y[1..]);
      if Before(x, y) {
        var i: nat :| DiffersAt(x, y, i);
        DiffersAfter(x, y, i - 1);
      }
      if Before(x[1..], y[1..]) {
        var i: nat :| DiffersAt(x[1..], y[1..], i);
        DiffersAfter(x, y, i);
      }
    }
  }

  lemma DiffersAfter(x: Bytes, y: Bytes, i: int)
    requires x != [] && y != [] && x[0] == y[0] && i >= -1
    ensures i >= 0 && DiffersAt(x[1..], y[1..], i) <==> DiffersAt(x, y, i + 1)
  {
    if 0 <= i < |x| && i < |y| {
      assert x[..i + 1] == [x[0]] + x[1..][..i] && y[..i + 1] == [y[0]] + y[1..][..i];
      assert x[1..][..i] == x[..i + 1][1..] && y[1..][..i] == y[..i + 1][1..];
    }
  }

  lemma {:induction false} PositiveNumeral(b: Bytes)
    requires b != [] && IsNumeral(b) && b[0] != '0' as int
    ensures Decimal(b) >= 1
  {
    if |b| > 1 {
      assert b[..|b| - 1][0] == b[0];
      PositiveNumeral(b[..|b| - 1]);
    } else {
      assert b[..0] == [];
    }
  }

  /** Without leading zeros a number has one numeral. */
  lemma {:induction false} NumeralUnique(b: Bytes)
    requires IsNumeral(b) && NoLeadingZero(b)
    ensures b == Digits(Decimal(b))
  {
    var n := |b| - 1;
    assert b == b[..n] + [b[n]];
    if n == 0 {
      assert b[..0] == [] && Decimal(b) == b[0] - '0' as int;
    } else {
      assert b[..n][0] == b[0];
      NumeralUnique(b[..n]);
      PositiveNumeral(b[..n]);
    }
  }

  lemma {:induction false} DigitsAre(n: nat)
    ensures IsNumeral(Digits(n)) && Decimal(Digits(n)) == n && NoLeadingZero(Digits(n))
    ensures n > 0 ==> Digits(n)[0] != '0' as int
  {
    DecimalOfDigits(n);
    NumeralIs(Digits(n));
    if n >= 10 { DigitsAre(n / 10); }
  }

  lemma StringStrictIff(b: Bytes, s: Bytes)
    ensures IsString(b, s, true) <==> b == PrintBytes(s)
  {
    var n := |b| - |s| - 1;
    if IsString(b, s, true) {
      NumeralUnique(b[..n]);
      assert b == b[..n] + [b[n]] + b[n + 1..];
    }
    if b == PrintBytes(s) {
      DigitsAre(|s|);
      assert b[..n] == Digits(|s|) && b[n + 1..] == s;
    }
  }

  lemma NumberStrictIff(b: Bytes, i: int)
    ensures IsNumber(b, i, true) <==> b == PrintInt(i)
  {
    if IsNumber(b, i, true) {
      if IsNumeral(b) {
        NumeralUnique(b);
      } else {
        NumeralUnique(b[1..]);
        assert b == [b[0]] + b[1..];
      }
    }
    if b == PrintInt(i) {
      if i < 0 {
        DigitsAre(-i);
        assert b[1..] == Digits(-i);
      } else {
        DigitsAre(i);
      }
    }
  }

  /** A body between two markers. */
  lemma EnclosedIff(b: Bytes, body: Bytes, first: char, c: Byte)
    requires c == first as int
    ensures Between(b, first, 'e') && Inside(b) == body <==> b == [c] + body + [E]
  {
    if Between(b, first, 'e') && Inside(b) == body {
      assert b == [b[0]] + b[1..|b| - 1] + [b[|b| - 1]];
    }
    if b == [c] + body + [E] {
      assert Inside(b) == body;
    }
  }

  lemma {:induction false} StrictIsPrinted(b: Bytes, v: Value)
    requires IsValue(b, v, true)
    ensures b == Print(v)
    decreases |b|, 0
  {
    match v {
      case Str(s) => StringStrictIff(b, s);
      case Integer(i) =>
        NumberStrictIff(Inside(b), i);
        EnclosedIff(b, Inside(b), 'i', I);
      case List(items) =>
        StrictItems(Inside(b), items);
        EnclosedIff(b, Inside(b), 'l', L);
      case Dict(m) =>
        var pairs := PairsOf(b, m, true);
        StrictDict(v, pairs);
        StrictEntries(Inside(b), v, pairs, m.Keys);
        EnclosedIff(b, Inside(b), 'd', D);
    }
  }

  lemma {:induction false} StrictItems(b: Bytes, items: seq<Value>)
    requires AreItems(b, items, true)
    ensures b == PrintItems(items)
    decreases |b|, 2
  {
    if items != [] {
      var k := ItemsSplit(b, items, true);
      StrictIsPrinted(b[..k], items[0]);
      StrictItems(b[k..], items[1..]);
      assert b == b[..k] + b[k..];
    }
  }

  /** The pairs are those of the dictionary with the given keys, each once. */
  ghost predicate PairsFor(v: Value, pairs: Pairs, keys: set<Bytes>)
    requires v.Dict?
  {
    && (forall i :: 0 <= i < |pairs| ==>
          pairs[i].0 in keys && pairs[i].0 in v.entries && pairs[i].1 == v.entries[pairs[i].0])
    && (forall k :: k in keys ==> exists i :: 0 <= i < |pairs| && pairs[i].0 == k)
  }

  lemma StrictDict(v: Value, pairs: Pairs)
    requires v.Dict? && MadeOf(v.entries, pairs) && KeysAscend(pairs)
    ensures PairsFor(v, pairs, v.entries.Keys)
  {
    forall i | 0 <= i < |pairs| ensures pairs[i].0 in v.entries && pairs[i].1 == v.entries[pairs[i].0] {
      forall j | i < j < |pairs| ensures pairs[j].0 != pairs[i].0 {
        BeforeIff(pairs[i].0, pairs[j].0);
        LexIrreflexive(pairs[i].0);
      }
      assert LastWithKey(pairs, i);
      HeldIsThere(v.entries, pairs, pairs[i].0, pairs[i].1);
    }
    forall k | k in v.entries.Keys ensures exists i :: 0 <= i < |pairs| && pairs[i].0 == k {
      assert HeldLast(pairs, k, v.entries[k]);
    }
  }

  /** Of ascending pairs the first has the least key, and the others are those for the other keys. */
  lemma FirstPair(v: Value, pairs: Pairs, keys: set<Bytes>)
    requires v.Dict? && PairsFor(v, pairs, keys) && KeysAscend(pairs) && pairs != []
    ensures IsLeast(pairs[0].0, keys) && KeysAscend(pairs[1..]) && PairsFor(v, pairs[1..], keys - {pairs[0].0})
  {
    forall j | 0 < j < |pairs| ensures LexLess(pairs[0].0, pairs[j].0) && pairs[j].0 != pairs[0].0 {
      BeforeIff(pairs[0].0, pairs[j].0);
      LexIrreflexive(pairs[0].0);
    }
    forall k | k in keys - {pairs[0].0} ensures exists i :: 0 <= i < |pairs[1..]| && pairs[1..][i].0 == k {
      var i :| 0 <= i < |pairs| && pairs[i].0 == k;
      assert pairs[1..][i - 1].0 == k;
    }
  }

  lemma {:induction false} StrictEntries(b: Bytes, v: Value, pairs: Pairs, keys: set<Bytes>)
    requires AreEntries(b, pairs, true) && KeysAscend(pairs)
    requires v.Dict? && keys <= v.entries.Keys && PairsFor(v, pairs, keys)
    ensures b == PrintEntries(v, SortedKeys(keys))
    decreases |b|, 2
  {
    if pairs == [] {
      assert keys == {};
    } else {
      var k := EntriesSplit(b, pairs, true);
      var x := pairs[0];
      FirstPair(v, pairs, keys);
      StrictEntry(b[..k], x.0, x.1);
      StrictEntries(b[k..], v, pairs[1..], keys - {x.0});
      LeastPrinted(b, k, v, keys, x.0);
    }
  }

  lemma LeastPrinted(b: Bytes, j: nat, v: Value, keys: set<Bytes>, k: Bytes)
    requires v.Dict? && keys <= v.entries.Keys && IsLeast(k, keys) && j <= |b|
    requires b[..j] == PrintBytes(k) + Print(v.entries[k]) && b[j..] == PrintEntries(v, SortedKeys(keys - {k}))
    ensures b == PrintEntries(v, SortedKeys(keys))
  {
    var sorted := SortedKeys(keys);
    FirstSortedKey(k, keys);
    assert sorted[1..] == SortedKeys(keys - {k}) && sorted[0] == k;
    assert b == b[..j] + b[j..];
  }

  lemma {:induction false} StrictEntry(b: Bytes, k: Bytes, v: Value)
    requires IsEntry(b, k, v, true)
    ensures b == PrintBytes(k) + Print(v)
    decreases |b|, 1
  {
    var j := EntrySplit(b, k, v, true);
    StringStrictIff(b[..j], k);
    StrictIsPrinted(b[j..], v);
    assert b == b[..j] + b[j..];
  }

  lemma {:induction false} PrintedIsStrict(v: Value)
    ensures IsValue(Print(v), v, true)
    decreases v, 1, 0
  {
    match v {
      case Str(s) => StringStrictIff(Print(v), s);
      case Integer(i) =>
        EnclosedIff(Print(v), PrintInt(i), 'i', I);
        NumberStrictIff(PrintInt(i), i);
      case List(items) =>
        EnclosedIff(Print(v), PrintItems(items), 'l', L);
        PrintedItems(items);
      case Dict(m) =>
        var keys := SortedKeys(m.Keys);
        EnclosedIff(Print(v), PrintEntries(v, keys), 'd', D);
        PrintedEntries(v, keys);
        SortedPairs(v, m, keys);
        assert AreEntries(Inside(Print(v)), PairsAt(v, keys), true);
    }
  }

  lemma {:induction false} PrintedItems(items: seq<Value>)
    ensures AreItems(PrintItems(items), items, true)
    decreases items, 1
  {
    if items != [] {
      PrintedIsStrict(items[0]);
      PrintedItems(items[1..]);
      PrintStarts(items[0]);
      FirstItem(Print(items[0]), items[0], PrintItems(items[1..]), items);
    }
  }

  lemma FirstItem(p: Bytes, v: Value, q: Bytes, items: seq<Value>)
    requires items != [] && p != [] && IsValue(p, items[0], true) && AreItems(q, items[1..], true)
    ensures AreItems(p + q, items, true)
  {
    assert (p + q)[..|p|] == p && (p + q)[|p|..] == q;
  }

  ghost function PairsAt(v: Value, keys: seq<Bytes>): Pairs
    requires v.Dict? && forall k :: k in keys ==> k in v.entries
  {
    seq(|keys|, i requires 0 <= i < |keys| => (keys[i], v.entries[keys[i]]))
  }

  lemma {:induction false} PrintedEntries(v: Value, keys: seq<Bytes>)
    requires v.Dict? && forall k :: k in keys ==> k in v.entries
    ensures AreEntries(PrintEntries(v, keys), PairsAt(v, keys), true)
    decreases v, 0, |keys|
  {
    if keys != [] {
      var k, x := keys[0], v.entries[keys[0]];
      PrintedIsStrict(x);
      PrintedEntries(v, keys[1..]);
      StringStrictIff(PrintBytes(k), k);
      assert PairsAt(v, keys)[1..] == PairsAt(v, keys[1..]);
      FirstEntry(PrintBytes(k), k, Print(x), x, PrintEntries(v, keys[1..]), PairsAt(v, keys));
    }
  }

  lemma FirstEntry(key: Bytes, k: Bytes, val: Bytes, x: Value, q: Bytes, pairs: Pairs)
    requires pairs != [] && pairs[0] == (k, x) && IsString(key, k, true) && IsValue(val, x, true)
    requires AreEntries(q, pairs[1..], true)
    ensures AreEntries(key + val + q, pairs, true)
  {
    var p := key + val;
    assert p[..|key|] == key && p[|key|..] == val;
    assert IsEntry(p, k, x, true);
    assert (p + q)[..|p|] == p && (p + q)[|p|..] == q;
  }

  lemma SortedPairs(v: Value, m: map<Bytes, Value>, keys: seq<Bytes>)
    requires v == Dict(m) && keys == SortedKeys(m.Keys)
    ensures MadeOf(m, PairsAt(v, keys)) && KeysAscend(PairsAt(v, keys))
  {
    var pairs := PairsAt(v, keys);
    SortedKeysAscend(m.Keys);
    forall i, j | 0 <= i < j < |pairs| ensures Before(pairs[i].0, pairs[j].0) && pairs[i].0 != pairs[j].0 {
      BeforeIff(pairs[i].0, pairs[j].0);
      LexIrreflexive(pairs[i].0);
    }
    forall k | k in m ensures HeldLast(pairs, k, m[k]) {
      assert k in keys;
      var i :| 0 <= i < |keys| && keys[i] == k;
      assert LastWithKey(pairs, i) && pairs[i] == (k, m[k]);
    }
  }

  /** The writer's encoding of a value is its one strict form. */
  lemma PrintsIff(b: Bytes, v: Value)
    ensures IsValue(b, v, true) <==> b == Print(v)
  {
    if IsValue(b, v, true) { StrictIsPrinted(b, v); }
    if b == Print(v) { PrintedIsStrict(v); }
  }

  /** The strict form is part of the loose one. */
  lemma StrictIsLoose(b: Bytes, v: Value)
    requires IsValue(b, v, true)
    ensures IsValue(b, v, false)
  {
    StrictIsPrinted(b, v);
    PrintParses(v);
    var p := ValueFound(b);
    assert p + [] == p;
  }
  /** It is a smaller part: a sign alone is read as 0. */
  lemma SignAlone(b: Bytes)
    requires b == ['i' as int, '-' as int, 'e' as int]
    ensures IsValue(b, Integer(0), false) && !IsValue(b, Integer(0), true)
  {
    assert Inside(b) == ['-' as int] && Inside(b)[1..] == [];
  }

  /** Nothing but one value is one value. */
  lemma WholeIff(b: Bytes, v: Value)
    ensures IsValue(b, v, false) <==> ParseValue(b).Ok? && ParseValue(b).value == v && ParseValue(b).rest == []
  {
    assert b + [] == b;
    ReadsIff(b, v, []);
    if IsValue(b, v, false) { var d := ValueRead(b, v, []); }
    if ParseValue(b).Ok? && ParseValue(b).value == v && ParseValue(b).rest == [] {
      var p := ValueFound(b);
      assert p + [] == p;
    }
  }
}
