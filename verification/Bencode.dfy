/**
  Bencoding of dynamic values, as defined in the "bencoding" section of BEP 3 and read and
  written by crates/librtbit-bencode/src. This module gives the meaning of both directions
  and relates them; module BencodeCodec holds the cursor and the writer.
 */
module Bencode {
  import opened Octets
  import opened Numbers

  datatype Value =
    | Str(bytes: Bytes)
    | Integer(number: int)
    | List(items: seq<Value>)
    | Dict(entries: map<Bytes, Value>)

  datatype Error = InvalidValue | Eof | BytesRemaining(count: nat)

  /**
    The way to a failure: the dictionary keys that lead to it, and before each key, and before the
    failure itself, how many keys deep the values that were finished by then went.
   */
  datatype Trail = Here(done: nat) | Below(done: nat, key: Bytes, next: Trail)
  {
    function Path(): seq<Bytes> {
      if Here? then [] else [key] + next.Path()
    }

    /** The same way, after further values. */
    function After(depth: nat): Trail {
      this.(done := Max(depth, done))
    }
  }

  /**
    A parse: the value, what is left and how many keys deep the value goes, or the kind of error
    and the way to it.
   */
  datatype Parsed<+T> =
    | Ok(value: T, rest: Bytes, depth: nat)
    | Fail(error: Error, trail: Trail)

  const ZERO: Byte := 48
  const COLON: Byte := 58
  const PLUS: Byte := 43
  const MINUS: Byte := 45
  const D: Byte := 100
  const E: Byte := 101
  const I: Byte := 105
  const L: Byte := 108

  // ---------- Decimal numbers ----------

  predicate IsDigit(b: Byte) {
    ZERO <= b < ZERO + 10
  }

  predicate AllDigits(b: Bytes) {
    forall i :: 0 <= i < |b| ==> IsDigit(b[i])
  }

  function DigitCount(b: Bytes): (n: nat)
    ensures n <= |b| && AllDigits(b[..n]) && (n < |b| ==> !IsDigit(b[n]))
  {
    if b != [] && IsDigit(b[0]) then 1 + DigitCount(b[1..]) else 0
  }

  function DecimalValue(b: Bytes): nat
    requires AllDigits(b)
  {
    if b == [] then 0 else 10 * DecimalValue(b[..|b| - 1]) + (b[|b| - 1] as int - 48)
  }

  /** The digits at the start of the input, as a number, and how many there are. */
  function ScanUnsigned(b: Bytes): (r: (nat, nat))
    ensures r.1 <= |b|
  {
    var n := DigitCount(b);
    (DecimalValue(b[..n]), n)
  }

  /** The same with an optional sign, which counts towards the length. */
  function ScanSigned(b: Bytes): (r: (int, nat))
    ensures r.1 <= |b|
  {
    if b != [] && b[0] == MINUS then
      var (v, n) := ScanUnsigned(b[1..]);
      (-(v as int), n + 1)
    else if b != [] && b[0] == PLUS then
      var (v, n) := ScanUnsigned(b[1..]);
      (v, n + 1)
    else
      ScanUnsigned(b)
  }

  function Digits(n: nat): (r: Bytes)
    ensures |r| > 0 && AllDigits(r)
  {
    if n < 10 then [ZERO + n] else Digits(n / 10) + [ZERO + n % 10]
  }

  function PrintInt(i: int): Bytes {
    if i < 0 then [MINUS] + Digits(-i) else Digits(i)
  }

  lemma {:induction false} DecimalOfDigits(n: nat)
    ensures DecimalValue(Digits(n)) == n
  {
    if n >= 10 {
      DecimalOfDigits(n / 10);
      assert Digits(n)[..|Digits(n)| - 1] == Digits(n / 10);
    }
  }

  /** The scan takes the digits there are and stops at the first other byte. */
  lemma {:induction false} DigitCountIs(c: Bytes, n: nat)
    requires n <= |c| && AllDigits(c[..n]) && (n < |c| ==> !IsDigit(c[n]))
    ensures DigitCount(c) == n
  {
    if n > 0 {
      assert IsDigit(c[..n][0]) && c[1..][..n - 1] == c[..n][1..];
      DigitCountIs(c[1..], n - 1);
    }
  }

  lemma ScanIs(c: Bytes, n: nat, d: Bytes)
    requires n <= |c| && c[..n] == d && AllDigits(d) && (n < |c| ==> !IsDigit(c[n]))
    ensures ScanUnsigned(c) == (DecimalValue(d), n)
  {
    DigitCountIs(c, n);
  }

  lemma ScanDigits(n: nat, rest: Bytes)
    requires rest != [] ==> !IsDigit(rest[0])
    ensures ScanUnsigned(Digits(n) + rest) == (n, |Digits(n)|)
  {
    var d := Digits(n);
    DecimalOfDigits(n);
    assert (d + rest)[..|d|] == d;
    ScanIs(d + rest, |d|, d);
  }

  lemma ScanMinus(b: Bytes, digits: Bytes)
    requires b == [MINUS] + digits
    ensures var (v, n) := ScanUnsigned(digits); ScanSigned(b) == (-(v as int), 1 + n)
  {
    assert b[0] == MINUS && b[1..] == digits;
  }

  lemma ScanNegative(n: nat, rest: Bytes)
    requires rest != [] ==> !IsDigit(rest[0])
    ensures ScanSigned([MINUS] + Digits(n) + rest) == (-(n as int), 1 + |Digits(n)|)
  {
    ScanDigits(n, rest);
    ScanMinus([MINUS] + Digits(n) + rest, Digits(n) + rest);
  }

  lemma ScanPositive(n: nat, rest: Bytes)
    requires rest != [] ==> !IsDigit(rest[0])
    ensures ScanSigned(Digits(n) + rest) == (n, |Digits(n)|)
  {
    var d := Digits(n);
    ScanDigits(n, rest);
    assert (d + rest)[0] == d[0] && IsDigit(d[0]);
  }

  lemma ScanPrinted(i: int, rest: Bytes)
    requires rest != [] ==> !IsDigit(rest[0])
    ensures ScanSigned(PrintInt(i) + rest) == (i, |PrintInt(i)|)
  {
    if i < 0 { ScanNegative(-i, rest); } else { ScanPositive(i, rest); }
  }

  /** A scan that stopped at some byte does not depend on what follows that byte. */
  lemma ScanUnsignedLocal(b: Bytes, c: Bytes)
    requires var n := DigitCount(b); n < |b| && n < |c| && c[..n + 1] == b[..n + 1]
    ensures ScanUnsigned(c) == ScanUnsigned(b)
  {
    ScanLocalAt(b, c, DigitCount(b));
  }

  lemma ScanLocalAt(b: Bytes, c: Bytes, n: nat)
    requires n < |b| && n < |c| && c[..n + 1] == b[..n + 1] && AllDigits(b[..n]) && !IsDigit(b[n])
    ensures ScanUnsigned(c) == ScanUnsigned(b)
  {
    SamePrefix(b, c, n);
    ScanIs(b, n, b[..n]);
    ScanIs(c, n, b[..n]);
  }

  lemma SamePrefix(b: Bytes, c: Bytes, n: nat)
    requires n < |b| && n < |c| && c[..n + 1] == b[..n + 1]
    ensures c[..n] == b[..n] && c[n] == b[n]
  {
    assert c[n] == c[..n + 1][n] == b[n];
    assert c[..n] == c[..n + 1][..n] && b[..n] == b[..n + 1][..n];
  }

  lemma ScanSignedLocal(b: Bytes, c: Bytes)
    requires var n := ScanSigned(b).1; 0 < n < |b| && n < |c| && c[..n + 1] == b[..n + 1]
    ensures ScanSigned(c) == ScanSigned(b)
  {
    var n := ScanSigned(b).1;
    assert c[0] == c[..n + 1][0] == b[0];
    if b[0] == MINUS || b[0] == PLUS {
      assert c[1..][..n] == c[..n + 1][1..] && b[1..][..n] == b[..n + 1][1..];
      ScanUnsignedLocal(b[1..], c[1..]);
    } else {
      ScanUnsignedLocal(b, c);
    }
  }

  // ---------- Parsing ----------

  predicate StartsWith(b: Bytes, c: Byte) {
    b != [] && b[0] == c
  }

  function ParseBytes(b: Bytes): (r: Parsed<Bytes>)
    ensures r.Ok? ==> |r.rest| < |b|
  {
    var (v, n) := ScanUnsigned(b);
    if n > 0 && n < |b| && b[n] == COLON then
      var rest := b[n + 1..];
      if v <= |rest| then Ok(rest[..v], rest[v..], 0) else Fail(Eof, Here(0))
    else
      Fail(InvalidValue, Here(0))
  }

  function ParseInteger(b: Bytes): (r: Parsed<Value>)
    requires StartsWith(b, I)
    ensures r.Ok? ==> |r.rest| < |b|
  {
    var s := b[1..];
    var (v, n) := ScanSigned(s);
    if n > 0 && n < |s| && s[n] == E then Ok(Integer(v), s[n + 1..], 0) else Fail(InvalidValue, Here(0))
  }

  function ParseValue(b: Bytes): (r: Parsed<Value>)
    ensures r.Ok? ==> |r.rest| < |b|
    decreases |b|, 1
  {
    if b == [] then Fail(Eof, Here(0))
    else if b[0] == D then
      (match ParseEntries(b[1..], map[], 0)
       case Ok(m, rest, d) => Ok(Dict(m), rest, d)
       case Fail(e, t) => Fail(e, t))
    else if b[0] == I then ParseInteger(b)
    else if b[0] == L then
      (match ParseItems(b[1..], [], 0)
       case Ok(s, rest, d) => Ok(List(s), rest, d)
       case Fail(e, t) => Fail(e, t))
    else
      (match ParseBytes(b)
       case Ok(s, rest, d) => Ok(Str(s), rest, d)
       case Fail(e, t) => Fail(e, t))
  }

  /** The rest of a list, after the given items; depth is how deep those went. */
  function ParseItems(b: Bytes, acc: seq<Value>, depth: nat): (r: Parsed<seq<Value>>)
    ensures r.Ok? ==> |r.rest| < |b|
    decreases |b|, 2
  {
    if StartsWith(b, E) then Ok(acc, b[1..], depth)
    else
      match ParseValue(b)
      case Fail(e, t) => Fail(e, t.After(depth))
      case Ok(v, rest, d) => ParseItems(rest, acc + [v], Max(depth, d))
  }

  function ParseEntry(b: Bytes): (r: Parsed<(Bytes, Value)>)
    ensures r.Ok? ==> |r.rest| < |b|
    decreases |b|, 2
  {
    match ParseBytes(b)
    case Fail(e, t) => Fail(e, t)
    case Ok(k, afterKey, _) =>
      match ParseValue(afterKey)
      case Fail(e, t) => Fail(e, Below(0, k, t))
      case Ok(v, rest, d) => Ok((k, v), rest, d + 1)
  }

  /** The rest of a dictionary, after the given entries; a repeated key replaces the earlier one. */
  function ParseEntries(b: Bytes, acc: map<Bytes, Value>, depth: nat): (r: Parsed<map<Bytes, Value>>)
    ensures r.Ok? ==> |r.rest| < |b|
    decreases |b|, 3
  {
    if StartsWith(b, E) then Ok(acc, b[1..], depth)
    else
      match ParseEntry(b)
      case Fail(e, t) => Fail(e, t.After(depth))
      case Ok(entry, rest, d) => ParseEntries(rest, acc[entry.0 := entry.1], Max(depth, d))
  }

  lemma ItemsStep(b: Bytes, acc: seq<Value>, depth: nat, v: Parsed<Value>, r: Parsed<seq<Value>>)
    requires !StartsWith(b, E) && ParseValue(b) == v && v.Ok?
    requires r == ParseItems(v.rest, acc + [v.value], Max(depth, v.depth))
    ensures ParseItems(b, acc, depth) == r
  {
  }

  lemma ListStep(b: Bytes, r: Parsed<seq<Value>>)
    requires StartsWith(b, L) && ParseItems(b[1..], [], 0) == r && r.Ok?
    ensures ParseValue(b) == Ok(List(r.value), r.rest, r.depth)
  {
  }

  lemma DictStep(b: Bytes, r: Parsed<map<Bytes, Value>>)
    requires StartsWith(b, D) && ParseEntries(b[1..], map[], 0) == r && r.Ok?
    ensures ParseValue(b) == Ok(Dict(r.value), r.rest, r.depth)
  {
  }

  lemma EntryStep(b: Bytes, k: Parsed<Bytes>, v: Parsed<Value>)
    requires ParseBytes(b) == k && k.Ok? && ParseValue(k.rest) == v && v.Ok?
    ensures ParseEntry(b) == Ok((k.value, v.value), v.rest, v.depth + 1)
  {
  }

  lemma EntryParts(b: Bytes) returns (k: Parsed<Bytes>, v: Parsed<Value>)
    requires ParseEntry(b).Ok?
    ensures k == ParseBytes(b) && k.Ok? && v == ParseValue(k.rest) && v.Ok?
    ensures ParseEntry(b) == Ok((k.value, v.value), v.rest, v.depth + 1)
  {
    k := ParseBytes(b);
    v := ParseValue(k.rest);
  }

  lemma EntriesStep(b: Bytes, acc: map<Bytes, Value>, depth: nat,
                    x: Parsed<(Bytes, Value)>, r: Parsed<map<Bytes, Value>>)
    requires !StartsWith(b, E) && ParseEntry(b) == x && x.Ok?
    requires r == ParseEntries(x.rest, acc[x.value.0 := x.value.1], Max(depth, x.depth))
    ensures ParseEntries(b, acc, depth) == r
  {
  }

  /** Reading a list or a dictionary has come to b with these items or entries, and will end in r. */
  ghost predicate ItemsAt(b: Bytes, acc: seq<Value>, depth: nat, r: Parsed<seq<Value>>) {
    r == ParseItems(b, acc, depth)
  }

  ghost predicate EntriesAt(b: Bytes, acc: map<Bytes, Value>, depth: nat, r: Parsed<map<Bytes, Value>>) {
    r == ParseEntries(b, acc, depth)
  }

  lemma ItemsRound(b: Bytes, acc: seq<Value>, depth: nat, v: Parsed<Value>, r: Parsed<seq<Value>>)
    requires v == ParseValue(b) && ItemsAt(b, acc, depth, r)
    ensures StartsWith(b, E) ==> r == Ok(acc, b[1..], depth)
    ensures !StartsWith(b, E) && v.Ok? ==> ItemsAt(v.rest, acc + [v.value], Max(depth, v.depth), r)
    ensures !StartsWith(b, E) && v.Fail? ==> r == Fail(v.error, v.trail.After(depth))
  {
  }

  lemma EntryRound(b: Bytes, k: Parsed<Bytes>, r: Parsed<(Bytes, Value)>)
    requires k == ParseBytes(b) && r == ParseEntry(b)
    ensures k.Fail? ==> r == Fail(k.error, Here(0))
    ensures k.Ok? ==>
              match ParseValue(k.rest)
              case Fail(e, t) => r == Fail(e, Below(0, k.value, t))
              case Ok(v, rest, d) => r == Ok((k.value, v), rest, d + 1)
  {
  }

  lemma EntriesRound(b: Bytes, acc: map<Bytes, Value>, depth: nat,
                     x: Parsed<(Bytes, Value)>, r: Parsed<map<Bytes, Value>>)
    requires x == ParseEntry(b) && EntriesAt(b, acc, depth, r)
    ensures StartsWith(b, E) ==> r == Ok(acc, b[1..], depth)
    ensures !StartsWith(b, E) && x.Ok? ==> EntriesAt(x.rest, acc[x.value.0 := x.value.1], Max(depth, x.depth), r)
    ensures !StartsWith(b, E) && x.Fail? ==> r == Fail(x.error, x.trail.After(depth))
  {
  }

  // ---------- Printing ----------

  function PrintBytes(s: Bytes): Bytes {
    Digits(|s|) + [COLON] + s
  }

  ghost function Print(v: Value): Bytes
    decreases v, 1, 0
  {
    match v
    case Str(s) => PrintBytes(s)
    case Integer(i) => [I] + PrintInt(i) + [E]
    case List(items) => [L] + PrintItems(items) + [E]
    case Dict(m) => [D] + PrintEntries(v, SortedKeys(m.Keys)) + [E]
  }

  ghost function PrintItems(s: seq<Value>): Bytes
    decreases s, 1
  {
    if s == [] then [] else Print(s[0]) + PrintItems(s[1..])
  }

  ghost function PrintEntries(v: Value, keys: seq<Bytes>): Bytes
    requires v.Dict? && forall k :: k in keys ==> k in v.entries
    decreases v, 0, |keys|
  {
    if keys == [] then []
    else PrintBytes(keys[0]) + Print(v.entries[keys[0]]) + PrintEntries(v, keys[1..])
  }

  // ---------- The parser is local ----------

  /** How many bytes of b were taken when rest is left. */
  ghost function Taken(b: Bytes, rest: Bytes): nat
    requires |rest| <= |b|
  {
    |b| - |rest|
  }

  /** b cut off where rest begins and continued with t instead. */
  ghost function Retail(b: Bytes, rest: Bytes, t: Bytes): Bytes
    requires |rest| <= |b|
  {
    b[..Taken(b, rest)] + t
  }

  lemma CutLater(b: Bytes, k: nat, m: nat, t: Bytes)
    requires k <= m <= |b|
    ensures (b[..m] + t)[..k] == b[..k] && (b[..m] + t)[k..] == b[k..][..m - k] + t
  {
    assert b[..m] == b[..k] + b[k..][..m - k];
  }

  lemma ParseBytesLocal(b: Bytes, t: Bytes)
    requires ParseBytes(b).Ok?
    ensures var r := ParseBytes(b);
            r.rest == b[Taken(b, r.rest)..] && ParseBytes(Retail(b, r.rest, t)) == r.(rest := t)
  {
    var r := ParseBytes(b);
    var (v, n) := ScanUnsigned(b);
    var c := Retail(b, r.rest, t);
    assert Taken(b, r.rest) == n + 1 + v;
    CutLater(b, n + 1, n + 1 + v, t);
    ScanUnsignedLocal(b, c);
    assert c[n] == c[..n + 1][n] == b[n];
    assert c[n + 1..] == b[n + 1..][..v] + t;
  }

  lemma ParseIntegerLocal(b: Bytes, t: Bytes)
    requires StartsWith(b, I) && ParseInteger(b).Ok?
    ensures var r := ParseInteger(b);
            && r.rest == b[Taken(b, r.rest)..]
            && StartsWith(Retail(b, r.rest, t), I) && ParseInteger(Retail(b, r.rest, t)) == r.(rest := t)
  {
    var r, s := ParseInteger(b), b[1..];
    var (v, n) := ScanSigned(s);
    var c := Retail(b, r.rest, t);
    assert Taken(b, r.rest) == n + 2;
    assert c[1..][..n + 1] == s[..n + 1];
    ScanSignedLocal(s, c[1..]);
    assert c[1..][n] == c[1..][..n + 1][n] == s[n];
    assert c[1..][n + 1..] == t;
  }

  /** Two parses in a row, as one cut sees them. */
  lemma TwoParses<A, B>(b: Bytes, r1: Parsed<A>, r2: Parsed<B>, t: Bytes)
    requires r1.Ok? && |r1.rest| <= |b| && r1.rest == b[Taken(b, r1.rest)..]
    requires r2.Ok? && |r2.rest| <= |r1.rest| && r2.rest == r1.rest[Taken(r1.rest, r2.rest)..]
    ensures Retail(b, r2.rest, t) == Retail(b, r1.rest, Retail(r1.rest, r2.rest, t))
    ensures r2.rest == b[Taken(b, r2.rest)..]
  {
  }

  /**
    If parsing b succeeds, parsing the bytes it took followed by anything else gives the same
    value and leaves that anything else.
   */
  lemma {:induction false} ParseValueLocal(b: Bytes, t: Bytes)
    requires ParseValue(b).Ok?
    ensures var r := ParseValue(b);
            r.rest == b[Taken(b, r.rest)..] && ParseValue(Retail(b, r.rest, t)) == r.(rest := t)
    decreases |b|, 1
  {
    if b[0] == D {
      ParseEntriesLocal(b[1..], map[], 0, t);
      DictLocal(b, ParseEntries(b[1..], map[], 0), t);
    } else if b[0] == I {
      ParseIntegerLocal(b, t);
      assert Retail(b, ParseInteger(b).rest, t)[0] == I;
    } else if b[0] == L {
      ParseItemsLocal(b[1..], [], 0, t);
      ListLocal(b, ParseItems(b[1..], [], 0), t);
    } else {
      ParseBytesLocal(b, t);
      assert Retail(b, ParseBytes(b).rest, t)[0] == b[0];
    }
  }

  lemma TailLocal(b: Bytes, rest: Bytes, t: Bytes)
    requires b != [] && |rest| < |b[1..]| && rest == b[1..][Taken(b[1..], rest)..]
    ensures rest == b[Taken(b, rest)..]
    ensures var c := Retail(b, rest, t); c != [] && c[0] == b[0] && c[1..] == Retail(b[1..], rest, t)
  {
  }

  lemma DictLocal(b: Bytes, p: Parsed<map<Bytes, Value>>, t: Bytes)
    requires StartsWith(b, D) && p == ParseEntries(b[1..], map[], 0) && p.Ok?
    requires p.rest == b[1..][Taken(b[1..], p.rest)..]
    requires ParseEntries(Retail(b[1..], p.rest, t), map[], 0) == p.(rest := t)
    ensures ParseValue(b) == Ok(Dict(p.value), p.rest, p.depth) && p.rest == b[Taken(b, p.rest)..]
    ensures ParseValue(Retail(b, p.rest, t)) == Ok(Dict(p.value), t, p.depth)
  {
    TailLocal(b, p.rest, t);
    DictStep(b, p);
    DictStep(Retail(b, p.rest, t), p.(rest := t));
  }

  lemma ListLocal(b: Bytes, p: Parsed<seq<Value>>, t: Bytes)
    requires StartsWith(b, L) && p == ParseItems(b[1..], [], 0) && p.Ok?
    requires p.rest == b[1..][Taken(b[1..], p.rest)..]
    requires ParseItems(Retail(b[1..], p.rest, t), [], 0) == p.(rest := t)
    ensures ParseValue(b) == Ok(List(p.value), p.rest, p.depth) && p.rest == b[Taken(b, p.rest)..]
    ensures ParseValue(Retail(b, p.rest, t)) == Ok(List(p.value), t, p.depth)
  {
    TailLocal(b, p.rest, t);
    ListStep(b, p);
    ListStep(Retail(b, p.rest, t), p.(rest := t));
  }

  lemma {:induction false} ParseItemsLocal(b: Bytes, acc: seq<Value>, depth: nat, t: Bytes)
    requires ParseItems(b, acc, depth).Ok?
    ensures var r := ParseItems(b, acc, depth);
            r.rest == b[Taken(b, r.rest)..] && ParseItems(Retail(b, r.rest, t), acc, depth) == r.(rest := t)
    decreases |b|, 3
  {
    var r := ParseItems(b, acc, depth);
    var c := Retail(b, r.rest, t);
    if StartsWith(b, E) {
      assert c[0] == E && c[1..] == t;
    } else {
      var v := ParseValue(b);
      var t' := Retail(v.rest, r.rest, t);
      ParseValueLocal(b, t');
      ParseItemsLocal(v.rest, acc + [v.value], Max(depth, v.depth), t);
      TwoParses(b, v, r, t);
      assert c[0] == b[0];
      ItemsStep(c, acc, depth, v.(rest := t'), r.(rest := t));
    }
  }

  lemma {:induction false} ParseEntryLocal(b: Bytes, r: Parsed<(Bytes, Value)>, t: Bytes)
    requires r == ParseEntry(b) && r.Ok?
    ensures r.rest == b[Taken(b, r.rest)..] && ParseEntry(Retail(b, r.rest, t)) == r.(rest := t)
    decreases |b|, 2
  {
    var k, v := EntryParts(b);
    ParseBytesLocal(b, Retail(k.rest, v.rest, t));
    ParseValueLocal(k.rest, t);
    EntryLocal(b, t, k, v);
  }

  lemma EntryLocal(b: Bytes, t: Bytes, k: Parsed<Bytes>, v: Parsed<Value>)
    requires k.Ok? && |k.rest| <= |b| && k.rest == b[Taken(b, k.rest)..]
    requires v.Ok? && |v.rest| <= |k.rest| && v.rest == k.rest[Taken(k.rest, v.rest)..]
    requires var t' := Retail(k.rest, v.rest, t);
             ParseBytes(Retail(b, k.rest, t')) == k.(rest := t') && ParseValue(t') == v.(rest := t)
    ensures v.rest == b[Taken(b, v.rest)..]
    ensures ParseEntry(Retail(b, v.rest, t)) == Ok((k.value, v.value), t, v.depth + 1)
  {
    TwoParses(b, k, v, t);
    EntryStep(Retail(b, v.rest, t), k.(rest := Retail(k.rest, v.rest, t)), v.(rest := t));
  }

  lemma {:induction false} ParseEntriesLocal(b: Bytes, acc: map<Bytes, Value>, depth: nat, t: Bytes)
    requires ParseEntries(b, acc, depth).Ok?
    ensures var r := ParseEntries(b, acc, depth);
            r.rest == b[Taken(b, r.rest)..] && ParseEntries(Retail(b, r.rest, t), acc, depth) == r.(rest := t)
    decreases |b|, 3
  {
    var r := ParseEntries(b, acc, depth);
    var c := Retail(b, r.rest, t);
    if StartsWith(b, E) {
      assert c[0] == E && c[1..] == t;
    } else {
      var x := ParseEntry(b);
      var t' := Retail(x.rest, r.rest, t);
      ParseEntryLocal(b, x, t');
      ParseEntriesLocal(x.rest, acc[x.value.0 := x.value.1], Max(depth, x.depth), t);
      TwoParses(b, x, r, t);
      assert c[0] == b[0];
      EntriesStep(c, acc, depth, x.(rest := t'), r.(rest := t));
    }
  }

  /** WithRawBytes: the captured bytes parse, on their own, to the same value with nothing left. */
  lemma RawBytesReparse(b: Bytes)
    requires ParseValue(b).Ok?
    ensures var r := ParseValue(b);
            ParseValue(b[..Taken(b, r.rest)]) == r.(rest := [])
  {
    var r := ParseValue(b);
    ParseValueLocal(b, []);
    assert b[..Taken(b, r.rest)] + [] == b[..Taken(b, r.rest)];
  }

  // ---------- Parsing what was printed ----------

  ghost function DictDepth(v: Value): nat
    decreases v, 1, 0
  {
    match v
    case Str(_) => 0
    case Integer(_) => 0
    case List(items) => ItemsDepth(items)
    case Dict(m) => EntriesDepth(v, SortedKeys(m.Keys))
  }

  ghost function ItemsDepth(s: seq<Value>): nat
    decreases s, 1
  {
    if s == [] then 0 else Max(DictDepth(s[0]), ItemsDepth(s[1..]))
  }

  ghost function EntriesDepth(v: Value, keys: seq<Bytes>): nat
    requires v.Dict? && forall k :: k in keys ==> k in v.entries
    decreases v, 0, |keys|
  {
    if keys == [] then 0 else Max(DictDepth(v.entries[keys[0]]) + 1, EntriesDepth(v, keys[1..]))
  }

  lemma ParsePrintedBytes(s: Bytes, rest: Bytes)
    ensures ParseBytes(PrintBytes(s) + rest) == Ok(s, rest, 0)
  {
    var b := PrintBytes(s) + rest;
    var tail := [COLON] + s + rest;
    assert b == Digits(|s|) + tail;
    ScanDigits(|s|, tail);
    assert b[|Digits(|s|)| + 1..] == s + rest;
  }

  lemma ParsePrintedInteger(i: int, rest: Bytes)
    ensures ParseValue(Print(Integer(i)) + rest) == Ok(Integer(i), rest, 0)
  {
    var b := Print(Integer(i)) + rest;
    assert b[1..] == PrintInt(i) + ([E] + rest);
    ScanPrinted(i, [E] + rest);
    assert b[1..][|PrintInt(i)| + 1..] == rest;
  }

  /** Printed values start with one of d, i, l or a digit, never with the end marker. */
  lemma PrintStarts(v: Value)
    ensures Print(v) != [] && Print(v)[0] != E
    ensures v.Str? ==> IsDigit(Print(v)[0])
  {
    if v.Str? { assert IsDigit(Digits(|v.bytes|)[0]); }
  }

  /** Parsing a printed value followed by anything gives the value and leaves the rest. */
  lemma {:induction false} RoundTrip(v: Value, rest: Bytes)
    ensures ParseValue(Print(v) + rest) == Ok(v, rest, DictDepth(v))
    decreases v, 1, 0
  {
    PrintStarts(v);
    match v {
      case Str(s) => ParsePrintedBytes(s, rest);
      case Integer(i) => ParsePrintedInteger(i, rest);
      case List(items) =>
        RoundTripItems(items, [], 0, rest);
        assert [] + items == items;
        ParsePrintedList(PrintItems(items), items, rest, ItemsDepth(items));
      case Dict(m) =>
        var keys := SortedKeys(m.Keys);
        RoundTripEntries(v, keys, map[], 0, rest, PrintEntries(v, keys) + ([E] + rest),
                         Ok(Overlay(map[], m, keys), rest, EntriesDepth(v, keys)));
        assert Overlay(map[], m, keys) == m;
        ParsePrintedDict(PrintEntries(v, keys), m, rest, EntriesDepth(v, keys));
    }
  }

  lemma ParsePrintedList(p: Bytes, items: seq<Value>, rest: Bytes, d: nat)
    requires ParseItems(p + ([E] + rest), [], 0) == Ok(items, rest, d)
    ensures ParseValue([L] + p + [E] + rest) == Ok(List(items), rest, d)
  {
    var b := [L] + p + [E] + rest;
    assert b[0] == L && b[1..] == p + ([E] + rest);
    ListStep(b, Ok(items, rest, d));
  }

  lemma ParsePrintedDict(p: Bytes, m: map<Bytes, Value>, rest: Bytes, d: nat)
    requires ParseEntries(p + ([E] + rest), map[], 0) == Ok(m, rest, d)
    ensures ParseValue([D] + p + [E] + rest) == Ok(Dict(m), rest, d)
  {
    var b := [D] + p + [E] + rest;
    assert b[0] == D && b[1..] == p + ([E] + rest);
    DictStep(b, Ok(m, rest, d));
  }

  lemma {:induction false} RoundTripItems(s: seq<Value>, acc: seq<Value>, depth: nat, rest: Bytes)
    ensures ParseItems(PrintItems(s) + ([E] + rest), acc, depth) == Ok(acc + s, rest, Max(depth, ItemsDepth(s)))
    decreases s, 1
  {
    if s == [] {
      ItemsEnd(rest, acc, depth);
      assert PrintItems(s) + ([E] + rest) == [E] + rest && acc + s == acc;
    } else {
      var tail := PrintItems(s[1..]) + ([E] + rest);
      PrintStarts(s[0]);
      RoundTrip(s[0], tail);
      RoundTripItems(s[1..], acc + [s[0]], Max(depth, DictDepth(s[0])), rest);
      AppendStep(acc, s);
      ParsePrintedItem(Print(s[0]), s[0], tail, DictDepth(s[0]), acc, depth,
                       Ok(acc + s, rest, Max(depth, ItemsDepth(s))));
      PrintItemsStep(s, [E] + rest);
    }
  }

  lemma ItemsEnd(rest: Bytes, acc: seq<Value>, depth: nat)
    ensures ParseItems([E] + rest, acc, depth) == Ok(acc, rest, depth)
  {
    assert ([E] + rest)[1..] == rest;
  }

  lemma AppendStep<T>(acc: seq<T>, s: seq<T>)
    requires s != []
    ensures acc + [s[0]] + s[1..] == acc + s
  {
  }

  lemma ParsePrintedItem(p: Bytes, x: Value, tail: Bytes, d: nat, acc: seq<Value>, depth: nat, r: Parsed<seq<Value>>)
    requires p != [] && p[0] != E && ParseValue(p + tail) == Ok(x, tail, d)
    requires ParseItems(tail, acc + [x], Max(depth, d)) == r
    ensures ParseItems(p + tail, acc, depth) == r
  {
    ItemsStep(p + tail, acc, depth, Ok(x, tail, d), r);
  }

  lemma PrintItemsStep(s: seq<Value>, rest: Bytes)
    requires s != []
    ensures PrintItems(s) + rest == Print(s[0]) + (PrintItems(s[1..]) + rest)
  {
  }

  /** acc, overwritten with the entries of m under the given keys. */
  ghost function Overlay(acc: map<Bytes, Value>, m: map<Bytes, Value>, keys: seq<Bytes>): map<Bytes, Value>
    requires forall k :: k in keys ==> k in m
  {
    acc + map k | k in keys :: m[k]
  }

  /** The printed entries under the given keys, read after those in acc. */
  lemma {:induction false} RoundTripEntries(v: Value, keys: seq<Bytes>, acc: map<Bytes, Value>, depth: nat, rest: Bytes,
                                            b: Bytes, r: Parsed<map<Bytes, Value>>)
    requires v.Dict? && forall k :: k in keys ==> k in v.entries
    requires b == PrintEntries(v, keys) + ([E] + rest)
    requires r == Ok(Overlay(acc, v.entries, keys), rest, Max(depth, EntriesDepth(v, keys)))
    ensures EntriesAt(b, acc, depth, r)
    decreases v, 0, |keys|
  {
    if keys == [] {
      EntriesEnd(v, acc, depth, rest, b, r);
    } else {
      var k, x := keys[0], v.entries[keys[0]];
      var tail := PrintEntries(v, keys[1..]) + ([E] + rest);
      EntriesOneMore(v, keys, acc, depth, rest, b, tail, r);
      RoundTripEntries(v, keys[1..], acc[k := x], Max(depth, DictDepth(x) + 1), rest, tail, r);
      RoundTripEntry(v, k, acc, depth, tail, b, r);
    }
  }

  lemma {:induction false} RoundTripEntry(v: Value, k: Bytes, acc: map<Bytes, Value>, depth: nat,
                                          tail: Bytes, b: Bytes, r: Parsed<map<Bytes, Value>>)
    requires v.Dict? && k in v.entries && b == PrintBytes(k) + (Print(v.entries[k]) + tail)
    requires EntriesAt(tail, acc[k := v.entries[k]], Max(depth, DictDepth(v.entries[k]) + 1), r)
    ensures EntriesAt(b, acc, depth, r)
    decreases v, 0, 0
  {
    var x := v.entries[k];
    RoundTrip(x, tail);
    ParsePrintedEntry(k, Print(x), x, tail, DictDepth(x), acc, depth, r, b);
  }

  lemma EntriesEnd(v: Value, acc: map<Bytes, Value>, depth: nat, rest: Bytes, b: Bytes, r: Parsed<map<Bytes, Value>>)
    requires v.Dict? && b == PrintEntries(v, []) + ([E] + rest)
    requires r == Ok(Overlay(acc, v.entries, []), rest, Max(depth, EntriesDepth(v, [])))
    ensures EntriesAt(b, acc, depth, r)
  {
    assert b == [E] + rest && Overlay(acc, v.entries, []) == acc;
  }

  lemma EntriesOneMore(v: Value, keys: seq<Bytes>, acc: map<Bytes, Value>, depth: nat, rest: Bytes,
                       b: Bytes, tail: Bytes, r: Parsed<map<Bytes, Value>>)
    requires v.Dict? && keys != [] && forall k :: k in keys ==> k in v.entries
    requires b == PrintEntries(v, keys) + ([E] + rest) && tail == PrintEntries(v, keys[1..]) + ([E] + rest)
    requires r == Ok(Overlay(acc, v.entries, keys), rest, Max(depth, EntriesDepth(v, keys)))
    ensures var k, x := keys[0], v.entries[keys[0]];
            && b == PrintBytes(k) + (Print(x) + tail)
            && r == Ok(Overlay(acc[k := x], v.entries, keys[1..]), rest,
                       Max(Max(depth, DictDepth(x) + 1), EntriesDepth(v, keys[1..])))
  {
    OverlayStep(acc, v.entries, keys);
    PrintEntriesStep(v, keys, [E] + rest);
  }

  lemma OverlayStep(acc: map<Bytes, Value>, m: map<Bytes, Value>, keys: seq<Bytes>)
    requires keys != [] && forall k :: k in keys ==> k in m
    ensures Overlay(acc[keys[0] := m[keys[0]]], m, keys[1..]) == Overlay(acc, m, keys)
  {
  }

  lemma PrintEntriesStep(v: Value, keys: seq<Bytes>, rest: Bytes)
    requires v.Dict? && keys != [] && forall k :: k in keys ==> k in v.entries
    ensures PrintEntries(v, keys) + rest
         == PrintBytes(keys[0]) + (Print(v.entries[keys[0]]) + (PrintEntries(v, keys[1..]) + rest))
  {
    Associate(PrintBytes(keys[0]), Print(v.entries[keys[0]]), PrintEntries(v, keys[1..]), rest);
  }

  lemma Associate(p: Bytes, q: Bytes, r: Bytes, rest: Bytes)
    ensures p + q + r + rest == p + (q + (r + rest))
  {
  }

  lemma ParsePrintedEntry(k: Bytes, p: Bytes, x: Value, tail: Bytes, d: nat,
                          acc: map<Bytes, Value>, depth: nat, r: Parsed<map<Bytes, Value>>, b: Bytes)
    requires b == PrintBytes(k) + (p + tail)
    requires ParseValue(p + tail) == Ok(x, tail, d) && EntriesAt(tail, acc[k := x], Max(depth, d + 1), r)
    ensures EntriesAt(b, acc, depth, r)
  {
    ParsePrintedBytes(k, p + tail);
    assert IsDigit(Digits(|k|)[0]);
    EntryStep(b, Ok(k, p + tail, 0), Ok(x, tail, d));
    EntriesStep(b, acc, depth, Ok((k, x), tail, d + 1), r);
  }

  /** A printed value parses back to itself, with nothing left. */
  lemma PrintParses(v: Value)
    ensures ParseValue(Print(v)) == Ok(v, [], DictDepth(v))
  {
    RoundTrip(v, []);
    assert Print(v) + [] == Print(v);
  }

  /** No encoding is a proper prefix of another, and different values have different encodings. */
  lemma PrefixFree(v: Value, w: Value, r: Bytes, s: Bytes)
    requires Print(v) + r == Print(w) + s
    ensures v == w && r == s
  {
    RoundTrip(v, r);
    RoundTrip(w, s);
  }

  /** Printing what was parsed is a normal form: parsing and printing it again changes nothing. */
  lemma PrintIsNormal(b: Bytes)
    requires ParseValue(b).Ok?
    ensures var v := ParseValue(b).value;
            ParseValue(Print(v)).Ok? && Print(ParseValue(Print(v)).value) == Print(v) && ParseValue(Print(v)).rest == []
  {
    PrintParses(ParseValue(b).value);
  }
}
