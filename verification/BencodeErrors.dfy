/**
  What the end-of-input error of the bencode reader means (crates/librtbit-bencode/src/deserialize.rs):
  the input has been cut short.
 */
module BencodeErrors {
  import opened Octets
  import opened Numbers
  import opened Bencode
  import opened BencodeGrammar

  ghost predicate CutOff<T>(p: Parsed<T>) {
    p.Fail? && p.error == Eof
  }

  ghost predicate Complete<T>(p: Parsed<T>) {
    p.Ok? && p.rest == []
  }

  lemma RetailBefore(b: Bytes, rest: Bytes, tail: Bytes)
    requires |rest| <= |b| && rest == b[Taken(b, rest)..]
    ensures Retail(b, rest, rest + tail) == b + tail
  {
  }

  /** What was read as a whole is read the same with something behind it. */
  lemma ReadBefore(b: Bytes, tail: Bytes)
    requires ParseValue(b).Ok?
    ensures ParseValue(b + tail) == ParseValue(b).(rest := ParseValue(b).rest + tail) && b[0] != E
  {
    var r := ParseValue(b);
    ParseValueLocal(b, r.rest + tail);
    RetailBefore(b, r.rest, tail);
    var p := ValueFound(b);
    ValueStarts(p, r.value);
  }

  lemma KeyBefore(b: Bytes, tail: Bytes)
    requires ParseBytes(b).Ok?
    ensures ParseBytes(b + tail) == ParseBytes(b).(rest := ParseBytes(b).rest + tail) && IsDigit(b[0])
  {
    var r := ParseBytes(b);
    ParseBytesLocal(b, r.rest + tail);
    RetailBefore(b, r.rest, tail);
    var p := StringFound(b);
    ValueStarts(p, Str(r.value));
  }

  lemma EntryBefore(b: Bytes, x: Parsed<(Bytes, Value)>, tail: Bytes)
    requires x == ParseEntry(b) && x.Ok?
    ensures ParseEntry(b + tail) == x.(rest := x.rest + tail) && IsDigit(b[0])
  {
    ParseEntryLocal(b, x, x.rest + tail);
    RetailBefore(b, x.rest, tail);
    EntryStarts(b, x);
  }

  lemma EntryStarts(b: Bytes, x: Parsed<(Bytes, Value)>)
    requires x == ParseEntry(b) && x.Ok?
    ensures b != [] && IsDigit(b[0])
  {
    var k, v := EntryParts(b);
    KeyBefore(b, []);
  }

  /** A byte string shorter than it says can be filled up. */
  lemma BytesCutOff(b: Bytes) returns (more: Bytes)
    requires CutOff(ParseBytes(b))
    ensures Complete(ParseBytes(b + more))
  {
    var (v, n) := ScanUnsigned(b);
    var rest := b[n + 1..];
    more := seq(v - |rest|, _ => 0);
    var c := b + more;
    assert c[..n + 1] == b[..n + 1];
    ScanUnsignedLocal(b, c);
    assert c[n] == b[n] && c[n + 1..] == rest + more;
  }

  lemma {:induction false} ValueCutOff(b: Bytes) returns (more: Bytes)
    requires CutOff(ParseValue(b))
    ensures Complete(ParseValue(b + more))
    decreases |b|, 1
  {
    if b == [] {
      more := Print(Str([]));
      PrintParses(Str([]));
      assert b + more == more;
    } else if b[0] == D {
      var s;
      more, s := EntriesCutOff(b[1..], map[], 0, ParseEntries(b[1..], map[], 0));
      assert (b + more)[1..] == b[1..] + more;
      DictStep(b + more, s);
    } else if b[0] == L {
      var s;
      more, s := ItemsCutOff(b[1..], [], 0, ParseItems(b[1..], [], 0));
      assert (b + more)[1..] == b[1..] + more;
      ListStep(b + more, s);
    } else {
      more := BytesCutOff(b);
      assert (b + more)[0] == b[0];
    }
  }

  lemma {:induction false} ItemsCutOff(b: Bytes, acc: seq<Value>, depth: nat, r: Parsed<seq<Value>>)
    returns (more: Bytes, s: Parsed<seq<Value>>)
    requires ItemsAt(b, acc, depth, r) && CutOff(r)
    ensures ItemsAt(b + more, acc, depth, s) && Complete(s)
    decreases |b|, 2
  {
    var v := ParseValue(b);
    ItemsRound(b, acc, depth, v, r);
    if v.Fail? {
      var m := ValueCutOff(b);
      more := m + [E];
      s := LastItem(b + m, acc, depth);
      Associated(b, m, [E]);
    } else {
      more, s := ItemsCutOff(v.rest, acc + [v.value], Max(depth, v.depth), r);
      ReadBefore(b, more);
      ItemsStep(b + more, acc, depth, v.(rest := v.rest + more), s);
    }
  }

  lemma LastItem(b: Bytes, acc: seq<Value>, depth: nat) returns (s: Parsed<seq<Value>>)
    requires Complete(ParseValue(b))
    ensures ItemsAt(b + [E], acc, depth, s) && Complete(s)
  {
    var v := ParseValue(b);
    ReadBefore(b, [E]);
    ItemsEnd([], acc + [v.value], Max(depth, v.depth));
    assert [E] + [] == [E] && [] + [E] == [E];
    s := ParseItems([E], acc + [v.value], Max(depth, v.depth));
    ItemsStep(b + [E], acc, depth, v.(rest := [E]), s);
  }

  lemma {:induction false} EntryCutOff(b: Bytes, x: Parsed<(Bytes, Value)>)
    returns (more: Bytes, y: Parsed<(Bytes, Value)>)
    requires x == ParseEntry(b) && CutOff(x)
    ensures y == ParseEntry(b + more) && Complete(y)
    decreases |b|, 1
  {
    var k := ParseBytes(b);
    EntryRound(b, k, x);
    if k.Fail? {
      var m := BytesCutOff(b);
      more, y := FirstValue(b, m, Print(Str([])));
    } else {
      var m := ValueCutOff(k.rest);
      KeyBefore(b, m);
      more := m;
      var v := ParseValue(k.rest + m);
      EntryStep(b + more, k.(rest := k.rest + m), v);
      y := ParseEntry(b + more);
    }
  }

  lemma FirstValue(b: Bytes, m: Bytes, p: Bytes) returns (more: Bytes, y: Parsed<(Bytes, Value)>)
    requires Complete(ParseBytes(b + m)) && p == Print(Str([]))
    ensures y == ParseEntry(b + more) && Complete(y)
  {
    more := m + p;
    KeyBefore(b + m, p);
    PrintParses(Str([]));
    Associated(b, m, p);
    EntryStep(b + m + p, ParseBytes(b + m).(rest := p), ParseValue(p));
    y := ParseEntry(b + m + p);
  }

  lemma Associated(b: Bytes, m: Bytes, p: Bytes)
    ensures b + m + p == b + (m + p) && [] + p == p
  {
  }

  lemma {:induction false} EntriesCutOff(b: Bytes, acc: map<Bytes, Value>, depth: nat, r: Parsed<map<Bytes, Value>>)
    returns (more: Bytes, s: Parsed<map<Bytes, Value>>)
    requires EntriesAt(b, acc, depth, r) && CutOff(r)
    ensures EntriesAt(b + more, acc, depth, s) && Complete(s)
    decreases |b|, 2
  {
    var x := ParseEntry(b);
    EntriesRound(b, acc, depth, x, r);
    if x.Fail? {
      var m, y := EntryCutOff(b, x);
      more := m + [E];
      s := LastEntry(b + m, y, acc, depth);
      Associated(b, m, [E]);
    } else {
      more, s := EntriesCutOff(x.rest, acc[x.value.0 := x.value.1], Max(depth, x.depth), r);
      EntryBefore(b, x, more);
      EntriesStep(b + more, acc, depth, x.(rest := x.rest + more), s);
    }
  }

  lemma LastEntry(b: Bytes, y: Parsed<(Bytes, Value)>, acc: map<Bytes, Value>, depth: nat)
    returns (s: Parsed<map<Bytes, Value>>)
    requires y == ParseEntry(b) && Complete(y)
    ensures EntriesAt(b + [E], acc, depth, s) && Complete(s)
  {
    EntryBefore(b, y, [E]);
    EntriesDone([], acc[y.value.0 := y.value.1], Max(depth, y.depth));
    assert [E] + [] == [E] && [] + [E] == [E];
    s := ParseEntries([E], acc[y.value.0 := y.value.1], Max(depth, y.depth));
    EntriesStep(b + [E], acc, depth, y.(rest := [E]), s);
  }

  /** An input that fails for its end is the start of a value. */
  lemma EofMeansCut(b: Bytes)
    requires ParseValue(b).Fail? && ParseValue(b).error == Eof
    ensures exists more, v :: IsValue(b + more, v, false)
  {
    var more := ValueCutOff(b);
    WholeIff(b + more, ParseValue(b + more).value);
  }

  /** So fail the empty input and a byte string that is shorter than it says. */
  lemma ShortIsEof(b: Bytes, n: nat)
    requires n < |b| && n > 0 && IsNumeral(b[..n]) && b[n] == ':' as int && Decimal(b[..n]) > |b| - n - 1
    ensures ParseValue(b) == Fail(Eof, Here(0)) && ParseValue([]) == Fail(Eof, Here(0))
  {
    NumeralIs(b[..n]);
    ScanIs(b, n, b[..n]);
    assert b[0] == b[..n][0];
  }
}
