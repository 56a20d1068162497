/**
  The reading cursor with its bounded error context and the writer with its sorted temporary
  map (crates/librtbit-bencode/src/deserialize.rs, serialize.rs, bencode_value.rs).
 */
module BencodeCodec {
  import opened Octets
  import opened Numbers
  import opened Bencode
  import opened ErrorContexts
  import BencodeGrammar

  datatype Result<+T> = Done(value: T) | Failed(error: Error)

  class Deserializer {
    var buf: Bytes
    var fieldContext: seq<Bytes>
    var fieldContextDidNotFit: nat
    var parsingKey: bool

    ghost predicate Valid()
      reads this
    {
      && |fieldContext| <= CONTEXT_SIZE && fieldContextDidNotFit <= COUNTER_MAX
      && (fieldContextDidNotFit > 0 ==> |fieldContext| == CONTEXT_SIZE)
    }

    ghost function Ctx(): Context
      reads this`fieldContext, this`fieldContextDidNotFit
    {
      Context(fieldContext, |fieldContext| + fieldContextDidNotFit)
    }

    constructor (buf: Bytes)
      ensures Valid() && this.buf == buf && Ctx() == EMPTY && !parsingKey
    {
      this.buf, fieldContext, fieldContextDidNotFit, parsingKey := buf, [], 0, false;
    }

    method ParseInteger() returns (r: Result<Value>)
      requires StartsWith(buf, I)
      modifies this`buf
      ensures var p := Bencode.ParseInteger(old(buf));
              if p.Ok? then r == Done(p.value) && buf == p.rest else r == Failed(p.error)
    {
      buf := buf[1..];
      var (v, n) := ScanSigned(buf);
      if n > 0 && n < |buf| && buf[n] == E {
        buf := buf[n + 1..];
        r := Done(Integer(v));
      } else {
        r := Failed(InvalidValue);
      }
    }

    /** Reads a byte string; a dictionary key is also pushed onto the context, or counted. */
    method ParseBytes() returns (r: Result<Bytes>)
      requires Valid()
      modifies this`buf, this`fieldContext, this`fieldContextDidNotFit
      ensures Valid()
      ensures var p := Bencode.ParseBytes(old(buf));
              if p.Ok? then r == Done(p.value) && buf == p.rest else r == Failed(p.error)
      ensures Ctx() == if parsingKey && r.Done? then old(Ctx()).Push(r.value) else old(Ctx())
    {
      var (v, n) := ScanUnsigned(buf);
      if !(n > 0 && n < |buf| && buf[n] == COLON) {
        return Failed(InvalidValue);
      }
      buf := buf[n + 1..];
      if v > |buf| {
        return Failed(Eof);
      }
      var bytes := buf[..v];
      buf := buf[v..];
      if parsingKey {
        if |fieldContext| < CONTEXT_SIZE {
          fieldContext := fieldContext + [bytes];
        } else {
          fieldContextDidNotFit := Min(fieldContextDidNotFit + 1, COUNTER_MAX);
        }
      }
      r := Done(bytes);
    }

    /** deserialize_any with the visitor of dynamic values. */
    method ReadValue() returns (r: Result<Value>)
      requires Valid() && !parsingKey
      modifies this
      ensures Valid() && (r.Done? ==> !parsingKey)
      ensures var p := ParseValue(old(buf));
              if p.Ok? then r == Done(p.value) && buf == p.rest && Ctx() == old(Ctx()).After(p.depth)
              else r == Failed(p.error) && Ctx().keys == Reported(old(Ctx()), p.trail)
      decreases |buf|, 1
    {
      ReportedHere(Ctx());
      if buf == [] {
        return Failed(Eof);
      }
      if buf[0] == D {
        r := ReadMap();
      } else if buf[0] == I {
        r := ParseInteger();
      } else if buf[0] == L {
        r := ReadSeq();
      } else {
        var s := ParseBytes();
        r := if s.Done? then Done(Str(s.value)) else Failed(s.error);
      }
    }

    method ReadSeq() returns (r: Result<Value>)
      requires Valid() && !parsingKey && StartsWith(buf, L)
      modifies this
      ensures Valid() && (r.Done? ==> !parsingKey)
      ensures var p := ParseItems(old(buf)[1..], [], 0);
              if p.Ok? then r == Done(List(p.value)) && buf == p.rest && Ctx() == old(Ctx()).After(p.depth)
              else r == Failed(p.error) && Ctx().keys == Reported(old(Ctx()), p.trail)
      decreases |buf|, 0
    {
      ghost var p := ParseItems(buf[1..], [], 0);
      buf := buf[1..];
      var v: seq<Value> := [];
      ghost var depth := 0;
      ReportedHere(Ctx());
      while true
        invariant Valid() && !parsingKey && |buf| < |old(buf)|
        invariant ItemsAt(buf, v, depth, p)
        invariant Ctx() == old(Ctx()).After(depth)
        decreases |buf|
      {
        ghost var q := ParseValue(buf);
        ItemsRound(buf, v, depth, q, p);
        if StartsWith(buf, E) {
          buf := buf[1..];
          return Done(List(v));
        }
        var value := ReadValue();
        if value.Failed? {
          ReportedAfter(old(Ctx()), depth, q.trail);
          return Failed(value.error);
        }
        AfterTwice(old(Ctx()), depth, q.depth);
        v := v + [value.value];
        depth := Max(depth, q.depth);
      }
    }

    method ReadMap() returns (r: Result<Value>)
      requires Valid() && !parsingKey && StartsWith(buf, D)
      modifies this
      ensures Valid() && (r.Done? ==> !parsingKey)
      ensures var p := ParseEntries(old(buf)[1..], map[], 0);
              if p.Ok? then r == Done(Dict(p.value)) && buf == p.rest && Ctx() == old(Ctx()).After(p.depth)
              else r == Failed(p.error) && Ctx().keys == Reported(old(Ctx()), p.trail)
      decreases |buf|, 0
    {
      ghost var p := ParseEntries(buf[1..], map[], 0);
      buf := buf[1..];
      var hmap: map<Bytes, Value> := map[];
      ghost var depth := 0;
      ReportedHere(Ctx());
      while true
        invariant Valid() && !parsingKey && |buf| < |old(buf)|
        invariant EntriesAt(buf, hmap, depth, p)
        invariant Ctx() == old(Ctx()).After(depth)
        decreases |buf|
      {
        ghost var q := ParseEntry(buf);
        EntriesRound(buf, hmap, depth, q, p);
        if StartsWith(buf, E) {
          buf := buf[1..];
          return Done(Dict(hmap));
        }
        var entry := ReadEntry();
        if entry.Failed? {
          ReportedAfter(old(Ctx()), depth, q.trail);
          return Failed(entry.error);
        }
        AfterTwice(old(Ctx()), depth, q.depth);
        hmap := hmap[entry.value.0 := entry.value.1];
        depth := Max(depth, q.depth);
      }
    }

    /** next_key and next_value: the key is on the context while its value is read. */
    method ReadEntry() returns (r: Result<(Bytes, Value)>)
      requires Valid() && !parsingKey && !StartsWith(buf, E)
      modifies this
      ensures Valid() && (r.Done? ==> !parsingKey)
      ensures var p := ParseEntry(old(buf));
              if p.Ok? then r == Done(p.value) && buf == p.rest && Ctx() == old(Ctx()).After(p.depth)
              else r == Failed(p.error) && Ctx().keys == Reported(old(Ctx()), p.trail)
      decreases |buf|, 2
    {
      EntryRound(buf, Bencode.ParseBytes(buf), ParseEntry(buf));
      parsingKey := true;
      var key := ParseBytes();
      if key.Failed? {
        ReportedHere(old(Ctx()));
        return Failed(key.error);
      }
      parsingKey := false;
      ghost var q, c, d := ParseValue(buf), old(Ctx()), Ctx();
      assert d == c.Push(key.value);
      var value := ReadValue();
      if value.Failed? {
        assert Ctx().keys == Reported(d, q.trail);
        ReportedBelow(c, key.value, q.trail);
        return Failed(value.error);
      }
      assert Ctx() == d.After(q.depth);
      PopKey();
      PushPop(c, key.value, q.depth);
      r := Done((key.value, value.value));
    }

    method PopKey()
      requires Valid()
      modifies this`fieldContext, this`fieldContextDidNotFit
      ensures Valid() && Ctx() == old(Ctx()).Pop()
    {
      if fieldContextDidNotFit > 0 {
        fieldContextDidNotFit := fieldContextDidNotFit - 1;
      } else if fieldContext != [] {
        fieldContext := fieldContext[..|fieldContext| - 1];
      }
    }

    /** WithRawBytes: the value together with the very bytes it was read from. */
    method ReadWithRawBytes() returns (r: Result<(Value, Bytes)>)
      requires Valid() && !parsingKey
      modifies this
      ensures Valid()
      ensures r.Done? <==> ParseValue(old(buf)).Ok?
      ensures r.Done? ==> old(buf) == r.value.1 + buf && ParseValue(old(buf)).value == r.value.0
      ensures r.Done? ==> ParseValue(r.value.1).Ok?
                          && ParseValue(r.value.1).value == r.value.0 && ParseValue(r.value.1).rest == []
    {
      var before := buf;
      var value := ReadValue();
      if value.Failed? {
        return Failed(value.error);
      }
      var consumed := |before| - |buf|;
      ParseValueLocal(before, []);
      RawBytesReparse(before);
      r := Done((value.value, before[..consumed]));
    }
  }

  /** An error together with the keys that led to it. */
  datatype ErrorWithContext = ErrorWithContext(kind: Error, ctx: seq<Bytes>)

  datatype ReadResult<+T> = Success(value: T) | Failure(error: ErrorWithContext)

  /** Reads a value at the start of the buffer and returns it with the remaining bytes. */
  method FromBytesWithRest(buf: Bytes) returns (r: ReadResult<(Value, Bytes)>)
    ensures var p := ParseValue(buf);
            if p.Ok? then r == Success((p.value, p.rest))
            else r == Failure(ErrorWithContext(p.error, Reported(EMPTY, p.trail)))
  {
    var de := new Deserializer(buf);
    var v := de.ReadValue();
    if v.Failed? {
      return Failure(ErrorWithContext(v.error, de.fieldContext));
    }
    r := Success((v.value, de.buf));
  }

  /** A parse as the caller of from_bytes sees it: trailing bytes are an error. */
  function Whole(p: Parsed<Value>): ReadResult<Value> {
    match p
    case Fail(e, t) => Failure(ErrorWithContext(e, Reported(EMPTY, t)))
    case Ok(v, rest, _) =>
      if rest == [] then Success(v) else Failure(ErrorWithContext(BytesRemaining(|rest|), []))
  }

  /** The same, but trailing bytes are an error. */
  method FromBytes(buf: Bytes) returns (r: ReadResult<Value>)
    ensures r == Whole(ParseValue(buf))
    ensures forall v :: BencodeGrammar.IsValue(buf, v, false) <==> r == Success(v)
  {
    forall v ensures BencodeGrammar.IsValue(buf, v, false) <==> Whole(ParseValue(buf)) == Success(v) {
      BencodeGrammar.WholeIff(buf, v);
    }
    var v := FromBytesWithRest(buf);
    if v.Failure? {
      return Failure(v.error);
    }
    if v.value.1 != [] {
      return Failure(ErrorWithContext(BytesRemaining(|v.value.1|), []));
    }
    r := Success(v.value.0);
  }

  // ---------- Writing ----------

  /** The entries of a dictionary under some of its keys, in the order of the keys. */
  ghost function PrintSorted(v: Value, keys: set<Bytes>): Bytes
    requires v.Dict? && keys <= v.entries.Keys
  {
    PrintEntries(v, SortedKeys(keys))
  }

  lemma ItemFirst(items: seq<Value>, i: nat, w: Bytes)
    requires i < |items|
    ensures w + Print(items[i]) + PrintItems(items[i + 1..]) == w + PrintItems(items[i..])
  {
    assert items[i..][1..] == items[i + 1..];
    assert PrintItems(items[i..]) == Print(items[i]) + PrintItems(items[i + 1..]);
  }

  lemma LeastEntryFirst(v: Value, keys: set<Bytes>, k: Bytes, w: Bytes)
    requires v.Dict? && keys <= v.entries.Keys && IsLeast(k, keys)
    ensures w + PrintBytes(k) + Print(v.entries[k]) + PrintSorted(v, keys - {k}) == w + PrintSorted(v, keys)
  {
    var p, q, r := PrintBytes(k), Print(v.entries[k]), PrintEntries(v, SortedKeys(keys - {k}));
    FirstSortedKey(k, keys);
    assert SortedKeys(keys)[1..] == SortedKeys(keys - {k});
    assert PrintEntries(v, SortedKeys(keys)) == p + q + r;
    Associate(w, p, q, r);
  }

  class Serializer {
    var writer: Bytes
    var hackNoBytestringPrefix: bool

    constructor ()
      ensures writer == [] && !hackNoBytestringPrefix
    {
      writer, hackNoBytestringPrefix := [], false;
    }

    method WriteRaw(b: Bytes)
      modifies this`writer
      ensures writer == old(writer) + b
    {
      writer := writer + b;
    }

    method WriteBytes(b: Bytes)
      modifies this`writer
      ensures writer == old(writer) + if hackNoBytestringPrefix then b else PrintBytes(b)
    {
      if !hackNoBytestringPrefix {
        WriteRaw(Digits(|b|) + [COLON]);
      }
      WriteRaw(b);
    }

    /** Writes a value; the order in which a dictionary is enumerated does not show. */
    method Write(v: Value)
      requires !hackNoBytestringPrefix
      modifies this`writer
      ensures writer == old(writer) + Print(v)
      ensures BencodeGrammar.IsValue(writer[|old(writer)|..], v, true)
      decreases v, 1
    {
      BencodeGrammar.PrintsIff(Print(v), v);
      match v {
        case Str(s) => WriteBytes(s);
        case Integer(i) => WriteRaw([I] + PrintInt(i) + [E]);
        case List(items) => WriteList(items);
        case Dict(_) => WriteDict(v);
      }
      assert writer[|old(writer)|..] == Print(v);
    }

    method WriteList(items: seq<Value>)
      requires !hackNoBytestringPrefix
      modifies this`writer
      ensures writer == old(writer) + ([L] + PrintItems(items) + [E])
      decreases items, 2
    {
      WriteRaw([L]);
      WriteItems(items);
      WriteRaw([E]);
    }

    method WriteDict(v: Value)
      requires !hackNoBytestringPrefix && v.Dict?
      modifies this`writer
      ensures writer == old(writer) + ([D] + PrintSorted(v, v.entries.Keys) + [E])
      decreases v, 0, 1
    {
      WriteRaw([D]);
      var tmp := CollectEntries(v);
      WriteSorted(v, tmp);
      WriteRaw([E]);
    }

    method WriteItems(items: seq<Value>)
      requires !hackNoBytestringPrefix
      modifies this`writer
      ensures writer == old(writer) + PrintItems(items)
      decreases items, 0
    {
      ghost var all := writer + PrintItems(items);
      assert items[0..] == items;
      for i := 0 to |items|
        invariant writer + PrintItems(items[i..]) == all
      {
        ItemFirst(items, i, writer);
        Write(items[i]);
      }
    }

    /** Each key and value is written to a buffer of its own and put into the temporary map. */
    method CollectEntries(v: Value) returns (tmp: map<Bytes, Bytes>)
      requires v.Dict?
      ensures tmp.Keys == v.entries.Keys
      ensures forall k :: k in tmp ==> tmp[k] == Print(v.entries[k])
      decreases v, 0, 0
    {
      tmp := map[];
      var remaining := v.entries.Keys;
      while remaining != {}
        invariant remaining <= v.entries.Keys && tmp.Keys == v.entries.Keys - remaining
        invariant forall k :: k in tmp ==> tmp[k] == Print(v.entries[k])
        decreases |remaining|
      {
        var k :| k in remaining;
        var keySer := new Serializer();
        keySer.hackNoBytestringPrefix := true;
        keySer.WriteBytes(k);
        assert keySer.writer == k;
        var ser := new Serializer();
        ser.Write(v.entries[k]);
        assert ser.writer == Print(v.entries[k]);
        tmp := tmp[keySer.writer := ser.writer];
        remaining := remaining - {k};
      }
    }

    method WriteEntry(k: Bytes, value: Bytes)
      requires !hackNoBytestringPrefix
      modifies this`writer
      ensures writer == old(writer) + PrintBytes(k) + value
    {
      WriteBytes(k);
      WriteRaw(value);
    }

    /** The temporary map is ordered: its entries are written from the least key on. */
    method WriteSorted(ghost v: Value, entries: map<Bytes, Bytes>)
      requires !hackNoBytestringPrefix && v.Dict? && entries.Keys == v.entries.Keys
      requires forall k :: k in entries ==> entries[k] == Print(v.entries[k])
      modifies this`writer
      ensures writer == old(writer) + PrintSorted(v, v.entries.Keys)
    {
      ghost var all := writer + PrintSorted(v, v.entries.Keys);
      var tmp := entries;
      while tmp != map[]
        invariant tmp.Keys <= v.entries.Keys && forall k :: k in tmp ==> tmp[k] == Print(v.entries[k])
        invariant writer + PrintSorted(v, tmp.Keys) == all
        decreases tmp.Keys
      {
        ghost var keys := tmp.Keys;
        LeastExists(tmp.Keys);
        var k :| IsLeast(k, tmp.Keys);
        LeastEntryFirst(v, tmp.Keys, k, writer);
        WriteEntry(k, tmp[k]);
        tmp := tmp - {k};
        assert tmp.Keys == keys - {k};
      }
      assert PrintSorted(v, {}) == [];
    }
  }

  /** Serializing and reading back is the identity, and nothing is left over. */
  method WriteThenRead(v: Value) returns (bytes: Bytes, back: ReadResult<Value>)
    ensures BencodeGrammar.IsValue(bytes, v, true) && back == Success(v)
  {
    var ser := new Serializer();
    ser.Write(v);
    bytes := ser.writer;
    PrintParses(v);
    assert bytes == Print(v) && bytes[0..] == bytes;
    back := FromBytes(bytes);
  }
}
