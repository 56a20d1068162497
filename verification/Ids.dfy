/**
  Node ids: arrays of bytes compared lexicographically, with single-bit reads and writes
  and XOR distance (crates/librtbit-core/src/hash_id.rs). Every byte-level operation is
  related to the big-endian number that the array denotes.
 */
module Ids {
  import opened Octets

  const ID_BITS: nat := 160

  /** The 20-byte id used for nodes and info hashes. */
  type Id = s: Bytes | |s| == 20 witness seq(20, _ => 0)

  function Pow2(n: nat): (p: nat)
    ensures p >= 1
  {
    if n == 0 then 1 else 2 * Pow2(n - 1)
  }

  /** The big-endian number a byte string denotes. */
  function Val(s: Bytes): nat {
    if s == [] then 0 else 256 * Val(s[..|s| - 1]) + s[|s| - 1]
  }

  /** The derived order of byte arrays: lexicographic. */
  predicate Less(a: Bytes, b: Bytes)
    requires |a| == |b|
  {
    a != [] && (a[0] < b[0] || (a[0] == b[0] && Less(a[1..], b[1..])))
  }

  function Digit(isSet: bool): nat {
    if isSet then 1 else 0
  }

  /** b & (1 << k) > 0 */
  predicate TestBit(b: nat, k: nat) {
    if k == 0 then b % 2 == 1 else TestBit(b / 2, k - 1)
  }

  /** b | (1 << k) when value holds, b & !(1 << k) otherwise. */
  function WriteBit(b: nat, k: nat, value: bool): nat {
    if k == 0 then b - b % 2 + Digit(value) else 2 * WriteBit(b / 2, k - 1, value) + b % 2
  }

  lemma {:induction false} WriteBitFits(b: nat, k: nat, value: bool, n: nat)
    requires k < n && b < Pow2(n)
    ensures WriteBit(b, k, value) < Pow2(n)
  {
    if k > 0 {
      assert b / 2 < Pow2(n - 1);
      WriteBitFits(b / 2, k - 1, value, n - 1);
    }
  }

  predicate GetBit(s: Bytes, bit: nat)
    requires bit < 8 * |s|
  {
    TestBit(s[bit / 8], 7 - bit % 8)
  }

  function SetBit(s: Bytes, bit: nat, value: bool): (r: Bytes)
    requires bit < 8 * |s|
    ensures |r| == |s|
  {
    Pow2Small();
    WriteBitFits(s[bit / 8], 7 - bit % 8, value, 8);
    s[bit / 8 := WriteBit(s[bit / 8], 7 - bit % 8, value)]
  }

  /** XOR of the k low bits of two numbers. */
  function Xor(a: nat, b: nat, k: nat): (r: nat)
    ensures r < Pow2(k)
  {
    if k == 0 then 0 else 2 * Xor(a / 2, b / 2, k - 1) + Digit(a % 2 != b % 2)
  }

  function XorByte(a: Byte, b: Byte): Byte {
    Pow2Small();
    Xor(a, b, 8)
  }

  /** Byte-wise XOR. */
  function Distance(a: Bytes, b: Bytes): (r: Bytes)
    requires |a| == |b|
    ensures |r| == |a|
  {
    seq(|a|, i requires 0 <= i < |a| => XorByte(a[i], b[i]))
  }

  // ---------- Powers of two ----------

  lemma {:induction false} Pow2Add(a: nat, b: nat)
    ensures Pow2(a + b) == Pow2(a) * Pow2(b)
  {
    if a > 0 {
      Pow2Add(a - 1, b);
      Associate(2, Pow2(a - 1), Pow2(b));
      assert Pow2(a - 1 + b) == Pow2(a - 1) * Pow2(b);
    }
  }

  lemma {:induction false} Pow2Mono(a: nat, b: nat)
    requires a <= b
    ensures Pow2(a) <= Pow2(b)
  {
    if a < b { Pow2Mono(a, b - 1); }
  }

  lemma Pow2Small()
    ensures Pow2(1) == 2 && Pow2(2) == 4 && Pow2(3) == 8 && Pow2(4) == 16
    ensures Pow2(5) == 32 && Pow2(6) == 64 && Pow2(7) == 128 && Pow2(8) == 256
  {
    assert Pow2(4) == 16;
  }

  lemma Pow2Bytes(n: nat)
    requires n > 0
    ensures Pow2(8 * n) == 256 * Pow2(8 * (n - 1))
  {
    Pow2Small();
    Pow2Add(8, 8 * (n - 1));
  }

  // ---------- Order ----------

  lemma {:induction false} ValBound(s: Bytes)
    ensures Val(s) < Pow2(8 * |s|)
  {
    if s != [] {
      ValBound(s[..|s| - 1]);
      Pow2Bytes(|s|);
    }
  }

  lemma {:induction false} LessByLast(a: Bytes, b: Bytes)
    requires |a| == |b| > 0
    ensures var n := |a| - 1;
            Less(a, b) <==> Less(a[..n], b[..n]) || (a[..n] == b[..n] && a[n] < b[n])
  {
    var n := |a| - 1;
    if n > 0 {
      LessByLast(a[1..], b[1..]);
      assert a[1..][..n - 1] == a[..n][1..] && b[1..][..n - 1] == b[..n][1..];
      assert a[..n] == [a[0]] + a[..n][1..] && b[..n] == [b[0]] + b[..n][1..];
    }
  }

  /** Lexicographic byte order is numeric order, and no two ids denote the same number. */
  lemma {:induction false} LessIsNumeric(a: Bytes, b: Bytes)
    requires |a| == |b|
    ensures Less(a, b) <==> Val(a) < Val(b)
    ensures Val(a) == Val(b) <==> a == b
  {
    if a != [] {
      var n := |a| - 1;
      LessIsNumeric(a[..n], b[..n]);
      LessByLast(a, b);
      assert a == a[..n] + [a[n]] && b == b[..n] + [b[n]];
    }
  }

  // ---------- Single bits ----------

  lemma {:induction false} LowBits(v: nat, x: nat, k: nat, n: nat, value: bool)
    requires k < n && x < Pow2(n)
    ensures TestBit(Pow2(n) * v + x, k) == TestBit(x, k)
    ensures WriteBit(Pow2(n) * v + x, k, value) == Pow2(n) * v + WriteBit(x, k, value)
  {
    DoubleSum(v, x, n);
    if k > 0 { LowBits(v, x / 2, k - 1, n - 1, value); }
  }

  lemma DoubleSum(v: nat, x: nat, n: nat)
    requires n > 0
    ensures var y := Pow2(n - 1) * v + x / 2;
            Pow2(n) * v + x == 2 * y + x % 2 && (Pow2(n) * v + x) / 2 == y && (Pow2(n) * v + x) % 2 == x % 2
  {
    Associate(2, Pow2(n - 1), v);
  }

  lemma {:induction false} HighBits(v: nat, x: nat, k: nat, n: nat, value: bool)
    requires x < Pow2(n)
    ensures TestBit(Pow2(n) * v + x, k + n) == TestBit(v, k)
    ensures WriteBit(Pow2(n) * v + x, k + n, value) == Pow2(n) * WriteBit(v, k, value) + x
  {
    if n > 0 {
      HighBits(v, x / 2, k, n - 1, value);
      DoubleSum(v, x, n);
      DoubleSum(WriteBit(v, k, value), x, n);
    }
  }

  lemma ByteBits(v: nat, x: Byte, k: nat, value: bool)
    ensures k < 8 ==> TestBit(256 * v + x, k) == TestBit(x, k)
    ensures k < 8 ==> WriteBit(256 * v + x, k, value) == 256 * v + WriteBit(x, k, value)
    ensures TestBit(256 * v + x, k + 8) == TestBit(v, k)
    ensures WriteBit(256 * v + x, k + 8, value) == 256 * WriteBit(v, k, value) + x
  {
    Pow2Small();
    if k < 8 { LowBits(v, x, k, 8, value); }
    HighBits(v, x, k, 8, value);
  }

  /** Reading and writing a bit of the byte string is reading and writing a bit of the number. */
  lemma {:induction false} BitsOfNumber(s: Bytes, bit: nat, value: bool)
    requires bit < 8 * |s|
    ensures GetBit(s, bit) == TestBit(Val(s), 8 * |s| - 1 - bit)
    ensures Val(SetBit(s, bit, value)) == WriteBit(Val(s), 8 * |s| - 1 - bit, value)
  {
    if bit / 8 == |s| - 1 {
      LastByteBit(s, bit, value);
    } else {
      BitsOfNumber(s[..|s| - 1], bit, value);
      InnerByteBit(s, bit, value);
    }
  }

  lemma LastByteBit(s: Bytes, bit: nat, value: bool)
    requires bit < 8 * |s| && bit / 8 == |s| - 1
    ensures GetBit(s, bit) == TestBit(Val(s), 8 * |s| - 1 - bit)
    ensures Val(SetBit(s, bit, value)) == WriteBit(Val(s), 8 * |s| - 1 - bit, value)
  {
    var n := |s| - 1;
    assert SetBit(s, bit, value)[..n] == s[..n] && 8 * |s| - 1 - bit == 7 - bit % 8;
    ByteBits(Val(s[..n]), s[n], 7 - bit % 8, value);
  }

  lemma InnerByteBit(s: Bytes, bit: nat, value: bool)
    requires bit < 8 * (|s| - 1)
    ensures var n := |s| - 1;
            && GetBit(s, bit) == GetBit(s[..n], bit)
            && Val(SetBit(s, bit, value)) == 256 * Val(SetBit(s[..n], bit, value)) + s[n]
            && TestBit(Val(s), 8 * |s| - 1 - bit) == TestBit(Val(s[..n]), 8 * n - 1 - bit)
            && WriteBit(Val(s), 8 * |s| - 1 - bit, value) == 256 * WriteBit(Val(s[..n]), 8 * n - 1 - bit, value) + s[n]
  {
    var n := |s| - 1;
    InnerSet(s, bit, value);
    BitsAbove(Val(s[..n]), s[n], Val(s), 8 * n - 1 - bit, 8 * |s| - 1 - bit, value);
  }

  lemma InnerSet(s: Bytes, bit: nat, value: bool)
    requires bit < 8 * (|s| - 1)
    ensures GetBit(s, bit) == GetBit(s[..|s| - 1], bit)
    ensures Val(SetBit(s, bit, value)) == 256 * Val(SetBit(s[..|s| - 1], bit, value)) + s[|s| - 1]
  {
    var n, t := |s| - 1, SetBit(s, bit, value);
    assert t[..n] == SetBit(s[..n], bit, value);
    assert Val(t) == 256 * Val(t[..n]) + t[n];
  }

  lemma BitsAbove(v: nat, x: Byte, w: nat, k: nat, m: nat, value: bool)
    requires w == 256 * v + x && m == k + 8
    ensures TestBit(w, m) == TestBit(v, k) && WriteBit(w, m, value) == 256 * WriteBit(v, k, value) + x
  {
    ByteBits(v, x, k, value);
  }

  lemma {:induction false} TestBitIsDigit(b: nat, k: nat) returns (h: nat, l: nat)
    ensures l < Pow2(k) && b == (2 * h + Digit(TestBit(b, k))) * Pow2(k) + l
  {
    if k == 0 {
      h, l := b / 2, 0;
    } else {
      h, l := TestBitIsDigit(b / 2, k - 1);
      Associate(2 * h + Digit(TestBit(b, k)), 2, Pow2(k - 1));
      l := 2 * l + b % 2;
    }
  }

  lemma {:induction false} WriteBitChangesDigit(b: nat, k: nat, value: bool)
    ensures WriteBit(b, k, value) == b + (Digit(value) - Digit(TestBit(b, k))) * Pow2(k)
  {
    if k > 0 {
      WriteBitChangesDigit(b / 2, k - 1, value);
      Associate(Digit(value) - Digit(TestBit(b, k)), 2, Pow2(k - 1));
    }
  }

  // ---------- Arithmetic ----------

  lemma Associate(d: int, m: int, p: int)
    ensures d * m * p == d * (m * p) == m * (d * p)
  {
  }

  lemma MulLe(a: int, b: int, d: nat)
    requires a <= b
    ensures a * d <= b * d
  {
  }

  lemma SmallMultiple(k: int, d: int)
    requires d > 0
    ensures -d < k * d < d ==> k == 0
  {
    if k >= 1 { MulLe(1, k, d); }
    if k <= -1 { MulLe(k, -1, d); }
  }

  /** A number has one quotient and remainder. */
  lemma QuotientUnique(q: int, r: nat, q': int, r': nat, d: nat)
    requires r < d && r' < d && q * d + r == q' * d + r'
    ensures q == q' && r == r'
  {
    assert (q - q') * d == q * d - q' * d;
    SmallMultiple(q - q', d);
  }

  lemma {:induction false} ValZero(s: Bytes)
    ensures Val(s) == 0 <==> forall i :: 0 <= i < |s| ==> s[i] == 0
  {
    if s != [] {
      var n := |s| - 1;
      ValZero(s[..n]);
      assert forall i :: 0 <= i < n ==> s[..n][i] == s[i];
    }
  }

  lemma {:induction false} ValOnes(s: Bytes)
    requires forall i :: 0 <= i < |s| ==> s[i] == 255
    ensures Val(s) == Pow2(8 * |s|) - 1
  {
    if s != [] {
      ValOnes(s[..|s| - 1]);
      Pow2Bytes(|s|);
    }
  }

  // ---------- Aligned ranges ----------

  /** [start, end] is the block of 2^bits consecutive ids that starts at a multiple of 2^bits. */
  ghost predicate AlignedRange(start: Id, end: Id, bits: nat) {
    && bits <= ID_BITS
    && Val(end) == Val(start) + Pow2(bits) - 1
    && Val(start) % Pow2(bits) == 0
  }

  ghost predicate InRange(id: Id, start: Id, end: Id) {
    Val(start) <= Val(id) <= Val(end)
  }

  /** compute_split_start_end: the two inner bounds of a split; the outer ones are kept. */
  function SplitBounds(start: Id, end: Id, bits: nat): (r: (Id, Id))
    requires 1 <= bits <= ID_BITS
  {
    (SetBit(end, ID_BITS - bits, false), SetBit(start, ID_BITS - bits, true))
  }

  /** The digit of weight p in an aligned block of 2p numbers: 0 at its start, 1 at its end. */
  lemma BlockDigits(k: nat, p: nat, hs: nat, gs: nat, ls: nat, he: nat, ge: nat, le: nat)
    requires gs < 2 && ge < 2 && ls < p && le < p
    requires 2 * k * p == (2 * hs + gs) * p + ls && 2 * k * p + 2 * p - 1 == (2 * he + ge) * p + le
    ensures gs == 0 && ge == 1
  {
    assert (2 * k + 1) * p == 2 * k * p + p;
    QuotientUnique(2 * hs + gs, ls, 2 * k, 0, p);
    QuotientUnique(2 * he + ge, le, 2 * k + 1, p - 1, p);
  }

  lemma HalfBlocks(x: nat, p: nat) returns (k: nat)
    requires p > 0 && x % (2 * p) == 0
    ensures x == 2 * k * p && x % p == 0 && (x + p) % p == 0
  {
    k := x / (2 * p);
    assert x == k * (2 * p) == 2 * k * p;
    assert (2 * k + 1) * p == 2 * k * p + p;
    MultipleRemainder(2 * k, p);
    MultipleRemainder(2 * k + 1, p);
  }

  lemma MultipleRemainder(k: nat, p: nat)
    requires p > 0
    ensures (k * p) % p == 0
  {
    QuotientUnique(k, 0, (k * p) / p, (k * p) % p, p);
  }

  lemma SplitNumbers(x: nat, y: nat, b: nat)
    requires x % Pow2(b + 1) == 0 && y == x + Pow2(b + 1) - 1
    ensures WriteBit(y, b, false) == x + Pow2(b) - 1
    ensures WriteBit(x, b, true) == x + Pow2(b)
    ensures x % Pow2(b) == 0 && (x + Pow2(b)) % Pow2(b) == 0
  {
    var p := Pow2(b);
    var hs, ls := TestBitIsDigit(x, b);
    var he, le := TestBitIsDigit(y, b);
    var k := HalfBlocks(x, p);
    BlockDigits(k, p, hs, Digit(TestBit(x, b)), ls, he, Digit(TestBit(y, b)), le);
    WriteBitChangesDigit(y, b, false);
    WriteBitChangesDigit(x, b, true);
  }

  /** The split bounds cut an aligned range into two adjacent aligned halves that tile it. */
  lemma SplitTiles(start: Id, end: Id, bits: nat)
    requires 1 <= bits && AlignedRange(start, end, bits)
    ensures var (leftEnd, rightStart) := SplitBounds(start, end, bits);
            && AlignedRange(start, leftEnd, bits - 1)
            && AlignedRange(rightStart, end, bits - 1)
            && Val(leftEnd) + 1 == Val(rightStart)
  {
    SplitValues(start, end, bits);
    SplitNumbers(Val(start), Val(end), bits - 1);
  }

  lemma SplitValues(start: Id, end: Id, bits: nat)
    requires 1 <= bits <= ID_BITS
    ensures var (leftEnd, rightStart) := SplitBounds(start, end, bits);
            && Val(leftEnd) == WriteBit(Val(end), bits - 1, false)
            && Val(rightStart) == WriteBit(Val(start), bits - 1, true)
  {
    BitsOfNumber(end, ID_BITS - bits, false);
    BitsOfNumber(start, ID_BITS - bits, true);
  }

  /** The three debug assertions of the split. */
  predicate SplitAsserted(start: Id, end: Id, bits: nat)
    requires 1 <= bits <= ID_BITS
  {
    var (leftEnd, rightStart) := SplitBounds(start, end, bits);
    Less(start, leftEnd) && Less(leftEnd, rightStart) && Less(rightStart, end)
  }

  /** They hold exactly when the range has at least 4 ids. */
  lemma SplitAssertions(start: Id, end: Id, bits: nat)
    requires 1 <= bits && AlignedRange(start, end, bits)
    ensures SplitAsserted(start, end, bits) <==> bits >= 2
  {
    SplitTiles(start, end, bits);
    var (leftEnd, rightStart) := SplitBounds(start, end, bits);
    LessIsNumeric(start, leftEnd);
    LessIsNumeric(leftEnd, rightStart);
    LessIsNumeric(rightStart, end);
    if bits >= 2 { Pow2Mono(1, bits - 1); }
  }

  // ---------- Random ids ----------

  /** The numbers x and y agree on all but their k low bits, and h is what they agree on. */
  ghost predicate ShareHigh(x: nat, y: nat, k: nat, h: nat) {
    h * Pow2(k) <= x < h * Pow2(k) + Pow2(k) && h * Pow2(k) <= y < h * Pow2(k) + Pow2(k)
  }

  lemma ShareHighStep(x: nat, y: nat, k: nat, h: nat) returns (h': nat)
    requires ShareHigh(x, y, k + 1, h)
    ensures ShareHigh(WriteBit(x, k, TestBit(y, k)), y, k, h')
  {
    var w, gx, gy := Pow2(k), Digit(TestBit(x, k)), Digit(TestBit(y, k));
    var hx, lx := TestBitIsDigit(x, k);
    var hy, ly := TestBitIsDigit(y, k);
    WriteBitChangesDigit(x, k, TestBit(y, k));
    BinaryDigit(hx, gx, lx, h, x, w);
    BinaryDigit(hy, gy, ly, h, y, w);
    h' := 2 * h + gy;
    PrefixBounds(h, gx, gy, w, lx);
  }

  lemma PrefixBounds(h: nat, gs: nat, gt: nat, w: nat, ls: nat)
    ensures (2 * h + gs) * w + ls + (gt - gs) * w == (2 * h + gt) * w + ls
  {
  }

  lemma BinaryDigit(q: nat, g: nat, l: nat, h: nat, x: nat, w: nat)
    requires g < 2 && l < w && x == (2 * q + g) * w + l
    requires h * (2 * w) <= x < h * (2 * w) + 2 * w
    ensures q == h
  {
    assert x == q * (2 * w) + (g * w + l);
    QuotientUnique(q, g * w + l, h, x - h * (2 * w), 2 * w);
  }

  lemma AlignedStart(x: nat, h: nat, p: nat)
    requires p > 0 && x % p == 0 && h * p <= x < h * p + p
    ensures x == h * p
  {
    QuotientUnique(x / p, 0, h, x - h * p, p);
  }

  lemma CopyBitStep(data: Id, start: Id, bit: nat, h: nat) returns (h': nat)
    requires bit < ID_BITS && ShareHigh(Val(data), Val(start), ID_BITS - bit, h)
    ensures ShareHigh(Val(SetBit(data, bit, GetBit(start, bit))), Val(start), ID_BITS - bit - 1, h')
  {
    BitsOfNumber(start, bit, false);
    BitsOfNumber(data, bit, GetBit(start, bit));
    h' := ShareHighStep(Val(data), Val(start), ID_BITS - 1 - bit, h);
  }

  /** generate_random_id: whatever the random bytes, the result lies in the bucket's range. */
  method GenerateRandomId(start: Id, bits: nat, random: Id) returns (data: Id)
    requires bits <= ID_BITS
    ensures exists h :: ShareHigh(Val(data), Val(start), bits, h)
    ensures forall end: Id :: AlignedRange(start, end, bits) ==> InRange(data, start, end)
  {
    data := random;
    ghost var h := 0;
    ValBound(random);
    ValBound(start);
    for bit := 0 to ID_BITS - bits
      invariant ShareHigh(Val(data), Val(start), ID_BITS - bit, h)
    {
      h := CopyBitStep(data, start, bit, h);
      data := SetBit(data, bit, GetBit(start, bit));
    }
    if Val(start) % Pow2(bits) == 0 {
      AlignedStart(Val(start), h, Pow2(bits));
    }
  }

  // ---------- XOR distance ----------

  lemma {:induction false} XorLaws(a: nat, b: nat, c: nat, k: nat)
    requires a < Pow2(k) && b < Pow2(k) && c < Pow2(k)
    ensures Xor(a, b, k) == Xor(b, a, k)
    ensures Xor(a, b, k) == 0 <==> a == b
    ensures Xor(a, b, k) == Xor(a, c, k) ==> b == c
  {
    if k > 0 { XorLaws(a / 2, b / 2, c / 2, k - 1); }
  }

  /** XOR distance is symmetric, zero only between equal ids, and injective in each argument. */
  lemma DistanceLaws(a: Id, b: Id, c: Id)
    ensures Distance(a, b) == Distance(b, a)
    ensures Val(Distance(a, b)) == 0 <==> a == b
    ensures Distance(a, b) == Distance(a, c) ==> b == c
  {
    Pow2Small();
    forall i | 0 <= i < 20
      ensures Distance(a, b)[i] == Distance(b, a)[i]
      ensures Distance(a, b)[i] == 0 <==> a[i] == b[i]
      ensures Distance(a, b)[i] == Distance(a, c)[i] ==> b[i] == c[i]
    {
      XorLaws(a[i], b[i], c[i], 8);
    }
    ValZero(Distance(a, b));
  }
  lemma {:induction false} XorBits(a: nat, b: nat, k: nat, i: nat)
    requires i < k
    ensures TestBit(Xor(a, b, k), i) == (TestBit(a, i) != TestBit(b, i))
  {
    if i > 0 { XorBits(a / 2, b / 2, k - 1, i - 1); }
  }

  /** The distance has exactly the bits in which the two ids differ, each in its place. */
  lemma DistanceBits(a: Id, b: Id, i: nat)
    requires i < ID_BITS
    ensures GetBit(Distance(a, b), i) == (GetBit(a, i) != GetBit(b, i))
  {
    XorBits(a[i / 8], b[i / 8], 8, 7 - i % 8);
  }

  /** Distance as the source computes it, byte by byte. */
  method ComputeDistance(a: Id, b: Id) returns (xor: Id)
    ensures xor == Distance(a, b)
    ensures forall i :: 0 <= i < ID_BITS ==> GetBit(xor, i) == (GetBit(a, i) != GetBit(b, i))
  {
    xor := seq(20, _ => 0);
    for i := 0 to 20
      invariant xor[..i] == Distance(a, b)[..i]
    {
      xor := xor[i := XorByte(a[i], b[i])];
    }
    forall i | 0 <= i < ID_BITS ensures GetBit(xor, i) == (GetBit(a, i) != GetBit(b, i)) {
      DistanceBits(a, b, i);
    }
  }

  predicate NoBits(v: nat, k: nat, n: nat) {
    forall j :: k <= j < n ==> !TestBit(v, j)
  }

  lemma HalfNoBits(v: nat, k: nat, n: nat)
    ensures NoBits(v, k + 1, n + 1) <==> NoBits(v / 2, k, n)
  {
    if NoBits(v, k + 1, n + 1) {
      forall j | k <= j < n ensures !TestBit(v / 2, j) {
        assert TestBit(v, j + 1) == TestBit(v / 2, j);
      }
    }
    if NoBits(v / 2, k, n) {
      forall j | k + 1 <= j < n + 1 ensures !TestBit(v, j) {
        assert TestBit(v, j) == TestBit(v / 2, j - 1);
      }
    }
  }

  /** A number is below 2^k exactly if it has no bit from the k-th on. */
  lemma {:induction false} SmallIff(v: nat, k: nat, n: nat)
    requires v < Pow2(n)
    ensures v < Pow2(k) <==> NoBits(v, k, n)
  {
    if n == 0 {
    } else if k == 0 {
      SmallIff(v / 2, 0, n - 1);
      HalfNoBits(v, 0, n - 1);
      assert NoBits(v, 0, n) <==> !TestBit(v, 0) && NoBits(v, 1, n);
    } else {
      SmallIff(v / 2, k - 1, n - 1);
      HalfNoBits(v, k - 1, n - 1);
    }
  }

  /** The first n bits of two ids are the same. */
  predicate SamePrefix(a: Id, b: Id, n: nat)
    requires n <= ID_BITS
  {
    forall i :: 0 <= i < n ==> GetBit(a, i) == GetBit(b, i)
  }

  /** Two ids are less than 2^k apart exactly if they share all bits but the last k. */
  lemma CloseIff(a: Id, b: Id, k: nat)
    requires k <= ID_BITS
    ensures Val(Distance(a, b)) < Pow2(k) <==> SamePrefix(a, b, ID_BITS - k)
  {
    var d := Distance(a, b);
    ValBound(d);
    SmallIff(Val(d), k, ID_BITS);
    if SamePrefix(a, b, ID_BITS - k) {
      forall j | k <= j < ID_BITS ensures !TestBit(Val(d), j) {
        DistanceDigit(a, b, ID_BITS - 1 - j);
      }
    }
    if NoBits(Val(d), k, ID_BITS) {
      forall i | 0 <= i < ID_BITS - k ensures GetBit(a, i) == GetBit(b, i) {
        DistanceDigit(a, b, i);
      }
    }
  }

  lemma DistanceDigit(a: Id, b: Id, i: nat)
    requires i < ID_BITS
    ensures TestBit(Val(Distance(a, b)), ID_BITS - 1 - i) == (GetBit(a, i) != GetBit(b, i))
  {
    DistanceBits(a, b, i);
    BitsOfNumber(Distance(a, b), i, false);
  }
}
