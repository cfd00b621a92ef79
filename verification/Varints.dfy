/** Base 128 varints (Protocol Buffers Encoding, section "Base 128 Varints"): the writers and
    readers of both implementations, and why they agree. */
module Varints {
  import opened Bytes

  /** The bytes both writers emit: seven bits a byte, low group first, top bit set on all but the last. */
  function Varint(v: nat): (r: Bytes)
    ensures r != []
  {
    if v < 128 then [v] else [v % 128 + 128] + Varint(v / 128)
  }

  datatype Scan = Bad | Scanned(value: nat, next: nat)

  /** Reads one varint of at most `limit` bytes from index `i` of `d`, without truncation to a word. */
  function ScanAt(d: Bytes, i: nat, limit: nat): (r: Scan)
    requires i <= |d|
    ensures r.Scanned? ==> i < r.next <= |d|
    decreases |d| - i
  {
    if limit == 0 || i == |d| then Bad
    else if d[i] < 128 then Scanned(d[i], i + 1)
    else
      match ScanAt(d, i + 1, limit - 1)
      case Bad => Bad
      case Scanned(v, next) => Scanned(d[i] - 128 + 128 * v, next)
  }

  const MAX_VARINT := 10

  function Pow128(n: nat): (p: nat)
    ensures p > 0
  {
    if n == 0 then 1 else 128 * Pow128(n - 1)
  }

  lemma {:induction false} VarintSize(v: nat, n: nat)
    requires 0 < n && v < Pow128(n)
    ensures |Varint(v)| <= n
  {
    if v < 128 {
    } else {
      assert n != 1 by { assert Pow128(0) == 1; }
      VarintSize(v / 128, n - 1);
    }
  }

  lemma NestedQuotient(d: nat, p: nat, m: nat, q: nat, r: nat, l: nat)
    requires l < d && r < p && m == p * q + r
    ensures d * m + l == (d * p) * q + (d * r + l) && d * r + l < d * p
  {
    assert d * m == d * (p * q) + d * r;
    assert d * (p * q) == (d * p) * q;
    var s := p - 1 - r;
    assert d * p == d * r + d * s + d;
    assert d * s >= 0;
  }

  lemma {:induction false} DivTwice(n: nat, d: nat, p: nat)
    requires d > 0 && p > 0
    ensures d * p > 0 && n / d / p == n / (d * p)
  {
    var m, l := n / d, n % d;
    var q, r := m / p, m % p;
    NestedQuotient(d, p, m, q, r, l);
    QuotientUnique(n, d * p, q, d * r + l);
  }

  lemma QuotientUnique(n: int, m: int, q: int, r: int)
    requires m > 0 && n == m * q + r && 0 <= r < m
    ensures n / m == q
  {
    ModUnique(n, q, r, m);
    SameProduct(m, q, n / m);
  }

  lemma SameProduct(m: int, a: int, b: int)
    requires m > 0 && m * a == m * b
    ensures a == b
  {
    assert m * (a - b) == 0;
  }

  /** Byte `i` of a varint is the `i`-th group of seven bits, low group first, with the top bit set on all but
      the last; and there is no empty last group. */
  lemma {:induction false} VarintBytes(v: nat, i: nat)
    requires i < |Varint(v)|
    ensures Varint(v)[i] == v / Pow128(i) % 128 + if i + 1 < |Varint(v)| then 128 else 0
    ensures i + 1 == |Varint(v)| ==> v < Pow128(i + 1) && (i == 0 || Pow128(i) <= v)
    decreases i
  {
    assert Pow128(0) == 1 && Pow128(1) == 128;
    if i == 0 {
      assert v >= 128 ==> Varint(v) == [v % 128 + 128] + Varint(v / 128);
    } else {
      VarintBytes(v / 128, i - 1);
      DivTwice(v, 128, Pow128(i - 1));
      assert Pow128(i) == 128 * Pow128(i - 1) && Pow128(i + 1) == 128 * Pow128(i);
    }
  }

  /** A 64-bit value needs at most ten bytes. */
  lemma VarintFits(v: nat)
    requires v < TWO64
    ensures |Varint(v)| <= MAX_VARINT
  {
    assert Pow128(5) == 0x8_0000_0000;
    assert Pow128(10) == 0x40_0000_0000_0000_0000;
    VarintSize(v, 10);
  }

  /** Whatever surrounds it, a written varint reads back. */
  lemma {:induction false} ScanOfVarint(v: nat, d: Bytes, i: nat, limit: nat)
    requires At(d, i, Varint(v)) && |Varint(v)| <= limit
    ensures ScanAt(d, i, limit) == Scanned(v, i + |Varint(v)|)
    decreases v
  {
    assert d[i + 0] == Varint(v)[0];
    if v < 128 {
    } else {
      AtParts(d, i, [v % 128 + 128], Varint(v / 128));
      ScanOfVarint(v / 128, d, i + 1, limit - 1);
    }
  }

  lemma ScanOfU64(v: nat, d: Bytes, i: nat)
    requires v < TWO64 && At(d, i, Varint(v))
    ensures ScanAt(d, i, MAX_VARINT) == Scanned(v, i + |Varint(v)|)
  {
    VarintFits(v);
    ScanOfVarint(v, d, i, MAX_VARINT);
  }

  /** The bytes of `d` from `i` up to `next` stand in `e` at `j`. */
  ghost predicate SameBytes(d: Bytes, i: nat, next: nat, e: Bytes, j: nat) {
    i <= next <= |d| && j + (next - i) <= |e| && forall k :: i <= k < next ==> d[k] == e[j + (k - i)]
  }

  /** Byte strings that agree on the bytes a scan consumed scan the same: varints are prefix-free,
      shortest form or not. */
  lemma {:induction false} ScanLocal(d: Bytes, i: nat, e: Bytes, j: nat, limit: nat)
    requires i <= |d| && ScanAt(d, i, limit).Scanned?
    requires SameBytes(d, i, ScanAt(d, i, limit).next, e, j)
    ensures ScanAt(e, j, limit) == Scanned(ScanAt(d, i, limit).value, j + (ScanAt(d, i, limit).next - i))
    decreases |d| - i
  {
    assert d[i] == e[j + (i - i)];
    if d[i] < 128 {
    } else {
      var next := ScanAt(d, i, limit).next;
      forall k | i + 1 <= k < next
        ensures d[k] == e[j + 1 + (k - (i + 1))]
      {
        assert d[k] == e[j + (k - i)];
      }
      ScanLocal(d, i + 1, e, j + 1, limit - 1);
    }
  }

  /** The bytes of a varint are unambiguous: equal varint-then-rest strings split equally. */
  lemma VarintPrefixFree(v: nat, x: Bytes, w: nat, y: Bytes)
    requires Varint(v) + x == Varint(w) + y
    ensures v == w && x == y
  {
    var d, limit := Varint(v) + x, |Varint(v)| + |Varint(w)|;
    ScanOfVarint(v, d, 0, limit);
    ScanOfVarint(w, d, 0, limit);
    SplitEqual(Varint(v), x, Varint(w), y);
  }

  // ---- Size arithmetic: sovProofs -------------------------------------------------------------

  /** `math/bits.Len64`: the position of the highest set bit, counting from one. */
  function Len64(x: nat): nat {
    if x == 0 then 0 else 1 + Len64(x / 2)
  }

  /** `x | 1`. */
  function OrOne(x: nat): nat {
    if x % 2 == 0 then x + 1 else x
  }

  /** `sovProofs`: the size of a varint without writing it. */
  function Sov(x: nat): nat {
    (Len64(OrOne(x)) + 6) / 7
  }

  lemma Len64Or(x: nat)
    requires x > 0
    ensures Len64(OrOne(x)) == Len64(x)
  {
    assert OrOne(x) / 2 == x / 2;
  }

  lemma Len64Halves(x: nat)
    requires x >= 8
    ensures Len64(x) == 3 + Len64(x / 8)
  {
    var a, b := x / 2, x / 4;
    assert a / 2 == b && b / 2 == x / 8;
    assert Len64(a) == 1 + Len64(b);
  }

  lemma Len64Shift7(x: nat)
    requires x >= 128
    ensures Len64(x) == 7 + Len64(x / 128)
  {
    Len64Halves(x);
    assert x / 8 / 8 == x / 64;
    Len64Halves(x / 8);
    assert x / 64 / 2 == x / 128;
  }

  lemma {:induction false} Len64UpTo(x: nat, n: nat)
    requires x < Pow2(n)
    ensures Len64(x) <= n
  {
    if x == 0 {
    } else {
      Len64UpTo(x / 2, n - 1);
    }
  }

  function Pow2(n: nat): (p: nat)
    ensures p > 0
  {
    if n == 0 then 1 else 2 * Pow2(n - 1)
  }

  /** `sovProofs(v)` is exactly the number of bytes the writers emit. */
  lemma {:induction false} SovIsSize(v: nat)
    ensures Sov(v) == |Varint(v)|
  {
    if v < 128 {
      assert Pow2(7) == 128;
      Len64UpTo(OrOne(v), 7);
    } else {
      SovIsSize(v / 128);
      Len64Or(v);
      Len64Shift7(v);
      Len64Or(v / 128);
    }
  }

  // ---- Writers --------------------------------------------------------------------------------

  /** The forward loop both in-place writers share: low group first, top bit on all but the last byte. */
  method PutVarint(dAtA: array<byte>, offset: nat, v: nat) returns (next: nat)
    requires offset + |Varint(v)| <= dAtA.Length
    modifies dAtA
    ensures next == offset + |Varint(v)|
    ensures dAtA[offset..next] == Varint(v)
    ensures dAtA[..offset] == old(dAtA[..offset]) && dAtA[next..] == old(dAtA[next..])
  {
    ghost var end := offset + |Varint(v)|;
    next := offset;
    var rest := v;
    while rest >= 128
      invariant offset <= next < end && next + |Varint(rest)| == end
      invariant dAtA[offset..next] + Varint(rest) == Varint(v)
      invariant dAtA[..offset] == old(dAtA[..offset]) && dAtA[end..] == old(dAtA[end..])
    {
      ghost var before := dAtA[offset..next];
      dAtA[next] := rest % 128 + 128;
      assert dAtA[offset..next + 1] == before + [rest % 128 + 128];
      Assoc(before, [rest % 128 + 128], Varint(rest / 128));
      rest := rest / 128;
      next := next + 1;
    }
    ghost var before := dAtA[offset..next];
    dAtA[next] := rest;
    next := next + 1;
    assert dAtA[offset..next] == before + [rest];
  }

  /** `encodeVarintProofs`: writes `v` so that it ends just before `offset`, returns where it starts. */
  method EncodeVarintProofs(dAtA: array<byte>, offset: nat, v: nat) returns (base: nat)
    requires v < TWO64
    requires |Varint(v)| <= offset <= dAtA.Length
    modifies dAtA
    ensures base + |Varint(v)| == offset
    ensures dAtA[base..offset] == Varint(v)
    ensures dAtA[..base] == old(dAtA[..base]) && dAtA[offset..] == old(dAtA[offset..])
  {
    SovIsSize(v);
    base := offset - Sov(v);
    var _ := PutVarint(dAtA, base, v);
  }

  /** `encodeVarintProto`: the length prefix of a leaf, appended to a growing slice. */
  method EncodeVarintProto(l: nat) returns (res: Bytes)
    ensures res == Varint(l)
  {
    res := [];
    var rest := l;
    while rest >= 128
      invariant res + Varint(rest) == Varint(l)
    {
      assert res + Varint(rest) == (res + [rest % 128 + 128]) + Varint(rest / 128);
      res := res + [rest % 128 + 128];
      rest := rest / 128;
    }
    res := res + [rest];
  }

  // ---- Readers --------------------------------------------------------------------------------

  /** The value of the `n` groups from index `i` on, as a shift-and-or reader accumulates it. */
  ghost function LowGroups(d: Bytes, i: nat, n: nat): nat
    requires i + n <= |d|
  {
    if n == 0 then 0 else LowGroups(d, i, n - 1) + (d[i + n - 1] % 128) * Pow128(n - 1)
  }

  /** Splitting off the first group. */
  lemma {:induction false} LowGroupsHead(d: Bytes, i: nat, n: nat)
    requires 0 < n && i + n <= |d|
    ensures LowGroups(d, i, n) == d[i] % 128 + 128 * LowGroups(d, i + 1, n - 1)
  {
    if n == 1 {
      assert Pow128(0) == 1 && LowGroups(d, i, 0) == 0 && LowGroups(d, i + 1, 0) == 0;
    } else {
      LowGroupsHead(d, i, n - 1);
      var g, p := d[i + n - 1] % 128, Pow128(n - 2);
      assert Pow128(n - 1) == 128 * p;
      assert g * (128 * p) == 128 * (g * p);
    }
  }

  /** The `k` bytes from index `i` on all carry the continuation bit. */
  ghost predicate Continues(d: Bytes, i: nat, k: nat) {
    i + k <= |d| && forall j :: i <= j < i + k ==> d[j] >= 128
  }

  /** A run of continuation bytes that never ends, or runs past the limit, does not scan. */
  lemma {:induction false} ScanFails(d: Bytes, i: nat, limit: nat, k: nat)
    requires Continues(d, i, k) && k <= limit && (i + k == |d| || k == limit)
    ensures ScanAt(d, i, limit) == Bad
    decreases k
  {
    if k == 0 {
    } else {
      assert d[i] >= 128;
      ScanFails(d, i + 1, limit - 1, k - 1);
    }
  }

  lemma {:induction false} ScanOneMore(d: Bytes, i: nat, limit: nat, value: nat, next: nat)
    requires i < |d| && limit > 0 && d[i] >= 128 && ScanAt(d, i + 1, limit - 1) == Scanned(value, next)
    ensures ScanAt(d, i, limit) == Scanned(d[i] - 128 + 128 * value, next)
  {
  }

  /** Ten continuation bytes are too many. */
  lemma {:induction false} TenBytesAtMost(d: Bytes, i: nat)
    requires i + 10 <= |d| && forall j :: i <= j < i + 10 ==> d[j] >= 128
    ensures ScanAt(d, i, MAX_VARINT) == Bad
  {
    ScanFails(d, i, MAX_VARINT, 10);
  }

  /** A run of continuation bytes ended by a final byte scans to exactly those bytes. */
  lemma {:induction false} ScanSucceeds(d: Bytes, i: nat, limit: nat, k: nat)
    requires Continues(d, i, k) && i + k < |d| && k < limit && d[i + k] < 128
    ensures ScanAt(d, i, limit) == Scanned(LowGroups(d, i, k + 1), i + k + 1)
    decreases k
  {
    LowGroupsHead(d, i, k + 1);
    if k == 0 {
      assert LowGroups(d, i + 1, 0) == 0;
    } else {
      assert d[i] >= 128;
      ScanSucceeds(d, i + 1, limit - 1, k - 1);
      ScanOneMore(d, i, limit, LowGroups(d, i + 1, k), i + k + 1);
    }
  }

  lemma ModAdd(x: int, y: int, m: int)
    requires m > 0
    ensures (x % m + y) % m == (x + y) % m
  {
    var q := x / m;
    assert x == m * q + x % m;
    ModShift(x % m + y, q, m);
    assert x + y == x % m + y + m * q;
  }

  lemma {:induction false} ModShift(x: int, q: int, m: int)
    requires m > 0
    ensures (x + m * q) % m == x % m
  {
    var r := x % m;
    assert x == m * (x / m) + r;
    assert x + m * q == m * (x / m + q) + r;
    ModUnique(x + m * q, x / m + q, r, m);
  }

  lemma ModUnique(x: int, q: int, r: int, m: int)
    requires m > 0 && 0 <= r < m && x == m * q + r
    ensures x % m == r
  {
    var dq := q - x / m;
    assert m * dq == x % m - r;
    assert dq >= 1 ==> m * dq >= m;
    assert dq <= -1 ==> m * dq <= -m;
  }

  /** The unrolled read loop of every generated Unmarshal: ten bytes at most, each group shifted into
      a word of `modulus` values. Groups occupy disjoint bits, so `|=` is addition in the word. */
  method ReadVarint(dAtA: Bytes, iNdEx: nat, modulus: nat) returns (ok: bool, value: nat, next: nat)
    requires iNdEx <= |dAtA| && modulus > 0
    ensures ok == ScanAt(dAtA, iNdEx, MAX_VARINT).Scanned?
    ensures ok ==> value == ScanAt(dAtA, iNdEx, MAX_VARINT).value % modulus
    ensures ok ==> next == ScanAt(dAtA, iNdEx, MAX_VARINT).next
  {
    value, next, ok := 0, iNdEx, false;
    ghost var k := 0;
    var weight: nat := 1;
    while true
      invariant 0 <= k <= MAX_VARINT && next == iNdEx + k && Continues(dAtA, iNdEx, k)
      invariant weight == Pow128(k) && value == LowGroups(dAtA, iNdEx, k) % modulus
      decreases MAX_VARINT - k
    {
      if next - iNdEx >= MAX_VARINT || next >= |dAtA| {
        ScanFails(dAtA, iNdEx, MAX_VARINT, k);
        return false, 0, next;
      }
      var b: int := dAtA[next];
      next := next + 1;
      ModAdd(LowGroups(dAtA, iNdEx, k), (b % 128) * weight, modulus);
      value := (value + (b % 128) * weight) % modulus;
      if b < 128 {
        ScanSucceeds(dAtA, iNdEx, MAX_VARINT, k);
        return true, value, next;
      }
      weight := 128 * weight;
      k := k + 1;
    }
  }

  // ---- Signed varints: read_varint, binary.ReadVarint --------------------------------------------

  function ZigZag(x: int): nat {
    if x >= 0 then 2 * x else -2 * x - 1
  }

  /** `(ux >> 1)`, complemented when the low bit is set. */
  function UnZigZag(ux: nat): int {
    if ux % 2 == 0 then ux / 2 else -(ux / 2) - 1
  }

  /** `decode_varint` and `ReadUvarint`: ten bytes at most and no bit above the 64th. */
  function ScanU64(d: Bytes, i: nat): (r: Scan)
    requires i <= |d|
    ensures r.Scanned? ==> i < r.next <= |d|
  {
    match ScanAt(d, i, MAX_VARINT)
    case Bad => Bad
    case Scanned(v, next) => if v < TWO64 then Scanned(v, next) else Bad
  }

  datatype SignedScan = NoInt | Int(value: int, next: nat)

  /** `read_varint` as a function of the bytes and the cursor. */
  function ScanInt(d: Bytes, i: nat): (r: SignedScan)
    requires i <= |d|
    ensures r.Int? ==> i < r.next <= |d|
  {
    match ScanU64(d, i)
    case Bad => NoInt
    case Scanned(ux, next) => Int(UnZigZag(ux), next)
  }

  /** `read_varint` inverts `put_varint` on every signed 64-bit value and leaves what surrounds it alone. */
  lemma ScanIntRoundTrip(x: int, before: Bytes, after: Bytes)
    requires -0x8000_0000_0000_0000 <= x < 0x8000_0000_0000_0000
    ensures var d := before + Varint(ZigZag(x)) + after;
            ScanInt(d, |before|) == Int(x, |before| + |Varint(ZigZag(x))|)
  {
    var d := before + Varint(ZigZag(x)) + after;
    assert At(d, |before|, Varint(ZigZag(x)));
    ScanOfU64(ZigZag(x), d, |before|);
  }

  /** A varint with a bit above the 64th is refused. */
  lemma ScanIntTooWide(d: Bytes, i: nat)
    requires i <= |d| && ScanAt(d, i, MAX_VARINT).Scanned? && ScanAt(d, i, MAX_VARINT).value >= TWO64
    ensures ScanInt(d, i) == NoInt
  {
  }

  /** Every value read is a signed 64-bit integer, so `try_into` never fails. */
  lemma ScanIntRange(d: Bytes, i: nat)
    requires i <= |d| && ScanInt(d, i).Int?
    ensures -0x8000_0000_0000_0000 <= ScanInt(d, i).value < 0x8000_0000_0000_0000
  {
  }

  /** The buffer cursor `read_varint` advances. */
  class Reader {
    const data: Bytes
    var at: nat

    constructor (data: Bytes)
      ensures this.data == data && at == 0
    {
      this.data := data;
      at := 0;
    }

    /** `read_varint`: advances the cursor past one signed varint. */
    method ReadInt() returns (x: Option<int>)
      requires at <= |data|
      modifies this
      ensures at <= |data|
      ensures ScanInt(data, old(at)).NoInt? ==> x == None
      ensures ScanInt(data, old(at)).Int? ==>
                x == Some(ScanInt(data, old(at)).value) && at == ScanInt(data, old(at)).next
    {
      var scan := ScanU64(data, at);
      if scan.Bad? {
        return None;
      }
      var y := scan.value / 2;
      if scan.value % 2 != 0 {
        y := -y - 1;
      }
      at := scan.next;
      return Some(y);
    }
  }
}
