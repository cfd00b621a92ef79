/** Byte strings, machine words and the order `Vec<u8>` and `bytes.Compare` use. */
module Bytes {

  type byte = x: int | 0 <= x < 256

  type Bytes = seq<byte>

  type int32 = x: int | -0x8000_0000 <= x < 0x8000_0000

  datatype Option<+T> = None | Some(value: T)

  const TWO32 := 0x1_0000_0000
  const TWO64 := 0x1_0000_0000_0000_0000

  /** The 64-bit pattern of an integer: `x as u64`, `uint64(x)`. */
  function U64(x: int): (u: nat)
    ensures u < TWO64 && (0 <= x < TWO64 ==> u == x)
  {
    x % TWO64
  }

  /** The signed 32-bit reading of the low 32 bits: `x as i32`, `int32(x)`. */
  function I32(x: int): (i: int32)
    ensures -0x8000_0000 <= x < 0x8000_0000 ==> i == x
  {
    var u := x % TWO32;
    if u < 0x8000_0000 then u else u - TWO32
  }

  /** The signed 64-bit reading of the low 64 bits: Go's `int(x)`. */
  function I64(x: int): (i: int)
    ensures -0x8000_0000_0000_0000 <= i < 0x8000_0000_0000_0000
    ensures -0x8000_0000_0000_0000 <= x < 0x8000_0000_0000_0000 ==> i == x
  {
    var u := x % TWO64;
    if u < 0x8000_0000_0000_0000 then u else u - TWO64
  }

  /** Narrowing the 64-bit pattern of an `int32` gives the `int32` back. */
  lemma I32OfU64(x: int32)
    ensures I32(U64(x)) == x
  {
    assert U64(x) == if x < 0 then x + TWO64 else x;
  }

  /** `x as usize`: a negative 32-bit value becomes a huge index. */
  function Usize(x: int): nat {
    U64(x)
  }

  /** Lexicographic order on byte strings, a proper prefix being smaller. */
  predicate Less(a: Bytes, b: Bytes) {
    b != [] && (a == [] || a[0] < b[0] || (a[0] == b[0] && Less(a[1..], b[1..])))
  }

  /** `a` and `b` agree on their first `i` bytes; then `a` ends and `b` goes on, or `a` has the smaller byte. */
  predicate SmallerAt(a: Bytes, b: Bytes, i: nat) {
    i <= |a| && i < |b| && a[..i] == b[..i] && (i == |a| || a[i] < b[i])
  }

  lemma {:induction false} LessHasDifference(a: Bytes, b: Bytes) returns (i: nat)
    requires Less(a, b)
    ensures SmallerAt(a, b, i)
  {
    if a == [] || a[0] < b[0] {
      i := 0;
    } else {
      i := LessHasDifference(a[1..], b[1..]);
      assert a[..i + 1] == [a[0]] + a[1..][..i] && b[..i + 1] == [b[0]] + b[1..][..i];
      i := i + 1;
    }
  }

  lemma {:induction false} DifferenceIsLess(a: Bytes, b: Bytes, i: nat)
    requires SmallerAt(a, b, i)
    ensures Less(a, b)
    decreases i
  {
    if i == 0 {
    } else {
      assert a[..i][0] == b[..i][0];
      assert a[1..][..i - 1] == a[..i][1..] && b[1..][..i - 1] == b[..i][1..];
      DifferenceIsLess(a[1..], b[1..], i - 1);
    }
  }

  /** `Less` is the order of unsigned byte strings, decided at the first difference. */
  lemma {:induction false} LessIff(a: Bytes, b: Bytes)
    ensures Less(a, b) <==> exists i: nat :: SmallerAt(a, b, i)
  {
    if Less(a, b) {
      var i := LessHasDifference(a, b);
    }
    if i: nat :| SmallerAt(a, b, i) {
      DifferenceIsLess(a, b, i);
    }
  }

  lemma {:induction false} LessTransitive(a: Bytes, b: Bytes, c: Bytes)
    requires Less(a, b) && Less(b, c)
    ensures Less(a, c)
  {
    if a == [] || a[0] != b[0] || b[0] != c[0] {
    } else {
      LessTransitive(a[1..], b[1..], c[1..]);
    }
  }

  lemma {:induction false} LessIrreflexive(a: Bytes)
    ensures !Less(a, a)
  {
    if a == [] {
    } else {
      LessIrreflexive(a[1..]);
    }
  }

  lemma {:induction false} LessTotal(a: Bytes, b: Bytes)
    ensures Less(a, b) || a == b || Less(b, a)
  {
    if a == [] || b == [] || a[0] != b[0] {
    } else {
      LessTotal(a[1..], b[1..]);
      assert a == [a[0]] + a[1..] && b == [b[0]] + b[1..];
    }
  }

  /** No two byte strings lie before each other, nor does one before itself. */
  lemma LessAsymmetric(a: Bytes, b: Bytes)
    requires Less(a, b)
    ensures !Less(b, a) && a != b
  {
    if Less(b, a) {
      LessTransitive(a, b, a);
    }
    LessIrreflexive(a);
  }

  function Last<T>(s: seq<T>): T
    requires s != []
  {
    s[|s| - 1]
  }

  function Init<T>(s: seq<T>): seq<T>
    requires s != []
  {
    s[..|s| - 1]
  }

  /** The bytes `b` stand in `d` at index `i`. */
  ghost predicate At(d: Bytes, i: nat, b: Bytes) {
    i + |b| <= |d| && forall k :: 0 <= k < |b| ==> d[i + k] == b[k]
  }

  lemma AtParts(d: Bytes, i: nat, a: Bytes, b: Bytes)
    requires At(d, i, a + b)
    ensures At(d, i, a) && At(d, i + |a|, b)
  {
    forall k | 0 <= k < |a|
      ensures d[i + k] == a[k]
    {
      assert (a + b)[k] == a[k];
    }
    forall k | 0 <= k < |b|
      ensures d[i + |a| + k] == b[k]
    {
      assert (a + b)[|a| + k] == b[k];
    }
  }

  lemma AtSlice(d: Bytes, i: nat, b: Bytes)
    requires At(d, i, b)
    ensures d[i..i + |b|] == b
  {
  }

  lemma SameEnds<T>(a: seq<T>, b: seq<T>)
    requires a != [] && b != [] && Init(a) == Init(b) && Last(a) == Last(b)
    ensures a == b
  {
    assert a == Init(a) + [Last(a)] && b == Init(b) + [Last(b)];
  }

  lemma MiddleIndex<T>(a: seq<T>, b: seq<T>, c: seq<T>, i: nat)
    requires i < |b|
    ensures |a| + i < |a + b + c| && (a + b + c)[|a| + i] == b[i]
  {
  }

  /** Two splits of one string at the same point have equal parts. */
  lemma SplitEqual(a: Bytes, b: Bytes, c: Bytes, d: Bytes)
    requires a + b == c + d && |a| == |c|
    ensures a == c && b == d
  {
    assert a == (a + b)[..|a|] && c == (c + d)[..|c|];
    assert b == (a + b)[|a|..] && d == (c + d)[|c|..];
  }

  lemma CancelPrefix(p: Bytes, a: Bytes, b: Bytes, c: Bytes, d: Bytes)
    requires p + a + b == p + c + d
    ensures a + b == c + d
  {
    assert p + (a + b) == p + a + b && p + (c + d) == p + c + d;
    SplitEqual(p, a + b, p, c + d);
  }

  lemma Regroup(h: Bytes, a: Bytes, t: Bytes, r: Bytes, b: Bytes)
    ensures (h + a + t) + r + b == h + (a + t + r + b)
  {
  }

  lemma Assoc(a: Bytes, b: Bytes, c: Bytes)
    ensures a + b + c == a + (b + c)
    ensures (a + b + c)[|a|..] == b + c && (a + b)[|a|..] == b
  {
  }

  lemma SplitEqual3(a: Bytes, b: Bytes, c: Bytes, x: Bytes, y: Bytes, z: Bytes)
    requires a + b + c == x + y + z && |a| == |x| && |b| == |y|
    ensures a == x && b == y && c == z
  {
    SplitEqual(a + b, c, x + y, z);
    SplitEqual(a, b, x, y);
  }
}
