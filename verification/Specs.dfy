/** The built-in proof specs and the IAVL prefix rules of rust/src/api.rs. */
module Specs {
  import opened Bytes
  import opened Varints
  import opened Ics23

  function Zeros(n: nat): (r: Bytes)
    ensures |r| == n
  {
    seq(n, i => 0)
  }

  function IavlSpec(): ProofSpec {
    ProofSpec(Some(LeafOp(SHA256, NO_HASH, SHA256, VAR_PROTO, [0])),
              Some(InnerSpec([0, 1], 33, 4, 12, [], SHA256)), 0, 0, false)
  }

  function TendermintSpec(): ProofSpec {
    ProofSpec(Some(LeafOp(SHA256, NO_HASH, SHA256, VAR_PROTO, [0])),
              Some(InnerSpec([0, 1], 32, 1, 1, [], SHA256)), 0, 0, false)
  }

  function SmtSpec(): ProofSpec {
    ProofSpec(Some(LeafOp(SHA256, SHA256, SHA256, NO_PREFIX, [0])),
              Some(InnerSpec([0, 1], 32, 1, 1, Zeros(32), SHA256)), 0, 0, true)
  }

  predicate LeafSpecEquals(left: LeafOp, right: LeafOp) {
    && left.hash == right.hash
    && left.prehashKey == right.prehashKey
    && left.prehashValue == right.prehashValue
    && left.length == right.length
  }

  predicate InnerSpecEquals(left: InnerSpec, right: InnerSpec) {
    && left.hash == right.hash
    && left.minPrefixLength == right.minPrefixLength
    && left.maxPrefixLength == right.maxPrefixLength
    && left.childSize == right.childSize
    && |left.childOrder| == |right.childOrder|
  }

  /** `spec_equals`: over-declares equality, ignoring prefixes, depths and the empty child. */
  predicate SpecEquals(left: ProofSpec, right: ProofSpec) {
    && left.leafSpec.Some? && left.innerSpec.Some? && right.leafSpec.Some? && right.innerSpec.Some?
    && LeafSpecEquals(left.leafSpec.value, right.leafSpec.value)
    && InnerSpecEquals(left.innerSpec.value, right.innerSpec.value)
  }

  predicate IsIavlSpec(spec: ProofSpec) {
    SpecEquals(spec, IavlSpec())
  }

  /** A spec counts as IAVL's when both halves are there with these numbers and two children, whatever its leaf
      prefix, placeholder, depths and comparison. */
  lemma IavlSpecNumbers(spec: ProofSpec)
    ensures IsIavlSpec(spec) <==>
            && spec.leafSpec.Some? && spec.innerSpec.Some?
            && var leaf, inner := spec.leafSpec.value, spec.innerSpec.value;
               && leaf.hash == 1 && leaf.prehashKey == 0 && leaf.prehashValue == 1 && leaf.length == 1
               && inner.hash == 1 && inner.minPrefixLength == 4 && inner.maxPrefixLength == 12
               && inner.childSize == 33 && |inner.childOrder| == 2
  {
  }

  datatype IavlHeader = BadHeader | IavlHeader(height: int, size: int, version: int, end: nat)

  /** Three signed varints, and where they end. */
  function ParseIavlHeader(prefix: Bytes): (r: IavlHeader)
    ensures r.IavlHeader? ==> r.end <= |prefix|
  {
    match ScanInt(prefix, 0)
    case NoInt => BadHeader
    case Int(height, i) =>
      match ScanInt(prefix, i)
      case NoInt => BadHeader
      case Int(size, j) =>
        match ScanInt(prefix, j)
        case NoInt => BadHeader
        case Int(version, k) => IavlHeader(height, size, version, k)
  }

  /** `ensure_iavl_prefix`: the number of bytes after a header whose height is at least `minHeight`. */
  function EnsureIavlPrefix(prefix: Bytes, minHeight: int): Option<nat> {
    match ParseIavlHeader(prefix)
    case BadHeader => None
    case IavlHeader(height, size, version, end) =>
      if height >= minHeight && size >= 0 && version >= 0 then Some(|prefix| - end) else None
  }

  /** `ensure_iavl_prefix` as written, consuming a buffer cursor. */
  method ReadIavlPrefix(prefix: Bytes, minHeight: int) returns (remaining: Option<nat>)
    ensures remaining == EnsureIavlPrefix(prefix, minHeight)
  {
    var buf := new Reader(prefix);
    var height := buf.ReadInt();
    if height == None || height.value < minHeight {
      return None;
    }
    var size := buf.ReadInt();
    if size == None || size.value < 0 {
      return None;
    }
    var version := buf.ReadInt();
    if version == None || version.value < 0 {
      return None;
    }
    return Some(|prefix| - buf.at);
  }

  /** `ensure_leaf_prefix`: an IAVL leaf prefix is three varints and nothing more. */
  predicate EnsureLeafPrefix(prefix: Bytes, spec: ProofSpec) {
    IsIavlSpec(spec) ==> EnsureIavlPrefix(prefix, 0) == Some(0)
  }

  /** `ensure_inner_prefix`: after an IAVL inner header comes one length byte, or the left slot and one. */
  predicate EnsureInnerPrefix(prefix: Bytes, spec: ProofSpec, minHeight: int, hashOp: int32) {
    IsIavlSpec(spec) ==>
      && EnsureIavlPrefix(prefix, minHeight) in {Some(1), Some(34)}
      && hashOp == SHA256
  }

  /** Bytes added behind a signed varint do not change it. */
  lemma ScanIntAppend(p: Bytes, x: Bytes, i: nat)
    requires i <= |p| && ScanInt(p, i).Int?
    ensures ScanInt(p + x, i) == ScanInt(p, i)
  {
    ScanLocal(p, i, p + x, i, MAX_VARINT);
  }

  lemma HeaderAppend(p: Bytes, x: Bytes)
    requires ParseIavlHeader(p).IavlHeader?
    ensures ParseIavlHeader(p + x) == ParseIavlHeader(p)
  {
    ScanIntAppend(p, x, 0);
    ScanIntAppend(p, x, ScanInt(p, 0).next);
    ScanIntAppend(p, x, ScanInt(p, ScanInt(p, 0).next).next);
  }

  predicate FitsInt64(x: int) {
    -0x8000_0000_0000_0000 <= x < 0x8000_0000_0000_0000
  }

  /** Height, size and version, in this order, as IAVL writes them. */
  function HeaderBytes(height: int, size: int, version: int): Bytes {
    Varint(ZigZag(height)) + (Varint(ZigZag(size)) + Varint(ZigZag(version)))
  }

  lemma ScanIntAt(d: Bytes, i: nat, x: int)
    requires FitsInt64(x) && At(d, i, Varint(ZigZag(x)))
    ensures ScanInt(d, i) == Int(x, i + |Varint(ZigZag(x))|)
  {
    ScanOfU64(ZigZag(x), d, i);
  }

  lemma ThreeScans(d: Bytes, height: int, i: nat, size: int, j: nat, version: int, k: nat)
    requires ScanInt(d, 0) == Int(height, i) && i <= |d| && ScanInt(d, i) == Int(size, j)
    requires j <= |d| && ScanInt(d, j) == Int(version, k)
    ensures ParseIavlHeader(d) == IavlHeader(height, size, version, k)
  {
  }

  lemma {:induction false} HeaderAt(d: Bytes, height: int, i: nat, size: int, j: nat, version: int, k: nat)
    requires FitsInt64(height) && FitsInt64(size) && FitsInt64(version)
    requires At(d, 0, Varint(ZigZag(height))) && i == |Varint(ZigZag(height))|
    requires At(d, i, Varint(ZigZag(size))) && j == i + |Varint(ZigZag(size))|
    requires At(d, j, Varint(ZigZag(version))) && k == j + |Varint(ZigZag(version))|
    ensures ParseIavlHeader(d) == IavlHeader(height, size, version, k)
  {
    ScanIntAt(d, 0, height);
    ScanIntAt(d, i, size);
    ScanIntAt(d, j, version);
    ThreeScans(d, height, i, size, j, version, k);
  }

  /** An IAVL header reads back, whatever follows it. */
  lemma {:induction false} HeaderReads(height: int, size: int, version: int, rest: Bytes)
    requires FitsInt64(height) && FitsInt64(size) && FitsInt64(version)
    ensures var header := HeaderBytes(height, size, version);
            ParseIavlHeader(header + rest) == IavlHeader(height, size, version, |header|)
  {
    var h, s, v := Varint(ZigZag(height)), Varint(ZigZag(size)), Varint(ZigZag(version));
    Placed(h, s, v, rest);
    HeaderAt(h + (s + v) + rest, height, |h|, size, |h| + |s|, version, |h| + |s| + |v|);
  }

  lemma Placed(h: Bytes, s: Bytes, v: Bytes, rest: Bytes)
    ensures var d := h + (s + v) + rest; At(d, 0, h) && At(d, |h|, s) && At(d, |h| + |s|, v)
  {
    var d := h + (s + v) + rest;
    assert At(d, 0, h + (s + v));
    AtParts(d, 0, h, s + v);
    AtParts(d, |h|, s, v);
  }

  /** `ensure_iavl_prefix` accepts a header exactly when it is high enough and size and version are not negative,
      and counts the bytes behind it. */
  lemma {:induction false} IavlPrefixReads(height: int, size: int, version: int, rest: Bytes, minHeight: int)
    requires FitsInt64(height) && FitsInt64(size) && FitsInt64(version)
    ensures EnsureIavlPrefix(HeaderBytes(height, size, version) + rest, minHeight)
         == if height >= minHeight && size >= 0 && version >= 0 then Some(|rest|) else None
  {
    HeaderReads(height, size, version, rest);
  }

  /** IAVL leaf prefixes form a prefix code: two of them starting one string are equal. */
  lemma IavlPrefixFree(p: Bytes, x: Bytes, q: Bytes, y: Bytes)
    requires EnsureIavlPrefix(p, 0) == Some(0) && EnsureIavlPrefix(q, 0) == Some(0)
    requires p + x == q + y
    ensures p == q && x == y
  {
    HeaderAppend(p, x);
    HeaderAppend(q, y);
    SplitEqual(p, x, q, y);
  }
}
