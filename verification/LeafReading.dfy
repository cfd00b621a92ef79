/** When a leaf preimage has one reading: the leaf half of proof soundness. */
module LeafReading {
  import opened Bytes
  import opened Varints
  import opened Ics23
  import opened Ops
  import opened Specs
  import opened Verify

  /** Every input that `prepare_leaf_data` accepts has one hashed size. */
  predicate SizeFixed(prehash: int32, length: int32) {
    DigestLength(prehash) > 0 || length == REQUIRE_32_BYTES || length == REQUIRE_64_BYTES
  }

  predicate KeyDelimited(host: Host, leaf: LeafOp, key: Bytes) {
    SizeFixed(leaf.prehashKey, leaf.length) || Delimits(leaf.length, |DoHash(host, leaf.prehashKey, key)|)
  }

  /** The leaf ops whose preimage can be read in one way: IAVL ones, ones with fixed-size key and value,
      and ones that use the spec's prefix unextended and mark where the key ends. */
  predicate Readable(host: Host, spec: ProofSpec, leaf: LeafOp, key: Bytes) {
    && spec.leafSpec.Some?
    && var s := spec.leafSpec.value;
    || IsIavlSpec(spec)
    || (SizeFixed(s.prehashKey, s.length) && SizeFixed(s.prehashValue, s.length))
    || (leaf.prefix == s.prefix && KeyDelimited(host, s, key))
  }

  /** A leaf op the spec accepts on this key. */
  predicate LeafAccepted(host: Host, spec: ProofSpec, leaf: LeafOp) {
    && spec.leafSpec.Some?
    && EnsureLeafPrefix(leaf.prefix, spec)
    && EnsureLeaf(leaf, spec.leafSpec.value)
  }

  lemma SizesEqual(host: Host, prehash: int32, length: int32, x: Bytes, y: Bytes)
    requires SizeFixed(prehash, length)
    requires PrepareLeafData(host, prehash, length, x).Some? && PrepareLeafData(host, prehash, length, y).Some?
    ensures |DoHash(host, prehash, x)| == |DoHash(host, prehash, y)|
    ensures |PrepareLeafData(host, prehash, length, x).value| == |PrepareLeafData(host, prehash, length, y).value|
  {
    DigestHasLength(host, prehash, x);
    DigestHasLength(host, prehash, y);
  }

  /** The last field needs no end mark. */
  lemma LastField(op: int32, x: Bytes, y: Bytes)
    requires DoLength(op, x).Some? && DoLength(op, x) == DoLength(op, y)
    ensures x == y
  {
    var a := DoLength(op, x).value;
    assert a + [] == a;
    if op != VAR_PROTO {
      assert |LengthHeader(op, |x|)| == |LengthHeader(op, |y|)|;
    }
    FieldReadable(op, x, y, [], []);
  }

  lemma TwoFields(op: int32, prefix: Bytes, x: Bytes, p: Bytes, y: Bytes, q: Bytes)
    requires DoLength(op, x).Some? && DoLength(op, y).Some? && DoLength(op, p).Some? && DoLength(op, q).Some?
    requires prefix + DoLength(op, x).value + DoLength(op, p).value
          == prefix + DoLength(op, y).value + DoLength(op, q).value
    requires (Delimits(op, |x|) && Delimits(op, |y|)) || |x| == |y|
    ensures x == y && p == q
  {
    var k, l := DoLength(op, x).value, DoLength(op, y).value;
    var v, w := DoLength(op, p).value, DoLength(op, q).value;
    CancelPrefix(prefix, k, v, l, w);
    FieldReadable(op, x, y, v, w);
    LastField(op, p, q);
  }

  /** With equal prefixes and a marked or fixed key end, the rest of the preimage reads one way. */
  lemma BodyReadable(host: Host, a: LeafOp, ka: Bytes, va: Bytes, b: LeafOp, kb: Bytes, vb: Bytes)
    requires a == b
    requires LeafImage(host, a, ka, va).Some? && LeafImage(host, a, ka, va) == LeafImage(host, b, kb, vb)
    requires KeyDelimited(host, a, ka) && KeyDelimited(host, b, kb)
    ensures DoHash(host, a.prehashKey, ka) == DoHash(host, a.prehashKey, kb)
    ensures DoHash(host, a.prehashValue, va) == DoHash(host, a.prehashValue, vb)
  {
    var x, y := DoHash(host, a.prehashKey, ka), DoHash(host, a.prehashKey, kb);
    var p, q := DoHash(host, a.prehashValue, va), DoHash(host, a.prehashValue, vb);
    if SizeFixed(a.prehashKey, a.length) {
      SizesEqual(host, a.prehashKey, a.length, ka, kb);
    }
    TwoFields(a.length, a.prefix, x, p, y, q);
  }

  lemma IavlPrefixesEqual(host: Host, a: LeafOp, ka: Bytes, va: Bytes, b: LeafOp, kb: Bytes, vb: Bytes)
    requires EnsureIavlPrefix(a.prefix, 0) == Some(0) && EnsureIavlPrefix(b.prefix, 0) == Some(0)
    requires LeafImage(host, a, ka, va).Some? && LeafImage(host, a, ka, va) == LeafImage(host, b, kb, vb)
    ensures a.prefix == b.prefix
  {
    var k := PrepareLeafData(host, a.prehashKey, a.length, ka).value;
    var v := PrepareLeafData(host, a.prehashValue, a.length, va).value;
    var l := PrepareLeafData(host, b.prehashKey, b.length, kb).value;
    var w := PrepareLeafData(host, b.prehashValue, b.length, vb).value;
    Assoc(a.prefix, k, v);
    Assoc(b.prefix, l, w);
    IavlPrefixFree(a.prefix, k + v, b.prefix, l + w);
  }

  lemma FixedPrefixesEqual(host: Host, a: LeafOp, ka: Bytes, va: Bytes, b: LeafOp, kb: Bytes, vb: Bytes)
    requires a.prehashKey == b.prehashKey && a.prehashValue == b.prehashValue && a.length == b.length
    requires SizeFixed(a.prehashKey, a.length) && SizeFixed(a.prehashValue, a.length)
    requires LeafImage(host, a, ka, va).Some? && LeafImage(host, a, ka, va) == LeafImage(host, b, kb, vb)
    ensures a.prefix == b.prefix
  {
    var k := PrepareLeafData(host, a.prehashKey, a.length, ka).value;
    var v := PrepareLeafData(host, a.prehashValue, a.length, va).value;
    var l := PrepareLeafData(host, b.prehashKey, b.length, kb).value;
    var w := PrepareLeafData(host, b.prehashValue, b.length, vb).value;
    SizesEqual(host, a.prehashKey, a.length, ka, kb);
    SizesEqual(host, a.prehashValue, a.length, va, vb);
    assert |a.prefix + k + v| == |a.prefix| + |k| + |v|;
    assert |b.prefix + l + w| == |b.prefix| + |l| + |w|;
    SplitEqual3(a.prefix, k, v, b.prefix, l, w);
  }

  /** Leaf preimages are uniquely readable: two readable, accepted leaf ops with one preimage are the
      same op on the same hashed key and the same hashed value. */
  lemma LeafUniquelyReadable(host: Host, spec: ProofSpec, a: LeafOp, ka: Bytes, va: Bytes,
                             b: LeafOp, kb: Bytes, vb: Bytes)
    requires LeafAccepted(host, spec, a) && LeafAccepted(host, spec, b)
    requires Readable(host, spec, a, ka) && Readable(host, spec, b, kb)
    requires LeafImage(host, a, ka, va).Some? && LeafImage(host, a, ka, va) == LeafImage(host, b, kb, vb)
    ensures a == b
    ensures DoHash(host, a.prehashKey, ka) == DoHash(host, a.prehashKey, kb)
    ensures DoHash(host, a.prehashValue, va) == DoHash(host, a.prehashValue, vb)
  {
    if IsIavlSpec(spec) {
      IavlPrefixesEqual(host, a, ka, va, b, kb, vb);
    } else if SizeFixed(a.prehashKey, a.length) && SizeFixed(a.prehashValue, a.length) {
      FixedPrefixesEqual(host, a, ka, va, b, kb, vb);
    }
    BodyReadable(host, a, ka, va, b, kb, vb);
  }

  /** `ensure_leaf` lets a proof extend the spec's prefix. Outside the IAVL spec, with a marked key end and
      fixed-size values, one preimage names one hashed key exactly when the two prefixes agree. */
  lemma SameKeyIffSamePrefix(host: Host, spec: ProofSpec, a: LeafOp, ka: Bytes, va: Bytes,
                             b: LeafOp, kb: Bytes, vb: Bytes)
    requires LeafAccepted(host, spec, a) && LeafAccepted(host, spec, b)
    requires SizeFixed(a.prehashValue, a.length)
    requires KeyDelimited(host, a, ka) && KeyDelimited(host, b, kb)
    requires LeafImage(host, a, ka, va).Some? && LeafImage(host, a, ka, va) == LeafImage(host, b, kb, vb)
    ensures DoHash(host, a.prehashKey, ka) == DoHash(host, b.prehashKey, kb) <==> a.prefix == b.prefix
  {
    if a.prefix == b.prefix {
      BodyReadable(host, a, ka, va, b, kb, vb);
    } else {
      var k := PrepareLeafData(host, a.prehashKey, a.length, ka).value;
      var v := PrepareLeafData(host, a.prehashValue, a.length, va).value;
      var l := PrepareLeafData(host, b.prehashKey, b.length, kb).value;
      var w := PrepareLeafData(host, b.prehashValue, b.length, vb).value;
      SizesEqual(host, a.prehashValue, a.length, va, vb);
      if DoHash(host, a.prehashKey, ka) == DoHash(host, b.prehashKey, kb) {
        assert k == l && |a.prefix + k + v| == |b.prefix + l + w|;
        SplitEqual(a.prefix + k, v, b.prefix + l, w);
        SplitEqual(a.prefix, k, b.prefix, l);
      }
    }
  }

  /** The Tendermint spec does accept two prefixes for one preimage, so there the prefix must be checked. */
  lemma TendermintPrefixMatters(host: Host, value: Bytes)
    requires value != []
    ensures var spec := TendermintSpec();
            var short := spec.leafSpec.value;
            var long := short.(prefix := [0, 3, 9]);
            && LeafAccepted(host, spec, short) && LeafAccepted(host, spec, long)
            && LeafImage(host, short, [9, 1, 7], value).Some?
            && LeafImage(host, short, [9, 1, 7], value) == LeafImage(host, long, [7], value)
  {
    var spec := TendermintSpec();
    var short := spec.leafSpec.value;
    assert !IsIavlSpec(spec);
    var v := PrepareLeafData(host, SHA256, VAR_PROTO, value).value;
    assert Varint(3) == [3] && Varint(1) == [1];
    assert [0] + ([3] + [9, 1, 7]) == [0, 3, 9] + ([1] + [7]);
    assert LeafImage(host, short, [9, 1, 7], value) == Some([0] + ([3] + [9, 1, 7]) + v);
  }
}
