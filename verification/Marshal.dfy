/** Size and MarshalToSizedBuffer of go/proofs.pb.go: every writer fills its slice of one buffer from the back,
    and `Size` says beforehand how much. A writer is handed the whole buffer and where its slice ends. */
module Marshal {
  import opened Bytes
  import opened Varints
  import opened Ics23
  import opened Wire
  import opened Codec

  // ---- Size ------------------------------------------------------------------------------------------

  /** `n += 1 + sovProofs(uint64(v))` unless `v` is zero. */
  method SizeInt(num: nat, v: int32) returns (n: nat)
    requires 0 < num < 16
    ensures n == |EncodeItems(IntField(num, v))|
  {
    IntFieldBytes(num, v);
    SovIsSize(U64(v));
    return if v != 0 then 1 + Sov(U64(v)) else 0;
  }

  /** `n += 1 + l + sovProofs(uint64(l))` unless the field is empty. */
  method SizeBytes(num: nat, payload: Bytes) returns (n: nat)
    requires 0 < num < 16
    ensures n == |EncodeItems(BytesField(num, payload))|
  {
    BytesFieldBytes(num, payload);
    SovIsSize(|payload|);
    return if |payload| > 0 then 1 + |payload| + Sov(|payload|) else 0;
  }

  lemma NestedSize(num: nat, payload: Bytes)
    requires 0 < num < 16
    ensures |EncodeItem(BytesItem(num, payload))| == 1 + |payload| + Sov(|payload|)
  {
    SovIsSize(|payload|);
  }

  method InnerSize(m: InnerOp) returns (n: nat)
    ensures n == |EncodeInner(m)|
  {
    ItemsAppend(IntField(1, m.hash), BytesField(2, m.prefix) + BytesField(3, m.suffix));
    ItemsAppend(BytesField(2, m.prefix), BytesField(3, m.suffix));
    var hash := SizeInt(1, m.hash);
    var prefix := SizeBytes(2, m.prefix);
    var suffix := SizeBytes(3, m.suffix);
    return hash + prefix + suffix;
  }

  method LeafSize(m: LeafOp) returns (n: nat)
    ensures n == |EncodeLeaf(m)|
  {
    var prefix := BytesField(5, m.prefix);
    var length := IntField(4, m.length) + prefix;
    var prehashValue := IntField(3, m.prehashValue) + length;
    ItemsAppend(IntField(1, m.hash), IntField(2, m.prehashKey) + prehashValue);
    ItemsAppend(IntField(2, m.prehashKey), prehashValue);
    ItemsAppend(IntField(3, m.prehashValue), length);
    ItemsAppend(IntField(4, m.length), prefix);
    var a := SizeInt(1, m.hash);
    var b := SizeInt(2, m.prehashKey);
    var c := SizeInt(3, m.prehashValue);
    var d := SizeInt(4, m.length);
    var e := SizeBytes(5, m.prefix);
    return a + b + c + d + e;
  }

  method LeafFieldSize(leaf: Option<LeafOp>) returns (n: nat)
    ensures n == |EncodeItems(LeafField(leaf))|
  {
    if leaf == None {
      return 0;
    }
    var l := LeafSize(leaf.value);
    NestedSize(3, EncodeLeaf(leaf.value));
    PayloadIsShorter(3, EncodeLeaf(leaf.value));
    return 1 + l + Sov(l);
  }

  lemma {:induction false} PathItemsSnoc(path: seq<InnerOp>, i: nat)
    requires i < |path|
    ensures |EncodeItems(PathItems(path[..i + 1]))|
         == |EncodeItems(PathItems(path[..i]))| + |EncodeItem(BytesItem(4, EncodeInner(path[i])))|
  {
    var before, one := path[..i], [path[i]];
    assert path[..i + 1] == before + one;
    PathItemsAppend(before, one);
    ItemsAppend(PathItems(before), PathItems(one));
    assert one[1..] == [];
    assert PathItems(one) == [BytesItem(4, EncodeInner(path[i]))];
    PayloadIsShorter(4, EncodeInner(path[i]));
  }

  lemma {:induction false} PathItemsAppend(a: seq<InnerOp>, b: seq<InnerOp>)
    ensures PathItems(a + b) == PathItems(a) + PathItems(b)
  {
    if a == [] {
      assert a + b == b;
    } else {
      assert (a + b)[1..] == a[1..] + b;
      PathItemsAppend(a[1..], b);
    }
  }

  method ExistenceSize(m: ExistenceProof) returns (n: nat)
    ensures n == |EncodeExistence(m)|
  {
    FourParts(BytesField(1, m.key), BytesField(2, m.value), LeafField(m.leaf), PathItems(m.path), ExistenceSchema());
    var key := SizeBytes(1, m.key);
    var value := SizeBytes(2, m.value);
    var leaf := LeafFieldSize(m.leaf);
    n := key + value + leaf;
    for i := 0 to |m.path|
      invariant n == key + value + leaf + |EncodeItems(PathItems(m.path[..i]))|
    {
      var l := InnerSize(m.path[i]);
      NestedSize(4, EncodeInner(m.path[i]));
      PathItemsSnoc(m.path, i);
      n := n + 1 + l + Sov(l);
    }
    assert m.path[..|m.path|] == m.path;
  }

  lemma {:induction false} PackSnoc(vs: seq<int32>, i: nat)
    requires i < |vs|
    ensures PackInts(vs[..i + 1]) == PackInts(vs[..i]) + Varint(U64(vs[i]))
    decreases i
  {
    var upTo, before := vs[..i + 1], vs[..i];
    if i == 0 {
      assert upTo[1..] == [] && PackInts([]) == [];
    } else {
      assert upTo[1..] == vs[1..][..i] && before[1..] == vs[1..][..i - 1];
      PackSnoc(vs[1..], i - 1);
      Assoc(Varint(U64(vs[0])), PackInts(before[1..]), Varint(U64(vs[i])));
    }
  }

  method PackedSize(path: seq<int32>) returns (l: nat)
    ensures l == |PackInts(path)|
  {
    l := 0;
    for i := 0 to |path|
      invariant l == |PackInts(path[..i])|
    {
      SovIsSize(U64(path[i]));
      PackSnoc(path, i);
      l := l + Sov(U64(path[i]));
    }
    assert path[..|path|] == path;
  }

  method CompressedSize(m: CompressedExistenceProof) returns (n: nat)
    ensures n == |EncodeCompressed(m)|
  {
    FourParts(BytesField(1, m.key), BytesField(2, m.value), LeafField(m.leaf), IntsField(4, m.path),
              CompressedSchema());
    var key := SizeBytes(1, m.key);
    var value := SizeBytes(2, m.value);
    var leaf := LeafFieldSize(m.leaf);
    n := key + value + leaf;
    if |m.path| > 0 {
      var l := PackedSize(m.path);
      IntsFieldSize(m.path);
      n := n + 1 + Sov(l) + l;
    }
  }

  lemma IntsFieldSize(values: seq<int32>)
    requires values != []
    ensures |EncodeItems(IntsField(4, values))| == 1 + Sov(|PackInts(values)|) + |PackInts(values)|
  {
    SovIsSize(|PackInts(values)|);
    assert IntsField(4, values)[1..] == [] && EncodeItems([]) == [];
  }

  // ---- Writing from the back -----------------------------------------------------------------------------

  /** `now` is `was` with `b` written so as to end just before `end`. */
  ghost predicate Wrote(was: Bytes, now: Bytes, i: nat, end: nat, b: Bytes) {
    && |was| == |now| && end <= |now| && i + |b| == end
    && now[i..end] == b && now[..i] == was[..i] && now[end..] == was[end..]
  }

  /** Two writes, the second ending where the first begins. */
  lemma WroteBefore(w0: Bytes, w1: Bytes, w2: Bytes, i: nat, j: nat, end: nat, a: Bytes, b: Bytes)
    requires Wrote(w0, w1, j, end, b) && Wrote(w1, w2, i, j, a)
    ensures Wrote(w0, w2, i, end, a + b)
  {
    assert w2[i..end] == w2[i..j] + w2[j..end];
    assert w2[j..end] == w2[j..][..end - j] == w1[j..][..end - j] == w1[j..end];
    assert w2[..i] == w1[..i] == w1[..j][..i] == w0[..j][..i] == w0[..i];
    assert w2[end..] == w2[j..][end - j..] == w1[j..][end - j..] == w1[end..];
  }

  method PutByte(dAtA: array<byte>, end: nat, b: byte) returns (i: nat)
    requires 0 < end <= dAtA.Length
    modifies dAtA
    ensures Wrote(old(dAtA[..]), dAtA[..], i, end, [b])
  {
    i := end - 1;
    dAtA[i] := b;
  }

  /** `copy(dAtA[i:], payload)` just before `end`. */
  method PutBytes(dAtA: array<byte>, end: nat, payload: Bytes) returns (i: nat)
    requires |payload| <= end <= dAtA.Length
    modifies dAtA
    ensures Wrote(old(dAtA[..]), dAtA[..], i, end, payload)
  {
    i := end - |payload|;
    forall k | i <= k < end {
      dAtA[k] := payload[k - i];
    }
  }

  /** The length and the tag before a payload already written. */
  method PutHeader(dAtA: array<byte>, end: nat, num: nat, size: nat) returns (i: nat)
    requires 0 < num < 16 && size < TWO64 && 1 + |Varint(size)| <= end <= dAtA.Length
    modifies dAtA
    ensures Wrote(old(dAtA[..]), dAtA[..], i, end, Tag(num, WIRE_BYTES) + Varint(size))
  {
    ghost var w0 := dAtA[..];
    var j := EncodeVarintProofs(dAtA, end, size);
    ghost var w1 := dAtA[..];
    assert Wrote(w0, w1, j, end, Varint(size));
    i := PutByte(dAtA, j, 8 * num + WIRE_BYTES);
    WroteBefore(w0, w1, dAtA[..], i, j, end, [8 * num + WIRE_BYTES], Varint(size));
  }

  method WriteInt(dAtA: array<byte>, end: nat, num: nat, v: int32) returns (i: nat)
    requires 0 < num < 16 && |EncodeItems(IntField(num, v))| <= end <= dAtA.Length
    modifies dAtA
    ensures Wrote(old(dAtA[..]), dAtA[..], i, end, EncodeItems(IntField(num, v)))
  {
    ghost var w0 := dAtA[..];
    IntFieldBytes(num, v);
    i := end;
    if v != 0 {
      var j := EncodeVarintProofs(dAtA, end, U64(v));
      ghost var w1 := dAtA[..];
      assert Wrote(w0, w1, j, end, Varint(U64(v)));
      i := PutByte(dAtA, j, 8 * num);
      WroteBefore(w0, w1, dAtA[..], i, j, end, [8 * num], Varint(U64(v)));
    }
  }

  method WriteBytes(dAtA: array<byte>, end: nat, num: nat, payload: Bytes) returns (i: nat)
    requires 0 < num < 16 && dAtA.Length < MAX_LEN && |EncodeItems(BytesField(num, payload))| <= end <= dAtA.Length
    modifies dAtA
    ensures Wrote(old(dAtA[..]), dAtA[..], i, end, EncodeItems(BytesField(num, payload)))
  {
    ghost var w0 := dAtA[..];
    BytesFieldBytes(num, payload);
    i := end;
    if |payload| > 0 {
      var j := PutBytes(dAtA, end, payload);
      ghost var w1 := dAtA[..];
      i := PutHeader(dAtA, j, num, |payload|);
      WroteBefore(w0, w1, dAtA[..], i, j, end, Tag(num, WIRE_BYTES) + Varint(|payload|), payload);
      Assoc(Tag(num, WIRE_BYTES), Varint(|payload|), payload);
    }
  }

  // ---- MarshalToSizedBuffer --------------------------------------------------------------------------------

  method MarshalInner(m: InnerOp, dAtA: array<byte>, end: nat) returns (n: nat)
    requires dAtA.Length < MAX_LEN && |EncodeInner(m)| <= end <= dAtA.Length
    modifies dAtA
    ensures n <= end && Wrote(old(dAtA[..]), dAtA[..], end - n, end, EncodeInner(m))
  {
    ghost var a, b, c := IntField(1, m.hash), BytesField(2, m.prefix), BytesField(3, m.suffix);
    ItemsAppend(a, b + c);
    ItemsAppend(b, c);
    ghost var w0 := dAtA[..];
    var i := WriteBytes(dAtA, end, 3, m.suffix);
    ghost var i1, w1 := i, dAtA[..];
    i := WriteBytes(dAtA, i, 2, m.prefix);
    ghost var i2, w2 := i, dAtA[..];
    WroteBefore(w0, w1, w2, i2, i1, end, EncodeItems(b), EncodeItems(c));
    i := WriteInt(dAtA, i, 1, m.hash);
    WroteBefore(w0, w2, dAtA[..], i, i2, end, EncodeItems(a), EncodeItems(b + c));
    return end - i;
  }

  method MarshalLeaf(m: LeafOp, dAtA: array<byte>, end: nat) returns (n: nat)
    requires dAtA.Length < MAX_LEN && |EncodeLeaf(m)| <= end <= dAtA.Length
    modifies dAtA
    ensures n <= end && Wrote(old(dAtA[..]), dAtA[..], end - n, end, EncodeLeaf(m))
  {
    ghost var prefix := BytesField(5, m.prefix);
    ghost var length := IntField(4, m.length) + prefix;
    ghost var prehashValue := IntField(3, m.prehashValue) + length;
    ghost var prehashKey := IntField(2, m.prehashKey) + prehashValue;
    ItemsAppend(IntField(1, m.hash), prehashKey);
    ItemsAppend(IntField(2, m.prehashKey), prehashValue);
    ItemsAppend(IntField(3, m.prehashValue), length);
    ItemsAppend(IntField(4, m.length), prefix);
    ghost var w0 := dAtA[..];
    var i := WriteBytes(dAtA, end, 5, m.prefix);
    i := PutInt(dAtA, i, end, 4, m.length, prefix, w0);
    i := PutInt(dAtA, i, end, 3, m.prehashValue, length, w0);
    i := PutInt(dAtA, i, end, 2, m.prehashKey, prehashValue, w0);
    i := PutInt(dAtA, i, end, 1, m.hash, prehashKey, w0);
    return end - i;
  }

  /** One more scalar field before the fields already written. */
  method PutInt(dAtA: array<byte>, j: nat, end: nat, num: nat, v: int32, ghost rest: seq<Item>, ghost was: Bytes)
    returns (i: nat)
    requires 0 < num < 16 && |EncodeItems(IntField(num, v))| <= j <= end <= dAtA.Length
    requires Wrote(was, dAtA[..], j, end, EncodeItems(rest))
    modifies dAtA
    ensures Wrote(was, dAtA[..], i, end, EncodeItems(IntField(num, v) + rest))
  {
    ghost var w := dAtA[..];
    i := WriteInt(dAtA, j, num, v);
    WroteBefore(was, w, dAtA[..], i, j, end, EncodeItems(IntField(num, v)), EncodeItems(rest));
    ItemsAppend(IntField(num, v), rest);
  }

  method MarshalLeafField(leaf: Option<LeafOp>, dAtA: array<byte>, end: nat) returns (i: nat)
    requires dAtA.Length < MAX_LEN && |EncodeItems(LeafField(leaf))| <= end <= dAtA.Length
    modifies dAtA
    ensures Wrote(old(dAtA[..]), dAtA[..], i, end, EncodeItems(LeafField(leaf)))
  {
    i := end;
    if leaf != None {
      ghost var w0 := dAtA[..];
      ghost var body := EncodeLeaf(leaf.value);
      OneNested(3, body);
      var size := MarshalLeaf(leaf.value, dAtA, end);
      ghost var w1 := dAtA[..];
      i := PutHeader(dAtA, end - size, 3, size);
      WroteBefore(w0, w1, dAtA[..], i, end - size, end, Tag(3, WIRE_BYTES) + Varint(size), body);
    }
  }

  lemma OneNested(num: nat, body: Bytes)
    requires 0 < num < 16
    ensures EncodeItems([BytesItem(num, body)]) == Tag(num, WIRE_BYTES) + Varint(|body|) + body
    ensures |EncodeItems([BytesItem(num, body)])| == 1 + |Varint(|body|)| + |body|
  {
    assert [BytesItem(num, body)][1..] == [] && EncodeItems([]) == [];
    Assoc(Tag(num, WIRE_BYTES), Varint(|body|), body);
  }

  /** The path, last op first. */
  method MarshalPath(path: seq<InnerOp>, dAtA: array<byte>, end: nat) returns (i: nat)
    requires dAtA.Length < MAX_LEN && |EncodeItems(PathItems(path))| <= end <= dAtA.Length
    modifies dAtA
    ensures Wrote(old(dAtA[..]), dAtA[..], i, end, EncodeItems(PathItems(path)))
  {
    i := end;
    ghost var w0 := dAtA[..];
    for iNdEx := |path| downto 0
      invariant Wrote(w0, dAtA[..], i, end, EncodeItems(PathItems(path[iNdEx..])))
    {
      PathItemsCons(path, iNdEx);
      i := MarshalStep(path[iNdEx], dAtA, i, end, PathItems(path[iNdEx + 1..]), w0);
    }
    assert path[0..] == path;
  }

  lemma PathItemsCons(path: seq<InnerOp>, k: nat)
    requires k < |path|
    ensures PathItems(path[k..]) == [BytesItem(4, EncodeInner(path[k]))] + PathItems(path[k + 1..])
    ensures |EncodeItems(PathItems(path[k..]))| <= |EncodeItems(PathItems(path))|
  {
    assert path[k..][1..] == path[k + 1..];
    assert path == path[..k] + path[k..];
    PathItemsAppend(path[..k], path[k..]);
    ItemsAppend(PathItems(path[..k]), PathItems(path[k..]));
  }

  /** One more op before the fields already written. */
  method MarshalStep(op: InnerOp, dAtA: array<byte>, j: nat, end: nat, ghost rest: seq<Item>, ghost was: Bytes)
    returns (i: nat)
    requires dAtA.Length < MAX_LEN && j <= end <= dAtA.Length
    requires Wrote(was, dAtA[..], j, end, EncodeItems(rest))
    requires |EncodeItems([BytesItem(4, EncodeInner(op))] + rest)| <= end
    modifies dAtA
    ensures Wrote(was, dAtA[..], i, end, EncodeItems([BytesItem(4, EncodeInner(op))] + rest))
  {
    ghost var w0, body := dAtA[..], EncodeInner(op);
    ItemsAppend([BytesItem(4, body)], rest);
    OneNested(4, body);
    var size := MarshalInner(op, dAtA, j);
    ghost var w1 := dAtA[..];
    i := PutHeader(dAtA, j - size, 4, size);
    ghost var w2 := dAtA[..];
    WroteBefore(w0, w1, w2, i, j - size, j, Tag(4, WIRE_BYTES) + Varint(size), body);
    WroteBefore(was, w0, w2, i, j, end, EncodeItems([BytesItem(4, body)]), EncodeItems(rest));
  }

  /** The leaf, value and key before a path already written. */
  method MarshalRest(key: Bytes, value: Bytes, leaf: Option<LeafOp>, dAtA: array<byte>, j: nat, end: nat,
                     ghost path: seq<Item>, ghost was: Bytes)
    returns (i: nat)
    requires dAtA.Length < MAX_LEN && j <= end <= dAtA.Length
    requires Wrote(was, dAtA[..], j, end, EncodeItems(path))
    requires |EncodeItems(BytesField(1, key) + (BytesField(2, value) + (LeafField(leaf) + path)))| <= end
    modifies dAtA
    ensures Wrote(was, dAtA[..], i, end,
                  EncodeItems(BytesField(1, key) + (BytesField(2, value) + (LeafField(leaf) + path))))
  {
    ghost var a, b, c := BytesField(1, key), BytesField(2, value), LeafField(leaf);
    ItemsAppend(a, b + (c + path));
    ItemsAppend(b, c + path);
    ItemsAppend(c, path);
    ghost var w0 := dAtA[..];
    var i1 := MarshalLeafField(leaf, dAtA, j);
    ghost var w1 := dAtA[..];
    WroteBefore(was, w0, w1, i1, j, end, EncodeItems(c), EncodeItems(path));
    var i2 := WriteBytes(dAtA, i1, 2, value);
    ghost var w2 := dAtA[..];
    WroteBefore(was, w1, w2, i2, i1, end, EncodeItems(b), EncodeItems(c + path));
    i := WriteBytes(dAtA, i2, 1, key);
    WroteBefore(was, w2, dAtA[..], i, i2, end, EncodeItems(a), EncodeItems(b + (c + path)));
  }

  method MarshalExistence(m: ExistenceProof, dAtA: array<byte>, end: nat) returns (n: nat)
    requires dAtA.Length < MAX_LEN && |EncodeExistence(m)| <= end <= dAtA.Length
    modifies dAtA
    ensures n <= end && Wrote(old(dAtA[..]), dAtA[..], end - n, end, EncodeExistence(m))
  {
    ghost var w0 := dAtA[..];
    FourParts(BytesField(1, m.key), BytesField(2, m.value), LeafField(m.leaf), PathItems(m.path), ExistenceSchema());
    var i := MarshalPath(m.path, dAtA, end);
    i := MarshalRest(m.key, m.value, m.leaf, dAtA, i, end, PathItems(m.path), w0);
    return end - i;
  }

  /** `ExistenceProof.Marshal`: exactly `Size()` bytes, the cursor ending at zero. */
  method MarshalExistenceProof(m: ExistenceProof) returns (dAtA: array<byte>)
    requires |EncodeExistence(m)| < MAX_LEN
    ensures fresh(dAtA) && dAtA[..] == EncodeExistence(m)
  {
    var size := ExistenceSize(m);
    dAtA := new byte[size](i => 0);
    var n := MarshalExistence(m, dAtA, size);
    assert dAtA[size - n..size] == dAtA[..];
  }

  // ---- Packed indices ------------------------------------------------------------------------------------

  /** Ten bytes for each index written so far are enough. */
  lemma {:induction false} PackedFits(vs: seq<int32>)
    ensures |PackInts(vs)| <= 10 * |vs|
  {
    if vs == [] {
    } else {
      VarintFits(U64(vs[0]));
      PackedFits(vs[1..]);
    }
  }

  /** The forward scratch buffer of ten bytes an element: it never overflows. */
  method PackScratch(path: seq<int32>) returns (scratch: array<byte>, j: nat)
    ensures fresh(scratch) && scratch.Length == 10 * |path|
    ensures j <= scratch.Length && scratch[..j] == PackInts(path)
  {
    scratch := new byte[10 * |path|](i => 0);
    j := 0;
    for k := 0 to |path|
      invariant j <= 10 * k && scratch[..j] == PackInts(path[..k])
    {
      PackSnoc(path, k);
      VarintFits(U64(path[k]));
      ghost var written := scratch[..j];
      var next := PutVarint(scratch, j, U64(path[k]));
      assert scratch[..next] == written + scratch[j..next];
      j := next;
    }
    assert path[..|path|] == path;
  }

  method MarshalPacked(path: seq<int32>, dAtA: array<byte>, end: nat) returns (i: nat)
    requires dAtA.Length < MAX_LEN && |EncodeItems(IntsField(4, path))| <= end <= dAtA.Length
    modifies dAtA
    ensures Wrote(old(dAtA[..]), dAtA[..], i, end, EncodeItems(IntsField(4, path)))
  {
    i := end;
    if |path| > 0 {
      ghost var w0 := dAtA[..];
      var scratch, size := PackScratch(path);
      PackedBytes(path);
      var j := PutBytes(dAtA, end, scratch[..size]);
      ghost var w1 := dAtA[..];
      i := PutHeader(dAtA, j, 4, size);
      WroteBefore(w0, w1, dAtA[..], i, j, end, Tag(4, WIRE_BYTES) + Varint(size), PackInts(path));
    }
  }

  lemma PackedBytes(path: seq<int32>)
    requires path != []
    ensures var body := PackInts(path);
            && EncodeItems(IntsField(4, path)) == Tag(4, WIRE_BYTES) + Varint(|body|) + body
            && |EncodeItems(IntsField(4, path))| == 1 + |Varint(|body|)| + |body|
  {
    assert IntsField(4, path)[1..] == [] && EncodeItems([]) == [];
    Assoc(Tag(4, WIRE_BYTES), Varint(|PackInts(path)|), PackInts(path));
  }

  method MarshalCompressed(m: CompressedExistenceProof, dAtA: array<byte>, end: nat) returns (n: nat)
    requires dAtA.Length < MAX_LEN && |EncodeCompressed(m)| <= end <= dAtA.Length
    modifies dAtA
    ensures n <= end && Wrote(old(dAtA[..]), dAtA[..], end - n, end, EncodeCompressed(m))
  {
    ghost var w0 := dAtA[..];
    FourParts(BytesField(1, m.key), BytesField(2, m.value), LeafField(m.leaf), IntsField(4, m.path),
              CompressedSchema());
    var i := MarshalPacked(m.path, dAtA, end);
    i := MarshalRest(m.key, m.value, m.leaf, dAtA, i, end, IntsField(4, m.path), w0);
    return end - i;
  }

  /** `CompressedExistenceProof.Marshal`. */
  method MarshalCompressedProof(m: CompressedExistenceProof) returns (dAtA: array<byte>)
    requires |EncodeCompressed(m)| < MAX_LEN
    ensures fresh(dAtA) && dAtA[..] == EncodeCompressed(m)
  {
    var size := CompressedSize(m);
    dAtA := new byte[size](i => 0);
    var n := MarshalCompressed(m, dAtA, size);
    assert dAtA[size - n..size] == dAtA[..];
  }
}
