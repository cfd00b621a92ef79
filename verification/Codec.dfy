/** The messages InnerOp, LeafOp, ExistenceProof and CompressedExistenceProof of go/proofs.pb.go: what
    marshalling writes, what unmarshalling reads, and why one undoes the other. */
module Codec {
  import opened Bytes
  import opened Varints
  import opened Ics23
  import opened Wire

  // ---- Fields ----------------------------------------------------------------------------------------

  /** A scalar field is left out when zero, a byte field when empty. */
  function IntField(num: nat, value: int32): seq<Item> {
    if value == 0 then [] else [IntItem(num, value)]
  }

  function BytesField(num: nat, payload: Bytes): seq<Item> {
    if payload == [] then [] else [BytesItem(num, payload)]
  }

  ghost function IntsField(num: nat, values: seq<int32>): seq<Item> {
    if values == [] then [] else [IntsItem(num, values)]
  }

  // ---- Messages as field lists --------------------------------------------------------------------------

  function InnerItems(m: InnerOp): seq<Item> {
    IntField(1, m.hash) + (BytesField(2, m.prefix) + BytesField(3, m.suffix))
  }

  ghost function LeafItems(m: LeafOp): seq<Item> {
    IntField(1, m.hash) + (IntField(2, m.prehashKey) + (IntField(3, m.prehashValue) +
    (IntField(4, m.length) + BytesField(5, m.prefix))))
  }

  /** A nested leaf is written whenever present, an empty encoding included. */
  ghost function LeafField(leaf: Option<LeafOp>): seq<Item> {
    if leaf == None then [] else [BytesItem(3, EncodeLeaf(leaf.value))]
  }

  ghost function PathItems(path: seq<InnerOp>): seq<Item> {
    if path == [] then [] else [BytesItem(4, EncodeInner(path[0]))] + PathItems(path[1..])
  }

  ghost function ExistenceItems(m: ExistenceProof): seq<Item> {
    BytesField(1, m.key) + (BytesField(2, m.value) + (LeafField(m.leaf) + PathItems(m.path)))
  }

  ghost function CompressedItems(m: CompressedExistenceProof): seq<Item> {
    BytesField(1, m.key) + (BytesField(2, m.value) + (LeafField(m.leaf) + IntsField(4, m.path)))
  }

  function EncodeInner(m: InnerOp): Bytes {
    EncodeItems(InnerItems(m))
  }

  ghost function EncodeLeaf(m: LeafOp): Bytes {
    EncodeItems(LeafItems(m))
  }

  ghost function EncodeExistence(m: ExistenceProof): Bytes {
    EncodeItems(ExistenceItems(m))
  }

  ghost function EncodeCompressed(m: CompressedExistenceProof): Bytes {
    EncodeItems(CompressedItems(m))
  }

  // ---- Reading -----------------------------------------------------------------------------------------

  function InnerSchema(): Schema {
    map[1 := IntKind, 2 := BytesKind, 3 := BytesKind]
  }

  function LeafSchema(): Schema {
    map[1 := IntKind, 2 := IntKind, 3 := IntKind, 4 := IntKind, 5 := BytesKind]
  }

  function ExistenceSchema(): Schema {
    map[1 := BytesKind, 2 := BytesKind, 3 := BytesKind, 4 := BytesKind]
  }

  function CompressedSchema(): Schema {
    map[1 := BytesKind, 2 := BytesKind, 3 := BytesKind, 4 := PackedKind]
  }

  const NO_INNER := InnerOp(0, [], [])
  const NO_LEAF := LeafOp(0, 0, 0, 0, [])

  /** The body of InnerOp's `switch fieldNum`. */
  function SetInner(m: InnerOp, it: Item): Option<InnerOp> {
    match it
    case IntItem(_, value) => Some(m.(hash := value))
    case BytesItem(num, payload) => Some(if num == 2 then m.(prefix := payload) else m.(suffix := payload))
    case IntsItem(_, _) => None
  }

  function SetLeaf(m: LeafOp, it: Item): Option<LeafOp> {
    match it
    case IntItem(num, value) =>
      Some(if num == 1 then m.(hash := value)
           else if num == 2 then m.(prehashKey := value)
           else if num == 3 then m.(prehashValue := value)
           else m.(length := value))
    case BytesItem(_, payload) => Some(m.(prefix := payload))
    case IntsItem(_, _) => None
  }

  function ParseInner(m: InnerOp, d: Bytes): Option<InnerOp> {
    ParseFrom(d, 0, InnerSchema(), m, SetInner)
  }

  function ParseLeaf(m: LeafOp, d: Bytes): Option<LeafOp> {
    ParseFrom(d, 0, LeafSchema(), m, SetLeaf)
  }

  /** A repeated leaf field merges into the leaf already there. */
  function MergeLeaf(leaf: Option<LeafOp>, payload: Bytes): Option<LeafOp> {
    ParseLeaf(if leaf == None then NO_LEAF else leaf.value, payload)
  }

  /** Every path field appends one op, parsed into a fresh message. */
  function SetExistence(m: ExistenceProof, it: Item): Option<ExistenceProof> {
    match it
    case BytesItem(num, payload) =>
      if num == 1 then Some(m.(key := payload))
      else if num == 2 then Some(m.(value := payload))
      else if num == 3 then
        var leaf := MergeLeaf(m.leaf, payload);
        if leaf == None then None else Some(m.(leaf := leaf))
      else
        var op := ParseInner(NO_INNER, payload);
        if op == None then None else Some(m.(path := m.path + [op.value]))
    case _ => None
  }

  function SetCompressed(m: CompressedExistenceProof, it: Item): Option<CompressedExistenceProof> {
    match it
    case BytesItem(num, payload) =>
      if num == 1 then Some(m.(key := payload))
      else if num == 2 then Some(m.(value := payload))
      else
        var leaf := MergeLeaf(m.leaf, payload);
        if leaf == None then None else Some(m.(leaf := leaf))
    case IntsItem(_, values) => Some(m.(path := m.path + values))
    case IntItem(_, _) => None
  }

  const NO_EXISTENCE := ExistenceProof([], [], None, [])
  const NO_COMPRESSED := CompressedExistenceProof([], [], None, [])

  function ParseExistence(m: ExistenceProof, d: Bytes): Option<ExistenceProof> {
    ParseFrom(d, 0, ExistenceSchema(), m, SetExistence)
  }

  function ParseCompressed(m: CompressedExistenceProof, d: Bytes): Option<CompressedExistenceProof> {
    ParseFrom(d, 0, CompressedSchema(), m, SetCompressed)
  }

  // ---- Sizes that fit a Go int --------------------------------------------------------------------------

  lemma {:induction false} PayloadIsShorter(num: nat, payload: Bytes)
    ensures |payload| < |EncodeItem(BytesItem(num, payload))|
    ensures |EncodeItems([BytesItem(num, payload)])| == |EncodeItem(BytesItem(num, payload))|
  {
    assert EncodeItems([]) == [];
    assert [BytesItem(num, payload)][1..] == [];
  }

  lemma {:induction false} BytesFieldFits(num: nat, payload: Bytes, schema: Schema)
    requires 0 < num < MAX_FIELD && num in schema && schema[num] == BytesKind
    requires |EncodeItems([BytesItem(num, payload)])| < MAX_LEN
    ensures ItemsFit([BytesItem(num, payload)], schema)
    ensures ItemsFit(BytesField(num, payload), schema)
  {
    PayloadIsShorter(num, payload);
  }

  lemma {:induction false} IntFieldFits(num: nat, value: int32, schema: Schema)
    requires 0 < num < MAX_FIELD && num in schema && schema[num] == IntKind
    ensures ItemsFit(IntField(num, value), schema)
  {
  }

  // ---- InnerOp ------------------------------------------------------------------------------------------

  lemma {:induction false} SetInt<M>(m: M, num: nat, value: int32, rest: seq<Item>, apply: (M, Item) -> Option<M>,
                                     m': M)
    requires if value == 0 then m' == m else apply(m, IntItem(num, value)) == Some(m')
    ensures Fold(m, IntField(num, value) + rest, apply) == Fold(m', rest, apply)
  {
    if value == 0 {
      assert IntField(num, value) + rest == rest;
    } else {
      FoldKnown(IntItem(num, value), rest, m, apply);
    }
  }

  lemma {:induction false} SetBytes<M>(m: M, num: nat, payload: Bytes, rest: seq<Item>, apply: (M, Item) -> Option<M>,
                                       m': M)
    requires if payload == [] then m' == m else apply(m, BytesItem(num, payload)) == Some(m')
    ensures Fold(m, BytesField(num, payload) + rest, apply) == Fold(m', rest, apply)
  {
    if payload == [] {
      assert BytesField(num, payload) + rest == rest;
    } else {
      FoldKnown(BytesItem(num, payload), rest, m, apply);
    }
  }

  /** What the fields of a marshalled op make of a message that already holds some: those left out stay. */
  ghost function OverlayInner(was: InnerOp, m: InnerOp): InnerOp {
    InnerOp(if m.hash != 0 then m.hash else was.hash, if m.prefix != [] then m.prefix else was.prefix,
            if m.suffix != [] then m.suffix else was.suffix)
  }

  lemma {:induction false} InnerFolds(was: InnerOp, m: InnerOp)
    ensures Fold(was, InnerItems(m), SetInner) == Some(OverlayInner(was, m))
  {
    var a := if m.hash != 0 then was.(hash := m.hash) else was;
    var b := if m.prefix != [] then a.(prefix := m.prefix) else a;
    var suffix := BytesField(3, m.suffix);
    SetInt(was, 1, m.hash, BytesField(2, m.prefix) + suffix, SetInner, a);
    SetBytes(a, 2, m.prefix, suffix, SetInner, b);
    assert suffix == suffix + [];
    SetBytes(b, 3, m.suffix, [], SetInner, OverlayInner(was, m));
  }

  lemma {:induction false} InnerFits(m: InnerOp)
    requires |EncodeInner(m)| < MAX_LEN
    ensures ItemsFit(InnerItems(m), InnerSchema())
  {
    var hash, prefix, suffix := IntField(1, m.hash), BytesField(2, m.prefix), BytesField(3, m.suffix);
    ItemsAppend(hash, prefix + suffix);
    ItemsAppend(prefix, suffix);
    IntFieldFits(1, m.hash, InnerSchema());
    SmallField(2, m.prefix, InnerSchema());
    SmallField(3, m.suffix, InnerSchema());
    FitAppend(prefix, suffix, InnerSchema());
    FitAppend(hash, prefix + suffix, InnerSchema());
  }

  lemma {:induction false} SmallField(num: nat, payload: Bytes, schema: Schema)
    requires 0 < num < MAX_FIELD && num in schema && schema[num] == BytesKind
    requires |EncodeItems(BytesField(num, payload))| < MAX_LEN
    ensures ItemsFit(BytesField(num, payload), schema)
  {
    if payload != [] {
      BytesFieldFits(num, payload, schema);
    }
  }

  /** Unmarshalling over a message merges: the fields written replace what was there, the others stay. */
  lemma {:induction false} InnerMerges(was: InnerOp, m: InnerOp)
    requires |EncodeInner(m)| < MAX_LEN
    ensures ParseInner(was, EncodeInner(m)) == Some(OverlayInner(was, m))
  {
    InnerFits(m);
    ItemsParse(InnerItems(m), InnerSchema(), was, SetInner);
    InnerFolds(was, m);
  }

  /** An InnerOp read back from its encoding into a fresh message is the same op. */
  lemma {:induction false} InnerRoundTrip(m: InnerOp)
    requires |EncodeInner(m)| < MAX_LEN
    ensures ParseInner(NO_INNER, EncodeInner(m)) == Some(m)
  {
    InnerMerges(NO_INNER, m);
  }

  /** Unknown fields anywhere between an InnerOp's own do not change what is read. */
  lemma {:induction false} InnerToleratesUnknown(m: InnerOp, s: seq<Chunk>)
    requires ChunksFit(s, InnerSchema()) && KnownItems(s) == InnerItems(m)
    ensures ParseInner(NO_INNER, EncodeStream(s)) == Some(m)
  {
    StreamParses(s, EncodeStream(s), 0, InnerSchema(), NO_INNER, SetInner);
    InnerFolds(NO_INNER, m);
  }

  lemma {:induction false} FoldTwo<M>(m: M, a: Item, b: Item, rest: seq<Item>, apply: (M, Item) -> Option<M>)
    requires apply(m, a).Some? && apply(apply(m, a).value, b).Some?
    ensures Fold(m, [a, b] + rest, apply) == Fold(apply(apply(m, a).value, b).value, rest, apply)
  {
    assert [a, b] + rest == [a] + ([b] + rest);
    FoldKnown(a, [b] + rest, m, apply);
    FoldKnown(b, rest, apply(m, a).value, apply);
  }

  /** Fields that are there, zero or empty ones too, each set their own field, and of two the last one counts. */
  lemma {:induction false} InnerFieldsSet(was: InnerOp, u: int32, v: int32, p: Bytes, q: Bytes, x: Bytes, y: Bytes)
    ensures Fold(was, [IntItem(1, u), IntItem(1, v)] + ([BytesItem(2, p), BytesItem(2, q)]
                    + ([BytesItem(3, x), BytesItem(3, y)] + [])), SetInner) == Some(InnerOp(v, q, y))
  {
    FoldTwo(was, IntItem(1, u), IntItem(1, v), [BytesItem(2, p), BytesItem(2, q)]
          + ([BytesItem(3, x), BytesItem(3, y)] + []), SetInner);
    var a := was.(hash := v);
    FoldTwo(a, BytesItem(2, p), BytesItem(2, q), [BytesItem(3, x), BytesItem(3, y)] + [], SetInner);
    FoldTwo(a.(prefix := q), BytesItem(3, x), BytesItem(3, y), [], SetInner);
  }

  // ---- LeafOp -------------------------------------------------------------------------------------------

  ghost function OverlayLeaf(was: LeafOp, m: LeafOp): LeafOp {
    LeafOp(if m.hash != 0 then m.hash else was.hash,
           if m.prehashKey != 0 then m.prehashKey else was.prehashKey,
           if m.prehashValue != 0 then m.prehashValue else was.prehashValue,
           if m.length != 0 then m.length else was.length,
           if m.prefix != [] then m.prefix else was.prefix)
  }

  lemma {:induction false} LeafFolds(was: LeafOp, m: LeafOp)
    ensures Fold(was, LeafItems(m), SetLeaf) == Some(OverlayLeaf(was, m))
  {
    var a := if m.hash != 0 then was.(hash := m.hash) else was;
    var b := if m.prehashKey != 0 then a.(prehashKey := m.prehashKey) else a;
    var c := if m.prehashValue != 0 then b.(prehashValue := m.prehashValue) else b;
    var e := if m.length != 0 then c.(length := m.length) else c;
    var prefix := BytesField(5, m.prefix);
    var length := IntField(4, m.length) + prefix;
    var prehashValue := IntField(3, m.prehashValue) + length;
    SetInt(was, 1, m.hash, IntField(2, m.prehashKey) + prehashValue, SetLeaf, a);
    SetInt(a, 2, m.prehashKey, prehashValue, SetLeaf, b);
    SetInt(b, 3, m.prehashValue, length, SetLeaf, c);
    SetInt(c, 4, m.length, prefix, SetLeaf, e);
    assert prefix == prefix + [];
    SetBytes(e, 5, m.prefix, [], SetLeaf, OverlayLeaf(was, m));
  }

  /** Fields that are there, zero or empty ones too, each set their own field. */
  lemma {:induction false} LeafFieldsSet(was: LeafOp, m: LeafOp)
    ensures Fold(was, [IntItem(1, m.hash), IntItem(2, m.prehashKey)]
                    + ([IntItem(3, m.prehashValue), IntItem(4, m.length)] + [BytesItem(5, m.prefix)]), SetLeaf)
         == Some(m)
  {
    var prefix := [BytesItem(5, m.prefix)];
    var a := was.(hash := m.hash, prehashKey := m.prehashKey);
    var b := a.(prehashValue := m.prehashValue, length := m.length);
    FoldTwo(was, IntItem(1, m.hash), IntItem(2, m.prehashKey),
            [IntItem(3, m.prehashValue), IntItem(4, m.length)] + prefix, SetLeaf);
    FoldTwo(a, IntItem(3, m.prehashValue), IntItem(4, m.length), prefix, SetLeaf);
    assert prefix == [BytesItem(5, m.prefix)] + [];
    FoldKnown(BytesItem(5, m.prefix), [], b, SetLeaf);
  }

  lemma {:induction false} LeafFits(m: LeafOp)
    requires |EncodeLeaf(m)| < MAX_LEN
    ensures ItemsFit(LeafItems(m), LeafSchema())
  {
    var prefix := BytesField(5, m.prefix);
    var length := IntField(4, m.length) + prefix;
    var prehashValue := IntField(3, m.prehashValue) + length;
    var prehashKey := IntField(2, m.prehashKey) + prehashValue;
    ItemsAppend(IntField(1, m.hash), prehashKey);
    ItemsAppend(IntField(2, m.prehashKey), prehashValue);
    ItemsAppend(IntField(3, m.prehashValue), length);
    ItemsAppend(IntField(4, m.length), prefix);
    SmallField(5, m.prefix, LeafSchema());
    IntFirst(4, m.length, prefix, LeafSchema());
    IntFirst(3, m.prehashValue, length, LeafSchema());
    IntFirst(2, m.prehashKey, prehashValue, LeafSchema());
    IntFirst(1, m.hash, prehashKey, LeafSchema());
  }

  lemma {:induction false} IntFirst(num: nat, value: int32, rest: seq<Item>, schema: Schema)
    requires 0 < num < MAX_FIELD && num in schema && schema[num] == IntKind && ItemsFit(rest, schema)
    ensures ItemsFit(IntField(num, value) + rest, schema)
  {
    IntFieldFits(num, value, schema);
    FitAppend(IntField(num, value), rest, schema);
  }

  /** Unmarshalling over a LeafOp merges, as for an InnerOp. */
  lemma {:induction false} LeafMerges(was: LeafOp, m: LeafOp)
    requires |EncodeLeaf(m)| < MAX_LEN
    ensures ParseLeaf(was, EncodeLeaf(m)) == Some(OverlayLeaf(was, m))
  {
    LeafFits(m);
    ItemsParse(LeafItems(m), LeafSchema(), was, SetLeaf);
    LeafFolds(was, m);
  }

  /** A LeafOp read back from its encoding into a fresh message is the same op. */
  lemma {:induction false} LeafRoundTrip(m: LeafOp)
    requires |EncodeLeaf(m)| < MAX_LEN
    ensures ParseLeaf(NO_LEAF, EncodeLeaf(m)) == Some(m)
  {
    LeafMerges(NO_LEAF, m);
  }

  // ---- ExistenceProof -------------------------------------------------------------------------------------

  lemma {:induction false} PathFits(path: seq<InnerOp>)
    requires |EncodeItems(PathItems(path))| < MAX_LEN
    ensures ItemsFit(PathItems(path), ExistenceSchema())
  {
    if path == [] {
    } else {
      PayloadIsShorter(4, EncodeInner(path[0]));
      assert PathItems(path)[1..] == PathItems(path[1..]);
      PathFits(path[1..]);
    }
  }

  /** A field appends an op. */
  ghost predicate Appends(apply: (ExistenceProof, Item) -> Option<ExistenceProof>, m: ExistenceProof, it: Item,
                          op: InnerOp) {
    apply(m, it) == Some(m.(path := m.path + [op]))
  }

  lemma {:induction false} AppendsFold(m: ExistenceProof, items: seq<Item>, path: seq<InnerOp>,
                                       apply: (ExistenceProof, Item) -> Option<ExistenceProof>)
    requires |items| == |path| && forall m', i :: 0 <= i < |path| ==> Appends(apply, m', items[i], path[i])
    ensures Fold(m, items, apply) == Some(m.(path := m.path + path))
    decreases |path|
  {
    if path == [] {
      assert m.path + path == m.path;
    } else {
      var m' := m.(path := m.path + [path[0]]);
      assert Appends(apply, m, items[0], path[0]);
      AppendsFold(m', items[1..], path[1..], apply);
      assert m'.path + path[1..] == m.path + path;
    }
  }

  lemma {:induction false} OpAppends(m: ExistenceProof, op: InnerOp, payload: Bytes)
    requires payload == EncodeInner(op) && |payload| < MAX_LEN
    ensures Appends(SetExistence, m, BytesItem(4, payload), op)
  {
    InnerRoundTrip(op);
  }

  lemma {:induction false} PathFolds(m: ExistenceProof, path: seq<InnerOp>)
    requires |EncodeItems(PathItems(path))| < MAX_LEN
    ensures Fold(m, PathItems(path), SetExistence) == Some(m.(path := m.path + path))
  {
    PathItemsCount(path);
    forall m', i | 0 <= i < |path|
      ensures Appends(SetExistence, m', PathItems(path)[i], path[i])
    {
      PathItemAt(path, i);
      OpIsShorter(path, i);
      OpAppends(m', path[i], EncodeInner(path[i]));
    }
    AppendsFold(m, PathItems(path), path, SetExistence);
  }

  lemma {:induction false} PathItemsCount(path: seq<InnerOp>)
    ensures |PathItems(path)| == |path|
  {
    if path == [] {
    } else {
      PathItemsCount(path[1..]);
    }
  }

  lemma {:induction false} PathItemAt(path: seq<InnerOp>, i: nat)
    requires i < |path| == |PathItems(path)|
    ensures PathItems(path)[i] == BytesItem(4, EncodeInner(path[i]))
  {
    if i == 0 {
    } else {
      PathItemsCount(path[1..]);
      assert PathItems(path)[i] == PathItems(path[1..])[i - 1];
      PathItemAt(path[1..], i - 1);
    }
  }

  lemma {:induction false} OpIsShorter(path: seq<InnerOp>, i: nat)
    requires i < |path|
    ensures |EncodeInner(path[i])| < |EncodeItems(PathItems(path))|
  {
    PathShrinks(path);
    if i == 0 {
    } else {
      OpIsShorter(path[1..], i - 1);
    }
  }

  lemma {:induction false} PathShrinks(path: seq<InnerOp>)
    requires path != []
    ensures |EncodeInner(path[0])| < |EncodeItems(PathItems(path))|
    ensures |EncodeItems(PathItems(path[1..]))| < |EncodeItems(PathItems(path))|
  {
    PayloadIsShorter(4, EncodeInner(path[0]));
    assert PathItems(path)[1..] == PathItems(path[1..]);
  }

  lemma {:induction false} LeafFieldFits(leaf: Option<LeafOp>, schema: Schema)
    requires 3 in schema && schema[3] == BytesKind && |EncodeItems(LeafField(leaf))| < MAX_LEN
    ensures ItemsFit(LeafField(leaf), schema)
    ensures leaf.Some? ==> MergeLeaf(None, EncodeLeaf(leaf.value)) == leaf
  {
    if leaf.Some? {
      PayloadIsShorter(3, EncodeLeaf(leaf.value));
      BytesFieldFits(3, EncodeLeaf(leaf.value), schema);
      LeafRoundTrip(leaf.value);
    }
  }

  /** The four parts of a proof's encoding, each no longer than the whole. */
  lemma {:induction false} FourParts(a: seq<Item>, b: seq<Item>, c: seq<Item>, e: seq<Item>, schema: Schema)
    ensures |EncodeItems(a)| + |EncodeItems(b)| + |EncodeItems(c)| + |EncodeItems(e)|
         == |EncodeItems(a + (b + (c + e)))|
    ensures ItemsFit(a, schema) && ItemsFit(b, schema) && ItemsFit(c, schema) && ItemsFit(e, schema) ==>
              ItemsFit(a + (b + (c + e)), schema)
  {
    ItemsAppend(a, b + (c + e));
    ItemsAppend(b, c + e);
    ItemsAppend(c, e);
    if ItemsFit(a, schema) && ItemsFit(b, schema) && ItemsFit(c, schema) && ItemsFit(e, schema) {
      FitAppend(c, e, schema);
      FitAppend(b, c + e, schema);
      FitAppend(a, b + (c + e), schema);
    }
  }

  lemma {:induction false} ExistenceFits(m: ExistenceProof)
    requires |EncodeExistence(m)| < MAX_LEN
    ensures ItemsFit(ExistenceItems(m), ExistenceSchema())
    ensures |EncodeItems(PathItems(m.path))| < MAX_LEN && |EncodeItems(LeafField(m.leaf))| < MAX_LEN
  {
    FourParts(BytesField(1, m.key), BytesField(2, m.value), LeafField(m.leaf), PathItems(m.path), ExistenceSchema());
    SmallField(1, m.key, ExistenceSchema());
    SmallField(2, m.value, ExistenceSchema());
    LeafFieldFits(m.leaf, ExistenceSchema());
    PathFits(m.path);
  }

  lemma {:induction false} SetsLeaf(m: ExistenceProof, leaf: Option<LeafOp>, rest: seq<Item>)
    requires |EncodeItems(LeafField(leaf))| < MAX_LEN && m.leaf == None
    ensures Fold(m, LeafField(leaf) + rest, SetExistence) == Fold(m.(leaf := leaf), rest, SetExistence)
  {
    LeafFieldFits(leaf, ExistenceSchema());
    if leaf.Some? {
      FoldKnown(BytesItem(3, EncodeLeaf(leaf.value)), rest, m, SetExistence);
    } else {
      assert LeafField(leaf) + rest == rest;
    }
  }

  lemma {:induction false} ExistenceFolds(m: ExistenceProof)
    requires |EncodeItems(PathItems(m.path))| < MAX_LEN && |EncodeItems(LeafField(m.leaf))| < MAX_LEN
    ensures Fold(NO_EXISTENCE, ExistenceItems(m), SetExistence) == Some(m)
  {
    var a := NO_EXISTENCE.(key := m.key);
    var b := a.(value := m.value);
    var c := b.(leaf := m.leaf);
    var leaf, path := LeafField(m.leaf), PathItems(m.path);
    SetBytes(NO_EXISTENCE, 1, m.key, BytesField(2, m.value) + (leaf + path), SetExistence, a);
    SetBytes(a, 2, m.value, leaf + path, SetExistence, b);
    SetsLeaf(b, m.leaf, path);
    PathFolds(c, m.path);
    assert [] + m.path == m.path;
  }

  /** Codec round trip: an ExistenceProof whose encoding fits a Go int, read into a fresh message, comes back
      whole: nested leaf, ops in order, empty messages and negative enum values included. */
  lemma {:induction false} ExistenceRoundTrip(m: ExistenceProof)
    requires |EncodeExistence(m)| < MAX_LEN
    ensures ParseExistence(NO_EXISTENCE, EncodeExistence(m)) == Some(m)
  {
    ExistenceFits(m);
    ItemsParse(ExistenceItems(m), ExistenceSchema(), NO_EXISTENCE, SetExistence);
    ExistenceFolds(m);
  }

  // ---- CompressedExistenceProof ------------------------------------------------------------------------------

  lemma {:induction false} IntsFieldFits(values: seq<int32>)
    requires |EncodeItems(IntsField(4, values))| < MAX_LEN
    ensures ItemsFit(IntsField(4, values), CompressedSchema())
  {
    if values != [] {
      assert [IntsItem(4, values)][1..] == [] && EncodeItems([]) == [];
    }
  }

  lemma {:induction false} CompressedFits(m: CompressedExistenceProof)
    requires |EncodeCompressed(m)| < MAX_LEN
    ensures ItemsFit(CompressedItems(m), CompressedSchema())
    ensures |EncodeItems(LeafField(m.leaf))| < MAX_LEN
  {
    FourParts(BytesField(1, m.key), BytesField(2, m.value), LeafField(m.leaf), IntsField(4, m.path),
              CompressedSchema());
    SmallField(1, m.key, CompressedSchema());
    SmallField(2, m.value, CompressedSchema());
    LeafFieldFits(m.leaf, CompressedSchema());
    IntsFieldFits(m.path);
  }

  lemma {:induction false} CompressedFolds(m: CompressedExistenceProof)
    requires |EncodeItems(LeafField(m.leaf))| < MAX_LEN
    ensures Fold(NO_COMPRESSED, CompressedItems(m), SetCompressed) == Some(m)
  {
    var a := NO_COMPRESSED.(key := m.key);
    var b := a.(value := m.value);
    var c := b.(leaf := m.leaf);
    var leaf, path := LeafField(m.leaf), IntsField(4, m.path);
    SetBytes(NO_COMPRESSED, 1, m.key, BytesField(2, m.value) + (leaf + path), SetCompressed, a);
    SetBytes(a, 2, m.value, leaf + path, SetCompressed, b);
    LeafFieldFits(m.leaf, CompressedSchema());
    if m.leaf.Some? {
      FoldKnown(BytesItem(3, EncodeLeaf(m.leaf.value)), path, b, SetCompressed);
    } else {
      assert leaf + path == path;
    }
    if m.path != [] {
      assert path == [IntsItem(4, m.path)] + [];
      FoldKnown(IntsItem(4, m.path), [], c, SetCompressed);
      assert [] + m.path == m.path;
    }
  }

  /** The same for a CompressedExistenceProof and its packed indices, negative ones included. */
  lemma {:induction false} CompressedRoundTrip(m: CompressedExistenceProof)
    requires |EncodeCompressed(m)| < MAX_LEN
    ensures ParseCompressed(NO_COMPRESSED, EncodeCompressed(m)) == Some(m)
  {
    CompressedFits(m);
    ItemsParse(CompressedItems(m), CompressedSchema(), NO_COMPRESSED, SetCompressed);
    CompressedFolds(m);
  }

  /** Keys and values replace what was there; a leaf merges into it; an op is appended. */
  lemma {:induction false} ExistenceFieldsSet(m: ExistenceProof, key: Bytes, value: Bytes, leaf: LeafOp, op: InnerOp)
    requires |EncodeLeaf(leaf)| < MAX_LEN && |EncodeInner(op)| < MAX_LEN
    ensures SetExistence(m, BytesItem(1, key)) == Some(m.(key := key))
    ensures SetExistence(m, BytesItem(2, value)) == Some(m.(value := value))
    ensures SetExistence(m, BytesItem(3, EncodeLeaf(leaf)))
         == Some(m.(leaf := Some(OverlayLeaf(if m.leaf == None then NO_LEAF else m.leaf.value, leaf))))
    ensures SetExistence(m, BytesItem(4, EncodeInner(op))) == Some(m.(path := m.path + [op]))
  {
    LeafMerges(if m.leaf == None then NO_LEAF else m.leaf.value, leaf);
    InnerRoundTrip(op);
  }

  /** The same for a CompressedExistenceProof; its indices are in `IndicesInOrder`. */
  lemma {:induction false} CompressedFieldsSet(m: CompressedExistenceProof, key: Bytes, value: Bytes, leaf: LeafOp)
    requires |EncodeLeaf(leaf)| < MAX_LEN
    ensures SetCompressed(m, BytesItem(1, key)) == Some(m.(key := key))
    ensures SetCompressed(m, BytesItem(2, value)) == Some(m.(value := value))
    ensures SetCompressed(m, BytesItem(3, EncodeLeaf(leaf)))
         == Some(m.(leaf := Some(OverlayLeaf(if m.leaf == None then NO_LEAF else m.leaf.value, leaf))))
  {
    LeafMerges(if m.leaf == None then NO_LEAF else m.leaf.value, leaf);
  }

  // ---- Indices packed and unpacked ---------------------------------------------------------------------------

  /** An index on its own behind tag 0x20 reads back as itself, whatever surrounds it. */
  lemma {:induction false} UnpackedIndex(v: int32, d: Bytes, i: nat)
    requires At(d, i, [0x20] + Varint(U64(v)))
    ensures NextField(d, i, CompressedSchema()) == Got(IntsItem(4, [v]), i + 1 + |Varint(U64(v))|)
  {
    assert Tag(4, WIRE_VARINT) == [0x20];
    UnpackedReads(4, v, d, i, CompressedSchema());
  }

  /** The indices of some fields, in order. */
  ghost function IndicesOf(items: seq<Item>): seq<int32> {
    if items == [] then []
    else (if items[0].IntsItem? then items[0].values else []) + IndicesOf(items[1..])
  }

  lemma {:induction false} FoldIndices(m: CompressedExistenceProof, items: seq<Item>)
    requires Fold(m, items, SetCompressed).Some?
    ensures Fold(m, items, SetCompressed).value.path == m.path + IndicesOf(items)
    decreases |items|
  {
    if items == [] {
      assert m.path + [] == m.path;
    } else {
      FoldFirst(m, items, SetCompressed);
      OneSetKeepsPath(m, items[0]);
      FoldIndices(SetCompressed(m, items[0]).value, items[1..]);
      JoinIndices(m.path, if items[0].IntsItem? then items[0].values else [], IndicesOf(items[1..]));
    }
  }

  lemma JoinIndices(a: seq<int32>, b: seq<int32>, c: seq<int32>)
    ensures a + b + c == a + (b + c)
  {
  }

  lemma {:induction false} OneSetKeepsPath(m: CompressedExistenceProof, it: Item)
    requires SetCompressed(m, it).Some?
    ensures SetCompressed(m, it).value.path == m.path + if it.IntsItem? then it.values else []
  {
  }

  /** Indices packed, on their own, or mixed, in one field or many, unknown fields between them: the path read is
      all of them in order. */
  lemma {:induction false} IndicesInOrder(m: CompressedExistenceProof, s: seq<Chunk>)
    requires ChunksFit(s, CompressedSchema()) && ParseCompressed(m, EncodeStream(s)).Some?
    ensures ParseCompressed(m, EncodeStream(s)).value.path == m.path + IndicesOf(KnownItems(s))
  {
    StreamParses(s, EncodeStream(s), 0, CompressedSchema(), m, SetCompressed);
    FoldIndices(m, KnownItems(s));
  }

  /** And a stream of indices alone always parses. */
  lemma {:induction false} LooseIndices(m: CompressedExistenceProof, s: seq<Chunk>)
    requires ChunksFit(s, CompressedSchema()) && forall i :: 0 <= i < |s| ==> s[i].Loose?
    ensures ParseCompressed(m, EncodeStream(s)) == Some(m.(path := m.path + IndicesOf(KnownItems(s))))
  {
    StreamParses(s, EncodeStream(s), 0, CompressedSchema(), m, SetCompressed);
    LooseFold(m, s);
  }

  lemma {:induction false} LooseFold(m: CompressedExistenceProof, s: seq<Chunk>)
    requires forall i :: 0 <= i < |s| ==> s[i].Loose?
    ensures Fold(m, KnownItems(s), SetCompressed) == Some(m.(path := m.path + IndicesOf(KnownItems(s))))
    decreases |s|
  {
    if s == [] {
      assert m.path + [] == m.path;
    } else {
      var it, rest := ChunkItem(s[0]), KnownItems(s[1..]);
      assert s[0].Loose?;
      FoldKnown(it, rest, m, SetCompressed);
      assert ([it] + rest)[1..] == rest;
      LooseFold(m.(path := m.path + it.values), s[1..]);
      assert m.path + it.values + IndicesOf(rest) == m.path + (it.values + IndicesOf(rest));
    }
  }

  // ---- Layouts -------------------------------------------------------------------------------------------

  /** A field that may be left out. */
  ghost function Optional(present: bool, tag: byte, body: Bytes): Bytes {
    if present then [tag] + body else []
  }

  /** A length-delimited body. */
  ghost function Delimited(payload: Bytes): Bytes {
    Varint(|payload|) + payload
  }

  lemma {:induction false} BytesThen(num: nat, payload: Bytes, rest: seq<Item>, bytes: Bytes)
    requires 0 < num < 16 && bytes == EncodeItems(rest)
    ensures EncodeItems(BytesField(num, payload) + rest)
         == Optional(payload != [], 8 * num + 2, Delimited(payload)) + bytes
  {
    ItemsAppend(BytesField(num, payload), rest);
    BytesFieldBytes(num, payload);
  }

  ghost function PrefixAndSuffix(m: InnerOp): Bytes {
    Optional(m.prefix != [], 0x12, Delimited(m.prefix)) + Optional(m.suffix != [], 0x1a, Delimited(m.suffix))
  }

  lemma {:induction false} PrefixAndSuffixLayout(m: InnerOp)
    ensures EncodeItems(BytesField(2, m.prefix) + BytesField(3, m.suffix)) == PrefixAndSuffix(m)
  {
    BytesFieldBytes(3, m.suffix);
    BytesThen(2, m.prefix, BytesField(3, m.suffix), EncodeItems(BytesField(3, m.suffix)));
  }

  /** InnerOp, byte for byte. */
  lemma {:induction false} InnerLayout(m: InnerOp)
    ensures EncodeInner(m) == Optional(m.hash != 0, 0x08, Varint(U64(m.hash))) + PrefixAndSuffix(m)
  {
    PrefixAndSuffixLayout(m);
    IntThen(1, m.hash, BytesField(2, m.prefix) + BytesField(3, m.suffix), PrefixAndSuffix(m));
  }

  ghost function LengthAndPrefix(m: LeafOp): Bytes {
    Optional(m.length != 0, 0x20, Varint(U64(m.length))) + Optional(m.prefix != [], 0x2a, Delimited(m.prefix))
  }

  lemma {:induction false} LengthAndPrefixLayout(m: LeafOp)
    ensures EncodeItems(IntField(4, m.length) + BytesField(5, m.prefix)) == LengthAndPrefix(m)
  {
    BytesFieldBytes(5, m.prefix);
    IntThen(4, m.length, BytesField(5, m.prefix), EncodeItems(BytesField(5, m.prefix)));
  }

  ghost function PrehashesOn(m: LeafOp): Bytes {
    Optional(m.prehashKey != 0, 0x10, Varint(U64(m.prehashKey)))
    + (Optional(m.prehashValue != 0, 0x18, Varint(U64(m.prehashValue))) + LengthAndPrefix(m))
  }

  /** LeafOp. */
  lemma {:induction false} LeafLayout(m: LeafOp)
    ensures EncodeLeaf(m) == Optional(m.hash != 0, 0x08, Varint(U64(m.hash))) + PrehashesOn(m)
  {
    var length := IntField(4, m.length) + BytesField(5, m.prefix);
    var prehashValue := IntField(3, m.prehashValue) + length;
    var prehashKey := IntField(2, m.prehashKey) + prehashValue;
    LengthAndPrefixLayout(m);
    IntThen(3, m.prehashValue, length, LengthAndPrefix(m));
    IntThen(2, m.prehashKey, prehashValue, EncodeItems(prehashValue));
    IntThen(1, m.hash, prehashKey, PrehashesOn(m));
  }

  lemma {:induction false} IntThen(num: nat, v: int32, rest: seq<Item>, bytes: Bytes)
    requires 0 < num < 16 && bytes == EncodeItems(rest)
    ensures EncodeItems(IntField(num, v) + rest) == Optional(v != 0, 8 * num, Varint(U64(v))) + bytes
  {
    ItemsAppend(IntField(num, v), rest);
    IntFieldBytes(num, v);
  }

  /** Every op of a path, tag and length before each. */
  ghost function PathBytes(path: seq<InnerOp>): Bytes {
    if path == [] then [] else [0x22] + Delimited(EncodeInner(path[0])) + PathBytes(path[1..])
  }

  lemma {:induction false} PathLayout(path: seq<InnerOp>)
    ensures EncodeItems(PathItems(path)) == PathBytes(path)
  {
    if path == [] {
    } else {
      assert PathItems(path)[1..] == PathItems(path[1..]);
      PathLayout(path[1..]);
    }
  }

  lemma {:induction false} LeafFieldLayout(leaf: Option<LeafOp>)
    ensures EncodeItems(LeafField(leaf)) == if leaf == None then [] else [0x1a] + Delimited(EncodeLeaf(leaf.value))
  {
    if leaf != None {
      assert LeafField(leaf)[1..] == [] && EncodeItems([]) == [];
    }
  }

  /** ExistenceProof. */
  lemma {:induction false} ExistenceLayout(m: ExistenceProof)
    ensures EncodeExistence(m) == Optional(m.key != [], 0x0a, Delimited(m.key))
                                + (Optional(m.value != [], 0x12, Delimited(m.value))
                                + ((if m.leaf == None then [] else [0x1a] + Delimited(EncodeLeaf(m.leaf.value)))
                                + PathBytes(m.path)))
  {
    var key, value, leaf, path := BytesField(1, m.key), BytesField(2, m.value), LeafField(m.leaf), PathItems(m.path);
    ItemsAppend(key, value + (leaf + path));
    ItemsAppend(value, leaf + path);
    ItemsAppend(leaf, path);
    BytesFieldBytes(1, m.key);
    BytesFieldBytes(2, m.value);
    LeafFieldLayout(m.leaf);
    PathLayout(m.path);
  }

  /** CompressedExistenceProof. */
  lemma {:induction false} CompressedLayout(m: CompressedExistenceProof)
    ensures EncodeCompressed(m) == Optional(m.key != [], 0x0a, Delimited(m.key))
                                 + (Optional(m.value != [], 0x12, Delimited(m.value))
                                 + ((if m.leaf == None then [] else [0x1a] + Delimited(EncodeLeaf(m.leaf.value)))
                                 + Optional(m.path != [], 0x22, Delimited(PackInts(m.path)))))
  {
    var key, value, leaf, path := BytesField(1, m.key), BytesField(2, m.value), LeafField(m.leaf), IntsField(4, m.path);
    ItemsAppend(key, value + (leaf + path));
    ItemsAppend(value, leaf + path);
    ItemsAppend(leaf, path);
    BytesFieldBytes(1, m.key);
    BytesFieldBytes(2, m.value);
    LeafFieldLayout(m.leaf);
    IntsFieldLayout(m.path);
  }

  lemma {:induction false} IntsFieldLayout(values: seq<int32>)
    ensures EncodeItems(IntsField(4, values)) == Optional(values != [], 0x22, Delimited(PackInts(values)))
  {
    if values != [] {
      assert IntsField(4, values)[1..] == [] && EncodeItems([]) == [];
    }
  }

  // ---- Injectivity -----------------------------------------------------------------------------------------

  lemma {:induction false} OptionalStarts(present: bool, tag: byte, body: Bytes, rest: Bytes)
    requires rest == [] || rest[0] != tag
    ensures var b := Optional(present, tag, body) + rest;
            && (present <==> b != [] && b[0] == tag)
            && if present then b[1..] == body + rest else b == rest
  {
  }

  /** Whether an optional field stands before what cannot begin with its tag. */
  lemma {:induction false} PresenceShows(tag: byte, p: bool, x: Bytes, r: Bytes, q: bool, y: Bytes, s: Bytes)
    requires Optional(p, tag, x) + r == Optional(q, tag, y) + s
    requires (r == [] || r[0] != tag) && (s == [] || s[0] != tag)
    ensures p == q && if p then x + r == y + s else r == s
  {
    OptionalStarts(p, tag, x, r);
    OptionalStarts(q, tag, y, s);
  }

  lemma {:induction false} IntFieldBytes(num: nat, value: int32)
    requires 0 < num < 16
    ensures EncodeItems(IntField(num, value)) == Optional(value != 0, 8 * num, Varint(U64(value)))
  {
    if value != 0 {
      assert IntField(num, value)[1..] == [] && EncodeItems([]) == [];
    }
  }

  lemma {:induction false} BytesFieldBytes(num: nat, payload: Bytes)
    requires 0 < num < 16
    ensures EncodeItems(BytesField(num, payload))
         == Optional(payload != [], 8 * num + 2, Varint(|payload|) + payload)
  {
    if payload != [] {
      assert BytesField(num, payload)[1..] == [] && EncodeItems([]) == [];
    }
  }

  lemma {:induction false} IntFieldReadable(num: nat, v: int32, r: Bytes, w: int32, s: Bytes)
    requires 0 < num < 16
    requires EncodeItems(IntField(num, v)) + r == EncodeItems(IntField(num, w)) + s
    requires (r == [] || r[0] != 8 * num) && (s == [] || s[0] != 8 * num)
    ensures v == w && r == s
  {
    IntFieldBytes(num, v);
    IntFieldBytes(num, w);
    PresenceShows(8 * num, v != 0, Varint(U64(v)), r, w != 0, Varint(U64(w)), s);
    if v != 0 {
      VarintPrefixFree(U64(v), r, U64(w), s);
      I32OfU64(v);
      I32OfU64(w);
    }
  }

  lemma {:induction false} BytesFieldReadable(num: nat, v: Bytes, r: Bytes, w: Bytes, s: Bytes)
    requires 0 < num < 16
    requires EncodeItems(BytesField(num, v)) + r == EncodeItems(BytesField(num, w)) + s
    requires (r == [] || r[0] != 8 * num + 2) && (s == [] || s[0] != 8 * num + 2)
    ensures v == w && r == s
  {
    BytesFieldBytes(num, v);
    BytesFieldBytes(num, w);
    PresenceShows(8 * num + 2, v != [], Varint(|v|) + v, r, w != [], Varint(|w|) + w, s);
    if v != [] {
      Assoc(Varint(|v|), v, r);
      Assoc(Varint(|w|), w, s);
      VarintPrefixFree(|v|, v + r, |w|, w + s);
      SplitEqual(v, r, w, s);
    }
  }

  /** Distinct ops have distinct encodings, at any length: what the interning table of `compress` rests on. */
  lemma {:induction false} InnerEncodingInjective(a: InnerOp, b: InnerOp)
    requires EncodeInner(a) == EncodeInner(b)
    ensures a == b
  {
    var x := InnerTail(a);
    var y := InnerTail(b);
    IntFieldReadable(1, a.hash, x, b.hash, y);
    var u, v := EncodeItems(BytesField(3, a.suffix)), EncodeItems(BytesField(3, b.suffix));
    BytesFieldReadable(2, a.prefix, u, b.prefix, v);
    assert u + [] == u && v + [] == v;
    BytesFieldReadable(3, a.suffix, [], b.suffix, []);
  }

  /** What follows an op's hash field begins with another field's tag. */
  lemma {:induction false} InnerTail(m: InnerOp) returns (tail: Bytes)
    ensures EncodeInner(m) == EncodeItems(IntField(1, m.hash)) + tail
    ensures tail == EncodeItems(BytesField(2, m.prefix)) + EncodeItems(BytesField(3, m.suffix))
    ensures tail == [] || tail[0] == 18 || tail[0] == 26
    ensures var u := EncodeItems(BytesField(3, m.suffix)); u == [] || u[0] == 26
  {
    var prefix, suffix := BytesField(2, m.prefix), BytesField(3, m.suffix);
    ItemsAppend(IntField(1, m.hash), prefix + suffix);
    ItemsAppend(prefix, suffix);
    BytesFieldBytes(2, m.prefix);
    BytesFieldBytes(3, m.suffix);
    tail := EncodeItems(prefix + suffix);
  }
}
