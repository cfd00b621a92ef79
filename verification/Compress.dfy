/** rust/src/compress.rs: every distinct inner op of a batch goes into one table, and paths become lists of
    indices into it. */
module Compress {
  import opened Bytes
  import opened Ics23
  import opened Wire
  import opened Codec

  // ---- The table a list of ops builds -------------------------------------------------------------------

  function Added(table: seq<InnerOp>, op: InnerOp): seq<InnerOp> {
    if op in table then table else table + [op]
  }

  /** The table after all of `ops`, in order of first appearance. */
  function Table(table: seq<InnerOp>, ops: seq<InnerOp>): seq<InnerOp>
    decreases |ops|
  {
    if ops == [] then table else Table(Added(table, ops[0]), ops[1..])
  }

  predicate NoDuplicates(table: seq<InnerOp>) {
    forall i, j :: 0 <= i < j < |table| ==> table[i] != table[j]
  }

  function Position(table: seq<InnerOp>, op: InnerOp): (i: nat)
    requires op in table
    ensures i < |table| && table[i] == op
  {
    if table[0] == op then 0 else 1 + Position(table[1..], op)
  }

  lemma PositionIs(table: seq<InnerOp>, i: nat)
    requires NoDuplicates(table) && i < |table|
    ensures Position(table, table[i]) == i
  {
    var j := Position(table, table[i]);
  }

  predicate Within(ops: seq<InnerOp>, table: seq<InnerOp>) {
    forall op :: op in ops ==> op in table
  }

  /** The index written for `op`: its position `as i32`. */
  function Index(table: seq<InnerOp>, op: InnerOp): int32
    requires op in table
  {
    I32(Position(table, op))
  }

  function Indices(table: seq<InnerOp>, path: seq<InnerOp>): (r: seq<int32>)
    requires Within(path, table)
    ensures |r| == |path| && forall i :: 0 <= i < |path| ==> r[i] == Index(table, path[i])
  {
    if path == [] then [] else Indices(table, Init(path)) + [Index(table, Last(path))]
  }

  /** The table only grows, keeps what it has in place, has no duplicates, and holds exactly the old ops and
      the new. */
  lemma {:induction false} TableGrows(table: seq<InnerOp>, ops: seq<InnerOp>)
    requires NoDuplicates(table)
    ensures table <= Table(table, ops) && NoDuplicates(Table(table, ops))
    ensures forall op :: op in Table(table, ops) <==> op in table || op in ops
    decreases |ops|
  {
    if ops == [] {
    } else {
      TableGrows(Added(table, ops[0]), ops[1..]);
      forall op
        ensures op in ops <==> op == ops[0] || op in ops[1..]
      {
        assert ops == [ops[0]] + ops[1..];
      }
    }
  }

  lemma {:induction false} TableAppend(table: seq<InnerOp>, a: seq<InnerOp>, b: seq<InnerOp>)
    ensures Table(table, a + b) == Table(Table(table, a), b)
    decreases |a|
  {
    if a == [] {
      assert a + b == b;
    } else {
      assert (a + b)[0] == a[0] && (a + b)[1..] == a[1..] + b;
      TableAppend(Added(table, a[0]), a[1..], b);
    }
  }

  /** Growing the table moves no op. */
  lemma {:induction false} PositionStable(small: seq<InnerOp>, large: seq<InnerOp>, op: InnerOp)
    requires small <= large && NoDuplicates(large) && op in small
    ensures op in large && Position(large, op) == Position(small, op)
  {
    PositionIs(large, Position(small, op));
  }

  lemma {:induction false} IndicesStable(small: seq<InnerOp>, large: seq<InnerOp>, path: seq<InnerOp>)
    requires small <= large && NoDuplicates(large) && Within(path, small)
    ensures Within(path, large) && Indices(large, path) == Indices(small, path)
  {
    forall op | op in path
      ensures op in large
    {
      PositionStable(small, large, op);
    }
    forall i | 0 <= i < |path|
      ensures Index(large, path[i]) == Index(small, path[i])
    {
      PositionStable(small, large, path[i]);
    }
  }

  // ---- Compression as a function ---------------------------------------------------------------------------

  function PathOf(p: Option<ExistenceProof>): seq<InnerOp> {
    if p == None then [] else p.value.path
  }

  /** The ops of an entry in the order they are interned. */
  function EntryOps(e: BatchEntry): seq<InnerOp> {
    match e
    case ExistEntry(exist) => exist.path
    case NonexistEntry(nonexist) => PathOf(nonexist.left) + PathOf(nonexist.right)
    case NoEntry => []
  }

  function BatchOps(es: seq<BatchEntry>): seq<InnerOp> {
    if es == [] then [] else BatchOps(Init(es)) + EntryOps(Last(es))
  }

  function CompressedExistOf(table: seq<InnerOp>, p: ExistenceProof): CompressedExistenceProof
    requires Within(p.path, table)
  {
    CompressedExistenceProof(p.key, p.value, p.leaf, Indices(table, p.path))
  }

  function CompressedSide(table: seq<InnerOp>, p: Option<ExistenceProof>): Option<CompressedExistenceProof>
    requires Within(PathOf(p), table)
  {
    if p == None then None else Some(CompressedExistOf(table, p.value))
  }

  lemma {:induction false} WithinParts(a: seq<InnerOp>, b: seq<InnerOp>, table: seq<InnerOp>)
    ensures Within(a + b, table) <==> Within(a, table) && Within(b, table)
  {
    forall op
      ensures op in a + b <==> op in a || op in b
    {
    }
  }

  function CompressedEntry(table: seq<InnerOp>, e: BatchEntry): CompressedBatchEntry
    requires Within(EntryOps(e), table)
  {
    match e
    case ExistEntry(exist) => CompressedExist(CompressedExistOf(table, exist))
    case NonexistEntry(n) =>
      WithinParts(PathOf(n.left), PathOf(n.right), table);
      CompressedNonexist(CompressedNonExistenceProof(n.key, CompressedSide(table, n.left),
                                                     CompressedSide(table, n.right)))
    case NoEntry => CompressedNoEntry
  }

  predicate AllWithin(es: seq<BatchEntry>, table: seq<InnerOp>) {
    forall i :: 0 <= i < |es| ==> Within(EntryOps(es[i]), table)
  }

  function CompressedEntries(table: seq<InnerOp>, es: seq<BatchEntry>): seq<CompressedBatchEntry>
    requires AllWithin(es, table)
  {
    seq(|es|, i requires 0 <= i < |es| => CompressedEntry(table, es[i]))
  }

  lemma {:induction false} EveryEntryWithin(es: seq<BatchEntry>, table: seq<InnerOp>)
    requires Within(BatchOps(es), table)
    ensures AllWithin(es, table)
  {
    if es == [] {
    } else {
      WithinParts(BatchOps(Init(es)), EntryOps(Last(es)), table);
      EveryEntryWithin(Init(es), table);
      assert forall i :: 0 <= i < |es| - 1 ==> es[i] == Init(es)[i];
    }
  }

  function BatchTable(es: seq<BatchEntry>): (table: seq<InnerOp>)
    ensures NoDuplicates(table) && AllWithin(es, table)
  {
    TableGrows([], BatchOps(es));
    EveryEntryWithin(es, Table([], BatchOps(es)));
    Table([], BatchOps(es))
  }

  /** `compress`: batches only. */
  function CompressProof(p: CommitmentProof): CommitmentProof {
    match p
    case Batch(es) => Compressed(CompressedEntries(BatchTable(es), es), BatchTable(es))
    case _ => p
  }

  // ---- Decompression ---------------------------------------------------------------------------------------

  /** `lookup.get(x as usize)` for every index. */
  predicate AllFound(lookup: seq<InnerOp>, path: seq<int32>) {
    forall i :: 0 <= i < |path| ==> Usize(path[i]) < |lookup|
  }

  function LookUp(lookup: seq<InnerOp>, path: seq<int32>): (r: seq<InnerOp>)
    requires AllFound(lookup, path)
    ensures |r| == |path| && forall i :: 0 <= i < |path| ==> r[i] == lookup[Usize(path[i])]
  {
    if path == [] then [] else LookUp(lookup, Init(path)) + [lookup[Usize(Last(path))]]
  }

  /** `decompress_exist`: one missing index empties the whole path. */
  function DecompressExist(p: CompressedExistenceProof, lookup: seq<InnerOp>): ExistenceProof {
    ExistenceProof(p.key, p.value, p.leaf, if AllFound(lookup, p.path) then LookUp(lookup, p.path) else [])
  }

  function DecompressSide(p: Option<CompressedExistenceProof>, lookup: seq<InnerOp>): Option<ExistenceProof> {
    if p == None then None else Some(DecompressExist(p.value, lookup))
  }

  function DecompressEntry(e: CompressedBatchEntry, lookup: seq<InnerOp>): BatchEntry {
    match e
    case CompressedExist(exist) => ExistEntry(DecompressExist(exist, lookup))
    case CompressedNonexist(n) =>
      NonexistEntry(NonExistenceProof(n.key, DecompressSide(n.left, lookup), DecompressSide(n.right, lookup)))
    case CompressedNoEntry => NoEntry
  }

  function DecompressEntries(es: seq<CompressedBatchEntry>, lookup: seq<InnerOp>): seq<BatchEntry> {
    seq(|es|, i requires 0 <= i < |es| => DecompressEntry(es[i], lookup))
  }

  /** `decompress`. */
  function Decompress(p: CommitmentProof): CommitmentProof {
    match p
    case Compressed(centries, lookup) => Batch(DecompressEntries(centries, lookup))
    case _ => p
  }

  /** Only batches are compressed, and only compressed batches decompressed. */
  lemma OthersUntouched(p: CommitmentProof)
    ensures !p.Batch? ==> CompressProof(p) == p
    ensures !p.Compressed? ==> Decompress(p) == p
    ensures p.Batch? ==> CompressProof(p).Compressed? && |CompressProof(p).centries| == |p.entries|
    ensures p.Compressed? ==> Decompress(p).Batch? && |Decompress(p).entries| == |p.centries|
  {
  }

  // ---- The order of the table -----------------------------------------------------------------------------

  /** What one more entry does to the table: an existence entry adds its path, a non-existence entry the path of
      its left boundary and then that of its right one, an empty entry nothing. */
  lemma {:induction false} TableOfOneMore(es: seq<BatchEntry>, e: BatchEntry)
    ensures BatchTable(es + [e]) ==
            match e
            case ExistEntry(exist) => Table(BatchTable(es), exist.path)
            case NonexistEntry(n) =>
              var left := if n.left.Some? then Table(BatchTable(es), n.left.value.path) else BatchTable(es);
              if n.right.Some? then Table(left, n.right.value.path) else left
            case NoEntry => BatchTable(es)
  {
    assert Init(es + [e]) == es && Last(es + [e]) == e;
    TableAppend([], BatchOps(es), EntryOps(e));
    match e {
      case ExistEntry(_) =>
      case NonexistEntry(n) => TableAppend(BatchTable(es), PathOf(n.left), PathOf(n.right));
      case NoEntry =>
    }
  }

  /** So the ops of a left boundary come before those of the right one. */
  lemma {:induction false} LeftComesFirst(es: seq<BatchEntry>, key: Bytes, l: ExistenceProof, r: Option<ExistenceProof>)
    ensures BatchTable(es + [ExistEntry(l)]) <= BatchTable(es + [NonexistEntry(NonExistenceProof(key, Some(l), r))])
  {
    TableOfOneMore(es, ExistEntry(l));
    TableOfOneMore(es, NonexistEntry(NonExistenceProof(key, Some(l), r)));
    TableGrows(BatchTable(es), l.path);
    if r.Some? {
      TableGrows(Table(BatchTable(es), l.path), r.value.path);
    }
  }

  /** Ops stand in the table in the order of their first appearance. */
  lemma {:induction false} FirstAppearance(ops: seq<InnerOp>, i: nat, j: nat)
    requires i < j < |ops| && ops[j] !in ops[..j]
    ensures ops[i] in Table([], ops) && ops[j] in Table([], ops)
    ensures Position(Table([], ops), ops[i]) < Position(Table([], ops), ops[j])
  {
    var early, table := Table([], ops[..j]), Table([], ops);
    assert ops == ops[..j] + ops[j..];
    TableGrows([], ops[..j]);
    TableAppend([], ops[..j], ops[j..]);
    TableGrows(early, ops[j..]);
    TableGrows([], ops);
    assert ops[..j][i] == ops[i];
    PositionStable(early, table, ops[i]);
    assert forall k :: 0 <= k < |early| ==> early[k] == table[k];
  }

  // ---- Interning as written ---------------------------------------------------------------------------------

  /** The registry maps the encoding of every op in the table, and nothing else, to that op's index. */
  ghost predicate Registered(lookup: seq<InnerOp>, registry: map<Bytes, int32>, enc: InnerOp -> Bytes) {
    && NoDuplicates(lookup)
    && (forall i :: 0 <= i < |lookup| ==> enc(lookup[i]) in registry && registry[enc(lookup[i])] == I32(i))
    && (forall buf :: buf in registry ==> exists i :: 0 <= i < |lookup| && enc(lookup[i]) == buf)
  }

  ghost predicate Injective(enc: InnerOp -> Bytes) {
    forall a, b :: enc(a) == enc(b) ==> a == b
  }

  lemma {:induction false} EncodeInnerInjective()
    ensures Injective(EncodeInner)
  {
    forall a, b | EncodeInner(a) == EncodeInner(b)
      ensures a == b
    {
      InnerEncodingInjective(a, b);
    }
  }

  lemma {:induction false} RegistryHit(lookup: seq<InnerOp>, registry: map<Bytes, int32>, enc: InnerOp -> Bytes,
                                       op: InnerOp)
    requires Registered(lookup, registry, enc) && Injective(enc) && enc(op) in registry
    ensures op in lookup && registry[enc(op)] == Index(lookup, op)
  {
    var i :| 0 <= i < |lookup| && enc(lookup[i]) == enc(op);
    PositionIs(lookup, i);
  }

  lemma {:induction false} RegistryMiss(lookup: seq<InnerOp>, registry: map<Bytes, int32>, enc: InnerOp -> Bytes,
                                        op: InnerOp)
    requires Registered(lookup, registry, enc) && enc(op) !in registry
    ensures op !in lookup && Registered(lookup + [op], registry[enc(op) := I32(|lookup|)], enc)
    ensures Index(lookup + [op], op) == I32(|lookup|)
  {
    var larger, registry' := lookup + [op], registry[enc(op) := I32(|lookup|)];
    RegistryOnlyTable(lookup, registry, enc, op, larger, registry');
    RegistryHasTable(lookup, registry, enc, op, larger, registry');
    PositionIs(larger, |lookup|);
  }

  lemma {:induction false} RegistryHasTable(lookup: seq<InnerOp>, registry: map<Bytes, int32>, enc: InnerOp -> Bytes,
                                            op: InnerOp, larger: seq<InnerOp>, registry': map<Bytes, int32>)
    requires NoDuplicates(lookup) && enc(op) !in registry
    requires forall i :: 0 <= i < |lookup| ==> enc(lookup[i]) in registry && registry[enc(lookup[i])] == I32(i)
    requires larger == lookup + [op] && registry' == registry[enc(op) := I32(|lookup|)]
    ensures op !in lookup && NoDuplicates(larger)
    ensures forall i :: 0 <= i < |larger| ==> enc(larger[i]) in registry' && registry'[enc(larger[i])] == I32(i)
  {
    forall i | 0 <= i < |lookup|
      ensures lookup[i] != op
    {
      assert enc(lookup[i]) in registry;
    }
    forall i | 0 <= i < |larger|
      ensures enc(larger[i]) in registry' && registry'[enc(larger[i])] == I32(i)
    {
      if i < |lookup| {
        assert larger[i] == lookup[i];
      }
    }
  }

  lemma {:induction false} RegistryOnlyTable(lookup: seq<InnerOp>, registry: map<Bytes, int32>, enc: InnerOp -> Bytes,
                                             op: InnerOp, larger: seq<InnerOp>, registry': map<Bytes, int32>)
    requires forall buf :: buf in registry ==> exists i :: 0 <= i < |lookup| && enc(lookup[i]) == buf
    requires larger == lookup + [op] && registry'.Keys == registry.Keys + {enc(op)}
    ensures forall buf :: buf in registry' ==> exists i :: 0 <= i < |larger| && enc(larger[i]) == buf
  {
    forall buf | buf in registry'
      ensures exists i :: 0 <= i < |larger| && enc(larger[i]) == buf
    {
      if buf == enc(op) {
        assert enc(larger[|lookup|]) == buf;
      } else {
        var i :| 0 <= i < |lookup| && enc(lookup[i]) == buf;
        assert enc(larger[i]) == buf;
      }
    }
  }

  /** The `lookup` and `registry` that `compress_batch` shares among its entries. */
  class Interner {
    var lookup: seq<InnerOp>
    var registry: map<Bytes, int32>

    ghost predicate Valid()
      reads this
    {
      Registered(lookup, registry, EncodeInner)
    }

    constructor ()
      ensures Valid() && lookup == []
    {
      lookup, registry := [], map[];
    }

    /** `registry.entry(buf).or_insert_with(..)`. */
    method Intern(op: InnerOp) returns (idx: int32)
      requires Valid()
      modifies this
      ensures Valid() && lookup == Added(old(lookup), op) && op in lookup && idx == Index(lookup, op)
    {
      var buf := EncodeInner(op);
      EncodeInnerInjective();
      if buf in registry {
        RegistryHit(lookup, registry, EncodeInner, op);
        return registry[buf];
      }
      RegistryMiss(lookup, registry, EncodeInner, op);
      idx := I32(|lookup|);
      lookup := lookup + [op];
      registry := registry[buf := idx];
    }

    /** `compress_exist`. */
    method CompressExist(exist: ExistenceProof) returns (r: CompressedExistenceProof)
      requires Valid()
      modifies this
      ensures Valid() && lookup == Table(old(lookup), exist.path)
      ensures Within(exist.path, lookup) && r == CompressedExistOf(lookup, exist)
    {
      var path: seq<int32> := [];
      for i := 0 to |exist.path|
        invariant Valid() && lookup == Table(old(lookup), exist.path[..i])
        invariant Within(exist.path[..i], lookup) && path == Indices(lookup, exist.path[..i])
      {
        ghost var before := lookup;
        var idx := Intern(exist.path[i]);
        InternOneMore(old(lookup), exist.path, i, before);
        path := path + [idx];
      }
      assert exist.path[..|exist.path|] == exist.path;
      return CompressedExistenceProof(exist.key, exist.value, exist.leaf, path);
    }

    method CompressSide(side: Option<ExistenceProof>) returns (r: Option<CompressedExistenceProof>)
      requires Valid()
      modifies this
      ensures Valid() && lookup == Table(old(lookup), PathOf(side))
      ensures Within(PathOf(side), lookup) && r == CompressedSide(lookup, side)
    {
      if side == None {
        return None;
      }
      var exist := CompressExist(side.value);
      return Some(exist);
    }

    /** The closure `compress_batch` maps over the entries: left before right. */
    method CompressEntry(e: BatchEntry) returns (r: CompressedBatchEntry)
      requires Valid()
      modifies this
      ensures Valid() && lookup == Table(old(lookup), EntryOps(e))
      ensures Within(EntryOps(e), lookup) && r == CompressedEntry(lookup, e)
    {
      match e {
        case ExistEntry(exist) =>
          var c := CompressExist(exist);
          return CompressedExist(c);
        case NonexistEntry(n) =>
          var left := CompressSide(n.left);
          ghost var before := lookup;
          var right := CompressSide(n.right);
          TableAppend(old(lookup), PathOf(n.left), PathOf(n.right));
          TableGrows(before, PathOf(n.right));
          IndicesStable(before, lookup, PathOf(n.left));
          WithinParts(PathOf(n.left), PathOf(n.right), lookup);
          return CompressedNonexist(CompressedNonExistenceProof(n.key, left, right));
        case NoEntry =>
          return CompressedNoEntry;
      }
    }

    /** One turn of the loop over the entries. */
    method CompressNext(ghost done: seq<BatchEntry>, centries: seq<CompressedBatchEntry>, e: BatchEntry)
      returns (r: seq<CompressedBatchEntry>)
      requires Valid() && Progress(done, lookup, centries)
      modifies this
      ensures Valid() && Progress(done + [e], lookup, r)
    {
      ghost var before := lookup;
      var c := CompressEntry(e);
      OneMoreEntry(done, e, before, centries, lookup, c);
      return centries + [c];
    }
  }

  /** One turn of the loop over a path. */
  lemma {:induction false} InternOneMore(table: seq<InnerOp>, path: seq<InnerOp>, i: nat, before: seq<InnerOp>)
    requires i < |path| && NoDuplicates(before) && before == Table(table, path[..i]) && Within(path[..i], before)
    ensures var after := Added(before, path[i]);
            && Table(table, path[..i + 1]) == after && Within(path[..i + 1], after)
            && Indices(after, path[..i + 1]) == Indices(before, path[..i]) + [Index(after, path[i])]
  {
    var one, after := [path[i]], Added(before, path[i]);
    assert path[..i + 1] == path[..i] + one;
    TableAppend(table, path[..i], one);
    assert one[1..] == [] && Table(after, []) == after;
    assert Table(before, one) == Table(after, one[1..]);
    IndicesStable(before, after, path[..i]);
    assert Init(path[..i + 1]) == path[..i] && Last(path[..i + 1]) == path[i];
  }

  /** Growing the table does not change entries already compressed. */
  lemma {:induction false} EntryStable(small: seq<InnerOp>, large: seq<InnerOp>, e: BatchEntry)
    requires small <= large && NoDuplicates(large) && Within(EntryOps(e), small)
    ensures Within(EntryOps(e), large) && CompressedEntry(large, e) == CompressedEntry(small, e)
  {
    match e {
      case ExistEntry(exist) => IndicesStable(small, large, exist.path);
      case NonexistEntry(n) =>
        WithinParts(PathOf(n.left), PathOf(n.right), small);
        WithinParts(PathOf(n.left), PathOf(n.right), large);
        IndicesStable(small, large, PathOf(n.left));
        IndicesStable(small, large, PathOf(n.right));
      case NoEntry =>
    }
  }

  /** What a grown table and one more entry make of the entries so far. */
  lemma {:induction false} EntriesGrow(es: seq<BatchEntry>, e: BatchEntry, before: seq<InnerOp>, after: seq<InnerOp>)
    requires before <= after && NoDuplicates(after) && AllWithin(es, before) && Within(EntryOps(e), after)
    ensures AllWithin(es + [e], after)
    ensures CompressedEntries(after, es + [e]) == CompressedEntries(before, es) + [CompressedEntry(after, e)]
  {
    forall j | 0 <= j < |es|
      ensures Within(EntryOps(es[j]), after) && CompressedEntry(after, es[j]) == CompressedEntry(before, es[j])
    {
      EntryStable(before, after, es[j]);
    }
  }

  lemma {:induction false} TableOneMore(es: seq<BatchEntry>, e: BatchEntry, before: seq<InnerOp>, after: seq<InnerOp>)
    requires before == BatchTable(es) && after == Table(before, EntryOps(e))
    ensures before <= after && after == BatchTable(es + [e])
  {
    assert Init(es + [e]) == es;
    TableAppend([], BatchOps(es), EntryOps(e));
    TableGrows(before, EntryOps(e));
  }

  /** The table and the compressed entries after the entries `es`. */
  ghost predicate Progress(es: seq<BatchEntry>, table: seq<InnerOp>, centries: seq<CompressedBatchEntry>) {
    table == BatchTable(es) && centries == CompressedEntries(table, es)
  }

  lemma {:induction false} OneMoreEntry(es: seq<BatchEntry>, e: BatchEntry, before: seq<InnerOp>,
                                        centries: seq<CompressedBatchEntry>, after: seq<InnerOp>,
                                        c: CompressedBatchEntry)
    requires Progress(es, before, centries) && after == Table(before, EntryOps(e))
    requires Within(EntryOps(e), after) && c == CompressedEntry(after, e)
    ensures Progress(es + [e], after, centries + [c])
  {
    TableOneMore(es, e, before, after);
    EntriesGrow(es, e, before, after);
  }

  lemma ProgressStarts()
    ensures Progress([], [], [])
  {
  }

  lemma ProgressEnds(es: seq<BatchEntry>, table: seq<InnerOp>, centries: seq<CompressedBatchEntry>)
    requires Progress(es, table, centries)
    ensures CompressProof(Batch(es)) == Compressed(centries, table)
  {
  }

  /** `compress_batch`. */
  method CompressBatch(es: seq<BatchEntry>) returns (r: CommitmentProof)
    ensures r == CompressProof(Batch(es))
  {
    var interner := new Interner();
    var centries := [];
    ProgressStarts();
    ghost var done: seq<BatchEntry> := [];
    for i := 0 to |es|
      invariant interner.Valid() && fresh(interner)
      invariant done == es[..i] && Progress(done, interner.lookup, centries)
    {
      centries := interner.CompressNext(done, centries, es[i]);
      done := done + [es[i]];
    }
    assert done == es;
    ProgressEnds(es, interner.lookup, centries);
    return Compressed(centries, interner.lookup);
  }

  // ---- Round trip -----------------------------------------------------------------------------------------

  const MAX_TABLE := 0x8000_0000

  /** The number of different ops in a batch. */
  ghost function Distinct(es: seq<BatchEntry>): set<InnerOp> {
    set op | op in BatchOps(es)
  }

  lemma {:induction false} SizeOfNoDuplicates(table: seq<InnerOp>)
    requires NoDuplicates(table)
    ensures |set op | op in table| == |table|
  {
    if table == [] {
    } else {
      SizeOfNoDuplicates(Init(table));
      assert (set op | op in table) == (set op | op in Init(table)) + {Last(table)};
    }
  }

  /** The table holds each different op once. */
  lemma {:induction false} TableSize(es: seq<BatchEntry>)
    ensures |BatchTable(es)| == |Distinct(es)|
  {
    TableGrows([], BatchOps(es));
    SizeOfNoDuplicates(BatchTable(es));
    assert (set op | op in BatchTable(es)) == Distinct(es);
  }

  /** A path comes back when the table's positions fit 32 bits, and every index written is in range. */
  lemma {:induction false} PathRoundTrip(table: seq<InnerOp>, p: ExistenceProof)
    requires |table| <= MAX_TABLE && Within(p.path, table)
    ensures forall i :: 0 <= i < |p.path| ==> 0 <= Indices(table, p.path)[i] < |table|
    ensures DecompressExist(CompressedExistOf(table, p), table) == p
  {
    var indices := Indices(table, p.path);
    forall i | 0 <= i < |p.path|
      ensures Usize(indices[i]) == indices[i] == Position(table, p.path[i])
    {
      assert p.path[i] in table;
    }
    assert LookUp(table, indices) == p.path;
  }

  lemma {:induction false} EntryRoundTrip(table: seq<InnerOp>, e: BatchEntry)
    requires |table| <= MAX_TABLE && Within(EntryOps(e), table)
    ensures DecompressEntry(CompressedEntry(table, e), table) == e
  {
    match e {
      case ExistEntry(exist) => PathRoundTrip(table, exist);
      case NonexistEntry(n) =>
        WithinParts(PathOf(n.left), PathOf(n.right), table);
        if n.left.Some? {
          PathRoundTrip(table, n.left.value);
        }
        if n.right.Some? {
          PathRoundTrip(table, n.right.value);
        }
      case NoEntry =>
    }
  }

  lemma {:induction false} EntriesRoundTrip(table: seq<InnerOp>, es: seq<BatchEntry>)
    requires |table| <= MAX_TABLE && AllWithin(es, table)
    ensures DecompressEntries(CompressedEntries(table, es), table) == es
  {
    forall i | 0 <= i < |es|
      ensures DecompressEntry(CompressedEntry(table, es[i]), table) == es[i]
    {
      EntryRoundTrip(table, es[i]);
    }
  }

  /** A path through an op whose position does not fit 32 bits comes back empty. */
  lemma {:induction false} FarOpLosesPath(table: seq<InnerOp>, p: ExistenceProof)
    requires NoDuplicates(table) && MAX_TABLE < |table| < MAX_LEN && Within(p.path, table)
    requires table[MAX_TABLE] in p.path
    ensures DecompressExist(CompressedExistOf(table, p), table) == p.(path := []) != p
  {
    var i :| 0 <= i < |p.path| && p.path[i] == table[MAX_TABLE];
    PositionIs(table, MAX_TABLE);
    assert Indices(table, p.path)[i] == -0x8000_0000;
    assert Usize(-0x8000_0000) == TWO64 - 0x8000_0000;
    assert !AllFound(table, Indices(table, p.path));
  }

  lemma {:induction false} FarOpLosesEntry(table: seq<InnerOp>, e: BatchEntry)
    requires NoDuplicates(table) && MAX_TABLE < |table| < MAX_LEN && Within(EntryOps(e), table)
    requires table[MAX_TABLE] in EntryOps(e)
    ensures DecompressEntry(CompressedEntry(table, e), table) != e
  {
    match e {
      case ExistEntry(exist) => FarOpLosesPath(table, exist);
      case NonexistEntry(n) =>
        WithinParts(PathOf(n.left), PathOf(n.right), table);
        if table[MAX_TABLE] in PathOf(n.left) {
          FarOpLosesPath(table, n.left.value);
        } else {
          FarOpLosesPath(table, n.right.value);
        }
    }
  }

  lemma {:induction false} EntryWithOp(es: seq<BatchEntry>, op: InnerOp) returns (i: nat)
    requires op in BatchOps(es)
    ensures i < |es| && op in EntryOps(es[i])
  {
    if op in EntryOps(Last(es)) {
      i := |es| - 1;
    } else {
      i := EntryWithOp(Init(es), op);
    }
  }

  lemma {:induction false} FarOpLosesBatch(table: seq<InnerOp>, es: seq<BatchEntry>)
    requires NoDuplicates(table) && MAX_TABLE < |table| < MAX_LEN && AllWithin(es, table)
    requires table[MAX_TABLE] in BatchOps(es)
    ensures DecompressEntries(CompressedEntries(table, es), table) != es
  {
    var i := EntryWithOp(es, table[MAX_TABLE]);
    FarOpLosesEntry(table, es[i]);
    assert DecompressEntries(CompressedEntries(table, es), table)[i] != es[i];
  }

  /** Compression round trip: a batch comes back exactly when it has at most 2^31 different inner ops. The
      table is a Rust vector, so shorter than 2^63. */
  lemma {:induction false} CompressionRoundTrip(es: seq<BatchEntry>)
    requires |Distinct(es)| < MAX_LEN
    ensures Decompress(CompressProof(Batch(es))) == Batch(es) <==> |Distinct(es)| <= MAX_TABLE
  {
    var table := BatchTable(es);
    TableSize(es);
    if |table| <= MAX_TABLE {
      EntriesRoundTrip(table, es);
    } else {
      TableGrows([], BatchOps(es));
      assert table[MAX_TABLE] in table;
      FarOpLosesBatch(table, es);
    }
  }
}
