/** The thing proofs are about: an ordered Merkle tree whose nodes hash the preimages the spec describes. */
module Tree {
  import opened Bytes
  import opened Ics23
  import opened Ops
  import opened Specs
  import opened Verify
  import opened LeafReading

  /** A hash provider, the parts of a proof spec, and the bytes a node writes before each child hash
      (IAVL: its length byte; elsewhere nothing). */
  datatype StoreConfig = StoreConfig(host: Host, leaf: LeafOp, inner: InnerSpec, maxDepth: int32, minDepth: int32,
                                     prehashKeyBeforeComparison: bool, tag: Bytes)
  {
    function Spec(): ProofSpec {
      ProofSpec(Some(leaf), Some(inner), maxDepth, minDepth, prehashKeyBeforeComparison)
    }

    function Arity(): nat {
      |inner.childOrder|
    }

    function SlotSize(): nat {
      |tag| + DigestLength(inner.hash)
    }

    function NodeHash(image: Bytes): Bytes {
      DoHash(host, inner.hash, image)
    }

    function CompareKey(key: Bytes): Bytes {
      KeyForComparison(host, Spec(), key)
    }

    function LeafOpFor(prefix: Bytes): LeafOp {
      leaf.(prefix := prefix)
    }

    /** Empty subtrees exist only where the spec has a placeholder as wide as a child slot. */
    predicate HasPlaceholder() {
      |inner.emptyChild| == SlotSize()
    }

    /** What the spec must satisfy for proofs to mean anything: one node hash with a fixed output that
        fills a child slot, identity child order, lengths without 32-bit overflow, and a leaf prefix no
        longer than the shortest inner prefix. */
    predicate Sound() {
      && leaf.hash == inner.hash && DigestLength(inner.hash) > 0
      && SlotSize() == inner.childSize
      && Arity() > 0
      && (forall i :: 0 <= i < Arity() ==> inner.childOrder[i] == i)
      && |leaf.prefix| <= inner.minPrefixLength
      && |tag| <= inner.minPrefixLength <= inner.maxPrefixLength < inner.minPrefixLength + inner.childSize
      && inner.maxPrefixLength + Arity() * SlotSize() < 0x8000_0000
      && (HasPlaceholder() ==> tag == [])
    }
  }

  /** A hash provider, to show that stores exist. */
  function ZeroHost(): Host {
    Host((b: Bytes) => Zeros(32), (b: Bytes) => Zeros(64), (b: Bytes) => Zeros(32), (b: Bytes) => Zeros(32),
         (b: Bytes) => Zeros(20), (b: Bytes) => Zeros(64), (b: Bytes) => Zeros(32), (b: Bytes) => Zeros(32))
  }

  /** A sound store. Every lemma below speaks of all of them. */
  type Store = c: StoreConfig | c.Sound() witness StoreOf(ZeroHost(), SmtSpec(), [])

  function StoreOf(host: Host, spec: ProofSpec, tag: Bytes): StoreConfig
    requires spec.leafSpec.Some? && spec.innerSpec.Some?
  {
    StoreConfig(host, spec.leafSpec.value, spec.innerSpec.value, spec.maxDepth, spec.minDepth,
                spec.prehashKeyBeforeComparison, tag)
  }

  // The three built-in specs are sound.

  function IavlStore(host: Host): (c: Store)
    ensures c.host == host && c.Spec() == IavlSpec()
  {
    StoreOf(host, IavlSpec(), [32])
  }

  function TendermintStore(host: Host): (c: Store)
    ensures c.host == host && c.Spec() == TendermintSpec()
  {
    StoreOf(host, TendermintSpec(), [])
  }

  function SmtStore(host: Host): (c: Store)
    ensures c.host == host && c.Spec() == SmtSpec()
  {
    StoreOf(host, SmtSpec(), [])
  }

  datatype Tree =
    | Leaf(prefix: Bytes, key: Bytes, value: Bytes)
    | Inner(header: Bytes, children: seq<Tree>)
    | Empty

  datatype Entry = Entry(key: Bytes, value: Bytes)

  // ---- Hashes --------------------------------------------------------------------------------------

  ghost function Root(c: Store, t: Tree): Bytes
    decreases t
  {
    match t
    case Leaf(prefix, key, value) =>
      var image := LeafImage(c.host, c.LeafOpFor(prefix), key, value);
      if image.Some? then c.NodeHash(image.value) else []
    case Inner(header, children) => c.NodeHash(header + Slots(c, children))
    case Empty => c.inner.emptyChild
  }

  /** The child slots of a node, in order. */
  ghost function Slots(c: Store, ts: seq<Tree>): Bytes
    decreases ts
  {
    if ts == [] then [] else c.tag + Root(c, ts[0]) + Slots(c, ts[1..])
  }

  /** The op a proof carries for child `k` of a node. */
  ghost function OpAt(c: Store, header: Bytes, ts: seq<Tree>, k: nat): InnerOp
    requires k < |ts|
  {
    InnerOp(c.inner.hash, header + Slots(c, ts[..k]) + c.tag, Slots(c, ts[k + 1..]))
  }

  // ---- Well-formed trees -------------------------------------------------------------------------------

  ghost predicate WellFormed(c: Store, t: Tree)
    decreases t
  {
    match t
    case Leaf(prefix, key, value) =>
      var op := c.LeafOpFor(prefix);
      && LeafAccepted(c.host, c.Spec(), op)
      && Readable(c.host, c.Spec(), op, key)
      && LeafImage(c.host, op, key, value).Some?
    case Inner(header, children) =>
      && |children| == c.Arity()
      && c.inner.minPrefixLength <= |header| + |c.tag| <= c.inner.maxPrefixLength
      && !HasPrefix(c.leaf.prefix, header + Slots(c, children))
      && AllWellFormed(c, children)
    case Empty => c.HasPlaceholder()
  }

  ghost predicate AllWellFormed(c: Store, ts: seq<Tree>)
    decreases ts
  {
    ts == [] || (WellFormed(c, ts[0]) && AllWellFormed(c, ts[1..]))
  }

  // ---- Contents and order --------------------------------------------------------------------------------

  ghost function Leaves(t: Tree): seq<Entry>
    decreases t
  {
    match t
    case Leaf(_, key, value) => [Entry(key, value)]
    case Inner(_, children) => LeavesOf(children)
    case Empty => []
  }

  ghost function LeavesOf(ts: seq<Tree>): seq<Entry>
    decreases ts
  {
    if ts == [] then [] else Leaves(ts[0]) + LeavesOf(ts[1..])
  }

  /** Strictly ordered by comparison key, left to right. */
  ghost predicate Ordered(c: Store, es: seq<Entry>) {
    forall i, j :: 0 <= i < j < |es| ==> KeyLess(c.host, c.Spec(), es[i].key, es[j].key)
  }

  ghost predicate Absent(c: Store, es: seq<Entry>, key: Bytes) {
    forall i :: 0 <= i < |es| ==> c.CompareKey(es[i].key) != c.CompareKey(key)
  }

  // ---- Preimages --------------------------------------------------------------------------------------

  /** A byte string some hash is taken of, by the role of that hash. */
  datatype Image = NodeImage(data: Bytes) | KeyImage(data: Bytes) | ValueImage(data: Bytes)

  function Digest(c: Store, image: Image): Bytes {
    match image
    case NodeImage(data) => c.NodeHash(data)
    case KeyImage(data) => DoHash(c.host, c.leaf.prehashKey, data)
    case ValueImage(data) => DoHash(c.host, c.leaf.prehashValue, data)
  }

  predicate SameRole(a: Image, b: Image) {
    (a.NodeImage? <==> b.NodeImage?) && (a.KeyImage? <==> b.KeyImage?)
  }

  ghost predicate Collision(c: Store, a: Image, b: Image) {
    a != b && SameRole(a, b) && Digest(c, a) == Digest(c, b)
  }

  ghost predicate PlaceholderHit(c: Store, a: Image) {
    a.NodeImage? && c.tag + Digest(c, a) == c.inner.emptyChild
  }

  /** Two different images in `s`, hashed in the same role, have one digest. */
  ghost predicate Collides(c: Store, s: set<Image>) {
    exists a, b :: a in s && b in s && Collision(c, a, b)
  }

  /** The hash is broken on the images in `s`: two of them collide, or one hashes to the placeholder. */
  ghost predicate Broken(c: Store, s: set<Image>) {
    Collides(c, s) || exists a :: a in s && PlaceholderHit(c, a)
  }

  lemma {:induction false} BrokenGrows(c: Store, s: set<Image>, t: set<Image>)
    requires Broken(c, s) && s <= t
    ensures Broken(c, t)
  {
  }

  ghost function LeafImages(c: Store, leaf: LeafOp, key: Bytes, value: Bytes): set<Image> {
    var image := LeafImage(c.host, leaf, key, value);
    (if image.Some? then {NodeImage(image.value)} else {}) + {KeyImage(key), ValueImage(value)}
  }

  /** The images of a tree. */
  ghost function Images(c: Store, t: Tree): set<Image>
    decreases t
  {
    match t
    case Leaf(prefix, key, value) => LeafImages(c, c.LeafOpFor(prefix), key, value)
    case Inner(header, children) => {NodeImage(header + Slots(c, children))} + ImagesOf(c, children)
    case Empty => {}
  }

  ghost function ImagesOf(c: Store, ts: seq<Tree>): set<Image>
    decreases ts
  {
    if ts == [] then {} else Images(c, ts[0]) + ImagesOf(c, ts[1..])
  }

  /** The images a path hashes on its way from a leaf hash to the root. */
  ghost function PathImages(c: Store, leafHash: Bytes, path: seq<InnerOp>): set<Image> {
    if path == [] then {}
    else
      var child := FoldPath(c.host, Some(c.inner), leafHash, Init(path));
      PathImages(c, leafHash, Init(path)) +
      if child.Some? then {NodeImage(InnerImage(Last(path), child.value))} else {}
  }

  /** The images of an existence proof. */
  ghost function ProofImages(c: Store, p: ExistenceProof): set<Image> {
    if p.leaf == None then {}
    else
      var leafHash := ApplyLeaf(c.host, p.leaf.value, p.key, p.value);
      LeafImages(c, p.leaf.value, p.key, p.value) +
      if leafHash.Some? then PathImages(c, leafHash.value, p.path) else {}
  }

  ghost function OptionImages(c: Store, p: Option<ExistenceProof>): set<Image> {
    if p.Some? then ProofImages(c, p.value) else {}
  }

  ghost function NonExistenceImages(c: Store, p: NonExistenceProof): set<Image> {
    OptionImages(c, p.left) + OptionImages(c, p.right)
  }

  // ---- Forest lemmas --------------------------------------------------------------------------------

  lemma {:induction false} ChildWellFormed(c: Store, ts: seq<Tree>, k: nat)
    requires AllWellFormed(c, ts) && k < |ts|
    ensures WellFormed(c, ts[k])
  {
    if k == 0 {
    } else {
      ChildWellFormed(c, ts[1..], k - 1);
    }
  }

  lemma {:induction false} ChildImages(c: Store, ts: seq<Tree>, k: nat)
    requires k < |ts|
    ensures Images(c, ts[k]) <= ImagesOf(c, ts)
  {
    if k == 0 {
    } else {
      ChildImages(c, ts[1..], k - 1);
    }
  }

  lemma {:induction false} SlotsAppend(c: Store, a: seq<Tree>, b: seq<Tree>)
    ensures Slots(c, a + b) == Slots(c, a) + Slots(c, b)
  {
    if a == [] {
      assert a + b == b;
    } else {
      assert (a + b)[1..] == a[1..] + b;
      SlotsAppend(c, a[1..], b);
      Assoc(c.tag + Root(c, a[0]), Slots(c, a[1..]), Slots(c, b));
    }
  }

  lemma {:induction false} LeavesAppend(a: seq<Tree>, b: seq<Tree>)
    ensures LeavesOf(a + b) == LeavesOf(a) + LeavesOf(b)
  {
    if a == [] {
      assert a + b == b;
    } else {
      assert (a + b)[1..] == a[1..] + b;
      LeavesAppend(a[1..], b);
    }
  }

  /** A node's slots around child `k`. */
  lemma {:induction false} SlotsAround(c: Store, ts: seq<Tree>, k: nat)
    requires k < |ts|
    ensures Slots(c, ts) == Slots(c, ts[..k]) + c.tag + Root(c, ts[k]) + Slots(c, ts[k + 1..])
  {
    var one := ts[k..k + 1];
    assert ts == ts[..k] + (one + ts[k + 1..]);
    SlotsAppend(c, ts[..k], one + ts[k + 1..]);
    SlotsAppend(c, one, ts[k + 1..]);
    assert one[0] == ts[k] && Slots(c, one[1..]) == [];
  }

  /** A node's leaves around child `k`. */
  lemma {:induction false} LeavesAround(ts: seq<Tree>, k: nat)
    requires k < |ts|
    ensures LeavesOf(ts) == LeavesOf(ts[..k]) + Leaves(ts[k]) + LeavesOf(ts[k + 1..])
  {
    var before, t, after := ts[..k], ts[k], ts[k + 1..];
    assert ts == before + [t] + after;
    LeavesAppend(before + [t], after);
    LeavesAppend(before, [t]);
    LeavesOfOne(t);
  }

  lemma {:induction false} LeavesOfOne(t: Tree)
    ensures LeavesOf([t]) == Leaves(t)
  {
    assert [t][1..] == [];
    assert LeavesOf([t]) == Leaves(t) + LeavesOf([]);
  }

  /** Every well-formed subtree fills exactly one slot. */
  lemma {:induction false} RootSize(c: Store, t: Tree)
    requires WellFormed(c, t)
    ensures |c.tag| + |Root(c, t)| == c.SlotSize()
  {
    match t {
      case Leaf(prefix, key, value) =>
        DigestHasLength(c.host, c.inner.hash, LeafImage(c.host, c.LeafOpFor(prefix), key, value).value);
      case Inner(header, children) => DigestHasLength(c.host, c.inner.hash, header + Slots(c, children));
      case Empty =>
    }
  }

  lemma {:induction false} SlotsSize(c: Store, ts: seq<Tree>)
    requires AllWellFormed(c, ts)
    ensures |Slots(c, ts)| == |ts| * c.SlotSize()
  {
    if ts == [] {
    } else {
      RootSize(c, ts[0]);
      SlotsSize(c, ts[1..]);
      assert |ts| * c.SlotSize() == (|ts| - 1) * c.SlotSize() + c.SlotSize();
    }
  }

  lemma {:induction false} SublistWellFormed(c: Store, ts: seq<Tree>, lo: nat, hi: nat)
    requires AllWellFormed(c, ts) && lo <= hi <= |ts|
    ensures AllWellFormed(c, ts[lo..hi])
    decreases hi - lo
  {
    if lo == hi {
    } else {
      ChildWellFormed(c, ts, lo);
      SublistWellFormed(c, ts, lo + 1, hi);
      assert ts[lo..hi][1..] == ts[lo + 1..hi];
    }
  }
}
