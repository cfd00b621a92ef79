/** Where the code does not keep a promise: inputs that show it, and the exact line between. */
module Limits {
  import opened Bytes
  import opened Ics23
  import opened Ops
  import opened Specs
  import opened Verify
  import opened LeafReading
  import opened Tree
  import opened Soundness
  import opened Binding
  import opened Completeness
  import opened Packing
  import opened Compress
  import opened Api
  import opened GoVerify
  import opened GoBinding
  import opened Examples

  // ---- Lengthened leaf prefixes -----------------------------------------------------------------------------

  /** A Tendermint tree of one leaf, under any hash. */
  function HonestTree(value: Bytes): Tree {
    Leaf([0], [9, 1, 7], value)
  }

  function HonestProof(value: Bytes): ExistenceProof {
    ExistenceProof([9, 1, 7], value, TendermintSpec().leafSpec, [])
  }

  /** The same leaf preimage, its first two key bytes moved into the prefix. */
  function ForgedProof(value: Bytes): ExistenceProof {
    ExistenceProof([7], value, Some(TendermintSpec().leafSpec.value.(prefix := [0, 3, 9])), [])
  }

  lemma {:induction false} BothAccepted(c: Store, value: Bytes)
    requires c == TendermintStore(c.host) && value != []
    ensures WellFormed(c, HonestTree(value)) && Ordered(c, Leaves(HonestTree(value)))
    ensures VerifyExistence(c.host, HonestProof(value), c.Spec(), Root(c, HonestTree(value)), [9, 1, 7], value)
    ensures VerifyExistence(c.host, ForgedProof(value), c.Spec(), Root(c, HonestTree(value)), [7], value)
  {
    TendermintPrefixMatters(c.host, value);
    assert !IsIavlSpec(c.Spec());
  }

  /** Membership fails: a key that is not in the tree has an accepted existence proof, and no hash is broken. */
  lemma {:induction false} AbsentKeyProvedPresent(c: Store, value: Bytes)
    requires c == TendermintStore(c.host) && value != []
    ensures var t, p := HonestTree(value), ForgedProof(value);
            && WellFormed(c, t) && Ordered(c, Leaves(t)) && Absent(c, Leaves(t), [7])
            && VerifyExistence(c.host, p, c.Spec(), Root(c, t), [7], value)
            && !Broken(c, Images(c, t) + ProofImages(c, p))
  {
    BothAccepted(c, value);
    OneNodeImage(c, value);
  }

  /** Tree and forged proof hash one and the same node preimage. */
  lemma {:induction false} OneNodeImage(c: Store, value: Bytes)
    requires c == TendermintStore(c.host) && value != []
    ensures !Broken(c, Images(c, HonestTree(value)) + ProofImages(c, ForgedProof(value)))
  {
    TendermintPrefixMatters(c.host, value);
    var image := LeafImage(c.host, c.LeafOpFor([0]), [9, 1, 7], value).value;
    DigestHasLength(c.host, c.inner.hash, image);
    forall a | a in Images(c, HonestTree(value)) + ProofImages(c, ForgedProof(value))
      ensures a in {NodeImage(image), KeyImage([9, 1, 7]), KeyImage([7]), ValueImage(value)}
      ensures !PlaceholderHit(c, a)
    {
    }
  }

  /** Non-membership fails: the one key of the tree has an accepted non-existence proof. */
  lemma {:induction false} PresentKeyProvedAbsent(c: Store, value: Bytes)
    requires c == TendermintStore(c.host) && value != []
    ensures var t, p := HonestTree(value), NonExistenceProof([9, 1, 7], Some(ForgedProof(value)), None);
            && Leaves(t) == [Entry([9, 1, 7], value)]
            && VerifyNonExistence(c.host, p, c.Spec(), Root(c, t), [9, 1, 7]) == Pass
            && !Broken(c, Images(c, t) + NonExistenceImages(c, p))
  {
    BothAccepted(c, value);
    OneNodeImage(c, value);
    PaddingOf(c, 1);
    assert NonExistenceImages(c, NonExistenceProof([9, 1, 7], Some(ForgedProof(value)), None))
        == ProofImages(c, ForgedProof(value));
  }

  /** A walk ends at a leaf of the tree, so under the Tendermint spec it carries the spec's prefix. */
  lemma {:induction false} OpensWithSpecPrefix(c: Store, t: Tree, leaf: LeafOp, e: Entry, path: seq<InnerOp>)
    requires c.Spec() == TendermintSpec() && WellFormed(c, t) && Opens(c, t, leaf, e, path)
    ensures leaf.prefix == c.leaf.prefix
    decreases |path|
  {
    if path == [] {
      assert !IsIavlSpec(c.Spec());
    } else {
      var k := OrderFromPadding(c.inner, Last(path)).value;
      ChildWellFormed(c, t.children, k);
      OpensWithSpecPrefix(c, t.children[k], leaf, e, Init(path));
    }
  }

  /** The line between: an accepted Tendermint proof is a walk in the tree exactly when it carries the spec's
      own leaf prefix, or the hash is broken on the images of tree and proof. */
  lemma {:induction false} OpensIffSpecPrefix(c: Store, t: Tree, p: ExistenceProof, key: Bytes, value: Bytes)
    requires c.Spec() == TendermintSpec() && WellFormed(c, t)
    requires VerifyExistence(c.host, p, c.Spec(), Root(c, t), key, value)
    ensures || (Opens(c, t, p.leaf.value, Entry(key, value), p.path) <==> p.leaf.value.prefix == c.leaf.prefix)
            || Broken(c, Images(c, t) + ProofImages(c, p))
  {
    if p.leaf.value.prefix == c.leaf.prefix {
      MembershipSound(c, t, p, key, value);
    } else if Opens(c, t, p.leaf.value, Entry(key, value), p.path) {
      OpensWithSpecPrefix(c, t, p.leaf.value, Entry(key, value), p.path);
    }
  }

  // ---- A panic ------------------------------------------------------------------------------------------------

  /** Around the key [8] the forged proof and the honest one. */
  function PanicProof(value: Bytes): NonExistenceProof {
    NonExistenceProof([8], Some(ForgedProof(value)), Some(HonestProof(value)))
  }

  /** Two boundaries on one path: Rust unwraps an empty vector. No hash is broken. */
  lemma {:induction false} RustPanics(c: Store, value: Bytes)
    requires c == TendermintStore(c.host) && value != []
    ensures var t, p := HonestTree(value), PanicProof(value);
            && SamePathTwice(c, p, Root(c, t), [8])
            && VerifyNonExistence(c.host, p, c.Spec(), Root(c, t), [8]) == Panic
            && VerifyNonMembership(c.host, Nonexist(p), c.Spec(), Root(c, t), [8]) == Panic
            && !Broken(c, Images(c, t) + NonExistenceImages(c, p))
  {
    BothAccepted(c, value);
    OneNodeImage(c, value);
    assert ProofImages(c, HonestProof(value)) == Images(c, HonestTree(value));
    assert Images(c, HonestTree(value)) + NonExistenceImages(c, PanicProof(value))
        == Images(c, HonestTree(value)) + ProofImages(c, ForgedProof(value));
  }

  /** So does Go, which slices an empty path. */
  lemma {:induction false} GoPanics(c: Store, value: Bytes)
    requires c == TendermintStore(c.host) && value != []
    ensures var p := GoNonExistence([8], Some(GoProof(ForgedProof(value), [])), Some(GoProof(HonestProof(value), [])));
            && Unset(p) == PanicProof(value)
            && GoPanicCase(c.host, Tendermint, p, Root(c, HonestTree(value)), [8])
            && GoVerifyNonExistence(c.host, p, GoSpec(Tendermint), Root(c, HonestTree(value)), [8]) == Panic
  {
    BothAccepted(c, value);
    var root := Root(c, HonestTree(value));
    GoExistenceIsStricter(c.host, Tendermint, GoProof(ForgedProof(value), []), root, [7], value);
    GoExistenceIsStricter(c.host, Tendermint, GoProof(HonestProof(value), []), root, [9, 1, 7], value);
  }

  // ---- A panic of Go's own ------------------------------------------------------------------------------------

  /** The hash of an SMT leaf. */
  function SmtLeafHash(host: Host, key: Bytes, value: Bytes): Bytes {
    host.sha2_256([0] + host.sha2_256(key) + host.sha2_256(value))
  }

  /** An SMT existence proof of one op. */
  function OneStep(key: Bytes, value: Bytes, prefix: Bytes, suffix: Bytes): GoProof {
    GoProof(ExistenceProof(key, value, SmtSpec().leafSpec, [InnerOp(SHA256, prefix, suffix)]), [suffix != []])
  }

  /** Two leaves and a zero slot under one node of three slots, which no SMT tree has: neither op fits a slot. */
  function ThreeSlots(host: Host, a: Bytes, x: Bytes, b: Bytes, y: Bytes): GoNonExistence {
    GoNonExistence([], Some(OneStep(a, x, [1] + SmtLeafHash(host, b, y), Zeros(32))),
                   Some(OneStep(b, y, [1], SmtLeafHash(host, a, x) + Zeros(32))))
  }

  function ThreeSlotsRoot(host: Host, a: Bytes, x: Bytes, b: Bytes, y: Bytes): Bytes {
    host.sha2_256([1] + SmtLeafHash(host, b, y) + SmtLeafHash(host, a, x) + Zeros(32))
  }

  lemma {:induction false} OneStepHolds(c: Store, key: Bytes, value: Bytes, prefix: Bytes, suffix: Bytes, root: Bytes)
    requires c == SmtStore(c.host) && key != [] && value != []
    requires 1 <= |prefix| <= 33 && prefix[0] == 1 && |suffix| % 32 == 0
    requires root == c.host.sha2_256(prefix + SmtLeafHash(c.host, key, value) + suffix)
    ensures VerifyExistence(c.host, OneStep(key, value, prefix, suffix).proof, c.Spec(), root, key, value)
  {
    var p := OneStep(key, value, prefix, suffix).proof;
    var op := p.path[0];
    assert Init(p.path) == [] && Last(p.path) == op;
    assert !IsIavlSpec(c.Spec());
    assert ApplyLeaf(c.host, p.leaf.value, key, value) == Some(SmtLeafHash(c.host, key, value)) by {
      assert [0] + ([] + c.host.sha2_256(key)) + ([] + c.host.sha2_256(value))
          == [0] + c.host.sha2_256(key) + c.host.sha2_256(value);
    }
    assert EnsureInner(op, c.Spec()) by {
      assert !HasPrefix([0], prefix);
    }
    var leaf := SmtLeafHash(c.host, key, value);
    assert FoldPath(c.host, Some(c.inner), leaf, []) == Some(leaf);
  }

  lemma {:induction false} FitsNoSlot(c: Store, op: InnerOp)
    requires c == SmtStore(c.host) && (|op.prefix| == 33 || |op.prefix| == 1)
    requires |op.suffix| != (if |op.prefix| == 33 then 0 else 32)
    ensures OrderFromPadding(c.inner, op) == None
  {
    PaddingOf(c, 0);
    PaddingOf(c, 1);
  }

  lemma {:induction false} ThreeSlotsHold(c: Store, a: Bytes, x: Bytes, b: Bytes, y: Bytes)
    requires c == SmtStore(c.host) && a != [] && x != [] && b != [] && y != []
    ensures var p, root := ThreeSlots(c.host, a, x, b, y), ThreeSlotsRoot(c.host, a, x, b, y);
            && BoundaryHolds(c.host, Side(p.left), c.Spec(), root)
            && BoundaryHolds(c.host, Side(p.right), c.Spec(), root)
            && BoundaryReadable(c, Side(p.left)) && BoundaryReadable(c, Side(p.right))
  {
    var l, r, root := SmtLeafHash(c.host, a, x), SmtLeafHash(c.host, b, y), ThreeSlotsRoot(c.host, a, x, b, y);
    assert [1] + r + (l + Zeros(32)) == [1] + r + l + Zeros(32);
    OneStepHolds(c, a, x, [1] + r, Zeros(32), root);
    OneStepHolds(c, b, y, [1], l + Zeros(32), root);
  }

  lemma {:induction false} ThreeSlotsSplit(c: Store, a: Bytes, x: Bytes, b: Bytes, y: Bytes)
    requires c == SmtStore(c.host)
    ensures var p := ThreeSlots(c.host, a, x, b, y);
            && NoSlotAtSplit(c.inner, p.left.value.proof.path, p.right.value.proof.path)
            && LeftNeighbor(c.inner, p.left.value.proof.path, p.right.value.proof.path) == Fail
  {
    var p := ThreeSlots(c.host, a, x, b, y);
    var left, right := p.left.value.proof.path, p.right.value.proof.path;
    FitsNoSlot(c, left[0]);
    FitsNoSlot(c, right[0]);
    assert |Last(left).prefix| == 33 && |Last(right).prefix| == 1;
    assert LeftNeighbor(c.inner, left, right) == CompareTops(c.inner, left, right);
  }

  /** Under the SMT spec, whose leaves are always readable, two accepted boundaries around a key whose ops fit no
      slot: Rust refuses, Go panics. */
  lemma {:induction false} GoPanicsAlone(c: Store, a: Bytes, x: Bytes, b: Bytes, y: Bytes, key: Bytes)
    requires c == SmtStore(c.host) && a != [] && x != [] && b != [] && y != []
    requires KeyLess(c.host, c.Spec(), a, key) && KeyLess(c.host, c.Spec(), key, b)
    ensures var p, root := ThreeSlots(c.host, a, x, b, y), ThreeSlotsRoot(c.host, a, x, b, y);
            && BoundaryReadable(c, Side(p.left)) && BoundaryReadable(c, Side(p.right))
            && GoVerifyNonExistence(c.host, p, GoSpec(Smt), root, key) == Panic
            && VerifyNonExistence(c.host, Unset(p), c.Spec(), root, key) == Fail
  {
    var p, root := ThreeSlots(c.host, a, x, b, y), ThreeSlotsRoot(c.host, a, x, b, y);
    ThreeSlotsHold(c, a, x, b, y);
    ThreeSlotsSplit(c, a, x, b, y);
    assert GoHolds(c.host, Smt, p, root, key);
    GoPanicIsLoops(c.host, Smt, p, root, key);
    GoLoopPanics(c, p.left.value.proof.path, p.right.value.proof.path);
  }

  lemma {:induction false} OneStepImages(c: Store, key: Bytes, value: Bytes, prefix: Bytes, suffix: Bytes, leaf: Bytes,
                                         node: Bytes)
    requires c == SmtStore(c.host) && key != [] && value != []
    requires leaf == [0] + c.host.sha2_256(key) + c.host.sha2_256(value)
    requires node == prefix + c.host.sha2_256(leaf) + suffix
    ensures ProofImages(c, OneStep(key, value, prefix, suffix).proof)
         == {NodeImage(leaf), KeyImage(key), ValueImage(value), NodeImage(node)}
  {
    var p := OneStep(key, value, prefix, suffix).proof;
    assert [0] + ([] + c.host.sha2_256(key)) + ([] + c.host.sha2_256(value)) == leaf;
    assert Init(p.path) == [] && Last(p.path) == p.path[0];
    assert PathImages(c, c.host.sha2_256(leaf), []) == {};
    assert FoldPath(c.host, Some(c.inner), c.host.sha2_256(leaf), []) == Some(c.host.sha2_256(leaf));
  }

  /** How the digests of three node preimages begin. */
  lemma {:induction false} ThreeDigests(c: Store, leaf: Bytes, leaf': Bytes, node: Bytes)
    requires c == SmtStore(KeepingHost())
    requires leaf == [0] + Kept([10], 32) + Kept([1], 32) && leaf' == [0] + Kept([20], 32) + Kept([2], 32)
    requires node != [] && node[0] == 1
    ensures c.NodeHash(leaf)[0] == 0 && c.NodeHash(leaf)[1] == 10
    ensures c.NodeHash(leaf')[0] == 0 && c.NodeHash(leaf')[1] == 20
    ensures c.NodeHash(node)[0] == 1
  {
    assert leaf[0] == 0 && leaf[1] == 10 && leaf'[0] == 0 && leaf'[1] == 20;
  }

  /** Images whose digests begin differently do not collide. */
  lemma {:induction false} ThreeSlotsImagesDiffer(c: Store, leaf: Bytes, leaf': Bytes, node: Bytes, s: set<Image>)
    requires c == SmtStore(KeepingHost())
    requires leaf == [0] + Kept([10], 32) + Kept([1], 32) && leaf' == [0] + Kept([20], 32) + Kept([2], 32)
    requires node != [] && node[0] == 1
    requires s == {NodeImage(leaf), KeyImage([10]), ValueImage([1]), NodeImage(node)}
                + {NodeImage(leaf'), KeyImage([20]), ValueImage([2]), NodeImage(node)}
    ensures !Collides(c, s)
  {
    ThreeDigests(c, leaf, leaf', node);
    assert Digest(c, KeyImage([10]))[0] == 10 && Digest(c, KeyImage([20]))[0] == 20;
    assert Digest(c, ValueImage([1]))[0] == 1 && Digest(c, ValueImage([2]))[0] == 2;
  }

  lemma {:induction false} ThreeSlotsUnbroken(c: Store)
    requires c == SmtStore(KeepingHost())
    ensures !Collides(c, NonExistenceImages(c, Unset(ThreeSlots(c.host, [10], [1], [20], [2]))))
  {
    var leaf, leaf' := [0] + Kept([10], 32) + Kept([1], 32), [0] + Kept([20], 32) + Kept([2], 32);
    var l, r := c.host.sha2_256(leaf), c.host.sha2_256(leaf');
    var node := [1] + r + l + Zeros(32);
    assert [1] + r + (l + Zeros(32)) == node;
    OneStepImages(c, [10], [1], [1] + r, Zeros(32), leaf, node);
    OneStepImages(c, [20], [2], [1], l + Zeros(32), leaf', node);
    var p := Unset(ThreeSlots(c.host, [10], [1], [20], [2]));
    ThreeSlotsImagesDiffer(c, leaf, leaf', node, NonExistenceImages(c, p));
  }

  /** And it does so with no two images of the proof colliding. */
  lemma {:induction false} GoPanicsUnbroken(c: Store)
    requires c == SmtStore(KeepingHost())
    ensures var p, root := ThreeSlots(c.host, [10], [1], [20], [2]), ThreeSlotsRoot(c.host, [10], [1], [20], [2]);
            && GoVerifyNonExistence(c.host, p, GoSpec(Smt), root, [15]) == Panic
            && VerifyNonExistence(c.host, Unset(p), c.Spec(), root, [15]) == Fail
            && !Collides(c, NonExistenceImages(c, Unset(p)))
  {
    assert c.CompareKey([10])[0] == 10 && c.CompareKey([15])[0] == 15 && c.CompareKey([20])[0] == 20;
    GoPanicsAlone(c, [10], [1], [20], [2], [15]);
    ThreeSlotsUnbroken(c);
  }

  // ---- Depth -----------------------------------------------------------------------------------------------------

  function ShallowStore(host: Host): (c: Store)
    ensures c.host == host && c.maxDepth == 1 && c.minDepth == 0
  {
    TendermintStore(host).(maxDepth := 1)
  }

  ghost function DeepTree(): Tree {
    Inner([1], [Inner([1], [Leaf([0], [10], [1]), Leaf([0], [20], [2])]), Leaf([0], [30], [3])])
  }

  lemma {:induction false} DeepTreeSound(c: Store)
    requires c == ShallowStore(c.host)
    ensures WellFormed(c, DeepTree()) && |Leaves(DeepTree())| == 3
  {
    var low := DeepTree().children[0];
    PairSound(c, Leaf([0], [10], [1]), Leaf([0], [20], [2]));
    PairSound(c, low, Leaf([0], [30], [3]));
  }

  lemma {:induction false} PairSound(c: Store, a: Tree, b: Tree)
    requires c == ShallowStore(c.host) && WellFormed(c, a) && WellFormed(c, b)
    ensures WellFormed(c, Inner([1], [a, b])) && Leaves(Inner([1], [a, b])) == Leaves(a) + Leaves(b)
  {
    var ts := [a, b];
    assert ts[1..] == [b] && ts[1..][1..] == [];
    assert AllWellFormed(c, []) && AllWellFormed(c, ts[1..]) && AllWellFormed(c, ts);
    LeavesOfOne(b);
    assert LeavesOf(ts) == Leaves(a) + LeavesOf([b]);
    assert ([1] + Slots(c, ts))[0] == 1;
  }

  /** A spec that allows one inner node accepts an honest proof of two. */
  lemma {:induction false} DeeperThanMaxDepth(c: Store)
    requires c == ShallowStore(c.host)
    ensures WellFormed(c, DeepTree()) && 0 < |Leaves(DeepTree())|
    ensures var p := ProofAt(c, DeepTree(), 0);
            && VerifyExistence(c.host, p, c.Spec(), Root(c, DeepTree()), p.key, p.value)
            && |p.path| == 2 > c.maxDepth
  {
    var t := DeepTree();
    var low := t.children[0];
    DeepTreeSound(c);
    assert !IsIavlSpec(c.Spec());
    DepthDecides(c, t, 0);
    PairSound(c, low.children[0], low.children[1]);
    assert ChildOf(t.children, 0) == 0 && t.children[..0] == [];
    assert ChildOf(low.children, 0) == 0 && low.children[..0] == [];
    PathStep(c, [1], t.children, 0, 0, 0);
    PathStep(c, [1], low.children, 0, 0, 0);
  }

  // ---- Placeholders beyond two children --------------------------------------------------------------------------

  ghost function LooseTree(): Tree {
    Inner([1], [Leaf([0], [10], [1]), Empty, Empty])
  }

  lemma {:induction false} LooseTreeSound(c: Store)
    requires c == TernaryStore(c.host)
    ensures WellFormed(c, LooseTree()) && Populated(LooseTree()) && !Packed(LooseTree())
    ensures Leaves(LooseTree()) == [Entry([10], [1])]
  {
    var ts := LooseTree().children;
    assert ts[1..] == [Empty, Empty] && ts[1..][1..] == [Empty] && ts[1..][1..][1..] == [];
    assert AllWellFormed(c, []) && AllWellFormed(c, [Empty]) && AllWellFormed(c, ts[1..]) && AllWellFormed(c, ts);
    assert AllPopulated([]) && AllPopulated([Empty]) && AllPopulated(ts[1..]) && AllPopulated(ts);
    assert LeavesOf([]) == [] && LeavesOf([Empty]) == [] && LeavesOf(ts[1..]) == [];
    assert ([1] + Slots(c, ts))[0] == 1;
    assert ts[1] == Empty && ts[0] != Empty;
  }

  /** In a ternary tree whose one leaf has two placeholders to its right, the honest neighbour proof of an absent
      key is refused. */
  lemma {:induction false} HonestNeighborRefused(c: Store)
    requires c == TernaryStore(c.host)
    ensures var t := LooseTree();
            && WellFormed(c, t) && Populated(t) && !Packed(t) && !EveryGapSeen(c, t)
            && Ordered(c, Leaves(t)) && Absent(c, Leaves(t), [15])
            && VerifyNonExistence(c.host, NeighborProof(c, t, [15]), c.Spec(), Root(c, t), [15]) == Fail
  {
    var t := LooseTree();
    LooseTreeSound(c);
    EveryGapSeenIffPacked(c, t);
    assert Rank(c, Leaves(t), [15]) == 1 by {
      assert Leaves(t)[1..] == [];
    }
    LooseLeafIsNotLast(c);
  }

  lemma {:induction false} LooseLeafIsNotLast(c: Store)
    requires c == TernaryStore(c.host) && |Leaves(LooseTree())| == 1
    ensures !RightMost(c.inner, PathTo(c, LooseTree(), 0))
  {
    var ts := LooseTree().children;
    LooseTreeSound(c);
    assert ts[1..] == [Empty, Empty] && ts[1..][1..] == [Empty] && ts[1..][1..][1..] == [];
    assert LeavesOf([]) == [] && LeavesOf([Empty]) == [] && LeavesOf(ts[0 + 1..]) == [];
    if RightMost(c.inner, PathTo(c, LooseTree(), 0)) {
      LastChild(c, [1], ts, 0);
    }
  }

  // ---- Tables beyond 2^31 ops -------------------------------------------------------------------------------------

  ghost function NumberedOp(i: nat): InnerOp {
    InnerOp(0, BigEndian(i, 4), [])
  }

  /** `n` different ops. */
  ghost function NumberedPath(n: nat): (path: seq<InnerOp>)
    ensures |path| == n && forall i :: 0 <= i < |path| ==> path[i] == NumberedOp(i)
  {
    seq(n, i requires 0 <= i < n => NumberedOp(i))
  }

  lemma {:induction false} NumberedPathDistinct(n: nat)
    requires n <= TWO32
    ensures NoDuplicates(NumberedPath(n))
  {
    var path := NumberedPath(n);
    forall i, j | 0 <= i < j < |path|
      ensures path[i] != path[j]
    {
      assert Pow256(4) == TWO32;
      if BigEndian(i, 4) == BigEndian(j, 4) {
        BigEndianInjective(i, j, 4);
      }
    }
  }

  /** An entry that fills a table with `n` ops. */
  ghost function Filler(n: nat): ExistenceProof {
    ExistenceProof([], [], None, NumberedPath(n))
  }

  lemma {:induction false} OneEntryOps(e: BatchEntry)
    ensures BatchOps([e]) == EntryOps(e)
  {
    assert Init([e]) == [] && BatchOps([]) == [];
  }

  /** A batch that does not come back: one entry with one op more than a table can number. */
  lemma {:induction false} BatchLost()
    ensures var es := [ExistEntry(Filler(MAX_TABLE + 1))];
            |Distinct(es)| == MAX_TABLE + 1 && Decompress(CompressProof(Batch(es))) != Batch(es)
  {
    var es, path := [ExistEntry(Filler(MAX_TABLE + 1))], NumberedPath(MAX_TABLE + 1);
    NumberedPathDistinct(MAX_TABLE + 1);
    SizeOfNoDuplicates(path);
    OneEntryOps(es[0]);
    assert Distinct(es) == set op | op in path;
    CompressionRoundTrip(es);
  }

  /** Different ops build themselves as their table. */
  lemma {:induction false} TableOfDistinct(ops: seq<InnerOp>)
    requires NoDuplicates(ops)
    ensures Table([], ops) == ops
  {
    if ops == [] {
    } else {
      TableOfDistinct(Init(ops));
      assert ops == Init(ops) + [Last(ops)];
      TableOneOp([], Init(ops), Last(ops));
    }
  }

  lemma {:induction false} TableOneOp(table: seq<InnerOp>, ops: seq<InnerOp>, op: InnerOp)
    ensures Table(table, ops + [op]) == Added(Table(table, ops), op)
  {
    TableAppend(table, ops, [op]);
    assert [op][1..] == [];
    assert Table(Table(table, ops), [op]) == Table(Added(Table(table, ops), op), []);
  }

  /** A table of `n` ops, and one more behind it. */
  lemma {:induction false} FullTable(n: nat, filler: ExistenceProof, p: ExistenceProof, op: InnerOp)
    requires n <= TWO32 && filler == Filler(n) && p.path == [op] && op.hash != 0
    ensures BatchTable([ExistEntry(filler), ExistEntry(p)]) == filler.path + [op]
    ensures op !in filler.path
  {
    var es := [ExistEntry(filler), ExistEntry(p)];
    assert Init(es) == [es[0]] && Last(es) == es[1];
    OneEntryOps(es[0]);
    assert BatchOps(es) == filler.path + [op];
    NumberedPathDistinct(n);
    TableOfDistinct(filler.path);
    TableOneOp([], filler.path, op);
  }

  /** What decompression makes of two existence entries. */
  lemma {:induction false} TwoEntries(es: seq<BatchEntry>, table: seq<InnerOp>, a: ExistenceProof, b: ExistenceProof)
    requires es == [ExistEntry(a), ExistEntry(b)] && AllWithin(es, table)
    ensures Within(a.path, table) && Within(b.path, table)
    ensures DecompressEntries(CompressedEntries(table, es), table)
         == [ExistEntry(DecompressExist(CompressedExistOf(table, a), table)),
             ExistEntry(DecompressExist(CompressedExistOf(table, b), table))]
  {
    assert Within(EntryOps(es[0]), table) && Within(EntryOps(es[1]), table);
    assert DecompressEntry(CompressedEntry(table, es[0]), table)
        == ExistEntry(DecompressExist(CompressedExistOf(table, a), table));
    assert DecompressEntry(CompressedEntry(table, es[1]), table)
        == ExistEntry(DecompressExist(CompressedExistOf(table, b), table));
  }

  /** The second of two existence entries is found by its key. */
  lemma {:induction false} SecondFound(a: ExistenceProof, b: ExistenceProof)
    requires a.key != b.key
    ensures GetExistProof(Batch([ExistEntry(a), ExistEntry(b)]), b.key) == Some(b)
  {
    var es := [ExistEntry(a), ExistEntry(b)];
    assert es[1..] == [es[1]];
  }

  /** Behind a full table a proof of one op loses its path. */
  lemma {:induction false} PathLost(n: nat, filler: ExistenceProof, p: ExistenceProof, op: InnerOp)
    requires n == MAX_TABLE && filler == Filler(n) && p.path == [op] && op.hash != 0 && p.key != []
    ensures var batch := Batch([ExistEntry(filler), ExistEntry(p)]);
            && GetExistProof(Decompress(batch), p.key) == Some(p)
            && GetExistProof(Decompress(CompressProof(batch)), p.key) == Some(p.(path := []))
  {
    var es := [ExistEntry(filler), ExistEntry(p)];
    var table := BatchTable(es);
    FullTable(n, filler, p, op);
    TwoEntries(es, table, filler, p);
    FarOpLosesPath(table, p);
    SecondFound(filler, p);
    SecondFound(DecompressExist(CompressedExistOf(table, filler), table), p.(path := []));
  }

  /** The proof of the first leaf of the Tendermint tree of two leaves. */
  lemma {:induction false} FirstLeafProof(c: Store) returns (p: ExistenceProof, op: InnerOp)
    requires c == TendermintStore(c.host)
    ensures |Leaves(TwoLeaves([1], [0]))| == 2 && p == ProofAt(c, TwoLeaves([1], [0]), 0)
    ensures p.key == [10] && p.path == [op] && op.hash == SHA256
    ensures p.leaf.Some? && p.leaf.value.prefix == [0] && p.leaf.value.hash == SHA256
    ensures VerifyExistence(c.host, p, c.Spec(), Root(c, TwoLeaves([1], [0])), [10], [1])
  {
    var t := TwoLeaves([1], [0]);
    var ts := t.children;
    TwoLeavesContents([1], [0]);
    TendermintReady(c);
    MembershipComplete(c, t, 0);
    assert ChildOf(ts, 0) == 0 && ts[..0] == [];
    PathStep(c, [1], ts, 0, 0, 0);
    p, op := ProofAt(c, t, 0), OpAt(c, [1], ts, 0);
  }

  /** Beyond 2^31 ops compression is not invisible: a batch proves a key of the Tendermint tree of two leaves, and
      the compressed batch does not. */
  lemma {:induction false} VerdictLost(c: Store)
    requires c == TendermintStore(KeepingHost())
    ensures var t := TwoLeaves([1], [0]);
            && |Leaves(t)| == 2
            && var batch := Batch([ExistEntry(Filler(MAX_TABLE)), ExistEntry(ProofAt(c, t, 0))]);
               && VerifyMembership(c.host, batch, c.Spec(), Root(c, t), [10], [1])
               && !VerifyMembership(c.host, CompressProof(batch), c.Spec(), Root(c, t), [10], [1])
  {
    var p, op := FirstLeafProof(c);
    PathLost(MAX_TABLE, Filler(MAX_TABLE), p, op);
    LeafIsNotRoot(c, p);
  }

  lemma {:induction false} LeafIsNotRoot(c: Store, p: ExistenceProof)
    requires c == TendermintStore(KeepingHost())
    requires p.leaf.Some? && p.leaf.value.prefix != [] && p.leaf.value.prefix[0] == 0 && p.leaf.value.hash == SHA256
    ensures CalculateRoot(c.host, p.(path := []), Some(c.inner)) != Some(Root(c, TwoLeaves([1], [0])))
  {
    var node := [1] + Slots(c, TwoLeaves([1], [0]).children);
    assert node[0] == 1 && c.NodeHash(node)[0] == 1;
    var image := LeafImage(c.host, p.leaf.value, p.key, p.value);
    if image.Some? {
      assert image.value[0] == 0 && c.NodeHash(image.value)[0] == 0;
    }
  }
}
