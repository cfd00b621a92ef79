/** Proofs read off a tree are accepted: membership for every present key, neighbours for every absent one. */
module Completeness {
  import opened Bytes
  import opened Varints
  import opened Ics23
  import opened Ops
  import opened Specs
  import opened Verify
  import opened LeafReading
  import opened Tree
  import opened Soundness

  // ---- Reading a proof off a tree ------------------------------------------------------------------

  /** The child that holds leaf `j` of a forest. */
  ghost function ChildOf(ts: seq<Tree>, j: nat): (k: nat)
    requires j < |LeavesOf(ts)|
    ensures k < |ts|
    ensures |LeavesOf(ts[..k])| <= j < |LeavesOf(ts[..k])| + |Leaves(ts[k])|
    decreases |ts|
  {
    var first := |Leaves(ts[0])|;
    if j < first then 0
    else
      var k := ChildOf(ts[1..], j - first);
      assert ts[..k + 1][0] == ts[0] && ts[..k + 1][1..] == ts[1..][..k];
      k + 1
  }

  /** The ops from leaf `j` up to the root. */
  ghost function PathTo(c: Store, t: Tree, j: nat): seq<InnerOp>
    requires j < |Leaves(t)|
    decreases t
  {
    if t.Inner? then PathIn(c, t.header, t.children, j) else []
  }

  ghost function PathIn(c: Store, header: Bytes, ts: seq<Tree>, j: nat): seq<InnerOp>
    requires j < |LeavesOf(ts)|
    decreases ts
  {
    var k := ChildOf(ts, j);
    PathTo(c, ts[k], j - |LeavesOf(ts[..k])|) + [OpAt(c, header, ts, k)]
  }

  ghost function PrefixOf(t: Tree, j: nat): Bytes
    requires j < |Leaves(t)|
    decreases t
  {
    match t
    case Leaf(prefix, _, _) => prefix
    case Inner(_, ts) =>
      var k := ChildOf(ts, j);
      PrefixOf(ts[k], j - |LeavesOf(ts[..k])|)
  }

  /** The existence proof of leaf `j`. */
  ghost function ProofAt(c: Store, t: Tree, j: nat): ExistenceProof
    requires j < |Leaves(t)|
  {
    var e := Leaves(t)[j];
    ExistenceProof(e.key, e.value, Some(c.LeafOpFor(PrefixOf(t, j))), PathTo(c, t, j))
  }

  // ---- Trees a prover may hold ------------------------------------------------------------------------

  ghost function Height(t: Tree): nat
    decreases t
  {
    if t.Inner? then 1 + HeightOf(t.children) else 0
  }

  ghost function HeightOf(ts: seq<Tree>): nat
    decreases ts
  {
    if ts == [] then 0
    else if Height(ts[0]) > HeightOf(ts[1..]) then Height(ts[0])
    else HeightOf(ts[1..])
  }

  /** IAVL headers are three varints whose height is at least the node's height. */
  ghost predicate IavlHeaders(c: Store, t: Tree)
    decreases t
  {
    t.Inner? ==> NodeHeader(t.header, Height(t)) && AllIavlHeaders(c, t.children)
  }

  ghost predicate NodeHeader(header: Bytes, height: nat) {
    var h := ParseIavlHeader(header);
    h.IavlHeader? && h.height >= height && h.size >= 0 && h.version >= 0 && h.end == |header|
  }

  ghost predicate AllIavlHeaders(c: Store, ts: seq<Tree>)
    decreases ts
  {
    ts == [] || (IavlHeaders(c, ts[0]) && AllIavlHeaders(c, ts[1..]))
  }

  /** Every subtree that is not a placeholder holds a leaf. */
  ghost predicate Populated(t: Tree)
    decreases t
  {
    t.Inner? ==> Leaves(t) != [] && AllPopulated(t.children)
  }

  ghost predicate AllPopulated(ts: seq<Tree>)
    decreases ts
  {
    ts == [] || (Populated(ts[0]) && AllPopulated(ts[1..]))
  }

  /** What a prover's tree satisfies: well-formed, IAVL heights where the spec is IAVL's, and leaf depths
      inside the spec's window. */
  ghost predicate Provable(c: Store, t: Tree) {
    && WellFormed(c, t)
    && (IsIavlSpec(c.Spec()) ==> IavlHeaders(c, t))
    && forall j :: 0 <= j < |Leaves(t)| ==> EnsureDepth(|PathTo(c, t, j)|, c.Spec())
  }

  // ---- Existence proofs ------------------------------------------------------------------------------

  lemma {:induction false} ChildHeight(ts: seq<Tree>, k: nat)
    requires k < |ts|
    ensures Height(ts[k]) <= HeightOf(ts)
  {
    if k == 0 {
    } else {
      ChildHeight(ts[1..], k - 1);
    }
  }

  lemma {:induction false} ChildIavl(c: Store, ts: seq<Tree>, k: nat)
    requires AllIavlHeaders(c, ts) && k < |ts|
    ensures IavlHeaders(c, ts[k])
  {
    if k == 0 {
    } else {
      ChildIavl(c, ts[1..], k - 1);
    }
  }

  lemma {:induction false} ChildPopulated(ts: seq<Tree>, k: nat)
    requires AllPopulated(ts) && k < |ts|
    ensures Populated(ts[k])
  {
    if k == 0 {
    } else {
      ChildPopulated(ts[1..], k - 1);
    }
  }

  /** An honest node's op matches its own branch, and with its child it is the node's image. */
  lemma {:induction false} NodeOpBranch(c: Store, header: Bytes, ts: seq<Tree>, k: nat)
    requires WellFormed(c, Inner(header, ts)) && k < |ts|
    ensures MatchesBranch(c, OpAt(c, header, ts, k), k)
    ensures OrderFromPadding(c.inner, OpAt(c, header, ts, k)) == Some(k)
    ensures InnerImage(OpAt(c, header, ts, k), Root(c, ts[k])) == header + Slots(c, ts)
  {
    NodeOpSizes(c, header, ts, k);
    OpMatches(c, OpAt(c, header, ts, k), |header|, k);
    NodeOpImage(c, header, ts, k);
  }

  lemma {:induction false} MultipleMod(a: nat, m: nat)
    requires m > 0
    ensures (a * m) % m == 0
  {
    ModUnique(a * m, a, 0, m);
  }

  /** The leaf prefix does not start an honest node's op. */
  lemma {:induction false} NodeOpPrefix(c: Store, header: Bytes, ts: seq<Tree>, k: nat)
    requires WellFormed(c, Inner(header, ts)) && k < |ts|
    ensures !HasPrefix(c.leaf.prefix, OpAt(c, header, ts, k).prefix)
  {
    var op, image := OpAt(c, header, ts, k), header + Slots(c, ts);
    NodeOpImage(c, header, ts, k);
    assert op.prefix == image[..|op.prefix|];
    assert |c.leaf.prefix| <= |op.prefix| ==> op.prefix[..|c.leaf.prefix|] == image[..|c.leaf.prefix|];
  }

  /** An honest node's op passes `ensure_inner`. */
  lemma {:induction false} NodeOpAccepted(c: Store, header: Bytes, ts: seq<Tree>, k: nat)
    requires WellFormed(c, Inner(header, ts)) && k < |ts|
    ensures EnsureInner(OpAt(c, header, ts, k), c.Spec())
  {
    var op, size, n := OpAt(c, header, ts, k), c.SlotSize(), c.Arity();
    NodeOpSizes(c, header, ts, k);
    NodeOpPrefix(c, header, ts, k);
    WidestPrefix(n, k, size);
    MultipleMod(n - 1 - k, size);
    var widest := c.inner.maxPrefixLength + (n - 1) * size;
    assert widest == c.inner.maxPrefixLength + (|c.inner.childOrder| - 1) * c.inner.childSize;
    assert Usize(widest) == widest && Usize(c.inner.childSize) == size;
  }

  lemma {:induction false} WidestPrefix(n: nat, k: nat, size: nat)
    requires k < n
    ensures 0 <= k * size <= (n - 1) * size <= n * size
  {
    assert (n - 1) * size == k * size + (n - 1 - k) * size;
    assert (n - 1 - k) * size >= 0 && n * size == (n - 1) * size + size;
  }

  /** The bytes between an IAVL node's header and the hash of child `k`. */
  lemma {:induction false} IavlBetween(c: Store, header: Bytes, ts: seq<Tree>, k: nat)
    requires WellFormed(c, Inner(header, ts)) && k < |ts| && IsIavlSpec(c.Spec())
    ensures (k == 0 || k == 1) && |Slots(c, ts[..k]) + c.tag| == if k == 0 then 1 else 34
  {
    IavlShape(c);
    SublistWellFormed(c, ts, 0, k);
    SlotsSize(c, ts[..k]);
  }

  /** After its three varints the prefix of an honest IAVL node's op has one byte for the left child, and
      thirty-four for the right. */
  lemma {:induction false} NodeOpIavl(c: Store, header: Bytes, ts: seq<Tree>, k: nat, layer: nat)
    requires WellFormed(c, Inner(header, ts)) && k < |ts|
    requires IsIavlSpec(c.Spec()) && NodeHeader(header, layer)
    ensures k == 0 || k == 1
    ensures EnsureIavlPrefix(OpAt(c, header, ts, k).prefix, layer) == Some(if k == 0 then 1 else 34)
  {
    IavlBetween(c, header, ts, k);
    Assoc(header, Slots(c, ts[..k]), c.tag);
    IavlRemainder(header, Slots(c, ts[..k]) + c.tag, layer);
  }

  lemma {:induction false} IavlShape(c: Store)
    requires IsIavlSpec(c.Spec())
    ensures c.SlotSize() == 33 && |c.tag| == 1 && c.Arity() == 2 && c.inner.hash == SHA256
  {
  }

  lemma {:induction false} IavlRemainder(header: Bytes, after: Bytes, layer: nat)
    requires NodeHeader(header, layer)
    ensures EnsureIavlPrefix(header + after, layer) == Some(|after|)
  {
    HeaderAppend(header, after);
  }

  ghost predicate AllSteps(spec: ProofSpec, path: seq<InnerOp>) {
    forall i :: 0 <= i < |path| ==> EnsureStep(path[i], spec, i)
  }

  lemma {:induction false} StepsAppend(spec: ProofSpec, path: seq<InnerOp>, op: InnerOp)
    requires AllSteps(spec, path) && EnsureStep(op, spec, |path|)
    ensures AllSteps(spec, path + [op])
  {
  }

  /** The path to a leaf below a node, one step up from its child. */
  lemma {:induction false} PathStep(c: Store, header: Bytes, ts: seq<Tree>, j: nat, k: nat, local: nat)
    requires j < |LeavesOf(ts)| && k == ChildOf(ts, j) && local == j - |LeavesOf(ts[..k])|
    ensures PathTo(c, Inner(header, ts), j) == PathTo(c, ts[k], local) + [OpAt(c, header, ts, k)]
  {
    assert PathTo(c, Inner(header, ts), j) == PathIn(c, header, ts, j);
  }

  /** Every step read off a tree is accepted at its place. */
  lemma {:induction false} StepsAccepted(c: Store, t: Tree, j: nat)
    requires WellFormed(c, t) && (IsIavlSpec(c.Spec()) ==> IavlHeaders(c, t))
    requires j < |Leaves(t)|
    ensures |PathTo(c, t, j)| <= Height(t)
    ensures AllSteps(c.Spec(), PathTo(c, t, j))
    decreases t
  {
    if !t.Inner? {
    } else {
      var k := ChildOf(t.children, j);
      var local := j - |LeavesOf(t.children[..k])|;
      ChildWellFormed(c, t.children, k);
      if IsIavlSpec(c.Spec()) {
        ChildIavl(c, t.children, k);
      }
      StepsAccepted(c, t.children[k], local);
      StepsBelow(c, t.header, t.children, j, k, local);
    }
  }

  lemma {:induction false} StepsBelow(c: Store, header: Bytes, ts: seq<Tree>, j: nat, k: nat, local: nat)
    requires WellFormed(c, Inner(header, ts))
    requires IsIavlSpec(c.Spec()) ==> NodeHeader(header, Height(Inner(header, ts)))
    requires j < |LeavesOf(ts)| && k == ChildOf(ts, j) && local == j - |LeavesOf(ts[..k])|
    requires |PathTo(c, ts[k], local)| <= Height(ts[k]) && AllSteps(c.Spec(), PathTo(c, ts[k], local))
    ensures |PathTo(c, Inner(header, ts), j)| <= Height(Inner(header, ts))
    ensures AllSteps(c.Spec(), PathTo(c, Inner(header, ts), j))
  {
    ChildHeight(ts, k);
    PathStep(c, header, ts, j, k, local);
    NodeStep(c, header, ts, k, |PathTo(c, ts[k], local)|);
    StepsAppend(c.Spec(), PathTo(c, ts[k], local), OpAt(c, header, ts, k));
  }

  lemma {:induction false} NodeStep(c: Store, header: Bytes, ts: seq<Tree>, k: nat, idx: nat)
    requires WellFormed(c, Inner(header, ts)) && k < |ts|
    requires IsIavlSpec(c.Spec()) ==> NodeHeader(header, Height(Inner(header, ts)))
    requires idx + 1 <= Height(Inner(header, ts))
    ensures EnsureStep(OpAt(c, header, ts, k), c.Spec(), idx)
  {
    NodeOpAccepted(c, header, ts, k);
    if IsIavlSpec(c.Spec()) {
      IavlShape(c);
      NodeOpIavl(c, header, ts, k, idx + 1);
    }
  }

  /** The leaf a path leads to, one step up from its child. */
  lemma {:induction false} LeafStep(header: Bytes, ts: seq<Tree>, j: nat, k: nat, local: nat)
    requires j < |LeavesOf(ts)| && k == ChildOf(ts, j) && local == j - |LeavesOf(ts[..k])|
    ensures Leaves(Inner(header, ts))[j] == Leaves(ts[k])[local]
    ensures PrefixOf(Inner(header, ts), j) == PrefixOf(ts[k], local)
  {
    LeavesAround(ts, k);
    MiddleIndex(LeavesOf(ts[..k]), Leaves(ts[k]), LeavesOf(ts[k + 1..]), local);
  }

  /** Folding the path read off a tree from the leaf's hash gives the root. */
  lemma {:induction false} PathFolds(c: Store, t: Tree, j: nat)
    requires WellFormed(c, t) && j < |Leaves(t)|
    ensures LeafAccepted(c.host, c.Spec(), c.LeafOpFor(PrefixOf(t, j)))
    ensures Folds(c, t, PathTo(c, t, j), Leaves(t)[j], PrefixOf(t, j))
    decreases t
  {
    if !t.Inner? {
    } else {
      var k := ChildOf(t.children, j);
      var local := j - |LeavesOf(t.children[..k])|;
      ChildWellFormed(c, t.children, k);
      LeafStep(t.header, t.children, j, k, local);
      PathFolds(c, t.children[k], local);
      FoldsBelow(c, t.header, t.children, j, k, local, Leaves(t)[j], PrefixOf(t, j));
    }
  }

  ghost predicate Folds(c: Store, t: Tree, path: seq<InnerOp>, e: Entry, prefix: Bytes) {
    var image := LeafImage(c.host, c.LeafOpFor(prefix), e.key, e.value);
    image.Some? && FoldPath(c.host, Some(c.inner), c.NodeHash(image.value), path) == Some(Root(c, t))
  }

  lemma {:induction false} FoldsBelow(c: Store, header: Bytes, ts: seq<Tree>, j: nat, k: nat, local: nat,
                                      e: Entry, prefix: Bytes)
    requires WellFormed(c, Inner(header, ts)) && j < |LeavesOf(ts)|
    requires k == ChildOf(ts, j) && local == j - |LeavesOf(ts[..k])|
    requires Folds(c, ts[k], PathTo(c, ts[k], local), e, prefix)
    ensures Folds(c, Inner(header, ts), PathTo(c, Inner(header, ts), j), e, prefix)
  {
    PathStep(c, header, ts, j, k, local);
    NodeOpImage(c, header, ts, k);
    ChildWellFormed(c, ts, k);
    RootSize(c, ts[k]);
    DigestHasLength(c.host, c.inner.hash, header + Slots(c, ts));
    LastOpFolds(c, PathTo(c, ts[k], local), OpAt(c, header, ts, k), e, prefix, Root(c, ts[k]), header + Slots(c, ts));
  }

  lemma {:induction false} LastOpFolds(c: Store, path: seq<InnerOp>, op: InnerOp, e: Entry, prefix: Bytes,
                                       child: Bytes, image: Bytes)
    requires op.hash == c.inner.hash && child != []
    requires LeafImage(c.host, c.LeafOpFor(prefix), e.key, e.value).Some?
    requires InnerImage(op, child) == image && |c.NodeHash(image)| == DigestLength(c.inner.hash)
    requires var leafHash := c.NodeHash(LeafImage(c.host, c.LeafOpFor(prefix), e.key, e.value).value);
             FoldPath(c.host, Some(c.inner), leafHash, path) == Some(child)
    ensures var leafHash := c.NodeHash(LeafImage(c.host, c.LeafOpFor(prefix), e.key, e.value).value);
            FoldPath(c.host, Some(c.inner), leafHash, path + [op]) == Some(c.NodeHash(image))
  {
    assert Init(path + [op]) == path && Last(path + [op]) == op;
  }

  /** A leaf op, steps and depth the spec accepts, over a path that folds to the root, make an accepted proof. */
  lemma {:induction false} ExistenceAccepted(c: Store, t: Tree, e: Entry, prefix: Bytes, path: seq<InnerOp>)
    requires LeafAccepted(c.host, c.Spec(), c.LeafOpFor(prefix)) && AllSteps(c.Spec(), path)
    requires EnsureDepth(|path|, c.Spec()) && Folds(c, t, path, e, prefix)
    ensures VerifyExistence(c.host, ExistenceProof(e.key, e.value, Some(c.LeafOpFor(prefix)), path), c.Spec(),
                            Root(c, t), e.key, e.value)
  {
  }

  /** The proof read off a tree for a leaf is accepted exactly when the leaf's depth is in the spec's window,
      and the window counts only when `min_depth` is set. Any number of children. */
  lemma {:induction false} DepthDecides(c: Store, t: Tree, j: nat)
    requires WellFormed(c, t) && (IsIavlSpec(c.Spec()) ==> IavlHeaders(c, t)) && j < |Leaves(t)|
    ensures VerifyExistence(c.host, ProofAt(c, t, j), c.Spec(), Root(c, t), Leaves(t)[j].key, Leaves(t)[j].value)
        <==> c.minDepth == 0 || Usize(c.minDepth) <= |PathTo(c, t, j)| <= Usize(c.maxDepth)
  {
    if EnsureDepth(|PathTo(c, t, j)|, c.Spec()) {
      StepsAccepted(c, t, j);
      PathFolds(c, t, j);
      ExistenceAccepted(c, t, Leaves(t)[j], PrefixOf(t, j), PathTo(c, t, j));
    }
  }

  /** Membership completeness: the proof read off a tree for any leaf is accepted. */
  lemma {:induction false} MembershipComplete(c: Store, t: Tree, j: nat)
    requires Provable(c, t) && j < |Leaves(t)|
    ensures VerifyExistence(c.host, ProofAt(c, t, j), c.Spec(), Root(c, t), Leaves(t)[j].key, Leaves(t)[j].value)
  {
    DepthDecides(c, t, j);
  }

  /** One op further up, a path read off a tree hashes one more node. */
  lemma {:induction false} ImagesOneUp(c: Store, leafHash: Bytes, path: seq<InnerOp>, op: InnerOp, child: Bytes)
    requires FoldPath(c.host, Some(c.inner), leafHash, path) == Some(child)
    ensures PathImages(c, leafHash, path + [op]) == PathImages(c, leafHash, path) + {NodeImage(InnerImage(op, child))}
  {
    assert Init(path + [op]) == path && Last(path + [op]) == op;
  }

  lemma {:induction false} HonestLeafImages(c: Store, t: Tree, j: nat, prefix: Bytes, e: Entry)
    requires j < |Leaves(t)| && prefix == PrefixOf(t, j) && e == Leaves(t)[j]
    ensures LeafImages(c, c.LeafOpFor(prefix), e.key, e.value) <= Images(c, t)
    decreases t
  {
    if !t.Inner? {
    } else {
      var k := ChildOf(t.children, j);
      var local := j - |LeavesOf(t.children[..k])|;
      LeafStep(t.header, t.children, j, k, local);
      ChildImages(c, t.children, k);
      HonestLeafImages(c, t.children[k], local, prefix, e);
    }
  }

  lemma {:induction false} HonestPathImages(c: Store, t: Tree, j: nat, leafHash: Bytes)
    requires WellFormed(c, t) && j < |Leaves(t)|
    requires FoldsFrom(c, leafHash, PrefixOf(t, j), Leaves(t)[j])
    ensures PathImages(c, leafHash, PathTo(c, t, j)) <= Images(c, t)
    decreases t
  {
    if !t.Inner? {
    } else {
      var k := ChildOf(t.children, j);
      var local := j - |LeavesOf(t.children[..k])|;
      ChildWellFormed(c, t.children, k);
      LeafStep(t.header, t.children, j, k, local);
      ChildImages(c, t.children, k);
      HonestPathImages(c, t.children[k], local, leafHash);
      PathFolds(c, t.children[k], local);
      ImagesBelow(c, t.header, t.children, j, k, local, leafHash);
    }
  }

  /** `leafHash` is the hash of this leaf. */
  ghost predicate FoldsFrom(c: Store, leafHash: Bytes, prefix: Bytes, e: Entry) {
    var image := LeafImage(c.host, c.LeafOpFor(prefix), e.key, e.value);
    image.Some? && leafHash == c.NodeHash(image.value)
  }

  lemma {:induction false} ImagesBelow(c: Store, header: Bytes, ts: seq<Tree>, j: nat, k: nat, local: nat,
                                       leafHash: Bytes)
    requires j < |LeavesOf(ts)| && k == ChildOf(ts, j) && local == j - |LeavesOf(ts[..k])|
    requires FoldPath(c.host, Some(c.inner), leafHash, PathTo(c, ts[k], local)) == Some(Root(c, ts[k]))
    requires PathImages(c, leafHash, PathTo(c, ts[k], local)) <= ImagesOf(c, ts)
    ensures PathImages(c, leafHash, PathTo(c, Inner(header, ts), j)) <= Images(c, Inner(header, ts))
  {
    PathStep(c, header, ts, j, k, local);
    NodeOpImage(c, header, ts, k);
    ImagesOneUp(c, leafHash, PathTo(c, ts[k], local), OpAt(c, header, ts, k), Root(c, ts[k]));
  }

  /** A proof read off a tree hashes nothing the tree does not. */
  lemma {:induction false} HonestImages(c: Store, t: Tree, j: nat)
    requires WellFormed(c, t) && j < |Leaves(t)|
    ensures ProofImages(c, ProofAt(c, t, j)) <= Images(c, t)
  {
    PathFolds(c, t, j);
    var image := LeafImage(c.host, c.LeafOpFor(PrefixOf(t, j)), Leaves(t)[j].key, Leaves(t)[j].value).value;
    HonestLeafImages(c, t, j, PrefixOf(t, j), Leaves(t)[j]);
    HonestPathImages(c, t, j, c.NodeHash(image));
  }

  // ---- Outermost paths --------------------------------------------------------------------------------

  /** No placeholder follows a subtree, except as the last child. */
  ghost predicate PackedNode(ts: seq<Tree>) {
    forall i, j :: 0 <= i < j && j + 1 < |ts| && ts[j] == Empty ==> ts[i] == Empty
  }

  ghost predicate Packed(t: Tree)
    decreases t
  {
    t.Inner? ==> PackedNode(t.children) && AllPacked(t.children)
  }

  ghost predicate AllPacked(ts: seq<Tree>)
    decreases ts
  {
    ts == [] || (Packed(ts[0]) && AllPacked(ts[1..]))
  }

  /** Trees in which the neighbour checks see every gap. */
  ghost predicate Neighborly(c: Store, t: Tree) {
    WellFormed(c, t) && Populated(t) && Packed(t)
  }

  lemma {:induction false} PackedFollows(ts: seq<Tree>, k: nat)
    requires PackedNode(ts) && k + 2 < |ts| && ts[k] != Empty
    ensures ts[k + 1] != Empty
  {
  }

  lemma {:induction false} ChildPacked(ts: seq<Tree>, k: nat)
    requires AllPacked(ts) && k < |ts|
    ensures Packed(ts[k])
  {
    if k == 0 {
    } else {
      ChildPacked(ts[1..], k - 1);
    }
  }

  /** With at most two children a node, or without placeholders, every tree is packed. */
  lemma {:induction false} AlwaysPacked(c: Store, t: Tree)
    requires WellFormed(c, t) && (c.Arity() <= 2 || !c.HasPlaceholder())
    ensures Packed(t)
    decreases t, 0
  {
    if t.Inner? {
      forall j | 0 < j && j + 1 < |t.children|
        ensures t.children[j] != Empty
      {
        ChildWellFormed(c, t.children, j);
      }
      AllAlwaysPacked(c, t.children);
    }
  }

  lemma {:induction false} AllAlwaysPacked(c: Store, ts: seq<Tree>)
    requires AllWellFormed(c, ts) && (c.Arity() <= 2 || !c.HasPlaceholder())
    ensures AllPacked(ts)
    decreases ts
  {
    if ts == [] {
    } else {
      AlwaysPacked(c, ts[0]);
      AllAlwaysPacked(c, ts[1..]);
    }
  }

  lemma {:induction false} LeaflessAreEmpty(ts: seq<Tree>)
    requires AllPopulated(ts) && LeavesOf(ts) == []
    ensures forall i :: 0 <= i < |ts| ==> ts[i] == Empty
  {
    if ts == [] {
    } else {
      assert Leaves(ts[0]) == [] && LeavesOf(ts[1..]) == [];
      LeaflessAreEmpty(ts[1..]);
      forall i | 0 <= i < |ts|
        ensures ts[i] == Empty
      {
        assert i > 0 ==> ts[i] == ts[1..][i - 1];
      }
    }
  }

  lemma {:induction false} SublistPopulated(ts: seq<Tree>, lo: nat, hi: nat)
    requires AllPopulated(ts) && lo <= hi <= |ts|
    ensures AllPopulated(ts[lo..hi])
    decreases hi - lo
  {
    if lo == hi {
    } else {
      ChildPopulated(ts, lo);
      SublistPopulated(ts, lo + 1, hi);
      assert ts[lo..hi][1..] == ts[lo + 1..hi];
    }
  }

  /** Children without leaves, next to one with a leaf, are placeholders. */
  lemma {:induction false} GapIsPlaceholders(c: Store, header: Bytes, ts: seq<Tree>, lo: nat, hi: nat)
    requires Neighborly(c, Inner(header, ts)) && lo <= hi <= |ts| && LeavesOf(ts[lo..hi]) == []
    ensures forall i :: lo <= i < hi ==> ts[i] == Empty
    ensures lo < hi ==> c.HasPlaceholder() && c.tag == []
  {
    SublistPopulated(ts, lo, hi);
    LeaflessAreEmpty(ts[lo..hi]);
    forall i | lo <= i < hi
      ensures ts[i] == Empty
    {
      assert ts[lo..hi][i - lo] == ts[i];
    }
    if lo < hi {
      ChildWellFormed(c, ts, lo);
    }
  }

  /** The right-hand test sees one placeholder. */
  lemma {:induction false} SeesRightPlaceholder(c: Store, op: InnerOp)
    requires c.HasPlaceholder() && c.Arity() >= 2
    requires OrderFromPadding(c.inner, op) == Some(c.Arity() - 2) && op.suffix == c.inner.emptyChild
    ensures RightBranchesAreEmpty(c.inner, op)
  {
    var size := Usize(c.inner.childSize);
    assert size == c.SlotSize();
    assert SlotAt(op.suffix, 0, 1, size, 0) == op.suffix;
  }

  lemma {:induction false} LastSlotIsRightMost(c: Store, op: InnerOp)
    requires MatchesBranch(c, op, c.Arity() - 1)
    ensures StepIsRightMost(c, op)
  {
  }

  lemma {:induction false} PastEmptyIsRightMost(c: Store, op: InnerOp)
    requires RightBranchesAreEmpty(c.inner, op)
    ensures StepIsRightMost(c, op)
  {
    PaddingOf(c, c.Arity() - 1);
  }

  /** With no leaves to its right, an honest node's op is a rightmost step. */
  lemma {:induction false} RightMostStepComplete(c: Store, header: Bytes, ts: seq<Tree>, k: nat)
    requires Neighborly(c, Inner(header, ts)) && k < |ts| && Leaves(ts[k]) != [] && LeavesOf(ts[k + 1..]) == []
    ensures StepIsRightMost(c, OpAt(c, header, ts, k))
  {
    if k + 1 < |ts| {
      PastRightPlaceholder(c, header, ts, k);
      PastEmptyIsRightMost(c, OpAt(c, header, ts, k));
    } else {
      NodeOpBranch(c, header, ts, k);
      LastSlotIsRightMost(c, OpAt(c, header, ts, k));
    }
  }

  lemma {:induction false} PastRightPlaceholder(c: Store, header: Bytes, ts: seq<Tree>, k: nat)
    requires Neighborly(c, Inner(header, ts)) && k + 1 < |ts| && Leaves(ts[k]) != [] && LeavesOf(ts[k + 1..]) == []
    ensures RightBranchesAreEmpty(c.inner, OpAt(c, header, ts, k))
  {
    OnlyOneRight(c, header, ts, k);
    OneEmptySlot(c);
    NodeOpBranch(c, header, ts, k);
    SeesRightPlaceholder(c, OpAt(c, header, ts, k));
  }

  lemma {:induction false} OnlyOneRight(c: Store, header: Bytes, ts: seq<Tree>, k: nat)
    requires Neighborly(c, Inner(header, ts)) && k + 1 < |ts| && Leaves(ts[k]) != [] && LeavesOf(ts[k + 1..]) == []
    ensures k + 2 == |ts| && ts[k + 1..] == [Empty] && c.HasPlaceholder() && c.tag == []
  {
    assert ts[k + 1..] == ts[k + 1..|ts|];
    GapIsPlaceholders(c, header, ts, k + 1, |ts|);
    assert ts[k + 1] == Empty && ts[k] != Empty;
  }

  lemma {:induction false} OneEmptySlot(c: Store)
    requires c.tag == []
    ensures Slots(c, [Empty]) == c.inner.emptyChild
  {
    assert [Empty][1..] == [] && Slots(c, []) == [];
  }

  /** The slots of placeholder children all hold the placeholder. */
  lemma {:induction false} EmptyChildrenFill(c: Store, data: Bytes, from: nat, ts: seq<Tree>)
    requires AllWellFormed(c, ts) && c.tag == [] && forall i :: 0 <= i < |ts| ==> ts[i] == Empty
    requires from + |ts| * c.SlotSize() <= |data|
    requires data[from..from + |ts| * c.SlotSize()] == Slots(c, ts)
    ensures SlotsAreEmpty(data, from, |ts|, c.SlotSize(), c.inner.emptyChild)
  {
    forall i | 0 <= i < |ts|
      ensures SlotAt(data, from, |ts|, c.SlotSize(), i) == c.inner.emptyChild
    {
      SlotOf(c, data, from, ts, i);
    }
  }

  /** With no leaves to its left, an honest node's op is a leftmost step. */
  lemma {:induction false} LeftMostStepComplete(c: Store, header: Bytes, ts: seq<Tree>, k: nat)
    requires Neighborly(c, Inner(header, ts)) && k < |ts| && LeavesOf(ts[..k]) == []
    ensures GetPadding(c.inner, 0).Some?
    ensures LeftMostStep(c.inner, GetPadding(c.inner, 0).value, OpAt(c, header, ts, k))
  {
    PaddingOf(c, 0);
    if k > 0 {
      PastLeftPlaceholders(c, header, ts, k);
    } else {
      NodeOpBranch(c, header, ts, k);
    }
  }

  lemma {:induction false} PastLeftPlaceholders(c: Store, header: Bytes, ts: seq<Tree>, k: nat)
    requires Neighborly(c, Inner(header, ts)) && 0 < k < |ts| && LeavesOf(ts[..k]) == []
    ensures LeftBranchesAreEmpty(c.inner, OpAt(c, header, ts, k))
  {
    var op, left := OpAt(c, header, ts, k), ts[..k];
    assert left == ts[0..k];
    GapIsPlaceholders(c, header, ts, 0, k);
    NodeOpBranch(c, header, ts, k);
    SublistWellFormed(c, ts, 0, k);
    SlotsSize(c, left);
    assert op.prefix == header + Slots(c, left);
    EmptyChildrenFill(c, op.prefix, |header|, left);
    SeesLeftPlaceholders(c, op, k, |header|);
  }

  /** The left-hand test sees any number of placeholders. */
  lemma {:induction false} SeesLeftPlaceholders(c: Store, op: InnerOp, k: nat, from: nat)
    requires OrderFromPadding(c.inner, op) == Some(k) && k > 0 && |op.prefix| == from + k * c.SlotSize()
    requires SlotsAreEmpty(op.prefix, from, k, c.SlotSize(), c.inner.emptyChild)
    ensures LeftBranchesAreEmpty(c.inner, op)
  {
    assert Usize(c.inner.childSize) == c.SlotSize();
  }

  ghost predicate StepIsRightMost(c: Store, op: InnerOp) {
    GetPadding(c.inner, c.Arity() - 1).Some? && RightMostStep(c.inner, GetPadding(c.inner, c.Arity() - 1).value, op)
  }

  ghost predicate StepIsLeftMost(c: Store, op: InnerOp) {
    GetPadding(c.inner, 0).Some? && LeftMostStep(c.inner, GetPadding(c.inner, 0).value, op)
  }

  lemma {:induction false} RightMostAppend(c: Store, path: seq<InnerOp>, op: InnerOp)
    requires RightMost(c.inner, path) && StepIsRightMost(c, op)
    ensures RightMost(c.inner, path + [op])
  {
  }

  lemma {:induction false} LeftMostAppend(c: Store, path: seq<InnerOp>, op: InnerOp)
    requires LeftMost(c.inner, path) && StepIsLeftMost(c, op)
    ensures LeftMost(c.inner, path + [op])
  {
  }

  lemma {:induction false} ChildNeighborly(c: Store, header: Bytes, ts: seq<Tree>, k: nat)
    requires Neighborly(c, Inner(header, ts)) && k < |ts|
    ensures Neighborly(c, ts[k])
  {
    ChildWellFormed(c, ts, k);
    ChildPopulated(ts, k);
    ChildPacked(ts, k);
  }

  lemma {:induction false} LeavesSplit(ts: seq<Tree>, lo: nat, hi: nat)
    requires lo <= hi <= |ts|
    ensures LeavesOf(ts[..hi]) == LeavesOf(ts[..lo]) + LeavesOf(ts[lo..hi])
  {
    assert ts[..hi] == ts[..lo] + ts[lo..hi];
    LeavesAppend(ts[..lo], ts[lo..hi]);
  }

  lemma {:induction false} RightMostBelow(c: Store, header: Bytes, ts: seq<Tree>, j: nat, k: nat, local: nat)
    requires Neighborly(c, Inner(header, ts)) && j < |LeavesOf(ts)| && k == ChildOf(ts, j)
    requires local == j - |LeavesOf(ts[..k])| && LeavesOf(ts[k + 1..]) == []
    requires RightMost(c.inner, PathTo(c, ts[k], local))
    ensures RightMost(c.inner, PathTo(c, Inner(header, ts), j))
  {
    PathStep(c, header, ts, j, k, local);
    RightMostStepComplete(c, header, ts, k);
    RightMostAppend(c, PathTo(c, ts[k], local), OpAt(c, header, ts, k));
  }

  lemma {:induction false} LeftMostBelow(c: Store, header: Bytes, ts: seq<Tree>, k: nat)
    requires Neighborly(c, Inner(header, ts)) && 0 < |LeavesOf(ts)| && k == ChildOf(ts, 0)
    requires LeftMost(c.inner, PathTo(c, ts[k], 0))
    ensures LeftMost(c.inner, PathTo(c, Inner(header, ts), 0))
  {
    PathStep(c, header, ts, 0, k, 0);
    LeftMostStepComplete(c, header, ts, k);
    LeftMostAppend(c, PathTo(c, ts[k], 0), OpAt(c, header, ts, k));
  }

  /** The path to the last leaf passes `ensure_right_most`. */
  lemma {:induction false} LastIsRightMost(c: Store, t: Tree, j: nat)
    requires Neighborly(c, t) && j + 1 == |Leaves(t)|
    ensures RightMost(c.inner, PathTo(c, t, j))
    decreases t
  {
    if t.Inner? {
      var k := ChildOf(t.children, j);
      var local := j - |LeavesOf(t.children[..k])|;
      LeavesAround(t.children, k);
      ChildNeighborly(c, t.header, t.children, k);
      LastIsRightMost(c, t.children[k], local);
      RightMostBelow(c, t.header, t.children, j, k, local);
    } else {
      PaddingOf(c, c.Arity() - 1);
    }
  }

  /** The path to the first leaf passes `ensure_left_most`. */
  lemma {:induction false} FirstIsLeftMost(c: Store, t: Tree)
    requires Neighborly(c, t) && 0 < |Leaves(t)|
    ensures LeftMost(c.inner, PathTo(c, t, 0))
    decreases t
  {
    if t.Inner? {
      var k := ChildOf(t.children, 0);
      ChildNeighborly(c, t.header, t.children, k);
      FirstIsLeftMost(c, t.children[k]);
      LeftMostBelow(c, t.header, t.children, k);
    } else {
      PaddingOf(c, 0);
    }
  }

  // ---- Neighbouring paths --------------------------------------------------------------------------------

  /** Consecutive leaves of a forest lie in one child, or end one child and start the next with leaves. */
  lemma {:induction false} ConsecutiveChildren(ts: seq<Tree>, j: nat)
    requires j + 1 < |LeavesOf(ts)|
    ensures var k, m := ChildOf(ts, j), ChildOf(ts, j + 1);
            && k <= m
            && (k < m ==> && LeavesOf(ts[k + 1..m]) == []
                          && j + 1 == |LeavesOf(ts[..k])| + |Leaves(ts[k])|
                          && j + 1 == |LeavesOf(ts[..m])|)
  {
    var k, m := ChildOf(ts, j), ChildOf(ts, j + 1);
    LeavesBeforeNext(ts, k);
    LeavesBeforeNext(ts, m);
    if m < k {
      LeavesSplit(ts, m + 1, k);
    } else if k < m {
      LeavesSplit(ts, k + 1, m);
    }
  }

  /** Ops for different children of a node differ, and those of adjacent children are a left step. */
  lemma {:induction false} AdjacentOps(c: Store, header: Bytes, ts: seq<Tree>, k: nat)
    requires WellFormed(c, Inner(header, ts)) && k + 1 < |ts|
    ensures !SameStep(OpAt(c, header, ts, k), OpAt(c, header, ts, k + 1))
    ensures IsLeftStep(c.inner, OpAt(c, header, ts, k), OpAt(c, header, ts, k + 1))
  {
    NodeOpBranch(c, header, ts, k);
    NodeOpBranch(c, header, ts, k + 1);
    NodeOpSizes(c, header, ts, k);
    NodeOpSizes(c, header, ts, k + 1);
    var a, size := c.Arity() - 2 - k, c.SlotSize();
    assert (a + 1) * size == a * size + size;
  }

  lemma {:induction false} PopCommonStep(c: Store, p: seq<InnerOp>, q: seq<InnerOp>, op: InnerOp)
    ensures LeftNeighbor(c.inner, p + [op], q + [op]) == LeftNeighbor(c.inner, p, q)
  {
    assert Init(p + [op]) == p && Init(q + [op]) == q;
  }

  lemma {:induction false} AtTheSplit(c: Store, p: seq<InnerOp>, a: InnerOp, q: seq<InnerOp>, b: InnerOp)
    requires !SameStep(a, b) && IsLeftStep(c.inner, a, b) && RightMost(c.inner, p) && LeftMost(c.inner, q)
    ensures LeftNeighbor(c.inner, p + [a], q + [b]) == Pass
  {
    assert Init(p + [a]) == p && Init(q + [b]) == q;
  }

  /** The last leaf of one child and the first leaf of the next are neighbours. */
  lemma {:induction false} NeighborsAcrossSplit(c: Store, header: Bytes, ts: seq<Tree>, k: nat)
    requires Neighborly(c, Inner(header, ts)) && k + 1 < |ts| && Leaves(ts[k]) != [] && Leaves(ts[k + 1]) != []
    ensures LeftNeighbor(c.inner, PathTo(c, ts[k], |Leaves(ts[k])| - 1) + [OpAt(c, header, ts, k)],
                         PathTo(c, ts[k + 1], 0) + [OpAt(c, header, ts, k + 1)]) == Pass
  {
    ChildNeighborly(c, header, ts, k);
    ChildNeighborly(c, header, ts, k + 1);
    AdjacentOps(c, header, ts, k);
    LastIsRightMost(c, ts[k], |Leaves(ts[k])| - 1);
    FirstIsLeftMost(c, ts[k + 1]);
    AtTheSplit(c, PathTo(c, ts[k], |Leaves(ts[k])| - 1), OpAt(c, header, ts, k),
               PathTo(c, ts[k + 1], 0), OpAt(c, header, ts, k + 1));
  }

  lemma {:induction false} WithinChild(c: Store, header: Bytes, ts: seq<Tree>, j: nat, n: nat, k: nat, a: nat, b: nat)
    requires n == j + 1 && n < |LeavesOf(ts)| && ChildOf(ts, j) == k == ChildOf(ts, n)
    requires a == j - |LeavesOf(ts[..k])| && b == a + 1
    ensures LeftNeighbor(c.inner, PathTo(c, Inner(header, ts), j), PathTo(c, Inner(header, ts), n)) ==
            LeftNeighbor(c.inner, PathTo(c, ts[k], a), PathTo(c, ts[k], b))
  {
    PathStep(c, header, ts, j, k, a);
    PathStep(c, header, ts, n, k, b);
    PopCommonStep(c, PathTo(c, ts[k], a), PathTo(c, ts[k], b), OpAt(c, header, ts, k));
  }

  lemma {:induction false} AcrossChildren(c: Store, header: Bytes, ts: seq<Tree>, j: nat, n: nat, k: nat, m: nat,
                                          a: nat)
    requires Neighborly(c, Inner(header, ts)) && n == j + 1 && n < |LeavesOf(ts)|
    requires ChildOf(ts, j) == k && ChildOf(ts, n) == m == k + 1
    requires a == j - |LeavesOf(ts[..k])| && a + 1 == |Leaves(ts[k])| && n == |LeavesOf(ts[..m])|
    ensures LeftNeighbor(c.inner, PathTo(c, Inner(header, ts), j), PathTo(c, Inner(header, ts), n)) == Pass
  {
    PathStep(c, header, ts, j, k, a);
    PathStep(c, header, ts, n, m, 0);
    NeighborsAcrossSplit(c, header, ts, k);
  }

  /** In a packed node nothing stands between two subtrees with no leaves between them. */
  lemma {:induction false} NextToEachOther(c: Store, header: Bytes, ts: seq<Tree>, k: nat, m: nat)
    requires Neighborly(c, Inner(header, ts)) && k < m < |ts|
    requires Leaves(ts[k]) != [] && LeavesOf(ts[k + 1..m]) == []
    ensures m == k + 1
  {
    if k + 1 < m {
      PackedFollows(ts, k);
      GapIsPlaceholders(c, header, ts, k + 1, m);
    }
  }

  /** The paths to consecutive leaves pass `ensure_left_neighbor`. */
  lemma {:induction false} ConsecutiveAreNeighbors(c: Store, t: Tree, j: nat, n: nat)
    requires Neighborly(c, t) && n == j + 1 && n < |Leaves(t)|
    ensures LeftNeighbor(c.inner, PathTo(c, t, j), PathTo(c, t, n)) == Pass
    decreases t
  {
    var k, m := ChildOf(t.children, j), ChildOf(t.children, n);
    var a := j - |LeavesOf(t.children[..k])|;
    if k == m {
      ChildNeighborly(c, t.header, t.children, k);
      ConsecutiveAreNeighbors(c, t.children[k], a, a + 1);
      WithinChild(c, t.header, t.children, j, n, k, a, a + 1);
    } else {
      FromChildToChild(c, t.header, t.children, j, n, k, m);
    }
  }

  lemma {:induction false} FromChildToChild(c: Store, header: Bytes, ts: seq<Tree>, j: nat, n: nat, k: nat, m: nat)
    requires Neighborly(c, Inner(header, ts)) && n == j + 1 && n < |LeavesOf(ts)|
    requires ChildOf(ts, j) == k != m == ChildOf(ts, n)
    ensures LeftNeighbor(c.inner, PathTo(c, Inner(header, ts), j), PathTo(c, Inner(header, ts), n)) == Pass
  {
    ConsecutiveChildren(ts, j);
    NextToEachOther(c, header, ts, k, m);
    AcrossChildren(c, header, ts, j, n, k, m, j - |LeavesOf(ts[..k])|);
  }

  // ---- Non-existence proofs --------------------------------------------------------------------------------

  /** The number of leaves before `key`, for a strictly ordered list without it. */
  ghost function Rank(c: Store, es: seq<Entry>, key: Bytes): (r: nat)
    ensures r <= |es|
    ensures forall i :: 0 <= i < r ==> KeyLess(c.host, c.Spec(), es[i].key, key)
    ensures r < |es| ==> !KeyLess(c.host, c.Spec(), es[r].key, key)
  {
    if es == [] || !KeyLess(c.host, c.Spec(), es[0].key, key) then 0 else 1 + Rank(c, es[1..], key)
  }

  /** The neighbour proof for a key that is not in the tree. */
  ghost function NeighborProof(c: Store, t: Tree, key: Bytes): NonExistenceProof {
    var r := Rank(c, Leaves(t), key);
    NonExistenceProof(key,
                      if r > 0 then Some(ProofAt(c, t, r - 1)) else None,
                      if r < |Leaves(t)| then Some(ProofAt(c, t, r)) else None)
  }

  lemma {:induction false} RankSeparates(c: Store, es: seq<Entry>, key: Bytes, r: nat)
    requires r == Rank(c, es, key) && Absent(c, es, key)
    ensures r > 0 ==> KeyLess(c.host, c.Spec(), es[r - 1].key, key)
    ensures r < |es| ==> KeyLess(c.host, c.Spec(), key, es[r].key)
  {
    if r < |es| {
      LessTotal(c.CompareKey(key), c.CompareKey(es[r].key));
    }
  }

  /** Each side of the neighbour proof is accepted. */
  lemma {:induction false} SideAccepted(c: Store, t: Tree, j: nat, p: ExistenceProof)
    requires Provable(c, t) && j < |Leaves(t)| && p == ProofAt(c, t, j)
    ensures BoundaryHolds(c.host, Some(p), c.Spec(), Root(c, t))
    ensures p.key == Leaves(t)[j].key && p.path == PathTo(c, t, j)
  {
    MembershipComplete(c, t, j);
  }

  /** The paths on both sides of position `r`, as far as there are any. */
  ghost predicate Around(c: Store, t: Tree, r: nat, n: nat, left: Option<ExistenceProof>,
                         right: Option<ExistenceProof>)
  {
    && r <= n == |Leaves(t)|
    && (if r > 0 then left.Some? && left.value.path == PathTo(c, t, r - 1) else left == None)
    && (if r < n then right.Some? && right.value.path == PathTo(c, t, r) else right == None)
  }

  lemma {:induction false} NoRoomAfterLast(c: Store, t: Tree, r: nat, n: nat, left: Option<ExistenceProof>,
                                           right: Option<ExistenceProof>)
    requires Neighborly(c, t) && Around(c, t, r, n, left, right) && 0 < r == n
    ensures NoRoom(c.inner, left, right) == Pass
  {
    LastIsRightMost(c, t, r - 1);
  }

  lemma {:induction false} NoRoomBeforeFirst(c: Store, t: Tree, r: nat, n: nat, left: Option<ExistenceProof>,
                                             right: Option<ExistenceProof>)
    requires Neighborly(c, t) && Around(c, t, r, n, left, right) && 0 == r < n
    ensures NoRoom(c.inner, left, right) == Pass
  {
    FirstIsLeftMost(c, t);
  }

  lemma {:induction false} NoRoomBetween(c: Store, t: Tree, r: nat, n: nat, left: Option<ExistenceProof>,
                                         right: Option<ExistenceProof>)
    requires Neighborly(c, t) && Around(c, t, r, n, left, right) && 0 < r < n
    ensures NoRoom(c.inner, left, right) == Pass
  {
    ConsecutiveAreNeighbors(c, t, r - 1, r);
  }

  /** They leave no room. */
  lemma {:induction false} NoRoomAt(c: Store, t: Tree, r: nat, n: nat, left: Option<ExistenceProof>,
                                    right: Option<ExistenceProof>)
    requires Neighborly(c, t) && Around(c, t, r, n, left, right) && n > 0
    ensures NoRoom(c.inner, left, right) == Pass
  {
    if r == n {
      NoRoomAfterLast(c, t, r, n, left, right);
    } else if r == 0 {
      NoRoomBeforeFirst(c, t, r, n, left, right);
    } else {
      NoRoomBetween(c, t, r, n, left, right);
    }
  }

  /** Boundaries that hold around the key and leave no room are accepted. */
  lemma {:induction false} Accepted(host: Host, p: NonExistenceProof, spec: ProofSpec, root: Bytes, key: Bytes,
                                    inner: InnerSpec)
    requires spec.innerSpec == Some(inner) && NoRoom(inner, p.left, p.right) == Pass
    requires BoundaryHolds(host, p.left, spec, root) && BoundaryHolds(host, p.right, spec, root)
    requires p.left.Some? ==> KeyLess(host, spec, p.left.value.key, key)
    requires p.right.Some? ==> KeyLess(host, spec, key, p.right.value.key)
    ensures VerifyNonExistence(host, p, spec, root, key) == Pass
  {
  }

  /** Non-membership completeness: in a packed tree with a leaf, where every other subtree holds one, the
      neighbour proof of every absent key is accepted, past placeholders and at both ends. Every binary tree
      is packed. */
  lemma {:induction false} NonMembershipComplete(c: Store, t: Tree, key: Bytes)
    requires Provable(c, t) && Neighborly(c, t) && Leaves(t) != [] && Absent(c, Leaves(t), key)
    ensures VerifyNonExistence(c.host, NeighborProof(c, t, key), c.Spec(), Root(c, t), key) == Pass
  {
    var r, p := Rank(c, Leaves(t), key), NeighborProof(c, t, key);
    RankSeparates(c, Leaves(t), key, r);
    SidesHold(c, t, r, p.left, p.right);
    NoRoomAt(c, t, r, |Leaves(t)|, p.left, p.right);
    Accepted(c.host, p, c.Spec(), Root(c, t), key, c.inner);
  }

  lemma {:induction false} SidesHold(c: Store, t: Tree, r: nat, left: Option<ExistenceProof>,
                                     right: Option<ExistenceProof>)
    requires Provable(c, t) && r <= |Leaves(t)|
    requires left == if r > 0 then Some(ProofAt(c, t, r - 1)) else None
    requires right == if r < |Leaves(t)| then Some(ProofAt(c, t, r)) else None
    ensures BoundaryHolds(c.host, left, c.Spec(), Root(c, t)) && BoundaryHolds(c.host, right, c.Spec(), Root(c, t))
    ensures r > 0 ==> left.value.key == Leaves(t)[r - 1].key && left.value.path == PathTo(c, t, r - 1)
    ensures r < |Leaves(t)| ==> right.value.key == Leaves(t)[r].key && right.value.path == PathTo(c, t, r)
  {
    if r > 0 {
      SideAccepted(c, t, r - 1, left.value);
    }
    if r < |Leaves(t)| {
      SideAccepted(c, t, r, right.value);
    }
  }
}
