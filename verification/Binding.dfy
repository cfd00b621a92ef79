/** What accepted proofs say about each other: the neighbour loop never runs dry, a root and a slot
    sequence fix a proof, and no key is both present and absent. */
module Binding {
  import opened Bytes
  import opened Ics23
  import opened Ops
  import opened Verify
  import opened LeafReading
  import opened Tree
  import opened Soundness

  /** A leaf op the spec accepts, and its hash; its preimage need not have one reading. */
  ghost predicate LeafHashes(c: Store, leaf: LeafOp, e: Entry, leafHash: Bytes) {
    && LeafAccepted(c.host, c.Spec(), leaf)
    && LeafImage(c.host, leaf, e.key, e.value).Some?
    && leafHash == c.NodeHash(LeafImage(c.host, leaf, e.key, e.value).value)
  }

  /** An existence proof whose leaf and ops fit the spec and whose images lie in `s`. */
  ghost predicate Chain(c: Store, leaf: LeafOp, e: Entry, leafHash: Bytes, path: seq<InnerOp>, s: set<Image>) {
    && LeafHashes(c, leaf, e, leafHash) && AllEnsureInner(c, path)
    && FoldPath(c.host, Some(c.inner), leafHash, path).Some?
    && LeafImages(c, leaf, e.key, e.value) <= s && PathImages(c, leafHash, path) <= s
  }

  ghost function ChainRoot(c: Store, leafHash: Bytes, path: seq<InnerOp>): Option<Bytes> {
    FoldPath(c.host, Some(c.inner), leafHash, path)
  }

  /** An accepted proof is a chain. */
  lemma {:induction false} AcceptedIsChain(c: Store, p: ExistenceProof, root: Bytes, s: set<Image>)
    requires VerifyExistence(c.host, p, c.Spec(), root, p.key, p.value) && ProofImages(c, p) <= s
    ensures ApplyLeaf(c.host, p.leaf.value, p.key, p.value).Some?
    ensures var leafHash := ApplyLeaf(c.host, p.leaf.value, p.key, p.value).value;
            && Chain(c, p.leaf.value, Entry(p.key, p.value), leafHash, p.path, s)
            && ChainRoot(c, leafHash, p.path) == Some(root)
  {
    forall i | 0 <= i < |p.path|
      ensures EnsureInner(p.path[i], c.Spec())
    {
      assert EnsureStep(p.path[i], c.Spec(), i);
    }
  }

  /** One op off a chain. */
  lemma {:induction false} ChainInit(c: Store, leaf: LeafOp, e: Entry, leafHash: Bytes, path: seq<InnerOp>,
                                     s: set<Image>)
    requires Chain(c, leaf, e, leafHash, path, s) && path != []
    ensures Chain(c, leaf, e, leafHash, Init(path), s)
    ensures var child := ChainRoot(c, leafHash, Init(path)).value;
            && |child| == DigestLength(c.inner.hash)
            && NodeImage(InnerImage(Last(path), child)) in s
            && ChainRoot(c, leafHash, path) == Some(c.NodeHash(InnerImage(Last(path), child)))
            && !HasPrefix(c.leaf.prefix, InnerImage(Last(path), child))
  {
    assert EnsureInner(Last(path), c.Spec());
    var child := ChainRoot(c, leafHash, Init(path)).value;
    DigestHasLength(c.host, c.inner.hash, LeafImage(c.host, leaf, e.key, e.value).value);
    FoldLength(c, leafHash, Init(path));
    InnerImageStarts(c, Last(path), child);
  }

  /** With one root, a chain of a leaf alone meets no node, only a leaf with its preimage. */
  lemma {:induction false} LeafMeetsNoNode(c: Store, leaf: LeafOp, e: Entry, h: Bytes, leaf': LeafOp, e': Entry,
                                           h': Bytes, path: seq<InnerOp>, s: set<Image>)
    requires Chain(c, leaf, e, h, [], s) && Chain(c, leaf', e', h', path, s) && !Collides(c, s)
    requires ChainRoot(c, h', path) == Some(h)
    ensures path == []
    ensures LeafImage(c.host, leaf, e.key, e.value) == LeafImage(c.host, leaf', e'.key, e'.value)
  {
    var image := LeafImage(c.host, leaf, e.key, e.value).value;
    LeafImageStarts(c, leaf, e.key, e.value);
    if path != [] {
      ChainInit(c, leaf', e', h', path, s);
      SameNode(c, s, image, InnerImage(Last(path), ChainRoot(c, h', Init(path)).value));
    } else {
      SameNode(c, s, image, LeafImage(c.host, leaf', e'.key, e'.value).value);
    }
  }

  /** Readable leaves with one root are the same leaf. */
  lemma {:induction false} LeafMeetsLeaf(c: Store, leaf: LeafOp, e: Entry, h: Bytes, leaf': LeafOp, e': Entry,
                                         h': Bytes, path: seq<InnerOp>, s: set<Image>)
    requires Chain(c, leaf, e, h, [], s) && Chain(c, leaf', e', h', path, s) && !Collides(c, s)
    requires Readable(c.host, c.Spec(), leaf, e.key) && Readable(c.host, c.Spec(), leaf', e'.key)
    requires ChainRoot(c, h', path) == Some(h)
    ensures path == [] && leaf == leaf' && e == e'
  {
    LeafMeetsNoNode(c, leaf, e, h, leaf', e', h', path, s);
    LeafUniquelyReadable(c.host, c.Spec(), leaf, e.key, e.value, leaf', e'.key, e'.value);
    SameEntry(c, s, e.key, e.value, e'.key, e'.value);
  }

  // ---- When the neighbour loop runs dry ----------------------------------------------------------------------

  /** Chains with one root and one last op have one child under it. */
  lemma {:induction false} SameOpSameChild(c: Store, leaf: LeafOp, e: Entry, h: Bytes, left: seq<InnerOp>,
                                           leaf': LeafOp, e': Entry, h': Bytes, right: seq<InnerOp>, s: set<Image>)
    requires Chain(c, leaf, e, h, left, s) && Chain(c, leaf', e', h', right, s) && !Collides(c, s)
    requires ChainRoot(c, h, left) == ChainRoot(c, h', right)
    requires left != [] && right != [] && SameStep(Last(left), Last(right))
    ensures Last(left) == Last(right) && ChainRoot(c, h, Init(left)) == ChainRoot(c, h', Init(right))
  {
    ChainInit(c, leaf, e, h, left, s);
    ChainInit(c, leaf', e', h', right, s);
    assert EnsureInner(Last(left), c.Spec()) && EnsureInner(Last(right), c.Spec());
    var a, b := ChainRoot(c, h, Init(left)).value, ChainRoot(c, h', Init(right)).value;
    SameNode(c, s, InnerImage(Last(left), a), InnerImage(Last(right), b));
    SplitEqual3(Last(left).prefix, a, Last(left).suffix, Last(right).prefix, b, Last(right).suffix);
  }

  /** The loop empties a path only when the other is the same path. */
  lemma {:induction false} PanicMeansSamePath(c: Store, leaf: LeafOp, e: Entry, h: Bytes, left: seq<InnerOp>,
                                              leaf': LeafOp, e': Entry, h': Bytes, right: seq<InnerOp>,
                                              s: set<Image>)
    requires Chain(c, leaf, e, h, left, s) && Chain(c, leaf', e', h', right, s) && !Collides(c, s)
    requires ChainRoot(c, h, left) == ChainRoot(c, h', right)
    requires LeftNeighbor(c.inner, left, right) == Panic
    ensures left == right
    decreases |left|
  {
    if left == [] {
      LeafMeetsNoNode(c, leaf, e, h, leaf', e', h', right, s);
    } else if right == [] {
      LeafMeetsNoNode(c, leaf', e', h', leaf, e, h, left, s);
    } else {
      SameOpSameChild(c, leaf, e, h, left, leaf', e', h', right, s);
      ChainInit(c, leaf, e, h, left, s);
      ChainInit(c, leaf', e', h', right, s);
      PanicMeansSamePath(c, leaf, e, h, Init(left), leaf', e', h', Init(right), s);
      SameEnds(left, right);
    }
  }

  /** And on one path twice it always does. */
  lemma {:induction false} SamePathPanics(spec: InnerSpec, path: seq<InnerOp>)
    ensures LeftNeighbor(spec, path, path) == Panic
  {
    if path == [] {
    } else {
      SamePathPanics(spec, Init(path));
    }
  }

  /** Both boundaries are there, hold, bracket the key, and walk the same path. */
  ghost predicate SamePathTwice(c: Store, p: NonExistenceProof, root: Bytes, key: Bytes) {
    && p.left.Some? && p.right.Some?
    && BoundariesHold(c.host, p, c.Spec(), root, key)
    && p.left.value.path == p.right.value.path
  }

  lemma {:induction false} PanickingBoundaries(c: Store, l: ExistenceProof, r: ExistenceProof, root: Bytes,
                                               s: set<Image>)
    requires VerifyExistence(c.host, l, c.Spec(), root, l.key, l.value) && ProofImages(c, l) <= s
    requires VerifyExistence(c.host, r, c.Spec(), root, r.key, r.value) && ProofImages(c, r) <= s
    requires LeftNeighbor(c.inner, l.path, r.path) == Panic && !Collides(c, s)
    ensures l.path == r.path
  {
    AcceptedIsChain(c, l, root, s);
    AcceptedIsChain(c, r, root, s);
    PanicMeansSamePath(c, l.leaf.value, Entry(l.key, l.value), ApplyLeaf(c.host, l.leaf.value, l.key, l.value).value,
                       l.path, r.leaf.value, Entry(r.key, r.value),
                       ApplyLeaf(c.host, r.leaf.value, r.key, r.value).value, r.path, s);
  }

  /** `verify_non_existence` unwraps an empty vector exactly when two accepted boundaries around the key have
      one path, whatever the root and the spec's leaf rules, or two images of the proof itself collide. */
  lemma {:induction false} PanicIffSamePath(c: Store, p: NonExistenceProof, root: Bytes, key: Bytes)
    ensures || (VerifyNonExistence(c.host, p, c.Spec(), root, key) == Panic <==> SamePathTwice(c, p, root, key))
            || Collides(c, NonExistenceImages(c, p))
  {
    var s := NonExistenceImages(c, p);
    if SamePathTwice(c, p, root, key) {
      SamePathPanics(c.inner, p.left.value.path);
    } else if VerifyNonExistence(c.host, p, c.Spec(), root, key) == Panic && !Collides(c, s) {
      PanickingBoundaries(c, p.left.value, p.right.value, root, s);
    }
  }

  /** Readable chains with one root and one path are one chain. */
  lemma {:induction false} SamePathSameEntry(c: Store, leaf: LeafOp, e: Entry, h: Bytes, leaf': LeafOp, e': Entry,
                                             h': Bytes, path: seq<InnerOp>, s: set<Image>)
    requires Chain(c, leaf, e, h, path, s) && Chain(c, leaf', e', h', path, s) && !Collides(c, s)
    requires Readable(c.host, c.Spec(), leaf, e.key) && Readable(c.host, c.Spec(), leaf', e'.key)
    requires ChainRoot(c, h, path) == ChainRoot(c, h', path)
    ensures e == e'
    decreases |path|
  {
    if path == [] {
      LeafMeetsLeaf(c, leaf, e, h, leaf', e', h', path, s);
    } else {
      SameOpSameChild(c, leaf, e, h, path, leaf', e', h', path, s);
      ChainInit(c, leaf, e, h, path, s);
      ChainInit(c, leaf', e', h', path, s);
      SamePathSameEntry(c, leaf, e, h, leaf', e', h', Init(path), s);
    }
  }

  lemma {:induction false} SamePathSameKey(c: Store, l: ExistenceProof, r: ExistenceProof, root: Bytes, s: set<Image>)
    requires VerifyExistence(c.host, l, c.Spec(), root, l.key, l.value) && ProofImages(c, l) <= s
    requires VerifyExistence(c.host, r, c.Spec(), root, r.key, r.value) && ProofImages(c, r) <= s
    requires Readable(c.host, c.Spec(), l.leaf.value, l.key) && Readable(c.host, c.Spec(), r.leaf.value, r.key)
    requires l.path == r.path && !Collides(c, s)
    ensures l.key == r.key
  {
    AcceptedIsChain(c, l, root, s);
    AcceptedIsChain(c, r, root, s);
    SamePathSameEntry(c, l.leaf.value, Entry(l.key, l.value), ApplyLeaf(c.host, l.leaf.value, l.key, l.value).value,
                      r.leaf.value, Entry(r.key, r.value), ApplyLeaf(c.host, r.leaf.value, r.key, r.value).value,
                      l.path, s);
  }

  /** So with readable boundaries it never unwraps an empty vector, whatever the root, or two images of the
      proof itself collide. */
  lemma {:induction false} NonExistenceNeverPanics(c: Store, p: NonExistenceProof, root: Bytes, key: Bytes)
    requires BoundaryReadable(c, p.left) && BoundaryReadable(c, p.right)
    ensures VerifyNonExistence(c.host, p, c.Spec(), root, key) != Panic || Collides(c, NonExistenceImages(c, p))
  {
    var s := NonExistenceImages(c, p);
    PanicIffSamePath(c, p, root, key);
    if SamePathTwice(c, p, root, key) && !Collides(c, s) {
      var l, r := p.left.value, p.right.value;
      SamePathSameKey(c, l, r, root, s);
      LessTransitive(c.CompareKey(l.key), c.CompareKey(key), c.CompareKey(r.key));
      LessAsymmetric(c.CompareKey(l.key), c.CompareKey(r.key));
    }
  }

  // ---- A root and a slot sequence fix a proof ----------------------------------------------------------------

  /** Read from the root, the branch slots of `left` are the first branch slots of `right`. */
  ghost predicate UpperPart(c: Store, left: seq<InnerOp>, right: seq<InnerOp>)
    decreases |left|
  {
    left == [] ||
    (&& right != []
     && OrderFromPadding(c.inner, Last(left)).Some?
     && OrderFromPadding(c.inner, Last(left)) == OrderFromPadding(c.inner, Last(right))
     && UpperPart(c, Init(left), Init(right)))
  }

  /** Ops in one slot with one image are one op on one child. */
  lemma {:induction false} SlotFixesOp(c: Store, a: InnerOp, x: Bytes, b: InnerOp, y: Bytes)
    requires EnsureInner(a, c.Spec()) && EnsureInner(b, c.Spec())
    requires OrderFromPadding(c.inner, a).Some? && OrderFromPadding(c.inner, a) == OrderFromPadding(c.inner, b)
    requires |x| == |y| && InnerImage(a, x) == InnerImage(b, y)
    ensures a == b && x == y
  {
    assert |a.suffix| == |b.suffix|;
    assert |InnerImage(a, x)| == |a.prefix| + |x| + |a.suffix|;
    assert |InnerImage(b, y)| == |b.prefix| + |y| + |b.suffix|;
    SplitEqual3(a.prefix, x, a.suffix, b.prefix, y, b.suffix);
  }

  /** Two chains with one root that end in one slot end in one op on one child. */
  lemma {:induction false} LastOpsMeet(c: Store, leaf: LeafOp, e: Entry, h: Bytes, left: seq<InnerOp>,
                    leaf': LeafOp, e': Entry, h': Bytes, right: seq<InnerOp>, s: set<Image>)
    requires Chain(c, leaf, e, h, left, s) && Chain(c, leaf', e', h', right, s) && !Collides(c, s)
    requires ChainRoot(c, h, left) == ChainRoot(c, h', right)
    requires left != [] && right != []
    requires OrderFromPadding(c.inner, Last(left)).Some?
    requires OrderFromPadding(c.inner, Last(left)) == OrderFromPadding(c.inner, Last(right))
    ensures Last(left) == Last(right) && ChainRoot(c, h, Init(left)) == ChainRoot(c, h', Init(right))
  {
    ChainInit(c, leaf, e, h, left, s);
    ChainInit(c, leaf', e', h', right, s);
    var a, b := ChainRoot(c, h, Init(left)).value, ChainRoot(c, h', Init(right)).value;
    SameNode(c, s, InnerImage(Last(left), a), InnerImage(Last(right), b));
    assert EnsureInner(Last(left), c.Spec()) && EnsureInner(Last(right), c.Spec());
    SlotFixesOp(c, Last(left), a, Last(right), b);
  }

  lemma {:induction false} SlotsFixChain(c: Store, leaf: LeafOp, e: Entry, h: Bytes, left: seq<InnerOp>,
                                         leaf': LeafOp, e': Entry, h': Bytes, right: seq<InnerOp>, s: set<Image>)
    requires Chain(c, leaf, e, h, left, s) && Chain(c, leaf', e', h', right, s) && !Collides(c, s)
    requires Readable(c.host, c.Spec(), leaf, e.key) && Readable(c.host, c.Spec(), leaf', e'.key)
    requires ChainRoot(c, h, left) == ChainRoot(c, h', right)
    requires UpperPart(c, left, right)
    ensures left == right && leaf == leaf' && e == e'
    decreases |left|
  {
    if left == [] {
      LeafMeetsLeaf(c, leaf, e, h, leaf', e', h', right, s);
    } else {
      LastOpsMeet(c, leaf, e, h, left, leaf', e', h', right, s);
      ChainInit(c, leaf, e, h, left, s);
      ChainInit(c, leaf', e', h', right, s);
      SlotsFixChain(c, leaf, e, h, Init(left), leaf', e', h', Init(right), s);
      SameEnds(left, right);
    }
  }

  /** Tree-free binding: of two proofs accepted against one root, if the slots of the first, from the root
      down, begin the slots of the second, the proofs are the same proof. So one slot sequence has one
      proof, and no accepted path is a proper upper part of another; or two of their images collide. */
  lemma {:induction false} SlotsFixProof(c: Store, p: ExistenceProof, q: ExistenceProof, root: Bytes)
    requires VerifyExistence(c.host, p, c.Spec(), root, p.key, p.value)
    requires VerifyExistence(c.host, q, c.Spec(), root, q.key, q.value)
    requires Readable(c.host, c.Spec(), p.leaf.value, p.key) && Readable(c.host, c.Spec(), q.leaf.value, q.key)
    requires UpperPart(c, p.path, q.path)
    ensures p == q || Collides(c, ProofImages(c, p) + ProofImages(c, q))
  {
    var s := ProofImages(c, p) + ProofImages(c, q);
    if !Collides(c, s) {
      AcceptedIsChain(c, p, root, s);
      AcceptedIsChain(c, q, root, s);
      SlotsFixChain(c, p.leaf.value, Entry(p.key, p.value), ApplyLeaf(c.host, p.leaf.value, p.key, p.value).value,
                    p.path, q.leaf.value, Entry(q.key, q.value),
                    ApplyLeaf(c.host, q.leaf.value, q.key, q.value).value, q.path, s);
    }
  }

  // ---- Exclusivity and position binding ------------------------------------------------------------------------

  /** The leaf an accepted existence proof opens. */
  lemma {:induction false} AcceptedKeyIsLeaf(c: Store, t: Tree, p: ExistenceProof, key: Bytes, value: Bytes,
                                             s: set<Image>)
    returns (i: nat)
    requires WellFormed(c, t) && !Broken(c, s)
    requires VerifyExistence(c.host, p, c.Spec(), Root(c, t), key, value)
    requires Readable(c.host, c.Spec(), p.leaf.value, key)
    requires Images(c, t) <= s && ProofImages(c, p) <= s
    ensures i < |Leaves(t)| && Leaves(t)[i] == Entry(key, value)
  {
    if Broken(c, Images(c, t) + ProofImages(c, p)) {
      BrokenGrows(c, Images(c, t) + ProofImages(c, p), s);
    }
    MembershipSound(c, t, p, key, value);
    OpensAtIndex(c, t, p.leaf.value, Entry(key, value), p.path);
    i := Index(c, t, p.path);
  }

  /** Exclusivity: against the root of a strictly ordered tree, a key with an accepted existence proof and
      an accepted non-existence proof exhibits a broken hash. */
  lemma {:induction false} Exclusive(c: Store, t: Tree, p: ExistenceProof, q: NonExistenceProof, key: Bytes,
                                     value: Bytes)
    requires WellFormed(c, t) && Ordered(c, Leaves(t))
    requires VerifyExistence(c.host, p, c.Spec(), Root(c, t), key, value)
    requires VerifyNonExistence(c.host, q, c.Spec(), Root(c, t), key) == Pass
    requires Readable(c.host, c.Spec(), p.leaf.value, key)
    requires BoundaryReadable(c, q.left) && BoundaryReadable(c, q.right)
    ensures Broken(c, Images(c, t) + ProofImages(c, p) + NonExistenceImages(c, q))
  {
    var s := Images(c, t) + ProofImages(c, p) + NonExistenceImages(c, q);
    if !Broken(c, s) {
      var i := AcceptedKeyIsLeaf(c, t, p, key, value, s);
      NonMembershipSound(c, t, q, key);
      if Broken(c, Images(c, t) + NonExistenceImages(c, q)) {
        BrokenGrows(c, Images(c, t) + NonExistenceImages(c, q), s);
      }
    }
  }

  lemma {:induction false} OneIndex(c: Store, es: seq<Entry>, i: nat, j: nat)
    requires Ordered(c, es) && i < |es| && j < |es| && es[i].key == es[j].key
    ensures i == j
  {
    LessIrreflexive(c.CompareKey(es[i].key));
  }

  /** Position binding: against the root of a strictly ordered tree a key has one accepted value. */
  lemma {:induction false} OneValue(c: Store, t: Tree, p: ExistenceProof, q: ExistenceProof, key: Bytes, v: Bytes,
                                    w: Bytes)
    requires WellFormed(c, t) && Ordered(c, Leaves(t))
    requires VerifyExistence(c.host, p, c.Spec(), Root(c, t), key, v)
    requires VerifyExistence(c.host, q, c.Spec(), Root(c, t), key, w)
    requires Readable(c.host, c.Spec(), p.leaf.value, key) && Readable(c.host, c.Spec(), q.leaf.value, key)
    ensures v == w || Broken(c, Images(c, t) + ProofImages(c, p) + ProofImages(c, q))
  {
    var s := Images(c, t) + ProofImages(c, p) + ProofImages(c, q);
    if !Broken(c, s) {
      var i := AcceptedKeyIsLeaf(c, t, p, key, v, s);
      var j := AcceptedKeyIsLeaf(c, t, q, key, w, s);
      OneIndex(c, Leaves(t), i, j);
    }
  }
}
