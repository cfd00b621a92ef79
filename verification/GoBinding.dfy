/** When the Go verifier panics, on any proof and against the root of a tree. */
module GoBinding {
  import opened Bytes
  import opened Ics23
  import opened Ops
  import opened Verify
  import opened Tree
  import opened Soundness
  import opened Binding
  import opened GoVerify

  /** Below the common steps at the root end, one of the two next ops fits no slot. */
  ghost predicate NoSlotAtSplit(spec: InnerSpec, left: seq<InnerOp>, right: seq<InnerOp>)
    decreases |left|
  {
    && left != [] && right != []
    && if SameStep(Last(left), Last(right)) then NoSlotAtSplit(spec, Init(left), Init(right))
       else OrderFromPadding(spec, Last(left)) == None || OrderFromPadding(spec, Last(right)) == None
  }

  /** Go's loop panics where Rust's does, and where `isLeftStep` meets an op of no slot. */
  lemma {:induction false} GoLoopPanics(c: Store, left: seq<InnerOp>, right: seq<InnerOp>)
    ensures GoLeftNeighbor(c.inner, left, right) == Panic <==>
            LeftNeighbor(c.inner, left, right) == Panic || NoSlotAtSplit(c.inner, left, right)
    decreases |left|
  {
    if left == [] || right == [] {
    } else if SameStep(Last(left), Last(right)) {
      GoLoopPanics(c, Init(left), Init(right));
    } else {
      SameOrder(c, Last(left), 0);
      SameOrder(c, Last(right), 0);
    }
  }

  /** Two accepted boundaries around the key, and either one path twice or an op of no slot at the split. */
  ghost predicate GoPanicCase(host: Host, k: BuiltInSpec, p: GoNonExistence, root: Bytes, key: Bytes) {
    && GoHolds(host, k, p, root, key) && p.left.Some? && p.right.Some?
    && var left, right := p.left.value.proof.path, p.right.value.proof.path;
       left == right || NoSlotAtSplit(RustSpec(k).innerSpec.value, left, right)
  }

  /** Only a proof with two boundaries can panic, and then the neighbour loop does. */
  lemma {:induction false} GoPanicIsLoops(host: Host, k: BuiltInSpec, p: GoNonExistence, root: Bytes, key: Bytes)
    ensures GoVerifyNonExistence(host, p, GoSpec(k), root, key) == Panic <==>
            && GoHolds(host, k, p, root, key) && p.left.Some? && p.right.Some?
            && GoLeftNeighbor(RustSpec(k).innerSpec.value, p.left.value.proof.path, p.right.value.proof.path) == Panic
  {
    GoLooksForRoom(host, k, p, root, key);
  }

  /** The Go verifier panics exactly when two accepted boundaries around the key walk one path, or differ first at
      an op that fits no slot, or two images of the proof itself collide. */
  lemma {:induction false} GoPanicIff(host: Host, k: BuiltInSpec, p: GoNonExistence, root: Bytes, key: Bytes)
    ensures || (GoVerifyNonExistence(host, p, GoSpec(k), root, key) == Panic <==> GoPanicCase(host, k, p, root, key))
            || Collides(BuiltInStore(host, k), NonExistenceImages(BuiltInStore(host, k), Unset(p)))
  {
    GoPanicIsLoops(host, k, p, root, key);
    if GoHolds(host, k, p, root, key) && p.left.Some? && p.right.Some? {
      var c := BuiltInStore(host, k);
      var left, right := p.left.value.proof.path, p.right.value.proof.path;
      GoLoopPanics(c, left, right);
      SamePathPanics(c.inner, left);
      PanicIffSamePath(c, Unset(p), root, key);
    }
  }

  // ---- Against the root of a tree -----------------------------------------------------------------------------

  /** The ops of a walk all have a slot. */
  lemma {:induction false} WalksHaveSlots(c: Store, t: Tree, leaf: LeafOp, e: Entry, left: seq<InnerOp>,
                                          u: Tree, leaf': LeafOp, e': Entry, right: seq<InnerOp>)
    requires Opens(c, t, leaf, e, left) && Opens(c, u, leaf', e', right)
    ensures !NoSlotAtSplit(c.inner, left, right)
    decreases |left|
  {
    if left == [] || right == [] {
    } else if SameStep(Last(left), Last(right)) {
      var k, m := OrderFromPadding(c.inner, Last(left)).value, OrderFromPadding(c.inner, Last(right)).value;
      WalksHaveSlots(c, t.children[k], leaf, e, Init(left), u.children[m], leaf', e', Init(right));
    }
  }

  /** Against the root of a well-formed tree a proof with readable leaves does not make Go panic, or the hash is
      broken on the images of tree and proof. */
  lemma {:induction false} GoNeverPanicsOnTrees(host: Host, k: BuiltInSpec, t: Tree, p: GoNonExistence, key: Bytes)
    requires WellFormed(BuiltInStore(host, k), t)
    requires BoundaryReadable(BuiltInStore(host, k), Side(p.left))
    requires BoundaryReadable(BuiltInStore(host, k), Side(p.right))
    ensures var c := BuiltInStore(host, k);
            || GoVerifyNonExistence(host, p, GoSpec(k), Root(c, t), key) != Panic
            || Broken(c, Images(c, t) + NonExistenceImages(c, Unset(p)))
  {
    var c := BuiltInStore(host, k);
    var s := Images(c, t) + NonExistenceImages(c, Unset(p));
    if !Broken(c, s) && GoVerifyNonExistence(host, p, GoSpec(k), Root(c, t), key) == Panic {
      GoPanicIff(host, k, p, Root(c, t), key);
      NonExistenceNeverPanics(c, Unset(p), Root(c, t), key);
      PanicIffSamePath(c, Unset(p), Root(c, t), key);
      BoundaryWalks(c, t, Side(p.left), s);
      BoundaryWalks(c, t, Side(p.right), s);
      var l, r := p.left.value.proof, p.right.value.proof;
      WalksHaveSlots(c, t, l.leaf.value, Entry(l.key, l.value), l.path, t, r.leaf.value, Entry(r.key, r.value), r.path);
    }
  }
}
