/** What an accepted proof says about the tree behind the root: existence proofs are walks in it, and
    accepted neighbours leave no room between them. */
module Soundness {
  import opened Bytes
  import opened Ics23
  import opened Ops
  import opened Verify
  import opened LeafReading
  import opened Tree

  // ---- Slot alignment ------------------------------------------------------------------------------

  /** The op has the lengths of branch `k`. */
  ghost predicate MatchesBranch(c: Store, op: InnerOp, k: nat) {
    GetPadding(c.inner, k).Some? && HasPadding(op, GetPadding(c.inner, k).value)
  }

  lemma {:induction false} PaddingValues(spec: InnerSpec, branch: nat, n: nat, size: nat)
    requires n == |spec.childOrder| && branch < n && branch in spec.childOrder && size == spec.childSize
    requires 0 <= spec.minPrefixLength <= spec.maxPrefixLength && spec.maxPrefixLength + n * size < 0x8000_0000
    ensures GetPadding(spec, branch).Some?
    ensures var pad := GetPadding(spec, branch).value;
            && pad.minPrefix == branch * size + spec.minPrefixLength
            && pad.maxPrefix == branch * size + spec.maxPrefixLength
            && pad.suffix == (n - 1 - branch) * size
  {
    var prefix := branch * size;
    SlotInRange(n, branch, size);
    assert 0 <= prefix + spec.minPrefixLength <= prefix + spec.maxPrefixLength < 0x8000_0000;
  }

  lemma {:induction false} PaddingOf(c: Store, k: nat)
    requires k < c.Arity()
    ensures GetPadding(c.inner, k).Some?
    ensures var pad := GetPadding(c.inner, k).value;
            && pad.minPrefix == k * c.SlotSize() + c.inner.minPrefixLength
            && pad.maxPrefix == k * c.SlotSize() + c.inner.maxPrefixLength
            && pad.suffix == (c.Arity() - 1 - k) * c.SlotSize()
  {
    assert c.inner.childOrder[k] == k;
    PaddingValues(c.inner, k, c.Arity(), c.SlotSize());
  }

  lemma {:induction false} SameMultiple(a: nat, b: nat, m: nat)
    requires m > 0 && a * m == b * m
    ensures a == b
  {
    assert (a - b) * m == 0;
  }

  /** Distinct branches demand distinct suffix lengths. */
  lemma {:induction false} SuffixTellsBranch(c: Store, op: InnerOp, j: nat, k: nat)
    requires j < c.Arity() && k < c.Arity()
    requires MatchesBranch(c, op, j) && MatchesBranch(c, op, k)
    ensures j == k
  {
    PaddingOf(c, j);
    PaddingOf(c, k);
    var size, a, b := c.SlotSize(), c.Arity() - 1 - j, c.Arity() - 1 - k;
    assert |op.suffix| == a * size == b * size;
    SameMultiple(a, b, size);
  }

  lemma {:induction false} OrderScan(c: Store, op: InnerOp, b: nat, k: nat)
    requires b <= k < c.Arity() && MatchesBranch(c, op, k)
    ensures OrderFrom(c.inner, op, b) == Some(k)
    decreases k - b
  {
    PaddingOf(c, b);
    if b == k {
    } else {
      if MatchesBranch(c, op, b) {
        SuffixTellsBranch(c, op, b, k);
      }
      OrderScan(c, op, b + 1, k);
    }
  }

  /** Lengths alone place the child of an accepted op on a slot boundary of an honest node. */
  lemma {:induction false} SlotArithmetic(prefix: nat, digest: nat, suffix: nat, header: nat, tag: nat, n: nat,
                                          min: int, max: int)
    returns (k: nat)
    requires digest > 0 && suffix % (tag + digest) == 0
    requires min <= prefix && min <= header + tag <= max < min + tag + digest
    requires prefix + digest + suffix == header + n * (tag + digest)
    ensures k < n && prefix == header + k * (tag + digest) + tag && suffix == (n - 1 - k) * (tag + digest)
  {
    var size := tag + digest;
    var m := suffix / size;
    assert suffix == m * size;
    var i := n - 1 - m;
    assert n * size == i * size + m * size + size;
    assert prefix == header + i * size + tag;
    assert i < 0 ==> i * size <= -size;
    k := i;
  }

  lemma {:induction false} OpMatches(c: Store, op: InnerOp, headerSize: nat, k: nat)
    requires k < c.Arity()
    requires c.inner.minPrefixLength <= headerSize + |c.tag| <= c.inner.maxPrefixLength
    requires |op.prefix| == headerSize + k * c.SlotSize() + |c.tag|
    requires |op.suffix| == (c.Arity() - 1 - k) * c.SlotSize()
    ensures MatchesBranch(c, op, k) && OrderFromPadding(c.inner, op) == Some(k)
  {
    PaddingOf(c, k);
    OrderScan(c, op, 0, k);
  }

  /** An honest node's op has the lengths of its slot. */
  lemma {:induction false} NodeOpSizes(c: Store, header: Bytes, ts: seq<Tree>, k: nat)
    requires WellFormed(c, Inner(header, ts)) && k < |ts|
    ensures |OpAt(c, header, ts, k).prefix| == |header| + k * c.SlotSize() + |c.tag|
    ensures |OpAt(c, header, ts, k).suffix| == (c.Arity() - 1 - k) * c.SlotSize()
  {
    SublistWellFormed(c, ts, 0, k);
    SublistWellFormed(c, ts, k + 1, |ts|);
    assert ts[k + 1..] == ts[k + 1..|ts|];
    SlotsSize(c, ts[..k]);
    SlotsSize(c, ts[k + 1..]);
  }

  /** With its child an honest node's op is the node's image. */
  lemma {:induction false} NodeOpImage(c: Store, header: Bytes, ts: seq<Tree>, k: nat)
    requires k < |ts|
    ensures InnerImage(OpAt(c, header, ts, k), Root(c, ts[k])) == header + Slots(c, ts)
  {
    SlotsAround(c, ts, k);
    Regroup(header, Slots(c, ts[..k]), c.tag, Root(c, ts[k]), Slots(c, ts[k + 1..]));
  }

  /** An op that has the lengths of child `k` and an honest node's image is that node's op for `k`. */
  lemma {:induction false} OpIsNodes(c: Store, header: Bytes, ts: seq<Tree>, op: InnerOp, child: Bytes, k: nat)
    requires WellFormed(c, Inner(header, ts)) && k < |ts| && op.hash == c.inner.hash
    requires |op.prefix| == |header| + k * c.SlotSize() + |c.tag|
    requires |child| == DigestLength(c.inner.hash)
    requires InnerImage(op, child) == header + Slots(c, ts)
    ensures op == OpAt(c, header, ts, k) && child == Root(c, ts[k])
  {
    var node := OpAt(c, header, ts, k);
    NodeOpSizes(c, header, ts, k);
    NodeOpImage(c, header, ts, k);
    ChildWellFormed(c, ts, k);
    RootSize(c, ts[k]);
    SplitEqual3(op.prefix, child, op.suffix, node.prefix, Root(c, ts[k]), node.suffix);
  }

  /** Slot alignment: an accepted op with an honest node's image is that node's op for exactly one child,
      `order_from_padding` names that child, and no other branch's padding matches. */
  lemma {:induction false} Aligned(c: Store, header: Bytes, ts: seq<Tree>, op: InnerOp, child: Bytes)
    requires EnsureInner(op, c.Spec()) && WellFormed(c, Inner(header, ts))
    requires |child| == DigestLength(c.inner.hash)
    requires InnerImage(op, child) == header + Slots(c, ts)
    ensures OrderFromPadding(c.inner, op).Some?
    ensures var k := OrderFromPadding(c.inner, op).value;
            && op == OpAt(c, header, ts, k)
            && child == Root(c, ts[k])
            && forall b: nat :: b < c.Arity() && MatchesBranch(c, op, b) ==> b == k
  {
    SlotsSize(c, ts);
    assert |InnerImage(op, child)| == |op.prefix| + |child| + |op.suffix|;
    var k := SlotArithmetic(|op.prefix|, |child|, |op.suffix|, |header|, |c.tag|, c.Arity(),
                            c.inner.minPrefixLength, c.inner.maxPrefixLength);
    OpMatches(c, op, |header|, k);
    OpIsNodes(c, header, ts, op, child, k);
    forall b: nat | b < c.Arity() && MatchesBranch(c, op, b)
      ensures b == k
    {
      SuffixTellsBranch(c, op, b, k);
    }
  }

  // ---- Images that cannot be confused ------------------------------------------------------------------

  lemma {:induction false} LeafImageStarts(c: Store, leaf: LeafOp, key: Bytes, value: Bytes)
    requires LeafAccepted(c.host, c.Spec(), leaf) && LeafImage(c.host, leaf, key, value).Some?
    ensures HasPrefix(c.leaf.prefix, LeafImage(c.host, leaf, key, value).value)
  {
    assert leaf.prefix <= LeafImage(c.host, leaf, key, value).value;
    var image := LeafImage(c.host, leaf, key, value).value;
    assert image[..|c.leaf.prefix|] == leaf.prefix[..|c.leaf.prefix|];
  }

  lemma {:induction false} InnerImageStarts(c: Store, op: InnerOp, child: Bytes)
    requires EnsureInner(op, c.Spec())
    ensures !HasPrefix(c.leaf.prefix, InnerImage(op, child))
  {
    assert InnerImage(op, child)[..|c.leaf.prefix|] == op.prefix[..|c.leaf.prefix|];
  }

  lemma {:induction false} SameNode(c: Store, s: set<Image>, a: Bytes, b: Bytes)
    requires !Collides(c, s) && NodeImage(a) in s && NodeImage(b) in s
    requires c.NodeHash(a) == c.NodeHash(b)
    ensures a == b
  {
    if a != b {
      assert Collision(c, NodeImage(a), NodeImage(b));
    }
  }

  lemma {:induction false} NotPlaceholder(c: Store, s: set<Image>, a: Bytes)
    requires !Broken(c, s) && NodeImage(a) in s
    ensures c.tag + c.NodeHash(a) != c.inner.emptyChild
    ensures c.tag == [] ==> c.NodeHash(a) != c.inner.emptyChild
  {
    assert !PlaceholderHit(c, NodeImage(a));
    assert [] + c.NodeHash(a) == c.NodeHash(a);
  }

  lemma {:induction false} SameEntry(c: Store, s: set<Image>, key: Bytes, value: Bytes, key': Bytes, value': Bytes)
    requires !Collides(c, s)
    requires KeyImage(key) in s && KeyImage(key') in s && ValueImage(value) in s && ValueImage(value') in s
    requires DoHash(c.host, c.leaf.prehashKey, key) == DoHash(c.host, c.leaf.prehashKey, key')
    requires DoHash(c.host, c.leaf.prehashValue, value) == DoHash(c.host, c.leaf.prehashValue, value')
    ensures key == key' && value == value'
  {
    if key != key' {
      assert Collision(c, KeyImage(key), KeyImage(key'));
    }
    if value != value' {
      assert Collision(c, ValueImage(value), ValueImage(value'));
    }
  }

  ghost predicate AllEnsureInner(c: Store, path: seq<InnerOp>) {
    forall i :: 0 <= i < |path| ==> EnsureInner(path[i], c.Spec())
  }

  lemma {:induction false} FoldLength(c: Store, leafHash: Bytes, path: seq<InnerOp>)
    requires AllEnsureInner(c, path) && |leafHash| == DigestLength(c.inner.hash)
    requires FoldPath(c.host, Some(c.inner), leafHash, path).Some?
    ensures |FoldPath(c.host, Some(c.inner), leafHash, path).value| == DigestLength(c.inner.hash)
  {
    if path == [] {
    } else {
      var child := FoldPath(c.host, Some(c.inner), leafHash, Init(path)).value;
      assert EnsureInner(Last(path), c.Spec());
      DigestHasLength(c.host, c.inner.hash, InnerImage(Last(path), child));
    }
  }

  // ---- Existence proofs are walks -----------------------------------------------------------------------

  /** `path`, read from its root end, is step by step the node ops of one walk in `t` down to the leaf
      holding `e`. */
  ghost predicate Opens(c: Store, t: Tree, leaf: LeafOp, e: Entry, path: seq<InnerOp>)
    decreases |path|
  {
    if path == [] then t == Leaf(leaf.prefix, e.key, e.value) && leaf == c.LeafOpFor(leaf.prefix)
    else
      var k := OrderFromPadding(c.inner, Last(path));
      && t.Inner? && k.Some? && k.value < |t.children|
      && Last(path) == OpAt(c, t.header, t.children, k.value)
      && Opens(c, t.children[k.value], leaf, e, Init(path))
  }

  /** A leaf op and its position-independent facts, as the walk lemma needs them. */
  ghost predicate LeafFits(c: Store, leaf: LeafOp, e: Entry, leafHash: Bytes) {
    && LeafAccepted(c.host, c.Spec(), leaf)
    && Readable(c.host, c.Spec(), leaf, e.key)
    && LeafImage(c.host, leaf, e.key, e.value).Some?
    && leafHash == c.NodeHash(LeafImage(c.host, leaf, e.key, e.value).value)
  }

  lemma {:induction false} LeafOpens(c: Store, t: Tree, leaf: LeafOp, e: Entry, leafHash: Bytes, s: set<Image>)
    requires WellFormed(c, t) && LeafFits(c, leaf, e, leafHash)
    requires !Broken(c, s) && Images(c, t) <= s && LeafImages(c, leaf, e.key, e.value) <= s
    requires leafHash == Root(c, t)
    ensures Opens(c, t, leaf, e, [])
  {
    var image := LeafImage(c.host, leaf, e.key, e.value).value;
    LeafImageStarts(c, leaf, e.key, e.value);
    match t {
      case Leaf(prefix, key, value) =>
        var image' := LeafImage(c.host, c.LeafOpFor(prefix), key, value).value;
        SameNode(c, s, image, image');
        LeafUniquelyReadable(c.host, c.Spec(), leaf, e.key, e.value, c.LeafOpFor(prefix), key, value);
        SameEntry(c, s, e.key, e.value, key, value);
      case Inner(header, children) =>
        SameNode(c, s, image, header + Slots(c, children));
      case Empty =>
        NotPlaceholder(c, s, image);
    }
  }

  /** Soundness of a walk, by induction on the path from the root end. */
  lemma {:induction false} PathOpens(c: Store, t: Tree, leaf: LeafOp, e: Entry, leafHash: Bytes,
                                     path: seq<InnerOp>, s: set<Image>)
    requires WellFormed(c, t) && LeafFits(c, leaf, e, leafHash) && AllEnsureInner(c, path)
    requires !Broken(c, s) && Images(c, t) <= s
    requires LeafImages(c, leaf, e.key, e.value) <= s && PathImages(c, leafHash, path) <= s
    requires FoldPath(c.host, Some(c.inner), leafHash, path) == Some(Root(c, t))
    ensures Opens(c, t, leaf, e, path)
    decreases |path|
  {
    if path == [] {
      LeafOpens(c, t, leaf, e, leafHash, s);
    } else {
      var op := Last(path);
      assert EnsureInner(op, c.Spec());
      var child := FoldPath(c.host, Some(c.inner), leafHash, Init(path)).value;
      var image := InnerImage(op, child);
      assert Root(c, t) == c.NodeHash(image) && NodeImage(image) in s;
      InnerImageStarts(c, op, child);
      match t {
        case Leaf(prefix, key, value) =>
          LeafImageStarts(c, c.LeafOpFor(prefix), key, value);
          SameNode(c, s, image, LeafImage(c.host, c.LeafOpFor(prefix), key, value).value);
        case Empty =>
          NotPlaceholder(c, s, image);
        case Inner(header, children) =>
          SameNode(c, s, image, header + Slots(c, children));
          DigestHasLength(c.host, c.inner.hash, LeafImage(c.host, leaf, e.key, e.value).value);
          FoldLength(c, leafHash, Init(path));
          Aligned(c, header, children, op, child);
          var k := OrderFromPadding(c.inner, op).value;
          ChildWellFormed(c, children, k);
          ChildImages(c, children, k);
          PathOpens(c, children[k], leaf, e, leafHash, Init(path), s);
      }
    }
  }

  /** Membership soundness: an existence proof accepted against the root of a well-formed tree is a real
      root-to-leaf walk ending at that key and value, or the hash is broken on the tree's and the proof's
      own images. */
  lemma {:induction false} MembershipSound(c: Store, t: Tree, p: ExistenceProof, key: Bytes, value: Bytes)
    requires WellFormed(c, t)
    requires VerifyExistence(c.host, p, c.Spec(), Root(c, t), key, value)
    requires Readable(c.host, c.Spec(), p.leaf.value, key)
    ensures || Opens(c, t, p.leaf.value, Entry(key, value), p.path)
            || Broken(c, Images(c, t) + ProofImages(c, p))
  {
    var s := Images(c, t) + ProofImages(c, p);
    if !Broken(c, s) {
      var leafHash := ApplyLeaf(c.host, p.leaf.value, key, value).value;
      forall i | 0 <= i < |p.path|
        ensures EnsureInner(p.path[i], c.Spec())
      {
        assert EnsureStep(p.path[i], c.Spec(), i);
      }
      PathOpens(c, t, p.leaf.value, Entry(key, value), leafHash, p.path, s);
    }
  }

  // ---- Positions --------------------------------------------------------------------------------------

  /** The number of leaves to the left of the leaf a path opens. */
  ghost function Index(c: Store, t: Tree, path: seq<InnerOp>): nat
    decreases |path|
  {
    if path == [] || !t.Inner? then 0
    else
      var k := OrderFromPadding(c.inner, Last(path));
      if k == None || k.value >= |t.children| then 0
      else |LeavesOf(t.children[..k.value])| + Index(c, t.children[k.value], Init(path))
  }

  lemma {:induction false} OpensAtIndex(c: Store, t: Tree, leaf: LeafOp, e: Entry, path: seq<InnerOp>)
    requires Opens(c, t, leaf, e, path)
    ensures Index(c, t, path) < |Leaves(t)| && Leaves(t)[Index(c, t, path)] == e
    decreases |path|
  {
    if path == [] {
    } else {
      var k := OrderFromPadding(c.inner, Last(path)).value;
      var child, i := t.children[k], Index(c, t.children[k], Init(path));
      OpensAtIndex(c, child, leaf, e, Init(path));
      LeavesAround(t.children, k);
      MiddleIndex(LeavesOf(t.children[..k]), Leaves(child), LeavesOf(t.children[k + 1..]), i);
    }
  }

  /** A child whose slot holds the placeholder has no leaves. */
  lemma {:induction false} PlaceholderChildEmpty(c: Store, t: Tree, s: set<Image>)
    requires WellFormed(c, t) && !Broken(c, s) && Images(c, t) <= s
    requires c.tag + Root(c, t) == c.inner.emptyChild
    ensures Leaves(t) == []
  {
    match t {
      case Leaf(prefix, key, value) =>
        NotPlaceholder(c, s, LeafImage(c.host, c.LeafOpFor(prefix), key, value).value);
      case Inner(header, children) =>
        NotPlaceholder(c, s, header + Slots(c, children));
      case Empty =>
    }
  }

  /** The slots of a forest hold the roots of its trees. */
  lemma {:induction false} SlotOf(c: Store, data: Bytes, from: nat, ts: seq<Tree>, i: nat)
    requires AllWellFormed(c, ts) && i < |ts| && from + |ts| * c.SlotSize() <= |data|
    requires data[from..from + |ts| * c.SlotSize()] == Slots(c, ts)
    ensures SlotAt(data, from, |ts|, c.SlotSize(), i) == c.tag + Root(c, ts[i])
    decreases |ts|
  {
    RootSize(c, ts[0]);
    FirstSlot(data, from, |ts|, c.SlotSize(), c.tag + Root(c, ts[0]), Slots(c, ts[1..]));
    if i == 0 {
    } else {
      SlotShift(data, from, |ts|, c.SlotSize(), i - 1);
      SlotOf(c, data, from + c.SlotSize(), ts[1..], i - 1);
    }
  }

  lemma {:induction false} LeaflessForest(ts: seq<Tree>)
    requires forall i :: 0 <= i < |ts| ==> Leaves(ts[i]) == []
    ensures LeavesOf(ts) == []
  {
    if ts == [] {
    } else {
      assert Leaves(ts[0]) == [];
      LeaflessForest(ts[1..]);
    }
  }

  /** Slots that all hold the placeholder belong to children without leaves. */
  lemma {:induction false} PlaceholderSlotsEmpty(c: Store, data: Bytes, from: nat, ts: seq<Tree>, s: set<Image>)
    requires AllWellFormed(c, ts) && !Broken(c, s) && ImagesOf(c, ts) <= s
    requires from + |ts| * c.SlotSize() <= |data|
    requires data[from..from + |ts| * c.SlotSize()] == Slots(c, ts)
    requires SlotsAreEmpty(data, from, |ts|, c.SlotSize(), c.inner.emptyChild)
    ensures LeavesOf(ts) == []
  {
    forall i | 0 <= i < |ts|
      ensures Leaves(ts[i]) == []
    {
      ChildWellFormed(c, ts, i);
      ChildImages(c, ts, i);
      SlotOf(c, data, from, ts, i);
      PlaceholderChildEmpty(c, ts[i], s);
    }
    LeaflessForest(ts);
  }

  lemma {:induction false} FirstSlot(data: Bytes, from: nat, count: nat, size: nat, first: Bytes, rest: Bytes)
    requires count > 0 && from + count * size <= |data| && |first| == size
    requires data[from..from + count * size] == first + rest
    ensures from + size + (count - 1) * size <= |data|
    ensures SlotAt(data, from, count, size, 0) == first
    ensures data[from + size..from + size + (count - 1) * size] == rest
  {
    assert count * size == size + (count - 1) * size;
    var all := data[from..from + count * size];
    assert all[..size] == first && all[size..] == rest;
    assert data[from..from + size] == all[..size];
    assert data[from + size..from + count * size] == all[size..];
  }

  lemma {:induction false} SlotShift(data: Bytes, from: nat, count: nat, size: nat, i: nat)
    requires from + count * size <= |data| && i + 1 < count
    ensures from + size + (count - 1) * size <= |data|
    ensures SlotAt(data, from + size, count - 1, size, i) == SlotAt(data, from, count, size, i + 1)
  {
    assert count * size == size + (count - 1) * size;
    assert (i + 1) * size == size + i * size;
  }

  // ---- Outermost and neighbouring walks ------------------------------------------------------------------

  lemma {:induction false} SublistImages(c: Store, ts: seq<Tree>, lo: nat, hi: nat)
    requires lo <= hi <= |ts|
    ensures ImagesOf(c, ts[lo..hi]) <= ImagesOf(c, ts)
    decreases hi - lo
  {
    if lo == hi {
    } else {
      ChildImages(c, ts, lo);
      SublistImages(c, ts, lo + 1, hi);
      assert ts[lo..hi][1..] == ts[lo + 1..hi];
    }
  }

  /** A node on a walk: its children, and the op the walk takes for child `k`. */
  ghost predicate StepOf(c: Store, header: Bytes, ts: seq<Tree>, op: InnerOp, k: nat, s: set<Image>) {
    && WellFormed(c, Inner(header, ts)) && !Broken(c, s) && ImagesOf(c, ts) <= s
    && OrderFromPadding(c.inner, op) == Some(k) && k < |ts| && op == OpAt(c, header, ts, k)
  }

  /** What the right-hand placeholder test looks at. */
  lemma {:induction false} RightTest(c: Store, op: InnerOp, k: nat)
    requires OrderFromPadding(c.inner, op) == Some(k) && RightBranchesAreEmpty(c.inner, op)
    ensures (c.Arity() - 1 - k) * c.SlotSize() <= |op.suffix|
    ensures SlotsAreEmpty(op.suffix, 0, c.Arity() - 1 - k, c.SlotSize(), c.inner.emptyChild)
  {
    assert Usize(c.inner.childSize) == c.SlotSize();
  }

  /** A rightmost step has no leaves to its right. */
  lemma {:induction false} RightMostStepSound(c: Store, header: Bytes, ts: seq<Tree>, op: InnerOp, k: nat,
                                              s: set<Image>)
    requires StepOf(c, header, ts, op, k, s)
    requires GetPadding(c.inner, c.Arity() - 1).Some?
    requires RightMostStep(c.inner, GetPadding(c.inner, c.Arity() - 1).value, op)
    ensures LeavesOf(ts[k + 1..]) == []
  {
    if MatchesBranch(c, op, c.Arity() - 1) {
      SuffixTellsBranch(c, op, c.Arity() - 1, k);
    } else {
      RightTest(c, op, k);
      assert ts[k + 1..] == ts[k + 1..|ts|];
      RightPlaceholders(c, ts, ts[k + 1..|ts|], op.suffix, k + 1, s);
    }
  }

  lemma {:induction false} RightPlaceholders(c: Store, ts: seq<Tree>, right: seq<Tree>, suffix: Bytes, lo: nat,
                                             s: set<Image>)
    requires AllWellFormed(c, ts) && !Broken(c, s) && ImagesOf(c, ts) <= s
    requires lo <= |ts| && right == ts[lo..|ts|] && suffix == Slots(c, right)
    requires |right| * c.SlotSize() <= |suffix|
    requires SlotsAreEmpty(suffix, 0, |right|, c.SlotSize(), c.inner.emptyChild)
    ensures LeavesOf(right) == []
  {
    SublistWellFormed(c, ts, lo, |ts|);
    SublistImages(c, ts, lo, |ts|);
    SlotsSize(c, right);
    assert suffix[0..0 + |right| * c.SlotSize()] == suffix;
    PlaceholderSlotsEmpty(c, suffix, 0, right, s);
  }

  /** A leftmost step has no leaves to its left. */
  lemma {:induction false} LeftMostStepSound(c: Store, header: Bytes, ts: seq<Tree>, op: InnerOp, k: nat, s: set<Image>)
    requires StepOf(c, header, ts, op, k, s)
    requires GetPadding(c.inner, 0).Some? && LeftMostStep(c.inner, GetPadding(c.inner, 0).value, op)
    ensures LeavesOf(ts[..k]) == []
  {
    if MatchesBranch(c, op, 0) {
      SuffixTellsBranch(c, op, 0, k);
    } else {
      LeftTest(c, op, k);
      LeftPlaceholders(c, header, ts, op, k, |op.prefix| - k * c.SlotSize(), s);
    }
  }

  /** What the left-hand placeholder test looks at. */
  lemma {:induction false} LeftTest(c: Store, op: InnerOp, k: nat)
    requires OrderFromPadding(c.inner, op) == Some(k) && LeftBranchesAreEmpty(c.inner, op)
    ensures k > 0 && k * c.SlotSize() <= |op.prefix|
    ensures SlotsAreEmpty(op.prefix, |op.prefix| - k * c.SlotSize(), k, c.SlotSize(), c.inner.emptyChild)
    ensures c.tag == []
  {
    assert Usize(c.inner.childSize) == c.SlotSize();
    assert SlotAt(op.prefix, |op.prefix| - k * c.SlotSize(), k, c.SlotSize(), 0) == c.inner.emptyChild;
  }

  lemma {:induction false} LeftPlaceholders(c: Store, header: Bytes, ts: seq<Tree>, op: InnerOp, k: nat, from: nat,
                                            s: set<Image>)
    requires StepOf(c, header, ts, op, k, s) && c.tag == []
    requires from + k * c.SlotSize() == |op.prefix|
    requires SlotsAreEmpty(op.prefix, from, k, c.SlotSize(), c.inner.emptyChild)
    ensures LeavesOf(ts[..k]) == []
  {
    var left := ts[..k];
    SublistWellFormed(c, ts, 0, k);
    SublistImages(c, ts, 0, k);
    SlotsSize(c, left);
    assert op.prefix == header + Slots(c, left);
    assert op.prefix[from..from + k * c.SlotSize()] == Slots(c, left);
    PlaceholderSlotsEmpty(c, op.prefix, from, left, s);
  }

  /** A walk and the images it lives among. */
  ghost predicate Walk(c: Store, t: Tree, leaf: LeafOp, e: Entry, path: seq<InnerOp>, s: set<Image>) {
    WellFormed(c, t) && !Broken(c, s) && Images(c, t) <= s && Opens(c, t, leaf, e, path)
  }

  /** One step down a walk. */
  lemma {:induction false} WalkStep(c: Store, t: Tree, leaf: LeafOp, e: Entry, path: seq<InnerOp>, s: set<Image>)
    requires Walk(c, t, leaf, e, path, s) && path != []
    ensures t.Inner? && OrderFromPadding(c.inner, Last(path)).Some?
    ensures var k := OrderFromPadding(c.inner, Last(path)).value;
            && StepOf(c, t.header, t.children, Last(path), k, s)
            && Walk(c, t.children[k], leaf, e, Init(path), s)
            && Leaves(t) == LeavesOf(t.children[..k]) + Leaves(t.children[k]) + LeavesOf(t.children[k + 1..])
            && Index(c, t, path) == |LeavesOf(t.children[..k])| + Index(c, t.children[k], Init(path))
  {
    var k := OrderFromPadding(c.inner, Last(path)).value;
    ChildWellFormed(c, t.children, k);
    ChildImages(c, t.children, k);
    LeavesAround(t.children, k);
  }

  /** A rightmost walk opens the last leaf. */
  lemma {:induction false} RightMostIsLast(c: Store, t: Tree, leaf: LeafOp, e: Entry, path: seq<InnerOp>,
                                           s: set<Image>)
    requires Walk(c, t, leaf, e, path, s) && RightMost(c.inner, path)
    ensures Index(c, t, path) + 1 == |Leaves(t)|
    decreases |path|
  {
    if path == [] {
    } else {
      WalkStep(c, t, leaf, e, path, s);
      var k := OrderFromPadding(c.inner, Last(path)).value;
      RightMostStepSound(c, t.header, t.children, Last(path), k, s);
      RightMostIsLast(c, t.children[k], leaf, e, Init(path), s);
    }
  }

  /** A leftmost walk opens the first leaf. */
  lemma {:induction false} LeftMostIsFirst(c: Store, t: Tree, leaf: LeafOp, e: Entry, path: seq<InnerOp>,
                                           s: set<Image>)
    requires Walk(c, t, leaf, e, path, s) && LeftMost(c.inner, path)
    ensures Index(c, t, path) == 0
    decreases |path|
  {
    if path == [] {
    } else {
      WalkStep(c, t, leaf, e, path, s);
      var k := OrderFromPadding(c.inner, Last(path)).value;
      LeftMostStepSound(c, t.header, t.children, Last(path), k, s);
      LeftMostIsFirst(c, t.children[k], leaf, e, Init(path), s);
    }
  }

  /** The leaves before child `k + 1` are those before child `k` and those of child `k`. */
  lemma {:induction false} LeavesBeforeNext(ts: seq<Tree>, k: nat)
    requires k < |ts|
    ensures LeavesOf(ts[..k + 1]) == LeavesOf(ts[..k]) + Leaves(ts[k])
  {
    LeavesAround(ts[..k + 1], k);
    assert ts[..k + 1][..k] == ts[..k] && ts[..k + 1][k + 1..] == [];
  }

  /** Adjacency: two walks in one tree that `ensure_left_neighbor` accepts open consecutive leaves,
      placeholder subtrees not counting. */
  lemma {:induction false} NeighborsAreAdjacent(c: Store, t: Tree, leaf: LeafOp, e: Entry, left: seq<InnerOp>,
                                                leaf': LeafOp, e': Entry, right: seq<InnerOp>, s: set<Image>)
    requires Walk(c, t, leaf, e, left, s) && Walk(c, t, leaf', e', right, s)
    requires LeftNeighbor(c.inner, left, right) == Pass
    ensures Index(c, t, right) == Index(c, t, left) + 1
    decreases |left|
  {
    WalkStep(c, t, leaf, e, left, s);
    WalkStep(c, t, leaf', e', right, s);
    var k := OrderFromPadding(c.inner, Last(left)).value;
    if SameStep(Last(left), Last(right)) {
      assert Last(left) == Last(right);
      NeighborsAreAdjacent(c, t.children[k], leaf, e, Init(left), leaf', e', Init(right), s);
    } else {
      RightMostIsLast(c, t.children[k], leaf, e, Init(left), s);
      LeftMostIsFirst(c, t.children[k + 1], leaf', e', Init(right), s);
      LeavesBeforeNext(t.children, k);
    }
  }

  // ---- Non-membership -----------------------------------------------------------------------------------

  /** A key strictly between the leaves before position `j` and those from it on is no leaf's key. */
  lemma {:induction false} GapIsEmpty(c: Store, es: seq<Entry>, key: Bytes, j: nat)
    requires Ordered(c, es) && j <= |es|
    requires j > 0 ==> KeyLess(c.host, c.Spec(), es[j - 1].key, key)
    requires j < |es| ==> KeyLess(c.host, c.Spec(), key, es[j].key)
    ensures Absent(c, es, key)
  {
    forall i | 0 <= i < |es|
      ensures c.CompareKey(es[i].key) != c.CompareKey(key)
    {
      var x, y := c.CompareKey(es[i].key), c.CompareKey(key);
      if i < j {
        if i < j - 1 {
          LessTransitive(x, c.CompareKey(es[j - 1].key), y);
        }
        LessAsymmetric(x, y);
      } else {
        if i > j {
          LessTransitive(y, c.CompareKey(es[j].key), x);
        }
        LessAsymmetric(y, x);
      }
    }
  }

  ghost predicate BoundaryReadable(c: Store, p: Option<ExistenceProof>) {
    p.Some? && p.value.leaf.Some? ==> Readable(c.host, c.Spec(), p.value.leaf.value, p.value.key)
  }

  /** A boundary of a non-existence proof, if there is one, walks to the leaf with its key. */
  ghost predicate BoundaryOpens(c: Store, t: Tree, p: Option<ExistenceProof>, s: set<Image>) {
    p.Some? ==>
      && p.value.leaf.Some?
      && Walk(c, t, p.value.leaf.value, Entry(p.value.key, p.value.value), p.value.path, s)
      && Index(c, t, p.value.path) < |Leaves(t)|
      && Leaves(t)[Index(c, t, p.value.path)].key == p.value.key
  }

  lemma {:induction false} BoundaryWalks(c: Store, t: Tree, p: Option<ExistenceProof>, s: set<Image>)
    requires WellFormed(c, t) && !Broken(c, s) && Images(c, t) <= s && OptionImages(c, p) <= s
    requires BoundaryHolds(c.host, p, c.Spec(), Root(c, t)) && BoundaryReadable(c, p)
    ensures BoundaryOpens(c, t, p, s)
  {
    if p.Some? {
      var q := p.value;
      if Broken(c, Images(c, t) + ProofImages(c, q)) {
        BrokenGrows(c, Images(c, t) + ProofImages(c, q), s);
      }
      MembershipSound(c, t, q, q.key, q.value);
      OpensAtIndex(c, t, q.leaf.value, Entry(q.key, q.value), q.path);
    }
  }

  /** Non-membership soundness: if a non-existence proof for `key` is accepted against the root of a
      strictly ordered tree, no leaf has that comparison key, or the hash is broken on the tree's and the
      proof's own images. Any number of children, placeholders included. */
  lemma {:induction false} NonMembershipSound(c: Store, t: Tree, p: NonExistenceProof, key: Bytes)
    requires WellFormed(c, t) && Ordered(c, Leaves(t))
    requires BoundaryReadable(c, p.left) && BoundaryReadable(c, p.right)
    requires VerifyNonExistence(c.host, p, c.Spec(), Root(c, t), key) == Pass
    ensures Absent(c, Leaves(t), key) || Broken(c, Images(c, t) + NonExistenceImages(c, p))
  {
    var s := Images(c, t) + NonExistenceImages(c, p);
    if !Broken(c, s) {
      BoundaryWalks(c, t, p.left, s);
      BoundaryWalks(c, t, p.right, s);
      match (p.left, p.right) {
        case (Some(l), None) => LastLeafNoGap(c, t, l, key, s);
        case (None, Some(r)) => FirstLeafNoGap(c, t, r, key, s);
        case (Some(l), Some(r)) => NeighborLeavesNoGap(c, t, l, r, key, s);
        case (None, None) =>
      }
    }
  }

  lemma {:induction false} LastLeafNoGap(c: Store, t: Tree, l: ExistenceProof, key: Bytes, s: set<Image>)
    requires Ordered(c, Leaves(t)) && BoundaryOpens(c, t, Some(l), s)
    requires RightMost(c.inner, l.path) && KeyLess(c.host, c.Spec(), l.key, key)
    ensures Absent(c, Leaves(t), key)
  {
    RightMostIsLast(c, t, l.leaf.value, Entry(l.key, l.value), l.path, s);
    GapIsEmpty(c, Leaves(t), key, |Leaves(t)|);
  }

  lemma {:induction false} FirstLeafNoGap(c: Store, t: Tree, r: ExistenceProof, key: Bytes, s: set<Image>)
    requires Ordered(c, Leaves(t)) && BoundaryOpens(c, t, Some(r), s)
    requires LeftMost(c.inner, r.path) && KeyLess(c.host, c.Spec(), key, r.key)
    ensures Absent(c, Leaves(t), key)
  {
    LeftMostIsFirst(c, t, r.leaf.value, Entry(r.key, r.value), r.path, s);
    GapIsEmpty(c, Leaves(t), key, 0);
  }

  lemma {:induction false} NeighborLeavesNoGap(c: Store, t: Tree, l: ExistenceProof, r: ExistenceProof, key: Bytes,
                                               s: set<Image>)
    requires Ordered(c, Leaves(t)) && BoundaryOpens(c, t, Some(l), s) && BoundaryOpens(c, t, Some(r), s)
    requires LeftNeighbor(c.inner, l.path, r.path) == Pass
    requires KeyLess(c.host, c.Spec(), l.key, key) && KeyLess(c.host, c.Spec(), key, r.key)
    ensures Absent(c, Leaves(t), key)
  {
    NeighborsAreAdjacent(c, t, l.leaf.value, Entry(l.key, l.value), l.path,
                         r.leaf.value, Entry(r.key, r.value), r.path, s);
    NothingBetween(c, Leaves(t), key, Index(c, t, l.path), Index(c, t, r.path), l.key, r.key);
  }

  lemma {:induction false} NothingBetween(c: Store, es: seq<Entry>, key: Bytes, i: nat, j: nat, a: Bytes, b: Bytes)
    requires Ordered(c, es) && j == i + 1 && j < |es| && es[i].key == a && es[j].key == b
    requires KeyLess(c.host, c.Spec(), a, key) && KeyLess(c.host, c.Spec(), key, b)
    ensures Absent(c, es, key)
  {
    GapIsEmpty(c, es, key, j);
  }
}
