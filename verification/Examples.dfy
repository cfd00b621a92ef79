/** Trees and hashes on which the premises of the theorems are met. */
module Examples {
  import opened Bytes
  import opened Varints
  import opened Ops
  import opened Specs
  import opened Verify
  import opened Tree
  import opened Completeness

  /** All that the completeness theorems ask of a tree and an absent key. */
  ghost predicate Ready(c: Store, t: Tree, key: Bytes) {
    Provable(c, t) && Neighborly(c, t) && Leaves(t) != [] && Ordered(c, Leaves(t)) && Absent(c, Leaves(t), key)
  }

  /** Every leaf's proof and the key's neighbour proof are accepted, and hash nothing the tree does not. */
  ghost predicate Served(c: Store, t: Tree, key: Bytes) {
    && VerifyNonExistence(c.host, NeighborProof(c, t, key), c.Spec(), Root(c, t), key) == Pass
    && NonExistenceImages(c, NeighborProof(c, t, key)) <= Images(c, t)
    && forall j :: 0 <= j < |Leaves(t)| ==> LeafServed(c, t, j)
  }

  ghost predicate LeafServed(c: Store, t: Tree, j: nat)
    requires j < |Leaves(t)|
  {
    && VerifyExistence(c.host, ProofAt(c, t, j), c.Spec(), Root(c, t), Leaves(t)[j].key, Leaves(t)[j].value)
    && ProofImages(c, ProofAt(c, t, j)) <= Images(c, t)
  }

  lemma {:induction false} ReadyIsServed(c: Store, t: Tree, key: Bytes)
    requires Ready(c, t, key)
    ensures Served(c, t, key)
  {
    NonMembershipComplete(c, t, key);
    forall j | 0 <= j < |Leaves(t)|
      ensures LeafServed(c, t, j)
    {
      MembershipComplete(c, t, j);
      HonestImages(c, t, j);
    }
    var r := Rank(c, Leaves(t), key);
    assert r > 0 ==> LeafServed(c, t, r - 1);
    assert r < |Leaves(t)| ==> LeafServed(c, t, r);
  }

  // ---- Trees ---------------------------------------------------------------------------------------------

  ghost function TwoLeaves(header: Bytes, prefix: Bytes): Tree {
    Inner(header, [Leaf(prefix, [10], [1]), Leaf(prefix, [20], [2])])
  }

  ghost function OneLeaf(): Tree {
    Inner([1], [Leaf([0], [10], [1]), Empty])
  }

  lemma {:induction false} TwoLeavesContents(header: Bytes, prefix: Bytes)
    ensures Leaves(TwoLeaves(header, prefix)) == [Entry([10], [1]), Entry([20], [2])]
  {
    var ts := TwoLeaves(header, prefix).children;
    assert ts[1..] == [ts[1]];
    LeavesOfOne(ts[1]);
    assert LeavesOf(ts) == Leaves(ts[0]) + Leaves(ts[1]);
  }

  lemma FirstByteDiffers(prefix: Bytes, header: Bytes, rest: Bytes)
    requires prefix != [] && header != [] && prefix[0] != header[0]
    ensures !HasPrefix(prefix, header + rest)
  {
    assert (header + rest)[0] == header[0];
  }

  lemma {:induction false} TwoLeavesSound(c: Store, header: Bytes, prefix: Bytes)
    requires WellFormed(c, Leaf(prefix, [10], [1])) && WellFormed(c, Leaf(prefix, [20], [2])) && c.Arity() == 2
    requires c.inner.minPrefixLength <= |header| + |c.tag| <= c.inner.maxPrefixLength
    requires header != [] && c.leaf.prefix != [] && c.leaf.prefix[0] != header[0]
    ensures WellFormed(c, TwoLeaves(header, prefix)) && Neighborly(c, TwoLeaves(header, prefix))
  {
    var t := TwoLeaves(header, prefix);
    var ts := t.children;
    TwoLeavesContents(header, prefix);
    assert ts[1..] == [ts[1]] && ts[1..][1..] == [];
    assert AllWellFormed(c, []) && AllPopulated([]);
    assert AllWellFormed(c, ts[1..]);
    assert AllPopulated(ts[1..]);
    FirstByteDiffers(c.leaf.prefix, header, Slots(c, ts));
    AlwaysPacked(c, t);
  }

  lemma {:induction false} TwoLeavesReady(c: Store, header: Bytes, prefix: Bytes)
    requires WellFormed(c, TwoLeaves(header, prefix)) && Neighborly(c, TwoLeaves(header, prefix))
    requires IsIavlSpec(c.Spec()) ==> IavlHeaders(c, TwoLeaves(header, prefix))
    requires c.minDepth == 0 && !c.prehashKeyBeforeComparison
    ensures Ready(c, TwoLeaves(header, prefix), [15])
  {
    TwoLeavesContents(header, prefix);
  }

  /** Under any hash, the Tendermint tree of two leaves. */
  lemma {:induction false} TendermintReady(c: Store)
    requires c == TendermintStore(c.host)
    ensures Ready(c, TwoLeaves([1], [0]), [15])
  {
    TwoLeavesSound(c, [1], [0]);
    TwoLeavesReady(c, [1], [0]);
  }

  /** Under any hash, the IAVL tree of two leaves: height 1, size 2, version 1 over leaves of height 0, size 1,
      version 1. */
  lemma {:induction false} IavlReady(c: Store)
    requires c == IavlStore(c.host)
    ensures Ready(c, TwoLeaves([2, 4, 2], [0, 2, 2]), [15])
  {
    HeaderOfThree(2, 4, 2);
    IavlLeafFits(c, [10], [1]);
    IavlLeafFits(c, [20], [2]);
    TwoLeavesSound(c, [2, 4, 2], [0, 2, 2]);
    TwoLeavesHeight(c, [2, 4, 2], [0, 2, 2]);
    TwoLeavesReady(c, [2, 4, 2], [0, 2, 2]);
  }

  lemma {:induction false} TwoLeavesHeight(c: Store, header: Bytes, prefix: Bytes)
    requires NodeHeader(header, 1)
    ensures IavlHeaders(c, TwoLeaves(header, prefix))
  {
    var ts := TwoLeaves(header, prefix).children;
    assert ts[1..] == [ts[1]] && ts[1..][1..] == [];
    assert AllIavlHeaders(c, []) && HeightOf([]) == 0;
    assert AllIavlHeaders(c, ts[1..]);
    assert HeightOf(ts[1..]) == 0;
    assert HeightOf(ts) == 0 && AllIavlHeaders(c, ts);
  }

  lemma {:induction false} IavlLeafFits(c: Store, key: Bytes, value: Bytes)
    requires c == IavlStore(c.host) && key != [] && value != []
    ensures WellFormed(c, Leaf([0, 2, 2], key, value))
  {
    HeaderOfThree(0, 2, 2);
  }

  /** Three one-byte varints. */
  lemma {:induction false} HeaderOfThree(x: byte, y: byte, z: byte)
    requires x < 128 && y < 128 && z < 128
    ensures ParseIavlHeader([x, y, z]) == IavlHeader(UnZigZag(x), UnZigZag(y), UnZigZag(z), 3)
  {
  }

  // ---- A hash that is not broken ---------------------------------------------------------------------------

  /** The first `n` bytes, filled up with zeros. */
  function Kept(b: Bytes, n: nat): (r: Bytes)
    ensures |r| == n
    ensures forall i :: 0 <= i < n ==> r[i] == if i < |b| then b[i] else 0
  {
    if |b| >= n then b[..n] else b + Zeros(n - |b|)
  }

  /** A hash provider that keeps the beginning of its input. */
  function KeepingHost(): Host {
    Host((b: Bytes) => Kept(b, 32), (b: Bytes) => Kept(b, 64), (b: Bytes) => Kept(b, 32), (b: Bytes) => Kept(b, 32),
         (b: Bytes) => Kept(b, 20), (b: Bytes) => Kept(b, 64), (b: Bytes) => Kept(b, 32), (b: Bytes) => Kept(b, 32))
  }

  /** The placeholder tree of one SMT leaf, its absent key beyond the placeholder. */
  lemma {:induction false} SmtReady(c: Store)
    requires c == SmtStore(KeepingHost())
    ensures Ready(c, OneLeaf(), [15])
  {
    var ts := OneLeaf().children;
    assert ts[1..] == [Empty] && ts[1..][1..] == [];
    assert AllWellFormed(c, []) && AllPopulated([]);
    assert AllWellFormed(c, ts[1..]) && AllPopulated(ts[1..]);
    assert LeavesOf([]) == [] && LeavesOf(ts[1..]) == [];
    assert Leaves(OneLeaf()) == [Entry([10], [1])];
    FirstByteDiffers(c.leaf.prefix, [1], Slots(c, ts));
    AlwaysPacked(c, OneLeaf());
    assert c.CompareKey([10])[0] == 10 && c.CompareKey([15])[0] == 15;
  }

  /** A key and a value hashed alone, and a leaf preimage beginning as given. */
  lemma {:induction false} LeafDigests(c: Store, prefix: Bytes, key: Bytes, value: Bytes, image: Bytes)
    requires LeafImage(c.host, c.LeafOpFor(prefix), key, value) == Some(image)
    ensures LeafImages(c, c.LeafOpFor(prefix), key, value) == {NodeImage(image), KeyImage(key), ValueImage(value)}
  {
  }

  /** The seven images of a tree of two leaves. */
  lemma {:induction false} TwoLeavesImages(c: Store, header: Bytes, prefix: Bytes, first: Bytes, second: Bytes,
                                           node: Bytes)
    requires LeafImage(c.host, c.LeafOpFor(prefix), [10], [1]) == Some(first)
    requires LeafImage(c.host, c.LeafOpFor(prefix), [20], [2]) == Some(second)
    requires node == header + Slots(c, TwoLeaves(header, prefix).children)
    ensures Images(c, TwoLeaves(header, prefix)) ==
            {NodeImage(first), NodeImage(second), NodeImage(node), KeyImage([10]), KeyImage([20]), ValueImage([1]),
             ValueImage([2])}
  {
    var ts := TwoLeaves(header, prefix).children;
    LeafDigests(c, prefix, [10], [1], first);
    LeafDigests(c, prefix, [20], [2], second);
    assert ts[1..] == [ts[1]] && ts[1..][1..] == [] && ImagesOf(c, []) == {};
    assert ImagesOf(c, ts) == Images(c, ts[0]) + (Images(c, ts[1]) + {});
  }

  /** How their digests begin. */
  lemma {:induction false} TwoLeavesDigests(c: Store, first: Bytes, second: Bytes, node: Bytes)
    requires c == TendermintStore(KeepingHost())
    requires LeafImage(c.host, c.LeafOpFor([0]), [10], [1]) == Some(first)
    requires LeafImage(c.host, c.LeafOpFor([0]), [20], [2]) == Some(second)
    requires node == [1] + Slots(c, TwoLeaves([1], [0]).children)
    ensures c.NodeHash(first)[0] == 0 && c.NodeHash(first)[2] == 10
    ensures c.NodeHash(second)[0] == 0 && c.NodeHash(second)[2] == 20
    ensures c.NodeHash(node)[0] == 1
  {
    assert Varint(1) == [1];
    assert first[0] == 0 && first[2] == 10 && second[0] == 0 && second[2] == 20 && node[0] == 1;
  }

  /** The hash is not broken on the Tendermint tree: all its images, and so those of every proof read off it. */
  lemma {:induction false} TendermintUnbroken(c: Store)
    requires c == TendermintStore(KeepingHost())
    ensures !Broken(c, Images(c, TwoLeaves([1], [0])))
  {
    var first := LeafImage(c.host, c.LeafOpFor([0]), [10], [1]).value;
    var second := LeafImage(c.host, c.LeafOpFor([0]), [20], [2]).value;
    var node := [1] + Slots(c, TwoLeaves([1], [0]).children);
    TwoLeavesImages(c, [1], [0], first, second, node);
    TwoLeavesDigests(c, first, second, node);
    assert Digest(c, ValueImage([1]))[0] == 1 && Digest(c, ValueImage([2]))[0] == 2;
  }

  /** Nor on the placeholder tree, where no image hashes to the placeholder either. */
  lemma {:induction false} SmtUnbroken(c: Store)
    requires c == SmtStore(KeepingHost())
    ensures !Broken(c, Images(c, OneLeaf()))
  {
    var ts := OneLeaf().children;
    var leaf := LeafImage(c.host, c.LeafOpFor([0]), [10], [1]).value;
    var node := [1] + Slots(c, ts);
    assert leaf == [0] + Kept([10], 32) + Kept([1], 32);
    assert leaf[0] == 0 && leaf[1] == 10 && node[0] == 1;
    LeafDigests(c, [0], [10], [1], leaf);
    assert ts[1..] == [Empty] && ts[1..][1..] == [] && ImagesOf(c, []) == {};
    assert ImagesOf(c, ts) == Images(c, ts[0]) + ({} + {});
    assert c.NodeHash(leaf)[0] == 0 && c.NodeHash(leaf)[1] == 10 && c.NodeHash(node)[0] == 1;
    assert c.inner.emptyChild[0] == 0 && c.inner.emptyChild[1] == 0;
    forall a | a in Images(c, OneLeaf())
      ensures a in {NodeImage(leaf), NodeImage(node), KeyImage([10]), ValueImage([1])}
      ensures !PlaceholderHit(c, a)
    {
      assert [] + Digest(c, a) == Digest(c, a);
    }
  }

  /** The premises of the theorems are met: under any hash by a Tendermint and an IAVL tree, and under one hash
      by a Tendermint and a placeholder tree whose images, and so all honest proofs' images, are not broken. */
  lemma {:induction false} PremisesHold(host: Host)
    ensures var c, t := TendermintStore(host), TwoLeaves([1], [0]); Ready(c, t, [15]) && Served(c, t, [15])
    ensures var c, t := IavlStore(host), TwoLeaves([2, 4, 2], [0, 2, 2]); Ready(c, t, [15]) && Served(c, t, [15])
    ensures var c, t := SmtStore(KeepingHost()), OneLeaf();
            Ready(c, t, [15]) && Served(c, t, [15]) && !Broken(c, Images(c, t))
    ensures var c, t := TendermintStore(KeepingHost()), TwoLeaves([1], [0]); !Broken(c, Images(c, t))
  {
    TendermintReady(TendermintStore(host));
    ReadyIsServed(TendermintStore(host), TwoLeaves([1], [0]), [15]);
    IavlReady(IavlStore(host));
    ReadyIsServed(IavlStore(host), TwoLeaves([2, 4, 2], [0, 2, 2]), [15]);
    SmtReady(SmtStore(KeepingHost()));
    ReadyIsServed(SmtStore(KeepingHost()), OneLeaf(), [15]);
    SmtUnbroken(SmtStore(KeepingHost()));
    TendermintUnbroken(TendermintStore(KeepingHost()));
  }
}
