/** What the built-in specs come to, byte by byte and number by number. */
module Layouts {
  import opened Bytes
  import opened Varints
  import opened Ics23
  import opened Ops
  import opened Specs
  import opened Verify
  import opened Tree

  // ---- Preimages -----------------------------------------------------------------------------------------

  /** A key and a value behind their lengths, the value hashed: IAVL and Tendermint leaves. */
  lemma {:induction false} PrefixedLeaf(host: Host, spec: ProofSpec, prefix: Bytes, key: Bytes, value: Bytes)
    requires spec == IavlSpec() || spec == TendermintSpec()
    requires key != [] && value != []
    ensures var leaf, image := spec.leafSpec.value.(prefix := prefix),
                               prefix + (Varint(|key|) + key) + ([32] + host.sha2_256(value));
            LeafImage(host, leaf, key, value) == Some(image)
            && ApplyLeaf(host, leaf, key, value) == Some(host.sha2_256(image))
  {
    assert Varint(32) == [32];
  }

  /** Both hashed, without lengths: SMT leaves. */
  lemma {:induction false} HashedLeaf(host: Host, prefix: Bytes, key: Bytes, value: Bytes)
    requires key != [] && value != []
    ensures var leaf, image := SmtSpec().leafSpec.value.(prefix := prefix),
                               prefix + host.sha2_256(key) + host.sha2_256(value);
            LeafImage(host, leaf, key, value) == Some(image)
            && ApplyLeaf(host, leaf, key, value) == Some(host.sha2_256(image))
  {
    assert [] + host.sha2_256(key) == host.sha2_256(key) && [] + host.sha2_256(value) == host.sha2_256(value);
  }

  /** An empty key or value has no leaf, under any op. */
  lemma {:induction false} EmptyLeaf(host: Host, leaf: LeafOp, key: Bytes, value: Bytes)
    requires key == [] || value == []
    ensures ApplyLeaf(host, leaf, key, value) == None
  {
  }

  /** An inner op hashes its child between prefix and suffix; an empty child is refused. */
  lemma {:induction false} InnerStep(host: Host, prefix: Bytes, suffix: Bytes, child: Bytes)
    ensures ApplyInner(host, InnerOp(1, prefix, suffix), child)
         == if child == [] then None else Some(host.sha2_256(prefix + child + suffix))
  {
  }

  /** A node of two children: IAVL writes the length 32 before each hash, the others nothing. */
  lemma {:induction false} NodeOfTwo(host: Host, header: Bytes, a: Tree, b: Tree)
    ensures var c := IavlStore(host);
            Root(c, Inner(header, [a, b])) == host.sha2_256(header + ([32] + Root(c, a) + ([32] + Root(c, b))))
    ensures var c := TendermintStore(host);
            Root(c, Inner(header, [a, b])) == host.sha2_256(header + (Root(c, a) + Root(c, b)))
    ensures var c := SmtStore(host);
            Root(c, Inner(header, [a, b])) == host.sha2_256(header + (Root(c, a) + Root(c, b)))
    ensures Leaves(Inner(header, [a, b])) == Leaves(a) + Leaves(b)
  {
    SlotsOfTwo(IavlStore(host), a, b);
    SlotsOfTwo(TendermintStore(host), a, b);
    SlotsOfTwo(SmtStore(host), a, b);
    assert [a, b][1..] == [b];
    LeavesOfOne(b);
  }

  lemma {:induction false} SlotsOfTwo(c: Store, a: Tree, b: Tree)
    ensures Slots(c, [a, b]) == (c.tag + Root(c, a)) + (c.tag + Root(c, b))
    ensures c.tag == [] ==> Slots(c, [a, b]) == Root(c, a) + Root(c, b)
  {
    assert [a, b][1..] == [b] && [b][1..] == [] && Slots(c, []) == [];
    assert Slots(c, [b]) == c.tag + Root(c, b) + [];
  }

  // ---- What the specs accept -------------------------------------------------------------------------------

  /** The inner ops of IAVL: SHA-256, a prefix of 4 to 45 bytes that does not begin with 0, a suffix of whole
      children of 33 bytes. */
  lemma {:induction false} IavlWindow(op: InnerOp)
    ensures EnsureInner(op, IavlSpec()) <==>
            op.hash == 1 && 4 <= |op.prefix| <= 45 && op.prefix[0] != 0 && |op.suffix| % 33 == 0
  {
  }

  /** Those of Tendermint and SMT: SHA-256, a prefix of 1 to 33 bytes that does not begin with 0, a suffix of whole
      children of 32 bytes. */
  lemma {:induction false} PlainWindow(spec: ProofSpec, op: InnerOp)
    requires spec == TendermintSpec() || spec == SmtSpec()
    ensures EnsureInner(op, spec) <==>
            op.hash == 1 && 1 <= |op.prefix| <= 33 && op.prefix[0] != 0 && |op.suffix| % 32 == 0
  {
  }

  /** The leaf ops: their four numbers, and a prefix beginning with 0. */
  lemma {:induction false} LeafWindow(leaf: LeafOp)
    ensures EnsureLeaf(leaf, IavlSpec().leafSpec.value) <==>
            && leaf.hash == 1 && leaf.prehashKey == 0 && leaf.prehashValue == 1 && leaf.length == 1
            && leaf.prefix != [] && leaf.prefix[0] == 0
    ensures EnsureLeaf(leaf, TendermintSpec().leafSpec.value) <==> EnsureLeaf(leaf, IavlSpec().leafSpec.value)
    ensures EnsureLeaf(leaf, SmtSpec().leafSpec.value) <==>
            && leaf.hash == 1 && leaf.prehashKey == 1 && leaf.prehashValue == 1 && leaf.length == 0
            && leaf.prefix != [] && leaf.prefix[0] == 0
  {
  }

  /** The SMT placeholder is 32 zero bytes; IAVL and Tendermint trees have none. */
  lemma {:induction false} Placeholders(host: Host)
    ensures |Root(SmtStore(host), Empty)| == 32 && forall i :: 0 <= i < 32 ==> Root(SmtStore(host), Empty)[i] == 0
    ensures WellFormed(SmtStore(host), Empty)
    ensures !WellFormed(IavlStore(host), Empty) && !WellFormed(TendermintStore(host), Empty)
  {
  }

  /** No built-in spec bounds the depth. */
  lemma {:induction false} AnyDepth(depth: nat)
    ensures EnsureDepth(depth, IavlSpec()) && EnsureDepth(depth, TendermintSpec()) && EnsureDepth(depth, SmtSpec())
  {
  }

  /** IAVL and Tendermint keys are ordered as byte strings, SMT keys by their SHA-256 hashes. */
  lemma {:induction false} KeyOrder(host: Host, a: Bytes, b: Bytes)
    ensures KeyLess(host, IavlSpec(), a, b) <==> exists i: nat :: SmallerAt(a, b, i)
    ensures KeyLess(host, TendermintSpec(), a, b) <==> exists i: nat :: SmallerAt(a, b, i)
    ensures KeyLess(host, SmtSpec(), a, b) <==> exists i: nat :: SmallerAt(host.sha2_256(a), host.sha2_256(b), i)
  {
    LessIff(a, b);
    LessIff(host.sha2_256(a), host.sha2_256(b));
  }
}
