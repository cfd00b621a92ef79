/** What an accepted call of the public API says about the tree behind the root, and which calls are accepted:
    soundness, position binding, exclusivity and completeness over single, batch and compressed proofs. */
module Guarantees {
  import opened Bytes
  import opened Ics23
  import opened Ops
  import opened Specs
  import opened Verify
  import opened LeafReading
  import opened Tree
  import opened Soundness
  import opened Binding
  import opened Completeness
  import opened Compress
  import opened Api

  // ---- The existence proofs inside a proof ------------------------------------------------------------------

  ghost function EntryProofs(e: BatchEntry): seq<ExistenceProof> {
    match e
    case ExistEntry(exist) => [exist]
    case NonexistEntry(n) => SideProofs(n)
    case NoEntry => []
  }

  ghost function SideProofs(n: NonExistenceProof): seq<ExistenceProof> {
    (if n.left.Some? then [n.left.value] else []) + if n.right.Some? then [n.right.value] else []
  }

  ghost function BatchProofs(es: seq<BatchEntry>): seq<ExistenceProof> {
    if es == [] then [] else EntryProofs(es[0]) + BatchProofs(es[1..])
  }

  /** Every existence proof the verifier may look at, boundaries of non-existence proofs included. */
  ghost function ExistenceProofs(p: CommitmentProof): seq<ExistenceProof> {
    match Decompress(p)
    case Exist(exist) => [exist]
    case Nonexist(n) => SideProofs(n)
    case Batch(es) => BatchProofs(es)
    case _ => []
  }

  ghost function ImagesOfAll(c: Store, ps: seq<ExistenceProof>): set<Image> {
    if ps == [] then {} else ProofImages(c, ps[0]) + ImagesOfAll(c, ps[1..])
  }

  /** The images of a proof of any kind. */
  ghost function CommitmentImages(c: Store, p: CommitmentProof): set<Image> {
    ImagesOfAll(c, ExistenceProofs(p))
  }

  /** Every leaf preimage in the proof has one reading. */
  ghost predicate AllReadable(c: Store, p: CommitmentProof) {
    forall ex :: ex in ExistenceProofs(p) && ex.leaf.Some? ==> Readable(c.host, c.Spec(), ex.leaf.value, ex.key)
  }

  /** IAVL and SMT proofs are always readable, Tendermint ones when every leaf carries the spec's own prefix. */
  lemma {:induction false} BuiltInReadable(c: Store, p: CommitmentProof)
    requires || c.Spec() == IavlSpec()
             || c.Spec() == SmtSpec()
             || (&& c.Spec() == TendermintSpec()
                 && forall ex :: ex in ExistenceProofs(p) && ex.leaf.Some? ==> ex.leaf.value.prefix == c.leaf.prefix)
    ensures AllReadable(c, p)
  {
  }

  lemma {:induction false} ImagesOfOne(c: Store, ps: seq<ExistenceProof>, ex: ExistenceProof)
    requires ex in ps
    ensures ProofImages(c, ex) <= ImagesOfAll(c, ps)
  {
    if ex == ps[0] {
    } else {
      ImagesOfOne(c, ps[1..], ex);
    }
  }

  lemma {:induction false} EntryInBatch(es: seq<BatchEntry>, i: nat, ex: ExistenceProof)
    requires i < |es| && ex in EntryProofs(es[i])
    ensures ex in BatchProofs(es)
  {
    if i == 0 {
    } else {
      EntryInBatch(es[1..], i - 1, ex);
    }
  }

  /** What a membership call looks at is part of the proof. */
  lemma {:induction false} FoundExist(c: Store, p: CommitmentProof, key: Bytes, ex: ExistenceProof)
    requires GetExistProof(Decompress(p), key) == Some(ex)
    ensures ex in ExistenceProofs(p) && ProofImages(c, ex) <= CommitmentImages(c, p)
  {
    match Decompress(p) {
      case Exist(_) =>
      case Batch(es) =>
        var i :| 0 <= i < |es| && es[i] == ExistEntry(ex);
        EntryInBatch(es, i, ex);
    }
    ImagesOfOne(c, ExistenceProofs(p), ex);
  }

  lemma {:induction false} SideFound(host: Host, p: CommitmentProof, key: Bytes, spec: ProofSpec, n: NonExistenceProof,
                                     ex: ExistenceProof)
    requires GetNonexistProof(host, Decompress(p), key, spec) == Some(n) && ex in SideProofs(n)
    ensures ex in ExistenceProofs(p)
  {
    match Decompress(p) {
      case Nonexist(_) =>
      case Batch(es) =>
        var i :| 0 <= i < |es| && es[i] == NonexistEntry(n);
        EntryInBatch(es, i, ex);
    }
  }

  /** So is what a non-membership call looks at. */
  lemma {:induction false} FoundNonexist(c: Store, p: CommitmentProof, key: Bytes, n: NonExistenceProof)
    requires GetNonexistProof(c.host, Decompress(p), key, c.Spec()) == Some(n)
    ensures n.left.Some? ==> n.left.value in ExistenceProofs(p)
    ensures n.right.Some? ==> n.right.value in ExistenceProofs(p)
    ensures NonExistenceImages(c, n) <= CommitmentImages(c, p)
  {
    if n.left.Some? {
      SideFound(c.host, p, key, c.Spec(), n, n.left.value);
      ImagesOfOne(c, ExistenceProofs(p), n.left.value);
    }
    if n.right.Some? {
      SideFound(c.host, p, key, c.Spec(), n, n.right.value);
      ImagesOfOne(c, ExistenceProofs(p), n.right.value);
    }
  }

  // ---- Soundness ----------------------------------------------------------------------------------------------

  /** Position of the leaf an accepted membership call opens. */
  lemma {:induction false} MemberIsLeaf(c: Store, t: Tree, p: CommitmentProof, key: Bytes, value: Bytes, s: set<Image>)
    returns (i: nat)
    requires WellFormed(c, t) && AllReadable(c, p) && !Broken(c, s)
    requires VerifyMembership(c.host, p, c.Spec(), Root(c, t), key, value)
    requires Images(c, t) <= s && CommitmentImages(c, p) <= s
    ensures i < |Leaves(t)| && Leaves(t)[i] == Entry(key, value)
  {
    var ex := GetExistProof(Decompress(p), key).value;
    FoundExist(c, p, key, ex);
    i := AcceptedKeyIsLeaf(c, t, ex, key, value, s);
  }

  lemma {:induction false} NonMemberIsAbsent(c: Store, t: Tree, p: CommitmentProof, key: Bytes, s: set<Image>)
    requires WellFormed(c, t) && Ordered(c, Leaves(t)) && AllReadable(c, p) && !Broken(c, s)
    requires VerifyNonMembership(c.host, p, c.Spec(), Root(c, t), key) == Pass
    requires Images(c, t) <= s && CommitmentImages(c, p) <= s
    ensures Absent(c, Leaves(t), key)
  {
    var n := GetNonexistProof(c.host, Decompress(p), key, c.Spec()).value;
    FoundNonexist(c, p, key, n);
    NonMembershipSound(c, t, n, key);
    if Broken(c, Images(c, t) + NonExistenceImages(c, n)) {
      BrokenGrows(c, Images(c, t) + NonExistenceImages(c, n), s);
    }
  }

  lemma {:induction false} ItemsAreLeaves(c: Store, t: Tree, p: CommitmentProof, items: map<Bytes, Bytes>,
                                          s: set<Image>)
    requires WellFormed(c, t) && AllReadable(c, p) && !Broken(c, s)
    requires Images(c, t) <= s && CommitmentImages(c, p) <= s
    requires VerifyBatchMembership(c.host, p, c.Spec(), Root(c, t), items)
    ensures forall key :: key in items ==> Entry(key, items[key]) in Leaves(t)
  {
    BatchIsConjunction(c.host, p, c.Spec(), Root(c, t), items, []);
    forall key | key in items
      ensures Entry(key, items[key]) in Leaves(t)
    {
      var i := MemberIsLeaf(c, t, p, key, items[key], s);
    }
  }

  lemma {:induction false} KeysAreAbsent(c: Store, t: Tree, p: CommitmentProof, keys: seq<Bytes>, s: set<Image>)
    requires WellFormed(c, t) && Ordered(c, Leaves(t)) && AllReadable(c, p) && !Broken(c, s)
    requires Images(c, t) <= s && CommitmentImages(c, p) <= s
    requires VerifyBatchNonMembership(c.host, p, c.Spec(), Root(c, t), keys) == Pass
    ensures forall i :: 0 <= i < |keys| ==> Absent(c, Leaves(t), keys[i])
  {
    BatchIsConjunction(c.host, p, c.Spec(), Root(c, t), map[], keys);
    forall i | 0 <= i < |keys|
      ensures Absent(c, Leaves(t), keys[i])
    {
      NonMemberIsAbsent(c, t, p, keys[i], s);
    }
  }

  /** Soundness of the API over any readable proof, single, batch or compressed: accepted items are leaves,
      accepted absent keys are no leaf's key, unless the hash is broken on the images of tree and proof. */
  lemma {:induction false} ApiSound(c: Store, t: Tree, p: CommitmentProof, items: map<Bytes, Bytes>, keys: seq<Bytes>)
    requires WellFormed(c, t) && Ordered(c, Leaves(t)) && AllReadable(c, p)
    ensures VerifyBatchMembership(c.host, p, c.Spec(), Root(c, t), items) ==>
              || Broken(c, Images(c, t) + CommitmentImages(c, p))
              || forall key :: key in items ==> Entry(key, items[key]) in Leaves(t)
    ensures VerifyBatchNonMembership(c.host, p, c.Spec(), Root(c, t), keys) == Pass ==>
              || Broken(c, Images(c, t) + CommitmentImages(c, p))
              || forall i :: 0 <= i < |keys| ==> Absent(c, Leaves(t), keys[i])
  {
    var s := Images(c, t) + CommitmentImages(c, p);
    if !Broken(c, s) {
      if VerifyBatchMembership(c.host, p, c.Spec(), Root(c, t), items) {
        ItemsAreLeaves(c, t, p, items, s);
      }
      if VerifyBatchNonMembership(c.host, p, c.Spec(), Root(c, t), keys) == Pass {
        KeysAreAbsent(c, t, p, keys, s);
      }
    }
  }

  /** Exclusivity: no key is both a member and a non-member by readable proofs of any kind. */
  lemma {:induction false} ApiExclusive(c: Store, t: Tree, p: CommitmentProof, q: CommitmentProof, key: Bytes,
                                        value: Bytes)
    requires WellFormed(c, t) && Ordered(c, Leaves(t)) && AllReadable(c, p) && AllReadable(c, q)
    requires VerifyMembership(c.host, p, c.Spec(), Root(c, t), key, value)
    requires VerifyNonMembership(c.host, q, c.Spec(), Root(c, t), key) == Pass
    ensures Broken(c, Images(c, t) + CommitmentImages(c, p) + CommitmentImages(c, q))
  {
    var s := Images(c, t) + CommitmentImages(c, p) + CommitmentImages(c, q);
    if !Broken(c, s) {
      var i := MemberIsLeaf(c, t, p, key, value, s);
      NonMemberIsAbsent(c, t, q, key, s);
    }
  }

  /** Position binding: no key has two values by readable proofs of any kind. */
  lemma {:induction false} ApiOneValue(c: Store, t: Tree, p: CommitmentProof, q: CommitmentProof, key: Bytes, v: Bytes,
                                       w: Bytes)
    requires WellFormed(c, t) && Ordered(c, Leaves(t)) && AllReadable(c, p) && AllReadable(c, q)
    requires VerifyMembership(c.host, p, c.Spec(), Root(c, t), key, v)
    requires VerifyMembership(c.host, q, c.Spec(), Root(c, t), key, w)
    ensures v == w || Broken(c, Images(c, t) + CommitmentImages(c, p) + CommitmentImages(c, q))
  {
    var s := Images(c, t) + CommitmentImages(c, p) + CommitmentImages(c, q);
    if !Broken(c, s) {
      var i := MemberIsLeaf(c, t, p, key, v, s);
      var j := MemberIsLeaf(c, t, q, key, w, s);
      OneIndex(c, Leaves(t), i, j);
    }
  }

  /** A non-membership call panics exactly when the entry it finds has two accepted boundaries on one path, or
      two images of the proof collide. Any proof, readable or not. */
  lemma {:induction false} ApiPanicIffSamePath(c: Store, p: CommitmentProof, root: Bytes, key: Bytes)
    ensures var n := GetNonexistProof(c.host, Decompress(p), key, c.Spec());
            || (VerifyNonMembership(c.host, p, c.Spec(), root, key) == Panic <==>
                n.Some? && SamePathTwice(c, n.value, root, key))
            || Collides(c, CommitmentImages(c, p))
  {
    var n := GetNonexistProof(c.host, Decompress(p), key, c.Spec());
    if n.Some? {
      FoundNonexist(c, p, key, n.value);
      PanicIffSamePath(c, n.value, root, key);
    }
  }

  /** So no call on a readable proof panics, or two images of the proof collide. */
  lemma {:induction false} ApiNeverPanics(c: Store, p: CommitmentProof, root: Bytes, key: Bytes)
    requires AllReadable(c, p)
    ensures VerifyNonMembership(c.host, p, c.Spec(), root, key) != Panic || Collides(c, CommitmentImages(c, p))
  {
    var n := GetNonexistProof(c.host, Decompress(p), key, c.Spec());
    if n.Some? {
      FoundNonexist(c, p, key, n.value);
      NonExistenceNeverPanics(c, n.value, root, key);
    }
  }

  lemma {:induction false} SinglePanics(host: Host, p: CommitmentProof, spec: ProofSpec, root: Bytes, keys: seq<Bytes>)
    requires AllPass(host, Decompress(p), spec, root, keys) == Panic
    ensures exists i :: 0 <= i < |keys| && VerifyNonMembership(host, p, spec, root, keys[i]) == Panic
  {
    DecompressTwice(p);
    assert VerifyNonMembership(host, Decompress(p), spec, root, keys[0])
        == VerifyNonMembership(host, p, spec, root, keys[0]);
    if VerifyNonMembership(host, p, spec, root, keys[0]) == Panic {
    } else {
      SinglePanics(host, p, spec, root, keys[1..]);
      var i :| 0 <= i < |keys[1..]| && VerifyNonMembership(host, p, spec, root, keys[1..][i]) == Panic;
      assert keys[1..][i] == keys[i + 1];
    }
  }

  /** Nor does a batch call on a readable proof. */
  lemma {:induction false} ApiBatchNeverPanics(c: Store, p: CommitmentProof, root: Bytes, keys: seq<Bytes>)
    requires AllReadable(c, p)
    ensures || VerifyBatchNonMembership(c.host, p, c.Spec(), root, keys) != Panic
            || Collides(c, CommitmentImages(c, p))
  {
    if VerifyBatchNonMembership(c.host, p, c.Spec(), root, keys) == Panic {
      SinglePanics(c.host, p, c.Spec(), root, keys);
      var i :| 0 <= i < |keys| && VerifyNonMembership(c.host, p, c.Spec(), root, keys[i]) == Panic;
      ApiNeverPanics(c, p, root, keys[i]);
    }
  }

  // ---- Completeness --------------------------------------------------------------------------------------------

  /** The batch a prover builds: an entry for each leaf asked for, then one for each absent key. */
  function ProverBatch(ps: seq<ExistenceProof>, ns: seq<NonExistenceProof>): CommitmentProof {
    Batch(seq(|ps|, i requires 0 <= i < |ps| => ExistEntry(ps[i])) +
          seq(|ns|, i requires 0 <= i < |ns| => NonexistEntry(ns[i])))
  }

  /** In a batch whose entries for one key agree, the proof of that key is found, past any other entries. */
  lemma {:induction false} FindsExist(es: seq<BatchEntry>, ex: ExistenceProof, k: nat)
    requires k < |es| && es[k] == ExistEntry(ex)
    requires forall i :: 0 <= i < |es| && ExistFor(es[i], ex.key) ==> es[i].exist == ex
    ensures GetExistProof(Batch(es), ex.key) == Some(ex)
  {
    assert ExistFor(es[k], ex.key);
    var found := FirstExist(es, ex.key).value;
    var i :| 0 <= i < |es| && es[i] == ExistEntry(found);
    assert ExistFor(es[i], ex.key);
  }

  lemma {:induction false} FindsProver(ps: seq<ExistenceProof>, ns: seq<NonExistenceProof>, k: nat)
    requires k < |ps| && forall i :: 0 <= i < |ps| && ps[i].key == ps[k].key ==> ps[i] == ps[k]
    ensures GetExistProof(ProverBatch(ps, ns), ps[k].key) == Some(ps[k])
  {
    FindsExist(ProverBatch(ps, ns).entries, ps[k], k);
  }

  /** An accepted non-existence proof serves every key its boundaries bracket. */
  lemma {:induction false} ServesBracketed(host: Host, n: NonExistenceProof, spec: ProofSpec, root: Bytes, other: Bytes,
                                           key: Bytes)
    requires VerifyNonExistence(host, n, spec, root, other) == Pass && Brackets(host, spec, n, key)
    ensures VerifyNonExistence(host, n, spec, root, key) == Pass
  {
  }

  lemma {:induction false} AcceptedBrackets(host: Host, n: NonExistenceProof, spec: ProofSpec, root: Bytes, key: Bytes)
    requires VerifyNonExistence(host, n, spec, root, key) == Pass
    ensures Brackets(host, spec, n, key)
  {
  }

  /** If some entry of a batch brackets the key, an entry that brackets it is found. */
  lemma {:induction false} FindsBracket(host: Host, spec: ProofSpec, es: seq<BatchEntry>, key: Bytes, k: nat)
    returns (i: nat)
    requires k < |es| && NonexistFor(host, spec, es[k], key)
    ensures i < |es| && NonexistFor(host, spec, es[i], key)
    ensures GetNonexistProof(host, Batch(es), key, spec) == Some(es[i].nonexist)
  {
    var found := FirstNonexist(host, spec, es, key).value;
    i :| 0 <= i < |es| && es[i] == NonexistEntry(found);
  }

  /** So whatever entry is found for an absent key, it is accepted. */
  lemma {:induction false} FindsNonexist(host: Host, spec: ProofSpec, root: Bytes, ps: seq<ExistenceProof>,
                                         ns: seq<NonExistenceProof>, keys: seq<Bytes>, k: nat)
    requires |ns| == |keys| && k < |keys|
    requires forall i :: 0 <= i < |ns| ==> VerifyNonExistence(host, ns[i], spec, root, keys[i]) == Pass
    ensures VerifyNonMembership(host, ProverBatch(ps, ns), spec, root, keys[k]) == Pass
  {
    AcceptedBrackets(host, ns[k], spec, root, keys[k]);
    ProverEntries(ps, ns, |ps| + k);
    var i := FindsBracket(host, spec, ProverBatch(ps, ns).entries, keys[k], |ps| + k);
    ProverEntries(ps, ns, i);
    ServesBracketed(host, ns[i - |ps|], spec, root, keys[i - |ps|], keys[k]);
  }

  lemma {:induction false} ProverEntries(ps: seq<ExistenceProof>, ns: seq<NonExistenceProof>, i: nat)
    requires i < |ps| + |ns|
    ensures |ProverBatch(ps, ns).entries| == |ps| + |ns|
    ensures ProverBatch(ps, ns).entries[i] == if i < |ps| then ExistEntry(ps[i]) else NonexistEntry(ns[i - |ps|])
  {
  }

  /** The proofs of a selection of leaves, found by key in the batch. */
  lemma {:induction false} FindsLeaf(c: Store, t: Tree, js: seq<nat>, ps: seq<ExistenceProof>,
                                     ns: seq<NonExistenceProof>, k: nat)
    requires Provable(c, t) && Ordered(c, Leaves(t)) && |ps| == |js| && k < |js|
    requires forall i :: 0 <= i < |js| ==> js[i] < |Leaves(t)| && ps[i] == ProofAt(c, t, js[i])
    ensures var e := Leaves(t)[js[k]];
            VerifyMembership(c.host, ProverBatch(ps, ns), c.Spec(), Root(c, t), e.key, e.value)
  {
    forall i | 0 <= i < |ps| && ps[i].key == ps[k].key
      ensures ps[i] == ps[k]
    {
      OneIndex(c, Leaves(t), js[i], js[k]);
    }
    FindsProver(ps, ns, k);
    MembershipComplete(c, t, js[k]);
  }

  lemma {:induction false} FindsNeighbors(c: Store, t: Tree, ps: seq<ExistenceProof>, ns: seq<NonExistenceProof>,
                                          keys: seq<Bytes>, k: nat)
    requires Provable(c, t) && Neighborly(c, t) && Leaves(t) != [] && |ns| == |keys| && k < |keys|
    requires forall i :: 0 <= i < |keys| ==> Absent(c, Leaves(t), keys[i]) && ns[i] == NeighborProof(c, t, keys[i])
    ensures VerifyNonMembership(c.host, ProverBatch(ps, ns), c.Spec(), Root(c, t), keys[k]) == Pass
  {
    forall i | 0 <= i < |keys|
      ensures VerifyNonExistence(c.host, ns[i], c.Spec(), Root(c, t), keys[i]) == Pass
    {
      NonMembershipComplete(c, t, keys[i]);
    }
    FindsNonexist(c.host, c.Spec(), Root(c, t), ps, ns, keys, k);
  }

  /** Completeness of the API: one batch read off the tree proves any selection of its leaves and any list of
      absent keys, compressed or not. */
  lemma {:induction false} ApiComplete(c: Store, t: Tree, js: seq<nat>, keys: seq<Bytes>, ps: seq<ExistenceProof>,
                                       ns: seq<NonExistenceProof>, items: map<Bytes, Bytes>, p: CommitmentProof)
    requires Provable(c, t) && Neighborly(c, t) && Leaves(t) != [] && Ordered(c, Leaves(t))
    requires |ps| == |js| && forall i :: 0 <= i < |js| ==> js[i] < |Leaves(t)| && ps[i] == ProofAt(c, t, js[i])
    requires |ns| == |keys| && forall i :: 0 <= i < |keys| ==>
               Absent(c, Leaves(t), keys[i]) && ns[i] == NeighborProof(c, t, keys[i])
    requires forall key :: key in items ==> exists k :: 0 <= k < |js| && Leaves(t)[js[k]] == Entry(key, items[key])
    requires var batch := ProverBatch(ps, ns); p == batch || (p == CompressProof(batch) && Compressible(batch))
    ensures VerifyBatchMembership(c.host, p, c.Spec(), Root(c, t), items)
    ensures VerifyBatchNonMembership(c.host, p, c.Spec(), Root(c, t), keys) == Pass
  {
    var batch := ProverBatch(ps, ns);
    forall key | key in items
      ensures VerifyMembership(c.host, batch, c.Spec(), Root(c, t), key, items[key])
    {
      var k :| 0 <= k < |js| && Leaves(t)[js[k]] == Entry(key, items[key]);
      FindsLeaf(c, t, js, ps, ns, k);
    }
    forall k | 0 <= k < |keys|
      ensures VerifyNonMembership(c.host, batch, c.Spec(), Root(c, t), keys[k]) == Pass
    {
      FindsNeighbors(c, t, ps, ns, keys, k);
    }
    BatchIsConjunction(c.host, batch, c.Spec(), Root(c, t), items, keys);
    if p != batch {
      SeenAlike(batch);
    }
  }
}
