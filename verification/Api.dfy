/** rust/src/api.rs: the four verification calls over single, batch and compressed proofs. */
module Api {
  import opened Bytes
  import opened Ics23
  import opened Ops
  import opened Verify
  import opened Compress

  // ---- Picking a proof ---------------------------------------------------------------------------------

  predicate ExistFor(e: BatchEntry, key: Bytes) {
    e.ExistEntry? && e.exist.key == key
  }

  function FirstExist(es: seq<BatchEntry>, key: Bytes): (r: Option<ExistenceProof>)
    ensures r.Some? ==> exists i :: 0 <= i < |es| && es[i] == ExistEntry(r.value)
    ensures r.Some? ==> r.value.key == key
    ensures r == None ==> forall i :: 0 <= i < |es| ==> !ExistFor(es[i], key)
  {
    if es == [] then None
    else if ExistFor(es[0], key) then Some(es[0].exist)
    else
      var r := FirstExist(es[1..], key);
      assert r.Some? ==> exists i :: 0 <= i < |es[1..]| && es[1..][i] == ExistEntry(r.value) && es[i + 1] == es[1..][i];
      r
  }

  /** `get_exist_proof`: a single proof whatever its key, in a batch the first with this key. */
  function GetExistProof(p: CommitmentProof, key: Bytes): Option<ExistenceProof> {
    match p
    case Exist(ex) => Some(ex)
    case Batch(es) => FirstExist(es, key)
    case _ => None
  }

  /** Each boundary there is lies on its side of `key`, in the spec's comparison order. */
  predicate Brackets(host: Host, spec: ProofSpec, non: NonExistenceProof, key: Bytes) {
    && (non.left.Some? ==> KeyLess(host, spec, non.left.value.key, key))
    && (non.right.Some? ==> KeyLess(host, spec, key, non.right.value.key))
  }

  predicate NonexistFor(host: Host, spec: ProofSpec, e: BatchEntry, key: Bytes) {
    e.NonexistEntry? && Brackets(host, spec, e.nonexist, key)
  }

  function FirstNonexist(host: Host, spec: ProofSpec, es: seq<BatchEntry>, key: Bytes): (r: Option<NonExistenceProof>)
    ensures r.Some? ==> exists i :: 0 <= i < |es| && es[i] == NonexistEntry(r.value)
    ensures r.Some? ==> Brackets(host, spec, r.value, key)
    ensures r == None ==> forall i :: 0 <= i < |es| ==> !NonexistFor(host, spec, es[i], key)
  {
    if es == [] then None
    else if NonexistFor(host, spec, es[0], key) then Some(es[0].nonexist)
    else
      var r := FirstNonexist(host, spec, es[1..], key);
      assert r.Some? ==>
        exists i :: 0 <= i < |es[1..]| && es[1..][i] == NonexistEntry(r.value) && es[i + 1] == es[1..][i];
      r
  }

  /** `get_nonexist_proof`: the first proof whose boundaries bracket the key. */
  function GetNonexistProof(host: Host, p: CommitmentProof, key: Bytes, spec: ProofSpec): Option<NonExistenceProof> {
    match p
    case Nonexist(non) => if Brackets(host, spec, non, key) then Some(non) else None
    case Batch(es) => FirstNonexist(host, spec, es, key)
    case _ => None
  }

  /** The scan of `get_exist_proof` as written. */
  method ScanForExist(es: seq<BatchEntry>, key: Bytes) returns (r: Option<ExistenceProof>)
    ensures r == GetExistProof(Batch(es), key)
  {
    for i := 0 to |es|
      invariant FirstExist(es[i..], key) == FirstExist(es, key)
    {
      assert es[i..][1..] == es[i + 1..];
      if es[i].ExistEntry? && es[i].exist.key == key {
        return Some(es[i].exist);
      }
    }
    return None;
  }

  /** The scan of `get_nonexist_proof` as written. */
  method ScanForNonexist(host: Host, spec: ProofSpec, es: seq<BatchEntry>, key: Bytes)
    returns (r: Option<NonExistenceProof>)
    ensures r == GetNonexistProof(host, Batch(es), key, spec)
  {
    for i := 0 to |es|
      invariant FirstNonexist(host, spec, es[i..], key) == FirstNonexist(host, spec, es, key)
    {
      assert es[i..][1..] == es[i + 1..];
      if es[i].NonexistEntry? && Brackets(host, spec, es[i].nonexist, key) {
        return Some(es[i].nonexist);
      }
    }
    return None;
  }

  // ---- The four calls ------------------------------------------------------------------------------------

  /** `verify_membership`. */
  predicate VerifyMembership(host: Host, p: CommitmentProof, spec: ProofSpec, root: Bytes, key: Bytes, value: Bytes) {
    var ex := GetExistProof(Decompress(p), key);
    ex.Some? && VerifyExistence(host, ex.value, spec, root, key, value)
  }

  /** `verify_non_membership`; a panic of `verify_non_existence` is the caller's. */
  function VerifyNonMembership(host: Host, p: CommitmentProof, spec: ProofSpec, root: Bytes, key: Bytes): Outcome {
    var non := GetNonexistProof(host, Decompress(p), key, spec);
    if non == None then Fail else VerifyNonExistence(host, non.value, spec, root, key)
  }

  /** `verify_batch_membership`: decompress once, then every item. */
  predicate VerifyBatchMembership(host: Host, p: CommitmentProof, spec: ProofSpec, root: Bytes,
                                  items: map<Bytes, Bytes>)
  {
    var plain := Decompress(p);
    forall key :: key in items ==> VerifyMembership(host, plain, spec, root, key, items[key])
  }

  /** `verify_batch_non_membership`: decompress once, then key by key until one does not pass. */
  function VerifyBatchNonMembership(host: Host, p: CommitmentProof, spec: ProofSpec, root: Bytes, keys: seq<Bytes>)
    : Outcome
  {
    AllPass(host, Decompress(p), spec, root, keys)
  }

  function AllPass(host: Host, plain: CommitmentProof, spec: ProofSpec, root: Bytes, keys: seq<Bytes>): Outcome {
    if keys == [] then Pass
    else
      var first := VerifyNonMembership(host, plain, spec, root, keys[0]);
      if first == Pass then AllPass(host, plain, spec, root, keys[1..]) else first
  }

  // ---- Which proof answers --------------------------------------------------------------------------------

  /** Entry `i` is the first existence entry with this key. */
  ghost predicate FirstExistAt(es: seq<BatchEntry>, i: nat, key: Bytes) {
    i < |es| && ExistFor(es[i], key) && forall j :: 0 <= j < i ==> !ExistFor(es[j], key)
  }

  lemma {:induction false} FirstExistIs(es: seq<BatchEntry>, i: nat, key: Bytes)
    requires FirstExistAt(es, i, key)
    ensures FirstExist(es, key) == Some(es[i].exist)
    decreases i
  {
    if i == 0 {
    } else {
      assert !ExistFor(es[0], key);
      assert forall j :: 0 <= j < i - 1 ==> es[1..][j] == es[j + 1];
      FirstExistIs(es[1..], i - 1, key);
    }
  }

  lemma {:induction false} ExistPosition(es: seq<BatchEntry>, key: Bytes) returns (i: nat)
    requires FirstExist(es, key).Some?
    ensures FirstExistAt(es, i, key)
  {
    if ExistFor(es[0], key) {
      i := 0;
    } else {
      i := ExistPosition(es[1..], key);
      assert forall j :: 0 < j <= i ==> es[j] == es[1..][j - 1];
      i := i + 1;
    }
  }

  /** Entry `i` is the first non-existence entry whose boundaries bracket the key. */
  ghost predicate FirstNonexistAt(host: Host, spec: ProofSpec, es: seq<BatchEntry>, i: nat, key: Bytes) {
    && i < |es| && NonexistFor(host, spec, es[i], key)
    && forall j :: 0 <= j < i ==> !NonexistFor(host, spec, es[j], key)
  }

  lemma {:induction false} FirstNonexistIs(host: Host, spec: ProofSpec, es: seq<BatchEntry>, i: nat, key: Bytes)
    requires FirstNonexistAt(host, spec, es, i, key)
    ensures FirstNonexist(host, spec, es, key) == Some(es[i].nonexist)
    decreases i
  {
    if i == 0 {
    } else {
      assert !NonexistFor(host, spec, es[0], key);
      assert forall j :: 0 <= j < i - 1 ==> es[1..][j] == es[j + 1];
      FirstNonexistIs(host, spec, es[1..], i - 1, key);
    }
  }

  /** A membership call is answered by the single existence proof, or in a batch by the first existence entry with
      the key; by nothing else. */
  lemma {:induction false} MembershipIff(host: Host, p: CommitmentProof, spec: ProofSpec, root: Bytes, key: Bytes,
                                         value: Bytes)
    ensures VerifyMembership(host, p, spec, root, key, value) <==>
            match Decompress(p)
            case Exist(ex) => VerifyExistence(host, ex, spec, root, key, value)
            case Batch(es) => exists i: nat :: FirstExistAt(es, i, key) &&
                                               VerifyExistence(host, es[i].exist, spec, root, key, value)
            case _ => false
  {
    match Decompress(p) {
      case Batch(es) =>
        if FirstExist(es, key).Some? {
          var i := ExistPosition(es, key);
          FirstExistIs(es, i, key);
        }
        if i: nat :| FirstExistAt(es, i, key) && VerifyExistence(host, es[i].exist, spec, root, key, value) {
          FirstExistIs(es, i, key);
        }
      case _ =>
    }
  }

  /** A non-membership call is answered by the single non-existence proof, or in a batch by the first
      non-existence entry that brackets the key; by nothing else. */
  lemma {:induction false} NonMembershipIs(host: Host, p: CommitmentProof, spec: ProofSpec, root: Bytes, key: Bytes)
    ensures match Decompress(p)
            case Nonexist(n) =>
              VerifyNonMembership(host, p, spec, root, key) == VerifyNonExistence(host, n, spec, root, key)
            case Batch(es) =>
              && (forall i: nat :: FirstNonexistAt(host, spec, es, i, key) ==>
                    VerifyNonMembership(host, p, spec, root, key)
                    == VerifyNonExistence(host, es[i].nonexist, spec, root, key))
              && ((forall i :: 0 <= i < |es| ==> !NonexistFor(host, spec, es[i], key)) ==>
                    VerifyNonMembership(host, p, spec, root, key) == Fail)
            case _ => VerifyNonMembership(host, p, spec, root, key) == Fail
  {
    match Decompress(p) {
      case Batch(es) =>
        forall i: nat | FirstNonexistAt(host, spec, es, i, key)
          ensures FirstNonexist(host, spec, es, key) == Some(es[i].nonexist)
        {
          FirstNonexistIs(host, spec, es, i, key);
        }
      case _ =>
    }
  }

  lemma {:induction false} OnePasses(host: Host, plain: CommitmentProof, spec: ProofSpec, root: Bytes, keys: seq<Bytes>)
    requires keys != []
    ensures AllPass(host, plain, spec, root, keys) ==
            var first := VerifyNonMembership(host, plain, spec, root, keys[0]);
            if first == Pass then AllPass(host, plain, spec, root, keys[1..]) else first
  {
  }

  lemma {:induction false} ManyPass(host: Host, plain: CommitmentProof, spec: ProofSpec, root: Bytes, keys: seq<Bytes>,
                                    i: nat)
    requires i <= |keys|
    requires forall j :: 0 <= j < i ==> VerifyNonMembership(host, plain, spec, root, keys[j]) == Pass
    ensures AllPass(host, plain, spec, root, keys) == AllPass(host, plain, spec, root, keys[i..])
  {
    if i == 0 {
      assert keys[0..] == keys;
    } else {
      ManyPass(host, plain, spec, root, keys, i - 1);
      var rest := keys[i - 1..];
      assert rest[0] == keys[i - 1] && rest[1..] == keys[i..];
      OnePasses(host, plain, spec, root, rest);
    }
  }

  lemma SeenDecompressed(host: Host, p: CommitmentProof, spec: ProofSpec, root: Bytes, key: Bytes)
    ensures VerifyNonMembership(host, Decompress(p), spec, root, key) == VerifyNonMembership(host, p, spec, root, key)
  {
    DecompressTwice(p);
  }

  /** A batch non-membership call that does not pass ends as the first single call that does not. */
  lemma {:induction false} FirstRefusalDecides(host: Host, p: CommitmentProof, spec: ProofSpec, root: Bytes,
                                               keys: seq<Bytes>, i: nat)
    requires i < |keys| && VerifyNonMembership(host, p, spec, root, keys[i]) != Pass
    requires forall j :: 0 <= j < i ==> VerifyNonMembership(host, p, spec, root, keys[j]) == Pass
    ensures VerifyBatchNonMembership(host, p, spec, root, keys) == VerifyNonMembership(host, p, spec, root, keys[i])
  {
    forall j | 0 <= j <= i
      ensures VerifyNonMembership(host, Decompress(p), spec, root, keys[j])
           == VerifyNonMembership(host, p, spec, root, keys[j])
    {
      SeenDecompressed(host, p, spec, root, keys[j]);
    }
    ManyPass(host, Decompress(p), spec, root, keys, i);
    OnePasses(host, Decompress(p), spec, root, keys[i..]);
  }

  // ---- Batches and compression -----------------------------------------------------------------------------

  lemma DecompressTwice(p: CommitmentProof)
    ensures Decompress(Decompress(p)) == Decompress(p)
  {
  }

  lemma {:induction false} AllPassIsConjunction(host: Host, p: CommitmentProof, spec: ProofSpec, root: Bytes,
                                                keys: seq<Bytes>)
    ensures AllPass(host, Decompress(p), spec, root, keys) == Pass <==>
            forall i :: 0 <= i < |keys| ==> VerifyNonMembership(host, p, spec, root, keys[i]) == Pass
  {
    DecompressTwice(p);
    if keys == [] {
    } else {
      var rest := keys[1..];
      AllPassIsConjunction(host, p, spec, root, rest);
      assert VerifyNonMembership(host, Decompress(p), spec, root, keys[0])
          == VerifyNonMembership(host, p, spec, root, keys[0]);
      assert forall i :: 0 < i < |keys| ==> keys[i] == rest[i - 1];
      assert forall i :: 0 <= i < |rest| ==> rest[i] == keys[i + 1];
    }
  }

  /** A batch call is the conjunction of the single calls on the proof as it came, compressed or not. */
  lemma {:induction false} BatchIsConjunction(host: Host, p: CommitmentProof, spec: ProofSpec, root: Bytes,
                                              items: map<Bytes, Bytes>, keys: seq<Bytes>)
    ensures VerifyBatchMembership(host, p, spec, root, items) <==>
            forall key :: key in items ==> VerifyMembership(host, p, spec, root, key, items[key])
    ensures VerifyBatchNonMembership(host, p, spec, root, keys) == Pass <==>
            forall i :: 0 <= i < |keys| ==> VerifyNonMembership(host, p, spec, root, keys[i]) == Pass
  {
    DecompressTwice(p);
    forall key, value
      ensures VerifyMembership(host, Decompress(p), spec, root, key, value)
          <==> VerifyMembership(host, p, spec, root, key, value)
    {
    }
    AllPassIsConjunction(host, p, spec, root, keys);
  }

  /** The batch's table positions fit 32 bits; a proof that is no batch is left as it is. */
  ghost predicate Compressible(p: CommitmentProof) {
    p.Batch? ==> |Distinct(p.entries)| <= MAX_TABLE
  }

  /** What the verifiers see of a compressed proof is what they see of the proof itself. */
  lemma SeenAlike(p: CommitmentProof)
    requires Compressible(p)
    ensures Decompress(CompressProof(p)) == Decompress(p)
  {
    if p.Batch? {
      CompressionRoundTrip(p.entries);
    }
  }

  /** Compression is invisible: all four calls answer on the compressed proof as on the proof itself. */
  lemma CompressionInvisible(host: Host, p: CommitmentProof, spec: ProofSpec, root: Bytes, key: Bytes, value: Bytes,
                             items: map<Bytes, Bytes>, keys: seq<Bytes>)
    requires Compressible(p)
    ensures VerifyMembership(host, CompressProof(p), spec, root, key, value)
        <==> VerifyMembership(host, p, spec, root, key, value)
    ensures VerifyNonMembership(host, CompressProof(p), spec, root, key)
         == VerifyNonMembership(host, p, spec, root, key)
    ensures VerifyBatchMembership(host, CompressProof(p), spec, root, items)
        <==> VerifyBatchMembership(host, p, spec, root, items)
    ensures VerifyBatchNonMembership(host, CompressProof(p), spec, root, keys)
         == VerifyBatchNonMembership(host, p, spec, root, keys)
  {
    SeenAlike(p);
  }
}
