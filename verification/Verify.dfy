/** rust/src/verify.rs: the existence and non-existence verifiers. Each check is a function of its
    inputs; the checks the source writes as loops are also methods, proved to compute that function. */
module Verify {
  import opened Bytes
  import opened Ics23
  import opened Ops
  import opened Specs

  // ---- Existence -------------------------------------------------------------------------------

  predicate HasPrefix(prefix: Bytes, data: Bytes) {
    |prefix| <= |data| && prefix == data[..|prefix|]
  }

  /** Every byte string, the empty one included, starts with a prefix exactly when something completes it. */
  lemma HasPrefixIff(prefix: Bytes, data: Bytes)
    ensures HasPrefix(prefix, data) <==> exists rest: Bytes :: data == prefix + rest
  {
    if HasPrefix(prefix, data) {
      assert data == prefix + data[|prefix|..];
    }
  }

  predicate EnsureLeaf(leaf: LeafOp, leafSpec: LeafOp) {
    && leafSpec.hash == leaf.hash
    && leafSpec.prehashKey == leaf.prehashKey
    && leafSpec.prehashValue == leaf.prehashValue
    && leafSpec.length == leaf.length
    && HasPrefix(leafSpec.prefix, leaf.prefix)
  }

  predicate EnsureInner(inner: InnerOp, spec: ProofSpec) {
    && spec.leafSpec.Some? && spec.innerSpec.Some?
    && var s := spec.innerSpec.value;
    && inner.hash == s.hash
    && !HasPrefix(spec.leafSpec.value.prefix, inner.prefix)
    && |inner.prefix| >= Usize(s.minPrefixLength)
    && |inner.prefix| <= Usize(s.maxPrefixLength + (|s.childOrder| - 1) * s.childSize)
    && s.childSize > 0
    && s.maxPrefixLength < s.minPrefixLength + s.childSize
    && |inner.suffix| % Usize(s.childSize) == 0
  }

  predicate EnsureDepth(depth: nat, spec: ProofSpec) {
    spec.minDepth != 0 ==> Usize(spec.minDepth) <= depth <= Usize(spec.maxDepth)
  }

  predicate EnsureStep(step: InnerOp, spec: ProofSpec, idx: nat) {
    EnsureInnerPrefix(step.prefix, spec, idx + 1, step.hash) && EnsureInner(step, spec)
  }

  /** `check_existence_spec`. */
  predicate CheckExistenceSpec(proof: ExistenceProof, spec: ProofSpec) {
    && proof.leaf.Some? && spec.leafSpec.Some?
    && EnsureLeafPrefix(proof.leaf.value.prefix, spec)
    && EnsureLeaf(proof.leaf.value, spec.leafSpec.value)
    && EnsureDepth(|proof.path|, spec)
    && forall idx :: 0 <= idx < |proof.path| ==> EnsureStep(proof.path[idx], spec, idx)
  }

  /** One op applied to a child hash, with the child size check that follows it. */
  function FoldOne(host: Host, spec: Option<InnerSpec>, step: InnerOp, child: Bytes): Option<Bytes> {
    match ApplyInner(host, step, child)
    case None => None
    case Some(hash) =>
      if spec.Some? && |hash| > Usize(spec.value.childSize) && spec.value.childSize >= 32 then None
      else Some(hash)
  }

  /** The hash after applying every op of `path`, the last op being the one nearest the root. */
  function FoldPath(host: Host, spec: Option<InnerSpec>, leafHash: Bytes, path: seq<InnerOp>): Option<Bytes> {
    if path == [] then Some(leafHash)
    else
      match FoldPath(host, spec, leafHash, Init(path))
      case None => None
      case Some(child) => FoldOne(host, spec, Last(path), child)
  }

  /** `calculate_existence_root_for_spec`. */
  function CalculateRoot(host: Host, proof: ExistenceProof, spec: Option<InnerSpec>): Option<Bytes> {
    if proof.key == [] || proof.value == [] || proof.leaf == None then None
    else
      match ApplyLeaf(host, proof.leaf.value, proof.key, proof.value)
      case None => None
      case Some(leafHash) => FoldPath(host, spec, leafHash, proof.path)
  }

  lemma {:induction false} SpecOnlyRefusesPath(host: Host, spec: InnerSpec, leafHash: Bytes, path: seq<InnerOp>)
    ensures FoldPath(host, Some(spec), leafHash, path).Some? ==>
              FoldPath(host, Some(spec), leafHash, path) == FoldPath(host, None, leafHash, path)
  {
    if path == [] {
    } else {
      SpecOnlyRefusesPath(host, spec, leafHash, Init(path));
    }
  }

  /** With a spec the root is the one computed without it (`calculate_existence_root`), or refused. */
  lemma {:induction false} SpecOnlyRefuses(host: Host, proof: ExistenceProof, spec: InnerSpec)
    ensures CalculateRoot(host, proof, Some(spec)) in {None, CalculateRoot(host, proof, None)}
  {
    if proof.key != [] && proof.value != [] && proof.leaf.Some? {
      var leafHash := ApplyLeaf(host, proof.leaf.value, proof.key, proof.value);
      if leafHash.Some? {
        SpecOnlyRefusesPath(host, spec, leafHash.value, proof.path);
      }
    }
  }

  /** `verify_existence`. */
  predicate VerifyExistence(host: Host, proof: ExistenceProof, spec: ProofSpec, root: Bytes, key: Bytes,
                            value: Bytes) {
    && CheckExistenceSpec(proof, spec)
    && proof.key == key
    && proof.value == value
    && CalculateRoot(host, proof, spec.innerSpec) == Some(root)
  }

  // ---- Padding -----------------------------------------------------------------------------------

  datatype Padding = Padding(minPrefix: nat, maxPrefix: nat, suffix: nat)

  /** `get_padding`: the branch's own value serves as its slot. Callers ask for branches in range only. */
  function GetPadding(spec: InnerSpec, branch: int): Option<Padding> {
    if branch !in spec.childOrder || branch < 0 || branch >= |spec.childOrder| then None
    else
      var prefix := branch * spec.childSize;
      var after: nat := |spec.childOrder| - 1 - branch;
      Some(Padding(Usize(prefix + spec.minPrefixLength), Usize(prefix + spec.maxPrefixLength),
                   after * Usize(spec.childSize)))
  }

  predicate HasPadding(op: InnerOp, pad: Padding) {
    pad.minPrefix <= |op.prefix| <= pad.maxPrefix && |op.suffix| == pad.suffix
  }

  /** `order_from_padding`, scanning from `branch` on. */
  function OrderFrom(spec: InnerSpec, op: InnerOp, branch: nat): (r: Option<nat>)
    ensures r.Some? ==> branch <= r.value < |spec.childOrder|
    ensures r.Some? ==> GetPadding(spec, r.value).Some? && HasPadding(op, GetPadding(spec, r.value).value)
    decreases |spec.childOrder| - branch
  {
    if branch >= |spec.childOrder| || GetPadding(spec, branch) == None then None
    else if HasPadding(op, GetPadding(spec, branch).value) then Some(branch)
    else OrderFrom(spec, op, branch + 1)
  }

  /** `order_from_padding`: the child slot an op's lengths put its child in. */
  function OrderFromPadding(spec: InnerSpec, op: InnerOp): (r: Option<nat>)
    ensures r.Some? ==> r.value < |spec.childOrder|
    ensures r.Some? ==> GetPadding(spec, r.value).Some? && HasPadding(op, GetPadding(spec, r.value).value)
  {
    OrderFrom(spec, op, 0)
  }

  /** `order_from_padding` as written. */
  method FindOrder(spec: InnerSpec, op: InnerOp) returns (r: Option<nat>)
    ensures r == OrderFromPadding(spec, op)
  {
    for branch := 0 to |spec.childOrder|
      invariant OrderFrom(spec, op, branch) == OrderFromPadding(spec, op)
    {
      var padding := GetPadding(spec, branch);
      if padding == None {
        return None;
      }
      if HasPadding(op, padding.value) {
        return Some(branch);
      }
    }
    return None;
  }

  // ---- Placeholder siblings ----------------------------------------------------------------------

  lemma SlotInRange(count: nat, i: nat, size: nat)
    requires i < count
    ensures i * size + size <= count * size
  {
    assert count * size == (i + 1) * size + (count - i - 1) * size;
    assert (count - i - 1) * size >= 0;
  }

  /** Slot `i` of the `count` slots of `size` bytes that start at `from`. */
  function SlotAt(data: Bytes, from: nat, count: nat, size: nat, i: nat): (r: Bytes)
    requires from + count * size <= |data| && i < count
    ensures |r| == size
  {
    SlotInRange(count, i, size);
    data[from + i * size..from + i * size + size]
  }

  predicate SlotsAreEmpty(data: Bytes, from: nat, count: nat, size: nat, empty: Bytes)
    requires from + count * size <= |data|
  {
    forall i :: 0 <= i < count ==> SlotAt(data, from, count, size, i) == empty
  }

  method ScanSlots(data: Bytes, from: nat, count: nat, size: nat, empty: Bytes) returns (ok: bool)
    requires from + count * size <= |data|
    ensures ok == SlotsAreEmpty(data, from, count, size, empty)
  {
    for i := 0 to count
      invariant forall j :: 0 <= j < i ==> SlotAt(data, from, count, size, j) == empty
    {
      if SlotAt(data, from, count, size, i) != empty {
        return false;
      }
    }
    return true;
  }

  /** `left_branches_are_empty`. */
  predicate LeftBranchesAreEmpty(spec: InnerSpec, op: InnerOp) {
    var idx := OrderFromPadding(spec, op);
    var size := Usize(spec.childSize);
    && idx.Some? && idx.value > 0
    && idx.value * size <= |op.prefix|
    && SlotsAreEmpty(op.prefix, |op.prefix| - idx.value * size, idx.value, size, spec.emptyChild)
  }

  /** `right_branches_are_empty`: demands exactly one child of suffix, however many branches there are
      to the right. */
  predicate RightBranchesAreEmpty(spec: InnerSpec, op: InnerOp) {
    var idx := OrderFromPadding(spec, op);
    var size := Usize(spec.childSize);
    && idx.Some?
    && var right := |spec.childOrder| - 1 - idx.value;
    && right > 0
    && |op.suffix| == size
    && SlotsAreEmpty(op.suffix, 0, right, size, spec.emptyChild)
  }

  // ---- Leftmost, rightmost and neighbouring paths ----------------------------------------------------

  predicate LeftMostStep(spec: InnerSpec, pad: Padding, step: InnerOp) {
    HasPadding(step, pad) || LeftBranchesAreEmpty(spec, step)
  }

  predicate RightMostStep(spec: InnerSpec, pad: Padding, step: InnerOp) {
    HasPadding(step, pad) || RightBranchesAreEmpty(spec, step)
  }

  /** `ensure_left_most`. */
  predicate LeftMost(spec: InnerSpec, path: seq<InnerOp>) {
    var pad := GetPadding(spec, 0);
    pad.Some? && forall i :: 0 <= i < |path| ==> LeftMostStep(spec, pad.value, path[i])
  }

  /** `ensure_right_most`. */
  predicate RightMost(spec: InnerSpec, path: seq<InnerOp>) {
    var pad := GetPadding(spec, |spec.childOrder| - 1);
    pad.Some? && forall i :: 0 <= i < |path| ==> RightMostStep(spec, pad.value, path[i])
  }

  /** `is_left_step`. */
  predicate IsLeftStep(spec: InnerSpec, left: InnerOp, right: InnerOp) {
    var l, r := OrderFromPadding(spec, left), OrderFromPadding(spec, right);
    l.Some? && r.Some? && l.value + 1 == r.value
  }

  /** A check passes, fails with an error, or panics by unwrapping an empty option. */
  datatype Outcome = Pass | Fail | Panic

  predicate SameStep(left: InnerOp, right: InnerOp) {
    left.prefix == right.prefix && left.suffix == right.suffix
  }

  /** `ensure_left_neighbor`: drop the common steps at the root end, then compare. */
  function LeftNeighbor(spec: InnerSpec, left: seq<InnerOp>, right: seq<InnerOp>): Outcome
    decreases |left|, 1
  {
    if left == [] || right == [] then Panic else CompareTops(spec, left, right)
  }

  /** One turn of the pop loop: the two steps nearest the root. */
  function CompareTops(spec: InnerSpec, left: seq<InnerOp>, right: seq<InnerOp>): Outcome
    requires left != [] && right != []
    decreases |left|, 0
  {
    if SameStep(Last(left), Last(right)) then LeftNeighbor(spec, Init(left), Init(right))
    else if IsLeftStep(spec, Last(left), Last(right)) && RightMost(spec, Init(left)) && LeftMost(spec, Init(right))
    then Pass
    else Fail
  }

  // ---- Non-existence -------------------------------------------------------------------------------

  /** `key_for_comparison`. */
  function KeyForComparison(host: Host, spec: ProofSpec, key: Bytes): Bytes {
    if spec.prehashKeyBeforeComparison then
      DoHash(host, if spec.leafSpec.Some? then spec.leafSpec.value.prehashKey else NO_HASH, key)
    else key
  }

  predicate KeyLess(host: Host, spec: ProofSpec, a: Bytes, b: Bytes) {
    Less(KeyForComparison(host, spec, a), KeyForComparison(host, spec, b))
  }

  predicate BoundaryHolds(host: Host, boundary: Option<ExistenceProof>, spec: ProofSpec, root: Bytes) {
    boundary.Some? ==>
      VerifyExistence(host, boundary.value, spec, root, boundary.value.key, boundary.value.value)
  }

  /** Both boundaries hold and `key` lies strictly between them. */
  predicate BoundariesHold(host: Host, proof: NonExistenceProof, spec: ProofSpec, root: Bytes, key: Bytes) {
    && BoundaryHolds(host, proof.left, spec, root)
    && (proof.left.Some? ==> KeyLess(host, spec, proof.left.value.key, key))
    && BoundaryHolds(host, proof.right, spec, root)
    && (proof.right.Some? ==> KeyLess(host, spec, key, proof.right.value.key))
  }

  /** The boundaries leave no room between them. */
  function NoRoom(inner: InnerSpec, left: Option<ExistenceProof>, right: Option<ExistenceProof>): Outcome {
    match (left, right)
    case (Some(l), None) => if RightMost(inner, l.path) then Pass else Fail
    case (None, Some(r)) => if LeftMost(inner, r.path) then Pass else Fail
    case (Some(l), Some(r)) => LeftNeighbor(inner, l.path, r.path)
    case (None, None) => Fail
  }

  /** `verify_non_existence`. */
  function VerifyNonExistence(host: Host, proof: NonExistenceProof, spec: ProofSpec, root: Bytes, key: Bytes)
    : Outcome
  {
    if BoundariesHold(host, proof, spec, root, key) && spec.innerSpec.Some? then
      NoRoom(spec.innerSpec.value, proof.left, proof.right)
    else Fail
  }

  // ---- The loops -----------------------------------------------------------------------------------

  /** `calculate_existence_root_for_spec` as written: `hash` is folded through the path in place. */
  method CalculateExistenceRootForSpec(host: Host, proof: ExistenceProof, spec: Option<InnerSpec>)
    returns (root: Option<Bytes>)
    ensures root == CalculateRoot(host, proof, spec)
  {
    if proof.key == [] || proof.value == [] || proof.leaf == None {
      return None;
    }
    var start := ApplyLeaf(host, proof.leaf.value, proof.key, proof.value);
    if start == None {
      return None;
    }
    var hash := start.value;
    for i := 0 to |proof.path|
      invariant FoldPath(host, spec, start.value, proof.path[..i]) == Some(hash)
    {
      FoldStep(host, spec, start.value, proof.path, i);
      var next := FoldOne(host, spec, proof.path[i], hash);
      if next == None {
        return None;
      }
      hash := next.value;
    }
    assert proof.path[..|proof.path|] == proof.path;
    return Some(hash);
  }

  /** One turn of the fold; once it fails, so does the whole fold, and the loop may return at once. */
  lemma FoldStep(host: Host, spec: Option<InnerSpec>, leafHash: Bytes, path: seq<InnerOp>, i: nat)
    requires i < |path| && FoldPath(host, spec, leafHash, path[..i]).Some?
    ensures var next := FoldOne(host, spec, path[i], FoldPath(host, spec, leafHash, path[..i]).value);
            && FoldPath(host, spec, leafHash, path[..i + 1]) == next
            && (next == None ==> FoldPath(host, spec, leafHash, path) == None)
  {
    assert Init(path[..i + 1]) == path[..i];
    if FoldPath(host, spec, leafHash, path[..i + 1]) == None {
      FoldStaysFailed(host, spec, leafHash, path, i + 1);
    }
  }

  lemma {:induction false} FoldStaysFailed(host: Host, spec: Option<InnerSpec>, leafHash: Bytes,
                                           path: seq<InnerOp>, n: nat)
    requires n <= |path| && FoldPath(host, spec, leafHash, path[..n]) == None
    ensures FoldPath(host, spec, leafHash, path) == None
  {
    if n == |path| {
      assert path[..n] == path;
    } else {
      assert Init(path)[..n] == path[..n];
      FoldStaysFailed(host, spec, leafHash, Init(path), n);
    }
  }

  /** `check_existence_spec` as written. */
  method CheckAgainstSpec(proof: ExistenceProof, spec: ProofSpec) returns (ok: bool)
    ensures ok == CheckExistenceSpec(proof, spec)
  {
    if proof.leaf == None || spec.leafSpec == None
       || !EnsureLeafPrefix(proof.leaf.value.prefix, spec)
       || !EnsureLeaf(proof.leaf.value, spec.leafSpec.value)
       || !EnsureDepth(|proof.path|, spec) {
      return false;
    }
    for idx := 0 to |proof.path|
      invariant forall j :: 0 <= j < idx ==> EnsureStep(proof.path[j], spec, j)
    {
      if !EnsureStep(proof.path[idx], spec, idx) {
        return false;
      }
    }
    return true;
  }

  /** `ensure_left_most` as written. */
  method EnsureLeftMost(spec: InnerSpec, path: seq<InnerOp>) returns (ok: bool)
    ensures ok == LeftMost(spec, path)
  {
    var pad := GetPadding(spec, 0);
    if pad == None {
      return false;
    }
    for i := 0 to |path|
      invariant forall j :: 0 <= j < i ==> LeftMostStep(spec, pad.value, path[j])
    {
      if !HasPadding(path[i], pad.value) && !LeftBranchesAreEmpty(spec, path[i]) {
        return false;
      }
    }
    return true;
  }

  /** `ensure_right_most` as written. */
  method EnsureRightMost(spec: InnerSpec, path: seq<InnerOp>) returns (ok: bool)
    ensures ok == RightMost(spec, path)
  {
    var pad := GetPadding(spec, |spec.childOrder| - 1);
    if pad == None {
      return false;
    }
    for i := 0 to |path|
      invariant forall j :: 0 <= j < i ==> RightMostStep(spec, pad.value, path[j])
    {
      if !HasPadding(path[i], pad.value) && !RightBranchesAreEmpty(spec, path[i]) {
        return false;
      }
    }
    return true;
  }

  /** `ensure_left_neighbor` as written: pop both vectors while their tops agree. */
  method EnsureLeftNeighbor(spec: InnerSpec, left: seq<InnerOp>, right: seq<InnerOp>) returns (r: Outcome)
    ensures r == LeftNeighbor(spec, left, right)
  {
    var mutLeft, mutRight := left, right;
    if mutLeft == [] || mutRight == [] {
      return Panic;
    }
    var topLeft, topRight := Last(mutLeft), Last(mutRight);
    mutLeft, mutRight := Init(mutLeft), Init(mutRight);
    assert left == mutLeft + [topLeft] && right == mutRight + [topRight];
    while SameStep(topLeft, topRight)
      invariant CompareTops(spec, mutLeft + [topLeft], mutRight + [topRight]) == LeftNeighbor(spec, left, right)
      decreases |mutLeft|
    {
      assert Init(mutLeft + [topLeft]) == mutLeft && Init(mutRight + [topRight]) == mutRight;
      if mutLeft == [] || mutRight == [] {
        return Panic;
      }
      ghost var restLeft, restRight := mutLeft, mutRight;
      topLeft, topRight := Last(mutLeft), Last(mutRight);
      mutLeft, mutRight := Init(mutLeft), Init(mutRight);
      assert restLeft == mutLeft + [topLeft] && restRight == mutRight + [topRight];
    }
    assert Init(mutLeft + [topLeft]) == mutLeft && Init(mutRight + [topRight]) == mutRight;
    if !IsLeftStep(spec, topLeft, topRight) {
      return Fail;
    }
    var rightMost := EnsureRightMost(spec, mutLeft);
    if !rightMost {
      return Fail;
    }
    var leftMost := EnsureLeftMost(spec, mutRight);
    return if leftMost then Pass else Fail;
  }
}
