/** go/proof.go and go/ops.go: the Go verifier, and exactly what it demands beyond the Rust one on the
    built-in specs. An error and a false answer are both refusals; Panic is an index or error panic. Go tells a
    nil suffix from an empty one, so its proofs say of every op which it is. */
module GoVerify {
  import opened Bytes
  import opened Varints
  import opened Ics23
  import opened Ops
  import opened Specs
  import opened Verify
  import opened Tree
  import opened Soundness

  // ---- Proofs ----------------------------------------------------------------------------------------

  /** An existence proof, and for each op of its path whether `Suffix` is set. */
  datatype GoProof = GoProof(proof: ExistenceProof, suffixSet: seq<bool>)

  /** Only an empty suffix can be nil. */
  predicate SuffixesAgree(p: GoProof) {
    && |p.suffixSet| == |p.proof.path|
    && forall i :: 0 <= i < |p.suffixSet| ==> p.proof.path[i].suffix == [] || p.suffixSet[i]
  }

  type GoExistence = p: GoProof | SuffixesAgree(p) witness GoProof(ExistenceProof([], [], None, []), [])

  datatype GoNonExistence = GoNonExistence(key: Bytes, left: Option<GoExistence>, right: Option<GoExistence>)

  function Side(p: Option<GoExistence>): Option<ExistenceProof> {
    if p == None then None else Some(p.value.proof)
  }

  /** The proof as Rust reads it. */
  function Unset(p: GoNonExistence): NonExistenceProof {
    NonExistenceProof(p.key, Side(p.left), Side(p.right))
  }

  // ---- Hashing ---------------------------------------------------------------------------------------

  /** The ops of `doHash`: fewer than the Rust ones, and none of them the identity. */
  predicate GoSupports(op: int32) {
    op in {SHA256, SHA512, RIPEMD160, BITCOIN, SHA512_256, BLAKE2B_512, BLAKE2S_256}
  }

  /** `doHash`. */
  function GoHash(host: Host, op: int32, data: Bytes): Option<Bytes> {
    if GoSupports(op) then Some(DoHash(host, op, data)) else None
  }

  /** `doHashOrNoop`. */
  function HashOrNoop(host: Host, op: int32, data: Bytes): Option<Bytes> {
    if op == NO_HASH then Some(data) else GoHash(host, op, data)
  }

  /** `doLengthOp`: unknown ops are errors, where Rust reads them as NO_PREFIX. */
  function GoLength(op: int32, data: Bytes): Option<Bytes> {
    if NO_PREFIX <= op <= REQUIRE_64_BYTES then DoLength(op, data) else None
  }

  /** `doLengthOp` as written. */
  method DoLengthOp(op: int32, data: Bytes) returns (r: Option<Bytes>)
    ensures r == GoLength(op, data)
  {
    if op == NO_PREFIX {
      assert [] + data == data;
      return Some(data);
    } else if op == VAR_PROTO {
      var res := EncodeVarintProto(|data|);
      return Some(res + data);
    } else if op == REQUIRE_32_BYTES || op == REQUIRE_64_BYTES {
      assert [] + data == data;
      return if |data| == (if op == REQUIRE_32_BYTES then 32 else 64) then Some(data) else None;
    } else if FIXED32_BIG <= op <= FIXED64_LITTLE {
      var l := |data| % Pow256(Width(op));
      var res := if op == FIXED32_BIG || op == FIXED64_BIG then BigEndian(l, Width(op)) else LittleEndian(l, Width(op));
      return Some(res + data);
    }
    return None;
  }

  function GoPrepare(host: Host, prehash: int32, length: int32, data: Bytes): Option<Bytes> {
    match HashOrNoop(host, prehash, data)
    case None => None
    case Some(hdata) => GoLength(length, hdata)
  }

  /** `LeafOp.Apply`. */
  function GoApplyLeaf(host: Host, leaf: LeafOp, key: Bytes, value: Bytes): Option<Bytes> {
    if key == [] || value == [] then None
    else
      var pkey := GoPrepare(host, leaf.prehashKey, leaf.length, key);
      var pvalue := GoPrepare(host, leaf.prehashValue, leaf.length, value);
      if pkey == None || pvalue == None then None
      else GoHash(host, leaf.hash, leaf.prefix + pkey.value + pvalue.value)
  }

  /** `InnerOp.Apply`. */
  function GoApplyInner(host: Host, op: InnerOp, child: Bytes): Option<Bytes> {
    if child == [] then None else GoHash(host, op.hash, op.prefix + child + op.suffix)
  }

  /** One turn of the loop of `calculate`. */
  function GoFoldOne(host: Host, spec: InnerSpec, op: InnerOp, child: Bytes): Option<Bytes> {
    match GoApplyInner(host, op, child)
    case None => None
    case Some(res) => if |res| > spec.childSize && spec.childSize >= 32 then None else Some(res)
  }

  /** The loop from op `i` on. */
  function GoFoldFrom(host: Host, spec: InnerSpec, path: seq<InnerOp>, i: nat, res: Bytes): Option<Bytes>
    requires i <= |path|
    decreases |path| - i
  {
    if i == |path| then Some(res)
    else
      match GoFoldOne(host, spec, path[i], res)
      case None => None
      case Some(next) => GoFoldFrom(host, spec, path, i + 1, next)
  }

  /** `ExistenceProof.calculate`. */
  function GoCalculate(host: Host, p: ExistenceProof, spec: InnerSpec): Option<Bytes> {
    if p.leaf == None then None
    else
      match GoApplyLeaf(host, p.leaf.value, p.key, p.value)
      case None => None
      case Some(res) => GoFoldFrom(host, spec, p.path, 0, res)
  }

  /** `calculate` as written. */
  method Calculate(host: Host, p: ExistenceProof, spec: InnerSpec) returns (root: Option<Bytes>)
    ensures root == GoCalculate(host, p, spec)
  {
    if p.leaf == None {
      return None;
    }
    root := GoApplyLeaf(host, p.leaf.value, p.key, p.value);
    if root == None {
      return;
    }
    for i := 0 to |p.path|
      invariant root.Some? && GoFoldFrom(host, spec, p.path, i, root.value) == GoCalculate(host, p, spec)
    {
      root := GoApplyInner(host, p.path[i], root.value);
      if root == None {
        return;
      }
      if |root.value| > spec.childSize && spec.childSize >= 32 {
        return None;
      }
    }
  }

  // ---- Spec checks -----------------------------------------------------------------------------------

  /** `SpecEquals`: absent halves agree with absent halves. */
  predicate GoSpecEquals(p: ProofSpec, spec: ProofSpec) {
    && p.leafSpec.Some? == spec.leafSpec.Some?
    && (p.leafSpec.Some? && spec.leafSpec.Some? ==> LeafSpecEquals(p.leafSpec.value, spec.leafSpec.value))
    && p.innerSpec.Some? == spec.innerSpec.Some?
    && (p.innerSpec.Some? && spec.innerSpec.Some? ==> InnerSpecEquals(p.innerSpec.value, spec.innerSpec.value))
  }

  /** `validateIavlOps`. */
  predicate ValidIavlOps(prefix: Bytes, hash: int32, layer: nat) {
    match ParseIavlHeader(prefix)
    case BadHeader => false
    case IavlHeader(height, size, version, end) =>
      && height >= 0 && height >= layer && size >= 0 && version >= 0
      && if layer == 0 then |prefix| == end && height == 0 && size == 1
         else |prefix| - end in {1, 34} && hash == SHA256
  }

  /** `validateIavlOps` as written, advancing a reader. */
  method ValidateIavlOps(prefix: Bytes, hash: int32, layer: nat) returns (ok: bool)
    ensures ok == ValidIavlOps(prefix, hash, layer)
  {
    var r := new Reader(prefix);
    var height := r.ReadInt();
    if height == None || height.value < 0 || height.value < layer {
      return false;
    }
    var size := r.ReadInt();
    if size == None || size.value < 0 {
      return false;
    }
    var version := r.ReadInt();
    if version == None || version.value < 0 {
      return false;
    }
    var remLen := |prefix| - r.at;
    if layer == 0 {
      return remLen == 0 && height.value == 0 && size.value == 1;
    }
    return (remLen == 1 || remLen == 34) && hash == SHA256;
  }

  /** `validateTendermintOps`. */
  predicate ValidTendermintOps(op: InnerOp, suffixSet: bool) {
    && op.prefix != []
    && (suffixSet ==> op.prefix == [1])
    && HasPrefix([1], op.prefix)
  }

  /** `LeafOp.CheckAgainstSpec`. */
  predicate GoLeafFits(leaf: LeafOp, spec: ProofSpec) {
    && spec.leafSpec.Some?
    && (GoSpecEquals(spec, GoSpec(Iavl)) ==> ValidIavlOps(leaf.prefix, leaf.hash, 0))
    && LeafSpecEquals(leaf, spec.leafSpec.value)
    && HasPrefix(spec.leafSpec.value.prefix, leaf.prefix)
  }

  /** `InnerOp.CheckAgainstSpec`. */
  predicate GoInnerFits(op: InnerOp, suffixSet: bool, spec: ProofSpec, layer: nat) {
    && spec.leafSpec.Some? && spec.innerSpec.Some?
    && var s := spec.innerSpec.value;
    && op.hash == s.hash
    && (GoSpecEquals(spec, GoSpec(Iavl)) ==> ValidIavlOps(op.prefix, op.hash, layer))
    && (GoSpecEquals(spec, GoSpec(Tendermint)) ==> ValidTendermintOps(op, suffixSet))
    && !HasPrefix(spec.leafSpec.value.prefix, op.prefix)
    && s.minPrefixLength <= |op.prefix| <= s.maxPrefixLength + (|s.childOrder| - 1) * s.childSize
    && s.childSize > 0
    && s.maxPrefixLength < s.minPrefixLength + s.childSize
    && |op.suffix| % s.childSize == 0
  }

  function MaxDepth(spec: ProofSpec): int {
    if spec.maxDepth == 0 then 128 else spec.maxDepth
  }

  predicate GoDepthFits(depth: nat, spec: ProofSpec) {
    (spec.minDepth > 0 ==> depth >= spec.minDepth) && depth <= MaxDepth(spec)
  }

  /** `ExistenceProof.CheckAgainstSpec`. */
  predicate GoFits(p: GoExistence, spec: ProofSpec) {
    && p.proof.leaf.Some?
    && GoLeafFits(p.proof.leaf.value, spec)
    && GoDepthFits(|p.proof.path|, spec)
    && forall i :: 0 <= i < |p.proof.path| ==> GoInnerFits(p.proof.path[i], p.suffixSet[i], spec, i + 1)
  }

  /** `ExistenceProof.CheckAgainstSpec` as written. */
  method CheckAgainstSpec(p: GoExistence, spec: ProofSpec) returns (ok: bool)
    ensures ok == GoFits(p, spec)
  {
    var path := p.proof.path;
    if p.proof.leaf == None || !GoLeafFits(p.proof.leaf.value, spec) || !GoDepthFits(|path|, spec) {
      return false;
    }
    var layerNum := 1;
    for i := 0 to |path|
      invariant layerNum == i + 1
      invariant forall j :: 0 <= j < i ==> GoInnerFits(path[j], p.suffixSet[j], spec, j + 1)
    {
      if !GoInnerFits(path[i], p.suffixSet[i], spec, layerNum) {
        return false;
      }
      layerNum := layerNum + 1;
    }
    return true;
  }

  /** `ExistenceProof.Verify`. */
  predicate GoVerifyExistence(host: Host, p: GoExistence, spec: ProofSpec, root: Bytes, key: Bytes, value: Bytes) {
    && GoFits(p, spec)
    && key == p.proof.key && value == p.proof.value
    && spec.innerSpec.Some? && GoCalculate(host, p.proof, spec.innerSpec.value) == Some(root)
  }

  // ---- Positions ---------------------------------------------------------------------------------------

  function FindFrom(order: seq<int32>, branch: int, i: nat): (r: Option<nat>)
    requires i <= |order|
    ensures r.Some? ==> i <= r.value < |order| && order[r.value] == branch
    ensures r == None ==> forall j :: i <= j < |order| ==> order[j] != branch
    decreases |order| - i
  {
    if i == |order| then None else if order[i] == branch then Some(i) else FindFrom(order, branch, i + 1)
  }

  /** `getPosition`: where `branch` stands in the order. */
  function GetPosition(order: seq<int32>, branch: int): (r: Option<nat>)
    ensures r.Some? ==> r.value < |order| && order[r.value] == branch
  {
    if branch < 0 || branch >= |order| then None else FindFrom(order, branch, 0)
  }

  datatype GoPadding = GoPadding(minPrefix: int, maxPrefix: int, suffix: int)

  /** `getPadding`: by the branch's position. */
  function GoGetPadding(spec: InnerSpec, branch: int): Option<GoPadding> {
    match GetPosition(spec.childOrder, branch)
    case None => None
    case Some(idx) =>
      var prefix := idx * spec.childSize;
      Some(GoPadding(prefix + spec.minPrefixLength, prefix + spec.maxPrefixLength,
                     (|spec.childOrder| - 1 - idx) * spec.childSize))
  }

  predicate GoHasPadding(op: InnerOp, pad: GoPadding) {
    pad.minPrefix <= |op.prefix| <= pad.maxPrefix && |op.suffix| == pad.suffix
  }

  function GoOrderFrom(spec: InnerSpec, op: InnerOp, branch: nat): (r: Option<nat>)
    ensures r.Some? ==> r.value < |spec.childOrder|
    decreases |spec.childOrder| - branch
  {
    if branch >= |spec.childOrder| || GoGetPadding(spec, branch) == None then None
    else if GoHasPadding(op, GoGetPadding(spec, branch).value) then Some(branch)
    else GoOrderFrom(spec, op, branch + 1)
  }

  /** `orderFromPadding`. */
  function GoOrder(spec: InnerSpec, op: InnerOp): (r: Option<nat>)
    ensures r.Some? ==> r.value < |spec.childOrder|
  {
    GoOrderFrom(spec, op, 0)
  }

  /** The slot of `size` bytes at `from` holds the placeholder. */
  predicate GoSlotIsEmpty(spec: InnerSpec, data: Bytes, from: int) {
    && 0 <= from <= from + spec.childSize <= |data|
    && data[from..from + spec.childSize] == spec.emptyChild
  }

  /** The slots, from `from` on, of the first `count` branches. */
  predicate GoSlotsAreEmpty(spec: InnerSpec, data: Bytes, from: int, count: nat) {
    forall i :: 0 <= i < count ==> GoBranchIsEmpty(spec, data, from, i)
  }

  predicate GoBranchIsEmpty(spec: InnerSpec, data: Bytes, from: int, branch: int) {
    var idx := GetPosition(spec.childOrder, branch);
    idx.Some? && GoSlotIsEmpty(spec, data, from + idx.value * spec.childSize)
  }

  /** The placeholder loops as written. */
  method ScanBranches(spec: InnerSpec, data: Bytes, from: int, count: nat) returns (ok: bool)
    ensures ok == GoSlotsAreEmpty(spec, data, from, count)
  {
    for i := 0 to count
      invariant GoSlotsAreEmpty(spec, data, from, i)
    {
      if !GoBranchIsEmpty(spec, data, from, i) {
        return false;
      }
    }
    return true;
  }

  /** `leftBranchesAreEmpty`. */
  predicate GoLeftBranchesAreEmpty(spec: InnerSpec, op: InnerOp) {
    var idx := GoOrder(spec, op);
    && idx.Some? && idx.value != 0
    && var actualPrefix := |op.prefix| - idx.value * spec.childSize;
    && actualPrefix >= 0
    && GoSlotsAreEmpty(spec, op.prefix, actualPrefix, idx.value)
  }

  /** `rightBranchesAreEmpty`: as many children of suffix as there are branches to the right. */
  predicate GoRightBranchesAreEmpty(spec: InnerSpec, op: InnerOp) {
    var idx := GoOrder(spec, op);
    && idx.Some?
    && var right := |spec.childOrder| - 1 - idx.value;
    && right != 0
    && |op.suffix| == right * spec.childSize
    && GoSlotsAreEmpty(spec, op.suffix, 0, right)
  }

  /** `IsLeftMost`. */
  predicate GoLeftMost(spec: InnerSpec, path: seq<InnerOp>) {
    var pad := GoGetPadding(spec, 0);
    && pad.Some?
    && forall i :: 0 <= i < |path| ==> GoHasPadding(path[i], pad.value) || GoLeftBranchesAreEmpty(spec, path[i])
  }

  /** `IsRightMost`. */
  predicate GoRightMost(spec: InnerSpec, path: seq<InnerOp>) {
    var pad := GoGetPadding(spec, |spec.childOrder| - 1);
    && pad.Some?
    && forall i :: 0 <= i < |path| ==> GoHasPadding(path[i], pad.value) || GoRightBranchesAreEmpty(spec, path[i])
  }

  /** `isLeftStep`, which panics on an op of no branch, and the two checks below the split. */
  function GoAtSplit(spec: InnerSpec, left: seq<InnerOp>, topLeft: InnerOp, right: seq<InnerOp>, topRight: InnerOp)
    : Outcome
  {
    var l, r := GoOrder(spec, topLeft), GoOrder(spec, topRight);
    if l == None || r == None then Panic
    else if r.value == l.value + 1 && GoRightMost(spec, left) && GoLeftMost(spec, right) then Pass
    else Fail
  }

  /** `IsLeftNeighbor`. */
  function GoLeftNeighbor(spec: InnerSpec, left: seq<InnerOp>, right: seq<InnerOp>): Outcome
    decreases |left|, 1
  {
    if left == [] || right == [] then Panic else GoCompareTops(spec, left, right)
  }

  /** One turn of the loop: the two steps nearest the root. */
  function GoCompareTops(spec: InnerSpec, left: seq<InnerOp>, right: seq<InnerOp>): Outcome
    requires left != [] && right != []
    decreases |left|, 0
  {
    if SameStep(Last(left), Last(right)) then GoLeftNeighbor(spec, Init(left), Init(right))
    else GoAtSplit(spec, Init(left), Last(left), Init(right), Last(right))
  }

  /** `IsLeftNeighbor` as written: both slices are cut at the root end while their tops agree, and cutting an
      empty one panics. */
  method IsLeftNeighbor(spec: InnerSpec, left: seq<InnerOp>, right: seq<InnerOp>) returns (r: Outcome)
    ensures r == GoLeftNeighbor(spec, left, right)
  {
    if left == [] || right == [] {
      return Panic;
    }
    var l, topLeft := Init(left), Last(left);
    var rt, topRight := Init(right), Last(right);
    assert left == l + [topLeft] && right == rt + [topRight];
    while SameStep(topLeft, topRight)
      invariant GoCompareTops(spec, l + [topLeft], rt + [topRight]) == GoLeftNeighbor(spec, left, right)
      decreases |l|
    {
      assert Init(l + [topLeft]) == l && Init(rt + [topRight]) == rt;
      if l == [] || rt == [] {
        return Panic;
      }
      ghost var restLeft, restRight := l, rt;
      l, topLeft := Init(l), Last(l);
      rt, topRight := Init(rt), Last(rt);
      assert restLeft == l + [topLeft] && restRight == rt + [topRight];
    }
    assert Init(l + [topLeft]) == l && Init(rt + [topRight]) == rt;
    return GoAtSplit(spec, l, topLeft, rt, topRight);
  }

  /** `keyForComparison`; a hash error is ignored and leaves an empty key. */
  function GoCompareKey(host: Host, spec: ProofSpec, key: Bytes): Bytes {
    if !spec.prehashKeyBeforeComparison then key
    else
      var hash := HashOrNoop(host, if spec.leafSpec.Some? then spec.leafSpec.value.prehashKey else NO_HASH, key);
      if hash == None then [] else hash.value
  }

  /** A boundary's key; nil when there is no boundary, or it has none. */
  function BoundaryKey(p: Option<GoExistence>): Bytes {
    if p == None then [] else p.value.proof.key
  }

  predicate GoBoundaryHolds(host: Host, p: Option<GoExistence>, spec: ProofSpec, root: Bytes) {
    p.Some? ==> GoVerifyExistence(host, p.value, spec, root, p.value.proof.key, p.value.proof.value)
  }

  /** The final switch. */
  function GoNoRoom(inner: InnerSpec, left: Option<GoExistence>, right: Option<GoExistence>): Outcome {
    if BoundaryKey(left) == [] then
      if right.Some? && GoLeftMost(inner, right.value.proof.path) then Pass else Fail
    else if BoundaryKey(right) == [] then
      if left.Some? && GoRightMost(inner, left.value.proof.path) then Pass else Fail
    else
      GoLeftNeighbor(inner, left.value.proof.path, right.value.proof.path)
  }

  /** Accepted boundaries, at least one of them, around the key. */
  predicate GoBrackets(host: Host, p: GoNonExistence, spec: ProofSpec, root: Bytes, key: Bytes) {
    var leftKey, rightKey := BoundaryKey(p.left), BoundaryKey(p.right);
    var k := GoCompareKey(host, spec, key);
    && GoBoundaryHolds(host, p.left, spec, root) && GoBoundaryHolds(host, p.right, spec, root)
    && (leftKey != [] || rightKey != [])
    && (rightKey != [] ==> Less(k, GoCompareKey(host, spec, rightKey)))
    && (leftKey != [] ==> Less(GoCompareKey(host, spec, leftKey), k))
  }

  /** `NonExistenceProof.Verify`. */
  function GoVerifyNonExistence(host: Host, p: GoNonExistence, spec: ProofSpec, root: Bytes, key: Bytes): Outcome {
    if GoBrackets(host, p, spec, root, key) && spec.innerSpec.Some? then
      GoNoRoom(spec.innerSpec.value, p.left, p.right)
    else Fail
  }

  // ---- Depth and leaf hashing in general -----------------------------------------------------------------

  /** For bounds that are not negative: both languages bound the depth alike when both bounds are set. Without a
      minimum Rust bounds nothing; without a maximum Go takes 128, and Rust, given a minimum, accepts nothing. */
  lemma {:induction false} DepthsCompared(depth: nat, spec: ProofSpec)
    requires spec.minDepth >= 0 && spec.maxDepth >= 0
    ensures GoDepthFits(depth, spec) <==>
            spec.minDepth <= depth <= if spec.maxDepth == 0 then 128 else spec.maxDepth
    ensures spec.minDepth > 0 && spec.maxDepth > 0 ==> (GoDepthFits(depth, spec) <==> EnsureDepth(depth, spec))
    ensures spec.minDepth == 0 ==> EnsureDepth(depth, spec)
    ensures spec.minDepth > 0 && spec.maxDepth == 0 ==> !EnsureDepth(depth, spec)
  {
  }

  /** The leaf ops Go can hash. */
  predicate GoCanHash(leaf: LeafOp) {
    && leaf.hash in {1, 2, 4, 5, 6, 7, 8}
    && leaf.prehashKey in {0, 1, 2, 4, 5, 6, 7, 8} && leaf.prehashValue in {0, 1, 2, 4, 5, 6, 7, 8}
    && 0 <= leaf.length <= 8
  }

  /** Go hashes a leaf as Rust does when it knows all of the op's numbers, and refuses it otherwise. */
  lemma {:induction false} LeavesHashAlike(host: Host, leaf: LeafOp, key: Bytes, value: Bytes)
    ensures GoApplyLeaf(host, leaf, key, value) == if GoCanHash(leaf) then ApplyLeaf(host, leaf, key, value) else None
  {
    PreparedAlike(host, leaf.prehashKey, leaf.length, key);
    PreparedAlike(host, leaf.prehashValue, leaf.length, value);
  }

  lemma {:induction false} PreparedAlike(host: Host, prehash: int32, length: int32, data: Bytes)
    ensures data != [] ==>
            GoPrepare(host, prehash, length, data) ==
            if prehash in {0, 1, 2, 4, 5, 6, 7, 8} && 0 <= length <= 8 then PrepareLeafData(host, prehash, length, data)
            else None
  {
  }

  /** Go compares keys as Rust does, but takes an empty key where it cannot hash. */
  lemma {:induction false} KeysCompareAlike(host: Host, spec: ProofSpec, key: Bytes)
    requires spec.leafSpec.Some?
    ensures GoCompareKey(host, spec, key) ==
            if spec.prehashKeyBeforeComparison && spec.leafSpec.value.prehashKey !in {0, 1, 2, 4, 5, 6, 7, 8} then []
            else KeyForComparison(host, spec, key)
  {
  }

  // ---- The built-in specs in both languages -------------------------------------------------------------

  datatype BuiltInSpec = Iavl | Tendermint | Smt

  function RustSpec(k: BuiltInSpec): (spec: ProofSpec)
    ensures spec.leafSpec.Some? && spec.innerSpec.Some?
  {
    match k
    case Iavl => IavlSpec()
    case Tendermint => TendermintSpec()
    case Smt => SmtSpec()
  }

  /** Go's SMT spec also bounds the depth. */
  function GoSpec(k: BuiltInSpec): ProofSpec {
    if k == Smt then SmtSpec().(maxDepth := 256) else RustSpec(k)
  }

  function BuiltInStore(host: Host, k: BuiltInSpec): (c: Store)
    ensures c.host == host && c.Spec() == RustSpec(k) && c.Arity() == 2
  {
    match k
    case Iavl => IavlStore(host)
    case Tendermint => TendermintStore(host)
    case Smt => SmtStore(host)
  }

  // ---- Padding and placeholders agree ----------------------------------------------------------------------

  lemma {:induction false} PositionOf(c: Store, branch: nat)
    requires branch < c.Arity()
    ensures GetPosition(c.inner.childOrder, branch) == Some(branch)
  {
    var r := FindFrom(c.inner.childOrder, branch, 0);
    assert c.inner.childOrder[branch] == branch;
    assert r.Some? ==> c.inner.childOrder[r.value] == r.value;
  }

  lemma {:induction false} SamePadding(c: Store, op: InnerOp, branch: nat)
    requires branch < c.Arity()
    ensures GetPadding(c.inner, branch).Some? && GoGetPadding(c.inner, branch).Some?
    ensures HasPadding(op, GetPadding(c.inner, branch).value)
        <==> GoHasPadding(op, GoGetPadding(c.inner, branch).value)
  {
    PositionOf(c, branch);
    PaddingOf(c, branch);
  }

  /** With identity child order both languages put an op in the same slot. */
  lemma {:induction false} SameOrder(c: Store, op: InnerOp, branch: nat)
    requires branch <= c.Arity()
    ensures GoOrderFrom(c.inner, op, branch) == OrderFrom(c.inner, op, branch)
    decreases c.Arity() - branch
  {
    if branch == c.Arity() {
    } else {
      SamePadding(c, op, branch);
      SameOrder(c, op, branch + 1);
    }
  }

  lemma {:induction false} SameSlots(c: Store, data: Bytes, from: nat, count: nat)
    requires count <= c.Arity() && from + count * c.SlotSize() <= |data|
    ensures GoSlotsAreEmpty(c.inner, data, from, count)
        <==> SlotsAreEmpty(data, from, count, c.SlotSize(), c.inner.emptyChild)
  {
    forall i | 0 <= i < count
      ensures GoBranchIsEmpty(c.inner, data, from, i)
          <==> SlotAt(data, from, count, c.SlotSize(), i) == c.inner.emptyChild
    {
      SameSlot(c, data, from, count, i, i * c.SlotSize());
    }
  }

  /** The bytes of one slot, however its offset is written. */
  lemma {:induction false} SlotBytes(data: Bytes, from: nat, count: nat, size: nat, i: nat, offset: int)
    requires i < count && offset == i * size && from + count * size <= |data|
    ensures 0 <= offset && from + offset + size <= |data|
    ensures data[from + offset..from + offset + size] == SlotAt(data, from, count, size, i)
  {
    SlotInRange(count, i, size);
  }

  lemma {:induction false} SameSlot(c: Store, data: Bytes, from: nat, count: nat, i: nat, offset: int)
    requires i < count <= c.Arity() && offset == i * c.SlotSize() && from + count * c.SlotSize() <= |data|
    ensures GoBranchIsEmpty(c.inner, data, from, i)
        <==> SlotAt(data, from, count, c.SlotSize(), i) == c.inner.emptyChild
  {
    PositionOf(c, i);
    SlotBytes(data, from, count, c.SlotSize(), i, offset);
    assert GoBranchIsEmpty(c.inner, data, from, i) == GoSlotIsEmpty(c.inner, data, from + offset);
  }

  /** The left-hand placeholder tests agree for any number of children. */
  lemma {:induction false} SameLeftTest(c: Store, op: InnerOp)
    ensures GoLeftBranchesAreEmpty(c.inner, op) <==> LeftBranchesAreEmpty(c.inner, op)
  {
    SameOrder(c, op, 0);
    var idx := OrderFromPadding(c.inner, op);
    if idx.Some? && idx.value * c.SlotSize() <= |op.prefix| {
      SameSlots(c, op.prefix, |op.prefix| - idx.value * c.SlotSize(), idx.value);
    }
  }

  /** An op in a slot has one child of suffix for each branch to its right. */
  lemma {:induction false} SuffixOfSlot(c: Store, op: InnerOp, k: nat)
    requires OrderFromPadding(c.inner, op) == Some(k)
    ensures k < c.Arity() && |op.suffix| == (c.Arity() - 1 - k) * c.SlotSize()
  {
    PaddingOf(c, k);
  }

  /** The right-hand tests differ exactly on ops with two or more branches to the right, all placeholders: Go
      accepts those, Rust never does. */
  lemma {:induction false} RightTestsDiffer(c: Store, op: InnerOp)
    ensures RightBranchesAreEmpty(c.inner, op) ==> GoRightBranchesAreEmpty(c.inner, op)
    ensures GoRightBranchesAreEmpty(c.inner, op) && !RightBranchesAreEmpty(c.inner, op) <==>
            var idx := OrderFromPadding(c.inner, op);
            && idx.Some? && idx.value + 2 < c.Arity()
            && GoSlotsAreEmpty(c.inner, op.suffix, 0, c.Arity() - 1 - idx.value)
  {
    SameOrder(c, op, 0);
    var idx := OrderFromPadding(c.inner, op);
    if idx.Some? {
      var right := c.Arity() - 1 - idx.value;
      SuffixOfSlot(c, op, idx.value);
      SameSlots(c, op.suffix, 0, right);
      if right >= 2 {
        ManySlots(right, c.SlotSize());
      }
    }
  }

  lemma ManySlots(right: nat, size: nat)
    requires right >= 2 && size > 0
    ensures right * size > size
  {
    assert right * size == size + (right - 1) * size;
    assert (right - 1) * size > 0;
  }

  /** A sound store with three children a node, placeholders, and keys compared as they are. */
  function TernaryStore(host: Host): (c: Store)
    ensures c.host == host && c.Arity() == 3 && c.SlotSize() == 32 && c.HasPlaceholder() && c.tag == []
  {
    StoreConfig(host, SmtSpec().leafSpec.value, InnerSpec([0, 1, 2], 32, 1, 1, Zeros(32), SHA256), 0, 0, false, [])
  }

  /** They do differ: an op of a ternary spec with two placeholders to its right. */
  lemma {:induction false} TernaryTestsDiffer(c: Store)
    requires c == TernaryStore(c.host)
    ensures var op := InnerOp(SHA256, [1], Zeros(64));
            GoRightBranchesAreEmpty(c.inner, op) && !RightBranchesAreEmpty(c.inner, op)
  {
    var op := InnerOp(SHA256, [1], Zeros(64));
    OpMatches(c, op, 1, 0);
    SameSlots(c, op.suffix, 0, 2);
    RightTestsDiffer(c, op);
  }

  // ---- Outermost and neighbouring paths agree ---------------------------------------------------------------

  lemma {:induction false} SameLeftMost(c: Store, path: seq<InnerOp>)
    ensures GoLeftMost(c.inner, path) <==> LeftMost(c.inner, path)
  {
    SamePadding(c, InnerOp(0, [], []), 0);
    forall i | 0 <= i < |path|
      ensures GoHasPadding(path[i], GoGetPadding(c.inner, 0).value)
          <==> HasPadding(path[i], GetPadding(c.inner, 0).value)
      ensures GoLeftBranchesAreEmpty(c.inner, path[i]) <==> LeftBranchesAreEmpty(c.inner, path[i])
    {
      SamePadding(c, path[i], 0);
      SameLeftTest(c, path[i]);
    }
  }

  lemma {:induction false} SameRightMost(c: Store, path: seq<InnerOp>)
    requires c.Arity() <= 2
    ensures GoRightMost(c.inner, path) <==> RightMost(c.inner, path)
  {
    var last := c.Arity() - 1;
    SamePadding(c, InnerOp(0, [], []), last);
    forall i | 0 <= i < |path|
      ensures GoHasPadding(path[i], GoGetPadding(c.inner, last).value)
          <==> HasPadding(path[i], GetPadding(c.inner, last).value)
      ensures GoRightBranchesAreEmpty(c.inner, path[i]) <==> RightBranchesAreEmpty(c.inner, path[i])
    {
      SamePadding(c, path[i], last);
      RightTestsDiffer(c, path[i]);
    }
  }

  /** With two children the neighbour loops agree, but where Go panics on an op of no slot Rust fails. */
  lemma {:induction false} SameNeighbors(c: Store, left: seq<InnerOp>, right: seq<InnerOp>)
    requires c.Arity() <= 2
    ensures GoLeftNeighbor(c.inner, left, right) == Pass <==> LeftNeighbor(c.inner, left, right) == Pass
    decreases |left|
  {
    if left == [] || right == [] {
    } else {
      if SameStep(Last(left), Last(right)) {
        SameNeighbors(c, Init(left), Init(right));
      } else {
        SameOrder(c, Last(left), 0);
        SameOrder(c, Last(right), 0);
        SameRightMost(c, Init(left));
        SameLeftMost(c, Init(right));
      }
    }
  }

  // ---- Existence -----------------------------------------------------------------------------------------

  /** What the Go verifier demands of an existence proof and the Rust one does not. */
  predicate GoDemands(k: BuiltInSpec, p: GoExistence) {
    && |p.proof.path| <= (if k == Smt then 256 else 128)
    && (k == Iavl && p.proof.leaf.Some? ==>
          var h := ParseIavlHeader(p.proof.leaf.value.prefix); h.IavlHeader? && h.height == 0 && h.size == 1)
    && (k == Tendermint ==> forall i :: 0 <= i < |p.proof.path| ==>
          ValidTendermintOps(p.proof.path[i], p.suffixSet[i]))
  }

  /** Against a built-in spec both languages compare specs alike. */
  lemma {:induction false} SpecsCompareAlike(spec: ProofSpec, j: BuiltInSpec)
    ensures GoSpecEquals(spec, GoSpec(j)) <==> SpecEquals(spec, RustSpec(j))
  {
  }

  /** Among the inner ops the Tendermint spec accepts, Go's rule keeps those that begin with 1 and whose prefix is
      that byte alone when a suffix is set: left children with their sibling behind, right ones with it before. */
  lemma {:induction false} TendermintRule(op: InnerOp, suffixSet: bool)
    requires EnsureInner(op, TendermintSpec())
    ensures ValidTendermintOps(op, suffixSet) <==> op.prefix[0] == 1 && (suffixSet ==> |op.prefix| == 1)
  {
  }

  /** On the spec of any sound store Go's inner op check is Rust's, and the Tendermint rule where it applies. */
  lemma {:induction false} InnerChecksAgreeOn(c: Store, op: InnerOp, suffixSet: bool, layer: nat)
    requires layer > 0
    ensures GoInnerFits(op, suffixSet, c.Spec(), layer) <==>
            && EnsureInnerPrefix(op.prefix, c.Spec(), layer, op.hash) && EnsureInner(op, c.Spec())
            && (SpecEquals(c.Spec(), TendermintSpec()) ==> ValidTendermintOps(op, suffixSet))
  {
    SpecsCompareAlike(c.Spec(), Iavl);
    SpecsCompareAlike(c.Spec(), Tendermint);
    var widest := c.inner.maxPrefixLength + (c.Arity() - 1) * c.inner.childSize;
    StoreWindow(c.Arity(), c.SlotSize(), c.inner.maxPrefixLength);
    assert Usize(widest) == widest;
  }

  lemma StoreWindow(n: nat, size: nat, max: int)
    requires n > 0 && 0 <= max && max + n * size < 0x8000_0000
    ensures 0 <= max + (n - 1) * size < 0x8000_0000
  {
    assert n * size == (n - 1) * size + size && (n - 1) * size >= 0;
  }

  lemma {:induction false} WhichSpec(k: BuiltInSpec, j: BuiltInSpec)
    ensures GoSpecEquals(GoSpec(k), GoSpec(j)) <==> k == j
    ensures IsIavlSpec(RustSpec(k)) <==> k == Iavl
  {
  }

  lemma {:induction false} LeafChecksAgree(k: BuiltInSpec, leaf: LeafOp)
    ensures GoLeafFits(leaf, GoSpec(k)) <==>
            && EnsureLeafPrefix(leaf.prefix, RustSpec(k)) && EnsureLeaf(leaf, RustSpec(k).leafSpec.value)
            && (k == Iavl ==> var h := ParseIavlHeader(leaf.prefix); h.IavlHeader? && h.height == 0 && h.size == 1)
  {
    WhichSpec(k, Iavl);
  }

  lemma {:induction false} InnerChecksAgree(k: BuiltInSpec, op: InnerOp, suffixSet: bool, layer: nat)
    requires layer > 0
    ensures GoInnerFits(op, suffixSet, GoSpec(k), layer) <==>
            && EnsureInnerPrefix(op.prefix, RustSpec(k), layer, op.hash) && EnsureInner(op, RustSpec(k))
            && (k == Tendermint ==> ValidTendermintOps(op, suffixSet))
  {
    WhichSpec(k, Iavl);
    WhichSpec(k, Tendermint);
  }

  lemma {:induction false} ChecksAgree(k: BuiltInSpec, p: GoExistence)
    ensures GoFits(p, GoSpec(k)) <==> CheckExistenceSpec(p.proof, RustSpec(k)) && GoDemands(k, p)
  {
    if p.proof.leaf.Some? {
      LeafChecksAgree(k, p.proof.leaf.value);
      forall i | 0 <= i < |p.proof.path|
        ensures GoInnerFits(p.proof.path[i], p.suffixSet[i], GoSpec(k), i + 1) <==>
                && EnsureStep(p.proof.path[i], RustSpec(k), i)
                && (k == Tendermint ==> ValidTendermintOps(p.proof.path[i], p.suffixSet[i]))
      {
        InnerChecksAgree(k, p.proof.path[i], p.suffixSet[i], i + 1);
      }
    }
  }

  predicate AllSupported(path: seq<InnerOp>, i: nat) {
    forall j :: i <= j < |path| ==> GoSupports(path[j].hash)
  }

  lemma {:induction false} OneFoldAgrees(host: Host, spec: InnerSpec, op: InnerOp, child: Bytes)
    ensures GoFoldOne(host, spec, op, child)
         == if GoSupports(op.hash) then FoldOne(host, Some(spec), op, child) else None
  {
  }

  /** The Go fold from op `i` on continues the Rust fold up to it, as long as Go supports the hashes; on any
      other path it fails. */
  lemma {:induction false} FoldsAgree(host: Host, spec: InnerSpec, path: seq<InnerOp>, leafHash: Bytes, i: nat)
    requires i <= |path| && FoldPath(host, Some(spec), leafHash, path[..i]).Some?
    ensures GoFoldFrom(host, spec, path, i, FoldPath(host, Some(spec), leafHash, path[..i]).value)
         == if AllSupported(path, i) then FoldPath(host, Some(spec), leafHash, path) else None
    decreases |path| - i
  {
    if i == |path| {
      assert path[..i] == path;
    } else {
      var child := FoldPath(host, Some(spec), leafHash, path[..i]).value;
      FoldStep(host, Some(spec), leafHash, path, i);
      OneFoldAgrees(host, spec, path[i], child);
      assert AllSupported(path, i) <==> GoSupports(path[i].hash) && AllSupported(path, i + 1);
      if GoSupports(path[i].hash) && FoldOne(host, Some(spec), path[i], child).Some? {
        FoldsAgree(host, spec, path, leafHash, i + 1);
      }
    }
  }

  lemma {:induction false} RootsAgree(host: Host, k: BuiltInSpec, p: ExistenceProof)
    requires CheckExistenceSpec(p, RustSpec(k))
    ensures GoCalculate(host, p, RustSpec(k).innerSpec.value) == CalculateRoot(host, p, RustSpec(k).innerSpec)
  {
    LeavesHashAlike(host, p.leaf.value, p.key, p.value);
    var res := GoApplyLeaf(host, p.leaf.value, p.key, p.value);
    if res.Some? {
      assert p.path[..0] == [];
      forall j | 0 <= j < |p.path|
        ensures GoSupports(p.path[j].hash)
      {
        assert EnsureStep(p.path[j], RustSpec(k), j);
      }
      FoldsAgree(host, RustSpec(k).innerSpec.value, p.path, res.value, 0);
    }
  }

  /** On each built-in spec the Go verifier accepts exactly the existence proofs the Rust one accepts that also
      meet Go's own demands. So Go acceptance implies Rust acceptance. */
  lemma {:induction false} GoExistenceIsStricter(host: Host, k: BuiltInSpec, p: GoExistence, root: Bytes, key: Bytes,
                                                 value: Bytes)
    ensures GoVerifyExistence(host, p, GoSpec(k), root, key, value) <==>
            VerifyExistence(host, p.proof, RustSpec(k), root, key, value) && GoDemands(k, p)
  {
    ChecksAgree(k, p);
    if CheckExistenceSpec(p.proof, RustSpec(k)) {
      RootsAgree(host, k, p.proof);
    }
  }

  // ---- Non-existence ---------------------------------------------------------------------------------------

  predicate GoDemandsOf(k: BuiltInSpec, p: Option<GoExistence>) {
    p.Some? ==> GoDemands(k, p.value)
  }

  lemma {:induction false} BoundariesAgree(host: Host, k: BuiltInSpec, p: Option<GoExistence>, root: Bytes)
    ensures GoBoundaryHolds(host, p, GoSpec(k), root) <==>
            BoundaryHolds(host, Side(p), RustSpec(k), root) && GoDemandsOf(k, p)
    ensures BoundaryHolds(host, Side(p), RustSpec(k), root) ==> (p == None <==> BoundaryKey(p) == [])
  {
    if p.Some? {
      GoExistenceIsStricter(host, k, p.value, root, p.value.proof.key, p.value.proof.value);
    }
  }

  lemma {:induction false} CompareKeysAgree(host: Host, k: BuiltInSpec, key: Bytes)
    ensures GoCompareKey(host, GoSpec(k), key) == KeyForComparison(host, RustSpec(k), key)
  {
    KeysCompareAlike(host, GoSpec(k), key);
  }

  lemma {:induction false} KeysOrderAlike(host: Host, k: BuiltInSpec, a: Bytes, b: Bytes)
    ensures Less(GoCompareKey(host, GoSpec(k), a), GoCompareKey(host, GoSpec(k), b))
        <==> KeyLess(host, RustSpec(k), a, b)
  {
    CompareKeysAgree(host, k, a);
    CompareKeysAgree(host, k, b);
  }

  lemma {:induction false} NoRoomAgrees(host: Host, k: BuiltInSpec, left: Option<GoExistence>,
                                        right: Option<GoExistence>)
    requires left == None <==> BoundaryKey(left) == []
    requires right == None <==> BoundaryKey(right) == []
    requires left.Some? || right.Some?
    ensures GoNoRoom(RustSpec(k).innerSpec.value, left, right) == Pass <==>
            NoRoom(RustSpec(k).innerSpec.value, Side(left), Side(right)) == Pass
  {
    var c := BuiltInStore(host, k);
    match (left, right) {
      case (Some(l), Some(r)) => SameNeighbors(c, l.proof.path, r.proof.path);
      case (Some(l), None) => SameRightMost(c, l.proof.path);
      case (None, Some(r)) => SameLeftMost(c, r.proof.path);
    }
  }

  /** What both verifiers ask before they look for room: boundaries that hold around the key, and Go's demands. */
  ghost predicate GoHolds(host: Host, k: BuiltInSpec, p: GoNonExistence, root: Bytes, key: Bytes) {
    && (p.left.Some? || p.right.Some?)
    && BoundariesHold(host, Unset(p), RustSpec(k), root, key)
    && GoDemandsOf(k, p.left) && GoDemandsOf(k, p.right)
  }

  /** Then, and only then, Go looks for room. */
  lemma {:induction false} GoLooksForRoom(host: Host, k: BuiltInSpec, p: GoNonExistence, root: Bytes, key: Bytes)
    ensures GoBrackets(host, p, GoSpec(k), root, key) <==> GoHolds(host, k, p, root, key)
    ensures GoHolds(host, k, p, root, key) ==>
            && (p.left == None <==> BoundaryKey(p.left) == []) && (p.right == None <==> BoundaryKey(p.right) == [])
  {
    BoundariesAgree(host, k, p.left, root);
    BoundariesAgree(host, k, p.right, root);
    KeysOrderAlike(host, k, BoundaryKey(p.left), key);
    KeysOrderAlike(host, k, key, BoundaryKey(p.right));
  }

  /** The same for non-existence proofs: Go accepts exactly what Rust accepts whose boundaries meet Go's
      demands. */
  lemma {:induction false} GoNonExistenceIsStricter(host: Host, k: BuiltInSpec, p: GoNonExistence, root: Bytes,
                                                    key: Bytes)
    ensures GoVerifyNonExistence(host, p, GoSpec(k), root, key) == Pass <==>
            && VerifyNonExistence(host, Unset(p), RustSpec(k), root, key) == Pass
            && GoDemandsOf(k, p.left) && GoDemandsOf(k, p.right)
  {
    GoLooksForRoom(host, k, p, root, key);
    if GoHolds(host, k, p, root, key) {
      NoRoomAgrees(host, k, p.left, p.right);
    }
  }
}
