/** Which trees the neighbour checks serve: exactly the packed ones. */
module Packing {
  import opened Bytes
  import opened Ics23
  import opened Verify
  import opened Tree
  import opened Soundness
  import opened Completeness

  /** The paths to the first and the last leaf, if there are leaves, pass their checks. */
  ghost predicate FirstSeen(c: Store, t: Tree) {
    Leaves(t) != [] ==> LeftMost(c.inner, PathTo(c, t, 0))
  }

  ghost predicate LastSeen(c: Store, t: Tree) {
    Leaves(t) != [] ==> RightMost(c.inner, PathTo(c, t, |Leaves(t)| - 1))
  }

  ghost predicate SeenBetween(c: Store, t: Tree, j: nat, n: nat)
    requires j < n < |Leaves(t)|
  {
    LeftNeighbor(c.inner, PathTo(c, t, j), PathTo(c, t, n)) == Pass
  }

  ghost predicate AllBetween(c: Store, t: Tree) {
    forall j, n :: 0 <= j < n < |Leaves(t)| && n == j + 1 ==> SeenBetween(c, t, j, n)
  }

  /** Every gap of the leaf list, the two ends included, has an acceptable proof. */
  ghost predicate EveryGapSeen(c: Store, t: Tree) {
    FirstSeen(c, t) && LastSeen(c, t) && AllBetween(c, t)
  }

  // ---- Positions of a child's leaves ------------------------------------------------------------------------

  lemma {:induction false} ChildOfLocal(ts: seq<Tree>, k: nat, local: nat, j: nat)
    requires k < |ts| && local < |Leaves(ts[k])| && j == |LeavesOf(ts[..k])| + local
    ensures j < |LeavesOf(ts)| && ChildOf(ts, j) == k
  {
    LeavesAround(ts, k);
    var m := ChildOf(ts, j);
    if m < k {
      LeavesSplit(ts, m + 1, k);
      LeavesBeforeNext(ts, m);
    } else if k < m {
      LeavesSplit(ts, k + 1, m);
      LeavesBeforeNext(ts, k);
    }
  }

  lemma {:induction false} LastPosition(ts: seq<Tree>, k: nat, last: nat, j: nat)
    requires k < |ts| && last + 1 == |Leaves(ts[k])| && LeavesOf(ts[k + 1..]) == []
    requires j == |LeavesOf(ts[..k])| + last
    ensures j + 1 == |LeavesOf(ts)| && ChildOf(ts, j) == k
  {
    LeavesAround(ts, k);
    ChildOfLocal(ts, k, last, j);
  }

  /** Child `m` is the next one after child `k` with leaves. */
  ghost predicate NextIs(ts: seq<Tree>, k: nat, m: nat) {
    k < m < |ts| && Leaves(ts[k]) != [] && Leaves(ts[m]) != [] && LeavesOf(ts[k + 1..m]) == []
  }

  lemma {:induction false} GapPositions(ts: seq<Tree>, k: nat, m: nat, last: nat, j: nat)
    requires NextIs(ts, k, m) && last + 1 == |Leaves(ts[k])| && j == |LeavesOf(ts[..k])| + last
    ensures j + 1 < |LeavesOf(ts)| && j + 1 == |LeavesOf(ts[..m])|
    ensures ChildOf(ts, j) == k && ChildOf(ts, j + 1) == m
  {
    LeavesSplit(ts, k + 1, m);
    LeavesBeforeNext(ts, k);
    ChildOfLocal(ts, k, last, j);
    ChildOfLocal(ts, m, 0, j + 1);
  }

  lemma {:induction false} NextWithLeaves(ts: seq<Tree>, lo: nat) returns (m: nat)
    requires lo <= |ts|
    ensures lo <= m <= |ts| && LeavesOf(ts[lo..m]) == []
    ensures m < |ts| ==> Leaves(ts[m]) != []
    ensures m == |ts| ==> LeavesOf(ts[lo..]) == []
    decreases |ts| - lo
  {
    if lo == |ts| {
      assert ts[lo..lo] == [] && ts[lo..] == [];
      return lo;
    }
    if Leaves(ts[lo]) != [] {
      assert ts[lo..lo] == [];
      return lo;
    }
    m := NextWithLeaves(ts, lo + 1);
    assert ts[lo..m][0] == ts[lo] && ts[lo..m][1..] == ts[lo + 1..m];
    assert ts[lo..][0] == ts[lo] && ts[lo..][1..] == ts[lo + 1..];
  }

  lemma {:induction false} PreviousWithLeaves(ts: seq<Tree>, hi: nat) returns (m: nat)
    requires hi <= |ts|
    ensures m <= hi && LeavesOf(ts[m..hi]) == []
    ensures m > 0 ==> Leaves(ts[m - 1]) != []
  {
    if hi == 0 || Leaves(ts[hi - 1]) != [] {
      assert ts[hi..hi] == [];
      return hi;
    }
    m := PreviousWithLeaves(ts, hi - 1);
    assert ts[m..hi] == ts[m..hi - 1] + [ts[hi - 1]];
    LeavesAppend(ts[m..hi - 1], [ts[hi - 1]]);
    LeavesOfOne(ts[hi - 1]);
  }

  // ---- What the checks of a node come to ---------------------------------------------------------------------

  lemma {:induction false} OutermostParts(c: Store, path: seq<InnerOp>, op: InnerOp)
    ensures RightMost(c.inner, path + [op]) ==> RightMost(c.inner, path) && StepIsRightMost(c, op)
    ensures LeftMost(c.inner, path + [op]) ==> LeftMost(c.inner, path)
  {
    var whole := path + [op];
    assert whole[|path|] == op;
    assert forall i :: 0 <= i < |path| ==> whole[i] == path[i];
  }

  lemma {:induction false} SplitChecks(c: Store, a: InnerOp, k: nat, b: InnerOp, m: nat, p: seq<InnerOp>,
                                       q: seq<InnerOp>)
    requires OrderFromPadding(c.inner, a) == Some(k) && OrderFromPadding(c.inner, b) == Some(m)
    requires k != m && a.hash == b.hash
    requires LeftNeighbor(c.inner, p + [a], q + [b]) == Pass
    ensures m == k + 1 && RightMost(c.inner, p) && LeftMost(c.inner, q)
  {
    assert SameStep(a, b) ==> a == b;
    assert Init(p + [a]) == p && Init(q + [b]) == q;
  }

  /** The right-hand placeholder test sees one branch to the right, no more. */
  lemma {:induction false} RightTestIsNarrow(c: Store, op: InnerOp, right: nat)
    requires |op.suffix| == right * c.SlotSize() && RightBranchesAreEmpty(c.inner, op)
    ensures right == 1
  {
    assert |op.suffix| == 1 * c.SlotSize();
    SameMultiple(1, right, c.SlotSize());
  }

  /** A rightmost step has at most one branch to its right. */
  lemma {:induction false} RightMostIsNarrow(c: Store, op: InnerOp, k: nat)
    requires k < c.Arity() && MatchesBranch(c, op, k) && |op.suffix| == (c.Arity() - 1 - k) * c.SlotSize()
    requires StepIsRightMost(c, op)
    ensures k + 2 >= c.Arity()
  {
    if MatchesBranch(c, op, c.Arity() - 1) {
      SuffixTellsBranch(c, op, c.Arity() - 1, k);
    } else {
      RightTestIsNarrow(c, op, c.Arity() - 1 - k);
    }
  }

  lemma {:induction false} SplitAt(c: Store, header: Bytes, ts: seq<Tree>, k: nat, m: nat, last: nat, j: nat,
                                   n: nat, p: seq<InnerOp>, q: seq<InnerOp>)
    requires WellFormed(c, Inner(header, ts)) && k < m < |ts| && j < n < |LeavesOf(ts)|
    requires ChildOf(ts, j) == k && ChildOf(ts, n) == m
    requires last == j - |LeavesOf(ts[..k])| && n == |LeavesOf(ts[..m])|
    requires p == PathTo(c, ts[k], last) && q == PathTo(c, ts[m], 0) && SeenBetween(c, Inner(header, ts), j, n)
    ensures m == k + 1 && RightMost(c.inner, p) && LeftMost(c.inner, q)
  {
    PathStep(c, header, ts, j, k, last);
    PathStep(c, header, ts, n, m, 0);
    NodeOpBranch(c, header, ts, k);
    NodeOpBranch(c, header, ts, m);
    SplitChecks(c, OpAt(c, header, ts, k), k, OpAt(c, header, ts, m), m, p, q);
  }

  /** Two children with no leaves between them stand next to each other and end at the gap. */
  lemma {:induction false} AcrossGap(c: Store, header: Bytes, ts: seq<Tree>, k: nat, m: nat)
    requires WellFormed(c, Inner(header, ts)) && NextIs(ts, k, m) && EveryGapSeen(c, Inner(header, ts))
    ensures m == k + 1 && LastSeen(c, ts[k]) && FirstSeen(c, ts[m])
  {
    var last := |Leaves(ts[k])| - 1;
    var j := |LeavesOf(ts[..k])| + last;
    GapPositions(ts, k, m, last, j);
    assert SeenBetween(c, Inner(header, ts), j, j + 1);
    SplitAt(c, header, ts, k, m, last, j, j + 1, PathTo(c, ts[k], last), PathTo(c, ts[m], 0));
  }

  lemma {:induction false} LastBelow(c: Store, header: Bytes, ts: seq<Tree>, k: nat, last: nat, j: nat, p: seq<InnerOp>)
    requires WellFormed(c, Inner(header, ts)) && j < |LeavesOf(ts)| && ChildOf(ts, j) == k
    requires last == j - |LeavesOf(ts[..k])| && p == PathTo(c, ts[k], last)
    requires RightMost(c.inner, PathTo(c, Inner(header, ts), j))
    ensures k + 2 >= |ts| && RightMost(c.inner, p)
  {
    PathStep(c, header, ts, j, k, last);
    OutermostParts(c, p, OpAt(c, header, ts, k));
    NodeOpBranch(c, header, ts, k);
    NodeOpSizes(c, header, ts, k);
    RightMostIsNarrow(c, OpAt(c, header, ts, k), k);
  }

  lemma {:induction false} LastSeenAt(c: Store, header: Bytes, ts: seq<Tree>, j: nat)
    requires j + 1 == |LeavesOf(ts)| && LastSeen(c, Inner(header, ts))
    ensures RightMost(c.inner, PathTo(c, Inner(header, ts), j))
  {
  }

  /** The last child with leaves ends rightmost and has at most one branch to its right. */
  lemma {:induction false} LastChild(c: Store, header: Bytes, ts: seq<Tree>, k: nat)
    requires WellFormed(c, Inner(header, ts)) && k < |ts| && Leaves(ts[k]) != [] && LeavesOf(ts[k + 1..]) == []
    requires LastSeen(c, Inner(header, ts))
    ensures k + 2 >= |ts| && LastSeen(c, ts[k])
  {
    var last := |Leaves(ts[k])| - 1;
    var j := |LeavesOf(ts[..k])| + last;
    LastPosition(ts, k, last, j);
    LastSeenAt(c, header, ts, j);
    LastBelow(c, header, ts, k, last, j, PathTo(c, ts[k], last));
  }

  lemma {:induction false} FirstBelow(c: Store, header: Bytes, ts: seq<Tree>, k: nat, p: seq<InnerOp>)
    requires 0 < |LeavesOf(ts)| && ChildOf(ts, 0) == k && |LeavesOf(ts[..k])| == 0 && p == PathTo(c, ts[k], 0)
    requires LeftMost(c.inner, PathTo(c, Inner(header, ts), 0))
    ensures LeftMost(c.inner, p)
  {
    PathStep(c, header, ts, 0, k, 0);
    OutermostParts(c, p, OpAt(c, header, ts, k));
  }

  lemma {:induction false} FirstChild(c: Store, header: Bytes, ts: seq<Tree>, k: nat)
    requires k < |ts| && Leaves(ts[k]) != [] && LeavesOf(ts[..k]) == [] && FirstSeen(c, Inner(header, ts))
    ensures FirstSeen(c, ts[k])
  {
    ChildOfLocal(ts, k, 0, 0);
    FirstBelow(c, header, ts, k, PathTo(c, ts[k], 0));
  }

  // ---- Seen trees are packed -----------------------------------------------------------------------------------

  lemma {:induction false} ChildLastSeen(c: Store, header: Bytes, ts: seq<Tree>, k: nat)
    requires WellFormed(c, Inner(header, ts)) && k < |ts| && EveryGapSeen(c, Inner(header, ts))
    ensures LastSeen(c, ts[k])
  {
    if Leaves(ts[k]) != [] {
      var m := NextWithLeaves(ts, k + 1);
      if m == |ts| {
        LastChild(c, header, ts, k);
      } else {
        AcrossGap(c, header, ts, k, m);
      }
    }
  }

  lemma {:induction false} ChildFirstSeen(c: Store, header: Bytes, ts: seq<Tree>, k: nat)
    requires WellFormed(c, Inner(header, ts)) && k < |ts| && EveryGapSeen(c, Inner(header, ts))
    ensures FirstSeen(c, ts[k])
  {
    if Leaves(ts[k]) != [] {
      var n := PreviousWithLeaves(ts, k);
      if n == 0 {
        assert ts[..k] == ts[0..k];
        FirstChild(c, header, ts, k);
      } else {
        AcrossGap(c, header, ts, n - 1, k);
      }
    }
  }

  lemma {:induction false} SeenInChild(c: Store, header: Bytes, ts: seq<Tree>, k: nat, a: nat, b: nat, j: nat, n: nat)
    requires k < |ts| && b == a + 1 && b < |Leaves(ts[k])| && a == j - |LeavesOf(ts[..k])|
    requires n == j + 1 && n < |LeavesOf(ts)| && ChildOf(ts, j) == k == ChildOf(ts, n)
    requires SeenBetween(c, Inner(header, ts), j, n)
    ensures SeenBetween(c, ts[k], a, b)
  {
    WithinChild(c, header, ts, j, n, k, a, b);
  }

  lemma {:induction false} ChildBetween(c: Store, header: Bytes, ts: seq<Tree>, k: nat, leaves: nat, start: nat)
    requires k < |ts| && leaves == |Leaves(ts[k])| && start == |LeavesOf(ts[..k])|
    requires AllBetween(c, Inner(header, ts))
    ensures AllBetween(c, ts[k])
  {
    forall a, b | 0 <= a < b < leaves && b == a + 1
      ensures SeenBetween(c, ts[k], a, b)
    {
      OneBetween(c, header, ts, k, a, b, start + a, start + b);
    }
  }

  lemma {:induction false} OneBetween(c: Store, header: Bytes, ts: seq<Tree>, k: nat, a: nat, b: nat, j: nat, n: nat)
    requires k < |ts| && b == a + 1 && b < |Leaves(ts[k])|
    requires j == |LeavesOf(ts[..k])| + a && n == |LeavesOf(ts[..k])| + b
    requires AllBetween(c, Inner(header, ts))
    ensures SeenBetween(c, ts[k], a, b)
  {
    ChildOfLocal(ts, k, a, j);
    ChildOfLocal(ts, k, b, n);
    assert SeenBetween(c, Inner(header, ts), j, n);
    SeenInChild(c, header, ts, k, a, b, j, n);
  }

  /** Every child has all its gaps seen. */
  lemma {:induction false} ChildGapsSeen(c: Store, header: Bytes, ts: seq<Tree>, k: nat)
    requires WellFormed(c, Inner(header, ts)) && k < |ts| && EveryGapSeen(c, Inner(header, ts))
    ensures EveryGapSeen(c, ts[k])
  {
    ChildFirstSeen(c, header, ts, k);
    ChildLastSeen(c, header, ts, k);
    ChildBetween(c, header, ts, k, |Leaves(ts[k])|, |LeavesOf(ts[..k])|);
  }

  /** Before a placeholder that is not the last child stands a placeholder. */
  lemma {:induction false} EmptyBefore(c: Store, header: Bytes, ts: seq<Tree>, j: nat)
    requires WellFormed(c, Inner(header, ts)) && AllPopulated(ts) && EveryGapSeen(c, Inner(header, ts))
    requires 0 < j && j + 1 < |ts| && ts[j] == Empty
    ensures ts[j - 1] == Empty
  {
    ChildPopulated(ts, j - 1);
    if Leaves(ts[j - 1]) != [] {
      var m := NextWithLeaves(ts, j);
      if m == |ts| {
        LastChild(c, header, ts, j - 1);
      } else {
        AcrossGap(c, header, ts, j - 1, m);
      }
    }
  }

  lemma {:induction false} AllEmptyBefore(c: Store, header: Bytes, ts: seq<Tree>, i: nat, j: nat)
    requires WellFormed(c, Inner(header, ts)) && AllPopulated(ts) && EveryGapSeen(c, Inner(header, ts))
    requires i < j && j + 1 < |ts| && ts[j] == Empty
    ensures ts[i] == Empty
    decreases j
  {
    EmptyBefore(c, header, ts, j);
    if i == j - 1 {
    } else {
      AllEmptyBefore(c, header, ts, i, j - 1);
    }
  }

  lemma {:induction false} NodeIsPacked(c: Store, header: Bytes, ts: seq<Tree>)
    requires WellFormed(c, Inner(header, ts)) && AllPopulated(ts) && EveryGapSeen(c, Inner(header, ts))
    ensures PackedNode(ts)
  {
    forall i, j | 0 <= i < j && j + 1 < |ts| && ts[j] == Empty
      ensures ts[i] == Empty
    {
      AllEmptyBefore(c, header, ts, i, j);
    }
  }

  lemma {:induction false} SeenIsPacked(c: Store, t: Tree)
    requires WellFormed(c, t) && Populated(t) && EveryGapSeen(c, t)
    ensures Packed(t)
    decreases t
  {
    if !t.Inner? {
    } else {
      NodeIsPacked(c, t.header, t.children);
      forall k | 0 <= k < |t.children|
        ensures Packed(t.children[k])
      {
        ChildWellFormed(c, t.children, k);
        ChildPopulated(t.children, k);
        ChildGapsSeen(c, t.header, t.children, k);
        SeenIsPacked(c, t.children[k]);
      }
      PackedOneByOne(t.children);
    }
  }

  lemma {:induction false} PackedOneByOne(ts: seq<Tree>)
    requires forall k :: 0 <= k < |ts| ==> Packed(ts[k])
    ensures AllPacked(ts)
  {
    if ts == [] {
    } else {
      assert Packed(ts[0]);
      PackedOneByOne(ts[1..]);
    }
  }

  lemma {:induction false} PackedIsSeen(c: Store, t: Tree)
    requires Neighborly(c, t)
    ensures EveryGapSeen(c, t)
  {
    if Leaves(t) != [] {
      FirstIsLeftMost(c, t);
      LastIsRightMost(c, t, |Leaves(t)| - 1);
    }
    PackedBetween(c, t);
  }

  lemma {:induction false} PackedBetween(c: Store, t: Tree)
    requires Neighborly(c, t)
    ensures AllBetween(c, t)
  {
    forall j, n | 0 <= j < n < |Leaves(t)| && n == j + 1
      ensures SeenBetween(c, t, j, n)
    {
      ConsecutiveAreNeighbors(c, t, j, n);
    }
  }

  /** The neighbour checks see every gap of a tree exactly when it is packed: no placeholder follows a subtree
      except as the last child. Beyond two children the checks do refuse honest neighbours. */
  lemma {:induction false} EveryGapSeenIffPacked(c: Store, t: Tree)
    requires WellFormed(c, t) && Populated(t)
    ensures EveryGapSeen(c, t) <==> Packed(t)
  {
    if Packed(t) {
      PackedIsSeen(c, t);
    } else if EveryGapSeen(c, t) {
      SeenIsPacked(c, t);
    }
  }
}
