/** The branch stages of the engine (utils.py:187-272).

    A branch places the `n` rows of the input table into `n` slots:
    `branch[p]` is the slot of row `p`, and `np.argsort(branch)` lists the
    rows slot by slot. `product` enumerates branches of index choices,
    `select_valid_branches` keeps those whose slot order satisfies the
    adjacency and rules matrices, and `get_branches_scores` reads the score
    of every placement off the input table. */
module Branches {
  import opened Common

  // ---------------------------------------------------------------- product

  /** `y` is a branch over `pools`: one index per pool, each below its
      pool's size, and no index twice. */
  ghost predicate IsBranch<T>(pools: seq<seq<T>>, y: seq<int>) {
    && |y| == |pools|
    && (forall k :: 0 <= k < |y| ==> 0 <= y[k] < |pools[k]|)
    && Distinct(y)
  }

  lemma DistinctConcat<T>(s: seq<T>, t: seq<T>)
    requires Distinct(s) && Distinct(t)
    requires forall x :: x in s ==> x !in t
    ensures Distinct(s + t)
  {
    forall i, j | 0 <= i < j < |s + t| ensures (s + t)[i] != (s + t)[j] {
      if i < |s| && j >= |s| {
        assert (s + t)[i] in s && (s + t)[j] in t;
      } else if i >= |s| {
        assert (s + t)[i] == t[i - |s|] && (s + t)[j] == t[j - |s|];
      }
    }
  }

  /** `[x + [j] for j, _ in enumerate(pool) if j not in x]` for a pool of
      `m` elements: `x` extended by each index below `m` that it does not
      hold yet, in ascending order of that index. */
  function Choices(x: seq<int>, m: nat): (r: seq<seq<int>>)
    ensures forall y :: y in r ==> |y| == |x| + 1
  {
    if m == 0 then []
    else if m - 1 in x then Choices(x, m - 1)
    else Choices(x, m - 1) + [x + [m - 1]]
  }

  /** The extensions of `x` are exactly the ways to add one fresh index
      below `m`, each once. */
  lemma {:induction false} ChoicesExactly(x: seq<int>, m: nat)
    ensures forall y :: y in Choices(x, m) <==>
      |y| == |x| + 1 && y[..|x|] == x && 0 <= y[|x|] < m && y[|x|] !in x
    ensures Distinct(Choices(x, m))
  {
    if m > 0 {
      ChoicesExactly(x, m - 1);
      var prev := Choices(x, m - 1);
      var y := x + [m - 1];
      assert y[..|x|] == x && y[|x|] == m - 1;
      forall z | |z| == |x| + 1 && z[..|x|] == x && z[|x|] == m - 1 ensures z == y {
        assert z == z[..|x|] + [z[|x|]];
      }
      if m - 1 !in x {
        assert y !in prev;
        DistinctConcat(prev, [y]);
      }
    }
  }

  /** One round of `product`: each partial branch of `xs`, in order,
      followed by its extensions by an index of a pool of `m` elements. */
  function Extend(xs: seq<seq<int>>, m: nat): (r: seq<seq<int>>)
    ensures forall y :: y in r ==> |y| > 0
  {
    if |xs| == 0 then []
    else Extend(xs[..|xs| - 1], m) + Choices(xs[|xs| - 1], m)
  }

  /** A round extends the partial branches by every fresh index and keeps
      the results apart. */
  lemma ExtendExactly(xs: seq<seq<int>>, m: nat)
    ensures forall y :: y in Extend(xs, m) <==>
      |y| > 0 && y[..|y| - 1] in xs && 0 <= y[|y| - 1] < m && y[|y| - 1] !in y[..|y| - 1]
    ensures Distinct(xs) ==> Distinct(Extend(xs, m))
  {
    ExtendMembers(xs, m);
    if Distinct(xs) {
      ExtendDistinct(xs, m);
    }
  }

  lemma {:induction false} ExtendMembers(xs: seq<seq<int>>, m: nat)
    ensures forall y :: y in Extend(xs, m) <==>
      |y| > 0 && y[..|y| - 1] in xs && 0 <= y[|y| - 1] < m && y[|y| - 1] !in y[..|y| - 1]
    decreases |xs|
  {
    if |xs| > 0 {
      var init, x := xs[..|xs| - 1], xs[|xs| - 1];
      ExtendMembers(init, m);
      ChoicesExactly(x, m);
      assert xs == init + [x];
    }
  }

  lemma {:induction false} ExtendDistinct(xs: seq<seq<int>>, m: nat)
    requires Distinct(xs)
    ensures Distinct(Extend(xs, m))
    decreases |xs|
  {
    if |xs| > 0 {
      var init, x := xs[..|xs| - 1], xs[|xs| - 1];
      assert xs == init + [x];
      assert Distinct(init) by {
        forall i, j | 0 <= i < j < |init| ensures init[i] != init[j] {
          assert init[i] == xs[i] && init[j] == xs[j];
        }
      }
      ExtendDistinct(init, m);
      ExtendMembers(init, m);
      ChoicesExactly(x, m);
      var prev, next := Extend(init, m), Choices(x, m);
      assert x !in init;
      forall y | y in prev ensures y !in next {
        assert y[..|y| - 1] in init;
      }
      DistinctConcat(prev, next);
    }
  }

  /** A branch over one pool more is a branch over the pools before it,
      followed by a fresh index of the new pool. */
  lemma IsBranchSnoc<T>(pools: seq<seq<T>>, i: nat, y: seq<int>)
    requires i < |pools|
    ensures IsBranch(pools[..i + 1], y) <==>
      |y| > 0 && IsBranch(pools[..i], y[..|y| - 1])
      && 0 <= y[|y| - 1] < |pools[i]| && y[|y| - 1] !in y[..|y| - 1]
  {
    if |y| == i + 1 {
      var x := y[..i];
      assert y == x + [y[i]];
      if IsBranch(pools[..i], x) && 0 <= y[i] < |pools[i]| && y[i] !in x {
        DistinctConcat(x, [y[i]]);
      }
      if Distinct(y) {
        forall k, l | 0 <= k < l < i ensures x[k] != x[l] {
          assert x[k] == y[k] && x[l] == y[l];
        }
        assert y[i] !in x by {
          forall k | 0 <= k < i ensures x[k] != y[i] {
            assert x[k] == y[k];
          }
        }
      }
    }
  }

  /** `product(*pools)` without a trace (utils.py:195-209): every branch
      over the pools, each exactly once. */
  method Product<T>(pools: seq<seq<T>>) returns (result: seq<seq<int>>)
    ensures forall y :: y in result <==> IsBranch(pools, y)
    ensures Distinct(result)
  {
    result := [[]];
    var i := 0;
    while i < |pools|
      invariant 0 <= i <= |pools|
      invariant forall y :: y in result <==> IsBranch(pools[..i], y)
      invariant Distinct(result)
    {
      ExtendExactly(result, |pools[i]|);
      forall y ensures y in Extend(result, |pools[i]|) <==> IsBranch(pools[..i + 1], y) {
        IsBranchSnoc(pools, i, y);
      }
      result := Extend(result, |pools[i]|);
      i := i + 1;
    }
    assert pools[..i] == pools;
  }

  // ------------------------------------------------- select_valid_branches

  /** The checks at slot `i` of the slot order `a`: the rows in slots `i`
      and `i + 1` are adjacent, and every row in a later slot is in the
      rules row of the row in slot `i`. */
  ghost predicate SlotPasses(adj: seq<seq<int>>, rules: seq<seq<int>>, a: seq<int>, i: int)
    requires IsSquare(adj, |a|) && |rules| == |a| && IsPermutation(a) && 0 <= i < |a| - 1
  {
    && adj[a[i]][a[i + 1]] == 1
    && forall t :: i + 1 <= t < |a| ==> a[t] in rules[a[i]]
  }

  /** Whether `select_valid_branches` keeps `branch`: every slot but the
      last passes its checks. */
  ghost predicate ValidBranch(adj: seq<seq<int>>, rules: seq<seq<int>>, branch: seq<int>)
    requires IsPermutation(branch) && IsSquare(adj, |branch|) && |rules| == |branch|
  {
    forall i :: 0 <= i < |branch| - 1 ==> SlotPasses(adj, rules, ArgSort(branch), i)
  }

  /** The inner loop of `select_valid_branches` (utils.py:234-246): the
      checks run slot by slot and the first failure rejects the branch. */
  method IsValidBranch(adj: seq<seq<int>>, rules: seq<seq<int>>, branch: seq<int>) returns (valid: bool)
    requires IsPermutation(branch) && IsSquare(adj, |branch|) && |rules| == |branch|
    ensures valid == ValidBranch(adj, rules, branch)
  {
    var a := ArgSort(branch);
    var i := 0;
    while i < |branch| - 1
      invariant 0 <= i <= if |branch| > 0 then |branch| - 1 else 0
      invariant forall j :: 0 <= j < i ==> SlotPasses(adj, rules, a, j)
    {
      if adj[a[i]][a[i + 1]] != 1 {
        assert !SlotPasses(adj, rules, a, i);
        return false;
      }
      if !(forall t :: i + 1 <= t < |a| ==> a[t] in rules[a[i]]) {
        assert !SlotPasses(adj, rules, a, i);
        return false;
      }
      i := i + 1;
    }
    return true;
  }

  /** Every branch is a permutation of the `n` slots, matching the matrices. */
  ghost predicate WellFormed(adj: seq<seq<int>>, rules: seq<seq<int>>, branches: seq<seq<int>>, n: nat) {
    && IsSquare(adj, n) && |rules| == n
    && forall g :: 0 <= g < |branches| ==> |branches[g]| == n && IsPermutation(branches[g])
  }

  /** The positions of the branches that pass, in ascending order: exactly
      the passing ones, each once. */
  ghost function KeptIndices(adj: seq<seq<int>>, rules: seq<seq<int>>, branches: seq<seq<int>>, n: nat): (idx: seq<int>)
    requires WellFormed(adj, rules, branches, n)
    ensures forall k :: 0 <= k < |idx| ==>
      0 <= idx[k] < |branches| && ValidBranch(adj, rules, branches[idx[k]])
    ensures forall k, l :: 0 <= k < l < |idx| ==> idx[k] < idx[l]
    ensures forall g :: 0 <= g < |branches| && ValidBranch(adj, rules, branches[g]) ==> g in idx
    decreases |branches|
  {
    if |branches| == 0 then []
    else
      var last := |branches| - 1;
      var prev := KeptIndices(adj, rules, branches[..last], n);
      if ValidBranch(adj, rules, branches[last]) then prev + [last] else prev
  }

  /** One more branch adds its position when it passes. */
  lemma KeptIndicesSnoc(adj: seq<seq<int>>, rules: seq<seq<int>>, branches: seq<seq<int>>, n: nat, gid: nat)
    requires WellFormed(adj, rules, branches, n) && gid < |branches|
    ensures WellFormed(adj, rules, branches[..gid], n) && WellFormed(adj, rules, branches[..gid + 1], n)
    ensures KeptIndices(adj, rules, branches[..gid + 1], n)
      == KeptIndices(adj, rules, branches[..gid], n)
         + (if ValidBranch(adj, rules, branches[gid]) then [gid] else [])
  {
    assert branches[..gid + 1][..gid] == branches[..gid];
  }

  /** `select_valid_branches` without a trace (utils.py:221-249): the
      branches that pass, in their original order and unchanged. */
  method SelectValidBranches(branches: seq<seq<int>>, rules: seq<seq<int>>, adj: seq<seq<int>>, ghost n: nat)
    returns (valid: seq<seq<int>>)
    requires WellFormed(adj, rules, branches, n)
    ensures var idx := KeptIndices(adj, rules, branches, n);
      |valid| == |idx| && forall k :: 0 <= k < |idx| ==> valid[k] == branches[idx[k]]
  {
    valid := [];
    var gid := 0;
    while gid < |branches|
      invariant 0 <= gid <= |branches|
      invariant var idx := KeptIndices(adj, rules, branches[..gid], n);
        |valid| == |idx| && forall k :: 0 <= k < |idx| ==> valid[k] == branches[idx[k]]
    {
      KeptIndicesSnoc(adj, rules, branches, n, gid);
      var ok := IsValidBranch(adj, rules, branches[gid]);
      if ok {
        valid := valid + [branches[gid]];
      }
      gid := gid + 1;
    }
    assert branches[..gid] == branches;
  }

  /** A branch is among those selected exactly when it passes. */
  lemma SelectedExactly(adj: seq<seq<int>>, rules: seq<seq<int>>, branches: seq<seq<int>>, n: nat, valid: seq<seq<int>>)
    requires WellFormed(adj, rules, branches, n)
    requires var idx := KeptIndices(adj, rules, branches, n);
      |valid| == |idx| && forall k :: 0 <= k < |idx| ==> valid[k] == branches[idx[k]]
    ensures forall g :: 0 <= g < |branches| ==>
      (branches[g] in valid <==> ValidBranch(adj, rules, branches[g]))
  {
    var idx := KeptIndices(adj, rules, branches, n);
    forall g | 0 <= g < |branches| ensures branches[g] in valid <==> ValidBranch(adj, rules, branches[g]) {
      if ValidBranch(adj, rules, branches[g]) {
        var k :| 0 <= k < |idx| && idx[k] == g;
        assert valid[k] == branches[g];
      }
      if branches[g] in valid {
        var k :| 0 <= k < |valid| && valid[k] == branches[g];
        assert branches[idx[k]] == branches[g];
      }
    }
  }

  /** Rows in neighbouring slots are adjacent. */
  ghost predicate NeighboursAdjacent(adj: seq<seq<int>>, branch: seq<int>)
    requires IsSquare(adj, |branch|)
  {
    forall p, q :: 0 <= p < |branch| && 0 <= q < |branch| && branch[q] == branch[p] + 1 ==> adj[p][q] == 1
  }

  /** Every row in a later slot than row `p` is in row `p`'s rules. */
  ghost predicate LaterRowsAllowed(rules: seq<seq<int>>, branch: seq<int>)
    requires |rules| == |branch|
  {
    forall p, q :: 0 <= p < |branch| && 0 <= q < |branch| && branch[p] < branch[q] ==> q in rules[p]
  }

  /** The same checks stated on rows instead of slots: every two rows in
      neighbouring slots are adjacent, and every row in a later slot than
      row `p` is in row `p`'s rules. */
  lemma ValidBranchByRows(adj: seq<seq<int>>, rules: seq<seq<int>>, branch: seq<int>)
    requires IsPermutation(branch) && IsSquare(adj, |branch|) && |rules| == |branch|
    ensures ValidBranch(adj, rules, branch) <==>
      NeighboursAdjacent(adj, branch) && LaterRowsAllowed(rules, branch)
  {
    if ValidBranch(adj, rules, branch) {
      ValidGivesRows(adj, rules, branch);
    }
    if NeighboursAdjacent(adj, branch) && LaterRowsAllowed(rules, branch) {
      RowsGiveValid(adj, rules, branch);
    }
  }

  lemma ValidGivesRows(adj: seq<seq<int>>, rules: seq<seq<int>>, branch: seq<int>)
    requires IsPermutation(branch) && IsSquare(adj, |branch|) && |rules| == |branch|
    requires ValidBranch(adj, rules, branch)
    ensures NeighboursAdjacent(adj, branch) && LaterRowsAllowed(rules, branch)
  {
    var n := |branch|;
    var a := ArgSort(branch);
    ArgSortInverse(branch);
    forall p, q | 0 <= p < n && 0 <= q < n && branch[q] == branch[p] + 1 ensures adj[p][q] == 1 {
      assert SlotPasses(adj, rules, a, branch[p]);
    }
    forall p, q | 0 <= p < n && 0 <= q < n && branch[p] < branch[q] ensures q in rules[p] {
      assert SlotPasses(adj, rules, a, branch[p]);
      assert a[branch[q]] == q;
    }
  }

  lemma RowsGiveValid(adj: seq<seq<int>>, rules: seq<seq<int>>, branch: seq<int>)
    requires IsPermutation(branch) && IsSquare(adj, |branch|) && |rules| == |branch|
    requires NeighboursAdjacent(adj, branch) && LaterRowsAllowed(rules, branch)
    ensures ValidBranch(adj, rules, branch)
  {
    var n := |branch|;
    var a := ArgSort(branch);
    ArgSortInverse(branch);
    forall i | 0 <= i < n - 1 ensures SlotPasses(adj, rules, a, i) {
      assert branch[a[i + 1]] == branch[a[i]] + 1;
      forall t | i + 1 <= t < n ensures a[t] in rules[a[i]] {
        assert branch[a[i]] < branch[a[t]];
      }
    }
  }

  /** A branch of at most one row has no neighbouring slots and is always kept. */
  lemma ShortBranchValid(adj: seq<seq<int>>, rules: seq<seq<int>>, branch: seq<int>)
    requires IsPermutation(branch) && IsSquare(adj, |branch|) && |rules| == |branch|
    requires |branch| <= 1
    ensures ValidBranch(adj, rules, branch)
  {
  }

  /** When no two different rows are adjacent, only branches of at most one
      row are kept. */
  lemma NoAdjacencyOnlyShort(adj: seq<seq<int>>, rules: seq<seq<int>>, branch: seq<int>)
    requires IsPermutation(branch) && IsSquare(adj, |branch|) && |rules| == |branch|
    requires forall p, q :: 0 <= p < |adj| && 0 <= q < |adj| && p != q ==> adj[p][q] != 1
    ensures ValidBranch(adj, rules, branch) <==> |branch| <= 1
  {
    if |branch| > 1 {
      var a := ArgSort(branch);
      assert a[0] != a[1];
      assert !SlotPasses(adj, rules, a, 0);
    }
  }

  /** When every row is adjacent to every row and allowed after every row,
      every branch is kept. */
  lemma PermissiveMatricesKeepAll(adj: seq<seq<int>>, rules: seq<seq<int>>, branch: seq<int>)
    requires IsPermutation(branch) && IsSquare(adj, |branch|) && |rules| == |branch|
    requires forall p, q :: 0 <= p < |adj| && 0 <= q < |adj| ==> adj[p][q] == 1
    requires forall p, q :: 0 <= p < |rules| && 0 <= q < |rules| ==> q in rules[p]
    ensures ValidBranch(adj, rules, branch)
  {
    var a := ArgSort(branch);
    forall i | 0 <= i < |branch| - 1 ensures SlotPasses(adj, rules, a, i) {
    }
  }

  // --------------------------------------------------- get_branches_scores

  /** Every placement of `branch` names a cell of the input table. */
  ghost predicate RowDefined(branch: seq<int>, table: seq<seq<int>>) {
    && |branch| <= |table|
    && forall p :: 0 <= p < |branch| ==> 0 <= branch[p] < |table[p]|
  }

  /** Every placement of every branch names a cell of the input table. */
  ghost predicate ScoresDefined(branches: seq<seq<int>>, table: seq<seq<int>>) {
    forall k :: 0 <= k < |branches| ==> RowDefined(branches[k], table)
  }

  /** `get_branches_scores` without a trace (utils.py:260-272): one row per
      branch, as long as the branch, whose entry `p` is the score of row `p`
      in the slot the branch gives it. */
  method GetBranchesScores(branches: seq<seq<int>>, table: seq<seq<int>>) returns (scores: seq<seq<int>>)
    requires ScoresDefined(branches, table)
    ensures |scores| == |branches|
    ensures forall k :: 0 <= k < |branches| ==> |scores[k]| == |branches[k]|
    ensures forall k, p :: 0 <= k < |branches| && 0 <= p < |branches[k]| ==>
      scores[k][p] == table[p][branches[k][p]]
  {
    scores := [];
    var k := 0;
    while k < |branches|
      invariant 0 <= k <= |branches| && |scores| == k
      invariant forall k' :: 0 <= k' < k ==> |scores[k']| == |branches[k']|
      invariant forall k', p :: 0 <= k' < k && 0 <= p < |branches[k']| ==>
        scores[k'][p] == table[p][branches[k'][p]]
    {
      var branch := branches[k];
      var pool := [];
      var p := 0;
      while p < |branch|
        invariant 0 <= p <= |branch| && |pool| == p
        invariant forall q :: 0 <= q < p ==> pool[q] == table[q][branch[q]]
      {
        pool := pool + [table[p][branch[p]]];
        p := p + 1;
      }
      scores := scores + [pool];
      k := k + 1;
    }
  }
}
