/** The final stage of the engine, `get_optimal_solution` (utils.py:275-299):
    the branches with the highest total score, each turned into the column
    names in slot order, with duplicates removed as `np.unique` does. */
module Optimal {
  import opened Common

  // ------------------------------------------------------------- orderings

  /** Lexicographic order of strings by code point, as numpy compares them. */
  predicate TextLess(a: string, b: string)
    decreases |a|
  {
    if |a| == 0 then |b| > 0
    else |b| > 0 && (a[0] < b[0] || (a[0] == b[0] && TextLess(a[1..], b[1..])))
  }

  lemma {:induction false} TextLessIrreflexive(a: string)
    ensures !TextLess(a, a)
    decreases |a|
  {
    if |a| > 0 {
      TextLessIrreflexive(a[1..]);
    }
  }

  lemma {:induction false} TextLessTransitive(a: string, b: string, c: string)
    requires TextLess(a, b) && TextLess(b, c)
    ensures TextLess(a, c)
    decreases |a|
  {
    if |a| > 0 && a[0] == b[0] == c[0] {
      TextLessTransitive(a[1..], b[1..], c[1..]);
    }
  }

  lemma {:induction false} TextLessTotal(a: string, b: string)
    requires a != b
    ensures TextLess(a, b) || TextLess(b, a)
    decreases |a|
  {
    if |a| > 0 && |b| > 0 && a[0] == b[0] {
      assert a == [a[0]] + a[1..] && b == [b[0]] + b[1..];
      TextLessTotal(a[1..], b[1..]);
    }
  }

  /** Lexicographic order of rows of strings, the order of `np.unique(..., axis=0)`. */
  predicate RowLess(a: seq<string>, b: seq<string>)
    decreases |a|
  {
    if |a| == 0 then |b| > 0
    else |b| > 0 && (TextLess(a[0], b[0]) || (a[0] == b[0] && RowLess(a[1..], b[1..])))
  }

  lemma {:induction false} RowLessIrreflexive(a: seq<string>)
    ensures !RowLess(a, a)
    decreases |a|
  {
    if |a| > 0 {
      TextLessIrreflexive(a[0]);
      RowLessIrreflexive(a[1..]);
    }
  }

  lemma {:induction false} RowLessTransitive(a: seq<string>, b: seq<string>, c: seq<string>)
    requires RowLess(a, b) && RowLess(b, c)
    ensures RowLess(a, c)
    decreases |a|
  {
    if |a| > 0 {
      if a[0] == b[0] == c[0] {
        TextLessIrreflexive(a[0]);
        RowLessTransitive(a[1..], b[1..], c[1..]);
      } else if TextLess(a[0], b[0]) && TextLess(b[0], c[0]) {
        TextLessTransitive(a[0], b[0], c[0]);
      }
    }
  }

  lemma {:induction false} RowLessTotal(a: seq<string>, b: seq<string>)
    requires a != b
    ensures RowLess(a, b) || RowLess(b, a)
    decreases |a|
  {
    if |a| > 0 && |b| > 0 {
      if a[0] == b[0] {
        assert a == [a[0]] + a[1..] && b == [b[0]] + b[1..];
        RowLessTotal(a[1..], b[1..]);
      } else {
        TextLessTotal(a[0], b[0]);
      }
    }
  }

  /** `less` is a strict total order. */
  ghost predicate StrictOrder<T(!new)>(less: (T, T) -> bool) {
    && (forall a :: !less(a, a))
    && (forall a, b, c :: less(a, b) && less(b, c) ==> less(a, c))
    && (forall a, b :: a != b ==> less(a, b) || less(b, a))
  }

  lemma RowLessOrder()
    ensures StrictOrder(RowLess)
  {
    forall a ensures !RowLess(a, a) {
      RowLessIrreflexive(a);
    }
    forall a, b, c | RowLess(a, b) && RowLess(b, c) ensures RowLess(a, c) {
      RowLessTransitive(a, b, c);
    }
    forall a, b | a != b ensures RowLess(a, b) || RowLess(b, a) {
      RowLessTotal(a, b);
    }
  }

  function IntLess(a: int, b: int): bool {
    a < b
  }

  lemma IntLessOrder()
    ensures StrictOrder(IntLess)
  {
  }

  /** Ascending under `less`, hence without repeats. */
  ghost predicate SortedBy<T>(s: seq<T>, less: (T, T) -> bool) {
    forall i, j :: 0 <= i < j < |s| ==> less(s[i], s[j])
  }

  // ---------------------------------------------------------------- unique

  /** `x` put into its place in the ascending `s`, unless it is already there. */
  function Insert<T(==,!new)>(s: seq<T>, x: T, less: (T, T) -> bool): (r: seq<T>)
    requires StrictOrder(less) && SortedBy(s, less)
    ensures SortedBy(r, less)
    ensures forall y :: y in r <==> y in s || y == x
    decreases |s|
  {
    if |s| == 0 then [x]
    else if x == s[0] then s
    else if less(x, s[0]) then
      assert forall j :: 0 < j < |s| ==> less(s[0], s[j]);
      [x] + s
    else
      var rest := Insert(s[1..], x, less);
      assert less(s[0], x);
      assert forall y :: y in s[1..] ==> less(s[0], y) by {
        forall y | y in s[1..] ensures less(s[0], y) {
          var j :| 0 <= j < |s[1..]| && s[1..][j] == y;
          assert s[j + 1] == y;
        }
      }
      assert forall j :: 0 <= j < |rest| ==> less(s[0], rest[j]) by {
        forall j | 0 <= j < |rest| ensures less(s[0], rest[j]) {
          assert rest[j] in rest;
        }
      }
      assert s == [s[0]] + s[1..];
      [s[0]] + rest
  }

  /** `np.unique`: the values of `xs` in ascending order, each once. */
  function Unique<T(==,!new)>(xs: seq<T>, less: (T, T) -> bool): (r: seq<T>)
    requires StrictOrder(less)
    ensures SortedBy(r, less)
    ensures forall y :: y in r <==> y in xs
  {
    if |xs| == 0 then []
    else
      var init := xs[..|xs| - 1];
      assert xs == init + [xs[|xs| - 1]];
      Insert(Unique(init, less), xs[|xs| - 1], less)
  }

  /** A list whose entries all equal `x` collapses to `[x]`. */
  lemma UniqueOfConstant(xs: seq<int>, x: int)
    requires |xs| > 0 && forall j :: 0 <= j < |xs| ==> xs[j] == x
    ensures (IntLessOrder(); Unique(xs, IntLess) == [x])
  {
    IntLessOrder();
    var r := Unique(xs, IntLess);
    assert xs[0] in xs;
    forall j | 0 <= j < |r| ensures r[j] == x {
      assert r[j] in xs;
    }
    SortedOfOne(r, x, IntLess);
  }

  /** A strictly sorted list holding `x` and nothing else is `[x]`. */
  lemma SortedOfOne<T(!new)>(r: seq<T>, x: T, less: (T, T) -> bool)
    requires StrictOrder(less) && SortedBy(r, less)
    requires x in r && forall j :: 0 <= j < |r| ==> r[j] == x
    ensures r == [x]
  {
    SortedDistinct(r, less);
    DistinctCard(r);
    assert (set y | y in r) == {x};
  }

  /** A strictly sorted list repeats nothing. */
  lemma SortedDistinct<T(!new)>(r: seq<T>, less: (T, T) -> bool)
    requires StrictOrder(less) && SortedBy(r, less)
    ensures Distinct(r)
  {
    forall i, j | 0 <= i < j < |r| ensures r[i] != r[j] {
      assert less(r[i], r[j]);
    }
  }

  // ------------------------------------------------------------ components

  /** `[e for _, e in sorted(zip(tree, table_names))]` for a branch that is
      a permutation: the names listed in ascending order of their slot. */
  function Composition(tree: seq<int>, names: seq<string>): (c: seq<string>)
    requires IsPermutation(tree) && |tree| == |names|
    ensures |c| == |names|
  {
    seq(|tree|, s requires 0 <= s < |tree| => names[ArgSort(tree)[s]])
  }

  /** Slot `tree[p]` of the composition holds `names[p]`, and that fixes the
      composition. */
  lemma CompositionPlaces(tree: seq<int>, names: seq<string>, c: seq<string>)
    requires IsPermutation(tree) && |tree| == |names|
    ensures forall p :: 0 <= p < |tree| ==> Composition(tree, names)[tree[p]] == names[p]
    ensures |c| == |names| && (forall p :: 0 <= p < |tree| ==> c[tree[p]] == names[p])
      ==> c == Composition(tree, names)
  {
    ArgSortInverse(tree);
    var a := ArgSort(tree);
    if |c| == |names| && (forall p :: 0 <= p < |tree| ==> c[tree[p]] == names[p]) {
      forall s | 0 <= s < |c| ensures c[s] == Composition(tree, names)[s] {
        assert tree[a[s]] == s;
      }
    }
  }

  /** The largest value of a non-empty list (Python's `max`). */
  function MaxOf(xs: seq<int>): (m: int)
    requires |xs| > 0
    ensures m in xs
    ensures forall j :: 0 <= j < |xs| ==> xs[j] <= m
  {
    if |xs| == 1 then xs[0]
    else
      var init := xs[..|xs| - 1];
      var m := MaxOf(init);
      assert forall j :: 0 <= j < |init| ==> xs[j] == init[j];
      if xs[|xs| - 1] > m then xs[|xs| - 1] else m
  }

  /** `np.sum(branches_scores, axis=1)`. */
  function RowSums(rows: seq<seq<int>>): (sums: seq<int>)
    ensures |sums| == |rows|
    ensures forall k :: 0 <= k < |rows| ==> sums[k] == Sum(rows[k])
  {
    seq(|rows|, k requires 0 <= k < |rows| => Sum(rows[k]))
  }

  // --------------------------------------------------- get_optimal_solution

  /** `max` of an empty list raises; so does `np.sum(..., axis=1)` on the
      one-dimensional array that an empty list of branches becomes. */
  datatype OptimalError = NoBranches

  datatype Solution = Solution(names: seq<seq<string>>, scores: seq<int>)

  /** The branches are permutations of the slots, one name per slot, and
      each has its row of scores. */
  ghost predicate Inputs(scores: seq<seq<int>>, branches: seq<seq<int>>, names: seq<string>) {
    && |branches| == |scores|
    && forall g :: 0 <= g < |branches| ==> IsPermutation(branches[g]) && |branches[g]| == |names|
  }

  /** `c` is the composition of a branch whose total is `best`. */
  ghost predicate OptimalComposition(scores: seq<seq<int>>, branches: seq<seq<int>>, names: seq<string>,
                                     best: int, c: seq<string>)
    requires Inputs(scores, branches, names)
  {
    exists g :: 0 <= g < |branches| && Sum(scores[g]) == best && c == Composition(branches[g], names)
  }

  /** The compositions of the branches at the positions where the totals
      reach `best` are exactly the optimal compositions. */
  lemma CompositionsOfBest(scores: seq<seq<int>>, branches: seq<seq<int>>, names: seq<string>,
                           best: int, comps: seq<seq<string>>)
    requires Inputs(scores, branches, names)
    requires var ids := Where(RowSums(scores), best);
      |comps| == |ids| && forall j :: 0 <= j < |ids| ==> comps[j] == Composition(branches[ids[j]], names)
    ensures forall c :: c in comps <==> OptimalComposition(scores, branches, names, best, c)
  {
    var sums := RowSums(scores);
    var ids := Where(sums, best);
    forall c ensures c in comps <==> OptimalComposition(scores, branches, names, best, c) {
      if c in comps {
        var j :| 0 <= j < |comps| && comps[j] == c;
        assert Sum(scores[ids[j]]) == best;
      }
      if OptimalComposition(scores, branches, names, best, c) {
        var g :| 0 <= g < |branches| && Sum(scores[g]) == best && c == Composition(branches[g], names);
        assert sums[g] == best;
        var j :| 0 <= j < |ids| && ids[j] == g;
        assert comps[j] == c;
      }
    }
  }

  /** The loop of `get_optimal_solution` (utils.py:291-293): the
      composition and the total of each optimal branch, in order. */
  method ComposeAll(trees: seq<seq<int>>, treeScores: seq<seq<int>>, tableNames: seq<string>)
    returns (namesList: seq<seq<string>>, scoresList: seq<int>)
    requires |trees| == |treeScores|
    requires forall j :: 0 <= j < |trees| ==> IsPermutation(trees[j]) && |trees[j]| == |tableNames|
    ensures |namesList| == |scoresList| == |trees|
    ensures forall j :: 0 <= j < |trees| ==> namesList[j] == Composition(trees[j], tableNames)
    ensures forall j :: 0 <= j < |trees| ==> scoresList[j] == Sum(treeScores[j])
  {
    namesList, scoresList := [], [];
    var i := 0;
    while i < |trees|
      invariant 0 <= i <= |trees| && |namesList| == |scoresList| == i
      invariant forall j :: 0 <= j < i ==> namesList[j] == Composition(trees[j], tableNames)
      invariant forall j :: 0 <= j < i ==> scoresList[j] == Sum(treeScores[j])
    {
      namesList := namesList + [Composition(trees[i], tableNames)];
      scoresList := scoresList + [Sum(treeScores[i])];
      i := i + 1;
    }
  }

  /** `get_optimal_solution` (utils.py:283-299). With no branch it fails.
      Otherwise `best` is the highest total of any branch; the names are
      the compositions of exactly the branches that reach it, ascending and
      each once; and the scores collapse to `[best]`. */
  method GetOptimalSolution(branchesScores: seq<seq<int>>, branches: seq<seq<int>>, tableNames: seq<string>)
    returns (r: Result<Solution, OptimalError>, ghost best: int)
    requires Inputs(branchesScores, branches, tableNames)
    ensures r.Err? <==> |branchesScores| == 0
    ensures r.Ok? ==>
      && (forall g :: 0 <= g < |branchesScores| ==> Sum(branchesScores[g]) <= best)
      && (exists g :: 0 <= g < |branchesScores| && Sum(branchesScores[g]) == best)
      && r.value.scores == [best]
      && SortedBy(r.value.names, RowLess)
      && forall c :: c in r.value.names <==>
           OptimalComposition(branchesScores, branches, tableNames, best, c)
  {
    if |branchesScores| == 0 {
      return Err(NoBranches), 0;
    }
    var sums := RowSums(branchesScores);
    var top := MaxOf(sums);
    best := top;
    var ids := Where(sums, top);
    var trees := seq(|ids|, i requires 0 <= i < |ids| => branches[ids[i]]);
    var treeScores := seq(|ids|, i requires 0 <= i < |ids| => branchesScores[ids[i]]);
    var namesList, scoresList := ComposeAll(trees, treeScores, tableNames);

    RowLessOrder();
    IntLessOrder();
    assert |ids| > 0 by {
      var g :| 0 <= g < |sums| && sums[g] == top;
      assert g in ids;
    }
    UniqueOfConstant(scoresList, top);
    CompositionsOfBest(branchesScores, branches, tableNames, top, namesList);
    r := Ok(Solution(Unique(namesList, RowLess), Unique(scoresList, IntLess)));
  }
}
