/** The permutation generator `permutations_optimised` (utils.py:166-184).

    Its state is a list `indices` and a list `cycles` of counters. The model
    keeps both as arrays, updated in place exactly as the source updates its
    lists, and explains the state by two functions of the counters alone:

    - `Arrangement(Iota(n), cycles)` is the value of `indices`: the counter
      of level `i` says which of the elements still free sits at position
      `i`, and the levels below keep the rest in order;
    - `Rank(cycles)` reads the counters as a mixed-radix number. Each yield
      after the first lowers it by exactly one, from `n! - 1` to `0`, so the
      generator yields `n!` tuples and never the same counters twice. */
module Permutations {
  import opened Common

  /** `n!`, as `n` copies of `(n - 1)!` (see `Place`). */
  function Factorial(n: nat): (r: nat)
    ensures r >= 1
    decreases n, 1, 0
  {
    if n == 0 then 1 else Place(n, n - 1)
  }

  /** Digit `d` in the place of weight `m!`: `d` copies of `m!`, spelled out
      as a sum so that all reasoning about ranks stays linear. */
  function Place(d: int, m: nat): (r: nat)
    ensures d > 0 ==> r >= Factorial(m)
    decreases m + 1, 0, d
  {
    if d <= 0 then 0 else Place(d - 1, m) + Factorial(m)
  }

  /** `Place` is the usual product. */
  lemma {:induction false} PlaceProduct(d: int, m: nat)
    requires d >= 0
    ensures Place(d, m) == d * Factorial(m)
  {
    if d > 0 {
      PlaceProduct(d - 1, m);
    }
  }

  /** `Factorial` is the usual product. */
  lemma FactorialProduct(n: nat)
    ensures Factorial(n + 1) == (n + 1) * Factorial(n)
  {
    PlaceProduct(n + 1, n);
  }

  lemma {:induction false} PlaceMonotone(d: int, e: int, m: nat)
    requires d <= e
    ensures Place(d, m) <= Place(e, m)
    decreases e - d
  {
    if d < e {
      PlaceMonotone(d, e - 1, m);
    }
  }

  /** Counter `j` of a state of width `n` lies in `1..n-j`. */
  ghost predicate CyclesInRange(c: seq<int>, n: int) {
    forall j :: 0 <= j < |c| ==> 1 <= c[j] <= n - j
  }

  /** Counters of levels that start afresh (`list(range(m, 0, -1))`):
      level `j` of `c` holds `|c| - j`. */
  ghost predicate IsFresh(c: seq<int>) {
    forall j :: 0 <= j < |c| ==> c[j] == |c| - j
  }

  lemma FreshTail(c: seq<int>)
    requires |c| > 0 && IsFresh(c)
    ensures IsFresh(c[1..])
  {
    forall j | 0 <= j < |c| - 1 ensures c[1..][j] == |c| - 1 - j {
      assert c[1..][j] == c[j + 1];
    }
  }

  lemma FreshPrepend(c: seq<int>)
    requires |c| > 0 && c[0] == |c| && IsFresh(c[1..])
    ensures IsFresh(c)
  {
    forall j | 0 < j < |c| ensures c[j] == |c| - j {
      assert c[j] == c[1..][j - 1];
    }
  }

  lemma FreshInRange(c: seq<int>)
    requires IsFresh(c)
    ensures CyclesInRange(c, |c|)
  {
  }

  /** `s` without its element at `k`, the others in order. */
  function Remove<T>(s: seq<T>, k: nat): (r: seq<T>)
    requires k < |s|
    ensures |r| == |s| - 1
  {
    s[..k] + s[k + 1..]
  }

  /** `tuple(pool[i] for i in idx)`. */
  function Select<T>(pool: seq<T>, idx: seq<int>): (r: seq<T>)
    requires forall j :: 0 <= j < |idx| ==> 0 <= idx[j] < |pool|
    ensures |r| == |idx|
    ensures forall j :: 0 <= j < |idx| ==> r[j] == pool[idx[j]]
  {
    seq(|idx|, j requires 0 <= j < |idx| => pool[idx[j]])
  }

  lemma RemoveMultiset<T>(s: seq<T>, k: nat)
    requires k < |s|
    ensures multiset(Remove(s, k)) + multiset{s[k]} == multiset(s)
  {
    assert s == s[..k] + [s[k]] + s[k + 1..];
  }

  lemma RemoveDistinct<T>(s: seq<T>, k: nat)
    requires k < |s|
    ensures Distinct(s) ==> Distinct(Remove(s, k)) && s[k] !in Remove(s, k)
  {
    if !Distinct(s) { return; }
    var r := Remove(s, k);
    forall i, j | 0 <= i < j < |r| ensures r[i] != r[j] {
      var i' := if i < k then i else i + 1;
      var j' := if j < k then j else j + 1;
      assert r[i] == s[i'] && r[j] == s[j'];
    }
  }

  lemma PrependDistinct<T>(x: T, t: seq<T>, u: seq<T>)
    requires multiset(t) == multiset(u)
    ensures Distinct(t) && x !in u ==> Distinct([x] + t)
  {
    if x !in u {
      assert x !in multiset(t);
    }
  }

  /** The place that a level with `len` free elements and counter `x` takes
      its element from: `len - x`, as `indices[-x]` in the swap. Counters
      lie in `1..len`; outside that range the front is taken, so that the
      functions below need no precondition on the counters. */
  function Pick(len: nat, x: int): (k: nat)
    requires len > 0
    ensures k < len
  {
    if 1 <= x <= len then len - x else 0
  }

  /** The arrangement of `b` that the counters `c` stand for: the first
      level brings `b[|b| - c[0]]` to the front, the other elements keep
      their order and the remaining counters arrange them in the same way. */
  function Arrangement<T>(b: seq<T>, c: seq<int>): (r: seq<T>)
    requires |b| == |c|
    ensures |r| == |b|
    decreases |c|
  {
    if |c| == 0 then []
    else
      var k := Pick(|b|, c[0]);
      [b[k]] + Arrangement(Remove(b, k), c[1..])
  }

  /** An arrangement is a rearrangement: the same elements, as often, and
      no element twice when the base has none twice. */
  lemma {:induction false} ArrangementPermutes<T>(b: seq<T>, c: seq<int>)
    requires |b| == |c|
    ensures multiset(Arrangement(b, c)) == multiset(b)
    ensures Distinct(b) ==> Distinct(Arrangement(b, c))
    decreases |c|
  {
    if |c| > 0 {
      var k := Pick(|b|, c[0]);
      var tail := Arrangement(Remove(b, k), c[1..]);
      ArrangementPermutes(Remove(b, k), c[1..]);
      RemoveMultiset(b, k);
      RemoveDistinct(b, k);
      PrependDistinct(b[k], tail, Remove(b, k));
    }
  }

  /** The elements that the counters `p` of the first levels pick, in order. */
  function Chosen<T>(b: seq<T>, p: seq<int>): (r: seq<T>)
    requires |p| <= |b|
    ensures |r| == |p|
    decreases |p|
  {
    if |p| == 0 then []
    else
      var k := Pick(|b|, p[0]);
      [b[k]] + Chosen(Remove(b, k), p[1..])
  }

  /** What the counters `p` of the first levels leave, in order, for the
      levels below. */
  function Remaining<T>(b: seq<T>, p: seq<int>): (r: seq<T>)
    requires |p| <= |b|
    ensures |r| == |b| - |p|
    decreases |p|
  {
    if |p| == 0 then b else Remaining(Remove(b, Pick(|b|, p[0])), p[1..])
  }

  /** The levels above pick their elements first; the levels below arrange
      what is left. */
  lemma {:induction false} ArrangementSplit<T>(b: seq<T>, p: seq<int>, s: seq<int>)
    requires |b| == |p| + |s|
    ensures Arrangement(b, p + s) == Chosen(b, p) + Arrangement(Remaining(b, p), s)
    decreases |p|
  {
    if |p| == 0 {
      assert p + s == s;
    } else {
      var k := Pick(|b|, p[0]);
      assert (p + s)[0] == p[0] && (p + s)[1..] == p[1..] + s;
      ArrangementSplit(Remove(b, k), p[1..], s);
    }
  }

  /** Levels that start afresh have made no swap: the elements stay in order. */
  lemma {:induction false} ArrangementFresh<T>(b: seq<T>, c: seq<int>)
    requires |b| == |c| && IsFresh(c)
    ensures Arrangement(b, c) == b
    decreases |b|
  {
    if |b| > 0 {
      FreshTail(c);
      ArrangementFresh(b[1..], c[1..]);
      assert Remove(b, 0) == b[1..];
    }
  }

  /** A level whose counter is `x` above levels that start afresh brings
      `r[|r| - x]` to the front and leaves the rest in order. */
  lemma LevelOverFresh<T>(r: seq<T>, s: seq<int>)
    requires |s| == |r| > 0 && 1 <= s[0] <= |r| && IsFresh(s[1..])
    ensures Arrangement(r, s) == [r[|r| - s[0]]] + Remove(r, |r| - s[0])
  {
    ArrangementFresh(Remove(r, |r| - s[0]), s[1..]);
  }

  /** The counters read as a number whose digit `j` (counter minus one) has
      weight `(|c| - 1 - j)!`. */
  function Rank(c: seq<int>): int {
    if |c| == 0 then 0 else Place(c[0] - 1, |c| - 1) + Rank(c[1..])
  }

  /** Counters in range have a rank in `0..n!-1`. */
  lemma {:induction false} RankBounds(c: seq<int>)
    requires CyclesInRange(c, |c|)
    ensures 0 <= Rank(c) < Factorial(|c|)
    decreases |c|
  {
    if |c| > 0 {
      var m := |c| - 1;
      assert CyclesInRange(c[1..], m);
      RankBounds(c[1..]);
      PlaceMonotone(c[0] - 1, m, m);
    }
  }

  /** The counters the generator starts with have the top rank `n! - 1`. */
  lemma {:induction false} RankFresh(c: seq<int>)
    requires IsFresh(c)
    ensures Rank(c) == Factorial(|c|) - 1
    decreases |c|
  {
    if |c| > 0 {
      FreshTail(c);
      RankFresh(c[1..]);
    }
  }

  /** Counters that are all one (every digit zero) have rank zero. */
  lemma {:induction false} RankOnes(c: seq<int>)
    requires forall j :: 0 <= j < |c| ==> c[j] == 1
    ensures Rank(c) == 0
    decreases |c|
  {
    if |c| > 0 {
      RankOnes(c[1..]);
    }
  }

  /** Two counter states with the same first levels differ in rank by what
      the levels below differ by. */
  lemma {:induction false} RankSplit(p: seq<int>, s: seq<int>, t: seq<int>)
    requires |s| == |t|
    ensures Rank(p + s) - Rank(p + t) == Rank(s) - Rank(t)
    decreases |p|
  {
    if |p| == 0 {
      assert p + s == s && p + t == t;
    } else {
      assert (p + s)[0] == p[0] == (p + t)[0];
      assert (p + s)[1..] == p[1..] + s && (p + t)[1..] == p[1..] + t;
      RankSplit(p[1..], s, t);
    }
  }

  lemma RankCons(x: int, s: seq<int>)
    ensures Rank([x] + s) == Place(x - 1, |s|) + Rank(s)
  {
    var c := [x] + s;
    assert c[0] == x && c[1..] == s;
  }

  /** The counters after a pass that swaps at level `i`: the levels above
      as they were, level `i` one lower, the levels below afresh. */
  ghost predicate AfterSwap(c0: seq<int>, i: nat, c1: seq<int>) {
    i < |c0| == |c1| && c1[..i] == c0[..i] && c1[i] == c0[i] - 1 && IsFresh(c1[i + 1..])
  }

  lemma AfterSwapInRange(c0: seq<int>, i: nat, c1: seq<int>)
    requires CyclesInRange(c0, |c0|) && AfterSwap(c0, i, c1) && c0[i] >= 2
    ensures CyclesInRange(c1, |c1|)
  {
    var n := |c0|;
    forall j | 0 <= j < n ensures 1 <= c1[j] <= n - j {
      if j < i {
        assert c1[j] == c1[..i][j] == c0[..i][j];
      } else if j > i {
        assert c1[j] == c1[i + 1..][j - i - 1];
      }
    }
  }

  /** The pass ends at a level whose counter `x` is at least two, with
      levels below that have all reached one: the level goes one down, the
      levels below start again, and the rank goes down by exactly one. */
  lemma {:induction false} SwapRank(q: seq<int>, x: int, o: seq<int>, f: seq<int>)
    requires x >= 2 && |o| == |f| && IsFresh(f)
    requires forall j :: 0 <= j < |o| ==> o[j] == 1
    ensures Rank(q + ([x - 1] + f)) == Rank(q + ([x] + o)) - 1
  {
    RankSplit(q, [x - 1] + f, [x] + o);
    RankCons(x - 1, f);
    RankFresh(f);
    RankCons(x, o);
    RankOnes(o);
  }

  /** The state of a pass over `indices` and `cycles` once the levels from
      `i` on are done: they all ran out and started afresh, the levels above
      are as they were, and the counters still describe `indices`. */
  ghost predicate Processed(b: seq<int>, c0: seq<int>, i: nat, ind: seq<int>, cyc: seq<int>) {
    && |b| == |c0| == |ind| == |cyc| && i <= |c0|
    && CyclesInRange(c0, |c0|)
    && cyc[..i] == c0[..i] && IsFresh(cyc[i..])
    && (forall j :: i <= j < |c0| ==> c0[j] == 1)
    && ind == Arrangement(b, cyc)
  }

  lemma ProcessedStart(b: seq<int>, c0: seq<int>, ind: seq<int>)
    requires |b| == |c0| && CyclesInRange(c0, |c0|) && ind == Arrangement(b, c0)
    ensures Processed(b, c0, |c0|, ind, c0)
  {
    assert c0[..|c0|] == c0;
  }

  lemma ProcessedCounter(b: seq<int>, c0: seq<int>, i: nat, ind: seq<int>, cyc: seq<int>)
    requires i < |c0| && Processed(b, c0, i + 1, ind, cyc)
    ensures cyc[i] == c0[i] >= 1
  {
    assert cyc[i] == cyc[..i + 1][i];
  }

  /** The counters of the levels above `i` pick the same elements before and
      after a pass changes level `i`; the level itself arranges what is left. */
  lemma SplitAt(b: seq<int>, cyc: seq<int>, i: nat)
    requires |b| == |cyc| && i < |cyc|
    ensures Arrangement(b, cyc) == Chosen(b, cyc[..i]) + Arrangement(Remaining(b, cyc[..i]), cyc[i..])
  {
    assert cyc == cyc[..i] + cyc[i..];
    ArrangementSplit(b, cyc[..i], cyc[i..]);
  }

  /** Moving the front of `[r[last]] + r[..last]` to the end puts `r` back in order. */
  lemma RotateInPlace(p: seq<int>, r: seq<int>, ind: seq<int>, ind': seq<int>)
    requires |r| > 0 && ind == p + ([r[|r| - 1]] + r[..|r| - 1])
    requires ind' == ind[..|p|] + ind[|p| + 1..] + [ind[|p|]]
    ensures ind' == p + r
  {
    var i := |p|;
    assert ind[..i] == p && ind[i] == r[|r| - 1] && ind[i + 1..] == r[..|r| - 1];
    assert r == r[..|r| - 1] + [r[|r| - 1]];
  }

  /** The counters after level `i` runs out and starts again: all levels
      from `i` on are fresh. */
  lemma RotateCounters(c0: seq<int>, i: nat, cyc: seq<int>, cyc': seq<int>)
    requires i < |c0| == |cyc| && cyc[..i + 1] == c0[..i + 1] && IsFresh(cyc[i + 1..])
    requires cyc' == cyc[i := |c0| - i]
    ensures cyc'[..i] == cyc[..i] == c0[..i] && IsFresh(cyc'[i..])
    ensures cyc'[i..][1..] == cyc[i..][1..] == cyc[i + 1..]
  {
    assert cyc[..i] == cyc[..i + 1][..i];
    assert cyc'[i..][1..] == cyc[i + 1..];
    FreshPrepend(cyc'[i..]);
  }

  /** Level `i` runs out: its counter starts again at `n - i` and
      `indices[i:] = indices[i+1:] + indices[i:i+1]` puts its elements back in order. */
  lemma ProcessedRotate(b: seq<int>, c0: seq<int>, i: nat, ind: seq<int>, cyc: seq<int>,
                        ind': seq<int>, cyc': seq<int>)
    requires i < |c0| && Processed(b, c0, i + 1, ind, cyc) && c0[i] == 1
    requires ind' == ind[..i] + ind[i + 1..] + [ind[i]] && cyc' == cyc[i := |c0| - i]
    ensures Processed(b, c0, i, ind', cyc')
  {
    ProcessedCounter(b, c0, i, ind, cyc);
    RotateCounters(c0, i, cyc, cyc');
    var p, r := Chosen(b, cyc[..i]), Remaining(b, cyc[..i]);
    var last := |r| - 1;
    assert ind == p + ([r[last]] + r[..last]) by {
      SplitAt(b, cyc, i);
      LevelOverFresh(r, cyc[i..]);
      assert Remove(r, last) == r[..last];
    }
    RotateInPlace(p, r, ind, ind');
    SplitAt(b, cyc', i);
    ArrangementFresh(r, cyc'[i..]);
  }

  /** Swapping the first element of a suffix `[r[k]] + Remove(r, k)` with
      the one `k + 1` places on gives `[r[k + 1]] + Remove(r, k + 1)`. */
  lemma SwapInPlace(p: seq<int>, r: seq<int>, k: nat, ind: seq<int>, ind': seq<int>)
    requires k + 1 < |r| && ind == p + ([r[k]] + Remove(r, k))
    requires ind' == ind[|p| := ind[|p| + k + 1]][|p| + k + 1 := ind[|p|]]
    ensures ind' == p + ([r[k + 1]] + Remove(r, k + 1))
  {
    var i := |p|;
    assert ind[i + k + 1] == r[k + 1];
    assert ind'[i + 1..] == Remove(r, k + 1) by {
      assert ind'[i + 1..] == Remove(r, k)[k := r[k]];
      assert Remove(r, k)[k := r[k]] == r[..k + 1] + r[k + 2..];
    }
    assert ind'[..i] == p;
    assert ind' == ind'[..i] + ([ind'[i]] + ind'[i + 1..]);
  }

  /** The counters of a pass that swaps at level `i` are in range and one
      lower in rank. */
  lemma SwapCounters(c0: seq<int>, i: nat, cyc: seq<int>, c1: seq<int>)
    requires CyclesInRange(c0, |c0|) && i < |c0| == |cyc| && c0[i] >= 2
    requires cyc[..i + 1] == c0[..i + 1] && IsFresh(cyc[i + 1..])
    requires forall j :: i < j < |c0| ==> c0[j] == 1
    requires c1 == cyc[i := c0[i] - 1]
    ensures CyclesInRange(c1, |c1|)
    ensures Rank(c1) == Rank(c0) - 1 && Rank(c0) > 0
  {
    var q, x, o, f := c0[..i], c0[i], c0[i + 1..], cyc[i + 1..];
    assert AfterSwap(c0, i, c1) by {
      assert c1[..i] == cyc[..i + 1][..i];
      assert c1[i + 1..] == f;
    }
    AfterSwapInRange(c0, i, c1);
    assert c0 == q + ([x] + o);
    assert c1 == q + ([x - 1] + f) by {
      assert c1[..i] == q && c1[i + 1..] == f;
    }
    SwapRank(q, x, o, f);
    RankBounds(c1);
  }

  /** Level `i` does not run out: its counter goes down by one and it swaps
      `indices[i]` with `indices[-j]`. The result is the arrangement of the
      new counters, and the rank is one lower. */
  lemma ProcessedSwap(b: seq<int>, c0: seq<int>, i: nat, ind: seq<int>, cyc: seq<int>,
                      ind': seq<int>, cyc': seq<int>)
    requires i < |c0| && Processed(b, c0, i + 1, ind, cyc) && c0[i] >= 2
    requires cyc' == cyc[i := c0[i] - 1]
    requires var n, j := |c0|, c0[i] - 1; ind' == ind[i := ind[n - j]][n - j := ind[i]]
    ensures CyclesInRange(cyc', |cyc'|) && ind' == Arrangement(b, cyc')
    ensures Rank(cyc') == Rank(c0) - 1 && Rank(c0) > 0
  {
    ProcessedCounter(b, c0, i, ind, cyc);
    SwapCounters(c0, i, cyc, cyc');
    var p, r := Chosen(b, cyc[..i]), Remaining(b, cyc[..i]);
    var x := c0[i];
    var k := |r| - x;
    assert cyc'[..i] == cyc[..i];
    assert cyc[i..][1..] == cyc[i + 1..] == cyc'[i..][1..];
    assert ind == p + ([r[k]] + Remove(r, k)) by {
      SplitAt(b, cyc, i);
      LevelOverFresh(r, cyc[i..]);
    }
    assert Arrangement(b, cyc') == p + ([r[k + 1]] + Remove(r, k + 1)) by {
      SplitAt(b, cyc', i);
      LevelOverFresh(r, cyc'[i..]);
    }
    SwapInPlace(p, r, k, ind, ind');
  }

  /** Every level ran out: the counters were all one, so the rank was zero,
      and the state is back where the generator started. */
  lemma ProcessedEnd(b: seq<int>, c0: seq<int>, ind: seq<int>, cyc: seq<int>)
    requires Processed(b, c0, 0, ind, cyc)
    ensures Rank(c0) == 0
    ensures CyclesInRange(cyc, |cyc|) && ind == Arrangement(b, cyc)
  {
    RankOnes(c0);
    assert cyc == cyc[0..];
    FreshInRange(cyc);
  }


  /** `indices[i:] = indices[i+1:] + indices[i:i+1]`. */
  method RotateLeft(a: array<int>, i: nat)
    requires i < a.Length
    modifies a
    ensures a[..] == old(a[..i]) + old(a[i + 1..]) + [old(a[i])]
  {
    var first := a[i];
    var k := i;
    while k < a.Length - 1
      invariant i <= k <= a.Length - 1
      invariant forall t :: 0 <= t < i ==> a[t] == old(a[t])
      invariant forall t :: i <= t < k ==> a[t] == old(a[t + 1])
      invariant forall t :: k <= t < a.Length ==> a[t] == old(a[t])
    {
      a[k] := a[k + 1];
      k := k + 1;
    }
    a[a.Length - 1] := first;
  }

  /** Level `i` of a pass: its counter goes down by one; when it runs out
      the suffix is rotated back into order and the counter reset, and the
      pass goes on to level `i - 1`; otherwise two places are swapped and the
      pass yields. */
  method Step(indices: array<int>, cycles: array<int>, i: nat, ghost c0: seq<int>) returns (yielded: bool)
    requires indices != cycles && i < indices.Length
    requires Processed(Iota(indices.Length), c0, i + 1, indices[..], cycles[..])
    modifies indices, cycles
    ensures !yielded ==> Processed(Iota(indices.Length), c0, i, indices[..], cycles[..])
    ensures yielded ==> CyclesInRange(cycles[..], cycles.Length)
    ensures yielded ==> indices[..] == Arrangement(Iota(indices.Length), cycles[..])
    ensures yielded ==> Rank(cycles[..]) == Rank(c0) - 1 && Rank(c0) > 0
  {
    var n := indices.Length;
    ghost var b := Iota(n);
    ghost var ind, cyc := indices[..], cycles[..];
    ProcessedCounter(b, c0, i, ind, cyc);
    cycles[i] := cycles[i] - 1;
    if cycles[i] == 0 {
      RotateLeft(indices, i);
      cycles[i] := n - i;
      ProcessedRotate(b, c0, i, ind, cyc, indices[..], cycles[..]);
      return false;
    } else {
      var j := cycles[i];
      indices[i], indices[n - j] := indices[n - j], indices[i];
      ProcessedSwap(b, c0, i, ind, cyc, indices[..], cycles[..]);
      return true;
    }
  }

  /** One pass of the `for i in reversed(range(n))` loop of the generator
      (utils.py:173-184): each counter that runs out is reset and its suffix
      rotated; the first one that does not swaps two places, and the pass
      yields. The counters stay in range and keep describing `indices`;
      the pass yields exactly when the rank is not yet zero, and then lowers
      it by one. */
  method Advance(indices: array<int>, cycles: array<int>) returns (yielded: bool)
    requires indices != cycles && indices.Length == cycles.Length
    requires CyclesInRange(cycles[..], cycles.Length)
    requires indices[..] == Arrangement(Iota(indices.Length), cycles[..])
    modifies indices, cycles
    ensures CyclesInRange(cycles[..], cycles.Length)
    ensures indices[..] == Arrangement(Iota(indices.Length), cycles[..])
    ensures yielded <==> Rank(old(cycles[..])) > 0
    ensures yielded ==> Rank(cycles[..]) == Rank(old(cycles[..])) - 1
  {
    ghost var c0 := cycles[..];
    ProcessedStart(Iota(indices.Length), c0, indices[..]);
    var i := indices.Length;
    while i > 0
      invariant 0 <= i <= indices.Length
      invariant Processed(Iota(indices.Length), c0, i, indices[..], cycles[..])
    {
      i := i - 1;
      yielded := Step(indices, cycles, i, c0);
      if yielded {
        return;
      }
    }
    ProcessedEnd(Iota(indices.Length), c0, indices[..], cycles[..]);
    return false;
  }

  /** Picking from `pool` through an arrangement of indices is arranging the
      picked elements the same way. */
  lemma {:induction false} SelectArrangement<T>(pool: seq<T>, b: seq<int>, c: seq<int>)
    requires |b| == |c|
    requires forall j :: 0 <= j < |b| ==> 0 <= b[j] < |pool|
    ensures ArrangementInPool(pool, b, c)
    ensures Select(pool, Arrangement(b, c)) == Arrangement(Select(pool, b), c)
    decreases |c|
  {
    assert ArrangementInPool(pool, b, c) by {
      ArrangementPermutes(b, c);
      InPool(pool, b, Arrangement(b, c));
    }
    if |c| > 0 {
      var k := Pick(|b|, c[0]);
      var r := Remove(b, k);
      assert forall j :: 0 <= j < |r| ==> 0 <= r[j] < |pool| by {
        forall j | 0 <= j < |r| ensures 0 <= r[j] < |pool| {
          assert r[j] == if j < k then b[j] else b[j + 1];
        }
      }
      var tail := Arrangement(r, c[1..]);
      assert Select(pool, tail) == Arrangement(Select(pool, r), c[1..]) by {
        SelectArrangement(pool, r, c[1..]);
      }
      assert Select(pool, r) == Remove(Select(pool, b), k);
      assert Select(pool, [b[k]] + tail) == [pool[b[k]]] + Select(pool, tail);
    }
  }

  /** Every entry of an arrangement of `b` is an entry of `b`. */
  ghost predicate ArrangementInPool<T>(pool: seq<T>, b: seq<int>, c: seq<int>)
    requires |b| == |c|
  {
    forall j :: 0 <= j < |b| ==> 0 <= Arrangement(b, c)[j] < |pool|
  }

  lemma InPool<T>(pool: seq<T>, b: seq<int>, a: seq<int>)
    requires multiset(a) == multiset(b)
    requires forall j :: 0 <= j < |b| ==> 0 <= b[j] < |pool|
    ensures forall j :: 0 <= j < |a| ==> 0 <= a[j] < |pool|
  {
    forall j | 0 <= j < |a| ensures 0 <= a[j] < |pool| {
      assert a[j] in multiset(b);
    }
  }

  /** Unfolding `Arrangement` once. */
  lemma ArrangementUnfold<T>(b: seq<T>, c: seq<int>)
    requires |b| == |c| > 0
    ensures Arrangement(b, c)[0] == b[Pick(|b|, c[0])]
    ensures Arrangement(b, c)[1..] == Arrangement(Remove(b, Pick(|b|, c[0])), c[1..])
  {
  }

  lemma CyclesInRangeTail(c: seq<int>, n: int)
    requires |c| > 0 && CyclesInRange(c, n)
    ensures 1 <= c[0] <= n && CyclesInRange(c[1..], n - 1)
  {
    assert forall j :: 0 <= j < |c| - 1 ==> c[1..][j] == c[j + 1];
  }

  /** Two arrangements of a base without repeated elements that agree
      agree in the counter of their first level, and the levels below
      arrange the same rest in the same way. */
  lemma InjectiveHead<T>(b: seq<T>, c: seq<int>, d: seq<int>)
    requires |b| == |c| == |d| > 0 && 1 <= c[0] <= |b| && 1 <= d[0] <= |b|
    requires Distinct(b) && Arrangement(b, c) == Arrangement(b, d)
    ensures c[0] == d[0]
    ensures Arrangement(Remove(b, |b| - c[0]), c[1..]) == Arrangement(Remove(b, |b| - c[0]), d[1..])
  {
    ArrangementUnfold(b, c);
    ArrangementUnfold(b, d);
  }

  /** On a base without repeated elements, different counters in range give
      different arrangements. */
  lemma {:induction false} ArrangementInjective<T>(b: seq<T>, c: seq<int>, d: seq<int>)
    requires |b| == |c| == |d| && CyclesInRange(c, |c|) && CyclesInRange(d, |d|)
    requires Distinct(b) && Arrangement(b, c) == Arrangement(b, d)
    ensures c == d
    decreases |c|
  {
    if |c| > 0 {
      CyclesInRangeTail(c, |c|);
      CyclesInRangeTail(d, |d|);
      InjectiveHead(b, c, d);
      RemoveDistinct(b, |b| - c[0]);
      ArrangementInjective(Remove(b, |b| - c[0]), c[1..], d[1..]);
      assert c == [c[0]] + c[1..] && d == [d[0]] + d[1..];
    }
  }

  /** What the generator has yielded so far: tuple `k` is the arrangement of
      the pool by counters `codes[k]`, whose rank is `n! - 1 - k`. */
  ghost predicate Yielded<T>(pool: seq<T>, perms: seq<seq<T>>, codes: seq<seq<int>>, top: int) {
    && |perms| == |codes|
    && forall k :: 0 <= k < |codes| ==>
         && |codes[k]| == |pool| && CyclesInRange(codes[k], |pool|)
         && perms[k] == Arrangement(pool, codes[k])
         && Rank(codes[k]) == top - k
  }

  lemma YieldedSnoc<T>(pool: seq<T>, perms: seq<seq<T>>, codes: seq<seq<int>>, top: int, p: seq<T>, c: seq<int>)
    requires Yielded(pool, perms, codes, top) && 0 < |codes|
    requires |c| == |pool| && CyclesInRange(c, |pool|) && p == Arrangement(pool, c)
    requires Rank(c) == Rank(codes[|codes| - 1]) - 1
    ensures Yielded(pool, perms + [p], codes + [c], top)
  {
  }

  /** Every tuple yielded is a rearrangement of the pool, and no two are
      equal when the pool has no repeated element. */
  lemma YieldedRearranges<T>(pool: seq<T>, perms: seq<seq<T>>, codes: seq<seq<int>>, top: int)
    requires Yielded(pool, perms, codes, top)
    ensures forall k :: 0 <= k < |perms| ==> multiset(perms[k]) == multiset(pool)
    ensures Distinct(pool) ==> Distinct(perms)
  {
    forall k | 0 <= k < |perms| ensures multiset(perms[k]) == multiset(pool) {
      ArrangementPermutes(pool, codes[k]);
    }
    if Distinct(pool) {
      forall k, l | 0 <= k < l < |perms| ensures perms[k] != perms[l] {
        if perms[k] == perms[l] {
          ArrangementInjective(pool, codes[k], codes[l]);
        }
      }
    }
  }

  /** The state of the generator between yields: `indices` and `cycles` as
      for `Advance`, the tuples yielded so far, and, once it has stopped,
      the rank it stopped at. */
  ghost predicate Generating<T>(pool: seq<T>, ind: seq<int>, cyc: seq<int>,
                                perms: seq<seq<T>>, codes: seq<seq<int>>, top: int, done: bool) {
    && |ind| == |cyc| == |pool| && CyclesInRange(cyc, |pool|)
    && ind == Arrangement(Iota(|pool|), cyc)
    && 0 < |codes| && Yielded(pool, perms, codes, top) && perms[0] == pool
    && (!done ==> codes[|codes| - 1] == cyc)
    && (done ==> Rank(codes[|codes| - 1]) == 0)
  }

  lemma GeneratingStart<T>(pool: seq<T>, ind: seq<int>, cyc: seq<int>)
    requires |ind| == |cyc| == |pool| && ind == Iota(|pool|) && IsFresh(cyc)
    ensures Generating(pool, ind, cyc, [Select(pool, ind)], [cyc], Factorial(|pool|) - 1, |pool| == 0)
  {
    var n := |pool|;
    assert pool == Select(pool, Iota(n));
    ArrangementFresh(Iota(n), cyc);
    ArrangementFresh(pool, cyc);
    RankFresh(cyc);
  }

  /** One call of `Advance` moves the generator on: a yield appends the new
      tuple and lowers the rank, and no yield stops it at rank zero. */
  lemma GeneratingStep<T>(pool: seq<T>, ind: seq<int>, cyc: seq<int>,
                          perms: seq<seq<T>>, codes: seq<seq<int>>, top: int,
                          ind': seq<int>, cyc': seq<int>, yielded: bool)
    requires Generating(pool, ind, cyc, perms, codes, top, false)
    requires |ind'| == |cyc'| == |cyc| && CyclesInRange(cyc', |cyc'|)
    requires ind' == Arrangement(Iota(|ind'|), cyc')
    requires yielded <==> Rank(cyc) > 0
    requires yielded ==> Rank(cyc') == Rank(cyc) - 1
    ensures 0 <= Rank(cyc)
    ensures yielded ==> 0 <= Rank(cyc') < Rank(cyc)
    ensures yielded ==>
      && (forall j :: 0 <= j < |ind'| ==> 0 <= ind'[j] < |pool|)
      && Generating(pool, ind', cyc', perms + [Select(pool, ind')], codes + [cyc'], top, false)
    ensures !yielded ==> Generating(pool, ind', cyc', perms, codes, top, true)
  {
    RankBounds(cyc);
    if yielded {
      var n := |pool|;
      assert (forall j :: 0 <= j < n ==> 0 <= ind'[j] < n) && Select(pool, ind') == Arrangement(pool, cyc') by {
        SelectArrangement(pool, Iota(n), cyc');
        assert Select(pool, Iota(n)) == pool;
      }
      YieldedSnoc(pool, perms, codes, top, Select(pool, ind'), cyc');
      RankBounds(cyc');
    }
  }

  /** The generator run to the end (utils.py:166-184): the first tuple is
      the pool as given, every tuple is a rearrangement of the pool, there
      are `n!` of them, and no two are equal when the pool has no repeated
      element. */
  method Permutations<T>(pool: seq<T>) returns (perms: seq<seq<T>>)
    ensures |perms| == Factorial(|pool|)
    ensures perms[0] == pool
    ensures forall k :: 0 <= k < |perms| ==> multiset(perms[k]) == multiset(pool)
    ensures Distinct(pool) ==> Distinct(perms)
  {
    var n := |pool|;
    var indices := new int[n](i => i);
    var cycles := new int[n](i => n - i);
    assert indices[..] == Iota(n);
    GeneratingStart(pool, indices[..], cycles[..]);
    perms := [Select(pool, indices[..])];
    ghost var codes := [cycles[..]];
    ghost var top := Factorial(n) - 1;
    var done := n == 0;
    while !done
      invariant indices.Length == cycles.Length == n
      invariant Generating(pool, indices[..], cycles[..], perms, codes, top, done)
      decreases if done then 0 else Rank(cycles[..]) + 1
    {
      ghost var ind, cyc := indices[..], cycles[..];
      var yielded := Advance(indices, cycles);
      GeneratingStep(pool, ind, cyc, perms, codes, top, indices[..], cycles[..], yielded);
      if yielded {
        perms := perms + [Select(pool, indices[..])];
        codes := codes + [cycles[..]];
      } else {
        done := true;
      }
    }
    YieldedRearranges(pool, perms, codes, top);
  }
}
