/** Sequence vocabulary shared by the column-ordering engine: results with an
    error path, first-match lookup (numpy's `np.where(a == x)[0][0]`), the
    range `0..n-1`, sums and permutations of index sequences. */
module Common {

  datatype Option<T> = None | Some(value: T)

  datatype Result<T, E> = Ok(value: T) | Err(error: E)

  /** `list(range(n))`. */
  function Iota(n: nat): (r: seq<int>)
    ensures |r| == n
    ensures forall i :: 0 <= i < n ==> r[i] == i
  {
    seq(n, i => i)
  }

  /** No value occurs twice. */
  ghost predicate Distinct<T>(s: seq<T>) {
    forall i, j :: 0 <= i < j < |s| ==> s[i] != s[j]
  }

  /** `s` is a rearrangement of `0..|s|-1`: every entry in range, none repeated. */
  ghost predicate IsPermutation(s: seq<int>) {
    (forall i :: 0 <= i < |s| ==> 0 <= s[i] < |s|) && Distinct(s)
  }

  /** `np.where(s == x)[0][0]`: the first index holding `x`; numpy raises
      when there is none, which is `None` here. */
  function FirstIndex<T(==)>(s: seq<T>, x: T): (r: Option<nat>)
    ensures r.None? <==> x !in s
    ensures r.Some? ==> r.value < |s| && s[r.value] == x && x !in s[..r.value]
  {
    if |s| == 0 then None
    else if s[0] == x then Some(0)
    else match FirstIndex(s[1..], x)
      case None => None
      case Some(k) =>
        assert s[1..][..k] == s[1..k + 1];
        assert s[..k + 1] == [s[0]] + s[1..k + 1];
        Some(k + 1)
  }

  /** The first index is the one place holding `x` with no `x` before it. */
  lemma FirstIndexUnique<T>(s: seq<T>, x: T, i: int)
    requires 0 <= i < |s| && s[i] == x && x !in s[..i]
    ensures FirstIndex(s, x) == Some(i)
  {
  }

  lemma {:induction false} SubsetCard<T>(a: set<T>, b: set<T>)
    requires a <= b
    ensures |a| <= |b|
    decreases b
  {
    if a != {} {
      var x :| x in a;
      SubsetCard(a - {x}, b - {x});
    }
  }

  lemma {:induction false} DistinctCard<T>(s: seq<T>)
    requires Distinct(s)
    ensures |set x | x in s| == |s|
    decreases |s|
  {
    if |s| > 0 {
      var p := s[..|s| - 1];
      DistinctCard(p);
      assert (set x | x in s) == (set x | x in p) + {s[|s| - 1]};
    }
  }

  /** A permutation of `0..n-1` holds every value of `0..n-1`. */
  lemma PermutationOnto(s: seq<int>)
    requires IsPermutation(s)
    ensures forall k :: 0 <= k < |s| ==> k in s
  {
    var n := |s|;
    var range := set x | x in Iota(n);
    assert Distinct(Iota(n));
    DistinctCard(Iota(n));
    DistinctCard(s);
    forall k | 0 <= k < n ensures k in s {
      assert k in range by {
        assert Iota(n)[k] == k;
      }
      if k !in s {
        var values := set x | x in s;
        forall x | x in values ensures x in range - {k} {
          assert Iota(n)[x] == x;
        }
        SubsetCard(values, range - {k});
        assert false;
      }
    }
  }

  /** `np.argsort` of a permutation of `0..n-1`: entry `k` is the place that
      holds `k`, so reading the permutation through it gives `0, 1, ..., n-1`
      in ascending order. */
  function ArgSort(b: seq<int>): (a: seq<int>)
    requires IsPermutation(b)
    ensures |a| == |b|
    ensures forall k :: 0 <= k < |b| ==> 0 <= a[k] < |b| && b[a[k]] == k
    ensures IsPermutation(a)
  {
    PermutationOnto(b);
    seq(|b|, k requires 0 <= k < |b| => FirstIndex(b, k).value)
  }

  /** The argsort of a permutation is its inverse: it undoes the
      permutation from the other side too. */
  lemma ArgSortInverse(b: seq<int>)
    requires IsPermutation(b)
    ensures forall i :: 0 <= i < |b| ==> ArgSort(b)[b[i]] == i
  {
    var a := ArgSort(b);
    forall i | 0 <= i < |b| ensures a[b[i]] == i {
      assert b[a[b[i]]] == b[i];
    }
  }

  /** Taking the argsort twice gives the permutation back. */
  lemma ArgSortInvolution(b: seq<int>)
    requires IsPermutation(b)
    ensures ArgSort(ArgSort(b)) == b
  {
    ArgSortInverse(b);
    var a := ArgSort(b);
    var c := ArgSort(a);
    forall k | 0 <= k < |b| ensures c[k] == b[k] {
      assert a[c[k]] == k == a[b[k]];
    }
  }

  /** Sum of a sequence of integers (`sum(...)`, `np.sum(..., axis=1)` per row). */
  function Sum(s: seq<int>): int {
    if |s| == 0 then 0 else Sum(s[..|s| - 1]) + s[|s| - 1]
  }

  /** An `n` by `n` matrix of integers. */
  ghost predicate IsSquare(m: seq<seq<int>>, n: nat) {
    |m| == n && forall r :: 0 <= r < n ==> |m[r]| == n
  }

  /** `np.where(xs == m)[0]`: the positions holding `m`, ascending. */
  function Where(xs: seq<int>, m: int): (idx: seq<int>)
    ensures forall k :: 0 <= k < |idx| ==> 0 <= idx[k] < |xs| && xs[idx[k]] == m
    ensures forall k, l :: 0 <= k < l < |idx| ==> idx[k] < idx[l]
    ensures forall g :: 0 <= g < |xs| && xs[g] == m ==> g in idx
  {
    if |xs| == 0 then []
    else
      var last := |xs| - 1;
      var prev := Where(xs[..last], m);
      if xs[last] == m then prev + [last] else prev
  }
}
