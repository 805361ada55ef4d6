/** The matrix-alignment helpers (utils.py:33-163, 302-309).

    The input table, the adjacency matrix and the rules matrix each come
    with a list of names, one per row. Before the search starts, the two
    matrices are padded with copies of their "Other" row and column until
    they have as many rows as the input table, and then re-indexed so that
    row and column `r` belong to the `r`-th name of the input table, looked
    up by its first occurrence. */
module Align {
  import opened Common

  const OTHER: string := "Other"

  /** Why an alignment step raises: no "Other" row to copy
      (`np.where(...)[0][0]` on an empty result), a name of the input table
      missing from a matrix's names (the same), or an empty input table,
      which `np.fill_diagonal` refuses as not two-dimensional. */
  datatype AlignError = NoOther | MissingName | NotMatrix

  // ----------------------------------------------------------- np.insert

  /** `d` copies of `x`. */
  function Copies<T>(x: T, d: nat): (r: seq<T>)
    ensures |r| == d && forall i :: 0 <= i < d ==> r[i] == x
  {
    seq(d, _ => x)
  }

  /** `np.insert(s, [k] * d, x)`: `d` copies of `x` placed before position `k`. */
  function InsertCopies<T>(s: seq<T>, k: nat, d: nat, x: T): (r: seq<T>)
    requires k <= |s|
    ensures |r| == |s| + d
  {
    s[..k] + Copies(x, d) + s[k..]
  }

  /** What each position of the result holds: the prefix, the copies, then
      the rest shifted by `d`. */
  lemma InsertCopiesAt<T>(s: seq<T>, k: nat, d: nat, x: T)
    requires k <= |s|
    ensures var r := InsertCopies(s, k, d, x);
      forall i :: 0 <= i < |r| ==> r[i] == if i < k then s[i] else if i < k + d then x else s[i - d]
  {
  }

  /** Taking the copies out again gives the original back. */
  lemma InsertCopiesRemoved<T>(s: seq<T>, k: nat, d: nat, x: T)
    requires k <= |s|
    ensures var r := InsertCopies(s, k, d, x); r[..k] + r[k + d..] == s
  {
    var r := InsertCopies(s, k, d, x);
    assert r[..k] == s[..k];
    assert r[k + d..] == s[k..];
    assert s == s[..k] + s[k..];
  }

  /** `dup_rows(a, indx, num_dups)` (utils.py:41): `num_dups` copies of row
      `indx` right after it. */
  function DupRows(a: seq<seq<int>>, indx: nat, numDups: nat): (r: seq<seq<int>>)
    requires indx < |a|
    ensures |r| == |a| + numDups
  {
    InsertCopies(a, indx + 1, numDups, a[indx])
  }

  /** `dup_cols(a, indx, num_dups)` (utils.py:52): in every row, `num_dups`
      copies of entry `indx` right after it. */
  function DupCols(a: seq<seq<int>>, indx: nat, numDups: nat): (r: seq<seq<int>>)
    requires forall i :: 0 <= i < |a| ==> indx < |a[i]|
    ensures |r| == |a|
    ensures forall i :: 0 <= i < |a| ==> |r[i]| == |a[i]| + numDups
  {
    seq(|a|, i requires 0 <= i < |a| => InsertCopies(a[i], indx + 1, numDups, a[i][indx]))
  }

  /** The original row (or column) that position `i` holds after `d` copies
      of position `o` were put right after it. */
  function Source(i: int, o: int, d: nat): int {
    if i <= o then i else if i <= o + d then o else i - d
  }

  /** After padding, every entry is the entry of the original row and
      column it was copied from. */
  lemma PaddedEntry(a: seq<seq<int>>, o: nat, d: nat, i: int, j: int)
    requires o < |a| && forall r :: 0 <= r < |a| ==> o < |a[r]|
    requires 0 <= i < |a| + d
    requires 0 <= j < |a[Source(i, o, d)]| + d
    ensures 0 <= Source(j, o, d) < |a[Source(i, o, d)]|
    ensures var rows := DupRows(a, o, d);
      (forall r :: 0 <= r < |rows| ==> o < |rows[r]|)
      && DupCols(rows, o, d)[i][j] == a[Source(i, o, d)][Source(j, o, d)]
  {
    var rows := DupRows(a, o, d);
    assert rows[i] == a[Source(i, o, d)];
  }

  // ---------------------------------------------------- enrich_input_table

  /** One pass of the loop of `enrich_input_table` (utils.py:66-68):
      `numDups` copies of the first "Other" row after it, and one more
      "Other" name before the first one. */
  function EnrichRound(table: seq<seq<int>>, names: seq<string>, numDups: nat)
    : (r: Result<(seq<string>, seq<seq<int>>), AlignError>)
    requires |names| <= |table|
    ensures r.Err? <==> OTHER !in names
    ensures r.Ok? ==> |r.value.0| == |names| + 1 && |r.value.1| == |table| + numDups
  {
    match FirstIndex(names, OTHER)
    case None => Err(NoOther)
    case Some(o) => Ok((InsertCopies(names, o, 1, OTHER), DupRows(table, o, numDups)))
  }

  /** `rounds` passes of that loop. */
  function EnrichRounds(table: seq<seq<int>>, names: seq<string>, numDups: nat, rounds: nat)
    : (r: Result<(seq<string>, seq<seq<int>>), AlignError>)
    requires |names| <= |table| && numDups >= 1
    ensures r.Err? <==> rounds > 0 && OTHER !in names
    ensures r.Ok? ==> |r.value.0| == |names| + rounds && |r.value.0| <= |r.value.1|
    ensures r.Ok? && rounds > 0 ==> OTHER in r.value.0
  {
    if rounds == 0 then Ok((names, table))
    else
      match EnrichRounds(table, names, numDups, rounds - 1)
      case Err(e) => Err(e)
      case Ok((n, t)) => EnrichRound(t, n, numDups)
  }

  /** The row count after `rounds` passes: each pass adds `numDups` rows. */
  lemma {:induction false} EnrichRoundsRows(table: seq<seq<int>>, names: seq<string>, numDups: nat, rounds: nat)
    requires |names| <= |table| && numDups >= 1
    ensures var r := EnrichRounds(table, names, numDups, rounds);
      r.Ok? ==> |r.value.1| == |table| + rounds * numDups
  {
    if rounds > 0 {
      EnrichRoundsRows(table, names, numDups, rounds - 1);
      var prev := EnrichRounds(table, names, numDups, rounds - 1);
      if prev.Ok? {
        var n, t := prev.value.0, prev.value.1;
        assert EnrichRounds(table, names, numDups, rounds) == EnrichRound(t, n, numDups);
        assert (rounds - 1) * numDups + numDups == rounds * numDups;
      }
    }
  }

  /** `enrich_input_table` as written (utils.py:63-69): each of the `diff`
      passes adds `diff` rows but only one name. */
  function EnrichInputTableAsWritten(table: seq<seq<int>>, names: seq<string>, cols: nat)
    : (r: Result<(seq<string>, seq<seq<int>>), AlignError>)
    requires |names| == |table|
    ensures r.Err? <==> cols > |table| && OTHER !in names
    ensures r.Ok? ==> |r.value.0| == (if cols > |table| then cols else |table|)
    ensures r.Ok? && cols > |table| ==> |r.value.1| == |table| + (cols - |table|) * (cols - |table|)
  {
    var diff := cols - |table|;
    if diff > 0 then
      EnrichRoundsRows(table, names, diff, diff);
      EnrichRounds(table, names, diff, diff)
    else Ok((names, table))
  }

  /** A table of one "Other" row and three columns comes back with three
      names but five rows. */
  lemma EnrichInputTableAsWrittenMisaligned()
    ensures var r := EnrichInputTableAsWritten([[1, 2, 3]], [OTHER], 3);
      r.Ok? && |r.value.0| == 3 && |r.value.1| == 5
  {
    var r := EnrichInputTableAsWritten([[1, 2, 3]], [OTHER], 3);
    EnrichRoundsRows([[1, 2, 3]], [OTHER], 2, 2);
    assert FirstIndex([OTHER], OTHER) == Some(0);
    assert EnrichRounds([[1, 2, 3]], [OTHER], 2, 0) == Ok(([OTHER], [[1, 2, 3]]));
    var r1 := EnrichRounds([[1, 2, 3]], [OTHER], 2, 1);
    assert r1 == EnrichRound([[1, 2, 3]], [OTHER], 2);
    assert r1.Ok? && r1.value.0[0] == OTHER;
    assert FirstIndex(r1.value.0, OTHER) == Some(0);
  }

  /** Some original row is named `x` and holds `row`. */
  ghost predicate FromOriginal(names0: seq<string>, table0: seq<seq<int>>, x: string, row: seq<int>) {
    exists j :: 0 <= j < |table0| && j < |names0| && names0[j] == x && table0[j] == row
  }

  /** Every row of the padded table carries the scores of an original row
      with the same name. */
  ghost predicate RowsFollowNames(names0: seq<string>, table0: seq<seq<int>>,
                                  names: seq<string>, table: seq<seq<int>>) {
    && |names| == |table|
    && forall k :: 0 <= k < |table| ==> FromOriginal(names0, table0, names[k], table[k])
  }

  /** Copying an element that already sits at `o` in front of it once more
      is the same as copying it after it once more. */
  lemma InsertOneMore<T>(s: seq<T>, o: nat, k: nat, x: T)
    requires o < |s| && s[o] == x
    ensures InsertCopies(InsertCopies(s, o, k, x), o, 1, x) == InsertCopies(s, o, k + 1, x)
    ensures InsertCopies(InsertCopies(s, o, k, x), o + 1, 1, x) == InsertCopies(s, o, k + 1, x)
    ensures InsertCopies(s, o, k, x)[o] == x
  {
  }

  lemma InsertNone<T>(s: seq<T>, o: nat, x: T)
    requires o <= |s|
    ensures InsertCopies(s, o, 0, x) == s
  {
  }

  /** Copies of the first "Other" in front of it leave it the first one. */
  lemma FirstOtherAfterInsert(names: seq<string>, o: nat, k: nat)
    requires FirstIndex(names, OTHER) == Some(o)
    ensures FirstIndex(InsertCopies(names, o, k, OTHER), OTHER) == Some(o)
  {
    var n := InsertCopies(names, o, k, OTHER);
    assert n[..o] == names[..o];
    FirstIndexUnique(n, OTHER, o);
  }

  /** Copies of an "Other" row and name keep every row beside its name. */
  lemma InsertCopiesFollow(names: seq<string>, table: seq<seq<int>>, o: nat, d: nat)
    requires |names| == |table| && o < |names| && names[o] == OTHER
    ensures RowsFollowNames(names, table, InsertCopies(names, o, d, OTHER), InsertCopies(table, o, d, table[o]))
  {
    var n, t := InsertCopies(names, o, d, OTHER), InsertCopies(table, o, d, table[o]);
    forall k | 0 <= k < |t|
      ensures FromOriginal(names, table, n[k], t[k])
    {
      var j := Source(k, o, d);
      assert n[k] == names[j] && t[k] == table[j];
    }
  }

  lemma RowsFollowThemselves(names: seq<string>, table: seq<seq<int>>)
    requires |names| == |table|
    ensures RowsFollowNames(names, table, names, table)
  {
    forall k | 0 <= k < |table|
      ensures FromOriginal(names, table, names[k], table[k])
    {
      assert names[k] == names[k] && table[k] == table[k];
    }
  }

  /** The loop of `enrich_input_table` with one copy per pass
      (utils.py:66-68): `diff` passes of `EnrichRound` with `numDups` 1,
      each putting one more "Other" row and name next to the first
      "Other". */
  method PadWithOther(table: seq<seq<int>>, names: seq<string>, diff: nat)
    returns (r: Result<(seq<string>, seq<seq<int>>), AlignError>)
    requires |names| == |table| && diff > 0
    ensures r.Err? <==> OTHER !in names
    ensures r.Ok? ==> var o := FirstIndex(names, OTHER).value;
      r.value == (InsertCopies(names, o, diff, OTHER), InsertCopies(table, o, diff, table[o]))
  {
    var t, n := table, names;
    ghost var o0: nat := 0;
    if OTHER in names {
      o0 := FirstIndex(names, OTHER).value;
      InsertNone(names, o0, OTHER);
      InsertNone(table, o0, table[o0]);
    }
    var i := 0;
    while i < diff
      invariant 0 <= i <= diff
      invariant i > 0 ==> OTHER in names
      invariant OTHER in names ==>
        n == InsertCopies(names, o0, i, OTHER) && t == InsertCopies(table, o0, i, table[o0])
      invariant OTHER !in names ==> n == names
      invariant |n| == |t|
    {
      var step := EnrichRound(t, n, 1);
      if step.Err? {
        return Err(NoOther);
      }
      ghost var otherId := FirstIndex(n, OTHER).value;
      FirstOtherAfterInsert(names, o0, i);
      assert t[otherId] == table[o0];
      InsertOneMore(names, o0, i, OTHER);
      InsertOneMore(table, o0, i, table[o0]);
      assert step.value == (InsertCopies(n, otherId, 1, OTHER), DupRows(t, otherId, 1));
      n, t := step.value.0, step.value.1;
      i := i + 1;
    }
    return Ok((n, t));
  }

  /** Rows taken from a table whose rows all have `cols` entries have
      `cols` entries. */
  lemma FollowingRowsWidth(names0: seq<string>, table0: seq<seq<int>>,
                           names: seq<string>, table: seq<seq<int>>, cols: nat)
    requires RowsFollowNames(names0, table0, names, table)
    requires forall i :: 0 <= i < |table0| ==> |table0[i]| == cols
    ensures forall i :: 0 <= i < |table| ==> |table[i]| == cols
  {
    forall i | 0 <= i < |table| ensures |table[i]| == cols {
      assert FromOriginal(names0, table0, names[i], table[i]);
    }
  }

  /** `enrich_input_table` with the pass corrected to add one row per name
      (utils.py:63-69): while the table has fewer rows than columns, copy
      the first "Other" row and add an "Other" name in front of it. */
  method EnrichInputTable(table: seq<seq<int>>, names: seq<string>, cols: nat)
    returns (r: Result<(seq<string>, seq<seq<int>>), AlignError>)
    requires |names| == |table| && forall i :: 0 <= i < |table| ==> |table[i]| == cols
    ensures r.Err? <==> cols > |table| && OTHER !in names
    ensures r.Ok? && cols <= |table| ==> r.value == (names, table)
    ensures r.Ok? && cols > |table| ==> var o := FirstIndex(names, OTHER).value;
      r.value == (InsertCopies(names, o, cols - |table|, OTHER),
                  InsertCopies(table, o, cols - |table|, table[o]))
    ensures r.Ok? && cols > |table| ==> var o, d := FirstIndex(names, OTHER).value, cols - |table|;
      r.value.0[..o] + r.value.0[o + d..] == names && r.value.1[..o] + r.value.1[o + d..] == table
    ensures r.Ok? ==>
      && RowsFollowNames(names, table, r.value.0, r.value.1)
      && |r.value.1| == (if cols > |table| then cols else |table|)
      && forall i :: 0 <= i < |r.value.1| ==> |r.value.1[i]| == cols
  {
    if cols <= |table| {
      RowsFollowThemselves(names, table);
      return Ok((names, table));
    }
    r := PadWithOther(table, names, cols - |table|);
    if r.Ok? {
      var o := FirstIndex(names, OTHER).value;
      InsertCopiesRemoved(names, o, cols - |table|, OTHER);
      InsertCopiesRemoved(table, o, cols - |table|, table[o]);
      InsertCopiesFollow(names, table, o, cols - |table|);
      FollowingRowsWidth(names, table, r.value.0, r.value.1, cols);
    }
  }

  // ----------------------------------------------- enrich_adjacency_matrix

  /** The entry for the first rows and columns named `x` and `y`, if both
      names occur. */
  function Lookup(m: seq<seq<int>>, names: seq<string>, x: string, y: string): (r: Option<int>)
    requires IsSquare(m, |names|)
    ensures r.Some? <==> x in names && y in names
  {
    match FirstIndex(names, x)
    case None => None
    case Some(i) =>
      match FirstIndex(names, y)
      case None => None
      case Some(j) => Some(m[i][j])
  }

  /** `enrich_adjacency_matrix` as written (utils.py:81-85): `shapesDiff`
      copies of the "Other" row and column, but one "Other" name. */
  function EnrichAdjacencyMatrixAsWritten(adj: seq<seq<int>>, names: seq<string>, shapesDiff: nat)
    : (r: Result<(seq<seq<int>>, seq<string>), AlignError>)
    requires IsSquare(adj, |names|)
    ensures r.Err? <==> OTHER !in names
  {
    match FirstIndex(names, OTHER)
    case None => Err(NoOther)
    case Some(o) => Ok((DupCols(DupRows(adj, o, shapesDiff), o, shapesDiff), InsertCopies(names, o, 1, OTHER)))
  }

  /** With two copies, the name after "Other" looks up a copy of the
      "Other" row: the entry 9 of `A` against `B` reads as 0. */
  lemma EnrichAdjacencyMatrixAsWrittenMisreads()
    ensures var m := [[1, 0, 0], [0, 5, 9], [0, 8, 5]];
      var names := [OTHER, "A", "B"];
      var r := EnrichAdjacencyMatrixAsWritten(m, names, 2);
      && r.Ok? && |r.value.0| == 5 && |r.value.1| == 4
      && r.value.0[FirstIndex(r.value.1, "A").value][FirstIndex(r.value.1, "B").value] == 0
      && Lookup(m, names, "A", "B") == Some(9)
  {
    var m := [[1, 0, 0], [0, 5, 9], [0, 8, 5]];
    var names := [OTHER, "A", "B"];
    assert FirstIndex(names, OTHER) == Some(0);
    assert OTHER != "A" && OTHER != "B" && "A" != "B";
    FirstIndexUnique(names, "A", 1);
    FirstIndexUnique(names, "B", 2);
    var n' := InsertCopies(names, 0, 1, OTHER);
    assert n' == [OTHER, OTHER, "A", "B"];
    FirstIndexUnique(n', "A", 2);
    FirstIndexUnique(n', "B", 3);
    var rows := DupRows(m, 0, 2);
    assert rows[2] == [1, 0, 0];
    assert DupCols(rows, 0, 2)[2] == [1, 1, 1, 0, 0];
  }

  /** Position of the first occurrence of a name after `d` more "Other"
      names went in front of the first "Other". */
  function Shift(i: int, o: int, d: nat): int {
    if i <= o then i else i + d
  }

  lemma FirstIndexShift(names: seq<string>, o: nat, d: nat, x: string)
    requires FirstIndex(names, OTHER) == Some(o) && x in names
    ensures var i := FirstIndex(names, x).value;
      FirstIndex(InsertCopies(names, o, d, OTHER), x) == Some(Shift(i, o, d))
      && Source(Shift(i, o, d), o, d) == i
  {
    var i := FirstIndex(names, x).value;
    var n' := InsertCopies(names, o, d, OTHER);
    var i' := Shift(i, o, d);
    assert n'[i'] == x;
    forall t | 0 <= t < i' ensures n'[t] != x {
      if t < o {
        assert names[..i][t] == names[t];
      } else if t < o + d {
        assert x != OTHER || i == o;
      } else {
        assert names[..i][t - d] == names[t - d];
      }
    }
    FirstIndexUnique(n', x, i');
  }

  /** `enrich_adjacency_matrix` with the names corrected (utils.py:81-85):
      as many "Other" names as rows and columns are copied. */
  function EnrichAdjacencyMatrix(adj: seq<seq<int>>, names: seq<string>, shapesDiff: nat)
    : (r: Result<(seq<seq<int>>, seq<string>), AlignError>)
    requires IsSquare(adj, |names|)
    ensures r.Err? <==> OTHER !in names
    ensures r.Ok? ==> IsSquare(r.value.0, |r.value.1|) && |r.value.1| == |names| + shapesDiff
  {
    match FirstIndex(names, OTHER)
    case None => Err(NoOther)
    case Some(o) =>
      Ok((DupCols(DupRows(adj, o, shapesDiff), o, shapesDiff), InsertCopies(names, o, shapesDiff, OTHER)))
  }

  /** Copies of "Other" bring in no new name. */
  lemma InsertCopiesMembers(names: seq<string>, o: nat, d: nat, x: string)
    requires o < |names| && names[o] == OTHER
    ensures x in InsertCopies(names, o, d, OTHER) <==> x in names
  {
    var n' := InsertCopies(names, o, d, OTHER);
    if x in n' {
      var k :| 0 <= k < |n'| && n'[k] == x;
      assert x == names[Source(k, o, d)];
    }
    if x in names {
      var k :| 0 <= k < |names| && names[k] == x;
      assert n'[if k < o then k else k + d] == x;
    }
  }

  /** The padded matrix answers every lookup between the original names as
      the original one did, and knows no other names. */
  lemma EnrichAdjacencyMatrixKeepsLookups(adj: seq<seq<int>>, names: seq<string>, shapesDiff: nat, x: string, y: string)
    requires IsSquare(adj, |names|) && OTHER in names
    ensures var r := EnrichAdjacencyMatrix(adj, names, shapesDiff);
      r.Ok? && (x in r.value.1 <==> x in names)
      && Lookup(r.value.0, r.value.1, x, y) == Lookup(adj, names, x, y)
  {
    var o := FirstIndex(names, OTHER).value;
    var r := EnrichAdjacencyMatrix(adj, names, shapesDiff);
    InsertCopiesMembers(names, o, shapesDiff, x);
    if x in names && y in names {
      FirstIndexShift(names, o, shapesDiff, x);
      FirstIndexShift(names, o, shapesDiff, y);
      var i, j := FirstIndex(names, x).value, FirstIndex(names, y).value;
      PaddedEntry(adj, o, shapesDiff, Shift(i, o, shapesDiff), Shift(j, o, shapesDiff));
    }
  }

  // ------------------------------------------ form_adjacency/rules_matrix

  /** `row[indexes]`: the entries of `row` at the given positions, in
      their order. */
  method PickEntries(row: seq<int>, indexes: seq<nat>) returns (picked: seq<int>)
    requires forall b :: 0 <= b < |indexes| ==> indexes[b] < |row|
    ensures |picked| == |indexes|
    ensures forall b :: 0 <= b < |indexes| ==> picked[b] == row[indexes[b]]
  {
    picked := [];
    var c := 0;
    while c < |indexes|
      invariant 0 <= c <= |indexes| && |picked| == c
      invariant forall b :: 0 <= b < c ==> picked[b] == row[indexes[b]]
    {
      picked := picked + [row[indexes[c]]];
      c := c + 1;
    }
  }

  /** The re-indexing shared by `form_adjacency_matrix` (utils.py:102-117)
      and `form_rules_matrix` (utils.py:140-155): row and column `r` of the
      result belong to `tabNames[r]`, looked up by first occurrence. */
  method Reindex(tabNames: seq<string>, names: seq<string>, m: seq<seq<int>>)
    returns (r: Result<seq<seq<int>>, AlignError>)
    requires IsSquare(m, |names|)
    ensures r.Err? <==> exists k :: 0 <= k < |tabNames| && tabNames[k] !in names
    ensures r.Err? ==> r.error == MissingName
    ensures r.Ok? ==> |r.value| == |tabNames|
    ensures r.Ok? ==> forall a :: 0 <= a < |tabNames| ==> |r.value[a]| == |tabNames|
    ensures r.Ok? ==> forall a, b :: 0 <= a < |tabNames| && 0 <= b < |tabNames| ==>
      |r.value[a]| == |tabNames| && Lookup(m, names, tabNames[a], tabNames[b]) == Some(r.value[a][b])
  {
    var indexes: seq<nat> := [];
    var mat: seq<seq<int>> := [];
    var i := 0;
    while i < |tabNames|
      invariant 0 <= i <= |tabNames| && |indexes| == |mat| == i
      invariant forall k :: 0 <= k < i ==> FirstIndex(names, tabNames[k]) == Some(indexes[k])
      invariant forall k :: 0 <= k < i ==> mat[k] == m[indexes[k]]
    {
      var index := FirstIndex(names, tabNames[i]);
      if index.None? {
        return Err(MissingName);
      }
      indexes := indexes + [index.value];
      mat := mat + [m[index.value]];
      i := i + 1;
    }

    var res: seq<seq<int>> := [];
    var k := 0;
    while k < |mat|
      invariant 0 <= k <= |mat| && |res| == k
      invariant forall a :: 0 <= a < k ==> |res[a]| == |indexes|
      invariant forall a, b :: 0 <= a < k && 0 <= b < |indexes| ==> res[a][b] == mat[a][indexes[b]]
    {
      var row := PickEntries(mat[k], indexes);
      res := res + [row];
      k := k + 1;
    }
    return Ok(res);
  }

  /** `form_adjacency_matrix` (utils.py:96-123), with the corrected padding:
      a square matrix over the names of the input table, ones on the
      diagonal and, off it, the original matrix's entry for the two names. */
  method FormAdjacencyMatrix(tabNames: seq<string>, adjNames: seq<string>, adjMatrix: seq<seq<int>>)
    returns (r: Result<seq<seq<int>>, AlignError>)
    requires IsSquare(adjMatrix, |adjNames|)
    ensures r == Err(NoOther) <==> |tabNames| > |adjNames| && OTHER !in adjNames
    ensures r == Err(MissingName) <==>
      !(|tabNames| > |adjNames| && OTHER !in adjNames)
      && exists k :: 0 <= k < |tabNames| && tabNames[k] !in adjNames
    ensures r == Err(NotMatrix) <==> |tabNames| == 0
    ensures r.Ok? ==> IsSquare(r.value, |tabNames|)
    ensures r.Ok? ==> forall a :: 0 <= a < |tabNames| ==> r.value[a][a] == 1
    ensures r.Ok? ==> forall a, b :: 0 <= a < |tabNames| && 0 <= b < |tabNames| && a != b ==>
      Lookup(adjMatrix, adjNames, tabNames[a], tabNames[b]) == Some(r.value[a][b])
  {
    var m, names := adjMatrix, adjNames;
    var shapesDiff := |tabNames| - |adjNames|;
    if shapesDiff > 0 {
      var e := EnrichAdjacencyMatrix(adjMatrix, adjNames, shapesDiff);
      if e.Err? {
        return Err(e.error);
      }
      m, names := e.value.0, e.value.1;
    }
    ghost var padded := shapesDiff > 0;
    assert forall x, y :: Lookup(m, names, x, y) == Lookup(adjMatrix, adjNames, x, y)
                          && (x in names <==> x in adjNames) by {
      forall x, y ensures Lookup(m, names, x, y) == Lookup(adjMatrix, adjNames, x, y)
                          && (x in names <==> x in adjNames) {
        if padded {
          EnrichAdjacencyMatrixKeepsLookups(adjMatrix, adjNames, shapesDiff, x, y);
        }
      }
    }
    var res := Reindex(tabNames, names, m);
    if res.Err? {
      return res;
    }
    var mat := res.value;
    if |mat| == 0 {
      return Err(NotMatrix);
    }
    var k := 0;
    while k < |mat|
      invariant 0 <= k <= |mat| == |tabNames|
      invariant forall a :: 0 <= a < |mat| ==> |mat[a]| == |tabNames|
      invariant forall a :: 0 <= a < k ==> mat[a][a] == 1
      invariant forall a, b :: 0 <= a < |mat| && 0 <= b < |mat| && (a != b || a >= k) ==>
        Lookup(m, names, tabNames[a], tabNames[b]) == Some(mat[a][b])
    {
      mat := mat[k := mat[k][k := 1]];
      k := k + 1;
    }
    return Ok(mat);
  }

  /** `form_rules_matrix` (utils.py:134-163), with the corrected padding:
      for each name of the input table, the ascending positions of the
      names that its rules row marks with 1. */
  method FormRulesMatrix(tabNames: seq<string>, rulesNames: seq<string>, rulesMatrix: seq<seq<int>>)
    returns (r: Result<seq<seq<int>>, AlignError>)
    requires IsSquare(rulesMatrix, |rulesNames|)
    ensures r == Err(NoOther) <==> |tabNames| > |rulesNames| && OTHER !in rulesNames
    ensures r == Err(MissingName) <==>
      !(|tabNames| > |rulesNames| && OTHER !in rulesNames)
      && exists k :: 0 <= k < |tabNames| && tabNames[k] !in rulesNames
    ensures r != Err(NotMatrix)
    ensures r.Ok? ==> |r.value| == |tabNames|
    ensures r.Ok? ==> forall a :: 0 <= a < |tabNames| ==>
      && (forall k, l :: 0 <= k < l < |r.value[a]| ==> r.value[a][k] < r.value[a][l])
      && forall c :: c in r.value[a] <==>
           0 <= c < |tabNames| && Lookup(rulesMatrix, rulesNames, tabNames[a], tabNames[c]) == Some(1)
  {
    var m, names := rulesMatrix, rulesNames;
    var shapesDiff := |tabNames| - |rulesNames|;
    if shapesDiff > 0 {
      var e := EnrichAdjacencyMatrix(rulesMatrix, rulesNames, shapesDiff);
      if e.Err? {
        return Err(e.error);
      }
      m, names := e.value.0, e.value.1;
    }
    ghost var padded := shapesDiff > 0;
    assert forall x, y :: Lookup(m, names, x, y) == Lookup(rulesMatrix, rulesNames, x, y)
                          && (x in names <==> x in rulesNames) by {
      forall x, y ensures Lookup(m, names, x, y) == Lookup(rulesMatrix, rulesNames, x, y)
                          && (x in names <==> x in rulesNames) {
        if padded {
          EnrichAdjacencyMatrixKeepsLookups(rulesMatrix, rulesNames, shapesDiff, x, y);
        }
      }
    }
    var res := Reindex(tabNames, names, m);
    if res.Err? {
      return res;
    }
    var mat := res.value;
    var result: seq<seq<int>> := [];
    var i := 0;
    while i < |mat|
      invariant 0 <= i <= |mat| == |tabNames| && |result| == i
      invariant forall a :: 0 <= a < i ==> result[a] == Where(mat[a], 1)
    {
      result := result + [Where(mat[i], 1)];
      i := i + 1;
    }
    assert forall a, c :: 0 <= a < |tabNames| && 0 <= c < |tabNames| ==>
      Lookup(rulesMatrix, rulesNames, tabNames[a], tabNames[c]) == Some(mat[a][c]);
    return Ok(result);
  }

  // --------------------------------------------------------- check_presence

  /** `check_presence(vec, check)` (utils.py:309): whether every value of
      `check` occurs in `vec`. */
  function CheckPresence(vec: seq<string>, check: seq<string>): (r: bool)
    ensures r <==> forall i :: 0 <= i < |check| ==> check[i] in vec
  {
    if |check| == 0 then true
    else
      var rest := CheckPresence(vec, check[1..]);
      assert forall i :: 0 < i < |check| ==> check[i] == check[1..][i - 1];
      check[0] in vec && rest
  }
}
