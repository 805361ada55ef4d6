# OCAT column-ordering engine in Dafny

OCAT picks an order for the columns of a report. The input table has one row per column name
and one column per slot. Each entry is the score of putting that name in that slot. An adjacency matrix says
which names may sit next to each other. A rules matrix says which names may come after which.
The engine in `utils.py` works in these steps:

1. Pad the input table with copies of its "Other" row until it is square (`enrich_input_table`).
2. Re-index the two matrices by the table's names, padding them with "Other" rows and columns first
   when they are smaller (`enrich_adjacency_matrix`, `form_adjacency_matrix`, `form_rules_matrix`).
3. Enumerate every placement of rows into slots (`permutations_optimised`, or `product`).
4. Keep the placements whose slot order satisfies both matrices (`select_valid_branches`).
5. Read off their scores (`get_branches_scores`).
6. Return the name orders of the placements with the highest total, sorted and without duplicates
   (`get_optimal_solution`).

The model has five modules:

- `Common`: the shared vocabulary. It has `Option`/`Result`, first-match lookup (`np.where(...)[0][0]`),
  `argsort` of a permutation, `np.where(xs == m)[0]` and sums.
- `Permutations`: the generator, kept imperative. `indices` and `cycles` are arrays updated in place.
  A pass of the generator is a method. It is proved against two functions of the counters:
  - `Arrangement`, which the value of `indices` always equals;
  - `Rank`, a mixed-radix number that every yield lowers by exactly one, from `n! - 1` to `0`.
- `Branches`: `product` and `select_valid_branches` as loops over sequences, proved against
  predicates that state which branches the code keeps. It also has `get_branches_scores`.
- `Optimal`: `get_optimal_solution`, with `np.unique` modelled as insertion into a strictly sorted list.
  Rows of names are ordered lexicographically by code point.
- `Align`: the padding and re-indexing helpers, and `check_presence`.

## Model

| member | source | states |
|---|---|---|
| Common.FirstIndex | utils.py:108 | `None` exactly when the name is absent (numpy raises there); otherwise an index holding it with no earlier occurrence |
| Common.ArgSort | utils.py:234 | the argsort of a permutation of `0..n-1` is a permutation whose entry `k` is the place holding `k` |
| Common.ArgSortInverse | utils.py:234 | the argsort undoes the permutation from the other side: `argsort(b)[b[i]] == i` |
| Common.ArgSortInvolution | utils.py:234 | taking the argsort twice gives the branch back |
| Common.Where | utils.py:284 | the positions holding `m`, strictly ascending, and every position holding `m` is among them |
| Permutations.PlaceProduct | utils.py:170 | the linear place value `Place(d, m)` equals `d * m!` |
| Permutations.FactorialProduct | utils.py:170 | `(n + 1)! == (n + 1) * n!` for the linear factorial |
| Permutations.ArrangementPermutes | utils.py:169-182 | the arrangement the counters describe has the same multiset as its base, so `indices` stays a permutation of `0..n-1` |
| Permutations.ArrangementFresh | utils.py:169-171 | the starting counters `n, n-1, ..., 1` describe the identity arrangement, so the first tuple is the pool in order |
| Permutations.ArrangementInjective | utils.py:166-184 | over a base without repeats, counters in range that give the same arrangement are equal |
| Permutations.RankBounds | utils.py:170-182 | counters in range (`cycles[i]` in `1..n-i`) have a rank in `0..n!-1` |
| Permutations.RankFresh | utils.py:170 | the starting counters have the top rank `n! - 1` |
| Permutations.RankOnes | utils.py:183-184 | counters that are all one have rank zero, which is where the generator stops |
| Permutations.SwapRank | utils.py:174-181 | when counter `i` goes from `x >= 2` to `x - 1` and the counters below it go from all ones back to their start, the rank drops by exactly one |
| Permutations.ProcessedRotate | utils.py:175-177 | a counter that runs out is reset to `n - i`, its suffix rotated, and the pass's invariant holds one level up |
| Permutations.ProcessedSwap | utils.py:178-181 | a counter that stays positive swaps `indices[i]` with `indices[-j]`: `indices` matches the new counters and the rank drops by one |
| Permutations.RotateLeft | utils.py:176 | the array becomes its prefix, then its suffix after `i`, then the old `a[i]` |
| Permutations.Step | utils.py:174-182 | one level of a pass: it either rotates and resets, keeping the pass invariant, or swaps and yields with the rank one lower |
| Permutations.Advance | utils.py:172-184 | a pass keeps `cycles` in range and `indices` equal to their arrangement; it yields exactly when the rank is positive, and then lowers it by one |
| Permutations.SelectArrangement | utils.py:171-181 | picking pool elements through an arrangement of indices is the same arrangement of the picked elements |
| Permutations.YieldedRearranges | utils.py:171-181 | every yielded tuple has the pool's multiset, and the tuples are distinct when the pool has no repeats |
| Permutations.GeneratingStep | utils.py:172-184 | one pass either appends the next tuple, whose rank is one lower, or stops the generator at rank zero |
| Permutations.Permutations | utils.py:166-184 | the generator yields `n!` tuples; the first is the pool; each is a rearrangement of the pool; all are distinct when the pool is |
| Branches.Choices | utils.py:206 | its contract gives only that each extension is one index longer; the contents are stated by `Branches.ChoicesExactly` |
| Branches.ChoicesExactly | utils.py:206 | the extensions of `x` by a pool of `m` elements are exactly `x` plus one fresh index below `m`, each once |
| Branches.Extend | utils.py:206 | its contract gives only that every extended branch is non-empty; the contents are stated by `Branches.ExtendExactly` |
| Branches.ExtendExactly | utils.py:206 | one round extends every partial branch by every fresh index of the pool, and keeps the results distinct |
| Branches.IsBranchSnoc | utils.py:196-206 | a branch over one more pool is a branch over the earlier pools plus a fresh index into the new one |
| Branches.Product | utils.py:195-209 | the result holds exactly the index lists with one in-range index per pool and no repeats, each once |
| Branches.ValidBranch | utils.py:234-246 | the branch's rows, taken in slot order, pass the adjacency and rules checks at every slot but the last; it is the predicate `Branches.IsValidBranch` is proved against, and `Branches.ValidBranchByRows` restates it by rows |
| Branches.IsValidBranch | utils.py:234-246 | the slot-by-slot check with early exit accepts exactly the branches where every slot but the last passes the adjacency and rules checks |
| Branches.KeptIndices | utils.py:221-249 | the positions of the passing branches: all of them, strictly ascending |
| Branches.SelectValidBranches | utils.py:221-249 | the kept branches are the input branches at the passing positions, in order and unchanged |
| Branches.SelectedExactly | utils.py:221-249 | an input branch is among those kept if and only if it passes |
| Branches.ValidBranchByRows | utils.py:234-246 | a branch passes iff rows in neighbouring slots are adjacent and every row in a later slot is in the earlier row's rules |
| Branches.ShortBranchValid | utils.py:236 | branches of length 0 or 1 are always kept |
| Branches.NoAdjacencyOnlyShort | utils.py:236-240 | when no two different rows are adjacent, a branch is kept iff it has at most one row |
| Branches.PermissiveMatricesKeepAll | utils.py:236-246 | when every pair is adjacent and allowed, every branch is kept |
| Branches.GetBranchesScores | utils.py:260-272 | one row per branch, as long as the branch; entry `p` of row `k` is `table[p][branch_k[p]]` |
| Optimal.TextLessIrreflexive | utils.py:296 | no name sorts before itself |
| Optimal.TextLessTransitive | utils.py:296 | the name order is transitive |
| Optimal.TextLessTotal | utils.py:296 | any two different names are ordered |
| Optimal.RowLessIrreflexive | utils.py:296 | no composition sorts before itself |
| Optimal.RowLessTransitive | utils.py:296 | the composition order is transitive |
| Optimal.RowLessTotal | utils.py:296 | any two different compositions are ordered |
| Optimal.RowLessOrder | utils.py:296 | the order `np.unique(..., axis=0)` sorts by is a strict total order |
| Optimal.Insert | utils.py:296-297 | inserting into a strictly sorted list keeps it strictly sorted and adds exactly that value |
| Optimal.Unique | utils.py:296-297 | the result is strictly ascending and holds exactly the values of the input |
| Optimal.UniqueOfConstant | utils.py:297 | a non-empty list of equal totals collapses to that one total |
| Optimal.SortedOfOne | utils.py:297 | a strictly sorted list holding only `x` is `[x]` |
| Optimal.SortedDistinct | utils.py:296 | a strictly sorted list has no duplicates |
| Optimal.Composition | utils.py:292 | its contract gives only the length, one name per slot; the contents are stated by `Optimal.CompositionPlaces` |
| Optimal.CompositionPlaces | utils.py:292 | slot `tree[p]` of a branch's composition holds `table_names[p]`, and that determines the composition |
| Optimal.MaxOf | utils.py:284 | `max` of a non-empty list is one of its entries and no entry exceeds it |
| Optimal.CompositionsOfBest | utils.py:285-292 | the compositions of the branches at the best positions are exactly the compositions of branches whose total is the best |
| Optimal.ComposeAll | utils.py:291-293 | for each optimal branch, in order, its composition and its total |
| Optimal.GetOptimalSolution | utils.py:283-299 | fails iff there is no branch; otherwise the scores are `[max]`, where `max` is a reached total that no branch exceeds, and the names are strictly ascending and are exactly the compositions of branches reaching it |
| Align.InsertCopiesAt | utils.py:41 | after `np.insert` of `d` copies at `k`: the prefix, then the copies, then the rest shifted by `d` |
| Align.InsertCopiesRemoved | utils.py:41 | removing the inserted copies gives the original back |
| Align.DupRows | utils.py:41 | its contract gives only the row count, `num_dups` more; the contents are stated by `Align.InsertCopiesAt` and `Align.PaddedEntry` |
| Align.DupCols | utils.py:52 | its contract gives only the row count and that every row gains `num_dups` entries; the contents are stated by `Align.InsertCopiesAt` and `Align.PaddedEntry` |
| Align.PaddedEntry | utils.py:41-52 | after `dup_rows` and `dup_cols` at `o`, every entry is the original entry of the row and column it was copied from |
| Align.EnrichRound | utils.py:66-68 | a pass fails iff there is no "Other"; otherwise it adds one name and `numDups` rows |
| Align.EnrichRounds | utils.py:65-68 | `k` passes fail iff `k > 0` and there is no "Other"; otherwise there are `k` more names, still an "Other" among them, and no more names than rows |
| Align.EnrichRoundsRows | utils.py:65-67 | after `k` passes of `d` copies, the table has `k * d` more rows |
| Align.EnrichInputTableAsWritten | utils.py:63-69 | as written, it fails iff padding is needed and there is no "Other"; otherwise the names reach `cols`, but the rows grow by `(cols - rows)^2` |
| Align.EnrichInputTableAsWrittenMisaligned | utils.py:63-68 | as written, a one-row table of three columns named "Other" comes back with three names but five rows |
| Align.PadWithOther | utils.py:65-68 | runs `Align.EnrichRound` with one copy per pass; it fails iff there is no "Other"; otherwise `diff` copies of the first "Other" name and row stand in front of it |
| Align.InsertCopiesFollow | utils.py:65-68 | copies of the "Other" name and row keep every row beside a name it had originally |
| Align.EnrichInputTable | utils.py:63-69 | it fails iff padding is needed and there is no "Other"; without padding it returns its inputs; otherwise it is the input with `cols - rows` copies of the first "Other" name and row in front of them, removing those copies gives the input back, every row sits beside its original name, the table is square, and widths are unchanged |
| Align.PickEntries | utils.py:114-116 | the re-indexed row holds, at each position `b`, the entry of the original row at `indexes[b]` |
| Align.Lookup | utils.py:108-116 | an entry is found iff both names occur |
| Align.EnrichAdjacencyMatrixAsWritten | utils.py:81-84 | it fails iff there is no "Other" name |
| Align.EnrichAdjacencyMatrixAsWrittenMisreads | utils.py:81-84 | as written, with two copies the names after "Other" read copied "Other" entries: "A" against "B" reads 0 instead of 9 |
| Align.FirstIndexShift | utils.py:84 | after copies of "Other" go in front of the first "Other", each name's first index moves past them |
| Align.InsertCopiesMembers | utils.py:84 | copies of "Other" bring in no new name |
| Align.EnrichAdjacencyMatrix | utils.py:81-85 | it fails iff there is no "Other"; otherwise the matrix is square over names that are `shapesDiff` longer |
| Align.EnrichAdjacencyMatrixKeepsLookups | utils.py:81-85 | the padded matrix knows the same names and answers every lookup as the original |
| Align.Reindex | utils.py:102-117 | it fails iff some table name is missing; otherwise it is square over the table names, entry `[a][b]` being the first-match lookup of names `a` and `b` |
| Align.FormAdjacencyMatrix | utils.py:96-123 | it reports a missing "Other", a missing name or an empty table exactly when the source raises for them; otherwise it is square, has a diagonal of ones, and off the diagonal has the original matrix's entry for the two names |
| Align.FormRulesMatrix | utils.py:134-163 | it reports a missing "Other" or a missing name exactly when the source raises for them; otherwise row `a` lists, ascending, exactly the positions `c` whose names the rules mark with 1 for row `a`'s name |
| Align.CheckPresence | utils.py:309 | true iff every checked value occurs in the vector |

## Left out

- `get_config` and `read_txt` (utils.py:5-30) are file and configuration I/O. The model starts from the names and
  scores they return.
- `main.run` (main.py) is not part of this model. It chains the steps, `eval`s a configuration string and prints a
  summary with a floating-point percentage.
- The `with_trace=True` paths of `product`, `select_valid_branches` and `get_branches_scores` (utils.py:198-204,
  224-232, 264-266) are not modelled. `main.run` never takes them.
- `permutations_optimised` and `product` are generators. The model builds their whole output as a sequence.
  `Permutations.Advance` is one resumption of the generator.
- Branches.Product: only the sizes of the pools matter to `product`, so the model works on those sizes.
  The branches are sequences rather than numpy arrays.
- Common.ArgSort: `np.argsort` is modelled only on permutations of `0..n-1`, which is all the engine gives it.
  The tie order of numpy's default sort is not modelled.
- Optimal.Unique: `np.unique` is modelled as a strict ascending order. Names compare by code point, and rows of
  names compare lexicographically. numpy's fixed-width string padding is not modelled.
- Optimal.Composition: `sorted(zip(tree, table_names))` is modelled for branches that are permutations. There the
  slots are distinct and the names never decide the order.
- Branches.ValidBranch: `np.in1d(..., rules_row)` is modelled as membership in the row of indices that
  `form_rules_matrix` produces.
- Align.FormAdjacencyMatrix and Align.FormRulesMatrix use the corrected `Align.EnrichAdjacencyMatrix` (see
  Findings). The as-written padding is modelled and shown wrong separately.
- Align.EnrichInputTable is the corrected padding (see Findings). Its loop, `Align.PadWithOther`, runs the same
  pass, `Align.EnrichRound`, as the as-written rounds, with one copy per pass instead of `cols - rows`.
- Integers are unbounded. The scores are numpy `int` values, and their overflow is not modelled.

Edge cases where the code raises or returns early:

- `get_optimal_solution` on no branches raises in the code: `np.sum(..., axis=1)` (utils.py:283) is given a
  one-dimensional array and has no axis 1. The model returns `Err(NoBranches)` instead.
- `form_adjacency_matrix` on an empty name list raises in `np.fill_diagonal`. The model returns `Err(NotMatrix)`.
- `form_rules_matrix` on an empty name list returns an empty list, and so does the model.

## Findings

| source | as written | input that shows it | evidently intended | confidence | as-written member | corrected member |
|---|---|---|---|---|---|---|
| utils.py:65-68 | each of the `cols - rows` passes duplicates the "Other" row `cols - rows` times but inserts one name, so the table gains `(cols - rows)^2` rows and the names only `cols - rows` | table `[[1, 2, 3]]`, names `["Other"]`: 5 rows, 3 names | one row per pass, giving a square table whose rows keep their names | not executed | Align.EnrichInputTableAsWrittenMisaligned | Align.EnrichInputTable |
| utils.py:81-84 | `shapes_diff` rows and columns are copied but one "Other" name is inserted, so the names after "Other" look up copied rows | names `["Other", "A", "B"]`, matrix `[[1, 0, 0], [0, 5, 9], [0, 8, 5]]`, `shapes_diff` 2: "A" against "B" reads 0, not 9 | `shapes_diff` "Other" names, so every name keeps its entries | not executed | Align.EnrichAdjacencyMatrixAsWrittenMisreads | Align.EnrichAdjacencyMatrixKeepsLookups |
