# Scale economies bootstrap: the deterministic core

This project models the array and index bookkeeping of the bootstrap that
estimates household scale economies from budget shares
(`scale_econs_bootstrap_lasso.py`). It leaves out the regressions. What it
keeps and proves:

- **Group demeaning** (`demean` and its one-column copy for the fitted
  residuals). Each row of a province-year x type cell has the cell's column
  means subtracted. Groups are visited in `np.unique` order, so a row listed
  under several groups keeps the value written by the largest group id. A row
  listed under none stays zero. Over every group each column then sums to
  zero, and demeaning twice is demeaning once.
- **Row-wise interactions** (`(a[:, None] * b[..., None]).reshape(N, -1)`).
  Column `j*A + i` holds `a[i] * b[j]`. Two indicator rows give an indicator
  row. The stride-K slice of `eryt` picks exactly the columns the name filter
  `er{k}y_` picks.
- **Exclusion of singleton group x type cells**. In a replication a cell is
  excluded when its members carry one distinct original label, and all its
  rows go. The point estimate excludes cells whose column sums to one and
  drops that one row. Every array is cut at the same positions. Both rules
  agree when no label repeats, and they differ on a row drawn twice.
- **Good pairs and symmetric matrices**. The `i <= j` double loop appends
  K(K+1)/2 columns in the order of `np.triu_indices`. Filling a `np.empty`
  matrix from the upper triangle and mirroring it gives a symmetric matrix
  whose upper triangle reads back to the vector.
- **Regressor selection**. A group is included when at least two rows of the
  type are in it. An equation's candidates are the included groups' sum
  terms of its pair plus its product term. Its regressors are the entries of
  mask `tt * pairs + p` that are candidates, in mask order. The LASSO loop
  lays the masks out at exactly that index.
- **Closed-form helpers**. These are `barten`, `cov_to_cor`, and `scale` with
  its padding, quadratic forms and sample covariance. A sample covariance is
  positive semidefinite, so the index's standard deviation is defined when
  the scale covariance is.
- **One replication's `tt` loop and the reassembly of standard errors**.
  Slices of `cov_matrix_pd` are written into arrays, and the cov, cov_pd,
  cor, std, std_l and std_u series grow by one block per type. The label
  mask `h{i+1}` picks block i back out. The `reshape([T, K]).T` table
  transposes the blocks.

Reals stand for float64 values. A result is `NonFinite` where numpy returns
nan or inf: a division by zero, the square root of a negative number, or the
covariance of fewer than two rows. `np.sqrt` is a parameter characterised by
its defining equation. `NPD.nearestPD` is a parameter that keeps the K x K
shape. The SUR and LASSO fits are inputs: the fitted coefficients, the fitted
residuals and the masks.

Three behaviours of the code are worth stating plainly:

- The two exclusion rules differ (see `CellExclusion.RepeatedDrawDiffers`).
  The bootstrap rule drops every member of a cell whose members carry one
  distinct label; the point rule drops the one row of a cell whose column
  sums to one.
- `demean` zeroes rows that no group lists. For a row listed under several
  groups it keeps only the last write.
- Nothing stops a type that has too few included groups.

## Model

| member | source | states |
|---|---|---|
| Numerics.SqrtF | scale_econs_bootstrap_lasso.py:63 | `np.sqrt` of one value is finite exactly for a non-negative argument, and then it is a non-negative root |
| Numerics.DivF | scale_econs_bootstrap_lasso.py:91 | float division is finite exactly for a non-zero divisor, and then it undoes multiplication by the divisor |
| Numerics.GramSemidefinite | scale_econs_bootstrap_lasso.py:170 | the Gram matrix D'D behind every sample covariance is positive semidefinite |
| Numerics.GramFormNonNegative | scale_econs_bootstrap_lasso.py:170 | x'(D'D)x is never negative |
| Numerics.QuadFormDivided | scale_econs_bootstrap_lasso.py:170 | dividing a matrix entrywise by q > 0 divides its quadratic form by q |
| Numerics.DeviationsSumZero | scale_econs_bootstrap_lasso.py:46 | deviations from the mean of a non-empty column sum to zero |
| Numerics.GramForm | scale_econs_bootstrap_lasso.py:170 | x'(D'D)x equals the sum over the rows d of (d.x)^2 |
| Numerics.FlattenAt | scale_econs_bootstrap_lasso.py:490-507 | in a concatenation of equal blocks of width n, entry b*n+p is entry p of block b |
| Numerics.Flatten | scale_econs_bootstrap_lasso.py:241-243 | `sum([...], [])` and the repeated `pd.concat` join blocks in order; `Numerics.FlattenAt` and `Numerics.FlattenLength` fix its entries and length |
| Demeaning.Unique | scale_econs_bootstrap_lasso.py:44 | `np.unique` gives the group ids ascending, each once, and exactly those present |
| Demeaning.Members | scale_econs_bootstrap_lasso.py:45 | `gt[0][np.where(gt[1] == g)]` holds exactly the rows listed under group g |
| Demeaning.ColMeans | scale_econs_bootstrap_lasso.py:46 | `var[index, :].mean(axis=0)` has one entry per column, each the mean of that column over the listed rows |
| Demeaning.LastGroupOf | scale_econs_bootstrap_lasso.py:44-46 | the group whose write a row keeps is listed for it and is the largest such id; -1 when none lists the row |
| Demeaning.LastInUnique | scale_econs_bootstrap_lasso.py:44-46 | visiting the groups in `np.unique` order leaves each row with the largest group that lists it |
| Demeaning.DemeanSpec | scale_econs_bootstrap_lasso.py:23-48 | the demeaned matrix keeps the input's N x P shape |
| Demeaning.OverwriteRows | scale_econs_bootstrap_lasso.py:46 | the assignment to `var_demean[index, :]` rewrites exactly the listed rows and leaves the others as they were |
| Demeaning.Demean | scale_econs_bootstrap_lasso.py:42-46 | the loop over the groups returns each row minus the column means of the last group listing it, and zero for unlisted rows |
| Demeaning.MemberRow | scale_econs_bootstrap_lasso.py:45-46 | with every row listed once, a member of group g becomes its input row minus g's column means |
| Demeaning.UnlistedRowStaysZero | scale_econs_bootstrap_lasso.py:42 | a row that no group lists stays at the zero of `np.zeros` |
| Demeaning.DemeanedColumn | scale_econs_bootstrap_lasso.py:46 | over group g's rows, column j after demeaning is column j before minus its group mean |
| Demeaning.GroupColumnSumsZero | scale_econs_bootstrap_lasso.py:42-46 | after demeaning, every column sums to zero over every group's rows |
| Demeaning.GroupColumnMeanZero | scale_econs_bootstrap_lasso.py:42-46 | after demeaning, every column's group mean is zero |
| Demeaning.DemeanIdempotent | scale_econs_bootstrap_lasso.py:42-46 | demeaning a demeaned matrix changes nothing |
| Demeaning.OverwriteColumn | scale_econs_bootstrap_lasso.py:333 | `res[index, i] = ...` rewrites entry i of exactly the listed rows |
| Demeaning.MeanOver | scale_econs_bootstrap_lasso.py:333 | `np.mean(fres[index])`: the sum of the listed entries over their count; `Demeaning.DemeanedColumn` and `Demeaning.GroupColumnSumsZero` state what subtracting it achieves |
| Demeaning.DemeanColumnInto | scale_econs_bootstrap_lasso.py:331-333 | the inner group loop leaves entry i of every row at its demeaned fitted residual, zero for rows in no group, and the other entries unchanged |
| Demeaning.ResidualForIsDemean | scale_econs_bootstrap_lasso.py:331-333 | the one-column demeaning of fres[i] agrees with `demean` of the matrix whose columns are the fres |
| Demeaning.DemeanResiduals | scale_econs_bootstrap_lasso.py:322-333 | the residual loop returns exactly `demean` of the matrix whose columns are the fitted residuals |
| Interactions.Block | scale_econs_bootstrap_lasso.py:219 | one block of the broadcast product is row a scaled by one entry of b |
| Interactions.InteractRow | scale_econs_bootstrap_lasso.py:219 | one observation's broadcast product, block j being a scaled by b[j]; `Interactions.InteractAt` fixes each entry |
| Interactions.Interact | scale_econs_bootstrap_lasso.py:213-219 | the product is formed observation by observation and keeps the N rows |
| Interactions.InteractAt | scale_econs_bootstrap_lasso.py:213-219 | the product row has width A*B, and column j*A+i holds a[i]*b[j] |
| Interactions.InteractWidth | scale_econs_bootstrap_lasso.py:219 | the reshape gives width A*B |
| Interactions.InteractColumn | scale_econs_bootstrap_lasso.py:231-232 | column c of the product holds a[c mod A] * b[c div A] |
| Interactions.InteractOneHot | scale_econs_bootstrap_lasso.py:231-232 | an observation in group g and of type t lies in exactly one gt cell, t*G+g |
| Interactions.NameGrid | scale_econs_bootstrap_lasso.py:277-279 | the eryt names, one block of K names per type; `Interactions.NameGridAt` fixes the position of each name |
| Interactions.NameGridAt | scale_econs_bootstrap_lasso.py:277-279 | the eryt names run type outer, good inner, so name tt*K+k is good k of type tt |
| Interactions.OfGood | scale_econs_bootstrap_lasso.py:310 | the name filter `er{k}y_` keeps exactly the names of good k |
| Interactions.OfGoodGrid | scale_econs_bootstrap_lasso.py:310 | the name filter for good k returns one name per type, in type order |
| Interactions.Stride | scale_econs_bootstrap_lasso.py:327 | `np.arange(k, len, K)` picks one entry per type |
| Interactions.StrideMatchesNames | scale_econs_bootstrap_lasso.py:310-327 | the stride-K slice at k picks the same columns, in the same order, as the name filter for good k |
| Interactions.StrideOfInteraction | scale_econs_bootstrap_lasso.py:320-327 | those columns of `eryt` are ery[k] times each type indicator |
| CellExclusion.CellRows | scale_econs_bootstrap_lasso.py:242 | `gt.index[gt[c] == 1]` holds exactly the member rows of cell c, ascending |
| CellExclusion.LabelsOf | scale_econs_bootstrap_lasso.py:237 | the distinct labels of a cell are exactly the labels its member rows carry |
| CellExclusion.CellLabels | scale_econs_bootstrap_lasso.py:237 | `np.unique(gt[i][gt[i] == 1].index)` as a set: the distinct labels of cell c, which `CellExclusion.LabelsOf` characterises |
| CellExclusion.BootExcluded | scale_econs_bootstrap_lasso.py:235-239 | a cell is excluded exactly when its members carry exactly one distinct label; the excluded cells are listed ascending |
| CellExclusion.CollectLabels | scale_econs_bootstrap_lasso.py:237 | the loop collects exactly the cell's distinct labels |
| CellExclusion.ExcludedCells | scale_econs_bootstrap_lasso.py:235-239 | `gt_excluded` is the bootstrap rule's list of cells |
| CellExclusion.RowsOf | scale_econs_bootstrap_lasso.py:241-243 | `idx_excluded` lists exactly the rows that are in some excluded cell |
| CellExclusion.CellMembers | scale_econs_bootstrap_lasso.py:242 | the loop collects a cell's member rows in order |
| CellExclusion.ExcludedRows | scale_econs_bootstrap_lasso.py:241-243 | the loop over the excluded cells builds `idx_excluded` cell by cell |
| CellExclusion.DropRows | scale_econs_bootstrap_lasso.py:245-256 | `drop(idx_excluded).reset_index(drop=True)` and `np.delete`; `CellExclusion.DropRowsAt` and `CellExclusion.KeptSpec` state which entries survive and in what order |
| CellExclusion.KeptSpec | scale_econs_bootstrap_lasso.py:245-249 | the surviving positions are exactly those not listed, still in their original order |
| CellExclusion.DropRowsAt | scale_econs_bootstrap_lasso.py:245-249 | after the drop and `reset_index`, entry k is the original entry at the k-th surviving position |
| CellExclusion.ParallelCut | scale_econs_bootstrap_lasso.py:245-256 | `shs_data`, `g`, `t` and `gt` are cut at the same positions, so their k-th rows come from the same original row |
| CellExclusion.DropSameMembers | scale_econs_bootstrap_lasso.py:245-249 | the result of a drop depends only on which positions are listed, not on their order or repetition |
| CellExclusion.BootDrop | scale_econs_bootstrap_lasso.py:235-243 | `idx_excluded` for the bootstrap rule; `CellExclusion.BootSurvivors` states exactly which rows it lists |
| CellExclusion.BootSurvivors | scale_econs_bootstrap_lasso.py:235-247 | a row survives exactly when it is in no excluded cell: all rows of excluded cells go, and only those |
| CellExclusion.NoSingletonSurvives | scale_econs_bootstrap_lasso.py:235-256 | with each row in at most one cell, no cell left after the drop carries exactly one distinct label |
| CellExclusion.ColSumCounts | scale_econs_bootstrap_lasso.py:623 | for a 0/1 column the sum is the number of members |
| CellExclusion.PointExcluded | scale_econs_bootstrap_lasso.py:623 | the point rule excludes exactly the cells whose column sums to one, ascending |
| CellExclusion.FirstRow | scale_econs_bootstrap_lasso.py:624-628 | `gt.index[gt[c] == 1].tolist()[0]` is a member of c with no member before it |
| CellExclusion.PointDrop | scale_econs_bootstrap_lasso.py:624-630 | the point rule drops one row per excluded cell |
| CellExclusion.PointRowIsCell | scale_econs_bootstrap_lasso.py:623-628 | for a 0/1 matrix, a cell whose column sums to one has that first row as its only member |
| CellExclusion.LabelsCountRows | scale_econs_bootstrap_lasso.py:235-239 | with distinct labels, a cell has as many distinct labels as members |
| CellExclusion.SingletonIffSumOne | scale_econs_bootstrap_lasso.py:623 | with distinct labels and 0/1 entries, a cell has one distinct label exactly when its column sums to one |
| CellExclusion.RulesAgreeOnCells | scale_econs_bootstrap_lasso.py:623 | with distinct labels and 0/1 entries, the two rules exclude the same cells |
| CellExclusion.BootDropInPoint | scale_econs_bootstrap_lasso.py:235-243 | with distinct labels and 0/1 entries, every row the bootstrap rule drops is dropped by the point rule at lines 623-630 |
| CellExclusion.PointDropInBoot | scale_econs_bootstrap_lasso.py:623-630 | under the same conditions, every row the point rule drops is dropped by the bootstrap rule at lines 235-243 |
| CellExclusion.DropKeepsLabelsWithin | scale_econs_bootstrap_lasso.py:245-249 | cutting rows never adds a label to a cell |
| CellExclusion.MemberSurvives | scale_econs_bootstrap_lasso.py:235-249 | with each row in at most one cell, a member of a cell that is not excluded survives the cut with its label |
| CellExclusion.RulesAgree | scale_econs_bootstrap_lasso.py:623-630 | under the same conditions, the two rules drop the same rows, so every array is cut identically |
| CellExclusion.RepeatedDrawDiffers | scale_econs_bootstrap_lasso.py:235-239 | a row drawn twice into one cell is excluded by the bootstrap rule but not by the point rule at lines 623-630 |
| Pairs.Triu | scale_econs_bootstrap_lasso.py:340-341 | the pairs of the `i <= j` double loop, the order of `np.triu_indices`; `Pairs.TriuAt`, `Pairs.TriuPos` and `Pairs.PairCount` fix position, range and count |
| Pairs.TriuRow | scale_econs_bootstrap_lasso.py:341 | the inner loop of row i visits the pairs (i, i), ..., (i, K-1) |
| Pairs.TriuLength | scale_econs_bootstrap_lasso.py:340-341 | the first m rows of the double loop emit Offset(K, m) pairs |
| Pairs.OffsetClosed | scale_econs_bootstrap_lasso.py:340-341 | row i of the triangle starts at position i(2K-i+1)/2 |
| Pairs.PairCount | scale_econs_bootstrap_lasso.py:883-891 | the double loop emits K(K+1)/2 pairs, the width of the stores |
| Pairs.TriuAt | scale_econs_bootstrap_lasso.py:340-365 | pair (i, j), i <= j, is emitted at position Offset(K, i) + (j - i) |
| Pairs.TriuPos | scale_econs_bootstrap_lasso.py:450 | every position holds a pair i <= j in range, at that pair's position, so positions and pairs correspond one to one |
| Pairs.CrossColumn | scale_econs_bootstrap_lasso.py:345-361 | a product or sum column has one entry per row |
| Pairs.TriuInRange | scale_econs_bootstrap_lasso.py:340-341 | every emitted pair names two goods in range |
| Pairs.PairColumns | scale_econs_bootstrap_lasso.py:340-365 | the double loop builds the residual products, fitted-value products and fitted-value sums for every pair in triangle order; column Offset(K, i)+(j-i) is the one for (i, j) |
| Pairs.PairColumnsAt | scale_econs_bootstrap_lasso.py:340-365 | in each of the three stores, the column at the triangle position of (i, j) is the column computed for (i, j) |
| Pairs.SymFromTriu | scale_econs_bootstrap_lasso.py:449-453 | the matrix filled from the upper triangle and mirrored is K x K and symmetric |
| Pairs.SymFromTriuAt | scale_econs_bootstrap_lasso.py:450-453 | entries (a, b) and (b, a) both hold the value of pair (a, b) |
| Pairs.ReadTriu | scale_econs_bootstrap_lasso.py:472-476 | reading the upper triangle gives K(K+1)/2 values |
| Pairs.ReadFilled | scale_econs_bootstrap_lasso.py:472-476 | reading back the upper triangle of the filled matrix returns the vector that filled it |
| Pairs.FillRead | scale_econs_bootstrap_lasso.py:923-930 | filling from the upper triangle of a symmetric matrix gives the matrix back |
| Pairs.FillUpper | scale_econs_bootstrap_lasso.py:450 | the triangle assignment writes each value to its pair's entry on or above the diagonal and leaves the strict lower triangle as it was |
| Pairs.MirrorLower | scale_econs_bootstrap_lasso.py:451-453 | the mirror makes every entry below the diagonal equal its transpose, keeping the upper triangle |
| Pairs.FillSymmetric | scale_econs_bootstrap_lasso.py:449-453 | the fresh K x K array ends up equal to the symmetric matrix of the vector |
| Selection.Where | scale_econs_bootstrap_lasso.py:393 | a boolean row filter keeps only rows of the input |
| Selection.WhereConcat | scale_econs_bootstrap_lasso.py:393 | filtering a concatenation filters each part |
| Selection.WhereNone | scale_econs_bootstrap_lasso.py:393 | a filter that keeps nothing gives the empty list |
| Selection.WhereAll | scale_econs_bootstrap_lasso.py:393 | a filter that keeps everything gives the list back |
| Selection.WhereTwice | scale_econs_bootstrap_lasso.py:384-393 | selecting the type-tt rows of the non-single rows selects the type-tt rows |
| Selection.IncludedGroups | scale_econs_bootstrap_lasso.py:394 | a group is included exactly when it has at least two rows of the type; the list is ascending |
| Selection.SumTerms | scale_econs_bootstrap_lasso.py:395-397 | `g_bery_included_boot`: group outer, pair inner; `Selection.SumTermsOfPair` states what the name filter takes from it |
| Selection.OfPair | scale_econs_bootstrap_lasso.py:408 | the name test `name in j` keeps exactly the terms of the equation's pair |
| Selection.SumTermsOfPair | scale_econs_bootstrap_lasso.py:395-408 | the sum terms of pair p are one per included group, in group order |
| Selection.Candidates | scale_econs_bootstrap_lasso.py:405-409 | the `exog` columns of pair p's equation; `Selection.CandidatesSpec` states exactly which regressors they are |
| Selection.CandidatesSpec | scale_econs_bootstrap_lasso.py:394-409 | a candidate is pair p's product term or pair p's sum term for an included group, and every such term is a candidate |
| Selection.Selected | scale_econs_bootstrap_lasso.py:413-415 | the kept regressors are exactly the mask entries that are candidates |
| Selection.SelectedSubsequence | scale_econs_bootstrap_lasso.py:413-415 | the kept regressors are a subsequence of the mask, in mask order |
| Selection.MaskBlocks | scale_econs_bootstrap_lasso.py:789-839 | the masks come in one block per type, with one mask per pair |
| Selection.MasksOfType | scale_econs_bootstrap_lasso.py:803-839 | the inner loop appends type tt's masks pair by pair |
| Selection.CollectMasks | scale_econs_bootstrap_lasso.py:789-839 | the LASSO loop lays out the masks type outer, pair inner |
| Selection.MaskAt | scale_econs_bootstrap_lasso.py:414 | the mask read at `tt*len(NAME_res_crossprod)+i` is the one fitted for type tt and pair i |
| Selection.ProdOnly | scale_econs_bootstrap_lasso.py:437-439 | the `prod` filter keeps exactly the product terms |
| Selection.ProdTermsKept | scale_econs_bootstrap_lasso.py:408-439 | an equation keeps its own product term once per mask listing of it, and no other product term |
| Selection.ProdParams | scale_econs_bootstrap_lasso.py:437-445 | the `prod` parameters of a system, equation after equation; `Selection.ProdParamsInPairOrder` states their order |
| Selection.ProdParamsInPairOrder | scale_econs_bootstrap_lasso.py:437-450 | when each mask lists its pair's product term once, the type's product coefficients are one per pair, in the triangle order of the fill |
| Scales.Barten | scale_econs_bootstrap_lasso.py:88-91 | a[k] is finite exactly when theta[k] is non-zero, and then a[k] * theta[k] == theta[K+k] |
| Scales.BartenInverts | scale_econs_bootstrap_lasso.py:88-91 | when the multi-member coefficients are the single-member ones times the scales, `barten` returns the scales |
| Scales.CorEntry | scale_econs_bootstrap_lasso.py:63-64 | a correlation entry is finite exactly when both variances are positive, and then it times sqrt(cov[i][i]) sqrt(cov[j][j]) is cov[i][j] |
| Scales.CovToCor | scale_econs_bootstrap_lasso.py:50-66 | the same for every entry of `cov_to_cor`, which is K x K |
| Scales.CorSign | scale_econs_bootstrap_lasso.py:63-64 | a finite correlation is positive exactly when the covariance is, and negative exactly when it is |
| Scales.UnitDiagonal | scale_econs_bootstrap_lasso.py:63-64 | a variable with positive variance has correlation 1 with itself |
| Scales.CorSymmetric | scale_econs_bootstrap_lasso.py:63-64 | the correlation matrix of a symmetric matrix is symmetric |
| Scales.PadScale | scale_econs_bootstrap_lasso.py:174 | the padded scale vector is the scales followed by the nonshareable good's 1 |
| Scales.PadCov | scale_econs_bootstrap_lasso.py:175-178 | the padded covariance is (K+1) x (K+1), equals the input on the first K goods and is zero in the last row and column |
| Scales.PadQuadForm | scale_econs_bootstrap_lasso.py:175-180 | the zero row and column make w'Cw blind to the nonshareable good |
| Scales.Means | scale_econs_bootstrap_lasso.py:169 | `mean(axis=0)` gives one mean per column |
| Scales.SampleCov | scale_econs_bootstrap_lasso.py:170 | the pandas covariance, deviations' Gram matrix over n-1, is square and symmetric |
| Scales.SampleCovSemidefinite | scale_econs_bootstrap_lasso.py:170 | a sample covariance matrix is positive semidefinite |
| Scales.Radicand | scale_econs_bootstrap_lasso.py:179-180 | the variance a'Wa + mu'Cmu under the square root; `Scales.RadicandNonNegative` proves it non-negative for a positive semidefinite C |
| Scales.ScaleStd | scale_econs_bootstrap_lasso.py:179-180 | a finite entry needs finite scales and at least two single rows, and is non-negative |
| Scales.ScaleStdSquares | scale_econs_bootstrap_lasso.py:169-180 | with finite scales, the entry is finite exactly when a'W a + mu'C mu >= 0, and then it squares to it; only the shareable goods' mean shares enter the second term |
| Scales.ScaleStdDefined | scale_econs_bootstrap_lasso.py:173-180 | with a positive semidefinite scale covariance (nearestPD's output), finite scales and at least two single rows, the entry is finite |
| Scales.Scale | scale_econs_bootstrap_lasso.py:169-182 | `scale` returns one entry per type, each the standard deviation for that type's scales and covariance over the single households |
| Scales.Singles | scale_econs_bootstrap_lasso.py:169 | `data[single == 1, :]` keeps only rows of the data, each of the data's width |
| Replication.PdSlice | scale_econs_bootstrap_lasso.py:449-467 | slice tt of `cov_matrix_pd` is K x K |
| Replication.DiagStd | scale_econs_bootstrap_lasso.py:480-488 | `np.sqrt(np.diag(m))` is finite exactly for a non-negative variance, and then it squares to the variance |
| Replication.PdBlock | scale_econs_bootstrap_lasso.py:472-476 | a type's cov_pd block has K(K+1)/2 entries |
| Replication.CorBlock | scale_econs_bootstrap_lasso.py:470-479 | a type's cor block has K(K+1)/2 entries |
| Replication.StdBlock | scale_econs_bootstrap_lasso.py:480-482 | a type's std block has K entries |
| Replication.TypeSeries | scale_econs_bootstrap_lasso.py:472-488 | one type's blocks of the six series: the fitted values, the upper triangles of the adjusted slice and of its correlation, and the three diagonal standard deviations |
| Replication.Append | scale_econs_bootstrap_lasso.py:490-507 | `pd.concat` grows every series by the type's block |
| Replication.SeriesUpTo | scale_econs_bootstrap_lasso.py:490-507 | the six series after the first m types; `Replication.SeriesBlocks` states that each is the concatenation of the per-type blocks |
| Replication.SeriesBlocks | scale_econs_bootstrap_lasso.py:490-507 | after m types, each series is the concatenation of the first m per-type blocks |
| Replication.TypeLoopSeries | scale_econs_bootstrap_lasso.py:490-507 | after the loop, each series is the concatenation of all per-type blocks |
| Replication.AdjustedSlice | scale_econs_bootstrap_lasso.py:449-469 | fill, mirror and nearestPD give the slice's specification |
| Replication.StoreSlice | scale_econs_bootstrap_lasso.py:467-469 | writing slice tt extends the prefix of slices already written |
| Replication.StoreType | scale_econs_bootstrap_lasso.py:449-488 | one pass writes type tt's three adjusted slices and returns its blocks of the six series |
| Replication.TypeLoop | scale_econs_bootstrap_lasso.py:388-507 | the arrays end up holding every type's adjusted slice, and the series are the concatenated blocks |
| Replication.SeriesLayout | scale_econs_bootstrap_lasso.py:883-891 | a series has T*K(K+1)/2 entries, and pair p of type tt sits at position tt*K(K+1)/2+p |
| Replication.PdBlockRebuilds | scale_econs_bootstrap_lasso.py:932-939 | when nearestPD returns a symmetric matrix, the matrix rebuilt from a cov_pd block is the adjusted slice |
| Replication.Labels | scale_econs_bootstrap_lasso.py:447 | the index labels `_h{tt+1}` of the cov series, one block per type; `Replication.LabelsLength` gives its length |
| Replication.TypeMask | scale_econs_bootstrap_lasso.py:921 | the label test `h{i+1}` marks exactly the entries of type i |
| Replication.LabelsLength | scale_econs_bootstrap_lasso.py:447 | the cov series carries T*K(K+1)/2 labels |
| Replication.SelectByType | scale_econs_bootstrap_lasso.py:921-925 | the type-i label mask selects exactly block i of any vector laid out like the series |
| Replication.SeMatrixEntry | scale_econs_bootstrap_lasso.py:921-948 | entry (a, b) of type i's rebuilt standard-error matrix, and entry (b, a), is the statistic of store column i*K(K+1)/2 + Offset(a) + (b-a), the column of pair (a, b) |
| Replication.StdTable | scale_econs_bootstrap_lasso.py:950-951 | `reshape([T, K]).T` gives a K x T table |
| Replication.StdTableTransposes | scale_econs_bootstrap_lasso.py:950-951 | column tt of the table is type tt's std block |

## Left out

- The SUR fits (lines 315, 433-435, 708) are foreign floating-point linear algebra. Their coefficients and fitted residuals are inputs.
- `NPD.nearestPD` (lines 467-469) is a parameter known only to keep the K x K shape. Its positive semidefiniteness is a precondition of `Scales.ScaleStdDefined`. Its symmetry is a precondition of `Replication.PdBlockRebuilds`.
- The LASSO cross-validation and penalised fits (lines 808-829) are foreign numerical optimisation. The masks they produce are the `fit` parameter of `Selection.CollectMasks`.
- `barten_results` (lines 95-135), and the parameter filters at lines 329 and 335, select coefficients by the fitting library's parameter names, which this model does not see. `Scales.Barten` takes the coefficient vector directly.
- The values of `log`, `exp` and `sqrt` (lines 260-271, 643-654) are not modelled. The variables built from them are inputs. `sqrt` enters only through its defining equation.
- The column assembly by `pd.concat` (lines 293-300, 371-384) is modelled through its parts: the interactions, the pair columns and the row filters. The DataFrame itself is not modelled.
- The cluster resampling (lines 843-867) depends on `np.random.choice` and on the iteration order of a Python `set`. The resampled labels are an input of the exclusion rule.
- Reading the Stata file and the percentile filter (lines 557-579) are file I/O and float quantiles.
- The process pool and progress bar (lines 876-879) are concurrency plumbing.
- `np.std` across replications and the printing (lines 912-1021) are float statistics and output. The standard errors are inputs of `Replication.SeMatrixEntry` and `Replication.StdTable`.
- Floating-point rounding is not modelled: arithmetic is on exact reals, and only the nan/inf outcomes are kept.
- pandas `cov` skips missing values pair by pair. The model assumes complete data; the code treats zero expenditures as missing and drops them at lines 567-569.
- Demeaning.GroupColumnSumsZero: proved only when every row is listed under one group at most, as for the one-hot group x type cells. With overlapping groups a row keeps only the last group's value, and the property can fail.
- Demeaning.DemeanIdempotent: proved under the same one-group-per-row condition.
- CellExclusion.RulesAgree: proved only for a 0/1 indicator matrix and distinct labels. The point rule's `tolist()[0]` fails on a column with no 1 that sums to one, which 0/1 entries rule out.
- Selection.ProdParamsInPairOrder: assumes each mask lists its pair's product term exactly once. The product term is the unpenalised regressor, so the fit keeps it; that is not proved here.
- Replication.TypeMask: the label test `h{i+1}` is modelled as a test on the type. With ten or more types, `h1` would also match `h10`; the model assumes fewer than ten types, as in the configuration of three.
