/** Exclusion of singleton group x type cells before estimation.

    `gt` is the N x C matrix of cell indicators (one column per province-year
    x household-type cell) and `labels` the original row label of every
    observation. In a bootstrap sample a row may be drawn several times, so
    labels repeat. The bootstrap rule (scale_econs_bootstrap_lasso.py:235-256)
    excludes a cell when its members carry exactly one distinct label, and
    then drops every row of every excluded cell from the data, the group
    indicators g, the type indicators t and gt alike. The rule used for the
    point estimate (lines 623-637) excludes a cell when its column sums to
    one, and drops the first row of that column. */
module CellExclusion {
  import opened Numerics

  /** Every entry of gt is an indicator, 0 or 1, as the products of dummies
      that build it are. */
  ghost predicate ZeroOne(gt: Matrix) {
    forall r, c :: 0 <= r < |gt| && 0 <= c < |gt[r]| ==> gt[r][c] == 0.0 || gt[r][c] == 1.0
  }

  /** A row sits in at most one cell, as an observation of one province-year
      and one household type does. */
  ghost predicate AtMostOneCell(gt: Matrix) {
    forall r, c1, c2 ::
      0 <= r < |gt| && 0 <= c1 < |gt[r]| && 0 <= c2 < |gt[r]| && gt[r][c1] == 1.0 && gt[r][c2] == 1.0
      ==> c1 == c2
  }

  /** No label is carried by two rows, as in the original (not resampled)
      sample. */
  ghost predicate DistinctLabels(labels: seq<nat>) {
    forall r1, r2 :: 0 <= r1 < |labels| && 0 <= r2 < |labels| && labels[r1] == labels[r2] ==> r1 == r2
  }

  /** `gt.index[gt[c] == 1]`: the rows among the first n that are in cell c,
      ascending. */
  function CellRows(gt: Matrix, c: nat, n: nat): (rows: seq<nat>)
    requires n <= |gt| && HasColumn(gt, c)
    ensures Increasing(rows)
    ensures forall r: nat :: r in rows <==> r < n && gt[r][c] == 1.0
  {
    if n == 0 then []
    else
      var prev := CellRows(gt, c, n - 1);
      if gt[n - 1][c] == 1.0 then AppendIncreasing(prev, n - 1); prev + [n - 1] else prev
  }

  /** The distinct labels of the members of cell c among the first n rows. */
  ghost function LabelsOf(labels: seq<nat>, gt: Matrix, c: nat, n: nat): (s: set<nat>)
    requires n <= |gt| == |labels| && HasColumn(gt, c)
    ensures forall x :: x in s <==> exists r :: 0 <= r < n && gt[r][c] == 1.0 && labels[r] == x
  {
    if n == 0 then {}
    else
      var prev := LabelsOf(labels, gt, c, n - 1);
      if gt[n - 1][c] == 1.0 then prev + {labels[n - 1]} else prev
  }

  /** `np.unique(gt[c][gt[c] == 1].index)` as a set. */
  ghost function CellLabels(labels: seq<nat>, gt: Matrix, c: nat): set<nat>
    requires |gt| == |labels| && HasColumn(gt, c)
  {
    LabelsOf(labels, gt, c, |gt|)
  }

  /** The bootstrap rule: among the first m cells, those whose members carry
      exactly one distinct label, ascending. */
  ghost function BootExcluded(labels: seq<nat>, gt: Matrix, cells: nat, m: nat): (ex: seq<nat>)
    requires |gt| == |labels| && IsMatrix(gt, |gt|, cells) && m <= cells
    ensures Increasing(ex)
    ensures forall c: nat :: c in ex <==> c < m && |CellLabels(labels, gt, c)| == 1
  {
    if m == 0 then []
    else
      var prev := BootExcluded(labels, gt, cells, m - 1);
      if |CellLabels(labels, gt, m - 1)| == 1 then AppendIncreasing(prev, m - 1); prev + [m - 1] else prev
  }

  /** Collects the distinct labels of cell c. */
  method CollectLabels(labels: seq<nat>, gt: Matrix, c: nat) returns (s: set<nat>)
    requires |gt| == |labels| && HasColumn(gt, c)
    ensures s == CellLabels(labels, gt, c)
  {
    s := {};
    for r := 0 to |gt|
      invariant s == LabelsOf(labels, gt, c, r)
    {
      if gt[r][c] == 1.0 {
        s := s + {labels[r]};
      }
    }
  }

  /** `gt_excluded`: the cells with a single distinct label, in column order. */
  method ExcludedCells(labels: seq<nat>, gt: Matrix, cells: nat) returns (ex: seq<nat>)
    requires |gt| == |labels| && IsMatrix(gt, |gt|, cells)
    ensures ex == BootExcluded(labels, gt, cells, cells)
  {
    ex := [];
    for c := 0 to cells
      invariant ex == BootExcluded(labels, gt, cells, c)
    {
      var s := CollectLabels(labels, gt, c);
      if |s| == 1 {
        ex := ex + [c];
      }
    }
  }

  /** `sum([gt.index[gt[c] == 1].tolist() for c in ex], [])`: the rows of the
      listed cells, cell by cell. */
  function RowsOf(gt: Matrix, cells: nat, ex: seq<nat>): (rows: seq<nat>)
    requires IsMatrix(gt, |gt|, cells) && forall k :: 0 <= k < |ex| ==> ex[k] < cells
    ensures forall r: nat :: r in rows <==> r < |gt| && exists k :: 0 <= k < |ex| && gt[r][ex[k]] == 1.0
  {
    if ex == [] then []
    else
      var prev := RowsOf(gt, cells, ex[..|ex| - 1]);
      assert forall r: nat :: r in prev <==> r < |gt| && exists k :: 0 <= k < |ex| - 1 && gt[r][ex[k]] == 1.0;
      prev + CellRows(gt, ex[|ex| - 1], |gt|)
  }

  /** The members of cell c, collected row by row. */
  method CellMembers(gt: Matrix, c: nat) returns (rows: seq<nat>)
    requires HasColumn(gt, c)
    ensures rows == CellRows(gt, c, |gt|)
  {
    rows := [];
    for r := 0 to |gt|
      invariant rows == CellRows(gt, c, r)
    {
      if gt[r][c] == 1.0 {
        rows := rows + [r];
      }
    }
  }

  /** Builds `idx_excluded` with a loop over the excluded cells. */
  method ExcludedRows(gt: Matrix, cells: nat, ex: seq<nat>) returns (rows: seq<nat>)
    requires IsMatrix(gt, |gt|, cells) && forall k :: 0 <= k < |ex| ==> ex[k] < cells
    ensures rows == RowsOf(gt, cells, ex)
  {
    rows := [];
    for k := 0 to |ex|
      invariant rows == RowsOf(gt, cells, ex[..k])
    {
      var members := CellMembers(gt, ex[k]);
      RowsOfStep(gt, cells, ex, k);
      rows := rows + members;
    }
    assert ex[..|ex|] == ex;
  }

  lemma RowsOfStep(gt: Matrix, cells: nat, ex: seq<nat>, k: nat)
    requires IsMatrix(gt, |gt|, cells) && forall k :: 0 <= k < |ex| ==> ex[k] < cells
    requires k < |ex|
    ensures RowsOf(gt, cells, ex[..k + 1]) == RowsOf(gt, cells, ex[..k]) + CellRows(gt, ex[k], |gt|)
  {
    assert ex[..k + 1][..k] == ex[..k];
  }

  /** `drop(rows).reset_index(drop=True)` / `np.delete(x, rows, 0)`: removes
      the entries at the listed positions and closes the gaps. */
  function DropRows<T>(s: seq<T>, drop: seq<nat>): seq<T>
  {
    if s == [] then []
    else DropRows(s[..|s| - 1], drop) + (if |s| - 1 in drop then [] else [s[|s| - 1]])
  }

  /** The positions 0 .. n-1. */
  function Range(n: nat): (r: seq<nat>)
    ensures |r| == n && forall i :: 0 <= i < n ==> r[i] == i
  {
    seq(n, i requires 0 <= i < n => i)
  }

  /** The positions that survive the drop, in their original order. */
  function Kept(n: nat, drop: seq<nat>): seq<nat>
  {
    DropRows(Range(n), drop)
  }

  lemma {:induction false} KeptSpec(n: nat, drop: seq<nat>)
    ensures Increasing(Kept(n, drop))
    ensures forall p: nat :: p in Kept(n, drop) <==> p < n && p !in drop
    decreases n
  {
    if n > 0 {
      assert Range(n)[..n - 1] == Range(n - 1);
      assert Kept(n, drop) == Kept(n - 1, drop) + (if n - 1 in drop then [] else [n - 1]);
      KeptSpec(n - 1, drop);
      if n - 1 !in drop {
        AppendIncreasing(Kept(n - 1, drop), n - 1);
      }
    }
  }

  /** Every array is cut at the same positions: entry k of the cut sequence
      is the entry of the original at the k-th surviving position. */
  lemma {:induction false} DropRowsAt<T>(s: seq<T>, drop: seq<nat>)
    ensures |DropRows(s, drop)| == |Kept(|s|, drop)|
    ensures forall k :: 0 <= k < |DropRows(s, drop)| ==>
      Kept(|s|, drop)[k] < |s| && DropRows(s, drop)[k] == s[Kept(|s|, drop)[k]]
    decreases |s|
  {
    KeptSpec(|s|, drop);
    if s != [] {
      var n := |s| - 1;
      assert Range(n + 1)[..n] == Range(n);
      DropRowsAt(s[..n], drop);
    }
  }

  /** The data, g, t and gt are cut together: the k-th surviving row of each
      comes from the same original row. */
  lemma ParallelCut<A, B>(a: seq<A>, b: seq<B>, drop: seq<nat>, k: nat)
    requires |a| == |b| && k < |DropRows(a, drop)|
    ensures |DropRows(b, drop)| == |DropRows(a, drop)| == |Kept(|a|, drop)|
    ensures Kept(|a|, drop)[k] < |a|
    ensures DropRows(a, drop)[k] == a[Kept(|a|, drop)[k]]
    ensures DropRows(b, drop)[k] == b[Kept(|a|, drop)[k]]
  {
    DropRowsAt(a, drop);
    DropRowsAt(b, drop);
  }

  /** Dropping depends only on which positions are listed. */
  lemma {:induction false} DropSameMembers<T>(s: seq<T>, d1: seq<nat>, d2: seq<nat>)
    requires forall r :: r < |s| ==> (r in d1 <==> r in d2)
    ensures DropRows(s, d1) == DropRows(s, d2)
    decreases |s|
  {
    if s != [] {
      DropSameMembers(s[..|s| - 1], d1, d2);
    }
  }

  /** The rows the bootstrap rule removes: those in some excluded cell. */
  ghost function BootDrop(labels: seq<nat>, gt: Matrix, cells: nat): seq<nat>
    requires |gt| == |labels| && IsMatrix(gt, |gt|, cells)
  {
    var ex := BootExcluded(labels, gt, cells, cells);
    assert forall k :: 0 <= k < |ex| ==> ex[k] in ex;
    RowsOf(gt, cells, ex)
  }

  /** A row survives exactly when it belongs to no excluded cell: all rows of
      excluded cells go, and only those. */
  lemma BootSurvivors(labels: seq<nat>, gt: Matrix, cells: nat, r: nat)
    requires |gt| == |labels| && IsMatrix(gt, |gt|, cells) && r < |gt|
    ensures r in Kept(|gt|, BootDrop(labels, gt, cells)) <==>
      forall c :: 0 <= c < cells && |CellLabels(labels, gt, c)| == 1 ==> gt[r][c] != 1.0
  {
    var ex := BootExcluded(labels, gt, cells, cells);
    KeptSpec(|gt|, BootDrop(labels, gt, cells));
    assert forall k :: 0 <= k < |ex| ==> ex[k] in ex;
    if r in BootDrop(labels, gt, cells) {
      var k :| 0 <= k < |ex| && gt[r][ex[k]] == 1.0;
      assert ex[k] in ex;
    } else {
      forall c | 0 <= c < cells && |CellLabels(labels, gt, c)| == 1
        ensures gt[r][c] != 1.0
      {
        assert c in ex;
        var k :| 0 <= k < |ex| && ex[k] == c;
      }
    }
  }

  /** Cutting rows keeps the shape of gt and its agreement with labels. */
  lemma DroppedShape(labels: seq<nat>, gt: Matrix, cells: nat, drop: seq<nat>)
    requires |gt| == |labels| && IsMatrix(gt, |gt|, cells)
    ensures IsMatrix(DropRows(gt, drop), |DropRows(labels, drop)|, cells)
  {
    DropRowsAt(gt, drop);
    DropRowsAt(labels, drop);
  }

  /** With every row in at most one cell, no cell that is still present
      after the exclusion is a singleton: each has no members or members with
      at least two distinct labels. */
  lemma NoSingletonSurvives(labels: seq<nat>, gt: Matrix, cells: nat, c: nat)
    requires |gt| == |labels| && IsMatrix(gt, |gt|, cells) && AtMostOneCell(gt) && c < cells
    ensures IsMatrix(DropRows(gt, BootDrop(labels, gt, cells)), |DropRows(labels, BootDrop(labels, gt, cells))|, cells)
    ensures |CellLabels(DropRows(labels, BootDrop(labels, gt, cells)), DropRows(gt, BootDrop(labels, gt, cells)), c)| != 1
  {
    DroppedShape(labels, gt, cells, BootDrop(labels, gt, cells));
    if |CellLabels(labels, gt, c)| == 1 {
      SingletonCellEmptied(labels, gt, cells, c);
    } else {
      OtherCellKept(labels, gt, cells, c);
    }
  }

  /** Every member of an excluded cell is dropped, so nothing of it is left. */
  lemma SingletonCellEmptied(labels: seq<nat>, gt: Matrix, cells: nat, c: nat)
    requires |gt| == |labels| && IsMatrix(gt, |gt|, cells) && c < cells
    requires |CellLabels(labels, gt, c)| == 1
    ensures IsMatrix(DropRows(gt, BootDrop(labels, gt, cells)), |DropRows(labels, BootDrop(labels, gt, cells))|, cells)
    ensures CellLabels(DropRows(labels, BootDrop(labels, gt, cells)), DropRows(gt, BootDrop(labels, gt, cells)), c) == {}
  {
    var drop := BootDrop(labels, gt, cells);
    var kept := Kept(|gt|, drop);
    var gt', labels' := DropRows(gt, drop), DropRows(labels, drop);
    DropRowsAt(gt, drop);
    DropRowsAt(labels, drop);
    var after := CellLabels(labels', gt', c);
    forall x | x in after ensures false {
      var k :| 0 <= k < |gt'| && gt'[k][c] == 1.0 && labels'[k] == x;
      BootSurvivors(labels, gt, cells, kept[k]);
    }
  }

  /** With every row in at most one cell, no member of a cell that is not
      excluded is dropped, so its labels are those it had. */
  lemma OtherCellKept(labels: seq<nat>, gt: Matrix, cells: nat, c: nat)
    requires |gt| == |labels| && IsMatrix(gt, |gt|, cells) && AtMostOneCell(gt) && c < cells
    requires |CellLabels(labels, gt, c)| != 1
    ensures IsMatrix(DropRows(gt, BootDrop(labels, gt, cells)), |DropRows(labels, BootDrop(labels, gt, cells))|, cells)
    ensures CellLabels(DropRows(labels, BootDrop(labels, gt, cells)), DropRows(gt, BootDrop(labels, gt, cells)), c)
         == CellLabels(labels, gt, c)
  {
    var drop := BootDrop(labels, gt, cells);
    DropKeepsLabelsWithin(labels, gt, cells, c, drop);
    var after := CellLabels(DropRows(labels, drop), DropRows(gt, drop), c);
    var before := CellLabels(labels, gt, c);
    forall x | x in before
      ensures x in after
    {
      var r :| 0 <= r < |gt| && gt[r][c] == 1.0 && labels[r] == x;
      MemberSurvives(labels, gt, cells, c, r);
    }
  }

  /** Cutting rows never adds a label to a cell. */
  lemma DropKeepsLabelsWithin(labels: seq<nat>, gt: Matrix, cells: nat, c: nat, drop: seq<nat>)
    requires |gt| == |labels| && IsMatrix(gt, |gt|, cells) && c < cells
    ensures IsMatrix(DropRows(gt, drop), |DropRows(labels, drop)|, cells)
    ensures CellLabels(DropRows(labels, drop), DropRows(gt, drop), c) <= CellLabels(labels, gt, c)
  {
    DropRowsAt(gt, drop);
    DropRowsAt(labels, drop);
    var gt', labels' := DropRows(gt, drop), DropRows(labels, drop);
    forall x | x in CellLabels(labels', gt', c)
      ensures x in CellLabels(labels, gt, c)
    {
      var k :| 0 <= k < |gt'| && gt'[k][c] == 1.0 && labels'[k] == x;
      var r := Kept(|gt|, drop)[k];
      assert gt[r][c] == 1.0 && labels[r] == x;
    }
  }

  /** A member of a cell that is not excluded survives the cut with its
      label, when every row is in at most one cell. */
  lemma MemberSurvives(labels: seq<nat>, gt: Matrix, cells: nat, c: nat, r: nat)
    requires |gt| == |labels| && IsMatrix(gt, |gt|, cells) && AtMostOneCell(gt) && c < cells
    requires |CellLabels(labels, gt, c)| != 1 && r < |gt| && gt[r][c] == 1.0
    ensures IsMatrix(DropRows(gt, BootDrop(labels, gt, cells)), |DropRows(labels, BootDrop(labels, gt, cells))|, cells)
    ensures labels[r] in CellLabels(DropRows(labels, BootDrop(labels, gt, cells)), DropRows(gt, BootDrop(labels, gt, cells)), c)
  {
    var drop := BootDrop(labels, gt, cells);
    DropRowsAt(gt, drop);
    DropRowsAt(labels, drop);
    KeptSpec(|gt|, drop);
    BootSurvivors(labels, gt, cells, r);
    var kept := Kept(|gt|, drop);
    var k :| 0 <= k < |kept| && kept[k] == r;
    assert DropRows(gt, drop)[k][c] == 1.0 && DropRows(labels, drop)[k] == labels[r];
  }

  /** For an indicator column the sum counts the members. */
  lemma {:induction false} ColSumCounts(gt: Matrix, c: nat, n: nat)
    requires HasColumn(gt, c) && ZeroOne(gt) && n <= |gt|
    ensures Sum(seq(n, r requires 0 <= r < n => gt[r][c])) == |CellRows(gt, c, n)| as real
    decreases n
  {
    if n > 0 {
      var col := seq(n, r requires 0 <= r < n => gt[r][c]);
      assert col[..n - 1] == seq(n - 1, r requires 0 <= r < n - 1 => gt[r][c]);
      ColSumCounts(gt, c, n - 1);
    }
  }

  /** The point-estimate rule: among the first m cells, those whose column
      sums to one, ascending. */
  function PointExcluded(gt: Matrix, cells: nat, m: nat): (ex: seq<nat>)
    requires IsMatrix(gt, |gt|, cells) && m <= cells
    ensures Increasing(ex)
    ensures forall c: nat :: c in ex <==> c < m && ColSum(gt, c) == 1.0
  {
    if m == 0 then []
    else
      var prev := PointExcluded(gt, cells, m - 1);
      if ColSum(gt, m - 1) == 1.0 then AppendIncreasing(prev, m - 1); prev + [m - 1] else prev
  }

  /** `gt.index[gt[c] == 1].tolist()[0]`: the first member of cell c. */
  function FirstRow(gt: Matrix, c: nat): (r: nat)
    requires HasColumn(gt, c) && CellRows(gt, c, |gt|) != []
    ensures r < |gt| && gt[r][c] == 1.0
    ensures forall q :: 0 <= q < r ==> gt[q][c] != 1.0
  {
    var rows := CellRows(gt, c, |gt|);
    assert rows[0] in rows;
    assert forall q :: 0 <= q < rows[0] ==> q !in rows by {
      forall q | q in rows ensures rows[0] <= q {
        var k :| 0 <= k < |rows| && rows[k] == q;
      }
    }
    rows[0]
  }

  /** The rows the point rule removes: the first member of each excluded
      cell. */
  function PointDrop(gt: Matrix, cells: nat): (rows: seq<nat>)
    requires IsMatrix(gt, |gt|, cells) && ZeroOne(gt)
    ensures |rows| == |PointExcluded(gt, cells, cells)|
  {
    var ex := PointExcluded(gt, cells, cells);
    seq(|ex|, k requires 0 <= k < |ex| =>
      assert ex[k] in ex;
      ColSumCounts(gt, ex[k], |gt|);
      FirstRow(gt, ex[k]))
  }

  /** For an indicator cell the point rule's only row is the whole cell. */
  lemma PointRowIsCell(gt: Matrix, cells: nat, c: nat)
    requires IsMatrix(gt, |gt|, cells) && ZeroOne(gt) && c < cells && ColSum(gt, c) == 1.0
    ensures |CellRows(gt, c, |gt|)| == 1 && CellRows(gt, c, |gt|) == [FirstRow(gt, c)]
  {
    ColSumCounts(gt, c, |gt|);
    var rows := CellRows(gt, c, |gt|);
    assert rows[0] in rows;
  }

  /** With distinct labels a cell's distinct labels are as many as its
      members. */
  lemma {:induction false} LabelsCountRows(labels: seq<nat>, gt: Matrix, c: nat, n: nat)
    requires n <= |gt| == |labels| && HasColumn(gt, c) && DistinctLabels(labels)
    ensures |LabelsOf(labels, gt, c, n)| == |CellRows(gt, c, n)|
    decreases n
  {
    if n > 0 {
      LabelsCountRows(labels, gt, c, n - 1);
      var prev := LabelsOf(labels, gt, c, n - 1);
      if gt[n - 1][c] == 1.0 {
        LabelNotEarlier(labels, gt, c, n - 1);
        assert LabelsOf(labels, gt, c, n) == prev + {labels[n - 1]};
        assert CellRows(gt, c, n) == CellRows(gt, c, n - 1) + [n - 1];
        CardAddNew(prev, labels[n - 1]);
      } else {
        assert LabelsOf(labels, gt, c, n) == prev;
        assert CellRows(gt, c, n) == CellRows(gt, c, n - 1);
      }
    }
  }

  lemma CardAddNew(s: set<nat>, x: nat)
    requires x !in s
    ensures |s + {x}| == |s| + 1
  {
  }

  /** With distinct labels, row n's label is not among those of the rows
      before it. */
  lemma LabelNotEarlier(labels: seq<nat>, gt: Matrix, c: nat, n: nat)
    requires n < |gt| == |labels| && HasColumn(gt, c) && DistinctLabels(labels)
    ensures labels[n] !in LabelsOf(labels, gt, c, n)
  {
    forall r | 0 <= r < n
      ensures labels[r] != labels[n]
    {
    }
  }

  /** On the original sample (distinct labels, indicator cells) the two
      rules exclude the same cells ... */
  lemma RulesAgreeOnCells(labels: seq<nat>, gt: Matrix, cells: nat, m: nat)
    requires |gt| == |labels| && IsMatrix(gt, |gt|, cells) && m <= cells
    requires ZeroOne(gt) && DistinctLabels(labels)
    ensures BootExcluded(labels, gt, cells, m) == PointExcluded(gt, cells, m)
  {
    forall c | 0 <= c < m
      ensures |CellLabels(labels, gt, c)| == 1 <==> ColSum(gt, c) == 1.0
    {
      SingletonIffSumOne(labels, gt, cells, c);
    }
    SameVerdictsSameCells(labels, gt, cells, m);
  }

  /** Two rules that pass the same verdict on each of the first m cells
      exclude the same cells. */
  lemma {:induction false} SameVerdictsSameCells(labels: seq<nat>, gt: Matrix, cells: nat, m: nat)
    requires |gt| == |labels| && IsMatrix(gt, |gt|, cells) && m <= cells
    requires forall c :: 0 <= c < m ==> (|CellLabels(labels, gt, c)| == 1 <==> ColSum(gt, c) == 1.0)
    ensures BootExcluded(labels, gt, cells, m) == PointExcluded(gt, cells, m)
    decreases m
  {
    if m > 0 {
      SameVerdictsSameCells(labels, gt, cells, m - 1);
      BootStep(labels, gt, cells, m);
      PointStep(gt, cells, m);
    }
  }

  /** One cell: a single distinct label exactly when the column sums to one. */
  lemma SingletonIffSumOne(labels: seq<nat>, gt: Matrix, cells: nat, c: nat)
    requires |gt| == |labels| && IsMatrix(gt, |gt|, cells) && c < cells
    requires ZeroOne(gt) && DistinctLabels(labels)
    ensures |CellLabels(labels, gt, c)| == 1 <==> ColSum(gt, c) == 1.0
  {
    LabelsCountRows(labels, gt, c, |gt|);
    ColSumCounts(gt, c, |gt|);
  }

  lemma BootStep(labels: seq<nat>, gt: Matrix, cells: nat, m: nat)
    requires |gt| == |labels| && IsMatrix(gt, |gt|, cells) && 0 < m <= cells
    ensures BootExcluded(labels, gt, cells, m)
         == BootExcluded(labels, gt, cells, m - 1) + (if |CellLabels(labels, gt, m - 1)| == 1 then [m - 1] else [])
  {
  }

  lemma PointStep(gt: Matrix, cells: nat, m: nat)
    requires IsMatrix(gt, |gt|, cells) && 0 < m <= cells
    ensures PointExcluded(gt, cells, m)
         == PointExcluded(gt, cells, m - 1) + (if ColSum(gt, m - 1) == 1.0 then [m - 1] else [])
  {
  }

  /** ... and drop the same rows, so every array is cut identically. */
  lemma RulesAgree<T>(labels: seq<nat>, gt: Matrix, cells: nat, s: seq<T>)
    requires |gt| == |labels| && IsMatrix(gt, |gt|, cells)
    requires ZeroOne(gt) && DistinctLabels(labels)
    ensures forall r :: r in BootDrop(labels, gt, cells) <==> r in PointDrop(gt, cells)
    ensures DropRows(s, BootDrop(labels, gt, cells)) == DropRows(s, PointDrop(gt, cells))
  {
    forall r ensures r in BootDrop(labels, gt, cells) <==> r in PointDrop(gt, cells) {
      if r in BootDrop(labels, gt, cells) {
        BootDropInPoint(labels, gt, cells, r);
      }
      if r in PointDrop(gt, cells) {
        PointDropInBoot(labels, gt, cells, r);
      }
    }
    DropSameMembers(s, BootDrop(labels, gt, cells), PointDrop(gt, cells));
  }

  lemma BootDropInPoint(labels: seq<nat>, gt: Matrix, cells: nat, r: nat)
    requires |gt| == |labels| && IsMatrix(gt, |gt|, cells)
    requires ZeroOne(gt) && DistinctLabels(labels)
    requires r in BootDrop(labels, gt, cells)
    ensures r in PointDrop(gt, cells)
  {
    var ex := PointExcluded(gt, cells, cells);
    RulesAgreeOnCells(labels, gt, cells, cells);
    assert forall k :: 0 <= k < |ex| ==> ex[k] in ex;
    var k :| 0 <= k < |ex| && gt[r][ex[k]] == 1.0;
    assert ex[k] in ex;
    PointDropAt(gt, cells, k, ex[k], r);
  }

  /** The point rule drops the one member of the k-th excluded cell. */
  lemma PointDropAt(gt: Matrix, cells: nat, k: nat, c: nat, r: nat)
    requires IsMatrix(gt, |gt|, cells) && ZeroOne(gt)
    requires k < |PointExcluded(gt, cells, cells)| && c == PointExcluded(gt, cells, cells)[k]
    requires c < cells && r < |gt| && gt[r][c] == 1.0
    ensures PointDrop(gt, cells)[k] == r
  {
    var ex := PointExcluded(gt, cells, cells);
    assert ex[k] in ex;
    PointRowIsCell(gt, cells, c);
    assert r in CellRows(gt, c, |gt|);
  }

  lemma PointDropInBoot(labels: seq<nat>, gt: Matrix, cells: nat, r: nat)
    requires |gt| == |labels| && IsMatrix(gt, |gt|, cells)
    requires ZeroOne(gt) && DistinctLabels(labels)
    requires r in PointDrop(gt, cells)
    ensures r in BootDrop(labels, gt, cells)
  {
    var ex := PointExcluded(gt, cells, cells);
    RulesAgreeOnCells(labels, gt, cells, cells);
    assert forall k :: 0 <= k < |ex| ==> ex[k] in ex;
    var pd := PointDrop(gt, cells);
    var k :| 0 <= k < |pd| && pd[k] == r;
    assert ex[k] in ex;
    assert r < |gt| && gt[r][ex[k]] == 1.0;
  }

  /** Where they differ: one original row drawn twice into the same cell is
      a singleton for the bootstrap rule (one distinct label) but not for the
      point rule (its column sums to two). */
  lemma RepeatedDrawDiffers()
    ensures BootExcluded([4, 4], [[1.0], [1.0]], 1, 1) == [0]
    ensures PointExcluded([[1.0], [1.0]], 1, 1) == []
  {
    var gt: Matrix := [[1.0], [1.0]];
    assert CellLabels([4, 4], gt, 0) == {4};
    assert ColSum(gt, 0) == 2.0 by {
      var col := seq(2, r requires 0 <= r < 2 => gt[r][0]);
      assert col == [1.0, 1.0];
      assert col[..1] == [1.0] && [1.0][..0] == [];
      assert Sum([1.0]) == 1.0;
    }
  }
}
