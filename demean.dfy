/** Group demeaning (`demean`, scale_econs_bootstrap_lasso.py:23-48) and its
    inline one-column copy that demeans the fitted residuals (lines 322-333).

    Groups arrive in the sparse form `csr_array(indicators).nonzero()`: a pair
    of equally long vectors, entry k saying that row `rows[k]` belongs to group
    `groups[k]`. Groups are visited in `np.unique` order (ascending id); a row
    listed under several groups therefore ends up demeaned by the LAST of them,
    the largest id, and a row listed under none keeps the zero it started
    with. */
module Demeaning {
  import opened Numerics

  /** The pair (gt[0], gt[1]) of row and group indices. */
  datatype GroupIndex = GroupIndex(rows: seq<nat>, groups: seq<nat>)

  ghost predicate ValidIndex(gt: GroupIndex, n: nat) {
    |gt.rows| == |gt.groups| && forall k :: 0 <= k < |gt.rows| ==> gt.rows[k] < n
  }

  /** Row r is listed under group g. */
  ghost predicate Listed(gt: GroupIndex, r: nat, g: nat) {
    exists k :: 0 <= k < |gt.rows| && k < |gt.groups| && gt.rows[k] == r && gt.groups[k] == g
  }

  /** Every row is listed at most once, as it is for the one-hot group x type
      indicators the estimation builds. */
  ghost predicate ListedOnce(gt: GroupIndex) {
    forall k1, k2 :: 0 <= k1 < |gt.rows| && 0 <= k2 < |gt.rows| && gt.rows[k1] == gt.rows[k2] ==> k1 == k2
  }

  /** Inserts x into an ascending list of distinct ids. */
  function Insert(u: seq<nat>, x: nat): (w: seq<nat>)
    requires Increasing(u)
    ensures Increasing(w)
    ensures forall y :: y in w <==> y in u || y == x
  {
    if u == [] then [x]
    else if x < u[0] then [x] + u
    else if x == u[0] then u
    else
      var w := Insert(u[1..], x);
      assert forall y :: y in w ==> u[0] < y;
      [u[0]] + w
  }

  /** `np.unique`: the distinct values, ascending. */
  function Unique(s: seq<nat>): (u: seq<nat>)
    ensures Increasing(u)
    ensures forall y :: y in u <==> y in s
  {
    if s == [] then [] else Insert(Unique(s[..|s| - 1]), s[|s| - 1])
  }

  /** `gt[0][np.where(gt[1] == g)]`: the rows of group g, in entry order. */
  function Members(gt: GroupIndex, g: nat): (idx: seq<nat>)
    requires |gt.rows| == |gt.groups|
    ensures forall r :: r in idx <==> Listed(gt, r, g)
    decreases |gt.rows|
  {
    if gt.rows == [] then []
    else
      var n := |gt.rows| - 1;
      var prefix := GroupIndex(gt.rows[..n], gt.groups[..n]);
      assert forall r :: Listed(prefix, r, g) ==> Listed(gt, r, g) by {
        forall r | Listed(prefix, r, g) ensures Listed(gt, r, g) {
          var k :| 0 <= k < n && prefix.rows[k] == r && prefix.groups[k] == g;
          assert gt.rows[k] == r && gt.groups[k] == g;
        }
      }
      assert forall r :: Listed(gt, r, g) ==> Listed(prefix, r, g) || (gt.rows[n] == r && gt.groups[n] == g) by {
        forall r | Listed(gt, r, g) ensures Listed(prefix, r, g) || (gt.rows[n] == r && gt.groups[n] == g) {
          var k :| 0 <= k < |gt.rows| && gt.rows[k] == r && gt.groups[k] == g;
          if k < n { assert prefix.rows[k] == r && prefix.groups[k] == g; }
        }
      }
      Members(prefix, g) + (if gt.groups[n] == g then [gt.rows[n]] else [])
  }

  /** The largest group id listed for row r, or -1 when no group lists r. */
  function LastGroupOf(gt: GroupIndex, r: nat): (g: int)
    requires |gt.rows| == |gt.groups|
    ensures -1 <= g
    ensures g >= 0 ==> Listed(gt, r, g as nat)
    ensures forall h: nat :: Listed(gt, r, h) ==> h <= g
    decreases |gt.rows|
  {
    if gt.rows == [] then -1
    else
      var n := |gt.rows| - 1;
      var prefix := GroupIndex(gt.rows[..n], gt.groups[..n]);
      var rest := LastGroupOf(prefix, r);
      assert forall h: nat :: Listed(gt, r, h) ==> Listed(prefix, r, h) || (gt.rows[n] == r && gt.groups[n] == h) by {
        forall h | Listed(gt, r, h) ensures Listed(prefix, r, h) || (gt.rows[n] == r && gt.groups[n] == h) {
          var k :| 0 <= k < |gt.rows| && gt.rows[k] == r && gt.groups[k] == h;
          if k < n { assert prefix.rows[k] == r && prefix.groups[k] == h; }
        }
      }
      assert rest >= 0 ==> Listed(gt, r, rest as nat) by {
        if rest >= 0 {
          var k :| 0 <= k < n && prefix.rows[k] == r && prefix.groups[k] == rest as nat;
          assert gt.rows[k] == r && gt.groups[k] == rest;
        }
      }
      if gt.rows[n] == r && gt.groups[n] as int > rest then gt.groups[n] else rest
  }

  /** Column j of v restricted to the rows idx, in the order idx lists them. */
  function Column(v: Matrix, p: nat, idx: seq<nat>, j: nat): (c: seq<real>)
    requires IsMatrix(v, |v|, p) && j < p
    requires forall k :: 0 <= k < |idx| ==> idx[k] < |v|
    ensures |c| == |idx| && forall k :: 0 <= k < |idx| ==> c[k] == v[idx[k]][j]
  {
    seq(|idx|, k requires 0 <= k < |idx| => v[idx[k]][j])
  }

  /** Mean of column j over the rows idx. */
  function ColMean(v: Matrix, p: nat, idx: seq<nat>, j: nat): real
    requires IsMatrix(v, |v|, p) && idx != [] && j < p
    requires forall k :: 0 <= k < |idx| ==> idx[k] < |v|
  {
    Sum(Column(v, p, idx, j)) / (|idx| as real)
  }

  /** `var[index, :].mean(axis=0)`. */
  function ColMeans(v: Matrix, p: nat, idx: seq<nat>): (m: seq<real>)
    requires IsMatrix(v, |v|, p) && idx != []
    requires forall k :: 0 <= k < |idx| ==> idx[k] < |v|
    ensures |m| == p && forall j :: 0 <= j < p ==> m[j] == ColMean(v, p, idx, j)
  {
    seq(p, j requires 0 <= j < p => ColMean(v, p, idx, j))
  }

  /** Elementwise x - m. */
  function RowMinus(x: seq<real>, m: seq<real>): (d: seq<real>)
    requires |x| == |m|
    ensures |d| == |x| && forall j :: 0 <= j < |x| ==> d[j] == x[j] - m[j]
  {
    seq(|x|, j requires 0 <= j < |x| => x[j] - m[j])
  }

  /** The value row r takes once group g (or no group, g < 0) has written it. */
  function RowFor(v: Matrix, p: nat, gt: GroupIndex, g: int, r: nat): (row: seq<real>)
    requires IsMatrix(v, |v|, p) && ValidIndex(gt, |v|) && r < |v|
    requires g >= 0 ==> Listed(gt, r, g as nat)
    ensures |row| == p
  {
    if g < 0 then Zeros(p)
    else
      var idx := Members(gt, g as nat);
      assert r in idx;
      assert forall k :: 0 <= k < |idx| ==> idx[k] < |v| by {
        forall k | 0 <= k < |idx| ensures idx[k] < |v| {
          assert Listed(gt, idx[k], g as nat);
        }
      }
      RowMinus(v[r], ColMeans(v, p, idx))
  }

  /** What `demean(var, gt)` returns: each row demeaned by the last group that
      lists it, zero when none does. */
  function DemeanSpec(v: Matrix, p: nat, gt: GroupIndex): (out: Matrix)
    requires IsMatrix(v, |v|, p) && ValidIndex(gt, |v|)
    ensures IsMatrix(out, |v|, p)
  {
    seq(|v|, r requires 0 <= r < |v| => RowFor(v, p, gt, LastGroupOf(gt, r), r))
  }

  /** The last id of `ids` whose group lists row r, or -1. */
  ghost function LastIn(gt: GroupIndex, ids: seq<nat>, r: nat): (g: int)
    requires Increasing(ids)
    ensures -1 <= g
    ensures g >= 0 ==> g in ids && Listed(gt, r, g as nat)
    ensures forall h: nat :: h in ids && Listed(gt, r, h) ==> h <= g
    decreases |ids|
  {
    if ids == [] then -1
    else if Listed(gt, r, ids[|ids| - 1]) then ids[|ids| - 1]
    else
      var rest := LastIn(gt, ids[..|ids| - 1], r);
      assert forall h :: h in ids ==> h in ids[..|ids| - 1] || h == ids[|ids| - 1];
      rest
  }

  /** Visiting every group id in ascending order leaves each row with the
      largest group that lists it. */
  lemma LastInUnique(gt: GroupIndex, r: nat)
    requires |gt.rows| == |gt.groups|
    ensures LastIn(gt, Unique(gt.groups), r) == LastGroupOf(gt, r)
  {
    var ids := Unique(gt.groups);
    var a, b := LastIn(gt, ids, r), LastGroupOf(gt, r);
    if b >= 0 {
      var k :| 0 <= k < |gt.rows| && gt.rows[k] == r && gt.groups[k] == b as nat;
      assert gt.groups[k] in gt.groups;
    }
    if a >= 0 {
      assert Listed(gt, r, a as nat);
    }
  }

  /** One step of the visit: group ids[m] overwrites its own rows. */
  lemma LastInStep(gt: GroupIndex, ids: seq<nat>, m: nat, r: nat)
    requires Increasing(ids) && m < |ids|
    ensures LastIn(gt, ids[..m + 1], r)
         == if Listed(gt, r, ids[m]) then ids[m] as int else LastIn(gt, ids[..m], r)
  {
    assert ids[..m + 1][..m] == ids[..m];
  }

  /** `var_demean[index, :] = var[index, :] - means`: the rows listed in idx
      are overwritten, the others keep their value. */
  method OverwriteRows(buf: array<seq<real>>, v: Matrix, idx: seq<nat>, means: seq<real>)
    requires buf.Length == |v|
    requires forall k :: 0 <= k < |idx| ==> idx[k] < |v| && |v[idx[k]]| == |means|
    modifies buf
    ensures forall r :: 0 <= r < buf.Length ==>
      buf[r] == (if r in idx then RowMinus(v[r], means) else old(buf[r]))
  {
    for k := 0 to |idx|
      invariant forall r :: 0 <= r < buf.Length ==>
        buf[r] == (if r in idx[..k] then RowMinus(v[r], means) else old(buf[r]))
    {
      buf[idx[k]] := RowMinus(v[idx[k]], means);
      assert idx[..k + 1] == idx[..k] + [idx[k]];
    }
    assert idx[..|idx|] == idx;
  }

  /** The rows of group g are valid row indices, and there is one at least. */
  lemma MembersInRange(gt: GroupIndex, n: nat, g: nat)
    requires ValidIndex(gt, n) && g in gt.groups
    ensures Members(gt, g) != []
    ensures forall k :: 0 <= k < |Members(gt, g)| ==> Members(gt, g)[k] < n
  {
    var idx := Members(gt, g);
    var e :| 0 <= e < |gt.groups| && gt.groups[e] == g;
    assert Listed(gt, gt.rows[e], g);
    forall k | 0 <= k < |idx| ensures idx[k] < n {
      assert Listed(gt, idx[k], g);
    }
  }

  /** `demean`: start from zeros and, group by group in np.unique order,
      overwrite the group's rows with their deviations from the group's
      column means. */
  method Demean(v: Matrix, p: nat, gt: GroupIndex) returns (out: Matrix)
    requires IsMatrix(v, |v|, p) && ValidIndex(gt, |v|)
    ensures out == DemeanSpec(v, p, gt)
  {
    var buf := new seq<real>[|v|](_ => Zeros(p));
    var ids := Unique(gt.groups);
    for m := 0 to |ids|
      invariant forall r :: 0 <= r < |v| ==> buf[r] == RowFor(v, p, gt, LastIn(gt, ids[..m], r), r)
    {
      var idx := Members(gt, ids[m]);
      MembersInRange(gt, |v|, ids[m]);
      var means := ColMeans(v, p, idx);
      OverwriteRows(buf, v, idx, means);
      forall r | 0 <= r < |v|
        ensures buf[r] == RowFor(v, p, gt, LastIn(gt, ids[..m + 1], r), r)
      {
        LastInStep(gt, ids, m, r);
      }
    }
    assert ids[..|ids|] == ids;
    out := buf[..];
    forall r | 0 <= r < |v| ensures out[r] == DemeanSpec(v, p, gt)[r] {
      LastInUnique(gt, r);
    }
  }

  /** With every row listed at most once, a member of group g is demeaned by g. */
  lemma MemberUsesOwnGroup(gt: GroupIndex, g: nat, r: nat)
    requires |gt.rows| == |gt.groups| && ListedOnce(gt)
    requires Listed(gt, r, g)
    ensures LastGroupOf(gt, r) == g
  {
    var h := LastGroupOf(gt, r);
    var k1 :| 0 <= k1 < |gt.rows| && gt.rows[k1] == r && gt.groups[k1] == g;
    var k2 :| 0 <= k2 < |gt.rows| && gt.rows[k2] == r && gt.groups[k2] == h as nat;
  }

  /** A member of group g is demeaned by g's column means. */
  lemma MemberRow(v: Matrix, p: nat, gt: GroupIndex, g: nat, r: nat)
    requires IsMatrix(v, |v|, p) && ValidIndex(gt, |v|) && ListedOnce(gt)
    requires g in gt.groups && Listed(gt, r, g) && r < |v|
    ensures Members(gt, g) != [] && forall k :: 0 <= k < |Members(gt, g)| ==> Members(gt, g)[k] < |v|
    ensures DemeanSpec(v, p, gt)[r] == RowMinus(v[r], ColMeans(v, p, Members(gt, g)))
  {
    MembersInRange(gt, |v|, g);
    MemberUsesOwnGroup(gt, g, r);
  }

  /** A row that no group lists keeps the zero it started with. */
  lemma UnlistedRowStaysZero(v: Matrix, p: nat, gt: GroupIndex, r: nat)
    requires IsMatrix(v, |v|, p) && ValidIndex(gt, |v|) && r < |v|
    requires forall g: nat :: !Listed(gt, r, g)
    ensures DemeanSpec(v, p, gt)[r] == Zeros(p)
  {
  }

  /** Over group g's rows, the demeaned column j is the input column minus
      its group mean. */
  lemma DemeanedColumn(v: Matrix, p: nat, gt: GroupIndex, g: nat, j: nat)
    requires IsMatrix(v, |v|, p) && ValidIndex(gt, |v|) && ListedOnce(gt)
    requires g in gt.groups && j < p
    ensures Members(gt, g) != [] && forall k :: 0 <= k < |Members(gt, g)| ==> Members(gt, g)[k] < |v|
    ensures forall k :: 0 <= k < |Members(gt, g)| ==>
      Column(DemeanSpec(v, p, gt), p, Members(gt, g), j)[k]
        == Column(v, p, Members(gt, g), j)[k] - ColMeans(v, p, Members(gt, g))[j]
  {
    MembersInRange(gt, |v|, g);
    var idx := Members(gt, g);
    forall k | 0 <= k < |idx|
      ensures Column(DemeanSpec(v, p, gt), p, idx, j)[k] == Column(v, p, idx, j)[k] - ColMeans(v, p, idx)[j]
    {
      assert Listed(gt, idx[k], g);
      MemberRow(v, p, gt, g, idx[k]);
    }
  }

  /** After demeaning, every column sums to zero over every group's rows. */
  lemma GroupColumnSumsZero(v: Matrix, p: nat, gt: GroupIndex, g: nat, j: nat)
    requires IsMatrix(v, |v|, p) && ValidIndex(gt, |v|) && ListedOnce(gt)
    requires g in gt.groups && j < p
    ensures forall k :: 0 <= k < |Members(gt, g)| ==> Members(gt, g)[k] < |v|
    ensures Sum(Column(DemeanSpec(v, p, gt), p, Members(gt, g), j)) == 0.0
  {
    DemeanedColumn(v, p, gt, g, j);
    var idx := Members(gt, g);
    DeviationsSumZero(Column(v, p, idx, j), ColMean(v, p, idx, j), Column(DemeanSpec(v, p, gt), p, idx, j));
  }

  /** ... hence every column's group mean is zero after demeaning. */
  lemma GroupColumnMeanZero(v: Matrix, p: nat, gt: GroupIndex, g: nat, j: nat)
    requires IsMatrix(v, |v|, p) && ValidIndex(gt, |v|) && ListedOnce(gt)
    requires g in gt.groups && j < p
    ensures Members(gt, g) != [] && forall k :: 0 <= k < |Members(gt, g)| ==> Members(gt, g)[k] < |v|
    ensures ColMean(DemeanSpec(v, p, gt), p, Members(gt, g), j) == 0.0
  {
    MembersInRange(gt, |v|, g);
    GroupColumnSumsZero(v, p, gt, g, j);
    ZeroOver(|Members(gt, g)| as real);
  }

  /** Subtracting zero means leaves a row unchanged. */
  lemma MinusZeroMeans(x: seq<real>, means: seq<real>)
    requires |x| == |means| && forall j :: 0 <= j < |means| ==> means[j] == 0.0
    ensures RowMinus(x, means) == x
  {
  }

  /** A row of an already demeaned matrix is not changed by demeaning again. */
  lemma DemeanRowIdempotent(v: Matrix, p: nat, gt: GroupIndex, r: nat)
    requires IsMatrix(v, |v|, p) && ValidIndex(gt, |v|) && ListedOnce(gt) && r < |v|
    ensures DemeanSpec(DemeanSpec(v, p, gt), p, gt)[r] == DemeanSpec(v, p, gt)[r]
  {
    var out := DemeanSpec(v, p, gt);
    var g := LastGroupOf(gt, r);
    assert DemeanSpec(out, p, gt)[r] == RowFor(out, p, gt, g, r);
    if g >= 0 {
      var k :| 0 <= k < |gt.rows| && gt.rows[k] == r && gt.groups[k] == g as nat;
      assert g as nat in gt.groups;
      MembersInRange(gt, |v|, g as nat);
      var zero := ColMeans(out, p, Members(gt, g as nat));
      forall j | 0 <= j < p ensures zero[j] == 0.0 {
        GroupColumnMeanZero(v, p, gt, g as nat, j);
      }
      MinusZeroMeans(out[r], zero);
    }
  }

  /** Demeaning an already demeaned matrix changes nothing. */
  lemma DemeanIdempotent(v: Matrix, p: nat, gt: GroupIndex)
    requires IsMatrix(v, |v|, p) && ValidIndex(gt, |v|) && ListedOnce(gt)
    ensures DemeanSpec(DemeanSpec(v, p, gt), p, gt) == DemeanSpec(v, p, gt)
  {
    forall r | 0 <= r < |v| ensures DemeanSpec(DemeanSpec(v, p, gt), p, gt)[r] == DemeanSpec(v, p, gt)[r] {
      DemeanRowIdempotent(v, p, gt, r);
    }
  }

  /** The N x K matrix whose column i is the vector cols[i]. */
  function Columns(cols: seq<seq<real>>, n: nat): (m: Matrix)
    requires forall i :: 0 <= i < |cols| ==> |cols[i]| == n
    ensures IsMatrix(m, n, |cols|)
    ensures forall r, i :: 0 <= r < n && 0 <= i < |cols| ==> m[r][i] == cols[i][r]
  {
    seq(n, r requires 0 <= r < n => seq(|cols|, i requires 0 <= i < |cols| => cols[i][r]))
  }

  /** Mean of the vector x over the rows idx, as `np.mean(fres[index])`. */
  function MeanOver(x: seq<real>, idx: seq<nat>): real
    requires idx != [] && forall k :: 0 <= k < |idx| ==> idx[k] < |x|
  {
    Sum(seq(|idx|, k requires 0 <= k < |idx| => x[idx[k]])) / (|idx| as real)
  }

  /** The value x's entry r takes once group g (or none, g < 0) has written it. */
  ghost function ResidualFor(x: seq<real>, gt: GroupIndex, g: int, r: nat): real
    requires ValidIndex(gt, |x|) && r < |x|
    requires g >= 0 ==> Listed(gt, r, g as nat)
  {
    if g < 0 then 0.0
    else
      var idx := Members(gt, g as nat);
      assert r in idx;
      assert forall k :: 0 <= k < |idx| ==> idx[k] < |x| by {
        forall k | 0 <= k < |idx| ensures idx[k] < |x| {
          assert Listed(gt, idx[k], g as nat);
        }
      }
      x[r] - MeanOver(x, idx)
  }

  lemma ResidualForIsDemean(fres: seq<seq<real>>, n: nat, gt: GroupIndex, i: nat, r: nat)
    requires forall c :: 0 <= c < |fres| ==> |fres[c]| == n
    requires ValidIndex(gt, n) && i < |fres| && r < n
    ensures ResidualFor(fres[i], gt, LastGroupOf(gt, r), r)
         == DemeanSpec(Columns(fres, n), |fres|, gt)[r][i]
  {
    var g := LastGroupOf(gt, r);
    if g >= 0 {
      var v := Columns(fres, n);
      var idx := Members(gt, g as nat);
      assert r in idx;
      assert forall k :: 0 <= k < |idx| ==> idx[k] < n by {
        forall k | 0 <= k < |idx| ensures idx[k] < n {
          assert Listed(gt, idx[k], g as nat);
        }
      }
      assert Column(v, |fres|, idx, i) == seq(|idx|, k requires 0 <= k < |idx| => fres[i][idx[k]]);
    }
  }

  /** The rows once entry i of each row listed in idx holds its deviation
      x[r] - mu; every other entry and every unlisted row keeps its value. */
  function Overwritten(rows: seq<seq<real>>, x: seq<real>, i: nat, idx: seq<nat>, mu: real): (w: seq<seq<real>>)
    requires |rows| == |x| && forall r :: 0 <= r < |rows| ==> i < |rows[r]|
    ensures |w| == |rows| && forall r :: 0 <= r < |w| ==> |w[r]| == |rows[r]|
  {
    seq(|rows|, r requires 0 <= r < |rows| => if r in idx then rows[r][i := x[r] - mu] else rows[r])
  }

  /** `res[index, i] = fres[index] - mu`: entry i of the rows listed in idx
      is overwritten, everything else keeps its value. */
  method OverwriteColumn(buf: array<seq<real>>, x: seq<real>, i: nat, idx: seq<nat>, mu: real)
    requires buf.Length == |x|
    requires forall r :: 0 <= r < buf.Length ==> i < |buf[r]|
    requires forall k :: 0 <= k < |idx| ==> idx[k] < |x|
    modifies buf
    ensures buf[..] == Overwritten(old(buf[..]), x, i, idx, mu)
  {
    for k := 0 to |idx|
      invariant forall r :: 0 <= r < buf.Length ==>
        buf[r] == (if r in idx[..k] then old(buf[r])[i := x[r] - mu] else old(buf[r]))
    {
      buf[idx[k]] := buf[idx[k]][i := x[idx[k]] - mu];
      assert idx[..k + 1] == idx[..k] + [idx[k]];
    }
    assert idx[..|idx|] == idx;
    assert forall r :: 0 <= r < buf.Length ==> buf[..][r] == Overwritten(old(buf[..]), x, i, idx, mu)[r];
  }

  /** The rows with entry i of row r replaced by col[r]. */
  function SetColumn(rows: seq<seq<real>>, i: nat, col: seq<real>): (w: seq<seq<real>>)
    requires |col| == |rows| && forall r :: 0 <= r < |rows| ==> i < |rows[r]|
    ensures |w| == |rows| && forall r :: 0 <= r < |w| ==> |w[r]| == |rows[r]|
  {
    seq(|rows|, r requires 0 <= r < |rows| => rows[r][i := col[r]])
  }

  /** The column col once the rows listed in idx hold their deviation x[r] - mu. */
  function Deviated(col: seq<real>, x: seq<real>, idx: seq<nat>, mu: real): (d: seq<real>)
    requires |col| == |x|
    ensures |d| == |x|
  {
    seq(|col|, r requires 0 <= r < |col| => if r in idx then x[r] - mu else col[r])
  }

  /** The residual of every row once the groups ids have been visited: that
      of the last of them listing the row, zero when none does. */
  ghost function Residuals(x: seq<real>, gt: GroupIndex, ids: seq<nat>): (res: seq<real>)
    requires ValidIndex(gt, |x|) && Increasing(ids)
    ensures |res| == |x|
  {
    seq(|x|, r requires 0 <= r < |x| => ResidualFor(x, gt, LastIn(gt, ids, r), r))
  }

  /** Before any group every row has residual zero, which the zero column
      already holds. */
  lemma ColumnStart(orig: seq<seq<real>>, x: seq<real>, i: nat, gt: GroupIndex)
    requires |orig| == |x| && ValidIndex(gt, |x|)
    requires forall r :: 0 <= r < |x| ==> i < |orig[r]| && orig[r][i] == 0.0
    ensures orig == SetColumn(orig, i, Residuals(x, gt, []))
  {
    forall r | 0 <= r < |x|
      ensures SetColumn(orig, i, Residuals(x, gt, []))[r] == orig[r]
    {
      assert orig[r][i := 0.0] == orig[r];
    }
  }

  /** Overwriting the listed rows of a column buffer is deviating its column. */
  lemma OverwriteSetColumn(orig: seq<seq<real>>, i: nat, col: seq<real>, x: seq<real>, idx: seq<nat>, mu: real)
    requires |orig| == |x| && |col| == |x| && forall r :: 0 <= r < |x| ==> i < |orig[r]|
    ensures Overwritten(SetColumn(orig, i, col), x, i, idx, mu) == SetColumn(orig, i, Deviated(col, x, idx, mu))
  {
    var lhs := Overwritten(SetColumn(orig, i, col), x, i, idx, mu);
    var rhs := SetColumn(orig, i, Deviated(col, x, idx, mu));
    forall r | 0 <= r < |x|
      ensures lhs[r] == rhs[r]
    {
      if r in idx {
        assert orig[r][i := col[r]][i := x[r] - mu] == orig[r][i := x[r] - mu];
      }
    }
  }

  /** One group of the inner loop: group ids[m] sets the residual of its own
      rows to their deviation from the group mean, the others keep theirs. */
  lemma ResidualsStep(x: seq<real>, gt: GroupIndex, ids: seq<nat>, m: nat, idx: seq<nat>, mu: real)
    requires ValidIndex(gt, |x|)
    requires Increasing(ids) && m < |ids|
    requires idx == Members(gt, ids[m]) && idx != [] && forall k :: 0 <= k < |idx| ==> idx[k] < |x|
    requires mu == MeanOver(x, idx)
    ensures Residuals(x, gt, ids[..m + 1]) == Deviated(Residuals(x, gt, ids[..m]), x, idx, mu)
  {
    forall r | 0 <= r < |x|
      ensures Residuals(x, gt, ids[..m + 1])[r] == Deviated(Residuals(x, gt, ids[..m]), x, idx, mu)[r]
    {
      ResidualStep(x, gt, ids, m, idx, mu, r);
    }
  }

  /** Visiting group ids[m] sets the residual of its own rows to their
      deviation from its mean and leaves every other row's residual alone. */
  lemma ResidualStep(x: seq<real>, gt: GroupIndex, ids: seq<nat>, m: nat, idx: seq<nat>, mu: real, r: nat)
    requires ValidIndex(gt, |x|) && r < |x|
    requires Increasing(ids) && m < |ids|
    requires idx == Members(gt, ids[m]) && idx != [] && forall k :: 0 <= k < |idx| ==> idx[k] < |x|
    requires mu == MeanOver(x, idx)
    ensures ResidualFor(x, gt, LastIn(gt, ids[..m + 1], r), r)
         == if r in idx then x[r] - mu else ResidualFor(x, gt, LastIn(gt, ids[..m], r), r)
  {
    LastInStep(gt, ids, m, r);
    if r in idx {
      assert Listed(gt, r, ids[m]);
    } else {
      assert !Listed(gt, r, ids[m]);
    }
  }

  /** One pass of the inner loop over the groups: entry i of every row
      becomes the demeaned fitted residual x, zero for rows in no group. */
  method DemeanColumnInto(buf: array<seq<real>>, x: seq<real>, i: nat, gt: GroupIndex)
    requires buf.Length == |x| && ValidIndex(gt, |x|)
    requires forall r :: 0 <= r < buf.Length ==> i < |buf[r]| && buf[r][i] == 0.0
    modifies buf
    ensures forall r :: 0 <= r < buf.Length ==>
      buf[r] == old(buf[r])[i := ResidualFor(x, gt, LastGroupOf(gt, r), r)]
  {
    ghost var orig := buf[..];
    var ids := Unique(gt.groups);
    ColumnStart(orig, x, i, gt);
    assert ids[..0] == [];
    for m := 0 to |ids|
      invariant buf[..] == SetColumn(orig, i, Residuals(x, gt, ids[..m]))
    {
      var idx := Members(gt, ids[m]);
      MembersInRange(gt, |x|, ids[m]);
      var mu := MeanOver(x, idx);
      OverwriteSetColumn(orig, i, Residuals(x, gt, ids[..m]), x, idx, mu);
      ResidualsStep(x, gt, ids, m, idx, mu);
      OverwriteColumn(buf, x, i, idx, mu);
    }
    ColumnDone(orig, buf[..], x, i, gt, ids);
  }

  /** After the last group every row holds the residual of its last group. */
  lemma ColumnDone(orig: seq<seq<real>>, post: seq<seq<real>>, x: seq<real>, i: nat, gt: GroupIndex, ids: seq<nat>)
    requires |orig| == |post| == |x| && ValidIndex(gt, |x|) && ids == Unique(gt.groups)
    requires forall r :: 0 <= r < |x| ==> i < |orig[r]|
    requires post == SetColumn(orig, i, Residuals(x, gt, ids[..|ids|]))
    ensures forall r :: 0 <= r < |x| ==>
      post[r] == orig[r][i := ResidualFor(x, gt, LastGroupOf(gt, r), r)]
  {
    assert ids[..|ids|] == ids;
    forall r | 0 <= r < |x|
      ensures post[r] == orig[r][i := ResidualFor(x, gt, LastGroupOf(gt, r), r)]
    {
      LastInUnique(gt, r);
    }
  }

  /** The residual loop: for each good i, the fitted residual vector fres[i]
      is demeaned group by group into column i of a zero N x K matrix. It
      computes exactly `demean` of the matrix whose columns are the fres[i]. */
  method DemeanResiduals(fres: seq<seq<real>>, n: nat, gt: GroupIndex) returns (res: Matrix)
    requires forall c :: 0 <= c < |fres| ==> |fres[c]| == n
    requires ValidIndex(gt, n)
    ensures res == DemeanSpec(Columns(fres, n), |fres|, gt)
  {
    var width := |fres|;
    var buf := new seq<real>[n](_ => Zeros(width));
    for i := 0 to width
      invariant forall r :: 0 <= r < n ==> |buf[r]| == width
      invariant forall r, c :: 0 <= r < n && 0 <= c < i ==>
        buf[r][c] == ResidualFor(fres[c], gt, LastGroupOf(gt, r), r)
      invariant forall r, c :: 0 <= r < n && i <= c < width ==> buf[r][c] == 0.0
    {
      ghost var before := buf[..];
      DemeanColumnInto(buf, fres[i], i, gt);
      assert forall r :: 0 <= r < n ==>
        buf[r] == before[r][i := ResidualFor(fres[i], gt, LastGroupOf(gt, r), r)];
    }
    res := buf[..];
    forall r | 0 <= r < n ensures res[r] == DemeanSpec(Columns(fres, n), width, gt)[r] {
      forall c | 0 <= c < width ensures res[r][c] == DemeanSpec(Columns(fres, n), width, gt)[r][c] {
        ResidualForIsDemean(fres, n, gt, c, r);
      }
    }
  }
}
