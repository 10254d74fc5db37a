/** One bootstrap replication, type by type (scale_econs_bootstrap_lasso.py
    lines 388-507), and the reassembly of the standard errors across
    replications (lines 882-967).

    For household type tt the fitted product coefficients of the variance
    system, one per good pair in triangle order, fill a symmetric K x K
    matrix; nearestPD replaces it by a positive semidefinite one, stored as
    slice tt of a K x K x T array; its upper triangle, the upper triangle of
    its correlation matrix and the square roots of its diagonal are appended
    to running series. The fits (the SUR systems) and nearestPD are outside
    the model: the coefficients are inputs and nearestPD is a parameter. */
module Replication {
  import opened Numerics
  import opened Pairs
  import opened Scales
  import opened Selection

  /** nearestPD returns a K x K matrix for a K x K matrix. */
  ghost predicate KeepsShape(npd: Matrix -> Matrix, goods: nat) {
    forall m {:trigger npd(m)} :: IsMatrix(m, goods, goods) ==> IsMatrix(npd(m), goods, goods)
  }

  /** Slice tt of `cov_matrix_pd`: nearestPD of the filled matrix. */
  function PdSlice(npd: Matrix -> Matrix, vals: seq<real>, goods: nat): (m: Matrix)
    requires |vals| == |Triu(goods)| && KeepsShape(npd, goods)
    ensures IsMatrix(m, goods, goods)
  {
    npd(SymFromTriu(vals, goods))
  }

  /** `np.sqrt(np.diag(m))`: the standard deviations of the scales. */
  function DiagStd(sqrt: real -> real, m: Matrix, goods: nat): (s: seq<Float>)
    requires IsSqrt(sqrt) && IsMatrix(m, goods, goods)
    ensures |s| == goods
    ensures forall k :: 0 <= k < goods ==> (s[k].Finite? <==> 0.0 <= m[k][k])
    ensures forall k :: 0 <= k < goods && s[k].Finite? ==> 0.0 <= s[k].value && s[k].value * s[k].value == m[k][k]
  {
    seq(goods, k requires 0 <= k < goods => SqrtF(sqrt, m[k][k]))
  }

  /** The upper triangle of the adjusted matrix of one type. */
  function PdBlock(npd: Matrix -> Matrix, vals: seq<real>, goods: nat): (b: seq<real>)
    requires |vals| == |Triu(goods)| && KeepsShape(npd, goods)
    ensures |b| == |Triu(goods)|
  {
    ReadTriu(PdSlice(npd, vals, goods), goods)
  }

  /** The upper triangle of the correlation matrix of one type. */
  function CorBlock(sqrt: real -> real, npd: Matrix -> Matrix, vals: seq<real>, goods: nat): (b: seq<Float>)
    requires IsSqrt(sqrt) && |vals| == |Triu(goods)| && KeepsShape(npd, goods)
    ensures |b| == |Triu(goods)|
  {
    ReadTriu(CovToCor(sqrt, PdSlice(npd, vals, goods), goods), goods)
  }

  /** The standard deviations of one type. */
  function StdBlock(sqrt: real -> real, npd: Matrix -> Matrix, vals: seq<real>, goods: nat): (b: seq<Float>)
    requires IsSqrt(sqrt) && |vals| == |Triu(goods)| && KeepsShape(npd, goods)
    ensures |b| == goods
  {
    DiagStd(sqrt, PdSlice(npd, vals, goods), goods)
  }

  /** Every type's fitted coefficients have one entry per pair. */
  ghost predicate PerPair(vals: seq<seq<real>>, goods: nat) {
    forall tt :: 0 <= tt < |vals| ==> |vals[tt]| == |Triu(goods)|
  }

  function PdBlocks(npd: Matrix -> Matrix, vals: seq<seq<real>>, goods: nat): (bs: seq<seq<real>>)
    requires PerPair(vals, goods) && KeepsShape(npd, goods)
    ensures |bs| == |vals| && forall tt :: 0 <= tt < |vals| ==> |bs[tt]| == |Triu(goods)|
  {
    seq(|vals|, tt requires 0 <= tt < |vals| => PdBlock(npd, vals[tt], goods))
  }

  function CorBlocks(sqrt: real -> real, npd: Matrix -> Matrix, vals: seq<seq<real>>, goods: nat): (bs: seq<seq<Float>>)
    requires IsSqrt(sqrt) && PerPair(vals, goods) && KeepsShape(npd, goods)
    ensures |bs| == |vals| && forall tt :: 0 <= tt < |vals| ==> |bs[tt]| == |Triu(goods)|
  {
    seq(|vals|, tt requires 0 <= tt < |vals| => CorBlock(sqrt, npd, vals[tt], goods))
  }

  function StdBlocks(sqrt: real -> real, npd: Matrix -> Matrix, vals: seq<seq<real>>, goods: nat): (bs: seq<seq<Float>>)
    requires IsSqrt(sqrt) && PerPair(vals, goods) && KeepsShape(npd, goods)
    ensures |bs| == |vals| && forall tt :: 0 <= tt < |vals| ==> |bs[tt]| == goods
  {
    seq(|vals|, tt requires 0 <= tt < |vals| => StdBlock(sqrt, npd, vals[tt], goods))
  }

  /** The entries of a two-dimensional array, row by row. */
  function Rows(a: array2<real>): (m: Matrix)
    reads a
    ensures IsMatrix(m, a.Length0, a.Length1)
    ensures forall i, j :: 0 <= i < a.Length0 && 0 <= j < a.Length1 ==> m[i][j] == a[i, j]
  {
    seq(a.Length0, i requires 0 <= i < a.Length0 reads a =>
      seq(a.Length1, j requires 0 <= j < a.Length1 reads a => a[i, j]))
  }

  /** The six series one replication returns: cov, cov_pd, cor, std,
      std_l and std_u. */
  datatype Series = Series(cov: seq<real>, covPd: seq<real>, cor: seq<Float>,
                           std: seq<Float>, stdL: seq<Float>, stdU: seq<Float>)

  /** `pd.concat` of two sets of series, series by series. */
  function Append(a: Series, b: Series): (r: Series)
    ensures r.cov == a.cov + b.cov && r.covPd == a.covPd + b.covPd && r.cor == a.cor + b.cor
    ensures r.std == a.std + b.std && r.stdL == a.stdL + b.stdL && r.stdU == a.stdU + b.stdU
  {
    Series(a.cov + b.cov, a.covPd + b.covPd, a.cor + b.cor, a.std + b.std, a.stdL + b.stdL, a.stdU + b.stdU)
  }

  /** The series of the first m types. */
  function SeriesUpTo(sqrt: real -> real, npd: Matrix -> Matrix,
                      vals: seq<seq<real>>, valsL: seq<seq<real>>, valsU: seq<seq<real>>, goods: nat, m: nat): Series
    requires IsSqrt(sqrt) && KeepsShape(npd, goods)
    requires PerPair(vals, goods) && PerPair(valsL, goods) && PerPair(valsU, goods)
    requires |valsL| == |vals| && |valsU| == |vals| && m <= |vals|
  {
    if m == 0 then Series([], [], [], [], [], [])
    else
      var t := m - 1;
      Append(SeriesUpTo(sqrt, npd, vals, valsL, valsU, goods, t),
        TypeSeries(sqrt, vals[t], PdSlice(npd, vals[t], goods), PdSlice(npd, valsL[t], goods),
          PdSlice(npd, valsU[t], goods), goods))
  }

  /** The adjusted matrices of all types: `cov_matrix_pd` slice by slice. */
  function Slices(npd: Matrix -> Matrix, vals: seq<seq<real>>, goods: nat): (ms: seq<Matrix>)
    requires PerPair(vals, goods) && KeepsShape(npd, goods)
    ensures |ms| == |vals| && forall tt :: 0 <= tt < |vals| ==> IsMatrix(ms[tt], goods, goods)
  {
    seq(|vals|, tt requires 0 <= tt < |vals| => PdSlice(npd, vals[tt], goods))
  }

  /** The blocks one type adds, from its coefficients and its three
      adjusted matrices. */
  function TypeSeries(sqrt: real -> real, vals: seq<real>, m: Matrix, mL: Matrix, mU: Matrix, goods: nat): Series
    requires IsSqrt(sqrt) && IsMatrix(m, goods, goods) && IsMatrix(mL, goods, goods) && IsMatrix(mU, goods, goods)
  {
    Series(vals, ReadTriu(m, goods), ReadTriu(CovToCor(sqrt, m, goods), goods),
      DiagStd(sqrt, m, goods), DiagStd(sqrt, mL, goods), DiagStd(sqrt, mU, goods))
  }

  /** Each series is the concatenation of its per-type blocks. */
  lemma {:induction false} SeriesBlocks(sqrt: real -> real, npd: Matrix -> Matrix,
                      vals: seq<seq<real>>, valsL: seq<seq<real>>, valsU: seq<seq<real>>, goods: nat, m: nat)
    requires IsSqrt(sqrt) && KeepsShape(npd, goods)
    requires PerPair(vals, goods) && PerPair(valsL, goods) && PerPair(valsU, goods)
    requires |valsL| == |vals| && |valsU| == |vals| && m <= |vals|
    ensures var s := SeriesUpTo(sqrt, npd, vals, valsL, valsU, goods, m);
      s.cov == Flatten(vals[..m]) && s.covPd == Flatten(PdBlocks(npd, vals, goods)[..m])
      && s.cor == Flatten(CorBlocks(sqrt, npd, vals, goods)[..m])
      && s.std == Flatten(StdBlocks(sqrt, npd, vals, goods)[..m])
      && s.stdL == Flatten(StdBlocks(sqrt, npd, valsL, goods)[..m])
      && s.stdU == Flatten(StdBlocks(sqrt, npd, valsU, goods)[..m])
    decreases m
  {
    if m > 0 {
      var t := m - 1;
      SeriesBlocks(sqrt, npd, vals, valsL, valsU, goods, t);
      FlattenStep(vals, t);
      FlattenStep(PdBlocks(npd, vals, goods), t);
      FlattenStep(CorBlocks(sqrt, npd, vals, goods), t);
      FlattenStep(StdBlocks(sqrt, npd, vals, goods), t);
      FlattenStep(StdBlocks(sqrt, npd, valsL, goods), t);
      FlattenStep(StdBlocks(sqrt, npd, valsU, goods), t);
    }
  }

  /** The tt loop of one replication: `cov_matrix_pd[:, :, tt]` and its
      lower and upper variants are written slice by slice, and the series
      grow by one block per type. */
  method TypeLoop(sqrt: real -> real, npd: Matrix -> Matrix,
                  vals: seq<seq<real>>, valsL: seq<seq<real>>, valsU: seq<seq<real>>, goods: nat)
    returns (pd: array<Matrix>, pdL: array<Matrix>, pdU: array<Matrix>, series: Series)
    requires IsSqrt(sqrt) && KeepsShape(npd, goods)
    requires PerPair(vals, goods) && PerPair(valsL, goods) && PerPair(valsU, goods)
    requires |valsL| == |vals| && |valsU| == |vals|
    ensures fresh(pd) && fresh(pdL) && fresh(pdU)
    ensures pd.Length == |vals| && pdL.Length == |vals| && pdU.Length == |vals|
    ensures pd[..] == Slices(npd, vals, goods) && pdL[..] == Slices(npd, valsL, goods)
    ensures pdU[..] == Slices(npd, valsU, goods)
    ensures series == SeriesUpTo(sqrt, npd, vals, valsL, valsU, goods, |vals|)
  {
    var types := |vals|;
    pd := new Matrix[types];
    pdL := new Matrix[types];
    pdU := new Matrix[types];
    series := Series([], [], [], [], [], []);
    for tt := 0 to types
      invariant pd[..tt] == Slices(npd, vals, goods)[..tt]
      invariant pdL[..tt] == Slices(npd, valsL, goods)[..tt]
      invariant pdU[..tt] == Slices(npd, valsU, goods)[..tt]
      invariant series == SeriesUpTo(sqrt, npd, vals, valsL, valsU, goods, tt)
    {
      var block := StoreType(sqrt, npd, vals, valsL, valsU, goods, tt, pd, pdL, pdU);
      series := Append(series, block);
    }
    assert pd[..] == pd[..types] && pdL[..] == pdL[..types] && pdU[..] == pdU[..types];
  }

  /** One pass of the tt loop: the three slices of type tt are written and
      the type's blocks of the series are returned. */
  method StoreType(sqrt: real -> real, npd: Matrix -> Matrix,
                   vals: seq<seq<real>>, valsL: seq<seq<real>>, valsU: seq<seq<real>>, goods: nat, tt: nat,
                   pd: array<Matrix>, pdL: array<Matrix>, pdU: array<Matrix>)
    returns (block: Series)
    requires IsSqrt(sqrt) && KeepsShape(npd, goods)
    requires PerPair(vals, goods) && PerPair(valsL, goods) && PerPair(valsU, goods)
    requires |valsL| == |vals| && |valsU| == |vals| && tt < |vals|
    requires pd.Length == |vals| && pdL.Length == |vals| && pdU.Length == |vals|
    requires pd != pdL && pd != pdU && pdL != pdU
    requires pd[..tt] == Slices(npd, vals, goods)[..tt]
    requires pdL[..tt] == Slices(npd, valsL, goods)[..tt]
    requires pdU[..tt] == Slices(npd, valsU, goods)[..tt]
    modifies pd, pdL, pdU
    ensures pd[..tt + 1] == Slices(npd, vals, goods)[..tt + 1]
    ensures pdL[..tt + 1] == Slices(npd, valsL, goods)[..tt + 1]
    ensures pdU[..tt + 1] == Slices(npd, valsU, goods)[..tt + 1]
    ensures block == TypeSeries(sqrt, vals[tt], PdSlice(npd, vals[tt], goods), PdSlice(npd, valsL[tt], goods),
      PdSlice(npd, valsU[tt], goods), goods)
  {
    var m := AdjustedSlice(npd, vals[tt], goods);
    var mL := AdjustedSlice(npd, valsL[tt], goods);
    var mU := AdjustedSlice(npd, valsU[tt], goods);
    StoreSlice(pd, tt, m, Slices(npd, vals, goods));
    StoreSlice(pdL, tt, mL, Slices(npd, valsL, goods));
    StoreSlice(pdU, tt, mU, Slices(npd, valsU, goods));
    block := TypeSeries(sqrt, vals[tt], m, mL, mU, goods);
  }

  /** `a[:, :, tt] = m`, extending a prefix that agrees with `want`. */
  method StoreSlice(a: array<Matrix>, tt: nat, m: Matrix, want: seq<Matrix>)
    requires tt < a.Length && tt < |want| && a[..tt] == want[..tt] && want[tt] == m
    modifies a
    ensures a[..tt + 1] == want[..tt + 1]
  {
    a[tt] := m;
    assert a[..tt + 1] == a[..tt] + [m];
    assert want[..tt + 1] == want[..tt] + [m];
  }

  /** What the loop returns, series by series. */
  lemma TypeLoopSeries(sqrt: real -> real, npd: Matrix -> Matrix,
                       vals: seq<seq<real>>, valsL: seq<seq<real>>, valsU: seq<seq<real>>, goods: nat)
    requires IsSqrt(sqrt) && KeepsShape(npd, goods)
    requires PerPair(vals, goods) && PerPair(valsL, goods) && PerPair(valsU, goods)
    requires |valsL| == |vals| && |valsU| == |vals|
    ensures var s := SeriesUpTo(sqrt, npd, vals, valsL, valsU, goods, |vals|);
      s.cov == Flatten(vals) && s.covPd == Flatten(PdBlocks(npd, vals, goods))
      && s.cor == Flatten(CorBlocks(sqrt, npd, vals, goods))
      && s.std == Flatten(StdBlocks(sqrt, npd, vals, goods))
      && s.stdL == Flatten(StdBlocks(sqrt, npd, valsL, goods))
      && s.stdU == Flatten(StdBlocks(sqrt, npd, valsU, goods))
  {
    var n := |vals|;
    SeriesBlocks(sqrt, npd, vals, valsL, valsU, goods, n);
    WholePrefix(vals);
    WholePrefix(PdBlocks(npd, vals, goods));
    WholePrefix(CorBlocks(sqrt, npd, vals, goods));
    WholePrefix(StdBlocks(sqrt, npd, vals, goods));
    WholePrefix(StdBlocks(sqrt, npd, valsL, goods));
    WholePrefix(StdBlocks(sqrt, npd, valsU, goods));
  }

  /** One slice: fill `np.empty((K, K))` from the coefficients, mirror it,
      and hand it to nearestPD. */
  method AdjustedSlice(npd: Matrix -> Matrix, vals: seq<real>, goods: nat) returns (m: Matrix)
    requires |vals| == |Triu(goods)| && KeepsShape(npd, goods)
    ensures m == PdSlice(npd, vals, goods)
  {
    var filled := FillSymmetric(vals, goods);
    var rows := Rows(filled);
    var want := SymFromTriu(vals, goods);
    forall i | 0 <= i < goods
      ensures rows[i] == want[i]
    {
      assert forall j :: 0 <= j < goods ==> rows[i][j] == want[i][j];
    }
    assert rows == want;
    m := npd(rows);
  }

  lemma WholePrefix<T>(s: seq<T>)
    ensures s[..|s|] == s
  {
  }

  /** One more block of an accumulator. */
  lemma FlattenStep<T>(blocks: seq<seq<T>>, m: nat)
    requires m < |blocks|
    ensures Flatten(blocks[..m + 1]) == Flatten(blocks[..m]) + blocks[m]
  {
    assert blocks[..m + 1][..m] == blocks[..m];
  }

  /** The series of one replication hold K(K+1)/2 entries per type, the
      width of `cov_store`, `cov_pd_store` and `cor_store`, and K per type
      for the standard deviations; pair p of type tt sits at position
      tt * K(K+1)/2 + p. */
  lemma SeriesLayout<T>(blocks: seq<seq<T>>, goods: nat, tt: nat, p: nat)
    requires forall u :: 0 <= u < |blocks| ==> |blocks[u]| == |Triu(goods)|
    requires tt < |blocks| && p < |Triu(goods)|
    ensures 2 * |Flatten(blocks)| == goods * (goods + 1) * |blocks|
    ensures tt * |Triu(goods)| + p < |Flatten(blocks)|
    ensures Flatten(blocks)[tt * |Triu(goods)| + p] == blocks[tt][p]
  {
    FlattenAt(blocks, |Triu(goods)|, tt, p);
    PairCount(goods);
    assert 2 * (|blocks| * |Triu(goods)|) == |blocks| * (2 * |Triu(goods)|);
  }

  /** Reading the adjusted slice's upper triangle and filling a symmetric
      matrix from it gives the slice back, as the standard-error matrices
      are rebuilt from the series; this holds because nearestPD returns a
      symmetric matrix. */
  lemma PdBlockRebuilds(npd: Matrix -> Matrix, vals: seq<real>, goods: nat)
    requires |vals| == |Triu(goods)| && KeepsShape(npd, goods)
    requires IsSymmetric(PdSlice(npd, vals, goods), goods)
    ensures SymFromTriu(PdBlock(npd, vals, goods), goods) == PdSlice(npd, vals, goods)
  {
    FillRead(PdSlice(npd, vals, goods), goods);
  }

  /** The index label of an entry of the cov series: the pair's name with
      the suffix `_h{tt+1}` of its type. A test `f"h{i+1}" in label` holds
      exactly when the type is i (for fewer than ten types). */
  datatype Label = Label(pair: nat, typ: nat)

  /** The labels of type tt's block: one per pair, in triangle order. */
  function LabelBlock(size: nat, tt: nat): (b: seq<Label>)
    ensures |b| == size && forall p :: 0 <= p < size ==> b[p] == Label(p, tt)
  {
    seq(size, p requires 0 <= p < size => Label(p, tt))
  }

  /** The labels of the cov series: one block of pair labels per type. */
  function Labels(types: nat, size: nat): seq<Label>
  {
    Flatten(seq(types, tt requires 0 <= tt < types => LabelBlock(size, tt)))
  }

  /** `index.str.contains(f"h{i+1}")`. */
  function TypeMask(labels: seq<Label>, i: nat): (keep: seq<bool>)
    ensures |keep| == |labels| && forall c :: 0 <= c < |labels| ==> (keep[c] <==> labels[c].typ == i)
  {
    seq(|labels|, c requires 0 <= c < |labels| => labels[c].typ == i)
  }

  lemma LabelsStep(types: nat, size: nat)
    requires types > 0
    ensures Labels(types, size) == Labels(types - 1, size) + LabelBlock(size, types - 1)
  {
    var blocks := seq(types, tt requires 0 <= tt < types => LabelBlock(size, tt));
    assert blocks[..types - 1] == seq(types - 1, tt requires 0 <= tt < types - 1 => LabelBlock(size, tt));
  }

  lemma {:induction false} LabelsLength(types: nat, size: nat)
    ensures |Labels(types, size)| == types * size
    decreases types
  {
    if types > 0 {
      LabelsStep(types, size);
      LabelsLength(types - 1, size);
      assert types * size == (types - 1) * size + size;
    }
  }

  lemma {:induction false} LabelTypes(types: nat, size: nat)
    ensures forall c :: 0 <= c < |Labels(types, size)| ==> Labels(types, size)[c].typ < types
    decreases types
  {
    if types > 0 {
      LabelsStep(types, size);
      LabelTypes(types - 1, size);
    }
  }

  /** Filtering by a type's mask splits at the last block: the earlier
      blocks are filtered by their own labels, the last by its block's. */
  lemma SelectSplit<T>(flat: seq<T>, t: nat, size: nat, i: nat, cut: nat)
    requires |Labels(t, size)| == cut && |flat| == cut + size
    ensures |Labels(t + 1, size)| == |flat|
    ensures Where(flat, TypeMask(Labels(t + 1, size), i))
         == Where(flat[..cut], TypeMask(Labels(t, size), i)) + Where(flat[cut..], TypeMask(LabelBlock(size, t), i))
  {
    MaskSplit(t, size, i, cut);
    WhereSplit(flat, TypeMask(Labels(t + 1, size), i), cut);
  }

  /** The mask of t + 1 blocks is the mask of the first t followed by the
      mask of the last block. */
  lemma MaskSplit(t: nat, size: nat, i: nat, cut: nat)
    requires |Labels(t, size)| == cut
    ensures |Labels(t + 1, size)| == cut + size
    ensures TypeMask(Labels(t + 1, size), i)[..cut] == TypeMask(Labels(t, size), i)
    ensures TypeMask(Labels(t + 1, size), i)[cut..] == TypeMask(LabelBlock(size, t), i)
  {
    LabelsStep(t + 1, size);
  }

  /** The label mask of type i picks exactly the i-th block of any vector
      laid out like the cov series, such as the standard errors `cov_se`. */
  lemma {:induction false} SelectByType<T>(flat: seq<T>, types: nat, size: nat, i: nat)
    requires i < types && |flat| == types * size
    ensures |Labels(types, size)| == |flat|
    ensures i * size <= (i + 1) * size <= |flat|
    ensures Where(flat, TypeMask(Labels(types, size), i)) == flat[i * size..(i + 1) * size]
    decreases types, 1
  {
    var t := types - 1;
    var cut := t * size;
    MulSucc(t, size);
    MulSucc(i, size);
    MulMono(i + 1, types, size);
    LabelsLength(t, size);
    SelectSplit(flat, t, size, i, cut);
    if i < t {
      SelectEarlier(flat, t, size, i, cut);
      WhereNone(flat[cut..], TypeMask(LabelBlock(size, t), i));
      ConcatEmpty(Where(flat[..cut], TypeMask(Labels(t, size), i)), Where(flat[cut..], TypeMask(LabelBlock(size, t), i)));
    } else {
      SelectLast(flat[..cut], flat[cut..], t, size);
      ConcatEmpty(Where(flat[cut..], TypeMask(LabelBlock(size, t), i)), Where(flat[..cut], TypeMask(Labels(t, size), i)));
      SuffixSlice(flat, cut);
    }
  }

  /** For a type before the last, the earlier blocks contribute the type's
      block. */
  lemma {:induction false} SelectEarlier<T>(flat: seq<T>, t: nat, size: nat, i: nat, cut: nat)
    requires i < t && cut == t * size && |flat| == cut + size
    ensures |Labels(t, size)| == cut
    ensures i * size <= (i + 1) * size <= cut
    ensures Where(flat[..cut], TypeMask(Labels(t, size), i)) == flat[i * size..(i + 1) * size]
    decreases t + 1, 0
  {
    SelectByType(flat[..cut], t, size, i);
    PrefixSlice(flat, cut, i * size, (i + 1) * size);
  }

  /** The last type's mask keeps nothing of the earlier blocks and all of
      its own. */
  lemma SelectLast<T>(front: seq<T>, last: seq<T>, t: nat, size: nat)
    requires |front| == t * size && |last| == size
    ensures |Labels(t, size)| == |front|
    ensures Where(front, TypeMask(Labels(t, size), t)) == []
    ensures Where(last, TypeMask(LabelBlock(size, t), t)) == last
  {
    LabelsLength(t, size);
    LabelTypes(t, size);
    WhereNone(front, TypeMask(Labels(t, size), t));
    WhereAll(last, TypeMask(LabelBlock(size, t), t));
  }

  /** Entry (a, b) of the rebuilt standard-error matrix of type i is the
      statistic of column i * K(K+1)/2 + p of the stores, where p is the
      position of pair (min(a, b), max(a, b)) in triangle order: the column
      that holds that pair's coefficient of type i in every replication. */
  lemma SeMatrixEntry(se: seq<real>, types: nat, goods: nat, i: nat, a: nat, b: nat)
    requires i < types && |se| == types * |Triu(goods)| && a <= b < goods
    ensures |Labels(types, |Triu(goods)|)| == |se|
    ensures |Where(se, TypeMask(Labels(types, |Triu(goods)|), i))| == |Triu(goods)|
    ensures var m := SymFromTriu(Where(se, TypeMask(Labels(types, |Triu(goods)|), i)), goods);
      var p := Position(goods, a, b);
      p < |Triu(goods)| && Triu(goods)[p] == Pair(a, b)
      && i * |Triu(goods)| + p < |se|
      && m[a][b] == se[i * |Triu(goods)| + p] && m[b][a] == se[i * |Triu(goods)| + p]
  {
    var size := |Triu(goods)|;
    SelectByType(se, types, size, i);
    MulSucc(i, size);
    var lo := i * size;
    var sel := Where(se, TypeMask(Labels(types, size), i));
    SymFromTriuAt(sel, goods, a, b);
    TriuAt(goods, goods, a, b);
    var p := Position(goods, a, b);
    SliceAt(se, lo, lo + size, p);
  }

  /** `np.std(std_store, axis=0).reshape([T, K]).T`: a K x T table. */
  function StdTable<T>(flat: seq<T>, types: nat, goods: nat): (table: seq<seq<T>>)
    requires |flat| == types * goods
    ensures |table| == goods && forall k :: 0 <= k < goods ==> |table[k]| == types
  {
    seq(goods, k requires 0 <= k < goods => seq(types, tt requires 0 <= tt < types =>
      MulMono(tt + 1, types, goods);
      flat[tt * goods + k]))
  }

  /** Column tt of the table is type tt's block: the reshape and transpose
      undo the concatenation of the per-type standard deviations. */
  lemma StdTableTransposes<T>(blocks: seq<seq<T>>, goods: nat)
    requires forall tt :: 0 <= tt < |blocks| ==> |blocks[tt]| == goods
    ensures |Flatten(blocks)| == |blocks| * goods
    ensures forall k, tt :: 0 <= k < goods && 0 <= tt < |blocks| ==>
      StdTable(Flatten(blocks), |blocks|, goods)[k][tt] == blocks[tt][k]
  {
    FlattenLength(blocks, goods);
    forall k, tt | 0 <= k < goods && 0 <= tt < |blocks|
      ensures StdTable(Flatten(blocks), |blocks|, goods)[k][tt] == blocks[tt][k]
    {
      FlattenAt(blocks, goods, tt, k);
    }
  }
}
