/** The closed-form helpers of the estimation (scale_econs_bootstrap_lasso.py
    lines 50-182): Barten scales from the reduced-form coefficients, the
    correlation matrix of a covariance matrix, and the standard deviation of
    the household-level scale economies index for every household type.

    Arithmetic is on exact reals; a result is `NonFinite` exactly where
    float64 arithmetic would give nan or inf (a division by zero, the square
    root of a negative number, the covariance of fewer than two rows). */
module Scales {
  import opened Numerics
  import opened Selection

  /** `barten`: a[k] = theta[K + k] / theta[k], the multi-member coefficient
      of good k over the single-member one. */
  function Barten(theta: seq<real>, goods: nat): (a: seq<Float>)
    requires |theta| == 2 * goods
    ensures |a| == goods
    ensures forall k :: 0 <= k < goods ==> (a[k].Finite? <==> theta[k] != 0.0)
    ensures forall k :: 0 <= k < goods && a[k].Finite? ==> a[k].value * theta[k] == theta[goods + k]
  {
    seq(goods, k requires 0 <= k < goods => DivF(theta[goods + k], theta[k]))
  }

  /** Finite values, one per real. */
  function Finites(a: seq<real>): (r: seq<Float>)
    ensures |r| == |a| && forall k :: 0 <= k < |a| ==> r[k] == Finite(a[k])
  {
    seq(|a|, k requires 0 <= k < |a| => Finite(a[k]))
  }

  /** Each single-member coefficient times its good's scale. */
  function ScaledBy(single: seq<real>, scales: seq<real>): (r: seq<real>)
    requires |scales| == |single|
    ensures |r| == |single| && forall k :: 0 <= k < |single| ==> r[k] == scales[k] * single[k]
  {
    seq(|single|, k requires 0 <= k < |single| => scales[k] * single[k])
  }

  /** Barten undoes the scaling it measures: when the multi-member
      coefficients are the single-member ones scaled good by good, the
      scales come back, provided no single-member coefficient is zero. */
  lemma BartenInverts(single: seq<real>, scales: seq<real>)
    requires |scales| == |single|
    requires forall k :: 0 <= k < |single| ==> single[k] != 0.0
    ensures Barten(single + ScaledBy(single, scales), |single|) == Finites(scales)
  {
    var goods := |single|;
    var theta := single + ScaledBy(single, scales);
    var a := Barten(theta, goods);
    forall k | 0 <= k < goods
      ensures a[k] == Finite(scales[k])
    {
      BartenEntry(single, scales, theta, a, k);
    }
  }

  lemma BartenEntry(single: seq<real>, scales: seq<real>, theta: seq<real>, a: seq<Float>, k: nat)
    requires |scales| == |single| && k < |single| && single[k] != 0.0
    requires theta == single + ScaledBy(single, scales) && a == Barten(theta, |single|)
    ensures a[k] == Finite(scales[k])
  {
    assert theta[k] == single[k] && theta[|single| + k] == scales[k] * single[k];
    CancelNonZero(a[k].value, scales[k], single[k]);
  }

  lemma CancelNonZero(x: real, y: real, d: real)
    requires d != 0.0 && x * d == y * d
    ensures x == y
  {
    assert (x - y) * d == 0.0;
  }

  /** One entry of `cov / np.outer(v, v)` with `v = np.sqrt(np.diag(cov))`. */
  function CorEntry(sqrt: real -> real, cov: Matrix, n: nat, i: nat, j: nat): (r: Float)
    requires IsSqrt(sqrt) && IsMatrix(cov, n, n) && i < n && j < n
    ensures r.Finite? <==> 0.0 < cov[i][i] && 0.0 < cov[j][j]
    ensures r.Finite? ==> r.value * (sqrt(cov[i][i]) * sqrt(cov[j][j])) == cov[i][j]
    ensures r.Finite? ==> r.value * r.value * (cov[i][i] * cov[j][j]) == cov[i][j] * cov[i][j]
  {
    var vi, vj := SqrtF(sqrt, cov[i][i]), SqrtF(sqrt, cov[j][j]);
    if vi.Finite? && vj.Finite? then
      var r := DivF(cov[i][j], vi.value * vj.value);
      RootsVanish(cov[i][i], vi.value, cov[j][j], vj.value);
      if r.Finite? then
        SquaredRatio(r.value, cov[i][j], vi.value, cov[i][i], vj.value, cov[j][j]);
        r
      else r
    else NonFinite
  }

  /** A product of square roots vanishes exactly when one radicand does. */
  lemma RootsVanish(x: real, sx: real, y: real, sy: real)
    requires 0.0 <= sx && sx * sx == x && 0.0 <= sy && sy * sy == y
    ensures sx * sy != 0.0 <==> x != 0.0 && y != 0.0
  {
    if sx == 0.0 || sy == 0.0 {
      assert sx * sy == 0.0;
    } else {
      assert 0.0 < sx * sy by { MulPos(sx, sy); }
    }
  }

  lemma MulPos(a: real, b: real)
    requires 0.0 < a && 0.0 < b
    ensures 0.0 < a * b
  {
  }

  lemma SquaredRatio(r: real, c: real, sx: real, x: real, sy: real, y: real)
    requires r * (sx * sy) == c && sx * sx == x && sy * sy == y
    ensures r * r * (x * y) == c * c
  {
    calc {
      r * r * (x * y);
      r * r * ((sx * sx) * (sy * sy));
      { assert r * r * ((sx * sx) * (sy * sy)) == (r * (sx * sy)) * (r * (sx * sy)); }
      (r * (sx * sy)) * (r * (sx * sy));
      c * c;
    }
  }

  /** `cov_to_cor`: entry (i, j) is finite exactly when both variances are
      positive, and then it is cov[i][j] / (sqrt(cov[i][i]) * sqrt(cov[j][j])). */
  function CovToCor(sqrt: real -> real, cov: Matrix, n: nat): (cor: seq<seq<Float>>)
    requires IsSqrt(sqrt) && IsMatrix(cov, n, n)
    ensures |cor| == n && forall i :: 0 <= i < n ==> |cor[i]| == n
    ensures forall i, j :: 0 <= i < n && 0 <= j < n ==>
      (cor[i][j].Finite? <==> 0.0 < cov[i][i] && 0.0 < cov[j][j])
    ensures forall i, j :: 0 <= i < n && 0 <= j < n && cor[i][j].Finite? ==>
      cor[i][j].value * (sqrt(cov[i][i]) * sqrt(cov[j][j])) == cov[i][j]
    ensures forall i, j :: 0 <= i < n && 0 <= j < n && cor[i][j].Finite? ==>
      cor[i][j].value * cor[i][j].value * (cov[i][i] * cov[j][j]) == cov[i][j] * cov[i][j]
  {
    seq(n, i requires 0 <= i < n => seq(n, j requires 0 <= j < n => CorEntry(sqrt, cov, n, i, j)))
  }

  /** A finite correlation has the sign of the covariance. */
  lemma CorSign(sqrt: real -> real, cov: Matrix, n: nat, i: nat, j: nat)
    requires IsSqrt(sqrt) && IsMatrix(cov, n, n) && i < n && j < n
    requires CovToCor(sqrt, cov, n)[i][j].Finite?
    ensures 0.0 < CovToCor(sqrt, cov, n)[i][j].value <==> 0.0 < cov[i][j]
    ensures CovToCor(sqrt, cov, n)[i][j].value < 0.0 <==> cov[i][j] < 0.0
  {
    var r := CovToCor(sqrt, cov, n)[i][j].value;
    var d := sqrt(cov[i][i]) * sqrt(cov[j][j]);
    assert 0.0 < sqrt(cov[i][i]) && 0.0 < sqrt(cov[j][j]);
    MulPos(sqrt(cov[i][i]), sqrt(cov[j][j]));
    SignOfProduct(r, d, cov[i][j]);
  }

  lemma SignOfProduct(r: real, d: real, c: real)
    requires 0.0 < d && r * d == c
    ensures (0.0 < r <==> 0.0 < c) && (r < 0.0 <==> c < 0.0)
  {
    if 0.0 < r { MulPos(r, d); }
    if r < 0.0 { MulPos(-r, d); }
  }

  /** A variable with positive variance has correlation 1 with itself. */
  lemma UnitDiagonal(sqrt: real -> real, cov: Matrix, n: nat, i: nat)
    requires IsSqrt(sqrt) && IsMatrix(cov, n, n) && i < n && 0.0 < cov[i][i]
    ensures CovToCor(sqrt, cov, n)[i][i] == Finite(1.0)
  {
    var s := sqrt(cov[i][i]);
    assert SqrtF(sqrt, cov[i][i]) == Finite(s);
    assert s * s == cov[i][i];
    assert cov[i][i] / (s * s) == 1.0;
  }

  /** The correlation matrix of a symmetric matrix is symmetric. */
  lemma CorSymmetric(sqrt: real -> real, cov: Matrix, n: nat, i: nat, j: nat)
    requires IsSqrt(sqrt) && IsMatrix(cov, n, n) && IsSymmetric(cov, n) && i < n && j < n
    ensures CovToCor(sqrt, cov, n)[i][j] == CovToCor(sqrt, cov, n)[j][i]
  {
    var vi, vj := SqrtF(sqrt, cov[i][i]), SqrtF(sqrt, cov[j][j]);
    if vi.Finite? && vj.Finite? {
      assert vi.value * vj.value == vj.value * vi.value;
    }
  }

  /** `np.concatenate([a, [1]])`: the scales with the nonshareable good's
      scale 1 appended. */
  function PadScale(a: seq<real>): (f: seq<real>)
    ensures |f| == |a| + 1 && f[..|a|] == a && f[|a|] == 1.0
  {
    a + [1.0]
  }

  /** `np.block([[C, zeros((K, 1))], [zeros((1, K + 1))]])`: the covariance
      of the scales with a zero row and column for the nonshareable good. */
  function PadCov(c: Matrix, k: nat): (p: Matrix)
    requires IsMatrix(c, k, k)
    ensures IsMatrix(p, k + 1, k + 1)
    ensures forall i, j :: 0 <= i < k && 0 <= j < k ==> p[i][j] == c[i][j]
    ensures forall i :: 0 <= i <= k ==> p[k][i] == 0.0 && p[i][k] == 0.0
  {
    seq(k + 1, i requires 0 <= i <= k =>
      seq(k + 1, j requires 0 <= j <= k => if i < k && j < k then c[i][j] else 0.0))
  }

  /** The zero row and column make the quadratic form blind to the last
      entry: w' Cpad w is the form of C on the shareable goods alone. */
  lemma PadQuadForm(w: seq<real>, c: Matrix, k: nat)
    requires |w| == k + 1 && IsMatrix(c, k, k)
    ensures QuadForm(w, PadCov(c, k)) == QuadForm(w[..k], c)
  {
    var p := PadCov(c, k);
    var head := w[..k];
    var terms := seq(k + 1, i requires 0 <= i < k + 1 => w[i] * Dot(p[i], w));
    var want := seq(k, i requires 0 <= i < k => head[i] * Dot(c[i], head));
    assert QuadForm(w, p) == Sum(terms);
    assert QuadForm(head, c) == Sum(want);
    forall i | 0 <= i < k
      ensures terms[i] == want[i]
    {
      PadDot(c[i], p[i], w, k);
    }
    assert terms[..k] == want;
    DotZeros(p[k], w);
    assert terms == want + [0.0];
    SumAppend(want, 0.0);
  }

  lemma PadDot(row: seq<real>, padded: seq<real>, w: seq<real>, k: nat)
    requires |row| == k && |padded| == k + 1 && |w| == k + 1
    requires padded[k] == 0.0 && forall j :: 0 <= j < k ==> padded[j] == row[j]
    ensures Dot(padded, w) == Dot(row, w[..k])
  {
    var terms := seq(k + 1, i requires 0 <= i < k + 1 => padded[i] * w[i]);
    var head := seq(k, i requires 0 <= i < k => row[i] * w[..k][i]);
    assert Dot(padded, w) == Sum(terms);
    assert Dot(row, w[..k]) == Sum(head);
    forall i | 0 <= i < k
      ensures terms[i] == head[i]
    {
      assert w[..k][i] == w[i];
    }
    assert terms[..k] == head;
    assert terms == head + [0.0];
    SumAppend(head, 0.0);
  }

  /** `rows.mean(axis=0)` of a non-empty sample. */
  function Means(rows: Matrix, width: nat): (mu: seq<real>)
    requires |rows| > 0 && forall r :: 0 <= r < |rows| ==> |rows[r]| == width
    ensures |mu| == width
  {
    seq(width, c requires 0 <= c < width => ColSum(rows, c) / (|rows| as real))
  }

  /** The deviation of row r from the sample means, column by column. */
  function Deviation(rows: Matrix, width: nat, r: nat): (d: seq<real>)
    requires |rows| > 0 && forall q :: 0 <= q < |rows| ==> |rows[q]| == width
    requires r < |rows|
    ensures |d| == width
  {
    var mu := Means(rows, width);
    seq(width, c requires 0 <= c < width => rows[r][c] - mu[c])
  }

  /** The rows' deviations from the sample means. */
  function Deviations(rows: Matrix, width: nat): (d: Matrix)
    requires |rows| > 0 && forall r :: 0 <= r < |rows| ==> |rows[r]| == width
    ensures IsMatrix(d, |rows|, width)
  {
    seq(|rows|, r requires 0 <= r < |rows| => Deviation(rows, width, r))
  }

  /** `pd.DataFrame(rows).cov()`: the sample covariance, the Gram matrix of
      the deviations divided by n - 1. */
  function SampleCov(rows: Matrix, width: nat): (s: Matrix)
    requires |rows| > 1 && forall r :: 0 <= r < |rows| ==> |rows[r]| == width
    ensures IsMatrix(s, width, width) && IsSymmetric(s, width)
  {
    var g := Gram(Deviations(rows, width), width);
    seq(width, a requires 0 <= a < width => seq(width, b requires 0 <= b < width =>
      g[a][b] / ((|rows| - 1) as real)))
  }

  /** A sample covariance matrix is positive semidefinite. */
  lemma SampleCovSemidefinite(rows: Matrix, width: nat)
    requires |rows| > 1 && forall r :: 0 <= r < |rows| ==> |rows[r]| == width
    ensures PositiveSemidefinite(SampleCov(rows, width), width)
  {
    forall x: seq<real> | |x| == width
      ensures 0.0 <= QuadForm(x, SampleCov(rows, width))
    {
      SampleCovForm(rows, width, x);
    }
  }

  lemma SampleCovForm(rows: Matrix, width: nat, x: seq<real>)
    requires |rows| > 1 && forall r :: 0 <= r < |rows| ==> |rows[r]| == width
    requires |x| == width
    ensures 0.0 <= QuadForm(x, SampleCov(rows, width))
  {
    SampleCovEntries(rows, width);
    ScaledGramForm(Deviations(rows, width), width, SampleCov(rows, width), (|rows| - 1) as real, x);
  }

  lemma SampleCovEntries(rows: Matrix, width: nat)
    requires |rows| > 1 && forall r :: 0 <= r < |rows| ==> |rows[r]| == width
    ensures forall a, b :: 0 <= a < width && 0 <= b < width ==>
      SampleCov(rows, width)[a][b] == Gram(Deviations(rows, width), width)[a][b] / ((|rows| - 1) as real)
  {
  }


  /** The variance of the index for one type: the part from the spread of
      the singles' budget shares, w_cov, weighted by the scales, plus the
      part from the spread of the scales, weighted by the mean shares. */
  function Radicand(a: seq<real>, c: Matrix, singles: Matrix, goods: nat): real
    requires |a| == goods && IsMatrix(c, goods, goods)
    requires |singles| > 1 && forall r :: 0 <= r < |singles| ==> |singles[r]| == goods + 1
  {
    QuadForm(PadScale(a), SampleCov(singles, goods + 1))
      + QuadForm(Means(singles, goods + 1), PadCov(c, goods))
  }

  /** The finite values of a vector of floats, when all are finite. */
  function AllFinite(a: seq<Float>): (r: Option<seq<real>>)
    ensures r.Some? <==> forall k :: 0 <= k < |a| ==> a[k].Finite?
    ensures r.Some? ==> |r.value| == |a| && forall k :: 0 <= k < |a| ==> a[k] == Finite(r.value[k])
  {
    if forall k :: 0 <= k < |a| ==> a[k].Finite? then
      Some(seq(|a|, k requires 0 <= k < |a| => a[k].value))
    else None
  }

  /** One entry of `scale`: the square root of the radicand. A nan or inf
      scale, or fewer than two single rows (pandas then reports a nan
      covariance), makes the entry nan. */
  function ScaleStd(sqrt: real -> real, a: seq<Float>, c: Matrix, singles: Matrix, goods: nat): (std: Float)
    requires IsSqrt(sqrt) && |a| == goods && IsMatrix(c, goods, goods)
    requires forall r :: 0 <= r < |singles| ==> |singles[r]| == goods + 1
    ensures std.Finite? ==> |singles| > 1 && (forall k :: 0 <= k < goods ==> a[k].Finite?)
    ensures std.Finite? ==> 0.0 <= std.value
  {
    match AllFinite(a)
    case None => NonFinite
    case Some(scales) =>
      if |singles| < 2 then NonFinite
      else SqrtF(sqrt, Radicand(scales, c, singles, goods))
  }

  /** When everything is finite the entry squares to the two variance
      parts, and the part of the scales' covariance only involves the
      shareable goods' mean shares. */
  lemma ScaleStdSquares(sqrt: real -> real, a: seq<real>, c: Matrix, singles: Matrix, goods: nat)
    requires IsSqrt(sqrt) && |a| == goods && IsMatrix(c, goods, goods)
    requires |singles| > 1 && forall r :: 0 <= r < |singles| ==> |singles[r]| == goods + 1
    ensures var std := ScaleStd(sqrt, Finites(a), c, singles, goods);
      var rad := QuadForm(PadScale(a), SampleCov(singles, goods + 1))
        + QuadForm(Means(singles, goods + 1)[..goods], c);
      (std.Finite? <==> 0.0 <= rad) && (std.Finite? ==> std.value * std.value == rad)
  {
    assert AllFinite(Finites(a)).value == a;
    PadQuadForm(Means(singles, goods + 1), c, goods);
  }

  /** With a positive semidefinite scale covariance, as nearestPD makes
      it, finite scales and at least two single households, the entry is
      always defined: both variance parts are non-negative. */
  lemma ScaleStdDefined(sqrt: real -> real, a: seq<Float>, c: Matrix, singles: Matrix, goods: nat)
    requires IsSqrt(sqrt) && |a| == goods && IsMatrix(c, goods, goods)
    requires forall r :: 0 <= r < |singles| ==> |singles[r]| == goods + 1
    requires PositiveSemidefinite(c, goods) && |singles| > 1
    requires forall k :: 0 <= k < goods ==> a[k].Finite?
    ensures ScaleStd(sqrt, a, c, singles, goods).Finite?
  {
    RadicandNonNegative(AllFinite(a).value, c, singles, goods);
  }

  lemma RadicandNonNegative(a: seq<real>, c: Matrix, singles: Matrix, goods: nat)
    requires |a| == goods && IsMatrix(c, goods, goods) && PositiveSemidefinite(c, goods)
    requires |singles| > 1 && forall r :: 0 <= r < |singles| ==> |singles[r]| == goods + 1
    ensures 0.0 <= Radicand(a, c, singles, goods)
  {
    SampleCovForm(singles, goods + 1, PadScale(a));
    var mu := Means(singles, goods + 1);
    PadQuadForm(mu, c, goods);
    assert 0.0 <= QuadForm(mu[..goods], c);
  }

  /** `scale`: the sample of single households is cut once, its mean shares
      and covariance computed once, and one entry is appended per type. */
  method Scale(sqrt: real -> real, bartens: seq<seq<Float>>, covs: seq<Matrix>, data: Matrix,
               single: seq<real>, goods: nat)
    returns (std: seq<Float>)
    requires IsSqrt(sqrt) && |covs| == |bartens|
    requires forall tt :: 0 <= tt < |bartens| ==> |bartens[tt]| == goods && IsMatrix(covs[tt], goods, goods)
    requires IsMatrix(data, |single|, goods + 1)
    ensures |std| == |bartens|
    ensures forall tt :: 0 <= tt < |bartens| ==>
      std[tt] == ScaleStd(sqrt, bartens[tt], covs[tt], Singles(data, single, goods + 1), goods)
  {
    var singles := Singles(data, single, goods + 1);
    std := [];
    for tt := 0 to |bartens|
      invariant |std| == tt
      invariant forall u :: 0 <= u < tt ==> std[u] == ScaleStd(sqrt, bartens[u], covs[u], singles, goods)
    {
      std := std + [ScaleStd(sqrt, bartens[tt], covs[tt], singles, goods)];
    }
  }

  /** `data[single_indicator == 1, :]`. */
  function Singles(data: Matrix, single: seq<real>, width: nat): (rows: Matrix)
    requires IsMatrix(data, |single|, width)
    ensures forall x :: x in rows ==> x in data
    ensures forall r :: 0 <= r < |rows| ==> |rows[r]| == width
  {
    var rows := Where(data, seq(|single|, n requires 0 <= n < |single| => single[n] == 1.0));
    assert forall r :: 0 <= r < |rows| ==> rows[r] in data;
    rows
  }
}
