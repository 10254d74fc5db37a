/** Real-valued vectors and matrices as the estimation code handles them
    (NumPy arrays of float64), together with the two IEEE outcomes the code
    can run into: a finite number, or a non-finite one (nan or inf) produced
    by a division by zero or the square root of a negative number. */
module Numerics {

  /** One float64 result: finite, or nan/inf. */
  datatype Float = Finite(value: real) | NonFinite

  datatype Option<T> = None | Some(value: T)

  /** A matrix is a sequence of rows. */
  type Matrix = seq<seq<real>>

  ghost predicate IsMatrix(m: Matrix, rows: nat, cols: nat) {
    |m| == rows && forall r :: 0 <= r < rows ==> |m[r]| == cols
  }

  ghost predicate IsSymmetric(m: Matrix, n: nat)
    requires IsMatrix(m, n, n)
  {
    forall i, j :: 0 <= i < n && 0 <= j < n ==> m[i][j] == m[j][i]
  }

  /** `sqrt` is a square root: it is characterised by its defining equation
      on the non-negative reals, and nothing else is known about it. */
  ghost predicate IsSqrt(sqrt: real -> real) {
    forall x {:trigger sqrt(x)} :: 0.0 <= x ==> 0.0 <= sqrt(x) && sqrt(x) * sqrt(x) == x
  }

  /** np.sqrt on one float64: the square root of a negative number is nan. */
  function SqrtF(sqrt: real -> real, x: real): (r: Float)
    requires IsSqrt(sqrt)
    ensures r.Finite? <==> 0.0 <= x
    ensures r.Finite? ==> 0.0 <= r.value && r.value * r.value == x
  {
    if x < 0.0 then NonFinite else Finite(sqrt(x))
  }

  /** float64 division: dividing by zero gives nan or inf. */
  function DivF(a: real, b: real): (r: Float)
    ensures r.Finite? <==> b != 0.0
    ensures r.Finite? ==> r.value * b == a
  {
    if b == 0.0 then NonFinite else Finite(a / b)
  }

  /** Strictly ascending: distinct indices in order. */
  ghost predicate Increasing(u: seq<nat>) {
    forall i, j :: 0 <= i < j < |u| ==> u[i] < u[j]
  }

  /** Appending an id above every id keeps a list ascending. */
  lemma AppendIncreasing(u: seq<nat>, x: nat)
    requires Increasing(u) && forall y :: y in u ==> y < x
    ensures Increasing(u + [x])
  {
    assert forall i :: 0 <= i < |u| ==> u[i] in u;
  }

  /** A row of zeros, as np.zeros fills a fresh array. */
  function Zeros(n: nat): (z: seq<real>)
    ensures |z| == n && forall j :: 0 <= j < n ==> z[j] == 0.0
  {
    seq(n, _ => 0.0)
  }

  /** Sum of a vector, accumulated left to right. */
  function Sum(s: seq<real>): real
  {
    if s == [] then 0.0 else Sum(s[..|s| - 1]) + s[|s| - 1]
  }

  lemma {:induction false} SumAppend(s: seq<real>, x: real)
    ensures Sum(s + [x]) == Sum(s) + x
  {
    assert (s + [x])[..|s + [x]| - 1] == s;
  }

  lemma {:induction false} SumConcat(a: seq<real>, b: seq<real>)
    ensures Sum(a + b) == Sum(a) + Sum(b)
    decreases |b|
  {
    if b == [] {
      assert a + b == a;
    } else {
      var b' := b[..|b| - 1];
      assert a + b == (a + b') + [b[|b| - 1]];
      SumAppend(a + b', b[|b| - 1]);
      SumConcat(a, b');
      SumAppend(b', b[|b| - 1]);
      assert b == b' + [b[|b| - 1]];
    }
  }

  /** Summing the elementwise difference with a constant removes n copies of it. */
  lemma {:induction false} SumMinusConstant(s: seq<real>, c: real, d: seq<real>)
    requires |d| == |s|
    requires forall k :: 0 <= k < |s| ==> d[k] == s[k] - c
    ensures Sum(d) == Sum(s) - (|s| as real) * c
    decreases |s|
  {
    if s != [] {
      var n := |s| - 1;
      SumMinusConstant(s[..n], c, d[..n]);
    }
  }

  /** Deviations from the mean sum to zero. */
  lemma DeviationsSumZero(s: seq<real>, mean: real, d: seq<real>)
    requires s != [] && mean == Sum(s) / (|s| as real)
    requires |d| == |s| && forall k :: 0 <= k < |s| ==> d[k] == s[k] - mean
    ensures Sum(d) == 0.0
  {
    SumMinusConstant(s, mean, d);
    MeanCancels(Sum(s), |s| as real, mean, Sum(d));
  }

  lemma ZeroOver(n: real)
    requires n != 0.0
    ensures 0.0 / n == 0.0
  {
  }

  lemma MeanCancels(total: real, n: real, mean: real, deviations: real)
    requires n > 0.0 && mean == total / n && deviations == total - n * mean
    ensures deviations == 0.0
  {
  }

  /** Sum of a vector whose entries are all zero. */
  lemma {:induction false} SumZeros(s: seq<real>)
    requires forall k :: 0 <= k < |s| ==> s[k] == 0.0
    ensures Sum(s) == 0.0
    decreases |s|
  {
    if s != [] {
      SumZeros(s[..|s| - 1]);
    }
  }

  /** Scaling every entry scales the sum. */
  lemma {:induction false} SumScaled(s: seq<real>, c: real, d: seq<real>)
    requires |d| == |s|
    requires forall k :: 0 <= k < |s| ==> d[k] == c * s[k]
    ensures Sum(d) == c * Sum(s)
    decreases |s|
  {
    if s != [] {
      var n := |s| - 1;
      SumScaled(s[..n], c, d[..n]);
      assert Sum(d) == c * Sum(s[..n]) + c * s[n];
    }
  }

  /** Every row of m has an entry in column c. */
  ghost predicate HasColumn(m: Matrix, c: nat) {
    forall r :: 0 <= r < |m| ==> c < |m[r]|
  }

  /** `m[:, c].sum()`. */
  function ColSum(m: Matrix, c: nat): real
    requires HasColumn(m, c)
  {
    Sum(seq(|m|, r requires 0 <= r < |m| => m[r][c]))
  }

  /** Inner product x . y. */
  function Dot(x: seq<real>, y: seq<real>): real
    requires |x| == |y|
  {
    Sum(seq(|x|, i requires 0 <= i < |x| => x[i] * y[i]))
  }

  /** Quadratic form x' M x, as `x @ M @ x` evaluates it. */
  function QuadForm(x: seq<real>, m: Matrix): real
    requires IsMatrix(m, |x|, |x|)
  {
    Sum(seq(|x|, i requires 0 <= i < |x| => x[i] * Dot(m[i], x)))
  }

  /** Adding two vectors entry by entry adds their sums. */
  lemma {:induction false} SumAdd(a: seq<real>, b: seq<real>, c: seq<real>)
    requires |a| == |c| && |b| == |c|
    requires forall k :: 0 <= k < |c| ==> c[k] == a[k] + b[k]
    ensures Sum(c) == Sum(a) + Sum(b)
    decreases |c|
  {
    if c != [] {
      var n := |c| - 1;
      SumAdd(a[..n], b[..n], c[..n]);
    }
  }

  /** A sum of non-negative entries is non-negative. */
  lemma {:induction false} SumNonNegative(s: seq<real>)
    requires forall k :: 0 <= k < |s| ==> 0.0 <= s[k]
    ensures 0.0 <= Sum(s)
    decreases |s|
  {
    if s != [] {
      SumNonNegative(s[..|s| - 1]);
    }
  }

  /** x' M x >= 0 for every x. */
  ghost predicate PositiveSemidefinite(m: Matrix, n: nat)
    requires IsMatrix(m, n, n)
  {
    forall x: seq<real> :: |x| == n ==> 0.0 <= QuadForm(x, m)
  }

  /** Entry (a, b) of D'D: the sum over the rows of d[r][a] * d[r][b]. */
  function GramEntry(d: Matrix, w: nat, a: nat, b: nat): real
    requires forall r :: 0 <= r < |d| ==> |d[r]| == w
    requires a < w && b < w
  {
    Sum(seq(|d|, r requires 0 <= r < |d| => d[r][a] * d[r][b]))
  }

  /** The Gram matrix D'D of the rows of d, each of width w. */
  function Gram(d: Matrix, w: nat): (g: Matrix)
    requires forall r :: 0 <= r < |d| ==> |d[r]| == w
    ensures IsMatrix(g, w, w) && IsSymmetric(g, w)
    ensures forall a, b :: 0 <= a < w && 0 <= b < w ==> g[a][b] == GramEntry(d, w, a, b)
  {
    var g := seq(w, a requires 0 <= a < w => seq(w, b requires 0 <= b < w => GramEntry(d, w, a, b)));
    assert forall a, b :: 0 <= a < w && 0 <= b < w ==> g[a][b] == g[b][a] by {
      forall a, b | 0 <= a < w && 0 <= b < w
        ensures g[a][b] == g[b][a]
      {
        assert seq(|d|, r requires 0 <= r < |d| => d[r][a] * d[r][b])
            == seq(|d|, r requires 0 <= r < |d| => d[r][b] * d[r][a]);
      }
    }
    g
  }

  lemma DotZeros(z: seq<real>, w: seq<real>)
    requires |z| == |w| && forall i :: 0 <= i < |z| ==> z[i] == 0.0
    ensures Dot(z, w) == 0.0
  {
    SumZeros(seq(|z|, i requires 0 <= i < |z| => z[i] * w[i]));
  }

  /** The inner product is additive in its first argument. */
  lemma DotAdd(u: seq<real>, v: seq<real>, s: seq<real>, x: seq<real>)
    requires |u| == |x| && |v| == |x| && |s| == |x|
    requires forall k :: 0 <= k < |x| ==> s[k] == u[k] + v[k]
    ensures Dot(s, x) == Dot(u, x) + Dot(v, x)
  {
    var tu := seq(|u|, i requires 0 <= i < |u| => u[i] * x[i]);
    var tv := seq(|v|, i requires 0 <= i < |v| => v[i] * x[i]);
    var ts := seq(|s|, i requires 0 <= i < |s| => s[i] * x[i]);
    SumAdd(tu, tv, ts);
  }

  /** The quadratic form is additive in the matrix. */
  lemma QuadFormAdd(x: seq<real>, a: Matrix, b: Matrix, c: Matrix)
    requires IsMatrix(a, |x|, |x|) && IsMatrix(b, |x|, |x|) && IsMatrix(c, |x|, |x|)
    requires forall i, j :: 0 <= i < |x| && 0 <= j < |x| ==> c[i][j] == a[i][j] + b[i][j]
    ensures QuadForm(x, c) == QuadForm(x, a) + QuadForm(x, b)
  {
    var n := |x|;
    var ta := seq(n, i requires 0 <= i < n => x[i] * Dot(a[i], x));
    var tb := seq(n, i requires 0 <= i < n => x[i] * Dot(b[i], x));
    var tc := seq(n, i requires 0 <= i < n => x[i] * Dot(c[i], x));
    forall i | 0 <= i < n
      ensures tc[i] == ta[i] + tb[i]
    {
      DotAdd(a[i], b[i], c[i], x);
    }
    SumAdd(ta, tb, tc);
  }

  /** The form of an outer product v v' is the square of v . x. */
  lemma QuadFormOuter(x: seq<real>, v: seq<real>, m: Matrix)
    requires |v| == |x| && IsMatrix(m, |x|, |x|)
    requires forall i, j :: 0 <= i < |x| && 0 <= j < |x| ==> m[i][j] == v[i] * v[j]
    ensures QuadForm(x, m) == Dot(v, x) * Dot(v, x)
  {
    var p := Dot(v, x);
    forall i | 0 <= i < |x|
      ensures Dot(m[i], x) == v[i] * p
    {
      DotScaled(v, m[i], x, v[i]);
    }
    QuadFormRowMultiples(x, m, v, p);
  }

  /** When row i of m meets x in v[i] * p, the form is p (v . x). */
  lemma QuadFormRowMultiples(x: seq<real>, m: Matrix, v: seq<real>, p: real)
    requires |v| == |x| && IsMatrix(m, |x|, |x|)
    requires forall i :: 0 <= i < |x| ==> Dot(m[i], x) == v[i] * p
    ensures QuadForm(x, m) == p * Dot(v, x)
  {
    var n := |x|;
    var vx := seq(n, i requires 0 <= i < n => v[i] * x[i]);
    var terms := seq(n, i requires 0 <= i < n => x[i] * Dot(m[i], x));
    forall i | 0 <= i < n
      ensures terms[i] == p * vx[i]
    {
      MulRearrange(x[i], v[i], p);
    }
    SumScaled(vx, p, terms);
  }

  lemma MulRearrange(y: real, u: real, p: real)
    ensures y * (u * p) == p * (u * y)
  {
  }

  /** The sum over the rows of d of (d[r] . x)^2. */
  function SquareSum(d: Matrix, x: seq<real>): real
    requires forall r :: 0 <= r < |d| ==> |d[r]| == |x|
  {
    Sum(seq(|d|, r requires 0 <= r < |d| => Dot(d[r], x) * Dot(d[r], x)))
  }

  /** x' (D'D) x is the sum over the rows of d of (d[r] . x)^2. */
  lemma {:induction false} GramForm(d: Matrix, w: nat, x: seq<real>)
    requires forall r :: 0 <= r < |d| ==> |d[r]| == w
    requires |x| == w
    ensures QuadForm(x, Gram(d, w)) == SquareSum(d, x)
    decreases |d|
  {
    var n := |d|;
    if n == 0 {
      GramFormEmpty(d, w, x);
    } else {
      var front, last := d[..n - 1], d[n - 1];
      var g, gf := Gram(d, w), Gram(front, w);
      GramForm(front, w, x);
      GramSplit(d, w, g, gf);
      FormPlusOuter(x, g, gf, last);
      SquaresStep(d, front, last, x);
    }
  }

  lemma GramFormEmpty(d: Matrix, w: nat, x: seq<real>)
    requires d == [] && |x| == w
    ensures QuadForm(x, Gram(d, w)) == 0.0
  {
    forall i | 0 <= i < w
      ensures Dot(Gram(d, w)[i], x) == 0.0
    {
      DotZeros(Gram(d, w)[i], x);
    }
    SumZeros(seq(w, i requires 0 <= i < w => x[i] * Dot(Gram(d, w)[i], x)));
  }

  lemma SquaresStep(d: Matrix, front: Matrix, last: seq<real>, x: seq<real>)
    requires forall r :: 0 <= r < |d| ==> |d[r]| == |x|
    requires |d| > 0 && front == d[..|d| - 1] && last == d[|d| - 1]
    ensures |last| == |x| && forall r :: 0 <= r < |front| ==> |front[r]| == |x|
    ensures SquareSum(d, x) == SquareSum(front, x) + Dot(last, x) * Dot(last, x)
  {
    var n := |d|;
    var squares := seq(n, r requires 0 <= r < n => Dot(d[r], x) * Dot(d[r], x));
    var fs := seq(n - 1, r requires 0 <= r < n - 1 => Dot(front[r], x) * Dot(front[r], x));
    forall r | 0 <= r < n - 1
      ensures squares[..n - 1][r] == fs[r]
    {
      assert front[r] == d[r];
    }
    assert squares[..n - 1] == fs;
  }

  /** One more row adds its outer product: g and gf stand for the Gram
      matrices of d and of d without its last row. */
  lemma GramSplit(d: Matrix, w: nat, g: Matrix, gf: Matrix)
    requires forall r :: 0 <= r < |d| ==> |d[r]| == w
    requires |d| > 0 && IsMatrix(g, w, w) && IsMatrix(gf, w, w)
    requires forall a, b :: 0 <= a < w && 0 <= b < w ==> g[a][b] == GramEntry(d, w, a, b)
    requires forall a, b :: 0 <= a < w && 0 <= b < w ==> gf[a][b] == GramEntry(d[..|d| - 1], w, a, b)
    ensures forall a, b :: 0 <= a < w && 0 <= b < w ==> g[a][b] == gf[a][b] + d[|d| - 1][a] * d[|d| - 1][b]
  {
    forall a, b | 0 <= a < w && 0 <= b < w
      ensures g[a][b] == gf[a][b] + d[|d| - 1][a] * d[|d| - 1][b]
    {
      GramEntryStep(d, w, a, b);
    }
  }

  /** Adding the outer product v v' to a matrix adds (v . x)^2 to its form. */
  lemma FormPlusOuter(x: seq<real>, g: Matrix, gf: Matrix, v: seq<real>)
    requires IsMatrix(g, |x|, |x|) && IsMatrix(gf, |x|, |x|) && |v| == |x|
    requires forall a, b :: 0 <= a < |x| && 0 <= b < |x| ==> g[a][b] == gf[a][b] + v[a] * v[b]
    ensures QuadForm(x, g) == QuadForm(x, gf) + Dot(v, x) * Dot(v, x)
  {
    var outer := Outer(v);
    QuadFormAdd(x, gf, outer, g);
    QuadFormOuter(x, v, outer);
  }

  /** The outer product v v'. */
  function Outer(v: seq<real>): (m: Matrix)
    ensures IsMatrix(m, |v|, |v|)
    ensures forall a, b :: 0 <= a < |v| && 0 <= b < |v| ==> m[a][b] == v[a] * v[b]
  {
    seq(|v|, a requires 0 <= a < |v| => seq(|v|, b requires 0 <= b < |v| => v[a] * v[b]))
  }

  lemma GramEntryStep(d: Matrix, w: nat, a: nat, b: nat)
    requires forall r :: 0 <= r < |d| ==> |d[r]| == w
    requires |d| > 0 && a < w && b < w
    ensures GramEntry(d, w, a, b) == GramEntry(d[..|d| - 1], w, a, b) + d[|d| - 1][a] * d[|d| - 1][b]
  {
    var n := |d|;
    var front := d[..n - 1];
    var terms := seq(n, r requires 0 <= r < n => d[r][a] * d[r][b]);
    var ft := seq(n - 1, r requires 0 <= r < n - 1 => front[r][a] * front[r][b]);
    forall r | 0 <= r < n - 1
      ensures terms[..n - 1][r] == ft[r]
    {
      assert front[r] == d[r];
    }
    assert terms[..n - 1] == ft;
  }

  /** Every Gram matrix is positive semidefinite. */
  lemma GramSemidefinite(d: Matrix, w: nat)
    requires forall r :: 0 <= r < |d| ==> |d[r]| == w
    ensures PositiveSemidefinite(Gram(d, w), w)
  {
    forall x: seq<real> | |x| == w
      ensures 0.0 <= QuadForm(x, Gram(d, w))
    {
      GramFormNonNegative(d, w, x);
    }
  }

  lemma GramFormNonNegative(d: Matrix, w: nat, x: seq<real>)
    requires forall r :: 0 <= r < |d| ==> |d[r]| == w
    requires |x| == w
    ensures 0.0 <= QuadForm(x, Gram(d, w))
  {
    GramForm(d, w, x);
    var squares := seq(|d|, r requires 0 <= r < |d| => Dot(d[r], x) * Dot(d[r], x));
    forall r | 0 <= r < |d|
      ensures 0.0 <= squares[r]
    {
      Square(Dot(d[r], x));
    }
    SumNonNegative(squares);
  }

  /** A Gram matrix divided by a positive number has a non-negative form. */
  lemma ScaledGramForm(d: Matrix, w: nat, s: Matrix, q: real, x: seq<real>)
    requires forall r :: 0 <= r < |d| ==> |d[r]| == w
    requires IsMatrix(s, w, w) && 0.0 < q && |x| == w
    requires forall a, b :: 0 <= a < w && 0 <= b < w ==> s[a][b] == Gram(d, w)[a][b] / q
    ensures 0.0 <= QuadForm(x, s)
  {
    var g := Gram(d, w);
    QuadFormDivided(x, g, s, q);
    GramFormNonNegative(d, w, x);
    ScaledNonNegative(QuadForm(x, g), QuadForm(x, s), q);
  }

  lemma ScaledNonNegative(y: real, z: real, q: real)
    requires 0.0 <= y && 0.0 < q && z == (1.0 / q) * y
    ensures 0.0 <= z
  {
    assert 0.0 < 1.0 / q;
  }

  lemma Square(y: real)
    ensures 0.0 <= y * y
  {
    if y < 0.0 {
      assert y * y == (-y) * (-y);
    }
  }

  /** Dividing every entry by q > 0 divides the form by q. */
  lemma QuadFormDivided(x: seq<real>, a: Matrix, b: Matrix, q: real)
    requires 0.0 < q && IsMatrix(a, |x|, |x|) && IsMatrix(b, |x|, |x|)
    requires forall i, j :: 0 <= i < |x| && 0 <= j < |x| ==> b[i][j] == a[i][j] / q
    ensures QuadForm(x, b) == (1.0 / q) * QuadForm(x, a)
  {
    var c := 1.0 / q;
    forall i | 0 <= i < |x|
      ensures Dot(b[i], x) == c * Dot(a[i], x)
    {
      forall j | 0 <= j < |x|
        ensures b[i][j] == c * a[i][j]
      {
        DivideIsScale(a[i][j], q);
      }
      DotScaled(a[i], b[i], x, c);
    }
    QuadFormRowsScaled(x, a, b, c);
  }

  /** When every row of b meets x in c times what the row of a does, the
      form of b is c times the form of a. */
  lemma QuadFormRowsScaled(x: seq<real>, a: Matrix, b: Matrix, c: real)
    requires IsMatrix(a, |x|, |x|) && IsMatrix(b, |x|, |x|)
    requires forall i :: 0 <= i < |x| ==> Dot(b[i], x) == c * Dot(a[i], x)
    ensures QuadForm(x, b) == c * QuadForm(x, a)
  {
    var n := |x|;
    var ta := seq(n, i requires 0 <= i < n => x[i] * Dot(a[i], x));
    var tb := seq(n, i requires 0 <= i < n => x[i] * Dot(b[i], x));
    forall i | 0 <= i < n
      ensures tb[i] == c * ta[i]
    {
      MulSwap(x[i], c, Dot(a[i], x));
    }
    SumScaled(ta, c, tb);
  }

  lemma DivideIsScale(y: real, q: real)
    requires 0.0 < q
    ensures y / q == (1.0 / q) * y
  {
  }

  lemma MulSwap(y: real, c: real, z: real)
    ensures y * (c * z) == c * (y * z)
  {
  }

  /** Scaling a vector by c scales its inner products by c. */
  lemma DotScaled(u: seq<real>, v: seq<real>, x: seq<real>, c: real)
    requires |u| == |x| && |v| == |x|
    requires forall j :: 0 <= j < |x| ==> v[j] == c * u[j]
    ensures Dot(v, x) == c * Dot(u, x)
  {
    var n := |x|;
    var tu := seq(n, j requires 0 <= j < n => u[j] * x[j]);
    var tv := seq(n, j requires 0 <= j < n => v[j] * x[j]);
    forall j | 0 <= j < n
      ensures tv[j] == c * tu[j]
    {
      MulSwap(x[j], c, u[j]);
    }
    SumScaled(tu, c, tv);
  }

  /** Concatenation of equally sized blocks, as pd.concat grows an
      accumulator block by block. */
  function Flatten<T>(blocks: seq<seq<T>>): seq<T>
  {
    if blocks == [] then [] else Flatten(blocks[..|blocks| - 1]) + blocks[|blocks| - 1]
  }

  /** Block b of a concatenation of blocks of width n starts at b * n. */
  lemma {:induction false} FlattenAt<T>(blocks: seq<seq<T>>, n: nat, b: nat, p: nat)
    requires forall k :: 0 <= k < |blocks| ==> |blocks[k]| == n
    requires b < |blocks| && p < n
    ensures |Flatten(blocks)| == |blocks| * n
    ensures b * n + p < |Flatten(blocks)|
    ensures Flatten(blocks)[b * n + p] == blocks[b][p]
    decreases |blocks|
  {
    var last := |blocks| - 1;
    FlattenLength(blocks, n);
    FlattenLength(blocks[..last], n);
    if b < last {
      FlattenAt(blocks[..last], n, b, p);
      assert b * n + p < last * n by { MulMono(b + 1, last, n); }
    } else {
      assert b * n + p - last * n == p;
    }
  }

  lemma {:induction false} FlattenLength<T>(blocks: seq<seq<T>>, n: nat)
    requires forall k :: 0 <= k < |blocks| ==> |blocks[k]| == n
    ensures |Flatten(blocks)| == |blocks| * n
    decreases |blocks|
  {
    if blocks != [] {
      FlattenLength(blocks[..|blocks| - 1], n);
      assert |blocks| * n == (|blocks| - 1) * n + n;
    }
  }

  /** Column c of a row of h blocks of width w sits in block c / w at
      offset c % w. */
  lemma DivModSplit(c: nat, w: nat, h: nat)
    requires c < w * h
    ensures 0 < w && c % w < w && c / w < h && c == (c / w) * w + c % w
  {
    var j := c / w;
    if j >= h {
      MulMono(h, j, w);
      assert false;
    }
  }

  /** A slice of a prefix is the same slice of the whole. */
  lemma PrefixSlice<T>(s: seq<T>, cut: nat, lo: nat, hi: nat)
    requires lo <= hi <= cut <= |s|
    ensures s[..cut][lo..hi] == s[lo..hi]
  {
  }

  /** Entry p of a slice is entry lo + p of the whole. */
  lemma SliceAt<T>(s: seq<T>, lo: nat, hi: nat, p: nat)
    requires lo <= hi <= |s| && p < hi - lo
    ensures lo + p < |s| && s[lo..hi][p] == s[lo + p]
  {
  }

  /** Appending or prepending an empty list changes nothing. */
  lemma ConcatEmpty<T>(a: seq<T>, b: seq<T>)
    requires b == []
    ensures a + b == a && b + a == a
  {
  }

  /** A suffix is the slice up to the end. */
  lemma SuffixSlice<T>(s: seq<T>, cut: nat)
    requires cut <= |s|
    ensures s[cut..] == s[cut..|s|]
  {
  }

  lemma MulSucc(a: nat, n: nat)
    ensures (a + 1) * n == a * n + n
  {
  }

  lemma MulMono(a: nat, b: nat, n: nat)
    requires a <= b
    ensures a * n <= b * n
  {
  }
}
