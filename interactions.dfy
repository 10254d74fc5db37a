/** Row-wise interactions `(a[:, None] * b[..., None]).reshape(N, -1)`:
    for one observation with a row a of width A and a row b of width B the
    product is laid out block by block, one block of width A per entry of b,
    so column j * A + i holds a[i] * b[j]. The same idiom builds the
    province-year cells g, the group-type cells gt, the type interactions
    eryt and zt, and the group-pair sums. Column names follow the same order
    (type outer, good inner), which is what lets the code pick the columns
    of good k either by name or by a stride-K slice. */
module Interactions {
  import opened Numerics

  /** One block of the product: the row a scaled by one entry c of b. */
  function Block(a: seq<real>, c: real): (r: seq<real>)
    ensures |r| == |a| && forall i :: 0 <= i < |a| ==> r[i] == a[i] * c
  {
    seq(|a|, i requires 0 <= i < |a| => a[i] * c)
  }

  /** The interaction of two rows of one observation. */
  function InteractRow(a: seq<real>, b: seq<real>): seq<real>
  {
    Flatten(seq(|b|, j requires 0 <= j < |b| => Block(a, b[j])))
  }

  /** The interaction of two N-row matrices, observation by observation. */
  function Interact(a: Matrix, b: Matrix): (r: Matrix)
    requires |a| == |b|
    ensures |r| == |a| && forall n :: 0 <= n < |a| ==> r[n] == InteractRow(a[n], b[n])
  {
    seq(|a|, n requires 0 <= n < |a| => InteractRow(a[n], b[n]))
  }

  /** The product has width A * B and holds a[i] * b[j] at column j * A + i. */
  lemma InteractAt(a: seq<real>, b: seq<real>, i: nat, j: nat)
    requires i < |a| && j < |b|
    ensures |InteractRow(a, b)| == |a| * |b|
    ensures j * |a| + i < |a| * |b|
    ensures InteractRow(a, b)[j * |a| + i] == a[i] * b[j]
  {
    var blocks := seq(|b|, j requires 0 <= j < |b| => Block(a, b[j]));
    FlattenAt(blocks, |a|, j, i);
  }

  lemma InteractWidth(a: seq<real>, b: seq<real>)
    ensures |InteractRow(a, b)| == |a| * |b|
  {
    FlattenLength(seq(|b|, j requires 0 <= j < |b| => Block(a, b[j])), |a|);
  }

  /** Read the other way round: column c of the product is
      a[c % A] * b[c / A]. */
  lemma InteractColumn(a: seq<real>, b: seq<real>, c: nat)
    requires c < |a| * |b|
    ensures |InteractRow(a, b)| == |a| * |b|
    ensures c / |a| < |b| && InteractRow(a, b)[c] == a[c % |a|] * b[c / |a|]
  {
    DivModSplit(c, |a|, |b|);
    InteractAt(a, b, c % |a|, c / |a|);
  }

  /** x is an indicator row with its only 1 at position p. */
  ghost predicate OneHot(x: seq<real>, p: nat) {
    p < |x| && x[p] == 1.0 && forall q :: 0 <= q < |x| && q != p ==> x[q] == 0.0
  }

  /** Interacting two indicator rows gives an indicator row: an observation
      in province-year g and of type t lies in exactly the cell t * G + g. */
  lemma InteractOneHot(a: seq<real>, b: seq<real>, i: nat, j: nat)
    requires OneHot(a, i) && OneHot(b, j)
    ensures OneHot(InteractRow(a, b), j * |a| + i)
  {
    var r := InteractRow(a, b);
    InteractAt(a, b, i, j);
    forall c | 0 <= c < |r| && c != j * |a| + i
      ensures r[c] == 0.0
    {
      InteractColumn(a, b, c);
      DivModSplit(c, |a|, |b|);
      if c % |a| != i {
        assert a[c % |a|] == 0.0;
      } else {
        assert c / |a| != j;
        assert b[c / |a|] == 0.0;
      }
    }
  }

  /** Name of a column of eryt: `er{good}y_{type}`. The good's code is
      delimited by "er" and "y_", so a name test `f"er{k}y_" in col` holds
      exactly when the column's good is k. */
  datatype EryName = EryName(good: nat, typ: nat)

  /** The names of type tt's block: goods 0 .. K - 1 in order. */
  function TypeBlock(goods: nat, tt: nat): (r: seq<EryName>)
    ensures |r| == goods && forall k :: 0 <= k < goods ==> r[k] == EryName(k, tt)
  {
    seq(goods, k requires 0 <= k < goods => EryName(k, tt))
  }

  /** Column names of eryt for K goods and T types, type outer, good inner. */
  function NameGrid(goods: nat, types: nat): seq<EryName>
  {
    Flatten(seq(types, tt requires 0 <= tt < types => TypeBlock(goods, tt)))
  }

  lemma NameGridAt(goods: nat, types: nat, k: nat, tt: nat)
    requires k < goods && tt < types
    ensures |NameGrid(goods, types)| == types * goods
    ensures tt * goods + k < types * goods
    ensures NameGrid(goods, types)[tt * goods + k] == EryName(k, tt)
  {
    FlattenAt(seq(types, tt requires 0 <= tt < types => TypeBlock(goods, tt)), goods, tt, k);
  }

  /** Good k's names, one per type in type order. */
  function GoodNames(k: nat, types: nat): (r: seq<EryName>)
    ensures |r| == types && forall tt :: 0 <= tt < types ==> r[tt] == EryName(k, tt)
  {
    seq(types, tt requires 0 <= tt < types => EryName(k, tt))
  }

  /** `[col for col in NAME_eryt if f"er{k}y_" in col]`: the names of good k,
      in their order. */
  function OfGood(names: seq<EryName>, k: nat): (r: seq<EryName>)
    ensures forall x :: x in r <==> x in names && x.good == k
    decreases |names|
  {
    if names == [] then []
    else
      var last := names[|names| - 1];
      OfGood(names[..|names| - 1], k) + (if last.good == k then [last] else [])
  }

  lemma {:induction false} OfGoodConcat(a: seq<EryName>, b: seq<EryName>, k: nat)
    ensures OfGood(a + b, k) == OfGood(a, k) + OfGood(b, k)
    decreases |b|
  {
    if b == [] {
      assert a + b == a;
    } else {
      var b' := b[..|b| - 1];
      assert (a + b)[..|a + b| - 1] == a + b';
      OfGoodConcat(a, b', k);
    }
  }

  /** Within one type's block exactly one name is of good k. */
  lemma {:induction false} OfGoodRow(m: nat, tt: nat, k: nat)
    ensures OfGood(TypeBlock(m, tt), k) == (if k < m then [EryName(k, tt)] else [])
  {
    if m > 0 {
      assert TypeBlock(m, tt)[..m - 1] == TypeBlock(m - 1, tt);
      OfGoodRow(m - 1, tt, k);
    }
  }

  /** The name filter for good k returns one name per type, in type order. */
  lemma {:induction false} OfGoodGrid(goods: nat, types: nat, k: nat)
    requires k < goods
    ensures OfGood(NameGrid(goods, types), k) == GoodNames(k, types)
    decreases types
  {
    if types > 0 {
      GridStep(goods, types);
      OfGoodGrid(goods, types - 1, k);
      OfGoodConcat(NameGrid(goods, types - 1), TypeBlock(goods, types - 1), k);
      OfGoodRow(goods, types - 1, k);
      GoodNamesStep(k, types);
    }
  }

  lemma GoodNamesStep(k: nat, types: nat)
    requires types > 0
    ensures GoodNames(k, types) == GoodNames(k, types - 1) + [EryName(k, types - 1)]
  {
  }

  /** The grid for one more type is the old grid plus that type's block. */
  lemma GridStep(goods: nat, types: nat)
    requires types > 0
    ensures NameGrid(goods, types) == NameGrid(goods, types - 1) + TypeBlock(goods, types - 1)
  {
    var blocks := seq(types, tt requires 0 <= tt < types => TypeBlock(goods, tt));
    assert blocks[..types - 1] == seq(types - 1, tt requires 0 <= tt < types - 1 => TypeBlock(goods, tt));
  }

  /** `x[np.arange(k, len(x), K)]`: every K-th entry starting at k. */
  function Stride<T>(x: seq<T>, k: nat, goods: nat, types: nat): (r: seq<T>)
    requires k < goods && |x| == types * goods
    ensures |r| == types
  {
    seq(types, tt requires 0 <= tt < types =>
      MulMono(tt + 1, types, goods);
      x[tt * goods + k])
  }

  /** The stride-K slice at k picks exactly the columns the name filter for
      good k picks, in the same order ... */
  lemma StrideMatchesNames(goods: nat, types: nat, k: nat)
    requires k < goods
    ensures |NameGrid(goods, types)| == types * goods
    ensures Stride(NameGrid(goods, types), k, goods, types) == OfGood(NameGrid(goods, types), k)
  {
    FlattenLength(seq(types, tt requires 0 <= tt < types => TypeBlock(goods, tt)), goods);
    OfGoodGrid(goods, types, k);
    forall tt | 0 <= tt < types
      ensures Stride(NameGrid(goods, types), k, goods, types)[tt] == EryName(k, tt)
    {
      NameGridAt(goods, types, k, tt);
    }
  }

  /** ... and on the data those columns are ery[k] times each type indicator. */
  lemma StrideOfInteraction(ery: seq<real>, ts: seq<real>, k: nat)
    requires k < |ery|
    ensures |InteractRow(ery, ts)| == |ts| * |ery|
    ensures Stride(InteractRow(ery, ts), k, |ery|, |ts|) == Block(ts, ery[k])
  {
    InteractWidth(ery, ts);
    forall tt | 0 <= tt < |ts|
      ensures Stride(InteractRow(ery, ts), k, |ery|, |ts|)[tt] == ts[tt] * ery[k]
    {
      InteractAt(ery, ts, k, tt);
    }
  }
}
