/** Pairs of shareable goods and the symmetric matrices indexed by them.

    The cross-product columns are built by the double loop `for i in
    range(K): for j in range(i, K)` (scale_econs_bootstrap_lasso.py:340-365),
    and the estimated second moments are written back into a K x K matrix
    with `m[np.triu_indices_from(m)] = vals` followed by a mirror of the
    strict lower triangle (lines 449-465, again 923-948). Both walk the upper
    triangle row by row, so pair number p of the loop is the entry
    `np.triu_indices` puts at position p. */
module Pairs {
  import opened Numerics

  /** The pair of goods (i, j), i <= j. */
  datatype Pair = Pair(i: nat, j: nat)

  /** Row i of the upper triangle: (i, i), (i, i + 1), ..., (i, K - 1). */
  function TriuRow(goods: nat, i: nat): (r: seq<Pair>)
    requires i <= goods
    ensures |r| == goods - i && forall d :: 0 <= d < goods - i ==> r[d] == Pair(i, i + d)
  {
    seq(goods - i, d requires 0 <= d < goods - i => Pair(i, i + d))
  }

  /** Rows 0 .. m - 1 of the upper triangle, one after the other. */
  function TriuUpTo(goods: nat, m: nat): seq<Pair>
    requires m <= goods
  {
    if m == 0 then [] else TriuUpTo(goods, m - 1) + TriuRow(goods, m - 1)
  }

  /** `np.triu_indices(K)` as a list of pairs, and the order of the pair loop. */
  function Triu(goods: nat): seq<Pair>
  {
    TriuUpTo(goods, goods)
  }

  /** Where row i of the triangle starts. */
  function Offset(goods: nat, i: nat): nat
    requires i <= goods
  {
    if i == 0 then 0 else Offset(goods, i - 1) + (goods - (i - 1))
  }

  /** Where pair (i, j) sits: the start of row i, then j - i further on. */
  function Position(goods: nat, i: nat, j: nat): nat
    requires i <= j && i <= goods
  {
    Offset(goods, i) + (j - i)
  }

  lemma {:induction false} TriuLength(goods: nat, m: nat)
    requires m <= goods
    ensures |TriuUpTo(goods, m)| == Offset(goods, m)
    decreases m
  {
    if m > 0 {
      TriuLength(goods, m - 1);
    }
  }

  /** Row i starts after i rows of decreasing length: 2 * Offset(K, i) ==
      i * (2K - i + 1). */
  lemma {:induction false} OffsetClosed(goods: nat, i: nat)
    requires i <= goods
    ensures 2 * Offset(goods, i) == i * (2 * goods - i + 1)
    decreases i
  {
    if i > 0 {
      OffsetClosed(goods, i - 1);
      assert (i - 1) * (2 * goods - i + 2) + 2 * (goods - i + 1) == i * (2 * goods - i + 1);
    }
  }

  /** The loop emits K(K+1)/2 pairs. */
  lemma PairCount(goods: nat)
    ensures 2 * |Triu(goods)| == goods * (goods + 1)
  {
    TriuLength(goods, goods);
    OffsetClosed(goods, goods);
  }

  lemma {:induction false} OffsetMono(goods: nat, a: nat, b: nat)
    requires a <= b <= goods
    ensures Position(goods, a, b) <= Offset(goods, b)
    decreases b
  {
    if a < b {
      OffsetMono(goods, a, b - 1);
    }
  }

  /** The pair (i, j) sits at position Position(K, i, j) ... */
  lemma {:induction false} TriuAt(goods: nat, m: nat, i: nat, j: nat)
    requires i < m <= goods && i <= j < goods
    ensures |TriuUpTo(goods, m)| == Offset(goods, m)
    ensures Position(goods, i, j) < Offset(goods, m)
    ensures TriuUpTo(goods, m)[Position(goods, i, j)] == Pair(i, j)
    decreases m
  {
    TriuLength(goods, m);
    TriuLength(goods, m - 1);
    if i < m - 1 {
      TriuAt(goods, m - 1, i, j);
    } else {
      assert Position(goods, i, j) - Offset(goods, m - 1) == j - i;
    }
  }

  /** ... and every position holds a pair of the triangle, at that place, so
      positions and pairs i <= j correspond one to one. */
  lemma {:induction false} TriuPos(goods: nat, m: nat, p: nat)
    requires m <= goods && p < |TriuUpTo(goods, m)|
    ensures TriuUpTo(goods, m)[p].i < m
    ensures TriuUpTo(goods, m)[p].i <= TriuUpTo(goods, m)[p].j < goods
    ensures p == Position(goods, TriuUpTo(goods, m)[p].i, TriuUpTo(goods, m)[p].j)
    decreases m
  {
    TriuLength(goods, m - 1);
    if p < |TriuUpTo(goods, m - 1)| {
      TriuPos(goods, m - 1, p);
    }
  }

  /** What one appended column holds. */
  datatype CrossOp = Product | Addition

  /** The column `x[:, i] * x[:, j]` or `x[:, i] + x[:, j]`. */
  function CrossColumn(x: Matrix, q: Pair, op: CrossOp): (col: seq<real>)
    requires forall n :: 0 <= n < |x| ==> q.i < |x[n]| && q.j < |x[n]|
    ensures |col| == |x|
  {
    seq(|x|, n requires 0 <= n < |x| =>
      match op
      case Product => x[n][q.i] * x[n][q.j]
      case Addition => x[n][q.i] + x[n][q.j])
  }

  /** The columns for a list of pairs. */
  function CrossColumns(x: Matrix, goods: nat, ps: seq<Pair>, op: CrossOp): (cols: Matrix)
    requires IsMatrix(x, |x|, goods)
    requires forall k :: 0 <= k < |ps| ==> ps[k].i < goods && ps[k].j < goods
    ensures |cols| == |ps|
  {
    seq(|ps|, k requires 0 <= k < |ps| => CrossColumn(x, ps[k], op))
  }

  lemma CrossColumnsAppend(x: Matrix, goods: nat, ps: seq<Pair>, q: Pair, op: CrossOp)
    requires IsMatrix(x, |x|, goods) && q.i < goods && q.j < goods
    requires forall k :: 0 <= k < |ps| ==> ps[k].i < goods && ps[k].j < goods
    ensures CrossColumns(x, goods, ps + [q], op) == CrossColumns(x, goods, ps, op) + [CrossColumn(x, q, op)]
  {
  }

  /** Every pair of the prefix is in range. */
  lemma TriuInRange(goods: nat, m: nat)
    requires m <= goods
    ensures forall k :: 0 <= k < |TriuUpTo(goods, m)| ==>
      TriuUpTo(goods, m)[k].i < goods && TriuUpTo(goods, m)[k].j < goods
  {
    forall k | 0 <= k < |TriuUpTo(goods, m)|
      ensures TriuUpTo(goods, m)[k].i < goods && TriuUpTo(goods, m)[k].j < goods
    {
      TriuPos(goods, m, k);
    }
  }

  /** The pairs the loop has visited when it is about to visit (i, j): the
      rows before i and the start of row i. */
  function Visited(goods: nat, i: nat, j: nat): (ps: seq<Pair>)
    requires i <= j <= goods
    ensures forall k :: 0 <= k < |ps| ==> ps[k].i < goods && ps[k].j < goods
  {
    TriuInRange(goods, i);
    TriuUpTo(goods, i) + TriuRow(goods, i)[..j - i]
  }

  lemma VisitedNext(goods: nat, i: nat, j: nat)
    requires i <= j < goods
    ensures Visited(goods, i, j + 1) == Visited(goods, i, j) + [Pair(i, j)]
  {
    assert TriuRow(goods, i)[..j + 1 - i] == TriuRow(goods, i)[..j - i] + [Pair(i, j)];
  }

  lemma VisitedRow(goods: nat, i: nat)
    requires i < goods
    ensures Visited(goods, i, goods) == Visited(goods, i + 1, i + 1)
  {
    assert TriuRow(goods, i)[..goods - i] == TriuRow(goods, i);
    assert TriuRow(goods, i + 1)[..0] == [];
  }

  lemma VisitedAll(goods: nat)
    ensures Visited(goods, 0, 0) == [] && Visited(goods, goods, goods) == Triu(goods)
  {
    assert TriuRow(goods, goods)[..0] == [];
  }

  /** Column Position(K, i, j) of the columns for the whole triangle is
      the one for (i, j). */
  lemma CrossColumnsAt(x: Matrix, goods: nat, op: CrossOp, cols: Matrix, i: nat, j: nat)
    requires IsMatrix(x, |x|, goods) && i <= j < goods
    requires (TriuInRange(goods, goods); cols == CrossColumns(x, goods, Triu(goods), op))
    ensures Position(goods, i, j) < |cols| && cols[Position(goods, i, j)] == CrossColumn(x, Pair(i, j), op)
  {
    TriuAt(goods, goods, i, j);
  }

  /** Column Position(K, i, j) of each of the three stores is the one
      for (i, j). */
  lemma PairColumnsAt(res: Matrix, bery: Matrix, goods: nat, resProd: Matrix, beryProd: Matrix, berySum: Matrix)
    requires IsMatrix(res, |res|, goods) && IsMatrix(bery, |bery|, goods)
    requires (TriuInRange(goods, goods);
      resProd == CrossColumns(res, goods, Triu(goods), Product) &&
      beryProd == CrossColumns(bery, goods, Triu(goods), Product) &&
      berySum == CrossColumns(bery, goods, Triu(goods), Addition))
    ensures forall i, j :: 0 <= i <= j < goods ==>
      Position(goods, i, j) < |resProd| &&
      resProd[Position(goods, i, j)] == CrossColumn(res, Pair(i, j), Product) &&
      beryProd[Position(goods, i, j)] == CrossColumn(bery, Pair(i, j), Product) &&
      berySum[Position(goods, i, j)] == CrossColumn(bery, Pair(i, j), Addition)
  {
    forall i, j | 0 <= i <= j < goods
      ensures Position(goods, i, j) < |resProd|
      ensures resProd[Position(goods, i, j)] == CrossColumn(res, Pair(i, j), Product)
      ensures beryProd[Position(goods, i, j)] == CrossColumn(bery, Pair(i, j), Product)
      ensures berySum[Position(goods, i, j)] == CrossColumn(bery, Pair(i, j), Addition)
    {
      CrossColumnsAt(res, goods, Product, resProd, i, j);
      CrossColumnsAt(bery, goods, Product, beryProd, i, j);
      CrossColumnsAt(bery, goods, Addition, berySum, i, j);
    }
  }

  /** The pair loop: for every pair i <= j, in loop order, append the column
      of residual products, of fitted-value products and of fitted-value
      sums. Column number Position(K, i, j) is the one for (i, j). */
  method PairColumns(res: Matrix, bery: Matrix, goods: nat)
    returns (resProd: Matrix, beryProd: Matrix, berySum: Matrix)
    requires IsMatrix(res, |res|, goods) && IsMatrix(bery, |bery|, goods)
    ensures (TriuInRange(goods, goods);
      resProd == CrossColumns(res, goods, Triu(goods), Product) &&
      beryProd == CrossColumns(bery, goods, Triu(goods), Product) &&
      berySum == CrossColumns(bery, goods, Triu(goods), Addition))
    ensures forall i, j :: 0 <= i <= j < goods ==>
      Position(goods, i, j) < |resProd| &&
      resProd[Position(goods, i, j)] == CrossColumn(res, Pair(i, j), Product) &&
      beryProd[Position(goods, i, j)] == CrossColumn(bery, Pair(i, j), Product) &&
      berySum[Position(goods, i, j)] == CrossColumn(bery, Pair(i, j), Addition)
  {
    resProd, beryProd, berySum := [], [], [];
    VisitedAll(goods);
    for i := 0 to goods
      invariant resProd == CrossColumns(res, goods, Visited(goods, i, i), Product)
      invariant beryProd == CrossColumns(bery, goods, Visited(goods, i, i), Product)
      invariant berySum == CrossColumns(bery, goods, Visited(goods, i, i), Addition)
    {
      for j := i to goods
        invariant resProd == CrossColumns(res, goods, Visited(goods, i, j), Product)
        invariant beryProd == CrossColumns(bery, goods, Visited(goods, i, j), Product)
        invariant berySum == CrossColumns(bery, goods, Visited(goods, i, j), Addition)
      {
        VisitedNext(goods, i, j);
        CrossColumnsAppend(res, goods, Visited(goods, i, j), Pair(i, j), Product);
        CrossColumnsAppend(bery, goods, Visited(goods, i, j), Pair(i, j), Product);
        CrossColumnsAppend(bery, goods, Visited(goods, i, j), Pair(i, j), Addition);
        resProd := resProd + [CrossColumn(res, Pair(i, j), Product)];
        beryProd := beryProd + [CrossColumn(bery, Pair(i, j), Product)];
        berySum := berySum + [CrossColumn(bery, Pair(i, j), Addition)];
      }
      VisitedRow(goods, i);
    }
    PairColumnsAt(res, bery, goods, resProd, beryProd, berySum);
  }

  /** The symmetric matrix whose upper triangle, read row by row, is vals. */
  function SymFromTriu(vals: seq<real>, goods: nat): (m: Matrix)
    requires |vals| == |Triu(goods)|
    ensures IsMatrix(m, goods, goods) && IsSymmetric(m, goods)
  {
    seq(goods, i requires 0 <= i < goods =>
      seq(goods, j requires 0 <= j < goods =>
        var a, b := if i <= j then i else j, if i <= j then j else i;
        TriuAt(goods, goods, a, b);
        vals[Position(goods, a, b)]))
  }

  /** Entry (a, b) and entry (b, a) of the filled matrix, a <= b, hold the
      coefficient of pair (a, b). */
  lemma SymFromTriuAt(vals: seq<real>, goods: nat, a: nat, b: nat)
    requires |vals| == |Triu(goods)| && a <= b < goods
    ensures Position(goods, a, b) < |vals|
    ensures SymFromTriu(vals, goods)[a][b] == vals[Position(goods, a, b)]
    ensures SymFromTriu(vals, goods)[b][a] == vals[Position(goods, a, b)]
  {
    TriuAt(goods, goods, a, b);
  }

  /** `m[np.triu_indices_from(m)]`: the upper triangle read row by row. */
  function ReadTriu<T>(m: seq<seq<T>>, goods: nat): (vals: seq<T>)
    requires |m| == goods && forall r :: 0 <= r < goods ==> |m[r]| == goods
    ensures |vals| == |Triu(goods)|
  {
    TriuInRange(goods, goods);
    seq(|Triu(goods)|, p requires 0 <= p < |Triu(goods)| => m[Triu(goods)[p].i][Triu(goods)[p].j])
  }

  /** Reading back the upper triangle of the filled matrix gives the vector
      that filled it ... */
  lemma ReadFilled(vals: seq<real>, goods: nat)
    requires |vals| == |Triu(goods)|
    ensures ReadTriu(SymFromTriu(vals, goods), goods) == vals
  {
    var m := SymFromTriu(vals, goods);
    forall p | 0 <= p < |vals|
      ensures ReadTriu(m, goods)[p] == vals[p]
    {
      TriuPos(goods, goods, p);
    }
  }

  /** ... and filling from the upper triangle of a symmetric matrix gives the
      matrix back. */
  lemma FillRead(m: Matrix, goods: nat)
    requires IsMatrix(m, goods, goods) && IsSymmetric(m, goods)
    ensures SymFromTriu(ReadTriu(m, goods), goods) == m
  {
    var back := SymFromTriu(ReadTriu(m, goods), goods);
    forall i | 0 <= i < goods
      ensures back[i] == m[i]
    {
      forall j | 0 <= j < goods
        ensures back[i][j] == m[i][j]
      {
        if i <= j {
          TriuAt(goods, goods, i, j);
        } else {
          TriuAt(goods, goods, j, i);
        }
      }
    }
  }

  /** The fill of `np.empty((K, K))`: the upper triangle row by row from
      vals, then the strict lower triangle from its mirror image. */
  method FillSymmetric(vals: seq<real>, goods: nat) returns (m: array2<real>)
    requires |vals| == |Triu(goods)|
    ensures fresh(m) && m.Length0 == goods && m.Length1 == goods
    ensures forall i, j :: 0 <= i < goods && 0 <= j < goods ==> m[i, j] == SymFromTriu(vals, goods)[i][j]
  {
    m := new real[goods, goods];
    FillUpper(m, vals, goods);
    MirrorLower(m, vals, goods);
  }

  /** `m[np.triu_indices_from(m)] = vals`. */
  method FillUpper(m: array2<real>, vals: seq<real>, goods: nat)
    requires |vals| == |Triu(goods)| && m.Length0 == goods && m.Length1 == goods
    modifies m
    ensures forall i, j :: 0 <= i <= j < goods ==> m[i, j] == SymFromTriu(vals, goods)[i][j]
    ensures forall i, j :: 0 <= j < i < goods ==> m[i, j] == old(m[i, j])
  {
    TriuLength(goods, goods);
    var p := 0;
    for i := 0 to goods
      invariant p == Offset(goods, i)
      invariant forall a, b :: 0 <= a < i && a <= b < goods ==> m[a, b] == SymFromTriu(vals, goods)[a][b]
      invariant forall a, b :: 0 <= b < a < goods ==> m[a, b] == old(m[a, b])
    {
      for j := i to goods
        invariant p == Position(goods, i, j)
        invariant forall a, b :: 0 <= b < a < goods ==> m[a, b] == old(m[a, b])
        invariant forall a, b :: 0 <= a < i && a <= b < goods ==> m[a, b] == SymFromTriu(vals, goods)[a][b]
        invariant forall b :: i <= b < j ==> m[i, b] == SymFromTriu(vals, goods)[i][b]
      {
        TriuAt(goods, goods, i, j);
        OffsetMono(goods, i + 1, goods);
        m[i, j] := vals[p];
        p := p + 1;
      }
    }
  }

  /** `m[np.tril_indices_from(m, k=-1)] = m.T[np.tril_indices_from(m, k=-1)]`. */
  method MirrorLower(m: array2<real>, ghost vals: seq<real>, goods: nat)
    requires |vals| == |Triu(goods)| && m.Length0 == goods && m.Length1 == goods
    requires forall i, j :: 0 <= i <= j < goods ==> m[i, j] == SymFromTriu(vals, goods)[i][j]
    modifies m
    ensures forall i, j :: 0 <= i < goods && 0 <= j < goods ==> m[i, j] == SymFromTriu(vals, goods)[i][j]
  {
    for i := 0 to goods
      invariant forall a, b :: 0 <= a <= b < goods ==> m[a, b] == SymFromTriu(vals, goods)[a][b]
      invariant forall a, b :: 0 <= b < a < i ==> m[a, b] == SymFromTriu(vals, goods)[a][b]
    {
      for j := 0 to i
        invariant forall a, b :: 0 <= a <= b < goods ==> m[a, b] == SymFromTriu(vals, goods)[a][b]
        invariant forall a, b :: 0 <= b < a < i ==> m[a, b] == SymFromTriu(vals, goods)[a][b]
        invariant forall b :: 0 <= b < j ==> m[i, b] == SymFromTriu(vals, goods)[i][b]
      {
        m[i, j] := m[j, i];
      }
    }
  }
}
