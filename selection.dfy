/** The regressors of the variance equations and their selection by the
    LASSO masks (scale_econs_bootstrap_lasso.py:392-431 and 789-839).

    For household type tt the sample is the rows of that type. A province-
    year group is included when at least two of those rows are in it. The
    equation of pair p (a pair of goods, numbered in triangle order) has as
    candidates the sum terms `g{c}_ber{a}.{b}y_sum` of pair p for every
    included group c, in group order, followed by the product term
    `ber{a}.{b}y_prod` of pair p. Its regressors are the entries of the mask
    chosen for (tt, p) that are among the candidates, in mask order.

    Names are modelled by what they denote: a name test `name in col` with
    `name = "ber{a}.{b}y"` holds exactly when the column belongs to pair
    (a, b), since the codes are delimited by "ber", "." and "y". */
module Selection {
  import opened Numerics

  /** A regressor: group c times the sum of pair p, or the product of pair p. */
  datatype Regressor = SumTerm(group: nat, pair: nat) | ProdTerm(pair: nat)

  /** `s[ind == 1]`: the entries whose indicator is on, in order. */
  function Where<T>(s: seq<T>, keep: seq<bool>): (r: seq<T>)
    requires |keep| == |s|
    ensures |r| <= |s|
    ensures forall x :: x in r ==> x in s
  {
    if s == [] then []
    else
      var n := |s| - 1;
      Where(s[..n], keep[..n]) + (if keep[n] then [s[n]] else [])
  }

  /** Filtering a concatenation filters each part. */
  lemma {:induction false} WhereConcat<T>(a: seq<T>, b: seq<T>, ka: seq<bool>, kb: seq<bool>)
    requires |ka| == |a| && |kb| == |b|
    ensures Where(a + b, ka + kb) == Where(a, ka) + Where(b, kb)
    decreases |b|
  {
    if b == [] {
      assert a + b == a && ka + kb == ka;
    } else {
      var n := |b| - 1;
      assert (a + b)[..|a + b| - 1] == a + b[..n];
      assert (ka + kb)[..|ka + kb| - 1] == ka + kb[..n];
      WhereConcat(a, b[..n], ka, kb[..n]);
    }
  }

  /** Filtering a list is filtering its two parts at any cut. */
  lemma WhereSplit<T>(s: seq<T>, keep: seq<bool>, cut: nat)
    requires |keep| == |s| && cut <= |s|
    ensures Where(s, keep) == Where(s[..cut], keep[..cut]) + Where(s[cut..], keep[cut..])
  {
    assert s == s[..cut] + s[cut..];
    assert keep == keep[..cut] + keep[cut..];
    WhereConcat(s[..cut], s[cut..], keep[..cut], keep[cut..]);
  }

  /** A filter that keeps nothing gives the empty list ... */
  lemma {:induction false} WhereNone<T>(s: seq<T>, keep: seq<bool>)
    requires |keep| == |s| && forall r :: 0 <= r < |s| ==> !keep[r]
    ensures Where(s, keep) == []
    decreases |s|
  {
    if s != [] {
      WhereNone(s[..|s| - 1], keep[..|s| - 1]);
    }
  }

  /** ... and one that keeps everything gives the list back. */
  lemma {:induction false} WhereAll<T>(s: seq<T>, keep: seq<bool>)
    requires |keep| == |s| && forall r :: 0 <= r < |s| ==> keep[r]
    ensures Where(s, keep) == s
    decreases |s|
  {
    if s != [] {
      WhereAll(s[..|s| - 1], keep[..|s| - 1]);
    }
  }

  /** Filtering twice is filtering once when the second filter only keeps
      rows the first kept: the type-tt rows of the non-single rows are the
      type-tt rows. */
  lemma {:induction false} WhereTwice<T>(s: seq<T>, first: seq<bool>, second: seq<bool>)
    requires |first| == |s| && |second| == |s|
    requires forall r :: 0 <= r < |s| && second[r] ==> first[r]
    ensures |Where(second, first)| == |Where(s, first)|
    ensures Where(Where(s, first), Where(second, first)) == Where(s, second)
    decreases |s|
  {
    if s != [] {
      var n := |s| - 1;
      WhereTwice(s[..n], first[..n], second[..n]);
      var a, b := Where(s[..n], first[..n]), Where(second[..n], first[..n]);
      if first[n] {
        assert Where(s, first) == a + [s[n]] && Where(second, first) == b + [second[n]];
        WhereAppend(a, b, s[n], second[n]);
      } else {
        WhereSkip(s, first);
        WhereSkip(second, first);
        WhereSkip(s, second);
      }
    }
  }

  /** An entry whose indicator is off leaves the filter as it was. */
  lemma WhereSkip<T>(s: seq<T>, keep: seq<bool>)
    requires |keep| == |s| && s != [] && !keep[|s| - 1]
    ensures Where(s, keep) == Where(s[..|s| - 1], keep[..|s| - 1])
  {
    ConcatEmpty(Where(s[..|s| - 1], keep[..|s| - 1]), []);
  }

  /** Filtering a list with one more entry filters the rest and then that entry. */
  lemma WhereAppend<T>(s: seq<T>, keep: seq<bool>, x: T, k: bool)
    requires |keep| == |s|
    ensures Where(s + [x], keep + [k]) == Where(s, keep) + (if k then [x] else [])
  {
    assert (s + [x])[..|s|] == s && (keep + [k])[..|keep|] == keep;
  }

  /** `[c for c in NAME_g if rows[c].sum() >= 2]`, among the first m groups. */
  function IncludedGroups(g: Matrix, groups: nat, m: nat): (inc: seq<nat>)
    requires IsMatrix(g, |g|, groups) && m <= groups
    ensures Increasing(inc)
    ensures forall c: nat :: c in inc <==> c < m && ColSum(g, c) >= 2.0
  {
    if m == 0 then []
    else
      var prev := IncludedGroups(g, groups, m - 1);
      if ColSum(g, m - 1) >= 2.0 then AppendIncreasing(prev, m - 1); prev + [m - 1] else prev
  }

  /** The sum terms of group c: one per pair, in pair order. */
  function GroupBlock(c: nat, pairs: nat): (b: seq<Regressor>)
    ensures |b| == pairs && forall q :: 0 <= q < pairs ==> b[q] == SumTerm(c, q)
  {
    seq(pairs, q requires 0 <= q < pairs => SumTerm(c, q))
  }

  /** `[f'{c}_{s}' for c in inc for s in NAME_bery_crosssum]`: group outer,
      pair inner. */
  function SumTerms(inc: seq<nat>, pairs: nat): seq<Regressor>
  {
    Flatten(seq(|inc|, k requires 0 <= k < |inc| => GroupBlock(inc[k], pairs)))
  }

  /** The sum terms of pair p for the included groups, in group order. */
  function PairSums(inc: seq<nat>, p: nat): (r: seq<Regressor>)
    ensures |r| == |inc| && forall k :: 0 <= k < |inc| ==> r[k] == SumTerm(inc[k], p)
  {
    seq(|inc|, k requires 0 <= k < |inc| => SumTerm(inc[k], p))
  }

  /** `[j for j in terms if name in j]`: the terms of pair p, in order. */
  function OfPair(terms: seq<Regressor>, p: nat): (r: seq<Regressor>)
    ensures forall x :: x in r <==> x in terms && x.pair == p
    decreases |terms|
  {
    if terms == [] then []
    else
      var last := terms[|terms| - 1];
      OfPair(terms[..|terms| - 1], p) + (if last.pair == p then [last] else [])
  }

  lemma {:induction false} OfPairConcat(a: seq<Regressor>, b: seq<Regressor>, p: nat)
    ensures OfPair(a + b, p) == OfPair(a, p) + OfPair(b, p)
    decreases |b|
  {
    if b == [] {
      assert a + b == a;
    } else {
      var b' := b[..|b| - 1];
      assert (a + b)[..|a + b| - 1] == a + b';
      OfPairConcat(a, b', p);
    }
  }

  /** Within one group's block exactly one term is of pair p. */
  lemma {:induction false} OfPairBlock(c: nat, m: nat, p: nat)
    ensures OfPair(GroupBlock(c, m), p) == (if p < m then [SumTerm(c, p)] else [])
  {
    if m > 0 {
      assert GroupBlock(c, m)[..m - 1] == GroupBlock(c, m - 1);
      OfPairBlock(c, m - 1, p);
    }
  }

  lemma SumTermsStep(inc: seq<nat>, pairs: nat)
    requires inc != []
    ensures SumTerms(inc, pairs) == SumTerms(inc[..|inc| - 1], pairs) + GroupBlock(inc[|inc| - 1], pairs)
  {
    var blocks := seq(|inc|, k requires 0 <= k < |inc| => GroupBlock(inc[k], pairs));
    var inc' := inc[..|inc| - 1];
    assert blocks[..|inc| - 1] == seq(|inc'|, k requires 0 <= k < |inc'| => GroupBlock(inc'[k], pairs));
  }

  lemma PairSumsStep(inc: seq<nat>, p: nat)
    requires inc != []
    ensures PairSums(inc, p) == PairSums(inc[..|inc| - 1], p) + [SumTerm(inc[|inc| - 1], p)]
  {
  }

  /** The sum terms of pair p: one per included group, in group order. */
  lemma {:induction false} SumTermsOfPair(inc: seq<nat>, pairs: nat, p: nat)
    requires p < pairs
    ensures OfPair(SumTerms(inc, pairs), p) == PairSums(inc, p)
    decreases |inc|
  {
    if inc != [] {
      var n := |inc| - 1;
      SumTermsStep(inc, pairs);
      SumTermsOfPair(inc[..n], pairs, p);
      OfPairConcat(SumTerms(inc[..n], pairs), GroupBlock(inc[n], pairs), p);
      OfPairBlock(inc[n], pairs, p);
      PairSumsStep(inc, p);
    }
  }

  /** The candidate regressors of pair p's equation. */
  function Candidates(inc: seq<nat>, pairs: nat, p: nat): seq<Regressor>
  {
    OfPair(SumTerms(inc, pairs), p) + [ProdTerm(p)]
  }

  /** A candidate is the product term of p or the sum term of p for an
      included group, and every such term is a candidate. */
  lemma CandidatesSpec(inc: seq<nat>, pairs: nat, p: nat, x: Regressor)
    requires p < pairs
    ensures x in Candidates(inc, pairs, p) <==>
      x == ProdTerm(p) || (x.SumTerm? && x.pair == p && x.group in inc)
  {
    SumTermsOfPair(inc, pairs, p);
    var sums := PairSums(inc, p);
    if x.SumTerm? && x.pair == p && x.group in inc {
      var k :| 0 <= k < |inc| && inc[k] == x.group;
      assert sums[k] == x;
    }
  }

  /** `[col for col in mask if col in exog.columns]`. */
  function Selected(mask: seq<Regressor>, cands: seq<Regressor>): (sel: seq<Regressor>)
    ensures forall x :: x in sel <==> x in mask && x in cands
    decreases |mask|
  {
    if mask == [] then []
    else
      var last := mask[|mask| - 1];
      Selected(mask[..|mask| - 1], cands) + (if last in cands then [last] else [])
  }

  /** The selection is a subsequence of the mask: idx says where each
      selected regressor sits in the mask, in increasing order. */
  lemma {:induction false} SelectedSubsequence(mask: seq<Regressor>, cands: seq<Regressor>)
    returns (idx: seq<nat>)
    ensures |idx| == |Selected(mask, cands)| && Increasing(idx)
    ensures forall k :: 0 <= k < |idx| ==> idx[k] < |mask| && Selected(mask, cands)[k] == mask[idx[k]]
    decreases |mask|
  {
    if mask == [] {
      idx := [];
    } else {
      var n := |mask| - 1;
      idx := SelectedSubsequence(mask[..n], cands);
      SelectedLast(mask, cands);
      PositionsInPrefix(mask, Selected(mask[..n], cands), idx);
      if mask[n] in cands {
        var sel := Selected(mask[..n], cands);
        PositionsAppend(mask, sel, idx, sel + [mask[n]], idx + [n]);
        idx := idx + [n];
      }
    }
  }

  /** Positions of sel's entries in the prefix of mask are positions in mask. */
  lemma PositionsInPrefix(mask: seq<Regressor>, sel: seq<Regressor>, idx: seq<nat>)
    requires mask != [] && |idx| == |sel|
    requires forall k :: 0 <= k < |idx| ==> idx[k] < |mask| - 1 && sel[k] == mask[..|mask| - 1][idx[k]]
    ensures forall k :: 0 <= k < |idx| ==> idx[k] < |mask| - 1 && sel[k] == mask[idx[k]]
  {
  }

  /** The last entry of mask extends a subsequence of its prefix. */
  lemma PositionsAppend(mask: seq<Regressor>, sel: seq<Regressor>, idx: seq<nat>, sel2: seq<Regressor>, idx2: seq<nat>)
    requires mask != [] && |idx| == |sel| && Increasing(idx)
    requires forall k :: 0 <= k < |idx| ==> idx[k] < |mask| - 1 && sel[k] == mask[idx[k]]
    requires idx2 == idx + [|mask| - 1] && sel2 == sel + [mask[|mask| - 1]]
    ensures Increasing(idx2) && |idx2| == |sel2|
    ensures forall k :: 0 <= k < |idx2| ==> idx2[k] < |mask| && sel2[k] == mask[idx2[k]]
  {
    assert forall y :: y in idx ==> y < |mask| - 1;
    AppendIncreasing(idx, |mask| - 1);
  }

  /** The masks of the first m types, one block of `pairs` masks per type. */
  function MaskBlocks(fit: (nat, nat) -> seq<Regressor>, m: nat, pairs: nat): (blocks: seq<seq<seq<Regressor>>>)
    ensures |blocks| == m && forall a :: 0 <= a < m ==> |blocks[a]| == pairs
  {
    seq(m, a requires 0 <= a < m => seq(pairs, p requires 0 <= p < pairs => fit(a, p)))
  }

  /** The inner loop: the masks of type tt, pair by pair. */
  method MasksOfType(fit: (nat, nat) -> seq<Regressor>, tt: nat, pairs: nat)
    returns (row: seq<seq<Regressor>>)
    ensures |row| == pairs && forall p :: 0 <= p < pairs ==> row[p] == fit(tt, p)
  {
    row := [];
    for p := 0 to pairs
      invariant |row| == p && forall q :: 0 <= q < p ==> row[q] == fit(tt, q)
    {
      row := row + [fit(tt, p)];
    }
  }

  /** The LASSO loop appends one mask per (type, pair), type outer and pair
      inner; `fit` stands for the penalised fit that picks a mask. */
  method CollectMasks(fit: (nat, nat) -> seq<Regressor>, types: nat, pairs: nat)
    returns (masks: seq<seq<Regressor>>)
    ensures masks == Flatten(MaskBlocks(fit, types, pairs))
  {
    masks := [];
    for tt := 0 to types
      invariant masks == Flatten(MaskBlocks(fit, tt, pairs))
    {
      var row := MasksOfType(fit, tt, pairs);
      MaskBlocksStep(fit, tt, pairs, row);
      masks := masks + row;
    }
  }

  lemma MaskBlocksStep(fit: (nat, nat) -> seq<Regressor>, tt: nat, pairs: nat, row: seq<seq<Regressor>>)
    requires |row| == pairs && forall p :: 0 <= p < pairs ==> row[p] == fit(tt, p)
    ensures Flatten(MaskBlocks(fit, tt + 1, pairs)) == Flatten(MaskBlocks(fit, tt, pairs)) + row
  {
    assert MaskBlocks(fit, tt + 1, pairs)[..tt] == MaskBlocks(fit, tt, pairs);
    assert MaskBlocks(fit, tt + 1, pairs)[tt] == row;
  }

  /** The mask of type tt and pair p is entry tt * pairs + p of the list,
      the index the variance equations read it from. */
  lemma MaskAt(fit: (nat, nat) -> seq<Regressor>, types: nat, pairs: nat, tt: nat, p: nat)
    requires tt < types && p < pairs
    ensures |Flatten(MaskBlocks(fit, types, pairs))| == types * pairs
    ensures tt * pairs + p < types * pairs && Flatten(MaskBlocks(fit, types, pairs))[tt * pairs + p] == fit(tt, p)
  {
    var blocks := MaskBlocks(fit, types, pairs);
    FlattenAt(blocks, pairs, tt, p);
    assert blocks[tt][p] == fit(tt, p);
  }

  /** `params[params.index.str.contains("prod")]` on one equation. */
  function ProdOnly(sel: seq<Regressor>): (r: seq<Regressor>)
    ensures forall x :: x in r <==> x in sel && x.ProdTerm?
    decreases |sel|
  {
    if sel == [] then []
    else
      var last := sel[|sel| - 1];
      ProdOnly(sel[..|sel| - 1]) + (if last.ProdTerm? then [last] else [])
  }

  /** n copies of x. */
  function Copies(x: Regressor, n: nat): (r: seq<Regressor>)
    ensures |r| == n && forall k :: 0 <= k < n ==> r[k] == x
  {
    seq(n, _ => x)
  }

  /** An equation keeps its product term once for every time the mask lists
      it, and no other product term. */
  lemma {:induction false} ProdTermsKept(mask: seq<Regressor>, inc: seq<nat>, pairs: nat, p: nat)
    requires p < pairs
    ensures ProdOnly(Selected(mask, Candidates(inc, pairs, p))) == Copies(ProdTerm(p), multiset(mask)[ProdTerm(p)])
    decreases |mask|
  {
    if mask != [] {
      var n := |mask| - 1;
      var x, cands := mask[n], Candidates(inc, pairs, p);
      ProdTermsKept(mask[..n], inc, pairs, p);
      CandidatesSpec(inc, pairs, p, x);
      MultisetLast(mask, ProdTerm(p));
      SelectedLast(mask, cands);
      if x in cands {
        ProdOnlyAppend(Selected(mask[..n], cands), x);
        if x == ProdTerm(p) {
          CopiesStep(x, multiset(mask[..n])[x]);
        }
      }
    }
  }

  /** Occurrences in a list are those in all but its last entry, plus one
      when the last entry is y. */
  lemma MultisetLast<T>(s: seq<T>, y: T)
    requires s != []
    ensures multiset(s)[y] == multiset(s[..|s| - 1])[y] + (if s[|s| - 1] == y then 1 else 0)
  {
    assert s == s[..|s| - 1] + [s[|s| - 1]];
  }

  /** Selection keeps the last mask entry exactly when it is a candidate. */
  lemma SelectedLast(mask: seq<Regressor>, cands: seq<Regressor>)
    requires mask != []
    ensures Selected(mask, cands)
         == if mask[|mask| - 1] in cands then Selected(mask[..|mask| - 1], cands) + [mask[|mask| - 1]]
            else Selected(mask[..|mask| - 1], cands)
  {
    ConcatEmpty(Selected(mask[..|mask| - 1], cands), []);
  }

  /** ProdOnly of a list with one more entry keeps that entry exactly when
      it is a product term. */
  lemma ProdOnlyAppend(sel: seq<Regressor>, x: Regressor)
    ensures ProdOnly(sel + [x]) == if x.ProdTerm? then ProdOnly(sel) + [x] else ProdOnly(sel)
  {
    assert (sel + [x])[..|sel|] == sel;
    ConcatEmpty(ProdOnly(sel), []);
  }

  lemma CopiesStep(x: Regressor, n: nat)
    ensures Copies(x, n + 1) == Copies(x, n) + [x]
  {
  }

  /** The product parameters of a whole system, equation after equation. */
  function ProdParams(sels: seq<seq<Regressor>>): seq<Regressor>
  {
    if sels == [] then [] else ProdParams(sels[..|sels| - 1]) + ProdOnly(sels[|sels| - 1])
  }

  /** When each mask of type tt lists its pair's product term exactly once
      (the product term is left unpenalised, so the fit keeps it), the
      product parameters of the type-tt system are the pairs' product terms
      in pair order: one per pair, ready for the upper-triangle fill. */
  lemma {:induction false} ProdParamsInPairOrder(masks: seq<seq<Regressor>>, incs: seq<nat>, pairs: nat, m: nat)
    requires m <= pairs && |masks| == pairs
    requires forall p :: 0 <= p < pairs ==> multiset(masks[p])[ProdTerm(p)] == 1
    ensures ProdParams(Equations(masks, incs, pairs, m)) == PairProds(m)
    decreases m
  {
    if m > 0 {
      assert Equations(masks, incs, pairs, m)[..m - 1] == Equations(masks, incs, pairs, m - 1);
      ProdParamsInPairOrder(masks, incs, pairs, m - 1);
      ProdTermsKept(masks[m - 1], incs, pairs, m - 1);
      assert PairProds(m) == PairProds(m - 1) + [ProdTerm(m - 1)];
    }
  }

  /** The selected regressors of the first m equations of a type. */
  function Equations(masks: seq<seq<Regressor>>, incs: seq<nat>, pairs: nat, m: nat): (sels: seq<seq<Regressor>>)
    requires m <= |masks|
    ensures |sels| == m && forall p :: 0 <= p < m ==> sels[p] == Selected(masks[p], Candidates(incs, pairs, p))
  {
    seq(m, p requires 0 <= p < m => Selected(masks[p], Candidates(incs, pairs, p)))
  }

  /** The product terms of the first m pairs, in pair order. */
  function PairProds(m: nat): (r: seq<Regressor>)
    ensures |r| == m && forall p :: 0 <= p < m ==> r[p] == ProdTerm(p)
  {
    seq(m, p requires 0 <= p < m => ProdTerm(p))
  }
}
