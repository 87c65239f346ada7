/**
 The arithmetic of the TOPSIS ranking (Hwang and Yoon's Technique for Order of
 Preference by Similarity to Ideal Solution) over a table with one row per car
 and the three criteria price, mpg and hp, as pure functions:
 column norms, normalisation, weighting, the ideal-best and ideal-worst
 vectors, the two Euclidean distances of each row and the closeness score.
 The imperative steps in AutoRank are proved equal to these functions.
 */
module Topsis {
  import opened SquareRoot

  /** The criteria, in column order: price (a cost), mpg and hp (benefits). */
  const Criteria: nat := 3
  const Price: nat := 0
  const Mpg: nat := 1
  const Hp: nat := 2

  datatype Direction = Cost | Benefit

  /** Price is the only cost criterion; mpg and hp are benefits. */
  function DirectionOf(j: nat): Direction
    requires j < Criteria
  {
    if j == Price then Cost else Benefit
  }

  /** On criterion `j`, the value `x` is at least as good as the value `y`. */
  predicate NoWorse(j: nat, x: real, y: real)
    requires j < Criteria
  {
    match DirectionOf(j)
    case Cost => x <= y
    case Benefit => y <= x
  }

  /** A table of criterion values: one row per car, one column per criterion. */
  type Matrix = seq<seq<real>>

  predicate IsTable(m: Matrix) {
    forall i :: 0 <= i < |m| ==> |m[i]| == Criteria
  }

  function Column(m: Matrix, j: nat): (c: seq<real>)
    requires IsTable(m) && j < Criteria
    ensures |c| == |m|
  {
    seq(|m|, i requires 0 <= i < |m| => m[i][j])
  }

  /** Every entry of `s` multiplied by `k`. */
  function Scale(s: seq<real>, k: real): (r: seq<real>)
    ensures |r| == |s|
  {
    seq(|s|, i requires 0 <= i < |s| => s[i] * k)
  }

  predicate HasNonZero(s: seq<real>) {
    exists i :: 0 <= i < |s| && s[i] != 0.0
  }

  // ---------------------------------------------------------------------------
  // Sums of squares and Euclidean norms

  function SumSquares(s: seq<real>): (r: real)
    ensures 0.0 <= r
  {
    if s == [] then 0.0 else SumSquares(s[..|s| - 1]) + Square(s[|s| - 1])
  }

  /** The sum of squares is zero exactly when every entry is zero. */
  lemma {:induction false} SumSquaresZeroIff(s: seq<real>)
    ensures SumSquares(s) == 0.0 <==> !HasNonZero(s)
  {
    if s != [] {
      var init, last := s[..|s| - 1], s[|s| - 1];
      SumSquaresZeroIff(init);
      if SumSquares(s) == 0.0 {
        SquareZero(last);
        forall i | 0 <= i < |s| ensures s[i] == 0.0 {
          if i < |init| {
            assert s[i] == init[i];
          }
        }
      } else if last == 0.0 {
        var i :| 0 <= i < |init| && init[i] != 0.0;
        assert s[i] != 0.0;
      }
    }
  }

  /** Every squared entry is bounded by the sum of squares. */
  lemma {:induction false} SquareBounded(s: seq<real>, i: nat)
    requires i < |s|
    ensures Square(s[i]) <= SumSquares(s)
  {
    var init := s[..|s| - 1];
    if i < |init| {
      SquareBounded(init, i);
      assert init[i] == s[i];
    }
  }

  /** Scaling every entry by `k` scales the sum of squares by `k * k`. */
  lemma {:induction false} SumSquaresScale(s: seq<real>, k: real)
    ensures SumSquares(Scale(s, k)) == Square(k) * SumSquares(s)
  {
    if s != [] {
      var t, init, x := Scale(s, k), s[..|s| - 1], s[|s| - 1];
      assert t[..|t| - 1] == Scale(init, k) by {
        forall i | 0 <= i < |init| ensures t[i] == Scale(init, k)[i] {
          assert init[i] == s[i];
        }
      }
      SumSquaresScale(init, k);
      assert t[|t| - 1] == x * k;
      SquareOfProduct(x, k);
      var rest, kk := SumSquares(init), Square(k);
      assert kk * (rest + Square(x)) == kk * rest + kk * Square(x);
    }
  }

  /** The Euclidean norm of a vector: the non-negative real whose square is
      the sum of squares of its entries. */
  function Norm(sqrt: real -> real, s: seq<real>): (r: real)
    requires IsSqrt(sqrt)
    ensures 0.0 <= r && Square(r) == SumSquares(s)
  {
    SqrtSquared(sqrt, SumSquares(s));
    sqrt(SumSquares(s))
  }

  /** The norm is positive exactly when some entry is non-zero. */
  lemma NormPositiveIff(sqrt: real -> real, s: seq<real>)
    requires IsSqrt(sqrt)
    ensures 0.0 <= Norm(sqrt, s)
    ensures 0.0 < Norm(sqrt, s) <==> HasNonZero(s)
  {
    SumSquaresZeroIff(s);
    SqrtZeroIff(sqrt, SumSquares(s));
  }

  /** The Euclidean norm of column `j`, positive exactly when the column is
      not all zeros. */
  function ColumnNorm(sqrt: real -> real, m: Matrix, j: nat): (r: real)
    requires IsSqrt(sqrt) && IsTable(m) && j < Criteria
    ensures 0.0 <= r
    ensures 0.0 < r <==> HasNonZero(Column(m, j))
  {
    NormPositiveIff(sqrt, Column(m, j));
    Norm(sqrt, Column(m, j))
  }

  // ---------------------------------------------------------------------------
  // Normalisation and weighting

  /** A raw value divided by its column's norm. An all-zero column has norm
      0, and `df[col] / 0.0` fills it with NaN, which the distance sums then
      skip; the model writes 0.0 there instead, which adds nothing to the
      distances either (`ZeroColumnSkipped`). */
  function DivideByNorm(x: real, n: real): real {
    if n == 0.0 then 0.0 else x / n
  }

  /** Each entry divided by the Euclidean norm of its column. */
  function Normalize(sqrt: real -> real, m: Matrix): (r: Matrix)
    requires IsSqrt(sqrt) && IsTable(m)
    ensures IsTable(r) && |r| == |m|
  {
    seq(|m|, i requires 0 <= i < |m| =>
      seq(Criteria, j requires 0 <= j < Criteria => DivideByNorm(m[i][j], ColumnNorm(sqrt, m, j))))
  }

  /** A normalised column that is not all zeros is the raw column scaled by
      the inverse of its norm. */
  lemma NormalizedColumn(sqrt: real -> real, m: Matrix, j: nat)
    requires IsSqrt(sqrt) && IsTable(m) && j < Criteria && HasNonZero(Column(m, j))
    ensures 0.0 < ColumnNorm(sqrt, m, j)
    ensures Column(Normalize(sqrt, m), j) == Scale(Column(m, j), 1.0 / ColumnNorm(sqrt, m, j))
  {
    var n := ColumnNorm(sqrt, m, j);
    var r := Normalize(sqrt, m);
    forall i | 0 <= i < |m| ensures Column(r, j)[i] == Scale(Column(m, j), 1.0 / n)[i] {
      assert r[i][j] == m[i][j] / n;
      assert m[i][j] / n == m[i][j] * (1.0 / n);
    }
  }

  /** An all-zero column stays all zeros. */
  lemma NormalizedZeroColumn(sqrt: real -> real, m: Matrix, j: nat)
    requires IsSqrt(sqrt) && IsTable(m) && j < Criteria && !HasNonZero(Column(m, j))
    ensures forall i | 0 <= i < |m| :: Normalize(sqrt, m)[i][j] == 0.0
  {
    assert ColumnNorm(sqrt, m, j) == 0.0;
  }

  /** Every normalised column that is not all zeros has Euclidean norm 1. */
  lemma NormalizedColumnIsUnit(sqrt: real -> real, m: Matrix, j: nat)
    requires IsSqrt(sqrt) && IsTable(m) && j < Criteria && HasNonZero(Column(m, j))
    ensures SumSquares(Column(Normalize(sqrt, m), j)) == 1.0
  {
    var c := Column(m, j);
    var n := ColumnNorm(sqrt, m, j);
    NormalizedColumn(sqrt, m, j);
    SumSquaresScale(c, 1.0 / n);
    var q := 1.0 / n;
    SqrtSquared(sqrt, SumSquares(c));
    assert n * n == SumSquares(c);
    assert q * n == 1.0;
    assert Square(q) * (n * n) == (q * n) * (q * n);
  }

  /** Every normalised entry lies in [-1, 1]. */
  lemma NormalizedEntryBounded(sqrt: real -> real, m: Matrix, i: nat, j: nat)
    requires IsSqrt(sqrt) && IsTable(m) && i < |m| && j < Criteria
    ensures -1.0 <= Normalize(sqrt, m)[i][j] <= 1.0
  {
    if HasNonZero(Column(m, j)) {
      var c := Column(Normalize(sqrt, m), j);
      NormalizedColumnIsUnit(sqrt, m, j);
      SquareBounded(c, i);
      SquareAtMostOne(c[i]);
    } else {
      NormalizedZeroColumn(sqrt, m, j);
    }
  }

  /** Each column multiplied by the weight of its criterion. */
  function Weight(m: Matrix, w: seq<real>): (r: Matrix)
    requires IsTable(m) && |w| >= Criteria
    ensures IsTable(r) && |r| == |m|
  {
    seq(|m|, i requires 0 <= i < |m| =>
      seq(Criteria, j requires 0 <= j < Criteria => m[i][j] * w[j]))
  }

  /** Weighting touches column `j` with weight `j` only: the weighted column
      is the column scaled by `w[j]`, whatever the other weights are. */
  lemma WeightColumn(m: Matrix, w: seq<real>, w': seq<real>, j: nat)
    requires IsTable(m) && |w| >= Criteria && |w'| >= Criteria && j < Criteria
    requires w[j] == w'[j]
    ensures Column(Weight(m, w), j) == Scale(Column(m, j), w[j])
    ensures Column(Weight(m, w), j) == Column(Weight(m, w'), j)
  {
    var r, r' := Weight(m, w), Weight(m, w');
    forall i | 0 <= i < |m| ensures Column(r, j)[i] == Scale(Column(m, j), w[j])[i] == Column(r', j)[i] {
      assert r[i][j] == m[i][j] * w[j] == r'[i][j];
    }
  }

  /** The weighted normalised matrix (`norm_df` after weighting). */
  function Weighted(sqrt: real -> real, m: Matrix, w: seq<real>): (v: Matrix)
    requires IsSqrt(sqrt) && IsTable(m) && |w| >= Criteria
    ensures IsTable(v) && |v| == |m|
  {
    Weight(Normalize(sqrt, m), w)
  }

  // ---------------------------------------------------------------------------
  // Ideal best and ideal worst

  function MinOf(s: seq<real>): (r: real)
    requires |s| > 0
    ensures r in s
    ensures forall i | 0 <= i < |s| :: r <= s[i]
  {
    if |s| == 1 then s[0]
    else
      var t := MinOf(s[..|s| - 1]);
      if s[|s| - 1] < t then s[|s| - 1] else t
  }

  function MaxOf(s: seq<real>): (r: real)
    requires |s| > 0
    ensures r in s
    ensures forall i | 0 <= i < |s| :: s[i] <= r
  {
    if |s| == 1 then s[0]
    else
      var t := MaxOf(s[..|s| - 1]);
      if t < s[|s| - 1] then s[|s| - 1] else t
  }

  /** The best value of a column on criterion `j`: the minimum of a cost
      column, the maximum of a benefit column. */
  function BestOf(j: nat, c: seq<real>): (r: real)
    requires j < Criteria && |c| > 0
    ensures r in c
    ensures forall i | 0 <= i < |c| :: NoWorse(j, r, c[i])
  {
    match DirectionOf(j)
    case Cost => MinOf(c)
    case Benefit => MaxOf(c)
  }

  /** The worst value of a column on criterion `j`: the maximum of a cost
      column, the minimum of a benefit column. */
  function WorstOf(j: nat, c: seq<real>): (r: real)
    requires j < Criteria && |c| > 0
    ensures r in c
    ensures forall i | 0 <= i < |c| :: NoWorse(j, c[i], r)
  {
    match DirectionOf(j)
    case Cost => MaxOf(c)
    case Benefit => MinOf(c)
  }

  lemma ColumnBounds(v: Matrix)
    requires IsTable(v) && |v| > 0
    ensures forall j, i | 0 <= j < Criteria && 0 <= i < |v| ::
      NoWorse(j, BestOf(j, Column(v, j)), v[i][j]) && NoWorse(j, v[i][j], WorstOf(j, Column(v, j)))
  {
    forall j, i | 0 <= j < Criteria && 0 <= i < |v|
      ensures NoWorse(j, BestOf(j, Column(v, j)), v[i][j]) && NoWorse(j, v[i][j], WorstOf(j, Column(v, j)))
    {
      assert Column(v, j)[i] == v[i][j];
    }
  }

  /** The ideal-best vector: for each criterion the best value in its column. */
  function IdealBest(v: Matrix): (best: seq<real>)
    requires IsTable(v) && |v| > 0
    ensures |best| == Criteria
    ensures forall j, i | 0 <= j < Criteria && 0 <= i < |v| :: NoWorse(j, best[j], v[i][j])
    ensures forall j | 0 <= j < Criteria :: best[j] in Column(v, j)
  {
    ColumnBounds(v);
    seq(Criteria, j requires 0 <= j < Criteria => BestOf(j, Column(v, j)))
  }

  /** The ideal-worst vector: for each criterion the worst value in its column. */
  function IdealWorst(v: Matrix): (worst: seq<real>)
    requires IsTable(v) && |v| > 0
    ensures |worst| == Criteria
    ensures forall j, i | 0 <= j < Criteria && 0 <= i < |v| :: NoWorse(j, v[i][j], worst[j])
    ensures forall j | 0 <= j < Criteria :: worst[j] in Column(v, j)
  {
    ColumnBounds(v);
    seq(Criteria, j requires 0 <= j < Criteria => WorstOf(j, Column(v, j)))
  }

  // ---------------------------------------------------------------------------
  // Distances and the closeness score

  function Diff(a: seq<real>, b: seq<real>): (d: seq<real>)
    requires |a| == |b|
    ensures |d| == |a|
  {
    seq(|a|, k requires 0 <= k < |a| => a[k] - b[k])
  }

  /** The Euclidean distance between two vectors. */
  function Distance(sqrt: real -> real, a: seq<real>, b: seq<real>): (d: real)
    requires IsSqrt(sqrt) && |a| == |b|
    ensures 0.0 <= d
  {
    sqrt(SumSquares(Diff(a, b)))
  }

  /** The distance is zero exactly between equal vectors. */
  lemma DistanceZeroIff(sqrt: real -> real, a: seq<real>, b: seq<real>)
    requires IsSqrt(sqrt) && |a| == |b|
    ensures Distance(sqrt, a, b) == 0.0 <==> a == b
  {
    var d := Diff(a, b);
    SumSquaresZeroIff(d);
    SqrtZeroIff(sqrt, SumSquares(d));
    if a != b {
      var k :| 0 <= k < |a| && a[k] != b[k];
      assert d[k] != 0.0;
    }
  }

  /** `s_plus`: the distance of row `i` to the ideal-best vector. */
  function SPlus(sqrt: real -> real, v: Matrix, i: nat): (d: real)
    requires IsSqrt(sqrt) && IsTable(v) && i < |v|
    ensures 0.0 <= d
  {
    Distance(sqrt, v[i], IdealBest(v))
  }

  /** `s_minus`: the distance of row `i` to the ideal-worst vector. */
  function SMinus(sqrt: real -> real, v: Matrix, i: nat): (d: real)
    requires IsSqrt(sqrt) && IsTable(v) && i < |v|
    ensures 0.0 <= d
  {
    Distance(sqrt, v[i], IdealWorst(v))
  }

  /** The sum of squares with entry `skip` left out: what `sum(axis=1)`
      computes when that entry is NaN, since pandas skips NaN by default. */
  function SumSquaresSkipping(s: seq<real>, skip: nat): (r: real)
    ensures 0.0 <= r
  {
    if s == [] then 0.0
    else SumSquaresSkipping(s[..|s| - 1], skip) + (if |s| - 1 == skip then 0.0 else Square(s[|s| - 1]))
  }

  /** Skipping an entry beyond the end skips nothing. */
  lemma {:induction false} SkippingBeyondEnd(s: seq<real>, skip: nat)
    requires |s| <= skip
    ensures SumSquaresSkipping(s, skip) == SumSquares(s)
  {
    if s != [] {
      SkippingBeyondEnd(s[..|s| - 1], skip);
    }
  }

  /** Skipping a zero entry does not change the sum of squares. */
  lemma {:induction false} SkippingZero(s: seq<real>, skip: nat)
    requires skip < |s| && s[skip] == 0.0
    ensures SumSquaresSkipping(s, skip) == SumSquares(s)
  {
    var init := s[..|s| - 1];
    if skip < |init| {
      assert init[skip] == s[skip];
      SkippingZero(init, skip);
    } else {
      SkippingBeyondEnd(init, skip);
    }
  }

  /** An all-zero criterion column, which the source turns into NaN and
      leaves out of both distance sums, leaves both distances of every row
      as if that criterion were skipped. */
  lemma ZeroColumnSkipped(sqrt: real -> real, m: Matrix, w: seq<real>, j: nat, i: nat)
    requires IsSqrt(sqrt) && IsTable(m) && |w| >= Criteria && j < Criteria && i < |m|
    requires !HasNonZero(Column(m, j))
    ensures SPlus(sqrt, Weighted(sqrt, m, w), i) ==
      sqrt(SumSquaresSkipping(Diff(Weighted(sqrt, m, w)[i], IdealBest(Weighted(sqrt, m, w))), j))
    ensures SMinus(sqrt, Weighted(sqrt, m, w), i) ==
      sqrt(SumSquaresSkipping(Diff(Weighted(sqrt, m, w)[i], IdealWorst(Weighted(sqrt, m, w))), j))
  {
    var v := Weighted(sqrt, m, w);
    NormalizedZeroColumn(sqrt, m, j);
    assert forall k | 0 <= k < |v| :: v[k][j] == 0.0;
    var best, worst := IdealBest(v), IdealWorst(v);
    assert best[j] == 0.0 && worst[j] == 0.0;
    SkippingZero(Diff(v[i], best), j);
    SkippingZero(Diff(v[i], worst), j);
  }

  /** The closeness score `s_minus / (s_plus + s_minus)`. */
  function Closeness(sPlus: real, sMinus: real): (score: real)
    requires 0.0 <= sPlus && 0.0 <= sMinus && 0.0 < sPlus + sMinus
    ensures 0.0 <= score <= 1.0
    ensures score == 1.0 <==> sPlus == 0.0
    ensures score == 0.0 <==> sMinus == 0.0
  {
    var total := sPlus + sMinus;
    assert sMinus / total * total == sMinus;
    sMinus / total
  }

  // ---------------------------------------------------------------------------
  // When the score is defined

  /** Some criterion with a non-zero weight tells two cars apart. */
  predicate Separable(m: Matrix, w: seq<real>)
    requires IsTable(m) && |w| >= Criteria
  {
    exists j, i, k | 0 <= j < Criteria && 0 <= i < |m| && 0 <= k < |m| ::
      w[j] != 0.0 && m[i][j] != m[k][j]
  }

  /** The inputs on which the score is defined: a non-empty table with a
      separating criterion, without which every row has
      `s_plus == s_minus == 0`. */
  ghost predicate Admissible(sqrt: real -> real, m: Matrix, w: seq<real>) {
    && IsSqrt(sqrt)
    && IsTable(m)
    && |m| > 0
    && |w| >= Criteria
    && Separable(m, w)
  }

  /** Normalising and weighting keep two distinct entries of a column with a
      non-zero weight distinct. */
  lemma WeightedDistinct(sqrt: real -> real, m: Matrix, w: seq<real>, j: nat, i: nat, k: nat)
    requires IsSqrt(sqrt) && IsTable(m) && |w| >= Criteria
    requires j < Criteria && i < |m| && k < |m|
    requires w[j] != 0.0 && m[i][j] != m[k][j]
    ensures Weighted(sqrt, m, w)[i][j] != Weighted(sqrt, m, w)[k][j]
  {
    var v := Weighted(sqrt, m, w);
    var n := ColumnNorm(sqrt, m, j);
    assert HasNonZero(Column(m, j)) by {
      if m[i][j] != 0.0 { assert Column(m, j)[i] != 0.0; } else { assert Column(m, j)[k] != 0.0; }
    }
    assert v[i][j] == m[i][j] / n * w[j];
    assert v[k][j] == m[k][j] / n * w[j];
  }

  /** With a separating criterion, every row has `s_plus + s_minus > 0`. */
  lemma DenominatorsPositive(sqrt: real -> real, m: Matrix, w: seq<real>)
    requires Admissible(sqrt, m, w)
    ensures forall i | 0 <= i < |m| ::
      0.0 < SPlus(sqrt, Weighted(sqrt, m, w), i) + SMinus(sqrt, Weighted(sqrt, m, w), i)
  {
    var v := Weighted(sqrt, m, w);
    var best, worst := IdealBest(v), IdealWorst(v);
    var j, i0, k0 :| 0 <= j < Criteria && 0 <= i0 < |m| && 0 <= k0 < |m| &&
      w[j] != 0.0 && m[i0][j] != m[k0][j];
    WeightedDistinct(sqrt, m, w, j, i0, k0);
    assert best[j] != worst[j] by {
      assert NoWorse(j, best[j], v[i0][j]) && NoWorse(j, v[i0][j], worst[j]);
      assert NoWorse(j, best[j], v[k0][j]) && NoWorse(j, v[k0][j], worst[j]);
    }
    forall i | 0 <= i < |m| ensures 0.0 < SPlus(sqrt, v, i) + SMinus(sqrt, v, i) {
      DistanceZeroIff(sqrt, v[i], best);
      DistanceZeroIff(sqrt, v[i], worst);
    }
  }

  /** Without a separating criterion every column of the weighted matrix is
      constant. */
  lemma ConstantColumnsWithoutSeparation(sqrt: real -> real, m: Matrix, w: seq<real>)
    requires IsSqrt(sqrt) && IsTable(m) && |m| > 0 && |w| >= Criteria
    requires !Separable(m, w)
    ensures forall i, j | 0 <= i < |m| && 0 <= j < Criteria ::
      Weighted(sqrt, m, w)[i][j] == Weighted(sqrt, m, w)[0][j]
  {
  }

  /** When every column is constant, both ideal vectors are the first row. */
  lemma IdealsOfConstantColumns(v: Matrix)
    requires IsTable(v) && |v| > 0
    requires forall i, j | 0 <= i < |v| && 0 <= j < Criteria :: v[i][j] == v[0][j]
    ensures IdealBest(v) == v[0] && IdealWorst(v) == v[0]
  {
  }

  /** Without a separating criterion every row coincides with both ideal
      vectors, so `s_plus + s_minus == 0` in every row: the closeness score
      is `0 / 0`, which is why `Separable` is required. */
  lemma DegenerateWithoutSeparation(sqrt: real -> real, m: Matrix, w: seq<real>)
    requires IsSqrt(sqrt) && IsTable(m) && |m| > 0 && |w| >= Criteria
    requires !Separable(m, w)
    ensures forall i | 0 <= i < |m| ::
      SPlus(sqrt, Weighted(sqrt, m, w), i) == 0.0 && SMinus(sqrt, Weighted(sqrt, m, w), i) == 0.0
  {
    var v := Weighted(sqrt, m, w);
    ConstantColumnsWithoutSeparation(sqrt, m, w);
    IdealsOfConstantColumns(v);
    forall i | 0 <= i < |m| ensures SPlus(sqrt, v, i) == 0.0 && SMinus(sqrt, v, i) == 0.0 {
      assert v[i] == v[0] by {
        forall j | 0 <= j < Criteria ensures v[i][j] == v[0][j] { }
      }
      DistanceZeroIff(sqrt, v[i], IdealBest(v));
      DistanceZeroIff(sqrt, v[i], IdealWorst(v));
    }
  }

  /** Every row of the weighted table `v` has `s_plus + s_minus > 0`. */
  predicate DistancesPositive(sqrt: real -> real, v: Matrix)
    requires IsSqrt(sqrt) && IsTable(v)
  {
    forall i | 0 <= i < |v| :: 0.0 < SPlus(sqrt, v, i) + SMinus(sqrt, v, i)
  }

  /** The closeness score of every row of the weighted table `v`. */
  function Closenesses(sqrt: real -> real, v: Matrix): (s: seq<real>)
    requires IsSqrt(sqrt) && IsTable(v) && DistancesPositive(sqrt, v)
    ensures |s| == |v|
    ensures forall i | 0 <= i < |v| :: 0.0 <= s[i] <= 1.0
  {
    seq(|v|, i requires 0 <= i < |v| => Closeness(SPlus(sqrt, v, i), SMinus(sqrt, v, i)))
  }

  /** The closeness score of every car. */
  function Scores(sqrt: real -> real, m: Matrix, w: seq<real>): (s: seq<real>)
    requires Admissible(sqrt, m, w)
    ensures |s| == |m|
    ensures forall i | 0 <= i < |m| :: 0.0 <= s[i] <= 1.0
  {
    DenominatorsPositive(sqrt, m, w);
    Closenesses(sqrt, Weighted(sqrt, m, w))
  }

  /** A car scores 1 exactly when its weighted row is the ideal-best vector. */
  lemma ScoreOneIffIdealBest(sqrt: real -> real, m: Matrix, w: seq<real>, i: nat)
    requires Admissible(sqrt, m, w) && i < |m|
    ensures Scores(sqrt, m, w)[i] == 1.0 <==>
      Weighted(sqrt, m, w)[i] == IdealBest(Weighted(sqrt, m, w))
  {
    var v := Weighted(sqrt, m, w);
    DistanceZeroIff(sqrt, v[i], IdealBest(v));
  }

  /** A car scores 0 exactly when its weighted row is the ideal-worst vector. */
  lemma ScoreZeroIffIdealWorst(sqrt: real -> real, m: Matrix, w: seq<real>, i: nat)
    requires Admissible(sqrt, m, w) && i < |m|
    ensures Scores(sqrt, m, w)[i] == 0.0 <==>
      Weighted(sqrt, m, w)[i] == IdealWorst(Weighted(sqrt, m, w))
  {
    var v := Weighted(sqrt, m, w);
    DistanceZeroIff(sqrt, v[i], IdealWorst(v));
  }
}
