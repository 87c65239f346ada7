/**
 Properties of the closeness scores as a whole: the weights only matter up to
 a common positive factor, and a car that is no worse than every other car on
 every criterion scores 1 (one that is no better than every other scores 0).
 */
module TopsisProperties {
  import opened SquareRoot
  import opened Topsis

  // ---------------------------------------------------------------------------
  // Order facts about a single criterion

  /** Multiplying by a non-negative factor keeps one value no worse than another. */
  lemma NoWorseScaled(j: nat, x: real, y: real, k: real)
    requires j < Criteria && 0.0 <= k && NoWorse(j, x, y)
    ensures NoWorse(j, x * k, y * k)
  {
  }

  /** An entry of a column that is no worse than every entry is the column's
      best value. */
  lemma BestOfUnique(j: nat, c: seq<real>, k: nat)
    requires j < Criteria && k < |c|
    requires forall i | 0 <= i < |c| :: NoWorse(j, c[k], c[i])
    ensures BestOf(j, c) == c[k]
  {
  }

  /** An entry of a column that is no better than every entry is the column's
      worst value. */
  lemma WorstOfUnique(j: nat, c: seq<real>, k: nat)
    requires j < Criteria && k < |c|
    requires forall i | 0 <= i < |c| :: NoWorse(j, c[i], c[k])
    ensures WorstOf(j, c) == c[k]
  {
  }

  // ---------------------------------------------------------------------------
  // Scaling every weight by the same positive factor

  /** `f` never reverses the order of two reals. */
  ghost predicate Monotone(f: real -> real) {
    forall x, y | x <= y :: f(x) <= f(y)
  }

  /** `f` applied to every entry of a vector. */
  function MapSeq(s: seq<real>, f: real -> real): (r: seq<real>)
    ensures |r| == |s|
  {
    seq(|s|, k requires 0 <= k < |s| => f(s[k]))
  }

  /** `v'` is `v` with `f` applied to every entry. */
  predicate MappedTable(v: Matrix, v': Matrix, f: real -> real)
    requires IsTable(v) && IsTable(v')
  {
    |v'| == |v| && forall i, j | 0 <= i < |v| && 0 <= j < Criteria :: v'[i][j] == f(v[i][j])
  }

  /** Multiplication by `c`, as a function. */
  function Times(c: real): real -> real {
    x => x * c
  }

  /** Multiplying by a non-negative factor never reverses an order. */
  lemma TimesMonotone(c: real)
    requires 0.0 <= c
    ensures Monotone(Times(c))
  {
  }

  /** Scaling the weights by `c` multiplies every entry of the weighted table
      by `c`. */
  lemma WeightedScale(sqrt: real -> real, m: Matrix, w: seq<real>, c: real)
    requires IsSqrt(sqrt) && IsTable(m) && |w| >= Criteria
    ensures MappedTable(Weighted(sqrt, m, w), Weighted(sqrt, m, Scale(w, c)), Times(c))
  {
  }

  /** Applying a monotone function to every entry of a column maps its best
      value to the best value of the result. */
  lemma BestOfMonotone(j: nat, col: seq<real>, col': seq<real>, f: real -> real)
    requires j < Criteria && |col| > 0 && |col'| == |col| && Monotone(f)
    requires forall i | 0 <= i < |col| :: col'[i] == f(col[i])
    ensures BestOf(j, col') == f(BestOf(j, col))
  {
  }

  /** Applying a monotone function to every entry of a column maps its worst
      value to the worst value of the result. */
  lemma WorstOfMonotone(j: nat, col: seq<real>, col': seq<real>, f: real -> real)
    requires j < Criteria && |col| > 0 && |col'| == |col| && Monotone(f)
    requires forall i | 0 <= i < |col| :: col'[i] == f(col[i])
    ensures WorstOf(j, col') == f(WorstOf(j, col))
  {
  }

  /** Applying a monotone function to every entry of a table applies it to
      both ideal vectors. */
  lemma IdealsMonotone(v: Matrix, v': Matrix, f: real -> real)
    requires IsTable(v) && IsTable(v') && |v| > 0 && Monotone(f) && MappedTable(v, v', f)
    ensures IdealBest(v') == MapSeq(IdealBest(v), f)
    ensures IdealWorst(v') == MapSeq(IdealWorst(v), f)
  {
    forall j | 0 <= j < Criteria
      ensures IdealBest(v')[j] == f(IdealBest(v)[j]) && IdealWorst(v')[j] == f(IdealWorst(v)[j])
    {
      BestOfMonotone(j, Column(v, j), Column(v', j), f);
      WorstOfMonotone(j, Column(v, j), Column(v', j), f);
    }
  }

  /** Row `i` of a mapped table is the mapped row. */
  lemma MappedRow(v: Matrix, v': Matrix, f: real -> real, i: nat)
    requires IsTable(v) && IsTable(v') && MappedTable(v, v', f) && i < |v|
    ensures v'[i] == MapSeq(v[i], f)
  {
  }

  /** Scaling both vectors by a non-negative factor scales their difference
      by it. */
  lemma DiffScale(a: seq<real>, b: seq<real>, a': seq<real>, b': seq<real>, c: real)
    requires |a| == |b| == |a'| == |b'|
    requires forall k | 0 <= k < |a| :: a'[k] == a[k] * c && b'[k] == b[k] * c
    ensures Diff(a', b') == Scale(Diff(a, b), c)
  {
    forall k | 0 <= k < |a| ensures Diff(a', b')[k] == Scale(Diff(a, b), c)[k] {
      assert a[k] * c - b[k] * c == (a[k] - b[k]) * c;
    }
  }

  /** Scaling both vectors by `c` scales the sum of squares of their
      difference by `c * c`. */
  lemma DiffSumSquaresScale(a: seq<real>, b: seq<real>, c: real)
    requires |a| == |b|
    ensures SumSquares(Diff(MapSeq(a, Times(c)), MapSeq(b, Times(c)))) == Square(c) * SumSquares(Diff(a, b))
  {
    var d := Diff(a, b);
    DiffScale(a, b, MapSeq(a, Times(c)), MapSeq(b, Times(c)), c);
    SumSquaresScale(d, c);
  }

  /** Scaling both vectors by a non-negative factor scales their distance by it. */
  lemma DistanceScale(sqrt: real -> real, a: seq<real>, b: seq<real>, c: real)
    requires IsSqrt(sqrt) && |a| == |b| && 0.0 <= c
    ensures Distance(sqrt, MapSeq(a, Times(c)), MapSeq(b, Times(c))) == c * Distance(sqrt, a, b)
  {
    var a', b' := MapSeq(a, Times(c)), MapSeq(b, Times(c));
    var total := SumSquares(Diff(a, b));
    DiffSumSquaresScale(a, b, c);
    SqrtScale(sqrt, c, total);
    assert SumSquares(Diff(a', b')) == Square(c) * total;
    assert Distance(sqrt, a', b') == sqrt(Square(c) * total);
    assert Distance(sqrt, a, b) == sqrt(total);
  }

  /** The closeness score does not change when both distances are scaled by
      the same positive factor. */
  lemma ClosenessScale(sPlus: real, sMinus: real, c: real)
    requires 0.0 <= sPlus && 0.0 <= sMinus && 0.0 < sPlus + sMinus && 0.0 < c
    ensures 0.0 <= c * sPlus && 0.0 <= c * sMinus && 0.0 < c * sPlus + c * sMinus
    ensures Closeness(c * sPlus, c * sMinus) == Closeness(sPlus, sMinus)
  {
  }

  /** When row `i` and the ideal-best vector of `v'` are those of `v`
      multiplied by `c`, so is the distance between them. */
  lemma ScaledSPlus(sqrt: real -> real, v: Matrix, v': Matrix, c: real, i: nat)
    requires IsSqrt(sqrt) && IsTable(v) && IsTable(v') && 0.0 <= c && i < |v| && i < |v'|
    requires v'[i] == MapSeq(v[i], Times(c))
    requires IdealBest(v') == MapSeq(IdealBest(v), Times(c))
    ensures SPlus(sqrt, v', i) == c * SPlus(sqrt, v, i)
  {
    DistanceScale(sqrt, v[i], IdealBest(v), c);
  }

  /** When row `i` and the ideal-worst vector of `v'` are those of `v`
      multiplied by `c`, so is the distance between them. */
  lemma ScaledSMinus(sqrt: real -> real, v: Matrix, v': Matrix, c: real, i: nat)
    requires IsSqrt(sqrt) && IsTable(v) && IsTable(v') && 0.0 <= c && i < |v| && i < |v'|
    requires v'[i] == MapSeq(v[i], Times(c))
    requires IdealWorst(v') == MapSeq(IdealWorst(v), Times(c))
    ensures SMinus(sqrt, v', i) == c * SMinus(sqrt, v, i)
  {
    DistanceScale(sqrt, v[i], IdealWorst(v), c);
  }

  /** Multiplying a table by `c > 0` multiplies both distances of every row
      by `c`. */
  lemma ScaledDistances(sqrt: real -> real, v: Matrix, v': Matrix, c: real)
    requires IsSqrt(sqrt) && IsTable(v) && IsTable(v') && |v| > 0 && 0.0 < c
    requires MappedTable(v, v', Times(c))
    ensures forall i | 0 <= i < |v| ::
      SPlus(sqrt, v', i) == c * SPlus(sqrt, v, i) && SMinus(sqrt, v', i) == c * SMinus(sqrt, v, i)
  {
    TimesMonotone(c);
    IdealsMonotone(v, v', Times(c));
    forall i | 0 <= i < |v|
      ensures SPlus(sqrt, v', i) == c * SPlus(sqrt, v, i) && SMinus(sqrt, v', i) == c * SMinus(sqrt, v, i)
    {
      MappedRow(v, v', Times(c), i);
      ScaledSPlus(sqrt, v, v', c, i);
      ScaledSMinus(sqrt, v, v', c, i);
    }
  }

  /** A row whose distances are those of another row multiplied by `c > 0`
      has the same closeness score. */
  lemma RowClosenessScale(sqrt: real -> real, v: Matrix, v': Matrix, c: real, i: nat)
    requires IsSqrt(sqrt) && IsTable(v) && IsTable(v') && 0.0 < c && i < |v| && i < |v'|
    requires 0.0 < SPlus(sqrt, v, i) + SMinus(sqrt, v, i)
    requires SPlus(sqrt, v', i) == c * SPlus(sqrt, v, i) && SMinus(sqrt, v', i) == c * SMinus(sqrt, v, i)
    ensures 0.0 < SPlus(sqrt, v', i) + SMinus(sqrt, v', i)
    ensures Closeness(SPlus(sqrt, v', i), SMinus(sqrt, v', i)) == Closeness(SPlus(sqrt, v, i), SMinus(sqrt, v, i))
  {
  }

  /** Tables whose rows have all distances in the ratio `c > 0` have the
      same closeness scores. */
  lemma ClosenessesScale(sqrt: real -> real, v: Matrix, v': Matrix, c: real)
    requires IsSqrt(sqrt) && IsTable(v) && IsTable(v') && |v'| == |v| && 0.0 < c
    requires DistancesPositive(sqrt, v)
    requires forall i | 0 <= i < |v| ::
      SPlus(sqrt, v', i) == c * SPlus(sqrt, v, i) && SMinus(sqrt, v', i) == c * SMinus(sqrt, v, i)
    ensures DistancesPositive(sqrt, v')
    ensures Closenesses(sqrt, v') == Closenesses(sqrt, v)
  {
    forall i | 0 <= i < |v| ensures 0.0 < SPlus(sqrt, v', i) + SMinus(sqrt, v', i) {
      RowClosenessScale(sqrt, v, v', c, i);
    }
    forall i | 0 <= i < |v| ensures Closenesses(sqrt, v')[i] == Closenesses(sqrt, v)[i] {
      RowClosenessScale(sqrt, v, v', c, i);
    }
  }

  /** Scaling every weight by a non-zero factor keeps some criterion with a
      non-zero weight that tells two cars apart. */
  lemma SeparableScale(m: Matrix, w: seq<real>, c: real)
    requires IsTable(m) && |w| >= Criteria && Separable(m, w) && c != 0.0
    ensures Separable(m, Scale(w, c))
  {
    var j, i, k :| 0 <= j < Criteria && 0 <= i < |m| && 0 <= k < |m| &&
      w[j] != 0.0 && m[i][j] != m[k][j];
    assert Scale(w, c)[j] != 0.0;
  }

  /** Multiplying every weight by the same positive factor leaves every
      closeness score unchanged: only the ratios between the weights matter. */
  lemma ScoresScaleInvariant(sqrt: real -> real, m: Matrix, w: seq<real>, c: real)
    requires Admissible(sqrt, m, w) && 0.0 < c
    ensures Admissible(sqrt, m, Scale(w, c))
    ensures Scores(sqrt, m, Scale(w, c)) == Scores(sqrt, m, w)
  {
    SeparableScale(m, w, c);
    WeightedScale(sqrt, m, w, c);
    var v, v' := Weighted(sqrt, m, w), Weighted(sqrt, m, Scale(w, c));
    ScaledDistances(sqrt, v, v', c);
    DenominatorsPositive(sqrt, m, w);
    ClosenessesScale(sqrt, v, v', c);
  }

  // ---------------------------------------------------------------------------
  // Dominant and dominated cars

  /** Car `i` is no worse than every car on every criterion. */
  predicate Dominant(m: Matrix, i: nat)
    requires IsTable(m) && i < |m|
  {
    forall k, j | 0 <= k < |m| && 0 <= j < Criteria :: NoWorse(j, m[i][j], m[k][j])
  }

  /** Car `i` is no better than every car on every criterion. */
  predicate Dominated(m: Matrix, i: nat)
    requires IsTable(m) && i < |m|
  {
    forall k, j | 0 <= k < |m| && 0 <= j < Criteria :: NoWorse(j, m[k][j], m[i][j])
  }

  predicate NonNegative(w: seq<real>) {
    forall j | 0 <= j < |w| :: 0.0 <= w[j]
  }

  /** Normalising and weighting with non-negative weights keep the order of
      two entries of a column. */
  lemma WeightedKeepsOrder(sqrt: real -> real, m: Matrix, w: seq<real>, j: nat, i: nat, k: nat)
    requires IsSqrt(sqrt) && IsTable(m) && |w| >= Criteria && NonNegative(w)
    requires j < Criteria && i < |m| && k < |m| && NoWorse(j, m[i][j], m[k][j])
    ensures NoWorse(j, Weighted(sqrt, m, w)[i][j], Weighted(sqrt, m, w)[k][j])
  {
    var n := ColumnNorm(sqrt, m, j);
    if n == 0.0 {
      return;
    }
    assert m[i][j] / n == m[i][j] * (1.0 / n) && m[k][j] / n == m[k][j] * (1.0 / n);
    NoWorseScaled(j, m[i][j], m[k][j], 1.0 / n);
    NoWorseScaled(j, m[i][j] / n, m[k][j] / n, w[j]);
  }

  /** With non-negative weights, a car no worse than every other car on every
      criterion is the ideal-best vector after weighting and scores 1. */
  lemma DominantScoresOne(sqrt: real -> real, m: Matrix, w: seq<real>, i: nat)
    requires Admissible(sqrt, m, w) && NonNegative(w) && i < |m| && Dominant(m, i)
    ensures Scores(sqrt, m, w)[i] == 1.0
  {
    var v := Weighted(sqrt, m, w);
    forall j | 0 <= j < Criteria ensures v[i][j] == IdealBest(v)[j] {
      forall k | 0 <= k < |m| ensures NoWorse(j, Column(v, j)[i], Column(v, j)[k]) {
        WeightedKeepsOrder(sqrt, m, w, j, i, k);
      }
      BestOfUnique(j, Column(v, j), i);
    }
    ScoreOneIffIdealBest(sqrt, m, w, i);
  }

  /** With non-negative weights, a car no better than every other car on every
      criterion is the ideal-worst vector after weighting and scores 0. */
  lemma DominatedScoresZero(sqrt: real -> real, m: Matrix, w: seq<real>, i: nat)
    requires Admissible(sqrt, m, w) && NonNegative(w) && i < |m| && Dominated(m, i)
    ensures Scores(sqrt, m, w)[i] == 0.0
  {
    var v := Weighted(sqrt, m, w);
    forall j | 0 <= j < Criteria ensures v[i][j] == IdealWorst(v)[j] {
      forall k | 0 <= k < |m| ensures NoWorse(j, Column(v, j)[k], Column(v, j)[i]) {
        WeightedKeepsOrder(sqrt, m, w, j, k, i);
      }
      WorstOfUnique(j, Column(v, j), i);
    }
    ScoreZeroIffIdealWorst(sqrt, m, w, i);
  }

  /** Two cars with price 0, mpg 20 and 40 and hp 200: the all-zero price
      column no longer excludes the table, and the cars score 0 and 1. */
  lemma ZeroPriceColumnRanked(sqrt: real -> real)
    requires IsSqrt(sqrt)
    ensures Admissible(sqrt, [[0.0, 20.0, 200.0], [0.0, 40.0, 200.0]], [1.0, 1.0, 1.0])
    ensures Scores(sqrt, [[0.0, 20.0, 200.0], [0.0, 40.0, 200.0]], [1.0, 1.0, 1.0]) == [0.0, 1.0]
  {
    var m: Matrix := [[0.0, 20.0, 200.0], [0.0, 40.0, 200.0]];
    var w := [1.0, 1.0, 1.0];
    assert Separable(m, w) by {
      assert w[1] != 0.0 && m[0][1] != m[1][1];
    }
    assert Dominated(m, 0);
    assert Dominant(m, 1);
    DominatedScoresZero(sqrt, m, w, 0);
    DominantScoresOne(sqrt, m, w, 1);
  }
}
