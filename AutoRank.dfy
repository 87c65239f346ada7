/**
 The ranking step of AutoRank, `calculate_topsis`, as it runs: it copies the
 criterion columns of the caller's cars table into a separate table, normalises
 and weights that copy in place column by column, derives the ideal vectors
 and each car's closeness score, writes the scores into the caller's table
 and returns a new table of the same rows ordered by score.
 Each step is proved equal to the matching function of Topsis.
 */
module AutoRank {
  import opened SquareRoot
  import opened Topsis
  import opened Ranking

  datatype Option<T> = None | Some(value: T)

  /** The criterion columns of a list of cars, `df[["price", "mpg", "hp"]]`. */
  function CriteriaMatrix(cars: seq<Car>): (m: Matrix)
    ensures IsTable(m) && |m| == |cars|
  {
    seq(|cars|, i requires 0 <= i < |cars| => [cars[i].price, cars[i].mpg, cars[i].hp])
  }

  /** The caller's table of cars, with its score column once one is assigned. */
  class CarFrame {
    var cars: seq<Car>
    var score: Option<seq<real>>

    ghost predicate Valid()
      reads this
    {
      score.Some? ==> |score.value| == |cars|
    }

    constructor (cars: seq<Car>, score: Option<seq<real>>)
      requires score.Some? ==> |score.value| == |cars|
      ensures Valid() && this.cars == cars && this.score == score
    {
      this.cars := cars;
      this.score := score;
    }

    /** The rows of a scored table, each car with its score. */
    function Rows(): (rows: seq<ScoredCar>)
      reads this
      requires Valid() && score.Some?
      ensures |rows| == |cars|
    {
      Zip(cars, score.value)
    }
  }

  /** The contents of a two-dimensional array, row by row. */
  function Contents(a: array2<real>): Matrix
    reads a
  {
    seq(a.Length0, i requires 0 <= i < a.Length0 reads a =>
      seq(a.Length1, j requires 0 <= j < a.Length1 reads a => a[i, j]))
  }

  lemma MatrixEquality(a: Matrix, b: Matrix)
    requires IsTable(a) && IsTable(b) && |a| == |b|
    requires forall i, j | 0 <= i < |a| && 0 <= j < Criteria :: a[i][j] == b[i][j]
    ensures a == b
  {
    forall i | 0 <= i < |a| ensures a[i] == b[i] {
      assert forall j | 0 <= j < Criteria :: a[i][j] == b[i][j];
    }
  }

  /** `norm_df = df[["price", "mpg", "hp"]].copy()`: a fresh copy of the
      criterion columns. */
  method CopyCriteria(df: CarFrame) returns (norm: array2<real>)
    ensures fresh(norm)
    ensures norm.Length0 == |df.cars| && norm.Length1 == Criteria
    ensures Contents(norm) == CriteriaMatrix(df.cars)
  {
    var m := CriteriaMatrix(df.cars);
    norm := new real[|m|, Criteria]((i, j) requires 0 <= i < |m| && 0 <= j < Criteria => m[i][j]);
    MatrixEquality(Contents(norm), m);
  }

  /** The normalisation loop: for each criterion, the column of `norm` becomes
      the raw column of `df` divided by the square root of its sum of squares
      (an all-zero column, which the source fills with NaN, stays zero). */
  method NormalizeColumns(df: CarFrame, norm: array2<real>, sqrt: real -> real)
    requires IsSqrt(sqrt)
    requires norm.Length0 == |df.cars| && norm.Length1 == Criteria
    modifies norm
    ensures Contents(norm) == Normalize(sqrt, CriteriaMatrix(df.cars))
  {
    var m := CriteriaMatrix(df.cars);
    ghost var target := Normalize(sqrt, m);
    for j := 0 to Criteria
      invariant forall r, c | 0 <= r < |m| && 0 <= c < j :: norm[r, c] == target[r][c]
    {
      ghost var column := Column(m, j);
      var total := 0.0;
      for i := 0 to |m|
        invariant total == SumSquares(column[..i])
      {
        assert column[..i + 1][..i] == column[..i];
        total := total + Square(m[i][j]);
      }
      assert column[..|m|] == column;
      var n := sqrt(total);
      assert n == ColumnNorm(sqrt, m, j);
      for i := 0 to |m|
        invariant forall r, c | 0 <= r < |m| && 0 <= c < j :: norm[r, c] == target[r][c]
        invariant forall r | 0 <= r < i :: norm[r, j] == target[r][j]
      {
        norm[i, j] := DivideByNorm(m[i][j], n);
      }
    }
    MatrixEquality(Contents(norm), target);
  }

  /** `norm_df[col] *= k`: scales column `j` in place and leaves the other
      columns alone. */
  method ScaleColumn(norm: array2<real>, j: nat, k: real)
    requires j < norm.Length1
    modifies norm
    ensures forall r, c | 0 <= r < norm.Length0 && 0 <= c < norm.Length1 ::
      norm[r, c] == if c == j then old(norm[r, c]) * k else old(norm[r, c])
  {
    for i := 0 to norm.Length0
      invariant forall r, c | 0 <= r < norm.Length0 && 0 <= c < norm.Length1 ::
        norm[r, c] == if c == j && r < i then old(norm[r, c]) * k else old(norm[r, c])
    {
      norm[i, j] := norm[i, j] * k;
    }
  }

  /** The weighting step: price, mpg and hp scaled by the first, second and
      third weight. */
  method ApplyWeights(norm: array2<real>, weights: seq<real>)
    requires norm.Length1 == Criteria && |weights| >= Criteria
    modifies norm
    ensures Contents(norm) == Weight(old(Contents(norm)), weights)
  {
    ghost var before := Contents(norm);
    ScaleColumn(norm, Price, weights[0]);
    ScaleColumn(norm, Mpg, weights[1]);
    ScaleColumn(norm, Hp, weights[2]);
    MatrixEquality(Contents(norm), Weight(before, weights));
  }

  /** The ideal vectors and the closeness score of every row of the weighted
      table `v`, `s_minus / (s_plus + s_minus)`, computed row by row. */
  method ComputeScores(v: Matrix, sqrt: real -> real) returns (score: seq<real>)
    requires IsSqrt(sqrt) && IsTable(v) && |v| > 0 && DistancesPositive(sqrt, v)
    ensures score == Closenesses(sqrt, v)
  {
    var best, worst := IdealBest(v), IdealWorst(v);
    score := [];
    for i := 0 to |v|
      invariant |score| == i
      invariant forall k | 0 <= k < i :: score[k] == Closeness(SPlus(sqrt, v, k), SMinus(sqrt, v, k))
    {
      var sPlus := Distance(sqrt, v[i], best);
      var sMinus := Distance(sqrt, v[i], worst);
      assert 0.0 < SPlus(sqrt, v, i) + SMinus(sqrt, v, i);
      score := score + [sMinus / (sPlus + sMinus)];
    }
    assert forall i | 0 <= i < |v| :: score[i] == Closenesses(sqrt, v)[i];
  }

  /** `calculate_topsis(df, weights)`. An empty table is returned as it is.
      Otherwise the closeness scores are written into `df` in its own row
      order and the result is a new table holding the same rows with their
      scores, ordered by score, highest first. */
  method CalculateTopsis(df: CarFrame, weights: seq<real>, sqrt: real -> real) returns (ranked: CarFrame)
    requires df.Valid()
    requires |df.cars| > 0 ==> Admissible(sqrt, CriteriaMatrix(df.cars), weights)
    modifies df
    ensures df.Valid() && df.cars == old(df.cars)
    ensures |df.cars| == 0 ==> ranked == df && df.score == old(df.score)
    ensures |df.cars| > 0 ==> df.score == Some(Scores(sqrt, CriteriaMatrix(df.cars), weights))
    ensures |df.cars| > 0 ==>
      && fresh(ranked) && ranked.Valid() && ranked.score.Some? && df.score.Some?
      && multiset(ranked.Rows()) == multiset(df.Rows())
      && SortedByScore(ranked.Rows())
  {
    if |df.cars| == 0 {
      return df;
    }
    var m := CriteriaMatrix(df.cars);
    var norm := CopyCriteria(df);
    NormalizeColumns(df, norm, sqrt);
    ApplyWeights(norm, weights);

    var v := Contents(norm);
    assert v == Weighted(sqrt, m, weights);
    DenominatorsPositive(sqrt, m, weights);
    var score := ComputeScores(v, sqrt);
    assert score == Scores(sqrt, m, weights);
    df.score := Some(score);

    var sorted := SortByScore(df.Rows());
    UnzipZip(sorted);
    ranked := new CarFrame(CarsOf(sorted), Some(ScoresOf(sorted)));
  }
}
