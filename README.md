# AutoRank ranking, modelled in Dafny

AutoRank ranks a table of cars with the TOPSIS method (Technique for Order of
Preference by Similarity to Ideal Solution, Hwang and Yoon). The function
`calculate_topsis(df, weights)` takes a pandas table of cars and a list of three
weights. The criteria are `price`, `mpg` and `hp`. Price is a cost, so lower is
better; mpg and hp are benefits, so higher is better.

If the table is empty, the function returns it unchanged. Otherwise it:

- copies the three criterion columns;
- divides each column by its Euclidean norm;
- multiplies each column by its weight;
- builds the ideal-best and ideal-worst vectors;
- measures each car's Euclidean distance to both vectors (`s_plus` and `s_minus`);
- writes the closeness score `s_minus / (s_plus + s_minus)` into the caller's table;
- returns the rows sorted by score, highest first.

The project has five modules:

- `SquareRoot` describes the real square root. Dafny's `real` has no square root,
  so it is passed in as a parameter `sqrt` that satisfies `IsSqrt`. `SqrtUnique`
  shows that `IsSqrt` fixes `sqrt` completely on the non-negative reals.
- `Topsis` holds the arithmetic as pure functions over a `seq<seq<real>>` table
  with one row per car and three columns: norms, normalisation, weighting, ideal
  vectors, distances and scores. It also holds the lemmas about each step.
- `Ranking` holds the car rows, the score column and the sort by score.
- `AutoRank` holds the method `CalculateTopsis`, the model of `calculate_topsis`
  as it runs. The caller's table is the class `CarFrame`, whose score column is
  assigned in place. The copied criterion table is a two-dimensional array. It is
  normalised column by column in a loop and then weighted column by column in
  place. Each step is proved equal to the matching `Topsis` function.
- `TopsisProperties` holds properties of the scores as a whole:
  - multiplying every weight by the same positive factor changes no score;
  - with non-negative weights, a car that is no worse than every other car on
    every criterion scores 1;
  - with non-negative weights, a car that is no better than every other car on
    every criterion scores 0.

The source performs no input checks. Two inputs need care:

- An all-zero column has norm zero. `df[col] / 0.0` then fills that column of
  `norm_df` with NaN, and its ideal values are NaN too. `sum(axis=1)` skips NaN,
  so the column adds nothing to `s_plus` or `s_minus`, and the cars are ranked
  on the other criteria. The model writes 0.0 into such a column
  (`DivideByNorm`). `ZeroColumnSkipped` proves that both distances of every row
  are then exactly the NaN-skipping sums the source computes. So these tables
  are modelled, not excluded.
- If no criterion with a non-zero weight tells two cars apart, every row has
  `s_plus == s_minus == 0` and the score is `0 / 0`. This includes a single car
  and all-equal cars. The model requires `Separable` for a non-empty table and
  proves that this is exactly the condition needed:
  - `DenominatorsPositive`: with `Separable`, every row has a positive
    denominator.
  - `DegenerateWithoutSeparation`: without `Separable`, every row's two
    distances are zero.

## Model

Some definitions carry no contract of their own, and their meaning is proved
where they are used:

- `Topsis.DirectionOf` makes price the only cost criterion. Through `NoWorse`,
  the contracts of `BestOf`, `WorstOf`, `IdealBest` and `IdealWorst` state what
  that means for each column.
- `Topsis.DivideByNorm` divides a raw value by its column's norm, giving 0.0
  for a zero norm. `NormalizedColumn`, `NormalizedZeroColumn` and
  `ZeroColumnSkipped` state what this means for each kind of column.
- `AutoRank.Contents` reads a two-dimensional array as a table. The contracts of
  `CopyCriteria`, `NormalizeColumns` and `ApplyWeights` state what the array
  holds after each step.
- `Ranking.SortedByScore` says each row scores at least as much as the next one.
  `SortedByScoreAllPairs` extends it to every pair of rows, and `SortByScore`
  establishes it.

| member | source | states |
|---|---|---|
| `SquareRoot.SqrtSquared` | main.py:61 | the square root of a non-negative real is non-negative and squares back to it |
| `SquareRoot.SqrtUnique` | main.py:61 | any two functions meeting `IsSqrt` agree on every non-negative real, so the parameter is the square root `np.sqrt` computes |
| `SquareRoot.SqrtZeroIff` | main.py:61 | the square root is zero exactly at zero |
| `SquareRoot.SqrtMonotonic` | main.py:75-76 | a larger sum of squares never gives a smaller distance |
| `SquareRoot.SqrtScale` | main.py:75-76 | a non-negative factor squared comes out of the square root unchanged |
| `Topsis.SumSquares` | main.py:61 | the sum of squares of a column is non-negative |
| `Topsis.SumSquaresZeroIff` | main.py:61 | the sum of squares is zero exactly when every entry is zero, which is when the division has a zero divisor |
| `Topsis.SquareBounded` | main.py:61 | each squared entry is at most the sum of squares of its column |
| `Topsis.Column` | main.py:61 | `df[col]`: the column of one criterion has one entry per car |
| `Topsis.SumSquaresScale` | main.py:61 | scaling a column by `k` scales its sum of squares by `k * k` |
| `Topsis.Norm` | main.py:61 | `np.sqrt((df[col]**2).sum())` is the non-negative real whose square is the column's sum of squares |
| `Topsis.NormPositiveIff` | main.py:61 | a column norm is non-negative, and positive exactly when some entry is non-zero |
| `Topsis.ColumnNorm` | main.py:61 | the norm of a criterion column is non-negative, and positive exactly when the column is not all zeros |
| `Topsis.Normalize` | main.py:60-61 | normalisation keeps the table's shape: one row per car and three criteria |
| `Topsis.NormalizedColumn` | main.py:60-61 | each normalised column that is not all zeros is the raw column times the inverse of that column's Euclidean norm, which is positive |
| `Topsis.NormalizedZeroColumn` | main.py:60-61 | an all-zero column normalises to all zeros, where the source has NaN |
| `Topsis.NormalizedColumnIsUnit` | main.py:54-61 | every normalised column that is not all zeros has sum of squares 1 |
| `Topsis.NormalizedEntryBounded` | main.py:54-61 | every normalised entry lies in [-1, 1] |
| `Topsis.Weight` | main.py:64-66 | weighting keeps the table's shape |
| `Topsis.WeightColumn` | main.py:64-66 | the weighted column `j` is column `j` times `weights[j]`, and no other weight affects it |
| `Topsis.Weighted` | main.py:60-66 | normalising and then weighting gives a table with one row per car and three criteria |
| `Topsis.MinOf` | main.py:71-72 | `.min()` is an entry of the column and no larger than any entry |
| `Topsis.MaxOf` | main.py:71-72 | `.max()` is an entry of the column and no smaller than any entry |
| `Topsis.BestOf` | main.py:69-71 | the best value of a column is one of its entries and no worse than any entry: the minimum for price, the maximum for mpg and hp |
| `Topsis.WorstOf` | main.py:69-72 | the worst value of a column is one of its entries and no better than any entry: the maximum for price, the minimum for mpg and hp |
| `Topsis.ColumnBounds` | main.py:69-72 | every weighted value lies between its column's best and worst values |
| `Topsis.IdealBest` | main.py:71 | `best_ideal` has three entries; each is taken from its column and is no worse than any value in that column |
| `Topsis.IdealWorst` | main.py:72 | `worst_ideal` has three entries; each is taken from its column and is no better than any value in that column |
| `Topsis.Diff` | main.py:75-76 | a row minus an ideal vector has one difference per criterion; `DiffScale` relates it to scaling |
| `Topsis.Distance` | main.py:75-76 | a Euclidean distance is non-negative |
| `Topsis.DistanceZeroIff` | main.py:74-76 | a distance is zero exactly when the row equals the ideal vector it is measured to |
| `Topsis.SumSquaresSkipping` | main.py:75-76 | `sum(axis=1)` with one NaN entry skipped is a non-negative sum of squares |
| `Topsis.SkippingZero` | main.py:75-76 | skipping an entry that is zero leaves the sum of squares unchanged |
| `Topsis.ZeroColumnSkipped` | main.py:61-76 | for an all-zero criterion column, each row's `s_plus` and `s_minus` equal the square roots of the sums that skip that criterion, as pandas skips the NaN column |
| `Topsis.SPlus` | main.py:75 | `s_plus` is non-negative |
| `Topsis.SMinus` | main.py:76 | `s_minus` is non-negative |
| `Topsis.Closeness` | main.py:78-80 | when `s_plus + s_minus > 0`, the score lies in [0, 1]; it is 1 exactly when `s_plus == 0` and 0 exactly when `s_minus == 0` |
| `Topsis.WeightedDistinct` | main.py:60-66 | a criterion with a non-zero weight keeps two different raw values different after normalising and weighting |
| `Topsis.DenominatorsPositive` | main.py:75-80 | with a separating criterion, every row has `s_plus + s_minus > 0`, so the division is defined |
| `Topsis.ConstantColumnsWithoutSeparation` | main.py:60-66 | without a separating criterion, every weighted column is constant |
| `Topsis.IdealsOfConstantColumns` | main.py:71-72 | when every column is constant, both ideal vectors equal the first row |
| `Topsis.DegenerateWithoutSeparation` | main.py:75-80 | without a separating criterion, every row has `s_plus == s_minus == 0` (for example one car, or identical cars) |
| `Topsis.Closenesses` | main.py:80 | when every denominator is positive, there is one score per row and each lies in [0, 1] |
| `Topsis.Scores` | main.py:80 | on admissible input, there is one score per car and each lies in [0, 1] |
| `Topsis.ScoreOneIffIdealBest` | main.py:71-80 | a car scores 1 exactly when its weighted row is the ideal-best vector |
| `Topsis.ScoreZeroIffIdealWorst` | main.py:72-80 | a car scores 0 exactly when its weighted row is the ideal-worst vector |
| `Ranking.Zip` | main.py:80 | attaching a score column keeps one row per car |
| `Ranking.UnzipZip` | main.py:82 | splitting rows into cars and scores and joining them again gives the same rows |
| `Ranking.CarsOf` | main.py:82 | the car column of a scored table has one car per row; with `ScoresOf` it is the inverse of `Zip` (`UnzipZip`) |
| `Ranking.ScoresOf` | main.py:82 | the score column of a scored table has one score per row; with `CarsOf` it is the inverse of `Zip` (`UnzipZip`) |
| `Ranking.SortedByScoreAllPairs` | main.py:82 | in a table sorted by score, every row scores at least as much as every later row |
| `Ranking.Insert` | main.py:82 | inserting a row into a table sorted by score keeps it sorted and adds exactly that row |
| `Ranking.SortByScore` | main.py:82 | `sort_values(by="score", ascending=False)` returns a permutation of the rows ordered by score, highest first, with no promise about ties |
| `AutoRank.CriteriaMatrix` | main.py:55 | `df[["price", "mpg", "hp"]]` has one row of three criteria per car |
| `AutoRank.CarFrame.constructor` | main.py:80 | a new table holds exactly the given cars and score column |
| `AutoRank.CarFrame.Rows` | main.py:80 | a scored table has one row per car |
| `AutoRank.CopyCriteria` | main.py:55 | `norm_df` is a fresh array that holds the criterion columns of `df` |
| `AutoRank.NormalizeColumns` | main.py:60-61 | after the loop over the columns, `norm_df` equals `Normalize` of the criterion table |
| `AutoRank.ScaleColumn` | main.py:64-66 | `norm_df[col] *= k` multiplies every entry of column `col` by `k` and leaves the other columns unchanged |
| `AutoRank.ApplyWeights` | main.py:64-66 | after the three in-place multiplications, `norm_df` equals `Weight` of its previous contents |
| `AutoRank.ComputeScores` | main.py:71-80 | the score list built row by row equals `Closenesses` of the weighted table |
| `AutoRank.CalculateTopsis` | main.py:47-82 | an empty table is returned as it is and is left unchanged. Otherwise the caller's table keeps its cars and gets the score column `Scores`. The result is a fresh table whose rows are a permutation of the caller's scored rows, sorted by score, highest first |
| `TopsisProperties.NoWorseScaled` | main.py:64-66 | multiplying by a non-negative weight keeps one value no worse than another |
| `TopsisProperties.BestOfUnique` | main.py:71 | an entry no worse than every entry of its column is the ideal-best value |
| `TopsisProperties.WorstOfUnique` | main.py:72 | an entry no better than every entry of its column is the ideal-worst value |
| `TopsisProperties.WeightedScale` | main.py:64-66 | multiplying every weight by `c` multiplies every weighted entry by `c` |
| `TopsisProperties.BestOfMonotone` | main.py:71 | a monotone map applied to a column maps its best value to the best value of the result |
| `TopsisProperties.WorstOfMonotone` | main.py:72 | a monotone map applied to a column maps its worst value to the worst value of the result |
| `TopsisProperties.IdealsMonotone` | main.py:71-72 | a monotone map applied to the whole table maps both ideal vectors in the same way |
| `TopsisProperties.DiffScale` | main.py:75-76 | scaling both vectors scales their difference by the same factor |
| `TopsisProperties.DiffSumSquaresScale` | main.py:75-76 | scaling both vectors by `c` scales the summed squared differences by `c * c` |
| `TopsisProperties.DistanceScale` | main.py:75-76 | scaling both vectors by `c >= 0` scales their Euclidean distance by `c` |
| `TopsisProperties.ClosenessScale` | main.py:80 | scaling `s_plus` and `s_minus` by the same `c > 0` leaves the score unchanged |
| `TopsisProperties.ScaledSPlus` | main.py:75 | when a row and the ideal-best vector are both scaled by `c >= 0`, `s_plus` is scaled by `c` |
| `TopsisProperties.ScaledSMinus` | main.py:76 | when a row and the ideal-worst vector are both scaled by `c >= 0`, `s_minus` is scaled by `c` |
| `TopsisProperties.ScaledDistances` | main.py:75-76 | multiplying a table by `c > 0` multiplies both distances of every row by `c` |
| `TopsisProperties.RowClosenessScale` | main.py:80 | a row whose distances are scaled by `c > 0` keeps its score |
| `TopsisProperties.ClosenessesScale` | main.py:80 | tables whose rows' distances are all in the ratio `c > 0` have the same scores |
| `TopsisProperties.SeparableScale` | main.py:64-66 | multiplying every weight by a non-zero factor keeps a separating criterion |
| `TopsisProperties.ScoresScaleInvariant` | main.py:64-80 | only the ratios between weights matter: multiplying every weight by `c > 0` keeps the input admissible and changes no score |
| `TopsisProperties.WeightedKeepsOrder` | main.py:60-66 | with non-negative weights, normalising and weighting keep the order of two entries of a column |
| `TopsisProperties.DominantScoresOne` | main.py:57-80 | with non-negative weights, a car no worse than every car on every criterion scores 1 |
| `TopsisProperties.DominatedScoresZero` | main.py:57-80 | with non-negative weights, a car no better than every car on every criterion scores 0 |
| `TopsisProperties.ZeroPriceColumnRanked` | main.py:54-82 | two cars with an all-zero price column, mpg 20 and 40 and equal hp are admissible and score 0 and 1, as the source ranks them on mpg |

## Left out

- `fetch_cars` (the NHTSA vPIC request and the random specification values), the
  FastAPI routes, the templates, the `UserPreferences` record and the uvicorn
  start-up are left out. They are network I/O, randomness and serving plumbing
  around the ranking.
- Floating point is left out. The model works over exact `real`s, so rounding,
  NaN and infinity are not modelled. The one place the source relies on NaN,
  an all-zero column, is handled as described above.
- The square root is a parameter `sqrt` constrained by `IsSqrt`, not a built-in
  function, because Dafny's `real` has none.
- `AutoRank.CalculateTopsis`: it requires `Separable` for a non-empty table.
  Without it, every row has `s_plus == s_minus == 0`, and the source computes
  the score `0 / 0`. Pandas makes that NaN without raising, and `sort_values`
  places NaN scores last. The model does not cover those tables.
  `DegenerateWithoutSeparation` proves that the condition cannot be dropped.
- `AutoRank.NormalizeColumns`: it writes 0.0 where the source writes NaN, in an
  all-zero column. `norm_df` is internal to the function, and
  `ZeroColumnSkipped` proves that the distances come out the same as the
  source's NaN-skipping sums. The NaN values themselves are not modelled.
- Weights are not validated, and there are no `DimensionMismatchError` or
  `InvalidWeightError` errors. The code performs no such checks: negative
  weights pass through. A short weight list fails with an index error on a
  non-empty table, which the model turns into a precondition of at least three
  weights. A longer list has its extra weights ignored.
- No fallback score is defined for `0 / 0`, because the code defines none.
- `Topsis.SumSquares`: the criterion columns are integer (int64) columns in the
  source, and `(df[col]**2).sum()` squares and sums in int64 before the square
  root. The model squares and sums exact reals, so it does not model the silent
  wrap-around once an entry reaches about 3.04e9 in absolute value or a
  column's sum of squares exceeds 2^63 - 1. The values the application feeds
  in (prices up to 60000, at most 10 cars) stay far below that bound.
- `AutoRank.NormalizeColumns`: its sum-of-squares loop adds exact reals, so it
  does not model the int64 wrap-around described for `Topsis.SumSquares`
  either.
- `Ranking.SortByScore`: it makes no promise about the relative order of equal
  scores. The code sorts with pandas' default unstable quicksort, so no
  tie-break is promised. The insertion sort that defines the function is one
  admissible order among several.
- The pandas column-wise (vectorised) evaluation of the ideal vectors and the
  distances is modelled by the functions `IdealBest`, `IdealWorst` and
  `Distance` over whole columns. Only the normalisation, the weighting and the
  score column are modelled as loops.
- `CalculateTopsis` returns a new `CarFrame` holding the sorted rows. The pandas
  index labels that `sort_values` carries along are not modelled.
