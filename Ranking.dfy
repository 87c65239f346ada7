/**
 The rows of the cars table and their ordering by closeness score.
 `SortByScore` stands for the final `sort_values(by="score", ascending=False)`:
 it promises a permutation of its input that is ordered by score, highest
 first, and nothing about the relative order of rows with equal scores.
 */
module Ranking {

  /** A row of the cars table: make, model and the three criterion values. */
  datatype Car = Car(make: string, model: string, price: real, mpg: real, hp: real)

  /** A row of the ranked table: a car with the score column appended. */
  datatype ScoredCar = ScoredCar(car: Car, score: real)

  /** Appends a score column to a list of cars. */
  function Zip(cars: seq<Car>, scores: seq<real>): (rows: seq<ScoredCar>)
    requires |cars| == |scores|
    ensures |rows| == |cars|
  {
    seq(|cars|, i requires 0 <= i < |cars| => ScoredCar(cars[i], scores[i]))
  }

  function CarsOf(rows: seq<ScoredCar>): (cars: seq<Car>)
    ensures |cars| == |rows|
  {
    seq(|rows|, i requires 0 <= i < |rows| => rows[i].car)
  }

  function ScoresOf(rows: seq<ScoredCar>): (scores: seq<real>)
    ensures |scores| == |rows|
  {
    seq(|rows|, i requires 0 <= i < |rows| => rows[i].score)
  }

  /** Splitting rows into their car and score columns and joining them
      again gives the same rows. */
  lemma UnzipZip(rows: seq<ScoredCar>)
    ensures Zip(CarsOf(rows), ScoresOf(rows)) == rows
  {
  }

  /** Each row scores at least as much as the next one. */
  predicate SortedByScore(rows: seq<ScoredCar>) {
    forall i | 0 <= i < |rows| - 1 :: rows[i + 1].score <= rows[i].score
  }

  /** In a table sorted by score, every row scores at least as much as every
      later row. */
  lemma {:induction false} SortedByScoreAllPairs(rows: seq<ScoredCar>, i: nat, j: nat)
    requires SortedByScore(rows) && i <= j < |rows|
    ensures rows[j].score <= rows[i].score
    decreases j - i
  {
    if i < j {
      SortedByScoreAllPairs(rows, i + 1, j);
    }
  }

  /** Inserts `x` into a table sorted by score, keeping it sorted. */
  function Insert(x: ScoredCar, rows: seq<ScoredCar>): (r: seq<ScoredCar>)
    requires SortedByScore(rows)
    ensures |r| == |rows| + 1
    ensures r[0] == x || (rows != [] && r[0] == rows[0])
    ensures SortedByScore(r)
    ensures multiset(r) == multiset(rows) + multiset{x}
  {
    if rows == [] || rows[0].score <= x.score then
      [x] + rows
    else
      var t := Insert(x, rows[1..]);
      assert rows == [rows[0]] + rows[1..];
      [rows[0]] + t
  }

  /** The rows reordered by score, highest first. */
  function SortByScore(rows: seq<ScoredCar>): (r: seq<ScoredCar>)
    ensures SortedByScore(r)
    ensures multiset(r) == multiset(rows)
  {
    if rows == [] then []
    else
      assert rows == [rows[0]] + rows[1..];
      Insert(rows[0], SortByScore(rows[1..]))
  }
}
