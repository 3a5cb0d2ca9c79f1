/** `generateMatrix` of Final/Dijkastra.cpp: builds the N x N duration matrix,
    zero on the diagonal, with one random duration per unordered pair of cities
    written to both [i][j] and [j][i]. The random source (`rand() % 100 + 1`) is
    replaced by the sequence `durations` of the values it would have produced,
    consumed in the order of the program's double loop. */
module CityMatrix {
  import opened Graph

  /** Number of durations drawn by the rows before row `i`: row r draws one value
      for each j with r < j < n. */
  function RowOffset(n: nat, i: nat): (k: nat)
    requires i <= n
  {
    if i == 0 then 0 else RowOffset(n, i - 1) + (n - i)
  }

  /** Over the whole matrix, one duration is drawn per unordered pair of cities. */
  lemma {:induction false} RowOffsetClosedForm(n: nat, i: nat)
    requires i <= n
    ensures 2 * RowOffset(n, i) == i * (2 * n - i - 1)
  {
    if i > 0 {
      RowOffsetClosedForm(n, i - 1);
      calc {
        2 * RowOffset(n, i);
        2 * RowOffset(n, i - 1) + 2 * (n - i);
        (i - 1) * (2 * n - i) + 2 * (n - i);
        { assert (i - 1) * (2 * n - i) == i * (2 * n - i) - (2 * n - i); }
        i * (2 * n - i - 1);
      }
    }
  }

  lemma {:induction false} RowOffsetMonotone(n: nat, i: nat, j: nat)
    requires i <= j <= n
    ensures RowOffset(n, i) <= RowOffset(n, j)
    decreases j - i
  {
    if i < j {
      RowOffsetMonotone(n, i, j - 1);
    }
  }

  /** Position in the stream of random durations of the value drawn for the pair
      (i, j), i < j. */
  function DrawIndex(n: nat, i: nat, j: nat): (k: nat)
    requires i < j < n
    ensures RowOffset(n, i) <= k < RowOffset(n, i + 1)
    ensures k < RowOffset(n, n)
  {
    RowOffsetMonotone(n, i + 1, n);
    RowOffset(n, i) + (j - i - 1)
  }

  /** Distinct pairs get distinct draws: every entry above the diagonal is its own
      call of the random source. */
  lemma DrawIndexInjective(n: nat, i1: nat, j1: nat, i2: nat, j2: nat)
    requires i1 < j1 < n && i2 < j2 < n
    requires DrawIndex(n, i1, j1) == DrawIndex(n, i2, j2)
    ensures i1 == i2 && j1 == j2
  {
    if i1 < i2 {
      RowOffsetMonotone(n, i1 + 1, i2);
    } else if i2 < i1 {
      RowOffsetMonotone(n, i2 + 1, i1);
    }
  }

  /** The value the program stores at [r][c] (r != c): the duration drawn for
      the pair, whichever of the two is the smaller index. */
  ghost function Drawn(n: nat, durations: seq<int>, r: nat, c: nat): int
    requires r < n && c < n && r != c && |durations| == RowOffset(n, n)
  {
    var lo, hi := if r < c then r else c, if r < c then c else r;
    durations[DrawIndex(n, lo, hi)]
  }

  /** Builds the matrix of `numCities` cities from the stream of durations, each
      of which lies in 1..100 as `rand() % 100 + 1` does. */
  method GenerateMatrix(numCities: nat, durations: seq<int>) returns (matrix: Matrix)
    requires |durations| == RowOffset(numCities, numCities)
    requires forall k :: 0 <= k < |durations| ==> 1 <= durations[k] <= 100
    ensures |matrix| == numCities && IsSquare(matrix)
    ensures forall i :: 0 <= i < numCities ==> matrix[i][i] == 0
    ensures forall i, j :: 0 <= i < j < numCities ==> matrix[i][j] == durations[DrawIndex(numCities, i, j)]
    ensures forall i, j :: 0 <= i < numCities && 0 <= j < numCities ==> matrix[i][j] == matrix[j][i]
    ensures forall i, j :: 0 <= i < numCities && 0 <= j < numCities && i != j ==> 1 <= matrix[i][j] <= 100
    ensures NonNegative(matrix)
  {
    var a := new int[numCities, numCities]((_, _) => 0);
    var next := 0;
    for i := 0 to numCities
      invariant next == RowOffset(numCities, i)
      invariant forall r, c :: 0 <= r < numCities && 0 <= c < numCities ==>
                  a[r, c] == if r != c && (r < i || c < i) then Drawn(numCities, durations, r, c) else 0
    {
      RowOffsetMonotone(numCities, i + 1, numCities);
      for j := i + 1 to numCities
        invariant next == RowOffset(numCities, i) + (j - i - 1)
        invariant forall r, c :: 0 <= r < numCities && 0 <= c < numCities ==>
                    a[r, c] == if r != c && (r < i || c < i || (r == i && c < j) || (c == i && r < j))
                               then Drawn(numCities, durations, r, c) else 0
      {
        var duration := durations[next];
        next := next + 1;
        a[i, j] := duration;
        a[j, i] := duration;
      }
    }
    matrix := seq(numCities, r requires 0 <= r < numCities reads a =>
                seq(numCities, c requires 0 <= c < numCities reads a => a[r, c]));
  }
}
