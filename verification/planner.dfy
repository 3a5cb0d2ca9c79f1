/** The computing part of `main` in Final/Dijkastra.cpp, without its console
    input and output: build the random duration matrix, run the shortest-path
    search from the chosen start city, and turn the entry of the chosen end
    city into the printed answer. Cities are numbered from 1 by the user, as in
    the program's prompts. */
module Planner {
  import opened Graph
  import CityMatrix
  import ShortestPath

  /** What the program prints for the trip. */
  datatype Answer = Minutes(minutes: nat) | NoPathFound

  /** Plans the trip from city `start` to city `end` (both 1-based) over the
      network generated from `durations`. Every pair of cities is connected in
      a generated network, so the answer is always a duration, and it is the
      least total duration over all routes. */
  method ShortestTrip(numCities: nat, durations: seq<int>, start: int, end: int)
    returns (matrix: Matrix, answer: Answer)
    requires |durations| == CityMatrix.RowOffset(numCities, numCities)
    requires forall k :: 0 <= k < |durations| ==> 1 <= durations[k] <= 100
    requires 1 <= start <= numCities && 1 <= end <= numCities
    ensures |matrix| == numCities && IsSquare(matrix)
    ensures forall i :: 0 <= i < numCities ==> matrix[i][i] == 0
    ensures forall i, j :: 0 <= i < j < numCities ==>
              matrix[i][j] == durations[CityMatrix.DrawIndex(numCities, i, j)]
    ensures forall i, j :: 0 <= i < numCities && 0 <= j < numCities ==> matrix[i][j] == matrix[j][i]
    ensures answer.Minutes? && answer.minutes <= 100
    ensures exists p :: IsPath(matrix, p, start - 1, end - 1) && Weight(matrix, p) == answer.minutes
    ensures forall p :: IsPath(matrix, p, start - 1, end - 1) ==> answer.minutes <= Weight(matrix, p)
  {
    matrix := CityMatrix.GenerateMatrix(numCities, durations);
    var shortestPath := ShortestPath.Dijkstra(matrix, start - 1, end - 1);
    CompleteNetworkReached(matrix, start - 1, shortestPath);
    if shortestPath[end - 1] == INT_MAX {
      answer := NoPathFound;
    } else {
      answer := Minutes(shortestPath[end - 1]);
    }
  }
}
