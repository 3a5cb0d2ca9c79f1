# Path Finder: shortest travel durations between cities

This project is a Dafny model of the computing core of the Path Finder program
(`Final/Dijkastra.cpp`). The program represents a small travel network as an
N x N matrix of durations in minutes. A zero entry means there is no direct
connection. It fills the matrix with a random duration in 1..100 for every pair
of cities (`generateMatrix`). It then runs Dijkstra's algorithm from a start
city (`dijkstra`) and prints the entry of the chosen end city. That entry is
either a number of minutes or, when it still holds the `INT_MAX` sentinel,
"No path found".

Files:

- `graph.dfy` (module `Graph`) defines the matrix, paths, path weights and
  `ShortestFrom`. `ShortestFrom` is the property a distance vector must have to
  be the correct answer. The module also holds the lemmas about that property.
- `shortest_path.dfy` (module `ShortestPath`) models `dijkstra` on arrays updated
  in place. `SelectMin` is the linear scan of a round. `Relax` is the relaxation
  loop. `Round` is one iteration of the outer loop. `Dijkstra` is the whole
  function, proved against `ShortestFrom`.
- `city_matrix.dfy` (module `CityMatrix`) models `generateMatrix`. A
  two-dimensional array is filled in place in the program's double loop.
- `planner.dfy` (module `Planner`) models the non-I/O part of `main`: generate
  the matrix, search from the start city, and report the end city's entry.

Modelling decisions:

- Distances are unbounded integers, and the sentinel is the constant
  `INT_MAX = 2^31 - 1`, exactly as in the program. Relaxation stores a sum only
  when it is smaller than the current entry, so a sum of `INT_MAX` or more is
  never stored. The correctness statement therefore reads: an entry below
  `INT_MAX` is the least weight of any path to that city, and an entry equal to
  `INT_MAX` means that no path reaches the city or that every path weighs at
  least `INT_MAX`.
- `dijkstra` receives the matrix by reference but never writes it, so the model
  takes it as a value (`seq<seq<int>>`). The function returns its distance
  vector by value, so `Dijkstra` returns `distance[..]`.
- The random source `generateDuration` is replaced by the input sequence
  `durations`. It holds the values `rand() % 100 + 1` would have returned, in the
  order the double loop asks for them. `DrawIndex(n, i, j)` is the position of
  the value drawn for the pair `(i, j)`.
- The correctness proof needs non-negative entries but not symmetry, so
  `Dijkstra` requires only `NonNegative`. Its result also holds for directed
  matrices.
- Ties in the selection scan go to the highest index, because the comparison is
  `distance[j] <= minDistance` (Final/Dijkastra.cpp:50).
- `dijkstra` keeps no predecessor links, so the model computes distances only
  and reconstructs no route.

## Model

| member | source | states |
|---|---|---|
| `ShortestPath.Dijkstra` | Final/Dijkastra.cpp:37-67 | For a square matrix with non-negative entries and a start city in range, the returned vector has one entry per city, each in 0..INT_MAX. Each entry below INT_MAX is the weight of a path from start that uses only non-zero entries. No path from start to a city weighs less than its entry. The start's entry is 0. `end` plays no part. |
| `ShortestPath.SelectMin` | Final/Dijkastra.cpp:45-54 | The scan always finds a city (so `minIndex` is always set). That city is unvisited, its distance is at most every unvisited city's distance, and every unvisited city with a higher index is strictly farther, so ties go to the highest index. |
| `ShortestPath.Relaxed` | Final/Dijkastra.cpp:60-62 | A relaxed distance never exceeds the old one. When it changes, the city is unvisited, the connection from `u` is non-zero, `u`'s distance is not the sentinel, and the new value is `u`'s distance plus the connection's duration. |
| `ShortestPath.Relax` | Final/Dijkastra.cpp:59-63 | Afterwards, every entry of the distance array is the relaxed value of its old entry through `u`. Nothing else changes. |
| `ShortestPath.Round` | Final/Dijkastra.cpp:44-64 | One outer round marks exactly one previously unvisited city visited. That city has the least tentative distance among unvisited cities, with ties going to the highest index. The distances become the relaxed values through it. The loop invariant `Inv` is preserved. |
| `ShortestPath.RoundKeepsInv` | Final/Dijkastra.cpp:44-64 | Selecting, marking and relaxing preserves the invariant: every entry lies in 0..INT_MAX, the start stays at 0, every reached city has a witness path of exactly its distance, visited cities are final, and every connection from a visited city to an unvisited one is relaxed. |
| `ShortestPath.MinUnvisitedIsFinal` | Final/Dijkastra.cpp:49-56 | The city a round selects already has its final distance: no path from start to it weighs less. |
| `ShortestPath.ReachesUnvisited` | Final/Dijkastra.cpp:59-63 | Every path from start that ends at an unvisited city passes through an unvisited city whose tentative distance is at most the path's weight. |
| `ShortestPath.LastRoundFinal` | Final/Dijkastra.cpp:44-66 | After N - 1 rounds exactly one city is left unvisited, and at that point the vector already meets `ShortestFrom`, with no further round needed. |
| `ShortestPath.MarkVisited` | Final/Dijkastra.cpp:56 | Marking an unvisited city visited lowers the unvisited count by exactly one. |
| `ShortestPath.SomeUnvisited` | Final/Dijkastra.cpp:44-46 | A positive unvisited count yields an unvisited city, so every round has a city to select. |
| `ShortestPath.OnlyUnvisited` | Final/Dijkastra.cpp:44 | When the count is one, the unvisited city is unique. |
| `ShortestPath.AllUnvisited` | Final/Dijkastra.cpp:40 | The initial all-false visited vector counts N unvisited cities. |
| `ShortestPath.CountsUnvisited` | Final/Dijkastra.cpp:40 | Any unvisited city makes the unvisited count positive. |
| `Graph.Weight` | Final/Dijkastra.cpp:60-61 | The weight of a path is the sum of the matrix entries along its steps. It is non-negative when the matrix is. |
| `Graph.ExtendPath` | Final/Dijkastra.cpp:61 | Extending a path to `u` by a non-zero connection `u -> v` gives a path to `v` whose weight is the old weight plus `m[u][v]`. |
| `Graph.StartIsZero` | Final/Dijkastra.cpp:42 | Any vector that meets `ShortestFrom` for a non-negative matrix has 0 at the start city. |
| `Graph.UnreachableIsMax` | Final/Dijkastra.cpp:105-106 | A city that no path reaches holds INT_MAX, which the program prints as "No path found". |
| `Graph.EdgeRelaxed` | Final/Dijkastra.cpp:60-61 | At the end no connection can improve the answer: `r[v] <= r[u] + m[u][v]` for every non-zero entry. |
| `Graph.ShortestUnique` | Final/Dijkastra.cpp:37-39 | Two vectors that both meet `ShortestFrom` for the same matrix and start are equal. So the result of `dijkstra` is determined by the matrix and the start alone (not by `end`), and two runs give the same vector. |
| `Graph.CompleteNetworkReached` | Final/Dijkastra.cpp:105-108 | In a network with a zero diagonal and every other entry in 1..100, every city ends within 100 minutes of the start, so the sentinel never survives. |
| `CityMatrix.GenerateMatrix` | Final/Dijkastra.cpp:21-34 | The result is an N x N matrix with a zero diagonal that is symmetric. The entry above the diagonal at `(i, j)` is the duration drawn for that pair. Every off-diagonal entry lies in 1..100, and all entries are non-negative. |
| `CityMatrix.DrawIndex` | Final/Dijkastra.cpp:25-27 | The draw for pair `(i, j)` falls inside row `i`'s block of draws and within the stream's length. |
| `CityMatrix.DrawIndexInjective` | Final/Dijkastra.cpp:27 | Distinct pairs use distinct draws: each entry above the diagonal is its own call of the random source. |
| `CityMatrix.RowOffsetClosedForm` | Final/Dijkastra.cpp:25-26 | Row `i` starts after `i * (2N - i - 1) / 2` draws, so the whole matrix consumes `N * (N - 1) / 2` durations. |
| `CityMatrix.RowOffsetMonotone` | Final/Dijkastra.cpp:25-26 | Later rows start later in the stream of draws. |
| `Planner.ShortestTrip` | Final/Dijkastra.cpp:79-108 | The matrix is the one generated from `durations`: zero on the diagonal, the draw for each pair `(i, j)` above it, and symmetric. For 1-based start and end cities in range, the report is always a number of minutes, never "No path found". That number is at most 100 and is the least total duration over all routes between the two cities. |

## Left out

- `main`'s console dialogue (Final/Dijkastra.cpp:69-111): prompts, city names, printing the matrix and the answer. Only its computation is modelled, in `Planner.ShortestTrip`.
- `srand(time(0))` and `rand()` (Final/Dijkastra.cpp:17, 70): process-wide randomness. They are replaced by the `durations` input, whose values are constrained to 1..100.
- `City` (Final/Dijkastra.cpp:10-13): a display name and an unused `connections` field, with no logic attached.
- `ShortestPath.Dijkstra`: 32-bit overflow of `distance[minIndex] + matrix[minIndex][j]` is not modelled, because the model adds unbounded integers. With generated matrices every distance is at most 100 (`Graph.CompleteNetworkReached`), so the sum never comes near `INT_MAX`.
- `ShortestPath.Dijkstra`: it requires a square matrix with non-negative entries and `0 <= start < N`. The program behaves undefinedly for a matrix with a row shorter than N, for `numCities == 0` or for an out-of-range start, and it gives no guarantee for negative entries. Rows longer than N are excluded too, although the program accepts them and ignores every column past N - 1 (it reads `matrix[minIndex][j]` only for `j < matrix.size()`); its only caller passes the square generated matrix.
- `Planner.ShortestTrip`: 1-based city numbers outside `1..numCities` are excluded by its precondition. The program indexes out of range for them.
