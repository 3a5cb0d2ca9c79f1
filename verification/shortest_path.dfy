/** `dijkstra` of Final/Dijkastra.cpp: the O(N^2) single-source shortest-path
    computation over the duration matrix. The distance and visited vectors are
    arrays updated in place; each of the N - 1 rounds selects the unvisited city
    with the smallest tentative distance (SelectMin), marks it visited and relaxes
    the connections out of it (Relax). */
module ShortestPath {
  import opened Graph

  /** Every visited city holds its final answer: no path from `s` to it is
      lighter than its entry. */
  ghost predicate VisitedFinal(m: Matrix, s: nat, d: seq<int>, visited: seq<bool>)
    requires IsSquare(m) && |d| == |m| && |visited| == |m|
  {
    forall v, p :: 0 <= v < |m| && visited[v] && IsPath(m, p, s, v) ==> d[v] <= Weight(m, p)
  }

  /** Every connection from a visited city to an unvisited one has been relaxed. */
  ghost predicate FrontierRelaxed(m: Matrix, d: seq<int>, visited: seq<bool>)
    requires IsSquare(m) && |d| == |m| && |visited| == |m|
  {
    forall y, x :: 0 <= y < |m| && 0 <= x < |m| && visited[y] && !visited[x] && m[y][x] != 0 ==>
      d[x] <= d[y] + m[y][x]
  }

  /** Every path from `s` that ends at an unvisited city passes through some
      unvisited city whose tentative distance is at most the path's weight. */
  lemma {:induction false} ReachesUnvisited(m: Matrix, s: nat, d: seq<int>, visited: seq<bool>, p: seq<nat>)
    returns (x: nat)
    requires IsSquare(m) && NonNegative(m) && |d| == |m| && |visited| == |m| && s < |m|
    requires d[s] == 0
    requires VisitedFinal(m, s, d, visited) && FrontierRelaxed(m, d, visited)
    requires |p| >= 1 && IsPath(m, p, s, p[|p| - 1]) && !visited[p[|p| - 1]]
    ensures x < |m| && !visited[x] && d[x] <= Weight(m, p)
    decreases |p|
  {
    if |p| == 1 {
      x := s;
    } else {
      var q, y, last := p[..|p| - 1], p[|p| - 2], p[|p| - 1];
      assert IsPath(m, q, s, y);
      if visited[y] {
        x := last;
      } else {
        x := ReachesUnvisited(m, s, d, visited, q);
      }
    }
  }

  /** The city a round selects (an unvisited one of least tentative distance)
      already holds its final answer. */
  lemma MinUnvisitedIsFinal(m: Matrix, s: nat, d: seq<int>, visited: seq<bool>, u: nat)
    requires IsSquare(m) && NonNegative(m) && |d| == |m| && |visited| == |m| && s < |m| && u < |m|
    requires d[s] == 0
    requires VisitedFinal(m, s, d, visited) && FrontierRelaxed(m, d, visited)
    requires !visited[u]
    requires forall x :: 0 <= x < |m| && !visited[x] ==> d[u] <= d[x]
    ensures forall p :: IsPath(m, p, s, u) ==> d[u] <= Weight(m, p)
  {
    forall p | IsPath(m, p, s, u) ensures d[u] <= Weight(m, p) {
      var x := ReachesUnvisited(m, s, d, visited, p);
    }
  }

  /** What holds between rounds: every entry lies in 0..INT_MAX, the start is at
      0, every reached city has a witness path of exactly its tentative distance,
      visited cities are final and the frontier is relaxed. */
  ghost predicate Inv(m: Matrix, s: nat, d: seq<int>, visited: seq<bool>, paths: seq<seq<nat>>)
    requires IsSquare(m)
  {
    && |d| == |m| && |visited| == |m| && |paths| == |m| && s < |m|
    && (forall v :: 0 <= v < |m| ==> 0 <= d[v] <= INT_MAX)
    && d[s] == 0
    && (forall v :: 0 <= v < |m| && d[v] < INT_MAX ==> IsPath(m, paths[v], s, v) && Weight(m, paths[v]) == d[v])
    && VisitedFinal(m, s, d, visited)
    && FrontierRelaxed(m, d, visited)
  }

  /** One round keeps Inv: mark the selected city `u` visited, relax its
      connections, and extend `u`'s witness path to every city whose distance
      dropped. */
  lemma RoundKeepsInv(m: Matrix, s: nat, d: seq<int>, visited: seq<bool>, paths: seq<seq<nat>>, u: nat,
                      d': seq<int>, paths': seq<seq<nat>>)
    requires IsSquare(m) && NonNegative(m) && Inv(m, s, d, visited, paths)
    requires u < |m| && !visited[u]
    requires forall x :: 0 <= x < |m| && !visited[x] ==> d[u] <= d[x]
    requires |d'| == |m| && |paths'| == |m|
    requires forall j :: 0 <= j < |m| ==> d'[j] == Relaxed(m, d, visited[u := true], u, j)
    requires forall j :: 0 <= j < |m| ==> paths'[j] == if d'[j] < d[j] then paths[u] + [j] else paths[j]
    ensures Inv(m, s, d', visited[u := true], paths')
  {
    var visited' := visited[u := true];
    MinUnvisitedIsFinal(m, s, d, visited, u);
    assert d'[u] == d[u];
    forall v | 0 <= v < |m| && d'[v] < d[v]
      ensures IsPath(m, paths'[v], s, v) && Weight(m, paths'[v]) == d'[v]
    {
      ExtendPath(m, paths[u], s, u, v);
    }
    assert d'[s] == 0 by {
      assert Relaxed(m, d, visited', u, s) <= d[s];
    }
    forall v, p | 0 <= v < |m| && visited'[v] && IsPath(m, p, s, v) ensures d'[v] <= Weight(m, p) {
      assert d'[v] == d[v];
    }
    forall y, x | 0 <= y < |m| && 0 <= x < |m| && visited'[y] && !visited'[x] && m[y][x] != 0
      ensures d'[x] <= d'[y] + m[y][x]
    {
      assert d'[y] == d[y];
      if y != u {
        assert d[x] <= d[y] + m[y][x];
      }
    }
  }

  /** The linear scan of a round: the unvisited city of least tentative distance,
      the last such city when several tie (the comparison is `<=`). */
  method SelectMin(distance: array<int>, visited: array<bool>) returns (minIndex: nat)
    requires distance.Length == visited.Length
    requires forall k :: 0 <= k < distance.Length ==> distance[k] <= INT_MAX
    requires exists k :: 0 <= k < visited.Length && !visited[k]
    ensures minIndex < visited.Length && !visited[minIndex]
    ensures forall k :: 0 <= k < visited.Length && !visited[k] ==> distance[minIndex] <= distance[k]
    ensures forall k :: minIndex < k < visited.Length && !visited[k] ==> distance[minIndex] < distance[k]
  {
    var minDistance := INT_MAX;
    var index := -1;
    for j := 0 to distance.Length
      invariant -1 <= index < j
      invariant index == -1 ==> minDistance == INT_MAX && forall k :: 0 <= k < j ==> visited[k]
      invariant index >= 0 ==> !visited[index] && minDistance == distance[index]
      invariant forall k :: 0 <= k < j && !visited[k] ==> minDistance <= distance[k]
      invariant forall k :: index < k < j && !visited[k] ==> minDistance < distance[k]
    {
      if !visited[j] && distance[j] <= minDistance {
        minDistance := distance[j];
        index := j;
      }
    }
    minIndex := index;
  }

  /** The tentative distance of `j` after relaxing the connection u -> j: it
      drops to d[u] + m[u][j] exactly when `j` is unvisited, the connection
      exists, `u` has been reached and the sum is smaller. */
  function Relaxed(m: Matrix, d: seq<int>, visited: seq<bool>, u: nat, j: nat): (r: int)
    requires IsSquare(m) && |d| == |m| && |visited| == |m| && u < |m| && j < |m|
    ensures r <= d[j]
    ensures r != d[j] ==> !visited[j] && m[u][j] != 0 && d[u] != INT_MAX && r == d[u] + m[u][j]
  {
    if !visited[j] && m[u][j] != 0 && d[u] != INT_MAX && d[u] + m[u][j] < d[j] then d[u] + m[u][j] else d[j]
  }

  /** The relaxation loop of a round: updates the tentative distances of the
      unvisited neighbours of `u`, which the caller has just marked visited. */
  method Relax(matrix: Matrix, distance: array<int>, visited: array<bool>, u: nat)
    requires IsSquare(matrix) && distance.Length == |matrix| && visited.Length == |matrix|
    requires u < |matrix| && visited[u]
    modifies distance
    ensures forall j :: 0 <= j < |matrix| ==> distance[j] == Relaxed(matrix, old(distance[..]), visited[..], u, j)
  {
    for j := 0 to distance.Length
      invariant distance[u] == old(distance[u])
      invariant forall k :: 0 <= k < j ==> distance[k] == Relaxed(matrix, old(distance[..]), visited[..], u, k)
      invariant forall k :: j <= k < distance.Length ==> distance[k] == old(distance[k])
    {
      if !visited[j] && matrix[u][j] != 0 && distance[u] != INT_MAX && distance[u] + matrix[u][j] < distance[j] {
        distance[j] := distance[u] + matrix[u][j];
      }
    }
  }

  /** One round of the outer loop: select the unvisited city `u` of least
      tentative distance (the last one on ties), mark it visited and relax its
      connections. Exactly one city changes from unvisited to visited. */
  method Round(matrix: Matrix, ghost start: nat, distance: array<int>, visited: array<bool>,
               ghost paths: seq<seq<nat>>)
    returns (u: nat, ghost paths': seq<seq<nat>>)
    requires IsSquare(matrix) && NonNegative(matrix)
    requires distance.Length == |matrix| && visited.Length == |matrix|
    requires Inv(matrix, start, distance[..], visited[..], paths)
    requires exists k :: 0 <= k < visited.Length && !visited[k]
    modifies distance, visited
    ensures u < |matrix| && !old(visited[u]) && visited[..] == old(visited[..])[u := true]
    ensures forall k :: 0 <= k < |matrix| && !old(visited[k]) ==> old(distance[u]) <= old(distance[k])
    ensures forall k :: u < k < |matrix| && !old(visited[k]) ==> old(distance[u]) < old(distance[k])
    ensures forall j :: 0 <= j < |matrix| ==> distance[j] == Relaxed(matrix, old(distance[..]), visited[..], u, j)
    ensures Inv(matrix, start, distance[..], visited[..], paths')
  {
    u := SelectMin(distance, visited);
    ghost var d, vis := distance[..], visited[..];
    visited[u] := true;
    Relax(matrix, distance, visited, u);
    assert visited[..] == vis[u := true];
    ghost var d' := distance[..];
    paths' := seq(|matrix|, j requires 0 <= j < |matrix| =>
                if d'[j] < d[j] then paths[u] + [j] else paths[j]);
    RoundKeepsInv(matrix, start, d, vis, paths, u, d', paths');
  }

  /** When one city is left unvisited, Inv already gives the full answer:
      the last city is trivially the least of the unvisited ones. */
  lemma LastRoundFinal(m: Matrix, s: nat, d: seq<int>, visited: seq<bool>, paths: seq<seq<nat>>, last: nat)
    requires IsSquare(m) && NonNegative(m) && Inv(m, s, d, visited, paths)
    requires last < |m| && forall v :: 0 <= v < |m| ==> (visited[v] <==> v != last)
    ensures ShortestFrom(m, s, d)
  {
    MinUnvisitedIsFinal(m, s, d, visited, last);
    forall v | 0 <= v < |m| && d[v] < INT_MAX ensures exists p :: IsPath(m, p, s, v) && Weight(m, p) == d[v] {
      assert IsPath(m, paths[v], s, v);
    }
  }

  /** Shortest travel durations from `start` to every city. `end` is accepted
      and never read, as in the program. */
  method Dijkstra(matrix: Matrix, start: nat, end: int) returns (distance: seq<int>)
    requires IsSquare(matrix) && NonNegative(matrix) && start < |matrix|
    ensures ShortestFrom(matrix, start, distance)
    ensures distance[start] == 0
  {
    var numCities := |matrix|;
    var dist := new int[numCities](_ => INT_MAX);
    var visited := new bool[numCities](_ => false);
    dist[start] := 0;
    // for each reached city, a path whose weight is its tentative distance
    ghost var paths: seq<seq<nat>> := seq(numCities, _ => [start]);
    assert IsPath(matrix, [start], start, start);
    AllUnvisited(visited[..]);

    var i := 0;
    while i < numCities - 1
      invariant 0 <= i <= numCities - 1
      invariant Unvisited(visited[..]) == numCities - i
      invariant Inv(matrix, start, dist[..], visited[..], paths)
    {
      ghost var vis := visited[..];
      ghost var some := SomeUnvisited(vis);
      var u;
      u, paths := Round(matrix, start, dist, visited, paths);
      MarkVisited(vis, u);
      i := i + 1;
    }

    // one city is left unvisited; it is the least of the unvisited ones
    ghost var last := SomeUnvisited(visited[..]);
    OnlyUnvisited(visited[..], last);
    LastRoundFinal(matrix, start, dist[..], visited[..], paths, last);
    distance := dist[..];
  }

  /** The number of unvisited cities. */
  ghost function Unvisited(visited: seq<bool>): (r: nat)
    ensures r <= |visited|
  {
    if visited == [] then 0
    else Unvisited(visited[..|visited| - 1]) + (if visited[|visited| - 1] then 0 else 1)
  }

  lemma {:induction false} AllUnvisited(visited: seq<bool>)
    requires forall k :: 0 <= k < |visited| ==> !visited[k]
    ensures Unvisited(visited) == |visited|
  {
    if visited != [] {
      AllUnvisited(visited[..|visited| - 1]);
    }
  }

  /** Marking an unvisited city visited lowers the count by exactly one. */
  lemma {:induction false} MarkVisited(visited: seq<bool>, u: nat)
    requires u < |visited| && !visited[u]
    ensures Unvisited(visited[u := true]) == Unvisited(visited) - 1
  {
    var n := |visited|;
    if u < n - 1 {
      assert visited[u := true][..n - 1] == visited[..n - 1][u := true];
      MarkVisited(visited[..n - 1], u);
    } else {
      assert visited[u := true][..n - 1] == visited[..n - 1];
    }
  }

  /** A positive count has an unvisited city behind it. */
  lemma {:induction false} SomeUnvisited(visited: seq<bool>) returns (k: nat)
    requires Unvisited(visited) > 0
    ensures k < |visited| && !visited[k]
  {
    var n := |visited|;
    if visited[n - 1] {
      k := SomeUnvisited(visited[..n - 1]);
    } else {
      k := n - 1;
    }
  }

  /** An unvisited city makes the count positive. */
  lemma {:induction false} CountsUnvisited(visited: seq<bool>, k: nat)
    requires k < |visited| && !visited[k]
    ensures Unvisited(visited) > 0
  {
    if k < |visited| - 1 {
      CountsUnvisited(visited[..|visited| - 1], k);
    }
  }

  /** With a count of one, the unvisited city is unique. */
  lemma OnlyUnvisited(visited: seq<bool>, k: nat)
    requires Unvisited(visited) == 1 && k < |visited| && !visited[k]
    ensures forall j :: 0 <= j < |visited| ==> (visited[j] <==> j != k)
  {
    MarkVisited(visited, k);
    forall j | 0 <= j < |visited| && j != k ensures visited[j] {
      if !visited[j] {
        CountsUnvisited(visited[k := true], j);
      }
    }
  }
}
