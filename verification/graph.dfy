/** The road network as the program holds it: an N x N matrix of travel
    durations in minutes, where entry [i][j] is the duration of the direct
    connection from city i to city j and a zero entry means that there is
    no direct connection. Paths, their weights and what it means for a
    vector of distances to be the shortest-path answer are defined here. */
module Graph {

  /** The "not reached" sentinel of the distance vector: INT_MAX of a 32-bit int. */
  const INT_MAX: int := 0x7FFF_FFFF

  type Matrix = seq<seq<int>>

  /** Every row has one entry per city. */
  predicate IsSquare(m: Matrix) {
    forall i :: 0 <= i < |m| ==> |m[i]| == |m|
  }

  /** Durations are never negative (zero stands for "no connection"). */
  predicate NonNegative(m: Matrix) {
    forall i, j :: 0 <= i < |m| && 0 <= j < |m[i]| ==> m[i][j] >= 0
  }

  /** Every node of `p` is a city of `m`. */
  predicate InRange(m: Matrix, p: seq<nat>) {
    forall k :: 0 <= k < |p| ==> p[k] < |m|
  }

  /** `p` walks from `s` to `v`, and every step uses a non-zero entry of `m`. */
  predicate IsPath(m: Matrix, p: seq<nat>, s: nat, v: nat)
    requires IsSquare(m)
  {
    && |p| >= 1
    && p[0] == s
    && p[|p| - 1] == v
    && InRange(m, p)
    && forall k :: 0 <= k < |p| - 1 ==> m[p[k]][p[k + 1]] != 0
  }

  /** Total duration of the steps of `p`. */
  function Weight(m: Matrix, p: seq<nat>): (w: int)
    requires IsSquare(m) && InRange(m, p)
    ensures NonNegative(m) ==> w >= 0
    decreases |p|
  {
    if |p| <= 1 then 0 else Weight(m, p[..|p| - 1]) + m[p[|p| - 2]][p[|p| - 1]]
  }

  /** `r` is the answer the distance vector must give for source `s`: one entry
      per city, each between 0 and INT_MAX; an entry below INT_MAX is the weight of
      some path from `s`; and no path from `s` is lighter than the entry. So an
      entry below INT_MAX is the minimum path weight, and INT_MAX means that every
      path from `s` (if any) weighs INT_MAX or more. */
  ghost predicate ShortestFrom(m: Matrix, s: nat, r: seq<int>)
    requires IsSquare(m)
  {
    && |r| == |m|
    && (forall v :: 0 <= v < |r| ==> 0 <= r[v] <= INT_MAX)
    && (forall v :: 0 <= v < |r| && r[v] < INT_MAX ==>
          exists p :: IsPath(m, p, s, v) && Weight(m, p) == r[v])
    && (forall v, p :: 0 <= v < |r| && IsPath(m, p, s, v) ==> r[v] <= Weight(m, p))
  }

  ghost predicate Reachable(m: Matrix, s: nat, v: nat)
    requires IsSquare(m)
  {
    exists p :: IsPath(m, p, s, v)
  }

  /** Appending one connection to a path adds that connection's duration. */
  lemma ExtendPath(m: Matrix, p: seq<nat>, s: nat, u: nat, v: nat)
    requires IsSquare(m) && IsPath(m, p, s, u) && v < |m| && m[u][v] != 0
    ensures IsPath(m, p + [v], s, v)
    ensures Weight(m, p + [v]) == Weight(m, p) + m[u][v]
  {
  }

  /** The source is at distance 0 from itself. */
  lemma StartIsZero(m: Matrix, s: nat, r: seq<int>)
    requires IsSquare(m) && NonNegative(m) && s < |m|
    requires ShortestFrom(m, s, r)
    ensures r[s] == 0
  {
    assert IsPath(m, [s], s, s);
  }

  /** A city no path reaches keeps the sentinel, which the program reports as
      "No path found". */
  lemma UnreachableIsMax(m: Matrix, s: nat, r: seq<int>, v: nat)
    requires IsSquare(m) && v < |m|
    requires ShortestFrom(m, s, r) && !Reachable(m, s, v)
    ensures r[v] == INT_MAX
  {
  }

  /** No connection can improve the answer any more: for every edge u -> v,
      r[v] <= r[u] + m[u][v]. */
  lemma EdgeRelaxed(m: Matrix, s: nat, r: seq<int>, u: nat, v: nat)
    requires IsSquare(m) && NonNegative(m) && u < |m| && v < |m|
    requires ShortestFrom(m, s, r)
    requires m[u][v] != 0
    ensures r[v] <= r[u] + m[u][v]
  {
    if r[u] < INT_MAX {
      var p :| IsPath(m, p, s, u) && Weight(m, p) == r[u];
      ExtendPath(m, p, s, u, v);
    }
  }

  /** The answer is unique: two distance vectors that both meet ShortestFrom for
      the same matrix and source are equal. Hence the result cannot depend on
      anything else, such as the destination city. */
  lemma ShortestUnique(m: Matrix, s: nat, r1: seq<int>, r2: seq<int>)
    requires IsSquare(m)
    requires ShortestFrom(m, s, r1) && ShortestFrom(m, s, r2)
    ensures r1 == r2
  {
  }

  /** In a network where every pair of distinct cities is directly connected
      with a duration in 1..100, every city is reached within 100 minutes, so
      the sentinel never survives. */
  lemma CompleteNetworkReached(m: Matrix, s: nat, r: seq<int>)
    requires IsSquare(m) && s < |m|
    requires forall i :: 0 <= i < |m| ==> m[i][i] == 0
    requires forall i, j :: 0 <= i < |m| && 0 <= j < |m| && i != j ==> 1 <= m[i][j] <= 100
    requires ShortestFrom(m, s, r)
    ensures forall v :: 0 <= v < |m| ==> r[v] <= 100
  {
    forall v | 0 <= v < |m| ensures r[v] <= 100 {
      if v == s {
        assert IsPath(m, [s], s, s);
      } else {
        assert IsPath(m, [s, v], s, v);
        assert [s, v][..1] == [s];
      }
    }
  }
}
