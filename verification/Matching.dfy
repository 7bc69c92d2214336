// Bipartite matching for shapeless recipes: the Hopcroft-Karp routine
// hopcroft_karp_can_match_all of src/craftdef.cpp, on arrays updated in place.

module Graphs {
  import opened Numbers

  const SHAPELESS_GROUPS_MAX := 30000

  // g[u] lists the right vertices adjacent to left vertex u; both sides have |g| vertices.
  ghost predicate IsGraph(g: seq<seq<u16>>) {
    && |g| <= SHAPELESS_GROUPS_MAX
    && forall u, k :: 0 <= u < |g| && 0 <= k < |g[u]| ==> g[u][k] < |g|
  }

  ghost predicate Injective(m: seq<nat>) {
    forall i, j :: 0 <= i < j < |m| ==> m[i] != m[j]
  }

  // m sends every left vertex to an adjacent right vertex, no two to the same one.
  ghost predicate IsPerfectMatching(g: seq<seq<u16>>, m: seq<nat>) {
    && |m| == |g|
    && Injective(m)
    && forall u :: 0 <= u < |g| ==> m[u] in g[u]
  }

  ghost predicate HasPerfectMatching(g: seq<seq<u16>>) {
    exists m :: IsPerfectMatching(g, m)
  }

  ghost predicate Adjacent(g: seq<seq<u16>>, S: set<nat>, v: nat) {
    exists u :: u in S && u < |g| && v in g[u]
  }

  ghost function Neighbours(g: seq<seq<u16>>, S: set<nat>): set<nat> {
    set v: nat | v < |g| && Adjacent(g, S, v)
  }

  // A set of left vertices with fewer neighbours than members.
  ghost predicate IsHallViolator(g: seq<seq<u16>>, S: set<nat>) {
    && (forall u :: u in S ==> u < |g|)
    && |Neighbours(g, S)| < |S|
  }

  lemma SubsetSize<T>(A: set<T>, B: set<T>)
    requires A <= B
    ensures |A| <= |B|
  {
    assert B == A + (B - A);
  }

  ghost function Below(n: nat): (S: set<nat>)
    ensures |S| == n
    ensures forall x: nat :: x in S <==> x < n
  {
    if n == 0 then {} else Below(n - 1) + {n - 1}
  }

  lemma RangeSize(S: set<nat>, n: nat)
    requires forall x :: x in S ==> x < n
    ensures |S| <= n
  {
    SubsetSize(S, Below(n));
  }

  // The image of a set under a map injective on it is as large as the set.
  lemma {:induction false} ImageSize(S: set<nat>, m: seq<nat>)
    requires forall x :: x in S ==> x < |m|
    requires forall x, y :: x in S && y in S && x != y ==> m[x] != m[y]
    ensures |set x | x in S :: m[x]| == |S|
  {
    if S != {} {
      var a :| a in S;
      ImageSize(S - {a}, m);
      assert (set x | x in S :: m[x]) == (set x | x in S - {a} :: m[x]) + {m[a]};
    }
  }

  // The easy half of Hall's theorem: a violator excludes every perfect matching.
  lemma {:induction false} ViolatorExcludesMatching(g: seq<seq<u16>>, S: set<nat>, m: seq<nat>)
    requires IsGraph(g) && IsHallViolator(g, S)
    ensures !IsPerfectMatching(g, m)
  {
    if IsPerfectMatching(g, m) {
      ImageSize(S, m);
      var image := set x | x in S :: m[x];
      forall v | v in image ensures v in Neighbours(g, S) {
        var u :| u in S && v == m[u];
        assert Adjacent(g, S, v);
      }
      SubsetSize(image, Neighbours(g, S));
    }
  }
}
