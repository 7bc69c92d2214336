// The matcher itself: breadth-first layering, the layered depth-first search that rewrites
// the matching while it unwinds, and the phase loop (src/craftdef.cpp:494-592).

module Pairings {
  import opened Numbers
  import opened Graphs

  const INF: u16 := 0xFFFF

  // pu and pv are mutually inverse partial maps along edges of g; index |g| is the dummy,
  // which also stands for "unmatched". Vertex hole, when it is not the dummy, is in transit:
  // no left vertex is paired with it, whatever pv still says about it.
  ghost predicate Consistent(g: seq<seq<u16>>, pu: seq<u16>, pv: seq<u16>, hole: nat) {
    var n := |g|;
    && Partners(g, pu) && Partners(g, pv)
    && pu[n] == n && pv[n] == n
    && (forall u, v {:trigger pu[u], pv[v]} :: 0 <= u < n && 0 <= v < n ==>
          (pu[u] == v <==> pv[v] == u && v != hole))
    && (forall u :: 0 <= u < n && pu[u] < n ==> pu[u] in g[u])
  }

  ghost predicate Partners(g: seq<seq<u16>>, p: seq<u16>) {
    && IsGraph(g)
    && |p| == |g| + 1
    && forall x :: 0 <= x <= |g| ==> p[x] <= |g|
  }

  ghost function Matched(g: seq<seq<u16>>, pu: seq<u16>): (s: set<nat>)
    requires |pu| == |g| + 1
  {
    set u: nat | u < |g| && pu[u] != |g|
  }

  // Some edge of p leads, through the right vertex's partner, to x.
  ghost predicate LeadsTo(g: seq<seq<u16>>, pv: seq<u16>, p: nat, x: nat) {
    && Partners(g, pv) && p < |g|
    && exists k :: 0 <= k < |g[p]| && pv[g[p][k]] == x
  }

  ghost predicate HasParent(g: seq<seq<u16>>, pv: seq<u16>, d: seq<u16>, x: nat) {
    && x < |d| == |g| + 1
    && exists p: nat :: p < |g| && d[p] != INF && d[p] + 1 == d[x] && LeadsTo(g, pv, p, x)
  }

  ghost predicate InRange(g: seq<seq<u16>>, d: seq<u16>) {
    && |d| == |g| + 1
    && forall x :: 0 <= x <= |g| ==> d[x] == INF || d[x] <= |g| + 1
  }

  // Finite distances: 0 at every unmatched left vertex, one more than a parent elsewhere.
  ghost predicate IsLayering(g: seq<seq<u16>>, pu: seq<u16>, pv: seq<u16>, d: seq<u16>) {
    && Partners(g, pu) && Partners(g, pv) && InRange(g, d)
    && (forall u :: 0 <= u < |g| && pu[u] == |g| ==> d[u] == 0)
    && (forall x: nat {:trigger HasParent(g, pv, d, x)} ::
          x <= |g| && d[x] != INF && (x < |g| ==> pu[x] != |g|) ==> HasParent(g, pv, d, x))
  }

  // The partners of u's first upto neighbours have all been visited.
  ghost predicate Scanned(g: seq<seq<u16>>, pv: seq<u16>, d: seq<u16>, u: nat, upto: nat) {
    && Partners(g, pv) && |d| == |g| + 1 && u < |g| && upto <= |g[u]|
    && forall k :: 0 <= k < upto ==> d[pv[g[u][k]]] != INF
  }

  // A state of the breadth-first loop. While the dummy is not reached, every visited vertex
  // has been scanned, except those still waiting and the one being scanned (open).
  ghost predicate BfsState(g: seq<seq<u16>>, pu: seq<u16>, pv: seq<u16>, d: seq<u16>,
                           queue: seq<u16>, visited: set<nat>, open: nat)
  {
    && IsLayering(g, pu, pv, d)
    && (forall x: nat :: x in visited <==> x <= |g| && d[x] != INF)
    && (forall x: u16 :: x in queue ==> x in visited)
    && |visited| <= |g| + 1
    && (forall x :: 0 <= x <= |g| && d[x] != INF ==> d[x] <= |visited|)
    && (d[|g|] == INF ==> forall u: nat {:trigger Scanned(g, pv, d, u, |g[u]|)} ::
          u < |g| && d[u] != INF && u != open && u !in queue ==> Scanned(g, pv, d, u, |g[u]|))
  }

  // Nothing more can be discovered, and the dummy has not been.
  ghost predicate Saturated(g: seq<seq<u16>>, pv: seq<u16>, d: seq<u16>) {
    && |d| == |g| + 1 && d[|g|] == INF
    && forall u: nat {:trigger Scanned(g, pv, d, u, |g[u]|)} ::
         u < |g| && d[u] != INF ==> Scanned(g, pv, d, u, |g[u]|)
  }

  // The first upto continuations of x to the next layer of base have been given up.
  ghost predicate Exhausted(g: seq<seq<u16>>, pv: seq<u16>, base: seq<u16>, d: seq<u16>, x: nat, upto: nat) {
    && Partners(g, pv) && |base| == |d| == |g| + 1 && x < |g| && upto <= |g[x]|
    && forall k :: 0 <= k < upto && base[pv[g[x][k]]] as int == base[x] as int + 1 ==>
         pv[g[x][k]] != |g| && d[pv[g[x][k]]] == INF
  }

  // d is the layering base with some vertices marked INF, each of them without any
  // layered path to the dummy; the dummy itself is never marked.
  ghost predicate Pruned(g: seq<seq<u16>>, pv: seq<u16>, base: seq<u16>, d: seq<u16>) {
    && Partners(g, pv) && InRange(g, base) && |d| == |g| + 1
    && forall x: nat :: x <= |g| ==>
         d[x] == base[x] || (x < |g| && d[x] == INF && Exhausted(g, pv, base, d, x, |g[x]|))
  }

  // ---- breadth-first steps

  // The loop that gives every unmatched vertex layer 0 and queues it, before vertex i.
  ghost predicate Seeded(g: seq<seq<u16>>, pu: seq<u16>, d: seq<u16>, queue: seq<u16>, visited: set<nat>, i: nat) {
    && Partners(g, pu) && |d| == |g| + 1 && i <= |g|
    && (forall x: nat :: x < i ==> d[x] == if pu[x] == |g| then 0 else INF)
    && (forall x: nat :: x in visited <==> x < i && pu[x] == |g|)
    && (forall x: u16 :: x in queue ==> x in visited)
    && (forall x: nat :: x in visited ==> x in queue)
    && (forall a, b :: 0 <= a < b < |queue| ==> queue[a] < queue[b])
  }

  lemma SeedNext(g: seq<seq<u16>>, pu: seq<u16>, d: seq<u16>, queue: seq<u16>, visited: set<nat>, i: u16)
    requires Seeded(g, pu, d, queue, visited, i) && i < |g|
    ensures pu[i] == |g| ==> Seeded(g, pu, d[i := 0], queue + [i], visited + {i as nat}, i + 1)
    ensures pu[i] != |g| ==> Seeded(g, pu, d[i := INF], queue, visited, i + 1)
  {
    assert forall a :: 0 <= a < |queue| ==> queue[a] in visited;
  }

  lemma SeedDone(g: seq<seq<u16>>, pu: seq<u16>, d: seq<u16>, queue: seq<u16>, visited: set<nat>)
    requires Seeded(g, pu, d, queue, visited, |g|)
    ensures Seeded(g, pu, d[|g| := INF], queue, visited, |g|)
  {
  }

  lemma BfsStart(g: seq<seq<u16>>, pu: seq<u16>, pv: seq<u16>, d: seq<u16>, queue: seq<u16>, visited: set<nat>)
    requires Seeded(g, pu, d, queue, visited, |g|) && Partners(g, pv)
    ensures BfsState(g, pu, pv, d[|g| := INF], queue, visited, |g|)
  {
    RangeSize(visited, |g|);
  }

  lemma BfsPop(g: seq<seq<u16>>, pu: seq<u16>, pv: seq<u16>, d: seq<u16>, queue: seq<u16>, visited: set<nat>)
    requires BfsState(g, pu, pv, d, queue, visited, |g|) && queue != []
    ensures queue[0] <= |g| && d[queue[0]] != INF
    ensures d[queue[0]] < d[|g|] ==> queue[0] < |g|
    ensures BfsState(g, pu, pv, d, queue[1..], visited, queue[0])
  {
    assert queue[0] in queue;
    assert queue == [queue[0]] + queue[1..];
  }

  // The popped vertex is settled: its neighbours are scanned or the dummy has been reached.
  lemma BfsClose(g: seq<seq<u16>>, pu: seq<u16>, pv: seq<u16>, d: seq<u16>, queue: seq<u16>, visited: set<nat>, u: nat)
    requires BfsState(g, pu, pv, d, queue, visited, u) && u <= |g| && d[u] != INF
    requires d[|g|] != INF || Scanned(g, pv, d, u, |g[u]|)
    ensures BfsState(g, pu, pv, d, queue, visited, |g|)
  {
  }

  lemma ExtendLayering(g: seq<seq<u16>>, pu: seq<u16>, pv: seq<u16>, d: seq<u16>, u: nat, v: nat, y: u16)
    requires IsLayering(g, pu, pv, d)
    requires u < |g| && d[u] != INF && d[u] <= |g| && v < |g| && v in g[u] && y == pv[v] && d[y] == INF
    ensures IsLayering(g, pu, pv, d[y := d[u] + 1])
  {
    hide HasParent, LeadsTo;
    var e := d[y := d[u] + 1];
    forall x: nat | x <= |g| && e[x] != INF && (x < |g| ==> pu[x] != |g|)
      ensures HasParent(g, pv, e, x)
    {
      if x == y as nat {
        EdgeLeads(g, pv, u, v);
        ParentOf(g, pv, e, u, x);
      } else {
        ParentStays(g, pv, d, x, y, d[u] + 1);
      }
    }
  }

  lemma EdgeLeads(g: seq<seq<u16>>, pv: seq<u16>, u: nat, v: nat)
    requires Partners(g, pv) && u < |g| && v < |g| && v in g[u]
    ensures LeadsTo(g, pv, u, pv[v])
  {
    var k :| 0 <= k < |g[u]| && g[u][k] == v;
  }

  lemma ParentOf(g: seq<seq<u16>>, pv: seq<u16>, d: seq<u16>, u: nat, x: nat)
    requires x < |d| == |g| + 1 && u < |g| && d[u] != INF && d[u] + 1 == d[x] && LeadsTo(g, pv, u, x)
    ensures HasParent(g, pv, d, x)
  {
  }

  lemma ParentStays(g: seq<seq<u16>>, pv: seq<u16>, d: seq<u16>, x: nat, y: u16, t: u16)
    requires HasParent(g, pv, d, x) && y < |d| && d[y] == INF && x != y as nat
    ensures HasParent(g, pv, d[y := t], x)
  {
    hide LeadsTo;
    var p: nat :| p < |g| && d[p] != INF && d[p] + 1 == d[x] && LeadsTo(g, pv, p, x);
    assert d[y := t][p] == d[p];
  }

  lemma BfsDiscover(g: seq<seq<u16>>, pu: seq<u16>, pv: seq<u16>, d: seq<u16>, queue: seq<u16>, visited: set<nat>,
                    u: nat, v: nat, y: u16)
    requires BfsState(g, pu, pv, d, queue, visited, u)
    requires u < |g| && d[u] != INF && v < |g| && v in g[u] && y == pv[v] && d[y] == INF
    ensures d[u] <= |g| <= SHAPELESS_GROUPS_MAX && y as nat !in visited && |visited| <= |g|
    ensures BfsState(g, pu, pv, d[y := d[u] + 1], queue + [y], visited + {y as nat}, u)
  {
    hide HasParent;
    RangeSize(visited + {y as nat}, |g| + 1);
    ExtendLayering(g, pu, pv, d, u, v, y);
    var e := d[y := d[u] + 1];
    if e[|g|] == INF {
      forall x: nat | x < |g| && e[x] != INF && x != u && x !in queue + [y] ensures Scanned(g, pv, e, x, |g[x]|) {
        assert Scanned(g, pv, d, x, |g[x]|);
      }
    }
  }

  // ---- shortest layers

  // The queue holds vertices of the layer low, then of the next one, and no layer after that is known.
  ghost predicate Fifo(d: seq<u16>, queue: seq<u16>, low: nat) {
    && (forall i :: 0 <= i < |queue| ==> queue[i] < |d| && low <= d[queue[i]] <= low + 1)
    && (forall i, j :: 0 <= i < j < |queue| ==> d[queue[i]] <= d[queue[j]])
    && (forall x :: 0 <= x < |d| && d[x] != INF ==> d[x] <= low + 1)
  }

  // The partners of p's first upto neighbours are at most one layer further.
  ghost predicate Near(g: seq<seq<u16>>, pv: seq<u16>, d: seq<u16>, p: nat, upto: nat) {
    && Partners(g, pv) && |d| == |g| + 1 && p < |g| && upto <= |g[p]|
    && forall k :: 0 <= k < upto ==> d[pv[g[p][k]]] as int <= d[p] as int + 1
  }

  // No layer is beyond the dummy's, and no edge from before it skips a layer, but for those from
  // vertices that wait and from the one being scanned.
  ghost predicate Settled(g: seq<seq<u16>>, pv: seq<u16>, d: seq<u16>, queue: seq<u16>, open: nat) {
    && Partners(g, pv) && |d| == |g| + 1
    && (forall x :: 0 <= x <= |g| && d[x] != INF ==> d[x] <= d[|g|])
    && forall p: nat {:trigger Near(g, pv, d, p, |g[p]|)} ::
         p < |g| && d[p] < d[|g|] && p != open && p !in queue ==> Near(g, pv, d, p, |g[p]|)
  }

  lemma FifoStart(g: seq<seq<u16>>, pu: seq<u16>, pv: seq<u16>, d: seq<u16>, queue: seq<u16>, visited: set<nat>)
    requires Seeded(g, pu, d, queue, visited, |g|) && Partners(g, pv) && d[|g|] == INF
    ensures Fifo(d, queue, 0) && Settled(g, pv, d, queue, |g|)
  {
    forall i | 0 <= i < |queue|
      ensures queue[i] < |g| && d[queue[i]] == 0
    {
      assert queue[i] in queue;
    }
  }

  lemma FifoPop(g: seq<seq<u16>>, pv: seq<u16>, d: seq<u16>, queue: seq<u16>, low: nat)
    requires Fifo(d, queue, low) && Settled(g, pv, d, queue, |g|) && queue != []
    ensures Fifo(d, queue[1..], d[queue[0]]) && Settled(g, pv, d, queue[1..], queue[0])
  {
    hide Near;
    assert queue == [queue[0]] + queue[1..];
  }

  lemma FifoDiscover(g: seq<seq<u16>>, pv: seq<u16>, d: seq<u16>, queue: seq<u16>, u: nat, y: u16)
    requires u < |g| && |d| == |g| + 1 && d[u] <= |g| <= SHAPELESS_GROUPS_MAX && y < |d| && d[y] == INF
    requires d[u] < d[|g|]
    requires Fifo(d, queue, d[u]) && Settled(g, pv, d, queue, u)
    ensures Fifo(d[y := d[u] + 1], queue + [y], d[u]) && Settled(g, pv, d[y := d[u] + 1], queue + [y], u)
  {
    var e, q := d[y := d[u] + 1], queue + [y];
    assert forall i :: 0 <= i < |queue| ==> q[i] == queue[i] && e[queue[i]] == d[queue[i]];
    forall p: nat | p < |g| && e[p] < e[|g|] && p != u && p !in q
      ensures Near(g, pv, e, p, |g[p]|)
    {
      assert y in q;
      assert p !in queue;
      assert Near(g, pv, d, p, |g[p]|);
    }
  }

  lemma NearStart(g: seq<seq<u16>>, pv: seq<u16>, d: seq<u16>, p: nat)
    requires Partners(g, pv) && |d| == |g| + 1 && p < |g|
    ensures Near(g, pv, d, p, 0)
  {
  }

  // One more neighbour of the vertex being scanned: just discovered, or known before.
  lemma NearNext(g: seq<seq<u16>>, pv: seq<u16>, d: seq<u16>, queue: seq<u16>, p: nat, k: nat, e: seq<u16>)
    requires Near(g, pv, d, p, k) && k < |g[p]| && Fifo(d, queue, d[p]) && d[p] <= |g|
    requires var y := pv[g[p][k]]; e == if d[y] == INF then d[y := d[p] + 1] else d
    ensures Near(g, pv, e, p, k + 1)
  {
  }

  lemma FifoClose(g: seq<seq<u16>>, pv: seq<u16>, d: seq<u16>, queue: seq<u16>, u: nat)
    requires Settled(g, pv, d, queue, u) && u <= |g| && (d[u] >= d[|g|] || Near(g, pv, d, u, |g[u]|))
    ensures Settled(g, pv, d, queue, |g|)
  {
  }

  // The whole state of the search, between two vertices and within the scan of u.
  ghost predicate Search(g: seq<seq<u16>>, pu: seq<u16>, pv: seq<u16>, d: seq<u16>, queue: seq<u16>,
                         visited: set<nat>, open: nat, low: nat)
  {
    BfsState(g, pu, pv, d, queue, visited, open) && Fifo(d, queue, low) && Settled(g, pv, d, queue, open)
  }

  ghost predicate Scan(g: seq<seq<u16>>, pu: seq<u16>, pv: seq<u16>, d: seq<u16>, queue: seq<u16>,
                       visited: set<nat>, u: nat, k: nat)
  {
    && u < |g| < |d| && d[u] <= |g| && d[u] < d[|g|]
    && Search(g, pu, pv, d, queue, visited, u, d[u])
    && Scanned(g, pv, d, u, k) && Near(g, pv, d, u, k)
  }

  lemma SearchStart(g: seq<seq<u16>>, pu: seq<u16>, pv: seq<u16>, d: seq<u16>, queue: seq<u16>, visited: set<nat>)
    requires Seeded(g, pu, d, queue, visited, |g|) && Partners(g, pv) && d[|g|] == INF
    requires BfsState(g, pu, pv, d, queue, visited, |g|)
    ensures Search(g, pu, pv, d, queue, visited, |g|, 0) && |visited| <= |g| + 1
  {
    assert |visited| <= |g| + 1;
    hide Seeded, BfsState, Fifo, Settled, Partners;
    FifoStart(g, pu, pv, d, queue, visited);
  }

  lemma SearchPop(g: seq<seq<u16>>, pu: seq<u16>, pv: seq<u16>, d: seq<u16>, queue: seq<u16>, visited: set<nat>,
                  low: nat)
    requires Search(g, pu, pv, d, queue, visited, |g|, low) && queue != []
    ensures queue[0] <= |g| < |d| && d[queue[0]] != INF
    ensures Search(g, pu, pv, d, queue[1..], visited, queue[0], d[queue[0]])
    ensures |visited| <= |g| + 1 && (d[queue[0]] < d[|g|] ==> queue[0] < |g|)
    ensures d[queue[0]] < d[|g|] ==> Scan(g, pu, pv, d, queue[1..], visited, queue[0], 0)
    ensures d[queue[0]] >= d[|g|] ==> Search(g, pu, pv, d, queue[1..], visited, |g|, d[queue[0]])
  {
    BfsPop(g, pu, pv, d, queue, visited);
    BfsLayers(g, pu, pv, d, queue, visited, |g|, queue[0]);
    hide BfsState, Fifo, Settled, Scanned, Near;
    FifoPop(g, pv, d, queue, low);
    if d[queue[0]] < d[|g|] {
      ScannedStart(g, pv, d, queue[0]);
      NearStart(g, pv, d, queue[0]);
    } else {
      BfsClose(g, pu, pv, d, queue[1..], visited, queue[0]);
      FifoClose(g, pv, d, queue[1..], queue[0]);
    }
  }

  lemma BfsLayers(g: seq<seq<u16>>, pu: seq<u16>, pv: seq<u16>, d: seq<u16>, queue: seq<u16>, visited: set<nat>,
                  open: nat, u: nat)
    requires BfsState(g, pu, pv, d, queue, visited, open) && u <= |g|
    ensures Partners(g, pv) && |d| == |g| + 1 && (d[u] < d[|g|] ==> d[u] <= |g| && u < |g|)
    ensures d[|g|] != INF || d[u] < d[|g|] || d[u] == INF
  {
    if d[|g|] == INF {
      RangeSize(visited, |g|);
    }
  }

  // One more neighbour is looked at, and its partner discovered unless it was before.
  lemma ScanNext(g: seq<seq<u16>>, pu: seq<u16>, pv: seq<u16>, d: seq<u16>, queue: seq<u16>, visited: set<nat>,
                 u: nat, k: nat)
    requires Scan(g, pu, pv, d, queue, visited, u, k) && k < |g[u]|
    ensures g[u][k] < |g| < |pv| && pv[g[u][k]] <= |g|
    ensures var y := pv[g[u][k]];
      d[y] == INF ==> Scan(g, pu, pv, d[y := d[u] + 1], queue + [y], visited + {y as nat}, u, k + 1)
    ensures d[pv[g[u][k]]] == INF ==> pv[g[u][k]] as nat !in visited && |visited| <= |g| <= SHAPELESS_GROUPS_MAX
    ensures d[pv[g[u][k]]] != INF ==> Scan(g, pu, pv, d, queue, visited, u, k + 1)
  {
    BfsLayers(g, pu, pv, d, queue, visited, u, u);
    EdgeRange(g, pv, u, k);
    hide BfsState, Fifo, Settled, Scanned, Near, Partners;
    var y := pv[g[u][k]];
    if d[y] == INF {
      BfsDiscover(g, pu, pv, d, queue, visited, u, g[u][k], y);
      FifoDiscover(g, pv, d, queue, u, y);
      ScannedGrows(g, pv, d, u, k, y, d[u] + 1);
      NearNext(g, pv, d, queue, u, k, d[y := d[u] + 1]);
    } else {
      ScannedGrows(g, pv, d, u, k, y, d[y]);
      assert d[y := d[y]] == d;
      NearNext(g, pv, d, queue, u, k, d);
    }
  }

  // The layer to be given is in range, and u keeps its own.
  lemma ScanRoom(g: seq<seq<u16>>, pu: seq<u16>, pv: seq<u16>, d: seq<u16>, queue: seq<u16>, visited: set<nat>,
                 u: nat, k: nat)
    requires Scan(g, pu, pv, d, queue, visited, u, k)
    ensures u < |d| && d[u] < d[|g|] && d[u] <= |g| <= SHAPELESS_GROUPS_MAX
  {
  }

  lemma ScanDone(g: seq<seq<u16>>, pu: seq<u16>, pv: seq<u16>, d: seq<u16>, queue: seq<u16>, visited: set<nat>, u: nat)
    requires u < |g| && Scan(g, pu, pv, d, queue, visited, u, |g[u]|)
    ensures Search(g, pu, pv, d, queue, visited, |g|, d[u]) && |visited| <= |g| + 1
  {
    hide BfsState, Fifo, Settled, Scanned, Near;
    BfsClose(g, pu, pv, d, queue, visited, u);
    FifoClose(g, pv, d, queue, u);
  }

  lemma SearchDone(g: seq<seq<u16>>, pu: seq<u16>, pv: seq<u16>, d: seq<u16>, visited: set<nat>, low: nat)
    requires Search(g, pu, pv, d, [], visited, |g|, low)
    ensures IsLayering(g, pu, pv, d) && Settled(g, pv, d, [], |g|)
    ensures d[|g|] == INF ==> Saturated(g, pv, d)
  {
    BfsDone(g, pu, pv, d, visited);
  }

  // x is reached from an unmatched left vertex by k steps along edges and back over pairs.
  ghost predicate Reached(g: seq<seq<u16>>, pu: seq<u16>, pv: seq<u16>, k: nat, x: nat)
    requires |pu| == |g| + 1
  {
    if k == 0 then x < |g| && pu[x] == |g|
    else exists p: nat :: Reached(g, pu, pv, k - 1, p) && LeadsTo(g, pv, p, x)
  }

  // Every layer is the length of a walk, and no walk that is no longer than the dummy's layer is
  // shorter: the layers are shortest alternating distances.
  lemma {:induction false} LayerIsWalk(g: seq<seq<u16>>, pu: seq<u16>, pv: seq<u16>, d: seq<u16>, x: nat)
    requires IsLayering(g, pu, pv, d) && x <= |g| && d[x] != INF
    ensures Reached(g, pu, pv, d[x], x)
    decreases d[x]
  {
    if x == |g| || pu[x] != |g| {
      assert HasParent(g, pv, d, x);
      var p: nat :| p < |g| && d[p] != INF && d[p] + 1 == d[x] && LeadsTo(g, pv, p, x);
      LayerIsWalk(g, pu, pv, d, p);
    }
  }

  lemma {:induction false} NoShorterWalk(g: seq<seq<u16>>, pu: seq<u16>, pv: seq<u16>, d: seq<u16>, k: nat, x: nat)
    requires IsLayering(g, pu, pv, d) && Settled(g, pv, d, [], |g|)
    requires Reached(g, pu, pv, k, x) && (k <= d[|g|] || d[|g|] == INF)
    ensures x <= |g| && d[x] <= k && d[x] != INF
  {
    if k > 0 {
      var p: nat :| Reached(g, pu, pv, k - 1, p) && LeadsTo(g, pv, p, x);
      NoShorterWalk(g, pu, pv, d, k - 1, p);
      assert Near(g, pv, d, p, |g[p]|);
    }
  }

  // The layer of x is the length of its shortest walk, for all x no further away than the dummy.
  lemma LayersAreShortest(g: seq<seq<u16>>, pu: seq<u16>, pv: seq<u16>, d: seq<u16>, x: nat)
    requires |pu| == |d| == |g| + 1 && IsLayering(g, pu, pv, d) && Settled(g, pv, d, [], |g|) && x <= |g|
    ensures d[x] != INF ==>
      d[x] <= d[|g|] && Reached(g, pu, pv, d[x], x) && forall k: nat :: k < d[x] ==> !Reached(g, pu, pv, k, x)
    ensures d[x] == INF ==> forall k: nat :: k <= d[|g|] || d[|g|] == INF ==> !Reached(g, pu, pv, k, x)
  {
    hide IsLayering, Settled, LeadsTo;
    if d[x] != INF {
      LayerIsWalk(g, pu, pv, d, x);
    }
    assert d[x] != INF ==> d[x] <= d[|g|] by {
      NoneBeyond(g, pv, d, x);
    }
    forall k: nat | (k <= d[|g|] || d[|g|] == INF) && Reached(g, pu, pv, k, x)
      ensures d[x] <= k && d[x] != INF
    {
      NoShorterWalk(g, pu, pv, d, k, x);
    }
  }

  lemma NoneBeyond(g: seq<seq<u16>>, pv: seq<u16>, d: seq<u16>, x: nat)
    requires Settled(g, pv, d, [], |g|) && x <= |g|
    ensures d[x] != INF ==> d[x] <= d[|g|]
  {
  }

  lemma EdgeRange(g: seq<seq<u16>>, pv: seq<u16>, u: nat, k: nat)
    requires Partners(g, pv) && u < |g| && k < |g[u]|
    ensures g[u][k] < |g| < |pv| && pv[g[u][k]] <= |g|
  {
  }

  lemma ScannedStart(g: seq<seq<u16>>, pv: seq<u16>, d: seq<u16>, u: nat)
    requires Partners(g, pv) && |d| == |g| + 1 && u < |g|
    ensures Scanned(g, pv, d, u, 0)
  {
  }

  // A vertex stays scanned while more are discovered.
  lemma ScannedGrows(g: seq<seq<u16>>, pv: seq<u16>, d: seq<u16>, u: nat, k: nat, y: u16, t: u16)
    requires Scanned(g, pv, d, u, k) && y < |d| && t != INF && k < |g[u]|
    requires y == pv[g[u][k]]
    ensures Scanned(g, pv, d[y := t], u, k + 1)
  {
  }

  lemma BfsDone(g: seq<seq<u16>>, pu: seq<u16>, pv: seq<u16>, d: seq<u16>, visited: set<nat>)
    requires BfsState(g, pu, pv, d, [], visited, |g|)
    ensures IsLayering(g, pu, pv, d)
    ensures d[|g|] == INF ==> Saturated(g, pv, d)
  {
    if d[|g|] == INF {
      forall u: nat | u < |g| && d[u] != INF ensures Scanned(g, pv, d, u, |g[u]|) {}
    }
  }

  // ---- depth-first steps

  // A matched right vertex is its partner's partner; a free one may be regarded as the hole.
  lemma PartnerOrHole(g: seq<seq<u16>>, pu: seq<u16>, pv: seq<u16>, v: nat)
    requires Consistent(g, pu, pv, |g|) && v < |g|
    ensures pv[v] < |g| ==> pu[pv[v]] == v
    ensures pv[v] == |g| ==> Consistent(g, pu, pv, v)
  {
  }

  // Swapping the edge (u, v) in moves the hole from v to u's former partner.
  lemma Rematch(g: seq<seq<u16>>, pu: seq<u16>, pv: seq<u16>, u: nat, v: nat)
    requires u < |g| && v < |g| && v in g[u]
    requires Consistent(g, pu, pv, v)
    ensures Consistent(g, pu[u := v], pv[v := u], pu[u])
  {
    var pu', pv' := pu[u := v], pv[v := u];
    forall a, b {:trigger pu'[a], pv'[b]} | 0 <= a < |g| && 0 <= b < |g|
      ensures pu'[a] == b <==> pv'[b] == a && b != pu[u]
    {
      assert pu[a] == b <==> pv[b] == a && b != v;
      assert pu[u] == b <==> pv[b] == u && b != v;
    }
  }

  // Giving up one more continuation of u: it was not layered, or the search below it failed.
  lemma ExhaustOne(g: seq<seq<u16>>, pv: seq<u16>, base: seq<u16>, d: seq<u16>, e: seq<u16>, u: nat, k: nat)
    requires Partners(g, pv) && |d| == |g| + 1 && u < |g| && k < |g[u]|
    requires Exhausted(g, pv, base, d, u, k) && Pruned(g, pv, base, e)
    requires forall x :: 0 <= x <= |g| ==> e[x] == d[x] || e[x] == INF
    requires e[u] != INF && e[pv[g[u][k]]] as int != e[u] as int + 1
    ensures Exhausted(g, pv, base, e, u, k + 1)
  {
  }

  lemma PrunedStart(g: seq<seq<u16>>, pv: seq<u16>, base: seq<u16>, d: seq<u16>, u: nat)
    requires Pruned(g, pv, base, d) && u < |g| && d[u] != INF
    ensures d[u] <= |g| + 1 && Exhausted(g, pv, base, d, u, 0)
  {
  }

  lemma PruneVertex(g: seq<seq<u16>>, pv: seq<u16>, base: seq<u16>, d: seq<u16>, u: nat)
    requires Pruned(g, pv, base, d) && u < |g| && Exhausted(g, pv, base, d, u, |g[u]|)
    ensures Pruned(g, pv, base, d[u := INF])
  {
    var e := d[u := INF];
    forall x: nat | x <= |g| && e[x] != base[x]
      ensures x < |g| && e[x] == INF && Exhausted(g, pv, base, e, x, |g[x]|)
    {
      assert Exhausted(g, pv, base, d, x, |g[x]|);
    }
  }

  // What a search from u may change. Distances only become INF; besides u, only vertices of
  // later layers are touched, and only matched ones, which stay matched.
  ghost predicate Touches(n: nat, u: nat, pu: seq<u16>, d: seq<u16>, pu': seq<u16>, d': seq<u16>) {
    && |pu| == |d| == |pu'| == |d'| == n + 1 && u <= n
    && (forall x :: 0 <= x <= n ==> d'[x] == d[x] || d'[x] == INF)
    && (forall x :: 0 <= x <= n && x != u && d[x] <= d[u] ==> pu'[x] == pu[x] && d'[x] == d[x])
    && (forall x :: 0 <= x < n && x != u && pu[x] == n ==> pu'[x] == n && d'[x] == d[x])
    && (forall x :: 0 <= x < n && pu[x] != n ==> pu'[x] != n)
  }

  lemma ConsistentPartners(g: seq<seq<u16>>, pu: seq<u16>, pv: seq<u16>, hole: nat)
    requires Consistent(g, pu, pv, hole)
    ensures Partners(g, pu) && Partners(g, pv)
  {
  }

  lemma TouchesNothing(n: nat, u: nat, pu: seq<u16>, d: seq<u16>)
    requires |pu| == |d| == n + 1 && u <= n
    ensures Touches(n, u, pu, d, pu, d)
  {
  }

  // A deeper search from y, one layer below u, leaves u alone and stays within u's own licence.
  lemma TouchesBelow(n: nat, u: nat, y: nat, pu: seq<u16>, d0: seq<u16>, d: seq<u16>, pu': seq<u16>, d': seq<u16>)
    requires Touches(n, u, pu, d0, pu, d) && d[u] == d0[u] != INF && y <= n && d[y] as int == d[u] as int + 1
    requires y < n ==> pu[y] != n
    requires Touches(n, y, pu, d, pu', d')
    ensures Touches(n, u, pu, d0, pu', d') && d'[u] == d0[u] && pu'[u] == pu[u]
    ensures forall x :: 0 <= x <= n ==> d'[x] == d[x] || d'[x] == INF
  {
  }

  lemma TouchesSelf(n: nat, u: nat, pu: seq<u16>, d0: seq<u16>, pu': seq<u16>, d': seq<u16>, v: u16, t: u16)
    requires Touches(n, u, pu, d0, pu', d')
    requires u < n && (v == pu'[u] || v < n) && (t == d'[u] || t == INF)
    ensures Touches(n, u, pu, d0, pu'[u := v], d'[u := t])
  {
  }

  // What a search from u may change of the right vertices' partners: only those beyond u's layer.
  ghost predicate Rewired(g: seq<seq<u16>>, base: seq<u16>, u: nat, pv: seq<u16>, pv': seq<u16>) {
    && Partners(g, pv) && |base| == |pv'| == |g| + 1 && u <= |g|
    && forall w :: 0 <= w <= |g| ==> pv'[w] == pv[w] || base[pv[w]] > base[u]
  }

  lemma RewiredNothing(g: seq<seq<u16>>, base: seq<u16>, d: seq<u16>, u: nat, pv: seq<u16>)
    requires Pruned(g, pv, base, d) && u <= |g|
    ensures Rewired(g, base, u, pv, pv)
  {
  }

  // The partner of v steps back a layer, from y to u; the rest was rewired beyond y.
  lemma RewiredUp(g: seq<seq<u16>>, base: seq<u16>, u: nat, y: nat, pv: seq<u16>, pv': seq<u16>, v: nat)
    requires u <= |g| && v < |g| && Rewired(g, base, y, pv, pv') && pv[v] as nat == y && base[y] > base[u]
    requires IsGraph(g)
    ensures pv'[v] as nat == y && Rewired(g, base, u, pv, pv'[v := u])
  {
  }

  // With a partner that is one layer back still no edge skips a layer.
  lemma SettledStays(g: seq<seq<u16>>, pv: seq<u16>, base: seq<u16>, u: nat, v: nat)
    requires Settled(g, pv, base, [], |g|) && u < |g| && v < |g| && base[pv[v]] as int == base[u] as int + 1
    ensures Settled(g, pv[v := u], base, [], |g|)
  {
    forall p: nat | p < |g| && base[p] < base[|g|]
      ensures Near(g, pv[v := u], base, p, |g[p]|)
    {
      assert Near(g, pv, base, p, |g[p]|);
    }
  }

  // And no continuation that was given up comes back.
  lemma PrunedStays(g: seq<seq<u16>>, pv: seq<u16>, base: seq<u16>, d: seq<u16>, u: nat, v: nat)
    requires Settled(g, pv, base, [], |g|) && Pruned(g, pv, base, d)
    requires u < |g| && v < |g| && base[u] <= |g| + 1 && base[pv[v]] as int == base[u] as int + 1
    ensures Pruned(g, pv[v := u], base, d)
  {
    forall x: nat | x < |g| && d[x] != base[x]
      ensures Exhausted(g, pv[v := u], base, d, x, |g[x]|)
    {
      assert Near(g, pv, base, x, |g[x]|) || base[x] >= base[|g|];
    }
  }

  // The search from u has given up its first k continuations, and changed no pair.
  ghost predicate Trying(g: seq<seq<u16>>, pu: seq<u16>, pv: seq<u16>, base: seq<u16>, d0: seq<u16>, d: seq<u16>,
                         u: nat, k: nat)
  {
    && |d0| == |d| == |g| + 1 && u < |g| && d[u] == d0[u] && d[u] != INF
    && Partners(g, pv) && Pruned(g, pv, base, d) && Exhausted(g, pv, base, d, u, k) && Touches(|g|, u, pu, d0, pu, d)
  }

  lemma TryStart(g: seq<seq<u16>>, pu: seq<u16>, pv: seq<u16>, base: seq<u16>, d: seq<u16>, u: nat)
    requires Pruned(g, pv, base, d) && |pu| == |g| + 1 && u < |g| && d[u] != INF
    ensures Trying(g, pu, pv, base, d, d, u, 0) && d[u] <= |g| + 1
  {
    hide Exhausted, Touches;
    PrunedStart(g, pv, base, d, u);
    TouchesNothing(|g|, u, pu, d);
  }

  lemma TryEdge(g: seq<seq<u16>>, pu: seq<u16>, pv: seq<u16>, base: seq<u16>, d0: seq<u16>, d: seq<u16>, u: nat, k: nat)
    requires Trying(g, pu, pv, base, d0, d, u, k) && k < |g[u]| && Consistent(g, pu, pv, |g|)
    ensures g[u][k] < |g| < |pv| && pv[g[u][k]] <= |g| && g[u][k] as nat in g[u]
    ensures pv[g[u][k]] < |g| ==> pu[pv[g[u][k]]] == g[u][k]
    ensures pv[g[u][k]] == |g| ==> Consistent(g, pu, pv, g[u][k])
    ensures Pruned(g, pv, base, d) && d[u] != INF && d[u] <= |g| + 1
  {
    EdgeRange(g, pv, u, k);
    PartnerOrHole(g, pu, pv, g[u][k]);
  }

  // The next continuation was not on the next layer, or the search from there failed and left e.
  lemma TryNext(g: seq<seq<u16>>, pu: seq<u16>, pv: seq<u16>, base: seq<u16>, d0: seq<u16>, d: seq<u16>, e: seq<u16>,
                u: nat, k: nat)
    requires Trying(g, pu, pv, base, d0, d, u, k) && k < |g[u]| && Consistent(g, pu, pv, |g|) && |e| == |d|
    requires var y := pv[g[u][k]];
      if d[y] as int == d[u] as int + 1
        then y < |g| && Touches(|g|, y, pu, d, pu, e) && Pruned(g, pv, base, e) && e[y] == INF
      else e == d
    ensures Trying(g, pu, pv, base, d0, e, u, k + 1)
  {
    hide Consistent, Pruned, Exhausted, Touches;
    EdgeRange(g, pv, u, k);
    PartnerOrHole(g, pu, pv, g[u][k]);
    PrunedStart(g, pv, base, d, u);
    if d[pv[g[u][k]]] as int == d[u] as int + 1 {
      TouchesBelow(|g|, u, pv[g[u][k]], pu, d0, d, pu, e);
    }
    ExhaustOne(g, pv, base, d, e, u, k);
  }

  // The search below succeeded: u takes over the edge whose right end it freed.
  lemma TryFound(g: seq<seq<u16>>, pu: seq<u16>, pv: seq<u16>, base: seq<u16>, d0: seq<u16>, d: seq<u16>,
                 u: nat, k: nat, pu': seq<u16>, pv': seq<u16>, e: seq<u16>)
    requires Trying(g, pu, pv, base, d0, d, u, k) && k < |g[u]| && Consistent(g, pu, pv, |g|)
    requires var y := pv[g[u][k]];
      && d[y] as int == d[u] as int + 1 && Touches(|g|, y, pu, d, pu', e)
      && Consistent(g, pu', pv', if y < |g| then pu[y] else g[u][k])
    ensures |pu'| == |pv'| == |g| + 1 && g[u][k] < |g|
    ensures Consistent(g, pu'[u := g[u][k]], pv'[g[u][k] := u], pu[u])
    ensures Touches(|g|, u, pu, d0, pu'[u := g[u][k]], e)
  {
    EdgeRange(g, pv, u, k);
    PartnerOrHole(g, pu, pv, g[u][k]);
    ConsistentPartners(g, pu', pv', if pv[g[u][k]] < |g| then pu[pv[g[u][k]]] else g[u][k]);
    hide Consistent, Pruned, Exhausted, Touches;
    TouchesBelow(|g|, u, pv[g[u][k]], pu, d0, d, pu', e);
    Rematch(g, pu', pv', u, g[u][k]);
    TouchesSelf(|g|, u, pu, d0, pu', e, g[u][k], e[u]);
    assert e[u := e[u]] == e;
  }

  // And the phase's layers remain what they were.
  lemma LayersStay(g: seq<seq<u16>>, pu: seq<u16>, pv: seq<u16>, base: seq<u16>, d0: seq<u16>, d: seq<u16>,
                   u: nat, k: nat, pv': seq<u16>, e: seq<u16>)
    requires Trying(g, pu, pv, base, d0, d, u, k) && k < |g[u]|
    requires Settled(g, pv', base, [], |g|) && Pruned(g, pv', base, e)
    requires d[pv[g[u][k]]] as int == d[u] as int + 1 && Rewired(g, base, pv[g[u][k]], pv, pv')
    ensures g[u][k] < |g| == |pv'| - 1
    ensures Settled(g, pv'[g[u][k] := u], base, [], |g|) && Pruned(g, pv'[g[u][k] := u], base, e)
    ensures Rewired(g, base, u, pv, pv'[g[u][k] := u])
  {
    EdgeRange(g, pv, u, k);
    LiveLayer(g, pv, base, d, u);
    LiveLayer(g, pv, base, d, pv[g[u][k]]);
    hide Exhausted, Touches, Settled, Pruned, Near;
    RewiredUp(g, base, u, pv[g[u][k]], pv, pv', g[u][k]);
    SettledStays(g, pv', base, u, g[u][k]);
    PrunedStays(g, pv', base, e, u, g[u][k]);
  }

  // A vertex that is not marked has its layer.
  lemma LiveLayer(g: seq<seq<u16>>, pv: seq<u16>, base: seq<u16>, d: seq<u16>, x: nat)
    requires Pruned(g, pv, base, d) && x <= |g| && d[x] != INF
    ensures |base| == |g| + 1 && d[x] == base[x] <= |g| + 1 && IsGraph(g)
  {
  }

  lemma TryLayer(g: seq<seq<u16>>, pu: seq<u16>, pv: seq<u16>, base: seq<u16>, d0: seq<u16>, d: seq<u16>, u: nat,
                 k: nat)
    requires Trying(g, pu, pv, base, d0, d, u, k)
    ensures d[u] == d0[u]
  {
  }

  lemma TryEnd(g: seq<seq<u16>>, pu: seq<u16>, pv: seq<u16>, base: seq<u16>, d0: seq<u16>, d: seq<u16>, u: nat)
    requires u < |g| && Trying(g, pu, pv, base, d0, d, u, |g[u]|)
    ensures Pruned(g, pv, base, d[u := INF]) && |pu| == |g| + 1 && Touches(|g|, u, pu, d0, pu, d[u := INF])
  {
    PruneVertex(g, pv, base, d, u);
    TouchesSelf(|g|, u, pu, d0, pu, d, pu[u], INF);
    assert pu == pu[u := pu[u]];
  }

  // ---- phases

  // Roots not tried yet are still at layer 0.
  ghost predicate FreshRoots(n: nat, pu: seq<u16>, d: seq<u16>, from: nat) {
    && |pu| == |d| == n + 1
    && forall x :: from <= x < n && pu[x] == n ==> d[x] == 0
  }

  // Roots already tried have been marked.
  ghost predicate SpentRoots(n: nat, pu: seq<u16>, d: seq<u16>, upto: nat) {
    && |pu| == |d| == n + 1
    && forall x :: 0 <= x < upto && x < n && pu[x] == n ==> d[x] == INF
  }

  lemma LayeringIsPruned(g: seq<seq<u16>>, pu: seq<u16>, pv: seq<u16>, d: seq<u16>)
    requires IsLayering(g, pu, pv, d)
    ensures Pruned(g, pv, d, d)
    ensures FreshRoots(|g|, pu, d, 0) && SpentRoots(|g|, pu, d, 0)
  {
  }

  lemma NextRoot(n: nat, pu: seq<u16>, d: seq<u16>, u: nat)
    requires FreshRoots(n, pu, d, u) && SpentRoots(n, pu, d, u) && u < n
    ensures FreshRoots(n, pu, d, u + 1)
    ensures if pu[u] == n then d[u] == 0 else SpentRoots(n, pu, d, u + 1)
  {
  }

  lemma RootTouches(n: nat, u: nat, pu: seq<u16>, d: seq<u16>, pu': seq<u16>, d': seq<u16>, base: seq<u16>)
    requires Touches(n, u, pu, d, pu', d') && FreshRoots(n, pu, d, u + 1) && FreshRoots(n, pu, base, 0)
    requires SpentRoots(n, pu, d, u) && u < n && (pu'[u] != n || d'[u] == INF)
    ensures FreshRoots(n, pu', d', u + 1) && SpentRoots(n, pu', d', u + 1) && FreshRoots(n, pu', base, 0)
  {
  }

  lemma MatchedWithin(g: seq<seq<u16>>, pu: seq<u16>)
    requires |pu| == |g| + 1
    ensures |Matched(g, pu)| <= |g|
  {
    RangeSize(Matched(g, pu), |g|);
  }

  // A successful search matches its root in addition to all that was matched.
  lemma RootMatched(g: seq<seq<u16>>, u: nat, pu: seq<u16>, d: seq<u16>, pu': seq<u16>, d': seq<u16>)
    requires Touches(|g|, u, pu, d, pu', d') && u < |g| && pu[u] == |g| && pu'[u] != |g|
    ensures |Matched(g, pu')| == |Matched(g, pu)| + 1 <= |g|
  {
    assert Matched(g, pu') == Matched(g, pu) + {u};
    RangeSize(Matched(g, pu'), |g|);
  }

  // After the searches from all roots a walk that is as long as its end's layer ends in a marked
  // vertex: what changed in the phase has only taken edges back.
  lemma {:induction false} WalkIsBehind(g: seq<seq<u16>>, pu: seq<u16>, pv: seq<u16>, base: seq<u16>, d: seq<u16>,
                                        k: nat, x: nat)
    requires Settled(g, pv, base, [], |g|) && Pruned(g, pv, base, d)
    requires FreshRoots(|g|, pu, base, 0) && SpentRoots(|g|, pu, d, |g|)
    requires Reached(g, pu, pv, k, x) && k <= base[|g|] != INF
    ensures x <= |g| && base[x] <= k && (base[x] == k ==> x < |g| && d[x] == INF)
  {
    if k > 0 {
      var p: nat :| Reached(g, pu, pv, k - 1, p) && LeadsTo(g, pv, p, x);
      WalkIsBehind(g, pu, pv, base, d, k - 1, p);
      assert Near(g, pv, base, p, |g[p]|);
      assert base[p] == k - 1 ==> Exhausted(g, pv, base, d, p, |g[p]|);
    }
  }

  // A phase leaves no walk to the dummy that is as short as those it searched along.
  lemma PhaseLengthens(g: seq<seq<u16>>, pu: seq<u16>, pv: seq<u16>, base: seq<u16>, d: seq<u16>)
    requires Settled(g, pv, base, [], |g|) && Pruned(g, pv, base, d)
    requires FreshRoots(|g|, pu, base, 0) && SpentRoots(|g|, pu, d, |g|)
    requires base[|g|] != INF
    ensures NoWalkUpTo(g, pu, pv, base[|g|])
  {
    forall k: nat | k <= base[|g|] && Reached(g, pu, pv, k, |g|)
      ensures false
    {
      WalkIsBehind(g, pu, pv, base, d, k, |g|);
    }
  }

  ghost predicate NoWalkUpTo(g: seq<seq<u16>>, pu: seq<u16>, pv: seq<u16>, length: nat)
    requires |pu| == |g| + 1
  {
    forall k: nat :: k <= length ==> !Reached(g, pu, pv, k, |g|)
  }

  // So the next phase has the dummy on a later layer, or on none.
  lemma NextLayerIsLater(g: seq<seq<u16>>, pu: seq<u16>, pv: seq<u16>, length: nat, next: seq<u16>)
    requires IsLayering(g, pu, pv, next) && NoWalkUpTo(g, pu, pv, length) && length < INF as nat
    ensures next[|g|] as nat > length
  {
    if next[|g|] != INF {
      LayerIsWalk(g, pu, pv, next, |g|);
    }
  }

  // Without a root left, pruning has marked every layered vertex, so the dummy had no layer.
  lemma {:induction false} RootsPrunedMeansAllPruned(g: seq<seq<u16>>, pu: seq<u16>, pv: seq<u16>,
                                                    base: seq<u16>, d: seq<u16>, x: nat)
    requires IsLayering(g, pu, pv, base) && Pruned(g, pv, base, d)
    requires forall u :: 0 <= u < |g| && pu[u] == |g| ==> d[u] == INF
    requires x <= |g| && base[x] != INF
    ensures x != |g| && d[x] == INF
    decreases base[x]
  {
    if x == |g| || pu[x] != |g| {
      assert HasParent(g, pv, base, x);
      var p: nat :| p < |g| && base[p] != INF && base[p] + 1 == base[x] && LeadsTo(g, pv, p, x);
      RootsPrunedMeansAllPruned(g, pu, pv, base, d, p);
      assert Exhausted(g, pv, base, d, p, |g[p]|);
    }
  }

  // A phase that reached the dummy cannot end without a new match.
  lemma PhaseProgress(g: seq<seq<u16>>, pu: seq<u16>, pv: seq<u16>, base: seq<u16>, d: seq<u16>)
    requires IsLayering(g, pu, pv, base) && Pruned(g, pv, base, d) && SpentRoots(|g|, pu, d, |g|)
    ensures base[|g|] == INF
  {
    if base[|g|] != INF {
      RootsPrunedMeansAllPruned(g, pu, pv, base, d, |g|);
    }
  }

  lemma NeighbourMatchedInto(g: seq<seq<u16>>, pu: seq<u16>, pv: seq<u16>, d: seq<u16>, S: set<nat>, v: nat)
    requires Consistent(g, pu, pv, |g|) && Saturated(g, pv, d)
    requires S == set u: nat | u < |g| && d[u] != INF
    requires v in Neighbours(g, S)
    ensures pv[v] in S && pu[pv[v]] == v
  {
    var u :| u in S && u < |g| && v in g[u];
    var k :| 0 <= k < |g[u]| && g[u][k] == v;
    assert Scanned(g, pv, d, u, |g[u]|);
    assert d[pv[g[u][k]]] != INF;
  }

  lemma SomeUnmatched(g: seq<seq<u16>>, pu: seq<u16>) returns (root: nat)
    requires Partners(g, pu) && |Matched(g, pu)| != |g|
    ensures root < |g| && pu[root] == |g|
  {
    assert Matched(g, pu) != Below(|g|);
    root :| root < |g| && pu[root] == |g|;
  }

  // A set mapped one to one into another, but not to its member root, is smaller.
  lemma MissesOne(N: set<nat>, S: set<nat>, root: nat, pu: seq<u16>, pv: seq<u16>)
    requires root in S
    requires forall v :: v in N ==>
      v < |pv| && pv[v] as nat in S && pv[v] as nat != root && pv[v] < |pu| && pu[pv[v]] as nat == v
    ensures |N| < |S|
  {
    ImageSize(N, pv);
    var image := set v | v in N :: pv[v] as nat;
    SubsetSize(image, S - {root});
  }

  // When layering never reaches the dummy and some left vertex is unmatched, the visited left
  // vertices violate Hall's condition: their neighbours are all matched, into the visited set.
  lemma SaturationGivesViolator(g: seq<seq<u16>>, pu: seq<u16>, pv: seq<u16>, d: seq<u16>)
    requires IsLayering(g, pu, pv, d) && Consistent(g, pu, pv, |g|) && Saturated(g, pv, d)
    requires |Matched(g, pu)| != |g|
    ensures IsHallViolator(g, set u: nat | u < |g| && d[u] != INF)
  {
    var root := SomeUnmatched(g, pu);
    assert d[root] == 0;
    hide IsLayering, Saturated, Scanned, Matched;
    var S := set u: nat | u < |g| && d[u] != INF;
    var N := Neighbours(g, S);
    forall v | v in N
      ensures pv[v] as nat in S && pv[v] as nat != root && pu[pv[v]] == v
    {
      NeighbourMatchedInto(g, pu, pv, d, S, v);
    }
    MissesOne(N, S, root, pu, pv);
  }

  lemma FullMatchingIsPerfect(g: seq<seq<u16>>, pu: seq<u16>, pv: seq<u16>)
    requires Consistent(g, pu, pv, |g|) && |Matched(g, pu)| == |g|
    ensures IsPerfectMatching(g, pu[..|g|])
  {
    forall u: nat | u < |g| ensures pu[u] < |g| {
      if pu[u] == |g| {
        SubsetSize(Matched(g, pu), Below(|g|) - {u});
      }
    }
    forall i, j | 0 <= i < j < |g| ensures pu[i] != pu[j] {
      assert pv[pu[i]] == i && pv[pu[j]] == j;
    }
  }
}

module HopcroftKarp {
  import opened Numbers
  import opened Graphs
  import opened Pairings

  // The locals that the source's lambdas capture by reference.
  class Matcher {
    const graph: seq<seq<u16>>
    const size: u16
    const pairU: array<u16>
    const pairV: array<u16>
    const dist: array<u16>
    var numMatched: u16

    // The arrays' shape and range, and the pairing they hold.
    ghost predicate Valid()
      reads this, pairU, pairV, dist
    {
      && IsGraph(graph) && size == |graph|
      && pairU != pairV && pairU != dist && pairV != dist
      && pairU.Length == pairV.Length == dist.Length == size + 1
      && Consistent(graph, pairU[..], pairV[..], size)
    }

    constructor (g: seq<seq<u16>>)
      requires IsGraph(g)
      ensures Valid() && graph == g && numMatched == 0
      ensures forall u :: 0 <= u < |g| ==> pairU[u] == |g|
      ensures fresh(pairU) && fresh(pairV) && fresh(dist)
    {
      var n := |g|;
      graph, size := g, n;
      pairU := new u16[n + 1](_ => n);
      pairV := new u16[n + 1](_ => n);
      dist := new u16[n + 1](_ => 0);
      numMatched := 0;
    }

    // Puts every unmatched left vertex on layer 0 and into the queue.
    method SeedRoots() returns (queue: seq<u16>, ghost visited: set<nat>)
      requires Valid()
      modifies dist
      ensures pairU[..] == old(pairU[..]) && pairV[..] == old(pairV[..])
      ensures Seeded(graph, pairU[..], dist[..], queue, visited, size) && dist[size] == INF
      ensures BfsState(graph, pairU[..], pairV[..], dist[..], queue, visited, size)
    {
      ghost var pu, pv := pairU[..], pairV[..];
      assert Partners(graph, pv) && Seeded(graph, pu, dist[..], [], {}, 0);
      hide Consistent, Seeded, Partners, BfsState, IsGraph;
      queue, visited := [], {};
      var i: u16 := 0;
      while i < size
        invariant i <= size
        invariant pairU[..] == pu && pairV[..] == pv
        invariant Seeded(graph, pu, dist[..], queue, visited, i)
      {
        ghost var d := dist[..];
        SeedNext(graph, pu, d, queue, visited, i);
        if pairU[i] == size {
          dist[i] := 0;
          queue := queue + [i];
          visited := visited + {i as nat};
        } else {
          dist[i] := INF;
        }
        assert dist[..] == d[i := dist[i]];
        i := i + 1;
      }
      ghost var d := dist[..];
      dist[size] := INF;
      assert dist[..] == d[size := INF];
      SeedDone(graph, pu, d, queue, visited);
      BfsStart(graph, pu, pv, d, queue, visited);
    }

    // The inner loop of the search: discovers the partners of u's neighbours.
    method ScanNeighbours(u: u16, waiting: seq<u16>, ghost before: set<nat>) returns (queue: seq<u16>,
                                                                                      ghost visited: set<nat>)
      requires Valid() && u < size
      requires Scan(graph, pairU[..], pairV[..], dist[..], waiting, before, u, 0)
      modifies dist
      ensures pairU[..] == old(pairU[..]) && pairV[..] == old(pairV[..]) && dist[u] == old(dist[u])
      ensures Search(graph, pairU[..], pairV[..], dist[..], queue, visited, size, dist[u])
      ensures |visited| <= size + 1 && (|visited| > |before| || (visited == before && queue == waiting))
    {
      hide Consistent, Search, Scan, Partners, IsGraph;
      ghost var pu, pv := pairU[..], pairV[..];
      queue, visited := waiting, before;
      var neighbours := graph[u];
      var k := 0;
      while k < |neighbours|
        invariant k <= |neighbours|
        invariant pairU[..] == pu && pairV[..] == pv && dist[u] == old(dist[u])
        invariant Scan(graph, pu, pv, dist[..], queue, visited, u, k)
        invariant |visited| > |before| || (visited == before && queue == waiting)
      {
        ghost var d := dist[..];
        ScanNext(graph, pu, pv, d, queue, visited, u, k);
        var v := neighbours[k];
        var uBack := pairV[v];
        if dist[uBack] == INF {
          ScanRoom(graph, pu, pv, d, queue, visited, u, k);
          dist[uBack] := dist[u] + 1;
          assert dist[..] == d[uBack := d[u] + 1];
          queue := queue + [uBack];
          visited := visited + {uBack as nat};
        }
        k := k + 1;
      }
      ScanDone(graph, pu, pv, dist[..], queue, visited, u);
    }

    // Layers the left vertices from the unmatched ones until the dummy is reached.
    method Bfs() returns (reached: bool)
      requires Valid()
      modifies dist
      ensures Valid() && pairU[..] == old(pairU[..]) && pairV[..] == old(pairV[..])
      ensures IsLayering(graph, pairU[..], pairV[..], dist[..])
      ensures reached == (dist[size] != INF)
      ensures !reached ==> Saturated(graph, pairV[..], dist[..])
      ensures Settled(graph, pairV[..], dist[..], [], size)
    {
      hide Seeded, Settled, Consistent, BfsState, Search, Scan, IsLayering, Saturated, Partners, IsGraph;
      ghost var pu, pv := pairU[..], pairV[..];
      ConsistentPartners(graph, pu, pv, size);
      var n := size;
      var queue, visited := SeedRoots();
      SearchStart(graph, pu, pv, dist[..], queue, visited);
      ghost var low: nat := 0;

      while queue != []
        invariant pairU[..] == pu && pairV[..] == pv
        invariant |visited| <= n + 1 && Search(graph, pu, pv, dist[..], queue, visited, n, low)
        decreases n + 1 - |visited|, |queue|
      {
        SearchPop(graph, pu, pv, dist[..], queue, visited, low);
        ghost var waiting, before := queue, visited;
        var u := queue[0];
        queue := queue[1..];
        low := dist[u];
        if dist[u] < dist[n] {
          queue, visited := ScanNeighbours(u, queue, visited);
        }
      }
      SearchDone(graph, pu, pv, dist[..], visited, low);
      reached := dist[n] != INF;
    }

    // Walks along the layers from u to the dummy and, on the way back, swaps the path's edges.
    // base is the layering the current phase started from.
    method Dfs(u: u16, ghost base: seq<u16>) returns (found: bool)
      requires Valid() && u <= size && dist[u] != INF
      requires Pruned(graph, pairV[..], base, dist[..]) && Settled(graph, pairV[..], base, [], size)
      modifies pairU, pairV, dist
      ensures Consistent(graph, pairU[..], pairV[..], if found then old(pairU[u]) else size)
      ensures found ==> u < size ==> pairU[u] != size
      ensures !found ==> u < size && dist[u] == INF
      ensures !found ==> pairU[..] == old(pairU[..]) && pairV[..] == old(pairV[..])
      ensures Pruned(graph, pairV[..], base, dist[..]) && Settled(graph, pairV[..], base, [], size)
      ensures Rewired(graph, base, u, old(pairV[..]), pairV[..])
      ensures u == size ==> pairU[..] == old(pairU[..]) && pairV[..] == old(pairV[..])
      ensures Touches(size, u, old(pairU[..]), old(dist[..]), pairU[..], dist[..])
      decreases size + 2 - dist[u]
    {
      RewiredNothing(graph, base, dist[..], u, pairV[..]);
      if u == size {
        return true;
      }
      hide Consistent, Pruned, Trying, Touches, Partners, IsGraph, Settled, Rewired;
      ghost var pu, pv, d0 := pairU[..], pairV[..], dist[..];
      ConsistentPartners(graph, pu, pv, size);
      TryStart(graph, pu, pv, base, d0, u);
      var neighbours := graph[u];
      var k := 0;
      while k < |neighbours|
        invariant k <= |neighbours|
        invariant pairU[..] == pu && pairV[..] == pv && dist[u] == d0[u]
        invariant Trying(graph, pu, pv, base, d0, dist[..], u, k)
      {
        ghost var d := dist[..];
        TryEdge(graph, pu, pv, base, d0, d, u, k);
        var v := neighbours[k];
        var uBack := pairV[v];
        if dist[uBack] == dist[u] + 1 {
          var deeper := Dfs(uBack, base);
          if deeper {
            ghost var pu', pv' := pairU[..], pairV[..];
            TryFound(graph, pu, pv, base, d0, d, u, k, pu', pv', dist[..]);
            LayersStay(graph, pu, pv, base, d0, d, u, k, pv', dist[..]);
            pairV[v] := u;
            pairU[u] := v;
            assert pairU[..] == pu'[u := v] && pairV[..] == pv'[v := u];
            return true;
          }
        }
        TryNext(graph, pu, pv, base, d0, d, dist[..], u, k);
        k := k + 1;
        TryLayer(graph, pu, pv, base, d0, dist[..], u, k);
      }
      ghost var d := dist[..];
      TryEnd(graph, pu, pv, base, d0, d, u);
      dist[u] := INF;
      assert dist[..] == d[u := INF];
      return false;
    }

    // The searches of one phase. They match another vertex, and leave no walk to the dummy that is as
    // short as the ones before.
    method RunPhase()
      requires Valid() && numMatched == |Matched(graph, pairU[..])| && dist[size] != INF
      requires IsLayering(graph, pairU[..], pairV[..], dist[..]) && Settled(graph, pairV[..], dist[..], [], size)
      modifies this, pairU, pairV, dist
      ensures Valid() && old(numMatched) < numMatched == |Matched(graph, pairU[..])| <= size
      ensures NoWalkUpTo(graph, pairU[..], pairV[..], old(dist[size]))
    {
      hide Consistent, IsLayering, Pruned, Settled, Rewired, IsGraph, Touches, FreshRoots, SpentRoots, NoWalkUpTo;
      ghost var layers, before := dist[..], numMatched;
      LayeringIsPruned(graph, pairU[..], pairV[..], layers);
      MatchedWithin(graph, pairU[..]);
      var u := 0;
      while u < size
        invariant u <= size && Valid()
        invariant before <= numMatched == |Matched(graph, pairU[..])| <= size
        invariant Pruned(graph, pairV[..], layers, dist[..]) && Settled(graph, pairV[..], layers, [], size)
        invariant FreshRoots(size, pairU[..], dist[..], u) && SpentRoots(size, pairU[..], dist[..], u)
        invariant FreshRoots(size, pairU[..], layers, 0)
        invariant numMatched == before ==> IsLayering(graph, pairU[..], pairV[..], layers)
      {
        ghost var pu, d := pairU[..], dist[..];
        NextRoot(size, pu, d, u);
        if pairU[u] == size {
          var found := Dfs(u, layers);
          RootTouches(size, u, pu, d, pairU[..], dist[..], layers);
          if found {
            RootMatched(graph, u, pu, d, pairU[..], dist[..]);
            numMatched := numMatched + 1;
          }
        }
        u := u + 1;
      }
      if numMatched == before {
        PhaseProgress(graph, pairU[..], pairV[..], layers, dist[..]);
      }
      PhaseLengthens(graph, pairU[..], pairV[..], layers, dist[..]);
    }

    // Phases of layering and searching until the dummy is out of reach. Every phase adds a match, and
    // the shortest walk to the dummy is longer in every phase than in the one before.
    method CanMatchAll() returns (all: bool, ghost lengths: seq<u16>)
      requires Valid() && numMatched == 0
      requires forall u :: 0 <= u < size ==> pairU[u] == size
      modifies this, pairU, pairV, dist
      ensures Valid()
      ensures all ==> IsPerfectMatching(graph, pairU[..size])
      ensures !all ==> IsHallViolator(graph, set u: nat | u < |graph| && dist[u] != INF)
      ensures |lengths| <= numMatched && forall i, j :: 0 <= i < j < |lengths| ==> lengths[i] < lengths[j]
    {
      hide Consistent, IsLayering, Pruned, Settled, Saturated, IsGraph, Touches, FreshRoots, SpentRoots,
        IsHallViolator, IsPerfectMatching, NoWalkUpTo;
      assert Matched(graph, pairU[..]) == {};
      lengths := [];
      var reached := Bfs();
      while reached
        invariant Valid()
        invariant |lengths| <= numMatched == |Matched(graph, pairU[..])| <= size
        invariant IsLayering(graph, pairU[..], pairV[..], dist[..]) && Settled(graph, pairV[..], dist[..], [], size)
        invariant reached == (dist[size] != INF)
        invariant !reached ==> Saturated(graph, pairV[..], dist[..])
        invariant forall i, j :: 0 <= i < j < |lengths| ==> lengths[i] < lengths[j]
        invariant forall i :: 0 <= i < |lengths| ==> lengths[i] < dist[size]
        decreases INF - dist[size]
      {
        ghost var length := dist[size];
        lengths := lengths + [length];
        RunPhase();
        reached := Bfs();
        NextLayerIsLater(graph, pairU[..], pairV[..], length, dist[..]);
      }
      all := numMatched == size;
      if all {
        FullMatchingIsPerfect(graph, pairU[..], pairV[..]);
      } else {
        ghost var d := dist[..];
        SaturationGivesViolator(graph, pairU[..], pairV[..], d);
        assert (set u: nat | u < |graph| && dist[u] != INF) == (set u: nat | u < |graph| && d[u] != INF);
      }
    }
  }

  // True exactly when all vertices can be matched; a negative answer always has a Hall violator.
  method HopcroftKarpCanMatchAll(bipGraph: seq<seq<u16>>) returns (all: bool)
    requires IsGraph(bipGraph)
    ensures all == HasPerfectMatching(bipGraph)
    ensures all != exists S :: IsHallViolator(bipGraph, S)
  {
    hide IsHallViolator, IsPerfectMatching;
    var matcher := new Matcher(bipGraph);
    ghost var lengths;
    all, lengths := matcher.CanMatchAll();
    forall S, m | IsHallViolator(bipGraph, S) ensures !IsPerfectMatching(bipGraph, m) {
      ViolatorExcludesMatching(bipGraph, S, m);
    }
  }
}
