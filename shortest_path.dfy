/** Dijkstra's single-source shortest path search with a linear-scan frontier
    (dijkstras-algorithm.py, function dijkstra). The graph is seen only through
    its node count, its neighbour lists and its edge costs. */
module ShortestPath {
  import opened WeightedGraph

  /** The graph as dijkstra uses it: the length of graph.nodes, graph.neighbours
      and graph.edge. Node ids are 0 .. count - 1. */
  datatype GraphView = GraphView(count: nat, neighbours: nat -> seq<nat>, edge: (nat, nat) -> nat)

  /** Every neighbour of a node is a node. */
  ghost predicate NeighboursInRange(g: GraphView) {
    forall v, w | 0 <= v < g.count && w in g.neighbours(v) :: w < g.count
  }

  /** A tentative distance; Inf plays the role of float("inf"), "not reached". */
  datatype Dist = Inf | Fin(value: nat)

  /** Addition of a cost, with Inf + c == Inf. */
  function Plus(d: Dist, c: nat): Dist {
    if d.Inf? then Inf else Fin(d.value + c)
  }

  /** a < b on distances. */
  predicate Below(a: Dist, b: Dist) {
    a.Fin? && (b.Inf? || a.value < b.value)
  }

  /** a <= b on distances. */
  predicate AtMost(a: Dist, b: Dist) {
    b.Inf? || (a.Fin? && a.value <= b.value)
  }

  /** (dist[a], a) <= (dist[b], b) in the lexicographic order Python's min uses on tuples. */
  predicate Precedes(dist: seq<Dist>, a: nat, b: nat)
    requires a < |dist| && b < |dist|
  {
    Below(dist[a], dist[b]) || (dist[a] == dist[b] && a <= b)
  }

  // ----- Walks ---------------------------------------------------------------

  /** q is a non-empty walk: every step goes from a node to one of its neighbours. */
  ghost predicate IsWalk(g: GraphView, q: seq<nat>) {
    && |q| >= 1
    && (forall i | 0 <= i < |q| :: q[i] < g.count)
    && (forall i | 0 <= i < |q| - 1 :: q[i + 1] in g.neighbours(q[i]))
  }

  ghost predicate WalkBetween(g: GraphView, q: seq<nat>, a: nat, b: nat) {
    IsWalk(g, q) && q[0] == a && q[|q| - 1] == b
  }

  ghost predicate Reachable(g: GraphView, a: nat, b: nat) {
    exists q :: WalkBetween(g, q, a, b)
  }

  /** The sum of the edge costs along q. */
  function Cost(g: GraphView, q: seq<nat>): nat
    decreases |q|
  {
    if |q| <= 1 then 0 else Cost(g, q[..|q| - 1]) + g.edge(q[|q| - 2], q[|q| - 1])
  }

  ghost predicate NoRepeats(s: seq<nat>) {
    forall i, j | 0 <= i < j < |s| :: s[i] != s[j]
  }

  // ----- The unvisited list ----------------------------------------------------

  /** list.index: the position of the first occurrence of x. */
  function IndexOf(s: seq<nat>, x: nat): (i: nat)
    requires x in s
    ensures i < |s| && s[i] == x && x !in s[..i]
  {
    if s[0] == x then 0
    else
      var i := 1 + IndexOf(s[1..], x);
      assert s[..i] == [s[0]] + s[1..][..i - 1];
      i
  }

  /** list.remove: drop the first occurrence of x, keep the rest in order. */
  function Remove(s: seq<nat>, x: nat): (r: seq<nat>)
    requires x in s
    ensures |r| == |s| - 1
    ensures multiset(r) == multiset(s) - multiset{x}
  {
    var i := IndexOf(s, x);
    assert s == s[..i] + [x] + s[i + 1..];
    s[..i] + s[i + 1..]
  }

  /** Position k of Remove(s, x) holds the k-th node of s that is not the removed one. */
  lemma RemoveAt(s: seq<nat>, x: nat, k: nat)
    requires x in s && k < |s| - 1
    ensures Remove(s, x)[k] == s[if k < IndexOf(s, x) then k else k + 1]
  {
  }

  /** Removing a node from a list without repeats leaves a list without
      repeats that holds exactly the other nodes. */
  lemma {:induction false} RemoveFromDistinct(s: seq<nat>, x: nat)
    requires x in s && NoRepeats(s)
    ensures NoRepeats(Remove(s, x))
    ensures forall v :: v in Remove(s, x) <==> v in s && v != x
  {
    var i := IndexOf(s, x);
    var r := Remove(s, x);
    forall a, b | 0 <= a < b < |r| ensures r[a] != r[b] {
      RemoveAt(s, x, a);
      RemoveAt(s, x, b);
    }
    forall v ensures v in r <==> v in s && v != x {
      if v in r {
        var k :| 0 <= k < |r| && r[k] == v;
        RemoveAt(s, x, k);
        assert s[i] == x;
      }
      if v in s && v != x {
        var k :| 0 <= k < |s| && s[k] == v;
        assert k != i;
        if k < i {
          RemoveAt(s, x, k);
        } else {
          RemoveAt(s, x, k - 1);
        }
      }
    }
  }

  // ----- One iteration -----------------------------------------------------------

  /** The lexicographic minimum of (distance, id) over the unvisited nodes. */
  method SelectMin(unvisited: seq<nat>, dist: seq<Dist>) returns (current: nat)
    requires |unvisited| > 0
    requires forall i | 0 <= i < |unvisited| :: unvisited[i] < |dist|
    ensures current in unvisited
    ensures forall v | v in unvisited :: Precedes(dist, current, v)
  {
    current := unvisited[0];
    var i := 1;
    while i < |unvisited|
      invariant 1 <= i <= |unvisited|
      invariant current in unvisited[..i]
      invariant forall j | 0 <= j < i :: Precedes(dist, current, unvisited[j])
    {
      var v := unvisited[i];
      if Below(dist[v], dist[current]) || (dist[v] == dist[current] && v < current) {
        current := v;
      }
      assert unvisited[..i + 1] == unvisited[..i] + [v];
      i := i + 1;
    }
    assert unvisited[..i] == unvisited;
  }

  /** Whether scanning the neighbours of current lowers dist[v]: v is still
      unvisited, is a neighbour of current, and the candidate is strictly smaller. */
  predicate Improves(g: GraphView, current: nat, unvisited: seq<nat>, dist: seq<Dist>, v: nat)
    requires current < |dist| && v < |dist|
  {
    v in unvisited && v in g.neighbours(current) && Below(Plus(dist[current], g.edge(current, v)), dist[v])
  }

  /** The distances and predecessors after relaxing the neighbours of current. */
  ghost predicate RelaxedFrom(g: GraphView, current: nat, unvisited: seq<nat>,
                              dist: seq<Dist>, previous: seq<Option<nat>>,
                              dist': seq<Dist>, previous': seq<Option<nat>>)
    requires current < |dist| == |previous| == |dist'| == |previous'|
  {
    forall v | 0 <= v < |dist| ::
      if Improves(g, current, unvisited, dist, v)
      then dist'[v] == Plus(dist[current], g.edge(current, v)) && previous'[v] == Some(current)
      else dist'[v] == dist[v] && previous'[v] == previous[v]
  }

  /** The neighbour loop: only unvisited neighbours are relaxed, a distance
      changes only to a strictly smaller candidate, and then the predecessor
      becomes current. */
  method Relax(g: GraphView, current: nat, unvisited: seq<nat>, dist: seq<Dist>, previous: seq<Option<nat>>)
    returns (dist': seq<Dist>, previous': seq<Option<nat>>)
    requires current < |dist| == |previous|
    requires forall w | w in g.neighbours(current) :: w < |dist|
    ensures |dist'| == |dist| && |previous'| == |previous|
    ensures RelaxedFrom(g, current, unvisited, dist, previous, dist', previous')
    ensures forall v | 0 <= v < |dist| :: AtMost(dist'[v], dist[v])
    ensures forall v | 0 <= v < |dist| && v !in unvisited :: dist'[v] == dist[v] && previous'[v] == previous[v]
  {
    dist', previous' := dist, previous;
    var ns := g.neighbours(current);
    for i := 0 to |ns|
      invariant |dist'| == |dist| && |previous'| == |previous|
      invariant forall v | 0 <= v < |dist| ::
        if v in ns[..i] && Improves(g, current, unvisited, dist, v)
        then dist'[v] == Plus(dist[current], g.edge(current, v)) && previous'[v] == Some(current)
        else dist'[v] == dist[v] && previous'[v] == previous[v]
    {
      assert dist'[current] == dist[current];
      var neighbor := ns[i];
      assert neighbor in g.neighbours(current);
      if neighbor in unvisited {
        var candidate := Plus(dist'[current], g.edge(current, neighbor));
        if Below(candidate, dist'[neighbor]) {
          dist' := dist'[neighbor := candidate];
          previous' := previous'[neighbor := Some(current)];
        }
      }
      assert ns[..i + 1] == ns[..i] + [neighbor];
    }
    assert ns[..|ns|] == ns;
  }

  /** Walk the predecessor links back from destination until a node without
      one; the nodes come out destination first. The ghost rank (the order in
      which nodes were finalised) decreases along every link, so the walk ends
      and visits no node twice. */
  method WalkBack(previous: seq<Option<nat>>, destination: nat, ghost rank: seq<nat>) returns (back: seq<nat>)
    requires destination < |previous| == |rank|
    requires forall v | 0 <= v < |previous| && previous[v].Some? ::
      previous[v].value < |previous| && rank[previous[v].value] < rank[v]
    ensures |back| >= 1 && back[0] == destination
    ensures forall i | 0 <= i < |back| :: back[i] < |previous|
    ensures previous[back[|back| - 1]] == None
    ensures forall i | 0 <= i < |back| - 1 :: previous[back[i]] == Some(back[i + 1])
    ensures NoRepeats(back)
  {
    back := [];
    var prev: Option<nat> := Some(destination);
    while prev.Some?
      invariant prev.Some? ==> prev.value < |previous|
      invariant forall i | 0 <= i < |back| :: back[i] < |previous|
      invariant |back| == 0 ==> prev == Some(destination)
      invariant |back| > 0 ==> back[0] == destination && previous[back[|back| - 1]] == prev
      invariant forall i | 0 <= i < |back| - 1 :: previous[back[i]] == Some(back[i + 1])
      invariant forall i, j | 0 <= i < j < |back| :: rank[back[j]] < rank[back[i]]
      invariant prev.Some? ==> forall i | 0 <= i < |back| :: rank[prev.value] < rank[back[i]]
      decreases if prev.Some? then rank[prev.value] + 1 else 0
    {
      back := back + [prev.value];
      prev := previous[prev.value];
    }
  }

  // ----- The search invariant ------------------------------------------------------

  /** The unvisited list holds distinct nodes. */
  ghost predicate Frontier(g: GraphView, unvisited: seq<nat>) {
    && (forall i | 0 <= i < |unvisited| :: unvisited[i] < g.count)
    && NoRepeats(unvisited)
  }

  /** A predecessor link u -> v: u is finalised, v is a neighbour of u, v's
      distance is u's plus the edge, and u was finalised before v. */
  ghost predicate LinkOk(g: GraphView, unvisited: seq<nat>, dist: seq<Dist>, rank: seq<nat>, u: nat, v: nat)
    requires v < |dist| == |rank| == g.count
  {
    && u < g.count && u !in unvisited
    && v in g.neighbours(u)
    && dist[u].Fin? && dist[v] == Plus(dist[u], g.edge(u, v))
    && rank[u] < rank[v]
  }

  ghost predicate Linked(g: GraphView, unvisited: seq<nat>, dist: seq<Dist>, previous: seq<Option<nat>>, rank: seq<nat>)
    requires |dist| == |previous| == |rank| == g.count
  {
    forall v | 0 <= v < g.count && previous[v].Some? :: LinkOk(g, unvisited, dist, rank, previous[v].value, v)
  }

  /** Every finalised node has relaxed all its neighbours, and no finalised
      node is further than an unvisited one. */
  ghost predicate Settled(g: GraphView, unvisited: seq<nat>, dist: seq<Dist>)
    requires |dist| == g.count && NeighboursInRange(g)
  {
    && (forall x, y | 0 <= x < g.count && x !in unvisited && y in g.neighbours(x) ::
          AtMost(dist[y], Plus(dist[x], g.edge(x, y))))
    && (forall x, y | 0 <= x < g.count && 0 <= y < g.count && x !in unvisited && y in unvisited ::
          AtMost(dist[x], dist[y]))
  }

  /** The source is at distance 0 with no predecessor, it is the only reached
      node without one, and until it is finalised nothing else is reached. */
  ghost predicate Anchored(g: GraphView, source: nat, unvisited: seq<nat>, dist: seq<Dist>, previous: seq<Option<nat>>)
    requires source < |dist| == |previous| == g.count
  {
    && dist[source] == Fin(0) && previous[source] == None
    && (forall v | 0 <= v < g.count && previous[v].None? && dist[v].Fin? :: v == source)
    && (source in unvisited ==> forall v | 0 <= v < g.count && v != source :: dist[v] == Inf)
  }

  /** Finalised nodes carry their finalisation step, unvisited ones count. */
  ghost predicate Ranked(g: GraphView, unvisited: seq<nat>, rank: seq<nat>, step: nat)
    requires |rank| == g.count
  {
    && step + |unvisited| == g.count
    && (forall v | 0 <= v < g.count :: if v in unvisited then rank[v] == g.count else rank[v] < step)
  }

  ghost predicate SearchInv(g: GraphView, source: nat, destination: nat, unvisited: seq<nat>,
                            dist: seq<Dist>, previous: seq<Option<nat>>, rank: seq<nat>, step: nat)
  {
    && NeighboursInRange(g)
    && source < g.count
    && |dist| == |previous| == |rank| == g.count
    && Frontier(g, unvisited)
    && Linked(g, unvisited, dist, previous, rank)
    && Settled(g, unvisited, dist)
    && Anchored(g, source, unvisited, dist, previous)
    && Ranked(g, unvisited, rank, step)
    && (destination < g.count ==> destination in unvisited)
  }

  lemma InitialInv(g: GraphView, source: nat, destination: nat)
    requires NeighboursInRange(g) && source < g.count
    ensures SearchInv(g, source, destination, seq(g.count, i => i),
                      seq(g.count, _ => Inf)[source := Fin(0)], seq(g.count, _ => None),
                      seq(g.count, _ => g.count), 0)
  {
    var unvisited: seq<nat> := seq(g.count, i => i);
    forall v | 0 <= v < g.count ensures v in unvisited {
      assert unvisited[v] == v;
    }
  }

  /** Finalising current after relaxing its neighbours keeps Settled. */
  lemma StepSettled(g: GraphView, unvisited: seq<nat>, dist: seq<Dist>, previous: seq<Option<nat>>,
                    current: nat, dist': seq<Dist>, previous': seq<Option<nat>>)
    requires NeighboursInRange(g) && |dist| == |previous| == |dist'| == |previous'| == g.count
    requires Frontier(g, unvisited) && Settled(g, unvisited, dist)
    requires current in unvisited
    requires forall v | v in unvisited :: v < |dist| && Precedes(dist, current, v)
    requires RelaxedFrom(g, current, unvisited, dist, previous, dist', previous')
    ensures Settled(g, Remove(unvisited, current), dist')
  {
    var n := g.count;
    var unvisited' := Remove(unvisited, current);
    RemoveFromDistinct(unvisited, current);
    assert current < n;
    assert forall v | v in unvisited :: AtMost(dist[current], dist[v]);
    forall v | 0 <= v < n && (v !in unvisited || v == current)
      ensures dist'[v] == dist[v]
    {
    }
    forall y | 0 <= y < n && y in unvisited
      ensures AtMost(dist[current], dist'[y])
    {
    }
    forall x, y | 0 <= x < n && x !in unvisited' && y in g.neighbours(x)
      ensures AtMost(dist'[y], Plus(dist'[x], g.edge(x, y)))
    {
      if x == current {
        if !(y in unvisited) {
          assert AtMost(dist[y], dist[current]);
        }
      } else {
        assert x !in unvisited;
      }
    }
    forall x, y | 0 <= x < n && 0 <= y < n && x !in unvisited' && y in unvisited'
      ensures AtMost(dist'[x], dist'[y])
    {
      assert AtMost(dist[current], dist'[y]);
      if x != current {
        assert AtMost(dist[x], dist[current]);
      }
    }
  }

  /** Finalising current after relaxing its neighbours keeps every predecessor link sound. */
  lemma StepLinked(g: GraphView, unvisited: seq<nat>, dist: seq<Dist>, previous: seq<Option<nat>>,
                   rank: seq<nat>, step: nat, current: nat, dist': seq<Dist>, previous': seq<Option<nat>>)
    requires NeighboursInRange(g) && |dist| == |previous| == |rank| == |dist'| == |previous'| == g.count
    requires Frontier(g, unvisited) && Linked(g, unvisited, dist, previous, rank)
    requires Ranked(g, unvisited, rank, step)
    requires current in unvisited
    requires forall v | v in unvisited :: v < |dist| && Precedes(dist, current, v)
    requires RelaxedFrom(g, current, unvisited, dist, previous, dist', previous')
    ensures Linked(g, Remove(unvisited, current), dist', previous', rank[current := step])
  {
    var n := g.count;
    var unvisited' := Remove(unvisited, current);
    var rank' := rank[current := step];
    RemoveFromDistinct(unvisited, current);
    assert current < n;
    forall v | 0 <= v < n && previous'[v].Some?
      ensures LinkOk(g, unvisited', dist', rank', previous'[v].value, v)
    {
      if Improves(g, current, unvisited, dist, v) {
        assert v in unvisited && v != current;
      } else {
        var u := previous[v].value;
        assert LinkOk(g, unvisited, dist, rank, u, v);
        assert u !in unvisited;
      }
    }
  }

  /** One iteration that finalises current (not the destination) keeps the invariant. */
  lemma {:induction false} StepInv(g: GraphView, source: nat, destination: nat, unvisited: seq<nat>,
                                   dist: seq<Dist>, previous: seq<Option<nat>>, rank: seq<nat>, step: nat,
                                   current: nat, dist': seq<Dist>, previous': seq<Option<nat>>)
    requires SearchInv(g, source, destination, unvisited, dist, previous, rank, step)
    requires current in unvisited && current != destination
    requires forall v | v in unvisited :: v < |dist| && Precedes(dist, current, v)
    requires |dist'| == |previous'| == g.count
    requires RelaxedFrom(g, current, unvisited, dist, previous, dist', previous')
    ensures SearchInv(g, source, destination, Remove(unvisited, current), dist', previous',
                      rank[current := step], step + 1)
  {
    var n := g.count;
    var unvisited' := Remove(unvisited, current);
    var rank' := rank[current := step];
    RemoveFromDistinct(unvisited, current);
    assert current < n;
    // nothing finalised moves, and current keeps its distance
    forall v | 0 <= v < n && (v !in unvisited || v == current)
      ensures dist'[v] == dist[v] && previous'[v] == previous[v]
    {
    }
    // source
    if source in unvisited {
      assert Precedes(dist, current, source);
      assert current == source;
    }
    assert Anchored(g, source, unvisited', dist', previous');
    StepLinked(g, unvisited, dist, previous, rank, step, current, dist', previous');
    StepSettled(g, unvisited, dist, previous, current, dist', previous');
    assert Ranked(g, unvisited', rank', step + 1);
  }

  /** For the node u about to be finalised (the closest unvisited one), every
      walk from the source costs at least dist of its end if that end is
      finalised, and at least dist[u] otherwise. */
  lemma {:induction false} WalkBound(g: GraphView, source: nat, unvisited: seq<nat>, dist: seq<Dist>, u: nat, q: seq<nat>)
    requires NeighboursInRange(g) && |dist| == g.count && source < g.count
    requires Settled(g, unvisited, dist)
    requires source !in unvisited && dist[source] == Fin(0)
    requires u < g.count && u in unvisited
    requires forall v | 0 <= v < g.count && v in unvisited :: AtMost(dist[u], dist[v])
    requires IsWalk(g, q) && q[0] == source
    ensures q[|q| - 1] !in unvisited ==> AtMost(dist[q[|q| - 1]], Fin(Cost(g, q)))
    ensures q[|q| - 1] in unvisited ==> AtMost(dist[u], Fin(Cost(g, q)))
    decreases |q|
  {
    if |q| > 1 {
      var q' := q[..|q| - 1];
      assert IsWalk(g, q') by {
        forall i | 0 <= i < |q'| - 1 ensures q'[i + 1] in g.neighbours(q'[i]) {
          assert q'[i] == q[i] && q'[i + 1] == q[i + 1];
        }
      }
      WalkBound(g, source, unvisited, dist, u, q');
      var x, y := q[|q| - 2], q[|q| - 1];
      assert q'[|q'| - 1] == x;
      assert y in g.neighbours(x);
      assert Cost(g, q) == Cost(g, q') + g.edge(x, y);
      if x !in unvisited {
        assert AtMost(dist[y], Plus(dist[x], g.edge(x, y)));
      }
    }
  }

  /** Along a chain of predecessor links, each distance is the previous one
      plus the edge, so the last distance is the first plus the chain's cost. */
  lemma {:induction false} ChainCost(g: GraphView, dist: seq<Dist>, p: seq<nat>)
    requires |p| >= 1 && forall i | 0 <= i < |p| :: p[i] < |dist|
    requires forall i | 0 <= i < |p| - 1 :: dist[p[i + 1]] == Plus(dist[p[i]], g.edge(p[i], p[i + 1]))
    ensures dist[p[|p| - 1]] == Plus(dist[p[0]], Cost(g, p))
    decreases |p|
  {
    if |p| > 1 {
      var p' := p[..|p| - 1];
      ChainCost(g, dist, p');
    }
  }

  // ----- dijkstra -------------------------------------------------------------------

  /** dijkstra(graph, source, destination). None when destination is not a
      node: the loop then empties the unvisited list and the function falls
      off its end. Otherwise the returned path is a walk that ends at
      destination and repeats no node; it starts at source exactly when
      destination is reachable, and is then no costlier than any walk from
      source to destination; an unreachable destination gives [destination]. */
  method Dijkstra(g: GraphView, source: nat, destination: nat) returns (path: Option<seq<nat>>)
    requires source < g.count
    requires NeighboursInRange(g)
    ensures path.Some? <==> destination < g.count
    ensures path.Some? ==>
      && IsWalk(g, path.value) && path.value[|path.value| - 1] == destination && NoRepeats(path.value)
      && (path.value[0] == source <==> Reachable(g, source, destination))
      && (!Reachable(g, source, destination) ==> path.value == [destination])
    ensures path.Some? && path.value[0] == source ==>
      forall q | WalkBetween(g, q, source, destination) :: Cost(g, path.value) <= Cost(g, q)
    ensures source == destination ==> path == Some([source])
  {
    var n := g.count;
    var unvisited: seq<nat> := seq(n, i => i);
    var dist: seq<Dist> := seq(n, _ => Inf);
    var previous: seq<Option<nat>> := seq(n, _ => None);
    dist := dist[source := Fin(0)];
    ghost var rank: seq<nat> := seq(n, _ => n);
    ghost var step: nat := 0;
    InitialInv(g, source, destination);

    while |unvisited| != 0
      invariant SearchInv(g, source, destination, unvisited, dist, previous, rank, step)
      decreases |unvisited|
    {
      var current := SelectMin(unvisited, dist);
      if current == destination {
        var back := WalkBack(previous, destination, rank);
        var p := seq(|back|, i requires 0 <= i < |back| => back[|back| - 1 - i]);
        PathFound(g, source, destination, unvisited, dist, previous, rank, step, back, p);
        return Some(p);
      }
      var dist', previous' := Relax(g, current, unvisited, dist, previous);
      StepInv(g, source, destination, unvisited, dist, previous, rank, step, current, dist', previous');
      dist, previous := dist', previous';
      unvisited := Remove(unvisited, current);
      rank := rank[current := step];
      step := step + 1;
    }
    return None;
  }

  /** When destination is the closest unvisited node, no walk from the source
      to it is shorter than its distance. */
  lemma NoCheaperWalk(g: GraphView, source: nat, destination: nat, unvisited: seq<nat>,
                      dist: seq<Dist>, previous: seq<Option<nat>>, rank: seq<nat>, step: nat)
    requires SearchInv(g, source, destination, unvisited, dist, previous, rank, step)
    requires destination in unvisited
    requires forall v | v in unvisited :: v < |dist| && Precedes(dist, destination, v)
    ensures forall q | WalkBetween(g, q, source, destination) :: AtMost(dist[destination], Fin(Cost(g, q)))
  {
    forall q | WalkBetween(g, q, source, destination)
      ensures AtMost(dist[destination], Fin(Cost(g, q)))
    {
      if source in unvisited {
        assert Precedes(dist, destination, source);
      } else {
        WalkBound(g, source, unvisited, dist, destination, q);
      }
    }
  }

  /** Reversing the predecessor walk gives a walk along links, without repeats. */
  lemma ReversedChain(g: GraphView, unvisited: seq<nat>, dist: seq<Dist>, previous: seq<Option<nat>>,
                      rank: seq<nat>, back: seq<nat>, p: seq<nat>)
    requires |dist| == |previous| == |rank| == g.count
    requires Linked(g, unvisited, dist, previous, rank)
    requires |back| >= 1
    requires forall i | 0 <= i < |back| :: back[i] < |previous|
    requires forall i | 0 <= i < |back| - 1 :: previous[back[i]] == Some(back[i + 1])
    requires NoRepeats(back)
    requires |p| == |back| && forall i | 0 <= i < |p| :: p[i] == back[|back| - 1 - i]
    ensures IsWalk(g, p) && NoRepeats(p)
    ensures forall i | 0 <= i < |p| - 1 :: dist[p[i + 1]] == Plus(dist[p[i]], g.edge(p[i], p[i + 1]))
  {
    forall i | 0 <= i < |p| - 1
      ensures LinkOk(g, unvisited, dist, rank, p[i], p[i + 1])
    {
      var j := |back| - 2 - i;
      assert p[i + 1] == back[j] && p[i] == back[j + 1];
      assert previous[p[i + 1]] == Some(p[i]);
    }
    forall i, j | 0 <= i < j < |p| ensures p[i] != p[j] {
      assert p[i] == back[|back| - 1 - i] && p[j] == back[|back| - 1 - j];
    }
  }

  /** When destination is selected, the reversed predecessor walk meets
      dijkstra's promises. */
  lemma PathFound(g: GraphView, source: nat, destination: nat, unvisited: seq<nat>,
                  dist: seq<Dist>, previous: seq<Option<nat>>, rank: seq<nat>, step: nat,
                  back: seq<nat>, p: seq<nat>)
    requires SearchInv(g, source, destination, unvisited, dist, previous, rank, step)
    requires destination in unvisited
    requires forall v | v in unvisited :: v < |dist| && Precedes(dist, destination, v)
    requires |back| >= 1 && back[0] == destination
    requires forall i | 0 <= i < |back| :: back[i] < |previous|
    requires previous[back[|back| - 1]] == None
    requires forall i | 0 <= i < |back| - 1 :: previous[back[i]] == Some(back[i + 1])
    requires NoRepeats(back)
    requires |p| == |back| && forall i | 0 <= i < |p| :: p[i] == back[|back| - 1 - i]
    ensures IsWalk(g, p) && p[|p| - 1] == destination && NoRepeats(p)
    ensures p[0] == source <==> Reachable(g, source, destination)
    ensures !Reachable(g, source, destination) ==> p == [destination]
    ensures p[0] == source ==> forall q | WalkBetween(g, q, source, destination) :: Cost(g, p) <= Cost(g, q)
    ensures source == destination ==> p == [source]
  {
    ReversedChain(g, unvisited, dist, previous, rank, back, p);
    ChainCost(g, dist, p);
    NoCheaperWalk(g, source, destination, unvisited, dist, previous, rank, step);
    assert p[|p| - 1] == destination && p[0] == back[|back| - 1];
    if dist[destination].Fin? {
      assert dist[p[0]].Fin?;
      assert p[0] == source;
      assert WalkBetween(g, p, source, destination);
    } else {
      assert p == [destination];
    }
  }
}
