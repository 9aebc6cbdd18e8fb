/** The test graph of dijkstras-algorithm.py (main): ten nodes added with
    addNode, so graph.nodes is [0, ..., 10], and fourteen undirected edges.
    Its expected paths follow from Dijkstra's contract because each of them is
    the only cheapest walk: a potential (a lower bound on the distance from
    the source that no edge can beat) that is tight along the expected path
    and nowhere else leaves no other choice. */
module DijkstraHarness {
  import opened WeightedGraph
  import opened ShortestPath

  // ----- Unique cheapest walks -------------------------------------------------------

  /** No edge x -> y out of x shortcuts P: P[y] <= P[x] + cost. */
  ghost predicate PotentialAt(g: GraphView, P: seq<nat>, x: nat)
    requires |P| == g.count && x < g.count
  {
    forall y | y in g.neighbours(x) :: y < g.count && P[y] <= P[x] + g.edge(x, y)
  }

  /** No edge shortcuts P. */
  ghost predicate Potential(g: GraphView, P: seq<nat>)
    requires |P| == g.count
  {
    forall x | 0 <= x < g.count :: PotentialAt(g, P, x)
  }

  /** T starts where P is 0 and every edge of T is tight for P. */
  ghost predicate TightChain(g: GraphView, P: seq<nat>, T: seq<nat>)
    requires |P| == g.count
  {
    && |T| >= 1
    && (forall i | 0 <= i < |T| :: T[i] < g.count)
    && P[T[0]] == 0
    && (forall i | 0 < i < |T| :: T[i] != T[0])
    && (forall i | 0 <= i < |T| - 1 :: TightEdge(g, P, T[i], T[i + 1]))
  }

  /** a -> b is an edge along which P grows by exactly its cost. */
  ghost predicate TightEdge(g: GraphView, P: seq<nat>, a: nat, b: nat)
    requires |P| == g.count && a < g.count && b < g.count
  {
    b in g.neighbours(a) && P[b] == P[a] + g.edge(a, b)
  }

  /** No edge into T's start is tight. */
  ghost predicate NoFreeEntry(g: GraphView, P: seq<nat>, T: seq<nat>)
    requires |P| == g.count && |T| >= 1
  {
    forall x | 0 <= x < g.count && T[0] in g.neighbours(x) :: P[x] + g.edge(x, T[0]) > 0
  }

  /** Every later node of T has the node before it as its only tight predecessor. */
  ghost predicate OnlyTightPredecessors(g: GraphView, P: seq<nat>, T: seq<nat>)
    requires |P| == g.count
  {
    forall i, x | 0 < i < |T| && T[i] < g.count && 0 <= x < g.count && T[i] in g.neighbours(x) &&
                  P[x] + g.edge(x, T[i]) <= P[T[i]] :: x == T[i - 1]
  }

  /** T is the only walk from its start along which P is tight. */
  ghost predicate TightPath(g: GraphView, P: seq<nat>, T: seq<nat>)
    requires |P| == g.count
  {
    TightChain(g, P, T) && NoFreeEntry(g, P, T) && OnlyTightPredecessors(g, P, T)
  }

  /** Dropping the last node of a walk leaves a walk with the same start. */
  lemma WalkPrefix(g: GraphView, q: seq<nat>)
    requires IsWalk(g, q) && |q| > 1
    ensures IsWalk(g, q[..|q| - 1])
    ensures q[..|q| - 1][0] == q[0] && q[..|q| - 1][|q| - 2] == q[|q| - 2]
  {
  }

  /** The last node of a walk is reached over an edge, whose cost is the last term of Cost. */
  lemma LastEdge(g: GraphView, q: seq<nat>)
    requires IsWalk(g, q) && |q| > 1
    ensures q[|q| - 1] in g.neighbours(q[|q| - 2])
    ensures Cost(g, q) == Cost(g, q[..|q| - 1]) + g.edge(q[|q| - 2], q[|q| - 1])
    ensures q == q[..|q| - 1] + [q[|q| - 1]]
  {
  }

  /** Along any walk, P grows by at most the cost walked. */
  lemma {:induction false} PotentialAlongWalk(g: GraphView, P: seq<nat>, q: seq<nat>)
    requires |P| == g.count && Potential(g, P) && IsWalk(g, q)
    ensures P[q[|q| - 1]] <= P[q[0]] + Cost(g, q)
    decreases |q|
  {
    if |q| > 1 {
      WalkPrefix(g, q);
      LastEdge(g, q);
      PotentialAlongWalk(g, P, q[..|q| - 1]);
      assert PotentialAt(g, P, q[|q| - 2]);
    }
  }

  /** A tight path costs exactly the potential at its end. */
  lemma {:induction false} TightPathCost(g: GraphView, P: seq<nat>, T: seq<nat>, j: nat)
    requires |P| == g.count && TightPath(g, P, T) && j < |T|
    ensures Cost(g, T[..j + 1]) == P[T[j]]
  {
    if j > 0 {
      TightPathCost(g, P, T, j - 1);
      assert T[..j + 1][..j] == T[..j];
    }
  }

  /** A walk from T's start to T[j] that costs no more than P[T[j]] is T's prefix. */
  lemma {:induction false} CheapWalkIsTight(g: GraphView, P: seq<nat>, T: seq<nat>, j: nat, q: seq<nat>)
    requires |P| == g.count && Potential(g, P) && TightPath(g, P, T) && j < |T|
    requires WalkBetween(g, q, T[0], T[j]) && Cost(g, q) <= P[T[j]]
    ensures q == T[..j + 1]
    decreases |q|
  {
    if |q| == 1 {
      assert q == [T[0]] == T[..1];
    } else {
      var q' := q[..|q| - 1];
      var x := q[|q| - 2];
      WalkPrefix(g, q);
      LastEdge(g, q);
      PotentialAlongWalk(g, P, q');
      assert P[x] + g.edge(x, T[j]) <= P[T[j]];
      if j > 0 {
        assert x == T[j - 1];
        assert P[T[j]] == P[T[j - 1]] + g.edge(T[j - 1], T[j]);
        CheapWalkIsTight(g, P, T, j - 1, q');
        assert T[..j + 1] == T[..j] + [T[j]];
      }
    }
  }

  /** If T is the only cheapest walk, Dijkstra's contract leaves T as its answer. */
  lemma ForcedPath(g: GraphView, P: seq<nat>, T: seq<nat>, p: seq<nat>)
    requires |P| == g.count && Potential(g, P) && TightPath(g, P, T)
    requires IsWalk(g, p) && p[|p| - 1] == T[|T| - 1]
    requires p[0] == T[0] <==> Reachable(g, T[0], T[|T| - 1])
    requires p[0] == T[0] ==> forall q | WalkBetween(g, q, T[0], T[|T| - 1]) :: Cost(g, p) <= Cost(g, q)
    ensures p == T
  {
    assert IsWalk(g, T);
    assert WalkBetween(g, T, T[0], T[|T| - 1]);
    TightPathCost(g, P, T, |T| - 1);
    assert T[..|T|] == T;
    CheapWalkIsTight(g, P, T, |T| - 1, p);
  }

  // ----- The test graph ----------------------------------------------------------------

  /** The edge list of the test, (a, b, cost), added as undirected edges. */
  const HarnessEdges: seq<(nat, nat, nat)> :=
    [(0, 1, 6), (0, 3, 4), (0, 4, 2), (1, 4, 3), (1, 6, 5), (2, 3, 3), (2, 8, 10),
     (3, 4, 1), (5, 8, 5), (5, 9, 3), (5, 6, 6), (6, 7, 2), (7, 9, 2), (8, 9, 9)]

  /** The edge list read symmetrically, neighbours in increasing id order.
      Node 10 is the extra id that the tenth addNode appends to graph.nodes. */
  function HarnessNeighbours(v: nat): seq<nat> {
    match v
    case 0 => [1, 3, 4]
    case 1 => [0, 4, 6]
    case 2 => [3, 8]
    case 3 => [0, 2, 4]
    case 4 => [0, 1, 3]
    case 5 => [6, 8, 9]
    case 6 => [1, 5, 7]
    case 7 => [6, 9]
    case 8 => [2, 5, 9]
    case 9 => [5, 7, 8]
    case _ => []
  }

  /** The cost of the listed edge between a and b, in either direction. */
  function HarnessCost(a: nat, b: nat): nat {
    if a <= b then Weight(a, b) else Weight(b, a)
  }

  /** The cost of the listed edge between x and y, for x <= y; 0 when there is none. */
  function Weight(x: nat, y: nat): nat {
    match x
    case 0 => if y == 1 then 6 else if y == 3 then 4 else if y == 4 then 2 else 0
    case 1 => if y == 4 then 3 else if y == 6 then 5 else 0
    case 2 => if y == 3 then 3 else if y == 8 then 10 else 0
    case 3 => if y == 4 then 1 else 0
    case 5 => if y == 8 then 5 else if y == 9 then 3 else if y == 6 then 6 else 0
    case 6 => if y == 7 then 2 else 0
    case 7 => if y == 9 then 2 else 0
    case 8 => if y == 9 then 9 else 0
    case _ => 0
  }

  function HarnessGraph(): (g: GraphView)
    ensures g.count == 11
  {
    GraphView(11, HarnessNeighbours, HarnessCost)
  }

  /** Every listed edge is in both neighbour lists, with its cost both ways,
      and the tables hold nothing else (28 entries, two per edge). */
  lemma HarnessTablesMatchEdges()
    ensures forall k | 0 <= k < |HarnessEdges| ::
      var (a, b, c) := HarnessEdges[k];
      b in HarnessNeighbours(a) && a in HarnessNeighbours(b) && HarnessCost(a, b) == c && HarnessCost(b, a) == c
    ensures |HarnessNeighbours(0)| + |HarnessNeighbours(1)| + |HarnessNeighbours(2)| + |HarnessNeighbours(3)|
          + |HarnessNeighbours(4)| + |HarnessNeighbours(5)| + |HarnessNeighbours(6)| + |HarnessNeighbours(7)|
          + |HarnessNeighbours(8)| + |HarnessNeighbours(9)| + |HarnessNeighbours(10)| == 2 * |HarnessEdges|
  {
    forall k | 0 <= k < |HarnessEdges|
      ensures var (a, b, c) := HarnessEdges[k];
        b in HarnessNeighbours(a) && a in HarnessNeighbours(b) && HarnessCost(a, b) == c && HarnessCost(b, a) == c
    {
      assert k in {0, 1, 2, 3, 4, 5, 6, 7, 8, 9, 10, 11, 12, 13};
    }
  }

  lemma HarnessInRange()
    ensures NeighboursInRange(HarnessGraph())
  {
  }

  /** Cell [a][b] of m holds cost c. */
  ghost predicate HoldsEdge(m: Matrix, e: (nat, nat, nat)) {
    e.0 < |m| && e.1 < |m[e.0]| && m[e.0][e.1] == Some(e.2)
  }

  /** The first k entries of the edge list, as the graph logs them. */
  function HarnessLog(k: nat): (log: seq<Edge>)
    requires k <= |HarnessEdges|
    ensures |log| == k
  {
    seq(k, j requires 0 <= j < k => Edge(HarnessEdges[j].0, HarnessEdges[j].1, HarnessEdges[j].2))
  }

  /** No two listed edges share a source and a destination. */
  lemma HarnessEdgesDistinct()
    ensures forall j, k | 0 <= j < k < |HarnessEdges| ::
      HarnessEdges[j].0 != HarnessEdges[k].0 || HarnessEdges[j].1 != HarnessEdges[k].1
  {
    forall j, k | 0 <= j < k < |HarnessEdges|
      ensures HarnessEdges[j].0 != HarnessEdges[k].0 || HarnessEdges[j].1 != HarnessEdges[k].1
    {
      assert k in {1, 2, 3, 4, 5, 6, 7, 8, 9, 10, 11, 12, 13};
    }
  }

  /** main's set-up through the Graph class: an undirected graph, ten addNode
      calls, then the fourteen addEdge calls, which all succeed with ids 0..13
      and fill exactly the listed [source][destination] cells. */
  method BuildHarnessGraph() returns (graph: Graph)
    ensures fresh(graph) && graph.Valid() && !graph.directed
    ensures graph.nodes == seq(11, i => i) && |graph.matrix| == 10
    ensures graph.edges == HarnessLog(|HarnessEdges|)
    ensures forall k | 0 <= k < |HarnessEdges| ::
      HoldsEdge(graph.matrix, HarnessEdges[k])
  {
    graph := new Graph(false);
    var ids := AddHarnessNodes(graph);
    AddHarnessEdges(graph);
  }

  /** Ten addNode calls on a fresh graph return 0..9 and leave the node list
      [0..10] over a 10x10 matrix. */
  method AddHarnessNodes(graph: Graph) returns (ids: seq<nat>)
    requires graph.Valid() && graph.nodes == [0] && graph.edges == []
    modifies graph
    ensures ids == seq(10, i => i)
    ensures graph.Valid() && graph.nodes == seq(11, i => i) && |graph.matrix| == 10 && graph.edges == []
  {
    ids := [];
    var i := 0;
    while i < 10
      invariant 0 <= i <= 10
      invariant ids == seq(i, j => j)
      invariant graph.Valid()
      invariant graph.nodes == seq(i + 1, j => j) && graph.edges == []
    {
      var id := graph.AddNode();
      ids := ids + [id];
      i := i + 1;
    }
  }

  /** Every listed edge joins two different nodes below 10. */
  lemma HarnessEdgesInMatrix()
    ensures forall k | 0 <= k < |HarnessEdges| ::
      HarnessEdges[k].0 != HarnessEdges[k].1 && HarnessEdges[k].0 < 10 && HarnessEdges[k].1 < 10
  {
  }

  /** The k-th addEdge of main, (a, b, c), on the matrix and log the first k
      left behind, succeeds with id k at a cell that was empty. */
  lemma HarnessEdgeStep(m: Matrix, log: seq<Edge>, k: nat, a: nat, b: nat, c: nat)
    requires k < |HarnessEdges| && HarnessEdges[k] == (a, b, c) && a != b && a < 10 && b < 10
    requires IsSquare(m) && |m| == 10 && LogMatches(m, log) && log == HarnessLog(k)
    requires forall j | 0 <= j < k :: HoldsEdge(m, HarnessEdges[j])
    ensures var (r, m2, log2) := AddOutcome(m, log, false, a, b, c, false);
      && r == Ok(Single(k)) && log2 == HarnessLog(k + 1) && |m2| == 10
      && forall j | 0 <= j <= k :: HoldsEdge(m2, HarnessEdges[j])
  {
    HarnessEdgesDistinct();
    forall j | 0 <= j < |log| ensures log[j].source != a || log[j].destination != b {
      assert log[j] == Edge(HarnessEdges[j].0, HarnessEdges[j].1, HarnessEdges[j].2);
    }
    assert m[a][b].None?;
    InsertWritesOneCell(m, log, a, b, c);
    assert HarnessLog(k + 1) == HarnessLog(k) + [Edge(a, b, c)];
  }

  /** The fourteen addEdge calls of main on the graph with ten nodes. */
  method AddHarnessEdges(graph: Graph)
    requires graph.Valid() && !graph.directed
    requires graph.nodes == seq(11, i => i) && |graph.matrix| == 10 && graph.edges == []
    modifies graph
    ensures graph.Valid() && graph.nodes == seq(11, i => i) && |graph.matrix| == 10
    ensures graph.edges == HarnessLog(|HarnessEdges|)
    ensures forall k | 0 <= k < |HarnessEdges| ::
      HoldsEdge(graph.matrix, HarnessEdges[k])
  {
    HarnessEdgesInMatrix();
    var k := 0;
    while k < |HarnessEdges|
      invariant 0 <= k <= |HarnessEdges|
      invariant graph.Valid()
      invariant graph.nodes == seq(11, i => i) && |graph.matrix| == 10
      invariant graph.edges == HarnessLog(k)
      invariant forall j | 0 <= j < k ::
        HoldsEdge(graph.matrix, HarnessEdges[j])
    {
      var (a, b, c) := HarnessEdges[k];
      HarnessEdgeStep(graph.matrix, graph.edges, k, a, b, c);
      var r := graph.AddEdge(a, b, c, false);
      k := k + 1;
    }
  }

  /** Distances from node 0. */
  const FromZero: seq<nat> := [0, 5, 6, 3, 2, 16, 10, 12, 16, 14, 0]
  /** Distances from node 2. */
  const FromTwo: seq<nat> := [6, 7, 0, 3, 4, 15, 12, 14, 10, 16, 0]

  /** No edge beats the distances from node 0. */
  lemma FromZeroIsPotential()
    ensures Potential(HarnessGraph(), FromZero)
  {
    forall x | 0 <= x < 11
      ensures forall y | y in HarnessNeighbours(x) :: y < 11 && FromZero[y] <= FromZero[x] + HarnessCost(x, y)
    {
      assert x in {0, 1, 2, 3, 4, 5, 6, 7, 8, 9, 10};
    }
  }

  /** 0, 4, 1, 6, 7, 9 is the only walk along which the distances from 0 are tight. */
  lemma ZeroToNineTight()
    ensures TightPath(HarnessGraph(), FromZero, [0, 4, 1, 6, 7, 9])
  {
    ZeroToNineChain();
    ZeroToNineEntry();
    ZeroToNinePredecessors();
  }

  lemma ZeroToNineChain()
    ensures TightChain(HarnessGraph(), FromZero, [0, 4, 1, 6, 7, 9])
  {
    var g, T := HarnessGraph(), [0, 4, 1, 6, 7, 9];
    forall i | 0 <= i < |T| - 1
      ensures TightEdge(g, FromZero, T[i], T[i + 1])
    {
      assert i in {0, 1, 2, 3, 4};
    }
  }

  lemma ZeroToNineEntry()
    ensures NoFreeEntry(HarnessGraph(), FromZero, [0, 4, 1, 6, 7, 9])
  {
    var T := [0, 4, 1, 6, 7, 9];
    forall x | 0 <= x < 11 && T[0] in HarnessNeighbours(x)
      ensures FromZero[x] + HarnessCost(x, T[0]) > 0
    {
      assert x in {0, 1, 2, 3, 4, 5, 6, 7, 8, 9, 10};
    }
  }

  lemma ZeroToNinePredecessors()
    ensures OnlyTightPredecessors(HarnessGraph(), FromZero, [0, 4, 1, 6, 7, 9])
  {
    var T := [0, 4, 1, 6, 7, 9];
    forall i, x | 0 < i < |T| && T[i] < 11 && 0 <= x < 11 && T[i] in HarnessNeighbours(x) &&
                  FromZero[x] + HarnessCost(x, T[i]) <= FromZero[T[i]]
      ensures x == T[i - 1]
    {
      assert x in {0, 1, 2, 3, 4, 5, 6, 7, 8, 9, 10};
    }
  }

  /** 0, 4, 3, 2, 8 is the only walk along which the distances from 0 are tight. */
  lemma ZeroToEightTight()
    ensures TightPath(HarnessGraph(), FromZero, [0, 4, 3, 2, 8])
  {
    ZeroToEightChain();
    ZeroToEightEntry();
    ZeroToEightPredecessors();
  }

  lemma ZeroToEightChain()
    ensures TightChain(HarnessGraph(), FromZero, [0, 4, 3, 2, 8])
  {
    var g, T := HarnessGraph(), [0, 4, 3, 2, 8];
    forall i | 0 <= i < |T| - 1
      ensures TightEdge(g, FromZero, T[i], T[i + 1])
    {
      assert i in {0, 1, 2, 3};
    }
  }

  lemma ZeroToEightEntry()
    ensures NoFreeEntry(HarnessGraph(), FromZero, [0, 4, 3, 2, 8])
  {
    var T := [0, 4, 3, 2, 8];
    forall x | 0 <= x < 11 && T[0] in HarnessNeighbours(x)
      ensures FromZero[x] + HarnessCost(x, T[0]) > 0
    {
      assert x in {0, 1, 2, 3, 4, 5, 6, 7, 8, 9, 10};
    }
  }

  lemma ZeroToEightPredecessors()
    ensures OnlyTightPredecessors(HarnessGraph(), FromZero, [0, 4, 3, 2, 8])
  {
    var T := [0, 4, 3, 2, 8];
    forall i, x | 0 < i < |T| && T[i] < 11 && 0 <= x < 11 && T[i] in HarnessNeighbours(x) &&
                  FromZero[x] + HarnessCost(x, T[i]) <= FromZero[T[i]]
      ensures x == T[i - 1]
    {
      assert x in {0, 1, 2, 3, 4, 5, 6, 7, 8, 9, 10};
    }
  }

  /** No edge beats the distances from node 2. */
  lemma FromTwoIsPotential()
    ensures Potential(HarnessGraph(), FromTwo)
  {
    forall x | 0 <= x < 11
      ensures forall y | y in HarnessNeighbours(x) :: y < 11 && FromTwo[y] <= FromTwo[x] + HarnessCost(x, y)
    {
      assert x in {0, 1, 2, 3, 4, 5, 6, 7, 8, 9, 10};
    }
  }

  /** 2, 8, 5 is the only walk along which the distances from 2 are tight. */
  lemma TwoToFiveTight()
    ensures TightPath(HarnessGraph(), FromTwo, [2, 8, 5])
  {
    TwoToFiveChain();
    TwoToFiveEntry();
    TwoToFivePredecessors();
  }

  lemma TwoToFiveChain()
    ensures TightChain(HarnessGraph(), FromTwo, [2, 8, 5])
  {
    var g, T := HarnessGraph(), [2, 8, 5];
    forall i | 0 <= i < |T| - 1
      ensures TightEdge(g, FromTwo, T[i], T[i + 1])
    {
      assert i in {0, 1};
    }
  }

  lemma TwoToFiveEntry()
    ensures NoFreeEntry(HarnessGraph(), FromTwo, [2, 8, 5])
  {
    var T := [2, 8, 5];
    forall x | 0 <= x < 11 && T[0] in HarnessNeighbours(x)
      ensures FromTwo[x] + HarnessCost(x, T[0]) > 0
    {
      assert x in {0, 1, 2, 3, 4, 5, 6, 7, 8, 9, 10};
    }
  }

  lemma TwoToFivePredecessors()
    ensures OnlyTightPredecessors(HarnessGraph(), FromTwo, [2, 8, 5])
  {
    var T := [2, 8, 5];
    forall i, x | 0 < i < |T| && T[i] < 11 && 0 <= x < 11 && T[i] in HarnessNeighbours(x) &&
                  FromTwo[x] + HarnessCost(x, T[i]) <= FromTwo[T[i]]
      ensures x == T[i - 1]
    {
      assert x in {0, 1, 2, 3, 4, 5, 6, 7, 8, 9, 10};
    }
  }

  /** Node 10 is in no neighbour list. */
  lemma NoEdgeIntoTen()
    ensures forall x: nat :: 10 !in HarnessNeighbours(x)
  {
    forall x: nat ensures 10 !in HarnessNeighbours(x) {
      assert x in {0, 1, 2, 3, 4, 5, 6, 7, 8, 9} || x >= 10;
    }
  }

  /** So nothing but [10] reaches it. */
  lemma TenUnreachable(q: seq<nat>)
    requires IsWalk(HarnessGraph(), q) && q[|q| - 1] == 10
    ensures q == [10]
  {
    NoEdgeIntoTen();
    if |q| > 1 {
      LastEdge(HarnessGraph(), q);
      assert false;
    }
  }

  /** Where a potential singles out T as the only cheapest walk from its start,
      dijkstra between T's ends returns T. */
  method RunOnForcedPath(g: GraphView, P: seq<nat>, T: seq<nat>) returns (path: Option<seq<nat>>)
    requires NeighboursInRange(g) && |P| == g.count && Potential(g, P) && TightPath(g, P, T)
    ensures path == Some(T)
  {
    path := Dijkstra(g, T[0], T[|T| - 1]);
    ForcedPath(g, P, T, path.value);
  }

  /** dijkstra(graph, 0, 9), (0, 8) and (2, 5) on the test graph give the
      expected paths; (0, 10), the extra id in graph.nodes, gives [10]. */
  method RunHarness() returns (p09: Option<seq<nat>>, p08: Option<seq<nat>>, p25: Option<seq<nat>>, p010: Option<seq<nat>>)
    ensures p09 == Some([0, 4, 1, 6, 7, 9])
    ensures p08 == Some([0, 4, 3, 2, 8])
    ensures p25 == Some([2, 8, 5])
    ensures p010 == Some([10])
  {
    var g := HarnessGraph();
    HarnessInRange();
    FromZeroIsPotential();
    ZeroToNineTight();
    p09 := RunOnForcedPath(g, FromZero, [0, 4, 1, 6, 7, 9]);
    ZeroToEightTight();
    p08 := RunOnForcedPath(g, FromZero, [0, 4, 3, 2, 8]);
    FromTwoIsPotential();
    TwoToFiveTight();
    p25 := RunOnForcedPath(g, FromTwo, [2, 8, 5]);
    p010 := Dijkstra(g, 0, 10);
    TenUnreachable(p010.value);
  }
}
