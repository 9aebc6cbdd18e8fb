/** A weighted graph stored as a square adjacency matrix of optional costs
    (weightedGraph.py, class Graph). The matrix, the node list and the edge log
    are fields that the methods replace; `directed` is fixed at construction. */
module WeightedGraph {

  datatype Option<T> = None | Some(value: T)

  /** One entry of the edge log: origin id, destination id and cost. */
  datatype Edge = Edge(source: nat, destination: nat, cost: int)

  /** The three exception classes the graph raises. AlreadyPopulated keeps the
      (source, destination, cost) of the rejected edge; messages are not modelled. */
  datatype GraphError =
    | NonDirected
    | AlreadyPopulated(source: nat, dest: nat, cost: int)
    | IllegalArgument

  datatype Result<T> = Ok(value: T) | Err(error: GraphError)

  /** What addEdge returns: one edge id, or the ids of the two halves of a
      bidirectional edge (source to destination first). */
  datatype EdgeIds = Single(id: nat) | Pair(forward: nat, backward: nat)

  /** Rows are sources, columns destinations; None means "no edge". */
  type Matrix = seq<seq<Option<int>>>

  ghost predicate IsSquare(m: Matrix) {
    forall r | 0 <= r < |m| :: |m[r]| == |m|
  }

  /** m2 is m with one more row and column: old cells kept, new cells empty. */
  ghost predicate Extends(m2: Matrix, m: Matrix)
    requires IsSquare(m)
  {
    && IsSquare(m2) && |m2| == |m| + 1
    && (forall r, c | 0 <= r < |m| && 0 <= c < |m| :: m2[r][c] == m[r][c])
    && (forall i | 0 <= i < |m2| :: m2[|m|][i] == None && m2[i][|m|] == None)
  }

  /** The edge log and the matrix describe the same edges: every logged edge
      joins two different nodes and sits in its own cell, no two logged edges
      share a cell, and every filled cell was logged. */
  ghost predicate LogMatches(m: Matrix, log: seq<Edge>)
    requires IsSquare(m)
  {
    && (forall k | 0 <= k < |log| ::
          && log[k].source != log[k].destination
          && log[k].source < |m| && log[k].destination < |m|
          && m[log[k].source][log[k].destination] == Some(log[k].cost))
    && (forall j, k | 0 <= j < k < |log| ::
          log[j].source != log[k].source || log[j].destination != log[k].destination)
    && (forall r, c | 0 <= r < |m| && 0 <= c < |m| && m[r][c].Some? ::
          exists k :: 0 <= k < |log| && log[k].source == r && log[k].destination == c)
  }

  /** The outcome of _addEdge on a matrix and an edge log: the result, the new
      matrix and the new log. A self-loop is refused before the cell is looked
      at; a filled cell is refused with the rejected edge as payload. */
  function InsertOutcome(m: Matrix, log: seq<Edge>, source: nat, destination: nat, cost: int)
    : (Result<nat>, Matrix, seq<Edge>)
    requires IsSquare(m)
    requires source == destination || (source < |m| && destination < |m|)
  {
    if source == destination then
      (Err(IllegalArgument), m, log)
    else if m[source][destination].Some? then
      (Err(AlreadyPopulated(source, destination, cost)), m, log)
    else
      (Ok(|log|), m[source := m[source][destination := Some(cost)]], log + [Edge(source, destination, cost)])
  }

  /** The outcome of addEdge: a directed edge on an undirected graph is refused;
      a bidirectional edge on a directed graph is two inserts, and a failure of
      the second leaves the first in place; every other case is one insert at
      exactly [source][destination]. */
  function AddOutcome(m: Matrix, log: seq<Edge>, directed: bool,
                      source: nat, destination: nat, cost: int, directional: bool)
    : (Result<EdgeIds>, Matrix, seq<Edge>)
    requires IsSquare(m)
    requires (directional && !directed) || source == destination || (source < |m| && destination < |m|)
  {
    if directional && !directed then
      (Err(NonDirected), m, log)
    else if !directional && directed then
      var (r1, m1, log1) := InsertOutcome(m, log, source, destination, cost);
      if r1.Err? then (Err(r1.error), m1, log1)
      else
        var (r2, m2, log2) := InsertOutcome(m1, log1, destination, source, cost);
        if r2.Err? then (Err(r2.error), m2, log2)
        else (Ok(Pair(r1.value, r2.value)), m2, log2)
    else
      var (r, m1, log1) := InsertOutcome(m, log, source, destination, cost);
      if r.Err? then (Err(r.error), m1, log1) else (Ok(Single(r.value)), m1, log1)
  }

  lemma InsertKeepsSquare(m: Matrix, log: seq<Edge>, source: nat, destination: nat, cost: int)
    requires IsSquare(m)
    requires source == destination || (source < |m| && destination < |m|)
    ensures var (_, m2, _) := InsertOutcome(m, log, source, destination, cost);
      IsSquare(m2) && |m2| == |m|
  {
  }

  /** A successful insert keeps the edge log in step with the matrix. */
  lemma {:induction false} InsertKeepsLog(m: Matrix, log: seq<Edge>, source: nat, destination: nat, cost: int)
    requires IsSquare(m) && LogMatches(m, log)
    requires source == destination || (source < |m| && destination < |m|)
    ensures var (_, m2, log2) := InsertOutcome(m, log, source, destination, cost);
      IsSquare(m2) && LogMatches(m2, log2)
  {
    var (r, m2, log2) := InsertOutcome(m, log, source, destination, cost);
    if r.Ok? {
      forall r0, c | 0 <= r0 < |m2| && 0 <= c < |m2| && m2[r0][c].Some?
        ensures exists k :: 0 <= k < |log2| && log2[k].source == r0 && log2[k].destination == c
      {
        if r0 == source && c == destination {
          assert log2[|log|].source == r0 && log2[|log|].destination == c;
        } else {
          assert m[r0][c].Some?;
          var k :| 0 <= k < |log| && log[k].source == r0 && log[k].destination == c;
          assert log2[k] == log[k];
        }
      }
      forall j, k | 0 <= j < k < |log2|
        ensures log2[j].source != log2[k].source || log2[j].destination != log2[k].destination
      {
        if k == |log| {
          assert m[log[j].source][log[j].destination].Some?;
        }
      }
    }
  }

  /** _addEdge refuses a self-loop with IllegalArgumentError and changes nothing. */
  lemma SelfLoopRefused(m: Matrix, log: seq<Edge>, node: nat, cost: int)
    requires IsSquare(m)
    ensures InsertOutcome(m, log, node, node, cost) == (Err(IllegalArgument), m, log)
  {
  }

  /** _addEdge on a filled cell raises AlreadyPopulatedError with the rejected
      edge and changes nothing. */
  lemma PopulatedRefused(m: Matrix, log: seq<Edge>, source: nat, destination: nat, cost: int)
    requires IsSquare(m) && source != destination && source < |m| && destination < |m|
    requires m[source][destination].Some?
    ensures InsertOutcome(m, log, source, destination, cost)
         == (Err(AlreadyPopulated(source, destination, cost)), m, log)
  {
  }

  /** A successful _addEdge writes exactly cell [source][destination], logs the
      edge last and returns its position in the log, so edge ids are
      consecutive in insertion order. */
  lemma InsertWritesOneCell(m: Matrix, log: seq<Edge>, source: nat, destination: nat, cost: int)
    requires IsSquare(m) && source != destination && source < |m| && destination < |m|
    requires m[source][destination].None?
    ensures var (r, m2, log2) := InsertOutcome(m, log, source, destination, cost);
      && r == Ok(|log|)
      && log2 == log + [Edge(source, destination, cost)] && log2[r.value] == Edge(source, destination, cost)
      && |m2| == |m|
      && (forall i, j | 0 <= i < |m| && 0 <= j < |m| ::
            m2[i][j] == if i == source && j == destination then Some(cost) else m[i][j])
  {
  }

  /** A directed edge on an undirected graph raises NonDirectedError and
      changes nothing, whatever the ids: they are not looked at. */
  lemma NonDirectedRefused(m: Matrix, log: seq<Edge>, source: nat, destination: nat, cost: int)
    requires IsSquare(m)
    ensures AddOutcome(m, log, false, source, destination, cost, true) == (Err(NonDirected), m, log)
  {
  }

  /** On a directed graph a directed edge is exactly one _addEdge. */
  lemma DirectionalEdge(m: Matrix, log: seq<Edge>, source: nat, destination: nat, cost: int)
    requires IsSquare(m)
    requires source == destination || (source < |m| && destination < |m|)
    ensures
      var (r, m2, log2) := AddOutcome(m, log, true, source, destination, cost, true);
      var (r1, m1, log1) := InsertOutcome(m, log, source, destination, cost);
      m2 == m1 && log2 == log1 && (r1.Ok? <==> r.Ok?) && (r.Ok? ==> r.value == Single(r1.value))
      && (r.Err? ==> r.error == r1.error)
  {
  }

  /** On an undirected graph an edge is stored only at [source][destination]:
      the mirror cell [destination][source] is left as it was. */
  lemma UndirectedNotReordered(m: Matrix, log: seq<Edge>, source: nat, destination: nat, cost: int)
    requires IsSquare(m) && source != destination && source < |m| && destination < |m|
    requires m[source][destination].None?
    ensures var (r, m2, log2) := AddOutcome(m, log, false, source, destination, cost, false);
      && r == Ok(Single(|log|))
      && m2[source][destination] == Some(cost)
      && m2[destination][source] == m[destination][source]
      && log2 == log + [Edge(source, destination, cost)]
  {
  }

  /** A bidirectional edge on a directed graph whose two cells are empty fills
      both, logs source to destination first and returns ids [i, i+1]. */
  lemma BidirectionalPair(m: Matrix, log: seq<Edge>, source: nat, destination: nat, cost: int)
    requires IsSquare(m) && source != destination && source < |m| && destination < |m|
    requires m[source][destination].None? && m[destination][source].None?
    ensures var (r, m2, log2) := AddOutcome(m, log, true, source, destination, cost, false);
      && r == Ok(Pair(|log|, |log| + 1))
      && m2[source][destination] == Some(cost) && m2[destination][source] == Some(cost)
      && log2 == log + [Edge(source, destination, cost), Edge(destination, source, cost)]
  {
  }

  /** If the reverse cell of a bidirectional edge on a directed graph is already
      filled, the forward edge stays stored and logged, and the error carries
      the reversed edge: the insert is not rolled back. */
  lemma BidirectionalNotRolledBack(m: Matrix, log: seq<Edge>, source: nat, destination: nat, cost: int)
    requires IsSquare(m) && source != destination && source < |m| && destination < |m|
    requires m[source][destination].None? && m[destination][source].Some?
    ensures var (r, m2, log2) := AddOutcome(m, log, true, source, destination, cost, false);
      && r == Err(AlreadyPopulated(destination, source, cost))
      && m2[source][destination] == Some(cost)
      && m2[destination][source] == m[destination][source]
      && log2 == log + [Edge(source, destination, cost)]
  {
  }

  class Graph {
    /** Whether the graph is directed; fixed when the graph is created. */
    const directed: bool
    var matrix: Matrix
    var nodes: seq<nat>
    var edges: seq<Edge>

    /** The matrix is square and never empty; the node list is [0, 1, ..., k]
        and has one more entry than the matrix has rows once a node was added
        (the first addNode reuses the initial 1x1 matrix); the edge log agrees
        with the matrix. */
    ghost predicate Valid()
      reads this
    {
      && |matrix| >= 1 && IsSquare(matrix)
      && |nodes| >= 1
      && |matrix| == (if |nodes| == 1 then 1 else |nodes| - 1)
      && (forall i | 0 <= i < |nodes| :: nodes[i] == i)
      && LogMatches(matrix, edges)
    }

    constructor (directed: bool)
      ensures Valid()
      ensures this.directed == directed
      ensures matrix == [[None]] && nodes == [0] && edges == []
    {
      this.directed := directed;
      matrix := [[None]];
      nodes := [0];
      edges := [];
    }

    /** The height of the matrix. */
    function Y(): (height: nat)
      reads this
      requires Valid()
      ensures height >= 1
      ensures height == (if Count() == 1 then 1 else Count() - 1)
    {
      |matrix|
    }

    /** The width of the first row (0 for an empty matrix); for a square
        matrix it equals the height. */
    function X(): (width: int)
      reads this
      requires IsSquare(matrix)
      ensures width == |matrix|
    {
      if |matrix| < 1 then 0 else |matrix[0]|
    }

    /** The number of entries in the node list. */
    function Count(): (count: nat)
      reads this
      requires Valid()
      ensures count == |Nodes()| && count >= 1
    {
      |nodes|
    }

    /** The node list: the ids 0, 1, ..., Count() - 1 in order. */
    function Nodes(): (ids: seq<nat>)
      reads this
      requires Valid()
      ensures |ids| >= 1 && forall i | 0 <= i < |ids| :: ids[i] == i
    {
      nodes
    }

    /** _extendMatrix: append an empty cell to every row, then an empty row as
        wide as the first row now is. */
    method ExtendMatrix()
      requires |matrix| >= 1 && IsSquare(matrix) && LogMatches(matrix, edges)
      modifies this
      ensures Extends(matrix, old(matrix)) && LogMatches(matrix, edges)
      ensures nodes == old(nodes) && edges == old(edges)
    {
      var i := 0;
      while i < |matrix|
        invariant 0 <= i <= |matrix| == old(|matrix|)
        invariant forall r | 0 <= r < i :: matrix[r] == old(matrix[r]) + [None]
        invariant forall r | i <= r < |matrix| :: matrix[r] == old(matrix[r])
        invariant nodes == old(nodes) && edges == old(edges)
      {
        matrix := matrix[i := matrix[i] + [None]];
        i := i + 1;
      }
      matrix := matrix + [seq(|matrix[0]|, _ => None)];
      ExtendKeepsLog(old(matrix), matrix, edges);
    }

    /** addNode: the first call keeps the initial 1x1 matrix, later calls extend
        it; the height is appended to the node list and the new id (height - 1)
        returned, so the k-th call returns k - 1. */
    method AddNode() returns (id: nat)
      requires Valid()
      modifies this
      ensures Valid()
      ensures nodes == old(nodes) + [|old(nodes)|]
      ensures id == |old(nodes)| - 1
      ensures |nodes| == |matrix| + 1
      ensures if |old(nodes)| == 1 then matrix == old(matrix) else Extends(matrix, old(matrix))
      ensures edges == old(edges)
    {
      if Count() != 1 {
        ExtendMatrix();
      }
      nodes := nodes + [|matrix|];
      id := |matrix| - 1;
    }

    /** _addEdge. Since nodes[i] == i, nodes.index(id) is the id itself. */
    method InsertEdge(source: nat, destination: nat, cost: int) returns (r: Result<nat>)
      requires Valid()
      requires source == destination || (source < Y() && destination < Y())
      modifies this
      ensures Valid() && nodes == old(nodes)
      ensures (r, matrix, edges) == InsertOutcome(old(matrix), old(edges), source, destination, cost)
    {
      InsertKeepsLog(matrix, edges, source, destination, cost);
      if source == destination {
        return Err(IllegalArgument);
      }
      var column := destination;
      var row := source;
      if matrix[row][column].Some? {
        return Err(AlreadyPopulated(source, destination, cost));
      }
      matrix := matrix[row := matrix[row][column := Some(cost)]];
      edges := edges + [Edge(source, destination, cost)];
      r := Ok(|edges| - 1);
    }

    /** addEdge. */
    method AddEdge(source: nat, destination: nat, cost: int, directional: bool) returns (r: Result<EdgeIds>)
      requires Valid()
      requires (directional && !directed) || source == destination || (source < Y() && destination < Y())
      modifies this
      ensures Valid() && nodes == old(nodes)
      ensures (r, matrix, edges) == AddOutcome(old(matrix), old(edges), directed, source, destination, cost, directional)
    {
      if directional {
        if !directed {
          return Err(NonDirected);
        }
        var id := InsertEdge(source, destination, cost);
        r := if id.Err? then Err(id.error) else Ok(Single(id.value));
      } else if directed {
        var first := InsertEdge(source, destination, cost);
        if first.Err? {
          return Err(first.error);
        }
        var second := InsertEdge(destination, source, cost);
        if second.Err? {
          return Err(second.error);
        }
        r := Ok(Pair(first.value, second.value));
      } else {
        var id := InsertEdge(source, destination, cost);
        r := if id.Err? then Err(id.error) else Ok(Single(id.value));
      }
    }
  }

  /** Growing the matrix keeps the edge log in step with it. */
  lemma {:induction false} ExtendKeepsLog(m: Matrix, m2: Matrix, log: seq<Edge>)
    requires IsSquare(m) && LogMatches(m, log) && Extends(m2, m)
    ensures LogMatches(m2, log)
  {
    forall r, c | 0 <= r < |m2| && 0 <= c < |m2| && m2[r][c].Some?
      ensures exists k :: 0 <= k < |log| && log[k].source == r && log[k].destination == c
    {
      assert r < |m| && c < |m|;
      assert m[r][c].Some?;
    }
  }
}
