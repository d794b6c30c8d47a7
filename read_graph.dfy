/**
 * `read_graph` of graph_coloring/main.rs: building the graph from the lines
 * of a DIMACS-style file. A line `p <kind> <n>` appends n fresh nodes named
 * 0..n-1; a line `e <u> <v>` joins the 1-based nodes u and v in both
 * directions; any other line is skipped. An edge naming node 0 or a node not
 * yet declared makes the source panic, which is `None` here.
 */
module ReadGraph {
  import opened Wrappers
  import opened GraphColoring
  import opened AbtSolver
  import ExhaustiveSearch

  /** One line of the file after its first token has been read and its numbers parsed. */
  datatype Line = Problem(numNodes: nat) | Edge(source: nat, sink: nat) | Other

  /** The n nodes a `p` line pushes, named 0..n-1. */
  function Fresh(n: nat): (s: seq<Node>)
    ensures |s| == n && forall i :: 0 <= i < n ==> s[i] == NewNode(i)
  {
    seq(n, i requires 0 <= i => NewNode(i))
  }

  /** An edge line whose endpoints are both among the `size` nodes declared before it. */
  predicate EdgeFits(line: Line, size: nat)
    requires line.Edge?
  {
    1 <= line.source <= size && 1 <= line.sink <= size
  }

  /** What an `e` line joining a and b appends to the adjacency list of node i. */
  function Added(i: nat, a: nat, b: nat): seq<nat>
  {
    (if i == a then [b] else []) + (if i == b then [a] else [])
  }

  /**
   * The two `add_neighbor` calls of an `e` line, on 0-based indices a and b:
   * a gains b, then b gains a, and nothing else changes.
   */
  function Connect(g: seq<Node>, a: nat, b: nat): (h: seq<Node>)
    requires a < |g| && b < |g|
    ensures |h| == |g|
    ensures forall i :: 0 <= i < |g| ==>
      h[i].neighbors == g[i].neighbors + Added(i, a, b) && h[i].(neighbors := g[i].neighbors) == g[i]
  {
    var g1 := g[a := g[a].AddNeighbor(b)];
    g1[b := g1[b].AddNeighbor(a)]
  }

  /** The effect of one line on the graph read so far; `None` where the source panics. */
  function Apply(g: seq<Node>, line: Line): (r: Option<seq<Node>>)
    ensures r.None? <==> line.Edge? && !EdgeFits(line, |g|)
  {
    match line
    case Problem(n) => Some(g + Fresh(n))
    case Edge(u, v) => if EdgeFits(line, |g|) then Some(Connect(g, u - 1, v - 1)) else None
    case Other => Some(g)
  }

  /** The graph after all the lines, read in order from an empty graph. */
  function Load(lines: seq<Line>): Option<seq<Node>>
  {
    if lines == [] then Some([])
    else
      match Load(lines[..|lines| - 1])
      case None => None
      case Some(g) => Apply(g, lines[|lines| - 1])
  }

  /** The number of nodes the `p` lines declare. */
  function Declared(lines: seq<Line>): nat
  {
    if lines == [] then 0
    else
      var last := lines[|lines| - 1];
      Declared(lines[..|lines| - 1]) + (if last.Problem? then last.numNodes else 0)
  }

  /** `read_graph` over the parsed lines: the loop of the source, with the graph as a growing vector. */
  method ReadLines(lines: seq<Line>) returns (r: Option<seq<Node>>)
    ensures r == Load(lines)
  {
    var graph: seq<Node> := [];
    var k := 0;
    var ok := true;
    while k < |lines| && ok
      invariant 0 <= k <= |lines|
      invariant ok ==> Load(lines[..k]) == Some(graph)
      invariant !ok ==> k > 0 && Load(lines[..k]) == None
    {
      assert lines[..k + 1][..k] == lines[..k];
      match lines[k] {
        case Problem(numNodes) =>
          graph := PushFresh(graph, numNodes);
        case Edge(source, sink) =>
          if source == 0 || source > |graph| || sink == 0 || sink > |graph| {
            ok := false;
          } else {
            graph := graph[source - 1 := graph[source - 1].AddNeighbor(sink - 1)];
            graph := graph[sink - 1 := graph[sink - 1].AddNeighbor(source - 1)];
          }
        case Other =>
      }
      k := k + 1;
    }
    if ok {
      assert lines[..k] == lines;
      r := Some(graph);
    } else {
      FailureSticks(lines, k);
      r := None;
    }
  }

  /** The inner `for i in 0..num_nodes` loop: pushes `Node::new(i)` for each i. */
  method PushFresh(graph: seq<Node>, n: nat) returns (h: seq<Node>)
    ensures h == graph + Fresh(n)
  {
    h := graph;
    var i := 0;
    while i < n
      invariant 0 <= i <= n
      invariant h == graph + Fresh(i)
    {
      assert Fresh(i + 1) == Fresh(i) + [NewNode(i)];
      h := h + [NewNode(i)];
      i := i + 1;
    }
  }

  /** A panic on some prefix of the file is a panic of the whole read. */
  lemma {:induction false} FailureSticks(lines: seq<Line>, k: nat)
    requires 0 < k <= |lines| && Load(lines[..k]) == None
    ensures Load(lines) == None
    decreases |lines| - k
  {
    if k == |lines| {
      assert lines[..k] == lines;
    } else {
      assert lines[..k + 1][..k] == lines[..k];
      FailureSticks(lines, k + 1);
    }
  }

  /** A successful read has as many nodes as the `p` lines declare. */
  lemma {:induction false} LoadedSize(lines: seq<Line>)
    requires Load(lines).Some?
    ensures |Load(lines).value| == Declared(lines)
  {
    if lines != [] {
      LoadedSize(lines[..|lines| - 1]);
    }
  }

  /**
   * The read panics exactly when some `e` line names node 0 or a node beyond
   * those declared by the lines before it.
   */
  lemma {:induction false} LoadFailsIff(lines: seq<Line>)
    ensures Load(lines).None? <==>
      exists i :: 0 <= i < |lines| && lines[i].Edge? && !EdgeFits(lines[i], Declared(lines[..i]))
  {
    if lines != [] {
      var n := |lines| - 1;
      var init := lines[..n];
      LoadFailsIff(init);
      assert lines[..n] == init;
      assert forall i :: 0 <= i < n ==> lines[i] == init[i] && lines[..i] == init[..i];
      if Load(init).Some? {
        LoadedSize(init);
      }
    }
  }

  /**
   * What every successful read builds: adjacency in range and symmetric, and
   * every node as `Node::new` left it apart from its neighbours.
   */
  predicate Built(g: seq<Node>)
  {
    WellFormed(g) && Symmetric(g) &&
    forall i :: 0 <= i < |g| ==> g[i].(neighbors := []) == NewNode(g[i].name)
  }

  /** Each line keeps the graph built. */
  lemma ApplyKeepsBuilt(g: seq<Node>, line: Line)
    requires Built(g) && Apply(g, line).Some?
    ensures Built(Apply(g, line).value)
  {
    var h := Apply(g, line).value;
    if line.Problem? {
      AppendKeepsBuilt(g, line.numNodes, h);
    } else if line.Edge? {
      ConnectKeepsBuilt(g, line.source - 1, line.sink - 1, h);
    } else {
      assert h == g;
    }
  }

  /** Fresh nodes have no neighbours, so appending them keeps the graph built. */
  lemma AppendKeepsBuilt(g: seq<Node>, n: nat, h: seq<Node>)
    requires Built(g) && h == g + Fresh(n)
    ensures Built(h)
  {
    assert forall i :: 0 <= i < |g| ==> h[i] == g[i];
    assert forall i :: |g| <= i < |h| ==> h[i] == NewNode(i - |g|);
  }

  /** Joining two existing nodes in both directions keeps the graph built. */
  lemma ConnectKeepsBuilt(g: seq<Node>, a: nat, b: nat, h: seq<Node>)
    requires Built(g) && a < |g| && b < |g| && h == Connect(g, a, b)
    ensures Built(h)
  {
    forall i | 0 <= i < |h|
      ensures InRange(h[i], |h|)
    {
      assert AllBelow(Added(i, a, b), |g|);
    }
    forall i, nb | 0 <= i < |h| && 0 <= nb < |h| && nb in h[i].neighbors
      ensures i in h[nb].neighbors
    {
      if nb in g[i].neighbors {
        assert i in g[nb].neighbors;
      } else {
        assert nb in Added(i, a, b);
        assert i in Added(nb, a, b);
      }
    }
  }

  /** Every successful read is built: symmetric, in range, and otherwise fresh. */
  lemma {:induction false} LoadedIsBuilt(lines: seq<Line>)
    requires Load(lines).Some?
    ensures Built(Load(lines).value)
  {
    if lines != [] {
      var init := lines[..|lines| - 1];
      LoadedIsBuilt(init);
      ApplyKeepsBuilt(Load(init).value, lines[|lines| - 1]);
    }
  }

  /** A freshly read graph has empty agent views, so no view repeats a sender. */
  lemma LoadedHasUniqueViews(lines: seq<Line>)
    requires Load(lines).Some?
    ensures AllUnique(Load(lines).value)
  {
    LoadedIsBuilt(lines);
    var h := Load(lines).value;
    forall i | 0 <= i < |h|
      ensures UniqueSenders(h[i].agentView)
    {
      assert h[i].agentView == h[i].(neighbors := []).agentView == [];
    }
  }

  /**
   * A freshly read graph has every `remaining` stack full, so the exhaustive
   * search started on it fails only when no proper colouring exists.
   */
  lemma LoadedIsUnstarted(lines: seq<Line>)
    requires Load(lines).Some?
    ensures ExhaustiveSearch.Unstarted(Load(lines).value)
  {
    LoadedIsBuilt(lines);
    var h := Load(lines).value;
    assert forall i :: 0 <= i < |h| ==> h[i].remaining == h[i].(neighbors := []).remaining;
  }

  /** An edge line that does not join a node to itself. */
  predicate NoLoopLine(line: Line)
  {
    line.Edge? ==> line.source != line.sink
  }

  /** Without an `e u u` line no node lists itself as a neighbour. */
  lemma {:induction false} LoadedHasNoSelfLoops(lines: seq<Line>)
    requires Load(lines).Some?
    requires forall i :: 0 <= i < |lines| ==> NoLoopLine(lines[i])
    ensures NoSelfLoops(Load(lines).value)
  {
    if lines != [] {
      var n := |lines| - 1;
      var init := lines[..n];
      assert forall i :: 0 <= i < n ==> init[i] == lines[i];
      LoadedHasNoSelfLoops(init);
      var g, h := Load(init).value, Load(lines).value;
      forall i | 0 <= i < |h|
        ensures i !in h[i].neighbors
      {
        if lines[n].Edge? {
          assert i !in Added(i, lines[n].source - 1, lines[n].sink - 1);
        } else if i < |g| {
          assert h[i] == g[i];
        }
      }
    }
  }

  /** A `p` line that comes before any node exists. */
  predicate DeclaresFirst(lines: seq<Line>, i: nat)
    requires i < |lines|
  {
    lines[i].Problem? ==> Declared(lines[..i]) == 0
  }

  /** When every `p` line comes before any node exists, node i is named i. */
  lemma {:induction false} LoadedNamesAreIndices(lines: seq<Line>)
    requires Load(lines).Some?
    requires forall i :: 0 <= i < |lines| ==> DeclaresFirst(lines, i)
    ensures NamesAreIndices(Load(lines).value)
  {
    if lines != [] {
      var n := |lines| - 1;
      var init := lines[..n];
      forall i | 0 <= i < |init|
        ensures DeclaresFirst(init, i)
      {
        assert init[..i] == lines[..i];
        assert DeclaresFirst(lines, i);
      }
      LoadedNamesAreIndices(init);
      var g := Load(init).value;
      assert DeclaresFirst(lines, n);
      if lines[n].Problem? {
        LoadedSize(init);
        assert g == [];
      }
    }
  }

  /**
   * A file with no self-loop edge and no `p` line after nodes exist reads
   * into a graph the colouring algorithms accept: in range, symmetric, node i
   * named i, no node listing itself, and nobody coloured yet.
   */
  lemma LoadedIsPrepared(lines: seq<Line>)
    requires Load(lines).Some?
    requires forall i :: 0 <= i < |lines| ==> NoLoopLine(lines[i]) && DeclaresFirst(lines, i)
    ensures Prepared(Load(lines).value)
  {
    LoadedIsBuilt(lines);
    LoadedHasNoSelfLoops(lines);
    LoadedNamesAreIndices(lines);
    var h := Load(lines).value;
    assert forall i :: 0 <= i < |h| ==> h[i].color == h[i].(neighbors := []).color;
  }
}
