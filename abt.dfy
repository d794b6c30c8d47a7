/**
 * `abt_sequential` of graph_coloring/main.rs: Asynchronous Backtracking run
 * by one thread. Each pass visits the nodes in index order; a visited node
 * picks a colour from what it has been told (its agent view and nogoods),
 * tells its higher-named neighbours about it, or, when no colour is left,
 * sends a nogood to the highest-named node in its view. The run ends after
 * a pass in which no colour changed (success) or at a node with no colour
 * left and nobody to blame (failure).
 *
 * The functions below are the meaning of one visit, one pass and a run; the
 * method `AbtSequential` performs the same steps in place on an array and is
 * proved to end in the state they describe.
 */
module AbtSolver {
  import opened Wrappers
  import opened SevenColoring
  import opened GraphColoring

  /** How a run ends. The source loops until a pass changes nothing; `OutOfFuel` marks a run cut short by the pass budget. */
  datatype Run = Done(solved: bool) | OutOfFuel

  /** The graph after a visit or a pass, whether some node's colour changed, and whether the run must stop with failure. */
  datatype Step = Step(graph: seq<Node>, changed: bool, stop: bool)

  /** Every adjacency entry and every agent-view sender is a node index: the source indexes the graph with both. */
  predicate WellFormed(s: seq<Node>)
  {
    forall i :: 0 <= i < |s| ==> InRange(s[i], |s|)
  }

  /** Every adjacency entry and every agent-view sender of n is below size. */
  predicate InRange(n: Node, size: nat)
  {
    AllBelow(n.neighbors, size) && SendersBelow(n.agentView, size)
  }

  predicate AllBelow(xs: seq<nat>, size: nat)
  {
    forall j :: 0 <= j < |xs| ==> xs[j] < size
  }

  predicate SendersBelow(v: seq<NodeState>, size: nat)
  {
    forall j :: 0 <= j < |v| ==> v[j].name < size
  }

  /** t has the nodes of s with their names and adjacency lists untouched. */
  predicate SameShape(s: seq<Node>, t: seq<Node>)
  {
    |s| == |t| && forall i :: 0 <= i < |s| ==> t[i].name == s[i].name && t[i].neighbors == s[i].neighbors
  }

  /** The position of the first entry of view v sent by node k. */
  function IndexOfSender(v: seq<NodeState>, k: nat): (r: Option<nat>)
    ensures r.Some? ==> r.value < |v| && v[r.value].name == k && forall i :: 0 <= i < r.value ==> v[i].name != k
    ensures r.None? ==> forall i :: 0 <= i < |v| ==> v[i].name != k
  {
    if v == [] then None
    else if v[0].name == k then Some(0)
    else match IndexOfSender(v[1..], k)
      case None => None
      case Some(i) => Some(i + 1)
  }

  /**
   * A neighbour records that node k now holds colour c: the first entry
   * from k is overwritten, or a new entry is appended. Every other entry
   * survives.
   */
  function Record(v: seq<NodeState>, k: nat, c: Color): (w: seq<NodeState>)
    ensures NodeState(k, c) in w
    ensures forall e {:trigger e in v} :: e in v && e.name != k ==> e in w
    ensures forall e :: e in w ==> e in v || e == NodeState(k, c)
  {
    match IndexOfSender(v, k)
    case Some(j) =>
      var w := v[j := NodeState(k, c)];
      assert w[j] == NodeState(k, c);
      assert forall i :: 0 <= i < |v| && i != j ==> w[i] == v[i];
      w
    case None => v + [NodeState(k, c)]
  }

  /** No two entries of a view come from the same node. */
  predicate UniqueSenders(v: seq<NodeState>)
  {
    forall i, j :: 0 <= i < j < |v| ==> v[i].name != v[j].name
  }

  /** Recording into a view with one entry per sender keeps it so, and the entry for k then holds c. */
  lemma RecordKeepsSendersUnique(v: seq<NodeState>, k: nat, c: Color)
    requires UniqueSenders(v)
    ensures UniqueSenders(Record(v, k, c))
    ensures forall e {:trigger e in Record(v, k, c)} :: e in Record(v, k, c) && e.name == k ==> e.color == c
  {
    var w := Record(v, k, c);
    match IndexOfSender(v, k)
    case Some(j) =>
      assert w == v[j := NodeState(k, c)];
      forall e | e in w && e.name == k
        ensures e.color == c
      {
        var i :| 0 <= i < |w| && w[i] == e;
        assert i == j;
      }
    case None =>
      assert w == v + [NodeState(k, c)];
  }

  /** Node n learns that node k holds colour c, and is marked as touched by another node. */
  function Inform(n: Node, k: nat, c: Color): (m: Node)
    ensures NodeState(k, c) in m.agentView && m.modified
    ensures m.(agentView := n.agentView, modified := n.modified) == n
    ensures forall e {:trigger e in n.agentView} :: e in n.agentView && e.name != k ==> e in m.agentView
    ensures forall e :: e in m.agentView ==> e in n.agentView || e == NodeState(k, c)
  {
    n.(agentView := Record(n.agentView, k, c), modified := true)
  }

  /** Recording the same report twice is recording it once. */
  lemma RecordIdempotent(v: seq<NodeState>, k: nat, c: Color)
    ensures Record(Record(v, k, c), k, c) == Record(v, k, c)
  {
    var w := Record(v, k, c);
    match IndexOfSender(v, k)
    case Some(j) =>
      assert w[j].name == k && forall i :: 0 <= i < j ==> w[i] == v[i];
      assert IndexOfSender(w, k) == Some(j);
    case None =>
      assert IndexOfSender(w, k) == Some(|v|);
  }

  /** Node nb, if it is named above k, learns that k holds c. */
  function InformOne(s: seq<Node>, nb: nat, k: nat, c: Color): seq<Node>
    requires nb < |s|
  {
    if s[nb].name > k then s[nb := Inform(s[nb], k, c)] else s
  }

  /**
   * The propagation loop of `abt_sequential`, over the adjacency entries
   * `nbrs` in order. Since a repeated report changes nothing, the outcome is
   * the same as informing each listed node named above k once; all other
   * nodes are untouched.
   */
  function PropagateTo(s: seq<Node>, nbrs: seq<nat>, k: nat, c: Color): (r: seq<Node>)
    requires forall j :: 0 <= j < |nbrs| ==> nbrs[j] < |s|
    ensures |r| == |s|
    ensures forall i :: 0 <= i < |s| ==> r[i] == if i in nbrs && s[i].name > k then Inform(s[i], k, c) else s[i]
  {
    if nbrs == [] then s
    else
      var front := nbrs[..|nbrs| - 1];
      var last := nbrs[|nbrs| - 1];
      assert forall nb :: nb in front ==> nb in nbrs;
      assert forall nb :: nb in nbrs ==> nb in front || nb == last;
      var t := PropagateTo(s, front, k, c);
      RecordIdempotent(s[last].agentView, k, c);
      InformOne(t, last, k, c)
  }

  /** Node k tells its higher-named neighbours that it holds c. */
  function Propagate(s: seq<Node>, k: nat, c: Color): (r: seq<Node>)
    requires WellFormed(s) && k < |s|
    ensures SameShape(s, r) && WellFormed(r)
    ensures forall i :: 0 <= i < |s| ==> r[i] == if i in s[k].neighbors && s[i].name > k then Inform(s[i], k, c) else s[i]
  {
    assert forall j :: 0 <= j < |s[k].neighbors| ==> s[k].neighbors[j] in s[k].neighbors;
    PropagateKeepsShape(s, s[k].neighbors, k, c);
    PropagateTo(s, s[k].neighbors, k, c)
  }

  /** Informing nodes keeps every name and adjacency list, and keeps senders in range when k is. */
  lemma PropagateKeepsShape(s: seq<Node>, nbrs: seq<nat>, k: nat, c: Color)
    requires WellFormed(s) && k < |s| && forall j :: 0 <= j < |nbrs| ==> nbrs[j] < |s|
    ensures var r := PropagateTo(s, nbrs, k, c); SameShape(s, r) && WellFormed(r)
  {
    var r := PropagateTo(s, nbrs, k, c);
    forall i | 0 <= i < |s|
      ensures r[i].name == s[i].name && r[i].neighbors == s[i].neighbors && InRange(r[i], |s|)
    {
      if i in nbrs && s[i].name > k {
        RecordInRange(s[i].agentView, k, c, |s|);
      }
    }
  }

  /** Recording a report from a node in range keeps every sender of the view in range. */
  lemma RecordInRange(v: seq<NodeState>, k: nat, c: Color, size: nat)
    requires SendersBelow(v, size) && k < size
    ensures SendersBelow(Record(v, k, c), size)
  {
  }

  /**
   * The backtrack scan: the position of the entry with the greatest sender
   * name, the last such entry when several tie.
   */
  function Blame(v: seq<NodeState>): (j: nat)
    requires |v| > 0
    ensures j < |v|
    ensures forall i :: 0 <= i < |v| ==> v[i].name <= v[j].name
    ensures forall i :: j < i < |v| ==> v[i].name < v[j].name
  {
    if |v| == 1 then 0
    else
      var j := Blame(v[..|v| - 1]);
      if v[|v| - 1].name >= v[j].name then |v| - 1 else j
  }

  /**
   * Backtracking at node k: the sender blamed by `Blame` gets k's view of its
   * colour as a nogood and is marked as touched; k is marked as touched and
   * drops that entry from its view.
   */
  function Backtrack(s: seq<Node>, k: nat): (r: seq<Node>)
    requires WellFormed(s) && k < |s| && |s[k].agentView| > 0
    ensures SameShape(s, r) && WellFormed(r)
    ensures forall i :: 0 <= i < |s| ==> r[i].color == s[i].color && r[i].remaining == s[i].remaining
    ensures var v := s[k].agentView; var j := Blame(v);
      r[k].agentView == RemoveAt(v, j) && r[k].modified &&
      r[v[j].name].modified && r[v[j].name].noGood == s[v[j].name].noGood + [v[j].color]
    ensures forall i :: 0 <= i < |s| && s[i].modified ==> r[i].modified
    ensures forall i :: 0 <= i < |s| && i != k ==> r[i].agentView == s[i].agentView
    ensures forall i :: 0 <= i < |s| && i != s[k].agentView[Blame(s[k].agentView)].name ==> r[i].noGood == s[i].noGood
  {
    var v := s[k].agentView;
    var j := Blame(v);
    DropEntry(SendNoGood(s, v[j].name, v[j].color), k, j)
  }

  /** m is n with at most its view, its nogoods and its touched flag changed, and not untouched again. */
  predicate Keeps(n: Node, m: Node)
  {
    m.name == n.name && m.neighbors == n.neighbors && m.color == n.color &&
    m.remaining == n.remaining && (n.modified ==> m.modified)
  }

  /** Node `to` receives colour `col` as a nogood and is marked as touched. */
  function SendNoGood(s: seq<Node>, to: nat, col: Color): (r: seq<Node>)
    requires WellFormed(s) && to < |s|
    ensures WellFormed(r) && |r| == |s|
    ensures forall i :: 0 <= i < |s| ==> Keeps(s[i], r[i]) && r[i].agentView == s[i].agentView
    ensures forall i :: 0 <= i < |s| && i != to ==> r[i].noGood == s[i].noGood
  {
    s[to := s[to].(noGood := s[to].noGood + [col], modified := true)]
  }

  /** Node k drops entry j of its view and is marked as touched. */
  function DropEntry(s: seq<Node>, k: nat, j: nat): (r: seq<Node>)
    requires WellFormed(s) && k < |s| && j < |s[k].agentView|
    ensures WellFormed(r) && |r| == |s|
    ensures forall i :: 0 <= i < |s| ==> Keeps(s[i], r[i]) && r[i].noGood == s[i].noGood
    ensures forall i :: 0 <= i < |s| && i != k ==> r[i].agentView == s[i].agentView
  {
    RemoveAtInRange(s[k].agentView, j, |s|);
    s[k := s[k].(modified := true, agentView := RemoveAt(s[k].agentView, j))]
  }

  /** Dropping an entry keeps every remaining sender in range. */
  lemma RemoveAtInRange(v: seq<NodeState>, j: nat, size: nat)
    requires j < |v| && SendersBelow(v, size)
    ensures SendersBelow(RemoveAt(v, j), size)
  {
  }

  /** `Vec::remove`: the entry at position j is dropped and the later ones move down by one. */
  function RemoveAt(v: seq<NodeState>, j: nat): (w: seq<NodeState>)
    requires j < |v|
    ensures |w| == |v| - 1
    ensures forall i :: 0 <= i < j ==> w[i] == v[i]
    ensures forall i :: j <= i < |w| ==> w[i] == v[i + 1]
    ensures forall e :: e in w ==> e in v
  {
    v[..j] + v[j + 1..]
  }

  /**
   * One visit of node k in a pass of `abt_sequential`. The colour chosen by
   * `get_last_and_next_color` is assigned; the node is marked as touched; a
   * colour that was new or unchanged is told to the higher-named neighbours,
   * while a node with no colour left backtracks, or stops the run when its
   * view is empty. The visit counts as a change unless the node held a
   * colour and kept it.
   */
  function Visit(s: seq<Node>, k: nat): (r: Step)
    requires WellFormed(s) && k < |s|
    ensures SameShape(s, r.graph) && WellFormed(r.graph)
  {
    var (last, next) := LastAndNextColor(s, k);
    var s1 := if next.Some? then s[k := s[k].AssignColor(next.value)] else s;
    var changed := !(next.Some? && last.Some? && last.value == next.value);
    var s2 := s1[k := s1[k].(modified := true)];
    match next
    case Some(c) =>
      if last.None? || last.value == c then Step(Propagate(s2, k, c), changed, false)
      else Step(s2, changed, false)
    case None =>
      if |s2[k].agentView| < 1 then Step(s2, changed, true)
      else Step(Backtrack(s2, k), changed, false)
  }

  /**
   * The rest of a pass, from node k on, where `changed` records whether an
   * earlier visit of the pass changed a colour. A pass that does not stop
   * leaves every node it visited marked as touched.
   */
  function PassFrom(s: seq<Node>, k: nat, changed: bool): (r: Step)
    requires WellFormed(s) && k <= |s|
    ensures SameShape(s, r.graph) && WellFormed(r.graph)
    ensures changed ==> r.changed
    ensures !r.stop ==> forall i :: k <= i < |s| ==> r.graph[i].modified
    ensures forall i :: 0 <= i < |s| && s[i].modified ==> r.graph[i].modified
    ensures AllUnique(s) ==> AllUnique(r.graph)
    decreases |s| - k
  {
    if k == |s| then Step(s, changed, false)
    else
      var st := Visit(s, k);
      VisitMarks(s, k);
      VisitKeepsUnique(s, k);
      if st.stop then st else PassFrom(st.graph, k + 1, changed || st.changed)
  }

  /**
   * `abt_sequential` with at most `fuel` passes: passes repeat while one
   * changes a colour. The result is the outcome and the final graph.
   */
  function Abt(s: seq<Node>, fuel: nat): (r: (Run, seq<Node>))
    requires WellFormed(s)
    ensures SameShape(s, r.1) && WellFormed(r.1)
    decreases fuel
  {
    if fuel == 0 then (OutOfFuel, s)
    else
      var p := PassFrom(s, 0, false);
      if p.stop then (Done(false), p.graph)
      else if !p.changed then (Done(true), p.graph)
      else Abt(p.graph, fuel - 1)
  }

  /**
   * What a visit of node k does to the run and to colours: it stops the run
   * exactly when no colour is left and the view is empty, it counts as a
   * change unless the node kept the colour it held, and only node k's colour
   * moves, to the chosen one when there is one.
   */
  lemma VisitOutcome(s: seq<Node>, k: nat)
    requires WellFormed(s) && k < |s|
    ensures var r := Visit(s, k); var next := LastAndNextColor(s, k).1;
      (r.stop <==> next.None? && s[k].agentView == []) &&
      (r.changed <==> !(s[k].color.Some? && next == s[k].color)) &&
      r.graph[k].color == (if next.Some? then next else s[k].color)
    ensures var r := Visit(s, k);
      forall i :: 0 <= i < |s| && i != k ==> r.graph[i].color == s[i].color
  {
  }

  /** A visit marks node k as touched, unmarks nobody, and leaves every `remaining` list alone. */
  lemma VisitMarks(s: seq<Node>, k: nat)
    requires WellFormed(s) && k < |s|
    ensures var r := Visit(s, k);
      r.graph[k].modified &&
      (forall i :: 0 <= i < |s| && s[i].modified ==> r.graph[i].modified) &&
      (forall i :: 0 <= i < |s| ==> r.graph[i].remaining == s[i].remaining)
  {
  }

  /**
   * A visit that changes nothing at a touched (or uncoloured) node: the node
   * held a colour that its view and nogoods allow, and the visit only marks
   * it and tells that colour to its higher-named neighbours.
   */
  lemma VisitQuiet(s: seq<Node>, k: nat)
    requires WellFormed(s) && k < |s|
    requires s[k].modified || s[k].color.None?
    requires !Visit(s, k).changed
    ensures s[k].color.Some? && Allowed(s[k], s[k].color.value)
    ensures Visit(s, k).graph == Propagate(s[k := s[k].(modified := true)], k, s[k].color.value)
  {
    VisitOutcome(s, k);
    var next := LastAndNextColor(s, k).1;
    assert s[k].AssignColor(next.value) == s[k];
  }

  /**
   * Node k after the first steps of its visit: the chosen colour (if any)
   * assigned and the node marked as touched.
   */
  function Marked(s: seq<Node>, k: nat): (t: seq<Node>)
    requires WellFormed(s) && k < |s|
    ensures SameShape(s, t) && WellFormed(t)
    ensures forall i :: 0 <= i < |s| && i != k ==> t[i] == s[i]
    ensures t[k].modified && t[k].(color := s[k].color, modified := s[k].modified) == s[k]
    ensures LastAndNextColor(s, k).1.Some? ==> t[k].color == LastAndNextColor(s, k).1
    ensures LastAndNextColor(s, k).1.None? ==> t[k].color == s[k].color
  {
    var next := LastAndNextColor(s, k).1;
    s[k := s[k].(color := if next.Some? then next else s[k].color, modified := true)]
  }

  /**
   * What a visit does to the other nodes. A first colour, or a kept one, is
   * told to the higher-named neighbours; a switch to a different colour is
   * told to nobody; with no colour left, a non-empty view backtracks and an
   * empty one stops the run with nothing else changed.
   */
  lemma VisitEffect(s: seq<Node>, k: nat)
    requires WellFormed(s) && k < |s|
    ensures var last, next := s[k].color, LastAndNextColor(s, k).1;
      next.Some? && (last.None? || last == next) ==>
        !Visit(s, k).stop && Visit(s, k).graph == Propagate(Marked(s, k), k, next.value)
    ensures var last, next := s[k].color, LastAndNextColor(s, k).1;
      next.Some? && last.Some? && last != next ==>
        !Visit(s, k).stop && Visit(s, k).graph == Marked(s, k)
    ensures var next := LastAndNextColor(s, k).1;
      next.None? && s[k].agentView != [] ==>
        !Visit(s, k).stop && Visit(s, k).graph == Backtrack(Marked(s, k), k)
    ensures var next := LastAndNextColor(s, k).1;
      next.None? && s[k].agentView == [] ==>
        Visit(s, k).stop && Visit(s, k).graph == Marked(s, k)
  {
    var next := LastAndNextColor(s, k).1;
    var s1 := if next.Some? then s[k := s[k].AssignColor(next.value)] else s;
    assert s1[k := s1[k].(modified := true)] == Marked(s, k);
  }

  /** Node i is named i, as the graphs built by `read_graph` are; the source compares names with indices. */
  predicate NamesAreIndices(s: seq<Node>)
  {
    forall i :: 0 <= i < |s| ==> s[i].name == i
  }

  /** Every node is coloured, or if it is not, nobody has touched it: a coloured, untouched node would keep its colour unchecked. */
  predicate Ready(s: seq<Node>)
  {
    forall i :: 0 <= i < |s| ==> s[i].modified || s[i].color.None?
  }

  /** Adjacency is symmetric, as `read_graph` builds it. */
  predicate Symmetric(s: seq<Node>)
  {
    forall i, nb :: 0 <= i < |s| && 0 <= nb < |s| && nb in s[i].neighbors ==> i in s[nb].neighbors
  }

  /** No node lists itself as a neighbour. */
  predicate NoSelfLoops(s: seq<Node>)
  {
    forall i :: 0 <= i < |s| ==> i !in s[i].neighbors
  }

  /**
   * The state t reached after visiting nodes 0..m-1 of a pass from s without
   * any change: colours are those of s, marks only grew, the visited nodes are
   * coloured apart from their lower neighbours, and each visited node's colour
   * sits in the view of each of its higher neighbours still to be visited.
   */
  ghost predicate QuietSoFar(s: seq<Node>, t: seq<Node>, m: nat)
  {
    m <= |s| && SameShape(s, t) &&
    (forall i :: 0 <= i < |s| ==> t[i].color == s[i].color && (s[i].modified ==> t[i].modified)) &&
    (forall j :: 0 <= j < m ==> s[j].color.Some?) &&
    (forall j, i :: 0 <= j < i < m && i in s[j].neighbors ==> s[j].color != s[i].color) &&
    (forall j, i :: 0 <= j < m <= i < |s| && i in s[j].neighbors ==> NodeState(j, s[j].color.value) in t[i].agentView)
  }

  /** One more quiet visit extends `QuietSoFar`. */
  lemma QuietStep(s: seq<Node>, t: seq<Node>, m: nat)
    requires WellFormed(t) && NamesAreIndices(s) && Ready(s)
    requires m < |s| && QuietSoFar(s, t, m)
    requires !Visit(t, m).changed
    ensures QuietSoFar(s, Visit(t, m).graph, m + 1)
  {
    VisitQuiet(t, m);
    var c := t[m].color.value;
    var t1 := t[m := t[m].(modified := true)];
    var r := Propagate(t1, m, c);
    assert Visit(t, m).graph == r;
    forall j, i | 0 <= j < i < m + 1 && i in s[j].neighbors
      ensures s[j].color != s[i].color
    {
      if i == m {
        assert NodeState(j, s[j].color.value) in t[m].agentView;
      }
    }
    forall j, i | 0 <= j < m + 1 <= i < |s| && i in s[j].neighbors
      ensures NodeState(j, s[j].color.value) in r[i].agentView
    {
      if j < m {
        assert NodeState(j, s[j].color.value) in t1[i].agentView;
      } else {
        assert i in t1[m].neighbors && t1[i].name > m;
      }
    }
  }

  /**
   * A pass that changes nothing from node m on, starting where `QuietSoFar`
   * holds, ends with the colours of s, all present and apart along every
   * edge from a lower to a higher node.
   */
  lemma {:induction false} QuietPass(s: seq<Node>, t: seq<Node>, m: nat)
    requires WellFormed(t) && NamesAreIndices(s) && Ready(s)
    requires QuietSoFar(s, t, m)
    requires !PassFrom(t, m, false).changed
    ensures var r := PassFrom(t, m, false).graph;
      (forall i :: 0 <= i < |s| ==> r[i].color == s[i].color && s[i].color.Some?) &&
      (forall j, i :: 0 <= j < i < |s| && i in s[j].neighbors ==> s[j].color != s[i].color)
    decreases |s| - m
  {
    if m == |s| {
      PassFromEnd(t, false);
    } else {
      var u := QuietPassStep(s, t, m);
      QuietPass(s, u, m + 1);
    }
  }

  /** The visit of node m in a quiet pass: it does not stop, and the rest of the pass goes on from its graph u. */
  lemma QuietPassStep(s: seq<Node>, t: seq<Node>, m: nat) returns (u: seq<Node>)
    requires WellFormed(t) && NamesAreIndices(s) && Ready(s)
    requires m < |s| && QuietSoFar(s, t, m)
    requires !PassFrom(t, m, false).changed
    ensures WellFormed(u) && QuietSoFar(s, u, m + 1) && !PassFrom(u, m + 1, false).changed
    ensures PassFrom(t, m, false).graph == PassFrom(u, m + 1, false).graph
  {
    var st := Visit(t, m);
    VisitOutcome(t, m);
    PassFromStep(t, m, false);
    assert !st.stop && !st.changed;
    QuietStep(s, t, m);
    u := st.graph;
  }

  /** Every node is coloured and no in-range neighbour shares its colour. */
  ghost predicate ProperlyColored(r: seq<Node>)
  {
    (forall i :: 0 <= i < |r| ==> r[i].color.Some?) &&
    forall i, nb :: 0 <= i < |r| && nb in r[i].neighbors && nb < |r| ==> r[nb].color != r[i].color
  }

  /**
   * What `read_graph` guarantees of a graph (indices for names, in-range,
   * symmetric adjacency without self-loops), and that no coloured node
   * starts untouched.
   */
  predicate Prepared(s: seq<Node>)
  {
    WellFormed(s) && NamesAreIndices(s) && Ready(s) && Symmetric(s) && NoSelfLoops(s)
  }

  /** A pass that changes nothing ends with a proper colouring of a symmetric graph without self-loops. */
  lemma QuietPassIsConsistent(s: seq<Node>)
    requires Prepared(s)
    requires !PassFrom(s, 0, false).changed
    ensures ProperlyColored(PassFrom(s, 0, false).graph)
  {
    QuietPass(s, s, 0);
    ApartIsProper(s, PassFrom(s, 0, false).graph);
  }

  /**
   * Colours of s, all present and apart along every edge from a lower to a
   * higher node, colour r properly when s is symmetric without self-loops.
   */
  lemma ApartIsProper(s: seq<Node>, r: seq<Node>)
    requires SameShape(s, r) && Symmetric(s) && NoSelfLoops(s)
    requires forall i :: 0 <= i < |s| ==> r[i].color == s[i].color && s[i].color.Some?
    requires forall j, i :: 0 <= j < i < |s| && i in s[j].neighbors ==> s[j].color != s[i].color
    ensures ProperlyColored(r)
  {
    forall i, nb | 0 <= i < |r| && nb in r[i].neighbors && nb < |r|
      ensures r[nb].color != r[i].color
    {
      assert nb in s[i].neighbors && i in s[nb].neighbors;
    }
  }

  /**
   * A pass that does not stop keeps names, adjacency and the graph's
   * well-formedness, and leaves every node touched.
   */
  lemma PassKeepsPrepared(s: seq<Node>)
    requires Prepared(s)
    requires !PassFrom(s, 0, false).stop
    ensures Prepared(PassFrom(s, 0, false).graph)
  {
  }

  /** A run whose first pass settles ends with that pass's graph. */
  lemma AbtAfterQuietPass(s: seq<Node>, fuel: nat)
    requires Prepared(s) && fuel > 0
    requires !PassFrom(s, 0, false).changed
    requires ProperlyColored(PassFrom(s, 0, false).graph)
    ensures Abt(s, fuel).0 == Done(true) ==> ProperlyColored(Abt(s, fuel).1)
  {
  }

  /** After a pass that neither stops nor settles, the run goes on from its graph with one pass fewer. */
  lemma AbtAfterPass(s: seq<Node>, rest: nat)
    requires Prepared(s)
    requires !PassFrom(s, 0, false).stop && PassFrom(s, 0, false).changed
    requires var g := PassFrom(s, 0, false).graph;
      Abt(g, rest).0 == Done(true) ==> ProperlyColored(Abt(g, rest).1)
    ensures Abt(s, rest + 1).0 == Done(true) ==> ProperlyColored(Abt(s, rest + 1).1)
  {
  }

  /**
   * Soundness of `abt_sequential`: when it reports success, every node is
   * coloured and no two neighbours share a colour, which is what
   * `all_consistent` checks. The test `larger_graph_abt_seq` only asserts
   * that `abt_sequential` returns true.
   */
  lemma {:induction false} AbtSolvedIsConsistent(s: seq<Node>, fuel: nat)
    requires Prepared(s)
    ensures Abt(s, fuel).0 == Done(true) ==> ProperlyColored(Abt(s, fuel).1)
    decreases fuel
  {
    if fuel > 0 {
      var p := PassFrom(s, 0, false);
      if !p.changed {
        QuietPassIsConsistent(s);
        AbtAfterQuietPass(s, fuel);
      } else if !p.stop {
        var rest: nat := fuel - 1;
        PassKeepsPrepared(s);
        AbtSolvedIsConsistent(p.graph, rest);
        AbtAfterPass(s, rest);
      }
    }
  }

  /** A pass from node k visits k, then stops or carries on from k + 1. */
  lemma PassFromStep(s: seq<Node>, k: nat, changed: bool)
    requires WellFormed(s) && k < |s|
    ensures var st := Visit(s, k);
      PassFrom(s, k, changed) == if st.stop then st else PassFrom(st.graph, k + 1, changed || st.changed)
  {
  }

  /** A run whose first pass stops ends there, with failure. */
  lemma AbtStopsAfter(s: seq<Node>, fuel: nat)
    requires WellFormed(s) && fuel > 0 && PassFrom(s, 0, false).stop
    ensures Abt(s, fuel) == (Done(false), PassFrom(s, 0, false).graph)
  {
  }

  /** A run whose first pass neither stops nor changes anything ends there, with success. */
  lemma AbtSettlesAfter(s: seq<Node>, fuel: nat)
    requires WellFormed(s) && fuel > 0
    requires !PassFrom(s, 0, false).stop && !PassFrom(s, 0, false).changed
    ensures Abt(s, fuel) == (Done(true), PassFrom(s, 0, false).graph)
  {
  }

  /** A run whose first pass changes a colour continues from that pass's graph. */
  lemma AbtContinuesAfter(s: seq<Node>, rest: nat)
    requires WellFormed(s)
    requires !PassFrom(s, 0, false).stop && PassFrom(s, 0, false).changed
    ensures Abt(s, rest + 1) == Abt(PassFrom(s, 0, false).graph, rest)
  {
  }

  /** Every agent view holds at most one entry per sender. */
  predicate AllUnique(s: seq<Node>)
  {
    forall i {:trigger UniqueSenders(s[i].agentView)} :: 0 <= i < |s| ==> UniqueSenders(s[i].agentView)
  }

  /** Dropping an entry keeps a view's senders distinct. */
  lemma RemoveAtKeepsUnique(v: seq<NodeState>, j: nat)
    requires j < |v| && UniqueSenders(v)
    ensures UniqueSenders(RemoveAt(v, j))
  {
    var w := RemoveAt(v, j);
    forall a, b | 0 <= a < b < |w|
      ensures w[a].name != w[b].name
    {
      var a', b' := if a < j then a else a + 1, if b < j then b else b + 1;
      assert w[a] == v[a'] && w[b] == v[b'] && a' < b';
    }
  }

  /** Telling the neighbours of k about its colour keeps every view's senders distinct. */
  lemma PropagateKeepsUnique(s: seq<Node>, k: nat, c: Color)
    requires WellFormed(s) && k < |s| && AllUnique(s)
    ensures AllUnique(Propagate(s, k, c))
  {
    var r := Propagate(s, k, c);
    forall i | 0 <= i < |s|
      ensures UniqueSenders(r[i].agentView)
    {
      if i in s[k].neighbors && s[i].name > k {
        RecordKeepsSendersUnique(s[i].agentView, k, c);
      }
    }
  }

  /** Backtracking keeps every view's senders distinct: it only removes one entry. */
  lemma BacktrackKeepsUnique(s: seq<Node>, k: nat)
    requires WellFormed(s) && k < |s| && |s[k].agentView| > 0 && AllUnique(s)
    ensures AllUnique(Backtrack(s, k))
  {
    RemoveAtKeepsUnique(s[k].agentView, Blame(s[k].agentView));
  }

  /** A visit keeps every agent view free of two entries from the same sender. */
  lemma VisitKeepsUnique(s: seq<Node>, k: nat)
    requires WellFormed(s) && k < |s|
    ensures AllUnique(s) ==> AllUnique(Visit(s, k).graph)
  {
    if AllUnique(s) {
      VisitEffect(s, k);
      var t := Marked(s, k);
      assert AllUnique(t) by {
        assert forall i :: 0 <= i < |s| ==> t[i].agentView == s[i].agentView;
      }
      var next := LastAndNextColor(s, k).1;
      if next.Some? {
        PropagateKeepsUnique(t, k, next.value);
      } else if s[k].agentView != [] {
        BacktrackKeepsUnique(t, k);
      }
    }
  }

  /** A whole run keeps every agent view free of repeated senders, as `Record` intends. */
  lemma {:induction false} AbtKeepsUnique(s: seq<Node>, fuel: nat)
    requires WellFormed(s) && AllUnique(s)
    ensures AllUnique(Abt(s, fuel).1)
    decreases fuel
  {
    if fuel > 0 {
      var p := PassFrom(s, 0, false);
      if p.stop {
        AbtStopsAfter(s, fuel);
      } else if !p.changed {
        AbtSettlesAfter(s, fuel);
      } else {
        var rest: nat := fuel - 1;
        AbtContinuesAfter(s, rest);
        AbtKeepsUnique(p.graph, rest);
      }
    }
  }

  /**
   * `abt_sequential` on the graph in place, cut short after `fuel` passes.
   * It ends in the state and with the outcome `Abt` describes.
   */
  method AbtSequential(g: array<Node>, fuel: nat) returns (r: Run)
    requires WellFormed(g[..])
    modifies g
    ensures (r, g[..]) == Abt(old(g[..]), fuel)
  {
    r := OutOfFuel;
    var left := fuel;
    ghost var run := Abt(g[..], fuel);
    while r.OutOfFuel? && left > 0
      invariant WellFormed(g[..])
      invariant r.OutOfFuel? ==> Abt(g[..], left) == run
      invariant r.Done? ==> (r, g[..]) == run
    {
      left := left - 1;
      var hasChange, stop := RunPass(g, left, run);
      r := if stop then Done(false) else if hasChange then OutOfFuel else Done(true);
    }
  }

  /**
   * One round of the outer loop of `abt_sequential`, on a graph whose run
   * with `rest + 1` passes allowed is `run`: `rest` passes are left after it.
   */
  method RunPass(g: array<Node>, rest: nat, ghost run: (Run, seq<Node>)) returns (hasChange: bool, stop: bool)
    requires WellFormed(g[..]) && Abt(g[..], rest + 1) == run
    modifies g
    ensures WellFormed(g[..])
    ensures stop ==> (Done(false), g[..]) == run
    ensures !stop && !hasChange ==> (Done(true), g[..]) == run
    ensures !stop && hasChange ==> Abt(g[..], rest) == run
  {
    ghost var start := g[..];
    hasChange, stop := OnePass(g);
    if stop {
      AbtStopsAfter(start, rest + 1);
    } else if hasChange {
      AbtContinuesAfter(start, rest);
    } else {
      AbtSettlesAfter(start, rest + 1);
    }
  }

  /**
   * One pass of `abt_sequential`: visit every node in index order, noting
   * whether a colour changed; `stop` reports that a visit returned failure.
   */
  method OnePass(g: array<Node>) returns (hasChange: bool, stop: bool)
    requires WellFormed(g[..])
    modifies g
    ensures Step(g[..], hasChange, stop) == PassFrom(old(g[..]), 0, false)
  {
    hasChange := false;
    stop := false;
    var k := 0;
    ghost var pass := PassFrom(g[..], 0, false);
    while k < g.Length && !stop
      invariant k <= g.Length && WellFormed(g[..])
      invariant !stop ==> PassFrom(g[..], k, hasChange) == pass
      invariant stop ==> Step(g[..], hasChange, true) == pass
    {
      hasChange, stop := PassStep(g, k, hasChange);
      k := k + 1;
    }
    if !stop {
      PassFromEnd(g[..], hasChange);
    }
  }

  /** A pass that has visited every node ends with the flags it has gathered. */
  lemma PassFromEnd(s: seq<Node>, changed: bool)
    requires WellFormed(s)
    ensures PassFrom(s, |s|, changed) == Step(s, changed, false)
  {
  }

  /** One iteration of the pass loop: visit node k and fold its change flag into `hasChange`. */
  method PassStep(g: array<Node>, k: nat, hasChange: bool) returns (hasChange': bool, stop: bool)
    requires WellFormed(g[..]) && k < g.Length
    modifies g
    ensures WellFormed(g[..])
    ensures stop ==> Step(g[..], hasChange', true) == PassFrom(old(g[..]), k, hasChange)
    ensures !stop ==> PassFrom(g[..], k + 1, hasChange') == PassFrom(old(g[..]), k, hasChange)
  {
    PassFromStep(g[..], k, hasChange);
    var changed;
    changed, stop := VisitNode(g, k);
    hasChange' := hasChange || changed;
  }

  /** The body of the pass loop of `abt_sequential` for node k; `stop` stands for its `return false`. */
  method VisitNode(g: array<Node>, k: nat) returns (changed: bool, stop: bool)
    requires WellFormed(g[..]) && k < g.Length
    modifies g
    ensures Visit(old(g[..]), k) == Step(g[..], changed, stop)
  {
    var (last, next) := LastAndNextColor(g[..], k);
    if next.Some? {
      g[k] := g[k].AssignColor(next.value);
    }
    changed := false;
    if next.Some? && last.Some? {
      if last.value != next.value {
        changed := true;
      }
    } else {
      changed := true;
    }
    g[k] := g[k].(modified := true);
    stop := false;
    match next
    case Some(c) =>
      if last.None? || last.value == c {
        InformNeighbors(g, k, c);
      }
    case None =>
      if |g[k].agentView| < 1 {
        stop := true;
      } else {
        BacktrackAt(g, k);
      }
  }

  /** The propagation loop: every neighbour of k named above k records (k, c) and is marked as touched. */
  method InformNeighbors(g: array<Node>, k: nat, c: Color)
    requires WellFormed(g[..]) && k < g.Length
    modifies g
    ensures g[..] == Propagate(old(g[..]), k, c)
  {
    var nbrs := g[k].neighbors;
    ghost var s := g[..];
    for i := 0 to |nbrs|
      invariant g[..] == PropagateTo(s, nbrs[..i], k, c)
    {
      PropagateToSnoc(s, nbrs, i, k, c);
      InformAt(g, nbrs[i], k, c);
    }
    assert nbrs[..|nbrs|] == nbrs;
  }

  /** One iteration of the propagation loop: neighbour nb, if named above k, records (k, c) and is marked as touched. */
  method InformAt(g: array<Node>, nb: nat, k: nat, c: Color)
    requires nb < g.Length
    modifies g
    ensures g[..] == InformOne(old(g[..]), nb, k, c)
  {
    if g[nb].name > k {
      RecordInView(g, nb, k, c);
      g[nb] := g[nb].(modified := true);
    }
  }

  /** Propagating to one more adjacency entry informs that one neighbour after the others. */
  lemma PropagateToSnoc(s: seq<Node>, nbrs: seq<nat>, i: nat, k: nat, c: Color)
    requires i < |nbrs| && forall j :: 0 <= j < |nbrs| ==> nbrs[j] < |s|
    ensures PropagateTo(s, nbrs[..i + 1], k, c) == InformOne(PropagateTo(s, nbrs[..i], k, c), nbrs[i], k, c)
  {
    assert nbrs[..i + 1][..i] == nbrs[..i];
  }

  /**
   * The agent-view update for one neighbour: overwrite the first entry from
   * k with colour c, or append (k, c) when there is none.
   */
  method RecordInView(g: array<Node>, nb: nat, k: nat, c: Color)
    requires nb < g.Length
    modifies g
    ensures g[..] == old(g[..])[nb := old(g[nb]).(agentView := Record(old(g[nb].agentView), k, c))]
  {
    var view := g[nb].agentView;
    for j := 0 to |view|
      invariant g[..] == old(g[..])
      invariant forall i :: 0 <= i < j ==> view[i].name != k
    {
      if view[j].name == k {
        g[nb] := g[nb].(agentView := view[j := NodeState(view[j].name, c)]);
        return;
      }
    }
    g[nb] := g[nb].(agentView := view + [NodeState(k, c)]);
  }

  /**
   * The backtrack branch: find the entry of k's view with the greatest
   * sender (the last one on ties), send that sender a nogood for the colour,
   * mark both nodes as touched and drop the entry.
   */
  method BacktrackAt(g: array<Node>, k: nat)
    requires WellFormed(g[..]) && k < g.Length && |g[k].agentView| > 0
    modifies g
    ensures g[..] == Backtrack(old(g[..]), k)
  {
    var largestNode, largestColor, largestIdx := FindBlame(g[k].agentView);
    g[largestNode] := g[largestNode].(noGood := g[largestNode].noGood + [largestColor], modified := true);
    g[k] := g[k].(modified := true);
    g[k] := g[k].(agentView := RemoveAt(g[k].agentView, largestIdx));
  }

  /** The scan of the backtrack branch: the entry of `view` with the greatest sender, the last one on ties. */
  method FindBlame(view: seq<NodeState>) returns (largestNode: nat, largestColor: Color, largestIdx: nat)
    requires |view| > 0
    ensures largestIdx == Blame(view)
    ensures view[largestIdx] == NodeState(largestNode, largestColor)
  {
    largestNode, largestColor, largestIdx := 0, Red, 0;
    for a := 0 to |view|
      invariant largestIdx < |view|
      invariant a == 0 ==> largestNode == 0 && largestIdx == 0
      invariant a > 0 ==> largestIdx == Blame(view[..a])
      invariant a > 0 ==> view[largestIdx] == NodeState(largestNode, largestColor)
    {
      assert view[..a + 1][..a] == view[..a];
      if view[a].name >= largestNode {
        largestNode := view[a].name;
        largestColor := view[a].color;
        largestIdx := a;
      }
    }
    assert view[..|view|] == view;
  }
}
