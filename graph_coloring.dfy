/**
 * The node record of graph_coloring/main.rs and the read-only decisions made
 * over it: the two conflict checks, and the colour choice of a node in
 * Asynchronous Backtracking (`update_color`, `get_last_and_next_color`).
 *
 * A graph is the sequence of its nodes; node i is meant to be named i, and
 * neighbours are node indices.
 */
module GraphColoring {
  import opened Wrappers
  import opened SevenColoring

  /** An agent-view entry: the name of a node and the colour it last reported (the source's `NodeState` tuple). */
  datatype NodeState = NodeState(name: nat, color: Color)

  /**
   * A node of the search: its colour (if any), its adjacency list, the stack
   * of colours the exhaustive search has not tried yet, the colours reported
   * by other nodes, the colours it was told to avoid, and whether another node
   * has touched its state.
   */
  datatype Node = Node(
    name: nat,
    color: Option<Color>,
    neighbors: seq<nat>,
    remaining: seq<Color>,
    agentView: seq<NodeState>,
    noGood: seq<Color>,
    modified: bool)
  {
    /** `add_neighbor`: appends one index to the adjacency list and changes nothing else. */
    function AddNeighbor(neighbor: nat): (n: Node)
      ensures n.neighbors == neighbors + [neighbor]
      ensures n.(neighbors := neighbors) == this
    {
      this.(neighbors := neighbors + [neighbor])
    }

    /** `assign_color`: the node now holds the given colour and nothing else changes. */
    function AssignColor(c: Color): (n: Node)
      ensures n.color == Some(c)
      ensures n.(color := color) == this
    {
      this.(color := Some(c))
    }
  }

  /** `Node::new`: an uncoloured, unmodified node with no neighbours, every colour still to try and empty views. */
  function NewNode(name: nat): (n: Node)
    ensures n.name == name && n.color == None && n.neighbors == [] && !n.modified
    ensures n.remaining == VectorOfColors() && n.agentView == [] && n.noGood == []
  {
    Node(name, None, [], VectorOfColors(), [], [], false)
  }

  /**
   * `new_assign_valid`: no neighbour below `bound` holds the same colour
   * option as `cur`. The source indexes the graph only at such neighbours.
   */
  function NewAssignValid(g: seq<Node>, cur: Node, bound: nat): (ok: bool)
    requires forall nb :: nb in cur.neighbors && nb < bound ==> nb < |g|
    ensures ok <==> forall nb :: nb in cur.neighbors && nb < bound ==> g[nb].color != cur.color
  {
    NoClashAmong(g, cur.neighbors, cur.color, bound)
  }

  /** The scan of `new_assign_valid` over an adjacency list, stopping at the first clash. */
  function NoClashAmong(g: seq<Node>, nbrs: seq<nat>, color: Option<Color>, bound: nat): (ok: bool)
    requires forall nb :: nb in nbrs && nb < bound ==> nb < |g|
    ensures ok <==> forall nb :: nb in nbrs && nb < bound ==> g[nb].color != color
  {
    if nbrs == [] then true
    else
      assert nbrs[0] in nbrs && forall nb :: nb in nbrs[1..] ==> nb in nbrs;
      (nbrs[0] < bound ==> g[nbrs[0]].color != color) && NoClashAmong(g, nbrs[1..], color, bound)
  }

  /**
   * `all_consistent`: no node has an in-range neighbour with the same colour
   * option. Two uncoloured neighbours count as a clash.
   */
  function AllConsistent(g: seq<Node>): (ok: bool)
    ensures ok <==> forall i, nb :: 0 <= i < |g| && nb in g[i].neighbors && nb < |g| ==> g[nb].color != g[i].color
  {
    NodesConsistentFrom(g, 0)
  }

  /** The outer loop of `all_consistent`, over the nodes from index `from` on. */
  function NodesConsistentFrom(g: seq<Node>, from: nat): (ok: bool)
    requires from <= |g|
    ensures ok <==> forall i, nb :: from <= i < |g| && nb in g[i].neighbors && nb < |g| ==> g[nb].color != g[i].color
    decreases |g| - from
  {
    from == |g| || (NewAssignValid(g, g[from], |g|) && NodesConsistentFrom(g, from + 1))
  }

  /** Colour c is open to node n: no nogood names it and no agent-view entry holds it. */
  predicate Allowed(n: Node, c: Color)
  {
    c !in n.noGood && forall e {:trigger e in n.agentView} :: e in n.agentView ==> e.color != c
  }

  /**
   * `update_color`: keep the current colour if it is still allowed, otherwise
   * the first allowed colour of `remaining` in order, or `None` if there is none.
   */
  function UpdateColor(n: Node): (r: Option<Color>)
    ensures n.color.Some? && Allowed(n, n.color.value) ==> r == n.color
    ensures r.Some? ==> Allowed(n, r.value)
    ensures !(n.color.Some? && Allowed(n, n.color.value)) ==>
      (r.None? <==> forall c :: c in n.remaining ==> !Allowed(n, c))
  {
    if n.color.Some? && Allowed(n, n.color.value) then n.color
    else FirstAllowedFrom(n, 0)
  }

  /** When the current colour is not allowed, `update_color` takes the earliest allowed entry of `remaining`. */
  lemma UpdateColorTakesFirst(n: Node)
    requires !(n.color.Some? && Allowed(n, n.color.value)) && UpdateColor(n).Some?
    ensures exists i :: 0 <= i < |n.remaining| && n.remaining[i] == UpdateColor(n).value &&
                        forall j :: 0 <= j < i ==> !Allowed(n, n.remaining[j])
  {
    FirstAllowedIsFirst(n, 0);
  }

  /** The scan of `update_color` over `remaining` from position i. */
  function FirstAllowedFrom(n: Node, i: nat): (r: Option<Color>)
    requires i <= |n.remaining|
    ensures r.None? <==> forall j :: i <= j < |n.remaining| ==> !Allowed(n, n.remaining[j])
    ensures r.Some? ==> Allowed(n, r.value)
    decreases |n.remaining| - i
  {
    if i == |n.remaining| then None
    else if Allowed(n, n.remaining[i]) then Some(n.remaining[i])
    else FirstAllowedFrom(n, i + 1)
  }

  /** The colour the scan finds sits at some position k, and no earlier position from i on is allowed. */
  lemma {:induction false} FirstAllowedIsFirst(n: Node, i: nat)
    requires i <= |n.remaining| && FirstAllowedFrom(n, i).Some?
    ensures exists k :: i <= k < |n.remaining| && n.remaining[k] == FirstAllowedFrom(n, i).value &&
                        forall j :: i <= j < k ==> !Allowed(n, n.remaining[j])
    decreases |n.remaining| - i
  {
    if !Allowed(n, n.remaining[i]) {
      FirstAllowedIsFirst(n, i + 1);
      var k :| i + 1 <= k < |n.remaining| && n.remaining[k] == FirstAllowedFrom(n, i).value &&
        forall j :: i + 1 <= j < k ==> !Allowed(n, n.remaining[j]);
      assert forall j :: i <= j < k ==> !Allowed(n, n.remaining[j]);
    }
  }

  /**
   * `get_last_and_next_color`: the node's colour before the visit, and the
   * colour it should hold after. A coloured node nobody has touched keeps
   * its colour unchecked; otherwise the choice is `update_color`'s, so a
   * chosen colour is allowed and `None` means nothing in `remaining` is.
   */
  function LastAndNextColor(g: seq<Node>, k: nat): (r: (Option<Color>, Option<Color>))
    requires k < |g|
    ensures r.0 == g[k].color
    ensures g[k].color.Some? && !g[k].modified ==> r.1 == g[k].color
    ensures g[k].color.None? || g[k].modified ==> r.1 == UpdateColor(g[k])
    ensures (g[k].color.None? || g[k].modified) && r.1.Some? ==> Allowed(g[k], r.1.value)
    ensures r.1.None? ==> forall c :: c in g[k].remaining ==> !Allowed(g[k], c)
  {
    var last := g[k].color;
    var next := match last
      case None => UpdateColor(g[k])
      case Some(_) => if !g[k].modified then g[k].color else UpdateColor(g[k]);
    (last, next)
  }
}
