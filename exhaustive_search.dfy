/**
 * `exhaustive_search` of graph_coloring/main.rs: single-threaded
 * backtracking. Node `index` pops candidate colours off its `remaining`
 * stack until one does not clash with a lower-indexed neighbour; then the
 * search moves forward. When the stack runs out, it is refilled and the
 * search steps back, or gives up at node 0.
 */
module ExhaustiveSearch {
  import opened NatArith
  import opened Wrappers
  import opened SevenColoring
  import opened GraphColoring

  /** The search changes only the `color` and `remaining` fields of a node. */
  predicate SearchFrame(before: Node, after: Node)
  {
    before.(color := after.color, remaining := after.remaining) == after
  }

  /** Nodes below m are coloured, and none clashes with a lower-indexed neighbour. */
  ghost predicate Settled(s: seq<Node>, m: nat)
    requires m <= |s|
  {
    forall i :: 0 <= i < m ==> s[i].color.Some? && NewAssignValid(s, s[i], i)
  }

  /**
   * `exhaustive_search`. On success every node is coloured and differs from
   * each lower-indexed neighbour; on failure node 0 has tried every colour.
   * Candidates are popped from the end of `remaining`, so `vector_of_colors()`
   * is tried in reverse (Pink first). Started on fresh nodes, the search is
   * complete: it fails only when no proper colouring exists.
   */
  method ExhaustiveSearch(g: array<Node>) returns (found: bool)
    modifies g
    ensures forall i :: 0 <= i < g.Length ==> SearchFrame(old(g[i]), g[i])
    ensures found ==> Settled(g[..], g.Length)
    ensures !found ==> g.Length > 0 && g[0].remaining == []
    ensures Unstarted(old(g[..])) ==> (found <==> Colourable(old(g[..])))
  {
    ghost var s0 := g[..];
    ghost var b := 1 + Max(|VectorOfColors()|, LongestRemaining(g[..]));
    if Unstarted(s0) {
      TrackedStart(s0);
    }
    var index: nat := 0;
    found := true;
    while index < g.Length && found
      invariant index <= g.Length
      invariant Framed(s0, g[..]) && Bounded(g[..], b)
      invariant found ==> Settled(g[..], index)
      invariant !found ==> g.Length > 0 && g[0].remaining == []
      invariant Unstarted(s0) && found ==> Tracked(s0, g[..], index)
      invariant Unstarted(s0) && !found ==> !Colourable(s0)
      decreases found, Measure(g[..], index, b), index
    {
      index, found := SearchStep(g, index, s0, b, Unstarted(s0));
    }
    if found {
      SettledColourable(s0, g[..]);
    }
  }

  /**
   * One iteration of the outer loop: find a colour for node `index` and move
   * forward, or refill its stack and step back, or give up at node 0.
   */
  method SearchStep(g: array<Node>, index: nat, ghost s0: seq<Node>, ghost b: nat, ghost tracking: bool) returns (next: nat, found: bool)
    requires index < g.Length
    requires Framed(s0, g[..]) && Bounded(g[..], b) && Settled(g[..], index)
    requires |VectorOfColors()| < b
    requires tracking ==> Tracked(s0, g[..], index)
    modifies g
    ensures Framed(s0, g[..]) && Bounded(g[..], b)
    ensures next <= g.Length
    ensures found ==> Settled(g[..], next)
    ensures found ==> Measure(g[..], next, b) <= Measure(old(g[..]), index, b)
    ensures found ==> next < index || Measure(g[..], next, b) < Measure(old(g[..]), index, b)
    ensures !found ==> index == 0 && g[0].remaining == []
    ensures tracking && found ==> Tracked(s0, g[..], next)
    ensures tracking && !found ==> !Colourable(s0)
  {
    ghost var before := g[..];
    var hasMatch := PopUntilValid(g, index);
    found := true;
    if !hasMatch {
      if index > 0 {
        g[index] := g[index].(remaining := VectorOfColors());
        StepBack(s0, before, g[..], index, b, tracking);
        next := index - 1;
      } else {
        if tracking {
          GiveUp(s0, before);
        }
        next := index;
        found := false;
      }
    } else {
      StepForward(s0, before, g[..], index, b, tracking);
      next := index + 1;
    }
  }

  /** Every stack is still full, as `Node::new` leaves it. */
  ghost predicate Unstarted(s: seq<Node>)
  {
    forall i :: 0 <= i < |s| ==> s[i].remaining == VectorOfColors()
  }

  /** c colours node i with c[i], and no node shares its colour with a lower-indexed neighbour. */
  ghost predicate ProperColouring(s: seq<Node>, c: seq<Color>)
  {
    |c| == |s| && forall i, nb :: 0 <= i < |s| && nb in s[i].neighbors && nb < i ==> c[nb] != c[i]
  }

  /** Some assignment of the seven colours is a proper colouring of the graph. */
  ghost predicate Colourable(s: seq<Node>)
  {
    exists c :: ProperColouring(s, c)
  }

  /** A settled graph is colourable: its own colours are a proper colouring. */
  lemma SettledColourable(s0: seq<Node>, s: seq<Node>)
    requires Framed(s0, s) && Settled(s, |s|)
    ensures Colourable(s0)
  {
    var c := seq(|s|, i requires 0 <= i < |s| => s[i].color.value);
    forall i, nb | 0 <= i < |s| && nb in s0[i].neighbors && nb < i
      ensures c[nb] != c[i]
    {
      assert s0[i].neighbors == s[i].neighbors && NewAssignValid(s, s[i], i);
    }
    assert ProperColouring(s0, c);
  }

  /**
   * A graph with no more nodes than colours is colourable: give every node a
   * colour of its own. So the search on fresh nodes succeeds on the triangle
   * of the test `simple_c3`.
   */
  lemma SmallGraphColourable(s: seq<Node>)
    requires |s| <= NumColors()
    ensures Colourable(s)
  {
    var c := VectorOfColors()[..|s|];
    assert ProperColouring(s, c);
  }

  /**
   * A graph in which every node lists all lower-indexed nodes and that has
   * more nodes than colours is not colourable: the graph the test
   * `simple_invalid` builds, with `num_colors() + 1` mutually adjacent nodes.
   */
  lemma CompleteGraphNotColourable(s: seq<Node>)
    requires |s| > NumColors()
    requires forall i, j :: 0 <= j < i < |s| ==> j in s[i].neighbors
    ensures !Colourable(s)
  {
    forall c | ProperColouring(s, c)
      ensures false
    {
      forall i, j | 0 <= i < j < |c|
        ensures c[i] != c[j]
      {
        assert i in s[j].neighbors;
      }
      Pigeonhole(c, NumColors());
    }
  }

  /** Distinct colours whose ordinals are below n number at most n. */
  lemma {:induction false} Pigeonhole(c: seq<Color>, n: nat)
    requires forall i :: 0 <= i < |c| ==> Ordinal(c[i]) < n
    requires forall i, j :: 0 <= i < j < |c| ==> c[i] != c[j]
    ensures |c| <= n
  {
    if n > 0 {
      if p :| 0 <= p < |c| && Ordinal(c[p]) == n - 1 {
        var d := c[..p] + c[p + 1..];
        forall i | 0 <= i < |d|
          ensures d[i] == c[if i < p then i else i + 1]
        {
        }
        forall i | 0 <= i < |d|
          ensures Ordinal(d[i]) < n - 1
        {
          assert d[i] != c[p];
          assert VectorOfColors()[Ordinal(d[i])] == d[i];
        }
        Pigeonhole(d, n - 1);
      } else {
        assert forall i :: 0 <= i < |c| ==> Ordinal(c[i]) != n - 1;
        Pigeonhole(c, n - 1);
      }
    } else {
      assert |c| > 0 ==> Ordinal(c[0]) < n;
    }
  }

  /** r is a prefix of `vector_of_colors()`. */
  ghost predicate ColorPrefix(r: seq<Color>)
  {
    |r| <= |VectorOfColors()| && r == VectorOfColors()[..|r|]
  }

  /**
   * The stacks of a search started on fresh nodes, at position `index`:
   * every stack is a prefix of `vector_of_colors()`; a node below `index`
   * holds the colour just above its stack; the nodes above `index` are full.
   */
  ghost predicate StackShape(s: seq<Node>, index: nat)
    requires index <= |s|
  {
    (forall m :: 0 <= m < index ==>
      ColorPrefix(s[m].remaining) && |s[m].remaining| < |VectorOfColors()| &&
      s[m].color == Some(VectorOfColors()[|s[m].remaining|])) &&
    (index < |s| ==> ColorPrefix(s[index].remaining)) &&
    (forall m :: index < m < |s| ==> s[m].remaining == VectorOfColors())
  }

  /**
   * Colours of node m with this ordinal or above are ruled out: the popped
   * ones, and for a node below `index` also its current colour.
   */
  ghost function Tried(s: seq<Node>, index: nat, m: nat): nat
    requires m < |s|
  {
    |s[m].remaining| + if m < index then 1 else 0
  }

  /** Nodes below m have the colours c gives them. */
  ghost predicate AgreesUpTo(c: seq<Color>, s: seq<Node>, m: nat)
  {
    m <= |c| && m <= |s| && forall i :: 0 <= i < m ==> s[i].color == Some(c[i])
  }

  /** Where c agrees with the search up to node m, c's colour for m has not been ruled out. */
  ghost predicate Survives(c: seq<Color>, s: seq<Node>, index: nat)
  {
    forall m :: 0 <= m <= index && m < |s| && m < |c| && AgreesUpTo(c, s, m) ==> Ordinal(c[m]) < Tried(s, index, m)
  }

  /** The completeness invariant: no proper colouring of s0 has been skipped. */
  ghost predicate Tracked(s0: seq<Node>, s: seq<Node>, index: nat)
  {
    index <= |s| && StackShape(s, index) && forall c :: ProperColouring(s0, c) ==> Survives(c, s, index)
  }

  /** Fresh nodes at position 0 have skipped nothing. */
  lemma TrackedStart(s: seq<Node>)
    requires Unstarted(s)
    ensures Tracked(s, s, 0)
  {
    forall c | ProperColouring(s, c)
      ensures Survives(c, s, 0)
    {
      if |s| > 0 {
        assert Tried(s, 0, 0) == |VectorOfColors()|;
      }
    }
  }

  /**
   * A node whose untried colours all clash: no proper colouring agrees with
   * the search on the nodes below it.
   */
  lemma Exhausted(s0: seq<Node>, before: seq<Node>, index: nat)
    requires index < |before|
    requires Framed(s0, before) && Tracked(s0, before, index)
    requires forall j :: 0 <= j < |before[index].remaining| ==> Clashes(before, index, before[index].remaining[j])
    ensures forall c :: ProperColouring(s0, c) ==> !AgreesUpTo(c, before, index)
  {
    forall c | ProperColouring(s0, c)
      ensures !AgreesUpTo(c, before, index)
    {
      var j := Ordinal(c[index]);
      if j < |before[index].remaining| {
        assert before[index].remaining[j] == c[index];
        var nb :| nb in before[index].neighbors && nb < index && before[nb].color == Some(c[index]);
        assert SearchFrame(s0[index], before[index]);
        assert before[nb].color != Some(c[nb]);
      } else {
        assert Survives(c, before, index);
      }
    }
  }

  /** A successful pop and a step forward keep the completeness invariant. */
  lemma TrackedForward(s0: seq<Node>, before: seq<Node>, after: seq<Node>, index: nat)
    requires index < |before| == |after|
    requires forall i :: 0 <= i < |before| && i != index ==> after[i] == before[i]
    requires Framed(s0, before) && Tracked(s0, before, index)
    requires |after[index].remaining| < |before[index].remaining|
    requires after[index].remaining == before[index].remaining[..|after[index].remaining|]
    requires after[index].color == Some(before[index].remaining[|after[index].remaining|])
    requires forall j :: |after[index].remaining| + 1 <= j < |before[index].remaining| ==>
      Clashes(before, index, before[index].remaining[j])
    ensures Tracked(s0, after, index + 1)
  {
    ForwardShape(before, after, index);
    assert SearchFrame(s0[index], before[index]);
    forall c | ProperColouring(s0, c)
      ensures Survives(c, after, index + 1)
    {
      ForwardSurvives(s0, before, after, index, c);
    }
  }

  /** The stack shape after a successful pop at node `index` and a step forward. */
  lemma ForwardShape(before: seq<Node>, after: seq<Node>, index: nat)
    requires index < |before| == |after|
    requires forall i :: 0 <= i < |before| && i != index ==> after[i] == before[i]
    requires StackShape(before, index)
    requires |after[index].remaining| < |before[index].remaining|
    requires after[index].remaining == before[index].remaining[..|after[index].remaining|]
    requires after[index].color == Some(before[index].remaining[|after[index].remaining|])
    ensures StackShape(after, index + 1)
  {
    assert after[index].remaining == VectorOfColors()[..|after[index].remaining|];
  }

  /**
   * A proper colouring not skipped before a successful pop is not skipped
   * after it: the colours given up on at node `index` clash with its
   * lower-indexed neighbours, so a proper colouring agreeing below `index`
   * cannot use them.
   */
  lemma ForwardSurvives(s0: seq<Node>, before: seq<Node>, after: seq<Node>, index: nat, c: seq<Color>)
    requires index < |before| == |after| == |s0|
    requires forall i :: 0 <= i < |before| && i != index ==> after[i] == before[i]
    requires s0[index].neighbors == before[index].neighbors
    requires ColorPrefix(before[index].remaining)
    requires |after[index].remaining| < |before[index].remaining|
    requires forall j :: |after[index].remaining| + 1 <= j < |before[index].remaining| ==>
      Clashes(before, index, before[index].remaining[j])
    requires index + 1 < |after| ==> after[index + 1].remaining == VectorOfColors()
    requires ProperColouring(s0, c) && Survives(c, before, index)
    ensures Survives(c, after, index + 1)
  {
    var k := |after[index].remaining|;
    var j := Ordinal(c[index]);
    if k < j {
      if j < |before[index].remaining| {
        assert before[index].remaining[j] == c[index];
        var nb :| nb in before[index].neighbors && nb < index && before[nb].color == Some(c[index]);
        assert before[nb].color != Some(c[nb]);
      }
      assert !AgreesUpTo(c, before, index);
    }
    forall m | 0 <= m <= index + 1 && m < |after| && m < |c| && AgreesUpTo(c, after, m)
      ensures Ordinal(c[m]) < Tried(after, index + 1, m)
    {
      if m <= index {
        assert AgreesUpTo(c, before, m);
      }
    }
  }

  /** Refilling an exhausted node and stepping back keeps the completeness invariant. */
  lemma TrackedBack(s0: seq<Node>, before: seq<Node>, after: seq<Node>, index: nat)
    requires 0 < index < |before| == |after|
    requires forall i :: 0 <= i < |before| && i != index ==> after[i] == before[i]
    requires after[index].remaining == VectorOfColors()
    requires Tracked(s0, before, index)
    requires forall c :: ProperColouring(s0, c) ==> !AgreesUpTo(c, before, index)
    ensures Tracked(s0, after, index - 1)
  {
    assert StackShape(after, index - 1);
    forall c | ProperColouring(s0, c)
      ensures Survives(c, after, index - 1)
    {
      BackSurvives(before, after, index, c);
    }
  }

  /**
   * A colouring not skipped before a step back is not skipped after it: its
   * colour for node index-1 is not the current one, which no proper
   * colouring agreeing below `index` extends.
   */
  lemma BackSurvives(before: seq<Node>, after: seq<Node>, index: nat, c: seq<Color>)
    requires 0 < index < |before| == |after|
    requires forall i :: 0 <= i < |before| && i != index ==> after[i] == before[i]
    requires |before[index - 1].remaining| < |VectorOfColors()|
    requires before[index - 1].color == Some(VectorOfColors()[|before[index - 1].remaining|])
    requires Survives(c, before, index) && !AgreesUpTo(c, before, index)
    ensures Survives(c, after, index - 1)
  {
    var p := index - 1;
    if p < |c| && Ordinal(c[p]) == |before[p].remaining| {
      assert before[p].color == Some(c[p]);
      assert !AgreesUpTo(c, before, p);
    }
    forall m | 0 <= m <= index - 1 && m < |after| && m < |c| && AgreesUpTo(c, after, m)
      ensures Ordinal(c[m]) < Tried(after, index - 1, m)
    {
      assert AgreesUpTo(c, before, m);
    }
  }

  /** The termination measure of the outer loop at position `index`. */
  ghost function Measure(s: seq<Node>, index: nat, b: nat): nat
    requires index <= |s|
  {
    Odometer(s, if index < |s| then index + 1 else |s|, b)
  }

  /** Only `color` and `remaining` differ between `s0` and `s`, node by node. */
  ghost predicate Framed(s0: seq<Node>, s: seq<Node>)
  {
    |s0| == |s| && forall i :: 0 <= i < |s| ==> SearchFrame(s0[i], s[i])
  }

  /** Every `remaining` stack is shorter than b. */
  ghost predicate Bounded(s: seq<Node>, b: nat)
  {
    forall i :: 0 <= i < |s| ==> |s[i].remaining| < b
  }

  /** The loop invariants, completeness included, survive a refill of node `index` followed by a step back. */
  lemma StepBack(s0: seq<Node>, before: seq<Node>, after: seq<Node>, index: nat, b: nat, tracking: bool)
    requires 0 < index < |before| == |after|
    requires forall i :: 0 <= i < |before| && i != index ==> after[i] == before[i]
    requires SearchFrame(before[index], after[index]) && |after[index].remaining| < b
    requires Framed(s0, before) && Settled(before, index) && Bounded(before, b)
    requires after[index].remaining == VectorOfColors()
    requires forall j :: 0 <= j < |before[index].remaining| ==> Clashes(before, index, before[index].remaining[j])
    requires tracking ==> Tracked(s0, before, index)
    ensures Framed(s0, after) && Settled(after, index - 1) && Bounded(after, b)
    ensures Measure(after, index - 1, b) <= Measure(before, index, b)
    ensures tracking ==> Tracked(s0, after, index - 1)
  {
    SettledAgree(before, after, index - 1);
    OdometerRetreat(before, after, index, b);
    if tracking {
      Exhausted(s0, before, index);
      TrackedBack(s0, before, after, index);
    }
  }

  /** Giving up at node 0 when no colour is left: no proper colouring was skipped, so none exists. */
  lemma GiveUp(s0: seq<Node>, before: seq<Node>)
    requires 0 < |before|
    requires Framed(s0, before) && Tracked(s0, before, 0)
    requires forall j :: 0 <= j < |before[0].remaining| ==> Clashes(before, 0, before[0].remaining[j])
    ensures !Colourable(s0)
  {
    Exhausted(s0, before, 0);
  }

  /** Stepping back drops the digit of the node being left. */
  lemma OdometerRetreat(before: seq<Node>, after: seq<Node>, index: nat, b: nat)
    requires index < |before| == |after|
    requires forall i :: 0 <= i < |before| && i != index ==> after[i] == before[i]
    ensures Odometer(after, index, b) <= Odometer(before, index + 1, b)
  {
    OdometerPrefix(before, after, index, b);
  }

  /** The loop invariants, completeness included, survive a successful pop at node `index` and a step forward. */
  lemma StepForward(s0: seq<Node>, before: seq<Node>, after: seq<Node>, index: nat, b: nat, tracking: bool)
    requires index < |before| == |after|
    requires forall i :: 0 <= i < |before| && i != index ==> after[i] == before[i]
    requires SearchFrame(before[index], after[index])
    requires |after[index].remaining| < |before[index].remaining|
    requires after[index].color.Some? && NewAssignValid(after, after[index], index)
    requires Framed(s0, before) && Settled(before, index) && Bounded(before, b)
    requires after[index].remaining == before[index].remaining[..|after[index].remaining|]
    requires after[index].color == Some(before[index].remaining[|after[index].remaining|])
    requires forall j :: |after[index].remaining| + 1 <= j < |before[index].remaining| ==>
      Clashes(before, index, before[index].remaining[j])
    requires tracking ==> Tracked(s0, before, index)
    ensures Framed(s0, after) && Settled(after, index + 1) && Bounded(after, b)
    ensures Measure(after, index + 1, b) < Measure(before, index, b)
    ensures tracking ==> Tracked(s0, after, index + 1)
  {
    SettledExtend(before, after, index);
    OdometerAdvance(before, after, index, b);
    if tracking {
      TrackedForward(s0, before, after, index);
    }
  }

  /** Colour x is the colour of some lower-indexed neighbour of node `index`. */
  ghost predicate Clashes(s: seq<Node>, index: nat, x: Color)
    requires index < |s|
  {
    exists nb :: nb in s[index].neighbors && nb < index && s[nb].color == Some(x)
  }

  /**
   * The inner loop of `exhaustive_search`: pop colours off node `index`'s
   * stack until one clashes with no lower-indexed neighbour, or the stack
   * is empty. Every colour popped and given up on clashed.
   */
  method PopUntilValid(g: array<Node>, index: nat) returns (hasMatch: bool)
    requires index < g.Length
    modifies g
    ensures forall i :: 0 <= i < g.Length && i != index ==> g[i] == old(g[i])
    ensures SearchFrame(old(g[index]), g[index])
    ensures hasMatch ==> |g[index].remaining| < |old(g[index].remaining)|
    ensures hasMatch ==> g[index].color.Some? && NewAssignValid(g[..], g[index], index)
    ensures !hasMatch ==> g[index].remaining == []
    ensures g[index].remaining == old(g[index].remaining)[..|g[index].remaining|]
    ensures hasMatch ==> g[index].color == Some(old(g[index].remaining)[|g[index].remaining|])
    ensures forall j :: |g[index].remaining| + (if hasMatch then 1 else 0) <= j < |old(g[index].remaining)| ==>
      Clashes(old(g[..]), index, old(g[index].remaining)[j])
  {
    ghost var s0 := g[..];
    ghost var orig := g[index].remaining;
    hasMatch := false;
    while |g[index].remaining| > 0
      invariant forall i :: 0 <= i < g.Length && i != index ==> g[i] == old(g[i])
      invariant SearchFrame(old(g[index]), g[index])
      invariant |g[index].remaining| <= |orig|
      invariant g[index].remaining == orig[..|g[index].remaining|]
      invariant forall j :: |g[index].remaining| <= j < |orig| ==> Clashes(s0, index, orig[j])
      decreases |g[index].remaining|
    {
      var rem := g[index].remaining;
      var select := rem[|rem| - 1];
      assert select == orig[|rem| - 1];
      g[index] := g[index].(remaining := rem[..|rem| - 1]);
      g[index] := g[index].AssignColor(select);
      if NewAssignValid(g[..], g[index], index) {
        assert |g[index].remaining| + 1 == |rem|;
        return true;
      }
      assert Clashes(s0, index, select);
    }
  }

  /** The longest `remaining` stack of a graph. */
  ghost function LongestRemaining(s: seq<Node>): (m: nat)
    ensures forall i :: 0 <= i < |s| ==> |s[i].remaining| <= m
  {
    if s == [] then 0 else Max(|s[|s| - 1].remaining|, LongestRemaining(s[..|s| - 1]))
  }

  /**
   * Termination measure: the `remaining` sizes of nodes 0..m-1 read as the
   * leading digits of an |s|-digit number in base b (node 0 most significant).
   */
  ghost function Odometer(s: seq<Node>, m: nat, b: nat): nat
    requires m <= |s|
  {
    if m == 0 then 0 else Odometer(s, m - 1, b) + |s[m - 1].remaining| * Pow(b, |s| - m)
  }

  lemma {:induction false} OdometerPrefix(s: seq<Node>, t: seq<Node>, m: nat, b: nat)
    requires m <= |s| == |t|
    requires forall i :: 0 <= i < m ==> |s[i].remaining| == |t[i].remaining|
    ensures Odometer(s, m, b) == Odometer(t, m, b)
  {
    if m > 0 {
      OdometerPrefix(s, t, m - 1, b);
    }
  }

  lemma PowSucc(b: nat, e: nat)
    ensures Pow(b, e + 1) == b * Pow(b, e)
  {
  }

  /** Moving forward after a pop: the current digit drops by one, which outweighs the new, lower digit. */
  lemma OdometerAdvance(before: seq<Node>, after: seq<Node>, index: nat, b: nat)
    requires index < |before| == |after|
    requires forall i :: 0 <= i < |before| && i != index ==> after[i] == before[i]
    requires |after[index].remaining| < |before[index].remaining|
    requires forall i :: 0 <= i < |after| ==> |after[i].remaining| < b
    ensures var m := if index + 1 < |after| then index + 2 else |after|;
      Odometer(after, m, b) < Odometer(before, index + 1, b)
  {
    var n := |before|;
    var p := Pow(b, n - index - 1);
    OdometerPrefix(before, after, index, b);
    var r0, r1 := |before[index].remaining|, |after[index].remaining|;
    assert Odometer(before, index + 1, b) == Odometer(after, index, b) + r0 * p;
    assert Odometer(after, index + 1, b) == Odometer(after, index, b) + r1 * p;
    MulMonotone(r1 + 1, r0, p);
    SuccTimes(r1, p);
    if index + 1 < n {
      var r2 := |after[index + 1].remaining|;
      var q := Pow(b, n - index - 2);
      PowSucc(b, n - index - 2);
      MulMonotone(r2 + 1, b, q);
      SuccTimes(r2, q);
      assert p == b * q;
      assert r2 * q < p;
      assert Odometer(after, index + 2, b) == Odometer(after, index + 1, b) + r2 * q;
    }
  }

  /** Multiplying a successor: (a + 1) * c is a * c plus one more c. */
  lemma SuccTimes(a: nat, c: nat)
    ensures (a + 1) * c == a * c + c
  {
  }

  /** Whether nodes below m are settled depends only on those nodes. */
  lemma SettledAgree(s: seq<Node>, t: seq<Node>, m: nat)
    requires m <= |s| == |t|
    requires forall i :: 0 <= i < m ==> s[i] == t[i]
    requires Settled(s, m)
    ensures Settled(t, m)
  {
    forall i | 0 <= i < m
      ensures t[i].color.Some? && NewAssignValid(t, t[i], i)
    {
      assert forall nb :: nb in t[i].neighbors && nb < i ==> t[nb].color == s[nb].color;
    }
  }

  /** A node that clashes with no lower-indexed neighbour extends a settled prefix. */
  lemma SettledExtend(before: seq<Node>, after: seq<Node>, index: nat)
    requires index < |before| == |after|
    requires forall i :: 0 <= i < |before| && i != index ==> after[i] == before[i]
    requires Settled(before, index)
    requires after[index].color.Some? && NewAssignValid(after, after[index], index)
    ensures Settled(after, index + 1)
  {
    SettledAgree(before, after, index);
  }

  /**
   * A settled colouring of a graph with symmetric adjacency and no self-loops
   * passes `all_consistent`: what the test `simple_c3` asserts after a
   * successful `exhaustive_search` on a triangle.
   */
  lemma SettledIsConsistent(s: seq<Node>)
    requires Settled(s, |s|)
    requires forall i, nb :: 0 <= i < |s| && nb in s[i].neighbors && nb < |s| ==> i in s[nb].neighbors
    requires forall i :: 0 <= i < |s| ==> i !in s[i].neighbors
    ensures AllConsistent(s)
  {
    forall i, nb | 0 <= i < |s| && nb in s[i].neighbors && nb < |s|
      ensures s[nb].color != s[i].color
    {
      if nb < i {
        assert NewAssignValid(s, s[i], i);
      } else {
        assert i in s[nb].neighbors && NewAssignValid(s, s[nb], nb);
      }
    }
  }
}
