/** The three-colour domain of graph_coloring/three_coloring.rs. */
module ThreeColoring {
  datatype Color = Red | Blue | Green

  /** Position of a colour in the declaration order of the enum. */
  function Ordinal(c: Color): nat
  {
    match c
    case Red => 0
    case Blue => 1
    case Green => 2
  }

  /** `Color::num_colors()`: the length of `vector_of_colors()`. */
  function NumColors(): (n: nat)
    ensures n == |VectorOfColors()| == 3
  {
    3
  }

  /** `Color::vector_of_colors()`: every colour exactly once, in declaration order, starting with Red. */
  function VectorOfColors(): (cs: seq<Color>)
    ensures |cs| == 3 && cs[0] == Red
    ensures forall i :: 0 <= i < |cs| ==> Ordinal(cs[i]) == i
    ensures forall i, j :: 0 <= i < j < |cs| ==> cs[i] != cs[j]
    ensures forall c: Color :: Ordinal(c) < |cs| && cs[Ordinal(c)] == c
  {
    [Red, Blue, Green]
  }
}
