/**
 * The colour domain that graph_coloring/main.rs imports: seven colours,
 * with `vector_of_colors` listing them in declaration order.
 */
module SevenColoring {
  datatype Color = Red | Blue | Green | Yellow | Black | White | Pink

  /** Position of a colour in the declaration order of the enum. */
  function Ordinal(c: Color): nat
  {
    match c
    case Red => 0
    case Blue => 1
    case Green => 2
    case Yellow => 3
    case Black => 4
    case White => 5
    case Pink => 6
  }

  /** `Color::num_colors()`: the size of the domain, which is the length of `vector_of_colors()`. */
  function NumColors(): (n: nat)
    ensures n == |VectorOfColors()| == 7
  {
    7
  }

  /**
   * `Color::vector_of_colors()`: every colour exactly once, in declaration order,
   * starting with Red. This is the initial `remaining` list of every node.
   */
  function VectorOfColors(): (cs: seq<Color>)
    ensures |cs| == 7 && cs[0] == Red
    ensures forall i :: 0 <= i < |cs| ==> Ordinal(cs[i]) == i
    ensures forall i, j :: 0 <= i < j < |cs| ==> cs[i] != cs[j]
    ensures forall c: Color :: Ordinal(c) < |cs| && cs[Ordinal(c)] == c
  {
    [Red, Blue, Green, Yellow, Black, White, Pink]
  }
}
