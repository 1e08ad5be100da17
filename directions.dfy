/** The four arrow keys and the unit step each one stands for. These are
    the reference against which the programs' `switch` statements are
    checked. */
module Directions {
  import opened Pixels

  predicate IsArrow(direction: string)
  {
    direction == "left" || direction == "right" || direction == "up" || direction == "down"
  }

  /** The unit vector of an arrow key; y grows downwards. */
  function Offset(direction: string): (int, int)
    requires IsArrow(direction)
  {
    match direction
    case "left" => (-1, 0)
    case "right" => (1, 0)
    case "up" => (0, -1)
    case _ => (0, 1)
  }

  function Opposite(direction: string): string
    requires IsArrow(direction)
  {
    match direction
    case "left" => "right"
    case "right" => "left"
    case "up" => "down"
    case _ => "up"
  }

  function Shift(c: Coord, direction: string): Coord
    requires IsArrow(direction)
  {
    (c.0 + Offset(direction).0, c.1 + Offset(direction).1)
  }

  /** Two cells that share a side. */
  predicate Adjacent(a: Coord, b: Coord)
  {
    (a.0 == b.0 && (a.1 - b.1 == 1 || b.1 - a.1 == 1))
    || (a.1 == b.1 && (a.0 - b.0 == 1 || b.0 - a.0 == 1))
  }

  /** Each arrow moves to a neighbouring cell, and its opposite moves back. */
  lemma ShiftFacts(c: Coord, direction: string)
    requires IsArrow(direction)
    ensures IsArrow(Opposite(direction))
    ensures Adjacent(c, Shift(c, direction))
    ensures Shift(Shift(c, direction), Opposite(direction)) == c
    ensures Shift(c, direction) != c
  {
  }
}
