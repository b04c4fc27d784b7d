/**
 * Values the spatial table borrows from its collaborators: entity handles
 * (allocated elsewhere) and the coordinates and sizes of a 2-D grid.
 */
module Basics {

  datatype Option<+T> = None | Some(value: T)

  /**
   * An entity handle. Handles are allocated outside the spatial table; the
   * table only stores and compares them.
   */
  datatype Entity = Entity(id: nat)

  /** A grid coordinate. Either component may be negative. */
  datatype Coord = Coord(x: int, y: int)

  /** The width and height of a grid. */
  datatype Size = Size(width: nat, height: nat)

  /** `Coord::is_valid`: the coordinate names a cell of a grid of this size. */
  predicate IsValid(c: Coord, size: Size) {
    0 <= c.x < size.width && 0 <= c.y < size.height
  }

  /** The coordinates of every cell of a grid of the given size. */
  function Coords(size: Size): (r: set<Coord>)
    ensures forall c :: c in r <==> IsValid(c, size)
  {
    var r := set x, y | 0 <= x < size.width && 0 <= y < size.height :: Coord(x, y);
    assert forall c :: IsValid(c, size) ==> c in r by {
      forall c | IsValid(c, size) ensures c in r {
        assert c == Coord(c.x, c.y);
      }
    }
    r
  }
}
