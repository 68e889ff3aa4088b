/** The grid the search runs over: cell coordinates and the maze's occupancy map.
    `MapLocation` and `Maze` are not part of this model; they are reduced here to
    the few operations the search uses. */
module Grid {

  /** A cell coordinate (`MapLocation`); equality is by value. */
  datatype Loc = Loc(x: int, z: int)

  /** `dir + location`: componentwise sum of two coordinates. */
  function Add(a: Loc, b: Loc): Loc
  {
    Loc(a.x + b.x, a.z + b.z)
  }

  /** The offset that leads from `from` to `to`. */
  function Offset(from: Loc, to: Loc): Loc
  {
    Loc(to.x - from.x, to.z - from.z)
  }

  /** The maze as the search sees it: `cells[x][z]` is 1 for a wall, the search
      bounds `width` and `depth`, and the neighbour offsets in `directions`. */
  datatype Maze = Maze(cells: seq<seq<int>>, width: int, depth: int, directions: seq<Loc>)

  /** The occupancy map covers every cell inside the search bounds, and no
      neighbour offset is the zero offset. */
  predicate WellFormed(m: Maze)
  {
    |m.cells| >= m.width &&
    (forall x :: 0 <= x < m.width ==> |m.cells[x]| >= m.depth) &&
    (forall d :: d in m.directions ==> d != Loc(0, 0))
  }

  /** The search bounds: 1 <= x < width and 1 <= z < depth. */
  predicate InBounds(m: Maze, l: Loc)
  {
    1 <= l.x < m.width && 1 <= l.z < m.depth
  }

  predicate IsWall(m: Maze, l: Loc)
    requires WellFormed(m) && InBounds(m, l)
  {
    m.cells[l.x][l.z] == 1
  }

  /** A cell the search may enter: inside the bounds and not a wall. */
  predicate Passable(m: Maze, l: Loc)
    requires WellFormed(m)
  {
    InBounds(m, l) && !IsWall(m, l)
  }
}
