/**
 The three-dimensional block grid: integer cells, a world that assigns a
 material to each cell, and face adjacency between cells.
 */
module Grid {
  import opened Materials

  /** A block position; identity is coordinate equality. */
  datatype Cell = Cell(x: int, y: int, z: int) {

    /** The cell at the given offset along the three axes. */
    function Relative(dx: int, dy: int, dz: int): Cell {
      Cell(x + dx, y + dy, z + dz)
    }

    /** The cell directly underneath (one step down the y axis). */
    function Below(): Cell {
      Relative(0, -1, 0)
    }
  }

  /** The world is a finite map of populated cells; a cell outside it is air. */
  type World = map<Cell, Material>

  function MaterialAt(w: World, c: Cell): Material {
    if c in w then w[c] else Air
  }

  /** A cell holding one of the eligible door materials. */
  predicate IsDoor(w: World, c: Cell) {
    IsDoorButNotIron(MaterialAt(w, c))
  }

  /** Every eligible door cell of the world; unpopulated cells never are, so the
      set is finite. */
  function DoorCells(w: World): (r: set<Cell>)
    ensures forall c :: c in r <==> IsDoor(w, c)
  {
    set c | c in w.Keys && IsDoor(w, c)
  }

  function Abs(i: int): nat {
    if i < 0 then -i else i
  }

  /** Two cells share a face: they differ by one in exactly one coordinate. */
  predicate FaceAdjacent(a: Cell, b: Cell) {
    Abs(a.x - b.x) + Abs(a.y - b.y) + Abs(a.z - b.z) == 1
  }

  /** The six face neighbours in the order the search visits them:
      east, west, south, north, up, down. No diagonal cell is among them. */
  function Neighbours(c: Cell): (r: seq<Cell>)
    ensures |r| == 6
    ensures forall n :: n in r <==> FaceAdjacent(c, n)
    ensures c !in r
  {
    [c.Relative(1, 0, 0), c.Relative(-1, 0, 0),
     c.Relative(0, 0, 1), c.Relative(0, 0, -1),
     c.Relative(0, 1, 0), c.Relative(0, -1, 0)]
  }
}
