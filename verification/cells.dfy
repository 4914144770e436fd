/** The cell model: a two-valued state and a cell owning an explicit,
    unvalidated list of neighbour coordinates (an arena index standing in for
    a shared reference to the neighbouring cell). */
module Cells {

  datatype State = Dead | Alive

  /** The display glyph of a state: '@' for a live cell, '.' for a dead one. */
  function Glyph(s: State): (c: char)
    ensures c == '@' <==> s == Alive
    ensures c == '.' <==> s == Dead
  {
    match s
    case Alive => '@'
    case Dead => '.'
  }

  /** Rendering is faithful: distinct states never share a glyph. */
  lemma GlyphInjective(s: State, t: State)
    ensures Glyph(s) == Glyph(t) <==> s == t
  {
  }

  /** A position (row, column) in the grid that owns the cell. */
  type Coord = (int, int)

  datatype Cell = Cell(state: State, neighbors: seq<Coord>)

  /** A fresh cell: the given state and no neighbours yet. */
  function NewCell(s: State): (c: Cell)
    ensures c.state == s
    ensures |c.neighbors| == 0
  {
    Cell(s, [])
  }

  /** Appends one neighbour at the end of the list. Nothing is checked: an
      entry already present, or the cell's own position, is appended again. */
  function AddNeighbor(c: Cell, n: Coord): (r: Cell)
    ensures r.state == c.state
    ensures |r.neighbors| == |c.neighbors| + 1
    ensures r.neighbors[..|c.neighbors|] == c.neighbors
    ensures r.neighbors[|c.neighbors|] == n
    ensures multiset(r.neighbors) == multiset(c.neighbors) + multiset{n}
  {
    c.(neighbors := c.neighbors + [n])
  }

  /** A wiring pass over one cell: `AddNeighbor` for each entry of `ns`, in order. */
  function AddNeighbors(c: Cell, ns: seq<Coord>): Cell
    decreases |ns|
  {
    if |ns| == 0 then c else AddNeighbors(AddNeighbor(c, ns[0]), ns[1..])
  }

  /** Wiring appends exactly the given list, in order, and keeps the state. */
  lemma {:induction false} AddNeighborsAppends(c: Cell, ns: seq<Coord>)
    ensures AddNeighbors(c, ns).state == c.state
    ensures AddNeighbors(c, ns).neighbors == c.neighbors + ns
    decreases |ns|
  {
    if |ns| != 0 {
      AddNeighborsAppends(AddNeighbor(c, ns[0]), ns[1..]);
      assert c.neighbors + [ns[0]] + ns[1..] == c.neighbors + ns;
    }
  }

  /** A cell built by `NewCell` and then wired with `ns` stores exactly `ns`. */
  lemma WiredCellStoresList(s: State, ns: seq<Coord>)
    ensures AddNeighbors(NewCell(s), ns) == Cell(s, ns)
  {
    AddNeighborsAppends(NewCell(s), ns);
  }
}
