/** The grid and its generation-advance operation.

    The grid owns every cell in a row-major sequence of rows (rows may have
    different lengths). A cell's neighbours are coordinates into that same
    grid, so following a neighbour means reading the grid at that position. */
module Grids {

  import opened Wrappers
  import opened Cells

  datatype Grid = Grid(cells: seq<seq<Cell>>)

  /** The empty grid: no rows at all. */
  function New(): (g: Grid)
    ensures |g.cells| == 0
  {
    Grid([])
  }

  /** A grid owning a pre-built matrix of cells, taken as it is. */
  function WithCells(rows: seq<seq<Cell>>): (g: Grid)
    ensures g.cells == rows
  {
    Grid(rows)
  }

  predicate InBounds(g: Grid, i: int, j: int)
  {
    0 <= i < |g.cells| && 0 <= j < |g.cells[i]|
  }

  /** Every coordinate of `ns` names a cell of `g`. */
  predicate NeighborsInBounds(g: Grid, ns: seq<Coord>)
  {
    forall k :: 0 <= k < |ns| ==> InBounds(g, ns[k].0, ns[k].1)
  }

  /** The representation invariant of the arena: every neighbour reference
      stored anywhere in the grid designates a cell of the grid. */
  predicate ValidGrid(g: Grid)
  {
    forall i, j :: 0 <= i < |g.cells| && 0 <= j < |g.cells[i]| ==>
      NeighborsInBounds(g, g.cells[i][j].neighbors)
  }

  /** Two grids with the same number of rows and the same length row by row. */
  predicate SameShape(g: Grid, h: Grid)
  {
    && |g.cells| == |h.cells|
    && forall i :: 0 <= i < |g.cells| ==> |g.cells[i]| == |h.cells[i]|
  }

  /** Two grids of one shape whose cells hold the same neighbour lists. */
  predicate SameTopology(g: Grid, h: Grid)
  {
    && SameShape(g, h)
    && forall i, j :: 0 <= i < |g.cells| && 0 <= j < |g.cells[i]| ==>
         g.cells[i][j].neighbors == h.cells[i][j].neighbors
  }

  /** Checked lookup of the cell at (i, j): `None` past the last row or past
      the end of row i. */
  function CellAt(g: Grid, i: nat, j: nat): (r: Option<Cell>)
    ensures r.Some? <==> InBounds(g, i, j)
    ensures r.Some? ==> r.value == g.cells[i][j]
  {
    if i < |g.cells| && j < |g.cells[i]| then Some(g.cells[i][j]) else None
  }

  /** The stored neighbour list of the cell at (i, j). An out-of-range query
      is a caller error, so the coordinates must be in bounds. */
  function GetNeighbors(g: Grid, i: nat, j: nat): (ns: seq<Coord>)
    requires InBounds(g, i, j)
    ensures ns == g.cells[i][j].neighbors
    ensures ValidGrid(g) ==> NeighborsInBounds(g, ns)
  {
    CellAt(g, i, j).value.neighbors
  }

  function StateAt(g: Grid, c: Coord): State
    requires InBounds(g, c.0, c.1)
  {
    g.cells[c.0][c.1].state
  }

  /** The number of entries of `ns` whose cell is currently alive, folded
      from the front of the list; a repeated entry counts once per
      occurrence. */
  function AliveCount(g: Grid, ns: seq<Coord>): (n: nat)
    requires NeighborsInBounds(g, ns)
    ensures n <= |ns|
    decreases |ns|
  {
    if |ns| == 0 then 0
    else
      var init := ns[..|ns| - 1];
      assert NeighborsInBounds(g, init) by {
        assert forall k :: 0 <= k < |init| ==> init[k] == ns[k];
      }
      AliveCount(g, init) + (if StateAt(g, ns[|ns| - 1]) == Alive then 1 else 0)
  }

  /** The B3/S23 transition rule: a live cell survives with two or three live
      neighbours, a dead cell is born with exactly three, and every other
      combination yields a dead cell. */
  function Next(s: State, n: int): (r: State)
    ensures s == Alive ==> (r == Alive <==> n == 2 || n == 3)
    ensures s == Dead ==> (r == Alive <==> n == 3)
  {
    match (s, n)
    case (Alive, 2) => Alive
    case (Alive, 3) => Alive
    case (Dead, 3) => Alive
    case _ => Dead
  }

  /** The next state of the cell at (i, j): the rule applied to its current
      state and to the live count of its list, both read from `g` alone. */
  function NextStateAt(g: Grid, i: nat, j: nat): State
    requires ValidGrid(g) && InBounds(g, i, j)
  {
    Next(g.cells[i][j].state, AliveCount(g, GetNeighbors(g, i, j)))
  }

  /** A staging buffer that has exactly the shape of `g`. */
  predicate Fits(g: Grid, staged: seq<seq<State>>)
  {
    && |staged| == |g.cells|
    && forall i :: 0 <= i < |staged| ==> |staged[i]| == |g.cells[i]|
  }

  /** The first `n` staged states of row i, pushed left to right. */
  function StageRow(g: Grid, i: nat, n: nat): (row: seq<State>)
    requires ValidGrid(g) && i < |g.cells| && n <= |g.cells[i]|
    ensures |row| == n
    ensures forall j {:trigger NextStateAt(g, i, j)} ::
      0 <= j < n ==> row[j] == NextStateAt(g, i, j)
  {
    if n == 0 then [] else StageRow(g, i, n - 1) + [NextStateAt(g, i, n - 1)]
  }

  /** The first `m` staged rows, each sized to its own grid row. */
  function StageRows(g: Grid, m: nat): (staged: seq<seq<State>>)
    requires ValidGrid(g) && m <= |g.cells|
    ensures |staged| == m
    ensures forall i :: 0 <= i < m ==> |staged[i]| == |g.cells[i]|
    ensures forall i, j {:trigger NextStateAt(g, i, j)} ::
      0 <= i < m && 0 <= j < |g.cells[i]| ==> staged[i][j] == NextStateAt(g, i, j)
  {
    if m == 0 then [] else StageRows(g, m - 1) + [StageRow(g, m - 1, |g.cells[m - 1]|)]
  }

  /** Phase one of a step: every next state, computed from the current
      generation only, in a buffer shaped like the grid. */
  function Stage(g: Grid): (staged: seq<seq<State>>)
    requires ValidGrid(g)
    ensures Fits(g, staged)
    ensures forall i, j {:trigger NextStateAt(g, i, j)} ::
      InBounds(g, i, j) ==> staged[i][j] == NextStateAt(g, i, j)
  {
    StageRows(g, |g.cells|)
  }

  /** The first `n` cells of a row, each holding its staged state. */
  function CommitRow(row: seq<Cell>, states: seq<State>, n: nat): (r: seq<Cell>)
    requires n <= |row| && |states| == |row|
    ensures |r| == n
    ensures forall j :: 0 <= j < n ==> r[j].neighbors == row[j].neighbors
    ensures forall j {:trigger states[j]} :: 0 <= j < n ==> r[j].state == states[j]
  {
    if n == 0 then [] else CommitRow(row, states, n - 1) + [row[n - 1].(state := states[n - 1])]
  }

  /** The first `m` rows of the grid, each cell holding its staged state. */
  function CommitRows(g: Grid, staged: seq<seq<State>>, m: nat): (rows: seq<seq<Cell>>)
    requires Fits(g, staged) && m <= |g.cells|
    ensures |rows| == m
    ensures forall i :: 0 <= i < m ==> |rows[i]| == |g.cells[i]|
    ensures forall i, j :: 0 <= i < m && 0 <= j < |g.cells[i]| ==>
      rows[i][j].neighbors == g.cells[i][j].neighbors
    ensures forall i, j {:trigger staged[i][j]} :: 0 <= i < m && 0 <= j < |g.cells[i]| ==>
      rows[i][j].state == staged[i][j]
  {
    if m == 0 then []
    else CommitRows(g, staged, m - 1) + [CommitRow(g.cells[m - 1], staged[m - 1], |g.cells[m - 1]|)]
  }

  /** Phase two of a step: each cell takes its staged state; nothing else of
      the cell, and nothing of the grid's shape, changes. */
  function Commit(g: Grid, staged: seq<seq<State>>): (r: Grid)
    requires Fits(g, staged)
    ensures SameTopology(g, r)
    ensures forall i, j {:trigger staged[i][j]} ::
      InBounds(g, i, j) ==> r.cells[i][j].state == staged[i][j]
  {
    Grid(CommitRows(g, staged, |g.cells|))
  }

  /** One generation: stage every next state, then commit them all. Every
      cell takes the state `NextStateAt` computes from the pre-step grid; the
      shape and every neighbour list are kept, so the result is again a valid
      grid. */
  function Step(g: Grid): (r: Grid)
    requires ValidGrid(g)
    ensures SameTopology(g, r)
    ensures forall i, j {:trigger NextStateAt(g, i, j)} ::
      InBounds(g, i, j) ==> r.cells[i][j].state == NextStateAt(g, i, j)
    ensures ValidGrid(r)
  {
    var staged := Stage(g);
    assert forall i, j {:trigger NextStateAt(g, i, j)} :: InBounds(g, i, j) ==>
      Commit(g, staged).cells[i][j].state == staged[i][j] == NextStateAt(g, i, j);
    Commit(g, staged)
  }
}
