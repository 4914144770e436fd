/** Concrete configurations. Grids are wired here by a helper that lists,
    for each cell, the in-bounds positions among its eight surrounding ones;
    the step itself never looks at geometry, only at the stored lists. */
module Scenarios {

  import opened Cells
  import opened Grids
  import opened GridProperties

  // The wiring helper computes neighbour lists before any grid exists, so
  // bounds and dimensions are stated here on the plain state matrix; on the
  // grid `FromStates` builds they coincide with `InBounds` and `SameShape`.

  /** (r, c) names a position of the state matrix `rows`. */
  predicate Within(rows: seq<seq<State>>, r: int, c: int)
  {
    0 <= r < |rows| && 0 <= c < |rows[r]|
  }

  /** The two state matrices have the same rows and row lengths. */
  predicate SameDims(rows: seq<seq<State>>, other: seq<seq<State>>)
  {
    && |rows| == |other|
    && forall i :: 0 <= i < |rows| ==> |rows[i]| == |other[i]|
  }

  /** Every position of `ns` lies within `rows`. */
  predicate AllWithin(rows: seq<seq<State>>, ns: seq<Coord>)
  {
    forall k :: 0 <= k < |ns| ==> Within(rows, ns[k].0, ns[k].1)
  }

  /** The candidate position (r, c) if it lies within `rows`, else nothing. */
  function Probe(rows: seq<seq<State>>, r: int, c: int): (ns: seq<Coord>)
    ensures AllWithin(rows, ns)
  {
    if Within(rows, r, c) then [(r, c)] else []
  }

  /** A probe in front of an already checked list. */
  function Prepend(rows: seq<seq<State>>, r: int, c: int, rest: seq<Coord>): (ns: seq<Coord>)
    requires AllWithin(rows, rest)
    ensures AllWithin(rows, ns)
  {
    var p := Probe(rows, r, c);
    assert forall k :: |p| <= k < |p + rest| ==> (p + rest)[k] == rest[k - |p|];
    p + rest
  }

  /** The eight surrounding offsets, row by row. Written as nested
      concatenations so that each tail appears as a term of its own. */
  const Offsets: seq<(int, int)> :=
    [(-1, -1)] + ([(-1, 0)] + ([(-1, 1)] + ([(0, -1)] + ([(0, 1)] + ([(1, -1)] + ([(1, 0)] + [(1, 1)]))))))

  /** The positions (i + di, j + dj), for each offset in order, that lie
      within `rows`; the others are dropped. */
  function Around(rows: seq<seq<State>>, i: int, j: int, offs: seq<(int, int)>): (ns: seq<Coord>)
    ensures AllWithin(rows, ns)
    decreases |offs|
  {
    if |offs| == 0 then []
    else Prepend(rows, i + offs[0].0, j + offs[0].1, Around(rows, i, j, offs[1..]))
  }

  function LiveAt(rows: seq<seq<State>>, r: int, c: int): nat
  {
    if Within(rows, r, c) && rows[r][c] == Alive then 1 else 0
  }

  /** The number of live cells among the in-bounds positions (i + di, j + dj),
      read straight from the state matrix. */
  function LiveAround(rows: seq<seq<State>>, i: int, j: int, offs: seq<(int, int)>): nat
    decreases |offs|
  {
    if |offs| == 0 then 0
    else LiveAt(rows, i + offs[0].0, j + offs[0].1) + LiveAround(rows, i, j, offs[1..])
  }

  /** The same count over the eight surrounding positions, written out. */
  function LiveEight(rows: seq<seq<State>>, i: int, j: int): nat
  {
    LiveAt(rows, i - 1, j - 1) + LiveAt(rows, i - 1, j) + LiveAt(rows, i - 1, j + 1)
      + LiveAt(rows, i, j - 1) + LiveAt(rows, i, j + 1)
      + LiveAt(rows, i + 1, j - 1) + LiveAt(rows, i + 1, j) + LiveAt(rows, i + 1, j + 1)
  }

  /** One unfolding of `LiveAround` on a list given as head and tail. */
  lemma LiveAroundCons(rows: seq<seq<State>>, i: int, j: int, o: (int, int), rest: seq<(int, int)>)
    ensures LiveAround(rows, i, j, [o] + rest) == LiveAt(rows, i + o.0, j + o.1) + LiveAround(rows, i, j, rest)
  {
    assert ([o] + rest)[1..] == rest;
  }

  lemma LiveAroundIsEight(rows: seq<seq<State>>, i: int, j: int)
    ensures LiveAround(rows, i, j, Offsets) == LiveEight(rows, i, j)
  {
    var t7: seq<(int, int)> := [(1, 1)];
    var t6 := [(1, 0)] + t7;
    var t5 := [(1, -1)] + t6;
    var t4 := [(0, 1)] + t5;
    var t3 := [(0, -1)] + t4;
    var t2 := [(-1, 1)] + t3;
    var t1 := [(-1, 0)] + t2;
    LiveAroundCons(rows, i, j, (1, 1), []);
    LiveAroundCons(rows, i, j, (1, 0), t7);
    LiveAroundCons(rows, i, j, (1, -1), t6);
    LiveAroundCons(rows, i, j, (0, 1), t5);
    LiveAroundCons(rows, i, j, (0, -1), t4);
    LiveAroundCons(rows, i, j, (-1, 1), t3);
    LiveAroundCons(rows, i, j, (-1, 0), t2);
    LiveAroundCons(rows, i, j, (-1, -1), t1);
  }

  /** The wiring depends on the dimensions only, not on the states. */
  lemma {:induction false} AroundDependsOnDims(rows: seq<seq<State>>, other: seq<seq<State>>,
                                              i: int, j: int, offs: seq<(int, int)>)
    requires SameDims(rows, other)
    ensures Around(rows, i, j, offs) == Around(other, i, j, offs)
    decreases |offs|
  {
    if |offs| != 0 {
      AroundDependsOnDims(rows, other, i, j, offs[1..]);
      var r, c := i + offs[0].0, j + offs[0].1;
      assert Within(rows, r, c) <==> Within(other, r, c);
      assert Probe(rows, r, c) == Probe(other, r, c);
    }
  }

  /** A grid with the given states, each cell wired to its 8-adjacent cells. */
  function FromStates(rows: seq<seq<State>>): (g: Grid)
    ensures ValidGrid(g)
    ensures |g.cells| == |rows|
    ensures forall i :: 0 <= i < |rows| ==> |g.cells[i]| == |rows[i]|
    ensures forall i, j :: Within(rows, i, j) ==>
      g.cells[i][j] == Cell(rows[i][j], Around(rows, i, j, Offsets))
  {
    Grid(seq(|rows|, i requires 0 <= i < |rows| =>
      seq(|rows[i]|, j requires 0 <= j < |rows[i]| =>
        Cell(rows[i][j], Around(rows, i, j, Offsets)))))
  }

  /** `g` has the dimensions of `rows` and holds its states. */
  ghost predicate Mirrors(g: Grid, rows: seq<seq<State>>)
  {
    && |g.cells| == |rows|
    && (forall i :: 0 <= i < |rows| ==> |g.cells[i]| == |rows[i]|)
    && forall i, j :: Within(rows, i, j) ==> g.cells[i][j].state == rows[i][j]
  }

  /** Prepending one probe adds its live count. */
  lemma AliveCountPrepend(g: Grid, rows: seq<seq<State>>, r: int, c: int, rest: seq<Coord>)
    requires Mirrors(g, rows) && AllWithin(rows, rest)
    ensures NeighborsInBounds(g, Prepend(rows, r, c, rest))
    ensures NeighborsInBounds(g, rest)
    ensures AliveCount(g, Prepend(rows, r, c, rest)) == LiveAt(rows, r, c) + AliveCount(g, rest)
  {
    var p := Probe(rows, r, c);
    assert NeighborsInBounds(g, p);
    assert NeighborsInBounds(g, rest);
    AliveCountAppend(g, p, rest);
    assert Prepend(rows, r, c, rest) == p + rest;
    if Within(rows, r, c) {
      assert p == [(r, c)];
      assert AliveCount(g, p) == LiveAt(rows, r, c);
    }
  }

  /** On a grid holding the states of `rows`, the fold over a wired list
      equals the direct count of live surrounding cells. */
  lemma {:induction false} AliveCountAround(g: Grid, rows: seq<seq<State>>, i: int, j: int,
                                           offs: seq<(int, int)>)
    requires Mirrors(g, rows)
    ensures NeighborsInBounds(g, Around(rows, i, j, offs))
    ensures AliveCount(g, Around(rows, i, j, offs)) == LiveAround(rows, i, j, offs)
    decreases |offs|
  {
    if |offs| != 0 {
      var rest := Around(rows, i, j, offs[1..]);
      assert Around(rows, i, j, offs) == Prepend(rows, i + offs[0].0, j + offs[0].1, rest);
      AliveCountAround(g, rows, i, j, offs[1..]);
      AliveCountPrepend(g, rows, i + offs[0].0, j + offs[0].1, rest);
    }
  }

  /** `next` is what the rule gives for every cell of `rows`. */
  ghost predicate RuleGives(rows: seq<seq<State>>, next: seq<seq<State>>)
  {
    && SameDims(rows, next)
    && forall i, j :: Within(rows, i, j) ==>
         next[i][j] == Next(rows[i][j], LiveAround(rows, i, j, Offsets))
  }

  /** One cell of a stepped wired grid. */
  lemma StepOfWiredAt(rows: seq<seq<State>>, next: seq<seq<State>>, i: int, j: int)
    requires RuleGives(rows, next) && Within(rows, i, j)
    ensures InBounds(Step(FromStates(rows)), i, j)
    ensures Step(FromStates(rows)).cells[i][j] == FromStates(next).cells[i][j]
  {
    var g := FromStates(rows);
    var ns := Around(rows, i, j, Offsets);
    assert InBounds(g, i, j);
    assert g.cells[i][j] == Cell(rows[i][j], ns);
    AroundDependsOnDims(rows, next, i, j, Offsets);
    assert FromStates(next).cells[i][j] == Cell(next[i][j], ns);
    assert Mirrors(g, rows);
    AliveCountAround(g, rows, i, j, Offsets);
    StepFollowsRule(g, i, j);
  }

  /** A step of a wired grid is the wired grid of the rule's result. */
  lemma StepOfWired(rows: seq<seq<State>>, next: seq<seq<State>>)
    requires RuleGives(rows, next)
    ensures Step(FromStates(rows)) == FromStates(next)
  {
    var r := Step(FromStates(rows));
    var h := FromStates(next);
    forall i | 0 <= i < |rows|
      ensures r.cells[i] == h.cells[i]
    {
      forall j | 0 <= j < |rows[i]|
        ensures r.cells[i][j] == h.cells[i][j]
      {
        StepOfWiredAt(rows, next, i, j);
      }
    }
    assert r.cells == h.cells;
  }

  /** The middle row alive in a 3 by 3 grid. */
  const Horizontal: seq<seq<State>> :=
    [[Dead, Dead, Dead],
     [Alive, Alive, Alive],
     [Dead, Dead, Dead]]

  /** The middle column alive in a 3 by 3 grid. */
  const Vertical: seq<seq<State>> :=
    [[Dead, Alive, Dead],
     [Dead, Alive, Dead],
     [Dead, Alive, Dead]]

  /** A 2 by 2 block in the top-left corner of a 3 by 3 grid. */
  const Block: seq<seq<State>> :=
    [[Alive, Alive, Dead],
     [Alive, Alive, Dead],
     [Dead, Dead, Dead]]

  /** One cell of the horizontal blinker, by cases on its position. */
  lemma HorizontalGivesVerticalCell(i: int, j: int)
    requires Within(Horizontal, i, j)
    ensures Vertical[i][j] == Next(Horizontal[i][j], LiveEight(Horizontal, i, j))
  {
    // The split by position carries no argument of its own: it only lets the
    // solver treat the nine cells one at a time, which keeps its cost low.
    if i == 0 {
      if j == 0 {} else if j == 1 {} else {}
    } else if i == 1 {
      if j == 0 {} else if j == 1 {} else {}
    } else {
      if j == 0 {} else if j == 1 {} else {}
    }
  }

  /** The rule, cell by cell, maps the horizontal blinker to the vertical one. */
  lemma HorizontalGivesVertical()
    ensures RuleGives(Horizontal, Vertical)
  {
    forall i, j | Within(Horizontal, i, j)
      ensures Vertical[i][j] == Next(Horizontal[i][j], LiveAround(Horizontal, i, j, Offsets))
    {
      LiveAroundIsEight(Horizontal, i, j);
      HorizontalGivesVerticalCell(i, j);
    }
  }

  /** One cell of the vertical blinker, by cases on its position. */
  lemma VerticalGivesHorizontalCell(i: int, j: int)
    requires Within(Vertical, i, j)
    ensures Horizontal[i][j] == Next(Vertical[i][j], LiveEight(Vertical, i, j))
  {
    // The split by position carries no argument of its own: it only lets the
    // solver treat the nine cells one at a time, which keeps its cost low.
    if i == 0 {
      if j == 0 {} else if j == 1 {} else {}
    } else if i == 1 {
      if j == 0 {} else if j == 1 {} else {}
    } else {
      if j == 0 {} else if j == 1 {} else {}
    }
  }

  /** The rule, cell by cell, maps the vertical blinker to the horizontal one. */
  lemma VerticalGivesHorizontal()
    ensures RuleGives(Vertical, Horizontal)
  {
    forall i, j | Within(Vertical, i, j)
      ensures Horizontal[i][j] == Next(Vertical[i][j], LiveAround(Vertical, i, j, Offsets))
    {
      LiveAroundIsEight(Vertical, i, j);
      VerticalGivesHorizontalCell(i, j);
    }
  }

  /** One cell of the block, by cases on its position. */
  lemma BlockGivesBlockCell(i: int, j: int)
    requires Within(Block, i, j)
    ensures Block[i][j] == Next(Block[i][j], LiveEight(Block, i, j))
  {
    // The split by position carries no argument of its own: it only lets the
    // solver treat the nine cells one at a time, which keeps its cost low.
    if i == 0 {
      if j == 0 {} else if j == 1 {} else {}
    } else if i == 1 {
      if j == 0 {} else if j == 1 {} else {}
    } else {
      if j == 0 {} else if j == 1 {} else {}
    }
  }

  /** The rule, cell by cell, leaves the block as it is. */
  lemma BlockGivesBlock()
    ensures RuleGives(Block, Block)
  {
    forall i, j | Within(Block, i, j)
      ensures Block[i][j] == Next(Block[i][j], LiveAround(Block, i, j, Offsets))
    {
      LiveAroundIsEight(Block, i, j);
      BlockGivesBlockCell(i, j);
    }
  }

  /** The horizontal blinker turns vertical. */
  lemma BlinkerTurnsVertical()
    ensures Step(FromStates(Horizontal)) == FromStates(Vertical)
  {
    HorizontalGivesVertical();
    StepOfWired(Horizontal, Vertical);
  }

  /** The vertical blinker turns horizontal again. */
  lemma BlinkerTurnsHorizontal()
    ensures Step(FromStates(Vertical)) == FromStates(Horizontal)
  {
    VerticalGivesHorizontal();
    StepOfWired(Vertical, Horizontal);
  }

  /** The blinker is an oscillator of period two. */
  lemma BlinkerHasPeriodTwo()
    ensures Generations(FromStates(Horizontal), 1) == FromStates(Vertical)
    ensures Generations(FromStates(Horizontal), 2) == FromStates(Horizontal)
  {
    var h, v := FromStates(Horizontal), FromStates(Vertical);
    BlinkerTurnsVertical();
    BlinkerTurnsHorizontal();
    assert Generations(h, 1) == Generations(v, 0) == v;
    assert Generations(h, 2) == Generations(v, 1) == Generations(h, 0) == h;
  }

  /** The block is a still life, for any number of generations. */
  lemma BlockIsStill(n: nat)
    ensures Step(FromStates(Block)) == FromStates(Block)
    ensures Generations(FromStates(Block), n) == FromStates(Block)
  {
    BlockGivesBlock();
    StepOfWired(Block, Block);
    FixedPointPersists(FromStates(Block), n);
  }

  /** A 1 by 1 grid; its only cell has no neighbours. */
  function Lone(s: State): (g: Grid)
    ensures ValidGrid(g)
    ensures g.cells == [[NewCell(s)]]
  {
    WithCells([[NewCell(s)]])
  }

  /** A lone cell is dead after one step, whatever its state. */
  lemma LoneCellDies(s: State)
    ensures Step(Lone(s)) == Lone(Dead)
  {
    var g := Lone(s);
    var r := Step(g);
    NoNeighborsMeansDead(g, 0, 0);
    assert r.cells[0][0] == NewCell(Dead);
    assert r.cells[0] == [NewCell(Dead)];
    assert r.cells == [[NewCell(Dead)]];
  }

  /** A lone live cell dies in one step. */
  lemma LoneAliveDies()
    ensures Step(Lone(Alive)) == Lone(Dead)
  {
    LoneCellDies(Alive);
  }

  /** A lone dead cell stays dead for any number of generations. */
  lemma LoneDeadStaysDead(n: nat)
    ensures Generations(Lone(Dead), n) == Lone(Dead)
  {
    LoneCellDies(Dead);
    FixedPointPersists(Lone(Dead), n);
  }
}
