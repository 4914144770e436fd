/** Properties of the live-neighbour count and of the generation advance. */
module GridProperties {

  import opened Cells
  import opened Grids

  /** The positions of `ns` whose cell is alive. */
  ghost function AliveIndices(g: Grid, ns: seq<Coord>): set<int>
    requires NeighborsInBounds(g, ns)
  {
    set k | 0 <= k < |ns| && StateAt(g, ns[k]) == Alive
  }

  /** The fold counts list entries, not distinct cells: the count is the
      number of positions of the list that hold a live cell. */
  lemma {:induction false} AliveCountIsIndexCount(g: Grid, ns: seq<Coord>)
    requires NeighborsInBounds(g, ns)
    ensures AliveCount(g, ns) == |AliveIndices(g, ns)|
    decreases |ns|
  {
    if |ns| != 0 {
      var last := |ns| - 1;
      var init := ns[..last];
      AliveCountIsIndexCount(g, init);
      if StateAt(g, ns[last]) == Alive {
        assert AliveIndices(g, ns) == AliveIndices(g, init) + {last};
      } else {
        assert AliveIndices(g, ns) == AliveIndices(g, init);
      }
    }
  }

  /** The count is zero exactly when no listed cell is alive. */
  lemma {:induction false} AliveCountZeroIffNoneAlive(g: Grid, ns: seq<Coord>)
    requires NeighborsInBounds(g, ns)
    ensures AliveCount(g, ns) == 0 <==> forall k :: 0 <= k < |ns| ==> StateAt(g, ns[k]) == Dead
    decreases |ns|
  {
    if |ns| != 0 {
      var init := ns[..|ns| - 1];
      AliveCountZeroIffNoneAlive(g, init);
      assert forall k :: 0 <= k < |init| ==> init[k] == ns[k];
    }
  }

  /** The count reaches the list length exactly when every listed cell is
      alive. */
  lemma {:induction false} AliveCountFullIffAllAlive(g: Grid, ns: seq<Coord>)
    requires NeighborsInBounds(g, ns)
    ensures AliveCount(g, ns) == |ns| <==> forall k :: 0 <= k < |ns| ==> StateAt(g, ns[k]) == Alive
    decreases |ns|
  {
    if |ns| != 0 {
      var init := ns[..|ns| - 1];
      AliveCountFullIffAllAlive(g, init);
      assert forall k :: 0 <= k < |init| ==> init[k] == ns[k];
    }
  }

  /** The count over a concatenation is the sum of the counts. */
  lemma {:induction false} AliveCountAppend(g: Grid, a: seq<Coord>, b: seq<Coord>)
    requires NeighborsInBounds(g, a) && NeighborsInBounds(g, b)
    ensures NeighborsInBounds(g, a + b)
    ensures AliveCount(g, a + b) == AliveCount(g, a) + AliveCount(g, b)
    decreases |b|
  {
    assert NeighborsInBounds(g, a + b) by {
      forall k | 0 <= k < |a + b|
        ensures InBounds(g, (a + b)[k].0, (a + b)[k].1)
      {
        if k >= |a| {
          assert (a + b)[k] == b[k - |a|];
        }
      }
    }
    if |b| != 0 {
      var binit := b[..|b| - 1];
      assert (a + b)[..|a + b| - 1] == a + binit;
      AliveCountAppend(g, a, binit);
    } else {
      assert a + b == a;
    }
  }

  /** No deduplication: listing every neighbour twice doubles the count. */
  lemma DuplicatesCountTwice(g: Grid, ns: seq<Coord>)
    requires NeighborsInBounds(g, ns)
    ensures NeighborsInBounds(g, ns + ns)
    ensures AliveCount(g, ns + ns) == 2 * AliveCount(g, ns)
  {
    AliveCountAppend(g, ns, ns);
  }

  /** The count reads only the states at the listed coordinates. */
  lemma {:induction false} AliveCountFrame(g: Grid, h: Grid, ns: seq<Coord>)
    requires NeighborsInBounds(g, ns) && NeighborsInBounds(h, ns)
    requires forall k :: 0 <= k < |ns| ==> StateAt(g, ns[k]) == StateAt(h, ns[k])
    ensures AliveCount(g, ns) == AliveCount(h, ns)
    decreases |ns|
  {
    if |ns| != 0 {
      var init := ns[..|ns| - 1];
      AliveCountFrame(g, h, init);
    }
  }

  /** Simultaneous update, cell by cell: the state at (i, j) after a step is
      the rule applied to the pre-step state at (i, j) and to the live count
      of its list taken over the pre-step grid. */
  lemma StepFollowsRule(g: Grid, i: int, j: int)
    requires ValidGrid(g) && InBounds(g, i, j)
    ensures InBounds(Step(g), i, j)
    ensures Step(g).cells[i][j].neighbors == g.cells[i][j].neighbors
    ensures Step(g).cells[i][j].state == Next(g.cells[i][j].state, AliveCount(g, g.cells[i][j].neighbors))
  {
    assert Step(g).cells[i][j].state == NextStateAt(g, i, j);
  }

  /** Locality of a step: the next state at (i, j) depends only on that
      cell's own state and neighbour list and on the current states of the
      cells it lists; the rest of the grid has no influence. */
  lemma StepIsLocal(g: Grid, h: Grid, i: int, j: int)
    requires ValidGrid(g) && ValidGrid(h)
    requires InBounds(g, i, j) && InBounds(h, i, j)
    requires g.cells[i][j] == h.cells[i][j]
    requires forall k :: 0 <= k < |g.cells[i][j].neighbors| ==>
      StateAt(g, g.cells[i][j].neighbors[k]) == StateAt(h, g.cells[i][j].neighbors[k])
    ensures Step(g).cells[i][j] == Step(h).cells[i][j]
  {
    AliveCountFrame(g, h, g.cells[i][j].neighbors);
    StepFollowsRule(g, i, j);
    StepFollowsRule(h, i, j);
  }

  /** A cell with an empty neighbour list sees no live neighbour, so after a
      step it is dead whatever its state was. */
  lemma NoNeighborsMeansDead(g: Grid, i: int, j: int)
    requires ValidGrid(g) && InBounds(g, i, j)
    requires |g.cells[i][j].neighbors| == 0
    ensures AliveCount(g, g.cells[i][j].neighbors) == 0
    ensures Step(g).cells[i][j].state == Dead
  {
    StepFollowsRule(g, i, j);
  }

  /** Stepping the empty grid gives the empty grid. */
  lemma StepOfEmptyGrid()
    ensures ValidGrid(New())
    ensures Step(New()) == New()
  {
  }

  /** The grid after `n` generations. */
  function Generations(g: Grid, n: nat): (r: Grid)
    requires ValidGrid(g)
    ensures ValidGrid(r)
    ensures SameTopology(g, r)
    decreases n
  {
    if n == 0 then g else Generations(Step(g), n - 1)
  }

  /** A grid that a step leaves unchanged stays unchanged for any number of
      generations. */
  lemma {:induction false} FixedPointPersists(g: Grid, n: nat)
    requires ValidGrid(g) && Step(g) == g
    ensures Generations(g, n) == g
  {
    if n != 0 {
      FixedPointPersists(g, n - 1);
    }
  }
}
