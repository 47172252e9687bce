/** The generation rule and the whole-buffer step of `tick`. */
module Life {
  import opened Cells
  import opened Torus

  /** The match of `tick`, arm by arm in the source's order. */
  function Rule(cell: Cell, liveNeighbors: nat): (next: Cell)
    ensures cell == Alive ==> (next == Alive <==> liveNeighbors == 2 || liveNeighbors == 3)
    ensures cell == Dead ==> (next == Alive <==> liveNeighbors == 3)
  {
    if cell == Alive && liveNeighbors < 2 then Dead                                // underpopulation
    else if cell == Alive && (liveNeighbors == 2 || liveNeighbors == 3) then Alive  // survival
    else if cell == Alive && liveNeighbors > 3 then Dead                           // overpopulation
    else if cell == Dead && liveNeighbors == 3 then Alive                          // reproduction
    else cell
  }

  /** The next state of the cell at buffer position i, read from the old buffer only. */
  function NextCell(width: nat, height: nat, cells: seq<Cell>, i: nat): Cell
    requires WellSized(width, height, cells)
    requires i < |cells|
  {
    IndexDecode(width, height, i);
    Rule(cells[i], NeighborCount(width, height, cells, Quot(i, width), Rem(i, width)))
  }

  /** One generation: every cell of the next buffer is computed from the old buffer. */
  function Step(width: nat, height: nat, cells: seq<Cell>): (next: seq<Cell>)
    requires WellSized(width, height, cells)
    ensures WellSized(width, height, next)
  {
    seq(|cells|, i requires 0 <= i < |cells| => NextCell(width, height, cells, i))
  }

  /** The rule table at (row, column): the next cell is the rule applied to the old cell and its old count. */
  lemma StepAt(width: nat, height: nat, cells: seq<Cell>, row: nat, column: nat)
    requires WellSized(width, height, cells)
    requires row < height && column < width
    ensures GetIndex(width, row, column) < |cells|
    ensures Step(width, height, cells)[GetIndex(width, row, column)]
         == Rule(CellAt(width, height, cells, row, column), NeighborCount(width, height, cells, row, column))
  {
    IndexInBounds(width, height, row, column);
  }

  /** The rule table at every (row, column) of the grid. */
  lemma StepEverywhere(width: nat, height: nat, cells: seq<Cell>)
    requires WellSized(width, height, cells)
    ensures forall row: nat, column: nat :: row < height && column < width ==>
      CellAt(width, height, Step(width, height, cells), row, column)
      == Rule(CellAt(width, height, cells, row, column), NeighborCount(width, height, cells, row, column))
  {
    forall row: nat, column: nat | row < height && column < width
      ensures CellAt(width, height, Step(width, height, cells), row, column)
           == Rule(CellAt(width, height, cells, row, column), NeighborCount(width, height, cells, row, column))
    {
      StepAt(width, height, cells, row, column);
    }
  }

  /**
   * Survival and birth at (row, column): an Alive cell stays Alive iff it has 2 or 3 live
   * neighbours, a Dead cell becomes Alive iff it has exactly 3.
   */
  lemma StepRuleTable(width: nat, height: nat, cells: seq<Cell>, row: nat, column: nat)
    requires WellSized(width, height, cells)
    requires row < height && column < width
    ensures GetIndex(width, row, column) < |cells|
    ensures var n := NeighborCount(width, height, cells, row, column);
      var before := CellAt(width, height, cells, row, column);
      var after := Step(width, height, cells)[GetIndex(width, row, column)];
      (after == Alive <==> (before == Alive && (n == 2 || n == 3)) || (before == Dead && n == 3))
  {
    StepAt(width, height, cells, row, column);
  }

  /** The next state of a cell depends on nothing but the old 3 x 3 window around it. */
  lemma StepLocal(width: nat, height: nat, a: seq<Cell>, b: seq<Cell>, row: nat, column: nat)
    requires WellSized(width, height, a) && WellSized(width, height, b)
    requires row < height && column < width
    requires AgreeOnWindow(width, height, a, b, row, column)
    ensures GetIndex(width, row, column) < |a|
    ensures Step(width, height, a)[GetIndex(width, row, column)] == Step(width, height, b)[GetIndex(width, row, column)]
  {
    StepAt(width, height, a, row, column);
    StepAt(width, height, b, row, column);
    NeighborCountLocal(width, height, a, b, row, column);
    assert CellAt(width, height, a, row, column) == CellAt(width, height, b, row, column);
  }

  /** Buffer position i holds the rule applied to old cell i and the old count at (i / width, i % width). */
  lemma StepAtIndex(width: nat, height: nat, cells: seq<Cell>, i: nat)
    requires WellSized(width, height, cells)
    requires i < |cells|
    ensures width > 0 && Quot(i, width) < height && Rem(i, width) < width
    ensures Step(width, height, cells)[i] == Rule(cells[i], NeighborCount(width, height, cells, Quot(i, width), Rem(i, width)))
  {
    IndexDecode(width, height, i);
  }

  /** An all-Dead buffer is a fixed point: no cell has 3 live neighbours, so nothing is born. */
  lemma StepAllDead(width: nat, height: nat, cells: seq<Cell>)
    requires WellSized(width, height, cells)
    requires forall i :: 0 <= i < |cells| ==> cells[i] == Dead
    ensures Step(width, height, cells) == cells
  {
    var next := Step(width, height, cells);
    forall i | 0 <= i < |cells|
      ensures next[i] == cells[i]
    {
      StepAtIndex(width, height, cells, i);
      UniformCount(width, height, cells, Quot(i, width), Rem(i, width), Dead);
    }
    assert |next| == |cells|;
  }

  /**
   * An all-Alive buffer dies out in one generation: every cell has 8 live neighbours, or 7 on a
   * single row or column, or 5 on a 1 x 1 grid, all of them overpopulation.
   */
  lemma StepAllAlive(width: nat, height: nat, cells: seq<Cell>)
    requires WellSized(width, height, cells)
    requires forall i :: 0 <= i < |cells| ==> cells[i] == Alive
    ensures forall i :: 0 <= i < |cells| ==> Step(width, height, cells)[i] == Dead
  {
    forall i | 0 <= i < |cells|
      ensures Step(width, height, cells)[i] == Dead
    {
      StepAtIndex(width, height, cells, i);
      UniformCount(width, height, cells, Quot(i, width), Rem(i, width), Alive);
    }
  }

  /** n generations one after the other. */
  function StepN(width: nat, height: nat, cells: seq<Cell>, n: nat): (r: seq<Cell>)
    requires WellSized(width, height, cells)
    ensures WellSized(width, height, r)
    decreases n
  {
    if n == 0 then cells else Step(width, height, StepN(width, height, cells, n - 1))
  }

  /** Running a generations and then b more is running a + b. */
  lemma {:induction false} StepNAdd(width: nat, height: nat, cells: seq<Cell>, a: nat, b: nat)
    requires WellSized(width, height, cells)
    ensures StepN(width, height, StepN(width, height, cells, a), b) == StepN(width, height, cells, a + b)
    decreases b
  {
    if b > 0 {
      StepNAdd(width, height, cells, a, b - 1);
    }
  }

  /** The body of one pass of `tick`: fill a clone of the buffer cell by cell, row by row, reading the old buffer. */
  method Generation(width: nat, height: nat, cells: seq<Cell>) returns (next: seq<Cell>)
    requires WellSized(width, height, cells)
    ensures next == Step(width, height, cells)
  {
    next := cells;
    ghost var step := Step(width, height, cells);
    ghost var done := 0;   // cells already written: row * width + col
    var row := 0;
    while row < height
      invariant row <= height
      invariant done == Times(row, width)
      invariant done <= |cells|
      invariant |next| == |cells|
      invariant forall i :: 0 <= i < done ==> next[i] == step[i]
    {
      var col := 0;
      while col < width
        invariant col <= width
        invariant done == Times(row, width) + col
        invariant done <= |cells|
        invariant |next| == |cells|
        invariant forall i :: 0 <= i < done ==> next[i] == step[i]
      {
        StepAt(width, height, cells, row, col);
        var idx := GetIndex(width, row, col);
        var cell := cells[idx];
        var liveNeighbors := LiveNeighborCount(width, height, cells, row, col);
        next := next[idx := Rule(cell, liveNeighbors)];
        col := col + 1;
        done := done + 1;
      }
      row := row + 1;
    }
    assert done == |cells|;
  }
}
