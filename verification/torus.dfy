/** Row-major indexing and the toroidal live-neighbour count (`get_index`, `live_neighbor_count`). */
module Torus {
  import opened Cells

  /**
   * `a * k`, written as repeated addition. The source's products (`row * self.width`,
   * `self.width * self.height`) are this function (`TimesIsProduct`); keeping it recursive keeps
   * the proofs about indices linear.
   */
  function Times(a: nat, k: nat): nat
    decreases a
  {
    if a == 0 then 0 else Times(a - 1, k) + k
  }

  lemma {:induction false} TimesIsProduct(a: nat, k: nat)
    ensures Times(a, k) == a * k
    decreases a
  {
    if a > 0 {
      TimesIsProduct(a - 1, k);
      assert a * k == (a - 1) * k + k;
    }
  }

  lemma {:induction false} TimesMonotone(a: nat, b: nat, k: nat)
    requires a <= b
    ensures Times(a, k) <= Times(b, k)
    decreases b - a
  {
    if a < b {
      TimesMonotone(a, b - 1, k);
    }
  }

  /** `x / n` on unsigned integers, by repeated subtraction. */
  function Quot(x: nat, n: nat): nat
    requires n > 0
    decreases x
  {
    if x < n then 0 else Quot(x - n, n) + 1
  }

  /** `x % n` on unsigned integers, by repeated subtraction. */
  function Rem(x: nat, n: nat): (r: nat)
    requires n > 0
    ensures r < n
    ensures r <= x
    decreases x
  {
    if x < n then x else Rem(x - n, n)
  }

  /** `Quot` and `Rem` are the quotient and remainder of unsigned division. */
  lemma {:induction false} QuotRemAreDivMod(x: nat, n: nat)
    requires n > 0
    ensures Quot(x, n) == x / n && Rem(x, n) == x % n
    decreases x
  {
    if x >= n {
      QuotRemAreDivMod(x - n, n);
      DivModStep(x, n);
    }
  }

  lemma DivModStep(x: nat, n: nat)
    requires 0 < n <= x
    ensures x / n == (x - n) / n + 1 && x % n == (x - n) % n
  {
    var q, r := (x - n) / n, (x - n) % n;
    assert x == (q + 1) * n + r;
    DivModUnique(n, q + 1, r);
  }

  lemma DivModUnique(n: nat, q: nat, r: nat)
    requires r < n
    ensures (q * n + r) / n == q && (q * n + r) % n == r
  {
    var x := q * n + r;
    var q', r' := x / n, x % n;
    assert q' * n + r' == x;
    if q' > q {
      MulStep(q, q', n);
      assert false;
    }
    if q' < q {
      MulStep(q', q, n);
      assert false;
    }
  }

  lemma MulStep(a: nat, b: nat, n: nat)
    requires a < b
    ensures a * n + n <= b * n
  {
    assert (a + 1) * n == a * n + n;
    assert (a + 1) * n <= b * n;
  }

  /**
   * `get_index`: the row-major position `row * width + column`. The product is `Times` rather than
   * `*` so that the proofs about positions stay in linear arithmetic, where a failed proof attempt
   * ends quickly; `TimesIsProduct` equates the two. Row `row` occupies the positions from
   * `row * width` up to, but not including, `(row + 1) * width`.
   */
  function GetIndex(width: nat, row: nat, column: nat): (i: nat)
    ensures Times(row, width) <= i
    ensures i < Times(row + 1, width) <==> column < width
  {
    Times(row, width) + column
  }

  /** The buffer holds exactly one cell per (row, column): `width * height` cells. */
  predicate WellSized(width: nat, height: nat, cells: seq<Cell>)
  {
    |cells| == Times(height, width)
  }

  /** An in-range coordinate lands inside the buffer, and the index decodes back to it. */
  lemma IndexInBounds(width: nat, height: nat, row: nat, column: nat)
    requires row < height && column < width
    ensures GetIndex(width, row, column) < Times(height, width)
    ensures Quot(GetIndex(width, row, column), width) == row
    ensures Rem(GetIndex(width, row, column), width) == column
  {
    TimesMonotone(row + 1, height, width);
    IndexDecodesTo(width, row, column);
  }

  lemma {:induction false} IndexDecodesTo(width: nat, row: nat, column: nat)
    requires column < width
    ensures Quot(Times(row, width) + column, width) == row
    ensures Rem(Times(row, width) + column, width) == column
    decreases row
  {
    if row > 0 {
      IndexDecodesTo(width, row - 1, column);
    }
  }

  /** Every buffer position is the index of exactly the coordinate obtained by dividing by the width. */
  lemma {:induction false} IndexDecode(width: nat, height: nat, i: nat)
    requires i < Times(height, width)
    ensures width > 0 && height > 0
    ensures Quot(i, width) < height && Rem(i, width) < width
    ensures GetIndex(width, Quot(i, width), Rem(i, width)) == i
    decreases height
  {
    if i >= width {
      IndexDecode(width, height - 1, i - width);
    }
  }

  /** The delta list `[n - 1, 0, 1]` iterated for rows (n = height) and columns (n = width). */
  function Deltas(n: nat): seq<nat>
    requires n > 0
  {
    [n - 1, 0, 1]
  }

  /** `(delta + x) % n`: the wrapped coordinate a delta selects. */
  function Wrap(delta: nat, x: nat, n: nat): nat
    requires n > 0
  {
    Rem(delta + x, n)
  }

  /** The cell at (row, column) of a well-sized buffer. */
  function CellAt(width: nat, height: nat, cells: seq<Cell>, row: nat, column: nat): Cell
    requires WellSized(width, height, cells)
    requires row < height && column < width
  {
    IndexInBounds(width, height, row, column);
    cells[GetIndex(width, row, column)]
  }

  /** What one (delta_row, delta_column) pair adds: nothing for the skipped (0, 0) pair. */
  function Contribution(width: nat, height: nat, cells: seq<Cell>, row: nat, column: nat,
                        dr: nat, dc: nat): nat
    requires WellSized(width, height, cells)
    requires row < height && column < width
  {
    if dr == 0 && dc == 0 then 0
    else CellAt(width, height, cells, Wrap(dr, row, height), Wrap(dc, column, width)).Value()
  }

  /** The inner loop over the column deltas, for one row delta. */
  function RowSum(width: nat, height: nat, cells: seq<Cell>, row: nat, column: nat,
                  dr: nat, dcs: seq<nat>): nat
    requires WellSized(width, height, cells)
    requires row < height && column < width
    decreases |dcs|
  {
    if |dcs| == 0 then 0
    else RowSum(width, height, cells, row, column, dr, dcs[..|dcs| - 1])
         + Contribution(width, height, cells, row, column, dr, dcs[|dcs| - 1])
  }

  /** The outer loop over the row deltas. */
  function WindowSum(width: nat, height: nat, cells: seq<Cell>, row: nat, column: nat,
                     drs: seq<nat>, dcs: seq<nat>): nat
    requires WellSized(width, height, cells)
    requires row < height && column < width
    decreases |drs|
  {
    if |drs| == 0 then 0
    else WindowSum(width, height, cells, row, column, drs[..|drs| - 1], dcs)
         + RowSum(width, height, cells, row, column, drs[|drs| - 1], dcs)
  }

  /** The inner fold over a three-entry delta list is the sum of its three contributions. */
  lemma RowSumOfThree(width: nat, height: nat, cells: seq<Cell>, row: nat, column: nat,
                      dr: nat, dcs: seq<nat>)
    requires WellSized(width, height, cells)
    requires row < height && column < width
    requires |dcs| == 3
    ensures RowSum(width, height, cells, row, column, dr, dcs)
         == Contribution(width, height, cells, row, column, dr, dcs[0])
          + Contribution(width, height, cells, row, column, dr, dcs[1])
          + Contribution(width, height, cells, row, column, dr, dcs[2])
  {
    assert dcs[..2][..1] == dcs[..1];
    assert dcs[..1][..0] == [];
    assert RowSum(width, height, cells, row, column, dr, dcs[..1][..0]) == 0;
    var one := RowSum(width, height, cells, row, column, dr, dcs[..1]);
    var two := RowSum(width, height, cells, row, column, dr, dcs[..2]);
    assert one == Contribution(width, height, cells, row, column, dr, dcs[0]);
    assert two == one + Contribution(width, height, cells, row, column, dr, dcs[1]);
  }

  /** The outer fold over a three-entry delta list is the sum of its three inner folds. */
  lemma WindowSumOfThree(width: nat, height: nat, cells: seq<Cell>, row: nat, column: nat,
                         drs: seq<nat>, dcs: seq<nat>)
    requires WellSized(width, height, cells)
    requires row < height && column < width
    requires |drs| == 3
    ensures WindowSum(width, height, cells, row, column, drs, dcs)
         == RowSum(width, height, cells, row, column, drs[0], dcs)
          + RowSum(width, height, cells, row, column, drs[1], dcs)
          + RowSum(width, height, cells, row, column, drs[2], dcs)
  {
    assert drs[..2][..1] == drs[..1];
    assert drs[..1][..0] == [];
    assert WindowSum(width, height, cells, row, column, drs[..1][..0], dcs) == 0;
    var one := WindowSum(width, height, cells, row, column, drs[..1], dcs);
    var two := WindowSum(width, height, cells, row, column, drs[..2], dcs);
    assert one == RowSum(width, height, cells, row, column, drs[0], dcs);
    assert two == one + RowSum(width, height, cells, row, column, drs[1], dcs);
  }

  /**
   * `live_neighbor_count`: the 3 x 3 loop over the delta lists with the (0, 0) pair skipped. At
   * most 8: the middle entry of both lists is 0, so that pair adds nothing, and every other pair
   * adds 0 or 1; the `u8` count cannot overflow.
   */
  function NeighborCount(width: nat, height: nat, cells: seq<Cell>, row: nat, column: nat): (n: nat)
    requires WellSized(width, height, cells)
    requires row < height && column < width
    ensures n <= 8
  {
    var rs, cs := Deltas(height), Deltas(width);
    WindowSumOfThree(width, height, cells, row, column, rs, cs);
    RowSumOfThree(width, height, cells, row, column, rs[0], cs);
    RowSumOfThree(width, height, cells, row, column, rs[1], cs);
    RowSumOfThree(width, height, cells, row, column, rs[2], cs);
    WindowSum(width, height, cells, row, column, rs, cs)
  }

  /** The same count, computed by the nested loops of the source, `continue` included. */
  method LiveNeighborCount(width: nat, height: nat, cells: seq<Cell>, row: nat, column: nat)
    returns (count: nat)
    requires WellSized(width, height, cells)
    requires row < height && column < width
    ensures count == NeighborCount(width, height, cells, row, column)
    ensures count <= 8
  {
    var drs := Deltas(height);
    var dcs := Deltas(width);
    count := 0;
    var i := 0;
    while i < |drs|
      invariant 0 <= i <= |drs|
      invariant count == WindowSum(width, height, cells, row, column, drs[..i], dcs)
    {
      var dr := drs[i];
      var j := 0;
      var rowCount := 0;
      while j < |dcs|
        invariant 0 <= j <= |dcs|
        invariant rowCount == RowSum(width, height, cells, row, column, dr, dcs[..j])
      {
        var dc := dcs[j];
        assert dcs[..j + 1][..j] == dcs[..j];
        if dr == 0 && dc == 0 {
          j := j + 1;
          continue;
        }
        var neighborRow := Wrap(dr, row, height);
        var neighborColumn := Wrap(dc, column, width);
        IndexInBounds(width, height, neighborRow, neighborColumn);
        var neighborIdx := GetIndex(width, neighborRow, neighborColumn);
        rowCount := rowCount + cells[neighborIdx].Value();
        j := j + 1;
      }
      assert dcs[..j] == dcs;
      assert drs[..i + 1][..i] == drs[..i];
      count := count + rowCount;
      i := i + 1;
    }
    assert drs[..i] == drs;
  }

  /** The nine terms of the window, in the order the source visits them. */
  lemma NeighborCountExpand(width: nat, height: nat, cells: seq<Cell>, row: nat, column: nat)
    requires WellSized(width, height, cells)
    requires row < height && column < width
    ensures var rs, cs := Deltas(height), Deltas(width);
      NeighborCount(width, height, cells, row, column)
      == Contribution(width, height, cells, row, column, rs[0], cs[0])
       + Contribution(width, height, cells, row, column, rs[0], cs[1])
       + Contribution(width, height, cells, row, column, rs[0], cs[2])
       + Contribution(width, height, cells, row, column, rs[1], cs[0])
       + Contribution(width, height, cells, row, column, rs[1], cs[1])
       + Contribution(width, height, cells, row, column, rs[1], cs[2])
       + Contribution(width, height, cells, row, column, rs[2], cs[0])
       + Contribution(width, height, cells, row, column, rs[2], cs[1])
       + Contribution(width, height, cells, row, column, rs[2], cs[2])
  {
    var rs, cs := Deltas(height), Deltas(width);
    WindowSumOfThree(width, height, cells, row, column, rs, cs);
    RowSumOfThree(width, height, cells, row, column, rs[0], cs);
    RowSumOfThree(width, height, cells, row, column, rs[1], cs);
    RowSumOfThree(width, height, cells, row, column, rs[2], cs);
  }

  /** The previous coordinate on a ring of n positions. */
  function Prev(x: nat, n: nat): nat
    requires x < n
  {
    if x == 0 then n - 1 else x - 1
  }

  /** The next coordinate on a ring of n positions. */
  function Next(x: nat, n: nat): nat
    requires x < n
  {
    if x + 1 == n then 0 else x + 1
  }

  /** The three deltas select the previous, the same and the next coordinate, wrapping at the edges. */
  lemma DeltasWrap(x: nat, n: nat)
    requires x < n
    ensures Wrap(Deltas(n)[0], x, n) == Prev(x, n)
    ensures Wrap(Deltas(n)[1], x, n) == x
    ensures Wrap(Deltas(n)[2], x, n) == Next(x, n)
  {
    if x > 0 {
      assert Rem(n - 1 + x, n) == Rem(x - 1, n);
    }
    if x + 1 == n {
      assert Rem(1 + x, n) == Rem(0, n);
    }
  }

  /** Row 0's upper neighbour is the last row, and column 0's left neighbour is the last column. */
  lemma TopLeftWraps(width: nat, height: nat)
    requires width > 0 && height > 0
    ensures Wrap(Deltas(height)[0], 0, height) == height - 1
    ensures Wrap(Deltas(width)[0], 0, width) == width - 1
  {
    DeltasWrap(0, height);
    DeltasWrap(0, width);
  }

  /** The Moore neighbourhood written out as eight named neighbours, independently of the delta lists. */
  function MooreCount(width: nat, height: nat, cells: seq<Cell>, row: nat, column: nat): nat
    requires WellSized(width, height, cells)
    requires row < height && column < width
  {
    var up, down := Prev(row, height), Next(row, height);
    var left, right := Prev(column, width), Next(column, width);
    CellAt(width, height, cells, up, left).Value()
    + CellAt(width, height, cells, up, column).Value()
    + CellAt(width, height, cells, up, right).Value()
    + CellAt(width, height, cells, row, left).Value()
    + CellAt(width, height, cells, row, right).Value()
    + CellAt(width, height, cells, down, left).Value()
    + CellAt(width, height, cells, down, column).Value()
    + CellAt(width, height, cells, down, right).Value()
  }

  /** On a grid of at least 2 x 2 the delta loop counts exactly the eight Moore neighbours. */
  lemma NeighborCountIsMoore(width: nat, height: nat, cells: seq<Cell>, row: nat, column: nat)
    requires WellSized(width, height, cells)
    requires row < height && column < width
    requires width >= 2 && height >= 2
    ensures NeighborCount(width, height, cells, row, column) == MooreCount(width, height, cells, row, column)
  {
    NeighborCountExpand(width, height, cells, row, column);
    DeltasWrap(row, height);
    DeltasWrap(column, width);
  }

  /** On a grid of at least 3 x 3 the eight Moore neighbours are distinct cells, none of them the cell itself. */
  lemma MooreDistinct(x: nat, n: nat)
    requires x < n && n >= 3
    ensures Prev(x, n) != x && Next(x, n) != x && Prev(x, n) != Next(x, n)
  {
  }

  /**
   * How many (delta_row, delta_column) pairs the loop counts: 8 of the 9, but 7 on a single row or
   * column and 5 on a 1 x 1 grid, because the delta list of a ring of one position holds 0 twice.
   */
  function CountedPairs(width: nat, height: nat): nat
  {
    if width == 1 && height == 1 then 5
    else if width == 1 || height == 1 then 7
    else 8
  }

  /** On a uniform grid every pair that is not skipped adds the common cell value. */
  lemma UniformContribution(width: nat, height: nat, cells: seq<Cell>, row: nat, column: nat, c: Cell,
                            dr: nat, dc: nat)
    requires WellSized(width, height, cells)
    requires row < height && column < width
    requires forall i :: 0 <= i < |cells| ==> cells[i] == c
    ensures Contribution(width, height, cells, row, column, dr, dc) == if dr == 0 && dc == 0 then 0 else c.Value()
  {
    if !(dr == 0 && dc == 0) {
      IndexInBounds(width, height, Wrap(dr, row, height), Wrap(dc, column, width));
    }
  }

  /** On a uniform grid one row delta's inner fold adds the cell value three times, less the skipped pairs. */
  lemma UniformRow(width: nat, height: nat, cells: seq<Cell>, row: nat, column: nat, c: Cell, dr: nat)
    requires WellSized(width, height, cells)
    requires row < height && column < width
    requires forall i :: 0 <= i < |cells| ==> cells[i] == c
    ensures RowSum(width, height, cells, row, column, dr, Deltas(width))
         == if dr != 0 then 3 * c.Value() else if width == 1 then c.Value() else 2 * c.Value()
  {
    var cs := Deltas(width);
    RowSumOfThree(width, height, cells, row, column, dr, cs);
    UniformContribution(width, height, cells, row, column, c, dr, cs[0]);
    UniformContribution(width, height, cells, row, column, c, dr, cs[1]);
    UniformContribution(width, height, cells, row, column, c, dr, cs[2]);
  }

  /** On a uniform grid every counted pair adds the same value. */
  lemma UniformCount(width: nat, height: nat, cells: seq<Cell>, row: nat, column: nat, c: Cell)
    requires WellSized(width, height, cells)
    requires row < height && column < width
    requires forall i :: 0 <= i < |cells| ==> cells[i] == c
    ensures NeighborCount(width, height, cells, row, column) == if c == Alive then CountedPairs(width, height) else 0
  {
    var rs, cs := Deltas(height), Deltas(width);
    WindowSumOfThree(width, height, cells, row, column, rs, cs);
    UniformRow(width, height, cells, row, column, c, rs[0]);
    UniformRow(width, height, cells, row, column, c, rs[1]);
    UniformRow(width, height, cells, row, column, c, rs[2]);
    UniformTotal(width, height, c,
                 RowSum(width, height, cells, row, column, rs[0], cs),
                 RowSum(width, height, cells, row, column, rs[1], cs),
                 RowSum(width, height, cells, row, column, rs[2], cs));
  }

  lemma UniformTotal(width: nat, height: nat, c: Cell, up: nat, same: nat, down: nat)
    requires height > 0
    requires var v := c.Value();
      && up == (if height - 1 != 0 then 3 * v else if width == 1 then v else 2 * v)
      && same == (if width == 1 then v else 2 * v)
      && down == 3 * v
    ensures up + same + down == if c == Alive then CountedPairs(width, height) else 0
  {
  }

  /** Two buffers that agree on the 3 x 3 window around (row, column). */
  predicate AgreeOnWindow(width: nat, height: nat, a: seq<Cell>, b: seq<Cell>, row: nat, column: nat)
    requires WellSized(width, height, a) && WellSized(width, height, b)
    requires row < height && column < width
  {
    forall r, k ::
      r in {Prev(row, height), row, Next(row, height)} && k in {Prev(column, width), column, Next(column, width)}
      ==> CellAt(width, height, a, r, k) == CellAt(width, height, b, r, k)
  }

  /** The count reads nothing outside the 3 x 3 window around the cell. */
  lemma NeighborCountLocal(width: nat, height: nat, a: seq<Cell>, b: seq<Cell>, row: nat, column: nat)
    requires WellSized(width, height, a) && WellSized(width, height, b)
    requires row < height && column < width
    requires AgreeOnWindow(width, height, a, b, row, column)
    ensures NeighborCount(width, height, a, row, column) == NeighborCount(width, height, b, row, column)
  {
    NeighborCountExpand(width, height, a, row, column);
    NeighborCountExpand(width, height, b, row, column);
    DeltasWrap(row, height);
    DeltasWrap(column, width);
  }
}
