/**
 * `Universe` of the older, fixed-size engine: no speed field, a single generation per `tick`,
 * and `new` always 200 x 200. Its operations share their definitions with the current engine;
 * `Lift` shows that it behaves as the current engine run at speed 1.
 */
module Legacy {
  import opened Cells
  import opened Torus
  import opened Life
  import opened Buffer
  import R = Render
  import Engine

  /** The fixed dimensions `new` uses. */
  const DefaultWidth: nat := 200
  const DefaultHeight: nat := 200

  datatype Universe = Universe(width: nat, height: nat, cells: seq<Cell>)

  predicate Valid(u: Universe)
  {
    WellSized(u.width, u.height, u.cells)
  }

  /** `new`: a 200 x 200 universe of 40000 cells, each drawn from the host's random source. */
  function New(draw: nat -> bool): (u: Universe)
    ensures Valid(u)
    ensures u.width == 200 && u.height == 200 && |u.cells| == 40000
    ensures forall i :: 0 <= i < |u.cells| ==> (u.cells[i] == Alive <==> draw(i))
  {
    TimesIsProduct(DefaultHeight, DefaultWidth);
    Universe(DefaultWidth, DefaultHeight, RandomBuffer(Times(DefaultHeight, DefaultWidth), draw))
  }

  /**
   * `tick`: every cell of the new buffer is the rule applied to the old cell and its live-neighbour
   * count in the old buffer; the dimensions stay.
   */
  function Tick(u: Universe): (r: Universe)
    requires Valid(u)
    ensures Valid(r)
    ensures r.width == u.width && r.height == u.height
    ensures forall row: nat, column: nat :: row < u.height && column < u.width ==>
      CellAt(r.width, r.height, r.cells, row, column)
      == Rule(CellAt(u.width, u.height, u.cells, row, column), NeighborCount(u.width, u.height, u.cells, row, column))
  {
    StepEverywhere(u.width, u.height, u.cells);
    u.(cells := Step(u.width, u.height, u.cells))
  }

  /** `set_width`: the new width and an all-Dead buffer of the new size. */
  function SetWidth(u: Universe, width: nat): (r: Universe)
    ensures Valid(r)
    ensures r.width == width && r.height == u.height
    ensures forall i :: 0 <= i < |r.cells| ==> r.cells[i] == Dead
  {
    u.(width := width, cells := DeadBuffer(Times(u.height, width)))
  }

  /** `set_height`: the new height and an all-Dead buffer of the new size. */
  function SetHeight(u: Universe, height: nat): (r: Universe)
    ensures Valid(r)
    ensures r.height == height && r.width == u.width
    ensures forall i :: 0 <= i < |r.cells| ==> r.cells[i] == Dead
  {
    u.(height := height, cells := DeadBuffer(Times(height, u.width)))
  }

  /** `toggle_cell`: flips the cell at `row * width + column` only, or panics past the buffer. */
  function ToggleCell(u: Universe, row: nat, column: nat): (r: Outcome<Universe>)
    ensures r.Done? <==> GetIndex(u.width, row, column) < |u.cells|
    ensures r.Done? ==> var v := r.value; var k := GetIndex(u.width, row, column);
      && v.width == u.width && v.height == u.height
      && |v.cells| == |u.cells|
      && v.cells[k] == u.cells[k].Toggle()
      && forall i :: 0 <= i < |u.cells| && i != k ==> v.cells[i] == u.cells[i]
  {
    match ToggleAt(u.cells, GetIndex(u.width, row, column))
    case Done(cells) => Done(u.(cells := cells))
    case Panic(reason) => Panic(reason)
  }

  /** `set_cells`: the listed cells become Alive and no other index changes; an index past the buffer panics. */
  function SetCells(u: Universe, coords: seq<(nat, nat)>): (r: Outcome<Universe>)
    ensures r.Done? <==> AllInBuffer(u.width, coords, |u.cells|)
    ensures r.Done? ==> var v := r.value;
      && v.width == u.width && v.height == u.height
      && |v.cells| == |u.cells|
      && forall i :: 0 <= i < |u.cells| ==> v.cells[i] == (if Listed(u.width, coords, i) then Alive else u.cells[i])
  {
    match SetAlive(u.width, u.cells, coords)
    case Done(cells) => Done(u.(cells := cells))
    case Panic(reason) => Panic(reason)
  }

  /** `render`: the same text as the current engine's, since the older `Display` is identical. */
  function Render(u: Universe): (r: Outcome<string>)
    requires Valid(u)
    ensures r.Panic? <==> u.width == 0
    ensures r.Done? ==> R.Unrender(r.value) == u.cells && R.CountNewlines(r.value) == u.height
    ensures r.Done? ==> |r.value| == u.height * (u.width + 1)
    ensures r.Done? ==> forall row :: 0 <= row < u.height ==>
              R.LineAt(u.width, u.cells, r.value, row * (u.width + 1), row * u.width)
  {
    var v := Lift(u);
    assert v.width == u.width && v.height == u.height && v.cells == u.cells;
    Engine.Render(v)
  }

  /** The older universe seen as a current one running at speed 1. */
  function Lift(u: Universe): Engine.Universe
  {
    Engine.Universe(1, u.width, u.height, u.cells)
  }

  function LiftOutcome(r: Outcome<Universe>): Outcome<Engine.Universe>
  {
    match r
    case Done(u) => Done(Lift(u))
    case Panic(reason) => Panic(reason)
  }

  /** Every operation of the older engine is the current engine's operation at speed 1. */
  lemma LiftCommutes(u: Universe, width: nat, height: nat, row: nat, column: nat, coords: seq<(nat, nat)>)
    requires Valid(u)
    ensures Lift(Tick(u)) == Engine.Tick(Lift(u))
    ensures Lift(SetWidth(u, width)) == Engine.SetWidth(Lift(u), width)
    ensures Lift(SetHeight(u, height)) == Engine.SetHeight(Lift(u), height)
    ensures LiftOutcome(ToggleCell(u, row, column)) == Engine.ToggleCell(Lift(u), row, column)
    ensures LiftOutcome(SetCells(u, coords)) == Engine.SetCells(Lift(u), coords)
    ensures Render(u) == Engine.Render(Lift(u))
  {
  }
}
