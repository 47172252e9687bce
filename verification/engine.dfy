/** `Universe` of the current engine: dimensions, a generation speed and the cell buffer. */
module Engine {
  import opened Cells
  import opened Torus
  import opened Life
  import opened Buffer
  import R = Render

  /** `DEFAULT_SPEED`. */
  const DefaultSpeed: nat := 1

  datatype Universe = Universe(speed: nat, width: nat, height: nat, cells: seq<Cell>)

  /** The invariant every operation keeps: one cell per (row, column). */
  predicate Valid(u: Universe)
  {
    WellSized(u.width, u.height, u.cells)
  }

  /** `Universe::new`: speed 1, the given dimensions, each cell drawn from the host's random source. */
  function New(width: nat, height: nat, draw: nat -> bool): (u: Universe)
    ensures Valid(u)
    ensures u.speed == DefaultSpeed && u.width == width && u.height == height
    ensures forall i :: 0 <= i < |u.cells| ==> (u.cells[i] == Alive <==> draw(i))
  {
    Universe(DefaultSpeed, width, height, RandomBuffer(Times(height, width), draw))
  }

  /** `tick`: `speed` generations, each computed in full from the previous buffer before it replaces it. */
  function Tick(u: Universe): (r: Universe)
    requires Valid(u)
    ensures Valid(r)
    ensures r.speed == u.speed && r.width == u.width && r.height == u.height
    ensures u.speed == 0 ==> r == u
    ensures u.speed == 1 ==> r.cells == Step(u.width, u.height, u.cells)
  {
    u.(cells := StepN(u.width, u.height, u.cells, u.speed))
  }

  /** `tick` as written: a counted loop, each pass filling a clone of the buffer and then swapping it in. */
  method TickLoop(u: Universe) returns (r: Universe)
    requires Valid(u)
    ensures r == Tick(u)
  {
    r := u;
    var pass := 0;
    while pass < u.speed
      invariant pass <= u.speed
      invariant r == u.(cells := StepN(u.width, u.height, u.cells, pass))
    {
      var next := Generation(r.width, r.height, r.cells);
      r := r.(cells := next);
      pass := pass + 1;
    }
  }

  /** n calls of `tick`, one after the other. */
  function TickTimes(u: Universe, n: nat): (r: Universe)
    requires Valid(u)
    ensures Valid(r)
    ensures r.speed == u.speed && r.width == u.width && r.height == u.height
    decreases n
  {
    if n == 0 then u else Tick(TickTimes(u, n - 1))
  }

  /**
   * The speed multiplier: one `tick` at speed n gives the same buffer as n `tick`s at speed 1,
   * and in general one `tick` at speed s * n as n `tick`s at speed s.
   */
  lemma {:induction false} TickSpeedEquivalence(u: Universe, n: nat)
    requires Valid(u)
    ensures Tick(u.(speed := n)).cells == TickTimes(u.(speed := 1), n).cells
    decreases n
  {
    if n > 0 {
      TickSpeedEquivalence(u, n - 1);
      var v := TickTimes(u.(speed := 1), n - 1);
      assert Tick(v).cells == Step(u.width, u.height, v.cells);
    }
  }

  /** Each pass completes before the next: speed a + b is speed a followed by speed b. */
  lemma TickSpeedSplit(u: Universe, a: nat, b: nat)
    requires Valid(u)
    ensures Tick(u.(speed := a + b)).cells == Tick(Tick(u.(speed := a)).(speed := b)).cells
  {
    StepNAdd(u.width, u.height, u.cells, a, b);
  }

  /** `set_width`: the new width, and a buffer of the new size that is entirely Dead. */
  function SetWidth(u: Universe, width: nat): (r: Universe)
    ensures Valid(r)
    ensures r.width == width && r.height == u.height && r.speed == u.speed
    ensures forall i :: 0 <= i < |r.cells| ==> r.cells[i] == Dead
  {
    u.(width := width, cells := DeadBuffer(Times(u.height, width)))
  }

  /** `set_height`: the new height, and a buffer of the new size that is entirely Dead. */
  function SetHeight(u: Universe, height: nat): (r: Universe)
    ensures Valid(r)
    ensures r.height == height && r.width == u.width && r.speed == u.speed
    ensures forall i :: 0 <= i < |r.cells| ==> r.cells[i] == Dead
  {
    u.(height := height, cells := DeadBuffer(Times(height, u.width)))
  }

  /** `set_speed`: only the speed changes. */
  function SetSpeed(u: Universe, speed: nat): (r: Universe)
    ensures r.speed == speed
    ensures r.width == u.width && r.height == u.height && r.cells == u.cells
  {
    u.(speed := speed)
  }

  /** `toggle_cell`: flips the cell at `row * width + column`, or panics when that is past the buffer. */
  function ToggleCell(u: Universe, row: nat, column: nat): (r: Outcome<Universe>)
    ensures r.Done? <==> GetIndex(u.width, row, column) < |u.cells|
    ensures r.Done? ==> var v := r.value; var k := GetIndex(u.width, row, column);
      && v.speed == u.speed && v.width == u.width && v.height == u.height
      && |v.cells| == |u.cells|
      && v.cells[k] == u.cells[k].Toggle()
      && forall i :: 0 <= i < |u.cells| && i != k ==> v.cells[i] == u.cells[i]
  {
    match ToggleAt(u.cells, GetIndex(u.width, row, column))
    case Done(cells) => Done(u.(cells := cells))
    case Panic(reason) => Panic(reason)
  }

  /** An in-range coordinate never panics, and toggling it twice restores the universe. */
  lemma ToggleCellTwice(u: Universe, row: nat, column: nat)
    requires Valid(u) && row < u.height && column < u.width
    ensures ToggleCell(u, row, column).Done?
    ensures ToggleCell(ToggleCell(u, row, column).value, row, column) == Done(u)
  {
    IndexInBounds(u.width, u.height, row, column);
    ToggleAtTwice(u.cells, GetIndex(u.width, row, column));
  }

  /** `set_cells`: every listed cell becomes Alive, nothing else changes; an index past the buffer panics. */
  function SetCells(u: Universe, coords: seq<(nat, nat)>): (r: Outcome<Universe>)
    ensures r.Done? <==> AllInBuffer(u.width, coords, |u.cells|)
    ensures r.Done? ==> var v := r.value;
      && v.speed == u.speed && v.width == u.width && v.height == u.height
      && |v.cells| == |u.cells|
      && forall i :: 0 <= i < |u.cells| ==> v.cells[i] == (if Listed(u.width, coords, i) then Alive else u.cells[i])
  {
    match SetAlive(u.width, u.cells, coords)
    case Done(cells) => Done(u.(cells := cells))
    case Panic(reason) => Panic(reason)
  }

  /** In-range coordinates never panic, and each of them is Alive afterwards. */
  lemma SetCellsInRange(u: Universe, coords: seq<(nat, nat)>)
    requires Valid(u)
    requires forall k :: 0 <= k < |coords| ==> coords[k].0 < u.height && coords[k].1 < u.width
    ensures SetCells(u, coords).Done?
    ensures forall k :: 0 <= k < |coords| ==>
      CellAt(u.width, u.height, SetCells(u, coords).value.cells, coords[k].0, coords[k].1) == Alive
  {
    forall k | 0 <= k < |coords|
      ensures PairIndex(u.width, coords[k]) < |u.cells|
    {
      IndexInBounds(u.width, u.height, coords[k].0, coords[k].1);
    }
    var v := SetCells(u, coords).value;
    forall k | 0 <= k < |coords|
      ensures CellAt(u.width, u.height, v.cells, coords[k].0, coords[k].1) == Alive
    {
      assert Listed(u.width, coords, PairIndex(u.width, coords[k]));
    }
  }

  /** `reset`: same dimensions, every cell Dead. */
  function Reset(u: Universe): (r: Universe)
    ensures Valid(r)
    ensures r.width == u.width && r.height == u.height && r.speed == u.speed
    ensures forall i :: 0 <= i < |r.cells| ==> r.cells[i] == Dead
  {
    u.(cells := DeadBuffer(Times(u.height, u.width)))
  }

  /** `random`: same dimensions, each cell redrawn from the host's random source. */
  function Random(u: Universe, draw: nat -> bool): (r: Universe)
    ensures Valid(r)
    ensures r.width == u.width && r.height == u.height && r.speed == u.speed
    ensures forall i :: 0 <= i < |r.cells| ==> (r.cells[i] == Alive <==> draw(i))
  {
    u.(cells := RandomBuffer(Times(u.height, u.width), draw))
  }

  /** `resize`: both dimensions set, then `reset`. */
  function Resize(u: Universe, width: nat, height: nat): (r: Universe)
    ensures Valid(r)
    ensures r.width == width && r.height == height && r.speed == u.speed
    ensures forall i :: 0 <= i < |r.cells| ==> r.cells[i] == Dead
  {
    Reset(u.(width := width, height := height))
  }

  /** Resizing forgets the old content: it is `set_width` followed by `set_height`, whatever the cells were. */
  lemma ResizeForgetsContent(u: Universe, v: Universe, width: nat, height: nat)
    requires u.speed == v.speed
    ensures Resize(u, width, height) == Resize(v, width, height)
    ensures Resize(u, width, height) == SetHeight(SetWidth(u, width), height)
  {
    var a, b := Resize(u, width, height), SetHeight(SetWidth(u, width), height);
    assert |a.cells| == |b.cells|;
  }

  /**
   * `render`: the text of the buffer in rows of `width` glyphs; a zero width panics. Line r starts
   * at r * (width + 1) and is row r's glyphs followed by a newline.
   */
  function Render(u: Universe): (r: Outcome<string>)
    requires Valid(u)
    ensures r.Panic? <==> u.width == 0
    ensures r.Done? ==> R.Unrender(r.value) == u.cells && R.CountNewlines(r.value) == u.height
    ensures r.Done? ==> |r.value| == u.height * (u.width + 1)
    ensures r.Done? ==> forall row :: 0 <= row < u.height ==>
              R.LineAt(u.width, u.cells, r.value, row * (u.width + 1), row * u.width)
  {
    var r := R.Render(u.width, u.cells);
    if u.width > 0 then
      TimesIsProduct(u.height, u.width);
      R.RenderLineCount(u.width, u.height, u.cells);
      R.RenderShape(u.width, u.height, u.cells);
      r
    else r
  }

  /** The operations a host can call, with their arguments. */
  datatype Op =
    | TickOp
    | SetWidthOp(width: nat)
    | SetHeightOp(height: nat)
    | SetSpeedOp(speed: nat)
    | ToggleCellOp(row: nat, column: nat)
    | SetCellsOp(coords: seq<(nat, nat)>)
    | ResetOp
    | RandomOp(draw: nat -> bool)
    | ResizeOp(width: nat, height: nat)

  /** One host call. */
  function Apply(u: Universe, op: Op): Outcome<Universe>
    requires Valid(u)
  {
    match op
    case TickOp => Done(Tick(u))
    case SetWidthOp(w) => Done(SetWidth(u, w))
    case SetHeightOp(h) => Done(SetHeight(u, h))
    case SetSpeedOp(s) => Done(SetSpeed(u, s))
    case ToggleCellOp(row, column) => ToggleCell(u, row, column)
    case SetCellsOp(coords) => SetCells(u, coords)
    case ResetOp => Done(Reset(u))
    case RandomOp(draw) => Done(Random(u, draw))
    case ResizeOp(w, h) => Done(Resize(u, w, h))
  }

  /** A sequence of host calls, stopping at the first panic. */
  function Run(u: Universe, ops: seq<Op>): (r: Outcome<Universe>)
    requires Valid(u)
    ensures r.Done? ==> Valid(r.value)
    decreases |ops|
  {
    if |ops| == 0 then Done(u)
    else
      match Apply(u, ops[0])
      case Done(v) => Run(v, ops[1..])
      case Panic(reason) => Panic(reason)
  }
}
