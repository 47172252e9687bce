/** Whole-buffer fills and the per-cell mutators shared by both copies of `Universe`. */
module Buffer {
  import opened Cells
  import opened Torus

  /** `(0..n).map(|_| Cell::Dead).collect()`. */
  function DeadBuffer(n: nat): (r: seq<Cell>)
    ensures |r| == n
    ensures forall i :: 0 <= i < n ==> r[i] == Dead
  {
    seq(n, _ => Dead)
  }

  /**
   * `get_random_universe`: cell i is Alive exactly when the i-th draw of the host's random
   * source was below 0.5; `draw(i)` stands for that comparison.
   */
  function RandomBuffer(n: nat, draw: nat -> bool): (r: seq<Cell>)
    ensures |r| == n
    ensures forall i :: 0 <= i < n ==> (r[i] == Alive <==> draw(i))
  {
    seq(n, i requires 0 <= i < n => if draw(i) then Alive else Dead)
  }

  /** `self.cells[index].toggle()`: flips one cell, or panics when the index is past the end. */
  function ToggleAt(cells: seq<Cell>, index: nat): (r: Outcome<seq<Cell>>)
    ensures r.Done? <==> index < |cells|
    ensures r.Panic? ==> r.reason == IndexOutOfBounds(index, |cells|)
    ensures r.Done? ==> |r.value| == |cells| && r.value[index] == cells[index].Toggle()
    ensures r.Done? ==> forall i :: 0 <= i < |cells| && i != index ==> r.value[i] == cells[i]
  {
    if index < |cells| then Done(cells[index := cells[index].Toggle()])
    else Panic(IndexOutOfBounds(index, |cells|))
  }

  /** Toggling the same index twice gives the original buffer back. */
  lemma ToggleAtTwice(cells: seq<Cell>, index: nat)
    requires index < |cells|
    ensures ToggleAt(ToggleAt(cells, index).value, index) == Done(cells)
  {
    var once := ToggleAt(cells, index).value;
    var twice := ToggleAt(once, index).value;
    assert twice[index] == cells[index] by {
      ToggleInvolution(cells[index]);
    }
    assert twice == cells;
  }

  /** The buffer position of a (row, column) pair. */
  function PairIndex(width: nat, p: (nat, nat)): nat
  {
    GetIndex(width, p.0, p.1)
  }

  /** Some listed pair lands on buffer position i. */
  predicate Listed(width: nat, coords: seq<(nat, nat)>, i: nat)
  {
    exists k :: 0 <= k < |coords| && PairIndex(width, coords[k]) == i
  }

  /** Every listed pair lands inside a buffer of length len. */
  predicate AllInBuffer(width: nat, coords: seq<(nat, nat)>, len: nat)
  {
    forall k :: 0 <= k < |coords| ==> PairIndex(width, coords[k]) < len
  }

  /**
   * `set_cells`: in list order, each pair's cell becomes Alive; the first pair whose index is past
   * the end of the buffer panics. On success a cell is Alive iff it was listed or already Alive.
   */
  function SetAlive(width: nat, cells: seq<Cell>, coords: seq<(nat, nat)>): (r: Outcome<seq<Cell>>)
    ensures r.Done? <==> AllInBuffer(width, coords, |cells|)
    ensures r.Panic? ==> r.reason.IndexOutOfBounds? && r.reason.len == |cells| && r.reason.index >= |cells|
                         && exists k :: 0 <= k < |coords| && PairIndex(width, coords[k]) == r.reason.index
                                       && forall j :: 0 <= j < k ==> PairIndex(width, coords[j]) < |cells|
    ensures r.Done? ==> |r.value| == |cells|
    ensures r.Done? ==> forall i :: 0 <= i < |cells| ==>
                          r.value[i] == (if Listed(width, coords, i) then Alive else cells[i])
    decreases |coords|
  {
    if |coords| == 0 then Done(cells)
    else
      var index := PairIndex(width, coords[0]);
      if index >= |cells| then
        Panic(IndexOutOfBounds(index, |cells|))
      else
        var rest := SetAlive(width, cells[index := Alive], coords[1..]);
        assert forall k :: 1 <= k < |coords| ==> coords[k] == coords[1..][k - 1];
        assert rest.Done? ==> forall i :: 0 <= i < |cells| ==>
          (Listed(width, coords, i) <==> i == index || Listed(width, coords[1..], i));
        rest
  }

  /** Seeding a list and then more pairs is seeding the concatenation; a panic stops the rest. */
  lemma {:induction false} SetAliveAppend(width: nat, cells: seq<Cell>, coords: seq<(nat, nat)>, extra: seq<(nat, nat)>)
    ensures SetAlive(width, cells, coords + extra)
         == match SetAlive(width, cells, coords)
            case Done(seeded) => SetAlive(width, seeded, extra)
            case Panic(reason) => Panic(reason)
    decreases |coords|
  {
    if |coords| == 0 {
      assert coords + extra == extra;
    } else {
      var all := coords + extra;
      assert all[0] == coords[0];
      assert all[1..] == coords[1..] + extra;
      var index := PairIndex(width, coords[0]);
      if index < |cells| {
        SetAliveAppend(width, cells[index := Alive], coords[1..], extra);
      }
    }
  }

  /** Listing a pair a second time changes nothing further. */
  lemma SetAliveDuplicate(width: nat, cells: seq<Cell>, coords: seq<(nat, nat)>, k: nat)
    requires k < |coords|
    ensures SetAlive(width, cells, coords + [coords[k]]) == SetAlive(width, cells, coords)
  {
    SetAliveAppend(width, cells, coords, [coords[k]]);
    var r := SetAlive(width, cells, coords);
    if r.Done? {
      var seeded := r.value;
      var index := PairIndex(width, coords[k]);
      assert index < |cells|;
      assert Listed(width, coords, index);
      assert seeded[index := Alive] == seeded;
      var tail: seq<(nat, nat)> := [coords[k]][1..];
      assert tail == [];
    }
  }

  /** Seeding the same list again leaves the buffer as it is. */
  lemma SetAliveIdempotent(width: nat, cells: seq<Cell>, coords: seq<(nat, nat)>)
    requires SetAlive(width, cells, coords).Done?
    ensures SetAlive(width, SetAlive(width, cells, coords).value, coords) == SetAlive(width, cells, coords)
  {
    var once := SetAlive(width, cells, coords).value;
    var twice := SetAlive(width, once, coords).value;
    assert twice == once;
  }
}
