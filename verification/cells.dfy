/** The two cell states of the automaton and the panics the engine can raise. */
module Cells {

  /** A cell of the grid; `#[repr(u8)]` with Dead = 0 and Alive = 1. */
  datatype Cell = Dead | Alive {

    /** The numeric discriminant; neighbour counting sums these directly. */
    function Value(): (v: nat)
      ensures v <= 1
      ensures v == 1 <==> this == Alive
    {
      match this
      case Dead => 0
      case Alive => 1
    }

    /** `Cell::toggle`: Alive becomes Dead and Dead becomes Alive. */
    function Toggle(): (r: Cell)
      ensures r != this
      ensures r.Value() + this.Value() == 1
    {
      match this
      case Alive => Dead
      case Dead => Alive
    }
  }

  /** Toggling twice gives the original state back. */
  lemma ToggleInvolution(c: Cell)
    ensures c.Toggle().Toggle() == c
  {
  }

  /** Why a call aborted: a Rust panic, which ends the call without a result. */
  datatype PanicReason =
    | IndexOutOfBounds(index: nat, len: nat)   // `Vec` indexing past its length
    | ZeroChunkSize                            // `slice::chunks(0)`

  /** The outcome of an engine call that can panic. */
  datatype Outcome<T> = Done(value: T) | Panic(reason: PanicReason)
}
