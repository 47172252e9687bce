/**
 * The buffer length as the source computes it: `width * height` in `u32`, which a release build
 * wraps modulo 2^32 (a build with overflow checks panics instead).
 */
module Overflow {
  import opened Cells
  import opened Buffer
  import opened Torus
  import Engine

  const U32Modulus: nat := 0x1_0000_0000

  /** Unsigned 32-bit multiplication with wrap-around. */
  function MulU32(a: nat, b: nat): (r: nat)
    ensures r < U32Modulus
  {
    (a * b) % U32Modulus
  }

  /** `resize` (and `reset`) as written: the buffer gets `(width * height) mod 2^32` Dead cells. */
  function ResizeAsWritten(u: Engine.Universe, width: nat, height: nat): (r: Engine.Universe)
    ensures r.width == width && r.height == height && r.speed == u.speed
    ensures |r.cells| < U32Modulus
    ensures |r.cells| == (width * height) % U32Modulus
    ensures forall i :: 0 <= i < |r.cells| ==> r.cells[i] == Dead
  {
    u.(width := width, height := height, cells := DeadBuffer(MulU32(width, height)))
  }

  /** While width * height fits in 32 bits, the code as written is the model's `Resize`. */
  lemma ResizeAsWrittenAgrees(u: Engine.Universe, width: nat, height: nat)
    requires width * height < U32Modulus
    ensures ResizeAsWritten(u, width, height) == Engine.Resize(u, width, height)
  {
    TimesIsProduct(height, width);
  }

  /**
   * `resize(65536, 65536)` leaves an empty buffer behind a 65536 x 65536 universe, so the length
   * invariant fails and the first read of the next `tick`, cell (0, 0) at index 0, is past the end.
   */
  lemma ResizeAsWrittenLosesCells(u: Engine.Universe)
    ensures var r := ResizeAsWritten(u, 65536, 65536);
      |r.cells| == 0 && r.width * r.height == U32Modulus && !Engine.Valid(r)
  {
    TimesIsProduct(65536, 65536);
  }
}
