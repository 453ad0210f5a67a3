/**
 * Small value types that the editor, the document and the rows share:
 * a cursor or search position and the direction of a search.
 * Rust's `usize` coordinates are unbounded naturals here.
 */
module Positions {
  /** `x` is a character offset inside row `y`; both are 0-based. */
  datatype Position = Position(x: nat, y: nat)

  datatype SearchDirection = Forward | Backward
}
