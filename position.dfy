/** Coordinates and search direction shared by the document and the editor. */
module Positions {

  /** A zero-based column `x` and row `y` (`Position` in src/editor.rs). */
  datatype Position = Position(x: nat, y: nat)

  /** `SearchDirection`: which way `Document::find` walks the rows. */
  datatype SearchDirection = Forward | Backward
}
