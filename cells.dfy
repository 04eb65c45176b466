/** The cell records that flow from the tile-data terminal into the window
    model. */
module Cells {
  import opened Wrappers

  /** The emulator's display attributes of a cell (bold, colours, ...), carried
      through unchanged; their encoding belongs to the emulator. */
  datatype Attributes = Attributes(bits: int)

  /** A JavaScript number as the decoder stores it: unary `+` of a present
      integer parameter is that integer, and `+undefined` is `NaN`, which is a
      number and not null. */
  datatype JsNumber = Num(n: int) | NaN

  /** One cell of a logical window: the record `getWindowCells` builds from a
      screen cell, and the placeholder `createEmptyCell` builds.  `sym` is the
      cell's text (the empty string means "no new data"); `glyph`, `effect`,
      `window` and `attributes` are `None` where the source leaves them null or
      undefined. */
  datatype WinCell = WinCell(
    row: int,
    col: int,
    sym: string,
    glyph: Option<JsNumber>,
    effect: Option<JsNumber>,
    window: Option<int>,
    attributes: Option<Attributes>)
}
