# NodeHack core in Dafny

A model of the three pieces of NodeHack (a Node.js client that drives NetHack
through its tty interface) that turn terminal output into game state.

- **The vt_tiledata decoder** (`tiledata-terminal.js`) is modelled in two layers:
  - `tiledata.dfy`, module `Tiledata`, is the pure layer. It holds the decoder's
    four fields (`currentWindow`, `currentGlyph`, `currentEffect`, `waiting`)
    as a value, the `TILE` step with its four sub-commands, per-character
    stamping of screen cells, and the projections of the screen buffer by
    window.
  - `tiledata_terminal.dfy`, module `TiledataTerminal`, is the imperative layer.
    Class `Terminal` keeps the same fields, a two-dimensional `array2` screen
    buffer and a cursor. Its methods update them in place and are proved
    against the pure layer. The `InstP` loop carries the invariant that what
    is still to be written, applied to the current screen, gives the same
    final screen as the whole string applied to the initial one.
- **The logical-window model** (`nhwindow.js`) is `nhwindow.dfy`, module
  `NhWindow`. It covers:
  - the registry of the seven tty windows and their geometry rules;
  - the `NethackWindow` snapshot;
  - dimension inference, offset normalisation and densification into a
    row-major grid;
  - lodash `chunk`;
  - the partial-redraw merge `applyUpdate`;
  - text rendering.

  Every `NethackWindow` operation is read-only, so the window is a datatype
  and its operations are functions.
- **The index helpers** (`helpers.js`) are `helpers.dfy`, module `Helpers`.
  `indexToCoords` uses `Math.floor` for the row and JavaScript's truncating
  `%` for the column. Both are written out, so the round trip holds for every
  non-negative index and every in-range coordinate pair on a non-negative
  row. `NegativeRowNoRoundTrip` shows that it fails above row 0.

Shared types:

- `cells.dfy` holds `WinCell`, the cell record both files exchange.
- `wrappers.dfy` holds `Option`, `Result` and `Outcome`.

Modelling conventions:

- JavaScript `null` and `undefined` are both `None`. The one exception is
  `+undefined`: a missing StartGlyph argument is stored as `NaN`, which is a
  number (`JsNumber.NaN`), not null.
- A `throw` is a `Failure`/`Fail` value carrying a `TileError` or
  `WindowError`. The failing step leaves the decoder state as it was.

The source differs from its own descriptions in a few places; the model follows
the code:

- The message window resolves to 20 rows with inferred width
  (nhwindow.js:41-43), although its description says one line.
- `handleStartGlyph` stores its arguments without checking that they are
  non-negative.
- `TILE` with an unknown command resets the emulator's last character, pending
  input and pending wrap before it fails. It fails because the handler lookup
  yields no function.

## Model

| member | source | states |
|---|---|---|
| `Helpers.JsRem` | helpers.js:4 | JavaScript `%` for a positive divisor: the result lies in `[0, b)` for a non-negative dividend and in `(-b, 0]` for a negative one |
| `Helpers.JsRemCongruent` | helpers.js:4 | the remainder differs from the dividend by a multiple of the divisor; with `JsRem`'s range clauses this fixes its value, e.g. -2 for `-2 % 3` |
| `Helpers.IndexToCoords` | helpers.js:2-5 | for a non-negative index, row is `index div colsize` (non-negative) and column is `index mod colsize` in `[0, colsize)` |
| `Helpers.CoordsOfIndexRoundTrip` | helpers.js:2-6 | `coordsToIndex(indexToCoords(i, n)) == i` for every `i >= 0`, `n > 0` |
| `Helpers.CoordsToIndex` | helpers.js:6 | for an in-range column, the row is the index's floor quotient and the column its remainder, on every row |
| `Helpers.IndexOfCoordsRoundTrip` | helpers.js:2-6 | `indexToCoords(coordsToIndex(r, c, n), n) == (r, c)` for `r >= 0`, `0 <= c < n` |
| `Helpers.NegativeRowNoRoundTrip` | helpers.js:2-6 | the round trip fails above row 0: (-1, 1) in a 3-column grid comes back as (-1, -2) |
| `Helpers.CoordsToIndexMonotone` | helpers.js:6 | with in-range columns, the flat index is strictly increasing in row-major order, in both directions |
| `Helpers.CoordsToIndexInjective` | helpers.js:6 | distinct in-range coordinates have distinct flat indices |
| `Helpers.IndexInGrid` | helpers.js:2-5 | an index below `rows * cols` names coordinates inside the grid |
| `Helpers.CoordsInGrid` | helpers.js:6 | coordinates inside the grid name an index in `[0, rows * cols)` |
| `Tiledata.StartGlyph` | tiledata-terminal.js:94-97 | glyph and effect both become numbers (a present argument's value, or NaN for a missing one), never null; window and waiting are kept |
| `Tiledata.EndGlyph` | tiledata-terminal.js:99-102 | glyph and effect become null; window and waiting are kept |
| `Tiledata.SelectWindow` | tiledata-terminal.js:104-117 | fails exactly for a missing id or one outside 0..6, with the matching error; otherwise the window becomes the id, except that 0 keeps it; glyph, effect and waiting are kept |
| `Tiledata.Wait` | tiledata-terminal.js:119-121 | waiting is set; window, glyph and effect are kept |
| `Tiledata.Tile` | tiledata-terminal.js:75-92 | an accepted sequence has check 1 and command 0..3; only SelectWindow moves the window (to its argument), only Wait touches waiting, and commands 2 and 3 keep glyph and effect |
| `Tiledata.TileRejectsBadCheck` | tiledata-terminal.js:75-78 | a sequence whose first parameter is missing or not 1 fails with "Unexpected vt_tiledata" |
| `Tiledata.TileAcceptedIff` | tiledata-terminal.js:75-117 | a sequence succeeds exactly when check is 1, the command is 0..3, and for SelectWindow the id is present and in 0..6 |
| `Tiledata.StartGlyphFrame` | tiledata-terminal.js:94-97 | command 0 sets glyph and effect to its arguments; window and waiting are unchanged |
| `Tiledata.StartGlyphMissingEffect` | tiledata-terminal.js:94-97 | StartGlyph(42) with no effect argument stores glyph 42 and effect NaN, not null |
| `Tiledata.EndGlyphFrame` | tiledata-terminal.js:99-102 | command 1 clears glyph and effect; window and waiting are unchanged |
| `Tiledata.SelectWindowFrame` | tiledata-terminal.js:104-117 | command 2 fails on a missing id or an id outside 0..6, keeps the window for id 0, sets it for 1..6, and never touches glyph, effect or waiting |
| `Tiledata.ReselectZeroKeepsWindow` | tiledata-terminal.js:113-116 | selecting window 3 and then window 0 leaves window 3 selected |
| `Tiledata.WaitFrame` | tiledata-terminal.js:119-121 | command 3 sets waiting and changes no other decoder field |
| `Tiledata.TilePreservesPairing` | tiledata-terminal.js:94-102 | glyph and effect are set together and cleared together by every accepted sequence, including a StartGlyph with missing arguments |
| `Tiledata.TileKeepsWindowInRange` | tiledata-terminal.js:104-117 | the selected window stays a registry id in 0..6 |
| `Tiledata.Stamp` | tiledata-terminal.js:45-49 | stamping keeps the cell's character and attributes, and whatever character is then written into it comes out tagged with the current window, glyph and effect |
| `Tiledata.WriteChar` | tiledata-terminal.js:44-51 | one character: the cell under the cursor ends up holding the character, the current attributes and the decoder's window, glyph and effect; the cursor advances; no other cell changes |
| `Tiledata.WriteString` | tiledata-terminal.js:43-52 | writing a string keeps the screen well-formed and the cursor on screen |
| `Tiledata.WriteStringCursor` | tiledata-terminal.js:43-52 | the cursor advances once per character |
| `Tiledata.WriteStringUntouched` | tiledata-terminal.js:43-52 | a cell that no character lands on is unchanged |
| `Tiledata.WriteStringLastWriteWins` | tiledata-terminal.js:43-52 | the cell where character `j` is the last to land holds that character, stamped with the current window, glyph and effect |
| `Tiledata.GlyphRunRoundTrip` | tiledata-terminal.js:43-102 | StartGlyph(42, 8), 'd', EndGlyph, 'x': the 'd' carries glyph 42 and effect 8, the 'x' none, and both carry the selected window; at the end the 'd' survives when the cursor moved on, and is overwritten by the 'x' when it did not |
| `Tiledata.Project` | tiledata-terminal.js:127-136 | the record for the cell at flat index `i` has `row`/`col` naming `i` (column in range) and the cell's text, glyph, effect, window and attributes |
| `Tiledata.WindowCellsFrom` | tiledata-terminal.js:123-139 | from flat index `k` on: exactly the cells tagged with the window, each projected with the coordinates of its flat index, in row-major order |
| `Tiledata.WindowCells` | tiledata-terminal.js:123-139 | over the whole buffer: exactly the cells tagged with the window, each with `row`/`col` from `indexToCoords`, in row-major order |
| `Tiledata.WindowCellsOnScreen` | tiledata-terminal.js:123-138 | every returned cell carries the requested window id and lies on the screen |
| `Tiledata.AnsiCellsFrom` | tiledata-terminal.js:141-150 | every ANSI cell from index `k` on has glyph, effect and window null |
| `Tiledata.AnsiCells` | tiledata-terminal.js:141-150 | every ANSI cell has glyph, effect and window null |
| `Tiledata.AnsiCellsAreWindowZero` | tiledata-terminal.js:123-150 | the ANSI cells are window 0's cells in the same order, with the same text and attributes |
| `TiledataTerminal.Terminal.constructor` | tiledata-terminal.js:21-28 | a fresh terminal has window 0, no glyph, no effect, not waiting, a blank screen and the cursor at the origin |
| `TiledataTerminal.Terminal.Cells` | tiledata-terminal.js:125 | the row-major flattening of the buffer has `rows * cols` cells |
| `TiledataTerminal.Terminal.CloneCurrentCell` | tiledata-terminal.js:64-68 | returns the buffer cell under the cursor |
| `TiledataTerminal.Terminal.SetCurrentCell` | tiledata-terminal.js:70-73 | replaces the cell under the cursor and no other cell |
| `TiledataTerminal.Terminal.EmulatorPut` | tiledata-terminal.js:50 | the emulator's write: character and attributes go into the cell under the cursor, whose tags stay, and the cursor advances; the emulator's last character, pending input and wrap flag may change |
| `TiledataTerminal.Terminal.InstP` | tiledata-terminal.js:39-52 | the new screen is `WriteString` of the old screen: every character's cell is stamped, then written, in order |
| `TiledataTerminal.Terminal.HandleStartGlyph` | tiledata-terminal.js:94-97 | the decoder state becomes `StartGlyph(old state, glyph, effect)` |
| `TiledataTerminal.Terminal.HandleEndGlyph` | tiledata-terminal.js:99-102 | the decoder state becomes `EndGlyph(old state)` |
| `TiledataTerminal.Terminal.HandleSelectWindow` | tiledata-terminal.js:104-117 | a refused id fails with its error and leaves the state unchanged; otherwise the state becomes `SelectWindow(old state, id)` |
| `TiledataTerminal.Terminal.HandleWait` | tiledata-terminal.js:119-121 | the decoder state becomes `Wait(old state)` |
| `TiledataTerminal.Terminal.Tile` | tiledata-terminal.js:75-92 | the decoder follows `Tiledata.Tile`, unchanged on failure; when check is not 1 the emulator fields are untouched, otherwise they are reset |
| `TiledataTerminal.Terminal.InstC` | tiledata-terminal.js:29-37 | only final byte `z` reaches `TILE`: then the decoder follows `Tiledata.Tile`, the emulator fields are reset exactly when check is 1, and cursor, attributes and buffer are untouched; any other CSI sequence is delegated and leaves the decoder unchanged |
| `TiledataTerminal.Terminal.InstE` | tiledata-terminal.js:54-61 | an ESC sequence is discarded exactly when its final byte is `>` or `=`, and then nothing changes; a delegated one may change the screen and the emulator fields; the decoder is unchanged either way |
| `TiledataTerminal.Terminal.GetWindowCells` | tiledata-terminal.js:123-139 | every buffer cell tagged with the window is returned, and each returned cell is the record of the buffer cell its coordinates name, which carries that id and lies on the screen; the result is in row-major order |
| `TiledataTerminal.Terminal.GetANSICells` | tiledata-terminal.js:141-150 | as many cells as window 0 has, with the same text and attributes, and glyph, effect and window null |
| `NhWindow.Resize` | nhwindow.js:24-103 | every window is left-aligned, only status has maximum bounds, menu and text infer their height and message its width |
| `NhWindow.FirstIndex` | nhwindow.js:144 | `Array.prototype.find`: the first element satisfying the predicate, or none when no element does |
| `NhWindow.GetCoreWindow` | nhwindow.js:143-149 | returns a registry entry with the given id, or fails when no entry has it |
| `NhWindow.GetCoreWindowByName` | nhwindow.js:151-157 | returns a registry entry with the given name, or fails when no entry has it |
| `NhWindow.RegistryWellFormed` | nhwindow.js:6-103 | seven entries in id order with ids 0..6 and distinct names |
| `NhWindow.GetCoreWindowExactly` | nhwindow.js:143-149 | lookup by id succeeds exactly for 0..6, with the entry of that id |
| `NhWindow.GetCoreWindowByNameExactly` | nhwindow.js:151-157 | lookup by name succeeds exactly for the seven names, with the entry of that name |
| `NhWindow.StatusGeometry` | nhwindow.js:44-55 | status: 2 rows, full width, offset (rows - 2, 0) |
| `NhWindow.MapGeometry` | nhwindow.js:56-67 | map: ROWNO x COLNO at offset (1, 0) |
| `NhWindow.MessageGeometry` | nhwindow.js:36-43 | message: 20 rows, width inferred, offset (0, 0) |
| `NhWindow.FullWidthGeometry` | nhwindow.js:68-90 | menu and text: full width, height inferred |
| `NhWindow.FullScreenGeometry` | nhwindow.js:24-102 | none and base: the whole terminal |
| `NhWindow.NewWindow` | nhwindow.js:106-121 | fails exactly for an unknown id; otherwise takes the entry's id, name and geometry, and the cells with text stripped and all else kept |
| `NhWindow.Max` | nhwindow.js:128 | `Math.max` of a non-empty list: an upper bound that is an element |
| `NhWindow.SanitizeDimensions` | nhwindow.js:123-141 | a non-zero resolved dimension stands; a zero one with no cells falls back to the base size (the inferred case is `InferredSizeFitsData`) |
| `NhWindow.InferredSizeFitsData` | nhwindow.js:127-135 | an inferred size is the least that holds every cell past the offset: all fit, and some cell is on the last row or column |
| `NhWindow.EmptyCell` | nhwindow.js:159-163 | an empty cell at the given coordinates: no text and no glyph, so a merge keeps the old cell there |
| `NhWindow.EmptyWindow` | nhwindow.js:165-177 | `rows * cols` cells, all empty |
| `NhWindow.EmptyWindowIsGrid` | nhwindow.js:165-177 | the empty window is a dense row-major grid: cell `i` sits at `indexToCoords(i, cols)` |
| `NhWindow.NormalizedData` | nhwindow.js:179-190 | same length and order; each cell moved by minus the offset, so adding it back gives the input cell |
| `NhWindow.CellAt` | nhwindow.js:200-205 | the densified cell at (row, col) has those coordinates and is an update or the empty cell |
| `NhWindow.NormalizedDataWindow` | nhwindow.js:192-207 | `cols * rows` cells, each an update or an empty cell |
| `NhWindow.NormalizedDataWindowIsGrid` | nhwindow.js:192-207 | the densified window is a dense row-major grid of the sanitised size |
| `NhWindow.DenseGridCoversEveryCoordinate` | nhwindow.js:192-207 | in a dense grid every in-range coordinate occurs, at the index its coordinates name |
| `NhWindow.NormalizedDataWindowAt` | nhwindow.js:199-206 | each grid cell is the first update with its coordinates, or the empty cell when no update has them |
| `NhWindow.NormalizedDataWindowKeepsUpdate` | nhwindow.js:199-206 | an in-grid update that is the first at its coordinates appears at the index they name |
| `NhWindow.Chunk` | nhwindow.js:213 | lodash `chunk`: the pieces concatenate back to the input, every piece is non-empty and at most `n` long, and all but the last are exactly `n` |
| `NhWindow.ChunkedWindow` | nhwindow.js:209-214 | the rows concatenate back to the grid, each at most the sanitised width |
| `NhWindow.ChunkedWindowRows` | nhwindow.js:209-214 | a densified window cut into rows gives `rows` rows, with cell `c` of row `r` at (r, c) |
| `NhWindow.Merge` | nhwindow.js:226-231 | zipWith with the merge rule: index `i` holds the update cell when its text is non-empty, else the old cell |
| `NhWindow.ApplyUpdate` | nhwindow.js:216-233 | fails exactly on a length mismatch, with both lengths; otherwise same length, update cells with text win, empty ones keep the old cell |
| `NhWindow.ApplyUpdateAllEmpty` | nhwindow.js:226-231 | an update with no text anywhere returns the old data |
| `NhWindow.ApplyUpdateAllSet` | nhwindow.js:226-231 | an update with text everywhere returns the update |
| `NhWindow.MergeIdempotent` | nhwindow.js:226-231 | merging the same update twice equals merging it once |
| `NhWindow.MergeKeepsGrid` | nhwindow.js:216-233 | merging two dense grids of one size gives a dense grid of that size |
| `NhWindow.ApplyUpdateExample` | nhwindow.js:216-233 | a 3 x 3 map of '.' updated with '@' at index 4 shows '.' everywhere else |
| `NhWindow.ApplyUpdateMismatchExample` | nhwindow.js:222-225 | nine cells cannot be merged over twelve: the error names 9 and 12 |
| `NhWindow.Render` | nhwindow.js:238 | each cell yields its text or the placeholder's first character: at least one character per cell with a placeholder, at most one when no text is longer; with the empty placeholder, empty cells vanish and the result is the texts joined; with no empty cell, it is the texts joined whatever the placeholder |
| `NhWindow.ToString` | nhwindow.js:235-240 | the flat text has no line break unless a cell text or the placeholder brings one; with the default empty placeholder it is the cell texts joined, empty cells dropped |
| `NhWindow.RenderAppend` | nhwindow.js:238 | rendering the concatenation of two cell lists is the concatenation of their renderings |
| `NhWindow.RenderOneCharPerCell` | nhwindow.js:235-240 | with one-character cells and a placeholder, `toString` has one character per cell: the cell's own, or the placeholder's |
| `NhWindow.JoinRowsFlat` | nhwindow.js:245 | rows joined with newlines, once the newlines are removed, are the rendering of the concatenated rows |
| `NhWindow.ToChunkedString` | nhwindow.js:243-247 | with a width of at least one and no line breaks in the cells, removing the line breaks gives the flat rendering of the grid |
| `NhWindow.ChunkedStringMatchesToString` | nhwindow.js:235-247 | for a normalised window whose sanitised width is at least 1 and whose cells and placeholder contain no line break, `toChunkedString` and `toString` differ only by line breaks |

## Left out

- The terminal emulator (node-ansiterminal) is not modelled:
  - its own CSI and ESC handlers (`old_inst_c`, `old_inst_e`) are only recorded as a delegation. `InstC` and `InstE` let a delegated sequence change the cursor, the attributes, the buffer and the emulator fields, and promise nothing about them, only that the decoder is unchanged;
  - its cursor rule after a character (wrapping, pending wrap, scrolling) is the constructor parameter `advance`, required only to keep the cursor on screen;
  - the scrollback length and the unused `collected` argument are dropped.
- `Tiledata.WriteChar` (and `TiledataTerminal.Terminal.EmulatorPut`) assume that the emulator writes each character into the cell under the cursor, the one just stamped. With a pending wrap (the `wrap` flag that `TILE` resets at tiledata-terminal.js:82) the emulator may first move to the next line, so the character lands in a cell that was not stamped. That case is not modelled, and neither are the new values of the emulator's `lastChar`, `remC` and `wrap` after a write: `EmulatorPut` and `InstP` may change them and promise nothing about them.
- `getJSONAttributes` and `getAttributes` are both the same opaque `Attributes` value.
- `stripAnsi` (the strip-ansi library) is a function parameter of `NewWindow`.
- Densification (`EmptyWindow`, `NormalizedDataWindow`, `ChunkedWindow`, `ToChunkedString`) is modelled only for non-negative sanitised sizes (`Densifiable`). A negative size only arises from cells above or left of the window's offset, or from a negative terminal size.
- `NhWindow.ChunkedWindowRows` is stated for densified windows only. A window marked normalised is chunked as it is, so its rows are only as regular as its data.
- JavaScript strings are UTF-16; the model's strings are sequences of characters. `[...str]` in `inst_p` splits by code point, and the model writes one `char` at a time.
- A thrown error ends the JavaScript call. In the model it is a `Failure` or `Fail` value, and the state is the one before the failing step. Emulator fields already reset by `TILE` stay reset.
- These parts of the repository are not part of this model:
  - session.js: process spawning and terminal I/O;
  - client.js: asynchronous orchestration with a fixed delay;
  - nethacksession.js: login scripting, event plumbing, status-line parsing, and `updateMap`, a thin caller of `applyUpdate`;
  - character.js: a plain record;
  - nethack/generate_tiles.js: file I/O;
  - the example scripts.
