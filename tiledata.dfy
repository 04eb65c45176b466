/** The vt_tiledata side channel (NetHack's terminal tile-metadata extension):
    the decoder's state as a value, the four sub-commands of the reserved CSI
    sequence, the per-character stamping of screen cells, and the read-only
    projections of the screen buffer by window.  The class in
    tiledata_terminal.dfy performs these steps in place and is proved against
    the functions here. */
module Tiledata {
  import opened Wrappers
  import opened Helpers
  import opened Cells

  /** A screen-buffer cell: the emulator's character `c` and attributes, plus
      the three tags the decoder adds.  A cell never written through the
      decoder has no tags (`tilesWindow` is undefined in the source). */
  datatype TermCell = TermCell(
    c: string,
    attrs: Attributes,
    glyph: Option<JsNumber>,
    effect: Option<JsNumber>,
    tilesWindow: Option<int>)

  /** The cell the emulator fills a fresh screen with. */
  const Blank := TermCell("", Attributes(0), None, None, None)

  /** The decoder's four fields: `currentWindow`, `currentGlyph`,
      `currentEffect` and `waiting`. */
  datatype Decoder = Decoder(window: int, glyph: Option<JsNumber>, effect: Option<JsNumber>, waiting: bool)

  /** The state a new terminal starts in. */
  const FreshDecoder := Decoder(0, None, None, false)

  /** Window ids the protocol may select: NHW_NONE (0) to NHW_BASE (6). */
  const MaxWindowId := 6

  /** The errors `TILE` and `handleSelectWindow` throw. */
  datatype TileError =
    | UnexpectedTiledata                 // first parameter is not 1
    | NoSuchHandler(command: Option<int>) // `this[handlers[command]]` is not a function
    | WindowIdNotNumber                  // `typeof windowId !== 'number'`
    | WindowIdOutOfRange(id: int)        // id outside 0..6

  /** Array destructuring `[check, command, arg1, arg2] = params`: a missing
      position is `undefined`. */
  function Param(params: seq<int>, i: nat): (p: Option<int>)
    ensures p.Some? <==> i < |params|
    ensures p.Some? ==> p.value == params[i]
  {
    if i < |params| then Some(params[i]) else None
  }

  // ---------------------------------------------------------------------------
  // The four sub-commands

  /** Unary `+` on a destructured parameter: a present one is its integer, a
      missing one (`undefined`) is `NaN`. */
  function ToNumber(arg: Option<int>): JsNumber
  {
    match arg
    case Some(n) => Num(n)
    case None => NaN
  }

  /** Command 0, `handleStartGlyph(glyph, effect)`: both fields become
      numbers, so neither is null afterwards, even for a missing argument;
      window and waiting are kept. */
  function StartGlyph(d: Decoder, glyph: Option<int>, effect: Option<int>): (r: Decoder)
    ensures r.glyph.Some? && r.effect.Some?
    ensures r.glyph.value.Num? <==> glyph.Some?
    ensures r.effect.value.Num? <==> effect.Some?
    ensures glyph.Some? ==> r.glyph.value.n == glyph.value
    ensures effect.Some? ==> r.effect.value.n == effect.value
    ensures r.window == d.window && r.waiting == d.waiting
  {
    d.(glyph := Some(ToNumber(glyph)), effect := Some(ToNumber(effect)))
  }

  /** Command 1, `handleEndGlyph()`: glyph and effect become null; window and
      waiting are kept. */
  function EndGlyph(d: Decoder): (r: Decoder)
    ensures r.glyph.None? && r.effect.None?
    ensures r.window == d.window && r.waiting == d.waiting
  {
    d.(glyph := None, effect := None)
  }

  /** Command 2, `handleSelectWindow(windowId)`: a missing id is not a number;
      an id outside 0..6 is refused; id 0 is ignored. */
  function SelectWindow(d: Decoder, windowId: Option<int>): (r: Result<Decoder, TileError>)
    ensures r.Failure? <==> windowId.None? || windowId.value < 0 || windowId.value > MaxWindowId
    ensures windowId.None? ==> r == Failure(WindowIdNotNumber)
    ensures windowId.Some? && r.Failure? ==> r.error == WindowIdOutOfRange(windowId.value)
    ensures r.Success? ==> r.value.window == (if windowId.value == 0 then d.window else windowId.value)
    ensures r.Success? ==> r.value.glyph == d.glyph && r.value.effect == d.effect && r.value.waiting == d.waiting
  {
    match windowId
    case None => Failure(WindowIdNotNumber)
    case Some(id) =>
      if id < 0 || id > MaxWindowId then Failure(WindowIdOutOfRange(id))
      else if id != 0 then Success(d.(window := id))
      else Success(d)
  }

  /** Command 3, `handleWait()`: only the waiting flag changes, and it is set. */
  function Wait(d: Decoder): (r: Decoder)
    ensures r.waiting
    ensures r.window == d.window && r.glyph == d.glyph && r.effect == d.effect
  {
    d.(waiting := true)
  }

  /** `TILE([check, command, arg1, arg2])`: the effect of one reserved CSI
      sequence on the decoder state.  Only SelectWindow moves the window, only
      Wait touches the waiting flag, and only StartGlyph and EndGlyph touch
      glyph and effect. */
  function Tile(d: Decoder, params: seq<int>): (r: Result<Decoder, TileError>)
    ensures r.Success? ==> |params| >= 2 && params[0] == 1 && 0 <= params[1] <= 3
    ensures r.Success? ==> r.value.window == d.window || (params[1] == 2 && |params| >= 3 && r.value.window == params[2])
    ensures r.Success? ==> r.value.waiting == (d.waiting || params[1] == 3)
    ensures r.Success? && params[1] >= 2 ==> r.value.glyph == d.glyph && r.value.effect == d.effect
  {
    if Param(params, 0) != Some(1) then Failure(UnexpectedTiledata)
    else
      match Param(params, 1)
      case Some(0) => Success(StartGlyph(d, Param(params, 2), Param(params, 3)))
      case Some(1) => Success(EndGlyph(d))
      case Some(2) => SelectWindow(d, Param(params, 2))
      case Some(3) => Success(Wait(d))
      case command => Failure(NoSuchHandler(command))
  }

  // ---------------------------------------------------------------------------
  // Properties of the decoder

  /** A sequence whose first parameter is not 1 is refused, whatever follows. */
  lemma TileRejectsBadCheck(d: Decoder, params: seq<int>)
    requires |params| == 0 || params[0] != 1
    ensures Tile(d, params) == Failure(UnexpectedTiledata)
  {
  }

  /** A sequence is accepted exactly when its check is 1, its command is one of
      the four handlers and, for SelectWindow, the id is present and in 0..6. */
  lemma TileAcceptedIff(d: Decoder, params: seq<int>)
    ensures Tile(d, params).Success? <==>
      && |params| >= 2 && params[0] == 1 && 0 <= params[1] <= 3
      && (params[1] == 2 ==> |params| >= 3 && 0 <= params[2] <= MaxWindowId)
  {
  }

  /** StartGlyph sets glyph and effect from the arguments; window and waiting
      are unchanged. */
  lemma StartGlyphFrame(d: Decoder, glyph: int, effect: int)
    ensures Tile(d, [1, 0, glyph, effect]) == Success(Decoder(d.window, Some(Num(glyph)), Some(Num(effect)), d.waiting))
  {
  }

  /** StartGlyph with its effect argument missing stores `NaN` as the effect:
      the effect is not null. */
  lemma StartGlyphMissingEffect(d: Decoder)
    ensures Tile(d, [1, 0, 42]) == Success(d.(glyph := Some(Num(42)), effect := Some(NaN)))
  {
  }

  /** EndGlyph clears glyph and effect; window and waiting are unchanged. */
  lemma EndGlyphFrame(d: Decoder, params: seq<int>)
    requires |params| >= 2 && params[0] == 1 && params[1] == 1
    ensures Tile(d, params) == Success(Decoder(d.window, None, None, d.waiting))
  {
  }

  /** SelectWindow: a refused id leaves nothing changed (the step fails); id 0
      keeps the current window; ids 1..6 replace it; glyph, effect and waiting
      are never touched. */
  lemma SelectWindowFrame(d: Decoder, params: seq<int>)
    requires |params| >= 2 && params[0] == 1 && params[1] == 2
    ensures |params| < 3 ==> Tile(d, params) == Failure(WindowIdNotNumber)
    ensures |params| >= 3 && (params[2] < 0 || params[2] > 6) ==>
              Tile(d, params) == Failure(WindowIdOutOfRange(params[2]))
    ensures |params| >= 3 && params[2] == 0 ==> Tile(d, params) == Success(d)
    ensures |params| >= 3 && 1 <= params[2] <= 6 ==>
              Tile(d, params) == Success(Decoder(params[2], d.glyph, d.effect, d.waiting))
  {
  }

  /** Selecting window 3 and then window 0 leaves window 3 selected. */
  lemma ReselectZeroKeepsWindow(d: Decoder)
    ensures Tile(d, [1, 2, 3]).Success?
    ensures Tile(Tile(d, [1, 2, 3]).value, [1, 2, 0]) == Success(d.(window := 3))
  {
  }

  /** Wait sets the waiting flag and changes nothing else. */
  lemma WaitFrame(d: Decoder, params: seq<int>)
    requires |params| >= 2 && params[0] == 1 && params[1] == 3
    ensures Tile(d, params) == Success(Decoder(d.window, d.glyph, d.effect, true))
  {
  }

  /** Glyph and effect are set together and cleared together: a decoder in
      which both are null or both are set stays so under every accepted
      sequence, including a StartGlyph with missing arguments. */
  ghost predicate GlyphEffectPaired(d: Decoder)
  {
    d.glyph.None? <==> d.effect.None?
  }

  lemma TilePreservesPairing(d: Decoder, params: seq<int>)
    requires GlyphEffectPaired(d)
    requires Tile(d, params).Success?
    ensures GlyphEffectPaired(Tile(d, params).value)
  {
  }

  /** The selected window is always one of the registry's ids 0..6. */
  lemma TileKeepsWindowInRange(d: Decoder, params: seq<int>)
    requires 0 <= d.window <= MaxWindowId
    requires Tile(d, params).Success?
    ensures 0 <= Tile(d, params).value.window <= MaxWindowId
  {
  }

  // ---------------------------------------------------------------------------
  // Writing characters: `inst_p`

  /** The cursor is on the `rows` x `cols` screen. */
  predicate OnScreen(p: Coords, rows: int, cols: int)
  {
    0 <= p.row < rows && 0 <= p.col < cols
  }

  /** The emulator's cursor rule after a character is written keeps the cursor
      on the screen. */
  ghost predicate KeepsOnScreen(advance: Coords -> Coords, rows: int, cols: int)
  {
    forall p {:trigger advance(p)} :: OnScreen(p, rows, cols) ==> OnScreen(advance(p), rows, cols)
  }

  /** The flat index of a screen position. */
  function CellIndex(p: Coords, cols: int): int
  {
    CoordsToIndex(p.row, p.col, cols)
  }

  /** A position on the screen has a flat index inside the buffer. */
  function ScreenIndex(p: Coords, rows: int, cols: int): (k: nat)
    requires OnScreen(p, rows, cols)
    ensures k == CellIndex(p, cols) && k < rows * cols
  {
    CoordsInGrid(p.row, p.col, rows, cols);
    CellIndex(p, cols)
  }

  /** tiledata-terminal.js lines 45-49: the cell at the cursor is cloned and
      given the decoder's current window, glyph and effect.  Its character and
      attributes are kept, and whatever the emulator then writes into it comes
      out fully tagged, whatever the cell held before. */
  function Stamp(cell: TermCell, d: Decoder): (r: TermCell)
    ensures r.c == cell.c && r.attrs == cell.attrs
    ensures forall ch, attrs :: Put(r, ch, attrs) == Written(ch, d, attrs)
  {
    cell.(tilesWindow := Some(d.window), glyph := d.glyph, effect := d.effect)
  }

  /** The emulator's own write of one character (`old_inst_p(char)`): the cell
      takes the character and the current text attributes. */
  function Put(cell: TermCell, ch: char, attrs: Attributes): TermCell
  {
    cell.(c := [ch], attrs := attrs)
  }

  /** The cell a written character leaves behind. */
  function Written(ch: char, d: Decoder, attrs: Attributes): TermCell
  {
    TermCell([ch], attrs, d.glyph, d.effect, Some(d.window))
  }

  /** The screen: its cells in row-major order and the cursor. */
  datatype Screen = Screen(cells: seq<TermCell>, cursor: Coords)

  ghost predicate ScreenOk(scr: Screen, rows: int, cols: int)
  {
    rows > 0 && cols > 0 && |scr.cells| == rows * cols && OnScreen(scr.cursor, rows, cols)
  }

  /** One character of `inst_p`: stamp the cell at the cursor, let the
      emulator write the character there, advance the cursor. */
  function WriteChar(scr: Screen, rows: int, cols: int, d: Decoder, attrs: Attributes,
                     advance: Coords -> Coords, ch: char): (r: Screen)
    requires ScreenOk(scr, rows, cols) && KeepsOnScreen(advance, rows, cols)
    ensures ScreenOk(r, rows, cols)
    ensures r.cursor == advance(scr.cursor)
    ensures r.cells[ScreenIndex(scr.cursor, rows, cols)] == Written(ch, d, attrs)
    ensures forall k :: 0 <= k < |scr.cells| && k != CellIndex(scr.cursor, cols) ==> r.cells[k] == scr.cells[k]
  {
    var k := ScreenIndex(scr.cursor, rows, cols);
    Screen(scr.cells[k := Put(Stamp(scr.cells[k], d), ch, attrs)], advance(scr.cursor))
  }

  /** `inst_p(str)`: the characters of `s`, one after the other. */
  function WriteString(scr: Screen, rows: int, cols: int, d: Decoder, attrs: Attributes,
                       advance: Coords -> Coords, s: string): (r: Screen)
    requires ScreenOk(scr, rows, cols) && KeepsOnScreen(advance, rows, cols)
    ensures ScreenOk(r, rows, cols)
    decreases |s|
  {
    if s == [] then scr
    else WriteString(WriteChar(scr, rows, cols, d, attrs, advance, s[0]), rows, cols, d, attrs, advance, s[1..])
  }

  /** The cursor after `n` characters. */
  function Advanced(advance: Coords -> Coords, start: Coords, n: nat, rows: int, cols: int): (p: Coords)
    requires OnScreen(start, rows, cols) && KeepsOnScreen(advance, rows, cols)
    ensures OnScreen(p, rows, cols)
    decreases n
  {
    if n == 0 then start else Advanced(advance, advance(start), n - 1, rows, cols)
  }

  /** Writing a string advances the cursor once per character. */
  lemma {:induction false} WriteStringCursor(scr: Screen, rows: int, cols: int, d: Decoder,
                                             attrs: Attributes, advance: Coords -> Coords, s: string)
    requires ScreenOk(scr, rows, cols) && KeepsOnScreen(advance, rows, cols)
    ensures WriteString(scr, rows, cols, d, attrs, advance, s).cursor == Advanced(advance, scr.cursor, |s|, rows, cols)
    decreases |s|
  {
    if s != [] {
      WriteStringCursor(WriteChar(scr, rows, cols, d, attrs, advance, s[0]), rows, cols, d, attrs, advance, s[1..]);
    }
  }

  /** Writing a string leaves every cell no character lands on unchanged. */
  lemma {:induction false} WriteStringUntouched(scr: Screen, rows: int, cols: int, d: Decoder,
                                                attrs: Attributes, advance: Coords -> Coords, s: string, k: int)
    requires ScreenOk(scr, rows, cols) && KeepsOnScreen(advance, rows, cols)
    requires 0 <= k < |scr.cells|
    requires forall j :: 0 <= j < |s| ==> CellIndex(Advanced(advance, scr.cursor, j, rows, cols), cols) != k
    ensures WriteString(scr, rows, cols, d, attrs, advance, s).cells[k] == scr.cells[k]
    decreases |s|
  {
    if s != [] {
      var next := WriteChar(scr, rows, cols, d, attrs, advance, s[0]);
      assert CellIndex(Advanced(advance, scr.cursor, 0, rows, cols), cols) != k;
      forall j | 0 <= j < |s[1..]|
        ensures CellIndex(Advanced(advance, next.cursor, j, rows, cols), cols) != k
      {
        assert Advanced(advance, scr.cursor, j + 1, rows, cols) == Advanced(advance, next.cursor, j, rows, cols);
      }
      WriteStringUntouched(next, rows, cols, d, attrs, advance, s[1..], k);
    }
  }

  /** Writing a string: the cell that character `j` is the last to land on
      holds that character with the decoder's current window, glyph and
      effect (later writes to a cell win). */
  lemma {:induction false} WriteStringLastWriteWins(scr: Screen, rows: int, cols: int, d: Decoder,
                                                    attrs: Attributes, advance: Coords -> Coords, s: string, j: int)
    requires ScreenOk(scr, rows, cols) && KeepsOnScreen(advance, rows, cols)
    requires 0 <= j < |s|
    requires forall j' :: j < j' < |s| ==>
               CellIndex(Advanced(advance, scr.cursor, j', rows, cols), cols)
                 != CellIndex(Advanced(advance, scr.cursor, j, rows, cols), cols)
    ensures WriteString(scr, rows, cols, d, attrs, advance, s).cells[ScreenIndex(Advanced(advance, scr.cursor, j, rows, cols), rows, cols)]
              == Written(s[j], d, attrs)
    decreases |s|
  {
    var next := WriteChar(scr, rows, cols, d, attrs, advance, s[0]);
    var target := ScreenIndex(Advanced(advance, scr.cursor, j, rows, cols), rows, cols);
    if j == 0 {
      forall j' | 0 <= j' < |s[1..]|
        ensures CellIndex(Advanced(advance, next.cursor, j', rows, cols), cols) != target
      {
        assert Advanced(advance, scr.cursor, j' + 1, rows, cols) == Advanced(advance, next.cursor, j', rows, cols);
      }
      WriteStringUntouched(next, rows, cols, d, attrs, advance, s[1..], target);
    } else {
      assert Advanced(advance, scr.cursor, j, rows, cols) == Advanced(advance, next.cursor, j - 1, rows, cols);
      forall j' | j - 1 < j' < |s[1..]|
        ensures CellIndex(Advanced(advance, next.cursor, j', rows, cols), cols) != target
      {
        assert Advanced(advance, scr.cursor, j' + 1, rows, cols) == Advanced(advance, next.cursor, j', rows, cols);
      }
      WriteStringLastWriteWins(next, rows, cols, d, attrs, advance, s[1..], j - 1);
      assert s[1..][j - 1] == s[j];
    }
  }

  /** The protocol at work: StartGlyph(42, 8), the character 'd', EndGlyph(),
      the character 'x'.  The 'd' carries glyph 42 and effect 8, the 'x' no
      glyph and no effect, and both the window that was selected before.  At
      the end the 'd' is still on screen when the cursor moved on after it,
      and has been overwritten by the 'x' when the cursor stayed put. */
  lemma GlyphRunRoundTrip(d: Decoder, scr: Screen, rows: int, cols: int, attrs: Attributes, advance: Coords -> Coords)
    requires ScreenOk(scr, rows, cols) && KeepsOnScreen(advance, rows, cols)
    ensures Tile(d, [1, 0, 42, 8]).Success?
    ensures var d1 := Tile(d, [1, 0, 42, 8]).value;
            var s1 := WriteString(scr, rows, cols, d1, attrs, advance, "d");
            && s1.cells[ScreenIndex(scr.cursor, rows, cols)] == TermCell("d", attrs, Some(Num(42)), Some(Num(8)), Some(d.window))
            && Tile(d1, [1, 1]).Success?
            && var d2 := Tile(d1, [1, 1]).value;
               var s2 := WriteString(s1, rows, cols, d2, attrs, advance, "x");
               && s2.cells[ScreenIndex(s1.cursor, rows, cols)] == TermCell("x", attrs, None, None, Some(d.window))
               && (CellIndex(advance(scr.cursor), cols) != CellIndex(scr.cursor, cols) ==>
                     s2.cells[ScreenIndex(scr.cursor, rows, cols)] == TermCell("d", attrs, Some(Num(42)), Some(Num(8)), Some(d.window)))
               && (CellIndex(advance(scr.cursor), cols) == CellIndex(scr.cursor, cols) ==>
                     s2.cells[ScreenIndex(scr.cursor, rows, cols)] == TermCell("x", attrs, None, None, Some(d.window)))
  {
    var d1 := Tile(d, [1, 0, 42, 8]).value;
    var s1 := WriteString(scr, rows, cols, d1, attrs, advance, "d");
    assert s1 == WriteChar(scr, rows, cols, d1, attrs, advance, 'd');
    var d2 := Tile(d1, [1, 1]).value;
    var s2 := WriteString(s1, rows, cols, d2, attrs, advance, "x");
    assert s2 == WriteChar(s1, rows, cols, d2, attrs, advance, 'x');
  }

  // ---------------------------------------------------------------------------
  // Projections of the screen buffer: `getWindowCells`, `getANSICells`

  /** The record `getWindowCells` builds for the buffer cell at flat `index`. */
  function Project(cell: TermCell, index: int, cols: int): (w: WinCell)
    requires cols > 0
    ensures index >= 0 ==> 0 <= w.row && 0 <= w.col < cols && CoordsToIndex(w.row, w.col, cols) == index
    ensures w.sym == cell.c && w.glyph == cell.glyph && w.effect == cell.effect
    ensures w.window == cell.tilesWindow && w.attributes == Some(cell.attrs)
  {
    var p := IndexToCoords(index, cols);
    var w := WinCell(p.row, p.col, cell.c, cell.glyph, cell.effect, cell.tilesWindow, Some(cell.attrs));
    if index >= 0 then CoordsOfIndexRoundTrip(index, cols); w else w
  }

  /** The cells from flat index `k` on that belong to window `id`, projected.
      Every result is the projection of a cell of window `id` at the index its
      coordinates name, every such cell is in the result, and the result is in
      row-major order. */
  function WindowCellsFrom(cells: seq<TermCell>, cols: int, id: int, k: nat): (r: seq<WinCell>)
    requires cols > 0
    ensures forall w :: w in r ==>
              && k <= CoordsToIndex(w.row, w.col, cols) < |cells|
              && cells[CoordsToIndex(w.row, w.col, cols)].tilesWindow == Some(id)
              && w == Project(cells[CoordsToIndex(w.row, w.col, cols)], CoordsToIndex(w.row, w.col, cols), cols)
    ensures forall i :: k <= i < |cells| && cells[i].tilesWindow == Some(id) ==> Project(cells[i], i, cols) in r
    ensures forall a, b :: 0 <= a < b < |r| ==> CoordsToIndex(r[a].row, r[a].col, cols) < CoordsToIndex(r[b].row, r[b].col, cols)
    decreases |cells| - k
  {
    if k >= |cells| then []
    else
      var rest := WindowCellsFrom(cells, cols, id, k + 1);
      if cells[k].tilesWindow == Some(id) then
        CoordsOfIndexRoundTrip(k, cols);
        [Project(cells[k], k, cols)] + rest
      else rest
  }

  /** `getWindowCells(windowId)` over the row-major buffer. */
  function WindowCells(cells: seq<TermCell>, cols: int, id: int): (r: seq<WinCell>)
    requires cols > 0
    ensures forall w :: w in r ==>
              && 0 <= CoordsToIndex(w.row, w.col, cols) < |cells|
              && cells[CoordsToIndex(w.row, w.col, cols)].tilesWindow == Some(id)
              && w == Project(cells[CoordsToIndex(w.row, w.col, cols)], CoordsToIndex(w.row, w.col, cols), cols)
    ensures forall i :: 0 <= i < |cells| && cells[i].tilesWindow == Some(id) ==> Project(cells[i], i, cols) in r
    ensures forall a, b :: 0 <= a < b < |r| ==> CoordsToIndex(r[a].row, r[a].col, cols) < CoordsToIndex(r[b].row, r[b].col, cols)
  {
    WindowCellsFrom(cells, cols, id, 0)
  }

  /** Every cell of a window lies on the screen it was read from and carries
      that window's id. */
  lemma WindowCellsOnScreen(cells: seq<TermCell>, rows: int, cols: int, id: int)
    requires cols > 0 && |cells| == rows * cols
    ensures forall w :: w in WindowCells(cells, cols, id) ==>
              w.window == Some(id) && 0 <= w.row < rows && 0 <= w.col < cols
  {
    forall w | w in WindowCells(cells, cols, id)
      ensures w.window == Some(id) && 0 <= w.row < rows && 0 <= w.col < cols
    {
      IndexInGrid(CoordsToIndex(w.row, w.col, cols), rows, cols);
    }
  }

  /** The record `getANSICells` builds: no coordinates, tags nulled. */
  datatype AnsiCell = AnsiCell(sym: string, glyph: Option<JsNumber>, effect: Option<JsNumber>,
                               tilesWindow: Option<int>, attributes: Attributes)

  /** `getANSICells()` from flat index `k` on: the raw-window (id 0) cells with
      their tags dropped. */
  function AnsiCellsFrom(cells: seq<TermCell>, k: nat): (r: seq<AnsiCell>)
    ensures forall a :: a in r ==> a.glyph.None? && a.effect.None? && a.tilesWindow.None?
    decreases |cells| - k
  {
    if k >= |cells| then []
    else if cells[k].tilesWindow == Some(0) then
      [AnsiCell(cells[k].c, None, None, None, cells[k].attrs)] + AnsiCellsFrom(cells, k + 1)
    else AnsiCellsFrom(cells, k + 1)
  }

  function AnsiCells(cells: seq<TermCell>): (r: seq<AnsiCell>)
    ensures forall a :: a in r ==> a.glyph.None? && a.effect.None? && a.tilesWindow.None?
  {
    AnsiCellsFrom(cells, 0)
  }

  /** The ANSI records `a` show the same text and attributes as the window
      records `w`, one for one. */
  ghost predicate SameCells(a: seq<AnsiCell>, w: seq<WinCell>)
  {
    |a| == |w| && forall i :: 0 <= i < |a| ==> a[i].sym == w[i].sym && Some(a[i].attributes) == w[i].attributes
  }

  lemma SameCellsCons(x: AnsiCell, y: WinCell, a: seq<AnsiCell>, w: seq<WinCell>)
    requires x.sym == y.sym && Some(x.attributes) == y.attributes && SameCells(a, w)
    ensures SameCells([x] + a, [y] + w)
  {
    forall i | 0 <= i < |a| + 1
      ensures ([x] + a)[i].sym == ([y] + w)[i].sym && Some(([x] + a)[i].attributes) == ([y] + w)[i].attributes
    {
      if i > 0 {
        assert ([x] + a)[i] == a[i - 1] && ([y] + w)[i] == w[i - 1];
      }
    }
  }

  lemma WindowCellsStep(cells: seq<TermCell>, cols: int, id: int, k: nat)
    requires cols > 0 && k < |cells|
    ensures WindowCellsFrom(cells, cols, id, k)
              == (if cells[k].tilesWindow == Some(id) then [Project(cells[k], k, cols)] else [])
                 + WindowCellsFrom(cells, cols, id, k + 1)
  {
  }

  lemma AnsiCellsStep(cells: seq<TermCell>, k: nat)
    requires k < |cells|
    ensures AnsiCellsFrom(cells, k)
              == (if cells[k].tilesWindow == Some(0) then [AnsiCell(cells[k].c, None, None, None, cells[k].attrs)] else [])
                 + AnsiCellsFrom(cells, k + 1)
  {
  }

  /** The ANSI view is the raw window's view with coordinates and tags
      dropped: the same cells, in the same order, with the same text and
      attributes. */
  lemma {:induction false} AnsiCellsAreWindowZero(cells: seq<TermCell>, cols: int, k: nat)
    requires cols > 0
    ensures SameCells(AnsiCellsFrom(cells, k), WindowCellsFrom(cells, cols, 0, k))
    decreases |cells| - k
  {
    if k < |cells| {
      AnsiCellsAreWindowZero(cells, cols, k + 1);
      WindowCellsStep(cells, cols, 0, k);
      AnsiCellsStep(cells, k);
      var a, w := AnsiCellsFrom(cells, k + 1), WindowCellsFrom(cells, cols, 0, k + 1);
      if cells[k].tilesWindow == Some(0) {
        SameCellsCons(AnsiCell(cells[k].c, None, None, None, cells[k].attrs), Project(cells[k], k, cols), a, w);
      } else {
        assert [] + a == a && [] + w == w;
      }
    }
  }
}
