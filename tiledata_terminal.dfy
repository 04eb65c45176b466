/** `TiledataTerminal` (tiledata-terminal.js): a terminal emulator whose
    character, CSI and ESC hooks are wrapped to decode vt_tiledata.  The
    decoder's four fields and the screen buffer are updated in place; each
    method is proved against the functions of module Tiledata. */
module TiledataTerminal {
  import opened Wrappers
  import opened Helpers
  import opened Cells
  import opened Tiledata
  import NhWindow

  /** Where a CSI sequence went: to `TILE`, or to the emulator's own handler. */
  datatype CsiRoute = TileHandled | TileFailed(error: TileError) | DelegatedCsi

  /** Where an ESC sequence went: discarded, or to the emulator's own handler. */
  datatype EscRoute = Discarded | DelegatedEsc

  class Terminal {
    // Screen size, fixed when the terminal is made.
    const rows: nat
    const cols: nat
    /** `screen.buffer[row].cells[col]`. */
    const buffer: array2<TermCell>
    /** The emulator's cursor rule after a character is written (wrapping,
        pending-wrap and scrolling belong to the emulator). */
    const advance: Coords -> Coords

    // Emulator state the decoder reads or resets.
    var cursor: Coords
    var textAttributes: Attributes
    var lastChar: string
    var remC: string
    var wrap: bool

    // The decoder's own fields.
    var waiting: bool
    var currentWindow: int
    var currentGlyph: Option<JsNumber>
    var currentEffect: Option<JsNumber>

    ghost predicate Valid()
      reads this
    {
      && rows > 0 && cols > 0
      && buffer.Length0 == rows && buffer.Length1 == cols
      && OnScreen(cursor, rows, cols)
      && KeepsOnScreen(advance, rows, cols)
    }

    /** The decoder state as a value. */
    function State(): Decoder
      reads this
    {
      Decoder(currentWindow, currentGlyph, currentEffect, waiting)
    }

    /** The buffer's cells in row-major order (`buffer.flatMap(row => row.cells)`). */
    function Cells(): (s: seq<TermCell>)
      requires Valid()
      reads this, buffer
      ensures |s| == rows * cols
    {
      seq(rows * cols, i requires 0 <= i < rows * cols reads buffer =>
        IndexInGrid(i, rows, cols);
        buffer[IndexToCoords(i, cols).row, IndexToCoords(i, cols).col])
    }

    /** The screen as a value. */
    function ScreenValue(): Screen
      requires Valid()
      reads this, buffer
    {
      Screen(Cells(), cursor)
    }

    constructor (cols: nat, rows: nat, advance: Coords -> Coords)
      requires rows > 0 && cols > 0
      requires KeepsOnScreen(advance, rows, cols)
      ensures Valid() && fresh(buffer)
      ensures this.rows == rows && this.cols == cols && this.advance == advance
      ensures State() == FreshDecoder
      ensures Cells() == seq(rows * cols, _ => Blank) && cursor == Coords(0, 0)
    {
      this.rows := rows;
      this.cols := cols;
      this.advance := advance;
      buffer := new TermCell[rows, cols]((_, _) => Blank);
      cursor := Coords(0, 0);
      textAttributes := Attributes(0);
      lastChar := "";
      remC := "";
      wrap := false;
      waiting := false;
      currentWindow := 0;
      currentGlyph := None;
      currentEffect := None;
    }

    /** `cloneCurrentCell()`: the cell under the cursor. */
    method CloneCurrentCell() returns (cell: TermCell)
      requires Valid()
      ensures cell == Cells()[ScreenIndex(cursor, rows, cols)]
    {
      cell := buffer[cursor.row, cursor.col];
      IndexOfCoordsRoundTrip(cursor.row, cursor.col, cols);
    }

    /** `setCurrentCell(cell)`: replace the cell under the cursor. */
    method SetCurrentCell(cell: TermCell)
      requires Valid()
      modifies buffer
      ensures Valid()
      ensures Cells() == old(Cells())[ScreenIndex(cursor, rows, cols) := cell]
    {
      ghost var before := Cells();
      ghost var k := ScreenIndex(cursor, rows, cols);
      buffer[cursor.row, cursor.col] := cell;
      forall i | 0 <= i < rows * cols
        ensures Cells()[i] == before[k := cell][i]
      {
        IndexInGrid(i, rows, cols);
        var p := IndexToCoords(i, cols);
        CoordsOfIndexRoundTrip(i, cols);
        if i == k {
          IndexOfCoordsRoundTrip(cursor.row, cursor.col, cols);
        } else if p.row == cursor.row && p.col == cursor.col {
          assert false;
        }
      }
    }

    /** The emulator's `inst_p` for one character (`old_inst_p(char)`): the
        character and the current attributes go into the cell under the
        cursor, whose tags stay; then the cursor advances.  The emulator may
        also update its last character, pending input and pending-wrap flag,
        whose new values are not modelled. */
    method EmulatorPut(ch: char)
      requires Valid()
      modifies buffer, this`cursor, this`lastChar, this`remC, this`wrap
      ensures Valid()
      ensures cursor == advance(old(cursor))
      ensures Cells() == old(Cells())[ScreenIndex(old(cursor), rows, cols) :=
                                      Put(old(Cells())[ScreenIndex(old(cursor), rows, cols)], ch, textAttributes)]
    {
      var cell := CloneCurrentCell();
      SetCurrentCell(Put(cell, ch, textAttributes));
      cursor := advance(cursor);
    }

    /** The wrapped `inst_p(str)`: before each character is written, the cell
        under the cursor is stamped with the current window, glyph and effect.
        The emulator's last character, pending input and pending-wrap flag may
        change as each character is written. */
    method InstP(str: string)
      requires Valid()
      modifies buffer, this`cursor, this`lastChar, this`remC, this`wrap
      ensures Valid()
      ensures ScreenValue() == WriteString(old(ScreenValue()), rows, cols, State(), textAttributes, advance, str)
    {
      var i := 0;
      while i < |str|
        invariant 0 <= i <= |str|
        invariant Valid()
        invariant WriteString(ScreenValue(), rows, cols, State(), textAttributes, advance, str[i..])
                  == WriteString(old(ScreenValue()), rows, cols, State(), textAttributes, advance, str)
      {
        ghost var before := ScreenValue();
        var oldCell := CloneCurrentCell();
        oldCell := Stamp(oldCell, State());
        SetCurrentCell(oldCell);
        EmulatorPut(str[i]);
        assert ScreenValue() == WriteChar(before, rows, cols, State(), textAttributes, advance, str[i]);
        assert str[i..][1..] == str[i + 1..];
        i := i + 1;
      }
    }

    /** `handleStartGlyph(glyph, effect)`. */
    method HandleStartGlyph(glyph: Option<int>, effect: Option<int>)
      modifies this`currentGlyph, this`currentEffect
      ensures State() == StartGlyph(old(State()), glyph, effect)
    {
      currentGlyph := Some(ToNumber(glyph));
      currentEffect := Some(ToNumber(effect));
    }

    /** `handleEndGlyph()`. */
    method HandleEndGlyph()
      modifies this`currentGlyph, this`currentEffect
      ensures State() == EndGlyph(old(State()))
    {
      currentGlyph := None;
      currentEffect := None;
    }

    /** `handleSelectWindow(windowId)`: on a refused id nothing changes. */
    method HandleSelectWindow(windowId: Option<int>) returns (r: Outcome<TileError>)
      modifies this`currentWindow
      ensures SelectWindow(old(State()), windowId).Failure? ==>
                r == Fail(SelectWindow(old(State()), windowId).error) && State() == old(State())
      ensures SelectWindow(old(State()), windowId).Success? ==>
                r == Pass && State() == SelectWindow(old(State()), windowId).value
    {
      if windowId.None? {
        return Fail(WindowIdNotNumber);
      }
      var id := windowId.value;
      if id < 0 || id > MaxWindowId {
        return Fail(WindowIdOutOfRange(id));
      }
      if id != 0 {
        currentWindow := id;
      }
      r := Pass;
    }

    /** `handleWait()`. */
    method HandleWait()
      modifies this`waiting
      ensures State() == Wait(old(State()))
    {
      waiting := true;
    }

    /** `TILE(params)`: a sequence whose check is not 1 is refused before any
        field is touched; otherwise the emulator's last character, pending
        input and pending wrap are reset, then the handler runs (an unknown
        command is refused after that reset). */
    method Tile(params: seq<int>) returns (r: Outcome<TileError>)
      modifies this`lastChar, this`remC, this`wrap,
               this`currentWindow, this`currentGlyph, this`currentEffect, this`waiting
      ensures Tiledata.Tile(old(State()), params).Failure? ==>
                r == Fail(Tiledata.Tile(old(State()), params).error) && State() == old(State())
      ensures Tiledata.Tile(old(State()), params).Success? ==>
                r == Pass && State() == Tiledata.Tile(old(State()), params).value
      ensures Param(params, 0) != Some(1) ==>
                lastChar == old(lastChar) && remC == old(remC) && wrap == old(wrap)
      ensures Param(params, 0) == Some(1) ==> lastChar == "" && remC == "" && !wrap
    {
      if Param(params, 0) != Some(1) {
        return Fail(UnexpectedTiledata);
      }
      lastChar := "";
      remC := "";
      wrap := false;
      var command := Param(params, 1);
      match command
      case Some(0) =>
        HandleStartGlyph(Param(params, 2), Param(params, 3));
        r := Pass;
      case Some(1) =>
        HandleEndGlyph();
        r := Pass;
      case Some(2) =>
        r := HandleSelectWindow(Param(params, 2));
      case Some(3) =>
        HandleWait();
        r := Pass;
      case _ =>
        r := Fail(NoSuchHandler(command));
    }

    /** The wrapped `inst_c`: only final byte `z` reaches `TILE`; every other
        CSI sequence goes to the emulator's handler, which may move the
        cursor, edit the buffer and change the emulator's fields (none of which
        is modelled), and the decoder is left as it was. */
    method InstC(params: seq<int>, flag: char) returns (r: CsiRoute)
      requires Valid()
      modifies buffer, this`cursor, this`textAttributes, this`lastChar, this`remC, this`wrap,
               this`currentWindow, this`currentGlyph, this`currentEffect, this`waiting
      ensures Valid()
      ensures flag != 'z' ==> r == DelegatedCsi && State() == old(State())
      ensures flag == 'z' && Tiledata.Tile(old(State()), params).Success? ==>
                r == TileHandled && State() == Tiledata.Tile(old(State()), params).value
      ensures flag == 'z' && Tiledata.Tile(old(State()), params).Failure? ==>
                r == TileFailed(Tiledata.Tile(old(State()), params).error) && State() == old(State())
      ensures flag == 'z' && Param(params, 0) != Some(1) ==>
                lastChar == old(lastChar) && remC == old(remC) && wrap == old(wrap)
      ensures flag == 'z' && Param(params, 0) == Some(1) ==> lastChar == "" && remC == "" && !wrap
      ensures flag == 'z' ==> cursor == old(cursor) && textAttributes == old(textAttributes) && unchanged(buffer)
    {
      if flag == 'z' {
        var outcome := Tile(params);
        r := if outcome.Pass? then TileHandled else TileFailed(outcome.error);
      } else {
        r := DelegatedCsi;
      }
    }

    /** The wrapped `inst_e`: ESC sequences with final `>` or `=` are
        discarded and change nothing; all others go to the emulator's handler,
        which may move the cursor, edit the buffer and change the emulator's
        fields (none of which is modelled).  The decoder is left as it was. */
    method InstE(flag: char) returns (r: EscRoute)
      requires Valid()
      modifies buffer, this`cursor, this`textAttributes, this`lastChar, this`remC, this`wrap
      ensures Valid()
      ensures r == Discarded <==> flag == '>' || flag == '='
      ensures State() == old(State())
      ensures r == Discarded ==>
                && cursor == old(cursor) && textAttributes == old(textAttributes) && unchanged(buffer)
                && lastChar == old(lastChar) && remC == old(remC) && wrap == old(wrap)
    {
      if flag == '>' || flag == '=' {
        r := Discarded;
      } else {
        r := DelegatedEsc;
      }
    }

    /** `getWindowCells(windowId)`. */
    function GetWindowCells(windowId: int): (r: seq<WinCell>)
      requires Valid()
      reads this, buffer
      ensures forall w :: w in r ==> w.window == Some(windowId) && 0 <= w.row < rows && 0 <= w.col < cols
      ensures forall w :: w in r ==>
                && 0 <= CoordsToIndex(w.row, w.col, cols) < |Cells()|
                && Cells()[CoordsToIndex(w.row, w.col, cols)].tilesWindow == Some(windowId)
                && w == Project(Cells()[CoordsToIndex(w.row, w.col, cols)], CoordsToIndex(w.row, w.col, cols), cols)
      ensures forall a, b :: 0 <= a < b < |r| ==> CoordsToIndex(r[a].row, r[a].col, cols) < CoordsToIndex(r[b].row, r[b].col, cols)
      ensures forall i :: 0 <= i < |Cells()| && Cells()[i].tilesWindow == Some(windowId) ==>
                Project(Cells()[i], i, cols) in r
    {
      WindowCellsOnScreen(Cells(), rows, cols, windowId);
      WindowCells(Cells(), cols, windowId)
    }

    /** `getANSICells()`. */
    function GetANSICells(): (r: seq<AnsiCell>)
      requires Valid()
      reads this, buffer
      ensures |r| == |GetWindowCells(NhWindow.NHW_NONE)|
      ensures forall i :: 0 <= i < |r| ==>
                && r[i].sym == GetWindowCells(NhWindow.NHW_NONE)[i].sym
                && Some(r[i].attributes) == GetWindowCells(NhWindow.NHW_NONE)[i].attributes
                && r[i].glyph.None? && r[i].effect.None? && r[i].tilesWindow.None?
    {
      AnsiCellsAreWindowZero(Cells(), cols, 0);
      AnsiCells(Cells())
    }
  }
}
