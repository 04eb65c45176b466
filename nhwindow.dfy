/** The logical-window model of nhwindow.js: the static registry of NetHack's
    tty windows (after `tty_create_nhwindow` in NetHack 3.6.2's wintty.c),
    and `NethackWindow`, a snapshot of one window's cells with its geometry,
    coordinate normalisation, densification into a row-major grid,
    partial-redraw merge and text rendering.  Every operation of the source is
    read-only, so the window is a datatype and its methods are functions. */
module NhWindow {
  import opened Wrappers
  import opened Helpers
  import opened Cells

  // ---------------------------------------------------------------------------
  // `windowIds`

  const NHW_NONE := 0
  const NHW_MESSAGE := 1
  const NHW_STATUS := 2
  const NHW_MAP := 3
  const NHW_MENU := 4
  const NHW_TEXT := 5
  const NHW_BASE := 6

  // ---------------------------------------------------------------------------
  // The registry `coreTTYWindows`

  /** The caller's terminal size plus the map's own bounds (ROWNO, COLNO). */
  datatype BaseDimensions = BaseDimensions(rows: int, cols: int, rowno: int, colno: int)

  /** A resolved window geometry.  A size of 0 means "infer from the data";
      `offset` is the window's top-left corner on the physical screen. */
  datatype Dimensions = Dimensions(rows: int, cols: int, maxRows: int, maxCols: int, offset: Coords)

  /** The registry's `resize` closures, one tag per distinct formula. */
  datatype ResizeRule =
    | FullScreen    // none, base: the whole terminal
    | MessageLine   // message: 20 rows, columns inferred
    | BottomBand    // status: the last two rows, full width
    | MapArea       // map: ROWNO x COLNO, one row below the top
    | FullWidth     // menu, text: full width, rows inferred

  /** Every window is left-aligned; only the status window has maximum bounds;
      menu and text infer their height, message its width. */
  function Resize(rule: ResizeRule, base: BaseDimensions): (r: Dimensions)
    ensures r.offset.col == 0
    ensures rule != BottomBand ==> r.maxRows == 0 && r.maxCols == 0
    ensures rule == FullWidth ==> r.rows == 0
    ensures rule == MessageLine ==> r.cols == 0
  {
    match rule
    case FullScreen => Dimensions(base.rows, base.cols, 0, 0, Coords(0, 0))
    case MessageLine => Dimensions(20, 0, 0, 0, Coords(0, 0))
    case BottomBand => Dimensions(2, base.cols, 2, base.cols, Coords(base.rows - 2, 0))
    case MapArea => Dimensions(base.rowno, base.colno, 0, 0, Coords(1, 0))
    case FullWidth => Dimensions(0, base.cols, 0, 0, Coords(0, 0))
  }

  datatype CoreWindow = CoreWindow(name: string, internalName: string, id: int, description: string, resize: ResizeRule)

  const CoreTTYWindows: seq<CoreWindow> := [
    CoreWindow("none", "NHW_NONE", NHW_NONE, "raw ANSI", FullScreen),
    CoreWindow("message", "NHW_MESSAGE", NHW_MESSAGE, "Message window, 1 line long, very wide, top of screen", MessageLine),
    CoreWindow("status", "NHW_STATUS", NHW_STATUS, "Status window, 2 lines long, full width, bottom of screen", BottomBand),
    CoreWindow("map", "NHW_MAP", NHW_MAP, "Map window, ROWNO lines long, full width, below message window", MapArea),
    CoreWindow("menu", "NHW_MENU", NHW_MENU, "Inventory/menu window, variable length, full width, top of screen", FullWidth),
    CoreWindow("text", "NHW_TEXT", NHW_TEXT, "Help window, the same, different semantics for display, etc", FullWidth),
    CoreWindow("base", "NHW_BASE", NHW_BASE, "Base window, used for absolute movement on the screen", FullScreen)
  ]

  datatype WindowError =
    | UnknownWindowId(id: int)
    | UnknownWindowName(name: string)
    | LengthMismatch(expected: int, got: int)

  /** `Array.prototype.find` from position `k` on, as the index of the first
      element satisfying `p`. */
  function FirstIndex<T>(s: seq<T>, p: T -> bool, k: nat): (r: Option<nat>)
    ensures r.Some? ==> k <= r.value < |s| && p(s[r.value]) && forall j :: k <= j < r.value ==> !p(s[j])
    ensures r.None? ==> forall j :: k <= j < |s| ==> !p(s[j])
    decreases |s| - k
  {
    if k >= |s| then None
    else if p(s[k]) then Some(k)
    else FirstIndex(s, p, k + 1)
  }

  /** `getCoreWindow(id)`: the registry entry with this id, or an error when
      there is none. */
  function GetCoreWindow(id: int): (r: Result<CoreWindow, WindowError>)
    ensures r.Success? ==> r.value in CoreTTYWindows && r.value.id == id
    ensures r.Failure? ==> r.error == UnknownWindowId(id) && forall w :: w in CoreTTYWindows ==> w.id != id
  {
    match FirstIndex(CoreTTYWindows, (w: CoreWindow) => w.id == id, 0)
    case Some(i) => Success(CoreTTYWindows[i])
    case None => Failure(UnknownWindowId(id))
  }

  /** `getCoreWindowByName(name)`. */
  function GetCoreWindowByName(name: string): (r: Result<CoreWindow, WindowError>)
    ensures r.Success? ==> r.value in CoreTTYWindows && r.value.name == name
    ensures r.Failure? ==> r.error == UnknownWindowName(name) && forall w :: w in CoreTTYWindows ==> w.name != name
  {
    match FirstIndex(CoreTTYWindows, (w: CoreWindow) => w.name == name, 0)
    case Some(i) => Success(CoreTTYWindows[i])
    case None => Failure(UnknownWindowName(name))
  }

  /** The registry lists the seven windows in id order, ids 0..6, and every
      name once. */
  lemma RegistryWellFormed()
    ensures |CoreTTYWindows| == 7
    ensures forall i :: 0 <= i < 7 ==> CoreTTYWindows[i].id == i
    ensures forall i, j :: 0 <= i < j < 7 ==> CoreTTYWindows[i].name != CoreTTYWindows[j].name
  {
  }

  /** Lookup by id succeeds exactly for 0..6 and returns the entry with that id. */
  lemma {:induction false} GetCoreWindowExactly(id: int)
    ensures GetCoreWindow(id).Success? <==> 0 <= id <= 6
    ensures GetCoreWindow(id).Success? ==> GetCoreWindow(id).value == CoreTTYWindows[id]
  {
    RegistryWellFormed();
    var r := GetCoreWindow(id);
    if 0 <= id <= 6 {
      assert CoreTTYWindows[id] in CoreTTYWindows;
    }
    if r.Success? {
      var i :| 0 <= i < |CoreTTYWindows| && CoreTTYWindows[i] == r.value;
      assert i == id;
    }
  }

  /** Lookup by name succeeds exactly for the seven names and returns the
      entry of the same position. */
  lemma {:induction false} GetCoreWindowByNameExactly(name: string)
    ensures GetCoreWindowByName(name).Success? <==> exists i :: 0 <= i < 7 && CoreTTYWindows[i].name == name
    ensures forall i :: 0 <= i < 7 && CoreTTYWindows[i].name == name ==> GetCoreWindowByName(name) == Success(CoreTTYWindows[i])
  {
    RegistryWellFormed();
    var r := GetCoreWindowByName(name);
    if exists i :: 0 <= i < 7 && CoreTTYWindows[i].name == name {
      var i :| 0 <= i < 7 && CoreTTYWindows[i].name == name;
      assert CoreTTYWindows[i] in CoreTTYWindows;
    }
    if r.Success? {
      var i :| 0 <= i < |CoreTTYWindows| && CoreTTYWindows[i] == r.value;
      forall i' | 0 <= i' < 7 && CoreTTYWindows[i'].name == name
        ensures r == Success(CoreTTYWindows[i'])
      {
        assert i == i';
      }
    }
  }

  /** The status window, found by name, is the bottom two rows at full width. */
  lemma {:induction false} StatusGeometry(base: BaseDimensions)
    ensures GetCoreWindowByName("status").Success?
    ensures Resize(GetCoreWindowByName("status").value.resize, base)
              == Dimensions(2, base.cols, 2, base.cols, Coords(base.rows - 2, 0))
  {
    GetCoreWindowByNameExactly("status");
    assert CoreTTYWindows[2].name == "status";
  }

  /** The map window, found by name, is ROWNO x COLNO, one row below the top. */
  lemma {:induction false} MapGeometry(base: BaseDimensions)
    ensures GetCoreWindowByName("map").Success?
    ensures Resize(GetCoreWindowByName("map").value.resize, base)
              == Dimensions(base.rowno, base.colno, 0, 0, Coords(1, 0))
  {
    GetCoreWindowByNameExactly("map");
    assert CoreTTYWindows[3].name == "map";
  }

  /** The message window, found by name, is 20 rows high with its width
      inferred from the data (not one row high, as its description says). */
  lemma {:induction false} MessageGeometry(base: BaseDimensions)
    ensures GetCoreWindowByName("message").Success?
    ensures Resize(GetCoreWindowByName("message").value.resize, base)
              == Dimensions(20, 0, 0, 0, Coords(0, 0))
  {
    GetCoreWindowByNameExactly("message");
    assert CoreTTYWindows[1].name == "message";
  }

  /** The menu and text windows, found by name, span the full width and infer
      their height. */
  lemma {:induction false} FullWidthGeometry(base: BaseDimensions, name: string)
    requires name == "menu" || name == "text"
    ensures GetCoreWindowByName(name).Success?
    ensures Resize(GetCoreWindowByName(name).value.resize, base) == Dimensions(0, base.cols, 0, 0, Coords(0, 0))
  {
    GetCoreWindowByNameExactly(name);
    assert CoreTTYWindows[4].name == "menu" && CoreTTYWindows[5].name == "text";
  }

  /** The raw and base windows, found by name, are the whole terminal. */
  lemma {:induction false} FullScreenGeometry(base: BaseDimensions, name: string)
    requires name == "none" || name == "base"
    ensures GetCoreWindowByName(name).Success?
    ensures Resize(GetCoreWindowByName(name).value.resize, base) == Dimensions(base.rows, base.cols, 0, 0, Coords(0, 0))
  {
    GetCoreWindowByNameExactly(name);
    assert CoreTTYWindows[0].name == "none" && CoreTTYWindows[6].name == "base";
  }

  // ---------------------------------------------------------------------------
  // `NethackWindow`

  datatype NethackWindow = NethackWindow(
    id: int,
    name: string,
    data: seq<WinCell>,
    normalized: bool,
    dimensions: Dimensions,
    baseDimensions: BaseDimensions)

  /** `new NethackWindow(baseDimensions, coreWindowId, data, normalized)`: the
      registry entry's id, name and geometry, and the cells with escape
      sequences stripped from their text (`stripAnsi` is the strip-ansi
      library, a parameter here).  An unknown id is an error. */
  function NewWindow(base: BaseDimensions, coreWindowId: int, data: seq<WinCell>, normalized: bool,
                     stripAnsi: string -> string): (r: Result<NethackWindow, WindowError>)
    ensures r.Failure? <==> !(0 <= coreWindowId <= 6)
    ensures r.Success? ==>
              && r.value.id == coreWindowId
              && r.value.name == CoreTTYWindows[coreWindowId].name
              && r.value.dimensions == Resize(CoreTTYWindows[coreWindowId].resize, base)
              && r.value.normalized == normalized && r.value.baseDimensions == base
              && |r.value.data| == |data|
              && forall i :: 0 <= i < |data| ==>
                   r.value.data[i].sym == stripAnsi(data[i].sym) && r.value.data[i].(sym := data[i].sym) == data[i]
  {
    GetCoreWindowExactly(coreWindowId);
    RegistryWellFormed();
    match GetCoreWindow(coreWindowId)
    case Failure(e) => Failure(e)
    case Success(w) =>
      var stripped := seq(|data|, i requires 0 <= i < |data| => data[i].(sym := stripAnsi(data[i].sym)));
      Success(NethackWindow(w.id, w.name, stripped, normalized, Resize(w.resize, base), base))
  }

  // ---------------------------------------------------------------------------
  // `sanitizeDimensions`

  datatype Size = Size(rows: int, cols: int)

  /** `Math.max(...xs)` for a non-empty list. */
  function Max(xs: seq<int>): (m: int)
    requires |xs| > 0
    ensures forall x :: x in xs ==> x <= m
    ensures m in xs
  {
    if |xs| == 1 then xs[0]
    else
      var rest := Max(xs[1..]);
      assert xs == [xs[0]] + xs[1..];
      if xs[0] >= rest then xs[0] else rest
  }

  /** `cell.row + 1` for every cell. */
  function RowEnds(data: seq<WinCell>): (r: seq<int>)
    ensures |r| == |data| && forall i :: 0 <= i < |data| ==> r[i] == data[i].row + 1
  {
    seq(|data|, i requires 0 <= i < |data| => data[i].row + 1)
  }

  /** `cell.col + 1` for every cell. */
  function ColEnds(data: seq<WinCell>): (r: seq<int>)
    ensures |r| == |data| && forall i :: 0 <= i < |data| ==> r[i] == data[i].col + 1
  {
    seq(|data|, i requires 0 <= i < |data| => data[i].col + 1)
  }

  /** `sanitizeDimensions()`: a resolved size other than 0 stands; 0 becomes
      the extent of the cells past the window's offset, or the base terminal
      size when there are no cells. */
  function SanitizeDimensions(w: NethackWindow): (r: Size)
    ensures w.dimensions.rows != 0 ==> r.rows == w.dimensions.rows
    ensures w.dimensions.cols != 0 ==> r.cols == w.dimensions.cols
    ensures w.dimensions.rows == 0 && |w.data| == 0 ==> r.rows == w.baseDimensions.rows
    ensures w.dimensions.cols == 0 && |w.data| == 0 ==> r.cols == w.baseDimensions.cols
  {
    var offset := w.dimensions.offset;
    var maxColsize := if |w.data| > 0 then Max(ColEnds(w.data)) - offset.col else w.baseDimensions.cols;
    var maxRowsize := if |w.data| > 0 then Max(RowEnds(w.data)) - offset.row else w.baseDimensions.rows;
    Size(if w.dimensions.rows == 0 then maxRowsize else w.dimensions.rows,
         if w.dimensions.cols == 0 then maxColsize else w.dimensions.cols)
  }

  /** An inferred size is the smallest that holds every cell: each cell lies
      before it once the offset is subtracted, and some cell lies on its last
      row (column). */
  lemma {:induction false} InferredSizeFitsData(w: NethackWindow)
    requires |w.data| > 0
    ensures w.dimensions.rows == 0 ==>
              && (forall c :: c in w.data ==> c.row - w.dimensions.offset.row < SanitizeDimensions(w).rows)
              && (exists c :: c in w.data && c.row - w.dimensions.offset.row == SanitizeDimensions(w).rows - 1)
    ensures w.dimensions.cols == 0 ==>
              && (forall c :: c in w.data ==> c.col - w.dimensions.offset.col < SanitizeDimensions(w).cols)
              && (exists c :: c in w.data && c.col - w.dimensions.offset.col == SanitizeDimensions(w).cols - 1)
  {
    var rowEnds, colEnds := RowEnds(w.data), ColEnds(w.data);
    forall c | c in w.data
      ensures c.row + 1 in rowEnds && c.col + 1 in colEnds
    {
      var i :| 0 <= i < |w.data| && w.data[i] == c;
      assert rowEnds[i] == c.row + 1 && colEnds[i] == c.col + 1;
    }
    var mr := Max(rowEnds);
    var i :| 0 <= i < |rowEnds| && rowEnds[i] == mr;
    assert w.data[i] in w.data;
    var mc := Max(colEnds);
    var j :| 0 <= j < |colEnds| && colEnds[j] == mc;
    assert w.data[j] in w.data;
  }

  /** The sizes densification is modelled for: neither negative.  A negative
      size only arises from cells above or left of the window's offset or
      from a negative terminal size. */
  predicate Densifiable(w: NethackWindow)
  {
    SanitizeDimensions(w).rows >= 0 && SanitizeDimensions(w).cols >= 0
  }

  // ---------------------------------------------------------------------------
  // Empty cells and grids

  /** `createEmptyCell({row, col})`: no text, no glyph, so a merge keeps the
      old cell in its place. */
  function EmptyCell(row: int, col: int): (c: WinCell)
    ensures IsEmptyCell(c) && c.row == row && c.col == col
  {
    WinCell(row, col, "", None, None, None, None)
  }

  predicate IsEmptyCell(c: WinCell)
  {
    c.sym == "" && c.glyph.None?
  }

  /** A dense row-major `rows` x `cols` grid: the cell at index `i` sits at the
      coordinates `i` names. */
  ghost predicate DenseGrid(cells: seq<WinCell>, rows: int, cols: int)
  {
    && rows >= 0 && cols >= 0 && |cells| == rows * cols
    && forall i :: 0 <= i < |cells| ==>
         && 0 <= cells[i].row < rows && 0 <= cells[i].col < cols
         && CoordsToIndex(cells[i].row, cells[i].col, cols) == i
  }

  /** In a dense grid every coordinate of the grid occurs, at its own index. */
  lemma {:induction false} DenseGridCoversEveryCoordinate(cells: seq<WinCell>, rows: int, cols: int, row: int, col: int)
    requires DenseGrid(cells, rows, cols)
    requires 0 <= row < rows && 0 <= col < cols
    ensures 0 <= CoordsToIndex(row, col, cols) < |cells|
    ensures cells[CoordsToIndex(row, col, cols)].row == row && cells[CoordsToIndex(row, col, cols)].col == col
  {
    CoordsInGrid(row, col, rows, cols);
    var k := CoordsToIndex(row, col, cols);
    CoordsToIndexInjective(cells[k].row, cells[k].col, row, col, cols);
  }

  /** The cell at index `i` of a `cols`-wide grid, positioned as `i` names. */
  lemma {:induction false} GridPosition(i: int, rows: int, cols: int)
    requires cols > 0 && 0 <= i < rows * cols
    ensures 0 <= IndexToCoords(i, cols).row < rows && 0 <= IndexToCoords(i, cols).col < cols
    ensures CoordsToIndex(IndexToCoords(i, cols).row, IndexToCoords(i, cols).col, cols) == i
  {
    IndexInGrid(i, rows, cols);
    CoordsOfIndexRoundTrip(i, cols);
  }

  /** `emptyWindow()`: `rows * cols` empty cells forming a dense grid. */
  function EmptyWindow(w: NethackWindow): (r: seq<WinCell>)
    requires Densifiable(w)
    ensures |r| == SanitizeDimensions(w).rows * SanitizeDimensions(w).cols
    ensures forall c :: c in r ==> IsEmptyCell(c)
  {
    var size := SanitizeDimensions(w);
    var length := size.cols * size.rows;
    seq(length, i requires 0 <= i < length =>
      GridPosition(i, size.rows, size.cols);
      EmptyCell(i / size.cols, i % size.cols))
  }

  /** The empty window is a dense grid of the sanitised size. */
  lemma {:induction false} EmptyWindowIsGrid(w: NethackWindow)
    requires Densifiable(w)
    ensures DenseGrid(EmptyWindow(w), SanitizeDimensions(w).rows, SanitizeDimensions(w).cols)
  {
    var size := SanitizeDimensions(w);
    var r := EmptyWindow(w);
    forall i | 0 <= i < |r|
      ensures 0 <= r[i].row < size.rows && 0 <= r[i].col < size.cols
      ensures CoordsToIndex(r[i].row, r[i].col, size.cols) == i
    {
      GridPosition(i, size.rows, size.cols);
    }
  }

  // ---------------------------------------------------------------------------
  // `normalizedData`, `normalizedDataWindow`

  /** `normalizedData()`: every cell moved by minus the window's offset; order,
      count and all other fields kept (adding the offset back restores the
      input). */
  function NormalizedData(w: NethackWindow): (r: seq<WinCell>)
    ensures |r| == |w.data|
    ensures forall i :: 0 <= i < |r| ==>
              r[i].(row := r[i].row + w.dimensions.offset.row, col := r[i].col + w.dimensions.offset.col) == w.data[i]
  {
    var offset := w.dimensions.offset;
    seq(|w.data|, i requires 0 <= i < |w.data| =>
      w.data[i].(row := w.data[i].row - offset.row, col := w.data[i].col - offset.col))
  }

  /** The cells densification draws from: already-relative data as it is,
      otherwise the normalised data. */
  function Updates(w: NethackWindow): seq<WinCell>
  {
    if w.normalized then w.data else NormalizedData(w)
  }

  /** The first update at `(row, col)`: `updates.find(...)`. */
  function FindAt(updates: seq<WinCell>, row: int, col: int): Option<nat>
  {
    FirstIndex(updates, (c: WinCell) => c.row == row && c.col == col, 0)
  }

  /** The cell densification puts at `(row, col)`: the first update there, or
      an empty cell. */
  function CellAt(updates: seq<WinCell>, row: int, col: int): (c: WinCell)
    ensures c.row == row && c.col == col
    ensures c in updates || c == EmptyCell(row, col)
  {
    match FindAt(updates, row, col)
    case Some(j) => updates[j]
    case None => EmptyCell(row, col)
  }

  /** `normalizedDataWindow()`: the dense grid whose cell at each coordinate
      is the first update there, or an empty cell when there is none. */
  function NormalizedDataWindow(w: NethackWindow): (r: seq<WinCell>)
    requires Densifiable(w)
    ensures |r| == SanitizeDimensions(w).cols * SanitizeDimensions(w).rows
    ensures forall c :: c in r ==> c in Updates(w) || IsEmptyCell(c)
  {
    var size := SanitizeDimensions(w);
    var length := size.cols * size.rows;
    var updates := Updates(w);
    seq(length, i requires 0 <= i < length =>
      CellAt(updates, IndexToCoords(i, size.cols).row, IndexToCoords(i, size.cols).col))
  }

  /** Densification yields a dense grid of the sanitised size: every
      coordinate once, at its row-major index. */
  lemma {:induction false} NormalizedDataWindowIsGrid(w: NethackWindow)
    requires Densifiable(w)
    ensures DenseGrid(NormalizedDataWindow(w), SanitizeDimensions(w).rows, SanitizeDimensions(w).cols)
  {
    var size := SanitizeDimensions(w);
    var r := NormalizedDataWindow(w);
    var u := Updates(w);
    forall i | 0 <= i < |r|
      ensures 0 <= r[i].row < size.rows && 0 <= r[i].col < size.cols
      ensures CoordsToIndex(r[i].row, r[i].col, size.cols) == i
    {
      GridPosition(i, size.rows, size.cols);
    }
  }

  /** Each grid cell is the first update with its coordinates, or empty when
      no update has them. */
  lemma {:induction false} NormalizedDataWindowAt(w: NethackWindow, i: int)
    requires Densifiable(w) && 0 <= i < |NormalizedDataWindow(w)|
    ensures var c := NormalizedDataWindow(w)[i];
            var u := Updates(w);
            && ((exists j :: 0 <= j < |u| && u[j].row == c.row && u[j].col == c.col) ==>
                  exists j :: 0 <= j < |u| && u[j] == c && forall j' :: 0 <= j' < j ==> u[j'].row != c.row || u[j'].col != c.col)
            && ((forall j :: 0 <= j < |u| ==> u[j].row != c.row || u[j].col != c.col) ==> c == EmptyCell(c.row, c.col))
  {
    var size := SanitizeDimensions(w);
    var u := Updates(w);
    var c := NormalizedDataWindow(w)[i];
    var p := IndexToCoords(i, size.cols);
    assert c == CellAt(u, p.row, p.col);
    match FindAt(u, p.row, p.col)
    case Some(j) =>
      assert c == u[j];
    case None =>
      assert c == EmptyCell(p.row, p.col);
  }

  /** An update inside the grid that is the first at its coordinates appears in
      the dense grid at the index its coordinates name. */
  lemma {:induction false} NormalizedDataWindowKeepsUpdate(w: NethackWindow, j: int)
    requires Densifiable(w)
    requires 0 <= j < |Updates(w)|
    requires 0 <= Updates(w)[j].row < SanitizeDimensions(w).rows
    requires 0 <= Updates(w)[j].col < SanitizeDimensions(w).cols
    requires forall j' :: 0 <= j' < j ==> Updates(w)[j'].row != Updates(w)[j].row || Updates(w)[j'].col != Updates(w)[j].col
    ensures var k := CoordsToIndex(Updates(w)[j].row, Updates(w)[j].col, SanitizeDimensions(w).cols);
            0 <= k < |NormalizedDataWindow(w)| && NormalizedDataWindow(w)[k] == Updates(w)[j]
  {
    var size := SanitizeDimensions(w);
    var u := Updates(w);
    var k := CoordsToIndex(u[j].row, u[j].col, size.cols);
    CoordsInGrid(u[j].row, u[j].col, size.rows, size.cols);
    IndexOfCoordsRoundTrip(u[j].row, u[j].col, size.cols);
    var f := FindAt(u, u[j].row, u[j].col);
    assert f.Some? && f.value == j;
    assert NormalizedDataWindow(w)[k] == CellAt(u, u[j].row, u[j].col);
  }

  // ---------------------------------------------------------------------------
  // `chunkedWindow` and lodash's `chunk`

  /** lodash `_.chunk(s, n)`: consecutive pieces of `n`, the last possibly
      shorter; nothing for `n < 1`. */
  function Chunk<T>(s: seq<T>, n: int): (r: seq<seq<T>>)
    ensures n >= 1 ==> Flatten(r) == s
    ensures forall c :: c in r ==> 0 < |c| <= n
    ensures forall i :: 0 <= i < |r| - 1 ==> |r[i]| == n
    decreases |s|
  {
    if n < 1 || |s| == 0 then []
    else if |s| <= n then [s]
    else [s[..n]] + Chunk(s[n..], n)
  }

  function Flatten<T>(chunks: seq<seq<T>>): seq<T>
  {
    if chunks == [] then [] else chunks[0] + Flatten(chunks[1..])
  }

  /** Cells that form a grid when chunked: the data of a window marked
      normalised (already dense), otherwise the densified window. */
  function GridCells(w: NethackWindow): seq<WinCell>
    requires w.normalized || Densifiable(w)
  {
    if w.normalized then w.data else NormalizedDataWindow(w)
  }

  /** `chunkedWindow()`: the grid cut into rows of the sanitised width. */
  function ChunkedWindow(w: NethackWindow): (r: seq<seq<WinCell>>)
    requires w.normalized || Densifiable(w)
    ensures SanitizeDimensions(w).cols >= 1 ==> Flatten(r) == GridCells(w)
    ensures forall row :: row in r ==> 0 < |row| <= SanitizeDimensions(w).cols
  {
    Chunk(GridCells(w), SanitizeDimensions(w).cols)
  }

  /** A densified window cut into rows gives `rows` rows of `cols` cells, row
      `r` holding the cells of grid row `r`. */
  lemma {:induction false} ChunkedWindowRows(w: NethackWindow)
    requires !w.normalized && Densifiable(w) && SanitizeDimensions(w).cols >= 1
    ensures |ChunkedWindow(w)| == SanitizeDimensions(w).rows
    ensures forall r, c :: 0 <= r < |ChunkedWindow(w)| && 0 <= c < |ChunkedWindow(w)[r]| ==>
              ChunkedWindow(w)[r][c].row == r && ChunkedWindow(w)[r][c].col == c
  {
    var size := SanitizeDimensions(w);
    var g := NormalizedDataWindow(w);
    NormalizedDataWindowIsGrid(w);
    assert RowsFrom(g, 0, size.cols);
    ChunkRows(g, size.rows, size.cols, 0);
  }

  /** `s` holds consecutive grid rows of width `cols`, the first being row `r0`. */
  ghost predicate RowsFrom(s: seq<WinCell>, r0: int, cols: int)
  {
    forall i :: 0 <= i < |s| ==> 0 <= s[i].col < cols && CoordsToIndex(s[i].row - r0, s[i].col, cols) == i
  }

  /** The first `cols` cells of consecutive rows from `r0` form row `r0`. */
  lemma FirstRowOf(s: seq<WinCell>, cols: int, r0: int, c: int)
    requires cols >= 1 && RowsFrom(s, r0, cols) && 0 <= c < cols && c < |s|
    ensures s[c].row == r0 && s[c].col == c
  {
    CoordsToIndexInjective(s[c].row - r0, s[c].col, 0, c, cols);
  }

  /** Dropping the first row leaves consecutive rows from `r0 + 1`. */
  lemma RowsFromShift(s: seq<WinCell>, cols: int, r0: int)
    requires cols >= 1 && |s| >= cols && RowsFrom(s, r0, cols)
    ensures RowsFrom(s[cols..], r0 + 1, cols)
  {
    var rest := s[cols..];
    forall i | 0 <= i < |rest|
      ensures 0 <= rest[i].col < cols && CoordsToIndex(rest[i].row - (r0 + 1), rest[i].col, cols) == i
    {
      assert rest[i] == s[i + cols];
      assert (rest[i].row - r0 - 1) * cols == (rest[i].row - r0) * cols - cols;
    }
  }

  lemma ChunkUnfold<T>(s: seq<T>, n: int)
    requires 1 <= n < |s|
    ensures Chunk(s, n) == [s[..n]] + Chunk(s[n..], n)
  {
  }

  lemma RowCount(s: seq<WinCell>, n: nat, cols: int)
    requires cols >= 1 && |s| == n * cols && n >= 1
    ensures n == 1 ==> |s| == cols
    ensures n > 1 ==> |s| > cols && |s[cols..]| == (n - 1) * cols
  {
    assert n * cols == cols + (n - 1) * cols;
    if n > 1 { MulMonotone(1, n - 1, cols); }
  }

  /** Row `r` of `ch` holds the cells of grid row `r0 + r`, columns from 0. */
  ghost predicate RowsAt(ch: seq<seq<WinCell>>, r0: int)
  {
    forall r, c :: 0 <= r < |ch| && 0 <= c < |ch[r]| ==> ch[r][c].row == r0 + r && ch[r][c].col == c
  }

  lemma RowsAtCons(first: seq<WinCell>, tail: seq<seq<WinCell>>, r0: int)
    requires forall c :: 0 <= c < |first| ==> first[c].row == r0 && first[c].col == c
    requires RowsAt(tail, r0 + 1)
    ensures RowsAt([first] + tail, r0)
  {
    var ch: seq<seq<WinCell>> := [first] + tail;
    forall r, c | 0 <= r < |ch| && 0 <= c < |ch[r]|
      ensures ch[r][c].row == r0 + r && ch[r][c].col == c
    {
      if r > 0 {
        assert ch[r] == tail[r - 1];
      }
    }
  }

  lemma {:induction false} ChunkRows(s: seq<WinCell>, n: nat, cols: int, r0: int)
    requires cols >= 1 && |s| == n * cols && RowsFrom(s, r0, cols)
    ensures |Chunk(s, cols)| == n && RowsAt(Chunk(s, cols), r0)
    decreases n
  {
    if n == 0 {
      assert Chunk(s, cols) == [];
    } else {
      RowCount(s, n, cols);
      var first := if n == 1 then s else s[..cols];
      forall c | 0 <= c < |first|
        ensures first[c].row == r0 && first[c].col == c
      {
        FirstRowOf(s, cols, r0, c);
      }
      if n == 1 {
        assert Chunk(s, cols) == [first] + [];
        RowsAtCons(first, [], r0);
      } else {
        var rest := s[cols..];
        RowsFromShift(s, cols, r0);
        ChunkRows(rest, n - 1, cols, r0 + 1);
        ChunkUnfold(s, cols);
        RowsAtCons(first, Chunk(rest, cols), r0);
      }
    }
  }

  // ---------------------------------------------------------------------------
  // `applyUpdate`

  /** lodash `zipWith(updates, olds, ...)` with the merge rule: a cell with
      text replaces the old one; an empty one keeps it. */
  function Merge(updates: seq<WinCell>, olds: seq<WinCell>): (r: seq<WinCell>)
    requires |updates| == |olds|
    ensures |r| == |updates|
    ensures forall i :: 0 <= i < |r| ==> r[i] == (if updates[i].sym != "" then updates[i] else olds[i])
  {
    if updates == [] then []
    else [if updates[0].sym != "" then updates[0] else olds[0]] + Merge(updates[1..], olds[1..])
  }

  /** `applyUpdate(oldWindow)`: this window's cells merged over the old
      window's; windows of different lengths are an error. */
  function ApplyUpdate(w: NethackWindow, oldWindow: NethackWindow): (r: Result<seq<WinCell>, WindowError>)
    ensures r.Failure? <==> |oldWindow.data| != |w.data|
    ensures r.Failure? ==> r.error == LengthMismatch(|w.data|, |oldWindow.data|)
    ensures r.Success? ==> |r.value| == |w.data|
    ensures r.Success? ==> forall i :: 0 <= i < |w.data| && w.data[i].sym != "" ==> r.value[i] == w.data[i]
    ensures r.Success? ==> forall i :: 0 <= i < |w.data| && w.data[i].sym == "" ==> r.value[i] == oldWindow.data[i]
  {
    if |oldWindow.data| != |w.data| then Failure(LengthMismatch(|w.data|, |oldWindow.data|))
    else Success(Merge(w.data, oldWindow.data))
  }

  /** An update with no text anywhere changes nothing. */
  lemma ApplyUpdateAllEmpty(w: NethackWindow, oldWindow: NethackWindow)
    requires |w.data| == |oldWindow.data|
    requires forall c :: c in w.data ==> c.sym == ""
    ensures ApplyUpdate(w, oldWindow) == Success(oldWindow.data)
  {
    var m := Merge(w.data, oldWindow.data);
    assert ApplyUpdate(w, oldWindow) == Success(m);
    forall i | 0 <= i < |m|
      ensures m[i] == oldWindow.data[i]
    {
      assert w.data[i] in w.data;
    }
    assert m == oldWindow.data;
  }

  /** An update with text everywhere replaces everything. */
  lemma ApplyUpdateAllSet(w: NethackWindow, oldWindow: NethackWindow)
    requires |w.data| == |oldWindow.data|
    requires forall c :: c in w.data ==> c.sym != ""
    ensures ApplyUpdate(w, oldWindow) == Success(w.data)
  {
    var m := Merge(w.data, oldWindow.data);
    assert ApplyUpdate(w, oldWindow) == Success(m);
    forall i | 0 <= i < |m|
      ensures m[i] == w.data[i]
    {
      assert w.data[i] in w.data;
    }
    assert m == w.data;
  }

  /** Merging the same update twice is merging it once. */
  lemma MergeIdempotent(updates: seq<WinCell>, olds: seq<WinCell>)
    requires |updates| == |olds|
    ensures Merge(updates, Merge(updates, olds)) == Merge(updates, olds)
  {
  }

  /** Merging two dense grids of the same size gives a dense grid of that size:
      the persistent map stays a well-formed grid across redraws. */
  lemma MergeKeepsGrid(updates: seq<WinCell>, olds: seq<WinCell>, rows: int, cols: int)
    requires DenseGrid(updates, rows, cols) && DenseGrid(olds, rows, cols)
    ensures DenseGrid(Merge(updates, olds), rows, cols)
  {
  }

  /** A 3 x 3 map of '.' redrawn with '@' in the middle and nothing elsewhere
      shows '.' everywhere except '@' in the middle. */
  lemma ApplyUpdateExample(base: BaseDimensions)
    ensures var dots := seq(9, i requires 0 <= i < 9 => WinCell(i / 3, i % 3, ".", None, None, None, None));
            var frame := seq(9, i requires 0 <= i < 9 =>
                           if i == 4 then WinCell(1, 1, "@", None, None, None, None) else EmptyCell(i / 3, i % 3));
            var prev := NethackWindow(NHW_MAP, "map", dots, true, Resize(MapArea, base), base);
            var upd := NethackWindow(NHW_MAP, "map", frame, true, Resize(MapArea, base), base);
            && ApplyUpdate(upd, prev).Success?
            && forall i :: 0 <= i < 9 ==> ApplyUpdate(upd, prev).value[i].sym == if i == 4 then "@" else "."
  {
  }

  /** Nine cells cannot be merged over twelve. */
  lemma ApplyUpdateMismatchExample(base: BaseDimensions)
    ensures var nine := seq(9, i => EmptyCell(i / 3, i % 3));
            var twelve := seq(12, i => EmptyCell(i / 4, i % 4));
            ApplyUpdate(NethackWindow(NHW_MAP, "map", nine, true, Resize(MapArea, base), base),
                        NethackWindow(NHW_MAP, "map", twelve, true, Resize(MapArea, base), base))
              == Failure(LengthMismatch(9, 12))
  {
  }

  // ---------------------------------------------------------------------------
  // `toString`, `toChunkedString`

  /** `sym.padStart(1, emptySymbol)`: the text itself unless it is empty, then
      the first character of the placeholder (nothing for an empty one). */
  function PadStart1(sym: string, emptySymbol: string): (r: string)
    ensures sym != "" ==> r == sym
    ensures sym == "" && emptySymbol != "" ==> r == [emptySymbol[0]]
    ensures sym == "" && emptySymbol == "" ==> r == ""
  {
    if |sym| >= 1 || emptySymbol == "" then sym else emptySymbol[..1]
  }

  /** The cell texts joined with nothing between them. */
  function ConcatSyms(cells: seq<WinCell>): string
  {
    if cells == [] then "" else cells[0].sym + ConcatSyms(cells[1..])
  }

  /** The padded texts of `cells`, joined: at least one character per cell
      with a placeholder, at most one per cell when no text is longer.  With
      the empty placeholder, empty cells vanish and the result is the cell
      texts joined; when no cell is empty, the placeholder plays no part. */
  function Render(cells: seq<WinCell>, emptySymbol: string): (r: string)
    ensures emptySymbol != "" ==> |r| >= |cells|
    ensures (forall c :: c in cells ==> |c.sym| <= 1) ==> |r| <= |cells|
    ensures emptySymbol == "" ==> r == ConcatSyms(cells)
    ensures (forall c :: c in cells ==> c.sym != "") ==> r == ConcatSyms(cells)
  {
    if cells == [] then ""
    else
      assert forall c :: c in cells[1..] ==> c in cells;
      PadStart1(cells[0].sym, emptySymbol) + Render(cells[1..], emptySymbol)
  }

  /** `toString(emptySymbol)`: one line; neither cell texts nor the placeholder
      without line breaks produce one.  The default empty placeholder drops
      empty cells and joins the other texts. */
  function ToString(w: NethackWindow, emptySymbol: string): (r: string)
    ensures NoLineBreaks(w.data, emptySymbol) ==> '\n' !in r
    ensures emptySymbol == "" ==> r == ConcatSyms(w.data)
  {
    if NoLineBreaks(w.data, emptySymbol) then
      RenderNoLineBreaks(w.data, emptySymbol);
      Render(w.data, emptySymbol)
    else Render(w.data, emptySymbol)
  }

  /** With one-character cells and a placeholder, the text has one character
      per cell: the cell's own, or the placeholder's first for an empty cell. */
  lemma {:induction false} RenderOneCharPerCell(cells: seq<WinCell>, emptySymbol: string)
    requires emptySymbol != ""
    requires forall c :: c in cells ==> |c.sym| <= 1
    ensures |Render(cells, emptySymbol)| == |cells|
    ensures forall i :: 0 <= i < |cells| ==>
              Render(cells, emptySymbol)[i] == if cells[i].sym != "" then cells[i].sym[0] else emptySymbol[0]
  {
    if cells != [] {
      RenderOneCharPerCell(cells[1..], emptySymbol);
      assert forall i :: 1 <= i < |cells| ==> cells[i] == cells[1..][i - 1];
    }
  }

  /** Rendering distributes over concatenation. */
  lemma {:induction false} RenderAppend(a: seq<WinCell>, b: seq<WinCell>, emptySymbol: string)
    ensures Render(a + b, emptySymbol) == Render(a, emptySymbol) + Render(b, emptySymbol)
  {
    if a != [] {
      assert (a + b)[0] == a[0];
      assert (a + b)[1..] == a[1..] + b;
      RenderAppend(a[1..], b, emptySymbol);
    } else {
      assert a + b == b;
    }
  }

  /** The rows of the text, each rendered and separated by newlines. */
  function JoinRows(rows: seq<seq<WinCell>>, emptySymbol: string): string
  {
    if rows == [] then ""
    else if |rows| == 1 then Render(rows[0], emptySymbol)
    else Render(rows[0], emptySymbol) + "\n" + JoinRows(rows[1..], emptySymbol)
  }

  /** `toChunkedString(emptySymbol)`: the grid's rows, one per line.  With a
      width of at least one and no line breaks in the cells, removing the line
      breaks gives the flat rendering of the grid. */
  function ToChunkedString(w: NethackWindow, emptySymbol: string): (r: string)
    requires w.normalized || Densifiable(w)
    ensures SanitizeDimensions(w).cols >= 1 && NoLineBreaks(GridCells(w), emptySymbol) ==>
              DropNewlines(r) == Render(GridCells(w), emptySymbol)
  {
    if SanitizeDimensions(w).cols >= 1 && NoLineBreaks(GridCells(w), emptySymbol) then
      JoinRowsFlat(ChunkedWindow(w), emptySymbol);
      JoinRows(ChunkedWindow(w), emptySymbol)
    else JoinRows(ChunkedWindow(w), emptySymbol)
  }

  /** A string with its newlines removed. */
  function DropNewlines(s: string): (r: string)
    ensures '\n' !in r
  {
    if s == "" then "" else (if s[0] == '\n' then "" else [s[0]]) + DropNewlines(s[1..])
  }

  lemma {:induction false} DropNewlinesAppend(a: string, b: string)
    ensures DropNewlines(a + b) == DropNewlines(a) + DropNewlines(b)
  {
    if a != "" {
      assert (a + b)[0] == a[0];
      assert (a + b)[1..] == a[1..] + b;
      DropNewlinesAppend(a[1..], b);
    } else {
      assert a + b == b;
    }
  }

  lemma {:induction false} DropNewlinesNone(s: string)
    requires '\n' !in s
    ensures DropNewlines(s) == s
  {
    if s != "" {
      DropNewlinesNone(s[1..]);
    }
  }

  /** No cell text and no placeholder introduces a line break. */
  predicate NoLineBreaks(cells: seq<WinCell>, emptySymbol: string)
  {
    && (forall c :: c in cells ==> '\n' !in c.sym)
    && (emptySymbol != "" ==> emptySymbol[0] != '\n')
  }

  lemma {:induction false} RenderNoLineBreaks(cells: seq<WinCell>, emptySymbol: string)
    requires NoLineBreaks(cells, emptySymbol)
    ensures '\n' !in Render(cells, emptySymbol)
  {
    if cells != [] {
      assert cells[0] in cells;
      assert NoLineBreaks(cells[1..], emptySymbol);
      RenderNoLineBreaks(cells[1..], emptySymbol);
    }
  }

  lemma NoLineBreaksSplit(a: seq<WinCell>, b: seq<WinCell>, emptySymbol: string)
    requires NoLineBreaks(a + b, emptySymbol)
    ensures NoLineBreaks(a, emptySymbol) && NoLineBreaks(b, emptySymbol)
  {
    forall c | c in a ensures '\n' !in c.sym { assert c in a + b; }
    forall c | c in b ensures '\n' !in c.sym { assert c in a + b; }
  }

  /** Removing the newlines from `text + "\n" + tail`, when `text` has none. */
  lemma {:induction false} DropNewlinesAfterLine(text: string, tail: string)
    requires '\n' !in text
    ensures DropNewlines(text + "\n" + tail) == text + DropNewlines(tail)
  {
    var nl := "\n";
    assert nl[0] == '\n' && nl[1..] == "";
    assert DropNewlines(nl) == "";
    DropNewlinesAppend(text + nl, tail);
    DropNewlinesAppend(text, nl);
    DropNewlinesNone(text);
  }

  lemma {:induction false} JoinRowsFlat(rows: seq<seq<WinCell>>, emptySymbol: string)
    requires NoLineBreaks(Flatten(rows), emptySymbol)
    ensures DropNewlines(JoinRows(rows, emptySymbol)) == Render(Flatten(rows), emptySymbol)
  {
    if rows != [] {
      var first, rest := rows[0], Flatten(rows[1..]);
      assert Flatten(rows) == first + rest;
      NoLineBreaksSplit(first, rest, emptySymbol);
      RenderAppend(first, rest, emptySymbol);
      RenderNoLineBreaks(first, emptySymbol);
      if |rows| == 1 {
        assert rest == [];
        DropNewlinesNone(Render(first, emptySymbol));
      } else {
        JoinRowsFlat(rows[1..], emptySymbol);
        DropNewlinesAfterLine(Render(first, emptySymbol), JoinRows(rows[1..], emptySymbol));
      }
    }
  }

  /** For a normalised window at least one column wide whose cells and
      placeholder contain no line break, the multi-line text and `toString`
      differ only by line breaks. */
  lemma ChunkedStringMatchesToString(w: NethackWindow, emptySymbol: string)
    requires w.normalized && SanitizeDimensions(w).cols >= 1
    requires NoLineBreaks(w.data, emptySymbol)
    ensures DropNewlines(ToChunkedString(w, emptySymbol)) == ToString(w, emptySymbol)
  {
  }
}
