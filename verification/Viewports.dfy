/** Reading a whole viewport, and giving its memory back. */
module Viewports {
  import opened Basics
  import opened Utf8
  import opened Memory
  import opened RowReader
  import opened RowLaws

  datatype RowsMode = NoRows | CursorRow | AllRows

  /** What the library reports about the terminal besides its grid. */
  datatype Info = Info(
    revision: nat, cols: nat, rows: nat, cursorCol: nat, cursorRow: nat,
    pendingWrap: bool, cursorVisible: bool, alternateScreen: bool,
    scrollTotal: nat, scrollOffset: nat, scrollLen: nat)

  datatype Terminal = Terminal(info: Info, grid: seq<GridRow>)

  /** A viewport and the blocks it owns; `lines` are the rows counted so far. */
  datatype Viewport = Viewport(block: Pointer, info: Info, linesBlock: Pointer, lines: seq<RowData>)

  function LinesBlocks(lines: seq<RowData>): (blocks: set<Pointer>) {
    if lines == [] then {} else LinesBlocks(lines[..|lines| - 1]) + RowBlocks(lines[|lines| - 1])
  }

  function ViewportBlocks(v: Viewport): (blocks: set<Pointer>) {
    Block(v.block) + Block(v.linesBlock) + LinesBlocks(v.lines)
  }

  /** No two rows, and no two pointers of a row, share a block. */
  predicate LinesApart(lines: seq<RowData>) {
    lines == [] ||
    (&& LinesApart(lines[..|lines| - 1]) && RowApart(lines[|lines| - 1])
     && LinesBlocks(lines[..|lines| - 1]) !! RowBlocks(lines[|lines| - 1]))
  }

  predicate ViewportApart(v: Viewport) {
    && LinesApart(v.lines) && Apart(v.block, v.linesBlock)
    && LinesBlocks(v.lines) !! Block(v.block) + Block(v.linesBlock)
    && (v.linesBlock == NULL ==> v.lines == [])
  }

  method ReleaseRow(heap: Heap, r: RowData)
    requires heap.Valid() && RowApart(r) && RowBlocks(r) <= heap.live
    modifies heap`live
    ensures heap.Valid() && heap.live == old(heap.live) - RowBlocks(r)
  {
    heap.Free(r.textBlock);
    heap.Free(r.cellsBlock);
    heap.Free(r.cellTextBlock);
  }

  /** Frees every block of the viewport, each of which is allocated when it is freed. */
  method FreeViewport(heap: Heap, v: Viewport)
    requires heap.Valid() && ViewportApart(v) && ViewportBlocks(v) <= heap.live
    modifies heap`live
    ensures heap.Valid() && heap.live == old(heap.live) - ViewportBlocks(v)
  {
    if v.linesBlock != NULL {
      FreeLines(heap, v.lines);
      heap.Free(v.linesBlock);
    }
    heap.Free(v.block);
  }

  method FreeLines(heap: Heap, lines: seq<RowData>)
    requires heap.Valid() && LinesApart(lines) && LinesBlocks(lines) <= heap.live
    modifies heap`live
    ensures heap.Valid() && heap.live == old(heap.live) - LinesBlocks(lines)
  {
    for i := 0 to |lines|
      invariant heap.Valid() && heap.live == old(heap.live) - LinesBlocks(lines[..i])
    {
      RowAmongLines(lines, i);
      ReleaseRow(heap, lines[i]);
    }
    assert lines[..|lines|] == lines;
  }

  /** Row `i` is apart from the rows before it, and its blocks are among the viewport's. */
  lemma {:induction false} RowAmongLines(lines: seq<RowData>, i: nat)
    requires LinesApart(lines) && i < |lines|
    ensures RowApart(lines[i]) && LinesBlocks(lines[..i]) !! RowBlocks(lines[i])
            && RowBlocks(lines[i]) <= LinesBlocks(lines)
    ensures LinesBlocks(lines[..i + 1]) == LinesBlocks(lines[..i]) + RowBlocks(lines[i])
    decreases |lines|
  {
    var n := |lines| - 1;
    assert lines[..i + 1][..i] == lines[..i];
    if i == n {
    } else {
      RowAmongLines(lines[..n], i);
      assert lines[..n][..i] == lines[..i] && lines[..n][..i + 1] == lines[..i + 1];
    }
  }

  /** The rows a request reads: none, the cursor's, or all. */
  function FirstRow(mode: RowsMode, info: Info): (first: nat) { if mode == AllRows then 0 else info.cursorRow }

  function RowCount(mode: RowsMode, info: Info): (count: nat) {
    match mode
    case NoRows => 0
    case CursorRow => 1
    case AllRows => info.rows
  }

  /** The terminal has a row `y` of full width. */
  predicate HasRow(t: Terminal, y: nat) { y < |t.grid| && t.info.cols <= |t.grid[y].cells| }

  /** The terminal has the `count` rows from `first` on, in full width. */
  ghost predicate HasRows(t: Terminal, first: nat, count: nat) {
    forall y :: first <= y < first + count ==> HasRow(t, y)
  }

  /** The rows a request asks for: none, the cursor's, or all. */
  ghost predicate HasRequested(t: Terminal, mode: RowsMode) {
    match mode
    case NoRows => true
    case CursorRow => HasRow(t, t.info.cursorRow)
    case AllRows => forall y :: 0 <= y < t.info.rows ==> HasRow(t, y)
  }

  lemma RequestedRows(t: Terminal, mode: RowsMode)
    ensures HasRows(t, FirstRow(mode, t.info), RowCount(mode, t.info)) <==> HasRequested(t, mode)
  {
    hide HasRow;
  }

  /** The lines copy consecutive rows, the first of them row `first`. */
  ghost predicate CopyRows(lines: seq<RowData>, t: Terminal, first: nat, includeCells: bool) {
    forall i :: 0 <= i < |lines| ==> CopiesRow(lines[i], first + i, t, includeCells)
  }

  ghost predicate CopiesRow(line: RowData, y: nat, t: Terminal, includeCells: bool) {
    HasRow(t, y) && Copies(line, y, Clipped(t.grid[y], t.info.cols), includeCells)
  }

  /** No lines: nothing owned, nothing shared, nothing to copy. */
  lemma NoLines(t: Terminal, first: nat, includeCells: bool)
    ensures LinesApart([]) && LinesBlocks([]) == {} && CopyRows([], t, first, includeCells)
  {
  }

  /**
   * Reads the viewport. On success it owns exactly the blocks that are new on the heap,
   * carries what the library reports, and its lines copy the requested rows; on failure,
   * at whatever call, nothing is left allocated. It succeeds if and only if no call under
   * it failed and the terminal has the requested rows.
   */
  method GetViewport(heap: Heap, t: Terminal, mode: RowsMode, includeCells: bool) returns (r: Option<Viewport>)
    requires heap.Valid()
    modifies heap
    ensures heap.Valid() && heap.failures >= old(heap.failures)
    ensures r.Some? <==> heap.failures == old(heap.failures) && HasRequested(t, mode)
    ensures r.None? ==> heap.live == old(heap.live)
    ensures r.Some? ==> ViewportApart(r.value) && ViewportBlocks(r.value) !! old(heap.live)
    ensures r.Some? ==> heap.live == old(heap.live) + ViewportBlocks(r.value)
    ensures r.Some? ==> r.value.info == t.info && |r.value.lines| == RowCount(mode, t.info)
    ensures r.Some? ==> CopyRows(r.value.lines, t, FirstRow(mode, t.info), includeCells)
    ensures r.Some? && mode == CursorRow ==> |r.value.lines| == 1 && r.value.lines[0].row == t.info.cursorRow
    ensures r.Some? && mode == AllRows ==>
              |r.value.lines| == t.info.rows && forall y :: 0 <= y < t.info.rows ==> r.value.lines[y].row == y
  {
    hide Copies, RowApart, RowBlocks, LinesApart, LinesBlocks, CopyRows, HasRows;
    RequestedRows(t, mode);
    NoLines(t, FirstRow(mode, t.info), includeCells);
    var block := heap.Malloc(96);
    if block == NULL {
      return None;
    }
    var v := Viewport(block, t.info, NULL, []);
    var ok := Call(heap);
    if ok && mode != NoRows {
      v, ok := GetLines(heap, block, t, FirstRow(mode, t.info), RowCount(mode, t.info), includeCells);
    }
    if !ok {
      FreeViewport(heap, v);
      return None;
    }
    RowNumbers(v.lines, t, FirstRow(mode, t.info), includeCells);
    r := Some(v);
  }

  lemma RowNumbers(lines: seq<RowData>, t: Terminal, first: nat, includeCells: bool)
    requires CopyRows(lines, t, first, includeCells)
    ensures forall i :: 0 <= i < |lines| ==> lines[i].row == first + i
  {
    hide RowText, CellTexts, IsTable;
  }

  /** The row loop, up to the first failure; what was read so far stays owned by the viewport. */
  method GetLines(heap: Heap, block: Pointer, t: Terminal, first: nat, count: nat, includeCells: bool)
    returns (v: Viewport, ok: bool)
    requires heap.Valid() && block in heap.live
    modifies heap
    ensures heap.Valid() && v.block == block && v.info == t.info && ViewportApart(v)
    ensures ViewportBlocks(v) !! old(heap.live) - {block} && heap.live == old(heap.live) - {block} + ViewportBlocks(v)
    ensures heap.failures >= old(heap.failures)
    ensures ok <==> heap.failures == old(heap.failures) && HasRows(t, first, count)
    ensures ok ==> |v.lines| == count && CopyRows(v.lines, t, first, includeCells)
  {
    hide Copies, RowApart, RowBlocks, LinesApart, LinesBlocks, CopyRows, Clipped;
    NoLines(t, first, includeCells);
    var linesBlock := heap.Malloc(count * 80);
    v := Viewport(block, t.info, linesBlock, []);
    if linesBlock == NULL {
      return v, false;
    }
    ghost var base := old(heap.live) - {block};
    for i := 0 to count
      invariant heap.Valid() && v.block == block && v.info == t.info && v.linesBlock == linesBlock && |v.lines| == i
      invariant ViewportApart(v) && ViewportBlocks(v) !! base && heap.live == base + ViewportBlocks(v)
      invariant CopyRows(v.lines, t, first, includeCells)
      invariant heap.failures == old(heap.failures) && HasRows(t, first, i)
    {
      assert HasRows(t, first, count) ==> HasRow(t, first + i);
      if first + i >= |t.grid| {
        return v, false;
      }
      var read, line := ReadRow(heap, first + i, t.grid[first + i], t.info.cols, includeCells);
      if !read {
        return v, false;
      }
      AppendLine(v, line);
      CopyOneMore(v.lines, line, t, first, includeCells);
      v := v.(lines := v.lines + [line]);
    }
    ok := true;
  }

  /** One more copied row. */
  lemma CopyOneMore(lines: seq<RowData>, line: RowData, t: Terminal, first: nat, includeCells: bool)
    requires CopyRows(lines, t, first, includeCells)
    requires CopiesRow(line, first + |lines|, t, includeCells)
    ensures CopyRows(lines + [line], t, first, includeCells)
  {
    hide CopiesRow;
  }

  /** A freshly read row joins the viewport without sharing a block with it. */
  lemma AppendLine(v: Viewport, line: RowData)
    requires ViewportApart(v) && v.linesBlock != NULL && RowApart(line) && RowBlocks(line) !! ViewportBlocks(v)
    ensures var w := v.(lines := v.lines + [line]);
            ViewportApart(w) && ViewportBlocks(w) == ViewportBlocks(v) + RowBlocks(line)
  {
    hide RowApart, RowBlocks;
    assert (v.lines + [line])[..|v.lines|] == v.lines;
  }

  // ----- The caller -----

  const MAX_SAFE_INTEGER := 0x1F_FFFF_FFFF_FFFF

  /** The scrollbar fits the terminal, so that the origins derived from it are row numbers. */
  predicate Consistent(info: Info) {
    && info.scrollTotal <= MAX_SAFE_INTEGER && info.revision <= MAX_SAFE_INTEGER
    && info.rows <= info.scrollTotal && info.scrollLen == info.rows
    && info.scrollOffset <= info.scrollTotal - info.scrollLen
  }

  /** What JavaScript gets of a cell, of a row and of the viewport. */
  datatype CellObject = CellObject(text: seq<Byte>, wide: Wide)

  datatype LineObject = LineObject(
    row: nat, text: seq<Byte>, wrapped: bool, wrapContinuation: bool, cells: seq<CellObject>)

  datatype Snapshot = Snapshot(
    info: Info, scrollbackRows: nat, activeOriginRow: nat, scrollbackOffset: nat, cursorViewportRow: Option<nat>,
    lines: seq<LineObject>)

  function Slice(info: CellInfo, cellText: seq<Byte>): (text: seq<Byte>)
    requires End(info) <= |cellText|
  {
    if info.textLen == 0 then [] else cellText[info.textOffset..End(info)]
  }

  predicate SlicesInside(r: RowData) {
    forall x :: 0 <= x < |r.cells| ==> End(r.cells[x]) <= |r.cellText|
  }

  function ToLine(r: RowData): (line: LineObject)
    requires SlicesInside(r)
  {
    var cells := seq(|r.cells|, x requires 0 <= x < |r.cells| =>
                       CellObject(Slice(r.cells[x], r.cellText), r.cells[x].wide));
    LineObject(r.row, r.text, r.wrapped, r.wrapContinuation, cells)
  }

  /**
   * The line says what row `y` of the terminal says; with cells, each cell has its own
   * text and width class, as long as the cell text can be addressed in 32 bits.
   */
  ghost predicate IsLineOf(line: LineObject, y: nat, t: Terminal, includeCells: bool) {
    HasRow(t, y) &&
    var source := t.grid[y];
    var cells := source.cells[..t.info.cols];
    && line.row == y && line.text == RowText(cells)
    && line.wrapped == source.wrapped && line.wrapContinuation == source.wrapContinuation
    && |line.cells| == (if includeCells then |cells| else 0)
    && forall x :: 0 <= x < |line.cells| ==> IsCellOf(line.cells[x], cells, x)
  }

  ghost predicate IsCellOf(cell: CellObject, cells: seq<Cell>, x: nat) {
    x < |cells| && cell.wide == cells[x].wide && (Fits(cells) ==> cell.text == CellBytes(cells[x]))
  }

  /** Truncated or not, no slice reaches beyond the cell text. */
  lemma {:induction false} TableStaysInside(row: seq<Cell>, table: seq<CellInfo>, x: nat)
    requires IsTable(table, row) && x < |row|
    ensures |table| == |row| && End(table[x]) <= |CellTexts(row)|
  {
    hide CellTexts, CellBytes;
    CellTextsStep(row, x);
    CellTextsPrefix(row, x + 1);
    assert table[x] == InfoAt(row, x);
  }

  lemma CopyStaysInside(line: RowData, y: nat, t: Terminal, includeCells: bool)
    requires CopiesRow(line, y, t, includeCells)
    ensures SlicesInside(line)
  {
    hide CellTexts, RowText;
    var row := t.grid[y].cells[..t.info.cols];
    forall x | 0 <= x < |line.cells|
      ensures End(line.cells[x]) <= |line.cellText|
    {
      TableStaysInside(row, line.cells, x);
    }
  }

  lemma {:induction false} CellIsCopied(row: seq<Cell>, table: seq<CellInfo>, x: nat)
    requires IsTable(table, row) && x < |row|
    ensures |table| == |row| && End(table[x]) <= |CellTexts(row)|
    ensures IsCellOf(CellObject(Slice(table[x], CellTexts(row)), table[x].wide), row, x)
  {
    TableStaysInside(row, table, x);
    assert table[x] == InfoAt(row, x);
    if Fits(row) {
      SliceIsCellText(row, table, x);
    }
    hide CellTexts, CellBytes, Fits;
  }

  lemma LineIsCopied(line: RowData, y: nat, t: Terminal, includeCells: bool)
    requires CopiesRow(line, y, t, includeCells)
    ensures SlicesInside(line) && IsLineOf(ToLine(line), y, t, includeCells)
  {
    hide CellTexts, RowText, Fits, Slice, IsCellOf;
    CopyStaysInside(line, y, t, includeCells);
    var row := t.grid[y].cells[..t.info.cols];
    forall x | 0 <= x < |line.cells|
      ensures IsCellOf(ToLine(line).cells[x], row, x)
    {
      CellIsCopied(row, line.cells, x);
    }
  }

  lemma LinesAreCopied(lines: seq<RowData>, t: Terminal, first: nat, includeCells: bool)
    requires CopyRows(lines, t, first, includeCells)
    ensures forall i :: 0 <= i < |lines| ==>
            SlicesInside(lines[i]) && IsLineOf(ToLine(lines[i]), first + i, t, includeCells)
  {
    hide CopiesRow, SlicesInside, IsLineOf;
    forall i | 0 <= i < |lines|
      ensures SlicesInside(lines[i]) && IsLineOf(ToLine(lines[i]), first + i, t, includeCells)
    {
      LineIsCopied(lines[i], first + i, t, includeCells);
    }
  }

  /**
   * The caller's whole use of a viewport: read it, reject an inconsistent scrollbar, copy
   * out, free. Whatever happened on the way, the heap ends as it began; no subtraction
   * goes below zero; and the cursor has a viewport row exactly if it is in view. It
   * succeeds if and only if no call under it failed, the terminal has the requested rows,
   * and the scrollbar fits the terminal.
   */
  method ReadSnapshot(heap: Heap, t: Terminal, mode: RowsMode, includeCells: bool) returns (r: Result<Snapshot>)
    requires heap.Valid()
    modifies heap
    ensures heap.Valid() && heap.live == old(heap.live) && heap.failures >= old(heap.failures)
    ensures r.Ok? <==>
              && heap.failures == old(heap.failures) && HasRequested(t, mode)
              && t.info.scrollTotal <= 9007199254740991 && t.info.revision <= 9007199254740991
              && t.info.scrollLen == t.info.rows && t.info.rows + t.info.scrollOffset <= t.info.scrollTotal
    ensures r.Ok? ==> r.value.info == t.info
    ensures r.Ok? ==> r.value.activeOriginRow + t.info.rows == t.info.scrollTotal
    ensures r.Ok? ==> r.value.scrollbackRows == r.value.activeOriginRow
    ensures r.Ok? ==> r.value.activeOriginRow == t.info.scrollOffset + r.value.scrollbackOffset
    ensures r.Ok? ==> forall y :: r.value.cursorViewportRow == Some(y) <==>
              y < t.info.rows && t.info.scrollOffset + y == r.value.activeOriginRow + t.info.cursorRow
    ensures r.Ok? ==> |r.value.lines| == RowCount(mode, t.info)
    ensures r.Ok? ==> forall i :: 0 <= i < |r.value.lines| ==>
              IsLineOf(r.value.lines[i], FirstRow(mode, t.info) + i, t, includeCells)
  {
    hide ViewportApart, ViewportBlocks, IsLineOf, SlicesInside, ToLine, CopyRows;
    var read := GetViewport(heap, t, mode, includeCells);
    if read.None? {
      return Thrown;
    }
    var info, lines := read.value.info, read.value.lines;
    if !Consistent(info) {
      FreeViewport(heap, read.value);
      return Thrown;
    }
    var origin := info.scrollTotal - info.rows;
    var cursor := origin + info.cursorRow;
    var inView := if cursor >= info.scrollOffset && cursor - info.scrollOffset < info.rows
                  then Some(cursor - info.scrollOffset) else None;
    LinesAreCopied(lines, t, FirstRow(mode, t.info), includeCells);
    var objects := seq(|lines|, i requires 0 <= i < |lines| && SlicesInside(lines[i]) => ToLine(lines[i]));
    FreeViewport(heap, read.value);
    r := Ok(Snapshot(info, info.scrollTotal - info.scrollLen, origin, origin - info.scrollOffset, inView, objects));
  }
}
