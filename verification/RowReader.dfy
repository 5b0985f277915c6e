/**
 * Reading one terminal row out of the grid: row text and the per-cell table are built
 * together, cell by cell. The terminal library is an oracle over a fixed grid that may
 * fail at any call, and any allocation may fail.
 */
module RowReader {
  import opened Utf8
  import opened Memory
  import opened ByteBuffers

  datatype Wide = Narrow | WideCell | SpacerTail | SpacerHead

  /** One grid cell: its width class and the code points of its grapheme cluster. */
  datatype Cell = Cell(wide: Wide, graphemes: seq<CodePoint>)

  datatype CellInfo = CellInfo(wide: Wide, textOffset: nat, textLen: nat)

  const U32 := 0x1_0000_0000
  const SPACE: Byte := 0x20

  predicate Spacer(cell: Cell) { cell.wide == SpacerTail || cell.wide == SpacerHead }

  predicate HasContent(cell: Cell) { !Spacer(cell) && cell.graphemes != [] }

  /** A cell's own text: nothing for a spacer, whose glyph belongs to the wide cell before it. */
  function CellBytes(cell: Cell): (bytes: seq<Byte>) {
    if Spacer(cell) then [] else EncodeAll(cell.graphemes)
  }

  /** What a cell contributes to the row text: an empty cell shows as a space. */
  function Piece(cell: Cell): (bytes: seq<Byte>) {
    if Spacer(cell) then [] else if cell.graphemes == [] then [SPACE] else EncodeAll(cell.graphemes)
  }

  function Pieces(row: seq<Cell>): (bytes: seq<Byte>) {
    if row == [] then [] else Pieces(row[..|row| - 1]) + Piece(row[|row| - 1])
  }

  function CellTexts(row: seq<Cell>): (bytes: seq<Byte>) {
    if row == [] then [] else CellTexts(row[..|row| - 1]) + CellBytes(row[|row| - 1])
  }

  /** How many cells reach up to and including the last one with content. */
  function ContentCells(row: seq<Cell>): (n: nat)
    ensures n <= |row|
  {
    if row == [] then 0 else if HasContent(row[|row| - 1]) then |row| else ContentCells(row[..|row| - 1])
  }

  /** The row text: every cell's piece, cut right after the last cell with content. */
  function RowText(row: seq<Cell>): (bytes: seq<Byte>) {
    Pieces(row[..ContentCells(row)])
  }

  /** The table entry of cell `x`; offset and length are stored in 32 bits. */
  function InfoAt(row: seq<Cell>, x: nat): (info: CellInfo)
    requires x < |row|
  {
    CellInfo(row[x].wide, |CellTexts(row[..x])| % U32, |CellBytes(row[x])| % U32)
  }

  ghost predicate IsTable(table: seq<CellInfo>, row: seq<Cell>) {
    |table| == |row| && forall x :: 0 <= x < |row| ==> table[x] == InfoAt(row, x)
  }

  // ----- The library oracle -----

  datatype LibraryResult = Success | OutOfSpace | Failure

  /** A library call without a result of interest: it may fail at any time. */
  method Call(heap: Heap) returns (ok: bool)
    modifies heap`failures
    ensures heap.Answered(ok)
  {
    ok := *;
    if !ok {
      heap.failures := heap.failures + 1;
    }
  }

  /** Code points of a cell into a buffer of `cap`; too small a buffer is reported with the needed length. */
  method ReadGraphemes(heap: Heap, cell: Cell, cap: nat) returns (r: LibraryResult, count: nat, cps: seq<CodePoint>)
    modifies heap`failures
    ensures heap.Answered(r != Failure)
    ensures r == Success ==> count == |cell.graphemes| <= cap && cps == cell.graphemes
    ensures r == OutOfSpace ==> count == |cell.graphemes| > cap
  {
    count, cps := |cell.graphemes|, cell.graphemes;
    if * {
      heap.failures := heap.failures + 1;
      return Failure, count, cps;
    }
    r := if count <= cap then Success else OutOfSpace;
  }

  // ----- The row under construction -----

  predicate Apart(a: Pointer, b: Pointer) { a == NULL || a != b }

  class RowWriter {
    const text: ByteBuffer
    const cellText: ByteBuffer
    const includeCells: bool
    var cells: seq<CellInfo>
    var cellsBlock: Pointer
    /** The grapheme buffer on the heap; null while the inline one of 16 entries is in use. */
    var scratch: Pointer
    var scratchCap: nat
    var contentEnd: nat
    /** The blocks that were allocated before this row. */
    ghost const base: set<Pointer>

    ghost function Owned(): (blocks: set<Pointer>)
      reads this`cellsBlock, this`scratch, text`block, cellText`block
    {
      Block(text.block) + Block(cellText.block) + Block(cellsBlock) + Block(scratch)
    }

    ghost predicate Owns(heap: Heap)
      reads this`cellsBlock, this`scratch, text`block, cellText`block, heap`live, heap`next
    {
      && heap.Valid()
      && Apart(text.block, cellText.block) && Apart(text.block, cellsBlock) && Apart(text.block, scratch)
      && Apart(cellText.block, cellsBlock) && Apart(cellText.block, scratch) && Apart(cellsBlock, scratch)
      && base !! Owned() && heap.live == base + Owned()
    }

    ghost predicate Valid(heap: Heap)
      reads this, text, text.data, cellText, cellText.data, heap`live, heap`next
    {
      && text.Valid() && cellText.Valid() && text != cellText && text.data != cellText.data
      && Owns(heap)
      && contentEnd <= text.len
    }

    constructor (includeCells: bool, heap: Heap)
      requires heap.Valid()
      ensures Valid(heap) && this.includeCells == includeCells && base == heap.live
      ensures text.Contents() == [] && cellText.Contents() == [] && cells == []
      ensures cellsBlock == NULL && scratch == NULL && contentEnd == 0
      ensures fresh(text) && fresh(text.data) && fresh(cellText) && fresh(cellText.data)
    {
      text := new ByteBuffer();
      cellText := new ByteBuffer();
      this.includeCells := includeCells;
      cells, cellsBlock, scratch, scratchCap, contentEnd := [], NULL, NULL, 16, 0;
      base := heap.live;
    }

    /** The per-cell table, if it is wanted. */
    method AllocateTable(heap: Heap, cols: nat) returns (ok: bool)
      requires Valid(heap) && cellsBlock == NULL
      modifies heap, this`cellsBlock
      ensures Valid(heap) && heap.Answered(ok) && (ok ==> (cellsBlock != NULL <==> includeCells))
    {
      if !includeCells {
        return true;
      }
      cellsBlock := heap.Malloc(12 * if cols == 0 then 1 else cols);
      ok := cellsBlock != NULL;
    }

    /** Appends to the row text; nothing but the row text moves. */
    method AppendText(heap: Heap, cp: CodePoint) returns (ok: bool)
      requires Valid(heap)
      modifies heap, text, text.data
      ensures Valid(heap) && heap.Answered(ok)
      ensures text.Contents() == old(text.Contents()) + if ok then Encode(cp) else []
      ensures text.data == old(text.data) || fresh(text.data)
    {
      ok := text.AppendCodepoint(heap, cp);
    }

    method AppendCellText(heap: Heap, cp: CodePoint) returns (ok: bool)
      requires Valid(heap)
      modifies heap, cellText, cellText.data
      ensures Valid(heap) && heap.Answered(ok)
      ensures cellText.Contents() == old(cellText.Contents()) + if ok then Encode(cp) else []
      ensures cellText.data == old(cellText.data) || fresh(cellText.data)
    {
      ok := cellText.AppendCodepoint(heap, cp);
    }

    method AppendSpace(heap: Heap) returns (ok: bool)
      requires Valid(heap)
      modifies heap, text, text.data
      ensures Valid(heap) && heap.Answered(ok)
      ensures text.Contents() == old(text.Contents()) + if ok then [SPACE] else []
      ensures old(text.len) < old(text.data).Length ==> ok && text.data == old(text.data)
      ensures text.data == old(text.data) || fresh(text.data)
    {
      ok := text.Reserve(heap, 1);
      if ok {
        text.Write([SPACE]);
      }
    }

    method AppendBoth(heap: Heap, cp: CodePoint) returns (ok: bool)
      requires Valid(heap)
      modifies heap, text, text.data, cellText, cellText.data
      ensures Valid(heap) && heap.Answered(ok)
      ensures ok ==> text.Contents() == old(text.Contents()) + Encode(cp)
      ensures ok ==> cellText.Contents() ==
                       if includeCells then old(cellText.Contents()) + Encode(cp) else old(cellText.Contents())
      ensures text.data == old(text.data) || fresh(text.data)
      ensures cellText.data == old(cellText.data) || fresh(cellText.data)
    {
      ok := AppendText(heap, cp);
      if ok && includeCells {
        ok := AppendCellText(heap, cp);
      }
    }

    /** A whole grapheme cluster into the row text and, if the table is wanted, into the cell text. */
    method AppendGraphemes(heap: Heap, cps: seq<CodePoint>) returns (ok: bool)
      requires Valid(heap)
      modifies heap, text, text.data, cellText, cellText.data
      ensures Valid(heap) && heap.Answered(ok)
      ensures ok ==> text.Contents() == old(text.Contents()) + EncodeAll(cps)
      ensures ok ==> cellText.Contents() ==
                       if includeCells then old(cellText.Contents()) + EncodeAll(cps) else old(cellText.Contents())
      ensures text.data == old(text.data) || fresh(text.data)
      ensures cellText.data == old(cellText.data) || fresh(cellText.data)
    {
      hide Encode, EncodeAll, Valid, ByteBuffer.Contents;
      ghost var text0, cellText0 := text.Contents(), cellText.Contents();
      EncodeNone(text0);
      EncodeNone(cellText0);
      for i := 0 to |cps|
        invariant Valid(heap) && heap.failures == old(heap.failures)
        invariant text.Contents() == text0 + EncodeAll(cps[..i])
        invariant cellText.Contents() == if includeCells then cellText0 + EncodeAll(cps[..i]) else cellText0
        invariant text.data == old(text.data) || fresh(text.data)
        invariant cellText.data == old(cellText.data) || fresh(cellText.data)
      {
        EncodeOneMore(text0, cps, i);
        EncodeOneMore(cellText0, cps, i);
        ok := AppendBoth(heap, cps[i]);
        if !ok {
          return;
        }
      }
      assert cps[..|cps|] == cps;
      ok := true;
    }

    /** The grapheme buffer grows to the reported length, so a cluster is never truncated. */
    method GrowScratch(heap: Heap, count: nat) returns (ok: bool)
      requires Valid(heap)
      modifies heap, this`scratch, this`scratchCap
      ensures Valid(heap) && heap.Answered(ok) && (ok ==> scratchCap == count)
    {
      var grown := heap.Malloc(count * 4);
      if grown == NULL {
        return false;
      }
      heap.Free(scratch);
      scratch, scratchCap := grown, count;
      ok := true;
    }

    /** The library calls for one cell: any of them may fail, the first grapheme read for lack of room. */
    method FetchGraphemes(heap: Heap, cell: Cell) returns (ok: bool, cps: seq<CodePoint>)
      requires Valid(heap)
      modifies heap, this`scratch, this`scratchCap
      ensures Valid(heap) && heap.Answered(ok) && (ok ==> cps == cell.graphemes)
    {
      hide Valid;
      cps := [];
      ok := Call(heap);
      if !ok {
        return;
      }
      var r, count, found := ReadGraphemes(heap, cell, scratchCap);
      if r == OutOfSpace {
        ok := GrowScratch(heap, count);
        if !ok {
          return;
        }
        r, count, found := ReadGraphemes(heap, cell, scratchCap);
      }
      ok, cps := r == Success, found;
    }

    ghost function Value(): (w: Written)
      reads this, text, text.data, cellText, cellText.data
    {
      Written(text.Contents(), cellText.Contents(), cells, contentEnd)
    }

    /** The buffers hold exactly what the cells of `row` put there. */
    ghost predicate Wrote(row: seq<Cell>)
      reads this, text, text.data, cellText, cellText.data
    {
      Records(Value(), includeCells, row)
    }

    /** One turn of the column loop. */
    method AddCell(heap: Heap, cell: Cell, ghost row: seq<Cell>) returns (ok: bool)
      requires Valid(heap) && Wrote(row)
      modifies heap, this`scratch, this`scratchCap, this`cells, this`contentEnd, text, text.data, cellText,
               cellText.data
      ensures Valid(heap) && heap.Answered(ok) && (ok ==> Wrote(row + [cell]))
      ensures text.data == old(text.data) || fresh(text.data)
      ensures cellText.data == old(cellText.data) || fresh(cellText.data)
    {
      var cps;
      ok, cps := FetchGraphemes(heap, cell);
      if !ok {
        return;
      }
      ok := StoreCell(heap, cell, cps, row);
    }

    method StoreCell(heap: Heap, cell: Cell, cps: seq<CodePoint>, ghost row: seq<Cell>) returns (ok: bool)
      requires Valid(heap) && Wrote(row) && cps == cell.graphemes
      modifies heap, this`cells, this`contentEnd, text, text.data, cellText, cellText.data
      ensures Valid(heap) && heap.Answered(ok) && (ok ==> Wrote(row + [cell]))
      ensures text.data == old(text.data) || fresh(text.data)
      ensures cellText.data == old(cellText.data) || fresh(cellText.data)
    {
      hide Wrote, Owns;
      if Spacer(cell) {
        StoreSpacer(heap, cell, row);
        return true;
      }
      if |cps| == 0 {
        ok := StoreEmpty(heap, cell, row);
        return;
      }
      ok := StoreGlyph(heap, cell, cps, row);
    }

    method StoreSpacer(heap: Heap, cell: Cell, ghost row: seq<Cell>)
      requires Valid(heap) && Wrote(row) && Spacer(cell)
      modifies this`cells
      ensures Valid(heap) && Wrote(row + [cell])
    {
      hide Owns, Records, EncodeAll, IsCapacity;
      ghost var before := Value();
      assert |before.cellText| == cellText.len;
      assert before.text + Piece(cell) == before.text && before.cellText + CellBytes(cell) == before.cellText;
      hide ByteBuffer.Contents, Piece, CellBytes;
      Describe(cell, cellText.len % U32);
      RecordsNext(before, Value(), includeCells, row, cell);
    }

    method StoreEmpty(heap: Heap, cell: Cell, ghost row: seq<Cell>) returns (ok: bool)
      requires Valid(heap) && Wrote(row) && !Spacer(cell) && cell.graphemes == []
      modifies heap, this`cells, text, text.data
      ensures Valid(heap) && heap.Answered(ok) && (ok ==> Wrote(row + [cell]))
      ensures text.data == old(text.data) || fresh(text.data)
    {
      hide Owns, Records, IsCapacity;
      ghost var before := Value();
      Describe(cell, cellText.len % U32);
      ok := AppendSpace(heap);
      if ok {
        RecordsNext(before, Value(), includeCells, row, cell);
      }
    }

    method StoreGlyph(heap: Heap, cell: Cell, cps: seq<CodePoint>, ghost row: seq<Cell>) returns (ok: bool)
      requires Valid(heap) && Wrote(row) && cps == cell.graphemes && HasContent(cell)
      modifies heap, this`cells, this`contentEnd, text, text.data, cellText, cellText.data
      ensures Valid(heap) && heap.Answered(ok) && (ok ==> Wrote(row + [cell]))
      ensures text.data == old(text.data) || fresh(text.data)
      ensures cellText.data == old(cellText.data) || fresh(cellText.data)
    {
      hide Owns, Records, EncodeAll, IsCapacity;
      ghost var before := Value();
      var offset := cellText.len % U32;
      ok := AppendGraphemes(heap, cps);
      if !ok {
        return;
      }
      NoteGlyph(heap, cell, offset, before, row);
    }

    /** The cut moves behind the glyph just appended, and the table gets its entry. */
    method NoteGlyph(heap: Heap, cell: Cell, offset: nat, ghost before: Written, ghost row: seq<Cell>)
      requires Valid(heap) && Records(before, includeCells, row) && HasContent(cell)
      requires offset == |before.cellText| % U32
      requires text.Contents() == before.text + EncodeAll(cell.graphemes)
      requires cellText.Contents() ==
                 if includeCells then before.cellText + EncodeAll(cell.graphemes) else before.cellText
      requires cells == before.cells
      modifies this`cells, this`contentEnd
      ensures Valid(heap) && Wrote(row + [cell])
    {
      hide Owns, Records, EncodeAll, IsCapacity;
      contentEnd := text.len;
      Describe(cell, offset);
      RecordsNext(before, Value(), includeCells, row, cell);
    }

    /** The exit path of a failed read: everything the row allocated goes back. */
    method Abandon(heap: Heap)
      requires Valid(heap)
      modifies heap`live
      ensures heap.Valid() && heap.live == base
    {
      heap.Free(scratch);
      heap.Free(text.block);
      heap.Free(cellText.block);
      heap.Free(cellsBlock);
    }

    /** The table entry of the cell just written. */
    method Describe(cell: Cell, offset: nat)
      modifies this`cells
      ensures cells ==
                if includeCells then old(cells) + [CellInfo(cell.wide, offset, (cellText.len - offset) % U32)]
                else old(cells)
    {
      if includeCells {
        cells := cells + [CellInfo(cell.wide, offset, (cellText.len - offset) % U32)];
      }
    }
  }

  /** The contents of the buffers, as values. */
  datatype Written = Written(text: seq<Byte>, cellText: seq<Byte>, cells: seq<CellInfo>, contentEnd: nat)

  ghost predicate Records(w: Written, includeCells: bool, row: seq<Cell>) {
    && w.text == Pieces(row)
    && w.contentEnd == |RowText(row)|
    && (if includeCells then w.cellText == CellTexts(row) && IsTable(w.cells, row)
        else w.cellText == [] && w.cells == [])
  }

  lemma RecordsNext(w: Written, w': Written, includeCells: bool, row: seq<Cell>, cell: Cell)
    requires Records(w, includeCells, row)
    requires w'.text == w.text + Piece(cell)
    requires w'.cellText == if includeCells then w.cellText + CellBytes(cell) else w.cellText
    requires w'.cells ==
               if !includeCells then w.cells
               else w.cells + [CellInfo(cell.wide, |w.cellText| % U32, (|w'.cellText| - |w.cellText| % U32) % U32)]
    requires w'.contentEnd == if HasContent(cell) then |w'.text| else w.contentEnd
    ensures Records(w', includeCells, row + [cell])
  {
    hide Piece, CellBytes, IsTable, RowText, Pieces, CellTexts;
    OneMoreCell(row, cell);
    if includeCells {
      OffsetDifference(|CellTexts(row)|, |CellBytes(cell)|);
      OneMoreInfo(w.cells, row, cell, w'.cells[|w.cells|]);
    }
  }

  /** A length is exact modulo 2^32 even when it is computed from a truncated offset. */
  lemma OffsetDifference(start: nat, length: nat)
    ensures (start + length - start % U32) % U32 == length % U32
  {
    assert start == start / U32 * U32 + start % U32;
    assert start + length - start % U32 == length + start / U32 * U32;
  }

  /** What one more cell adds to each part of the row's specification. */
  lemma {:induction false} OneMoreCell(row: seq<Cell>, cell: Cell)
    ensures Pieces(row + [cell]) == Pieces(row) + Piece(cell)
    ensures CellTexts(row + [cell]) == CellTexts(row) + CellBytes(cell)
    ensures RowText(row + [cell]) == if HasContent(cell) then Pieces(row) + Piece(cell) else RowText(row)
  {
    var longer := row + [cell];
    assert longer[..|longer| - 1] == row;
    if HasContent(cell) {
      assert longer[..|longer|] == longer;
    } else {
      assert longer[..ContentCells(row)] == row[..ContentCells(row)];
    }
  }

  lemma {:induction false} OneMoreInfo(table: seq<CellInfo>, row: seq<Cell>, cell: Cell, info: CellInfo)
    requires IsTable(table, row)
    requires info == CellInfo(cell.wide, |CellTexts(row)| % U32, |CellBytes(cell)| % U32)
    ensures IsTable(table + [info], row + [cell])
  {
    var longer := row + [cell];
    forall x | 0 <= x < |longer|
      ensures (table + [info])[x] == InfoAt(longer, x)
    {
      if x < |row| {
        assert longer[..x] == row[..x];
      } else {
        assert longer[..x] == row;
      }
    }
  }

  lemma EncodeNone(before: seq<Byte>)
    ensures before + EncodeAll([]) == before
  {
  }

  lemma EncodeOneMore(before: seq<Byte>, cps: seq<CodePoint>, i: nat)
    requires i < |cps|
    ensures before + EncodeAll(cps[..i]) + Encode(cps[i]) == before + EncodeAll(cps[..i + 1])
  {
    hide Encode;
    assert cps[..i + 1][..i] == cps[..i];
  }

  // ----- Reading a row -----

  /** A row of the grid as the library knows it. */
  datatype GridRow = GridRow(cells: seq<Cell>, wrapped: bool, wrapContinuation: bool)

  /** One row copied out of the terminal, with the blocks it owns. */
  datatype RowData = RowData(
    row: nat, wrapped: bool, wrapContinuation: bool,
    text: seq<Byte>, textBlock: Pointer, cells: seq<CellInfo>, cellsBlock: Pointer,
    cellText: seq<Byte>, cellTextBlock: Pointer)

  /** The columns of a grid row that a read of `cols` columns covers; a shorter row is read as it is. */
  function Clipped(source: GridRow, cols: nat): (r: GridRow) {
    if cols <= |source.cells| then source.(cells := source.cells[..cols]) else source
  }

  const NO_ROW := RowData(0, false, false, [], NULL, [], NULL, [], NULL)

  function RowBlocks(r: RowData): (blocks: set<Pointer>) {
    Block(r.textBlock) + Block(r.cellsBlock) + Block(r.cellTextBlock)
  }

  predicate RowApart(r: RowData) {
    Apart(r.textBlock, r.cellsBlock) && Apart(r.textBlock, r.cellTextBlock) && Apart(r.cellsBlock, r.cellTextBlock)
  }

  /** The copy says what the grid row says. */
  ghost predicate Copies(r: RowData, y: nat, source: GridRow, includeCells: bool) {
    && r.row == y && r.wrapped == source.wrapped && r.wrapContinuation == source.wrapContinuation
    && r.text == RowText(source.cells)
    && (if includeCells then r.cellText == CellTexts(source.cells) && IsTable(r.cells, source.cells)
        else r.cellText == [] && r.cells == [])
  }

  lemma {:induction false} RowTextIsPrefix(row: seq<Cell>)
    ensures |RowText(row)| <= |Pieces(row)| && Pieces(row)[..|RowText(row)|] == RowText(row)
    decreases |row|
  {
    if row == [] {
    } else {
      var n := |row| - 1;
      if HasContent(row[n]) {
        assert row[..|row|] == row;
      } else {
        RowTextIsPrefix(row[..n]);
        assert row[..n][..ContentCells(row[..n])] == row[..ContentCells(row)];
      }
    }
  }

  /**
   * Reads `cols` columns of row `y`; a column the row does not have fails the read. On
   * success the row owns exactly the blocks that are new on the heap; on failure,
   * wherever it happens, the heap is as it was. The read succeeds if and only if no call
   * under it failed and the row has the columns.
   */
  method ReadRow(heap: Heap, y: nat, source: GridRow, cols: nat, includeCells: bool) returns (ok: bool, out: RowData)
    requires heap.Valid()
    modifies heap
    ensures heap.Valid() && heap.failures >= old(heap.failures)
    ensures ok <==> heap.failures == old(heap.failures) && cols <= |source.cells|
    ensures !ok ==> heap.live == old(heap.live) && (out.row == 0 || out.row == y)
    ensures !ok ==> out == RowData(out.row, false, false, [], NULL, [], NULL, [], NULL)
    ensures ok ==> (out.cellsBlock != NULL <==> includeCells)
    ensures ok ==> RowApart(out) && RowBlocks(out) !! old(heap.live) && heap.live == old(heap.live) + RowBlocks(out)
    ensures ok ==> Copies(out, y, Clipped(source, cols), includeCells)
  {
    hide Copies, IsCapacity, CellBytes, Piece;
    out := NO_ROW.(row := y);
    ok := Call(heap);
    if !ok {
      return;
    }
    out := NO_ROW;
    var writer := new RowWriter(includeCells, heap);
    ok := writer.AllocateTable(heap, cols);
    if ok {
      ok := ReadCells(heap, writer, source.cells, cols);
    }
    if !ok {
      writer.Abandon(heap);
      return;
    }
    out := Finish(heap, writer, y, Clipped(source, cols));
  }

  method ReadCells(heap: Heap, writer: RowWriter, row: seq<Cell>, cols: nat) returns (ok: bool)
    requires writer.Valid(heap) && writer.Wrote([])
    modifies heap, writer`scratch, writer`scratchCap, writer`cells, writer`contentEnd,
             writer.text, writer.text.data, writer.cellText, writer.cellText.data
    ensures writer.Valid(heap) && heap.failures >= old(heap.failures)
    ensures ok <==> heap.failures == old(heap.failures) && cols <= |row|
    ensures ok ==> writer.Wrote(row[..cols])
    ensures writer.text.data == old(writer.text.data) || fresh(writer.text.data)
    ensures writer.cellText.data == old(writer.cellText.data) || fresh(writer.cellText.data)
  {
    hide RowWriter.Valid, RowWriter.Wrote;
    assert row[..0] == [];
    for x := 0 to cols
      invariant writer.Valid(heap) && x <= |row| && writer.Wrote(row[..x]) && heap.failures == old(heap.failures)
      invariant writer.text.data == old(writer.text.data) || fresh(writer.text.data)
      invariant writer.cellText.data == old(writer.cellText.data) || fresh(writer.cellText.data)
    {
      if x >= |row| {
        return false;
      }
      ok := writer.AddCell(heap, row[x], row[..x]);
      if !ok {
        return;
      }
      assert row[..x] + [row[x]] == row[..x + 1];
    }
    ok := true;
  }

  /** The success path: the grapheme buffer is freed and the other blocks change owner. */
  method Finish(heap: Heap, writer: RowWriter, y: nat, source: GridRow) returns (out: RowData)
    requires writer.Valid(heap) && writer.Wrote(source.cells)
    modifies heap`live
    ensures heap.Valid() && RowApart(out) && RowBlocks(out) !! writer.base && heap.live == writer.base + RowBlocks(out)
    ensures Copies(out, y, source, writer.includeCells) && out.cellsBlock == writer.cellsBlock
  {
    hide IsTable, Pieces, RowText, CellTexts;
    RowTextIsPrefix(source.cells);
    heap.Free(writer.scratch);
    out := RowData(y, source.wrapped, source.wrapContinuation,
                   writer.text.data[..writer.contentEnd], writer.text.block, writer.cells, writer.cellsBlock,
                   writer.cellText.data[..writer.cellText.len], writer.cellText.block);
    assert out.text == writer.text.Contents()[..writer.contentEnd];
  }
}
