/** What the copied row says: the row text, the per-cell slices, and how the two agree. */
module RowLaws {
  import opened Basics
  import opened Utf8
  import opened RowReader

  // ----- The row text -----

  /** The code points a row shows: a space for an empty cell, nothing for a spacer. */
  function Shown(row: seq<Cell>): (cps: seq<CodePoint>) {
    if row == [] then []
    else
      var cell := row[|row| - 1];
      Shown(row[..|row| - 1]) +
      if cell.wide == SpacerTail || cell.wide == SpacerHead then []
      else if cell.graphemes == [] then [0x20]
      else cell.graphemes
  }

  predicate HasGlyph(cell: Cell) { (cell.wide == Narrow || cell.wide == WideCell) && cell.graphemes != [] }

  lemma {:induction false} PiecesEncodeShown(row: seq<Cell>)
    ensures Pieces(row) == EncodeAll(Shown(row))
    decreases |row|
  {
    hide Encode;
    if row == [] {
    } else {
      var n := |row| - 1;
      var cell := row[n];
      PiecesEncodeShown(row[..n]);
      var last := if Spacer(cell) then [] else if cell.graphemes == [] then [0x20] else cell.graphemes;
      EncodeAllConcat(Shown(row[..n]), last);
      SpaceEncodes();
    }
  }

  lemma SpaceEncodes()
    ensures EncodeAll([0x20]) == [SPACE]
  {
    assert [0x20 as CodePoint][..0] == [];
    assert Encode(0x20) == [0x20];
  }

  /** The row text is well-formed UTF-8 and decodes to what the row shows, up to its last cell with content. */
  lemma {:induction false} RowTextDecodes(row: seq<Cell>)
    ensures Decode(RowText(row)) == Some(SanitizeAll(Shown(row[..ContentCells(row)])))
  {
    hide Encode, Decode, Pieces, Shown;
    PiecesEncodeShown(row[..ContentCells(row)]);
    EncodedTextDecodes(Shown(row[..ContentCells(row)]));
  }

  /** The cut is exact: the last kept cell has content, and no cut one does. */
  lemma {:induction false} CutAfterLastContent(row: seq<Cell>)
    ensures var n := ContentCells(row);
            && (n > 0 ==> HasGlyph(row[n - 1]))
            && (forall x :: n <= x < |row| ==> !HasGlyph(row[x]))
    decreases |row|
  {
    if row == [] || HasContent(row[|row| - 1]) {
    } else {
      CutAfterLastContent(row[..|row| - 1]);
    }
  }

  // ----- The per-cell table -----

  /** The slices of the table cover the cell text in order, without gaps or overlaps. */
  predicate Tiles(table: seq<CellInfo>, size: nat) {
    && (table == [] ==> size == 0)
    && (table != [] ==> table[0].textOffset == 0 && End(table[|table| - 1]) == size)
    && (forall x :: 0 <= x < |table| - 1 ==> Meet(table[x], table[x + 1]))
  }

  function End(info: CellInfo): (n: nat) { info.textOffset + info.textLen }

  predicate Meet(a: CellInfo, b: CellInfo) { End(a) == b.textOffset }

  /** Every offset and every length fits in the 32 bits the table gives it. */
  ghost predicate Fits(row: seq<Cell>) {
    forall x :: 0 <= x < |row| ==> |CellTexts(row[..x])| < 0x1_0000_0000 && |CellBytes(row[x])| < 0x1_0000_0000
  }

  lemma CellTextsStep(row: seq<Cell>, x: nat)
    requires x < |row|
    ensures CellTexts(row[..x + 1]) == CellTexts(row[..x]) + CellBytes(row[x])
  {
    assert row[..x + 1][..x] == row[..x];
  }

  /** An entry that fits is stored exactly. */
  lemma FittingEntry(row: seq<Cell>, table: seq<CellInfo>, x: nat)
    requires IsTable(table, row) && Fits(row) && x < |row|
    ensures |table| == |row| && table[x].textOffset == |CellTexts(row[..x])| && table[x].textLen == |CellBytes(row[x])|
    ensures End(table[x]) == |CellTexts(row[..x + 1])|
  {
    hide CellBytes;
    CellTextsStep(row, x);
    hide CellTexts;
    assert table[x] == InfoAt(row, x);
  }

  /** The first slice starts at the beginning and the last one ends at the end. */
  lemma {:induction false} FittingEnds(row: seq<Cell>, table: seq<CellInfo>)
    requires IsTable(table, row) && Fits(row) && row != []
    ensures |table| == |row| && table[0].textOffset == 0 && End(table[|row| - 1]) == |CellTexts(row)|
  {
    hide IsTable, Fits, CellBytes;
    assert row[..0] == [] && CellTexts(row[..0]) == [];
    hide CellTexts;
    assert row[..|row| - 1 + 1] == row;
    FittingEntry(row, table, 0);
    FittingEntry(row, table, |row| - 1);
  }

  lemma {:induction false} FittingTableTiles(row: seq<Cell>, table: seq<CellInfo>)
    requires IsTable(table, row) && Fits(row)
    ensures Tiles(table, |CellTexts(row)|)
  {
    IsTableLength(table, row);
    hide IsTable, Fits, CellBytes;
    if row == [] {
      assert CellTexts(row) == [];
    } else {
      hide CellTexts;
      FittingEnds(row, table);
      forall x | 0 <= x < |table| - 1
        ensures Meet(table[x], table[x + 1])
      {
        FittingEntry(row, table, x);
        FittingEntry(row, table, x + 1);
      }
    }
  }

  lemma EntryBound(row: seq<Cell>, table: seq<CellInfo>, x: nat)
    requires IsTable(table, row) && x < |row|
    ensures table[x].textLen <= |CellBytes(row[x])|
    ensures table[x].textLen == |CellBytes(row[x])| ==> |CellBytes(row[x])| < 0x1_0000_0000
    ensures table[x].textOffset == |CellTexts(row[..x])| ==> |CellTexts(row[..x])| < 0x1_0000_0000
  {
    hide CellBytes, CellTexts;
    assert table[x] == InfoAt(row, x);
  }

  /** Truncation only ever loses bytes, and never gives them back. */
  lemma {:induction false} OffsetsNeverExceed(row: seq<Cell>, table: seq<CellInfo>, x: nat)
    requires IsTable(table, row) && Tiles(table, |CellTexts(row)|) && x < |row|
    ensures table[x].textOffset <= |CellTexts(row[..x])|
    decreases x
  {
    hide CellBytes, CellTexts, IsTable;
    if x > 0 {
      OffsetsNeverExceed(row, table, x - 1);
      IsTableLength(table, row);
      EntryBound(row, table, x - 1);
      CellTextsStep(row, x - 1);
      assert Meet(table[x - 1], table[x - 1 + 1]);
    } else {
      IsTableLength(table, row);
    }
  }

  lemma IsTableLength(table: seq<CellInfo>, row: seq<Cell>)
    requires IsTable(table, row)
    ensures |table| == |row|
  {
  }

  /** From the end backwards: if the slices reach the end, no slice lost anything. */
  lemma {:induction false} ReachingTheEndIsExact(row: seq<Cell>, table: seq<CellInfo>, x: nat)
    requires IsTable(table, row) && Tiles(table, |CellTexts(row)|) && x < |row|
    ensures table[x].textOffset == |CellTexts(row[..x])| && table[x].textLen == |CellBytes(row[x])|
    decreases |row| - x
  {
    hide CellBytes, CellTexts, IsTable;
    IsTableLength(table, row);
    OffsetsNeverExceed(row, table, x);
    EntryBound(row, table, x);
    CellTextsStep(row, x);
    if x == |row| - 1 {
      assert row[..|row|] == row;
    } else {
      ReachingTheEndIsExact(row, table, x + 1);
      assert Meet(table[x], table[x + 1]);
    }
  }

  /**
   * The cell slices tile the cell text exactly when every offset and length fits in 32
   * bits: the table stores both truncated.
   */
  lemma {:induction false} SlicesTileIff(row: seq<Cell>, table: seq<CellInfo>)
    requires IsTable(table, row)
    ensures Tiles(table, |CellTexts(row)|) <==> Fits(row)
  {
    if Fits(row) {
      FittingTableTiles(row, table);
    }
    if Tiles(table, |CellTexts(row)|) {
      forall x | 0 <= x < |row|
        ensures |CellTexts(row[..x])| < 0x1_0000_0000 && |CellBytes(row[x])| < 0x1_0000_0000
      {
        ReachingTheEndIsExact(row, table, x);
        EntryBound(row, table, x);
      }
    }
  }

  lemma {:induction false} EncodingIsAtLeastAsLong(cps: seq<CodePoint>)
    ensures |EncodeAll(cps)| >= |cps|
    decreases |cps|
  {
    hide Encode;
    if cps == [] {
    } else {
      EncodingIsAtLeastAsLong(cps[..|cps| - 1]);
    }
  }

  /** A cluster of 2^32 code points or more, in any cell that is no spacer, leaves the table without a tiling. */
  lemma {:induction false} HugeClusterDoesNotTile(row: seq<Cell>, table: seq<CellInfo>, x: nat)
    requires IsTable(table, row) && x < |row| && !Spacer(row[x]) && |row[x].graphemes| >= 0x1_0000_0000
    ensures !Fits(row) && !Tiles(table, |CellTexts(row)|)
  {
    hide Tiles, IsTable, EncodeAll;
    EncodingIsAtLeastAsLong(row[x].graphemes);
    assert |CellBytes(row[x])| >= 0x1_0000_0000;
    SlicesTileIff(row, table);
  }

  /** The smallest such row: one cell, whose stored length is 0 although its text is not empty. */
  lemma {:induction false} HugeClusterExists()
    ensures var row := [Cell(Narrow, seq(0x1_0000_0000, _ => 0x41))]; var table := [CellInfo(Narrow, 0, 0)];
            IsTable(table, row) && !Fits(row) && !Tiles(table, |CellTexts(row)|)
  {
    var cps: seq<CodePoint> := seq(0x1_0000_0000, _ => 0x41);
    var row := [Cell(Narrow, cps)];
    AsciiLength(cps);
    assert row[..0] == [];
    hide EncodeAll;
    assert InfoAt(row, 0) == CellInfo(Narrow, 0, 0);
    HugeClusterDoesNotTile(row, [CellInfo(Narrow, 0, 0)], 0);
  }

  lemma {:induction false} AsciiLength(cps: seq<CodePoint>)
    requires forall i :: 0 <= i < |cps| ==> cps[i] == 0x41
    ensures |EncodeAll(cps)| == |cps|
    decreases |cps|
  {
    if cps == [] {
    } else {
      AsciiLength(cps[..|cps| - 1]);
    }
  }

  lemma {:induction false} CellTextsPrefix(row: seq<Cell>, x: nat)
    requires x <= |row|
    ensures CellTexts(row[..x]) <= CellTexts(row)
    decreases |row| - x
  {
    hide CellTexts, CellBytes;
    if x == |row| {
      assert row[..x] == row;
    } else {
      CellTextsStep(row, x);
      CellTextsPrefix(row, x + 1);
    }
  }

  /** Where the table tiles, the slice of a cell is that cell's own text. */
  lemma {:induction false} SliceIsCellText(row: seq<Cell>, table: seq<CellInfo>, x: nat)
    requires IsTable(table, row) && Fits(row) && x < |row|
    ensures |table| == |row| && End(table[x]) <= |CellTexts(row)|
    ensures CellTexts(row)[table[x].textOffset..End(table[x])] == CellBytes(row[x])
  {
    hide CellTexts, CellBytes, IsTable, Fits;
    FittingEntry(row, table, x);
    CellTextsPrefix(row, x + 1);
    CellTextsStep(row, x);
    var start, end := |CellTexts(row[..x])|, |CellTexts(row[..x + 1])|;
    var all := CellTexts(row);
    assert all[start..end] == all[..end][start..];
  }

  /** What a table entry contributes to the row text. */
  function PieceOf(info: CellInfo, cellText: seq<Byte>): (bytes: seq<Byte>) {
    if info.wide == SpacerTail || info.wide == SpacerHead then []
    else if info.textLen == 0 then [SPACE]
    else if End(info) <= |cellText| then cellText[info.textOffset..End(info)] else []
  }

  /** Row text rebuilt from the table and the cell text alone, over the first `n` cells. */
  function TextFromTable(table: seq<CellInfo>, cellText: seq<Byte>, n: nat): (bytes: seq<Byte>)
    requires n <= |table|
  {
    if n == 0 then [] else TextFromTable(table, cellText, n - 1) + PieceOf(table[n - 1], cellText)
  }

  lemma {:induction false} EncodedIsEmptyIff(cps: seq<CodePoint>)
    ensures EncodeAll(cps) == [] <==> cps == []
  {
    hide Encode;
  }

  lemma {:induction false} PieceFromSlice(row: seq<Cell>, table: seq<CellInfo>, x: nat)
    requires IsTable(table, row) && Fits(row) && x < |row|
    ensures |table| == |row| && PieceOf(table[x], CellTexts(row)) == Piece(row[x])
  {
    SliceIsCellText(row, table, x);
    FittingEntry(row, table, x);
    assert table[x].wide == row[x].wide by {
      assert table[x] == InfoAt(row, x);
    }
    EncodedIsEmptyIff(row[x].graphemes);
    hide EncodeAll, CellTexts, Fits, IsTable;
  }

  /**
   * The row text is the concatenation of the cell texts, with a space for each empty
   * cell that is no spacer and nothing for spacers, cut after the last cell with content.
   */
  lemma {:induction false} TableRebuildsText(row: seq<Cell>, table: seq<CellInfo>, n: nat)
    requires IsTable(table, row) && Fits(row) && n <= |row|
    ensures |table| == |row| && TextFromTable(table, CellTexts(row), n) == Pieces(row[..n])
    decreases n
  {
    hide Piece, PieceOf, CellTexts, Fits;
    if n == 0 {
    } else {
      TableRebuildsText(row, table, n - 1);
      PieceFromSlice(row, table, n - 1);
      assert row[..n][..n - 1] == row[..n - 1];
    }
  }

  lemma {:induction false} RowTextFromTable(row: seq<Cell>, table: seq<CellInfo>)
    requires IsTable(table, row) && Fits(row)
    ensures |table| == |row| && RowText(row) == TextFromTable(table, CellTexts(row), ContentCells(row))
  {
    hide Pieces, TextFromTable;
    TableRebuildsText(row, table, ContentCells(row));
  }
}
