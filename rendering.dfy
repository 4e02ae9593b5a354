/**
 * The boxed text picture of a board: thirteen lines of 25 characters and a newline, a
 * border line before rows 0, 3 and 6 and after row 8, and each row shown as three groups of
 * three cells, every group opened by "| ".
 */
module Rendering {
  import opened SudokuValues
  import opened Grids

  /** The border line, newline included. */
  const Border: string := "+-------+-------+-------+\n"

  /**
   * The text of the first `j` cells of a row, in the order the display loop appends it: a
   * "| " in front of cells 0, 3 and 6, then each cell shown and followed by a space.
   */
  function CellsText(row: seq<SudokuValue>, j: nat): string
    requires j <= |row|
  {
    if j == 0 then ""
    else if (j - 1) % 3 == 0 then CellsText(row, j - 1) + "| " + Display(row[j - 1]) + " "
    else CellsText(row, j - 1) + Display(row[j - 1]) + " "
  }

  /** The line of one row, closed by "|" and a newline. */
  function RowLine(row: seq<SudokuValue>): string
    requires |row| == 9
  {
    CellsText(row, 9) + "|\n"
  }

  /** The line each row's loop builds, row by row. */
  function RowLines(g: Grid): seq<string> {
    seq(9, i requires 0 <= i < 9 => RowLine(g[i]))
  }

  /** The text of the first `i` row lines, with a border in front of rows 0, 3 and 6. */
  function RowsText(lines: seq<string>, i: nat): string
    requires i <= |lines|
  {
    if i == 0 then ""
    else if (i - 1) % 3 == 0 then RowsText(lines, i - 1) + Border + lines[i - 1]
    else RowsText(lines, i - 1) + lines[i - 1]
  }

  /** Appending one cell's text to a prefix extends the cells' text by one. */
  lemma AppendCell(head: string, row: seq<SudokuValue>, j: nat)
    requires j < |row|
    ensures j % 3 == 0 ==>
      head + CellsText(row, j + 1) == head + CellsText(row, j) + "| " + Display(row[j]) + " "
    ensures j % 3 != 0 ==>
      head + CellsText(row, j + 1) == head + CellsText(row, j) + Display(row[j]) + " "
  {
  }

  /** Display for SudokuState: the rows and a closing border. */
  function Rendered(g: Grid): string {
    RowsText(RowLines(g), 9) + Border
  }

  // ---------------------------------------------------------------------------------------
  // The picture, line by line and character by character
  // ---------------------------------------------------------------------------------------

  /** The character a cell is shown as. */
  function Shown(row: seq<SudokuValue>, j: nat): char
    requires j < |row|
  {
    Glyph(row[j])
  }

  /** The eight characters of the group of three cells starting at column `s`. */
  function GroupPicture(row: seq<SudokuValue>, s: nat): string
    requires s + 3 <= |row|
  {
    ['|', ' ', Shown(row, s), ' ', Shown(row, s + 1), ' ', Shown(row, s + 2), ' ']
  }

  /** The 26 characters of the line of a row: three groups, a closing bar and a newline. */
  function RowPicture(row: seq<SudokuValue>): string
    requires |row| == 9
  {
    GroupPicture(row, 0) + GroupPicture(row, 3) + GroupPicture(row, 6) + ['|', '\n']
  }

  /** The thirteen lines of the picture. */
  function Picture(g: Grid): seq<string> {
    Framed(seq(9, i requires 0 <= i < 9 => RowPicture(g[i])))
  }

  /** Nine row lines with a border before rows 0, 3 and 6 and after row 8. */
  function Framed(rows: seq<string>): seq<string>
    requires |rows| == 9
  {
    seq(13, k requires 0 <= k < 13 => if k % 4 == 0 then Border else rows[k - k / 4 - 1])
  }

  /** The lines one after the other. */
  function Concat(lines: seq<string>): string {
    if lines == [] then "" else Concat(lines[..|lines| - 1]) + lines[|lines| - 1]
  }

  lemma {:induction false} ConcatLength(lines: seq<string>)
    requires forall i :: 0 <= i < |lines| ==> |lines[i]| == 26
    ensures |Concat(lines)| == 26 * |lines|
  {
    if lines != [] {
      ConcatLength(lines[..|lines| - 1]);
    }
  }

  /** In a concatenation of 26-character lines, line k occupies characters 26k to 26k + 25. */
  lemma {:induction false} ConcatOfLines(lines: seq<string>, k: nat)
    requires forall i :: 0 <= i < |lines| ==> |lines[i]| == 26
    requires k < |lines|
    ensures |Concat(lines)| == 26 * |lines|
    ensures Concat(lines)[26 * k..26 * k + 26] == lines[k]
  {
    var front := lines[..|lines| - 1];
    ConcatLength(lines);
    ConcatLength(front);
    if k < |lines| - 1 {
      ConcatOfLines(front, k);
      assert Concat(lines)[26 * k..26 * k + 26] == Concat(front)[26 * k..26 * k + 26];
    }
  }

  /** One cell's step of the loop, written with the character the cell is shown as. */
  lemma CellStep(row: seq<SudokuValue>, j: nat)
    requires j < |row|
    ensures j % 3 == 0 ==> CellsText(row, j + 1) == CellsText(row, j) + "| " + [Shown(row, j), ' ']
    ensures j % 3 != 0 ==> CellsText(row, j + 1) == CellsText(row, j) + [Shown(row, j), ' ']
  {
    var d := Display(row[j]);
    assert d == [Shown(row, j)];
    assert d + " " == [Shown(row, j), ' '];
  }

  /** The loop appends a group of three cells as its picture. */
  lemma CellsTextGroup(row: seq<SudokuValue>, s: nat)
    requires |row| == 9 && s % 3 == 0 && s + 3 <= 9
    ensures CellsText(row, s + 3) == CellsText(row, s) + GroupPicture(row, s)
  {
    var a, b, c := Shown(row, s), Shown(row, s + 1), Shown(row, s + 2);
    calc {
      CellsText(row, s + 3);
      { assert (s + 2) % 3 != 0; CellStep(row, s + 2); }
      CellsText(row, s + 2) + [c, ' '];
      { assert (s + 1) % 3 != 0; CellStep(row, s + 1); }
      CellsText(row, s + 1) + [b, ' '] + [c, ' '];
      { CellStep(row, s); }
      CellsText(row, s) + "| " + [a, ' '] + [b, ' '] + [c, ' '];
      { assert CellsText(row, s) + "| " + [a, ' '] + [b, ' '] + [c, ' '] == CellsText(row, s) + ['|', ' ', a, ' ', b, ' ', c, ' ']; }
      CellsText(row, s) + GroupPicture(row, s);
    }
  }

  /** The line a row's loop builds is the row's picture. */
  lemma RowLineIsPicture(row: seq<SudokuValue>)
    requires |row| == 9
    ensures RowLine(row) == RowPicture(row)
  {
    RowCells(row);
  }

  /** The nine cells of a row, as the loop writes them, are its three group pictures. */
  lemma RowCells(row: seq<SudokuValue>)
    requires |row| == 9
    ensures CellsText(row, 9) == GroupPicture(row, 0) + GroupPicture(row, 3) + GroupPicture(row, 6)
  {
    CellsTextGroup(row, 0);
    CellsTextGroup(row, 3);
    CellsTextGroup(row, 6);
    EmptyAppend(GroupPicture(row, 0));
  }

  lemma EmptyAppend(x: string)
    ensures "" + x == x
  {
  }

  /** Cell j of a row is shown at column 2 + 2j + 2(j/3) of its line, and reads back as itself. */
  lemma RowPictureCell(row: seq<SudokuValue>, j: nat)
    requires |row| == 9 && j < 9
    ensures RowPicture(row)[2 + 2 * j + 2 * (j / 3)] == Shown(row, j)
    ensures FromDigit(Shown(row, j)) == row[j]
  {
    var p := RowPicture(row);
    assert j == 0 || j == 1 || j == 2 || j == 3 || j == 4 || j == 5 || j == 6 || j == 7 || j == 8;
  }

  /**
   * Where the lines of row i fall in the picture: before row i come i rows and (i + 2) / 3
   * borders, and a border precedes row i exactly when i is a multiple of 3.
   */
  lemma LineIndex(i: nat)
    requires i < 9
    ensures var n := i + (i + 2) / 3;
      if i % 3 == 0 then
        (i + 1) + (i + 3) / 3 == n + 2 && n % 4 == 0 && (n + 1) % 4 != 0 && n + 1 - (n + 1) / 4 - 1 == i
      else
        (i + 1) + (i + 3) / 3 == n + 1 && n % 4 != 0 && n - n / 4 - 1 == i
  {
    assert i == 0 || i == 1 || i == 2 || i == 3 || i == 4 || i == 5 || i == 6 || i == 7 || i == 8;
  }

  lemma ConcatSnoc(lines: seq<string>, n: nat)
    requires n < |lines|
    ensures Concat(lines[..n + 1]) == Concat(lines[..n]) + lines[n]
  {
    assert lines[..n + 1][..n] == lines[..n];
  }

  /** The number of framed lines up to and including row i - 1: i rows and their borders. */
  function LinesBefore(i: nat): nat {
    i + (i + 2) / 3
  }

  /** The text of the first i rows is the first LinesBefore(i) lines of the framed rows. */
  lemma {:induction false} RowsTextIsConcat(rows: seq<string>, i: nat)
    requires |rows| == 9 && i <= 9
    ensures RowsText(rows, i) == Concat(Framed(rows)[..LinesBefore(i)])
  {
    if i == 0 {
      assert Framed(rows)[..0] == [];
    } else {
      RowsTextIsConcat(rows, i - 1);
      RowStep(rows, i - 1);
    }
  }

  /** One more row extends the text by the next framed lines. */
  lemma RowStep(rows: seq<string>, j: nat)
    requires |rows| == 9 && j < 9
    requires RowsText(rows, j) == Concat(Framed(rows)[..LinesBefore(j)])
    ensures RowsText(rows, j + 1) == Concat(Framed(rows)[..LinesBefore(j + 1)])
  {
    if j % 3 == 0 {
      BorderRowStep(rows, j, LinesBefore(j));
    } else {
      PlainRowStep(rows, j, LinesBefore(j));
    }
  }

  /** Row j after a border: the text grows by the border line and the row's line. */
  lemma BorderRowStep(rows: seq<string>, j: nat, n: nat)
    requires |rows| == 9 && j < 9 && j % 3 == 0 && n == LinesBefore(j)
    requires RowsText(rows, j) == Concat(Framed(rows)[..n])
    ensures RowsText(rows, j + 1) == Concat(Framed(rows)[..LinesBefore(j + 1)])
  {
    LineIndex(j);
    calc {
      RowsText(rows, j + 1);
      RowsText(rows, j) + Border + rows[j];
      Concat(Framed(rows)[..n]) + Border + rows[j];
      { FramedBorderRow(rows, j, n); }
      Concat(Framed(rows)[..n + 2]);
    }
  }

  /** Row j without a border: the text grows by the row's line. */
  lemma PlainRowStep(rows: seq<string>, j: nat, n: nat)
    requires |rows| == 9 && j < 9 && j % 3 != 0 && n == LinesBefore(j)
    requires RowsText(rows, j) == Concat(Framed(rows)[..n])
    ensures RowsText(rows, j + 1) == Concat(Framed(rows)[..LinesBefore(j + 1)])
  {
    LineIndex(j);
    calc {
      RowsText(rows, j + 1);
      RowsText(rows, j) + rows[j];
      Concat(Framed(rows)[..n]) + rows[j];
      { FramedRow(rows, j, n); }
      Concat(Framed(rows)[..n + 1]);
    }
  }

  /** A row after a border adds the border and its line to the framed lines read so far. */
  lemma FramedBorderRow(rows: seq<string>, j: nat, n: nat)
    requires |rows| == 9 && j < 9 && n + 2 <= 13
    requires n % 4 == 0 && (n + 1) % 4 != 0 && n + 1 - (n + 1) / 4 - 1 == j
    ensures Concat(Framed(rows)[..n + 2]) == Concat(Framed(rows)[..n]) + Border + rows[j]
  {
    var p := Framed(rows);
    ConcatSnoc(p, n);
    ConcatSnoc(p, n + 1);
    assert p[n] == Border && p[n + 1] == rows[j];
  }

  /** A row without a border adds its line to the framed lines read so far. */
  lemma FramedRow(rows: seq<string>, j: nat, n: nat)
    requires |rows| == 9 && j < 9 && n + 1 <= 13
    requires n % 4 != 0 && n - n / 4 - 1 == j
    ensures Concat(Framed(rows)[..n + 1]) == Concat(Framed(rows)[..n]) + rows[j]
  {
    var p := Framed(rows);
    ConcatSnoc(p, n);
    assert p[n] == rows[j];
  }

  /** The text the display loops build is the thirteen lines of the picture in order. */
  lemma RenderedIsPicture(g: Grid)
    ensures Rendered(g) == Concat(Picture(g))
  {
    RenderedIsFramed(g);
    RowLinesArePictures(g);
  }

  lemma RenderedIsFramed(g: Grid)
    ensures Rendered(g) == Concat(Framed(RowLines(g)))
  {
    FramedText(RowLines(g));
  }

  /** The nine rows as the loops write them, and the closing border, are the framed lines. */
  lemma FramedText(rows: seq<string>)
    requires |rows| == 9
    ensures RowsText(rows, 9) + Border == Concat(Framed(rows))
  {
    calc {
      RowsText(rows, 9) + Border;
      { RowsTextIsConcat(rows, 9); }
      Concat(Framed(rows)[..12]) + Border;
      { FramedClosed(rows); }
      Concat(Framed(rows));
    }
  }

  /** The last framed line is the closing border. */
  lemma FramedClosed(rows: seq<string>)
    requires |rows| == 9
    ensures Concat(Framed(rows)) == Concat(Framed(rows)[..12]) + Border
  {
    var p := Framed(rows);
    ConcatSnoc(p, 12);
    assert p[..13] == p;
  }

  lemma RowLinesArePictures(g: Grid)
    ensures RowLines(g) == seq(9, i requires 0 <= i < 9 => RowPicture(g[i]))
  {
    forall i | 0 <= i < 9 ensures RowLines(g)[i] == RowPicture(g[i]) {
      RowLineIsPicture(g[i]);
    }
  }

  /** Every line of the picture is 25 characters and a newline. */
  lemma PictureLines(g: Grid)
    ensures |Picture(g)| == 13
    ensures forall k :: 0 <= k < 13 ==> |Picture(g)[k]| == 26 && Picture(g)[k][25] == '\n'
  {
  }

  /** Row i is line i + i/3 + 1 of the picture. */
  lemma PictureRow(g: Grid, i: nat)
    requires i < 9
    ensures i + i / 3 + 1 < 13 && Picture(g)[i + i / 3 + 1] == RowPicture(g[i])
  {
    var k := i + i / 3 + 1;
    assert k % 4 != 0 && k - k / 4 - 1 == i by {
      assert i == 0 || i == 1 || i == 2 || i == 3 || i == 4 || i == 5 || i == 6 || i == 7 || i == 8;
    }
  }

  /** Line k of the picture is characters 26k to 26k + 25 of the text. */
  lemma RenderedLine(g: Grid, k: nat)
    requires k < 13
    ensures |Rendered(g)| == 13 * 26
    ensures Rendered(g)[26 * k..26 * k + 26] == Picture(g)[k]
  {
    RenderedIsPicture(g);
    PictureLines(g);
    ConcatOfLines(Picture(g), k);
  }

  /**
   * The picture is 13 lines of 25 characters and a newline; lines 0, 4, 8 and 12 are borders
   * and the others show rows 0 to 8 in order.
   */
  lemma RenderedLayout(g: Grid)
    ensures |Rendered(g)| == 13 * 26
    ensures forall k :: 0 <= k < 13 ==> Rendered(g)[26 * k..26 * k + 26] == Picture(g)[k]
    ensures forall k :: 0 <= k < 13 ==> Rendered(g)[26 * k + 25] == '\n'
  {
    RenderedLine(g, 0);
    forall k | 0 <= k < 13 ensures Rendered(g)[26 * k..26 * k + 26] == Picture(g)[k] {
      RenderedLine(g, k);
    }
    forall k | 0 <= k < 13 ensures Rendered(g)[26 * k + 25] == '\n' {
      RenderedLine(g, k);
      PictureLines(g);
      assert Rendered(g)[26 * k + 25] == Rendered(g)[26 * k..26 * k + 26][25];
    }
  }

  /** Cell (row i, column j) is shown at a fixed place, and reading that character back gives it. */
  lemma RenderedCell(g: Grid, i: nat, j: nat)
    requires i < 9 && j < 9
    ensures 26 * (i + i / 3 + 1) + 2 + 2 * j + 2 * (j / 3) < |Rendered(g)|
    ensures Rendered(g)[26 * (i + i / 3 + 1) + 2 + 2 * j + 2 * (j / 3)] == Shown(g[i], j)
    ensures FromDigit(Rendered(g)[26 * (i + i / 3 + 1) + 2 + 2 * j + 2 * (j / 3)]) == g[i][j]
  {
    var k := i + i / 3 + 1;
    var c := 2 + 2 * j + 2 * (j / 3);
    RenderedLine(g, k);
    calc {
      Rendered(g)[26 * k + c];
      Rendered(g)[26 * k..26 * k + 26][c];
      Picture(g)[k][c];
      { PictureRow(g, i); }
      RowPicture(g[i])[c];
      { RowPictureCell(g[i], j); }
      Shown(g[i], j);
    }
  }
}
