/**
 * The input grammar, a PEG read from the front of the text:
 *
 *   filled_cell           = one of '0'..'9'           (the digit, '0' being Empty)
 *   empty_cell            = "_"                       (Empty)
 *   sudoku_value          = filled_cell / empty_cell
 *   sudoku_horizontal_line = sudoku_value, then exactly 8 times (" " sudoku_value), then " "*
 *   parse                 = sudoku_horizontal_line, then exactly 8 times ("\n" line), then "\n"*,
 *                           and nothing may be left over.
 *
 * Each rule is a function from the remaining input to the value read and the input left, or
 * None. The accepted texts are described independently by a layout value (nine lines of nine
 * tokens, the spaces after each line and the newlines at the end), and the parser is proved
 * to accept exactly the texts of well-formed layouts, returning their board.
 */
module SudokuParser {
  import opened SudokuValues
  import opened Grids

  datatype Option<T> = None | Some(value: T)

  /** What a rule read, and the input after it. */
  datatype Parsed<T> = Parsed(value: T, rest: string)

  // ---------------------------------------------------------------------------------------
  // The rules
  // ---------------------------------------------------------------------------------------

  /** filled_cell: one character '0'..'9', decoded by from_digit. */
  function FilledCell(s: string): (r: Option<Parsed<SudokuValue>>)
    ensures r.Some? ==> |r.value.rest| < |s|
  {
    if |s| > 0 && '0' <= s[0] <= '9' then Some(Parsed(FromDigit(s[0]), s[1..])) else None
  }

  /** empty_cell: the character '_'. */
  function EmptyCell(s: string): (r: Option<Parsed<SudokuValue>>)
    ensures r.Some? ==> |r.value.rest| < |s|
  {
    if |s| > 0 && s[0] == '_' then Some(Parsed(Empty, s[1..])) else None
  }

  /** sudoku_value: a filled cell, or else an empty cell. */
  function CellValue(s: string): (r: Option<Parsed<SudokuValue>>)
    ensures r.Some? ==> |r.value.rest| < |s|
  {
    match FilledCell(s)
    case Some(p) => Some(p)
    case None => EmptyCell(s)
  }

  /** The `n` values after the first of a line, each preceded by exactly one space. */
  function SeparatedValues(s: string, n: nat): (r: Option<Parsed<seq<SudokuValue>>>)
    ensures r.Some? ==> |r.value.value| == n && |r.value.rest| <= |s|
    decreases |s|
  {
    if n == 0 then Some(Parsed([], s))
    else if |s| > 0 && s[0] == ' ' then
      match CellValue(s[1..])
      case None => None
      case Some(first) =>
        match SeparatedValues(first.rest, n - 1)
        case None => None
        case Some(more) => Some(Parsed([first.value] + more.value, more.rest))
    else None
  }

  /** " "*: the input after its leading spaces. */
  function SkipSpaces(s: string): (r: string)
    ensures r == [] || r[0] != ' '
    ensures |r| <= |s|
    decreases |s|
  {
    if |s| > 0 && s[0] == ' ' then SkipSpaces(s[1..]) else s
  }

  /** sudoku_horizontal_line: nine values separated by single spaces, then any spaces. */
  function HorizontalLine(s: string): (r: Option<Parsed<seq<SudokuValue>>>)
    ensures r.Some? ==> |r.value.value| == 9 && |r.value.rest| < |s|
  {
    match CellValue(s)
    case None => None
    case Some(first) =>
      match SeparatedValues(first.rest, 8)
      case None => None
      case Some(more) => Some(Parsed([first.value] + more.value, SkipSpaces(more.rest)))
  }

  /** The `n` lines after the first, each preceded by exactly one newline. */
  function SeparatedLines(s: string, n: nat): (r: Option<Parsed<seq<seq<SudokuValue>>>>)
    ensures r.Some? ==> |r.value.value| == n
    ensures r.Some? ==> forall i :: 0 <= i < n ==> |r.value.value[i]| == 9
    ensures r.Some? ==> |r.value.rest| <= |s|
    decreases |s|
  {
    if n == 0 then Some(Parsed([], s))
    else if |s| > 0 && s[0] == '\n' then
      match HorizontalLine(s[1..])
      case None => None
      case Some(first) =>
        match SeparatedLines(first.rest, n - 1)
        case None => None
        case Some(more) => Some(Parsed([first.value] + more.value, more.rest))
    else None
  }

  /** "\n"*: the input after its leading newlines. */
  function SkipNewlines(s: string): (r: string)
    ensures r == [] || r[0] != '\n'
    decreases |s|
  {
    if |s| > 0 && s[0] == '\n' then SkipNewlines(s[1..]) else s
  }

  /** The nine lines separated by single newlines. */
  function Lines(s: string): (r: Option<Parsed<seq<seq<SudokuValue>>>>)
    ensures r.Some? ==> |r.value.value| == 9 && forall i :: 0 <= i < 9 ==> |r.value.value[i]| == 9
  {
    match HorizontalLine(s)
    case None => None
    case Some(first) =>
      match SeparatedLines(first.rest, 8)
      case None => None
      case Some(more) =>
        RowsCons(first.value, more.value);
        Some(Parsed([first.value] + more.value, more.rest))
  }

  lemma RowsCons(first: seq<SudokuValue>, more: seq<seq<SudokuValue>>)
    requires |first| == 9 && |more| == 8 && forall i :: 0 <= i < 8 ==> |more[i]| == 9
    ensures var rows := [first] + more; |rows| == 9 && forall i :: 0 <= i < 9 ==> |rows[i]| == 9
  {
    var rows := [first] + more;
    assert forall i :: 0 < i < 9 ==> rows[i] == more[i - 1];
  }

  /** parse: the nine lines, then any newlines, and the whole input used up. */
  function Parse(s: string): Option<Grid> {
    match Lines(s)
    case None => None
    case Some(p) =>
      var g: Grid := p.value;
      if SkipNewlines(p.rest) == [] then Some(g) else None
  }

  // ---------------------------------------------------------------------------------------
  // The accepted layout
  // ---------------------------------------------------------------------------------------

  /** A character the cell rule reads: a decimal digit or '_'. */
  predicate IsToken(c: char) {
    '0' <= c <= '9' || c == '_'
  }

  predicate Tokens(cs: string) {
    forall j :: 0 <= j < |cs| ==> IsToken(cs[j])
  }

  /** The values the tokens stand for; '0' and '_' both stand for Empty. */
  function Values(cs: string): (r: seq<SudokuValue>)
    ensures |r| == |cs|
    ensures forall j :: 0 <= j < |cs| ==> r[j] == FromDigit(cs[j])
  {
    if cs == [] then []
    else
      var r := [FromDigit(cs[0])] + Values(cs[1..]);
      assert forall j :: 0 < j < |cs| ==> r[j] == Values(cs[1..])[j - 1];
      r
  }

  function Repeat(c: char, n: nat): (r: string)
    ensures |r| == n
  {
    seq(n, _ => c)
  }

  /** One line of input: its cell tokens and the number of spaces after the last one. */
  datatype LineText = LineText(cells: string, trailing: nat)

  /** The whole input: its lines and the number of newlines after the last one. */
  datatype InputText = InputText(lines: seq<LineText>, closing: nat)

  predicate WellFormedLine(l: LineText) {
    |l.cells| == 9 && Tokens(l.cells)
  }

  predicate WellFormed(t: InputText) {
    |t.lines| == 9 && forall i :: 0 <= i < 9 ==> WellFormedLine(t.lines[i])
  }

  /** Each token after the first, preceded by one space. */
  function SpacedTail(cs: string): string {
    if cs == [] then [] else [' ', cs[0]] + SpacedTail(cs[1..])
  }

  function LineString(l: LineText): string
    requires |l.cells| > 0
  {
    [l.cells[0]] + SpacedTail(l.cells[1..]) + Repeat(' ', l.trailing)
  }

  /** Each line after the first, preceded by one newline. */
  function NewlineTail(ls: seq<LineText>): string
    requires forall i :: 0 <= i < |ls| ==> WellFormedLine(ls[i])
  {
    if ls == [] then []
    else
      assert WellFormedLine(ls[0]);
      ['\n'] + LineString(ls[0]) + NewlineTail(ls[1..])
  }

  function InputString(t: InputText): string
    requires WellFormed(t)
  {
    LineString(t.lines[0]) + NewlineTail(t.lines[1..]) + Repeat('\n', t.closing)
  }

  /** The values of each line. */
  function LineValues(ls: seq<LineText>): (r: seq<seq<SudokuValue>>)
    ensures |r| == |ls|
    ensures forall i :: 0 <= i < |ls| ==> r[i] == Values(ls[i].cells)
  {
    if ls == [] then []
    else
      var r := [Values(ls[0].cells)] + LineValues(ls[1..]);
      assert forall i :: 0 < i < |ls| ==> r[i] == LineValues(ls[1..])[i - 1];
      r
  }

  /** The board a well-formed input stands for: row i is the values of line i. */
  function InputGrid(t: InputText): (g: Grid)
    requires WellFormed(t)
  {
    LineValues(t.lines)
  }

  lemma Append3(a: string, b: string, c: string)
    ensures (a + b) + c == a + (b + c)
  {
  }

  lemma Uncons(s: string)
    requires |s| > 0
    ensures s == [s[0]] + s[1..]
  {
  }

  lemma Uncons2(s: string)
    requires |s| > 1
    ensures s == [s[0], s[1]] + s[1..][1..]
  {
  }

  /** A character `c` in front of `n` copies of `c` and then `rest` is `n + 1` copies and `rest`. */
  lemma RepeatCons(c: char, n: nat, s: string, rest: string)
    requires |s| > 0 && s[0] == c && s[1..] == Repeat(c, n) + rest
    ensures s == Repeat(c, n + 1) + rest
  {
    assert s == [s[0]] + s[1..];
    assert Repeat(c, n + 1) == [c] + Repeat(c, n);
  }

  lemma TokensCons(c: char, cs: string)
    requires IsToken(c) && Tokens(cs)
    ensures Tokens([c] + cs) && ([c] + cs)[0] == c && ([c] + cs)[1..] == cs
  {
    var t := [c] + cs;
    assert t[1..] == cs;
    forall j | 0 < j < |t| ensures IsToken(t[j]) {
      assert t[j] == cs[j - 1];
    }
  }

  lemma WellFormedCons(l: LineText, ls: seq<LineText>)
    requires WellFormedLine(l) && forall i :: 0 <= i < |ls| ==> WellFormedLine(ls[i])
    ensures forall i :: 0 <= i < |ls| + 1 ==> WellFormedLine(([l] + ls)[i])
    ensures ([l] + ls)[0] == l && ([l] + ls)[1..] == ls
  {
    var t := [l] + ls;
    assert t[1..] == ls;
    forall i | 0 < i < |t| ensures WellFormedLine(t[i]) {
      assert t[i] == ls[i - 1];
    }
  }

  // ---------------------------------------------------------------------------------------
  // The parser reads the layout
  // ---------------------------------------------------------------------------------------

  /** sudoku_value reads exactly one token: a digit or '_', standing for its value. */
  lemma CellValueReads(s: string)
    ensures CellValue(s).Some? <==> |s| > 0 && IsToken(s[0])
    ensures CellValue(s).Some? ==> CellValue(s).value == Parsed(FromDigit(s[0]), s[1..])
  {
  }

  /** sudoku_value reads back the text a value is displayed as. */
  lemma CellValueReadsDisplay(v: SudokuValue, s: string)
    ensures CellValue(Display(v) + s) == Some(Parsed(v, s))
  {
    var t := Display(v) + s;
    assert t[0] == Display(v)[0] && t[1..] == s;
  }

  lemma {:induction false} SeparatedValuesRead(cs: string, rest: string)
    requires Tokens(cs)
    ensures SeparatedValues(SpacedTail(cs) + rest, |cs|) == Some(Parsed(Values(cs), rest))
    decreases |cs|
  {
    if cs == [] {
      assert Values(cs) == [];
      assert SpacedTail(cs) + rest == rest;
    } else {
      var s := SpacedTail(cs) + rest;
      var tail := SpacedTail(cs[1..]) + rest;
      assert s == [' ', cs[0]] + tail;
      assert s[1..] == [cs[0]] + tail;
      CellValueReads(s[1..]);
      assert s[1..][1..] == tail;
      assert Tokens(cs[1..]);
      SeparatedValuesRead(cs[1..], rest);
      assert Values(cs) == [FromDigit(cs[0])] + Values(cs[1..]);
    }
  }

  lemma {:induction false} SkipSpacesRead(n: nat, rest: string)
    requires rest == [] || rest[0] != ' '
    ensures SkipSpaces(Repeat(' ', n) + rest) == rest
  {
    if n > 0 {
      assert (Repeat(' ', n) + rest)[1..] == Repeat(' ', n - 1) + rest;
      SkipSpacesRead(n - 1, rest);
    }
  }

  /** A well-formed line followed by anything but a space is read as its nine values. */
  lemma LineRead(l: LineText, rest: string)
    requires WellFormedLine(l)
    requires rest == [] || rest[0] != ' '
    ensures HorizontalLine(LineString(l) + rest) == Some(Parsed(Values(l.cells), rest))
  {
    var cs := l.cells;
    var spaces := Repeat(' ', l.trailing) + rest;
    var s := LineString(l) + rest;
    Append3([cs[0]] + SpacedTail(cs[1..]), Repeat(' ', l.trailing), rest);
    Append3([cs[0]], SpacedTail(cs[1..]), spaces);
    CellValueReads(s);
    assert s[1..] == SpacedTail(cs[1..]) + spaces;
    assert Tokens(cs[1..]);
    SeparatedValuesRead(cs[1..], spaces);
    SkipSpacesRead(l.trailing, rest);
    assert Values(cs) == [FromDigit(cs[0])] + Values(cs[1..]);
  }

  lemma NewlineTailStart(ls: seq<LineText>, rest: string)
    requires forall i :: 0 <= i < |ls| ==> WellFormedLine(ls[i])
    requires rest == [] || rest[0] == '\n'
    ensures var s := NewlineTail(ls) + rest; s == [] || s[0] == '\n'
  {
    if ls != [] {
      assert (NewlineTail(ls) + rest)[0] == NewlineTail(ls)[0];
    }
  }

  lemma {:induction false} SeparatedLinesRead(ls: seq<LineText>, rest: string)
    requires forall i :: 0 <= i < |ls| ==> WellFormedLine(ls[i])
    requires rest == [] || rest[0] == '\n'
    ensures SeparatedLines(NewlineTail(ls) + rest, |ls|)
         == Some(Parsed(LineValues(ls), rest))
    decreases |ls|
  {
    if ls == [] {
      assert NewlineTail(ls) + rest == rest;
    } else {
      var tail := NewlineTail(ls[1..]) + rest;
      var s := NewlineTail(ls) + rest;
      Append3(['\n'] + LineString(ls[0]), NewlineTail(ls[1..]), rest);
      Append3(['\n'], LineString(ls[0]), tail);
      assert s[1..] == LineString(ls[0]) + tail;
      NewlineTailStart(ls[1..], rest);
      LineRead(ls[0], tail);
      SeparatedLinesRead(ls[1..], rest);
      SeparatedLinesStep(s, |ls|, Parsed(Values(ls[0].cells), tail), Parsed(LineValues(ls[1..]), rest));
    }
  }

  lemma {:induction false} SkipNewlinesRead(n: nat)
    ensures SkipNewlines(Repeat('\n', n)) == []
  {
    if n > 0 {
      assert Repeat('\n', n)[1..] == Repeat('\n', n - 1);
      SkipNewlinesRead(n - 1);
    }
  }

  /** The nine lines of a well-formed input are read as its board. */
  lemma LinesRead(t: InputText)
    requires WellFormed(t)
    ensures Lines(InputString(t)) == Some(Parsed(InputGrid(t), Repeat('\n', t.closing)))
  {
    var ls := t.lines;
    var closing := Repeat('\n', t.closing);
    var tail := NewlineTail(ls[1..]) + closing;
    Append3(LineString(ls[0]), NewlineTail(ls[1..]), closing);
    assert forall i :: 0 <= i < 8 ==> WellFormedLine(ls[1..][i]) by {
      forall i | 0 <= i < 8 ensures WellFormedLine(ls[1..][i]) {
        assert ls[1..][i] == ls[i + 1];
      }
    }
    NewlineTailStart(ls[1..], closing);
    LineRead(ls[0], tail);
    SeparatedLinesRead(ls[1..], closing);
  }

  /** Completeness: every well-formed input is accepted, as the board its tokens stand for. */
  lemma ParseAccepts(t: InputText)
    requires WellFormed(t)
    ensures Parse(InputString(t)) == Some(InputGrid(t))
  {
    LinesRead(t);
    SkipNewlinesRead(t.closing);
  }

  // ---------------------------------------------------------------------------------------
  // The parser reads nothing else
  // ---------------------------------------------------------------------------------------

  /** `s` is the tokens `cs`, each after one space, followed by what is left. */
  ghost predicate SpacedLayout(s: string, cs: string, n: nat, r: Parsed<seq<SudokuValue>>) {
    Tokens(cs) && |cs| == n && s == SpacedTail(cs) + r.rest && r.value == Values(cs)
  }

  /** `s` is the line `l` followed by what is left. */
  ghost predicate LineLayout(s: string, l: LineText, r: Parsed<seq<SudokuValue>>) {
    WellFormedLine(l) && s == LineString(l) + r.rest && r.value == Values(l.cells)
  }

  /** `s` is the lines `ls`, each after one newline, followed by what is left. */
  ghost predicate LinesLayout(s: string, ls: seq<LineText>, n: nat, r: Parsed<seq<seq<SudokuValue>>>) {
    |ls| == n && (forall i :: 0 <= i < n ==> WellFormedLine(ls[i]))
    && s == NewlineTail(ls) + r.rest && r.value == LineValues(ls)
  }

  lemma {:induction false} SeparatedValuesOnly(s: string, n: nat)
    requires SeparatedValues(s, n).Some?
    ensures exists cs :: SpacedLayout(s, cs, n, SeparatedValues(s, n).value)
    decreases n
  {
    var r := SeparatedValues(s, n).value;
    if n == 0 {
      assert SpacedLayout(s, [], n, r);
    } else {
      CellValueReads(s[1..]);
      var first := CellValue(s[1..]).value;
      SeparatedValuesOnly(first.rest, n - 1);
      var more := SeparatedValues(first.rest, n - 1).value;
      var cs' :| SpacedLayout(first.rest, cs', n - 1, more);
      var cs := [s[1]] + cs';
      TokensCons(s[1], cs');
      Uncons2(s);
      Append3([' ', s[1]], SpacedTail(cs'), more.rest);
      assert SpacedLayout(s, cs, n, r);
    }
  }

  lemma {:induction false} SkipSpacesOnly(s: string)
    ensures exists n: nat :: s == Repeat(' ', n) + SkipSpaces(s)
    decreases |s|
  {
    if |s| > 0 && s[0] == ' ' {
      SkipSpacesOnly(s[1..]);
      var n: nat :| s[1..] == Repeat(' ', n) + SkipSpaces(s[1..]);
      RepeatCons(' ', n, s, SkipSpaces(s));
    } else {
      assert s == Repeat(' ', 0) + SkipSpaces(s);
    }
  }

  lemma LineOnly(s: string)
    requires HorizontalLine(s).Some?
    ensures exists l :: LineLayout(s, l, HorizontalLine(s).value)
    ensures var rest := HorizontalLine(s).value.rest; rest == [] || rest[0] != ' '
  {
    CellValueReads(s);
    var first := CellValue(s).value;
    SeparatedValuesOnly(first.rest, 8);
    SkipSpacesOnly(SeparatedValues(first.rest, 8).value.rest);
    LineParts(s);
  }

  /** A token, eight spaced tokens and some spaces make a line. */
  lemma LineParts(s: string)
    requires |s| > 0 && IsToken(s[0]) && SeparatedValues(s[1..], 8).Some?
    requires exists cs' :: SpacedLayout(s[1..], cs', 8, SeparatedValues(s[1..], 8).value)
    requires exists n: nat ::
      (SeparatedValues(s[1..], 8).value.rest == Repeat(' ', n) + SkipSpaces(SeparatedValues(s[1..], 8).value.rest))
    ensures HorizontalLine(s).Some? && exists l :: LineLayout(s, l, HorizontalLine(s).value)
  {
    CellValueReads(s);
    var more := SeparatedValues(s[1..], 8).value;
    var cs' :| SpacedLayout(s[1..], cs', 8, more);
    var rest := SkipSpaces(more.rest);
    var n: nat :| more.rest == Repeat(' ', n) + rest;
    Uncons(s);
    LineAssemble(s[0], cs', n, rest, s);
    assert LineLayout(s, LineText([s[0]] + cs', n), HorizontalLine(s).value);
  }

  /** A token, then spaced tokens, then spaces, is the text of the line of those tokens. */
  lemma LineAssemble(c: char, cs': string, n: nat, rest: string, s: string)
    requires IsToken(c) && Tokens(cs') && |cs'| == 8
    requires s == [c] + (SpacedTail(cs') + (Repeat(' ', n) + rest))
    ensures WellFormedLine(LineText([c] + cs', n))
    ensures s == LineString(LineText([c] + cs', n)) + rest
    ensures Values([c] + cs') == [FromDigit(c)] + Values(cs')
  {
    TokensCons(c, cs');
    Append3([c] + SpacedTail(cs'), Repeat(' ', n), rest);
    Append3([c], SpacedTail(cs'), Repeat(' ', n) + rest);
  }

  lemma {:induction false} SeparatedLinesOnly(s: string, n: nat)
    requires SeparatedLines(s, n).Some?
    ensures exists ls :: LinesLayout(s, ls, n, SeparatedLines(s, n).value)
    decreases n
  {
    if n == 0 {
      var ls: seq<LineText> := [];
      assert s == NewlineTail(ls) + SeparatedLines(s, n).value.rest;
      assert LinesLayout(s, ls, n, SeparatedLines(s, n).value);
    } else {
      LineOnly(s[1..]);
      SeparatedLinesOnly(HorizontalLine(s[1..]).value.rest, n - 1);
      LinesCons(s, n, n - 1);
    }
  }

  /** A newline, a line and n - 1 more lines make n lines. */
  lemma LinesCons(s: string, n: nat, m: nat)
    requires n == m + 1 && |s| > 0 && s[0] == '\n' && HorizontalLine(s[1..]).Some?
    requires exists l :: LineLayout(s[1..], l, HorizontalLine(s[1..]).value)
    requires SeparatedLines(HorizontalLine(s[1..]).value.rest, m).Some?
    requires exists ls' :: LinesLayout(HorizontalLine(s[1..]).value.rest, ls', m,
      SeparatedLines(HorizontalLine(s[1..]).value.rest, m).value)
    ensures SeparatedLines(s, n).Some? && exists ls :: LinesLayout(s, ls, n, SeparatedLines(s, n).value)
  {
    var first := HorizontalLine(s[1..]).value;
    var more := SeparatedLines(first.rest, m).value;
    SeparatedLinesStep(s, n, first, more);
    LinesLayoutCons(s, n, m, first, more);
  }

  /** The rule for n lines reads a newline, a line, and n - 1 lines. */
  lemma SeparatedLinesStep(s: string, n: nat, first: Parsed<seq<SudokuValue>>,
                           more: Parsed<seq<seq<SudokuValue>>>)
    requires n > 0 && |s| > 0 && s[0] == '\n' && HorizontalLine(s[1..]) == Some(first)
    requires SeparatedLines(first.rest, n - 1) == Some(more)
    ensures SeparatedLines(s, n) == Some(Parsed([first.value] + more.value, more.rest))
  {
  }

  /** The layout of a newline, a line and n - 1 lines is the layout of n lines. */
  lemma LinesLayoutCons(s: string, n: nat, m: nat,
                        first: Parsed<seq<SudokuValue>>, more: Parsed<seq<seq<SudokuValue>>>)
    requires n == m + 1 && |s| > 0 && s[0] == '\n'
    requires exists l :: LineLayout(s[1..], l, first)
    requires exists ls' :: LinesLayout(first.rest, ls', m, more)
    ensures exists ls :: LinesLayout(s, ls, n, Parsed([first.value] + more.value, more.rest))
  {
    var l :| LineLayout(s[1..], l, first);
    var ls' :| LinesLayout(first.rest, ls', m, more);
    NewlineJoin(s, l, ls', more.rest);
    WellFormedCons(l, ls');
    assert LineValues([l] + ls') == [first.value] + more.value;
    assert LinesLayout(s, [l] + ls', n, Parsed([first.value] + more.value, more.rest));
  }

  /** A newline, a line, then further lines: the text of all the lines after newlines. */
  lemma NewlineJoin(s: string, l: LineText, ls': seq<LineText>, rest: string)
    requires WellFormedLine(l) && forall i :: 0 <= i < |ls'| ==> WellFormedLine(ls'[i])
    requires |s| > 0 && s[0] == '\n' && s[1..] == LineString(l) + (NewlineTail(ls') + rest)
    ensures forall i :: 0 <= i < |ls'| + 1 ==> WellFormedLine(([l] + ls')[i])
    ensures s == NewlineTail([l] + ls') + rest
  {
    var ls := [l] + ls';
    WellFormedCons(l, ls');
    assert NewlineTail(ls) == ['\n'] + LineString(l) + NewlineTail(ls');
    calc {
      s;
      { Uncons(s); }
      ['\n'] + s[1..];
      { Append3(['\n'], LineString(l), NewlineTail(ls') + rest); }
      (['\n'] + LineString(l)) + (NewlineTail(ls') + rest);
      { Append3(['\n'] + LineString(l), NewlineTail(ls'), rest); }
      NewlineTail(ls) + rest;
    }
  }

  lemma {:induction false} SkipNewlinesOnly(s: string)
    ensures exists n: nat :: s == Repeat('\n', n) + SkipNewlines(s)
    decreases |s|
  {
    if |s| > 0 && s[0] == '\n' {
      SkipNewlinesOnly(s[1..]);
      var n: nat :| s[1..] == Repeat('\n', n) + SkipNewlines(s[1..]);
      RepeatCons('\n', n, s, SkipNewlines(s));
    } else {
      assert s == Repeat('\n', 0) + SkipNewlines(s);
    }
  }

  /** Soundness: an accepted input is the text of a well-formed layout, read as its board. */
  lemma ParseOnlyAccepts(s: string)
    requires Parse(s).Some?
    ensures exists t :: WellFormed(t) && InputString(t) == s && InputGrid(t) == Parse(s).value
  {
    LineOnly(s);
    var first := HorizontalLine(s).value;
    var l :| LineLayout(s, l, first);
    SeparatedLinesOnly(first.rest, 8);
    var more := SeparatedLines(first.rest, 8).value;
    var ls :| LinesLayout(first.rest, ls, 8, more);
    SkipNewlinesOnly(more.rest);
    var n: nat :| more.rest == Repeat('\n', n) + SkipNewlines(more.rest);
    var t := InputText([l] + ls, n);
    WellFormedCons(l, ls);
    Append3(LineString(l), NewlineTail(ls), Repeat('\n', n));
    assert more.rest == Repeat('\n', n);
    assert InputString(t) == s && InputGrid(t) == Parse(s).value;
  }

  // ---------------------------------------------------------------------------------------
  // The layout the unit test writes
  // ---------------------------------------------------------------------------------------

  /**
   * Each cell written as its display character followed by a space, and each row followed
   * by a newline: tokens separated by single spaces, one trailing space, one final newline.
   */
  function Written(g: Grid): (t: InputText)
    ensures WellFormed(t)
  {
    var t := InputText(seq(9, i requires 0 <= i < 9 =>
      LineText(seq(9, j requires 0 <= j < 9 => Display(g[i][j])[0]), 1)), 1);
    assert forall i, j :: 0 <= i < 9 && 0 <= j < 9 ==> IsToken(Display(g[i][j])[0]);
    t
  }

  /** Writing a board in that layout and parsing the text gives the board back. */
  lemma ParseWritten(g: Grid)
    ensures Parse(InputString(Written(g))) == Some(g)
  {
    ParseAccepts(Written(g));
    WrittenGrid(g);
  }

  /** The board of the written layout is the board written. */
  lemma WrittenGrid(g: Grid)
    ensures InputGrid(Written(g)) == g
  {
    var t := Written(g);
    forall i | 0 <= i < 9 ensures InputGrid(t)[i] == g[i] {
      forall j | 0 <= j < 9 ensures InputGrid(t)[i][j] == g[i][j] {
        DisplayReadsBack(g[i][j]);
        assert InputGrid(t)[i][j] == FromDigit(Display(g[i][j])[0]);
      }
    }
  }
}
