/**
 The printed form of a grid (viz.py) and the parser that reads it back (grid_utils.py).
 */
module AsciiGrids {
  import opened Common
  import opened Cells
  import opened Decimals

  const GLYPHS := "0123456789ABCDEFGHIJKLMNOPQRSTUVWXYZ"

  function ColorGlyph(color: int): char {
    GLYPHS[color % |GLYPHS|]
  }

  /** The parser's dictionary: the position of a glyph, zero for any other character. */
  function ValueFrom(ch: char, i: nat): int
    requires i <= |GLYPHS|
    decreases |GLYPHS| - i
  {
    if i == |GLYPHS| then 0 else if GLYPHS[i] == ch then i else ValueFrom(ch, i + 1)
  }

  function Value(ch: char): int {
    ValueFrom(ch, 0)
  }

  lemma {:induction false} ValueFromFinds(i: nat, k: nat)
    requires k <= i < |GLYPHS|
    ensures ValueFrom(GLYPHS[i], k) == i
    decreases i - k
  {
    if k < i {
      GlyphsDiffer(k, i);
      ValueFromFinds(i, k + 1);
    }
  }

  lemma GlyphsDiffer(i: nat, j: nat)
    requires i < j < |GLYPHS|
    ensures GLYPHS[i] < GLYPHS[j]
  {
  }

  /** Reading back a printed colour gives the colour modulo the number of glyphs. */
  lemma GlyphReadsBack(color: int)
    ensures Value(ColorGlyph(color)) == color % 36
  {
    ValueFromFinds(color % 36, 0);
  }

  // ---------------------------------------------------------------- printing

  /** The decimal row number, at least two characters wide. */
  function CoordLabel(y: nat): string {
    var s := Decimal(y);
    if |s| < 2 then " " + s else s
  }

  function RowText(row: seq<int>): string {
    seq(|row|, x requires 0 <= x < |row| => ColorGlyph(row[x]))
  }

  function HeaderText(w: nat): string {
    "   " + seq(w, x requires 0 <= x => GLYPHS[x % |GLYPHS|])
  }

  function PrintedRow(g: Grid, y: nat): string
    requires y < g.h
  {
    CoordLabel(y) + " " + RowText(g.rows[y])
  }

  function PrintedLines(g: Grid): seq<string> {
    [HeaderText(g.w)] + seq(g.h, y requires 0 <= y < g.h => PrintedRow(g, y))
  }

  function Join(lines: seq<string>): string {
    if |lines| == 0 then "" else if |lines| == 1 then lines[0] else lines[0] + "\n" + Join(lines[1..])
  }

  method AsciiGrid(g: Grid) returns (text: string)
    ensures text == Join(PrintedLines(g))
  {
    hide PrintedRow, HeaderText;
    var lines := [HeaderText(g.w)];
    for y := 0 to g.h
      invariant |lines| == y + 1 && lines[0] == HeaderText(g.w)
      invariant forall i :: 0 <= i < y ==> lines[i + 1] == PrintedRow(g, i)
    {
      lines := lines + [PrintedRow(g, y)];
    }
    assert lines == PrintedLines(g);
    text := Join(lines);
  }

  // ---------------------------------------------------------------- parsing

  /** The line boundaries of str.splitlines. */
  predicate IsBreak(ch: char) {
    var c := ch as int;
    0x0A <= c <= 0x0D || 0x1C <= c <= 0x1E || c == 0x85 || c == 0x2028 || c == 0x2029
  }

  /** The characters str.strip removes. */
  predicate IsSpace(ch: char) {
    var c := ch as int;
    || 0x09 <= c <= 0x0D || 0x1C <= c <= 0x20 || c == 0x85 || c == 0xA0 || c == 0x1680 || 0x2000 <= c <= 0x200A
    || c == 0x2028 || c == 0x2029 || c == 0x202F || c == 0x205F || c == 0x3000
  }

  /** Splits at line boundaries, CR LF counting once; an empty last piece is dropped. */
  function SplitLines(s: string, current: string): seq<string>
    decreases |s|
  {
    if s == "" then (if current == "" then [] else [current])
    else if !IsBreak(s[0]) then SplitLines(s[1..], current + [s[0]])
    else [current] + SplitLines(s[(if s[0] == '\r' && |s| > 1 && s[1] == '\n' then 2 else 1)..], "")
  }

  predicate IsBlank(line: string) {
    forall i :: 0 <= i < |line| ==> IsSpace(line[i])
  }

  function ParseRow(line: string): seq<int> {
    var text := if |line| < 3 then "" else line[3..];
    seq(|text|, i requires 0 <= i < |text| => Value(text[i]))
  }

  /** The rows of the lines that are not blank. */
  function ParseRows(lines: seq<string>): seq<seq<int>> {
    if lines == [] then [] else
      var rest, line := ParseRows(lines[..|lines| - 1]), lines[|lines| - 1];
      if IsBlank(line) then rest else rest + [ParseRow(line)]
  }

  predicate Rectangular(rows: seq<seq<int>>) {
    forall y :: 0 <= y < |rows| ==> |rows[y]| == |rows[0]|
  }

  /** The parsed rows; ragged rows make numpy raise. */
  function Parse(text: string): Option<seq<seq<int>>> {
    var lines := SplitLines(text, "");
    var rows := if lines == [] then [] else ParseRows(lines[1..]);
    if Rectangular(rows) then Some(rows) else None
  }

  method GridFromAscii(text: string) returns (grid: Option<seq<seq<int>>>)
    ensures grid == Parse(text)
  {
    var lines := SplitLines(text, "");
    if lines == [] { return Some([]); }
    var content := lines[1..];
    var rows := [];
    for i := 0 to |content|
      invariant rows == ParseRows(content[..i])
    {
      assert content[..i + 1][..i] == content[..i];
      if !IsBlank(content[i]) {
        rows := rows + [ParseRow(content[i])];
      }
    }
    assert content[..|content|] == content;
    grid := if Rectangular(rows) then Some(rows) else None;
  }

  // ---------------------------------------------------------------- the round trip

  ghost predicate BreakFree(line: string) {
    forall i :: 0 <= i < |line| ==> !IsBreak(line[i])
  }

  /** One line end: a single boundary character, or CR and LF together. */
  ghost predicate EndsLine(end: string, rest: string) {
    end == "\r\n" || (|end| == 1 && IsBreak(end[0]) && !(end == "\r" && rest != "" && rest[0] == '\n'))
  }

  /** Up to a line end the text is one line, and what follows is split on its own. */
  lemma {:induction false} SplitTakesLine(line: string, end: string, rest: string, current: string)
    requires BreakFree(line) && EndsLine(end, rest)
    ensures SplitLines(line + end + rest, current) == [current + line] + SplitLines(rest, "")
    ensures current + line != "" ==> SplitLines(line, current) == [current + line]
    decreases |line|
  {
    if line == "" {
      assert line + end + rest == end + rest && (end + rest)[|end|..] == rest && current + line == current;
      assert (end + rest)[0] == end[0];
      assert |end| == 1 && rest != "" ==> (end + rest)[1] == rest[0];
    } else {
      SplitTakesLine(line[1..], end, rest, current + [line[0]]);
      assert (line + end + rest)[1..] == line[1..] + end + rest;
      assert current + [line[0]] + line[1..] == current + line;
    }
  }

  /** A line counts as a row exactly when it shows something besides white space. */
  lemma VisibleLinesAreRows(lines: seq<string>, line: string)
    ensures ParseRows(lines + [line]) ==
      ParseRows(lines) + if exists i :: 0 <= i < |line| && !IsSpace(line[i]) then [ParseRow(line)] else []
  {
    assert (lines + [line])[..|lines|] == lines;
  }

  /** The first three characters of a line are its label, the others its colours. */
  lemma ParsedCells(head: string, glyphs: string)
    requires |head| == 3
    ensures |ParseRow(head + glyphs)| == |glyphs|
    ensures forall x :: 0 <= x < |glyphs| ==> ParseRow(head + glyphs)[x] == Value(glyphs[x])
  {
    assert (head + glyphs)[3..] == glyphs;
  }

  lemma {:induction false} SplitUndoesJoin(lines: seq<string>)
    requires forall i :: 0 <= i < |lines| ==> BreakFree(lines[i]) && lines[i] != ""
    ensures SplitLines(Join(lines), "") == lines
    decreases |lines|
  {
    if |lines| == 1 {
      SplitTakesLine(lines[0], "\n", "", "");
      assert "" + lines[0] == lines[0];
    } else if |lines| > 1 {
      SplitTakesLine(lines[0], "\n", Join(lines[1..]), "");
      SplitUndoesJoin(lines[1..]);
      assert "" + lines[0] == lines[0] && [lines[0]] + lines[1..] == lines;
    }
  }

  lemma GlyphIsPlain(i: nat)
    requires i < |GLYPHS|
    ensures !IsBreak(GLYPHS[i]) && !IsSpace(GLYPHS[i])
  {
  }

  lemma LabelIsPlain(y: nat)
    ensures BreakFree(CoordLabel(y)) && CoordLabel(y) != "" && !IsSpace(CoordLabel(y)[|CoordLabel(y)| - 1])
    ensures |CoordLabel(y)| >= 2 && (|CoordLabel(y)| == 2 <==> y < 100)
  {
    Width(y);
    var s := Natural(y);
    forall i | 0 <= i < |s| ensures !IsBreak(s[i]) && !IsSpace(s[i]) {
      assert s[i] in DIGITS;
    }
  }

  /** The label is the decimal row number behind spaces. */
  lemma LabelIsNumber(y: nat)
    ensures var s, n := CoordLabel(y), |Natural(y)|;
      n <= |s| && s[|s| - n..] == Natural(y) && forall i :: 0 <= i < |s| - n ==> s[i] == ' '
  {
  }

  /** In every printed row, and in the header above, the glyph of column `x` stands `x` places after the label. */
  lemma ColumnsLineUp(g: Grid, y: nat, x: nat)
    requires y < g.h && y < 100 && x < g.w
    ensures var lines := PrintedLines(g);
      && |lines| == g.h + 1 && |lines[0]| == |lines[y + 1]| == 3 + g.w
      && lines[0][3 + x] == ColorGlyph(x) && lines[y + 1][3 + x] == ColorGlyph(g.rows[y][x])
      && lines[0][..3] == "   " && lines[y + 1][..3] == CoordLabel(y) + " "
  {
    hide CoordLabel, IsBreak, IsSpace;
    LabelIsPlain(y);
    var row := PrintedRow(g, y);
    assert |row| == 3 + g.w && row[..3] == CoordLabel(y) + " " && row[3 + x] == RowText(g.rows[y])[x];
    hide PrintedRow;
    assert PrintedLines(g)[y + 1] == row;
  }

  lemma PrintedRowParses(g: Grid, y: nat)
    requires y < g.h
    ensures BreakFree(PrintedRow(g, y)) && !IsBlank(PrintedRow(g, y))
    ensures y < 100 ==> ParseRow(PrintedRow(g, y)) == Folded(g.rows[y])
    ensures |ParseRow(PrintedRow(g, y))| == |CoordLabel(y)| - 2 + g.w
  {
    LabelIsPlain(y);
    var head, body := CoordLabel(y), RowText(g.rows[y]);
    var line := PrintedRow(g, y);
    assert line[|head| - 1] == head[|head| - 1];
    forall i | 0 <= i < |body| ensures !IsBreak(body[i]) { GlyphIsPlain(g.rows[y][i] % 36); }
    if y < 100 {
      assert line[3..] == body;
      forall x | 0 <= x < g.w ensures Value(body[x]) == g.rows[y][x] % 36 { GlyphReadsBack(g.rows[y][x]); }
    }
  }

  /** Every colour modulo the number of glyphs. */
  function Folded(row: seq<int>): (r: seq<int>)
    ensures |r| == |row|
  {
    seq(|row|, x requires 0 <= x < |row| => row[x] % 36)
  }

  function FoldedRows(rows: seq<seq<int>>): (r: seq<seq<int>>)
    ensures |r| == |rows|
  {
    seq(|rows|, y requires 0 <= y < |rows| => Folded(rows[y]))
  }

  lemma {:induction false} ParseRowsAt(lines: seq<string>)
    requires forall i :: 0 <= i < |lines| ==> !IsBlank(lines[i])
    ensures |ParseRows(lines)| == |lines|
    ensures forall i :: 0 <= i < |lines| ==> ParseRows(lines)[i] == ParseRow(lines[i])
  {
    if lines != [] { ParseRowsAt(lines[..|lines| - 1]); }
  }

  lemma PrintedSplits(g: Grid)
    ensures SplitLines(Join(PrintedLines(g)), "") == PrintedLines(g)
  {
    var lines := PrintedLines(g);
    forall i | 0 <= i < |lines| ensures BreakFree(lines[i]) && lines[i] != "" {
      if i == 0 {
        forall x: nat | x < g.w ensures !IsBreak(GLYPHS[x % 36]) { GlyphIsPlain(x % 36); }
      } else {
        PrintedRowParses(g, i - 1);
      }
    }
    SplitUndoesJoin(lines);
  }

  /**
   Parsing a printed grid gives every colour modulo 36 when there are at most 100 rows; with
   more the longer row labels leave ragged rows and the parser fails.
   */
  lemma ParseOfPrinted(g: Grid)
    ensures Parse(Join(PrintedLines(g))) == if g.h <= 100 then Some(FoldedRows(g.rows)) else None
  {
    PrintedSplits(g);
    RowsOfPrinted(g);
    var rows := ParseRows(PrintedLines(g)[1..]);
    if g.h <= 100 {
      assert rows == FoldedRows(g.rows);
    } else {
      PrintedRowParses(g, 0);
      LabelIsPlain(0);
      PrintedRowParses(g, 100);
      LabelIsPlain(100);
      assert |rows[100]| != |rows[0]|;
    }
  }

  /** The printed rows parse one by one. */
  lemma RowsOfPrinted(g: Grid)
    ensures var rows := ParseRows(PrintedLines(g)[1..]);
      && |rows| == g.h
      && (forall y :: 0 <= y < g.h ==> rows[y] == ParseRow(PrintedRow(g, y)))
      && (forall y :: 0 <= y < g.h && y < 100 ==> rows[y] == Folded(g.rows[y]))
  {
    hide PrintedRow, ParseRow, IsBlank, CoordLabel, Folded;
    var lines := PrintedLines(g)[1..];
    assert |lines| == g.h && forall y :: 0 <= y < g.h ==> lines[y] == PrintedRow(g, y);
    forall y | 0 <= y < g.h
      ensures !IsBlank(lines[y]) && (y < 100 ==> ParseRow(lines[y]) == Folded(g.rows[y]))
    {
      PrintedRowParses(g, y);
    }
    ParseRowsAt(lines);
  }

  /** The round trip is exact for the colours that have a glyph of their own, and only for those. */
  lemma RoundTripIsExact(g: Grid)
    requires g.h <= 100
    ensures Parse(Join(PrintedLines(g))) == Some(g.rows) <==>
            forall y, x :: 0 <= y < g.h && 0 <= x < g.w ==> 0 <= g.rows[y][x] < 36
  {
    ParseOfPrinted(g);
    if forall y, x :: 0 <= y < g.h && 0 <= x < g.w ==> 0 <= g.rows[y][x] < 36 {
      forall y | 0 <= y < g.h ensures FoldedRows(g.rows)[y] == g.rows[y] {
        assert forall x :: 0 <= x < g.w ==> g.rows[y][x] % 36 == g.rows[y][x];
      }
    }
    hide Parse, PrintedLines;
    if FoldedRows(g.rows) == g.rows {
      forall y, x | 0 <= y < g.h && 0 <= x < g.w ensures 0 <= g.rows[y][x] < 36 {
        assert FoldedRows(g.rows)[y][x] == g.rows[y][x] % 36;
      }
    }
  }
}
