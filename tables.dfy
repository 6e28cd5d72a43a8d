/** The colour-aware text table of cts.py (`Align`, `Table`): column widths measured on
    visible text, per-column alignment, and the bordered rendering of `Table.show`. */
module Tables {
  import opened Colors
  import opened Text

  datatype Align = Left | Center | Right

  /** The alignment list a `Table` gets when its caller passes none. */
  const DefaultAlign: seq<Align> := [Left, Left, Left]

  /** Python's `int(d / 2)`: half of `d`, truncated toward zero. */
  function TruncHalf(d: int): (h: int)
    ensures d >= 0 ==> 0 <= d - 2 * h <= 1
    ensures d < 0 ==> -1 <= d - 2 * h <= 0
  {
    if d >= 0 then d / 2 else -((-d) / 2)
  }

  /** Python's `round(d / 2)`: the nearest integer to `d / 2`, a tie going to the even one. */
  function RoundHalf(d: int): (h: int)
    ensures -1 <= 2 * h - d <= 1
    ensures 2 * h != d ==> h % 2 == 0
  {
    var q := d / 2;
    if d % 2 == 0 then q else if q % 2 == 0 then q else q + 1
  }

  /** `__align_element` for a column of width `width`: pads `item` with spaces to the
      width, measured on visible text; Python's `' ' * n` is empty for `n <= 0`. */
  function AlignElement(item: string, width: int, align: Align): string
  {
    var d := width - VisibleLen(item);
    match align
    case Right => Repeat(' ', d) + item
    case Center => Repeat(' ', TruncHalf(d)) + item + Repeat(' ', RoundHalf(d))
    case Left => item + Repeat(' ', d)
  }

  lemma SpacesArePlain(n: int)
    ensures forall k :: 0 <= k < |Repeat(' ', n)| ==> Repeat(' ', n)[k] != Esc
    ensures VisibleLen(Repeat(' ', n)) == |Repeat(' ', n)|
  {
    VisibleLenPlain(Repeat(' ', n));
  }

  /** A left-aligned cell that fits gets exactly the missing spaces after it, and then
      shows exactly `width` characters. */
  lemma AlignLeft(item: string, width: int)
    requires VisibleLen(item) <= width
    ensures AlignElement(item, width, Left) == item + Repeat(' ', width - VisibleLen(item))
    ensures VisibleLen(AlignElement(item, width, Left)) == width
  {
    var sp := Repeat(' ', width - VisibleLen(item));
    SpacesArePlain(width - VisibleLen(item));
    VisibleLenSplit(item, sp);
  }

  /** A right-aligned cell that fits gets exactly the missing spaces before it, and then
      shows exactly `width` characters. */
  lemma AlignRight(item: string, width: int)
    requires VisibleLen(item) <= width
    ensures AlignElement(item, width, Right) == Repeat(' ', width - VisibleLen(item)) + item
    ensures VisibleLen(AlignElement(item, width, Right)) == width
  {
    var sp := Repeat(' ', width - VisibleLen(item));
    SpacesArePlain(width - VisibleLen(item));
    VisibleLenPlainPrefix(sp, item);
  }

  /** The two halves of a non-negative deficit `d` add up to `d`, except that they fall
      one short when `d % 4 == 1` (then `d / 2` is even and the tie rounds down). */
  lemma HalvesSum(d: int)
    requires d >= 0
    ensures TruncHalf(d) == d / 2
    ensures TruncHalf(d) + RoundHalf(d) == if d % 4 == 1 then d - 1 else d
  {
    var k := d / 4;
    var r := d % 4;
    assert d == 4 * k + r;
    if r == 0 {
      assert d / 2 == 2 * k && d % 2 == 0;
    } else if r == 1 {
      assert d / 2 == 2 * k && d % 2 == 1 && (2 * k) % 2 == 0;
    } else if r == 2 {
      assert d / 2 == 2 * k + 1 && d % 2 == 0;
    } else {
      assert d / 2 == 2 * k + 1 && d % 2 == 1 && (2 * k + 1) % 2 == 1;
    }
  }

  /** A centred cell with deficit `d` gets `d / 2` (rounded down) spaces before it and
      `round(d / 2)` (half to even) after it, so it falls one character short of the
      column exactly when `d % 4 == 1`. */
  lemma AlignCenter(item: string, width: int)
    requires VisibleLen(item) <= width
    ensures var d := width - VisibleLen(item);
      AlignElement(item, width, Center) == Repeat(' ', d / 2) + item + Repeat(' ', RoundHalf(d))
    ensures var d := width - VisibleLen(item);
      VisibleLen(AlignElement(item, width, Center)) == if d % 4 == 1 then width - 1 else width
  {
    var d := width - VisibleLen(item);
    HalvesSum(d);
    PaddedWidth(TruncHalf(d), item, RoundHalf(d));
  }

  /** Spaces on both sides add their number to the visible width. */
  lemma PaddedWidth(before: nat, item: string, after: nat)
    ensures VisibleLen(Repeat(' ', before) + item + Repeat(' ', after)) == before + VisibleLen(item) + after
  {
    var b := Repeat(' ', before);
    var a := Repeat(' ', after);
    SpacesArePlain(before);
    SpacesArePlain(after);
    VisibleLenSplit(b + item, a);
    VisibleLenPlainPrefix(b, item);
  }

  /** A cell at least as wide as its column is returned as it is, whatever the alignment. */
  lemma AlignOverflow(item: string, width: int, align: Align)
    requires VisibleLen(item) >= width
    ensures AlignElement(item, width, align) == item
  {
    var d := width - VisibleLen(item);
    assert Repeat(' ', d) == [] && Repeat(' ', TruncHalf(d)) == [] && Repeat(' ', RoundHalf(d)) == [];
  }

  /** Every row has at most `n` cells. */
  predicate Fits(datas: seq<seq<string>>, n: nat)
  {
    forall r :: 0 <= r < |datas| ==> |datas[r]| <= n
  }

  /** The widest visible cell in column `i` among the rows that have one; 0 if none do. */
  function DataWidth(datas: seq<seq<string>>, i: nat): nat
  {
    if datas == [] then 0
    else
      var rest := DataWidth(datas[..|datas| - 1], i);
      var last := datas[|datas| - 1];
      var cell := if i < |last| then VisibleLen(last[i]) else 0;
      if cell > rest then cell else rest
  }

  /** `DataWidth` is the maximum: no cell of the column is wider, and unless it is 0 some
      cell is exactly that wide. */
  lemma {:induction false} DataWidthIsMax(datas: seq<seq<string>>, i: nat)
    ensures forall r :: 0 <= r < |datas| && i < |datas[r]| ==> VisibleLen(datas[r][i]) <= DataWidth(datas, i)
    ensures DataWidth(datas, i) == 0
         || exists r :: 0 <= r < |datas| && i < |datas[r]| && VisibleLen(datas[r][i]) == DataWidth(datas, i)
    decreases |datas|
  {
    if datas != [] {
      var init := datas[..|datas| - 1];
      DataWidthIsMax(init, i);
      assert forall r :: 0 <= r < |init| ==> init[r] == datas[r];
    }
  }

  /** `__longest_in_column[i]`: the widest visible cell of column `i`, header included. */
  function ColumnWidth(header: seq<string>, datas: seq<seq<string>>, i: nat): nat
    requires i < |header|
  {
    var d := DataWidth(datas, i);
    if d > VisibleLen(header[i]) then d else VisibleLen(header[i])
  }

  /** Each column width is at least the visible length of the header cell and of every
      data cell in the column, and equals one of them. */
  lemma ColumnWidthIsMax(header: seq<string>, datas: seq<seq<string>>, i: nat)
    requires i < |header|
    ensures VisibleLen(header[i]) <= ColumnWidth(header, datas, i)
    ensures forall r :: 0 <= r < |datas| && i < |datas[r]| ==> VisibleLen(datas[r][i]) <= ColumnWidth(header, datas, i)
    ensures ColumnWidth(header, datas, i) == VisibleLen(header[i])
         || exists r :: 0 <= r < |datas| && i < |datas[r]| && VisibleLen(datas[r][i]) == ColumnWidth(header, datas, i)
  {
    DataWidthIsMax(datas, i);
  }

  /** All column widths of a table. */
  function Widths(header: seq<string>, datas: seq<seq<string>>): (ws: seq<nat>)
    ensures |ws| == |header|
  {
    seq(|header|, i requires 0 <= i < |header| => ColumnWidth(header, datas, i))
  }

  /** The column texts of `row`, each aligned to its column. */
  function Aligned(row: seq<string>, widths: seq<nat>, aling: seq<Align>): (cs: seq<string>)
    requires |row| <= |widths| && |row| <= |aling|
    ensures |cs| == |row|
  {
    seq(|row|, i requires 0 <= i < |row| => AlignElement(row[i], widths[i], aling[i]))
  }

  /** One rendered cell around an aligned text: `'| ' + aligned + ' '`. */
  function Frame(text: string): string
  {
    "| " + text + " "
  }

  /** The first `n` aligned texts, each framed, concatenated. */
  function Framed(cs: seq<string>, n: nat): string
    requires n <= |cs|
  {
    if n == 0 then [] else Framed(cs, n - 1) + Frame(cs[n - 1])
  }

  /** One table line: its cells, then `"|\n"`. */
  function Line(row: seq<string>, widths: seq<nat>, aling: seq<Align>): string
    requires |row| <= |widths| && |row| <= |aling|
  {
    Framed(Aligned(row, widths, aling), |row|) + "|\n"
  }

  /** The separator's piece for a column of width `w`: `'|-' + '-' * w + '-'`. */
  function SepCell(w: nat): string
  {
    "|-" + Repeat('-', w) + "-"
  }

  /** The separator pieces of the first `n` widths. */
  function SepCells(widths: seq<nat>, n: nat): string
    requires n <= |widths|
  {
    if n == 0 then [] else SepCells(widths, n - 1) + SepCell(widths[n - 1])
  }

  /** The line under the header. */
  function Separator(widths: seq<nat>): string
  {
    SepCells(widths, |widths|) + "|\n"
  }

  /** The header line and the separator, when the header is shown. */
  function HeaderLines(header: seq<string>, widths: seq<nat>, aling: seq<Align>, showHeader: bool): seq<string>
    requires showHeader ==> |header| <= |widths| && |header| <= |aling|
  {
    if showHeader then [Line(header, widths, aling), Separator(widths)] else []
  }

  /** One line per data row, in order. */
  function RowLines(datas: seq<seq<string>>, widths: seq<nat>, aling: seq<Align>): (ls: seq<string>)
    requires Fits(datas, |widths|) && Fits(datas, |aling|)
    ensures |ls| == |datas|
    ensures forall r :: 0 <= r < |datas| ==> ls[r] == Line(datas[r], widths, aling)
  {
    if datas == [] then []
    else
      var init := datas[..|datas| - 1];
      assert forall r :: 0 <= r < |init| ==> init[r] == datas[r];
      RowLines(init, widths, aling) + [Line(datas[|datas| - 1], widths, aling)]
  }

  /** The lines concatenated. */
  function Join(lines: seq<string>): string
  {
    if lines == [] then [] else Join(lines[..|lines| - 1]) + lines[|lines| - 1]
  }

  /** The lines `Table.show` prints: the header and the separator when shown, then the rows. */
  function RenderedLines(header: seq<string>, datas: seq<seq<string>>, widths: seq<nat>,
                         aling: seq<Align>, showHeader: bool): seq<string>
    requires showHeader ==> |header| <= |widths| && |header| <= |aling|
    requires Fits(datas, |widths|) && Fits(datas, |aling|)
  {
    HeaderLines(header, widths, aling, showHeader) + RowLines(datas, widths, aling)
  }

  /** The string `Table.show` returns. */
  function Render(header: seq<string>, datas: seq<seq<string>>, widths: seq<nat>,
                  aling: seq<Align>, showHeader: bool): string
    requires showHeader ==> |header| <= |widths| && |header| <= |aling|
    requires Fits(datas, |widths|) && Fits(datas, |aling|)
  {
    Join(RenderedLines(header, datas, widths, aling, showHeader))
  }

  lemma JoinTwo(a: string, b: string)
    ensures Join([a, b]) == a + b
  {
    assert Join([a]) == a by {
      assert [a][..0] == [];
      assert [] + a == a;
    }
    assert Join([a, b]) == Join([a]) + b by {
      assert [a, b][..1] == [a];
    }
  }

  lemma {:induction false} JoinConcat(a: seq<string>, b: seq<string>)
    ensures Join(a + b) == Join(a) + Join(b)
    decreases |b|
  {
    if b == [] {
      assert a + b == a;
    } else {
      var n := |b| - 1;
      var ab := a + b;
      assert ab[..|ab| - 1] == a + b[..n];
      assert ab[|ab| - 1] == b[n];
      assert Join(ab) == Join(a + b[..n]) + b[n];
      JoinConcat(a, b[..n]);
      assert Join(b) == Join(b[..n]) + b[n];
      Assoc(Join(a), Join(b[..n]), b[n]);
    }
  }

  lemma LineEnds(row: seq<string>, widths: seq<nat>, aling: seq<Align>)
    requires |row| <= |widths| && |row| <= |aling|
    ensures var l := Line(row, widths, aling); |l| >= 2 && l[|l| - 2..] == "|\n"
  {
  }

  lemma SeparatorEnds(widths: seq<nat>)
    ensures var l := Separator(widths); |l| >= 2 && l[|l| - 2..] == "|\n"
  {
  }

  /** Appending the framed cell `i` of a row extends its framed prefix by one cell. */
  lemma CellStep(table: string, row: seq<string>, widths: seq<nat>, aling: seq<Align>, i: nat)
    requires i < |row| <= |widths| && |row| <= |aling|
    ensures var cs := Aligned(row, widths, aling);
      table + Framed(cs, i + 1) == (table + Framed(cs, i)) + ("| " + AlignElement(row[i], widths[i], aling[i]) + " ")
  {
    var cs := Aligned(row, widths, aling);
    assert Frame(cs[i]) == "| " + AlignElement(row[i], widths[i], aling[i]) + " ";
    Assoc(table, Framed(cs, i), Frame(cs[i]));
  }

  /** The framed cells of a whole row and the closing `"|\n"` make its line. */
  lemma FramedLine(table: string, row: seq<string>, widths: seq<nat>, aling: seq<Align>)
    requires |row| <= |widths| && |row| <= |aling|
    ensures (table + Framed(Aligned(row, widths, aling), |row|)) + "|\n" == table + Line(row, widths, aling)
  {
    Assoc(table, Framed(Aligned(row, widths, aling), |row|), "|\n");
  }

  /** The rendering is made of lines: the header and the separator first when shown,
      then one line per data row. */
  lemma RenderLines(header: seq<string>, datas: seq<seq<string>>, widths: seq<nat>,
                    aling: seq<Align>, showHeader: bool)
    requires showHeader ==> |header| <= |widths| && |header| <= |aling|
    requires Fits(datas, |widths|) && Fits(datas, |aling|)
    ensures |RenderedLines(header, datas, widths, aling, showHeader)| == |datas| + (if showHeader then 2 else 0)
    ensures showHeader ==> RenderedLines(header, datas, widths, aling, showHeader)[0] == Line(header, widths, aling)
    ensures showHeader ==> RenderedLines(header, datas, widths, aling, showHeader)[1] == Separator(widths)
  {
    var hs := HeaderLines(header, widths, aling, showHeader);
    var rs := RowLines(datas, widths, aling);
    assert RenderedLines(header, datas, widths, aling, showHeader) == hs + rs;
    if showHeader {
      assert (hs + rs)[0] == hs[0] && (hs + rs)[1] == hs[1];
    }
  }

  /** After the header lines comes the line of each data row, in order. */
  lemma RenderRowLines(header: seq<string>, datas: seq<seq<string>>, widths: seq<nat>,
                       aling: seq<Align>, showHeader: bool)
    requires showHeader ==> |header| <= |widths| && |header| <= |aling|
    requires Fits(datas, |widths|) && Fits(datas, |aling|)
    ensures var lines := RenderedLines(header, datas, widths, aling, showHeader);
      forall r :: 0 <= r < |datas| ==>
        r + |lines| - |datas| < |lines| && lines[r + |lines| - |datas|] == Line(datas[r], widths, aling)
  {
    var hs := HeaderLines(header, widths, aling, showHeader);
    var rs := RowLines(datas, widths, aling);
    var lines := RenderedLines(header, datas, widths, aling, showHeader);
    assert lines == hs + rs;
    forall r | 0 <= r < |datas|
      ensures r + |lines| - |datas| < |lines| && lines[r + |lines| - |datas|] == Line(datas[r], widths, aling)
    {
      assert lines[r + |lines| - |datas|] == rs[r];
    }
  }

  /** Every line of the rendering ends in `"|\n"`. */
  lemma RenderLinesEnd(header: seq<string>, datas: seq<seq<string>>, widths: seq<nat>,
                       aling: seq<Align>, showHeader: bool)
    requires showHeader ==> |header| <= |widths| && |header| <= |aling|
    requires Fits(datas, |widths|) && Fits(datas, |aling|)
    ensures var lines := RenderedLines(header, datas, widths, aling, showHeader);
      forall k :: 0 <= k < |lines| ==> |lines[k]| >= 2 && lines[k][|lines[k]| - 2..] == "|\n"
  {
    var hs := HeaderLines(header, widths, aling, showHeader);
    var rs := RowLines(datas, widths, aling);
    var lines := hs + rs;
    forall k | 0 <= k < |lines|
      ensures |lines[k]| >= 2 && lines[k][|lines[k]| - 2..] == "|\n"
    {
      if k < |hs| {
        if k == 0 {
          LineEnds(header, widths, aling);
        } else {
          SeparatorEnds(widths);
        }
      } else {
        LineEnds(datas[k - |hs|], widths, aling);
      }
    }
  }

  /** No character of `s` is a newline. */
  predicate SingleLine(s: string)
  {
    '\n' !in s
  }

  lemma AlignSingleLine(item: string, width: int, align: Align)
    requires SingleLine(item)
    ensures SingleLine(AlignElement(item, width, align))
  {
    var d := width - VisibleLen(item);
    assert '\n' !in Repeat(' ', d);
    assert '\n' !in Repeat(' ', TruncHalf(d));
    assert '\n' !in Repeat(' ', RoundHalf(d));
  }

  lemma {:induction false} FramedSingleLine(cs: seq<string>, n: nat)
    requires n <= |cs|
    requires forall i :: 0 <= i < |cs| ==> SingleLine(cs[i])
    ensures SingleLine(Framed(cs, n))
  {
    if n > 0 {
      FramedSingleLine(cs, n - 1);
    }
  }

  /** A line built from cells without newlines holds exactly one newline, its last character. */
  lemma LineNewlines(row: seq<string>, widths: seq<nat>, aling: seq<Align>)
    requires |row| <= |widths| && |row| <= |aling|
    requires forall i :: 0 <= i < |row| ==> SingleLine(row[i])
    ensures Count(Line(row, widths, aling), '\n') == 1
  {
    var cs := Aligned(row, widths, aling);
    forall i | 0 <= i < |cs|
      ensures SingleLine(cs[i])
    {
      AlignSingleLine(row[i], widths[i], aling[i]);
    }
    FramedSingleLine(cs, |row|);
    CountConcat(Framed(cs, |row|), "|\n", '\n');
  }

  lemma {:induction false} SepCellsSingleLine(widths: seq<nat>, n: nat)
    requires n <= |widths|
    ensures SingleLine(SepCells(widths, n))
  {
    if n > 0 {
      SepCellsSingleLine(widths, n - 1);
      assert '\n' !in Repeat('-', widths[n - 1]);
    }
  }

  lemma {:induction false} JoinNewlines(lines: seq<string>)
    requires forall k :: 0 <= k < |lines| ==> Count(lines[k], '\n') == 1
    ensures Count(Join(lines), '\n') == |lines|
    decreases |lines|
  {
    if lines != [] {
      var n := |lines| - 1;
      JoinNewlines(lines[..n]);
      CountConcat(Join(lines[..n]), lines[n], '\n');
    }
  }

  /** When no cell holds a newline, the rendering has exactly one newline per data row,
      plus two for the header and the separator when the header is shown. */
  lemma RenderNewlineCount(header: seq<string>, datas: seq<seq<string>>, widths: seq<nat>,
                           aling: seq<Align>, showHeader: bool)
    requires showHeader ==> |header| <= |widths| && |header| <= |aling|
    requires Fits(datas, |widths|) && Fits(datas, |aling|)
    requires forall i :: 0 <= i < |header| ==> SingleLine(header[i])
    requires forall r, i :: 0 <= r < |datas| && 0 <= i < |datas[r]| ==> SingleLine(datas[r][i])
    ensures Count(Render(header, datas, widths, aling, showHeader), '\n')
         == |datas| + (if showHeader then 2 else 0)
  {
    var hs := HeaderLines(header, widths, aling, showHeader);
    var rs := RowLines(datas, widths, aling);
    if showHeader {
      LineNewlines(header, widths, aling);
      SepCellsSingleLine(widths, |widths|);
      CountConcat(SepCells(widths, |widths|), "|\n", '\n');
    }
    forall r | 0 <= r < |datas|
      ensures Count(rs[r], '\n') == 1
    {
      LineNewlines(datas[r], widths, aling);
    }
    JoinNewlines(hs + rs);
  }

  /** A rendered cell adds its three border characters to the aligned text's width. */
  lemma FrameWidth(text: string)
    ensures VisibleLen(Frame(text)) == VisibleLen(text) + 3
  {
    VisibleLenSplit(text, " ");
    VisibleLenPlain(" ");
    VisibleLenPlainPrefix("| ", text + " ");
    assert Frame(text) == "| " + (text + " ");
  }

  /** Framed cells and separator pieces grow by the same amount per column when every
      aligned text shows exactly its column's width. */
  lemma {:induction false} FramedWidth(cs: seq<string>, widths: seq<nat>, n: nat)
    requires n <= |cs| && n <= |widths|
    requires forall i :: 0 <= i < n ==> VisibleLen(cs[i]) == widths[i]
    ensures VisibleLen(Framed(cs, n)) == |SepCells(widths, n)|
  {
    if n > 0 {
      FramedWidth(cs, widths, n - 1);
      FrameWidth(cs[n - 1]);
      VisibleLenSplit(Framed(cs, n - 1), Frame(cs[n - 1]));
      assert |SepCell(widths[n - 1])| == widths[n - 1] + 3;
    }
  }

  /** A cell shows exactly its column's width when it fits and is not a centred cell whose
      deficit is 1 modulo 4. */
  predicate FillsColumn(item: string, width: nat, align: Align)
  {
    VisibleLen(item) <= width && (align == Center ==> (width - VisibleLen(item)) % 4 != 1)
  }

  lemma FillsColumnWidth(item: string, width: nat, align: Align)
    requires FillsColumn(item, width, align)
    ensures VisibleLen(AlignElement(item, width, align)) == width
  {
    match align
    case Left => AlignLeft(item, width);
    case Right => AlignRight(item, width);
    case Center => AlignCenter(item, width);
  }

  /** A line whose every column is present and filled is exactly as wide on the terminal
      as the separator line. */
  lemma LineMatchesSeparator(row: seq<string>, widths: seq<nat>, aling: seq<Align>)
    requires |row| == |widths| <= |aling|
    requires forall i :: 0 <= i < |row| ==> FillsColumn(row[i], widths[i], aling[i])
    ensures VisibleLen(Line(row, widths, aling)) == VisibleLen(Separator(widths))
  {
    var cs := Aligned(row, widths, aling);
    forall i | 0 <= i < |row|
      ensures VisibleLen(cs[i]) == widths[i]
    {
      FillsColumnWidth(row[i], widths[i], aling[i]);
    }
    FramedWidth(cs, widths, |row|);
    VisibleLenSplit(Framed(cs, |row|), "|\n");
    VisibleLenPlain("|\n");
    SepCellsPlain(widths, |widths|);
    VisibleLenPlain(Separator(widths));
  }

  lemma {:induction false} SepCellsPlain(widths: seq<nat>, n: nat)
    requires n <= |widths|
    ensures forall k :: 0 <= k < |SepCells(widths, n)| ==> SepCells(widths, n)[k] != Esc
  {
    if n > 0 {
      SepCellsPlain(widths, n - 1);
    }
  }

  /** In a table with widths computed by `Widths`, every cell fits its column. */
  lemma CellsFitWidths(header: seq<string>, datas: seq<seq<string>>, r: nat, i: nat)
    requires Fits(datas, |header|)
    requires r < |datas| && i < |datas[r]|
    ensures VisibleLen(datas[r][i]) <= Widths(header, datas)[i]
  {
    ColumnWidthIsMax(header, datas, i);
  }

  /** The visible length of cell `j` of `row`, or 0 when the row is shorter. */
  function CellLen(row: seq<string>, j: nat): nat
  {
    if j < |row| then VisibleLen(row[j]) else 0
  }

  function Max(a: nat, b: nat): nat
  {
    if a > b then a else b
  }

  lemma ColumnWidthNoRows(header: seq<string>, j: nat)
    requires j < |header|
    ensures ColumnWidth(header, [], j) == VisibleLen(header[j])
  {
  }

  /** Taking one more row into account raises a width to that row's cell, if wider. */
  lemma ColumnWidthStep(header: seq<string>, datas: seq<seq<string>>, r: nat, j: nat)
    requires r < |datas| && j < |header|
    ensures ColumnWidth(header, datas[..r + 1], j)
         == Max(ColumnWidth(header, datas[..r], j), CellLen(datas[r], j))
  {
    var ds := datas[..r + 1];
    assert ds[..|ds| - 1] == datas[..r];
    assert ds[|ds| - 1] == datas[r];
  }

  lemma RowLinesStep(datas: seq<seq<string>>, widths: seq<nat>, aling: seq<Align>, r: nat)
    requires Fits(datas, |widths|) && Fits(datas, |aling|)
    requires r < |datas|
    ensures Join(RowLines(datas[..r + 1], widths, aling))
         == Join(RowLines(datas[..r], widths, aling)) + Line(datas[r], widths, aling)
  {
    var ds := datas[..r + 1];
    assert ds[..|ds| - 1] == datas[..r];
    var ls := RowLines(ds, widths, aling);
    assert ls[..|ls| - 1] == RowLines(datas[..r], widths, aling);
  }

  /** The Python class `Table`. The header, rows and alignments are fixed at construction;
      `widths` is `__longest_in_column`. */
  class Table {
    const header: seq<string>
    const datas: seq<seq<string>>
    const aling: seq<Align>
    const widths: array<nat>

    ghost predicate Valid()
      reads this, widths
    {
      && Fits(datas, |header|)
      && widths[..] == Widths(header, datas)
    }

    /** `Table.__init__`: starts every width at 0 and raises it to the visible length of
        the header cell and of every data cell of its column. A row with more cells than
        the header raises `IndexError` in the source, hence the precondition. */
    constructor (header: seq<string>, datas: seq<seq<string>>, aling: seq<Align> := DefaultAlign)
      requires Fits(datas, |header|)
      ensures this.header == header && this.datas == datas && this.aling == aling
      ensures fresh(widths) && Valid()
    {
      this.header := header;
      this.datas := datas;
      this.aling := aling;
      widths := new nat[|header|](_ => 0);
      new;
      for i := 0 to |header|
        invariant forall j :: 0 <= j < i ==> widths[j] == VisibleLen(header[j])
        invariant forall j :: i <= j < |header| ==> widths[j] == 0
      {
        var n := LenWithoutColor(header[i]);
        if n > widths[i] {
          widths[i] := n;
        }
      }
      forall j | 0 <= j < |header|
        ensures widths[j] == ColumnWidth(header, datas[..0], j)
      {
        ColumnWidthNoRows(header, j);
      }
      for r := 0 to |datas|
        invariant forall j :: 0 <= j < |header| ==> widths[j] == ColumnWidth(header, datas[..r], j)
      {
        var row := datas[r];
        ghost var prev := widths[..];
        forall j | 0 <= j < |header|
          ensures ColumnWidth(header, datas[..r + 1], j) == Max(prev[j], CellLen(row, j))
        {
          ColumnWidthStep(header, datas, r, j);
        }
        for i := 0 to |row|
          invariant forall j :: 0 <= j < i ==> widths[j] == Max(prev[j], CellLen(row, j))
          invariant forall j :: i <= j < |header| ==> widths[j] == prev[j]
        {
          var n := LenWithoutColor(row[i]);
          if n > widths[i] {
            widths[i] := n;
          }
        }
      }
      assert datas[..|datas|] == datas;
    }

    /** The loop `show` runs for the header and for every row: appends the row's cells
        and the closing `"|\n"` to `table`. */
    method AppendLine(table: string, row: seq<string>) returns (result: string)
      requires |row| <= widths.Length && |row| <= |aling|
      ensures result == table + Line(row, widths[..], aling)
    {
      var ws := widths[..];
      ghost var cs := Aligned(row, ws, aling);
      result := table;
      for i := 0 to |row|
        invariant result == table + Framed(cs, i)
      {
        var cell := "| " + AlignElement(row[i], ws[i], aling[i]) + " ";
        CellStep(table, row, ws, aling, i);
        result := result + cell;
      }
      FramedLine(table, row, ws, aling);
      result := result + "|\n";
    }

    /** `Table.show`: the header line and the separator when `showHeader`, then one line
        per row. Every column a line uses needs an alignment, or the source raises
        `IndexError`. */
    method Show(showHeader: bool := true) returns (table: string)
      requires Valid()
      requires showHeader ==> |header| <= |aling|
      requires Fits(datas, |aling|)
      ensures table == Render(header, datas, widths[..], aling, showHeader)
    {
      var ws := widths[..];
      table := "";
      if showHeader {
        table := AppendLine(table, header);
        ghost var line := table;
        for i := 0 to widths.Length
          invariant table == line + SepCells(ws, i)
        {
          Assoc(line, SepCells(ws, i), SepCell(ws[i]));
          table := table + ("|-" + Repeat('-', widths[i]) + "-");
        }
        Assoc(line, SepCells(ws, |ws|), "|\n");
        table := table + "|\n";
        assert [] + Line(header, ws, aling) == line;
        JoinTwo(line, Separator(ws));
      }
      ghost var head := table;
      assert head == Join(HeaderLines(header, ws, aling, showHeader));
      for r := 0 to |datas|
        invariant table == head + Join(RowLines(datas[..r], ws, aling))
      {
        RowLinesStep(datas, ws, aling, r);
        Assoc(head, Join(RowLines(datas[..r], ws, aling)), Line(datas[r], ws, aling));
        table := AppendLine(table, datas[r]);
      }
      assert datas[..|datas|] == datas;
      JoinConcat(HeaderLines(header, ws, aling, showHeader), RowLines(datas, ws, aling));
    }
  }

  /** In a rendered `Table`, every full row whose cells fill their columns is exactly as
      wide on the terminal as the separator. */
  lemma TableRowsAligned(header: seq<string>, datas: seq<seq<string>>, aling: seq<Align>, r: nat)
    requires Fits(datas, |header|) && |header| <= |aling|
    requires r < |datas| && |datas[r]| == |header|
    requires forall i :: 0 <= i < |header| && aling[i] == Center
               ==> (Widths(header, datas)[i] - VisibleLen(datas[r][i])) % 4 != 1
    ensures VisibleLen(Line(datas[r], Widths(header, datas), aling))
         == VisibleLen(Separator(Widths(header, datas)))
  {
    var ws := Widths(header, datas);
    forall i | 0 <= i < |header|
      ensures FillsColumn(datas[r][i], ws[i], aling[i])
    {
      CellsFitWidths(header, datas, r, i);
    }
    LineMatchesSeparator(datas[r], ws, aling);
  }
}
