/** The report of cts.py: the colour tier of a row, the text loading bar, `str()` of a
    file count, and `prep_table_data`, which turns the sorted `FileData` entries into the
    coloured rows of the table `main` shows. */
module Report {
  import opened Text
  import opened Colors
  import opened Tables
  import opened Aggregation

  /** The block character of a full bar cell. */
  const Block: char := '\U{2588}'

  /** `loading_bar`'s default `bar_lenght`. */
  const BarLength: nat := 22

  /** The header and the alignments `main` gives the table. */
  const MainHeader: seq<string> := ["File types", "Lines / all lines", "File count"]
  const MainAlign: seq<Align> := [Left, Center, Right]

  /** The tier of a row whose percentage is the fraction `r` of the first row's: 4 above
      0.9, 3 above 0.75, 2 above 0.5, 1 above 0.25, else 0. */
  function Level(r: real): (n: nat)
    ensures n <= 4
  {
    if r > 0.9 then 4 else if r > 0.75 then 3 else if r > 0.5 then 2 else if r > 0.25 then 1 else 0
  }

  /** The colour of each tier, from the lowest: none, bright magenta, bright blue, bright
      yellow, bright red. */
  const TierColors: seq<string> := ["", BrightMagenta, BrightBlue, BrightYellow, BrightRed]

  /** The `_color` of `prep_table_data` for the ratio `r`. */
  function Tier(r: real): string
  {
    TierColors[Level(r)]
  }

  /** A larger ratio never gets a lower tier, and every tier colour is empty or one of
      the codes `Table` strips. */
  lemma TierMonotone(r1: real, r2: real)
    requires r1 <= r2
    ensures Level(r1) <= Level(r2)
    ensures Tier(r1) == [] || Tier(r1) in Codes
  {
  }

  /** Python's `round(x)`: the nearest integer, a tie going to the even one. */
  function RoundReal(x: real): (n: int)
    ensures -0.5 <= n as real - x <= 0.5
    ensures (n as real - x == 0.5 || x - n as real == 0.5) ==> n % 2 == 0
  {
    var f := x.Floor;
    var frac := x - f as real;
    if frac < 0.5 then f
    else if frac > 0.5 then f + 1
    else if f % 2 == 0 then f
    else f + 1
  }

  /** Python's `s[n:]`: a negative `n` counts from the end, and an `n` past either end
      clamps. */
  function SliceFrom(s: string, n: int): (r: string)
    ensures |r| <= |s|
  {
    if n >= |s| then []
    else if n >= 0 then s[n..]
    else if n + |s| >= 0 then s[n + |s|..]
    else s
  }

  /** The number of full cells of a bar of `barLength` cells for `count` out of `all`. */
  function FullCells(count: int, all: int, barLength: nat): int
    requires all != 0
  {
    RoundReal(barLength as real * (count as real / all as real))
  }

  /** `loading_bar`: `round(bar_lenght * count / all)` full blocks, then the rest of a
      blank bar of `bar_lenght` cells. */
  function LoadingBar(count: int, all: int, barLength: nat): string
    requires all != 0
  {
    var bar := Repeat(' ', barLength);
    var n := FullCells(count, all, barLength);
    Repeat(Block, n) + SliceFrom(bar, n)
  }

  /** For `0 <= count <= all` the bar has exactly `barLength` cells: the full cells, the
      nearest integer to `barLength * count / all`, then blanks. */
  lemma LoadingBarShape(count: int, all: int, barLength: nat)
    requires 0 <= count <= all && all > 0
    ensures var n := FullCells(count, all, barLength);
      && 0 <= n <= barLength
      && -0.5 <= n as real - barLength as real * (count as real / all as real) <= 0.5
      && LoadingBar(count, all, barLength) == Repeat(Block, n) + Repeat(' ', barLength - n)
      && |LoadingBar(count, all, barLength)| == barLength
  {
    FullCellsBounds(count, all, barLength);
    var n := FullCells(count, all, barLength);
    var bar := Repeat(' ', barLength);
    if n < barLength {
      assert SliceFrom(bar, n) == Repeat(' ', barLength - n);
    }
  }

  lemma FullCellsBounds(count: int, all: int, barLength: nat)
    requires 0 <= count <= all && all > 0
    ensures 0 <= FullCells(count, all, barLength) <= barLength
  {
    FractionBounds(count, all);
    ScaleBounds(barLength as real, count as real / all as real);
    assert 0.0 <= barLength as real * (count as real / all as real) <= barLength as real;
    RoundBounds(barLength as real * (count as real / all as real), barLength);
  }

  /** Rounding a value between 0 and `l` stays between 0 and `l`. */
  lemma RoundBounds(x: real, l: int)
    requires 0.0 <= x <= l as real
    ensures 0 <= RoundReal(x) <= l
  {
    var n := RoundReal(x);
    assert n as real >= -0.5 && n as real <= l as real + 0.5;
  }

  lemma FractionBounds(count: int, all: int)
    requires 0 <= count <= all && all > 0
    ensures 0.0 <= count as real / all as real <= 1.0
  {
    var f := count as real / all as real;
    assert f * all as real == count as real;
  }

  lemma ScaleBounds(l: real, f: real)
    requires l >= 0.0 && 0.0 <= f <= 1.0
    ensures 0.0 <= l * f <= l
  {
    assert l - l * f == l * (1.0 - f);
  }

  /** The bar is plain text: it holds no escape character. */
  lemma LoadingBarPlain(count: int, all: int, barLength: nat)
    requires all != 0
    ensures forall k :: 0 <= k < |LoadingBar(count, all, barLength)| ==> LoadingBar(count, all, barLength)[k] != Esc
  {
    var bar := Repeat(' ', barLength);
    var n := FullCells(count, all, barLength);
    var s := SliceFrom(bar, n);
    assert forall k :: 0 <= k < |s| ==> s[k] == ' ' by {
      if n >= |bar| {
      } else if n >= 0 {
        assert forall k :: 0 <= k < |s| ==> s[k] == bar[n + k];
      } else if n + |bar| >= 0 {
        assert forall k :: 0 <= k < |s| ==> s[k] == bar[n + |bar| + k];
      }
    }
  }

  function DigitChar(d: nat): char
    requires d < 10
  {
    ('0' as int + d) as char
  }

  /** Python's `str(n)` for a non-negative integer: decimal digits, no leading zero. */
  function NatToString(n: nat): (s: string)
    ensures |s| >= 1
    ensures forall k :: 0 <= k < |s| ==> '0' <= s[k] <= '9'
    ensures |s| > 1 ==> s[0] != '0'
  {
    if n < 10 then [DigitChar(n)] else NatToString(n / 10) + [DigitChar(n % 10)]
  }

  /** Reading decimal digits back: `int(s)`. */
  function ParseDecimal(s: string): nat
    requires forall k :: 0 <= k < |s| ==> '0' <= s[k] <= '9'
  {
    if s == [] then 0
    else ParseDecimal(s[..|s| - 1]) * 10 + (s[|s| - 1] as int - '0' as int)
  }

  /** `int(str(n)) == n`. */
  lemma {:induction false} NatToStringRoundTrip(n: nat)
    ensures ParseDecimal(NatToString(n)) == n
  {
    var s := NatToString(n);
    if n >= 10 {
      NatToStringRoundTrip(n / 10);
      assert s[..|s| - 1] == NatToString(n / 10);
    }
  }

  /** The rows `prep_table_data` looks at before the cutoff: all of them for -1, none for
      any other negative cutoff, at most `cutoff` otherwise. */
  function Reached(n: nat, cutoff: int): (m: nat)
    ensures m <= n
  {
    if cutoff == -1 then n else if cutoff < 0 then 0 else if cutoff < n then cutoff else n
  }

  /** Is the row with percentage `p` cut off by `hide_negligible`? */
  predicate Negligible(p: real, hideNegligible: bool)
  {
    p < 0.01 && hideNegligible
  }

  /** The number of rows emitted from the first `limit`: up to the first negligible one. */
  function Emitted(percents: seq<real>, limit: nat, hideNegligible: bool): (e: nat)
    requires limit <= |percents|
    ensures e <= limit
    ensures forall j :: 0 <= j < e ==> !Negligible(percents[j], hideNegligible)
    ensures e < limit ==> Negligible(percents[e], hideNegligible)
  {
    if limit == 0 then 0
    else
      var e := Emitted(percents, limit - 1, hideNegligible);
      if e < limit - 1 || Negligible(percents[limit - 1], hideNegligible) then e else limit
  }

  /** The three cells of the row for `fd`: extension, bar and percentage, file count, each
      in `color` and followed by the reset code. */
  function RowCells(fd: FileData, color: string, bar: string, percentText: string): seq<string>
  {
    [Wrap(color, fd.ext), Wrap(color, bar + percentText), Wrap(color, NatToString(fd.fileCount))]
  }

  /** What `prep_table_data` requires of its inputs so that it does not divide by zero:
      `lines_sum` is not 0 when a row is reached, and the first row's percentage is not 0
      when a row is emitted. The percentages and their formatted texts come with the
      entries. */
  predicate PrepInputs(fileDatas: seq<FileData>, percents: seq<real>, percentTexts: seq<string>,
                       linesSum: nat, cutoff: int, hideNegligible: bool)
  {
    && |percents| == |fileDatas| && |percentTexts| == |fileDatas|
    && (Reached(|fileDatas|, cutoff) > 0 ==> linesSum > 0)
    && (Emitted(percents, Reached(|fileDatas|, cutoff), hideNegligible) > 0 ==> percents[0] != 0.0)
  }

  /** Row `i` as `prep_table_data` builds it. */
  function Row(fileDatas: seq<FileData>, percents: seq<real>, percentTexts: seq<string>,
               linesSum: nat, i: nat): seq<string>
    requires i < |fileDatas| && |percents| == |fileDatas| && |percentTexts| == |fileDatas|
    requires linesSum > 0 && percents[0] != 0.0
  {
    RowCells(fileDatas[i], Tier(percents[i] / percents[0]),
             LoadingBar(fileDatas[i].lineCount, linesSum, BarLength), percentTexts[i])
  }

  /** The rows `prep_table_data` returns. */
  function Rows(fileDatas: seq<FileData>, percents: seq<real>, percentTexts: seq<string>,
                linesSum: nat, cutoff: int, hideNegligible: bool): (rows: seq<seq<string>>)
    requires PrepInputs(fileDatas, percents, percentTexts, linesSum, cutoff, hideNegligible)
    ensures |rows| == Emitted(percents, Reached(|fileDatas|, cutoff), hideNegligible)
  {
    var e := Emitted(percents, Reached(|fileDatas|, cutoff), hideNegligible);
    seq(e, i requires 0 <= i < e => Row(fileDatas, percents, percentTexts, linesSum, i))
  }

  /** `prep_table_data`: walks the entries in order, stops at the cutoff or, when hiding
      negligible entries, at the first below 0.01 percent, and emits a coloured row for
      each entry before that. */
  method PrepTableData(fileDatas: seq<FileData>, percents: seq<real>, percentTexts: seq<string>,
                       linesSum: nat, cutoff: int, hideNegligible: bool) returns (datas: seq<seq<string>>)
    requires PrepInputs(fileDatas, percents, percentTexts, linesSum, cutoff, hideNegligible)
    ensures datas == Rows(fileDatas, percents, percentTexts, linesSum, cutoff, hideNegligible)
  {
    ghost var limit := Reached(|fileDatas|, cutoff);
    ghost var e := Emitted(percents, limit, hideNegligible);
    datas := [];
    var percentageMax := 0.0;
    var i := 0;
    while i < |fileDatas|
      invariant i <= e
      invariant |datas| == i
      invariant forall j :: 0 <= j < i ==> datas[j] == Row(fileDatas, percents, percentTexts, linesSum, j)
      invariant i > 0 ==> percentageMax == percents[0]
    {
      if i >= cutoff && cutoff != -1 {
        break;
      }
      var percentage := percents[i];
      if percentage < 0.01 && hideNegligible {
        break;
      }
      if i == 0 {
        percentageMax := percentage;
      }
      assert i < e;
      var color := "";
      if percentage / percentageMax > 0.9 {
        color := BrightRed;
      } else if percentage / percentageMax > 0.75 {
        color := BrightYellow;
      } else if percentage / percentageMax > 0.5 {
        color := BrightBlue;
      } else if percentage / percentageMax > 0.25 {
        color := BrightMagenta;
      }
      assert color == Tier(percents[i] / percents[0]);
      var fd := fileDatas[i];
      var row := [Wrap(color, fd.ext),
                  Wrap(color, LoadingBar(fd.lineCount, linesSum, BarLength) + percentTexts[i]),
                  Wrap(color, NatToString(fd.fileCount))];
      assert row == Row(fileDatas, percents, percentTexts, linesSum, i);
      datas := datas + [row];
      i := i + 1;
    }
  }

  /** The cutoff bounds the rows: at most `cutoff` rows for a non-negative cutoff, none for
      a cutoff below -1, and without `hide_negligible` exactly the reached ones (all of
      them for -1). */
  lemma RowsCutoff(fileDatas: seq<FileData>, percents: seq<real>, percentTexts: seq<string>,
                   linesSum: nat, cutoff: int, hideNegligible: bool)
    requires PrepInputs(fileDatas, percents, percentTexts, linesSum, cutoff, hideNegligible)
    ensures var n := |Rows(fileDatas, percents, percentTexts, linesSum, cutoff, hideNegligible)|;
      && (cutoff >= 0 ==> n <= cutoff)
      && (cutoff < -1 ==> n == 0)
      && (!hideNegligible ==> n == Reached(|fileDatas|, cutoff))
      && (!hideNegligible && cutoff == -1 ==> n == |fileDatas|)
  {
    if !hideNegligible {
      NothingNegligible(percents, Reached(|fileDatas|, cutoff));
    }
  }

  lemma {:induction false} NothingNegligible(percents: seq<real>, limit: nat)
    requires limit <= |percents|
    ensures Emitted(percents, limit, false) == limit
  {
    if limit > 0 {
      NothingNegligible(percents, limit - 1);
    }
  }

  /** With `hide_negligible`, every row shown is at least 0.01 percent, and when rows stop
      before the cutoff it is because the next entry is below 0.01 percent. */
  lemma RowsHideNegligible(fileDatas: seq<FileData>, percents: seq<real>, percentTexts: seq<string>,
                           linesSum: nat, cutoff: int)
    requires PrepInputs(fileDatas, percents, percentTexts, linesSum, cutoff, true)
    ensures var n := |Rows(fileDatas, percents, percentTexts, linesSum, cutoff, true)|;
      && (forall j :: 0 <= j < n ==> percents[j] >= 0.01)
      && (n < Reached(|fileDatas|, cutoff) ==> percents[n] < 0.01)
  {
  }

  /** The first row is always bright red: its percentage is the largest by definition. */
  lemma FirstRowBrightRed(fileDatas: seq<FileData>, percents: seq<real>, percentTexts: seq<string>,
                          linesSum: nat, cutoff: int, hideNegligible: bool)
    requires PrepInputs(fileDatas, percents, percentTexts, linesSum, cutoff, hideNegligible)
    requires |Rows(fileDatas, percents, percentTexts, linesSum, cutoff, hideNegligible)| > 0
    ensures Rows(fileDatas, percents, percentTexts, linesSum, cutoff, hideNegligible)[0][0]
         == BrightRed + fileDatas[0].ext + Reset
  {
    assert percents[0] / percents[0] == 1.0;
  }

  /** For entries sorted by descending percentage, the tiers of the rows never rise. */
  lemma RowTiersDescend(percents: seq<real>, i: nat, j: nat)
    requires i <= j < |percents| && percents[0] > 0.0
    requires forall a, b :: 0 <= a <= b < |percents| ==> percents[a] >= percents[b]
    ensures Level(percents[j] / percents[0]) <= Level(percents[i] / percents[0])
  {
    assert percents[j] / percents[0] <= percents[i] / percents[0] by {
      DivMonotone(percents[j], percents[i], percents[0]);
    }
    TierMonotone(percents[j] / percents[0], percents[i] / percents[0]);
  }

  lemma DivMonotone(a: real, b: real, d: real)
    requires a <= b && d > 0.0
    ensures a / d <= b / d
  {
    assert b / d - a / d == (b - a) / d;
  }

  /** What the terminal shows of a row: the extension, the full-width bar and the
      percentage text, and the file count, when none of them holds an escape character
      and the entry's lines are at most `lines_sum`. */
  lemma RowVisible(fileDatas: seq<FileData>, percents: seq<real>, percentTexts: seq<string>,
                   linesSum: nat, cutoff: int, hideNegligible: bool, i: nat)
    requires PrepInputs(fileDatas, percents, percentTexts, linesSum, cutoff, hideNegligible)
    requires i < |Rows(fileDatas, percents, percentTexts, linesSum, cutoff, hideNegligible)|
    requires fileDatas[i].lineCount <= linesSum
    requires forall k :: 0 <= k < |fileDatas[i].ext| ==> fileDatas[i].ext[k] != Esc
    requires forall k :: 0 <= k < |percentTexts[i]| ==> percentTexts[i][k] != Esc
    ensures var row := Rows(fileDatas, percents, percentTexts, linesSum, cutoff, hideNegligible)[i];
      && |row| == 3
      && StripCodes(row[0], Codes) == fileDatas[i].ext
      && VisibleLen(row[1]) == BarLength + |percentTexts[i]|
      && StripCodes(row[2], Codes) == NatToString(fileDatas[i].fileCount)
  {
    var color := Tier(percents[i] / percents[0]);
    TierMonotone(percents[i] / percents[0], percents[i] / percents[0]);
    var fd := fileDatas[i];
    var bar := LoadingBar(fd.lineCount, linesSum, BarLength);
    LoadingBarShape(fd.lineCount, linesSum, BarLength);
    LoadingBarPlain(fd.lineCount, linesSum, BarLength);
    WrapRoundTrip(color, fd.ext);
    WrapVisibleLen(color, bar + percentTexts[i]);
    var digits := NatToString(fd.fileCount);
    assert forall k :: 0 <= k < |digits| ==> digits[k] != Esc;
    WrapRoundTrip(color, digits);
  }

  /** Every row has the three cells the header and the alignments of `main` describe, so
      the table can be built and shown without an `IndexError`. */
  lemma RowsFitMainTable(fileDatas: seq<FileData>, percents: seq<real>, percentTexts: seq<string>,
                         linesSum: nat, cutoff: int, hideNegligible: bool)
    requires PrepInputs(fileDatas, percents, percentTexts, linesSum, cutoff, hideNegligible)
    ensures var rows := Rows(fileDatas, percents, percentTexts, linesSum, cutoff, hideNegligible);
      Fits(rows, |MainHeader|) && Fits(rows, |MainAlign|)
  {
  }
}
