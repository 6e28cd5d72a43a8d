# code-tree-stats in Dafny

`cts.py` walks a directory tree and counts the newline bytes of every file that
passes its filter (cts.py:221): not binary unless `-B` is given, an extension longer
than the dot alone, and not under a hidden folder. It groups the counts by file extension and prints a coloured text table. The table
has one row per extension, sorted by line count, with a share-of-lines bar and
the number of files.

This project models the core of that program and proves properties of the model.
There are six modules, one file each:

- `text.dfy` (`Text`): Python's `ch * n` (`Repeat`) and `seq.count` (`Count`).
- `colors.dfy` (`Colors`):
  - the seventeen ANSI codes of the class `Color`, in declaration order;
  - `str.replace(code, "")` (`ReplaceAll`);
  - `Table.__len_without_color`: the loop `LenWithoutColor`, specified by `VisibleLen`;
  - wrapping a text in a colour and the reset code (`Wrap`).
- `tables.dfy` (`Tables`): the `Table` class.
  - `__init__` is a constructor that fills the `widths` array (`__longest_in_column`).
  - `__align_element` is the function `AlignElement`.
  - `show` is the method `Show`, specified by the function `Render`.
  - `AppendLine` is the loop `show` runs for each line.
- `files.dfy` (`Files`):
  - `count_lines` over the successive results of its raw reads;
  - `is_folder_hidden`.
- `aggregation.dfy` (`Aggregation`), the collection part of `main`:
  - the file filter, `files_sum`, `lines_sum` and `file_datas_raw` (method `Scan`);
  - the fold into one `FileData` per extension and the sort (method `Aggregate`).
  - `Aggregate` is specified by `Grouped`, one entry per distinct extension in first-seen order, and `SortByLines`, a stable insertion sort.
- `report.dfy` (`Report`): `loading_bar`, the colour tier of a row, `str()` of a count and `prep_table_data`.
  - `prep_table_data` is the method `PrepTableData`, a loop with its two `break`s, specified by the function `Rows`.

Column widths are measured on the text left after the colour codes are deleted.

Centred cells follow the code exactly:
- `int(d / 2)` spaces go before the cell and `round(d / 2)` after it, with Python's round-half-to-even.
- A centred cell whose deficit `d` is 1 modulo 4 therefore ends up one character short of its column.
- `AlignCenter` and `TableRowsAligned` state when a row is exactly as wide as the separator.

Two behaviours of the code shape the model of `prep_table_data`:
- A first row at 0 percent divides by zero at cts.py:188. `PrepInputs` makes a non-zero first percentage a precondition whenever a row is emitted.
- One colour per row, taken from the row's line percentage, wraps all three cells (cts.py:187-199).

## Model

| member | source | states |
|---|---|---|
| Colors.ReplaceAllUnchanged | cts.py:64-66 | deleting a non-empty code leaves a text unchanged exactly when the code does not occur in it |
| Colors.LenWithoutColor | cts.py:64-68 | the loop that deletes each of the 17 codes in declaration order and takes the length returns `VisibleLen` of the text |
| Colors.WrapRoundTrip | cts.py:64-68 | deleting the codes from `color + text + reset` (a cell of `prep_table_data`) gives back the plain text, for no colour or any code |
| Colors.WrapVisibleLen | cts.py:64-68 | such a wrapped cell's visible length is the length of its text |
| Colors.StripSplit | cts.py:64-66 | deleting the codes from a concatenation deletes them from each part when the second part does not start with a code character |
| Colors.VisibleLenSplit | cts.py:64-68 | the visible length of such a concatenation is the sum of the parts' visible lengths |
| Colors.VisibleLenPlain | cts.py:64-68 | a text without an escape character has visible length equal to its length |
| Tables.TruncHalf | cts.py:75 | `int(d / 2)` is half of `d` truncated toward zero: `d - 2h` is 0 or 1 for `d >= 0`, 0 or -1 below |
| Tables.RoundHalf | cts.py:76 | `round(d / 2)` is within one half of `d / 2`, and a tie goes to the even integer |
| Tables.HalvesSum | cts.py:75-76 | for `d >= 0` the two halves add up to `d`, except `d - 1` when `d % 4 == 1` |
| Tables.AlignLeft | cts.py:79-80 | a left-aligned cell is the item followed by `width - visible` spaces, and shows exactly `width` characters |
| Tables.AlignRight | cts.py:71-72 | a right-aligned cell is the spaces followed by the item, and shows exactly `width` characters |
| Tables.AlignCenter | cts.py:73-78 | a centred cell is `d / 2` spaces, the item and `round(d / 2)` spaces; it shows `width - 1` characters when `d % 4 == 1`, otherwise `width` |
| Tables.AlignOverflow | cts.py:70-82 | a cell at least as wide as its column is returned unchanged under every alignment |
| Tables.DataWidthIsMax | cts.py:59-62 | the data rows' width of a column bounds every cell present in that column and, unless 0, equals one of them |
| Tables.ColumnWidthIsMax | cts.py:52-62 | each column width is at least the header cell and every data cell, and equals one of them |
| Tables.CellsFitWidths | cts.py:52-62 | every data cell fits the width computed for its column |
| Tables.Table.constructor | cts.py:47-62 | `__init__` keeps header, rows and alignments (three left alignments by default), and its loops leave `widths` equal to the maximum visible length per column |
| Tables.Table.AppendLine | cts.py:88-91 | appending a line adds each aligned cell between a bar-and-space and a space, then the closing bar and newline |
| Tables.Table.Show | cts.py:84-103 | `show` (showing the header by default) returns `Render`: the header line and separator when asked, then one line per row, in order |
| Tables.RenderLines | cts.py:84-95 | the rendered lines number two more than the rows with the header and one per row without; with the header, line 0 is the header line and line 1 the separator |
| Tables.RenderRowLines | cts.py:97-101 | after the header lines, line `r` of the rest is the line of data row `r`, in order |
| Tables.RenderLinesEnd | cts.py:91-101 | every line of the rendering ends in a bar and a newline |
| Tables.RenderNewlineCount | cts.py:84-103 | when no cell holds a newline, the rendering holds one newline per row plus two with the header |
| Tables.LineMatchesSeparator | cts.py:93-101 | a full row whose cells fill their columns is as wide on the terminal as the separator |
| Tables.TableRowsAligned | cts.py:49-103 | in a table built by `__init__`, every full row with no centred cell short by one is as wide as the separator |
| Files.TakeNonEmpty | cts.py:131-132 | `takewhile` keeps the longest prefix of non-empty reads, and the read after it is empty |
| Files.CountLinesIsNewlines | cts.py:129-133 | whatever the chunk sizes, `count_lines` returns the number of newline bytes of the file's content |
| Files.CountLinesStopsAtEmpty | cts.py:131-132 | reads after the first empty one do not change the count |
| Files.RegularReads | cts.py:129-133 | reading a file in chunks of 1 MiB forms a valid read sequence, so the count is its newline count |
| Files.EmptyFileHasNoLines | cts.py:129-133 | an empty file counts 0 lines |
| Files.ContainsOccurs | cts.py:110-111 | Python's substring test holds exactly when the pattern occurs at some position |
| Files.IsFolderHiddenMeans | cts.py:110-111 | a folder is hidden exactly when some `/` or `\` in its path is directly followed by a dot |
| Aggregation.ExtensionShape | cts.py:221 | `splitext(name)[1]` is empty or a suffix of the name that starts with its only dot and holds no separator |
| Aggregation.ExtensionOf | cts.py:221 | a name whose last component has a character other than a dot before a final `"." + e` (with no dot or separator in `e`) has the extension `"." + e` |
| Aggregation.LowerIdempotent | cts.py:226 | lowering is idempotent and leaves no upper-case ASCII letter |
| Aggregation.Scan | cts.py:219-226 | the walk loop keeps the files the filter admits; `files_sum` is their number and `lines_sum` the sum of their line counts |
| Aggregation.KeptRecords | cts.py:221-226 | every raw record has a lower-case extension of a dot and at least one more character, and a file count of 0 |
| Aggregation.ExtsDistinct | cts.py:228-235 | the grouped extensions are pairwise distinct and are exactly those of the raw records |
| Aggregation.ExtsFirstSeen | cts.py:228-235 | the grouped extensions appear in the order their first records do |
| Aggregation.GroupedAppendKnown | cts.py:229-233 | a record with a known extension adds its lines and one file to that extension's entry and to no other |
| Aggregation.GroupedAppendNew | cts.py:234-235 | a record with a new extension appends an entry with its lines and a file count of 1 |
| Aggregation.GroupedTotals | cts.py:228-235 | grouping keeps the totals: the entries' lines add up to the records' lines, their file counts to the number of records |
| Aggregation.Aggregate | cts.py:228-237 | the fold loop and the sort return `SortByLines(Grouped(raw))` |
| Aggregation.SortByLinesSorted | cts.py:237 | the sort orders entries by descending line count |
| Aggregation.SortByLinesPermutes | cts.py:237 | the sort returns a permutation of its input |
| Aggregation.SortByLinesStable | cts.py:237 | entries with the same line count keep their relative order |
| Aggregation.AggregateTotals | cts.py:222-237 | the final list is sorted, names each extension once, and its lines and file counts add up to `lines_sum` and `files_sum` |
| Report.Level | cts.py:187-195 | the tier of a ratio is a level from 0 to 4 |
| Report.TierMonotone | cts.py:187-195 | a larger ratio never gets a lower tier, and every tier colour is no colour or one of the codes |
| Report.RoundReal | cts.py:159 | `round` returns the nearest integer, a tie going to the even one |
| Report.LoadingBarShape | cts.py:156-160 | for `0 <= count <= all`: the bar is the nearest integer to `22 * count / all` of blocks then spaces, 22 cells in all |
| Report.LoadingBarPlain | cts.py:156-160 | the bar holds no escape character |
| Report.NatToString | cts.py:199 | `str(n)` is a non-empty string of decimal digits without a leading zero |
| Report.NatToStringRoundTrip | cts.py:199 | reading the digits of `str(n)` back gives `n` |
| Report.Emitted | cts.py:171-182 | the emitted rows are the longest prefix of the reached ones without a negligible row; the row after them, if reached, is negligible |
| Report.PrepTableData | cts.py:167-201 | the loop with its two `break`s returns `Rows`: one row of three wrapped cells per emitted entry, in order |
| Report.RowsCutoff | cts.py:171-173 | at most `cutoff` rows for a cutoff of 0 or more; none below -1; all reached rows without `hide_negligible`; without `hide_negligible`, all rows for -1 |
| Report.RowsHideNegligible | cts.py:181-182 | with `hide_negligible` every shown row is at least 0.01 percent, and an early stop is at a row below it |
| Report.FirstRowBrightRed | cts.py:184-189 | the first row is always bright red |
| Report.RowTiersDescend | cts.py:184-195 | for percentages sorted descending, later rows never get a higher tier |
| Report.RowVisible | cts.py:197-199 | a row shows the extension, a 22-cell bar with the percentage text, and the file count, once the codes are deleted |
| Report.RowsFitMainTable | cts.py:241-243 | every row has exactly the three cells the header and alignments of `main` describe |

## Left out

- The directory walk (`os.walk`), `is_binary` and the reading of files are I/O. `Scan` takes what they yield as a sequence of `FoundFile` values. `count_lines` takes the successive results of its raw reads as a sequence of byte chunks.
- The loading animation thread, `run_thread`, `os.system`, `argparse` and `print` are not modelled: they are I/O or concurrency with no effect on the statistics.
- Floating point is not modelled:
  - Percentages are exact reals supplied by the caller, with their formatted `" 12.34%"` texts.
  - `round(..., 4) * 100` and the format strings are not modelled.
  - The loading bar's `count / all` is exact rational arithmetic.
- `Colors.VisibleLen`: only the 17 colour codes are deleted. `vars(Color)` also yields the class's other attributes: its module name `__main__`, `None` for its docstring, descriptor strings, and on Python 3.13 and later `__firstlineno__` (the line of `class Color:`, 22) and `__static_attributes__` (`()`). The source deletes the `str()` of those too, so a cell containing `None`, `__main__`, `22` or `()` is measured shorter: a file count of 22 measures 0 wide there. The model does not capture this.
- `Aggregation.Lower` lowers ASCII letters only. Python's `str.lower` also maps non-ASCII letters.
- `Aggregation.Extension` follows POSIX `splitext` (separator `/`). The Windows variant, which also splits on `\`, is not modelled.
- `Aggregation.Aggregate` works on values. The source mutates shared `FileData` objects in `file_datas` in place; nothing else refers to them, so nothing is lost.
- `Aggregation.SortByLines` is specified as a stable insertion sort rather than Timsort. Both are stable, so they return the same list.
- `Report.PrepTableData`: the source's division-by-zero failures become preconditions (`PrepInputs`). One is `lines_sum == 0` while a row is reached; the other is a first percentage of 0 while a row is emitted.
- `Tables.Table.constructor`: a row with more cells than the header raises `IndexError` in the source; this is its precondition.
- `Tables.Table.Show`: an alignment list shorter than a line raises `IndexError` in the source; this is its precondition.
