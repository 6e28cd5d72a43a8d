/** The collection part of cts.py's `main`: which walked files are counted, the running
    totals `files_sum` and `lines_sum`, the fold of the per-file records into one
    `FileData` per extension, and the sort by line count. */
module Aggregation {
  import opened Text
  import opened Files

  /** The dataclass `FileData`. */
  datatype FileData = FileData(ext: string, lineCount: nat, fileCount: nat)

  /** What the directory walk yields for one file: the folder it is in, its name, whether
      `is_binary` holds of it and what `count_lines` returns for it. */
  datatype FoundFile = FoundFile(dir: string, name: string, binary: bool, lineCount: nat)

  /** The index of the last `c` in `s`, or -1: Python's `s.rfind(c)`. */
  function LastIndexOf(s: string, c: char): (i: int)
    ensures -1 <= i < |s|
    ensures i >= 0 ==> s[i] == c
    ensures forall k :: i < k < |s| ==> s[k] != c
  {
    if s == [] then -1
    else if s[|s| - 1] == c then |s| - 1
    else LastIndexOf(s[..|s| - 1], c)
  }

  /** `os.path.splitext(name)[1]` with POSIX separators: from the last dot of the last
      path component to the end, unless every character of the component before that dot
      is a dot too (so `.bashrc` has no extension). */
  function Extension(name: string): string
  {
    var sep := LastIndexOf(name, '/');
    var dot := LastIndexOf(name, '.');
    if dot > sep && exists k :: sep < k < dot && name[k] != '.' then name[dot..] else ""
  }

  /** An extension is empty, or a suffix of the name that starts with its only dot and
      holds no separator. */
  lemma ExtensionShape(name: string)
    ensures var ext := Extension(name);
      && (ext == [] || (ext[0] == '.' && '.' !in ext[1..] && '/' !in ext))
      && |ext| <= |name| && name[|name| - |ext|..] == ext
  {
    var ext := Extension(name);
    if ext != [] {
      var sep := LastIndexOf(name, '/');
      var dot := LastIndexOf(name, '.');
      assert ext == name[dot..];
      forall k | 0 <= k < |ext| ensures ext[k] != '/' && (k > 0 ==> ext[k] != '.') {
        assert ext[k] == name[dot + k];
      }
    }
  }

  /** Appending characters other than `c` leaves the last `c` where it was. */
  lemma {:induction false} LastIndexOfAppend(a: string, b: string, c: char)
    requires forall j :: 0 <= j < |b| ==> b[j] != c
    ensures LastIndexOf(a + b, c) == LastIndexOf(a, c)
    decreases |b|
  {
    if b != [] {
      var s := a + b;
      var m := |b| - 1;
      assert s[..|s| - 1] == a + b[..m];
      assert s[|s| - 1] == b[m];
      LastIndexOfAppend(a, b[..m], c);
    } else {
      assert a + b == a;
    }
  }

  /** The last dot of `root + "." + e`, for an `e` without dots and separators, is the
      added one, and its last separator is the last separator of `root`. */
  lemma LastMarks(root: string, e: string)
    requires forall j :: 0 <= j < |e| ==> e[j] != '/' && e[j] != '.'
    ensures LastIndexOf(root + "." + e, '.') == |root|
    ensures LastIndexOf(root + "." + e, '/') == LastIndexOf(root, '/')
  {
    var r := root + ".";
    assert r[|r| - 1] == '.' && r[..|r| - 1] == root;
    LastIndexOfAppend(r, e, '.');
    LastIndexOfAppend(r, e, '/');
  }

  lemma AfterRoot(root: string, e: string)
    ensures (root + "." + e)[|root|..] == "." + e
  {
    assert root + "." + e == root + ("." + e);
  }

  /** A character other than a dot between the last separator and the last dot makes
      the extension run from that dot to the end. */
  lemma ExtensionAt(name: string, k: int)
    requires LastIndexOf(name, '/') < k < LastIndexOf(name, '.') && name[k] != '.'
    ensures Extension(name) == name[LastIndexOf(name, '.')..]
  {
  }

  /** A name whose last component has a character other than a dot before the final
      `"." + e` has the extension `"." + e`: `splitext("src/main.py")[1] == ".py"`. */
  lemma ExtensionOf(root: string, e: string)
    requires forall j :: 0 <= j < |e| ==> e[j] != '/' && e[j] != '.'
    requires exists k :: LastIndexOf(root, '/') < k < |root| && root[k] != '.'
    ensures Extension(root + "." + e) == "." + e
  {
    var name := root + "." + e;
    LastMarks(root, e);
    var k :| LastIndexOf(root, '/') < k < |root| && root[k] != '.';
    assert name[k] == root[k];
    ExtensionAt(name, k);
    AfterRoot(root, e);
  }

  function LowerChar(c: char): char
  {
    if 'A' <= c <= 'Z' then (c as int + 32) as char else c
  }

  /** `str.lower()` on ASCII letters. */
  function Lower(s: string): (r: string)
    ensures |r| == |s|
  {
    seq(|s|, k requires 0 <= k < |s| => LowerChar(s[k]))
  }

  /** Lowering twice is lowering once, and leaves no upper-case ASCII letter. */
  lemma LowerIdempotent(s: string)
    ensures Lower(Lower(s)) == Lower(s)
    ensures forall k :: 0 <= k < |s| ==> !('A' <= Lower(s)[k] <= 'Z')
  {
  }

  /** The test `main` applies to each walked file: not binary (unless binary files are
      shown), an extension of more than the dot alone, and not in a hidden folder. */
  predicate Keep(f: FoundFile, showBinary: bool)
  {
    (!f.binary || showBinary) && |Extension(f.name)| > 1 && !IsFolderHidden(f.dir)
  }

  /** The record `main` appends to `file_datas_raw` for a kept file. */
  function RawRecord(f: FoundFile): FileData
  {
    FileData(Lower(Extension(f.name)), f.lineCount, 0)
  }

  /** `file_datas_raw`: the records of the kept files, in walk order. */
  function Kept(found: seq<FoundFile>, showBinary: bool): seq<FileData>
  {
    if found == [] then []
    else
      var f := found[|found| - 1];
      Kept(found[..|found| - 1], showBinary) + (if Keep(f, showBinary) then [RawRecord(f)] else [])
  }

  /** The sum of the line counts. */
  function TotalLines(s: seq<FileData>): nat
  {
    if s == [] then 0 else s[0].lineCount + TotalLines(s[1..])
  }

  /** The sum of the file counts. */
  function TotalFiles(s: seq<FileData>): nat
  {
    if s == [] then 0 else s[0].fileCount + TotalFiles(s[1..])
  }

  lemma {:induction false} TotalsConcat(a: seq<FileData>, b: seq<FileData>)
    ensures TotalLines(a + b) == TotalLines(a) + TotalLines(b)
    ensures TotalFiles(a + b) == TotalFiles(a) + TotalFiles(b)
  {
    if a != [] {
      assert (a + b)[1..] == a[1..] + b;
      TotalsConcat(a[1..], b);
    } else {
      assert a + b == b;
    }
  }

  lemma {:induction false} TotalsUpdate(s: seq<FileData>, j: nat, x: FileData)
    requires j < |s|
    ensures TotalLines(s[j := x]) == TotalLines(s) - s[j].lineCount + x.lineCount
    ensures TotalFiles(s[j := x]) == TotalFiles(s) - s[j].fileCount + x.fileCount
  {
    if j == 0 {
      assert s[j := x][1..] == s[1..];
    } else {
      assert s[j := x][1..] == s[1..][j - 1 := x];
      TotalsUpdate(s[1..], j - 1, x);
    }
  }

  /** The walk loop of `main`: for every kept file, `files_sum` grows by one, `lines_sum`
      by its line count, and its record joins `file_datas_raw`. */
  method Scan(found: seq<FoundFile>, showBinary: bool) returns (filesSum: nat, linesSum: nat, raw: seq<FileData>)
    ensures raw == Kept(found, showBinary)
    ensures filesSum == |raw| && linesSum == TotalLines(raw)
  {
    filesSum, linesSum, raw := 0, 0, [];
    for k := 0 to |found|
      invariant raw == Kept(found[..k], showBinary)
      invariant filesSum == |raw| && linesSum == TotalLines(raw)
    {
      var f := found[k];
      assert found[..k + 1][..k] == found[..k];
      if (!f.binary || showBinary) && |Extension(f.name)| > 1 && !IsFolderHidden(f.dir) {
        filesSum := filesSum + 1;
        linesSum := linesSum + f.lineCount;
        TotalsConcat(raw, [RawRecord(f)]);
        raw := raw + [FileData(Lower(Extension(f.name)), f.lineCount, 0)];
      }
    }
    assert found[..|found|] == found;
  }

  /** Every record of `file_datas_raw` has a lower-case extension of a dot and at least
      one more character, and a file count of 0. */
  lemma {:induction false} KeptRecords(found: seq<FoundFile>, showBinary: bool)
    ensures var raw := Kept(found, showBinary);
      && |raw| <= |found|
      && forall i :: 0 <= i < |raw| ==>
           && |raw[i].ext| > 1 && raw[i].ext[0] == '.'
           && Lower(raw[i].ext) == raw[i].ext && raw[i].fileCount == 0
  {
    if found != [] {
      var f := found[|found| - 1];
      KeptRecords(found[..|found| - 1], showBinary);
      if Keep(f, showBinary) {
        ExtensionShape(f.name);
        LowerIdempotent(Extension(f.name));
      }
    }
  }

  /** The distinct extensions of `raw`, in the order they are first seen. */
  function Exts(raw: seq<FileData>): seq<string>
  {
    if raw == [] then []
    else
      var prev := Exts(raw[..|raw| - 1]);
      if raw[|raw| - 1].ext in prev then prev else prev + [raw[|raw| - 1].ext]
  }

  /** The lines of the records with extension `e`. */
  function LinesOf(raw: seq<FileData>, e: string): nat
  {
    if raw == [] then 0
    else LinesOf(raw[..|raw| - 1], e) + (if raw[|raw| - 1].ext == e then raw[|raw| - 1].lineCount else 0)
  }

  /** The number of records with extension `e`. */
  function CountOf(raw: seq<FileData>, e: string): nat
  {
    if raw == [] then 0
    else CountOf(raw[..|raw| - 1], e) + (if raw[|raw| - 1].ext == e then 1 else 0)
  }

  /** One entry per distinct extension, first-seen order, with the summed line counts and
      the number of files. */
  function Grouped(raw: seq<FileData>): (g: seq<FileData>)
    ensures |g| == |Exts(raw)|
  {
    var es := Exts(raw);
    seq(|es|, i requires 0 <= i < |es| => FileData(es[i], LinesOf(raw, es[i]), CountOf(raw, es[i])))
  }

  /** The extensions of `Exts` are pairwise distinct and are exactly those of `raw`. */
  lemma {:induction false} ExtsDistinct(raw: seq<FileData>)
    ensures forall i, j :: 0 <= i < j < |Exts(raw)| ==> Exts(raw)[i] != Exts(raw)[j]
    ensures forall e :: e in Exts(raw) <==> exists p :: 0 <= p < |raw| && raw[p].ext == e
  {
    if raw != [] {
      var pre := raw[..|raw| - 1];
      ExtsDistinct(pre);
      forall e | e in Exts(raw)
        ensures exists p :: 0 <= p < |raw| && raw[p].ext == e
      {
        if e in Exts(pre) {
          var p :| 0 <= p < |pre| && pre[p].ext == e;
          assert raw[p] == pre[p];
        } else {
          assert raw[|raw| - 1].ext == e;
        }
      }
      forall e | exists p :: 0 <= p < |raw| && raw[p].ext == e
        ensures e in Exts(raw)
      {
        var p :| 0 <= p < |raw| && raw[p].ext == e;
        if p < |pre| {
          assert pre[p] == raw[p];
        }
      }
    }
  }

  /** The extensions come in first-seen order: whenever a record has the later of two
      listed extensions, some earlier record has the former one. */
  lemma {:induction false} ExtsFirstSeen(raw: seq<FileData>)
    ensures forall i, j, q :: 0 <= i < j < |Exts(raw)| && 0 <= q < |raw| && raw[q].ext == Exts(raw)[j]
              ==> exists p :: 0 <= p < q && raw[p].ext == Exts(raw)[i]
  {
    if raw != [] {
      var pre := raw[..|raw| - 1];
      var last := |raw| - 1;
      var es := Exts(raw);
      var ps := Exts(pre);
      ExtsFirstSeen(pre);
      ExtsDistinct(pre);
      assert es == ps || es == ps + [raw[last].ext];
      forall i, j, q | 0 <= i < j < |es| && 0 <= q < |raw| && raw[q].ext == es[j]
        ensures exists p :: 0 <= p < q && raw[p].ext == es[i]
      {
        assert es[i] == ps[i];
        assert es[i] in ps;
        if q < last {
          assert es[j] == ps[j];
          assert pre[q] == raw[q];
          var p :| 0 <= p < q && pre[p].ext == es[i];
          assert raw[p] == pre[p];
        } else {
          var p :| 0 <= p < |pre| && pre[p].ext == es[i];
          assert raw[p] == pre[p];
        }
      }
    }
  }

  /** Appending a record whose extension is already listed at `j` adds its lines and one
      file to entry `j` and leaves the others as they are. */
  lemma GroupedAppendKnown(pre: seq<FileData>, r: FileData, j: nat)
    requires j < |Exts(pre)| && Exts(pre)[j] == r.ext
    ensures Grouped(pre + [r]) == Grouped(pre)[j := FileData(r.ext, Grouped(pre)[j].lineCount + r.lineCount,
                                                             Grouped(pre)[j].fileCount + 1)]
  {
    var raw := pre + [r];
    assert raw[..|raw| - 1] == pre;
    assert Exts(raw) == Exts(pre);
    ExtsDistinct(pre);
  }

  /** Appending a record with a new extension appends an entry with its lines and one file. */
  lemma GroupedAppendNew(pre: seq<FileData>, r: FileData)
    requires r.ext !in Exts(pre)
    ensures Grouped(pre + [r]) == Grouped(pre) + [FileData(r.ext, r.lineCount, 1)]
  {
    var raw := pre + [r];
    assert raw[..|raw| - 1] == pre;
    assert Exts(raw) == Exts(pre) + [r.ext];
    ExtsDistinct(pre);
    assert LinesOf(pre, r.ext) == 0 && CountOf(pre, r.ext) == 0 by {
      AbsentContributesNothing(pre, r.ext);
    }
  }

  lemma {:induction false} AbsentContributesNothing(raw: seq<FileData>, e: string)
    requires forall p :: 0 <= p < |raw| ==> raw[p].ext != e
    ensures LinesOf(raw, e) == 0 && CountOf(raw, e) == 0
  {
    if raw != [] {
      AbsentContributesNothing(raw[..|raw| - 1], e);
    }
  }

  /** Grouping keeps the totals: the entries' lines add up to the records' lines, and
      their file counts to the number of records. */
  lemma {:induction false} GroupedTotals(raw: seq<FileData>)
    ensures TotalLines(Grouped(raw)) == TotalLines(raw)
    ensures TotalFiles(Grouped(raw)) == |raw|
  {
    if raw != [] {
      var pre := raw[..|raw| - 1];
      var r := raw[|raw| - 1];
      assert raw == pre + [r];
      GroupedTotals(pre);
      TotalsConcat(pre, [r]);
      if r.ext in Exts(pre) {
        var j :| 0 <= j < |Exts(pre)| && Exts(pre)[j] == r.ext;
        GroupedTotalsKnown(pre, r, j);
      } else {
        GroupedTotalsNew(pre, r);
      }
    }
  }

  /** A record with a listed extension adds its lines and one file to the totals. */
  lemma GroupedTotalsKnown(pre: seq<FileData>, r: FileData, j: nat)
    requires j < |Exts(pre)| && Exts(pre)[j] == r.ext
    ensures TotalLines(Grouped(pre + [r])) == TotalLines(Grouped(pre)) + r.lineCount
    ensures TotalFiles(Grouped(pre + [r])) == TotalFiles(Grouped(pre)) + 1
  {
    var g := Grouped(pre);
    var x := FileData(r.ext, g[j].lineCount + r.lineCount, g[j].fileCount + 1);
    GroupedAppendKnown(pre, r, j);
    TotalsBump(g, Grouped(pre + [r]), j, x, r.lineCount);
  }

  /** Raising entry `j` by `d` lines and one file raises the totals by as much. */
  lemma TotalsBump(g: seq<FileData>, g2: seq<FileData>, j: nat, x: FileData, d: nat)
    requires j < |g| && g2 == g[j := x]
    requires x.lineCount == g[j].lineCount + d && x.fileCount == g[j].fileCount + 1
    ensures TotalLines(g2) == TotalLines(g) + d && TotalFiles(g2) == TotalFiles(g) + 1
  {
    TotalsUpdate(g, j, x);
  }

  /** A record with a new extension adds its lines and one file to the totals. */
  lemma GroupedTotalsNew(pre: seq<FileData>, r: FileData)
    requires r.ext !in Exts(pre)
    ensures TotalLines(Grouped(pre + [r])) == TotalLines(Grouped(pre)) + r.lineCount
    ensures TotalFiles(Grouped(pre + [r])) == TotalFiles(Grouped(pre)) + 1
  {
    GroupedAppendNew(pre, r);
    TotalsConcat(Grouped(pre), [FileData(r.ext, r.lineCount, 1)]);
  }

  /** Places `x` after every element with at least as many lines. */
  function Insert(t: seq<FileData>, x: FileData): seq<FileData>
  {
    if t == [] then [x]
    else if t[0].lineCount >= x.lineCount then [t[0]] + Insert(t[1..], x)
    else [x] + t
  }

  /** `list.sort(key=line_count, reverse=True)`: an insertion sort that, like Python's
      sort, keeps records with equal line counts in their original order. */
  function SortByLines(s: seq<FileData>): seq<FileData>
  {
    if s == [] then [] else Insert(SortByLines(s[..|s| - 1]), s[|s| - 1])
  }

  predicate SortedDescending(s: seq<FileData>)
  {
    forall i, j :: 0 <= i < j < |s| ==> s[i].lineCount >= s[j].lineCount
  }

  /** The records with exactly `n` lines, in order. */
  function WithLines(s: seq<FileData>, n: nat): seq<FileData>
  {
    if s == [] then [] else (if s[0].lineCount == n then [s[0]] else []) + WithLines(s[1..], n)
  }

  lemma {:induction false} WithLinesConcat(a: seq<FileData>, b: seq<FileData>, n: nat)
    ensures WithLines(a + b, n) == WithLines(a, n) + WithLines(b, n)
  {
    if a == [] {
      assert a + b == b;
    } else {
      var head := if a[0].lineCount == n then [a[0]] else [];
      assert (a + b)[0] == a[0];
      assert (a + b)[1..] == a[1..] + b;
      assert WithLines(a + b, n) == head + WithLines(a[1..] + b, n);
      WithLinesConcat(a[1..], b, n);
      Assoc(head, WithLines(a[1..], n), WithLines(b, n));
    }
  }

  lemma {:induction false} WithLinesNone(s: seq<FileData>, n: nat)
    requires forall i :: 0 <= i < |s| ==> s[i].lineCount < n
    ensures WithLines(s, n) == []
  {
    if s != [] {
      WithLinesNone(s[1..], n);
    }
  }

  lemma {:induction false} InsertMultiset(t: seq<FileData>, x: FileData)
    ensures multiset(Insert(t, x)) == multiset(t) + multiset{x}
  {
    if t != [] && t[0].lineCount >= x.lineCount {
      InsertMultiset(t[1..], x);
      assert t == [t[0]] + t[1..];
    }
  }

  lemma {:induction false} InsertSorted(t: seq<FileData>, x: FileData)
    requires SortedDescending(t)
    ensures SortedDescending(Insert(t, x))
  {
    if t != [] && t[0].lineCount >= x.lineCount {
      var rest := Insert(t[1..], x);
      InsertSorted(t[1..], x);
      InsertMultiset(t[1..], x);
      forall k | 0 <= k < |rest| ensures rest[k].lineCount <= t[0].lineCount {
        assert rest[k] in multiset(rest);
        if rest[k] != x {
          assert rest[k] in multiset(t[1..]);
          var m :| 0 <= m < |t[1..]| && t[1..][m] == rest[k];
          assert t[m + 1] == rest[k];
        }
      }
    }
  }

  lemma {:induction false} InsertWithLines(t: seq<FileData>, x: FileData, n: nat)
    requires SortedDescending(t)
    ensures WithLines(Insert(t, x), n) == WithLines(t, n) + (if x.lineCount == n then [x] else [])
  {
    if t == [] {
      assert Insert(t, x) == [x] + [];
      WithLinesConcat([x], [], n);
    } else if t[0].lineCount >= x.lineCount {
      InsertWithLines(t[1..], x, n);
      InsertWithLinesBehind(t, x, n);
    } else {
      InsertWithLinesFront(t, x, n);
    }
  }

  /** The step of `InsertWithLines` where `x` goes behind the head of `t`. */
  lemma InsertWithLinesBehind(t: seq<FileData>, x: FileData, n: nat)
    requires t != [] && t[0].lineCount >= x.lineCount
    requires WithLines(Insert(t[1..], x), n) == WithLines(t[1..], n) + (if x.lineCount == n then [x] else [])
    ensures WithLines(Insert(t, x), n) == WithLines(t, n) + (if x.lineCount == n then [x] else [])
  {
    var mine := if x.lineCount == n then [x] else [];
    var h := [t[0]];
    var rest := Insert(t[1..], x);
    assert Insert(t, x) == h + rest;
    WithLinesConcat(h, rest, n);
    WithLinesConcat(h, t[1..], n);
    assert t == h + t[1..];
    Assoc(WithLines(h, n), WithLines(t[1..], n), mine);
  }

  /** The step of `InsertWithLines` where `x` goes in front of all of `t`. */
  lemma InsertWithLinesFront(t: seq<FileData>, x: FileData, n: nat)
    requires SortedDescending(t)
    requires t != [] && t[0].lineCount < x.lineCount
    ensures WithLines(Insert(t, x), n) == WithLines(t, n) + (if x.lineCount == n then [x] else [])
  {
    assert Insert(t, x) == [x] + t;
    WithLinesConcat([x], t, n);
    assert [x][1..] == [];
    if x.lineCount == n {
      WithLinesNone(t, n);
    }
  }

  /** The sort orders by descending line count. */
  lemma {:induction false} SortByLinesSorted(s: seq<FileData>)
    ensures SortedDescending(SortByLines(s))
  {
    if s != [] {
      SortByLinesSorted(s[..|s| - 1]);
      InsertSorted(SortByLines(s[..|s| - 1]), s[|s| - 1]);
    }
  }

  /** The sort returns a permutation of its input. */
  lemma {:induction false} SortByLinesPermutes(s: seq<FileData>)
    ensures multiset(SortByLines(s)) == multiset(s)
  {
    if s != [] {
      var pre := s[..|s| - 1];
      SortByLinesPermutes(pre);
      InsertMultiset(SortByLines(pre), s[|s| - 1]);
      assert s == pre + [s[|s| - 1]];
    }
  }

  /** The sort is stable: the records with any one line count keep their relative order. */
  lemma {:induction false} SortByLinesStable(s: seq<FileData>, n: nat)
    ensures WithLines(SortByLines(s), n) == WithLines(s, n)
  {
    if s != [] {
      var pre := s[..|s| - 1];
      var x := s[|s| - 1];
      SortByLinesStable(pre, n);
      SortByLinesSorted(pre);
      InsertWithLines(SortByLines(pre), x, n);
      assert s == pre + [x];
      WithLinesConcat(pre, [x], n);
    }
  }

  /** The fold of `main` over `file_datas_raw` followed by the sort: the first record
      with a new extension starts an entry with one file, a later one adds its lines and
      one file to the entry of its extension. */
  method Aggregate(raw: seq<FileData>) returns (fileDatas: seq<FileData>)
    ensures fileDatas == SortByLines(Grouped(raw))
  {
    var totals: seq<FileData> := [];
    for k := 0 to |raw|
      invariant totals == Grouped(raw[..k])
    {
      var r := raw[k];
      assert raw[..k + 1] == raw[..k] + [r];
      var j := 0;
      while j < |totals| && totals[j].ext != r.ext
        invariant 0 <= j <= |totals|
        invariant forall i :: 0 <= i < j ==> totals[i].ext != r.ext
      {
        j := j + 1;
      }
      if j < |totals| {
        GroupedAppendKnown(raw[..k], r, j);
        totals := totals[j := FileData(r.ext, totals[j].lineCount + r.lineCount, totals[j].fileCount + 1)];
      } else {
        assert forall i :: 0 <= i < |totals| ==> totals[i].ext == Exts(raw[..k])[i];
        GroupedAppendNew(raw[..k], r);
        totals := totals + [FileData(r.ext, r.lineCount, 1)];
      }
    }
    assert raw[..|raw|] == raw;
    fileDatas := SortByLines(totals);
  }

  /** What `main` ends with: entries sorted by descending line count, one per distinct
      extension, whose lines add up to `lines_sum` and whose file counts add up to
      `files_sum`. */
  lemma AggregateTotals(raw: seq<FileData>)
    ensures var fds := SortByLines(Grouped(raw));
      && SortedDescending(fds)
      && TotalLines(fds) == TotalLines(raw)
      && TotalFiles(fds) == |raw|
      && forall i, j :: 0 <= i < j < |fds| ==> fds[i].ext != fds[j].ext
  {
    var g := Grouped(raw);
    SortByLinesSorted(g);
    GroupedTotals(raw);
    SortPreservesTotals(g);
    ExtsDistinct(raw);
    forall a, b | 0 <= a < b < |g| ensures g[a].ext != g[b].ext {
      assert g[a].ext == Exts(raw)[a] && g[b].ext == Exts(raw)[b];
    }
    SortKeepsExtsDistinct(g);
  }

  /** Sorting a list with distinct extensions keeps them distinct. */
  lemma SortKeepsExtsDistinct(g: seq<FileData>)
    requires forall a, b :: 0 <= a < b < |g| ==> g[a].ext != g[b].ext
    ensures var fds := SortByLines(g);
      forall i, j :: 0 <= i < j < |fds| ==> fds[i].ext != fds[j].ext
  {
    SortByLinesPermutes(g);
    var fds := SortByLines(g);
    forall i, j | 0 <= i < j < |fds| ensures fds[i].ext != fds[j].ext {
      assert fds[i] in multiset(g) && fds[j] in multiset(g);
      var a :| 0 <= a < |g| && g[a] == fds[i];
      var b :| 0 <= b < |g| && g[b] == fds[j];
      if a == b {
        MultisetDistinctPositions(fds, g, i, j);
      }
    }
  }

  lemma {:induction false} SortPreservesTotals(s: seq<FileData>)
    ensures TotalLines(SortByLines(s)) == TotalLines(s)
    ensures TotalFiles(SortByLines(s)) == TotalFiles(s)
  {
    if s != [] {
      var pre := s[..|s| - 1];
      var x := s[|s| - 1];
      SortPreservesTotals(pre);
      InsertTotals(SortByLines(pre), x);
      assert s == pre + [x];
      TotalsConcat(pre, [x]);
    }
  }

  lemma {:induction false} InsertTotals(t: seq<FileData>, x: FileData)
    ensures TotalLines(Insert(t, x)) == TotalLines(t) + x.lineCount
    ensures TotalFiles(Insert(t, x)) == TotalFiles(t) + x.fileCount
  {
    if t != [] && t[0].lineCount >= x.lineCount {
      InsertTotals(t[1..], x);
      assert ([t[0]] + Insert(t[1..], x))[1..] == Insert(t[1..], x);
    } else if t != [] {
      assert ([x] + t)[1..] == t;
    }
  }

  /** In a sequence without repeated elements, a permutation cannot show the same element
      at two positions. */
  lemma MultisetDistinctPositions(p: seq<FileData>, s: seq<FileData>, i: nat, j: nat)
    requires multiset(p) == multiset(s)
    requires forall a, b :: 0 <= a < b < |s| ==> s[a] != s[b]
    requires i < j < |p|
    ensures p[i] != p[j]
  {
    if p[i] == p[j] {
      var x := p[i];
      assert multiset(p)[x] >= 2 by {
        assert p == p[..i] + [x] + p[i + 1..j] + [x] + p[j + 1..];
      }
      CountAtMostOne(s, x);
    }
  }

  lemma {:induction false} CountAtMostOne(s: seq<FileData>, x: FileData)
    requires forall a, b :: 0 <= a < b < |s| ==> s[a] != s[b]
    ensures multiset(s)[x] <= 1
  {
    if s != [] {
      var pre := s[..|s| - 1];
      CountAtMostOne(pre, x);
      assert s == pre + [s[|s| - 1]];
      if s[|s| - 1] == x {
        assert x !in pre;
      }
    }
  }
}
