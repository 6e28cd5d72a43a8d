/** The file-level helpers of cts.py: counting the newline bytes of a file read in
    chunks (`count_lines`) and recognising a hidden folder path (`is_folder_hidden`). */
module Files {
  import opened Text
  import opened Colors

  newtype byte = x: int | 0 <= x < 256

  /** The byte `b'\n'`. */
  const Newline: byte := 10

  /** The size of one raw read, `1024*1024`. */
  const ChunkSize: nat := 1024 * 1024

  /** The chunks before the first empty one: `takewhile(lambda x: x, ...)`. */
  function TakeNonEmpty(chunks: seq<seq<byte>>): (taken: seq<seq<byte>>)
    ensures |taken| <= |chunks| && taken == chunks[..|taken|]
    ensures forall k :: 0 <= k < |taken| ==> taken[k] != []
    ensures |taken| < |chunks| ==> chunks[|taken|] == []
  {
    if chunks == [] || chunks[0] == [] then []
    else [chunks[0]] + TakeNonEmpty(chunks[1..])
  }

  /** The chunks concatenated. */
  function Flatten(chunks: seq<seq<byte>>): seq<byte>
  {
    if chunks == [] then [] else chunks[0] + Flatten(chunks[1..])
  }

  /** `sum(buf.count(b'\n') for buf in chunks)`. */
  function SumNewlines(chunks: seq<seq<byte>>): nat
  {
    if chunks == [] then 0 else Count(chunks[0], Newline) + SumNewlines(chunks[1..])
  }

  /** `count_lines`: `results` are the successive results of the raw reads; the count
      stops at the first empty read and sums the newline bytes before it. */
  function CountLines(results: seq<seq<byte>>): nat
  {
    SumNewlines(TakeNonEmpty(results))
  }

  /** Summing newlines chunk by chunk counts the newlines of the whole content. */
  lemma {:induction false} SumNewlinesFlatten(chunks: seq<seq<byte>>)
    ensures SumNewlines(chunks) == Count(Flatten(chunks), Newline)
  {
    if chunks != [] {
      SumNewlinesFlatten(chunks[1..]);
      CountConcat(chunks[0], Flatten(chunks[1..]), Newline);
    }
  }

  /** `results` is what successive raw reads of a file holding `content` return: non-empty
      chunks of at most `ChunkSize` bytes that together make up `content`, then an empty
      read at end of file. */
  predicate IsReadSequence(results: seq<seq<byte>>, content: seq<byte>)
  {
    && |results| > 0
    && results[|results| - 1] == []
    && (forall k :: 0 <= k < |results| - 1 ==> 0 < |results[k]| <= ChunkSize)
    && Flatten(results[..|results| - 1]) == content
  }

  lemma {:induction false} TakeAllNonEmpty(chunks: seq<seq<byte>>)
    requires forall k :: 0 <= k < |chunks| ==> chunks[k] != []
    ensures TakeNonEmpty(chunks + [[]]) == chunks
  {
    if chunks != [] {
      assert (chunks + [[]])[1..] == chunks[1..] + [[]];
      TakeAllNonEmpty(chunks[1..]);
    }
  }

  /** Whatever the chunk sizes, `count_lines` returns the number of newline bytes of the
      file's content. */
  lemma CountLinesIsNewlines(results: seq<seq<byte>>, content: seq<byte>)
    requires IsReadSequence(results, content)
    ensures CountLines(results) == Count(content, Newline)
  {
    var chunks := results[..|results| - 1];
    assert results == chunks + [[]];
    TakeAllNonEmpty(chunks);
    SumNewlinesFlatten(chunks);
  }

  /** Reads after the first empty one are never looked at. */
  lemma {:induction false} CountLinesStopsAtEmpty(results: seq<seq<byte>>, rest: seq<seq<byte>>)
    ensures CountLines(results + [[]] + rest) == CountLines(results + [[]])
  {
    if results != [] && results[0] != [] {
      assert (results + [[]] + rest)[1..] == results[1..] + [[]] + rest;
      assert (results + [[]])[1..] == results[1..] + [[]];
      CountLinesStopsAtEmpty(results[1..], rest);
    } else if results == [] {
      assert (results + [[]] + rest)[0] == [];
    } else {
      assert (results + [[]] + rest)[0] == [];
      assert (results + [[]])[0] == [];
    }
  }

  /** The reads of a regular file: full chunks of `ChunkSize` bytes, the remainder, then
      the empty read at end of file. */
  function ChunksOf(content: seq<byte>): (chunks: seq<seq<byte>>)
    ensures forall k :: 0 <= k < |chunks| ==> 0 < |chunks[k]| <= ChunkSize
    ensures Flatten(chunks) == content
    decreases |content|
  {
    if content == [] then []
    else if |content| <= ChunkSize then [content]
    else [content[..ChunkSize]] + ChunksOf(content[ChunkSize..])
  }

  /** Reading any file chunk by chunk forms a read sequence, so `count_lines` returns its
      number of newline bytes. */
  lemma RegularReads(content: seq<byte>)
    ensures IsReadSequence(ChunksOf(content) + [[]], content)
    ensures CountLines(ChunksOf(content) + [[]]) == Count(content, Newline)
  {
    var results := ChunksOf(content) + [[]];
    assert results[..|results| - 1] == ChunksOf(content);
    CountLinesIsNewlines(results, content);
  }

  /** An empty file counts zero lines. */
  lemma EmptyFileHasNoLines(results: seq<seq<byte>>)
    requires IsReadSequence(results, [])
    ensures CountLines(results) == 0
  {
    CountLinesIsNewlines(results, []);
  }

  /** Python's `pat in s` for strings. */
  function Contains(s: string, pat: string): (r: bool)
    decreases |s|
  {
    if |s| < |pat| then false
    else s[..|pat|] == pat || Contains(s[1..], pat)
  }

  /** `Contains` agrees with the occurrence of `pat` at some position of `s`. */
  lemma {:induction false} ContainsOccurs(s: string, pat: string)
    ensures Contains(s, pat) <==> Occurs(s, pat)
    decreases |s|
  {
    if |s| < |pat| {
      assert forall i :: !OccursAt(s, pat, i);
    } else if s[..|pat|] == pat {
      assert OccursAt(s, pat, 0);
    } else {
      ContainsOccurs(s[1..], pat);
      if Occurs(s, pat) {
        var i :| OccursAt(s, pat, i);
        assert i != 0;
        assert s[1..][i - 1..i - 1 + |pat|] == s[i..i + |pat|];
        assert OccursAt(s[1..], pat, i - 1);
      }
      if Occurs(s[1..], pat) {
        var i :| OccursAt(s[1..], pat, i);
        assert s[i + 1..i + 1 + |pat|] == s[1..][i..i + |pat|];
        assert OccursAt(s, pat, i + 1);
      }
    }
  }

  /** A separator, `/` or `\`, directly followed by a dot at position `i` of `p`. */
  predicate DotAfterSeparator(p: string, i: int)
  {
    0 <= i < |p| - 1 && (p[i] == '/' || p[i] == '\\') && p[i + 1] == '.'
  }

  /** `is_folder_hidden`: the path holds `\.` or `/.`. */
  function IsFolderHidden(p: string): bool
  {
    Contains(p, "\\.") || Contains(p, "/.")
  }

  /** A folder path is hidden exactly when some separator in it is followed by a dot,
      that is, when one of its components after the first starts with `.`. */
  lemma IsFolderHiddenMeans(p: string)
    ensures IsFolderHidden(p) <==> exists i :: DotAfterSeparator(p, i)
  {
    ContainsOccurs(p, "\\.");
    ContainsOccurs(p, "/.");
    if exists i :: DotAfterSeparator(p, i) {
      var i :| DotAfterSeparator(p, i);
      if p[i] == '/' {
        assert OccursAt(p, "/.", i);
      } else {
        assert OccursAt(p, "\\.", i);
      }
    }
    if Occurs(p, "/.") {
      var i :| OccursAt(p, "/.", i);
      assert p[i] == p[i..i + 2][0] && p[i + 1] == p[i..i + 2][1];
      assert DotAfterSeparator(p, i);
    }
    if Occurs(p, "\\.") {
      var i :| OccursAt(p, "\\.", i);
      assert p[i] == p[i..i + 2][0] && p[i + 1] == p[i..i + 2][1];
      assert DotAfterSeparator(p, i);
    }
  }
}
