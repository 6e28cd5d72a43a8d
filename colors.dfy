/** Terminal colour codes and the visible length of a string that embeds them
    (the `Color` class and `Table.__len_without_color` of cts.py). */
module Colors {
  import opened Text

  /** The escape character that starts every colour code. */
  const Esc: char := '\U{1b}'

  const Reset: string := "\U{1b}[0m"
  const Black: string := "\U{1b}[30m"
  const BrightBlack: string := "\U{1b}[30;1m"
  const Red: string := "\U{1b}[31m"
  const BrightRed: string := "\U{1b}[31;1m"
  const Green: string := "\U{1b}[32m"
  const BrightGreen: string := "\U{1b}[32;1m"
  const Yellow: string := "\U{1b}[33m"
  const BrightYellow: string := "\U{1b}[33;1m"
  const Blue: string := "\U{1b}[34m"
  const BrightBlue: string := "\U{1b}[34;1m"
  const Magenta: string := "\U{1b}[35m"
  const BrightMagenta: string := "\U{1b}[35;1m"
  const Cyan: string := "\U{1b}[36m"
  const BrightCyan: string := "\U{1b}[36;1m"
  const White: string := "\U{1b}[37m"
  const BrightWhite: string := "\U{1b}[37;1m"

  /** The colour codes in declaration order: the order in which they are stripped. */
  const Codes: seq<string> := [Reset, Black, BrightBlack, Red, BrightRed, Green, BrightGreen,
                               Yellow, BrightYellow, Blue, BrightBlue, Magenta, BrightMagenta,
                               Cyan, BrightCyan, White, BrightWhite]

  /** The characters a colour code is made of. */
  predicate CodeChar(ch: char)
  {
    ch == Esc || ch == '[' || ch == ';' || ch == 'm' || '0' <= ch <= '9'
  }

  /** The shape every colour code has: one escape character at the front, one `m` at
      the end, and nothing but code characters in between. */
  predicate WellFormedCode(c: string)
  {
    && |c| >= 2
    && c[0] == Esc && c[|c| - 1] == 'm'
    && (forall k :: 0 <= k < |c| ==> CodeChar(c[k]))
    && (forall k :: 1 <= k < |c| ==> c[k] != Esc)
    && (forall k :: 0 <= k < |c| - 1 ==> c[k] != 'm')
  }

  predicate AllWellFormed(codes: seq<string>)
  {
    forall i :: 0 <= i < |codes| ==> WellFormedCode(codes[i])
  }

  /** `pat` occurs in `s` starting at index `i`. */
  predicate OccursAt(s: string, pat: string, i: int)
  {
    0 <= i && i + |pat| <= |s| && s[i..i + |pat|] == pat
  }

  /** `pat` occurs somewhere in `s`. */
  ghost predicate Occurs(s: string, pat: string)
  {
    exists i :: OccursAt(s, pat, i)
  }

  /** Python's `s.replace(pat, "")`: deletes every non-overlapping occurrence of `pat`,
      scanning from the left (an empty `pat` leaves `s` as it is). */
  function ReplaceAll(s: string, pat: string): (r: string)
    ensures |r| <= |s|
    decreases |s|
  {
    if pat == [] || |s| < |pat| then s
    else if s[..|pat|] == pat then ReplaceAll(s[|pat|..], pat)
    else [s[0]] + ReplaceAll(s[1..], pat)
  }

  /** Deleting a non-empty pattern changes the string exactly when the pattern occurs. */
  lemma {:induction false} ReplaceAllUnchanged(s: string, pat: string)
    requires |pat| > 0
    ensures ReplaceAll(s, pat) == s <==> !Occurs(s, pat)
    decreases |s|
  {
    if |s| < |pat| {
    } else if s[..|pat|] == pat {
      assert OccursAt(s, pat, 0);
      assert |ReplaceAll(s[|pat|..], pat)| < |s|;
    } else {
      OccursAfterMismatch(s, pat);
      ReplaceAllUnchanged(s[1..], pat);
    }
  }

  /** When `pat` does not start `s`, it occurs in `s` exactly when it occurs in `s[1..]`. */
  lemma OccursAfterMismatch(s: string, pat: string)
    requires |pat| <= |s| && s != [] && s[..|pat|] != pat
    ensures Occurs(s, pat) <==> Occurs(s[1..], pat)
  {
    if Occurs(s, pat) {
      var i :| OccursAt(s, pat, i);
      assert i != 0;
      assert s[1..][i - 1..i - 1 + |pat|] == s[i..i + |pat|];
      assert OccursAt(s[1..], pat, i - 1);
    }
    if Occurs(s[1..], pat) {
      var i :| OccursAt(s[1..], pat, i);
      assert s[i + 1..i + 1 + |pat|] == s[1..][i..i + |pat|];
      assert OccursAt(s, pat, i + 1);
    }
  }

  /** `__len_without_color`'s loop: delete each code of `codes` in turn. */
  function StripCodes(s: string, codes: seq<string>): (r: string)
    ensures |r| <= |s|
    decreases |codes|
  {
    if codes == [] then s else StripCodes(ReplaceAll(s, codes[0]), codes[1..])
  }

  /** The number of characters a terminal shows for `s`. */
  function VisibleLen(s: string): (n: nat)
    ensures n <= |s|
  {
    |StripCodes(s, Codes)|
  }

  /** A cell painted in `color` (a code or the empty string), followed by `Reset`. */
  function Wrap(color: string, text: string): string
  {
    color + text + Reset
  }

  /** The body of a code, between `Esc [` and `m`: digits and semicolons only. */
  predicate CodeBody(body: string)
  {
    forall k :: 0 <= k < |body| ==> body[k] == ';' || '0' <= body[k] <= '9'
  }

  /** `Esc [`, a body, then `m` is a well-formed code. */
  lemma CodeFromBody(body: string)
    requires CodeBody(body)
    ensures WellFormedCode([Esc, '['] + body + ['m'])
  {
    var c := [Esc, '['] + body + ['m'];
    forall k | 2 <= k < |c| - 1 ensures c[k] == body[k - 2] {
    }
  }

  lemma CodesWellFormed()
    ensures AllWellFormed(Codes)
  {
    var bodies := ["0", "30", "30;1", "31", "31;1", "32", "32;1", "33", "33;1",
                   "34", "34;1", "35", "35;1", "36", "36;1", "37", "37;1"];
    forall i | 0 <= i < |Codes| ensures WellFormedCode(Codes[i]) {
      assert CodeBody(bodies[i]);
      CodeFromBody(bodies[i]);
      assert Codes[i] == [Esc, '['] + bodies[i] + ['m'];
    }
  }

  /** Two different codes never match at the same position: each ends at its only `m`. */
  lemma {:induction false} DistinctCodesDoNotOverlap(x: string, c: string, t: string)
    requires WellFormedCode(x) && WellFormedCode(c) && x != c
    requires |c| <= |x + t|
    ensures (x + t)[..|c|] != c
  {
    var w := (x + t)[..|c|];
    if |c| < |x| {
      assert w[|c| - 1] == x[|c| - 1] != c[|c| - 1];
    } else if |c| > |x| {
      assert w[|x| - 1] == x[|x| - 1] != c[|x| - 1];
    } else {
      assert w == x;
    }
  }

  /** A prefix without an escape character passes through unchanged. */
  lemma {:induction false} ReplaceAllPrefix(p: string, y: string, c: string)
    requires |c| > 0 && c[0] == Esc
    requires forall k :: 0 <= k < |p| ==> p[k] != Esc
    ensures ReplaceAll(p + y, c) == p + ReplaceAll(y, c)
    decreases |p|
  {
    var s := p + y;
    if p == [] {
      assert s == y;
    } else if |s| < |c| {
    } else {
      assert s[..|c|][0] != c[0];
      assert s[1..] == p[1..] + y;
      ReplaceAllPrefix(p[1..], y, c);
      assert ReplaceAll(s, c) == [s[0]] + ReplaceAll(s[1..], c);
      assert p == [p[0]] + p[1..];
    }
  }

  /** A code `x` at the front of the string is deleted by `c` exactly when it is `c`. */
  lemma ReplaceAllLeadingCode(x: string, t: string, c: string)
    requires WellFormedCode(x) && WellFormedCode(c)
    ensures ReplaceAll(x + t, c) == (if x == c then [] else x) + ReplaceAll(t, c)
  {
    if x == c {
      var s := x + t;
      assert s[..|c|] == c && s[|c|..] == t;
    } else {
      ReplaceAllOtherCode(x, t, c);
    }
  }

  /** A leading code other than `c` stays in front. */
  lemma ReplaceAllOtherCode(x: string, t: string, c: string)
    requires WellFormedCode(x) && WellFormedCode(c) && x != c
    ensures ReplaceAll(x + t, c) == x + ReplaceAll(t, c)
  {
    var s := x + t;
    if |s| < |c| {
      assert ReplaceAll(t, c) == t;
    } else {
      DistinctCodesDoNotOverlap(x, c, t);
      assert ReplaceAll(s, c) == [s[0]] + ReplaceAll(s[1..], c);
      var rest := x[1..];
      assert s[1..] == rest + t;
      assert forall k :: 0 <= k < |rest| ==> rest[k] != Esc by {
        forall k | 0 <= k < |rest| ensures rest[k] != Esc {
          assert rest[k] == x[k + 1];
        }
      }
      ReplaceAllPrefix(rest, t, c);
      assert x == [x[0]] + rest;
      Assoc([x[0]], rest, ReplaceAll(t, c));
    }
  }

  /** `color + text + reset` loses exactly the codes equal to `c`. */
  lemma ReplaceAllFramed(x: string, text: string, y: string, c: string)
    requires x == [] || WellFormedCode(x)
    requires y == [] || WellFormedCode(y)
    requires WellFormedCode(c)
    requires forall k :: 0 <= k < |text| ==> text[k] != Esc
    ensures ReplaceAll(x + (text + y), c) == Drop(x, c) + (text + Drop(y, c))
  {
    ReplaceAllPrefix(text, y, c);
    ReplaceAllTrailingCode(y, c);
    if x != [] {
      ReplaceAllLeadingCode(x, text + y, c);
    } else {
      assert x + (text + y) == text + y;
      assert Drop(x, c) + (text + Drop(y, c)) == text + Drop(y, c);
    }
  }

  lemma ReplaceAllTrailingCode(y: string, c: string)
    requires y == [] || WellFormedCode(y)
    requires WellFormedCode(c)
    ensures ReplaceAll(y, c) == Drop(y, c)
  {
    if y != [] {
      ReplaceAllLeadingCode(y, [], c);
      assert y + [] == y;
    }
  }

  function Drop(x: string, c: string): string
  {
    if x == c then [] else x
  }

  /** Stripping a list of codes from `color + text + reset` leaves `text` with whichever
      of the two frame codes the list does not contain. */
  lemma {:induction false} StripFramed(x: string, text: string, y: string, codes: seq<string>)
    requires AllWellFormed(codes)
    requires x == [] || WellFormedCode(x)
    requires y == [] || WellFormedCode(y)
    requires forall k :: 0 <= k < |text| ==> text[k] != Esc
    ensures StripCodes(x + (text + y), codes)
         == (if x in codes then [] else x) + (text + (if y in codes then [] else y))
    decreases |codes|
  {
    if codes != [] {
      ReplaceAllFramed(x, text, y, codes[0]);
      StripFramed(Drop(x, codes[0]), text, Drop(y, codes[0]), codes[1..]);
      assert x in codes <==> x == codes[0] || x in codes[1..];
      assert y in codes <==> y == codes[0] || y in codes[1..];
    }
  }

  /** Stripping any list of well-formed codes that holds `Reset` and the cell's colour
      from a wrapped cell gives back the plain text. */
  lemma StripWrapped(color: string, text: string, codes: seq<string>)
    requires AllWellFormed(codes) && Reset in codes
    requires color == [] || color in codes
    requires forall k :: 0 <= k < |text| ==> text[k] != Esc
    ensures StripCodes(Wrap(color, text), codes) == text
  {
    var i :| 0 <= i < |codes| && codes[i] == Reset;
    assert WellFormedCode(Reset);
    if color != [] {
      var j :| 0 <= j < |codes| && codes[j] == color;
      assert WellFormedCode(color);
    }
    StripFramed(color, text, Reset, codes);
    assert Wrap(color, text) == color + (text + Reset);
    assert [] + (text + []) == text;
  }

  /** Round trip: stripping the colour codes from a wrapped cell gives back exactly
      the plain text. */
  lemma WrapRoundTrip(color: string, text: string)
    requires color == [] || color in Codes
    requires forall k :: 0 <= k < |text| ==> text[k] != Esc
    ensures StripCodes(Wrap(color, text), Codes) == text
  {
    CodesWellFormed();
    assert Codes[0] == Reset;
    StripWrapped(color, text, Codes);
  }

  /** A wrapped cell is as wide on the terminal as its plain text. */
  lemma WrapVisibleLen(color: string, text: string)
    requires color == [] || color in Codes
    requires forall k :: 0 <= k < |text| ==> text[k] != Esc
    ensures VisibleLen(Wrap(color, text)) == |text|
  {
    CodesWellFormed();
    assert Codes[0] == Reset;
    StripWrapped(color, text, Codes);
  }

  /** `__len_without_color`: deletes each code in declaration order, then measures. */
  method LenWithoutColor(text: string) returns (n: nat)
    ensures n == VisibleLen(text)
  {
    var t := text;
    for k := 0 to |Codes|
      invariant StripCodes(t, Codes[k..]) == StripCodes(text, Codes)
    {
      assert Codes[k..][1..] == Codes[k + 1..];
      t := ReplaceAll(t, Codes[k]);
    }
    assert Codes[|Codes|..] == [];
    n := |t|;
  }

  /** A character that is not part of any code stops a code from matching across it. */
  lemma {:induction false} ReplaceAllSplit(x: string, y: string, c: string)
    requires |c| > 0
    requires y == [] || y[0] !in c
    ensures ReplaceAll(x + y, c) == ReplaceAll(x, c) + ReplaceAll(y, c)
    decreases |x|
  {
    if x == [] {
      assert x + y == y;
    } else if |x + y| < |c| {
      assert ReplaceAll(x, c) == x && ReplaceAll(y, c) == y;
    } else if |x| >= |c| && x[..|c|] == c {
      ReplaceAllSplit(x[|c|..], y, c);
      SplitAtMatch(x, y, c);
    } else {
      ReplaceAllSplit(x[1..], y, c);
      SplitAtMiss(x, y, c);
    }
  }

  /** The step of `ReplaceAllSplit` where `x` starts with `c`. */
  lemma SplitAtMatch(x: string, y: string, c: string)
    requires |c| > 0 && |x| >= |c| && x[..|c|] == c
    requires ReplaceAll(x[|c|..] + y, c) == ReplaceAll(x[|c|..], c) + ReplaceAll(y, c)
    ensures ReplaceAll(x + y, c) == ReplaceAll(x, c) + ReplaceAll(y, c)
  {
    SliceConcat(x, y, |c|);
    ReplaceAllAtMatch(x + y, c);
  }

  /** A match at the front is deleted and the rest is processed. */
  lemma ReplaceAllAtMatch(s: string, c: string)
    requires |c| > 0 && |s| >= |c| && s[..|c|] == c
    ensures ReplaceAll(s, c) == ReplaceAll(s[|c|..], c)
  {
  }

  /** The step of `ReplaceAllSplit` where `x` does not start with `c`, either because it
      is shorter than `c` (and `y`'s first character cannot continue `c`) or because its
      first `|c|` characters differ from `c`. */
  lemma SplitAtMiss(x: string, y: string, c: string)
    requires |c| > 0 && x != [] && |x + y| >= |c|
    requires y == [] || y[0] !in c
    requires |x| >= |c| ==> x[..|c|] != c
    requires ReplaceAll(x[1..] + y, c) == ReplaceAll(x[1..], c) + ReplaceAll(y, c)
    ensures ReplaceAll(x + y, c) == ReplaceAll(x, c) + ReplaceAll(y, c)
  {
    MissKeepsHead(x, y, c);
    MissKeepsHead(x, [], c);
    assert x + [] == x;
    Assoc([x[0]], ReplaceAll(x[1..], c), ReplaceAll(y, c));
  }

  /** When `c` does not match at the front of `x + y`, the first character stays. */
  lemma MissKeepsHead(x: string, y: string, c: string)
    requires |c| > 0 && x != []
    requires y == [] || y[0] !in c
    requires |x| >= |c| ==> x[..|c|] != c
    ensures ReplaceAll(x + y, c) == [x[0]] + ReplaceAll(x[1..] + y, c)
  {
    var s := x + y;
    assert s[1..] == x[1..] + y;
    if |s| < |c| {
      assert ReplaceAll(s[1..], c) == s[1..];
      assert s == [x[0]] + s[1..];
    } else if |x| < |c| {
      assert c[|x|] in c;
      assert s[..|c|][|x|] == y[0] != c[|x|];
    } else {
      assert s[..|c|] == x[..|c|];
    }
  }

  /** Deleting a code never removes a first character that cannot start it. */
  lemma ReplaceAllKeepsHead(y: string, c: string)
    requires |c| > 0 && y != [] && y[0] != c[0]
    ensures ReplaceAll(y, c) != [] && ReplaceAll(y, c)[0] == y[0]
  {
    if |y| >= |c| {
      assert y[..|c|][0] != c[0];
    }
  }

  /** Stripping splits at a character that no code contains. */
  lemma {:induction false} StripSplit(x: string, y: string, codes: seq<string>)
    requires AllWellFormed(codes)
    requires y == [] || !CodeChar(y[0])
    ensures StripCodes(x + y, codes) == StripCodes(x, codes) + StripCodes(y, codes)
    decreases |codes|
  {
    if codes != [] {
      var c := codes[0];
      assert WellFormedCode(c);
      var ry := ReplaceAll(y, c);
      if y != [] {
        assert y[0] !in c;
        ReplaceAllKeepsHead(y, c);
      }
      ReplaceAllSplit(x, y, c);
      assert AllWellFormed(codes[1..]);
      StripSplit(ReplaceAll(x, c), ry, codes[1..]);
    }
  }

  /** A prefix without an escape character survives stripping unchanged. */
  lemma {:induction false} StripPlainPrefix(p: string, y: string, codes: seq<string>)
    requires AllWellFormed(codes)
    requires forall k :: 0 <= k < |p| ==> p[k] != Esc
    ensures StripCodes(p + y, codes) == p + StripCodes(y, codes)
    decreases |codes|
  {
    if codes != [] {
      assert WellFormedCode(codes[0]);
      ReplaceAllPrefix(p, y, codes[0]);
      assert AllWellFormed(codes[1..]);
      StripPlainPrefix(p, ReplaceAll(y, codes[0]), codes[1..]);
    }
  }

  /** Text without escape characters is as wide as it is long. */
  lemma VisibleLenPlain(p: string)
    requires forall k :: 0 <= k < |p| ==> p[k] != Esc
    ensures VisibleLen(p) == |p|
  {
    CodesWellFormed();
    StripPlainPrefix(p, [], Codes);
    assert p + [] == p;
  }

  /** Plain text in front adds its length to the visible width. */
  lemma VisibleLenPlainPrefix(p: string, y: string)
    requires forall k :: 0 <= k < |p| ==> p[k] != Esc
    ensures VisibleLen(p + y) == |p| + VisibleLen(y)
  {
    CodesWellFormed();
    StripPlainPrefix(p, y, Codes);
  }

  /** Visible width is additive where the second part starts outside every code. */
  lemma VisibleLenSplit(x: string, y: string)
    requires y == [] || !CodeChar(y[0])
    ensures VisibleLen(x + y) == VisibleLen(x) + VisibleLen(y)
  {
    CodesWellFormed();
    StripSplit(x, y, Codes);
  }
}
