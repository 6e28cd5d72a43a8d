/** Small sequence helpers shared by the renderer, the report and the line counter:
    Python's `ch * n` and `seq.count(x)`. */
module Text {

  /** Python's `ch * n`: `n` copies of `ch`, and the empty string when `n <= 0`. */
  function Repeat(ch: char, n: int): (r: string)
    ensures |r| == if n <= 0 then 0 else n
    ensures forall k :: 0 <= k < |r| ==> r[k] == ch
  {
    if n <= 0 then [] else [ch] + Repeat(ch, n - 1)
  }

  /** The number of occurrences of `x` in `s`. */
  function Count<T(==)>(s: seq<T>, x: T): (n: nat)
    ensures n <= |s|
    ensures n == 0 <==> x !in s
  {
    if s == [] then 0
    else Count(s[1..], x) + (if s[0] == x then 1 else 0)
  }

  /** Counting is additive over concatenation. */
  lemma {:induction false} CountConcat<T>(a: seq<T>, b: seq<T>, x: T)
    ensures Count(a + b, x) == Count(a, x) + Count(b, x)
    decreases |a|
  {
    if a == [] {
      assert a + b == b;
    } else {
      assert (a + b)[1..] == a[1..] + b;
      CountConcat(a[1..], b, x);
    }
  }

  /** Concatenation is associative; stated once so that long proofs can use it without
      reasoning about sequence elements. */
  lemma Assoc<T>(a: seq<T>, b: seq<T>, c: seq<T>)
    ensures (a + b) + c == a + (b + c)
  {
  }

  /** Slicing a concatenation inside its first part. */
  lemma SliceConcat<T>(a: seq<T>, b: seq<T>, n: nat)
    requires n <= |a|
    ensures (a + b)[..n] == a[..n] && (a + b)[n..] == a[n..] + b
  {
  }
}
