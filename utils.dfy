/**
 * src/utils.ts: the string-literal test used by the code-action provider, and
 * `chunkArray`, which the ARB batch update imports from the same module.
 */
module Utils {
  import opened JsText

  /**
   * How `/^['"](.*?)['"]$/` proceeds once the opening quote is matched and
   * the lazy group holds `t[1..i]`: it first tries to finish with a quote that
   * is the last character, and only then lets `.` take one more character,
   * which must not end a line.
   */
  predicate LazyTail(t: string, i: nat)
    requires 1 <= i <= |t|
    decreases |t| - i
  {
    || (i + 1 == |t| && IsQuote(t[i]))
    || (i < |t| && !IsLineTerminator(t[i]) && LazyTail(t, i + 1))
  }

  /** `isStringLiteral(text)`. */
  predicate IsStringLiteral(t: string) {
    |t| > 0 && IsQuote(t[0]) && LazyTail(t, 1)
  }

  /** The literal test in closed form: quote, one line of anything, quote. */
  predicate QuotedLine(t: string) {
    && |t| >= 2
    && IsQuote(t[0])
    && IsQuote(t[|t| - 1])
    && forall k :: 1 <= k < |t| - 1 ==> !IsLineTerminator(t[k])
  }

  lemma {:induction false} LazyTailClosedForm(t: string, i: nat)
    requires 1 <= i <= |t|
    ensures LazyTail(t, i) <==>
      i < |t| && IsQuote(t[|t| - 1]) && forall k :: i <= k < |t| - 1 ==> !IsLineTerminator(t[k])
    decreases |t| - i
  {
    if i < |t| {
      LazyTailClosedForm(t, i + 1);
    }
  }

  /** The regex accepts exactly the quoted one-line strings. */
  lemma IsStringLiteralClosedForm(t: string)
    ensures IsStringLiteral(t) <==> QuotedLine(t)
  {
    if |t| > 0 {
      LazyTailClosedForm(t, 1);
    }
  }

  /** An accepted text has at least two characters, the first and last of them quotes. */
  lemma LiteralShape(t: string)
    requires IsStringLiteral(t)
    ensures |t| >= 2 && IsQuote(t[0]) && IsQuote(t[|t| - 1])
  {
    IsStringLiteralClosedForm(t);
  }

  /** Any quote, any one line (empty, or holding quotes itself), any quote. */
  lemma LiteralAccepts(q1: char, s: string, q2: char)
    requires IsQuote(q1) && IsQuote(q2)
    requires forall k :: 0 <= k < |s| ==> !IsLineTerminator(s[k])
    ensures IsStringLiteral([q1] + s + [q2])
  {
    var t := [q1] + s + [q2];
    assert forall k :: 1 <= k < |t| - 1 ==> t[k] == s[k - 1];
    IsStringLiteralClosedForm(t);
  }

  /** Quotes need not match: `'abc"` is accepted. */
  lemma MismatchedQuotesAccepted()
    ensures IsStringLiteral("'abc\"")
  {
    LiteralAccepts('\'', "abc", '"');
    assert "'abc\"" == ['\''] + "abc" + ['"'];
  }

  /** The empty text, one character, and anything that spans lines are rejected. */
  lemma LiteralRejects(t: string)
    requires |t| < 2 || exists k :: 0 <= k < |t| && IsLineTerminator(t[k])
    ensures !IsStringLiteral(t)
  {
    IsStringLiteralClosedForm(t);
  }

  /** The concatenation of a list of lists. */
  function Flatten<T>(ss: seq<seq<T>>): seq<T> {
    if ss == [] then [] else ss[0] + Flatten(ss[1..])
  }

  /** The chunk size `updateArbFilesBatch` passes to `chunkArray`. */
  const ChunkSize: nat := 50

  /**
   * `chunkArray(s, n)`. Its code is not part of this model; this definition is
   * an assumption: consecutive slices of `n` elements, the last one shorter,
   * whose concatenation is `s` (no slices for an empty `s`).
   */
  function Chunk<T>(s: seq<T>, n: nat): (r: seq<seq<T>>)
    requires n > 0
    ensures Flatten(r) == s
    ensures forall i :: 0 <= i < |r| ==> 0 < |r[i]| <= n
    ensures forall i :: 0 <= i < |r| - 1 ==> |r[i]| == n
    decreases |s|
  {
    if s == [] then []
    else if |s| <= n then
      assert Flatten([s]) == s + Flatten([s][1..]);
      [s]
    else
      var rest := Chunk(s[n..], n);
      var r := [s[..n]] + rest;
      assert r[1..] == rest;
      assert s == s[..n] + s[n..];
      r
  }

  /** Chunking two lists of one length cuts them at the same places. */
  lemma {:induction false} ChunksAligned<A, B>(a: seq<A>, b: seq<B>, n: nat)
    requires n > 0 && |a| == |b|
    ensures |Chunk(a, n)| == |Chunk(b, n)|
    ensures forall i :: 0 <= i < |Chunk(a, n)| ==> |Chunk(a, n)[i]| == |Chunk(b, n)[i]|
    decreases |a|
  {
    if |a| > n {
      ChunksAligned(a[n..], b[n..], n);
      assert Chunk(a, n) == [a[..n]] + Chunk(a[n..], n);
      assert Chunk(b, n) == [b[..n]] + Chunk(b[n..], n);
    }
  }
}
