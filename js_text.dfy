/**
 * The JavaScript string built-ins the extension relies on: `trim`,
 * `startsWith`, `endsWith`, `includes`, `indexOf`, `slice`, and the first two
 * pieces of `split`. Strings are sequences of characters.
 */
module JsText {
  import opened Wrappers

  /** The characters that end a line for the JavaScript regex `.` and `$`. */
  predicate IsLineTerminator(c: char) {
    c == '\n' || c == '\r' || c == '\U{2028}' || c == '\U{2029}'
  }

  /** WhiteSpace or LineTerminator: what `trim` removes and what `\s` matches. */
  predicate IsWhitespace(c: char) {
    || IsLineTerminator(c)
    || c == '\t' || c == '\U{000B}' || c == '\U{000C}' || c == ' '
    || c == '\U{00A0}' || c == '\U{1680}' || ('\U{2000}' <= c <= '\U{200A}')
    || c == '\U{202F}' || c == '\U{205F}' || c == '\U{3000}' || c == '\U{FEFF}'
  }

  predicate IsQuote(c: char) {
    c == '\'' || c == '"'
  }

  predicate AllWhitespace(s: string) {
    forall k :: 0 <= k < |s| ==> IsWhitespace(s[k])
  }

  /** Number of leading whitespace characters. */
  function LeadingWhitespace(s: string): (n: nat)
    ensures n <= |s|
    ensures n < |s| ==> !IsWhitespace(s[n])
  {
    if |s| > 0 && IsWhitespace(s[0]) then 1 + LeadingWhitespace(s[1..]) else 0
  }

  /** Number of trailing whitespace characters. */
  function TrailingWhitespace(s: string): (n: nat)
    ensures n <= |s|
    ensures n < |s| ==> !IsWhitespace(s[|s| - 1 - n])
  {
    if |s| > 0 && IsWhitespace(s[|s| - 1]) then 1 + TrailingWhitespace(s[..|s| - 1]) else 0
  }

  /** The leading run that is counted is all whitespace. */
  lemma {:induction false} LeadingRunWhitespace(s: string)
    ensures AllWhitespace(s[..LeadingWhitespace(s)])
  {
    if |s| > 0 && IsWhitespace(s[0]) {
      LeadingRunWhitespace(s[1..]);
      var n := LeadingWhitespace(s);
      forall k | 0 <= k < n ensures IsWhitespace(s[..n][k]) {
        if k > 0 {
          assert s[..n][k] == s[1..][..n - 1][k - 1];
        }
      }
    }
  }

  /** The trailing run that is counted is all whitespace. */
  lemma {:induction false} TrailingRunWhitespace(s: string)
    ensures AllWhitespace(s[|s| - TrailingWhitespace(s)..])
  {
    if |s| > 0 && IsWhitespace(s[|s| - 1]) {
      var u := s[..|s| - 1];
      TrailingRunWhitespace(u);
      var n := TrailingWhitespace(s);
      var run := s[|s| - n..];
      forall k | 0 <= k < n ensures IsWhitespace(run[k]) {
        if k < n - 1 {
          assert run[k] == u[|u| - (n - 1)..][k];
        }
      }
    }
  }

  /** `s.trim()`. */
  function Trim(s: string): (r: string)
    ensures |r| <= |s|
    ensures |r| > 0 ==> !IsWhitespace(r[0]) && !IsWhitespace(r[|r| - 1])
  {
    var a := LeadingWhitespace(s);
    var t := s[a..];
    t[..|t| - TrailingWhitespace(t)]
  }

  /** `trim` gives "" exactly for a text of whitespace only. */
  lemma TrimEmpty(s: string)
    ensures Trim(s) == [] <==> AllWhitespace(s)
  {
    var a := LeadingWhitespace(s);
    var t := s[a..];
    var b := TrailingWhitespace(t);
    if Trim(s) == [] {
      LeadingRunWhitespace(s);
      TrailingRunWhitespace(t);
      assert t[|t| - b..] == t;
      WhitespaceJoin(s, a);
    }
    if AllWhitespace(s) {
      WhitespaceRun(s);
    }
  }

  /** A text of whitespace only is one leading run. */
  lemma {:induction false} WhitespaceRun(s: string)
    requires AllWhitespace(s)
    ensures LeadingWhitespace(s) == |s|
  {
    if s != [] {
      assert forall k :: 0 <= k < |s| - 1 ==> s[1..][k] == s[k + 1];
      WhitespaceRun(s[1..]);
    }
  }

  /** Whitespace up to `a` and whitespace from `a` on make a whitespace text. */
  lemma WhitespaceJoin(s: string, a: nat)
    requires a <= |s| && AllWhitespace(s[..a]) && AllWhitespace(s[a..])
    ensures AllWhitespace(s)
  {
    forall k | 0 <= k < |s| ensures IsWhitespace(s[k]) {
      if k < a {
        assert s[..a][k] == s[k];
      } else {
        assert s[a..][k - a] == s[k];
      }
    }
  }

  /**
   * The trimmed text is the piece of `s` after its leading whitespace, and
   * what `trim` drops on either side of it is whitespace only.
   */
  lemma TrimPiece(s: string)
    ensures OccursAt(s, Trim(s), LeadingWhitespace(s))
    ensures AllWhitespace(s[..LeadingWhitespace(s)])
    ensures AllWhitespace(s[LeadingWhitespace(s) + |Trim(s)|..])
  {
    var a := LeadingWhitespace(s);
    var t := s[a..];
    var b := TrailingWhitespace(t);
    PrefixOfSuffix(s, t, t[..|t| - b]);
    LeadingRunWhitespace(s);
    TrailingRunWhitespace(t);
    assert s[a + |Trim(s)|..] == t[|t| - b..];
  }

  /** `s.startsWith(p)`. */
  predicate StartsWith(s: string, p: string) {
    |p| <= |s| && s[..|p|] == p
  }

  /** `s.endsWith(p)`. */
  predicate EndsWith(s: string, p: string) {
    |p| <= |s| && s[|s| - |p|..] == p
  }

  predicate OccursAt(s: string, sub: string, i: int) {
    0 <= i && i + |sub| <= |s| && s[i..i + |sub|] == sub
  }

  /** `s.indexOf(sub, from)`: the first occurrence at or after `from`, or -1. */
  function IndexOfFrom(s: string, sub: string, from: nat): (r: int)
    ensures r == -1 || (from <= r && OccursAt(s, sub, r))
    ensures forall i :: from <= i && (r == -1 || i < r) ==> !OccursAt(s, sub, i)
    decreases |s| - from
  {
    if from + |sub| > |s| then -1
    else if s[from..from + |sub|] == sub then from
    else IndexOfFrom(s, sub, from + 1)
  }

  /** `s.indexOf(sub)`. */
  function IndexOf(s: string, sub: string): (r: int)
    ensures r == -1 || OccursAt(s, sub, r)
    ensures forall i :: 0 <= i && (r == -1 || i < r) ==> !OccursAt(s, sub, i)
  {
    IndexOfFrom(s, sub, 0)
  }

  /** `s.includes(sub)`. */
  predicate Includes(s: string, sub: string) {
    IndexOf(s, sub) != -1
  }

  lemma IncludesAt(s: string, sub: string, i: int)
    requires OccursAt(s, sub, i)
    ensures Includes(s, sub)
  {
  }

  /** How `slice` turns a possibly negative argument into a position. */
  function SlicePosition(i: int, len: nat): (p: nat)
    ensures p <= len
  {
    if i < 0 then (if len + i < 0 then 0 else len + i)
    else if i > len then len
    else i
  }

  /** `s.slice(begin, end)`. */
  function Slice(s: string, begin: int, end: int): string {
    var b := SlicePosition(begin, |s|);
    var e := SlicePosition(end, |s|);
    if b < e then s[b..e] else []
  }

  /** `s.split(c)[0]`: the text before the first `c`, or all of `s`. */
  function Before(s: string, c: char): (r: string)
    ensures c !in r
    ensures StartsWith(s, r)
    ensures r == s || s[|r|] == c
  {
    if s == [] || s[0] == c then [] else [s[0]] + Before(s[1..], c)
  }

  /** The text after the first `c`, if `s` holds one. */
  function After(s: string, c: char): (r: Option<string>)
    ensures r.None? <==> c !in s
    ensures r.Some? ==> s == Before(s, c) + [c] + r.value
  {
    if s == [] then None
    else if s[0] == c then Some(s[1..])
    else After(s[1..], c)
  }

  /** `s.split(c)[1]`: `undefined` (None) when `s` holds no `c`. */
  function SecondPiece(s: string, c: char): Option<string> {
    match After(s, c)
    case None => None
    case Some(rest) => Some(Before(rest, c))
  }

  lemma {:induction false} BeforeOfJoin(a: string, c: char, b: string)
    requires c !in a
    ensures Before(a + [c] + b, c) == a
  {
    if a != [] {
      assert (a + [c] + b)[1..] == a[1..] + [c] + b;
      BeforeOfJoin(a[1..], c, b);
    }
  }

  lemma {:induction false} AfterOfJoin(a: string, c: char, b: string)
    requires c !in a
    ensures After(a + [c] + b, c) == Some(b)
  {
    if a != [] {
      assert (a + [c] + b)[1..] == a[1..] + [c] + b;
      AfterOfJoin(a[1..], c, b);
    } else {
      assert (a + [c] + b)[1..] == b;
    }
  }

  /** A prefix free of `c` is kept whole by `split(c)[0]`. */
  lemma {:induction false} BeforePrefix(a: string, c: char, b: string)
    requires c !in a
    ensures Before(a + b, c) == a + Before(b, c)
  {
    if a != [] {
      assert (a + b)[1..] == a[1..] + b;
      BeforePrefix(a[1..], c, b);
    } else {
      assert a + b == b;
    }
  }

  lemma BeforeWithout(s: string, c: char)
    requires c !in s
    ensures Before(s, c) == s
  {
  }

  /** A prefix of a suffix of `t` occurs in `t` where the suffix starts. */
  lemma PrefixOfSuffix(t: string, l: string, r: string)
    requires EndsWith(t, l) && StartsWith(l, r)
    ensures OccursAt(t, r, |t| - |l|)
    ensures r != [] ==> r[0] == l[0]
  {
    var a := |t| - |l|;
    assert t[a..a + |r|] == t[a..][..|r|];
  }

  lemma MiddleOfJoin(a: string, b: string, c: string)
    ensures (a + b + c)[|a|..|a| + |b|] == b
  {
  }

  /** A piece of an occurrence is the same piece of the text, shifted by where it occurs. */
  lemma SliceOfOccurrence(text: string, sub: string, i: int, p: nat, n: nat)
    requires OccursAt(text, sub, i) && p + n <= |sub|
    ensures text[i + p..i + p + n] == sub[p..p + n]
  {
    var piece := text[i + p..i + p + n];
    var want := sub[p..p + n];
    forall k | 0 <= k < n ensures piece[k] == want[k] {
      assert text[i + p + k] == text[i..i + |sub|][p + k];
    }
  }

  lemma SuffixOfTail(s: string, r: string)
    requires s != [] && EndsWith(s[1..], r)
    ensures EndsWith(s, r)
  {
    assert s[|s| - |r|..] == s[1..][|s| - 1 - |r|..];
  }

  lemma PrefixOfFront(s: string, r: string)
    requires s != [] && StartsWith(s[..|s| - 1], r)
    ensures StartsWith(s, r)
  {
    assert s[..|r|] == s[..|s| - 1][..|r|];
  }

  /** The first and the last character of `a + b + c`, for a non-empty `b`. */
  lemma EndsOfJoin(a: string, b: string, c: string)
    requires b != []
    ensures (a + b + c)[0] == if a == [] then b[0] else a[0]
    ensures (a + b + c)[|a + b + c| - 1] == if c == [] then b[|b| - 1] else c[|c| - 1]
  {
  }
}
