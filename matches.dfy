/**
 * What the two extraction commands share: the matches of
 * `/Text\s*\(\s*(['"])([^$\\]*?)\1\s*[\),]/g` over a Dart document, the rules
 * that skip a match, the range of the quoted literal, and the staging of
 * replacements and ARB entries for the matches taken from last to first.
 */
module Matches {
  import opened JsText
  import opened Records
  import opened Workspace

  /**
   * One regex match, cut at the regex's own parts: `Text`, `gap1`, `(`,
   * `gap2`, the quote (`match[1]`), the inner text (`match[2]`), the same
   * quote, `gap3` and the closing `)` or `,`; `index` is `match.index`.
   */
  datatype Match = Match(index: nat, gap1: string, gap2: string, quote: char, inner: string, gap3: string, closer: char)

  /** `match[0]`: the opening, the quoted literal and the closing. */
  function Full(m: Match): string {
    Opening(m) + Literal(m) + Closing(m)
  }

  /** The part matched by `Text\s*\(\s*`. */
  function Opening(m: Match): string {
    "Text" + m.gap1 + "(" + m.gap2
  }

  /** The part matched by `\s*[\),]`. */
  function Closing(m: Match): string {
    m.gap3 + [m.closer]
  }

  /** `${quoteChar}${innerText}${quoteChar}`. */
  function Literal(m: Match): string {
    [m.quote] + m.inner + [m.quote]
  }

  /** What the regex guarantees of each of its matches. */
  predicate RegexShaped(m: Match) {
    && AllWhitespace(m.gap1) && AllWhitespace(m.gap2) && AllWhitespace(m.gap3)
    && IsQuote(m.quote)
    && '$' !in m.inner && '\\' !in m.inner
    && (m.closer == ')' || m.closer == ',')
  }

  /** `[...text.matchAll(regex)]`: shaped matches found in the text, in document order, not overlapping. */
  predicate MatchesIn(text: string, ms: seq<Match>) {
    && (forall i :: 0 <= i < |ms| ==> RegexShaped(ms[i]) && OccursAt(text, Full(ms[i]), ms[i].index))
    && (forall i, j :: 0 <= i < j < |ms| ==> ms[i].index + |Full(ms[i])| <= ms[j].index)
  }

  /** The length of `Text\s*\(\s*`. */
  function OpeningLength(m: Match): nat {
    4 + |m.gap1| + 1 + |m.gap2|
  }

  /** The opening holds no quote: `Text`, `(` and whitespace. */
  lemma OpeningUnquoted(m: Match)
    requires RegexShaped(m)
    ensures |Opening(m)| == OpeningLength(m)
    ensures forall i :: 0 <= i < |Opening(m)| ==> !IsQuote(Opening(m)[i])
  {
    var opening := Opening(m);
    forall i | 0 <= i < |opening| ensures !IsQuote(opening[i]) {
      if i >= 5 + |m.gap1| {
        assert opening[i] == m.gap2[i - 5 - |m.gap1|];
      } else if 4 <= i < 4 + |m.gap1| {
        assert opening[i] == m.gap1[i - 4];
      }
    }
  }

  /** `match[0].indexOf(literal)` finds the literal right after the opening, which holds no quote. */
  lemma LiteralIndex(m: Match)
    requires RegexShaped(m)
    ensures IndexOf(Full(m), Literal(m)) == OpeningLength(m)
  {
    var full := Full(m);
    var lit := Literal(m);
    var p := OpeningLength(m);
    OpeningUnquoted(m);
    MiddleOfJoin(Opening(m), lit, Closing(m));
    forall i | 0 <= i < p ensures !OccursAt(full, lit, i) {
      assert full[i] == Opening(m)[i];
      assert full[i..i + |lit|][0] == full[i];
    }
    var r := IndexOf(full, lit);
    assert OccursAt(full, lit, p);
    assert r != -1 && p <= r;
    assert !(p < r);
  }

  /** The edit staged for a kept match: the literal's range and `keyPrefix + key`. */
  function EditFor(m: Match, key: string, prefix: string): TextEdit {
    var start := m.index + IndexOf(Full(m), Literal(m));
    TextEdit(start, start + |Literal(m)|, prefix + key)
  }

  /** Where the edit's range lies within the match. */
  lemma EditBounds(m: Match, key: string, prefix: string)
    requires RegexShaped(m)
    ensures var e := EditFor(m, key, prefix);
      && e.start == m.index + OpeningLength(m)
      && e.end - e.start == |m.inner| + 2
      && m.index <= e.start <= e.end <= m.index + |Full(m)|
  {
    LiteralIndex(m);
  }

  /** The range is `match.index + opening`, `inner.length + 2` long, and covers exactly quote, inner text, quote. */
  lemma EditCoversLiteral(text: string, m: Match, key: string, prefix: string)
    requires RegexShaped(m) && OccursAt(text, Full(m), m.index)
    ensures var e := EditFor(m, key, prefix);
      && e.start == m.index + OpeningLength(m)
      && e.end - e.start == |m.inner| + 2
      && m.index <= e.start <= e.end <= m.index + |Full(m)| <= |text|
      && text[e.start..e.end] == Literal(m)
      && e.newText == prefix + key
  {
    EditBounds(m, key, prefix);
    MiddleOfJoin(Opening(m), Literal(m), Closing(m));
    SliceOfOccurrence(text, Full(m), m.index, OpeningLength(m), |Literal(m)|);
  }

  predicate IsLineBreak(c: char) {
    c == '\n' || c == '\r'
  }

  /** Where the line holding offset `i` starts. */
  function LineStart(text: string, i: nat): (s: nat)
    requires i <= |text|
    ensures s <= i
    ensures s > 0 ==> IsLineBreak(text[s - 1])
  {
    if i == 0 || IsLineBreak(text[i - 1]) then i else LineStart(text, i - 1)
  }

  /** No line break lies between the start of the line and `i`. */
  lemma {:induction false} LineStartClear(text: string, i: nat)
    requires i <= |text|
    ensures forall k :: LineStart(text, i) <= k < i ==> !IsLineBreak(text[k])
  {
    if !(i == 0 || IsLineBreak(text[i - 1])) {
      LineStartClear(text, i - 1);
    }
  }

  /** Where the line holding offset `i` ends, before its line break. */
  function LineEnd(text: string, i: nat): (e: nat)
    requires i <= |text|
    ensures i <= e <= |text|
    ensures e < |text| ==> IsLineBreak(text[e])
    decreases |text| - i
  {
    if i == |text| || IsLineBreak(text[i]) then i else LineEnd(text, i + 1)
  }

  /** No line break lies between `i` and the end of the line. */
  lemma {:induction false} LineEndClear(text: string, i: nat)
    requires i <= |text|
    ensures forall k :: i <= k < LineEnd(text, i) ==> !IsLineBreak(text[k])
    decreases |text| - i
  {
    if !(i == |text| || IsLineBreak(text[i])) {
      LineEndClear(text, i + 1);
    }
  }

  /** `document.lineAt(document.positionAt(i).line).text`; `positionAt` clamps to the text. */
  function LineAt(text: string, i: nat): string {
    var j := if i <= |text| then i else |text|;
    var s := LineStart(text, j);
    var e := LineEnd(text, j);
    text[s..e]
  }

  /**
   * The line around an offset inside the text is the run of characters
   * holding no line break that is bounded by a line break or an end of the
   * text on each side.
   */
  lemma LineAtIsLine(text: string, i: nat)
    requires i <= |text|
    ensures LineAt(text, i) == text[LineStart(text, i)..LineEnd(text, i)]
    ensures forall k :: 0 <= k < |LineAt(text, i)| ==> !IsLineBreak(LineAt(text, i)[k])
  {
    LineStartClear(text, i);
    LineEndClear(text, i);
    var s := LineStart(text, i);
    var line := LineAt(text, i);
    assert line == text[s..LineEnd(text, i)];
    forall k | 0 <= k < |line| ensures !IsLineBreak(line[k]) {
      assert line[k] == text[s + k];
    }
  }

  /** The line holding the match starts with `//` after trimming. */
  predicate OnCommentLine(text: string, i: nat) {
    StartsWith(Trim(LineAt(text, i)), "//")
  }

  /** The match survives both skip rules and reaches `getKey`. */
  predicate Candidate(text: string, m: Match) {
    Trim(m.inner) != [] && !OnCommentLine(text, m.index)
  }

  /** A match is skipped exactly when its inner text is all whitespace or its line is a `//` comment. */
  lemma SkipRules(text: string, m: Match)
    ensures !Candidate(text, m) <==> AllWhitespace(m.inner) || StartsWith(Trim(LineAt(text, m.index)), "//")
  {
    TrimEmpty(m.inner);
  }

  /**
   * The key each match ends up with in the loop: `getKey`'s answer
   * (`answers[i]` for match `i`) when the match passes the skip rules, and ""
   * when it is skipped before `getKey` is asked; "" means no edit and no entry.
   */
  function Decided(text: string, ms: seq<Match>, answers: seq<string>): (keys: seq<string>)
    requires |answers| == |ms|
    ensures |keys| == |ms|
  {
    Choose(Flags(text, ms), answers)
  }

  /** Which matches pass the skip rules. */
  function Flags(text: string, ms: seq<Match>): (f: seq<bool>)
    ensures |f| == |ms|
  {
    seq(|ms|, k requires 0 <= k < |ms| => Candidate(text, ms[k]))
  }

  /** The answer where the flag is set, "" elsewhere. */
  function Choose(flags: seq<bool>, answers: seq<string>): (keys: seq<string>)
    requires |flags| == |answers|
    ensures |keys| == |answers|
  {
    if answers == [] then []
    else
      var n := |answers| - 1;
      Choose(flags[..n], answers[..n]) + [if flags[n] then answers[n] else ""]
  }

  lemma {:induction false} ChooseAt(flags: seq<bool>, answers: seq<string>, i: nat)
    requires |flags| == |answers| && i < |answers|
    ensures Choose(flags, answers)[i] == if flags[i] then answers[i] else ""
  {
    var n := |answers| - 1;
    var front := Choose(flags[..n], answers[..n]);
    var last := if flags[n] then answers[n] else "";
    assert Choose(flags, answers) == front + [last];
    if i < n {
      ChooseAt(flags[..n], answers[..n], i);
      assert flags[..n][i] == flags[i];
      assert answers[..n][i] == answers[i];
      assert (front + [last])[i] == front[i];
    }
  }

  /** The key decided for match `i` is its answer when it passes the skip rules, and "" otherwise. */
  lemma DecidedAt(text: string, ms: seq<Match>, answers: seq<string>, i: nat)
    requires |answers| == |ms| && i < |ms|
    ensures Decided(text, ms, answers)[i] == if Candidate(text, ms[i]) then answers[i] else ""
  {
    ChooseAt(Flags(text, ms), answers, i);
  }

  /** The matches staged so far (as indices), the edits staged and the record assignments made, in staging order. */
  datatype Staged = Staged(kept: seq<nat>, edits: seq<TextEdit>, pairs: seq<(string, string)>)

  /** The countdown loop from the last match down to match `k`, each match with its decided key. */
  function Stage(ms: seq<Match>, keys: seq<string>, prefix: string, k: nat): Staged
    requires |keys| == |ms| && k <= |ms|
    decreases |ms| - k
  {
    if k == |ms| then Staged([], [], [])
    else
      var s := Stage(ms, keys, prefix, k + 1);
      if keys[k] != ""
      then Staged(s.kept + [k], s.edits + [EditFor(ms[k], keys[k], prefix)], s.pairs + [(keys[k], ms[k].inner)])
      else s
  }

  /** One step of the countdown: match `k` adds nothing without a key, and its edit and assignment with one. */
  lemma StageStep(ms: seq<Match>, keys: seq<string>, prefix: string, k: nat)
    requires |keys| == |ms| && k < |ms|
    ensures keys[k] == "" ==> Stage(ms, keys, prefix, k) == Stage(ms, keys, prefix, k + 1)
    ensures keys[k] != "" ==>
      && Stage(ms, keys, prefix, k).edits == Stage(ms, keys, prefix, k + 1).edits + [EditFor(ms[k], keys[k], prefix)]
      && Stage(ms, keys, prefix, k).pairs == Stage(ms, keys, prefix, k + 1).pairs + [(keys[k], ms[k].inner)]
  {
  }

  lemma {:induction false} StageLengths(ms: seq<Match>, keys: seq<string>, prefix: string, k: nat)
    requires |keys| == |ms| && k <= |ms|
    ensures var s := Stage(ms, keys, prefix, k);
      |s.kept| == |s.edits| == |s.pairs| && forall a :: 0 <= a < |s.kept| ==> k <= s.kept[a] < |ms|
    decreases |ms| - k
  {
    if k < |ms| {
      StageLengths(ms, keys, prefix, k + 1);
    }
  }

  /** Each staged index has a key, and its assignment is `key: innerText` of that match. */
  lemma {:induction false} StagePairs(ms: seq<Match>, keys: seq<string>, prefix: string, k: nat)
    requires |keys| == |ms| && k <= |ms|
    ensures var s := Stage(ms, keys, prefix, k);
      && |s.kept| == |s.pairs|
      && forall a :: 0 <= a < |s.kept| ==>
            && k <= s.kept[a] < |ms|
            && keys[s.kept[a]] != ""
            && s.pairs[a] == (keys[s.kept[a]], ms[s.kept[a]].inner)
    decreases |ms| - k
  {
    StageLengths(ms, keys, prefix, k);
    if k < |ms| {
      StagePairs(ms, keys, prefix, k + 1);
    }
  }

  /** Each staged entry belongs to a match with a key: its edit and its `key: innerText` assignment. */
  lemma {:induction false} StageSound(ms: seq<Match>, keys: seq<string>, prefix: string, k: nat)
    requires |keys| == |ms| && k <= |ms|
    ensures var s := Stage(ms, keys, prefix, k);
      && |s.kept| == |s.edits| == |s.pairs|
      && forall a :: 0 <= a < |s.kept| ==>
            && k <= s.kept[a] < |ms|
            && keys[s.kept[a]] != ""
            && s.edits[a] == EditFor(ms[s.kept[a]], keys[s.kept[a]], prefix)
            && s.pairs[a] == (keys[s.kept[a]], ms[s.kept[a]].inner)
    decreases |ms| - k
  {
    StageLengths(ms, keys, prefix, k);
    if k < |ms| {
      StageSound(ms, keys, prefix, k + 1);
    }
  }

  /** The matches with a key are staged from last to first, and every one of them from `k` on is staged. */
  lemma {:induction false} StageOrder(ms: seq<Match>, keys: seq<string>, prefix: string, k: nat)
    requires |keys| == |ms| && k <= |ms|
    ensures var s := Stage(ms, keys, prefix, k);
      && (forall a, b :: 0 <= a < b < |s.kept| ==> s.kept[a] > s.kept[b])
      && (forall j :: k <= j < |ms| && keys[j] != "" ==> j in s.kept)
    decreases |ms| - k
  {
    if k < |ms| {
      StageLengths(ms, keys, prefix, k + 1);
      StageOrder(ms, keys, prefix, k + 1);
      var before := Stage(ms, keys, prefix, k + 1).kept;
      var kept := Stage(ms, keys, prefix, k).kept;
      assert kept == if keys[k] != "" then before + [k] else before;
    }
  }

  /** The edit of a match ends before the edit of any later match starts. */
  lemma EditsApart(m1: Match, k1: string, m2: Match, k2: string, prefix: string)
    requires RegexShaped(m1) && RegexShaped(m2) && m1.index + |Full(m1)| <= m2.index
    ensures EditFor(m1, k1, prefix).end <= EditFor(m2, k2, prefix).start
  {
    EditBounds(m1, k1, prefix);
    EditBounds(m2, k2, prefix);
  }

  /** With the matches as the regex finds them, the staged edits run from the end of the text backwards and never overlap. */
  lemma EditsDescending(text: string, ms: seq<Match>, keys: seq<string>, prefix: string)
    requires MatchesIn(text, ms) && |keys| == |ms|
    ensures var e := Stage(ms, keys, prefix, 0).edits;
      forall a, b :: 0 <= a < b < |e| ==> e[b].end <= e[a].start
  {
    StageSound(ms, keys, prefix, 0);
    StageOrder(ms, keys, prefix, 0);
    var s := Stage(ms, keys, prefix, 0);
    forall a, b | 0 <= a < b < |s.edits| ensures s.edits[b].end <= s.edits[a].start {
      var i, j := s.kept[a], s.kept[b];
      EditsApart(ms[j], keys[j], ms[i], keys[i], prefix);
    }
  }

  /** Every staged edit replaces exactly one staged match's quoted literal with `keyPrefix + key`. */
  lemma EditsCoverLiterals(text: string, ms: seq<Match>, keys: seq<string>, prefix: string)
    requires MatchesIn(text, ms) && |keys| == |ms|
    ensures var s := Stage(ms, keys, prefix, 0);
      && |s.kept| == |s.edits| == |s.pairs|
      && forall a :: 0 <= a < |s.edits| ==>
           && s.kept[a] < |ms|
           && 0 <= s.edits[a].start <= s.edits[a].end <= |text|
           && text[s.edits[a].start..s.edits[a].end] == Literal(ms[s.kept[a]])
           && s.edits[a].newText == prefix + s.pairs[a].0
  {
    StageSound(ms, keys, prefix, 0);
    var s := Stage(ms, keys, prefix, 0);
    forall a | 0 <= a < |s.edits|
      ensures 0 <= s.edits[a].start <= s.edits[a].end <= |text|
      ensures text[s.edits[a].start..s.edits[a].end] == Literal(ms[s.kept[a]])
    {
      EditCoversLiteral(text, ms[s.kept[a]], keys[s.kept[a]], prefix);
    }
  }

  /** Nothing is staged exactly when no match has a key. */
  lemma StageEmpty(ms: seq<Match>, keys: seq<string>, prefix: string)
    requires |keys| == |ms|
    ensures var s := Stage(ms, keys, prefix, 0);
      (s.pairs == [] <==> s.edits == []) &&
      (s.pairs == [] <==> forall j :: 0 <= j < |ms| ==> keys[j] == "")
  {
    StageLengths(ms, keys, prefix, 0);
    StagePairs(ms, keys, prefix, 0);
    StageOrder(ms, keys, prefix, 0);
    var s := Stage(ms, keys, prefix, 0);
    if s.pairs != [] {
      assert keys[s.kept[0]] != "";
    }
    forall j | 0 <= j < |ms| && keys[j] != "" ensures s.pairs != [] {
      assert j in s.kept;
    }
  }

  /** Every match with a key has its key in the dictionary, and the dictionary holds no other key. */
  lemma StagedKeys(ms: seq<Match>, keys: seq<string>, prefix: string)
    requires |keys| == |ms|
    ensures var p := Stage(ms, keys, prefix, 0).pairs;
      && (forall j :: 0 <= j < |ms| && keys[j] != "" ==> keys[j] in ToMap(p))
      && (forall key :: key in ToMap(p) ==> key != "" && key in keys)
  {
    StagePairs(ms, keys, prefix, 0);
    StageOrder(ms, keys, prefix, 0);
    var s := Stage(ms, keys, prefix, 0);
    ToMapKeys(s.pairs);
    forall j | 0 <= j < |ms| && keys[j] != "" ensures keys[j] in KeySet(s.pairs) {
      var a :| 0 <= a < |s.kept| && s.kept[a] == j;
      assert s.pairs[a].0 == keys[j];
    }
    forall key | key in KeySet(s.pairs) ensures key != "" && key in keys {
      var a :| 0 <= a < |s.pairs| && s.pairs[a].0 == key;
      assert keys[s.kept[a]] == key;
    }
  }

  /**
   * For a key given to several matches, the dictionary holds the inner text
   * of the first of them in the document: it is staged last.
   */
  lemma EarliestWins(ms: seq<Match>, keys: seq<string>, prefix: string, j: nat)
    requires |keys| == |ms| && j < |ms| && keys[j] != ""
    requires forall i :: 0 <= i < j ==> keys[i] != keys[j]
    ensures var p := Stage(ms, keys, prefix, 0).pairs;
      keys[j] in ToMap(p) && ToMap(p)[keys[j]] == ms[j].inner
  {
    StagePairs(ms, keys, prefix, 0);
    StageOrder(ms, keys, prefix, 0);
    var s := Stage(ms, keys, prefix, 0);
    var a :| 0 <= a < |s.kept| && s.kept[a] == j;
    forall b | a < b < |s.pairs| ensures s.pairs[b].0 != s.pairs[a].0 {
      assert s.kept[b] < j;
    }
    ToMapLast(s.pairs, a);
  }

  /** A Dart document, its regex matches in document order, and what `getKey` answers for each match. */
  datatype Document = Document(text: string, matches: seq<Match>, answers: seq<string>)

  /** One answer per match. */
  predicate Asked(doc: Document) {
    |doc.answers| == |doc.matches|
  }

  /** What the whole countdown loop over a document stages. */
  function DocStage(doc: Document, prefix: string): Staged
    requires Asked(doc)
  {
    Stage(doc.matches, Decided(doc.text, doc.matches, doc.answers), prefix, 0)
  }

  /**
   * The head of the loop body in both commands: a match whose inner text
   * trims to nothing, or whose line trims to a `//` comment, is skipped before
   * `getKey` is asked; otherwise the key is `getKey`'s answer.
   */
  method DecideKey(document: Document, i: nat) returns (key: string)
    requires Asked(document) && i < |document.matches|
    ensures key == Decided(document.text, document.matches, document.answers)[i]
  {
    DecidedAt(document.text, document.matches, document.answers, i);
    var m := document.matches[i];
    if Trim(m.inner) == [] {
      return "";
    }
    var line := Trim(LineAt(document.text, m.index));
    if StartsWith(line, "//") {
      return "";
    }
    key := document.answers[i];
  }

  /**
   * A match is staged exactly when it passes both skip rules and `getKey`
   * gives it a non-empty key, and it is staged under that key.
   */
  lemma DecidedKept(doc: Document, j: nat)
    requires Asked(doc) && j < |doc.matches|
    ensures var key := Decided(doc.text, doc.matches, doc.answers)[j];
      && (key != "" <==> Candidate(doc.text, doc.matches[j]) && doc.answers[j] != "")
      && (key != "" ==> key == doc.answers[j])
  {
    DecidedAt(doc.text, doc.matches, doc.answers, j);
  }
}
