/**
 * The single-literal command `extractStringToArb` (src/action.ts and its copy
 * src/commands/action.ts) and `addImportIfMissing` (src/action.ts).
 */
module Action {
  import opened Wrappers
  import opened JsText
  import opened Utils
  import opened Config
  import opened ArbFiles
  import opened Workspace

  /** `text.slice(1, -1)`: the literal without its quotes. */
  function LiteralValue(t: string): string {
    Slice(t, 1, -1)
  }

  /** The value drops exactly the first and the last character; a text shorter than two gives "". */
  lemma LiteralValueStrips(t: string)
    ensures |t| >= 2 ==> LiteralValue(t) == t[1..|t| - 1] && t == [t[0]] + LiteralValue(t) + [t[|t| - 1]]
    ensures |t| < 2 ==> LiteralValue(t) == []
  {
  }

  /** For a text the code action offers, the value is what lies between the two quotes. */
  lemma LiteralValueOfLiteral(t: string)
    requires IsStringLiteral(t)
    ensures |LiteralValue(t)| == |t| - 2
    ensures IsQuote(t[0]) && IsQuote(t[|t| - 1]) && t == [t[0]] + LiteralValue(t) + [t[|t| - 1]]
  {
    LiteralShape(t);
    LiteralValueStrips(t);
  }

  /** `/^['"]+/` removed. */
  function DropLeadingQuotes(s: string): (r: string)
    ensures |r| <= |s|
    ensures r == [] || !IsQuote(r[0])
  {
    if s != [] && IsQuote(s[0]) then DropLeadingQuotes(s[1..]) else s
  }

  /** `/['"]+$/` removed. */
  function DropTrailingQuotes(s: string): (r: string)
    ensures |r| <= |s|
    ensures r == [] || !IsQuote(r[|r| - 1])
  {
    if s != [] && IsQuote(s[|s| - 1]) then DropTrailingQuotes(s[..|s| - 1]) else s
  }

  /** What `/^['"]+/` leaves ends the text. */
  lemma {:induction false} LeadingQuotesSuffix(s: string)
    ensures EndsWith(s, DropLeadingQuotes(s))
  {
    if s != [] && IsQuote(s[0]) {
      LeadingQuotesSuffix(s[1..]);
      SuffixOfTail(s, DropLeadingQuotes(s[1..]));
    }
  }

  /** What `/^['"]+/` removes is a run of quotes. */
  lemma {:induction false} LeadingQuotesRemoved(s: string)
    ensures forall k :: 0 <= k < |s| - |DropLeadingQuotes(s)| ==> IsQuote(s[k])
  {
    if s != [] && IsQuote(s[0]) {
      LeadingQuotesRemoved(s[1..]);
      forall k | 0 <= k < |s| - |DropLeadingQuotes(s)| ensures IsQuote(s[k]) {
        if k > 0 {
          assert s[k] == s[1..][k - 1];
        }
      }
    }
  }

  /** What `/['"]+$/` leaves starts the text. */
  lemma {:induction false} TrailingQuotesPrefix(s: string)
    ensures StartsWith(s, DropTrailingQuotes(s))
  {
    if s != [] && IsQuote(s[|s| - 1]) {
      TrailingQuotesPrefix(s[..|s| - 1]);
      PrefixOfFront(s, DropTrailingQuotes(s[..|s| - 1]));
    }
  }

  /** What `/['"]+$/` removes is a run of quotes. */
  lemma {:induction false} TrailingQuotesRemoved(s: string)
    ensures forall k :: |DropTrailingQuotes(s)| <= k < |s| ==> IsQuote(s[k])
  {
    if s != [] && IsQuote(s[|s| - 1]) {
      TrailingQuotesRemoved(s[..|s| - 1]);
      forall k | |DropTrailingQuotes(s)| <= k < |s| ensures IsQuote(s[k]) {
        if k < |s| - 1 {
          assert s[k] == s[..|s| - 1][k];
        }
      }
    }
  }

  /** `importStr.trim().replace(/^['"]+|['"]+$/g, "")`. */
  function NormalizeImport(s: string): string {
    DropTrailingQuotes(DropLeadingQuotes(Trim(s)))
  }

  /** The normalised import neither starts nor ends with a quote, and is a piece of the trimmed setting. */
  lemma NormalizeImportShape(s: string)
    ensures var r := NormalizeImport(s);
      && (r != [] ==> !IsQuote(r[0]) && !IsQuote(r[|r| - 1]))
      && |r| <= |Trim(s)|
      && exists a :: OccursAt(Trim(s), r, a)
  {
    var t := Trim(s);
    QuotesDropped(t);
    assert OccursAt(t, NormalizeImport(s), |t| - |DropLeadingQuotes(t)|);
  }

  /** Both quote runs removed: what is left is the middle of the text, with no quote at either end. */
  lemma QuotesDropped(t: string)
    ensures var l := DropLeadingQuotes(t);
      var r := DropTrailingQuotes(l);
      && (r != [] ==> !IsQuote(r[0]) && !IsQuote(r[|r| - 1]))
      && OccursAt(t, r, |t| - |l|)
  {
    var l := DropLeadingQuotes(t);
    LeadingQuotesSuffix(t);
    TrailingQuotesPrefix(l);
    PrefixOfSuffix(t, l, DropTrailingQuotes(l));
  }

  lemma TrimKeeps(s: string)
    requires s != [] && !IsWhitespace(s[0]) && !IsWhitespace(s[|s| - 1])
    ensures Trim(s) == s
  {
    assert LeadingWhitespace(s) == 0;
    assert TrailingWhitespace(s) == 0;
  }

  /** An import line wrapped in runs of quotes (`'package:app/l10n.dart'`, say) normalises to the bare line. */
  lemma NormalizeQuoted(q1: string, core: string, q2: string)
    requires forall k :: 0 <= k < |q1| ==> IsQuote(q1[k])
    requires forall k :: 0 <= k < |q2| ==> IsQuote(q2[k])
    requires core != [] && !IsQuote(core[0]) && !IsQuote(core[|core| - 1])
    requires !IsWhitespace(core[0]) && !IsWhitespace(core[|core| - 1])
    ensures NormalizeImport(q1 + core + q2) == core
  {
    var s := q1 + core + q2;
    EndsOfJoin(q1, core, q2);
    TrimKeeps(s);
    assert s == q1 + (core + q2);
    LeadingRun(q1, core + q2);
    TrailingRun(core, q2);
    assert NormalizeImport(s) == DropTrailingQuotes(DropLeadingQuotes(s));
  }

  lemma {:induction false} LeadingRun(q: string, rest: string)
    requires forall k :: 0 <= k < |q| ==> IsQuote(q[k])
    requires rest != [] && !IsQuote(rest[0])
    ensures DropLeadingQuotes(q + rest) == rest
  {
    if q != [] {
      assert (q + rest)[1..] == q[1..] + rest;
      LeadingRun(q[1..], rest);
    } else {
      assert q + rest == rest;
    }
  }

  lemma {:induction false} TrailingRun(rest: string, q: string)
    requires forall k :: 0 <= k < |q| ==> IsQuote(q[k])
    requires rest != [] && !IsQuote(rest[|rest| - 1])
    ensures DropTrailingQuotes(rest + q) == rest
  {
    if q != [] {
      assert (rest + q)[..|rest + q| - 1] == rest + q[..|q| - 1];
      TrailingRun(rest, q[..|q| - 1]);
    } else {
      assert rest + q == rest;
    }
  }

  /** The edits `addImportIfMissing` stages: one insertion at the top, unless the import is empty or already present. */
  function ImportEdits(docText: string, importStr: string): seq<TextEdit> {
    var imp := NormalizeImport(importStr);
    if imp == [] || Includes(docText, imp) then [] else [TextEdit(0, 0, imp + "\n")]
  }

  /** The document after the staged insertions at offset 0. */
  function InsertAtTop(edits: seq<TextEdit>, docText: string): string {
    if edits == [] then docText else edits[0].newText + InsertAtTop(edits[1..], docText)
  }

  /** A staged import is the normalised line plus a newline at (0,0). */
  lemma ImportEditsShape(docText: string, importStr: string)
    ensures var e := ImportEdits(docText, importStr);
      && (e == [] <==> NormalizeImport(importStr) == [] || Includes(docText, NormalizeImport(importStr)))
      && (e != [] ==> e == [TextEdit(0, 0, NormalizeImport(importStr) + "\n")])
  {
  }

  /** Once the insertion is applied, a second call adds nothing. */
  lemma ImportOnce(docText: string, importStr: string)
    ensures ImportEdits(InsertAtTop(ImportEdits(docText, importStr), docText), importStr) == []
  {
    var imp := NormalizeImport(importStr);
    var e := ImportEdits(docText, importStr);
    if e != [] {
      var t := imp + "\n" + docText;
      assert InsertAtTop(e, docText) == t;
      assert t[0..|imp|] == imp;
      IncludesAt(t, imp, 0);
    }
  }

  /** `addImportIfMissing(document, workspaceEdit)`. */
  method AddImportIfMissing(docText: string, importStr: string, we: WorkspaceEdit)
    modifies we
    ensures we.edits == old(we.edits) + ImportEdits(docText, importStr)
  {
    var imp := NormalizeImport(importStr);
    if imp == [] {
      return;
    }
    if Includes(docText, imp) {
      return;
    }
    we.Insert(0, imp + "\n");
  }

  /** How the command ends. */
  datatype ActionEnd =
    | NoEditor         // no active editor: nothing happens
    | Cancelled        // `getKey` gave an empty key
    | ArbRejected      // `updateArbFiles` threw: its promise is rejected
    | ArbFailed        // `updateArbFiles` reported false
    | Added(key: string)

  /**
   * The WorkspaceEdit `extractStringToArb` builds: the replacement of the
   * selected range with `keyPrefix + key`, then the import if it is missing.
   */
  method ReplaceAndImport(docText: string, start: int, end: int, newText: string, importStr: string)
    returns (edits: seq<TextEdit>)
    ensures edits == [TextEdit(start, end, newText)] + ImportEdits(docText, importStr)
  {
    var workspaceEdit := new WorkspaceEdit();
    workspaceEdit.Replace(start, end, newText);
    AddImportIfMissing(docText, importStr, workspaceEdit);
    edits := workspaceEdit.edits;
  }

  /**
   * `extractStringToArb(document, range, text)`: reload the options, give up
   * without an editor, strip the quotes, ask for a key (`answer`; "" cancels),
   * write every ARB file first, and only then stage the replacement and the
   * import in one WorkspaceEdit and apply it. The result of `applyEdit` is not
   * looked at; codegen runs when `autoRunGenL10n` is set. `submitted` is what
   * reaches `applyEdit` ([] when it is not called).
   */
  method ExtractStringToArb(settings: Settings, source: Option<L10nConfig>, hasEditor: bool,
                            docText: string, start: int, end: int, text: string, answer: string,
                            d: Disk, translate: (string, string) -> string)
    returns (result: ActionEnd, d': Disk, submitted: seq<TextEdit>, codegen: bool)
    modifies settings
    ensures settings.options == Reloaded(old(settings.options), source)
    ensures !hasEditor ==> result == NoEditor && d' == d && submitted == [] && !codegen
    ensures hasEditor && answer == "" ==> result == Cancelled && d' == d && submitted == [] && !codegen
    ensures hasEditor && answer != "" ==>
      var o := settings.options;
      var sync := SyncAfter(d, answer, LiteralValue(text), o.autoTranslate, translate);
      && d' == sync.1
      && (sync.0 == Raised ==> result == ArbRejected && submitted == [] && !codegen)
      && (sync.0 == Returned(false) ==> result == ArbFailed && submitted == [] && !codegen)
      && (sync.0 == Returned(true) ==>
            && result == Added(answer)
            && submitted == [TextEdit(start, end, o.keyPrefix + answer)] + ImportEdits(docText, o.importStr)
            && codegen == o.autoRunGenL10n)
  {
    settings.SetupConfig(source);
    var o := settings.options;
    if !hasEditor {
      return NoEditor, d, [], false;
    }
    var value := LiteralValue(text);
    var key := answer;
    if key == "" {
      return Cancelled, d, [], false;
    }
    var arbWrite;
    arbWrite, d' := UpdateArbFiles(d, key, value, o.autoTranslate, translate);
    if arbWrite == Raised {
      return ArbRejected, d', [], false;
    }
    if !arbWrite.ok {
      return ArbFailed, d', [], false;
    }
    submitted := ReplaceAndImport(docText, start, end, o.keyPrefix + key, o.importStr);
    codegen := o.autoRunGenL10n;
    result := Added(key);
  }
}
