/**
 * src/commands/extractFile.ts: `extractAllTextsInFile`, which replaces every
 * `Text('...')` literal of the active document with `keyPrefix + key` and
 * writes the collected keys to the ARB files in one batch.
 */
module ExtractFile {
  import opened Wrappers
  import opened JsText
  import opened Records
  import opened Config
  import opened ArbFiles
  import opened Workspace
  import opened Matches

  /** The message the command ends with. */
  datatype FileNotice =
    | NoEditor
    | NoTextWidgets      // "No hardcoded Text() widgets found."
    | NoStrings          // "No strings to extract."
    | ApplyFailed        // "Failed to apply text replacements."
    | ArbFailed          // "Failed to update ARB files."
    | Extracted(count: nat)

  /**
   * The countdown loop `for (i = total - 1; i >= 0; i--)`: skip a blank
   * literal or a `//` line, ask for a key, skip an empty one, otherwise stage
   * the replacement of the literal's range and assign `arbUpdates[key]`.
   */
  method StageReplacements(document: Document, prefix: string, workspaceEdit: WorkspaceEdit) returns (arbUpdates: Dict)
    requires Asked(document) && workspaceEdit.edits == []
    modifies workspaceEdit
    ensures workspaceEdit.edits == DocStage(document, prefix).edits
    ensures arbUpdates == Record(DocStage(document, prefix).pairs)
  {
    var text := document.text;
    var matches := document.matches;
    arbUpdates := [];
    ghost var keys := Decided(text, matches, document.answers);
    ghost var pairs := [];
    for i := |matches| downto 0
      invariant workspaceEdit.edits == Stage(matches, keys, prefix, i).edits
      invariant pairs == Stage(matches, keys, prefix, i).pairs
      invariant arbUpdates == Record(pairs)
    {
      var key := DecideKey(document, i);
      StageStep(matches, keys, prefix, i);
      if key == "" {
        continue;
      }
      var m := matches[i];
      var innerText := m.inner;
      // the range of the literal within `match[0]`, and `keyPrefix + key`
      var edit := EditFor(m, key, prefix);
      workspaceEdit.Replace(edit.start, edit.end, edit.newText);
      arbUpdates := Assign(arbUpdates, pairs, key, innerText);
      pairs := pairs + [(key, innerText)];
    }
  }

  /**
   * `extractAllTextsInFile()`. `editor` is the active document (None: no
   * editor), `applyOk` what the host answers to the first `applyEdit`.
   * `submitted` is the edit handed to that `applyEdit`, if it is reached.
   */
  method ExtractAllTextsInFile(settings: Settings, source: Option<L10nConfig>, editor: Option<Document>,
                               applyOk: bool, d: Disk, translateBatch: (seq<string>, string) -> seq<string>)
    returns (notice: FileNotice, submitted: Option<seq<TextEdit>>, d': Disk, codegen: bool)
    requires editor.Some? ==> Asked(editor.value)
    modifies settings
    ensures settings.options == Reloaded(old(settings.options), source)
    ensures editor.None? ==> notice == NoEditor && submitted.None? && d' == d && !codegen
    ensures editor.Some? && editor.value.matches == [] ==> notice == NoTextWidgets && submitted.None? && d' == d && !codegen
    ensures editor.Some? && editor.value.matches != [] ==>
      var o := settings.options;
      var s := DocStage(editor.value, o.keyPrefix);
      var batch := Record(s.pairs);
      && (s.pairs == [] ==> notice == NoStrings && submitted.None? && d' == d && !codegen)
      && (s.pairs != [] ==> submitted == Some(s.edits))
      && (s.pairs != [] && !applyOk ==> notice == ApplyFailed && d' == d && !codegen)
      && (s.pairs != [] && applyOk ==>
            var after := BatchAfter(d, batch, o.autoTranslate, translateBatch);
            && d' == after.1
            && notice == (if after.0 then Extracted(|batch|) else ArbFailed)
            && codegen == (after.0 && o.autoRunGenL10n))
  {
    settings.SetupConfig(source);
    var o := settings.options;
    if editor.None? {
      return NoEditor, None, d, false;
    }
    var document := editor.value;
    var text := document.text;
    var matches := document.matches;
    if |matches| == 0 {
      return NoTextWidgets, None, d, false;
    }
    var workspaceEdit := new WorkspaceEdit();
    var arbUpdates := StageReplacements(document, o.keyPrefix, workspaceEdit);
    RecordSize(DocStage(document, o.keyPrefix).pairs);
    if |arbUpdates| == 0 {
      return NoStrings, None, d, false;
    }
    submitted := Some(workspaceEdit.edits);
    if !applyOk {
      return ApplyFailed, submitted, d, false;
    }
    var updateSuccess;
    updateSuccess, d' := UpdateArbFilesBatch(d, arbUpdates, o.autoTranslate, translateBatch);
    if !updateSuccess {
      return ArbFailed, submitted, d', false;
    }
    codegen := o.autoRunGenL10n;
    notice := Extracted(|arbUpdates|);
  }

  /**
   * The count in "Extracted N strings" is the number of distinct keys, and it
   * is never 0: an empty batch stops the command earlier.
   */
  lemma ExtractedCount(doc: Document, prefix: string)
    requires Asked(doc)
    ensures var p := DocStage(doc, prefix).pairs;
      |Record(p)| == |KeySet(p)| && (|Record(p)| == 0 <==> p == [])
  {
    RecordSize(DocStage(doc, prefix).pairs);
  }

  /**
   * In the batch, each key carries the inner text of the first match in the
   * document that got it.
   */
  lemma BatchValue(doc: Document, prefix: string, j: nat)
    requires Asked(doc) && j < |doc.matches|
    requires Candidate(doc.text, doc.matches[j]) && doc.answers[j] != ""
    requires forall i :: 0 <= i < j && Candidate(doc.text, doc.matches[i]) ==> doc.answers[i] != doc.answers[j]
    ensures var batch := Record(DocStage(doc, prefix).pairs);
      doc.answers[j] in ToMap(batch) && ToMap(batch)[doc.answers[j]] == doc.matches[j].inner
  {
    var keys := Decided(doc.text, doc.matches, doc.answers);
    DecidedAt(doc.text, doc.matches, doc.answers, j);
    forall i | 0 <= i < j ensures keys[i] != keys[j] {
      DecidedAt(doc.text, doc.matches, doc.answers, i);
    }
    EarliestWins(doc.matches, keys, prefix, j);
    RecordMap(DocStage(doc, prefix).pairs);
  }
}
