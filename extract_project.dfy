/**
 * src/commands/extractProject.ts: `extractAllTextsInProject`, which runs the
 * per-document extraction over every Dart file of the workspace, applies one
 * edit per file, and writes the keys of all files to the ARB files in one
 * batch at the end.
 */
module ExtractProject {
  import opened Wrappers
  import opened JsText
  import opened Records
  import opened Config
  import opened ArbFiles
  import opened Workspace
  import opened Matches
  import Action

  /** One Dart file found under `lib/`, and what the host answers to its `applyEdit`. */
  datatype SourceFile = SourceFile(doc: Document, applyOk: bool)

  /** What happens to one file. */
  datatype FileReport =
    | NoMatchesIn                                      // no `Text(...)` match: skipped
    | NoKeysIn                                         // matches, but no key staged: skipped
    | Submitted(edits: seq<TextEdit>, applied: bool)   // the edit handed to `applyEdit`, and its answer

  /** The message the command ends with. */
  datatype ProjectNotice =
    | NoWorkspace        // "No workspace folder open"
    | NoneFound          // "No hardcoded Text() strings found in workspace."
    | ArbFailed          // "Failed to update ARB files."
    | Extracted(count: nat)

  predicate AllAsked(files: seq<SourceFile>) {
    forall i :: 0 <= i < |files| ==> Asked(files[i].doc)
  }

  /** The record assignments the countdown loop makes for one file. */
  function FilePairs(f: SourceFile, prefix: string): seq<(string, string)>
    requires Asked(f.doc)
  {
    DocStage(f.doc, prefix).pairs
  }

  /** The assignments to the global record, over all files in discovery order. */
  function AllPairs(files: seq<SourceFile>, prefix: string): seq<(string, string)>
    requires AllAsked(files)
  {
    if files == [] then []
    else AllPairs(files[..|files| - 1], prefix) + FilePairs(files[|files| - 1], prefix)
  }

  /** The report for one file, defined from what its loop stages. */
  function Report(f: SourceFile, prefix: string, importStr: string): FileReport
    requires Asked(f.doc)
  {
    if f.doc.matches == [] then NoMatchesIn
    else
      var s := DocStage(f.doc, prefix);
      if s.pairs == [] then NoKeysIn
      else Submitted(s.edits + Action.ImportEdits(f.doc.text, importStr), f.applyOk)
  }

  /**
   * The countdown over one file's matches (`matches.reverse()`): skip a blank
   * literal or a `//` line, ask for a key, skip an empty one, otherwise assign
   * the key in the global record and in the file's record and stage the
   * replacement of the literal's range.
   */
  method StageFileEdits(document: Document, prefix: string, workspaceEdit: WorkspaceEdit,
                        global: Dict, ghost prior: seq<(string, string)>)
    returns (fileKeyValues: Dict, global': Dict)
    requires Asked(document) && workspaceEdit.edits == [] && global == Record(prior)
    modifies workspaceEdit
    ensures workspaceEdit.edits == DocStage(document, prefix).edits
    ensures fileKeyValues == Record(DocStage(document, prefix).pairs)
    ensures global' == Record(prior + DocStage(document, prefix).pairs)
  {
    var text := document.text;
    var matches := document.matches;
    fileKeyValues := [];
    global' := global;
    ghost var keys := Decided(text, matches, document.answers);
    ghost var filePairs := [];
    ghost var globalPairs := prior;
    assert prior + filePairs == prior;
    for i := |matches| downto 0
      invariant workspaceEdit.edits == Stage(matches, keys, prefix, i).edits
      invariant filePairs == Stage(matches, keys, prefix, i).pairs
      invariant fileKeyValues == Record(filePairs)
      invariant globalPairs == prior + filePairs
      invariant global' == Record(globalPairs)
    {
      var key := DecideKey(document, i);
      StageStep(matches, keys, prefix, i);
      if key == "" {
        continue;
      }
      var m := matches[i];
      var innerText := m.inner;
      global' := Assign(global', globalPairs, key, innerText);
      fileKeyValues := Assign(fileKeyValues, filePairs, key, innerText);
      assert (prior + filePairs) + [(key, innerText)] == prior + (filePairs + [(key, innerText)]);
      filePairs := filePairs + [(key, innerText)];
      globalPairs := globalPairs + [(key, innerText)];
      // the range of the literal within `match[0]`, and `keyPrefix + key`
      var edit := EditFor(m, key, prefix);
      workspaceEdit.Replace(edit.start, edit.end, edit.newText);
    }
    assert DocStage(document, prefix) == Stage(matches, keys, prefix, 0);
  }

  /**
   * The body of the `for (const fileUri of dartFiles)` loop for one file:
   * the countdown over its matches assigns each key both in the global
   * record and in the file's own record, then the import is staged, and the
   * edit is applied only if the file's record is not empty.
   */
  method ProcessFile(f: SourceFile, prefix: string, importLine: string, global: Dict, ghost prior: seq<(string, string)>)
    returns (report: FileReport, global': Dict)
    requires Asked(f.doc) && global == Record(prior)
    ensures global' == Record(prior + FilePairs(f, prefix))
    ensures report == Report(f, prefix, importLine)
  {
    var document := f.doc;
    var text := document.text;
    var matches := document.matches;
    if |matches| == 0 {
      assert prior + FilePairs(f, prefix) == prior;
      return NoMatchesIn, global;
    }
    var workspaceEdit := new WorkspaceEdit();
    var fileKeyValues;
    fileKeyValues, global' := StageFileEdits(document, prefix, workspaceEdit, global, prior);
    var importStr := Action.NormalizeImport(importLine);
    if importStr != [] && !Includes(text, importStr) {
      workspaceEdit.Insert(0, importStr + "\n");
    }
    assert workspaceEdit.edits == DocStage(document, prefix).edits + Action.ImportEdits(text, importLine);
    RecordSize(DocStage(document, prefix).pairs);
    if |fileKeyValues| == 0 {
      return NoKeysIn, global';
    }
    report := Submitted(workspaceEdit.edits, f.applyOk);
  }

  /**
   * The `for (const fileUri of dartFiles)` loop: every file in turn, with the
   * global record carried from one file to the next.
   */
  method ProcessFiles(files: seq<SourceFile>, prefix: string, importLine: string)
    returns (reports: seq<FileReport>, globalArbUpdates: Dict)
    requires AllAsked(files)
    ensures |reports| == |files|
    ensures forall i :: 0 <= i < |files| ==> reports[i] == Report(files[i], prefix, importLine)
    ensures globalArbUpdates == Record(AllPairs(files, prefix))
  {
    globalArbUpdates := [];
    reports := [];
    for n := 0 to |files|
      invariant |reports| == n
      invariant forall i :: 0 <= i < n ==> reports[i] == Report(files[i], prefix, importLine)
      invariant globalArbUpdates == Record(AllPairs(files[..n], prefix))
    {
      ghost var upTo := files[..n + 1];
      assert upTo[..n] == files[..n] && upTo[n] == files[n];
      assert AllPairs(upTo, prefix) == AllPairs(files[..n], prefix) + FilePairs(files[n], prefix);
      var report;
      report, globalArbUpdates := ProcessFile(files[n], prefix, importLine, globalArbUpdates, AllPairs(files[..n], prefix));
      ghost var done := reports;
      reports := reports + [report];
      forall i | 0 <= i < n + 1 ensures reports[i] == Report(files[i], prefix, importLine) {
        if i < n {
          assert reports[i] == done[i];
        }
      }
    }
    assert files[..|files|] == files;
  }

  /**
   * `extractAllTextsInProject()`. `workspaceOpen` says whether a workspace
   * folder is open; `files` is what `findFiles` returns, in its order.
   * `reports` holds one report per file.
   */
  method ExtractAllTextsInProject(settings: Settings, source: Option<L10nConfig>, workspaceOpen: bool,
                                  files: seq<SourceFile>, d: Disk, translateBatch: (seq<string>, string) -> seq<string>)
    returns (notice: ProjectNotice, reports: seq<FileReport>, d': Disk, codegen: bool)
    requires AllAsked(files)
    modifies settings
    ensures settings.options == Reloaded(old(settings.options), source)
    ensures !workspaceOpen ==> notice == NoWorkspace && reports == [] && d' == d && !codegen
    ensures workspaceOpen ==>
      var o := settings.options;
      var batch := Record(AllPairs(files, o.keyPrefix));
      && |reports| == |files|
      && (forall i :: 0 <= i < |files| ==> reports[i] == Report(files[i], o.keyPrefix, o.importStr))
      && (batch == [] ==> notice == NoneFound && d' == d && !codegen)
      && (batch != [] ==>
            var after := BatchAfter(d, batch, o.autoTranslate, translateBatch);
            && d' == after.1
            && notice == (if after.0 then Extracted(|batch|) else ArbFailed)
            && codegen == (after.0 && o.autoRunGenL10n))
  {
    settings.SetupConfig(source);
    var o := settings.options;
    if !workspaceOpen {
      return NoWorkspace, [], d, false;
    }
    var globalArbUpdates;
    reports, globalArbUpdates := ProcessFiles(files, o.keyPrefix, o.importStr);
    if |globalArbUpdates| == 0 {
      return NoneFound, reports, d, false;
    }
    var updateSuccess;
    updateSuccess, d' := UpdateArbFilesBatch(d, globalArbUpdates, o.autoTranslate, translateBatch);
    if !updateSuccess {
      return ArbFailed, reports, d', false;
    }
    codegen := o.autoRunGenL10n;
    notice := Extracted(|globalArbUpdates|);
  }

  /**
   * The count in "Extracted N strings from workspace" is the number of
   * distinct keys over all files, and the batch is empty exactly when no
   * file stages any key.
   */
  lemma ProjectCount(files: seq<SourceFile>, prefix: string)
    requires AllAsked(files)
    ensures var p := AllPairs(files, prefix);
      |Record(p)| == |KeySet(p)| && (|Record(p)| == 0 <==> p == [])
  {
    RecordSize(AllPairs(files, prefix));
  }

  /** Every key staged in any file is in the global record. */
  lemma {:induction false} FileKeysInBatch(files: seq<SourceFile>, prefix: string, j: nat)
    requires AllAsked(files) && j < |files|
    ensures KeySet(FilePairs(files[j], prefix)) <= KeySet(Record(AllPairs(files, prefix)))
    decreases |files|
  {
    var init := files[..|files| - 1];
    assert AllPairs(files, prefix) == AllPairs(init, prefix) + FilePairs(files[|files| - 1], prefix);
    KeySetAppend(AllPairs(init, prefix), FilePairs(files[|files| - 1], prefix));
    if j < |files| - 1 {
      FileKeysInBatch(init, prefix, j);
      assert init[j] == files[j];
      RecordKeys(AllPairs(init, prefix));
    }
    RecordKeys(AllPairs(files, prefix));
  }

  lemma KeySetAppend(p: seq<(string, string)>, q: seq<(string, string)>)
    ensures KeySet(p + q) == KeySet(p) + KeySet(q)
  {
    forall x | x in KeySet(p + q) ensures x in KeySet(p) + KeySet(q) {
      var i :| 0 <= i < |p + q| && (p + q)[i].0 == x;
      if i >= |p| { assert q[i - |p|] == (p + q)[i]; }
    }
    forall x | x in KeySet(p) ensures x in KeySet(p + q) {
      var i :| 0 <= i < |p| && p[i].0 == x;
      assert (p + q)[i] == p[i];
    }
    forall x | x in KeySet(q) ensures x in KeySet(p + q) {
      var i :| 0 <= i < |q| && q[i].0 == x;
      assert (p + q)[|p| + i] == q[i];
    }
  }

  /**
   * Adding a file to the end of the list: the global record maps each key as
   * before, except that the new file's own assignments override.
   */
  lemma LaterFileWins(files: seq<SourceFile>, f: SourceFile, prefix: string)
    requires AllAsked(files) && Asked(f.doc)
    ensures AllAsked(files + [f])
    ensures ToMap(Record(AllPairs(files + [f], prefix)))
         == ToMap(Record(AllPairs(files, prefix))) + ToMap(Record(FilePairs(f, prefix)))
  {
    var all := files + [f];
    assert all[..|all| - 1] == files;
    ToMapAppend(AllPairs(files, prefix), FilePairs(f, prefix));
    RecordMap(AllPairs(all, prefix));
    RecordMap(AllPairs(files, prefix));
    RecordMap(FilePairs(f, prefix));
  }
}
