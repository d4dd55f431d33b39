/**
 * The part of the editor host the commands stage edits into: a
 * `vscode.WorkspaceEdit` on one document, with ranges given as character
 * offsets into the document's text.
 */
module Workspace {

  /** Replace `text[start..end]` with `newText`; an insertion has `start == end`. */
  datatype TextEdit = TextEdit(start: int, end: int, newText: string)

  /** `new vscode.WorkspaceEdit()`: the edits staged so far, in staging order. */
  class WorkspaceEdit {
    var edits: seq<TextEdit>

    constructor ()
      ensures edits == []
    {
      edits := [];
    }

    /** `workspaceEdit.replace(uri, range, newText)`. */
    method Replace(start: int, end: int, newText: string)
      modifies this
      ensures edits == old(edits) + [TextEdit(start, end, newText)]
    {
      edits := edits + [TextEdit(start, end, newText)];
    }

    /** `workspaceEdit.insert(uri, position, newText)`. */
    method Insert(at: int, newText: string)
      modifies this
      ensures edits == old(edits) + [TextEdit(at, at, newText)]
    {
      edits := edits + [TextEdit(at, at, newText)];
    }
  }
}
