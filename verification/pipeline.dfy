/**
 * The run after input resolution: stop when nothing matched, otherwise
 * build the document, write it to the fixed output file and hand the same
 * text to the clipboard. Directory enumeration, the file write and the
 * clipboard's native calls are not modelled; the collected entries and
 * whether the clipboard could be opened are inputs.
 */
module Pipeline {
  import opened Wrappers
  import opened Markdown

  /** The output file, relative to the working directory. */
  const OutputPath: string := "output.md"

  /** How a run ends. */
  datatype RunResult =
    | NoMatches
    | Completed(outputPath: string, written: string, clipboard: Option<string>)

  /**
   * The text handed to the clipboard calls, if any: none for an empty text
   * or when the clipboard cannot be opened, otherwise the text itself.
   */
  function CopyToClipboard(text: string, clipboardOpens: bool): Option<string>
  {
    if text == "" then None
    else if !clipboardOpens then None
    else Some(text)
  }

  /**
   * One run over the collected entries. With no entries it ends without
   * a document; otherwise the document written to the output file is the
   * rendering of all entries, it is non-empty, and that same text is
   * handed to the clipboard calls whenever the clipboard can be opened.
   */
  method Run(files: seq<FileEntry>, nl: NewLine, clipboardOpens: bool) returns (r: RunResult)
    ensures r.NoMatches? <==> files == []
    ensures r.Completed? ==> r.outputPath == OutputPath && r.written == Render(files, nl)
    ensures r.Completed? ==> r.written != ""
    ensures r.Completed? ==> (r.clipboard == Some(r.written) <==> clipboardOpens)
    ensures r.Completed? && !clipboardOpens ==> r.clipboard == None
  {
    if |files| == 0 {
      return NoMatches;
    }
    var document, progress := BuildDocument(files, nl);
    RenderEmptyIff(files, nl);
    var placed := CopyToClipboard(document, clipboardOpens);
    r := Completed(OutputPath, document, placed);
  }
}
