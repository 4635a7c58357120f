/**
 * The Markdown document builder. For every collected file, in collection
 * order, the builder appends a level-3 heading holding the file's path
 * relative to the scanned root, a fenced block holding either the file's
 * text or a one-line read-error placeholder, and a blank line.
 *
 * File reading is not modelled: each entry carries the outcome of the read
 * as a tagged value, and the relative path is given with the entry.
 */
module Markdown {
  import opened Wrappers

  /** The platform line terminator appended by every AppendLine call. */
  type NewLine = s: string | s == "\n" || s == "\r\n" witness "\n"

  const HeadingMarker: string := "### "
  const Fence: string := "```"
  const ErrorPrefix: string := "// Error reading file: "

  /** What trying to read one file's full text gave. */
  datatype ReadOutcome = Read(content: string) | Failed(message: string)

  /** One collected file: its path relative to the root, and its read outcome. */
  datatype FileEntry = FileEntry(relativePath: string, outcome: ReadOutcome)

  /** The text one `AppendLine(s)` adds to the buffer. */
  function Line(s: string, nl: NewLine): string
  {
    s + nl
  }

  /** The text placed inside the fence: the file text, or the placeholder. */
  function Body(o: ReadOutcome): string
  {
    match o
    case Read(content) => content
    case Failed(message) => ErrorPrefix + message
  }

  /**
   * The section of one entry, as the five appends of one loop iteration:
   * heading, fence opener, body line, fence closer, blank line.
   */
  function Section(e: FileEntry, nl: NewLine): string
  {
    Line(HeadingMarker + e.relativePath, nl)
    + Line(Fence, nl)
    + Line(Body(e.outcome), nl)
    + Line(Fence, nl)
    + nl
  }

  /** The whole document: the sections of all entries, in order. */
  function Render(files: seq<FileEntry>, nl: NewLine): string
    decreases |files|
  {
    if files == [] then "" else Section(files[0], nl) + Render(files[1..], nl)
  }

  // ---------------------------------------------------------------------
  // Reading one section back

  /** What precedes the body in a section for `path`. */
  function Opening(path: string, nl: NewLine): string
  {
    HeadingMarker + path + nl + Fence + nl
  }

  /** What follows the body in every section. */
  function Closing(nl: NewLine): string
  {
    nl + Fence + nl + nl
  }

  /**
   * Recovers the fenced body of a section for `path`, or None when `s`
   * does not have the section's opening and closing.
   */
  function Unframe(s: string, path: string, nl: NewLine): Option<string>
  {
    var o := Opening(path, nl);
    var c := Closing(nl);
    if |o| + |c| <= |s| && s[..|o|] == o && s[|s| - |c|..] == c
    then Some(s[|o|..|s| - |c|])
    else None
  }

  /**
   * A section is exactly an opening for its path, its body and the
   * closing, and `Unframe` recovers its body: the file text on a
   * successful read, the placeholder with the read's message on a failure.
   */
  lemma UnframeSection(e: FileEntry, nl: NewLine)
    ensures Section(e, nl) == Opening(e.relativePath, nl) + Body(e.outcome) + Closing(nl)
    ensures e.outcome.Read? ==> Unframe(Section(e, nl), e.relativePath, nl) == Some(e.outcome.content)
    ensures e.outcome.Failed? ==>
              Unframe(Section(e, nl), e.relativePath, nl) == Some(ErrorPrefix + e.outcome.message)
  {
  }

  /** `Unframe` accepts exactly the texts that are a section for `path`. */
  lemma UnframeExactlySections(s: string, path: string, body: string, nl: NewLine)
    ensures Unframe(s, path, nl) == Some(body) <==> s == Section(FileEntry(path, Read(body)), nl)
  {
    var o := Opening(path, nl);
    var c := Closing(nl);
    UnframeSection(FileEntry(path, Read(body)), nl);
    if Unframe(s, path, nl) == Some(body) {
      assert s == s[..|o|] + s[|o|..|s| - |c|] + s[|s| - |c|..];
    }
  }

  // ---------------------------------------------------------------------
  // The document as a sequence of sections

  /** The length of one section, counted piece by piece. */
  function SectionSize(e: FileEntry, nl: NewLine): nat
  {
    |HeadingMarker| + |e.relativePath| + |Body(e.outcome)| + 2 * |Fence| + 5 * |nl|
  }

  /** The total length of the sections of `files`. */
  function TotalSize(files: seq<FileEntry>, nl: NewLine): nat
    decreases |files|
  {
    if files == [] then 0 else SectionSize(files[0], nl) + TotalSize(files[1..], nl)
  }

  /** Rendering distributes over concatenation of entry lists. */
  lemma {:induction false} RenderAppend(a: seq<FileEntry>, b: seq<FileEntry>, nl: NewLine)
    ensures Render(a + b, nl) == Render(a, nl) + Render(b, nl)
    decreases |a|
  {
    if a == [] {
      assert a + b == b;
    } else {
      assert (a + b)[0] == a[0];
      assert (a + b)[1..] == a[1..] + b;
      RenderAppend(a[1..], b, nl);
    }
  }

  /** Processing one more entry appends exactly that entry's section. */
  lemma RenderStep(files: seq<FileEntry>, i: nat, nl: NewLine)
    requires i < |files|
    ensures Render(files[..i + 1], nl) == Render(files[..i], nl) + Section(files[i], nl)
  {
    assert files[..i + 1] == files[..i] + [files[i]];
    RenderAppend(files[..i], [files[i]], nl);
    assert Render([files[i]], nl) == Section(files[i], nl) + Render([], nl);
  }

  /** The document is as long as its sections together. */
  lemma {:induction false} RenderLength(files: seq<FileEntry>, nl: NewLine)
    ensures |Render(files, nl)| == TotalSize(files, nl)
    decreases |files|
  {
    if files != [] {
      RenderLength(files[1..], nl);
    }
  }

  /**
   * Entry k owns the k-th slice of the document, delimited by the sizes of
   * the sections before it, and that slice unframes to entry k's body:
   * one section per entry, in order, whether earlier reads failed or not.
   */
  lemma SectionAt(files: seq<FileEntry>, k: nat, nl: NewLine)
    requires k < |files|
    ensures TotalSize(files[..k], nl) + SectionSize(files[k], nl) == TotalSize(files[..k + 1], nl)
    ensures TotalSize(files[..k + 1], nl) <= |Render(files, nl)|
    ensures Render(files, nl)[TotalSize(files[..k], nl)..TotalSize(files[..k + 1], nl)]
            == Section(files[k], nl)
    ensures Unframe(Render(files, nl)[TotalSize(files[..k], nl)..TotalSize(files[..k + 1], nl)],
                    files[k].relativePath, nl)
            == Some(Body(files[k].outcome))
  {
    var before := files[..k];
    var e := files[k];
    var after := files[k + 1..];
    assert files == before + [e] + after;
    assert files[..k + 1] == before + [e];
    RenderAppend(before + [e], after, nl);
    RenderAppend(before, [e], nl);
    assert Render([e], nl) == Section(e, nl);
    RenderLength(before, nl);
    RenderLength(before + [e], nl);
    RenderLength([e], nl);
    UnframeSection(e, nl);
  }

  /**
   * The buffer only grows by appending: the document after k entries is a
   * prefix of the document after any j >= k entries.
   */
  lemma RenderPrefix(files: seq<FileEntry>, k: nat, j: nat, nl: NewLine)
    requires k <= j <= |files|
    ensures Render(files[..k], nl) <= Render(files[..j], nl)
    ensures |Render(files[..k], nl)| < |Render(files[..j], nl)| <==> k < j
  {
    assert files[..j] == files[..k] + files[k..j];
    RenderAppend(files[..k], files[k..j], nl);
    if k < j {
      assert files[k..j] == [files[k]] + files[k + 1..j];
    }
  }

  /** The document is empty exactly when there are no entries. */
  lemma RenderEmptyIff(files: seq<FileEntry>, nl: NewLine)
    ensures Render(files, nl) == "" <==> files == []
  {
  }

  /**
   * The document does not determine the entries: a file whose text holds a
   * section boundary renders exactly like two files.
   */
  lemma BoundaryInContent(p: string, q: string, x: string, y: string, nl: NewLine)
    ensures Render([FileEntry(p, Read(x + Closing(nl) + Opening(q, nl) + y))], nl)
            == Render([FileEntry(p, Read(x)), FileEntry(q, Read(y))], nl)
  {
    var merged := FileEntry(p, Read(x + Closing(nl) + Opening(q, nl) + y));
    var two := [FileEntry(p, Read(x)), FileEntry(q, Read(y))];
    assert two == [two[0]] + [two[1]];
    RenderAppend([two[0]], [two[1]], nl);
    assert Render([two[0]], nl) == Section(two[0], nl) + Render([], nl);
    assert Render([two[1]], nl) == Section(two[1], nl) + Render([], nl);
    assert Render([merged], nl) == Section(merged, nl) + Render([], nl);
    UnframeSection(two[0], nl);
    UnframeSection(two[1], nl);
    UnframeSection(merged, nl);
    var o := Opening(p, nl);
    var c := Closing(nl);
    var o' := Opening(q, nl);
    calc {
      Section(merged, nl);
      o + (x + c + o' + y) + c;
      { Regroup(o, x, c, o', y); }
      (o + x + c) + (o' + y + c);
      Section(two[0], nl) + Section(two[1], nl);
    }
  }

  /** Regrouping of five concatenated strings, kept apart from the rest. */
  lemma Regroup(o: string, x: string, c: string, o': string, y: string)
    ensures o + (x + c + o' + y) + c == (o + x + c) + (o' + y + c)
  {
  }

  /** A failed read renders like a file whose text is the placeholder. */
  lemma PlaceholderLikeContent(path: string, message: string, nl: NewLine)
    ensures Section(FileEntry(path, Failed(message)), nl)
            == Section(FileEntry(path, Read(ErrorPrefix + message)), nl)
  {
  }

  // ---------------------------------------------------------------------
  // The builder loop

  /** One iteration of the loop body: the five appends for one file. */
  method AppendSection(buf: string, entry: FileEntry, nl: NewLine) returns (buf': string)
    ensures buf' == buf + Section(entry, nl)
  {
    buf' := buf + Line(HeadingMarker + entry.relativePath, nl);
    buf' := buf' + Line(Fence, nl);
    match entry.outcome {
      case Read(content) =>
        buf' := buf' + Line(content, nl);
      case Failed(message) =>
        buf' := buf' + Line(ErrorPrefix + message, nl);
    }
    buf' := buf' + Line(Fence, nl);
    buf' := buf' + nl;
  }

  /**
   * The `foreach` over the collected files appending to one buffer; the
   * second result is the progress task's value, incremented once per file.
   */
  method BuildDocument(files: seq<FileEntry>, nl: NewLine) returns (doc: string, progress: nat)
    ensures doc == Render(files, nl)
    ensures progress == |files|
  {
    var buf := "";
    progress := 0;
    var i := 0;
    while i < |files|
      invariant 0 <= i <= |files|
      invariant buf == Render(files[..i], nl)
      invariant progress == i
    {
      buf := AppendSection(buf, files[i], nl);
      RenderStep(files, i, nl);
      progress := progress + 1;
      i := i + 1;
    }
    assert files[..i] == files;
    doc := buf;
  }
}
