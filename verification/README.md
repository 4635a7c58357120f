# AppCopy document builder, modelled in Dafny

AppCopy collects every file under a directory whose name matches a
`*.ext` pattern and bundles them into one Markdown document. For each file,
in the order the collector returned them, the document holds a `### <relative path>`
heading, a fenced block with the file text, or a `// Error reading file: <message>`
placeholder when the read failed, and a blank line. The document is written to
`output.md` and the same text is handed to the Win32 clipboard calls.

This project models the part of `AppCopy/Program.cs` that is logic rather than I/O:

- `Markdown` (markdown.dfy) holds the per-file section layout, the whole-document
  rendering, and the `foreach`/`StringBuilder` loop. The loop is `BuildDocument`,
  whose invariant ties the growing buffer to the rendering of the files processed
  so far. `Unframe` reads the body back out of a section. `TotalSize` gives the
  offset at which each file's section starts.
- `Input` (input.dfy) holds the two prompt validators and the re-prompt loop of
  interactive mode.
- `Pipeline` (pipeline.dfy) holds the early exit when nothing matched, and the
  hand-off of one and the same text to the output file and to the clipboard
  calls, including the clipboard's empty-text and cannot-open guards.
- `Wrappers` (wrappers.dfy) holds an `Option` type.

Modelling choices:

- `Environment.NewLine` is a parameter of subset type `NewLine`, either LF or CR LF.
  Every `AppendLine(s)` adds `s` followed by it.
- The outcome of `File.ReadAllText` is a tagged value per entry, `Read(content)` or
  `Failed(message)`. `message` stands for the caught exception's message.
- The relative path of each entry is an input string.
- Terminal input is a finite sequence of answers. `Directory.Exists` is membership
  in a given set of existing directories.
- Whether `OpenClipboard` succeeds is a boolean input.

Two details of the code shape the document:

- The body line is appended with `AppendLine(content)` (AppCopy/Program.cs:102), so a
  newline always follows the file text. A file whose text already ends in a newline
  therefore gets an empty line before the closing fence.
- Headings hold `Path.GetRelativePath`'s output as returned (AppCopy/Program.cs:91, 96).
  Separators are not normalised.

Two facts about the format are proved rather than assumed. The document does not
determine the files (`BoundaryInContent`): a file whose text contains a closing
fence and a heading renders exactly like two files. A failed read renders exactly
like a file whose text is the placeholder (`PlaceholderLikeContent`).

## Model

| member | source | states |
|---|---|---|
| Markdown.BuildDocument | AppCopy/Program.cs:81-113 | The loop's buffer ends equal to the rendering of every collected file in collection order. The progress counter ends at the number of files. |
| Markdown.AppendSection | AppCopy/Program.cs:95-110 | One loop iteration appends exactly one section for its file, whichever way the read went. |
| Markdown.UnframeSection | AppCopy/Program.cs:96-110 | A section is the heading line `### path`, the fence opener, the body, a newline, the fence closer and a blank line. Unframing it returns the file text on a successful read and `// Error reading file: ` plus the message on a failed one. |
| Markdown.UnframeExactlySections | AppCopy/Program.cs:96-110 | Unframing with a path yields a body exactly when the text is the section of that path with that body. |
| Markdown.SectionAt | AppCopy/Program.cs:89-113 | For every file k, the slice of the document between the sizes of the first k and first k+1 sections is file k's section and unframes to its body: one section per file, in order, with later files still rendered after a failed read. |
| Markdown.RenderStep | AppCopy/Program.cs:89-113 | Rendering one more file appends that file's section to the rendering so far. |
| Markdown.RenderAppend | AppCopy/Program.cs:89-113 | Rendering a concatenation of file lists is the concatenation of their renderings. |
| Markdown.RenderLength | AppCopy/Program.cs:89-113 | The document's length is the sum of its sections' lengths, counted piece by piece. |
| Markdown.RenderPrefix | AppCopy/Program.cs:81-112 | The buffer only grows by appending: the document after k files is a prefix of the document after j >= k files, and strictly shorter exactly when k < j. |
| Markdown.RenderEmptyIff | AppCopy/Program.cs:89-113 | The document is empty exactly when there are no files. |
| Markdown.BoundaryInContent | AppCopy/Program.cs:96-110 | A file whose text holds a closing and an opening renders exactly like two files, so the document does not determine the files. |
| Markdown.PlaceholderLikeContent | AppCopy/Program.cs:99-107 | A failed read's section equals the section of a file whose text is the placeholder. |
| Input.ValidatePattern | AppCopy/Program.cs:53-58 | The pattern is accepted exactly when its first two characters are `*` and `.`. Otherwise the result is an error carrying the prompt's message. |
| Input.PatternAcceptedIff | AppCopy/Program.cs:55-57 | The accepted patterns are exactly `*.` followed by any text. |
| Input.Prompt | AppCopy/Program.cs:41-58 | Answers are taken in turn. The first one the validator accepts is returned. Every earlier answer was rejected, and its error message was shown. |
| Input.ResolveInteractive | AppCopy/Program.cs:38-59 | A resolved request has an existing root directory and a pattern starting with `*.`. Each is the first answer its prompt accepted, and every earlier answer to that prompt was rejected. Without a request, one of the prompts rejected every answer. |
| Pipeline.Run | AppCopy/Program.cs:69-120 | A run stops without a document exactly when no file matched. Otherwise it writes the rendering of all files to `output.md`. That text is non-empty, so the clipboard's empty-text guard never skips it. The same text is handed to the clipboard calls exactly when the clipboard opens. |

## Left out

- Directory enumeration (`Directory.GetFiles`), `File.ReadAllText` and `File.WriteAllText` are filesystem I/O. Their results are inputs: the entry sequence, each entry's read outcome, and the run result's written text.
- `Path.GetRelativePath` is a library path computation. The relative path is given per entry.
- The Win32 clipboard calls and `Marshal.StringToHGlobalUni` (AppCopy/Program.cs:12-24, 143-155) are foreign calls. Only the guard deciding whether the text is handed to them is modelled (`Pipeline.CopyToClipboard`).
- The console UI is not modelled: banner, markup lines, progress bar rendering and result table. The progress task's value is kept as a counter.
- The top-level `try`/`catch` that prints an exception and its stack trace is not modelled, so no exception outside the per-file read occurs in the model. One such case arises inside the loop. AppCopy/Program.cs:93 formats the full path into Spectre markup, so a path with bracket markup such as `pages/[id].tsx` throws there. The run then ends in the catch at AppCopy/Program.cs:131-136 and `output.md` is not written. For such files the model's `BuildDocument` and `Run` still render and write the whole document.
- Argument mode (`args[0]`, `args[1]`) passes its strings through without validation, so there is nothing to state about it.
- Input.Prompt: the real prompt asks forever. With a finite answer sequence, the model can run out of answers and return no result.
- Input.Prompt: the re-ask loop belongs to Spectre.Console's `TextPrompt`, whose code is not part of this model. With its default `AllowEmpty` of false, that prompt re-asks a blank or whitespace-only answer without calling the validator and without showing a message. The model passes every answer to the validator and records a message for each rejection. `Input.ResolveInteractive` inherits this.
- Input.ValidatePattern: AppCopy/Program.cs:55 calls the culture-sensitive `string.StartsWith`, which skips ignorable code points. For example, it accepts `"\u00AD*.py"` (a soft hyphen first). The model compares the first two characters ordinally, so it rejects such patterns. `Input.PatternAcceptedIff` states the ordinal comparison too.
- Pipeline.CopyToClipboard: the result is the text handed to `EmptyClipboard`/`SetClipboardData`, not what the clipboard ends up holding. AppCopy/Program.cs:147-149 ignores `SetClipboardData`'s result, and the clipboard is opened with no owner window (AppCopy/Program.cs:143), so the set may fail and leave the clipboard emptied. When the clipboard cannot be opened, it keeps its old contents. `Pipeline.Run` inherits this.
- Text encoding is not modelled: the UTF-8 output file and the UTF-16 clipboard buffer. Strings are sequences of characters.
