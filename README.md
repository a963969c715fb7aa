# Word document server: the decision layer of the conversion tools

A Dafny model of the logic that decides what the Word-document MCP server's
conversion tools do. The converters themselves are not modelled. The model
covers:

- how each tool names its output (`splitext`, case-insensitive extension
  check, `abspath`/`dirname`);
- the checks made before anything is converted: missing source, output
  directory creation, `check_file_writeable`;
- the office-suite fallback loop of `convert_to_pdf` and
  `convert_html_to_pdf`: candidates keyed by platform, success only with
  exit 0, the expected file and the target present after the move, and one
  diagnostic per failed candidate;
- the docx2pdf fallback and the Windows branch;
- the two-step `convert_markdown_to_pdf` with its temporary HTML file;
- the five library-backed conversions;
- the argument guards of the two document queries;
- `ensure_docx_extension` and `create_document_copy`;
- the server's `get_transport_config`.

The filesystem is a value, `Fs.Disk`, holding:

- the working directory;
- the files and their sizes;
- the directories;
- the paths `os.access(p, os.W_OK)` accepts. A directory the process
  creates, and a file it creates by writing, belong to the process and join
  them; a moved entry keeps the mode of its source; a removed file leaves
  them;
- the paths whose append-mode `open` raises. On a directory that `open`
  always raises `IsADirectoryError`, so a directory is never a writeable
  output file.

`Fs.FileSystem` is a class holding such a value, and the tools change it
through `MakeDirs`, `Write`, `Move` and `Remove`. Each tool that changes
the filesystem has two parts:

- a specification function from the filesystem before the call to a
  `Reply` (the returned message and the filesystem after the call);
- a method that performs the same steps on a `FileSystem` and is proved
  equal to that function.

There are exceptions. The two document queries, `GetParagraphText` and
`FindText`, change nothing and are functions only. `create_document_copy`
is the method `FileUtils.CreateDocumentCopy`, whose contract states its
outcome directly.

The candidate loop is a `while` loop in `Fallback.TryCandidates`. Its
invariant ties the diagnostics gathered so far to the recursive
specification `Fallback.TryFrom`.

What the outside world does is a parameter:

- `Fallback.Run` is what `subprocess.run` of one candidate does: not found,
  raises, or exits with a code, its stderr and possibly a written file;
- `PdfConversions.Docx2Pdf` is what `docx2pdf.convert` does;
- `Conversions.LibRun` is what mammoth, markdownify, markdown or the text
  extractor does;
- `Result<string>` is what the paragraph lookup and the text search return;
- the platform name is a string parameter, `system`.

Modules, in dependency order:

- `Wrappers`: `Option` and `Result`.
- `PyStr`: the parts of `str` and `int()` the code relies on.
- `PyPath`: POSIX `os.path`.
- `Fs`: the filesystem.
- `FileUtils`: word_document_server/utils/file_utils.py.
- `TransportConfig`: `get_transport_config` in word_document_server/main.py.
- `Fallback`: the candidate loop.
- `Conversions`: output naming, the gate, the library conversions and the
  query guards.
- `PdfConversions`: the three PDF tools.

Behaviour of the code worth knowing, each item proved as a lemma:

- The size of the output is checked only after the docx2pdf fallback on
  Linux/macOS. An office-suite run counts once the target exists. On
  Windows, docx2pdf returning counts as success with no check at all
  (`PdfConversions.WindowsTrustsDocx2Pdf`).
- A missing library ends a library tool with a failure message. No other
  converter is tried (`Conversions.LibraryFailureMessages`).
- On an unsupported platform, `convert_to_pdf` first creates the output
  directory and checks the output path, and only then refuses
  (`PdfConversions.UnsupportedPlatform`).
- `ensure_docx_extension` keeps any other extension, so its result need not
  end with `.docx`, though its docstring says it does
  (`FileUtils.EnsureDocxKeepsTxt`).
- A temporary HTML file left over from an earlier call hides a failed
  Markdown-to-HTML step (`PdfConversions.StaleTmpHidesFailure`).

## Model

| member | source | states |
|---|---|---|
| PyStr.Strip | word_document_server/main.py:43 | `str.strip()`: the result has no white space (in Python's `isspace` sense) at either end and is no longer than the input |
| PyStr.StripTrimmed | word_document_server/main.py:43 | a text with no white space at either end is its own `strip()` |
| PyStr.StripPadded | word_document_server/main.py:43 | stripping any white space around a trimmed text gives back exactly that text |
| PyStr.StripIdempotent | word_document_server/tools/extended_document_tools.py:154 | stripping twice is stripping once |
| PyStr.Lower | word_document_server/main.py:27 | `str.lower()` keeps the length and lower-cases each character on its own (ASCII letters) |
| PyStr.LowerAppend | word_document_server/tools/extended_document_tools.py:83 | lower-casing distributes over concatenation |
| PyStr.LowerOfLower | word_document_server/main.py:27 | a text with no upper-case letter is its own lower case |
| PyStr.ContainsWithin | word_document_server/tools/extended_document_tools.py:151-158 | a text placed between two others occurs in the result |
| PyStr.ContainsExtend | word_document_server/tools/extended_document_tools.py:173-174 | what occurs in a text still occurs once more text surrounds it |
| PyStr.Affixes | word_document_server/tools/extended_document_tools.py:83 | a concatenation starts with its first part and ends with its last (`str.startswith`, `str.endswith`) |
| PyStr.Join | word_document_server/tools/extended_document_tools.py:174 | `sep.join`: one part joins to itself, no parts to the empty text |
| PyStr.JoinAppend | word_document_server/tools/extended_document_tools.py:174 | joining two non-empty lists is joining each and putting the separator between them |
| PyStr.JoinContains | word_document_server/tools/extended_document_tools.py:174 | any text occurring in one of the parts occurs in their join |
| PyStr.ParseInt | word_document_server/main.py:38 | `int(s)` base 10 fails (`None`) on a text that is blank after stripping, and on any text holding one of the separators U+001C..U+001F, which `isspace` accepts but `int()` does not skip |
| PyStr.SeparatorRefused | word_document_server/main.py:38 | a separator U+001C..U+001F anywhere in the text, padding included, makes `int()` raise |
| PyStr.ParseLiteral | word_document_server/main.py:38 | `int()` accepts an optional `+` or `-`, then digits with leading zeros and single underscores, padded with the white space it skips, and returns their value with the sign |
| PyStr.ParsedShape | word_document_server/main.py:38 | a text `int()` accepts holds no separator, and once stripped holds only digits, underscores and a leading sign, never two adjacent underscores, and ends in a digit |
| PyStr.ShowInt | word_document_server/main.py:38 | `str(i)` is non-empty and starts with `-` exactly when `i` is negative |
| PyStr.ShowNat | word_document_server/main.py:38 | `str(n)` of a natural number is a non-empty run of digits |
| PyStr.DigitsValueShowNat | word_document_server/main.py:38 | the digits of `str(n)` spell `n` |
| PyStr.ParsePaddedShowInt | word_document_server/main.py:38 | `str(i)` padded with any white space `int()` skips parses back to `i` |
| PyStr.ParseShowInt | word_document_server/main.py:38 | `int(str(i)) == i` for every integer |
| PyPath.RFind | word_document_server/tools/extended_document_tools.py:81 | the index of the last occurrence of a character, or -1, with no occurrence after it |
| PyPath.RFindAppend | word_document_server/tools/extended_document_tools.py:83 | appending text without the character leaves its last occurrence where it was |
| PyPath.Basename | word_document_server/tools/extended_document_tools.py:137 | `basename` has no `/` and is a suffix of the path |
| PyPath.SplitExt | word_document_server/tools/extended_document_tools.py:81 | `splitext`: root + extension is the path; the extension is empty or one `.` followed by neither `.` nor `/`; a non-empty extension follows a last component with a non-dot character |
| PyPath.SplitExtAppend | word_document_server/tools/extended_document_tools.py:83 | appending an extension to a name with a non-dot character makes it exactly the split extension |
| PyPath.SplitExtAppendPlain | word_document_server/utils/file_utils.py:62-63 | appending text with no `.` or `/` to a path without extension leaves it without one |
| PyPath.RStripSlashes | word_document_server/tools/extended_document_tools.py:91 | the longest prefix not ending in `/`, the rest being slashes |
| PyPath.Dirname | word_document_server/tools/extended_document_tools.py:91 | `dirname` is a prefix of the path, absolute when the path is |
| PyPath.SplitAtLastSlash | word_document_server/tools/extended_document_tools.py:91 | `dirname` and `basename` invert joining a head not ending in `/` to a name without `/` |
| PyPath.PathJoin | word_document_server/tools/extended_document_tools.py:139 | `os.path.join`: an absolute second part replaces the first; otherwise the result starts with the first and ends with `/` and the second |
| PyPath.IsAbs | word_document_server/tools/extended_document_tools.py:87 | `os.path.isabs`: the path starts with `/` |
| PyPath.Abspath | word_document_server/tools/extended_document_tools.py:86-88 | absolute against an absolute working directory, the identity on absolute paths, and ends with any path other than `""` and `.` |
| Fs.Exists | word_document_server/tools/extended_document_tools.py:76 | `os.path.exists`: the empty path never exists, and a path with a non-zero size does |
| Fs.Size | word_document_server/tools/extended_document_tools.py:169 | `os.path.getsize`: a non-zero size belongs to a file |
| Fs.ResolvedPathSameEntry | word_document_server/tools/extended_document_tools.py:87-88 | once the working directory is absolute, `abspath` of a path is its own `abspath`, and `exists`, `os.access` and `getsize` answer the same for both |
| Fs.AfterMakeDirs | word_document_server/tools/extended_document_tools.py:96 | `os.makedirs(exist_ok=True)`: the directory exists afterwards, no file changes, nothing disappears, and an existing path changes nothing; a directory it creates is writeable, and no other path changes writeability |
| Fs.AfterWrite | word_document_server/tools/extended_document_tools.py:212-213 | after the write the file exists with the written size; nothing disappears; the working directory, the directories and every other file are unchanged; a file the write creates is writeable, an existing one keeps its mode, and no other path changes writeability |
| Fs.AfterMove | word_document_server/tools/extended_document_tools.py:144 | `shutil.move`: the destination exists afterwards, holding the source file's size and writeable exactly when the source was, and a different source no longer does and is not writeable; every other file and every other path's writeability is unchanged |
| Fs.AfterRemove | word_document_server/tools/extended_document_tools.py:421 | `os.remove`: when the directory holding the path is writeable, the file is gone and, unless a directory is there, no longer writeable; otherwise nothing changes; the directories, every other file and every other path's writeability are unchanged |
| Fs.FileSystem.constructor | word_document_server/tools/extended_document_tools.py:76-101 | the filesystem the tools run against starts from the given one |
| Fs.FileSystem.MakeDirs | word_document_server/tools/extended_document_tools.py:96 | the new state is `AfterMakeDirs` of the old one |
| Fs.FileSystem.Write | word_document_server/tools/extended_document_tools.py:212-213 | the new state is `AfterWrite` of the old one |
| Fs.FileSystem.Move | word_document_server/tools/extended_document_tools.py:143-144 | the new state is `AfterMove` of the old one |
| Fs.FileSystem.Remove | word_document_server/tools/extended_document_tools.py:420-421 | the new state is `AfterRemove` of the old one |
| Fs.ParentDir | word_document_server/utils/file_utils.py:21-24 | the directory consulted for a new file is never empty (`.` stands for an empty `dirname`) |
| Fs.ParentDirOfBareName | word_document_server/utils/file_utils.py:21-24 | a name with no `/` is checked against `.` |
| FileUtils.CheckFileWriteable | word_document_server/utils/file_utils.py:9-43 | `is_writeable` holds exactly when the message is empty, and exactly when the path is writeable (an existing path writeable, not a directory and openable for append, a new one in an existing writeable directory) |
| FileUtils.DirectoryRefused | word_document_server/utils/file_utils.py:36-41 | a directory that passes `os.access` is still refused, with the `IsADirectoryError` message "File <p> is not writeable: [Errno 21] Is a directory: '<p>'" |
| FileUtils.CheckNewFile | word_document_server/utils/file_utils.py:20-29 | for a new file: the missing directory, the non-writeable directory, or success, with the exact messages |
| FileUtils.PermissionDeniedSkipsProbe | word_document_server/utils/file_utils.py:32-33 | an existing file without write permission is refused with the permission message, whatever the append-mode probe would do |
| FileUtils.EnsureDocxExtension | word_document_server/utils/file_utils.py:73-98 | the result is the path or the path + `.docx`, and ends with `.docx` in any case or has a non-empty extension |
| FileUtils.EnsureDocxKeepsExtension | word_document_server/utils/file_utils.py:93-94 | a path with any extension is returned unchanged |
| FileUtils.EnsureDocxAppends | word_document_server/utils/file_utils.py:86-95 | `.docx` is appended exactly when the path neither ends with `.docx` in any case nor has an extension |
| FileUtils.EnsureDocxIdempotent | word_document_server/utils/file_utils.py:73-98 | normalising twice is normalising once |
| FileUtils.EnsureDocxKeepsTxt | word_document_server/utils/file_utils.py:80-81 | any `<name>.txt` comes back unchanged and does not end with `.docx`, against the docstring's promise |
| FileUtils.TxtExtension | word_document_server/utils/file_utils.py:93 | `.txt` after a name with a non-dot character is the split extension |
| FileUtils.CopyDestination | word_document_server/utils/file_utils.py:60-63 | a given destination is used as is; otherwise the copy's name is the source's root + `_copy`, with the source's extension |
| FileUtils.CopyKeepsExtension | word_document_server/utils/file_utils.py:62-63 | inserting `_copy` before the extension leaves `splitext` splitting at the same extension |
| FileUtils.CopyWritten | word_document_server/utils/file_utils.py:67 | `shutil.copy2` onto an existing directory writes the source's base name inside it; onto anything else, the destination itself |
| FileUtils.CreateDocumentCopy | word_document_server/utils/file_utils.py:46-70 | success exactly when the source exists and the copy does not raise; the third component is present exactly on success and is the destination, which then exists; the file written (`CopyWritten`) has the source's size and nothing else changes; a missing source or a failed copy changes nothing and returns the exact message |
| TransportConfig.GetEnv | word_document_server/main.py:27-43 | `os.getenv(key, default)`: the variable's value when it is set, the default otherwise |
| TransportConfig.Transport | word_document_server/main.py:27-35 | the transport is one of the three valid ones: `stdio` or the lower-cased `MCP_TRANSPORT` |
| TransportConfig.PortText | word_document_server/main.py:38 | there is no port text exactly when neither `PORT` nor `MCP_PORT` is set |
| TransportConfig.DebugFlag | word_document_server/main.py:43-44 | debug is off when `MCP_DEBUG` is unset |
| TransportConfig.GetTransportConfig | word_document_server/main.py:15-46 | the configuration is produced exactly when the port text is absent or parses as an integer (otherwise `int()`'s `ValueError` message); its transport is always valid |
| TransportConfig.EmptyEnvironmentGivesDefaults | word_document_server/main.py:17-24 | with no variable set every setting is its default (`stdio`, `0.0.0.0`, 8000, `/mcp`, `/sse`, off) |
| TransportConfig.TransportChoice | word_document_server/main.py:27-35 | a valid lower-cased `MCP_TRANSPORT` is taken; any other falls back to `stdio` |
| TransportConfig.PortWins | word_document_server/main.py:38 | a `PORT` that `int()` accepts is the port, whatever `MCP_PORT` holds |
| TransportConfig.PortIgnoresMcpPort | word_document_server/main.py:37-38 | once `PORT` is set, the configuration, or the error, is the same whatever `MCP_PORT` holds |
| TransportConfig.McpPortFallback | word_document_server/main.py:38 | without `PORT`, an `MCP_PORT` that `int()` accepts is the port |
| TransportConfig.PaddedDecimalPort | word_document_server/main.py:38 | a decimal `PORT`, padded with any white space `int()` skips, is read back as its number |
| TransportConfig.DefaultPort | word_document_server/main.py:20 | with neither variable set the port is 8000 |
| TransportConfig.EmptyPortIsAnError | word_document_server/main.py:38 | a set but empty `PORT` is an error, even with a valid `MCP_PORT` |
| TransportConfig.DebugWordsPadded | word_document_server/main.py:43-44 | any of `1`, `true`, `yes`, `on` in any case, padded with any white space, turns debug on |
| TransportConfig.ReadsOwnVariables | word_document_server/main.py:36-40 | host, path and SSE path each come from their own variable or their default |
| Fallback.HtmlPdfCandidates | word_document_server/tools/extended_document_tools.py:365-376 | the exact list per platform: Windows tries `soffice` then the two Program Files paths, macOS `soffice` then the application bundle's binary, every other system `libreoffice` then `soffice`; always at least two distinct names including `soffice` |
| Fallback.DocxPdfCandidates | word_document_server/tools/extended_document_tools.py:117-124 | on macOS and Linux the same candidates, in the same order, as the HTML tool |
| Fallback.DiagnosticTexts | word_document_server/tools/extended_document_tools.py:150-158 | the four diagnostics of a failed candidate, word for word (the same four texts as :390-396 of the HTML tool): not found, an exception, a zero exit without the expected file, a non-zero exit with its stripped stderr |
| Fallback.DiagnosticNamesCandidate | word_document_server/tools/extended_document_tools.py:150-158 | every diagnostic names the candidate it is about |
| Fallback.Attempt | word_document_server/tools/extended_document_tools.py:126-158 | an attempt succeeds only with exit 0, the expected file present and the target present after the move; a missing or raising executable fails with the filesystem otherwise untouched |
| Fallback.AfterExit | word_document_server/tools/extended_document_tools.py:133-154 | a run that exited counts only with code 0 and the target present afterwards, and only when the expected file was written by it or already there |
| Fallback.TryFrom | word_document_server/tools/extended_document_tools.py:377-396 | a winner's index is within the candidates and equals the number of diagnostics; without a winner there is one diagnostic per candidate |
| Fallback.PrependPrepend | word_document_server/tools/extended_document_tools.py:391-396 | collecting diagnostics in two batches is collecting them at once |
| Fallback.DiagnosticsInOrder | word_document_server/tools/extended_document_tools.py:150-158 | the `j`-th diagnostic is the `j`-th candidate's |
| Fallback.DiskBeforeStep | word_document_server/tools/extended_document_tools.py:126-129 | after a failed first candidate the others start from the filesystem it left |
| Fallback.WinnerIsVerified | word_document_server/tools/extended_document_tools.py:133-148 | the winner exited with 0, its expected file was there once it had run, and the target exists at the end |
| Fallback.NoZeroExitNoWinner | word_document_server/tools/extended_document_tools.py:133 | without a zero exit there is no winner |
| Fallback.StopsAtFirstSuccess | word_document_server/tools/extended_document_tools.py:146-148 | candidates after the winner are never run: appending more changes nothing |
| Fallback.SummaryNamesEveryCandidate | word_document_server/tools/extended_document_tools.py:397 | when all fail, the joined diagnostics name every candidate |
| Fallback.AllMissing | word_document_server/tools/extended_document_tools.py:393-394 | when no candidate is installed, the diagnostics are exactly the "not found" messages, in order |
| Fallback.FalseSuccessIsFailure | word_document_server/tools/extended_document_tools.py:382-390 | a zero exit that leaves no file is a failure with the "returned success code" diagnostic |
| Fallback.TryCandidates | word_document_server/tools/extended_document_tools.py:377-396 | the loop's winner, diagnostics and final filesystem are those of `TryFrom` |
| Fallback.RunCandidate | word_document_server/tools/extended_document_tools.py:379-396 | one attempt on the filesystem is the `Attempt` step |
| Conversions.Ext | word_document_server/tools/extended_document_tools.py:82-84 | each format's extension is a lower-case `splitext` extension |
| Conversions.LowerEndsWith | word_document_server/tools/extended_document_tools.py:83-84 | appending a lower-case extension makes the lower-cased name end with it |
| Conversions.OutputName | word_document_server/tools/extended_document_tools.py:80-84 | the lower-cased name ends with the format's extension; a given name is kept or extended, never altered; without one, the source's root + extension |
| Conversions.OutputNameAppends | word_document_server/tools/extended_document_tools.py:192-196 | a given name is extended exactly when it does not end with the extension in any case, and kept exactly when it does |
| Conversions.OutputNameIdempotent | word_document_server/tools/extended_document_tools.py:352-356 | feeding a computed name back in gives it back: the extension is never doubled |
| Conversions.UpperCaseExtensionKept | word_document_server/tools/extended_document_tools.py:83 | any `<stem>.PDF` is kept as it is |
| Conversions.LowerPdf | word_document_server/tools/extended_document_tools.py:83 | `.PDF` lower-cases to `.pdf` |
| Conversions.Locate | word_document_server/tools/extended_document_tools.py:86-93 | the output path and its directory are absolute, the path starts with the directory, and an absolute name is kept |
| Conversions.Gate | word_document_server/tools/extended_document_tools.py:76-101 | a missing source is refused with the exact message and nothing changed; the tool goes on exactly when the source exists and the output is writeable once its directory is made, in that filesystem; a refusal writes no file |
| Conversions.GateAdmitsNewDirectory | word_document_server/tools/extended_document_tools.py:96-101 | a new output in a directory that does not exist yet, under an existing writeable directory, passes the checks: `os.makedirs` creates the directory, which the process may write to |
| Conversions.GateRefusesDirectory | word_document_server/tools/extended_document_tools.py:96-101 | an output path naming a directory is refused, whatever its permissions |
| Conversions.GateRefusals | word_document_server/tools/extended_document_tools.py:99-101 | an output that is not writeable is refused with the non-empty check message, the path and (for PDF) the directory |
| Conversions.PrepareOutput | word_document_server/tools/extended_document_tools.py:349-363 | the checks performed on the filesystem give `Gate`'s verdict and leave its filesystem |
| Conversions.LibraryTarget | word_document_server/tools/extended_document_tools.py:192-201 | the output path and directory are never empty |
| Conversions.LibraryConvert | word_document_server/tools/extended_document_tools.py:187-347 | no library conversion changes the working directory or removes anything |
| Conversions.LibraryStage | word_document_server/tools/extended_document_tools.py:207-216 | past the checks, files change only when the library produced text, and the output then exists |
| Conversions.LibraryConvertOutcome | word_document_server/tools/extended_document_tools.py:237-249 | a conversion that goes through writes the produced text's size to the output and reports that path; any other outcome writes no file |
| Conversions.LibraryMissingSource | word_document_server/tools/extended_document_tools.py:293-295 | a missing source gives exactly "Document <path> does not exist" and changes nothing |
| Conversions.FailurePrefix | word_document_server/tools/extended_document_tools.py:238-251 | every library tool's failure report opens with "Failed to convert " and ends with " to " and the format it makes |
| Conversions.MissingLibrary | word_document_server/tools/extended_document_tools.py:238-239 | the missing-library text names the missing module |
| Conversions.LibraryFailureMessages | word_document_server/tools/extended_document_tools.py:238-251 | a missing library or a raised error is reported with the tool's own "Failed to convert ..." prefix |
| Conversions.TxtPassesFailureThrough | word_document_server/tools/extended_document_tools.py:210-211 | text extraction returning "Failed..." is returned as it is and nothing is written |
| Conversions.ConvertWithLibrary | word_document_server/tools/extended_document_tools.py:321-347 | performed on the filesystem, a library tool gives `LibraryConvert`'s reply and filesystem |
| Conversions.RunLibraryStage | word_document_server/tools/extended_document_tools.py:336-347 | performed on the filesystem, the library step gives `LibraryStage`'s reply and filesystem |
| Conversions.GetParagraphText | word_document_server/tools/extended_document_tools.py:18-38 | a missing document gives exactly "Document <path> does not exist" |
| Conversions.NegativeIndexRefused | word_document_server/tools/extended_document_tools.py:31-32 | a negative index is refused with the exact message, whatever the lookup would return |
| Conversions.FindText | word_document_server/tools/extended_document_tools.py:41-63 | a missing document gives exactly "Document <path> does not exist" |
| Conversions.EmptySearchRefused | word_document_server/tools/extended_document_tools.py:55-56 | an empty search text is refused with the exact message, whatever the search would return |
| Conversions.QueriesReportLookup | word_document_server/tools/extended_document_tools.py:34-38 | with valid arguments, the lookup's result is returned, and its failure is reported with the tool's prefix |
| PdfConversions.StartsWithPrefix | word_document_server/tools/extended_document_tools.py:148 | a message built on a prefix starts with it |
| PdfConversions.NotSuccess | word_document_server/tools/extended_document_tools.py:173 | a message starting with `F` never reads as a success |
| PdfConversions.Via | word_document_server/tools/extended_document_tools.py:148 | the "via <tool>" message reports success |
| PdfConversions.WindowsFailure | word_document_server/tools/extended_document_tools.py:114 | the Windows failure message does not report success |
| PdfConversions.FailureAround | word_document_server/tools/extended_document_tools.py:173-179 | a failure report embedding the diagnostics contains every text they contain and does not report success |
| PdfConversions.PdfSummary | word_document_server/tools/extended_document_tools.py:173-179 | the final report of `convert_to_pdf` does not report success and contains whatever the joined diagnostics contain |
| PdfConversions.HtmlPdfSummary | word_document_server/tools/extended_document_tools.py:397-398 | the same for `convert_html_to_pdf` |
| PdfConversions.Docx2PdfFallback | word_document_server/tools/extended_document_tools.py:160-171 | the fallback succeeds exactly when docx2pdf returned and a non-empty output file exists |
| PdfConversions.DocxJob | word_document_server/tools/extended_document_tools.py:128-138 | the office suite writes into the output's directory (or `.` when it has none), which is made again before each attempt: the expected file lies in that directory and ends in `/<source stem>.pdf`; the target is the output path |
| PdfConversions.DocxPdfStage | word_document_server/tools/extended_document_tools.py:104-181 | the platform branch keeps the working directory; on Windows it reports success exactly when docx2pdf returns; on any platform other than Windows, Linux and macOS it reports no success and changes nothing |
| PdfConversions.DocxPdfTarget | word_document_server/tools/extended_document_tools.py:79-93 | the output path and directory are never empty |
| PdfConversions.DocxToPdf | word_document_server/tools/extended_document_tools.py:74-77 | a missing (normalised) source gives exactly "Document <path> does not exist" and changes nothing |
| PdfConversions.DocxToPdfAdmitted | word_document_server/tools/extended_document_tools.py:96-104 | past the checks, the conversion runs in the filesystem with the output directory made |
| PdfConversions.PdfSummaryNamesCandidates | word_document_server/tools/extended_document_tools.py:173-175 | when every executable failed, the report names each of them, whatever docx2pdf added |
| PdfConversions.DocxToPdfRefused | word_document_server/tools/extended_document_tools.py:99-101 | a refusal at the checks is returned before any converter runs and writes no file |
| PdfConversions.DocxPdfReportsTruthfully | word_document_server/tools/extended_document_tools.py:116-179 | on Linux and macOS success is reported only with a file at the output path; a failure report names every executable tried |
| PdfConversions.DocxPdfNamesWinner | word_document_server/tools/extended_document_tools.py:146-148 | the success report names the winning executable, which exited with 0; docx2pdf is then not tried |
| PdfConversions.WindowsTrustsDocx2Pdf | word_document_server/tools/extended_document_tools.py:107-112 | on Windows a docx2pdf call that writes nothing still reports success |
| PdfConversions.WindowsFailureReported | word_document_server/tools/extended_document_tools.py:113-114 | on Windows a missing or raising docx2pdf is reported with the Word note and changes nothing |
| PdfConversions.UnsupportedPlatform | word_document_server/tools/extended_document_tools.py:180-181 | another platform is refused with the exact message after the output directory was made; no file is written |
| PdfConversions.HtmlJob | word_document_server/tools/extended_document_tools.py:359-384 | the office suite writes into the output directory, which is not made again: the expected file lies in that directory and ends in `/<input stem>.pdf`; the target is the output path |
| PdfConversions.HtmlPdfTarget | word_document_server/tools/extended_document_tools.py:352-359 | the output path and directory are never empty |
| PdfConversions.HtmlPdfStage | word_document_server/tools/extended_document_tools.py:364-398 | the conversion keeps the working directory |
| PdfConversions.HtmlToPdf | word_document_server/tools/extended_document_tools.py:349-351 | a missing input gives exactly "Document <path> does not exist" and changes nothing |
| PdfConversions.HtmlPdfReportsTruthfully | word_document_server/tools/extended_document_tools.py:377-398 | success is reported only with a file at the output path; a failure report names every executable tried |
| PdfConversions.HtmlToPdfRefused | word_document_server/tools/extended_document_tools.py:361-363 | a refusal at the checks is returned before any converter runs and writes no file |
| PdfConversions.HtmlToPdfAdmitted | word_document_server/tools/extended_document_tools.py:359-365 | past the checks, the conversion runs in the filesystem with the output directory made |
| PdfConversions.RefusalNotSuccess | word_document_server/tools/extended_document_tools.py:361-363 | a "Cannot create ..." refusal never reads as a success |
| PdfConversions.HtmlToPdfSuccessLeavesOutput | word_document_server/tools/extended_document_tools.py:349-398 | on an existing input, `convert_html_to_pdf` reports success only with a file at the output path |
| PdfConversions.TmpHtml | word_document_server/tools/extended_document_tools.py:411-412 | the temporary file `__tmp_md_to_html__.html` lies in the output's directory, or in the working directory when the output name has none |
| PdfConversions.CleanUp | word_document_server/tools/extended_document_tools.py:419-423 | when the directory holding the temporary path is writeable, no file remains there afterwards; otherwise the swallowed error leaves the filesystem unchanged |
| PdfConversions.MarkdownToPdf | word_document_server/tools/extended_document_tools.py:402-404 | a missing input gives exactly "Document <path> does not exist" and changes nothing |
| PdfConversions.MarkdownToPdfSteps | word_document_server/tools/extended_document_tools.py:412-424 | no temporary file is left unless its directory is not writeable; the PDF step's reply is returned unchanged; without the temporary file the PDF step never runs and the HTML step's reply is passed on |
| PdfConversions.PdfIsNotTmp | word_document_server/tools/extended_document_tools.py:412-423 | a name ending with `.pdf` in any case never resolves to the temporary HTML file, so the clean-up cannot remove the PDF |
| PdfConversions.CleanUpKeeps | word_document_server/tools/extended_document_tools.py:419-423 | removing the temporary file leaves every other existing path in place |
| PdfConversions.PdfStepLeavesPdf | word_document_server/tools/extended_document_tools.py:415-423 | when the PDF step reports success, the PDF is still there after the clean-up |
| PdfConversions.MarkdownToPdfReportsTruthfully | word_document_server/tools/extended_document_tools.py:402-424 | on an existing input, `convert_markdown_to_pdf` reports success only with the PDF at the output path |
| PdfConversions.StaleTmpHidesFailure | word_document_server/tools/extended_document_tools.py:413-418 | with a stale temporary file, a failed HTML step writes nothing and the reply is the PDF step's, built from the old file |
| PdfConversions.RunDocxPdfStage | word_document_server/tools/extended_document_tools.py:104-181 | performed on the filesystem, the platform branch gives `DocxPdfStage`'s reply and filesystem |
| PdfConversions.RunDocx2PdfFallback | word_document_server/tools/extended_document_tools.py:160-171 | performed on the filesystem, the fallback gives `Docx2PdfFallback`'s outcome |
| PdfConversions.ConvertDocxToPdf | word_document_server/tools/extended_document_tools.py:66-184 | `convert_to_pdf` on the filesystem gives `DocxToPdf`'s reply and filesystem |
| PdfConversions.RunHtmlPdfStage | word_document_server/tools/extended_document_tools.py:364-398 | performed on the filesystem, the candidate loop gives `HtmlPdfStage`'s reply and filesystem |
| PdfConversions.ConvertHtmlToPdf | word_document_server/tools/extended_document_tools.py:349-400 | `convert_html_to_pdf` on the filesystem gives `HtmlToPdf`'s reply and filesystem |
| PdfConversions.ConvertMarkdownToPdf | word_document_server/tools/extended_document_tools.py:402-424 | `convert_markdown_to_pdf` on the filesystem gives `MarkdownToPdf`'s reply and filesystem |

## Left out

- The converters themselves are parameters, not models: office-suite runs
  (`subprocess.run`), `docx2pdf.convert`, mammoth, markdownify, markdown and
  the text extractor. The text extractor's module is not part of this
  model. Only their outcomes are modelled: not found, raised, exit code with
  stderr and the file written, or the text produced.
- The paragraph lookup and the text search, and the JSON rendering of their
  results, are not part of this model. Their outcome is a `Result<string>`
  parameter; only the guards around them are modelled.
- The 60-second timeouts and `async`: a timeout is one of the exceptions a
  candidate run may raise (`Raised`), and the tools are sequential.
- `PyPath.Abspath`: modelled without `normpath`, for relative and absolute
  paths alike. `..`, `.`, repeated slashes and a trailing `/` are not
  cleaned up, so `/w//a`, `/w/./a` and `/w/a` (or `/w/a/` and `/w/a`) are
  different keys of `Fs.Disk`, where Python would name one entry. The
  working directory is assumed absolute, which every tool requires of its
  filesystem.
- `Fs.AfterMakeDirs`: a file already at the path, or a file in place of one
  of its parents, makes `os.makedirs` raise `FileExistsError` or
  `NotADirectoryError`, and a missing or non-writeable directory above it
  makes it raise `PermissionError`. The model instead treats the directory
  as present (an existing file) or records it. Since these calls
  (extended_document_tools.py:96, :201, ...) are outside every `try`,
  Python's exception leaves the tool, where `Conversions.Gate` goes on to
  the writeability check; `Conversions.GateAdmitsNewDirectory` therefore
  requires the directory above to exist and be writeable.
- `Fs.AfterMakeDirs`: only the leaf directory is recorded. The missing
  parents that `os.makedirs` creates on the way are not added to
  `Fs.Disk`'s directories.
- `Fs.AfterMakeDirs`, `Fs.AfterWrite` and `Fs.AfterMove`: a path the process
  creates is taken to be writeable by it, as under any umask that leaves the
  owner's write bit. The append-mode `open` failures recorded in `Fs.Disk`
  stay with their path; they do not follow a moved file.
- Filesystem calls that raise are not modelled. Where each exception would
  go:
  - the `os.makedirs` of the output directory
    (extended_document_tools.py:96, :201, :232, :267, :303, :331 and :360)
    is outside every `try`, so its exception leaves the tool;
  - the `os.makedirs` before each office-suite attempt (:129) and the
    `shutil.move` after it (:144, :387) are inside the per-candidate `try`.
    A failure there becomes that candidate's diagnostic: "Command '<cmd>'
    not found." for `FileNotFoundError`, "An error occurred with <cmd>: ..."
    otherwise;
  - a failing write of the output text (:212-213, :247-248, :287-288,
    :315-316, :343-344) reaches the tool's outer `except Exception`, which
    reports "Failed to convert ...";
  - `os.remove` of the temporary file (:421) is swallowed. A directory at
    that path, or any file in a directory the process cannot write, is kept,
    as the swallowed error would keep it.
- `shutil.move` onto an existing directory (which moves into it) is modelled
  as a rename, and so is a move across devices.
- `FileUtils.CreateDocumentCopy`: `copyError` stands for every exception
  `shutil.copy2` raises (a directory as the source, a missing destination
  directory, no permission). The model does not derive it from the
  filesystem. A successful copy writes only the source's size. `copy2`
  also copies the source's permission bits onto the copy; the model does
  not: a new copy is writeable and an existing destination keeps its mode.
- `Fallback.Attempt`: a `Raised` run, such as a timeout, writes nothing. A
  real office-suite run that times out may still have written a file.
- `PyStr.ParseInt`: Python's limit of 4300 digits on `int()` of a string is
  not modelled. A longer decimal port text parses in the model, where
  Python raises `ValueError`.
- `PdfConversions.HtmlToPdfSuccessLeavesOutput` and
  `PdfConversions.MarkdownToPdfReportsTruthfully` assume an existing input.
  Success is recognised by the message's prefix "Document successfully
  converted to PDF", and the message "Document <path> does not exist" for a
  missing input starts with that prefix when the path is chosen to.
- `Fs.Size` of a directory reads as 0; file contents are represented by
  their size only.
- `PyStr.Lower` lower-cases ASCII letters only, not the rest of Unicode.
- `PyStr.ParseInt` accepts ASCII digits only, not other Unicode decimal
  digits.
- `PyStr.ParseInt`: its own contract states what it refuses (blank text,
  a separator). What it accepts is stated by `ParseLiteral`, and the shape
  of every accepted text by `ParsedShape`.
- The `repr` quoting in `int()`'s error message, and of the file name in
  `IsADirectoryError`'s message, is rendered with plain quotes.
- The `isinstance(filepath, str)` branch of `ensure_docx_extension` and its
  `except Exception` fallback cannot arise for a string argument.
- In word_document_server/main.py, only `get_transport_config` is modelled.
  The following are server start-up and tool registration and are not part
  of this model:
  - `setup_logging`, `register_tools`, `run_server`;
  - the `print` calls;
  - loading `.env`.
- start_document_assistant.py and the test scripts are launchers and
  end-to-end drivers, outside this model.
- `PdfConversions.HtmlPdfStage`: its own contract only states that the
  working directory is kept. What it reports is stated by
  `HtmlPdfReportsTruthfully`, and what it does by the method
  `ConvertHtmlToPdf`.
- `Conversions.GetParagraphText` and `Conversions.FindText`: their own
  contracts only state the missing-document case. The other branches are
  stated by `NegativeIndexRefused`, `EmptySearchRefused` and
  `QueriesReportLookup`.
