/**
 * The parts of word_document_server/tools/extended_document_tools.py that
 * every conversion shares (naming the output, the checks made before
 * anything is converted), the five conversions done by a Python library,
 * and the argument guards of the two document queries.
 *
 * Each tool is a specification function from the filesystem before the
 * call to a `Reply` (the message the tool returns and the filesystem
 * after it), and a method that performs the same steps on a `FileSystem`.
 * What the conversion libraries do is a parameter (`LibRun`).
 */
module Conversions {
  import opened Wrappers
  import opened PyStr
  import opened PyPath
  import opened Fs
  import opened FileUtils

  datatype Format = Pdf | Txt | Html | Markdown

  /** The extension an output of the format must end with (in any case). */
  function Ext(f: Format): (e: string)
    ensures IsExtension(e) && Lower(e) == e
  {
    var e := match f
      case Pdf => ".pdf"
      case Txt => ".txt"
      case Html => ".html"
      case Markdown => ".md";
    LowerOfLower(e);
    e
  }

  /** How the messages name the format. */
  function Label(f: Format): string {
    match f
    case Pdf => "PDF"
    case Txt => "TXT"
    case Html => "HTML"
    case Markdown => "Markdown"
  }

  /** An optional argument Python treats as given: present and not empty. */
  predicate Given(o: Option<string>) {
    o.Some? && o.value != ""
  }

  lemma LowerEndsWith(a: string, e: string)
    requires Lower(e) == e
    ensures EndsWith(Lower(a + e), e)
  {
    LowerAppend(a, e);
  }

  /**
   * The output name: the source's stem with the format's extension when no
   * name is given; a given name is kept when it already ends with the
   * extension in any case, and extended otherwise.
   */
  function OutputName(source: string, requested: Option<string>, f: Format): (r: string)
    ensures EndsWith(Lower(r), Ext(f))
    ensures Given(requested) ==> r == requested.value || r == requested.value + Ext(f)
    ensures !Given(requested) ==> r == SplitExt(source).0 + Ext(f)
  {
    if !Given(requested) then
      LowerEndsWith(SplitExt(source).0, Ext(f));
      SplitExt(source).0 + Ext(f)
    else if EndsWith(Lower(requested.value), Ext(f)) then
      requested.value
    else
      LowerEndsWith(requested.value, Ext(f));
      requested.value + Ext(f)
  }

  /** A given name is extended exactly when it does not already end with the extension. */
  lemma OutputNameAppends(source: string, requested: Option<string>, f: Format)
    requires Given(requested)
    ensures OutputName(source, requested, f) == requested.value + Ext(f)
      <==> !EndsWith(Lower(requested.value), Ext(f))
    ensures OutputName(source, requested, f) == requested.value
      <==> EndsWith(Lower(requested.value), Ext(f))
  {
    assert |requested.value + Ext(f)| != |requested.value|;
  }

  /** Passing a computed output name back in changes nothing: the extension is never doubled. */
  lemma OutputNameIdempotent(source: string, requested: Option<string>, f: Format)
    ensures OutputName(source, Some(OutputName(source, requested, f)), f) == OutputName(source, requested, f)
  {
  }

  /** An upper-case extension counts: `report.PDF` is kept as it is. */
  lemma UpperCaseExtensionKept(source: string, stem: string)
    ensures OutputName(source, Some(stem + ".PDF"), Pdf) == stem + ".PDF"
  {
    var n := stem + ".PDF";
    LowerAppend(stem, ".PDF");
    LowerPdf();
    var l := Lower(stem) + Ext(Pdf);
    assert Lower(n) == l;
    assert l[|l| - |Ext(Pdf)|..] == Ext(Pdf);
  }

  lemma LowerPdf()
    ensures Lower(".PDF") == ".pdf"
  {
    var l := Lower(".PDF");
    assert l[1] == LowerChar('P') && l[2] == LowerChar('D') && l[3] == LowerChar('F');
  }

  /** The absolute output path and the directory created for it. */
  datatype Destination = Destination(out: string, dir: string)

  /** `abspath` of the output name; its `dirname`, or the working directory when that is empty. */
  function Locate(d: Disk, name: string): (t: Destination)
    requires IsAbs(d.cwd)
    ensures IsAbs(t.out) && IsAbs(t.dir)
    ensures StartsWith(t.out, t.dir)
    ensures IsAbs(name) ==> t.out == name
  {
    var out := Abspath(d.cwd, name);
    var dir := if Dirname(out) != "" then Dirname(out) else Abspath(d.cwd, ".");
    Destination(out, dir)
  }

  /** What a tool returns, and the filesystem it leaves. */
  datatype Reply = Reply(msg: string, disk: Disk)

  /** The checks before a conversion: `Stop` with the reply to return, or `Go` with the filesystem to convert in. */
  datatype Verdict = Stop(reply: Reply) | Go(disk: Disk)

  /**
   * The source must exist; then the output directory is created and the
   * output path must be writeable. The PDF tools also name the directory
   * in the refusal.
   */
  function Gate(d: Disk, source: string, t: Destination, kind: string, showDir: bool): (g: Verdict)
    requires t.out != "" && t.dir != ""
    ensures !Exists(d, source) ==> g == Stop(Reply("Document " + source + " does not exist", d))
    ensures g.Go? <==> Exists(d, source) && Writeable(AfterMakeDirs(d, t.dir), t.out)
    ensures g.Go? ==> g.disk == AfterMakeDirs(d, t.dir)
    ensures g.Stop? ==> g.reply.disk.files == d.files && g.reply.disk.cwd == d.cwd
    ensures g.Stop? ==> forall p :: Exists(d, p) ==> Exists(g.reply.disk, p)
  {
    if !Exists(d, source) then
      Stop(Reply("Document " + source + " does not exist", d))
    else
      var d1 := AfterMakeDirs(d, t.dir);
      var (ok, err) := CheckFileWriteable(d1, t.out);
      if !ok then
        var shown := if showDir then t.out + ", Dir: " + t.dir else t.out;
        Stop(Reply("Cannot create " + kind + ": " + err + " (Path: " + shown + ")", d1))
      else
        Go(d1)
  }

  /** A refusal at the gate names the missing source, or carries the writeability error. */
  lemma GateRefusals(d: Disk, source: string, t: Destination, kind: string, showDir: bool)
    requires t.out != "" && t.dir != "" && Exists(d, source)
    requires !Writeable(AfterMakeDirs(d, t.dir), t.out)
    ensures var err := CheckFileWriteable(AfterMakeDirs(d, t.dir), t.out).1;
      && err != ""
      && Gate(d, source, t, kind, showDir).reply.msg
        == "Cannot create " + kind + ": " + err + " (Path: " + (if showDir then t.out + ", Dir: " + t.dir else t.out) + ")"
  {
  }

  /**
   * Converting into a directory that does not exist yet goes through: the
   * process creates the directory, so it may write there. (Where the
   * directory above is missing or not writeable, Python's `os.makedirs`
   * raises out of the tool instead.)
   */
  lemma GateAdmitsNewDirectory(d: Disk, source: string, t: Destination, kind: string, showDir: bool)
    requires t.out != "" && t.dir != "" && Exists(d, source)
    requires ParentDir(t.out) == t.dir && !Exists(d, t.dir)
    requires Exists(d, ParentDir(t.dir)) && CanWrite(d, ParentDir(t.dir))
    requires !Exists(d, t.out) && Resolve(d, t.out) != Resolve(d, t.dir)
    ensures Gate(d, source, t, kind, showDir) == Go(AfterMakeDirs(d, t.dir))
  {
    var d1 := AfterMakeDirs(d, t.dir);
    assert Resolve(d1, t.out) == Resolve(d, t.out);
    assert !Exists(d1, t.out);
    assert Exists(d1, t.dir) && CanWrite(d1, t.dir);
  }

  /** An output path that names a directory is refused: `open(path, 'a')` raises `IsADirectoryError`. */
  lemma GateRefusesDirectory(d: Disk, source: string, t: Destination, kind: string, showDir: bool)
    requires t.out != "" && t.dir != "" && Exists(d, source) && Resolve(d, t.out) in d.dirs
    ensures Gate(d, source, t, kind, showDir).Stop?
  {
    var d1 := AfterMakeDirs(d, t.dir);
    assert Resolve(d1, t.out) == Resolve(d, t.out) && Resolve(d1, t.out) in d1.dirs;
    assert !Writeable(d1, t.out);
  }

  /** The gate, performed on the filesystem: `Some(message)` when the tool must return. */
  method PrepareOutput(fs: FileSystem, source: string, t: Destination, kind: string, showDir: bool)
    returns (stop: Option<string>)
    requires t.out != "" && t.dir != ""
    modifies fs
    ensures Gate(old(fs.disk), source, t, kind, showDir)
      == if stop.Some? then Stop(Reply(stop.value, fs.disk)) else Go(fs.disk)
  {
    if !Exists(fs.disk, source) {
      return Some("Document " + source + " does not exist");
    }
    fs.MakeDirs(t.dir);
    var (ok, err) := CheckFileWriteable(fs.disk, t.out);
    if !ok {
      var shown := if showDir then t.out + ", Dir: " + t.dir else t.out;
      return Some("Cannot create " + kind + ": " + err + " (Path: " + shown + ")");
    }
    return None;
  }

  // ---------------------------------------------------------------------
  // The conversions done by a library

  /** What the library call does: it is not installed, it raises, or it produces the output text. */
  datatype LibRun = Missing(lib: string) | Raises(err: string) | Produces(content: string)

  /** `convert_to_txt`, `convert_to_html`, `convert_to_markdown`, `convert_html_to_markdown`, `convert_markdown_to_html`. */
  datatype LibTool = DocxToTxt | DocxToHtml | DocxToMarkdown | HtmlToMarkdown | MarkdownToHtml

  function OutFormat(tool: LibTool): Format {
    match tool
    case DocxToTxt => Txt
    case DocxToHtml => Html
    case DocxToMarkdown => Markdown
    case HtmlToMarkdown => Markdown
    case MarkdownToHtml => Html
  }

  /** The Word-document tools normalise the source name first; the other two take it as given. */
  predicate ReadsDocx(tool: LibTool) {
    tool.DocxToTxt? || tool.DocxToHtml? || tool.DocxToMarkdown?
  }

  /** What a library tool reads, as its failure report names it. */
  function InputLabel(tool: LibTool): string {
    match tool
    case HtmlToMarkdown => "HTML"
    case MarkdownToHtml => "Markdown"
    case _ => "document"
  }

  /** Every library tool's failure report opens with `Failed to convert` and names the format it makes. */
  function FailurePrefix(tool: LibTool): (r: string)
    ensures StartsWith(r, "Failed to convert ")
    ensures EndsWith(r, " to " + Label(OutFormat(tool)))
  {
    var (head, tail) := ("Failed to convert ", " to " + Label(OutFormat(tool)));
    Affixes(head, InputLabel(tool), tail);
    head + InputLabel(tool) + tail
  }

  /**
   * A missing library: the TXT tool has no message of its own and reports
   * the import error; the others say which package to install.
   */
  function MissingLibrary(tool: LibTool, lib: string): (r: string)
    ensures Contains(r, lib)
  {
    if tool == DocxToTxt then
      ContainsWithin("No module named '", lib, "'");
      "No module named '" + lib + "'"
    else
      var post := " is not installed. Please install '" + lib + "'.";
      ContainsWithin("", lib, post);
      assert "" + lib + post == lib + post;
      lib + post
  }

  /** The source path the tool reads. */
  function SourceOf(tool: LibTool, input: string): string {
    if ReadsDocx(tool) then EnsureDocxExtension(input) else input
  }

  function LibraryTarget(d: Disk, tool: LibTool, input: string, requested: Option<string>): (t: Destination)
    requires IsAbs(d.cwd)
    ensures t.out != "" && t.dir != ""
  {
    Locate(d, OutputName(SourceOf(tool, input), requested, OutFormat(tool)))
  }

  /** The text extraction of the TXT tool reports its own failures as text starting with `Failed`. */
  predicate PassedThrough(tool: LibTool, run: LibRun) {
    tool == DocxToTxt && run.Produces? && StartsWith(run.content, "Failed")
  }

  /** One of the five library conversions. */
  function LibraryConvert(d: Disk, tool: LibTool, input: string, requested: Option<string>, run: LibRun): (r: Reply)
    requires IsAbs(d.cwd)
    ensures r.disk.cwd == d.cwd
    ensures forall p :: Exists(d, p) ==> Exists(r.disk, p)
  {
    var source := SourceOf(tool, input);
    var t := LibraryTarget(d, tool, input, requested);
    match Gate(d, source, t, Label(OutFormat(tool)), false)
    case Stop(reply) => reply
    case Go(d1) => LibraryStage(d1, tool, t.out, run)
  }

  /** What a library conversion does once the checks have passed. */
  function LibraryStage(d: Disk, tool: LibTool, out: string, run: LibRun): (r: Reply)
    requires out != ""
    ensures r.disk.cwd == d.cwd
    ensures forall p :: Exists(d, p) ==> Exists(r.disk, p)
    ensures r.disk.files != d.files ==> run.Produces? && Exists(r.disk, out)
  {
    match run
    case Missing(lib) => Reply(FailurePrefix(tool) + ": " + MissingLibrary(tool, lib), d)
    case Raises(e) => Reply(FailurePrefix(tool) + ": " + e, d)
    case Produces(c) =>
      if PassedThrough(tool, run) then Reply(c, d)
      else Reply("Document successfully converted to " + Label(OutFormat(tool)) + ": " + out, AfterWrite(d, out, |c|))
  }

  /** When a library conversion goes through: the source exists, the output is writeable, the library produced text. */
  ghost predicate LibraryConverts(d: Disk, tool: LibTool, input: string, requested: Option<string>, run: LibRun)
    requires IsAbs(d.cwd)
  {
    var t := LibraryTarget(d, tool, input, requested);
    && Exists(d, SourceOf(tool, input))
    && Writeable(AfterMakeDirs(d, t.dir), t.out)
    && run.Produces? && !PassedThrough(tool, run)
  }

  /**
   * A conversion that goes through writes the produced text to the output
   * path and reports that path; any other outcome writes no file at all
   * (at most the output directory is created).
   */
  lemma LibraryConvertOutcome(d: Disk, tool: LibTool, input: string, requested: Option<string>, run: LibRun)
    requires IsAbs(d.cwd)
    ensures var t := LibraryTarget(d, tool, input, requested);
      var r := LibraryConvert(d, tool, input, requested, run);
      && (LibraryConverts(d, tool, input, requested, run) ==>
            && r.msg == "Document successfully converted to " + Label(OutFormat(tool)) + ": " + t.out
            && Exists(r.disk, t.out) && Size(r.disk, t.out) == |run.content|
            && r.disk == AfterWrite(AfterMakeDirs(d, t.dir), t.out, |run.content|))
      && (!LibraryConverts(d, tool, input, requested, run) ==> r.disk.files == d.files)
  {
  }

  /** A missing source is reported before anything else, and nothing changes. */
  lemma LibraryMissingSource(d: Disk, tool: LibTool, input: string, requested: Option<string>, run: LibRun)
    requires IsAbs(d.cwd) && !Exists(d, SourceOf(tool, input))
    ensures LibraryConvert(d, tool, input, requested, run)
      == Reply("Document " + SourceOf(tool, input) + " does not exist", d)
  {
  }

  /** Library failures are reported with the tool's own prefix. */
  lemma LibraryFailureMessages(d: Disk, tool: LibTool, input: string, requested: Option<string>, run: LibRun)
    requires IsAbs(d.cwd) && (run.Missing? || run.Raises?)
    requires Exists(d, SourceOf(tool, input))
    requires var t := LibraryTarget(d, tool, input, requested); Writeable(AfterMakeDirs(d, t.dir), t.out)
    ensures StartsWith(LibraryConvert(d, tool, input, requested, run).msg, FailurePrefix(tool) + ": ")
  {
  }

  /** Text extraction that failed is returned as it is, and nothing is written. */
  lemma TxtPassesFailureThrough(d: Disk, input: string, requested: Option<string>, run: LibRun)
    requires IsAbs(d.cwd) && PassedThrough(DocxToTxt, run)
    requires Exists(d, SourceOf(DocxToTxt, input))
    requires var t := LibraryTarget(d, DocxToTxt, input, requested); Writeable(AfterMakeDirs(d, t.dir), t.out)
    ensures var r := LibraryConvert(d, DocxToTxt, input, requested, run);
      r.msg == run.content && r.disk.files == d.files
  {
  }

  /** `LibraryConvert`, performed on the filesystem. */
  method ConvertWithLibrary(fs: FileSystem, tool: LibTool, input: string, requested: Option<string>, run: LibRun)
    returns (msg: string)
    requires IsAbs(fs.disk.cwd)
    modifies fs
    ensures Reply(msg, fs.disk) == LibraryConvert(old(fs.disk), tool, input, requested, run)
  {
    var source := SourceOf(tool, input);
    var t := LibraryTarget(fs.disk, tool, input, requested);
    var stop := PrepareOutput(fs, source, t, Label(OutFormat(tool)), false);
    if stop.Some? {
      return stop.value;
    }
    msg := RunLibraryStage(fs, tool, t.out, run);
  }

  /** `LibraryStage`, performed on the filesystem. */
  method RunLibraryStage(fs: FileSystem, tool: LibTool, out: string, run: LibRun) returns (msg: string)
    requires out != ""
    modifies fs
    ensures Reply(msg, fs.disk) == LibraryStage(old(fs.disk), tool, out, run)
  {
    match run {
      case Missing(lib) =>
        msg := FailurePrefix(tool) + ": " + MissingLibrary(tool, lib);
      case Raises(e) =>
        msg := FailurePrefix(tool) + ": " + e;
      case Produces(c) =>
        if PassedThrough(tool, run) {
          msg := c;
        } else {
          fs.Write(out, |c|);
          msg := "Document successfully converted to " + Label(OutFormat(tool)) + ": " + out;
        }
    }
  }

  // ---------------------------------------------------------------------
  // The guards of the two document queries

  /**
   * `get_paragraph_text_from_document`: `lookup` is what the paragraph
   * lookup returns (its JSON text) or raises.
   */
  function GetParagraphText(d: Disk, filename: string, index: int, lookup: Result<string>): (r: string)
    ensures !Exists(d, EnsureDocxExtension(filename)) ==> r == "Document " + EnsureDocxExtension(filename) + " does not exist"
  {
    var source := EnsureDocxExtension(filename);
    if !Exists(d, source) then "Document " + source + " does not exist"
    else if index < 0 then "Invalid parameter: paragraph_index must be a non-negative integer"
    else match lookup
      case Ok(json) => json
      case Err(e) => "Failed to get paragraph text: " + e
  }

  /** A negative index is refused without reading the document. */
  lemma NegativeIndexRefused(d: Disk, filename: string, index: int, l1: Result<string>, l2: Result<string>)
    requires Exists(d, EnsureDocxExtension(filename)) && index < 0
    ensures GetParagraphText(d, filename, index, l1) == "Invalid parameter: paragraph_index must be a non-negative integer"
    ensures GetParagraphText(d, filename, index, l1) == GetParagraphText(d, filename, index, l2)
  {
  }

  /** `find_text_in_document`: `lookup` is what the search returns (its JSON text) or raises. */
  function FindText(d: Disk, filename: string, text: string, lookup: Result<string>): (r: string)
    ensures !Exists(d, EnsureDocxExtension(filename)) ==> r == "Document " + EnsureDocxExtension(filename) + " does not exist"
  {
    var source := EnsureDocxExtension(filename);
    if !Exists(d, source) then "Document " + source + " does not exist"
    else if text == "" then "Search text cannot be empty"
    else match lookup
      case Ok(json) => json
      case Err(e) => "Failed to search for text: " + e
  }

  /** An empty search text is refused without reading the document. */
  lemma EmptySearchRefused(d: Disk, filename: string, l1: Result<string>, l2: Result<string>)
    requires Exists(d, EnsureDocxExtension(filename))
    ensures FindText(d, filename, "", l1) == "Search text cannot be empty"
    ensures FindText(d, filename, "", l1) == FindText(d, filename, "", l2)
  {
  }

  /** With valid arguments on an existing document, the lookup's outcome decides the reply. */
  lemma QueriesReportLookup(d: Disk, filename: string, index: nat, text: string, e: string)
    requires Exists(d, EnsureDocxExtension(filename)) && text != ""
    ensures GetParagraphText(d, filename, index, Err(e)) == "Failed to get paragraph text: " + e
    ensures FindText(d, filename, text, Err(e)) == "Failed to search for text: " + e
    ensures forall json :: GetParagraphText(d, filename, index, Ok(json)) == json
    ensures forall json :: FindText(d, filename, text, Ok(json)) == json
  {
  }
}
