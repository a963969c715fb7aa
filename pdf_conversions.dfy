/**
 * The three PDF tools of word_document_server/tools/extended_document_tools.py:
 * `convert_to_pdf` (Word on Windows; the office suite, then docx2pdf, on
 * Linux and macOS), `convert_html_to_pdf` (the office suite only) and
 * `convert_markdown_to_pdf` (Markdown to a temporary HTML file, then to PDF).
 * The platform, the executables' behaviour and docx2pdf's are parameters.
 */
module PdfConversions {
  import opened Wrappers
  import opened PyStr
  import opened PyPath
  import opened Fs
  import opened FileUtils
  import opened Fallback
  import opened Conversions

  /** What `docx2pdf.convert` does: not importable, raises, or returns (having written the output or not). */
  datatype Docx2Pdf = NotInstalled | Fails(err: string) | Converts(writes: Option<nat>)

  const Success := "Document successfully converted to PDF"

  /** Every success message of the PDF tools starts with `Success`; no failure message does. */
  predicate ReportsSuccess(msg: string) {
    StartsWith(msg, Success)
  }

  lemma StartsWithPrefix(a: string, b: string)
    ensures StartsWith(a + b, a)
  {
    assert (a + b)[..|a|] == a;
  }

  /** A message whose first letter is not the `D` of `Document` does not report success. */
  lemma NotSuccess(head: string, rest: string)
    requires |head| > 0 && head[0] != 'D'
    ensures !ReportsSuccess(head + rest)
  {
    assert Success[0] == 'D';
    var m := head + rest;
    assert m[0] == head[0];
    assert |Success| <= |m| ==> m[..|Success|][0] == m[0];
  }

  function Via(tool: string, out: string): (msg: string)
    ensures ReportsSuccess(msg)
  {
    StartsWithPrefix(Success, " via " + tool + ": " + out);
    Success + (" via " + tool + ": " + out)
  }

  function WindowsFailure(e: string): (msg: string)
    ensures !ReportsSuccess(msg)
  {
    NotSuccess("Failed to convert document to PDF: ", e + "\nNote: docx2pdf requires Microsoft Word to be installed.");
    "Failed to convert document to PDF: " + (e + "\nNote: docx2pdf requires Microsoft Word to be installed.")
  }

  /** The word every failure report of these tools starts with. */
  const Failed := "Failed"

  const SummaryHead := Failed + " to convert document to PDF using all available methods.\nRecorded errors: "
  const SummaryTail := "\nTo convert documents to PDF, please install either:\n"
    + "1. LibreOffice (recommended for Linux/macOS)\n"
    + "2. Microsoft Word (required for docx2pdf on Windows/macOS)"

  /** A report that opens with `F` and embeds `body` keeps everything `body` says, and is no success. */
  lemma FailureAround(head: string, body: string, tail: string)
    requires |head| > 0 && head[0] == 'F'
    ensures !ReportsSuccess(head + body + tail)
    ensures forall t :: Contains(body, t) ==> Contains(head + body + tail, t)
  {
    assert head + body + tail == head + (body + tail);
    NotSuccess(head, body + tail);
    forall t | Contains(body, t) ensures Contains(head + body + tail, t) {
      ContainsExtend(head, body, tail, t);
    }
  }

  /** The report when neither the office suite nor docx2pdf produced the PDF. */
  function PdfSummary(errors: seq<string>): (msg: string)
    ensures !ReportsSuccess(msg)
    ensures forall t :: Contains(Join(errors, "; "), t) ==> Contains(msg, t)
  {
    assert SummaryHead[0] == 'F';
    FailureAround(SummaryHead, Join(errors, "; "), SummaryTail);
    SummaryHead + Join(errors, "; ") + SummaryTail
  }

  const HtmlSummaryHead := Failed + " to convert HTML to PDF using LibreOffice. "

  /** The report of `convert_html_to_pdf` when no executable produced the PDF. */
  function HtmlPdfSummary(errors: seq<string>): (msg: string)
    ensures !ReportsSuccess(msg)
    ensures forall t :: Contains(Join(errors, "; "), t) ==> Contains(msg, t)
  {
    assert HtmlSummaryHead[0] == 'F';
    FailureAround(HtmlSummaryHead, Join(errors, "; "), "");
    assert HtmlSummaryHead + Join(errors, "; ") + "" == HtmlSummaryHead + Join(errors, "; ");
    HtmlSummaryHead + Join(errors, "; ")
  }

  /** A file write that may not have happened. */
  function WriteMaybe(d: Disk, p: string, size: Option<nat>): Disk
    requires p != ""
  {
    if size.Some? then AfterWrite(d, p, size.value) else d
  }

  /** The diagnostics the docx2pdf fallback can leave. */
  const Docx2PdfSkipped := "docx2pdf is not installed, skipping fallback."
  const Docx2PdfRaised := "docx2pdf fallback failed with an exception: "
  const Docx2PdfNoFile := "docx2pdf fallback was executed but failed to create a valid output file."

  /**
   * The docx2pdf fallback of `convert_to_pdf`: no diagnostic exactly when it
   * left a non-empty file at the output path.
   */
  function Docx2PdfFallback(d: Disk, out: string, conv: Docx2Pdf): (r: (Option<string>, Disk))
    requires out != ""
    ensures r.0.None? <==> conv.Converts? && Exists(r.1, out) && Size(r.1, out) > 0
    ensures r.1.cwd == d.cwd
  {
    match conv
    case NotInstalled => (Some(Docx2PdfSkipped), d)
    case Fails(e) => (Some(Docx2PdfRaised + e), d)
    case Converts(w) =>
      var d1 := WriteMaybe(d, out, w);
      if Exists(d1, out) && Size(d1, out) > 0 then (None, d1)
      else (Some(Docx2PdfNoFile), d1)
  }

  /** Where the office suite writes its PDF: `<stem>.pdf`, the source's base name, in `dir`. */
  function PdfIn(dir: string, source: string): (p: string)
    requires dir != ""
    ensures p != ""
    ensures StartsWith(p, dir) && EndsWith(p, "/" + SplitExt(Basename(source)).0 + ".pdf")
  {
    var stem := SplitExt(Basename(source)).0;
    StemNotAbs(stem, SplitExt(Basename(source)).1, Basename(source));
    assert "/" + (stem + ".pdf") == "/" + stem + ".pdf";
    PathJoin(dir, stem + ".pdf")
  }

  /** The PDF's name, `<stem>.pdf`, does not start with `/`: the stem is part of a base name. */
  lemma StemNotAbs(stem: string, ext: string, base: string)
    requires stem + ext == base && forall k :: 0 <= k < |base| ==> base[k] != '/'
    ensures !IsAbs(stem + ".pdf")
  {
    var f := stem + ".pdf";
    if stem != [] {
      assert f[0] == base[0];
    } else {
      assert f[0] == '.';
    }
  }

  /** Where the office suite writes `<source stem>.pdf`, and the output it must become. */
  function DocxJob(source: string, out: string): (job: Job)
    requires out != ""
    ensures ValidJob(job) && job.target == out && job.remakeDir
    ensures job.outDir == if Dirname(out) != "" then Dirname(out) else "."
    ensures job.created == PdfIn(job.outDir, source)
  {
    var dir := if Dirname(out) != "" then Dirname(out) else ".";
    Job(PdfIn(dir, source), out, dir, true)
  }


  /** The import error docx2pdf leaves when it is not installed. */
  const NoDocx2Pdf := "No module named 'docx2pdf'"
  /** The head of the refusal on a platform other than Windows, Linux and macOS. */
  const Unsupported := "PDF" + " conversion not supported on "

  /** What `convert_to_pdf` does once the source and the output path have passed the gate. */
  function DocxPdfStage(d: Disk, system: string, source: string, out: string,
                        probe: string -> Run, conv: Docx2Pdf): (r: Reply)
    requires out != ""
    ensures r.disk.cwd == d.cwd
    ensures system == "Windows" ==> (ReportsSuccess(r.msg) <==> conv.Converts?)
    ensures system != "Windows" && system != "Linux" && system != "Darwin" ==> !ReportsSuccess(r.msg) && r.disk == d
  {
    if system == "Windows" then
      match conv
      case NotInstalled => Reply(WindowsFailure(NoDocx2Pdf), d)
      case Fails(e) => Reply(WindowsFailure(e), d)
      case Converts(w) =>
        assert (Success + ": " + out)[..|Success|] == Success;
        Reply(Success + ": " + out, WriteMaybe(d, out, w))
    else if system == "Linux" || system == "Darwin" then
      var cands := DocxPdfCandidates(system);
      var c := TryFrom(d, cands, probe, DocxJob(source, out));
      if c.winner.Some? then
        Reply(Via(cands[c.winner.value], out), c.disk)
      else
        var (err, d2) := Docx2PdfFallback(c.disk, out, conv);
        if err.None? then Reply(Via("docx2pdf", out), d2)
        else Reply(PdfSummary(c.errors + [err.value]), d2)
    else
      assert Unsupported[0] == 'P';
      NotSuccess(Unsupported, system + " platform");
      assert Unsupported + system + " platform"
        == Unsupported + (system + " platform");
      Reply(Unsupported + system + " platform", d)
  }

  /** The output path and directory of `convert_to_pdf`. */
  function DocxPdfTarget(d: Disk, filename: string, requested: Option<string>): (t: Destination)
    requires IsAbs(d.cwd)
    ensures t.out != "" && t.dir != ""
  {
    Locate(d, OutputName(EnsureDocxExtension(filename), requested, Pdf))
  }

  /** `convert_to_pdf(filename, output_filename)` on the platform `system`. */
  function DocxToPdf(d: Disk, system: string, filename: string, requested: Option<string>,
                     probe: string -> Run, conv: Docx2Pdf): (r: Reply)
    requires IsAbs(d.cwd)
    ensures !Exists(d, EnsureDocxExtension(filename)) ==>
      r == Reply("Document " + EnsureDocxExtension(filename) + " does not exist", d)
  {
    var source := EnsureDocxExtension(filename);
    var t := DocxPdfTarget(d, filename, requested);
    match Gate(d, source, t, Label(Pdf), true)
    case Stop(reply) => reply
    case Go(d1) => DocxPdfStage(d1, system, source, t.out, probe, conv)
  }

  /** The source exists and the output can be written once its directory is made. */
  ghost predicate Admitted(d: Disk, source: string, t: Destination)
    requires t.out != "" && t.dir != ""
  {
    Exists(d, source) && Writeable(AfterMakeDirs(d, t.dir), t.out)
  }

  /** Past the gate, `convert_to_pdf` converts in the filesystem with the output directory made. */
  lemma DocxToPdfAdmitted(d: Disk, system: string, filename: string, requested: Option<string>,
                          probe: string -> Run, conv: Docx2Pdf)
    requires IsAbs(d.cwd)
    requires Admitted(d, EnsureDocxExtension(filename), DocxPdfTarget(d, filename, requested))
    ensures var t := DocxPdfTarget(d, filename, requested);
      DocxToPdf(d, system, filename, requested, probe, conv)
        == DocxPdfStage(AfterMakeDirs(d, t.dir), system, EnsureDocxExtension(filename), t.out, probe, conv)
  {
  }

  /** The summary after every executable failed names each of them, whatever docx2pdf added. */
  lemma PdfSummaryNamesCandidates(d: Disk, cands: seq<string>, probe: string -> Run, job: Job, extra: string)
    requires ValidJob(job) && TryFrom(d, cands, probe, job).winner.None?
    ensures forall j :: 0 <= j < |cands| ==> Contains(PdfSummary(TryFrom(d, cands, probe, job).errors + [extra]), cands[j])
  {
    var errs := TryFrom(d, cands, probe, job).errors + [extra];
    DiagnosticsInOrder(d, cands, probe, job);
    forall j | 0 <= j < |cands| ensures Contains(PdfSummary(errs), cands[j]) {
      assert errs[j] == Diagnostic(cands[j], probe(cands[j]), job.created);
      DiagnosticNamesCandidate(cands[j], probe(cands[j]), job.created);
      JoinContains(errs, "; ", j, cands[j]);
    }
  }

  /** A source or output that fails the gate is refused before any converter runs, and no file is written. */
  lemma DocxToPdfRefused(d: Disk, system: string, filename: string, requested: Option<string>,
                         probe: string -> Run, conv: Docx2Pdf)
    requires IsAbs(d.cwd)
    requires !Admitted(d, EnsureDocxExtension(filename), DocxPdfTarget(d, filename, requested))
    ensures var r := DocxToPdf(d, system, filename, requested, probe, conv);
      && r == Gate(d, EnsureDocxExtension(filename), DocxPdfTarget(d, filename, requested), Label(Pdf), true).reply
      && r.disk.files == d.files
  {
  }

  /**
   * On Linux and macOS, `convert_to_pdf` reports success only with a PDF at
   * the output path (a non-empty one when docx2pdf made it); a failure report
   * names every office-suite executable it tried.
   */
  lemma DocxPdfReportsTruthfully(d: Disk, system: string, source: string, out: string,
                                 probe: string -> Run, conv: Docx2Pdf)
    requires out != "" && (system == "Linux" || system == "Darwin")
    ensures var r := DocxPdfStage(d, system, source, out, probe, conv);
      && (ReportsSuccess(r.msg) ==> Exists(r.disk, out))
      && (!ReportsSuccess(r.msg) ==>
            forall j :: 0 <= j < |DocxPdfCandidates(system)| ==> Contains(r.msg, DocxPdfCandidates(system)[j]))
  {
    var cands := DocxPdfCandidates(system);
    var job := DocxJob(source, out);
    var c := TryFrom(d, cands, probe, job);
    if c.winner.None? {
      var (err, d2) := Docx2PdfFallback(c.disk, out, conv);
      if err.Some? {
        PdfSummaryNamesCandidates(d, cands, probe, job, err.value);
        assert DocxPdfStage(d, system, source, out, probe, conv) == Reply(PdfSummary(c.errors + [err.value]), d2);
      } else {
        assert DocxPdfStage(d, system, source, out, probe, conv) == Reply(Via("docx2pdf", out), d2);
      }
    } else {
      WinnerIsVerified(d, cands, probe, job);
      assert DocxPdfStage(d, system, source, out, probe, conv) == Reply(Via(cands[c.winner.value], out), c.disk);
    }
  }

  /** A winning executable exited with 0, and the report names it; docx2pdf is then not tried. */
  lemma DocxPdfNamesWinner(d: Disk, system: string, source: string, out: string,
                           probe: string -> Run, conv: Docx2Pdf)
    requires out != "" && (system == "Linux" || system == "Darwin")
    requires TryFrom(d, DocxPdfCandidates(system), probe, DocxJob(source, out)).winner.Some?
    ensures var cands := DocxPdfCandidates(system);
      var c := TryFrom(d, cands, probe, DocxJob(source, out));
      var k := c.winner.value;
      && DocxPdfStage(d, system, source, out, probe, conv) == Reply(Via(cands[k], out), c.disk)
      && probe(cands[k]).Exited? && probe(cands[k]).code == 0
  {
    WinnerIsVerified(d, DocxPdfCandidates(system), probe, DocxJob(source, out));
  }

  /**
   * On Windows, docx2pdf returning is taken as success without looking for
   * the file: a call that writes nothing still reports success.
   */
  lemma WindowsTrustsDocx2Pdf(d: Disk, source: string, out: string, probe: string -> Run)
    requires out != "" && !Exists(d, out)
    ensures var r := DocxPdfStage(d, "Windows", source, out, probe, Converts(None));
      ReportsSuccess(r.msg) && !Exists(r.disk, out)
  {
    StartsWithPrefix(Success, ": " + out);
  }

  /** On Windows, a failure names the exception and the need for Microsoft Word, and writes nothing. */
  lemma WindowsFailureReported(d: Disk, source: string, out: string, probe: string -> Run, conv: Docx2Pdf)
    requires out != "" && !conv.Converts?
    ensures var r := DocxPdfStage(d, "Windows", source, out, probe, conv);
      && r.msg == WindowsFailure(if conv.Fails? then conv.err else NoDocx2Pdf)
      && !ReportsSuccess(r.msg)
      && r.disk == d
  {
  }

  /**
   * Another platform is refused only after the output directory has been
   * created and the output checked: nothing is written, the directory stays.
   */
  lemma UnsupportedPlatform(d: Disk, system: string, filename: string, requested: Option<string>,
                            probe: string -> Run, conv: Docx2Pdf)
    requires IsAbs(d.cwd) && system != "Windows" && system != "Linux" && system != "Darwin"
    requires Admitted(d, EnsureDocxExtension(filename), DocxPdfTarget(d, filename, requested))
    ensures var r := DocxToPdf(d, system, filename, requested, probe, conv);
      && r.msg == Unsupported + system + " platform"
      && r.disk.files == d.files
      && Exists(r.disk, DocxPdfTarget(d, filename, requested).dir)
  {
    DocxToPdfAdmitted(d, system, filename, requested, probe, conv);
  }

  /** Where the office suite writes the PDF of an HTML file, and the output it must become. */
  function HtmlJob(input: string, t: Destination): (job: Job)
    requires t.out != "" && t.dir != ""
    ensures ValidJob(job) && job.target == t.out && !job.remakeDir
    ensures job.outDir == t.dir && job.created == PdfIn(t.dir, input)
  {
    Job(PdfIn(t.dir, input), t.out, t.dir, false)
  }


  function HtmlPdfTarget(d: Disk, input: string, requested: Option<string>): (t: Destination)
    requires IsAbs(d.cwd)
    ensures t.out != "" && t.dir != ""
  {
    Locate(d, OutputName(input, requested, Pdf))
  }

  /** What `convert_html_to_pdf` does once the input and the output path have passed the gate. */
  function HtmlPdfStage(d: Disk, system: string, input: string, t: Destination, probe: string -> Run): (r: Reply)
    requires t.out != "" && t.dir != ""
    ensures r.disk.cwd == d.cwd
  {
    var cands := HtmlPdfCandidates(system);
    var c := TryFrom(d, cands, probe, HtmlJob(input, t));
    if c.winner.Some? then Reply(Via(cands[c.winner.value], t.out), c.disk)
    else Reply(HtmlPdfSummary(c.errors), c.disk)
  }

  /** `convert_html_to_pdf(input_path, output_path)` on the platform `system`. */
  function HtmlToPdf(d: Disk, system: string, input: string, requested: Option<string>, probe: string -> Run): (r: Reply)
    requires IsAbs(d.cwd)
    ensures !Exists(d, input) ==> r == Reply("Document " + input + " does not exist", d)
    ensures r.disk.cwd == d.cwd
  {
    var t := HtmlPdfTarget(d, input, requested);
    match Gate(d, input, t, Label(Pdf), true)
    case Stop(reply) => reply
    case Go(d1) => HtmlPdfStage(d1, system, input, t, probe)
  }

  /**
   * `convert_html_to_pdf` reports success only with a PDF at the output
   * path; a failure report names every executable it tried.
   */
  lemma HtmlPdfReportsTruthfully(d: Disk, system: string, input: string, t: Destination, probe: string -> Run)
    requires t.out != "" && t.dir != ""
    ensures var r := HtmlPdfStage(d, system, input, t, probe);
      && (ReportsSuccess(r.msg) ==> Exists(r.disk, t.out))
      && (!ReportsSuccess(r.msg) ==>
            forall j :: 0 <= j < |HtmlPdfCandidates(system)| ==> Contains(r.msg, HtmlPdfCandidates(system)[j]))
  {
    var cands := HtmlPdfCandidates(system);
    var job := HtmlJob(input, t);
    var c := TryFrom(d, cands, probe, job);
    var r := HtmlPdfStage(d, system, input, t, probe);
    if c.winner.Some? {
      WinnerIsVerified(d, cands, probe, job);
      assert r.disk == c.disk && job.target == t.out;
    } else {
      assert r.msg == HtmlPdfSummary(c.errors);
      SummaryNamesEveryCandidate(d, cands, probe, job);
      forall j | 0 <= j < |cands| ensures Contains(r.msg, cands[j]) {
        assert Contains(Join(c.errors, "; "), cands[j]);
      }
    }
  }

  /** An input or output that fails the gate is refused before any converter runs, and no file is written. */
  lemma HtmlToPdfRefused(d: Disk, system: string, input: string, requested: Option<string>, probe: string -> Run)
    requires IsAbs(d.cwd) && !Admitted(d, input, HtmlPdfTarget(d, input, requested))
    ensures var r := HtmlToPdf(d, system, input, requested, probe);
      && r == Gate(d, input, HtmlPdfTarget(d, input, requested), Label(Pdf), true).reply
      && r.disk.files == d.files
  {
  }

  /** Past the gate, `convert_html_to_pdf` converts in the filesystem with the output directory made. */
  lemma HtmlToPdfAdmitted(d: Disk, system: string, input: string, requested: Option<string>, probe: string -> Run)
    requires IsAbs(d.cwd) && Admitted(d, input, HtmlPdfTarget(d, input, requested))
    ensures var t := HtmlPdfTarget(d, input, requested);
      HtmlToPdf(d, system, input, requested, probe) == HtmlPdfStage(AfterMakeDirs(d, t.dir), system, input, t, probe)
  {
  }

  const TmpName := "__tmp_md_to_html__.html"
  /** The head of the report when the Markdown-to-HTML step left no file. */
  const MarkdownStepFailed := Failed + " to convert Markdown to HTML: "

  /** The temporary HTML file, next to the requested output (not made absolute first). */
  function TmpHtml(d: Disk, name: string): (tmp: string)
    requires IsAbs(d.cwd)
    ensures EndsWith(tmp, TmpName)
    ensures StartsWith(tmp, if Dirname(name) != "" then Dirname(name) else Abspath(d.cwd, "."))
    ensures EndsWith(tmp, "/" + TmpName)
  {
    var dir := if Dirname(name) != "" then Dirname(name) else Abspath(d.cwd, ".");
    assert dir != "" by { assert IsAbs(Abspath(d.cwd, ".")); }
    assert !IsAbs(TmpName) by { assert TmpName[0] == '_'; }
    PathJoin(dir, TmpName)
  }

  /** The temporary file goes after the PDF step, if it is (still) a file. */
  function CleanUp(d: Disk, tmp: string): (r: Disk)
    ensures CanWrite(d, ParentDir(tmp)) ==> !Exists(r, tmp) || Resolve(r, tmp) in r.dirs
    ensures !CanWrite(d, ParentDir(tmp)) ==> r == d
  {
    if Exists(d, tmp) then AfterRemove(d, tmp) else d
  }

  /** `convert_markdown_to_pdf(input_path, output_path)`: `md` is what the Markdown library does. */
  function MarkdownToPdf(d: Disk, system: string, input: string, requested: Option<string>,
                         md: LibRun, probe: string -> Run): (r: Reply)
    requires IsAbs(d.cwd)
    ensures !Exists(d, input) ==> r == Reply("Document " + input + " does not exist", d)
  {
    if !Exists(d, input) then Reply("Document " + input + " does not exist", d)
    else
      var name := OutputName(input, requested, Pdf);
      var tmp := TmpHtml(d, name);
      var r1 := LibraryConvert(d, MarkdownToHtml, input, Some(tmp), md);
      if !Exists(r1.disk, tmp) then
        Reply(MarkdownStepFailed + r1.msg, r1.disk)
      else
        var r2 := HtmlToPdf(r1.disk, system, tmp, Some(name), probe);
        Reply(r2.msg, CleanUp(r2.disk, tmp))
  }

  /**
   * No temporary HTML file is left behind, whichever step fails; the PDF
   * step's reply is returned unchanged; without the temporary file the PDF
   * step never runs and the HTML step's reply is passed on.
   */
  lemma MarkdownToPdfSteps(d: Disk, system: string, input: string, requested: Option<string>,
                           md: LibRun, probe: string -> Run)
    requires IsAbs(d.cwd) && Exists(d, input)
    ensures var name := OutputName(input, requested, Pdf);
      var tmp := TmpHtml(d, name);
      var r1 := LibraryConvert(d, MarkdownToHtml, input, Some(tmp), md);
      var r := MarkdownToPdf(d, system, input, requested, md, probe);
      && (!Exists(r.disk, tmp) || Resolve(r.disk, tmp) in r.disk.dirs || !CanWrite(r.disk, ParentDir(tmp)))
      && (Exists(r1.disk, tmp) ==> r.msg == HtmlToPdf(r1.disk, system, tmp, Some(name), probe).msg)
      && (!Exists(r1.disk, tmp) ==> r == Reply(MarkdownStepFailed + r1.msg, r1.disk))
  {
    var name := OutputName(input, requested, Pdf);
    var tmp := TmpHtml(d, name);
    var r1 := LibraryConvert(d, MarkdownToHtml, input, Some(tmp), md);
    if !Exists(r1.disk, tmp) {
      assert tmp != "";
    }
  }

  /**
   * A temporary file left over from an earlier call hides a failed HTML
   * step: the PDF is made from the old HTML and the failure is not reported.
   */
  lemma StaleTmpHidesFailure(d: Disk, system: string, input: string, requested: Option<string>,
                             md: LibRun, probe: string -> Run)
    requires IsAbs(d.cwd) && Exists(d, input) && !md.Produces?
    requires Exists(d, TmpHtml(d, OutputName(input, requested, Pdf)))
    ensures var name := OutputName(input, requested, Pdf);
      var tmp := TmpHtml(d, name);
      var r1 := LibraryConvert(d, MarkdownToHtml, input, Some(tmp), md);
      && r1.disk.files == d.files
      && MarkdownToPdf(d, system, input, requested, md, probe).msg == HtmlToPdf(r1.disk, system, tmp, Some(name), probe).msg
  {
    var name := OutputName(input, requested, Pdf);
    var tmp := TmpHtml(d, name);
    LibraryConvertOutcome(d, MarkdownToHtml, input, Some(tmp), md);
  }

  /** A refusal for an output that cannot be written is no success report. */
  lemma RefusalNotSuccess(kind: string, err: string, shown: string)
    ensures !ReportsSuccess("Cannot create " + kind + ": " + err + " (Path: " + shown + ")")
  {
    var rest := kind + ": " + err + " (Path: " + shown + ")";
    NotSuccess("Cannot create ", rest);
    assert "Cannot create " + kind + ": " + err + " (Path: " + shown + ")" == "Cannot create " + rest;
  }

  /** `convert_html_to_pdf` on an existing input reports success only with the PDF at its output path. */
  lemma HtmlToPdfSuccessLeavesOutput(d: Disk, system: string, input: string, requested: Option<string>, probe: string -> Run)
    requires IsAbs(d.cwd) && Exists(d, input)
    ensures var r := HtmlToPdf(d, system, input, requested, probe);
      ReportsSuccess(r.msg) ==> Exists(r.disk, HtmlPdfTarget(d, input, requested).out)
  {
    var t := HtmlPdfTarget(d, input, requested);
    if Admitted(d, input, t) {
      HtmlToPdfAdmitted(d, system, input, requested, probe);
      HtmlPdfReportsTruthfully(AfterMakeDirs(d, t.dir), system, input, t, probe);
    } else {
      HtmlToPdfRefused(d, system, input, requested, probe);
      GateRefusals(d, input, t, Label(Pdf), true);
      RefusalNotSuccess(Label(Pdf), CheckFileWriteable(AfterMakeDirs(d, t.dir), t.out).1, t.out + ", Dir: " + t.dir);
    }
  }

  /** The PDF output and the temporary HTML file never resolve to the same path. */
  lemma PdfIsNotTmp(cwd: string, name: string, tmp: string)
    requires IsAbs(cwd) && EndsWith(Lower(name), Ext(Pdf)) && EndsWith(tmp, TmpName)
    ensures Abspath(cwd, name) != Abspath(cwd, tmp)
  {
    var a, b := Abspath(cwd, name), Abspath(cwd, tmp);
    assert Ext(Pdf) == ".pdf";
    assert Lower(name)[|name| - 1] == 'f';
    assert a[|a| - 1] == name[|name| - 1];
    assert TmpName[|TmpName| - 1] == 'l';
    assert tmp[|tmp| - 1] == 'l';
    assert b[|b| - 1] == 'l';
  }

  /** Removing the temporary file leaves every other existing path in place. */
  lemma CleanUpKeeps(d: Disk, tmp: string, p: string)
    requires Exists(d, p) && Resolve(d, p) != Resolve(d, tmp)
    ensures Exists(CleanUp(d, tmp), p)
  {
  }

  /** The PDF step of `convert_markdown_to_pdf`, then the clean-up: a success leaves the PDF. */
  lemma PdfStepLeavesPdf(d: Disk, system: string, tmp: string, name: string, probe: string -> Run)
    requires IsAbs(d.cwd) && Exists(d, tmp)
    requires EndsWith(Lower(name), Ext(Pdf)) && EndsWith(tmp, TmpName)
    ensures var r2 := HtmlToPdf(d, system, tmp, Some(name), probe);
      ReportsSuccess(r2.msg) ==> Exists(CleanUp(r2.disk, tmp), name)
  {
    var r2 := HtmlToPdf(d, system, tmp, Some(name), probe);
    assert OutputName(tmp, Some(name), Pdf) == name;
    var out := HtmlPdfTarget(d, tmp, Some(name)).out;
    assert out == Abspath(d.cwd, name);
    HtmlToPdfSuccessLeavesOutput(d, system, tmp, Some(name), probe);
    if ReportsSuccess(r2.msg) {
      PdfIsNotTmp(d.cwd, name, tmp);
      assert Resolve(r2.disk, out) == out;
      assert Exists(r2.disk, name);
      CleanUpKeeps(r2.disk, tmp, name);
    }
  }

  /**
   * `convert_markdown_to_pdf` on an existing input reports success only when
   * the PDF is at the output path after the temporary file has been removed.
   */
  lemma MarkdownToPdfReportsTruthfully(d: Disk, system: string, input: string, requested: Option<string>,
                                       md: LibRun, probe: string -> Run)
    requires IsAbs(d.cwd) && Exists(d, input)
    ensures var r := MarkdownToPdf(d, system, input, requested, md, probe);
      ReportsSuccess(r.msg) ==> Exists(r.disk, OutputName(input, requested, Pdf))
  {
    var name := OutputName(input, requested, Pdf);
    var tmp := TmpHtml(d, name);
    var r1 := LibraryConvert(d, MarkdownToHtml, input, Some(tmp), md);
    if !Exists(r1.disk, tmp) {
      assert MarkdownStepFailed[0] == 'F';
      NotSuccess(MarkdownStepFailed, r1.msg);
    } else {
      PdfStepLeavesPdf(r1.disk, system, tmp, name, probe);
    }
  }

  // ---------------------------------------------------------------------
  // The tools, performed on the filesystem

  method RunDocxPdfStage(fs: FileSystem, system: string, source: string, out: string,
                         probe: string -> Run, conv: Docx2Pdf) returns (msg: string)
    requires out != ""
    modifies fs
    ensures Reply(msg, fs.disk) == DocxPdfStage(old(fs.disk), system, source, out, probe, conv)
  {
    if system == "Windows" {
      match conv {
        case NotInstalled => msg := WindowsFailure(NoDocx2Pdf);
        case Fails(e) => msg := WindowsFailure(e);
        case Converts(w) =>
          if w.Some? {
            fs.Write(out, w.value);
          }
          msg := Success + ": " + out;
      }
    } else if system == "Linux" || system == "Darwin" {
      var cands := DocxPdfCandidates(system);
      var winner, errors := TryCandidates(fs, cands, probe, DocxJob(source, out));
      if winner.Some? {
        return Via(cands[winner.value], out);
      }
      var err := RunDocx2PdfFallback(fs, out, conv);
      if err.None? {
        msg := Via("docx2pdf", out);
      } else {
        msg := PdfSummary(errors + [err.value]);
      }
    } else {
      msg := Unsupported + system + " platform";
    }
  }

  method RunDocx2PdfFallback(fs: FileSystem, out: string, conv: Docx2Pdf) returns (err: Option<string>)
    requires out != ""
    modifies fs
    ensures (err, fs.disk) == Docx2PdfFallback(old(fs.disk), out, conv)
  {
    match conv {
      case NotInstalled =>
        err := Some(Docx2PdfSkipped);
      case Fails(e) =>
        err := Some(Docx2PdfRaised + e);
      case Converts(w) =>
        if w.Some? {
          fs.Write(out, w.value);
        }
        if Exists(fs.disk, out) && Size(fs.disk, out) > 0 {
          err := None;
        } else {
          err := Some(Docx2PdfNoFile);
        }
    }
  }

  method ConvertDocxToPdf(fs: FileSystem, system: string, filename: string, requested: Option<string>,
                          probe: string -> Run, conv: Docx2Pdf) returns (msg: string)
    requires IsAbs(fs.disk.cwd)
    modifies fs
    ensures Reply(msg, fs.disk) == DocxToPdf(old(fs.disk), system, filename, requested, probe, conv)
  {
    var source := EnsureDocxExtension(filename);
    var t := DocxPdfTarget(fs.disk, filename, requested);
    var stop := PrepareOutput(fs, source, t, Label(Pdf), true);
    if stop.Some? {
      return stop.value;
    }
    msg := RunDocxPdfStage(fs, system, source, t.out, probe, conv);
  }

  method ConvertHtmlToPdf(fs: FileSystem, system: string, input: string, requested: Option<string>,
                          probe: string -> Run) returns (msg: string)
    requires IsAbs(fs.disk.cwd)
    modifies fs
    ensures Reply(msg, fs.disk) == HtmlToPdf(old(fs.disk), system, input, requested, probe)
  {
    var t := HtmlPdfTarget(fs.disk, input, requested);
    var stop := PrepareOutput(fs, input, t, Label(Pdf), true);
    if stop.Some? {
      return stop.value;
    }
    msg := RunHtmlPdfStage(fs, system, input, t, probe);
  }

  /** The candidate loop of `convert_html_to_pdf`, performed on the filesystem. */
  method RunHtmlPdfStage(fs: FileSystem, system: string, input: string, t: Destination, probe: string -> Run)
    returns (msg: string)
    requires t.out != "" && t.dir != ""
    modifies fs
    ensures Reply(msg, fs.disk) == HtmlPdfStage(old(fs.disk), system, input, t, probe)
  {
    var cands := HtmlPdfCandidates(system);
    var winner, errors := TryCandidates(fs, cands, probe, HtmlJob(input, t));
    if winner.Some? {
      msg := Via(cands[winner.value], t.out);
    } else {
      msg := HtmlPdfSummary(errors);
    }
  }

  method ConvertMarkdownToPdf(fs: FileSystem, system: string, input: string, requested: Option<string>,
                              md: LibRun, probe: string -> Run) returns (msg: string)
    requires IsAbs(fs.disk.cwd)
    modifies fs
    ensures Reply(msg, fs.disk) == MarkdownToPdf(old(fs.disk), system, input, requested, md, probe)
  {
    if !Exists(fs.disk, input) {
      return "Document " + input + " does not exist";
    }
    var name := OutputName(input, requested, Pdf);
    var tmp := TmpHtml(fs.disk, name);
    var first := ConvertWithLibrary(fs, MarkdownToHtml, input, Some(tmp), md);
    if !Exists(fs.disk, tmp) {
      return MarkdownStepFailed + first;
    }
    msg := ConvertHtmlToPdf(fs, system, tmp, Some(name), probe);
    if Exists(fs.disk, tmp) {
      fs.Remove(tmp);
    }
  }
}
