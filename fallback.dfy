/**
 * The candidate-fallback loop of word_document_server/tools/extended_document_tools.py
 * (in `convert_to_pdf` and `convert_html_to_pdf`): an ordered list of
 * office-suite executables is tried one after the other in headless
 * conversion mode; a run counts only when it exits with 0 AND the file it
 * should have produced is there AND, after moving it to the requested
 * path, that path exists. Every failed candidate leaves one diagnostic.
 */
module Fallback {
  import opened Wrappers
  import opened PyStr
  import opened Fs

  /** What running one candidate (`subprocess.run`) does. */
  datatype Run =
    | NotFound                                               // FileNotFoundError: no such executable
    | Raised(err: string)                                    // any other exception, a timeout for one
    | Exited(code: int, stderr: string, writes: Option<nat>) // the tool ran; `writes`: the size of the file it left at the expected place

  /**
   * One conversion: `created` is `<outdir>/<source stem>.pdf`, where the tool
   * writes; `target` is the requested output path; `outDir` the output
   * directory, created again before each attempt when `remakeDir` holds.
   */
  datatype Job = Job(created: string, target: string, outDir: string, remakeDir: bool)

  predicate ValidJob(job: Job) {
    job.created != "" && job.target != "" && job.outDir != ""
  }

  const MacSoffice := "/Applications/LibreOffice.app/Contents/MacOS/soffice"
  // Python raw strings such as r'C:\\Program Files\\...' keep both backslashes of each pair.
  const WinSoffice := "C:\\\\Program Files\\\\LibreOffice\\\\program\\\\soffice.exe"
  const WinSofficeX86 := "C:\\\\Program Files (x86)\\\\LibreOffice\\\\program\\\\soffice.exe"

  predicate Distinct(c: seq<string>) {
    forall i, j :: 0 <= i < j < |c| ==> c[i] != c[j]
  }

  /** The executables `convert_html_to_pdf` tries, in order; a function of the platform alone. */
  function HtmlPdfCandidates(system: string): (c: seq<string>)
    ensures 2 <= |c| && Distinct(c) && "soffice" in c
    ensures system == "Windows" ==> c == ["soffice", WinSoffice, WinSofficeX86]
    ensures system == "Darwin" ==> c == ["soffice", MacSoffice]
    ensures system != "Windows" && system != "Darwin" ==> c == ["libreoffice", "soffice"]
  {
    if system == "Windows" then ["soffice", WinSoffice, WinSofficeX86]
    else if system == "Darwin" then ["soffice", MacSoffice]
    else ["libreoffice", "soffice"]
  }

  /** The executables `convert_to_pdf` tries on Linux and macOS, in order. */
  function DocxPdfCandidates(system: string): (c: seq<string>)
    ensures 2 <= |c| && Distinct(c) && "soffice" in c
    ensures system == "Darwin" ==> c == HtmlPdfCandidates(system)
    ensures system == "Linux" ==> c == HtmlPdfCandidates(system)
  {
    if system == "Darwin" then ["soffice", MacSoffice]
    else ["libreoffice", "soffice"]
  }

  /** The one message a failed candidate leaves. */
  function Diagnostic(name: string, run: Run, created: string): string {
    var (pre, post) := DiagnosticParts(run, created);
    pre + name + post
  }

  /** Every diagnostic names the candidate it is about. */
  lemma DiagnosticNamesCandidate(name: string, run: Run, created: string)
    ensures Contains(Diagnostic(name, run, created), name)
  {
    var (pre, post) := DiagnosticParts(run, created);
    ContainsWithin(pre, name, post);
  }

  /**
   * The four texts a failed candidate leaves: not found, raised, a zero exit
   * without the expected file, and a non-zero exit with its stripped stderr.
   */
  lemma DiagnosticTexts(name: string, run: Run, created: string)
    ensures run.NotFound? ==> Diagnostic(name, run, created) == "Command '" + name + "' not found."
    ensures run.Raised? ==> Diagnostic(name, run, created) == "An error occurred with " + name + ": " + run.err
    ensures run.Exited? && run.code == 0 ==>
      Diagnostic(name, run, created) == name + " returned success code, but output file '" + created + "' was not found."
    ensures run.Exited? && run.code != 0 ==>
      Diagnostic(name, run, created) == name + " failed. Stderr: " + Strip(run.stderr)
  {
    match run
    case NotFound =>
    case Raised(e) =>
      assert RaisedPre + name + (": " + e) == RaisedPre + name + ": " + e;
    case Exited(code, stderr, _) =>
      if code == 0 {
        assert "" + name + (NoFilePre + created + NoFilePost) == name + NoFilePre + created + NoFilePost;
      } else {
        assert "" + name + (FailedPre + Strip(stderr)) == name + FailedPre + Strip(stderr);
      }
  }

  /** The text a diagnostic puts before and after the candidate's name. */
  function DiagnosticParts(run: Run, created: string): (string, string) {
    match run
    case NotFound => (NotFoundPre, NotFoundPost)
    case Raised(e) => (RaisedPre, ": " + e)
    case Exited(code, stderr, _) =>
      if code == 0 then ("", NoFilePre + created + NoFilePost)
      else ("", FailedPre + Strip(stderr))
  }

  const NotFoundPre := "Command '"
  const NotFoundPost := "' not found."
  const RaisedPre := "An error occurred with "
  const NoFilePre := " returned success code, but output file '"
  const NoFilePost := "' was not found."
  const FailedPre := " failed. Stderr: "

  /** The filesystem a candidate starts from: with the output directory made again if asked. */
  function BeforeRun(d: Disk, job: Job): Disk
    requires ValidJob(job)
  {
    if job.remakeDir then AfterMakeDirs(d, job.outDir) else d
  }

  datatype Step = Step(ok: bool, disk: Disk)

  /**
   * One attempt. Success needs a zero exit, the expected file (written by
   * this run, or already there) and the target present after the move.
   */
  function Attempt(d: Disk, name: string, run: Run, job: Job): (s: Step)
    requires ValidJob(job)
    ensures s.ok ==> run.Exited? && run.code == 0 && Exists(s.disk, job.target)
    ensures s.ok ==> run.writes.Some? || Exists(BeforeRun(d, job), job.created)
    ensures run.NotFound? || run.Raised? ==> s == Step(false, BeforeRun(d, job))
    ensures s.disk.cwd == d.cwd
  {
    var d0 := BeforeRun(d, job);
    match run
    case NotFound => Step(false, d0)
    case Raised(_) => Step(false, d0)
    case Exited(code, _, writes) => AfterExit(d0, code, writes, job)
  }

  /**
   * A run that exited, from the filesystem `d0` it started on: the file it
   * wrote, then, on a zero exit with the expected file there, the move to the target.
   */
  function AfterExit(d0: Disk, code: int, writes: Option<nat>, job: Job): (s: Step)
    requires ValidJob(job)
    ensures s.ok ==> code == 0 && Exists(s.disk, job.target)
    ensures s.ok ==> writes.Some? || Exists(d0, job.created)
    ensures s.disk.cwd == d0.cwd
  {
    var d1 := if writes.Some? then AfterWrite(d0, job.created, writes.value) else d0;
    if code == 0 && Exists(d1, job.created) then
      var d2 := if job.created != job.target then AfterMove(d1, job.created, job.target) else d1;
      Step(Exists(d2, job.target), d2)
    else
      Step(false, d1)
  }

  /** The first successful candidate (if any), the diagnostics of those before it, and the final filesystem. */
  datatype Chain = Chain(winner: Option<nat>, errors: seq<string>, disk: Disk)

  /** The diagnostics `errs` come first, and the winner's index moves past them. */
  function Prepend(errs: seq<string>, c: Chain): Chain {
    Chain(if c.winner.Some? then Some(c.winner.value + |errs|) else None, errs + c.errors, c.disk)
  }

  /** Trying `cands` in order until one succeeds. */
  function TryFrom(d: Disk, cands: seq<string>, probe: string -> Run, job: Job): (c: Chain)
    requires ValidJob(job)
    ensures c.winner.Some? ==> c.winner.value < |cands| && |c.errors| == c.winner.value
    ensures c.winner.None? ==> |c.errors| == |cands|
    ensures c.disk.cwd == d.cwd
    decreases |cands|
  {
    if cands == [] then Chain(None, [], d)
    else
      var s := Attempt(d, cands[0], probe(cands[0]), job);
      if s.ok then Chain(Some(0), [], s.disk)
      else Prepend([Diagnostic(cands[0], probe(cands[0]), job.created)], TryFrom(s.disk, cands[1..], probe, job))
  }

  lemma PrependPrepend(a: seq<string>, b: seq<string>, c: Chain)
    ensures Prepend(a, Prepend(b, c)) == Prepend(a + b, c)
  {
    assert a + (b + c.errors) == (a + b) + c.errors;
  }

  /** The filesystem after the first `k` candidates have been tried (and failed). */
  function DiskBefore(d: Disk, cands: seq<string>, probe: string -> Run, job: Job, k: nat): Disk
    requires ValidJob(job) && k <= |cands|
  {
    TryFrom(d, cands[..k], probe, job).disk
  }

  /** The `j`-th diagnostic is the `j`-th candidate's: one per failure, in order. */
  lemma {:induction false} DiagnosticsInOrder(d: Disk, cands: seq<string>, probe: string -> Run, job: Job)
    requires ValidJob(job)
    ensures var c := TryFrom(d, cands, probe, job);
      forall j :: 0 <= j < |c.errors| ==> j < |cands| && c.errors[j] == Diagnostic(cands[j], probe(cands[j]), job.created)
    decreases |cands|
  {
    if cands != [] {
      var s := Attempt(d, cands[0], probe(cands[0]), job);
      TryFromFirst(d, cands, probe, job, s);
      if !s.ok {
        DiagnosticsInOrder(s.disk, cands[1..], probe, job);
      }
    }
  }

  /** What a winning candidate `k` did: exit 0 after its expected file was there, leaving the target in `final`. */
  ghost predicate Verified(d: Disk, cands: seq<string>, probe: string -> Run, job: Job, k: nat, final: Disk)
    requires ValidJob(job) && k < |cands|
  {
    var run := probe(cands[k]);
    && run.Exited? && run.code == 0
    && (run.writes.Some? || Exists(BeforeRun(DiskBefore(d, cands, probe, job, k), job), job.created))
    && Exists(final, job.target)
  }

  /** After a failed first candidate, the rest starts from the filesystem it left. */
  lemma DiskBeforeStep(d: Disk, cands: seq<string>, probe: string -> Run, job: Job, k: nat)
    requires ValidJob(job) && k < |cands|
    requires !Attempt(d, cands[0], probe(cands[0]), job).ok
    ensures DiskBefore(d, cands, probe, job, k + 1)
      == DiskBefore(Attempt(d, cands[0], probe(cands[0]), job).disk, cands[1..], probe, job, k)
  {
    var p := cands[..k + 1];
    assert p[0] == cands[0];
    assert p[1..] == cands[1..][..k];
  }

  /**
   * A winner exited with 0, its expected file was there once it had run
   * (written by it or left over), and the requested target exists at the end.
   */
  lemma {:induction false} WinnerIsVerified(d: Disk, cands: seq<string>, probe: string -> Run, job: Job)
    requires ValidJob(job)
    ensures var c := TryFrom(d, cands, probe, job);
      c.winner.Some? ==> Verified(d, cands, probe, job, c.winner.value, c.disk)
    decreases |cands|
  {
    var c := TryFrom(d, cands, probe, job);
    if cands != [] && c.winner.Some? {
      var s := Attempt(d, cands[0], probe(cands[0]), job);
      TryFromFirst(d, cands, probe, job, s);
      if s.ok {
        assert cands[..0] == [];
        assert DiskBefore(d, cands, probe, job, 0) == d;
      } else {
        var rest := TryFrom(s.disk, cands[1..], probe, job);
        assert rest.winner.Some? && c.winner.value == rest.winner.value + 1 && c.disk == rest.disk;
        WinnerIsVerified(s.disk, cands[1..], probe, job);
        VerifiedStep(d, cands, probe, job, rest.winner.value, c.disk);
      }
    }
  }

  /** A win by candidate `k` among the rest, after a failed first one, is a win by `k + 1`. */
  lemma VerifiedStep(d: Disk, cands: seq<string>, probe: string -> Run, job: Job, k: nat, final: Disk)
    requires ValidJob(job) && k + 1 < |cands|
    requires !Attempt(d, cands[0], probe(cands[0]), job).ok
    requires Verified(Attempt(d, cands[0], probe(cands[0]), job).disk, cands[1..], probe, job, k, final)
    ensures Verified(d, cands, probe, job, k + 1, final)
  {
    DiskBeforeStep(d, cands, probe, job, k);
    assert cands[1..][k] == cands[k + 1];
  }

  /** Only a candidate that exits with 0 can win: without one, every candidate leaves a diagnostic. */
  lemma {:induction false} NoZeroExitNoWinner(d: Disk, cands: seq<string>, probe: string -> Run, job: Job)
    requires ValidJob(job)
    requires forall j :: 0 <= j < |cands| ==> !(probe(cands[j]).Exited? && probe(cands[j]).code == 0)
    ensures TryFrom(d, cands, probe, job).winner.None?
    decreases |cands|
  {
    if cands != [] {
      var s := Attempt(d, cands[0], probe(cands[0]), job);
      NoZeroExitNoWinner(s.disk, cands[1..], probe, job);
    }
  }

  /** Candidates after the winner are never run. */
  lemma {:induction false} StopsAtFirstSuccess(d: Disk, cands: seq<string>, probe: string -> Run, job: Job, more: seq<string>)
    requires ValidJob(job)
    requires TryFrom(d, cands, probe, job).winner.Some?
    ensures TryFrom(d, cands + more, probe, job) == TryFrom(d, cands, probe, job)
    decreases |cands|
  {
    var s := Attempt(d, cands[0], probe(cands[0]), job);
    var longer := cands + more;
    assert longer[0] == cands[0];
    TryFromFirst(d, cands, probe, job, s);
    TryFromFirst(d, longer, probe, job, s);
    if !s.ok {
      var diag := [Diagnostic(cands[0], probe(cands[0]), job.created)];
      var rest := TryFrom(s.disk, cands[1..], probe, job);
      assert longer[1..] == cands[1..] + more;
      StopsAtFirstSuccess(s.disk, cands[1..], probe, job, more);
      calc {
        TryFrom(d, longer, probe, job);
        Prepend(diag, TryFrom(s.disk, longer[1..], probe, job));
        Prepend(diag, rest);
        TryFrom(d, cands, probe, job);
      }
    }
  }

  /** When every candidate fails, the joined diagnostics name each candidate. */
  lemma SummaryNamesEveryCandidate(d: Disk, cands: seq<string>, probe: string -> Run, job: Job)
    requires ValidJob(job)
    requires TryFrom(d, cands, probe, job).winner.None?
    ensures forall j :: 0 <= j < |cands| ==> Contains(Join(TryFrom(d, cands, probe, job).errors, "; "), cands[j])
  {
    var c := TryFrom(d, cands, probe, job);
    DiagnosticsInOrder(d, cands, probe, job);
    forall j | 0 <= j < |cands| ensures Contains(Join(c.errors, "; "), cands[j]) {
      DiagnosticNamesCandidate(cands[j], probe(cands[j]), job.created);
      JoinContains(c.errors, "; ", j, cands[j]);
    }
  }

  /** When no candidate is installed, the diagnostics are exactly the "not found" ones, in order. */
  lemma AllMissing(d: Disk, cands: seq<string>, probe: string -> Run, job: Job)
    requires ValidJob(job)
    requires forall j :: 0 <= j < |cands| ==> probe(cands[j]) == NotFound
    ensures var c := TryFrom(d, cands, probe, job);
      && c.winner.None?
      && |c.errors| == |cands|
      && forall j :: 0 <= j < |cands| ==> c.errors[j] == "Command '" + cands[j] + "' not found."
  {
    NoZeroExitNoWinner(d, cands, probe, job);
    DiagnosticsInOrder(d, cands, probe, job);
  }

  /** A zero exit that leaves no file, where none was before, is a failure with its own diagnostic. */
  lemma FalseSuccessIsFailure(d: Disk, name: string, stderr: string, job: Job)
    requires ValidJob(job) && !Exists(BeforeRun(d, job), job.created)
    ensures !Attempt(d, name, Exited(0, stderr, None), job).ok
    ensures Diagnostic(name, Exited(0, stderr, None), job.created)
      == name + " returned success code, but output file '" + job.created + "' was not found."
  {
    DiagnosticTexts(name, Exited(0, stderr, None), job.created);
  }

  /** Trying a non-empty list: the first candidate's attempt, and the rest only when it failed. */
  lemma TryFromFirst(d: Disk, cands: seq<string>, probe: string -> Run, job: Job, s: Step)
    requires ValidJob(job) && cands != [] && s == Attempt(d, cands[0], probe(cands[0]), job)
    ensures s.ok ==> TryFrom(d, cands, probe, job) == Chain(Some(0), [], s.disk)
    ensures !s.ok ==>
      TryFrom(d, cands, probe, job)
        == Prepend([Diagnostic(cands[0], probe(cands[0]), job.created)], TryFrom(s.disk, cands[1..], probe, job))
  {
  }

  /**
   * The loop of `convert_to_pdf` / `convert_html_to_pdf`: `winner` is the
   * index of the candidate that succeeded, `errors` the diagnostics of those
   * tried before it (of all of them when none did).
   */
  method TryCandidates(fs: FileSystem, cands: seq<string>, probe: string -> Run, job: Job)
    returns (winner: Option<nat>, errors: seq<string>)
    requires ValidJob(job)
    modifies fs
    ensures Chain(winner, errors, fs.disk) == TryFrom(old(fs.disk), cands, probe, job)
  {
    winner, errors := None, [];
    var i := 0;
    while i < |cands|
      invariant 0 <= i <= |cands| && |errors| == i
      invariant TryFrom(old(fs.disk), cands, probe, job) == Prepend(errors, TryFrom(fs.disk, cands[i..], probe, job))
    {
      var name := cands[i];
      ghost var before := fs.disk;
      var ok := RunCandidate(fs, name, probe(name), job);
      assert cands[i..][0] == name && cands[i..][1..] == cands[i + 1..];
      TryFromFirst(before, cands[i..], probe, job, Step(ok, fs.disk));
      if ok {
        winner := Some(i);
        assert errors + [] == errors;
        return;
      }
      var diagnostic := Diagnostic(name, probe(name), job.created);
      PrependPrepend(errors, [diagnostic], TryFrom(fs.disk, cands[i + 1..], probe, job));
      errors := errors + [diagnostic];
      i := i + 1;
    }
  }

  /** One attempt of the loop, performed on the filesystem. */
  method RunCandidate(fs: FileSystem, name: string, run: Run, job: Job) returns (ok: bool)
    requires ValidJob(job)
    modifies fs
    ensures Step(ok, fs.disk) == Attempt(old(fs.disk), name, run, job)
  {
    if job.remakeDir {
      fs.MakeDirs(job.outDir);
    }
    ok := false;
    match run {
      case NotFound =>
      case Raised(_) =>
      case Exited(code, _, writes) =>
        if writes.Some? {
          fs.Write(job.created, writes.value);
        }
        if code == 0 && Exists(fs.disk, job.created) {
          if job.created != job.target {
            fs.Move(job.created, job.target);
          }
          ok := Exists(fs.disk, job.target);
        }
    }
  }
}
