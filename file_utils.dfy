/**
 * word_document_server/utils/file_utils.py: the writeability check every
 * conversion runs before it writes, the `.docx` normalisation of source
 * names, and document copying.
 */
module FileUtils {
  import opened Wrappers
  import opened PyStr
  import opened PyPath
  import opened Fs

  // ---------------------------------------------------------------------
  // check_file_writeable

  /**
   * When a path can be written: an existing path must be writeable and open
   * in append mode; a new one needs an existing, writeable directory.
   */
  ghost predicate Writeable(d: Disk, p: string) {
    if Exists(d, p) then CanWrite(d, p) && Resolve(d, p) !in d.dirs && Resolve(d, p) !in d.probeErrors
    else Exists(d, ParentDir(p)) && CanWrite(d, ParentDir(p))
  }

  /** `check_file_writeable(p)`: `(is_writeable, error_message)`. */
  function CheckFileWriteable(d: Disk, p: string): (r: (bool, string))
    ensures r.0 <==> r.1 == ""
    ensures r.0 <==> Writeable(d, p)
  {
    if !Exists(d, p) then
      var dir := ParentDir(p);
      if !Exists(d, dir) then (false, "Directory " + dir + " does not exist")
      else if !CanWrite(d, dir) then (false, "Directory " + dir + " is not writeable")
      else (true, "")
    else if !CanWrite(d, p) then
      (false, "File " + p + " is not writeable (permission denied)")
    else if Resolve(d, p) in d.dirs then
      (false, "File " + p + " is not writeable: " + IsADirectory(p))
    else if Resolve(d, p) in d.probeErrors then
      match d.probeErrors[Resolve(d, p)]
      case IOError(e) => (false, "File " + p + " is not writeable: " + e)
      case OtherError(e) => (false, "Unknown error checking file permissions: " + e)
    else
      (true, "")
  }

  /** What `str()` of the `IsADirectoryError` raised by `open(p, 'a')` reads. */
  function IsADirectory(p: string): string {
    "[Errno 21] Is a directory: '" + p + "'"
  }

  /** For a new file, only its directory is consulted, and a missing directory is named. */
  lemma CheckNewFile(d: Disk, p: string)
    requires !Exists(d, p)
    ensures !Exists(d, ParentDir(p)) ==>
      CheckFileWriteable(d, p) == (false, "Directory " + ParentDir(p) + " does not exist")
    ensures Exists(d, ParentDir(p)) && !CanWrite(d, ParentDir(p)) ==>
      CheckFileWriteable(d, p) == (false, "Directory " + ParentDir(p) + " is not writeable")
    ensures Exists(d, ParentDir(p)) && CanWrite(d, ParentDir(p)) ==>
      CheckFileWriteable(d, p) == (true, "")
  {
  }

  /** A directory passes `os.access` but not the append-mode `open`: it is refused as an output file. */
  lemma DirectoryRefused(d: Disk, p: string)
    requires p != "" && Resolve(d, p) in d.dirs && CanWrite(d, p)
    ensures !Writeable(d, p)
    ensures CheckFileWriteable(d, p) == (false, "File " + p + " is not writeable: [Errno 21] Is a directory: '" + p + "'")
  {
    assert CheckFileWriteable(d, p) == (false, "File " + p + " is not writeable: " + IsADirectory(p));
    DirectoryMessage(p);
  }

  lemma DirectoryMessage(p: string)
    ensures "File " + p + " is not writeable: " + IsADirectory(p)
      == "File " + p + " is not writeable: [Errno 21] Is a directory: '" + p + "'"
  {
    var head, e := "File " + p + " is not writeable: ", "[Errno 21] Is a directory: '";
    assert head + (e + p + "'") == "File " + p + (" is not writeable: " + e) + p + "'";
    assert " is not writeable: " + e == " is not writeable: [Errno 21] Is a directory: '";
  }

  /**
   * An existing file without write permission is refused without the
   * append-mode probe: the verdict does not depend on what the probe would do.
   */
  lemma PermissionDeniedSkipsProbe(d: Disk, p: string, probes: map<string, ProbeError>)
    requires Exists(d, p) && !CanWrite(d, p)
    ensures CheckFileWriteable(d, p) == (false, "File " + p + " is not writeable (permission denied)")
    ensures CheckFileWriteable(d.(probeErrors := probes), p) == CheckFileWriteable(d, p)
  {
  }

  // ---------------------------------------------------------------------
  // ensure_docx_extension

  const Docx := ".docx"

  lemma LowerDocx()
    ensures Lower(Docx) == Docx
  {
    LowerOfLower(Docx);
  }

  /**
   * `ensure_docx_extension(p)`: a name ending in `.docx` (any case) or
   * carrying any other extension is kept; any other name gets `.docx`.
   */
  function EnsureDocxExtension(p: string): (r: string)
    ensures r == p || r == p + Docx
    ensures EndsWith(Lower(r), Docx) || SplitExt(r).1 != ""
  {
    if EndsWith(Lower(p), Docx) then p
    else if SplitExt(p).1 != "" then p
    else
      LowerAppend(p, Docx);
      LowerDocx();
      p + Docx
  }

  /** A path with another extension is left alone, whatever that extension is. */
  lemma EnsureDocxKeepsExtension(p: string)
    requires SplitExt(p).1 != ""
    ensures EnsureDocxExtension(p) == p
  {
  }

  /** Only a name with neither `.docx` nor another extension is extended. */
  lemma EnsureDocxAppends(p: string)
    ensures EnsureDocxExtension(p) == p + Docx <==> !EndsWith(Lower(p), Docx) && SplitExt(p).1 == ""
  {
    if EnsureDocxExtension(p) == p + Docx {
      assert |p + Docx| != |p|;
    }
  }

  /** Normalising twice is normalising once. */
  lemma EnsureDocxIdempotent(p: string)
    ensures EnsureDocxExtension(EnsureDocxExtension(p)) == EnsureDocxExtension(p)
  {
  }

  /**
   * The docstring promises a result that ends with `.docx`; the code keeps
   * other extensions, so `notes.txt` comes back unchanged.
   */
  lemma EnsureDocxKeepsTxt(stem: string)
    requires HasNonDot(Basename(stem))
    ensures EnsureDocxExtension(stem + ".txt") == stem + ".txt"
    ensures !EndsWith(Lower(stem + ".txt"), Docx)
  {
    TxtExtension(stem);
    EnsureDocxKeepsExtension(stem + ".txt");
    LowerAppend(stem, ".txt");
    var l := Lower(stem + ".txt");
    assert l[|l| - 1] == LowerChar('t') == 't';
  }

  lemma TxtExtension(stem: string)
    requires HasNonDot(Basename(stem))
    ensures SplitExt(stem + ".txt").1 == ".txt"
  {
    assert IsExtension(".txt");
    SplitExtAppend(stem, ".txt");
  }

  // ---------------------------------------------------------------------
  // create_document_copy

  /** `(success, message, new_filepath)`. */
  datatype CopyResult = CopyResult(success: bool, message: string, newPath: Option<string>)

  /** The copy's path: the given one, or the source's stem with `_copy` before its extension. */
  function CopyDestination(source: string, dest: Option<string>): (r: string)
    ensures r != ""
    ensures dest.Some? && dest.value != "" ==> r == dest.value
    ensures dest.None? || dest.value == "" ==>
      SplitExt(r) == (SplitExt(source).0 + "_copy", SplitExt(source).1)
  {
    if dest.Some? && dest.value != "" then dest.value
    else
      var (base, ext) := SplitExt(source);
      CopyKeepsExtension(base, ext, source);
      base + "_copy" + ext
  }

  /** Inserting `_copy` before the extension leaves the extension in place. */
  lemma CopyKeepsExtension(base: string, ext: string, source: string)
    requires (base, ext) == SplitExt(source)
    ensures SplitExt(base + "_copy" + ext) == (base + "_copy", ext)
  {
    var stem := base + "_copy";
    assert '.' !in "_copy" && '/' !in "_copy";
    if ext == "" {
      assert base == source;
      SplitExtAppendPlain(base, "_copy");
      assert stem + ext == stem;
    } else {
      RFindAppend(base, "_copy", '/');
      var b := Basename(stem);
      assert stem[|stem| - 1] == 'y';
      assert b[|b| - 1] == 'y';
      SplitExtAppend(stem, ext);
    }
  }

  /** Where `shutil.copy2` writes: inside an existing directory under the source's base name, else at the destination. */
  function CopyWritten(d: Disk, source: string, target: string): (w: string)
    requires target != ""
    ensures w != ""
    ensures Resolve(d, target) !in d.dirs ==> w == target
    ensures Resolve(d, target) in d.dirs ==> StartsWith(w, target) && EndsWith(w, Basename(source))
  {
    if Resolve(d, target) in d.dirs then PathJoin(target, Basename(source)) else target
  }

  /**
   * `create_document_copy(source, dest)`, with `copyError` what `shutil.copy2`
   * raises, if anything. The reply names the destination as given, even when
   * the copy went into it.
   */
  method CreateDocumentCopy(fs: FileSystem, source: string, dest: Option<string>, copyError: Option<string>)
    returns (r: CopyResult)
    modifies fs
    ensures r.success <==> r.newPath.Some?
    ensures !Exists(old(fs.disk), source) ==>
      r == CopyResult(false, "Source document " + source + " does not exist", None) && fs.disk == old(fs.disk)
    ensures Exists(old(fs.disk), source) && copyError.Some? ==>
      r == CopyResult(false, "Failed to copy document: " + copyError.value, None) && fs.disk == old(fs.disk)
    ensures r.success ==>
      var target := CopyDestination(source, dest);
      var written := CopyWritten(old(fs.disk), source, target);
      && r == CopyResult(true, "Document copied to " + target, Some(target))
      && fs.disk == AfterWrite(old(fs.disk), written, Size(old(fs.disk), source))
      && Exists(fs.disk, target) && Exists(fs.disk, written)
    ensures r.success <==> Exists(old(fs.disk), source) && copyError.None?
  {
    if !Exists(fs.disk, source) {
      return CopyResult(false, "Source document " + source + " does not exist", None);
    }
    var target := CopyDestination(source, dest);
    match copyError {
      case Some(e) =>
        r := CopyResult(false, "Failed to copy document: " + e, None);
      case None =>
        var written := CopyWritten(fs.disk, source, target);
        fs.Write(written, Size(fs.disk, source));
        r := CopyResult(true, "Document copied to " + target, Some(target));
    }
  }
}
