/**
 * The filesystem as the document tools observe and change it. A `Disk` is a
 * snapshot: the process's working directory, the files (with their sizes),
 * the directories, the paths `os.access(p, os.W_OK)` accepts, and the files
 * whose append-mode `open` raises (on a directory it always raises
 * `IsADirectoryError`). A file or directory the process creates
 * is its own and so writeable; a renamed entry keeps its mode; a removed
 * file is no longer writeable. Paths are resolved against the working
 * directory before they are looked up. `FileSystem` is the mutable machine
 * that the tools change step by step.
 */
module Fs {
  import opened PyPath

  /** What `open(p, 'a')` raises on an existing path. */
  datatype ProbeError = IOError(msg: string) | OtherError(msg: string)

  datatype Disk = Disk(
    cwd: string,
    files: map<string, nat>,
    dirs: set<string>,
    writeable: set<string>,
    probeErrors: map<string, ProbeError>)

  /** The absolute path the operating system looks up for `p`. */
  function Resolve(d: Disk, p: string): string {
    Abspath(d.cwd, p)
  }

  /** `os.path.exists(p)`: a file or a directory (the empty path never exists). */
  predicate Exists(d: Disk, p: string)
    ensures Exists(d, p) ==> p != ""
    ensures p != "" && Size(d, p) > 0 ==> Exists(d, p)
  {
    p != "" && (Resolve(d, p) in d.files || Resolve(d, p) in d.dirs)
  }

  /** `os.access(p, os.W_OK)`. */
  predicate CanWrite(d: Disk, p: string) {
    Resolve(d, p) in d.writeable
  }

  /** `os.path.getsize(p)` of an existing file (directories read as empty). */
  function Size(d: Disk, p: string): (n: nat)
    ensures n > 0 ==> Resolve(d, p) in d.files
  {
    if Resolve(d, p) in d.files then d.files[Resolve(d, p)] else 0
  }

  /** Once the working directory is absolute, a path and its absolute form name the same entry. */
  lemma ResolvedPathSameEntry(d: Disk, p: string)
    requires IsAbs(d.cwd) && p != ""
    ensures Resolve(d, Resolve(d, p)) == Resolve(d, p)
    ensures Exists(d, Resolve(d, p)) == Exists(d, p)
    ensures CanWrite(d, Resolve(d, p)) == CanWrite(d, p)
    ensures Size(d, Resolve(d, p)) == Size(d, p)
  {
  }

  /** The directory a new file would be created in; an empty dirname means `.`. */
  function ParentDir(p: string): (r: string)
    ensures r != ""
  {
    if Dirname(p) == "" then "." else Dirname(p)
  }

  /** A bare file name lives in the current directory. */
  lemma ParentDirOfBareName(p: string)
    requires forall k :: 0 <= k < |p| ==> p[k] != '/'
    ensures ParentDir(p) == "."
  {
    RFindAt(p, '/', -1);
  }

  /** `os.makedirs(dir, exist_ok=True)`: creates `dir` unless something is there already. */
  function AfterMakeDirs(d: Disk, dir: string): (r: Disk)
    requires dir != ""
    ensures Exists(r, dir)
    ensures r.files == d.files && r.cwd == d.cwd
    ensures forall p :: Exists(d, p) ==> Exists(r, p)
    ensures Exists(d, dir) ==> r == d
    ensures d.dirs <= r.dirs
    ensures !Exists(d, dir) ==> CanWrite(r, dir)
    ensures r.writeable - {Resolve(d, dir)} == d.writeable - {Resolve(d, dir)}
  {
    if Exists(d, dir) then d
    else d.(dirs := d.dirs + {Resolve(d, dir)}, writeable := d.writeable + {Resolve(d, dir)})
  }

  /** Writing `size` bytes to `p` (`open(p, 'w')` followed by a write); every other file keeps its size. */
  function AfterWrite(d: Disk, p: string, size: nat): (r: Disk)
    requires p != ""
    ensures Exists(r, p) && Size(r, p) == size
    ensures forall q :: Exists(d, q) ==> Exists(r, q)
    ensures r.cwd == d.cwd && r.dirs == d.dirs
    ensures r.files - {Resolve(d, p)} == d.files - {Resolve(d, p)}
    ensures !Exists(d, p) ==> CanWrite(r, p)
    ensures Exists(d, p) ==> r.writeable == d.writeable
    ensures r.writeable - {Resolve(d, p)} == d.writeable - {Resolve(d, p)}
  {
    var k := Resolve(d, p);
    d.(files := d.files[k := size], writeable := if Exists(d, p) then d.writeable else d.writeable + {k})
  }

  /**
   * `shutil.move(src, dst)` within one filesystem: a rename. The destination
   * takes the source's size; every other file is untouched.
   */
  function AfterMove(d: Disk, src: string, dst: string): (r: Disk)
    requires Exists(d, src) && dst != ""
    ensures Exists(r, dst)
    ensures Resolve(d, src) != Resolve(d, dst) ==> !Exists(r, src)
    ensures r.cwd == d.cwd
    ensures Resolve(d, src) in d.files ==> Resolve(d, dst) in r.files && r.files[Resolve(d, dst)] == d.files[Resolve(d, src)]
    ensures r.files - {Resolve(d, src), Resolve(d, dst)} == d.files - {Resolve(d, src), Resolve(d, dst)}
    ensures CanWrite(r, dst) == CanWrite(d, src)
    ensures Resolve(d, src) != Resolve(d, dst) ==> !CanWrite(r, src)
    ensures r.writeable - {Resolve(d, src), Resolve(d, dst)} == d.writeable - {Resolve(d, src), Resolve(d, dst)}
  {
    var s, t := Resolve(d, src), Resolve(d, dst);
    var files := if s in d.files then (d.files - {s})[t := d.files[s]] else d.files;
    var dirs := if s in d.dirs then (d.dirs - {s}) + {t} else d.dirs;
    var writeable := if s in d.writeable then (d.writeable - {s}) + {t} else d.writeable - {t};
    assert s in d.files ==> t in files && files[t] == d.files[s];
    assert files - {s, t} == d.files - {s, t};
    assert writeable - {s, t} == d.writeable - {s, t};
    var r := d.(files := files, dirs := dirs, writeable := writeable);
    assert Resolve(r, src) == s && Resolve(r, dst) == t;
    r
  }

  /**
   * `os.remove(p)`. It needs write access to the directory holding `p`;
   * without it, the call raises and nothing changes. On a directory it
   * raises as well, and the directory stays. The callers swallow both.
   */
  function AfterRemove(d: Disk, p: string): (r: Disk)
    ensures CanWrite(d, ParentDir(p)) ==> Resolve(r, p) !in r.files
    ensures !CanWrite(d, ParentDir(p)) ==> r == d
    ensures r.cwd == d.cwd && r.dirs == d.dirs
    ensures r.files - {Resolve(d, p)} == d.files - {Resolve(d, p)}
    ensures CanWrite(d, ParentDir(p)) && Resolve(d, p) in d.files && Resolve(d, p) !in d.dirs ==> !CanWrite(r, p)
    ensures r.writeable - {Resolve(d, p)} == d.writeable - {Resolve(d, p)}
  {
    var k := Resolve(d, p);
    if !CanWrite(d, ParentDir(p)) then d
    else d.(files := d.files - {k}, writeable := if k in d.files && k !in d.dirs then d.writeable - {k} else d.writeable)
  }

  /** The filesystem the tools run against. */
  class FileSystem {
    var disk: Disk

    constructor (d: Disk)
      ensures disk == d
    {
      disk := d;
    }

    method MakeDirs(dir: string)
      requires dir != ""
      modifies this
      ensures disk == AfterMakeDirs(old(disk), dir)
    {
      disk := AfterMakeDirs(disk, dir);
    }

    method Write(p: string, size: nat)
      requires p != ""
      modifies this
      ensures disk == AfterWrite(old(disk), p, size)
    {
      disk := AfterWrite(disk, p, size);
    }

    method Move(src: string, dst: string)
      requires Exists(disk, src) && dst != ""
      modifies this
      ensures disk == AfterMove(old(disk), src, dst)
    {
      disk := AfterMove(disk, src, dst);
    }

    method Remove(p: string)
      modifies this
      ensures disk == AfterRemove(old(disk), p)
    {
      disk := AfterRemove(disk, p);
    }
  }
}
