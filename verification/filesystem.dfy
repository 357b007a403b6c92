/** The destination disk as the mover sees it through `pathlib`: a set of files and a
    set of directories, each named by its path components. */
module FileSystem {

  /** A path as its components: `base / "2024-01"` is `base + ["2024-01"]`. The empty
      path is the root, which always exists. */
  type Path = seq<string>

  datatype Fs = Fs(files: set<Path>, dirs: set<Path>)

  /** Why a file-system call raised. */
  datatype FsError =
    | NotADirectory(at: Path)   // a file stands where a directory is needed
    | IsADirectory(at: Path)    // `unlink` on a directory
    | NotFound(at: Path)        // nothing at the path

  datatype FsResult = FsOk(fs: Fs) | FsErr(error: FsError)

  /** `p.exists()`. */
  predicate Exists(fs: Fs, p: Path) {
    p == [] || p in fs.files || p in fs.dirs
  }

  /** Files and directories never share a path, and everything sits in a directory. */
  predicate WellFormed(fs: Fs) {
    && fs.files * fs.dirs == {}
    && [] !in fs.files
    && (forall p, i :: p in fs.files && 0 < i < |p| ==> p[..i] in fs.dirs)
    && (forall p, i :: p in fs.dirs && 0 < i < |p| ==> p[..i] in fs.dirs)
  }

  /** Every non-root ancestor of `p`, and `p` itself. */
  function Ancestors(p: Path): (r: set<Path>)
    ensures forall i :: 0 < i <= |p| ==> p[..i] in r
    ensures forall q :: q in r ==> 0 < |q| <= |p| && q == p[..|q|]
  {
    set i | 0 < i <= |p| :: p[..i]
  }

  /** `p.mkdir(parents=True, exist_ok=True)`: creates `p` and every missing ancestor;
      raises when a file stands at `p` or at one of its ancestors. */
  function MakeDirs(fs: Fs, p: Path): (r: FsResult)
    ensures r.FsErr? <==> exists i :: 0 < i <= |p| && p[..i] in fs.files
    ensures r.FsOk? ==> && r.fs.files == fs.files
                        && r.fs.dirs == fs.dirs + Ancestors(p)
                        && Exists(r.fs, p) && (p == [] || (p in r.fs.dirs && p !in r.fs.files))
  {
    if exists i :: 0 < i <= |p| && p[..i] in fs.files then
      FsErr(NotADirectory(p))
    else
      assert |p| > 0 ==> p[..|p|] == p;
      FsOk(fs.(dirs := fs.dirs + Ancestors(p)))
  }

  /** Creating a directory that is already there changes nothing, so calling
      `mkdir(parents=True, exist_ok=True)` once per item is harmless. */
  lemma MakeDirsIdempotent(fs: Fs, p: Path)
    requires MakeDirs(fs, p).FsOk?
    ensures MakeDirs(MakeDirs(fs, p).fs, p) == MakeDirs(fs, p)
  {
    var fs' := MakeDirs(fs, p).fs;
    assert fs'.dirs + Ancestors(p) == fs'.dirs;
  }

  /** `mkdir` keeps the disk well formed. */
  lemma MakeDirsWellFormed(fs: Fs, p: Path)
    requires WellFormed(fs) && MakeDirs(fs, p).FsOk?
    ensures WellFormed(MakeDirs(fs, p).fs)
  {
    var fs' := MakeDirs(fs, p).fs;
    forall q | q in fs'.files ensures q !in fs'.dirs {
      assert q !in fs.dirs by { assert q !in fs.files * fs.dirs; }
    }
    forall q, i | q in fs'.dirs && 0 < i < |q| ensures q[..i] in fs'.dirs {
      if q in Ancestors(p) {
        assert q[..i] == p[..i];
      }
    }
  }

  /** `p.unlink()`: removes a file; raises on a directory or on nothing. */
  function Unlink(fs: Fs, p: Path): (r: FsResult)
    ensures r.FsOk? <==> p in fs.files
    ensures r.FsOk? ==> r.fs.files == fs.files - {p} && r.fs.dirs == fs.dirs
  {
    if p in fs.files then FsOk(fs.(files := fs.files - {p}))
    else if Exists(fs, p) then FsErr(IsADirectory(p))
    else FsErr(NotFound(p))
  }

  /** `shutil.move(src, dst)` of a file to a free path in an existing directory: the
      file changes name and nothing else changes. */
  function MoveFile(fs: Fs, src: Path, dst: Path): (r: FsResult)
    ensures r.FsOk? <==> src in fs.files && |dst| > 0 && !Exists(fs, dst) && Exists(fs, dst[..|dst| - 1])
    ensures r.FsOk? ==> r.fs.files == fs.files - {src} + {dst} && r.fs.dirs == fs.dirs
  {
    if src !in fs.files then FsErr(NotFound(src))
    else if |dst| == 0 || Exists(fs, dst) then FsErr(NotADirectory(dst))
    else if !Exists(fs, dst[..|dst| - 1]) then FsErr(NotFound(dst[..|dst| - 1]))
    else FsOk(fs.(files := fs.files - {src} + {dst}))
  }
}
