/** What the mover does when the destination already holds a file of the same name:
    skip the item, delete the old file, or keep both by choosing `stem_k.suffix` for the
    smallest free `k`. */
module Duplicates {
  import opened Options
  import opened Text
  import opened FileSystem

  /** The index of the last `.` in `name` (`str.rfind`). */
  function LastDot(name: string): (r: Option<nat>)
    ensures r.Some? ==> r.value < |name| && name[r.value] == '.' && '.' !in name[r.value + 1..]
    ensures r.None? ==> '.' !in name
    decreases |name|
  {
    if |name| == 0 then None
    else if name[|name| - 1] == '.' then Some(|name| - 1)
    else
      var r := LastDot(name[..|name| - 1]);
      assert r.Some? ==> name[r.value + 1..] == name[..|name| - 1][r.value + 1..] + [name[|name| - 1]];
      assert r.None? ==> name == name[..|name| - 1] + [name[|name| - 1]];
      r
  }

  /** Where `PurePath.suffix` starts: the last dot, unless it is the first character
      (a hidden file such as `.profile`) or the last one. */
  function SuffixStart(name: string): (r: Option<nat>)
    ensures r.Some? ==> 0 < r.value < |name| - 1 && name[r.value] == '.'
  {
    match LastDot(name)
    case Some(i) => if 0 < i < |name| - 1 then Some(i) else None
    case None => None
  }

  /** `PurePath.stem`. */
  function Stem(name: string): string {
    match SuffixStart(name)
    case Some(i) => name[..i]
    case None => name
  }

  /** `PurePath.suffix`. */
  function Suffix(name: string): string {
    match SuffixStart(name)
    case Some(i) => name[i..]
    case None => ""
  }

  /** The stem and the suffix split the name: together they restore it, the suffix is
      empty or a dot followed by at least one character and no further dot, and the
      stem is never empty when the name is not. */
  lemma StemSuffixSplit(name: string)
    ensures Stem(name) + Suffix(name) == name
    ensures Suffix(name) == "" || (|Suffix(name)| >= 2 && Suffix(name)[0] == '.' && '.' !in Suffix(name)[1..])
    ensures |name| > 0 ==> |Stem(name)| > 0
  {
    match SuffixStart(name)
    case Some(i) =>
      assert name[..i] + name[i..] == name;
      assert name[i..][1..] == name[i + 1..];
    case None =>
      assert name + "" == name;
  }

  /** The `k`-th name tried: `f"{stem}_{k}{suffix}"`. */
  function Candidate(stem: string, k: nat, suffix: string): string {
    stem + "_" + NatToDecimal(k) + suffix
  }

  /** Different counters give different names, so the probe never retries a name. */
  lemma CandidateInjective(stem: string, j: nat, k: nat, suffix: string)
    requires Candidate(stem, j, suffix) == Candidate(stem, k, suffix)
    ensures j == k
  {
    var a, b := Candidate(stem, j, suffix), Candidate(stem, k, suffix);
    var dj, dk := NatToDecimal(j), NatToDecimal(k);
    assert |dj| == |dk|;
    var lo, hi := |stem| + 1, |stem| + 1 + |dj|;
    assert a[lo..hi] == dj;
    assert b[lo..hi] == dk;
    DecimalInjective(j, k);
  }

  /** The paths of the candidates before the `k`-th. */
  function TriedPaths(folder: Path, stem: string, suffix: string, k: nat): set<Path> {
    set j | 1 <= j < k :: folder + [Candidate(stem, j, suffix)]
  }

  /** Everything on the disk. */
  function Taken(fs: Fs): set<Path> {
    fs.files + fs.dirs
  }

  /** The first counter from `k` on whose name is free in `folder`. It exists because the
      disk holds finitely many paths and every counter names a different one. */
  function ProbeFrom(fs: Fs, folder: Path, stem: string, suffix: string, k: nat): (r: nat)
    requires k >= 1
    ensures r >= k
    ensures !Exists(fs, folder + [Candidate(stem, r, suffix)])
    ensures forall j :: k <= j < r ==> Exists(fs, folder + [Candidate(stem, j, suffix)])
    decreases |Taken(fs) - TriedPaths(folder, stem, suffix, k)|
  {
    var p := folder + [Candidate(stem, k, suffix)];
    if !Exists(fs, p) then k
    else
      ProbeShrinks(fs, folder, stem, suffix, k);
      ProbeFrom(fs, folder, stem, suffix, k + 1)
  }

  /** Each name found taken leaves one fewer taken path to run into. */
  lemma ProbeShrinks(fs: Fs, folder: Path, stem: string, suffix: string, k: nat)
    requires k >= 1 && Exists(fs, folder + [Candidate(stem, k, suffix)])
    ensures |Taken(fs) - TriedPaths(folder, stem, suffix, k + 1)| < |Taken(fs) - TriedPaths(folder, stem, suffix, k)|
  {
    var p := folder + [Candidate(stem, k, suffix)];
    var before, after := Taken(fs) - TriedPaths(folder, stem, suffix, k), Taken(fs) - TriedPaths(folder, stem, suffix, k + 1);
    assert p in Taken(fs);
    assert p !in TriedPaths(folder, stem, suffix, k) by {
      if p in TriedPaths(folder, stem, suffix, k) {
        var j :| 1 <= j < k && p == folder + [Candidate(stem, j, suffix)];
        assert p[|folder|] == Candidate(stem, j, suffix);
        CandidateInjective(stem, j, k, suffix);
      }
    }
    assert after == before - {p};
  }

  /** The name `keep_both` gives the incoming file when `name` is taken in `folder`: the
      name for the smallest counter, from 1, that is free. */
  function KeepBothName(fs: Fs, folder: Path, name: string): (r: string)
    ensures !Exists(fs, folder + [r])
    ensures |r| > |Suffix(name)| && r[|r| - |Suffix(name)|..] == Suffix(name)
    ensures |r| > |Stem(name)| && r[..|Stem(name)| + 1] == Stem(name) + "_"
    ensures exists k :: && k >= 1 && r == Candidate(Stem(name), k, Suffix(name))
                        && forall j :: 1 <= j < k ==> Exists(fs, folder + [Candidate(Stem(name), j, Suffix(name))])
  {
    var k := ProbeFrom(fs, folder, Stem(name), Suffix(name), 1);
    Candidate(Stem(name), k, Suffix(name))
  }

  /** With `photo.jpg` and `photo_1.jpg` already in the folder, an incoming `photo.jpg`
      is kept as `photo_2.jpg`. */
  lemma KeepBothExample(folder: Path)
    ensures var fs := Fs({folder + ["photo.jpg"], folder + ["photo_1.jpg"]}, {});
      KeepBothName(fs, folder, "photo.jpg") == "photo_2.jpg"
  {
    var fs := Fs({folder + ["photo.jpg"], folder + ["photo_1.jpg"]}, {});
    var name := "photo.jpg";
    assert LastDot(name) == Some(5);
    assert Stem(name) == "photo" && Suffix(name) == ".jpg";
    assert NatToDecimal(1) == "1" && NatToDecimal(2) == "2";
    assert Candidate("photo", 1, ".jpg") == "photo_1.jpg";
    assert Candidate("photo", 2, ".jpg") == "photo_2.jpg";
    assert folder + ["photo_2.jpg"] != folder + ["photo.jpg"] by {
      assert (folder + ["photo_2.jpg"])[|folder|] == "photo_2.jpg";
    }
    assert folder + ["photo_2.jpg"] != folder + ["photo_1.jpg"] by {
      assert (folder + ["photo_2.jpg"])[|folder|] == "photo_2.jpg";
    }
    assert ProbeFrom(fs, folder, "photo", ".jpg", 2) == 2;
    assert ProbeFrom(fs, folder, "photo", ".jpg", 1) == 2;
  }

  /** What happens before the copy when something already has the file's name. */
  datatype Preparation =
    | SkipExisting                         // "skip": the item is counted as skipped
    | Ready(fs: Fs, target: Path)          // copy, and leave the file at `target`
    | RemoveFailed(error: FsError)         // "overwrite" could not delete the old entry

  /** The duplicate policy of the move loop, applied to `folder / filename`. A mode other
      than the three known ones leaves the old file for the copy to replace. */
  function PrepareTarget(fs: Fs, folder: Path, filename: string, mode: string): (r: Preparation)
    ensures !Exists(fs, folder + [filename]) ==> r == Ready(fs, folder + [filename])
    ensures r.SkipExisting? <==> Exists(fs, folder + [filename]) && mode == "skip"
    ensures r.RemoveFailed? ==> mode == "overwrite" && folder + [filename] !in fs.files
    ensures r.Ready? && mode != "keep_both" ==> r.target == folder + [filename]
    ensures r.Ready? ==> r.fs.dirs == fs.dirs && r.fs.files <= fs.files
    ensures r.Ready? ==> r.fs.files >= fs.files - {folder + [filename]}
    ensures r.Ready? && mode == "overwrite" ==> r.target !in r.fs.files
    ensures r.Ready? && Exists(fs, folder + [filename]) && mode == "keep_both" ==>
      && r.fs == fs && r.target == folder + [KeepBothName(fs, folder, filename)] && !Exists(fs, r.target)
  {
    var expected := folder + [filename];
    if !Exists(fs, expected) then Ready(fs, expected)
    else if mode == "skip" then SkipExisting
    else if mode == "overwrite" then
      match Unlink(fs, expected)
      case FsOk(fs') => Ready(fs', expected)
      case FsErr(e) => RemoveFailed(e)
    else if mode == "keep_both" then Ready(fs, folder + [KeepBothName(fs, folder, filename)])
    else Ready(fs, expected)
  }
}
