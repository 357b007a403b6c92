/** The move loop (`_move_photos_thread`): each selected item is placed in its dated
    folder, the duplicate policy is applied, the file is copied from the device and
    watched until it lands, a `keep_both` copy is renamed, and the copy's times are
    stamped; the loop counts what was moved, skipped and failed, and keeps one error line
    per failure, in order. */
module Batch {
  import opened Options
  import opened Text
  import opened CaptureDate
  import opened FileSystem
  import opened Placement
  import opened Duplicates
  import opened Monitor
  import opened Metadata

  /** The settings the loop reads: the sort mode, the output base, the Unknown folder,
      the duplicate mode, the timestamp parser of the back-writer, and the catalogue
      (`photo_data`) its fallback searches. */
  datatype Settings = Settings(
    sortMode: string, base: Path, unknownFolder: Path, duplicateMode: string,
    parse: StampParser, catalogue: seq<MediaItem>)

  /** What the device and the shell do for one item: whether `NameSpace` can open the
      destination, whether `CopyHere` raises (and with what message), what the watcher
      sees tick by tick, and what the back-writer can find. */
  datatype ItemWorld = ItemWorld(
    reachable: bool, copyRaises: Option<string>, trace: seq<Observation>, metadata: MetadataWorld)

  /** One selected item together with what happens to it. */
  datatype Job = Job(item: MediaItem, world: ItemWorld)

  /** Why an item ended up in the error list. */
  datatype Failure =
    | FolderNotCreated(error: FsError)       // `mkdir` raised in `get_destination_folder`
    | OldFileNotRemoved(error: FsError)      // "overwrite": `unlink` raised
    | CannotAccess(folder: Path)             // `NameSpace` returned nothing
    | CopyRaised(message: string)            // `CopyHere` raised
    | StatRaised(message: string)            // `stat` raised while watching
    | TimedOut                               // the wait's `else`
    | RenameFailed(error: FsError)           // the `keep_both` rename raised

  /** An entry of `error_details`: the file's name and why it failed. */
  datatype ErrorDetail = ErrorDetail(filename: string, failure: Failure)

  /** How one item ended. A moved item records where the file is, its size, and what the
      back-writer did (None when the item has no parent folder, so it was not called). */
  datatype Outcome =
    | Moved(final: Path, size: nat, stamp: Option<MetadataResult>)
    | Skipped
    | Failed(failure: Failure)

  /** The outcome of one item and the disk after it. */
  datatype Step = Step(outcome: Outcome, fs: Fs)

  /** Which loop body runs: the program's, whose `keep_both` copy still lands on
      `folder / filename` before it is renamed, or the corrected one, whose copy lands
      under the name the duplicate policy chose. The two differ only for `keep_both` on
      a taken name (`AsWrittenAgreesElsewhere`). */
  datatype Body = AsWritten | Corrected

  /** `dest_folder.CopyHere(file_obj, 16)`: a file named `filename` appears in `folder`,
      replacing whatever file had that name (flag 16 answers "yes" to every prompt). */
  function Landed(fs: Fs, copied: Path): (r: Fs)
    ensures r.files == fs.files + {copied} && r.dirs == fs.dirs
  {
    fs.(files := fs.files + {copied})
  }

  /** What the back-writer did for a moved item: None when the item has no parent folder,
      so it was not called. Its exceptions are only logged, so it never fails the item. */
  function StampOf(s: Settings, job: Job): (r: Option<MetadataResult>)
    ensures r.Some? <==> job.item.hasParentFolder
  {
    if job.item.hasParentFolder
    then Some(PreserveMetadata(s.parse, job.world.metadata, s.catalogue, job.item.filename))
    else None
  }

  /** After the copy is complete: the `keep_both` rename of `copied` to `target` when they
      differ (removing whatever is at `target` first), then the back-writer. */
  function Finish(fs: Fs, s: Settings, job: Job, copied: Path, target: Path, size: nat): (r: Step)
    requires copied in fs.files
    ensures r.outcome.Moved? ==> r.outcome.final in r.fs.files && r.outcome.size == size && r.outcome.stamp == StampOf(s, job)
    ensures s.duplicateMode != "keep_both" || target == copied ==> r == Step(Moved(copied, size, StampOf(s, job)), fs)
    ensures s.duplicateMode == "keep_both" && target != copied && |target| > 0
            && !Exists(fs, target) && Exists(fs, target[..|target| - 1]) ==>
      && r.outcome == Moved(target, size, StampOf(s, job))
      && r.fs.files == fs.files - {copied} + {target} && r.fs.dirs == fs.dirs
    ensures !r.outcome.Moved? ==> r.outcome.Failed? && r.outcome.failure.RenameFailed?
  {
    if s.duplicateMode == "keep_both" && target != copied then
      var cleared := if Exists(fs, target) then Unlink(fs, target) else FsOk(fs);
      match cleared
      case FsErr(e) => Step(Failed(RenameFailed(e)), fs)
      case FsOk(fs') =>
        match MoveFile(fs', copied, target)
        case FsErr(e) => Step(Failed(RenameFailed(e)), fs')
        case FsOk(fs'') => Step(Moved(target, size, StampOf(s, job)), fs'')
    else Step(Moved(copied, size, StampOf(s, job)), fs)
  }

  /** Where the copy lands: `folder / filename` as written, the target when corrected. */
  function CopiedPath(body: Body, folder: Path, filename: string, target: Path): Path {
    if body == Corrected then target else folder + [filename]
  }

  /** The copy and the wait, once the target is settled: `NameSpace`, `CopyHere`, the
      watcher, then `Finish`. */
  function Deliver(fs: Fs, s: Settings, job: Job, folder: Path, target: Path, body: Body): (r: Step)
    ensures !r.outcome.Skipped?
    ensures job.world.reachable && job.world.copyRaises.None? && Watching(job.world.trace).result.Stable?
            <==> r.outcome.Moved? || (r.outcome.Failed? && r.outcome.failure.RenameFailed?)
    ensures !job.world.reachable ==> r == Step(Failed(CannotAccess(folder)), fs)
    ensures job.world.reachable && job.world.copyRaises.Some? ==>
      r == Step(Failed(CopyRaised(job.world.copyRaises.value)), fs)
    ensures job.world.reachable && job.world.copyRaises.None? && Watching(job.world.trace).result.TimedOut? ==>
      r == Step(Failed(Failure.TimedOut), fs)
    ensures job.world.reachable && job.world.copyRaises.None? && Watching(job.world.trace).result.StatError? ==>
      r == Step(Failed(StatRaised(Watching(job.world.trace).result.message)), fs)
    ensures r.outcome.Moved? ==> r.outcome.size == Watching(job.world.trace).result.size
  {
    if !job.world.reachable then Step(Failed(CannotAccess(folder)), fs)
    else if job.world.copyRaises.Some? then Step(Failed(CopyRaised(job.world.copyRaises.value)), fs)
    else
      match Watching(job.world.trace).result
      case TimedOut => Step(Failed(Failure.TimedOut), fs)
      case StatError(_, m) => Step(Failed(StatRaised(m)), fs)
      case Stable(_, size) =>
        var copied := CopiedPath(body, folder, job.item.filename, target);
        Finish(Landed(fs, copied), s, job, copied, target, size)
  }

  /** `get_destination_folder` with the settings' sort mode and folders. */
  function Place(fs: Fs, s: Settings, item: MediaItem): Destination {
    DestinationFolder(fs, item.date, s.sortMode, s.base, s.unknownFolder)
  }

  /** One pass of the loop body. */
  function ProcessWith(fs: Fs, s: Settings, job: Job, body: Body): (r: Step)
    ensures r.outcome.Skipped? <==>
      (Place(fs, s, job.item).Destination? && s.duplicateMode == "skip"
       && Exists(Place(fs, s, job.item).fs, Place(fs, s, job.item).folder + [job.item.filename]))
  {
    match Place(fs, s, job.item)
    case DestinationError(e) => Step(Failed(FolderNotCreated(e)), fs)
    case Destination(fs1, folder) =>
      match PrepareTarget(fs1, folder, job.item.filename, s.duplicateMode)
      case SkipExisting => Step(Skipped, fs1)
      case RemoveFailed(e) => Step(Failed(OldFileNotRemoved(e)), fs1)
      case Ready(fs2, target) => Deliver(fs2, s, job, folder, target, body)
  }

  /** The loop body as written: `CopyHere` always writes `folder / filename`, and a
      `keep_both` copy is renamed afterwards. */
  function ProcessAsWritten(fs: Fs, s: Settings, job: Job): (r: Step)
    ensures r == ProcessWith(fs, s, job, AsWritten)
    ensures r.outcome.Skipped? <==>
      (Place(fs, s, job.item).Destination? && s.duplicateMode == "skip"
       && Exists(Place(fs, s, job.item).fs, Place(fs, s, job.item).folder + [job.item.filename]))
  {
    ProcessWith(fs, s, job, AsWritten)
  }

  /** The loop body with the `keep_both` copy written under its new name, so the file
      that was already there stays. For every other mode, and whenever the name is free,
      it is the loop body as written (`AsWrittenAgreesElsewhere`). */
  function ProcessItem(fs: Fs, s: Settings, job: Job): (r: Step)
    ensures r == ProcessWith(fs, s, job, Corrected)
    ensures r.outcome.Skipped? <==>
      (Place(fs, s, job.item).Destination? && s.duplicateMode == "skip"
       && Exists(Place(fs, s, job.item).fs, Place(fs, s, job.item).folder + [job.item.filename]))
  {
    ProcessWith(fs, s, job, Corrected)
  }

  /** A moved item's file is on the disk, in its dated folder, under its own name, or
      under the first free `stem_k` name when `keep_both` found the name taken. Every
      other file stays. The file that had the name stays under the corrected body and
      is gone under the body as written. */
  lemma MovedPlacement(fs: Fs, s: Settings, job: Job, body: Body)
    requires ProcessWith(fs, s, job, body).outcome.Moved?
    ensures var r, d, name := ProcessWith(fs, s, job, body), Place(fs, s, job.item), job.item.filename;
      && d.Destination?
      && r.outcome.final in r.fs.files
      && |r.outcome.final| > 0 && r.outcome.final[..|r.outcome.final| - 1] == d.folder
      && (s.duplicateMode != "keep_both" || !Exists(d.fs, d.folder + [name]) ==> r.outcome.final == d.folder + [name])
      && (s.duplicateMode == "keep_both" && Exists(d.fs, d.folder + [name]) ==>
            r.outcome.final == d.folder + [KeepBothName(d.fs, d.folder, name)])
      && (forall p :: p in d.fs.files && p != d.folder + [name] ==> p in r.fs.files)
      && (s.duplicateMode == "keep_both" && d.folder + [name] in d.fs.files ==>
            (d.folder + [name] in r.fs.files <==> body == Corrected))
  {
    var d, name := Place(fs, s, job.item), job.item.filename;
    var prep := PrepareTarget(d.fs, d.folder, name, s.duplicateMode);
    var target := prep.target;
    var size := Watching(job.world.trace).result.size;
    var copied := CopiedPath(body, d.folder, name, target);
    assert ProcessWith(fs, s, job, body) == Finish(Landed(prep.fs, copied), s, job, copied, target, size);
    if s.duplicateMode == "keep_both" && Exists(d.fs, d.folder + [name]) && body == AsWritten {
      KeepBothRenameWorks(fs, s, job);
    }
  }

  /** As written, a `keep_both` copy onto a taken name lands on the old file, and the
      rename to the free `stem_k` name then goes through. */
  lemma KeepBothRenameWorks(fs: Fs, s: Settings, job: Job)
    requires s.duplicateMode == "keep_both"
    requires Place(fs, s, job.item).Destination?
    requires Exists(Place(fs, s, job.item).fs, Place(fs, s, job.item).folder + [job.item.filename])
    ensures var d, name := Place(fs, s, job.item), job.item.filename;
      var prep := PrepareTarget(d.fs, d.folder, name, s.duplicateMode);
      var copied, landed := d.folder + [name], Landed(d.fs, d.folder + [name]);
      && prep.Ready? && prep.fs == d.fs
      && prep.target == d.folder + [KeepBothName(d.fs, d.folder, name)]
      && prep.target != copied && |prep.target| > 0 && prep.target[..|prep.target| - 1] == d.folder
      && !Exists(landed, prep.target) && Exists(landed, d.folder)
  {
    var d, name := Place(fs, s, job.item), job.item.filename;
    var copied := d.folder + [name];
    var prep := PrepareTarget(d.fs, d.folder, name, s.duplicateMode);
    var target := prep.target;
    assert !Exists(d.fs, target);
    assert target != copied;
    assert target[..|target| - 1] == d.folder;
  }

  /** An item is moved exactly when its folder could be made, the duplicate policy let it
      through, the destination could be opened, `CopyHere` did not raise, and the watcher
      saw the copy complete; this holds for the body as written and the corrected one. */
  lemma MovedExactlyWhen(fs: Fs, s: Settings, job: Job, body: Body)
    ensures ProcessWith(fs, s, job, body).outcome.Moved? <==>
      && Place(fs, s, job.item).Destination?
      && PrepareTarget(Place(fs, s, job.item).fs, Place(fs, s, job.item).folder, job.item.filename, s.duplicateMode).Ready?
      && job.world.reachable && job.world.copyRaises.None? && Watching(job.world.trace).result.Stable?
  {
    var d := Place(fs, s, job.item);
    if d.Destination? {
      var prep := PrepareTarget(d.fs, d.folder, job.item.filename, s.duplicateMode);
      if prep.Ready? && job.world.reachable && job.world.copyRaises.None? && Watching(job.world.trace).result.Stable? {
        var size := Watching(job.world.trace).result.size;
        var copied := CopiedPath(body, d.folder, job.item.filename, prep.target);
        assert Deliver(prep.fs, s, job, d.folder, prep.target, body)
          == Finish(Landed(prep.fs, copied), s, job, copied, prep.target, size);
        if s.duplicateMode == "keep_both" && Exists(d.fs, d.folder + [job.item.filename]) && body == AsWritten {
          KeepBothRenameWorks(fs, s, job);
        }
      }
    }
  }

  /** Outside `keep_both` with a taken name, the corrected loop body is the one written. */
  lemma AsWrittenAgreesElsewhere(fs: Fs, s: Settings, job: Job)
    requires Place(fs, s, job.item).Destination?
    requires s.duplicateMode != "keep_both" || !Exists(Place(fs, s, job.item).fs, Place(fs, s, job.item).folder + [job.item.filename])
    ensures ProcessAsWritten(fs, s, job) == ProcessItem(fs, s, job)
  {
    var d := Place(fs, s, job.item);
    var prep := PrepareTarget(d.fs, d.folder, job.item.filename, s.duplicateMode);
    if prep.Ready? {
      assert prep.target == d.folder + [job.item.filename];
    }
  }

  /** As written, `keep_both` does not keep both: when `photo.jpg` is already in the
      folder, the copy lands on it and the rename then carries the new file away, so
      after a successful move nothing named `photo.jpg` is left. */
  lemma KeepBothLosesOriginal(fs: Fs, s: Settings, job: Job)
    requires s.duplicateMode == "keep_both"
    requires Place(fs, s, job.item).Destination?
    requires Place(fs, s, job.item).folder + [job.item.filename] in Place(fs, s, job.item).fs.files
    requires job.world.reachable && job.world.copyRaises.None? && Watching(job.world.trace).result.Stable?
    ensures ProcessAsWritten(fs, s, job).outcome.Moved?
    ensures Place(fs, s, job.item).folder + [job.item.filename] !in ProcessAsWritten(fs, s, job).fs.files
  {
    MovedExactlyWhen(fs, s, job, AsWritten);
    MovedPlacement(fs, s, job, AsWritten);
  }

  /** Corrected, `keep_both` keeps both: the file that was there is untouched and the
      new one sits beside it under the first free `stem_k` name. */
  lemma KeepBothKeepsOriginal(fs: Fs, s: Settings, job: Job)
    requires s.duplicateMode == "keep_both"
    requires Place(fs, s, job.item).Destination?
    requires Place(fs, s, job.item).folder + [job.item.filename] in Place(fs, s, job.item).fs.files
    requires job.world.reachable && job.world.copyRaises.None? && Watching(job.world.trace).result.Stable?
    ensures var d, r := Place(fs, s, job.item), ProcessItem(fs, s, job);
      && r.outcome.Moved?
      && d.folder + [job.item.filename] in r.fs.files
      && r.outcome.final == d.folder + [KeepBothName(d.fs, d.folder, job.item.filename)]
      && r.outcome.final in r.fs.files
      && r.outcome.final != d.folder + [job.item.filename]
  {
    MovedExactlyWhen(fs, s, job, Corrected);
    MovedPlacement(fs, s, job, Corrected);
    var d := Place(fs, s, job.item);
    assert !Exists(d.fs, d.folder + [KeepBothName(d.fs, d.folder, job.item.filename)]);
  }

  /** The back-writer decides nothing about the move: whatever it can or cannot find,
      the item ends the same way and the disk is left the same, under either body. */
  lemma StampIndependent(fs: Fs, s: Settings, job: Job, other: MetadataWorld, body: Body)
    ensures var a, b := ProcessWith(fs, s, job, body), ProcessWith(fs, s, job.(world := job.world.(metadata := other)), body);
      && a.fs == b.fs
      && a.outcome.Moved? == b.outcome.Moved? && a.outcome.Skipped? == b.outcome.Skipped?
      && (a.outcome.Failed? ==> a.outcome == b.outcome)
      && (a.outcome.Moved? ==> a.outcome.final == b.outcome.final && a.outcome.size == b.outcome.size)
  {
    var job' := job.(world := job.world.(metadata := other));
    var d := Place(fs, s, job.item);
    if d.Destination? {
      var prep := PrepareTarget(d.fs, d.folder, job.item.filename, s.duplicateMode);
      if prep.Ready? {
        assert ProcessWith(fs, s, job, body) == Deliver(prep.fs, s, job, d.folder, prep.target, body);
        assert ProcessWith(fs, s, job', body) == Deliver(prep.fs, s, job', d.folder, prep.target, body);
        if job.world.reachable && job.world.copyRaises.None? && Watching(job.world.trace).result.Stable? {
          var size := Watching(job.world.trace).result.size;
          var copied := CopiedPath(body, d.folder, job.item.filename, prep.target);
          FinishIgnoresStamp(Landed(prep.fs, copied), s, job, job', copied, prep.target, size);
        }
      }
    }
  }

  /** The rename does not look at what the back-writer can find. */
  lemma FinishIgnoresStamp(fs: Fs, s: Settings, job: Job, job': Job, copied: Path, target: Path, size: nat)
    requires copied in fs.files
    ensures var a, b := Finish(fs, s, job, copied, target, size), Finish(fs, s, job', copied, target, size);
      && a.fs == b.fs && a.outcome.Moved? == b.outcome.Moved?
      && (a.outcome.Failed? ==> a.outcome == b.outcome)
      && (a.outcome.Moved? ==> a.outcome.final == b.outcome.final && a.outcome.size == b.outcome.size)
  {
  }

  /** The outcomes of a run and the disk after it. */
  datatype Run = Run(outcomes: seq<Outcome>, fs: Fs)

  /** Reference definition of a loop over the items: each item is handled by `step` on
      the disk the items before it left behind. `RunWith(step, fs, jobs, n)` is the run
      of the first `n`. */
  function RunWith(step: (Fs, Job) -> Step, fs: Fs, jobs: seq<Job>, n: nat): (r: Run)
    requires n <= |jobs|
    ensures |r.outcomes| == n
  {
    if n == 0 then Run([], fs)
    else
      var before := RunWith(step, fs, jobs, n - 1);
      var next := step(before.fs, jobs[n - 1]);
      Run(before.outcomes + [next.outcome], next.fs)
  }

  /** The loop body as a step of the loop. */
  function ItemStep(s: Settings, body: Body): (Fs, Job) -> Step {
    (d: Fs, job: Job) => ProcessWith(d, s, job, body)
  }

  /** The run of the first `n` items. */
  function RunPrefix(fs: Fs, s: Settings, jobs: seq<Job>, n: nat, body: Body): (r: Run)
    requires n <= |jobs|
    ensures |r.outcomes| == n
  {
    RunWith(ItemStep(s, body), fs, jobs, n)
  }

  /** The run of every item. */
  function RunJobs(fs: Fs, s: Settings, jobs: seq<Job>, body: Body): (r: Run)
    ensures |r.outcomes| == |jobs|
  {
    RunPrefix(fs, s, jobs, |jobs|, body)
  }

  /** The number of outcomes of each kind. */
  function CountMoved(outcomes: seq<Outcome>): nat {
    if |outcomes| == 0 then 0
    else CountMoved(outcomes[..|outcomes| - 1]) + (if outcomes[|outcomes| - 1].Moved? then 1 else 0)
  }

  function CountSkipped(outcomes: seq<Outcome>): nat {
    if |outcomes| == 0 then 0
    else CountSkipped(outcomes[..|outcomes| - 1]) + (if outcomes[|outcomes| - 1].Skipped? then 1 else 0)
  }

  /** The error lines of a run: one per failed item, in the order of the items. The
      `k`-th outcome is that of the `k`-th item. */
  function Details(jobs: seq<Job>, outcomes: seq<Outcome>): (r: seq<ErrorDetail>)
    requires |outcomes| <= |jobs|
  {
    if |outcomes| == 0 then []
    else
      var n := |outcomes| - 1;
      var rest := Details(jobs, outcomes[..n]);
      if outcomes[n].Failed? then rest + [ErrorDetail(jobs[n].item.filename, outcomes[n].failure)] else rest
  }

  /** What the loop reports at the end. */
  datatype Summary = Summary(moved: nat, skipped: nat, errors: nat, details: seq<ErrorDetail>, fs: Fs)

  /** The tallies of a run with one more outcome. */
  lemma TallyExtends(jobs: seq<Job>, outcomes: seq<Outcome>, o: Outcome)
    requires |outcomes| < |jobs|
    ensures CountMoved(outcomes + [o]) == CountMoved(outcomes) + (if o.Moved? then 1 else 0)
    ensures CountSkipped(outcomes + [o]) == CountSkipped(outcomes) + (if o.Skipped? then 1 else 0)
    ensures Details(jobs, outcomes + [o])
      == Details(jobs, outcomes) + (if o.Failed? then [ErrorDetail(jobs[|outcomes|].item.filename, o.failure)] else [])
  {
    assert (outcomes + [o])[..|outcomes|] == outcomes;
  }

  /** The loop of `_move_photos_thread` over any loop body `step`: it processes the items
      in order on the disk the earlier ones left, and counts the outcomes. */
  method MoveLoop(step: (Fs, Job) -> Step, fs: Fs, jobs: seq<Job>) returns (r: Summary)
    ensures r.fs == RunWith(step, fs, jobs, |jobs|).fs
    ensures r.moved == CountMoved(RunWith(step, fs, jobs, |jobs|).outcomes)
    ensures r.skipped == CountSkipped(RunWith(step, fs, jobs, |jobs|).outcomes)
    ensures r.details == Details(jobs, RunWith(step, fs, jobs, |jobs|).outcomes)
    ensures r.errors == |r.details|
    ensures r.moved + r.skipped + r.errors == |jobs|
  {
    var disk := fs;
    var moved, skipped, errors := 0, 0, 0;
    var details: seq<ErrorDetail> := [];
    ghost var outcomes: seq<Outcome> := [];
    var i := 0;
    while i < |jobs|
      invariant 0 <= i <= |jobs|
      invariant RunWith(step, fs, jobs, i) == Run(outcomes, disk)
      invariant |outcomes| == i
      invariant moved == CountMoved(outcomes)
      invariant skipped == CountSkipped(outcomes)
      invariant details == Details(jobs, outcomes)
      invariant errors == |details|
      invariant moved + skipped + errors == i
    {
      var next := step(disk, jobs[i]);
      assert RunWith(step, fs, jobs, i + 1) == Run(outcomes + [next.outcome], next.fs);
      TallyExtends(jobs, outcomes, next.outcome);
      match next.outcome {
        case Moved(_, _, _) =>
          moved := moved + 1;
        case Skipped =>
          skipped := skipped + 1;
        case Failed(f) =>
          details := details + [ErrorDetail(jobs[i].item.filename, f)];
          errors := errors + 1;
      }
      outcomes := outcomes + [next.outcome];
      disk := next.fs;
      i := i + 1;
    }
    r := Summary(moved, skipped, errors, details, disk);
  }

  /** `_move_photos_thread`: processes the items in order and counts the outcomes. The
      program is `MovePhotos(fs, s, jobs, AsWritten)`. */
  method MovePhotos(fs: Fs, s: Settings, jobs: seq<Job>, body: Body) returns (r: Summary)
    ensures r.fs == RunJobs(fs, s, jobs, body).fs
    ensures r.moved == CountMoved(RunJobs(fs, s, jobs, body).outcomes)
    ensures r.skipped == CountSkipped(RunJobs(fs, s, jobs, body).outcomes)
    ensures r.details == Details(jobs, RunJobs(fs, s, jobs, body).outcomes)
    ensures r.errors == |r.details|
    ensures r.moved + r.skipped + r.errors == |jobs|
  {
    r := MoveLoop(ItemStep(s, body), fs, jobs);
  }

  /** The `i`-th item is processed on the disk as the items before it left it. */
  lemma OutcomeOfPrefix(fs: Fs, s: Settings, jobs: seq<Job>, i: nat, body: Body)
    requires i < |jobs|
    ensures RunJobs(fs, s, jobs, body).outcomes[i] == ProcessWith(RunPrefix(fs, s, jobs, i, body).fs, s, jobs[i], body).outcome
  {
    PrefixOutcome(ItemStep(s, body), fs, jobs, |jobs|, i);
  }

  /** Later items do not change the outcomes of earlier ones. */
  lemma {:induction false} PrefixOutcome(step: (Fs, Job) -> Step, fs: Fs, jobs: seq<Job>, n: nat, i: nat)
    requires i < n <= |jobs|
    ensures RunWith(step, fs, jobs, n).outcomes[i] == step(RunWith(step, fs, jobs, i).fs, jobs[i]).outcome
    decreases n
  {
    if i < n - 1 {
      PrefixOutcome(step, fs, jobs, n - 1, i);
    }
  }

  /** Every error line names a failed item and its failure. */
  lemma {:induction false} DetailsAreFailures(jobs: seq<Job>, outcomes: seq<Outcome>, e: ErrorDetail)
    requires |outcomes| <= |jobs| && e in Details(jobs, outcomes)
    ensures exists i :: 0 <= i < |outcomes| && outcomes[i].Failed? && e == ErrorDetail(jobs[i].item.filename, outcomes[i].failure)
    decreases |outcomes|
  {
    var n := |outcomes| - 1;
    if e in Details(jobs, outcomes[..n]) {
      DetailsAreFailures(jobs, outcomes[..n], e);
      var i :| 0 <= i < n && outcomes[..n][i].Failed? && e == ErrorDetail(jobs[i].item.filename, outcomes[..n][i].failure);
      assert outcomes[i] == outcomes[..n][i];
    } else {
      assert outcomes[n].Failed? && e == ErrorDetail(jobs[n].item.filename, outcomes[n].failure);
    }
  }

  /** Every failed item has its error line. */
  lemma {:induction false} FailuresAreDetailed(jobs: seq<Job>, outcomes: seq<Outcome>, i: nat)
    requires |outcomes| <= |jobs| && i < |outcomes| && outcomes[i].Failed?
    ensures ErrorDetail(jobs[i].item.filename, outcomes[i].failure) in Details(jobs, outcomes)
    decreases |outcomes|
  {
    var n := |outcomes| - 1;
    if i < n {
      FailuresAreDetailed(jobs, outcomes[..n], i);
      assert outcomes[..n][i] == outcomes[i];
    }
  }

  /** Every item is counted exactly once: as moved, as skipped, or as an error line. */
  lemma {:induction false} CountsCoverRun(jobs: seq<Job>, outcomes: seq<Outcome>)
    requires |outcomes| <= |jobs|
    ensures CountMoved(outcomes) + CountSkipped(outcomes) + |Details(jobs, outcomes)| == |outcomes|
    decreases |outcomes|
  {
    if |outcomes| > 0 {
      CountsCoverRun(jobs, outcomes[..|outcomes| - 1]);
    }
  }
}
