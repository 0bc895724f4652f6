/**
  The transactional updater: three files are replaced with backups, a journal, verification and
  reverse-order rollback, on a file system in which any operation may fail.
 */
module Installer {
  import opened Common
  import opened FaultyFs
  import opened Receipt

  /** Mode 0600: read and write for the owner. */
  const OWNER_ONLY := 384

  const MAX_ARCHIVE_BYTES := 256 * 1024 * 1024
  const RECEIPT_MAX_BYTES := 1024
  const RECEIPT_NAME := ".rustscale-install-receipt-v1"

  datatype UpdateError = Unsupported | FileSystemFailure | VersionVerification | Preserved
    | RollbackFailed(recovery: Dir)

  type Outcome = Result<(), UpdateError>

  datatype Payloads = Payloads(rustscale: Bytes, rustscaled: Bytes)

  // ----- the files of one update -----

  const NEW_NAMES := ["rustscale.new", "rustscaled.new", "receipt.new"]
  const BACKUP_NAMES := ["rustscale.backup", "rustscaled.backup", "receipt.backup"]
  const ROLLBACK_NAMES := ["rollback-0", "rollback-1", "rollback-2"]
  const JOURNAL := "journal-v1"
  const MARKER := "ROLLBACK-INCOMPLETE"

  /** One update: its targets and work directory, what the targets held and what they shall hold. */
  datatype Plan = Plan(targets: seq<Path>, work: Dir, olds: seq<Node>, news: seq<Node>)

  predicate ThreeTargets(targets: seq<Path>, work: Dir) {
    && |targets| == 3
    && (forall i | 0 <= i < 3 :: targets[i].dir != work)
    && (forall i, j | 0 <= i < j < 3 :: targets[i] != targets[j])
  }

  predicate GoodPlan(p: Plan) {
    && ThreeTargets(p.targets, p.work) && |p.olds| == 3 && |p.news| == 3
    && (forall i | 0 <= i < 3 :: p.olds[i].Regular? && p.news[i].Regular? && p.news[i].mode == p.olds[i].mode)
  }

  function Backup(work: Dir, i: nat): (r: Path)
    requires i < 3
    ensures r.dir == work
  {
    Path(work, BACKUP_NAMES[i])
  }

  function New(work: Dir, i: nat): (r: Path)
    requires i < 3
    ensures r.dir == work
  {
    Path(work, NEW_NAMES[i])
  }

  function Staged(work: Dir, i: nat): (r: Path)
    requires i < 3
    ensures r.dir == work
  {
    Path(work, ROLLBACK_NAMES[i])
  }

  /** The work files do not collide. */
  lemma WorkFilesApart(work: Dir, i: nat, j: nat)
    requires i < 3 && j < 3
    ensures Backup(work, i) != Staged(work, j) && Backup(work, i) != New(work, j)
    ensures i != j ==> Backup(work, i) != Backup(work, j) && New(work, i) != New(work, j)
    ensures Backup(work, i).name != JOURNAL && Backup(work, i).name != MARKER
    ensures New(work, i).name != JOURNAL && New(work, i).name != MARKER && Staged(work, i).name != JOURNAL
  {
    assert |NEW_NAMES[0]| == 13 && |NEW_NAMES[1]| == 14 && |NEW_NAMES[2]| == 11;
    assert |BACKUP_NAMES[0]| == 16 && |BACKUP_NAMES[1]| == 17 && |BACKUP_NAMES[2]| == 14;
    assert NEW_NAMES[1][1] == 'u' && BACKUP_NAMES[2][1] == 'e';
    assert |ROLLBACK_NAMES[i]| == 10 && ROLLBACK_NAMES[i][0] == 'r' && |ROLLBACK_NAMES[j]| == 10;
    assert |JOURNAL| == 10 && JOURNAL[0] == 'j' && |MARKER| == 19;
  }

  /** All three targets are as they were. */
  ghost predicate AllOld(p: Plan, files: Files)
    requires GoodPlan(p)
  {
    forall i | 0 <= i < 3 :: At(files, p.targets[i]) == Some(p.olds[i])
  }

  ghost predicate AllNew(p: Plan, files: Files)
    requires GoodPlan(p)
  {
    forall i | 0 <= i < 3 :: At(files, p.targets[i]) == Some(p.news[i])
  }

  /** All three backups hold exactly the original bytes and modes. */
  ghost predicate BackedUp(p: Plan, files: Files)
    requires GoodPlan(p)
  {
    forall i | 0 <= i < 3 :: At(files, Backup(p.work, i)) == Some(p.olds[i])
  }

  /** Each target is exactly its old or exactly its new self, and every original can be restored. */
  ghost predicate Recoverable(p: Plan, files: Files)
    requires GoodPlan(p)
  {
    && (forall i | 0 <= i < 3 ::
          At(files, p.targets[i]) == Some(p.olds[i]) || At(files, p.targets[i]) == Some(p.news[i]))
    && BackedUp(p, files)
  }

  /** Nothing outside the targets and the work directory differs. */
  ghost predicate Elsewhere(targets: seq<Path>, work: Dir, before: Files, after: Files) {
    forall q: Path | q !in targets && q.dir != work :: At(after, q) == At(before, q)
  }

  /** All states recorded from `from` on are recoverable. */
  ghost predicate RecoverableSince(p: Plan, trace: seq<Files>, from: nat)
    requires GoodPlan(p)
  {
    forall k | from <= k < |trace| :: Recoverable(p, trace[k])
  }

  /** Writing a work file other than a backup disturbs nothing that matters. */
  lemma WorkWriteKeeps(p: Plan, before: Files, after: Files, q: Path)
    requires GoodPlan(p) && OnlyAt(before, after, q) && q.dir == p.work
    requires forall i | 0 <= i < 3 :: q != Backup(p.work, i)
    ensures Recoverable(p, before) ==> Recoverable(p, after)
    ensures forall i | 0 <= i < 3 :: At(after, p.targets[i]) == At(before, p.targets[i])
  {
    hide Backup;
  }

  // ----- rollback -----

  /** Prepares the original of one target under its staging name. */
  method Stage(fs: FileSystem, targets: seq<Path>, work: Dir, ghost p: Plan, i: nat, mode: nat) returns (ok: bool)
    requires GoodPlan(p) && p.targets == targets && p.work == work
    requires i < 3 && mode == p.olds[i].mode
    requires fs.Valid() && p.work in fs.dirs && Recoverable(p, fs.files)
    modifies fs
    ensures fs.Valid() && fs.dirs == old(fs.dirs) && old(fs.trace) <= fs.trace
    ensures OnlyAt(old(fs.files), fs.files, Staged(p.work, i))
    ensures Recoverable(p, fs.files) && RecoverableSince(p, fs.trace, |old(fs.trace)|)
    ensures fs.Within(old(fs.clock), 3) && fs.Met() >= old(fs.Met()) && (ok <==> fs.Met() == old(fs.Met()))
    ensures ok ==> At(fs.files, Staged(p.work, i)) == Some(p.olds[i])
  {
    hide Backup, Staged, Recoverable, FileSystem.Met;
    var staged := Staged(work, i);
    ghost var before := fs.files;
    forall j | 0 <= j < 3 ensures staged != Backup(p.work, j) { WorkFilesApart(p.work, j, i); }
    forall after | OnlyAt(before, after, staged)
      ensures Recoverable(p, after) { WorkWriteKeeps(p, before, after, staged); }
    assert At(before, Backup(p.work, i)) == Some(p.olds[i]) by { BackupHolds(p, before, i); }
    ok := fs.Copy(Backup(work, i), staged);
    if !ok {
      return;
    }
    ok := fs.SetMode(staged, mode);
    if !ok {
      return;
    }
    ok := fs.SyncFile(staged);
  }

  lemma BackupHolds(p: Plan, files: Files, i: nat)
    requires GoodPlan(p) && Recoverable(p, files) && i < 3
    ensures At(files, Backup(p.work, i)) == Some(p.olds[i])
  {
  }

  /** Moves a staged original over its target. */
  lemma RenameKeeps(p: Plan, before: Files, after: Files, from: Path, i: nat)
    requires GoodPlan(p) && Recoverable(p, before) && i < 3
    requires from in before && from.dir == p.work && forall j | 0 <= j < 3 :: from != Backup(p.work, j)
    requires before[from] == p.olds[i] || before[from] == p.news[i]
    requires after == (before - {from})[p.targets[i] := before[from]]
    ensures Recoverable(p, after) && At(after, p.targets[i]) == Some(before[from])
    ensures forall q: Path | q != p.targets[i] && q != from :: At(after, q) == At(before, q)
  {
    hide Backup;
  }

  /** Puts the original back over one target: copy, mode, sync, rename, sync of the directory. */
  method Restore(fs: FileSystem, targets: seq<Path>, work: Dir, ghost p: Plan, i: nat, mode: nat) returns (ok: bool)
    requires GoodPlan(p) && p.targets == targets && p.work == work
    requires i < 3 && mode == p.olds[i].mode
    requires fs.Valid() && p.work in fs.dirs && p.targets[i].dir in fs.dirs && Recoverable(p, fs.files)
    modifies fs
    ensures fs.Valid() && fs.dirs == old(fs.dirs) && old(fs.trace) <= fs.trace
    ensures Recoverable(p, fs.files) && RecoverableSince(p, fs.trace, |old(fs.trace)|)
    ensures forall q: Path | q != p.targets[i] && q != Staged(p.work, i) :: At(fs.files, q) == At(old(fs.files), q)
    ensures fs.Within(old(fs.clock), 5) && fs.Met() >= old(fs.Met()) && (ok <==> fs.Met() == old(fs.Met()))
    ensures ok ==> At(fs.files, p.targets[i]) == Some(p.olds[i])
    ensures At(fs.files, p.targets[i]) == At(old(fs.files), p.targets[i])
            || At(fs.files, p.targets[i]) == Some(p.olds[i])
  {
    hide Backup, Staged, Recoverable, FileSystem.Met;
    ok := Stage(fs, targets, work, p, i, mode);
    if !ok {
      return;
    }
    forall j | 0 <= j < 3 ensures Staged(p.work, i) != Backup(p.work, j) { WorkFilesApart(p.work, j, i); }
    ghost var before := fs.files;
    ok := fs.Rename(Staged(work, i), targets[i]);
    if !ok {
      return;
    }
    RenameKeeps(p, before, fs.files, Staged(p.work, i), i);
    ok := fs.SyncDir(targets[i].dir);
  }

  /** Restoring one target leaves the journal, the other targets and everything elsewhere alone. */
  lemma RestoreKeeps(p: Plan, before: Files, after: Files, i: nat)
    requires GoodPlan(p) && i < 3
    requires forall q: Path | q != p.targets[i] && q != Staged(p.work, i) :: At(after, q) == At(before, q)
    ensures forall j | 0 <= j < 3 && j != i :: At(after, p.targets[j]) == At(before, p.targets[j])
    ensures At(after, Path(p.work, JOURNAL)) == At(before, Path(p.work, JOURNAL))
    ensures Elsewhere(p.targets, p.work, before, after)
  {
    hide Staged;
    WorkFilesApart(p.work, i, i);
    assert p.targets[i] in p.targets;
  }

  /** Where the directories of an update stand ready. */
  ghost predicate Ready(fs: FileSystem, p: Plan)
    requires GoodPlan(p)
    reads fs
  {
    fs.Valid() && p.work in fs.dirs && forall i | 0 <= i < 3 :: p.targets[i].dir in fs.dirs
  }

  /**
    Restores, in reverse order, every target already replaced; it fails exactly when the rollback meets a
    fault itself.
   */
  method FailAfterMutation(fs: FileSystem, targets: seq<Path>, work: Dir, ghost p: Plan, modes: seq<nat>,
                           committed: seq<bool>, cause: UpdateError) returns (r: Outcome)
    requires GoodPlan(p) && p.targets == targets && p.work == work
    requires Ready(fs, p) && Recoverable(p, fs.files)
    requires |modes| == 3 && forall i | 0 <= i < 3 :: modes[i] == p.olds[i].mode
    requires |committed| == 3 && forall i | 0 <= i < 3 && !committed[i] :: At(fs.files, p.targets[i]) == Some(p.olds[i])
    requires !cause.RollbackFailed?
    modifies fs
    ensures Ready(fs, p) && fs.dirs == old(fs.dirs) && old(fs.trace) <= fs.trace
            && RecoverableSince(p, fs.trace, |old(fs.trace)|)
    ensures Recoverable(p, fs.files) && Elsewhere(p.targets, p.work, old(fs.files), fs.files)
    ensures At(fs.files, Path(p.work, JOURNAL)) == At(old(fs.files), Path(p.work, JOURNAL))
    ensures r.Err? && (r.error == RollbackFailed(p.work) || (!r.error.RollbackFailed? && AllOld(p, fs.files)))
    ensures (forall i | 0 <= i < 3 :: !committed[i]) ==> r == Err(cause)
    ensures (exists i :: 0 <= i < 3 && committed[i]) ==> r.error == Preserved || r.error.RollbackFailed?
    ensures fs.Within(old(fs.clock), 17) && fs.Met() >= old(fs.Met())
            && (r.error.RollbackFailed? <==> fs.Met() > old(fs.Met()))
  {
    hide Backup, Staged, Recoverable, FileSystem.Met, FileSystem.Valid;
    if !committed[0] && !committed[1] && !committed[2] {
      return Err(cause);
    }
    var failed := false;
    var k := 3;
    ghost var before := fs.files;
    while k > 0
      invariant 0 <= k <= 3
      invariant Ready(fs, p) && fs.dirs == old(fs.dirs) && old(fs.trace) <= fs.trace
                && RecoverableSince(p, fs.trace, |old(fs.trace)|)
      invariant Recoverable(p, fs.files) && Elsewhere(p.targets, p.work, before, fs.files)
      invariant At(fs.files, Path(p.work, JOURNAL)) == At(before, Path(p.work, JOURNAL))
      invariant forall i | 0 <= i < 3 && !committed[i] :: At(fs.files, p.targets[i]) == Some(p.olds[i])
      invariant !failed ==> forall i | k <= i < 3 :: At(fs.files, p.targets[i]) == Some(p.olds[i])
      invariant fs.Within(old(fs.clock), 5 * (3 - k)) && fs.Met() >= old(fs.Met())
                && (failed <==> fs.Met() > old(fs.Met()))
    {
      k := k - 1;
      if committed[k] {
        ghost var current := fs.files;
        var ok := Restore(fs, targets, work, p, k, modes[k]);
        RestoreKeeps(p, current, fs.files, k);
        failed := failed || !ok;
      }
    }
    if !failed {
      return Err(Preserved);
    }
    LeaveMarker(fs, work, p);
    r := Err(RollbackFailed(work));
  }

  /** Marks a work directory that is kept because the rollback is incomplete. */
  method LeaveMarker(fs: FileSystem, work: Dir, ghost p: Plan)
    requires GoodPlan(p) && p.work == work
    requires fs.Valid() && p.work in fs.dirs && Recoverable(p, fs.files)
    modifies fs
    ensures fs.Valid() && fs.dirs == old(fs.dirs) && old(fs.trace) <= fs.trace
    ensures OnlyAt(old(fs.files), fs.files, Path(p.work, MARKER)) && MARKER != JOURNAL
    ensures Recoverable(p, fs.files) && RecoverableSince(p, fs.trace, |old(fs.trace)|)
    ensures fs.Within(old(fs.clock), 2) && fs.Met() >= old(fs.Met())
  {
    hide Backup, Staged, Recoverable, FileSystem.Met;
    var marker := Path(work, MARKER);
    forall j | 0 <= j < 3 ensures marker != Backup(p.work, j) { WorkFilesApart(p.work, j, j); }
    ghost var before := fs.files;
    forall after | OnlyAt(before, after, marker)
      ensures Recoverable(p, after) { WorkWriteKeeps(p, before, after, marker); }
    assert JOURNAL != MARKER by { assert |JOURNAL| != |MARKER|; }
    var _ := fs.WriteNew(marker, [], OWNER_ONLY);
    var _ := fs.SyncDir(work);
  }

  // ----- preparation -----

  /** The targets are as they were before. */
  ghost predicate Untouched(targets: seq<Path>, before: Files, after: Files) {
    forall t | t in targets :: At(after, t) == At(before, t)
  }

  ghost predicate UntouchedSince(targets: seq<Path>, before: Files, trace: seq<Files>, from: nat) {
    forall k | from <= k < |trace| :: Untouched(targets, before, trace[k])
  }

  /** Target `i` has its backup and its replacement lies ready. */
  ghost predicate Prepared(targets: seq<Path>, work: Dir, data: seq<Bytes>, modes: seq<nat>, files: Files, i: nat)
    requires |targets| == 3 && |data| == 3 && |modes| == 3 && i < 3
  {
    && At(files, targets[i]).Some? && files[targets[i]].Regular? && modes[i] == files[targets[i]].mode
    && At(files, Backup(work, i)) == At(files, targets[i])
    && At(files, New(work, i)) == Some(Regular(data[i], modes[i]))
  }

  /** A write to a work file other than this pair's keeps the pair. */
  lemma PreparedKept(targets: seq<Path>, work: Dir, data: seq<Bytes>, modes: seq<nat>, before: Files, after: Files,
                     i: nat, q: Path)
    requires ThreeTargets(targets, work) && |data| == 3 && |modes| == 3 && i < 3
    requires Prepared(targets, work, data, modes, before, i)
    requires OnlyAt(before, after, q) && q.dir == work && q != Backup(work, i) && q != New(work, i)
    ensures Prepared(targets, work, data, modes, after, i)
  {
    hide Backup, New;
  }

  /** Backs up one target and writes its replacement beside it. */
  method PrepareOne(fs: FileSystem, targets: seq<Path>, work: Dir, data: seq<Bytes>, i: nat)
    returns (r: Result<nat, UpdateError>)
    requires ThreeTargets(targets, work) && |data| == 3 && i < 3
    requires fs.Valid() && work in fs.dirs
    modifies fs
    ensures fs.Valid() && fs.dirs == old(fs.dirs) && old(fs.trace) <= fs.trace
    ensures UntouchedSince(targets, old(fs.files), fs.trace, |old(fs.trace)|)
    ensures forall q: Path | q != Backup(work, i) && q != New(work, i) :: At(fs.files, q) == At(old(fs.files), q)
    ensures r.Err? ==> r.error == Unsupported || r.error == FileSystemFailure
    ensures fs.Within(old(fs.clock), 6) && fs.Met() >= old(fs.Met())
    ensures r.Ok? <==> fs.Met() == old(fs.Met()) && old(fs.HasFile(targets[i])) && New(work, i) !in old(fs.files)
    ensures r.Ok? ==>
              && At(fs.files, targets[i]).Some? && fs.files[targets[i]].Regular? && r.value == fs.files[targets[i]].mode
              && At(fs.files, Backup(work, i)) == At(fs.files, targets[i])
              && At(fs.files, New(work, i)) == Some(Regular(data[i], r.value))
  {
    hide Backup, New, FileSystem.Met;
    WorkFilesApart(work, i, i);
    var regular := fs.IsRegularFile(targets[i]);
    if !regular {
      return Err(Unsupported);
    }
    var symlink := fs.IsSymlink(targets[i]);
    if symlink {
      return Err(Unsupported);
    }
    var mode := fs.Mode(targets[i]);
    if mode.None? {
      return Err(FileSystemFailure);
    }
    var ok := fs.Copy(targets[i], Backup(work, i));
    if ok {
      ok := fs.SetMode(Backup(work, i), mode.value);
    }
    if ok {
      ok := fs.SyncFile(Backup(work, i));
    }
    assert At(fs.files, New(work, i)) == At(old(fs.files), New(work, i));
    if ok {
      ok := fs.WriteNew(New(work, i), data[i], mode.value);
    }
    r := if ok then Ok(mode.value) else Err(FileSystemFailure);
  }

  lemma PairKept(targets: seq<Path>, work: Dir, data: seq<Bytes>, modes: seq<nat>, before: Files, after: Files,
                 i: nat, j: nat)
    requires ThreeTargets(targets, work) && |data| == 3 && |modes| == 3 && i < 3 && j < 3 && i != j
    requires Prepared(targets, work, data, modes, before, i)
    requires forall q: Path | q != Backup(work, j) && q != New(work, j) :: At(after, q) == At(before, q)
    ensures Prepared(targets, work, data, modes, after, i)
  {
    hide Backup, New;
    WorkFilesApart(work, i, j);
    WorkFilesApart(work, j, i);
  }

  /** There is no file in the directory. */
  ghost predicate Unused(d: Dir, files: Files) {
    forall p | p in files :: p.dir != d
  }

  /** The pair of one target is neither the journal nor the pair of another. */
  lemma OthersKept(work: Dir, i: nat)
    requires i < 3
    ensures Backup(work, i) != Path(work, JOURNAL) && New(work, i) != Path(work, JOURNAL)
    ensures forall j | 0 <= j < 3 && j != i :: New(work, j) != Backup(work, i) && New(work, j) != New(work, i)
  {
    hide Backup, New;
    WorkFilesApart(work, i, i);
    forall j | 0 <= j < 3 && j != i ensures New(work, j) != Backup(work, i) && New(work, j) != New(work, i) {
      WorkFilesApart(work, i, j);
    }
    assert Backup(work, i).name != JOURNAL && New(work, i).name != JOURNAL;
  }

  /** Backups and replacements for all three targets, the check of the staged binaries, and the journal. */
  method Prepare(fs: FileSystem, targets: seq<Path>, work: Dir, data: seq<Bytes>)
    returns (r: Result<seq<nat>, UpdateError>)
    requires ThreeTargets(targets, work) && |data| == 3
    requires fs.Valid() && work in fs.dirs
    modifies fs
    ensures fs.Valid() && fs.dirs == old(fs.dirs) && old(fs.trace) <= fs.trace
    ensures UntouchedSince(targets, old(fs.files), fs.trace, |old(fs.trace)|)
    ensures Untouched(targets, old(fs.files), fs.files) && Elsewhere(targets, work, old(fs.files), fs.files)
    ensures r.Err? ==> r.error == Unsupported || r.error == FileSystemFailure || r.error == VersionVerification
    ensures r.Ok? ==> |r.value| == 3 && At(fs.files, Path(work, JOURNAL)).Some?
                      && forall i | 0 <= i < 3 :: Prepared(targets, work, data, r.value, fs.files, i)
    ensures fs.Within(old(fs.clock), 22) && fs.Met() >= old(fs.Met()) && (r.Ok? ==> fs.Met() == old(fs.Met()))
    ensures Unused(work, old(fs.files)) && fs.Met() == old(fs.Met()) ==>
              (r.Ok? <==> forall i | 0 <= i < 3 :: old(fs.HasFile(targets[i])))
  {
    hide Backup, New, Prepared, FileSystem.Met;
    assert New(work, 0).dir == work && New(work, 1).dir == work && New(work, 2).dir == work;
    var modes: seq<nat> := [0, 0, 0];
    var index := 0;
    while index < 3
      invariant 0 <= index <= 3 && |modes| == 3
      invariant fs.Valid() && fs.dirs == old(fs.dirs) && old(fs.trace) <= fs.trace
      invariant UntouchedSince(targets, old(fs.files), fs.trace, |old(fs.trace)|)
      invariant Untouched(targets, old(fs.files), fs.files) && Elsewhere(targets, work, old(fs.files), fs.files)
      invariant forall i | 0 <= i < index :: Prepared(targets, work, data, modes, fs.files, i)
      invariant fs.Within(old(fs.clock), 6 * index) && fs.Met() == old(fs.Met())
      invariant forall i | 0 <= i < index :: old(fs.HasFile(targets[i]))
      invariant At(fs.files, Path(work, JOURNAL)) == At(old(fs.files), Path(work, JOURNAL))
      invariant forall i | index <= i < 3 :: At(fs.files, New(work, i)) == At(old(fs.files), New(work, i))
    {
      ghost var before := fs.files;
      ghost var known := modes;
      OthersKept(work, index);
      assert At(before, targets[index]) == At(old(fs.files), targets[index]);
      var mode := PrepareOne(fs, targets, work, data, index);
      if mode.Err? {
        return Err(mode.error);
      }
      modes := modes[index := mode.value];
      forall i | 0 <= i < index ensures Prepared(targets, work, data, modes, fs.files, i) {
        PairKept(targets, work, data, known, before, fs.files, i, index);
        SameMode(targets, work, data, known, modes, fs.files, i);
      }
      PreparedNow(targets, work, data, modes, fs.files, index);
      index := index + 1;
    }
    ghost var before := fs.files;
    var failure := Journal(fs, targets, work);
    forall i | 0 <= i < 3 ensures Prepared(targets, work, data, modes, fs.files, i) {
      WorkFilesApart(work, i, i);
      PreparedKept(targets, work, data, modes, before, fs.files, i, Path(work, JOURNAL));
    }
    r := if failure.None? then Ok(modes) else Err(failure.value);
  }

  /** The check of the staged binaries, the journal, and the syncs that make all this last. */
  method Journal(fs: FileSystem, targets: seq<Path>, work: Dir) returns (failure: Option<UpdateError>)
    requires ThreeTargets(targets, work) && fs.Valid() && work in fs.dirs
    modifies fs
    ensures fs.Valid() && fs.dirs == old(fs.dirs) && old(fs.trace) <= fs.trace
    ensures forall k | |old(fs.trace)| <= k < |fs.trace| :: OnlyAt(old(fs.files), fs.trace[k], Path(work, JOURNAL))
    ensures OnlyAt(old(fs.files), fs.files, Path(work, JOURNAL))
    ensures fs.Within(old(fs.clock), 4) && fs.Met() >= old(fs.Met())
    ensures failure.None? <==> fs.Met() == old(fs.Met()) && Path(work, JOURNAL) !in old(fs.files)
    ensures failure.None? ==> At(fs.files, Path(work, JOURNAL)).Some?
    ensures failure.Some? ==> failure.value == VersionVerification || failure.value == FileSystemFailure
  {
    hide FileSystem.Met;
    var ok := fs.VerifyBinaryVersions(New(work, 0), New(work, 1));
    if !ok {
      return Some(VersionVerification);
    }
    ok := fs.WriteNew(Path(work, JOURNAL), [], OWNER_ONLY);
    if ok {
      ok := fs.SyncDir(work);
    }
    if ok {
      ok := fs.SyncDir(targets[0].dir);
    }
    failure := if ok then None else Some(FileSystemFailure);
  }

  lemma SameMode(targets: seq<Path>, work: Dir, data: seq<Bytes>, modes: seq<nat>, modes': seq<nat>, files: Files,
                 i: nat)
    requires |targets| == 3 && |data| == 3 && |modes| == 3 && |modes'| == 3 && i < 3 && modes'[i] == modes[i]
    requires Prepared(targets, work, data, modes, files, i)
    ensures Prepared(targets, work, data, modes', files, i)
  {
  }

  lemma PreparedNow(targets: seq<Path>, work: Dir, data: seq<Bytes>, modes: seq<nat>, files: Files, i: nat)
    requires |targets| == 3 && |data| == 3 && |modes| == 3 && i < 3
    requires At(files, targets[i]).Some? && files[targets[i]].Regular? && modes[i] == files[targets[i]].mode
    requires At(files, Backup(work, i)) == At(files, targets[i])
    requires At(files, New(work, i)) == Some(Regular(data[i], modes[i]))
    ensures Prepared(targets, work, data, modes, files, i)
  {
  }

  // ----- the receipt check -----

  /** The three targets are regular files and the receipt vouches for the two binaries. */
  predicate Validates(sha: Sha, files: Files, targets: seq<Path>)
    requires |targets| == 3
  {
    && (forall i | 0 <= i < 3 :: At(files, targets[i]).Some? && files[targets[i]].Regular?)
    && |files[targets[2]].bytes| <= RECEIPT_MAX_BYTES
    && |files[targets[0]].bytes| <= MAX_ARCHIVE_BYTES && |files[targets[1]].bytes| <= MAX_ARCHIVE_BYTES
    && Vouches(sha, files[targets[2]].bytes, files[targets[0]].bytes, files[targets[1]].bytes)
  }

  /** An intact installation: three files of bounded size, and a receipt whose text names the two digests. */
  lemma ValidatesExactly(sha: Sha, files: Files, targets: seq<Path>)
    requires |targets| == 3 && LawfulSha(sha)
    ensures Validates(sha, files, targets) <==>
            && (forall i | 0 <= i < 3 :: At(files, targets[i]).Some? && files[targets[i]].Regular?)
            && |files[targets[0]].bytes| <= 268435456 && |files[targets[1]].bytes| <= 268435456
            && |files[targets[2]].bytes| <= 1024
            && ReceiptText(files[targets[2]].bytes, sha(files[targets[0]].bytes), sha(files[targets[1]].bytes))
  {
    hide ParseReceipt, ReceiptText, ValidDigest;
    if forall i | 0 <= i < 3 :: At(files, targets[i]).Some? && files[targets[i]].Regular? {
      assert files[targets[0]].Regular? && files[targets[1]].Regular? && files[targets[2]].Regular?;
      var client, daemon := files[targets[0]].bytes, files[targets[1]].bytes;
      assert ValidDigest(sha(client)) && ValidDigest(sha(daemon));
      ParsesExactly(files[targets[2]].bytes, sha(client), sha(daemon));
    }
  }

  /** The tests in the order the program makes them, up to the first that refuses. */
  method AllRegular(fs: FileSystem, targets: seq<Path>) returns (ok: bool)
    requires |targets| == 3
    modifies fs`clock, fs`linkClock
    ensures fs.Within(old(fs.clock), 3) && fs.Met() >= old(fs.Met())
    ensures ok <==> fs.Met() == old(fs.Met()) && forall i | 0 <= i < 3 :: fs.HasFile(targets[i])
  {
    hide FileSystem.Met;
    ok := fs.IsRegularFile(targets[0]);
    if ok {
      ok := fs.IsRegularFile(targets[1]);
    }
    var symlink := false;
    if ok {
      symlink := fs.IsSymlink(targets[0]);
    }
    if ok && !symlink {
      symlink := fs.IsSymlink(targets[1]);
    }
    if ok && !symlink {
      ok := fs.IsRegularFile(targets[2]);
    }
    if ok && !symlink {
      symlink := fs.IsSymlink(targets[2]);
    }
    ok := ok && !symlink;
  }

  method ValidateReceipt(fs: FileSystem, sha: Sha, targets: seq<Path>) returns (ok: bool)
    requires |targets| == 3
    modifies fs`clock, fs`linkClock
    ensures fs.Within(old(fs.clock), 6) && fs.Met() >= old(fs.Met()) && (ok ==> fs.Met() == old(fs.Met()))
    ensures fs.Met() == old(fs.Met()) ==> (ok <==> Validates(sha, fs.files, targets))
  {
    hide FileSystem.Met;
    var allRegular := AllRegular(fs, targets);
    if !allRegular {
      return false;
    }
    var text := fs.ReadLimited(targets[2], RECEIPT_MAX_BYTES);
    if text.None? {
      return false;
    }
    var receipt := ParseReceipt(text.value);
    if receipt.None? {
      return false;
    }
    var client := fs.ReadLimited(targets[0], MAX_ARCHIVE_BYTES);
    if client.None? {
      return false;
    }
    var daemon := fs.ReadLimited(targets[1], MAX_ARCHIVE_BYTES);
    if daemon.None? {
      return false;
    }
    ok := sha(client.value) == receipt.value.rustscale && sha(daemon.value) == receipt.value.rustscaled;
  }

  // ----- commit -----

  /** The first `n` targets are new, the others old with their replacements still staged; all is recoverable. */
  ghost predicate Partly(p: Plan, files: Files, n: nat)
    requires GoodPlan(p) && n <= 3
  {
    && Recoverable(p, files)
    && (forall i | 0 <= i < n :: At(files, p.targets[i]) == Some(p.news[i]))
    && (forall i | n <= i < 3 :: At(files, p.targets[i]) == Some(p.olds[i]))
    && (forall i | n <= i < 3 :: At(files, New(p.work, i)) == Some(p.news[i]))
  }

  lemma PartlyNext(p: Plan, before: Files, after: Files, n: nat)
    requires GoodPlan(p) && n < 3 && Partly(p, before, n)
    requires New(p.work, n) in before && after == (before - {New(p.work, n)})[p.targets[n] := before[New(p.work, n)]]
    ensures Partly(p, after, n + 1)
    ensures Elsewhere(p.targets, p.work, before, after)
    ensures At(after, Path(p.work, JOURNAL)) == At(before, Path(p.work, JOURNAL))
  {
    hide Backup, New, Recoverable;
    forall j | 0 <= j < 3
      ensures New(p.work, n) != Backup(p.work, j) && (j != n ==> New(p.work, j) != New(p.work, n))
    {
      WorkFilesApart(p.work, j, n);
    }
    WorkFilesApart(p.work, n, n);
    RenameKeeps(p, before, after, New(p.work, n), n);
  }

  /** Replaces the targets one by one; reports how many were replaced before a failure. */
  method ReplaceAll(fs: FileSystem, targets: seq<Path>, work: Dir, ghost p: Plan) returns (ok: bool, done: nat)
    requires GoodPlan(p) && p.targets == targets && p.work == work
    requires Ready(fs, p) && Partly(p, fs.files, 0)
    modifies fs
    ensures Ready(fs, p) && fs.dirs == old(fs.dirs) && old(fs.trace) <= fs.trace
            && RecoverableSince(p, fs.trace, |old(fs.trace)|)
    ensures done <= 3 && Partly(p, fs.files, done) && (ok ==> done == 3)
    ensures fs.Within(old(fs.clock), 6) && fs.Met() >= old(fs.Met()) && (ok <==> fs.Met() == old(fs.Met()))
    ensures Elsewhere(p.targets, p.work, old(fs.files), fs.files)
    ensures At(fs.files, Path(p.work, JOURNAL)) == At(old(fs.files), Path(p.work, JOURNAL))
  {
    hide New, Partly, Recoverable, FileSystem.Met;
    done := 0;
    while done < 3
      invariant 0 <= done <= 3
      invariant Ready(fs, p) && fs.dirs == old(fs.dirs) && old(fs.trace) <= fs.trace
                && RecoverableSince(p, fs.trace, |old(fs.trace)|)
      invariant Partly(p, fs.files, done) && Elsewhere(p.targets, p.work, old(fs.files), fs.files)
      invariant At(fs.files, Path(p.work, JOURNAL)) == At(old(fs.files), Path(p.work, JOURNAL))
      invariant fs.Within(old(fs.clock), 2 * done) && fs.Met() == old(fs.Met())
    {
      ghost var before := fs.files;
      assert New(work, done) in before by { StillStaged(p, before, done); }
      ok := fs.Rename(New(work, done), targets[done]);
      PartlyRecoverable(p, before, done);
      if !ok {
        return;
      }
      PartlyNext(p, before, fs.files, done);
      PartlyRecoverable(p, fs.files, done + 1);
      done := done + 1;
      ok := fs.SyncDir(targets[0].dir);
      if !ok {
        return;
      }
    }
    ok := true;
  }

  lemma StillStaged(p: Plan, files: Files, n: nat)
    requires GoodPlan(p) && n < 3 && Partly(p, files, n)
    ensures New(p.work, n) in files
  {
    hide New, Recoverable;
    assert At(files, New(p.work, n)) == Some(p.news[n]);
  }

  lemma PartlyRecoverable(p: Plan, files: Files, n: nat)
    requires GoodPlan(p) && n <= 3 && Partly(p, files, n)
    ensures Recoverable(p, files) && forall i | n <= i < 3 :: At(files, p.targets[i]) == Some(p.olds[i])
    ensures n == 3 ==> AllNew(p, files)
  {
  }

  /** Commits the prepared update: replace, check the installed files, and roll back on any failure. */
  method Commit(fs: FileSystem, sha: Sha, targets: seq<Path>, work: Dir, ghost p: Plan, modes: seq<nat>)
    returns (r: Outcome)
    requires GoodPlan(p) && p.targets == targets && p.work == work
    requires Ready(fs, p) && Partly(p, fs.files, 0)
    requires |modes| == 3 && forall i | 0 <= i < 3 :: modes[i] == p.olds[i].mode
    modifies fs
    ensures Ready(fs, p) && fs.dirs == old(fs.dirs) && old(fs.trace) <= fs.trace
            && RecoverableSince(p, fs.trace, |old(fs.trace)|)
    ensures Recoverable(p, fs.files) && Elsewhere(p.targets, p.work, old(fs.files), fs.files)
    ensures At(fs.files, Path(p.work, JOURNAL)) == At(old(fs.files), Path(p.work, JOURNAL))
    ensures r.Ok? ==> AllNew(p, fs.files) && Validates(sha, fs.files, p.targets)
    ensures r.Err? ==> r.error == RollbackFailed(p.work) || (!r.error.RollbackFailed? && AllOld(p, fs.files))
    ensures fs.Within(old(fs.clock), 30) && fs.Met() >= old(fs.Met())
    ensures r.Ok? <==> fs.Met() == old(fs.Met()) && Validates(sha, Installed(p), p.targets)
    ensures r.Err? && fs.Met() == old(fs.Met()) ==> r == Err(Preserved)
    ensures r.Err? && r.error.RollbackFailed? ==>
              fs.Met() >= old(fs.Met()) + if Validates(sha, Installed(p), p.targets) then 2 else 1
  {
    hide Partly, Recoverable, Validates, FileSystem.Met;
    var ok, done := ReplaceAll(fs, targets, work, p);
    PartlyRecoverable(p, fs.files, done);
    if done == 3 { OnlyTargetsMatter(p, sha, fs.files); }
    var committed := [done > 0, done > 1, done > 2];
    assert done > 0 ==> committed[0];
    var cause := FileSystemFailure;
    if ok {
      ok := fs.VerifyBinaryVersions(targets[0], targets[1]);
      cause := VersionVerification;
    }
    if ok {
      ok := ValidateReceipt(fs, sha, targets);
      cause := Unsupported;
    }
    if ok {
      return Ok(());
    }
    r := FailAfterMutation(fs, targets, work, p, modes, committed, cause);
  }

  /** The files of a plan alone, all new. */
  function Installed(p: Plan): Files
    requires GoodPlan(p)
  {
    map[p.targets[0] := p.news[0], p.targets[1] := p.news[1], p.targets[2] := p.news[2]]
  }

  lemma OnlyTargetsMatter(p: Plan, sha: Sha, files: Files)
    requires GoodPlan(p) && AllNew(p, files)
    ensures Validates(sha, files, p.targets) <==> Validates(sha, Installed(p), p.targets)
  {
    hide Vouches;
    var m := Installed(p);
    assert At(files, p.targets[0]) == Some(p.news[0]) && At(files, p.targets[1]) == Some(p.news[1]);
    assert At(files, p.targets[2]) == Some(p.news[2]);
    assert m[p.targets[0]] == p.news[0] && m[p.targets[1]] == p.news[1] && m[p.targets[2]] == p.news[2];
  }

  // ----- the whole transaction -----

  function NewData(sha: Sha, payloads: Payloads): (r: seq<Bytes>)
    ensures |r| == 3
  {
    [payloads.rustscale, payloads.rustscaled, ReceiptBytes(sha, payloads.rustscale, payloads.rustscaled)]
  }

  /** Both binaries are within the size the receipt check reads. */
  predicate Fits(payloads: Payloads) {
    |payloads.rustscale| <= MAX_ARCHIVE_BYTES && |payloads.rustscaled| <= MAX_ARCHIVE_BYTES
  }

  /** The new files pass the final receipt check exactly when they are within its size limit. */
  lemma NewFilesValidate(p: Plan, sha: Sha, payloads: Payloads)
    requires LawfulSha(sha) && GoodPlan(p)
    requires forall i | 0 <= i < 3 :: p.news[i].bytes == NewData(sha, payloads)[i]
    ensures Validates(sha, Installed(p), p.targets) <==> Fits(payloads)
  {
    hide ReceiptBytes, ParseReceipt;
    ReceiptRoundTrip(sha, payloads.rustscale, payloads.rustscaled);
    var m := Installed(p);
    assert m[p.targets[0]] == p.news[0] && m[p.targets[1]] == p.news[1] && m[p.targets[2]] == p.news[2];
    assert p.news[2].bytes == NewData(sha, payloads)[2];
  }

  /** The plan that preparation establishes. */
  function PlanOf(targets: seq<Path>, work: Dir, data: seq<Bytes>, files: Files): Plan
    requires |targets| == 3 && |data| == 3 && forall i | 0 <= i < 3 ::
               At(files, targets[i]).Some? && files[targets[i]].Regular?
  {
    assert At(files, targets[0]).Some? && At(files, targets[1]).Some? && At(files, targets[2]).Some?;
    Plan(targets, work,
         [files[targets[0]], files[targets[1]], files[targets[2]]],
         [Regular(data[0], files[targets[0]].mode), Regular(data[1], files[targets[1]].mode),
          Regular(data[2], files[targets[2]].mode)])
  }

  lemma PreparedPlan(targets: seq<Path>, work: Dir, data: seq<Bytes>, modes: seq<nat>, files: Files)
    requires ThreeTargets(targets, work) && |data| == 3 && |modes| == 3
    requires forall i | 0 <= i < 3 :: Prepared(targets, work, data, modes, files, i)
    ensures forall i | 0 <= i < 3 :: At(files, targets[i]).Some? && files[targets[i]].Regular?
    ensures var p := PlanOf(targets, work, data, files);
            && GoodPlan(p) && Partly(p, files, 0)
            && forall i | 0 <= i < 3 :: modes[i] == p.olds[i].mode
  {
    hide Backup, New;
    assert Prepared(targets, work, data, modes, files, 0);
    assert Prepared(targets, work, data, modes, files, 1);
    assert Prepared(targets, work, data, modes, files, 2);
  }

  lemma SamePlan(targets: seq<Path>, work: Dir, data: seq<Bytes>, before: Files, after: Files)
    requires |targets| == 3 && |data| == 3 && Untouched(targets, before, after)
    requires forall i | 0 <= i < 3 :: At(after, targets[i]).Some? && after[targets[i]].Regular?
    ensures forall i | 0 <= i < 3 :: At(before, targets[i]).Some? && before[targets[i]].Regular?
    ensures PlanOf(targets, work, data, before) == PlanOf(targets, work, data, after)
  {
    assert forall i | 0 <= i < 3 :: targets[i] in targets;
    assert At(after, targets[0]) == At(before, targets[0]) && At(after, targets[1]) == At(before, targets[1]);
    assert At(after, targets[2]) == At(before, targets[2]);
  }

  /** What an update that did not fail early must have done: new everywhere, old everywhere, or recoverable. */
  ghost predicate AllOrNothing(p: Plan, sha: Sha, files: Files, r: Outcome)
    requires GoodPlan(p)
  {
    match r
    case Ok(_) => AllNew(p, files) && Validates(sha, files, p.targets)
    case Err(RollbackFailed(recovery)) => recovery == p.work && Recoverable(p, files)
      && At(files, Path(p.work, JOURNAL)).Some?
    case Err(_) => AllOld(p, files)
  }

  /**
    The transaction inside the work directory. Up to `commit` the recorded states leave the targets
    alone; from there on each of them is recoverable. Either nothing was ever committed, or the
    result is all or nothing.
   */
  method TransactionInWorkdir(fs: FileSystem, sha: Sha, payloads: Payloads, targets: seq<Path>, work: Dir)
    returns (r: Outcome, ghost plan: Option<Plan>, ghost commit: nat)
    requires ThreeTargets(targets, work) && fs.Valid() && work in fs.dirs
    modifies fs
    ensures fs.Valid() && fs.dirs == old(fs.dirs) && old(fs.trace) <= fs.trace
    ensures |old(fs.trace)| <= commit <= |fs.trace|
    ensures forall k | |old(fs.trace)| <= k < commit :: Untouched(targets, old(fs.files), fs.trace[k])
    ensures Elsewhere(targets, work, old(fs.files), fs.files)
    ensures plan.None? ==>
              && commit == |fs.trace| && Untouched(targets, old(fs.files), fs.files)
              && r.Err? && !r.error.RollbackFailed?
    ensures plan.Some? ==>
              && (forall i | 0 <= i < 3 :: At(old(fs.files), targets[i]).Some? && old(fs.files)[targets[i]].Regular?)
              && plan.value == PlanOf(targets, work, NewData(sha, payloads), old(fs.files)) && GoodPlan(plan.value)
              && RecoverableSince(plan.value, fs.trace, commit)
              && AllOrNothing(plan.value, sha, fs.files, r)
    ensures fs.Within(old(fs.clock), 52) && fs.Met() >= old(fs.Met()) && (r.Ok? ==> fs.Met() == old(fs.Met()))
    ensures LawfulSha(sha) && Unused(work, old(fs.files)) && fs.Met() == old(fs.Met()) ==>
              (r.Ok? <==> Fits(payloads) && forall i | 0 <= i < 3 :: old(fs.HasFile(targets[i])))
    ensures plan.Some? && r.Err? && fs.Met() == old(fs.Met()) ==> r == Err(Preserved)
    ensures Unused(work, old(fs.files)) && fs.Met() == old(fs.Met()) ==>
              (plan.Some? <==> forall i | 0 <= i < 3 :: old(fs.HasFile(targets[i])))
    ensures LawfulSha(sha) && r.Err? && r.error.RollbackFailed? ==>
              fs.Met() >= old(fs.Met()) + if Fits(payloads) then 2 else 1
  {
    hide Partly, Prepared, Recoverable, Validates, ReceiptBytes, FileSystem.Met;
    var data := NewData(sha, payloads);
    var modes := Prepare(fs, targets, work, data);
    plan, commit := None, |fs.trace|;
    if modes.Err? {
      return Err(modes.error), None, commit;
    }
    PreparedPlan(targets, work, data, modes.value, fs.files);
    ghost var p := PlanOf(targets, work, data, fs.files);
    SamePlan(targets, work, data, old(fs.files), fs.files);
    assert p == PlanOf(targets, work, data, old(fs.files));
    assert Ready(fs, p);
    if LawfulSha(sha) { NewFilesValidate(p, sha, payloads); }
    r := Commit(fs, sha, targets, work, p, modes.value);
    plan := Some(p);
  }

  /** Where the updater works: a fresh directory beside the targets. */
  function WorkDir(parent: Dir, token: string): Dir {
    parent + [".rustscale-update-" + token]
  }

  predicate BinLayout(targets: seq<Path>)
    requires |targets| == 3
  {
    var parent := targets[0].dir;
    && targets[1].dir == parent && targets[2].dir == parent
    && parent != [] && parent[|parent| - 1] == "bin"
    && targets[0].name == "rustscale" && targets[1].name == "rustscaled" && targets[2].name == RECEIPT_NAME
  }

  /** The layout, spelled out: the two binaries and the receipt in one directory called bin. */
  lemma BinLayoutExactly(targets: seq<Path>)
    requires |targets| == 3
    ensures BinLayout(targets) <==> exists prefix: Dir ::
              targets == [Path(prefix + ["bin"], "rustscale"), Path(prefix + ["bin"], "rustscaled"),
                          Path(prefix + ["bin"], ".rustscale-install-receipt-v1")]
  {
    if BinLayout(targets) {
      var parent := targets[0].dir;
      var prefix := parent[..|parent| - 1];
      assert parent == prefix + ["bin"];
    }
  }

  lemma BinLayoutApart(targets: seq<Path>, token: string)
    requires |targets| == 3 && BinLayout(targets)
    ensures ThreeTargets(targets, WorkDir(targets[0].dir, token))
  {
    assert |targets[0].name| == 9 && |targets[1].name| == 10 && |targets[2].name| == 29;
    assert |WorkDir(targets[0].dir, token)| == |targets[0].dir| + 1;
  }

  /**
    What an update needs, faults aside: an intact installation in the expected layout, room to work, and
    payloads that fit.
   */
  predicate Installable(sha: Sha, payloads: Payloads, files: Files, dirs: set<Dir>, targets: seq<Path>, token: string)
    requires |targets| == 3
  {
    Validates(sha, files, targets) && BinLayout(targets) && WorkDir(targets[0].dir, token) !in dirs && Fits(payloads)
  }

  /**
    A finished update, said of the files before and after: each binary holds exactly its payload and keeps its
    mode, and the receipt, which keeps its mode too, names the digests of the two payloads.
   */
  ghost predicate Upgraded(sha: Sha, payloads: Payloads, targets: seq<Path>, before: Files, after: Files)
    requires |targets| == 3
  {
    && (forall i | 0 <= i < 3 :: At(before, targets[i]).Some? && before[targets[i]].Regular?)
    && At(after, targets[0]) == Some(Regular(payloads.rustscale, before[targets[0]].mode))
    && At(after, targets[1]) == Some(Regular(payloads.rustscaled, before[targets[1]].mode))
    && At(after, targets[2]).Some? && after[targets[2]].Regular?
    && after[targets[2]].mode == before[targets[2]].mode
    && ParseReceipt(after[targets[2]].bytes) ==
       Some(Receipt(sha(payloads.rustscale), sha(payloads.rustscaled)))
  }

  lemma AllNewIsUpgraded(p: Plan, sha: Sha, payloads: Payloads, targets: seq<Path>, work: Dir,
                         before: Files, after: Files, r: Outcome)
    requires |targets| == 3
    requires forall i | 0 <= i < 3 :: At(before, targets[i]).Some? && before[targets[i]].Regular?
    requires p == PlanOf(targets, work, NewData(sha, payloads), before) && GoodPlan(p)
    requires AllOrNothing(p, sha, after, r)
    ensures r.Ok? ==> Upgraded(sha, payloads, targets, before, after)
  {
    hide ReceiptBytes, ParseReceipt;
    if r.Ok? {
      assert At(after, targets[0]) == Some(p.news[0]) && At(after, targets[1]) == Some(p.news[1]);
      assert At(after, targets[2]) == Some(p.news[2]);
    }
  }

  /**
    The whole update, for every fault schedule: Ok means all three targets are new and the receipt
    vouches for them, the binaries being the two payloads;
      any error but RollbackFailed means all three are as they were, bytes and modes;
    RollbackFailed means the work directory is kept, with every original in it. In between, each
    target is always exactly old or exactly new, and from the first replacement until the
    transaction returns every original is backed up. The transaction is the operations before number
    `until`, at most 59 of them; at most two follow, which clean up. It succeeds exactly when the update
    is installable and none of its operations broke, and one broken operation is always rolled back. When
    none broke, what the installation lacks decides the error.
   */
  method ApplyArchiveTransaction(fs: FileSystem, sha: Sha, payloads: Payloads, targets: seq<Path>, token: string)
    returns (r: Outcome, ghost plan: Option<Plan>, ghost commit: nat, ghost finish: nat, ghost until: nat)
    requires |targets| == 3 && fs.Valid()
    modifies fs
    ensures old(fs.trace) <= fs.trace && |old(fs.trace)| <= commit <= finish <= |fs.trace|
    ensures forall k | |old(fs.trace)| <= k < commit :: Untouched(targets, old(fs.files), fs.trace[k])
    ensures Elsewhere(targets, WorkDir(targets[0].dir, token), old(fs.files), fs.files)
    ensures r.Ok? ==> plan.Some?
    ensures plan.None? ==> commit == finish && Untouched(targets, old(fs.files), fs.files) && !r.error.RollbackFailed?
    ensures plan.None? ==> forall k | finish <= k < |fs.trace| :: Untouched(targets, old(fs.files), fs.trace[k])
    ensures plan.Some? ==>
              && Validates(sha, old(fs.files), targets)
              && plan.value == PlanOf(targets, WorkDir(targets[0].dir, token), NewData(sha, payloads), old(fs.files))
              && GoodPlan(plan.value)
              && (forall k | commit <= k < finish :: Recoverable(plan.value, fs.trace[k]))
              && (forall k | finish <= k < |fs.trace| :: Untouched(targets, fs.files, fs.trace[k]))
              && AllOrNothing(plan.value, sha, fs.files, r)
    ensures old(fs.clock) <= until <= old(fs.clock) + 59 && until <= fs.clock <= until + 2
    ensures r.Err? && r.error.RollbackFailed? ==> until == fs.clock
    ensures LawfulSha(sha) ==>
              (r.Ok? <==> && Smooth(fs.schedule, old(fs.clock), until)
                          && Installable(sha, payloads, old(fs.files), old(fs.dirs), targets, token))
    ensures r.Ok? ==> Upgraded(sha, payloads, targets, old(fs.files), fs.files)
    ensures r.Err? && Smooth(fs.schedule, old(fs.clock), until) ==>
              r.error == (
                if !Validates(sha, old(fs.files), targets) || !BinLayout(targets) then Unsupported
                else if WorkDir(targets[0].dir, token) in old(fs.dirs) then FileSystemFailure
                else Preserved)
    ensures LawfulSha(sha) && r.Err? && r.error.RollbackFailed? ==>
              Faults(fs.schedule, until) >= Faults(fs.schedule, old(fs.clock)) + if Fits(payloads) then 2 else 1
    ensures r.Ok? && Smooth(fs.schedule, until, fs.clock) ==>
              fs.dirs == old(fs.dirs) && forall q: Path | q !in targets :: At(fs.files, q) == At(old(fs.files), q)
  {
    hide Recoverable, Validates, ReceiptBytes, FileSystem.Met, LawfulSha, Fits, AllOrNothing, BinLayout, Faults, Smooth;
    plan, commit, finish, until := None, |fs.trace|, |fs.trace|, fs.clock;
    fs.MetMeans();
    var valid := ValidateReceipt(fs, sha, targets);
    until := fs.clock;
    fs.MetMeans();
    SmoothMeans(fs.schedule, old(fs.clock), until);
    if !valid || !BinLayout(targets) {
      return Err(Unsupported), None, commit, finish, until;
    }
    var work := WorkDir(targets[0].dir, token);
    BinLayoutApart(targets, token);
    ValidatesRegular(sha, fs.files, targets);
    var ok := fs.CreatePrivateDir(work);
    until := fs.clock;
    fs.MetMeans();
    SmoothMeans(fs.schedule, old(fs.clock), until);
    if !ok {
      return Err(FileSystemFailure), None, commit, finish, until;
    }
    assert Unused(work, fs.files);
    r, plan, commit := TransactionInWorkdir(fs, sha, payloads, targets, work);
    finish, until := |fs.trace|, fs.clock;
    fs.MetMeans();
    SmoothMeans(fs.schedule, old(fs.clock), until);
    if r.Ok? || !r.error.RollbackFailed? {
      ghost var before := fs.files;
      Discard(fs, targets, work);
      fs.MetMeans();
      SmoothMeans(fs.schedule, until, fs.clock);
      Cleaned(plan, sha, targets, work, before, fs.files, r);
      if plan.Some? {
        AllNewIsUpgraded(plan.value, sha, payloads, targets, work, old(fs.files), fs.files, r);
      }
    }
  }

  /** Every target was a regular file, has the new content, and keeps its mode. */
  ghost predicate Replaced(targets: seq<Path>, data: seq<Bytes>, before: Files, after: Files)
    requires |targets| == 3 && |data| == 3
  {
    forall i | 0 <= i < 3 ::
      && At(before, targets[i]).Some? && before[targets[i]].Regular?
      && At(after, targets[i]) == Some(Regular(data[i], before[targets[i]].mode))
  }

  /** A whole update on a schedule that breaks nothing: three files change, and nothing else does. */
  method UpdateWithoutFaults(fs: FileSystem, sha: Sha, payloads: Payloads, targets: seq<Path>, token: string)
    returns (r: Outcome)
    requires |targets| == 3 && fs.Valid() && LawfulSha(sha)
    requires forall k: nat | k >= fs.clock :: fs.schedule(k).Works?
    modifies fs
    ensures r.Ok? <==> Installable(sha, payloads, old(fs.files), old(fs.dirs), targets, token)
    ensures r.Ok? ==>
              && fs.dirs == old(fs.dirs)
              && (forall q: Path | q !in targets :: At(fs.files, q) == At(old(fs.files), q))
              && Upgraded(sha, payloads, targets, old(fs.files), fs.files)
              && Replaced(targets, NewData(sha, payloads), old(fs.files), fs.files)
    ensures r.Err? ==>
              && Untouched(targets, old(fs.files), fs.files)
              && r.error == (
                if !Validates(sha, old(fs.files), targets) || !BinLayout(targets) then Unsupported
                else if WorkDir(targets[0].dir, token) in old(fs.dirs) then FileSystemFailure
                else Preserved)
  {
    hide Validates, ReceiptBytes, LawfulSha, Installable, NewData, Recoverable, Faults, AllOrNothing, Fits;
    ghost var plan, commit, finish, until;
    r, plan, commit, finish, until := ApplyArchiveTransaction(fs, sha, payloads, targets, token);
    SmoothMeans(fs.schedule, old(fs.clock), until);
    if plan.Some? { ValidatesRegular(sha, old(fs.files), targets); }
    Settled(plan, sha, payloads, targets, WorkDir(targets[0].dir, token), old(fs.files), fs.files, r);
  }

  /**
    Whatever single operation breaks, the three targets are all new or all as they were, and nobody has to
    repair anything.
   */
  method UpdateWithOneFault(fs: FileSystem, sha: Sha, payloads: Payloads, targets: seq<Path>, token: string,
                            broken: nat)
    returns (r: Outcome)
    requires |targets| == 3 && fs.Valid() && LawfulSha(sha) && Fits(payloads)
    requires forall k: nat | k >= fs.clock && k != broken :: fs.schedule(k).Works?
    modifies fs
    ensures r.Ok? || !r.error.RollbackFailed?
    ensures r.Ok? ==>
              && Validates(sha, fs.files, targets)
              && Upgraded(sha, payloads, targets, old(fs.files), fs.files)
              && Replaced(targets, NewData(sha, payloads), old(fs.files), fs.files)
    ensures r.Err? ==> Untouched(targets, old(fs.files), fs.files)
  {
    hide Validates, ReceiptBytes, LawfulSha, Installable, NewData, Recoverable, Faults, AllOrNothing, Fits;
    ghost var plan, commit, finish, until;
    r, plan, commit, finish, until := ApplyArchiveTransaction(fs, sha, payloads, targets, token);
    OneFault(fs.schedule, old(fs.clock), until, broken);
    if plan.Some? { ValidatesRegular(sha, old(fs.files), targets); }
    Settled(plan, sha, payloads, targets, WorkDir(targets[0].dir, token), old(fs.files), fs.files, r);
  }

  lemma {:induction false} OneFault(schedule: nat -> Fault, a: nat, b: nat, broken: nat)
    requires a <= b && forall k: nat | k >= a && k != broken :: schedule(k).Works?
    ensures Faults(schedule, b) <= Faults(schedule, a) + if broken < b then 1 else 0
    decreases b - a
  {
    if a < b { OneFault(schedule, a, b - 1, broken); }
  }

  /** All or nothing, said of the files before and after. */
  lemma Settled(plan: Option<Plan>, sha: Sha, payloads: Payloads, targets: seq<Path>, work: Dir,
                before: Files, after: Files, r: Outcome)
    requires |targets| == 3 && (r.Ok? || !r.error.RollbackFailed?) && (r.Ok? ==> plan.Some?)
    requires plan.None? ==> Untouched(targets, before, after)
    requires plan.Some? ==>
               && (forall i | 0 <= i < 3 :: At(before, targets[i]).Some? && before[targets[i]].Regular?)
               && plan.value == PlanOf(targets, work, NewData(sha, payloads), before) && GoodPlan(plan.value)
               && AllOrNothing(plan.value, sha, after, r)
    ensures r.Ok? ==>
              && Validates(sha, after, targets)
              && Replaced(targets, NewData(sha, payloads), before, after)
    ensures r.Err? ==> Untouched(targets, before, after)
  {
    hide Validates, NewData;
    if plan.Some? {
      var p := plan.value;
      assert p.olds[0] == before[targets[0]] && p.olds[1] == before[targets[1]] && p.olds[2] == before[targets[2]];
      assert forall t | t in targets :: t == targets[0] || t == targets[1] || t == targets[2];
    }
  }

  /** Removes the work directory; its failures are ignored. */
  method Discard(fs: FileSystem, targets: seq<Path>, work: Dir)
    requires fs.Valid() && ThreeTargets(targets, work)
    modifies fs
    ensures old(fs.trace) <= fs.trace
    ensures forall k | |old(fs.trace)| <= k < |fs.trace| :: Untouched(targets, fs.files, fs.trace[k])
    ensures forall q: Path | q.dir != work :: At(fs.files, q) == At(old(fs.files), q)
    ensures fs.clock == old(fs.clock) + 2 && fs.Met() >= old(fs.Met())
    ensures fs.Met() == old(fs.Met()) ==>
              fs.dirs == old(fs.dirs) - {work} && forall q: Path | q.dir == work :: At(fs.files, q) == None
  {
    hide FileSystem.Met;
    assert forall t | t in targets :: t.dir != work;
    var _ := fs.RemoveDirAll(work);
    var _ := fs.SyncDir(targets[0].dir);
  }

  lemma ValidatesRegular(sha: Sha, files: Files, targets: seq<Path>)
    requires |targets| == 3 && Validates(sha, files, targets)
    ensures forall i | 0 <= i < 3 :: targets[i] in files && files[targets[i]].Regular?
  {
  }

  lemma Cleaned(plan: Option<Plan>, sha: Sha, targets: seq<Path>, work: Dir, before: Files, after: Files, r: Outcome)
    requires ThreeTargets(targets, work) && (r.Ok? || !r.error.RollbackFailed?)
    requires plan.Some? ==>
               GoodPlan(plan.value) && plan.value.targets == targets && AllOrNothing(plan.value, sha, before, r)
    requires forall p: Path | p.dir != work :: At(after, p) == At(before, p)
    ensures Untouched(targets, before, after)
    ensures plan.Some? ==> AllOrNothing(plan.value, sha, after, r)
  {
    assert forall t | t in targets :: t.dir != work;
    assert At(after, targets[0]) == At(before, targets[0]) && At(after, targets[1]) == At(before, targets[1]);
    assert At(after, targets[2]) == At(before, targets[2]);
  }

  /**
    Wherever a run stops after the first replacement, the program's own staged rollback over all three
    targets brings back every original, exactly when it meets no fault itself; if it does meet one, the
    state it leaves can be rolled back again.
   */
  method RollBackFromStop(fs: FileSystem, targets: seq<Path>, work: Dir, ghost p: Plan, modes: seq<nat>)
    returns (ok: bool)
    requires GoodPlan(p) && p.targets == targets && p.work == work
    requires Ready(fs, p) && Recoverable(p, fs.files)
    requires |modes| == 3 && forall i | 0 <= i < 3 :: modes[i] == p.olds[i].mode
    modifies fs
    ensures fs.Within(old(fs.clock), 17) && fs.Met() >= old(fs.Met()) && (ok <==> fs.Met() == old(fs.Met()))
    ensures ok ==> AllOld(p, fs.files)
    ensures Ready(fs, p) && Recoverable(p, fs.files)
    ensures Elsewhere(p.targets, p.work, old(fs.files), fs.files)
  {
    hide Recoverable, FileSystem.Met;
    var committed := [true, true, true];
    assert committed[0];
    var r := FailAfterMutation(fs, targets, work, p, modes, committed, FileSystemFailure);
    ok := r.error == Preserved;
  }
}
