/** A file system in which any operation may fail, as decided by a fault schedule. */
module FaultyFs {
  import opened Common

  type Dir = seq<string>

  datatype Path = Path(dir: Dir, name: string)

  datatype Node = Regular(bytes: Bytes, mode: nat) | Symlink

  type Files = map<Path, Node>

  /** What happens to one operation; a broken write may leave anything, or nothing, in the file it was writing. */
  datatype Fault = Works | Breaks(debris: Option<Node>)

  function At(files: Files, p: Path): Option<Node> {
    if p in files then Some(files[p]) else None
  }

  /** The two states agree everywhere but possibly at `p`. */
  ghost predicate OnlyAt(before: Files, after: Files, p: Path) {
    forall q: Path | q != p :: At(after, q) == At(before, q)
  }

  /** How many of the first `n` operations break. */
  ghost function Faults(schedule: nat -> Fault, n: nat): nat {
    if n == 0 then 0 else Faults(schedule, n - 1) + if schedule(n - 1).Works? then 0 else 1
  }

  /** No operation from number `a` up to number `b` breaks. */
  ghost predicate Smooth(schedule: nat -> Fault, a: nat, b: nat) {
    forall k: nat | a <= k < b :: schedule(k).Works?
  }

  lemma {:induction false} SmoothMeans(schedule: nat -> Fault, a: nat, b: nat)
    requires a <= b
    ensures Faults(schedule, a) <= Faults(schedule, b)
    ensures Faults(schedule, a) == Faults(schedule, b) <==> Smooth(schedule, a, b)
    decreases b - a
  {
    if a < b {
      SmoothMeans(schedule, a, b - 1);
      if Smooth(schedule, a, b - 1) && schedule(b - 1).Works? {
        assert Smooth(schedule, a, b);
      }
    }
  }

  class FileSystem {
    /** What happens to each operation, tests for symbolic links aside. */
    const schedule: nat -> Fault
    /** What happens to each test for a symbolic link. */
    const linkSchedule: nat -> Fault
    var clock: nat
    var linkClock: nat
    var files: Files
    var dirs: set<Dir>

    /** Every state the files have been in after a mutating operation. */
    ghost var trace: seq<Files>

    constructor (schedule: nat -> Fault, linkSchedule: nat -> Fault, files: Files, dirs: set<Dir>)
      ensures this.schedule == schedule && this.linkSchedule == linkSchedule && clock == 0 && linkClock == 0
      ensures this.files == files && this.dirs == dirs && trace == []
    {
      this.schedule, this.linkSchedule, clock, linkClock := schedule, linkSchedule, 0, 0;
      this.files, this.dirs, trace := files, dirs, [];
    }

    /** Files live in existing directories. */
    ghost predicate Valid()
      reads this
    {
      forall p | p in files :: p.dir in dirs
    }

    /** The faults met so far: those the schedule has up to now. */
    ghost function Met(): nat
      reads this`clock
    {
      Faults(schedule, clock)
    }

    /** At most `n` operations have been made since operation number `start`. */
    ghost predicate Within(start: nat, n: nat)
      reads this`clock
    {
      start <= clock <= start + n
    }

    lemma MetMeans()
      ensures Met() == Faults(schedule, clock)
    {
    }

    predicate HasFile(p: Path)
      reads this`files
    {
      p in files && files[p].Regular?
    }

    /** The verdict on the next operation. */
    method Next() returns (fault: Fault)
      modifies this`clock
      ensures fault == schedule(old(clock)) && clock == old(clock) + 1
      ensures Met() == old(Met()) + if fault.Works? then 0 else 1
    {
      fault := schedule(clock);
      clock := clock + 1;
    }

    /** A test for a regular file; when it breaks the answer is no. */
    method IsRegularFile(p: Path) returns (r: bool)
      modifies this`clock
      ensures clock == old(clock) + 1
      ensures Met() >= old(Met()) && (r <==> Met() == old(Met()) && HasFile(p))
    {
      var fault := Next();
      r := fault.Works? && HasFile(p);
    }

    /** A test for a symbolic link; when it breaks the answer is no, as it is for every regular file. */
    method IsSymlink(p: Path) returns (r: bool)
      modifies this`linkClock
      ensures linkClock == old(linkClock) + 1
      ensures r <==> linkSchedule(old(linkClock)).Works? && p in files && files[p].Symlink?
    {
      var fault := linkSchedule(linkClock);
      linkClock := linkClock + 1;
      r := fault.Works? && p in files && files[p].Symlink?;
    }

    method Record()
      modifies this`trace
      ensures trace == old(trace) + [files]
    {
      trace := trace + [files];
    }

    method CreatePrivateDir(d: Dir) returns (ok: bool)
      requires Valid()
      modifies this`clock, this`dirs
      ensures clock == old(clock) + 1
      ensures Valid()
      ensures Met() >= old(Met()) && (ok <==> Met() == old(Met()) && d !in old(dirs))
      ensures ok ==> dirs == old(dirs) + {d}
      ensures !ok ==> old(dirs) <= dirs <= old(dirs) + {d}
    {
      var fault := Next();
      if d in dirs {
        return false;
      }
      dirs := dirs + {d};
      ok := fault.Works?;
    }

    method ReadLimited(p: Path, maxSize: nat) returns (r: Option<Bytes>)
      modifies this`clock
      ensures clock == old(clock) + 1
      ensures Met() >= old(Met())
      ensures r.Some? <==> Met() == old(Met()) && HasFile(p) && |files[p].bytes| <= maxSize
      ensures r.Some? ==> r.value == files[p].bytes
    {
      var fault := Next();
      if fault.Works? && HasFile(p) && |files[p].bytes| <= maxSize {
        return Some(files[p].bytes);
      }
      r := None;
    }

    method Mode(p: Path) returns (r: Option<nat>)
      modifies this`clock
      ensures clock == old(clock) + 1
      ensures Met() >= old(Met()) && (r.Some? <==> Met() == old(Met()) && HasFile(p))
      ensures r.Some? ==> r.value == files[p].mode
    {
      var fault := Next();
      r := if fault.Works? && HasFile(p) then Some(files[p].mode) else None;
    }

    /** Leaves `node` at `p`, or the debris of a failed attempt. */
    method Store(p: Path, node: Node) returns (ok: bool)
      requires Valid() && p.dir in dirs
      modifies this
      ensures clock == old(clock) + 1
      ensures Valid() && dirs == old(dirs) && trace == old(trace) + [files]
      ensures OnlyAt(old(files), files, p)
      ensures Met() >= old(Met()) && (ok <==> Met() == old(Met()))
      ensures ok ==> At(files, p) == Some(node)
    {
      var fault := Next();
      match fault {
        case Works => files := files[p := node];
        case Breaks(None) => files := files - {p};
        case Breaks(Some(junk)) => files := files[p := junk];
      }
      Record();
      ok := fault.Works?;
    }

    method WriteNew(p: Path, data: Bytes, mode: nat) returns (ok: bool)
      requires Valid() && p.dir in dirs
      modifies this
      ensures old(clock) <= clock <= old(clock) + 1
      ensures Valid() && dirs == old(dirs) && old(trace) <= trace
      ensures forall k | |old(trace)| <= k < |trace| :: OnlyAt(old(files), trace[k], p)
      ensures OnlyAt(old(files), files, p)
      ensures Met() >= old(Met()) && (ok <==> Met() == old(Met()) && p !in old(files))
      ensures ok ==> At(files, p) == Some(Regular(data, mode))
    {
      if p in files {
        return false;
      }
      ok := Store(p, Regular(data, mode));
    }

    method Copy(from: Path, to: Path) returns (ok: bool)
      requires Valid() && to.dir in dirs
      modifies this
      ensures old(clock) <= clock <= old(clock) + 1
      ensures Valid() && dirs == old(dirs) && old(trace) <= trace
      ensures forall k | |old(trace)| <= k < |trace| :: OnlyAt(old(files), trace[k], to)
      ensures OnlyAt(old(files), files, to)
      ensures Met() >= old(Met()) && (ok <==> Met() == old(Met()) && old(HasFile(from)))
      ensures ok ==> At(files, to) == At(old(files), from)
    {
      if !HasFile(from) {
        return false;
      }
      ok := Store(to, files[from]);
    }

    method SetMode(p: Path, mode: nat) returns (ok: bool)
      requires Valid() && p.dir in dirs
      modifies this
      ensures old(clock) <= clock <= old(clock) + 1
      ensures Valid() && dirs == old(dirs) && old(trace) <= trace
      ensures forall k | |old(trace)| <= k < |trace| :: OnlyAt(old(files), trace[k], p)
      ensures OnlyAt(old(files), files, p)
      ensures Met() >= old(Met()) && (ok <==> Met() == old(Met()) && old(HasFile(p)))
      ensures ok ==> At(files, p) == Some(Regular(old(files)[p].bytes, mode))
    {
      if !HasFile(p) {
        return false;
      }
      ok := Store(p, Regular(files[p].bytes, mode));
    }

    /** Moves a file over another; a failed rename changes nothing. */
    method Rename(from: Path, to: Path) returns (ok: bool)
      requires Valid() && to.dir in dirs && from != to
      modifies this
      ensures clock == old(clock) + 1
      ensures Valid() && dirs == old(dirs) && trace == old(trace) + [files]
      ensures Met() >= old(Met()) && (ok <==> Met() == old(Met()) && from in old(files))
      ensures ok ==> files == (old(files) - {from})[to := old(files)[from]]
      ensures !ok ==> files == old(files)
    {
      var fault := Next();
      ok := fault.Works? && from in files;
      if ok {
        files := (files - {from})[to := files[from]];
      }
      Record();
    }

    method SyncFile(p: Path) returns (ok: bool)
      modifies this`clock
      ensures clock == old(clock) + 1
      ensures Met() >= old(Met()) && (ok <==> Met() == old(Met()))
    {
      var fault := Next();
      ok := fault.Works?;
    }

    method SyncDir(d: Dir) returns (ok: bool)
      modifies this`clock
      ensures clock == old(clock) + 1
      ensures Met() >= old(Met()) && (ok <==> Met() == old(Met()))
    {
      var fault := Next();
      ok := fault.Works?;
    }

    /** Removes a directory with its files; a failure may leave some of them. */
    method RemoveDirAll(d: Dir) returns (ok: bool)
      requires Valid()
      modifies this
      ensures clock == old(clock) + 1
      ensures Valid() && old(trace) <= trace
      ensures forall k, p: Path | |old(trace)| <= k < |trace| && p.dir != d :: At(trace[k], p) == At(old(files), p)
      ensures forall p: Path | p.dir != d :: At(files, p) == At(old(files), p)
      ensures Met() >= old(Met()) && (ok <==> Met() == old(Met()))
      ensures ok ==> dirs == old(dirs) - {d} && forall p: Path | p.dir == d :: At(files, p) == None
      ensures !ok ==> dirs == old(dirs)
    {
      var fault := Next();
      var left: set<Path> := {};
      if fault.Breaks? {
        left := *;
      }
      files := map p | p in files && (p.dir != d || p in left) :: files[p];
      Record();
      ok := fault.Works?;
      if ok {
        dirs := dirs - {d};
      }
    }

    /** Runs the two binaries and compares their versions; the verdict is the schedule's. */
    method VerifyBinaryVersions(rustscale: Path, rustscaled: Path) returns (ok: bool)
      modifies this`clock
      ensures clock == old(clock) + 1
      ensures Met() >= old(Met()) && (ok <==> Met() == old(Met()))
    {
      var fault := Next();
      ok := fault.Works?;
    }
  }
}
