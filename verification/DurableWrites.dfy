// The durable write primitive: one call at a time, with a failure or a crash after any system call.

module DurableWrites {
  import opened Wrappers
  import opened Bytes
  import opened Sequences
  import opened TempNames
  import opened DurableDisk
  import opened DurableWriters

  // ---------------------------------------------------------------------------------------------
  // Paths

  datatype Path = Path(absolute: bool, parts: seq<string>)

  const HERE := Path(false, ["."])

  /** `file_name` */
  function FileName(path: Path): Option<string>
  {
    if path.parts == [] || path.parts[|path.parts| - 1] in [".", ".."] then None
    else Some(path.parts[|path.parts| - 1])
  }

  /** `parent` */
  function ParentPath(path: Path): Option<Path>
  {
    if path.parts == [] then None else Some(path.(parts := path.parts[..|path.parts| - 1]))
  }

  function HoldingDir(path: Path): Path
  {
    match ParentPath(path)
    case Some(p) => if !p.absolute && p.parts == [] then HERE else p
    case None => HERE
  }

  function WithoutDots(parts: seq<string>): seq<string>
  {
    if parts == [] then []
    else WithoutDots(parts[..|parts| - 1]) + if parts[|parts| - 1] == "." then [] else [parts[|parts| - 1]]
  }

  /** Where the path leads, from the current directory. */
  function Resolve(cwd: Loc, path: Path): Loc
  {
    (if path.absolute then [] else cwd) + WithoutDots(path.parts)
  }

  lemma {:induction false} NoDots(parts: seq<string>)
    requires "." !in parts
    ensures WithoutDots(parts) == parts
  {
    if parts != [] {
      var last := |parts| - 1;
      assert parts[..last] + [parts[last]] == parts;
      NoDots(parts[..last]);
    }
  }

  lemma {:induction false} LeadingDot(parts: seq<string>)
    ensures WithoutDots(["."] + parts) == WithoutDots(parts)
  {
    if parts == [] {
      assert ["."][..0] == [] && ["."] + parts == ["."];
    } else {
      var front, last := parts[..|parts| - 1], parts[|parts| - 1];
      LeadingDot(front);
      assert parts == front + [last];
      Associative(["."], front, [last]);
      DotsOfLast(["."] + front, last);
      DotsOfLast(front, last);
    }
  }

  lemma DotsOfLast(front: seq<string>, last: string)
    ensures WithoutDots(front + [last]) == WithoutDots(front) + if last == "." then [] else [last]
  {
    assert (front + [last])[..|front|] == front;
  }

  /** An absolute path leads where it says, and a relative one there from the current directory. A `.` leads nowhere. */
  lemma PathsLead(cwd: Loc, parts: seq<string>)
    requires "." !in parts
    ensures Resolve(cwd, Path(true, parts)) == parts
    ensures Resolve(cwd, Path(false, parts)) == cwd + parts
    ensures Resolve(cwd, Path(false, ["."] + parts)) == cwd + parts
  {
    NoDots(parts);
    LeadingDot(parts);
  }

  /** The holding directory is the one whose entry the name is, for relative paths too. */
  lemma HoldingDirHolds(cwd: Loc, path: Path)
    requires path.parts != [] && path.parts[|path.parts| - 1] != "."
    ensures Resolve(cwd, path) == Resolve(cwd, HoldingDir(path)) + [path.parts[|path.parts| - 1]]
  {
    assert WithoutDots(["."]) == [] by {
      assert ["."][..0] == [];
    }
    var front, last := path.parts[..|path.parts| - 1], path.parts[|path.parts| - 1];
    Associative(if path.absolute then [] else cwd, WithoutDots(front), [last]);
  }

  // ---------------------------------------------------------------------------------------------
  // What may go wrong

  datatype Fault = PreRemoveFault | CreateFault | WriteFault | FlushFault | FsyncFault | RenameFault | CleanUpFault | SyncDirFault

  datatype Result = Done | Failed(reason: string)

  /** What each name may hold. */
  type Allowed = Loc -> set<Option<Bytes>>

  /** Whatever happens next, every name but the temporary ones holds what it may, and nothing else. */
  ghost predicate Safe(d: Disk, allowed: Allowed)
  {
    WellFormed(d) && TempsOwn(d) && forall l | !IsTemp(l) :: Holds(d, l, allowed(l))
  }

  ghost predicate AllSafe(disks: seq<Disk>, allowed: Allowed)
  {
    forall k | 0 <= k < |disks| :: Safe(disks[k], allowed)
  }

  /** The target may hold the bytes as well. */
  ghost function Wider(allowed: Allowed, target: Loc, bytes: Bytes): Allowed
  {
    l => if l == target then allowed(l) + {Some(bytes)} else allowed(l)
  }

  /** Between `d` and `e` nothing happened but to the temporary file. */
  ghost predicate OnlyTemp(d: Disk, e: Disk, temp: Loc)
  {
    forall l | l != temp ::
      Get(e, l) == Get(d, l) && Possible(e, l) == Possible(d, l) && Contents(e, l) == Contents(d, l)
  }

  /** Nothing stands in the way of a temporary file with the bytes in it; a leftover file does not. */
  predicate CanPrepare(d: Disk, temp: Loc, exclusive: bool, faults: set<Fault>)
    requires temp != []
  {
    && IsDir(d, Parent(temp)) && Get(d, temp) != Some(Dir)
    && CreateFault !in faults && WriteFault !in faults && FlushFault !in faults && FsyncFault !in faults
    && (exclusive && Get(d, temp).Some? ==> PreRemoveFault !in faults)
  }

  /** The name has the new contents, for good if its directory was synced; the temporary file is gone. */
  ghost predicate IsPublished(d: Disk, e: Disk, target: Loc, temp: Loc, bytes: Bytes, faults: set<Fault>)
  {
    && Contents(e, target) == Some(bytes) && Get(e, temp) == None
    && (SyncDirFault !in faults ==> Holds(e, target, {Some(bytes)}))
    && forall l | l != target && l != temp ::
         Get(e, l) == Get(d, l) && Possible(e, l) <= Possible(d, l) && Contents(e, l) == Contents(d, l)
  }

  /** What each name may hold after a call. */
  ghost function Outcome(allowed: Allowed, target: Loc, bytes: Bytes, faults: set<Fault>, r: Result): Allowed
  {
    l =>
      if r.Failed? || l != target then allowed(l)
      else if SyncDirFault in faults then allowed(l) + {Some(bytes)}
      else {Some(bytes)}
  }

  // ---------------------------------------------------------------------------------------------
  // Every name stays safe

  lemma SafeIsSound(d: Disk, allowed: Allowed)
    ensures Safe(d, allowed) <==> forall l | !IsTemp(l) :: Sound(d, l, allowed(l))
  {
    assert !IsTemp([]);
  }

  lemma UnlinkSafe(d: Disk, temp: Loc, allowed: Allowed)
    requires Safe(d, allowed) && IsTemp(temp)
    ensures Safe(Unlink(d, temp), allowed)
  {
    forall l | !IsTemp(l) ensures Sound(Unlink(d, temp), l, allowed(l)) {
      UnlinkKeeps(d, temp, l, allowed(l));
    }
    SafeIsSound(Unlink(d, temp), allowed);
  }

  /** A name that may be gone can be removed. */
  lemma RemoveSafe(d: Disk, loc: Loc, allowed: Allowed)
    requires Safe(d, allowed) && None in allowed(loc)
    ensures Safe(Unlink(d, loc), allowed)
  {
    AfterSet(d, loc, None);
    var e := Unlink(d, loc);
    forall l | !IsTemp(l) ensures Holds(e, l, allowed(l)) {
      assert Holds(d, l, allowed(l));
    }
    forall name | IsTemp(name) ensures Own(e, name) {
      assert Own(d, name);
    }
    if e != d {
      LiveFileExists(d, loc, d.live[loc].inode);
    }
  }

  lemma OpenSafe(d: Disk, temp: Loc, allowed: Allowed)
    requires Safe(d, allowed) && IsTemp(temp)
    ensures var (e, i) := OpenTemp(d, temp);
            Safe(e, allowed) && i in e.inodes && (Get(d, temp) != Some(Dir) ==> Get(e, temp) == Some(File(i)))
  {
    var e := OpenTemp(d, temp).0;
    assert !IsTemp([]);
    OpenKeeps(d, temp, [], allowed([]));
    forall l | !IsTemp(l) ensures Sound(e, l, allowed(l)) {
      OpenKeeps(d, temp, l, allowed(l));
    }
    SafeIsSound(e, allowed);
  }

  lemma SetInodeSafe(d: Disk, i: nat, inode: Inode, temp: Loc, allowed: Allowed)
    requires Safe(d, allowed) && IsTemp(temp) && Get(d, temp) == Some(File(i))
    ensures Safe(SetInode(d, i, inode), allowed)
  {
    forall l | !IsTemp(l) ensures Sound(SetInode(d, i, inode), l, allowed(l)) {
      SetInodeKeeps(d, i, inode, temp, l, allowed(l));
    }
    SafeIsSound(SetInode(d, i, inode), allowed);
  }

  lemma RenameSafe(d: Disk, i: nat, temp: Loc, target: Loc, allowed: Allowed)
    requires Safe(d, allowed) && IsTemp(temp) && !IsTemp(target) && target != [] && Get(d, temp) == Some(File(i))
    requires EntryHolds(d, Some(File(i)), allowed(target))
    ensures Safe(Rename(d, temp, target), allowed)
  {
    forall l | !IsTemp(l) ensures Sound(Rename(d, temp, target), l, allowed(l)) {
      RenameKeeps(d, i, temp, target, l, allowed(l));
    }
    SafeIsSound(Rename(d, temp, target), allowed);
  }

  lemma SyncDirSafe(d: Disk, dir: Loc, allowed: Allowed)
    requires Safe(d, allowed)
    ensures Safe(SyncDir(d, dir), allowed)
  {
    forall l | !IsTemp(l) ensures Sound(SyncDir(d, dir), l, allowed(l)) {
      SyncDirKeeps(d, dir, l, allowed(l));
    }
    SafeIsSound(SyncDir(d, dir), allowed);
  }

  lemma SafeWidens(d: Disk, allowed: Allowed, wider: Allowed)
    requires Safe(d, allowed) && forall l :: allowed(l) <= wider(l)
    ensures Safe(d, wider)
  {
    forall l, entry | !IsTemp(l) && entry in Possible(d, l) ensures EntryHolds(d, entry, wider(l)) {
      assert Holds(d, l, allowed(l));
      assert EntryHolds(d, entry, allowed(l));
    }
  }

  lemma AllSafeWidens(disks: seq<Disk>, allowed: Allowed, target: Loc, bytes: Bytes)
    requires AllSafe(disks, allowed)
    ensures AllSafe(disks, Wider(allowed, target, bytes))
  {
    forall k | 0 <= k < |disks| ensures Safe(disks[k], Wider(allowed, target, bytes)) {
      SafeWidens(disks[k], allowed, Wider(allowed, target, bytes));
    }
  }

  /** What a call leaves is what it promised. */
  lemma OutcomeIsSafe(d: Disk, allowed: Allowed, target: Loc, bytes: Bytes, faults: set<Fault>, r: Result)
    requires if r.Done? then Safe(d, Wider(allowed, target, bytes)) else Safe(d, allowed)
    requires r.Done? && SyncDirFault !in faults ==> Holds(d, target, {Some(bytes)})
    ensures Safe(d, Outcome(allowed, target, bytes, faults, r))
  {
    forall l | !IsTemp(l) ensures Holds(d, l, Outcome(allowed, target, bytes, faults, r)(l)) {
      assert Holds(d, l, if r.Done? then Wider(allowed, target, bytes)(l) else allowed(l));
    }
  }

  lemma UnlinkOnly(d: Disk, temp: Loc)
    ensures OnlyTemp(d, Unlink(d, temp), temp)
  {
    AfterSet(d, temp, None);
  }

  lemma OpenOnly(d: Disk, temp: Loc)
    requires WellFormed(d) && Own(d, temp)
    ensures OnlyTemp(d, OpenTemp(d, temp).0, temp)
  {
    match Get(d, temp) {
      case Some(File(i)) => SetInodeOnly(d, i, Inode([], false), temp);
      case _ =>
        AfterCreate(d, temp);
        forall l | l != temp ensures Contents(CreateFile(d, temp), l) == Contents(d, l) {
          assert Get(d, l) in Possible(d, l);
        }
    }
  }

  lemma SetInodeOnly(d: Disk, i: nat, inode: Inode, temp: Loc)
    requires WellFormed(d) && Own(d, temp) && Get(d, temp) == Some(File(i))
    ensures OnlyTemp(d, SetInode(d, i, inode), temp)
  {
    var e := SetInode(d, i, inode);
    forall l | l != temp ensures Get(e, l) == Get(d, l) && Possible(e, l) == Possible(d, l) && Contents(e, l) == Contents(d, l) {
      assert Get(d, l) in Possible(d, l);
    }
  }

  /** The rename alone publishes. */
  lemma RenamePublishes(d: Disk, temp: Loc, i: nat, target: Loc, bytes: Bytes)
    requires temp != target && Get(d, temp) == Some(File(i)) && i in d.inodes && d.inodes[i] == Inode(bytes, true)
    ensures IsPublished(d, Rename(d, temp, target), target, temp, bytes, {SyncDirFault})
  {
    AfterRename(d, temp, target);
  }

  /** The sync of the directory makes it durable. */
  lemma SyncPublishes(d: Disk, e: Disk, target: Loc, temp: Loc, bytes: Bytes, faults: set<Fault>)
    requires target != [] && WellFormed(e) && IsPublished(d, e, target, temp, bytes, {SyncDirFault})
    requires Get(e, target).Some? && EntryHolds(e, Get(e, target), {Some(bytes)})
    ensures IsPublished(d, if SyncDirFault in faults then e else SyncDir(e, Parent(target)), target, temp, bytes, faults)
  {
    SyncShrinks(e, Parent(target));
    SyncSettles(e, target);
  }

  // ---------------------------------------------------------------------------------------------
  // Calls in a row

  datatype Job = Job(path: Path, bytes: Bytes, exclusive: bool, faults: set<Fault>, part: nat)

  /** Nobody publishes to a temporary name. */
  ghost predicate Sensible(cwd: Loc, job: Job)
  {
    job.part <= |job.bytes| && (FileName(job.path).Some? ==> !IsTemp(Resolve(cwd, job.path)))
  }

  /** What each name may hold after the calls. */
  ghost function Standing(allowed: Allowed, cwd: Loc, jobs: seq<Job>, rs: seq<Result>): Allowed
    requires |rs| == |jobs|
  {
    if jobs == [] then allowed
    else
      var n := |jobs| - 1;
      Outcome(Standing(allowed, cwd, jobs[..n], rs[..n]), Resolve(cwd, jobs[n].path), jobs[n].bytes, jobs[n].faults, rs[n])
  }

  /** What a reader of the name finds after the calls: the payload of the last one that published it. */
  ghost function Latest(d: Disk, cwd: Loc, jobs: seq<Job>, rs: seq<Result>, l: Loc): Option<Bytes>
    requires |rs| == |jobs|
  {
    if jobs == [] then Contents(d, l)
    else
      var n := |jobs| - 1;
      if rs[n].Done? && Resolve(cwd, jobs[n].path) == l then Some(jobs[n].bytes)
      else Latest(d, cwd, jobs[..n], rs[..n], l)
  }

  /** Readers of all names but temporary ones find the payload at its target, and nothing else new. */
  ghost predicate Writes(d: Disk, e: Disk, target: Loc, bytes: Bytes, r: Result)
  {
    forall l | !IsTemp(l) :: Contents(e, l) == if r.Done? && l == target then Some(bytes) else Contents(d, l)
  }

  ghost predicate Found(start: Disk, d: Disk, cwd: Loc, jobs: seq<Job>, rs: seq<Result>)
    requires |rs| == |jobs|
  {
    forall l | !IsTemp(l) :: Contents(d, l) == Latest(start, cwd, jobs, rs, l)
  }

  /** The disks that call `j` passed are those of a name that the calls before it left, or of its payload. */
  ghost predicate CrashSafe(allowed: Allowed, cwd: Loc, jobs: seq<Job>, rs: seq<Result>, passed: seq<seq<Disk>>)
    requires |rs| == |jobs| == |passed|
  {
    forall j | 0 <= j < |jobs| ::
      AllSafe(passed[j], Wider(Standing(allowed, cwd, jobs[..j], rs[..j]), Resolve(cwd, jobs[j].path), jobs[j].bytes))
  }

  lemma StandingSnoc(allowed: Allowed, cwd: Loc, jobs: seq<Job>, rs: seq<Result>, job: Job, r: Result)
    requires |rs| == |jobs|
    ensures Standing(allowed, cwd, jobs + [job], rs + [r]) ==
            Outcome(Standing(allowed, cwd, jobs, rs), Resolve(cwd, job.path), job.bytes, job.faults, r)
  {
    assert (jobs + [job])[..|jobs|] == jobs && (rs + [r])[..|jobs|] == rs;
  }

  lemma FoundSnoc(start: Disk, d: Disk, e: Disk, cwd: Loc, jobs: seq<Job>, rs: seq<Result>, job: Job, r: Result)
    requires |rs| == |jobs| && Found(start, d, cwd, jobs, rs) && Writes(d, e, Resolve(cwd, job.path), job.bytes, r)
    ensures Found(start, e, cwd, jobs + [job], rs + [r])
  {
    assert (jobs + [job])[..|jobs|] == jobs && (rs + [r])[..|jobs|] == rs;
  }

  lemma CrashSafeSnoc(allowed: Allowed, cwd: Loc, jobs: seq<Job>, rs: seq<Result>, passed: seq<seq<Disk>>,
                      job: Job, r: Result, more: seq<Disk>)
    requires |rs| == |jobs| == |passed| && CrashSafe(allowed, cwd, jobs, rs, passed)
    requires AllSafe(more, Wider(Standing(allowed, cwd, jobs, rs), Resolve(cwd, job.path), job.bytes))
    ensures CrashSafe(allowed, cwd, jobs + [job], rs + [r], passed + [more])
  {
    var js, qs := jobs + [job], rs + [r];
    assert js[..|jobs|] == jobs && qs[..|jobs|] == rs;
    forall j | 0 <= j < |jobs| ensures js[..j] == jobs[..j] && qs[..j] == rs[..j] {
    }
  }

  // ---------------------------------------------------------------------------------------------
  // System calls

  class FileSystem {
    var disk: Disk
    var seqNo: nat
    const cwd: Loc
    const pid: nat

    /** The disk after every system call so far: a crash may come after any of them. */
    ghost var trail: seq<Disk>

    constructor (disk: Disk, cwd: Loc, pid: nat)
      ensures this.disk == disk && this.cwd == cwd && this.pid == pid && seqNo == 0 && trail == []
    {
      this.disk, this.cwd, this.pid, seqNo, trail := disk, cwd, pid, 0, [];
    }

    method RemoveFile(loc: Loc, fault: bool) returns (ok: bool)
      modifies this`disk, this`trail
      ensures ok <==> !fault && Get(old(disk), loc).Some? && Get(old(disk), loc).value.File?
      ensures disk == if fault then old(disk) else Unlink(old(disk), loc)
      ensures trail == old(trail) + [disk]
    {
      ok := !fault && loc in disk.live && disk.live[loc].File?;
      if ok {
        disk := SetEntry(disk, loc, None);
      }
      trail := trail + [disk];
    }

    method OpenFile(loc: Loc, exclusive: bool, fault: bool) returns (r: Option<nat>)
      requires loc != []
      modifies this`disk, this`trail
      ensures r.Some? <==> !fault && IsDir(old(disk), Parent(loc)) && MayOpen(old(disk), loc, exclusive)
      ensures r.Some? ==> disk == OpenTemp(old(disk), loc).0 && r.value == OpenTemp(old(disk), loc).1
      ensures r.None? ==> disk == old(disk)
      ensures trail == old(trail) + [disk]
    {
      r := None;
      if !fault && IsDir(disk, Parent(loc)) && MayOpen(disk, loc, exclusive) {
        var (after, i) := OpenTemp(disk, loc);
        disk, r := after, Some(i);
      }
      trail := trail + [disk];
    }

    /** A failing write may leave any prefix behind. */
    method WriteAll(i: nat, bytes: Bytes, fault: bool, part: nat) returns (ok: bool)
      requires part <= |bytes|
      modifies this`disk, this`trail
      ensures ok <==> !fault
      ensures disk == SetInode(old(disk), i, Inode(if ok then bytes else bytes[..part], false))
      ensures trail == old(trail) + [disk]
    {
      ok := !fault;
      disk := SetInode(disk, i, Inode(if ok then bytes else bytes[..part], false));
      trail := trail + [disk];
    }

    method SyncAll(i: nat, fault: bool) returns (ok: bool)
      modifies this`disk, this`trail
      ensures ok <==> !fault
      ensures disk == if ok then SyncFile(old(disk), i) else old(disk)
      ensures trail == old(trail) + [disk]
    {
      ok := !fault;
      if ok {
        disk := SyncFile(disk, i);
      }
      trail := trail + [disk];
    }

    method RenameFile(source: Loc, target: Loc, fault: bool) returns (ok: bool)
      modifies this`disk, this`trail
      ensures ok <==> !fault && Get(old(disk), target) != Some(Dir)
      ensures disk == if ok then Rename(old(disk), source, target) else old(disk)
      ensures trail == old(trail) + [disk]
    {
      ok := !fault && Get(disk, target) != Some(Dir);
      if ok {
        disk := Rename(disk, source, target);
      }
      trail := trail + [disk];
    }

    /** `sync_holding_dir`: best effort. */
    method SyncHoldingDir(path: Path, fault: bool)
      modifies this`disk, this`trail
      ensures disk == if fault then old(disk) else SyncDir(old(disk), Resolve(cwd, HoldingDir(path)))
      ensures trail == old(trail) + [disk]
    {
      var dir := Resolve(cwd, HoldingDir(path));
      if !fault {
        disk := SyncDir(disk, dir);
      }
      trail := trail + [disk];
    }

    // -------------------------------------------------------------------------------------------
    // write_with

    /** `write_all`, `flush` and `sync_all` of the open temporary file. */
    method FillTemp(temp: Loc, i: nat, bytes: Bytes, faults: set<Fault>, part: nat, ghost allowed: Allowed)
      returns (ok: bool, ghost passed: seq<Disk>)
      requires part <= |bytes| && IsTemp(temp) && Safe(disk, allowed)
      requires Get(disk, temp) == Some(File(i)) && i in disk.inodes
      modifies this`disk, this`trail
      ensures trail == old(trail) + passed && AllSafe(passed, allowed) && Safe(disk, allowed)
      ensures ok <==> WriteFault !in faults && FlushFault !in faults && FsyncFault !in faults
      ensures ok ==> i in disk.inodes && disk.inodes[i] == Inode(bytes, true)
      ensures OnlyTemp(old(disk), disk, temp) && Get(disk, temp) == Some(File(i))
    {
      var inode := Inode(if WriteFault in faults then bytes[..part] else bytes, false);
      SetInodeSafe(disk, i, inode, temp, allowed);
      SetInodeOnly(disk, i, inode, temp);
      ok := WriteAll(i, bytes, WriteFault in faults, part);
      passed := [disk];
      if !ok || FlushFault in faults {
        return false, passed;
      }
      SetInodeSafe(disk, i, Inode(bytes, true), temp, allowed);
      SetInodeOnly(disk, i, Inode(bytes, true), temp);
      Associative(old(trail), passed, [if FsyncFault in faults then disk else SyncFile(disk, i)]);
      ok := SyncAll(i, FsyncFault in faults);
      passed := passed + [disk];
    }

    method OpenAndFill(temp: Loc, bytes: Bytes, exclusive: bool, faults: set<Fault>, part: nat, ghost allowed: Allowed)
      returns (r: Option<nat>, ghost passed: seq<Disk>)
      requires part <= |bytes| && IsTemp(temp) && temp != [] && Safe(disk, allowed)
      modifies this`disk, this`trail
      ensures trail == old(trail) + passed && AllSafe(passed, allowed) && Safe(disk, allowed)
      ensures r.Some? <==> IsDir(old(disk), Parent(temp)) && MayOpen(old(disk), temp, exclusive)
                           && CreateFault !in faults && WriteFault !in faults && FlushFault !in faults && FsyncFault !in faults
      ensures r.Some? ==> Get(disk, temp) == Some(File(r.value)) && r.value in disk.inodes
                          && disk.inodes[r.value] == Inode(bytes, true)
      ensures OnlyTemp(old(disk), disk, temp)
      ensures Get(disk, temp) == Some(Dir) <==> Get(old(disk), temp) == Some(Dir)
    {
      OpenSafe(disk, temp, allowed);
      OpenOnly(disk, temp);
      r := OpenFile(temp, exclusive, CreateFault in faults);
      passed := [disk];
      if r.Some? {
        var ok: bool;
        ghost var more: seq<Disk>;
        ok, more := FillTemp(temp, r.value, bytes, faults, part, allowed);
        Associative(old(trail), passed, more);
        passed := passed + more;
        r := if ok then r else None;
      }
    }

    /** The temporary file, from clearing its name to syncing its contents. */
    method PrepareTemp(temp: Loc, bytes: Bytes, exclusive: bool, faults: set<Fault>, part: nat, ghost allowed: Allowed)
      returns (r: Option<nat>, ghost passed: seq<Disk>)
      requires part <= |bytes| && IsTemp(temp) && temp != [] && Safe(disk, allowed)
      modifies this`disk, this`trail
      ensures trail == old(trail) + passed && AllSafe(passed, allowed) && Safe(disk, allowed)
      ensures r.Some? <==> CanPrepare(old(disk), temp, exclusive, faults)
      ensures r.Some? ==> Get(disk, temp) == Some(File(r.value)) && r.value in disk.inodes
                          && disk.inodes[r.value] == Inode(bytes, true)
      ensures OnlyTemp(old(disk), disk, temp)
      ensures Get(disk, temp) == Some(Dir) <==> Get(old(disk), temp) == Some(Dir)
    {
      ghost var cleared: seq<Disk> := [];
      if exclusive {
        cleared := ClearTemp(temp, PreRemoveFault in faults, allowed);
      }
      ParentIsKept(old(disk), disk, temp);
      ghost var more: seq<Disk>;
      r, more := OpenAndFill(temp, bytes, exclusive, faults, part, allowed);
      Associative(old(trail), cleared, more);
      passed := cleared + more;
    }

    method ClearTemp(temp: Loc, fault: bool, ghost allowed: Allowed) returns (ghost passed: seq<Disk>)
      requires IsTemp(temp) && Safe(disk, allowed)
      modifies this`disk, this`trail
      ensures trail == old(trail) + passed && AllSafe(passed, allowed) && Safe(disk, allowed)
      ensures OnlyTemp(old(disk), disk, temp)
      ensures Get(disk, temp) == if fault || Get(old(disk), temp) == Some(Dir) then Get(old(disk), temp) else None
    {
      UnlinkSafe(disk, temp, allowed);
      UnlinkOnly(disk, temp);
      AfterSet(disk, temp, None);
      var _ := RemoveFile(temp, fault);
      passed := [disk];
    }

    /** `write_with` */
    method WriteWith(path: Path, bytes: Bytes, exclusive: bool, faults: set<Fault>, part: nat, ghost allowed: Allowed)
      returns (r: Result, ghost passed: seq<Disk>)
      requires part <= |bytes| && Safe(disk, allowed)
      requires FileName(path).Some? ==> !IsTemp(Resolve(cwd, path))
      modifies this
      ensures trail == old(trail) + passed && AllSafe(passed, Wider(allowed, Resolve(cwd, path), bytes))
      ensures Safe(disk, Outcome(allowed, Resolve(cwd, path), bytes, faults, r))
      ensures r == Failed("path has no file name") <==> path.parts == [] || path.parts[|path.parts| - 1] in [".", ".."]
      ensures r == Failed("path has no file name") ==> disk == old(disk)
      ensures path.parts != [] && path.parts[|path.parts| - 1] !in [".", ".."] ==>
                var target := Resolve(cwd, path);
                target != [] &&
                var temp := TempOf(target, Id(pid, old(seqNo)));
                && seqNo == old(seqNo) + 1
                && (r.Done? <==> CanPrepare(old(disk), temp, exclusive, faults)
                                 && RenameFault !in faults && Get(old(disk), target) != Some(Dir))
                && (r.Done? ==> IsPublished(old(disk), disk, target, temp, bytes, faults))
                && (r.Failed? ==>
                      && OnlyTemp(old(disk), disk, temp)
                      && (CleanUpFault !in faults && Get(old(disk), temp) != Some(Dir) ==> Get(disk, temp) == None))
    {
      passed := [];
      if FileName(path).None? {
        r := Failed("path has no file name");
        OutcomeIsSafe(disk, allowed, Resolve(cwd, path), bytes, faults, r);
        return;
      }
      HoldingDirHolds(cwd, path);
      var target := Resolve(cwd, path);
      var id := Id(pid, seqNo);
      seqNo := seqNo + 1;
      var temp := Resolve(cwd, HoldingDir(path)) + [TempName(FileName(path).value, id.pid, id.seqNo)];
      assert temp == TempOf(target, id);
      var ok: bool;
      ok, passed := Attempt(path, temp, bytes, exclusive, faults, part, allowed);
      r := Done;
      if !ok {
        ghost var attempted := passed;
        ghost var more := ClearTemp(temp, CleanUpFault in faults, allowed);
        Associative(old(trail), attempted, more);
        AllSafeWidens(more, allowed, target, bytes);
        passed := attempted + more;
        r := Failed("the write failed");
      }
      OutcomeIsSafe(disk, allowed, target, bytes, faults, r);
    }

    /** The steps that the guard watches over. */
    method Attempt(path: Path, temp: Loc, bytes: Bytes, exclusive: bool, faults: set<Fault>, part: nat, ghost allowed: Allowed)
      returns (ok: bool, ghost passed: seq<Disk>)
      requires part <= |bytes| && FileName(path).Some?
      requires IsTemp(temp) && temp != [] && !IsTemp(Resolve(cwd, path)) && Safe(disk, allowed)
      modifies this`disk, this`trail
      ensures trail == old(trail) + passed && AllSafe(passed, Wider(allowed, Resolve(cwd, path), bytes))
      ensures if ok then Safe(disk, Wider(allowed, Resolve(cwd, path), bytes)) else Safe(disk, allowed)
      ensures ok <==> CanPrepare(old(disk), temp, exclusive, faults)
                      && RenameFault !in faults && Get(old(disk), Resolve(cwd, path)) != Some(Dir)
      ensures !ok ==> OnlyTemp(old(disk), disk, temp) && (Get(disk, temp) == Some(Dir) <==> Get(old(disk), temp) == Some(Dir))
      ensures ok ==> IsPublished(old(disk), disk, Resolve(cwd, path), temp, bytes, faults)
    {
      var f;
      f, passed := PrepareTemp(temp, bytes, exclusive, faults, part, allowed);
      AllSafeWidens(passed, allowed, Resolve(cwd, path), bytes);
      ok := false;
      if f.Some? {
        ghost var more: seq<Disk>;
        ghost var prepared := passed;
        SafeWidens(disk, allowed, Wider(allowed, Resolve(cwd, path), bytes));
        ok, more := Publish(path, temp, f.value, bytes, faults, Wider(allowed, Resolve(cwd, path), bytes));
        Associative(old(trail), prepared, more);
        passed := prepared + more;
      }
    }

    /** The rename, and the sync of the directory that makes it durable. */
    method Publish(path: Path, temp: Loc, i: nat, bytes: Bytes, faults: set<Fault>, ghost allowed: Allowed)
      returns (ok: bool, ghost passed: seq<Disk>)
      requires FileName(path).Some? && Some(bytes) in allowed(Resolve(cwd, path))
      requires IsTemp(temp) && !IsTemp(Resolve(cwd, path)) && Safe(disk, allowed)
      requires Get(disk, temp) == Some(File(i)) && i in disk.inodes && disk.inodes[i] == Inode(bytes, true)
      modifies this`disk, this`trail
      ensures trail == old(trail) + passed && AllSafe(passed, allowed) && Safe(disk, allowed)
      ensures ok <==> RenameFault !in faults && Get(old(disk), Resolve(cwd, path)) != Some(Dir)
      ensures !ok ==> disk == old(disk)
      ensures ok ==> IsPublished(old(disk), disk, Resolve(cwd, path), temp, bytes, faults)
    {
      HoldingDirHolds(cwd, path);
      var target := Resolve(cwd, path);
      RenameSafe(disk, i, temp, target, allowed);
      RenamePublishes(disk, temp, i, target, bytes);
      ok := RenameFile(temp, target, RenameFault in faults);
      passed := [disk];
      if ok {
        SyncDirSafe(disk, Parent(target), allowed);
        SyncPublishes(old(disk), disk, target, temp, bytes, faults);
        Associative(old(trail), passed, [if SyncDirFault in faults then disk else SyncDir(disk, Parent(target))]);
        SyncHoldingDir(path, SyncDirFault in faults);
        passed := passed + [disk];
      }
    }

    /**
     * Calls in a row: after each of them every name holds what the calls so far leave it, and a crash in the middle of
     * one finds that, or the payload of that call at its target.
     */
    method WriteInOrder(jobs: seq<Job>, ghost allowed: Allowed) returns (rs: seq<Result>, ghost passed: seq<seq<Disk>>)
      requires Safe(disk, allowed)
      requires forall j | 0 <= j < |jobs| :: Sensible(cwd, jobs[j])
      modifies this
      ensures |rs| == |jobs| == |passed|
      ensures Safe(disk, Standing(allowed, cwd, jobs, rs)) && Found(old(disk), disk, cwd, jobs, rs)
      ensures CrashSafe(allowed, cwd, jobs, rs, passed)
    {
      rs, passed := [], [];
      for j := 0 to |jobs|
        invariant |rs| == j == |passed|
        invariant Safe(disk, Standing(allowed, cwd, jobs[..j], rs)) && Found(old(disk), disk, cwd, jobs[..j], rs)
        invariant CrashSafe(allowed, cwd, jobs[..j], rs, passed)
      {
        ghost var before := disk;
        var r: Result;
        ghost var more: seq<Disk>;
        r, more := WriteJob(jobs[j], Standing(allowed, cwd, jobs[..j], rs));
        assert jobs[..j + 1] == jobs[..j] + [jobs[j]];
        StandingSnoc(allowed, cwd, jobs[..j], rs, jobs[j], r);
        FoundSnoc(old(disk), before, disk, cwd, jobs[..j], rs, jobs[j], r);
        CrashSafeSnoc(allowed, cwd, jobs[..j], rs, passed, jobs[j], r, more);
        rs, passed := rs + [r], passed + [more];
      }
      assert jobs[..|jobs|] == jobs;
    }

    method WriteJob(job: Job, ghost allowed: Allowed) returns (r: Result, ghost passed: seq<Disk>)
      requires Safe(disk, allowed) && Sensible(cwd, job)
      modifies this
      ensures Safe(disk, Outcome(allowed, Resolve(cwd, job.path), job.bytes, job.faults, r))
      ensures AllSafe(passed, Wider(allowed, Resolve(cwd, job.path), job.bytes))
      ensures Writes(old(disk), disk, Resolve(cwd, job.path), job.bytes, r)
    {
      r, passed := WriteWith(job.path, job.bytes, job.exclusive, job.faults, job.part, allowed);
    }

    // -------------------------------------------------------------------------------------------
    // remove

    method Remove(path: Path, faults: set<Fault>, ghost allowed: Allowed) returns (r: Result)
      modifies this`disk, this`trail
      ensures Safe(old(disk), allowed) && None in allowed(Resolve(cwd, path)) ==> Safe(disk, allowed)
      ensures FileName(path).Some? ==>
                var loc := Resolve(cwd, path);
                && (r.Done? <==> CleanUpFault !in faults && Get(old(disk), loc).Some? && Get(old(disk), loc).value.File?)
                && (r.Done? ==> Get(disk, loc) == None && (SyncDirFault !in faults ==> Holds(disk, loc, {None})))
                && forall l | l != loc :: Get(disk, l) == Get(old(disk), l)
      ensures r.Failed? ==> disk == old(disk)
    {
      var loc := Resolve(cwd, path);
      AfterSet(disk, loc, None);
      if Safe(disk, allowed) && None in allowed(loc) {
        RemoveSafe(disk, loc, allowed);
        SyncDirSafe(disk, Resolve(cwd, HoldingDir(path)), allowed);
        SyncDirSafe(Unlink(disk, loc), Resolve(cwd, HoldingDir(path)), allowed);
      }
      var ok := RemoveFile(loc, CleanUpFault in faults);
      if !ok {
        return Failed("the unlink failed");
      }
      if FileName(path).Some? {
        HoldingDirHolds(cwd, path);
        SyncSettles(disk, loc);
      }
      SyncHoldingDir(path, SyncDirFault in faults);
      r := Done;
    }

    // -------------------------------------------------------------------------------------------
    // create_dir_all

    /**
     * Creates one directory and syncs the one that holds it. `raced`: another process creates it just before.
     */
    method MakeDir(dir: Path, raced: bool, refused: bool, syncFault: bool) returns (ok: bool, ghost made: bool)
      requires Normal(dir) && dir.parts != [] && dir != HERE
      modifies this`disk, this`trail
      ensures var loc := Resolve(cwd, dir);
              && loc != []
              && (forall l | l != loc :: Get(disk, l) == Get(old(disk), l) && Possible(disk, l) <= Possible(old(disk), l))
              && (ok ==> Exists(disk, loc)) && (!ok ==> refused || !IsDir(old(disk), Parent(loc)))
              && (made ==> ok && !raced && !Exists(old(disk), loc) && Get(disk, loc) == Some(Dir))
              && (ok && !made ==> raced || Exists(old(disk), loc)) && (Exists(old(disk), loc) ==> disk == old(disk))
              && (made && !syncFault ==> Possible(disk, loc) == {Some(Dir)})
              && (!made && !raced ==> disk == old(disk)) && (Get(disk, loc) == Get(old(disk), loc) || Get(disk, loc) == Some(Dir))
    {
      var loc := Resolve(cwd, dir);
      ParentResolves(cwd, dir);
      HoldingDirHolds(cwd, dir);
      if raced && !Exists(disk, loc) && IsDir(disk, Parent(loc)) {
        AfterSet(disk, loc, Some(Dir));
        disk := SetEntry(disk, loc, Some(Dir));
        trail := trail + [disk];
      }
      if Exists(disk, loc) {
        return true, false;
      }
      if refused || !IsDir(disk, Parent(loc)) {
        return false, false;
      }
      AfterSet(disk, loc, Some(Dir));
      disk := SetEntry(disk, loc, Some(Dir));
      trail := trail + [disk];
      SyncSettles(disk, loc);
      SyncShrinks(disk, Parent(loc));
      SyncHoldingDir(dir, syncFault);
      return true, true;
    }

    /** The missing ancestors, deepest first, the path itself included. */
    method Missing(path: Path) returns (missing: seq<Path>)
      requires Normal(path) && IsDir(disk, cwd)
      ensures IsMissing(disk, cwd, Resolve(cwd, path), missing)
      ensures Exists(disk, Up(Resolve(cwd, path), |missing|))
    {
      missing := [];
      var cur := Some(path);
      while cur.Some?
        invariant IsMissing(disk, cwd, Resolve(cwd, path), missing)
        invariant cur.Some? && Normal(cur.value) && Resolve(cwd, cur.value) == Up(Resolve(cwd, path), |missing|)
        decreases |cur.value.parts|
      {
        var p := cur.value;
        if p == HERE || p.parts == [] {
          RootsExist(cwd, p);
        }
        if (!p.absolute && p.parts == []) || Exists(disk, Resolve(cwd, p)) {
          break;
        }
        MissingMore(disk, cwd, Resolve(cwd, path), missing, p);
        missing := missing + [p];
        cur := ParentPath(p);
      }
    }

    /** One turn of the second loop: the directory `k` above `loc`. */
    method MakeMissing(dir: Path, ghost loc: Loc, ghost k: nat, raced: set<Loc>, refused: set<Loc>, unsynced: set<Loc>,
                       ghost start: Disk, ghost before: set<Loc>)
      returns (ok: bool, ghost created: set<Loc>)
      requires Normal(dir) && dir.parts != [] && dir != HERE
      requires k < |loc| && Resolve(cwd, dir) == Up(loc, k) && !Exists(start, Up(loc, k)) && Exists(disk, Up(loc, k + 1))
      requires Creates(start, disk, before, raced, unsynced)
      modifies this`disk, this`trail
      ensures Creates(start, disk, created, raced, unsynced) && before <= created
      ensures ok ==> Exists(disk, Up(loc, k)) && Up(loc, k) in created + raced
      ensures !ok ==> refused != {} || !OnlyDirs(start, loc)
    {
      var here := Resolve(cwd, dir);
      ParentIsDir(start, disk, loc, k, before, raced, unsynced);
      ghost var made: bool;
      ok, made := MakeDir(dir, here in raced, here in refused, here in unsynced);
      CreatesMore(start, old(disk), disk, before, raced, unsynced, here, made);
      created := before + if made then {here} else {};
    }

    /**
     * `create_dir_all`: on `Ok` the path exists; every directory that this call created is durable, unless the sync
     * of its holding directory failed; nothing else is touched but by those that create the same directories.
     */
    method CreateDirAll(path: Path, raced: set<Loc>, refused: set<Loc>, unsynced: set<Loc>)
      returns (r: Result, ghost created: set<Loc>)
      requires Normal(path) && IsDir(disk, cwd)
      modifies this`disk, this`trail
      ensures r.Done? ==> Completes(old(disk), Resolve(cwd, path), created + raced) && Exists(disk, Resolve(cwd, path))
      ensures Creates(old(disk), disk, created, raced, unsynced)
      ensures refused == {} && OnlyDirs(old(disk), Resolve(cwd, path)) ==> r.Done?
    {
      var missing := Missing(path);
      created := {};
      var k := |missing|;
      while k > 0
        invariant 0 <= k <= |missing|
        invariant Creates(old(disk), disk, created, raced, unsynced)
        invariant forall j | k <= j < |missing| :: Up(Resolve(cwd, path), j) in created + raced
        invariant Exists(disk, Up(Resolve(cwd, path), k))
      {
        k := k - 1;
        var ok: bool;
        ok, created := MakeMissing(missing[k], Resolve(cwd, path), k, raced, refused, unsynced, old(disk), created);
        if !ok {
          return Failed("create_dir failed"), created;
        }
      }
      Covered(old(disk), cwd, Resolve(cwd, path), missing, created + raced);
      r := Done;
    }
  }

  /** The entries of `created` are new and durable; other names are as they were, but for those that others create. */
  ghost predicate Creates(d: Disk, e: Disk, created: set<Loc>, raced: set<Loc>, unsynced: set<Loc>)
  {
    && (forall l | l in created :: !Exists(d, l) && Get(e, l) == Some(Dir) && (l !in unsynced ==> Possible(e, l) == {Some(Dir)}))
    && (forall l | l !in created && l !in raced :: Get(e, l) == Get(d, l) && Possible(e, l) <= Possible(d, l))
    && (forall l :: Get(e, l) == Get(d, l) || Get(e, l) == Some(Dir))
  }

  /** No file stands where the path needs a directory. */
  ghost predicate OnlyDirs(d: Disk, loc: Loc)
  {
    forall j | 0 <= j < |loc| && Exists(d, Up(loc, j)) :: IsDir(d, Up(loc, j))
  }

  lemma ParentIsDir(d: Disk, e: Disk, loc: Loc, k: nat, created: set<Loc>, raced: set<Loc>, unsynced: set<Loc>)
    requires Creates(d, e, created, raced, unsynced) && k < |loc| && Exists(e, Up(loc, k + 1))
    ensures OnlyDirs(d, loc) ==> IsDir(e, Parent(Up(loc, k)))
  {
    assert Parent(Up(loc, k)) == Up(loc, k + 1);
    assert Get(e, Up(loc, k + 1)) == Get(d, Up(loc, k + 1)) || Get(e, Up(loc, k + 1)) == Some(Dir);
  }

  lemma CreatesMore(d: Disk, before: Disk, e: Disk, created: set<Loc>, raced: set<Loc>, unsynced: set<Loc>, loc: Loc, made: bool)
    requires Creates(d, before, created, raced, unsynced)
    requires forall l | l != loc :: Get(e, l) == Get(before, l) && Possible(e, l) <= Possible(before, l)
    requires Exists(before, loc) || (!made && loc !in raced) ==> e == before
    requires Get(e, loc) == Get(before, loc) || Get(e, loc) == Some(Dir)
    requires made ==> loc !in raced && loc != [] && !Exists(before, loc) && Get(e, loc) == Some(Dir)
                      && (loc !in unsynced ==> Possible(e, loc) == {Some(Dir)})
    ensures Creates(d, e, created + if made then {loc} else {}, raced, unsynced)
  {
    forall l | l in created && l != loc && l !in unsynced ensures Possible(e, l) == {Some(Dir)} {
      assert Get(e, l) in Possible(e, l);
    }
  }

  /** Below the deepest ancestor that was there, every directory of the path is a new one. */
  ghost predicate Completes(d: Disk, loc: Loc, made: set<Loc>)
  {
    exists m :: 0 <= m <= |loc| && Exists(d, Up(loc, m)) && forall j | 0 <= j < m :: !Exists(d, Up(loc, j)) && Up(loc, j) in made
  }

  ghost predicate IsMissing(d: Disk, cwd: Loc, loc: Loc, missing: seq<Path>)
  {
    |missing| <= |loc| && forall k | 0 <= k < |missing| ::
      && Normal(missing[k]) && missing[k].parts != [] && missing[k] != HERE
      && Resolve(cwd, missing[k]) == Up(loc, k) && !Exists(d, Up(loc, k))
  }

  predicate Exists(d: Disk, loc: Loc)
  {
    loc == [] || loc in d.live
  }

  /** As `Path` iterates its components: `.` only at the start of a relative path. */
  predicate Normal(path: Path)
  {
    forall i | 0 <= i < |path.parts| && path.parts[i] == "." :: i == 0 && !path.absolute
  }

  /** `k` directories above. */
  function Up(loc: Loc, k: nat): Loc
    requires k <= |loc|
  {
    loc[..|loc| - k]
  }

  lemma ParentResolves(cwd: Loc, path: Path)
    requires Normal(path) && path.parts != [] && path != HERE
    ensures path.parts[|path.parts| - 1] != "."
    ensures Resolve(cwd, path) != [] && Resolve(cwd, ParentPath(path).value) == Parent(Resolve(cwd, path))
    ensures Normal(ParentPath(path).value)
  {
    var front, last := path.parts[..|path.parts| - 1], path.parts[|path.parts| - 1];
    assert |path.parts| == 1 ==> path.parts == [last];
    Associative(if path.absolute then [] else cwd, WithoutDots(front), [last]);
  }

  lemma MissingMore(d: Disk, cwd: Loc, loc: Loc, missing: seq<Path>, p: Path)
    requires IsMissing(d, cwd, loc, missing) && Normal(p) && p.parts != [] && p != HERE
    requires Resolve(cwd, p) == Up(loc, |missing|) && !Exists(d, Resolve(cwd, p))
    ensures IsMissing(d, cwd, loc, missing + [p]) && Normal(ParentPath(p).value)
    ensures Resolve(cwd, ParentPath(p).value) == Up(loc, |missing| + 1)
  {
    ParentResolves(cwd, p);
  }

  lemma RootsExist(cwd: Loc, path: Path)
    requires path == HERE || path.parts == []
    ensures Resolve(cwd, path) == if path.absolute then [] else cwd
  {
  }

  lemma Covered(d: Disk, cwd: Loc, loc: Loc, missing: seq<Path>, made: set<Loc>)
    requires IsMissing(d, cwd, loc, missing) && Exists(d, Up(loc, |missing|))
    requires forall j | 0 <= j < |missing| :: Up(loc, j) in made
    ensures Completes(d, loc, made) && Up(loc, 0) == loc
  {
  }

  /** Every directory on the way was there for good, or was not there. */
  ghost predicate Anchored(d: Disk, loc: Loc)
  {
    && (forall j | 0 <= j < |loc| && Exists(d, Up(loc, j)) :: Possible(d, Up(loc, j)) == {Some(Dir)})
    && (forall i, j | 0 <= i <= j <= |loc| && Exists(d, Up(loc, i)) :: Exists(d, Up(loc, j)))
  }

  /** A created path survives a crash whole, if no sync failed and no one else made part of it. */
  lemma CreatedPathSurvives(d: Disk, e: Disk, loc: Loc, created: set<Loc>, left: Disk, k: nat)
    requires Anchored(d, loc) && Creates(d, e, created, {}, {}) && Completes(d, loc, created + {})
    requires Recovers(e, left) && k < |loc|
    ensures Get(left, Up(loc, k)) == Some(Dir)
  {
    var m :| 0 <= m <= |loc| && Exists(d, Up(loc, m)) && forall j | 0 <= j < m :: !Exists(d, Up(loc, j)) && Up(loc, j) in created + {};
    if k >= m {
      assert Exists(d, Up(loc, k));
      assert Get(e, Up(loc, k)) in Possible(e, Up(loc, k));
    }
    assert Possible(e, Up(loc, k)) == {Some(Dir)};
    assert Get(left, Up(loc, k)) in Possible(e, Up(loc, k));
  }

  lemma SyncShrinks(d: Disk, dir: Loc)
    ensures forall l :: Possible(SyncDir(d, dir), l) <= Possible(d, l) && Get(SyncDir(d, dir), l) == Get(d, l)
  {
  }

  lemma ParentIsKept(d: Disk, e: Disk, temp: Loc)
    requires temp != [] && (e == d || OnlyTemp(d, e, temp))
    ensures IsDir(e, Parent(temp)) == IsDir(d, Parent(temp))
  {
    assert Parent(temp) != temp;
  }

  /** A crash after any system call of a publish leaves the earlier contents or the new, and no others. */
  lemma PublishIsAtomic(disks: seq<Disk>, k: nat, e: Disk, allowed: Allowed, loc: Loc, earlier: Option<Bytes>, bytes: Bytes)
    requires k < |disks| && AllSafe(disks, Wider(allowed, loc, bytes)) && Recovers(disks[k], e)
    requires !IsTemp(loc) && allowed(loc) == {earlier}
    ensures Contents(e, loc) == earlier || Contents(e, loc) == Some(bytes)
  {
    HoldsThroughCrash(disks[k], e, loc, Wider(allowed, loc, bytes)(loc));
  }
}
