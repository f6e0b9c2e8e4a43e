// Any number of processes publishing files at once, with failures and crashes between any two steps.

module DurableWriters {
  import opened Wrappers
  import opened Sequences
  import opened Bytes
  import opened TempNames
  import opened DurableDisk

  /** A call of `write_with`: the process and the sequence number it drew. */
  datatype Id = Id(pid: nat, seqNo: nat)

  datatype Stage = Start | Opened | Written | Synced | Renamed | Cleaning

  datatype Writer = Writer(target: Loc, bytes: Bytes, exclusive: bool, stage: Stage, inode: nat)

  datatype State = State(disk: Disk, writers: map<Id, Writer>)

  datatype Step =
    | Begin(id: Id, target: Loc, bytes: Bytes, exclusive: bool)
    | PreRemove(id: Id)
    | Open(id: Id)
    | WriteSome(id: Id, n: nat)
    | Finish(id: Id)
    | Sync(id: Id)
    | Publish(id: Id)
    | SyncHolding(id: Id)
    | SkipHolding(id: Id)
    | Fail(id: Id)
    | CleanUp(id: Id)
    | Abandon(id: Id)
    | Crash(left: Disk)

  function TempOf(target: Loc, id: Id): (temp: Loc)
    requires target != []
    ensures temp != [] && Parent(temp) == Parent(target)
  {
    Parent(target) + [TempName(target[|target| - 1], id.pid, id.seqNo)]
  }

  ghost predicate IsTemp(loc: Loc)
  {
    exists target, id :: target != [] && loc == TempOf(target, id)
  }

  /** No two calls at work share a temporary file, whatever they publish. */
  lemma TempsAreDistinct(t: Loc, i: Id, u: Loc, j: Id)
    requires t != [] && u != [] && TempOf(t, i) == TempOf(u, j)
    ensures t == u && i == j
  {
    var f, g := t[|t| - 1], u[|u| - 1];
    SplitEqual(Parent(t), [TempName(f, i.pid, i.seqNo)], Parent(u), [TempName(g, j.pid, j.seqNo)]);
    assert [TempName(f, i.pid, i.seqNo)][0] == [TempName(g, j.pid, j.seqNo)][0];
    TempNameIsInjective(f, i.pid, i.seqNo, g, j.pid, j.seqNo);
    assert t == Parent(t) + [f] && u == Parent(u) + [g];
  }

  predicate At(s: State, id: Id, stage: Stage)
  {
    id in s.writers && s.writers[id].target != [] && s.writers[id].stage == stage
  }

  predicate MayOpen(d: Disk, temp: Loc, exclusive: bool)
  {
    if exclusive then Get(d, temp) == None else Get(d, temp) != Some(Dir)
  }

  ghost predicate Enabled(s: State, step: Step)
  {
    match step
    case Begin(id, target, _, _) => id !in s.writers && target != [] && !IsTemp(target)
    case PreRemove(id) => At(s, id, Start) && s.writers[id].exclusive
    case Open(id) => At(s, id, Start) && MayOpen(s.disk, TempOf(s.writers[id].target, id), s.writers[id].exclusive)
    case WriteSome(id, n) => At(s, id, Opened) && n <= |s.writers[id].bytes|
    case Finish(id) => At(s, id, Opened)
    case Sync(id) => At(s, id, Written)
    case Publish(id) => At(s, id, Synced) && Get(s.disk, s.writers[id].target) != Some(Dir)
    case SyncHolding(id) => At(s, id, Renamed)
    case SkipHolding(id) => At(s, id, Renamed)
    case Fail(id) => id in s.writers && s.writers[id].target != [] && s.writers[id].stage !in {Renamed, Cleaning}
    case CleanUp(id) => At(s, id, Cleaning)
    case Abandon(id) => At(s, id, Cleaning)
    case Crash(left) => Recovers(s.disk, left)
  }

  /** `remove_file`, best effort. */
  function Unlink(d: Disk, loc: Loc): Disk
  {
    match Get(d, loc) case Some(File(_)) => SetEntry(d, loc, None) case _ => d
  }

  /** The file that `open` gives: the one that is there, emptied, or a new one. */
  function OpenTemp(d: Disk, temp: Loc): (Disk, nat)
  {
    match Get(d, temp)
    case Some(File(i)) => (SetInode(d, i, Inode([], false)), i)
    case _ => (CreateFile(d, temp), d.next)
  }

  function Enter(s: State, id: Id, stage: Stage): State
    requires id in s.writers
  {
    s.(writers := s.writers[id := s.writers[id].(stage := stage)])
  }

  function After(s: State, step: Step): State
    requires Enabled(s, step)
  {
    match step
    case Begin(id, target, bytes, exclusive) => s.(writers := s.writers[id := Writer(target, bytes, exclusive, Start, 0)])
    case PreRemove(id) => s.(disk := Unlink(s.disk, TempOf(s.writers[id].target, id)))
    case Open(id) =>
      var (disk, inode) := OpenTemp(s.disk, TempOf(s.writers[id].target, id));
      State(disk, s.writers[id := s.writers[id].(stage := Opened, inode := inode)])
    case WriteSome(id, n) =>
      s.(disk := SetInode(s.disk, s.writers[id].inode, Inode(s.writers[id].bytes[..n], false)))
    case Finish(id) =>
      Enter(s, id, Written).(disk := SetInode(s.disk, s.writers[id].inode, Inode(s.writers[id].bytes, false)))
    case Sync(id) =>
      Enter(s, id, Synced).(disk := SyncFile(s.disk, s.writers[id].inode))
    case Publish(id) =>
      Enter(s, id, Renamed).(disk := Rename(s.disk, TempOf(s.writers[id].target, id), s.writers[id].target))
    case SyncHolding(id) =>
      State(SyncDir(s.disk, Parent(s.writers[id].target)), s.writers - {id})
    case SkipHolding(id) => s.(writers := s.writers - {id})
    case Fail(id) => Enter(s, id, Cleaning)
    case CleanUp(id) => State(Unlink(s.disk, TempOf(s.writers[id].target, id)), s.writers - {id})
    case Abandon(id) => s.(writers := s.writers - {id})
    case Crash(left) => State(left, map[])
  }

  // ---------------------------------------------------------------------------------------------
  // What the disk keeps

  /** Every temporary file is nothing else. */
  ghost predicate TempsOwn(d: Disk)
  {
    forall name | IsTemp(name) :: Own(d, name)
  }

  ghost predicate Sound(d: Disk, loc: Loc, allowed: set<Option<Bytes>>)
  {
    WellFormed(d) && TempsOwn(d) && Holds(d, loc, allowed)
  }

  lemma UnlinkKeeps(d: Disk, temp: Loc, loc: Loc, allowed: set<Option<Bytes>>)
    requires Sound(d, loc, allowed) && IsTemp(temp) && temp != loc
    ensures Sound(Unlink(d, temp), loc, allowed)
  {
    AfterSet(d, temp, None);
    assert temp != [];
  }

  lemma CreateKeeps(d: Disk, temp: Loc, loc: Loc, allowed: set<Option<Bytes>>)
    requires Sound(d, loc, allowed) && IsTemp(temp) && temp != loc
    ensures Sound(CreateFile(d, temp), loc, allowed)
  {
    var e := CreateFile(d, temp);
    AfterCreate(d, temp);
    assert temp != [];
    forall l, i | Some(File(i)) in Possible(e, l) ensures i in e.inodes {
      assert i == d.next || Some(File(i)) in Possible(d, l);
    }
    forall name | IsTemp(name) ensures Own(e, name) {
      assert Own(d, name);
      assert name != temp && Get(d, name).Some? && Get(d, name).value.File? ==> Get(d, name) in Possible(d, name);
      assert forall l :: Some(File(d.next)) !in Possible(d, l);
    }
  }

  lemma SetInodeKeeps(d: Disk, i: nat, inode: Inode, temp: Loc, loc: Loc, allowed: set<Option<Bytes>>)
    requires Sound(d, loc, allowed) && IsTemp(temp) && temp != loc && Get(d, temp) == Some(File(i))
    ensures Sound(SetInode(d, i, inode), loc, allowed)
  {
    var e := SetInode(d, i, inode);
    forall l ensures Possible(e, l) == Possible(d, l) && Get(e, l) == Get(d, l) {
    }
    LiveFileExists(d, temp, i);
    assert Own(d, temp);
    forall name | IsTemp(name) ensures Own(e, name) {
      assert Own(d, name);
    }
  }

  lemma OpenKeeps(d: Disk, temp: Loc, loc: Loc, allowed: set<Option<Bytes>>)
    requires Sound(d, loc, allowed) && IsTemp(temp) && temp != loc
    ensures var (e, i) := OpenTemp(d, temp);
            Sound(e, loc, allowed) && i in e.inodes && (Get(d, temp) != Some(Dir) ==> Get(e, temp) == Some(File(i)))
  {
    match Get(d, temp) {
      case Some(File(i)) =>
        LiveFileExists(d, temp, i);
        SetInodeKeeps(d, i, Inode([], false), temp, loc, allowed);
      case _ =>
        CreateKeeps(d, temp, loc, allowed);
        AfterCreate(d, temp);
    }
  }

  lemma RenameKeeps(d: Disk, i: nat, temp: Loc, target: Loc, loc: Loc, allowed: set<Option<Bytes>>)
    requires Sound(d, loc, allowed) && IsTemp(temp) && temp != loc
    requires !IsTemp(target) && target != [] && Get(d, temp) == Some(File(i))
    requires target == loc ==> EntryHolds(d, Some(File(i)), allowed)
    ensures Sound(Rename(d, temp, target), loc, allowed)
  {
    var e := Rename(d, temp, target);
    AfterRename(d, temp, target);
    LiveFileExists(d, temp, i);
    RenameKeepsOwn(d, i, temp, target);
  }

  lemma RenameKeepsOwn(d: Disk, i: nat, temp: Loc, target: Loc)
    requires TempsOwn(d) && IsTemp(temp) && !IsTemp(target) && Get(d, temp) == Some(File(i))
    ensures TempsOwn(Rename(d, temp, target))
  {
    var e := Rename(d, temp, target);
    AfterRename(d, temp, target);
    forall name | IsTemp(name) ensures Own(e, name) {
      assert Own(d, name) && Own(d, temp);
      assert Get(d, name) in Possible(d, name);
    }
  }

  lemma SyncDirKeeps(d: Disk, dir: Loc, loc: Loc, allowed: set<Option<Bytes>>)
    requires Sound(d, loc, allowed)
    ensures Sound(SyncDir(d, dir), loc, allowed)
  {
    forall l ensures Possible(SyncDir(d, dir), l) <= Possible(d, l) {
    }
  }

  lemma CrashKeeps(d: Disk, e: Disk, loc: Loc, allowed: set<Option<Bytes>>)
    requires Sound(d, loc, allowed) && Recovers(d, e)
    ensures Sound(e, loc, allowed)
  {
    RecoveryIsWellFormed(d, e);
    HoldsThroughCrash(d, e, loc, allowed);
  }

  // ---------------------------------------------------------------------------------------------
  // What the writers keep

  predicate HasTemp(stage: Stage)
  {
    stage == Opened || stage == Written || stage == Synced
  }

  /** Between opening and renaming, the temporary file is the writer's own and holds what was written. */
  ghost predicate WriterHolds(d: Disk, id: Id, w: Writer)
  {
    && w.target != [] && !IsTemp(w.target)
    && (HasTemp(w.stage) ==> Get(d, TempOf(w.target, id)) == Some(File(w.inode)) && w.inode in d.inodes)
    && (w.stage == Written ==> d.inodes[w.inode].data == w.bytes)
    && (w.stage == Synced ==> d.inodes[w.inode] == Inode(w.bytes, true))
  }

  ghost predicate Inv(s: State, loc: Loc, allowed: set<Option<Bytes>>)
  {
    && Sound(s.disk, loc, allowed)
    && forall id | id in s.writers ::
         WriterHolds(s.disk, id, s.writers[id]) && Pending(s.writers[id], loc, allowed)
  }

  /** A call that has yet to publish at `loc` will publish allowed contents. */
  predicate Pending(w: Writer, loc: Loc, allowed: set<Option<Bytes>>)
  {
    w.target == loc && w.stage != Renamed ==> Some(w.bytes) in allowed
  }

  /** From `d` to `e`, no temporary file but `temp` and no contents but those of `i` change. */
  ghost predicate Touches(d: Disk, e: Disk, temp: Loc, i: nat)
  {
    && (i in d.inodes ==> Get(d, temp) == Some(File(i)))
    && (forall l | IsTemp(l) && l != temp :: Get(e, l) == Get(d, l))
    && (forall k | k in d.inodes && k != i :: k in e.inodes && e.inodes[k] == d.inodes[k])
  }

  lemma OtherWriterStays(d: Disk, e: Disk, target: Loc, id: Id, i: nat, j: Id, w: Writer)
    requires WellFormed(d) && TempsOwn(d) && target != [] && Touches(d, e, TempOf(target, id), i)
    requires WriterHolds(d, j, w) && j != id
    ensures WriterHolds(e, j, w)
  {
    var mine, theirs := TempOf(target, id), TempOf(w.target, j);
    if mine == theirs {
      TempsAreDistinct(target, id, w.target, j);
    }
    assert IsTemp(mine) && IsTemp(theirs);
    if HasTemp(w.stage) && i in d.inodes {
      assert Own(d, mine);
      assert Get(d, theirs) in Possible(d, theirs);
    }
  }

  /** A step of writer `id` on its own temporary file keeps the invariant, if it keeps the disk and the writer. */
  lemma WriterSteps(s: State, id: Id, e: Disk, w: Writer, i: nat, loc: Loc, allowed: set<Option<Bytes>>)
    requires Inv(s, loc, allowed) && id in s.writers
    requires Sound(e, loc, allowed) && Touches(s.disk, e, TempOf(s.writers[id].target, id), i)
    requires WriterHolds(e, id, w) && w.target == s.writers[id].target && w.bytes == s.writers[id].bytes
    requires s.writers[id].stage == Renamed ==> w.stage == Renamed
    ensures Inv(State(e, s.writers[id := w]), loc, allowed)
  {
    forall j | j in s.writers && j != id ensures WriterHolds(e, j, s.writers[j]) {
      OtherWriterStays(s.disk, e, s.writers[id].target, id, i, j, s.writers[j]);
    }
  }

  /** As above, for the last step of a writer. */
  lemma WriterLeaves(s: State, id: Id, e: Disk, i: nat, loc: Loc, allowed: set<Option<Bytes>>)
    requires Inv(s, loc, allowed) && id in s.writers
    requires Sound(e, loc, allowed) && Touches(s.disk, e, TempOf(s.writers[id].target, id), i)
    ensures Inv(State(e, s.writers - {id}), loc, allowed)
  {
    forall j | j in s.writers && j != id ensures WriterHolds(e, j, s.writers[j]) {
      OtherWriterStays(s.disk, e, s.writers[id].target, id, i, j, s.writers[j]);
    }
  }

  lemma UnlinkTouches(d: Disk, temp: Loc)
    requires WellFormed(d)
    ensures Touches(d, Unlink(d, temp), temp, d.next)
  {
    AfterSet(d, temp, None);
  }

  lemma OpenStep(s: State, id: Id, loc: Loc, allowed: set<Option<Bytes>>)
    requires Inv(s, loc, allowed) && Enabled(s, Open(id)) && !IsTemp(loc)
    ensures Inv(After(s, Open(id)), loc, allowed)
  {
    var w := s.writers[id];
    var temp := TempOf(w.target, id);
    var (e, inode) := OpenTemp(s.disk, temp);
    assert IsTemp(temp);
    OpenKeeps(s.disk, temp, loc, allowed);
    AfterCreate(s.disk, temp);
    WriterSteps(s, id, e, w.(stage := Opened, inode := inode), inode, loc, allowed);
  }

  lemma ContentsStep(s: State, id: Id, inode: Inode, stage: Stage, loc: Loc, allowed: set<Option<Bytes>>)
    requires Inv(s, loc, allowed) && id in s.writers && HasTemp(s.writers[id].stage) && HasTemp(stage) && !IsTemp(loc)
    requires stage == Written || stage == Synced ==> inode.data == s.writers[id].bytes
    requires stage == Synced ==> inode.synced
    ensures Inv(State(SetInode(s.disk, s.writers[id].inode, inode), s.writers[id := s.writers[id].(stage := stage)]), loc, allowed)
  {
    var w := s.writers[id];
    var temp := TempOf(w.target, id);
    assert IsTemp(temp);
    SetInodeKeeps(s.disk, w.inode, inode, temp, loc, allowed);
    WriterSteps(s, id, SetInode(s.disk, w.inode, inode), w.(stage := stage), w.inode, loc, allowed);
  }

  lemma PublishStep(s: State, id: Id, loc: Loc, allowed: set<Option<Bytes>>)
    requires Inv(s, loc, allowed) && Enabled(s, Publish(id)) && !IsTemp(loc)
    ensures Inv(After(s, Publish(id)), loc, allowed)
  {
    var w := s.writers[id];
    var temp := TempOf(w.target, id);
    assert IsTemp(temp);
    RenameKeeps(s.disk, w.inode, temp, w.target, loc, allowed);
    AfterRename(s.disk, temp, w.target);
    WriterSteps(s, id, Rename(s.disk, temp, w.target), w.(stage := Renamed), w.inode, loc, allowed);
  }

  lemma BeginStep(s: State, id: Id, target: Loc, bytes: Bytes, exclusive: bool, loc: Loc, allowed: set<Option<Bytes>>)
    requires Inv(s, loc, allowed) && Enabled(s, Begin(id, target, bytes, exclusive))
    requires target == loc ==> Some(bytes) in allowed
    ensures Inv(After(s, Begin(id, target, bytes, exclusive)), loc, allowed)
  {
  }

  lemma LeaveStep(s: State, step: Step, loc: Loc, allowed: set<Option<Bytes>>)
    requires Inv(s, loc, allowed) && Enabled(s, step) && !IsTemp(loc)
    requires step.SyncHolding? || step.SkipHolding? || step.CleanUp? || step.Abandon?
    ensures Inv(After(s, step), loc, allowed)
  {
    var w := s.writers[step.id];
    var temp := TempOf(w.target, step.id);
    assert IsTemp(temp);
    if step.CleanUp? {
      UnlinkKeeps(s.disk, temp, loc, allowed);
      UnlinkTouches(s.disk, temp);
    }
    if step.SyncHolding? {
      SyncDirKeeps(s.disk, Parent(w.target), loc, allowed);
    }
    assert s.disk.next !in s.disk.inodes;
    WriterLeaves(s, step.id, After(s, step).disk, s.disk.next, loc, allowed);
  }

  /** The step publishes nothing at `loc` that is not allowed there. */
  predicate Legal(step: Step, loc: Loc, allowed: set<Option<Bytes>>)
  {
    step.Begin? && step.target == loc ==> Some(step.bytes) in allowed
  }

  lemma InvStep(s: State, step: Step, loc: Loc, allowed: set<Option<Bytes>>)
    requires Inv(s, loc, allowed) && Enabled(s, step) && !IsTemp(loc) && Legal(step, loc, allowed)
    ensures Inv(After(s, step), loc, allowed)
  {
    match step {
      case Begin(id, target, bytes, exclusive) => BeginStep(s, id, target, bytes, exclusive, loc, allowed);
      case PreRemove(id) =>
        assert IsTemp(TempOf(s.writers[id].target, id));
        UnlinkKeeps(s.disk, TempOf(s.writers[id].target, id), loc, allowed);
        UnlinkTouches(s.disk, TempOf(s.writers[id].target, id));
        WriterSteps(s, id, After(s, step).disk, s.writers[id], s.disk.next, loc, allowed);
        assert s.writers[id := s.writers[id]] == s.writers;
      case Open(id) => OpenStep(s, id, loc, allowed);
      case WriteSome(id, n) =>
        ContentsStep(s, id, Inode(s.writers[id].bytes[..n], false), Opened, loc, allowed);
        assert s.writers[id := s.writers[id].(stage := Opened)] == s.writers;
      case Finish(id) => ContentsStep(s, id, Inode(s.writers[id].bytes, false), Written, loc, allowed);
      case Sync(id) => ContentsStep(s, id, s.disk.inodes[s.writers[id].inode].(synced := true), Synced, loc, allowed);
      case Publish(id) => PublishStep(s, id, loc, allowed);
      case Fail(id) => WriterSteps(s, id, s.disk, s.writers[id].(stage := Cleaning), s.disk.next, loc, allowed);
      case Crash(left) => CrashKeeps(s.disk, left, loc, allowed);
      case _ => LeaveStep(s, step, loc, allowed);
    }
  }

  // ---------------------------------------------------------------------------------------------
  // Runs

  ghost predicate Leads(s: State, steps: seq<Step>, t: State)
    decreases |steps|
  {
    if steps == [] then s == t
    else Enabled(s, steps[0]) && Leads(After(s, steps[0]), steps[1..], t)
  }

  lemma {:induction false} InvRun(s: State, steps: seq<Step>, t: State, loc: Loc, allowed: set<Option<Bytes>>)
    requires Inv(s, loc, allowed) && Leads(s, steps, t) && !IsTemp(loc)
    requires forall i | 0 <= i < |steps| :: Legal(steps[i], loc, allowed)
    ensures Inv(t, loc, allowed)
    decreases |steps|
  {
    if steps != [] {
      InvStep(s, steps[0], loc, allowed);
      InvRun(After(s, steps[0]), steps[1..], t, loc, allowed);
    }
  }

  lemma InvIsSeen(t: State, loc: Loc, allowed: set<Option<Bytes>>)
    requires Inv(t, loc, allowed)
    ensures Contents(t.disk, loc) in allowed
    ensures forall e | Recovers(t.disk, e) :: Contents(e, loc) in allowed
  {
    assert EntryHolds(t.disk, Get(t.disk, loc), allowed);
    forall e | Recovers(t.disk, e) ensures Contents(e, loc) in allowed {
      HoldsThroughCrash(t.disk, e, loc, allowed);
    }
  }

  /** What a name may hold after a run: what it may have held before, or all that some call published there. */
  ghost predicate Published(before: Disk, steps: seq<Step>, loc: Loc, contents: Option<Bytes>)
  {
    || (exists entry :: entry in Possible(before, loc) && contents == Data(before, entry))
    || (exists i :: 0 <= i < |steps| && steps[i].Begin? && steps[i].target == loc && contents == Some(steps[i].bytes))
  }

  function Data(d: Disk, entry: Option<Node>): Option<Bytes>
  {
    match entry
    case Some(File(i)) => if i in d.inodes then Some(d.inodes[i].data) else None
    case _ => None
  }

  ghost predicate Settled(d: Disk, loc: Loc)
  {
    forall i | Some(File(i)) in Possible(d, loc) :: i in d.inodes && d.inodes[i].synced
  }

  ghost function AllPublished(before: Disk, steps: seq<Step>, loc: Loc): set<Option<Bytes>>
  {
    (set entry | entry in Possible(before, loc) :: Data(before, entry)) +
    (set i | 0 <= i < |steps| && steps[i].Begin? && steps[i].target == loc :: Some(steps[i].bytes))
  }

  /**
   * Nothing is ever torn. Whatever the writers, failures and crashes, a reader of a published name, and a reader
   * after a further crash, finds the old contents or the whole payload of one call, and nothing else.
   */
  lemma NeverTorn(d: Disk, steps: seq<Step>, t: State, loc: Loc)
    requires WellFormed(d) && TempsOwn(d) && Settled(d, loc) && !IsTemp(loc)
    requires Leads(State(d, map[]), steps, t)
    ensures Published(d, steps, loc, Contents(t.disk, loc))
    ensures forall e | Recovers(t.disk, e) :: Published(d, steps, loc, Contents(e, loc))
  {
    var allowed := AllPublished(d, steps, loc);
    forall entry | entry in Possible(d, loc) ensures EntryHolds(d, entry, allowed) {
      assert Data(d, entry) in allowed;
    }
    InvRun(State(d, map[]), steps, t, loc, allowed);
    InvIsSeen(t, loc, allowed);
  }

  // ---------------------------------------------------------------------------------------------
  // Durability

  /** Programs see one of the `newer` contents at `loc`, and so it will stay. */
  ghost predicate Newest(s: State, loc: Loc, newer: set<Option<Bytes>>)
  {
    && EntryHolds(s.disk, Get(s.disk, loc), newer)
    && forall id | id in s.writers :: Pending(s.writers[id], loc, newer)
  }

  lemma EntryStays(d: Disk, e: Disk, temp: Loc, i: nat, loc: Loc, newer: set<Option<Bytes>>)
    requires WellFormed(d) && Own(d, temp) && temp != loc && Touches(d, e, temp, i)
    requires Get(e, loc) == Get(d, loc) && EntryHolds(d, Get(d, loc), newer)
    ensures EntryHolds(e, Get(e, loc), newer)
  {
    if i in d.inodes {
      assert Get(d, temp) !in Possible(d, loc);
    }
  }

  lemma NewestStep(s: State, step: Step, loc: Loc, allowed: set<Option<Bytes>>, newer: set<Option<Bytes>>)
    requires Inv(s, loc, allowed) && Enabled(s, step) && !IsTemp(loc) && !step.Crash?
    requires Newest(s, loc, newer) && Legal(step, loc, newer)
    ensures Newest(After(s, step), loc, newer)
  {
    if step.Begin? {
      return;
    }
    var id := step.id;
    var w := s.writers[id];
    var temp, e := TempOf(w.target, id), After(s, step).disk;
    assert IsTemp(temp) && Own(s.disk, temp);
    if step.Publish? {
      AfterRename(s.disk, temp, w.target);
      if w.target != loc {
        EntryStays(s.disk, e, temp, w.inode, loc, newer);
      }
    } else {
      var i := StepTouches(s, step, loc, allowed);
      EntryStays(s.disk, e, temp, i, loc, newer);
    }
  }

  /** The one file that a step of a writer can change the contents of. */
  lemma StepTouches(s: State, step: Step, loc: Loc, allowed: set<Option<Bytes>>) returns (i: nat)
    requires Inv(s, loc, allowed) && Enabled(s, step) && !IsTemp(loc) && !step.Crash? && !step.Begin? && !step.Publish?
    ensures Touches(s.disk, After(s, step).disk, TempOf(s.writers[step.id].target, step.id), i)
    ensures Get(After(s, step).disk, loc) == Get(s.disk, loc)
  {
    var w := s.writers[step.id];
    var temp := TempOf(w.target, step.id);
    assert IsTemp(temp);
    if step.Open? {
      AfterCreate(s.disk, temp);
      OpenKeeps(s.disk, temp, loc, allowed);
      i := OpenTemp(s.disk, temp).1;
    } else if step.WriteSome? || step.Finish? || step.Sync? {
      i := w.inode;
    } else {
      AfterSet(s.disk, temp, None);
      i := s.disk.next;
    }
  }

  lemma {:induction false} NewestRun(s: State, steps: seq<Step>, t: State, loc: Loc, allowed: set<Option<Bytes>>, newer: set<Option<Bytes>>)
    requires Inv(s, loc, allowed) && Newest(s, loc, newer) && Leads(s, steps, t) && !IsTemp(loc)
    requires forall i | 0 <= i < |steps| :: Legal(steps[i], loc, allowed) && Legal(steps[i], loc, newer) && !steps[i].Crash?
    ensures Inv(t, loc, allowed) && Newest(t, loc, newer)
    decreases |steps|
  {
    if steps != [] {
      InvStep(s, steps[0], loc, allowed);
      NewestStep(s, steps[0], loc, allowed, newer);
      NewestRun(After(s, steps[0]), steps[1..], t, loc, allowed, newer);
    }
  }

  lemma SyncMakesDurable(u: State, id: Id, loc: Loc, allowed: set<Option<Bytes>>, newer: set<Option<Bytes>>)
    requires Inv(u, loc, allowed) && Newest(u, loc, newer) && Enabled(u, SyncHolding(id)) && u.writers[id].target == loc
    ensures Inv(After(u, SyncHolding(id)), loc, newer)
  {
    SyncDirKeeps(u.disk, Parent(loc), loc, allowed);
    SyncSettles(u.disk, loc);
    assert Holds(SyncDir(u.disk, Parent(loc)), loc, newer);
  }

  lemma PublishedIsNewest(s: State, id: Id, loc: Loc, allowed: set<Option<Bytes>>, newer: set<Option<Bytes>>)
    requires Inv(s, loc, allowed) && Enabled(s, Publish(id)) && s.writers[id].target == loc && !IsTemp(loc)
    requires forall j | j in s.writers :: Pending(s.writers[j], loc, newer)
    ensures Newest(After(s, Publish(id)), loc, newer)
  {
    assert IsTemp(TempOf(loc, id));
    AfterRename(s.disk, TempOf(loc, id), loc);
  }

  /**
   * `Ok` after a synced directory means durable, among any number of writers. From the rename of a call on, no crash
   * brings older contents back once that call has synced the directory: the name holds its bytes, or those of a
   * call that renamed after it.
   */
  lemma SyncedPublishIsDurable(s: State, id: Id, between: seq<Step>, u: State, later: seq<Step>, t: State, loc: Loc,
                               allowed: set<Option<Bytes>>, newer: set<Option<Bytes>>)
    requires Inv(s, loc, allowed) && !IsTemp(loc)
    requires Enabled(s, Publish(id)) && s.writers[id].target == loc
    requires Leads(After(s, Publish(id)), between, u) && Enabled(u, SyncHolding(id)) && u.writers[id].target == loc
    requires Leads(After(u, SyncHolding(id)), later, t)
    requires forall i | 0 <= i < |between| :: Legal(between[i], loc, allowed) && Legal(between[i], loc, newer) && !between[i].Crash?
    requires forall i | 0 <= i < |later| :: Legal(later[i], loc, newer)
    requires forall j | j in s.writers :: Pending(s.writers[j], loc, newer)
    ensures Contents(t.disk, loc) in newer
    ensures forall e | Recovers(t.disk, e) :: Contents(e, loc) in newer
  {
    var published := After(s, Publish(id));
    InvStep(s, Publish(id), loc, allowed);
    PublishedIsNewest(s, id, loc, allowed, newer);
    NewestRun(published, between, u, loc, allowed, newer);
    SyncMakesDurable(u, id, loc, allowed, newer);
    InvRun(After(u, SyncHolding(id)), later, t, loc, newer);
    InvIsSeen(t, loc, newer);
  }
}
