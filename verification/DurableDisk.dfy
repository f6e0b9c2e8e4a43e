// A disk: what programs see now, and what may be left of it after a crash.

module DurableDisk {
  import opened Wrappers
  import opened Bytes

  /** Where a name is: the directories on the way from the root, and the name. The root is the empty sequence. */
  type Loc = seq<string>

  datatype Node = Dir | File(inode: nat)

  /** `synced` once the contents would survive a crash. */
  datatype Inode = Inode(data: Bytes, synced: bool)

  /**
   * `live` is what programs see. A name whose entry is not durable has in `maybe` every entry that it had since
   * its directory was last synced.
   */
  datatype Disk = Disk(live: map<Loc, Node>, maybe: map<Loc, set<Option<Node>>>, inodes: map<nat, Inode>, next: nat)

  function Get(d: Disk, loc: Loc): Option<Node>
  {
    if loc in d.live then Some(d.live[loc]) else None
  }

  /** The entries that the name may have after a crash. */
  function Possible(d: Disk, loc: Loc): (s: set<Option<Node>>)
    ensures Get(d, loc) in s
  {
    (if loc in d.maybe then d.maybe[loc] else {}) + {Get(d, loc)}
  }

  predicate IsDir(d: Disk, loc: Loc)
  {
    loc == [] || Get(d, loc) == Some(Dir)
  }

  function Parent(loc: Loc): Loc
    requires loc != []
  {
    loc[..|loc| - 1]
  }

  // ---------------------------------------------------------------------------------------------
  // System calls

  /** The name gets another entry, or none. */
  function SetEntry(d: Disk, loc: Loc, node: Option<Node>): Disk
  {
    d.(live := if node.Some? then d.live[loc := node.value] else d.live - {loc},
       maybe := d.maybe[loc := Possible(d, loc) + {node}])
  }

  function SetInode(d: Disk, i: nat, inode: Inode): Disk
  {
    d.(inodes := d.inodes[i := inode])
  }

  /** `fsync` of a file: its contents are durable as they are. */
  function SyncFile(d: Disk, i: nat): Disk
  {
    if i in d.inodes then SetInode(d, i, d.inodes[i].(synced := true)) else d
  }

  /** A new, empty file. */
  function CreateFile(d: Disk, loc: Loc): Disk
  {
    SetEntry(d.(inodes := d.inodes[d.next := Inode([], false)], next := d.next + 1), loc, Some(File(d.next)))
  }

  /** `rename` is one step: the target gets the source's entry and the source loses it. */
  function Rename(d: Disk, source: Loc, target: Loc): Disk
  {
    SetEntry(SetEntry(d, target, Get(d, source)), source, None)
  }

  /** `fsync` of a directory: the entries of its names are durable as they are. */
  function SyncDir(d: Disk, dir: Loc): Disk
  {
    d.(maybe := map loc | loc in d.maybe && (loc == [] || Parent(loc) != dir) :: d.maybe[loc])
  }

  // ---------------------------------------------------------------------------------------------
  // Crashes

  /**
   * `e` is what a crash may leave of `d`: every name has one of its possible entries, no file has two names
   * (a rename is atomic), synced contents are kept and other contents are arbitrary.
   */
  ghost predicate Recovers(d: Disk, e: Disk)
  {
    && (forall loc :: Get(e, loc) in Possible(d, loc))
    && (forall a, b | a in e.live && b in e.live && a != b && e.live[a].File? :: e.live[a] != e.live[b])
    && e.maybe == map[] && e.next == d.next && e.inodes.Keys == d.inodes.Keys
    && (forall i | i in e.inodes :: e.inodes[i].synced && (d.inodes[i].synced ==> e.inodes[i] == d.inodes[i]))
  }

  /** What a reader of the name gets: `None` if there is no file. */
  function Contents(d: Disk, loc: Loc): Option<Bytes>
  {
    match Get(d, loc)
    case Some(File(i)) => if i in d.inodes then Some(d.inodes[i].data) else None
    case _ => None
  }

  /** The entry stands for allowed contents, and they are synced. */
  ghost predicate EntryHolds(d: Disk, entry: Option<Node>, allowed: set<Option<Bytes>>)
  {
    match entry
    case Some(File(i)) => i in d.inodes && d.inodes[i].synced && Some(d.inodes[i].data) in allowed
    case _ => None in allowed
  }

  /** Whatever happens next, the name holds allowed contents and no others. */
  ghost predicate Holds(d: Disk, loc: Loc, allowed: set<Option<Bytes>>)
  {
    forall entry | entry in Possible(d, loc) :: EntryHolds(d, entry, allowed)
  }

  /** A crash, or a reader, finds allowed contents. */
  lemma HoldsThroughCrash(d: Disk, e: Disk, loc: Loc, allowed: set<Option<Bytes>>)
    requires Holds(d, loc, allowed) && Recovers(d, e)
    ensures Contents(e, loc) in allowed && Contents(d, loc) in allowed
    ensures Holds(e, loc, allowed)
  {
    assert EntryHolds(d, Get(e, loc), allowed);
    assert EntryHolds(d, Get(d, loc), allowed);
    assert Possible(e, loc) == {Get(e, loc)};
  }

  /** File numbers in use exist, and new ones are new. */
  ghost predicate WellFormed(d: Disk)
  {
    && (forall i | i in d.inodes :: i < d.next)
    && (forall loc, i | Some(File(i)) in Possible(d, loc) :: i in d.inodes)
    && [] !in d.live && [] !in d.maybe
  }

  /** The file that a name is, no other name may turn out to be. */
  ghost predicate Own(d: Disk, name: Loc)
  {
    Get(d, name).Some? && Get(d, name).value.File? ==> forall loc | loc != name :: Get(d, name) !in Possible(d, loc)
  }

  /** Setting an entry adds to what its name may be, and leaves the other names alone. */
  lemma AfterSet(d: Disk, loc: Loc, node: Option<Node>)
    ensures var e := SetEntry(d, loc, node);
            && (forall l :: Get(e, l) == if l == loc then node else Get(d, l))
            && (forall l :: Possible(e, l) == if l == loc then Possible(d, l) + {node} else Possible(d, l))
  {
  }

  lemma AfterCreate(d: Disk, loc: Loc)
    ensures var e := CreateFile(d, loc);
            && (forall l :: Get(e, l) == if l == loc then Some(File(d.next)) else Get(d, l))
            && (forall l :: Possible(e, l) == if l == loc then Possible(d, l) + {Some(File(d.next))} else Possible(d, l))
  {
    var f := d.(inodes := d.inodes[d.next := Inode([], false)], next := d.next + 1);
    forall l ensures Possible(f, l) == Possible(d, l) && Get(f, l) == Get(d, l) {
    }
    AfterSet(f, loc, Some(File(d.next)));
  }

  lemma AfterRename(d: Disk, source: Loc, target: Loc)
    requires source != target
    ensures var e := Rename(d, source, target);
            && (forall l :: Get(e, l) == if l == target then Get(d, source) else if l == source then None else Get(d, l))
            && (forall l :: Possible(e, l) == if l == target then Possible(d, l) + {Get(d, source)}
                                              else if l == source then Possible(d, l) + {None}
                                              else Possible(d, l))
  {
    AfterSet(d, target, Get(d, source));
    AfterSet(SetEntry(d, target, Get(d, source)), source, None);
  }

  lemma LiveFileExists(d: Disk, loc: Loc, i: nat)
    requires WellFormed(d) && Get(d, loc) == Some(File(i))
    ensures i in d.inodes && i < d.next && loc != []
  {
    assert Some(File(i)) in Possible(d, loc);
  }

  /** A synced directory settles its names. */
  lemma SyncSettles(d: Disk, loc: Loc)
    requires loc != []
    ensures Possible(SyncDir(d, Parent(loc)), loc) == {Get(d, loc)}
  {
  }

  lemma RecoveryIsWellFormed(d: Disk, e: Disk)
    requires WellFormed(d) && Recovers(d, e)
    ensures WellFormed(e) && forall name :: Own(e, name)
  {
    forall loc ensures Possible(e, loc) == {Get(e, loc)} {
    }
    assert Possible(d, []) == {None} && Get(e, []) in Possible(d, []);
  }

  // ---------------------------------------------------------------------------------------------
  // Why contents are synced before the rename

  /** No file has two names. */
  ghost predicate OneName(d: Disk)
  {
    forall a, b | a in d.live && b in d.live && a != b && d.live[a].File? :: d.live[a] != d.live[b]
  }

  /** A file that was not synced may hold anything after a crash. */
  lemma UnsyncedMayTear(d: Disk, loc: Loc, i: nat, bytes: Bytes)
    requires OneName(d) && Get(d, loc) == Some(File(i)) && i in d.inodes && !d.inodes[i].synced
    ensures exists e :: Recovers(d, e) && Contents(e, loc) == Some(bytes)
  {
    var inodes := map k | k in d.inodes :: Inode(if k == i then bytes else d.inodes[k].data, true);
    var e := Disk(d.live, map[], inodes, d.next);
    forall l ensures Get(e, l) in Possible(d, l) {
      assert Get(e, l) == Get(d, l);
    }
    assert Recovers(d, e) && Contents(e, loc) == Some(bytes);
  }

  /** Until its directory is synced, a renamed file may be back at its old contents. */
  lemma UnsyncedRenameMayVanish(d: Disk, source: Loc, target: Loc)
    requires OneName(d) && source != target && Get(d, source).Some?
    requires forall i | i in d.inodes :: d.inodes[i].synced
    ensures exists e :: Recovers(Rename(d, source, target), e) && Contents(e, target) == Contents(d, target)
  {
    var r, e := Rename(d, source, target), Disk(d.live, map[], d.inodes, d.next);
    AfterRename(d, source, target);
    forall l ensures Get(e, l) in Possible(r, l) {
      assert Get(e, l) == Get(d, l);
    }
    assert Recovers(r, e) && Contents(e, target) == Contents(d, target);
  }
}
