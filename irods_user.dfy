/** The inode table as the session object holds it: four fields updated in
 *  place by the allocator and by map, unmap and remap. Each method is proved
 *  to leave exactly the table that the matching function of InodeSpec
 *  describes, and to keep the table invariant when its caller keeps to the
 *  discipline of InodeLemmas.Disciplined.
 */
module Vfs {
  import opened InodeSpec
  import InodeLemmas

  /** What the iterator of a non-empty set relies on: it has a first element. */
  lemma NonEmptySetHasElement(s: set<int>)
    requires s != {}
    ensures exists x :: x in s
  {
    if forall x :: x !in s {
      assert false;
    }
  }

  /** The session's table, updated in place. The functions MapStep,
      UnmapStep and RemapStep of InodeSpec are the specification; the methods
      below are the in-place version, written step for step as the source
      does them, and each one's first ensures says it matches its function. */
  class IRODSUser {
    var inodeToPath: map<int, Path>
    var pathToInode: map<Path, int>
    var availableInodeNumbers: set<int>
    var fileID: int

    /** The table these fields hold. */
    function State(): (t: Table)
      reads this
    {
      Table(inodeToPath, pathToInode, availableInodeNumbers, fileID)
    }

    /** A new session: an empty table whose counter starts at 1, then the
        root is established. `rootExists` and `rootPath` stand for the remote
        store's answer about the mount point. */
    constructor (rootExists: bool, rootPath: Path)
      ensures rootExists ==>
        && inodeToPath == map[1 := rootPath]
        && pathToInode == map[rootPath := 1]
        && availableInodeNumbers == {} && fileID == 2
      ensures !rootExists ==> State() == Empty()
      ensures Valid(State()) && Issued(State())
    {
      inodeToPath := map[];
      pathToInode := map[];
      availableInodeNumbers := {};
      fileID := 1;
      new;
      var _ := EstablishRoot(rootExists, rootPath);
    }

    /** getAndIncrementFileID: a recycled number if one is free, otherwise the
        counter's value, after which the counter is incremented. */
    method GetAndIncrementFileID() returns (h: int)
      modifies this
      ensures AllocStep(old(State()), h, State())
      ensures old(availableInodeNumbers) != {} ==>
        && h in old(availableInodeNumbers)
        && availableInodeNumbers == old(availableInodeNumbers) - {h}
        && fileID == old(fileID)
      ensures old(availableInodeNumbers) == {} ==>
        h == old(fileID) && fileID == old(fileID) + 1 && availableInodeNumbers == {}
      ensures inodeToPath == old(inodeToPath) && pathToInode == old(pathToInode)
    {
      if availableInodeNumbers != {} {
        NonEmptySetHasElement(availableInodeNumbers);
        h :| h in availableInodeNumbers;
        availableInodeNumbers := availableInodeNumbers - {h};
        return;
      }
      h := fileID;
      fileID := fileID + 1;
    }

    /** establishRoot: when the root does not exist the error is logged and
        swallowed, and the table is left as it was; otherwise a number is
        allocated and mapped to the root path. */
    method EstablishRoot(rootExists: bool, rootPath: Path) returns (outcome: Outcome)
      modifies this
      ensures !rootExists ==> State() == old(State()) && outcome == Ok
      ensures rootExists ==>
        exists h, issued :: AllocStep(old(State()), h, issued) && (State(), outcome) == MapStep(issued, h, rootPath)
      ensures old(State()) == Empty() ==> outcome == Ok && Valid(State()) && Issued(State())
      ensures old(State()) == Empty() && rootExists ==>
        State() == Table(map[1 := rootPath], map[rootPath := 1], {}, 2)
    {
      if !rootExists {
        return Ok;
      }
      ghost var before := State();
      var h := GetAndIncrementFileID();
      ghost var issued := State();
      outcome := Map(h, rootPath);
      if before == Empty() {
        InodeLemmas.EstablishRootOnFreshTable(h, issued, rootPath);
      }
    }

    /** map(Long, Path): putIfAbsent on the forward map, then on the reverse
        map; when the path is taken, the forward entry just inserted is
        removed again before the error is raised. */
    method Map(h: int, p: Path) returns (outcome: Outcome)
      modifies this
      ensures (State(), outcome) == MapStep(old(State()), h, p)
      ensures outcome == Ok <==> old(h !in inodeToPath && p !in pathToInode)
      ensures outcome == Ok ==>
        inodeToPath == old(inodeToPath)[h := p] && pathToInode == old(pathToInode)[p := h]
      ensures outcome != Ok ==> inodeToPath == old(inodeToPath) && pathToInode == old(pathToInode)
      ensures availableInodeNumbers == old(availableInodeNumbers) && fileID == old(fileID)
      ensures Valid(old(State())) && Issued(old(State())) && 1 <= h < old(fileID) && h !in old(availableInodeNumbers) ==>
        Valid(State()) && Issued(State())
    {
      ghost var before := State();
      var (otherPath, forward) := PutIfAbsent(inodeToPath, h, p);
      inodeToPath := forward;
      if otherPath.Some? {
        return Fail(InodeAlreadyMapped);
      }
      var (otherInode, reverse) := PutIfAbsent(pathToInode, p, h);
      pathToInode := reverse;
      if otherInode.Some? {
        var (removed, rolledBack) := Remove(inodeToPath, h);
        inodeToPath := rolledBack;
        if removed != Some(p) {
          return Fail(RollbackFailed);
        }
        return Fail(PathAlreadyMapped);
      }
      outcome := Ok;
      if Valid(before) && Issued(before) && 1 <= h < before.next && h !in before.free {
        InodeLemmas.MapPreservesInvariant(before, h, p);
      }
    }

    /** unmap(Long, Path): the public overload, which always recycles. */
    method Unmap(h: int, p: Path) returns (outcome: Outcome)
      modifies this
      ensures (State(), outcome) == UnmapStep(old(State()), h, p, true)
      ensures outcome == Ok ==> h in availableInodeNumbers && h !in inodeToPath && p !in pathToInode
      ensures Valid(old(State())) && Issued(old(State())) && (h in old(inodeToPath) ==> old(inodeToPath)[h] == p) ==>
        Valid(State()) && Issued(State())
    {
      outcome := UnmapAndRecycle(h, p, true);
    }

    /** unmap(Long, Path, boolean): remove the forward entry and check that it
        was `p`, remove the reverse entry and check that it was `h`, and only
        then return `h` to the free set if `recycle` is set. */
    method UnmapAndRecycle(h: int, p: Path, recycle: bool) returns (outcome: Outcome)
      modifies this
      ensures (State(), outcome) == UnmapStep(old(State()), h, p, recycle)
      ensures inodeToPath == old(inodeToPath) - {h} && fileID == old(fileID)
      ensures outcome == Ok <==> old(h in inodeToPath && inodeToPath[h] == p && p in pathToInode && pathToInode[p] == h)
      ensures outcome == Ok ==>
        && pathToInode == old(pathToInode) - {p}
        && availableInodeNumbers == if recycle then old(availableInodeNumbers) + {h} else old(availableInodeNumbers)
      ensures outcome != Ok ==> outcome == Fail(InvalidMapping) && availableInodeNumbers == old(availableInodeNumbers)
      ensures Valid(old(State())) && Issued(old(State())) && (h in old(inodeToPath) ==> old(inodeToPath)[h] == p) ==>
        Valid(State()) && Issued(State())
    {
      ghost var before := State();
      if Valid(before) && Issued(before) && (h in before.forward ==> before.forward[h] == p) {
        InodeLemmas.UnmapPreservesInvariant(before, h, p, recycle);
      }
      var (removedPath, forward) := Remove(inodeToPath, h);
      inodeToPath := forward;
      if removedPath != Some(p) {
        return Fail(InvalidMapping);
      }
      var (removedInode, reverse) := Remove(pathToInode, p);
      pathToInode := reverse;
      if removedInode != Some(h) {
        return Fail(InvalidMapping);
      }
      if recycle {
        availableInodeNumbers := availableInodeNumbers + {h};
      }
      outcome := Ok;
    }

    /** remap: unmap the old path without recycling, then map the new one; an
        error from the unmap half is raised before the map half runs. */
    method Remap(h: int, oldPath: Path, newPath: Path) returns (outcome: Outcome)
      modifies this
      ensures (State(), outcome) == RemapStep(old(State()), h, oldPath, newPath)
      ensures availableInodeNumbers == old(availableInodeNumbers) && fileID == old(fileID)
      ensures outcome == Ok ==>
        && inodeToPath == old(inodeToPath)[h := newPath]
        && pathToInode == (old(pathToInode) - {oldPath})[newPath := h]
      ensures Valid(old(State())) && Issued(old(State())) && (h in old(inodeToPath) ==> old(inodeToPath)[h] == oldPath) ==>
        Valid(State()) && Issued(State())
    {
      ghost var before := State();
      outcome := UnmapAndRecycle(h, oldPath, false);
      if outcome.Fail? {
        return;
      }
      outcome := Map(h, newPath);
      if Valid(before) && Issued(before) && (h in before.forward ==> before.forward[h] == oldPath) {
        InodeLemmas.RemapPreservesInvariant(before, h, oldPath, newPath);
      }
    }
  }
}
