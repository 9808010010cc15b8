/** The per-session inode table of an NFS gateway user, as values.
 *
 *  A table holds a forward map from inode number to path, a reverse map from
 *  path to inode number, the set of inode numbers freed for reuse and the
 *  counter that issues new numbers. The operations are written as functions
 *  from the old table to the new table and an outcome; the class in module Vfs
 *  performs the same steps in place and is proved to agree with them.
 */
module InodeSpec {

  /** A path of the remote store; the table compares paths and nothing else. */
  type Path(==)

  datatype Option<T> = None | Some(value: T)

  /** The four IllegalStateException messages the table can raise. */
  datatype Error =
    | InodeAlreadyMapped  // "Inode number is already mapped to exisiting path"
    | PathAlreadyMapped   // "Path is already mapped to exisiting inode number"
    | RollbackFailed      // "Failed to rollback mapping"
    | InvalidMapping      // "Invalid mapping"

  datatype Outcome = Ok | Fail(error: Error)

  datatype Table = Table(
    forward: map<int, Path>,  // inodeToPath_
    reverse: map<Path, int>,  // pathToInode_
    free: set<int>,           // availableInodeNumbers_
    next: int                 // fileID_
  )


  /** The two maps are inverse images of one bijection. */
  ghost predicate Bijective(t: Table)
  {
    && (forall h :: h in t.forward ==> t.forward[h] in t.reverse && t.reverse[t.forward[h]] == h)
    && (forall p :: p in t.reverse ==> t.reverse[p] in t.forward && t.forward[t.reverse[p]] == p)
  }

  /** The table invariant: a bijection, no live inode number in the free set,
      and a counter that never issues 0. */
  ghost predicate Valid(t: Table)
  {
    Bijective(t) && t.forward.Keys !! t.free && t.next >= 1
  }

  /** Every live or free inode number was once issued by the counter. */
  ghost predicate Issued(t: Table)
  {
    forall h :: h in t.forward || h in t.free ==> 1 <= h < t.next
  }

  /** The table of a session before its root is established: inode numbers
      start at 1, and the table already meets the invariant, which is where
      every run of calls on a session begins. */
  function Empty(): (t: Table)
    ensures t.forward == map[] && t.reverse == map[] && t.free == {}
    ensures t.next == 1
    ensures Valid(t) && Issued(t)
  {
    Table(map[], map[], {}, 1)
  }

  /** Map.putIfAbsent: the previous value, if any, and the map afterwards. */
  function PutIfAbsent<K, V>(m: map<K, V>, k: K, v: V): (r: (Option<V>, map<K, V>))
  {
    if k in m then (Some(m[k]), m) else (None, m[k := v])
  }

  /** Map.remove: the removed value, if any, and the map afterwards. */
  function Remove<K, V>(m: map<K, V>, k: K): (r: (Option<V>, map<K, V>))
  {
    if k in m then (Some(m[k]), m - {k}) else (None, m)
  }

  /** getAndIncrementFileID: `h` is the number handed out and `t'` the table
      afterwards. A recycled number is taken when one is free (which one is
      unspecified, as the order of a hash set's iterator is); otherwise the
      counter is read and incremented. The maps never change. */
  ghost predicate AllocStep(t: Table, h: int, t': Table)
  {
    if t.free != {} then
      h in t.free && t' == t.(free := t.free - {h})
    else
      h == t.next && t' == t.(next := t.next + 1)
  }

  /** map(Long, Path): insert into the forward map if absent, then into the
      reverse map if absent, rolling the forward insertion back on a clash. */
  function MapStep(t: Table, h: int, p: Path): (r: (Table, Outcome))
    // succeeds exactly when both keys are free, adding exactly the one pair
    ensures r.1 == Ok <==> h !in t.forward && p !in t.reverse
    ensures r.1 == Ok ==> r.0 == t.(forward := t.forward[h := p], reverse := t.reverse[p := h])
    // a taken inode number is reported first; a failure leaves the table as it was
    ensures h in t.forward ==> r == (t, Fail(InodeAlreadyMapped))
    ensures h !in t.forward && p in t.reverse ==> r == (t, Fail(PathAlreadyMapped))
  {
    var (otherPath, forward) := PutIfAbsent(t.forward, h, p);
    if otherPath.Some? then
      (t.(forward := forward), Fail(InodeAlreadyMapped))
    else
      var (otherInode, reverse) := PutIfAbsent(t.reverse, p, h);
      if otherInode.Some? then
        var (removed, rolledBack) := Remove(forward, h);
        assert rolledBack == t.forward;
        if removed != Some(p) then
          (t.(forward := rolledBack), Fail(RollbackFailed))
        else
          (t.(forward := rolledBack), Fail(PathAlreadyMapped))
      else
        (t.(forward := forward, reverse := reverse), Ok)
  }

  /** unmap(Long, Path, boolean): remove `h` from the forward map and `p` from
      the reverse map, checking each removed value; recycle `h` on request. */
  function UnmapStep(t: Table, h: int, p: Path, recycle: bool): (r: (Table, Outcome))
    // the forward entry of h is gone whatever the outcome: there is no rollback
    ensures r.0.forward == t.forward - {h}
    ensures r.0.next == t.next
    ensures r.1 == Ok <==> h in t.forward && t.forward[h] == p && p in t.reverse && t.reverse[p] == h
    ensures r.1.Fail? ==> r.1.error == InvalidMapping && r.0.free == t.free
    ensures r.1 == Ok ==> r.0.free == if recycle then t.free + {h} else t.free
    // the reverse map is touched only when the forward entry matched
    ensures h in t.forward && t.forward[h] == p ==> r.0.reverse == t.reverse - {p}
    ensures !(h in t.forward && t.forward[h] == p) ==> r.0.reverse == t.reverse
  {
    var (removedPath, forward) := Remove(t.forward, h);
    if removedPath != Some(p) then
      (t.(forward := forward), Fail(InvalidMapping))
    else
      var (removedInode, reverse) := Remove(t.reverse, p);
      var t' := t.(forward := forward, reverse := reverse);
      if removedInode != Some(h) then
        (t', Fail(InvalidMapping))
      else if recycle then
        (t'.(free := t'.free + {h}), Ok)
      else
        (t', Ok)
  }

  /** remap: unmap without recycling, then map the same number to the new path. */
  function RemapStep(t: Table, h: int, oldPath: Path, newPath: Path): (r: (Table, Outcome))
    // a rename never recycles and never issues a number
    ensures r.0.free == t.free && r.0.next == t.next
    ensures r.1 == Ok <==>
      && h in t.forward && t.forward[h] == oldPath
      && oldPath in t.reverse && t.reverse[oldPath] == h
      && (newPath !in t.reverse || newPath == oldPath)
    ensures r.1 == Ok ==>
      && r.0.forward == t.forward[h := newPath]
      && r.0.reverse == (t.reverse - {oldPath})[newPath := h]
    // the unmap half failed: h has lost its forward entry all the same
    ensures !(h in t.forward && t.forward[h] == oldPath && oldPath in t.reverse && t.reverse[oldPath] == h) ==>
      r.1 == Fail(InvalidMapping) && r.0.forward == t.forward - {h}
    ensures r.1 == Fail(InvalidMapping) ==>
      r.0.reverse == if h in t.forward && t.forward[h] == oldPath then t.reverse - {oldPath} else t.reverse
    // the unmap half succeeded and the map half clashed: the old pair is gone, nothing replaces it
    ensures
      && h in t.forward && t.forward[h] == oldPath && oldPath in t.reverse && t.reverse[oldPath] == h
      && newPath in t.reverse && newPath != oldPath ==>
      && r.1 == Fail(PathAlreadyMapped)
      && r.0.forward == t.forward - {h} && r.0.reverse == t.reverse - {oldPath}
  {
    var (unmapped, outcome) := UnmapStep(t, h, oldPath, false);
    if outcome.Fail? then (unmapped, outcome) else MapStep(unmapped, h, newPath)
  }
}
