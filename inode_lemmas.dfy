/** What the inode table guarantees: which operations keep the table
 *  invariant, which caller mistakes break it, the inverse pairs among the
 *  operations, and that the invariant holds along any run of operations
 *  whose callers keep to the discipline the table relies on.
 */
module InodeLemmas {
  import opened InodeSpec

  /** A fresh number is never live and never 0, and allocating keeps the invariant. */
  lemma AllocIssuesUnusedNumber(t: Table, h: int, t': Table)
    requires Valid(t) && Issued(t)
    requires AllocStep(t, h, t')
    ensures h >= 1 && h !in t.forward && h !in t'.free && h < t'.next
    ensures t'.next == t.next || (t.free == {} && t'.next == t.next + 1)
    ensures Valid(t') && Issued(t')
  {
  }

  /** map keeps the two maps mutual inverses, for any number and path and
      whatever the outcome. */
  lemma MapPreservesBijection(t: Table, h: int, p: Path)
    requires Bijective(t)
    ensures Bijective(MapStep(t, h, p).0)
  {
  }

  /** unmap of the path a number actually holds (or of an unmapped number)
      keeps the two maps mutual inverses, with or without recycling. */
  lemma UnmapPreservesBijection(t: Table, h: int, p: Path, recycle: bool)
    requires Bijective(t)
    requires h in t.forward ==> t.forward[h] == p
    ensures Bijective(UnmapStep(t, h, p, recycle).0)
  {
  }

  /** remap from the path a number actually holds keeps the two maps mutual
      inverses, including when the new path is taken. */
  lemma RemapPreservesBijection(t: Table, h: int, oldPath: Path, newPath: Path)
    requires Bijective(t)
    requires h in t.forward ==> t.forward[h] == oldPath
    ensures Bijective(RemapStep(t, h, oldPath, newPath).0)
  {
  }

  /** Mapping a number the allocator handed out keeps the invariant, whatever the outcome. */
  lemma MapPreservesInvariant(t: Table, h: int, p: Path)
    requires Valid(t) && Issued(t)
    requires 1 <= h < t.next && h !in t.free
    ensures Valid(MapStep(t, h, p).0) && Issued(MapStep(t, h, p).0)
  {
  }

  /** Unmapping the pair that is actually mapped keeps the invariant. */
  lemma UnmapPreservesInvariant(t: Table, h: int, p: Path, recycle: bool)
    requires Valid(t) && Issued(t)
    requires h in t.forward ==> t.forward[h] == p
    ensures Valid(UnmapStep(t, h, p, recycle).0) && Issued(UnmapStep(t, h, p, recycle).0)
  {
  }

  /** Renaming the pair that is actually mapped keeps the invariant, even when
      the new path is taken and the number drops out of both maps. */
  lemma RemapPreservesInvariant(t: Table, h: int, oldPath: Path, newPath: Path)
    requires Valid(t) && Issued(t)
    requires h in t.forward ==> t.forward[h] == oldPath
    ensures Valid(RemapStep(t, h, oldPath, newPath).0) && Issued(RemapStep(t, h, oldPath, newPath).0)
  {
  }

  /** unmap with a stale path removes the forward entry and raises, leaving the
      reverse entry behind: the bijection is broken and nothing repairs it. */
  lemma StaleUnmapBreaksBijection(t: Table, h: int, p: Path, recycle: bool)
    requires Valid(t)
    requires h in t.forward && t.forward[h] != p
    ensures UnmapStep(t, h, p, recycle).1 == Fail(InvalidMapping)
    ensures !Bijective(UnmapStep(t, h, p, recycle).0)
  {
  }

  /** map does not consult the free set: mapping a freed number succeeds and
      leaves it both live and free, so the allocator may hand it out again. */
  lemma MappingFreeNumberBreaksInvariant(t: Table, h: int, p: Path)
    requires Valid(t)
    requires h in t.free && p !in t.reverse
    ensures MapStep(t, h, p).1 == Ok
    ensures !Valid(MapStep(t, h, p).0)
  {
  }

  /** A rename onto a taken path unmaps the number and does not map it again:
      it is in neither map and not free, so it is lost to the allocator. */
  lemma RemapOntoTakenPathLosesNumber(t: Table, h: int, oldPath: Path, newPath: Path)
    requires Valid(t)
    requires h in t.forward && t.forward[h] == oldPath
    requires newPath in t.reverse && newPath != oldPath
    ensures RemapStep(t, h, oldPath, newPath).1 == Fail(PathAlreadyMapped)
    ensures h !in RemapStep(t, h, oldPath, newPath).0.forward
    ensures h !in RemapStep(t, h, oldPath, newPath).0.reverse.Values
    ensures h !in RemapStep(t, h, oldPath, newPath).0.free
    ensures t.reverse[newPath] in RemapStep(t, h, oldPath, newPath).0.forward
  {
  }

  /** unmap without recycling undoes a successful map exactly. */
  lemma UnmapUndoesMap(t: Table, h: int, p: Path)
    requires MapStep(t, h, p).1 == Ok
    ensures UnmapStep(MapStep(t, h, p).0, h, p, false) == (t, Ok)
    ensures UnmapStep(MapStep(t, h, p).0, h, p, true) == (t.(free := t.free + {h}), Ok)
  {
    var t' := MapStep(t, h, p).0;
    assert t'.forward - {h} == t.forward;
    assert t'.reverse - {p} == t.reverse;
  }

  /** Renaming back undoes a successful rename. */
  lemma RemapBackUndoesRemap(t: Table, h: int, oldPath: Path, newPath: Path)
    requires RemapStep(t, h, oldPath, newPath).1 == Ok
    ensures RemapStep(RemapStep(t, h, oldPath, newPath).0, h, newPath, oldPath) == (t, Ok)
  {
    var t' := RemapStep(t, h, oldPath, newPath).0;
    assert t'.forward[h := oldPath] == t.forward;
    assert (t'.reverse - {newPath})[oldPath := h] == t.reverse;
  }

  /** establishRoot on the table of a new session: the first number issued is 1
      and the root path is mapped to it in both directions. */
  lemma EstablishRootOnFreshTable(h: int, t: Table, root: Path)
    requires AllocStep(Empty(), h, t)
    ensures h == 1
    ensures MapStep(t, h, root) == (Table(map[1 := root], map[root := 1], {}, 2), Ok)
    ensures Valid(MapStep(t, h, root).0) && Issued(MapStep(t, h, root).0)
  {
  }

  /** One call a request handler can make on the table. */
  datatype Op =
    | Allocate
    | Map(inode: int, path: Path)
    | Unmap(inode: int, path: Path)
    | Remap(inode: int, oldPath: Path, newPath: Path)

  /** `t'` is a table the call `op` can leave behind when made on `t`,
      whether the call succeeds or raises. */
  ghost predicate Transition(t: Table, op: Op, t': Table)
  {
    match op
    case Allocate => exists h :: AllocStep(t, h, t')
    case Map(h, p) => t' == MapStep(t, h, p).0
    case Unmap(h, p) => t' == UnmapStep(t, h, p, true).0
    case Remap(h, oldPath, newPath) => t' == RemapStep(t, h, oldPath, newPath).0
  }

  /** What callers must observe and the table does not check: map only numbers
      the allocator issued and that are not free again, and unmap or rename
      only the path a number is actually mapped to. */
  ghost predicate Disciplined(t: Table, op: Op)
  {
    match op
    case Allocate => true
    case Map(h, _) => 1 <= h < t.next && h !in t.free
    case Unmap(h, p) => h in t.forward ==> t.forward[h] == p
    case Remap(h, oldPath, _) => h in t.forward ==> t.forward[h] == oldPath
  }

  /** `t'` is the table left by a call `op` on `t` that returned normally. */
  ghost predicate SuccessfulTransition(t: Table, op: Op, t': Table)
  {
    match op
    case Allocate => exists h :: AllocStep(t, h, t')
    case Map(h, p) => MapStep(t, h, p) == (t', Ok)
    case Unmap(h, p) => UnmapStep(t, h, p, true) == (t', Ok)
    case Remap(h, oldPath, newPath) => RemapStep(t, h, oldPath, newPath) == (t', Ok)
  }

  lemma SuccessfulStepPreservesBijection(t: Table, op: Op, t': Table)
    requires Bijective(t) && SuccessfulTransition(t, op, t')
    ensures Bijective(t')
  {
  }

  /** Along any run of calls that all return normally, starting from mutual
      inverses, the two maps stay mutual inverses; no discipline on the
      caller is needed, since a successful unmap or remap names the pair
      that is actually mapped. */
  lemma {:induction false} SuccessfulRunPreservesBijection(tables: seq<Table>, ops: seq<Op>)
    requires |tables| == |ops| + 1
    requires Bijective(tables[0])
    requires forall i :: 0 <= i < |ops| ==> SuccessfulTransition(tables[i], ops[i], tables[i + 1])
    ensures forall i :: 0 <= i < |tables| ==> Bijective(tables[i])
  {
    if ops != [] {
      var n := |ops|;
      SuccessfulRunPreservesBijection(tables[..n], ops[..n - 1]);
      SuccessfulStepPreservesBijection(tables[n - 1], ops[n - 1], tables[n]);
    }
  }

  lemma StepPreservesInvariant(t: Table, op: Op, t': Table)
    requires Valid(t) && Issued(t)
    requires Disciplined(t, op) && Transition(t, op, t')
    ensures Valid(t') && Issued(t')
  {
  }

  /** Along any run of disciplined calls from a valid table, successful or
      not, every table is valid: the maps stay a bijection and no live number
      is free. */
  lemma {:induction false} RunPreservesInvariant(tables: seq<Table>, ops: seq<Op>)
    requires |tables| == |ops| + 1
    requires Valid(tables[0]) && Issued(tables[0])
    requires forall i :: 0 <= i < |ops| ==> Disciplined(tables[i], ops[i])
    requires forall i :: 0 <= i < |ops| ==> Transition(tables[i], ops[i], tables[i + 1])
    ensures forall i :: 0 <= i < |tables| ==> Valid(tables[i]) && Issued(tables[i])
  {
    if ops != [] {
      var n := |ops|;
      RunPreservesInvariant(tables[..n], ops[..n - 1]);
      StepPreservesInvariant(tables[n - 1], ops[n - 1], tables[n]);
    }
  }
}
