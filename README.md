# Inode table of an NFS gateway session

This project models the inode/path table that the iRODS NFS gateway keeps for
each user session (`IRODSUser`). The NFS protocol names files by inode number,
and the remote iRODS store names them by path. The table holds four pieces of
state:

- a forward map from inode number to path (`inodeToPath_`);
- a reverse map from path to inode number (`pathToInode_`);
- a set of inode numbers freed for reuse (`availableInodeNumbers_`);
- a counter (`fileID_`) that starts at 1.

It also has the operations that change that state: the allocator
`getAndIncrementFileID`, `map`, the two `unmap` overloads, `remap`, and
`establishRoot`, which runs when a session is created.

The model has three modules:

- `InodeSpec` (`inode_spec.dfy`) gives the table as a value (`Table`). It
  defines the invariant: the two maps are inverse images of one bijection
  (`Bijective`), no live number is free, and the counter is at least 1
  (`Valid`). `Issued` says every live or free number came from the counter.
  Each operation is a function from the old table to the new table and an
  `Outcome` (`Ok`, or `Fail` with one of the four `IllegalStateException`
  messages). Allocation picks an unspecified element of a hash set, so it is
  the relation `AllocStep`.
- `InodeLemmas` (`inode_lemmas.dfy`) holds the lemmas about those functions.
  It covers invariant preservation, the caller mistakes that break the
  invariant, inverse pairs (map/unmap, remap/remap back), the root of a new
  session, and the invariant along any run of calls (`RunPreservesInvariant`).
- `Vfs` (`irods_user.dfy`) holds the class `IRODSUser`. Its four mutable
  fields carry the Java names. Its methods perform the Java steps in place:
  `putIfAbsent` and `remove` on the maps, adding to and taking from the free
  set, and incrementing the counter. Each method is proved to leave exactly the
  table that the matching `InodeSpec` function describes. Each one keeps the
  invariant when its caller follows the discipline stated by
  `InodeLemmas.Disciplined`.

Notes on what the code does, in the code's own terms:

- `map` rolls back a partial insert: when the path is already taken, it
  removes the forward entry it has just inserted before raising
  (IRODSUser.java:174-179). `unmap` does not do the same. When `unmap(h, p)`
  is called with a path other than the one `h` holds, the forward entry is
  removed first and the error is raised afterwards (IRODSUser.java:195-197).
  The forward entry is never restored, and the reverse entry stays behind, so
  the bijection is broken (`StaleUnmapBreaksBijection`).
- `establishRoot` builds a `DataNotFoundException` ("Cannot establish root")
  when the root does not exist (IRODSUser.java:137), but only logs it and
  returns (IRODSUser.java:139-144). Session creation then goes on with an
  empty table. `EstablishRoot` with `rootExists == false` leaves the table as
  it was.
- `map` does not check the free set. Mapping a freed number makes it both live
  and free (`MappingFreeNumberBreaksInvariant`). So invariant preservation is
  stated for callers that map only numbers the allocator issued and that have
  not been freed again.
- `remap` onto a path that is already taken loses the number. It is removed
  from both maps, is not mapped again, and is not recycled
  (`RemapOntoTakenPathLosesNumber`).
- The rollback check in `map` ("Failed to rollback mapping") is modelled
  (`RollbackFailed`). It is proved never to fire when calls run one at a time:
  `MapStep` never returns that error.
- The Java code compares `Path` and boxed `Long` values with the reference
  operator `!=` (lines 176 and 200). The model compares by value. With
  reference comparison, an `unmap` whose `Long` argument is a different object
  from the one stored could fail with "Invalid mapping" after both entries are
  already removed. The model does not capture that.

## Model

| member | source | states |
|---|---|---|
| InodeSpec.Empty | irods-vfs-impl/src/main/java/org/irods/nfsrods/vfs/IRODSUser.java:41-44 | a new table has empty maps, no free numbers, and a counter at 1, and it already meets the invariant (Valid and Issued), the starting point of every run of calls |
| InodeSpec.MapStep | irods-vfs-impl/src/main/java/org/irods/nfsrods/vfs/IRODSUser.java:159-183 | map succeeds exactly when neither the number nor the path is mapped, and then adds exactly forward[h] = p and reverse[p] = h; a taken number fails with InodeAlreadyMapped and a taken path with PathAlreadyMapped; every failure (including the rollback) leaves the table exactly as before, and the rollback error never occurs |
| InodeSpec.UnmapStep | irods-vfs-impl/src/main/java/org/irods/nfsrods/vfs/IRODSUser.java:191-209 | the forward entry of h is removed whatever the outcome; unmap succeeds exactly when forward[h] = p and reverse[p] = h, and then also removes p from the reverse map and adds h to the free set only if recycling; any failure is InvalidMapping and leaves the free set unchanged; the reverse map is unchanged when the forward entry did not match |
| InodeSpec.RemapStep | irods-vfs-impl/src/main/java/org/irods/nfsrods/vfs/IRODSUser.java:211-216 | remap never touches the free set or counter; it succeeds exactly when (h, old) is mapped both ways and new is free or equal to old, leaving forward[h] = new and reverse = (reverse minus old)[new := h]; a stale pair fails with InvalidMapping and still drops h's forward entry; a taken new path fails with PathAlreadyMapped, with h and old unmapped; on InvalidMapping the reverse map is unchanged, or has lost only the old path when h did hold it |
| InodeLemmas.AllocIssuesUnusedNumber | irods-vfs-impl/src/main/java/org/irods/nfsrods/vfs/IRODSUser.java:101-112 | on a valid table, the allocator issues a number that is at least 1, is not live, and is no longer free; the counter is unchanged, or grows by exactly 1 when the free set was empty; the invariant is kept |
| InodeLemmas.MapPreservesBijection | irods-vfs-impl/src/main/java/org/irods/nfsrods/vfs/IRODSUser.java:159-183 | for any number and path, if the two maps were mutual inverses before map, they still are afterwards, whatever the outcome |
| InodeLemmas.UnmapPreservesBijection | irods-vfs-impl/src/main/java/org/irods/nfsrods/vfs/IRODSUser.java:191-209 | unmap of the path a number actually holds, or of an unmapped number, keeps the two maps mutual inverses, with or without recycling |
| InodeLemmas.RemapPreservesBijection | irods-vfs-impl/src/main/java/org/irods/nfsrods/vfs/IRODSUser.java:211-216 | remap from the path a number actually holds keeps the two maps mutual inverses, also when the new path is taken |
| InodeLemmas.SuccessfulStepPreservesBijection | irods-vfs-impl/src/main/java/org/irods/nfsrods/vfs/IRODSUser.java:101-216 | any call that returns normally (allocate, map, unmap, remap) keeps the two maps mutual inverses, with no condition on the caller |
| InodeLemmas.SuccessfulRunPreservesBijection | irods-vfs-impl/src/main/java/org/irods/nfsrods/vfs/IRODSUser.java:101-216 | along any run of calls that all return normally, starting from mutual inverses, every table in the run has mutual inverse maps |
| InodeLemmas.MapPreservesInvariant | irods-vfs-impl/src/main/java/org/irods/nfsrods/vfs/IRODSUser.java:159-183 | mapping an issued, non-free number keeps the bijection, the disjointness of live and free numbers, and Issued, whether the call succeeds or fails |
| InodeLemmas.UnmapPreservesInvariant | irods-vfs-impl/src/main/java/org/irods/nfsrods/vfs/IRODSUser.java:191-209 | unmapping the path a number actually holds (or an unmapped number) keeps the invariant, with or without recycling |
| InodeLemmas.RemapPreservesInvariant | irods-vfs-impl/src/main/java/org/irods/nfsrods/vfs/IRODSUser.java:211-216 | renaming from the path a number actually holds keeps the invariant, including when the new path is taken |
| InodeLemmas.StaleUnmapBreaksBijection | irods-vfs-impl/src/main/java/org/irods/nfsrods/vfs/IRODSUser.java:195-198 | unmap(h, p) with h mapped to another path raises InvalidMapping and leaves maps that are no longer a bijection, since the forward removal is not rolled back |
| InodeLemmas.MappingFreeNumberBreaksInvariant | irods-vfs-impl/src/main/java/org/irods/nfsrods/vfs/IRODSUser.java:163-172 | map does not consult the free set: mapping a free number to an unmapped path succeeds and leaves that number both live and free |
| InodeLemmas.RemapOntoTakenPathLosesNumber | irods-vfs-impl/src/main/java/org/irods/nfsrods/vfs/IRODSUser.java:211-216 | on a valid table, remapping h from its path onto a path held by another number fails with PathAlreadyMapped; h is then in neither map and not free, and the other number keeps its entry |
| InodeLemmas.UnmapUndoesMap | irods-vfs-impl/src/main/java/org/irods/nfsrods/vfs/IRODSUser.java:185-209 | after a successful map(h, p), unmap(h, p) without recycling restores the table exactly, and with recycling it restores the table with h added to the free set |
| InodeLemmas.RemapBackUndoesRemap | irods-vfs-impl/src/main/java/org/irods/nfsrods/vfs/IRODSUser.java:211-216 | after a successful remap(h, old, new), remap(h, new, old) succeeds and restores the table exactly, so the number stays stable across renames |
| InodeLemmas.EstablishRootOnFreshTable | irods-vfs-impl/src/main/java/org/irods/nfsrods/vfs/IRODSUser.java:129-152 | on a new table the allocator issues 1, and mapping the root then succeeds, giving forward = {1: root}, reverse = {root: 1}, no free numbers and counter 2, a valid table |
| InodeLemmas.StepPreservesInvariant | irods-vfs-impl/src/main/java/org/irods/nfsrods/vfs/IRODSUser.java:101-216 | any single disciplined call (allocate, map, unmap, remap) keeps Valid and Issued, whatever its outcome |
| InodeLemmas.RunPreservesInvariant | irods-vfs-impl/src/main/java/org/irods/nfsrods/vfs/IRODSUser.java:101-216 | along any run of disciplined calls from a valid table, successful or failing, every table in the run is valid: the maps stay a bijection and no live number is free |
| Vfs.IRODSUser.constructor | irods-vfs-impl/src/main/java/org/irods/nfsrods/vfs/IRODSUser.java:39-79 | a new session whose root exists holds exactly {1: root} and {root: 1}, with no free numbers and counter 2; a session without a root holds the empty table; both are valid |
| Vfs.IRODSUser.GetAndIncrementFileID | irods-vfs-impl/src/main/java/org/irods/nfsrods/vfs/IRODSUser.java:101-112 | with free numbers, returns one of them, removes it, and leaves the counter unchanged; otherwise returns the counter's value and increments it by 1; the maps are untouched |
| Vfs.IRODSUser.EstablishRoot | irods-vfs-impl/src/main/java/org/irods/nfsrods/vfs/IRODSUser.java:129-152 | a missing root leaves the table unchanged without an error; otherwise the table is that of an allocation followed by map(number, root); on a new table this succeeds with 1 mapped to the root |
| Vfs.IRODSUser.Map | irods-vfs-impl/src/main/java/org/irods/nfsrods/vfs/IRODSUser.java:159-183 | the new fields and outcome are those of MapStep: success adds exactly the pair to both maps, and a failure leaves both maps as before; the free set and counter never change; the invariant is kept for an issued, non-free number |
| Vfs.IRODSUser.Unmap | irods-vfs-impl/src/main/java/org/irods/nfsrods/vfs/IRODSUser.java:185-189 | the public unmap always recycles: on success h is free and neither h nor p is mapped |
| Vfs.IRODSUser.UnmapAndRecycle | irods-vfs-impl/src/main/java/org/irods/nfsrods/vfs/IRODSUser.java:191-209 | the new fields and outcome are those of UnmapStep: the forward entry of h is always gone; success removes p from the reverse map and recycles h only on request; a failure is InvalidMapping with the free set unchanged |
| Vfs.IRODSUser.Remap | irods-vfs-impl/src/main/java/org/irods/nfsrods/vfs/IRODSUser.java:211-216 | the new fields and outcome are those of RemapStep: success leaves forward[h] = new and reverse[new] = h with old removed; the free set and counter never change |

## Left out

- Session set-up through the Jargon library (proxy account, file factory, user lookup, closing the session) is not modelled. It is network I/O into a library outside this model. The constructor models only its effect: an empty table, then `establishRoot`.
- `rootFile_.exists()` and `getAbsolutePath()` are I/O against the remote store. They become the parameters `rootExists` and `rootPath`.
- `map(Long, String)` is not modelled. It only normalises the string with `Paths.get` before calling `map(Long, Path)`, and paths are opaque values here.
- Concurrency is not modelled: no `NonBlockingHashMap` or synchronized-set interleavings, and no half-visible states between the two map updates. Calls run one at a time. This is also why the rollback error is unreachable in the model.
- Reference comparison with `!=` on `Path` and boxed `Long` values is modelled as value equality.
- The getters that hand out the raw maps are not modelled, and neither are the user id, account and factory getters, logging, or `toString`. Outside mutation through the getters is outside the model.
- The 64-bit `AtomicLong` counter is an unbounded integer. Overflow after 2^63 - 1 allocations is not modelled.
- The path and inode lookups mentioned for the request layer are direct reads of the two maps. The class has no separate operations for them.
