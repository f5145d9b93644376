// The protected-binary update of src/service.rs on Unix: staging, verification, backup, publication
// without overwriting, commit, rollback and the drop that rolls back what was not finished.
module ProtectedBinary {
  import opened Common
  import opened Filesystem

  const PROTECTED_MODE: nat := 0x1ED

  /** What an existing protected file or directory must look like to be touched. */
  predicate IsProtectedFile(entry: Entry, owner: Owner) {
    entry.File? && entry.owner == owner && entry.mode == PROTECTED_MODE
  }

  predicate IsProtectedDirectory(entry: Entry, owner: Owner) {
    entry == Directory(owner, PROTECTED_MODE)
  }

  /** The prior binary is still at the destination or at the backup path. */
  ghost predicate PriorKept(entries: Tree, prior: Option<Entry>, destination: Path, backup: Path) {
    prior.Some? ==>
      || (destination in entries && entries[destination] == prior.value)
      || (backup in entries && entries[backup] == prior.value)
  }

  /** Every state visited since kept the prior binary. */
  ghost predicate AllKept(before: set<Tree>, after: set<Tree>, prior: Option<Entry>, destination: Path, backup: Path) {
    forall e :: e in after && e !in before ==> PriorKept(e, prior, destination, backup)
  }

  /** The restoring rename succeeds, the sync after it fails, and dropping the update removes the restored file. */
  ghost predicate LosesPrior(disk: Disk, start: nat, hasPrior: bool) {
    hasPrior && !disk.Fails(start) && !disk.Fails(start + 1) && disk.Fails(start + 2) && !disk.Fails(start + 3)
  }

  /** A rollback was begun, at operation `undoneAt`, and loses the prior binary. */
  ghost predicate Loses(disk: Disk, undoneAt: Option<nat>, prior: Option<Entry>) {
    undoneAt.Some? && LosesPrior(disk, undoneAt.value, prior.Some?)
  }

  /** Operation `n` is one since `start`, and the one before it failed. */
  ghost predicate FollowsFailure(disk: Disk, start: nat, n: nat)
    reads disk
  {
    start < n < disk.clock && disk.Fails(n - 1)
  }

  /**
   * The rollback begun at `undoneAt`, if any, loses the prior binary or the prior binary is kept in every state
   * since.
   */
  ghost predicate KeptUnlessLost(disk: Disk, before: set<Tree>, undoneAt: Option<nat>, prior: Option<Entry>,
                                 destination: Path, backup: Path)
    reads disk
  {
    && before <= disk.visited
    && (PriorKept(disk.entries, prior, destination, backup) <==> !Loses(disk, undoneAt, prior))
    && if Loses(disk, undoneAt, prior) then disk.clock == undoneAt.value + 5
       else AllKept(before, disk.visited, prior, destination, backup)
  }

  /** Only the destination and the backup may differ, and their directory may go if it was created for the update. */
  ghost predicate OnlyThese(before: Tree, after: Tree, destination: Path, backup: Path, createdParent: bool)
    requires destination != []
  {
    && (createdParent && Parent(destination) in after ==>
        Parent(destination) in before && after[Parent(destination)] == before[Parent(destination)])
    && forall path :: path != destination && path != backup && !(createdParent && path == Parent(destination)) ==>
      (path in before <==> path in after) && (path in before ==> before[path] == after[path])
  }

  class UnixProtectedBinaryUpdate {
    const destination: Path
    var backup: Option<Path>
    var createdParent: bool
    var finished: bool

    constructor (destination: Path, backup: Option<Path>)
      ensures this.destination == destination && this.backup == backup && !createdParent && !finished
    {
      this.destination := destination;
      this.backup := backup;
      this.createdParent := false;
      this.finished := false;
    }

    /** A freshly created directory cannot have held a prior binary. */
    ghost predicate Valid()
      reads this
    {
      && |destination| >= 2
      && (backup.Some? ==> backup.value != destination && IsChild(backup.value, Parent(destination)))
      && (createdParent ==> backup.None?)
    }

    /** The files the update concerns are files in a directory, if they are there at all. */
    ghost predicate Applies(entries: Tree)
      requires |destination| >= 2
      reads this
    {
      var parent := Parent(destination);
      && (parent in entries ==> entries[parent].Directory?)
      && (destination in entries ==> entries[destination].File? && parent in entries)
      && (backup.Some? && backup.value in entries ==> entries[backup.value].File? && parent in entries)
    }

    /** The states one rollback pass over `tree` goes through or ends in. */
    ghost predicate PassState(tree: Tree, e: Tree)
      requires |destination| >= 2
      reads this
    {
      || e == tree
      || e == tree - {destination}
      || (backup.Some? && backup.value in tree && e == Undone(tree))
      || (createdParent && e == Unparented(tree))
    }

    /** The tree with the backup back at the destination. */
    ghost function Undone(entries: Tree): Tree
      reads this
    {
      if backup.Some? && backup.value in entries then (entries - {backup.value})[destination := entries[backup.value]]
      else entries - {destination}
    }

    /** The update is published: the new file at the destination, the prior one, if any, at the backup path. */
    ghost predicate Published(entries: Tree, prior: Option<Entry>, binary: Entry)
      requires |destination| >= 2
      reads this
    {
      && Applies(entries)
      && (createdParent ==> Parent(Parent(destination)) in entries)
      && destination in entries && entries[destination] == binary
      && (backup.Some? <==> prior.Some?)
      && (backup.Some? ==> backup.value in entries && entries[backup.value] == prior.value)
    }

    ghost function BackupPath(): Path
      reads this
    {
      if backup.Some? then backup.value else destination
    }

    /** Exactly what each outcome of each operation leaves, for any state of the update. */
    method RollbackInner(disk: Disk) returns (ok: bool)
      requires Valid() && Applies(disk.entries)
      modifies disk
      ensures var start, tree := old(disk.clock), old(disk.entries);
              if disk.Fails(start) then !ok && disk.entries == tree && disk.clock == start + 1
              else if backup.Some? && (backup.value !in tree || disk.Fails(start + 1)) then
                !ok && disk.entries == tree - {destination} && disk.clock == start + 2
              else if backup.Some? then
                disk.entries == Undone(tree) && (ok <==> !disk.Fails(start + 2)) && disk.clock == start + 3
              else if !createdParent || disk.Fails(start + 1) || Parent(destination) !in tree then
                && disk.entries == tree - {destination}
                && (ok <==> !disk.Fails(start + 1) && Parent(destination) in tree)
                && disk.clock == start + 2
              else if disk.Fails(start + 2) then
                !ok && disk.entries == tree - {destination} && disk.clock == start + 3
              else
                && disk.entries == Unparented(tree)
                && (ok <==> !disk.Fails(start + 3) && Parent(Parent(destination)) in disk.entries)
                && disk.clock == start + 4
      ensures forall e :: e in disk.visited && e !in old(disk.visited) ==> PassState(old(disk.entries), e)
      ensures PassState(old(disk.entries), disk.entries)
      ensures old(disk.visited) <= disk.visited
      ensures disk.Fails(old(disk.clock)) ==> disk.visited == old(disk.visited) + {old(disk.entries)}
    {
      var parent := Parent(destination);
      ghost var tree := disk.entries;
      var removed := disk.RemoveFile(destination);
      if removed == Refused {
        return false;
      }
      assert disk.entries == tree - {destination};
      if backup.Some? {
        var restored := disk.Rename(backup.value, destination);
        if !restored {
          return false;
        }
        assert disk.entries == Undone(tree);
      }
      var synced := disk.Sync(parent);
      if !synced {
        return false;
      }
      if createdParent {
        var emptied := disk.RemoveDirectory(parent);
        if emptied == Refused {
          return false;
        }
        assert disk.entries == Unparented(tree);
        synced := disk.Sync(Parent(parent));
        if !synced {
          return false;
        }
      }
      return true;
    }

    /** Without the destination and, if that empties it, without its directory. */
    ghost function Unparented(entries: Tree): Tree
      requires |destination| >= 2
    {
      var rest := entries - {destination};
      if IsEmpty(rest, Parent(destination)) then rest - {Parent(destination)} else rest
    }

    /** What a complete rollback of a published update leaves. */
    ghost function RolledBack(entries: Tree): Tree
      requires |destination| >= 2
      reads this
    {
      if createdParent then Unparented(entries) else Undone(entries)
    }

    method Drop(disk: Disk)
      requires Valid() && (!finished ==> Applies(disk.entries))
      modifies disk
      ensures finished ==> unchanged(disk)
      ensures disk.clock >= old(disk.clock)
      ensures old(disk.visited) <= disk.visited
      ensures !finished ==>
                var start, tree := old(disk.clock), old(disk.entries);
                && PassState(tree, disk.entries)
                && (forall e :: e in disk.visited && e !in old(disk.visited) ==> PassState(tree, e))
                && (disk.Fails(start) ==> disk.entries == tree && disk.visited == old(disk.visited) + {tree})
                && (!disk.Fails(start) && backup.Some? && backup.value !in tree ==>
                      disk.entries == tree - {destination} && disk.clock == start + 2)
                && (AllWell(disk, start, disk.clock) && Parent(destination) in tree && (backup.Some? ==>
                    backup.value in tree) ==>
                      disk.entries == RolledBack(tree))
    {
      if !finished {
        var _ := RollbackInner(disk);
      }
    }

    /** Consumes the update: an explicit rollback, then the drop. */
    method Rollback(disk: Disk, ghost prior: Option<Entry>, ghost binary: Entry) returns (ok: bool)
      requires Valid() && Published(disk.entries, prior, binary) && !finished
      modifies this`finished, disk
      ensures old(disk.visited) <= disk.visited
      ensures disk.clock > old(disk.clock)
      ensures AllWell(disk, old(disk.clock), disk.clock) ==> disk.entries == RolledBack(old(disk.entries))
      ensures ok ==> disk.entries == RolledBack(old(disk.entries))
      // The prior binary survives every step, except in exactly one pattern of failures.
      ensures AllKept(old(disk.visited), disk.visited, prior, destination, BackupPath())
              || LosesPrior(disk, old(disk.clock), prior.Some?)
      ensures LosesPrior(disk, old(disk.clock), prior.Some?) ==>
                !PriorKept(disk.entries, prior, destination, BackupPath()) && disk.clock == old(disk.clock) + 5
      ensures PriorKept(disk.entries, prior, destination, BackupPath())
              || LosesPrior(disk, old(disk.clock), prior.Some?)
      ensures forall e :: e in disk.visited && e !in old(disk.visited) ==> TouchesOnly(old(disk.entries), e)
      ensures TouchesOnly(old(disk.entries), disk.entries)
    {
      ghost var tree, middle := disk.entries, disk.entries;
      ok, middle := RollbackThenDrop(disk, prior, binary);
      PassTouchesOnly(tree);
      PassTouchesOnly(middle);
      forall e | PassState(middle, e)
        ensures TouchesOnly(tree, e)
      {
        TouchesOnlyTwice(tree, middle, e);
      }
      if prior.Some? {
        PassKeepsPrior(tree, prior, binary);
        SecondPassStates(tree, prior, binary);
        SecondPassOfUnrestored(tree, prior, binary);
      }
    }

    /** The two passes of a rollback: the explicit one, which ends in `middle`, and the drop's if that one failed. */
    method RollbackThenDrop(disk: Disk, ghost prior: Option<Entry>, ghost binary: Entry)
      returns (ok: bool, ghost middle: Tree)
      requires Valid() && Published(disk.entries, prior, binary) && !finished
      modifies this`finished, disk
      ensures old(disk.visited) <= disk.visited
      ensures disk.clock > old(disk.clock)
      ensures AllWell(disk, old(disk.clock), disk.clock) ==> ok
      ensures ok ==> disk.entries == middle == RolledBack(old(disk.entries))
      ensures PassState(old(disk.entries), middle) && (!ok ==> PassState(middle, disk.entries))
      ensures forall e :: e in disk.visited && e !in old(disk.visited) ==>
                PassState(old(disk.entries), e) || (!ok && PassState(middle, e))
      ensures prior.Some? ==>
                var start, tree := old(disk.clock), old(disk.entries);
                && middle == (if disk.Fails(start) then tree
                              else if disk.Fails(start + 1) then tree - {destination}
                              else Undone(tree))
                && (!disk.Fails(start) && !disk.Fails(start + 1) ==> (ok <==> !disk.Fails(start + 2)))
                && (!ok && middle == Undone(tree) && !disk.Fails(start) && !disk.Fails(start + 1) ==>
                      if disk.Fails(start + 3) then
                        && disk.entries == Undone(tree)
                        && forall e :: e in disk.visited && e !in old(disk.visited) ==> PassState(tree, e)
                      else disk.entries == Undone(tree) - {destination} && disk.clock == start + 5)
    {
      ok := RollbackInner(disk);
      if ok {
        finished := true;
      }
      middle := disk.entries;
      assert |Parent(Parent(destination))| < |Parent(destination)| < |destination|;
      Drop(disk);
    }

    /** No state of a pass over a published update lacks the prior binary. */
    lemma PassKeepsPrior(tree: Tree, prior: Option<Entry>, binary: Entry)
      requires Valid() && Published(tree, prior, binary)
      ensures forall e :: PassState(tree, e) ==> PriorKept(e, prior, destination, BackupPath())
    {
    }

    /** A second pass over an update already undone finds no backup, and can only take the restored file away. */
    lemma SecondPassStates(tree: Tree, prior: Option<Entry>, binary: Entry)
      requires Valid() && Published(tree, prior, binary) && prior.Some?
      ensures forall e :: PassState(Undone(tree), e) ==> e == Undone(tree) || e == Undone(tree) - {destination}
      ensures !PriorKept(Undone(tree) - {destination}, prior, destination, BackupPath())
    {
    }

    /** A second pass over an update whose backup is still in place restores it or leaves it there. */
    lemma SecondPassOfUnrestored(tree: Tree, prior: Option<Entry>, binary: Entry)
      requires Valid() && Published(tree, prior, binary) && prior.Some?
      ensures forall e :: PassState(tree - {destination}, e) ==> PriorKept(e, prior, destination, BackupPath())
    {
    }

    lemma PassTouchesOnly(tree: Tree)
      requires Valid()
      ensures forall e :: PassState(tree, e) ==> TouchesOnly(tree, e)
    {
    }

    lemma TouchesOnlyTwice(a: Tree, b: Tree, c: Tree)
      requires |destination| >= 2 && TouchesOnly(a, b) && TouchesOnly(b, c)
      ensures TouchesOnly(a, c)
    {
    }

    /** No path changes but the destination, the backup and a directory created for the destination. */
    ghost predicate TouchesOnly(before: Tree, after: Tree)
      requires |destination| >= 2
      reads this
    {
      OnlyThese(before, after, destination, BackupPath(), createdParent)
    }

    /** Consumes the update: the commit, then the drop of what it left unfinished. */
    method Commit(disk: Disk, ghost prior: Option<Entry>, ghost binary: Entry) returns (ok: bool)
      requires Valid() && Published(disk.entries, prior, binary) && !finished
      modifies this, disk
      ensures old(disk.visited) <= disk.visited
      // Success leaves the new binary and no backup.
      ensures ok ==>
                disk.entries == (if old(backup).Some? then old(disk.entries) - {old(backup).value}
                                 else old(disk.entries))
      // Every failure but that of the last sync undoes the update; after the last sync only the new binary is there.
      ensures !ok ==>
                var start := old(disk.clock);
                if disk.Fails(start) then
                  AllWell(disk, start + 1, disk.clock) ==> disk.entries == old(RolledBack(disk.entries))
                else if disk.Fails(start + 1) then
                  AllWell(disk, start + 2, disk.clock) ==> disk.entries == old(RolledBack(disk.entries))
                else old(backup).Some? && disk.entries == old(disk.entries) - {old(backup).value}
      // At every step the prior binary is kept until the backup is deleted, and then the new one is in place.
      ensures forall e :: e in disk.visited && e !in old(disk.visited) ==>
                || PriorKept(e, prior, destination, old(BackupPath()))
                || e == old(disk.entries) - {old(BackupPath())}
      ensures PriorKept(disk.entries, prior, destination, old(BackupPath()))
              || (destination in disk.entries && disk.entries[destination] == binary)
      ensures disk.clock > old(disk.clock) && (!ok && !disk.Fails(old(disk.clock)) ==> disk.clock > old(disk.clock) + 1)
      ensures AllWell(disk, old(disk.clock), disk.clock) ==> ok
      ensures forall e :: e in disk.visited && e !in old(disk.visited) ==>
                OnlyThese(old(disk.entries), e, destination, old(BackupPath()), old(createdParent))
    {
      PassTouchesOnly(disk.entries);
      ok := CommitBody(disk, prior, binary);
      Drop(disk);
    }

    method CommitBody(disk: Disk, ghost prior: Option<Entry>, ghost binary: Entry) returns (ok: bool)
      requires Valid() && Published(disk.entries, prior, binary) && !finished
      modifies this, disk
      ensures Valid() && old(disk.visited) <= disk.visited && createdParent == old(createdParent)
      ensures var start, tree := old(disk.clock), old(disk.entries);
              if disk.Fails(start) then
                !ok && !finished && backup == old(backup) && disk.entries == tree && disk.clock == start + 1
              else if old(backup).None? then ok && finished && disk.entries == tree && disk.clock == start + 1
              else if disk.Fails(start + 1) then
                !ok && !finished && backup == old(backup) && disk.entries == tree && disk.clock == start + 2
              else
                && finished && backup.None? && disk.entries == tree - {old(backup).value} && disk.clock == start + 3
                && (ok <==> !disk.Fails(start + 2))
      ensures forall e :: e in disk.visited && e !in old(disk.visited) ==>
                e == old(disk.entries) || (old(backup).Some? && e == old(disk.entries) - {old(backup).value})
    {
      var synced := disk.Sync(Parent(destination));
      if !synced {
        return false;
      }
      if backup.Some? {
        var removed := disk.RemoveFile(backup.value);
        if removed != Done {
          return false;
        }
        backup := None;
        finished := true;
        ok := disk.Sync(Parent(destination));
        return;
      }
      finished := true;
      return true;
    }
  }

  /** What an update demands of the tree: a regular source, a real directory, and nothing unsafe at the destination. */
  ghost predicate Acceptable(tree: Tree, source: Path, destination: Path, owner: Owner)
    requires destination != []
  {
    && source in tree && tree[source].File?
    && Parent(destination) in tree && tree[Parent(destination)].Directory?
    && (destination in tree ==> IsProtectedFile(tree[destination], owner))
  }

  /** The two temporary names are free; the second is needed only if there is a binary to move aside. */
  ghost predicate NamesFree(tree: Tree, destination: Path, stage: Path, backup: Path) {
    stage !in tree && (destination in tree ==> backup !in tree)
  }

  /** `after` is `before`, except perhaps for a file at `path`, a name not in use before. */
  ghost predicate AddsOnly(before: Tree, after: Tree, path: Path) {
    || after == before
    || (path !in before && path in after && after[path].File? && after == before[path := after[path]])
  }

  /**
   * Stages the source next to the destination: copies it to a private file, reads both back, and
   * gives the copy its owner and mode. A stage that fails is dropped again.
   */
  method StageBinary(disk: Disk, source: Path, destination: Path, stage: Path, owner: Owner)
    returns (ok: bool)
    requires destination != [] && stage != destination
    modifies disk
    ensures disk.clock > old(disk.clock) && old(disk.visited) <= disk.visited
    ensures forall e :: e in disk.visited && e !in old(disk.visited) ==> AddsOnly(old(disk.entries), e, stage)
    ensures ok ==>
              var tree := old(disk.entries);
              && Acceptable(tree, source, destination, owner) && stage !in tree
              && disk.entries == tree[stage := File(tree[source].bytes, owner, PROTECTED_MODE)]
    // Nothing acceptable is refused unless an operation is at fault.
    ensures NoFaults(disk, old(disk.clock), disk.clock) ==>
              (ok <==> Acceptable(old(disk.entries), source, destination, owner) && stage !in old(disk.entries))
    ensures !ok ==>
              && AddsOnly(old(disk.entries), disk.entries, stage)
              && (AtMostOneFault(disk, old(disk.clock), disk.clock) ==> disk.entries == old(disk.entries))
  {
    ghost var start := disk.clock;
    var ready, bytes := CheckSource(disk, source, destination, owner);
    PartOfRun(disk, start, start, disk.clock, disk.clock);
    if !ready {
      return false;
    }
    ghost var tree := disk.entries;
    var created := disk.CreateTemp(stage, owner);
    assert !created ==> stage in tree || disk.Faulty(disk.clock - 1);
    if !created {
      return false;
    }
    ok := FillStage(disk, source, stage, bytes, owner, tree);
    if !ok {
      var removed := disk.RemoveFile(stage);
      assert removed != Done ==> disk.Faulty(disk.clock - 1);
    }
  }

  /** The checks before anything is written, and the opening of the source. */
  method CheckSource(disk: Disk, source: Path, destination: Path, owner: Owner) returns (ok: bool, bytes: Bytes)
    requires destination != []
    modifies disk
    ensures disk.entries == old(disk.entries) && disk.clock > old(disk.clock) && old(disk.visited) <= disk.visited
    ensures forall e :: e in disk.visited && e !in old(disk.visited) ==> e == disk.entries
    ensures ok ==> Acceptable(disk.entries, source, destination, owner) && bytes == disk.entries[source].bytes
    ensures AllWell(disk, old(disk.clock), disk.clock) ==>
              (ok <==> Acceptable(disk.entries, source, destination, owner))
  {
    bytes := [];
    var sourceMetadata := disk.Inspect(source);
    if !(sourceMetadata.Found? && sourceMetadata.entry.File?) {
      return false, bytes;
    }
    var parentMetadata := disk.Inspect(Parent(destination));
    if !(parentMetadata.Found? && parentMetadata.entry.Directory?) {
      return false, bytes;
    }
    var existing := disk.Inspect(destination);
    if existing.Unreadable? || (existing.Found? && !IsProtectedFile(existing.entry, owner)) {
      return false, bytes;
    }
    var content := disk.Read(source);
    if content.None? {
      return false, bytes;
    }
    return true, content.value;
  }

  method FillStage(disk: Disk, source: Path, stage: Path, bytes: Bytes, owner: Owner, ghost tree: Tree)
    returns (ok: bool)
    requires stage in disk.entries && disk.entries[stage].File? && disk.entries == tree[stage := disk.entries[stage]]
    requires source in tree && tree[source].File? && tree[source].bytes == bytes && stage !in tree
    modifies disk
    ensures disk.clock > old(disk.clock) && old(disk.visited) <= disk.visited
    ensures AddsOnly(tree, disk.entries, stage) && stage in disk.entries
    ensures forall e :: e in disk.visited && e !in old(disk.visited) ==> AddsOnly(tree, e, stage)
    ensures ok ==> disk.entries == tree[stage := File(bytes, owner, PROTECTED_MODE)]
    ensures !ok ==> exists n :: old(disk.clock) <= n < disk.clock && disk.Faulty(n)
  {
    ok := CopyVerified(disk, source, stage, bytes, tree);
    if ok {
      ok := Protect(disk, stage, owner, tree);
    }
  }

  /** Copies and syncs, and compares what both files now hold; a corrupted copy does not pass. */
  method CopyVerified(disk: Disk, source: Path, stage: Path, bytes: Bytes, ghost tree: Tree) returns (ok: bool)
    requires stage in disk.entries && disk.entries[stage].File? && disk.entries == tree[stage := disk.entries[stage]]
    requires source in tree && tree[source].File? && tree[source].bytes == bytes && stage !in tree
    modifies disk
    ensures disk.clock > old(disk.clock) && old(disk.visited) <= disk.visited
    ensures AddsOnly(tree, disk.entries, stage) && stage in disk.entries
    ensures forall e :: e in disk.visited && e !in old(disk.visited) ==> AddsOnly(tree, e, stage)
    ensures ok ==> disk.entries[stage].bytes == bytes
    ensures !ok ==> exists n :: old(disk.clock) <= n < disk.clock && disk.Faulty(n)
  {
    ok := disk.Write(stage, bytes);
    assert disk.entries == tree[stage := disk.entries[stage]];
    if !ok {
      assert disk.Faulty(disk.clock - 1);
      return;
    }
    ok := disk.Sync(stage);
    if !ok {
      assert disk.Faulty(disk.clock - 1);
      return;
    }
    var sourceBytes := disk.Read(source);
    var stagedBytes := disk.Read(stage);
    ok := sourceBytes.Some? && stagedBytes.Some? && sourceBytes.value == stagedBytes.value;
    assert !ok ==> disk.Faulty(old(disk.clock)) || disk.Faulty(disk.clock - 2) || disk.Faulty(disk.clock - 1);
  }

  method Protect(disk: Disk, stage: Path, owner: Owner, ghost tree: Tree) returns (ok: bool)
    requires AddsOnly(tree, disk.entries, stage) && stage in disk.entries && stage !in tree
    modifies disk
    ensures old(disk.clock) <= disk.clock && old(disk.visited) <= disk.visited
    ensures AddsOnly(tree, disk.entries, stage) && stage in disk.entries
    ensures forall e :: e in disk.visited && e !in old(disk.visited) ==> AddsOnly(tree, e, stage)
    ensures ok ==> disk.entries == tree[stage := File(old(disk.entries[stage].bytes), owner, PROTECTED_MODE)]
    ensures !ok ==> exists n :: old(disk.clock) <= n < disk.clock && disk.Faulty(n)
  {
    ok := disk.SetMode(stage, PROTECTED_MODE);
    assert disk.entries == tree[stage := disk.entries[stage]];
    if !ok {
      assert disk.Faulty(disk.clock - 1);
      return;
    }
    ok := disk.SetOwner(stage, owner);
    assert disk.entries == tree[stage := disk.entries[stage]];
    if !ok {
      assert disk.Faulty(disk.clock - 1);
      return;
    }
    ok := disk.Sync(stage);
    assert !ok ==> disk.Faulty(disk.clock - 1);
  }

  /** The prior binary of a tree. */
  ghost function Prior(tree: Tree, destination: Path): Option<Entry> {
    if destination in tree then Some(tree[destination]) else None
  }

  /** What a published update makes of the tree it began with. */
  ghost function PublishedTree(tree: Tree, destination: Path, backup: Path, binary: Entry): Tree {
    if destination in tree then tree[backup := tree[destination]][destination := binary]
      else tree[destination := binary]
  }

  /** Only these three paths can differ. */
  ghost predicate DiffersOnlyAt(before: Tree, after: Tree, a: Path, b: Path, c: Path) {
    forall path :: path != a && path != b && path != c ==>
      (path in before <==> path in after) && (path in before ==> before[path] == after[path])
  }

  /**
   * Moves the prior binary, if any, to the backup path. The temporary file that reserved the name may
   * resist removal; the rename then replaces it.
   */
  method BackUp(disk: Disk, destination: Path, backup: Path, owner: Owner) returns (ok: bool, moved: bool)
    requires backup != destination && (destination in disk.entries ==> disk.entries[destination].File?)
    modifies disk
    ensures disk.clock > old(disk.clock) && old(disk.visited) <= disk.visited
    ensures ok && moved ==>
              var tree := old(disk.entries);
              && destination in tree && backup !in tree
              && disk.entries == (tree - {destination})[backup := tree[destination]]
    ensures ok && !moved ==> disk.entries == old(disk.entries)
    ensures AddsOnly(old(disk.entries), disk.entries, backup) || (ok && moved)
    ensures !ok ==>
              || (exists n :: old(disk.clock) <= n < disk.clock && disk.Faulty(n))
              || (destination in old(disk.entries) && backup in old(disk.entries))
    ensures !ok && AtMostOneFault(disk, old(disk.clock), disk.clock) ==> disk.entries == old(disk.entries)
    ensures ok && !moved && destination in disk.entries ==>
              exists n :: old(disk.clock) <= n < disk.clock && disk.Faulty(n)
    ensures forall e :: e in disk.visited && e !in old(disk.visited) ==>
              || AddsOnly(old(disk.entries), e, backup)
              || (ok && moved && e == disk.entries)
  {
    ghost var tree := disk.entries;
    var exists_ := disk.Exists(destination);
    assert !exists_ ==> destination !in tree || disk.Faulty(disk.clock - 1);
    if !exists_ {
      return true, false;
    }
    var reserved := disk.CreateTemp(backup, owner);
    assert !reserved ==> backup in tree || disk.Faulty(disk.clock - 1);
    if !reserved {
      return false, false;
    }
    var removed := disk.RemoveFile(backup);
    assert removed != Done ==> disk.Faulty(disk.clock - 1);
    assert disk.entries == tree || disk.entries == tree[backup := disk.entries[backup]];
    moved := disk.Rename(destination, backup);
    assert !moved ==> disk.Faulty(disk.clock - 1);
    ok := moved;
    if moved {
      assert disk.entries == (tree - {destination})[backup := tree[destination]];
    }
  }

  /**
   * Publishes the stage at the destination, which must be free. On failure the backup, if there is
   * one, is renamed back and the stage dropped.
   */
  method Publish(disk: Disk, destination: Path, stage: Path, backup: Path, moved: bool) returns (ok: bool)
    requires stage in disk.entries && disk.entries[stage].File?
    requires stage != destination && backup != destination && stage != backup
    requires moved ==> backup in disk.entries && disk.entries[backup].File? && destination !in disk.entries
    modifies disk
    ensures disk.clock > old(disk.clock) && old(disk.visited) <= disk.visited
    ensures ok ==>
              && destination !in old(disk.entries)
              && disk.entries == (old(disk.entries) - {stage})[destination := old(disk.entries)[stage]]
              && disk.clock == old(disk.clock) + 1
    ensures !ok ==> disk.Faulty(old(disk.clock)) || destination in old(disk.entries)
    ensures !ok && disk.Faulty(old(disk.clock)) && AtMostOneFault(disk, old(disk.clock), disk.clock) ==>
              disk.entries == (if moved then Reinstated(old(disk.entries), destination, backup)
                               else old(disk.entries)) - {stage}
    ensures !ok && !moved && AllWell(disk, old(disk.clock) + 1, disk.clock) ==>
              disk.entries == old(disk.entries) - {stage}
    ensures forall e :: e in disk.visited && e !in old(disk.visited) ==>
              PublishState(old(disk.entries), e, destination, stage, backup, moved)
    ensures PublishState(old(disk.entries), disk.entries, destination, stage, backup, moved)
  {
    ghost var tree := disk.entries;
    ok := disk.PersistNoClobber(stage, destination);
    if !ok {
      if moved {
        var restored := disk.Rename(backup, destination);
        assert disk.entries == if restored then Reinstated(tree, destination, backup) else tree;
        assert !restored ==> disk.Faulty(disk.clock - 1);
      }
      var removed := disk.RemoveFile(stage);
      assert removed != Done ==> disk.Faulty(disk.clock - 1);
    }
  }

  ghost function Reinstated(tree: Tree, destination: Path, backup: Path): Tree
    requires backup in tree
  {
    (tree - {backup})[destination := tree[backup]]
  }

  /**
   * The states publication goes through: published, or not yet, with the backup back or not, with the stage or
   * without.
   */
  ghost predicate PublishState(tree: Tree, e: Tree, destination: Path, stage: Path, backup: Path, moved: bool) {
    || (stage in tree && e == (tree - {stage})[destination := tree[stage]] && destination !in tree)
    || e == tree
    || e == tree - {stage}
    || (moved && backup in tree
        && (e == Reinstated(tree, destination, backup) || e == Reinstated(tree, destination, backup) - {stage}))
  }

  /**
   * `begin_unix_protected_binary_update_at`. `stage` and `backup` are the names the temporary files
   * get in the directory of the destination.
   */
  method BeginUpdateAt(disk: Disk, source: Path, destination: Path, stage: Path, backup: Path, owner: Owner)
    returns (update: UnixProtectedBinaryUpdate?, ghost undoneAt: Option<nat>)
    requires |destination| >= 2 && IsChild(stage, Parent(destination)) && IsChild(backup, Parent(destination))
    requires stage != destination && backup != destination && stage != backup
    modifies disk
    ensures disk.clock > old(disk.clock) && old(disk.visited) <= disk.visited
    ensures update != null ==>
              var tree := old(disk.entries);
              && fresh(update) && update.Valid() && !update.finished && !update.createdParent
              && update.destination == destination && update.BackupPath() in {backup, destination}
              && Acceptable(tree, source, destination, owner) && NamesFree(tree, destination, stage, backup)
              && var binary := File(tree[source].bytes, owner, PROTECTED_MODE);
                 && update.Published(disk.entries, Prior(tree, destination), binary)
                 && disk.entries == PublishedTree(tree, destination, backup, binary)
                 && (update.backup.Some? ==> update.backup.value == backup && backup !in tree)
    // Without faults the update begins exactly if the tree is acceptable and the names are free.
    ensures NoFaults(disk, old(disk.clock), disk.clock) ==>
              (update != null <==>
               && Acceptable(old(disk.entries), source, destination, owner)
               && NamesFree(old(disk.entries), destination, stage, backup))
    ensures update == null && AtMostOneFault(disk, old(disk.clock), disk.clock) && backup !in old(disk.entries) ==>
              disk.entries == old(disk.entries)
    ensures DiffersOnlyAt(old(disk.entries), disk.entries, destination, stage, backup)
    ensures forall e :: e in disk.visited && e !in old(disk.visited) ==>
              DiffersOnlyAt(old(disk.entries), e, destination, stage, backup)
    // A rollback is begun only after the last sync failed. The prior binary survives every step, unless it is lost
    // then.
    ensures undoneAt.Some? ==> update == null && FollowsFailure(disk, old(disk.clock), undoneAt.value)
    ensures KeptUnlessLost(disk, old(disk.visited), undoneAt, Prior(old(disk.entries), destination), destination,
                           backup)
  {
    ghost var tree, seen := disk.entries, disk.visited;
    update, undoneAt := null, None;
    var staged := StageBinary(disk, source, destination, stage, owner);
    AddingKeepsPrior(tree, destination, stage, backup);
    ghost var binary := if staged then File(tree[source].bytes, owner, PROTECTED_MODE) else Other;
    if staged {
      ghost var middle := disk.visited;
      assert AllKept(seen, middle, Prior(tree, destination), destination, backup);
      update, undoneAt := PublishStaged(disk, destination, stage, backup, owner, tree, binary);
      KeptThroughout(seen, middle, disk.visited, Prior(tree, destination), destination, backup);
    }
  }

  lemma AddingKeepsPrior(tree: Tree, destination: Path, stage: Path, backup: Path)
    requires stage != destination
    ensures forall e :: AddsOnly(tree, e, stage) ==> PriorKept(e, Prior(tree, destination), destination, backup)
  {
  }

  method PublishStaged(disk: Disk, destination: Path, stage: Path, backup: Path, owner: Owner, ghost tree: Tree,
                       ghost binary: Entry)
    returns (update: UnixProtectedBinaryUpdate?, ghost undoneAt: Option<nat>)
    requires |destination| >= 2 && IsChild(stage, Parent(destination)) && IsChild(backup, Parent(destination))
    requires stage != destination && backup != destination && stage != backup
    requires stage !in tree && binary.File? && disk.entries == tree[stage := binary]
    requires Parent(destination) in tree && tree[Parent(destination)].Directory? && (destination in tree ==>
              tree[destination].File?)
    modifies disk
    ensures disk.clock > old(disk.clock) && old(disk.visited) <= disk.visited
    ensures update != null ==>
              && fresh(update) && update.Valid() && !update.finished && !update.createdParent
              && update.destination == destination && update.BackupPath() in {backup, destination}
              && update.Published(disk.entries, Prior(tree, destination), binary)
              && disk.entries == PublishedTree(tree, destination, backup, binary)
              && (update.backup.Some? ==> update.backup.value == backup && backup !in tree)
    ensures NoFaults(disk, old(disk.clock), disk.clock) && (destination in tree ==> backup !in tree) ==> update != null
    ensures update == null && AtMostOneFault(disk, old(disk.clock), disk.clock) && backup !in tree ==>
              disk.entries == tree
    ensures DiffersOnlyAt(tree, disk.entries, destination, stage, backup)
    ensures forall e :: e in disk.visited && e !in old(disk.visited) ==>
              DiffersOnlyAt(tree, e, destination, stage, backup)
    ensures undoneAt.Some? ==> update == null && FollowsFailure(disk, old(disk.clock), undoneAt.value)
    ensures KeptUnlessLost(disk, old(disk.visited), undoneAt, Prior(tree, destination), destination, backup)
  {
    update, undoneAt := null, None;
    ghost var before := disk.visited;
    var published, moved := MoveIntoPlace(disk, destination, stage, backup, owner, tree, binary);
    ghost var seen := disk.visited;
    assert AllKept(before, seen, Prior(tree, destination), destination, backup);
    ghost var first, middle := old(disk.clock), disk.clock;
    if published {
      var begun := new UnixProtectedBinaryUpdate(destination, if moved then Some(backup) else None);
      var synced;
      synced, undoneAt := SyncPublished(disk, begun, stage, backup, tree, binary);
      KeptThroughout(before, seen, disk.visited, Prior(tree, destination), destination, backup);
      PartOfRun(disk, first, middle, disk.clock, disk.clock);
      assert NoFaults(disk, first, disk.clock) ==> synced;
      if synced {
        update := begun;
      }
    }
  }

  /** The sync that makes the publication last; if it fails the update is rolled back. */
  method SyncPublished(disk: Disk, update: UnixProtectedBinaryUpdate, stage: Path, backup: Path, ghost tree: Tree,
                       ghost binary: Entry)
    returns (ok: bool, ghost undoneAt: Option<nat>)
    requires update.Valid() && !update.finished && !update.createdParent
    requires stage != update.destination && backup != update.destination && stage != backup && stage !in tree
    requires update.backup == if update.destination in tree then Some(backup) else None
    requires update.destination in tree ==> backup !in tree
    requires disk.entries == PublishedTree(tree, update.destination, backup, binary)
    requires update.Published(disk.entries, Prior(tree, update.destination), binary)
    modifies disk, update`finished
    ensures disk.clock > old(disk.clock) && old(disk.visited) <= disk.visited
    ensures ok ==> disk.entries == old(disk.entries) && !update.finished
    ensures !ok && AtMostOneFault(disk, old(disk.clock), disk.clock) ==> disk.entries == tree
    ensures DiffersOnlyAt(tree, disk.entries, update.destination, stage, backup)
    ensures forall e :: e in disk.visited && e !in old(disk.visited) ==>
              DiffersOnlyAt(tree, e, update.destination, stage, backup)
    ensures undoneAt == if ok then None else Some(old(disk.clock) + 1)
    ensures !ok ==> disk.Fails(old(disk.clock)) && disk.clock > old(disk.clock) + 1
    ensures KeptUnlessLost(disk, old(disk.visited), undoneAt, Prior(tree, update.destination), update.destination,
                           backup)
  {
    PublishedTreeIsSafe(tree, update.destination, stage, backup, binary);
    undoneAt := None;
    ok := disk.Sync(Parent(update.destination));
    if !ok {
      ghost var start, seen := disk.clock, disk.visited;
      undoneAt := Some(start);
      assert disk.Fails(start - 1) && disk.Faulty(start - 1);
      UndoUnsynced(disk, update, stage, backup, tree, binary);
      if AtMostOneFault(disk, start - 1, disk.clock) {
        EarlierFault(disk, start - 1, start, disk.clock);
      }
      KeptThroughout(old(disk.visited), seen, disk.visited, Prior(tree, update.destination), update.destination,
                     backup);
    }
  }

  method UndoUnsynced(disk: Disk, update: UnixProtectedBinaryUpdate, stage: Path, backup: Path, ghost tree: Tree,
                      ghost binary: Entry)
    requires update.Valid() && !update.finished && !update.createdParent
    requires backup != update.destination && (update.destination in tree ==> backup !in tree)
    requires update.backup == if update.destination in tree then Some(backup) else None
    requires disk.entries == PublishedTree(tree, update.destination, backup, binary)
    requires update.Published(disk.entries, Prior(tree, update.destination), binary)
    requires DiffersOnlyAt(tree, disk.entries, update.destination, stage, backup)
    modifies disk, update`finished
    ensures disk.clock > old(disk.clock) && old(disk.visited) <= disk.visited
    ensures AllWell(disk, old(disk.clock), disk.clock) ==> disk.entries == tree
    ensures DiffersOnlyAt(tree, disk.entries, update.destination, stage, backup)
    ensures forall e :: e in disk.visited && e !in old(disk.visited) ==>
              DiffersOnlyAt(tree, e, update.destination, stage, backup)
    ensures KeptUnlessLost(disk, old(disk.visited), Some(old(disk.clock)), Prior(tree, update.destination),
                           update.destination, backup)
  {
    ghost var published, prior := disk.entries, Prior(tree, update.destination);
    TouchedIsDiffering(tree, published, update, stage, backup);
    RolledBackTree(tree, published, update, backup, binary);
    var _ := update.Rollback(disk, prior, binary);
    if AllKept(old(disk.visited), disk.visited, prior, update.destination, update.BackupPath()) {
      KeptAtBackup(old(disk.visited), disk.visited, prior, update.destination, update.BackupPath(), backup);
    }
  }

  lemma KeptThroughout(a: set<Tree>, b: set<Tree>, c: set<Tree>, prior: Option<Entry>, destination: Path, backup: Path)
    requires AllKept(a, b, prior, destination, backup)
    ensures AllKept(b, c, prior, destination, backup) ==> AllKept(a, c, prior, destination, backup)
  {
  }

  lemma KeptAtBackup(before: set<Tree>, after: set<Tree>, prior: Option<Entry>, destination: Path, at: Path,
                     backup: Path)
    requires AllKept(before, after, prior, destination, at) && (prior.Some? ==> at == backup)
    ensures AllKept(before, after, prior, destination, backup)
  {
  }

  /** The states an update may pass through with the prior binary kept and every other path untouched. */
  ghost predicate Safe(tree: Tree, e: Tree, destination: Path, stage: Path, backup: Path) {
    && DiffersOnlyAt(tree, e, destination, stage, backup)
    && PriorKept(e, Prior(tree, destination), destination, backup)
  }

  lemma PublishedTreeIsSafe(tree: Tree, destination: Path, stage: Path, backup: Path, binary: Entry)
    requires stage != destination && backup != destination && stage != backup && stage !in tree
    ensures Safe(tree, PublishedTree(tree, destination, backup, binary), destination, stage, backup)
  {
  }

  /** Undoing what was published gives back the tree it began with. */
  lemma RolledBackTree(tree: Tree, published: Tree, update: UnixProtectedBinaryUpdate, backup: Path, binary: Entry)
    requires update.Valid() && !update.createdParent && backup != update.destination
    requires published == PublishedTree(tree, update.destination, backup, binary)
    requires update.backup == if update.destination in tree then Some(backup) else None
    requires update.destination in tree ==> backup !in tree
    ensures update.RolledBack(published) == tree
  {
  }

  lemma TouchedIsDiffering(tree: Tree, published: Tree, update: UnixProtectedBinaryUpdate, stage: Path, backup: Path)
    requires update.Valid() && !update.createdParent && update.BackupPath() in {backup, update.destination}
    requires DiffersOnlyAt(tree, published, update.destination, stage, backup)
    ensures forall e :: update.TouchesOnly(published, e) ==> DiffersOnlyAt(tree, e, update.destination, stage, backup)
  {
    forall e | update.TouchesOnly(published, e)
      ensures DiffersOnlyAt(tree, e, update.destination, stage, backup)
    {
      forall path | path != update.destination && path != stage && path != backup
        ensures (path in tree <==> path in e) && (path in tree ==> tree[path] == e[path])
      {
        assert (path in tree <==> path in published) && (path in tree ==> tree[path] == published[path]);
        assert (path in published <==> path in e) && (path in published ==> published[path] == e[path]);
      }
    }
  }

  /** The tree after the backup: what publishing it, and what undoing it, come to. */
  lemma MovedTree(tree: Tree, destination: Path, stage: Path, backup: Path, binary: Entry)
    requires stage != destination && backup != destination && stage != backup && stage !in tree
    requires destination in tree && backup !in tree
    ensures var moved := (tree[stage := binary] - {destination})[backup := tree[destination]];
            && (moved - {stage})[destination := moved[stage]] == PublishedTree(tree, destination, backup, binary)
            && Reinstated(moved, destination, backup) - {stage} == tree
  {
  }

  lemma UnmovedTree(tree: Tree, destination: Path, stage: Path, backup: Path, binary: Entry)
    requires stage != destination && stage !in tree
    ensures var staged := tree[stage := binary];
            && staged - {stage} == tree
            && (destination !in tree ==>
                (staged - {stage})[destination := staged[stage]] == PublishedTree(tree, destination, backup, binary))
  {
  }

  lemma StagedStatesAreSafe(tree: Tree, destination: Path, stage: Path, backup: Path, binary: Entry)
    requires stage != destination && backup != destination && stage != backup && stage !in tree
    ensures var staged := tree[stage := binary];
            && (forall e :: AddsOnly(staged, e, backup) ==>
                Safe(tree, e, destination, stage, backup) && Safe(tree, e - {stage}, destination, stage, backup))
            && (destination in tree && backup !in tree ==>
                  Safe(tree, (staged - {destination})[backup := tree[destination]], destination, stage, backup))
  {
  }

  lemma PublishStatesAreSafe(tree: Tree, staged: Tree, destination: Path, stage: Path, backup: Path, moved: bool)
    requires stage != destination && backup != destination && stage != backup && stage !in tree
    requires Safe(tree, staged, destination, stage, backup) && stage in staged
    requires moved ==>
              destination in tree && destination !in staged && backup in staged && staged[backup] == tree[destination]
    requires !moved && destination in tree ==> destination in staged && staged[destination] == tree[destination]
    ensures forall e :: PublishState(staged, e, destination, stage, backup, moved) ==>
              Safe(tree, e, destination, stage, backup)
  {
  }

  /** Backs the prior binary up and publishes the stage; on failure everything done is undone. */
  method MoveIntoPlace(disk: Disk, destination: Path, stage: Path, backup: Path, owner: Owner, ghost tree: Tree,
                       ghost binary: Entry)
    returns (published: bool, moved: bool)
    requires destination != [] && stage != destination && backup != destination && stage != backup
    requires stage !in tree && binary.File? && disk.entries == tree[stage := binary]
    requires destination in tree ==> tree[destination].File?
    modifies disk
    ensures disk.clock > old(disk.clock) && old(disk.visited) <= disk.visited
    ensures published ==>
              && disk.entries == PublishedTree(tree, destination, backup, binary)
              && (moved <==> destination in tree) && (moved ==> backup !in tree)
    ensures NoFaults(disk, old(disk.clock), disk.clock) && (destination in tree ==> backup !in tree) ==> published
    ensures !published && AtMostOneFault(disk, old(disk.clock), disk.clock) && backup !in tree ==> disk.entries == tree
    ensures Safe(tree, disk.entries, destination, stage, backup)
    ensures forall e :: e in disk.visited && e !in old(disk.visited) ==> Safe(tree, e, destination, stage, backup)
  {
    StagedStatesAreSafe(tree, destination, stage, backup, binary);
    UnmovedTree(tree, destination, stage, backup, binary);
    ghost var start := disk.clock;
    var ready;
    ready, moved := BackUp(disk, destination, backup, owner);
    ghost var left, middle := disk.entries, disk.clock;
    if !ready {
      var removed := disk.RemoveFile(stage);
      assert removed != Done ==> disk.Faulty(middle);
      assert disk.entries == left || disk.entries == left - {stage};
      return false, moved;
    }
    if moved {
      MovedTree(tree, destination, stage, backup, binary);
    }
    PublishStatesAreSafe(tree, left, destination, stage, backup, moved);
    published := Publish(disk, destination, stage, backup, moved);
    if !published && destination in tree && !moved && AtMostOneFault(disk, start, disk.clock) {
      EarlierFault(disk, start, middle, disk.clock);
    }
  }

  /** With one fault among the first operations there is none among the later ones. */
  lemma EarlierFault(disk: Disk, start: nat, middle: nat, end: nat)
    requires AtMostOneFault(disk, start, end) && start <= middle <= end
    requires exists n :: start <= n < middle && disk.Faulty(n)
    ensures forall n :: middle <= n < end ==> !disk.Faulty(n) && !disk.Fails(n)
  {
    var m :| start <= m < middle && disk.Faulty(m);
    forall n | middle <= n < end
      ensures !disk.Faulty(n) && !disk.Fails(n)
    {
      assert start <= m < n < end && disk.Faulty(m);
    }
  }
}
