// The protected-binary update within an installation (src/service.rs): preparing the directory,
// beginning the update, the steps of the service manager in between, and commit or rollback.
module ProtectedInstall {
  import opened Common
  import opened Filesystem
  import opened ProtectedBinary

  /** Every path has its directory. */
  ghost predicate IsTree(entries: Tree) {
    && [] in entries && entries[[]].Directory?
    && forall path :: path in entries && path != [] ==> Parent(path) in entries && entries[Parent(path)].Directory?
  }

  /** `after` is `before` with some missing directories on the way to `path` added. */
  ghost predicate AddsDirectories(before: Tree, after: Tree, path: Path) {
    && (forall p :: p in before ==> p in after && after[p] == before[p])
    && (forall p :: p in after && p !in before ==> p <= path && after[p].Directory?)
  }

  /** Every directory on the way to `path` is missing or protected. */
  ghost predicate Preparable(tree: Tree, path: Path, owner: Owner) {
    forall k :: 0 < k <= |path| && path[..k] in tree ==> IsProtectedDirectory(tree[path[..k]], owner)
  }

  /** What an installation demands of the tree: a regular source, nothing unsafe on the way or at the destination. */
  ghost predicate Installable(tree: Tree, source: Path, destination: Path, stage: Path, backup: Path, owner: Owner)
    requires destination != []
  {
    && source in tree && tree[source].File?
    && Preparable(tree, Parent(destination), owner)
    && (destination in tree ==> IsProtectedFile(tree[destination], owner))
    && NamesFree(tree, destination, stage, backup)
  }

  /** Checks a directory or creates it; a directory created by a failing call stays. */
  method EnsureDirectoryAt(disk: Disk, path: Path, owner: Owner) returns (created: Option<bool>)
    modifies disk
    ensures disk.clock > old(disk.clock) && old(disk.visited) <= disk.visited
    ensures disk.entries == old(disk.entries) || AddsDirectory(old(disk.entries), disk.entries, path)
    ensures forall e :: e in disk.visited && e !in old(disk.visited) ==>
              e == old(disk.entries) || AddsDirectory(old(disk.entries), e, path)
    ensures created.Some? ==> path in disk.entries && IsProtectedDirectory(disk.entries[path], owner)
    ensures created.Some? ==> (created.value <==> path !in old(disk.entries))
    ensures created == Some(false) ==> disk.entries == old(disk.entries)
    ensures AllWell(disk, old(disk.clock), disk.clock) ==>
              (created.Some? <==>
               if path in old(disk.entries) then IsProtectedDirectory(old(disk.entries)[path], owner)
               else path != [] && Parent(path) in old(disk.entries))
  {
    ghost var tree := disk.entries;
    var metadata := disk.Inspect(path);
    var isNew := metadata.Missing?;
    if metadata.Unreadable? || (metadata.Found? && !IsProtectedDirectory(metadata.entry, owner)) {
      return None;
    }
    if isNew {
      var made := disk.CreateDirectory(path, owner, PROTECTED_MODE);
      if !made {
        return None;
      }
    }
    var opened_ := disk.Inspect(path);
    if !(opened_.Found? && opened_.entry.Directory?) {
      return None;
    }
    if isNew {
      var secured := SecureDirectory(disk, path, owner);
      if !secured {
        return None;
      }
    }
    var synced := disk.Sync(path);
    if !synced {
      return None;
    }
    var final := disk.Inspect(path);
    if !(final.Found? && IsProtectedDirectory(final.entry, owner)) {
      return None;
    }
    return Some(isNew);
  }

  /** Gives a directory just created its owner and mode. */
  method SecureDirectory(disk: Disk, path: Path, owner: Owner) returns (ok: bool)
    requires path in disk.entries && disk.entries[path].Directory?
    modifies disk
    ensures disk.clock > old(disk.clock) && old(disk.visited) <= disk.visited
    ensures Reowned(old(disk.entries), disk.entries, path)
    ensures forall e :: e in disk.visited && e !in old(disk.visited) ==> Reowned(old(disk.entries), e, path)
    ensures ok ==> IsProtectedDirectory(disk.entries[path], owner)
    ensures AllWell(disk, old(disk.clock), disk.clock) ==> ok
  {
    ok := disk.SetOwner(path, owner);
    if ok {
      ok := disk.SetMode(path, PROTECTED_MODE);
    }
  }

  /** The same but for owner and mode of one directory. */
  ghost predicate Reowned(before: Tree, after: Tree, path: Path) {
    path in after && after[path].Directory? && after == before[path := after[path]]
  }

  ghost predicate AddsDirectory(before: Tree, after: Tree, path: Path) {
    path !in before && path in after && after[path].Directory? && after == before[path := after[path]]
  }

  lemma AddsOneMore(a: Tree, b: Tree, c: Tree, prefix: Path, path: Path)
    requires AddsDirectories(a, b, path) && prefix <= path && (c == b || AddsDirectory(b, c, prefix))
    ensures AddsDirectories(a, c, path)
  {
  }

  /** Ensures every component of the path in turn; tells whether the last one was created. */
  method PrepareDirectory(disk: Disk, path: Path, owner: Owner) returns (created: Option<bool>)
    requires path != []
    modifies disk
    ensures disk.clock >= old(disk.clock) && old(disk.visited) <= disk.visited
    ensures AddsDirectories(old(disk.entries), disk.entries, path)
    ensures forall e :: e in disk.visited && e !in old(disk.visited) ==> AddsDirectories(old(disk.entries), e, path)
    ensures created.Some? ==> path in disk.entries && IsProtectedDirectory(disk.entries[path], owner)
    ensures created.Some? ==> (created.value <==> path !in old(disk.entries))
    ensures created.Some? ==> forall k :: 0 < k <= |path| ==>
                path[..k] in disk.entries && IsProtectedDirectory(disk.entries[path[..k]], owner)
    ensures created.Some? ==> Preparable(old(disk.entries), path, owner)
    // Without failures the directory is prepared exactly if nothing unsafe is on the way.
    ensures AllWell(disk, old(disk.clock), disk.clock) && [] in old(disk.entries) ==>
              (created.Some? <==> Preparable(old(disk.entries), path, owner))
  {
    ghost var tree, start := disk.entries, disk.clock;
    var finalCreated := false;
    for i := 1 to |path| + 1
      invariant disk.clock >= old(disk.clock) && old(disk.visited) <= disk.visited
      invariant AddsDirectories(tree, disk.entries, path)
      invariant forall e :: e in disk.visited && e !in old(disk.visited) ==> AddsDirectories(tree, e, path)
      invariant forall p :: p in disk.entries && p !in tree ==> |p| < i
      invariant finalCreated ==> path in disk.entries && IsProtectedDirectory(disk.entries[path], owner)
      invariant finalCreated <==> i > |path| && path !in tree
      invariant forall k :: 0 < k < i ==>
                  path[..k] in disk.entries && IsProtectedDirectory(disk.entries[path[..k]], owner)
    {
      var current := path[..i];
      assert i == |path| ==> current == path;
      assert |current| == i;
      ghost var before := disk.entries;
      var metadata := disk.Inspect(current);
      if metadata.Unreadable? {
        return None;
      }
      ghost var middle := disk.clock;
      assert current in before <==> current in tree;
      assert Parent(current) == path[..i - 1];
      var ensured := EnsureDirectoryAt(disk, current, owner);
      PartOfRun(disk, start, middle, disk.clock, disk.clock);
      forall e | e == before || AddsDirectory(before, e, current)
        ensures AddsDirectories(tree, e, path)
      {
        AddsOneMore(tree, before, e, current, path);
      }
      if ensured.None? {
        return None;
      }
      if metadata.Missing? && i == |path| {
        assert current == path;
        finalCreated := true;
      }
    }
    if !finalCreated {
      ghost var before := disk.entries;
      ghost var middle := disk.clock;
      assert path[..|path|] == path;
      var again := EnsureDirectoryAt(disk, path, owner);
      PartOfRun(disk, start, middle, disk.clock, disk.clock);
      forall e | e == before || AddsDirectory(before, e, path)
        ensures AddsDirectories(tree, e, path)
      {
        AddsOneMore(tree, before, e, path, path);
      }
      if again.None? {
        return None;
      }
    }
    return Some(finalCreated);
  }

  /** Paths other than these three keep what they had; what is new elsewhere is a directory on the way. */
  ghost predicate KeepsOthers(tree: Tree, e: Tree, destination: Path, stage: Path, backup: Path)
    requires destination != []
  {
    forall path :: path != destination && path != stage && path != backup ==>
      && (path in tree ==> path in e && e[path] == tree[path])
      && (path in e && path !in tree ==> path <= Parent(destination) && e[path].Directory?)
  }

  lemma AddedDirectoriesKeepPrior(tree: Tree, base: Tree, destination: Path, source: Path)
    requires destination != [] && IsTree(tree) && AddsDirectories(tree, base, Parent(destination))
    ensures Prior(base, destination) == Prior(tree, destination)
    ensures Parent(destination) !in tree ==> destination !in tree
    ensures source in base && base[source].File? <==> source in tree && tree[source].File?
    ensures source in tree && tree[source].File? ==> tree[source] == base[source]
    ensures forall name :: IsChild(name, Parent(destination)) ==> (name in base <==> name in tree)
    ensures Parent(destination) !in tree && Parent(destination) in base ==> IsEmpty(base, Parent(destination))
  {
    var parent := Parent(destination);
    assert !(destination <= parent);
    forall name | IsChild(name, parent)
      ensures name in base <==> name in tree
    {
      assert !(name <= parent);
    }
    if parent !in tree && parent in base {
      forall path | path in base
        ensures !IsChild(path, parent)
      {
        assert path in tree || path <= parent;
      }
    }
  }

  lemma DifferingKeepsOthers(tree: Tree, base: Tree, destination: Path, stage: Path, backup: Path)
    requires destination != [] && AddsDirectories(tree, base, Parent(destination))
    ensures forall e :: DiffersOnlyAt(base, e, destination, stage, backup) ==>
              KeepsOthers(tree, e, destination, stage, backup)
    ensures forall e :: AddsDirectories(tree, e, Parent(destination)) ==>
              KeepsOthers(tree, e, destination, stage, backup)
  {
  }

  /** `base` is the tree with the directory prepared; the update starts from there. */
  method BeginProtectedUpdate(disk: Disk, source: Path, destination: Path, stage: Path, backup: Path, owner: Owner)
    returns (update: UnixProtectedBinaryUpdate?, ghost base: Tree, ghost undoneAt: Option<nat>)
    requires |destination| >= 2 && IsChild(stage, Parent(destination)) && IsChild(backup, Parent(destination))
    requires stage != destination && backup != destination && stage != backup
    requires IsTree(disk.entries)
    modifies disk
    ensures disk.clock >= old(disk.clock) && old(disk.visited) <= disk.visited
    ensures AddsDirectories(old(disk.entries), base, Parent(destination))
    // Without faults the update begins exactly if the tree is fit for it.
    ensures NoFaults(disk, old(disk.clock), disk.clock) ==>
              (update != null <==> Installable(old(disk.entries), source, destination, stage, backup, owner))
    ensures update != null ==>
              var tree := old(disk.entries);
              && fresh(update) && update.Valid() && !update.finished && update.destination == destination
              && Installable(tree, source, destination, stage, backup, owner)
              && Begun(update, tree, base, disk.entries, backup, File(tree[source].bytes, owner, PROTECTED_MODE))
    ensures update == null && AtMostOneFault(disk, old(disk.clock), disk.clock) && backup !in old(disk.entries) ==>
              AddsDirectories(old(disk.entries), disk.entries, Parent(destination))
    ensures forall e :: e in disk.visited && e !in old(disk.visited) ==>
              KeepsOthers(old(disk.entries), e, destination, stage, backup)
    ensures undoneAt.Some? ==> update == null && FollowsFailure(disk, old(disk.clock), undoneAt.value)
    ensures KeptUnlessLost(disk, old(disk.visited), undoneAt, Prior(old(disk.entries), destination), destination,
                           backup)
  {
    undoneAt := None;
    ghost var tree, start, before := disk.entries, disk.clock, disk.visited;
    var parent := Parent(destination);
    var created := PrepareDirectory(disk, parent, owner);
    base := disk.entries;
    ghost var prepared, middle := disk.visited, disk.clock;
    DifferingKeepsOthers(tree, base, destination, stage, backup);
    AddedDirectoriesAreSafe(tree, destination, stage, backup);
    assert AllKept(before, prepared, Prior(tree, destination), destination, backup);
    PartOfRun(disk, start, start, middle, middle);
    if created.None? {
      return null, base, None;
    }
    assert created.value ==> Parent(parent) in base by {
      assert |parent| > 1 ==> parent[..|parent| - 1] == Parent(parent);
    }
    update, undoneAt := BeginPrepared(disk, source, destination, stage, backup, owner, created.value, tree);
    KeptThroughout(before, prepared, disk.visited, Prior(tree, destination), destination, backup);
    PartOfRun(disk, start, start, middle, disk.clock);
    PartOfRun(disk, start, middle, disk.clock, disk.clock);
  }

  /** The update on the prepared directory; a directory just created is removed again if the update does not begin. */
  method BeginPrepared(disk: Disk, source: Path, destination: Path, stage: Path, backup: Path, owner: Owner,
                       created: bool, ghost tree: Tree)
    returns (update: UnixProtectedBinaryUpdate?, ghost undoneAt: Option<nat>)
    requires |destination| >= 2 && IsChild(stage, Parent(destination)) && IsChild(backup, Parent(destination))
    requires stage != destination && backup != destination && stage != backup
    requires IsTree(tree) && AddsDirectories(tree, disk.entries, Parent(destination))
    requires Parent(destination) in disk.entries && disk.entries[Parent(destination)].Directory?
    requires created <==> Parent(destination) !in tree
    requires created ==> Parent(Parent(destination)) in disk.entries
    modifies disk
    ensures disk.clock >= old(disk.clock) && old(disk.visited) <= disk.visited
    ensures update != null ==>
              && fresh(update) && update.Valid() && !update.finished && update.destination == destination
              && source in tree && tree[source].File?
              && (destination in tree ==> IsProtectedFile(tree[destination], owner))
              && NamesFree(tree, destination, stage, backup)
              && Begun(update, tree, old(disk.entries), disk.entries, backup,
                       File(tree[source].bytes, owner, PROTECTED_MODE))
    ensures NoFaults(disk, old(disk.clock), disk.clock)
            && source in tree && tree[source].File?
            && (destination in tree ==> IsProtectedFile(tree[destination], owner))
            && NamesFree(tree, destination, stage, backup) ==>
              update != null
    ensures update == null && AtMostOneFault(disk, old(disk.clock), disk.clock) && backup !in tree ==>
              AddsDirectories(tree, disk.entries, Parent(destination))
    ensures forall e :: e in disk.visited && e !in old(disk.visited) ==>
              KeepsOthers(tree, e, destination, stage, backup)
    ensures undoneAt.Some? ==> update == null && FollowsFailure(disk, old(disk.clock), undoneAt.value)
    ensures KeptUnlessLost(disk, old(disk.visited), undoneAt, Prior(tree, destination), destination, backup)
  {
    ghost var base, start, before := disk.entries, disk.clock, disk.visited;
    AddedDirectoriesKeepPrior(tree, base, destination, source);
    AddedDirectoriesAreSafe(tree, destination, stage, backup);
    DifferingKeepsOthers(tree, base, destination, stage, backup);
    update, undoneAt := BeginUpdateAt(disk, source, destination, stage, backup, owner);
    if update != null {
      update.createdParent := created;
    } else if created {
      ghost var seen := disk.visited;
      RemoveCreated(disk, destination, stage, backup, tree);
      assert AtMostOneFault(disk, start, disk.clock) ==> AtMostOneFault(disk, start, disk.clock - 1);
      assert disk.visited == seen + {disk.entries};
    }
  }

  /** Removes the directory created for an update that did not begin, if it is empty. */
  method RemoveCreated(disk: Disk, destination: Path, stage: Path, backup: Path, ghost tree: Tree)
    requires destination != [] && Parent(destination) !in tree && IsTree(tree)
    modifies disk
    ensures disk.clock == old(disk.clock) + 1 && disk.visited == old(disk.visited) + {disk.entries}
    ensures AddsDirectories(tree, old(disk.entries), Parent(destination)) ==>
              AddsDirectories(tree, disk.entries, Parent(destination))
    ensures KeepsOthers(tree, old(disk.entries), destination, stage, backup) ==>
              KeepsOthers(tree, disk.entries, destination, stage, backup)
    ensures Prior(tree, destination).None?
  {
    ParentMayGo(tree, destination, stage, backup);
    ghost var unwound := disk.entries;
    var _ := disk.RemoveDirectory(Parent(destination));
    assert disk.entries == unwound || disk.entries == unwound - {Parent(destination)};
  }

  lemma AddedDirectoriesAreSafe(tree: Tree, destination: Path, stage: Path, backup: Path)
    requires IsTree(tree) && destination != []
    ensures forall e :: AddsDirectories(tree, e, Parent(destination)) ==>
              PriorKept(e, Prior(tree, destination), destination, backup)
    ensures forall e ::
              AddsDirectories(tree, e, Parent(destination)) && IsChild(backup, Parent(destination)) && backup in e ==>
                  backup in tree
  {
    forall e | AddsDirectories(tree, e, Parent(destination)) && IsChild(backup, Parent(destination)) && backup in e
      ensures backup in tree
    {
      assert !(backup <= Parent(destination));
    }
  }

  /** Removing a directory that was created for the update disturbs nothing that was there before. */
  lemma ParentMayGo(tree: Tree, destination: Path, stage: Path, backup: Path)
    requires destination != [] && Parent(destination) !in tree && IsTree(tree)
    ensures forall e :: AddsDirectories(tree, e, Parent(destination)) ==>
              AddsDirectories(tree, e - {Parent(destination)}, Parent(destination))
    ensures forall e :: KeepsOthers(tree, e, destination, stage, backup) ==>
              KeepsOthers(tree, e - {Parent(destination)}, destination, stage, backup)
    ensures Prior(tree, destination).None?
  {
  }

  // ---------- The installation ----------

  /** The new binary is in place, and no backup beside it. */
  ghost predicate Committed(e: Tree, base: Tree, destination: Path, binary: Entry) {
    e == base[destination := binary]
  }

  /** Every file is as before; a directory that was created for the destination is gone again. */
  ghost predicate Unwound(tree: Tree, e: Tree, destination: Path)
    requires destination != []
  {
    AddsDirectories(tree, e, Parent(destination)) && (Parent(destination) !in tree ==> Parent(destination) !in e)
  }

  /** Every state visited since keeps the prior binary until the new one is committed. */
  ghost predicate AllKeptOrCommitted(before: set<Tree>, after: set<Tree>, prior: Option<Entry>, base: Tree,
                                     destination: Path, backup: Path, binary: Entry)
  {
    forall e :: e in after && e !in before ==>
        PriorKept(e, prior, destination, backup) || Committed(e, base, destination, binary)
  }

  ghost predicate AllKeepOthers(before: set<Tree>, after: set<Tree>, tree: Tree, destination: Path, stage: Path,
                                backup: Path)
    requires destination != []
  {
    forall e :: e in after && e !in before ==> KeepsOthers(tree, e, destination, stage, backup)
  }

  /** An update has begun on `tree`, with `base` the tree after the directory was prepared. */
  ghost predicate Begun(update: UnixProtectedBinaryUpdate, tree: Tree, base: Tree, published: Tree, backup: Path,
                        binary: Entry)
    reads update
  {
    var destination := update.destination;
    && IsTree(tree) && update.Valid() && !update.finished
    && IsChild(backup, Parent(destination)) && backup != destination
    && AddsDirectories(tree, base, Parent(destination)) && Parent(destination) in base
    && (update.createdParent <==> Parent(destination) !in tree)
    && (update.backup == if destination in tree then Some(backup) else None) && (destination in tree ==>
        backup !in tree)
    && update.Published(published, Prior(tree, destination), binary)
    && published == PublishedTree(base, destination, backup, binary)
  }

  lemma CommittedTree(update: UnixProtectedBinaryUpdate, tree: Tree, base: Tree, published: Tree, backup: Path,
                      binary: Entry)
    requires Begun(update, tree, base, published, backup, binary)
    ensures Committed(if update.backup.Some? then published - {backup} else published, base, update.destination, binary)
  {
    AddedDirectoriesKeepPrior(tree, base, update.destination, update.destination);
    AddedDirectoriesAreSafe(tree, update.destination, update.destination, backup);
  }

  lemma RolledBackIsUnwound(update: UnixProtectedBinaryUpdate, tree: Tree, base: Tree, published: Tree, backup: Path,
                            binary: Entry)
    requires Begun(update, tree, base, published, backup, binary)
    ensures Unwound(tree, update.RolledBack(published), update.destination)
  {
    AddedDirectoriesKeepPrior(tree, base, update.destination, update.destination);
    AddedDirectoriesAreSafe(tree, update.destination, update.destination, backup);
    if update.createdParent {
      assert published - {update.destination} == base;
    } else {
      assert update.RolledBack(published) == base;
    }
  }

  lemma TouchingKeepsOthers(update: UnixProtectedBinaryUpdate, tree: Tree, base: Tree, published: Tree, stage: Path,
                            backup: Path, binary: Entry)
    requires Begun(update, tree, base, published, backup, binary) && IsChild(stage, Parent(update.destination))
    ensures forall e :: OnlyThese(published, e, update.destination, update.BackupPath(), update.createdParent) ==>
              KeepsOthers(tree, e, update.destination, stage, backup)
  {
    DifferingKeepsOthers(tree, base, update.destination, stage, backup);
    assert KeepsOthers(tree, published, update.destination, stage, backup);
    forall e | OnlyThese(published, e, update.destination, update.BackupPath(), update.createdParent)
      ensures KeepsOthers(tree, e, update.destination, stage, backup)
    {
      OthersKeptTwice(tree, published, e, update.destination, stage, backup, update.BackupPath(), update.createdParent);
    }
  }

  lemma OthersKeptTwice(tree: Tree, published: Tree, e: Tree, destination: Path, stage: Path, backup: Path, at: Path,
                        createdParent: bool)
    requires destination != [] && KeepsOthers(tree, published, destination, stage, backup)
    requires at in {backup, destination}
    requires createdParent ==> Parent(destination) !in tree
    requires createdParent ==>
              Parent(destination) in published && Parent(destination) != stage && Parent(destination) != backup
    requires OnlyThese(published, e, destination, at, createdParent)
    ensures KeepsOthers(tree, e, destination, stage, backup)
  {
  }

  /** `commit` after the steps of the service manager succeeded. */
  method CommitInstalled(disk: Disk, update: UnixProtectedBinaryUpdate, ghost tree: Tree, ghost base: Tree,
                         stage: Path, backup: Path, ghost binary: Entry)
    returns (ok: bool)
    requires Begun(update, tree, base, disk.entries, backup, binary) && IsChild(stage, Parent(update.destination))
    modifies disk, update
    ensures old(disk.visited) <= disk.visited && disk.clock > old(disk.clock)
    ensures AllWell(disk, old(disk.clock), disk.clock) ==> ok
    ensures ok ==> Committed(disk.entries, base, update.destination, binary)
    ensures !ok && AtMostOneFault(disk, old(disk.clock), disk.clock) ==>
              Unwound(tree, disk.entries, update.destination)
                || Committed(disk.entries, base, update.destination, binary)
    ensures AllKeepOthers(old(disk.visited), disk.visited, tree, update.destination, stage, backup)
    ensures AllKeptOrCommitted(old(disk.visited), disk.visited, Prior(tree, update.destination), base,
                               update.destination, backup, binary)
  {
    ghost var start, published := disk.clock, disk.entries;
    CommittedTree(update, tree, base, published, backup, binary);
    RolledBackIsUnwound(update, tree, base, published, backup, binary);
    TouchingKeepsOthers(update, tree, base, published, stage, backup, binary);
    ok := update.Commit(disk, Prior(tree, update.destination), binary);
    if !ok && AtMostOneFault(disk, start, disk.clock) {
      if disk.Fails(start) {
        WellAfterFault(disk, start, start, disk.clock);
      } else if disk.Fails(start + 1) {
        WellAfterFault(disk, start, start + 1, disk.clock);
      }
    }
  }

  lemma WellAfterFault(disk: Disk, start: nat, fault: nat, end: nat)
    requires AtMostOneFault(disk, start, end) && start <= fault < end && disk.Fails(fault)
    ensures AllWell(disk, fault + 1, end)
  {
    assert disk.Faulty(fault);
    forall n | fault < n < end
      ensures !disk.Fails(n)
    {
      assert !disk.Faulty(n);
    }
  }

  /** `rollback` after a step of the service manager failed. */
  method RollbackInstalled(disk: Disk, update: UnixProtectedBinaryUpdate, ghost tree: Tree, ghost base: Tree,
                           stage: Path, backup: Path, ghost binary: Entry)
    requires Begun(update, tree, base, disk.entries, backup, binary) && IsChild(stage, Parent(update.destination))
    modifies disk, update`finished
    ensures old(disk.visited) <= disk.visited && disk.clock > old(disk.clock)
    ensures AllWell(disk, old(disk.clock), disk.clock) ==> Unwound(tree, disk.entries, update.destination)
    ensures AllKeepOthers(old(disk.visited), disk.visited, tree, update.destination, stage, backup)
    ensures KeptUnlessLost(disk, old(disk.visited), Some(old(disk.clock)), Prior(tree, update.destination),
                           update.destination, backup)
  {
    ghost var start, published := disk.clock, disk.entries;
    RolledBackIsUnwound(update, tree, base, published, backup, binary);
    TouchingKeepsOthers(update, tree, base, published, stage, backup, binary);
    ghost var before, prior := disk.visited, Prior(tree, update.destination);
    var _ := update.Rollback(disk, prior, binary);
    if AllKept(before, disk.visited, prior, update.destination, update.BackupPath()) {
      KeptAtBackup(before, disk.visited, prior, update.destination, update.BackupPath(), backup);
    }
  }

  /**
   * `install` on Unix, `stepsSucceed` being the outcome of the firewall, the descriptor, the service
   * manager and the reachability check together.
   */
  method Install(disk: Disk, source: Path, destination: Path, stage: Path, backup: Path, owner: Owner,
                 stepsSucceed: bool)
    returns (installed: bool, ghost begun: bool, ghost base: Tree, ghost binary: Entry, ghost undoneAt: Option<nat>)
    requires |destination| >= 2 && IsChild(stage, Parent(destination)) && IsChild(backup, Parent(destination))
    requires stage != destination && backup != destination && stage != backup
    requires IsTree(disk.entries)
    modifies disk
    ensures old(disk.visited) <= disk.visited && AddsDirectories(old(disk.entries), base, Parent(destination))
    // Success: the source's bytes, protected, at the destination, and nothing else but directories on the way.
    ensures installed ==>
              && begun && stepsSucceed && source in old(disk.entries) && old(disk.entries)[source].File?
              && binary == File(old(disk.entries)[source].bytes, owner, PROTECTED_MODE)
              && Committed(disk.entries, base, destination, binary)
    // Without faults the installation succeeds exactly if the tree is fit for it and the steps succeed.
    ensures begun ==> Installable(old(disk.entries), source, destination, stage, backup, owner)
    ensures NoFaults(disk, old(disk.clock), disk.clock) ==>
              && (begun <==> Installable(old(disk.entries), source, destination, stage, backup, owner))
              && (installed <==> begun && stepsSucceed)
    // A rollback is begun if the steps fail after the update began, or if the last sync of beginning it failed.
    ensures begun && !stepsSucceed ==> undoneAt.Some?
    ensures undoneAt.Some? ==>
              && !installed && old(disk.clock) <= undoneAt.value < disk.clock
              && if begun then !stepsSucceed else FollowsFailure(disk, old(disk.clock), undoneAt.value)
    // The steps fail after the update began: if the rollback meets no fault, everything is as before.
    ensures begun && !stepsSucceed && AllWell(disk, undoneAt.value, disk.clock) ==>
              Unwound(old(disk.entries), disk.entries, destination)
    // One operation fails and the steps do not: every file is as before, or the new binary is in place.
    ensures !installed && (stepsSucceed || !begun) && AtMostOneFault(disk, old(disk.clock), disk.clock)
            && backup !in old(disk.entries) ==>
              || AddsDirectories(old(disk.entries), disk.entries, Parent(destination))
              || (begun && Committed(disk.entries, base, destination, binary))
    // Whatever fails: no other path changes.
    ensures AllKeepOthers(old(disk.visited), disk.visited, old(disk.entries), destination, stage, backup)
    // The prior binary is kept at every step until the new one is committed, or that rollback loses it.
    ensures if Loses(disk, undoneAt, Prior(old(disk.entries), destination))
            then !PriorKept(disk.entries, Prior(old(disk.entries), destination), destination, backup)
            else AllKeptOrCommitted(old(disk.visited), disk.visited, Prior(old(disk.entries), destination), base,
                                    destination, backup, binary)
  {
    ghost var tree, start := disk.entries, disk.clock;
    var update;
    update, base, undoneAt := BeginProtectedUpdate(disk, source, destination, stage, backup, owner);
    binary := if source in tree && tree[source].File? then File(tree[source].bytes, owner, PROTECTED_MODE) else Other;
    begun := update != null;
    if update == null {
      return false, begun, base, binary, undoneAt;
    }
    ghost var middle := disk.clock;
    if stepsSucceed {
      installed := CommitInstalled(disk, update, tree, base, stage, backup, binary);
    } else {
      undoneAt := Some(middle);
      RollbackInstalled(disk, update, tree, base, stage, backup, binary);
      installed := false;
    }
    PartOfRun(disk, start, start, middle, disk.clock);
    PartOfRun(disk, start, middle, disk.clock, disk.clock);
  }
}
