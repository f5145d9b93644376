// The Linux installation of install.sh: the profile files are published within a transaction that
// runs inside the one for the two binaries; each snapshots its targets and puts them back on failure.
module LinuxInstall {
  import opened Common
  import opened Filesystem

  /** Only root can give a copy the owner of the original. */
  datatype User = User(owner: Owner, root: bool)

  datatype Key = Icon48 | Icon128 | Icon256 | Application | Desktop | LegacyEntry | Autostart | Cli | Helper

  /** The directories everything is installed under; the desktop directory may be missing. */
  datatype Layout = Layout(bin: Path, dataHome: Path, configHome: Path, desktop: Option<Path>)

  datatype Assets = Assets(icon48: Bytes, icon128: Bytes, icon256: Bytes, application: Bytes, autostart: Bytes,
                           cli: Bytes, helper: Option<Bytes>)

  const ICON := "dev.wakezilla.Wakezilla.png"
  const DESKTOP_ENTRY := "dev.wakezilla.Wakezilla.desktop"
  const LEGACY_ENTRY := "wakezilla-tray.desktop"
  const AUTOSTART_ENTRY := "dev.wakezilla.tray.desktop"
  const READABLE: nat := 0x1A4
  const EXECUTABLE: nat := 0x1ED

  function IconPath(dataHome: Path, size: string): Path {
    dataHome + ["icons", "hicolor", size, "apps", ICON]
  }

  function Target(layout: Layout, key: Key): Option<Path> {
    match key
    case Icon48 => Some(IconPath(layout.dataHome, "48x48"))
    case Icon128 => Some(IconPath(layout.dataHome, "128x128"))
    case Icon256 => Some(IconPath(layout.dataHome, "256x256"))
    case Application => Some(layout.dataHome + ["applications", DESKTOP_ENTRY])
    case Desktop => if layout.desktop.Some? then Some(layout.desktop.value + [DESKTOP_ENTRY]) else None
    case LegacyEntry => Some(layout.configHome + ["autostart", LEGACY_ENTRY])
    case Autostart => Some(layout.configHome + ["autostart", AUTOSTART_ENTRY])
    case Cli => Some(layout.bin + ["wakezilla"])
    case Helper => Some(layout.bin + ["wakezilla-tray"])
  }

  function Name(path: Path): string
    requires path != []
  {
    path[|path| - 1]
  }

  /** Temporary files are hidden; no target is. */
  predicate Hidden(path: Path) {
    path != [] && Name(path) != "" && Name(path)[0] == '.'
  }

  function Temporary(target: Path, suffix: string): (temporary: Path)
    requires target != []
    ensures Hidden(temporary) && Parent(temporary) == Parent(target)
  {
    Parent(target) + ["." + Name(target) + "." + suffix]
  }

  lemma TargetsAreVisible(layout: Layout, key: Key)
    ensures Target(layout, key).Some? ==> Target(layout, key).value != [] && !Hidden(Target(layout, key).value)
  {
  }

  lemma IconName(dataHome: Path, size: string)
    ensures var path :=
              IconPath(dataHome, size); Name(path) == ICON && |path| == |dataHome| + 5 && path[|dataHome| + 2] == size
  {
  }

  /** The only two targets that can be one and the same path are the menu entry and its copy on the desktop. */
  lemma TargetsCoincideOnlyOnTheDesktop(layout: Layout, a: Key, b: Key)
    requires a != b && Target(layout, a).Some? && Target(layout, a) == Target(layout, b)
    ensures {a, b} == {Application, Desktop}
  {
    var path := Target(layout, a).value;
    IconName(layout.dataHome, "48x48");
    IconName(layout.dataHome, "128x128");
    IconName(layout.dataHome, "256x256");
    assert Name(path) in {ICON, DESKTOP_ENTRY, LEGACY_ENTRY, AUTOSTART_ENTRY, "wakezilla", "wakezilla-tray"};
    NamesDiffer();
    assert "48x48" != "128x128" && "48x48" != "256x256" && "128x128"[0] != "256x256"[0];
  }

  lemma TargetsDifferBut(layout: Layout, a: Key, b: Key)
    ensures a != b && {a, b} != {Application, Desktop} && Target(layout, a).Some? ==>
              Target(layout, a) != Target(layout, b)
  {
    if a != b && Target(layout, a).Some? && Target(layout, a) == Target(layout, b) {
      TargetsCoincideOnlyOnTheDesktop(layout, a, b);
    }
  }

  lemma NamesDiffer()
    ensures |ICON| == 27 && |DESKTOP_ENTRY| == 31 && |LEGACY_ENTRY| == 22 && |AUTOSTART_ENTRY| == 26
    ensures |"wakezilla"| == 9 && |"wakezilla-tray"| == 14
  {
  }

  // ---------- Comparing trees ----------

  ghost predicate SameAt(a: Tree, b: Tree, path: Path) {
    (path in a <==> path in b) && (path in a ==> a[path] == b[path])
  }

  ghost predicate IsDirectory(tree: Tree, path: Path) {
    path in tree && tree[path].Directory?
  }

  ghost predicate NoDirectories(tree: Tree, paths: set<Path>) {
    forall path :: path in paths ==> !IsDirectory(tree, path)
  }

  /** Nothing but regular files is at these paths. */
  ghost predicate AllRegular(tree: Tree, paths: set<Path>) {
    forall path :: path in paths && path in tree ==> tree[path].File?
  }

  /** The visible paths outside `changed` are the same, and none in it has become a directory. */
  ghost predicate Untouched(a: Tree, b: Tree, changed: set<Path>) {
    forall path :: !Hidden(path) ==>
      if path in changed then IsDirectory(b, path) ==> IsDirectory(a, path) else SameAt(a, b, path)
  }

  ghost predicate Agrees(a: Tree, b: Tree) {
    Untouched(a, b, {})
  }

  ghost predicate AllUntouched(tree: Tree, before: set<Tree>, after: set<Tree>, changed: set<Path>) {
    before <= after && forall e :: e in after && e !in before ==> Untouched(tree, e, changed)
  }

  lemma UntouchedTwice(a: Tree, b: Tree, c: Tree, s: set<Path>, t: set<Path>)
    requires Untouched(a, b, s) && Untouched(b, c, t)
    ensures Untouched(a, c, s + t)
  {
    forall path | !Hidden(path)
      ensures if path in s + t then IsDirectory(c, path) ==> IsDirectory(a, path) else SameAt(a, c, path)
    {
      assert path !in s ==> SameAt(a, b, path);
      assert path !in t ==> SameAt(b, c, path);
    }
  }

  lemma AllUntouchedLater(a: Tree, b: Tree, s0: set<Tree>, s1: set<Tree>, s2: set<Tree>, s: set<Path>, t: set<Path>)
    requires AllUntouched(a, s0, s1, s) && Untouched(a, b, s) && AllUntouched(b, s1, s2, t)
    ensures AllUntouched(a, s0, s2, s + t)
  {
    forall e | e in s2 && e !in s0
      ensures Untouched(a, e, s + t)
    {
      if e in s1 {
        assert Untouched(a, e, s);
      } else {
        UntouchedTwice(a, b, e, s, t);
      }
    }
  }

  /** A copy that keeps mode and, if it can, owner (`cp -p`). */
  function Copied(file: Entry, me: User): Entry
    requires file.File?
  {
    if me.root then file else File(file.bytes, me.owner, file.mode)
  }

  /** The path is back as it was in `a`, by way of a copy. */
  ghost predicate RestoredAt(a: Tree, b: Tree, path: Path, me: User) {
    (path in a <==> path in b) && (path in a ==> a[path].File? && b[path] == Copied(a[path], me))
  }

  // ---------- Files ----------

  /** `mktemp`: a hidden name beside the target that is not in use. */
  method FreeName(entries: Tree, target: Path, suffix: string) returns (temporary: Path)
    requires target != []
    ensures Hidden(temporary) && Parent(temporary) == Parent(target) && temporary !in entries
  {
    var tail := suffix;
    temporary := Temporary(target, tail);
    ghost var untried := entries.Keys;
    while temporary in entries
      invariant temporary == Temporary(target, tail)
      invariant forall path :: path in entries && path != [] && |Name(path)| >= |Name(temporary)| ==> path in untried
      decreases |untried|
    {
      untried := untried - {temporary};
      tail := tail + "X";
      temporary := Temporary(target, tail);
    }
  }

  /**
   * `atomic_install_file`, `atomic_restore_file` and `install_bin`: a temporary file beside the
   * target is filled, given its mode and owner, and renamed over the target. The script does not
   * compare, so what was `written` is the file only if the copy did not silently go wrong.
   */
  method ReplaceFile(disk: Disk, target: Path, file: Entry, me: User, suffix: string)
    returns (ok: bool, ghost written: Entry)
    requires target != [] && !Hidden(target) && file.File?
    modifies disk
    ensures disk.clock > old(disk.clock)
    ensures written.File? && written == file.(bytes := written.bytes)
    ensures Honest(disk, old(disk.clock), disk.clock) ==> written == file
    // Either way the target changes at once or not at all, and no other visible path ever changes.
    ensures if ok then Agrees(old(disk.entries)[target := written], disk.entries)
            else Agrees(old(disk.entries), disk.entries)
    // If no operation fails, only a directory in the way stops it.
    ensures AllWell(disk, old(disk.clock), disk.clock) ==> (ok <==> !IsDirectory(old(disk.entries), target))
    ensures old(disk.visited) <= disk.visited
    ensures forall e :: e in disk.visited && e !in old(disk.visited) ==>
              Agrees(old(disk.entries), e) || Agrees(old(disk.entries)[target := written], e)
  {
    written := file;
    var found := disk.Inspect(target);
    if found.Found? && found.entry.Directory? {
      return false, written;
    }
    var temporary := FreeName(disk.entries, target, suffix);
    var created := disk.CreateTemp(temporary, me.owner);
    if !created {
      return false, written;
    }
    ok, written := MoveOver(disk, temporary, target, file, me);
  }

  /** Fills the temporary file and renames it over the target; if that fails the temporary file is dropped. */
  method MoveOver(disk: Disk, temporary: Path, target: Path, file: Entry, me: User)
    returns (ok: bool, ghost written: Entry)
    requires Hidden(temporary) && temporary in disk.entries && !Hidden(target) && file.File?
    requires disk.entries[temporary].File? && disk.entries[temporary].owner == me.owner
    modifies disk
    ensures disk.clock > old(disk.clock) && old(disk.visited) <= disk.visited
    ensures written.File? && written == file.(bytes := written.bytes)
    ensures Honest(disk, old(disk.clock), disk.clock) ==> written == file
    ensures if ok then Agrees(old(disk.entries)[target := written], disk.entries)
            else Agrees(old(disk.entries), disk.entries)
    ensures AllWell(disk, old(disk.clock), disk.clock) ==> (ok <==> !IsDirectory(old(disk.entries), target))
    ensures forall e :: e in disk.visited && e !in old(disk.visited) ==>
              Agrees(old(disk.entries), e) || Agrees(old(disk.entries)[target := written], e)
  {
    ok, written := FillTemporary(disk, temporary, file, me);
    TemporaryIsHidden(disk.entries, temporary, target);
    if ok {
      ok := disk.Rename(temporary, target);
    }
    if !ok {
      var _ := disk.RemoveFile(temporary);
    }
  }

  lemma TemporaryIsHidden(tree: Tree, temporary: Path, target: Path)
    requires Hidden(temporary) && temporary in tree
    ensures Agrees(tree, tree - {temporary})
    ensures Agrees(tree[target := tree[temporary]], (tree - {temporary})[target := tree[temporary]])
  {
  }

  method FillTemporary(disk: Disk, temporary: Path, file: Entry, me: User) returns (ok: bool, ghost written: Entry)
    requires Hidden(temporary) && temporary in disk.entries && file.File?
    requires disk.entries[temporary].File? && disk.entries[temporary].owner == me.owner
    modifies disk
    ensures disk.clock > old(disk.clock) && old(disk.visited) <= disk.visited
    ensures written.File? && written == file.(bytes := written.bytes)
    ensures Honest(disk, old(disk.clock), disk.clock) ==> written == file
    ensures ok ==> disk.entries == old(disk.entries)[temporary := written]
    ensures AllWell(disk, old(disk.clock), disk.clock) ==> ok
    ensures temporary in disk.entries && disk.entries == old(disk.entries)[temporary := disk.entries[temporary]]
    ensures forall e :: e in disk.visited && e !in old(disk.visited) ==> Agrees(old(disk.entries), e)
  {
    written := file;
    ok := disk.Write(temporary, file.bytes);
    if !ok {
      return;
    }
    written := file.(bytes := disk.entries[temporary].bytes);
    ok := disk.SetMode(temporary, file.mode);
    if !ok {
      return;
    }
    if file.owner != me.owner {
      ok := disk.SetOwner(temporary, file.owner);
    }
  }

  /** `rm -f`. */
  method RemoveIfThere(disk: Disk, path: Path) returns (ok: bool)
    requires !Hidden(path)
    modifies disk
    ensures disk.clock > old(disk.clock) && old(disk.visited) <= disk.visited
    ensures disk.entries == if ok then old(disk.entries) - {path} else old(disk.entries)
    ensures AllWell(disk, old(disk.clock), disk.clock) ==> (ok <==> !IsDirectory(old(disk.entries), path))
    ensures disk.visited == old(disk.visited) + {disk.entries}
  {
    var removed := disk.RemoveFile(path);
    ok := removed == Done || removed == NotFound;
  }

  // ---------- A transaction ----------

  function SnapshotOf(entries: Tree, path: Path, me: User): Option<Option<Entry>> {
    if path !in entries then Some(None)
    else if entries[path].File? then Some(Some(Copied(entries[path], me)))
    else None
  }

  /** One target's turn in a rollback: its operations, and whether the target was restored. */
  datatype Turn = Turn(first: nat, end: nat, ok: bool)

  ghost predicate InOrder(turns: seq<Turn>, start: nat, end: nat) {
    && start <= end
    && (forall k :: 0 <= k < |turns| ==> start <= turns[k].first < turns[k].end <= end)
    && forall j, k :: 0 <= j < k < |turns| ==> turns[j].end <= turns[k].first
  }

  lemma NextInOrder(turns: seq<Turn>, start: nat, first: nat, end: nat, ok: bool)
    requires InOrder(turns, start, first) && first < end
    ensures InOrder(turns + [Turn(first, end, ok)], start, end)
  {
  }

  /** A turn that does not restore its target had a failing operation or found a directory in the way. */
  ghost predicate Earned(disk: Disk, turn: Turn, middle: Tree, path: Path) {
    AllWell(disk, turn.first, turn.end) && !IsDirectory(middle, path) ==> turn.ok
  }

  class Transaction {
    const layout: Layout
    const me: User
    const suffix: string
    var snapshots: map<Key, Option<Entry>>
    var touched: seq<Key>

    constructor (layout: Layout, me: User, suffix: string)
      ensures this.layout == layout && this.me == me && this.suffix == suffix && snapshots == map[] && touched == []
      ensures Valid()
    {
      this.layout := layout;
      this.me := me;
      this.suffix := suffix;
      this.snapshots := map[];
      this.touched := [];
    }

    ghost predicate Valid()
      reads this
    {
      forall key :: key in snapshots ==>
          Target(layout, key).Some? && (snapshots[key].Some? ==> snapshots[key].value.File?)
    }

    /** The snapshots are those of `tree`. */
    ghost predicate Records(tree: Tree)
      requires Valid()
      reads this
    {
      forall key :: key in snapshots ==> SnapshotOf(tree, Target(layout, key).value, me) == Some(snapshots[key])
    }

    ghost function Paths(keys: seq<Key>): set<Path> {
      set key | key in keys && Target(layout, key).Some? :: Target(layout, key).value
    }

    /** What a complete rollback leaves: the touched targets as they were, all else as it is. */
    ghost predicate RolledBack(tree: Tree, middle: Tree, e: Tree)
      reads this
    {
      && Untouched(middle, e, Paths(touched))
      && forall path :: path in Paths(touched) ==> RestoredAt(tree, e, path, me)
    }

    method Snapshot(disk: Disk, key: Key) returns (ok: bool)
      requires Target(layout, key).Some? && Valid()
      modifies this`snapshots, disk
      ensures Valid()
      ensures disk.entries == old(disk.entries) && disk.clock > old(disk.clock)
      ensures old(disk.visited) <= disk.visited <= old(disk.visited) + {disk.entries}
      ensures ok && NoFaults(disk, old(disk.clock), disk.clock) && old(Records(disk.entries)) ==> Records(disk.entries)
      // If no operation fails, only what is not a regular file is refused.
      ensures AllWell(disk, old(disk.clock), disk.clock) ==>
                (ok <==> SnapshotOf(disk.entries, Target(layout, key).value, me).Some?)
      ensures snapshots.Keys == if ok then old(snapshots.Keys) + {key} else old(snapshots.Keys)
    {
      var path := Target(layout, key).value;
      ghost var start := disk.clock;
      var present := disk.Exists(path);
      assert !present && !disk.Faulty(start) ==> path !in disk.entries;
      if !present {
        snapshots := snapshots[key := None];
        return true;
      }
      var found := disk.Inspect(path);
      if !(found.Found? && found.entry.File?) {
        return false;
      }
      var bytes := disk.Copy(path);
      if bytes.None? {
        return false;
      }
      assert !disk.Faulty(start + 2) ==> bytes.value == disk.entries[path].bytes;
      snapshots := snapshots[key := Some(Copied(found.entry.(bytes := bytes.value), me))];
      return true;
    }

    method Publish(disk: Disk, key: Key, bytes: Bytes, mode: nat) returns (ok: bool)
      requires Target(layout, key).Some?
      modifies this`touched, disk
      ensures touched == [key] + old(touched) && disk.clock > old(disk.clock)
      ensures var path := Target(layout, key).value;
              && AllUntouched(old(disk.entries), old(disk.visited), disk.visited, {path})
              && Untouched(old(disk.entries), disk.entries, {path})
              && (ok && Honest(disk, old(disk.clock), disk.clock) ==>
                    Agrees(old(disk.entries)[path := File(bytes, me.owner, mode)], disk.entries))
              && (!ok ==> Agrees(old(disk.entries), disk.entries))
              && (AllWell(disk, old(disk.clock), disk.clock) ==> (ok <==> !IsDirectory(old(disk.entries), path)))
    {
      TargetsAreVisible(layout, key);
      touched := [key] + touched;
      ghost var written;
      ok, written := ReplaceFile(disk, Target(layout, key).value, File(bytes, me.owner, mode), me, suffix);
    }

    method Remove(disk: Disk, key: Key) returns (ok: bool)
      requires Target(layout, key).Some?
      modifies this`touched, disk
      ensures touched == [key] + old(touched) && disk.clock > old(disk.clock)
      ensures var path := Target(layout, key).value;
              && AllUntouched(old(disk.entries), old(disk.visited), disk.visited, {path})
              && disk.entries == (if ok then old(disk.entries) - {path} else old(disk.entries))
              && (AllWell(disk, old(disk.clock), disk.clock) ==> (ok <==> !IsDirectory(old(disk.entries), path)))
    {
      TargetsAreVisible(layout, key);
      touched := [key] + touched;
      ok := RemoveIfThere(disk, Target(layout, key).value);
    }

    method Restore(disk: Disk, key: Key, ghost tree: Tree) returns (ok: bool)
      requires Valid() && key in snapshots
      modifies disk
      ensures disk.clock > old(disk.clock)
      ensures var path := Target(layout, key).value;
              && AllUntouched(old(disk.entries), old(disk.visited), disk.visited, {path})
              && Untouched(old(disk.entries), disk.entries, {path})
              && (ok && Records(tree) && Honest(disk, old(disk.clock), disk.clock) ==>
                  RestoredAt(tree, disk.entries, path, me))
              && (!ok ==> Agrees(old(disk.entries), disk.entries))
              // If no operation fails, only a directory in the way stops it.
              && (AllWell(disk, old(disk.clock), disk.clock) ==> (ok <==> !IsDirectory(old(disk.entries), path)))
    {
      TargetsAreVisible(layout, key);
      var path := Target(layout, key).value;
      if snapshots[key].Some? {
        ghost var written;
        ok, written := ReplaceFile(disk, path, snapshots[key].value, me, suffix);
      } else {
        ok := RemoveIfThere(disk, path);
      }
    }

    /**
     * The first of the touched targets have had their turns, one after the other and whatever the outcome. A turn fails
     * only if one of its operations does or a directory is in the way, and otherwise restores its target.
     */
    ghost predicate TakenTurns(disk: Disk, start: nat, turns: seq<Turn>, tree: Tree, middle: Tree)
      requires Valid()
      reads this, disk
    {
      && |turns| <= |touched| && InOrder(turns, start, disk.clock)
      && (forall k :: 0 <= k < |turns| ==> Earned(disk, turns[k], middle, PathOf(touched[k])))
      && (Records(tree) && Honest(disk, start, disk.clock) ==> TurnsHeld(tree, disk.entries, turns))
    }

    ghost predicate TurnsHeld(tree: Tree, e: Tree, turns: seq<Turn>)
      requires |turns| <= |touched|
      reads this
    {
      forall k :: 0 <= k < |turns| && turns[k].ok ==> RestoredAt(tree, e, PathOf(touched[k]), me)
    }

    ghost function PathOf(key: Key): Path {
      if Target(layout, key).Some? then Target(layout, key).value else []
    }

    /** Restores every touched target, the last touched first, whatever fails on the way. */
    method Rollback(disk: Disk, ghost tree: Tree) returns (ok: bool, ghost turns: seq<Turn>)
      requires Valid() && forall key :: key in touched ==> key in snapshots
      modifies disk
      ensures disk.clock >= old(disk.clock)
      ensures AllUntouched(old(disk.entries), old(disk.visited), disk.visited, Paths(touched))
      ensures Untouched(old(disk.entries), disk.entries, Paths(touched))
      ensures |turns| == |touched| && TakenTurns(disk, old(disk.clock), turns, tree, old(disk.entries))
      ensures ok <==> forall turn :: turn in turns ==> turn.ok
      ensures AllWell(disk, old(disk.clock), disk.clock) && NoDirectories(old(disk.entries), Paths(touched)) ==> ok
      ensures ok && Records(tree) && Honest(disk, old(disk.clock), disk.clock) ==>
                RolledBack(tree, old(disk.entries), disk.entries)
    {
      ok, turns := true, [];
      ghost var start, middle, before := disk.clock, disk.entries, disk.visited;
      for i := 0 to |touched|
        invariant |turns| == i && TakenTurns(disk, start, turns, tree, middle)
        invariant AllUntouched(middle, before, disk.visited, Paths(touched))
        invariant Untouched(middle, disk.entries, Paths(touched))
        invariant ok <==> forall turn :: turn in turns ==> turn.ok
      {
        var restored;
        restored, turns := RestoreNext(disk, i, start, turns, tree, middle, before);
        if !restored {
          ok := false;
        }
      }
      AllWellTurns(disk, start, turns, tree, middle);
    }

    method RestoreNext(disk: Disk, i: nat, ghost start: nat, ghost turns: seq<Turn>, ghost tree: Tree,
                       ghost middle: Tree, ghost before: set<Tree>)
      returns (ok: bool, ghost next: seq<Turn>)
      requires Valid() && i < |touched| && forall key :: key in touched ==> key in snapshots
      requires |turns| == i && TakenTurns(disk, start, turns, tree, middle)
      requires AllUntouched(middle, before, disk.visited, Paths(touched))
      requires Untouched(middle, disk.entries, Paths(touched))
      modifies disk
      ensures next == turns + [Turn(old(disk.clock), disk.clock, ok)]
      ensures TakenTurns(disk, start, next, tree, middle)
      ensures AllUntouched(middle, before, disk.visited, Paths(touched))
      ensures Untouched(middle, disk.entries, Paths(touched))
    {
      ghost var e, seen, first, path := disk.entries, disk.visited, disk.clock, PathOf(touched[i]);
      TargetsAreVisible(layout, touched[i]);
      assert path in Paths(touched);
      assert IsDirectory(e, path) ==> IsDirectory(middle, path);
      ok := Restore(disk, touched[i], tree);
      next := turns + [Turn(first, disk.clock, ok)];
      NextInOrder(turns, start, first, disk.clock, ok);
      assert Earned(disk, next[i], middle, path);
      TurnTouches(middle, e, disk.entries, before, seen, disk.visited, path);
      if Records(tree) && Honest(disk, start, disk.clock) {
        StayRestored(tree, e, disk.entries, turns, touched[i], ok);
        assert TurnsHeld(tree, disk.entries, next);
      }
    }

    lemma TurnTouches(middle: Tree, e: Tree, reached: Tree, before: set<Tree>, seen: set<Tree>, after: set<Tree>,
                      path: Path)
      requires path in Paths(touched)
      requires Untouched(middle, e, Paths(touched)) && AllUntouched(middle, before, seen, Paths(touched))
      requires Untouched(e, reached, {path}) && AllUntouched(e, seen, after, {path})
      ensures Untouched(middle, reached, Paths(touched)) && AllUntouched(middle, before, after, Paths(touched))
    {
      assert Paths(touched) + {path} == Paths(touched);
      UntouchedTwice(middle, e, reached, Paths(touched), {path});
      AllUntouchedLater(middle, e, before, seen, after, Paths(touched), {path});
    }

    lemma StayRestored(tree: Tree, before: Tree, after: Tree, turns: seq<Turn>, last: Key, ok: bool)
      requires |turns| <= |touched| && forall key :: key in touched ==> Target(layout, key).Some?
      requires TurnsHeld(tree, before, turns)
      requires Untouched(before, after, {PathOf(last)})
      requires if ok then RestoredAt(tree, after, PathOf(last), me) else Agrees(before, after)
      ensures TurnsHeld(tree, after, turns)
    {
      forall k | 0 <= k < |turns| && turns[k].ok
        ensures RestoredAt(tree, after, PathOf(touched[k]), me)
      {
        assert touched[k] in touched;
        StaysRestored(tree, before, after, touched[k], last, ok);
      }
    }

    /** A later turn leaves what was restored, also if it is at the same path. */
    lemma StaysRestored(tree: Tree, before: Tree, after: Tree, key: Key, last: Key, ok: bool)
      requires RestoredAt(tree, before, PathOf(key), me) && Target(layout, key).Some?
      requires Untouched(before, after, {PathOf(last)})
      requires if ok then RestoredAt(tree, after, PathOf(last), me) else Agrees(before, after)
      ensures RestoredAt(tree, after, PathOf(key), me)
    {
      TargetsAreVisible(layout, key);
      assert !ok || PathOf(key) != PathOf(last) ==> SameAt(before, after, PathOf(key));
    }

    lemma AllWellTurns(disk: Disk, start: nat, turns: seq<Turn>, tree: Tree, middle: Tree)
      requires Valid() && |turns| == |touched| && TakenTurns(disk, start, turns, tree, middle)
      requires forall key :: key in touched ==> Target(layout, key).Some?
      ensures AllWell(disk, start, disk.clock) && NoDirectories(middle, Paths(touched)) ==>
                forall turn :: turn in turns ==> turn.ok
    {
      if AllWell(disk, start, disk.clock) && NoDirectories(middle, Paths(touched)) {
        forall k | 0 <= k < |turns|
          ensures turns[k].ok
        {
          PartOfRun(disk, start, turns[k].first, turns[k].end, disk.clock);
          assert Earned(disk, turns[k], middle, PathOf(touched[k]));
          assert touched[k] in touched;
          assert PathOf(touched[k]) in Paths(touched);
        }
      }
    }
  }

  // ---------- The steps of a transaction ----------

  /**
   * Since operation `start` the tree has become the expected one, if every copy was honest, through
   * states that differ from it at touched targets only, honest or not.
   */
  ghost predicate Midway(disk: Disk, start: nat, t: Transaction, tree: Tree, expected: Tree, before: set<Tree>)
    reads disk, t
  {
    && start <= disk.clock
    && (Honest(disk, start, disk.clock) ==> Agrees(expected, disk.entries))
    && Untouched(tree, expected, t.Paths(t.touched)) && Untouched(tree, disk.entries, t.Paths(t.touched))
    && AllUntouched(tree, before, disk.visited, t.Paths(t.touched))
    && forall key :: key in t.touched ==> key in t.snapshots
  }

  lemma NextStep(tree: Tree, expected: Tree, e: Tree, reached: Tree, before: set<Tree>, seen: set<Tree>,
                 after: set<Tree>,
                 s: set<Path>, path: Path, next: Tree)
    requires Untouched(tree, e, s) && Untouched(tree, expected, s) && AllUntouched(tree, before, seen, s)
    requires Untouched(e, reached, {path}) && AllUntouched(e, seen, after, {path})
    requires Untouched(expected, next, {path})
    ensures Untouched(tree, reached, s + {path}) && Untouched(tree, next, s + {path})
    ensures AllUntouched(tree, before, after, s + {path})
  {
    UntouchedTwice(tree, expected, next, s, {path});
    UntouchedTwice(tree, e, reached, s, {path});
    AllUntouchedLater(tree, e, before, seen, after, s, {path});
  }

  method PublishNext(disk: Disk, t: Transaction, key: Key, bytes: Bytes, mode: nat, ghost start: nat, ghost tree: Tree,
                     ghost expected: Tree, ghost before: set<Tree>)
    returns (ok: bool)
    requires Target(t.layout, key).Some? && key in t.snapshots
    requires Midway(disk, start, t, tree, expected, before)
    modifies t`touched, disk
    ensures t.touched == [key] + old(t.touched) && disk.clock > old(disk.clock)
    ensures var next := expected[Target(t.layout, key).value := File(bytes, t.me.owner, mode)];
            Midway(disk, start, t, tree, if ok then next else expected, before)
    ensures AllWell(disk, old(disk.clock), disk.clock) && !IsDirectory(tree, Target(t.layout, key).value) ==> ok
  {
    ghost var path := Target(t.layout, key).value;
    ghost var e, seen, s := disk.entries, disk.visited, t.Paths(t.touched);
    TargetsAreVisible(t.layout, key);
    assert IsDirectory(e, path) ==> IsDirectory(tree, path);
    ok := t.Publish(disk, key, bytes, mode);
    ghost var next := if ok then expected[path := File(bytes, t.me.owner, mode)] else expected;
    NextStep(tree, expected, e, disk.entries, before, seen, disk.visited, s, path, next);
    assert t.Paths(t.touched) == s + {path};
  }

  method RemoveNext(disk: Disk, t: Transaction, key: Key, ghost start: nat, ghost tree: Tree, ghost expected: Tree,
                    ghost before: set<Tree>)
    returns (ok: bool)
    requires Target(t.layout, key).Some? && key in t.snapshots
    requires Midway(disk, start, t, tree, expected, before)
    modifies t`touched, disk
    ensures t.touched == [key] + old(t.touched) && disk.clock > old(disk.clock)
    ensures var next := expected - {Target(t.layout, key).value};
            Midway(disk, start, t, tree, if ok then next else expected, before)
    ensures AllWell(disk, old(disk.clock), disk.clock) && !IsDirectory(tree, Target(t.layout, key).value) ==> ok
  {
    ghost var path := Target(t.layout, key).value;
    ghost var e, seen, s := disk.entries, disk.visited, t.Paths(t.touched);
    TargetsAreVisible(t.layout, key);
    assert IsDirectory(e, path) ==> IsDirectory(tree, path);
    ok := t.Remove(disk, key);
    ghost var next := if ok then expected - {path} else expected;
    NextStep(tree, expected, e, disk.entries, before, seen, disk.visited, s, path, next);
    assert t.Paths(t.touched) == s + {path};
  }

  // ---------- The profile ----------

  datatype Item = Item(key: Key, bytes: Bytes, mode: nat)

  /** The publications before the legacy entry is looked at, in order. */
  function Menu(layout: Layout, assets: Assets): seq<Item> {
    [Item(Icon48, assets.icon48, READABLE), Item(Icon128, assets.icon128, READABLE),
     Item(Icon256, assets.icon256, READABLE),
     Item(Application, assets.application, READABLE)]
    + if layout.desktop.Some? then [Item(Desktop, assets.application, EXECUTABLE)] else []
  }

  function Written(tree: Tree, layout: Layout, items: seq<Item>, owner: Owner): Tree
    requires forall item :: item in items ==> Target(layout, item.key).Some?
  {
    if items == [] then tree
    else
      var last := items[|items| - 1];
      Written(tree, layout, items[..|items| - 1], owner)
        [Target(layout, last.key).value := File(last.bytes, owner, last.mode)]
  }

  /** Paths that are no item's target are left alone. */
  lemma {:induction false} WrittenElsewhere(tree: Tree, layout: Layout, items: seq<Item>, owner: Owner, path: Path)
    requires forall item :: item in items ==> Target(layout, item.key).Some? && Target(layout, item.key).value != path
    ensures SameAt(tree, Written(tree, layout, items, owner), path)
  {
    if items != [] {
      assert items[|items| - 1] in items;
      WrittenElsewhere(tree, layout, items[..|items| - 1], owner, path);
    }
  }

  /** A target holds what the last item for it says. */
  lemma {:induction false} WrittenLast(tree: Tree, layout: Layout, items: seq<Item>, owner: Owner, k: nat)
    requires k < |items| && forall item :: item in items ==> Target(layout, item.key).Some?
    requires forall j :: k < j < |items| ==> Target(layout, items[j].key) != Target(layout, items[k].key)
    ensures Holds(Written(tree, layout, items, owner), layout, items[k].key, File(items[k].bytes, owner, items[k].mode))
  {
    var last := |items| - 1;
    if k < last {
      WrittenLast(tree, layout, items[..last], owner, k);
      assert Target(layout, items[last].key) != Target(layout, items[k].key);
    }
  }

  function MenuTree(tree: Tree, layout: Layout, assets: Assets, owner: Owner): Tree {
    Written(tree, layout, Menu(layout, assets), owner)
  }

  function ProfileTree(tree: Tree, layout: Layout, assets: Assets, owner: Owner, removed: bool): Tree {
    var menu := MenuTree(tree, layout, assets, owner);
    var rest := if removed then menu - {Target(layout, LegacyEntry).value} else menu;
    rest[Target(layout, Autostart).value := File(assets.autostart, owner, READABLE)]
  }

  /** The targets of the menu hold their new content; the copy on the desktop wins over the menu entry. */
  lemma MenuTargets(tree: Tree, layout: Layout, assets: Assets, owner: Owner, k: nat)
    requires k < |Menu(layout, assets)|
    requires Menu(layout, assets)[k].key == Application ==> Target(layout, Desktop) != Target(layout, Application)
    ensures var item := Menu(layout, assets)[k];
            Holds(MenuTree(tree, layout, assets, owner), layout, item.key, File(item.bytes, owner, item.mode))
  {
    var items := Menu(layout, assets);
    forall j | k < j < |items|
      ensures Target(layout, items[j].key) != Target(layout, items[k].key)
    {
      TargetsDifferBut(layout, items[k].key, items[j].key);
    }
    WrittenLast(tree, layout, items, owner, k);
  }

  /** What comes after the menu leaves its targets alone. */
  lemma MenuSurvives(tree: Tree, layout: Layout, assets: Assets, owner: Owner, removed: bool, key: Key, file: Entry)
    requires key != LegacyEntry && key != Autostart && Holds(MenuTree(tree, layout, assets, owner), layout, key, file)
    ensures Holds(ProfileTree(tree, layout, assets, owner, removed), layout, key, file)
  {
    TargetsDifferBut(layout, key, LegacyEntry);
    TargetsDifferBut(layout, key, Autostart);
  }

  /** Every target of a published profile holds its new content. */
  lemma ProfileTargets(tree: Tree, layout: Layout, assets: Assets, owner: Owner, removed: bool)
    ensures var e := ProfileTree(tree, layout, assets, owner, removed);
            && (forall item ::
                item in Menu(layout, assets) && (item.key == Application ==>
                    Target(layout, Desktop) != Target(layout, Application)) ==>
                  Holds(e, layout, item.key, File(item.bytes, owner, item.mode)))
            && Holds(e, layout, Autostart, File(assets.autostart, owner, READABLE))
            && (if removed then Target(layout, LegacyEntry).value !in e
                else SameAt(tree, e, Target(layout, LegacyEntry).value))
  {
    forall item | item in Menu(layout, assets) && (item.key == Application ==>
        Target(layout, Desktop) != Target(layout, Application))
      ensures Holds(ProfileTree(tree, layout, assets, owner, removed), layout, item.key,
                    File(item.bytes, owner, item.mode))
    {
      var k :| 0 <= k < |Menu(layout, assets)| && Menu(layout, assets)[k] == item;
      MenuTargets(tree, layout, assets, owner, k);
      MenuSurvives(tree, layout, assets, owner, removed, item.key, File(item.bytes, owner, item.mode));
    }
    TargetsDifferBut(layout, LegacyEntry, Autostart);
    MenuKeepsLegacyEntry(tree, layout, assets, owner);
  }

  /** The icons, entries and their modes, one by one; a desktop copy at the same path as the menu entry wins. */
  lemma ProfileContents(tree: Tree, layout: Layout, assets: Assets, owner: Owner, removed: bool)
    ensures var e := ProfileTree(tree, layout, assets, owner, removed);
            && Holds(e, layout, Icon48, File(assets.icon48, owner, 0x1A4))
            && Holds(e, layout, Icon128, File(assets.icon128, owner, 0x1A4))
            && Holds(e, layout, Icon256, File(assets.icon256, owner, 0x1A4))
            && Holds(e, layout, Desktop, File(assets.application, owner, 0x1ED))
            && Holds(e, layout, Autostart, File(assets.autostart, owner, 0x1A4))
            && (Target(layout, Desktop) != Target(layout, Application) ==>
                Holds(e, layout, Application, File(assets.application, owner, 0x1A4)))
  {
    var menu := Menu(layout, assets);
    ProfileTargets(tree, layout, assets, owner, removed);
    assert menu[0] in menu && menu[1] in menu && menu[2] in menu && menu[3] in menu;
    assert layout.desktop.Some? ==> menu[4] in menu;
  }

  /** Publishing the profile changes nothing but its targets. */
  lemma ProfileTreeElsewhere(tree: Tree, layout: Layout, assets: Assets, owner: Owner, removed: bool)
    ensures forall path :: path !in ProfilePaths(layout) ==>
              SameAt(tree, ProfileTree(tree, layout, assets, owner, removed), path)
  {
    MenuKeysAreProfile(layout, assets);
    forall path | path !in ProfilePaths(layout)
      ensures SameAt(tree, ProfileTree(tree, layout, assets, owner, removed), path)
    {
      assert IsProfileKey(LegacyEntry) && IsProfileKey(Autostart);
      WrittenElsewhere(tree, layout, Menu(layout, assets), owner, path);
    }
  }

  lemma MenuKeysAreProfile(layout: Layout, assets: Assets)
    ensures forall item :: item in Menu(layout, assets) ==>
              IsProfileKey(item.key) && item.key != LegacyEntry && Target(layout, item.key).Some?
  {
  }

  predicate Holds(e: Tree, layout: Layout, key: Key, file: Entry) {
    Target(layout, key).Some? ==> Target(layout, key).value in e && e[Target(layout, key).value] == file
  }

  predicate IsProfileKey(key: Key) {
    key != Cli && key != Helper
  }

  ghost function ProfilePaths(layout: Layout): set<Path> {
    set key | IsProfileKey(key) && Target(layout, key).Some? :: Target(layout, key).value
  }

  const PROFILE: seq<Key> := [Icon48, Icon128, Icon256, Application, Desktop, LegacyEntry, Autostart]

  method SnapshotProfile(disk: Disk, t: Transaction) returns (ok: bool)
    requires t.snapshots == map[] && t.Valid()
    modifies t`snapshots, disk
    ensures t.Valid()
    ensures disk.entries == old(disk.entries) && disk.clock >= old(disk.clock)
    ensures old(disk.visited) <= disk.visited <= old(disk.visited) + {disk.entries}
    ensures ok && NoFaults(disk, old(disk.clock), disk.clock) ==> t.Records(disk.entries)
    ensures AllWell(disk, old(disk.clock), disk.clock) ==> (ok <==> AllRegular(disk.entries, ProfilePaths(t.layout)))
    ensures ok ==> forall key :: IsProfileKey(key) && Target(t.layout, key).Some? ==> key in t.snapshots
  {
    ProfileIsListed(disk.entries, t.layout, t.me);
    for i := 0 to |PROFILE|
      invariant disk.entries == old(disk.entries) && disk.clock >= old(disk.clock)
      invariant old(disk.visited) <= disk.visited <= old(disk.visited) + {disk.entries}
      invariant t.Valid() && (NoFaults(disk, old(disk.clock), disk.clock) ==> t.Records(disk.entries))
      invariant AllWell(disk, old(disk.clock), disk.clock) ==>
                  forall k :: 0 <= k < i && Target(t.layout, PROFILE[k]).Some? ==>
                    SnapshotOf(disk.entries, Target(t.layout, PROFILE[k]).value, t.me).Some?
      invariant forall k :: 0 <= k < i && Target(t.layout, PROFILE[k]).Some? ==> PROFILE[k] in t.snapshots
    {
      if Target(t.layout, PROFILE[i]).Some? {
        ok := t.Snapshot(disk, PROFILE[i]);
        if !ok {
          return;
        }
      }
    }
    return true;
  }

  lemma ProfileIsListed(tree: Tree, layout: Layout, me: User)
    ensures forall key :: IsProfileKey(key) ==> exists k :: 0 <= k < |PROFILE| && PROFILE[k] == key
    ensures AllRegular(tree, ProfilePaths(layout)) <==>
              forall k :: 0 <= k < |PROFILE| && Target(layout, PROFILE[k]).Some? ==>
                SnapshotOf(tree, Target(layout, PROFILE[k]).value, me).Some?
  {
    forall key | IsProfileKey(key)
      ensures exists k :: 0 <= k < |PROFILE| && PROFILE[k] == key
    {
      assert PROFILE[0] == Icon48 && PROFILE[1] == Icon128 && PROFILE[2] == Icon256 && PROFILE[3] == Application;
      assert PROFILE[4] == Desktop && PROFILE[5] == LegacyEntry && PROFILE[6] == Autostart;
    }
    forall k | 0 <= k < |PROFILE| && Target(layout, PROFILE[k]).Some?
      ensures Target(layout, PROFILE[k]).value in ProfilePaths(layout)
    {
      assert IsProfileKey(PROFILE[k]);
    }
  }

  /** The legacy entry is there and its content is ours. */
  ghost predicate IsOwned(tree: Tree, layout: Layout, isOwned: Bytes -> bool) {
    var path := Target(layout, LegacyEntry).value;
    path in tree && tree[path].File? && isOwned(tree[path].bytes)
  }

  lemma MenuKeepsLegacyEntry(tree: Tree, layout: Layout, assets: Assets, owner: Owner)
    ensures SameAt(tree, MenuTree(tree, layout, assets, owner), Target(layout, LegacyEntry).value)
  {
    forall item | item in Menu(layout, assets)
      ensures Target(layout, item.key) != Target(layout, LegacyEntry)
    {
      TargetsDifferBut(layout, item.key, LegacyEntry);
    }
    WrittenElsewhere(tree, layout, Menu(layout, assets), owner, Target(layout, LegacyEntry).value);
  }

  method PublishItems(disk: Disk, t: Transaction, items: seq<Item>, ghost tree: Tree) returns (ok: bool)
    requires t.touched == [] && tree == disk.entries
    requires forall item :: item in items ==> Target(t.layout, item.key).Some? && item.key in t.snapshots
    modifies t`touched, disk
    ensures ok ==> Midway(disk, old(disk.clock), t, tree, Written(tree, t.layout, items, t.me.owner), old(disk.visited))
    ensures AllWell(disk, old(disk.clock), disk.clock)
            && (forall item :: item in items ==> !IsDirectory(tree, Target(t.layout, item.key).value)) ==>
              ok
    ensures Untouched(tree, disk.entries, t.Paths(t.touched))
    ensures AllUntouched(tree, old(disk.visited), disk.visited, t.Paths(t.touched))
    ensures forall key :: key in t.touched ==> key in t.snapshots && exists item :: item in items && item.key == key
    ensures disk.clock >= old(disk.clock)
  {
    ghost var start, before, expected := disk.clock, disk.visited, tree;
    for i := 0 to |items|
      invariant Midway(disk, start, t, tree, expected, before)
      invariant forall key :: key in t.touched ==> exists item :: item in items && item.key == key
      invariant expected == Written(tree, t.layout, items[..i], t.me.owner)
    {
      assert items[..i + 1][..i] == items[..i];
      assert items[i] in items;
      ok := PublishNext(disk, t, items[i].key, items[i].bytes, items[i].mode, start, tree, expected, before);
      if !ok {
        return;
      }
      expected := Written(tree, t.layout, items[..i + 1], t.me.owner);
    }
    assert items[..|items|] == items;
    return true;
  }

  /** Removes the legacy entry if `isOwned` says so of its content; what cannot be read is not ours. */
  method RemoveLegacy(disk: Disk, t: Transaction, isOwned: Bytes -> bool, ghost start: nat, ghost tree: Tree,
                      ghost menu: Tree, ghost before: set<Tree>)
    returns (ok: bool, removed: bool)
    requires LegacyEntry in t.snapshots && LegacyEntry !in t.touched
    requires Midway(disk, start, t, tree, menu, before)
    modifies t`touched, disk
    ensures var rest := if removed && ok then menu - {Target(t.layout, LegacyEntry).value} else menu;
            Midway(disk, start, t, tree, rest, before)
    ensures removed ==> IsOwned(tree, t.layout, isOwned)
    ensures !disk.Fails(old(disk.clock)) && IsOwned(tree, t.layout, isOwned) ==> removed
    ensures AllWell(disk, old(disk.clock), disk.clock) ==> ok
    ensures disk.clock > old(disk.clock)
    ensures t.touched == if removed then [LegacyEntry] + old(t.touched) else old(t.touched)
  {
    removed, ok := false, true;
    ghost var e, seen := disk.entries, disk.visited;
    UntouchedLegacyEntry(t, tree, e);
    var legacy := disk.Read(Target(t.layout, LegacyEntry).value);
    AllUntouchedLater(tree, e, before, seen, disk.visited, t.Paths(t.touched), {});
    assert t.Paths(t.touched) + {} == t.Paths(t.touched);
    if legacy.Some? && isOwned(legacy.value) {
      removed := true;
      ok := RemoveNext(disk, t, LegacyEntry, start, tree, menu, before);
    }
  }

  lemma UntouchedLegacyEntry(t: Transaction, tree: Tree, e: Tree)
    requires LegacyEntry !in t.touched && Untouched(tree, e, t.Paths(t.touched))
    ensures SameAt(tree, e, Target(t.layout, LegacyEntry).value)
  {
    TargetsAreVisible(t.layout, LegacyEntry);
    forall key | key in t.touched
      ensures Target(t.layout, key) != Target(t.layout, LegacyEntry)
    {
      TargetsDifferBut(t.layout, key, LegacyEntry);
    }
  }

  /** The publications of the profile. */
  method PublishProfile(disk: Disk, t: Transaction, assets: Assets, isOwned: Bytes -> bool, ghost tree: Tree)
    returns (ok: bool, removed: bool)
    requires t.touched == [] && tree == disk.entries
    requires forall key :: IsProfileKey(key) && Target(t.layout, key).Some? ==> key in t.snapshots
    modifies t`touched, disk
    ensures ok && Honest(disk, old(disk.clock), disk.clock) ==>
              Agrees(ProfileTree(tree, t.layout, assets, t.me.owner, removed), disk.entries)
    ensures removed ==> IsOwned(tree, t.layout, isOwned)
    ensures ok && AllWell(disk, old(disk.clock), disk.clock) && IsOwned(tree, t.layout, isOwned) ==> removed
    ensures AllWell(disk, old(disk.clock), disk.clock) && NoDirectories(tree, ProfilePaths(t.layout)) ==> ok
    ensures forall key :: key in t.touched ==> IsProfileKey(key) && key in t.snapshots
    ensures Untouched(tree, disk.entries, t.Paths(t.touched))
    ensures AllUntouched(tree, old(disk.visited), disk.visited, t.Paths(t.touched))
    ensures disk.clock >= old(disk.clock)
  {
    removed := false;
    ghost var start, before := disk.clock, disk.visited;
    MenuKeysAreProfile(t.layout, assets);
    ok := PublishItems(disk, t, Menu(t.layout, assets), tree);
    if !ok {
      return;
    }
    ghost var menu := MenuTree(tree, t.layout, assets, t.me.owner);
    ok, removed := FinishProfile(disk, t, assets.autostart, isOwned, start, tree, menu, before);
  }

  method FinishProfile(disk: Disk, t: Transaction, autostart: Bytes, isOwned: Bytes -> bool, ghost start: nat,
                       ghost tree: Tree, ghost menu: Tree, ghost before: set<Tree>)
    returns (ok: bool, removed: bool)
    requires LegacyEntry in t.snapshots && Autostart in t.snapshots && LegacyEntry !in t.touched
    requires Midway(disk, start, t, tree, menu, before)
    modifies t`touched, disk
    ensures ok && Honest(disk, start, disk.clock) ==>
              var rest := if removed then menu - {Target(t.layout, LegacyEntry).value} else menu;
              Agrees(rest[Target(t.layout, Autostart).value := File(autostart, t.me.owner, READABLE)], disk.entries)
    ensures removed ==> IsOwned(tree, t.layout, isOwned)
    ensures !disk.Fails(old(disk.clock)) && IsOwned(tree, t.layout, isOwned) ==> removed
    ensures AllWell(disk, old(disk.clock), disk.clock) && !IsDirectory(tree, Target(t.layout, Autostart).value) ==> ok
    ensures forall key :: key in t.touched ==>
              key in t.snapshots && (key in old(t.touched) || key in {LegacyEntry, Autostart})
    ensures Untouched(tree, disk.entries, t.Paths(t.touched))
    ensures AllUntouched(tree, before, disk.visited, t.Paths(t.touched))
    ensures disk.clock > old(disk.clock)
  {
    ok, removed := RemoveLegacy(disk, t, isOwned, start, tree, menu, before);
    ghost var rest := if removed && ok then menu - {Target(t.layout, LegacyEntry).value} else menu;
    if ok {
      ok := PublishNext(disk, t, Autostart, autostart, READABLE, start, tree, rest, before);
    }
  }

  // ---------- The installation ----------

  /** What is found before any profile file is touched: nothing to integrate with, something unsafe, or all well. */
  datatype Integration = Skip | Refuse | Proceed

  datatype Report = Installed(removed: bool) | NotInstalled(profileBack: bool, binariesBack: bool)

  ghost function BinaryPaths(layout: Layout): set<Path> {
    {Target(layout, Cli).value, Target(layout, Helper).value}
  }

  /** These paths are back by way of a copy, and every other visible one is as it was. */
  ghost predicate Back(a: Tree, b: Tree, paths: set<Path>, me: User) {
    forall path :: !Hidden(path) ==> if path in paths then RestoredAt(a, b, path, me) else SameAt(a, b, path)
  }

  function BinaryTree(tree: Tree, layout: Layout, assets: Assets, owner: Owner): Tree {
    var helper := Target(layout, Helper).value;
    var first :=
        if assets.helper.Some? then tree[helper := File(assets.helper.value, owner, EXECUTABLE)] else tree - {helper};
    first[Target(layout, Cli).value := File(assets.cli, owner, EXECUTABLE)]
  }

  function InstalledTree(tree: Tree, layout: Layout, assets: Assets, me: User, user: User, integration: Integration,
                         removed: bool): Tree {
    var binaries := BinaryTree(tree, layout, assets, me.owner);
    if integration == Skip then binaries else ProfileTree(binaries, layout, assets, user.owner, removed)
  }

  lemma BinariesAreNoProfile(layout: Layout)
    ensures BinaryPaths(layout) !! ProfilePaths(layout)
    ensures Target(layout, Cli) != Target(layout, Helper)
  {
    forall key | IsProfileKey(key) && Target(layout, key).Some?
      ensures Target(layout, key) != Target(layout, Cli) && Target(layout, key) != Target(layout, Helper)
    {
      TargetsDifferBut(layout, key, Cli);
      TargetsDifferBut(layout, key, Helper);
    }
    TargetsDifferBut(layout, Cli, Helper);
  }

  /** The binaries are where they should be, and every path that is no target is as before. */
  lemma InstalledTargets(tree: Tree, layout: Layout, assets: Assets, me: User, user: User, integration: Integration,
                         removed: bool)
    ensures var e := InstalledTree(tree, layout, assets, me, user, integration, removed);
            && Holds(e, layout, Cli, File(assets.cli, me.owner, EXECUTABLE))
            && (assets.helper.Some? ==> Holds(e, layout, Helper, File(assets.helper.value, me.owner, EXECUTABLE)))
            && (assets.helper.None? ==> Target(layout, Helper).value !in e)
            && forall path :: path !in BinaryPaths(layout) + ProfilePaths(layout) ==> SameAt(tree, e, path)
  {
    ghost var binaries := BinaryTree(tree, layout, assets, me.owner);
    BinariesAreNoProfile(layout);
    ProfileTreeElsewhere(binaries, layout, assets, user.owner, removed);
    BinaryTargets(tree, layout, assets, me.owner);
    ghost var e := InstalledTree(tree, layout, assets, me, user, integration, removed);
    assert forall path :: path !in ProfilePaths(layout) ==> SameAt(binaries, e, path);
    assert SameAt(binaries, e, Target(layout, Cli).value) && SameAt(binaries, e, Target(layout, Helper).value);
  }

  lemma BinaryTargets(tree: Tree, layout: Layout, assets: Assets, owner: Owner)
    ensures var e := BinaryTree(tree, layout, assets, owner);
            && Holds(e, layout, Cli, File(assets.cli, owner, EXECUTABLE))
            && (assets.helper.Some? ==> Holds(e, layout, Helper, File(assets.helper.value, owner, EXECUTABLE)))
            && (assets.helper.None? ==> Target(layout, Helper).value !in e)
            && forall path :: path !in BinaryPaths(layout) ==> SameAt(tree, e, path)
  {
    BinariesAreNoProfile(layout);
  }

  lemma {:induction false} WrittenAgrees(a: Tree, b: Tree, layout: Layout, items: seq<Item>, owner: Owner)
    requires Agrees(a, b) && forall item :: item in items ==> Target(layout, item.key).Some?
    ensures Agrees(Written(a, layout, items, owner), Written(b, layout, items, owner))
  {
    if items != [] {
      assert items[|items| - 1] in items;
      WrittenAgrees(a, b, layout, items[..|items| - 1], owner);
    }
  }

  /** Publishing the profile over the installed binaries leaves the installed tree. */
  lemma ProfileOverBinaries(tree: Tree, middle: Tree, e: Tree, layout: Layout, assets: Assets, me: User, user: User,
                            integration: Integration, removed: bool)
    requires Agrees(BinaryTree(tree, layout, assets, me.owner), middle)
    requires if integration == Skip then e == middle
             else Agrees(ProfileTree(middle, layout, assets, user.owner, removed), e)
    ensures Agrees(InstalledTree(tree, layout, assets, me, user, integration, removed), e)
  {
    var binaries := BinaryTree(tree, layout, assets, me.owner);
    if integration != Skip {
      WrittenAgrees(binaries, middle, layout, Menu(layout, assets), user.owner);
      assert Agrees(ProfileTree(binaries, layout, assets, user.owner, removed),
                    ProfileTree(middle, layout, assets, user.owner, removed));
      UntouchedTwice(ProfileTree(binaries, layout, assets, user.owner, removed),
                     ProfileTree(middle, layout, assets, user.owner, removed), e, {}, {});
    }
  }

  /** Installing the binaries does not touch the profile. */
  lemma BinariesKeepProfile(tree: Tree, middle: Tree, layout: Layout)
    requires Untouched(tree, middle, BinaryPaths(layout))
    ensures forall path :: path in ProfilePaths(layout) ==> SameAt(tree, middle, path)
  {
    BinariesAreNoProfile(layout);
    TargetPathsAreVisible(layout);
  }

  /** Installing the binaries does not touch the legacy entry. */
  lemma BinariesKeepLegacyEntry(tree: Tree, middle: Tree, layout: Layout, isOwned: Bytes -> bool)
    requires Untouched(tree, middle, BinaryPaths(layout))
    ensures IsOwned(middle, layout, isOwned) <==> IsOwned(tree, layout, isOwned)
  {
    TargetsAreVisible(layout, LegacyEntry);
    TargetsDifferBut(layout, LegacyEntry, Cli);
    TargetsDifferBut(layout, LegacyEntry, Helper);
    assert SameAt(tree, middle, Target(layout, LegacyEntry).value);
  }

  /**
   * `install_linux_desktop_integration`; the transaction is active from operation `ready` on, and
   * its rollback begins at operation `undoing`.
   */
  method Integrate(disk: Disk, layout: Layout, user: User, suffix: string, assets: Assets, isOwned: Bytes -> bool,
                   integration: Integration)
    returns (ok: bool, removed: bool, back: bool, ghost ready: nat, ghost undoing: nat, ghost restored: set<Path>)
    modifies disk
    ensures old(disk.clock) <= ready <= undoing <= disk.clock && restored <= ProfilePaths(layout)
    // If no operation fails, only what is not a regular file stops it, and then before anything is published.
    ensures AllWell(disk, old(disk.clock), disk.clock) ==>
              (ok <==> CanIntegrate(old(disk.entries), layout, integration))
    // If no operation of the rollback fails, everything is put back.
    ensures !ok && AllWell(disk, undoing, disk.clock) && NoDirectories(old(disk.entries), restored) ==> back
    ensures NoFaults(disk, old(disk.clock), ready) ==> NoDirectories(old(disk.entries), restored)
    ensures ok && integration != Skip && Honest(disk, old(disk.clock), disk.clock) ==>
              Agrees(ProfileTree(old(disk.entries), layout, assets, user.owner, removed), disk.entries)
    ensures ok && integration == Skip ==> disk.entries == old(disk.entries)
    ensures removed ==> IsOwned(old(disk.entries), layout, isOwned)
    ensures ok && integration == Proceed && AllWell(disk, old(disk.clock), disk.clock)
            && IsOwned(old(disk.entries), layout, isOwned) ==>
              removed
    ensures !ok && back && NoFaults(disk, old(disk.clock), ready) && Honest(disk, undoing, disk.clock) ==>
              Back(old(disk.entries), disk.entries, restored, user)
    ensures Untouched(old(disk.entries), disk.entries, ProfilePaths(layout))
    ensures AllUntouched(old(disk.entries), old(disk.visited), disk.visited, ProfilePaths(layout))
  {
    ghost var tree := disk.entries;
    ghost var start := disk.clock;
    ok, removed, back, ready, undoing, restored := integration == Skip, false, true, start, start, {};
    if integration != Proceed {
      return;
    }
    var t := new Transaction(layout, user, suffix);
    ok := SnapshotProfile(disk, t);
    ready, undoing := disk.clock, disk.clock;
    ghost var seen := disk.visited;
    if !ok {
      return;
    }
    ok, removed := PublishProfile(disk, t, assets, isOwned, tree);
    ghost var middle, later := disk.entries, disk.visited;
    undoing, restored := disk.clock, t.Paths(t.touched);
    PartOfRun(disk, start, ready, undoing, disk.clock);
    assert restored <= ProfilePaths(layout);
    TargetPathsAreVisible(layout);
    if t.Records(tree) {
      RecordedAreRegular(t, tree);
    }
    AllUntouchedLater(tree, tree, old(disk.visited), seen, later, {}, restored);
    Wider(tree, middle, old(disk.visited), later, restored, ProfilePaths(layout));
    if !ok {
      ghost var turns;
      back, turns := t.Rollback(disk, tree);
      UndoneFrom(tree, middle, disk.entries, old(disk.visited), later, disk.visited, restored, ProfilePaths(layout));
      if t.RolledBack(tree, middle, disk.entries) {
        RolledBackIsBack(tree, middle, disk.entries, restored, user);
      }
    }
  }

  lemma RecordedAreRegular(t: Transaction, tree: Tree)
    requires t.Valid() && t.Records(tree) && forall key :: key in t.touched ==> key in t.snapshots
    ensures NoDirectories(tree, t.Paths(t.touched))
  {
  }

  lemma Wider(a: Tree, b: Tree, before: set<Tree>, after: set<Tree>, paths: set<Path>, wider: set<Path>)
    requires paths <= wider
    ensures Untouched(a, b, paths) ==> Untouched(a, b, wider)
    ensures AllUntouched(a, before, after, paths) ==> AllUntouched(a, before, after, wider)
  {
  }

  lemma UndoneFrom(tree: Tree, middle: Tree, e: Tree, s0: set<Tree>, s1: set<Tree>, s2: set<Tree>, paths: set<Path>,
                   wider: set<Path>)
    requires paths <= wider && Untouched(tree, middle, wider) && AllUntouched(tree, s0, s1, wider)
    requires Untouched(middle, e, paths) && AllUntouched(middle, s1, s2, paths)
    ensures Untouched(tree, e, wider) && AllUntouched(tree, s0, s2, wider)
  {
    Wider(middle, e, s1, s2, paths, wider);
    UntouchedTwice(tree, middle, e, wider, wider);
    AllUntouchedLater(tree, middle, s0, s1, s2, wider, wider);
    assert wider + wider == wider;
  }

  lemma RolledBackIsBack(tree: Tree, middle: Tree, e: Tree, touched: set<Path>, me: User)
    requires Untouched(tree, middle, touched) && Untouched(middle, e, touched)
    requires forall path :: path in touched ==> RestoredAt(tree, e, path, me)
    ensures Back(tree, e, touched, me)
  {
    UntouchedTwice(tree, middle, e, touched, touched);
    assert touched + touched == touched;
  }

  /** Which targets the outer and the inner rollback restored; no other visible path differs. */
  datatype Restored = Restored(binaries: set<Path>, profile: set<Path>)

  ghost predicate PutBack(a: Tree, b: Tree, restored: Restored, me: User, user: User) {
    forall path :: !Hidden(path) ==>
      if path in restored.binaries then RestoredAt(a, b, path, me)
      else if path in restored.profile then RestoredAt(a, b, path, user)
      else SameAt(a, b, path)
  }

  ghost predicate AreTargets(restored: Restored, layout: Layout) {
    restored.binaries <= BinaryPaths(layout) && restored.profile <= ProfilePaths(layout)
  }

  /** The outer rollback, which knows nothing of the profile, completes the inner one. */
  lemma NestedRollbacks(tree: Tree, middle: Tree, inner: Tree, outer: Tree, restored: Restored, layout: Layout,
                        me: User, user: User)
    requires AreTargets(restored, layout) && Untouched(tree, middle, restored.binaries)
    requires Back(middle, inner, restored.profile, user)
    requires Untouched(inner, outer, restored.binaries)
    requires forall path :: path in restored.binaries ==> RestoredAt(tree, outer, path, me)
    ensures PutBack(tree, outer, restored, me, user)
  {
    forall path | !Hidden(path) && path !in restored.binaries
      ensures if path in restored.profile then RestoredAt(tree, outer, path, user) else SameAt(tree, outer, path)
    {
      assert SameAt(tree, middle, path) && SameAt(inner, outer, path);
    }
  }

  /** What was at a restored path is as it was exactly if its owner could be kept. */
  lemma RestoredExactly(a: Tree, b: Tree, path: Path, me: User)
    requires RestoredAt(a, b, path, me)
    ensures SameAt(a, b, path) <==> path in a ==> me.root || a[path].owner == me.owner
  {
  }

  /** Whoever cannot give files away owns what is restored. */
  ghost predicate OwnTargets(tree: Tree, paths: set<Path>, me: User) {
    forall path :: path in paths && path in tree && tree[path].File? ==> me.root || tree[path].owner == me.owner
  }

  /** After both rollbacks everything is exactly as it was if and only if every restored file kept its owner. */
  lemma PutBackExactly(a: Tree, b: Tree, restored: Restored, layout: Layout, me: User, user: User)
    requires PutBack(a, b, restored, me, user) && AreTargets(restored, layout)
    ensures Agrees(a, b) <==> OwnTargets(a, restored.binaries, me) && OwnTargets(a, restored.profile, user)
  {
    BinariesAreNoProfile(layout);
    TargetPathsAreVisible(layout);
    forall path | path in restored.binaries + restored.profile && Agrees(a, b)
      ensures path in a ==>
                var who := if path in restored.binaries then me else user;
                who.root || a[path].owner == who.owner
    {
      assert SameAt(a, b, path);
      RestoredExactly(a, b, path, if path in restored.binaries then me else user);
    }
    forall path | !Hidden(path) && OwnTargets(a, restored.binaries, me) && OwnTargets(a, restored.profile, user)
      ensures SameAt(a, b, path)
    {
    }
  }

  lemma TargetPathsAreVisible(layout: Layout)
    ensures forall path :: path in BinaryPaths(layout) + ProfilePaths(layout) ==> !Hidden(path)
  {
    forall key: Key
      ensures Target(layout, key).Some? ==> !Hidden(Target(layout, key).value)
    {
      TargetsAreVisible(layout, key);
    }
  }

  /** A file of somebody else's, restored by a user who is not root, comes back as the user's own. */
  lemma ForeignOwnerIsLost(path: Path, file: Entry, me: User)
    requires file.File? && !me.root && file.owner != me.owner
    ensures var a, b := map[path := file], map[path := Copied(file, me)];
            && RestoredAt(a, b, path, me) && !SameAt(a, b, path)
            && b[path].owner == me.owner && b[path].bytes == file.bytes && b[path].mode == file.mode
  {
  }

  /** The helper and the CLI, in that order; an archive without a helper removes the one that is there. */
  method InstallBinaries(disk: Disk, t: Transaction, assets: Assets, ghost tree: Tree) returns (ok: bool)
    requires t.touched == [] && tree == disk.entries && Helper in t.snapshots && Cli in t.snapshots
    modifies t`touched, disk
    ensures ok && Honest(disk, old(disk.clock), disk.clock) ==>
              Agrees(BinaryTree(tree, t.layout, assets, t.me.owner), disk.entries)
    ensures AllWell(disk, old(disk.clock), disk.clock) && NoDirectories(tree, BinaryPaths(t.layout)) ==> ok
    ensures forall key :: key in t.touched ==> key in {Cli, Helper} && key in t.snapshots
    ensures Untouched(tree, disk.entries, t.Paths(t.touched))
    ensures AllUntouched(tree, old(disk.visited), disk.visited, t.Paths(t.touched))
    ensures disk.clock > old(disk.clock)
  {
    ghost var start, before := disk.clock, disk.visited;
    ghost var helper := Target(t.layout, Helper).value;
    ghost var first := tree;
    if assets.helper.Some? {
      ok := PublishNext(disk, t, Helper, assets.helper.value, EXECUTABLE, start, tree, tree, before);
      first := if ok then tree[helper := File(assets.helper.value, t.me.owner, EXECUTABLE)] else tree;
    } else {
      ok := RemoveNext(disk, t, Helper, start, tree, tree, before);
      first := if ok then tree - {helper} else tree;
    }
    if ok {
      ok := PublishNext(disk, t, Cli, assets.cli, EXECUTABLE, start, tree, first, before);
    }
  }

  /** `me` installs the binaries, `user` owns the profile; the two differ when root installs for another user. */
  method Install(disk: Disk, layout: Layout, me: User, user: User, suffix: string, assets: Assets,
                 isOwned: Bytes -> bool, integration: Integration)
    returns (report: Report, ghost recorded: nat, ghost integrating: nat, ghost ready: nat, ghost undoing: nat,
             ghost restored: Restored)
    modifies disk
    ensures old(disk.clock) <= recorded <= integrating <= ready <= undoing <= disk.clock && AreTargets(restored, layout)
    // If no operation fails, it succeeds exactly if nothing but regular files is in its way.
    ensures AllWell(disk, old(disk.clock), disk.clock) ==>
              (report.Installed? <==>
               && AllRegular(old(disk.entries), BinaryPaths(layout))
               && CanIntegrate(old(disk.entries), layout, integration))
    // Success: every target holds its new content, if every copy that reported success has copied.
    ensures report.Installed? ==>
              && (Honest(disk, old(disk.clock), disk.clock) ==>
                    Agrees(InstalledTree(old(disk.entries), layout, assets, me, user, integration, report.removed),
                           disk.entries))
              && (report.removed ==> IsOwned(old(disk.entries), layout, isOwned))
              && (AllWell(disk, old(disk.clock), disk.clock) && integration == Proceed
                  && IsOwned(old(disk.entries), layout, isOwned) ==>
                    report.removed)
    // Failure of any step but not of a rollback: everything is back, if the snapshots were taken without fault and the
    // copies back did copy.
    ensures report == NotInstalled(true, true) && NoFaults(disk, old(disk.clock), recorded)
            && NoFaults(disk, integrating, ready)
            && Honest(disk, undoing, disk.clock) ==>
              PutBack(old(disk.entries), disk.entries, restored, me, user)
    // The rollbacks begin at operation `undoing`: none fails unless one of its operations does, or a directory was at
    // a target and a fault hid it from the snapshots.
    ensures report.NotInstalled? && AllWell(disk, undoing, disk.clock)
            && NoDirectories(old(disk.entries), restored.binaries + restored.profile) ==>
              report == NotInstalled(true, true)
    ensures NoFaults(disk, old(disk.clock), recorded) && NoFaults(disk, integrating, ready) ==>
              NoDirectories(old(disk.entries), restored.binaries + restored.profile)
    // In every state passed through, whatever fails, no other visible path differs.
    ensures AllUntouched(old(disk.entries), old(disk.visited), disk.visited, BinaryPaths(layout) + ProfilePaths(layout))
  {
    ghost var tree := disk.entries;
    var t, recordedAll := SnapshotBinaries(disk, layout, me, suffix);
    recorded, integrating, ready, undoing, restored :=
      disk.clock, disk.clock, disk.clock, disk.clock, Restored({}, {});
    if !recordedAll {
      return NotInstalled(true, true), recorded, integrating, ready, undoing, restored;
    }
    ghost var seen := disk.visited;
    report, integrating, ready, undoing, restored := InstallRecorded(disk, t, user, assets, isOwned, integration, tree);
    AllUntouchedLater(tree, tree, old(disk.visited), seen, disk.visited, {},
                      BinaryPaths(layout) + ProfilePaths(layout));
    assert {} + (BinaryPaths(layout) + ProfilePaths(layout)) == BinaryPaths(layout) + ProfilePaths(layout);
  }

  method SnapshotBinaries(disk: Disk, layout: Layout, me: User, suffix: string) returns (t: Transaction, ok: bool)
    modifies disk
    ensures fresh(t) && t.Valid() && t.touched == [] && t.layout == layout && t.me == me
    ensures disk.entries == old(disk.entries) && disk.clock > old(disk.clock)
    ensures old(disk.visited) <= disk.visited <= old(disk.visited) + {disk.entries}
    ensures ok ==> Helper in t.snapshots && Cli in t.snapshots
    ensures ok && NoFaults(disk, old(disk.clock), disk.clock) ==> t.Records(disk.entries)
    ensures AllWell(disk, old(disk.clock), disk.clock) ==> (ok <==> AllRegular(disk.entries, BinaryPaths(layout)))
  {
    t := new Transaction(layout, me, suffix);
    ok := t.Snapshot(disk, Cli);
    if ok {
      ok := t.Snapshot(disk, Helper);
    }
  }

  /** The integration is not wanted, or nothing but regular files is in its way. */
  ghost predicate CanIntegrate(tree: Tree, layout: Layout, integration: Integration) {
    integration == Skip || (integration == Proceed && AllRegular(tree, ProfilePaths(layout)))
  }

  /** The binary transaction with the profile's inside it. */
  method InstallRecorded(disk: Disk, t: Transaction, user: User, assets: Assets, isOwned: Bytes -> bool,
                         integration: Integration, ghost tree: Tree)
    returns (report: Report, ghost integrating: nat, ghost ready: nat, ghost undoing: nat, ghost restored: Restored)
    requires t.Valid() && t.touched == [] && tree == disk.entries && Helper in t.snapshots && Cli in t.snapshots
    modifies t`touched, disk
    ensures old(disk.clock) <= integrating <= ready <= undoing <= disk.clock && AreTargets(restored, t.layout)
    ensures disk.clock > old(disk.clock)
    ensures AllWell(disk, old(disk.clock), disk.clock) && NoDirectories(tree, BinaryPaths(t.layout)) ==>
              (report.Installed? <==> CanIntegrate(tree, t.layout, integration))
    ensures report.NotInstalled? && AllWell(disk, undoing, disk.clock)
            && NoDirectories(tree, restored.binaries + restored.profile) ==>
              report == NotInstalled(true, true)
    ensures t.Records(tree) && NoFaults(disk, integrating, ready) ==>
              NoDirectories(tree, restored.binaries + restored.profile)
    ensures report.Installed? ==>
              && (Honest(disk, old(disk.clock), disk.clock) ==>
                    Agrees(InstalledTree(tree, t.layout, assets, t.me, user, integration, report.removed),
                           disk.entries))
              && (report.removed ==> IsOwned(tree, t.layout, isOwned))
              && (AllWell(disk, old(disk.clock), disk.clock) && integration == Proceed
                  && IsOwned(tree, t.layout, isOwned) ==>
                    report.removed)
    ensures report == NotInstalled(true, true) && t.Records(tree) && NoFaults(disk, integrating, ready)
            && Honest(disk, undoing, disk.clock) ==>
              PutBack(tree, disk.entries, restored, t.me, user)
    ensures AllUntouched(tree, old(disk.visited), disk.visited, BinaryPaths(t.layout) + ProfilePaths(t.layout))
  {
    ghost var all, before, start := BinaryPaths(t.layout) + ProfilePaths(t.layout), disk.visited, disk.clock;
    var ok := InstallBinaries(disk, t, assets, tree);
    integrating, ready, undoing := disk.clock, disk.clock, disk.clock;
    PartOfRun(disk, start, start, integrating, integrating);
    ghost var middle, touched, profile := disk.entries, t.Paths(t.touched), {};
    assert touched <= BinaryPaths(t.layout);
    Wider(tree, middle, before, disk.visited, touched, all);
    if t.Records(tree) {
      RecordedAreRegular(t, tree);
    }
    restored := Restored(touched, {});
    var back, removed := true, false;
    if ok {
      ok, removed, back, ready, undoing, profile :=
        IntegrateInstalled(disk, t, user, assets, isOwned, integration, start, tree, before);
      restored := Restored(touched, profile);
    }
    if ok {
      return Installed(removed), integrating, ready, undoing, restored;
    }
    ghost var outer := disk.clock;
    assert back && NoFaults(disk, integrating, ready) && Honest(disk, undoing, outer) ==>
        Back(middle, disk.entries, profile, user);
    var undone := RollbackBinaries(disk, t, user, tree, middle, restored, before);
    assert Honest(disk, undoing, disk.clock) ==> Honest(disk, undoing, outer) && Honest(disk, outer, disk.clock);
    PartOfRun(disk, undoing, outer, disk.clock, disk.clock);
    PartOfRun(disk, undoing, undoing, outer, disk.clock);
    return NotInstalled(back, undone), integrating, ready, undoing, restored;
  }

  /** The integration once the binaries are in place, seen from the tree before them. */
  method IntegrateInstalled(disk: Disk, t: Transaction, user: User, assets: Assets, isOwned: Bytes -> bool,
                            integration: Integration, ghost start: nat, ghost tree: Tree, ghost before: set<Tree>)
    returns (ok: bool, removed: bool, back: bool, ghost ready: nat, ghost undoing: nat, ghost profile: set<Path>)
    requires t.Paths(t.touched) <= BinaryPaths(t.layout) && Untouched(tree, disk.entries, t.Paths(t.touched))
    requires AllUntouched(tree, before, disk.visited, t.Paths(t.touched))
    requires Honest(disk, start, disk.clock) ==>
               Agrees(BinaryTree(tree, t.layout, assets, t.me.owner), disk.entries)
    requires start <= disk.clock
    modifies disk
    ensures old(disk.clock) <= ready <= undoing <= disk.clock && profile <= ProfilePaths(t.layout)
    ensures ok && Honest(disk, start, disk.clock) ==>
              Agrees(InstalledTree(tree, t.layout, assets, t.me, user, integration, removed), disk.entries)
    ensures removed ==> IsOwned(tree, t.layout, isOwned)
    ensures ok && integration == Proceed && AllWell(disk, old(disk.clock), disk.clock)
            && IsOwned(tree, t.layout, isOwned) ==>
              removed
    ensures AllWell(disk, old(disk.clock), disk.clock) ==> (ok <==> CanIntegrate(tree, t.layout, integration))
    ensures !ok && AllWell(disk, undoing, disk.clock) && NoDirectories(tree, profile) ==> back
    ensures NoFaults(disk, old(disk.clock), ready) ==> NoDirectories(tree, profile)
    ensures !ok && back && NoFaults(disk, old(disk.clock), ready) && Honest(disk, undoing, disk.clock) ==>
              Back(old(disk.entries), disk.entries, profile, user)
    ensures Untouched(tree, disk.entries, BinaryPaths(t.layout) + ProfilePaths(t.layout))
    ensures AllUntouched(tree, before, disk.visited, BinaryPaths(t.layout) + ProfilePaths(t.layout))
  {
    ghost var all, middle, seen := BinaryPaths(t.layout) + ProfilePaths(t.layout), disk.entries, disk.visited;
    ghost var first := disk.clock;
    Wider(tree, middle, before, seen, t.Paths(t.touched), all);
    Wider(tree, middle, before, seen, t.Paths(t.touched), BinaryPaths(t.layout));
    BinariesKeepProfile(tree, middle, t.layout);
    BinariesKeepLegacyEntry(tree, middle, t.layout, isOwned);
    ok, removed, back, ready, undoing, profile :=
      Integrate(disk, t.layout, user, t.suffix, assets, isOwned, integration);
    UndoneFrom(tree, middle, disk.entries, before, seen, disk.visited, ProfilePaths(t.layout), all);
    if ok && Honest(disk, start, disk.clock) {
      assert Honest(disk, start, first) && Honest(disk, first, disk.clock);
      ProfileOverBinaries(tree, middle, disk.entries, t.layout, assets, t.me, user, integration, removed);
    }
  }

  /** The outer rollback, whether or not the inner one has run. */
  method RollbackBinaries(disk: Disk, t: Transaction, user: User, ghost tree: Tree, ghost middle: Tree,
                          ghost restored: Restored, ghost before: set<Tree>)
    returns (undone: bool)
    requires t.Valid() && forall key :: key in t.touched ==> key in t.snapshots
    requires restored.binaries == t.Paths(t.touched) && AreTargets(restored, t.layout)
    requires Untouched(tree, middle, restored.binaries)
    requires Untouched(tree, disk.entries, BinaryPaths(t.layout) + ProfilePaths(t.layout))
    requires AllUntouched(tree, before, disk.visited, BinaryPaths(t.layout) + ProfilePaths(t.layout))
    modifies disk
    ensures disk.clock >= old(disk.clock)
    ensures undone && t.Records(tree) && Honest(disk, old(disk.clock), disk.clock)
            && Back(middle, old(disk.entries), restored.profile, user) ==>
              PutBack(tree, disk.entries, restored, t.me, user)
    ensures AllWell(disk, old(disk.clock), disk.clock) && NoDirectories(tree, restored.binaries) ==> undone
    ensures AllUntouched(tree, before, disk.visited, BinaryPaths(t.layout) + ProfilePaths(t.layout))
  {
    TargetPathsAreVisible(t.layout);
    ghost var inner, later := disk.entries, disk.visited;
    ghost var turns;
    undone, turns := t.Rollback(disk, tree);
    UndoneFrom(tree, inner, disk.entries, before, later, disk.visited, restored.binaries,
               BinaryPaths(t.layout) + ProfilePaths(t.layout));
    if t.RolledBack(tree, inner, disk.entries) && Back(middle, inner, restored.profile, user) {
      NestedRollbacks(tree, middle, inner, disk.entries, restored, t.layout, t.me, user);
    }
  }
}
