// A filesystem whose every operation may fail, as the transactions of src/service.rs see it.
// `faults` decides, for each operation in turn, whether it fails; nothing is assumed about it.
module Filesystem {
  import opened Common

  type Bytes = seq<bv8>
  type Path = seq<string>

  datatype Owner = Owner(uid: nat, gid: nat)

  /** `Other` stands for symlinks, devices and the like; modes are the permission bits. */
  datatype Entry = File(bytes: Bytes, owner: Owner, mode: nat) | Directory(owner: Owner, mode: nat) | Other

  /** A failing write may leave any bytes behind; a silently corrupted one writes other bytes and reports success. */
  datatype Fault = NoFault | Error(left: Bytes) | Corrupted(written: Bytes)

  datatype Outcome = Done | NotFound | NotEmpty | Refused

  datatype Metadata = Found(entry: Entry) | Missing | Unreadable

  type Tree = map<Path, Entry>

  function Parent(path: Path): Path
    requires path != []
  {
    path[..|path| - 1]
  }

  ghost predicate IsChild(path: Path, directory: Path) {
    path != [] && Parent(path) == directory
  }

  ghost predicate IsEmpty(entries: Tree, directory: Path) {
    forall path :: path in entries ==> !IsChild(path, directory)
  }

  class Disk {
    var entries: Tree
    var clock: nat
    const faults: nat -> Fault
    // Every state passed through so far.
    ghost var visited: set<Tree>

    constructor (entries: Tree, faults: nat -> Fault)
      ensures this.entries == entries && clock == 0 && this.faults == faults && visited == {entries}
    {
      this.entries := entries;
      this.clock := 0;
      this.faults := faults;
      this.visited := {entries};
    }

    predicate Fails(n: nat) {
      faults(n).Error?
    }

    predicate Faulty(n: nat) {
      faults(n) != NoFault
    }

    twostate predicate Ticked()
      reads this
    {
      clock == old(clock) + 1 && visited == old(visited) + {entries}
    }

    method Tick() returns (fault: Fault)
      modifies this`clock
      ensures clock == old(clock) + 1 && fault == faults(old(clock))
    {
      fault := faults(clock);
      clock := clock + 1;
    }

    ghost method Visit()
      modifies this`visited
      ensures visited == old(visited) + {entries}
    {
      visited := visited + {entries};
    }

    method Inspect(path: Path) returns (m: Metadata)
      modifies this
      ensures Ticked() && entries == old(entries)
      ensures m == if Fails(old(clock)) then Unreadable else if path in entries then Found(entries[path]) else Missing
    {
      var fault := Tick();
      Visit();
      m := if fault.Error? then Unreadable else if path in entries then Found(entries[path]) else Missing;
    }

    /** `Path::exists`: an error reads as absence. */
    method Exists(path: Path) returns (exists_: bool)
      modifies this
      ensures Ticked() && entries == old(entries)
      ensures exists_ <==> !Fails(old(clock)) && path in entries
    {
      var fault := Tick();
      Visit();
      exists_ := !fault.Error? && path in entries;
    }

    /** Opens and reads a regular file. */
    method Read(path: Path) returns (bytes: Option<Bytes>)
      modifies this
      ensures Ticked() && entries == old(entries)
      ensures bytes == if !Fails(old(clock)) && path in entries && entries[path].File? then Some(entries[path].bytes)
                       else None
    {
      var fault := Tick();
      Visit();
      bytes := if !fault.Error? && path in entries && entries[path].File? then Some(entries[path].bytes) else None;
    }

    /** Copies a regular file; a silently corrupted copy holds other bytes. */
    method Copy(path: Path) returns (bytes: Option<Bytes>)
      modifies this
      ensures Ticked() && entries == old(entries)
      ensures bytes.Some? <==> !Fails(old(clock)) && path in entries && entries[path].File?
      ensures bytes.Some? && !Faulty(old(clock)) ==> bytes.value == entries[path].bytes
    {
      var fault := Tick();
      Visit();
      if fault.Error? || path !in entries || !entries[path].File? {
        return None;
      }
      return Some(if fault.Corrupted? then fault.written else entries[path].bytes);
    }

    /** Creates a private file under a name that is not in use. */
    method CreateTemp(path: Path, owner: Owner) returns (ok: bool)
      modifies this
      ensures Ticked()
      ensures ok <==> !Fails(old(clock)) && path !in old(entries)
      ensures entries == if ok then old(entries)[path := File([], owner, 0x180)] else old(entries)
    {
      var fault := Tick();
      ok := !fault.Error? && path !in entries;
      if ok {
        entries := entries[path := File([], owner, 0x180)];
      }
      Visit();
    }

    method Write(path: Path, bytes: Bytes) returns (ok: bool)
      requires path in entries && entries[path].File?
      modifies this
      ensures Ticked()
      ensures ok <==> !Fails(old(clock))
      ensures exists written :: entries == old(entries)[path := old(entries)[path].(bytes := written)]
      ensures !Faulty(old(clock)) ==> entries == old(entries)[path := old(entries)[path].(bytes := bytes)]
    {
      var fault := Tick();
      ok := !fault.Error?;
      var written := match fault case NoFault => bytes case Error(left) => left case Corrupted(other) => other;
      entries := entries[path := entries[path].(bytes := written)];
      Visit();
    }

    method SetMode(path: Path, mode: nat) returns (ok: bool)
      requires path in entries && !entries[path].Other?
      modifies this
      ensures Ticked()
      ensures ok <==> !Fails(old(clock))
      ensures entries == if ok then old(entries)[path := old(entries)[path].(mode := mode)] else old(entries)
    {
      var fault := Tick();
      ok := !fault.Error?;
      if ok {
        entries := entries[path := entries[path].(mode := mode)];
      }
      Visit();
    }

    method SetOwner(path: Path, owner: Owner) returns (ok: bool)
      requires path in entries && !entries[path].Other?
      modifies this
      ensures Ticked()
      ensures ok <==> !Fails(old(clock))
      ensures entries == if ok then old(entries)[path := old(entries)[path].(owner := owner)] else old(entries)
    {
      var fault := Tick();
      ok := !fault.Error?;
      if ok {
        entries := entries[path := entries[path].(owner := owner)];
      }
      Visit();
    }

    /** Opens a file or directory and syncs it. */
    method Sync(path: Path) returns (ok: bool)
      modifies this
      ensures Ticked() && entries == old(entries)
      ensures ok <==> !Fails(old(clock)) && path in entries
    {
      var fault := Tick();
      Visit();
      ok := !fault.Error? && path in entries;
    }

    method RemoveFile(path: Path) returns (o: Outcome)
      modifies this
      ensures Ticked()
      ensures o == if Fails(old(clock)) then Refused
                   else if path !in old(entries) then NotFound
                   else if old(entries)[path].Directory? then Refused else Done
      ensures entries == if o == Done then old(entries) - {path} else old(entries)
    {
      var fault := Tick();
      o := if fault.Error? then Refused
           else if path !in entries then NotFound
           else if entries[path].Directory? then Refused else Done;
      if o == Done {
        entries := entries - {path};
      }
      Visit();
    }

    /** Renames a file, replacing what is at the target. */
    method Rename(source: Path, target: Path) returns (ok: bool)
      modifies this
      ensures Ticked()
      ensures ok <==> && !Fails(old(clock))
                      && source in old(entries) && !old(entries)[source].Directory?
                      && !(target in old(entries) && old(entries)[target].Directory?)
      ensures entries == if ok then (old(entries) - {source})[target := old(entries)[source]] else old(entries)
    {
      var fault := Tick();
      ok := && !fault.Error?
            && source in entries && !entries[source].Directory?
            && !(target in entries && entries[target].Directory?);
      if ok {
        entries := (entries - {source})[target := entries[source]];
      }
      Visit();
    }

    /** Renames a file onto a name that must be free. */
    method PersistNoClobber(source: Path, target: Path) returns (ok: bool)
      requires source in entries && !entries[source].Directory?
      modifies this
      ensures Ticked()
      ensures ok <==> !Fails(old(clock)) && target !in old(entries)
      ensures entries == if ok then (old(entries) - {source})[target := old(entries)[source]] else old(entries)
    {
      var fault := Tick();
      ok := !fault.Error? && target !in entries;
      if ok {
        entries := (entries - {source})[target := entries[source]];
      }
      Visit();
    }

    method CreateDirectory(path: Path, owner: Owner, mode: nat) returns (ok: bool)
      modifies this
      ensures Ticked()
      ensures ok <==> !Fails(old(clock)) && path !in old(entries) && path != [] && Parent(path) in old(entries)
      ensures entries == if ok then old(entries)[path := Directory(owner, mode)] else old(entries)
    {
      var fault := Tick();
      ok := !fault.Error? && path !in entries && path != [] && Parent(path) in entries;
      if ok {
        entries := entries[path := Directory(owner, mode)];
      }
      Visit();
    }

    method RemoveDirectory(path: Path) returns (o: Outcome)
      modifies this
      ensures Ticked()
      ensures o == if Fails(old(clock)) then Refused
                   else if path !in old(entries) then NotFound
                   else if !old(entries)[path].Directory? then Refused
                   else if !IsEmpty(old(entries), path) then NotEmpty else Done
      ensures entries == if o == Done then old(entries) - {path} else old(entries)
    {
      var fault := Tick();
      var empty := HasNoChild(path);
      o := if fault.Error? then Refused
           else if path !in entries then NotFound
           else if !entries[path].Directory? then Refused
           else if !empty then NotEmpty else Done;
      if o == Done {
        entries := entries - {path};
      }
      Visit();
    }

    method HasNoChild(directory: Path) returns (empty: bool)
      ensures empty <==> IsEmpty(entries, directory)
    {
      var unchecked := entries.Keys;
      empty := true;
      while unchecked != {}
        invariant unchecked <= entries.Keys
        invariant empty <==> forall path :: path in entries && path !in unchecked ==> !IsChild(path, directory)
      {
        var path :| path in unchecked;
        if path != [] && Parent(path) == directory {
          empty := false;
        }
        unchecked := unchecked - {path};
      }
    }
  }

  /** No operation from number `first` up to `end` failed. */
  ghost predicate AllWell(disk: Disk, first: nat, end: nat) {
    forall n :: first <= n < end ==> !disk.Fails(n)
  }

  /** No operation from number `first` up to `end` failed or wrote other bytes. */
  ghost predicate NoFaults(disk: Disk, first: nat, end: nat) {
    forall n :: first <= n < end ==> !disk.Faulty(n)
  }

  /** What holds of a stretch of operations holds of each part of it. */
  lemma PartOfRun(disk: Disk, start: nat, first: nat, end: nat, last: nat)
    requires start <= first && end <= last
    ensures AllWell(disk, start, last) ==> AllWell(disk, first, end)
    ensures NoFaults(disk, start, last) ==> NoFaults(disk, first, end) && AllWell(disk, first, end)
    ensures AtMostOneFault(disk, start, last) ==> AtMostOneFault(disk, first, end)
  {
    if NoFaults(disk, start, last) {
      forall n | first <= n < end
        ensures !disk.Fails(n)
      {
        assert !disk.Faulty(n);
      }
    }
  }

  /** Every copy from number `first` up to `end` that reported success has copied. */
  ghost predicate Honest(disk: Disk, first: nat, end: nat) {
    forall n :: first <= n < end ==> !disk.faults(n).Corrupted?
  }

  /** Of the operations from number `first` up to `end`, at most one failed or wrote other bytes. */
  ghost predicate AtMostOneFault(disk: Disk, first: nat, end: nat) {
    forall m, n :: first <= m < n < end && disk.Faulty(m) ==> !disk.Faulty(n)
  }
}
