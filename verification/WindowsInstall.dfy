// Installing over an existing Windows service (src/service.rs): the service is stopped, its binary
// replaced, the service recreated and started; a failure puts the prior binary and service back.
module WindowsInstall {
  import opened Common

  type Bytes = seq<bv8>

  /** Whether the image path names the protected binary with the expected arguments. */
  datatype Image = Protected | Legacy

  datatype Run = Stopped | StopPending | Running

  /** A service marked for deletion goes away once it has stopped. */
  datatype Service = Service(image: Image, run: Run, deleting: bool)

  /** `safe` is a regular file with the protected access list. */
  datatype Binary = Binary(bytes: Bytes, safe: bool)

  /** A late failure reports an error although the service manager did as asked. */
  datatype Fault = NoFault | Failed | FailedLate

  datatype Opened = Open | Absent | Refused

  datatype UpdateState = UpdateState(wasInstalled: bool, wasRunning: bool, usedProtectedBinary: bool)

  /** The outcome of an installation: what failed, and which of the compensating steps succeeded. */
  datatype Report =
    | Installed
    | NotPrepared
    | NotBegun(unwound: bool, restored: bool)
    | NotInstalled(changed: bool, removed: bool, rolledBack: bool, restored: bool)
    | NotCommitted
  {
    predicate Compensated() {
      || (NotBegun? && unwound && restored)
      || (NotInstalled? && removed && rolledBack && restored)
    }
  }

  const STOP_POLLS: nat := 120
  const DELETE_POLLS: nat := 10
  const DIRECTORIES: nat := 2

  function Settled(service: Option<Service>): Option<Service> {
    match service
    case None => None
    case Some(s) =>
      if s.run.Running? then service
      else if s.deleting then None
      else Some(s.(run := Stopped))
  }

  /** No process of the service is there. */
  predicate Idle(service: Option<Service>) {
    service.Some? ==> service.value.run == Stopped
  }

  /** Nothing about the service will change by itself. */
  predicate Steady(service: Option<Service>) {
    service.Some? ==> !service.value.deleting && service.value.run != StopPending
  }

  predicate IsSafe(binary: Option<Binary>) {
    binary.Some? && binary.value.safe
  }

  predicate Startable(service: Option<Service>) {
    service.Some? && service.value.run == Stopped && !service.value.deleting
  }

  /** The binary path and the backup path. */
  type Slots = (Option<Binary>, Option<Binary>)

  class Host {
    var service: Option<Service>
    var binary: Option<Binary>
    var backup: Option<Binary>
    // How many of the two nested directories above the binary exist.
    var directories: nat
    var clock: nat
    const faults: nat -> Fault
    // Whether a service that is stopping has stopped by a given operation.
    const settles: nat -> bool
    // What a copy made by a given operation holds, if it silently differs from its source.
    const corrupted: nat -> Option<Bytes>
    ghost var visited: set<Slots>
    // Whether the binary of a service was ever changed under its running process.
    ghost var disturbed: bool

    constructor (service: Option<Service>, binary: Option<Binary>, directories: nat,
                 faults: nat -> Fault, settles: nat -> bool, corrupted: nat -> Option<Bytes>)
      ensures this.service == service && this.binary == binary && backup == None && this.directories == directories
      ensures clock == 0 && this.faults == faults && this.settles == settles && this.corrupted == corrupted
      ensures visited == {(binary, None)} && !disturbed
    {
      this.service := service;
      this.binary := binary;
      this.backup := None;
      this.directories := directories;
      this.clock := 0;
      this.faults := faults;
      this.settles := settles;
      this.corrupted := corrupted;
      this.visited := {(binary, None)};
      this.disturbed := false;
    }

    ghost predicate Tidy()
      reads this
    {
      backup.None? && directories <= DIRECTORIES && (binary.Some? ==> directories == DIRECTORIES)
    }

    ghost predicate AllWell(first: nat, end: nat) {
      forall n :: first <= n < end ==> faults(n) == NoFault
    }

    /** Of the operations from number `first` up to `end`, at most one failed. */
    ghost predicate AtMostOneFault(first: nat, end: nat) {
      forall m, n :: first <= m < n < end && faults(m) != NoFault ==> faults(n) == NoFault
    }

    /** Every copy made from operation `first` up to `end` is one of its source. */
    ghost predicate Honest(first: nat, end: nat) {
      forall n :: first <= n < end ==> corrupted(n).None?
    }

    /** A service that is stopping has not stopped by any of the last `polls` operations before `end`. */
    ghost predicate Lingers(polls: nat, end: nat) {
      forall n: nat :: end - polls <= n < end ==> !settles(n)
    }

    /** A service that was stopping stayed for as many operations as its deletion is waited for. */
    ghost predicate OutlastsDeletion(first: nat, end: nat) {
      exists last :: first + DELETE_POLLS <= last <= end && Lingers(DELETE_POLLS, last)
    }

    /** A service cannot be deleted twice, nor gone before it has stopped. */
    ghost predicate Resists(service: Option<Service>, first: nat, end: nat) {
      service.Some? && (service.value.deleting || OutlastsDeletion(first, end))
    }

    /** The same for a service that is there two operations before its deletion. */
    ghost predicate Outstays(service: Option<Service>, first: nat, end: nat) {
      && service.Some?
      && if service.value.deleting then service.value.run.Running? || (!settles(first) && !settles(first + 1))
         else OutlastsDeletion(first, end)
    }

    function Now(): Option<Service>
      reads this
    {
      if settles(clock) then Settled(service) else service
    }

    method Tick() returns (fault: Fault)
      modifies this`clock, this`service
      ensures clock == old(clock) + 1 && fault == faults(old(clock)) && service == old(Now())
    {
      fault := faults(clock);
      service := Now();
      clock := clock + 1;
    }

    /** Any other step that succeeds or fails without touching the service or its binary. */
    method Attempt() returns (ok: bool)
      modifies this`clock, this`service
      ensures clock == old(clock) + 1 && service == old(Now()) && (ok <==> faults(old(clock)) == NoFault)
    {
      var fault := Tick();
      ok := fault == NoFault;
    }

    method Copy(source: Bytes) returns (copy: Option<Bytes>)
      modifies this`clock, this`service
      ensures clock == old(clock) + 1 && service == old(Now())
      ensures copy.Some? <==> faults(old(clock)) == NoFault
      ensures copy.Some? && corrupted(old(clock)).None? ==> copy.value == source
    {
      var written := if corrupted(clock).Some? then corrupted(clock).value else source;
      var fault := Tick();
      copy := if fault == NoFault then Some(written) else None;
    }

    // ---------- The service manager ----------

    method OpenService() returns (o: Opened)
      modifies this`clock, this`service
      ensures clock == old(clock) + 1 && service == old(Now())
      ensures o == if faults(old(clock)) != NoFault then Refused else if service.None? then Absent else Open
    {
      var fault := Tick();
      o := if fault != NoFault then Refused else if service.None? then Absent else Open;
    }

    method Query() returns (found: Option<Service>)
      modifies this`clock, this`service
      ensures clock == old(clock) + 1 && service == old(Now())
      ensures found == if faults(old(clock)) != NoFault then None else service
    {
      var fault := Tick();
      found := if fault != NoFault then None else service;
    }

    method ControlStop() returns (ok: bool)
      modifies this`clock, this`service
      ensures clock == old(clock) + 1
      ensures ok <==> faults(old(clock)) == NoFault && old(Now()).Some? && old(Now()).value.run == Running
      ensures service == var now := old(Now());
                         if now.Some? && now.value.run == Running && faults(old(clock)) != Failed
                         then Some(now.value.(run := StopPending)) else now
    {
      var fault := Tick();
      var running := service.Some? && service.value.run == Running;
      if running && fault != Failed {
        service := Some(service.value.(run := StopPending));
      }
      ok := running && fault == NoFault;
    }

    method DeleteService() returns (ok: bool)
      modifies this`clock, this`service
      ensures clock == old(clock) + 1
      ensures ok <==> faults(old(clock)) == NoFault && old(Now()).Some? && !old(Now()).value.deleting
      ensures service == var now := old(Now());
                         if now.Some? && faults(old(clock)) != Failed then Some(now.value.(deleting := true)) else now
    {
      var fault := Tick();
      ok := service.Some? && !service.value.deleting && fault == NoFault;
      if service.Some? && fault != Failed {
        service := Some(service.value.(deleting := true));
      }
    }

    method CreateService() returns (ok: bool)
      modifies this`clock, this`service
      ensures clock == old(clock) + 1
      ensures ok <==> faults(old(clock)) == NoFault && old(Now()).None?
      ensures service == if old(Now()).None? && faults(old(clock)) != Failed
                         then Some(Service(Protected, Stopped, false)) else old(Now())
    {
      var fault := Tick();
      ok := service.None? && fault == NoFault;
      if service.None? && fault != Failed {
        service := Some(Service(Protected, Stopped, false));
      }
    }

    method StartService() returns (ok: bool)
      modifies this`clock, this`service
      ensures clock == old(clock) + 1
      ensures ok <==> faults(old(clock)) == NoFault && Startable(old(Now()))
      ensures service == var now := old(Now());
                         if Startable(now) && faults(old(clock)) != Failed
                         then Some(now.value.(run := Running)) else now
    {
      var fault := Tick();
      var startable := Startable(service);
      ok := startable && fault == NoFault;
      if startable && fault != Failed {
        service := Some(service.value.(run := Running));
      }
    }

    // ---------- The protected binary ----------

    method ValidateBinary() returns (ok: bool)
      modifies this`clock, this`service
      ensures clock == old(clock) + 1 && service == old(Now())
      ensures ok <==> faults(old(clock)) == NoFault && binary.Some? && binary.value.safe
    {
      var fault := Tick();
      ok := fault == NoFault && binary.Some? && binary.value.safe;
    }

    /** `Path::exists`: an error reads as absence. */
    method BinaryExists() returns (exists_: bool)
      modifies this`clock, this`service
      ensures clock == old(clock) + 1 && service == old(Now())
      ensures exists_ <==> faults(old(clock)) == NoFault && binary.Some?
    {
      var fault := Tick();
      exists_ := fault == NoFault && binary.Some?;
    }

    twostate predicate Changed()
      reads this
    {
      && clock == old(clock) + 1 && service == old(Now())
      && visited == old(visited) + {(binary, backup)}
      && (disturbed ==> old(disturbed) || (binary != old(binary) && !Idle(service)))
    }

    method ChangeSlots(binary: Option<Binary>, backup: Option<Binary>)
      modifies this`binary, this`backup, this`visited, this`disturbed
      ensures this.binary == binary && this.backup == backup
      ensures visited == old(visited) + {(binary, backup)} && (disturbed ==>
                old(disturbed) || (binary != old(this.binary) && !Idle(service)))
    {
      disturbed := disturbed || (this.binary != binary && !Idle(service));
      this.binary := binary;
      this.backup := backup;
      visited := visited + {(binary, backup)};
    }

    method MoveToBackup() returns (ok: bool)
      modifies this
      ensures Changed() && directories == old(directories)
      ensures ok <==> faults(old(clock)) == NoFault && old(binary).Some?
      ensures if ok then binary == None && backup == old(binary) else binary == old(binary) && backup == old(backup)
    {
      var fault := Tick();
      ok := fault == NoFault && binary.Some?;
      if ok {
        ChangeSlots(None, binary);
      } else {
        ChangeSlots(binary, backup);
      }
    }

    method MoveFromBackup() returns (ok: bool)
      modifies this
      ensures Changed() && directories == old(directories)
      ensures ok <==> faults(old(clock)) == NoFault && old(backup).Some?
      ensures if ok then binary == old(backup) && backup == None else binary == old(binary) && backup == old(backup)
    {
      var fault := Tick();
      ok := fault == NoFault && backup.Some?;
      if ok {
        ChangeSlots(backup, None);
      } else {
        ChangeSlots(binary, backup);
      }
    }

    method PublishNoClobber(stage: Binary) returns (ok: bool)
      modifies this
      ensures Changed() && directories == old(directories) && backup == old(backup)
      ensures ok <==> faults(old(clock)) == NoFault && old(binary).None?
      ensures binary == if ok then Some(stage) else old(binary)
    {
      var fault := Tick();
      ok := fault == NoFault && binary.None?;
      ChangeSlots(if ok then Some(stage) else binary, backup);
    }

    /** A missing file counts as removed. */
    method RemoveBinary() returns (ok: bool)
      modifies this
      ensures Changed() && directories == old(directories) && backup == old(backup)
      ensures ok <==> faults(old(clock)) == NoFault
      ensures binary == if ok then None else old(binary)
    {
      var fault := Tick();
      ok := fault == NoFault;
      ChangeSlots(if ok then None else binary, backup);
    }

    method RemoveBackup() returns (ok: bool)
      modifies this
      ensures Changed() && directories == old(directories) && binary == old(binary)
      ensures ok <==> faults(old(clock)) == NoFault && old(backup).Some?
      ensures backup == if ok then None else old(backup)
    {
      var fault := Tick();
      ok := fault == NoFault && backup.Some?;
      ChangeSlots(binary, if ok then None else backup);
    }

    /** Creates the innermost missing directory. */
    method CreateDirectory() returns (ok: bool)
      modifies this`clock, this`service, this`directories
      ensures clock == old(clock) + 1 && service == old(Now())
      ensures ok <==> faults(old(clock)) == NoFault
      ensures directories == if ok then old(directories) + 1 else old(directories)
    {
      var fault := Tick();
      ok := fault == NoFault;
      if ok {
        directories := directories + 1;
      }
    }

    /** Removes the innermost directory; one that is missing or not empty is left. */
    method RemoveDirectory() returns (ok: bool)
      modifies this`clock, this`service, this`directories
      ensures clock == old(clock) + 1 && service == old(Now())
      ensures ok <==> faults(old(clock)) == NoFault
      ensures directories == if ok && old(directories) > 0 && binary.None? && backup.None? then old(directories) - 1
                             else old(directories)
    {
      var fault := Tick();
      ok := fault == NoFault;
      if ok && directories > 0 && binary.None? && backup.None? {
        directories := directories - 1;
      }
    }
  }

  // ---------- The update of the binary ----------

  /** The prior binary is at one of the two paths. */
  ghost predicate Keeps(slots: Slots, prior: Option<Binary>) {
    prior.Some? ==> slots.0 == prior || slots.1 == prior
  }

  ghost predicate AllKeep(before: set<Slots>, after: set<Slots>, prior: Option<Binary>) {
    before <= after && forall slots :: slots in after && slots !in before ==> Keeps(slots, prior)
  }

  class WindowsProtectedBinaryUpdate {
    var backup: bool
    var createdDirectories: nat
    var finished: bool

    constructor (backup: bool, createdDirectories: nat)
      ensures this.backup == backup && this.createdDirectories == createdDirectories && !finished
    {
      this.backup := backup;
      this.createdDirectories := createdDirectories;
      this.finished := false;
    }

    /** The binary is published and the prior one, if any, backed up. */
    ghost predicate Published(host: Host, prior: Option<Binary>, before: nat)
      reads this, host
    {
      && Recoverable(host, prior, before)
      && host.binary.Some? && host.backup == prior && host.directories == DIRECTORIES
    }

    /** The prior binary is still at the backup path, or there was none. */
    ghost predicate Recoverable(host: Host, prior: Option<Binary>, before: nat)
      reads this, host
    {
      && (backup <==> prior.Some?) && (prior.Some? ==> createdDirectories == 0)
      && host.backup == prior && host.directories == DIRECTORIES && before + createdDirectories == DIRECTORIES
    }

    method RollbackInner(host: Host, ghost prior: Option<Binary>, ghost before: nat) returns (ok: bool)
      requires Recoverable(host, prior, before) || (prior.None? && host.backup.None? && !backup)
      modifies host
      ensures AllKeep(old(host.visited), host.visited, prior) && host.clock > old(host.clock)
      ensures old(Idle(host.service)) ==> Idle(host.service) && (host.disturbed ==> old(host.disturbed))
      ensures old(Steady(host.service)) ==> host.service == old(host.service)
      ensures ok ==> host.binary == prior && host.backup == None
      ensures host.AllWell(old(host.clock), host.clock) ==> ok
      ensures ok && old(Recoverable(host, prior, before)) ==> host.directories == before
      ensures Keeps((host.binary, host.backup), prior)
      // A pass that fails has not restored the prior binary, so that another one may.
      ensures !ok ==> Recoverable(host, prior, before) || (prior.None? && host.backup.None? && !backup)
    {
      var removed := host.RemoveBinary();
      if !removed {
        return false;
      }
      if backup {
        var restored := host.MoveFromBackup();
        if !restored {
          return false;
        }
      }
      ghost var top := host.directories;
      for i := 0 to createdDirectories
        modifies host`clock, host`service, host`directories
        invariant host.clock > old(host.clock)
        invariant old(Idle(host.service)) ==> Idle(host.service)
        invariant old(Steady(host.service)) ==> host.service == old(host.service)
        invariant top == DIRECTORIES && createdDirectories <= DIRECTORIES && prior.None? ==> host.directories == top - i
        invariant createdDirectories == 0 ==> host.directories == top
      {
        var emptied := host.RemoveDirectory();
        if !emptied {
          return false;
        }
      }
      return true;
    }

    method Drop(host: Host, ghost prior: Option<Binary>, ghost before: nat)
      requires !finished ==> Recoverable(host, prior, before) || (prior.None? && host.backup.None? && !backup)
      modifies host
      ensures finished ==> unchanged(host)
      ensures AllKeep(old(host.visited), host.visited, prior) && host.clock >= old(host.clock)
      ensures !finished ==> Keeps((host.binary, host.backup), prior)
      ensures !finished && host.AllWell(old(host.clock), host.clock) ==> host.binary == prior && host.backup == None
      ensures old(Idle(host.service)) ==> Idle(host.service) && (host.disturbed ==> old(host.disturbed))
      ensures old(Steady(host.service)) ==> host.service == old(host.service)
    {
      if !finished {
        var _ := RollbackInner(host, prior, before);
      }
    }

    method Rollback(host: Host, ghost prior: Option<Binary>, ghost before: nat) returns (ok: bool)
      requires Published(host, prior, before) && !finished
      modifies this`finished, host
      ensures AllKeep(old(host.visited), host.visited, prior) && host.clock > old(host.clock)
      ensures Keeps((host.binary, host.backup), prior)
      ensures old(Idle(host.service)) ==> Idle(host.service) && (host.disturbed ==> old(host.disturbed))
      ensures old(Steady(host.service)) ==> host.service == old(host.service)
      ensures ok ==> host.binary == prior && host.backup == None && host.directories == before
      ensures host.AllWell(old(host.clock), host.clock) ==> ok
    {
      ok := RollbackInner(host, prior, before);
      if ok {
        finished := true;
      }
      Drop(host, prior, before);
    }

    method Commit(host: Host, ghost prior: Option<Binary>, ghost before: nat) returns (ok: bool)
      requires Published(host, prior, before) && !finished
      modifies this, host
      ensures old(host.visited) <= host.visited
      ensures host.clock >= old(host.clock) && (host.AllWell(old(host.clock), host.clock) ==> ok)
      ensures forall slots :: slots in host.visited && slots !in old(host.visited) ==>
                Keeps(slots, prior) || (ok && slots == (old(host.binary), None))
      ensures ok ==> host.binary == old(host.binary) && host.backup == None && (host.disturbed ==> old(host.disturbed))
      ensures !ok ==> Keeps((host.binary, host.backup), prior)
      ensures old(Steady(host.service)) ==> host.service == old(host.service)
    {
      if backup {
        var removed := host.RemoveBackup();
        if !removed {
          Drop(host, prior, before);
          return false;
        }
        backup := false;
      }
      finished := true;
      Drop(host, prior, before);
      return true;
    }
  }

  /**
   * `begin_protected_binary_update`. `unwound` tells whether a failure left the two paths as they
   * were; the source does not report a prior binary it could not move back.
   */
  method BeginUpdate(host: Host, source: Bytes, ghost prior: Option<Binary>, ghost before: nat)
    returns (update: WindowsProtectedBinaryUpdate?, unwound: bool)
    requires host.Tidy() && prior == host.binary && before == host.directories
    modifies host
    ensures AllKeep(old(host.visited), host.visited, prior) && Keeps((host.binary, host.backup), prior)
    ensures old(Idle(host.service)) ==> Idle(host.service) && (host.disturbed ==> old(host.disturbed))
    ensures old(Steady(host.service)) ==> host.service == old(host.service)
    ensures update != null ==>
              fresh(update) && !update.finished && update.Published(host, prior, before)
                && host.binary == Some(Binary(source, true))
    ensures update == null && unwound ==> host.binary == prior && host.backup == None
    ensures host.faults(old(host.clock)) != NoFault ==> update == null && unwound
    ensures host.clock > old(host.clock)
    // Nothing is refused but an unsafe binary in place, unless an operation is at fault.
    ensures host.AllWell(old(host.clock), host.clock) && host.Honest(old(host.clock), host.clock) ==>
              (update != null <==> prior.None? || IsSafe(prior))
    ensures host.AtMostOneFault(old(host.clock), host.clock) ==> update != null || unwound
  {
    update, unwound := null, true;
    var ready, created := EnsureReady(host);
    if ready {
      var stage := StageCopy(host, source);
      if stage.Some? {
        update, unwound := SwapIn(host, stage.value, created, prior, before);
      }
    }
  }

  /** The checks of the source and of the binary in place, and the directories. */
  method EnsureReady(host: Host) returns (ok: bool, created: nat)
    requires host.directories <= DIRECTORIES
    ensures host.faults(old(host.clock)) != NoFault ==> !ok
    modifies host`clock, host`service, host`directories
    ensures host.clock > old(host.clock)
    ensures old(Idle(host.service)) ==> Idle(host.service)
    ensures old(Steady(host.service)) ==> host.service == old(host.service)
    ensures ok ==> host.directories == DIRECTORIES && old(host.directories) + created == DIRECTORIES
    ensures host.AllWell(old(host.clock), host.clock) ==> (ok <==> host.binary.None? || IsSafe(host.binary))
  {
    created := 0;
    ok := host.Attempt();
    if !ok {
      return;
    }
    created, ok := EnsureDirectories(host);
    if !ok {
      return;
    }
    var present := host.BinaryExists();
    if present {
      ok := host.ValidateBinary();
    }
  }

  /** A private copy of the source, compared with it and then protected; whatever fails, the copy is dropped. */
  method StageCopy(host: Host, source: Bytes) returns (stage: Option<Binary>)
    modifies host`clock, host`service
    ensures host.clock > old(host.clock)
    ensures old(Idle(host.service)) ==> Idle(host.service)
    ensures old(Steady(host.service)) ==> host.service == old(host.service)
    // A copy that was silently corrupted is not staged.
    ensures stage.Some? ==> stage.value == Binary(source, true)
    ensures host.AllWell(old(host.clock), host.clock) && host.Honest(old(host.clock), host.clock) ==> stage.Some?
  {
    var opened_ := host.Attempt();
    if !opened_ {
      return None;
    }
    var created := host.Attempt();
    if !created {
      return None;
    }
    var copy := host.Copy(source);
    if copy.None? {
      return None;
    }
    var synced := host.Attempt();
    if !synced {
      return None;
    }
    var compared := host.Attempt();
    if !compared || copy.value != source {
      return None;
    }
    var secured := host.Attempt();
    if !secured {
      return None;
    }
    synced := host.Attempt();
    if !synced {
      return None;
    }
    return Some(Binary(copy.value, true));
  }

  method SwapIn(host: Host, stage: Binary, created: nat, ghost prior: Option<Binary>, ghost before: nat)
    returns (update: WindowsProtectedBinaryUpdate?, unwound: bool)
    requires host.backup.None? && prior == host.binary && (prior.Some? ==> created == 0)
    requires host.directories == DIRECTORIES && before + created == DIRECTORIES
    modifies host
    ensures host.clock > old(host.clock)
    ensures AllKeep(old(host.visited), host.visited, prior) && Keeps((host.binary, host.backup), prior)
    ensures old(Idle(host.service)) ==> Idle(host.service) && (host.disturbed ==> old(host.disturbed))
    ensures old(Steady(host.service)) ==> host.service == old(host.service)
    ensures update != null ==>
              fresh(update) && !update.finished && update.Published(host, prior, before) && host.binary == Some(stage)
    ensures update == null && unwound ==> host.binary == prior && host.backup == None
    ensures stage.safe && host.AllWell(old(host.clock), host.clock) ==> update != null
    ensures stage.safe && host.AtMostOneFault(old(host.clock), host.clock) ==> update != null || unwound
  {
    update, unwound := null, true;
    var backup := host.BinaryExists();
    if backup {
      var moved := host.MoveToBackup();
      if !moved {
        return;
      }
    }
    var published := host.PublishNoClobber(stage);
    if !published {
      if backup {
        unwound := host.MoveFromBackup();
      }
      return;
    }
    update := new WindowsProtectedBinaryUpdate(backup, created);
    var valid := host.ValidateBinary();
    if !valid {
      unwound := update.Rollback(host, prior, before);
      update := null;
    }
  }

  /** Creates the missing ones of the two directories; those created stay if a later step fails. */
  method EnsureDirectories(host: Host) returns (created: nat, ok: bool)
    requires host.directories <= DIRECTORIES
    modifies host`clock, host`service, host`directories
    ensures host.clock >= old(host.clock)
    ensures old(Idle(host.service)) ==> Idle(host.service)
    ensures old(Steady(host.service)) ==> host.service == old(host.service)
    ensures old(host.directories) <= host.directories <= DIRECTORIES
    ensures ok ==> host.directories == DIRECTORIES && old(host.directories) + created == DIRECTORIES
    ensures host.AllWell(old(host.clock), host.clock) ==> ok
  {
    created := 0;
    for i := 0 to DIRECTORIES
      invariant host.clock >= old(host.clock)
      invariant old(Idle(host.service)) ==> Idle(host.service)
      invariant old(Steady(host.service)) ==> host.service == old(host.service)
      invariant i <= host.directories <= DIRECTORIES && host.directories == old(host.directories) + created
    {
      var inspected := host.Attempt();
      if !inspected {
        return created, false;
      }
      if host.directories <= i {
        var made := host.CreateDirectory();
        if !made {
          return created, false;
        }
        created := created + 1;
      }
      var secured := host.Attempt();
      if !secured {
        return created, false;
      }
    }
    return created, true;
  }

  // ---------- The service ----------

  /** `stop_windows_service_for_restart`: success means the process is gone. */
  method StopForRestart(host: Host) returns (ok: bool)
    modifies host`clock, host`service
    ensures host.clock > old(host.clock)
    ensures ok ==>
              host.service.Some? && old(host.service).Some?
                && host.service == Some(old(host.service).value.(run := Stopped))
    ensures Lessened(old(host.service), host.service)
    // A service that is not marked for deletion is stopped unless an operation fails or the polls run out.
    ensures Unmarked(old(host.service)) && host.AllWell(old(host.clock), host.clock) ==>
              ok || host.Lingers(STOP_POLLS, host.clock)
    // A running service is asked to stop; if the next query fails it stops all the same, unreported.
    ensures RunsSteadily(old(host.service)) && host.AllWell(old(host.clock), old(host.clock) + 3) ==>
              var last := old(host.clock) + 3;
              var left := Some(old(host.service).value.(run := if host.settles(last) then Stopped else StopPending));
              && (host.faults(last) != NoFault ==> !ok && host.service == left)
              && (host.faults(last) == NoFault && host.settles(last) ==> ok && host.clock == last + 1)
  {
    ghost var start := host.clock;
    var handle := host.OpenService();
    if handle != Open {
      return false;
    }
    var status := host.Query();
    if status.None? {
      return false;
    }
    if status.value.run == Stopped {
      return true;
    }
    if status.value.run != StopPending {
      var asked := host.ControlStop();
      if !asked {
        return false;
      }
    }
    assert RunsSteadily(old(host.service)) && host.AllWell(start, start + 3) ==>
        host.clock == start + 3 && host.service == Some(old(host.service).value.(run := StopPending));
    ghost var asked := host.service;
    for i := 0 to STOP_POLLS
      invariant host.clock > old(host.clock)
      invariant Lessened(old(host.service), host.service)
      invariant Unmarked(old(host.service)) && host.AllWell(start, host.clock) ==>
                  && Unmarked(host.service) && host.service.value.run != Running
                  && host.Lingers(i, host.clock)
      invariant RunsSteadily(old(host.service)) && host.AllWell(start, start + 3) ==>
          if i == 0 then host.clock == start + 3 && host.service == asked
          else host.faults(start + 3) == NoFault && !host.settles(start + 3)
    {
      status := host.Query();
      if status.None? {
        return false;
      }
      if status.value.run == Stopped {
        return true;
      }
    }
    return false;
  }

  predicate Unmarked(service: Option<Service>) {
    service.Some? && !service.value.deleting
  }

  /** There is no service, or one that can be marked for deletion. */
  predicate Deletable(service: Option<Service>) {
    service.None? || Unmarked(service)
  }

  predicate RunsSteadily(service: Option<Service>) {
    service.Some? && service.value.run == Running && !service.value.deleting
  }

  /** The same service, no more alive than it was; only one marked for deletion may be gone. */
  predicate Lessened(was: Option<Service>, now: Option<Service>) {
    match now
    case None => was.None? || was.value.deleting
    case Some(s) =>
      && was.Some? && s.(run := Stopped) == was.value.(run := Stopped)
      && (was.value.run == Stopped ==> s.run == Stopped)
      && (s.run == Running ==> was.value.run == Running)
  }

  /** `delete_windows_service_if_exists`: success means the service is gone. */
  method DeleteIfExists(host: Host) returns (ok: bool)
    modifies host`clock, host`service
    ensures host.clock > old(host.clock)
    ensures ok ==> host.service.None?
    // If no operation fails, the service goes unless it was marked for deletion already, or the polls run out.
    ensures host.AllWell(old(host.clock), host.clock) ==>
              (ok <==> || old(host.Now()).None?
                       || (!old(host.Now()).value.deleting && !host.Lingers(DELETE_POLLS, host.clock)))
    ensures !ok && host.AllWell(old(host.clock), host.clock) ==>
              host.Resists(old(host.Now()), old(host.clock), host.clock)
  {
    ghost var start := host.clock;
    var handle := host.OpenService();
    if handle == Absent {
      return true;
    }
    if handle == Refused {
      return false;
    }
    var status := host.Query();
    if status.Some? && status.value.run != Stopped {
      var _ := host.ControlStop();
    }
    var deleted := host.DeleteService();
    if !deleted {
      return false;
    }
    for i := 0 to DELETE_POLLS
      invariant host.clock > old(host.clock) + i
      invariant host.AllWell(start, host.clock) ==>
                  && !old(host.Now()).value.deleting
                  && host.service.Some? && host.service.value.deleting && host.service.value.run != Running
                  && host.Lingers(i, host.clock)
    {
      handle := host.OpenService();
      if handle == Absent {
        return true;
      }
      if handle == Refused {
        return false;
      }
    }
    return false;
  }

  method InstallService(host: Host) returns (ok: bool)
    modifies host`clock, host`service
    ensures host.clock > old(host.clock)
    ensures ok ==>
              host.service == Some(Service(Protected, Stopped, false)) && IsSafe(host.binary)
    ensures IsSafe(host.binary) && !ok && host.AllWell(old(host.clock), host.clock) ==>
              host.Resists(old(host.Now()), old(host.clock), host.clock)
  {
    ghost var start := host.clock;
    var deleted := DeleteIfExists(host);
    if !deleted {
      return false;
    }
    var valid := host.ValidateBinary();
    if !valid {
      return false;
    }
    ok := host.CreateService();
  }

  /** `start`: only a service whose image is the protected binary. */
  method Start(host: Host) returns (ok: bool)
    modifies host`clock, host`service
    ensures host.clock > old(host.clock)
    ensures ok && old(Steady(host.service)) ==> old(host.service) == Some(Service(Protected, Stopped, false))
    ensures ok && old(Steady(host.service)) ==> host.service == Some(Service(Protected, Running, false))
    ensures host.AllWell(old(host.clock), host.clock) && old(Steady(host.service)) ==>
              (ok <==> IsSafe(host.binary) && old(host.service) == Some(Service(Protected, Stopped, false)))
  {
    var valid := host.ValidateBinary();
    if !valid {
      return false;
    }
    var found := host.Query();
    if found.None? || found.value.image != Protected {
      return false;
    }
    ok := host.StartService();
  }

  /** `configure_firewall`: the rule names the protected binary, which must be valid. */
  method ConfigureFirewall(host: Host) returns (ok: bool)
    modifies host`clock, host`service
    ensures host.clock > old(host.clock)
    ensures ok ==> IsSafe(host.binary)
    ensures host.AllWell(old(host.clock), host.clock) ==> (ok <==> IsSafe(host.binary))
    ensures Deletable(old(host.service)) ==> Deletable(host.service)
    ensures old(Idle(host.service)) ==> Idle(host.service)
    ensures old(Steady(host.service)) ==> host.service == old(host.service)
  {
    ok := host.ValidateBinary();
    if ok {
      ok := host.Attempt();
    }
  }

  /** `prepare_windows_service_for_binary_update`: what there was, and the service stopped. */
  method Prepare(host: Host) returns (state: Option<UpdateState>)
    modifies host`clock, host`service
    ensures host.clock > old(host.clock)
    ensures state.Some? ==> Prepared(old(host.service), old(host.binary), host.service, state.value)
    // One operation decides whether the use of the protected binary is noticed.
    ensures state.Some? && UsesProtectedBinary(old(host.service), old(host.binary)) ==>
              (state.value.usedProtectedBinary <==> host.faults(old(host.clock) + VALIDATION) == NoFault)
    // Failing, it may leave a service stopped that was running, and does so if only the last query fails.
    ensures state.None? ==> Lessened(old(host.service), host.service)
    ensures Deletable(old(host.service)) && host.AllWell(old(host.clock), host.clock) ==>
              state.Some? || host.Lingers(STOP_POLLS, host.clock)
    ensures WillBeAsked(host.faults, old(host.service), old(host.clock)) ==>
              var last := old(host.clock) + VALIDATION + 4;
              var left := Some(old(host.service).value.(run := if host.settles(last) then Stopped else StopPending));
              && (host.faults(last) != NoFault ==> state.None? && host.service == left)
              && (host.faults(last) == NoFault && host.settles(last) ==> state.Some? && host.clock == last + 1)
  {
    var found := InspectService(host);
    if found == NoService {
      return Some(UpdateState(false, false, false));
    }
    if found == Unreadable {
      return None;
    }
    var wasRunning := found.run != Stopped;
    if wasRunning {
      var stopped := StopForRestart(host);
      if !stopped {
        return None;
      }
    }
    return Some(UpdateState(true, wasRunning, found.valid));
  }

  /** What there is before the update; `valid` tells that the service uses the protected binary and that is safe. */
  datatype Inspection = NoService | Unreadable | Inspected(run: Run, valid: bool)

  method InspectService(host: Host) returns (found: Inspection)
    modifies host`clock, host`service
    ensures host.clock > old(host.clock) && Lessened(old(host.service), host.service)
    ensures found == NoService ==> host.service.None?
    ensures host.AllWell(old(host.clock), host.clock) && old(host.service).None? ==> found == NoService
    ensures host.AllWell(old(host.clock), host.clock) && Unmarked(old(host.service)) ==>
              found.Inspected? && Unmarked(host.service)
    ensures found.Inspected? ==>
              && old(host.service).Some?
              && (old(host.service).value.run == Running ==> found.run == Running)
              && (old(host.service).value.run == Stopped ==> found.run == Stopped)
              && (found.run == Stopped ==> Idle(host.service))
              && (found.valid ==>
                  old(host.service).value.image == Protected && host.binary.Some? && host.binary.value.safe)
    ensures found.Inspected? && UsesProtectedBinary(old(host.service), host.binary) ==>
              (found.valid <==> host.faults(old(host.clock) + VALIDATION) == NoFault)
    ensures WillBeAsked(host.faults, old(host.service), old(host.clock)) ==>
              found.Inspected? && host.clock == old(host.clock) + VALIDATION + 1 && host.service == old(host.service)
  {
    var handle := host.OpenService();
    if handle == Absent {
      return NoService;
    }
    if handle == Refused {
      return Unreadable;
    }
    var config := host.Query();
    if config.None? {
      return Unreadable;
    }
    var status := host.Query();
    if status.None? {
      return Unreadable;
    }
    var located := host.Attempt();
    if !located {
      return Unreadable;
    }
    var valid := false;
    if config.value.image == Protected {
      valid := host.ValidateBinary();
    }
    return Inspected(status.value.run, valid);
  }

  /** The number of operations before the one that validates the binary of an existing protected service. */
  const VALIDATION: nat := 4

  /** A running protected service gets as far as being asked to stop, whatever the validation says. */
  ghost predicate WillBeAsked(faults: nat -> Fault, service: Option<Service>, start: nat) {
    && RunsSteadily(service) && service.value.image == Protected
    && forall n :: start <= n < start + VALIDATION + 4 && n != start + VALIDATION ==> faults(n) == NoFault
  }

  predicate UsesProtectedBinary(service: Option<Service>, binary: Option<Binary>) {
    && service.Some? && !service.value.deleting && service.value.image == Protected
    && binary.Some? && binary.value.safe
  }

  /** A service not marked for deletion is there still, stopped, and its state is recorded. */
  ghost predicate Prepared(service: Option<Service>, binary: Option<Binary>, now: Option<Service>, state: UpdateState) {
    && Idle(now)
    && (service.None? ==> now.None? && state == UpdateState(false, false, false))
    && (service.Some? && !service.value.deleting ==>
          && now == Some(service.value.(run := Stopped)) && state.wasInstalled
          && (service.value.run == Running ==> state.wasRunning))
    && (state.wasRunning ==> service.Some? && service.value.run != Stopped)
    && (state.usedProtectedBinary ==>
        service.Some? && service.value.image == Protected && binary.Some? && binary.value.safe)
  }

  /** A protected service can be put back over its binary, by starting it again if it was only stopped. */
  predicate CanBeRestored(service: Option<Service>, prior: Option<Binary>, state: UpdateState, changed: bool) {
    state.wasInstalled && state.usedProtectedBinary ==>
        IsSafe(prior) && (state.wasRunning && !changed ==> service == Some(Service(Protected, Stopped, false)))
  }

  /** `restore_windows_service_after_failed_update`. */
  method Restore(host: Host, state: UpdateState, changed: bool) returns (ok: bool)
    modifies host`clock, host`service
    ensures host.clock >= old(host.clock)
    ensures !(state.wasInstalled && state.usedProtectedBinary) && !changed ==> ok
    ensures ok && !(state.wasInstalled && state.usedProtectedBinary) && old(Idle(host.service)) ==> Idle(host.service)
    ensures ok && !(state.wasInstalled && state.usedProtectedBinary) && changed ==> host.service.None?
    ensures ok && !(state.wasInstalled && state.usedProtectedBinary) && !changed ==> host.service == old(host.service)
    ensures ok && state.wasInstalled && state.usedProtectedBinary
            && (changed || old(host.service) == Some(Service(Protected, Stopped, false))) ==>
              host.service == Some(Service(Protected, if state.wasRunning then Running else Stopped, false))
    // If no operation fails, what there was is restored unless the service in the way cannot be removed.
    ensures !ok && host.AllWell(old(host.clock), host.clock)
            && CanBeRestored(old(host.service), host.binary, state, changed) ==>
              changed && host.Resists(old(host.Now()), old(host.clock), host.clock)
  {
    if !state.wasInstalled || !state.usedProtectedBinary {
      if changed {
        ok := DeleteIfExists(host);
        return;
      }
      return true;
    }
    if changed {
      ok := InstallService(host);
      if !ok {
        return;
      }
    }
    ok := ConfigureFirewall(host);
    if !ok {
      return;
    }
    if state.wasRunning {
      ok := Start(host);
    }
  }

  // ---------- The installation ----------

  /** The steps between the update and its commit; `changed` tells whether the service was touched. */
  method ConfigureService(host: Host) returns (ok: bool, changed: bool)
    modifies host`clock, host`service
    ensures host.clock > old(host.clock)
    ensures ok ==> changed && host.service == Some(Service(Protected, Running, false))
    // The last operation is the one that tells whether the service can be reached.
    ensures ok ==> host.faults(host.clock - 1) == NoFault
    ensures !changed && old(Idle(host.service)) ==> Idle(host.service)
    ensures !changed && old(Steady(host.service)) ==> host.service == old(host.service)
    // If no operation fails, the new service runs unless the one before it cannot be removed.
    ensures !ok && IsSafe(host.binary) && Deletable(old(host.service)) && host.AllWell(old(host.clock), host.clock) ==>
              changed && host.OutlastsDeletion(old(host.clock), host.clock)
    // It leaves a service marked for deletion only if an operation failed or the polls ran out.
    ensures !ok && Deletable(old(host.service)) && !Deletable(host.service) ==>
              !host.AllWell(old(host.clock), host.clock) || host.OutlastsDeletion(old(host.clock), host.clock)
  {
    changed := false;
    ok := ConfigureFirewall(host);
    if !ok {
      return;
    }
    changed := true;
    ok := InstallService(host);
    if !ok {
      return;
    }
    ok := Start(host);
    if !ok {
      return;
    }
    // The service must answer on its port.
    ok := host.Attempt();
  }

  /** What a failed installation whose compensating steps all succeeded leaves. */
  ghost predicate PutBack(was: Option<Service>, prior: Option<Binary>, service: Option<Service>,
                          binary: Option<Binary>, state: UpdateState) {
    && binary == prior
    && (was.None? ==> service.None?)
    && (was.Some? && !was.value.deleting && state.usedProtectedBinary ==>
          service == Some(Service(Protected, if state.wasRunning then Running else Stopped, false)))
    && (was.Some? && !was.value.deleting && !state.usedProtectedBinary ==> Idle(service))
  }

  /** `install` on Windows. */
  method Install(host: Host, source: Bytes)
    returns (report: Report, state: UpdateState, ghost prepared: nat, ghost undoing: nat, ghost left: Option<Service>)
    requires host.Tidy()
    modifies host
    // If no operation fails, it succeeds over whatever is safe, unless a service stays until the polls run out.
    ensures host.AllWell(old(host.clock), host.clock) && host.Honest(old(host.clock), host.clock)
            && (old(host.binary).None? || IsSafe(old(host.binary))) && Deletable(old(host.service)) ==>
              || report == Installed
              || (report == NotPrepared && host.Lingers(STOP_POLLS, host.clock))
              || host.OutlastsDeletion(old(host.clock), host.clock)
    ensures report == Installed ==>
              && host.service == Some(Service(Protected, Running, false))
              && host.binary == Some(Binary(source, true)) && host.backup == None
              && undoing > 0 && host.faults(undoing - 1) == NoFault
    ensures report.Compensated() ==>
              PutBack(old(host.service), old(host.binary), host.service, host.binary, state) && host.backup == None
    ensures report.Compensated() && report.NotInstalled? ==> host.directories == old(host.directories)
    ensures report.Compensated() && report.NotInstalled? && report.changed && !state.usedProtectedBinary ==>
              host.service.None?
    // The undoing, or the commit once the service was reached, begins at operation `undoing`, with `left` for a
    // service. If none of its operations fails, the prior binary is back, and all there was is put back unless the
    // service left cannot be removed.
    ensures report.NotInstalled? || report.NotBegun? ==>
              old(host.clock) <= prepared <= undoing <= host.clock
    ensures report.NotInstalled? && host.AllWell(undoing, host.clock) ==>
              host.binary == old(host.binary) && host.backup == None
    ensures report.NotInstalled? && !report.Compensated() && Deletable(old(host.service))
            && host.AllWell(undoing, host.clock) ==>
              report.changed && host.Outstays(left, undoing, host.clock)
    ensures report.NotInstalled? && report.changed && host.AllWell(undoing, host.clock)
            && left.Some? && left.value.deleting && host.Outstays(left, undoing, host.clock) ==>
              !report.Compensated()
    ensures report.NotInstalled? && Deletable(old(host.service)) && !Deletable(left) ==>
              !host.AllWell(prepared, undoing) || host.OutlastsDeletion(prepared, undoing)
    ensures report.NotBegun? && report.unwound && Deletable(old(host.service)) && host.AllWell(undoing, host.clock) ==>
              report.restored
    ensures report.NotBegun? && host.AtMostOneFault(prepared, undoing) ==> report.unwound
    ensures report == NotCommitted ==> !host.AllWell(undoing, host.clock)
    // What preparation recorded about the service is what there was.
    ensures report != NotPrepared ==>
              && (old(host.service).Some? && old(host.service).value == Service(Protected, Running, false) ==>
                  state.wasRunning)
              && (state.wasRunning ==> old(host.service).Some? && old(host.service).value.run != Stopped)
              && (UsesProtectedBinary(old(host.service), old(host.binary)) ==>
                    (state.usedProtectedBinary <==> host.faults(old(host.clock) + VALIDATION) == NoFault))
    // A protected service is as before exactly if that validation did not fail, or the service was stopped and not
    // touched.
    ensures report.Compensated() && UsesProtectedBinary(old(host.service), old(host.binary))
            && Steady(old(host.service)) ==>
              (host.service == old(host.service) <==>
                 || host.faults(old(host.clock) + VALIDATION) == NoFault
                 || (old(host.service).value.run == Stopped && !(report.NotInstalled? && report.changed)))
    // A preparation that fails is not compensated: nothing but the service changes, and that may be left stopped.
    ensures report == NotPrepared ==>
              && host.binary == old(host.binary) && host.backup == old(host.backup)
              && host.directories == old(host.directories)
              && host.visited == old(host.visited) && Lessened(old(host.service), host.service)
    ensures WillBeAsked(host.faults, old(host.service), old(host.clock)) ==>
              var last := old(host.clock) + VALIDATION + 4;
              var left := Some(old(host.service).value.(run := if host.settles(last) then Stopped else StopPending));
              && (host.faults(last) != NoFault ==> report == NotPrepared && host.service == left)
              && (host.faults(last) == NoFault && host.settles(last) ==> report != NotPrepared && prepared == last + 1)
    ensures report != NotPrepared && host.faults(prepared) != NoFault ==> report.NotBegun? && report.unwound
    ensures report.NotBegun? && !state.usedProtectedBinary ==> report.restored
    ensures report.NotBegun? && !state.usedProtectedBinary && old(host.service).Some? && Steady(old(host.service)) ==>
              host.service == Some(old(host.service).value.(run := Stopped))
    // Whatever fails, the prior binary is at one of the two paths until the new one is committed.
    ensures forall slots :: slots in host.visited && slots !in old(host.visited) ==>
              Keeps(slots, old(host.binary)) || (report == Installed && slots == (Some(Binary(source, true)), None))
    // The binary of a running service changes only if the service could not be removed, or the commit failed.
    ensures host.disturbed ==>
              old(host.disturbed) || report == NotCommitted || (report.NotInstalled? && !report.removed)
  {
    ghost var prior, before := host.binary, host.directories;
    state := UpdateState(false, false, false);
    var recorded := Prepare(host);
    prepared, undoing, left := host.clock, host.clock, host.service;
    if recorded.None? {
      return NotPrepared, state, prepared, undoing, left;
    }
    state := recorded.value;
    report, undoing, left := InstallPrepared(host, source, state, prior, before);
  }

  /** The installation over a service that is stopped or not there. */
  method InstallPrepared(host: Host, source: Bytes, state: UpdateState, ghost prior: Option<Binary>, ghost before: nat)
    returns (report: Report, ghost undoing: nat, ghost left: Option<Service>)
    requires host.Tidy() && prior == host.binary && before == host.directories && Idle(host.service)
    requires state.usedProtectedBinary ==> IsSafe(prior)
    modifies host
    ensures report != NotPrepared && old(host.clock) <= undoing <= host.clock
    ensures host.AllWell(old(host.clock), host.clock) && host.Honest(old(host.clock), host.clock)
            && (prior.None? || IsSafe(prior)) && Deletable(old(host.service)) ==>
              report == Installed || host.OutlastsDeletion(old(host.clock), host.clock)
    ensures report == Installed ==>
              && host.service == Some(Service(Protected, Running, false))
              && host.binary == Some(Binary(source, true)) && host.backup == None
              && undoing > 0 && host.faults(undoing - 1) == NoFault
    ensures report == NotCommitted ==> !host.AllWell(undoing, host.clock)
    ensures report.Compensated() ==> host.binary == prior && host.backup == None
    ensures report.Compensated() && report.NotInstalled? ==> host.directories == before
    ensures report.Compensated() && state.wasInstalled && state.usedProtectedBinary
            && ((report.NotInstalled? && report.changed)
                || old(host.service) == Some(Service(Protected, Stopped, false))) ==>
              host.service == Some(Service(Protected, if state.wasRunning then Running else Stopped, false))
    ensures report.Compensated() && !(state.wasInstalled && state.usedProtectedBinary) ==>
              if report.NotInstalled? && report.changed then host.service.None?
              else Idle(host.service) && (Steady(old(host.service)) ==> host.service == old(host.service))
    ensures report.NotInstalled? ==>
              && (host.AllWell(undoing, host.clock) ==> host.binary == prior && host.backup == None)
              && (Deletable(old(host.service)) && !Deletable(left) ==>
                  !host.AllWell(old(host.clock), undoing) || host.OutlastsDeletion(old(host.clock), undoing))
    ensures !report.Compensated() && report.NotInstalled? && host.AllWell(undoing, host.clock)
            && Steady(old(host.service)) && CanBeRestored(old(host.service), prior, state, false) ==>
              report.changed && host.Outstays(left, undoing, host.clock)
    ensures report.NotInstalled? && report.changed && host.AllWell(undoing, host.clock)
            && left.Some? && left.value.deleting && host.Outstays(left, undoing, host.clock) ==>
              !report.Compensated()
    ensures report.NotBegun? && report.unwound && host.AllWell(undoing, host.clock)
            && Steady(old(host.service)) && CanBeRestored(old(host.service), prior, state, false) ==>
              report.restored
    ensures report.NotBegun? && host.AtMostOneFault(old(host.clock), undoing) ==> report.unwound
    ensures host.faults(old(host.clock)) != NoFault ==> report.NotBegun? && report.unwound
    ensures report.NotBegun? && !state.usedProtectedBinary ==>
              report.restored && (Steady(old(host.service)) ==> host.service == old(host.service))
    ensures forall slots :: slots in host.visited && slots !in old(host.visited) ==>
              Keeps(slots, prior) || (report == Installed && slots == (Some(Binary(source, true)), None))
    ensures host.disturbed ==>
              old(host.disturbed) || report == NotCommitted || (report.NotInstalled? && !report.removed)
  {
    var update, unwound := BeginUpdate(host, source, prior, before);
    undoing, left := host.clock, host.service;
    if update == null {
      var restored := Restore(host, state, false);
      return NotBegun(unwound, restored), undoing, left;
    }
    var configured, changed := ConfigureService(host);
    undoing, left := host.clock, host.service;
    if configured {
      var committed := update.Commit(host, prior, before);
      return if committed then Installed else NotCommitted, undoing, left;
    }
    report := UndoInstall(host, update, state, changed, prior, before);
  }

  /** The compensating steps of `install`, in order; each runs only if those before it succeeded. */
  method UndoInstall(host: Host, update: WindowsProtectedBinaryUpdate, state: UpdateState, changed: bool,
                     ghost prior: Option<Binary>, ghost before: nat)
    returns (report: Report)
    requires update.Published(host, prior, before) && !update.finished
    modifies host, update`finished
    ensures report.NotInstalled? && report.changed == changed
    ensures AllKeep(old(host.visited), host.visited, prior)
    ensures report.Compensated() ==> host.binary == prior && host.backup == None && host.directories == before
    ensures report.Compensated() && !(state.wasInstalled && state.usedProtectedBinary) && changed ==> host.service.None?
    ensures report.Compensated() && !(state.wasInstalled && state.usedProtectedBinary) && !changed
            && old(Steady(host.service)) ==>
              host.service == old(host.service)
    ensures report.Compensated() && !(state.wasInstalled && state.usedProtectedBinary) && !changed
            && old(Idle(host.service)) ==>
              Idle(host.service)
    ensures report.Compensated() && state.wasInstalled && state.usedProtectedBinary
            && (changed || old(host.service) == Some(Service(Protected, Stopped, false))) ==>
              host.service == Some(Service(Protected, if state.wasRunning then Running else Stopped, false))
    ensures host.disturbed && (changed || old(Idle(host.service))) ==> old(host.disturbed) || !report.removed
    ensures host.clock > old(host.clock)
    // If none of its operations fails, the binary is back whatever becomes of the service.
    ensures host.AllWell(old(host.clock), host.clock) ==> host.binary == prior && host.backup == None
    // Then everything is put back, unless the service in the way cannot be removed.
    ensures !report.Compensated() && host.AllWell(old(host.clock), host.clock)
            && CanBeRestored(old(host.service), prior, state, changed) ==>
              changed && host.Outstays(old(host.service), old(host.clock), host.clock)
    ensures changed && host.AllWell(old(host.clock), host.clock)
            && old(host.service).Some? && old(host.service).value.deleting
            && host.Outstays(old(host.service), old(host.clock), host.clock) ==>
              !report.Compensated()
  {
    // Removing the firewall rule, whose failure is ignored.
    var _ := host.Attempt();
    if changed {
      var removed := DeleteIfExists(host);
      if !removed {
        update.Drop(host, prior, before);
        return NotInstalled(changed, false, false, false);
      }
    }
    var rolledBack := update.Rollback(host, prior, before);
    var restored := true;
    if rolledBack {
      restored := Restore(host, state, changed);
    }
    return NotInstalled(changed, true, rolledBack, restored);
  }

  // ---------- Two failing inputs ----------

  /**
   * A running service that uses the protected binary, a validation that fails once, and a source that
   * cannot be inspected: every compensating step succeeds, and the service is left stopped.
   */
  method FailedValidationForgetsTheService(host: Host, source: Bytes) returns (report: Report)
    requires host.Tidy() && host.service == Some(Service(Protected, Running, false))
    requires host.binary.Some? && host.binary.value.safe
    requires forall n :: host.faults(n) == if n in {host.clock + 4, host.clock + 9} then Failed else NoFault
    requires forall n :: host.settles(n)
    modifies host
    ensures report.Compensated() && host.service == Some(Service(Protected, Stopped, false))
    ensures host.binary == old(host.binary)
  {
    var state;
    ghost var prepared, undoing, left;
    report, state, prepared, undoing, left := Install(host, source);
  }

  /** A query that fails after the service was asked to stop ends the installation with the service stopped. */
  method FailedQueryLeavesTheServiceStopped(host: Host, source: Bytes) returns (report: Report)
    requires host.Tidy() && host.service == Some(Service(Protected, Running, false))
    requires forall n :: host.faults(n) == if n == host.clock + 8 then Failed else NoFault
    requires forall n :: host.settles(n)
    modifies host
    ensures report == NotPrepared && host.service == Some(Service(Protected, Stopped, false))
  {
    var state;
    ghost var prepared, undoing, left;
    report, state, prepared, undoing, left := Install(host, source);
  }
}
