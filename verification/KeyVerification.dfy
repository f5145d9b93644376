// Shutdown-key verification in src/proxy_server.rs. Registry changes are atomic under the write
// lock; a verification is a snapshot, a network probe and a write-back, between which any other
// operation may run. Saves may fail, and every generated key is one never issued before.
module KeyVerification {
  import opened Common
  import opened Machines
  import opened MachineRegistry

  datatype SetupStatus = Disabled | Legacy | Pending | Verified

  /** `shutdown_setup_for_machine`, without the command texts. */
  function Status(m: Machine): SetupStatus {
    if !m.ShutdownEnabled() then Disabled
    else if m.shutdownAuthKey.None? then Legacy
    else if m.shutdownAuthVerified then Verified
    else Pending
  }

  /** What a verification carries from its snapshot to its write-back. */
  datatype Probe = Probe(mac: string, ip: u32, port: u16, key: string)

  datatype SnapshotResult = Unregistered | Settled(status: SetupStatus) | MustProbe(probe: Probe)

  datatype WriteBackResult = Gone | Reported(status: SetupStatus) | NotPersisted

  function SnapshotOf(machines: seq<Machine>, mac: string): SnapshotResult {
    match IndexOf(machines, mac)
    case None => Unregistered
    case Some(index) =>
      var m := machines[index];
      if Status(m) != Pending then Settled(Status(m))
      else MustProbe(Probe(mac, m.ip, m.turnOffPort.value, m.shutdownAuthKey.value))
  }

  /** The entry a write-back would mark: the one under the probed address, if it still has the probed key. */
  function Target(machines: seq<Machine>, probe: Probe): Option<nat> {
    var index := IndexOf(machines, probe.mac);
    if index.Some? && machines[index.value].shutdownAuthKey == Some(probe.key) then index else None
  }

  function WrittenBack(machines: seq<Machine>, probe: Probe, saved: bool): seq<Machine> {
    match Target(machines, probe)
    case None => machines
    case Some(index) =>
      if saved then machines[index := machines[index].(shutdownAuthVerified := true)] else machines
  }

  /** The entry at `i` is the first one under the address. */
  predicate IsFirstUnder(machines: seq<Machine>, mac: string, i: nat) {
    i < |machines| && machines[i].mac == mac && forall j :: 0 <= j < i ==> machines[j].mac != mac
  }

  /** Probing such a machine can be of use: it may be shut down, has a key, and the key is not confirmed yet. */
  predicate AwaitsProof(m: Machine) {
    m.canBeTurnedOff && m.turnOffPort.Some? && m.shutdownAuthKey.Some? && !m.shutdownAuthVerified
  }

  /** A probe carries the endpoint and key of the machine as it is. */
  predicate Describes(probe: Probe, m: Machine) {
    probe.mac == m.mac && probe.ip == m.ip && m.turnOffPort == Some(probe.port) && m.shutdownAuthKey == Some(probe.key)
  }

  /** What a status tells of a machine. */
  predicate Tells(status: SetupStatus, m: Machine) {
    var enabled := m.canBeTurnedOff && m.turnOffPort.Some?;
    && (status == Disabled <==> !enabled)
    && (status == Legacy <==> enabled && m.shutdownAuthKey.None?)
    && (status == Pending <==> enabled && m.shutdownAuthKey.Some? && !m.shutdownAuthVerified)
    && (status == Verified <==> enabled && m.shutdownAuthKey.Some? && m.shutdownAuthVerified)
  }

  method VerifySnapshot(state: AppState, mac: string) returns (r: SnapshotResult)
    ensures r == SnapshotOf(state.machines, mac)
    // Unknown addresses are told apart, and of several entries the first decides.
    ensures r.Unregistered? <==> forall m :: m in state.machines ==> m.mac != mac
    ensures !r.Unregistered? ==> exists i: nat :: IsFirstUnder(state.machines, mac, i)
    // Exactly a machine that awaits proof is probed, at its own endpoint and with its own key.
    ensures forall i: nat :: IsFirstUnder(state.machines, mac, i) ==> (r.MustProbe? <==> AwaitsProof(state.machines[i]))
    ensures forall i: nat :: IsFirstUnder(state.machines, mac, i) && r.MustProbe? ==>
              Describes(r.probe, state.machines[i])
    ensures r.Settled? ==> r.status != Pending
    ensures forall i: nat :: IsFirstUnder(state.machines, mac, i) && r.Settled? ==> Tells(r.status, state.machines[i])
  {
    IndexIsFirst(state.machines, mac);
    var position := IndexOf(state.machines, mac);
    if position.None? {
      return Unregistered;
    }
    var machine := state.machines[position.value];
    if Status(machine) != Pending {
      return Settled(Status(machine));
    }
    return MustProbe(Probe(mac, machine.ip, machine.turnOffPort.value, machine.shutdownAuthKey.value));
  }

  lemma {:induction false} IndexIsFirst(machines: seq<Machine>, mac: string)
    ensures IndexOf(machines, mac).None? <==> forall m :: m in machines ==> m.mac != mac
    ensures forall i: nat :: IsFirstUnder(machines, mac, i) <==> IndexOf(machines, mac) == Some(i)
  {
    match IndexOf(machines, mac)
    case None =>
      assert forall i: nat :: i < |machines| ==> machines[i] in machines && machines[i].mac != mac;
    case Some(k) =>
      assert machines[k] in machines;
      forall i: nat | IsFirstUnder(machines, mac, i)
        ensures i == k
      {
        assert !(i < k) && !(k < i);
      }
  }

  /** A verification nothing interferes with: the probe finds its machine, which then is settled as verified. */
  lemma UndisturbedVerificationSettles(machines: seq<Machine>, mac: string)
    requires SnapshotOf(machines, mac).MustProbe?
    ensures var probe := SnapshotOf(machines, mac).probe;
            && Target(machines, probe) == IndexOf(machines, mac)
            && SnapshotOf(WrittenBack(machines, probe, true), mac) == Settled(Verified)
            && SnapshotOf(WrittenBack(machines, probe, false), mac) == MustProbe(probe)
  {
    var probe, index := SnapshotOf(machines, mac).probe, IndexOf(machines, mac).value;
    var after := WrittenBack(machines, probe, true);
    assert IsFirstUnder(machines, mac, index) by {
      IndexIsFirst(machines, mac);
    }
    IndexIsFirst(after, mac);
    assert IsFirstUnder(after, mac, index);
  }

  method VerifyWriteBack(state: AppState, probe: Probe, saved: bool) returns (r: WriteBackResult)
    modifies state`machines
    ensures state.machines == WrittenBack(old(state.machines), probe, saved)
    ensures r == Gone <==> IndexOf(old(state.machines), probe.mac).None?
    ensures r == NotPersisted <==> Target(old(state.machines), probe).Some? && !saved
    ensures r.Reported? ==> r.status == Status(state.machines[IndexOf(old(state.machines), probe.mac).value])
    // The first entry under the address becomes verified if it holds the probed key still and the save succeeds, and
    // the status is that of the entry as it now is.
    ensures r == Gone <==> forall m :: m in old(state.machines) ==> m.mac != probe.mac
    ensures forall i: nat :: IsFirstUnder(old(state.machines), probe.mac, i) ==>
              var m := old(state.machines)[i];
              var holds := m.shutdownAuthKey == Some(probe.key);
              && (r == NotPersisted <==> holds && !saved)
              && (r.Reported? ==> Tells(r.status, state.machines[i]))
              && state.machines == if holds && saved then old(state.machines)[i := m.(shutdownAuthVerified := true)]
                                   else old(state.machines)
    ensures old(state.Consistent()) ==> state.Consistent()
  {
    IndexIsFirst(state.machines, probe.mac);
    var position := IndexOf(state.machines, probe.mac);
    if position.None? {
      return Gone;
    }
    var index := position.value;
    if state.machines[index].shutdownAuthKey != Some(probe.key) {
      return Reported(Status(state.machines[index]));
    }
    var previous := state.machines[index].shutdownAuthVerified;
    state.machines := state.machines[index := state.machines[index].(shutdownAuthVerified := true)];
    var status := Status(state.machines[index]);
    if !saved {
      state.machines := state.machines[index := state.machines[index].(shutdownAuthVerified := previous)];
      assert state.machines == old(state.machines);
      return NotPersisted;
    }
    if old(state.Consistent()) {
      KeyChangeKeepsTables(state.turnOffLimiter.machines, old(state.machines), index, state.machines[index]);
    }
    return Reported(status);
  }

  /** A write-back changes nothing but one verification flag, so no concurrent change is lost. */
  lemma WriteBackLosesNoUpdate(machines: seq<Machine>, probe: Probe, saved: bool, i: nat)
    requires i < |machines|
    ensures |WrittenBack(machines, probe, saved)| == |machines|
    ensures var m := WrittenBack(machines, probe, saved)[i];
            || m == machines[i]
            || (&& saved && m == machines[i].(shutdownAuthVerified := true)
                && m.mac == probe.mac && m.shutdownAuthKey == Some(probe.key))
  {
  }

  // ---------- The interleaved protocol ----------

  /** A client at `ip:port` proved that it holds `key`. */
  datatype Confirmation = Confirmation(key: string, ip: u32, port: u16)

  /** One verification request between its snapshot and its end. */
  datatype Pass = Probing(probe: Probe) | AwaitingLock(probe: Probe)

  datatype State = State(
    machines: seq<Machine>,
    passes: map<nat, Pass>,
    confirmed: set<Confirmation>,
    issued: set<string>)

  datatype ProbeOutcome = Proven | KeyMismatch | Unreachable

  datatype Operation =
    | Add(payload: MachinePayload, freshKey: string, saved: bool)
    | Update(mac: string, payload: MachinePayload, freshKey: string, saved: bool)
    | Delete(mac: string, saved: bool)
    | Rotate(mac: string, freshKey: string, saved: bool)
    | Snapshot(pass: nat, mac: string)
    | Answer(pass: nat, outcome: ProbeOutcome)
    | WriteBack(pass: nat, saved: bool)

  /** A generated key is one that was never issued before. */
  predicate Fresh(s: State, op: Operation) {
    op.Add? || op.Update? || op.Rotate? ==> op.freshKey !in s.issued
  }

  ghost function Apply(s: State, op: Operation): State {
    match op
    case Add(payload, freshKey, saved) =>
      s.(machines := AddTo(s.machines, payload, freshKey, saved).0, issued := s.issued + {freshKey})
    case Update(mac, payload, freshKey, saved) =>
      s.(machines := UpdateIn(s.machines, mac, payload, freshKey, saved).0, issued := s.issued + {freshKey})
    case Delete(mac, saved) => s.(machines := DeleteFrom(s.machines, mac, saved).0)
    case Rotate(mac, freshKey, saved) =>
      s.(machines := RotateIn(s.machines, mac, freshKey, saved).0, issued := s.issued + {freshKey})
    case Snapshot(pass, mac) =>
      var r := SnapshotOf(s.machines, mac);
      if pass !in s.passes && r.MustProbe? then s.(passes := s.passes[pass := Probing(r.probe)]) else s
    case Answer(pass, outcome) =>
      if pass !in s.passes || !s.passes[pass].Probing? then s
      else if outcome != Proven then s.(passes := s.passes - {pass})
      else
        var probe := s.passes[pass].probe;
        s.(passes := s.passes[pass := AwaitingLock(probe)],
           confirmed := s.confirmed + {Confirmation(probe.key, probe.ip, probe.port)})
    case WriteBack(pass, saved) =>
      if pass !in s.passes || !s.passes[pass].AwaitingLock? then s
      else s.(passes := s.passes - {pass}, machines := WrittenBack(s.machines, s.passes[pass].probe, saved))
  }

  ghost predicate KeyConfirmed(s: State, key: string) {
    exists c :: c in s.confirmed && c.key == key
  }

  /** A verified machine has remote shutdown enabled and a key that some probe confirmed. */
  ghost predicate SoundlyVerified(s: State, m: Machine) {
    m.shutdownAuthVerified ==>
        m.ShutdownEnabled() && m.shutdownAuthKey.Some? && KeyConfirmed(s, m.shutdownAuthKey.value)
  }

  ghost predicate KeysIssued(s: State) {
    && (forall m :: m in s.machines && m.shutdownAuthKey.Some? ==> m.shutdownAuthKey.value in s.issued)
    && (forall pass :: pass in s.passes ==> s.passes[pass].probe.key in s.issued)
  }

  ghost predicate KeysDistinct(machines: seq<Machine>) {
    forall i, j :: 0 <= i < j < |machines| && machines[i].shutdownAuthKey.Some? ==>
      machines[i].shutdownAuthKey != machines[j].shutdownAuthKey
  }

  /** Keys are kept only while remote shutdown is enabled. */
  ghost predicate KeysOnlyWhenEnabled(machines: seq<Machine>) {
    forall m :: m in machines && m.shutdownAuthKey.Some? ==> m.ShutdownEnabled()
  }

  ghost predicate Sound(s: State) {
    && WellFormed(s.machines)
    && KeysIssued(s)
    && KeysDistinct(s.machines)
    && KeysOnlyWhenEnabled(s.machines)
    && (forall m :: m in s.machines ==> SoundlyVerified(s, m))
    && ProofsKept(s)
  }

  /** A verification waiting for the lock had its key confirmed at the endpoint it probed. */
  ghost predicate ProofsKept(s: State) {
    forall pass :: pass in s.passes && s.passes[pass].AwaitingLock? ==>
      var probe := s.passes[pass].probe;
      Confirmation(probe.key, probe.ip, probe.port) in s.confirmed
  }

  lemma AddKeepsSound(s: State, op: Operation)
    requires Sound(s) && op.Add? && Fresh(s, op)
    ensures Sound(Apply(s, op))
  {
    var s' := Apply(s, op);
    AddKeepsWellFormed(s.machines, op.payload, op.freshKey, op.saved);
    ConfirmationsLast(s, s');
    if s'.machines != s.machines {
      AppendKeepsSound(s, s', s'.machines[|s.machines|]);
    }
  }

  /** Appending an unverified entry keeps soundness when its key, if any, is newly issued. */
  lemma AppendKeepsSound(s: State, s': State, entry: Machine)
    requires Sound(s) && s'.machines == s.machines + [entry] && WellFormed(s'.machines)
    requires s'.confirmed == s.confirmed && s.issued <= s'.issued && s'.passes == s.passes
    requires !entry.shutdownAuthVerified && (entry.shutdownAuthKey.Some? ==> entry.ShutdownEnabled())
    requires entry.shutdownAuthKey.Some? ==> entry.shutdownAuthKey.value in s'.issued - s.issued
    ensures Sound(s')
  {
    ConfirmationsLast(s, s');
    forall m | m in s'.machines
      ensures SoundlyVerified(s', m) && (m.shutdownAuthKey.Some? ==>
                m.shutdownAuthKey.value in s'.issued && m.ShutdownEnabled())
    {
      assert m == entry || m in s.machines;
    }
    forall i, j | 0 <= i < j < |s'.machines| && s'.machines[i].shutdownAuthKey.Some?
      ensures s'.machines[i].shutdownAuthKey != s'.machines[j].shutdownAuthKey
    {
      assert s.machines[i] in s.machines;
    }
  }

  lemma ConfirmationsLast(s: State, s': State)
    requires s.confirmed <= s'.confirmed
    ensures forall key :: KeyConfirmed(s, key) ==> KeyConfirmed(s', key)
  {
  }

  lemma UpdateKeepsSound(s: State, op: Operation)
    requires Sound(s) && op.Update? && Fresh(s, op)
    ensures Sound(Apply(s, op))
  {
    var s' := Apply(s, op);
    UpdateKeepsWellFormed(s.machines, op.mac, op.payload, op.freshKey, op.saved);
    ConfirmationsLast(s, s');
    if s'.machines != s.machines {
      var index := IndexOf(s.machines, op.mac).value;
      ReplaceKeepsSound(s, s', index, s'.machines[index]);
    }
  }

  /** Replacing one entry keeps soundness when its key is its own or newly issued. */
  lemma ReplaceKeepsSound(s: State, s': State, index: nat, entry: Machine)
    requires Sound(s) && index < |s.machines|
    requires s'.machines == s.machines[index := entry] && WellFormed(s'.machines)
    requires s'.confirmed == s.confirmed && s.issued <= s'.issued && s'.passes == s.passes
    requires entry.shutdownAuthKey.Some? && entry.shutdownAuthKey != s.machines[index].shutdownAuthKey ==>
               entry.shutdownAuthKey.value in s'.issued - s.issued
    requires SoundlyVerified(s', entry) && (entry.shutdownAuthKey.Some? ==> entry.ShutdownEnabled())
    ensures Sound(s')
  {
    ConfirmationsLast(s, s');
    assert s.machines[index] in s.machines;
    forall m | m in s'.machines
      ensures SoundlyVerified(s', m) && (m.shutdownAuthKey.Some? ==>
                m.shutdownAuthKey.value in s'.issued && m.ShutdownEnabled())
    {
      assert m == entry || m in s.machines;
    }
    forall i, j | 0 <= i < j < |s'.machines| && s'.machines[i].shutdownAuthKey.Some?
      ensures s'.machines[i].shutdownAuthKey != s'.machines[j].shutdownAuthKey
    {
      assert s.machines[i] in s.machines && s.machines[j] in s.machines;
    }
  }

  lemma RotateKeepsSound(s: State, op: Operation)
    requires Sound(s) && op.Rotate? && Fresh(s, op)
    ensures Sound(Apply(s, op))
  {
    var s' := Apply(s, op);
    RotateKeepsWellFormed(s.machines, op.mac, op.freshKey, op.saved);
    ConfirmationsLast(s, s');
    if s'.machines != s.machines {
      var index := IndexOf(s.machines, op.mac).value;
      ReplaceKeepsSound(s, s', index, s'.machines[index]);
    }
  }

  lemma WriteBackKeepsSound(s: State, op: Operation)
    requires Sound(s) && op.WriteBack?
    ensures Sound(Apply(s, op))
  {
    var s' := Apply(s, op);
    if op.pass in s.passes && s.passes[op.pass].AwaitingLock? {
      var probe := s.passes[op.pass].probe;
      var target := Target(s.machines, probe);
      var middle := s.(machines := WrittenBack(s.machines, probe, op.saved));
      if target.Some? && op.saved {
        var entry := middle.machines[target.value];
        KeyChangeKeepsWellFormed(s.machines, target.value, entry);
        assert s.machines[target.value] in s.machines;
        assert SoundlyVerified(middle, entry);
        ReplaceKeepsSound(s, middle, target.value, entry);
      }
      assert Sound(middle);
      ConfirmationsLast(middle, s');
    }
  }

  lemma {:induction false} WithoutKeepsKeysDistinct(machines: seq<Machine>, mac: string)
    requires KeysDistinct(machines)
    ensures KeysDistinct(Without(machines, mac))
  {
    if machines != [] {
      var rest := machines[1..];
      assert forall i, j :: 0 <= i < j < |rest| ==> rest[i] == machines[i + 1] && rest[j] == machines[j + 1];
      WithoutKeepsKeysDistinct(rest, mac);
      WithoutIsExact(rest, mac);
      if machines[0].shutdownAuthKey.Some? {
        HeadKeyIsUnique(machines);
      }
    }
  }

  lemma HeadKeyIsUnique(machines: seq<Machine>)
    requires KeysDistinct(machines) && machines != [] && machines[0].shutdownAuthKey.Some?
    ensures forall m :: m in machines[1..] ==> machines[0].shutdownAuthKey != m.shutdownAuthKey
  {
    forall m | m in machines[1..]
      ensures machines[0].shutdownAuthKey != m.shutdownAuthKey
    {
      var k :| 0 <= k < |machines| - 1 && machines[k + 1] == m;
    }
  }

  lemma DeleteKeepsSound(s: State, op: Operation)
    requires Sound(s) && op.Delete?
    ensures Sound(Apply(s, op))
  {
    WithoutKeepsWellFormed(s.machines, op.mac);
    WithoutKeepsKeysDistinct(s.machines, op.mac);
    WithoutIsExact(s.machines, op.mac);
    ConfirmationsLast(s, Apply(s, op));
  }

  lemma ProbingKeepsSound(s: State, op: Operation)
    requires Sound(s) && (op.Snapshot? || op.Answer?)
    ensures Sound(Apply(s, op))
  {
    var s' := Apply(s, op);
    ConfirmationsLast(s, s');
    if op.Answer? && op.pass in s.passes && s.passes[op.pass].Probing? && op.outcome == Proven {
      var probe := s.passes[op.pass].probe;
      assert Confirmation(probe.key, probe.ip, probe.port) in s'.confirmed;
    }
  }

  /** Every operation, saved or not, in any interleaving, keeps the registry and its keys sound. */
  lemma StepKeepsSound(s: State, op: Operation)
    requires Sound(s) && Fresh(s, op)
    ensures Sound(Apply(s, op))
  {
    match op
    case Add(_, _, _) => AddKeepsSound(s, op);
    case Update(_, _, _, _) => UpdateKeepsSound(s, op);
    case Delete(_, _) => DeleteKeepsSound(s, op);
    case Rotate(_, _, _) => RotateKeepsSound(s, op);
    case WriteBack(_, _) => WriteBackKeepsSound(s, op);
    case _ => ProbingKeepsSound(s, op);
  }

  // ---------- Whole runs ----------

  ghost predicate Next(s: State, op: Operation, s': State) {
    Fresh(s, op) && s' == Apply(s, op)
  }

  ghost predicate IsRun(states: seq<State>, ops: seq<Operation>) {
    && |states| == |ops| + 1
    && Sound(states[0])
    && forall i :: 0 <= i < |ops| ==> Next(states[i], ops[i], states[i + 1])
  }

  /** In every reachable state: distinct six-byte addresses, unique ports, and no unearned verification. */
  lemma {:induction false} ReachableStatesAreSound(states: seq<State>, ops: seq<Operation>, n: nat)
    requires IsRun(states, ops) && n <= |ops|
    ensures Sound(states[n])
  {
    if n > 0 {
      ReachableStatesAreSound(states, ops, n - 1);
      assert Next(states[n - 1], ops[n - 1], states[n]);
      StepKeepsSound(states[n - 1], ops[n - 1]);
    }
  }

  /** The key was issued and no machine holds it any more. */
  ghost predicate Retired(s: State, key: string) {
    key in s.issued && forall m :: m in s.machines ==> m.shutdownAuthKey != Some(key)
  }

  lemma RetiredStaysRetired(s: State, op: Operation, s': State, key: string)
    requires Next(s, op, s') && Retired(s, key)
    ensures Retired(s', key)
  {
    match op
    case Add(payload, freshKey, saved) =>
      var after := AddTo(s.machines, payload, freshKey, saved).0;
      assert after == s.machines || after == s.machines + [after[|s.machines|]];
    case Update(mac, _, _, _) => ReplacementKeepsRetired(s, s', IndexOf(s.machines, mac), key);
    case Rotate(mac, _, _) => ReplacementKeepsRetired(s, s', IndexOf(s.machines, mac), key);
    case Delete(mac, _) => WithoutIsExact(s.machines, mac);
    case WriteBack(pass, _) =>
      if pass in s.passes {
        ReplacementKeepsRetired(s, s', IndexOf(s.machines, s.passes[pass].probe.mac), key);
      }
    case _ =>
  }

  /** At most one entry was replaced, by one without the key. */
  lemma ReplacementKeepsRetired(s: State, s': State, index: Option<nat>, key: string)
    requires Retired(s, key) && s.issued <= s'.issued && |s'.machines| == |s.machines|
    requires forall j :: 0 <= j < |s.machines| && Some(j) != index ==> s'.machines[j] == s.machines[j]
    requires index.Some? ==> index.value < |s.machines|
    requires index.Some? ==>
               var was, now := s.machines[index.value].shutdownAuthKey, s'.machines[index.value].shutdownAuthKey;
               now == was || now != Some(key)
    ensures Retired(s', key)
  {
    forall m | m in s'.machines
      ensures m.shutdownAuthKey != Some(key)
    {
      var j :| 0 <= j < |s'.machines| && s'.machines[j] == m;
      assert s.machines[j] in s.machines;
    }
  }

  /** A saved rotation of the machine that holds a key retires that key. */
  lemma RotationRetiresKey(s: State, op: Operation, s': State, key: string)
    requires Sound(s) && op.Rotate? && Next(s, op, s') && op.saved
    requires IndexOf(s.machines, op.mac).Some?
    requires s.machines[IndexOf(s.machines, op.mac).value].shutdownAuthKey == Some(key)
    ensures Retired(s', key)
  {
    var index := IndexOf(s.machines, op.mac).value;
    assert s.machines[index] in s.machines;
    forall m | m in s'.machines
      ensures m.shutdownAuthKey != Some(key)
    {
      var j :| 0 <= j < |s'.machines| && s'.machines[j] == m;
      assert j < index ==> s.machines[j].shutdownAuthKey != s.machines[index].shutdownAuthKey;
      assert index < j ==> s.machines[index].shutdownAuthKey != s.machines[j].shutdownAuthKey;
    }
  }

  lemma {:induction false} RetiredForever(states: seq<State>, ops: seq<Operation>, from: nat, to: nat, key: string)
    requires IsRun(states, ops) && from <= to <= |ops| && Retired(states[from], key)
    ensures Retired(states[to], key)
  {
    if from < to {
      RetiredForever(states, ops, from, to - 1, key);
      RetiredStaysRetired(states[to - 1], ops[to - 1], states[to], key);
    }
  }

  /**
   * Once a saved rotation has replaced the key a verification probed, that verification's
   * write-back changes no machine, whatever runs in between.
   */
  lemma RotationDefeatsOldProbe(states: seq<State>, ops: seq<Operation>, r: nat, w: nat, probe: Probe)
    requires IsRun(states, ops) && r < w < |ops|
    requires ops[r].Rotate? && ops[r].saved
    requires IndexOf(states[r].machines, ops[r].mac).Some?
    requires states[r].machines[IndexOf(states[r].machines, ops[r].mac).value].shutdownAuthKey == Some(probe.key)
    requires ops[w].WriteBack? && ops[w].pass in states[w].passes
    requires states[w].passes[ops[w].pass] == AwaitingLock(probe)
    ensures states[w + 1].machines == states[w].machines
  {
    ReachableStatesAreSound(states, ops, r);
    RotationRetiresKey(states[r], ops[r], states[r + 1], probe.key);
    RetiredForever(states, ops, r + 1, w, probe.key);
    assert Next(states[w], ops[w], states[w + 1]);
    var machines := states[w].machines;
    assert forall i :: 0 <= i < |machines| ==> machines[i] in machines;
  }

  // ---------- What the write-back does not check ----------

  /** The key was confirmed at the very address and port now registered with it. */
  ghost predicate EndpointConfirmed(s: State, m: Machine) {
    m.shutdownAuthVerified && m.shutdownAuthKey.Some? && m.turnOffPort.Some? ==>
      Confirmation(m.shutdownAuthKey.value, m.ip, m.turnOffPort.value) in s.confirmed
  }

  ghost predicate EndpointsConfirmed(s: State) {
    forall m :: m in s.machines ==> EndpointConfirmed(s, m)
  }

  /**
   * What could be checked under the lock before writing back, and is not: the machine with the
   * probed key is still at the probed endpoint, or verified already.
   */
  predicate WriteBackIsSafe(machines: seq<Machine>, probe: Probe) {
    match Target(machines, probe)
    case None => true
    case Some(index) =>
      var m := machines[index];
      m.shutdownAuthVerified || (m.ip == probe.ip && m.turnOffPort == Some(probe.port))
  }

  /** Some verification confirmed the key at the endpoint the machine with the probed key now has. */
  ghost predicate ConfirmedWhereItIs(s: State, probe: Probe) {
    match Target(s.machines, probe)
    case None => false
    case Some(index) =>
      var m := s.machines[index];
      m.turnOffPort.Some? && Confirmation(probe.key, m.ip, m.turnOffPort.value) in s.confirmed
  }

  /**
   * The write-back compares only the key. A saved one leaves every verified machine at an endpoint
   * its key was confirmed at exactly if the check it lacks would pass, or some other verification
   * happens to have confirmed the key where the machine now is.
   */
  lemma WriteBackKeepsEndpointsConfirmed(s: State, op: Operation)
    requires Sound(s) && EndpointsConfirmed(s)
    requires op.WriteBack? && op.saved && op.pass in s.passes && s.passes[op.pass].AwaitingLock?
    ensures var probe := s.passes[op.pass].probe;
            EndpointsConfirmed(Apply(s, op)) <==> WriteBackIsSafe(s.machines, probe) || ConfirmedWhereItIs(s, probe)
  {
    var probe := s.passes[op.pass].probe;
    var s' := Apply(s, op);
    assert Confirmation(probe.key, probe.ip, probe.port) in s.confirmed;
    match Target(s.machines, probe)
    case None =>
    case Some(index) =>
      assert s.machines[index] in s.machines && s'.machines[index] in s'.machines;
      forall m | m in s'.machines
        ensures m == s'.machines[index] || EndpointConfirmed(s', m)
      {
        var j :| 0 <= j < |s'.machines| && s'.machines[j] == m;
        assert s.machines[j] in s.machines;
      }
  }

  /** What a sound state says of the registry alone. */
  ghost predicate RegistrySound(machines: seq<Machine>) {
    && WellFormed(machines) && KeysDistinct(machines) && KeysOnlyWhenEnabled(machines)
    && forall m :: m in machines && m.shutdownAuthVerified ==> m.shutdownAuthKey.Some?
  }

  /** The state is sound, has this registry, and the verification waits for the lock with this probe. */
  ghost predicate Possible(s: State, machines: seq<Machine>, pass: nat, probe: Probe) {
    && Sound(s) && EndpointsConfirmed(s) && s.machines == machines
    && pass in s.passes && s.passes[pass] == AwaitingLock(probe)
  }

  /**
   * Of registry and probe alone, which is all a handler has, the missing check is exactly right:
   * it passes if and only if a saved write-back keeps the endpoints confirmed whatever came before.
   */
  lemma TheMissingCheckIsExact(machines: seq<Machine>, pass: nat, probe: Probe)
    requires RegistrySound(machines)
    ensures WriteBackIsSafe(machines, probe) <==>
              forall s :: Possible(s, machines, pass, probe) ==> EndpointsConfirmed(Apply(s, WriteBack(pass, true)))
  {
    forall s | Possible(s, machines, pass, probe) && WriteBackIsSafe(machines, probe)
      ensures EndpointsConfirmed(Apply(s, WriteBack(pass, true)))
    {
      WriteBackKeepsEndpointsConfirmed(s, WriteBack(pass, true));
    }
    if !WriteBackIsSafe(machines, probe) {
      var s := BareState(machines, pass, probe);
      BareStateIsPossible(machines, pass, probe);
      WriteBackKeepsEndpointsConfirmed(s, WriteBack(pass, true));
      NothingElseIsConfirmed(machines, pass, probe);
    }
  }

  ghost function ConfirmationsOf(machines: seq<Machine>): set<Confirmation> {
    set m | m in machines && m.shutdownAuthVerified && m.shutdownAuthKey.Some? && m.turnOffPort.Some? ::
      Confirmation(m.shutdownAuthKey.value, m.ip, m.turnOffPort.value)
  }

  ghost function KeysHeld(machines: seq<Machine>): set<string> {
    set m | m in machines && m.shutdownAuthKey.Some? :: m.shutdownAuthKey.value
  }

  /** The state with as little confirmed as its registry and its one verification allow. */
  ghost function BareState(machines: seq<Machine>, pass: nat, probe: Probe): State {
    State(machines, map[pass := AwaitingLock(probe)],
          ConfirmationsOf(machines) + {Confirmation(probe.key, probe.ip, probe.port)}, KeysHeld(machines) + {probe.key})
  }

  lemma BareStateIsPossible(machines: seq<Machine>, pass: nat, probe: Probe)
    requires RegistrySound(machines)
    ensures Possible(BareState(machines, pass, probe), machines, pass, probe)
  {
    var s := BareState(machines, pass, probe);
    forall m | m in machines
      ensures SoundlyVerified(s, m) && EndpointConfirmed(s, m)
    {
      if m.shutdownAuthVerified {
        assert m.ShutdownEnabled();
        assert Confirmation(m.shutdownAuthKey.value, m.ip, m.turnOffPort.value) in s.confirmed;
      }
    }
  }

  lemma NothingElseIsConfirmed(machines: seq<Machine>, pass: nat, probe: Probe)
    requires RegistrySound(machines) && !WriteBackIsSafe(machines, probe)
    ensures !ConfirmedWhereItIs(BareState(machines, pass, probe), probe)
  {
    var index := Target(machines, probe).value;
    var target := machines[index];
    forall m | m in machines && m.shutdownAuthVerified && m.shutdownAuthKey.Some?
      ensures m.shutdownAuthKey.value != probe.key
    {
      var j :| 0 <= j < |machines| && machines[j] == m;
      assert j != index;
      assert j < index ==> machines[j].shutdownAuthKey != target.shutdownAuthKey;
      assert index < j ==> target.shutdownAuthKey != machines[j].shutdownAuthKey;
    }
  }

  /** Every saved write-back of the run passes the check it lacks. */
  ghost predicate WriteBacksAreSafe(states: seq<State>, ops: seq<Operation>)
    requires |states| == |ops| + 1
  {
    forall i :: 0 <= i < |ops| && ops[i].WriteBack? && ops[i].saved && ops[i].pass in states[i].passes ==>
      WriteBackIsSafe(states[i].machines, states[i].passes[ops[i].pass].probe)
  }

  /** With that check, verified machines are at confirmed endpoints in every state of every run. */
  lemma {:induction false} SafeRunsKeepEndpointsConfirmed(states: seq<State>, ops: seq<Operation>, n: nat)
    requires IsRun(states, ops) && n <= |ops| && EndpointsConfirmed(states[0]) && WriteBacksAreSafe(states, ops)
    ensures EndpointsConfirmed(states[n])
  {
    if n > 0 {
      var s, op := states[n - 1], ops[n - 1];
      SafeRunsKeepEndpointsConfirmed(states, ops, n - 1);
      ReachableStatesAreSound(states, ops, n - 1);
      assert Next(s, op, states[n]);
      if !op.WriteBack? {
        OthersKeepEndpointsConfirmed(s, op);
      } else if op.saved && op.pass in s.passes && s.passes[op.pass].AwaitingLock? {
        WriteBackKeepsEndpointsConfirmed(s, op);
      }
    }
  }

  /** Every other operation keeps verified machines at confirmed endpoints. */
  lemma OthersKeepEndpointsConfirmed(s: State, op: Operation)
    requires Sound(s) && Fresh(s, op) && EndpointsConfirmed(s) && !op.WriteBack?
    ensures EndpointsConfirmed(Apply(s, op))
  {
    if op.Delete? {
      WithoutIsExact(s.machines, op.mac);
    } else {
      var s' := Apply(s, op);
      forall j | 0 <= j < |s'.machines|
        ensures EndpointConfirmed(s', s'.machines[j])
      {
        if j < |s.machines| {
          assert s.machines[j] in s.machines && EndpointConfirmed(s, s.machines[j]);
          OthersKeepEndpoint(s, op, j);
        } else {
          NewcomersAreUnverified(s, op, j);
        }
      }
    }
  }

  lemma NewcomersAreUnverified(s: State, op: Operation, j: nat)
    requires !op.Delete? && |s.machines| <= j < |Apply(s, op).machines|
    ensures !Apply(s, op).machines[j].shutdownAuthVerified
  {
  }

  lemma OthersKeepEndpoint(s: State, op: Operation, j: nat)
    requires j < |s.machines| && EndpointConfirmed(s, s.machines[j]) && !op.WriteBack? && !op.Delete?
    ensures j < |Apply(s, op).machines| && EndpointConfirmed(Apply(s, op), Apply(s, op).machines[j])
  {
    match op
    case Add(payload, freshKey, saved) =>
      assert AddTo(s.machines, payload, freshKey, saved).0[j] == s.machines[j];
    case Update(mac, payload, freshKey, saved) =>
      assert IndexOf(s.machines, mac) != Some(j) ==>
          UpdateIn(s.machines, mac, payload, freshKey, saved).0[j] == s.machines[j];
    case Rotate(mac, freshKey, saved) =>
      assert IndexOf(s.machines, mac) != Some(j) ==> RotateIn(s.machines, mac, freshKey, saved).0[j] == s.machines[j];
    case _ =>
  }

  /** A machine moved between probe and write-back ends verified at an address nobody probed. */
  lemma MovedMachineIsVerified(m: Machine, key: string, port: u16, elsewhere: u32)
    requires MachineOk(m) && m.canBeTurnedOff && m.turnOffPort == Some(port)
    requires m.shutdownAuthKey == Some(key) && !m.shutdownAuthVerified && elsewhere != m.ip
    ensures var payload :=
              MachinePayload(m.mac, Ipv4(elsewhere), "n", None, Some(port), true, None, Some(m.portForwards));
            var s0 := State([m], map[], {}, {key});
            var s1 := Apply(s0, Snapshot(0, m.mac));
            var s2 := Apply(s1, Answer(0, Proven));
            var s3 := Apply(s2, Update(m.mac, payload, key + "2", true));
            var s4 := Apply(s3, WriteBack(0, true));
            && Sound(s0) && EndpointsConfirmed(s0)
            && |s4.machines| == 1 && s4.machines[0].ip == elsewhere && s4.machines[0].shutdownAuthVerified
            && !EndpointsConfirmed(s4)
  {
    var payload := MachinePayload(m.mac, Ipv4(elsewhere), "n", None, Some(port), true, None, Some(m.portForwards));
    var s0 := State([m], map[], {}, {key});
    var probe := Probe(m.mac, m.ip, port, key);
    assert m in s0.machines && WellFormed(s0.machines);
    var s1 := Apply(s0, Snapshot(0, m.mac));
    var s2 := Apply(s1, Answer(0, Proven));
    SoleMachineIsProbed(m, key, port);
    SoleMachineMayMove(m, payload);
    var s3 := Apply(s2, Update(m.mac, payload, key + "2", true));
    assert s3.machines[0].ip == elsewhere && s3.machines[0].shutdownAuthKey == Some(key);
    var s4 := Apply(s3, WriteBack(0, true));
    assert s4.machines[0] in s4.machines && s4.machines[0].shutdownAuthVerified;
    assert !EndpointConfirmed(s4, s4.machines[0]);
  }

  lemma SoleMachineIsProbed(m: Machine, key: string, port: u16)
    requires MachineOk(m) && m.canBeTurnedOff && m.turnOffPort == Some(port)
    requires m.shutdownAuthKey == Some(key) && !m.shutdownAuthVerified
    ensures var probe := Probe(m.mac, m.ip, port, key);
            Apply(Apply(State([m], map[], {}, {key}), Snapshot(0, m.mac)), Answer(0, Proven)) ==
              State([m], map[0 := AwaitingLock(probe)], {Confirmation(key, m.ip, port)}, {key})
  {
    var probe := Probe(m.mac, m.ip, port, key);
    var s1 := Apply(State([m], map[], {}, {key}), Snapshot(0, m.mac));
    assert s1 == State([m], map[0 := Probing(probe)], {}, {key});
    assert Apply(s1, Answer(0, Proven)).confirmed == {Confirmation(key, m.ip, port)};
  }

  lemma SoleMachineMayMove(m: Machine, payload: MachinePayload)
    requires MachineOk(m)
    requires payload.mac == m.mac && payload.ip.Ipv4? && payload.name == "n"
    requires payload.portForwards == Some(m.portForwards)
    requires TurnOffPortOk(payload.turnOffPort, payload.canBeTurnedOff)
    ensures Acceptable(FromPayload(payload), [m], Some(m.mac))
  {
    assert payload.name[0] == 'n';
  }
}
