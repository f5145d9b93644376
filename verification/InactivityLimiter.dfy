// The turn-off limiter of src/forward.rs: a timed state machine shared by connection tasks,
// configuration changes and any number of monitors. Every critical section under the mutex is
// one event, and each event carries the clock reading its task took, however stale.
module InactivityLimiter {
  import opened Common
  import opened Machines

  const NANOS_PER_SECOND: nat := 1_000_000_000

  datatype MachineConfig = MachineConfig(
    ip: u32,
    window: nat,
    turnOffPort: u16,
    shutdownAuthKey: Option<string>,
    triggered: bool,
    lastRequest: nat)

  datatype Signal = Signal(ip: u32, turnOffPort: u16, mac: string, shutdownAuthKey: Option<string>)

  /** `saturating_mul(60)` on `u32`, as nanoseconds: so many minutes, but at most `u32::MAX` seconds. */
  function Window(minutes: u32): (nanoseconds: nat)
    ensures minutes <= 71_582_788 ==> nanoseconds == minutes * 60_000_000_000
    ensures minutes > 71_582_788 ==> nanoseconds == 4_294_967_295_000_000_000
  {
    (if minutes * 60 <= MAX_U32 then minutes * 60 else MAX_U32) * NANOS_PER_SECOND
  }

  predicate Watched(machine: Machine) {
    machine.canBeTurnedOff && machine.inactivityPeriod != 0
  }

  function Fresh(machine: Machine, port: u16, now: nat): MachineConfig {
    MachineConfig(machine.ip, Window(machine.inactivityPeriod), port, machine.shutdownAuthKey, false, now)
  }

  /** `duration_since` saturates when the reading is older than the recorded request. */
  function QuietTime(now: nat, lastRequest: nat): nat {
    if now >= lastRequest then now - lastRequest else 0
  }

  predicate Overdue(config: MachineConfig, now: nat) {
    QuietTime(now, config.lastRequest) > config.window
  }

  datatype Event =
    | Initialize(machine: Machine, port: u16, now: nat)
    | Update(machine: Machine, port: u16)
    | Remove(mac: string)
    | Request(mac: string, now: nat)
    | Tick(now: nat)

  /** What one event does to the entry of one machine. */
  function After(config: Option<MachineConfig>, mac: string, e: Event): Option<MachineConfig> {
    match e
    case Initialize(machine, port, now) =>
      if machine.mac != mac then config
      else if Watched(machine) then Some(Fresh(machine, port, now)) else None
    case Update(machine, port) =>
      if machine.mac != mac then config
      else if Watched(machine) && config.Some? then Some(Fresh(machine, port, config.value.lastRequest)) else None
    case Remove(removed) => if removed == mac then None else config
    case Request(requested, now) =>
      if requested == mac && config.Some? then Some(config.value.(lastRequest := now, triggered := false)) else config
    case Tick(now) =>
      if config.Some? && Overdue(config.value, now) then Some(config.value.(triggered := true)) else config
  }

  function AfterAll(config: Option<MachineConfig>, mac: string, events: seq<Event>): Option<MachineConfig> {
    if events == [] then config
    else After(AfterAll(config, mac, events[..|events| - 1]), mac, events[|events| - 1])
  }

  predicate Fires(config: Option<MachineConfig>, now: nat) {
    config.Some? && Overdue(config.value, now) && !config.value.triggered
  }

  function Lookup(machines: map<string, MachineConfig>, mac: string): Option<MachineConfig> {
    if mac in machines then Some(machines[mac]) else None
  }

  ghost predicate Advances(before: map<string, MachineConfig>, e: Event, after: map<string, MachineConfig>) {
    forall mac :: Lookup(after, mac) == After(Lookup(before, mac), mac, e)
  }

  class TurnOffLimiter {
    var machines: map<string, MachineConfig>

    constructor ()
      ensures machines == map[]
    {
      machines := map[];
    }

    method InitializeMachine(machine: Machine, turnOffPort: u16, now: nat)
      modifies this
      ensures Advances(old(machines), Initialize(machine, turnOffPort, now), machines)
    {
      if !machine.canBeTurnedOff || machine.inactivityPeriod == 0 {
        RemoveMachine(machine.mac);
        return;
      }
      var config :=
          MachineConfig(machine.ip, Window(machine.inactivityPeriod), turnOffPort, machine.shutdownAuthKey, false, now);
      machines := machines[machine.mac := config];
    }

    /** The first critical section of an update: the entry is removed, changed in place, or found missing. */
    method UpdateEntry(machine: Machine, turnOffPort: u16) returns (missing: bool)
      modifies this
      ensures Advances(old(machines), Update(machine, turnOffPort), machines)
      ensures missing <==> Watched(machine) && machine.mac !in old(machines)
    {
      if !machine.canBeTurnedOff || machine.inactivityPeriod == 0 {
        RemoveMachine(machine.mac);
        return false;
      }
      if machine.mac in machines {
        var config := machines[machine.mac];
        config := config.(ip := machine.ip, window := Window(machine.inactivityPeriod), turnOffPort := turnOffPort);
        config := config.(shutdownAuthKey := machine.shutdownAuthKey, triggered := false);
        machines := machines[machine.mac := config];
        return false;
      }
      return true;
    }

    /** A missing entry is made only after the lock was given up, so other tasks may run `between`. */
    method UpdateMachine(machine: Machine, turnOffPort: u16, between: seq<Event>, now: nat)
      modifies this
      ensures var events := if Watched(machine) && machine.mac !in old(machines)
                            then [Update(machine, turnOffPort)] + between + [Initialize(machine, turnOffPort, now)]
                            else [Update(machine, turnOffPort)];
              forall mac :: Lookup(machines, mac) == AfterAll(Lookup(old(machines), mac), mac, events)
    {
      ghost var events := [Update(machine, turnOffPort)];
      var missing := UpdateEntry(machine, turnOffPort);
      if missing {
        for i := 0 to |between|
          invariant events == [Update(machine, turnOffPort)] + between[..i]
          invariant forall mac :: Lookup(machines, mac) == AfterAll(Lookup(old(machines), mac), mac, events)
        {
          Perform(between[i]);
          events := events + [between[i]];
        }
        InitializeMachine(machine, turnOffPort, now);
        assert between[..|between|] == between;
        events := events + [Initialize(machine, turnOffPort, now)];
      }
    }

    /** One event of whatever task. */
    method Perform(e: Event)
      modifies this
      ensures Advances(old(machines), e, machines)
    {
      match e
      case Initialize(machine, port, now) => InitializeMachine(machine, port, now);
      case Update(machine, port) => var _ := UpdateEntry(machine, port);
      case Remove(mac) => RemoveMachine(mac);
      case Request(mac, now) => UpdateLastRequest(mac, now);
      case Tick(now) => var _ := MonitorTick(now);
    }

    method RemoveMachine(mac: string)
      modifies this
      ensures Advances(old(machines), Remove(mac), machines)
    {
      machines := machines - {mac};
    }

    method UpdateLastRequest(mac: string, now: nat)
      modifies this
      ensures Advances(old(machines), Request(mac, now), machines)
    {
      if mac in machines {
        machines := machines[mac := machines[mac].(lastRequest := now, triggered := false)];
      }
    }

    /** One monitor tick: `now` was sampled before the lock was taken. */
    method MonitorTick(now: nat) returns (signals: set<Signal>)
      modifies this
      ensures Advances(old(machines), Tick(now), machines)
      ensures signals == SignalsOf(old(machines), now)
    {
      signals := {};
      var unchecked := machines.Keys;
      ghost var before := machines;
      while unchecked != {}
        invariant unchecked <= before.Keys && machines.Keys == before.Keys
        invariant forall mac :: mac in unchecked ==> machines[mac] == before[mac]
        invariant forall mac :: mac in before && mac !in unchecked ==>
            Some(machines[mac]) == After(Some(before[mac]), mac, Tick(now))
        invariant signals == set mac | mac in before && mac !in unchecked && Fires(Some(before[mac]), now) ::
                    SignalOf(mac, before[mac])
      {
        var mac :| mac in unchecked;
        var config := machines[mac];
        if QuietTime(now, config.lastRequest) > config.window {
          machines := machines[mac := config.(triggered := true)];
          if !config.triggered {
            signals := signals + {Signal(config.ip, config.turnOffPort, mac, config.shutdownAuthKey)};
          }
        }
        unchecked := unchecked - {mac};
      }
    }
  }

  function SignalOf(mac: string, config: MachineConfig): Signal {
    Signal(config.ip, config.turnOffPort, mac, config.shutdownAuthKey)
  }

  /** The turn-off signals of a tick: one for every overdue machine that has not been signalled yet. */
  ghost function SignalsOf(machines: map<string, MachineConfig>, now: nat): set<Signal> {
    set mac | mac in machines && Fires(Some(machines[mac]), now) :: SignalOf(mac, machines[mac])
  }

  // ---------- Whole runs, machine by machine ----------

  /** The entry of `mac` after the first `n` events of a run. */
  function ConfigAt(events: seq<Event>, mac: string, n: nat): Option<MachineConfig>
    requires n <= |events|
  {
    if n == 0 then None else After(ConfigAt(events, mac, n - 1), mac, events[n - 1])
  }

  predicate Signals(events: seq<Event>, mac: string, j: int) {
    0 <= j < |events| && events[j].Tick? && Fires(ConfigAt(events, mac, j), events[j].now)
  }

  /** Event `i` puts a configuration of `mac` in force. */
  predicate Configures(events: seq<Event>, mac: string, i: int) {
    && 0 <= i < |events|
    && (events[i].Initialize? || (events[i].Update? && ConfigAt(events, mac, i).Some?))
    && events[i].machine.mac == mac && Watched(events[i].machine)
  }

  /** Event `i` ends the watch on `mac`. */
  predicate Clears(events: seq<Event>, mac: string, i: int) {
    && 0 <= i < |events|
    && (|| events[i] == Remove(mac)
        || ((events[i].Initialize? || events[i].Update?) && events[i].machine.mac == mac
            && !Watched(events[i].machine)))
  }

  /** Event `i` records a request time for `mac`. */
  predicate Records(events: seq<Event>, mac: string, i: int) {
    && 0 <= i < |events|
    && match events[i]
       case Initialize(_, _, _) => Configures(events, mac, i)
       case Request(requested, _) => requested == mac && ConfigAt(events, mac, i).Some?
       case _ => false
  }

  /** Event `i` allows `mac` to be signalled again. */
  predicate Rearms(events: seq<Event>, mac: string, i: int) {
    Configures(events, mac, i) || (Records(events, mac, i) && events[i].Request?)
  }

  predicate Touches(events: seq<Event>, mac: string, i: int) {
    Rearms(events, mac, i) || Clears(events, mac, i)
  }

  /** Of the first `n` events, `c` is the last to configure `mac`, and nothing has cleared it since. */
  predicate InForce(events: seq<Event>, mac: string, c: int, n: nat)
    requires n <= |events|
  {
    Configures(events, mac, c) && c < n && forall k :: c < k < n ==>
        !Configures(events, mac, k) && !Clears(events, mac, k)
  }

  /** The entry is as the event configured it, but for what traffic and ticks change. */
  predicate HoldsWhat(config: MachineConfig, e: Event)
    requires e.Initialize? || e.Update?
  {
    && config.ip == e.machine.ip && config.turnOffPort == e.port && config.shutdownAuthKey == e.machine.shutdownAuthKey
    && config.window == Window(e.machine.inactivityPeriod)
  }

  /** A machine is watched exactly while a configuration is in force, and its entry holds what the last one said. */
  lemma {:induction false} WatchedSinceConfigured(events: seq<Event>, mac: string, n: nat)
    requires n <= |events|
    ensures ConfigAt(events, mac, n).Some? <==> exists c :: InForce(events, mac, c, n)
    ensures forall c :: InForce(events, mac, c, n) ==> HoldsWhat(ConfigAt(events, mac, n).value, events[c])
  {
    if n > 0 {
      WatchedSinceConfigured(events, mac, n - 1);
      if Configures(events, mac, n - 1) {
        assert InForce(events, mac, n - 1, n);
      } else {
        forall c | 0 <= c < n
          ensures InForce(events, mac, c, n) <==> InForce(events, mac, c, n - 1) && !Clears(events, mac, n - 1)
        {
        }
        if ConfigAt(events, mac, n).Some? {
          var c :| InForce(events, mac, c, n - 1);
          assert InForce(events, mac, c, n);
        }
      }
    }
  }

  /** The event that recorded the request time in force after `n` events. */
  lemma {:induction false} RecordedBy(events: seq<Event>, mac: string, n: nat) returns (i: nat)
    requires n <= |events| && ConfigAt(events, mac, n).Some?
    ensures Records(events, mac, i) && i < n && events[i].now == ConfigAt(events, mac, n).value.lastRequest
    ensures forall k :: i < k < n ==> !Records(events, mac, k) && !Clears(events, mac, k)
  {
    if Records(events, mac, n - 1) {
      i := n - 1;
    } else {
      i := RecordedBy(events, mac, n - 1);
    }
  }

  /** The event that set the window in force after `n` events. */
  lemma {:induction false} ConfiguredBy(events: seq<Event>, mac: string, n: nat) returns (c: nat)
    requires n <= |events| && ConfigAt(events, mac, n).Some?
    ensures Configures(events, mac, c) && c < n
    ensures ConfigAt(events, mac, n).value.window == Window(events[c].machine.inactivityPeriod)
    ensures forall k :: c < k < n ==> !Configures(events, mac, k)
  {
    if Configures(events, mac, n - 1) {
      c := n - 1;
    } else {
      c := ConfiguredBy(events, mac, n - 1);
    }
  }

  /** A signal follows strictly more than the configured window since the last recorded request. */
  lemma SignalFollowsQuiet(events: seq<Event>, mac: string, j: int)
    requires Signals(events, mac, j)
    ensures exists i, c ::
              && Records(events, mac, i) && i < j
              && (forall k :: i < k < j ==> !Records(events, mac, k) && !Clears(events, mac, k))
              && Configures(events, mac, c) && c < j
              && (forall k :: c < k < j ==> !Configures(events, mac, k))
              && events[j].now > events[i].now + Window(events[c].machine.inactivityPeriod)
  {
    var i := RecordedBy(events, mac, j);
    var c := ConfiguredBy(events, mac, j);
    assert Records(events, mac, i) && Configures(events, mac, c);
  }

  /** Since an event that armed it, an untouched machine stays as that event left it, bar the flag. */
  lemma {:induction false} UntouchedSince(events: seq<Event>, mac: string, i: nat, n: nat)
    requires i < n <= |events| && Rearms(events, mac, i)
    requires forall k :: i < k < n ==> !Touches(events, mac, k)
    ensures ConfigAt(events, mac, i + 1).Some? && ConfigAt(events, mac, n).Some?
    ensures var armed := ConfigAt(events, mac, i + 1).value;
            && !armed.triggered
            && ConfigAt(events, mac, n).value ==
                 armed.(triggered := exists k :: i < k < n && events[k].Tick? && Overdue(armed, events[k].now))
  {
    if i + 1 < n {
      UntouchedSince(events, mac, i, n - 1);
      assert !Touches(events, mac, n - 1);
    }
  }

  /**
   * In the quiet stretch after an arming event, exactly the first tick sampled after the window
   * signals: however stale the other samples are, and whichever monitor takes them.
   */
  lemma FirstOverdueTickSignals(events: seq<Event>, mac: string, i: nat, j: nat)
    requires i < j < |events| && Rearms(events, mac, i) && events[j].Tick?
    requires forall k :: i < k < j ==> !Touches(events, mac, k)
    ensures ConfigAt(events, mac, i + 1).Some?
    ensures var armed := ConfigAt(events, mac, i + 1).value;
            Signals(events, mac, j) <==>
            && Overdue(armed, events[j].now)
            && forall k :: i < k < j && events[k].Tick? ==> !Overdue(armed, events[k].now)
  {
    UntouchedSince(events, mac, i, j);
  }

  /** Two signals for one machine are separated by an event that armed it again. */
  lemma SignalsAreSeparated(events: seq<Event>, mac: string, first: int, second: int)
    requires Signals(events, mac, first) && Signals(events, mac, second) && first < second
    ensures exists k :: first < k < second && Rearms(events, mac, k)
  {
    if forall k :: first < k < second ==> !Rearms(events, mac, k) {
      StaysTriggered(events, mac, first + 1, second);
    }
  }

  lemma {:induction false} StaysTriggered(events: seq<Event>, mac: string, from: nat, to: nat)
    requires from <= to <= |events|
    requires ConfigAt(events, mac, from).Some? ==> ConfigAt(events, mac, from).value.triggered
    requires forall k :: from <= k < to ==> !Rearms(events, mac, k)
    ensures ConfigAt(events, mac, to).Some? ==> ConfigAt(events, mac, to).value.triggered
  {
    if from < to {
      StaysTriggered(events, mac, from, to - 1);
      assert !Rearms(events, mac, to - 1);
    }
  }

  /** The number of signals for `mac` among the first `n` events, and of arming events. */
  function SignalCount(events: seq<Event>, mac: string, n: nat): nat
    requires n <= |events|
  {
    if n == 0 then 0 else SignalCount(events, mac, n - 1) + if Signals(events, mac, n - 1) then 1 else 0
  }

  function RearmCount(events: seq<Event>, mac: string, n: nat): nat
    requires n <= |events|
  {
    if n == 0 then 0 else RearmCount(events, mac, n - 1) + if Rearms(events, mac, n - 1) then 1 else 0
  }

  /** Signals never outnumber arming events; an armed machine still has one to spend. */
  lemma {:induction false} SignalsAreBudgeted(events: seq<Event>, mac: string, n: nat)
    requires n <= |events|
    ensures ConfigAt(events, mac, n).Some? && !ConfigAt(events, mac, n).value.triggered
            ==> SignalCount(events, mac, n) < RearmCount(events, mac, n)
    ensures SignalCount(events, mac, n) <= RearmCount(events, mac, n)
  {
    if n > 0 {
      SignalsAreBudgeted(events, mac, n - 1);
    }
  }

  ghost predicate IsRun(events: seq<Event>, states: seq<map<string, MachineConfig>>) {
    && |states| == |events| + 1
    && states[0] == map[]
    && forall i :: 0 <= i < |events| ==> Advances(states[i], events[i], states[i + 1])
  }

  /** A limiter that has gone through a run holds, for every machine, the entry the run gives it. */
  lemma {:induction false} RunsAgree(events: seq<Event>, states: seq<map<string, MachineConfig>>, n: nat)
    requires IsRun(events, states) && n <= |events|
    ensures forall mac :: Lookup(states[n], mac) == ConfigAt(events, mac, n)
  {
    if n > 0 {
      RunsAgree(events, states, n - 1);
      assert Advances(states[n - 1], events[n - 1], states[n]);
    }
  }

  /** The signals a tick of the limiter sends are those the run calls for, one for each machine. */
  lemma TicksSendTheSignals(events: seq<Event>, states: seq<map<string, MachineConfig>>, j: nat, mac: string)
    requires IsRun(events, states) && j < |events| && events[j].Tick?
    ensures Signals(events, mac, j) <==>
              exists signal :: signal in SignalsOf(states[j], events[j].now) && signal.mac == mac
    ensures forall a, b ::
              a in SignalsOf(states[j], events[j].now) && b in SignalsOf(states[j], events[j].now) && a.mac == b.mac
              ==> a == b
  {
    RunsAgree(events, states, j);
    assert Lookup(states[j], mac) == ConfigAt(events, mac, j);
    if Signals(events, mac, j) {
      assert SignalOf(mac, states[j][mac]) in SignalsOf(states[j], events[j].now);
    }
  }
}
