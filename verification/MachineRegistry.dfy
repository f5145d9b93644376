// The machine registry of src/proxy_server.rs and src/web.rs: validation, the handlers that run
// under the write lock, and the inactivity index and proxy table they keep in step with it.
// Saving the registry is an outcome the caller supplies; key generation supplies `freshKey`.
module MachineRegistry {
  import opened Common
  import opened Text
  import opened Machines
  import opened MacAddress
  import opened InactivityLimiter

  const DEFAULT_INACTIVITY_PERIOD: u32 := 60

  /** How the address text of a request parses. */
  datatype IpText = Ipv4(address: u32) | Ipv6 | NotAnAddress

  datatype MachinePayload = MachinePayload(
    mac: string,
    ip: IpText,
    name: string,
    description: Option<string>,
    turnOffPort: Option<u16>,
    canBeTurnedOff: bool,
    inactivityPeriod: Option<u32>,
    portForwards: Option<seq<PortForward>>)

  /** The payload with its defaults filled in. */
  datatype ApiMachine = ApiMachine(
    mac: string,
    ip: IpText,
    name: string,
    description: Option<string>,
    turnOffPort: Option<u16>,
    canBeTurnedOff: bool,
    inactivityPeriod: u32,
    portForwards: seq<PortForward>)

  datatype Response = Created | Updated | Deleted | Rotated | BadRequest | NotFound | SaveFailed

  function FromPayload(p: MachinePayload): ApiMachine {
    ApiMachine(p.mac, p.ip, p.name, p.description, p.turnOffPort, p.canBeTurnedOff,
               if p.inactivityPeriod.Some? then p.inactivityPeriod.value else DEFAULT_INACTIVITY_PERIOD,
               if p.portForwards.Some? then p.portForwards.value else [])
  }

  /** The registry entry for a request, without a shutdown key. */
  function ToInternal(api: ApiMachine): Machine
    requires api.ip.Ipv4?
  {
    Machine(api.mac, api.ip.address, api.name, api.description, api.turnOffPort, api.canBeTurnedOff,
            None, false, api.inactivityPeriod, api.portForwards)
  }

  // ---------- Validation ----------

  predicate ForwardsOk(forwards: seq<PortForward>) {
    && (forall i :: 0 <= i < |forwards| ==> forwards[i].localPort != 0 && forwards[i].targetPort != 0)
    && (forall i, j :: 0 <= i < j < |forwards| ==> forwards[i].localPort != forwards[j].localPort)
  }

  /** The local ports collected from a request. */
  ghost function OfferedPorts(forwards: seq<PortForward>): set<u16> {
    set forward | forward in forwards && forward.localPort != 0 && forward.targetPort != 0 :: forward.localPort
  }

  ghost predicate Claims(existing: Machine, ports: set<u16>) {
    exists forward :: forward in existing.portForwards && forward.localPort in ports
  }

  predicate TurnOffPortOk(turnOffPort: Option<u16>, canBeTurnedOff: bool) {
    turnOffPort != Some(0) && (canBeTurnedOff ==> turnOffPort.Some?)
  }

  ghost predicate MacTaken(machines: seq<Machine>, replacing: Option<string>, mac: string) {
    exists m :: m in machines && Some(m.mac) != replacing && SameMac(m.mac, mac)
  }

  ghost predicate PortTaken(machines: seq<Machine>, replacing: Option<string>, ports: set<u16>) {
    exists m :: m in machines && Some(m.mac) != replacing && Claims(m, ports)
  }

  /** What a request must satisfy to enter the registry, `replacing` being the entry it updates. */
  ghost predicate Acceptable(api: ApiMachine, machines: seq<Machine>, replacing: Option<string>) {
    && !Blank(api.name)
    && api.ip.Ipv4?
    && ValidMac(api.mac)
    && TurnOffPortOk(api.turnOffPort, api.canBeTurnedOff)
    && ForwardsOk(api.portForwards)
    && !MacTaken(machines, replacing, api.mac)
    && !PortTaken(machines, replacing, OfferedPorts(api.portForwards))
  }

  /** The request fields an error can be reported under. */
  datatype Field = Name | Ip | Mac | TurnOffPort | PortForwards

  const NAME_REQUIRED := "Name is required"
  const INVALID_IPV4 := "Invalid IPv4 address"
  const INVALID_MAC := "Invalid MAC address"
  const DUPLICATE_MAC := "This MAC address is already registered"
  const PORT_REQUIRED := "A client port between 1 and 65535 is required"
  const INVALID_FORWARDS := "Use valid, unique local ports and valid target ports"
  const PORT_ASSIGNED := "A local port is already assigned to another machine"

  method ValidateMachineConfig(api: ApiMachine, machines: seq<Machine>, replacing: Option<string>)
    returns (errors: map<Field, string>)
    ensures errors == map[] <==> Acceptable(api, machines, replacing)
    ensures Name in errors <==> Blank(api.name)
    ensures Ip in errors <==> !api.ip.Ipv4?
    ensures TurnOffPort in errors <==> !TurnOffPortOk(api.turnOffPort, api.canBeTurnedOff)
    ensures Mac in errors <==> !ValidMac(api.mac) || MacTaken(machines, replacing, api.mac)
    ensures MacTaken(machines, replacing, api.mac) ==> errors[Mac] == DUPLICATE_MAC
    ensures Mac in errors && !MacTaken(machines, replacing, api.mac) ==> errors[Mac] == INVALID_MAC
    ensures PortForwards in errors <==>
              !ForwardsOk(api.portForwards) || PortTaken(machines, replacing, OfferedPorts(api.portForwards))
    ensures PortTaken(machines, replacing, OfferedPorts(api.portForwards)) ==> errors[PortForwards] == PORT_ASSIGNED
    ensures PortForwards in errors && !PortTaken(machines, replacing, OfferedPorts(api.portForwards)) ==>
              errors[PortForwards] == INVALID_FORWARDS
  {
    var ports, forwardsOk := CollectPorts(api.portForwards);
    var macTaken, portTaken := CompareWithOthers(machines, replacing, api.mac, ports);
    var portOk := api.turnOffPort != Some(0) && !(api.canBeTurnedOff && api.turnOffPort.None?);
    errors := Report(Blank(api.name), api.ip.Ipv4?, ValidMac(api.mac), portOk, forwardsOk, macTaken, portTaken);
  }

  /** Inserts the errors in the order the checks are made; a later one replaces an earlier one of its field. */
  method Report(nameBlank: bool, ipOk: bool, macOk: bool, portOk: bool, forwardsOk: bool, macTaken: bool,
                portTaken: bool)
    returns (errors: map<Field, string>)
    ensures errors == map[] <==> !nameBlank && ipOk && macOk && portOk && forwardsOk && !macTaken && !portTaken
    ensures Name in errors <==> nameBlank
    ensures Ip in errors <==> !ipOk
    ensures TurnOffPort in errors <==> !portOk
    ensures Mac in errors <==> !macOk || macTaken
    ensures Mac in errors ==> errors[Mac] == if macTaken then DUPLICATE_MAC else INVALID_MAC
    ensures PortForwards in errors <==> !forwardsOk || portTaken
    ensures PortForwards in errors ==> errors[PortForwards] == if portTaken then PORT_ASSIGNED else INVALID_FORWARDS
  {
    errors := map[];
    if nameBlank {
      errors := errors[Name := NAME_REQUIRED];
    }
    if !ipOk {
      errors := errors[Ip := INVALID_IPV4];
    }
    if !macOk {
      errors := errors[Mac := INVALID_MAC];
    }
    if !portOk {
      errors := errors[TurnOffPort := PORT_REQUIRED];
    }
    if !forwardsOk {
      errors := errors[PortForwards := INVALID_FORWARDS];
    }
    if macTaken {
      errors := errors[Mac := DUPLICATE_MAC];
    }
    if portTaken {
      errors := errors[PortForwards := PORT_ASSIGNED];
    }
    assert Name !in errors && Ip !in errors && Mac !in errors && TurnOffPort !in errors && PortForwards !in errors ==>
        errors == map[];
  }

  /** The second loop of the validation: looks for the address and the ports among the other machines. */
  method CompareWithOthers(machines: seq<Machine>, replacing: Option<string>, mac: string, ports: set<u16>)
    returns (macTaken: bool, portTaken: bool)
    ensures macTaken <==> MacTaken(machines, replacing, mac)
    ensures portTaken <==> PortTaken(machines, replacing, ports)
  {
    macTaken, portTaken := false, false;
    for i := 0 to |machines|
      invariant macTaken <==> MacTaken(machines[..i], replacing, mac)
      invariant portTaken <==> PortTaken(machines[..i], replacing, ports)
    {
      var existing := machines[i];
      assert machines[..i + 1] == machines[..i] + [existing];
      if Some(existing.mac) != replacing {
        if EqualIgnoringAsciiCase(Replace(existing.mac, '-', ":"), Replace(mac, '-', ":")) {
          macTaken := true;
        }
        var claims := ClaimsAny(existing, ports);
        if claims {
          portTaken := true;
        }
      }
    }
    assert machines[..|machines|] == machines;
  }

  /** The first loop of the validation: gathers the ports, and reports the first repeated or zero one. */
  method CollectPorts(forwards: seq<PortForward>) returns (ports: set<u16>, ok: bool)
    ensures ports == OfferedPorts(forwards)
    ensures ok <==> ForwardsOk(forwards)
  {
    ports, ok := {}, true;
    for i := 0 to |forwards|
      invariant ports == OfferedPorts(forwards[..i])
      invariant ok <==> ForwardsOk(forwards[..i])
    {
      var forward := forwards[i];
      assert forwards[..i + 1] == forwards[..i] + [forward];
      AppendForward(forwards[..i], forward);
      if forward.localPort == 0 || forward.targetPort == 0 || forward.localPort in ports {
        ok := false;
      } else {
        ports := ports + {forward.localPort};
      }
    }
    assert forwards[..|forwards|] == forwards;
  }

  lemma AppendForward(forwards: seq<PortForward>, forward: PortForward)
    ensures var usable := forward.localPort != 0 && forward.targetPort != 0;
            && OfferedPorts(forwards + [forward]) ==
                 OfferedPorts(forwards) + (if usable then {forward.localPort} else {})
            && (ForwardsOk(forwards + [forward]) <==>
                ForwardsOk(forwards) && usable && forward.localPort !in OfferedPorts(forwards))
  {
    var longer := forwards + [forward];
    assert longer[|forwards|] == forward;
    assert forall k :: 0 <= k < |forwards| ==> longer[k] == forwards[k] && forwards[k] in forwards;
    assert forall f :: f in longer <==> f in forwards || f == forward;
    if forward.localPort in OfferedPorts(forwards) {
      var earlier :| earlier in forwards && earlier.localPort == forward.localPort;
      var k :| 0 <= k < |forwards| && forwards[k] == earlier;
      assert longer[k].localPort == longer[|forwards|].localPort;
    }
  }

  method ClaimsAny(existing: Machine, ports: set<u16>) returns (claims: bool)
    ensures claims <==> Claims(existing, ports)
  {
    claims := false;
    for i := 0 to |existing.portForwards|
      invariant claims <==> exists forward :: forward in existing.portForwards[..i] && forward.localPort in ports
    {
      claims := claims || existing.portForwards[i].localPort in ports;
    }
  }

  // ---------- The shutdown key an update carries over ----------

  /** `apply_shutdown_security`: the entry `next` with the key and verification it may keep. */
  function Secured(previous: Option<Machine>, next: Machine, freshKey: string): (r: Machine)
    ensures r.(shutdownAuthKey := next.shutdownAuthKey, shutdownAuthVerified := next.shutdownAuthVerified) == next
    ensures !r.ShutdownEnabled() ==> r.shutdownAuthKey.None?
    // A key in use is kept, a legacy machine stays without, and only a machine newly enabled gets a fresh one.
    ensures next.ShutdownEnabled() ==>
              r.shutdownAuthKey == if WasEnabled(previous) then previous.value.shutdownAuthKey else Some(freshKey)
    // Verification survives exactly an update that leaves the connection alone.
    ensures r.shutdownAuthVerified <==>
              && next.ShutdownEnabled() && WasEnabled(previous) && previous.value.shutdownAuthKey.Some?
              && previous.value.shutdownAuthVerified && SameConnection(previous.value, next)
  {
    if !next.ShutdownEnabled() then next.(shutdownAuthKey := None, shutdownAuthVerified := false)
    else if previous.None? || !previous.value.ShutdownEnabled() then
      next.(shutdownAuthKey := Some(freshKey), shutdownAuthVerified := false)
    else if previous.value.shutdownAuthKey.None? then next.(shutdownAuthKey := None, shutdownAuthVerified := false)
    else
      next.(shutdownAuthKey := previous.value.shutdownAuthKey,
           shutdownAuthVerified := previous.value.shutdownAuthVerified && SameConnection(previous.value, next))
  }

  predicate WasEnabled(previous: Option<Machine>) {
    previous.Some? && previous.value.ShutdownEnabled()
  }

  predicate SameConnection(a: Machine, b: Machine) {
    a.mac == b.mac && a.ip == b.ip && a.turnOffPort == b.turnOffPort
  }

  /** An update repeated changes neither key nor verification, and uses no further fresh key. */
  lemma SecuredTwice(previous: Option<Machine>, next: Machine, freshKey: string, another: string)
    ensures var once := Secured(previous, next, freshKey);
            Secured(Some(once), next, another) == once && Secured(Some(once), once, another) == once
  {
  }

  // ---------- The handlers as functions of the registry ----------

  /** The first entry registered under `mac`. */
  function IndexOf(machines: seq<Machine>, mac: string): (r: Option<nat>)
    ensures r.Some? ==> r.value < |machines| && machines[r.value].mac == mac
    ensures r.Some? ==> forall i :: 0 <= i < r.value ==> machines[i].mac != mac
    ensures r.None? ==> forall m :: m in machines ==> m.mac != mac
  {
    if machines == [] then None
    else if machines[0].mac == mac then Some(0)
    else
      var rest := IndexOf(machines[1..], mac);
      if rest.None? then None else Some(rest.value + 1)
  }

  function Without(machines: seq<Machine>, mac: string): seq<Machine> {
    if machines == [] then []
    else (if machines[0].mac == mac then [] else [machines[0]]) + Without(machines[1..], mac)
  }

  ghost function AddTo(machines: seq<Machine>, payload: MachinePayload, freshKey: string, saved: bool)
    : (seq<Machine>, Response)
  {
    var api := FromPayload(payload);
    if !Acceptable(api, machines, None) then (machines, BadRequest)
    else if !saved then (machines, SaveFailed)
    else
      var entry := ToInternal(api);
      (machines + [if entry.ShutdownEnabled() then entry.(shutdownAuthKey := Some(freshKey)) else entry], Created)
  }

  ghost function UpdateIn(machines: seq<Machine>, mac: string, payload: MachinePayload, freshKey: string, saved: bool)
    : (seq<Machine>, Response)
  {
    var api := FromPayload(payload);
    match IndexOf(machines, mac)
    case None => (machines, NotFound)
    case Some(index) =>
      if !Acceptable(api, machines, Some(mac)) then (machines, BadRequest)
      else if !saved then (machines, SaveFailed)
      else (machines[index := Secured(Some(machines[index]), ToInternal(api), freshKey)], Updated)
  }

  ghost function DeleteFrom(machines: seq<Machine>, mac: string, saved: bool): (seq<Machine>, Response) {
    if saved then (Without(machines, mac), Deleted) else (machines, SaveFailed)
  }

  ghost function RotateIn(machines: seq<Machine>, mac: string, freshKey: string, saved: bool)
    : (seq<Machine>, Response)
  {
    match IndexOf(machines, mac)
    case None => (machines, NotFound)
    case Some(index) =>
      if !machines[index].ShutdownEnabled() then (machines, BadRequest)
      else if !saved then (machines, SaveFailed)
      else
        var entry := machines[index].(shutdownAuthKey := Some(freshKey), shutdownAuthVerified := false);
        (machines[index := entry], Rotated)
  }

  // ---------- What is stored is what was sent ----------

  /** A request is admitted for what it says itself and for what the other machines have. */
  ghost predicate Admits(payload: MachinePayload, machines: seq<Machine>, replacing: Option<string>) {
    var forwards := if payload.portForwards.Some? then payload.portForwards.value else [];
    && !Blank(payload.name) && payload.ip.Ipv4? && ValidMac(payload.mac)
    && TurnOffPortOk(payload.turnOffPort, payload.canBeTurnedOff) && ForwardsOk(forwards)
    && !MacTaken(machines, replacing, payload.mac) && !PortTaken(machines, replacing, OfferedPorts(forwards))
  }

  /** The entry holds every field sent, an hour of inactivity if none was sent, and no forwards if none were. */
  ghost predicate Holds(m: Machine, payload: MachinePayload) {
    && m.mac == payload.mac && Ipv4(m.ip) == payload.ip
    && m.name == payload.name && m.description == payload.description
    && m.turnOffPort == payload.turnOffPort && m.canBeTurnedOff == payload.canBeTurnedOff
    && (payload.inactivityPeriod == Some(m.inactivityPeriod)
        || (payload.inactivityPeriod.None? && m.inactivityPeriod == 60))
    && (payload.portForwards == Some(m.portForwards) || (payload.portForwards.None? && m.portForwards == []))
  }

  /** A machine that can be switched off remotely starts with the fresh key, any other without one. */
  ghost predicate Appends(before: seq<Machine>, after: seq<Machine>, payload: MachinePayload, freshKey: string) {
    && |after| == |before| + 1 && after[..|before|] == before
    && var m := after[|before|];
       && Holds(m, payload) && !m.shutdownAuthVerified
       && if payload.canBeTurnedOff && payload.turnOffPort.Some? then m.shutdownAuthKey == Some(freshKey)
          else m.shutdownAuthKey == None
  }

  /** The k-th entry is the first under `mac`. */
  ghost predicate IsFirst(machines: seq<Machine>, mac: string, k: int) {
    0 <= k < |machines| && machines[k].mac == mac && forall j :: 0 <= j < k ==> machines[j].mac != mac
  }

  /** A key in use stays, and stays verified while address, network address and port do. */
  ghost predicate Succeeds(was: Machine, m: Machine, payload: MachinePayload, freshKey: string) {
    && Holds(m, payload)
    && if !(payload.canBeTurnedOff && payload.turnOffPort.Some?) then
         m.shutdownAuthKey == None && !m.shutdownAuthVerified
       else if was.canBeTurnedOff && was.turnOffPort.Some? then
         && m.shutdownAuthKey == was.shutdownAuthKey
         && (m.shutdownAuthVerified <==>
             && was.shutdownAuthVerified && was.shutdownAuthKey.Some?
             && was.mac == m.mac && was.ip == m.ip && was.turnOffPort == m.turnOffPort)
       else m.shutdownAuthKey == Some(freshKey) && !m.shutdownAuthVerified
  }

  /** The first entry under `mac` is succeeded, and every other is as before. */
  ghost predicate Replaces(before: seq<Machine>, after: seq<Machine>, mac: string, payload: MachinePayload,
                           freshKey: string)
  {
    exists k :: IsFirst(before, mac, k) && |after| == |before| && after == before[k := after[k]]
      && Succeeds(before[k], after[k], payload, freshKey)
  }

  lemma SecuredSucceeds(was: Machine, payload: MachinePayload, freshKey: string)
    requires payload.ip.Ipv4?
    ensures Succeeds(was, Secured(Some(was), ToInternal(FromPayload(payload)), freshKey), payload, freshKey)
  {
  }

  lemma AddedIsSent(machines: seq<Machine>, payload: MachinePayload, freshKey: string, saved: bool)
    ensures var (after, response) := AddTo(machines, payload, freshKey, saved);
            if !Admits(payload, machines, None) then response == BadRequest && after == machines
            else if !saved then response == SaveFailed && after == machines
            else response == Created && Appends(machines, after, payload, freshKey)
  {
  }

  lemma UpdatedIsSent(machines: seq<Machine>, mac: string, payload: MachinePayload, freshKey: string, saved: bool)
    ensures var (after, response) := UpdateIn(machines, mac, payload, freshKey, saved);
            if forall m :: m in machines ==> m.mac != mac then response == NotFound && after == machines
            else if !Admits(payload, machines, Some(mac)) then response == BadRequest && after == machines
            else if !saved then response == SaveFailed && after == machines
            else response == Updated && Replaces(machines, after, mac, payload, freshKey)
  {
    var index := IndexOf(machines, mac);
    if index.Some? {
      assert machines[index.value] in machines;
      if Admits(payload, machines, Some(mac)) && saved {
        ReplacedFirst(machines, mac, index.value, payload, freshKey);
      }
    }
  }

  lemma ReplacedFirst(machines: seq<Machine>, mac: string, k: nat, payload: MachinePayload, freshKey: string)
    requires payload.ip.Ipv4? && IsFirst(machines, mac, k)
    ensures var entry := Secured(Some(machines[k]), ToInternal(FromPayload(payload)), freshKey);
            Replaces(machines, machines[k := entry], mac, payload, freshKey)
  {
    SecuredSucceeds(machines[k], payload, freshKey);
  }

  // ---------- The registry invariant ----------

  ghost function LocalPorts(m: Machine): set<u16> {
    set forward | forward in m.portForwards :: forward.localPort
  }

  ghost predicate MachineOk(m: Machine) {
    && ValidMac(m.mac)
    && TurnOffPortOk(m.turnOffPort, m.canBeTurnedOff)
    && ForwardsOk(m.portForwards)
  }

  /** Different six-byte addresses and no local port in common. */
  ghost predicate Compatible(a: Machine, b: Machine) {
    ParsedMac(a.mac) != ParsedMac(b.mac) && LocalPorts(a) !! LocalPorts(b)
  }

  ghost predicate WellFormed(machines: seq<Machine>) {
    && (forall m :: m in machines ==> MachineOk(m))
    && (forall i, j :: 0 <= i < j < |machines| ==> Compatible(machines[i], machines[j]))
  }

  /** A new entry that passed validation is compatible with every entry it does not replace. */
  lemma AcceptableIsCompatible(api: ApiMachine, machines: seq<Machine>, replacing: Option<string>, entry: Machine,
                               other: Machine)
    requires WellFormed(machines) && Acceptable(api, machines, replacing)
    requires entry.mac == api.mac && entry.portForwards == api.portForwards
    requires other in machines && Some(other.mac) != replacing
    ensures Compatible(entry, other) && Compatible(other, entry)
  {
    assert !SameMac(other.mac, api.mac) && !Claims(other, OfferedPorts(api.portForwards));
    SameMacIsSameBytes(other.mac, api.mac);
    forall forward | forward in api.portForwards
      ensures forward.localPort != 0 && forward.targetPort != 0
    {
      var k :| 0 <= k < |api.portForwards| && api.portForwards[k] == forward;
    }
    assert LocalPorts(entry) == OfferedPorts(api.portForwards);
  }

  lemma AddKeepsWellFormed(machines: seq<Machine>, payload: MachinePayload, freshKey: string, saved: bool)
    requires WellFormed(machines)
    ensures WellFormed(AddTo(machines, payload, freshKey, saved).0)
  {
    var (after, response) := AddTo(machines, payload, freshKey, saved);
    if response == Created {
      var entry := after[|machines|];
      forall other | other in machines
        ensures Compatible(other, entry)
      {
        AcceptableIsCompatible(FromPayload(payload), machines, None, entry, other);
      }
    }
  }

  /** In a well-formed registry an address names one entry. */
  lemma OneEntryPerMac(machines: seq<Machine>, i: nat)
    requires WellFormed(machines) && i < |machines|
    ensures forall j :: 0 <= j < |machines| && machines[j].mac == machines[i].mac ==> j == i
  {
    assert forall j :: 0 <= j < i ==> Compatible(machines[j], machines[i]);
    assert forall j :: i < j < |machines| ==> Compatible(machines[i], machines[j]);
  }

  lemma ReplaceKeepsWellFormed(machines: seq<Machine>, index: nat, entry: Machine)
    requires WellFormed(machines) && index < |machines|
    requires MachineOk(entry)
    requires forall j :: 0 <= j < |machines| && j != index ==> Compatible(entry, machines[j])
    ensures WellFormed(machines[index := entry])
  {
    var after := machines[index := entry];
    forall m | m in after
      ensures MachineOk(m)
    {
      assert m == entry || m in machines;
    }
    forall i, j | 0 <= i < j < |after|
      ensures Compatible(after[i], after[j])
    {
      assert i != index && j != index ==> Compatible(machines[i], machines[j]);
    }
  }

  lemma UpdateKeepsWellFormed(machines: seq<Machine>, mac: string, payload: MachinePayload, freshKey: string,
                              saved: bool)
    requires WellFormed(machines)
    ensures WellFormed(UpdateIn(machines, mac, payload, freshKey, saved).0)
  {
    var (after, response) := UpdateIn(machines, mac, payload, freshKey, saved);
    if response == Updated {
      var index := IndexOf(machines, mac).value;
      var entry := after[index];
      OneEntryPerMac(machines, index);
      forall j | 0 <= j < |machines| && j != index
        ensures Compatible(entry, machines[j])
      {
        AcceptableIsCompatible(FromPayload(payload), machines, Some(mac), entry, machines[j]);
      }
      ReplaceKeepsWellFormed(machines, index, entry);
    }
  }

  lemma RotateKeepsWellFormed(machines: seq<Machine>, mac: string, freshKey: string, saved: bool)
    requires WellFormed(machines)
    ensures WellFormed(RotateIn(machines, mac, freshKey, saved).0)
  {
    var (after, response) := RotateIn(machines, mac, freshKey, saved);
    if response == Rotated {
      KeyChangeKeepsWellFormed(machines, IndexOf(machines, mac).value, after[IndexOf(machines, mac).value]);
    }
  }

  /** Changing only the key or its verification flag cannot break the registry. */
  lemma KeyChangeKeepsWellFormed(machines: seq<Machine>, index: nat, entry: Machine)
    requires WellFormed(machines) && index < |machines|
    requires entry == machines[index].(
                         shutdownAuthKey := entry.shutdownAuthKey, shutdownAuthVerified := entry.shutdownAuthVerified)
    ensures WellFormed(machines[index := entry])
  {
    forall j | 0 <= j < |machines| && j != index
      ensures Compatible(entry, machines[j])
    {
      assert Compatible(machines[index], machines[j]) || Compatible(machines[j], machines[index]);
    }
    assert MachineOk(machines[index]);
    ReplaceKeepsWellFormed(machines, index, entry);
  }

  lemma {:induction false} WithoutIsExact(machines: seq<Machine>, mac: string)
    ensures forall m :: m in Without(machines, mac) <==> m in machines && m.mac != mac
  {
    if machines != [] {
      WithoutIsExact(machines[1..], mac);
      assert machines == [machines[0]] + machines[1..];
    }
  }

  lemma {:induction false} WithoutKeepsWellFormed(machines: seq<Machine>, mac: string)
    requires WellFormed(machines)
    ensures WellFormed(Without(machines, mac))
  {
    if machines != [] {
      var rest := machines[1..];
      TailIsWellFormed(machines);
      WithoutKeepsWellFormed(rest, mac);
      WithoutIsExact(rest, mac);
      assert machines[0] in machines;
    }
  }

  lemma TailIsWellFormed(machines: seq<Machine>)
    requires WellFormed(machines) && machines != []
    ensures WellFormed(machines[1..])
    ensures forall m :: m in machines[1..] ==> Compatible(machines[0], m)
  {
    var rest := machines[1..];
    assert forall i :: 0 <= i < |rest| ==> rest[i] == machines[i + 1];
  }

  // ---------- The proxy table ----------

  /** `format!("{}-{}-{}")` of the address and the two ports. */
  function ProxyKey(mac: string, forward: PortForward): string {
    mac + "-" + Decimal(forward.localPort) + "-" + Decimal(forward.targetPort)
  }

  ghost function KeysOf(m: Machine): set<string> {
    set forward | forward in m.portForwards :: ProxyKey(m.mac, forward)
  }

  /** The table the registry calls for. */
  ghost function ProxyKeys(machines: seq<Machine>): set<string> {
    set m, forward | m in machines && forward in m.portForwards :: ProxyKey(m.mac, forward)
  }

  ghost function Surviving(keys: set<string>, prefix: string): set<string> {
    set key | key in keys && !(prefix <= key)
  }

  lemma ProxyKeyIsInjective(a: string, f: PortForward, b: string, g: PortForward)
    requires ValidMac(a) && ValidMac(b) && ProxyKey(a, f) == ProxyKey(b, g)
    ensures a == b && f.localPort == g.localPort && f.targetPort == g.targetPort
  {
    KeySplits(a, f);
    KeySplits(b, g);
    SplitsAtLength(a, "-" + PortsText(f), b, "-" + PortsText(g));
    SplitsAtLength("-", PortsText(f), "-", PortsText(g));
    PortsTextIsInjective(f, g);
  }

  function PortsText(forward: PortForward): string {
    Decimal(forward.localPort) + "-" + Decimal(forward.targetPort)
  }

  lemma KeySplits(mac: string, forward: PortForward)
    ensures ProxyKey(mac, forward) == mac + ("-" + PortsText(forward))
  {
  }

  lemma PortsTextIsInjective(f: PortForward, g: PortForward)
    requires PortsText(f) == PortsText(g)
    ensures f.localPort == g.localPort && f.targetPort == g.targetPort
  {
    SplitsOneWay(Decimal(f.localPort), Decimal(f.targetPort), Decimal(g.localPort), Decimal(g.targetPort), '-');
    DecimalRoundTrip(f.localPort);
    DecimalRoundTrip(g.localPort);
    DecimalRoundTrip(f.targetPort);
    DecimalRoundTrip(g.targetPort);
  }

  /** For addresses of full length, both prefix tests select exactly the keys of one machine. */
  lemma PrefixSelectsOneMachine(mac: string, other: string, forward: PortForward)
    requires |mac| == 17 && |other| == 17
    ensures mac <= ProxyKey(other, forward) <==> mac == other
    ensures mac + "-" <= ProxyKey(other, forward) <==> mac == other
  {
    var key := ProxyKey(other, forward);
    assert key[..17] == other && key[17] == '-';
    if mac == other {
      assert key[..18] == mac + "-";
    }
    if mac + "-" <= key {
      assert mac <= mac + "-";
    }
  }

  /**
   * The deletion prefix of a text `mac` reaches a key of the machine `other`: it stops inside the
   * address at a hyphen, or runs on through the local port.
   */
  predicate Reaches(mac: string, other: string, forward: PortForward) {
    mac + "-" <= other || mac == other || mac == other + "-" + Decimal(forward.localPort)
  }

  lemma DeletionPrefixReaches(mac: string, other: string, forward: PortForward)
    requires |other| == 17
    ensures mac + "-" <= ProxyKey(other, forward) <==> Reaches(mac, other, forward)
  {
    var local, target := Decimal(forward.localPort), Decimal(forward.targetPort);
    var key := ProxyKey(other, forward);
    assert key[..17] == other && key[17] == '-' && key[18..] == local + "-" + target;
    if |mac| < 17 {
      assert key[..|mac| + 1] == other[..|mac| + 1];
    } else if |mac| == 17 {
      PrefixSelectsOneMachine(mac, other, forward);
    } else {
      if mac == other + "-" + local {
        assert key[..|mac| + 1] == mac + "-";
      }
      if mac + "-" <= key {
        assert key[|mac|] == '-' && key[18..][|mac| - 18] == '-';
        assert forall i :: 0 <= i < |local| ==> key[18..][i] == local[i];
        assert forall i :: 0 <= i < |target| ==> key[18..][|local| + 1 + i] == target[i];
        assert |mac| - 18 == |local|;
        assert mac == key[..|mac|] == other + "-" + local;
      }
    }
  }

  /** Deleting under this text takes proxy keys away from a machine that stays registered. */
  ghost predicate CutsForeignKeys(machines: seq<Machine>, mac: string) {
    exists m, forward :: m in machines && m.mac != mac && forward in m.portForwards && Reaches(mac, m.mac, forward)
  }

  /** A delete keeps the proxy table in step with the registry exactly when its text reaches no other machine. */
  lemma DeleteKeepsProxyTable(machines: seq<Machine>, mac: string)
    requires WellFormed(machines)
    ensures Surviving(ProxyKeys(machines), mac + "-") == ProxyKeys(Without(machines, mac)) <==>
              !CutsForeignKeys(machines, mac)
  {
    WithoutIsExact(machines, mac);
    var left, called := Surviving(ProxyKeys(machines), mac + "-"), ProxyKeys(Without(machines, mac));
    forall m, forward | m in machines && forward in m.portForwards
      ensures ProxyKey(m.mac, forward) in left <==> !Reaches(mac, m.mac, forward)
    {
      DeletionPrefixReaches(mac, m.mac, forward);
    }
    assert left <= called;
    if !CutsForeignKeys(machines, mac) {
      forall key | key in called
        ensures key in left
      {
        var m, forward :| m in Without(machines, mac) && forward in m.portForwards && key == ProxyKey(m.mac, forward);
      }
    } else {
      var m, forward :| m in machines && m.mac != mac && forward in m.portForwards && Reaches(mac, m.mac, forward);
      assert ProxyKey(m.mac, forward) in called && ProxyKey(m.mac, forward) !in left;
    }
  }

  /** Deleting a registered machine, or any text of address length, takes only its own keys. */
  lemma FullAddressesCutNothing(machines: seq<Machine>, mac: string)
    requires WellFormed(machines) && |mac| == 17
    ensures !CutsForeignKeys(machines, mac)
  {
  }

  const HYPHENATED := "02-00-00-00-00-01"

  lemma HyphenatedIsValid()
    ensures ValidMac(HYPHENATED) && "02" + "-" <= HYPHENATED && HYPHENATED != "02"
  {
  }

  /** An unregistered text that ends at a hyphen of a registered address stops that machine's proxies. */
  lemma DeleteCanCutForeignKeys(m: Machine)
    requires MachineOk(m) && m.mac == HYPHENATED && |m.portForwards| > 0
    ensures WellFormed([m]) && Without([m], "02") == [m] && CutsForeignKeys([m], "02")
  {
    HyphenatedIsValid();
    assert m in [m] && m.portForwards[0] in m.portForwards;
    assert Reaches("02", m.mac, m.portForwards[0]);
  }

  lemma UpdateKeepsProxyTable(machines: seq<Machine>, index: nat, entry: Machine)
    requires WellFormed(machines) && index < |machines|
    ensures Surviving(ProxyKeys(machines), machines[index].mac) + KeysOf(entry) == ProxyKeys(machines[index := entry])
  {
    var mac := machines[index].mac;
    var after := machines[index := entry];
    assert machines[index] in machines;
    OneEntryPerMac(machines, index);
    var left := Surviving(ProxyKeys(machines), mac) + KeysOf(entry);
    forall m, forward | m in machines && forward in m.portForwards
      ensures mac <= ProxyKey(m.mac, forward) <==> m.mac == mac
    {
      PrefixSelectsOneMachine(mac, m.mac, forward);
    }
    forall key | key in left
      ensures key in ProxyKeys(after)
    {
      if key in KeysOf(entry) {
        assert after[index] == entry;
      } else {
        var m, forward :| m in machines && forward in m.portForwards && key == ProxyKey(m.mac, forward);
        var j :| 0 <= j < |machines| && machines[j] == m;
        assert j != index && after[j] == m;
      }
    }
    forall key | key in ProxyKeys(after)
      ensures key in left
    {
      var m, forward :| m in after && forward in m.portForwards && key == ProxyKey(m.mac, forward);
      var j :| 0 <= j < |after| && after[j] == m;
      if j != index {
        assert m in machines && m.mac != mac;
      }
    }
  }

  // ---------- The inactivity index ----------

  /** The machines the inactivity monitor must watch. */
  predicate Monitored(m: Machine) {
    m.ShutdownEnabled() && m.inactivityPeriod != 0 && |m.portForwards| > 0
  }

  /** The entry carries the registered address, port and window; the stored key is not part of this. */
  predicate Describes(config: MachineConfig, m: Machine)
    requires m.ShutdownEnabled()
  {
    && config.ip == m.ip
    && config.turnOffPort == m.turnOffPort.value
    && config.window == Window(m.inactivityPeriod)
  }

  /** What the index must hold for one address, as a function of the registry. */
  ghost predicate IndexedAs(config: Option<MachineConfig>, machines: seq<Machine>, mac: string) {
    match IndexOf(machines, mac)
    case None => config.None?
    case Some(index) =>
      if Monitored(machines[index]) then config.Some? && Describes(config.value, machines[index]) else config.None?
  }

  ghost predicate IndexMatches(index: map<string, MachineConfig>, machines: seq<Machine>) {
    forall mac :: IndexedAs(Lookup(index, mac), machines, mac)
  }

  /** Connections and monitor ticks never disturb what the index says about the registry. */
  lemma TrafficKeepsIndex(before: map<string, MachineConfig>, e: Event, after: map<string, MachineConfig>,
                          machines: seq<Machine>)
    requires IndexMatches(before, machines) && Advances(before, e, after) && (e.Request? || e.Tick?)
    ensures IndexMatches(after, machines)
  {
    forall mac
      ensures IndexedAs(Lookup(after, mac), machines, mac)
    {
      assert IndexedAs(Lookup(before, mac), machines, mac);
    }
  }

  /** Which machine an address names does not depend on anything but membership. */
  lemma IndexOfIsMember(machines: seq<Machine>, m: Machine)
    requires WellFormed(machines) && m in machines
    ensures IndexOf(machines, m.mac).Some? && machines[IndexOf(machines, m.mac).value] == m
  {
    var j :| 0 <= j < |machines| && machines[j] == m;
    OneEntryPerMac(machines, j);
  }

  /** The limiter event with which starting a machine's proxies begins. */
  function StartEvent(m: Machine, now: nat): Event {
    if m.ShutdownEnabled() && |m.portForwards| > 0 then Initialize(m, m.turnOffPort.value, now) else Remove(m.mac)
  }

  /** If only the entry `m` is new, starting its proxies brings the index in step again. */
  lemma StartKeepsIndex(before: map<string, MachineConfig>, m: Machine, now: nat, after: map<string, MachineConfig>,
                        machines: seq<Machine>)
    requires WellFormed(machines) && m in machines
    requires Advances(before, StartEvent(m, now), after)
    requires forall mac :: mac != m.mac ==> IndexedAs(Lookup(before, mac), machines, mac)
    ensures IndexMatches(after, machines)
  {
    IndexOfIsMember(machines, m);
    forall mac
      ensures IndexedAs(Lookup(after, mac), machines, mac)
    {
      assert Lookup(after, mac) == After(Lookup(before, mac), mac, StartEvent(m, now));
    }
  }

  // ---------- The handlers ----------

  class AppState {
    var machines: seq<Machine>
    var proxies: set<string>
    const turnOffLimiter: TurnOffLimiter

    constructor (initial: seq<Machine>)
      ensures machines == initial && proxies == {} && fresh(turnOffLimiter) && turnOffLimiter.machines == map[]
    {
      machines := initial;
      proxies := {};
      turnOffLimiter := new TurnOffLimiter();
    }

    /** Registry well formed, inactivity index and proxy table exactly what it calls for. */
    ghost predicate Consistent()
      reads this, turnOffLimiter
    {
      && WellFormed(machines)
      && IndexMatches(turnOffLimiter.machines, machines)
      && proxies == ProxyKeys(machines)
    }

    method StartProxyIfConfigured(m: Machine, now: nat)
      modifies this`proxies, turnOffLimiter
      ensures proxies == old(proxies) + KeysOf(m)
      ensures Advances(old(turnOffLimiter.machines), StartEvent(m, now), turnOffLimiter.machines)
    {
      if m.turnOffPort.Some? && m.canBeTurnedOff && |m.portForwards| > 0 {
        turnOffLimiter.InitializeMachine(m, m.turnOffPort.value, now);
      } else {
        turnOffLimiter.RemoveMachine(m.mac);
      }
      for i := 0 to |m.portForwards|
        modifies this`proxies
        invariant proxies == old(proxies) + set forward | forward in m.portForwards[..i] :: ProxyKey(m.mac, forward)
      {
        assert m.portForwards[..i + 1] == m.portForwards[..i] + [m.portForwards[i]];
        proxies := proxies + {ProxyKey(m.mac, m.portForwards[i])};
      }
      assert m.portForwards[..|m.portForwards|] == m.portForwards;
    }

    /** Start-up: the proxies of every loaded machine. */
    method Start(now: nat)
      requires proxies == {} && turnOffLimiter.machines == map[]
      modifies this`proxies, turnOffLimiter
      ensures WellFormed(machines) ==> Consistent()
    {
      for i := 0 to |machines|
        invariant proxies == ProxyKeys(machines[..i])
        invariant WellFormed(machines) ==> IndexMatches(turnOffLimiter.machines, machines[..i])
      {
        ghost var before := turnOffLimiter.machines;
        StartProxyIfConfigured(machines[i], now);
        NextProxyKeys(machines, i);
        if WellFormed(machines) {
          NextStartKeepsIndex(before, machines, i, now, turnOffLimiter.machines);
        }
      }
      assert machines[..|machines|] == machines;
    }

    method AddMachine(payload: MachinePayload, freshKey: string, saved: bool, now: nat) returns (response: Response)
      modifies this, turnOffLimiter
      ensures (machines, response) == AddTo(old(machines), payload, freshKey, saved)
      // What is stored is what was sent, and nothing that can be stored is refused.
      ensures response == if !Admits(payload, old(machines), None) then BadRequest
                          else if !saved then SaveFailed else Created
      ensures response == Created ==> Appends(old(machines), machines, payload, freshKey)
      ensures response != Created ==> unchanged(this) && unchanged(turnOffLimiter)
      ensures old(Consistent()) ==> Consistent()
    {
      AddedIsSent(machines, payload, freshKey, saved);
      if Blank(payload.name) || payload.ip.NotAnAddress? || !ValidMac(payload.mac) {
        return BadRequest;
      }
      var api := FromPayload(payload);
      if !api.ip.Ipv4? {
        return BadRequest;
      }
      var entry := ToInternal(api);
      if entry.canBeTurnedOff && entry.turnOffPort.Some? {
        entry := entry.(shutdownAuthKey := Some(freshKey));
      }
      var errors := ValidateMachineConfig(api, machines, None);
      if errors != map[] {
        return BadRequest;
      }
      if !saved {
        return SaveFailed;
      }
      machines := machines + [entry];
      ghost var index := turnOffLimiter.machines;
      StartProxyIfConfigured(entry, now);
      if old(Consistent()) {
        AddKeepsWellFormed(old(machines), payload, freshKey, saved);
        AppendingIndexes(index, old(machines), entry);
        StartKeepsIndex(index, entry, now, turnOffLimiter.machines, machines);
      }
      return Created;
    }

    method UpdateMachine(mac: string, payload: MachinePayload, freshKey: string, saved: bool, now: nat)
      returns (response: Response)
      modifies this, turnOffLimiter
      ensures (machines, response) == UpdateIn(old(machines), mac, payload, freshKey, saved)
      // What is stored is what was sent, and nothing that can be stored is refused.
      ensures response == if forall m :: m in old(machines) ==> m.mac != mac then NotFound
                          else if !Admits(payload, old(machines), Some(mac)) then BadRequest
                          else if !saved then SaveFailed else Updated
      ensures response == Updated ==> Replaces(old(machines), machines, mac, payload, freshKey)
      ensures response != Updated ==> unchanged(this) && unchanged(turnOffLimiter)
      ensures old(Consistent()) ==> Consistent()
    {
      UpdatedIsSent(machines, mac, payload, freshKey, saved);
      var position := IndexOf(machines, mac);
      if position.None? {
        return NotFound;
      }
      var oldMachine := machines[position.value];
      var api := FromPayload(payload);
      var errors := ValidateMachineConfig(api, machines, Some(mac));
      if errors != map[] {
        return BadRequest;
      }
      var entry := Secured(Some(oldMachine), ToInternal(api), freshKey);
      if !saved {
        return SaveFailed;
      }
      machines := machines[position.value := entry];
      assert machines[position.value] == entry;
      if old(Consistent()) {
        UpdateKeepsWellFormed(old(machines), mac, payload, freshKey, saved);
      }
      Restart(mac, entry, now, old(machines), position.value);
      return Updated;
    }

    /** Stops what ran for the entry replaced and starts what its successor calls for. */
    method Restart(mac: string, entry: Machine, now: nat, ghost before: seq<Machine>, ghost position: nat)
      requires position < |before| && before[position].mac == mac && machines == before[position := entry]
      modifies this`proxies, turnOffLimiter
      ensures old(WellFormed(before) && IndexMatches(turnOffLimiter.machines, before) && proxies == ProxyKeys(before))
              && WellFormed(machines) ==>
                Consistent()
    {
      turnOffLimiter.RemoveMachine(mac);
      proxies := set key | key in proxies && !(mac <= key);
      ghost var index := turnOffLimiter.machines;
      StartProxyIfConfigured(entry, now);
      if old(WellFormed(before) && IndexMatches(turnOffLimiter.machines, before)) && WellFormed(machines) {
        UpdateKeepsTables(old(turnOffLimiter.machines), index, turnOffLimiter.machines, before, position, entry, now);
      }
    }

    method DeleteMachine(mac: string, saved: bool) returns (response: Response)
      modifies this, turnOffLimiter
      ensures (machines, response) == DeleteFrom(old(machines), mac, saved)
      ensures response == if saved then Deleted else SaveFailed
      ensures response == Deleted ==> forall m :: m in machines <==> m in old(machines) && m.mac != mac
      ensures response != Deleted ==> unchanged(this) && unchanged(turnOffLimiter)
      ensures response == Deleted ==> proxies == Surviving(old(proxies), mac + "-")
      ensures old(Consistent()) ==> WellFormed(machines) && IndexMatches(turnOffLimiter.machines, machines)
      ensures old(Consistent()) && response == Deleted ==> (Consistent() <==> !CutsForeignKeys(old(machines), mac))
    {
      WithoutIsExact(machines, mac);
      var removed := IndexOf(machines, mac);
      var updated := Without(machines, mac);
      if !saved {
        return SaveFailed;
      }
      machines := updated;
      if removed.Some? {
        turnOffLimiter.RemoveMachine(mac);
      }
      proxies := set key | key in proxies && !(mac + "-" <= key);
      if old(Consistent()) {
        WithoutKeepsWellFormed(old(machines), mac);
        DeletingIndexes(old(turnOffLimiter.machines), turnOffLimiter.machines, old(machines), mac);
        DeleteKeepsProxyTable(old(machines), mac);
      }
      return Deleted;
    }

    method RotateShutdownKey(mac: string, freshKey: string, saved: bool) returns (response: Response)
      modifies this`machines
      ensures (machines, response) == RotateIn(old(machines), mac, freshKey, saved)
      // The fresh key replaces that of the first entry under the address and is not yet verified.
      ensures response == Rotated <==>
                saved && exists k :: IsFirst(old(machines), mac, k) && old(machines)[k].ShutdownEnabled()
      ensures forall k :: IsFirst(old(machines), mac, k) && response == Rotated ==>
                machines == old(machines)[k := old(machines)[k].(
                    shutdownAuthKey := Some(freshKey), shutdownAuthVerified := false)]
      ensures response != Rotated ==> unchanged(this)
      ensures old(Consistent()) ==> Consistent()
    {
      var position := IndexOf(machines, mac);
      if position.None? {
        return NotFound;
      }
      assert IsFirst(machines, mac, position.value);
      var index := position.value;
      var machine := machines[index];
      if !machine.canBeTurnedOff || machine.turnOffPort.None? {
        return BadRequest;
      }
      machines := machines[index := machine.(shutdownAuthKey := Some(freshKey), shutdownAuthVerified := false)];
      if !saved {
        machines := machines[index := machines[index].(shutdownAuthKey := machine.shutdownAuthKey)];
        machines := machines[index := machines[index].(shutdownAuthVerified := machine.shutdownAuthVerified)];
        assert machines == old(machines);
        return SaveFailed;
      }
      if old(Consistent()) {
        KeyChangeKeepsTables(turnOffLimiter.machines, old(machines), index, machines[index]);
      }
      return Rotated;
    }
  }

  lemma NextProxyKeys(machines: seq<Machine>, i: nat)
    requires i < |machines|
    ensures ProxyKeys(machines[..i + 1]) == ProxyKeys(machines[..i]) + KeysOf(machines[i])
  {
    assert machines[..i + 1] == machines[..i] + [machines[i]];
  }

  lemma PrefixIsWellFormed(machines: seq<Machine>, n: nat)
    requires WellFormed(machines) && n <= |machines|
    ensures WellFormed(machines[..n])
  {
    forall m | m in machines[..n]
      ensures MachineOk(m)
    {
      assert m in machines;
    }
  }

  /** Starting the next loaded machine extends what the index matches by it. */
  lemma NextStartKeepsIndex(before: map<string, MachineConfig>, machines: seq<Machine>, i: nat, now: nat,
                            after: map<string, MachineConfig>)
    requires WellFormed(machines) && i < |machines| && IndexMatches(before, machines[..i])
    requires Advances(before, StartEvent(machines[i], now), after)
    ensures IndexMatches(after, machines[..i + 1])
  {
    assert machines[..i + 1] == machines[..i] + [machines[i]];
    PrefixIsWellFormed(machines, i + 1);
    AppendingIndexes(before, machines[..i], machines[i]);
    StartKeepsIndex(before, machines[i], now, after, machines[..i + 1]);
  }

  lemma AppendingIndexes(index: map<string, MachineConfig>, machines: seq<Machine>, entry: Machine)
    requires IndexMatches(index, machines)
    ensures forall mac :: mac != entry.mac ==> IndexedAs(Lookup(index, mac), machines + [entry], mac)
  {
    forall mac | mac != entry.mac
      ensures IndexedAs(Lookup(index, mac), machines + [entry], mac)
    {
      assert IndexedAs(Lookup(index, mac), machines, mac);
      AppendKeepsIndexOf(machines, entry, mac);
    }
  }

  lemma AppendKeepsIndexOf(machines: seq<Machine>, entry: Machine, mac: string)
    requires mac != entry.mac
    ensures IndexOf(machines + [entry], mac) == IndexOf(machines, mac)
  {
    var longer := IndexOf(machines + [entry], mac);
    var shorter := IndexOf(machines, mac);
    if shorter.Some? {
      assert (machines + [entry])[shorter.value].mac == mac;
      assert machines[shorter.value] in machines + [entry];
      assert longer.Some?;
    }
    if longer.Some? {
      assert machines[longer.value] in machines;
    }
  }

  /** Removing the entry that is replaced and starting its successor brings both tables in step. */
  lemma UpdateKeepsTables(before: map<string, MachineConfig>, removed: map<string, MachineConfig>,
                          after: map<string, MachineConfig>, machines: seq<Machine>, position: nat, entry: Machine,
                          now: nat)
    requires WellFormed(machines) && position < |machines| && IndexMatches(before, machines)
    requires Advances(before, Remove(machines[position].mac), removed)
    requires Advances(removed, StartEvent(entry, now), after)
    requires WellFormed(machines[position := entry])
    ensures IndexMatches(after, machines[position := entry])
    ensures Surviving(ProxyKeys(machines), machines[position].mac) + KeysOf(entry) ==
            ProxyKeys(machines[position := entry])
  {
    UpdateKeepsProxyTable(machines, position, entry);
    ReplacingIndexes(before, removed, machines, position, entry);
    assert machines[position := entry][position] == entry;
    StartKeepsIndex(removed, entry, now, after, machines[position := entry]);
  }

  lemma ReplacingIndexes(before: map<string, MachineConfig>, after: map<string, MachineConfig>,
                         machines: seq<Machine>, position: nat, entry: Machine)
    requires WellFormed(machines) && position < |machines| && IndexMatches(before, machines)
    requires Advances(before, Remove(machines[position].mac), after)
    requires WellFormed(machines[position := entry])
    ensures forall mac :: mac != entry.mac ==> IndexedAs(Lookup(after, mac), machines[position := entry], mac)
  {
    var updated := machines[position := entry];
    forall mac | mac != entry.mac
      ensures IndexedAs(Lookup(after, mac), updated, mac)
    {
      assert IndexedAs(Lookup(before, mac), machines, mac);
      assert Lookup(after, mac) == After(Lookup(before, mac), mac, Remove(machines[position].mac));
      ReplacedIndexOf(machines, position, entry, mac);
    }
  }

  lemma ReplacedIndexOf(machines: seq<Machine>, position: nat, entry: Machine, mac: string)
    requires WellFormed(machines) && position < |machines| && mac != entry.mac
    ensures IndexOf(machines[position := entry], mac) ==
              if mac == machines[position].mac then None else IndexOf(machines, mac)
  {
    var updated := machines[position := entry];
    var found := IndexOf(updated, mac);
    assert forall i :: 0 <= i < |machines| && i != position ==>
        updated[i] == machines[i] && updated[i] in updated && machines[i] in machines;
    OneEntryPerMac(machines, position);
    if found.Some? {
      OneEntryPerMac(machines, found.value);
    }
  }

  lemma DeletingIndexes(before: map<string, MachineConfig>, after: map<string, MachineConfig>, machines: seq<Machine>,
                        deleted: string)
    requires WellFormed(machines) && IndexMatches(before, machines) && WellFormed(Without(machines, deleted))
    requires if IndexOf(machines, deleted).Some? then Advances(before, Remove(deleted), after) else after == before
    ensures IndexMatches(after, Without(machines, deleted))
  {
    forall mac
      ensures IndexedAs(Lookup(after, mac), Without(machines, deleted), mac)
    {
      assert IndexedAs(Lookup(before, mac), machines, mac);
      assert IndexOf(machines, deleted).Some? ==>
          Lookup(after, mac) == After(Lookup(before, mac), mac, Remove(deleted));
      assert Lookup(after, mac) == if mac == deleted then None else Lookup(before, mac);
      DeletingIndexesOne(Lookup(before, mac), machines, deleted, mac);
    }
  }

  lemma DeletingIndexesOne(config: Option<MachineConfig>, machines: seq<Machine>, deleted: string, mac: string)
    requires WellFormed(Without(machines, deleted)) && IndexedAs(config, machines, mac)
    ensures IndexedAs(if mac == deleted then None else config, Without(machines, deleted), mac)
  {
    var updated := Without(machines, deleted);
    WithoutIsExact(machines, deleted);
    var was, now := IndexOf(machines, mac), IndexOf(updated, mac);
    if now.Some? {
      assert updated[now.value] in updated;
    }
    if was.Some? && mac != deleted {
      assert machines[was.value] in machines;
      IndexOfIsMember(updated, machines[was.value]);
    }
  }

  lemma KeyChangeKeepsTables(index: map<string, MachineConfig>, machines: seq<Machine>, position: nat, entry: Machine)
    requires WellFormed(machines) && position < |machines| && IndexMatches(index, machines)
    requires entry == machines[position].(
                         shutdownAuthKey := entry.shutdownAuthKey, shutdownAuthVerified := entry.shutdownAuthVerified)
    ensures WellFormed(machines[position := entry])
    ensures IndexMatches(index, machines[position := entry])
    ensures ProxyKeys(machines[position := entry]) == ProxyKeys(machines)
  {
    KeyChangeKeepsWellFormed(machines, position, entry);
    KeyChangeKeepsProxyTable(machines, position, entry);
    forall mac
      ensures IndexedAs(Lookup(index, mac), machines[position := entry], mac)
    {
      assert IndexedAs(Lookup(index, mac), machines, mac);
      SameMacKeepsIndexOf(machines, position, entry, mac);
    }
  }

  lemma {:induction false} SameMacKeepsIndexOf(machines: seq<Machine>, position: nat, entry: Machine, mac: string)
    requires position < |machines| && entry.mac == machines[position].mac
    ensures IndexOf(machines[position := entry], mac) == IndexOf(machines, mac)
  {
    if position == 0 {
      assert machines[0 := entry][1..] == machines[1..];
    } else {
      SameMacKeepsIndexOf(machines[1..], position - 1, entry, mac);
      assert machines[position := entry][1..] == machines[1..][position - 1 := entry];
    }
  }

  lemma KeyChangeKeepsProxyTable(machines: seq<Machine>, position: nat, entry: Machine)
    requires WellFormed(machines) && position < |machines|
    requires entry.mac == machines[position].mac && entry.portForwards == machines[position].portForwards
    ensures ProxyKeys(machines[position := entry]) == ProxyKeys(machines)
  {
    UpdateKeepsProxyTable(machines, position, machines[position]);
    UpdateKeepsProxyTable(machines, position, entry);
    assert machines[position := machines[position]] == machines;
    assert KeysOf(entry) == KeysOf(machines[position]);
  }
}
