// The macOS installation of install.sh: a transaction that moves a bundle and a LaunchAgent aside,
// publishes new ones, and tells by their identities which ones it may remove again.
module MacosInstall {
  import opened Common

  /**
   * A file or directory with its device and inode; `child` is what carries the name of the stage inside a
   * directory.
   */
  datatype Node = Node(id: nat, directory: bool, content: string, child: Option<nat>)

  datatype Leaf = Regular(content: string) | Link(target: string)

  /** What the transaction works on, in the home directory and in launchd. */
  datatype State = State(
    app: Option<Node>, backup: Option<Node>, stage: Option<Node>,
    agent: Option<Node>, displaced: Option<Node>, stageAgent: Option<Node>,
    cli: Option<Leaf>, helper: Option<Leaf>,
    loaded: Option<nat>)

  /** A late failure is a command that took effect before it failed or the script was interrupted. */
  datatype Fault = NoFault | NotDone | DoneLate

  predicate IsDirectory(node: Option<Node>, id: Option<nat>) {
    node.Some? && node.value.directory && Some(node.value.id) == id
  }

  predicate IsFile(node: Option<Node>, id: Option<nat>) {
    node.Some? && !node.value.directory && Some(node.value.id) == id
  }

  predicate HasChild(node: Option<Node>, id: nat) {
    node.Some? && node.value.directory && node.value.child == Some(id)
  }

  function WithoutChild(node: Option<Node>): Option<Node> {
    if node.Some? then Some(node.value.(child := None)) else None
  }

  // ---------- Commands: what each does, if it can ----------

  function MoveBundleAside(s: State): Option<State> {
    if s.app.Some? && s.backup.None? then Some(s.(app := None, backup := s.app)) else None
  }

  /** `mv -n` moves into a directory that is in the way and leaves any other file alone. */
  function PublishBundle(s: State): Option<State> {
    if s.stage.None? then None
    else if s.app.None? then Some(s.(app := s.stage, stage := None))
    else if s.app.value.directory
         then Some(s.(app := Some(s.app.value.(child := Some(s.stage.value.id))), stage := None))
    else Some(s)
  }

  function MoveAgentAside(s: State): Option<State> {
    if s.agent.Some? && s.displaced.None? then Some(s.(agent := None, displaced := s.agent)) else None
  }

  /** `ln` makes a second name for the stage, inside a directory that is in the way. */
  function LinkAgent(s: State): Option<State> {
    if s.stageAgent.None? then None
    else if s.agent.None? then Some(s.(agent := s.stageAgent))
    else if s.agent.value.directory then Some(s.(agent := Some(s.agent.value.(child := Some(s.stageAgent.value.id)))))
    else None
  }

  function MoveBundleBack(s: State): Option<State> {
    if s.backup.Some? && s.app.None? then Some(s.(app := s.backup, backup := None)) else None
  }

  function MoveAgentBack(s: State): Option<State> {
    if s.displaced.Some? && s.agent.None? then Some(s.(agent := s.displaced, displaced := None)) else None
  }

  /** `launchctl bootstrap` of whatever is at the agent's path. */
  function Bootstrap(s: State): Option<State> {
    if s.agent.Some? && s.loaded.None? then Some(s.(loaded := Some(s.agent.value.id))) else None
  }

  class Host {
    var state: State
    var clock: nat
    const faults: nat -> Fault
    ghost var visited: set<State>

    constructor (state: State, faults: nat -> Fault)
      ensures this.state == state && this.faults == faults && clock == 0 && visited == {state}
    {
      this.state := state;
      this.clock := 0;
      this.faults := faults;
      this.visited := {state};
    }

    ghost predicate NoneLate(first: nat, end: nat) {
      forall n :: first <= n < end ==> faults(n) != DoneLate
    }

    ghost predicate AllWell(first: nat, end: nat) {
      forall n :: first <= n < end ==> faults(n) == NoFault
    }

    /** Runs one command. */
    method Perform(effect: Option<State>) returns (ok: bool)
      modifies this
      ensures clock == old(clock) + 1 && visited == old(visited) + {state}
      ensures ok <==> effect.Some? && faults(old(clock)) == NoFault
      ensures state == if effect.Some? && faults(old(clock)) != NotDone then effect.value else old(state)
    {
      var fault := faults(clock);
      clock := clock + 1;
      if effect.Some? && fault != NotDone {
        state := effect.value;
      }
      visited := visited + {state};
      ok := effect.Some? && fault == NoFault;
    }
  }

  // ---------- What a run may and may not do ----------

  /** The node at a path, without its child if that is ours. */
  ghost predicate Is(at: Option<Node>, node: Node, own: set<nat>) {
    at.Some? && node == if at.value.child.Some? && at.value.child.value in own
                      then at.value.(child := None) else at.value
  }

  /** Some path holds the node. */
  ghost predicate Present(s: State, node: Node, own: set<nat>) {
    || Is(s.app, node, own) || Is(s.backup, node, own) || Is(s.stage, node, own)
    || Is(s.agent, node, own) || Is(s.displaced, node, own) || Is(s.stageAgent, node, own)
  }

  /** Every bundle and agent of the one state is in the other, unless it carries one of our identities. */
  ghost predicate SparesOthers(a: State, b: State, own: set<nat>) {
    forall node :: Present(a, node, own) && node.id !in own ==> Present(b, node, own)
  }

  function Id(node: Option<Node>): Option<nat> {
    if node.Some? then Some(node.value.id) else None
  }

  /** The paths a user sees are as they were, and nothing is aside. */
  ghost predicate Restored(before: State, s: State) {
    && s.app == before.app && s.agent == before.agent && s.cli == before.cli && s.helper == before.helper
    && s.backup.None? && s.displaced.None?
  }

  ghost predicate KeepsBundle(before: State, s: State) {
    before.app.Some? ==> s.app == before.app || s.backup == before.app
  }

  ghost predicate KeepsAgent(before: State, s: State) {
    before.agent.Some? ==> s.agent == before.agent || s.displaced == before.agent
  }

  /** The prior bundle and the prior agent are in place or aside. */
  ghost predicate Keeps(before: State, s: State) {
    KeepsBundle(before, s) && KeepsAgent(before, s)
  }

  ghost predicate AllKeep(before: State, seen: set<State>, visited: set<State>) {
    seen <= visited && forall s :: s in visited && s !in seen ==> Keeps(before, s)
  }

  function Staged(node: Option<Node>): string {
    if node.Some? then node.value.content else ""
  }

  ghost predicate SameNodes(a: State, b: State) {
    a.app == b.app && a.backup == b.backup && a.agent == b.agent && a.displaced == b.displaced
  }

  class Transaction {
    const stageId: nat
    const stageAgentId: nat
    const gui: bool
    // The bundle there was before, if any.
    const existingId: Option<nat>
    var agentInitialId: Option<nat>
    var cliSnapshot: Option<Leaf>
    var helperSnapshot: Option<Leaf>
    var cliTouched: bool
    var helperTouched: bool
    var oldLoaded: bool
    var oldUnloaded: bool
    var newBootstrapAttempted: bool
    var agentPriorRestored: bool

    constructor (stageId: nat, stageAgentId: nat, gui: bool, existingId: Option<nat>)
      ensures this.stageId == stageId && this.stageAgentId == stageAgentId && this.gui == gui
      ensures this.existingId == existingId
      ensures agentInitialId == None && cliSnapshot == None && helperSnapshot == None
      ensures !cliTouched && !helperTouched && !oldLoaded && !oldUnloaded && !newBootstrapAttempted
      ensures !agentPriorRestored
    {
      this.stageId := stageId;
      this.stageAgentId := stageAgentId;
      this.gui := gui;
      this.existingId := existingId;
      this.agentInitialId := None;
      this.cliSnapshot, this.helperSnapshot := None, None;
      this.cliTouched, this.helperTouched := false, false;
      this.oldLoaded, this.oldUnloaded, this.newBootstrapAttempted, this.agentPriorRestored :=
          false, false, false, false;
    }

    ghost function Own(): set<nat> {
      {stageId, stageAgentId}
    }

    // ---------- Where a run can be when a step fails ----------

    /** The bundle that was there is in place, aside, or aside with the new one in place. */
    ghost predicate BundleMidway(before: State, s: State)
      reads this
    {
      && existingId == Id(before.app)
      && (before.app.Some? ==>
          before.app.value.directory && before.app.value.id !in Own() && before.app.value.child.None?)
      && (|| (s.app == before.app && s.backup.None?)
          || (s.app.None? && s.backup == before.app)
          || (IsDirectory(s.app, Some(stageId)) && s.app.value.child.None? && s.backup == before.app))
    }

    ghost predicate AgentMidway(before: State, s: State)
      reads this
    {
      && agentInitialId == Id(before.agent)
      && (before.agent.Some? ==> !before.agent.value.directory && before.agent.value.id !in Own())
      && (|| (s.agent == before.agent && s.displaced.None?)
          || (s.agent.None? && s.displaced == before.agent)
          || (IsFile(s.agent, Some(stageAgentId)) && s.displaced == before.agent))
    }

    ghost predicate LeavesMidway(before: State, s: State)
      reads this
    {
      && cliSnapshot == before.cli && (!cliTouched ==> s.cli == before.cli)
      && helperSnapshot == before.helper && (!helperTouched ==> s.helper == before.helper)
    }

    /** The old agent is loaded unless it was unloaded; a new one may be once its loading was attempted. */
    ghost predicate LaunchdMidway(before: State, s: State)
      reads this
    {
      && (oldUnloaded ==> gui && before.loaded.Some?)
      && if newBootstrapAttempted then before.loaded.None? || oldUnloaded
         else if oldUnloaded then s.loaded.None?
         else s.loaded == before.loaded
    }

    ghost predicate Midway(before: State, s: State)
      reads this
    {
      BundleMidway(before, s) && AgentMidway(before, s) && LeavesMidway(before, s) && !agentPriorRestored
    }

    // ---------- Rollback ----------

    /** `macos_rollback`: runs every step, whatever fails, and reports whether all succeeded. */
    method Rollback(host: Host, ghost before: State) returns (ok: bool)
      modifies this`agentPriorRestored, host
      // From any state, whoever made it so: only what carries our identities is removed.
      ensures SparesOthers(old(host.state), host.state, Own())
      // From any state a run of our own can be in: success means that all is as before.
      ensures ok && old(Midway(before, host.state)) ==> Restored(before, host.state)
      ensures ok && old(Midway(before, host.state)) && old(LaunchdMidway(before, host.state)) ==>
                host.state.loaded == if oldUnloaded then Id(before.agent) else before.loaded
      // It succeeds if no command of its own fails.
      ensures old(Midway(before, host.state)) && (oldUnloaded ==> newBootstrapAttempted || old(host.state).loaded.None?)
              && host.AllWell(old(host.clock), host.clock) ==>
                ok
      ensures old(Midway(before, host.state)) ==>
                BundleMidway(before, host.state) && AgentMidway(before, host.state)
                  && AllKeep(before, old(host.visited), host.visited)
      ensures host.state.stage == old(host.state.stage) && host.state.stageAgent == old(host.state.stageAgent)
      ensures host.clock >= old(host.clock)
    {
      ghost var s0 := host.state;
      var agentOk := RollbackAgent(host, before);
      ghost var s1 := host.state;
      var leavesOk := RollbackLeaves(host);
      ghost var s2 := host.state;
      assert old(Midway(before, host.state)) ==> AllKeep(before, old(host.visited), host.visited);
      var bundleOk := RollbackBundle(host, before);
      ok := agentOk && leavesOk && bundleOk;
      if gui && oldUnloaded && agentPriorRestored {
        var bootstrapped := host.Perform(Bootstrap(host.state));
        ok := ok && bootstrapped;
      }
    }

    /** Unloads the new agent, removes its file, and moves the prior one back. */
    method RollbackAgent(host: Host, ghost before: State) returns (ok: bool)
      modifies this`agentPriorRestored, host
      ensures host.clock >= old(host.clock) && old(host.visited) <= host.visited
      ensures host.state == old(host.state).(agent := host.state.agent,
                                             displaced := host.state.displaced, loaded := host.state.loaded)
      ensures SparesOthers(old(host.state), host.state, Own())
      ensures ok && newBootstrapAttempted ==> host.state.loaded.None?
      ensures !newBootstrapAttempted ==> host.state.loaded == old(host.state.loaded)
      ensures ok && old(AgentMidway(before, host.state)) && !old(agentPriorRestored) ==>
                && host.state.agent == before.agent && host.state.displaced.None?
                && (agentPriorRestored <==> before.agent.Some?)
      ensures old(AgentMidway(before, host.state)) && host.AllWell(old(host.clock), host.clock) ==> ok
      ensures old(AgentMidway(before, host.state)) ==>
                && AgentMidway(before, host.state)
                && forall s :: s in host.visited && s !in old(host.visited) ==>
                     KeepsAgent(before, s) && s.app == host.state.app && s.backup == host.state.backup
    {
      ok := true;
      if newBootstrapAttempted {
        // An agent that is not loaded is as good as unloaded.
        var unloaded := host.Perform(Some(host.state.(loaded := None)));
        ok := ok && unloaded;
      }
      if IsFile(host.state.agent, Some(stageAgentId)) {
        var removed := host.Perform(Some(host.state.(agent := None)));
        ok := ok && removed;
      }
      if HasChild(host.state.agent, stageAgentId) {
        var removed := host.Perform(Some(host.state.(agent := WithoutChild(host.state.agent))));
        ok := ok && removed;
      }
      if agentInitialId.Some? {
        if IsFile(host.state.agent, agentInitialId) {
          agentPriorRestored := true;
        } else if IsFile(host.state.displaced, agentInitialId) && host.state.agent.None? {
          var moved := host.Perform(MoveAgentBack(host.state));
          ok := ok && moved;
          if IsFile(host.state.agent, agentInitialId) {
            agentPriorRestored := true;
          } else {
            ok := false;
          }
        } else {
          ok := false;
        }
      }
    }

    method RollbackLeaves(host: Host) returns (ok: bool)
      modifies host
      ensures host.clock >= old(host.clock) && old(host.visited) <= host.visited
      ensures host.state == old(host.state).(cli := host.state.cli, helper := host.state.helper)
      ensures forall s :: s in host.visited && s !in old(host.visited) ==> SameNodes(old(host.state), s)
      ensures host.AllWell(old(host.clock), host.clock) ==> ok
      ensures ok ==> host.state.helper == if helperTouched then helperSnapshot else old(host.state).helper
      ensures ok ==> host.state.cli == if cliTouched then cliSnapshot else old(host.state).cli
    {
      ok := true;
      if helperTouched {
        var restored := host.Perform(Some(host.state.(helper := helperSnapshot)));
        ok := ok && restored;
      }
      if cliTouched {
        var restored := host.Perform(Some(host.state.(cli := cliSnapshot)));
        ok := ok && restored;
      }
    }

    /** Removes the new bundle and moves the prior one back. */
    method RollbackBundle(host: Host, ghost before: State) returns (ok: bool)
      modifies host
      ensures host.clock >= old(host.clock) && old(host.visited) <= host.visited
      ensures host.state == old(host.state).(app := host.state.app, backup := host.state.backup)
      ensures SparesOthers(old(host.state), host.state, Own())
      ensures ok && old(BundleMidway(before, host.state)) ==> host.state.app == before.app && host.state.backup.None?
      ensures old(BundleMidway(before, host.state)) && host.AllWell(old(host.clock), host.clock) ==> ok
      ensures old(BundleMidway(before, host.state)) ==>
                && BundleMidway(before, host.state)
                && forall s :: s in host.visited && s !in old(host.visited) ==>
                     KeepsBundle(before, s) && s.agent == host.state.agent && s.displaced == host.state.displaced
    {
      ok := true;
      if IsDirectory(host.state.app, Some(stageId)) {
        var removed := host.Perform(Some(host.state.(app := None)));
        ok := ok && removed;
      }
      if HasChild(host.state.app, stageId) {
        var removed := host.Perform(Some(host.state.(app := WithoutChild(host.state.app))));
        ok := ok && removed;
      }
      if host.state.backup.Some? && host.state.backup.value.directory {
        if !IsDirectory(host.state.backup, existingId) || host.state.app.Some? {
          ok := false;
        } else {
          var moved := host.Perform(MoveBundleBack(host.state));
          ok := ok && moved && IsDirectory(host.state.app, existingId);
        }
      }
    }

    // ---------- Publication ----------

    /** Everything is staged and recorded, and nothing has been touched. */
    ghost predicate Ready(before: State, s: State)
      reads this
    {
      && s == before.(stage := s.stage, stageAgent := s.stageAgent)
      && s.stage == Some(Node(stageId, true, Staged(s.stage), None))
      && s.stageAgent == Some(Node(stageAgentId, false, Staged(s.stageAgent), None))
      && Midway(before, s)
      && !cliTouched && !helperTouched && !oldUnloaded && !newBootstrapAttempted
      && (oldLoaded <==> gui && before.loaded.Some?)
      && before.backup.None? && before.displaced.None?
    }

    /** The new bundle and agent are in place, the prior ones aside. */
    ghost predicate Published(before: State, start: State, s: State, link: string)
      reads this
    {
      && s.app == start.stage && s.backup == before.app && s.stage.None?
      && s.agent == start.stageAgent && s.displaced == before.agent && s.stageAgent.None?
      && s.cli == Some(Link(link)) && s.helper.None?
      && s.loaded == if gui then Some(stageAgentId) else before.loaded
    }

    /** The steps while the transaction is active, `link` being the path of the CLI in the bundle. */
    method Publish(host: Host, link: string, ghost before: State) returns (ok: bool)
      requires Ready(before, host.state)
      modifies this, host
      ensures ok ==> Published(before, old(host.state), host.state, link)
      ensures host.AllWell(old(host.clock), host.clock) ==> ok
      ensures oldUnloaded ==> newBootstrapAttempted
      ensures Midway(before, host.state) && (host.NoneLate(old(host.clock), host.clock) ==>
                LaunchdMidway(before, host.state))
      ensures AllKeep(before, old(host.visited), host.visited) && host.clock >= old(host.clock)
    {
      ok := PlaceFiles(host, link, before);
      if !ok {
        return;
      }
      ok := LoadAgent(host, before);
      if !ok {
        return;
      }
      // The lock is still ours.
      ok := host.Perform(Some(host.state));
      ok := ok && IsDirectory(host.state.app, Some(stageId)) && IsFile(host.state.agent, Some(stageAgentId));
    }

    /** The bundle, the link and the agent, in that order. */
    method PlaceFiles(host: Host, link: string, ghost before: State) returns (ok: bool)
      requires Ready(before, host.state)
      modifies this`cliTouched, this`helperTouched, host
      ensures Midway(before, host.state) && host.state.loaded == old(host.state).loaded
      ensures ok ==>
                && host.state.app == old(host.state).stage && host.state.backup == before.app && host.state.stage.None?
                && host.state.agent == old(host.state).stageAgent && host.state.displaced == before.agent
                && host.state.stageAgent.None? && host.state.cli == Some(Link(link)) && host.state.helper.None?
      ensures AllKeep(before, old(host.visited), host.visited) && host.clock >= old(host.clock)
      ensures host.AllWell(old(host.clock), host.clock) ==> ok
    {
      ok := PlaceBundle(host, before);
      if !ok {
        return;
      }
      ok := PlaceLeaves(host, link, before);
      if !ok {
        return;
      }
      ok := PlaceAgent(host, before);
    }

    method PlaceBundle(host: Host, ghost before: State) returns (ok: bool)
      requires BundleMidway(before, host.state) && host.state.app == before.app && host.state.backup.None?
      requires IsDirectory(host.state.stage, Some(stageId)) && host.state.stage.value.child.None?
      modifies host
      ensures host.state == old(host.state).(app := host.state.app,
                                             backup := host.state.backup, stage := host.state.stage)
      ensures BundleMidway(before, host.state) && host.clock >= old(host.clock) && old(host.visited) <= host.visited
      ensures ok ==>
                host.state.app == old(host.state).stage && host.state.backup == before.app && host.state.stage.None?
      ensures host.AllWell(old(host.clock), host.clock) ==> ok
      ensures forall s :: s in host.visited && s !in old(host.visited) ==>
                KeepsBundle(before, s) && s.agent == host.state.agent && s.displaced == host.state.displaced
    {
      if existingId.Some? {
        ok := host.Perform(Some(host.state));
        if !ok || !IsDirectory(host.state.app, existingId) {
          return false;
        }
        ok := host.Perform(MoveBundleAside(host.state));
        if !ok || !IsDirectory(host.state.backup, existingId) {
          return false;
        }
      }
      ok := host.Perform(Some(host.state));
      if !ok {
        return;
      }
      ok := host.Perform(PublishBundle(host.state));
      ok := ok && IsDirectory(host.state.app, Some(stageId));
    }

    /** The link to the CLI replaces whatever was there; a helper beside it goes. */
    method PlaceLeaves(host: Host, link: string, ghost before: State) returns (ok: bool)
      requires LeavesMidway(before, host.state)
      modifies this`cliTouched, this`helperTouched, host
      ensures host.state == old(host.state).(cli := host.state.cli, helper := host.state.helper)
      ensures LeavesMidway(before, host.state) && host.clock >= old(host.clock) && old(host.visited) <= host.visited
      ensures ok ==> host.state.cli == Some(Link(link)) && host.state.helper.None?
      ensures host.AllWell(old(host.clock), host.clock) ==> ok
      ensures forall s :: s in host.visited && s !in old(host.visited) ==> SameNodes(old(host.state), s)
    {
      cliTouched := true;
      ok := host.Perform(Some(host.state.(cli := Some(Link(link)))));
      if !ok {
        return;
      }
      helperTouched := true;
      ok := host.Perform(Some(host.state.(helper := None)));
    }

    method PlaceAgent(host: Host, ghost before: State) returns (ok: bool)
      requires AgentMidway(before, host.state) && host.state.agent == before.agent && host.state.displaced.None?
      requires IsFile(host.state.stageAgent, Some(stageAgentId))
      modifies host
      ensures host.state == old(host.state).(agent := host.state.agent,
                                             displaced := host.state.displaced, stageAgent := host.state.stageAgent)
      ensures AgentMidway(before, host.state) && host.clock >= old(host.clock) && old(host.visited) <= host.visited
      ensures ok ==>
                host.state.agent == old(host.state).stageAgent && host.state.displaced == before.agent
                  && host.state.stageAgent.None?
      ensures host.AllWell(old(host.clock), host.clock) ==> ok
      ensures forall s :: s in host.visited && s !in old(host.visited) ==>
                KeepsAgent(before, s) && s.app == host.state.app && s.backup == host.state.backup
    {
      ok := host.Perform(Some(host.state));
      if !ok {
        return;
      }
      if agentInitialId.Some? {
        if !IsFile(host.state.agent, agentInitialId) {
          return false;
        }
        ok := host.Perform(MoveAgentAside(host.state));
        if !ok || !IsFile(host.state.displaced, agentInitialId) {
          return false;
        }
      } else if host.state.agent.Some? {
        return false;
      }
      ok := host.Perform(Some(host.state));
      if !ok {
        return;
      }
      ok := host.Perform(LinkAgent(host.state));
      if !ok || !IsFile(host.state.agent, Some(stageAgentId)) {
        return false;
      }
      if IsFile(host.state.stageAgent, Some(stageAgentId)) {
        ok := host.Perform(Some(host.state.(stageAgent := None)));
      } else {
        ok := host.state.stageAgent.None?;
      }
    }

    /** Swaps the loaded agent for the new one, if there is a session to load it into. */
    method LoadAgent(host: Host, ghost before: State) returns (ok: bool)
      requires LaunchdMidway(before, host.state) && !oldUnloaded && !newBootstrapAttempted
      requires oldLoaded <==> gui && before.loaded.Some?
      requires IsFile(host.state.agent, Some(stageAgentId)) && host.state.loaded == before.loaded
      modifies this`oldUnloaded, this`newBootstrapAttempted, host
      ensures host.state == old(host.state).(loaded := host.state.loaded)
      ensures host.NoneLate(old(host.clock), host.clock) ==> LaunchdMidway(before, host.state)
      ensures host.clock >= old(host.clock) && old(host.visited) <= host.visited
      ensures ok ==> host.state.loaded == if gui then Some(stageAgentId) else before.loaded
      ensures host.AllWell(old(host.clock), host.clock) ==> ok
      ensures oldUnloaded ==> newBootstrapAttempted
      ensures forall s :: s in host.visited && s !in old(host.visited) ==> SameNodes(old(host.state), s)
    {
      if !gui {
        return true;
      }
      ok := host.Perform(Some(host.state));
      if !ok {
        return;
      }
      if oldLoaded {
        oldUnloaded := true;
        ok := host.Perform(if host.state.loaded.Some? then Some(host.state.(loaded := None)) else None);
        if !ok {
          oldUnloaded := false;
          return;
        }
      }
      newBootstrapAttempted := true;
      ok := host.Perform(Bootstrap(host.state));
      if !ok {
        return;
      }
      // The agent is started anew.
      ok := host.Perform(Some(host.state));
    }

    // ---------- Cleanup ----------

    /**
     * What `macos_cleanup` does after the rollback, if there was one: it removes the stages, and,
     * unless that would lose what recovery needs, the state directory and the bundle set aside.
     */
    method Cleanup(host: Host, rolledBack: bool, committed: bool) returns (clean: bool)
      modifies host
      ensures host.clock >= old(host.clock) && old(host.visited) <= host.visited
      ensures host.state.cli == old(host.state).cli && host.state.helper == old(host.state).helper
      ensures host.state.loaded == old(host.state).loaded
      ensures !HasChild(old(host.state).app, stageId) ==> host.state.app == old(host.state).app
      ensures !HasChild(old(host.state).agent, stageAgentId) ==> host.state.agent == old(host.state).agent
      // What recovery needs is preserved.
      ensures !rolledBack || (committed && !Intact(old(host.state))) ==>
                && host.state.backup == old(host.state).backup && host.state.displaced == old(host.state).displaced
                && SparesOthers(old(host.state), host.state, Own())
      ensures || host.state.backup == old(host.state).backup
              || (host.state.backup.None? && IsDirectory(old(host.state).backup, existingId))
      ensures host.state.displaced == old(host.state).displaced || host.state.displaced.None?
      ensures clean ==> && host.state.stage.None? && host.state.stageAgent.None? && host.state.displaced.None?
                        && !(host.state.backup.Some? && host.state.backup.value.directory)
      ensures rolledBack && (committed ==> Intact(old(host.state))) && Removable(old(host.state))
              && host.AllWell(old(host.clock), host.clock) ==>
                clean
      ensures !HasChild(old(host.state).app, stageId) && !HasChild(old(host.state).agent, stageAgentId) ==>
                forall s :: s in host.visited && s !in old(host.visited) ==>
                  s.app == old(host.state).app && s.agent == old(host.state).agent
                    && (SameNodes(old(host.state), s) || rolledBack)
    {
      var preserve := !rolledBack || (committed && !Intact(host.state));
      clean := RemoveStages(host);
      clean := clean && !preserve;
      if !preserve {
        var removed := RemoveAside(host);
        clean := clean && removed;
      }
    }

    method RemoveStages(host: Host) returns (clean: bool)
      modifies host
      ensures host.clock >= old(host.clock) && old(host.visited) <= host.visited
      ensures host.state == old(host.state).(app := host.state.app, stage := host.state.stage,
                                             agent := host.state.agent, stageAgent := host.state.stageAgent)
      ensures !HasChild(old(host.state).app, stageId) ==> host.state.app == old(host.state).app
      ensures !HasChild(old(host.state).agent, stageAgentId) ==> host.state.agent == old(host.state).agent
      ensures SparesOthers(old(host.state), host.state, Own())
      ensures clean ==> host.state.stage.None? && host.state.stageAgent.None?
      ensures Removable(old(host.state)) && host.AllWell(old(host.clock), host.clock) ==> clean
      ensures forall s :: s in host.visited && s !in old(host.visited) ==>
                && (!HasChild(old(host.state).app, stageId) && !HasChild(old(host.state).agent, stageAgentId) ==>
                    SameNodes(old(host.state), s))
    {
      var bundleGone := RemoveBundleStage(host);
      var agentGone := RemoveAgentStage(host);
      clean := bundleGone && agentGone;
    }

    method RemoveBundleStage(host: Host) returns (clean: bool)
      modifies host
      ensures host.clock >= old(host.clock) && old(host.visited) <= host.visited
      ensures host.state == old(host.state).(app := host.state.app, stage := host.state.stage)
      ensures !HasChild(old(host.state).app, stageId) ==> host.state.app == old(host.state).app
      ensures SparesOthers(old(host.state), host.state, Own())
      ensures clean ==> host.state.stage.None?
      ensures Removable(old(host.state)) && host.AllWell(old(host.clock), host.clock) ==> clean
      ensures !HasChild(old(host.state).app, stageId) ==> forall s :: s in host.visited && s !in old(host.visited) ==>
                SameNodes(old(host.state), s)
    {
      clean := true;
      if IsDirectory(host.state.stage, Some(stageId)) {
        clean := host.Perform(Some(host.state.(stage := None)));
      } else if host.state.stage.Some? {
        clean := false;
      }
      if HasChild(host.state.app, stageId) {
        var removed := host.Perform(Some(host.state.(app := WithoutChild(host.state.app))));
        clean := clean && removed;
      }
    }

    method RemoveAgentStage(host: Host) returns (clean: bool)
      modifies host
      ensures host.clock >= old(host.clock) && old(host.visited) <= host.visited
      ensures host.state == old(host.state).(agent := host.state.agent, stageAgent := host.state.stageAgent)
      ensures !HasChild(old(host.state).agent, stageAgentId) ==> host.state.agent == old(host.state).agent
      ensures SparesOthers(old(host.state), host.state, Own())
      ensures clean ==> host.state.stageAgent.None?
      ensures Removable(old(host.state)) && host.AllWell(old(host.clock), host.clock) ==> clean
      ensures !HasChild(old(host.state).agent, stageAgentId) ==>
                forall s :: s in host.visited && s !in old(host.visited) ==> SameNodes(old(host.state), s)
    {
      clean := true;
      if IsFile(host.state.stageAgent, Some(stageAgentId)) {
        clean := host.Perform(Some(host.state.(stageAgent := None)));
      } else if host.state.stageAgent.Some? {
        clean := false;
      }
      if HasChild(host.state.agent, stageAgentId) {
        var removed := host.Perform(Some(host.state.(agent := WithoutChild(host.state.agent))));
        clean := clean && removed;
      }
    }

    /** The state directory, with the agent set aside in it, and the bundle set aside. */
    method RemoveAside(host: Host) returns (clean: bool)
      modifies host
      ensures host.clock >= old(host.clock) && old(host.visited) <= host.visited
      ensures host.state == old(host.state).(backup := host.state.backup, displaced := host.state.displaced)
      ensures || host.state.backup == old(host.state).backup
              || (host.state.backup.None? && IsDirectory(old(host.state).backup, existingId))
      ensures host.state.displaced == old(host.state).displaced || host.state.displaced.None?
      ensures clean ==> host.state.displaced.None? && !(host.state.backup.Some? && host.state.backup.value.directory)
      ensures Removable(old(host.state)) && host.AllWell(old(host.clock), host.clock) ==> clean
      ensures forall s :: s in host.visited && s !in old(host.visited) ==>
                s.app == old(host.state).app && s.agent == old(host.state).agent
    {
      clean := host.Perform(Some(host.state.(displaced := None)));
      if host.state.backup.Some? && host.state.backup.value.directory {
        if IsDirectory(host.state.backup, existingId) {
          var removed := host.Perform(Some(host.state.(backup := None)));
          clean := clean && removed;
        } else {
          clean := false;
        }
      }
    }

    /** The stages that are there and the bundle set aside are the run's own. */
    predicate Removable(s: State) {
      && (s.stage.Some? ==> IsDirectory(s.stage, Some(stageId)))
      && (s.stageAgent.Some? ==> IsFile(s.stageAgent, Some(stageAgentId)))
      && (s.backup.Some? && s.backup.value.directory ==> IsDirectory(s.backup, existingId))
    }

    /** What was published is still what is in place. */
    predicate Intact(s: State) {
      IsDirectory(s.app, Some(stageId)) && IsFile(s.agent, Some(stageAgentId))
    }
  }

  // ---------- The installation ----------

  datatype Report = Refused | Committed(clean: bool) | Failed(rolledBack: bool, unloaded: bool)

  /** No other run is under way, and the two identities the stages will get are not in use. */
  ghost predicate Untouched(s: State, gui: bool, stageId: nat, stageAgentId: nat) {
    && stageId != stageAgentId
    && s.backup.None? && s.stage.None? && s.displaced.None? && s.stageAgent.None?
    && (s.app.Some? ==> s.app.value.id !in {stageId, stageAgentId} && s.app.value.child.None?)
    && (s.agent.Some? ==> s.agent.value.id !in {stageId, stageAgentId} && s.agent.value.child.None?)
    && (s.loaded.Some? ==> gui)
  }

  /** An existing bundle is the application's, an existing agent a file. */
  ghost predicate MayReplace(s: State, identified: bool) {
    && (s.app.Some? ==> s.app.value.directory && identified)
    && (s.agent.Some? ==> !s.agent.value.directory)
  }

  /**
   * `install_macos_desktop_integration_at`, with no interference from outside. `identified` tells
   * whether an existing bundle carries the bundle identifier of the application.
   */
  method Install(host: Host, stageId: nat, stageAgentId: nat, gui: bool, identified: bool, bundle: string,
                 agentText: string, link: string)
    returns (report: Report, ghost undoing: nat)
    requires Untouched(host.state, gui, stageId, stageAgentId)
    modifies host
    // If no command fails, it is committed and cleaned up exactly if there is nothing foreign in its place.
    ensures host.AllWell(old(host.clock), host.clock) ==>
              if MayReplace(old(host.state), identified) then report == Committed(true)
              else report == Refused && host.state == old(host.state)
    // The rollback begins with command `undoing`, and fails only if one of the commands since does.
    ensures report.Failed? ==> old(host.clock) <= undoing <= host.clock
    ensures report.Failed? && host.AllWell(undoing, host.clock) ==> report.rolledBack
    // Refused: at most a stage that could not be removed is left.
    ensures report == Refused ==>
              host.state == old(host.state).(stage := host.state.stage, stageAgent := host.state.stageAgent)
    // Committed: the new bundle, link and agent, no loose helper, and, cleaned up, nothing aside.
    ensures report.Committed? ==>
              && host.state.app == Some(Node(stageId, true, bundle, None))
              && host.state.agent == Some(Node(stageAgentId, false, agentText, None))
              && host.state.cli == Some(Link(link)) && host.state.helper.None?
              && host.state.loaded == (if gui then Some(stageAgentId) else None)
              && (report.clean ==>
                  host.state.backup.None? && host.state.displaced.None? && host.state.stage.None?
                    && host.state.stageAgent.None?)
    // Failed at any step and rolled back: everything is as before, the prior agent loaded again if its file was there.
    ensures report.Failed? && report.rolledBack ==> Restored(old(host.state), host.state)
    ensures report.Failed? && report.rolledBack && host.NoneLate(old(host.clock), host.clock) ==>
              host.state.loaded == if report.unloaded then Id(old(host.state).agent) else old(host.state).loaded
    // Whatever fails, the prior bundle and agent are in place or aside until the new ones are committed.
    ensures report.Failed? ==>
              Keeps(old(host.state), host.state) && SparesOthers(old(host.state), host.state, {stageId, stageAgentId})
    ensures forall s :: s in host.visited && s !in old(host.visited) ==>
              Keeps(old(host.state), s) || (report.Committed? && s.app == host.state.app && s.agent == host.state.agent)
  {
    ghost var before := host.state;
    undoing := host.clock;
    if host.state.app.Some? && (!host.state.app.value.directory || !identified) {
      return Refused, undoing;
    }
    if host.state.agent.Some? && host.state.agent.value.directory {
      return Refused, undoing;
    }
    var locked := host.Perform(Some(host.state));
    if !locked {
      return Refused, undoing;
    }
    var t := new Transaction(stageId, stageAgentId, gui, Id(host.state.app));
    var ready := Stage(host, t, bundle, agentText, before);
    if !ready {
      var _ := t.RemoveStages(host);
      return Refused, undoing;
    }
    report, undoing := Run(host, t, link, before);
  }

  /** Makes the stages and records what is there. */
  method Stage(host: Host, t: Transaction, bundle: string, agentText: string, ghost before: State) returns (ready: bool)
    requires host.state == before && Untouched(before, t.gui, t.stageId, t.stageAgentId)
    requires t.existingId == Id(before.app)
    requires before.app.Some? ==> before.app.value.directory
    requires before.agent.Some? ==> !before.agent.value.directory
    requires !t.cliTouched && !t.helperTouched && !t.oldUnloaded && !t.newBootstrapAttempted && !t.agentPriorRestored
    modifies t, host
    ensures host.clock >= old(host.clock) && old(host.visited) <= host.visited
    ensures host.state == before.(stage := host.state.stage, stageAgent := host.state.stageAgent)
    ensures ready ==> t.Ready(before, host.state) && t.LaunchdMidway(before, host.state)
    ensures host.AllWell(old(host.clock), host.clock) ==> ready
    ensures ready ==> Staged(host.state.stage) == bundle && Staged(host.state.stageAgent) == agentText
    ensures forall s :: s in host.visited && s !in old(host.visited) ==> SameNodes(before, s)
  {
    ready := host.Perform(Some(host.state.(stage := Some(Node(t.stageId, true, bundle, None)))));
    if !ready {
      return;
    }
    ready := host.Perform(Some(host.state.(stageAgent := Some(Node(t.stageAgentId, false, agentText, None)))));
    if !ready {
      return;
    }
    // Copying the two leaves and the agent into the state directory.
    ready := host.Perform(Some(host.state));
    if !ready {
      return;
    }
    t.cliSnapshot, t.helperSnapshot := host.state.cli, host.state.helper;
    t.agentInitialId := Id(host.state.agent);
    // Asking launchd for its domain and for the agent.
    ready := host.Perform(Some(host.state));
    t.oldLoaded := t.gui && host.state.loaded.Some?;
  }

  /** The transaction proper: publication, and its rollback if a step fails, and the cleanup. */
  method Run(host: Host, t: Transaction, link: string, ghost before: State)
    returns (report: Report, ghost undoing: nat)
    requires t.Ready(before, host.state) && t.LaunchdMidway(before, host.state)
    requires Untouched(before, t.gui, t.stageId, t.stageAgentId)
    modifies t, host
    ensures host.clock >= old(host.clock) && old(host.visited) <= host.visited
    ensures report != Refused && old(host.clock) <= undoing <= host.clock
    ensures host.AllWell(old(host.clock), host.clock) ==> report == Committed(true)
    ensures report.Failed? && host.AllWell(undoing, host.clock) ==> report.rolledBack
    ensures report.Committed? ==>
              && host.state.app == old(host.state).stage && host.state.agent == old(host.state).stageAgent
              && host.state.cli == Some(Link(link)) && host.state.helper.None?
              && host.state.loaded == (if t.gui then Some(t.stageAgentId) else before.loaded)
              && (report.clean ==>
                  host.state.backup.None? && host.state.displaced.None? && host.state.stage.None?
                    && host.state.stageAgent.None?)
    ensures report.Failed? && report.rolledBack ==> Restored(before, host.state)
    ensures report.Failed? && report.rolledBack && host.NoneLate(old(host.clock), host.clock) ==>
              host.state.loaded == if report.unloaded then Id(before.agent) else before.loaded
    ensures report.Failed? ==> Keeps(before, host.state)
    ensures forall s :: s in host.visited && s !in old(host.visited) ==>
              Keeps(before, s) || (report.Committed? && s.app == host.state.app && s.agent == host.state.agent)
  {
    var published := t.Publish(host, link, before);
    undoing := host.clock;
    if published {
      var clean := t.Cleanup(host, true, true);
      return Committed(clean), undoing;
    }
    var rolledBack := t.Rollback(host, before);
    var _ := t.Cleanup(host, rolledBack, false);
    return Failed(rolledBack, t.oldUnloaded), undoing;
  }
}
