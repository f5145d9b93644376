# Wakezilla in Dafny

A model of the parts of Wakezilla that must not go wrong, with proofs of what they keep: the update of
the protected service binary and the installers around it, the machine registry with its shutdown keys,
the inactivity limiter, the replay guard, and the encoders and fast forms used for desktop entries, shell
scripts, log tails and access histories. `dafny verify dfyconfig.toml` checks the whole project.

## How it is built

One module per component. What the source updates in place is a class whose fields the methods change
(`Disk`, `UnixProtectedBinaryUpdate`, `WindowsInstall.Host`, `LinuxInstall.Transaction`,
`MacosInstall.Host`, `AppState`, `TurnOffLimiter`, `ReplayGuard`); what it computes is a function.

Whatever may fail takes its outcome from an oracle, a function from the number of the operation to what
happens to it, about which nothing is assumed: every theorem about a transaction is a theorem about every
combination of failing steps. `visited` collects every state passed through, so that "at every step" is a
statement about its members. Clocks, fresh keys, save results and probe results are parameters or parts of
the operations of a run.

## Results

- **Protected binary (Unix).** From the first step to the last, with any operations failing, the prior
  binary is at the destination or at the backup path, until a commit has deleted the backup and the new one
  is in place. One pattern of failures is excepted: an explicit rollback whose sync fails after the restoring
  rename is repeated on drop, and the repetition removes the restored file. Beginning and installing report
  where a rollback started; the prior binary is lost if and only if the pattern (`LosesPrior`) occurs there.
  A begin that fails with one fault changes nothing. An installation whose service steps fail is undone
  completely if its rollback meets no fault, whatever failed before; one in which a single file operation
  fails leaves either every file as it was or the new binary in place. Without faults an installation begins if
  and only if nothing unsafe is on the way or at the destination, and succeeds if the service steps do.
- **Protected binary and service (Windows).** An undoing none of whose operations fails brings the prior binary
  back, and compensates completely unless the service in its way is marked for deletion by an earlier deletion that
  did not succeed, or outlasts the polls. If the compensating steps of a failed installation succeed, an
  absent service is absent, a legacy service is not running, and a service that used the protected binary is as
  it was, over the prior bytes, if and only if the one validation in the preparation did not fail, or the
  service was stopped before and not touched. If that validation fails once, the source forgets what the service
  was (`FailedValidationForgetsTheService`). A preparation that fails is not compensated: files stay as they
  were, and a service that was running may be left stopped (`FailedQueryLeavesTheServiceStopped`). The prior
  binary is never lost, and the binary is never changed under a running service unless removing the service or
  committing failed.
- **Linux installer.** Two nested compensation logs: if a step fails and no restore does, every touched target of
  both is back by way of a copy and nothing else has changed. That is exactly the prior state if and only if whoever
  restores is root or owned what was restored (`PutBackExactly`, `ForeignOwnerIsLost`). Success puts every target's
  new content in place, if no copy silently went wrong; in every state passed through, no other visible path differs.
  Rollbacks go on past failures, and one none of whose operations fails restores everything that was recorded.
- **macOS installer.** From a failure at any step, a rollback whose steps succeed restores bundle, link,
  helper and agent; from any state at all, it removes only bundles and agents carrying an identity created by the run.
  A rollback none of whose commands fails succeeds. launchd gets the prior agent back only if its file was there:
  one that was loaded from elsewhere stays unloaded.
- **Registry.** What is stored is what was sent. Addresses are pairwise distinct as six bytes and local ports nonzero
  and unique, in every reachable state; the limiter's index is a function of the registry after every handler; the
  proxy table holds exactly the registry's keys, except that deleting an address that is a proper prefix of others, up to a
  separator, cuts their keys (`DeleteKeepsProxyTable` gives the condition, `DeleteCanCutForeignKeys` a case).
- **Shutdown keys.** In every interleaving of changes and two-phase verifications a verified machine has
  shutdown enabled and a key that a probe confirmed, and a rotation defeats every probe begun before it. The
  write-back compares only the key, so a machine that has moved can end verified where nobody probed it
  (`MovedMachineIsVerified`). The check it lacks, that the machine is still at the probed endpoint or verified
  already, is exactly right: of registry and probe alone it passes if and only if the write-back is harmless
  whatever came before (`TheMissingCheckIsExact`), and runs in which it passes keep every verified machine at
  an endpoint where its key was confirmed (`SafeRunsKeepEndpointsConfirmed`).
- **Inactivity limiter.** Over any interleaving with stale clock readings, every turn-off signal follows more
  than the window of recorded quiet, two signals have a reset between them, and the first overdue tick sends one.
- **Replay guard.** In every run only authentic requests within the clock window are accepted. Under a clock that does
  not go back and a load within capacity, what was accepted once is rejected ever after, for all runs if and only if the retention is at least twice the skew.
- **Codecs and fast forms.** Quoting decodes back through the layers of the Desktop Entry Specification
  (sections "Possible value types" and "The Exec key") and the token rules of the POSIX Shell Command Language
  (sections 2.2.1, 2.2.2 and 2.3); the backwards log reader prints the last lines of the whole
  file; bucketing conserves counts and refines from weeks to days to hours; the single-pass scan of a legacy
  entry decides whether some group qualifies.

## Model

| member | source | states |
|---|---|---|
| `ProtectedBinary.UnixProtectedBinaryUpdate.RollbackInner` | src/service.rs:519-566 | for every combination of failures, exactly the tree it leaves, how many operations it took and whether it reports success; every state on the way is one of four |
| `ProtectedBinary.UnixProtectedBinaryUpdate.Drop` | src/service.rs:569-576 | a finished update is left alone; an unfinished one is rolled back once more, through the same states, and completely if nothing fails and the backup is still there |
| `ProtectedBinary.UnixProtectedBinaryUpdate.Rollback` | src/service.rs:511-517 | complete if no step fails; at every step the prior binary is at the destination or the backup unless the restoring rename succeeds, the sync after it fails and the drop removes the file; in that pattern it is lost; no other path changes |
| `ProtectedBinary.UnixProtectedBinaryUpdate.RollbackThenDrop` | src/service.rs:511-517 | where the first pass ends, by cases of the failures, and what the second pass of the drop makes of it |
| `ProtectedBinary.UnixProtectedBinaryUpdate.Commit` | src/service.rs:493-509 | success leaves the new binary and no backup; a failure before the backup is removed undoes the update; a failure after it leaves the new binary; at every step the prior binary is kept until the backup is deleted; it succeeds if no step fails |
| `ProtectedBinary.UnixProtectedBinaryUpdate.SecondPassStates` | src/service.rs:569-575 | a pass over an already undone update can only leave it or take the restored file away, and taking it away loses the prior binary |
| `ProtectedBinary.UnixProtectedBinaryUpdate.SecondPassOfUnrestored` | src/service.rs:569-575 | a pass over an update whose backup is still aside keeps the prior binary in every state |
| `ProtectedBinary.StageBinary` | src/service.rs:578-691 | success leaves a file with exactly the source's bytes, the service owner and mode 0755 beside the destination, even if a copy was silently corrupted; failure leaves at most that file, and with one fault nothing; without faults it stages if and only if the source is a regular file, the directory is one, the destination is missing or protected, and the name is free |
| `ProtectedBinary.CopyVerified` | src/service.rs:651-671 | a copy that passes the comparison holds the bytes of the source |
| `ProtectedBinary.BackUp` | src/service.rs:693-710 | the prior binary is moved to a free name or is still in place |
| `ProtectedBinary.Publish` | src/service.rs:712-723 | the stage replaces nothing; a failure moves the backup back and drops the stage |
| `ProtectedBinary.MoveIntoPlace` | src/service.rs:693-723 | publication or, with one fault, the tree as it was; the prior binary is kept in every state; without faults it publishes whenever the backup name is free or not needed |
| `ProtectedBinary.SyncPublished` | src/service.rs:724-738 | a failing sync rolls the update back from the next operation on; the prior binary is lost if and only if that rollback loses it |
| `ProtectedBinary.BeginUpdateAt` | src/service.rs:578-739 | success publishes the source's bytes and keeps the prior file aside; a failure with one fault changes nothing; no other path ever changes; a rollback starts only after the last sync failed, and the prior binary is lost if and only if that rollback loses it; without faults it begins if and only if source, directory, destination and names are as demanded |
| `ProtectedBinary.RolledBackTree` | src/service.rs:519-565 | undoing what was published gives back the tree the update began with |
| `ProtectedInstall.EnsureDirectoryAt` | src/service.rs:355-430 | success means a real directory with the owner and mode asked for, created exactly if it was missing; an existing one is never changed; without failures it succeeds exactly on a protected directory, or on a missing one whose parent is there |
| `ProtectedInstall.PrepareDirectory` | src/service.rs:776-812 | every component is a protected directory afterwards, only missing ones on the way are added, and the result tells whether the last was created; without failures it succeeds if and only if every directory on the way is missing or protected |
| `ProtectedInstall.BeginProtectedUpdate` | src/service.rs:815-838 | an update begun on the prepared directory; a failure with one fault leaves every file as it was; the prior binary is lost exactly if a rollback started and loses it; without faults it begins if and only if the tree is fit for it (`Installable`) |
| `ProtectedInstall.RolledBackIsUnwound` | src/service.rs:519-565 | a complete rollback leaves every file as before and removes a directory created for the update |
| `ProtectedInstall.CommitInstalled` | src/service.rs:1718-1721 | committed exactly, or with one fault either undone or committed; the prior binary is kept until then; it succeeds if no step fails |
| `ProtectedInstall.RollbackInstalled` | src/service.rs:1722-1732 | undone if nothing fails; the prior binary is kept at every step, or lost exactly if the rollback is a losing one |
| `ProtectedInstall.Install` | src/service.rs:1654-1761 | the whole installation on Unix: what success leaves, when a rollback starts, that one without fault leaves everything as before, what one failing operation leaves, and that the prior binary is kept at every step until the new one is committed, unless that rollback loses it; without faults it begins if and only if nothing unsafe is on the way or at the destination, and then succeeds if and only if the service steps do |
| `ProtectedInstall.ParentMayGo` | src/service.rs:826-833 | removing a directory that was created for the update disturbs nothing that was there before |
| `WindowsInstall.WindowsProtectedBinaryUpdate.RollbackInner` | src/service.rs:1321-1360 | success restores the prior binary and removes the created directories; failure leaves a state from which another pass can; the prior binary is kept throughout; it succeeds if no operation of the pass fails |
| `WindowsInstall.WindowsProtectedBinaryUpdate.Rollback` | src/service.rs:1313-1319 | with the drop after it, the prior binary is at one of the two paths whatever fails; if none of its operations fails it succeeds and the prior binary is in place |
| `WindowsInstall.WindowsProtectedBinaryUpdate.Drop` | src/service.rs:1363-1370 | keeps the prior binary, and disturbs no stopped service; an unfinished update is undone if no operation fails |
| `WindowsInstall.WindowsProtectedBinaryUpdate.Commit` | src/service.rs:1302-1311 | the backup goes only on success; a backup that cannot be removed means the prior binary is kept; it succeeds if no operation fails |
| `WindowsInstall.EnsureDirectories` | src/service.rs:1200-1235 | the directories missing before are the ones counted as created; it succeeds if no operation fails |
| `WindowsInstall.BeginUpdate` | src/service.rs:1373-1497 | success publishes the source's bytes, even if a copy was silently corrupted, with the prior binary aside; the prior binary is kept in every state; a stopped service stays as it is; if no operation is at fault it begins if and only if there is no binary or a safe one |
| `WindowsInstall.StageCopy` | src/service.rs:1431-1449 | a copy that passes the comparison and is protected holds the bytes of the source; it succeeds if no operation is at fault |
| `WindowsInstall.SwapIn` | src/service.rs:1455-1497 | backup, publication without overwriting and validation, with the prior binary kept in every state; it succeeds if no operation fails, and with one fault it succeeds or leaves the paths as they were |
| `WindowsInstall.StopForRestart` | src/service.rs:2201-2229 | success means the same service, stopped, its process gone; failure leaves it no more alive than it was, and a running one stopped if only the last query fails; without failures a service not marked for deletion is stopped unless it outlasts the polls |
| `WindowsInstall.DeleteIfExists` | src/service.rs:2241-2276 | success means that the service is gone, not merely marked for deletion; without failures it succeeds if and only if there is none, or one not marked already that does not outlast the polls |
| `WindowsInstall.InstallService` | src/service.rs:2159-2198 | success means a fresh stopped service over a valid protected binary; over a safe binary, without failures, only a service that cannot be removed stops it |
| `WindowsInstall.Start` | src/service.rs:2010-2030 | only a stopped service whose image is the protected binary is ever started; without failures such a one over a safe binary always is |
| `WindowsInstall.Prepare` | src/service.rs:1534-1572 | records what there was and stops it; whether the use of the protected binary is noticed depends on one operation; failing, it leaves the service no more alive than it was; without failures it succeeds unless the service outlasts the polls |
| `WindowsInstall.InspectService` | src/service.rs:1537-1559 | what is read of an existing service, and that one operation decides whether its binary counts as protected |
| `WindowsInstall.Restore` | src/service.rs:1575-1599 | a service that used the protected binary is back with its running state; any other is removed if it was touched; without failures it succeeds unless a service in the way cannot be removed |
| `WindowsInstall.UndoInstall` | src/service.rs:1722-1758 | what each prefix of successful compensating steps leaves; if none of its operations fails the prior binary is back, and everything is put back unless the service left was marked for deletion already or outlasts the polls; the binary of a running service is changed only if removing the service failed |
| `WindowsInstall.ConfigureService` | src/service.rs:1676-1716 | success means the new service runs and was reached; without failures only a service that cannot be removed stops it; a service is left marked for deletion only if an operation failed or the polls ran out |
| `WindowsInstall.InstallPrepared` | src/service.rs:1659-1761 | the installation over a service that is stopped: success, the binary and the service after an undoing, and that an undoing without failures compensates |
| `WindowsInstall.Install` | src/service.rs:1654-1761 | the end state of success, of every failure whose compensations succeed, and of a failed preparation; a protected service is as before if and only if the one validation did not fail or it was stopped and untouched; the prior binary is kept until the commit; no binary changes under a running service unless removal or commit failed; without failures it succeeds over whatever is safe; an undoing none of whose operations fails puts everything back, unless a service marked by an earlier, failed deletion or outlasting the polls is in the way |
| `WindowsInstall.FailedValidationForgetsTheService` | src/service.rs:1555-1557 | a running protected service is left stopped although every compensating step succeeded |
| `WindowsInstall.FailedQueryLeavesTheServiceStopped` | src/service.rs:2211-2217 | an installation that ends in its preparation leaves a running service stopped |
| `LinuxInstall.TargetsCoincideOnlyOnTheDesktop` | install.sh:1580-1592 | of the nine targets only the menu entry and its copy on the desktop can be the same path |
| `LinuxInstall.ReplaceFile` | install.sh:985-1020 | the target changes at once or not at all, to the file asked for unless a copy silently went wrong, and no other visible path ever changes; without failures only a directory in its place stops it |
| `LinuxInstall.Transaction.Snapshot` | install.sh:1595-1606 | without faults the snapshot is what is there, and only a regular file or a missing one can be recorded; without failures exactly those are recorded |
| `LinuxInstall.Transaction.Publish` | install.sh:1640-1655 | the target holds the new content, if the copy was honest, or what it held, and is marked as touched either way; without failures only a directory in its place stops it |
| `LinuxInstall.Transaction.Restore` | install.sh:1608-1620 | the target is as recorded, if the copy was honest, or unchanged; without failures only a directory in its place stops it |
| `LinuxInstall.Transaction.Rollback` | install.sh:1622-1638 | every touched target has its turn whatever became of the others; a turn in which no operation fails and no directory is in the way restores its target; it succeeds if and only if every turn did, and nothing else is different |
| `LinuxInstall.SnapshotProfile` | install.sh:1657-1664 | every target of the profile is recorded before any is touched; without failures exactly if nothing but regular files is there |
| `LinuxInstall.PublishProfile` | install.sh:1666-1689 | success leaves the profile's tree; a failure differs at touched targets only; the legacy entry goes only if its content is ours; without failures and directories in the way it succeeds |
| `LinuxInstall.ProfileContents` | install.sh:1667-1688 | which bytes and which mode each published target holds |
| `LinuxInstall.ProfileTreeElsewhere` | install.sh:1667-1688 | publication changes no path that is not a target |
| `LinuxInstall.Integrate` | install.sh:1438-1690 | the profile's transaction: published, or put back; no path but its targets differs in any state; without failures it succeeds if and only if nothing but regular files is in its way; a rollback none of whose operations fails puts everything back |
| `LinuxInstall.InstallBinaries` | install.sh:2714-2728 | helper and CLI in place, or a difference at touched targets only; an archive without helper removes a stale one; without failures and directories in the way it succeeds |
| `LinuxInstall.NestedRollbacks` | install.sh:2573-2584 | the outer rollback completes the inner one although neither knows of the other's targets |
| `LinuxInstall.PutBackExactly` | install.sh:1008-1020 | after both rollbacks everything is exactly as it was if and only if every restored file belonged to the user or the user is root |
| `LinuxInstall.RestoredExactly` | install.sh:1018 | one restored path is as it was if and only if its owner could be kept |
| `LinuxInstall.ForeignOwnerIsLost` | install.sh:1018 | a file of somebody else's comes back as the restoring user's own |
| `LinuxInstall.InstalledTargets` | install.sh:2714-2728 | after success the binaries are in place and no other path than the targets has changed |
| `LinuxInstall.Install` | install.sh:2713-2737 | what success and a failure with all restores done leave, and which targets were restored; without failures it succeeds if and only if nothing but regular files is in its way; rollbacks none of whose operations fails restore everything, if the snapshots were taken without fault; what holds in every state passed through |
| `LinuxInstall.IntegrateInstalled` | install.sh:2726-2728 | the profile's transaction over the installed binaries, seen from the tree before them |
| `LinuxInstall.RollbackBinaries` | install.sh:2573-2584 | with the inner rollback done, the outer one puts both transactions back; it succeeds if none of its operations fails and no directory is in the way |
| `MacosInstall.Transaction.Rollback` | install.sh:2274-2344 | from any state only nodes of this run are removed; from any state of a run, success restores everything; the prior bundle and agent are kept in every state; from such a state it succeeds if none of its commands fails |
| `MacosInstall.Transaction.RollbackAgent` | install.sh:2277-2315 | the new agent is unloaded and removed and the prior one moved back, or it reports failure and both are kept; it succeeds if none of its commands fails |
| `MacosInstall.Transaction.RollbackBundle` | install.sh:2320-2336 | the new bundle is removed and the prior one moved back, or it reports failure and the prior one is kept; it succeeds if none of its commands fails |
| `MacosInstall.Transaction.Publish` | install.sh:2465-2529 | success is full publication; a failure at any step leaves a state the rollback can restore; it succeeds if no command fails |
| `MacosInstall.Transaction.PlaceBundle` | install.sh:2466-2484 | the prior bundle goes aside and the staged one takes its place, in states the rollback knows |
| `MacosInstall.Transaction.PlaceAgent` | install.sh:2490-2505 | the same for the agent, published by a second name for the stage |
| `MacosInstall.Transaction.LoadAgent` | install.sh:2507-2518 | the new agent is loaded instead of the old; which of the two launchd may hold after a failure |
| `MacosInstall.Transaction.Cleanup` | install.sh:2346-2411 | what recovery needs is preserved after a failed rollback or an altered publication; the set-aside bundle goes only if it is the one moved there; everything that is the run's own is gone if no command fails |
| `MacosInstall.Install` | install.sh:1927-2530 | success, rolled-back failure with the exact state of launchd, and the prior bundle and agent kept until the commit; if no command fails it is committed and cleaned up if and only if an existing bundle is the application's and an existing agent a file; a rollback none of whose commands fails succeeds |
| `MachineRegistry.ValidateMachineConfig` | src/proxy_server.rs:521-584 | accepts exactly what is well-formed by itself and compatible with every other machine, and names each field at fault |
| `MachineRegistry.CollectPorts` | src/proxy_server.rs:544-553 | the ports offered, and whether they are valid and distinct |
| `MachineRegistry.CompareWithOthers` | src/proxy_server.rs:554-578 | whether the address or a port is taken by a machine not being replaced |
| `MachineRegistry.Secured` | src/proxy_server.rs:64-88 | a key in use is kept, a legacy machine stays without, a newly enabled one gets the fresh key, and verification survives exactly an update that leaves the connection alone |
| `MachineRegistry.SecuredTwice` | src/proxy_server.rs:64-88 | an update repeated changes neither key nor verification |
| `MachineRegistry.AddedIsSent` | src/proxy_server.rs:605-657 | what an addition stores is what was sent, with the defaults filled in, and nothing that can be stored is refused |
| `MachineRegistry.UpdatedIsSent` | src/proxy_server.rs:723-780 | the same for an update of the first entry under an address |
| `MachineRegistry.AddKeepsWellFormed` | src/proxy_server.rs:586-657 | adding keeps addresses distinct as bytes and local ports nonzero and unique |
| `MachineRegistry.UpdateKeepsWellFormed` | src/proxy_server.rs:723-780 | so does updating, including a change of address |
| `MachineRegistry.RotateKeepsWellFormed` | src/proxy_server.rs:388-419 | so does rotating a key |
| `MachineRegistry.WithoutKeepsWellFormed` | src/proxy_server.rs:811-832 | so does deleting |
| `MachineRegistry.ProxyKeyIsInjective` | src/web.rs:283 | for valid addresses the key of a forward determines address and ports |
| `MachineRegistry.PrefixSelectsOneMachine` | src/proxy_server.rs:785-789 | the prefix test of an update finds exactly one machine's keys |
| `MachineRegistry.DeletionPrefixReaches` | src/proxy_server.rs:836-845 | exactly which keys the prefix test of a deletion finds, for any address given |
| `MachineRegistry.DeleteKeepsProxyTable` | src/proxy_server.rs:836-845 | deletion leaves the registry's keys if and only if the given address cuts no foreign key |
| `MachineRegistry.FullAddressesCutNothing` | src/proxy_server.rs:836-845 | a full address never cuts foreign keys |
| `MachineRegistry.DeleteCanCutForeignKeys` | src/proxy_server.rs:836-845 | deleting an unregistered partial address can cut a registered machine's keys |
| `MachineRegistry.UpdateKeepsProxyTable` | src/proxy_server.rs:782-803 | an update leaves exactly the registry's keys |
| `MachineRegistry.TrafficKeepsIndex` | src/forward.rs:147-223 | connections and monitor ticks keep the index a function of the registry |
| `MachineRegistry.StartKeepsIndex` | src/web.rs:264-274 | so does starting the proxies of a registered machine |
| `MachineRegistry.AppState.StartProxyIfConfigured` | src/web.rs:264-313 | the timer event and the proxy keys of one machine |
| `MachineRegistry.AppState.Start` | src/proxy_server.rs:172-241 | after start-up index and proxy table match the registry |
| `MachineRegistry.AppState.AddMachine` | src/proxy_server.rs:586-657 | a request is admitted exactly for what it says itself and what the other machines have; the entry appended holds every field sent, sixty minutes if no period was, a fresh key exactly if shutdown is enabled, and is unverified; refused or unsaved requests change nothing; index and table match |
| `MachineRegistry.AppState.UpdateMachine` | src/proxy_server.rs:723-809 | the first entry under the address, and no other, is replaced by one that holds every field sent, and key and verification are kept exactly as they may be; refused or unsaved requests change nothing; index and table match |
| `MachineRegistry.AppState.DeleteMachine` | src/proxy_server.rs:811-851 | exactly the entries under the address go; index and table match unless foreign keys are cut |
| `MachineRegistry.AppState.RotateShutdownKey` | src/proxy_server.rs:388-419 | the first entry under the address, if shutdown is enabled, gets the fresh key, unverified, and nothing else changes; the limiter is left alone |
| `MacAddress.ParseMac` | src/wol.rs:99-120 | parses exactly the texts of twelve hex digits among any separators, to the six bytes they spell |
| `MacAddress.FormattedMacIsParsed` | src/wol.rs:99-120 | six bytes written in hexadecimal, in either case and with either separator, are valid and parsed as them |
| `MacAddress.SameMacIsSameBytes` | src/proxy_server.rs:558-561 | for valid addresses the registry's comparison holds exactly when the six bytes are equal |
| `MacAddress.UnvalidatedMacsCanCollide` | src/wol.rs:99-120 | without validation two texts the registry tells apart can be the same six bytes |
| `KeyVerification.VerifySnapshot` | src/proxy_server.rs:325-341 | a machine is probed if and only if it is the first under the address and awaits proof, at its own endpoint and with its own key; unknown addresses are told apart; a status told otherwise is that of the entry |
| `KeyVerification.UndisturbedVerificationSettles` | src/proxy_server.rs:319-374 | with nothing in between, a proved probe finds its machine and the next verification reports it verified; an unsaved one leaves it to be probed again |
| `KeyVerification.VerifyWriteBack` | src/proxy_server.rs:353-374 | the first entry under the address is marked if and only if it still holds the probed key and the save succeeds; nothing else changes; the status reported is that of the entry as it now is |
| `KeyVerification.WriteBackLosesNoUpdate` | src/proxy_server.rs:353-374 | the write-back changes nothing but the verified flag of one machine that holds the probed key |
| `KeyVerification.StepKeepsSound` | src/proxy_server.rs:319-419 | every operation keeps: well-formed, keys issued and distinct, verified only if confirmed |
| `KeyVerification.ReachableStatesAreSound` | src/proxy_server.rs:319-419 | so does every run, in any interleaving, saves failing or not |
| `KeyVerification.RetiredStaysRetired` | src/proxy_server.rs:388-419 | a key no machine holds is never held again |
| `KeyVerification.RotationRetiresKey` | src/proxy_server.rs:388-419 | a saved rotation retires the key it replaces |
| `KeyVerification.RotationDefeatsOldProbe` | src/proxy_server.rs:354-361 | a probe of a rotated key never marks a machine, however much later it writes back |
| `KeyVerification.WriteBackKeepsEndpointsConfirmed` | src/proxy_server.rs:354-375 | verified machines stay at endpoints where their key was confirmed if and only if the machine written to is still at the probed endpoint, was verified already, or was confirmed where it is by another verification |
| `KeyVerification.TheMissingCheckIsExact` | src/proxy_server.rs:354-363 | of registry and probe alone, the check the handler lacks passes if and only if the write-back is harmless after every history |
| `KeyVerification.SafeRunsKeepEndpointsConfirmed` | src/proxy_server.rs:354-363 | in every run whose saved write-backs pass that check, verified machines are at confirmed endpoints in every state |
| `KeyVerification.OthersKeepEndpointsConfirmed` | src/proxy_server.rs:64-88 | every other operation keeps them there |
| `KeyVerification.MovedMachineIsVerified` | src/proxy_server.rs:354-375 | a machine moved between probe and write-back ends verified at an address nobody probed |
| `InactivityLimiter.TurnOffLimiter.InitializeMachine` | src/forward.rs:94-111 | the new entry, or none if the machine is not to be watched |
| `InactivityLimiter.TurnOffLimiter.UpdateMachine` | src/forward.rs:114-139 | as one event, or, if the entry is missing, as an update without effect, whatever other tasks do before the lock is taken again, and an initialisation |
| `InactivityLimiter.TurnOffLimiter.UpdateEntry` | src/forward.rs:114-134 | as one event, keeping the last request of an entry that was there, and telling whether it is missing |
| `InactivityLimiter.TurnOffLimiter.UpdateLastRequest` | src/forward.rs:147-157 | as one event, re-arming the entry |
| `InactivityLimiter.TurnOffLimiter.MonitorTick` | src/forward.rs:159-223 | the loop over the entries sends exactly the overdue untriggered ones and marks those |
| `InactivityLimiter.Window` | src/forward.rs:100 | so many minutes, at most `u32::MAX` seconds |
| `InactivityLimiter.SignalFollowsQuiet` | src/forward.rs:165-193 | every signal follows more than the window since the last recorded request, however stale the clocks |
| `InactivityLimiter.FirstOverdueTickSignals` | src/forward.rs:165-193 | the first tick after a reset signals if and only if it is overdue |
| `InactivityLimiter.SignalsAreSeparated` | src/forward.rs:176-178 | between two signals for a machine there is a reset |
| `InactivityLimiter.SignalsAreBudgeted` | src/forward.rs:176-178 | there are never more signals than resets |
| `InactivityLimiter.RunsAgree` | src/forward.rs:94-223 | what a run of the whole map does to one machine is what its own events do |
| `InactivityLimiter.TicksSendTheSignals` | src/forward.rs:165-223 | what a tick sends is what the events of each machine say |
| `InactivityLimiter.WatchedSinceConfigured` | src/forward.rs:94-157 | a machine is watched exactly while a configuration is in force, traffic never starts that, and its entry has the address, port, key and window of the last one |
| `ReplayProtection.ReplayGuard.Verify` | src/shutdown_auth.rs:125-160 | accepted if and only if the timestamp parses and is within 60 seconds, the nonce is not remembered within retention, and the signature is authentic; each other verdict likewise; only an accepted nonce is added |
| `ReplayProtection.ReplayGuard.Prune` | src/shutdown_auth.rs:162-166 | keeps exactly the nonces still within retention |
| `ReplayProtection.ReplayGuard.RemoveOldest` | src/shutdown_auth.rs:168-177 | removes one nonce no younger than any other |
| `ReplayProtection.AcceptancesAreGenuine` | src/shutdown_auth.rs:125-160 | in every run, whatever is accepted has an authentic signature and a timestamp within 60 seconds, and every nonce remembered is that of such an acceptance |
| `ReplayProtection.DecimalsAreParsed` | src/shutdown_auth.rs:131-134 | the decimal form of a number, signed or not, is parsed to it if and only if it fits in 64 bits |
| `ReplayProtection.OtherTextIsNotParsed` | src/shutdown_auth.rs:131-134 | nothing with another character is parsed |
| `ReplayProtection.NeverAboveCapacity` | src/shutdown_auth.rs:155-158 | memory never holds more than the capacity, in any run |
| `ReplayProtection.NothingIsEvicted` | src/shutdown_auth.rs:155-158 | within the load, no nonce still due is evicted |
| `ReplayProtection.SeenIsExact` | src/shutdown_auth.rs:125-166 | memory is exactly the accepted nonces still within retention at the last prune |
| `ReplayProtection.OnlyReplaysAreCalledReplays` | src/shutdown_auth.rs:141-144 | a nonce called a replay was accepted before, in any run |
| `ReplayProtection.ReplaysAreRejected` | src/shutdown_auth.rs:14-160 | with retention at least twice the skew, headers accepted once are never accepted again |
| `ReplayProtection.RetentionMustBeTwiceTheSkew` | src/shutdown_auth.rs:14-160 | settings are safe for all runs if and only if retention is at least twice the skew |
| `ReplayProtection.ShortRetentionAdmitsReplay` | src/shutdown_auth.rs:162-166 | a shorter retention has a run that accepts the same headers twice |
| `ReplayProtection.DefaultSettingsAreSafe` | src/shutdown_auth.rs:180-184 | the defaults of 120 seconds and 4096 nonces are safe |
| `LogTail.ReadTailForLines` | src/service.rs:2476-2506 | the chunks read backwards are a suffix of the file, the whole file or one with more line feeds than lines wanted |
| `LogTail.PrintLastLogLines` | src/service.rs:2460-2473 | what is printed is the last lines of the whole file as decoded lossily, for every file and count |
| `LogTail.PrintDecoded` | src/service.rs:2460-2473 | the same for every decoder that decodes line by line |
| `LogTail.TailHasTheLastLines` | src/service.rs:2460-2506 | the last lines of such a suffix are the last lines of the file |
| `LogTail.LossyDecodesLineByLine` | src/service.rs:2463 | lossy UTF-8 decoding splits at line feeds, even inside a malformed sequence |
| `LogTail.EncodedIsDecoded` | src/service.rs:2463 | every text encoded by section 3 of RFC 3629 is decoded as itself |
| `DesktopEntry.ExecLayerIsPerCharacter` | src/tray/desktop.rs:1434-1443 | the chain of whole-string replacements encodes each character by itself |
| `DesktopEntry.QuoteRoundTrip` | src/tray/desktop.rs:1434-1443 | a quoted value decodes back to itself through string escapes, quoting and percent rules; control characters are refused |
| `DesktopEntry.EscapeRoundTrip` | src/tray/desktop.rs:1446-1449 | an escaped value decodes back to itself |
| `DesktopEntry.QuotedValuesAreOneLine` | src/tray/desktop.rs:1434-1457 | an accepted value has no line feed, carriage return or other control character in either form, so an entry stays one line |
| `DesktopEntry.ControlsAreRefused` | src/tray/desktop.rs:1452-1457 | both forms refuse exactly the values with one of the 33 ASCII control characters, line feed and carriage return among them |
| `ShellScript.ScriptRoundTrip` | src/tray/desktop.rs:1575-1592 | the shell splits the script into exactly the given parts |
| `ShellScript.KeepOpenRoundTrip` | src/tray/desktop.rs:1582-1583 | with the prompt appended, into the parts followed by the three closing commands |
| `ShellScript.QuotedValueIsRead` | src/tray/desktop.rs:1590-1592 | a quoted value is read as itself in any context |
| `AccessHistory.BucketHistory` | frontend/src/components/dashboard/history.rs:6-23 | aligned rows in increasing order, each with the exact count of every service, and no row without one |
| `AccessHistory.BucketService` | frontend/src/components/dashboard/history.rs:15-20 | one service's timestamps added to the rows of those before it |
| `AccessHistory.Entry` | frontend/src/components/dashboard/history.rs:17-19 | the row of a bucket, inserted in order if it is new |
| `AccessHistory.UniqueBucket` | frontend/src/components/dashboard/history.rs:16 | a timestamp, negative or not, is in exactly one aligned bucket |
| `AccessHistory.BucketingConserves` | frontend/src/components/dashboard/history.rs:6-23 | per service, the counts add up to the number of timestamps |
| `AccessHistory.DaysAreSumsOfHours` | frontend/src/components/dashboard/history.rs:8-12 | a day's count is the sum of its hours' |
| `AccessHistory.WeeksAreSumsOfDays` | frontend/src/components/dashboard/history.rs:8-12 | a week's count is the sum of its days' |
| `AccessHistory.WeeksStartOnMonday` | frontend/src/components/dashboard/history.rs:10 | weekly buckets start on Mondays |
| `AccessHistory.OverflowOnlyAtTheEnds` | frontend/src/components/dashboard/history.rs:16 | no step overflows 64 bits if and only if the timestamp is from the first whole bucket on and no later than the offset before the end |
| `LegacyAutostart.LinuxDesktopExecTokens` | src/tray/desktop.rs:1142-1184 | the bounded tokenizer is its specification, for every text and limit |
| `LegacyAutostart.TokenizerReadsQuotedLists` | src/tray/desktop.rs:1142-1184 | lists quoted by the rules are read back, up to the limit |
| `LegacyAutostart.LinuxLegacyExecIsOwned` | src/tray/desktop.rs:1126-1139 | exactly when the command is ours |
| `LegacyAutostart.QuotedExecIsOwned` | src/tray/desktop.rs:1126-1139 | a quoted command line is ours if and only if its file name is that of the tray helper, or that of the main binary with `tray` for an argument, whatever the directory |
| `LegacyAutostart.LinuxLegacyAutostartIsOwned` | src/tray/desktop.rs:1091-1123 | the single pass returns true if and only if some group's last assignments all qualify |
| `LegacyAutostart.EntryIsOwned` | src/tray/desktop.rs:1091-1123 | an entry of Type, Name and Exec is ours if and only if it is an application of one of the two names that starts one of the binaries |
| `Text.DecimalRoundTrip` | src/web.rs:283 | a number formatted in a proxy key can be read back |
| `Text.JoinedLinesAreRead` | src/service.rs:2463 | lines written one by one are read back |

## Left out

- Sockets, HTTP, Wake-on-LAN sending, scanning, DNS and process control: each is a success, a failure or a parameter.
- HMAC, SHA-256, base64 and random numbers: signature checking is an uninterpreted function of the request, the comparison of hashes is a comparison of bytes, and keys are fresh.
- Access lists, symlinks and reparse points: entries are regular files, directories or something else, and on Windows a file is safe or not.
- The machine type, a label carried along unread.
- Temporary names are parameters (in `LinuxInstall` a free name is found, as `mktemp` does), and publishing without overwriting is one atomic operation.
- Serialisation of the registry: a save succeeds with what was given or fails; only memory is claimed on failure.
- Spawned forwarders insert their proxy key before the next operation; their own restarts and the channels that stop them are not modelled.
- The shutdown key held by the limiter is not tied to the registry, since a rotation does not update it.
- systemd, launchd and netsh beyond the outcomes named in the model; service descriptors and firewall rules, which the source does not restore either.
- Interfering processes and signals: the macOS rollback is proved to spare foreign nodes from any state, but not against changes between a check and the command after it; a signal is a step that fails after it took effect.
- LinuxInstall.Install: a test that fails reads as absence, and `cp` is not compared, as in the script; so restoration is claimed only if the snapshots were taken without fault and the copies back did copy.
- MacosInstall.Install: the tests of identities and file types are taken to answer correctly; copies of the two leaves keep content and kind, not owner.
- Directories created by `mkdir -p` in `install.sh` stay after a failure; hidden temporary files may stay if removing them fails.
- ProtectedInstall.Install: directories above the protected one that were created on the way stay after a failure, as in the source; only the protected one is removed.
- Directories of the layout that are links to one another: paths are compared as written.
- The ownership scan of `install.sh` over a legacy entry is a parameter; the scan of the tray is modelled in full.
- The path of root installing for another user runs the same transaction as that user; only who owns what differs.
- A link to a directory at the place of the macOS CLI, into which `mv` would move the new link.
- The removal of an installed service and its binary, log following, status, and the text generators for units and property lists: easy by comparison.
- AccessLog, sparklines, magic packets, release URLs, menus, views, configuration and the update download.
- WindowsInstall.BeginUpdate: the retries of a Windows file operation are one operation that succeeds or fails.
- WindowsInstall.StopForRestart: the deadline of thirty seconds is a number of polls.
