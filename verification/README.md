# YCluster verification model

A Dafny 4.11 model of the parts of YCluster where state, time and concurrency
meet, with proofs about every input, every run and every interleaving.

| files | what they model |
|---|---|
| `Schedule`, `Commitments`, `Admission`, `Races` | desired power states, GPU commitments and admission control of the scheduling page, and edits that race |
| `Names`, `GpuPool`, `Lifecycle`, `Reconciler`, `GraceSafety`, `Convergence`, `ReleaseFaults`, `TickEffects` | the passthrough GPU pool of a host, its lifecycle operations and the two-pass reconciler tick |
| `NodeNames`, `Allocation` | hostname and address allocation by compare-and-swap from the admin API and the DHCP server |
| `Billing`, `Drain` | GPU-hour accounting from lifecycle events, and draining those events into the database |
| `Acl`, `Source`, `Load`, `Dispatch` | the inference proxy: access rules, the etcd view, load counters and retry dispatch |
| `Pins`, `Bastion` | the address pin migration and the jump host's access list |

`dafny verify dfyconfig.toml` checks everything.

Conventions:

- Instants are whole microseconds, the resolution of a Python datetime, so the
  truncation of stamps and windows to whole seconds is modelled exactly.
- Protocols with several actors (`Allocation`, `Races`, `Drain`, `Load`, `GraceSafety`)
  are transition functions over labelled actions; "every interleaving" is every
  sequence of actions, and an action that does not apply changes nothing.
- Incus commands fail wherever a `Faults` value says so; one value covers one
  operation or one tick, in which each command occurs at most once. GPU health
  is part of it and fixed for that time.
- Code that works in place is a class or a method with loops whose contract ties
  it to a specification function; the theorems are about those functions.

Where code and text disagree the model follows the code, and a lemma says
exactly when the text holds:

- Only unreachable backends, 5xx, 429 and 404 are retried
  (`local-ai-proxy/handler.go:351-355`, against `local-ai-proxy/README.md:21`).
- The reconciler promises a retry per VM (`vm_manager.py:897-898`). A release that
  raises for a VM that was already stopped ends the whole tick, start pass
  included, as does a marker stamp without a timezone, and no failed release is
  ever retried (`ReleaseFaults`).
- The drain promises not to let a bad event wedge the queue
  (`collect-vm-stats.py:76`). JSON that is no object, and an object the table
  refuses, do (`Drain.CompletesIff`, `Drain.FatalWedges`).
- The pin migration promises to avoid live addresses of other instances
  (`vm_manager.py:1339-1341`). It looks at pins only (`Pins.NewPinIff`).
- One event before a window is said to decide what was on the clock at its start
  (`app.py:2964-2967`), while billing is a property of the opening event
  (`app.py:3003`). Both hold iff that event agrees with the opener
  (`Billing.WindowedIff`).

## Model

| member | source | states |
|---|---|---|
| `Schedule.ParseWindow` | config/ansible/admin/files/ycluster/ycluster/utils/vm_manager.py:758-772 | a window parses iff it is zoned and covers some instant (not before now, when a clock is given), and then covers the same instants |
| `Schedule.ParseWindows` | config/ansible/admin/files/app.py:2768-2795 | accepts a posted list iff it has at most 50 windows, every one well formed, zoned and non-empty; keeps exactly the live ones, truncated to seconds and in start order |
| `Schedule.WholeSecond` | config/ansible/admin/files/app.py:2792-2793 | truncation is to the last whole second not after the instant |
| `Schedule.StoredWindowsOpen` | config/ansible/admin/files/ycluster/ycluster/utils/vm_manager.py:775-790 | a schedule read back from the store is open at an instant iff some window that was written covers it |
| `Schedule.WantedByMode` | config/ansible/admin/files/ycluster/ycluster/utils/vm_manager.py:775-790 | what each mode asks for at an instant: on always, a schedule exactly while a window of the record covers it, everything else never |
| `Schedule.PostedWindowsKept` | config/ansible/admin/files/app.py:2768-2795 | filtering, truncating, sorting, storing and reading back a posted list: from now on it is open iff a posted window, cut to whole seconds, covers the instant |
| `Schedule.TruncationEffect` | config/ansible/admin/files/app.py:2792-2793 | exactly the instants at which cutting a window to whole seconds matters: the second it starts in is gained, the one it ends in lost |
| `Commitments.GpuCommitments` | config/ansible/admin/files/ycluster/ycluster/utils/vm_manager.py:822-849 | the per-host dictionary holds, for every host, exactly that host's commitments in registry order, and no empty list |
| `Commitments.CommitsConcat` | config/ansible/admin/files/ycluster/ycluster/utils/vm_manager.py:827-849 | the commitments of a registry are those of its parts, in their order |
| `Commitments.CommitmentNames` | config/ansible/admin/files/ycluster/ycluster/utils/vm_manager.py:839-848 | a commitment carries the name, owner, GPU count and mode of its record, and windows iff it is scheduled |
| `Commitments.CommitsAreCharged` | config/ansible/admin/files/ycluster/ycluster/utils/vm_manager.py:822-849 | the commitments of a host charge at every instant, past ones included, exactly the GPUs held by intents that have not elapsed |
| `Commitments.CommitsAreDemand` | config/ansible/admin/files/ycluster/ycluster/utils/vm_manager.py:811-849 | from now on, the commitments of a host charge at every instant exactly the GPUs that registry and stored intents say are held (always for unmanaged/on, never for off, during windows for schedule) |
| `Commitments.WantedIsHeld` | config/ansible/admin/files/ycluster/ycluster/utils/vm_manager.py:775-790 | a record the page writes wants its VM on exactly when it holds GPUs, and when that is |
| `Commitments.WantedWithinDemand` | config/ansible/admin/files/ycluster/ycluster/utils/vm_manager.py:775-790 | the GPUs of the VMs wanted on at an instant never exceed the GPUs committed then |
| `Commitments.WantedIsDemand` | config/ansible/admin/files/ycluster/ycluster/utils/vm_manager.py:775-849 | on a fully managed host the GPUs wanted on are all the GPUs committed |
| `Commitments.PeakAtProbe` | config/ansible/admin/files/ycluster/ycluster/utils/vm_manager.py:852-856 | every instant of a range is dominated by a probe (the range start or a window start inside it) at or before it |
| `Commitments.GpuConflict` | config/ansible/admin/files/ycluster/ycluster/utils/vm_manager.py:852-870 | no conflict iff the candidate fits at every instant of the range; a reported conflict names the true minimum of free GPUs over the whole range and its holders; an empty range is judged at its start alone |
| `Admission.GpuAdmissionError` | config/ansible/admin/files/app.py:2656-2690 | rejects exactly the inadmissible intents, never containers, zero-GPU records, off/unmanaged or unreported pools; a rejection names an instant of a claimed range at which too few GPUs are left, nowhere in it fewer, and its holders |
| `Admission.AdmittedHasRoom` | config/ansible/admin/files/app.py:2656-2690 | an admitted intent has room, against what all other VMs hold, at every future instant it claims |
| `Admission.AdmissionExact` | config/ansible/admin/files/app.py:2656-2690 | if and only if, for every list of windows: an intent is admitted iff the others leave room at every instant it claims and, for windows that are empty or elapsed, at the instants probed for them |
| `Admission.EmptyWindowStored` | config/ansible/admin/files/app.py:2788-2794 | a posted window inside one second is stored empty |
| `Admission.EmptyWindowRejected` | config/ansible/admin/files/ycluster/ycluster/utils/vm_manager.py:857-869 | such an empty window is rejected for a conflict at its start although it claims no GPU at any instant: the second half of the condition is needed |
| `Admission.VerdictMeans` | config/ansible/admin/files/app.py:2801-2851 | a request is accepted iff everything is in order (name, ownership, mode, admin-only unmanaged, windows, capacity), and any other answer names something that is not |
| `Admission.NamesAllowed` | config/ansible/admin/files/app.py:2806-2806 | a VM name is one or more lower case letters, digits and hyphens |
| `Admission.EditStores` | config/ansible/admin/files/app.py:2853-2858 | an accepted request stores its posted mode, and windows that are open from then on exactly where a posted one, cut to seconds, is |
| `Admission.SchedulePage.Set` | config/ansible/admin/files/app.py:2801-2859 | the endpoint: the answer, that acceptance stores what was posted and changes no other record, that nothing else changes anything, that only an owner or admin changes a record and only an admin sets or leaves unmanaged |
| `Admission.EditKeepsCapacity` | config/ansible/admin/files/app.py:2846-2858 | one edit other than unmanaged, accepted or not, keeps the committed GPUs of a fitting host within its pool at every later instant |
| `Admission.EditsKeepCapacity` | config/ansible/admin/files/app.py:2801-2859 | a run of such edits keeps the host fitting from the end of the run on: the induction behind capacity safety |
| `Admission.CapacitySafe` | config/ansible/admin/files/app.py:2656-2690 | whole-run capacity safety: after any sequence of on/off/schedule edits with a clock that never goes back, the GPUs committed, hence the GPUs of VMs wanted on, fit the pool at every instant from then on |
| `Admission.UnmanagedKeepsCapacityIff` | config/ansible/admin/files/app.py:2664-2666 | an accepted unmanaged edit, which is never checked, keeps the host within its pool iff the others leave room at every future instant |
| `Admission.UnmanagedOvercommits` | config/ansible/admin/files/ycluster/ycluster/utils/vm_manager.py:835-838 | a concrete unmanaged edit that overcommits a host that fitted |
| `Races.CheckAndWriteIsSet` | config/ansible/admin/files/app.py:2846-2858 | a check and its write with nothing in between leave the records one call of the endpoint leaves |
| `Races.WriteFitsIff` | config/ansible/admin/files/app.py:2853-2858 | writing an intent keeps a fitting host within its pool iff the others, as they are at the write, leave room |
| `Races.RacesFitIff` | config/ansible/admin/files/app.py:2846-2858 | exactly which interleavings of the checks and writes of any number of edits keep a host within its pool: those in which every write still finds room |
| `Races.UndisturbedHasRoom` | config/ansible/admin/files/app.py:2672-2690 | an intent that passed its check has room at its write if the other VMs of its host ask no more than at the check |
| `Races.CalmRunsFit` | config/ansible/admin/files/app.py:2846-2858 | over whole runs: if between every check and its write no other VM of that host comes to ask for more, a fitting host fits all along |
| `Races.RacingEditsOvercommit` | config/ansible/admin/files/app.py:2846-2858 | a concrete interleaving, both checks before both writes, that commits one GPU twice |
| `NodeNames.AddressPlan` | config/ansible/admin/files/app.py:136-193 | the address of every name the admin API knows, range by range, with management and WireGuard nets |
| `NodeNames.DhcpPlan` | config/ansible/admin/files/ycluster/ycluster/utils/dhcp_server.py:34-45 | the DHCP server agrees with it where both know the prefix, and has ad hoc machines at 151-199 |
| `NodeNames.SharedAddressIff` | config/ansible/admin/files/app.py:136-193 | over both address tables: two different names share an address iff they are two spellings of one number on one subnet, or a development node outside WireGuard on a dynamic address |
| `NodeNames.StorageVipIff` | config/ansible/admin/files/app.py:139-139 | the storage address 10.0.0.100 is assigned to a name iff it is the tenth macOS machine on the LAN |
| `NodeNames.GetNextHostname` | config/ansible/admin/files/app.py:214-250 | the gap search over the sorted numbers in use yields the specified next name |
| `NodeNames.PrefixPlan` | config/ansible/admin/files/app.py:214-226 | the prefix of every node type |
| `NodeNames.NextNameIsLowestFree` | config/ansible/admin/files/app.py:238-250 | with plain numerals in use, the picked name is free and every lower number is taken |
| `NodeNames.NextNameTakenIff` | config/ansible/admin/files/app.py:227-250 | exactly when the picked name is already taken: the sorted numbers run 1..n-1, the next one is below n (listed twice, or below 1), and the plain name of n is in use |
| `NodeNames.NextNameCanBeTaken` | config/ansible/admin/files/app.py:227-250 | with a second spelling of s1 in use the search returns a name already taken |
| `NodeNames.NumberBelowOneTaken` | config/ansible/admin/files/app.py:227-250 | and so it does with a number below 1 in use |
| `Allocation.CreatorAloneIff` | config/ansible/admin/files/app.py:318-369 | a creator of a new MAC left alone stores and returns the record of the picked name iff that is free and has an address; otherwise it spends every try on the same pick, fails and changes nothing |
| `Allocation.KnownMacReturned` | config/ansible/admin/files/app.py:269-315 | a creator of a MAC that has a record returns that record at its first call |
| `Allocation.LostRaceReturns` | config/ansible/admin/files/app.py:358-365 | a creator that lost its MAC to another allocator returns the record the MAC has by its next call, however the others go on |
| `Allocation.CreatorFailsOnlyInVain` | config/ansible/admin/files/app.py:318-369 | over every run a creator fails only after a last look that found its MAC without a record |
| `Allocation.FailsOnlyBeaten` | config/ansible/admin/files/ycluster/ycluster/utils/dhcp_server.py:435-445 | over every run an allocator fails only if it lost as many races as it has tries (five for a creator, three for DHCP) or a pick found no name or address |
| `Allocation.RequestCounts` | config/ansible/admin/files/ycluster/ycluster/utils/dhcp_server.py:454-457 | which requested names count: not the empty one nor any ending in a |
| `Allocation.TypePlan` | config/ansible/admin/files/ycluster/ycluster/utils/dhcp_server.py:327-347 | the type every requested prefix stands for |
| `Allocation.GetNextDynamicIp` | config/ansible/admin/files/ycluster/ycluster/utils/dhcp_server.py:374-380 | the lowest octet of 200-249 not in use, or none when all are |
| `Allocation.NextDynamic` | config/ansible/admin/files/ycluster/ycluster/utils/dhcp_server.py:374-380 | its result is in range, free, and everything below it is taken; none only when the whole range is |
| `Allocation.CreatorCommitMirrors` | config/ansible/admin/files/app.py:346-357 | a creator's transaction keeps the two indexes mirrored |
| `Allocation.DhcpCommitMirrors` | config/ansible/admin/files/ycluster/ycluster/utils/dhcp_server.py:538-573 | the DHCP transaction, including the retirement of the old name, keeps the indexes mirrored, given only what its compares established |
| `Allocation.StepCoherent` | config/ansible/admin/files/ycluster/ycluster/utils/dhcp_server.py:447-582 | one etcd call of any allocator keeps the mirror and keeps valid what every other allocator remembers having read |
| `Allocation.StartsCoherent` | config/ansible/admin/files/app.py:318-369 | the empty store is a state the theorems start from |
| `Allocation.AlwaysMirrored` | config/ansible/admin/files/app.py:318-369 | under every interleaving of any number of creators and DHCP allocators each hostname entry equals the entry of the MAC it names, and vice versa |
| `Allocation.AlwaysTidy` | config/ansible/admin/files/ycluster/ycluster/utils/dhcp_server.py:480-519 | every stored record keeps an address its name determines, when requests are plain and development nodes come over WireGuard |
| `Allocation.AlwaysAssigned` | config/ansible/admin/files/ycluster/ycluster/utils/dhcp_server.py:480-519 | under every interleaving, whatever is requested, each stored address is one that its name determines |
| `Allocation.DistinctIpsIff` | config/ansible/admin/files/app.py:136-193 | in every reachable state distinct records have distinct addresses iff no two are two spellings of one number on one subnet, or a LAN development node on a dynamic address |
| `Allocation.AlwaysDistinctIps` | config/ansible/admin/files/ycluster/ycluster/utils/dhcp_server.py:508-582 | hence always, when requests are plain and development nodes come over WireGuard |
| `Allocation.DevOverLanCollides` | config/ansible/admin/files/app.py:142-142 | a concrete interleaving in which a development node created over the LAN shares an address with a dynamic lease |
| `Allocation.ReturnedIsStored` | config/ansible/admin/files/app.py:358-365 | whatever an allocator returns is at that moment the record both indexes hold for its MAC, and a call that returns nothing leaves the store alone |
| `Allocation.EveryAllocatorReturns` | config/ansible/admin/files/ycluster/ycluster/utils/dhcp_server.py:435-445 | however the others interfere, an allocator returns or fails within the calls its retry budget allows |
| `Allocation.DhcpAlone` | config/ansible/admin/files/ycluster/ycluster/utils/dhcp_server.py:447-582 | what a DHCP call that is left alone does: the record there is if it has the wanted name or none is wanted, else the wanted name if valid and free, else the lowest free dynamic address, else nothing |
| `Allocation.SecondCallStableIff` | config/ansible/admin/files/ycluster/ycluster/utils/dhcp_server.py:464-519 | exactly when a client that repeats its request gets the same record: iff the request names nothing or the first call gave the name asked for; any other client is moved and its old name dropped, or the call fails |
| `Allocation.LaptopMoves` | config/ansible/admin/files/ycluster/ycluster/utils/dhcp_server.py:508-519 | a client that calls itself "laptop" is moved on its second call |
| `Names.FreeSlot` | config/ansible/admin/files/ycluster/ycluster/utils/vm_manager.py:545-548 | the slot search ends, at the first gpu<i> name not in use |
| `Names.GpuNameReads` | config/ansible/admin/files/ycluster/ycluster/utils/vm_manager.py:545-548 | device names are gpu and the plain numeral of their number |
| `Names.SortedInOrder` | config/ansible/admin/files/ycluster/ycluster/utils/vm_manager.py:915-915 | sorted names are in strictly ascending text order |
| `GpuPool.SelectHealthyGpus` | config/ansible/admin/files/ycluster/ycluster/utils/vm_manager.py:429-445 | the first n free GPUs in pool order that pass the probe, or failure iff there are fewer |
| `Lifecycle.HealthyInPoolOrder` | config/ansible/admin/files/ycluster/ycluster/utils/vm_manager.py:385-387 | the healthy free GPUs are listed in pool order |
| `GpuPool.AttachAllKeeps` | config/ansible/admin/files/ycluster/ycluster/utils/vm_manager.py:545-552 | an attach loop, however far it gets before a failure, assigns nothing twice and touches one instance's devices only |
| `GpuPool.AttachAllAdds` | config/ansible/admin/files/ycluster/ycluster/utils/vm_manager.py:545-552 | without a failure exactly the picked GPUs become assigned |
| `GpuPool.ReleaseStrips` | config/ansible/admin/files/ycluster/ycluster/utils/vm_manager.py:501-520 | a release without failures strips a stopped VM of every passthrough GPU and of nothing else |
| `GpuPool.EnsureAttachedKeeps` | config/ansible/admin/files/ycluster/ycluster/utils/vm_manager.py:523-552 | re-acquisition keeps assignment exclusive whether it succeeds or raises |
| `Lifecycle.LaunchEffect` | config/ansible/admin/files/ycluster/ycluster/utils/vm_manager.py:1094-1131 | a launch raises iff the name exists, too few healthy GPUs are free or one of its commands fails; otherwise the new instance runs with its numbered GPU devices and no other instance changes |
| `Lifecycle.LaunchedDevices` | config/ansible/admin/files/ycluster/ycluster/utils/vm_manager.py:1117-1124 | its GPU devices are exactly gpu0 to gpu(k-1), holding the first k healthy free GPUs in pool order, none for a container |
| `Lifecycle.StartExact` | config/ansible/admin/files/ycluster/ycluster/utils/vm_manager.py:1261-1269 | a start raises iff the share, the listing, an attach, the start command fails, GPUs are short, or there is nothing to start; otherwise the instance runs with its devices and the first healthy GPUs it lacked |
| `Lifecycle.RestartExact` | config/ansible/admin/files/ycluster/ycluster/utils/vm_manager.py:1275-1284 | a restart stops a running instance and starts it, with nothing changed if the stop fails |
| `Lifecycle.StopExact` | config/ansible/admin/files/ycluster/ycluster/utils/vm_manager.py:1245-1257 | a stop: when it raises, that the instance is off unless the stop itself failed, that a release takes exactly the GPUs of a VM, and that nothing else changes |
| `Lifecycle.DestroyExact` | config/ansible/admin/files/ycluster/ycluster/utils/vm_manager.py:1290-1300 | a destroy removes the instance and nothing else, or has at most stopped it |
| `GpuPool.LaunchKeeps` | config/ansible/admin/files/ycluster/ycluster/utils/vm_manager.py:1094-1131 | a launch that fails at any point still leaves assignment exclusive |
| `GpuPool.DoKeeps` | config/ansible/admin/files/ycluster/ycluster/utils/vm_manager.py:1245-1307 | every lifecycle operation keeps assignment exclusive under arbitrary failures |
| `GpuPool.FreePlusAttachedIsPool` | config/ansible/admin/files/ycluster/ycluster/utils/vm_manager.py:376-387 | free and attached GPUs are disjoint and make up exactly the pool, and the counts add up |
| `Reconciler.Host.ReleaseGpus` | config/ansible/admin/files/ycluster/ycluster/utils/vm_manager.py:501-520 | the listing and the device loop realise the release specification, failures of either included |
| `Reconciler.Host.EnsureGpusAttached` | config/ansible/admin/files/ycluster/ycluster/utils/vm_manager.py:523-552 | the attach loop realises the acquisition specification, failures included |
| `Reconciler.Host.VmStart` | config/ansible/admin/files/ycluster/ycluster/utils/vm_manager.py:1261-1269 | NAS share, GPUs, start: the instances after it and whether it raised |
| `Reconciler.Host.StopGuestNow` | config/ansible/admin/files/ycluster/ycluster/utils/vm_manager.py:957-968 | stop, drop the marker, release; a failed stop leaves everything but the issue alone, a failed release does not bring the marker back |
| `Reconciler.Host.StopPassOne` | config/ansible/admin/files/ycluster/ycluster/utils/vm_manager.py:915-978 | one VM of the stop pass, decided from the records read when the tick began |
| `Reconciler.Host.Reconcile` | config/ansible/admin/files/ycluster/ycluster/utils/vm_manager.py:886-996 | the tick in place: both passes over the sorted local VMs, the abort on a raising release outside the stop branch, and the issue sweep |
| `Reconciler.PendingPredictsTick` | config/ansible/admin/files/ycluster/ycluster/utils/vm_manager.py:793-808 | the pending indicator says start/stop iff the next tick starts it, respectively warns, waits for, stops or releases it, except for a mode text the page would not write |
| `TickEffects.TickFollowsRecords` | config/ansible/admin/files/ycluster/ycluster/utils/vm_manager.py:910-990 | a clean tick with room does to every local VM what its record asks: on or inside a window it runs, otherwise it is warned, waits 300 seconds and is put to rest, or stays down; without a record or unmanaged it is left alone |
| `TickEffects.OthersUntouched` | config/ansible/admin/files/ycluster/ycluster/utils/vm_manager.py:904-916 | whatever fails, a tick touches nothing of an instance that is not registered on this host |
| `TickEffects.CommandsActOnInstances` | config/ansible/admin/files/ycluster/ycluster/utils/vm_manager.py:523-535 | a command changes instances and no record, a change of records no instance, and an unregistered VM wants no GPU |
| `TickEffects.StartsInNameOrder` | config/ansible/admin/files/ycluster/ycluster/utils/vm_manager.py:915-932 | the start pass goes through its VMs in text order of their names |
| `TickEffects.StartPassConcat` | config/ansible/admin/files/ycluster/ycluster/utils/vm_manager.py:982-990 | and takes them one after the other |
| `TickEffects.FailedStopRetried` | config/ansible/admin/files/ycluster/ycluster/utils/vm_manager.py:957-968 | a failing stop changes nothing of the VM, is reported, and is tried again by every later tick that finds it wanted off |
| `TickEffects.FailedReleaseReported` | config/ansible/admin/files/ycluster/ycluster/utils/vm_manager.py:957-968 | a release that fails after its stop is reported, and only that |
| `TickEffects.StartedOrReported` | config/ansible/admin/files/ycluster/ycluster/utils/vm_manager.py:982-990 | every VM a tick is due to start runs afterwards or has its failure reported |
| `TickEffects.StopNowMarks` | config/ansible/admin/files/app.py:2865-2892 | a stop-now marks exactly a registered, managed VM whose record asks for it to be off |
| `TickEffects.StopNowStops` | config/ansible/admin/files/ycluster/ycluster/utils/vm_manager.py:951-958 | after an accepted stop-now the next tick that gets to the VM tells it to stop |
| `TickEffects.WarnedStopsIff` | config/ansible/admin/files/ycluster/ycluster/utils/vm_manager.py:951-958 | a warned VM is told to stop iff 300 seconds have passed since its stamp |
| `Reconciler.StopPassEach` | config/ansible/admin/files/ycluster/ycluster/utils/vm_manager.py:910-978 | the stop pass treats each VM it reaches as if it were alone and leaves every other one as it was |
| `Reconciler.TickKeepsExclusive` | config/ansible/admin/files/ycluster/ycluster/utils/vm_manager.py:886-996 | a tick with arbitrary failures keeps GPU assignment exclusive |
| `Reconciler.GpusConserved` | config/ansible/admin/files/ycluster/ycluster/utils/vm_manager.py:376-387 | over every sequence of launch, start, restart, stop, release, destroy and tick, with failures anywhere, no GPU is attached twice and free plus attached is exactly the pool |
| `GraceSafety.TickMarkers` | config/ansible/admin/files/ycluster/ycluster/utils/vm_manager.py:920-974 | a marker present after a tick was written by its warning, or was there before and the tick did not find the VM wanted on |
| `GraceSafety.MarkersTraced` | config/ansible/admin/files/ycluster/ycluster/utils/vm_manager.py:927-945 | every marker in every reachable state goes back to the warning tick or stop-now that wrote it |
| `GraceSafety.StopsAreGraceful` | config/ansible/admin/files/ycluster/ycluster/utils/vm_manager.py:937-958 | grace safety over all runs: a tick stops a VM only if it is managed, running and not wanted on, and a stop-now or a warning stamped at least 300 s back (more than 299 s of real time) accounts for it, with no tick in between that reached it and saw it wanted on |
| `GraceSafety.OnlyStopsPowerOff` | config/ansible/admin/files/ycluster/ycluster/utils/vm_manager.py:946-990 | a VM running before a tick and not after it was told to stop by that tick |
| `Convergence.FirstPassWithoutFaults` | config/ansible/admin/files/ycluster/ycluster/utils/vm_manager.py:915-978 | without failures, and without a marker that lacks a timezone, the stop pass reaches every local VM and leaves each as its decision says |
| `Convergence.HandoffPool` | config/ansible/admin/files/ycluster/ycluster/utils/vm_manager.py:910-913 | the pool the start pass sees is the pool before the tick plus everything released in the first pass |
| `Convergence.AcquireExact` | config/ansible/admin/files/ycluster/ycluster/utils/vm_manager.py:536-552 | acquisition without failures succeeds iff the missing GPUs are free and healthy, and takes the first of those |
| `Convergence.AllStartIff` | config/ansible/admin/files/ycluster/ycluster/utils/vm_manager.py:980-990 | all starts of the pass succeed iff the missing GPUs of all of them together are free and healthy |
| `Convergence.SameTickHandoff` | config/ansible/admin/files/ycluster/ycluster/utils/vm_manager.py:910-990 | in a tick where no command fails, every VM due to start comes up iff their missing GPUs fit the healthy ones that are free before the tick or released in its first pass |
| `Convergence.HandoffInFull` | config/ansible/admin/files/ycluster/ycluster/utils/vm_manager.py:523-552 | with that room each of them comes up with its full registered count and without an issue |
| `Convergence.ConvergedIsFixed` | config/ansible/admin/files/ycluster/ycluster/utils/vm_manager.py:927-936 | a tick of a converged host changes nothing at all, whatever would fail |
| `Convergence.RunOnTrack` | config/ansible/admin/files/ycluster/ycluster/utils/vm_manager.py:886-996 | from the first tick on, after every tick, each VM wanted on runs and each VM wanted off is at rest or waits under a marker no younger than that tick |
| `Convergence.LaterTickOnTrack` | config/ansible/admin/files/ycluster/ycluster/utils/vm_manager.py:937-978 | every tick at least 300 s after the first leaves each VM wanted off at rest |
| `Convergence.SteadyIntentsConverge` | config/ansible/admin/files/ycluster/ycluster/utils/vm_manager.py:886-996 | convergence: with steady intents a wanted-on VM runs, a wanted-off one is stopped with its GPUs given back by the first tick at least 300 s on, and later ticks change nothing |
| `Lifecycle.ReleaseExact` | config/ansible/admin/files/ycluster/ycluster/utils/vm_manager.py:501-520 | a release raises iff its listing or a detach of one of its GPU devices fails, and leaves no GPU attached iff there was none or it does not raise |
| `Lifecycle.ReleaseInOrder` | config/ansible/admin/files/ycluster/ycluster/utils/vm_manager.py:515-519 | it detaches GPU devices only, in text order of their names, up to the first detach that fails |
| `Lifecycle.ReleaseRefuses` | config/ansible/admin/files/ycluster/ycluster/utils/vm_manager.py:509-514 | a release refuses a running VM and has nothing to do for a container or an absent instance |
| `ReleaseFaults.TickAbortsIff` | config/ansible/admin/files/ycluster/ycluster/utils/vm_manager.py:946-978 | exactly when a tick ends in its stop pass: some VM wanted off was found stopped with a marker and its listing or a detach fails, or runs under a marker whose stamp has no timezone |
| `ReleaseFaults.BlockedTickStartsNobody` | config/ansible/admin/files/ycluster/ycluster/utils/vm_manager.py:976-990 | such a tick starts no VM at all |
| `ReleaseFaults.FailedDetachBlocksStart` | config/ansible/admin/files/ycluster/ycluster/utils/vm_manager.py:976-990 | a concrete tick in which a failing detach of one VM keeps another, wanted on, from starting |
| `ReleaseFaults.FailedListingBlocksStart` | config/ansible/admin/files/ycluster/ycluster/utils/vm_manager.py:491-512 | the same with a failing listing and every detach in order |
| `ReleaseFaults.ZonelessMarkerStays` | config/ansible/admin/files/ycluster/ycluster/utils/vm_manager.py:946-954 | a marker without a timezone leaves its running VM and itself as they are and keeps everybody else from starting, at every tick that finds it |
| `ReleaseFaults.TickReleasesIff` | config/ansible/admin/files/ycluster/ycluster/utils/vm_manager.py:957-978 | a tick that takes a VM down drops its marker, and leaves it without GPUs iff it had none or neither the listing nor a detach of its release fails |
| `ReleaseFaults.NeverRetried` | config/ansible/admin/files/ycluster/ycluster/utils/vm_manager.py:969-978 | a stopped VM without a marker is not touched by any later run of ticks while it is wanted off |
| `ReleaseFaults.ReleasedForGoodIff` | config/ansible/admin/files/ycluster/ycluster/utils/vm_manager.py:957-978 | after every later run in which it stays wanted off, a VM taken down holds no GPU iff it had none or its release did not fail in that one tick |
| `ReleaseFaults.GpuNeverReturns` | config/ansible/admin/files/ycluster/ycluster/utils/vm_manager.py:957-968 | a concrete failing detach, and a failing listing, after which no run of ticks gives the GPU back |
| `Billing.AssembleUsage` | config/ansible/admin/files/app.py:3013-3028 | the loop over all VMs keeps them apart: each VM's totals are those of its own events |
| `Billing.OpeningCounts` | config/ansible/admin/files/app.py:3019-3021 | a launch, start or restart puts the VM on the clock, on the bill if the event says so |
| `Billing.ClosingEnds` | config/ansible/admin/files/app.py:3022-3025 | a stop or destroy takes it off: the time between counts at the opener's values, and a second stop adds nothing |
| `Billing.TotalsAreSums` | config/ansible/admin/files/app.py:3004-3028 | for any history in time order, equal stamps included, the assembled totals equal the GPUs on the clock (and billed) summed over every instant of the window |
| `Billing.BillableWithinTracked` | config/ansible/admin/files/app.py:3004-3011 | billable never exceeds tracked, for any events |
| `Billing.WindowedExact` | config/ansible/admin/files/app.py:2964-3028 | with one event before the window the totals are exact when that event carries the opener's values |
| `Billing.WindowedError` | config/ansible/admin/files/app.py:2964-2975 | otherwise tracked and billable time are off by exactly the difference of the rates times the time to the next close |
| `Billing.WindowedIff` | config/ansible/admin/files/app.py:2964-3028 | exactly when tracked and when billable time are right: nothing was on the clock at the window start, no window time passes before the next close, or the latest event before the window has the rate the opener set |
| `Billing.RestartUnbills` | config/ansible/admin/files/app.py:3019-3021 | a billable start restarted without billing: every later window tracks all the time and bills none of it |
| `Billing.RestartUnbillsFour` | config/ansible/admin/files/app.py:3019-3021 | the same at concrete numbers |
| `Billing.AdjacentWindowsAddIff` | config/ansible/admin/files/app.py:2964-3028 | exactly when adjacent windows add up to the window spanning them: when the second is right for the history the first one sees |
| `Billing.AdjacentWindowsAdd` | config/ansible/admin/files/app.py:2964-3028 | they do when no event that finds an interval open disagrees with its opener |
| `Billing.QueriesSelect` | config/ansible/admin/files/app.py:2968-2975 | the rows the two queries return for a VM are its latest earlier event and its window events, in order |
| `Billing.VmUsage` | config/ansible/admin/files/app.py:2952-3028 | end to end, for any histories: each VM's tracked and billable totals are the GPU time it was really on the clock and on the bill exactly under that condition, always if no event disagrees with its opener; a VM without totals has no events |
| `Drain.InsertSafe` | config/ansible/admin/files/collect-vm-stats.py:81-90 | the insert records every event it lists once and leaves recorded events alone |
| `Drain.ScanIsSent` | config/ansible/admin/files/collect-vm-stats.py:68-77 | a queue scan lists only what was sent and sorts out what does not parse |
| `Drain.ScanIsComplete` | config/ansible/admin/files/collect-vm-stats.py:68-77 | a drain reads exactly the queued values that parse, and finds exactly the garbled ones |
| `Drain.ProceedSafe` | config/ansible/admin/files/collect-vm-stats.py:78-93 | one call of a drainer loses nothing and doubles nothing |
| `Drain.DrainIsSafe` | config/ansible/admin/files/collect-vm-stats.py:68-93 | over every run with crashes anywhere and overlapping drainers: no parseable event leaves the queue before its row is committed, no event has two rows, and a completed drain has exactly one row for every event it read |
| `Drain.CompletesIff` | config/ansible/admin/files/collect-vm-stats.py:68-93 | a drain left alone completes iff a row can be made of everything it read (no JSON that is no object, no object the table refuses), and otherwise dies; exactly what it found garbled and, if it completes, what it read is out of the queue |
| `Drain.DrainDelivers` | config/ansible/admin/files/collect-vm-stats.py:68-93 | end to end: a drain begun with no such value queued completes, every event queued at its start has its one row and is out of the queue, every garbled value is out, empty ones stay |
| `Drain.FatalWedges` | config/ansible/admin/files/collect-vm-stats.py:75-90 | a value that parses and of which no row can be made wedges the queue: no run removes it, records another row or completes a drain |
| `Drain.OneScalarWedges` | config/ansible/admin/files/collect-vm-stats.py:75-90 | the same from a queue with one JSON value that is no object |
| `Drain.OneRefusedWedges` | config/ansible/admin/files/provision-usage-stats.py:61-72 | the same from a queue with the empty object, which lacks the columns the table requires |
| `Acl.Check` | local-ai-proxy/acl.go:69-106 | the first entry that matches decides; no entry that matches, no rule and no configuration allow |
| `Acl.SubjectMatches` | local-ai-proxy/acl.go:89-106 | whom a subject matches: a user by name or all, the members of a group or everybody, nobody if it is neither |
| `Acl.AppendEntries` | local-ai-proxy/acl.go:198-214 | the union of both lists with the first occurrence of each subject |
| `Acl.DedupFirsts` | local-ai-proxy/acl.go:198-214 | each subject once, with the entry in which it occurs first |
| `Acl.DedupKeepsMeaning` | local-ai-proxy/acl.go:193-214 | dropping repeated subjects changes no decision for any user and groups |
| `Acl.MergeAcl` | local-ai-proxy/acl.go:166-191 | the merged configuration, model by model, for absent and present sides |
| `Acl.MergedModels` | local-ai-proxy/acl.go:166-191 | the models of both sides; rules only one side has stay as they are, shared ones have each subject once |
| `Acl.MergeKeepsMeaning` | local-ai-proxy/acl.go:166-214 | the merged rules decide as the base if any base entry matches, else as the overlay if one of its entries matches, else they allow |
| `Acl.ParseAclEntries` | local-ai-proxy/acl.go:131-164 | tokens in order, blank ones skipped, one bad token rejects the list |
| `Acl.TokenKinds` | local-ai-proxy/acl.go:142-156 | the four signs and kinds of token |
| `Acl.NoTokens` | local-ai-proxy/acl.go:157-158 | what is no token |
| `Acl.RefusedNames` | local-ai-proxy/acl.go:40-66 | what validation refuses in a name: nothing, the four blanks, the mark of another token |
| `Acl.TokenRoundTripIff` | local-ai-proxy/acl.go:131-164 | a valid entry survives being written as a token iff its subject does not end in a space character |
| `Acl.NoBreakSpaceLost` | local-ai-proxy/acl.go:131-164 | a valid subject ending in a no-break space that does not survive |
| `Acl.RulesRoundTrip` | local-ai-proxy/acl.go:131-164 | rendering and parsing a rule list gives the list back |
| `Source.ParseValue` | local-ai-proxy/source.go:179-206 | a value counts iff it is JSON with a usable backend, and yields the usable URLs and its rules |
| `Source.UsableInOrder` | local-ai-proxy/source.go:187-200 | the usable URLs in the order of the list |
| `Source.EtcdSource.Start` | local-ai-proxy/source.go:104-122 | the initial view is the fresh load of the store |
| `Source.EtcdSource.WatchBatch` | local-ai-proxy/source.go:134-177 | a watch batch applies its events in order on both maps |
| `Source.BatchingIrrelevant` | local-ai-proxy/source.go:137-174 | how the events are batched makes no difference |
| `Source.RulesAlwaysFresh` | local-ai-proxy/source.go:155-174 | for every stream, parseable or not, the rules equal those of a fresh load and every model with rules has backends |
| `Source.KeptIffOnceGood` | local-ai-proxy/source.go:157-170 | a model has backends iff it once had a value that parses and was not deleted since |
| `Source.BackendsFreshIff` | local-ai-proxy/source.go:157-170 | the backends equal a fresh load iff no model was left with a value that does not parse after one that did |
| `Source.UnparseablePutKeepsBackend` | local-ai-proxy/source.go:157-170 | a put that stops parsing leaves a backend a fresh load does not have |
| `Source.ParsingStreamsAreFresh` | local-ai-proxy/source.go:104-177 | with every put value parseable the incremental view equals a fresh load |
| `Load.LoadCounter.Count` | local-ai-proxy/load.go:31-39 | reads a counter, creating it at zero |
| `Load.Handler.SampleNext` | local-ai-proxy/router.go:240-247 | one counter read of the sampling loop is the sampling step of the interleaving model |
| `Load.Handler.Begin` | local-ai-proxy/handler.go:258-276 | the pick and the increment, in place, are the picking step of the interleaving model, with the pick being that of the pick method |
| `Load.Handler.End` | local-ai-proxy/handler.go:277-281 | the deferred decrement is its settling step, so the counters of the class are those the theorems are about |
| `Load.PickBackend` | local-ai-proxy/router.go:233-255 | picks a candidate: with a load tracker from the never empty set tied at the sampled minimum, without one any |
| `Load.MinIsSampled` | local-ai-proxy/router.go:240-254 | the tie set is never empty, whatever the counters showed |
| `Load.SampledMinIsLeast` | local-ai-proxy/router.go:241-247 | without negative samples the -1 sentinel is sound: the minimum is a true one |
| `Load.NegativeSampleMisleads` | local-ai-proxy/router.go:241-247 | a negative sample would make the sentinel forget the minimum |
| `Load.StartsIdle` | local-ai-proxy/load.go:25-29 | a proxy starts with every counter reading zero, in the state the theorems start from |
| `Load.CountersExact` | local-ai-proxy/handler.go:272-282 | under every interleaving of requests the counter of a backend equals the attempts in flight to it, so it is never negative and zero when idle |
| `Load.SamplesInFlight` | local-ai-proxy/router.go:240-243 | what a sampling step reads is the number of attempts then in flight to the candidate |
| `Load.RequestLife` | local-ai-proxy/handler.go:252-282 | a request starts with all its candidates, a pick takes one out once, a retry goes on with the others, anything else ends it |
| `Load.ReadyWhen` | local-ai-proxy/router.go:233-243 | one candidate is picked at once without reading a counter, more only after reading the counter of each |
| `Load.PicksLeastLoaded` | local-ai-proxy/router.go:227-255 | in every reachable state a request ready to pick takes a candidate with the least sampled count |
| `Dispatch.RemoveUrl` | local-ai-proxy/handler.go:383-392 | removes the first occurrence without writing to any array that existed before the call |
| `Dispatch.TryOnce` | local-ai-proxy/handler.go:272-345 | an attempt is followed by another iff it is not the last and was unreachable or answered 404, 429 or 500 up; otherwise the client gets the status, 502 or 500, or nothing once it has left |
| `Dispatch.TakeOne` | local-ai-proxy/handler.go:258-259 | takes a least loaded candidate out of the retry set, exactly once |
| `Dispatch.Dispatch` | local-ai-proxy/handler.go:252-266 | terminates; tries no URL more often than listed; retries only after retryable outcomes; a client that stays gets exactly one response, that of the first terminal attempt or else of the last candidate |
| `Pins.PickVmIp` | config/ansible/admin/files/ycluster/ycluster/utils/vm_manager.py:182-204 | the preferred address if free, else the lowest free one of 10-200, and none iff all of those are taken |
| `Pins.PinExistingVms` | config/ansible/admin/files/ycluster/ycluster/utils/vm_manager.py:1349-1398 | the two queues and the pinning loop, stopping where the pool is exhausted |
| `Pins.EveryGuestPinned` | config/ansible/admin/files/ycluster/ycluster/utils/vm_manager.py:1373-1396 | a migration pins every instance without a pin except the bastion and nothing else, unless every address of the pool is pinned |
| `Pins.PinsStayDistinct` | config/ansible/admin/files/ycluster/ycluster/utils/vm_manager.py:1386-1396 | finished or cut short, new pins differ from each other and from every earlier pin |
| `Pins.OwnersKeepIff` | config/ansible/admin/files/ycluster/ycluster/utils/vm_manager.py:1373-1396 | all guests with an address of their own keep it iff none of those addresses is already somebody's pin |
| `Pins.PinnedElsewhereMoves` | config/ansible/admin/files/ycluster/ycluster/utils/vm_manager.py:1373-1396 | a guest whose own address is another's pin, and which loses it |
| `Pins.NewPinIff` | config/ansible/admin/files/ycluster/ycluster/utils/vm_manager.py:1386-1396 | exactly when a new pin is a given address: no pin has it yet, and the guest is live there, or has no address it can keep and every lower one is pinned; live addresses of others do not count |
| `Pins.NoForeignPin` | config/ansible/admin/files/ycluster/ycluster/utils/vm_manager.py:1360-1396 | told from the instances alone: no new pin is the live address of another instance if every live address is its holder's own and nobody's pin, or a pin, or outside the pool and not live on a guest to be pinned |
| `Pins.BastionAddressGiven` | config/ansible/admin/files/ycluster/ycluster/utils/vm_manager.py:1366-1396 | a stopped guest pinned onto the live address of the unpinned bastion |
| `Bastion.OwnedVms` | config/ansible/admin/files/ycluster/ycluster/utils/vm_manager.py:659-664 | the VMs of an owner are the names registered with that owner |
| `Bastion.AddUser` | config/ansible/admin/files/ycluster/ycluster/utils/vm_manager.py:1443-1453 | one user's keys extend the grants by exactly what that user owns |
| `Bastion.AuthorizedKeys` | config/ansible/admin/files/ycluster/ycluster/utils/vm_manager.py:1426-1460 | exactly one line per material that reaches a VM, in text order, permitting a VM iff some registered user lists a key of that material and owns it, with the first such key as registered |
| `Bastion.KeyTextIsFirst` | config/ansible/admin/files/ycluster/ycluster/utils/vm_manager.py:1443-1453 | that key is one that reaches a VM, and no key before it does |

## Left out

- Updates of an already allocated MAC in the admin API (`app.py:281-313`) and the other writers of the allocation store (`host_state.py`, `lease_manager.py`, `populate_local_node.py`): they are blind puts, not compare-and-swap, and can break the mirror.
- Allocation.AlwaysDistinctIps: covers plain numerals and development nodes over WireGuard only, because the code gives "s01" the address of s1 and puts LAN development nodes into the dynamic range; `Allocation.DistinctIpsIff` says for every reachable state exactly when addresses coincide.
- Admission.CapacitySafe: a fixed, reported pool, no launches, no unmanaged edits and one edit at a time; `Admission.UnmanagedKeepsCapacityIff` and `Races.RacesFitIff` say exactly when the pool is kept without the last two.
- GraceSafety.StopsAreGraceful: ticks are atomic against edits and stop-now requests; etcd calls succeed. Registry, intent and marker records are JSON objects.
- Convergence.SteadyIntentsConverge: needs commands that succeed and marker stamps with a timezone; `ReleaseFaults.ReleasedForGoodIff` and `ReleaseFaults.TickAbortsIff` say exactly what a failing release or another stamp costs.
- Billing.VmUsage: rows of one VM with equal stamps stand in one order in both queries, which SQL leaves open. Rounding to four decimals and the observed-sample columns are not modelled.
- Drain.DrainIsSafe: queue keys (nanosecond clock plus VM name) are used once; ingestion of state snapshots is not modelled.
- Load.CountersExact: 64-bit wrap-around of the counters is not modelled.
- Source.RulesAlwaysFresh: speaks of the writer's state after a batch; readers may see one map swapped before the other.
- Event kinds other than launch, start, restart, stop and destroy, which billing passes over, and the owner column of the bill.
- Reconciler.GpusConserved: the set of GPUs on the host is fixed during a run; a reboot that changes it is not modelled.
- Management (AMT) addresses in allocation records: they are derived from the same number and take no part in the commits.
- The advisory text of `desired_conflict`, issue texts, printed messages, resizing, DNS records and SSH provisioning: single-branch classification or input/output.
- DHCP packets and the in-memory lease table: leases enter only as octets to avoid.
- HTTP, JSON, multipart and URL parsing, streaming, metrics and health polling of the proxy: values come parsed or unparseable, and health filtering of candidates would only add an easy filter.
- Health dashboards, certificates, WireGuard rendering, inventory, command line handling and monitoring collectors.
