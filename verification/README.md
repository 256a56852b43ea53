# A verified model of the NX-OS DHCPv6 route exporter

The exporter is a Kea hook library. When a DHCPv6 lease is granted, renewed, given up or expires,
it adds or removes static routes on a Cisco NX-OS switch over HTTP, and after a lost connection or
a reboot of the switch it rebuilds the routes from the lease database. This project models the four
parts of it that have to cooperate for that to work, and proves what they promise.

* **The worker pool** (`WorkerPool`, `PoolInvariant`, `PoolTheorems`, `HttpClient`). Any number of
  worker threads and one controlling thread share a mutex, a condition variable, two counters and a
  mode that the workers read without the mutex. Every atomic step of every thread is an action of a
  state machine; `NXOSHttpClientImpl` takes the same steps on its fields. Proved: an inductive
  invariant, the meaning of both counters in every reachable state, that no wake-up is lost at either
  barrier, that joining with the mutex held is safe, a bound on the length of every call under every
  schedule, exceptions and spurious wake-ups included, and exactly which sequences of start and stop
  calls can return.
* **Route reconciliation** (`SwitchText`, `RouteLookup`, `RouteDecoding`, `LeaseUtils`,
  `ManagementClient`, `Schedules`, `LeaseHandlers`, `Service`, `Settling`, `HostRoutes`,
  `DelegatedPrefixes`). Command lines are
  strings that a model of the switch splits into words and executes on a set of (prefix, destination)
  pairs. An export or removal is one request, or a lookup whose callback posts a second one; workers
  interleave them freely. Proved: confluence of all schedules, refinement of the IA_NA routes against
  "the image of the live leases" and exactly which lease events keep it, when an IA_PD export and its
  removal cancel, what a renew or rebind leaves behind, and that decoding inverts the switch's
  notation however it wraps its tables.
* **The heartbeat** (`Heartbeat`, `HeartbeatThreads`). Proved: the 64-bit uptime arithmetic, exactly
  when a heartbeat restores the routes over whole histories, a bound on the number of restores, and
  that every interleaving of the callbacks acts like a sequence of them.
* **Restoration** (`Neighbors`, `Restoration`, `RestoredTable`). Proved: the nested loops build the map of
  last rows, the MAC conversion round trip, the exact trace of routes sent by the lease scan, when that
  trace is complete and when it is sound, and exactly when a rebooted switch gets back the routes of the
  live leases.

Lemmas that only serve a proof have no row below.

## What is assumed

* Memory is sequentially consistent, one thread at a time calls start and stop, and the pool has at
  least one worker. Inside the io_service only `run`, `restart`, `stop` and the stopped flag matter:
  `run` blocks until the service is stopped, returns at once if it already is, and may throw at any
  time. Condition-variable wake-ups may be spurious.
* The switch answers a lookup of a prefix from the static routes for exactly that prefix; for the
  refinement theorems it names a relay's interface and the interface of a single host route truthfully.
  Both are said of the rows of the answer, whose next hops may be any. `HostRoutes.TruthfulSwitchExists`
  shows that there is such a switch for any relays.
* Asking an unrelayed message for its first relay throws, and asking a message for an option gives the
  first of its kind. A message of a client in the IA_NA refinement is relayed by a known relay.
* Addresses are values whose text form has no space and no slash. The lease database is a sequence of
  records. Reading a colon-separated text as a hardware address belongs to Kea and is a parameter.
* A moved-from C++ string has an unspecified value, given by a parameter (`RouteDecoding.MovedFrom`).
  Moving an address copies it, so the comparison that follows the move in renew and rebind
  (src/dhcp6_exporter_impl.cpp:337-342) reads the original address.
* Reading the first row of a missing or empty `TABLE_prefix` is undefined in C++
  (src/nxos_management_client.cpp:106-112); the model lets such an answer lead to no command and to
  what the callback does for its other errors. A longer `TABLE_prefix` passes the guard and is read at
  its first row, in the model as in the code.
* The service always sets the restore handler before the first heartbeat
  (src/dhcp6_exporter_service.cpp:138), so the model's heartbeat always has one.

## Where the code departs from its evident intent

The model keeps the code's behaviour, and each departure has a theorem that says exactly where it bites.

* A stop after a start and a stop never returns, because the exited counter is reset only by a start:
  `PoolTheorems.CallSequencesThatReturn`, `PoolTheorems.StopThenDestructorHangs`.
* A renew or rebind removes the route of whatever address the first IA_NA option of the message names,
  whoever holds that address. A client with two IA_NA options loses the route of the first when the
  hook runs for the second: `HostRoutes.EventReachesImageWhen`, `HostRoutes.SecondIaNaRemovesFirst`.
* An IA_NA address exported through an interface that is not named like a VLAN keeps its route when
  it expires: `HostRoutes.ExpiryOnGoal`.
* A release or decline of an IA_PD prefix after the client's IA_NA lease is gone, or has another
  address, leaves the route: `DelegatedPrefixes.SelectThenGiveUp`.
* An IA_PD prefix that expires while its client has an active IA_NA lease is removed with a destination
  ending in `/128`, which no export used, so the route stays: `DelegatedPrefixes.SelectThenExpire`.
* An IA_PD renew or rebind with another prefix address removes the old route with the relay as the
  destination; a changed prefix length alone is not noticed; a changed IA_NA address keeps the old next
  hop: `DelegatedPrefixes.RenewLeavesOneRouteWhen`.
* Restoration ends at the first IA_PD lease of any subnet (`Restoration.RestorationIsCompleteWhen`), and
  sends the routes of declined and reclaimed leases too (`Restoration.RestorationIsSoundWhen`,
  `RestoredTable.RebootedSwitchIsRestoredWhen`).
* In a path array an entry with an interface name and no next hop is decoded with a next hop present:
  `RouteDecoding.PathArrayEntries`.
* An uptime with negative fields wraps around: `Heartbeat.UptimeIsTrueUnlessNegative`.

## Model

| member | source | states |
|---|---|---|
| HttpClient.NXOSHttpClientImpl.ThreadLoopStep | src/nxos_http_client.cpp:54-89 | every step of the worker loop on the object's fields, an exception out of run included, is a step of the state machine that the theorems are about, and keeps its invariant |
| HttpClient.NXOSHttpClientImpl.SetThreadsStateStep | src/nxos_http_client.cpp:91-130 | the same for the controller, including mutex hand-over at both condition waits |
| HttpClient.NXOSHttpClientImpl.SetThreadsState | src/nxos_http_client.cpp:91-130 | a call that is not a second stop returns whichever enabled thread the scheduler picks in each round, with any number of exceptions out of run once the mode is STOPPED and any bounded number of other exceptions and spurious wake-ups; it keeps the invariant, and the rounds form a run of the machine |
| HttpClient.NXOSHttpClientImpl.StartClient | src/nxos_http_client.cpp:132-135 | start returns, under the same schedulers, in mode RUNNING with a full pool |
| HttpClient.NXOSHttpClientImpl.StopClient | src/nxos_http_client.cpp:137 | stop returns, under the same schedulers, with mode STOPPED and no thread left, unless the pool had already been stopped after a start |
| PoolInvariant.StepKeepsInv | src/nxos_http_client.cpp:54-130 | mutual exclusion, exact counters, mode and io_service flag, pool shape and barrier facts are kept by every step of every thread, by exceptions out of run, by spurious wake-ups and by new calls |
| PoolTheorems.ReachableCounters | src/nxos_http_client.cpp:59-88 | in every reachable state the running counter is the number of workers between increment and decrement; the exited counter is the number of exited workers, except from clearing a pool to the reset in the next start; no worker leaves its loop in mode RUNNING |
| PoolTheorems.StartReturnsWithAllRunning | src/nxos_http_client.cpp:105-110 | when start returns all N workers are counted as running, none has exited, and each is in run or waiting to take the mutex after it |
| PoolTheorems.NoWakeupIsLost | src/nxos_http_client.cpp:61-123 | a step that makes the predicate of a sleeping controller true also wakes it |
| PoolTheorems.BarriersHoldBack | src/nxos_http_client.cpp:105-123 | a notification meant for the other barrier, or a spurious wake-up, never lets the controller past a barrier whose own predicate is false |
| PoolTheorems.JoiningIsSafe | src/nxos_http_client.cpp:121-127 | in every reachable state in which the controller joins, with the mutex held, every worker has returned from its loop, so no join waits for a worker that needs the mutex; when the pool is cleared every worker in it has been joined |
| PoolTheorems.StoppedWorkersRunDown | src/nxos_http_client.cpp:54-89 | in a stopped pool each worker step, exceptions out of run included, strictly lowers the sum of the ranks, also for workers that read RUNNING before the change |
| PoolTheorems.StepNearsEnd | src/nxos_http_client.cpp:54-130 | every action during a call brings it strictly nearer to its end, but for a fixed delay by an exception out of run in mode RUNNING or by a spurious wake-up |
| PoolTheorems.SomeStepEnabled | src/nxos_http_client.cpp:91-130 | no deadlock: in every state inside a call that is not a second stop some thread can step |
| PoolTheorems.CallsAreBounded | src/nxos_http_client.cpp:54-130 | no schedule keeps a call going for more than its measure, plus 22 actions for each exception out of run in mode RUNNING and 3 for each spurious wake-up |
| PoolTheorems.ThrowsCanHoldOffStart | src/nxos_http_client.cpp:65-75 | the exceptions have to be bounded: a worker whose run throws can return the system to the very same state before the controller of a start gets the mutex |
| PoolTheorems.CallReturns | src/nxos_http_client.cpp:91-130 | from every state inside a call that is not a second stop the call can be brought to its return |
| PoolTheorems.DoomedForever | src/nxos_http_client.cpp:122-127 | a second stop never satisfies its wait, whatever the threads do |
| PoolTheorems.CallSequencesThatReturn | src/nxos_http_client.cpp:91-139 | a sequence of calls can return in full if and only if no stop directly follows a stop after a start has occurred |
| PoolTheorems.AlternatingCallsReturn | src/nxos_http_client.cpp:91-139 | every alternating sequence, starting with either call, returns in full |
| PoolTheorems.StopThenDestructorHangs | src/nxos_http_client.cpp:137-139 | after start and stop the stop of the destructor never returns |
| ManagementClient.NXOSManagementClient.SendRoutesToSwitch | src/nxos_management_client.cpp:73-209 | the very lines each kind of export posts: for a relayed IA_NA address a question about the relay's /128, to be continued for the address's /128; otherwise one `ipv6 route` line whose prefix text reads back as the address and length; nothing for the removal-only kinds |
| ManagementClient.NXOSManagementClient.RemoveRoutesFromSwitch | src/nxos_management_client.cpp:341-622 | the very lines each kind of removal posts given the lease database, their prefix texts reading back as address and length; exactly one kind is not implemented and posts nothing |
| ManagementClient.NXOSManagementClient.HandleLookup | src/nxos_management_client.cpp:89-618 | in terms of the answer's rows: with one VRF, one address row and a single path in its first prefix row, the posted lines name the first present interface of the path for an export or removal through the relay, whatever the next hops; the first VLAN interface for an expiring address, both with the clearing of that interface's neighbour cache after a removal; the first next hop for an expiring prefix; without such a name nothing is posted, and the callbacks of expiry throw |
| RouteLookup.FindFirstIsFirst | src/nxos_management_client.cpp:484-491 | the search returns the first present value that passes, and none only if no value passes |
| RouteLookup.VlanNameIsWord | src/nxos_management_client.cpp:30-36 | a valid VLAN name can be used as one word of a command line |
| RouteLookup.VlanNames | src/nxos_management_client.cpp:30-36 | a name is accepted exactly if it is `vlan`, each letter in either case, followed by one digit or more and nothing else |
| RouteLookup.AnswerNames | src/nxos_management_client.cpp:94-127 | over the rows of an answer, which name each kind of lookup takes from which list |
| SwitchText.ApplyExecutes | src/nxos_management_client.cpp:60-64 | the command line built for an export, read by the switch, adds exactly the named route |
| SwitchText.RemoveExecutes | src/nxos_management_client.cpp:211-215 | the command line built for a removal removes exactly the named route |
| SwitchText.ClearLeavesRoutes | src/nxos_management_client.cpp:217-221 | the neighbour-cache command touches no route |
| SwitchText.ClearClears | src/nxos_management_client.cpp:217-221 | the neighbour-cache command clears the cache of exactly the named interface |
| SwitchText.ShowAsks | src/nxos_management_client.cpp:66-69 | the lookup command asks about the given prefix |
| SwitchText.PrefixTextInjective | src/nxos_management_client.cpp:183-184 | different prefixes or lengths never share a text |
| SwitchText.DecimalReads | src/nxos_management_client.cpp:183-184 | the decimal text of a length is digits without a superfluous zero that read back as the length in base ten |
| SwitchText.PrefixTextSpells | src/nxos_management_client.cpp:183-184 | the prefix text is the address, a slash and the length |
| SwitchText.HostPrefixSpells | src/nxos_management_client.cpp:78-79 | the text of a host route is the address, a slash and 128 |
| Schedules.CommandsAreLocal | src/nxos_management_client.cpp:503-508 | the commands of an operation change only rows of its own prefix, and do so alike in tables that agree there |
| Schedules.StepCommutes | src/nxos_http_client.cpp:183-246 | a request of one operation commutes with running an independent one to its end |
| Schedules.EveryScheduleRunsInOrder | src/nxos_http_client.cpp:183-246 | every complete interleaving of independent operations, whichever lookups or commands fail and whatever the switch answers, ends in the table of running them one by one |
| Schedules.ExportsAndRemovalsAreConfluent | src/nxos_management_client.cpp:73-622 | exports and removals with pairwise distinct prefixes, none a relay another looks up, end under every interleaving in the table of running them one by one |
| Schedules.CompleteScheduleExists | src/nxos_http_client.cpp:183-246 | operations in flight can always be completed, with at most two requests each |
| LeaseUtils.FindIA_NALeaseByDUID_IAID | src/lease_utils.cpp:8-30 | over the records: what is found is the first record of type IA_NA with the DUID and IAID whose state is neither declined nor reclaimed, and nothing is found exactly if there is no such record or no DUID |
| LeaseUtils.ActiveForIsRecord | src/lease_utils.cpp:8-30 | the destination of every IA_PD route is the address of that record |
| LeaseUtils.InactiveChangesDoNotMatter | src/lease_utils.cpp:21-27 | replacing any stretch of the database by one that has as few active leases of the client (none) leaves the lease that is found unchanged |
| LeaseHandlers.DHCP6ExporterImpl.HandleLease6Select | src/dhcp6_exporter_impl.cpp:40-130 | the calls into the service, none for a fake allocation; a select only exports, and only the lease's own prefix in the client's name; the server is told to skip exactly an IA_PD lease without an active IA_NA lease; an unrelayed message throws |
| LeaseHandlers.DHCP6ExporterImpl.HandleLease6Expire | src/dhcp6_exporter_impl.cpp:132-198 | the removal an expiry asks for; an expiry never exports and touches only the lease's own prefix |
| LeaseHandlers.DHCP6ExporterImpl.HandleLease6Release | src/dhcp6_exporter_impl.cpp:200-253 | the removal a release asks for, only of the lease's own prefix, none for an IA_PD lease without an active IA_NA lease; an unrelayed message throws |
| LeaseHandlers.DHCP6ExporterImpl.HandleLease6Decline | src/dhcp6_exporter_impl.cpp:255-307 | a decline asks for the same removal as a release |
| LeaseHandlers.DHCP6ExporterImpl.HandleRenewRebindProcess | src/dhcp6_exporter_impl.cpp:311-393 | order and contents of the removal and export of a renew or rebind, and when it throws before either; it exports only the lease's own prefix, and removes only the one named by the first option of its kind, if the address differs |
| Settling.WorkKeepsSettling | src/nxos_http_client.cpp:183-246 | serving any request of any operation in flight does not change the table that the whole settles at |
| Settling.LaunchAllSettles | src/nxos_http_client.cpp:183-246 | operations about prefixes at rest move the table that is settled at exactly as if they ran alone, whatever else is in flight |
| Settling.SettlingEnds | src/nxos_http_client.cpp:183-246 | finishing everything in flight, in any order, gives the table that is settled at |
| HostRoutes.TruthfulSwitchExists | src/nxos_management_client.cpp:89-141 | the assumptions on the switch can be met for any relays, interface names and foreign routes |
| HostRoutes.ExpiryOnGoal | src/nxos_management_client.cpp:459-518 | the expiry of a live address leaves the image of the remaining leases if and only if its interface is named like a VLAN |
| HostRoutes.EventSettles | src/dhcp6_exporter_impl.cpp:40-350 | a select, renew, rebind, release, decline or expiry in any reachable state makes the table settle where its operations alone lead, and that is the image of the new leases if and only if the event fits |
| HostRoutes.EventReachesImageWhen | src/dhcp6_exporter_impl.cpp:40-350 | after any such event, with anything else in flight and any order of the requests, the table ends as the image of the live leases if and only if: the client stays on its interface; an address a renew names, if it is another live lease's, is the same client's for the same IAID or else routed to another interface; an expiring address is on a VLAN |
| HostRoutes.SecondIaNaRemovesFirst | src/dhcp6_exporter_impl.cpp:325-350 | for every client with two leased IA_NA options in one renew or rebind, the hook for the second lease removes the live route of the first |
| HostRoutes.StepKeepsInv | src/dhcp6_exporter_impl.cpp:40-350 | every fitting lease event and every request served keeps the table settling at the image of the live leases |
| HostRoutes.TableIsImageOfLiveLeases | src/dhcp6_exporter_impl.cpp:40-350 | after any run of fitting lease events interleaved with their requests, every address with nothing in flight has exactly the route of its live lease, no other prefix is touched, and when nothing is in flight the table is the image of the live leases beside the foreign routes |
| HostRoutes.FinishingReachesImage | src/nxos_http_client.cpp:183-246 | finishing whatever is in flight, in any order, brings the table to that image |
| DelegatedPrefixes.SelectThenGiveUp | src/dhcp6_exporter_impl.cpp:229-249 | exporting an IA_PD prefix and later releasing or declining it, under any change of the database in between, touches no other prefix, and restores the prior table exactly if the removal hits nothing of it and all that was added anew; for a fresh prefix, if and only if the client still has the same active IA_NA address |
| DelegatedPrefixes.SelectThenExpire | src/nxos_management_client.cpp:519-618 | the same for expiry, for any prior table, database and switch answer; for a fresh prefix and a switch that names its one next hop, if and only if the client has no active IA_NA lease at expiry, and with one the route stays |
| DelegatedPrefixes.PdExpiryByLookup | src/nxos_management_client.cpp:549-618 | the fallback through the switch removes exactly the route to the next hop that the switch names for the prefix |
| DelegatedPrefixes.RenewLeavesOneRouteWhen | src/dhcp6_exporter_impl.cpp:351-391 | over all renews and rebinds, the leased prefix ends with exactly the route to the active IA_NA address and another named prefix with none, if and only if the address changed and the relay is the old next hop, or neither prefix, length nor next hop changed |
| DelegatedPrefixes.RenewEnds | src/dhcp6_exporter_impl.cpp:351-391 | the whole table after any IA_PD renew or rebind, from any table, with or without an active IA_NA lease |
| Heartbeat.UptimeWraps | src/nxos_heartbeat_service.cpp:36-41 | wrapping at every operation gives the true number of seconds wrapped once |
| Heartbeat.UptimeIsTrueUnlessNegative | src/nxos_heartbeat_service.cpp:36-41 | for 32-bit fields the computed uptime is the true one if and only if that is not negative; non-negative fields always fit |
| Heartbeat.UptimeOrder | src/nxos_heartbeat_service.cpp:107-108 | on normalised fields the computed uptime is injective and ordered as (days, hours, minutes, seconds) |
| Heartbeat.UptimeCountsSeconds | src/nxos_heartbeat_service.cpp:36-41 | the computed uptime starts at zero and grows by one with every second of the clock |
| Heartbeat.NXOSHeartbeatService.StartService | src/nxos_heartbeat_service.cpp:16-17 | the service starts with the lost flag set and no uptime |
| Heartbeat.NXOSHeartbeatService.HandlerFailedCallback | src/nxos_heartbeat_service.cpp:83-86 | a reported restore failure sets the flag and leaves the uptime |
| Heartbeat.NXOSHeartbeatService.HeartbeatCallback | src/nxos_heartbeat_service.cpp:95-130 | in terms of the response: if it came through with status 200, no error object and an uptime, the flag is clear afterwards and the restore handler runs exactly if the flag was set or the uptime fell; any other response sets the flag, keeps the uptime, never restores and is reported to the failure handler if there is one; the timer is restarted exactly around a restore |
| Heartbeat.MemoryMeaning | src/nxos_heartbeat_service.cpp:99-129 | the two fields always tell whether something failed since the last success, and the uptime of that success unless it restored |
| Heartbeat.RestoresExactlyWhen | src/nxos_heartbeat_service.cpp:107-117 | a success restores if and only if it is the first, or something failed since the last success, or it reports less uptime than the last success and that one did not restore |
| Heartbeat.NoFailureIsForgotten | src/nxos_heartbeat_service.cpp:83-103 | a failure keeps the flag set up to the next success, which restores |
| Heartbeat.NoTwoRestoresInARow | src/nxos_heartbeat_service.cpp:107-127 | two successive successes restore both only with a failure between them |
| Heartbeat.RestoresAreAccountedFor | src/nxos_heartbeat_service.cpp:99-129 | restores number at most one more than the failures, restore failures and uptime drops together |
| Heartbeat.AnswersRestoreExactlyWhen | src/nxos_heartbeat_service.cpp:43-130 | over any history of answers and failure reports: only a healthy answer restores, and it does if and only if no healthy one came before, or something else came since the last, or it reports less uptime than that one and that one did not restore |
| HeartbeatThreads.InterleavingsAreSequential | src/nxos_heartbeat_service.cpp:83-130 | in every interleaving of heartbeat and failure callbacks the fields and the restores are those of the callbacks one after the other, in the order they took the mutex |
| HeartbeatThreads.NoFailureIsForgottenByThreads | src/nxos_heartbeat_service.cpp:83-130 | in every interleaving a failure, also one reported while a restoring callback is still running, leaves the flag set until a heartbeat succeeds, and that one restores |
| Neighbors.FromRawCiscoString | src/nxos_management_client.cpp:268-280 | the conversion loop yields the dot-free text with colons at every third place |
| Neighbors.ColonPositions | src/nxos_management_client.cpp:270-277 | where each character of the input stands in the output, so none is lost, added or moved past another |
| Neighbors.ColonsBetweenPairs | src/nxos_management_client.cpp:274 | a colon stands exactly between consecutive pairs, never first or last |
| Neighbors.SameMacText | src/nxos_management_client.cpp:270-277 | two inputs give the same output if and only if what stands between their dots joins to the same text |
| Neighbors.DroppingSeparators | src/nxos_management_client.cpp:270-277 | for any groups of characters written with dots between them, dropping the separators of the output gives the joined groups |
| Neighbors.MacRoundTrip | src/nxos_management_client.cpp:266-280 | any byte string, its hexadecimal digits of either case grouped by dots in any way, is converted to a text that reads back as those bytes |
| Neighbors.HardwareAddressOfMac | src/nxos_management_client.cpp:268-280 | a row whose MAC is any dotted form of some bytes is entered under the address of those bytes |
| Neighbors.BuildNeighborMap | src/nxos_management_client.cpp:318-330 | the four nested loops build the map from each hardware address to the interface of its last row, in document order, with a valid VLAN name, and throw exactly if such a row's MAC cannot be read |
| Neighbors.NeighborMapUnique | src/nxos_management_client.cpp:318-330 | that description determines the map: no other keys and no other values |
| Neighbors.NeighborMapByPlace | src/nxos_management_client.cpp:318-330 | by place in the document (VRF, address family, adjacency table, row): the map has exactly the addresses of rows with a VLAN interface, and gives each the interface of the last such row |
| Restoration.RestoreSubnet | src/dhcp6_exporter_service.cpp:67-129 | the scan of one subnet sends, in order, the routes of its leases before the first without a hardware address, or up to and including the first IA_PD lease, whichever comes first, or of all; and which of these ended it |
| Restoration.RestoreLeasesFromLeaseDatabase | src/dhcp6_exporter_service.cpp:27-132 | a failed lookup is reported back and sends nothing, a missing map or configuration throws, and otherwise the same is true of the leases of all subnets in order |
| Restoration.ScanInOrder | src/dhcp6_exporter_service.cpp:59-67 | the leases scanned are those of the subnets, one subnet after the other |
| Restoration.StopsOnce | src/dhcp6_exporter_service.cpp:67-125 | where and how the scan stops is determined by the leases |
| Restoration.RestorationIsCompleteWhen | src/dhcp6_exporter_service.cpp:103-125 | the scan sends the routes of all leases if and only if none after the place where it stops is restorable |
| Restoration.RestorationIsSoundWhen | src/dhcp6_exporter_service.cpp:67-113 | every route sent belongs to an active lease if and only if no scanned, restorable lease is declined or reclaimed |
| Restoration.FastCommandIsLookupCommand | src/nxos_management_client.cpp:148-180 | the command that restores an IA_NA lease is the one its export sends after the relay lookup, when both name the same VLAN |
| Restoration.SentRoutesAreInstalled | src/dhcp6_exporter_service.cpp:85-113 | carrying out the sent exports in any order adds exactly the routes of those whose request does not fail |
| RestoredTable.RestorationInstalls | src/dhcp6_exporter_service.cpp:58-130 | with a map built by the neighbour loops every export sent is a proper command, and in any order they install exactly the routes of the scanned leases that can be restored |
| RestoredTable.RebootedSwitchIsRestoredWhen | src/dhcp6_exporter_service.cpp:27-132 | a rebooted switch ends with the image of the live leases, in any order of the requests, if and only if the active leases that need a route are exactly the restorable ones among those the scan takes before it stops |
| RouteDecoding.RowPathFromJson | include/nxos/nxos_structs.hpp:64-87 | the loop with its reused temporary fills both lists entry by entry, or fails at the first unreadable entry |
| RouteDecoding.RowPrefixFromJson | include/nxos/nxos_structs.hpp:106-125 | decodes a prefix row whose path table is mandatory |
| RouteDecoding.RowAddrFromJson | include/nxos/nxos_structs.hpp:151-170 | decodes an address row whose prefix table may be missing |
| RouteDecoding.RowVrfFromJson | include/nxos/nxos_structs.hpp:194-211 | decodes a VRF row, without address rows if the table is missing |
| RouteDecoding.ResponseFromJson | include/nxos/nxos_structs.hpp:259-273 | decodes the whole answer |
| RouteDecoding.DecodingIgnoresTableShape | include/nxos/nxos_structs.hpp:106-273 | wrapping single rows of the four tables above the paths in arrays, or unwrapping them, at any set of positions, changes neither the decoded value nor whether decoding fails |
| RouteDecoding.DecodedPathIsBalanced | include/nxos/nxos_structs.hpp:64-87 | a decoded path has as many interface names as next hops |
| RouteDecoding.PathArrayEntries | include/nxos/nxos_structs.hpp:68-76 | an array entry has a name exactly if the document gives one, and a next hop if and only if the document gives either |
| RouteDecoding.PathObjectEntry | include/nxos/nxos_structs.hpp:77-86 | a bare path gives one entry, its interface name and next hop each under its own key, null and absence meaning none |
| RouteDecoding.DecodedPrefixFrom | include/nxos/nxos_structs.hpp:106-125 | a prefix row is decoded only from a document with all mandatory parts, and has their values and one path for each row of the table |
| RouteDecoding.DecodedAddrFrom | include/nxos/nxos_structs.hpp:151-170 | the same for an address row, which has a table exactly if the document has an object or array there |
| RouteDecoding.DecodedVrfFrom | include/nxos/nxos_structs.hpp:194-211 | the same for a VRF row, whose table is empty if the document has none |
| RouteDecoding.DecodedResponseFrom | include/nxos/nxos_structs.hpp:259-273 | the same for the whole answer |
| RouteDecoding.ResponseRoundTrip | include/nxos/nxos_structs.hpp:64-273 | any answer, written in the switch's notation with single rows bare or in arrays at any set of positions, decodes to itself |

## Left out

- HttpClient.NXOSHttpClientImpl.SetThreadsStateStep: the pending requests that stop runs itself through `poll` (src/nxos_http_client.cpp:114-117) are folded into setting the stopped flag, because they touch none of the pool's fields.
- HostRoutes.TableIsImageOfLiveLeases: requests succeed and no two operations on one address overlap; an event that does not fit is not part of these runs, and `HostRoutes.EventReachesImageWhen` says what it leads to.
- ManagementClient.NXOSManagementClient.HandleLookup: reading the first row of a missing or empty prefix table is undefined; the model takes the path of the callback's other errors.
- LeaseHandlers.DHCP6ExporterImpl.HandleRenewRebindProcess: a message without the IA option itself, and a null DUID without an active IA_NA lease, are null dereferences in the code (src/dhcp6_exporter_impl.cpp:326-327, src/dhcp6_exporter_impl.cpp:371); the model throws in the first case and calls nothing in the second.
- RestoredTable.RebootedSwitchIsRestoredWhen: no export request fails, and the neighbour table names no wrong interface; `Restoration.SentRoutesAreInstalled` covers failing requests.
- The start of a thread and its entry in the pool are one step; the requests that the workers execute inside `run` are not part of the pool model.
- Overlap of `restart` with a `run` that is still active, and memory orders weaker than sequential consistency.
- HTTP transport, TLS, basic authentication, mapping of error codes, JSON-RPC framing and validation (src/jsonrpc/utils.cpp); a posted request succeeds, fails, or never reaches its callback.
- Kea's side: hook arguments, packets and their option parsing, the lease manager, configuration, parsing of hardware addresses, printing of IPv6 addresses.
- When the timer fires; the model lets heartbeats arrive in any number and order.
- How the subnet collection is looked up; restoration takes it, or its absence, as a parameter.
- The `to_json` encoders, which nothing calls and which do not invert the decoders, and `RowAdj::from_json`, which looks up `ROW_adj` twice; the neighbour loops start from decoded rows.
- Configuration checks and wrappers: src/nxos_connection_params.cpp, src/callout.cpp, src/route_export.cpp, src/management_client.cpp, src/heartbeat_service.cpp.
- src/event_queue.cpp and src/post_request_jsonrpc.cpp, which are not part of the build.
- Log messages.
