# Scanopy daemon: a verified model

Scanopy maps networks. A daemon on the scanned site discovers hosts and subnets, and a server stores
them. This project models the daemon's hardest state and the code around it, and proves what holds in
every run of it:

- `EntityBuffer`, `ServerPoll`: the buffer between discovery and a polling server, as an object and as
  every interleaving of its lock sections. Discovery pushes pending entities, the server polls
  snapshots and later confirms them, a session end clears them.
- `ScanController`, `ScanControllerAtomics`, `ScanControllerOverlap`, `BatchScan`, `FdBudget`: the
  controller that halves the scan batch when descriptors run out and grows it back, first called
  serially, then one atomic access at a time by any number of threads, and when the two agree; the
  bounded-parallel loop it feeds; the descriptor budget of all concurrently scanned hosts, each
  running that loop.
- `SessionManager`: the task handle and cancellation token behind separate locks, why a DaemonPoll
  daemon still runs one discovery session at a time, and when a ServerPoll daemon does.
- `Base64Url`, `PercentCode`, `MsiFilename`, `MsiBudget`, `MsiFields`: the configuration the server packs into the
  name of the installer and the custom action unpacks, from bits to installer properties, and which
  fields there is room for.
- `InstallSlots`: which slot and port each daemon installed on one host gets.
- `Bindings`, `LoginLockout`, `Interfaces`, `SubnetMerge`, `TargetTokens`: binding conflicts, login
  lockout, longest-prefix interface assignment, the merge of host and container subnets, and the
  credential-target tokens.

`Wrappers`, `Modes`, `Arithmetic`, `Sets`, `Folds`, `Subsequences`, `Text`, `Decimal` and `Packing` hold
shared definitions.

Locks and atomics become steps: what the code does under one lock, or in one atomic access, is one
step, and runs are all sequences of steps. Clocks, completion orders, hash-map orders, the network and
the server's replies are parameters or nondeterministic choices.

Some properties one might expect do not hold of the code. The code is modelled as it is, with a
concrete failing run or input and the exact condition under which the property does hold:

- A confirmation replaces a pending host whole, so a child merged in after the last poll is lost
  (`ServerPoll.LosingRun`, `ServerPoll.ChildConservedIff`).
- After an exhaustion inside the cooldown at full size no number of successes ends the degradation
  (`ScanController.StuckRun`, `ScanController.DegradationEndsIff`), and a target below the floor is
  overshot (`ScanController.LowTargetStaysRaised`, `ScanController.NeverExceedsIff`).
- Between threads a half-sized batch can be left not degraded, exactly when there are two of them and
  the target is above the floor (`ScanControllerOverlap.SmallButNotDegraded`,
  `ScanControllerOverlap.FullSizeIff`).
- Two ServerPoll handlers can both start a session (`SessionManager.TwoHandlersTwoSessions`), exactly
  when one is admitted while another is starting (`SessionManager.SingleSession`,
  `SessionManager.OverlapSplits`, `SessionManager.ServerPollSingleIff`).
- A ServerPoll cancellation that comes after the seen session has ended can cancel the next one
  (`SessionManager.LateSignalHitsTheNext`, `SessionManager.SignalHitsIff`).
- Overlapping logins get more than five failures evaluated, by exactly as many as are in flight beside
  the fifth (`LoginLockout.EvaluatedFailuresExact`).
- A plus sign or a non-ASCII character in a configuration value does not survive the filename
  (`PercentCode.PlusIsLost`, `PercentCode.ValueRoundTripIff`), although the comments on the escaping
  function say everything else survives verbatim.
- The binding conflict scan looks at one network, so a service named under two can hold a conflict
  (`Bindings.TwoNetworksConflict`, `Bindings.ServicesStayFreeIff`).
- A port binding of one address can stand beside one of all addresses that makes it redundant
  (`Bindings.LateSpecificIsRedundant`, `Bindings.WidenedRowIsRedundant`, `Bindings.AlwaysNormalIff`).
- The comment on the filename query says pairs are taken until the budget runs out; the code skips a
  pair that does not fit and goes on with the next (`MsiBudget.SkipsAndGoesOn`). What is kept is a
  prefix only under the condition of `MsiBudget.PrefixKeptIff`.

## Model

| member | source | states |
|---|---|---|
| `EntityBuffer.SubnetsLastWins` | backend/src/daemon/discovery/buffer.rs:85-102 | a payload of subnet confirmations leaves unknown ids unknown and unmentioned ones as they were; each known, mentioned subnet ends up created with the last value given |
| `EntityBuffer.HostsFirstWins` | backend/src/daemon/discovery/buffer.rs:174-196 | a payload of host confirmations gives each pending, mentioned host its first answer, list by list and with every completeness claim set, and leaves every created host alone |
| `EntityBuffer.RedeliveryIsIdempotent` | backend/src/daemon/shared/handlers.rs:242-266 | delivering a whole confirmation payload twice equals delivering it once, duplicate ids included |
| `EntityBuffer.EntityBuffer.constructor` | backend/src/daemon/discovery/buffer.rs:65-71 | a new buffer is empty |
| `EntityBuffer.EntityBuffer.PushSubnet` | backend/src/daemon/discovery/buffer.rs:78-81 | the subnet becomes pending under its id, hosts and VLANs untouched |
| `EntityBuffer.EntityBuffer.MarkSubnetCreated` | backend/src/daemon/discovery/buffer.rs:85-102 | a known id becomes created; the id mapping is returned exactly when the server's id differs |
| `EntityBuffer.EntityBuffer.PushHost` | backend/src/daemon/discovery/buffer.rs:149-170 | a pending host accumulates children and credentials; otherwise the request becomes the pending entry |
| `EntityBuffer.EntityBuffer.MarkHostCreated` | backend/src/daemon/discovery/buffer.rs:174-196 | only a pending host is replaced, whole: host, addresses, ports, services and interfaces are the answer's, there are no subnets, and every completeness claim is set |
| `EntityBuffer.EntityBuffer.PushScannedVlans` | backend/src/daemon/discovery/buffer.rs:274-277 | VLAN ids accumulate |
| `EntityBuffer.EntityBuffer.ClearAll` | backend/src/daemon/discovery/buffer.rs:343-356 | the buffer is empty again |
| `EntityBuffer.EntityBuffer.ReceiveCreatedEntities` | backend/src/daemon/shared/handlers.rs:242-266 | the handler's two loops apply the payload, subnets then hosts, each in payload order |
| `EntityBuffer.EntityBuffer.GetPending` | backend/src/daemon/discovery/buffer.rs:245-265 | the snapshot lists the value under each pending key, each key once and no other, and changes nothing |
| `EntityBuffer.EntityBuffer.GetScannedIds` | backend/src/daemon/discovery/buffer.rs:293-335 | the lists are those of the created subnets and hosts, each entry once, and of the VLANs; an id of each kind is in them exactly when a created entry nests it or, for VLANs, it was recorded |
| `EntityBuffer.CollectPending` | backend/src/daemon/discovery/buffer.rs:246-262 | the filtering pass, in any map order: one value for each pending key |
| `EntityBuffer.CollectSubnetIds` | backend/src/daemon/discovery/buffer.rs:296-303 | the server ids of the created subnets, one for each created key, in any map order |
| `EntityBuffer.CollectHostIds` | backend/src/daemon/discovery/buffer.rs:305-327 | the id lists of the created hosts one after another, each host once, in any map order |
| `EntityBuffer.HostIdsHave` | backend/src/daemon/discovery/buffer.rs:305-327 | such lists hold exactly the ids the hosts nest, kind by kind, bindings one level down |
| `EntityBuffer.CollectVlanIds` | backend/src/daemon/discovery/buffer.rs:329-332 | each recorded VLAN id once |
| `ServerPoll.PendingEntryExact` | backend/src/daemon/discovery/buffer.rs:149-196 | after any interleaving a host is pending exactly when it has pushes since its last confirmation or clear, and its entry is the first of them with all later lists appended in push order and nothing else kept of those |
| `ServerPoll.FirstPushDecides` | backend/src/daemon/discovery/buffer.rs:153-164 | a pending entry makes exactly the completeness claims of the push that opened it, for the interface table and all four kinds of interface data, and has exactly that push's subnets, whatever later pushes say |
| `ServerPoll.ChildConservedIff` | backend/src/daemon/discovery/buffer.rs:149-265 | every pushed child, pushed again or not, is still pending or was shipped by a poll if and only if one of its pushes from then on has a poll between it and every confirmation applied to the host later |
| `ServerPoll.LastPushConservedIff` | backend/src/daemon/discovery/buffer.rs:149-265 | a child not pushed again is conserved if and only if its own push has those polls |
| `ServerPoll.PolledChildIsConserved` | backend/src/daemon/discovery/buffer.rs:149-265 | the sufficient half for every child, pushed again or not |
| `ServerPoll.HostConserved` | backend/src/daemon/shared/handlers.rs:209-266 | when every applied confirmation of a host follows a poll that follows its latest push, nothing pushed since the last clear is lost |
| `ServerPoll.UnpolledPushIsLost` | backend/src/daemon/discovery/buffer.rs:174-196 | a confirmation applied without such a poll loses the children of that push |
| `ServerPoll.LosingRun` | backend/src/daemon/discovery/buffer.rs:174-196 | a four-step run that loses a port |
| `ServerPoll.CreatedHostIsLive` | backend/src/daemon/discovery/buffer.rs:149-196 | a created host holds, list by list, the answer of a confirmation that was applied and not undone since |
| `ServerPoll.LiveHostIsCreated` | backend/src/daemon/discovery/buffer.rs:149-196 | the converse: the buffer holds that confirmation's own host and lists |
| `ServerPoll.CreatedSubnetIsLive` | backend/src/daemon/discovery/buffer.rs:78-102 | a created subnet holds its latest confirmation, not undone since |
| `ServerPoll.LiveSubnetIsCreated` | backend/src/daemon/discovery/buffer.rs:78-102 | the converse for subnets |
| `ServerPoll.PendingSubnetIsOpen` | backend/src/daemon/discovery/buffer.rs:78-102 | a pending subnet is the one its latest push gave, not confirmed or cleared since |
| `ServerPoll.OpenSubnetIsPending` | backend/src/daemon/discovery/buffer.rs:78-102 | the converse: such a push is what the buffer holds |
| `ServerPoll.VlansExact` | backend/src/daemon/discovery/buffer.rs:274-277 | the recorded VLANs are exactly those pushed since the last clear |
| `ServerPoll.ScannedIdsExact` | backend/src/daemon/discovery/buffer.rs:293-335 | after any interleaving, an id of each kind is reportable if and only if the answer of a live confirmation nests it in its list of that kind or an uncleared VLAN push names it |
| `ServerPoll.AwaitHost` | backend/src/daemon/discovery/buffer.rs:206-231 | the loop stops at the first look that is cancelled, created or past the deadline, and returns the host exactly when that look is created and not cancelled |
| `ServerPoll.AwaitedHostWasConfirmed` | backend/src/daemon/discovery/buffer.rs:206-231 | in a run, a look that finds the host created sees the host of a live confirmation's answer |
| `ScanController.Controller.constructor` | backend/src/daemon/utils/scanner.rs:92-101 | a new controller is at its target and not degraded |
| `ScanController.Controller.OnFdExhaustion` | backend/src/daemon/utils/scanner.rs:117-174 | the three outcomes of an exhaustion: rate limited, at the floor, or halved and stamped |
| `ScanController.Controller.OnSuccess` | backend/src/daemon/utils/scanner.rs:178-213 | success counts while degraded and at the threshold grows the batch by a quarter, up to the target |
| `ScanController.SerialInv` | backend/src/daemon/utils/scanner.rs:117-213 | in every serial run with target at least 16 the size stays between 16 and the target, and not degraded means full size |
| `ScanController.LowTargetStaysRaised` | backend/src/daemon/utils/scanner.rs:137-192 | a target below 16 is overshot by the first exhaustion and the size stays at 16 ever after |
| `ScanController.NeverExceedsIff` | backend/src/daemon/utils/scanner.rs:117-213 | the size never exceeds the target in any serial run if and only if the target is at least 16 |
| `ScanController.ReductionsHalve` | backend/src/daemon/utils/scanner.rs:117-174 | however exhaustions fall around the cooldown, k effective ones leave max(size / 2^k, 16) |
| `ScanController.ReductionsSpaced` | backend/src/daemon/utils/scanner.rs:62-174 | successive reductions of a serial run are at least the cooldown apart |
| `ScanController.FirstReducesIff` | backend/src/daemon/utils/scanner.rs:117-174 | the first exhaustion of a run reduces if and only if the size is not 16 |
| `ScanController.NextReducesIff` | backend/src/daemon/utils/scanner.rs:117-174 | a later one reduces if and only if 500 ms have passed since the last reduction and the size is not 16 |
| `ScanController.ExhaustionOutcome` | backend/src/daemon/utils/scanner.rs:117-174 | every exhaustion leaves the controller degraded; one that reduces leaves half the size, rounded down and not below 16, any other the size it found |
| `ScanController.GrowsByAQuarter` | backend/src/daemon/utils/scanner.rs:186-192 | the grown size is five quarters, rounded down, where that is below the target, and otherwise the target |
| `ScanController.StreakIsEarned` | backend/src/daemon/utils/scanner.rs:117-213 | the streak is at most the successes since any exhaustion inside the cooldown or above the floor |
| `ScanController.GrowthIsEarned` | backend/src/daemon/utils/scanner.rs:178-213 | the size grows only at a success, and after fifty of them since every such exhaustion |
| `ScanController.OneRecovery` | backend/src/daemon/utils/scanner.rs:178-213 | the success that completes the streak grows the batch and clears the flag exactly when the target is reached |
| `ScanController.Recovers` | backend/src/daemon/utils/scanner.rs:178-213 | from any size below target, fifty uninterrupted successes for each four missing places restore the target and end the degradation |
| `ScanController.StuckAtFullSize` | backend/src/daemon/utils/scanner.rs:178-213 | a controller degraded at full size stays degraded under any number of successes |
| `ScanController.DegradationEndsIff` | backend/src/daemon/utils/scanner.rs:178-213 | successes can end a degradation if and only if the size is below the target |
| `ScanController.StuckRun` | backend/src/daemon/utils/scanner.rs:123-132 | a serial run that gets there: recover, then exhaust within the old cooldown |
| `ScanControllerAtomics.RunInv` | backend/src/daemon/utils/scanner.rs:117-213 | every interleaving of single atomic accesses keeps stored sizes and sizes held inside threads in range |
| `ScanControllerAtomics.SizesAlwaysInRange` | backend/src/daemon/utils/scanner.rs:104-213 | for any number of threads, stale loads included, every size ever stored lies between 16 and a target of at least 16 |
| `ScanControllerOverlap.NoOverlapIsSerial` | backend/src/daemon/utils/scanner.rs:117-213 | a run of any threads whose calls do not overlap, loads returning the latest value, shows whenever idle what the serial controller shows after the same calls |
| `ScanControllerOverlap.SmallButNotDegraded` | backend/src/daemon/utils/scanner.rs:146-197 | for every target above 16 and any two or more threads, a run that ends idle, not degraded and below the target |
| `ScanControllerOverlap.FullSizeIff` | backend/src/daemon/utils/scanner.rs:117-213 | idle and not degraded means full size in every run if and only if there is at most one thread or the target is 16 |
| `BatchScan.Fill` | backend/src/daemon/utils/scanner.rs:281-316 | starts items by the protocol, looking at the token before each, until the batch is full, the input is used up or the token is seen set |
| `BatchScan.NextCompleted` | backend/src/daemon/utils/scanner.rs:297-304 | any one item in flight completes, the token is looked at, and the result is taken exactly when it is unset |
| `BatchScan.RunInv` | backend/src/daemon/utils/scanner.rs:254-320 | in every run of the protocol starts are a prefix of the input, finishes distinct and among them, and the number in flight within the bound |
| `BatchScan.RunBounded` | backend/src/daemon/utils/scanner.rs:306 | in flight never exceeds the batch size, at any moment |
| `BatchScan.EndedIffStuck` | backend/src/daemon/utils/scanner.rs:297-317 | a run can go on exactly when it has not ended |
| `BatchScan.CancelledWasSet` | backend/src/daemon/utils/scanner.rs:282-306 | the token is seen set only after it was set |
| `BatchScan.NothingStartsOnceCancelled` | backend/src/daemon/utils/scanner.rs:282-306 | once the token is seen set nothing starts; at most one more item completes and the scan is over |
| `BatchScan.TakenExact` | backend/src/daemon/utils/scanner.rs:297-306 | every finished item is taken, in completion order, but for one just finished or finished under a set token |
| `BatchScan.StartsBeforeSet` | backend/src/daemon/utils/scanner.rs:282-296 | nothing starts after a look at the set token: each start follows a look made before the token was set |
| `BatchScan.TakesBeforeSet` | backend/src/daemon/utils/scanner.rs:297-304 | a result is taken only at a look made before the token was set |
| `BatchScan.CompleteUnlessCancelled` | backend/src/daemon/utils/scanner.rs:297-317 | a scan that ends with a positive batch size and has not seen the token set has started and taken every item |
| `BatchScan.BatchScan` | backend/src/daemon/utils/scanner.rs:254-320 | for every moment the token may be set and every completion order, the loop runs the protocol to its end and returns, in the order taken, the value of each taken item that has one; unless it saw the token set, each value comes back as often as there are items with it; batch size zero scans nothing |
| `BatchScan.CompleteCount` | backend/src/daemon/utils/scanner.rs:297-304 | every item taken once: each value comes back exactly as often as there are items whose outcome it is |
| `BatchScan.OutputsDeliver` | backend/src/daemon/utils/scanner.rs:302-304 | the results are, in the order taken, the values of the taken items that have one, none missing and none added |
| `BatchScan.CompletionOrderIrrelevant` | backend/src/daemon/utils/scanner.rs:297-317 | two complete scans of the same outcomes deliver the same multiset whatever the completion orders |
| `FdBudget.HostBounded` | backend/src/daemon/utils/scanner.rs:360-363 | a host whose phase runs the batch loop with a bound within the batch holds at most the batch in descriptors |
| `FdBudget.DoKeepsInv` | backend/src/daemon/discovery/service/network/scan.rs:713-725 | every step, each event of a host's batch loop and the hand-over of ARP descriptors included, keeps the number of hosts within the budget's concurrency and each host's loop a run within the batch |
| `FdBudget.RunInv` | backend/src/daemon/discovery/service/network/scan.rs:158-166 | the same in every state of every run |
| `FdBudget.InvWithinLimit` | backend/src/daemon/utils/linux.rs:61-106 | those bounds add up to at most the limit whenever reserve plus one batch fit |
| `FdBudget.BudgetExact` | backend/src/daemon/utils/macos.rs:67-118 | on Linux and macOS, probes in flight plus the reserve of 203 plus two per ARP subnet stay within the limit at every moment of every run, whatever the controller shows, if and only if 203 + 2 * ARP subnets + batch is within it |
| `FdBudget.CoveredHostIsSafe` | backend/src/daemon/utils/linux.rs:61-106 | a limit that covers one host by the budget's own count, batch + min(batch / 2, 50) + 10 beside the reserve, is always kept |
| `FdBudget.LinuxConcurrencyExact` | backend/src/daemon/utils/linux.rs:61-106 | on Linux n hosts is the answer if and only if n is at least 1, the reserve and n such hosts are within the limit or n is 1, and n + 1 are not |
| `FdBudget.MacOsConcurrencyExact` | backend/src/daemon/utils/macos.rs:67-118 | on macOS the answer is the same from a limit of 512 up and the smaller of it and 2 below |
| `FdBudget.PhaseBoundExact` | backend/src/daemon/utils/scanner.rs:360-622 | the three phases: TCP the smaller of batch and what the controller shows, UDP at most 10, endpoints half the batch up to 50 |
| `FdBudget.CostIsSumOfPhases` | backend/src/daemon/utils/linux.rs:77-90 | from a batch of 10 up the cost of a host is the sum of the largest bounds of its three phases |
| `FdBudget.ReachesHosts` | backend/src/daemon/discovery/service/network/scan.rs:713-725 | every number of hosts up to the concurrency is scanned at once in some run |
| `SessionManager.Manager.constructor` | backend/src/daemon/discovery/manager.rs:22-28 | no task, and a token of its own |
| `SessionManager.Manager.IsDiscoveryRunning` | backend/src/daemon/discovery/manager.rs:202-218 | true exactly when the stored handle's task has not finished |
| `SessionManager.Manager.StartNewSession` | backend/src/daemon/discovery/manager.rs:221-226 | a token nobody else has is installed and returned, and the old handle dropped |
| `SessionManager.Manager.SetCurrentTask` | backend/src/daemon/discovery/manager.rs:228-230 | the handle is stored, the token untouched |
| `SessionManager.Manager.TryInitiateSession` | backend/src/daemon/discovery/manager.rs:31-155 | uninterrupted, it refuses exactly when a session runs and then changes nothing; otherwise it spawns one with a new token and the manager reports it running |
| `SessionManager.Manager.CancelCurrentSession` | backend/src/daemon/discovery/manager.rs:233-246 | signals the current token exactly when a session runs |
| `SessionManager.Manager.ClearCompletedTask` | backend/src/daemon/discovery/manager.rs:253-261 | drops a finished task's handle with a new token, and otherwise does nothing |
| `SessionManager.RunInv` | backend/src/daemon/runtime/service.rs:175-233 | what every lock section of manager, work loop, handlers and session tasks keeps in a run where no request is admitted while another actor is starting a session |
| `SessionManager.SingleSession` | backend/src/daemon/discovery/manager.rs:31-262 | in such a run at most one session task is ever unfinished, the manager's token is that task's, and no other task ever had it |
| `SessionManager.DaemonPollIsExclusive` | backend/src/daemon/shared/handlers.rs:42-44 | the router's gate makes every DaemonPoll run such a run, with any number of handlers |
| `SessionManager.DaemonPollSingleSession` | backend/src/daemon/shared/handlers.rs:42-44 | at most one unfinished session in every DaemonPoll run with any number of handlers |
| `SessionManager.DaemonPollIgnoresHandlers` | backend/src/daemon/shared/handlers.rs:42-44 | a DaemonPoll daemon with handlers does, move for move, what it does without |
| `SessionManager.ReportedReadyIff` | backend/src/daemon/runtime/service.rs:175-184 | in every DaemonPoll run readiness is reported exactly when no session task is unfinished |
| `SessionManager.ReplyCancels` | backend/src/daemon/runtime/service.rs:219-223 | in every DaemonPoll run a reply that asks to cancel, followed by the loop's two steps, cancels exactly the unfinished session's token, and nothing if none is unfinished |
| `SessionManager.LoopLooks` | backend/src/daemon/runtime/service.rs:219-223 | whatever came between, a loop about to cancel that looks while a session is unfinished is then about to signal that session |
| `SessionManager.ReplyStartsSession` | backend/src/daemon/runtime/service.rs:219-233 | a reply with work to a ready daemon, cancelling or not, ends with one more session working, under a token no task had and nobody cancelled, its handle stored |
| `SessionManager.RequestCancels` | backend/src/daemon/discovery/handlers.rs:38-61 | in ServerPoll mode, with no request in between, a cancel request adds exactly the unfinished session's token |
| `SessionManager.SignalHitsWhatItSaw` | backend/src/daemon/discovery/manager.rs:233-246 | a cancellation signal cancels the session its caller saw and no other session's token, always in DaemonPoll mode and otherwise while that session lasts |
| `SessionManager.SignalHitsIff` | backend/src/daemon/discovery/manager.rs:233-246 | in any mode, also after the seen session has ended, a session not cancelled before is cancelled by the signal if and only if the token cell holds its token |
| `SessionManager.LateSignalHitsTheNext` | backend/src/daemon/discovery/manager.rs:233-246 | a ServerPoll run in which the seen session ends, another starts, and the signal cancels that one |
| `SessionManager.ClearNeverActs` | backend/src/daemon/discovery/manager.rs:253-261 | called from the task it would clear, the clean-up never changes state |
| `SessionManager.OverlapSplits` | backend/src/daemon/discovery/manager.rs:31-43 | any ServerPoll request admitted while another handler is starting a session can be continued to two unfinished sessions |
| `SessionManager.TwoHandlersTwoSessions` | backend/src/daemon/discovery/handlers.rs:16-36 | with two or more handlers a ServerPoll run with two unfinished sessions |
| `SessionManager.ServerPollSingleIff` | backend/src/daemon/discovery/handlers.rs:16-36 | every ServerPoll run keeps to one session if and only if there is at most one handler at a time |
| `Base64Url.IndexOfSearches` | backend/wix/parse-filename.js:21-28 | the index of a character is its position in the alphabet string, and only that |
| `Base64Url.BytesExact` | backend/wix/parse-filename.js:23-40 | the bytes emitted sextet by sextet are the bytes of the one unbounded number the sextets spell |
| `Base64Url.Decode` | backend/wix/parse-filename.js:23-40 | on every string the wrapping signed 32-bit register gives what the unbounded reference gives |
| `Base64Url.DecodedExact` | backend/wix/parse-filename.js:23-40 | the length and every byte of a decoded string, as arithmetic on that number |
| `Base64Url.StrayIgnored` | backend/wix/parse-filename.js:29-31 | a character outside the alphabet changes nothing wherever it stands |
| `Base64Url.DecodedPrefix` | backend/wix/parse-filename.js:23-40 | decoding a string is a prefix of decoding any extension of it |
| `Base64Url.RoundTrip` | backend/src/server/daemons/impl/install_artifacts.rs:253 | decoding inverts unpadded encoding of every byte sequence |
| `Base64Url.EncodedAlphabet` | backend/src/server/daemons/impl/install_artifacts.rs:253 | an encoded name holds letters, digits, hyphens and underscores only |
| `PercentCode.PercentDecode` | backend/wix/parse-filename.js:42-56 | the index-skipping loop computes the front-to-back reading, malformed escapes included |
| `PercentCode.HexPairIsParsed` | backend/wix/parse-filename.js:46-48 | for any two characters the decoder's case analysis gives the character code of the host language's hexadecimal reading: leading space, sign, 0x, bad digits and all |
| `PercentCode.EscapeClean` | backend/src/server/daemons/impl/install_artifacts.rs:179-196 | an escaped value is ASCII and free of both delimiters |
| `PercentCode.EscapeUnchangedIff` | backend/src/server/daemons/impl/install_artifacts.rs:179-196 | a value is escaped to itself if and only if it is ASCII without percent sign, ampersand and equals sign, and otherwise gets longer |
| `PercentCode.Utf8Exact` | backend/src/server/daemons/impl/install_artifacts.rs:179-196 | the escaped bytes of a character are its shortest UTF-8 sequence, as section 3 of RFC 3629 has it |
| `PercentCode.UnescapeEscape` | backend/src/server/daemons/impl/install_artifacts.rs:179-196 | what any escaped value decodes to: spaces for pluses, one character per UTF-8 byte |
| `PercentCode.ValueRoundTripIff` | backend/src/server/daemons/impl/install_artifacts.rs:175-196 | a value comes back unchanged if and only if it is ASCII without a plus sign |
| `PercentCode.PlusIsLost` | backend/wix/parse-filename.js:49-50 | a plus sign comes back as a space |
| `MsiFilename.MsiConfigQuery` | backend/src/server/daemons/impl/install_artifacts.rs:214-234 | the loop's query is that of the pairs that fit, and its omissions are the keys of the others |
| `MsiFilename.ParseFilename` | backend/wix/parse-filename.js:58-106 | the properties set are those of the path's decoded pairs, in order, for every path |
| `MsiFilename.AssignPairs` | backend/wix/parse-filename.js:88-103 | the loop over the pairs sets what each mapped, non-empty pair says, later ones over earlier |
| `MsiFilename.LastGivenWins` | backend/wix/parse-filename.js:88-103 | a property is set if and only if some pair gives it a value, and then to what the last such pair gives |
| `MsiFilename.OnlyKnownProperties` | backend/wix/parse-filename.js:73-103 | no path sets a property outside the eleven |
| `MsiFilename.StripMsiExact` | backend/wix/parse-filename.js:66 | an msi extension in any case is stripped |
| `MsiFilename.StripMsiElse` | backend/wix/parse-filename.js:66 | a name without one is left as it is |
| `MsiFilename.DirectoryExact` | backend/wix/parse-filename.js:66 | what is stripped off the front of any path is its longest piece on one line that ends in a slash or backslash, and nothing exactly when there is none |
| `MsiFilename.DirectoryStripped` | backend/wix/parse-filename.js:66 | a directory ending in a slash or backslash is stripped exactly |
| `MsiFilename.FilenameRoundTrip` | backend/src/server/daemons/impl/install_artifacts.rs:240-258 | for every configuration and directory, parsing the built filename sets exactly the properties of the kept pairs |
| `MsiFilename.PropertiesExact` | backend/src/daemon/shared/config.rs:358-503 | for every configuration a property is set exactly when its field was kept with a non-empty value, and to that very value exactly when the value is ASCII without a plus sign |
| `MsiBudget.KeptExact` | backend/src/server/daemons/impl/install_artifacts.rs:214-234 | the kept pairs are, in the configuration's order, exactly those with room, which the encoded lengths alone decide |
| `MsiBudget.OmittedExact` | backend/src/server/daemons/impl/install_artifacts.rs:219-231 | the reported keys are, in order, exactly those of the pairs without room |
| `MsiBudget.AllKeptIff` | backend/src/server/daemons/impl/install_artifacts.rs:214-234 | everything is kept, and nothing reported, if and only if the whole query is within the budget |
| `MsiBudget.SkipsAndGoesOn` | backend/src/server/daemons/impl/install_artifacts.rs:223-226 | a configuration with too long a name, whose port is still taken |
| `MsiBudget.PrefixKeptIff` | backend/src/server/daemons/impl/install_artifacts.rs:208-226 | the kept pairs are a prefix of the configuration if and only if no pair after the longest fitting prefix would fit behind it |
| `Packing.LongestExists` | backend/src/server/daemons/impl/install_artifacts.rs:219-226 | every list of lengths has a longest fitting prefix |
| `MsiBudget.FieldArrivesIff` | backend/src/server/daemons/impl/install_artifacts.rs:240-258 | each pair of a configuration sets its property if and only if its value is not empty and there is room, and to that very value if and only if it is ASCII without a plus sign |
| `MsiBudget.UnsetStaysUnset` | backend/wix/parse-filename.js:88-103 | a field the configuration does not set is not set by the installer |
| `MsiBudget.AllArriveIff` | backend/src/server/daemons/impl/install_artifacts.rs:240-258 | every non-empty value arrives if and only if there is room for each, and with no value empty if and only if the whole query is within the budget |
| `MsiBudget.SetFieldArrives` | backend/src/daemon/shared/config.rs:358-503 | for every daemon configuration within the budget each set field with a value reaches its property |
| `MsiFields.ConfigurationArrives` | backend/src/daemon/shared/config.rs:358-503 | for every daemon configuration within the budget, field by field: SERVERURL is the server url, LISTENADDRESS the bind address and so on for all eleven, modes and flags in their spelling, numbers as digits that read back to them, interfaces comma-joined, and a field not set leaves its property unset |
| `MsiBudget.KeptOrReported` | backend/src/server/daemons/impl/install_artifacts.rs:219-231 | a pair is in the filename if and only if there is room for it, and its key reported if and only if there is not |
| `MsiFilename.FilenameFits` | backend/src/server/daemons/impl/install_artifacts.rs:199-202 | the filename never exceeds 255 characters, and is one base64url segment between the fixed prefix and extension |
| `MsiFilename.BudgetIsTight` | backend/src/server/daemons/impl/install_artifacts.rs:199-202 | a name is within 255 characters if and only if its query is within the budget |
| `MsiFilename.OtherNameSetsNothing` | backend/wix/parse-filename.js:66-70 | a file whose name does not begin with scanopy-daemon- sets no property, wherever it lies |
| `MsiFilename.ApiKeyNeverEncoded` | backend/src/daemon/shared/config.rs:423-441 | the filename is the same whatever the api key and the install selector are |
| `InstallSlots.ServiceIdCollidesIff` | backend/src/daemon/install/mod.rs:866-880 | over all strings, two slots share a service id exactly when one is a number and the other the allocated slot of that number |
| `InstallSlots.FreshServiceId` | backend/src/daemon/install/mod.rs:250-259 | a newly allocated slot's service id is taken exactly when the slot of its bare number is installed |
| `InstallSlots.MatchesIff` | backend/src/daemon/install/mod.rs:169-178 | a selector names an install by its slot, its service id, its name or any spelling of its id, up to ASCII case |
| `InstallSlots.Position` | backend/src/daemon/install/mod.rs:215-238 | the first install a selector, name or key fits, or none if none does |
| `InstallSlots.ExistingIffNamed` | backend/src/daemon/install/mod.rs:205-247 | an existing install is the target exactly when the command names one, and a new default slot only on an empty host |
| `InstallSlots.StrongestClueWins` | backend/src/daemon/install/mod.rs:211-238 | selector before name before key: the first of them that fits any install decides, and picks the first install it fits |
| `InstallSlots.FirstFree` | backend/src/daemon/install/mod.rs:255-258 | the search terminates at the least number from 2 whose slot is free |
| `InstallSlots.NextFreeSlotExact` | backend/src/daemon/install/mod.rs:250-259 | scanopy-daemon if that is free, and otherwise scanopy-daemon-n for the least free n from 2 |
| `InstallSlots.PortFrom` | backend/src/daemon/install/mod.rs:274-279 | the least port no other install claims, or none exactly when all are claimed |
| `InstallSlots.ExhaustedIff` | backend/src/daemon/install/mod.rs:274-279 | the port search fails exactly when the host holds 5463 installs |
| `InstallSlots.NewPortExact` | backend/src/daemon/install/mod.rs:261-279 | a new slot's port is the least from 60073 to 65535 that no install on the host has |
| `InstallSlots.ReinstallChangesNothing` | backend/src/daemon/install/mod.rs:351-397 | a key the host holds maps to its own slot and leaves the host as it was |
| `InstallSlots.FreshInstall` | backend/src/daemon/install/mod.rs:351-397 | a new key adds one slot, the least free, with the least free port, and touches no other |
| `InstallSlots.RunKeepsInv` | backend/src/daemon/install/mod.rs:351-397 | every run of installs and uninstalls from an empty host keeps keys and ports distinct and slots allocated |
| `InstallSlots.RunKeepsInstallsApart` | backend/src/daemon/install/mod.rs:866-880 | any two installs of such a run differ in slot, key, port and service id |
| `InstallSlots.OneSlotPerInstall` | backend/src/daemon/install/mod.rs:467-478 | an install adds one slot, or none for a held key or with 5463 installs there, changes no slot already there, and holds its key afterwards unless the ports are used up |
| `InstallSlots.InstalledIffPut` | backend/src/daemon/install/mod.rs:351-478 | at the end of every run a slot is installed if and only if a command put it there, with its key, and no uninstall took it away since; key and port are then as they were put |
| `InstallSlots.AlwaysNext` | backend/src/daemon/install/mod.rs:351-397 | every install with a key and every uninstall is a possible next command on every host |
| `Bindings.Validate` | backend/src/server/bindings/handlers.rs:41-118 | the scan accepts exactly when no other binding of the service in that network conflicts, in any row order |
| `Bindings.ClashesIsConflict` | backend/src/server/bindings/handlers.rs:53-114 | the handler's three branches test one symmetric relation |
| `Bindings.ConflictIffCovered` | backend/src/server/bindings/handlers.rs:53-114 | two bindings of one service conflict if and only if one, standing for a whole address, stands where the other covers a port |
| `Bindings.Supersede` | backend/src/server/bindings/handlers.rs:165-196 | the deleting loop removes exactly the superseded rows |
| `Bindings.Create` | backend/src/server/bindings/handlers.rs:151-199 | a create is refused exactly on a conflict; otherwise the superseded rows give way to the new one |
| `Bindings.Update` | backend/src/server/bindings/handlers.rs:219-233 | an update replaces its row exactly when the row exists and no other row conflicts |
| `Bindings.RunConflictFree` | backend/src/server/bindings/handlers.rs:41-233 | after any run of creates, updates and deletes no service has conflicting bindings within a network |
| `Bindings.TwoNetworksConflict` | backend/src/server/bindings/handlers.rs:48-50 | any two conflicting bindings of one service under two networks are both accepted |
| `Bindings.ServicesStayFreeIff` | backend/src/server/bindings/handlers.rs:48-50 | whole services stay free in every run if and only if requests may name each service under one network only |
| `Bindings.CreateCoverage` | backend/src/server/bindings/handlers.rs:165-196 | coverage after a create is the old coverage plus the new binding's, so superseding loses nothing |
| `Bindings.CreateKeepsTheRest` | backend/src/server/bindings/handlers.rs:165-196 | a create deletes exactly the port bindings whose coverage lies strictly within its own, and leaves all other rows as they were |
| `Bindings.NormalStepIff` | backend/src/server/bindings/handlers.rs:151-233 | a request met in a table without redundant port rows leaves none if and only if it puts no accepted row beside one that makes either redundant |
| `Bindings.AlwaysNormalIff` | backend/src/server/bindings/handlers.rs:151-233 | no state of a run has a redundant row if and only if every request is such when it comes |
| `Bindings.LateSpecificIsRedundant` | backend/src/server/bindings/handlers.rs:151-199 | a port row of one address created after the all-addresses row of that port stays beside it |
| `Bindings.UpdateSupersedesNothing` | backend/src/server/bindings/handlers.rs:219-233 | an update to all addresses leaves the rows it makes redundant |
| `Bindings.WidenedRowIsRedundant` | backend/src/server/bindings/handlers.rs:219-233 | a run of two creates and an update that ends with a redundant row |
| `LoginLockout.LoginAttempts.CheckLoginLockout` | backend/src/server/auth/service.rs:445-460 | refuses exactly when the account has five counted failures and the last is within the lockout |
| `LoginLockout.LoginAttempts.Settle` | backend/src/server/auth/service.rs:390-441 | success forgets the account, failure counts and stamps it |
| `LoginLockout.LoginAttempts.Login` | backend/src/server/auth/service.rs:373-442 | uninterrupted, a locked account is refused without a trace and any other attempt is settled |
| `LoginLockout.LoginAttempts.Cleanup` | backend/src/server/auth/service.rs:911-916 | exactly the entries past the lockout time are pruned |
| `LoginLockout.RefusalMeansFiveFailures` | backend/src/server/auth/service.rs:445-460 | in every interleaving of checks, settlements and cleanups a refusal implies at least five evaluated failures since the last success |
| `LoginLockout.StampIsLastFailure` | backend/src/server/auth/service.rs:433-438 | in every run an entry's time is that of the account's last evaluated attempt, a failure |
| `LoginLockout.RefusalIsRecent` | backend/src/server/auth/service.rs:445-460 | a refusal comes within 900 seconds of that failure |
| `LoginLockout.RunRemembers` | backend/src/server/auth/service.rs:433-438 | a streak of close failures is in the table until its lockout has passed, whatever cleanups and other attempts came between any two lock sections |
| `LoginLockout.FiveInARowLock` | backend/src/server/auth/service.rs:445-460 | five failures in a row with gaps under 900 s refuse every attempt checked within 900 s of the last, in every interleaving |
| `LoginLockout.RefusalLeavesNoTrace` | backend/src/server/auth/service.rs:383-384 | striking a refused attempt from a run changes nothing after it, so refusals never extend the lock |
| `LoginLockout.ExpiredLockRelocksAtOnce` | backend/src/server/auth/service.rs:433-438 | after an expired lock one more failure locks again, unless a cleanup came between |
| `LoginLockout.RunOvershoot` | backend/src/server/auth/service.rs:383-438 | with at most w attempts on an account in flight a streak never exceeds w + 4, and once it locks only attempts already in flight can lengthen it |
| `LoginLockout.EvaluatedFailuresExact` | backend/src/server/auth/service.rs:383-438 | exactly the streaks up to w + 4 are possible, so one attempt at a time gets five and overlapping ones more |
| `Interfaces.SameLengthSameCidr` | backend/src/daemon/utils/base.rs:222-226 | two canonical CIDRs of equal length that contain one address are equal |
| `Interfaces.ContainsIff` | backend/src/daemon/utils/base.rs:222-226 | a canonical CIDR contains the addresses of its family from its first on, a block long |
| `Interfaces.MadeExact` | backend/src/server/subnets/impl/base.rs:167-211 | the CIDR made is, exactly, the canonical IPv4 one that contains the address with the reported length, or with length 24 for a VPN /32; no other /32 and no IPv6 network makes one |
| `Interfaces.Made` | backend/src/server/subnets/impl/base.rs:167-211 | the CIDR made from a reported network is canonical and contains the address that reported it |
| `Interfaces.UniqueSubnets` | backend/src/daemon/utils/base.rs:208-214 | one subnet per CIDR made, each from the first report that makes it |
| `Interfaces.SubnetsAreUnique` | backend/src/daemon/utils/base.rs:208-214 | that determines the subnets |
| `Interfaces.FindHome` | backend/src/daemon/utils/base.rs:222-226 | looking in any order finds a longest containing subnet, or none when none contains the address |
| `Interfaces.HomeIsUnique` | backend/src/daemon/utils/base.rs:222-226 | there is one such subnet, strictly longer than every other candidate, so hash-map order is irrelevant |
| `Interfaces.Assign` | backend/src/daemon/utils/base.rs:216-247 | placements follow report order, and each subnet that got an address has the first known MAC among its addresses |
| `Interfaces.OwnInterfaces` | backend/src/daemon/utils/base.rs:207-251 | both passes together |
| `Interfaces.MacsAreUnique` | backend/src/daemon/utils/base.rs:228-236 | the first-known-MAC property determines the MAC map |
| `Interfaces.AddressPlaced` | backend/src/daemon/utils/base.rs:238-246 | every address inside some subnet is placed there, after exactly the ones placed before it |
| `Interfaces.PositionsInOrder` | backend/src/daemon/utils/base.rs:238-246 | positions are 0 to n - 1 and each placement comes from a report |
| `Interfaces.OwnSubnetIsAPlace` | backend/src/daemon/utils/base.rs:208-226 | an address whose own network made a subnet is placed there or in a longer one |
| `SubnetMerge.Filter` | backend/src/daemon/utils/base.rs:543-563 | container subnets with other CIDRs stay in order, and the last bridge of each host CIDR is remembered |
| `SubnetMerge.Adopt` | backend/src/daemon/utils/base.rs:565-576 | the first host subnet of a remembered CIDR takes type and owner, all others stay as they were |
| `SubnetMerge.Merge` | backend/src/daemon/utils/base.rs:535-579 | the host's subnets in order and with their identity, then the other container subnets in order |
| `SubnetMerge.HostSubnetMerged` | backend/src/daemon/utils/base.rs:535-579 | with distinct host CIDRs a host subnet takes type and owner of the last same-CIDR bridge exactly when there is one |
| `SubnetMerge.LastBridgeDecides` | backend/src/daemon/utils/base.rs:543-576 | the first host subnet of a CIDR takes type and owner of the last Docker or Podman bridge of that CIDR and keeps the rest |
| `SubnetMerge.NoBridgeChangesNothing` | backend/src/daemon/utils/base.rs:543-576 | a host subnet without such a bridge stays as it was |
| `SubnetMerge.OutsideInOrder` | backend/src/daemon/utils/base.rs:543-563 | the container subnets kept are exactly those of other CIDRs, in order |
| `SubnetMerge.MergeKeepsCidrs` | backend/src/daemon/utils/base.rs:535-579 | the merged CIDRs are those of both inputs |
| `SubnetMerge.MergeDistinct` | backend/src/daemon/utils/base.rs:535-579 | inputs without repeated CIDRs merge into a list without |
| `TargetTokens.SplitOnce` | backend/src/daemon/shared/config.rs:45-48 | the text around the first separator, none exactly when there is none |
| `TargetTokens.ReadWritten` | backend/src/server/credentials/impl/mapping.rs:163-181 | what reading a printed target gives, for every target |
| `TargetTokens.TokensRoundTripIff` | backend/src/daemon/shared/config.rs:33-43 | a list of printed targets reads back exactly when every Hosts list is non-empty and not a lone loopback |
| `TargetTokens.VariableRoundTripIff` | backend/src/daemon/shared/config.rs:776-782 | the same through comma-joining, splitting and trimming |
| `TargetTokens.PaddedRoundTrip` | backend/src/daemon/shared/config.rs:33-43 | printed targets read back with any white space around each |
| `TargetTokens.ReadWriteRead` | backend/src/daemon/shared/config.rs:33-76 | whatever is accepted, printed and read again gives the same targets |
| `TargetTokens.TokenMistakes` | backend/src/daemon/shared/config.rs:45-76 | which mistake is reported for a token with a sign: the first address that cannot be read, then no address at all, then the id |
| `Text.TrimPadded` | backend/src/daemon/shared/config.rs:38-39 | trimming takes any white space off both ends and leaves a text without any as it is |

## Left out

- ScanController.Controller.OnSuccess: does not model overflow of `current * 125` or of the streak in machine words.
- LoginLockout.LoginAttempts.Settle: does not model wrap-around of the 32-bit failure count, nor that a failure whose event cannot be published is not counted.
- ServerPoll.AwaitHost: the subnet variant has the same loop and is not repeated; the looks it takes and the clock are parameters.
- BatchScan.BatchScan: an item stands for its index and its probe's outcome is given; the token is set from a given look on; the rate-limit delay between starts is not modelled.
- FdBudget.BudgetExact: covers the probes the budget counts (TCP, UDP, endpoints); SNMP and other integration probes run outside the batch loop and are not in it.
- Base64Url.Decode: the bitwise or is a sum, the six low bits being zero at that point.
- MsiFilename.ParseFilename: query keys that are names inherited by every JScript object are not modelled; the property map is the literal one.
- MsiBudget.SetFieldArrives: covers the fields with an MSI key; command-line flags and environment names of the same table, and the server's choice of field values, are not modelled.
- InstallSlots.PortFrom: past port 65535 the model says none, where the code's 16-bit range overflows (and in a checked build already does on yielding 65535).
- InstallSlots.RunKeepsInstallsApart: installs carry a non-empty key and no selector, name or pinned port, with no terminal to ask on; discovery on disk is a listing in any order.
- Bindings.RunConflictFree: each request is one atomic step; tenancy checks and validation of ports and addresses are not modelled.
- Interfaces.OwnInterfaces: starts from what the first pass collects; interface filters, the link-local prefix correction and zero MACs belong to that pass.
- TargetTokens.VariableRoundTripIff: how ids and addresses are written is a parameter, required to be free of separators and white space and to read back; `TargetTokens.LawfulExists` gives one such notation.
- Progress and terminal payloads of the poll handler, retries and back-off of the work loop, authentication.
- Network probing, container clients, storage, the event bus, password hashing, single sign-on and billing: foreign I/O.
- Platform service registration, prompts, file placement and logging.
- Budgets of the BSD and Windows builds, which are the same arithmetic.
- The web interface, code generators and API schema.
