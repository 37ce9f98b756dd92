# Paddock: a verified model of its protocols

Paddock is a Kubernetes operator that runs coding harnesses in pods. This project models the parts
of it that hold real protocols and decision procedures, and proves what they promise. There is one
Dafny module per component; `dafny verify dfyconfig.toml` checks them all.

- `PromptDrain` is the per-prompt supervisor. A data-socket reader and a control loop share a mutex,
  a condition variable, a read deadline and an ack channel. Every critical section, socket call, pipe
  write and channel operation is one step of a transition system, and the theorems hold for every
  interleaving. Assumed of the environment: the data socket stays open, stdin writes succeed, the
  drain's 5 ms read times out only on an empty kernel buffer, and the peer sends body k+1 only once
  prompt k's stdin has been detached. A counter-run shows that the last assumption cannot be dropped.
- `WorkspaceLock` is the Workspace's `activeRunRef` on an API server with optimistic concurrency:
  arbitrarily stale reads, compare-and-swap writes, any number of runs and Workspace reconciles.
- `TurnProtocol` and `TurnCompletion` are the broker's interactive turn protocol: interleaved prompt and turn-complete
  handlers, the race between the completion callback and the post-forward patch, and the router.
- `PolicyAdmission` and `ShellMerge` relate admission to the separately written runtime matchers,
  template inheritance, and the meaning of a merged shell capability.
- `Watchdog`, `BrokerCredentials`, `RateLimit`, `EventFollow`, `StdoutRelay`, `LineSplitter`,
  `ShellQuoting` and `IptablesInstall` are time arithmetic, caches and small algorithms whose
  specifications are independent of their code.

What the proofs show about the code where its documentation or an obvious reading says otherwise. Each
failure has a lemma at an input and the exact condition under which it occurs.

- A turn can be stranded although its patch lands before the poll deadline
  (`internal/broker/interactive.go:464-487`): the last read may precede the patch and its deadline
  check follow the deadline. In terms of times, no schedule strands the turn if and only if the
  latest landing time plus the longest read-to-check delay does not exceed the deadline.
- The turn-complete callback is documented as idempotent once no turn is in flight
  (`internal/broker/interactive.go:398-400`), but it names no turn and polls for up to two seconds. A
  late callback audits a completion if and only if one of its reads finds a turn, which is then one
  patched after it arrived; from every such state the next prompt can be completed this way.
- A turn is completed at most once, in every interleaving, if and only if callbacks do not overlap,
  they read the newest status and the turn counter does not wrap. Each of the three has a run from the
  initial state in which a turn is completed twice.
- The turn counter and `totalRuns` are int32. Turn numbers increase strictly if and only if at most
  2^31 - 1 were allocated; `totalRuns` decreases exactly when a newly counted run wraps it. Runs that
  reach both wraps exist.
- Issue is called again inside a lease's fresh window if and only if the cached status is an older one
  that does not cover the requirements, or the cached Secret cannot be read or lacks a value, or it
  shows extra keys and the write that prunes them does not succeed
  (`internal/controller/broker_credentials.go:175-277`). So a cache that merely lags issues again, and a
  stale read that does not show an extra key leaves the key in the Secret.
- A conflict on the write after issuing is ignored, so a Ready run's Secret carries what was issued if
  and only if that write succeeded or the Secret held those values already.
- A repeated credential name hides an extra Secret key from the length test; the exact condition is
  proved.
- Admission asks for more than runtime can refuse in two cases: a requirement for any port where the
  policies list all 65535 ports by number, and an ungranted port number beyond 65535 or below 0 (which
  the webhooks reject). With these exceptions admission and runtime agree exactly.
- Events are promised to be de-duplicated by (timestamp, type, summary, fields), but the fingerprint
  does not escape its separators. Two different events with "="-free keys and ";"-free values collide if
  and only if timestamp and type agree and the summary of one is the other's, a bar, and a text that the
  other's fields continue. Other keys and values can collide by themselves.
- `--bypass-uids ","` is accepted as an empty list, although empty is meant to be rejected
  (`cmd/iptables-init/main.go:111-137`). A list is accepted as empty exactly when every field is blank.
- A listed phase without a pod is lost from the merged shell capability once some policy leaves its
  phases open. For phases with a pod the merge is exact.
- An iptables probe that errs on a present rule makes the install add it again. The chain is the clean
  one if and only if that does not happen; what the chain does to packets is the same in every case.

Conventions. Clocks, the network, `path.Match`, `strconv.Atoi` and the broker's answers are
parameters. `Int32` writes out the wrap-around of Go's `int32`. Times are nanoseconds unless stated.
Structures that the source updates in place are classes; concurrent goroutines and handlers are
steps over values.

## Model

| member | source | states |
|---|---|---|
| PromptDrain.StepKeepsInv | cmd/harness-supervisor/per_prompt.go:116-325 | every step of the peer, the reader and the control loop keeps the invariant: bytes are conserved (delivered + held + buffered = sent), the mutex-guarded fields fit the control loop's position, the deadline and the acks fit the reader's |
| PromptDrain.RunKeepsInv | cmd/harness-supervisor/per_prompt.go:116-325 | the invariant holds after every run of any number of prompts, in every interleaving |
| PromptDrain.PromptsDeliveredWhole | cmd/harness-supervisor/per_prompt.go:116-325 | in every run the k-th CLI's stdin holds a prefix of body k and, once closed, exactly body k; the reader never exits; a pending ack implies stdin is set and the reader is not parked |
| PromptDrain.ClosedStdinIsFinal | cmd/harness-supervisor/per_prompt.go:168-224 | after a stdin is closed neither its content nor the body it is compared with changes |
| PromptDrain.AckMeansDrained | cmd/harness-supervisor/per_prompt.go:178-200 | when endPrompt sees its ack closed, the kernel buffer is empty, the reader holds nothing and the whole body is in the pipe |
| PromptDrain.AcksClosedOnce | cmd/harness-supervisor/per_prompt.go:300-325 | every handshake closes its ack exactly once, in the order the handshakes were opened |
| PromptDrain.ReaderMove | cmd/harness-supervisor/per_prompt.go:253-325 | in every state of the invariant with endPrompt waiting, the reader has an enabled step |
| PromptDrain.DrainProgress | cmd/harness-supervisor/per_prompt.go:253-325 | while endPrompt waits, each reader step closes the ack or decreases the rank, and no other step changes rank or readiness |
| PromptDrain.DrainTerminates | cmd/harness-supervisor/per_prompt.go:168-188 | a run that keeps an ack pending has at most rank-many reader steps, and the reader can still move at its end |
| PromptDrain.PeerSilentWhileDraining | cmd/harness-supervisor/per_prompt.go:168-188 | a disciplined peer cannot add body bytes while endPrompt waits, so arrivals are finite |
| PromptDrain.EarlyBodyCanAlwaysGoWrong | cmd/harness-supervisor/per_prompt.go:188-224 | from every state of the invariant in which prompt k is drained and still owns stdin, an early body byte has a schedule that puts it into stdin k after body k and closes it there |
| PromptDrain.EarlyBodyLandsInWrongStdin | cmd/harness-supervisor/per_prompt.go:188-224 | such a run from the initial state |
| PromptDrain.EndPromptCompletes | cmd/harness-supervisor/per_prompt.go:168-224 | from every state of endPrompt's wait a schedule ends the prompt, after which the loop is idle or, for "end", stopped |
| PromptDrain.EndLeadsToStopped | cmd/harness-supervisor/per_prompt.go:57-83 | a dispatched "end" stops the loop, at once without an active prompt, else after its drain, close and reap; "end-prompt" leads back to an idle loop |
| PromptDrain.OnlyEndStops | cmd/harness-supervisor/per_prompt.go:57-83 | in every state a step makes the loop stop if and only if it dispatches "end", and nothing starts it again |
| WorkspaceLock.ApiServer.BindWorkspace | internal/controller/harnessrun_controller.go:902-938 | from any cached version: the write it makes, when it reports bound, that a lock held by another run is untouched, and that bound means the run holds the lock unless it cleared it after the version it read |
| WorkspaceLock.HeldUnlessCleared | internal/controller/harnessrun_controller.go:907-909 | the holder seen in a stale version still holds the lock unless it has cleared it since |
| WorkspaceLock.ApiServer.ClearWorkspaceBinding | internal/controller/harnessrun_controller.go:943-965 | from any two cached versions: the write it makes, and that a lock not held by the run is untouched |
| WorkspaceLock.StepKeepsInv | internal/controller/workspace_controller.go:379-430 | every read or write by any client keeps the server history legal, including the finalizer release after an ignored conflict |
| WorkspaceLock.RunKeepsInv | internal/controller/harnessrun_controller.go:902-965 | the history stays legal in every interleaving of any number of clients |
| WorkspaceLock.LockMovesOnlyByItsRun | internal/controller/harnessrun_controller.go:902-965 | activeRunRef moves only from empty to r by r's bind or from r to empty by r's clear; the finalizer goes only while it is empty |
| WorkspaceLock.BindsAreSeparatedByClear | internal/controller/harnessrun_controller.go:902-965 | between any two binds lies a clear by the first binder |
| WorkspaceLock.BindsNeedActive | internal/controller/harnessrun_controller.go:266-284 | in every run a version that binds follows one whose phase is Active |
| WorkspaceLock.DeleteReleases | internal/controller/workspace_controller.go:397-430 | from every legal state that is deleting, free and holds the finalizer, a delete reconcile on the newest version ends with the object gone |
| WorkspaceLock.HeldWorkspaceIsKept | internal/controller/workspace_controller.go:403-410 | a delete reconcile that sees the lock held changes nothing |
| WorkspaceLock.CountsOfHistory | internal/controller/harnessrun_controller.go:913-937 | in every legal history the counters agree with the collapsed bind history |
| WorkspaceLock.TotalRunsCountsCollapsedBinds | internal/controller/harnessrun_controller.go:913-937 | in every run totalRuns is the length of the bind history with adjacent repeats collapsed (as int32), and lastCountedRun its last element |
| WorkspaceLock.TotalRunsDecreasesOnlyOnWrap | internal/controller/harnessrun_controller.go:925-928 | totalRuns decreases between two versions if and only if a newly counted run is bound at the largest int32 |
| WorkspaceLock.CountCanReach | internal/controller/harnessrun_controller.go:913-937 | for every n there is a run with n counted binds |
| WorkspaceLock.TotalRunsCanDecrease | internal/controller/harnessrun_controller.go:925-928 | a run in which totalRuns decreases |
| TurnProtocol.RunKeepsInv | internal/broker/interactive.go:128-239 | in every interleaving each handler's and each stored turn has the history its position requires |
| TurnProtocol.CompletedTurnsWereEarned | internal/broker/interactive.go:163-239 | every prompt-completed audit names a turn that was allocated, then audited as submitted, then accepted 2xx, all before it |
| TurnProtocol.CompletedTurnsWere2xx | internal/broker/interactive.go:207-212 | over the steps of every run: before each prompt-completed audit a forward of that turn, taken when it was audited, was answered with 200 to 299 |
| TurnProtocol.RefusedPromptsLeaveNoTrace | internal/broker/interactive.go:207-212 | a run whose forwards are all answered outside 200 to 299 patches, clears and completes nothing and leaves the status untouched |
| TurnProtocol.TurnsStrictlyIncrease | internal/broker/router.go:108-114 | the turns of a run are strictly increasing if and only if at most 2^31 - 1 were allocated |
| TurnProtocol.TurnsCanReach | internal/broker/interactive.go:163-190 | for every n there is a run that allocates n turns |
| TurnProtocol.TurnNumbersCanWrap | internal/broker/router.go:108-114 | a run whose turn numbers stop increasing |
| TurnProtocol.TurnStrandedIffNoReadAfterPatch | internal/broker/interactive.go:444-512 | when both handlers are done, the turn is cleared with exactly one completion iff some status read followed the patch; otherwise it stays set with none |
| TurnProtocol.TimelyPatchIsNotStranded | internal/broker/interactive.go:464-487 | a patch that lands before the deadline by at least the read-to-check delay is never stranded, in every interleaving |
| TurnProtocol.LatePatchCanStrand | internal/broker/interactive.go:464-487 | for all times with landing plus delay beyond the deadline, a schedule within them whose turn is stranded |
| TurnProtocol.NeverStrandsIff | internal/broker/interactive.go:464-487 | no schedule within a landing time and a read-to-check delay strands the turn if and only if their sum does not exceed the deadline |
| TurnProtocol.LateCallbackCompletesIffItReads | internal/broker/interactive.go:398-512 | among any interleaved handlers, a callback that arrives when no turn is in flight, with current reads and successful writes, reports exactly the turn its first successful read finds, and that turn was patched after it arrived and completed after that |
| TurnProtocol.RepeatCallbackAddsNothing | internal/broker/interactive.go:398-400 | such a callback reports nothing in every interleaving in which no prompt is patched meanwhile |
| TurnProtocol.RepeatCallbackCompletesNextTurn | internal/broker/interactive.go:464-512 | from every state with such a callback there is a schedule in which it completes the next prompt's turn |
| TurnCompletion.StepKeepsOnce | internal/broker/interactive.go:128-239 | without overlapping callbacks, stale polls and wrap-around every step keeps: a turn is patched at most once, a turn being cleared or reported is patched and not completed, and the turn in the newest status is not completed |
| TurnCompletion.CompletesOnceIff | internal/broker/interactive.go:444-512 | in every run from the initial state no turn is completed twice, if and only if callbacks do not overlap, they read the newest status and the counter does not wrap |
| TurnCompletion.PromptGoes | internal/broker/interactive.go:163-239 | from every state at rest a prompt that the adapter answers with any status from 200 to 299 puts its turn into the newest status |
| TurnCompletion.OverlapCompletesTwice | internal/broker/interactive.go:464-512 | a run with overlapping callbacks that completes a turn twice |
| TurnCompletion.StaleReadCompletesTwice | internal/broker/interactive.go:464-512 | a run with a stale poll that completes a turn twice |
| TurnCompletion.WrapCompletesTwice | internal/broker/router.go:108-114 | a run whose wrapped counter gives a turn number out, and completes it, twice |
| TurnCompletion.PromptsBalanceClears | internal/broker/interactive.go:207-238 | in every run whose handlers never overlap, read current statuses and write successfully, promptCount minus the number of clears is 1 exactly when a turn is in flight, else 0 (as int32) |
| TurnProtocol.Broker.HandlePrompts | internal/broker/interactive.go:128-239 | the response code in every case, which turn becomes current and when, keeping promptCount = completions + (1 if a turn is in flight) |
| TurnProtocol.Broker.HandleTurnComplete | internal/broker/interactive.go:444-515 | exactly the turn in flight is completed and cleared, keeping the same balance |
| TurnProtocol.InteractiveRouter.NextTurnSeq | internal/broker/router.go:67-114 | the run's counter advances by one from zero and no other run's state changes |
| TurnProtocol.InteractiveRouter.OnAttach | internal/broker/router.go:78-83 | one more attached client for this run only |
| TurnProtocol.InteractiveRouter.OnDetach | internal/broker/router.go:89-96 | one fewer, never below zero, for this run only |
| TurnProtocol.KeysAreDistinct | internal/broker/router.go:67-76 | the "ns/name" key separates runs when namespaces hold no slash |
| PolicyAdmission.HostMatchesIff | internal/policy/intersect.go:271-284 | ignoring case, a grant covers itself, and "*.d" covers exactly the hosts that are a non-empty text followed by ".d" |
| PolicyAdmission.HostMatchTransitive | internal/policy/intersect.go:271-284 | host matching is transitive over exact hosts and wildcards |
| PolicyAdmission.PortMatchesIff | internal/policy/intersect.go:288-298 | an empty list or one with 0 covers every port, any other list exactly the ports in it |
| PolicyAdmission.AppliesToTemplate | internal/policy/resolver.go:80-91 | true iff some selector is "*" or globs the name, stated over the selectors |
| PolicyAdmission.SelectedPolicyIsFound | internal/policy/resolver.go:80-91 | a policy is among the matching ones iff a selector is "*" or globs the template, and then runtime finds each of its credential and egress grants |
| PolicyAdmission.ListMatchingPolicies | internal/policy/intersect.go:92-105 | the applicable policies, all of them, in list order |
| PolicyAdmission.MatchPolicyGrant | internal/broker/matching.go:58-76 | finds a grant iff some applicable policy of the whole list has one, and it is the first in policy order then grant order |
| PolicyAdmission.FirstPolicyWins | internal/broker/matching.go:48-54 | the first applicable policy and its first grant of a name win over all later ones |
| PolicyAdmission.RuntimeCredentialAgrees | internal/broker/matching.go:63-74 | the runtime credential search over the unfiltered list finds a grant iff admission over the matching policies does |
| PolicyAdmission.MatchEgressGrant | internal/broker/matching.go:85-127 | finds a grant iff some applicable policy of the whole list has one that egressCovers accepts, iff the matching policies cover (host, int32 port) at admission; it is the first one |
| PolicyAdmission.RuntimeEgressAgrees | internal/broker/matching.go:95-127 | the runtime egress matcher over the unfiltered list agrees with admission's matcher over the matching policies |
| PolicyAdmission.GrantsCoverEgress | internal/policy/intersect.go:250-259 | true iff some grant of some policy covers host and port |
| PolicyAdmission.CoverCredential | internal/policy/intersect.go:134-147 | covers a credential iff some policy grants it, by the first grant |
| PolicyAdmission.IntersectMatches | internal/policy/intersect.go:124-181 | admitted iff every requirement is granted; the shortfalls are exactly the ungranted requirements in order; the covered map names first grants; interact and shell are the union and the merge |
| PolicyAdmission.AdmittedShell | internal/policy/intersect.go:167-179 | the admitted shell is none iff no matching policy has one, else it allows a phase with a pod iff some policy's does |
| PolicyAdmission.MissingEgressMeaning | internal/policy/intersect.go:152-164 | the reported pairs are exactly those asked for (0 for an empty port list) that no grant covers |
| PolicyAdmission.AdmittedIffNothingMissing | internal/policy/intersect.go:124-165 | admission holds iff both shortfall lists are empty |
| PolicyAdmission.AdmittedCredentialsResolve | internal/policy/intersect.go:134-150 | for a required credential, runtime resolves iff admission covered it, to the same policy and provider |
| PolicyAdmission.AdmittedEgressIsGranted | internal/policy/intersect.go:250-298 | admitted egress: every host of the pattern on every wanted port has a runtime grant |
| PolicyAdmission.FreshHostIsTypical | internal/policy/intersect.go:271-284 | a grant that matches one sufficiently long fresh host of a pattern covers the whole pattern |
| PolicyAdmission.RejectedEgressIsRefused | internal/broker/matching.go:85-127 | a port not covered for a pattern is refused at runtime for some concrete host of the pattern |
| PolicyAdmission.RuntimeGrantsAllIff | internal/broker/matching.go:85-127 | runtime grants every concrete host on every real port a requirement asks for iff admission's matcher covers the pattern on each of them |
| PolicyAdmission.EgressIsExact | internal/policy/intersect.go:152-164 | a requirement is admitted iff runtime grants all of it, it names no ungranted port outside 1..65535, and it does not ask for any port where every real port is listed by number and none as "any" |
| PolicyAdmission.EveryPortListedIsRejected | internal/policy/intersect.go:288-298 | policies that list every port: "any port" is rejected at admission though every connection is granted |
| PolicyAdmission.FewPortsLeaveNoGap | internal/policy/intersect.go:288-298 | policies listing fewer than 65535 port numbers leave no such gap |
| PolicyAdmission.FreePortExists | internal/policy/intersect.go:288-298 | policies listing fewer than 65535 port numbers leave a real port unlisted |
| PolicyAdmission.AdmissionIsExact | internal/policy/intersect.go:124-165 | the matching policies admit a template iff at runtime, over all policies and by the runtime matchers, every required credential and every concrete host and wanted real port has a grant, and no requirement is one of the two exceptions |
| PolicyAdmission.MergeRequires | internal/policy/resolver.go:151-167 | the merged credentials are the union without repeats, egress is concatenated, and for all policies the merge is admitted iff parent and child are |
| PolicyAdmission.MergedAdmission | internal/policy/resolver.go:134-174 | any such merge is admitted iff parent and child each are |
| ShellMerge.MergePhases | internal/policy/intersect.go:200-215 | the union of two phase lists, each new phase once, in order |
| ShellMerge.ExtendKeepsDistinct | internal/policy/intersect.go:200-215 | the union of phase lists repeats nothing |
| ShellMerge.PhaseAllowedIff | internal/broker/stream.go:480-491 | an open list means Running, Idle, Succeeded, Failed and Cancelled; any other list means itself |
| ShellMerge.MergeShell | internal/policy/intersect.go:188-223 | the most permissive combination of two capabilities |
| ShellMerge.MergedPhases | internal/broker/stream.go:480-491 | over any list of policies a phase is allowed iff some policy allows it and it has a pod or no policy leaves its phases open |
| ShellMerge.ListedPhaseCanBeLost | internal/policy/intersect.go:200-215 | two policies whose merge loses a listed phase |
| ShellMerge.MergedShellMeaning | internal/policy/intersect.go:167-223 | a phase with a pod is allowed iff some policy allows it; no phase is allowed that no policy allows |
| ShellMerge.MergedFlags | internal/policy/intersect.go:188-223 | target is "agent" iff some policy says so; transcripts are recorded iff some policy says so |
| ShellMerge.MergedTarget | internal/policy/intersect.go:188-223 | without "agent" the target is that of the first policy |
| ShellMerge.MergedCommand | internal/policy/intersect.go:188-223 | the command is that of the first policy that sets one |
| ShellMerge.OrderDoesNotMatter | internal/policy/intersect.go:188-223 | reordering policies changes neither allowed phases, nor the agent target, nor recording |
| Watchdog.EffectiveLimits | internal/controller/interactive_watchdog.go:98-127 | each limit is the first positive one of override, template and built-in value |
| Watchdog.NextDeadline | internal/controller/interactive_watchdog.go:86-175 | each cancel in terms of idleSince, lastAttachedAt, attachedSessions, creation and the limits, with its priority; no action iff now is before the earliest deadline; the requeue delay is the time to it, at least a second |
| Watchdog.EarliestIsLeast | internal/controller/interactive_watchdog.go:155-170 | the earliest deadline is the least of the lifetime's and the timers that run |
| Watchdog.FiringPersists | internal/controller/harnessrun_controller.go:629-645 | with an unchanged status, once the watchdog wants to fire it keeps firing, so a failed Job deletion is retried |
| Watchdog.FiresInEveryStatusIff | internal/controller/interactive_watchdog.go:150-153 | it fires whatever the status is if and only if creation + maxLifetime has passed |
| Watchdog.UnchangedRunFiresOnTime | internal/controller/interactive_watchdog.go:140-175 | with unchanged state the next wake-up fires, at the earliest deadline or less than 1s after it, and nothing fires before it |
| Watchdog.FiresWithinLifetime | internal/controller/harnessrun_controller.go:629-685 | whatever updates and early wake-ups happen, the loop fires before creation + maxLifetime + 1s, in a state whose deadline has passed |
| BrokerCredentials.RunCredentials.CachedBrokerCredentials | internal/controller/broker_credentials.go:175-278 | on whatever status and Secret the cached client returns: the fast path is taken iff they cover every requirement and a due prune is written; what it returns and leaves in the Secret |
| BrokerCredentials.RunCredentials.IssueAll | internal/controller/broker_credentials.go:104-139 | succeeds iff the broker issues every requirement, with one call per requirement in order; values, leases and statuses are those issued |
| BrokerCredentials.CycleOutcomeIff | internal/controller/broker_credentials.go:108-124 | the broker's answer to the first requirement it does not issue decides: denied is fatal, unavailable waits; the calls go up to that requirement |
| BrokerCredentials.ReconcileOutcomeIff | internal/controller/broker_credentials.go:108-163 | fatal, waiting and error outcomes of a reconcile, each iff the broker's answers and the upsert say so |
| BrokerCredentials.NoRequirementsDropsSecret | internal/controller/broker_credentials.go:67-76 | without requirements a Secret that is found is deleted, nothing is issued and the leases stay |
| BrokerCredentials.RunCredentials.Reconcile | internal/controller/broker_credentials.go:66-163 | the whole new state and the outcome in every case: no requirements, fast path and Issue cycle, with stale or failing reads and independent outcomes of the prune and of the upsert or delete |
| BrokerCredentials.ReadyCarriesIff | internal/controller/broker_credentials.go:141-162 | after an Issue cycle a Ready run's Secret carries the issued values iff the upsert was written or the Secret carried them before; likewise for its key set |
| BrokerCredentials.PruneLeavesExactlyRequired | internal/controller/broker_credentials.go:238-277 | with distinct names the Secret's keys equal the required names after the fast path and the values are unchanged (pigeonhole) |
| BrokerCredentials.PruneMissesExtrasIff | internal/controller/broker_credentials.go:238-277 | extra keys survive iff the Secret has more keys than distinct names but no more than listed names |
| BrokerCredentials.RepeatedNameHidesExtra | internal/controller/broker_credentials.go:238-277 | a Secret whose extra key survives because a name is repeated |
| BrokerCredentials.StatusCoversIff | internal/controller/broker_credentials.go:187-214 | a status covers the requirements iff each has an entry and a lease that does not expire within 30 seconds |
| BrokerCredentials.NoExpiryStaysCovered | internal/controller/broker_credentials.go:203-206 | leases without expiry never force an Issue, however late it is |
| BrokerCredentials.CommittedIsCovered | internal/controller/broker_credentials.go:187-214 | a status committed by an Issue cycle covers the requirements iff now + 30s does not pass any expiry |
| BrokerCredentials.FreshReconcileIssuesIff | internal/controller/broker_credentials.go:175-277 | at any time, a reconcile of a committed run makes no Issue call iff every lease is in its window (or an older status seen covers), the Secret read has every value and extra keys seen are pruned; then only the Secret changes, else a whole Issue cycle follows |
| BrokerCredentials.ExpiringLeaseIsRenewed | internal/controller/broker_credentials.go:203-206 | once one required lease expires within 30 seconds, a reconcile that sees the committed status issues again, whatever the Secret and the writes |
| BrokerCredentials.MissingValueIsIssuedAgain | internal/controller/broker_credentials.go:222-230 | a Secret that cannot be read, or lacks a value or holds an empty one, is issued again |
| BrokerCredentials.FreshWindow | internal/controller/broker_credentials.go:66-163 | over any sequence of reconciles at any times and foreign keys added in between, Issue is not called again iff every reconcile passes, and then the status stays |
| BrokerCredentials.CurrentWindow | internal/controller/broker_credentials.go:66-163 | with reads that are current unless they fail, Issue is not called again iff every reconcile falls into the fresh window, no read fails and every due prune is written, and then the issued values stay and the Secret has exactly the required keys after each reconcile |
| BrokerCredentials.IssuedOncePerCredential | internal/controller/harnessrun_controller.go:750-836 | from the run's first reconcile on, Issue is called exactly once per required credential iff every later reconcile passes |
| BrokerCredentials.LaggingSecretIssuesAgain | internal/controller/broker_credentials.go:222-226 | an intact Secret that the cache does not show yet, with every write successful, is issued again |
| BrokerCredentials.LaggingStatusIssuesAgain | internal/controller/broker_credentials.go:180-185 | a status that the cache does not show yet is issued again, and the Secret no longer matches the committed lease |
| BrokerCredentials.PruneConflictIssuesAgain | internal/controller/broker_credentials.go:255-270 | a conflicting prune issues again; with a conflicting upsert the Secret keeps the old value and the extra key |
| BrokerCredentials.StaleReadKeepsExtraKey | internal/controller/broker_credentials.go:222-238 | a stale read that does not show an extra key passes and leaves it |
| BrokerCredentials.UpsertConflictKeepsSecret | internal/controller/broker_credentials.go:148-162 | a conflicting upsert is ignored: Ready, with the new leases in the status and the existing Secret unchanged |
| RateLimit.RunLimiterRegistry.Allow | internal/broker/ratelimit.go:82-113 | refines one step of the trace model, marks the run as touched now and leaves other runs alone |
| RateLimit.AdmittedIff | internal/broker/ratelimit.go:45-51 | after any ordered history, with sweeping on, a call is admitted iff in every window ending with it the admitted calls, this one included, number at most 10 + 5/s (issue) or 100 + 50/s (substitute); other kinds always |
| RateLimit.LevelIsLeast | internal/broker/ratelimit.go:82-113 | the level of a bucket is the least that any window of the history leaves of burst + rate |
| RateLimit.BurstIsAdmitted | internal/broker/ratelimit.go:45-51 | the first 10 issue calls and the first 100 substitute calls of a run are admitted |
| RateLimit.RunLimiterRegistry.Sweep | internal/broker/ratelimit.go:117-126 | keeps exactly the entries touched within the last 300 seconds, unchanged |
| RateLimit.IdleIsFull | internal/broker/ratelimit.go:45-51 | five idle minutes fill both buckets |
| RateLimit.SimulatedTrace | internal/broker/ratelimit.go:82-126 | a swept and an unswept registry that agree give the same answers to every trace and agree afterwards |
| RateLimit.SweepingIsInvisible | internal/broker/ratelimit.go:82-126 | for every trace of Allow and Sweep calls the answers equal those of a registry that never sweeps |
| RateLimit.AdmissionBound | internal/broker/ratelimit.go:45-51 | after any history, calls admitted in any window number at most burst + rate * window, with sweeping on |
| EventFollow.EventDedupe.AddIfNew | internal/cli/events.go:146-159 | new iff not remembered; keeps the newest 256, with the seen set equal to the order's members and no repeats |
| EventFollow.FollowEvents | internal/cli/events.go:71-92 | over any forward-sliding snapshots of a duplicate-free log, the printed events are exactly those that appear in some snapshot, each once and in log order |
| EventFollow.ShownExactlyOnce | internal/cli/events.go:71-92 | printing the shown positions of a duplicate-free log in order means no repeats, and an event printed iff some snapshot shows it |
| EventFollow.FingerprintsCollide | internal/cli/events.go:161-181 | different events with equal timestamp and type can have equal fingerprints |
| EventFollow.FieldsCollide | internal/cli/events.go:161-181 | so can events that differ only in fields whose values hold ";" |
| EventFollow.FingerprintsEqualIff | internal/cli/events.go:161-181 | with bar-free timestamps and types, fingerprints are equal iff timestamp and type agree and summary and field text agree or one summary runs on into the other's fields |
| EventFollow.FingerprintsCollideIff | internal/cli/events.go:161-181 | two different events with plain timestamps, types, keys and values collide if and only if timestamp and type agree and the summary of one is the other's, a bar, and a text that the other's fields continue |
| EventFollow.SeparableEventsAreToldApart | internal/cli/events.go:161-181 | without a bar in the fields, or without one in the summaries, events have equal fingerprints iff they are equal |
| StdoutRelay.WriteChunk | cmd/harness-supervisor/persistent.go:132-152 | stops iff the last attempt used failed with the context cancelled; else the written bytes are the smaller of the chunk and what the attempts take, until either is used up; each attempt's bytes go to the connection current after its swap, earlier connections are untouched |
| StdoutRelay.PlacedIsWritten | cmd/harness-supervisor/persistent.go:132-152 | what the connections gained is the written prefix of the chunk, in order |
| StdoutRelay.Relay | cmd/harness-supervisor/persistent.go:122-158 | the bytes accepted by successive connections concatenate to a prefix of stdout, and to exactly what was read whenever a chunk completes; without cancellation every chunk completes iff the attempts can be divided to take them all |
| StdoutRelay.RelayedIsPrefix | cmd/harness-supervisor/persistent.go:122-158 | completed chunks plus a prefix of the next are a prefix of the whole output |
| LineSplitter.Feed | cmd/runtime-claude-code/main.go:426-441 | one read extends the split of the stream and keeps the lines already emitted |
| LineSplitter.TailAndConvert | cmd/runtime-claude-code/main.go:424-460 | for any cut into reads, lines plus carry are the newline-terminated split of the bytes read |
| LineSplitter.SplitUnique | cmd/runtime-claude-code/main.go:424-460 | a stream has only one such split |
| LineSplitter.CutsDoNotMatter | cmd/runtime-claude-code/main.go:424-460 | two ways of cutting the same stream emit the same lines and leave the same carry |
| LineSplitter.FlushCarry | cmd/runtime-claude-code/main.go:478-483 | on cancellation everything read is passed on, except a carry of white space only |
| LineSplitter.PrintableIsNotBlank | cmd/runtime-claude-code/main.go:478-483 | a carry with a printable ASCII byte is never dropped |
| ShellQuoting.QuoteArgs | internal/controller/workspace_seed_helpers.go:107-119 | each argument is quoted in its place |
| ShellQuoting.ScanQuoted | internal/controller/workspace_seed_helpers.go:117-119 | the shell reads a quoted string as exactly its argument, whatever it contains |
| ShellQuoting.QuotedArgsLexBack | internal/controller/workspace_seed_helpers.go:105-119 | lexing the quoted arguments joined by blanks yields exactly the list, for all NUL-free strings |
| ShellQuoting.GitCommandLine | internal/controller/workspace_seed.go:457-468 | the clone command lexes to git followed by exactly the arguments |
| IptablesInstall.NatChain.AppendIfMissing | cmd/iptables-init/main.go:195-208 | adds the rule at the end unless the probe finds it; a probe that errs adds it again; a failing append changes nothing |
| IptablesInstall.NatChain.InstallRules | cmd/iptables-init/main.go:155-174 | installs the desired rules in order, or stops at the first failure with a prefix of them installed |
| IptablesInstall.ProbedChainIsCleanIff | cmd/iptables-init/main.go:195-208 | an install leaves the clean chain if and only if no probe errs on a rule that is present |
| IptablesInstall.ProbeErrorDoublesRule | cmd/iptables-init/main.go:195-208 | a re-run whose probe errs on an installed rule doubles it |
| IptablesInstall.InterruptedInstallResumes | cmd/iptables-init/main.go:155-208 | with exact probes, after an interruption at any point a re-run yields the chain of a clean install |
| IptablesInstall.InstallIdempotent | cmd/iptables-init/main.go:155-208 | further runs change nothing |
| IptablesInstall.EvaluateAddProbed | cmd/iptables-init/main.go:195-208 | neither skipping a present rule nor adding it again changes a first-match verdict |
| IptablesInstall.InstalledChainMeetsSpec | cmd/iptables-init/main.go:155-174 | for every packet: bypass UIDs return, else loopback returns, else listed ports redirect, also after an interrupted install and whichever probes err |
| IptablesInstall.ParseBypassUIDs | cmd/iptables-init/main.go:114-137 | rejects a blank value, a bad integer and a repeated UID, else the UIDs in order |
| IptablesInstall.SplitCommasIff | cmd/iptables-init/main.go:121-121 | the fields hold no comma and joined with commas give back the value |
| IptablesInstall.TrimIff | cmd/iptables-init/main.go:115-122 | trimming removes white space at both ends and nothing else |
| IptablesInstall.ParsedIff | cmd/iptables-init/main.go:119-136 | a list is accepted iff every non-blank trimmed field is an integer and no two are equal, and UID i is the integer of the i-th |
| IptablesInstall.AcceptedBypassList | cmd/iptables-init/main.go:114-137 | an accepted list has no repeats, and is empty iff every field is blank |
| IptablesInstall.CommaIsAccepted | cmd/iptables-init/main.go:111-137 | a lone comma is accepted as an empty list |

## Left out

- The per-prompt supervisor after the data socket closes, after a context cancellation or after the CLI exits by itself: the ack may then be handled twice or not at all, and the model assumes an open socket and successful writes.
- The supervisor's shared state as a heap object: the goroutines step over values, so that interleavings are sequences.
- The interrupt action and the process-level effects of signals and kill timeouts.
- Guaranteed release of a workspace binding: a conflict on clear is swallowed by the code, so only safety holds. Removal of finalizers by hand is not modelled either.
- HarnessRun phases: a terminal run can return to Pending, so they are not absorbing.
- Broker restarts and ForgetRun: the turn counter is in memory and starts again. Single-flight under overlapping prompts does not hold, since the guard reads a cached status.
- TurnProtocol.LateCallbackCompletesIffItReads: takes the callback's reads as current (the uncached reader); what a stale read does is in TurnCompletion.
- PolicyAdmission.MergeRequires: only the requirements part of MergeTemplates; the credential order is that of a Go map, and the other template fields (locked and overridable) are plain field choices.
- PolicyAdmission.HostMatchTransitive: lower-casing is modelled on ASCII only.
- Git-repository grants, discovery windows, interception modes and host lists of proxy-injected credentials.
- RateLimit.AdmissionBound: the token bucket of golang.org/x/time/rate is replaced by an exact integer one on the registry's clock; its floating-point rounding is not modelled.
- Watchdog.NextDeadline: Go's saturation of durations beyond 292 years is not modelled.
- BrokerCredentials.RunCredentials.Reconcile: requirement names come in the sorted order the source produces; status fields other than name and provider are dropped; a write that reports an error is taken not to have landed; a status computed from the newest one is committed; a controller without a broker endpoint is not modelled.
- EventFollow.FollowEvents: events stand for their fingerprints, the log is duplicate-free, and a failed fetch, which ends the command, is not modelled.
- EventFollow.FingerprintsEqualIff: event types hold no bar (formatted timestamps cannot).
- IptablesInstall.NatChain.InstallRules: a probe never reports an absent rule as present; chain creation and the OUTPUT jump are not modelled.
- ShellQuoting.GitCommandLine: the askpass script and the remote rewrite around the clone command are not modelled.
- HTTP, WebSocket, TLS, exec and raw Kubernetes calls, rendering of pods, jobs and network policies, audit records, metrics, JSON conversion and table output: foreign or only easy members.
- Provider internals, webhooks, the proxy runtime and transcripts.
