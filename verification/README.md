# Monalive: a Dafny model

Monalive health-checks the real servers behind load-balanced services. It tells a load balancer which
reals to use and with what weight, and it tells BIRD which prefixes to announce. This project models the
logic between these ends, and proves what the whole is for.

- **The health-event pipeline.** Checker, real and service are state machines that update their fields in
  place (`Checker`, `Real`, `Service`); events wait in coalescing registries (`RegistrySpec`,
  `StatusRegistry`, `XEvent`, `Balancer`); prefixes count their services (`PrefixSpec`, `Prefixes`,
  `Announcer`); `History` records the order in which balancer and announcer act. Each method is proved
  against a decision function, and what these functions decide is stated apart from them: with thresholds and
  states written out, or as what must not change. `Pipeline` composes them into
  a state machine whose steps interleave freely. A real reports under its own lock, the service counts the
  event under another, and the registry stores it under a third. The announce decision that follows takes
  no lock in the code, so reading the weight, judging it, looking at the present verdict, switching it,
  reading it for the announcer and registering it are separate steps, and those of other events and of a
  reload may fall between any two of them. The updater takes statuses out, processes events and announces
  in separate steps too. Reals come, are reconfigured, go and come back; the announcer gets to know the
  service and forgets it. `Conservation`, `Agreement`, `Settling`, `Conveying`, `Announcements`, `Flapping`,
  `Skipping`, `Shortfalls`, `AnnouncedView` and `Lockstep` hold the theorems about runs. `Hysteresis` is the
  sequential core of `Flapping`: how a service follows its weight when no two decisions overlap.
- **The check-tunnel packet codec.** `Checksum`, `CheckTunV4`, `CheckTunV6`, `Strides`: building the option
  that carries an address and a method, finding it behind other options or extension headers, and cutting
  it out in place.
- **The keepalived configuration language.** `Lexer`, `ParserSpec`, `Parser`, `BlockParsing`, `Formatting`,
  `Keywords`.
- **Configuration and transport.** `CoreConfig` (announce groups), `Reconcile` (reloading running workers),
  `Weights` (gradual recalculation), `Bird` (batching).

`dafny verify dfyconfig.toml` checks everything.

## Where the code falls short

Each of these is proved. Where a promise of the code is kept only under a condition, the condition is exact,
per step and over whole runs, unless the entry says otherwise.

- Shutting down a real that should be inhibited on failure, but is neither alive nor inhibited, reports a
  disappearance the service never counted the appearance of: the totals drift by the real's weight and by
  one (`Conservation.TotalsFollowTheReals`, `Conservation.ConservedExactlyWhen`,
  `Lockstep.ShutdownOverReports`).
- A real that is inhibited when `InhibitOnFailure` is turned off stays enabled with weight zero when it is
  stopped and removed, in its service and in the load balancer (`Conservation.ShutdownDisables`,
  `Conservation.ConservedExactlyWhen`, `Agreement.RemoveAgreesExactlyWhen`). Nor does any failed check lift
  its inhibition (`Lockstep.InhibitedAsConfiguredExactlyWhen`, `Lockstep.InhibitionOutlivesItsConfiguration`).
- Events of one real that overtake each other between its lock and the registry can cancel wrongly. Only
  storing the oldest one, or one that tells nothing new, is safe (`Agreement.QueueAgreesExactlyWhen`,
  `Agreement.AgreesExactlyWhen`, `Agreement.ReorderingLosesAnEvent`). A checker keeps its lock until its
  event is handled, so this takes a real with two checkers.
- An announce decision can be overtaken by the next event: it switches to the verdict on a weight the
  service no longer has, and nothing corrects it. That happens through exactly those events and reloads
  that turn the verdict against a decision under way (`Settling.SettlesExactlyWhen`,
  `Settling.DisturbedIsUnsettledForGood`). `Shortfalls.OvertakenDecision` ends with a service that is
  announced and has no reals at all.
- A decision that reads the weight while another one is about to give the opposite verdict leaves the
  service with either of them. With fixed thresholds, only then need it not have the last verdict that a
  decision has read (`Flapping.HeadsExactlyWhen`, `Skipping.CrossedIsLost`).
- Two handlers that look at the verdict before either has switched it both count a transition. Throughout a
  run, transitions are odd exactly while the service is up if and only if that does not happen
  (`Flapping.ParityExactlyWhen`). When neither this nor the former happens, the service follows the weights
  it reads as it does when decisions never overlap, transition by transition
  (`Flapping.FollowsExactlyWhen`), and the weight has moved by the hysteresis band for every transition
  (`Flapping.FlappingIsBounded`, which goes one way). `Shortfalls.VerdictSwitchedTwice` ends up after two
  transitions, its weight having moved for one.
- The verdict of a weight is lost when an event moves the weight into the hold band before any decision has
  read it. With fixed thresholds, it is through exactly those events that a service misses the verdict of
  the last weight outside the band (`Skipping.ReadsLastExactlyWhen`, `Skipping.SkippedIsLost`).
  `Shortfalls.VerdictNeverRead` goes up to a weight with a quorum and stays down.
- A verdict that is switched while the opposite one is still about to be registered, or while a needless
  status is pending, can be cancelled on its way to the announcer; one that is switched between the
  announcer's reload and the service's can miss the group it should be registered under
  (`Conveying.ConveysExactlyWhen`, `Conveying.UnregisteredIsLostForGood`,
  `Shortfalls.OvertakenRegistration`).
- A service that is alive when it gets an announce group is never announced, although the decision after a
  reload exists for such changes: the announcer learns of it as disabled and the verdict does not change
  (`Conveying.KnownExactlyWhenDown`, `Shortfalls.GroupGivenLate`).
- A change of announce group withdraws what was not announced; the withdrawal can cancel a later
  announcement, which is then never made (`AnnouncedView.AgreesThroughoutExactlyWhen`,
  `AnnouncedView.GroupChangeLosesAnnouncement`).
- Reloading a configuration with a repeated key leaves a worker running that nothing knows of
  (`Reconcile.CleanExactlyWhenDistinct`).
- The walk over IPv6 extension headers computes lengths in one byte, so a length byte of 255 is never passed
  (`CheckTunV6.UndoneExactlyWhen`).
- It takes the eight-byte fragment header to have sixteen bytes: an inserted header right behind one is
  never found in its place (`CheckTunV6.FragmentHidesTheOption`). Among any bytes, fragment headers and
  length bytes of 255 included, the option is found in its place exactly when the walk's strides lead there
  (`Strides.FoundInPlaceExactlyWhen`).
- The walk over IPv4 options takes one-octet options to have a length. The inserted option is found in its
  place exactly when the walk steps over everything in front (`CheckTunV4.FoundInPlaceExactlyWhen`), and
  never right behind a one-octet option (`CheckTunV4.OneOctetOptionHides`).
- A special character directly behind a bare token is dropped by the lexer, so `name{` opens no block. The
  pieces of `Lexer.EveryLineIsPrinted` say so.
- Failed attempts are counted from the last time the checker came up, not from the last success:
  `Lockstep.MoveTogether` counts as the code does.

## Model

| member | source | states |
|---|---|---|
| Weights.StepIsExact | internal/types/weight/weight.go:36-53 | for weights given, one recalculation moves towards the target by exactly the least of the distance and max(1, old·coeff/100); with coefficient zero it goes all the way |
| Weights.OmittedWeights | internal/types/weight/weight.go:26-34 | a negative weight counts as omitted: the other one is the answer, or -1 when both are |
| Weights.ConvergesMonotonically | internal/types/weight/weight.go:25-53 | repeated steps never overshoot, and after as many steps as the distance the weight is the target and stays |
| Keys.OnePrefixPerAddress | internal/types/key/keys.go:28-30 | a service's prefix has all bits of its address, so two services share one exactly when they share the address |
| RegistrySpec.Stored | internal/utils/event_registry/registry.go:37-58 | storing merges into, drops or creates the event of its key and touches no other key |
| StatusRegistry.StoredStatus | internal/announcer/prefix.go:38-43 | an opposite pending status and the new one cancel out, otherwise the new one is pending |
| StatusRegistry.Registry.Store | internal/utils/event_registry/registry.go:37-58 | statuses: a newer opposite status cancels the pending one, an equal one replaces it |
| StatusRegistry.Registry.Flush | internal/utils/event_registry/registry.go:61-69 | returns all pending statuses and leaves none |
| XEvent.Event.Merge | internal/types/xevent/xevent.go:50-60 | in place, written out: the pending event keeps its start and takes the newer end, or is to be dropped when the newer end is its start |
| Real.Real.HandleEvent | internal/core/real/handler.go:13-38 | for each type of event, written out: the new state, whether the event goes on, its type and its old and new status, and which events count a transition; a real stays not both alive and inhibited |
| Real.Real.ProcessSucceed | internal/core/real/handler.go:42-76 | a passed check enables the real or changes its weight, and reports exactly then, with old and new status |
| Real.Real.ProcessFail | internal/core/real/handler.go:79-105 | a failed check or shutdown disables or inhibits the real, and reports exactly what `Report` says |
| Real.WeightIsLastOffer | internal/core/real/handler.go:109-123 | after any successful checks the weight is the configured one or, when dynamic, the last one offered, else the one before; and the last check again would report nothing |
| Real.Real.EnableReal | internal/core/real/handler.go:126-146 | enables once, clears inhibition and counts the transition |
| Real.Real.DisableReal | internal/core/real/handler.go:150-192 | all of alive/inhibited/shutdown/inhibit-on-failure: the new state and whether it is reported |
| Real.Real.UpdateWeight | internal/core/real/handler.go:196-211 | sets the weight and tells whether it changed |
| Checker.Checker.ProcessCheck | internal/core/checker/handler.go:17-33 | written out for every outcome: a failed check is reported exactly when the failures counted exceed the retries, also by a checker that is down; a passed one when the checker comes up, changes a dynamic weight or is forced; a shutdown always; state and event content |
| Checker.Checker.ProcessSucceed | internal/core/checker/handler.go:40-72 | a passed check raises an event when checker comes up, its weight changes or the outcome forces one |
| Checker.Checker.ProcessFail | internal/core/checker/handler.go:78-112 | failures raise an event only above the retries, a shutdown always |
| Checker.Checker.EnableChecker | internal/core/checker/handler.go:116-124 | failed attempts are reset only on the way up |
| Checker.Checker.DisableChecker | internal/core/checker/handler.go:132-150 | reports every failure above the retries and every shutdown; goes down on the former |
| Checker.Checker.FailedAttempt | internal/core/checker/handler.go:157-171 | counts, and compares with the retries |
| Checker.Checker.UpdateWeight | internal/core/checker/handler.go:178-188 | only a dynamic weight changes |
| Checker.Checker.Reconfigure | internal/core/checker/checker.go:192-202 | a weight given by a reload is taken and marked to be reported by force |
| Lockstep.MoveTogether | internal/core/checker/handler.go:17-188 | after every history of checks and reloads without shutdown: alive together exactly while the failures since the last enabling check stay within the retries; inhibited exactly when one above them met a configuration that asks for it; the real has the configured or checked weight, unless a reloaded one is still to be reported |
| Lockstep.InhibitedAsConfiguredExactlyWhen | internal/core/real/handler.go:150-192 | after a failure above the retries the real is down, and inhibited as its present configuration says exactly unless inhibition was turned off while it was inhibited |
| Lockstep.InhibitionOutlivesItsConfiguration | internal/core/real/handler.go:163-174 | a run in which that happens, for any number of retries |
| Lockstep.ShutdownOverReports | internal/core/real/handler.go:150-192 | after any such history, exactly when a shutdown makes the real report a disappearance its service never counted |
| Service.Service.HandleEvent | internal/core/service/handler.go:14-29 | totals moved by the event, alive by the thresholds on the new weight, both written out; the event is merged into the balancer's registry and only then a changed verdict into the announcer's |
| Service.Service.ProcessEvent | internal/core/service/handler.go:32-46 | applies the delta of an event of any type and labels it with the service |
| Service.Service.ProcessSucceed | internal/core/service/handler.go:50-63 | adds the new weight, takes the old one of a real already enabled, counts one that was not |
| Service.Service.ProcessFailure | internal/core/service/handler.go:67-74 | subtracts weight and count, whatever the event's start |
| Service.Service.ProcessAnnounce | internal/core/service/handler.go:78-88 | registers a status exactly when the verdict changed and the service has a group |
| Service.Service.UpdateAnnounce | internal/core/service/handler.go:92-116 | alive exactly at or above quorum plus hysteresis, or when it was and the weight is neither below quorum minus hysteresis nor zero; whether that changed, and the transition |
| Service.SettledByTheThresholds | internal/core/service/handler.go:166-185 | the same of settling as the machine of all interleavings uses it |
| Settling.VerdictByTheThresholds | internal/core/service/handler.go:166-185 | and of the verdict a decision reaches on a weight |
| Service.Service.EnableService | internal/core/service/handler.go:120-139 | enables once and counts the transition |
| Service.Service.DisableService | internal/core/service/handler.go:143-162 | disables once and counts the transition |
| Hysteresis.FlappingIsBounded | internal/core/service/handler.go:92-185 | decisions that never overlap, any thresholds and weights: alive by the last weight outside the hold band, transitions odd exactly when alive, movement of the weight at least the band times the transitions |
| Hysteresis.UsualBand | internal/core/service/handler.go:166-185 | the same with the band as twice the hysteresis, when that does not exceed the quorum |
| Flapping.StepParityExactlyWhen | internal/core/service/handler.go:120-162 | a step of overlapping decisions keeps transitions odd exactly while alive if and only if it does not switch to the verdict the service already has |
| Flapping.ParityExactlyWhen | internal/core/service/handler.go:120-162 | so over runs |
| Flapping.StepHeadsExactlyWhen | internal/core/service/handler.go:92-185 | a step keeps the service at the last verdict read, or about to be, exactly when it does not read a weight against a decision under way |
| Flapping.HeadsExactlyWhen | internal/core/service/handler.go:92-185 | so over runs |
| Flapping.FollowsExactlyWhen | internal/core/service/handler.go:92-185 | over runs, verdict and transitions are those of settling at the weights read one after the other exactly when no weight is read against a decision and no verdict is switched twice |
| Flapping.UndisturbedNeverCrosses | internal/core/service/handler.go:50-74 | a run whose events and reloads disturb no decision reads no weight against one |
| Flapping.ReadsOnTheWay | internal/core/service/handler.go:166-185 | in every run, the weight has moved at least through the weights that decisions read, in the order of reading |
| Flapping.LastReadHolds | internal/core/service/handler.go:92-185 | an idle service has the verdict of the last weight read outside the hold band, when no weight was read against a decision |
| Flapping.FlappingIsBounded | internal/core/service/handler.go:92-185 | when moreover no verdict was switched twice, the weight has moved at any time by at least the band times the transitions, overlapping decisions included |
| Skipping.StepReadsLastExactlyWhen | internal/core/service/handler.go:50-116 | a step keeps the last verdict read, or about to be, exactly when it does not move a weight with an unread verdict into the hold band |
| Skipping.ReadsLastExactlyWhen | internal/core/service/handler.go:50-116 | so over runs |
| Skipping.LastVerdictHolds | internal/core/service/handler.go:92-185 | without skipping and reading against a decision, an idle service has the verdict of the last weight it has gone through outside the hold band |
| Skipping.SkippedIsLost | internal/core/service/handler.go:50-116 | after a step that skips, the handlers end with the opposite verdict however they end: the condition is exact |
| Skipping.CrossedIsLost | internal/core/service/handler.go:92-162 | after a step that reads against a decision, they can end with the verdict opposite to the last one read: that condition is exact too |
| Conservation.ReportMatchesChange | internal/core/real/handler.go:24-105 | a report says exactly how the real's contribution changes, short of an over-reporting shutdown |
| Conservation.StepConserves | internal/core/service/handler.go:50-74 | no step moves totals against sums by more than its drift |
| Conservation.TotalsFollowTheReals | internal/core/service/handler.go:50-74 | every interleaving and delivery order: total weight and count plus what is in flight are the sums over the present reals plus exactly the accumulated drift |
| Conservation.ConservedExactlyWhen | internal/core/real/handler.go:150-192 | the count is right throughout a run exactly when no shutdown over-reports and no removed real is still inhibited; then the weight is right too |
| Conservation.ShutdownDisables | internal/core/real/handler.go:150-192 | exactly which stopped reals stay enabled |
| Agreement.ReportLinks | internal/core/real/handler.go:42-105 | reports start at the old status and end at the new; silence means no change the load balancer could see |
| Agreement.StepAgreesExactlyWhen | internal/balancer/balancer.go:220-267 | a step keeps registry, events in flight and load balancer linked for all reals exactly when it neither stores out of order nor leaks |
| Agreement.QueueAgreesExactlyWhen | internal/core/real/handler.go:24-37 | storing an event keeps its real linked exactly when it is the real's oldest, or tells only what the load balancer is being told |
| Agreement.LinkedStore | internal/types/xevent/xevent.go:50-60 | what storing an event out of the middle of a real's chain does to the chain, both ways |
| Agreement.AgreesExactlyWhen | internal/utils/event_registry/registry.go:37-97 | so they are linked throughout a run exactly when the run is orderly, whatever merges, and failed or successful calls happen |
| Agreement.CoalescingLosesNothing | internal/types/xevent/xevent.go:50-60 | a pending event starts at what the load balancer holds and ends at the real's status; with nothing pending the load balancer holds that status |
| Agreement.RemoveAgreesExactlyWhen | internal/core/service/service.go:104-180 | removing a stopped real keeps the agreement exactly when it does not leak |
| Agreement.ReorderingLosesAnEvent | internal/core/real/handler.go:24-37 | a run in which two events of one real overtake each other and the load balancer misses an enabled real |
| Announcements.NoAnnounceOvertakesTheBalancer | internal/balancer/balancer.go:220-267 | in every interleaving of unlocked decisions, a status is announced only after every event stored before its registration was offered to the load balancer or cancelled |
| Conveying.StepConveysExactlyWhen | internal/core/service/handler.go:78-88 | a step keeps the verdict on its way to the announcer if and only if it changes it with no opposite registration and no needless status pending, registers it under a group unless needless, and lets the announcer know a service only with a fitting status |
| Conveying.ConveysExactlyWhen | internal/announcer/announcer.go:108-116 | so over runs, however registrations and updates interleave |
| Conveying.LostForGood | internal/utils/event_registry/registry.go:37-69 | from any state in which the verdict is not on its way, registrations and updates can end with the opposite status and nothing pending |
| Conveying.UnregisteredIsLostForGood | internal/core/service/handler.go:78-88 | after any step that does not register as it should, they can end so: the condition is exact |
| Conveying.KnownExactlyWhenDown | internal/core/core.go:80-90 | a service of which nothing is under way may become known to the announcer exactly when it is down |
| Settling.StepSettlesExactlyWhen | internal/core/service/handler.go:92-162 | a step keeps the service settling exactly when it does not turn the verdict against a decision under way |
| Settling.SettlesExactlyWhen | internal/core/service/handler.go:92-162 | so over runs |
| Settling.SettledWhenIdle | internal/core/service/handler.go:166-185 | with no handler under way, settling is having the verdict on the weight |
| Settling.UnsettledForGood | internal/core/service/handler.go:92-162 | from any state that does not settle, the handlers under way can end with the wrong verdict |
| Settling.DisturbedIsUnsettledForGood | internal/core/service/handler.go:50-74 | after any step that disturbs, the handlers can end with the wrong verdict: the condition is exact |
| Shortfalls.OvertakenDecision | internal/core/service/handler.go:92-139 | a run to rest in which a service without reals is announced |
| Shortfalls.OvertakenRegistration | internal/core/service/handler.go:78-88 | a run to rest, each verdict switched before the next event is counted, in which an alive service is not announced |
| Shortfalls.VerdictSwitchedTwice | internal/core/service/handler.go:120-139 | a run to an idle service that is up after two transitions, and whose weight may have moved for less than the band times two |
| Shortfalls.VerdictNeverRead | internal/core/service/handler.go:166-185 | a run to an idle service that is down although the last weight outside the hold band had a quorum |
| Shortfalls.GroupGivenLate | internal/core/service/service.go:172-179 | a run to rest in which a service that got its group while alive is not announced |
| Announcements.ServedIsTotal | internal/core/real/real.go:80-91 | what the load balancer holds adds up to the reals' weights and number |
| Announcements.AtRestAllAgree | internal/core/service/handler.go:166-185 | end to end, under these conditions: at rest, totals are what the load balancer serves; with that weight at the upper threshold the service is up, below the lower one or at zero it is down; and it is announced exactly when known and up |
| Balancer.EventRegistry.Store | internal/utils/event_registry/registry.go:37-58 | the same for events held by pointer and merged in place |
| Balancer.EventRegistry.Process | internal/utils/event_registry/registry.go:84-97 | every pending event is offered to the load balancer exactly once, by the call its new status asks for; what stays pending is exactly what was refused, the rest has taken effect; the count of calls that succeeded |
| Balancer.Balancer.HandleEvent | internal/balancer/balancer.go:101-104 | stores the event under service and real |
| Balancer.Balancer.UpdateBalancer | internal/balancer/balancer.go:220-267 | in this order: the pending statuses are taken out, every pending event is offered exactly once, and every status taken is announced exactly once; the resulting pending events, load balancer, prefixes and prefix events |
| Balancer.Balancer.TakeStatusesAndProcess | internal/balancer/balancer.go:221-254 | statuses are taken out before events are processed |
| Balancer.Balancer.Announce | internal/balancer/balancer.go:255-266 | each taken status is announced exactly once; readiness changes are stored one by one, in some order |
| PrefixSpec.CountingDecides | internal/announcer/prefix.go:328-335 | comparing the two counters decides readiness: at least one service, and all enabled |
| PrefixSpec.EnabledCount | internal/announcer/prefix.go:272-296 | how one status changes the number of enabled services |
| PrefixSpec.ReloadKeepsStatuses | internal/announcer/prefix.go:87-153 | after a reload exactly the configured services are there, in their groups, and enabled are exactly those that were enabled for their prefix before |
| PrefixSpec.ReloadAgain | internal/announcer/prefix.go:87-153 | reloading the services and groups in force changes nothing and stores nothing |
| Prefixes.PrefixState.constructor | internal/announcer/prefix.go:223-236 | a new prefix has its services, all disabled |
| Prefixes.PrefixState.ApplyServices | internal/announcer/prefix.go:240-268 | known services keep their status, new ones start disabled, others are gone; counters refine the set |
| Prefixes.PrefixState.UpdateService | internal/announcer/prefix.go:272-296 | sets a known service's status; counters refine the set; returns readiness |
| Prefixes.PrefixState.Status | internal/announcer/prefix.go:299-335 | the counters' answer is readiness of the set |
| Prefixes.Prefixes.ReloadServices | internal/announcer/prefix.go:87-153 | services that stay configured keep their status and others start disabled, each in its configured group; a configuration already in force changes and stores nothing; exactly the resulting statuses are stored |
| Prefixes.Prefixes.ReloadPrefix | internal/announcer/prefix.go:107-136 | a prefix in use: withdrawal under an old group, new status under the new one |
| Prefixes.Prefixes.RemovePrefix | internal/announcer/prefix.go:137-146 | a prefix no longer used is withdrawn if it was ready |
| Prefixes.Prefixes.AddPrefix | internal/announcer/prefix.go:147-152 | a new prefix stores nothing |
| Prefixes.Prefixes.UpdateService | internal/announcer/prefix.go:157-181 | an unknown prefix is an error; one status is set and nothing else; a change of readiness, and only that, is stored |
| AnnouncedView.StoresWhatChanges | internal/announcer/prefix.go:87-181 | what a step stores is the new status; readiness is stored only when it is new; with fixed groups exactly the changes |
| AnnouncedView.SoundInEveryRun | internal/announcer/prefix.go:38-43 | a pending prefix event always tells the current status, and nothing flushed as ready is outdated unless a withdrawal is pending |
| AnnouncedView.MovingIsReloading | internal/announcer/prefix.go:107-136 | the two stores of a prefix that changes its group, with nothing in between, are its reload |
| AnnouncedView.NeverOverAnnounced | internal/announcer/prefix.go:87-181 | every run with flushes between any two stores of a reload, group changes and updates: nothing announced that is not in the group and ready |
| AnnouncedView.ExactWithFixedGroups | internal/announcer/prefix.go:87-181 | without group changes the announced view is the current one |
| AnnouncedView.AgreementLostExactlyWhen | internal/announcer/prefix.go:113-132 | exactly which step loses an announcement when groups change |
| AnnouncedView.AgreesThroughoutExactlyWhen | internal/announcer/prefix.go:113-132 | over runs, the view agrees throughout exactly when no step loses an announcement |
| AnnouncedView.GroupChangeLosesAnnouncement | internal/announcer/prefix.go:113-132 | a run of three steps in which that happens |
| Announcer.AnnounceGroupRegistry.Update | internal/announcer/announcer.go:341-352 | the groups' lists partition the prefixes, each listed once |
| Announcer.Announcer.RegisterServiceEvent | internal/announcer/announcer.go:108-110 | opposite pending statuses cancel |
| Announcer.Announcer.FlushServiceEvents | internal/announcer/announcer.go:114-116 | takes all pending statuses out |
| Announcer.Announcer.UpdateService | internal/announcer/announcer.go:122-129 | fails exactly on an unknown prefix, because groups and prefixes agree |
| Announcer.Announcer.GroupPrefixes | internal/announcer/announcer.go:134-151 | succeeds exactly when every group is known and no prefix has two |
| Announcer.Announcer.ReloadServices | internal/announcer/announcer.go:133-156 | nothing changes on failure; on success each prefix is in its group, known services keep their status, and a configuration already in force changes and stores nothing |
| Announcer.Announcer.Publish | internal/announcer/announcer.go:172-212 | all pending prefix events leave, each in the batch of its group |
| Announcer.FullReload | internal/announcer/prefix.go:87-153 | a complete reload leaves exactly the planned prefixes |
| CoreConfig.ValidateAnnounceGroups | internal/core/config.go:102-115 | every announced service is overwritten, in place, with the group of the first announced one of its prefix; the others stay unannounced |
| CoreConfig.ServicesForAnnouncer | internal/core/core.go:80-85 | the announced services, each with the group of its last announced entry |
| CoreConfig.NormalizedIsConsistent | internal/core/config.go:102-115 | afterwards each prefix has one group, its first configured one, so a reload can only fail on an unknown group; same services announced; normalizing again changes nothing |
| Reconcile.Manager.Reload | internal/core/service/service.go:104-180 | workers of configured keys taken over unless forced, others started, the rest stopped |
| Reconcile.Manager.StopAll | internal/core/core.go:92-149 | each worker left over is stopped once |
| Reconcile.ReloadCounts | internal/core/real/real.go:217-312 | one worker per key, none stopped twice, and one more running for each repeated key |
| Reconcile.CleanExactlyWhenDistinct | internal/core/core.go:92-149 | a reload leaks no worker exactly when no key is configured twice |
| Reconcile.WhoSurvives | internal/core/real/real.go:226-311 | a worker survives exactly when its key stays, is given once, and the rebuild is not forced; each has the configuration last given for its key |
| Reconcile.NothingLeaks | internal/core/core.go:92-149 | any sequence of reloads with distinct keys: the running workers are the current ones |
| Checksum.CalculateIpv4Checksum | pkg/checktun/check_tun.go:483-497 | the two loops compute the complement of the folded word sum |
| Checksum.Fold | pkg/checktun/check_tun.go:491-493 | folding ends, fits sixteen bits and keeps the sum modulo 65535; zero only from zero |
| Checksum.PutAdds | pkg/checktun/check_tun.go:408-411 | storing into the zeroed field adds the value to the word sum |
| Checksum.ChecksumVerifies | pkg/checktun/check_tun.go:408-411 | exactly which values in the field make the header verify; the computed one does |
| Checksum.ChecksumIsLeast | pkg/checktun/check_tun.go:483-497 | the computed checksum completes the word sum to a multiple of 65535, and is the least value to do so unless all words are zero |
| Checksum.OddByteIsIgnored | pkg/checktun/check_tun.go:486-486 | a last byte without a partner does not count |
| Checksum.NetworkByteOrder | pkg/checktun/check_tun.go:407-411 | 16-bit fields are stored and read most significant byte first |
| CheckTunV4.ConstructExperimentalHeaderWithIP | pkg/checktun/exp_header.go:9-17 | type, length in one byte, address, method |
| CheckTunV4.ConstructedIs | pkg/checktun/exp_header.go:9-17 | the bytes of the option for an IPv4 and an IPv6 address |
| CheckTunV4.Ipv4Handler | pkg/checktun/check_tun.go:349-392 | message or nothing, exactly as the option walk finds it; untouched when nothing is found |
| CheckTunV4.RemoveIpv4Options | pkg/checktun/check_tun.go:394-412 | overlapping copy and header writes give the packet without its options |
| CheckTunV4.StrippedIsPlain | pkg/checktun/check_tun.go:394-412 | a 20-byte header that verifies, total length right, other fields and data unchanged |
| CheckTunV4.FindSkips | pkg/checktun/check_tun.go:357-372 | the walk passes any type-length-value options of other types, and one-octet options in front of an octet one |
| CheckTunV4.FoundInPlaceExactlyWhen | pkg/checktun/check_tun.go:357-372 | the constructed option is found in its place exactly when the octets in front are such options |
| CheckTunV4.StripUndoesInsert | pkg/checktun/check_tun.go:349-412 | behind any such options and in front of any padding, address, method and the original packet come back |
| CheckTunV4.OneOctetOptionHides | pkg/checktun/check_tun.go:357-361 | behind a one-octet option nothing is found within the next thirty octets, whatever follows |
| CheckTunV4.OneOctetOptionLosesTheMessage | pkg/checktun/check_tun.go:357-361 | with no more left than that, there is no message |
| CheckTunV6.ConstructDstHeaderWithIP | pkg/checktun/exp_header.go:20-46 | header, option and padding, lengths in byte arithmetic, a multiple of eight bytes for every address length |
| CheckTunV6.ConstructedIs | pkg/checktun/exp_header.go:20-46 | the bytes of the header for an IPv4 and an IPv6 address, padding included |
| CheckTunV6.ConstructedFields | pkg/checktun/exp_header.go:20-34 | which byte is what for an address of any length, with the length bytes cut to a byte |
| CheckTunV6.Ipv6Handler | pkg/checktun/check_tun.go:414-481 | the outcome for every packet, including out-of-range indexing and the endless loop |
| CheckTunV6.OutOfRangeExactlyWhen | pkg/checktun/check_tun.go:419-448 | indexing runs out of range exactly when the length field, the option found or its header says more than there is |
| CheckTunV6.Extract | pkg/checktun/check_tun.go:436-468 | address, method and packet, or out of range |
| CheckTunV6.Cut | pkg/checktun/check_tun.go:448-457 | next header, payload length and move leave the packet without the extension header |
| CheckTunV6.WalkSkips | pkg/checktun/check_tun.go:423-478 | the walk passes any chain of hop-by-hop, routing and other destination headers without length byte 255 |
| CheckTunV6.StripUndoesInsert | pkg/checktun/check_tun.go:414-481 | behind any such chain, address, method and every byte of the original packet come back |
| CheckTunV6.StuckAt255 | pkg/checktun/check_tun.go:425-425 | with a length byte of 255 in the chain: the code spins, fails or cuts nothing |
| CheckTunV6.UndoneExactlyWhen | pkg/checktun/check_tun.go:414-481 | so inserting is undone exactly when no length byte in the chain is 255 |
| CheckTunV6.FragmentHidesTheOption | pkg/checktun/check_tun.go:469-470 | behind any chain and a fragment header nothing is found within sixteen bytes of the latter, so no header in its place |
| CheckTunV6.FragmentLosesTheMessage | pkg/checktun/check_tun.go:469-470 | with only the header that carries an IPv4 address behind it, there is no message |
| Strides.SteppedOver | pkg/checktun/check_tun.go:423-478 | whatever the bytes, when an option is found, those in front of it are strides of the walk |
| Strides.StepsFind | pkg/checktun/check_tun.go:423-478 | and over any such strides the walk goes to the option behind them |
| Strides.FoundInPlaceExactlyWhen | pkg/checktun/check_tun.go:423-478 | an option at any place in any packet is found there exactly when such strides lead to it, fragment headers and length bytes of 255 included |
| Lexer.SplitLine | pkg/keepalived/parser.go:29-96 | the nested loops return the tokens, or an error when a quote stays open |
| Lexer.LexingUndoesPrinting | pkg/keepalived/parser.go:29-96 | any line made of gaps, special characters, quoted and bare tokens gives these tokens; an open quote always fails |
| Lexer.EveryLineIsPrinted | pkg/keepalived/parser.go:29-96 | every line is such a line, so exactly the ones ending in an open quote fail |
| Lexer.JoinedTokensComeBack | pkg/keepalived/parser.go:29-96 | tokens written with spaces in between are read back unchanged |
| Keywords.WordsAreSplit | pkg/keepalived/parser.go:21-27 | blanks, tabs, hash signs and braces end a word, and are dropped there |
| Keywords.SpecialsStandAlone | pkg/keepalived/parser.go:46-47 | at the beginning of a token, hash signs and braces are tokens of their own |
| Keywords.QuotesKeepEverything | pkg/keepalived/parser.go:48-74 | between quotes everything but quotes and backslashes stands for itself |
| Keywords.QuoteClosesAt | pkg/keepalived/parser.go:55-68 | a quoted token ends at the first quote behind an even number of backslashes |
| Keywords.LeadingSpaceIsSkipped | pkg/keepalived/parser.go:38-40 | white space in front of a line does not count, tabs, line ends and no-break spaces included |
| Keywords.CommentsAddNothing | pkg/keepalived/parser.go:117-119 | a line whose first token starts with a hash sign or an exclamation mark adds nothing |
| Keywords.IncludesAreRead | pkg/keepalived/parser.go:127-144 | an include of one pattern stands for the items of its files |
| Keywords.IncludeTakesOne | pkg/keepalived/parser.go:128-130 | an include of none or two patterns is an error |
| Keywords.NamesAreItems | pkg/keepalived/parser.go:150-170 | a name of letters, digits, underscores and hyphens is a parameter, and opens a block in front of a brace |
| Keywords.OtherNamesAreMalformed | pkg/keepalived/parser.go:146-152 | a word with any other character is an error |
| Keywords.KindByTheTokens | pkg/keepalived/parser.go:108-168 | what any line means, told from its first and last token and their number |
| Keywords.ClosingBraceCloses | pkg/keepalived/parser.go:109-125 | a closing brace ends a block, and an empty line adds nothing |
| Parser.ParseConfig | pkg/keepalived/parser.go:98-174 | the recursive loop over shared scanner and counter leaves items, position and brace count as specified |
| Parser.ParseFile | pkg/keepalived/parser.go:176-199 | the tree, or an error when a line is bad or the braces are not balanced |
| BlockParsing.ParseExplains | pkg/keepalived/parser.go:98-174 | a failure means a malformed line; otherwise the lines read are well formed, and flattened items are these lines |
| BlockParsing.BracesBalance | pkg/keepalived/parser.go:189-196 | the counter decides whether opening and closing lines balance |
| BlockParsing.ParsingIsExact | pkg/keepalived/parser.go:98-196 | a file parses exactly when its lines are well formed and balance, and the tree is its significant lines in order |
| Formatting.ParseWritten | pkg/keepalived/parser.go:98-174 | written items in front of any lines are parsed as these items |
| Formatting.ParsingUndoesWriting | pkg/keepalived/parser.go:98-196 | every writable tree is parsed back |
| Formatting.ParsedIsWritable | pkg/keepalived/parser.go:98-174 | every parsed tree is writable |
| Formatting.ReformattingIsStable | pkg/keepalived/parser.go:98-196 | writing a parsed file and parsing it again gives the same tree |
| Bird.Client.SendBatch | pkg/bird/client.go:130-149 | datagrams of the configured number of messages, at most all and at least one, are sent in order: all of them, or up to the first refused one, which is the last one tried |
| Bird.BytesOf | pkg/bird/message.go:26-31 | which byte of a message is version, address, prefix length and state |
| Bird.Client.Send | pkg/bird/client.go:153-167 | nothing is sent for an empty buffer |
| Bird.DatagramsConserve | pkg/bird/client.go:130-149 | the first datagrams are the first messages in order, whole; all datagrams are all messages |
| Bird.DatagramSizes | pkg/bird/client.go:130-149 | every datagram but the last is full, none is empty or too large |
| Bird.MessageAt | pkg/bird/client.go:130-149 | each message can be taken out at its place |

## Left out

- Weights and counters are unbounded integers: the 64-bit overflow of the originals is not modelled.
- Locks and goroutines appear as the steps of `Pipeline`, one for each section under a lock and for each
  unlocked access in an announce decision. What one unlocked expression reads is one step: the two
  thresholds together, and an announce group with the verdict to register. Switching a verdict and counting
  the transition is one step as well. Memory is taken to be sequentially consistent. A real's configuration
  does not change while it handles an event. Worker pools, tickers and delays do not appear.
- A service's initial reload is its first decision in `Pipeline.Start`; it does not race a later reload.
- One service with its own registry entries is followed by `Pipeline`; other services share the registry
  under other keys and do not touch them.
- Timestamps, metrics, logging and request ids: nothing depends on them.
- The checks themselves (HTTP, gRPC, TCP, TLS) are arbitrary outcomes; sockets, the netfilter queue, GRE and
  the remote procedure calls of the load balancer are a map with calls that may fail.
- Flushing the load balancer's client after processing: its outcome is only logged.
- Filling a BIRD message from a prefix: messages are given as version, address, length and state.
- `History` is not part of the code; the balancer, its registry and the announcer share one for the contracts.
- State requests are answered past the registry (internal/announcer/announcer.go:216-263); neither they nor
  the removal of all announces at a stop take part in the announced view.
- Reloads aborted half-way by an invalid real or checker configuration are not modelled.
- Reconcile.Manager.Reload: models the maps and who is started and stopped, not what a worker does.
- CheckTunV6.Ipv6Handler: the capacity of the packet's slice is taken to be its length, and loops without end
  are reported as an outcome.
- CheckTunV6.StripUndoesInsert: chains with a fragment header are not covered, since these are stepped over
  with a wrong length; `Strides` says what is found behind one.
- Parser.ParseConfig: includes are a function from patterns to items; file names in items are not kept.
- Lines longer than the scanner's buffer, which end the input silently, and the decoding of UTF-8.
- The reflective decoding of trees into configurations, value inheritance and quorum scripts.
