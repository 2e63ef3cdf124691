# Verified models of the Wohl engines

Wohl is a home-supervision system: sensor nodes send small packets to a hub, monitors turn readings into alerts, a
dispatcher decides which alerts go out, and nodes update their firmware over the air. This project models four of its
state machines in Dafny and proves what they promise over whole runs.

| files | what they model |
|---|---|
| `AlertModel`, `AlertDispatcher`, `AlertRuns`, `AlertRefinement`, `AlertClears`, `AlertWitnesses` | the alert dispatcher: dedup buffer, minute window, in-place clearing |
| `OtaModel`, `OtaEngine`, `OtaRuns`, `OtaHistory`, `OtaProvenance`, `OtaRestore` | the dual-bank update core: download, verify, swap, confirm, rollback, abort |
| `WatchpointModel`, `WatchpointEngine`, `WatchpointRuns`, `TempModel`, `TempMonitors`, `TempRuns`, `TempKeys`, `TempHistory` | the watchpoint table and the two architectures of the temperature monitor |
| `Debounce`, `Ccsds`, `DoorNode`, `DoorWatchModel`, `DoorWatchEngine`, `DoorWatchRuns`, `DoorPipeline` | the door node, its packets, and the hub's door watch |
| `MachineInts`, `Options` | fixed-width integers; an option type |

Every engine that updates fields, buffers or tables in place is a class whose methods are proved against a transition
function on values; the theorems about runs are lemmas about those functions. A run is a sequence of calls from a
freshly constructed engine, folded from the front.

## Main results

- **Dispatcher.** In any run whose times do not go back, any closed span of `L` seconds sees at most
  `10 * ((L + 59) / 60 + 1)` sends (`SpanBound`): 20 in 60 s, 60 in 300 s, and some run attains the bound for every `L`
  (`SpanBoundIsAttained`). Since 60 < 64, clearing before each alert makes the bounded buffer indistinguishable from a
  memory of every send (`EagerRefinesUnbounded`), so no key is sent twice within 300 s. With clears anywhere in time
  order the same holds as long as no send finds the buffer full (`LosslessRunsAgree`), and a send that does is exactly
  one whose repeat is answered wrongly (`RepeatAgreesIff`). A run without a single clear reaches that
  (`UnclearedRunCanDuplicate`), and from then on never deduplicates a key the buffer missed
  (`MissedKeyIsNeverDeduplicated`). A clear at any time before alerts at any times is unobservable if and only if what
  it dropped early has a replacement for each alert that it would have deduplicated (`ClearIsUnobservableIff`); one that
  runs ahead of the alerts after it can break the promise (`ClearAheadCanDuplicate`).
- **Update core.** Every answer of every call sequence, and the active bank, follow from the earlier calls and their
  answers alone (`AnswersFollowHistory`): so a failed call changes nothing but for a rejection by `verify`, which ends the
  update (`FailuresAreContained`), and a rollback succeeds exactly when idle after a swap not yet confirmed or undone
  (`RollbackSucceedsIff`). Every successful swap has its provenance, with one `verify` decided since its download began
  (`SwapProvenance`). Two promises of `rollback` hold under an exact condition. It restores what the swap left if and only if no non-empty chunk was
  accepted since that swap (`RollbackRestoresIff`). The active bank can always be booted if and only if no rollback
  succeeds after a chunk was accepted in the open rollback window and not verified since (`BootSafetyIff`). Confirming
  before the next download is enough for the second. Without it a rollback can boot an image that no swap ever activated
  (`RollbackCanBootForeignImage`) or a half-written bank (`RollbackCanBootDirtyBank`).
- **Temperature.** For any zones, ids and run, the watchpoint-table monitor and the single scan give the same answers if
  and only if the keys of every reading answer for its zone (`IndexedEqualsDirectIff`), which distinct ids below 2^31
  guarantee (`IndexedEqualsDirect`). The condition is spelled out for shared ids (`SharedIdAnswersIff`,
  `TwoZonesAgreeIff`) and for one zone of any id (`LoneZoneAgreesIff`). The deployed saturating copy is exact if and only
  if, besides, no difference of readings passes a threshold of `i32::MAX` (`DeployedMonitorIsExactIff`). All answers of
  the scan are told by the registrations and readings themselves (`DirectRunIsTold`), and those of the deployed copy under
  that condition and no other (`DeployedRunIsToldIff`). Watchpoint persistence is
  characterised over whole streams (`ReportedIffPersistent`), and so is when the table's early break shows
  (`BreakNeverShowsIff`).
- **Door.** The debounced level is the most recent block of `n` alike samples (`CommittedIsMostRecentBlock`). With any
  nodes in any interleaving, decoding, mapping and processing every packet makes each contact show the level of the node
  that spoke last under its 11-bit id (`HubFollowsNodes`), which under distinct ids is its own (`HubFollowsNode`); the
  timeout scan follows the registrations and events of every run (`TimeoutScanFollowsHistory`) and the doors of the whole
  house (`TimeoutScanFollowsDoors`), and night alerts follow the clock (`NightAlertsFollowHistory`).

## Where code and documentation disagree

The model follows the code.

- `artifacts/swreq/SWREQ-ALERT-001.yaml` asks for a 60-second window; the code uses 300 seconds.
- `artifacts/swreq/SWREQ-ALERT-002.yaml` asks that critical alerts are never suppressed; the code has no severity.
- `proofs/verus/alert_dedup.rs:22-26` assumes times below `u64::MAX - 300`; agreement holds below `u64::MAX`
  (`EngineMatchesGhostIff`). Lines 39-43 speak of the most recent 64 keys; the code keeps the first 64 and drops the
  newest.
- `crates/wohl-ota/plain/src/engine.rs:343-345` and `372-374` say that the bank left by a swap still holds the prior
  image and that a rollback cannot revert to an overwritten one. `start_download` does not look at `last_swap`, so both
  can fail: `RollbackRestoresIff` says when, and `RollbackCanBootForeignImage` gives the calls.
- `crates/wohl-temp/plain/src/engine.rs:105-107` says saturated ids never collide in practice, but the hub takes any
  `u32` from its configuration (`crates/wohl-hub/src/main.rs:264`). From 2^31 on a zone shares one key between its own
  two limits, and even alone reports a hot room as freezing (`LargeZoneRaisesFalseFreeze`, `LoneZoneAgreesIff`).
- `crates/wohl-hub/src/main.rs:658-659` clears with the time of a tick, which may be ahead of later alerts
  (`ClearIsUnobservableIff`). The mode that reads packets (`crates/wohl-hub/src/main.rs:857`) has no ticks, so it never
  clears and is subject to `MissedKeyIsNeverDeduplicated`.

## Model

| member | source | states |
|---|---|---|
| `AlertModel.MsgIdsAliasIff` | crates/wohl-alert/plain/src/engine.rs:49-53 | the type is the upper 8 bits of a message id and the zone its lower 24, so two alerts share a subscription exactly when their types and the low 24 bits of their zones agree |
| `AlertModel.LiveOnlyIsStable` | crates/wohl-alert/plain/src/engine.rs:181-198 | clearing keeps the entries with `time + 300 >= c`, all of them, in their order |
| `AlertModel.ClearedEntriesShadowNothing` | crates/wohl-alert/plain/src/engine.rs:136-151 | what `clear_expired(c)` drops can deduplicate no alert at or after `c`, saturated sums included |
| `AlertModel.EngineMatchesGhostIff` | proofs/verus/alert_dedup.rs:145-219 | for a subscribed key the 64-bit engine steps as the unbounded model, full buffer or not, exactly below `u64::MAX` or where no saturated sum shows |
| `AlertModel.DedupAfterSendIff` | proofs/verus/alert_dedup.rs:257-294 | after a Send, a repeat inside the cooldown is deduplicated if and only if the buffer had a free slot |
| `AlertDispatcher.Dispatcher.constructor` | crates/wohl-alert/plain/src/engine.rs:81-89 | an empty buffer, a zero window, no subscriptions |
| `AlertDispatcher.Dispatcher.Subscribe` | crates/wohl-alert/plain/src/engine.rs:94-97 | the message id becomes subscribed |
| `AlertDispatcher.Dispatcher.Unsubscribe` | crates/wohl-alert/plain/src/engine.rs:100-103 | the message id is no longer subscribed |
| `AlertDispatcher.Dispatcher.ProcessAlert` | crates/wohl-alert/plain/src/engine.rs:117-179 | the array engine takes the transition of the value model and reports the buffer depth |
| `AlertDispatcher.Dispatcher.ClearExpired` | crates/wohl-alert/plain/src/engine.rs:181-198 | the two-pointer compaction in place yields the filtered buffer |
| `AlertRuns.SendBudget` | crates/wohl-alert/plain/src/engine.rs:131-173 | in any time order at most ten sends per minute the window has moved, and the window never moves back |
| `AlertRuns.BufferStaysSpaced` | crates/wohl-alert/plain/src/engine.rs:136-198 | in any time order two buffered entries of one key are at least 300 s apart, and there are at most 64 entries |
| `AlertRuns.RunWindows` | crates/wohl-alert/plain/src/engine.rs:130-134 | every send lies in a 60 s window and every eleventh in a later one |
| `AlertRuns.SpanBound` | crates/wohl-alert/plain/src/engine.rs:131-173 | the bound on sends in any closed span, for every run with times that do not go back |
| `AlertRuns.ClearIsUnobservable` | crates/wohl-alert/plain/src/engine.rs:181-198 | a clear put anywhere before alerts no earlier than it changes no action and no send, unless the uncleared run fills its buffer |
| `AlertRefinement.LosslessRunsAgree` | crates/wohl-alert/plain/src/engine.rs:117-198 | with clears anywhere in time order, the engine acts as one that remembers every send, as long as no send finds the buffer full |
| `AlertRefinement.RepeatAgreesIff` | crates/wohl-alert/plain/src/engine.rs:162-171 | a send keeps that agreement for its own repeat exactly when the buffer had room |
| `AlertRefinement.EagerIsLossless` | crates/wohl-alert/plain/src/engine.rs:162-198 | cleared before each alert, the buffer never exceeds 60 entries and never loses one |
| `AlertRefinement.EagerRefinesUnbounded` | crates/wohl-alert/plain/src/engine.rs:117-198 | then all actions and sends equal those of the dispatcher with an unbounded history |
| `AlertRefinement.EagerRunsNeverDuplicate` | crates/wohl-alert/plain/src/engine.rs:136-198 | then no key is sent twice within 300 s |
| `AlertWitnesses.UnclearedRunCanDuplicate` | crates/wohl-alert/plain/src/engine.rs:502-538 | some run in order, without a single clear, sends one key twice within the cooldown |
| `AlertWitnesses.FullBufferFreezes` | crates/wohl-alert/plain/src/engine.rs:162-171 | without a clear a full buffer never changes again |
| `AlertWitnesses.FrozenDedupIff` | crates/wohl-alert/plain/src/engine.rs:136-151 | from then on an alert is deduplicated if and only if it is subscribed and the buffer, as it was when it filled, says so |
| `AlertWitnesses.MissedKeyIsNeverDeduplicated` | crates/wohl-hub/src/main.rs:857-900 | and a key that the full buffer does not hold is never deduplicated again |
| `AlertWitnesses.SpanBoundIsAttained` | crates/wohl-alert/plain/src/engine.rs:131-173 | for every span length some run has exactly as many sends in the span as the bound allows |
| `AlertWitnesses.ClearAheadCanDuplicate` | crates/wohl-hub/src/main.rs:658-659 | a clear whose time runs ahead of later alerts lets a run of two sends in all send one key twice within the cooldown |
| `AlertClears.ClearIsHarmlessIff` | crates/wohl-alert/plain/src/engine.rs:136-198 | a clear at `c` leaves the dedup answers at `t` of all keys alone if and only if every entry it drops that still holds at `t` has one of its key that survives and holds at `t` |
| `AlertClears.ClearIsUnobservableIff` | crates/wohl-alert/plain/src/engine.rs:117-198 | a clear at any time put anywhere into a run that does not fill its buffer from there on changes no action if and only if every later alert has its replacement, times in any order |
| `OtaEngine.OtaCore.constructor` | crates/wohl-ota/plain/src/engine.rs:188-195 | idle, nothing pending, no rollback open |
| `OtaEngine.OtaCore.StartDownload` | crates/wohl-ota/plain/src/engine.rs:226-240 | the transition with its error cases; the target is the other bank |
| `OtaEngine.OtaCore.WriteChunk` | crates/wohl-ota/plain/src/engine.rs:245-270 | the byte count grows by an accepted chunk; the three rejections in their order |
| `OtaEngine.OtaCore.FinishDownload` | crates/wohl-ota/plain/src/engine.rs:274-289 | verification starts only from a complete download |
| `OtaEngine.OtaCore.Verify` | crates/wohl-ota/plain/src/engine.rs:305-341 | ready only with signature and digest; either failure aborts |
| `OtaEngine.OtaCore.Swap` | crates/wohl-ota/plain/src/engine.rs:350-370 | only from ready; the left bank is recorded for rollback |
| `OtaEngine.OtaCore.ConfirmSwap` | crates/wohl-ota/plain/src/engine.rs:379-387 | only from idle; closes the rollback |
| `OtaEngine.OtaCore.Rollback` | crates/wohl-ota/plain/src/engine.rs:401-413 | only from idle with a recorded swap |
| `OtaEngine.OtaCore.Abort` | crates/wohl-ota/plain/src/engine.rs:416-419 | back to idle from anywhere, rollback untouched |
| `OtaEngine.OtaCore.Update` | crates/wohl-ota/plain/src/engine.rs:724-738 | the download loop never fails, takes `ceil(size / 1024)` writes, and ends with the banks swapped |
| `OtaRuns.AlwaysConsistent` | crates/wohl-ota/plain/src/engine.rs:124-148 | every call sequence keeps: never swapping at rest, a manifest exactly when not idle, targets and rollback in the other bank, bytes within the manifest; the missing-manifest branch of verify is unreachable |
| `OtaHistory.AnswersFollowHistory` | crates/wohl-ota/plain/src/engine.rs:226-419 | after any calls the next is answered, success or error in its order of precedence, as a log of calls and answers demands; the active bank is the one the log names |
| `OtaHistory.FailuresAreContained` | crates/wohl-ota/plain/src/engine.rs:226-419 | a failed call leaves the core as it was, except that a rejected verify leaves it idle with no manifest, active bank and rollback untouched |
| `OtaHistory.VerifyDecides` | crates/wohl-ota/plain/src/engine.rs:305-341 | in every reachable verifying state: a bad signature, else a bad digest, else ready; a rejection ends the update |
| `OtaHistory.RollbackSucceedsIff` | crates/wohl-ota/plain/src/engine.rs:372-413 | a rollback succeeds if and only if the core is idle and the latest swap, confirmation or rollback done is a swap, and then restores the bank active before that swap |
| `OtaRuns.ActiveCountsFlips` | crates/wohl-ota/plain/src/engine.rs:350-413 | the active bank is the first one flipped once per successful swap and rollback, and rollbacks never outnumber swaps |
| `OtaRuns.BootSafetyIff` | crates/wohl-ota/plain/src/engine.rs:372-413 | the active bank is bootable at every call boundary if and only if no rollback succeeds while the window is tainted |
| `OtaRuns.ConfirmFirstIsBootSafe` | crates/wohl-ota/plain/src/engine.rs:372-387 | starting downloads only with no rollback open keeps the active bank bootable |
| `OtaRuns.RollbackCanBootDirtyBank` | crates/wohl-ota/plain/src/engine.rs:226-240 | one full update, then start, one chunk, abort, rollback: the calls listed succeed in booting a half-written bank |
| `OtaRestore.RollbackRestoresIff` | crates/wohl-ota/plain/src/engine.rs:343-413 | a successful rollback finds the bank as its swap left it, with no write since, if and only if no non-empty chunk was accepted since that swap; then the bank's contents are the same |
| `OtaRestore.RollbackCanBootForeignImage` | crates/wohl-ota/plain/src/engine.rs:394-413 | an update verified and then aborted: the rollback after it boots an image that no swap activated, in a run that is bootable throughout |
| `OtaProvenance.EveryStateIsExec` | crates/wohl-ota/plain/src/engine.rs:226-419 | the listed states of a run are the states the calls lead to |
| `OtaProvenance.EveryStateHasItsStory` | crates/wohl-ota/plain/src/engine.rs:226-341 | what each state in flight says of all calls since its own start |
| `OtaProvenance.SwapProvenance` | crates/wohl-ota/plain/src/engine.rs:350-370 | before a successful swap: its start, chunks of exactly `size_bytes`, one finish, one accepting verify with equal digest, the only one decided since that start, and nothing else with an effect |
| `WatchpointEngine.WatchpointTable.AddWatchpoint` | crates/wohl-temp/src/wasm_component.rs:54-59 | appended unless 128 are present |
| `WatchpointRuns.TableIsFirstAdded` | crates/wohl-temp/src/wasm_component.rs:54-59 | the table is the first 128 watchpoints added, in order |
| `WatchpointEngine.WatchpointTable.Visit` | crates/wohl-temp/src/wasm_component.rs:69-86 | one turn of the loop counts or resets its entry, reports it if it has persisted, and touches no other |
| `WatchpointEngine.WatchpointTable.Evaluate` | crates/wohl-temp/src/wasm_component.rs:61-89 | the loop with its break yields the counted entries and the report of the scanned prefix |
| `WatchpointModel.ReportedMembers` | crates/wohl-temp/src/wasm_component.rs:73-81 | a violation is reported exactly for an entry that is hit, violated and persistent enough, with its own index, limit and operator |
| `WatchpointModel.FullScan` | crates/wohl-temp/src/wasm_component.rs:66-66 | with at most 32 enabled watchpoints on the sensor the break skips no entry the reading concerns |
| `WatchpointModel.FullScanIff` | crates/wohl-temp/src/wasm_component.rs:66-66 | the break loses nothing if and only if every hit entry it leaves out is neither violated nor counted |
| `WatchpointModel.ThirtyThirdIsSkipped` | crates/wohl-temp/src/wasm_component.rs:66-66 | with 33 alike the last is violated, yet its count stands and its index is not among the 32 reported |
| `WatchpointRuns.CountsAreTrailing` | crates/wohl-temp/src/wasm_component.rs:75-84 | each enabled entry's count is its trailing run of violations, capped at `u32::MAX`; disabled entries never move |
| `WatchpointRuns.ReportedIffPersistent` | crates/wohl-temp/src/wasm_component.rs:73-85 | reported if and only if enabled, on its sensor, and the last `max(1, persistence)` readings of it are all beyond its limit, for each of the six operators |
| `WatchpointRuns.BreakNeverShowsIff` | crates/wohl-temp/src/wasm_component.rs:61-89 | every evaluation of a stream counts and reports as the unbroken scan would if and only if none leaves out an entry with something to count, reset or report |
| `TempMonitors.DirectMonitor.RegisterZone` | crates/wohl-temp/src/engine.rs:135-157 | a zone is appended unless 32 are present |
| `TempMonitors.DirectMonitor.ProcessReading` | crates/wohl-temp/src/engine.rs:169-272 | the scan yields the first matching zone's alerts and new state; its four slots never refuse one |
| `TempMonitors.IndexedMonitor.RegisterZone` | crates/wohl-temp/src/wasm_component.rs:169-197 | a zone and its two watchpoints are appended unless 32 zones are present |
| `TempMonitors.IndexedMonitor.ProcessReading` | crates/wohl-temp/src/wasm_component.rs:199-263 | two evaluations and the rate phase; four slots never refuse an alert |
| `TempMonitors.IndexedMonitor.CheckRate` | crates/wohl-temp/plain/src/engine.rs:214-260 | the rate phase on the first matching zone |
| `TempMonitors.PushRateAlerts` | crates/wohl-temp/plain/src/engine.rs:224-253 | drop, then rise, after the alerts already found |
| `TempRuns.IdsAreInjective` | crates/wohl-temp/src/wasm_component.rs:156-157 | below 2^31 the two keys of a zone are `2z` and `2z + 1`, so never shared |
| `TempRuns.LargeIdsCollide` | crates/wohl-temp/plain/src/engine.rs:102-113 | from 2^31 on both of a zone's keys are those of the zone 2^31 below in the wrapping copy, and one and the same key in the saturating copy |
| `TempRuns.EvaluateLinked` | crates/wohl-temp/src/wasm_component.rs:206-228 | a table built from zones reports exactly the zone's own limit, at once |
| `TempRuns.IndexedEqualsDirect` | crates/wohl-temp/src/wasm_component.rs:159-264 | on every run with distinct enabled zone ids below 2^31 both architectures give the same answers in the same order |
| `TempRuns.SharedIdsDisagree` | crates/wohl-temp/src/engine.rs:185-267 | two enabled zones of one id tell the architectures apart |
| `TempKeys.ReadingAgreesIff` | crates/wohl-temp/plain/src/engine.rs:168-263 | any ids, any table that stands for its zones: a reading is answered as by the scan if and only if its two keys answer for its zone and the rate comparisons agree |
| `TempKeys.RunsAgreeIff` | crates/wohl-temp/plain/src/engine.rs:121-263 | the same over every run, for any two arithmetics of the two monitors |
| `TempKeys.IndexedEqualsDirectIff` | crates/wohl-temp/src/wasm_component.rs:159-264 | in one arithmetic the architectures give the same answers if and only if the keys of every reading answer for its zone |
| `TempKeys.SharedIdAnswersIff` | crates/wohl-temp/src/wasm_component.rs:156-228 | below 2^31 a key answers for its zone if and only if no zone of that id is violated unless the first is |
| `TempKeys.TwoZonesAgreeIff` | crates/wohl-temp/src/engine.rs:185-267 | two enabled zones of one id are answered alike exactly outside the values that only the second zone's limits catch |
| `TempKeys.LoneZoneAgreesIff` | crates/wohl-temp/plain/src/engine.rs:102-113 | one enabled zone of any id is answered alike exactly below 2^31, in the wrapping copy, strictly between its limits, or where both are the value |
| `TempKeys.LargeZoneRaisesFalseFreeze` | crates/wohl-temp/plain/src/engine.rs:108-113 | from 2^31 on an overheat of a lone zone is answered with a freeze alert by the saturating copy |
| `TempRuns.SaturatingCheckIff` | crates/wohl-temp/plain/src/engine.rs:228-241 | the saturating comparison is the true one except at a threshold of `i32::MAX` that the true difference passes |
| `TempRuns.WrappingChecksIff` | crates/wohl-temp/src/wasm_component.rs:240-247 | with wrapping subtraction both comparisons are true ones exactly when the readings differ by at most `i32::MAX`, for every threshold |
| `TempRuns.DropExcludesRise` | crates/wohl-temp/plain/src/engine.rs:228-253 | with a threshold that is not negative a reading is not both |
| `TempRuns.DeployedMonitorIsExact` | crates/wohl-temp/plain/src/engine.rs:121-263 | the saturating table monitor answers every run as the mathematical definition |
| `TempKeys.DeployedMonitorIsExactIff` | crates/wohl-temp/plain/src/engine.rs:121-263 | any run: so it does if and only if its keys answer for their zones and no difference of readings passes a threshold of `i32::MAX` |
| `TempHistory.RegisteredIsUnread` | crates/wohl-temp/src/engine.rs:135-157 | a registration appends one active zone without a reading and touches no other; the 33rd changes nothing |
| `TempHistory.AlertsFollowHistory` | crates/wohl-temp/src/engine.rs:163-268 | after any run, the alerts of a reading are those due by the limits of the first enabled zone of its id among the first 32 registered and by that id's latest reading, in the order freeze, overheat, drop, rise |
| `TempHistory.DirectRunIsTold` | crates/wohl-temp/src/engine.rs:135-268 | every answer of a run, registrations included, is the one its history tells |
| `TempHistory.DeployedRunIsToldIff` | crates/wohl-temp/plain/src/engine.rs:121-263 | the deployed monitor answers a run as its history tells if and only if the keys answer for their zones and no difference of readings passes a threshold of `i32::MAX` |
| `TempHistory.DeployedMonitorFollowsHistory` | crates/wohl-temp/plain/src/engine.rs:121-263 | distinct enabled ids below 2^31 and rate thresholds below `i32::MAX` are enough |
| `Debounce.Debouncer.Update` | crates/wohl-fw-door-bench/src/debounce.rs:94-114 | the transition on committed level and streak, and the edge it reports |
| `Debounce.StreakIsTheDisagreement` | crates/wohl-fw-door-bench/src/debounce.rs:72-74 | the streak is the run of samples since the last that agreed, and never fills the window |
| `Debounce.CommittedIsMostRecentBlock` | crates/wohl-fw-door-bench/src/debounce.rs:3-7 | the committed level is that of the most recent block of `n` alike samples, else the initial level |
| `Debounce.EdgesAlternate` | crates/wohl-fw-door-bench/src/debounce.rs:92-93 | edges strictly alternate from the initial level and end at the committed one |
| `Debounce.EdgesCostSamples` | crates/wohl-fw-door-bench/src/debounce.rs:99-110 | `n` times the edges never exceeds the samples |
| `Ccsds.EncodeInto` | crates/wohl-fw-door-bench/src/ccsds.rs:69-96 | the buffer is filled with the encoding of the packet |
| `Ccsds.HeaderOfBytes` | crates/wohl-fw-door-bench/src/ccsds.rs:18-22 | read by the standard's field layout: version, type and secondary header 0, id, flags 3, count, eight data bytes |
| `Ccsds.EncodedLayout` | crates/wohl-fw-door-bench/src/ccsds.rs:7-31 | each of the 14 bytes: two big-endian header words, length 7, type, quality, and zone and two's-complement value in little-endian |
| `Ccsds.DecodeOfEncode` | crates/wohl-fw-door-bench/src/ccsds.rs:63-68 | decoding gives the packet with id cut to 11 bits and count to 14 |
| `Ccsds.RoundTripIff` | crates/wohl-fw-door-bench/src/ccsds.rs:45-61 | the round trip is the identity exactly on in-range packets |
| `Ccsds.EncodeOfDecode` | crates/wohl-fw-door-bench/src/ccsds.rs:16-29 | what the decoder takes is the encoding of what it yields |
| `DoorNode.DoorState.Step` | crates/wohl-fw-door-bench/src/door.rs:40-59 | a sample advances debouncer and sequence and yields the encoded packet of an edge |
| `DoorNode.PacketsFollowEdges` | crates/wohl-fw-door-bench/src/door.rs:40-59 | one packet per edge of a 50-tick debouncer; packet `k` carries edge `k` and count `k` modulo 2^14 |
| `DoorNode.WireAlternates` | crates/wohl-fw-door-bench/src/door.rs:40-59 | the bytes sent decode to the 11-bit id, that count, type 0x10, quality 0, the node's zone, and 1 or 0 in turn from the level at boot; the window is 50 ticks |
| `DoorWatchModel.NightIsAnArc` | crates/wohl-door/plain/src/engine.rs:128-134 | the night is the arc of hours from start to end, also across midnight, for every configured byte |
| `DoorWatchEngine.DoorWatch.RegisterContact` | crates/wohl-door/plain/src/engine.rs:112-126 | a contact is appended unless 32 are present |
| `DoorWatchEngine.DoorWatch.ProcessEvent` | crates/wohl-door/plain/src/engine.rs:136-176 | the first matching contact moves, with an alert for an opening at night |
| `DoorWatchEngine.DoorWatch.CheckTimeouts` | crates/wohl-door/plain/src/engine.rs:178-206 | the scan returns the first four due alerts |
| `DoorWatchRuns.RunsAreFaithful` | crates/wohl-door/plain/src/engine.rs:112-176 | after any calls the contacts are those of the first 32 registrations in order; the first enabled one of an id shows its latest event since it was known and keeps the time of its latest opening, all others are closed |
| `DoorWatchRuns.RegisteredIsClosed` | crates/wohl-door/plain/src/engine.rs:112-126 | a registration appends one closed, active contact and touches no other; the 33rd changes nothing |
| `DoorWatchRuns.TimeoutScanFollowsHistory` | crates/wohl-door/plain/src/engine.rs:178-206 | the scan reports the first four, in registration order, whose last event was an opening too long ago, with the duration |
| `DoorWatchRuns.NightAlertsFollowHistory` | crates/wohl-door/plain/src/engine.rs:136-176 | after any run an event at hour `h` of any day gives exactly one alert, with the contact's zone, if and only if it opens a known contact whose night holds `h` |
| `DoorPipeline.AnnouncementArrives` | crates/wohl-hub/src/main.rs:825-830 | an announced edge reaches the hub as the event for the 11-bit id |
| `DoorPipeline.ReceivedBytes` | crates/wohl-hub/src/main.rs:812-850 | any decodable bytes: type 0x10 is an event under the id of the first two bytes, an opening unless the value bytes are all zero; other types leave the watch alone |
| `DoorPipeline.HubFollowsNodes` | crates/wohl-hub/src/main.rs:885-897 | any nodes in any interleaving: each contact shows the level of the node that spoke last under its id, open since that packet; contacts nobody spoke to do not change |
| `DoorPipeline.HubFollowsNode` | crates/wohl-hub/src/main.rs:885-897 | under distinct 11-bit ids each contact shows its own node's level as soon as that node has spoken, whatever the others send |
| `DoorPipeline.HubAgreesIff` | crates/wohl-hub/src/main.rs:529-535 | hub and node agree exactly when the last speaker under its id has its level, or nobody spoke and they agreed at boot |
| `DoorPipeline.AliasedNodeMisleads` | crates/wohl-fw-door-bench/src/ccsds.rs:66-72 | two nodes of one 11-bit id: opening one door makes the hub show the other, closed one as open |
| `DoorPipeline.TimeoutScanFollowsDoors` | crates/wohl-door/plain/src/engine.rs:178-206 | after any run of the house the scan reports the first four contacts whose speaker has its door open now and announced that too long ago, with the duration |

## Left out

- Subscribe: relay-to's table is not part of this model; subscriptions are a set of message ids, without its capacity, its priorities and its success flag. Runs may change the set at any point.
- Unsubscribe: as for Subscribe.
- The hub's own calling pattern: it clears on ticks only, with the tick's time. `LosslessRunsAgree` covers clears in time order; a clear ahead of later alerts is covered by `ClearIsUnobservableIff`. Neither mode of the hub is modelled as a whole.
- Severity-based bypass of the dispatcher: not in the code.
- Signature and digest computation: the verifier is any pure predicate, the digest any byte sequence compared for equality; the manifest's wire layout is not modelled.
- Flash: a bank is factory, dirty or an accepted image; an accepted non-empty chunk dirties it. Erasing at `start_download` is not in the code and not modelled.
- Result buffers of fixed length are sequences of their filled part; unused slots are not modelled. In the dispatcher, the watchpoint table and the monitors the stored arrays are arrays.
- DirectMonitor: overflow panics of debug builds are not modelled; subtraction wraps, saturates or is exact as `arithmetic` says.
- IndexedMonitor: its two source copies differ in arithmetic only and are one class.
- PacketToContact: only contact packets are mapped; the other sensor types and the dispatch of the resulting alerts are not modelled.
- Decode: the hub's `decode_packet` is not part of this model; the decoder is the strict inverse of the layout.
- Lost, reordered or corrupted packets: every packet sent is received, once and in order, at any hub time.
- Air, power and leak monitors, the Verus-annotated and component copies of the alert and door engines, and the Matter tables: the same patterns again.
- Scheduler, health, storage and checksum engines, configuration, command line, sockets, commissioning, GPIO and UART: I/O or not in the repository.
