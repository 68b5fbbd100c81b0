# Verification models for session handling, claims, rebuilds and repairs

A Dafny 4.11 project that models the stateful parts of this repository and proves what they
promise. `dafny verify dfyconfig.toml` checks all of it.

| file | what it models |
|---|---|
| `ClientSession.dfy`, `BrowserRuns.dfy`, `BrowserSchedules.dfy` | the session variables of one browser tab, cut at each `await`, every interleaving of N tabs with the refresh lock and the broadcast channel, and concrete schedules |
| `RetryPolicy.dfy` | the 401 interceptor around one request |
| `GstClaims.dfy`, `ClaimRules.dfy`, `GstReview.dfy`, `ReviewRules.dfy`, `GstRuns.dfy` | the reconciliation command on held GST verification claims, the review report, and histories of commands interleaved with the verification lifecycle |
| `RebuildOwnership.dfy`, `RebuildRules.dfy`, `RebuildRuns.dfy`, `RebuildSchedules.dfy`, `RebuildPaths.dfy` | the claim, crash and retry protocol of disposable rebuilds, its interleavings, a schedule in which it fails, and the separation of their directories |
| `BarcodeSource.dfy`, `BarcodeRules.dfy`, `BarcodeCollisions.dfy`, `Corrections.dfy`, `CorrectionRules.dfy` | the barcode grammar with its conflict detection, the ambiguities of correct barcodes, and the fold of reviewed corrections |
| `StylePrep.dfy`, `StylePlan.dfy`, `StyleRules.dfy`, `StyleCycle.dfy` | applying a style plan without overwriting, planning one, and planning and applying twice |
| `JobOrderRepair.dfy`, `JobOrderRules.dfy` | planning and executing the completion repair of job orders |
| `HsnBackfill.dfy`, `HsnRules.dfy` | planning and executing the HSN master backfill |
| `Prelude.dfy`, `SourceText.dfy` | option and result types, and the string operations the source relies on |

A class has one method per atomic stretch of the source that changes state; its contract ties
the new state to a function of the old one, and the lemmas are about that function. Runs are
sequences of states and events of any length. The files named after rules state what each
operation does in terms of the stored rows and fields alone, without the functions that model it.

## Where the code is weaker than its description

The models follow the code. In these places a property holds only under a condition; the
exact condition is proved, with a concrete case that fails it.

- "Refreshes are blocked for its duration" (packages/client/src/api-client.ts:337-344): the
  flag is right exactly as long as no logout of a tab finishes before another one of its
  logouts (`LogoutFlagExactly`, `OverlappingLogoutsLetARefreshIn`). A refresh requested before
  a logout began is discarded in any case (`LogoutDominatesRefresh`); one requested while it
  runs and granted afterwards is stored (`RefreshStoresExactly`, `LateRefreshOutlivesLogout`).
- One rotation per batch of tabs needs each broadcast to arrive before the next lock holder
  runs (`SingleRotation`, `QueuedTaskAsksExactly`, `SecondRotationHappens`).
- A rebuild that crashes after creating a marker file and before writing it blocks every
  retry (`TornMarkerBlocksForever`); every other crash, at any point and with any lock lost, can
  be retried unless someone else claims the target (`CrashIsRetried`).
- An owner can be replaced, and stages written under another owner, only after a lock's
  transaction has timed out between taking the lock and setting the comment
  (`ReplacesExactly`, `ReplacementNeedsLostLock`, `StagesOwnedExactly`,
  `ForeignStageNeedsLostLock`); then it happens (`LostLockOverwritesOwner`,
  `StageUnderForeignOwner`).
- In AW25 a leading zero makes two texts of one size, so two barcodes are no conflict
  (`OneBarcodePerNumberExactly`, `LeadingZeroHidesConflict`). Correct SS26 and AW26 barcodes of
  different styles or seasons can be equal, which is then reported as an ownership conflict
  (`BuiltAlikeExactly`, `ConfusableExactly`, `OwnershipConflictExactly`).
- The completion repair is described as checking the same conditions again before it writes
  (apps/api/src/cli/job-order-completion-reconciliation.ts:188-194); it looks at status and
  stages only (`ChangedQuantityIsStillRepaired`, `JustifiedExactly`).
- The style preparation is idempotent exactly when every style that shares season and LMIX
  number with a source is the one found for it or needs nothing from it; the database does not
  enforce that such styles are unique (`CycleIsIdempotentExactly`, `SharedKeyBreaksIdempotence`).

The review's word that a held row is or will be eligible is right in every state the
verification lifecycle and the command can produce (`HeldIsReleasable`); it is wrong about a
claim without a dispatch time, which takes an edit of the tables (`HeldReleasableExactly`,
`EligibleButNeverReleasable`).

## Model

| member | source | states |
|---|---|---|
| `BrowserRuns.LogoutDominatesRefresh` | packages/client/src/api-client.ts:198-288 | In every interleaving of any number of tabs, with overlapping logouts and timed-out waits, a refresh requested before a logout began stores no token after that logout began. |
| `BrowserRuns.SignedOutStays` | packages/client/src/api-client.ts:345-378 | After a logout has finished the tab holds no token and expects no user, whatever refreshes and broadcasts are still on their way, until it refreshes, signs in or is given a user itself. |
| `BrowserRuns.LogoutFlagExactly` | packages/client/src/api-client.ts:345-376 | The flag says in all states up to some point exactly whether a logout of the tab is running, if and only if no logout of the tab finished before then while another of its logouts was running. |
| `BrowserRuns.RefreshBlockedDuringLogout` | packages/client/src/api-client.ts:337-378 | Under that condition nothing but an explicit sign-in stores a token while a logout of the tab is running. |
| `BrowserRuns.RefreshStoresExactly` | packages/client/src/api-client.ts:198-263 | The answer to any refresh is stored exactly when it succeeds, names no other user, the tab is not logging out, and the tab has begun no logout since the request; a logout that was running at the request and finishes later decides nothing. |
| `BrowserRuns.ForeignAnswerClearsToken` | packages/client/src/api-client.ts:250-256 | Over every run: if a tab expects u, is not logging out and has begun no logout since the request, a successful answer naming another user leaves it without a token from then until its next token write, and no tab is sent anything. |
| `BrowserRuns.NoTokenUntilWrite` | packages/client/src/api-client.ts:128-132 | A tab without a token stays without one until the next token write in it. |
| `BrowserRuns.QueuedTaskAsksExactly` | packages/client/src/api-client.ts:270-281 | A task that gets the lock sends a request exactly when no logout forbids it and its tab has seen no token write since the request or has no token any more. |
| `BrowserRuns.DeliveredToAllOthers` | packages/client/src/session/refresh-coordinator.ts:75-89 | Given the channel, what a sign-in, a finished logout or a stored answer announces is put once, at the end, into every other tab's queue and into no queue of its own; a tab takes messages from the front, and nothing else moves a queue. |
| `BrowserRuns.LockHeldExactly` | packages/client/src/session/refresh-coordinator.ts:71-74 | In every reachable state the refresh lock is held by a tab exactly when a request of that tab is in flight. |
| `BrowserRuns.PossibleExactly` | packages/client/src/api-client.ts:265-288 | A step waits for the lock, for its message, or for its own task or logout to have got there, and for nothing else. |
| `BrowserSchedules.OverlappingLogoutsLetARefreshIn` | packages/client/src/api-client.ts:345-378 | A run from the start in which two logouts overlap, and a refresh stores its token while the second is still running. |
| `BrowserSchedules.RefreshGetsThrough` | packages/client/src/api-client.ts:265-288 | In every reachable browser of any number of tabs: whenever a tab's flag is down, the tab is idle and the lock is free, three more steps store a refreshed token there, whether or not a logout of it is running. |
| `BrowserSchedules.LateRefreshOutlivesLogout` | packages/client/src/api-client.ts:265-288 | A run from the start in which a refresh requested during a logout is granted after it and stores its token in the signed-out tab. |
| `BrowserSchedules.SecondRotationHappens` | packages/client/src/api-client.ts:270-281 | A run from the start in which the second of two queued tabs asks the server again because the first one's broadcast is still on its way. |
| `BrowserRuns.InvariantThroughout` | packages/client/src/api-client.ts:265-288 | In every reachable state each tab has only its current refresh task alive, and under the browser-wide lock only the lock holder has a request in flight. |
| `BrowserRuns.OneRequestInFlight` | packages/client/src/session/refresh-coordinator.ts:71-74 | Over all tabs together there are never two refresh requests in flight when the lock exists. |
| `BrowserRuns.CoveredThroughout` | packages/client/src/api-client.ts:270-281 | From a successful refresh for user u on, each task queued in another tab of u is spared by an adopted token or an announcement still on its way, until it runs, its tab logs out, or its session is expired or given another user. |
| `BrowserRuns.SingleRotation` | packages/client/src/api-client.ts:265-288 | Once one refresh has succeeded and its broadcast is delivered before the next lock holder runs, no queued task of any tab of that user sends a request of its own, provided that tab's session is not expired or given another user meanwhile: it adopts a token, or gives up because its tab logged out. |
| `BrowserRuns.WaitingTabsAdoptThatToken` | packages/client/src/api-client.ts:273-279 | If nothing else is written meanwhile, the token every waiting tab adopts is that very token. |
| `BrowserRuns.UndeliveredMeansSecondRotation` | packages/client/src/api-client.ts:273-281 | A queued task whose tab has seen no write since it queued up does send its own request when it gets the lock, even though another tab has just refreshed. |
| `BrowserRuns.BroadcastsHonest` | packages/client/src/api-client.ts:258-261 | Every broadcast that is ever in transit pairs a token with the token's own user, given that the server describes its tokens truly. |
| `BrowserRuns.WrittenTokenBelongsToExpectedUser` | packages/client/src/api-client.ts:134-151 | While a tab expects user u, a broadcast, or a refresh whose answer names its session, stores only tokens of u; explicit sign-in is the only other writer. |
| `BrowserRuns.IdentityKeptExactly` | packages/client/src/api-client.ts:250-262 | Given a server that describes its tokens truly, over any stretch in which a tab expects u and does not sign in, whoever signs in or out in other tabs: the tab holds no token of another user throughout, if and only if no answer without session info has stored one. |
| `BrowserRuns.IdentityKept` | packages/client/src/api-client.ts:250-262 | So it holds none when, besides, the answers to the tab's own refreshes all name their session. |
| `ClientSession.InvariantKept` | packages/client/src/api-client.ts:265-288 | Every atomic stretch of the code keeps the tab invariant on tasks, epochs, generations and the current promise. |
| `ClientSession.SingleFlight` | packages/client/src/api-client.ts:270-287 | At most one refresh task is alive within a tab. |
| `ClientSession.WritesAreReported` | packages/client/src/api-client.ts:128-132 | Which step writes which token, in terms of the fields: the answer that no logout and no other user speaks against, the broadcast for the expected user outside a logout, the sign-in; every other step leaves the token or clears it, and the generation counts the writes. |
| `ClientSession.ApiClient.RefreshAccessToken` | packages/client/src/api-client.ts:265-287 | A second call joins the running refresh; a first one captures generation and epoch. |
| `ClientSession.ApiClient.RunTask` | packages/client/src/api-client.ts:271-281 | Under the lock: refuse after a logout, adopt a token newer than the request, else ask the server. |
| `ClientSession.ApiClient.FinishRefresh` | packages/client/src/api-client.ts:219-263 | Over the fields: the answer is discarded, with nothing changed but the task, if it failed, the tab is logging out or has begun a logout since the request; else it clears the token if the tab expects a user and the answer names another one, announcing nothing; else it is stored as a new generation and announced if it names a session. |
| `ClientSession.ApiClient.HandleBroadcast` | packages/client/src/api-client.ts:134-151 | Only a session of the expected user is adopted, and none while logging out. |
| `ClientSession.ApiClient.PublishSignedInSession` | packages/client/src/api-client.ts:165-170 | An explicit sign-in stores its token and announces it if a session came with it. |
| `ClientSession.ApiClient.ApplySessionInfo` | packages/client/src/api-client.ts:128-132 | Storing a token starts a new generation. |
| `ClientSession.ApiClient.SetExpectedSessionUser` | packages/client/src/api-client.ts:114-116 | Sets the expected user and nothing else. |
| `ClientSession.ApiClient.NotifyAuthExpired` | packages/client/src/api-client.ts:186-191 | Clears the stored token and nothing else. |
| `ClientSession.ApiClient.SettleRefreshPromise` | packages/client/src/api-client.ts:283-285 | Resets the promise once its task has ended. |
| `ClientSession.ApiClient.StartLogout` | packages/client/src/api-client.ts:345-350 | Captures the user, blocks refreshes and opens a new logout epoch in one atomic stretch. |
| `ClientSession.ApiClient.EndLogout` | packages/client/src/api-client.ts:367-377 | Whatever the request came to: no user, no token, the logout is announced and the flag cleared. |
| `RetryPolicy.AtMostThreeSends` | packages/client/src/api-client.ts:290-335 | For every sequence of 401s, token swaps and refresh results an original request is sent at most three times, refreshes at most once and announces expiry at most once. |
| `RetryPolicy.ThirdSendExactly` | packages/client/src/api-client.ts:299-323 | The third send happens exactly when the first 401 met a swapped token and the second was followed by a successful refresh. |
| `RetryPolicy.ExpiryExactly` | packages/client/src/api-client.ts:299-333 | Exactly which sequences announce an expired session: a 401 that no swapped token cures, followed by a 401 of the refresh, a missing credential, or a 401 of the renewed token; never an identity change or a sign-out. |
| `RetryPolicy.RefreshNeverReenters` | packages/client/src/api-client.ts:172-184 | A refresh request is itself sent once and starts no refresh. |
| `RetryPolicy.BudgetDecreases` | packages/client/src/api-client.ts:299-318 | Every answer that sends the request again lowers a bound on the retries still possible. |
| `RetryPolicy.BoundedByBudget` | packages/client/src/api-client.ts:290-335 | From any setting of the two flags, the sends, refreshes and notices left are bounded by that measure. |
| `RetryPolicy.CountedHasHappened` | packages/client/src/api-client.ts:290-335 | Sends never exceed the answers seen, refreshes and notices never the sends, and any request with an answer was sent. |
| `RetryPolicy.AuthRequestExactly` | packages/client/src/api-client.ts:299-306 | A request to an authentication path is sent once and refreshes nothing; it announces an expired session exactly when it is a refused refresh. |
| `RetryPolicy.AuthEndpointsExactly` | packages/client/src/api-client.ts:172-184 | The paths exempt from retries are those whose URL ends in one of six, and the refreshes those that end in /refresh. |
| `RetryPolicy.RetryableRequest.HandleUnauthorized` | packages/client/src/api-client.ts:297-318 | Over the flags: it gives up exactly on a retried request or an authentication path, sends again exactly with a token that is stored and not the one sent, refreshes otherwise, sets one flag for it, and uses up the measure. |
| `GstClaims.DryRunPredictsRealRun` | apps/api/src/cli/gst-verification-reconciliation.ts:696-819 | From any state and input the dry run changes nothing and succeeds, with the same disposition, exactly when the real run does; otherwise both are refused for the same reason. |
| `GstClaims.OnlyGuardsRefuse` | apps/api/src/cli/gst-verification-reconciliation.ts:885-895 | With the table's unique keys the delete meets one row once the guards pass, so a command fails only by a guard and the rollback after the delete is never taken. |
| `GstClaims.DeletesOne` | apps/api/src/cli/gst-verification-reconciliation.ts:886-889 | Deleting on operation and key removes one position of the claim table and keeps all others in order. |
| `GstClaims.ReleaseEffect` | apps/api/src/cli/gst-verification-reconciliation.ts:823-895 | A real NOT_CHARGED command cuts the operation's one claim, appends the row that justifies it, and found no anomaly. |
| `GstClaims.OtherEffect` | apps/api/src/cli/gst-verification-reconciliation.ts:779-819 | Every other command leaves claims and operations alone and appends at most one row that releases nothing. |
| `GstClaims.AnomalyFlags` | apps/api/src/cli/gst-verification-reconciliation.ts:121-137 | The list is empty exactly when none of the six anomalies holds of the operation. |
| `GstClaims.ClaimStore.ReconcileClaim` | apps/api/src/cli/gst-verification-reconciliation.ts:648-821 | The transaction over the mutable tables is the specified step, which the rows under ClaimRules state in terms of the tables; a release takes exactly one claim out. |
| `GstClaims.ClaimStore.DeleteClaims` | apps/api/src/cli/gst-verification-reconciliation.ts:886-889 | deleteMany leaves the other rows in order and counts the deleted ones. |
| `ClaimRules.AcceptedExactly` | apps/api/src/cli/gst-verification-reconciliation.ts:584-821 | A command succeeds exactly when its arguments are consistent, exactly one user has the operator's address and is active with the role ACCOUNTANT or ADMIN, the operation is held in the expected state without contradiction by the reviewed claim, and a release meets its age, window and sample conditions; nothing else is asked. |
| `ClaimRules.OperatorDecides` | apps/api/src/cli/gst-verification-reconciliation.ts:673-694 | Success means the operator is that one active accountant or administrator, and with such an operator no refusal is about the operator. |
| `ClaimRules.OperatorExactly` | apps/api/src/cli/gst-verification-reconciliation.ts:684-694 | The operator check passes exactly for that user. |
| `ClaimRules.WrittenExactly` | apps/api/src/cli/gst-verification-reconciliation.ts:696-895 | What a command writes: a refusal and a dry run nothing, a retention one audit entry, a release the entry and the removal of all and only the operation's claims; the entry and the receipt carry the decision, operator, evidence, window, times and outcome of this command. |
| `ClaimRules.RefusedForFirstFault` | apps/api/src/cli/gst-verification-reconciliation.ts:584-769 | Over all commands: the refusal names a condition that does hold, and none that the source asks earlier holds; a command that succeeds has none of the thirty faults. |
| `ClaimRules.InputExactly` | apps/api/src/cli/gst-verification-reconciliation.ts:584-632 | Which combinations of decision, evidence, window, credits and assessment are accepted. |
| `ClaimRules.ReleaseExactly` | apps/api/src/cli/gst-verification-reconciliation.ts:732-769 | When a release is justified: not released before, dispatched, old enough with an assessment if still DISPATCHED, and a window around the call that has passed, or a demo without credits. |
| `GstReview.HeldExactly` | apps/api/src/cli/gst-verification-reconciliation.ts:190-254 | Given an authorised operator, an operation can be decided on by some command if and only if the review lists it as held. |
| `GstReview.AnomaliesAndReleasedAreRefused` | apps/api/src/cli/gst-verification-reconciliation.ts:247-249 | A row listed as an anomaly or as released is refused for every decision, evidence, operator and time. |
| `GstReview.HeldRowsKeepTheirClaim` | apps/api/src/cli/gst-verification-reconciliation.ts:247-247 | A row listed as held is never refused for an anomaly, a missing claim or a key mismatch. |
| `GstReview.HeldMeans` | apps/api/src/cli/gst-verification-reconciliation.ts:149-187 | What a held row establishes: held outcome, matching claim, its fingerprint, no anomaly. |
| `GstReview.FingerprintsCountActiveClaims` | apps/api/src/cli/gst-verification-reconciliation.ts:197-249 | In an unfiltered review the held rows and the anomalies that show a fingerprint number together exactly the active claims, and no released row shows one. |
| `GstReview.ReleasePossibleExactly` | apps/api/src/cli/gst-verification-reconciliation.ts:732-769 | Some command can release a held row at a time exactly when no release is on record and the operation has a dispatch time, is old enough if DISPATCHED, and its evidence interval has passed or it is a free demo. |
| `GstReview.HeldReleasableExactly` | apps/api/src/cli/gst-verification-reconciliation.ts:161-166 | Every row listed as held, DISPATCHED or UNCERTAIN, can be released now or later exactly when the operation has a dispatch time and no release on record. |
| `GstReview.EligibleButNeverReleasable` | apps/api/src/cli/gst-verification-reconciliation.ts:161-161 | A row that only an edit of the tables produces, UNCERTAIN without dispatch time: the review calls it eligible and every release command refuses it. |
| `GstReview.StillYoungIsRefused` | apps/api/src/cli/gst-verification-reconciliation.ts:162-163 | A row reported as not yet eligible is refused by every release at that time. |
| `ReviewRules.ReviewExactly` | apps/api/src/cli/gst-verification-reconciliation.ts:190-254 | Each operation reviewed is listed in exactly the place its own row, claim and audit entries put it, anomalies before held and released, or nowhere if it is neither held nor claimed; the claims are counted over the whole table. |
| `ReviewRules.FlagsExactly` | apps/api/src/cli/gst-verification-reconciliation.ts:121-137 | Each of the six anomalies is listed exactly when its condition on outcome, claim key, evidence, times and earlier release holds. |
| `ReviewRules.BuiltRowTells` | apps/api/src/cli/gst-verification-reconciliation.ts:149-187 | Every row states the outcome, the fingerprint of the claim, the anomalies, and whether it is blocked, resolved, eligible or still young, with its age in minutes. |
| `ReviewRules.ListedOnce` | apps/api/src/cli/gst-verification-reconciliation.ts:197-249 | No operation is in two lists or in one list twice. |
| `GstRuns.DeletionsMatchReleases` | apps/api/src/cli/gst-verification-reconciliation.ts:877-894 | Over every history of commands interleaved with the verification lifecycle, the claims this tool deleted are its RELEASED rows, one to one and in order. |
| `GstRuns.AtMostOneRelease` | apps/api/src/cli/gst-verification-reconciliation.ts:732-734 | No operation is released twice over any history. |
| `GstRuns.ReleasesStayJustified` | apps/api/src/cli/gst-verification-reconciliation.ts:732-769 | Every RELEASED row of every history names a window that starts by the dispatch, ends 60 s after it and after completion, with dispatch not after review; a DISPATCHED claim was at least 900000 ms old; and the operation never holds a claim again. |
| `GstRuns.InvariantThroughout` | apps/api/src/modules/gst-compliance/gstin-verification.repository.ts:110-243 | Commands, preparations, acquisitions, completions and failures in any order keep the claim keys unique and every released operation closed. |
| `GstRuns.CommandsChangeNoOperation` | apps/api/src/cli/gst-verification-reconciliation.ts:648-651 | Commands change no outcome and no evidence, and only append to the audit log. |
| `GstRuns.HeldIsReleasable` | apps/api/src/cli/gst-verification-reconciliation.ts:161-166 | In every state of every history, every row that the review lists as held can be released, now or later, by any authorised operator. |
| `GstRuns.EligibleRowArises` | apps/api/src/modules/gst-compliance/gstin-verification.repository.ts:110-233 | Such rows arise: a verification that is prepared, dispatched and ends uncertain is listed as held and eligible. |
| `GstRuns.DispatchedThroughout` | apps/api/src/modules/gst-compliance/gstin-verification.repository.ts:170-176 | Over every history each claim belongs to an operation that is past PREPARED and has a dispatch time. |
| `GstRuns.CommandAccounts` | apps/api/src/cli/gst-verification-reconciliation.ts:877-894 | One command deletes a claim exactly when it appends a RELEASED row for the same operation. |
| `GstRuns.LifecycleKeeps` | apps/api/src/modules/gst-compliance/gstin-verification.repository.ts:110-243 | No lifecycle step touches the audit log or reopens a released operation. |
| `GstRuns.RecordsNameAuthorisedOperators` | apps/api/src/cli/gst-verification-reconciliation.ts:673-694 | Over every history, every audit entry a command has appended, released or retained, names an operator who is the only user of that address, active, and ACCOUNTANT or ADMIN. |
| `GstRuns.ClaimLife` | apps/api/src/modules/gst-compliance/gstin-verification.repository.ts:146-241 | A claim is taken exactly for a prepared operation while its key is free, goes on success, certain failure and cache hits, stays on an uncertain end, and no other claim or operation is touched. |
| `GstRuns.PreparedExactly` | apps/api/src/modules/gst-compliance/gstin-verification.repository.ts:110-141 | A new operation starts PREPARED, without times or evidence; an id that is taken changes nothing. |
| `RebuildRuns.StagesWriteOnlyOwnedTargets` | apps/api/src/cli/disposable-rebuild.ts:425-446 | Over all interleavings of runs, crashes and retries of any configurations: as long as no lock's transaction has timed out between taking the lock and setting the comment, a stage is written only while the database comment is the writer's own owner string. |
| `RebuildRuns.StagesOwnedExactly` | apps/api/src/cli/disposable-rebuild.ts:406-446 | With timeouts anywhere: every run at its stages sees its own comment up to some point, if and only if before it no step replaced the owner of a database in which stages were being written, and no run that had found its own comment went on to its stages under another one. |
| `RebuildRuns.ForeignStageNeedsLostLock` | apps/api/src/cli/disposable-rebuild.ts:406-446 | With timeouts anywhere: a stage under another owner's comment comes after a step that replaced the owner, and that after a lock lost between taking it and the comment. |
| `RebuildSchedules.StageUnderForeignOwner` | apps/api/src/cli/disposable-rebuild.ts:406-446 | A run from an empty world in which a stage adds to a database that carries another configuration's comment. |
| `RebuildRuns.OwnershipNeverChanges` | apps/api/src/cli/disposable-rebuild.ts:94-142 | As long as no lock has been lost between taking it and the comment, a comment once set stays; in every run, with lost locks too, a complete marker stays and a database without an owner has gained no objects. |
| `RebuildRuns.RetryUnlessOvertaken` | apps/api/src/cli/disposable-rebuild.ts:406-438 | Over every run, with lost locks too: once the guards of a configuration have passed, they pass in every later state exactly as long as its database has no other owner and its roots no foreign or torn marker. |
| `RebuildRuns.CrashIsRetried` | apps/api/src/cli/disposable-rebuild.ts:185-188 | So for every live run, at every one of its points: after it ends, its configuration passes all guards again exactly unless it is overtaken; a run that ends while still planning leaves to the retry only the parts it had not inspected. |
| `RebuildRuns.GuardsPassMeans` | apps/api/src/cli/disposable-rebuild.ts:94-136 | In any world the guards pass exactly when nobody has overtaken the configuration, an unowned target has no objects, an unmarked root is empty, and a filled root of its own comes with an owner. |
| `RebuildRuns.CleanStays` | apps/api/src/cli/disposable-rebuild.ts:391-438 | No step of any run, crash, retry or timeout makes a clean target or root unclean. |
| `RebuildRuns.OwnedTargetsStayReachable` | apps/api/src/cli/disposable-rebuild.ts:412-430 | From the ownership comment on, over every run, the configuration passes its guards in a later state exactly while the comment is its own; always, as long as no lock has been lost between taking it and the comment. |
| `RebuildRuns.GuardsPassExactly` | apps/api/src/cli/disposable-rebuild.ts:94-136 | In every state reachable from arbitrary comments, objects and directories, with lost locks too, the guards pass exactly when target and roots are empty or the configuration's own, and not both the database has no owner and a root of the configuration was filled before the first run. |
| `RebuildRuns.FilledFromTheStart` | apps/api/src/cli/disposable-rebuild.ts:132-135 | In every run, while a database has no owner, a root marked for it has contents exactly if it had them before the first run: no run, crash or retry makes a fresh database meet old reports. |
| `RebuildRuns.TornMarkerBlocksForever` | apps/api/src/cli/disposable-rebuild-safety.ts:15-30 | In every run, after a crash between creating a marker and writing it, every run of every configuration with that root is refused. |
| `RebuildRuns.ReplacesExactly` | apps/api/src/cli/disposable-rebuild.ts:427-430 | In any world, the only step that replaces an owner is the comment of a run that found the target without one, when another owner has been set meanwhile. |
| `RebuildRuns.ReplacementNeedsLostLock` | apps/api/src/cli/disposable-rebuild.ts:406-430 | Over every run from the start, a replaced owner was set by a rival between the check and the comment of the replacing run, and one of the two had lost its lock to the timeout between taking it and its comment. |
| `RebuildSchedules.LostLockOverwritesOwner` | apps/api/src/cli/disposable-rebuild.ts:406-430 | A run from an empty world, for any two configurations of one database with separate roots, that ends with the second owner replacing the first, both when the second run still holds the lock and when it has lost it. |
| `RebuildRuns.InvariantStep` | apps/api/src/cli/disposable-rebuild.ts:406-438 | Every step of every run, a lost lock included, keeps what all live runs rely on about markers, contents and having an owner. |
| `RebuildRuns.DatabaseStep` | apps/api/src/cli/disposable-rebuild.ts:94-114 | One step never leaves an owned database without an owner and adds no objects to one without. |
| `RebuildRuns.DirectoryStep` | apps/api/src/cli/disposable-rebuild-safety.ts:15-30 | All that one step can do to a directory: complete markers stay, contents never go, unmarked directories get none. |
| `RebuildRules.OwnersExactly` | apps/api/src/cli/disposable-rebuild.ts:115-117 | Two configurations have one owner comment exactly when identifier, report root and media root all agree, and one marker exactly when database, identifier and root do. |
| `RebuildRules.OneOwnerPerDatabase` | apps/api/src/cli/disposable-rebuild.ts:406-446 | Over every run, as long as no lock has been lost between taking it and the comment: any two stages written to one database come from configurations with the same identifier, report root and media root. |
| `RebuildRules.GuardsExactly` | apps/api/src/cli/disposable-rebuild.ts:94-136 | The guards pass exactly when the database comment is made of the configuration's own three names or the database is empty and unowned, and each root is empty or has the marker made of database, identifier and root, with contents only beside an owned database. |
| `RebuildRules.PossibleExactly` | apps/api/src/cli/disposable-rebuild.ts:391-438 | A run passes through planning, lock, checks, claims and comment in the source's order and can end at any of these points. |
| `RebuildRules.TargetCheckExactly` | apps/api/src/cli/disposable-rebuild.ts:94-114 | A target check goes on exactly with the configuration's own database or an empty unowned one, and notes which. |
| `RebuildRules.RootCheckExactly` | apps/api/src/cli/disposable-rebuild.ts:118-136 | A root check goes on exactly with an empty root or the configuration's own, with contents only if the target was owned. |
| `RebuildRules.LockExactly` | apps/api/src/cli/disposable-rebuild.ts:406-411 | The lock is taken exactly when nobody holds it, and changes nothing else. |
| `RebuildRules.MarkerExactly` | apps/api/src/cli/disposable-rebuild-safety.ts:15-30 | A marker is created empty only where there is none, then filled with the run's own three parts; the run's own marker is accepted, any other ends the run. |
| `RebuildRules.CommentExactly` | apps/api/src/cli/disposable-rebuild.ts:427-430 | The comment with all three names is set exactly by a run that found the target without one. |
| `RebuildRules.StageAndEndExactly` | apps/api/src/cli/disposable-rebuild.ts:431-438 | A stage adds objects to its database and contents to its roots; an end or a timeout only gives the lock back. |
| `RebuildOwnership.RebuildHost.ClaimRebuildDirectory` | apps/api/src/cli/disposable-rebuild-safety.ts:15-30 | A root is claimed exactly when it has no marker or this configuration's; otherwise nothing changes. |
| `RebuildOwnership.RebuildHost.Enter` | apps/api/src/cli/disposable-rebuild.ts:406-430 | The guards and claims succeed exactly when all guards pass and the lock is free, add no objects and no contents, and leave everything unchanged otherwise. |
| `RebuildOwnership.RebuildHost.RunStages` | apps/api/src/cli/disposable-rebuild.ts:431-438 | The stages add to the owned target all objects they create, give contents to exactly the roots they write to, and touch nothing else. |
| `RebuildOwnership.RebuildHost.RunStage` | apps/api/src/cli/disposable-rebuild.ts:432-438 | One stage adds its objects and contents, keeps the target owned and the lock where it was. |
| `RebuildOwnership.RebuildHost.ClaimRoots` | apps/api/src/cli/disposable-rebuild.ts:137-142 | Both roots get the marker of this configuration, each with its own path, and no other directory changes. |
| `RebuildOwnership.RebuildHost.Claim` | apps/api/src/cli/disposable-rebuild.ts:406-430 | Once the guards pass, the run holds the lock, both roots and the comment, and has added nothing. |
| `RebuildOwnership.RebuildHost.Execute` | apps/api/src/cli/disposable-rebuild.ts:391-438 | A whole run succeeds exactly when the guards pass and the lock is free; then the target holds what it held and all the stages created, the roots written to have contents, everything is owned by this configuration, the lock is free, and no other database or directory has changed. |
| `RebuildPaths.WithinIsPrefix` | apps/api/src/cli/disposable-rebuild-safety.ts:47-53 | The textual test on the relative path holds exactly when the parent's components start the child's. |
| `RebuildPaths.WithinIsPartialOrder` | apps/api/src/cli/disposable-rebuild-safety.ts:47-53 | On resolved paths the relation is reflexive, antisymmetric and transitive. |
| `RebuildPaths.SeparateIsDisjoint` | apps/api/src/cli/disposable-rebuild-safety.ts:95-96 | Neither of two roots is within the other exactly when no path lies under both. |
| `RebuildPaths.AnyOverlap` | apps/api/src/cli/disposable-rebuild-safety.ts:93-96 | The nested loop finds an overlap exactly when some path lies under two roots. |
| `RebuildPaths.AnyShared` | apps/api/src/cli/disposable-rebuild-safety.ts:97-104 | The second loop finds a root that shares a path with the repository exactly when there is one. |
| `RebuildPaths.CheckSeparation` | apps/api/src/cli/disposable-rebuild-safety.ts:89-104 | The nested loops accept exactly when no path lies under two roots and none is shared with the repository. |
| `BarcodeSource.ParseBarcodeRows` | apps/api/src/cli/master-source-normalization.ts:215-280 | The records are, in order and one each, those of the rows in which some cell is a non-empty text, each with its row's number, the texts of its season, style and barcode cells and the size they resolve to; the unresolved findings are, in order, the row numbers of the records without size; each kind of conflict is reported exactly when two records clash. |
| `BarcodeSource.EveryFilledRowIsKept` | apps/api/src/cli/master-source-normalization.ts:215-244 | Row conservation: rows with a non-empty text cell and records correspond one to one, in order, and no other row gives a record. |
| `BarcodeSource.EveryUnsizedIsReported` | apps/api/src/cli/master-source-normalization.ts:238-244 | The rows reported as unresolved are, in order and one each, those of the records without size. |
| `BarcodeSource.LastValueIsEnough` | apps/api/src/cli/master-source-normalization.ts:245-268 | Comparing with the last remembered value alone finds a clash exactly when there is one with any earlier value. |
| `BarcodeSource.ConflictIsTwoBarcodes` | apps/api/src/cli/master-source-normalization.ts:245-255 | A barcode conflict exists exactly when two records share season, style and size and differ in barcode. |
| `BarcodeSource.NoConflictMeansBijection` | apps/api/src/cli/master-source-normalization.ts:245-268 | With neither conflict reported, resolved style sizes and barcodes correspond one to one. |
| `BarcodeSource.KeyIsInjective` | apps/api/src/cli/master-source-normalization.ts:245-245 | The text key of a resolved record determines season, style and size. |
| `BarcodeSource.BuiltBarcodesDecode` | apps/api/src/cli/master-source-normalization.ts:228-237 | The documented barcode of every 7 or 8 digit style and size 3 to 14 decodes to that size, in all three seasons. |
| `BarcodeSource.ResolvedBarcodesAreBuilt` | apps/api/src/cli/master-source-normalization.ts:228-244 | A barcode that resolves is the documented one of its season, style and size. |
| `BarcodeSource.Resolve` | apps/api/src/cli/master-source-normalization.ts:227-244 | A size is kept only in the three known seasons, for 7 or 8 digit styles, as one or two digits worth 3 to 14. |
| `BarcodeCollisions.OneBarcodePerNumberExactly` | apps/api/src/cli/master-source-normalization.ts:229-255 | When no barcode conflict is reported, each season, style and size read as a number has one barcode exactly if no AW25 style has a size written both with and without a leading zero. |
| `BarcodeCollisions.LeadingZeroHidesConflict` | apps/api/src/cli/master-source-normalization.ts:229-255 | A two-row sheet for every AW25 style with two barcodes of one size and no conflict of either kind. |
| `BarcodeCollisions.SameNumberSameLength` | apps/api/src/cli/master-source-normalization.ts:229-230 | Sizes of one number are the same text exactly when they have the same length. |
| `BarcodeCollisions.AlikeExactly` | apps/api/src/cli/master-source-normalization.ts:231-235 | A prefix followed by a size of 3 to 14 equals another one exactly when both parts agree or one prefix is the other with a 1 appended and takes over the 1 of size 13 or 14. |
| `BarcodeCollisions.BuiltAlikeExactly` | apps/api/src/cli/master-source-normalization.ts:231-235 | Over all style numbers of 7 or 8 digits and all sizes, two documented barcodes of a numeric season are equal exactly when style and size are, or a 7-digit style in size 13 or 14 meets that style with a 1 appended in the size less 10. |
| `BarcodeCollisions.SameLengthIsUnambiguous` | apps/api/src/cli/master-source-normalization.ts:231-235 | Among styles of one length, equal SS26 or AW26 barcodes mean equal style and equal size text, whatever the text. |
| `BarcodeCollisions.LengthsAreAmbiguous` | apps/api/src/cli/master-source-normalization.ts:231-235 | Every 7-digit style in size 13 or 14 has, in both numeric seasons, the barcode of an 8-digit style. |
| `BarcodeCollisions.ConfusableExactly` | apps/api/src/cli/master-source-normalization.ts:228-268 | Two resolved records share a barcode under different keys exactly when both are numeric and the prefixes shift as above, or an SS26 style is an AW26 style with its 3 in front. |
| `BarcodeCollisions.OwnershipConflictExactly` | apps/api/src/cli/master-source-normalization.ts:256-268 | An ownership conflict is reported exactly when two correct barcodes are confusable in that way or a row without size shares its barcode with a row under another key. |
| `BarcodeRules.ResolvesExactly` | apps/api/src/cli/master-source-normalization.ts:227-244 | A barcode resolves to a size exactly when the style has 7 or 8 digits, the size is 3 to 14 (with a leading zero in AW25 only), and the barcode is the season's pattern written with both. |
| `BarcodeRules.ConflictsExactly` | apps/api/src/cli/master-source-normalization.ts:245-255 | A barcode conflict among the records of any sheet is two records with the same season, style and known size and different barcodes. |
| `BarcodeRules.OwnersExactly` | apps/api/src/cli/master-source-normalization.ts:256-268 | An ownership conflict is two records with one barcode and different texts of season, style and size. |
| `BarcodeRules.RowsOfExactly` | apps/api/src/cli/master-source-normalization.ts:238-268 | A row counts as reported for a code exactly when a finding of that code names it. |
| `BarcodeRules.NormalizeSeasonExactly` | apps/api/src/modules/historical-import/mrp-workbook.ts:83-86 | A season is normalised character by character: hyphens and white space go, small letters become capitals. |
| `Corrections.CorrectedExactly` | apps/api/src/cli/master-source-normalization.ts:140-186 | Corrections succeed exactly when each approved one is admissible by itself and those of each field form a chain from its value; each field then holds the end of its chain. |
| `Corrections.ApplyCorrections` | apps/api/src/cli/master-source-normalization.ts:140-186 | The filter and the write loop compute that fold, with the first refusal in the source's order. |
| `Corrections.IdentityFieldsKept` | apps/api/src/cli/master-source-normalization.ts:152-177 | Source Key, Source Provenance, the kind's reference fields and unnamed fields keep their values. |
| `Corrections.KeyAndProvenanceRefused` | apps/api/src/cli/master-source-normalization.ts:175-180 | Any approved correction of the row to the column Source Key or Source Provenance makes the run fail, whatever else it says. |
| `Corrections.SecondRunExactly` | apps/api/src/cli/master-source-normalization.ts:178-180 | A corrected row accepts the same corrections again exactly when they changed nothing. |
| `Corrections.OrderAcrossFieldsIsFree` | apps/api/src/cli/master-source-normalization.ts:146-184 | Only the order within each field matters for success and result. |
| `Corrections.FoldExactly` | apps/api/src/cli/master-source-normalization.ts:146-184 | The same exactness for any remaining list of corrections and any state of the row. |
| `CorrectionRules.OutcomeExactly` | apps/api/src/cli/master-source-normalization.ts:140-186 | Without naming the filtered list: a run succeeds exactly when every approved correction whose key is the row's Source Key is at its place, reviewed and signed, of an existing correctable field, and starts from the value its field has by then; each field ends with the value of its last such correction, or its own. |
| `CorrectionRules.UnapprovedIsIgnored` | apps/api/src/cli/master-source-normalization.ts:146-148 | Taking out a correction that is unapproved or has another source key, at any position, leaves the result the same, refusals included. |
| `CorrectionRules.NothingApproved` | apps/api/src/cli/master-source-normalization.ts:146-148 | With no approved correction for its key a row stays as it is. |
| `CorrectionRules.RefusedForFirstFault` | apps/api/src/cli/master-source-normalization.ts:152-180 | A run is refused at its first relevant correction with a fault, for the first of the six faults in the source's order. |
| `CorrectionRules.IdentifiesExactly` | apps/api/src/cli/master-source-normalization.ts:155-174 | Which fields identify a row of each kind and so may not change. |
| `StylePrep.NothingIsOverwritten` | apps/api/src/cli/historical-import-style-prep.ts:496-650 | For any plan, finished or stopped by a failing service call, every style, size, rate and non-null field of before is unchanged. |
| `StylePrep.RefusedExactly` | apps/api/src/cli/historical-import-style-prep.ts:473-525 | The run is refused before any write exactly when a style to verify holds a different HSN description. |
| `StylePrep.EveryEntryIsCounted` | apps/api/src/cli/historical-import-style-prep.ts:527-573 | Created, verified and blocked entries add up to the plan in a finished run and never exceed it. |
| `StylePrep.SecondRunWritesNothing` | apps/api/src/cli/historical-import-style-prep.ts:496-650 | Any plan that ran to its end writes nothing when applied again, creating entries included. |
| `StylePrep.ReportIsExact` | apps/api/src/cli/historical-import-style-prep.ts:534-573 | With one entry per style a finished run leaves each verified style with its old values and the proposed ones in the gaps. |
| `StylePrep.NamedMappingsExact` | apps/api/src/cli/historical-import-style-prep.ts:621-646 | With one entry per style a verified style gains exactly the sizes and the rate its entry asks for, and keeps a rate it had. |
| `StylePrep.StyleFieldsExactly` | apps/api/src/cli/historical-import-style-prep.ts:534-550 | For any plan, also one naming a style several times, a finished run leaves the old values and, in the gaps, the last proposals. |
| `StylePrep.ReportHoldsExactly` | apps/api/src/cli/historical-import-style-prep.ts:534-573 | For any plan, what is reported as set or already set holds in the end exactly when the entry has the last word on the fields that were empty. |
| `StylePrep.SharedStyleBreaksReport` | apps/api/src/cli/historical-import-style-prep.ts:534-550 | A plan made by hand with two entries for one style, in which the later replaces what the earlier was reported to have set. |
| `StylePrep.RunKeeps` | apps/api/src/cli/historical-import-style-prep.ts:527-647 | What was there before the run is kept after every prefix of the plan. |
| `StylePrep.RunSettles` | apps/api/src/cli/historical-import-style-prep.ts:527-647 | After a finished run no entry has anything left to write. |
| `StylePrep.StyleTables.ApplyStyles` | apps/api/src/cli/historical-import-style-prep.ts:496-650 | One read, the conflict check, and the entries in order until a service call throws. |
| `StylePrep.StyleTables.ApplyOne` | apps/api/src/cli/historical-import-style-prep.ts:527-647 | One entry: blocked, verified and patched, or created, then its sizes and its factory rate. |
| `StylePrep.StyleTables.AddAllSizes` | apps/api/src/cli/historical-import-style-prep.ts:621-630 | The size loop adds what is missing and stops at a failing call. |
| `StylePlan.FreshRunFillsGaps` | apps/api/src/cli/historical-import-style-prep.ts:283-426 | A finished run of a fresh plan leaves the style of each source, found or created, with its old fields, sizes and rates and exactly the source's in the gaps. |
| `StylePlan.FreshPlanIsOneEntryPerStyle` | apps/api/src/cli/historical-import-style-prep.ts:262-270 | The planner never names one style in two entries and only names styles that exist. |
| `StylePlan.CreatedStyleIsBuilt` | apps/api/src/cli/historical-import-style-prep.ts:574-647 | A creating entry makes a style with its own fields and exactly its sizes and rate, which later entries leave alone. |
| `StylePlan.PlanStyles` | apps/api/src/cli/historical-import-style-prep.ts:283-426 | The loop gives one entry per source, in order. |
| `StylePlan.RequiredIdentities` | apps/api/src/cli/historical-import-mrp-audit.ts:112-136 | Each season and LMIX pair that the records name appears once, in the order in which they first name them. |
| `StyleRules.PlannedExactly` | apps/api/src/cli/historical-import-style-prep.ts:283-426 | The plan of one source in terms of the tables: blocked while its price is unresolved or its season missing, else verifying the first style with its season and LMIX number or creating one, each size verified, created or blocked, and the factory rate verified, left alone or created. |
| `StyleRules.VerifyExactly` | apps/api/src/cli/historical-import-style-prep.ts:534-573 | An entry that names a style is counted with its old and proposed fields, and stops the run exactly when the style is gone while a gap is to be filled, or a size or rate to add has no style or no master. |
| `StyleRules.CreateExactly` | apps/api/src/cli/historical-import-style-prep.ts:574-647 | Any other entry is blocked exactly without a name, a price or a season; else it creates a style under the next id, with the entry's number, season, LMIX number and fields, or stops the run exactly when the season is unknown, the number taken, or a size or factory missing. |
| `StyleRules.BlockedExactly` | apps/api/src/cli/historical-import-style-prep.ts:528-531 | A blocked entry is counted and does nothing. |
| `StyleRules.RunCounted` | apps/api/src/cli/historical-import-style-prep.ts:496-650 | Over every run, finished or stopped, the styles, sizes and rates reported as created are exactly what the tables have gained. |
| `StyleRules.SizesCounted` | apps/api/src/cli/historical-import-style-prep.ts:621-630 | Sizes created and verified add up to the usable sizes of the entries. |
| `StyleRules.FactoryOutcome` | apps/api/src/cli/historical-import-style-prep.ts:632-646 | A factory that is given is counted once, as skipped exactly when it has nothing to apply. |
| `StyleRules.SeasonExactly` | apps/api/src/cli/historical-import-style-prep.ts:261 | A season code stands for the last season row that has it. |
| `StyleRules.StyleExactly` | apps/api/src/cli/historical-import-style-prep.ts:266 | The style found is the first row with the season and LMIX number, and none is found exactly when there is none. |
| `StyleCycle.CycleIsIdempotentExactly` | apps/api/src/cli/historical-import-style-prep.ts:250-650 | After a finished run, planning and applying again is never refused, never stops, creates nothing and writes nothing, in whatever order the styles are then read, if and only if before the run every style sharing season and LMIX number with a resolved source, other than the one found for it, already had the source's fields filled, its description, its sizes and a rate. |
| `StyleCycle.CycleIsIdempotent` | apps/api/src/cli/historical-import-style-prep.ts:250-650 | So it is when no two styles share season and LMIX number. |
| `StyleCycle.SharedKeyBreaksIdempotence` | apps/api/src/cli/historical-import-style-prep.ts:263-268 | Two styles with numbers of their own under one season and LMIX number: a second cycle that reads them in another order writes again. |
| `StyleCycle.ServedExactly` | apps/api/src/cli/historical-import-style-prep.ts:473-494 | A plan that finds a style leaves it alone exactly when it is served in that sense. |
| `StyleCycle.RivalUnchanged` | apps/api/src/cli/historical-import-style-prep.ts:263-268 | A style the planner did not find for its source is not touched by the run. |
| `StyleCycle.RunStylesFromPlan` | apps/api/src/cli/historical-import-style-prep.ts:527-595 | Every style is old or made by an entry under that entry's season and LMIX number, and each new one has a key of its own. |
| `JobOrderRepair.AssessExactly` | apps/api/src/cli/job-order-completion-reconciliation.ts:105-169 | A row is a candidate exactly when a final activity exists, ordered = prepared > 0, its non-cancelled batches are there, all resolved and sum to prepared, and the last stage is the only open one and IN_PROGRESS. |
| `JobOrderRepair.PlanRepairs` | apps/api/src/cli/job-order-completion-reconciliation.ts:102-171 | The loop builds the candidates and skips of all rows in order. |
| `JobOrderRepair.EveryRowIsPlanned` | apps/api/src/cli/job-order-completion-reconciliation.ts:102-171 | Candidates and skips partition the rows inspected. |
| `JobOrderRepair.Summarize` | apps/api/src/cli/job-order-completion-reconciliation.ts:173-187 | The four counters add up to the skips. |
| `JobOrderRepair.RepairIsWholeOrNothing` | apps/api/src/cli/job-order-completion-reconciliation.ts:204-261 | A transaction repairs an order completely with both audit entries or writes nothing; the half-repaired branch is never taken. |
| `JobOrderRepair.Repairer.Execute` | apps/api/src/cli/job-order-completion-reconciliation.ts:195-265 | Repaired and stale ids are the candidates split by outcome, in order. |
| `JobOrderRepair.SecondExecutionDoesNothing` | apps/api/src/cli/job-order-completion-reconciliation.ts:195-265 | Any list executed a second time repairs none and changes nothing, audit included. |
| `JobOrderRepair.CompletedOrdersStay` | apps/api/src/cli/job-order-completion-reconciliation.ts:214-221 | An order that has a completion time or another status is never changed by any list. |
| `JobOrderRepair.FreshPlanIsRepaired` | apps/api/src/cli/job-order-completion-reconciliation.ts:195-265 | A fresh plan is repaired without a stale entry: exactly the pending repairable orders get a completion time and completed stages, no other order changes. |
| `JobOrderRepair.NextPlanIsEmpty` | apps/api/src/cli/job-order-completion-reconciliation.ts:77-171 | After that the next plan has no candidate and the same skips. |
| `JobOrderRepair.EligibleMeans` | apps/api/src/modules/job-orders/job-orders.service.ts:2216-2242 | The stage an eligible candidate names is the only open one, and completing it completes all. |
| `JobOrderRepair.ChangedQuantityIsStillRepaired` | apps/api/src/cli/job-order-completion-reconciliation.ts:188-221 | An order whose prepared quantity changed after planning is still repaired: only status and stages are looked at again. |
| `JobOrderRepair.JustifiedExactly` | apps/api/src/cli/job-order-completion-reconciliation.ts:214-221 | When a repair is made, the order meets all planning conditions exactly when its quantities and quality batches still do. |
| `JobOrderRules.SkippedForFirstFault` | apps/api/src/cli/job-order-completion-reconciliation.ts:105-169 | A row is skipped for the first of the four faults it has, each stated over its own lines, activities, batches and stages, and is a candidate exactly when it has none. |
| `JobOrderRules.TransactExactly` | apps/api/src/cli/job-order-completion-reconciliation.ts:203-261 | A candidate is repaired exactly when its order is pending, the named stage is in progress and every other one is completed; then the order has the time of the repair and all stages completed, two entries are logged, and nothing else changes. |
| `JobOrderRules.OutcomesInOrder` | apps/api/src/cli/job-order-completion-reconciliation.ts:195-265 | The ids reported as repaired, and as stale, are in order those of the candidates that were, and were not, due when their turn came. |
| `JobOrderRules.CountExactly` | apps/api/src/cli/job-order-completion-reconciliation.ts:173-187 | Each counter of the summary counts the skips for its reason. |
| `JobOrderRules.FindFinalExactly` | apps/api/src/modules/job-orders/job-orders.service.ts:176-198 | The final activity is the first active QUALITY activity by batches over the prepared quantity with an INSPECTION form of JOB_ORDER scope. |
| `HsnBackfill.PlanBackfill` | apps/api/src/cli/hsn-master-backfill.ts:51-92 | The two loops compute the plan: ascending distinct codes, ids and descriptions per code, skipped rows in order. |
| `HsnBackfill.PlanIsUnique` | apps/api/src/cli/hsn-master-backfill.ts:51-92 | The rows determine the plan completely. |
| `HsnBackfill.EveryRowIsCounted` | apps/api/src/cli/hsn-master-backfill.ts:78-89 | Styles to link and skipped styles add up to all styles. |
| `HsnBackfill.DescriptionExactly` | apps/api/src/cli/hsn-master-backfill.ts:79-86 | A description is proposed exactly when one distinct non-blank one is given, and conflicts are listed exactly when there are several. |
| `HsnBackfill.CollectRows` | apps/api/src/cli/hsn-master-backfill.ts:60-76 | The first loop groups usable rows by code and lists the others. |
| `HsnBackfill.ListGroups` | apps/api/src/cli/hsn-master-backfill.ts:78-89 | The second loop lists every group once, by ascending code, and counts its ids. |
| `HsnBackfill.Backfill.Execute` | apps/api/src/cli/hsn-master-backfill.ts:126-151 | Created plus existing is the plan's length, and the counters are the growth of the HSN table and the drop in unlinked styles. |
| `HsnBackfill.NeverEdits` | apps/api/src/cli/hsn-master-backfill.ts:131-146 | No HSN that exists is edited, no link is moved and no style row is touched. |
| `HsnBackfill.SecondRunDoesNothing` | apps/api/src/cli/hsn-master-backfill.ts:126-151 | Any plan executed again changes nothing, so it creates and links zero. |
| `HsnBackfill.FreshRunLinksExactly` | apps/api/src/cli/hsn-master-backfill.ts:142-145 | A fresh plan links every linkable unlinked style to the HSN of its own code and no other style. |
| `HsnBackfill.FreshRunConverges` | apps/api/src/cli/hsn-master-backfill.ts:94-101 | After one run the next plan proposes nothing and lists the same skipped styles, which are all that is left. |
| `HsnBackfill.ValidKept` | apps/api/src/cli/hsn-master-backfill.ts:133-138 | HSN ids stay unique, so a link identifies its code. |
| `HsnRules.PlanExactly` | apps/api/src/cli/hsn-master-backfill.ts:51-92 | Over every plan: codes come in strictly ascending text order; each has some row, its ids are in order those of its rows, and its description is the only one they give; the skipped rows are, in order, those without eight digits, as blank or as ill-formed. |
| `HsnRules.EveryCodeIsPlanned` | apps/api/src/cli/hsn-master-backfill.ts:60-89 | Every eight-digit code that a row has is planned. |
| `HsnRules.HasCodeExactly` | apps/api/src/cli/hsn-master-backfill.ts:63-71 | A row is usable exactly when its code, without the white space around it, is eight digits. |
| `HsnRules.CreatedExactly` | apps/api/src/cli/hsn-master-backfill.ts:133-138 | A code that was not there is created with the description of its first entry in the plan, for any plan. |
| `HsnRules.FreshRunExactly` | apps/api/src/cli/hsn-master-backfill.ts:126-151 | A fresh run gives every style without an HSN and with eight digits the HSN of its own code, and no other style any. |
| `HsnRules.LessExactly` | apps/api/src/cli/hsn-master-backfill.ts:79-79 | The order of the codes: at the first difference the smaller character, or the shorter text. |

## Left out

- The mobile credential provider: its awaited write falls between the logout check and the token write, so the tab's stretches are atomic only without it; the interceptor model covers both kinds of refresh endpoint.
- Session timing, activity flags, session events to listeners and sign-out on a remote logout: they change no modelled variable by themselves; a listener's reaction is an event of its own.
- Network, database, file system and clock: answers, times and interleavings are arbitrary; a transaction is one step, serialised by the locks it takes.
- SHA-256: a fingerprint is any function of the claim key; the hash of the two roots in the database comment is taken as injective.
- Format and secret checks on the operator's free text are one boolean; the case-insensitive match of the operator's address is equality of addresses already in lower case.
- Rate limits and expiry when a claim is acquired: they only make fewer acquisitions happen.
- A guard of the rebuild reads its target (comment and object count) or its root (entries and marker) in one step.
- Server address, URL and environment checks and symbolic-link checks of the rebuild, and its stages beyond what they write to the target.
- Header normalisation and column lookup of the barcode sheet (columns are given), the raw values and texts of findings, and letters outside ASCII when a season is put in upper case.
- A Source Key whose kind names a built-in object property, which makes the source fail with a type error instead of a refusal.
- storeCandidates, commercialConflicts, parseInvoiceLines and resolveCommercialIdentity: candidate lists and lookups that would add easy members only.
- reconcileMrp, the size and factory mapping artifacts and the derivation of a style's fields: the planner's sources hold their results, one record per identity.
- Barcodes of new style sizes, audit entries of the master-data services, and other writers during a style run or a backfill.
- StylePrep.StyleTables.ApplyStyles: a service call fails when a style, season, size or factory is missing or inactive or a style number is taken, and for no other reason.
- JobOrderRepair.Repairer.Execute: other writers between two transactions are covered only by starting from an arbitrary store and an arbitrary candidate list.
- Numbers are reals or integers, without NaN or rounding; localeCompare on eight-digit codes is taken as their text order.
- Texts of skip details, report formatting, argument parsing, and the summary of the HSN plan.
