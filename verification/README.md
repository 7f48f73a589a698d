# ParkVision: models and proofs

ParkVision is a multi-tenant parking platform: cameras recognise plates at the edge, a backend
decides who may pass, moves barrier gates and answers drivers' questions about their stays. This
project models the parts of it whose correctness is about whole runs, and proves what they promise.

| file | what it models |
|---|---|
| `DriverSessions`, `SessionPairing`, `SessionViews` | parking sessions inferred from access events by last-in-first-out matching over a truncated window |
| `RefreshTokens`, `RefreshRuns`, `SessionCalls` | refresh-token rotation, retry window, second factor, revocation and sliding expiry |
| `LoginLockout` | the failed-login counter and the temporary lock |
| `MotionGating` | the camera's warm-up, debounce, active and cooldown machine |
| `TrackLifecycle`, `TrackRuns`, `BoxOverlap` | per-track lifecycles with a time-to-live and plate de-duplication; overlap and movement of boxes |
| `CameraPipeline`, `PipelineSync`, `CameraProcessing`, `SkippedPlates`, `FrameReports` | the camera service's tables beside the tracker, the events it sends and those it skips |
| `EventSpool`, `IngestDelivery`, `RetrySchedule` | the bounded durable event queue, retries, the flush and its schedule |
| `GateCommands`, `CommandRuns` | idempotent gate commands, outbox, publisher, acknowledgement and timeout sweep |
| `Pricing`, `StaySplitting` | the overnight-window loop, the fee formula, and when splitting a stay is cheaper |
| `AccessRecording`, `AccessDecisions`, `ExitRaces`, `AntiPassback`, `Occupancy` | access decisions, single-use paid exits, anti-passback, the occupancy counter |
| `Prelude` | optional values, plate normalisation, a few facts about division |

Where the program changes state step by step there is a class or a method with a loop; each is proved
equal to a function of the old state, and the promises are lemmas about that function over every
input, every run or every interleaving. `dafny verify dfyconfig.toml` checks everything.

## Where the code and its own words differ

The model follows the code. Each difference is stated exactly, with the condition under which the
promise does hold.

- `active_sessions` says "one PARKED row per plate whose latest allowed event is an entry". The query
  limit of 500 rows per plate is shared by all plates, so a busy plate can push another one out:
  `SessionViews.ParkedStarved` shows it, `SessionViews.ParkedExactly` gives the condition.
- `refresh_session` says "reuse of an old token revokes the family". That is so for the immediately
  previous token only (`RefreshRuns.ReuseDetectedIff`); a token two rotations old is merely unknown
  (`RefreshRuns.TwoRotationsMakeStale`, `RefreshRuns.StaleForever`).
- The comment at `backend/app/services/auth_service.py:625-626` promises a fresh token and no lock-out
  on a retry. The retry hands the presented token back, and a client that keeps using it is locked out
  after the minute (`RefreshRuns.GraceRetryLocksOut`).
- Anti-passback says a plate "cannot repeat inside the window" and that a window of 0 disables it. Only
  the newest event under the spelling given or its normal form is looked at. A repeat is refused if and
  only if the earlier event was stored under one of the two and nothing under them refused or turned the
  vehicle since (`AntiPassback.PassbackHoldsIff`). So a refusal resets the check
  (`AntiPassback.RefusedAttemptResetsPassback`) and another spelling evades it
  (`AntiPassback.TwoSpellingsBothPass`); what is left over whole runs is `AntiPassback.RepeatsAreSeparated`.
  A window of 0 means 5 (`AntiPassback.ZeroWindowIsFive`); the settings that do switch it off, among them
  the text "0" and the number 0.5, are in `AntiPassback.PassbackOffIff`.
- A paid exit is decided without a lock and not reconsidered when nothing is left to stamp. Calls made
  one after another are safe (`AccessRecording.PaidExitsNeverOutnumberPayments`); two racing gates are
  not (`AccessRecording.RacingExitsShareAPayment`, condition in `AccessRecording.LateRecordConsumesIff`).
  Over every interleaving of decisions and records, each exit let out used up a payment or is one of the
  records that found none left (`ExitRaces.ExitsAreBounded`, `ExitRaces.ExitsBalance`).
- A gate command is pushed before its transaction commits. An acknowledgement that comes back earlier is
  lost (`GateCommands.EarlyAckIsLost`; over whole runs, exactly the acknowledgements after the commit count:
  `CommandRuns.AnsweredIff`, `CommandRuns.FinalStatus`), and a rolled-back request
  that is retried sends its command again (`GateCommands.RolledBackIssueRepeats`; exactly when, in
  `GateCommands.IssuePushesIff` and `CommandRuns.KeyRepeatsIff`).
- The pricing profile (`backend/app/schemas/resources.py:159-163`) calls the rate "VND per billing block";
  the code prorates it per hour and rounds the total up. For a given rate, block size and number of blocks
  `StaySplitting.PerBlockPriceIff` says exactly when the two agree; for all rates together that is at
  60-minute blocks only (`StaySplitting.RateIsPerBlockIff`). It says the daily rate "caps each rolling 24h
  window"; the code caps the whole stay, which for block sizes that divide a day never costs less
  (`StaySplitting.CapIsPerWindowIff` says when it costs the same).
- Because of that, leaving and re-entering can be cheaper than staying. The rule sets for which it never
  is are given exactly by `StaySplitting.NeverSavesIff`: a grace period must go with rules that charge
  nothing, and a daily cap must not be undercut, which for blocks that divide a day means not lying
  strictly between the price of one block and 24 hourly rates (`StaySplitting.CapUndercutsIff`).
- A plate read from an untracked vehicle that overlaps a tracked one is credited to the tracked one but
  not sent (`SkippedPlates.BorrowedPlateIsLost` is such a run). `SkippedPlates.ReportSentIff` says exactly
  when a reported plate is sent, `SkippedPlates.SkippedPlateStaysUnsent` that a skipped one stays unsent
  until its track has left.

## Model

| member | source | states |
|---|---|---|
| Prelude.NormalizeIdempotent | backend/app/services/event_service.py:16-17 | Normalising a plate twice changes nothing more, so looking up an already normalised plate finds the same rows. |
| Prelude.NormalizeChar | backend/app/services/event_service.py:16-17 | A letter normalises to its capital, a digit to itself, anything else to nothing. |
| Prelude.NormalizeJoin | backend/app/services/event_service.py:16-17 | Normalising works character by character. |
| DriverSessions.AllowedFacts | backend/app/services/driver_session_service.py:39-47 | The query selects exactly the allowed, site-bound events of the driver's plates in any spelling, in order. |
| DriverSessions.KeepNewest | backend/app/services/driver_session_service.py:53-60 | The counting loop keeps exactly the rows with fewer than 500 newer rows of their plate. |
| DriverSessions.AllowedEvents | backend/app/services/driver_session_service.py:32-60 | The query's rows, newest first and cut at the row limit, go through that loop. |
| SessionViews.KeptExactly | backend/app/services/driver_session_service.py:53-60 | A row is kept if and only if fewer than 500 rows of its plate are newer. |
| SessionViews.KeptPerPlate | backend/app/services/driver_session_service.py:25-60 | Each plate contributes the smaller of its row count and 500. |
| DriverSessions.History | backend/app/services/driver_session_service.py:157-173 | The stack loop returns the requested page of the LIFO pairs, newest exit first, and their total. |
| SessionPairing.PairsWellNested | backend/app/services/driver_session_service.py:162-169 | Every pair is an entry with a later exit of the same plate and site; no event is used twice and no two pairs of a key cross. |
| SessionPairing.PairsOptimal | backend/app/services/driver_session_service.py:162-169 | No matching of exits to earlier entries of the same key has more pairs. |
| SessionPairing.PairsAreMatching | backend/app/services/driver_session_service.py:162-169 | The pairs are themselves such a matching, so the maximum is reached. |
| SessionPairing.EntriesAccounted | backend/app/services/driver_session_service.py:162-169 | Every entry of a key is either in a pair or still open. |
| SessionPairing.TruncationSound | backend/app/services/driver_session_service.py:162-169 | Over any window that is a suffix of each plate's events, the pairs are exactly the full history's pairs entered inside it. |
| SessionViews.WindowIsSuffix | backend/app/services/driver_session_service.py:46-60 | The kept window is such a suffix, for every table and set of plates. |
| SessionViews.HistoryIsTruncatedHistory | backend/app/services/driver_session_service.py:46-169 | Dropping old events never re-pairs or invents a session. |
| SessionViews.HistoryOrder | backend/app/services/driver_session_service.py:171 | The listing is a permutation of the sessions, newest exit first, ties in row order. |
| SessionViews.PagesPartition | backend/app/services/driver_session_service.py:172-173 | Consecutive pages skip nothing and repeat nothing; enough pages show everything. |
| DriverSessions.ActiveSessions | backend/app/services/driver_session_service.py:127-133 | The loop returns the entries among the first rows of each plate. |
| SessionViews.ParkedIsNewest | backend/app/services/driver_session_service.py:125-133 | A PARKED row is the newest event of its plate in the whole history, and an entry. |
| SessionViews.ParkedInNoSession | backend/app/services/driver_session_service.py:125-169 | An entry reported PARKED is in no session of the full history. |
| SessionViews.ParkedExactly | backend/app/services/driver_session_service.py:46-133 | A plate's newest entry is reported if and only if fewer than 500 times the number of plates of the driver's events are newer. |
| SessionViews.ParkedStarved | backend/app/services/driver_session_service.py:47 | With a thousand newer events of another plate, a parked vehicle is not reported. |
| SessionViews.ParkedOncePerPlate | backend/app/services/driver_session_service.py:128-133 | No plate is listed as parked twice. |
| RefreshTokens.SessionTable.CreateSession | backend/app/services/auth_service.py:127-145 | A new row holds the drawn token's digest and expires a lifetime from now. |
| RefreshTokens.SessionTable.CompleteMfa | backend/app/services/auth_service.py:428-521 | Checks in order; failures are counted and revoke at the limit; success rotates without extending the expiry. |
| RefreshTokens.SessionTable.FindByToken | backend/app/services/auth_service.py:568-576 | The look-up finds the one row holding the digest, or none exists. |
| RefreshTokens.SessionTable.RefreshSession | backend/app/services/auth_service.py:565-650 | The call is the refresh transition: reuse, revoked, expired, inactive, retry or rotation, in that order. |
| RefreshTokens.SessionTable.FlagFamilyCompromised | backend/app/services/auth_service.py:653-662 | The whole family of the session is revoked. |
| RefreshTokens.SessionTable.Logout | backend/app/services/auth_service.py:665-671 | The session is revoked and nothing else changes. |
| RefreshTokens.SessionTable.CleanupExpired | backend/app/workers/jobs.py:489-498 | Exactly the rows expired for more than 30 days go, and the count is returned. |
| RefreshTokens.CallKeepsInv | backend/app/services/auth_service.py:127-650 | Every call keeps stored current and previous tokens pairwise distinct across sessions. |
| SessionCalls.MfaIssuedIff | backend/app/services/auth_service.py:475-521 | A second-factor call issues a token if and only if the session exists, is the user's own, unrevoked, unverified, unexpired, has attempts left, the user has a secret and the code is right. |
| SessionCalls.MfaSuccessEffect | backend/app/services/auth_service.py:512-521 | Success rotates the token, verifies the session, keeps its expiry and touches no other session. |
| SessionCalls.MfaFailureEffect | backend/app/services/auth_service.py:428-472 | A wrong code is counted and yields no token; the last one allowed revokes the session. |
| SessionCalls.MfaOtherwiseNothing | backend/app/services/auth_service.py:483-498 | Any other call changes nothing. |
| SessionCalls.WrongCodesBounded | backend/app/services/auth_service.py:428-510 | In every run a session takes at most the allowed number of wrong codes, its counter says how many, and the last has revoked it. |
| SessionCalls.CreateEffect | backend/app/services/auth_service.py:127-145 | A new session's owner, family, token, verification and expiry; no other session changes. |
| SessionCalls.LogoutEffect | backend/app/services/auth_service.py:665-671 | Exactly that session is revoked, and none of its tokens is accepted again. |
| SessionCalls.RevokeUserEffect | backend/app/services/auth_service.py:892-900 | Exactly the user's sessions are revoked. |
| SessionCalls.FlagFamilyEffect | backend/app/services/auth_service.py:653-662 | Exactly the family's sessions are revoked. |
| SessionCalls.PurgeEffect | backend/app/workers/jobs.py:489-498 | Exactly the sessions expired for more than 30 days go. |
| SessionCalls.SetActiveEffect | backend/app/services/auth_service.py:620-622 | A user counts as active exactly as last set, and no session changes. |
| SessionCalls.ReuseEffect | backend/app/services/auth_service.py:589-613 | The late return of the previous token revokes exactly that session's family. |
| SessionCalls.RefreshRefusals | backend/app/services/auth_service.py:615-622 | A current token is refused as revoked, expired or of an inactive account, in that order. |
| RefreshRuns.TokensStayDistinct | backend/app/services/auth_service.py:569-576 | In every run tokens stay distinct and no look-up is ambiguous. |
| RefreshRuns.RefreshSucceedsIff | backend/app/services/auth_service.py:578-650 | A refresh succeeds if and only if the token is current, or previous within 60 s of rotation, on an unrevoked, unexpired session of an active user; says which token comes back. |
| RefreshRuns.RotationEffect | backend/app/services/auth_service.py:632-637 | A rotation makes the presented token the previous one, restarts the expiry and touches no other session. |
| RefreshRuns.ReuseDetectedIff | backend/app/services/auth_service.py:582-613 | The theft response fires if and only if the previous token comes back outside the grace, and revokes the whole family. |
| RefreshRuns.RevocationPermanent | backend/app/services/auth_service.py:592-616 | A session once revoked is, at the end of every run, still revoked or cleaned away, and accepts no token. |
| RefreshRuns.StaleForever | backend/app/services/auth_service.py:569-579 | A token no longer stored is never accepted again in any run. |
| RefreshRuns.TwoRotationsMakeStale | backend/app/services/auth_service.py:632-635 | After two rotations of its session a token is stored nowhere. |
| RefreshRuns.GraceRetryLocksOut | backend/app/services/auth_service.py:624-630 | The retry returns the presented token; using it after the minute is answered as theft and revokes the session. |
| RefreshRuns.SuccessNeedsRecentRenewal | backend/app/services/auth_service.py:617-636 | Every success at time t has a creation or refresh rotation of that session no earlier than t minus the lifetime. |
| LoginLockout.AccountRow.Fail | backend/app/services/auth_service.py:204-222 | A failure is counted and locks the account from the threshold on. |
| LoginLockout.AccountRow.TryLogin | backend/app/services/auth_service.py:288-353 | Lock, disabled, wrong password, not active, tenant suspended or success, in that order, with the counter's new state. |
| LoginLockout.LoginSucceedsIff | backend/app/services/auth_service.py:288-353 | A login succeeds if and only if the account is not locked and active, the password right and the tenant running; it clears counter and lock. |
| LoginLockout.LoginFailsIff | backend/app/services/auth_service.py:319-331 | An attempt is counted if and only if the account is neither locked nor disabled and the password is wrong or the account not yet active; it locks from the threshold on. |
| LoginLockout.LoginRefusals | backend/app/services/auth_service.py:288-350 | Locked, disabled and suspended are told apart and change nothing. |
| LoginLockout.LockoutRate | backend/app/services/auth_service.py:204-353 | In any span T without a success at most N + floor(T/L) failing attempts reach the counter, whatever state the account starts in. |
| LoginLockout.LockoutRateReached | backend/app/services/auth_service.py:204-353 | The bound is reached by a persistent guesser, for every N, L and T. |
| MotionGating.MotionGate.constructor | anpr-worker/edge/motion_gate.py:68-79 | The gate starts warming up, or inactive when there is no warm-up. |
| MotionGating.MotionGate.ProcessMeasurement | anpr-worker/edge/motion_gate.py:93-153 | One frame through the machine, including the three rejected measurements and what state each leaves. |
| MotionGating.QualifiesIff | anpr-worker/edge/motion_gate.py:98-104 | A frame qualifies if and only if it has foreground and that covers the configured ratio. |
| MotionGating.DecisionReports | anpr-worker/edge/motion_gate.py:105-153 | A decision reports the phases before and after, becoming active with the window and inactive on the first quiet frame. |
| MotionGating.GateRefinesDefinition | anpr-worker/edge/motion_gate.py:93-153 | For every frame sequence a window opens at frame t if and only if t is the first frame since the gate went idle that ends k qualifying frames; the window is those k frames, numbered in order. |
| MotionGating.WindowsSpaced | anpr-worker/edge/motion_gate.py:116-152 | The next window starts at least cooldown + 2 frames after the previous trigger. |
| MotionGating.WindowRate | anpr-worker/edge/motion_gate.py:75-153 | W windows in N frames satisfy W(k + cooldown + 1) <= N - warmup + cooldown + 1. |
| TrackLifecycle.IouFacts | anpr-worker/edge/vehicle_tracker.py:260-266 | Overlap is symmetric, within 0 and 1, and 1 only for equal boxes. |
| BoxOverlap.IouIsByPixels | anpr-worker/edge/vehicle_tracker.py:260-266 | For every two boxes the overlap is the number of shared pixels over the number of covered ones. |
| BoxOverlap.RelocatedIsByDistance | anpr-worker/edge/vehicle_tracker.py:251-257 | A box counts as moved if and only if its centre is at least the ratio of the old diagonal away. |
| BoxOverlap.SightingReports | anpr-worker/edge/vehicle_tracker.py:195-207 | A new track is reported as entering, a known one as relocated if and only if it moved. |
| BoxOverlap.ReadingCounts | anpr-worker/edge/vehicle_tracker.py:212-222 | A reading counts if and only if it is accepted, has a text and a confidence, and overlaps some track. |
| TrackLifecycle.TrackFor | anpr-worker/edge/vehicle_tracker.py:241-248 | A candidate goes to the first track of largest overlap, and to none if none overlaps. |
| TrackLifecycle.TrackStateManager.constructor | anpr-worker/edge/vehicle_tracker.py:179-186 | Starts empty with the given limit and relocation test. |
| TrackLifecycle.TrackStateManager.SeeTracks | anpr-worker/edge/vehicle_tracker.py:195-210 | The first loop enters new tracks, reports relocations and refreshes every track in the frame. |
| TrackLifecycle.TrackStateManager.PlaceReadings | anpr-worker/edge/vehicle_tracker.py:212-230 | The second loop credits accepted readings and reports texts new to the lifespan. |
| TrackLifecycle.TrackStateManager.ExpireTracks | anpr-worker/edge/vehicle_tracker.py:232-237 | The third loop removes the absent tracks past the limit and reports their exits. |
| TrackLifecycle.TrackStateManager.ProcessUpdate | anpr-worker/edge/vehicle_tracker.py:188-238 | One update is the three phases in order, and returns exactly the events it added. |
| TrackRuns.UpdateKeepsAgree | anpr-worker/edge/vehicle_tracker.py:188-238 | One update extends a legal history legally and keeps every live state equal to what the history says of it. |
| TrackRuns.RunIsLegal | anpr-worker/edge/vehicle_tracker.py:188-238 | Over every run: entering only when not live, all else only while live, a text reported at most once per lifespan and every accepted one reported, the exit plate the earliest accepted one of greatest confidence. |
| TrackRuns.EntriesSeparated | anpr-worker/edge/vehicle_tracker.py:197-202 | Two entries of one track have an exit between them. |
| TrackRuns.ReportsSeparated | anpr-worker/edge/vehicle_tracker.py:226-230 | Two reports of one plate for one track have an exit between them. |
| TrackRuns.EventsInsideLifespans | anpr-worker/edge/vehicle_tracker.py:195-237 | Every relocation, plate and exit has an entry before it with no exit since. |
| TrackRuns.UpdateAt | anpr-worker/edge/vehicle_tracker.py:195-237 | After an update a track is live if and only if it is in the frame or was live and is absent no longer than the limit; it leaves exactly when it stops being live. |
| TrackRuns.LiveExactly | anpr-worker/edge/vehicle_tracker.py:195-237 | After every run with advancing frame numbers the live tracks are exactly those seen within the limit, each with the frame and position of its last sighting. |
| TrackRuns.ExitFiresExactly | anpr-worker/edge/vehicle_tracker.py:232-237 | An exit fires at the first update where the absence exceeds the limit and at no other. |
| TrackRuns.NoneOlderThanLimit | anpr-worker/edge/vehicle_tracker.py:232-237 | No surviving state is older than the limit. |
| TrackRuns.EntriesMinusExits | anpr-worker/edge/vehicle_tracker.py:195-237 | Entries minus exits is the number of live states, after every run. |
| CameraPipeline.UpdateExtends | anpr-worker/edge/vehicle_tracker.py:188-238 | An update only adds to the history; only tracks absent from the frame leave. |
| FrameReports.EventsArePlaced | anpr-worker/edge/vehicle_tracker.py:195-237 | Every event of every update gives the box listed in the frame, or for an exit the box last seen. |
| FrameReports.EntrySends | anpr-worker/edge/camera_processing_service.py:312-329 | An entry sends one detection of this frame and becomes the cause to name. |
| FrameReports.RelocationSends | anpr-worker/edge/camera_processing_service.py:290-299 | A relocation sends this frame, the newest crop and the detection of the lifespan. |
| FrameReports.PlateSends | anpr-worker/edge/camera_processing_service.py:361-385 | A plate that is sent carries its text and names the detection, and changes nothing else. |
| FrameReports.CropIsFirst | anpr-worker/edge/camera_processing_service.py:266-268 | The crop of a detection is the first candidate cut from it, if there is one. |
| FrameReports.CropsAreNewest | anpr-worker/edge/camera_processing_service.py:260-270 | After a frame each track holds its newest crop of the frame, or the one it had. |
| FrameReports.CropIsTaken | anpr-worker/edge/camera_processing_service.py:260-270 | A track whose detection has a candidate holds a crop of this frame. |
| PipelineSync.FrameKeepsSync | anpr-worker/edge/camera_processing_service.py:257-302 | Every frame keeps the tables in step with the tracker and sends only what may be sent at that point of each lifespan. |
| PipelineSync.ExitShowsLastSighting | anpr-worker/edge/camera_processing_service.py:290-302 | Exit evidence names the detection of the lifespan it ends and the frame the track was last seen in. |
| PipelineSync.PlateNamesItsDetection | anpr-worker/edge/camera_processing_service.py:333-385 | Every plate event sent names a detection of the same track with no exit of that track in between. |
| PipelineSync.EvidenceNamesItsDetection | anpr-worker/edge/camera_processing_service.py:290-302 | Relocation and exit evidence always has a frame and names the detection of the current lifespan. |
| PipelineSync.PlateSentIff | anpr-worker/edge/camera_processing_service.py:333-349 | A recognised plate is sent if and only if an accepted reading of that text was cut from the track's own detection; the causing detection is never missing. |
| PipelineSync.ConfirmedMeans | anpr-worker/edge/camera_processing_service.py:333-339 | A plate is confirmed if and only if an accepted reading of exactly that detection has that text. |
| PipelineSync.TrackedVehicleGetsItsReading | anpr-worker/edge/vehicle_tracker.py:241-248 | A reading of a tracked vehicle goes to that vehicle when no two tracks share a box. |
| SkippedPlates.ReportSentIff | anpr-worker/edge/camera_processing_service.py:333-349 | In every run a reported plate is sent if and only if an accepted reading of that text was cut from the track's own detection. |
| SkippedPlates.SkippedPlateStaysUnsent | anpr-worker/edge/camera_processing_service.py:271-349 | In every run a plate reported but unconfirmed in its frame is sent for that track by no later event or frame until the track's exit has been sent. |
| SkippedPlates.BorrowedPlateIsLost | anpr-worker/edge/camera_processing_service.py:333-349 | A run from the start in which a reading of an untracked, overlapping vehicle is reported for the track, a later frame reads the track's own plate, and no plate is ever sent. |
| CameraProcessing.AlwaysSynced | anpr-worker/edge/camera_processing_service.py:197-302 | After every run of frames the tables agree with the tracker and everything sent is in order in each lifespan of each track. |
| CameraProcessing.TablesAgree | anpr-worker/edge/camera_processing_service.py:257-302 | After every frame the detection table and the frame table have the tracker's domain, and the crop table no more. |
| CameraProcessing.CameraProcessingService.constructor | anpr-worker/edge/camera_processing_service.py:135-144 | The service starts with empty tables and an empty tracker. |
| CameraProcessing.CameraProcessingService.NoteTracks | anpr-worker/edge/camera_processing_service.py:260-270 | Every tracked vehicle gets this frame, and its newest crop if it has one. |
| CameraProcessing.CameraProcessingService.FindReading | anpr-worker/edge/camera_processing_service.py:333-339 | True if and only if an accepted reading of that detection has that text. |
| CameraProcessing.CameraProcessingService.EmitIngestEvent | anpr-worker/edge/camera_processing_service.py:273-349 | One lifecycle event: what is sent, and what is entered into or removed from the tables. |
| CameraProcessing.CameraProcessingService.ProcessFrame | anpr-worker/edge/camera_processing_service.py:197-302 | One frame is the tracker's update, the notes and the emissions in order; the domains agree afterwards. |
| EventSpool.CameraEventQueue.constructor | anpr-worker/edge/camera_event_queue.py:34-45 | An empty queue whose cap is at least one. |
| EventSpool.CameraEventQueue.Put | anpr-worker/edge/camera_event_queue.py:47-74 | A blank id is refused, a known one ignored, a new one inserted and the oldest rows above the cap dropped. |
| EventSpool.CameraEventQueue.DueEvents | anpr-worker/edge/camera_event_queue.py:76-82 | The due rows, oldest first, up to the limit. |
| EventSpool.DueFacts | anpr-worker/edge/camera_event_queue.py:76-82 | Due rows are rows of the table in order and all due; a due row is left out only when the limit was used up by older ones. |
| EventSpool.CameraEventQueue.MarkAttempt | anpr-worker/edge/camera_event_queue.py:84-88 | Counts the attempt and puts the row off; an absent row changes nothing. |
| EventSpool.CameraEventQueue.Delete | anpr-worker/edge/camera_event_queue.py:90-92 | Removes the row and no other. |
| EventSpool.ApplyKeepsInv | anpr-worker/edge/camera_event_queue.py:47-112 | Every operation keeps: unique event ids, ids in order, the cap, the ledger, and evicted rows older than all queued ones. |
| EventSpool.BooksBalance | anpr-worker/edge/camera_event_queue.py:47-112 | Over every interleaving each row ever inserted is queued, delivered, rejected or evicted, and the counts add up. |
| EventSpool.FateIsFinal | anpr-worker/edge/camera_event_queue.py:47-112 | A row that left the queue keeps the reason it left for. |
| EventSpool.EnqueueShape | anpr-worker/edge/camera_event_queue.py:103-112 | An insert evicts at most one row, the oldest, and only when the queue is full. |
| EventSpool.InsertKeepsNewEvent | anpr-worker/edge/camera_event_queue.py:60-112 | A new event is never the one its own insert evicts. |
| IngestDelivery.Deliver | anpr-worker/edge/camera_ingest_client.py:222-281 | Within max_attempts posts under one idempotency key; delivered if and only if acknowledged; retryable only after all attempts; the sleeps add up to at most (posts - 1) times retry_max, and without Retry-After to at most base x 2^(posts - 1) - base; the final assertion is unreachable. |
| IngestDelivery.TimesIsProduct | anpr-worker/edge/camera_ingest_client.py:283-294 | Repeated addition of the cap is its product with the number of sleeps. |
| IngestDelivery.PostsUnique | anpr-worker/edge/camera_ingest_client.py:231-281 | The answers determine the number of posts. |
| IngestDelivery.AnswerAmountsTo | anpr-worker/edge/camera_ingest_client.py:247-279 | Which answers deliver, which may be tried again and which are final. |
| IngestDelivery.SleptBound | anpr-worker/edge/camera_ingest_client.py:283-294 | n back-offs sleep at most n times retry_max, counted by repeated addition. |
| IngestDelivery.SleptExponential | anpr-worker/edge/camera_ingest_client.py:283-294 | Without a readable Retry-After (section 10.2.3 of RFC 9110) they sleep at most base x 2^n - base. |
| IngestDelivery.DoubledIsProduct | anpr-worker/edge/camera_ingest_client.py:293 | Doubling the base n times is multiplying it by 2^n, as the source writes it. |
| IngestDelivery.QueueDelayGrows | anpr-worker/edge/camera_ingest_client.py:135-139 | Queue delays are positive, never shrink with attempts and stay within 300 s. |
| IngestDelivery.BackoffIs | anpr-worker/edge/camera_ingest_client.py:283-294 | The pause is what Retry-After asks for within zero and the cap, or the base doubled per attempt up to the cap. |
| IngestDelivery.QueueDelayIs | anpr-worker/edge/camera_ingest_client.py:135-138 | The delay doubles per attempt, eight times at most, up to 300 s. |
| IngestDelivery.FlushCount | anpr-worker/edge/camera_ingest_client.py:120-142 | A flush finds each due row still there and removes all but those put off. |
| IngestDelivery.FlushPending | anpr-worker/edge/camera_ingest_client.py:114-144 | Every due row is delivered once in order, every post of it under its own event id; attempted = delivered + discarded + put off, and remaining balances. |
| RetrySchedule.SettledRow | anpr-worker/edge/camera_event_queue.py:84-92 | Settling a row does to it what the outcome says and to no other row anything. |
| RetrySchedule.SettledFate | anpr-worker/edge/camera_ingest_client.py:131-142 | A delivered row is entered as delivered, a discarded one as rejected. |
| RetrySchedule.FlushPutsOff | anpr-worker/edge/camera_ingest_client.py:134-139 | After a flush each row put off has one attempt more and is not due before its delay is over. |
| RetrySchedule.FlushRemoves | anpr-worker/edge/camera_ingest_client.py:131-142 | Rows delivered or discarded are gone. |
| RetrySchedule.FlushSparesRest | anpr-worker/edge/camera_ingest_client.py:120-142 | Rows that were not due are unchanged. |
| RetrySchedule.FlushBalances | anpr-worker/edge/camera_ingest_client.py:114-144 | A flush enters in the ledger exactly as many deliveries and rejections as it reports. |
| RetrySchedule.RetriesSpaced | anpr-worker/edge/camera_ingest_client.py:120-139 | Over every run of inserts and flushes a row found again has waited at least the delays of all its retries in between. |
| RetrySchedule.RetryTimes | anpr-worker/edge/camera_ingest_client.py:120-139 | Two flushes that try one row, k retries apart, are at least the sum of the k delays apart. |
| IngestDelivery.Send | anpr-worker/edge/camera_ingest_client.py:89-112 | An event is queued, under its own id, if and only if every attempt failed in a way that may pass. |
| GateCommands.StepKeepsInv | backend/app/services/command_service.py:52-129 | Every step keeps one live row per key, messages in issue order without repeats, and an acknowledgement time exactly on answered rows. |
| CommandRuns.AlwaysInv | backend/app/services/command_service.py:52-129 | The invariant holds after every step of every interleaving. |
| CommandRuns.MessagesInOrder | backend/app/realtime/mqtt_bridge.py:378-389 | Under any interleaving published commands are a subsequence of issue order without repeats, and each key has one row. |
| CommandRuns.OneMessagePerKey | backend/app/services/command_service.py:52-101 | Two messages share a key only when the issue of the earlier one was rolled back. |
| CommandRuns.OneMessagePerKeyWithoutAborts | backend/app/services/command_service.py:52-101 | Without rolled-back issues each key has at most one message, ever. |
| GateCommands.IssuePushesIff | backend/app/services/command_service.py:41-100 | A valid request pushes a message, with a row that times out after 15 s, if and only if every command pushed under its key before was rolled back, and otherwise changes nothing. |
| GateCommands.RejectedIssue | backend/app/services/command_service.py:41-50 | An unsupported command or unknown gate changes nothing and is told apart. |
| GateCommands.ContendedIssue | backend/app/services/command_service.py:78-79 | A key held by an open transaction makes the request wait. |
| GateCommands.PublishTakesOldest | backend/app/realtime/mqtt_bridge.py:381-389 | The oldest message leaves the outbox and is published if and only if the broker takes it. |
| GateCommands.TransactionEnds | backend/app/services/command_service.py:78-100 | A commit makes the row visible, a rollback drops it; the message stays either way. |
| CommandRuns.KeyRepeatsIff | backend/app/services/command_service.py:52-98 | In every reachable state a key already used is pushed again if and only if all its commands were rolled back. |
| GateCommands.RolledBackIssueRepeats | backend/app/services/command_service.py:78-98 | Whenever an open issue is rolled back and its request retried, the command is pushed a second time under the same key. |
| CommandRuns.NeverBackToSent | backend/app/services/command_service.py:103-129 | A committed row never disappears, changes identity or returns to SENT. |
| GateCommands.ReissueIsReplay | backend/app/services/command_service.py:52-61 | A repeated issue pushes nothing and returns the original, or a conflict for a different request. |
| GateCommands.SweepLeavesNoneOverdue | backend/app/services/command_service.py:117-129 | After a sweep no row is both SENT and overdue; the others are untouched. |
| GateCommands.AckCountsIff | backend/app/services/command_service.py:103-114 | An acknowledgement is kept if and only if the command was committed by then. |
| CommandRuns.CommittedIff | backend/app/services/command_service.py:78-100 | A row is visible if and only if its transaction committed at an earlier step. |
| CommandRuns.FinalStatus | backend/app/services/command_service.py:103-129 | In every interleaving a committed command is answered as its last acknowledgement after the commit said; without one it is timed out if and only if a later sweep passed its deadline, and else still sent. |
| CommandRuns.AnsweredIff | backend/app/services/command_service.py:103-112 | It counts as answered if and only if some acknowledgement came after its commit. |
| GateCommands.EarlyAckIsLost | backend/app/services/command_service.py:78-109 | A command acknowledged before its commit ends as timed out. |
| GateCommands.MessageMayOutrunCommit | backend/app/services/command_service.py:78-98 | From every state with an empty outbox a new command can be published while its transaction is open. |
| GateCommands.CommandTable.IssueCommand | backend/app/services/command_service.py:41-100 | Unsupported, unknown gate, conflict, replay, contention or a new row with its message, in that order. |
| GateCommands.CommandTable.MarkCommandAck | backend/app/realtime/mqtt_bridge.py:77-86 | Sets status and time on a committed row; an unknown id changes nothing. |
| GateCommands.CommandTable.PublishNext | backend/app/realtime/mqtt_bridge.py:381-389 | Takes the oldest message; one that cannot be published is dropped. |
| GateCommands.CommandTable.ExpireStaleCommands | backend/app/services/command_service.py:117-129 | The loop times out exactly the overdue SENT rows and counts them. |
| Pricing.OvernightCrossings | backend/app/services/pricing_service.py:33-59 | The loop returns the number of daily windows, over all integer days, that meet the stay. |
| Pricing.OneDayBackSuffices | backend/app/services/pricing_service.py:45 | Starting one day back misses no window. |
| Pricing.CrossingsSplit | backend/app/services/pricing_service.py:33-59 | Splitting a stay adds between 0 and 1 crossings. |
| Pricing.FeeMonotone | backend/app/services/pricing_service.py:84-116 | A stay contained in another never costs more, and no fee is negative, with or without cap, grace and surcharge. |
| Pricing.OvernightOnTop | backend/app/services/pricing_service.py:106-114 | Past the grace the overnight rate is added once for every overnight window, in the site's own time, that the stay meets. |
| Pricing.TouchesIsSharing | backend/app/services/pricing_service.py:54-57 | A window meets a stay if and only if they share an instant. |
| Pricing.NightByTheClock | backend/app/services/pricing_service.py:47-53 | An instant is in some overnight window if and only if the clock is between the two hours, past midnight when the end is not later. |
| Pricing.CapOnTop | backend/app/services/pricing_service.py:102-104 | With a daily rate the fee is the lesser of the charge and the rate for every started 24 hours. |
| Pricing.ChargeIsLeast | backend/app/services/pricing_service.py:97-100 | The charge is the least amount that covers every started block at the hourly rate. |
| Pricing.FreeOrUnpriced | backend/app/services/pricing_service.py:84-91 | Not estimable exactly without a rate; free up to and including the grace. |
| Pricing.BlockChargeBounds | backend/app/services/pricing_service.py:97-100 | The block charge is at least hourly x minutes / 60 and less than hourly x (minutes + block) / 60 + 1. |
| Pricing.FeeSplit | backend/app/services/pricing_service.py:89-114 | Without grace and cap, two parts cost at least the whole and at most one block charge, one unit and one surcharge more. |
| StaySplitting.NeverSavesIff | backend/app/services/pricing_service.py:84-116 | For every rule set: no stay at any time and offset is cheaper in two parts if and only if there is no grace period with something to charge and no daily cap that some blocks and days undercut. |
| StaySplitting.GraceSplitSaves | backend/app/services/pricing_service.py:89-91 | Under every rule set with a grace period and any charge, a stay of twice the grace is cheaper in halves. |
| StaySplitting.CapSplitSaves | backend/app/services/pricing_service.py:102-104 | Under every cap that n blocks and m days undercut, that stay is cheaper cut between them. |
| StaySplitting.CapUndercutsIff | backend/app/services/pricing_service.py:97-104 | For blocks that divide a day the cap is undercut if and only if it lies strictly between one block's price and 24 hourly rates. |
| StaySplitting.CapUndercutsBounded | backend/app/services/pricing_service.py:97-104 | For every block size up to 1440 blocks and as many days as the block has minutes decide it. |
| StaySplitting.PerBlockPriceIff | backend/app/schemas/resources.py:159-163 | For every rate, block size and number of blocks, they cost the rate each if and only if 0 <= n x rate x (60 - block) < 60. |
| StaySplitting.RateIsPerBlockIff | backend/app/schemas/resources.py:159-163 | Any number of blocks costs the configured rate each, for every rate, if and only if a block is 60 minutes. |
| StaySplitting.CapIsPerWindowIff | backend/app/schemas/resources.py:159-163 | Capping the whole stay never costs less than capping each 24 hours, and the same in exactly three cases. |
| AccessRecording.PaidExit | backend/app/services/event_service.py:77-114 | The newest unused, paid session payment of that tenant, plate and site inside the grace window, or none exists. |
| AccessRecording.LatestEvent | backend/app/services/event_service.py:55-66 | The newest event of the plate under either spelling, whatever was decided. |
| AccessRecording.AccessLog.RecordAccessEvent | backend/app/services/event_service.py:252-307 | One call appends the event, moves the counter and stamps the payment as the record function says. |
| AccessDecisions.AllowedIff | backend/app/services/event_service.py:125-232 | Every request: let through if and only if it has a plate, does not repeat, and the first rule to speak allows it or, with none, the vehicle is registered, not blacklisted, active and valid, or its exit is paid for. |
| AccessDecisions.RuleDecides | backend/app/services/event_service.py:200-221 | When rules match, the matching rule of smallest index decides, by its name. |
| AccessDecisions.FirstRuleIsFirst | backend/app/services/event_service.py:200-221 | The rule used is the first open allow or deny rule for everybody, the tag or the plate. |
| AccessDecisions.ListDecides | backend/app/services/event_service.py:171-232 | With no rule to speak the vehicle list and then the payment decide, and anti-passback may refuse. |
| AccessDecisions.BlacklistNeedsRule | backend/app/services/event_service.py:175-198 | Only an allow rule lets a blacklisted vehicle through, whatever it has paid. |
| AccessDecisions.RefusalReasons | backend/app/services/event_service.py:171-184 | Which reason a refusal gives. |
| AccessDecisions.NoPlateRefused | backend/app/services/event_service.py:125-126 | Without a plate every request is refused. |
| AccessDecisions.PaidForIsFound | backend/app/services/event_service.py:101-114 | An exit is paid for if and only if an unused, paid session payment of that tenant, plate and site inside the grace exists. |
| AccessDecisions.RecordedAs | backend/app/services/event_service.py:255-273 | What is recorded: the decision or the operator's, for that plate, site and direction, dated as given or now. |
| AccessDecisions.StampsIff | backend/app/services/event_service.py:297-307 | Recording uses up a payment if and only if the exit is recorded as paid, with plate and site, and some payment covers it. |
| AccessRecording.AccessLog.MoveOccupancy | backend/app/services/event_service.py:274-293 | Only an allowed entry or exit at the tenant's own site moves that site's counter, within its limits. |
| AccessRecording.AccessLog.StampPayment | backend/app/services/event_service.py:297-307 | Only a paid exit stamps, and at most the one payment found. |
| AccessRecording.PaidExitHasPayment | backend/app/services/event_service.py:186-232 | A paid exit is only decided from an eligible payment. |
| AccessRecording.PaidExitConsumesOne | backend/app/services/event_service.py:294-307 | Each unforced paid exit uses up exactly one eligible payment; other unforced records use none. |
| AccessRecording.LateRecordConsumesIff | backend/app/services/event_service.py:297-307 | A record made later uses up a payment if and only if an eligible one is still there. |
| AccessRecording.PaidExitsNeverOutnumberPayments | backend/app/services/event_service.py:186-307 | Over every sequential run unforced paid exits never outnumber payments; decisions alone use none. |
| AccessRecording.RacingExitsShareAPayment | backend/app/services/event_service.py:196-305 | For every database with one eligible payment, two decisions before either record let two exits out on it. |
| ExitRaces.ExitsAreBounded | backend/app/services/event_service.py:186-307 | Over every interleaving of decide and record steps, unforced paid exits are at most the payments used up plus the records that found none eligible. |
| ExitRaces.ExitsBalance | backend/app/services/event_service.py:186-307 | Without forced calls the two are equal: nothing else uses up a payment. |
| AntiPassback.PassbackHoldsIff | backend/app/services/event_service.py:55-74 | A call refuses if and only if some recent allowed event of the vehicle was stored under a compared spelling and no newer one under them was refused or went another way. |
| AntiPassback.OtherSpellingIsMissed | backend/app/services/event_service.py:59-61 | With no event under the given spelling or its normal form nothing is refused. |
| AntiPassback.TwoSpellingsBothPass | backend/app/services/event_service.py:59-61 | A vehicle just allowed under one spelling and asking at once under another, new one is let through again. |
| AntiPassback.SpellingsOfOnePlate | backend/app/services/event_service.py:16-17 | Two such spellings of one plate. |
| AntiPassback.RefusedAttemptResetsPassback | backend/app/services/event_service.py:55-74 | Whenever anti-passback refuses a vehicle, the same request made again at once is allowed. |
| AntiPassback.RepeatsAreSeparated | backend/app/services/event_service.py:55-74 | Over every run with a clock that does not run back: between two allowed events of a vehicle under compared spellings, in one direction and inside the window, it was refused or recorded in another direction. |
| AntiPassback.WindowDecides | backend/app/services/event_service.py:49-54 | Every decision depends only on the whole number the window setting stands for. |
| AntiPassback.FractionIsCut | backend/app/services/event_service.py:50 | A fractional window is cut toward zero. |
| AntiPassback.ZeroWindowIsFive | backend/app/services/event_service.py:50 | With a configured window of 0 every decision is the one a window of 5 gives. |
| AntiPassback.PassbackOffIff | backend/app/services/event_service.py:47-54 | No request is ever refused if and only if the check is disabled or the window is a negative number, a fraction below one other than 0, or a text that reads as 0 or less. |
| Occupancy.WalkInRange | backend/app/services/event_service.py:282-291 | After any event the counter lies between 0 and its ceiling. |
| Occupancy.WalkIsReflected | backend/app/services/event_service.py:275-291 | While the ceiling is not reached the counter is the largest of start plus sum and every tail sum. |
| Occupancy.WalksConverge | backend/app/services/event_service.py:275-291 | Two counters fed the same events keep their order and their gap never grows. |
| Occupancy.OccupancyIsWalk | backend/app/services/event_service.py:274-293 | After every run a site's stored occupancy is that walk over its own allowed entries and exits. |
| Occupancy.OccupancyIsHeadcount | backend/app/services/event_service.py:274-293 | In every run in which the count stays within the limits, a site's stored occupancy is the start plus its recorded allowed entries minus its recorded allowed exits. |
| Occupancy.CounterMoves | backend/app/services/event_service.py:274-293 | An allowed entry adds one up to the limit, an allowed exit takes one away down to zero, nothing else moves the counter. |

## Left out

- Concurrency beyond what a lemma says: each service call is one atomic step with one clock reading; gate
  commands take two steps because their message leaves before the commit.
- Hashing and randomness: digests are injective, drawn tokens and event identifiers are new; password,
  TOTP and recovery-code checks are inputs.
- Floating point and time zones: fees use exact integers of microseconds at a fixed UTC offset, so
  daylight-saving changes are not covered; tracker and retry arithmetic uses exact reals.
- TrackLifecycle.TrackStateManager.SeeTracks: relocation is compared squared, without roots; the
  candidate plate and first-seen time, which nothing reads, are not kept.
- Prelude.NormalizeIdempotent: covers ASCII case mapping only.
- Occupancy.WalkInRange: does not model the database refusing an integer beyond 32 bits.
- AccessRecording.AccessLog.RecordAccessEvent: takes rules in priority order with their schedules already
  evaluated, and leaves out closing the parking presence and the driver hint; an infinite number in a
  window setting, which raises, cannot be stored in JSON and is not modelled.
- RefreshTokens.SessionTable.CreateSession: leaves out device fingerprints and risk scoring; user types
  share one id space, and password changes act as revoking all sessions of a user.
- LoginLockout.AccountRow.TryLogin: starts from a known account; alerts, audit rows and the staged MFA
  session are left out.
- MotionGating.MotionGate.ProcessMeasurement: leaves out the log-only fields of a decision.
- EventSpool.CameraEventQueue.constructor: starts from an empty file, not from one holding more rows than
  the cap; the payload of a row is not modelled.
- EventSpool.CameraEventQueue.Put: takes the event id already stripped of blanks.
- IngestDelivery.SleptBound: a Retry-After of NaN is not modelled.
- IngestDelivery.Send: assumes the queue is enabled, no dry run and readable snapshot files.
- CameraProcessing.CameraProcessingService.ProcessFrame: takes detections, tracks and readings as given;
  storing observations and snapshots is assumed not to fail, and the barrier call after a plate is left out.
- GateCommands.CommandTable.IssueCommand: assumes the outbox push succeeds.
- The vendored detectors, OpenCV, ByteTrack and OCR; heartbeats; WebSocket frames; storage; the web,
  desktop and mobile clients; schemas, configuration and seeds.
- Parking presence, memberships, wallets and the payment provider: lists of rows with little logic, or
  code that is not part of this model.
- The barrier controller, driver profiles and plate-box clamping: single-step checks.
- AccessRecording.LatestEvent: of two events at one instant the later row counts as newer; the query leaves
  such ties open.
- StaySplitting.CapUndercutsIff: the closed form is for block sizes that divide a day; for the others the
  search of `StaySplitting.CapUndercutsBounded` decides.
- StaySplitting.CapIsPerWindowIff: covers block sizes that divide a day; otherwise a block straddles two
  windows and the profile's text does not say which one pays for it.
