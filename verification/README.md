# Pingward, modelled and proved

Pingward watches scheduled jobs: each check expects pings, a scanner raises an alert when they
stop, and a small web application shows histories and manages sessions. This project models seven
parts of it in Dafny and proves what they promise over all inputs and all runs.

| files | part |
|---|---|
| `RateLimit`, `RateLimitRuns`, `RefundRuns` | the login limiter: a capped, pruning map of fixed windows with a shared overflow bucket |
| `Checks`, `CheckStore`, `CheckTable`, `Incidents`, `CheckHistory`, `View` | the check state machine, the code that rewrites the checks table, the trace of Down, Up and Reminder events, the row told from its run, and the status the pages show |
| `Timestamps`, `Keyset`, `Filters`, `Paging`, `Walks` | stored timestamps as text, the query builder, its filters, pages, and walks over a table that changes |
| `Sessions`, `SessionRuns`, `Elevations`, `Handlers`, `HandlerEffects` | session lifetime, pruning, password confirmations, and the handlers that open and end sessions |
| `Markdown`, `MarkdownSafety`, `MarkdownInline`, `MarkdownBlocks`, `MarkdownText` | the description renderer, the tag language its output stays in, and what lines and whole descriptions become |
| `Duration`, `DurationText`, `CheckForms` | durations as text, the language they are written in, and the check form |
| `RunPairing`, `ProxyTrust` | run durations from start and finish pings; trusted-proxy prefixes |
| `Options`, `Clock`, `Models`, `Whitespace`, `Sets` | shared vocabulary |

How the model is laid out. Code that changes rows, maps or buffers is a class or a method with a
loop; each is tied by its `ensures` to a function of the old state, and the run-level lemmas are
about those functions. A run is a sequence of steps; time is a number of nanoseconds that never
decreases along a run, passed to each step. The table model of `CheckTable` composes the per-check
machine: `ScanOnce`, `NagOnce`, the ping handler and the buttons each prove the transition relation
`Next`, and `TableRunProjects` turns a run of the table into a run of each check. Beside the functions
that follow the code stand laws that do not mention them: deadlines in plain arithmetic on a row or on
a run (`CheckHistory`), counts from the history of calls (`RefundRuns`), guards and effects of each
handler on rows and windows (`HandlerEffects`), layouts, languages and grammars for the texts.

What the proofs showed about the code, besides the promises that hold:

- A schedule edit leaves `next_due_at` as the last success wrote it, so the page's "late" window can
  disagree with the scanner until the next success (`EditCanDesync`); for a period schedule it stays
  right exactly when period plus grace is unchanged, for an unchanged cron expression exactly when the
  grace is (`PeriodEditKeepsDueIff`, `CronEditKeepsDueIff`).
- Past its deadline and before the next scan, a check is shown up, not late (`LifeAfterSuccess`).
- With a zero-second window the limiter admits every attempt, with any other it refuses some
  (`ZeroWindowAdmitsAll`, `RefusesIff`). Configured windows are positive.
- The page flag towards the cursor is set without a query. A page is faithful exactly when some
  matching row lies at the cursor or on its far side (`FaithfulIff`): always when the displayed row
  the link was taken from is still there, and not when it and everything beyond were deleted
  (`StaleCursorMisleads`).
- Pruning sessions changes no lookup and no listing, only the number a bulk revocation reports, and
  that exactly when a pruned row would have been counted (`CountSurvivesPruneIff`).
- `open_session` reads the clock twice. A session is rewritten at most 18 times in its life, and 19
  times in some life exactly when the two readings are more than 18 nanoseconds apart
  (`RewritesBounded`, `RewritesReached`).
- Only the peer and bare addresses are made canonical, so a proxy pattern that names an IPv6 block
  inside the IPv4-mapped range trusts nobody; these are the only blocks with a fitting prefix that do
  not (`BlockTrustsSomebodyIff`).
- The heartbeat's window takes the rows of largest id, while runs are paired in order of time. The
  window's durations are those of the full history when ids follow time, which is exactly when every
  such window is the end of the display order (`WindowsBehindIff`). A ping takes its time before its
  row takes its id, so concurrent pings can disagree, and then a window can show a wrong duration
  (`WindowCanMislead`).
- An unchanged check form saves back unchanged if and only if the stored check is one the form could
  have stored (`ResubmitIff`); rows written through the form always are (`AcceptedIsNormal`).

## Model

| member | source | states |
|---|---|---|
| RateLimit.RateLimiter.constructor | src/ratelimit.rs:82-92 | a new limiter is empty and its overflow window opens at creation |
| RateLimit.RateLimiter.TryAcquire | src/ratelimit.rs:97-117 | pruning, capping, overflow and charging done in place give the buckets and the answer of one pure attempt |
| RateLimit.RateLimiter.GiveBack | src/ratelimit.rs:121-135 | a refund goes to the caller's own counter, or to the overflow bucket when it has none, and never below zero |
| RateLimit.RateLimiter.Drop | src/ratelimit.rs:141-147 | a clear forgets the key alone |
| RateLimitRuns.MapNeverExceedsCap | src/ratelimit.rs:97-147 | in every run of acquire, release and clear the map holds at most `max_entries` keys, and no counter is over its limit or starts in the future |
| RateLimitRuns.AdmissionBound | src/ratelimit.rs:59-117 | in every run of attempts, over all keys together, no half-open interval of one window admits more than twice (max_entries + 10) times max_attempts |
| RateLimitRuns.AcquirePaysForItself | src/ratelimit.rs:97-117 | each admitted attempt uses up a unit of the capacity left in the buckets, through pruning, new keys and overflow |
| RateLimitRuns.ZeroWindowAdmitsAll | src/ratelimit.rs:59-69 | a zero-second window refuses nobody |
| RateLimitRuns.RefusesIff | src/ratelimit.rs:59-117 | some run of calls is refused something if and only if the window is not zero seconds long |
| RateLimitRuns.ThrottledStaysThrottled | src/ratelimit.rs:97-117 | once a key has used its attempts, no attempts by anybody before its window ends reset its counter or let it in |
| RateLimitRuns.CappedRefinesUnbounded | src/ratelimit.rs:59-147 | while pruning frees a slot whenever one is needed, every answer of a run is that of a limiter without cap or pruning |
| RateLimitRuns.FirstOverflow | src/ratelimit.rs:97-117 | at the first attempt without room the unbounded limiter admits, and the capped one admits exactly when the overflow window has expired or has attempts left |
| RefundRuns.AdmittedIff | src/ratelimit.rs:59-117 | in a reachable state an attempt is admitted exactly when its own bucket is absent, past its window or below the limit, or, in a map full of running windows, when the shared bucket is past its window or below ten limits |
| RefundRuns.RefundUndoes | src/ratelimit.rs:97-135 | an admitted attempt and its refund cancel out: the count of a running window is what it was, a fresh bucket is gone, and a shared charge goes back to the shared bucket |
| RefundRuns.CountIsBalance | src/ratelimit.rs:97-147 | in every run a caller's count is its admitted attempts minus its refunds since the attempt that opened its window, and positive |
| RefundRuns.OthersUntouched | src/ratelimit.rs:121-147 | refunds and clears touch no other caller's bucket; a clear leaves none of its own |
| CheckStore.Store.InsertPing | src/store.rs:680-699 | adds one ping and changes no check |
| CheckStore.Store.MarkPing | src/store.rs:701-720 | writes status and deadline; absent timestamps keep the stored ones; a missing row changes nothing |
| CheckStore.Store.SetStatus | src/store.rs:722-729 | changes one row's status only |
| CheckStore.Store.BeginDownAlert | src/store.rs:733-744 | sets the alert baseline and withdraws the acknowledgement |
| CheckStore.Store.RecordReminder | src/store.rs:747-758 | moves the baseline and keeps the acknowledgement |
| CheckStore.Store.ClearNag | src/store.rs:761-767 | forgets baseline and acknowledgement |
| CheckStore.Store.Acknowledge | src/store.rs:770-776 | acknowledges whatever the status is |
| CheckStore.Store.UpdateCheckSchedule | src/store.rs:1506-1530 | replaces the schedule and leaves the stored deadline alone |
| CheckStore.Store.ListChecks | src/store.rs:645-678 | lists every row with a wanted status once, and no other |
| CheckStore.ApplyPing | src/ping.rs:178-291 | the stepwise rewriting from a snapshot gives exactly the row and events of the ping step; the ping is recorded even for a paused check; an unknown check changes nothing |
| CheckStore.ApplyExitCode | src/ping.rs:147-168 | a reported exit code moves the check as a success when zero and as a failure otherwise, and is stored with the ping |
| CheckStore.ScanOnce | src/scheduler.rs:65-110 | exactly the new and up checks that are overdue or overrun, in plain arithmetic on their rows, raise one Down each, with its cause, and go down; every other row is as it was, no event is about any other check, and no active check is left late |
| CheckStore.NagOnce | src/scheduler.rs:114-162 | exactly the down, unacknowledged checks whose own, project or global interval has passed since their baseline are reminded of, once each, and only their baseline moves; no event is about any other check |
| CheckStore.CheckPause | src/web.rs:3196-3204 | the owner pauses from any state without an event; anybody else changes nothing |
| CheckStore.CheckResume | src/web.rs:3206-3214 | sets the owner's check to New from any state without an event, and nothing else of it |
| CheckStore.CheckAck | src/web.rs:3216-3224 | the owner acknowledges in any state without an event |
| CheckStore.LoopInterval | src/scheduler.rs:166-180 | the loop sleeps for the smallest effective interval of the checks, at least one second |
| CheckStore.EffectiveScan | src/config.rs:194-210 | the first positive of the check, project and global settings decides, else the environment, and never less than one second |
| CheckTable.TableRunProjects | src/scheduler.rs:65-162 | every run of the whole table is, for each check, a run of that check alone: same row, same events |
| CheckTable.TableLedger | src/ping.rs:217-289 | the incident ledger of every check in every run of the whole table |
| CheckTable.RescanIsQuiet | src/scheduler.rs:65-110 | a second scan of the whole table at the same instant changes no row and emits no event at all |
| CheckHistory.RowIsHistory | src/ping.rs:217-291 | in every run the status, the times of the latest finish and start and the schedule of a row are told by the steps: the latest success or failure not sent to a paused check, the latest edit, and so on |
| CheckHistory.ScanAlarms | src/scheduler.rs:17-110 | a scan alerts exactly when a new or up check is period and grace past its latest finish or its creation, grace past the cron firing after that, or the limit past its unanswered start; the cause is the overrun if there is one; and it writes status, baseline and acknowledgement only |
| CheckHistory.ScanAlarmsRun | src/scheduler.rs:17-110 | the same told from the run alone |
| CheckHistory.NewCheckHasTime | src/scheduler.rs:17-46 | a check never pinged is left alone until period and grace have passed since its creation, and no longer |
| CheckHistory.SuccessStoresDeadline | src/ping.rs:219-239 | the deadline a success stores is the first instant at which the row is overdue |
| CheckHistory.PingEffects | src/ping.rs:212-289 | each ping, field by field and event by event, a paused check included |
| CheckHistory.NagReminds | src/scheduler.rs:114-162 | a nag reminds exactly when the first positive of the three intervals has passed since the baseline of a down, unacknowledged check |
| CheckHistory.OperatorEffects | src/web.rs:3196-3224 | pause, resume, acknowledge and edit change one field each and emit nothing |
| Incidents.Ledger | src/ping.rs:217-289 | Downs equal Ups plus pauses and resumes while down, plus one if down now |
| Incidents.EachUpClosesItsDown | src/ping.rs:219-262 | each Up, and each Reminder, has a Down before it with only reminders between |
| Incidents.BaselineIsLatestAlert | src/store.rs:733-758 | a reachable down check has its latest Down or Reminder as baseline, and an Up or Reminder always directly follows the incident it belongs to |
| Incidents.RemindersSpaced | src/scheduler.rs:128-160 | neighbouring alerts of an incident are at least the effective nag interval apart |
| Incidents.RemindersPerIncident | src/scheduler.rs:128-160 | an incident open for T seconds with intervals of at least n has at most T/n reminders |
| Incidents.NagExactly | src/scheduler.rs:114-162 | in a reachable state a nag pass reminds exactly when the check is down, unacknowledged, reminders are on and the interval has passed since the latest event |
| Incidents.IncidentStartsUnacknowledged | src/store.rs:733-744 | whatever was acknowledged before, a Down leaves the check unacknowledged with itself as baseline |
| Incidents.AckSilencesTheIncident | src/store.rs:770-776 | after an acknowledge every Reminder comes after a new Down, through any mix of steps |
| Incidents.TraceSplits | src/ping.rs:217-289 | the events after any step are the end of the trace, so what is said of them is said of the run |
| Incidents.QuietUntilDown | src/scheduler.rs:128-131 | until that Down there is no Reminder, and a down check stays acknowledged |
| Incidents.PausedIsSilent | src/ping.rs:213-216 | a paused check emits nothing and stays paused until somebody resumes it |
| Incidents.StoredDueIsCurrent | src/ping.rs:219-250 | in a run without schedule edits an Up check's stored deadline is what recomputing it gives |
| Incidents.EditKeepsDueIff | src/store.rs:1506-1530 | an edit keeps it so exactly when the new schedule gives the old deadline |
| Incidents.PeriodEditKeepsDueIff | src/store.rs:1506-1530 | for a period schedule, exactly when period plus grace is unchanged |
| Incidents.CronEditKeepsDueIff | src/store.rs:1506-1530 | for an unchanged cron expression and zone, exactly when the grace is unchanged |
| Incidents.StoredDueIsOfLastSuccess | src/store.rs:1506-1530 | in every run, edits included, an Up check stores the deadline of the schedule in force at its latest success; stored and recomputed agree exactly when that schedule and the present one give the same |
| Incidents.EditCanDesync | src/store.rs:1506-1530 | a concrete edit after which stored and recomputed deadlines differ |
| Incidents.ScanSettles | src/scheduler.rs:73-108 | a scan raises one Down for each check it changes, leaves none late, and does nothing when repeated at once |
| Incidents.SuccessSettles | src/ping.rs:219-250 | after a success no deadline is already past, if periods are positive and cron fires strictly later |
| View.RunningCountMatchesPages | src/store.rs:1839-1864 | the dashboard's running count, which compares stored texts, is the number of checks the pages show as running |
| View.ShownIs | src/view.rs:35-65 | each shown status from the fields of the row: paused and down first, then an unanswered start, and late only for an up check within its grace |
| View.RunningIffDeadline | src/view.rs:35-37 | a run is shown in flight exactly when the scanner has a deadline for it, for checks that limit their runs |
| View.LifeAfterSuccess | src/view.rs:42-65 | after a success and through logs, scans, nags and acknowledgements: shown up, then late through the grace, silent until a scan at or past the deadline raises the one Down, shown down from then on |
| View.RunHidesOnlyLateness | src/view.rs:42-65 | a run in flight hides lateness but not an alert |
| Timestamps.TextOrderIsTimeOrder | src/store.rs:71-72 | text order of stored timestamps is time order, with 0, 3, 6 or 9 fraction digits |
| Keyset.KeysetSql | src/store.rs:536-590 | the generated conditions with their binds hold exactly of the rows in scope that pass the filters and the cursor; placeholders are 1..n in order, one for each bind; the limit bind is one more than the page |
| Keyset.BindList | src/store.rs:536-590 | an IN list binds its values to consecutive placeholders |
| Filters.PingFilterMeans | src/store.rs:85-100 | a ping filter means: kinds unless none is chosen, and instants within the bounds |
| Filters.NotifFilterMeans | src/store.rs:120-144 | the same for events, delivery states and instants of notifications |
| Filters.AuditFilterMeans | src/store.rs:163-178 | the same for actor, action and instants of audit entries |
| Filters.PingHistorySql | src/store.rs:1621-1640 | the ping history statement selects exactly the check's pings of the chosen kinds and instants on the cursor's side, nearest to it first, one more than a page, with placeholders 1..n aligned to its binds |
| Paging.RowsToPage | src/store.rs:596-629 | dropping the extra row and reversing gives the page and its flags |
| Paging.KeysetPage | src/store.rs:519-629 | a page through generated SQL is the page of ids cut directly out of the matching set |
| Walks.FlagsExact | src/store.rs:596-629 | for a cursor taken from a displayed row the page is a slice of the listing and both flags are exact |
| Walks.FaithfulIff | src/store.rs:596-629 | for any cursor, displayed or not, the page is a slice of the listing with both flags exact if and only if a matching row lies at the cursor or on its far side |
| Walks.StaleCursorMisleads | src/store.rs:596-629 | a link taken from a displayed row, followed after that row and all newer ones were deleted, gives a page whose newer flag is wrong |
| Walks.OlderThenNewer | src/web.rs:2842-2866 | following a page's older link and then the newer one gives the identical page, flags included |
| Walks.NewerThenOlder | src/web.rs:2842-2866 | following the newer link and then the older one does too |
| Walks.WalkShrinks | src/api/dto.rs:222-240 | each older link leaves strictly fewer rows to visit, so a walk ends, whatever is inserted or deleted meanwhile |
| Walks.WalkDescends | src/api/dto.rs:222-240 | a walk shows strictly descending ids, so none twice |
| Walks.WholeWalk | src/api/dto.rs:254-272 | from the newest page to the end, with inserts of larger ids and deletions between fetches: descending, complete for every matching row that was there throughout, and sound |
| Sessions.SessionStore.FindSessionUser | src/store.rs:1009-1071 | a lookup refuses, slides or clamps the row as one pure lookup does |
| Sessions.SessionStore.ListSessionsForUser | src/store.rs:1082-1101 | lists the user's rows that a lookup would accept |
| Sessions.SessionStore.DeleteExpiredSessions | src/store.rs:1734-1746 | removes the prunable rows and only those, and counts them |
| Sessions.SessionStore.DeleteCappedSessionsForUser | src/store.rs:1106-1121 | removes the user's rows past the absolute cap and only those, and counts them |
| Sessions.SessionStore.DeleteOtherSessionsForUser | src/store.rs:1134-1145 | removes the user's rows but the kept one, and counts them |
| Sessions.SessionStore.DeleteSessionsForUser | src/store.rs:1149-1155 | removes the user's rows and counts them |
| SessionRuns.ExpiryBounds | src/auth.rs:90-108 | over any run of lookups the expiry stays within 72 hours of the last success and within the cap |
| SessionRuns.LookupIs | src/store.rs:1009-1071 | a lookup of any row, old ones without a creation time included: when it answers, when and to what it moves the expiry, when the time last seen, and that nothing else changes |
| SessionRuns.NeverAnswersLate | src/store.rs:1009-1033 | an opened session never answers at or past creation plus 30 days, nor 72 hours after its last success |
| SessionRuns.NeverClamped | src/auth.rs:90-108 | its renewals are always slides, never clamps |
| SessionRuns.AnswersWhileUsed | src/store.rs:1009-1071 | with every gap under 36 hours it answers every lookup before the cap |
| SessionRuns.RewritesBounded | src/auth.rs:90-108 | for clock readings at opening no more than 36 hours apart, no run of lookups rewrites the expiry more than 18 times, or 19 if the readings are more than 18 nanoseconds apart |
| SessionRuns.RewritesReached | src/web.rs:993-1018 | the bound is reached: some run of lookups rewrites 18 times, and some run 19 times if and only if the readings are more than 18 nanoseconds apart |
| SessionRuns.PrunableIsRefused | src/store.rs:1734-1746 | the prune statement removes exactly the rows a lookup refuses, rows without a creation time included |
| SessionRuns.RefusedStays | src/store.rs:1009-1033 | refusal is permanent |
| SessionRuns.PruneIsInvisible | src/store.rs:1734-1746 | prunes anywhere in a run change no lookup and no listing |
| SessionRuns.CountSurvivesPruneIff | src/store.rs:1134-1155 | the number a bulk revocation reports survives a prune exactly when the prune leaves every row it counts |
| SessionRuns.PruneShowsInCounts | src/store.rs:1149-1155 | a freshly opened and never used session, at its expiry: that number changes |
| SessionRuns.CapPrunedIs | src/store.rs:1106-1121 | the cleanup at login removes the user's rows of 30 days and more, and no others |
| Elevations.Elevations.Grant | src/elevate.rs:41-46 | sweeps expired windows and restarts the handle's own |
| Elevations.Elevations.RemainingSecs | src/elevate.rs:49-53 | whole seconds left, or nothing |
| Elevations.Elevations.RevokeUser | src/elevate.rs:62-65 | ends the user's windows but the kept one |
| Elevations.SweepIsInvisible | src/elevate.rs:41-46 | sweeping changes what no other handle reads, then or later |
| Elevations.GrantLasts | src/elevate.rs:41-53 | a grant lasts exactly its number of seconds |
| Elevations.LeftIs | src/elevate.rs:49-53 | what is left of a window is its length less the whole seconds that have passed |
| Handlers.AppState.Login | src/web.rs:993-1034 | a login of an enabled user opens a session |
| Handlers.AppState.Unlock | src/web.rs:4072-4117 | a confirmed password elevates the caller's session only |
| Handlers.AppState.Logout | src/web.rs:717-760 | ends the session and its elevation |
| Handlers.AppState.SessionsRevoke | src/web.rs:4976-5029 | ends one of the caller's own sessions and its elevation |
| Handlers.AppState.SessionsRevokeOthers | src/web.rs:5031-5067 | ends the caller's other sessions and their elevations |
| Handlers.AppState.AccountPassword | src/web.rs:4796-4872 | so does changing one's own password |
| Handlers.AppState.UsersSetPassword | src/web.rs:4399-4483 | a reset ends the target's sessions; on oneself it keeps the current one |
| Handlers.AppState.UsersSetDisabled | src/web.rs:4544-4620 | disabling ends all of the target's sessions; enabling ends none |
| Handlers.AppState.UsersDelete | src/web.rs:4342-4397 | deleting does so too |
| Handlers.EndedSessionsAreNotElevated | src/web.rs:4976-5067 | in every run, no session that a handler ended keeps or ever again has an elevation |
| Handlers.SurvivorsUntouched | src/elevate.rs:62-65 | a session that survives a request, other than the one being unlocked, keeps its elevation unchanged at every later instant |
| Handlers.AdvanceKeepsInv | src/web.rs:717-733 | every handler keeps the two stores in agreement |
| HandlerEffects.LoginEffect | src/web.rs:993-1034 | a login opens one session of an enabled user, for 72 hours, and elevates nobody |
| HandlerEffects.UnlockEffect | src/web.rs:4072-4117 | a window opens only for an enabled administrator whose password was right, on the session that asked; expired windows are swept then and no others |
| HandlerEffects.LogoutEffect | src/web.rs:717-760 | the cookie's session and its elevation are gone, all others untouched |
| HandlerEffects.RevokeEffect | src/web.rs:4976-5029 | exactly when the handle names a live session of the caller's own and the caller confirmed, that session and its elevation are gone; otherwise nothing ends |
| HandlerEffects.RevokeOthersEffect | src/web.rs:5031-5067 | exactly when the caller is signed in and confirmed, of the caller's sessions and elevations only those of the cookie are left, of other users' all; otherwise nothing ends |
| HandlerEffects.ChangePasswordEffect | src/web.rs:4796-4872 | the same for a password change that was accepted, by a user who has a password |
| HandlerEffects.SetPasswordEffect | src/web.rs:4399-4483 | exactly for an administrator, elevated if they have a password, no session or elevation of the target is left but, on oneself, the cookie's |
| HandlerEffects.ToggleDisabledEffect | src/web.rs:4544-4620 | disabling somebody else ends all of their sessions and elevations; enabling ends none |
| HandlerEffects.DeleteUserEffect | src/web.rs:4342-4397 | deleting somebody else, confirmed, ends all of their sessions and elevations |
| HandlerEffects.PruneEffect | src/store.rs:1734-1746 | exactly the sessions that have expired or are 30 days old are removed |
| HandlerEffects.ChangedPasswordSignsOut | src/web.rs:4796-4872 | after a password change no other session of that user is ever signed in again |
| Markdown.EscapeHtml | src/markdown.rs:65-78 | the loop is the character-wise escape |
| Markdown.SplitBlocks | src/markdown.rs:81-97 | the loop groups lines as the blocks of the laws below |
| Markdown.MatchAutolink | src/markdown.rs:201-227 | trims trailing punctuation and links the rest of the run |
| Markdown.RenderInline | src/markdown.rs:110-153 | the scan is token by token and always makes progress |
| Markdown.Render | src/markdown.rs:16-40 | the whole renderer computes the specification the lemmas are about |
| MarkdownBlocks.SplitRecovers | src/markdown.rs:81-97 | lines laid out as blocks with gaps of blank lines, at least one between neighbours, split into exactly those blocks |
| MarkdownBlocks.EveryTextIsLaidOut | src/markdown.rs:81-97 | every sequence of lines is such a layout, so no line is lost and two neighbouring lines share a block exactly when no blank line lies between them |
| MarkdownBlocks.ItemIff | src/markdown.rs:21-25 | a line is an item exactly when a dash and a space follow its leading whitespace, and its content is what comes after |
| MarkdownBlocks.EscapeIs | src/markdown.rs:65-78 | five characters become their entities, all others stay |
| MarkdownText.RenderedIs | src/markdown.rs:16-40 | a description becomes its blocks in order: a list when every line is an item, else a paragraph with line breaks, each line rendered by itself; blank lines leave no trace |
| MarkdownText.LineEndsAlike | src/markdown.rs:61-63 | a CR or CR LF may be replaced by a newline anywhere without a change to the page |
| MarkdownText.PlainTextSurvives | src/markdown.rs:16-153 | deleting the tags of the page of a plain description and decoding the entities gives all its lines in order, list items without their markers |
| MarkdownInline.OrdinaryStays | src/markdown.rs:148-150 | a character that starts nothing stays as written |
| MarkdownInline.LoneBacktickStays | src/markdown.rs:114-119 | so does a backtick that nothing closes |
| MarkdownInline.LoneStarStays | src/markdown.rs:130-135 | a star that nothing closes |
| MarkdownInline.LoneStarsStay | src/markdown.rs:120-129 | two stars that no other two close, both together |
| MarkdownInline.OpenBracketStays | src/markdown.rs:180-183 | a bracket that is not closed |
| MarkdownInline.BracketedStays | src/markdown.rs:183-185 | a bracketed text without a target |
| MarkdownInline.OpenTargetStays | src/markdown.rs:185-187 | a target that is not closed |
| MarkdownInline.BoldHoldsStars | src/markdown.rs:164-169 | bold ends at the next two stars, and single ones inside are text |
| MarkdownInline.LinkIs | src/markdown.rs:180-197 | a link is live, with its very attributes, for http, https and mailto, and as written for any other scheme |
| MarkdownInline.AddressIs | src/markdown.rs:201-227 | a bare address is live up to the next whitespace without the punctuation it ends in |
| MarkdownSafety.RenderedIsWellFormed | src/markdown.rs:16-227 | every output re-parses as balanced paragraphs and lists with only br, code, strong, em and http, https or mailto anchors inside, and no other `<`, `>` or `"` |
| MarkdownSafety.InlineStep | src/markdown.rs:110-153 | the inline output of any escaped line leaves the reader where it was |
| MarkdownSafety.PlainLineRoundTrip | src/markdown.rs:65-153 | for a line without backtick, `*` or `[`, deleting tags and decoding entities of the joined text gives the line back |
| MarkdownSafety.DecodeEscape | src/markdown.rs:65-78 | entities read back as the text that was escaped |
| MarkdownSafety.CodeRenders | src/markdown.rs:156-161 | a closed code span becomes one code element with its text untouched |
| MarkdownSafety.ItalicRenders | src/markdown.rs:172-177 | a closed single-star span becomes one em element |
| MarkdownSafety.BoldRenders | src/markdown.rs:164-169 | a closed double-star span becomes one strong element |
| MarkdownSafety.LinkRenders | src/markdown.rs:180-197 | a link is live for an allowed scheme and stays as written otherwise |
| Duration.ParseDuration | src/duration.rs:5-57 | the nested loops with checked 64-bit arithmetic compute the value of the laws below, although each step may overflow |
| Duration.ComponentsIff | src/duration.rs:5-57 | a text has at most one reading as components, and it has one exactly when it is in the grammar |
| Duration.ParsedComponents | src/duration.rs:5-57 | any list of components, negated or not, reads back as its exact total if that fits |
| Duration.FmtDuration | src/duration.rs:61-85 | the printer writes the non-zero parts, largest unit first |
| Duration.FormatRoundTrip | src/duration.rs:61-85 | parsing what was printed is exact for every non-negative 64-bit value |
| Duration.NegativeFormats | src/duration.rs:61-85 | a negative value prints like zero |
| Duration.ParsedFits | src/duration.rs:5-57 | a parsed value is within 64 bits in magnitude |
| DurationText.ParsedIff | src/duration.rs:5-57 | a text parses to a value exactly when, without its spaces and in lower case, it is an optional sign and then a number or terms worth that value within 63 bits; every other text is refused |
| DurationText.BareNumber | src/duration.rs:20-23 | a bare number is worth itself, with any sign and leading zeros, or refused when it does not fit |
| DurationText.SpaceIgnored | src/duration.rs:6 | each of the five ASCII spaces may stand anywhere |
| DurationText.CaseIgnored | src/duration.rs:7 | any letter may be in either case |
| DurationText.CleanIs | src/duration.rs:6-7 | nothing else is dropped or changed before reading |
| DurationText.FormattedIs | src/duration.rs:61-85 | a positive value prints as its days, hours, minutes and seconds, each below the next, without the zero ones |
| DurationText.FormattedZero | src/duration.rs:61-66 | zero and below print as 0s |
| CheckForms.StoresIff | src/web.rs:2216-2267 | a form is accepted as a check exactly when each field reads as that check's field |
| Whitespace.TrimKeepsCore | src/web.rs:2216-2267 | trimming a submitted text takes nothing but whitespace, and only from its ends |
| CheckForms.AcceptedIff | src/web.rs:2216-2267 | the accepted forms and what each stores, field by field in terms of the submitted texts |
| CheckForms.ResubmitIff | src/web.rs:3083-3115 | saving an unchanged edit form stores the same check if and only if the stored one is normal |
| CheckForms.AcceptedIsNormal | src/web.rs:2216-2267 | every accepted form stores a normal check |
| CheckForms.ResubmitAccepted | src/web.rs:2216-2267 | so a check saved through the form survives being saved again unchanged |
| RunPairing.RunDurations | src/view.rs:72-94 | for pings in any order the map has one entry for each pair, the non-negative time between its start and finish, and no other entry |
| RunPairing.DurationsMean | src/view.rs:72-94 | in the sorted list a finish has a duration exactly when a start of its own precedes it, and then it is the time between |
| RunPairing.PairedIsLatest | src/view.rs:72-94 | a finish has a start of its own exactly when some earlier start is followed by no other finish before it, and its own is the latest of the earlier starts |
| RunPairing.PairsDisjoint | src/view.rs:72-94 | no start and no finish is used twice |
| RunPairing.OrderIndependent | src/view.rs:72-94 | the result does not depend on the order of the input |
| RunPairing.DurationsExact | src/view.rs:72-94 | the sort and scan over a list find exactly the pairs said of the pings as a collection, with non-negative durations, so the original guard against negative ones drops none |
| RunPairing.WindowIsContained | src/view.rs:72-94 | when what a window leaves out is displayed before all it keeps, every duration of the window is one of the full history |
| RunPairing.WindowLoses | src/view.rs:72-94 | and it loses exactly the finishes whose own start it does not reach |
| RunPairing.SuffixIsBehind | src/view.rs:72-75 | every suffix of the (time, id) order is such a window |
| RunPairing.WindowsBehindIff | src/store.rs:1563-1580 | the rows of largest id are such a window, for every size, if and only if ids follow time |
| RunPairing.IdWindowIsContained | src/web.rs:942-944 | so when ids follow time the heartbeat window gives only durations of the full history |
| RunPairing.IdWindowLoses | src/web.rs:942-944 | and loses exactly the finishes whose own start it does not reach |
| RunPairing.PairSurvivesIff | src/view.rs:72-94 | in general, a pair among some of the pings is a pair of them all exactly when none of the others starts or finishes between its two |
| RunPairing.WindowCanMislead | src/store.rs:1563-1580 | three pings whose ids and times disagree, where the window of two shows another duration than the full history |
| ProxyTrust.PrefixEqIsNumeric | src/auth.rs:160-174 | byte-and-mask comparison is equality after division by 2^(width - prefix), for every address length and prefix |
| ProxyTrust.MaskKeepsLeadingBits | src/auth.rs:171 | the table of masks is the shift of a full byte |
| ProxyTrust.BlockMatches | src/auth.rs:138-158 | for a peer as it arrives: an IPv4 block matches the peers in its numeric range, mapped ones by their last four bytes; an IPv6 block matches the unmapped peers in its range |
| ProxyTrust.TrustIgnoresMapping | src/auth.rs:138-141 | a peer is trusted alike as IPv4 or mapped into IPv6 |
| ProxyTrust.BareMatches | src/auth.rs:145-149 | a bare address matches itself, and an IPv4 address and its mapped form match each other |
| ProxyTrust.UnparsedMatchesNothing | src/auth.rs:145-152 | a pattern that does not parse matches nothing |
| ProxyTrust.TrustedByOne | src/auth.rs:138-141 | a peer is trusted exactly when some pattern of the list matches |
| ProxyTrust.BlockTrustsSomebodyIff | src/auth.rs:138-158 | a block trusts some peer if and only if its prefix fits its address and it is not an IPv6 block inside the IPv4-mapped range |

## Left out

- HTTP routing, templates, cookies, headers, event streams, the API documents and page markup; a request is the values its handler receives.
- Lookups of a check by its UUID; handlers receive the numeric id, and an unknown one is the not-found reply.
- The SQL engine, the pool, migrations and decoding of corrupt rows. A statement is a small syntax tree with an evaluator, a table is a map by primary key, and comparison of texts is by code point.
- Storage failures, and interleavings inside one ping, scan or nag step: each step is atomic, although the original acts on a snapshot read before its writes.
- The cron and time-zone libraries: a schedule's next firing is an arbitrary function of expression, zone and instant, required to be strictly later only where a lemma says so.
- Overflow of instants and of seconds at the ends of the calendar; instants and lengths of time are unbounded here. Durations as text are modelled with their 64-bit checks.
- Each limiter call is given one instant; the original reads the clock more than once in a call. Its locking is not modelled.
- Timestamps outside years 0 to 9999, and leap seconds, whose printed text the order lemma does not cover.
- argon2, HMAC, SHA-256 and random identifiers: handles are taken as injective and fresh ids as never repeated.
- Forward authentication, the guards for the last enabled administrator, promotion of users, and the audit entries that handlers write.
- Creation and deletion of checks during a run of the checks table; a run starts with its checks.
- The floating-point bar heights of the heartbeat, relative-time labels, and plain-text summaries of descriptions.
- Parsing of addresses, proxy patterns and forwarding headers: patterns arrive as their parsed parts, and the limiter's keys are values of any type with equality.
- Notification delivery, its retries and wording; an alert is the event that is emitted.
- Page limits below zero, which the callers rule out before they build a query.
- The wording of form errors; each refusal is a value naming the field.
- Unicode outside the whitespace and ASCII classes the code itself consults; a text is a sequence of characters and lengths count those.
- Incidents.SuccessSettles: needs periods to be positive and cron to fire strictly later, which the form guarantees for the first and the library for the second; a stored row that breaks this is due at once.
- Incidents.EditKeepsDueIff: for a new cron expression or zone, or a change of kind, only compares the two deadlines, because firing times are abstract.
- Handlers.EndedSessionsAreNotElevated: elevations reached without a session, which forward authentication allows, are outside it.
