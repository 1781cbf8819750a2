# Verified model of the Prompt SDK's algorithms and protocols

Most of the SDK connects Gin handlers to Keycloak, Postgres and the Prompt core. This project models the parts
that carry guarantees of their own, and proves the guarantees for all inputs, all runs or all interleavings:

| file | what it models |
|---|---|
| `DatabaseUrlMasking.dfy`, `MaskingWriter.dfy`, `PercentCoding.dfy`, `DatabaseUrl.dfy` | the credential rewrite, the line-buffering writer in front of migrate's output, userinfo escaping, the built database URL |
| `PathCleaning.dfy`, `ZipPath.dfy`, `ResolutionUrl.dfy` | lexical path cleaning, ZIP entry paths, the request URL of a resolution |
| `Login.dfy`, `RequestContext.dfy`, `AuthMiddleware.dfy`, `TutorTable.dfy`, `TutorAccess.dfy`, `AllocationRuns.dfy` | the request pipeline from the token to the write decision, the tutor lookup, and runs of guarded statements |
| `AuditEvent.dfy`, `AuditTrace.dfy`, `AuditSink.dfy`, `AuditDelivery.dfy`, `AuditActor.dfy` | the events of one request, one delivery with its retries, all deliveries of a service, the actor's role |
| `Export.dfy`, `ResolutionMerge.dfy` | the export archive and the merge of resolved data |
| `ServeUntil.dfy`, `Migrations.dfy` | the shutdown handshake and the order of migrations |

Go strings are `string`s whose characters stand for one byte each, except in `Login.dfy` and where logins and display
names pass through it (`TutorTable.dfy`, `TutorAccess.dfy`, the actor's name in `AuditActor.dfy`): there they stand for
code points, as strings.ToLower and strings.TrimSpace read them. Role names are compared in byte order, which for
UTF-8 is the order of the code points. Anything outside the SDK (core's answers, sink
replies, resolver rows, callbacks, the file system) is an input that may take any value. Where the SDK updates state,
the model does too: the masking writer, the request context, the audit keys of a request, the audit runtime and the
export are classes, and each of their methods is tied to a function of the old state; the results about runs are
lemmas about those functions. Concurrent parts are transition systems over atomic steps.

## What the proofs found

- The masking of a database URL depends on its user name: with an empty user name the pattern does not match, and the
  URL is left as it is (`DatabaseUrl.EmptyUserIsUntouched`). `DatabaseUrl.PasswordHiddenIff` states the exact condition.
- The comment on `Access` says that a caller without a grant cannot write because `Guard` matches no row. That holds for
  an `UPDATE`; an upsert of a participant who has no row yet inserts without consulting the guard. The documented use,
  which checks `AllowsTeam` first, changes nothing; for the guard alone `AllocationRuns.UngrantedGuardAloneIff` gives the exact condition.
- Allowing one more role on a route can lock out a student whom the route admitted before, when core does not answer
  the role lookup the new role calls for (`AuthMiddleware.GrowingAllowedRolesCanLockOut`, `GrowingAllowedRolesKeepsIff`).
- An item added under the path `contents.json` makes the uploaded archive hold that name twice
  (`Export.ManifestIsUniqueIff`; `ManifestCanClash` shows such an upload).
- `primaryRole` depends on the iteration order of the role map exactly when no platform or course role settles it and
  an empty role name is one of several (`AuditActor.PrimaryOrderIndependentIff`; `PrimaryDependsOnOrder` shows such a map).
- A signal does not make `serveUntil` return nil: Serve may still fail for another reason. Nil is returned exactly when
  Serve answers ErrServerClosed, and never without a signal (`ServeUntil.SignalledRunReturns`, `NilNeedsSignal`).
- The comment on the audit middleware names 2xx and 403 as the recorded statuses; the code also records 401. The model follows the code.

## Model

| member | source | states |
|---|---|---|
| DatabaseUrlMasking.MatchIsDeterministic | utils/sanitizeDatabaseUrl.go:6 | the scanner finds a match at a place exactly when the text there starts with a string of the pattern's language, and there is at most one |
| DatabaseUrlMasking.LeftmostIsUnique | utils/sanitizeDatabaseUrl.go:12-14 | a text can be cut at leftmost, non-overlapping matches in one way only, so "replace all" has one meaning |
| DatabaseUrlMasking.ScanIsLeftmost | utils/sanitizeDatabaseUrl.go:12-14 | the scanner computes that cutting for every text |
| DatabaseUrlMasking.SanitizeIsReference | utils/sanitizeDatabaseUrl.go:12-14 | the one-pass rewrite masks exactly the passwords of those matches and keeps every other byte in order |
| DatabaseUrlMasking.SanitizeSeparated | utils/sanitizeDatabaseUrl.go:12-14 | texts that no match straddles are sanitized one by one |
| DatabaseUrlMasking.NewlineSeparates | utils/sanitizeDatabaseUrl.go:6 | no match crosses a line break |
| DatabaseUrlMasking.CredentialSeparates | utils/sanitizeDatabaseUrl.go:6 | no match that starts before a credential reaches into it |
| DatabaseUrlMasking.Decomposition | utils/sanitizeDatabaseUrl.go:5-14 | sanitizing prefix, credential and suffix together gives sanitized prefix, masked credential and sanitized suffix |
| DatabaseUrlMasking.PasswordIndependence | utils/sanitizeDatabaseUrl.go:8-14 | the output is the same for any two passwords |
| DatabaseUrlMasking.OutputScan | utils/sanitizeDatabaseUrl.go:8-14 | the matches left in the output are the old ones in the same order, each with password `***`, between unchanged text |
| DatabaseUrlMasking.SanitizeIdempotent | utils/sanitizeDatabaseUrl.go:12-14 | masking a masked text changes nothing |
| DatabaseUrlMasking.MatchLiterally | utils/sanitizeDatabaseUrl.go:6 | for every text, scheme, user and password, in plain characters: the scanner finds them exactly when the text starts with `postgres://` or `postgresql://`, a user without `:@/` and white space, a colon, a password without `@/` and white space, and an at sign |
| DatabaseUrlMasking.MaskedLiterally | utils/sanitizeDatabaseUrl.go:12-14 | scheme, user and `:***@` stand where the credential stood, between the sanitized prefix and the sanitized suffix |
| DatabaseUrlMasking.OutputShowsNoPassword | utils/sanitizeDatabaseUrl.go:12-14 | every credential that can be found in a sanitized text has the password `***` |
| DatabaseUrlMasking.UntouchedIff | utils/sanitizeDatabaseUrl.go:8-14 | a text is left as it is exactly when every credential in it has that password already |
| MaskingWriter.MaskingWriter.Write | utils/runMigrations.go:37-47 | one Write forwards the sanitized complete lines of what is pending plus the new bytes, holds back the rest, and reports the full length |
| MaskingWriter.MaskingWriter.Flush | utils/runMigrations.go:49-55 | the held-back rest is sanitized and forwarded |
| MaskingWriter.WriteExtendsInput | utils/runMigrations.go:30-47 | a writer that is in step with its input stays so after any further piece |
| MaskingWriter.ChunkingIndependence | utils/runMigrations.go:30-60 | for every sequence of writes the pending bytes hold no line feed, and after the flush the output is the sanitized whole input |
| MaskingWriter.RunMigrations | utils/runMigrations.go:11-28 | for any interleaving of writes to the two streams, and whether or not the command succeeds, each stream's output is its sanitized text |
| PercentCoding.EscapeRoundTrip | utils/getDatabaseUrl.go:23-28 | decoding undoes the escaping of any bytes |
| PercentCoding.EscapeByte | utils/getDatabaseUrl.go:23-28 | each byte of userinfo is kept, for letters, digits and `-_.~$&+,;=`, or written as `%` and its two upper-case hex digits |
| PercentCoding.DecodeByte | resolution.go:83-88 | for every byte, `%` and its two hex digits in either case decode to it, and what follows is decoded on its own |
| PercentCoding.DecodeFailsIff | resolution.go:84-87 | decoding fails exactly where some `%` is not followed by two hex digits |
| DatabaseUrl.EscapedIsMaskable | utils/getDatabaseUrl.go:23-28 | escaped userinfo holds no `@`, `/`, `:` or whitespace |
| DatabaseUrl.BuildRoundTrip | utils/getDatabaseUrl.go:25-37 | the URL is `postgres://`, a text that decodes to the user, a colon, one that decodes to the password, an at sign and the rest, and neither text holds a separator |
| DatabaseUrl.UserinfoIsCredential | utils/getDatabaseUrl.go:25-29 | the built URL starts with a string of the masking pattern exactly when the user name is not empty |
| DatabaseUrl.EmbedIsMasked | utils/getDatabaseUrl.go:25-37 | in a text that holds the URL any number of times `:***@` replaces every password and every piece between is sanitized on its own |
| DatabaseUrl.MaskedOutputIgnoresPassword | utils/runMigrations.go:11-60 | such a text, written in any chunks, gives the same output for any two passwords, and that output is the masked text |
| DatabaseUrl.EmptyUserIsUntouched | utils/getDatabaseUrl.go:25-37 | with an empty user name the URL passes unmasked, for every password |
| DatabaseUrl.PasswordHiddenIff | utils/getDatabaseUrl.go:25-37 | the masked URL is independent of the password exactly when the user name is not empty |
| PathCleaning.SplitJoin | utils/export.go:80 | joining segments and splitting again gives the segments back |
| PathCleaning.JoinSplit | resolution.go:88 | splitting a path and joining again gives the path back |
| PathCleaning.WalkWithoutParents | resolution.go:57 | without a `..` segment cleaning pops nothing: the kept segments land on top of what is there |
| PathCleaning.Cancellation | utils/export.go:80 | a name followed by `..` leaves no trace, wherever it stands |
| PathCleaning.CleaningFollowsRules | utils/export.go:80 | the walk gives exactly what the rules of path.Clean (drop empty and `.` segments, drop a name with the `..` after it, drop `..` at a root) leave when they are applied in any order until none applies |
| PathCleaning.UpAndDown | utils/export.go:80 | a path with a detour into a directory and back cleans like the path without it |
| PathCleaning.EscapesIff | utils/export.go:80-81 | a relative path cleans to one that starts with `..` exactly when some prefix of it climbs above its start |
| ZipPath.AcceptedIff | utils/export.go:76-86 | a path is accepted exactly when it is relative, never climbs above its start, names something, and that name starts neither with `..` nor like a drive |
| ZipPath.AcceptedByRules | utils/export.go:76-86 | the verdict and the name, told by what the cleaning rules leave of the path alone |
| ZipPath.DetourIsIgnored | utils/export.go:76-86 | a detour into a directory and back changes neither the verdict nor the name |
| ZipPath.AcceptedIsNormal | utils/export.go:76-86 | an accepted result is relative, has only named segments and no backslash, and is a fixed point |
| ZipPath.StaysInside | utils/export.go:76-86 | resolving an accepted result under any directory, absolute, relative or empty, gives exactly the cleaned directory followed by that result |
| ResolutionUrl.DecodeSum | resolution.go:83-89 | decoding goes part by part around a slash |
| ResolutionUrl.TraversalIff | resolution.go:80-89 | the decoded check passes exactly when every raw segment decodes to text without a `..` segment |
| ResolutionUrl.RawParentIsCaught | resolution.go:80-89 | a raw `..` segment survives decoding and is caught |
| ResolutionUrl.DisguisedParentIsCaught | resolution.go:80-89 | a path with two dots between slashes is refused, however the dots and slashes are written (plain, `%2e`, `%2E`, `%2f`, `%2F`) and whatever stands around them |
| ResolutionUrl.TrimKeeps | resolution.go:268-271 | trimming slashes changes neither the kept segments nor the verdict |
| ResolutionUrl.AcceptedIff | resolution.go:39-89 | exactly the http and https targets with a host, without credentials and with harmless endpoint and extra paths are accepted |
| ResolutionUrl.RejectedBecause | resolution.go:39-78 | which error a refused target gets: the first reason that applies, and the first path that traverses |
| ResolutionUrl.Confinement | resolution.go:37-58 | an accepted request goes to the cleaned base, `course_phase`, the phase id and the named segments of the endpoint and extra paths; none is `..`, even after decoding |
| Login.NormalizeIdempotent | internal/login/login.go:9-12 | normalizing twice is normalizing once, for every lower-casing of single characters that is idempotent and keeps whitespace apart |
| Login.NormalizeIs | internal/login/login.go:9-12 | the stored form is the lower case of what stands between the outer white space, with nothing left to lower or to trim |
| Login.SameLogin | internal/login/login.go:9-12 | logins that differ only in case and outer white space are stored alike |
| Login.IsSpaceIs | internal/login/login.go:9-12 | white space is Unicode's White_Space |
| AuthMiddleware.BuildAllowedRolesSet | keycloakTokenVerifier/authMiddleware.go:121-128 | the set of the listed roles, so that order and repetition do not matter |
| AuthMiddleware.ContainsCustomRoleName | keycloakTokenVerifier/authMiddleware.go:146-156 | whether some allowed role is not built in |
| AuthMiddleware.MatchesCustomRole | keycloakTokenVerifier/authMiddleware.go:158-172 | a prefix match admits exactly through a non-built-in allowed role under a non-empty prefix |
| AuthMiddleware.OnlyContainsAdminAndLecturer | keycloakTokenVerifier/authMiddleware.go:174-183 | whether only the two platform roles are allowed |
| AuthMiddleware.GetLecturerAndEditorRole | keycloakTokenVerifier/getLecturerAndEditorRole.go:31-84 | the role flags, prefix and marker on success, and the abort status otherwise |
| AuthMiddleware.IsStudentOfCoursePhase | keycloakTokenVerifier/getIsStudent.go:13-75 | the student flags for each answer of core, cleared on a denial, and the abort status otherwise |
| AuthMiddleware.Authorize | keycloakTokenVerifier/authMiddleware.go:34-119 | the resulting context depends on the allowed roles as a set only; the next handler runs exactly when nothing aborted |
| AuthMiddleware.Authenticate | keycloakTokenVerifier/authMiddleware.go:22-32 | the token check comes first and a missing token ends the request |
| AuthMiddleware.AdmissionPolicy | keycloakTokenVerifier/authMiddleware.go:11-119 | a request reaches the next handler exactly when the declarative policy over allowed roles, held roles and core's answers admits it; the policy names the five known roles |
| AuthMiddleware.KnownRolesNeedNoPrefix | keycloakTokenVerifier/authMiddleware.go:130-172 | a prefix grants exactly through a listed role other than the five known ones, and never when it is empty |
| AuthMiddleware.HandlerSees | keycloakTokenVerifier/getIsStudent.go:40-72 | every field of the caller the next handler finds: the claims as they are, the course roles and the marker where core was asked for them, the participation id exactly for those the student lookup lets through |
| AuthMiddleware.RejectionStatus | keycloakTokenVerifier/authMiddleware.go:20-119 | the status of every rejected request |
| AuthMiddleware.MonotoneInUserRoles | keycloakTokenVerifier/authMiddleware.go:35-119 | more held roles never lock a caller out |
| AuthMiddleware.GrowingAllowedRolesKeepsIff | keycloakTokenVerifier/authMiddleware.go:54-88 | when exactly a caller stays admitted as the allowed set grows |
| AuthMiddleware.GrowingAllowedRolesCanLockOut | keycloakTokenVerifier/authMiddleware.go:60-65 | a request that a grown allowed set turns away |
| TutorTable.ReachableIsValid | tutorscope/resolver.go:38-61 | every table reachable by inserts, changes and deletes under the primary key and the partial unique index holds normalized, non-empty, per-phase unique logins |
| TutorTable.InsertEffect | tutorscope/resolver.go:38-61 | when exactly an insert goes through, and the row it adds |
| TutorTable.ChangeLoginEffect | tutorscope/resolver.go:38-61 | when exactly a change of login goes through, and that it reaches the one row of its key |
| TutorTable.ChangeTeamEffect | tutorscope/resolver.go:38-61 | a change of team reaches exactly the row of its key |
| TutorTable.DeleteEffect | tutorscope/resolver.go:38-61 | a delete takes out exactly the row of its key |
| TutorTable.InsertedTutorResolves | tutorscope/resolver.go:38-106 | a tutor stored under a login is found under it, with the stored team |
| TutorTable.LookupFailsIff | tutorscope/resolver.go:58-106 | on any table the lookup errors exactly when the phase stores the normalized login more than once |
| TutorTable.EmptyLoginIsNoTutor | tutorscope/resolver.go:83-106 | on any table an empty login matches no row, not even one that stores the empty string |
| TutorTable.LookupRefinement | tutorscope/resolver.go:75-106 | on every valid table the answer is, for every lower-casing, the team of the one row holding the normalized login, ErrNotATutor in a phase with other tutors, ErrNoRows in one without |
| TutorTable.NormalizedTwice | tutorscope/resolver.go:87-92 | normalizing again what the middleware normalized changes no lookup |
| TutorAccess.TutorScoping | keycloakTokenVerifier/tutorScopingMiddleware.go:35-79 | the marker, the team and the abort of the scoping middleware for every answer of any resolver |
| TutorAccess.ScopingStopsIff | keycloakTokenVerifier/tutorScopingMiddleware.go:45-78 | when exactly scoping answers 400, 403 or 500 |
| TutorAccess.ReadScopeIff | keycloakTokenVerifier/tutorScopingMiddleware.go:62-77 | the read scope is a team exactly for an editor who is no lecturer and whose login resolves to it |
| TutorAccess.ErrorAllowsNoTeam | tutorscope/authorize.go:32-144 | on any request an error comes exactly with an access that allows no team, and its guard is the nil team |
| TutorAccess.AccessMeaning | tutorscope/authorize.go:101-144 | every access handed out allows all teams under a NULL guard, or exactly one team guarded by it, or none guarded by the nil team |
| TutorAccess.ErrorTellsWhy | tutorscope/authorize.go:53-99 | on any request, for each error the exact callers that get it, and who is unrestricted or confined |
| TutorAccess.Route | tutorscope/authorize.go:53-99 | the three steps of a route on a fresh context, and whether the handler is reached |
| TutorAccess.PipelineExactness | tutorscope/authorize.go:53-99 | on a route that resolves course roles a handler sees no wiring error, is unrestricted exactly for admins and resolved lecturers, and is confined to T exactly when another editor resolves to T |
| TutorAccess.WiringErrorIff | tutorscope/authorize.go:16-30 | on any route, when exactly the handler sees ErrCourseRolesNotResolved; the other wiring errors never show behind both middlewares |
| TutorAccess.MissingScopingIsReported | tutorscope/authorize.go:70-85 | without the scoping middleware exactly the editors who are neither admin nor lecturer get ErrScopingNotApplied |
| TutorAccess.ReadWriteAgreement | tutorscope/tutorscope.go:8-18 | for such an editor behind the canonical resolver read scope and write scope agree when the phase has tutors, and ErrWriteDenied shows exactly when it has none |
| AllocationRuns.GuardMatchesScope | tutorscope/authorize.go:101-144 | for every access and team, the guard lets a row through exactly when the access allows its team, except that an ungranted guard lets through the nil team |
| AllocationRuns.EffectOf | tutorscope/authorize.go:101-144 | the exact effect of an attempt on every row: the target team where it lands, which needs an allowed target and a row in an allowed team or an upsert of a new one; otherwise none |
| AllocationRuns.LastLandingDecides | tutorscope/authorize.go:101-144 | over any run the last attempt that lands on a row decides its team, and a row on which none lands stays |
| AllocationRuns.UngrantedChangesNothing | tutorscope/authorize.go:32-40 | under the documented use an ungranted attempt changes no table, whatever teams its rows carry |
| AllocationRuns.ConfinedGuardAlone | tutorscope/authorize.go:117-144 | when exactly a statement of a confined caller under the guard alone changes a row: its own team's rows, or an insert anywhere, which is what AllowsTeam is for |
| AllocationRuns.ChangeHasResponsible | tutorscope/authorize.go:106-144 | every row that changes over a run ends in a team allowed to some caller who wrote it there |
| AllocationRuns.LeavingNeedsScope | tutorscope/authorize.go:117-144 | a row never disappears, and it leaves a team only through a caller allowed to write that team |
| AllocationRuns.TeamIsolation | tutorscope/authorize.go:101-144 | in any interleaving without an unrestricted caller no allocated row changes its team, and a new row is in the team of a confined caller who upserted it |
| AllocationRuns.ConfinedStep | tutorscope/authorize.go:117-144 | whatever the others did before, a step of a caller confined to T changes nothing or brings one unallocated participant into T |
| AllocationRuns.UngrantedGuardAloneIff | tutorscope/authorize.go:32-40 | when exactly a statement under the guard of an ungranted access changes nothing, given that no row carries the nil team |
| AllocationRuns.RequestsAreIsolated | tutorscope/authorize.go:72-144 | a row only changes team if some request of the run was that of an admin or course lecturer |
| AuditTrace.AuditRequest.RecordEvent | audit/context.go:126-181 | an accepted event is filled in and delivered or buffered by whether it has an outcome; an event without an actor leaves no trace |
| AuditTrace.AuditRequest.FlushRecordedEvents | audit/middleware.go:73-94 | the buffered events go out in order, stamped with the final status |
| AuditTrace.Serve | audit/middleware.go:48-70 | for any calls a request hands to write the explicit-outcome events in call order, then the buffered ones stamped from the final status, then the backstop exactly when it is due |
| AuditTrace.OneEventPerRecord | audit/context.go:109-142 | one event for each accepted Record, and one backstop only where there is no such event |
| AuditTrace.BackstopTells | audit/middleware.go:57-147 | when exactly the backstop speaks, and each field of its event: "success" for 2xx, "denied" for 401 and 403, the actor, the request and what the route names |
| AuditTrace.StatedEventTells | audit/context.go:126-181 | where in the trace a Record with an outcome is written, and each field of the event |
| AuditTrace.OpenEventTells | audit/middleware.go:73-120 | where one without an outcome is written, and each field: "success", "denied" or "error" by the final status |
| AuditTrace.TraceIsComplete | audit/context.go:132-142 | with an extractor that names actors no event lacks an actor or an outcome |
| AuditTrace.DefaultTraceIsComplete | audit/context.go:212-229 | with the default extractor that holds for any calls and whatever the context holds at each of them |
| AuditSink.Record | audit/sink_http.go:89-127 | the result, the number of attempts and the time slept are those of the first reply not worth a retry, or of the third |
| AuditSink.DeliveryIsBounded | audit/sink_http.go:95-126 | exactly one reply decides, within three attempts and 1500 ms of back-off |
| AuditSink.ReportsExactly | audit/sink_http.go:95-126 | the number of attempts, the milliseconds slept and the result, in numbers, for every sequence of replies |
| AuditDelivery.Runtime.Write | audit/context.go:54-73 | write takes a free slot and starts a delivery, or drops, and never waits |
| AuditDelivery.RunKeepsInv | audit/context.go:33-73 | in every interleaving the occupied slots are the deliveries in flight, at most 64, each within three attempts and 1500 ms; deliveries may fail before any attempt |
| AuditDelivery.Conservation | audit/context.go:54-73 | the events handed to write are, as a multiset, those delivered, failed, in flight and dropped |
| AuditDelivery.DropsOnlyWhenFull | audit/context.go:58-72 | write is always possible, and it drops exactly at 64 deliveries in flight |
| AuditDelivery.SixtyFourStart | audit/context.go:54-73 | of any events written before a delivery ends, the first 64 are under way in order and exactly the others are dropped |
| AuditDelivery.EventEndsAsRecordReports | audit/context.go:58-66 | an event with a slot ends among the delivered ones exactly when coreSink.Record reports no error, else among the failed ones, and nothing else changes |
| AuditDelivery.Drains | audit/sink_http.go:104-126 | without further writes at most 256 steps are possible whatever core answers, and a run that cannot go on has nothing in flight |
| AuditDelivery.DeliveryRunsRecord | audit/sink_http.go:89-127 | the steps of one delivery end with the attempts, the time slept and the success or failure that coreSink.Record reports in the same circumstances, also where the event cannot be marshalled or no request built |
| AuditActor.FallbackOfNamed | audit/context.go:253-261 | in every iteration order the loop ends with the least role name |
| AuditActor.LessIs | audit/context.go:256-259 | the order of role names is the lexicographic one |
| AuditActor.OrderIndependentIff | audit/context.go:253-261 | the fallback is independent of the iteration order exactly when no role name is empty or it is the only one |
| AuditActor.PrimaryRole | audit/context.go:231-262 | the answer of the guards and the fallback loop on some order of the map; where a known role settles it or no role name is empty, it is the highest platform role held, else the first kind of course role some role ends in, else the least role, each by its name |
| AuditActor.PrimaryOrderIndependentIff | audit/context.go:231-262 | primaryRole is independent of the iteration order exactly when a platform or course role settles it, no role name is empty, or the empty one is the only one |
| AuditActor.PrimaryDependsOnOrder | audit/context.go:253-261 | a role map that two orders of iteration file under different roles |
| AuditActor.RolesAreSorted | audit/context.go:217-221 | the actor's roles are the map's keys, each once, in ascending order |
| AuditActor.DefaultActorExtractor | audit/context.go:212-229 | no actor without a user or an id; otherwise the user's id, trimmed name, email, primary role and sorted roles |
| AuditActor.ActorIsStableIff | audit/context.go:212-229 | two extractions from one token user agree for all iteration orders exactly when the primary role does |
| AuditActor.PrimaryIsUnique | audit/context.go:231-262 | that role is unique |
| Export.Export.AddJson | utils/export.go:93-134 | the new state for every outcome of path check, callback, entry creation and encoding |
| Export.Export.AddBlob | utils/export.go:136-176 | the same for raw bytes |
| Export.Export.AddFile | utils/export.go:178-221 | the same for a stream; the reader is closed exactly when it is a closer and the callback has returned it |
| Export.Export.UploadTo | utils/export.go:223-292 | the new state, the error and the archive sent for every point of failure |
| Export.AddsInvariant | utils/export.go:93-221 | after any Adds the stored error is the first one; without one the archive is the recorded items in order at sanitized paths, and their count |
| Export.AddFailsIff | utils/export.go:93-221 | when an item is stored, skipped or refused, with which error, and the entry it leaves |
| Export.FirstUpload | utils/export.go:239-292 | the first upload succeeds exactly when no Add failed and every step works, and then sends exactly the added items plus one manifest when there are any |
| Export.UploadReportsFirst | utils/export.go:223-292 | a first upload that lacks something reports the first thing it lacks, and has sent the archive only if the request was made |
| Export.AfterSuccess | utils/export.go:18-20 | after a success Adds only record ErrExportFinished and another upload sends nothing |
| Export.ManifestIsUniqueIff | utils/export.go:223-237 | the archive has one contents.json exactly when no item was added under that path |
| Export.ManifestCanClash | utils/export.go:223-237 | an item under contents.json is accepted, and the archive is sent with that name twice |
| ResolutionMerge.ResolveAllParticipations | resolution.go:134-166 | each id maps to the named value of its last item, or to null where that item lacks it; otherwise the error is that of the fetch or of the first item without a readable id |
| ResolutionMerge.ItemIdIs | resolution.go:150-163 | which id an item is read under, and the two errors |
| ResolutionMerge.MergedOneMore | resolution.go:184-199 | one more resolution overrides exactly the field it supplies |
| ResolutionMerge.MergeInto | resolution.go:190-198 | the inner loop merges every participation in place |
| ResolutionMerge.FetchAndMerge | resolution.go:168-202 | count, order and other fields stay; every field is that of the last resolution of its name that holds the participation, otherwise the original one |
| ResolutionMerge.MergedIsUnique | resolution.go:184-199 | this fixes the merged participation completely |
| ServeUntil.ReturnsAfterShutdown | bootstrap.go:173-197 | in every interleaving serveUntil returns only after the shutdown goroutine has finished, with nil exactly when Serve answered ErrServerClosed and else with Serve's error |
| ServeUntil.NeverStuck | bootstrap.go:188-192 | once Serve has come back some thread can move until serveUntil has returned |
| ServeUntil.RunsAreShort | bootstrap.go:175-197 | every step makes progress and no run has more than seven |
| ServeUntil.SignalledRunReturns | bootstrap.go:175-197 | every run with a signal in which the threads have done all they can has returned: with nil exactly when Serve answered ErrServerClosed, else with Serve's error |
| ServeUntil.NilNeedsSignal | bootstrap.go:175-197 | a run that returns nil holds a signal |
| ServeUntil.BothOutcomesOccur | bootstrap.go:188-196 | after a signal both a nil return and any other error of Serve are possible |
| Migrations.SortedKeys | testutils/db_setup.go:143 | the versions, strictly ascending and complete |
| Migrations.DecimalAppend | testutils/db_setup.go:149-156 | one more digit makes a number ten times as much plus the digit |
| Migrations.ParseIff | testutils/db_setup.go:149-156 | a prefix parses exactly when it is made of digits and denotes a number below 18446744073709551616 |
| Migrations.VersionOfNumber | testutils/db_setup.go:149-156 | in any directory the decimal digits of a number before the first underscore give that number, or none if it needs more than 64 bits |
| Migrations.VersionWithoutUnderscore | testutils/db_setup.go:149-156 | without an underscore the whole file name is parsed |
| Migrations.UpMigrationPaths | testutils/db_setup.go:121-147 | succeeds exactly on a non-empty list whose versions all parse and differ, with a permutation in ascending order; otherwise names the first path that stops it |
| Migrations.OrderingIsUnique | testutils/db_setup.go:142-146 | there is one such order |
| Migrations.PaddedVersionsClash | testutils/db_setup.go:149-156 | a leading zero does not make a version different |

## Left out

- HTTP, OIDC, JSON decoding, S3, ZIP encoding, Postgres and process execution: their answers are inputs.
- DatabaseUrl.Build: the host, port, database name and query after the `@` are one arbitrary text; the properties hold for any.
- MaskingWriter.MaskingWriter.Emit: a failed or short write to the underlying stream, which the code ignores, is not modelled.
- Login.LowerCasing: lower-cases character by character; every such lower-casing that is idempotent and keeps whitespace apart is covered, invalid UTF-8 is not.
- AuditActor.SortStrings: an insertion sort stands for sort.Strings; RolesAreSorted fixes its result.
- ResolutionUrl.BuildUrl: ends with the joined path; parsing the base and printing the final URL are not modelled.
- PathCleaning.Clean: follows the documented rules of Go's path.Clean on a segment stack, not its byte buffer.
- TutorTable.ResolveTutorTeam: a custom table name and transport errors of the query are not modelled; other resolvers are arbitrary functions in TutorAccess.
- RequestContext.Context: the deprecated single-value context keys, the matriculation number, and routes that stack several authentication middlewares, are not modelled.
- AllocationRuns.Execute: each statement is one atomic step, as the database runs it; deletions of allocations are not modelled.
- AuditTrace.Serve: the default action label is an input, and metadata is a value, so the snapshot Record takes of it is not visible; a nil sink and Record outside the middleware do nothing and are not modelled.
- AuditDelivery.Runtime.Write: delivery is the HTTP sink's; other sinks have no retry loop to model.
- Export.Export.UploadTo: calling Add, or uploading again with items, after the ZIP writer was closed by a failed upload makes the code dereference nil; the methods require an open writer there. Close is not modelled.
- ResolutionMerge.FetchAndMerge: maps are values, so sharing of one PrevData map between participations is not modelled; uuid.Parse is an arbitrary function.
- FetchAndMergeCourseParticipationWithResolution stores the raw response body instead of the resolved value; it is not part of this model.
- ServeUntil.NeverStuck: that Serve comes back after Shutdown, and Shutdown within its timeout, is net/http's promise and not proved here.
- Migrations.UpMigrationPaths: listing the directory is an input.
- DTOs, environment helpers, CORS, route registrars, validators, mocks, host allowlists, field mapping for error reporting and the wording of action labels would only add easy members.
