# Wahoo, verified

A Dafny model of the parts of the Wahoo SaaS framework that are protocols, transactions, codecs or
text transformations, with proofs about every input, every run or every interleaving. `dafny verify
dfyconfig.toml` checks all of it.

| file | models | main results |
|---|---|---|
| `Hub.dfy` | the event hub of `realtime/sse.go` as atomic steps, and the object that takes them | gap-free delivery, channel life cycle, capacity, no leak, every handler can finish |
| `EventStream.dfy` | the event-stream printer of `realtime/sse.go`, and the reader of sections 9.2.5 and 9.2.6 of the WHATWG HTML Living Standard | a stream cut anywhere is read as exactly the events that are whole in it |
| `Runner.dfy` | the job runner of `jobs/jobs.go`: every worker's program counter, the error cell, two contexts | the result is the first failure and a root cause; no failure is lost; jobs are conserved; the drain is bounded and never blocks |
| `GoMod.dfy` | the `go.mod` editor of `internal/scaffold/scaffold.go` | which texts read, by their lines; the edit changes one token, is re-read and can be undone; one of its errors cannot happen |
| `Catalog.dfy`, `Project.dfy` | modules, routes, manifest, `Add` and `Upgrade` of `internal/scaffold/scaffold.go`, each file operation able to fail | consistency after any sequence of stopped calls; adding composes; upgrading settles and resumes |
| `RateLimit.dfy` | the bounded limiter of `ratelimit/ratelimit.go` | eviction is unobservable; the sliding bound |
| `Webhook.dfy` | signer, header parser and verifier of `webhook/webhook.go` | the header grammar; injective framing; acceptance exactly; sign then verify |
| `Entitlement.dfy` | the decision of `entitlement/entitlement.go` | the saturating loop is the unbounded sum; order is irrelevant; monotone; constant between boundaries |
| `StorageKey.dfy` | the key scanner of `storage/storage.go` | the scanner is the split specification; keys are fixed points of section 5.2.4 of RFC 3986 |
| `Text.dfy`, `Utf8.dfy`, `Int64.dfy`, `Sets.dfy`, `Wrappers.dfy` | the library functions on text and numbers that the code uses | splitting and joining, white space, rune starts |

Code that works step by step is a class or a method with a loop, tied to a function of the inputs by
its `ensures`; the theorems are lemmas about those functions. For the two concurrent protocols the
function is `Replay`: the state after a list of atomic steps. `EventHub` and `Execution` keep the list
of steps they have taken as ghost state and are always in the state it leads to, and `Memory` does the
same with the calls it has answered, so each theorem about all runs holds of the objects too.

One promise does not hold for all inputs, and the exact condition is proved. A message ID with a NUL is
printed but the standard's reader ignores it (`EventStream.NulIdIsDropped`); the round trip holds of
exactly the streams whose IDs have none (`EventStream.RoundTripExactly`).

One hypothesis is not a fact of the code. The limiter reads the clock at `ratelimit/ratelimit.go:81` and
takes its lock at line 82, so timestamps need not be ordered as the calls are. `RateLimit.Unobservable`
and `RateLimit.SlidingBound` assume that they are. Without that order eviction can be observed
(`RateLimit.ClockNeeded`) and the sliding bound can be exceeded (`RateLimit.LagRaisesBound`);
`RateLimit.LaggedBound` bounds by how much, for timestamps that lag by at most a given time.

## Model

| member | source | states |
|---|---|---|
| Hub.GapFree | realtime/sse.go:90-180 | in every interleaving, what a client received and what its slot holds is the contiguous run of events published to its own topic since it registered: all but the one in flight while it is registered, all of them if it left by itself, and all before the one that found its slot full if it was evicted |
| Hub.OpenIffRegistered | realtime/sse.go:94-144 | in every reachable state a channel is open iff it is registered, was closed at most once, holds at most one event, was never used after its close, and the registered clients are within the limit |
| Hub.NothingLeaks | realtime/sse.go:129-144 | in every reachable state each topic key has a handler that has yet to clean up; once all handlers are done the map is empty |
| Hub.StagesByTrace | realtime/sse.go:121-180 | a handler that registered has finished iff its cleanup is in the trace, and is on its way to it iff it left its loop, by itself or on a close, and has not cleaned up |
| Hub.CanComeToRest | realtime/sse.go:94-144 | from every reachable state the publisher's and the handlers' own steps lead to a state in which the mutex is free, every handler has finished and no client is registered |
| Hub.CloseIsSeen | realtime/sse.go:169-172 | a handler in its loop whose channel is closed can receive what is buffered, and then see the close |
| Hub.StepKeeps | realtime/sse.go:90-180 | every atomic step keeps the invariant of the hub |
| Hub.Reachable | realtime/sse.go:61-180 | the invariant holds after every sequence of enabled steps from a new hub |
| Hub.StayDelivers | realtime/sse.go:94-172 | a step after which a client is still registered extends what it got, buffered or is about to be offered by exactly the event, if any, that the step publishes to its topic |
| Hub.LeaveDelivers | realtime/sse.go:94-144 | the step with which a client leaves the registry ends its run of events at the right place: before the event that evicts it, or after all of them |
| Hub.StillGone | realtime/sse.go:169-172 | a closed channel still yields its buffered event, and nothing is added to it |
| Hub.EventHub.constructor | realtime/sse.go:41-72 | a new hub is empty and has the default limit unless a positive one is given |
| Hub.EventHub.CountClients | realtime/sse.go:183-189 | the sum over the topics is the number of registrations |
| Hub.EventHub.Enter | realtime/sse.go:121-133 | registers a new client, or refuses exactly when the registrations have reached the limit |
| Hub.EventHub.OfferNext | realtime/sse.go:94-100 | one turn of the loop: handlers may receive, then one client that is still to be dealt with gets its offer or is evicted |
| Hub.EventHub.OfferTo | realtime/sse.go:94-100 | one offer: the event goes into a free slot, and a client with a full slot is closed and removed |
| Hub.EventHub.Publish | realtime/sse.go:90-102 | one publication is a legal run of the protocol: it begins, offers to or evicts exactly the clients then registered for the topic, while handlers race with it, and ends |
| Hub.EventHub.Receive | realtime/sse.go:169-172 | a receive takes the buffered event first and sees the close only when there is none |
| Hub.EventHub.Leave | realtime/sse.go:160-178 | a handler that stops is due to clean up, and registry and channels are as they were |
| Hub.EventHub.Exit | realtime/sse.go:134-144 | the deferred cleanup is the protocol's cleanup step, also when the topic or the client is gone |
| EventStream.RoundTrip | realtime/sse.go:158-232 | the standard's reader dispatches one message per event of a whole stream, in order, with data minus CR, name minus CR and LF or the default type, and the last ID carried forward; heartbeats dispatch nothing |
| EventStream.RoundTripExactly | realtime/sse.go:158-232 | a whole stream is read as expected iff none of its IDs holds a NUL |
| EventStream.CutStream | realtime/sse.go:158-232 | of a stream cut at any character the reader dispatches exactly the messages of the items that are whole in it |
| EventStream.NulIdIsDropped | realtime/sse.go:210-213 | an ID that holds a NUL leaves the reader's last ID as it was |
| EventStream.ItemProcessed | realtime/sse.go:209-227 | one item read from empty buffers dispatches its message and leaves the buffers empty |
| EventStream.DataOfLines | realtime/sse.go:220-224 | the data lines carry the data minus CR: empty data, leading spaces and trailing line feeds included |
| EventStream.WithoutJoins | realtime/sse.go:220-232 | removing a character removes each of its occurrences and keeps the other characters in order |
| EventStream.EventText | realtime/sse.go:209-227 | the exact text of an event: an id line and an event line only when the field is not empty, a data line for each line of the data, and a blank line |
| EventStream.ItemLinesShape | realtime/sse.go:209-232 | nothing in an event's fields can end a line early; only the last line of an item is blank |
| EventStream.WriteEvent | realtime/sse.go:209-227 | the line-by-line writer puts out the item's encoding, or, if a write fails, the part of it that the connection took |
| EventStream.Serve | realtime/sse.go:158-180 | after any number of items and any failure, what is on the wire is a cut of the stream in which exactly the served items are whole, and reads as their messages |
| Runner.RunResult | jobs/jobs.go:129-184 | for every interleaving: when Run has returned all workers have exited, and the result is never nil: the first recorded failure if there was one, else the caller's own reason |
| Runner.FailureIsRootCause | jobs/jobs.go:137-175 | the recorded failure is that of a Pull or Handle call that returned while the run context was live |
| Runner.FailureStops | jobs/jobs.go:152-175 | after a Pull or Handle call that fails, its worker starts no other Pull and no Handle |
| Runner.FailureIsNotLost | jobs/jobs.go:152-183 | once Run has returned, for every call that failed a recorded failure is the result, or its worker saw after the call that the run context was done |
| Runner.StandsByTrace | jobs/jobs.go:144-177 | in every reachable state where each worker stands is what its last move and its failures in the trace say |
| Runner.IdleDelay | jobs/jobs.go:153-158 | between a Pull that finds no job and the worker's next Pull its timer fires, and a timer fires only after such a Pull |
| Runner.WorkerCanMove | jobs/jobs.go:144-177 | in every state a worker that has not exited can move, whatever its calls return, unless another worker is inside the error cell |
| Runner.JobsConserved | jobs/jobs.go:148-176 | each worker hands the jobs it pulled to the handler exactly once and in order, whatever cancellation lands in between; what it pulled and has not completed it holds |
| Runner.JobCount | jobs/jobs.go:144-178 | in every reachable state successful pulls are completed handles and held jobs, and at most as many jobs are held as there are workers |
| Runner.DrainStep | jobs/jobs.go:148-176 | once the run context is done every step, of any worker or the caller, lowers the rank |
| Runner.BoundedDrain | jobs/jobs.go:148-184 | at most 5n + 2 steps follow the end of the run context |
| Runner.OneMoreCall | jobs/jobs.go:148-176 | after the end of the run context each worker starts at most one more Pull and one more Handle |
| Runner.DrainProgress | jobs/jobs.go:137-184 | a run whose context is done can always go on until it has returned, so it does not block on the error cell |
| Runner.StepKeeps | jobs/jobs.go:129-184 | every step keeps the invariant: the error cell is entered by one worker at a time and only once, and who has exited saw the context done |
| Runner.Reachable | jobs/jobs.go:129-184 | the invariant holds after every sequence of enabled steps |
| Runner.New | jobs/jobs.go:84-116 | a runner is built iff its settings, with the defaults for zeros, pass the check with which Run begins, and it has those settings |
| Runner.Execution.constructor | jobs/jobs.go:129-147 | a run begins with the configured number of workers, all at the top of their loop, and a fresh error cell |
| Runner.Execution.Advance | jobs/jobs.go:148-195 | the next statement of a worker is an enabled step of the protocol, or nothing when the worker has exited or waits for the error cell |
| Runner.Execution.Drain | jobs/jobs.go:179 | waiting for the workers ends, whatever their remaining calls return |
| Runner.Execution.Run | jobs/jobs.go:121-184 | the executed run ends with every worker exited, and its error is the first recorded failure or the caller's reason |
| GoMod.ReplaceFrameworkRequirement | internal/scaffold/scaffold.go:576-622 | the scan that edits lines as it goes is: find all requirements in the unedited text, fail unless there is exactly one, and change the text at its version |
| GoMod.BlockIsBetween | internal/scaffold/scaffold.go:581-590 | the scanner's flag holds at a line iff an earlier line, trimmed, starts with "require (" and no line between them, trimmed, is ")" |
| GoMod.ReadExactly | internal/scaffold/scaffold.go:576-622 | a text reads as version v iff exactly one line has the requirement shape for its place inside or outside a block, with version v; none is the "does not require" error and two are the "more than once" error |
| GoMod.OneTokenEdit | internal/scaffold/scaffold.go:576-622 | a successful edit with a token v turns p + current + s into p + v + s and changes no other byte, p ending in the module path and white space; reading the result gives v and leaves it unchanged; putting the old version back restores the original |
| GoMod.ReadsAlike | internal/scaffold/scaffold.go:610-614 | the "locate Wahoo version" failure is unreachable for every text and every replacement, and whether a text reads does not depend on the replacement |
| GoMod.HoleOf | internal/scaffold/scaffold.go:576-622 | every text that reads is some p + version + s for which any other token in that place is read and replaced in the same way |
| GoMod.VersionLocated | internal/scaffold/scaffold.go:610-616 | on every line that requires the framework the two nested searches land on the version token itself |
| GoMod.RequirementShape | internal/scaffold/scaffold.go:582-601 | a line that is counted as a requirement has the module path as its first field, after the keyword when outside a block |
| GoMod.ShapedClassifies | internal/scaffold/scaffold.go:582-601 | conversely every line of that shape is counted, with that version |
| GoMod.EditKeepsShape | internal/scaffold/scaffold.go:610-616 | the edited line is a requirement with the new version |
| Catalog.ParseModules | internal/scaffold/scaffold.go:157-174 | the nested loops yield the known names in order of first occurrence, or an error at the first unknown one |
| Catalog.ParsedExactly | internal/scaffold/scaffold.go:157-174 | a request is understood iff each comma part is blank or a module name; it yields exactly the modules it names, ordered by the first part that names each |
| Catalog.ParsedHasNoDuplicates | internal/scaffold/scaffold.go:157-174 | no module is parsed twice |
| Catalog.ParsedTogether | internal/scaffold/scaffold.go:157-174 | parsing two requests together is parsing each and appending what is new |
| Catalog.NamesParseBack | internal/scaffold/scaffold.go:415-419 | a list of distinct modules that is written as names parses back to itself |
| Catalog.RegistrationShape | internal/scaffold/scaffold.go:51-131 | every registration is one line with a tab at its start only, and is not the marker |
| Catalog.RegistrationsDiffer | internal/scaffold/scaffold.go:70-131 | different modules have different registrations |
| Catalog.OccurrencesSplit | internal/scaffold/scaffold.go:51-131 | no registration or marker can straddle a place where another such line starts |
| Catalog.InsertedAllShape | internal/scaffold/scaffold.go:337-340 | repeated replacement of the marker puts the new lines together, in order, right before the original first marker, which stays the first |
| Catalog.InsertedAllCount | internal/scaffold/scaffold.go:337-340 | inserting distinct modules adds one occurrence of each one's line and of no other |
| Project.AlwaysConsistent | internal/scaffold/scaffold.go:254-354 | from a created project, after any sequence of Add and Upgrade calls each possibly stopped at any file operation: every module of the manifest has its files and registration, every registration has its files, and none stands twice |
| Project.StoppedKeeps | internal/scaffold/scaffold.go:322-354 | an Add stopped at any file operation keeps that consistency |
| Project.AddedKeeps | internal/scaffold/scaffold.go:254-354 | a completed Add keeps it |
| Project.UpgradedKeeps | internal/scaffold/scaffold.go:485-538 | a completed Upgrade keeps it |
| Project.UpgradeStoppedKeeps | internal/scaffold/scaffold.go:523-536 | an Upgrade stopped before or between its two writes keeps it |
| Project.CreatedIsConsistent | internal/scaffold/scaffold.go:177-252 | a project as it is after its creation is consistent |
| Project.AddComposes | internal/scaffold/scaffold.go:254-354 | Add(a), then Add(b), both successful, leave the same module files, routes and manifest as Add(a ++ b) |
| Project.AddIdempotent | internal/scaffold/scaffold.go:295-318 | repeating a successful Add succeeds and changes nothing |
| Project.AddedRoutes | internal/scaffold/scaffold.go:320-347 | the new registrations stand consecutively, in first-occurrence order of the request, immediately before the original first marker, which is the first marker of the new routes |
| Project.AddedManifest | internal/scaffold/scaffold.go:341-353 | after an Add that adds something the manifest reads as the current format, the framework version of go.mod, and the old modules followed by the requested ones that were missing |
| Project.AddedFiles | internal/scaffold/scaffold.go:295-336 | every file of an addition is new and rendered with the module path, and every other file is as it was |
| Project.ManifestReadsExactly | internal/scaffold/scaffold.go:394-421 | a manifest is read iff the metadata file, or without one the legacy file, decodes, has no format or format 1, and lists known modules |
| Project.ModulePathIs | internal/scaffold/scaffold.go:562-574 | the module path is the second field of the first line that has two fields, "module" first; there is none iff no line has |
| Project.ValidExactly | internal/scaffold/scaffold.go:547-551 | a version is valid iff it is v, three digit runs between dots, an optional dash prerelease and an optional plus build |
| Project.AddExactly | internal/scaffold/scaffold.go:254-354 | without an I/O failure Add succeeds iff the request names at least one module and no unknown one, the manifest reads, the routes hold the marker, go.mod declares a module path, no file of a missing module is there, and, if any is missing, go.mod requires the framework once |
| Project.AddSucceeds | internal/scaffold/scaffold.go:254-354 | when no file operation fails, a project with a marker, a go.mod that names module and framework, and no stray module file accepts every request for known modules, and is such a project afterwards |
| Project.CreatedIsReady | internal/scaffold/scaffold.go:177-252 | a created project is such a project iff its go.mod names module and framework |
| Project.CheckIsExact | internal/scaffold/scaffold.go:517-536 | check mode writes nothing and reports Changed iff apply mode changes go.mod or the manifest |
| Project.UpgradeSettles | internal/scaffold/scaffold.go:394-440 | after a successful apply, also from the legacy manifest, a check reports From = To and no change, and the module list is the one that was read |
| Project.UpgradeResumes | internal/scaffold/scaffold.go:526-536 | a run after one that stopped between its two writes ends with the files of an uninterrupted run |
| Project.VersionIsToken | internal/scaffold/scaffold.go:547-551 | every accepted version is non-empty and without white space, so the go.mod edit is exact for it |
| Project.Directory.WriteNewFile | internal/scaffold/scaffold.go:442-461 | creates a file that is not there, or leaves nothing or a broken new file; an existing file is never changed |
| Project.Directory.WriteRoutes | internal/scaffold/scaffold.go:463-481 | replaces the routes whole or not at all |
| Project.Directory.WriteGoMod | internal/scaffold/scaffold.go:463-481 | replaces go.mod whole or not at all |
| Project.Directory.WriteManifest | internal/scaffold/scaffold.go:423-440 | replaces the manifest, in the current format, whole or not at all |
| Project.Directory.LoadManifest | internal/scaffold/scaffold.go:394-421 | reads the manifest, the legacy one only if there is no other |
| Project.Directory.ReadModulePath | internal/scaffold/scaffold.go:562-574 | the loop yields the second field of the first two-field line that begins with "module" |
| Project.Directory.FindAdditions | internal/scaffold/scaffold.go:295-315 | the requested modules that are not installed, none of whose files is there, or an error |
| Project.Directory.WriteFiles | internal/scaffold/scaffold.go:321-342 | writes all files of all additions and computes the routes, or stops with nothing but additions' files begun |
| Project.Directory.Install | internal/scaffold/scaffold.go:320-354 | files, routes and manifest are written in that order; a stop leaves the manifest as it was, and the routes too unless every file is complete |
| Project.Directory.Add | internal/scaffold/scaffold.go:254-354 | success leaves the tree of an uninterrupted run, an error that is not an I/O error is that run's error, and an error leaves one of the stopped trees |
| Project.Directory.Upgrade | internal/scaffold/scaffold.go:485-538 | success leaves the tree and gives the report of an uninterrupted run, an error that is not an I/O error is that run's error, an error leaves nothing written or go.mod alone, and a check writes nothing |
| RateLimit.Unobservable | ratelimit/ratelimit.go:81-109 | for every history with non-decreasing timestamps: the table never exceeds its bound; a call is refused for capacity iff its key is absent and that many other keys have a running window; every other answer is that of a limiter that never evicts, run without the refused calls |
| RateLimit.SlidingBound | ratelimit/ratelimit.go:84-109 | for every key, history with non-decreasing timestamps and n, a half-open interval of n windows holds at most (n + 1) * limit granted requests, across restarts and evictions |
| RateLimit.LimitedExactly | ratelimit/ratelimit.go:84-100 | with non-decreasing timestamps a request is limited iff the last window of its key is running and exactly limit requests were granted since it began |
| RateLimit.CountIsGrants | ratelimit/ratelimit.go:92-100 | the entry of a key counts the requests granted since its window began |
| RateLimit.LaggedBound | ratelimit/ratelimit.go:81-109 | when timestamps lag by at most a given time behind earlier ones, an interval holds at most k * limit granted requests of a key for every k for which k gaps of window - lag cover the interval, one window and the lag |
| RateLimit.GrantsFillWindows | ratelimit/ratelimit.go:84-109 | after every such history the windows of a key began at least window - lag apart, and the requests granted in [lo, hi) fill windows that began between lo - window and hi + lag |
| RateLimit.LagRaisesBound | ratelimit/ratelimit.go:81-109 | a history whose timestamps lag, in which one window holds three granted requests where ordered timestamps allow two |
| RateLimit.TableIsBounded | ratelimit/ratelimit.go:84-109 | the table never exceeds its bound, whatever the timestamps are |
| RateLimit.ClockNeeded | ratelimit/ratelimit.go:81-82 | a history with one late timestamp in which eviction grants a request that would have been limited |
| RateLimit.AllowAgrees | ratelimit/ratelimit.go:84-109 | one call of the bounded and of the unbounded limiter agree and keep their tables in agreement |
| RateLimit.HistoryAgrees | ratelimit/ratelimit.go:84-109 | after every history the bounded table is the part of the unbounded one that has not expired, or more of it |
| RateLimit.ExpiredIsAge | ratelimit/ratelimit.go:85 | the saturation of time differences never changes whether a window has expired |
| RateLimit.Configure | ratelimit/ratelimit.go:54-68 | a limiter is built iff its policy and key bound, with the defaults for zeros, are valid, and it has those settings |
| RateLimit.Memory.constructor | ratelimit/ratelimit.go:67 | a new limiter has an empty table and has answered no call |
| RateLimit.Memory.EvictExpired | ratelimit/ratelimit.go:103-109 | deleting while ranging removes exactly the expired entries |
| RateLimit.Memory.Request | ratelimit/ratelimit.go:71-101 | after any sequence of requests the table and the answer are those of the history of the calls that got the lock; a nil context, an invalid key and a context that is done are refused in that order and change nothing |
| Webhook.HeaderGrammar | webhook/webhook.go:167-209 | a header is accepted iff it is bounded and a comma list, with white space around its items, of one canonical int64 t and one to eight 64-digit v1 in any order, and it yields what it lists |
| Webhook.ParseHeader | webhook/webhook.go:167-209 | the loop over the parts yields that result, or the error of the first part that is wrong |
| Webhook.AcceptedIsItem | webhook/webhook.go:176-203 | every part that the loop accepts is a padded item, and adds itself |
| Webhook.ItemAccepted | webhook/webhook.go:176-203 | every padded item is accepted unless there is a timestamp already or the list is full |
| Webhook.UnixCodec | webhook/webhook.go:211-225 | parseUnix and decimal printing are mutually inverse: only the printed form of a number is read as that number |
| Webhook.DecimalOfValue | webhook/webhook.go:211-225 | a canonical digit string is the decimal form of its value |
| Webhook.UnhexOfHex | webhook/webhook.go:108 | hexadecimal printing is read back |
| Webhook.UnhexAccepts | webhook/webhook.go:196-199 | exactly the texts of an even number of hexadecimal digits, in either case, are decoded |
| Webhook.UnixRoundTrip | webhook/webhook.go:138-208 | time.Unix and Unix are inverse on int64, whatever wraps in between |
| Webhook.MacTextIsHeaderText | webhook/webhook.go:138-208 | the timestamp text that is rendered again for the MAC is the text that the header holds |
| Webhook.FramingInjective | webhook/webhook.go:234-240 | different pairs of timestamp and body are different MAC inputs |
| Webhook.SubIsDifference | webhook/webhook.go:132 | the library's Sub, with its wrapping difference and saturating Add, is the distance clamped to int64, for all instants |
| Webhook.FreshIsDistance | webhook/webhook.go:132 | a timestamp is fresh iff its distance from now is within the limit, for all instants |
| Webhook.NewVerifier | webhook/webhook.go:65-93 | a verifier is made iff its settings, with the defaults for zeros, are valid; secrets are reported first, then the age, then the body limit |
| Webhook.VerifyAt | webhook/webhook.go:118-149 | the loops over secrets and signatures accept iff some secret's MAC is listed, and the errors come in the order body, header, now, freshness, match |
| Webhook.AcceptedExactly | webhook/webhook.go:118-149 | for any header, acceptance with a timestamp holds iff the bounds, the grammar and freshness hold and some configured secret's MAC of the header's own timestamp text, a period and the body is listed |
| Webhook.TimestampReported | webhook/webhook.go:176-190 | the timestamp error is reported iff the first wrong part is a first t whose text is no canonical int64 |
| Webhook.SignatureBinds | webhook/webhook.go:234-240 | without a collision between the two messages a signature for one timestamp and body matches no other pair |
| Webhook.ReplayIsRefused | webhook/webhook.go:97-149 | a header that lists a signature that Sign made is refused with another timestamp or another body, unless two messages collide |
| Webhook.SignsExactly | webhook/webhook.go:97-109 | Sign refuses a secret of the wrong length, then a body over 8 MiB, then a timestamp that is zero or before 1970, and nothing else |
| Webhook.HexAt | webhook/webhook.go:108 | each byte is two lower-case digits, in order, the high one first |
| Webhook.DecimalDigits | webhook/webhook.go:108 | decimal text is the usual digits, the last one last |
| Webhook.SignedParses | webhook/webhook.go:97-109 | what Sign prints parses as the timestamp in seconds and the one signature |
| Webhook.SignedOutcome | webhook/webhook.go:97-149 | what a verifier says of a signed header that arrives with any body, for any secrets it holds |
| Webhook.SignThenVerify | webhook/webhook.go:97-149 | with a held secret, a non-negative timestamp, a body within the limit and a non-zero now, a signed header is accepted iff the distance between now and the timestamp truncated to seconds is within the maximal age, with that timestamp, and is stale otherwise |
| Entitlement.Decide | entitlement/entitlement.go:92-158 | the loop in uint64, with no overflow, decides as the specification over the unbounded sum does, errors included, and its fallback return is unreachable |
| Entitlement.DecisionMeans | entitlement/entitlement.go:82-158 | Granted is min(Quantity, unbounded sum of the active matching grants), Allowed iff that sum reaches Quantity, and NoGrant iff no grant matches |
| Entitlement.InactiveAddsNothing | entitlement/entitlement.go:119-130 | a matching grant that is revoked at or before now, starts after now or ended at or before now changes neither Granted nor Allowed, wherever it stands |
| Entitlement.ActiveAdds | entitlement/entitlement.go:131-141 | any other matching grant adds its quantity to Granted, up to the required quantity |
| Entitlement.OtherFeatureIsIgnored | entitlement/entitlement.go:115-117 | a grant for another feature changes nothing |
| Entitlement.SoleGrant | entitlement/entitlement.go:92-147 | no grant gives NoGrant and zero; one active grant alone gives min of its quantity and the required one |
| Entitlement.ReasonByFields | entitlement/entitlement.go:139-157 | for a matched feature the reason is Granted or InsufficientQuantity iff some grant is active by its dates, else Revoked, NotStarted or Expired by the grants' dates, in that order |
| Entitlement.OrderIsIrrelevant | entitlement/entitlement.go:92-158 | any permutation of the grants gives the same result, errors included |
| Entitlement.MoreGrantsNeverHurt | entitlement/entitlement.go:111-138 | one more valid grant at any place within the limit keeps the call valid and never lowers Granted or withdraws Allowed |
| Entitlement.ConstantBetween | entitlement/entitlement.go:119-130 | two times with no start, end or revocation of a matching grant after the first and up to the second give the same decision |
| Entitlement.CheckFeature | entitlement/entitlement.go:160-171 | looking at rune starts only, the loop accepts exactly 1 to 128 allowed ASCII bytes |
| Entitlement.CheckGrant | entitlement/entitlement.go:51-59 | a grant is valid iff its feature is, its quantity is not zero, and it starts before it ends when both are set |
| StorageKey.Validate | storage/storage.go:57-80 | the one-pass scanner accepts exactly 1 to 1024 bytes of allowed ASCII whose slash-separated segments are non-empty and not "." or ".." |
| StorageKey.ParseKey | storage/storage.go:47-53 | a key is the value itself, and only valid values become keys |
| StorageKey.FixedPoint | storage/storage.go:55-80 | remove_dot_segments of RFC 3986 leaves a path alone iff no segment is "." or ".." |
| StorageKey.PortableIsNormal | storage/storage.go:55-80 | every accepted key is a fixed point of remove_dot_segments, alone and below a root |
| Utf8.StartsAreEnough | storage/storage.go:63-67 | for a test that only ASCII passes, looking at the rune starts of any byte string, valid UTF-8 or not, is looking at every byte |
| Text.SplitThenJoin | realtime/sse.go:220 | splitting at a separator loses nothing |
| Text.JoinThenSplit | webhook/webhook.go:176 | separator-free parts survive joining and splitting |
| Text.SplitAfterShape | internal/scaffold/scaffold.go:577-621 | splitting after line feeds yields lines whose concatenation is the text |
| Text.TrimSpaceOfPadded | webhook/webhook.go:177 | trimming removes any white padding from text that neither starts nor ends with white space |

## Left out

- HTTP requests, headers, flushing, deadlines, tickers and timers: "context done", "heartbeat fires", "timer fires", "write fails" and "file operation fails" are choices that can fall either way at every step.
- Hub.Next: an event is a value, so the copies that copyEvent makes against shared byte slices are not modelled; neither are validTopic and the stream age limit.
- Hub.EventHub.Publish: the order in which Go ranges over the clients of a topic is an arbitrary choice; a handler that finds both an event and a done context may take either.
- EventStream.Serve: text is a sequence of characters, so UTF-8 coding and decoding of the stream, and bytes in an event that are not UTF-8, are not modelled.
- EventStream.ProcessField: the reconnection time of a "retry" field is no part of a message and is not kept.
- Runner.Moved: Pull and Handle return and do not panic; the job timeout only matters through what Handle returns; an error that wraps ErrNoJob is one of three answers of Pull.
- Runner.Execution.Run: a given order of events stands for the Go scheduler; if the run context is still live at its end the caller cancels.
- Runner.New: nil pullers, handlers and contexts, and the text of the errors.
- GoMod.ReplaceFrameworkRequirement: the text is a sequence of characters; bytes that are not UTF-8 are not modelled.
- Project.Created: Create itself, template texts and the application name; a module file is known by the module path it was rendered with, and a project is taken up after Create has written it without modules.
- Project.Decode: JSON; a manifest file is a value or malformed.
- Project.Directory.Add: directories, permissions, symbolic link checks and `os.Root`; a rename replaces a file at once, an exclusive create fails on a file that exists, and no other process edits the project.
- Project.UpgradeResumes: a process that is killed may leave a temporary file behind, on which later writes fail; the claim is about runs that returned an error, and for the final files.
- Webhook.Sub: Go's time package is not part of the repository; Add, Sub, Unix and IsZero follow its documented and implemented behaviour, on wall-clock readings.
- RateLimit.Unobservable: timestamps are assumed to be non-decreasing in the order in which calls take the lock.
- RateLimit.Memory.Request: a nil limiter; keys are strings of one character per byte, and instants are whole nanoseconds without bound.
- Webhook.VerifyAt: a nil verifier; HMAC-SHA256 is any function of secret and message with 32-byte results, and nothing is claimed about its strength or about timing.
- Webhook.ParseHeader: the header is a sequence of characters, with its length counted in UTF-8 bytes; bytes that are not UTF-8 are not modelled.
- Webhook.NewVerifier: that the secrets are copied, and ReadBody.
- Entitlement.Decide: an error comes without the zero Decision that accompanies it; instants are nanoseconds since the zero time.
- StorageKey.ParseKey: object metadata and values.
- `auth`, `authz`, `billing`, `mail`, `audit`, `database`, `api`, `server` and the web templates: field checks and process plumbing that would add only easy members.
