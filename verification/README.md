# Verified model of the service scaffolding

This project models, in Dafny, the stateful parts of an agent service's scaffolding and proves
what they promise: the redaction of secrets from log events, the correlation fields that travel
with asyncio tasks and over HTTP hops, the request-size limiter, the request instruments, the walk
along exception chains and the classification built on it, the transactional session, the start
and stop of process resources, and the rounding of the Retry-After header.

`dafny verify dfyconfig.toml` checks everything.

| file | what it models |
|---|---|
| `Regex.dfy` | the regular-expression fragment in use: a declarative language and the backtracking engine |
| `Redactor.dfy`, `NoResidue.dfy`, `LeftmostLongest.dfy` | the six value patterns, one substitution pass, the six passes together |
| `Shapes.dfy`, `WholeSecrets.dfy` | the six shapes written out as texts, and what becomes of a text that is one secret |
| `OnlySecrets.dfy`, `Interchange.dfy` | what a scrubbed text keeps and what it reveals |
| `Texts.dfy`, `SensitiveKeys.dfy` | lower-casing and searching; which keys are sensitive |
| `Values.dfy`, `HeapGraph.dfy`, `Paths.dfy` | the recursive scrubber on values and on cyclic object graphs, and what it does at every place |
| `Events.dfy`, `ContextKeys.dfy` | the event dictionary, its enrichment and redaction, and what the two renderers are handed |
| `CorrelationContext.dfy`, `TaskRuns.dfy` | context variables and tokens of one task; scopes in interleaved tasks |
| `Propagation.dfy`, `RequestRuns.dfy` | request identifiers from header to context, response, next hop and log; concurrent requests |
| `SizeLimit.dfy`, `ContentLength.dfy` | the size limiter, and how a declared length is read |
| `RequestMetrics.dfy` | the request instruments |
| `ExceptionChain.dfy`, `Session.dfy`, `Lifecycle.dfy`, `RetryAfter.dfy` | exceptions, transactions, resources, Retry-After |
| `Wrappers.dfy`, `Signals.dfy` | options, results, and how a driver call ends |

## How to read the main results

**Redaction.** `Derives` says which substrings an expression matches, without any search order;
`MatchEnd` is the engine, greedy and backtracking, as Python runs it. `EngineIsSound` and
`EngineIsComplete` connect the two for every expression of the fragment, and
`PatternsAreDeterminate` adds that on the six patterns the engine finds the longest match.
`ShapeIff` says of each pattern which texts it matches, with alphabets, words and lengths written
out character by character. `Sub` is one substitution; `SpansFit` and `SpansAreUnique` determine it without mentioning the scan. The
central lemma is `NothingNew`: whatever pattern occurs in a text after matches of any pattern were
replaced occurred there before, beginning outside the replaced stretches. For the four key-shaped
patterns the brackets of the marker are a barrier; the two DSN patterns can run across a marker,
and for them the proof follows the first colon and the first at-sign (`TailOrigin`). Hence
`ScrubLeavesNoResidue`, and more: by `AnyOrderLeavesNoMatch` the order of the passes is immaterial
to it. `OnlySecretsChange` is the other half: nothing but secrets is replaced. A row of a text
(`IsRowOf`) shows its kept characters and its hidden secrets, defined from the language alone; it
is unique (`RowIsUnique`). `SameScrubIff` says that two texts scrub to the same exactly when their
rows look alike,
and `SecretsAreInterchangeable` that the content of a secret never matters: for each pattern, any
other secret in its place gives the same text. `WholeSecrets` says for each shape when a text that
is one secret becomes exactly the marker.

A key is sensitive exactly when it spells one of the 24 words, in whatever case (`SensitiveIff`).
What the scrubber does at each place of a value, down to the sixth level, is said by
`ScrubInTheOpen`, `ScrubUnderSecret` and `NothingElseIsShown`. On values, `UnchangedIffSettled`, `EqualOutputIffAlike` and their event-level forms
`EventUnchangedIff` and `SameLineIff` say exactly what redaction leaves alone and exactly what a
log line reveals; idempotence and non-interference are their corollaries. Keys and opaque leaves
pass through the scrubber unread: `ShownCleanIff` says exactly when everything that is shown of a
value is free of secrets. `HeapGraph` repeats the scrubber on object graphs with cycles and shows
that it agrees with the scrubber on any unfolding.

The structlog chain hands the renderer an event that shows no secret exactly under the condition of
`EmittedIsCleanIff`. The rendered string then reaches the root handler as a foreign record and runs
through the shared processors once more, so it is scrubbed as a whole (`HandlerEventIsCleanIff`).

**Correlation.** `TaskRuns` runs any number of tasks that spawn, open and close scopes, raise
through scopes and log. The invariant says that a task's flat context is the overlay of its open
scopes and that every token is unspent; from it follow exact restoration on both exits in any
interleaving (`ScopeRestoresInAnyRun`) and that each log line shows the innermost bindings
(`LogShowsInnermost`). That no restore raises holds whatever names are bound (`NoRestoreRaises`).
`RunProjects` is isolation: a task in an interleaving is the task on its own. `RequestRuns` joins
this with the identifiers: every line that a request or its child tasks write carries the
identifiers that the response echoes, as long as no scope open at that moment gives others.
`IdsComeFrom` says which header each identifier is taken from.

**Request size.** `Serve` is the whole middleware, with both paths. A request whose length is absent
or honest arrives as a whole exactly when it is within the limit (`WholeBodyArrivesIff`); without a
declared length the application never sees more than the limit, whatever the stream (`LimitHolds`);
and `RejectedIff` with `ParseIntIff` says which headers are refused.

**Where the code does less than its comments say.** In each case the exact condition is proved.
- The patterns are tried one after the other, so a secret inside another one can spoil the outer
  match: a bearer token or a JWT is replaced as a whole exactly if no `sk-` key stands in it, a
  Redis DSN exactly if no Postgres DSN does when its turn comes (`BearerIsMaskedIff`,
  `JwtIsMaskedIff`, `RedisIsMaskedIff`).
- A binding that names an unknown field raises after it has set the fields before it; the context
  is unchanged exactly when those brought nothing new (`FailedBindLeaksNothingIff`).
- "Rolls back on any exception" (app/infrastructure/database.py:177) holds for `Exception` only;
  a cancellation in the body or the commit skips the rollback (`Database.Session`, where the call
  of rollback is characterised; `CancelledBody`).
- A failure closing Redis does not prevent the disposal of the database only if it is an
  `Exception` (`DatabaseAttemptedIff`, `CancelledRedisKeepsEngine`).
- Engine and session factory are set together unless building the factory raises; then `connect`
  is a no-op until the next shutdown (`PairedAfterRunIff`, `FactoryFaultBreaksPair`,
  `BrokenPairPersists`).
- "Round up" (app/api/errors.py:82) fails for delays above one second whose fraction is below a
  millisecond (`RoundsUpIff`, `RoundsDown`).
- The redactor runs last among the enrichers (app/observability/logging.py:184-186), but the
  traceback is put in behind it, and mapping keys and opaque values go through it unread; only the
  handler's second pass over the rendered string covers them (`EmittedIsCleanIff`,
  `SecretsPastTheRedactor`, `HandlerEventIsCleanIff`).
- A scope with an unknown name does not open, but leaves behind the fields named before it
  (`FailedOpenLeaks`).
- The echoed request identifier and the logged one differ exactly when the identifier looks like
  an `sk-` key or a JWT (`LoggedIdIsEchoedIff`, `KeyShapedIdIsMasked`).

## Model

| member | source | states |
|---|---|---|
| Regex.EngineIsSound | app/observability/logging.py:68-75 | what the backtracking engine finds is in the declarative language, for every expression of the fragment |
| Regex.EngineIsComplete | app/observability/logging.py:68-75 | the engine finds a match wherever the language has one |
| Regex.EngineFindsLongest | app/observability/logging.py:68-75 | on determinate expressions greedy backtracking and longest match agree |
| NoResidue.PatternsAreDeterminate | app/observability/logging.py:68-75 | each of the six patterns is such an expression: the match taken is the longest at its place |
| Shapes.ShapeIff | app/observability/logging.py:68-75 | each of the six patterns matches exactly the texts of its shape, spelled out with the alphabets, the first words in either case, and the lengths |
| LeftmostLongest.SpansFit | app/observability/logging.py:96-97 | one pass replaces disjoint, longest matches, and no match begins outside them |
| LeftmostLongest.SpansAreUnique | app/observability/logging.py:96-97 | any family of spans with these properties is the one the pass replaces |
| NoResidue.NothingNew | app/observability/logging.py:96-97 | for every pair of patterns: what occurs after a replacement occurred before, beginning outside the replaced spans |
| NoResidue.TailOrigin | app/observability/logging.py:73-74 | a user-colon-password-at tail seen after a replacement was there before it, also across markers |
| NoResidue.PassRemovesOwn | app/observability/logging.py:96-97 | a pass leaves no match of its own pattern |
| NoResidue.PassCreatesNone | app/observability/logging.py:96-97 | a pass creates no match of any pattern |
| NoResidue.AnyOrderLeavesNoMatch | app/observability/logging.py:95-98 | passes in any order and number leave no match of any pattern among them |
| NoResidue.ScrubLeavesNoResidue | app/observability/logging.py:68-75 | no substring of a scrubbed text has any of the six shapes |
| NoResidue.ScrubString | app/observability/logging.py:94-98 | the loop over the patterns computes the scrubbed text, which is free of secrets |
| NoResidue.UnchangedIffNoResidue | app/observability/logging.py:95-98 | scrubbing leaves a text alone exactly when no secret occurs in it |
| NoResidue.ScrubTextIdempotent | app/observability/logging.py:95-98 | scrubbing twice is scrubbing once |
| NoResidue.SecondPassNeverFires | app/observability/logging.py:69-70 | after the `sk-` pass the `sk-ant-` pass changes nothing |
| Shapes.ScrubbedHoldsNoShape | app/observability/logging.py:68-75 | no stretch of a scrubbed text has any of the six spelled-out shapes |
| Shapes.UnchangedIffNoShape | app/observability/logging.py:95-98 | a text comes through unchanged exactly when no stretch of it has one of these shapes |
| WholeSecrets.KeyIsMasked | app/observability/logging.py:69-70 | a text that is one `sk-` key becomes exactly the marker |
| WholeSecrets.BearerIsMaskedIff | app/observability/logging.py:69-71 | a text that is one bearer token, in any casing of the word, becomes exactly the marker if and only if no `sk-` key stands in it |
| WholeSecrets.JwtIsMaskedIff | app/observability/logging.py:69-72 | the same for a JWT |
| WholeSecrets.PostgresIsMasked | app/observability/logging.py:68-73 | a text that is one Postgres DSN becomes exactly the marker, whatever its user and password hold |
| WholeSecrets.RedisIsMaskedIff | app/observability/logging.py:68-74 | a text that is one Redis DSN becomes exactly the marker if and only if no Postgres DSN stands in it once the keys are replaced |
| WholeSecrets.RedisIsMasked | app/observability/logging.py:68-74 | in particular if none stands in it to begin with |
| OnlySecrets.OnlySecretsChange | app/observability/logging.py:95-98 | every text has a row, and each of its rows is the original with disjoint stretches replaced in order, each a secret once the secrets inside it are hidden, and renders to the scrubbed text |
| OnlySecrets.RowIsUnique | app/observability/logging.py:95-98 | a text has only one row: what is hidden, and within what, is determined by the text alone |
| OnlySecrets.SameScrubIff | app/observability/logging.py:95-98 | two texts scrub to the same exactly when their rows keep the same characters and hide secrets in the same places |
| Interchange.SecretsAreInterchangeable | app/observability/logging.py:96-97 | for each pattern, another secret in the place of one that the pass replaces gives the same text |
| Interchange.CrossSecret | app/observability/logging.py:68-75 | a match that reaches from outside into one secret reaches into any other in its place |
| Interchange.SecretContentIsHidden | app/observability/logging.py:95-98 | texts that differ, at the n-th pass, only in the content of one secret of its pattern scrub to the same |
| Interchange.LoneSecretIsHidden | app/observability/logging.py:95-98 | in particular texts in which the patterns of the earlier passes do not occur |
| SensitiveKeys.SensitiveIff | app/observability/logging.py:33-86 | a key is sensitive exactly when one of the 24 words stands in it, in whatever case (the Kelvin sign counting as a K) |
| SensitiveKeys.WordInKeyIsSensitive | app/observability/logging.py:82-86 | a key made of anything, one of the words in any casing, and anything is sensitive |
| Paths.ScrubInTheOpen | app/observability/logging.py:89-110 | at every place up to the sixth level that no sensitive key leads to: texts are scrubbed, containers keep kind, size and keys, sets become lists, other values stay; at the sixth level stands the truncation marker |
| Paths.ScrubUnderSecret | app/observability/logging.py:100-104 | right under every sensitive key stands the redaction marker |
| Paths.NothingElseIsShown | app/observability/logging.py:89-110 | the output has no other places: nothing under a sensitive key, nothing below the sixth level |
| Paths.SixListsAndMarker | app/observability/logging.py:77-108 | a list that contains itself, written out |
| Values.ScrubbedIsSettled | app/observability/logging.py:89-110 | the scrubber's output has nothing left to redact, down to the depth cap |
| Values.UnchangedIffSettled | app/observability/logging.py:89-110 | a value passes unchanged exactly when it has no secret text, marked sensitive keys, no set, and nesting below the cap |
| Values.ScrubValueIdempotent | app/observability/logging.py:89-110 | idempotence through nested containers, set conversion and truncation |
| Values.ScrubbedIsEmittable | app/observability/logging.py:77-110 | no string value at any depth holds a secret (keys and opaque leaves apart), every sensitive key holds the marker, no sets, at most six levels |
| Values.ShownCleanIff | app/observability/logging.py:89-110 | everything shown of the scrubbed value, keys and leaves included, is free of secrets exactly when the keys and leaves above the cap and outside sensitive keys are |
| Values.EqualOutputIffAlike | app/observability/logging.py:89-110 | two values give equal output exactly when they agree outside sensitive keys and the depth cap, with texts that have rows looking alike |
| Values.MarkersHoldNoSecret | app/observability/logging.py:29-92 | the redaction and truncation markers are no secrets themselves |
| HeapGraph.GraphScrubIsUnfoldedScrub | app/observability/logging.py:77-110 | on any closed object graph, cyclic or shared, the scrubber equals the plain scrubber on every unfolding that reaches the cap |
| Paths.UnfoldShowsGraph | app/observability/logging.py:89-110 | an unfolding has at the end of every path the node that the path leads to, of the same kind, text, size and keys |
| HeapGraph.GraphScrubIsEmittable | app/observability/logging.py:77-92 | so its result is finite, at most six levels deep, and no string value in it holds a secret |
| HeapGraph.GraphShownCleanIff | app/observability/logging.py:77-110 | everything shown of it is free of secrets exactly when the keys and leaves passed on in an unfolding to the cap are |
| HeapGraph.SelfContainingList | app/observability/logging.py:91-108 | a list that contains itself comes out as six lists around the truncation marker |
| Events.EventDict.Redact | app/observability/logging.py:113-120 | the in-place loop over a snapshot of the keys yields the redacted event; every key stays, and under each that spells one of the 24 words in any case stands the marker |
| Events.EventDict.Correlate | app/observability/logging.py:123-131 | the in-place loop yields the merge in which the event's own fields win |
| Events.SetDefaults | app/observability/logging.py:129-130 | after the loop exactly the missing context fields were added |
| Events.Enrich | app/observability/context.py:140-148 | copying the context and updating it with the payload yields the same merge |
| Events.BothMerges | app/observability/context.py:80-86 | both merges agree for every context and payload; explicit values win and only set correlation fields are added |
| Events.RedactedByKey | app/observability/logging.py:113-120 | exactly the fields whose names spell a secret word hold the marker, all others their scrubbed value |
| Events.WordInKeyHidesValue | app/observability/logging.py:82-120 | a secret word anywhere in a field name, in any casing, hides the value |
| Events.RedactedIsEmittable | app/observability/logging.py:113-120 | a redacted event keeps its keys; no string value in it holds a secret (keys and opaque leaves apart) and sensitive keys hold the marker |
| Events.RedactIdempotent | app/observability/logging.py:113-120 | redacting an event twice is redacting it once |
| Events.EventUnchangedIff | app/observability/logging.py:113-120 | an event passes unchanged exactly when every field is settled or marked |
| Events.SameLineIff | app/observability/logging.py:113-120 | two events are redacted to the same exactly when they have the same keys and agree outside sensitive keys up to what redaction hides |
| Events.EmittedIsCleanIff | app/observability/logging.py:174-200 | what the structlog chain hands to its renderer shows no secret, keys and leaves included, exactly when the traceback holds none and no surviving field passes one on |
| Events.EmittedFields | app/observability/logging.py:182-200 | the line has the surviving fields, redacted, without `exc_info`, and the traceback as it is |
| Events.SecretsPastTheRedactor | app/observability/logging.py:184-200 | any secret that is the traceback, or the name of a field, reaches the structlog renderer |
| Events.HandlerEventIsCleanIff | app/observability/logging.py:207-214 | the handler scrubs the rendered string as a whole; what its renderer is handed shows no secret unless a field set by the other processors passes one on |
| Events.HandlerEventShowsContext | app/observability/logging.py:123-131 | the handler's line carries each of the five correlation fields that is set, scrubbed, and no unset one |
| CorrelationContext.ContextState.BindContext | app/observability/context.py:104-117 | the loop sets the given fields and returns their tokens, or fails at the first unknown name with what it has set so far |
| CorrelationContext.ContextState.RestoreTokens | app/observability/context.py:98-101 | the loop resets the tokens last to first and stops where a reset is refused |
| CorrelationContext.ContextState.ClearContext | app/observability/context.py:134-137 | afterwards no field is set |
| CorrelationContext.BindTokens | app/observability/context.py:104-117 | whatever the names, a binding spends no token and hands out new ones |
| CorrelationContext.BindEffect | app/observability/context.py:104-117 | binding known fields sets exactly the given values, and its tokens undo exactly that |
| CorrelationContext.RestoreEffect | app/observability/context.py:98-101 | replaying fresh tokens in their own context succeeds and spends them |
| CorrelationContext.RestoreTwiceFails | app/observability/context.py:98-101 | replaying them again is refused |
| CorrelationContext.RestoreSucceedsIff | app/observability/context.py:98-101 | a replay succeeds exactly when every token is of this context, unspent, and there once |
| CorrelationContext.FailedBindLeaksNothingIff | app/observability/context.py:111-116 | a binding with an unknown name leaves the context as it was exactly when the fields before that name brought no new value |
| CorrelationContext.FailedBindLeaks | app/observability/context.py:111-116 | a concrete binding that fails and leaves a field set |
| TaskRuns.StepIsLocal | app/observability/context.py:1-9 | a step of one task changes no other task |
| TaskRuns.RunProjects | app/observability/context.py:1-9 | in any interleaving a task ends as it would on its own |
| TaskRuns.NoRestoreRaises | app/observability/context.py:92-131 | no restore raises in any run, whatever names the tasks bind, and the tokens of every open scope can be replayed |
| TaskRuns.RunKeepsInv | app/observability/context.py:92-131 | with known names, in every reachable state contexts are overlays of their open scopes |
| TaskRuns.FailedOpenLeaks | app/observability/context.py:111-131 | a scope with an unknown name does not open and leaves the fields before that name set |
| TaskRuns.ScopeRestores | app/observability/context.py:120-131 | closing a scope, or raising out of it and all within it, restores the fields from before it |
| TaskRuns.ScopeRestoresInAnyRun | app/api/middleware.py:52-65 | the same while other tasks interleave arbitrarily |
| TaskRuns.LogShowsInnermost | app/observability/context.py:80-86 | a log line shows for each field the innermost binding of its task, and no unset field |
| TaskRuns.SpawnCopies | app/observability/context.py:1-9 | a spawned task sees its parent's innermost bindings and owns none of its scopes |
| Propagation.SanitiseKeepsSafePart | app/api/middleware.py:73-78 | a sanitised identifier is the ordered subsequence of all characters among the first 128 that are on a spelled-out list, or none is |
| Propagation.SafePartIsUnique | app/api/middleware.py:73-78 | that subsequence is unique |
| Propagation.IdsComeFrom | app/api/middleware.py:27-71 | the request identifier is what the first of `x-request-id`, `x-correlation-id`, `request-id` offers, and new exactly when none offers one; the correlation identifier is what `x-correlation-id` offers, else the request identifier |
| Propagation.SanitiseIsIdempotent | app/api/middleware.py:73-78 | a sanitised identifier is its own sanitised form |
| Propagation.IdsAreSanitised | app/api/middleware.py:48-71 | both identifiers of every request are non-empty, safe and bounded |
| Propagation.PropagationIsStable | app/api/middleware.py:48-71 | over any number of hops every service works under the first pair of identifiers |
| Propagation.SafeTextHoldsFewShapes | app/api/middleware.py:73-78 | an identifier can never have the Bearer or DSN shapes |
| Propagation.FreshIdIsClean | app/observability/context.py:49-54 | a generated identifier has none of the six shapes |
| Propagation.LoggedIdIsEchoedIff | app/api/middleware.py:48-65 | the logged request_id equals the echoed one exactly when it holds no key and no JWT; always for generated ones |
| Propagation.LoggedCorrelationIsEchoedIff | app/api/middleware.py:50-60 | the same for correlation_id |
| Propagation.KeyShapedIdIsMasked | app/api/middleware.py:67-78 | a family of identifiers that are echoed verbatim and logged as the marker |
| RequestRuns.RequestLinesCarryId | app/api/middleware.py:48-65 | in any interleaving every line inside a request carries the request and the correlation identifier that the response echoes, unless the identifier holds a key or a JWT or a nested scope open at that moment gives another |
| RequestRuns.ChildLinesCarryId | app/observability/context.py:1-9 | so does every line of a task that is spawned meanwhile, except within scopes of its own that give another |
| SizeLimit.MeteredReceive.ReceiveAll | app/api/middleware.py:197-226 | a run of receives equals the specification over the whole stream |
| SizeLimit.ReplyAt | app/api/middleware.py:206-224 | the k-th receive fails exactly when it brings a request message above the cap, and otherwise hands over the upstream message itself |
| SizeLimit.FailuresAreFinal | app/api/middleware.py:206-224 | an exact prefix is delivered up to the first breach, and every later request message fails |
| SizeLimit.DeliveredWithinLimit | app/api/middleware.py:206-224 | the bytes delivered never exceed the cap, however often receive is called |
| SizeLimit.ChunkingDoesNotMatter | app/api/middleware.py:197-226 | a body is accepted exactly when its length is within the cap, for every split into messages |
| SizeLimit.SizesOfAnyStream | app/api/middleware.py:213-224 | of any stream, well-formed or not, every byte is counted and the recorded sizes are the totals at the last messages within the cap, in order |
| SizeLimit.SizeIsRecordedOnce | app/api/middleware.py:222-223 | a body within the cap is recorded once with its exact size, a larger one never |
| ContentLength.ParseIntIff | app/api/middleware.py:179-186 | a header is read as n exactly when it is an integer literal for n: white space, a sign, at most 4300 digits with single underscores between them, white space |
| ContentLength.ParsesContentLength | app/api/middleware.py:179-186 | a digits-only Content-Length is read as its decimal value, up to the interpreter's digit limit |
| SizeLimit.Handle | app/api/middleware.py:171-195 | the branches of the middleware compute the specification of both paths |
| SizeLimit.WholeBodyArrivesIff | app/api/middleware.py:171-226 | with an absent or honest length, however the body is split: within the limit all of it arrives and its size is recorded once; above it, the request is answered 413 or reading fails, and nothing is recorded |
| SizeLimit.LimitHolds | app/api/middleware.py:194-224 | for any stream the application sees no more bytes than the limit, unless a declared length understates it |
| SizeLimit.RejectedIff | app/api/middleware.py:179-191 | a declared length that is no integer is answered 400, one above the limit 413, and nothing else is rejected |
| SizeLimit.OtherScopesPass | app/api/middleware.py:172-174 | what is not an HTTP request passes through untouched |
| SizeLimit.PathsAgree | app/api/middleware.py:171-226 | declared and undeclared requests with the same body have the same verdict, the same messages and the same recorded size |
| RequestMetrics.Registry.Observe | app/api/middleware.py:90-109 | requests that come and go in any interleaving leave a registry in which gauge, counters, arrivals and durations are conserved |
| RequestMetrics.IncRaisesTotals | app/api/middleware.py:104-109 | an increment raises the total and its own route's total by one, and no other route's |
| RequestMetrics.EveryRunIsConserved | app/api/middleware.py:90-109 | in every interleaving the gauge is the number of open requests, gauge plus counters is arrivals, each counter is the number of requests that ended with its status (500 for exceptions and cancellations), and each duration count is the sum of its counters over status |
| ExceptionChain.Walk | app/infrastructure/database.py:266-275 | the walk begins with the argument and follows each cause, or else the context; it stops at the limit, at an end, or before a repetition; so it returns the distinct exceptions of the orbit, as many as the limit or the reachable ones |
| ExceptionChain.OrbitIsReachable | app/infrastructure/database.py:266-275 | an orbit prefix that ends or closes on itself contains all reachable exceptions |
| ExceptionChain.OrbitIsUnique | app/infrastructure/database.py:266-275 | order and length determine the result |
| ExceptionChain.Classify | app/infrastructure/database.py:226-263 | the class of an error; a statement timeout exactly if the message says so in any case, or one of the first ten exceptions along causes and contexts names a cancelled query |
| ExceptionChain.CanceledInChain | app/infrastructure/database.py:247-248 | searching the joined type names is searching the names of the first ten links of the orbit |
| Session.Database.Session | app/infrastructure/database.py:173-192 | which calls run under every choice of faults, what is committed, and what the caller sees |
| Session.Database.Sessions | app/infrastructure/database.py:173-192 | after any sequence of sessions the database is the fold of exactly the committed work |
| Session.CancelledBody | app/infrastructure/database.py:185-192 | a cancelled body leads to close alone, without a rollback |
| Session.FailedWorkIsInvisible | app/infrastructure/database.py:186-192 | work that did not commit can be dropped from the sequence without a difference |
| Lifecycle.StartupSucceedsIff | app/state.py:54-61 | from a sound and paired state a startup ends well exactly when afterwards all four fields are set |
| Lifecycle.ShutdownClearsIff | app/state.py:68-81 | a shutdown leaves nothing set exactly when every closing that there is something to do for ends well |
| Lifecycle.StartupRaises | app/state.py:54-61 | what a startup raises and leaves set under every fault; Redis is left alone when the database raises |
| Lifecycle.ShutdownRaisesIff | app/state.py:76-81 | a shutdown raises exactly what is no ordinary exception, and what becomes of the database |
| Lifecycle.AppState.Perform | app/state.py:54-93 | any sequence of operations on the objects is the run of the specification, keeps it sound, and drains for good |
| Lifecycle.RunIsSound | app/state.py:54-93 | in every run a factory implies an engine, a client implies a pool, and draining is final |
| Lifecycle.RunIsPaired | app/infrastructure/database.py:148-165 | engine and factory are set together in every run in which building the factory never raises |
| Lifecycle.PairedAfterStepIff | app/infrastructure/database.py:148-165 | a step breaks the pair exactly when it creates the engine and building the factory raises, and mends it exactly when it is a shutdown that reaches the database and disposes of the engine |
| Lifecycle.PairedAfterRunIff | app/infrastructure/database.py:148-165 | after any run engine and factory are set together exactly when every breaking step is followed by a mending one |
| Lifecycle.FactoryFaultBreaksPair | app/infrastructure/database.py:151-152 | a startup from the initial state that leaves the engine set alone |
| Lifecycle.BrokenPairPersists | app/infrastructure/database.py:149-150 | a broken pair stays broken until a shutdown |
| Lifecycle.DatabaseAttemptedIff | app/state.py:76-80 | a shutdown attempts the database exactly when Redis raised nothing beyond `Exception` |
| Lifecycle.CancelledRedisKeepsEngine | app/state.py:76-80 | a cancelled shutdown that does not attempt the database |
| Lifecycle.CleanShutdown | app/state.py:68-81 | from every reachable state a fault-free shutdown clears all four fields, and a Redis failure does not keep the database open |
| RetryAfter.HeaderIsCloseToDelay | app/api/errors.py:80-84 | the header is at least one, and within a millisecond below and a second above the delay |
| RetryAfter.RoundsDown | app/api/errors.py:82-84 | a delay of 1.0005 seconds gives 1 |
| RetryAfter.RoundsUpIff | app/api/errors.py:82-84 | it is the delay rounded up exactly unless the delay exceeds a positive whole number by less than a millisecond |

## Left out

- Foreign code (regular-expression engine internals beyond the fragment, structlog, Starlette, SQLAlchemy, redis-py, prometheus_client): a driver call is a step that may end well or raise, a counter is a number, a context variable has its documented set and reset meaning.
- RestoreTokens: does not tell `RuntimeError` (spent token) from `ValueError` (other context), because callers handle neither.
- ScrubValue: bytes, frozen sets, read-only mappings and other objects are one opaque leaf with the text that is shown of it; named tuples are excluded, since rebuilding one from a list fails in the source.
- Redact: keys of the event dictionary are strings, as structlog makes them.
- ShownCleanIff: says when each text that a renderer is handed is clean; the renderers are not modelled, and the row of texts they print may spell a DSN across two fields.
- Lower: characters whose lower case contains no ASCII character are left as they are, which cannot change a match with the ASCII key patterns.
- Sanitise: `isalnum` is modelled on Latin-1, the character set that header values are decoded to.
- HeaderValue: reals stand for floats, so binary rounding of the sum is not modelled; infinite and undefined delays are excluded.
- Session: a commit that raises is taken to have applied nothing; what the server did with a commit whose acknowledgement was lost is outside the model.
- Session: the finalisation of an abandoned generator and the attributes that `raise ... from` sets are not modelled.
- Walk: exceptions with a user-defined truth value or equality are excluded.
- Classify: `isinstance` outcomes and the message are given; the built error objects are represented by their class.
- Observe: elapsed times are not modelled, only the number of observations; the route template is a parameter.
- Admit: the error response, its counters and the log lines of a rejection are not modelled.
- Admit: a Content-Length that misstates the body is not metered by the source, and nothing is claimed about it.
- The service, trace, timestamp and other structlog processors: their fields are parameters of the events above. The clearing of handlers and the log levels in `configure_logging` are not modelled.
- `app/config/settings.py`, `app/domain/errors.py`, the handlers of `app/api/errors.py` other than the Retry-After line, `app/api/v1`, `app/api/deps.py` and the access log: finite tables or plumbing.
- The lifespan of `app/main.py` and signal handling.
- `RedisClient.execute` and the health checks: single-call error mapping and timing.
