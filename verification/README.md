# Rentify: verified models of the media benchmark, the OpenAPI tools and the fixture identifiers

This project models four parts of the Rentify backend in Dafny and proves what they are for.

- **Waiting for an upload** (`StatusBudget`, `UploadPolling`, `StatusSocket`). The media latency benchmark checks an
  item's status in a loop with a fine and then a coarse interval, through a sliding-window budget, a push channel,
  429 pauses and a two-minute deadline. The clock is an object that never goes back: reading it and sleeping may let
  any time pass, a sleep at least the time asked for; it logs every timer asked for and every request sent, in order. The
  server's answers and the pushes are arbitrary.
- **Checking the OpenAPI document** (`JsonPointer`, `References`, `Validation`, `Coverage`). Documents are graphs of
  numbered nodes, so that objects may be shared or contain themselves. A value seen one level deep is a `Shape`; the
  same definitions read graphs (through `At`) and trees (through `ShapeOf`).
- **Building the document** (`StripUndefined`, `RoutePaths`, `SpecBuilder`), over any list of operations and any
  components. `Denotation` relates a graph to the tree it denotes, whatever it shares, and `BuilderAcceptance` and
  `Coverage` say exactly when the validator accepts what the builder builds.
- **Reference images, percentiles and fixture identifiers** (`ReferenceImages`, `LatencyStats`, `FixtureIds`).

Methods follow the source where it updates things in place (the budget's list, the socket's sets, the generator's
state, the set of nodes a walk has seen, the loops of the validator and the builder) and are proved against functions
and predicates, about which the lemmas prove the rest. Predicates over long histories (`History`, `CoarselyPaced`,
`PacedBy`, `Trace`) are defined from the last check backwards; a lemma named `...Means` gives each in terms of indices.

Four claims of the source hold only with a condition, and the condition is proved exact:

- A printed reference reads back as the keys it was printed from, except that the empty list of keys prints like the
  empty key (`ParseBuild`, `BuildReferenceInjective`). A reference prints back as it was exactly when every tilde in
  it is followed by 0 or 1, as section 3 of RFC 6901 asks (`BuildParseIff`).
- Dropping undefined values keeps the JSON text exactly when no array held an undefined item (`StripKeepsMeaningIff`).
- Rewriting does not tell all route templates apart: `/:a` and `/{a}` are rewritten alike (`BracesCollide`), so the
  coverage check passes when one is documented and the other registered (`CoverageMissesBraces`). Two templates are
  rewritten alike exactly when they are the same with every parameter written with a colon (`NormalizeAlikeIff`), and a
  template can be told from every other exactly when nothing in it is rewritten or looks rewritten (`ToldApartIff`).
  The coverage check passes exactly when both sides agree on templates so written (`CoveragePassesIff`), which
  without braced parameters are the original ones (`CoverageIff`).
- `StatusCheckBudget.take` is to return how long it waited, and can return a negative number (`NegativeWaitOccurs`):
  exactly when the window was full at the last reading of its eviction and has emptied by the reading the wait is
  computed from (`Take`, `BudgetWaitMeans`). Its caller only asks whether the number is positive, which it is exactly
  when the window is full at that second reading.

Where the code and its comments differ, the models follow the code. `encodeJpegNear` is to give the highest quality that
fits. For sizes monotone in quality it gives that one, and quality 40, which does not fit, exactly when none does. For
other sizes it gives a quality that fits while the next higher one does not, or quality 40 though it does not fit.

## Model

| member | source | states |
|---|---|---|
| StatusBudget.WindowHoldsAtMost | backend/src/app/scripts/benchmark-media-latency.ts:111-122 | checks that any k places apart are a window apart never put more than k in a half-open window, wherever it starts |
| StatusBudget.HistoryMeans | backend/src/app/scripts/benchmark-media-latency.ts:119-149 | the history every budget keeps is, exactly, one that is in order and in which any 56 checks in a row span at least 60 s |
| StatusBudget.WindowFullIff | backend/src/app/scripts/benchmark-media-latency.ts:140-141 | exactly 55 checks lie in the last 60 s if and only if the 55th latest has not yet left the window |
| StatusBudget.ListFullIff | backend/src/app/scripts/benchmark-media-latency.ts:134-140 | after eviction the list holds 55 checks exactly when one more check would be the 56th in 60 s |
| StatusBudget.RecordKeepsHistory | backend/src/app/scripts/benchmark-media-latency.ts:140-146 | recording a check when fewer than 55 are listed keeps the rate bound over the whole history |
| StatusBudget.BudgetWaitMeans | backend/src/app/scripts/benchmark-media-latency.ts:138-143 | the wait computed from two readings is positive exactly when the window is full at the second, negative exactly when it was full at the first and has emptied before the second, and never more than 60 s |
| StatusBudget.NegativeWaitOccurs | backend/src/app/scripts/benchmark-media-latency.ts:121-148 | a history and two readings after which the number returned is negative, so it is not always how long the call waited |
| StatusBudget.StatusCheckBudget.Evict | backend/src/app/scripts/benchmark-media-latency.ts:132-136 | drops only checks that left the window and leaves none at the front that did; the list stays the end of the history |
| StatusBudget.StatusCheckBudget.Take | backend/src/app/scripts/benchmark-media-latency.ts:131-148 | asks for a timer exactly when the window is full after eviction, for exactly the time until the oldest check leaves it and never more than 60 s, and for nothing else; records the check without breaking the bound; the number returned is negative exactly when the window emptied between the eviction and the reading the wait is computed from |
| UploadPolling.AwaitCheck | backend/src/app/scripts/benchmark-media-latency.ts:533-550 | asks for exactly the scheduled or coarse delay, takes at least that unless a push ends it, then waits for the budget as the window at its readings asks, and never without a socket |
| UploadPolling.CheckOnce | backend/src/app/scripts/benchmark-media-latency.ts:533-574 | one turn of the loop: the delay, the wait for the budget as the window asks, the check, its one request, the answer and the pause a 429 asks for, exactly these in this order, and whether the timing became coarse |
| UploadPolling.PollUntilFinished | backend/src/app/scripts/benchmark-media-latency.ts:513-589 | ends whatever the server and the socket do, within 166 checks, or 71 without a socket; begins every turn at a reading within the two minutes and after the pause before it; asks for exactly the delays, waits, requests and pauses of its checks, in order; says when it finishes, times out or fails, how long it waited, and that the timing is coarse exactly when some check was slowed down |
| UploadPolling.DelayMeans | backend/src/app/scripts/benchmark-media-latency.ts:533-538 | the delay is the scheduled one, the last for all later checks, raised to 4 s from the 41st check on; it is coarse exactly when raised |
| UploadPolling.BudgetedChecks | backend/src/app/scripts/benchmark-media-latency.ts:119-149 | under the budget alone at most 165 checks are stamped within the two minutes |
| UploadPolling.PacedChecks | backend/src/app/scripts/benchmark-media-latency.ts:528-546 | under the coarse pacing alone at most 70 checks are stamped within the two minutes |
| UploadPolling.BudgetedBoundIsExact | backend/src/app/scripts/benchmark-media-latency.ts:528-531 | with a socket there is a run of 166 checks, each with its delay, readings and answer, that ends as the loop does when it times out, so the bound cannot be lowered |
| UploadPolling.PacedBoundIsExact | backend/src/app/scripts/benchmark-media-latency.ts:528-538 | without a socket there is such a run of 71 checks, so that bound cannot be lowered either |
| UploadPolling.PacedSpacing | backend/src/app/scripts/benchmark-media-latency.ts:111-120 | 40 fine checks and then one per 4 s keep any 55 in a row at least 60 s apart (the comment's 40 + 14 by 56 s) |
| UploadPolling.PacedNeverFull | backend/src/app/scripts/benchmark-media-latency.ts:111-118 | with that pacing the budget is never full when a check is made |
| UploadPolling.StampedRate | backend/src/app/scripts/benchmark-media-latency.ts:111-122 | no 60 s window of one upload holds more than 55 checks, nor more than 54 without a socket |
| UploadPolling.PacedByMeans | backend/src/app/scripts/benchmark-media-latency.ts:533-574 | a turn begins at most 120 s after the wait began, once the answer before it has come and its pause is over; a check waits out its delay, and waits for the budget exactly when the window is full once it decides, until the window empties, so never for more than 60 s |
| UploadPolling.TraceMeans | backend/src/app/scripts/benchmark-media-latency.ts:528-574 | the loop goes on after every check but the last, each delay is the scheduled or the coarse one, and without a socket no check waits for the budget |
| UploadPolling.AnySlowedMeans | backend/src/app/scripts/benchmark-media-latency.ts:161-162 | a timing is coarse exactly when a check came at the coarse interval, waited for the budget or met a 429 |
| StatusSocket.StatusSocket.OnStatus | backend/src/app/scripts/benchmark-media-latency.ts:446-449 | a push marks the item finished and resolves its registered waiter, as the event history says |
| StatusSocket.StatusSocket.Next | backend/src/app/scripts/benchmark-media-latency.ts:457-467 | a request resolves at once exactly when the item was pushed before, and otherwise registers as its waiter, as the event history says |
| StatusSocket.ResolvedIffHeard | backend/src/app/scripts/benchmark-media-latency.ts:432-467 | over every interleaving a promise is resolved exactly when some push came before it, or after it and before the next request for the same item |
| StatusSocket.NoLostWakeUp | backend/src/app/scripts/benchmark-media-latency.ts:457-467 | the latest request for an item is resolved exactly when the item has been pushed, so only a superseded one can stay pending |
| StatusSocket.PushResolvesItsItem | backend/src/app/scripts/benchmark-media-latency.ts:446-449 | a push resolves at most one promise, and none of another item |
| ReferenceImages.StateIsLinear | backend/src/app/scripts/benchmark-media-latency.ts:226-231 | after n calls the state is seed + n * 0x6d2b79f5 modulo 2^32, for any integer seed |
| ReferenceImages.FullPeriod | backend/src/app/scripts/benchmark-media-latency.ts:226-231 | two states coincide exactly when their call counts agree modulo 2^32 |
| ReferenceImages.EveryStateReached | backend/src/app/scripts/benchmark-media-latency.ts:226-231 | every 32-bit state is reached within 2^32 calls from any seed |
| ReferenceImages.Drawn | backend/src/app/scripts/benchmark-media-latency.ts:231-235 | a drawn number is a 32-bit integer divided by 2^32, so at least 0 and below 1 |
| ReferenceImages.XorShiftedInverse | backend/src/app/scripts/benchmark-media-latency.ts:234 | the last step of mixing reaches every 32-bit value and leaves the 14 highest bits alone |
| ReferenceImages.SampleDraws | backend/src/app/scripts/benchmark-media-latency.ts:231-235 | the values drawn from four states, among them the first after seed 0 |
| ReferenceImages.Mulberry32.Next | backend/src/app/scripts/benchmark-media-latency.ts:229-235 | steps the state and draws from the new one, so that the state stays that of the call count |
| ReferenceImages.EncodeJpegNear | backend/src/app/scripts/benchmark-media-latency.ts:277-298 | for sizes monotone in quality, the encoding at the greatest quality from 40 to 95 that fits, or at 40 exactly when none does; for any sizes an encoding that fits at a quality whose next higher one does not, or the one at 40 though it does not fit; always within 6 probes |
| ReferenceImages.SearchedFitIsBest | backend/src/app/scripts/benchmark-media-latency.ts:277-298 | what the search ends with is the best fit when sizes are monotone in quality, and fits exactly when some quality does |
| LatencyStats.PercentileIff | backend/src/app/scripts/benchmark-media-latency.ts:599-607 | for a fraction in (0, 1] the percentile is the one value with at least that share of the values no greater and less than that share smaller |
| LatencyStats.PercentileIsNearestRank | backend/src/app/scripts/benchmark-media-latency.ts:599-607 | it is one of the values |
| LatencyStats.PercentileMonotone | backend/src/app/scripts/benchmark-media-latency.ts:599-607 | a larger fraction never gives a smaller percentile, for any fractions |
| LatencyStats.PercentileOutside | backend/src/app/scripts/benchmark-media-latency.ts:599-607 | fractions up to 0 and from 1 on give the least and the greatest value, and no values give NaN |
| LatencyStats.SummaryIsOrdered | backend/src/app/scripts/benchmark-media-latency.ts:609-615 | p50 <= p95 <= max, max bounds every value, and the summary does not depend on the order of the values |
| LatencyStats.SummaryMeans | backend/src/app/scripts/benchmark-media-latency.ts:609-615 | p50 and p95 are exactly the values of nearest rank 0.5 and 0.95, max is exactly the greatest value, and no values give none of the three |
| JsonPointer.UnescapeEscape | backend/src/app/openapi/validation.ts:46-48 | the four replacement passes undo each other on every string |
| JsonPointer.EscapeCons | backend/src/app/openapi/validation.ts:46-48 | a tilde prints as `~0`, a slash as `~1`, and every other character as it is |
| JsonPointer.UnescapePair | backend/src/app/openapi/validation.ts:58-61 | a tilde before 0 reads as a tilde, before 1 as a slash, and before anything else stays |
| JsonPointer.ParseBuild | backend/src/app/openapi/validation.ts:397-399 | a printed reference reads back as its keys, the empty list as the empty key |
| JsonPointer.BuildReferenceInjective | backend/src/app/openapi/validation.ts:397-399 | two lists of keys print alike exactly when equal, or when both are among the empty list and the empty key |
| JsonPointer.BuildParseIff | backend/src/app/openapi/validation.ts:58-61 | a reference within the document prints back as it was exactly when every tilde is followed by 0 or 1 |
| References.ResolveBuilt | backend/src/app/openapi/validation.ts:50-76 | resolving a printed reference is stepping through the document key by key, whatever characters the keys hold |
| References.ResolveReference | backend/src/app/openapi/validation.ts:50-76 | the loop finds what stepping through the keys finds, and fails as and where it fails |
| References.ReferenceWalk.Walk | backend/src/app/openapi/validation.ts:78-110 | terminates on cyclic graphs, sees what it has not seen before in depth-first order, visits the `$ref` strings on the way, and stops at the first visit that throws |
| References.WalkOrderMeans | backend/src/app/openapi/validation.ts:78-110 | the order of a walk holds exactly the arrays and objects the root reaches, each once |
| References.EarlierPlaceFirst | backend/src/app/openapi/validation.ts:78-110 | of the arrays and objects one array or object holds, the walk sees the one at the earlier place first, when nothing else holds the later one |
| References.PreorderFollows | backend/src/app/openapi/validation.ts:78-110 | everything a walk sees is one of the values it started from, or a part of something it saw earlier |
| References.FirstThrownAt | backend/src/app/openapi/validation.ts:78-110 | what a walk throws is what the first visit to throw does, in the order of the walk, and nothing after it is visited |
| References.WalkReferences | backend/src/app/openapi/validation.ts:78-110 | visits exactly the reachable objects with a `$ref` string, each once and in depth-first order, until the first visit that throws, and throws what that one does |
| Validation.TrimBlank | backend/src/app/openapi/validation.ts:227-235 | a string trims to nothing exactly when it holds only white space |
| Validation.SpaceIff | backend/src/app/openapi/validation.ts:227-235 | white space is exactly the 25 characters that `trim` removes |
| JsonValues.TruthyIff | backend/src/app/openapi/validation.ts:283-292 | everything is truthy but undefined, null, false, zero and the empty string |
| Validation.FirstDefectExact | backend/src/app/openapi/validation.ts:142-216 | the checks of an operation report exactly the first defect it has, in the order of the checks, and none exactly when it has none |
| Validation.PrimaryIff | backend/src/app/openapi/validation.ts:181-186 | the primary response is that of the first of 200, 201 and 202 there is, and there is none when none of them is |
| Validation.HeaderFaultExact | backend/src/app/openapi/validation.ts:218-238 | the checks before the paths report exactly the first fault there, and none exactly when there is none |
| Validation.ValidatePathItem | backend/src/app/openapi/validation.ts:247-296 | reports the defect of the first of the item's operations that has one, and nothing only when each passes its checks |
| Validation.ValidatePaths | backend/src/app/openapi/validation.ts:240-297 | reports the first fault of the first entry of `paths` that has one, and nothing only when every entry is clean |
| Validation.ValidateReferences | backend/src/app/openapi/validation.ts:299-301 | reports the first reference in depth-first order that does not resolve, and nothing only when every reachable one does |
| Validation.FirstFaultUnique | backend/src/app/openapi/validation.ts:218-302 | a document has at most one first fault |
| Validation.ValidateDocument | backend/src/app/openapi/validation.ts:218-302 | accepts a document exactly when nothing in the list of faults is present anywhere in it, and otherwise reports exactly the first, in the order of the checks, the entries and the walk |
| Validation.EarlierBadReported | backend/src/app/openapi/validation.ts:107-109 | of two unresolved references in objects held by one array or object, the one at the earlier place is reported |
| RoutePaths.DenormalizeNormalize | backend/src/app/openapi/validation.ts:33-35 | rewriting `:param` to `{param}` by longest match keeps every template up to writing `{param}` as `:param`, on every string |
| RoutePaths.NormalizeAlikeIff | backend/src/app/openapi/validation.ts:33-35 | any two templates are rewritten alike exactly when they are the same with every parameter written with a colon |
| RoutePaths.NormalizeMeans | backend/src/app/openapi/spec.ts:10182 | a colon and the longest name after it, of letters, digits and underscores, become the name in braces, and every other character stays |
| RoutePaths.DenormalizeFixedIff | backend/src/app/openapi/validation.ts:33-35 | writing parameters with colons leaves exactly the templates without a braced parameter as they are |
| RoutePaths.NormalizeInjective | backend/src/app/openapi/validation.ts:33-35 | templates without a braced parameter are rewritten alike exactly when equal |
| RoutePaths.NormalizeIdempotent | backend/src/app/openapi/spec.ts:10182 | rewriting twice is rewriting once, on every string |
| RoutePaths.BracesCollide | backend/src/app/openapi/spec.ts:10182 | `/:a` and `/{a}` are rewritten alike |
| RoutePaths.ToldApartIff | backend/src/app/openapi/validation.ts:33-35 | no other template is rewritten like this one exactly when nothing in it is rewritten and it has no braced parameter |
| StripUndefined.StripIsClean | backend/src/app/openapi/spec.ts:22-38 | no undefined is left at any depth below the root |
| StripUndefined.StripFixedIff | backend/src/app/openapi/spec.ts:22-38 | exactly the values without an undefined below the root are left alone, and stripping twice is stripping once |
| StripUndefined.StripKeepsOrder | backend/src/app/openapi/spec.ts:23-27 | items are stripped one by one and stay in order |
| StripUndefined.StripKeepsKeyOrder | backend/src/app/openapi/spec.ts:29-34 | properties are stripped one by one and stay in order |
| StripUndefined.StripProp | backend/src/app/openapi/spec.ts:29-34 | reading a property and stripping commute, and the property stays exactly when it was not undefined |
| StripUndefined.StripKeepsReferences | backend/src/app/openapi/spec.ts:22-38 | the stripped value mentions exactly the same `$ref` strings |
| StripUndefined.StripKeepsMeaningIff | backend/src/app/openapi/spec.ts:14755-14760 | the JSON text is unchanged exactly when no array held an undefined item |
| SpecBuilder.BuildDocumentPaths | backend/src/app/openapi/spec.ts:10178-10202 | the loop over the operations builds a table that holds, for each path and method, the last operation with both, each once |
| SpecBuilder.PathsHoldLast | backend/src/app/openapi/spec.ts:10178-10202 | the table holds, for each path and method, the last operation with both, and nothing else |
| SpecBuilder.PathsAreProper | backend/src/app/openapi/spec.ts:10178-10202 | the table holds each path once, each method once under it, and no path without a method |
| SpecBuilder.PathsInOrder | backend/src/app/openapi/spec.ts:10178-10202 | the paths are listed in the order in which each first occurs among the operations |
| SpecBuilder.MethodsInOrder | backend/src/app/openapi/spec.ts:10178-10202 | the methods of a path are listed in the order in which each first occurs with it |
| SpecBuilder.FirstKeysMeans | backend/src/app/openapi/spec.ts:10184-10186 | of two keys listed in that order, the earlier one occurs before the other first does |
| SpecBuilder.OperationProps | backend/src/app/openapi/spec.ts:10188-10198 | what every operation object holds under each key |
| SpecBuilder.OptionalProps | backend/src/app/openapi/spec.ts:10193-10196 | security, parameters and request body are there exactly when defined |
| SpecBuilder.OperationKeysInOrder | backend/src/app/openapi/spec.ts:10188-10198 | an operation object has its keys in one fixed order, and no others |
| SpecBuilder.BuiltEntries | backend/src/app/openapi/spec.ts:14633-14745 | the built document has its six keys in order, the fixed version, title and texts, each server with its url and each tag with its name, in order, and the stripped paths and components |
| Denotation.RefersToIffMentions | backend/src/app/openapi/validation.ts:78-110 | the references a walk over a graph finds are those the tree it denotes mentions, however much is shared |
| Denotation.SoundAlike | backend/src/app/openapi/validation.ts:218-302 | whether a document has a fault depends only on the tree it denotes |
| BuilderAcceptance.BuiltOperationSoundIff | backend/src/app/openapi/validation.ts:252-295 | a built and stripped operation passes every check exactly when its definition has a summary, an operationId, a tag and defined JSON examples |
| BuilderAcceptance.BuiltStructureIff | backend/src/app/openapi/spec.ts:14633-14745 | the built document is well structured exactly when every operation not replaced has a rooted path and an acceptable definition |
| BuilderAcceptance.ResolveIff | backend/src/app/openapi/validation.ts:50-76 | a reference resolves in the built document exactly when every key it names is there and not undefined before undefined values are dropped |
| BuilderAcceptance.BuilderAcceptedIff | backend/src/app/openapi/spec.ts:14633-14745 | the validator accepts the built document, however held in memory, exactly when that is so and every reference made names, key by key, a value given to the builder that is there and not undefined |
| BuilderAcceptance.BuilderAccepted | backend/src/app/openapi/spec.ts:14633-14745 | operations with rooted paths and acceptable definitions, referring like the components only to components that are there, always make a document the validator accepts |
| BuilderAcceptance.BuiltDocumentExists | backend/src/app/openapi/spec.ts:14633-14745 | every built document can be held as a well-formed graph |
| BuilderAcceptance.ComponentReferenceIff | backend/src/app/openapi/spec.ts:1434-1463 | a reference printed for a component resolves exactly when the component is there and not undefined |
| BuilderAcceptance.ComponentRefIsBuilt | backend/src/app/openapi/spec.ts:1434-1463 | the references the helpers put together are the printed ones exactly for names without tildes and slashes |
| BuilderAcceptance.ComponentReferencesResolve | backend/src/app/openapi/spec.ts:1434-1463 | when operations and components refer only to components that are there, every reference resolves |
| Coverage.CollectOperations | backend/src/app/openapi/validation.ts:112-140 | the nested loops collect what the recursive definition collects, and stop at the first value that is not an object |
| Coverage.PathRoutes | backend/src/app/openapi/validation.ts:112-140 | collecting gives each HTTP operation of the paths once, and nothing else |
| Coverage.CollectFailsIff | backend/src/app/openapi/validation.ts:112-140 | collecting fails exactly without paths, or at the first entry or operation that is not an object, and says which |
| Coverage.ToUpperOf | backend/src/app/openapi/validation.ts:133 | collected methods are in capitals |
| Coverage.MethodNames | backend/src/app/openapi/validation.ts:26 | the five methods, as keys and in capitals |
| Coverage.BuiltRoutes | backend/src/app/openapi/spec.ts:10178-10202 | collecting from the built document gives the route of each operation once, and nothing else |
| Coverage.BuiltCountIff | backend/src/app/openapi/spec.ts:10178-10202 | the document holds as many operations as were defined exactly when no two share a method and a rewritten path |
| Coverage.CompareMeans | backend/src/app/openapi/validation.ts:328-360 | the comparison passes exactly when both sides have the same routes, and otherwise reports the lines of exactly those only one side has |
| Coverage.ValidateCoverage | backend/src/app/openapi/validation.ts:328-360 | on any document, passes exactly when the collected and the discovered routes are the same, and fails as collecting fails |
| Coverage.CoveragePassesIff | backend/src/app/openapi/validation.ts:328-360 | on the built document the coverage check passes exactly when the operations and the registered routes have the same methods and templates, with every parameter written with a colon |
| Coverage.CoverageIff | backend/src/app/openapi/validation.ts:328-360 | without braced parameters, exactly when they have the same methods and original templates |
| Coverage.CoverageMissesBraces | backend/src/app/openapi/validation.ts:328-360 | with `/:a` documented and `/{a}` registered the coverage check passes though the templates differ |
| FixtureIds.LastDigitsSpellRemainder | backend/src/app/seeds/types.ts:462-463 | padding and slicing keep exactly the remainder by 10^k, in k digits |
| FixtureIds.FixtureIdIsUuid | backend/src/app/configuration/validation/uuid.ts:17-20 | every fixture identifier has the 8-4-4-4-12 hexadecimal shape that validation asks for |
| FixtureIds.FixtureIdParts | backend/src/app/seeds/types.ts:461-465 | an identifier is the fixed prefix, the last four digits of the namespace, a hyphen and the last twelve digits of the index |
| FixtureIds.FixtureIdsCollideIff | backend/src/app/seeds/types.ts:461-465 | two fixture identifiers are equal exactly when the namespaces agree modulo 10^4 and the indices modulo 10^12 |

## Left out

- Time and fractions are real numbers: floating-point rounding, NaN intervals (`--poll-interval` that is not a number) and timers that fire early are not modelled. Numbers in documents are finite reals.
- Strings are sequences of characters; UTF-16 code units and Unicode normalisation play no part.
- Objects have own keys only: keys that the prototype would answer to in `in` or in `paths[path]` are not modelled, nor are array holes, functions, dates and class instances as document values. Integer-like keys, which JavaScript lists first, keep the place their object gives them.
- `PollUntilFinished` does not model how `Promise.race` and the socket's promises interleave: with a socket a push may end any delay at any moment, which is more than the socket can do. `StatusSocket` proves separately what its promises do.
- The requests before the loop, the upload itself, its deletion, sign-in, the retry after a 401 and the reading of `Retry-After` are not modelled; the time requests take and the pause a 429 asks for are arbitrary.
- The texture of the reference images, `sharp`, the cache of images and the worker logs are not modelled; an encoding is any function of the quality.
- Sorting the compared routes is not modelled, as it only orders the message; nor is finding the registered routes in the source files by a regular expression, or comparing the generated files.
- `summarize` is modelled before its values are rounded and printed, over any sorted arrangement of the values.
- `buildOperations`, `buildComponents`, `commonErrors` and the other helpers that write out fixed operations and components are data: every theorem holds for any operations and components.
- `stripUndefinedDeep` is modelled on trees, where it always ends; it does not end on an object that contains itself.
- `createFixtureId` is modelled for natural numbers below 10^21, where `toString` prints every digit; the model prints every digit of larger ones too.
- The booking, payment, search and moderation services, the seeds, the frontend and the MCP server are not modelled.
