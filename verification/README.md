# Collector engines, modelled and proved

This project models the stateful engines of the tracing collector and proves
what they keep over every input and every run: the trace assembler, the indexed
in-memory store, the tail sampler, rule-based and rate-limited sampling, the
head-decision cache of the ingest path, the sliding windows behind the rates and
the heat map, the trace analysis, trace comparison, and the row layout of the
waterfall view. Check it with `dafny verify dfyconfig.toml` (Dafny 4.11).

## How it is built

Go objects that change are classes with the same fields; loops over them are
loops with invariants. Where steps of several goroutines interleave (assembler,
tail sampler, decision cache) there is, beside the class, a machine whose steps
are the critical sections between lock and unlock; each class method is proved
to be a step, or, when nothing comes between, a sequence of steps, of that
machine. The laws are proved of every run of it, in which the steps of a call may
lie apart with those of other calls between them; where a law needs a condition on
what lies between, it is stated with that condition. A timer is a step that may
come at any time, also after it has been reset or stopped.

| file | what it holds |
|---|---|
| `Model.dfy` | identifiers, spans, traces |
| `Sequences.dfy`, `Text.dfy`, `KeyedLog.dfy` | lists without repetition, sorting, string order, selections |
| `Forest.dfy` | parent chains over an arbitrary parent relation, cycles included |
| `TraceTree.dfy`, `Assembler.dfy` | building the tree of a trace; grouping spans by trace |
| `TraceStore.dfy`, `TraceSearch.dfy`, `MemoryStore.dfy` | the store as a list, searching as a scan, and the indexed store that refines both |
| `TailPolicies.dfy`, `TailProtocol.dfy`, `TailSampler.dfy` | policies, the buffer-then-decide protocol, the sampler |
| `SamplingRules.dfy`, `RateLimit.dfy` | wildcard patterns and rules; the token bucket |
| `IngestPipeline.dfy`, `SamplerSwap.dfy` | the cache of head decisions and the ingest loop; replacing the sampler under running calls |
| `SlidingWindow.dfy` | both sliding windows and the heat map |
| `CriticalPath.dfy`, `Arrangements.dfy`, `ParallelGroups.dfy`, `Gaps.dfy` | longest chain, siblings by start, parallel groups, gaps |
| `MatchKeys.dfy`, `AncestryKeys.dfy`, `SpanOrder.dfy`, `SpanGroups.dfy`, `TraceComparison.dfy` | matching keys and what they tell, grouping, the comparison |
| `SpanLayout.dfy` | depth-first listings and the rows of the waterfall view |

Conventions. Time is an integer number of nanoseconds (whole seconds in the
windows), 0 being the zero time; clock readings are parameters. Identifiers are
bounded numbers, 0 being the zero identifier; the user interface gets them as
text. `sort.Slice` is any sorted rearrangement, since it is not stable; what is
proved holds however ties fall. Maps are ranged over in any order. Strings are compared by code point, which is
how Go compares UTF-8 text byte by byte.

## Where the code departs from what one would expect

The model follows the code. Where a member is named, its contract states the case exactly.

- Replacing a trace in the store: the old version stays in the map while
  `Upsert` makes room (`internal/storage/memory.go:52-66`). A full store
  therefore loses one trace more than needed (`StoreSpec.UpsertEvictsOldest`),
  and in a store with room for one trace the eviction loop never ends when that
  trace is replaced; it ends in every other case (`StoreSpec.EvictionLoopEnds`).
- The operation filter compares index keys. Without a service in the query it
  reads the operation off the key behind the first colon, which is right for a
  span if and only if the span's service name has no colon
  (`SearchSpec.OperationFilterExact`). With a service it is right for every span if
  and only if neither name in the query has a colon
  (`SearchSpec.ServiceOperationExact`). For whole traces and any query the exact
  condition is `SearchSpec.QueryExact`. The traces found are the right ones if and only
  if no stored trace that passes the other filters is one the indexes get wrong
  (`SearchSpec.ListingExact`). If just one is, the answer is wrong on every page
  (`SearchSpec.WrongAnswer`); several can make up for each other in total and page.
- The tail sampler's duration counts a zero time as not yet seen. It is the time
  from the first start to the last end if and only if some start is zero exactly
  when all ends are (`TailPolicies.DurationExact`).
- Between taking a buffer and recording the verdict the tail sampler holds no
  lock. Each trace is in one place and is judged once between resets, at every
  moment of a run, if and only if no span arrives while its trace is in flight
  (`TailProtocol.OneVerdictIff`). When one does, the trace is buffered and decided
  at once if the flight lands before the trace is taken again or evicted
  (`TailProtocol.OverlapShows`), and can then be judged again
  (`TailProtocol.OverlapJudgesTwice`).
- Where no span arrives in flight, all spans of a decided trace go the same way
  (`TailProtocol.WholeTraces`) until decided outgrows its limit and is thrown away;
  a span that comes after that opens its trace anew.
- The limit of twice maxSize on decided holds right after a verdict is recorded;
  evictions add to it without limit until the next one
  (`TailProtocol.DecidedBound`, `TailProtocol.DecidedGrows`).
- The sampler package's window leaves its index at 0 on first use, and so drops
  the first second's events early: by how much and when is stated exactly by
  `SamplerWindow.SlidingWindow.Rate`, `SamplerWindow.MinutePassedIff` and
  `SamplerWindow.ShelvedSum`.
- The heat map reads the error windows apart from the rate windows and places their
  buckets by the rate windows' seconds. When each error window is any number of
  seconds ahead or behind, the errors of a cell, summed over all of them, are right if
  and only if those found out of place add up to those they displace
  (`Heatmap.LateCellExact`); up to a minute ahead these are the newest seconds in place
  of the oldest (`Heatmap.LateErrors`).
- A cell of the heat map is dated by the first rate window read
  (`internal/metrics/red.go:124-126`, `:143`), and every other window by its own
  second. When they are read in different seconds, a span count is that of the ten
  seconds of its label if and only if the seconds that come in hold as much as those
  that go out (`Heatmap.TimestampExact`); for errors both effects add up
  (`Heatmap.CellExact`).
- Which children are reported in one parallel group can depend on how ties in the
  sort fall. It does not if and only if there is no start at which one child lasts,
  another does not, and no earlier child is still running
  (`ParallelGroups.TiesExact`). Where it does not, the groups are the components of a
  relation on the children as given (`ParallelGroups.GroupsAreBonded`), which is
  overlap in time when all durations are positive.
- A reported gap is idle throughout if and only if no earlier sibling runs into it
  (`Gaps.ReportedIsIdle`), for durations of any sign. Whether one does can depend on
  how ties in the sort fall; on the children as given the exact condition is
  `Gaps.AlwaysIdleIff`. No idle moment is ever missed (`Gaps.IdleIsReported`).
- The key under which a span is compared does not depend on which spans were asked
  for before if and only if its parent chain does not run into a cycle of two spans
  or more (`MatchKeys.KeyFixedIff`); a span that names itself as parent does no harm.
  The same condition decides whether the groups depend on the order in which the
  spans are listed (`SpanGroups.GroupingFixedIff`), and whether a trace compared with
  another listing of itself shows a difference (`TraceComparison.ComparisonFixedIff`).
- Keys tell different ancestries apart if and only if no name can have a slash or a
  greater-than sign (`AncestryKeys.KeysDetermineIff`).
- The visit of the waterfall view ends if and only if no descent from the root's
  identifier comes back to where it has been (`SpanLayout.EndsIff`). With identifiers
  that tell the spans apart none does (`SpanLayout.IdentifiedEnds`).
- Spans of one trace need not share one head decision: the lock of the decision cache is
  taken once for each span, and a completed trace clears its decision from a timer
  (`api/pipeline.go:91`), so that a clearing can come between two spans of one batch
  (`DecisionCache.ClearingSplits`). Two questions less than a time to live apart share
  one decision if and only if nothing between them clears the trace
  (`DecisionCache.SharedIffNotForgotten`, and for a batch
  `IngestPipeline.BatchAllOrNone`).
- A call that has read the sampler before it was replaced can ask it, and have its
  decision remembered, after the cache was cleared for the new one
  (`SamplerSwap.LateCallOutlivesSwap`). All answers are the new sampler's if and only if
  no such call reaches the old one (`SamplerSwap.SwapExact`).
- A token bucket for less than one trace in two seconds never grants
  (`RateLimit.EverGrants`).
- A comment in `internal/processor/assembler.go:131-132` says that further roots
  become children of the first one. They do not: they are walked like orphans,
  at depth 0.
- A comment in `internal/metrics/window.go:27-28` dates the copied buckets as if
  they were in order of time. They are in ring order: which second a bucket stands
  for is `WindowSpec.SecondOf`, and the heat map reads them so.
- A rule's `MinDuration` and `StatusCode` are never consulted
  (`SamplingRules.DurationAndStatusIgnored`).

## Model

| member | source | states |
|---|---|---|
| `TraceTree.BuildTree` | internal/processor/assembler.go:84-214 | for any list of distinct span objects (repeated identifiers, missing parents, cycles): the walk ends, reaches exactly the spans whose parent chain ends, each once and after its parent; depth is the hops to the top, children are complete and sorted by start, a reached span is erroneous iff it or a descendant was, the others keep their mark; root, duration, services and error count are those of the spans |
| `TraceTree.ChildrenExact` | internal/processor/assembler.go:107-163 | in the finished tree the children of a span are exactly the spans that name it, where it is the last with its identifier, once each and by start |
| `TraceTree.IndexSpans` | internal/processor/assembler.go:99-105 | an identifier stands for the last span that carries it, and every span starts without children at depth 0 |
| `TraceTree.ParentIff` | internal/processor/assembler.go:99-121 | a span has as its parent the last span with the identifier it names, and none if it names none or one that no span carries |
| `TraceTree.LinkChildren` | internal/processor/assembler.go:107-121 | every span is listed once under its parent and nowhere else; roots and orphans are exactly the parentless spans |
| `TraceTree.PickSeeds` | internal/processor/assembler.go:123-150 | the walk starts from every parentless span once, and the root is the earliest one |
| `TraceTree.Walk` | internal/processor/assembler.go:138-163 | the breadth-first walk ends and leaves exactly the forest below its seeds, with depths in hops |
| `TraceTree.UnreachedIffCyclic` | internal/processor/assembler.go:107-163 | a span is left out of the walk if and only if it is on or below a parent cycle |
| `TraceTree.FrontierExhausted` | internal/processor/assembler.go:144-163 | when the queue is empty the visited spans are exactly those whose chain ends |
| `TraceTree.PropagateErrors` | internal/processor/assembler.go:169-177 | one backward pass marks exactly the spans with an error at or below them |
| `TraceTree.ErrorBelowChildren` | internal/processor/assembler.go:169-177 | an error at or below a span is an error of its own or one at or below a child |
| `TraceTree.Extent` | internal/processor/assembler.go:179-192 | without a root the duration is the time from the first start to the last end |
| `TraceTree.CollectServices` | internal/processor/assembler.go:194-204 | the service names that occur, once each, sorted, the empty one left out |
| `TraceTree.CountErrors` | internal/processor/assembler.go:206-211 | the number of spans whose status is error |
| `Forest.GroundedIffNoCycle` | internal/processor/assembler.go:99-163 | over any parent relation a chain ends if and only if it does not run into a cycle |
| `AssemblerProtocol.Conservation` | internal/processor/assembler.go:37-80 | in every interleaving, the batches taken for a trace followed by what is pending are the spans added for it, in order of arrival |
| `AssemblerProtocol.OnePlace` | internal/processor/assembler.go:37-80 | each added span is pending under its own trace or in exactly one taken batch |
| `AssemblerProtocol.ReachableConsistent` | internal/processor/assembler.go:37-80 | in every reachable state pending and taken lists are nonempty and of one trace, and no batch is delivered twice |
| `AssemblerProtocol.StopEmpties` | internal/processor/assembler.go:224-238 | without concurrent additions nothing is pending once every trace has been taken, whatever timers fire meanwhile |
| `Assembler.Assembler.AddSpan` | internal/processor/assembler.go:37-55 | is the protocol's addition step; delivers nothing |
| `Assembler.Assembler.Finalize` | internal/processor/assembler.go:58-80 | takes the trace's pending spans and delivers one trace built from them; on a stale timer changes nothing |
| `Assembler.Assembler.Stop` | internal/processor/assembler.go:224-238 | leaves nothing pending and delivers one more trace for each that was, built from its spans |
| `StoreSpec.RunOrderly` | internal/storage/memory.go:45-148 | after every run of operations that return: at most maxSize traces, each as last upserted, in eviction order (receipt time, then order of upsert) |
| `StoreSpec.UpsertEvictsOldest` | internal/storage/memory.go:45-102 | the new trace is present afterwards; anything else that goes was before all that stays in eviction order, and goes only from a full store; a full store is full again after a new trace and one short of full after a replacement |
| `StoreSpec.EvictionLoopEnds` | internal/storage/memory.go:52-66 | the eviction loop ends if and only if the store may hold two traces or the trace is not there yet |
| `StoreSpec.RoomForTwo` | internal/storage/memory.go:63-66 | with maxSize of two or more every run of operations completes |
| `StoreSpec.RemovalExact` | internal/storage/memory.go:159-176 | deletion removes exactly the trace named, retention exactly the traces received before the cutoff |
| `MemoryStore.MemoryStore.constructor` | internal/storage/memory.go:31-42 | an empty consistent store; a size of zero or less means 10000 |
| `MemoryStore.MemoryStore.Upsert` | internal/storage/memory.go:45-102 | keeps map, timeline and all three indexes equal to those rebuilt from the stored traces, and is the list operation of the specification |
| `MemoryStore.MemoryStore.Displace` | internal/storage/memory.go:51-61 | the version to be replaced leaves indexes and timeline but stays in the map |
| `MemoryStore.MemoryStore.MakeRoom` | internal/storage/memory.go:63-66 | the loop ends and keeps exactly the newest traces that leave room for one more |
| `MemoryStore.MemoryStore.RemoveFromIndexes` | internal/storage/memory.go:105-134 | afterwards every index is the one of the map without the trace, with no empty bucket |
| `MemoryStore.MemoryStore.Evict` | internal/storage/memory.go:137-148 | removes exactly the oldest trace, from everything |
| `MemoryStore.MemoryStore.Delete` | internal/storage/memory.go:159-176 | removes exactly the named trace and keeps everything in step |
| `MemoryStore.MemoryStore.EvictOlderThan` | internal/storage/memory.go:404-414 | removes exactly the traces received before the cutoff and returns how many |
| `MemoryStore.MemoryStore.Query` | internal/storage/memory.go:179-336 | answers as a scan of every stored trace with every filter would: the page of a listing in the order asked for, its total, and whether more follows; an identifier query looks at identifier and tenant only |
| `MemoryStore.MemoryStore.Candidates` | internal/storage/memory.go:202-247 | the index lookups and intersections leave exactly the stored traces that pass the service, operation and error filters |
| `MemoryStore.MemoryStore.OperationIds` | internal/storage/memory.go:217-235 | exactly the traces with a span whose key matches the operation asked for |
| `MemoryStore.MemoryStore.LoadFiltered` | internal/storage/memory.go:249-277 | each candidate that passes the remaining filters, once |
| `MemoryStore.SortAndPage` | internal/storage/memory.go:279-335 | total counts all that was found; the page is cut from a rearrangement in which the field sorted by does not decrease (does not increase, if descending) in the summaries; it begins at the offset and ends at the limit, and more follows iff something is cut off behind it |
| `MemoryStore.SearchAfter` | internal/storage/memory.go:94-96 | binary search finds the place behind every entry received no later |
| `SearchSpec.PageOrdered` | internal/storage/memory.go:279-335 | the page is in order by duration, span count or receipt, ascending or descending as asked; what falls before the offset may precede all of it, what falls behind it may follow all of it, and the three parts are all matching traces |
| `SearchSpec.LatestShown` | internal/storage/memory.go:295-319 | a query for the latest traces leaves out none received after one that it shows |
| `SearchSpec.PageShows` | internal/storage/memory.go:324-335 | no trace is shown twice, and each place on the page shows the fields of a stored trace that passes the filters |
| `SearchSpec.ListedIff` | internal/storage/memory.go:202-277 | which traces match, by what their summaries show: every bound includes its end, unset filters let everything through |
| `TraceIndex.AddKeys` | internal/storage/memory.go:70-85 | the identifier is added under exactly the given keys, nothing else changes |
| `TraceIndex.DropServices` | internal/storage/memory.go:108-115 | the identifier is gone from exactly the given keys and no bucket is left empty |
| `TraceIndex.DropOperations` | internal/storage/memory.go:117-131 | the same for the operation keys of the spans, each handled once |
| `SearchSpec.RecoverOperation` | internal/storage/memory.go:526-533 | the key gives the operation back if the service has no colon, and something longer if it has one |
| `SearchSpec.OperationFilterExact` | internal/storage/memory.go:223-233 | comparing keys means comparing operations, for every query without a service, if and only if the span's service has no colon |
| `SearchSpec.ServiceOperationExact` | internal/storage/memory.go:219-221 | with a service in the query, comparing keys means comparing service and operation, for every span, if and only if neither name in the query has a colon |
| `SearchSpec.QueryExact` | internal/storage/memory.go:202-247 | the index filters mean what they say, for every trace whose services are listed, if and only if the query asks for no operation, or for a service and an operation without a colon |
| `SearchSpec.MistakenTrace` | internal/storage/memory.go:202-247 | for every other query a trace that the indexes get wrong; for service `a:b` and operation `c` one with services `a` and `a:b` |
| `SearchSpec.ListingExact` | internal/storage/memory.go:179-336 | whatever is stored, the traces listed are those of the scan by names if and only if no stored trace that passes the other filters is one the indexes get wrong |
| `SearchSpec.WrongAnswer` | internal/storage/memory.go:179-336 | a store with exactly one such trace, and any others, gives an answer that the scan by names does not |
| `SearchSpec.IndexFiltersExact` | internal/storage/memory.go:202-247 | for colon-free services the index filters mean what they say |
| `SearchSpec.ScanByName` | internal/storage/memory.go:179-336 | for colon-free services, or a query that is exact anyway, a query answers the scan that compares service and operation themselves |
| `TailPolicies.VerdictIsFirstOpinion` | internal/sampler/tail.go:193-219 | the verdict is that of the first policy that does not abstain, and drop without one |
| `TailPolicies.ErrorsKept` | internal/sampler/tail.go:17-41 | an error policy preceded by error and latency policies only accepts every trace with an error span |
| `TailPolicies.Judge` | internal/sampler/tail.go:193-219 | the loop over the policies gives that verdict |
| `TailPolicies.KeptIff` | internal/sampler/tail.go:17-59 | the policies keep a trace if and only if, before the first probabilistic policy and in whatever order, an error policy meets an error or a latency policy a duration that reaches its threshold, or else the leading bits of the identifier are below that policy's threshold |
| `TailPolicies.SlowKept` | internal/sampler/tail.go:31-41 | with every time set, a trace that takes as long as a latency policy asks for, from first start to last end, is kept |
| `TailPolicies.DurationExact` | internal/sampler/tail.go:178-191 | the scanned duration is last end minus first start if and only if some start is zero exactly when all ends are |
| `TailPolicies.DurationOfAnyOrder` | internal/sampler/tail.go:178-191 | without zero times the duration does not depend on the order of arrival |
| `TailProtocol.Conservation` | internal/sampler/tail.go:97-220 | in every interleaving each occurrence of a span given to AddSpan is in exactly one of buffered, in flight, accepted, discarded |
| `TailProtocol.BufferBound` | internal/sampler/tail.go:97-151 | in every interleaving at most maxSize traces are buffered (one, if maxSize is less) |
| `TailProtocol.LandingJudges` | internal/sampler/tail.go:193-220 | at any moment of any run: once judged, a trace is decided true if and only if the policies keep the spans taken; exactly those are then accepted, otherwise the trace is rejected and none is |
| `TailProtocol.ErrorTraceAccepted` | internal/sampler/tail.go:17-29 | with an error policy behind error and latency policies only, a judged trace with an error span has all its spans accepted |
| `TailProtocol.AddGoes` | internal/sampler/tail.go:97-130 | a late span of a decided trace is accepted if the trace was kept and let go if not; any other span joins those buffered for its trace |
| `TailProtocol.WholeTraces` | internal/sampler/tail.go:97-220 | over every run in which no span arrives in flight and decided is not reset: every span given of a decided trace, before the verdict or after it, is accepted if the trace is kept, and none is if it is not |
| `TailProtocol.RecordBound` | internal/sampler/tail.go:155-165 | right after a verdict is recorded decided holds it and at most 2·maxSize verdicts |
| `TailProtocol.StepKeepsOneVerdict` | internal/sampler/tail.go:97-220 | where every trace is buffered, in flight once, decided, or none of these, and judged once since the last reset, a step keeps it so if and only if it does not add a span of a trace in flight |
| `TailProtocol.OneVerdictIff` | internal/sampler/tail.go:97-220 | over every run: that holds at every moment if and only if no step of the run adds a span of a trace in flight |
| `TailProtocol.StaysBuffered` | internal/sampler/tail.go:97-176 | a buffered trace stays buffered in a step if and only if the step does not take or evict it |
| `TailProtocol.OverlapShows` | internal/sampler/tail.go:167-220 | over every run: after such a step the trace is buffered and decided at once when a flight of it lands, if it is neither taken nor evicted in between |
| `TailProtocol.StopEmpties` | internal/sampler/tail.go:223-237 | without concurrent additions nothing is buffered in the end if and only if every buffered trace has been taken, whatever timers fire and flights land meanwhile |
| `TailProtocol.SerialOneVerdict` | internal/sampler/tail.go:97-220 | in particular it holds when no two calls overlap |
| `TailProtocol.DecidedBound` | internal/sampler/tail.go:141-165 | over every run decided holds at most the limit of recording plus the evictions since a verdict was last recorded |
| `TailProtocol.DecidedGrows` | internal/sampler/tail.go:108-151 | spans of any number of different traces, arriving one by one, are a possible run and leave all of them decided but those that fit the buffer |
| `TailProtocol.OverlapJudgesTwice` | internal/sampler/tail.go:167-220 | a run in which a span arrives between take and verdict: the trace is buffered and decided at once, then judged again |
| `TailSampler.TailSampler.AddSpan` | internal/sampler/tail.go:97-130 | is the protocol's addition step, with the longest waiting trace as victim when one has to go |
| `TailSampler.TailSampler.EvictOldest` | internal/sampler/tail.go:132-151 | removes exactly the longest waiting trace and rejects it |
| `TailSampler.TailSampler.RecordDecision` | internal/sampler/tail.go:155-165 | is the protocol's recording of a verdict, reset included |
| `TailSampler.TailSampler.EvaluateTrace` | internal/sampler/tail.go:167-220 | is take followed by verdict: the trace is then decided as the policies say of its buffered spans, and exactly these are accepted, or the trace is rejected; nothing happens for a trace that is not buffered |
| `TailSampler.TailSampler.Stop` | internal/sampler/tail.go:223-237 | empties the buffer: what is accepted grows by exactly the buffered spans of the traces that the policies keep, the rejections by one for each of the others, and no span is lost |
| `Glob.GlobMatch` | internal/sampler/rules.go:48-65 | true if and only if the text matches the pattern with each `*` standing for any characters |
| `Glob.MatchesByParts` | internal/sampler/rules.go:48-65 | matching a pattern is finding its parts in order, the first at the start and the last at the end |
| `Glob.LeftmostSuffices` | internal/sampler/rules.go:57-63 | taking the leftmost occurrence of a part loses no match |
| `SamplingRules.RuleMatches` | internal/sampler/rules.go:23-45 | a rule applies iff service, operation pattern and every tag agree, unset conditions agreeing with anything |
| `SamplingRules.ConditionsAdd` | internal/sampler/rules.go:23-45 | a rule without conditions applies to everything, and each condition added lets through exactly what meets it: the service, the pattern, an attribute with key and text |
| `SamplingRules.DurationAndStatusIgnored` | internal/sampler/rules.go:15-45 | a rule applies or not whatever its least duration and status |
| `SamplingRules.RuleBasedSampler.constructor` | internal/sampler/rules.go:74-81 | keeps every rule, highest priority first |
| `SamplingRules.RuleBasedSampler.Choose` | internal/sampler/rules.go:83-93 | the rule that decides applies and no applying rule outranks it; the fallback decides iff none applies |
| `SamplingRules.BestOfReordered` | internal/sampler/rules.go:74-93 | the choice among the sorted rules is a best choice among the rules as given |
| `RateLimit.RateLimitSampler.ShouldSample` | internal/sampler/ratelimit.go:28-40 | refills, grants iff a whole token is there, and takes it |
| `RateLimit.TokensInRange` | internal/sampler/ratelimit.go:28-40 | over every run the bucket is neither overdrawn nor fuller than twice the rate |
| `RateLimit.TokenBalance` | internal/sampler/ratelimit.go:28-40 | what is left plus what was granted never exceeds a full bucket plus what the time was worth |
| `RateLimit.TokensExact` | internal/sampler/ratelimit.go:28-36 | the tokens there are for a call: a full bucket and the time since some earlier call, less the grants between, and no stretch of calls allows more |
| `RateLimit.GrantedIff` | internal/sampler/ratelimit.go:28-40 | a call is granted if and only if every stretch of calls that ends with it, the grant included, stays within 2·rate plus the rate over its time |
| `RateLimit.BurstIff` | internal/sampler/ratelimit.go:28-40 | the first n calls, at one instant, are all granted if and only if n is at most 2·rate |
| `RateLimit.GrantBound` | internal/sampler/ratelimit.go:28-40 | between any two calls at times a and b at most 2·rate + rate·(b − a) grants |
| `RateLimit.EverGrants` | internal/sampler/ratelimit.go:18-40 | no call is ever granted if and only if twice the rate is below one |
| `RateLimit.GrantedAfterPause` | internal/sampler/ratelimit.go:28-40 | a call is granted when the pause before it is worth a token |
| `DecisionCache.SweepingIsInvisible` | api/pipeline.go:216-266 | with a clock in lock order, the swept cache gives the same answers and asks the sampler as often as one that never forgets on its own |
| `DecisionCache.SweptInTime` | api/pipeline.go:243-253 | right after a question no entry in the cache has been expired for longer than the time between sweeps |
| `DecisionCache.TraceSharesDecision` | api/pipeline.go:216-241 | spans of one trace, each within a time to live of the one before and with no clearing between, share one decision and one sampler call |
| `DecisionCache.OneDecision` | api/pipeline.go:229-233 | a live entry answers every question with its decision and is prolonged by each |
| `DecisionCache.SharedIffKeptAlive` | api/pipeline.go:216-266 | over every run: of two questions about one trace, the sampler is not asked about it after the first, up to the second, if and only if the trace was kept alive between them, by questions each within a time to live of the last and with no clearing |
| `DecisionCache.SharedIffNotForgotten` | api/pipeline.go:216-266 | over every run: two questions about one trace less than a time to live apart, and all between, share one decision and one sampler call if and only if nothing between them clears the trace |
| `DecisionCache.ClearingSplits` | api/pipeline.go:91-92 | a clearing between two spans of a trace: one is kept and the next dropped |
| `IngestPipeline.Pipeline.SweepExpired` | api/pipeline.go:243-253 | drops exactly the expired entries, when a sweep is due |
| `IngestPipeline.Pipeline.DecisionForSpan` | api/pipeline.go:216-241 | answers and changes the cache as the protocol's step does; the sampler is asked only on a miss, about the span that speaks for the trace |
| `IngestPipeline.Pipeline.ClearTraceDecision` | api/pipeline.go:255-259 | forgets exactly one trace |
| `IngestPipeline.Pipeline.ClearAllTraceDecisions` | api/pipeline.go:261-266 | forgets everything, the last sweep included |
| `IngestPipeline.FindBatchRoots` | api/pipeline.go:118-127 | for each trace with a root in the batch, a root, and one with the earliest start time if any has one |
| `IngestPipeline.Pipeline.IngestSpans` | api/pipeline.go:117-169 | accepted plus dropped is the number of spans; exactly the spans with identifiers whose decision is not to drop are submitted, in order, each decided at the clock reading taken for it; the sampler is asked once for each that the cache cannot answer, about the root of its trace in the batch, the earliest that has a start time, or about the span itself if the batch holds no root, and its answer is the decision |
| `IngestPipeline.PassedIff` | api/pipeline.go:152-168 | a span is submitted if and only if its question passed |
| `IngestPipeline.PassesIff` | api/pipeline.go:154-158 | a question passes if it is answered with recording or sampling |
| `IngestPipeline.BatchInOrder` | api/pipeline.go:129-152 | with a clock that does not go back, the questions of a batch continue any history in the order of the clock |
| `IngestPipeline.BatchAllOrNone` | api/pipeline.go:117-169 | over every run in which the questions of a batch lie among the steps of other calls: two spans of one trace, read within one time to live, are decided with one sampler call if and only if nothing between their questions clears the trace, and are then submitted together or not at all |
| `IngestPipeline.UninterruptedAllOrNone` | api/pipeline.go:117-169 | so for a batch that nothing interrupts, after any history: all spans of a trace read within one time to live are submitted together or not at all |
| `SamplerSwap.CacheIsRun` | api/pipeline.go:140-152 | with reading the sampler and asking the cache as separate steps, the cache still runs as the protocol says |
| `SamplerSwap.LateReadBefore` | api/pipeline.go:140-152 | a call holds another sampler than the new one only if it read it before the swap |
| `SamplerSwap.SwapExact` | api/pipeline.go:181-192 | over every run after a swap and its clearing, until the next swap: every answer is a decision of the new sampler if and only if no call that holds another one reaches it |
| `SamplerSwap.CleanSwap` | api/pipeline.go:181-192 | with no call between its two locks at the swap, every answer after it is the new sampler's |
| `SamplerSwap.LateCallOutlivesSwap` | api/pipeline.go:140-152 | a run in which a call that reads the sampler after the swap is answered with the old one's decision |
| `TailIngest.IngestSpans` | api/pipeline.go:145-150 | under a tail sampler every span with identifiers is accepted and ends up in exactly one place of the sampler |
| `WindowSpec.Roll` | internal/metrics/window.go:60-72 | clearing the seconds gone by, or all, keeps every bucket equal to what was added in its second |
| `WindowSpec.TotalOfMinute` | internal/metrics/window.go:43-47 | the buckets together hold what was added in the last sixty seconds |
| `MetricsWindow.SlidingWindow.Advance` | internal/metrics/window.go:50-75 | for any positive clock, also backwards: the window's second is the latest seen, and the buckets match the log |
| `MetricsWindow.SlidingWindow.Add` | internal/metrics/window.go:19-25 | logs the amount at the window's second |
| `MetricsWindow.SlidingWindow.Rate` | internal/metrics/window.go:38-48 | exactly what was added in the last sixty seconds, over sixty |
| `MetricsWindow.SlidingWindow.RawBuckets` | internal/metrics/window.go:29-35 | a copy in which every bucket is what was added in its second of the last minute |
| `SamplerWindow.SlidingWindow.Advance` | internal/sampler/window.go:40-64 | the same with the first second's events kept in bucket zero |
| `SamplerWindow.SlidingWindow.Add` | internal/sampler/window.go:19-25 | logs the amount at the window's second |
| `SamplerWindow.SlidingWindow.Rate` | internal/sampler/window.go:28-38 | the true count of the last sixty seconds less an exactly stated shortfall, over sixty |
| `SamplerWindow.MinutePassedIff` | internal/sampler/window.go:40-44 | the first second's events are cleared exactly when a full minute boundary counted from it has passed |
| `SamplerWindow.ShelvedSum` | internal/sampler/window.go:28-38 | only the first second's events are ever missing, and only while that second is in the window |
| `SamplerWindow.ShortfallNotNegative` | internal/sampler/window.go:28-38 | the window never reports too much |
| `Heatmap.HeatmapData` | internal/metrics/red.go:99-147 | six cells ten seconds apart that add up, window by window, the ten seconds each stands for by that window's second; dated by the first window |
| `Heatmap.GroupsCoverMinute` | internal/metrics/red.go:128-137 | the six groups use every bucket once: nothing lost, nothing twice |
| `Heatmap.CellsAddUp` | internal/metrics/red.go:121-139 | the six cells together show all that is in the rate windows as spans and all that is in the error windows as errors |
| `Heatmap.StretchIsTime` | internal/metrics/red.go:128-137 | a group of a window's copy is what was added in those seconds |
| `Heatmap.CellIsTime` | internal/metrics/red.go:121-139 | a cell's count, of spans or of errors, is what all windows of that kind counted in its ten seconds, when read in the same second |
| `Heatmap.LateStretch` | internal/metrics/red.go:121-137 | one window that is any number of seconds ahead or behind: which positions are in place, and which second each other one stands for |
| `Heatmap.LateCellExact` | internal/metrics/red.go:121-139 | a cell's errors over all windows, each with its own lag: off by those found out of place less those displaced, and right if and only if the two sums agree |
| `Heatmap.LateErrors` | internal/metrics/red.go:121-139 | with lags of up to a minute, those out of place are the errors of the seconds after the newest, and those displaced the ones a minute before |
| `Heatmap.TimestampExact` | internal/metrics/red.go:121-145 | windows read in different seconds: a cell's spans are those of the ten seconds up to its timestamp if and only if the seconds gained hold as much as those missed |
| `Heatmap.CellExact` | internal/metrics/red.go:121-145 | both effects together, by the cell's timestamp: right if and only if what is out of place and what is gained add up to what is displaced and missed |
| `Heatmap.BucketIndex` | internal/metrics/red.go:130-134 | Go's remainder, corrected, is the position of the second in the ring for negative seconds too |
| `CriticalPath.LongestPath` | internal/analysis/critical_path.go:26-40 | returns a parent-to-child chain whose total is the best one |
| `CriticalPath.ChainBound` | internal/analysis/critical_path.go:26-40 | no downward chain from the span, however long, has a greater total, durations of any sign |
| `CriticalPath.TotalAdds` | internal/analysis/critical_path.go:26-40 | the total of a chain is the sum of its spans' times from start to end |
| `CriticalPath.ComputeCriticalPath` | internal/analysis/critical_path.go:18-24 | on an assembled trace: the best chain from the root, and none without a root |
| `ParallelGroups.DetectParallelGroups` | internal/analysis/critical_path.go:44-89 | the sorted children fall into runs nothing later is linked to; the groups are the runs of two or more, from first start to last end; for distinct children of positive duration, two are reported together if and only if a chain of overlaps in time joins them, and more generally wherever no tie is sensitive |
| `ParallelGroups.Collect` | internal/analysis/critical_path.go:63-76 | the inner loop collects one run, although it checks no sibling for being taken |
| `ParallelGroups.SegmentsAreComponents` | internal/analysis/critical_path.go:59-86 | two siblings are in one run if and only if they are connected |
| `ParallelGroups.ParallelIffConnected` | internal/analysis/critical_path.go:44-89 | two different siblings are reported together if and only if they are connected, however ties fall |
| `ParallelGroups.ConnectedByBonds` | internal/analysis/critical_path.go:67-69 | where no tie is sensitive, links in the sorted list connect the same siblings as a relation that does not look at the order |
| `ParallelGroups.GroupsAreBonded` | internal/analysis/critical_path.go:44-89 | where no tie is sensitive, two children are reported together if and only if a chain of that relation joins them, whatever the sort made of ties |
| `ParallelGroups.ParallelIffOverlapping` | internal/analysis/critical_path.go:44-89 | with positive durations the report is the connected components of the overlap graph on the children as given, whatever the sort made of ties |
| `ParallelGroups.TiesExact` | internal/analysis/critical_path.go:52-54 | any two arrangements of distinct children by start report the same children together if and only if there is no start at which one child lasts, another does not, and no earlier child is still running |
| `ParallelGroups.SensitiveTieShows` | internal/analysis/critical_path.go:52-86 | at such a start two arrangements report different groups |
| `ParallelGroups.GroupIsSegment` | internal/analysis/critical_path.go:78-85 | every reported group is exactly one run |
| `ParallelGroups.GroupExtent` | internal/analysis/critical_path.go:62-85 | a group has two spans or more and reaches from their first start to their last end |
| `Gaps.DetectGaps` | internal/analysis/critical_path.go:93-122 | one gap, with its length, wherever a root's child in start order starts after the one before it ended |
| `Gaps.GapIff` | internal/analysis/critical_path.go:105-119 | the gaps reported are exactly those from the end of a child to the later start of the next one |
| `Gaps.IdleIsReported` | internal/analysis/critical_path.go:105-119 | every moment between the first and last start that no child covers is in a reported gap |
| `Gaps.AlwaysIdleIff` | internal/analysis/critical_path.go:99-119 | on distinct children as given: every reported gap is idle throughout, however ties fall, if and only if no two children can be neighbours with a gap between them into which a third runs |
| `Gaps.ReportedIsIdle` | internal/analysis/critical_path.go:105-119 | every reported gap is idle throughout if and only if no earlier child that lasts starts before the gap ends and ends after the gap begins, for durations of any sign |
| `MatchKeys.KeyMatcher.SpanMatchKey` | internal/analysis/compare.go:124-148 | ends on any parent relation, restores the visiting set, and returns key and cache as specified |
| `MatchKeys.KeyIsAncestry` | internal/analysis/compare.go:124-148 | where the parent chain ends, or ends in a span that names itself, the memoised key is the chain of segments, whatever the cache holds |
| `MatchKeys.KeyText` | internal/analysis/compare.go:124-152 | what a key reads, whatever has been asked for before: the key of the parent, or the missing parent's identifier, or nothing, followed by service and name |
| `MatchKeys.IdTextOrder` | internal/analysis/compare.go:167 | the texts of identifiers are in the order of the identifiers |
| `MatchKeys.CyclicKeepsCache` | internal/analysis/compare.go:124-148 | asking about spans on cycles never spoils the keys of the others |
| `MatchKeys.KeyFixedIff` | internal/analysis/compare.go:124-148 | the key of a span is the same after every list of earlier questions if and only if its parent chain does not run into a cycle of two spans or more |
| `MatchKeys.CyclicKeyVaries` | internal/analysis/compare.go:128-145 | on or below such a cycle two histories give keys of different length |
| `AncestryKeys.AncestryKeyOf` | internal/analysis/compare.go:132-152 | the key of a span is the text of its ancestry: the names from the top down, below a missing parent or none |
| `AncestryKeys.KeysDetermineIff` | internal/analysis/compare.go:28-31 | over an alphabet for names, keys tell all ancestries apart if and only if it has neither separator |
| `AncestryKeys.SameKeySameAncestry` | internal/analysis/compare.go:28-31 | for such names two spans have the same key if and only if they have the same ancestry |
| `SpanOrder.SortSpans` | internal/analysis/compare.go:115-119 | a sorted rearrangement by start, end, service, name, identifier |
| `SpanOrder.SpanOrderIs` | internal/analysis/compare.go:154-168 | the order is by start, of equal starts by end, then by service, name and identifier |
| `SpanOrder.OneSpanOrder` | internal/analysis/compare.go:154-168 | with distinct identifiers there is only one such arrangement |
| `SpanGroups.GroupSpans` | internal/analysis/compare.go:100-122 | groups by key, every span in the group of its key, each group sorted |
| `SpanGroups.IdMapLast` | internal/analysis/compare.go:100-106 | an identifier stands for the last span that carries it |
| `SpanGroups.GroupsPartition` | internal/analysis/compare.go:100-122 | the groups hold every span exactly once |
| `SpanGroups.GroupingOfAnyOrder` | internal/analysis/compare.go:100-122 | without cycles of two spans or more and with distinct identifiers the groups do not depend on the order of the spans |
| `SpanGroups.GroupingFixedIff` | internal/analysis/compare.go:100-122 | with distinct identifiers: they do not depend on it if and only if there is no such cycle |
| `SpanGroups.GroupingDetermined` | internal/analysis/compare.go:100-122 | one list has one grouping, cycles or not |
| `TraceComparison.CompareTraces` | internal/analysis/compare.go:36-94 | the three deltas; every match names a span of each trace and the second one's duration less the first one's in milliseconds; the report of pairing equal keys group by group in key order, whose identifiers account for every span of both traces exactly once; a trace with distinct identifiers compared with itself shows no difference |
| `TraceComparison.MatchedIff` | internal/analysis/compare.go:63-91 | two spans match if and only if they stand at the same place in the groups of one key; a span is left over if and only if the other trace's group of its key does not reach to its place |
| `TraceComparison.ComparisonPartitions` | internal/analysis/compare.go:63-91 | each base span is matched or only in base, once, and so for the other trace; the leftovers differ by the difference in length |
| `TraceComparison.ReportAccounts` | internal/analysis/compare.go:63-91 | the same for the identifiers as reported |
| `TraceComparison.ComparisonOfAnyOrder` | internal/analysis/compare.go:33-94 | on trees the outcome does not depend on the order in which spans are listed |
| `TraceComparison.ComparisonFixedIff` | internal/analysis/compare.go:33-94 | with distinct identifiers: every comparison of two listings of the same spans pairs each span with itself and leaves nothing over, if and only if there is no cycle of two spans or more |
| `TraceComparison.ComparisonWithItself` | internal/analysis/compare.go:36-94 | with distinct identifiers a trace compared with itself matches every span with itself, deltas zero |
| `SpanLayout.SpanRows.Visit` | web/src/components/waterfall/span-layout.ts:19-39 | wherever the nested calls are bounded in number: ends, and appends the span's row and the listings of its children by start, one deeper |
| `SpanLayout.EndsIff` | web/src/components/waterfall/span-layout.ts:19-39 | the visit of a span stays within some number of nested calls if and only if no descent from its identifier comes back to where it has been |
| `SpanLayout.IdentifiedEnds` | web/src/components/waterfall/span-layout.ts:19-47 | with identifiers that tell the spans apart the visit from the root ends |
| `SpanLayout.ListingVisited` | web/src/components/waterfall/span-layout.ts:19-39 | with such identifiers a listing is the whole subtree of the span, once each, in preorder, siblings by start, depths in hops |
| `SpanLayout.ListingNested` | web/src/components/waterfall/span-layout.ts:19-39 | whatever the identifiers, every other row of a listing hangs from a row of its parent: the last one before it that is less deep |
| `SpanLayout.SpanRows.PushOrphans` | web/src/components/waterfall/span-layout.ts:49-64 | appends, in input order and at depth 0, the spans whose identifiers have no row yet |
| `SpanLayout.BuildSpanRows` | web/src/components/waterfall/span-layout.ts:15-67 | wherever the visit from the first root ends: its listing, then the orphans, offsets counted from the first start; with identifiers that tell the spans apart, everything below the first root in preorder with contiguous subtrees and depth in hops, then the rest in input order |
| `SpanLayout.RenderingCovers` | web/src/components/waterfall/span-layout.ts:15-67 | whatever the identifiers, the tree rows are nested and every identifier has a row |
| `SpanLayout.LayoutComplete` | web/src/components/waterfall/span-layout.ts:15-67 | with identifiers that tell the spans apart every span has exactly one row |
| `SpanLayout.LayoutUnique` | web/src/components/waterfall/span-layout.ts:15-67 | the input has only one such layout, so the rows are determined |
| `SpanLayout.SiblingsAscend` | web/src/components/waterfall/span-layout.ts:33-39 | in a layout siblings stand by start, and those that start together as in the input |
| `SpanLayout.KidsAscend` | web/src/components/waterfall/span-layout.ts:33-35 | the same of the children of any visit, whatever the identifiers |
| `SpanLayout.RenderingLed` | web/src/components/waterfall/span-layout.ts:41-47 | the first row is that of the first span whose parent identifier is empty or zero |
| `SpanLayout.FindRoot` | web/src/components/waterfall/span-layout.ts:41-43 | the first span without parent, if there is one |
| `Preorder.PreorderUnique` | web/src/components/waterfall/span-layout.ts:33-39 | a subtree has only one preorder listing with siblings in order |
| `Preorder.HopsBound` | web/src/components/waterfall/span-layout.ts:19-40 | a chain that ends has no more hops than there are parents, which bounds the recursion |

## Left out

- Assembler.Assembler.AddSpan: requires that the span object is not pending already; every decoder makes a new object, so the case does not arise. Timers, `lastAt`, `ReceivedAt` and `CompletedAt` are not modelled.
- MemoryStore.MemoryStore.Upsert: requires that the eviction loop ends, which EvictionLoopEnds decides; the model says nothing about a call that never returns.
- MemoryStore.MemoryStore.Query: the attribute filter is an arbitrary predicate on a trace and the filter text.
- TailSampler.TailSampler.DecideTaken: recording a verdict and calling back are one step; in the code the lock is released between them, which changes when the callback sees the spans and not which.
- TailSampler.TailSampler.AddSpan: the accept callback for a decided trace is part of the step, though it runs after the lock is released.
- TailPolicies.ErrorsKept: the probabilistic policy compares the leading 64 bits of the trace identifier with a threshold; how a rate becomes a threshold is floating-point rounding.
- RateLimit.RateLimitSampler.constructor: requires a rate of at least zero; the HTTP handler refuses others. Rates and tokens are real numbers, without rounding.
- DecisionCache.SweepingIsInvisible: assumes that clock readings do not go back in the order in which the lock is taken; the code reads the clock before taking it.
- Heatmap.HeatmapData: the copies of the windows are inputs; choosing the services by name and tenant is left out.
- CriticalPath.LongestPath: is given an order in which children come after parents, which bounds the recursion; the assembler provides one (ForestLayered).
- SpanLayout.BuildSpanRows: says nothing about a visit that does not end, which EndsIff decides. Division into milliseconds, and the columns copied from the span, are left out.
- IngestPipeline.Pipeline.IngestSpans: its contract is for a call nothing interrupts; what holds among the steps of other calls is BatchAllOrNone.
- TailSampler.TailSampler.Stop: its contract is for a call nothing interrupts; what holds among other steps is TailProtocol.StopEmpties.
- SamplerSwap.SwapExact: a machine without a class beside it, for samplers that are asked for a decision; a swap from or to a tail sampler and stopping the old sampler are left out.
- `Shutdown` of the pipeline, the worker queue and what a worker does with a span: plumbing around the modelled calls.
- `List`, `Get`, `Services` and `Operations` of the store: read off the same fields.
- Other samplers (adaptive, probabilistic, always, parent-based), histograms, anomalies and service levels: one-line claims, randomness or floating-point statistics.
- The latency heat map, metric recording, HTTP and gRPC handlers, event streams, persistence, replication, authentication: input and output.
- Overflow of 64-bit durations, counters and clock readings: integers are unbounded.
