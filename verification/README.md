# weft-chaos, verified

weft-chaos drives load against a cluster, injects failures, watches rules and writes a report. This
project models the parts that decide what the report says, and proves that it follows from what
happened:

- **Scraping and judging.** `Text` and `Decimal` model the string functions and the number syntax.
  `Scrape` is parseMetric and parseHistogram as loops, `Accumulate` says what their loops build up,
  `Grammar` says which lines they read, `Labels` and `Exposition` say exactly what a rendered label block
  is read as, `Pages` and `HistogramPages` say what the scrapers make of whole rendered pages and exactly
  when they invert the renderer, and `Sla`, `BusDrops` and `Audit` carry that through to the recorded
  breaches. `Csv` has the two comma-separated parameters.
- **The workload agent.** `Pacing` is the steady/burst automaton in integer nanoseconds, `Agents` the
  agent object, `Cluster` what any interleaving of agents leaves on an idealised cluster.
- **The orchestrator.** `AgentSteps`, `Injection` and `WatcherSteps` are the three kinds of goroutine as
  step systems, `Orchestrator` runs any number of each under one scheduler with a context that may end at
  any moment, `RunReport` builds the objects from the scenario, launches them and writes the report.
- **The breach ledger.** `Breaches` is the recorder as one goroutine sees it, `RecorderSteps` the same
  recorder with any number of goroutines inside it, `Ledger` the grouping and the totals.

`Sums` holds the summation lemmas they share, `Order` what it means to take entries from a list in order.

In every step system a state is a value, a step is enabled or not, and a run is a list of enabled steps; a
`select` with several ready cases may take any of them, so a statement about all runs covers every
interleaving. A timer of the agent fires `late` nanoseconds after it is due, for any natural `late`, so
quantifying over the lateness covers every timing that Go's timers permit.

## Where the code and its comments disagree

The model follows the code.

- internal/wclient/wclient.go:103-107 says that the first matching sample is returned; all are summed
  (`Pages.TwoSamplesAdd`).
- internal/wclient/wclient.go:138-143 has all label permutations of a metric summed and 403-405 has further
  labels tolerated but ignored. A closing brace in a label value, as in `path="/users/{id}"`, ends the label
  block: the sample is passed over without notice, or takes whatever number follows the brace for its value
  (`Pages.SampleRoundTripIff`, `Pages.BraceDropsSample`, `Exposition.BraceInValueMisreads`). A metric with
  such labels only is reported missing (`BusDrops.BracedSamplesAreMissing`), a histogram with such labels
  has no boundary (`Sla.BracedBucketsHaveNoBoundary`). In front of `le`, a label whose name ends in `le` or
  whose value ends in `le=` takes its place (`Exposition.BucketRoundTripIff`).
- internal/wclient/wclient.go:428 says that order in the page does not matter to a histogram; it does not
  exactly when there is no count line or no two lines disagree (`Grammar.HistogramInAnyOrderIff`), and a
  histogram split by a further label is a counterexample (`HistogramPages.SplitHistogramDependsOnOrder`).
- internal/invariants/respawn_within_sla.go:143-145 offers `min_samples = 0` to flag too few samples; a
  histogram of no observations is still not flagged, since 0/0 is below nothing
  (`Sla.NoObservationsNoBreach`).
- internal/invariants/bus_drops_zero.go:83 calls the sentinel NaN; it is -1, so a negative sample counts as
  not yet sampled (`BusDrops.NegativeSampleHidesGrowth`).
- internal/invariants/audit_tenant_isolation.go:111-114 promises a breach for every event of another
  tenant; events without a tenant are passed over (`Audit.OneBreachPerLeak`).
- internal/agents/agent.go:116-119 promises a similar resource count; deletes never name what creates
  made, and ceil(n/2) resources per agent stay (`Cluster.RunLeavesHalfBehind`).
- internal/orchestrate/orchestrate.go:83-86 has every applied injector reverted; one whose recover_at is
  unset or not after its at_offset never is (`Orchestrator.InjectorLifecycle`).
- internal/orchestrate/orchestrate.go:51-53, 62-64 and 112-114 make bad parameters fatal, return the first
  error of any goroutine and end the wait on a crash. A watcher that rejects its parameters returns an error
  that changes nothing: every scenario can still end in success (`Orchestrator.WatcherErrorsDoNotDecide`),
  and without cancellation Run returns if and only if there is no agent and every watcher rejects
  (`Orchestrator.ReturnsUncancelledIff`).

## Model

| member | source | states |
|---|---|---|
| Text.SpacesAre | internal/wclient/wclient.go:149 | the blanks are the characters from tab to carriage return and the space |
| Text.TrimSpaceIs | internal/wclient/wclient.go:149 | blanks around a text are taken away and nothing else |
| Text.NoFieldIff | internal/wclient/wclient.go:173-176 | there is no first field if and only if the text is all blanks |
| Decimal.ReadsExactlyLiterals | internal/wclient/wclient.go:177 | the number reader accepts exactly the decimal literals and yields exactly the literal written |
| Decimal.ParseFloatOfText | internal/wclient/wclient.go:516 | every literal is read back as its value |
| Decimal.NextDigitReads | internal/wclient/wclient.go:177 | digits are read positionally to the base of ten |
| Decimal.NatTextReads | internal/wclient/wclient.go:177 | the decimal text of a natural number reads as that number |
| Decimal.FractionReads | internal/wclient/wclient.go:177 | `w.f` reads as 10^n times less than `wf`, n being the length of `f`; either part may be empty |
| Decimal.SignReads | internal/wclient/wclient.go:177 | a minus negates what the unsigned text reads as, a plus changes nothing, for numbers and other text |
| Decimal.ExponentReads | internal/wclient/wclient.go:177 | one more in the exponent is ten times as much, for negative ones too; zero changes nothing |
| Decimal.ExponentDigitsRead | internal/wclient/wclient.go:177 | other digits of an exponent, as with leading zeros, mean the number they read as |
| Decimal.MalformedIsRefused | internal/wclient/wclient.go:177-180 | text without digits, or without digits behind the mark of an exponent, is no number |
| Scrape.ParseMetric | internal/wclient/wclient.go:144-188 | the loop computes the page's tally of samples, not-found included, for any reader of numbers |
| Scrape.ParseHistogram | internal/wclient/wclient.go:430-482 | the loop computes the assembly of the page's lines, not-found without a count line |
| Grammar.SampleGrammar | internal/wclient/wclient.go:148-182 | a line is a sample of value v if and only if it splits into name, optional block closed by its first brace, blanks, a field that reads as v, and a tail |
| Grammar.BucketGrammar | internal/wclient/wclient.go:441-521 | a line sets bucket b to v if and only if it splits into name, a block closed by its first brace whose first `le="` opens the quoted text of b, blanks, a field that reads as v, and a tail |
| Grammar.CommentsAreSkipped | internal/wclient/wclient.go:150-152 | comments and blank lines are read under no name |
| Grammar.NameSeparation | internal/wclient/wclient.go:440-457 | no line contributes to two different metrics, nor to two different histograms in whatever roles |
| Grammar.CountLineIsSample | internal/wclient/wclient.go:453-475 | a line sets a histogram's count to v if and only if parseMetric reads v under the name with `_count` |
| Grammar.ForeignLinesDoNotMatter | internal/wclient/wclient.go:147-161 | all lines that do not begin with exactly the metric's name can be dropped |
| Grammar.ForeignLinesDoNotMatterToHistograms | internal/wclient/wclient.go:435-457 | all lines that begin with neither the bucket nor the count name can be dropped |
| Grammar.PagesAddUp | internal/wclient/wclient.go:145-187 | reading two pages joined by a newline adds what each of them carries |
| Grammar.MetricIsSumInAnyOrder | internal/wclient/wclient.go:138-143 | the metric is the sum over all samples, found if and only if there is one, in every order of the lines |
| Grammar.HistogramInAnyOrderIff | internal/wclient/wclient.go:426-430 | every order of the lines gives the same histogram if and only if there is no count line or no two lines disagree |
| Accumulate.LastBucketLineWins | internal/wclient/wclient.go:441-452 | a bound is in the histogram if and only if some line sets it, with the value of the last such line |
| Accumulate.LastCountLineWins | internal/wclient/wclient.go:453-475 | the count is that of the last count line, absent if and only if there is none |
| Labels.ExtractLeIs | internal/wclient/wclient.go:526-539 | which text extractLabel takes for `le` in what stands before the first brace, for any labels in front of the real one; none if the block seems to end before a bound is closed |
| Exposition.BucketLineIsRead | internal/wclient/wclient.go:487-521 | the bound and the value read from a bucket line with any legal labels on both sides of `le`, or that it is dropped |
| Exposition.BucketRoundTripIff | internal/wclient/wclient.go:487-539 | it gives back its own bound and value if and only if no label in front obscures `le` (or the first that does is named like `handle` and reads as the same bound) and no label value holds a brace (or what follows the first one reads as the same number) |
| Exposition.BraceInValueMisreads | internal/wclient/wclient.go:491-496 | a brace inside a quoted value ends the block: any number written behind it becomes the bucket's value |
| Exposition.BraceDropsBucket | internal/wclient/wclient.go:491-520 | if no blank follows the first such brace, as in `/users/{id}`, the bucket line is dropped |
| Exposition.NameEndingInLeMisreads | internal/wclient/wclient.go:527-532 | a label named `handle` replaces the bound by its own value |
| Exposition.ValueEndingInLeMisreads | internal/wclient/wclient.go:527-538 | a label value ending in `le=` makes the line unreadable |
| Pages.SampleLineIsRead | internal/wclient/wclient.go:148-182 | what is read from a rendered sample with any legal labels and timestamp: its value, or the number behind the first brace in a label value |
| Pages.SampleRoundTripIff | internal/wclient/wclient.go:162-182 | it is read as its value if and only if no label value holds a brace, or what follows the first one reads as that value |
| Pages.BraceDropsSample | internal/wclient/wclient.go:163-180 | if no blank follows that brace, the sample is not counted |
| Pages.MetricPageIsRead | internal/wclient/wclient.go:144-188 | parseMetric on any rendered page is the sum of what its samples are read as |
| Pages.TwoSamplesAdd | internal/wclient/wclient.go:103-107 | two samples of one metric give their sum, not the first |
| Pages.MetricPageRoundTrip | internal/wclient/wclient.go:144-188 | it is the sum of the samples rendered if each of them survives |
| Pages.MetricPageRoundTripIff | internal/wclient/wclient.go:138-188 | lines with given labels are summed correctly whatever their values if and only if no label value among them holds a brace |
| HistogramPages.BucketLineRoundTrip | internal/wclient/wclient.go:441-452 | a rendered bucket line sets its own bound to its own value if and only if both survive its labels |
| HistogramPages.HistogramPageIsRead | internal/wclient/wclient.go:430-482 | parseHistogram on any rendered page assembles what its lines are read as |
| HistogramPages.HistogramPageRoundTrip | internal/wclient/wclient.go:430-482 | it is the histogram rendered if each line survives |
| HistogramPages.HistogramPageRoundTripIff | internal/wclient/wclient.go:426-482 | lines with given labels and bounds yield the histogram rendered whatever their values and their order if and only if there is no count line or every line keeps its bound and has no brace in a label value |
| HistogramPages.BlankBeforeBlockIsUnread | internal/wclient/wclient.go:440-475 | blanks between name and block make bucket, count and sample lines unreadable |
| HistogramPages.SplitHistogramDependsOnOrder | internal/wclient/wclient.go:403-405 | two pools with different counts at one bound make the result depend on the order of lines |
| Sla.Evaluate | internal/invariants/respawn_within_sla.go:126-169 | a round appends a scrape failure if and only if it was not cancelled and nothing came back or no line of the page is a sample of the count, and else exactly the breach that the histogram calls for |
| Sla.ScrapeFailsIff | internal/invariants/respawn_within_sla.go:129-141 | the same of the round's cause, for every answer to the GET |
| Sla.JudgeIs | internal/invariants/respawn_within_sla.go:142-168 | the verdict on any histogram told without a division, zero and negative counts included |
| Sla.SlaVerdict | internal/invariants/respawn_within_sla.go:142-168 | for any observations and any page publishing them in lines that survive: no verdict below min_samples, a breach without the boundary, else a breach if and only if n > 0 and (observations at most sla)/n is below min_ratio |
| Sla.AnyPageVerdict | internal/invariants/respawn_within_sla.go:126-168 | the verdict on any rendered page, from what its lines are read as |
| Sla.BracedBucketsHaveNoBoundary | internal/invariants/respawn_within_sla.go:148-158 | if no bucket line survives its labels the boundary is reported missing, whatever was observed |
| Sla.NoObservationsNoBreach | internal/invariants/respawn_within_sla.go:142-159 | the published histogram of no observations is never flagged once the boundary is declared |
| Sla.ExposedPublishes | internal/wclient/wclient.go:403-405 | a client library's lines in any order with foreign lines mixed in publish the observations and declare every boundary |
| BusDrops.Evaluate | internal/invariants/bus_drops_zero.go:103-143 | the new baseline and the breach appended, for every outcome of the scrape |
| BusDrops.Run | internal/invariants/bus_drops_zero.go:85-96 | a whole run appends exactly the breaches of its sequence of rounds, with the block's name and kind |
| BusDrops.RoundIs | internal/invariants/bus_drops_zero.go:103-131 | for every answer: the sum over the page's sample lines or, without one, a failed round, a cancelled one if the context had ended |
| BusDrops.CausesInOrder | internal/invariants/bus_drops_zero.go:103-142 | a run records one breach per failed round, by its kind, and one per growth over the last sample, in the order of the rounds and none else |
| BusDrops.AnyPageSample | internal/invariants/bus_drops_zero.go:103-131 | any rendered page is sampled as the sum over the lines that are read; with none, the round is a failed or cancelled one |
| BusDrops.PublishedSample | internal/invariants/bus_drops_zero.go:38-42 | if every line survives, that is the sum over the metric's label permutations |
| BusDrops.BracedSamplesAreMissing | internal/invariants/bus_drops_zero.go:114-117 | if none does, the metric is reported missing, however much was dropped |
| BusDrops.BaselineIsLastSample | internal/invariants/bus_drops_zero.go:124-131 | the baseline is the last successful sample, however many failures came since |
| BusDrops.GrowthsAreJumps | internal/invariants/bus_drops_zero.go:103-142 | the growth breaches depend on the successful samples alone and are their jumps above the threshold, except away from a negative sample |
| BusDrops.Telescope | internal/invariants/bus_drops_zero.go:132-141 | last minus first is at most the tolerated share of the quiet comparisons plus the recorded growths |
| BusDrops.SilentIffUnchanged | internal/invariants/bus_drops_zero.go:132-141 | for a counter that never falls and threshold 0, no growth breach if and only if last equals first |
| BusDrops.RunGrowth | internal/invariants/bus_drops_zero.go:85-142 | both of these for every sequence of rounds with failures in between |
| BusDrops.NegativeSampleHidesGrowth | internal/invariants/bus_drops_zero.go:82-85 | exactly when two samples give a growth breach: never after a negative one |
| Audit.Evaluate | internal/invariants/audit_tenant_isolation.go:172-216 | a round appends exactly the breaches of its responses, in tenant then event order, up to an aborted fetch |
| Audit.OneBreachPerLeak | internal/invariants/audit_tenant_isolation.go:202-213 | one breach per event of another, non-empty tenant, naming that event and both tenants, and none else |
| Audit.RoundInOrder | internal/invariants/audit_tenant_isolation.go:172-216 | a round records, tenant by tenant in order up to an aborted fetch, one failure with its cause or the foreign events of the answer in order, each with both tenants |
| Audit.RoundIsExact | internal/invariants/audit_tenant_isolation.go:172-216 | an uncancelled round records one breach per failed or undecodable tenant plus one per leaked event |
| Audit.CancelledRoundIsPrefix | internal/invariants/audit_tenant_isolation.go:178-181 | a cancelled round records a prefix of what it would have recorded |
| Audit.SilentIffIsolated | internal/invariants/audit_tenant_isolation.go:94-98 | an uncancelled round is silent if and only if every tenant was answered with own or untagged events |
| Csv.ParseCSV | internal/invariants/audit_tenant_isolation.go:220-232 | the loop takes the non-blank parts in order and yields each of them trimmed |
| Csv.CsvRoundTrip | internal/invariants/audit_tenant_isolation.go:220-232 | any list of proper items survives joining and parsing |
| Csv.CsvNormalises | internal/invariants/audit_tenant_isolation.go:220-232 | the output always consists of proper items and parses to itself |
| Csv.ParseSelector | internal/injectors/host_cordon.go:87-99 | the loop yields the value of the first part that reads `key=value` up to blanks around either, and none if and only if there is no such part |
| Csv.SelectorRoundTrip | internal/injectors/host_cordon.go:83-99 | a selector rendered from pairs answers every key as the pairs do |
| Breaches.Recorder.Record | internal/invariants/audit_tenant_isolation.go:77-84 | appends the breach and keeps every counter cell equal to its share of the log |
| Breaches.Recorder.Snapshot | internal/invariants/audit_tenant_isolation.go:86-92 | returns the log as it stands |
| RecorderSteps.CountersTrackTheLog | internal/invariants/audit_tenant_isolation.go:77-84 | in every reachable state a cell lags the log exactly by the goroutines between storing such a breach and bumping the cell |
| RecorderSteps.SnapshotsArePrefixes | internal/invariants/audit_tenant_isolation.go:86-92 | every snapshot is a prefix of all later ones and of the log and keeps each goroutine's order |
| RecorderSteps.SnapshotIsLogThen | internal/invariants/audit_tenant_isolation.go:86-92 | a snapshot holds exactly what had been recorded when it was copied |
| RecorderSteps.QuiescentLogIsComplete | internal/invariants/audit_tenant_isolation.go:57-84 | when all goroutines are through, the log is an interleaving of what they recorded, nothing lost or doubled, and every cell equals its share |
| RecorderSteps.SomeoneCanMove | internal/invariants/audit_tenant_isolation.go:77-92 | the mutex never blocks everybody |
| RecorderSteps.RecordingIsAtomic | internal/invariants/audit_tenant_isolation.go:77-84 | every interleaving leaves the log that recording in single steps leaves when the goroutines take turns in the order of their stores |
| RecorderSteps.LogsAreAtomicLogs | internal/invariants/audit_tenant_isolation.go:77-92 | the logs that interleavings can produce are exactly those of recording in single steps |
| Orchestrator.RecordingIsOneStep | internal/invariants/audit_tenant_isolation.go:77-84 | the step in which a watcher of the step system records is that single step, and no other step touches the log |
| Ledger.CollectInvariantTimelines | internal/orchestrate/orchestrate.go:337-352 | one timeline per block, in scenario order, holding exactly the log entries of its name at increasing positions of the log |
| Ledger.TotalBreaches | internal/orchestrate/orchestrate.go:354-360 | the sum of the timelines' lengths |
| Ledger.Report.Summarize | internal/report/report.go:59-80 | the total and, per kind and per name, tables with an entry exactly for those with breaches, holding their number |
| Ledger.TotalIsDeclarations | internal/orchestrate/orchestrate.go:337-352 | conservation: the total counts each logged breach once per block that declares its name |
| Ledger.KindTotalIsDeclarations | internal/report/report.go:70-78 | a kind is charged once per block of that kind declaring the breach's name, whatever kind recorded it |
| Ledger.NameTotalIsMultiplied | internal/report/report.go:70-78 | a name declared k times reports k times its breaches |
| Ledger.TotalIsLogLengthIff | internal/orchestrate/orchestrate.go:343-350 | with only declared names recorded, the total is the number of recorded breaches if and only if no recorded name is declared twice |
| Ledger.SummaryTablesAddUp | internal/report/report.go:75-77 | the entries of the by-kind and of the by-name table each add up to the total |
| Agents.VerbsDifferOnlyAt404 | internal/wclient/wclient.go:305-356 | create and delete read a reply differently only at 404; without a portal nothing fails |
| Agents.Agent.DispatchOne | internal/agents/agent.go:120-143 | makes exactly the next call, and cursor, ops, errors and counter stay functions of the calls made |
| Agents.Agent.Run | internal/agents/agent.go:69-114 | a run makes the calls of its replies and ends where the pacing automaton does |
| Agents.CallsOfAt | internal/agents/agent.go:124-142 | the i-th call goes to entry i mod k, creates for even i and deletes for odd, is named `chaos-<workload>-<i+1>`, and fails if and only if a portal is set, the kind is driven and the reply is neither 2xx nor, for a delete, 404 |
| Agents.NameDeterminesRequest | internal/agents/agent.go:133 | a name tells its workload and number, whatever dashes or digits the workload's name has |
| Agents.DeletesNeverNameCreated | internal/agents/agent.go:127-133 | no delete of any run names what a create of any run named |
| Agents.RoundRobinIsFair | internal/agents/agent.go:124-125 | n calls over k entries go to a resource once per time it is listed in each of floor(n/k) full passes and once per time it is listed among the first n mod k entries |
| Agents.EvenCountPinsVerb | internal/agents/agent.go:124-131 | over an even number of entries each of them only ever sees one verb |
| Agents.OddCountGivesBothVerbs | internal/agents/agent.go:124-131 | over an odd number k, every 2k consecutive calls give each entry exactly one create and exactly one delete |
| Pacing.DispatchRateBound | internal/agents/agent.go:78-113 | for every timing: N = s + h, s·steady + h·burst + delays = D, h ≤ B·ceil(burst_for/burst), B·burst_every + (B-1)·burst_for ≤ D |
| Pacing.BurstsDoCome | internal/agents/agent.go:99-111 | with no dispatch more than L late: D < (B+1)·(burst_every + burst_for + 2·(max(steady, burst) + L)), D < burst_every before the first window, and every window that has ended held at least ceil(burst_for/(burst + L)) burst-paced dispatches |
| Pacing.IntervalsAreFloors | internal/agents/agent.go:70-74 | the intervals are a second over the rate, rounded down; without a rate a whole second and none |
| Agents.AgentRate | internal/agents/agent.go:69-113 | the bounds in the terms of a workload block, exact in the number of burst-paced dispatches per window when nothing is late |
| Pacing.NoBurstMeansSteady | internal/agents/agent.go:99-110 | with any burst knob off, a zero burst interval included, the run is steadily paced throughout |
| Pacing.RateIsExactIff | internal/agents/agent.go:70 | a second holds exactly r truncated intervals if and only if 10^9 mod r is below 10^9 div r |
| Pacing.SmallRatesAreExact | internal/agents/agent.go:70 | which holds whenever r² ≤ 10^9 |
| Pacing.LargeRateOvershoots | internal/agents/agent.go:70 | at 60000 per second, 60002 intervals fit into one and some second holds 60003 dispatches |
| Pacing.BurstRateTruncatesToZeroIff | internal/agents/agent.go:71-74 | the burst interval is zero if and only if burst_rps is not positive or above 10^9 |
| Pacing.SteadySecondHoldsAtMost | internal/agents/agent.go:91-112 | a second without a burst-paced dispatch holds at most one dispatch more than truncated intervals fit into it |
| Pacing.RateHoldsIff | internal/agents/agent.go:70-112 | no such second of any run at rate r holds more than r + 1 dispatches if and only if 10^9 mod r is below 10^9 div r |
| Cluster.LiveSetIsWhatWasCreated | internal/agents/agent.go:116-133 | after any interleaving with any losses the live set is what was there plus all that arriving creates named |
| Cluster.EveryDeleteMisses | internal/wclient/wclient.go:330-351 | every delete that arrives is answered 404 and counted as success |
| Cluster.RunLeavesHalfBehind | internal/agents/agent.go:116-119 | with nothing lost and distinct workload names the cluster grows by ceil(n/2) per agent |
| Cluster.RequestsAreCalls | internal/agents/agent.go:124-135 | in every interleaving, request n of an agent is the n-th call of its run in kind, verb and name |
| Cluster.NoErrorIsReported | internal/agents/agent.go:135-142 | and with nothing lost no agent counts an error, while its creates pile up |
| Orchestrator.CountersAtAnyMoment | internal/agents/agent.go:135-142 | in every reachable state errors ≤ ops and, with a counter, ops ≤ increments ≤ ops + 1 |
| Orchestrator.DispatchCounterAgrees | internal/agents/agent.go:136-142 | when Run has returned, each cell of the shared counter is the number of calls with its outcome, and with the counter attached to all agents its total and its error cell are the sums of ops and of errors |
| Injection.InjectorEvent.MarkApplied | internal/orchestrate/orchestrate.go:194-201 | sets the apply time and, on failure, the detail |
| Injection.InjectorEvent.MarkReverted | internal/orchestrate/orchestrate.go:203-210 | sets the revert time and, on failure, the detail unless there is one |
| Injection.DetailIsFirstFailure | internal/orchestrate/orchestrate.go:194-210 | the detail names the first of the two calls that failed, and is empty if and only if neither did |
| Orchestrator.InjectorLifecycle | internal/orchestrate/orchestrate.go:229-271 | over all interleavings: nothing, Apply, or Apply then Revert; once finished, Apply unless cancelled before, and Revert if and only if a recovery after the apply offset is set |
| Orchestrator.InjectorTimes | internal/orchestrate/orchestrate.go:230-271 | no Apply is called or returns before its offset and, uncancelled, no Revert before its recovery time |
| Orchestrator.TimersFireWhenDue | internal/orchestrate/orchestrate.go:230-262 | Apply becomes possible exactly when its offset has passed and Revert exactly when the gap has passed since Apply returned; the other way out of either wait is open exactly when the context has ended |
| Orchestrator.EventTellsRun | internal/orchestrate/orchestrate.go:239-271 | over every run: the times are those at which Apply and Revert returned, the detail is the error of Apply if that failed, else of Revert if that failed, else empty |
| Orchestrator.WorkIsBounded | internal/orchestrate/orchestrate.go:83-114 | after cancellation every run does at most Measure steps of work |
| Orchestrator.NobodyIsStuck | internal/orchestrate/orchestrate.go:83-114 | after cancellation every unfinished goroutine can move on its own, and after the last Run can return with either result |
| Orchestrator.CancelledRunReturns | internal/orchestrate/orchestrate.go:83-158 | so a cancelled run ends with everything finished and the report made, and nowhere else |
| Orchestrator.ReturnsUncancelledIff | internal/orchestrate/orchestrate.go:102-114 | Run can return without cancellation if and only if there is no agent and every watcher rejects its parameters |
| Orchestrator.WatcherErrorsDoNotDecide | internal/orchestrate/orchestrate.go:102-158 | by then exactly the rejecting watchers have returned an error, and still every scenario can end with either result of the report writer |
| Orchestrator.WorkloadRowsAreFaithful | internal/orchestrate/orchestrate.go:130-140 | row i carries workload i's name and tenant, its calls, one per tick it took, and its failed calls |
| Orchestrator.InjectorRowsAreFaithful | internal/orchestrate/orchestrate.go:141-150 | row i carries injector i's name and kind, applied if and only if it was, reverted if and only if a later recovery was set |
| Orchestrator.InjectorRowTellsRun | internal/orchestrate/orchestrate.go:141-150 | the same of row i of the report |
| Orchestrator.EveryWatcherProbes | internal/invariants/bus_drops_zero.go:85-96 | when Run has returned, every accepting watcher has probed once and once more per tick it answered |
| Orchestrator.BreachTotalIsFaithful | internal/orchestrate/orchestrate.go:102-128 | the report's total against what the watchers recorded, exact if and only if no recorded name is declared twice; rejecting watchers contribute nothing |
| RunReport.BuildInjectors | internal/orchestrate/orchestrate.go:275-304 | one scheduled injector per block in order, or the first block that cannot be built |
| RunReport.BuildAgents | internal/orchestrate/orchestrate.go:163-182 | one new agent per block in order, or the first block with a bad burst knob |
| RunReport.EmptyKnobsMeanSteady | internal/orchestrate/orchestrate.go:166-174 | a block without burst knobs can be driven, and its agent never bursts |
| RunReport.BuildInvariants | internal/orchestrate/orchestrate.go:309-333 | the blocks in order, or the first with a bad window or kind; parameters are not looked at |
| RunReport.BuiltScenarioLaunches | internal/orchestrate/orchestrate.go:66-110 | what the builders return, launched, is an initial state of the step system with one goroutine per block in order |
| RunReport.WriteUp | internal/orchestrate/orchestrate.go:122-151 | the report's rows zipped by index from the runtime objects, and its summary |
| RunReport.ScenarioToReport | internal/orchestrate/orchestrate.go:54-158 | over every run, row i is block i with its own agent's calls, its own injector's times and error as the run had them, or exactly the logged breaches of its name in log order, and the summary's total is the number of breaches recorded if and only if no recorded name is declared twice |
| RunReport.ModelledRoundsAreProbes | internal/orchestrate/orchestrate.go:102-110 | every round of the three watchers modelled, before and after cancellation, is a probe the step system allows |

## Left out

- Decimal.ParseFloat: reads decimal literals into reals; IEEE rounding, range errors, signed zero, NaN, infinite samples and Go's hex and underscore syntax are not modelled, `+Inf` is a bound of its own.
- Text.TrimSpace: knows the ASCII white space only, not Unicode's.
- Grammar.SampleGrammar: is stated for names that are not empty and do not begin with `#`, as every metric name is.
- Sla.SlaVerdict: takes the parameters as parsed; their defaults and range check are plain branches.
- Orchestrator.CancelledRunReturns: assumes that every call returns, that a probe which returns after cancellation finds at most `cap` breaches, and that an agent or watcher is handed a ready tick over the ended context at most `patience` times; both are arbitrary numbers.
- Orchestrator.InjectorLifecycle: Apply and Revert end in any error or none; their bodies validate and log.
- The step system lets an agent's tick come at any time; when it may come is the business of `Pacing`.
- In the step system recording a breach is one step; `RecorderSteps.LogsAreAtomicLogs` and `Orchestrator.RecordingIsOneStep` say why that loses nothing of the log. The breach counter is in `RecorderSteps` alone.
- HTTP, contexts, TLS, tokens, JSON and HCL decoding, duration parsing, flags, signals and logging: each call has an arbitrary outcome, times are integer nanoseconds.
- Time stamps and prose of breaches: a breach keeps its name, kind, tenants and the branch that recorded it.
- The healthy_endpoint and zombies_zero watchers are single comparisons; the step system covers them as watchers whose probes find anything.
- report.Write, the metrics listener, the production guard, AsTenant and the shell scripts.
