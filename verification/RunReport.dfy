/** internal/orchestrate/orchestrate.go: building the runtime objects from a scenario, and writing up
    what they hold once all goroutines have finished. */
module RunReport {
  import opened Text
  import opened Sums
  import opened Breaches
  import opened Ledger
  import Agents
  import Pacing
  import Injection
  import A = AgentSteps
  import O = Orchestrator
  import W = WatcherSteps
  import Sla
  import BusDrops
  import Audit

  // ----- building -----

  /** time.ParseDuration of a knob; `None` is its error. */
  type Parsed = Option<int>

  /** A list in the scenario's order, or the index of the first block that was refused. */
  datatype Built<T> = Built(list: seq<T>) | Refused(index: nat)

  /** A knob that may be left empty, which means 0. */
  datatype Knob = Knob(text: string, parsed: Parsed)

  function Duration(k: Knob): Parsed {
    if k.text == "" then Some(0) else k.parsed
  }

  datatype WorkloadBlock = WorkloadBlock(
    name: string, tenant: string, steadyRps: int, burstRps: int, burstEvery: Knob, burstFor: Knob,
    resources: seq<string>)

  datatype InjectorBlock = InjectorBlock(name: string, kind: string, at: Parsed, recover: Knob)

  datatype InvariantBlock = InvariantBlock(spec: Spec, window: Parsed, params: map<string, string>)

  datatype Scenario = Scenario(
    workloads: seq<WorkloadBlock>, injectors: seq<InjectorBlock>, invariants: seq<InvariantBlock>)

  datatype Scheduled = Scheduled(block: InjectorBlock, atOffset: int, recoverAt: int, hasRecover: bool)

  const INJECTOR_KINDS := ["host_cordon", "network_partition", "process_kill"]

  const INVARIANT_KINDS :=
    ["healthy_endpoint", "audit_tenant_isolation", "zombies_zero", "bus_drops_zero", "respawn_within_sla"]

  predicate Drivable(b: WorkloadBlock) {
    Duration(b.burstEvery).Some? && Duration(b.burstFor).Some?
  }

  function WorkloadOf(b: WorkloadBlock): Agents.Workload
    requires Drivable(b)
  {
    Agents.Workload(b.name, b.tenant, b.steadyRps, b.burstRps, Duration(b.burstEvery).value,
                    Duration(b.burstFor).value, b.resources)
  }

  ghost predicate NewAgentFor(a: Agents.Agent, b: WorkloadBlock, portal: bool, counted: bool)
    reads a
  {
    && Drivable(b) && a.portal == portal && a.counted == counted
    && a.w == Agents.Workload(b.name, b.tenant, b.steadyRps, b.burstRps, Duration(b.burstEvery).value,
                              Duration(b.burstFor).value, b.resources)
    && a.Valid() && a.calls == []
  }

  method BuildAgents(blocks: seq<WorkloadBlock>, portal: bool, counted: bool) returns (r: Built<Agents.Agent>)
    ensures r.Built? ==>
              && |r.list| == |blocks|
              && (forall i :: 0 <= i < |blocks| ==> fresh(r.list[i]) && NewAgentFor(r.list[i], blocks[i], portal, counted))
              && (forall i, j :: 0 <= i < j < |blocks| ==> r.list[i] != r.list[j])
    ensures r.Refused? ==>
              r.index < |blocks| && !Drivable(blocks[r.index])
              && forall i :: 0 <= i < r.index ==> Drivable(blocks[i])
  {
    var out: seq<Agents.Agent> := [];
    for n := 0 to |blocks|
      invariant |out| == n
      invariant forall i :: 0 <= i < n ==> fresh(out[i]) && NewAgentFor(out[i], blocks[i], portal, counted)
      invariant forall i, j :: 0 <= i < j < n ==> out[i] != out[j]
    {
      var b := blocks[n];
      if Duration(b.burstEvery).None? {
        return Refused(n);
      }
      if Duration(b.burstFor).None? {
        return Refused(n);
      }
      var a := new Agents.Agent(WorkloadOf(b), portal, counted);
      out := out + [a];
    }
    return Built(out);
  }

  /** A block without burst knobs can be driven, and its agent never bursts. */
  lemma EmptyKnobsMeanSteady(b: WorkloadBlock, start: int, lates: seq<nat>)
    requires b.burstEvery.text == "" || b.burstFor.text == ""
    ensures b.burstEvery.text == "" && b.burstFor.text == "" ==> Drivable(b)
    ensures Drivable(b) ==> Pacing.Paced(Agents.ConfigOf(WorkloadOf(b)), start, lates).burstTicks == 0
  {
    if Drivable(b) {
      Pacing.NoBurstMeansSteady(Agents.ConfigOf(WorkloadOf(b)), start, lates);
    }
  }

  predicate Buildable(b: InjectorBlock) {
    b.at.Some? && Duration(b.recover).Some? && b.kind in INJECTOR_KINDS
  }

  predicate ScheduledAs(s: Scheduled, b: InjectorBlock) {
    && Buildable(b) && s.block == b && s.atOffset == b.at.value
    && s.recoverAt == Duration(b.recover).value && s.hasRecover == (b.recover.text != "")
  }

  method BuildInjectors(blocks: seq<InjectorBlock>) returns (r: Built<Scheduled>)
    ensures r.Built? ==> |r.list| == |blocks| && forall i :: 0 <= i < |blocks| ==> ScheduledAs(r.list[i], blocks[i])
    ensures r.Refused? ==>
              r.index < |blocks| && !Buildable(blocks[r.index])
              && forall i :: 0 <= i < r.index ==> Buildable(blocks[i])
  {
    var out: seq<Scheduled> := [];
    for n := 0 to |blocks|
      invariant |out| == n && forall i :: 0 <= i < n ==> ScheduledAs(out[i], blocks[i])
    {
      var b := blocks[n];
      if b.at.None? {
        return Refused(n);
      }
      var recover := Duration(b.recover);
      if recover.None? {
        return Refused(n);
      }
      if b.kind !in INJECTOR_KINDS {
        return Refused(n);
      }
      out := out + [Scheduled(b, b.at.value, recover.value, b.recover.text != "")];
    }
    return Built(out);
  }

  /** Only the window and the kind are looked at; bad params surface later, in the watcher's own Run. */
  predicate KnownInvariant(b: InvariantBlock) {
    b.window.Some? && b.spec.kind in INVARIANT_KINDS
  }

  method BuildInvariants(blocks: seq<InvariantBlock>) returns (r: Built<InvariantBlock>)
    ensures r.Built? ==> r.list == blocks && forall b :: b in blocks ==> KnownInvariant(b)
    ensures r.Refused? ==>
              r.index < |blocks| && !KnownInvariant(blocks[r.index])
              && forall i :: 0 <= i < r.index ==> KnownInvariant(blocks[i])
  {
    var out: seq<InvariantBlock> := [];
    for n := 0 to |blocks|
      invariant out == blocks[..n] && forall i :: 0 <= i < n ==> KnownInvariant(blocks[i])
    {
      var b := blocks[n];
      if b.window.None? || b.spec.kind !in INVARIANT_KINDS {
        return Refused(n);
      }
      out := out + [b];
    }
    return Built(out);
  }

  // ----- from the scenario to the run -----

  function SpecsIn(blocks: seq<InvariantBlock>): (specs: seq<Spec>)
    ensures |specs| == |blocks| && forall i :: 0 <= i < |blocks| ==> specs[i] == blocks[i].spec
  {
    if blocks == [] then [] else SpecsIn(blocks[..|blocks| - 1]) + [blocks[|blocks| - 1].spec]
  }

  predicate AgentsLaunched(blocks: seq<WorkloadBlock>, s: O.State) {
    |s.agents| == |blocks|
    && forall i :: 0 <= i < |blocks| ==> Drivable(blocks[i]) && s.agents[i].w == WorkloadOf(blocks[i])
  }

  predicate InjectorsLaunched(blocks: seq<InjectorBlock>, s: O.State) {
    |s.injectors| == |s.specs| == |blocks|
    && forall i :: 0 <= i < |blocks| ==>
         var b, sched := blocks[i], s.injectors[i].s;
         && Buildable(b) && s.specs[i] == O.InjectorSpec(b.name, b.kind)
         && sched.atOffset == b.at.value && sched.recoverAt == Duration(b.recover).value
         && sched.hasRecover == (b.recover.text != "")
  }

  predicate WatchersLaunched(blocks: seq<InvariantBlock>, s: O.State) {
    |s.watchers| == |blocks|
    && forall i :: 0 <= i < |blocks| ==> KnownInvariant(blocks[i]) && s.watchers[i].spec == blocks[i].spec
  }

  /** The step system starts with one goroutine per block, in order. */
  predicate Launches(sc: Scenario, s: O.State) {
    O.Initial(s) && AgentsLaunched(sc.workloads, s) && InjectorsLaunched(sc.injectors, s) && WatchersLaunched(sc.invariants, s)
  }

  /** What the scenario leaves open: the launch time, the counters and the portal, which parameters the
      watchers accept, and the bounds on what goes on after cancellation. */
  datatype Setting = Setting(
    now: int, counted: bool, portal: bool, accepts: InvariantBlock -> bool, patience: nat, cap: nat)

  function LaunchedAgents(agents: seq<Agents.Workload>, env: Setting): (out: seq<A.Agent>)
    ensures |out| == |agents|
    ensures forall i :: 0 <= i < |out| ==> out[i] == A.Launched(agents[i], env.portal, env.counted, env.patience)
  {
    if agents == [] then []
    else LaunchedAgents(agents[..|agents| - 1], env)
         + [A.Launched(agents[|agents| - 1], env.portal, env.counted, env.patience)]
  }

  function LaunchedInjectors(list: seq<Scheduled>, env: Setting): (out: seq<Injection.Injector>)
    ensures |out| == |list|
    ensures forall i :: 0 <= i < |out| ==>
              out[i] == Injection.Armed(Injection.Schedule(env.now, list[i].atOffset, list[i].recoverAt, list[i].hasRecover))
  {
    if list == [] then []
    else
      var last := list[|list| - 1];
      LaunchedInjectors(list[..|list| - 1], env)
      + [Injection.Armed(Injection.Schedule(env.now, last.atOffset, last.recoverAt, last.hasRecover))]
  }

  function RowsOf(list: seq<Scheduled>): (out: seq<O.InjectorSpec>)
    ensures |out| == |list|
    ensures forall i :: 0 <= i < |out| ==> out[i] == O.InjectorSpec(list[i].block.name, list[i].block.kind)
  {
    if list == [] then []
    else RowsOf(list[..|list| - 1]) + [O.InjectorSpec(list[|list| - 1].block.name, list[|list| - 1].block.kind)]
  }

  function LaunchedWatchers(blocks: seq<InvariantBlock>, env: Setting): (out: seq<W.Watcher>)
    ensures |out| == |blocks|
    ensures forall i :: 0 <= i < |out| ==> out[i] == W.Launched(blocks[i].spec, env.accepts(blocks[i]), env.patience)
  {
    if blocks == [] then []
    else
      var last := blocks[|blocks| - 1];
      LaunchedWatchers(blocks[..|blocks| - 1], env) + [W.Launched(last.spec, env.accepts(last), env.patience)]
  }

  /** The state in which the goroutines are spawned. */
  function LaunchState(agents: seq<Agents.Workload>, injectors: seq<Scheduled>, invariants: seq<InvariantBlock>,
                       env: Setting): O.State
  {
    O.State(env.now, false, env.cap, LaunchedAgents(agents, env), RowsOf(injectors), LaunchedInjectors(injectors, env),
            LaunchedWatchers(invariants, env), O.Cells(0, 0, 0), [], O.Waiting)
  }

  /** What the three builders return, launched, is an initial state made from the scenario. */
  lemma BuiltScenarioLaunches(sc: Scenario, agents: seq<Agents.Workload>, injectors: seq<Scheduled>, env: Setting)
    requires |agents| == |sc.workloads|
    requires forall i :: 0 <= i < |agents| ==> Drivable(sc.workloads[i]) && agents[i] == WorkloadOf(sc.workloads[i])
    requires |injectors| == |sc.injectors|
    requires forall i :: 0 <= i < |injectors| ==> ScheduledAs(injectors[i], sc.injectors[i])
    requires forall b :: b in sc.invariants ==> KnownInvariant(b)
    ensures Launches(sc, LaunchState(agents, injectors, sc.invariants, env))
  {
    hide WorkloadOf, Drivable, Buildable, KnownInvariant, Duration;
    var s := LaunchState(agents, injectors, sc.invariants, env);
    forall i | 0 <= i < |sc.injectors|
      ensures Buildable(sc.injectors[i]) && s.specs[i] == O.InjectorSpec(sc.injectors[i].name, sc.injectors[i].kind)
    {
      assert ScheduledAs(injectors[i], sc.injectors[i]);
    }
    assert forall i :: 0 <= i < |sc.invariants| ==> sc.invariants[i] in sc.invariants;
  }

  // ----- writing up -----

  /** Row i of a list that may be shorter. */
  function CountersAt(agents: seq<Agents.Agent>, i: nat): (nat, nat)
    reads agents
  {
    if i < |agents| then (agents[i].ops, agents[i].errors) else (0, 0)
  }

  ghost function EventAt(events: seq<Injection.InjectorEvent>, i: nat): Injection.EventValue
    reads events
  {
    if i < |events| then events[i].Value() else Injection.NO_EVENT
  }

  ghost predicate WorkloadsWritten(blocks: seq<WorkloadBlock>, agents: seq<Agents.Agent>, rows: seq<WorkloadRow>)
    reads agents
  {
    |rows| == |blocks|
    && forall i :: 0 <= i < |rows| ==>
         rows[i] == WorkloadRow(blocks[i].name, blocks[i].tenant, CountersAt(agents, i).0, CountersAt(agents, i).1)
  }

  ghost predicate InjectorsWritten(blocks: seq<InjectorBlock>, events: seq<Injection.InjectorEvent>, rows: seq<InjectorRow>)
    reads events
  {
    |rows| == |blocks|
    && forall i :: 0 <= i < |rows| ==>
         var e := EventAt(events, i);
         rows[i] == InjectorRow(blocks[i].name, blocks[i].kind, e.appliedAt, e.revertedAt, e.detail)
  }

  ghost predicate Summarized(r: Report)
    reads r
  {
    && r.summary.totalBreaches == Sum(r.invariants, Count())
    && Tabulates(r.summary.byKind, r.invariants, ByKind()) && Tabulates(r.summary.byName, r.invariants, ByName())
    && r.summary.workloads == |r.workloads| && r.summary.injectors == |r.injectors|
    && r.summary.invariants == |r.invariants|
  }

  /** What the report writer makes of the runtime objects it finds. */
  ghost predicate WrittenUp(sc: Scenario, agents: seq<Agents.Agent>, events: seq<Injection.InjectorEvent>,
                            rec: Recorder, r: Report)
    reads agents, events, rec, r
  {
    && r.invariants == Timelines(SpecsIn(sc.invariants), rec.breaches)
    && WorkloadsWritten(sc.workloads, agents, r.workloads)
    && InjectorsWritten(sc.injectors, events, r.injectors)
    && Summarized(r)
  }

  /** Runs after the join, so nothing it reads can still change. */
  method WriteUp(sc: Scenario, agents: seq<Agents.Agent>, events: seq<Injection.InjectorEvent>, rec: Recorder,
                 startedAt: Option<int>, endedAt: Option<int>)
    returns (r: Report)
    ensures fresh(r) && WrittenUp(sc, agents, events, rec, r)
    ensures r.startedAt == startedAt && r.endedAt == endedAt
  {
    hide Timelines, Tabulates, SpecsIn;
    var timelines := CollectInvariantTimelines(SpecsIn(sc.invariants), rec);
    var workloadRows: seq<WorkloadRow> := [];
    for i := 0 to |sc.workloads|
      invariant WorkloadsWritten(sc.workloads[..i], agents, workloadRows)
    {
      var ops, errors := 0, 0;
      if i < |agents| {
        ops, errors := agents[i].ops, agents[i].errors;
      }
      workloadRows := workloadRows + [WorkloadRow(sc.workloads[i].name, sc.workloads[i].tenant, ops, errors)];
    }
    var injectorRows: seq<InjectorRow> := [];
    for i := 0 to |sc.injectors|
      invariant InjectorsWritten(sc.injectors[..i], events, injectorRows)
    {
      var row := InjectorRow(sc.injectors[i].name, sc.injectors[i].kind, None, None, "");
      if i < |events| {
        var applied, reverted, detail := events[i].Snapshot();
        row := row.(appliedAt := applied, revertedAt := reverted, detail := detail);
      }
      injectorRows := injectorRows + [row];
    }
    assert sc.workloads[..|sc.workloads|] == sc.workloads && sc.injectors[..|sc.injectors|] == sc.injectors;
    r := new Report(startedAt, endedAt, timelines, workloadRows, injectorRows);
    r.Summarize();
  }

  // ----- the report that is written is the run's -----

  /** The objects hold what the step system says of them. */
  ghost predicate Shows(s: O.State, agents: seq<Agents.Agent>, events: seq<Injection.InjectorEvent>, rec: Recorder)
    reads agents, events, rec
  {
    && |agents| == |s.agents|
    && (forall i :: 0 <= i < |agents| ==> agents[i].ops == s.agents[i].ops && agents[i].errors == s.agents[i].errors)
    && |events| == |s.injectors|
    && (forall i :: 0 <= i < |events| ==> events[i].Value() == s.injectors[i].event)
    && rec.breaches == O.BreachLog(s.log)
  }

  /** The report writer produces from the objects the report that the step system collects. */
  lemma WriteUpIsReportOf(sc: Scenario, s: O.State, agents: seq<Agents.Agent>, events: seq<Injection.InjectorEvent>,
                          rec: Recorder, r: Report)
    requires Shows(s, agents, events, rec) && WrittenUp(sc, agents, events, rec, r)
    requires AgentsLaunched(sc.workloads, s) && InjectorsLaunched(sc.injectors, s) && WatchersLaunched(sc.invariants, s)
    ensures O.ReportOf(s) == O.Collected(r.invariants, r.workloads, r.injectors)
    ensures r.invariants == Timelines(SpecsIn(sc.invariants), O.BreachLog(s.log))
  {
    hide Timelines, Drivable, Buildable, KnownInvariant, Summarized;
    O.SpecsOfAt(s.watchers);
    assert O.SpecsOf(s.watchers) == SpecsIn(sc.invariants);
    O.WorkloadRowsAt(s.agents);
    assert O.WorkloadRows(s.agents) == r.workloads;
    O.InjectorRowsAt(s.specs, s.injectors);
    assert O.InjectorRows(s.specs, s.injectors) == r.injectors;
  }

  lemma ScenarioStaysLaunched(sc: Scenario, s0: O.State, s: O.State)
    requires Launches(sc, s0) && O.Reachable(s0, s)
    ensures AgentsLaunched(sc.workloads, s) && InjectorsLaunched(sc.injectors, s) && WatchersLaunched(sc.invariants, s)
  {
    hide O.Reachable, O.Initial, WorkloadOf, Drivable, Buildable, KnownInvariant;
    O.ScenarioIsKept(s0, s);
  }

  /** The block's name and tenant, and the calls of its own agent, one per tick it took. */
  predicate WorkloadRowFits(b: WorkloadBlock, a: A.Agent, row: WorkloadRow) {
    && row.name == b.name && row.tenant == b.tenant
    && Drivable(b) && a.w == WorkloadOf(b)
    && row.ops == |A.CallsMade(a)| && row.errors == A.ErrorsIn(A.CallsMade(a))
    && row.ops == (if b.resources == [] then 0 else a.ticks)
  }

  /** The block's name and kind; applied unless the run was cancelled first; once applied, reverted
      exactly if the block asks for it at a later time than the apply. */
  predicate InjectorRowFits(b: InjectorBlock, s: O.State, row: InjectorRow) {
    && row.name == b.name && row.kind == b.kind && Buildable(b)
    && (row.appliedAt.None? ==> s.cancelled && row.revertedAt.None?)
    && (row.appliedAt.Some? ==>
          (row.revertedAt.Some? <==> b.recover.text != "" && Duration(b.recover).value > b.at.value))
  }

  lemma WorkloadNames(b: WorkloadBlock)
    requires Drivable(b)
    ensures WorkloadOf(b).name == b.name && WorkloadOf(b).tenant == b.tenant && WorkloadOf(b).resources == b.resources
  {
  }

  lemma WorkloadRowIs(sc: Scenario, s0: O.State, s: O.State, i: nat)
    requires Launches(sc, s0) && O.Reachable(s0, s) && s.main.Returned? && i < |sc.workloads|
    ensures |s.main.report.workloads| == |sc.workloads| == |s.agents|
    ensures WorkloadRowFits(sc.workloads[i], s.agents[i], s.main.report.workloads[i])
  {
    hide O.Reachable, O.Initial, WorkloadOf, Drivable, A.CallsMade, A.ErrorsIn;
    ScenarioStaysLaunched(sc, s0, s);
    O.WorkloadRowsAreFaithful(s0, s, i);
    WorkloadNames(sc.workloads[i]);
  }

  lemma InjectorRowIs(sc: Scenario, s0: O.State, s: O.State, i: nat)
    requires Launches(sc, s0) && O.Reachable(s0, s) && s.main.Returned? && i < |sc.injectors|
    ensures |s.main.report.injectors| == |sc.injectors| == |s.injectors|
    ensures InjectorRowFits(sc.injectors[i], s, s.main.report.injectors[i])
  {
    hide O.Reachable, O.Initial, AgentsLaunched, WatchersLaunched, Duration;
    O.InjectorRowsAreFaithful(s0, s, i);
  }

  lemma RowCounts(sc: Scenario, agents: seq<Agents.Agent>, events: seq<Injection.InjectorEvent>, rec: Recorder, r: Report)
    requires WrittenUp(sc, agents, events, rec, r)
    ensures |r.workloads| == |sc.workloads| == r.summary.workloads
    ensures |r.injectors| == |sc.injectors| == r.summary.injectors
    ensures r.invariants == Timelines(SpecsIn(sc.invariants), rec.breaches)
    ensures r.summary.invariants == |r.invariants| && r.summary.totalBreaches == Sum(r.invariants, Count())
  {
    hide Timelines;
  }

  /** From scenario to report, over every run: row i of each list is block i of the scenario with its own
      agent's calls, with its own injector's times and error as the run had them, or with exactly the
      logged breaches of its name in the order of the log; and the summary's total is the number of
      breaches recorded exactly if no recorded name is declared twice. */
  lemma ScenarioToReport(sc: Scenario, s0: O.State, run: seq<O.Step>, agents: seq<Agents.Agent>,
                         events: seq<Injection.InjectorEvent>, rec: Recorder, r: Report)
    requires Launches(sc, s0) && O.CanRun(s0, run) && O.Exec(s0, run).main.Returned?
    requires Shows(O.Exec(s0, run), agents, events, rec) && WrittenUp(sc, agents, events, rec, r)
    ensures O.Exec(s0, run).main.report == O.Collected(r.invariants, r.workloads, r.injectors)
    ensures var s := O.Exec(s0, run);
            && |r.workloads| == |sc.workloads| == |s.agents| && r.summary.workloads == |sc.workloads|
            && forall i :: 0 <= i < |sc.workloads| ==> WorkloadRowFits(sc.workloads[i], s.agents[i], r.workloads[i])
    ensures var s := O.Exec(s0, run);
            && |r.injectors| == |sc.injectors| == |s.injectors| && r.summary.injectors == |sc.injectors|
            && forall i :: 0 <= i < |sc.injectors| ==>
                 InjectorRowFits(sc.injectors[i], s, r.injectors[i]) && O.RowTells(O.History(s0, run, i), r.injectors[i])
    ensures |r.invariants| == |sc.invariants| && r.summary.invariants == |sc.invariants|
    ensures forall i :: 0 <= i < |sc.invariants| ==>
              && r.invariants[i].name == sc.invariants[i].spec.name && r.invariants[i].kind == sc.invariants[i].spec.kind
              && InLogOrder(O.BreachLog(O.Exec(s0, run).log), sc.invariants[i].spec.name, r.invariants[i].breaches)
    ensures var made, specs := Sum(O.Exec(s0, run).watchers, O.Recorded()), SpecsIn(sc.invariants);
            && r.summary.totalBreaches >= made
            && (r.summary.totalBreaches == made
                <==> forall b :: b in O.BreachLog(O.Exec(s0, run).log) ==> Declarations(specs)(b) == 1)
  {
    hide O.Initial, O.ReportOf, Declarations, WorkloadRowFits, InjectorRowFits, WrittenUp, Shows, O.RowTells, O.History;
    hide Drivable, Buildable, KnownInvariant, Timelines, InLogOrder, O.CanRun, O.Exec, WorkloadOf, Duration;
    var s := O.Exec(s0, run);
    assert O.Reachable(s0, s);
    hide O.Reachable;
    ScenarioStaysLaunched(sc, s0, s);
    WriteUpIsReportOf(sc, s, agents, events, rec, r);
    O.ReturnedReport(s0, s);
    RowCounts(sc, agents, events, rec, r);
    forall i | 0 <= i < |sc.workloads|
      ensures WorkloadRowFits(sc.workloads[i], s.agents[i], r.workloads[i])
    {
      WorkloadRowIs(sc, s0, s, i);
    }
    forall i | 0 <= i < |sc.injectors|
      ensures InjectorRowFits(sc.injectors[i], s, r.injectors[i]) && O.RowTells(O.History(s0, run, i), r.injectors[i])
    {
      InjectorRowIs(sc, s0, s, i);
      O.InjectorRowTellsRun(s0, run, i);
    }
    TimelinesInLogOrder(SpecsIn(sc.invariants), O.BreachLog(s.log));
    O.SpecsOfAt(s.watchers);
    assert O.SpecsOf(s.watchers) == SpecsIn(sc.invariants);
    O.BreachTotalIsFaithful(s0, s);
  }

  // ----- the modelled watchers fit the step system -----

  lemma {:induction false} BreachesForAreLabelled(spec: Spec, causes: seq<Cause>)
    ensures W.Labelled(spec, BusDrops.BreachesFor(spec, causes))
    decreases |causes|
  {
    if causes != [] {
      BreachesForAreLabelled(spec, causes[..|causes| - 1]);
    }
  }

  lemma {:induction false} RoundBreachesAreLabelled(spec: Spec, tenants: seq<string>, rs: seq<Audit.Response>)
    requires |rs| == |tenants|
    ensures W.Labelled(spec, Audit.RoundBreaches(spec, tenants, rs))
    decreases |tenants|
  {
    if tenants != [] {
      RoundBreachesAreLabelled(spec, tenants[1..], rs[1..]);
      if rs[0].Events? {
        Audit.OneBreachPerLeak(spec, tenants[0], rs[0].events);
      }
    }
  }

  lemma BreachesForLength(spec: Spec, causes: seq<Cause>)
    requires |causes| <= 1
    ensures |BusDrops.BreachesFor(spec, causes)| == |causes|
  {
    if |causes| == 1 {
      assert causes[..0] == [];
    }
  }

  /** Every round of the three modelled watchers is a possible probe of WatcherSteps, before and after
      the context has ended: what it records carries the name and kind of its own block. The two
      scrapers record one breach at most; an audit round records at most `cap` after cancellation
      for every cap from the size of its answers on. */
  lemma ModelledRoundsAreProbes(v: W.Watcher, cancelled: bool, cap: nat, fetched: Sla.Fetched, late: bool, p: Sla.Params,
                                probe: BusDrops.Probe, metric: string, threshold: real, prev: real,
                                tenants: seq<string>, rs: seq<Audit.Response>)
    requires v.pc == W.Probing && |rs| == |tenants| && cap >= 1 && cap >= Audit.ExpectedTotal(tenants, rs)
    ensures W.CanMove(v, W.ProbeReturns(Sla.BreachesOf(v.spec, Sla.RoundCause(fetched, late, p))), cancelled, cap)
    ensures var causes := BusDrops.RoundCauses(prev, BusDrops.RoundOf(probe, metric), threshold);
            W.CanMove(v, W.ProbeReturns(BusDrops.BreachesFor(v.spec, causes)), cancelled, cap)
    ensures W.CanMove(v, W.ProbeReturns(Audit.RoundBreaches(v.spec, tenants, rs)), cancelled, cap)
  {
    hide Sla.RoundCause, BusDrops.RoundOf, Audit.RoundBreaches, Audit.ExpectedTotal;
    var causes := BusDrops.RoundCauses(prev, BusDrops.RoundOf(probe, metric), threshold);
    BreachesForAreLabelled(v.spec, causes);
    BreachesForLength(v.spec, causes);
    RoundBreachesAreLabelled(v.spec, tenants, rs);
    Audit.RoundIsBounded(v.spec, tenants, rs);
  }
}
