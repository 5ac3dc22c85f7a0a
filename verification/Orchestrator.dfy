/** internal/orchestrate/orchestrate.go, Run: agents, injectors and watchers as goroutines under one
    scheduler, a context that may end at any moment, and a join. */
module Orchestrator {
  import opened Sums
  import opened Breaches
  import opened Ledger
  import A = AgentSteps
  import Agents
  import I = Injection
  import R = RecorderSteps
  import W = WatcherSteps

  /** The scenario's entry for an injector: what goes into its report row. */
  datatype InjectorSpec = InjectorSpec(name: string, kind: string)

  /** The dispatch counter by its result label. */
  datatype Cells = Cells(ok: nat, error: nat, unsupported: nat)

  datatype Result = Success | WriteFailed

  datatype Collected = Collected(
    timelines: seq<Timeline>, workloads: seq<WorkloadRow>, injectors: seq<InjectorRow>)

  datatype Main = Waiting | Returned(report: Collected, result: Result)

  datatype State = State(
    now: int, cancelled: bool, cap: nat,
    agents: seq<A.Agent>,
    specs: seq<InjectorSpec>,
    injectors: seq<I.Injector>,
    watchers: seq<W.Watcher>,
    cells: Cells, log: seq<Entry>, main: Main)

  datatype Step =
    | Clock(dt: nat)
    | Cancel
    | OfAgent(a: nat, am: A.Move)
    | OfInjector(i: nat, im: I.Move)
    | OfWatcher(v: nat, wm: W.Move)
    | Join(writeOk: bool)

  // ----- the report -----

  function BreachLog(log: seq<Entry>): seq<Breach> {
    if log == [] then [] else BreachLog(log[..|log| - 1]) + [log[|log| - 1].breach]
  }

  function SpecsOf(ws: seq<W.Watcher>): seq<Spec> {
    if ws == [] then [] else SpecsOf(ws[..|ws| - 1]) + [ws[|ws| - 1].spec]
  }

  function WorkloadRows(agents: seq<A.Agent>): seq<WorkloadRow> {
    if agents == [] then []
    else
      var a := agents[|agents| - 1];
      WorkloadRows(agents[..|agents| - 1]) + [WorkloadRow(a.w.name, a.w.tenant, a.ops, a.errors)]
  }

  function InjectorRows(specs: seq<InjectorSpec>, injectors: seq<I.Injector>): seq<InjectorRow>
    requires |specs| == |injectors|
  {
    if specs == [] then []
    else
      var last := |specs| - 1;
      var e := injectors[last].event;
      InjectorRows(specs[..last], injectors[..last])
      + [InjectorRow(specs[last].name, specs[last].kind, e.appliedAt, e.revertedAt, e.detail)]
  }

  function ReportOf(s: State): Collected
    requires |s.specs| == |s.injectors|
  {
    Collected(Timelines(SpecsOf(s.watchers), BreachLog(s.log)), WorkloadRows(s.agents), InjectorRows(s.specs, s.injectors))
  }

  // ----- steps -----

  /** Whatever the goroutines came to, only the writing of the report decides. */
  function ResultOf(writeOk: bool): Result {
    if writeOk then Success else WriteFailed
  }

  predicate AllGone(s: State) {
    && (forall i :: 0 <= i < |s.agents| ==> s.agents[i].pc == A.Gone)
    && (forall i :: 0 <= i < |s.injectors| ==> s.injectors[i].pc == I.Exited)
    && (forall i :: 0 <= i < |s.watchers| ==> s.watchers[i].pc == W.Gone)
  }

  predicate Enabled(s: State, step: Step) {
    match step
    case Clock(_) => true
    case Cancel => true
    case OfAgent(i, m) => i < |s.agents| && A.CanMove(s.agents[i], m, s.cancelled)
    case OfInjector(i, m) => i < |s.injectors| && I.CanMove(s.injectors[i], m, s.now, s.cancelled)
    case OfWatcher(i, m) => i < |s.watchers| && W.CanMove(s.watchers[i], m, s.cancelled, s.cap)
    case Join(_) => s.main == Waiting && AllGone(s) && |s.specs| == |s.injectors|
  }

  function Bumped(c: Cells, o: Agents.Outcome): Cells {
    match o
    case Ok => c.(ok := c.ok + 1)
    case Error => c.(error := c.error + 1)
    case Unsupported => c.(unsupported := c.unsupported + 1)
  }

  function CellsAfter(c: Cells, a: A.Agent, m: A.Move): Cells {
    if m == A.Count && a.counted && a.pc.Replied? then Bumped(c, a.pc.o) else c
  }

  function LogAfter(log: seq<Entry>, i: nat, v: W.Watcher, m: W.Move): seq<Entry> {
    if m == W.RecordOne && v.pc.Recording? && v.pc.queue != [] then log + [Entry(i, v.pc.queue[0])] else log
  }

  function Do(s: State, step: Step): State
    requires Enabled(s, step)
  {
    match step
    case Clock(dt) => s.(now := s.now + dt)
    case Cancel => s.(cancelled := true)
    case OfAgent(i, m) =>
      s.(agents := s.agents[i := A.Moved(s.agents[i], m, s.cancelled)], cells := CellsAfter(s.cells, s.agents[i], m))
    case OfInjector(i, m) => s.(injectors := s.injectors[i := I.Moved(s.injectors[i], m, s.now)])
    case OfWatcher(i, m) =>
      s.(watchers := s.watchers[i := W.Moved(s.watchers[i], m, s.cancelled, s.cap)],
         log := LogAfter(s.log, i, s.watchers[i], m))
    case Join(writeOk) => s.(main := Returned(ReportOf(s), ResultOf(writeOk)))
  }

  predicate CanRun(s: State, run: seq<Step>)
    decreases |run|
  {
    run != [] ==> Enabled(s, run[0]) && CanRun(Do(s, run[0]), run[1..])
  }

  function Exec(s: State, run: seq<Step>): State
    requires CanRun(s, run)
    decreases |run|
  {
    if run == [] then s else Exec(Do(s, run[0]), run[1..])
  }

  // ----- the invariant -----

  predicate Initial(s: State) {
    && !s.cancelled && s.main == Waiting && s.log == [] && s.cells == Cells(0, 0, 0)
    && |s.specs| == |s.injectors|
    && (forall i :: 0 <= i < |s.agents| ==>
          var a := s.agents[i]; a == A.Launched(a.w, a.portal, a.counted, a.patience))
    && (forall i :: 0 <= i < |s.injectors| ==> s.injectors[i] == I.Armed(s.injectors[i].s))
    && (forall i :: 0 <= i < |s.watchers| ==>
          var v := s.watchers[i]; v == W.Launched(v.spec, v.accepts, v.patience))
  }

  function Incs(): A.Agent -> nat {
    (a: A.Agent) => a.incs
  }

  function ErrorIncs(): A.Agent -> nat {
    (a: A.Agent) => a.errorIncs
  }

  function CellOf(c: Cells, o: Agents.Outcome): nat {
    match o
    case Ok => c.ok
    case Error => c.error
    case Unsupported => c.unsupported
  }

  function CountedAs(o: Agents.Outcome): A.Agent -> nat {
    (a: A.Agent) => Sum(A.CountedCalls(a), A.HasOutcome(o))
  }

  function Authored(i: nat): Entry -> nat {
    (e: Entry) => if e.author == i then 1 else 0
  }

  predicate EntryInv(s: State, e: Entry) {
    && e.author < |s.watchers|
    && e.breach.name == s.watchers[e.author].spec.name
    && e.breach.kind == s.watchers[e.author].spec.kind
  }

  predicate TotalsInv(s: State) {
    && s.cells.ok + s.cells.error + s.cells.unsupported == Sum(s.agents, Incs())
    && s.cells.error == Sum(s.agents, ErrorIncs())
  }

  predicate OutcomeInv(s: State, o: Agents.Outcome) {
    CellOf(s.cells, o) == Sum(s.agents, CountedAs(o))
  }

  predicate CellsInv(s: State) {
    TotalsInv(s) && OutcomeInv(s, Agents.Ok) && OutcomeInv(s, Agents.Error) && OutcomeInv(s, Agents.Unsupported)
  }

  predicate LogInv(s: State) {
    && (forall e :: e in s.log ==> EntryInv(s, e))
    && (forall i :: 0 <= i < |s.watchers| ==> s.watchers[i].recorded == Sum(s.log, Authored(i)))
  }

  predicate LocalInv(s: State) {
    && |s.specs| == |s.injectors|
    && (forall i :: 0 <= i < |s.agents| ==> A.Inv(s.agents[i]))
    && (forall i :: 0 <= i < |s.injectors| ==> I.Inv(s.injectors[i], s.now, s.cancelled))
    && (forall i :: 0 <= i < |s.watchers| ==> W.Inv(s.watchers[i]))
  }

  /** Agents and polling watchers only leave because the context ended. */
  predicate GoneInv(s: State) {
    && (forall i :: 0 <= i < |s.agents| && s.agents[i].pc == A.Gone ==> s.cancelled)
    && (forall i :: 0 <= i < |s.watchers| && s.watchers[i].pc == W.Gone ==> s.cancelled || !s.watchers[i].accepts)
  }

  /** Once Run has returned, everything is over and the report is what was collected. */
  predicate MainInv(s: State) {
    s.main.Returned? ==> |s.specs| == |s.injectors| && AllGone(s) && s.main.report == ReportOf(s)
  }

  predicate Inv(s: State) {
    LocalInv(s) && GoneInv(s) && CellsInv(s) && LogInv(s) && MainInv(s)
  }

  lemma InitialCells(s: State)
    requires Initial(s)
    ensures CellsInv(s)
  {
    hide A.Inv, I.Inv, W.Inv;
    SumZero(s.agents, Incs());
    SumZero(s.agents, ErrorIncs());
    SumZero(s.agents, CountedAs(Agents.Ok));
    SumZero(s.agents, CountedAs(Agents.Error));
    SumZero(s.agents, CountedAs(Agents.Unsupported));
  }

  lemma InitialInv(s: State)
    requires Initial(s)
    ensures Inv(s)
  {
    hide A.Inv, I.Inv, CellsInv;
    InitialCells(s);
    forall i | 0 <= i < |s.injectors|
      ensures I.Inv(s.injectors[i], s.now, s.cancelled)
    {
      I.ArmedInv(s.injectors[i].s, s.now);
    }
    forall i | 0 <= i < |s.agents|
      ensures A.Inv(s.agents[i])
    {
      var a := s.agents[i];
      A.LaunchedInv(a.w, a.portal, a.counted, a.patience);
    }
  }

  lemma LocalStep(s: State, step: Step)
    requires LocalInv(s) && Enabled(s, step)
    ensures LocalInv(Do(s, step))
  {
    hide A.Inv, I.Inv, W.Inv, A.Moved, I.Moved, W.Moved, A.CanMove, I.CanMove, W.CanMove, ReportOf, AllGone;
    var t := Do(s, step);
    forall i | 0 <= i < |t.injectors|
      ensures I.Inv(t.injectors[i], t.now, t.cancelled)
    {
      if step.OfInjector? && step.i == i {
        I.MovedInv(s.injectors[i], step.im, s.now, s.cancelled);
      } else {
        I.InvMonotone(s.injectors[i], s.now, s.cancelled, t.now, t.cancelled);
      }
    }
    if step.OfAgent? {
      A.MovedInv(s.agents[step.a], step.am, s.cancelled);
    } else if step.OfWatcher? {
      W.MovedInv(s.watchers[step.v], step.wm, s.cancelled, s.cap);
    }
  }

  lemma GoneStep(s: State, step: Step)
    requires GoneInv(s) && Enabled(s, step)
    ensures GoneInv(Do(s, step))
  {
    hide ReportOf, AllGone;
  }

  lemma TotalsStep(s: State, step: Step)
    requires TotalsInv(s) && Enabled(s, step)
    ensures TotalsInv(Do(s, step))
  {
    hide ReportOf, AllGone, I.Moved, W.Moved, I.CanMove, W.CanMove, LogAfter, Agents.CallAt;
    if step.OfAgent? {
      var b := A.Moved(s.agents[step.a], step.am, s.cancelled);
      SumUpdate(s.agents, step.a, b, Incs());
      SumUpdate(s.agents, step.a, b, ErrorIncs());
    }
  }

  lemma CountStep(s: State, i: nat, m: A.Move, o: Agents.Outcome)
    requires LocalInv(s) && OutcomeInv(s, o)
    requires i < |s.agents| && A.CanMove(s.agents[i], m, s.cancelled)
    ensures CellOf(CellsAfter(s.cells, s.agents[i], m), o)
            == Sum(s.agents[i := A.Moved(s.agents[i], m, s.cancelled)], CountedAs(o))
  {
    hide A.Inv, I.Inv, W.Inv, A.Moved, A.CountedCalls;
    SumUpdate(s.agents, i, A.Moved(s.agents[i], m, s.cancelled), CountedAs(o));
    A.CountedNext(s.agents[i], m, s.cancelled, o);
  }

  lemma OutcomeStep(s: State, step: Step, o: Agents.Outcome)
    requires LocalInv(s) && OutcomeInv(s, o) && Enabled(s, step)
    ensures OutcomeInv(Do(s, step), o)
  {
    hide ReportOf, AllGone, LocalInv, CellOf, CountedAs, CellsAfter, A.Moved, I.Moved, W.Moved, I.CanMove, W.CanMove;
    hide A.CanMove, LogAfter;
    if step.OfAgent? {
      CountStep(s, step.a, step.am, o);
    }
  }

  lemma CellsStep(s: State, step: Step)
    requires LocalInv(s) && CellsInv(s) && Enabled(s, step)
    ensures CellsInv(Do(s, step))
  {
    hide LocalInv, TotalsInv, OutcomeInv, Enabled, Do;
    TotalsStep(s, step);
    OutcomeStep(s, step, Agents.Ok);
    OutcomeStep(s, step, Agents.Error);
    OutcomeStep(s, step, Agents.Unsupported);
  }

  lemma LogStep(s: State, step: Step)
    requires LocalInv(s) && LogInv(s) && Enabled(s, step)
    ensures LogInv(Do(s, step))
  {
    hide A.Inv, I.Inv, A.Moved, I.Moved, A.CanMove, I.CanMove, ReportOf, AllGone;
    var t := Do(s, step);
    forall e | e in t.log
      ensures EntryInv(t, e)
    {
      if e in s.log {
        assert EntryInv(s, e);
      } else {
        assert W.Inv(s.watchers[step.v]);
      }
    }
    forall i | 0 <= i < |t.watchers|
      ensures t.watchers[i].recorded == Sum(t.log, Authored(i))
    {
      if step.OfWatcher? && step.wm == W.RecordOne {
        SumSnoc(s.log, Entry(step.v, s.watchers[step.v].pc.queue[0]), Authored(i));
      }
    }
  }

  lemma GoneStaysGone(s: State, step: Step)
    requires AllGone(s) && Enabled(s, step)
    ensures step.Clock? || step.Cancel? || step.Join?
  {
  }

  lemma MainStep(s: State, step: Step)
    requires MainInv(s) && Enabled(s, step)
    ensures MainInv(Do(s, step))
  {
    hide WorkloadRows, InjectorRows, Timelines, SpecsOf, BreachLog;
    if s.main.Returned? {
      GoneStaysGone(s, step);
    }
  }

  lemma {:induction false} InvAlong(s: State, run: seq<Step>)
    requires Inv(s) && CanRun(s, run)
    ensures Inv(Exec(s, run))
    decreases |run|
  {
    if run != [] {
      hide LocalInv, GoneInv, CellsInv, LogInv, MainInv, Do, Enabled;
      LocalStep(s, run[0]);
      GoneStep(s, run[0]);
      CellsStep(s, run[0]);
      LogStep(s, run[0]);
      MainStep(s, run[0]);
      InvAlong(Do(s, run[0]), run[1..]);
    }
  }

  /** Reachable in some interleaving, with the context ending at any point or never. */
  ghost predicate Reachable(s0: State, s: State) {
    Initial(s0) && exists run :: CanRun(s0, run) && Exec(s0, run) == s
  }

  lemma ReachableInv(s0: State, s: State)
    requires Reachable(s0, s)
    ensures Inv(s)
  {
    hide Inv, Initial, Exec, CanRun;
    var run :| CanRun(s0, run) && Exec(s0, run) == s;
    InitialInv(s0);
    InvAlong(s0, run);
  }

  // ----- injector lifecycle -----

  /** In every reachable state: an injector has made no call, only Apply, or Apply then Revert. Once it
      has finished it called Apply unless it was cancelled before, and after Apply it called Revert
      exactly if a recovery time was set that lies after the apply time, be it by timer or because
      the context ended. */
  lemma InjectorLifecycle(s0: State, s: State, i: nat)
    requires Reachable(s0, s) && i < |s.injectors|
    ensures var inj := s.injectors[i];
            && (inj.deeds == [] || inj.deeds == [I.Apply] || inj.deeds == [I.Apply, I.Revert])
            && (inj.pc == I.Exited ==>
                  && (inj.deeds == [] ==> s.cancelled && inj.event == I.NO_EVENT)
                  && (inj.deeds != [] ==> (I.Revert in inj.deeds <==> inj.s.hasRecover && inj.s.recoverAt > inj.s.atOffset))
                  && (inj.event.appliedAt.Some? <==> I.Apply in inj.deeds)
                  && (inj.event.revertedAt.Some? <==> I.Revert in inj.deeds))
  {
    hide A.Inv, W.Inv, CellsInv, LogInv, MainInv, Reachable;
    ReachableInv(s0, s);
    assert I.Inv(s.injectors[i], s.now, s.cancelled);
  }

  /** No Apply is called, let alone returns, before its offset, and without cancellation no Revert
      before its recovery time; the recorded times are those at which the calls returned, in order. */
  lemma InjectorTimes(s0: State, s: State, i: nat)
    requires Reachable(s0, s) && i < |s.injectors|
    ensures var inj := s.injectors[i];
            && (I.Apply in inj.deeds ==> s.now >= inj.s.start + inj.s.atOffset)
            && (I.Revert in inj.deeds && !s.cancelled ==> s.now >= inj.s.start + inj.s.recoverAt)
            && (inj.event.appliedAt.Some? ==> inj.event.appliedAt.value >= inj.s.start + inj.s.atOffset)
            && (inj.event.revertedAt.Some? ==>
                  inj.event.appliedAt.Some? && inj.event.appliedAt.value <= inj.event.revertedAt.value)
            && (inj.event.revertedAt.Some? && !s.cancelled ==> inj.event.revertedAt.value >= inj.s.start + inj.s.recoverAt)
  {
    hide A.Inv, W.Inv, CellsInv, LogInv, MainInv, Reachable;
    ReachableInv(s0, s);
    assert I.Inv(s.injectors[i], s.now, s.cancelled);
  }

  /** The timers neither fire early nor wait longer: Apply can be called as soon as the offset has
      passed, Revert as soon as the gap has passed since Apply returned, and in either wait the other
      way out is open exactly when the context has ended. */
  lemma TimersFireWhenDue(s0: State, s: State, i: nat)
    requires Reachable(s0, s) && i < |s.injectors| && s.injectors[i].pc != I.Exited
    ensures var inj := s.injectors[i];
            && (inj.deeds == [] ==>
                  && (Enabled(s, OfInjector(i, I.FireApply)) <==> s.now >= inj.s.start + inj.s.atOffset)
                  && (Enabled(s, OfInjector(i, I.CancelBeforeApply)) <==> s.cancelled))
            && (inj.deeds == [I.Apply] && inj.event.appliedAt.Some? ==>
                  && (Enabled(s, OfInjector(i, I.FireRevert))
                      <==> s.now >= inj.event.appliedAt.value + (inj.s.recoverAt - inj.s.atOffset))
                  && (Enabled(s, OfInjector(i, I.CancelInWindow)) <==> s.cancelled))
  {
    hide A.Inv, W.Inv, CellsInv, LogInv, MainInv, Reachable;
    ReachableInv(s0, s);
    assert I.Inv(s.injectors[i], s.now, s.cancelled);
  }

  // ----- what an injector's event says of the run -----

  /** The moves of injector i in a run, each with the time at which it was made. */
  function History(s: State, run: seq<Step>, i: nat): seq<I.Timed>
    requires CanRun(s, run)
    decreases |run|
  {
    if run == [] then []
    else
      var rest := History(Do(s, run[0]), run[1..], i);
      if run[0].OfInjector? && run[0].i == i then [I.Timed(s.now, run[0].im)] + rest else rest
  }

  lemma InjectorStep(s: State, step: Step, i: nat)
    requires Enabled(s, step) && i < |s.injectors|
    ensures |Do(s, step).injectors| == |s.injectors|
    ensures if step.OfInjector? && step.i == i then
              && I.CanMove(s.injectors[i], step.im, s.now, true)
              && Do(s, step).injectors[i] == I.Moved(s.injectors[i], step.im, s.now)
            else Do(s, step).injectors[i] == s.injectors[i]
  {
    hide ReportOf, AllGone, I.Moved, A.Moved, W.Moved, A.CanMove, W.CanMove;
  }

  lemma {:induction false} HistoryReplays(s: State, run: seq<Step>, i: nat)
    requires CanRun(s, run) && i < |s.injectors|
    ensures i < |Exec(s, run).injectors|
    ensures I.CanReplay(s.injectors[i], History(s, run, i))
    ensures Exec(s, run).injectors[i] == I.Replay(s.injectors[i], History(s, run, i))
    decreases |run|
  {
    if run != [] {
      hide Do, Enabled, I.Moved, I.CanMove;
      InjectorStep(s, run[0], i);
      HistoryReplays(Do(s, run[0]), run[1..], i);
      var h := History(s, run, i);
      if run[0].OfInjector? && run[0].i == i {
        assert h[1..] == History(Do(s, run[0]), run[1..], i);
      }
    }
  }

  /** Over every run: the apply and revert times of an injector are those at which its two calls
      returned, and its detail is the error of the Apply if that failed, else the error of the Revert if
      that failed, else empty. */
  lemma EventTellsRun(s0: State, run: seq<Step>, i: nat)
    requires Initial(s0) && CanRun(s0, run) && i < |s0.injectors|
    ensures i < |Exec(s0, run).injectors|
    ensures I.TimesTell(History(s0, run, i), Exec(s0, run).injectors[i].event)
    ensures I.DetailTells(History(s0, run, i), Exec(s0, run).injectors[i].event)
  {
    hide I.TimesTell, I.DetailTells, I.CanReplay, I.Replay, Exec, CanRun, History;
    HistoryReplays(s0, run, i);
    I.EventTells(s0.injectors[i].s, History(s0, run, i));
  }

  // ----- what the scenario fixes -----

  predicate SameScenario(s: State, t: State) {
    && |t.agents| == |s.agents| && |t.injectors| == |s.injectors| && |t.watchers| == |s.watchers|
    && t.specs == s.specs
    && (forall i :: 0 <= i < |s.agents| ==> t.agents[i].w == s.agents[i].w && t.agents[i].counted == s.agents[i].counted)
    && (forall i :: 0 <= i < |s.injectors| ==> t.injectors[i].s == s.injectors[i].s)
    && (forall i :: 0 <= i < |s.watchers| ==>
          t.watchers[i].spec == s.watchers[i].spec && t.watchers[i].accepts == s.watchers[i].accepts)
  }

  lemma SameScenarioStep(s: State, step: Step)
    requires Enabled(s, step)
    ensures SameScenario(s, Do(s, step))
  {
    hide ReportOf, AllGone;
  }

  lemma {:induction false} SameScenarioAlong(s: State, run: seq<Step>)
    requires CanRun(s, run)
    ensures SameScenario(s, Exec(s, run))
    decreases |run|
  {
    if run != [] {
      hide Do, Enabled;
      SameScenarioStep(s, run[0]);
      SameScenarioAlong(Do(s, run[0]), run[1..]);
    }
  }

  lemma ScenarioIsKept(s0: State, s: State)
    requires Reachable(s0, s)
    ensures SameScenario(s0, s)
  {
    hide SameScenario, Do, Enabled, Initial;
    var run :| CanRun(s0, run) && Exec(s0, run) == s;
    SameScenarioAlong(s0, run);
  }

  // ----- termination after cancellation -----

  predicate IsWork(step: Step) {
    !step.Clock? && !step.Cancel?
  }

  function WorkIn(run: seq<Step>): nat {
    if run == [] then 0 else WorkIn(run[1..]) + if IsWork(run[0]) then 1 else 0
  }

  function Measure(s: State): nat {
    Sum(s.agents, A.Rank()) + Sum(s.injectors, I.Rank()) + Sum(s.watchers, W.Rank(s.cap))
    + if s.main == Waiting then 1 else 0
  }

  lemma WorkDecreases(s: State, step: Step)
    requires s.cancelled && Enabled(s, step)
    ensures Do(s, step).cancelled
    ensures IsWork(step) ==> Measure(Do(s, step)) < Measure(s)
    ensures !IsWork(step) ==> Measure(Do(s, step)) == Measure(s)
  {
    hide A.Moved, I.Moved, W.Moved, A.CanMove, I.CanMove, W.CanMove, ReportOf, AllGone, A.Rank, I.Rank, W.Rank;
    match step
    case Clock(_) =>
    case Cancel =>
    case OfAgent(i, m) =>
      SumUpdate(s.agents, i, A.Moved(s.agents[i], m, true), A.Rank());
      A.MovesRunOut(s.agents[i], m);
    case OfInjector(i, m) =>
      SumUpdate(s.injectors, i, I.Moved(s.injectors[i], m, s.now), I.Rank());
      I.MovesRunOut(s.injectors[i], m, s.now, true);
    case OfWatcher(i, m) =>
      SumUpdate(s.watchers, i, W.Moved(s.watchers[i], m, true, s.cap), W.Rank(s.cap));
      W.MovesRunOut(s.watchers[i], m, s.cap);
    case Join(_) =>
  }

  /** After cancellation every run makes at most Measure steps beside the clock. */
  lemma {:induction false} WorkIsBounded(s: State, run: seq<Step>)
    requires s.cancelled && CanRun(s, run)
    ensures WorkIn(run) + Measure(Exec(s, run)) <= Measure(s)
    decreases |run|
  {
    if run != [] {
      hide Enabled, Do, Measure, IsWork;
      WorkDecreases(s, run[0]);
      WorkIsBounded(Do(s, run[0]), run[1..]);
    }
  }

  /** After cancellation no goroutine is ever stuck: whichever has not finished can move on its own,
      and when all have, Run returns. */
  lemma NobodyIsStuck(s: State)
    requires Inv(s) && s.cancelled
    ensures forall i :: 0 <= i < |s.agents| && s.agents[i].pc != A.Gone ==>
              Enabled(s, OfAgent(i, A.NextMove(s.agents[i])))
    ensures forall i :: 0 <= i < |s.injectors| && s.injectors[i].pc != I.Exited ==>
              Enabled(s, OfInjector(i, I.NextMove(s.injectors[i])))
    ensures forall i :: 0 <= i < |s.watchers| && s.watchers[i].pc != W.Gone ==>
              Enabled(s, OfWatcher(i, W.NextMove(s.watchers[i])))
    ensures AllGone(s) && s.main == Waiting ==> Enabled(s, Join(true)) && Enabled(s, Join(false))
  {
    hide CellsInv, LogInv, MainInv, I.Inv, W.Inv;
    forall i | 0 <= i < |s.agents| && s.agents[i].pc != A.Gone
      ensures Enabled(s, OfAgent(i, A.NextMove(s.agents[i])))
    {
      assert A.Inv(s.agents[i]);
    }
  }

  /** Until Run has returned, some step of work is possible. */
  lemma WorkIsPossible(s: State) returns (step: Step)
    requires Inv(s) && s.cancelled && s.main == Waiting
    ensures IsWork(step) && Enabled(s, step) && (step.Join? ==> AllGone(s))
  {
    hide Inv, A.NextMove, I.NextMove, W.NextMove, A.CanMove, I.CanMove, W.CanMove;
    NobodyIsStuck(s);
    if i :| 0 <= i < |s.agents| && s.agents[i].pc != A.Gone {
      step := OfAgent(i, A.NextMove(s.agents[i]));
    } else if i :| 0 <= i < |s.injectors| && s.injectors[i].pc != I.Exited {
      step := OfInjector(i, I.NextMove(s.injectors[i]));
    } else if i :| 0 <= i < |s.watchers| && s.watchers[i].pc != W.Gone {
      step := OfWatcher(i, W.NextMove(s.watchers[i]));
    } else {
      step := Join(true);
    }
  }

  lemma {:induction false} CancelledAlong(s: State, run: seq<Step>)
    requires s.cancelled && CanRun(s, run)
    ensures Exec(s, run).cancelled
    decreases |run|
  {
    if run != [] {
      CancelledAlong(Do(s, run[0]), run[1..]);
    }
  }

  /** Termination: from any reachable cancelled state a run does at most Measure steps of work, and
      it can do another one unless every goroutine has finished and Run has returned. */
  lemma CancelledRunReturns(s0: State, s: State, run: seq<Step>)
    requires Reachable(s0, s) && s.cancelled && CanRun(s, run)
    ensures WorkIn(run) <= Measure(s)
    ensures var t := Exec(s, run);
            (t.main.Returned? && AllGone(t)) || exists step :: IsWork(step) && Enabled(t, step)
  {
    hide Reachable, Enabled, Measure, LocalInv, CellsInv, LogInv;
    ReachableInv(s0, s);
    WorkIsBounded(s, run);
    InvAlong(s, run);
    CancelledAlong(s, run);
    var t := Exec(s, run);
    if t.main == Waiting {
      var step := WorkIsPossible(t);
    }
  }

  /** Only cancellation makes Run return, unless there is no agent and every watcher rejected its
      parameters: a watcher that fails does not end the run. */
  lemma ReturnsOnlyWhenCancelled(s0: State, s: State)
    requires Reachable(s0, s) && s.main.Returned?
    requires s.agents != [] || exists v :: v in s.watchers && v.accepts
    ensures s.cancelled
  {
    hide Reachable, LocalInv, CellsInv, LogInv, ReportOf;
    ReachableInv(s0, s);
    if s.agents != [] {
      assert s.agents[0].pc == A.Gone;
    } else {
      var v :| v in s.watchers && v.accepts;
      var i :| 0 <= i < |s.watchers| && s.watchers[i] == v;
      assert s.watchers[i].pc == W.Gone;
    }
  }

  // ----- returning without cancellation, and the result -----

  lemma {:induction false} RunConcat(s: State, a: seq<Step>, b: seq<Step>)
    requires CanRun(s, a) && CanRun(Exec(s, a), b)
    ensures CanRun(s, a + b) && Exec(s, a + b) == Exec(Exec(s, a), b)
    decreases |a|
  {
    hide Enabled, Do;
    if a == [] {
      assert a + b == b;
    } else {
      assert (a + b)[0] == a[0] && (a + b)[1..] == a[1..] + b;
      RunConcat(Do(s, a[0]), a[1..], b);
    }
  }

  /** No agent, and no watcher that polls. */
  predicate Unattended(s: State) {
    s.agents == [] && forall i :: 0 <= i < |s.watchers| ==> !s.watchers[i].accepts
  }

  /** A run that brings Run closer to its return. */
  predicate Advances(s: State, run: seq<Step>) {
    CanRun(s, run)
    && var t := Exec(s, run);
       Measure(t) < Measure(s) && t.main == Waiting && t.cancelled == s.cancelled
  }

  lemma OneStep(s: State, step: Step)
    requires Enabled(s, step)
    ensures CanRun(s, [step]) && Exec(s, [step]) == Do(s, step)
  {
    hide Enabled, Do;
    assert [step][1..] == [];
  }

  lemma StillWaiting(s: State, step: Step)
    requires Enabled(s, step) && !step.Join?
    ensures Do(s, step).main == s.main
  {
  }

  lemma AdvanceCancelled(s: State) returns (run: seq<Step>)
    requires Inv(s) && s.main == Waiting && !AllGone(s) && s.cancelled
    ensures Advances(s, run)
  {
    hide Inv, Enabled, Do, Measure, AllGone;
    var step := WorkIsPossible(s);
    WorkDecreases(s, step);
    assert Do(s, step).main == Waiting by {
      StillWaiting(s, step);
    }
    run := [step];
    OneStep(s, step);
  }

  lemma AdvanceByRejecting(s: State, i: nat) returns (run: seq<Step>)
    requires Inv(s) && s.main == Waiting && Unattended(s)
    requires i < |s.watchers| && s.watchers[i].pc != W.Gone
    ensures Advances(s, run)
  {
    hide LogInv, CellsInv, MainInv, GoneInv, A.Inv, I.Inv, A.Rank, I.Rank, W.Rank, ReportOf, AllGone;
    assert W.Inv(s.watchers[i]);
    var step := OfWatcher(i, W.Reject);
    SumUpdate(s.watchers, i, W.Moved(s.watchers[i], W.Reject, s.cancelled, s.cap), W.Rank(s.cap));
    W.StartingRunsOut(s.watchers[i], W.Reject, s.cancelled, s.cap);
    run := [step];
    OneStep(s, step);
  }

  /** Waiting for the injector's timer, if it is on one, and letting it move. */
  lemma AdvanceInjector(s: State, i: nat) returns (run: seq<Step>)
    requires s.main == Waiting && i < |s.injectors| && s.injectors[i].pc != I.Exited
    ensures Advances(s, run)
  {
    hide A.Rank, I.Rank, W.Rank, I.Moved, ReportOf, AllGone;
    var inj := s.injectors[i];
    var dt, m := I.DueIn(inj, s.now), I.DueMove(inj);
    var t := Do(s, Clock(dt));
    SumUpdate(s.injectors, i, I.Moved(inj, m, t.now), I.Rank());
    I.MovesRunOut(inj, m, t.now, s.cancelled);
    OneStep(s, Clock(dt));
    OneStep(t, OfInjector(i, m));
    RunConcat(s, [Clock(dt)], [OfInjector(i, m)]);
    run := [Clock(dt)] + [OfInjector(i, m)];
  }

  lemma Advance(s: State) returns (run: seq<Step>)
    requires Inv(s) && s.main == Waiting && !AllGone(s) && (s.cancelled || Unattended(s))
    ensures Advances(s, run)
  {
    hide Inv, Advances;
    if s.cancelled {
      run := AdvanceCancelled(s);
    } else if i :| 0 <= i < |s.watchers| && s.watchers[i].pc != W.Gone {
      run := AdvanceByRejecting(s, i);
    } else {
      var i :| 0 <= i < |s.injectors| && s.injectors[i].pc != I.Exited;
      run := AdvanceInjector(s, i);
    }
  }

  lemma JoinReturns(s: State, writeOk: bool) returns (run: seq<Step>)
    requires Inv(s) && s.main == Waiting && AllGone(s)
    ensures CanRun(s, run)
    ensures Exec(s, run) == s.(main := Returned(ReportOf(s), ResultOf(writeOk)))
  {
    hide CellsInv, LogInv, GoneInv, MainInv, AllGone, ReportOf;
    run := [Join(writeOk)];
    OneStep(s, Join(writeOk));
  }

  lemma StaysUnattended(s: State, run: seq<Step>)
    requires CanRun(s, run)
    ensures Unattended(s) ==> Unattended(Exec(s, run))
  {
    hide CanRun, Exec;
    SameScenarioAlong(s, run);
  }

  /** Once cancelled, or unattended, a run can be completed, with either result. */
  lemma {:induction false} Completion(s: State, writeOk: bool) returns (run: seq<Step>)
    requires Inv(s) && s.main == Waiting && (s.cancelled || Unattended(s))
    ensures CanRun(s, run)
    ensures var t := Exec(s, run);
            t.main.Returned? && t.main.result == ResultOf(writeOk) && t.cancelled == s.cancelled
    decreases Measure(s)
  {
    if AllGone(s) {
      run := JoinReturns(s, writeOk);
    } else {
      hide Inv, Measure, AllGone, CanRun, Exec;
      var begin := Advance(s);
      var t := Exec(s, begin);
      InvAlong(s, begin);
      StaysUnattended(s, begin);
      var rest := Completion(t, writeOk);
      RunConcat(s, begin, rest);
      run := begin + rest;
    }
  }

  lemma InitiallyWaiting(s: State)
    requires Initial(s)
    ensures s.main == Waiting && !s.cancelled
  {
  }

  /** Run can return although the context never ended exactly when the scenario has no agent and
      every watcher rejects its parameters. A watcher's failure by itself does not end the run. */
  lemma ReturnsUncancelledIff(s0: State)
    requires Initial(s0)
    ensures (exists s :: Reachable(s0, s) && s.main.Returned? && !s.cancelled) <==> Unattended(s0)
  {
    hide Inv, Exec, CanRun, Initial;
    if Unattended(s0) {
      InitialInv(s0);
      assert s0.main == Waiting && !s0.cancelled by {
        InitiallyWaiting(s0);
      }
      var run := Completion(s0, true);
      assert Reachable(s0, Exec(s0, run));
    }
    if s :| Reachable(s0, s) && s.main.Returned? && !s.cancelled {
      ScenarioIsKept(s0, s);
      if !Unattended(s0) {
        assert s.agents != [] || exists v :: v in s.watchers && v.accepts by {
          if s0.agents == [] {
            var i :| 0 <= i < |s0.watchers| && s0.watchers[i].accepts;
            assert s.watchers[i] in s.watchers;
          }
        }
        ReturnsOnlyWhenCancelled(s0, s);
      }
    }
  }

  predicate FailedIffRejecting(s0: State, s: State) {
    |s.watchers| == |s0.watchers|
    && forall i :: 0 <= i < |s.watchers| ==> (s.watchers[i].failed <==> !s0.watchers[i].accepts)
  }

  lemma RejectedHaveFailed(s0: State, s: State)
    requires Reachable(s0, s) && s.main.Returned?
    ensures FailedIffRejecting(s0, s)
  {
    hide Reachable, CellsInv, LogInv, A.Inv, I.Inv, ReportOf;
    ReachableInv(s0, s);
    ScenarioIsKept(s0, s);
    forall i | 0 <= i < |s.watchers|
      ensures s.watchers[i].failed <==> !s0.watchers[i].accepts
    {
      assert W.Inv(s.watchers[i]);
    }
  }

  /** Every watcher that rejects its parameters has returned an error by the time Run returns, and
      still every scenario can end with either result: only the report decides. */
  lemma WatcherErrorsDoNotDecide(s0: State, writeOk: bool)
    requires Initial(s0)
    ensures forall s :: Reachable(s0, s) && s.main.Returned? ==> FailedIffRejecting(s0, s)
    ensures exists s :: Reachable(s0, s) && s.main.Returned? && s.main.result == if writeOk then Success else WriteFailed
  {
    hide LocalInv, CellsInv, LogInv, GoneInv, ReportOf, Initial, Measure;
    forall s | Reachable(s0, s) && s.main.Returned?
      ensures FailedIffRejecting(s0, s)
    {
      RejectedHaveFailed(s0, s);
    }
    InitialInv(s0);
    InitiallyWaiting(s0);
    var s1 := Do(s0, Cancel);
    InvAlong(s0, [Cancel]);
    assert [Cancel][1..] == [] && Exec(s0, [Cancel]) == s1;
    var rest := Completion(s1, writeOk);
    RunConcat(s0, [Cancel], rest);
    assert Reachable(s0, Exec(s0, [Cancel] + rest));
  }

  // ----- the report is faithful -----

  /** What the report's own reader of an agent's counters, or anyone else, may see at any moment. */
  lemma CountersAtAnyMoment(s0: State, s: State, i: nat)
    requires Reachable(s0, s) && i < |s.agents|
    ensures var a := s.agents[i];
            a.errors <= a.ops && (a.counted ==> a.ops <= a.incs <= a.ops + 1)
  {
    hide Reachable, GoneInv, CellsInv, LogInv, MainInv, A.Inv, I.Inv, W.Inv;
    ReachableInv(s0, s);
    A.OnlookerSees(s.agents[i]);
  }

  lemma {:induction false} WorkloadRowsAt(agents: seq<A.Agent>)
    ensures |WorkloadRows(agents)| == |agents|
    ensures forall i :: 0 <= i < |agents| ==>
              WorkloadRows(agents)[i] == WorkloadRow(agents[i].w.name, agents[i].w.tenant, agents[i].ops, agents[i].errors)
    decreases |agents|
  {
    if agents != [] {
      WorkloadRowsAt(agents[..|agents| - 1]);
    }
  }

  lemma {:induction false} InjectorRowsAt(specs: seq<InjectorSpec>, injectors: seq<I.Injector>)
    requires |specs| == |injectors|
    ensures |InjectorRows(specs, injectors)| == |specs|
    ensures forall i :: 0 <= i < |specs| ==>
              var e := injectors[i].event;
              InjectorRows(specs, injectors)[i]
              == InjectorRow(specs[i].name, specs[i].kind, e.appliedAt, e.revertedAt, e.detail)
    decreases |specs|
  {
    if specs != [] {
      InjectorRowsAt(specs[..|specs| - 1], injectors[..|specs| - 1]);
    }
  }

  lemma {:induction false} SpecsOfAt(ws: seq<W.Watcher>)
    ensures |SpecsOf(ws)| == |ws| && forall i :: 0 <= i < |ws| ==> SpecsOf(ws)[i] == ws[i].spec
    decreases |ws|
  {
    if ws != [] {
      SpecsOfAt(ws[..|ws| - 1]);
    }
  }

  lemma {:induction false} BreachLogAt(log: seq<Entry>)
    ensures |BreachLog(log)| == |log| && forall i :: 0 <= i < |log| ==> BreachLog(log)[i] == log[i].breach
    decreases |log|
  {
    if log != [] {
      BreachLogAt(log[..|log| - 1]);
    }
  }

  lemma ReturnedReport(s0: State, s: State)
    requires Reachable(s0, s) && s.main.Returned?
    ensures |s.specs| == |s.injectors| && s.main.report == ReportOf(s)
  {
    hide Reachable, LocalInv, CellsInv, LogInv, GoneInv, ReportOf;
    ReachableInv(s0, s);
  }

  function Ops(): A.Agent -> nat {
    (a: A.Agent) => a.ops
  }

  function Errors(): A.Agent -> nat {
    (a: A.Agent) => a.errors
  }

  /** Row i of the returned report carries scenario entry i and the counters of its own agent, which
      are the number of its calls, one per tick it took, and of its failed calls. */
  lemma WorkloadRowsAreFaithful(s0: State, s: State, i: nat)
    requires Reachable(s0, s) && s.main.Returned? && i < |s0.agents|
    ensures |s.main.report.workloads| == |s0.agents| == |s.agents|
    ensures var a, row := s.agents[i], s.main.report.workloads[i];
            && row.name == s0.agents[i].w.name && row.tenant == s0.agents[i].w.tenant
            && row.ops == |A.CallsMade(a)| && row.errors == A.ErrorsIn(A.CallsMade(a))
            && row.ops == (if a.w.resources == [] then 0 else a.ticks)
            && (a.counted ==> a.incs == row.ops && a.errorIncs == row.errors)
  {
    hide Reachable, CellsInv, LogInv, Do, Enabled, I.Inv, W.Inv, A.CallsMade, A.ErrorsIn, Timelines, InjectorRows;
    ReachableInv(s0, s);
    ScenarioIsKept(s0, s);
    WorkloadRowsAt(s.agents);
    assert A.Inv(s.agents[i]);
  }

  /** The calls of an agent with this outcome, if its counter is attached. */
  function CallsWith(o: Agents.Outcome): A.Agent -> nat {
    (a: A.Agent) => if a.counted then Sum(A.CallsMade(a), A.HasOutcome(o)) else 0
  }

  lemma AllCounted(a: A.Agent)
    requires A.Inv(a) && a.pc == A.Gone
    ensures A.CountedCalls(a) == if a.counted then A.CallsMade(a) else []
    ensures a.counted ==> a.incs == a.ops && a.errorIncs == a.errors
  {
    hide A.CallsMade, A.ErrorsIn;
  }

  /** Once Run has returned, each cell of the shared dispatch counter is the number of calls with its
      outcome, and the counter agrees with the agents' own totals if it is attached to all. */
  lemma DispatchCounterAgrees(s0: State, s: State)
    requires Reachable(s0, s) && s.main.Returned?
    ensures s.cells.ok == Sum(s.agents, CallsWith(Agents.Ok))
    ensures s.cells.error == Sum(s.agents, CallsWith(Agents.Error))
    ensures s.cells.unsupported == Sum(s.agents, CallsWith(Agents.Unsupported))
    ensures (forall a :: a in s.agents ==> a.counted) ==>
              && s.cells.ok + s.cells.error + s.cells.unsupported == Sum(s.agents, Ops())
              && s.cells.error == Sum(s.agents, Errors())
  {
    hide Reachable, LogInv, Do, Enabled, A.Inv, I.Inv, W.Inv, ReportOf, A.CountedCalls, A.CallsMade;
    ReachableInv(s0, s);
    forall a | a in s.agents
      ensures A.CountedCalls(a) == if a.counted then A.CallsMade(a) else []
      ensures a.counted ==> a.incs == a.ops && a.errorIncs == a.errors
    {
      var i :| 0 <= i < |s.agents| && s.agents[i] == a;
      AllCounted(s.agents[i]);
    }
    SumCongruent(s.agents, CountedAs(Agents.Ok), CallsWith(Agents.Ok));
    SumCongruent(s.agents, CountedAs(Agents.Error), CallsWith(Agents.Error));
    SumCongruent(s.agents, CountedAs(Agents.Unsupported), CallsWith(Agents.Unsupported));
    assert CellOf(s.cells, Agents.Ok) == s.cells.ok && CellOf(s.cells, Agents.Error) == s.cells.error;
    assert CellOf(s.cells, Agents.Unsupported) == s.cells.unsupported;
    if forall a :: a in s.agents ==> a.counted {
      SumCongruent(s.agents, Incs(), Ops());
      SumCongruent(s.agents, ErrorIncs(), Errors());
    }
  }

  /** Injector row i carries scenario entry i and the times of its own injector: applied unless the run
      was cancelled first, reverted exactly when a later recovery time was set. */
  lemma InjectorRowsAreFaithful(s0: State, s: State, i: nat)
    requires Reachable(s0, s) && s.main.Returned? && i < |s0.injectors|
    ensures |s.main.report.injectors| == |s0.injectors| == |s.injectors| == |s0.specs|
    ensures var row, sched := s.main.report.injectors[i], s0.injectors[i].s;
            && row.name == s0.specs[i].name && row.kind == s0.specs[i].kind
            && (row.appliedAt.Some? <==> I.Apply in s.injectors[i].deeds)
            && (row.appliedAt.None? ==> s.cancelled && row.revertedAt.None?)
            && (row.appliedAt.Some? ==>
                  (row.revertedAt.Some? <==> sched.hasRecover && sched.recoverAt > sched.atOffset))
  {
    hide Reachable, CellsInv, LogInv, A.Inv, W.Inv, Do, Enabled, Timelines, WorkloadRows;
    ReachableInv(s0, s);
    ScenarioIsKept(s0, s);
    InjectorRowsAt(s.specs, s.injectors);
    assert I.Inv(s.injectors[i], s.now, s.cancelled);
  }

  /** What the row's times and detail say of the run. */
  ghost predicate RowTells(h: seq<I.Timed>, row: InjectorRow) {
    var e := I.EventValue(row.appliedAt, row.revertedAt, row.detail);
    I.TimesTell(h, e) && I.DetailTells(h, e)
  }

  lemma InjectorRowTellsRun(s0: State, run: seq<Step>, i: nat)
    requires Initial(s0) && CanRun(s0, run) && Exec(s0, run).main.Returned? && i < |s0.injectors|
    ensures |Exec(s0, run).main.report.injectors| == |s0.injectors|
    ensures RowTells(History(s0, run, i), Exec(s0, run).main.report.injectors[i])
  {
    hide Initial, Exec, CanRun, History, I.TimesTell, I.DetailTells, Timelines, WorkloadRows;
    var s := Exec(s0, run);
    assert Reachable(s0, s);
    EventTellsRun(s0, run, i);
    ScenarioIsKept(s0, s);
    ReturnedReport(s0, s);
    InjectorRowsAt(s.specs, s.injectors);
    assert SameScenario(s0, s);
  }

  /** By the time Run returns, every watcher that accepts its parameters has probed once and once more
      for every tick it answered. */
  lemma EveryWatcherProbes(s0: State, s: State, i: nat)
    requires Reachable(s0, s) && s.main.Returned? && i < |s.watchers| && s.watchers[i].accepts
    ensures s.watchers[i].probes == s.watchers[i].ticks + 1
  {
    hide Reachable, CellsInv, LogInv, GoneInv, A.Inv, I.Inv, ReportOf;
    ReachableInv(s0, s);
    assert W.Inv(s.watchers[i]);
  }

  lemma LoggedNamesAreDeclared(s: State, b: Breach)
    requires LogInv(s) && b in BreachLog(s.log)
    ensures Declarations(SpecsOf(s.watchers))(b) >= 1
  {
    BreachLogAt(s.log);
    SpecsOfAt(s.watchers);
    var i :| 0 <= i < |BreachLog(s.log)| && BreachLog(s.log)[i] == b;
    assert EntryInv(s, s.log[i]);
    SumBounds(SpecsOf(s.watchers), s.log[i].author, Column(Owns(), b));
  }

  function Recorded(): W.Watcher -> nat {
    (v: W.Watcher) => v.recorded
  }

  /** Entries by the first n authors. */
  function SumTo(log: seq<Entry>, n: nat): nat {
    if n == 0 then 0 else SumTo(log, n - 1) + Sum(log, Authored(n - 1))
  }

  lemma {:induction false} SumToEmpty(n: nat)
    ensures SumTo([], n) == 0
  {
    if n > 0 {
      SumToEmpty(n - 1);
    }
  }

  lemma {:induction false} SumToSnoc(log: seq<Entry>, e: Entry, n: nat)
    ensures SumTo(log + [e], n) == SumTo(log, n) + if e.author < n then 1 else 0
  {
    if n > 0 {
      SumToSnoc(log, e, n - 1);
      SumSnoc(log, e, Authored(n - 1));
    }
  }

  lemma {:induction false} AuthorsAddUp(log: seq<Entry>, n: nat)
    requires forall e :: e in log ==> e.author < n
    ensures SumTo(log, n) == |log|
    decreases |log|
  {
    if log == [] {
      SumToEmpty(n);
    } else {
      var init, last := log[..|log| - 1], log[|log| - 1];
      assert last in log && log == init + [last];
      AuthorsAddUp(init, n);
      SumToSnoc(init, last, n);
    }
  }

  lemma {:induction false} RecordedIsSumTo(s: State, n: nat)
    requires LogInv(s) && n <= |s.watchers|
    ensures Sum(s.watchers[..n], Recorded()) == SumTo(s.log, n)
    decreases n
  {
    if n > 0 {
      RecordedIsSumTo(s, n - 1);
      assert s.watchers[..n] == s.watchers[..n - 1] + [s.watchers[n - 1]];
      SumSnoc(s.watchers[..n - 1], s.watchers[n - 1], Recorded());
    }
  }

  function QueueOf(v: W.Watcher): seq<Breach> {
    if v.pc.Recording? then v.pc.queue else []
  }

  function Queues(ws: seq<W.Watcher>): (qs: seq<seq<Breach>>)
    ensures |qs| == |ws| && forall i :: 0 <= i < |ws| ==> qs[i] == QueueOf(ws[i])
  {
    if ws == [] then [] else Queues(ws[..|ws| - 1]) + [QueueOf(ws[|ws| - 1])]
  }

  /** The recorder within the state. */
  function RecorderView(s: State): R.Atomic {
    R.Atomic(s.log, Queues(s.watchers))
  }

  /** Recording a breach is the single step that stands for a whole call of Record in RecorderSteps;
      no other step touches the log, and only a probe that returns has something new to record. */
  lemma RecordingIsOneStep(s: State, step: Step)
    requires Enabled(s, step)
    ensures var a, b := RecorderView(s), RecorderView(Do(s, step));
            if step.OfWatcher? && step.wm == W.RecordOne then R.CanRecord(a, step.v) && b == R.RecordOne(a, step.v)
            else if step.OfWatcher? && step.wm.ProbeReturns? then
              a.queues[step.v] == [] && b == R.Atomic(a.log, a.queues[step.v := step.wm.found])
            else a == b
  {
    hide ReportOf, AllGone, A.Moved, I.Moved, A.CanMove, I.CanMove;
    var t := Do(s, step);
    if step.OfWatcher? {
      assert Queues(t.watchers) == Queues(s.watchers)[step.v := QueueOf(t.watchers[step.v])];
      assert Queues(s.watchers)[step.v := QueueOf(s.watchers[step.v])] == Queues(s.watchers);
    }
  }

  lemma RejectedAddNothing(s: State, i: nat)
    requires LocalInv(s) && LogInv(s) && i < |s.watchers| && !s.watchers[i].accepts
    ensures s.watchers[i].recorded == 0 && forall e :: e in s.log ==> e.author != i
  {
    hide A.Inv, I.Inv;
    assert W.Inv(s.watchers[i]);
    forall e | e in s.log
      ensures e.author != i
    {
      var k :| 0 <= k < |s.log| && s.log[k] == e;
      SumBounds(s.log, k, Authored(i));
    }
  }

  lemma RecordedIsLogLength(s: State)
    requires LogInv(s)
    ensures Sum(s.watchers, Recorded()) == |BreachLog(s.log)|
  {
    BreachLogAt(s.log);
    forall e | e in s.log
      ensures e.author < |s.watchers|
    {
      assert EntryInv(s, e);
    }
    AuthorsAddUp(s.log, |s.watchers|);
    assert s.watchers[..|s.watchers|] == s.watchers;
    RecordedIsSumTo(s, |s.watchers|);
  }

  /** The report's total is what the watchers recorded, each breach counted once per block declaring
      its name; it is exactly the number of recorded breaches if and only if no recorded name is
      declared twice. Watchers that rejected their parameters contributed nothing. */
  lemma BreachTotalIsFaithful(s0: State, s: State)
    requires Reachable(s0, s) && s.main.Returned?
    ensures var total, made := Sum(s.main.report.timelines, Count()), Sum(s.watchers, Recorded());
            var specs, log := SpecsOf(s.watchers), BreachLog(s.log);
            && made == |log| && total == Sum(log, Declarations(specs)) && total >= made
            && (total == made <==> forall b :: b in log ==> Declarations(specs)(b) == 1)
            && (DistinctNames(specs) ==> total == made)
    ensures forall i :: 0 <= i < |s.watchers| && !s.watchers[i].accepts ==>
              s.watchers[i].recorded == 0 && forall e :: e in s.log ==> e.author != i
  {
    hide Reachable, CellsInv, A.Inv, I.Inv, Do, Enabled, WorkloadRows, InjectorRows, Declarations;
    ReachableInv(s0, s);
    RecordedIsLogLength(s);
    var specs, log := SpecsOf(s.watchers), BreachLog(s.log);
    TotalIsDeclarations(specs, log);
    forall b | b in log
      ensures Declarations(specs)(b) >= 1
      ensures DistinctNames(specs) ==> Declarations(specs)(b) == 1
    {
      LoggedNamesAreDeclared(s, b);
      if DistinctNames(specs) {
        DistinctNamesDeclareOnce(specs, b);
      }
    }
    TotalIsLogLengthIff(specs, log);
    forall i | 0 <= i < |s.watchers| && !s.watchers[i].accepts
      ensures s.watchers[i].recorded == 0 && forall e :: e in s.log ==> e.author != i
    {
      RejectedAddNothing(s, i);
    }
  }
}
