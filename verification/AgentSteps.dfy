/** internal/agents/agent.go, dispatchOne, with other goroutines looking on: every counter update is
    a step of its own. */
module AgentSteps {
  import opened Sums
  import opened Agents

  datatype PC = AtSelect | InCall | Replied(o: Outcome) | Counted(o: Outcome) | Tallied | Gone

  /** `ticks` counts the ticks it took, `replies` are the replies so far, `incs` and `errorIncs` this agent's increments of the shared
      dispatch counter. `patience` is how often the agent may still be handed a ready tick although
      the context has ended. */
  datatype Agent = Agent(
    w: Workload, portal: bool, counted: bool, pc: PC, ticks: nat, dispatched: nat, replies: seq<Reply>,
    incs: nat, errorIncs: nat, ops: nat, errors: nat, patience: nat)

  datatype Move = Tick | ReplyComes(r: Reply) | Count | AddOp | AddError | Drain

  function Launched(w: Workload, portal: bool, counted: bool, patience: nat): Agent {
    Agent(w, portal, counted, AtSelect, 0, 0, [], 0, 0, 0, 0, patience)
  }

  function CallsMade(a: Agent): seq<Call> {
    CallsOf(a.w, a.portal, [], a.replies)
  }

  predicate CanMove(a: Agent, m: Move, cancelled: bool) {
    match m
    case Tick => a.pc == AtSelect && (cancelled ==> a.patience > 0)
    case ReplyComes(_) => a.pc == InCall && a.w.resources != []
    case Count => a.pc.Replied?
    case AddOp => a.pc.Counted?
    case AddError => a.pc == Tallied
    case Drain => a.pc == AtSelect && cancelled
  }

  function Moved(a: Agent, m: Move, cancelled: bool): Agent
    requires CanMove(a, m, cancelled)
  {
    match m
    case Tick =>
      var b := a.(ticks := a.ticks + 1, patience := if cancelled then a.patience - 1 else a.patience);
      if a.w.resources == [] then b else b.(pc := InCall, dispatched := a.dispatched + 1)
    case ReplyComes(r) =>
      a.(pc := Replied(CallAt(a.w, a.portal, |a.replies|, r).outcome), replies := a.replies + [r])
    case Count =>
      a.(pc := Counted(a.pc.o),
         incs := if a.counted then a.incs + 1 else a.incs,
         errorIncs := if a.counted && a.pc.o == Error then a.errorIncs + 1 else a.errorIncs)
    case AddOp => a.(ops := a.ops + 1, pc := if a.pc.o == Error then Tallied else AtSelect)
    case AddError => a.(errors := a.errors + 1, pc := AtSelect)
    case Drain => a.(pc := Gone)
  }

  function ErrorsIn(calls: seq<Call>): nat {
    Sum(calls, IsError())
  }

  function Bit(b: bool): nat {
    if b then 1 else 0
  }

  /** An error that has been replied but not yet added to `errors`. */
  predicate ErrorPending(pc: PC) {
    pc == Replied(Error) || pc == Counted(Error) || pc == Tallied
  }

  predicate Inv(a: Agent) {
    && a.dispatched == |a.replies| + Bit(a.pc == InCall)
    && a.dispatched == (if a.w.resources == [] then 0 else a.ticks)
    && (a.w.resources == [] ==> a.replies == [] && a.pc != InCall)
    && |CallsMade(a)| == |a.replies|
    && (a.pc.Replied? ==> a.replies != [] && CallsMade(a)[|a.replies| - 1].outcome == a.pc.o)
    && |a.replies| == a.ops + Bit(a.pc.Replied? || a.pc.Counted?)
    && ErrorsIn(CallsMade(a)) == a.errors + Bit(ErrorPending(a.pc))
    && a.errors + Bit(a.pc == Tallied) <= a.ops
    && a.incs == (if a.counted then a.ops + Bit(a.pc.Counted?) else 0)
    && a.errorIncs == (if a.counted then a.errors + Bit(a.pc == Counted(Error) || a.pc == Tallied) else 0)
  }

  lemma LaunchedInv(w: Workload, portal: bool, counted: bool, patience: nat)
    ensures Inv(Launched(w, portal, counted, patience))
  {
  }

  lemma ErrorsSnoc(calls: seq<Call>, c: Call)
    ensures ErrorsIn(calls + [c]) == ErrorsIn(calls) + Bit(c.outcome == Error)
  {
    SumSnoc(calls, c, IsError());
  }

  lemma MovedInv(a: Agent, m: Move, cancelled: bool)
    requires Inv(a) && CanMove(a, m, cancelled)
    ensures Inv(Moved(a, m, cancelled))
  {
    hide CallAt, CallsOf, ErrorsIn;
    if m.ReplyComes? {
      var calls := CallsMade(a);
      var call := CallAt(a.w, a.portal, |a.replies|, m.r);
      CallsOfSnoc(a.w, a.portal, [], a.replies, m.r);
      assert CallsMade(Moved(a, m, cancelled)) == calls + [call];
      ErrorsSnoc(calls, call);
    }
  }

  function HasOutcome(o: Outcome): Call -> nat {
    (c: Call) => if c.outcome == o then 1 else 0
  }

  /** The calls that the shared counter already knows of. */
  function CountedCalls(a: Agent): seq<Call> {
    if a.counted && a.incs <= |CallsMade(a)| then CallsMade(a)[..a.incs] else []
  }

  /** Counting adds the last call, with the outcome on the label; nothing else changes what is counted. */
  lemma CountedNext(a: Agent, m: Move, cancelled: bool, o: Outcome)
    requires Inv(a) && CanMove(a, m, cancelled)
    ensures Sum(CountedCalls(Moved(a, m, cancelled)), HasOutcome(o))
            == Sum(CountedCalls(a), HasOutcome(o)) + if m == Count && a.counted && a.pc.o == o then 1 else 0
  {
    hide CallAt, CallsOf, ErrorsIn;
    var b, calls := Moved(a, m, cancelled), CallsMade(a);
    if m.ReplyComes? {
      CallsOfSnoc(a.w, a.portal, [], a.replies, m.r);
      assert CallsMade(b) == calls + [CallAt(a.w, a.portal, |a.replies|, m.r)];
      assert CountedCalls(b) == CountedCalls(a);
    } else if m == Count && a.counted {
      assert CountedCalls(b) == CountedCalls(a) + [calls[a.incs]];
      SumSnoc(CountedCalls(a), calls[a.incs], HasOutcome(o));
    }
  }

  /** What an onlooker sees at any moment: errors ≤ ops, and with a counter attached
      ops ≤ increments ≤ ops + 1. */
  lemma OnlookerSees(a: Agent)
    requires Inv(a)
    ensures a.errors <= a.ops
    ensures a.counted ==> a.ops <= a.incs <= a.ops + 1
  {
  }

  function NextMove(a: Agent): Move
    requires a.pc != Gone
  {
    match a.pc
    case AtSelect => Drain
    case InCall => ReplyComes(NoReply)
    case Replied(_) => Count
    case Counted(_) => AddOp
    case Tallied => AddError
  }

  /** An upper bound on the moves left after cancellation. */
  function Rank(): Agent -> nat {
    (a: Agent) =>
      5 * a.patience + match a.pc
                       case Gone => 0
                       case AtSelect => 1
                       case Tallied => 2
                       case Counted(_) => 3
                       case Replied(_) => 4
                       case InCall => 5
  }

  lemma MovesRunOut(a: Agent, m: Move)
    requires CanMove(a, m, true)
    ensures Rank()(Moved(a, m, true)) < Rank()(a)
  {
  }
}
