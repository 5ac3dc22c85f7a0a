/** The goroutine every invariant runs in: reject bad parameters, or poll and record until drained. */
module WatcherSteps {
  import opened Breaches

  datatype PC = Starting | Probing | Recording(queue: seq<Breach>) | Polling | Gone

  /** `accepts` is whether the watcher's own parameter checks pass; `ticks` counts the ticks it answered,
      `probes` its probes that came back and `recorded` its breaches; `failed` is whether its Run has
      returned an error. */
  datatype Watcher = Watcher(
    spec: Spec, accepts: bool, pc: PC, ticks: nat, probes: nat, recorded: nat, failed: bool, patience: nat)

  datatype Move = Reject | Begin | ProbeReturns(found: seq<Breach>) | RecordOne | RoundEnds | Tick | Drain

  function Launched(spec: Spec, accepts: bool, patience: nat): Watcher {
    Watcher(spec, accepts, Starting, 0, 0, 0, false, patience)
  }

  /** Watchers label every breach with their own block's name and kind. */
  predicate Labelled(spec: Spec, bs: seq<Breach>) {
    forall b :: b in bs ==> b.name == spec.name && b.kind == spec.kind
  }

  /** A probe may find any breaches; `cap` bounds their number once the context has ended. */
  predicate CanMove(v: Watcher, m: Move, cancelled: bool, cap: nat) {
    match m
    case Reject => v.pc == Starting && !v.accepts
    case Begin => v.pc == Starting && v.accepts
    case ProbeReturns(found) => v.pc == Probing && Labelled(v.spec, found) && (cancelled ==> |found| <= cap)
    case RecordOne => v.pc.Recording? && v.pc.queue != []
    case RoundEnds => v.pc == Recording([])
    case Tick => v.pc == Polling && (cancelled ==> v.patience > 0)
    case Drain => v.pc == Polling && cancelled
  }

  function Moved(v: Watcher, m: Move, cancelled: bool, cap: nat): Watcher
    requires CanMove(v, m, cancelled, cap)
  {
    match m
    case Reject => v.(pc := Gone, failed := true)
    case Begin => v.(pc := Probing)
    case ProbeReturns(found) => v.(pc := Recording(found), probes := v.probes + 1)
    case RecordOne => v.(pc := Recording(v.pc.queue[1..]), recorded := v.recorded + 1)
    case RoundEnds => v.(pc := Polling)
    case Tick => v.(pc := Probing, ticks := v.ticks + 1, patience := if cancelled then v.patience - 1 else v.patience)
    case Drain => v.(pc := Gone)
  }

  predicate Inv(v: Watcher) {
    && (v.pc.Recording? ==> Labelled(v.spec, v.pc.queue))
    && (!v.accepts ==> v.recorded == 0 && (v.pc == Starting || v.pc == Gone))
    && (v.failed <==> !v.accepts && v.pc == Gone)
    && v.probes == v.ticks + (if v.accepts && v.pc != Starting && v.pc != Probing then 1 else 0)
  }

  lemma MovedInv(v: Watcher, m: Move, cancelled: bool, cap: nat)
    requires Inv(v) && CanMove(v, m, cancelled, cap)
    ensures Inv(Moved(v, m, cancelled, cap))
  {
  }

  function NextMove(v: Watcher): Move
    requires v.pc != Gone
  {
    match v.pc
    case Starting => if v.accepts then Begin else Reject
    case Probing => ProbeReturns([])
    case Recording(queue) => if queue == [] then RoundEnds else RecordOne
    case Polling => Drain
  }

  /** An upper bound on the moves left after cancellation. */
  function Rank(cap: nat): Watcher -> nat {
    (v: Watcher) =>
      v.patience * (cap + 3) + match v.pc
                               case Gone => 0
                               case Polling => 1
                               case Recording(queue) => |queue| + 2
                               case Probing => cap + 3
                               case Starting => cap + 4
  }

  /** Starting leads on, whether or not the context has ended. */
  lemma StartingRunsOut(v: Watcher, m: Move, cancelled: bool, cap: nat)
    requires v.pc == Starting && CanMove(v, m, cancelled, cap)
    ensures Rank(cap)(Moved(v, m, cancelled, cap)) < Rank(cap)(v)
  {
  }

  lemma MovesRunOut(v: Watcher, m: Move, cap: nat)
    requires CanMove(v, m, true, cap)
    ensures Rank(cap)(Moved(v, m, true, cap)) < Rank(cap)(v)
  {
    if m.Tick? {
      assert (v.patience - 1) * (cap + 3) == v.patience * (cap + 3) - (cap + 3);
    }
  }
}
