/** internal/orchestrate/orchestrate.go: the life of one scheduled injector. */
module Injection {
  import opened Text

  // ----- injectorEvent -----

  /** Times are nanoseconds; `None` is the zero time. */
  datatype EventValue = EventValue(appliedAt: Option<int>, revertedAt: Option<int>, detail: string)

  const NO_EVENT := EventValue(None, None, "")

  function MarkedApplied(e: EventValue, t: int, err: Option<string>): EventValue {
    e.(appliedAt := Some(t), detail := if err.Some? then "Apply: " + err.value else e.detail)
  }

  /** The detail of a failed Apply is never overwritten. */
  function MarkedReverted(e: EventValue, t: int, err: Option<string>): EventValue {
    e.(revertedAt := Some(t),
       detail := if err.Some? && e.detail == "" then "Revert: " + err.value else e.detail)
  }

  /** Whatever the two calls came to, the detail names the first failure. */
  lemma DetailIsFirstFailure(t: int, applyErr: Option<string>, u: int, revertErr: Option<string>)
    ensures var e := MarkedReverted(MarkedApplied(NO_EVENT, t, applyErr), u, revertErr);
            && e.appliedAt == Some(t) && e.revertedAt == Some(u)
            && (e.detail == "" <==> applyErr.None? && revertErr.None?)
            && (applyErr.Some? ==> e.detail == "Apply: " + applyErr.value)
            && (applyErr.None? && revertErr.Some? ==> e.detail == "Revert: " + revertErr.value)
  {
  }

  class InjectorEvent {
    var appliedAt: Option<int>
    var revertedAt: Option<int>
    var detail: string

    ghost function Value(): EventValue
      reads this
    {
      EventValue(appliedAt, revertedAt, detail)
    }

    constructor ()
      ensures Value() == NO_EVENT
    {
      appliedAt, revertedAt, detail := None, None, "";
    }

    method MarkApplied(t: int, err: Option<string>)
      modifies this
      ensures Value() == MarkedApplied(old(Value()), t, err)
    {
      appliedAt := Some(t);
      if err.Some? {
        detail := "Apply: " + err.value;
      }
    }

    method MarkReverted(t: int, err: Option<string>)
      modifies this
      ensures Value() == MarkedReverted(old(Value()), t, err)
    {
      revertedAt := Some(t);
      if err.Some? && detail == "" {
        detail := "Revert: " + err.value;
      }
    }

    method Snapshot() returns (applied: Option<int>, reverted: Option<int>, text: string)
      ensures EventValue(applied, reverted, text) == Value()
    {
      applied, reverted, text := appliedAt, revertedAt, detail;
    }
  }

  // ----- scheduledInjector.run as a step system -----

  /** Offsets count from `start`, when the goroutine was launched. */
  datatype Schedule = Schedule(start: int, atOffset: int, recoverAt: int, hasRecover: bool)

  datatype Deed = Apply | Revert

  datatype PC = Arming | Applying | Holding(deadline: int) | Reverting | Exited

  /** `deeds` lists the calls made; `onCancel` is whether the revert was due to cancellation. */
  datatype Injector = Injector(s: Schedule, pc: PC, deeds: seq<Deed>, event: EventValue, onCancel: bool)

  datatype Move =
    | CancelBeforeApply
    | FireApply
    | ApplyReturns(err: Option<string>)
    | CancelInWindow
    | FireRevert
    | RevertReturns(err: Option<string>)

  function Armed(s: Schedule): Injector {
    Injector(s, Arming, [], NO_EVENT, false)
  }

  function Gap(s: Schedule): int {
    s.recoverAt - s.atOffset
  }

  /** Whether the code ever means to revert. */
  predicate WillRevert(s: Schedule) {
    s.hasRecover && s.recoverAt > s.atOffset
  }

  /** In both selects either ready case may be taken. */
  predicate CanMove(i: Injector, m: Move, now: int, cancelled: bool) {
    match m
    case CancelBeforeApply => i.pc == Arming && cancelled
    case FireApply => i.pc == Arming && now >= i.s.start + i.s.atOffset
    case ApplyReturns(_) => i.pc == Applying
    case CancelInWindow => i.pc.Holding? && cancelled
    case FireRevert => i.pc.Holding? && now >= i.pc.deadline
    case RevertReturns(_) => i.pc == Reverting
  }

  function Moved(i: Injector, m: Move, now: int): Injector {
    match m
    case CancelBeforeApply => i.(pc := Exited)
    case FireApply => i.(pc := Applying, deeds := i.deeds + [Apply])
    case ApplyReturns(err) =>
      i.(event := MarkedApplied(i.event, now, err),
         pc := if !i.s.hasRecover || Gap(i.s) <= 0 then Exited else Holding(now + Gap(i.s)))
    case CancelInWindow => i.(pc := Reverting, deeds := i.deeds + [Revert], onCancel := true)
    case FireRevert => i.(pc := Reverting, deeds := i.deeds + [Revert])
    case RevertReturns(err) => i.(pc := Exited, event := MarkedReverted(i.event, now, err))
  }

  /** What the event knows after an Apply that returned, but before any Revert did. */
  predicate AppliedOnly(i: Injector, now: int) {
    && i.event.appliedAt.Some? && i.event.revertedAt.None?
    && i.s.start + i.s.atOffset <= i.event.appliedAt.value <= now
  }

  predicate Inv(i: Injector, now: int, cancelled: bool) {
    && (i.onCancel ==> cancelled)
    && match i.pc
       case Arming => i.deeds == [] && i.event == NO_EVENT && !i.onCancel
       case Applying =>
         i.deeds == [Apply] && i.event == NO_EVENT && !i.onCancel && now >= i.s.start + i.s.atOffset
       case Holding(d) =>
         && i.deeds == [Apply] && AppliedOnly(i, now) && WillRevert(i.s) && !i.onCancel
         && d == i.event.appliedAt.value + Gap(i.s)
       case Reverting =>
         && i.deeds == [Apply, Revert] && AppliedOnly(i, now) && WillRevert(i.s)
         && (!i.onCancel ==> now >= i.event.appliedAt.value + Gap(i.s))
       case Exited =>
         || (i.deeds == [] && i.event == NO_EVENT && cancelled)
         || (i.deeds == [Apply] && AppliedOnly(i, now) && !WillRevert(i.s))
         || (&& i.deeds == [Apply, Revert] && WillRevert(i.s)
             && i.event.appliedAt.Some? && i.event.revertedAt.Some?
             && i.s.start + i.s.atOffset <= i.event.appliedAt.value <= i.event.revertedAt.value <= now
             && (!i.onCancel ==> i.event.revertedAt.value >= i.event.appliedAt.value + Gap(i.s)))
  }

  lemma ArmedInv(s: Schedule, now: int)
    ensures Inv(Armed(s), now, false)
  {
  }

  lemma MovedInv(i: Injector, m: Move, now: int, cancelled: bool)
    requires Inv(i, now, cancelled) && CanMove(i, m, now, cancelled)
    ensures Inv(Moved(i, m, now), now, cancelled)
  {
  }

  lemma InvMonotone(i: Injector, now: int, cancelled: bool, later: int, cancelledLater: bool)
    requires Inv(i, now, cancelled) && now <= later && (cancelled ==> cancelledLater)
    ensures Inv(i, later, cancelledLater)
  {
  }

  /** After cancellation an injector that has not finished always has a next move. */
  function NextMove(i: Injector): Move
    requires i.pc != Exited
  {
    match i.pc
    case Arming => CancelBeforeApply
    case Applying => ApplyReturns(None)
    case Holding(_) => CancelInWindow
    case Reverting => RevertReturns(None)
  }

  /** Without cancellation: how long until such an injector can move, and that move. */
  function DueIn(i: Injector, now: int): nat {
    var due := match i.pc
               case Arming => i.s.start + i.s.atOffset
               case Holding(deadline) => deadline
               case _ => now;
    if due > now then due - now else 0
  }

  function DueMove(i: Injector): Move
    requires i.pc != Exited
  {
    match i.pc
    case Arming => FireApply
    case Applying => ApplyReturns(None)
    case Holding(_) => FireRevert
    case Reverting => RevertReturns(None)
  }

  /** An upper bound on the moves left. */
  function Rank(): Injector -> nat {
    (i: Injector) => match i.pc
         case Arming => 4
         case Applying => 3
         case Holding(_) => 2
         case Reverting => 1
         case Exited => 0
  }

  lemma MovesRunOut(i: Injector, m: Move, now: int, cancelled: bool)
    requires CanMove(i, m, now, cancelled)
    ensures Rank()(Moved(i, m, now)) < Rank()(i)
  {
  }

  // ----- the event tells what happened, and when -----

  /** A move and the time at which it was made. */
  datatype Timed = Timed(at: int, move: Move)

  /** Moves that can follow each other, the context having ended at some time or not. */
  predicate CanReplay(i: Injector, h: seq<Timed>)
    decreases |h|
  {
    h != [] ==> CanMove(i, h[0].move, h[0].at, true) && CanReplay(Moved(i, h[0].move, h[0].at), h[1..])
  }

  function Replay(i: Injector, h: seq<Timed>): Injector
    decreases |h|
  {
    if h == [] then i else Replay(Moved(i, h[0].move, h[0].at), h[1..])
  }

  predicate ApplyFailed(h: seq<Timed>) {
    exists x :: x in h && x.move.ApplyReturns? && x.move.err.Some?
  }

  predicate RevertFailed(h: seq<Timed>) {
    exists x :: x in h && x.move.RevertReturns? && x.move.err.Some?
  }

  /** The times are those at which the two calls returned. */
  predicate TimesTell(h: seq<Timed>, e: EventValue) {
    && (forall x :: x in h && x.move.ApplyReturns? ==> e.appliedAt == Some(x.at))
    && (e.appliedAt.Some? ==> exists x :: x in h && x.move.ApplyReturns?)
    && (forall x :: x in h && x.move.RevertReturns? ==> e.revertedAt == Some(x.at))
    && (e.revertedAt.Some? ==> exists x :: x in h && x.move.RevertReturns?)
  }

  /** The detail is the error of the Apply if that failed, else that of the Revert if that failed, else
      empty. */
  predicate DetailTells(h: seq<Timed>, e: EventValue) {
    && (forall x :: x in h && x.move.ApplyReturns? && x.move.err.Some? ==> e.detail == "Apply: " + x.move.err.value)
    && (!ApplyFailed(h) ==>
          forall x :: x in h && x.move.RevertReturns? && x.move.err.Some? ==> e.detail == "Revert: " + x.move.err.value)
    && (!ApplyFailed(h) && !RevertFailed(h) ==> e.detail == "")
  }

  lemma ExitedEnds(i: Injector, h: seq<Timed>)
    requires i.pc == Exited && CanReplay(i, h)
    ensures h == []
  {
  }

  lemma RevertingGoesOn(i: Injector, h: seq<Timed>)
    requires i.pc == Reverting && CanReplay(i, h)
    ensures h == [] || (|h| == 1 && h[0].move.RevertReturns?)
    ensures Replay(i, h).event == if h == [] then i.event else MarkedReverted(i.event, h[0].at, h[0].move.err)
  {
    if h != [] {
      ExitedEnds(Moved(i, h[0].move, h[0].at), h[1..]);
    }
  }

  lemma HoldingGoesOn(i: Injector, h: seq<Timed>)
    requires i.pc.Holding? && CanReplay(i, h)
    ensures h != [] ==> h[0].move == CancelInWindow || h[0].move == FireRevert
    ensures |h| <= 2 && (|h| == 2 ==> h[1].move.RevertReturns?)
    ensures Replay(i, h).event == if |h| < 2 then i.event else MarkedReverted(i.event, h[1].at, h[1].move.err)
  {
    hide MarkedReverted;
    if h != [] {
      RevertingGoesOn(Moved(i, h[0].move, h[0].at), h[1..]);
    }
  }

  lemma ApplyingGoesOn(i: Injector, h: seq<Timed>)
    requires i.pc == Applying && CanReplay(i, h)
    ensures h != [] ==> h[0].move.ApplyReturns?
    ensures |h| <= 3 && (|h| >= 2 ==> h[1].move == CancelInWindow || h[1].move == FireRevert)
    ensures |h| == 3 ==> h[2].move.RevertReturns?
    ensures Replay(i, h).event
            == if h == [] then i.event
               else var applied := MarkedApplied(i.event, h[0].at, h[0].move.err);
                    if |h| < 3 then applied else MarkedReverted(applied, h[2].at, h[2].move.err)
  {
    hide MarkedApplied, MarkedReverted;
    if h != [] {
      var j := Moved(i, h[0].move, h[0].at);
      if j.pc == Exited {
        ExitedEnds(j, h[1..]);
      } else {
        HoldingGoesOn(j, h[1..]);
      }
    }
  }

  /** The moves of an injector: at most an apply that fires and returns and, behind it, a revert that
      fires or is due to cancellation and returns. */
  lemma ArmedGoesOn(s: Schedule, h: seq<Timed>)
    requires CanReplay(Armed(s), h)
    ensures |h| <= 4 && (|h| >= 1 ==> h[0].move == CancelBeforeApply || h[0].move == FireApply)
    ensures |h| >= 2 ==> h[0].move == FireApply && h[1].move.ApplyReturns?
    ensures |h| >= 3 ==> h[2].move == CancelInWindow || h[2].move == FireRevert
    ensures |h| == 4 ==> h[3].move.RevertReturns?
    ensures Replay(Armed(s), h).event
            == if |h| < 2 then NO_EVENT
               else var applied := MarkedApplied(NO_EVENT, h[1].at, h[1].move.err);
                    if |h| < 4 then applied else MarkedReverted(applied, h[3].at, h[3].move.err)
  {
    hide MarkedApplied, MarkedReverted;
    if h != [] {
      var j := Moved(Armed(s), h[0].move, h[0].at);
      if j.pc == Exited {
        ExitedEnds(j, h[1..]);
      } else {
        ApplyingGoesOn(j, h[1..]);
      }
    }
  }

  /** Whatever was made of an injector, its event tells when and how the two calls returned. */
  lemma EventTells(s: Schedule, h: seq<Timed>)
    requires CanReplay(Armed(s), h)
    ensures TimesTell(h, Replay(Armed(s), h).event) && DetailTells(h, Replay(Armed(s), h).event)
  {
    ArmedGoesOn(s, h);
    hide CanReplay, Replay, Armed;
    assert forall x :: x in h <==> exists k :: 0 <= k < |h| && h[k] == x;
    assert |h| >= 2 ==> h[1] in h;
    assert |h| == 4 ==> h[3] in h;
  }
}
