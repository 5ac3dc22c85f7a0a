/** internal/agents/agent.go: one workload agent. */
module Agents {
  import opened Decimal
  import opened Sums
  import opened Pacing

  /** A workload block with its durations already in nanoseconds. */
  datatype Workload = Workload(
    name: string, tenant: string, steadyRps: int, burstRps: int, burstEvery: int, burstFor: int,
    resources: seq<string>)

  datatype Verb = Create | Delete

  datatype Outcome = Ok | Error | Unsupported

  /** What came back for one request: a status code or a transport error. */
  datatype Reply = Status(code: int) | NoReply

  datatype Call = Call(resource: string, verb: Verb, name: string, outcome: Outcome)

  predicate Supported(resource: string) {
    resource in ["microvm", "volume", "network", "security-group", "dns-zone", "dns-record",
                 "loadbalancer", "bucket", "share", "sshkey"]
  }

  predicate Success2xx(r: Reply) {
    r.Status? && 200 <= r.code <= 299
  }

  /** createResource: without a portal URL nothing is sent and nothing fails. */
  predicate CreateFails(portal: bool, r: Reply) {
    portal && !Success2xx(r)
  }

  /** deleteResource: 404 counts as success. */
  predicate DeleteFails(portal: bool, r: Reply) {
    portal && r != Status(404) && !Success2xx(r)
  }

  function Dispatch(resource: string, verb: Verb, portal: bool, r: Reply): Outcome {
    if !Supported(resource) then Unsupported
    else if (if verb == Create then CreateFails(portal, r) else DeleteFails(portal, r)) then Error
    else Ok
  }

  /** The two verbs read a reply differently only at 404, and without a portal nothing ever fails. */
  lemma VerbsDifferOnlyAt404(resource: string, portal: bool, r: Reply)
    ensures Dispatch(resource, Create, portal, r) != Dispatch(resource, Delete, portal, r)
            <==> Supported(resource) && portal && r == Status(404)
    ensures !portal ==> Dispatch(resource, Create, portal, r) != Error && Dispatch(resource, Delete, portal, r) != Error
  {
    hide Supported;
  }

  /** The name an agent gives its n-th request, n counting from 1. */
  function ResourceName(workload: string, n: nat): string {
    "chaos-" + workload + "-" + NatText(n)
  }

  function VerbAt(i: nat): Verb {
    if i % 2 == 1 then Delete else Create
  }

  /** The call that follows `i` earlier ones. */
  function CallAt(w: Workload, portal: bool, i: nat, r: Reply): Call
    requires w.resources != []
  {
    var resource := w.resources[i % |w.resources|];
    Call(resource, VerbAt(i), ResourceName(w.name, i + 1), Dispatch(resource, VerbAt(i), portal, r))
  }

  /** dispatchOne: nothing happens without resources. */
  function NextCall(w: Workload, portal: bool, i: nat, r: Reply): seq<Call> {
    if w.resources == [] then [] else [CallAt(w, portal, i, r)]
  }

  /** The calls made once each of these replies came in, `before` being those already made. */
  function CallsOf(w: Workload, portal: bool, before: seq<Call>, replies: seq<Reply>): seq<Call> {
    if replies == [] then before
    else
      var calls := CallsOf(w, portal, before, replies[..|replies| - 1]);
      calls + NextCall(w, portal, |calls|, replies[|replies| - 1])
  }

  // ----- the agent object -----

  type Label = (string, Verb, Outcome)

  lemma CallsOfSnoc(w: Workload, portal: bool, before: seq<Call>, replies: seq<Reply>, r: Reply)
    ensures var calls := CallsOf(w, portal, before, replies);
            CallsOf(w, portal, before, replies + [r]) == calls + NextCall(w, portal, |calls|, r)
  {
    hide NextCall;
    assert (replies + [r])[..|replies|] == replies;
  }

  function LabelOf(c: Call): Label {
    (c.resource, c.verb, c.outcome)
  }

  function InLabel(l: Label): Call -> nat {
    (c: Call) => if c.resource == l.0 && c.verb == l.1 && c.outcome == l.2 then 1 else 0
  }

  function IsError(): Call -> nat {
    (c: Call) => if c.outcome == Error then 1 else 0
  }

  function LabelCell(m: map<Label, nat>, l: Label): nat {
    if l in m then m[l] else 0
  }

  /** Cell by cell, the counter holds the number of calls with that label, or nothing if detached. */
  ghost predicate Mirrors(counter: map<Label, nat>, calls: seq<Call>, counted: bool) {
    forall l: Label :: LabelCell(counter, l) == if counted then Sum(calls, InLabel(l)) else 0
  }

  lemma CounterFollows(counter: map<Label, nat>, calls: seq<Call>, c: Call, counted: bool)
    requires Mirrors(counter, calls, counted)
    ensures Mirrors(if counted then counter[LabelOf(c) := LabelCell(counter, LabelOf(c)) + 1] else counter,
                    calls + [c], counted)
  {
    forall l: Label
      ensures Sum(calls + [c], InLabel(l)) == Sum(calls, InLabel(l)) + InLabel(l)(c)
    {
      SumSnoc(calls, c, InLabel(l));
    }
  }

  /** One wake-up of the loop: how late the clock was read, and the reply to the request it sent. */
  datatype Turn = Turn(late: nat, reply: Reply)

  function Lates(turns: seq<Turn>): seq<nat> {
    if turns == [] then [] else Lates(turns[..|turns| - 1]) + [turns[|turns| - 1].late]
  }

  function Replies(turns: seq<Turn>): seq<Reply> {
    if turns == [] then [] else Replies(turns[..|turns| - 1]) + [turns[|turns| - 1].reply]
  }

  function ConfigOf(w: Workload): Config {
    Config(SteadyInterval(w.steadyRps), BurstInterval(w.burstRps), w.burstEvery, w.burstFor)
  }

  lemma PacedStarts(c: Config, start: int)
    ensures Paced(c, start, Lates([])) == Started(start)
  {
  }

  lemma PacedSnoc(c: Config, start: int, lates: seq<nat>, late: nat)
    ensures Paced(c, start, lates + [late]) == Tick(c, Paced(c, start, lates), late)
  {
    assert (lates + [late])[..|lates|] == lates;
  }

  lemma TurnsSnoc(turns: seq<Turn>, i: nat)
    requires i < |turns|
    ensures Lates(turns[..i + 1]) == Lates(turns[..i]) + [turns[i].late]
    ensures Replies(turns[..i + 1]) == Replies(turns[..i]) + [turns[i].reply]
  {
    assert turns[..i + 1][..i] == turns[..i];
  }

  class Agent {
    const w: Workload
    const portal: bool
    const counted: bool
    var resourceIdx: nat
    var dispatched: nat
    var ops: nat
    var errors: nat
    var counter: map<Label, nat>
    ghost var calls: seq<Call>

    ghost predicate Valid()
      reads this
    {
      && resourceIdx == dispatched == ops == |calls|
      && errors == Sum(calls, IsError())
      && Mirrors(counter, calls, counted)
    }

    constructor (w: Workload, portal: bool, counted: bool)
      ensures Valid() && calls == [] && this.w == w && this.portal == portal && this.counted == counted
    {
      this.w, this.portal, this.counted := w, portal, counted;
      resourceIdx, dispatched, ops, errors, counter := 0, 0, 0, 0, map[];
      calls := [];
    }

    method DispatchOne(reply: Reply)
      requires Valid()
      modifies this
      ensures Valid()
      ensures calls == old(calls) + NextCall(w, portal, |old(calls)|, reply)
    {
      hide Dispatch, ResourceName, Mirrors;
      if |w.resources| == 0 {
        return;
      }
      var resource := w.resources[resourceIdx % |w.resources|];
      resourceIdx := resourceIdx + 1;
      var verb := Create;
      if dispatched % 2 == 1 {
        verb := Delete;
      }
      dispatched := dispatched + 1;
      var name := ResourceName(w.name, dispatched);
      var result := Dispatch(resource, verb, portal, reply);
      var key := (resource, verb, result);
      if counted {
        counter := counter[key := LabelCell(counter, key) + 1];
      }
      ops := ops + 1;
      if result == Error {
        errors := errors + 1;
      }
      ghost var call := Call(resource, verb, name, result);
      calls := calls + [call];
      SumSnoc(old(calls), call, IsError());
      CounterFollows(old(counter), old(calls), call, counted);
    }

    /** The loop up to the wake-up that finds the context cancelled. Returns the last clock reading
        and whether a burst window was open. */
    method Run(start: int, turns: seq<Turn>) returns (now: int, bursting: bool)
      requires Valid()
      modifies this
      ensures Valid()
      ensures calls == CallsOf(w, portal, old(calls), Replies(turns))
      ensures var p := Paced(ConfigOf(w), start, Lates(turns)); now == p.now && bursting == p.bursting
    {
      assert CallsOf(w, portal, calls, []) == calls && Replies([]) == [];
      hide NextCall, CallsOf, Valid, Paced, Lates, Replies, SteadyInterval, BurstInterval;
      var steady, burst := SteadyInterval(w.steadyRps), BurstInterval(w.burstRps);
      bursting := false;
      var burstStart, lastBurst := start, start;
      now := start;
      var next := steady;
      ghost var c := ConfigOf(w);
      ghost var p := Started(start);
      PacedStarts(c, start);
      assert turns[..0] == [];
      for i := 0 to |turns|
        invariant Valid()
        invariant calls == CallsOf(w, portal, old(calls), Replies(turns[..i]))
        invariant p == Paced(c, start, Lates(turns[..i]))
        invariant now == p.now && bursting == p.bursting && lastBurst == p.lastBurst
        invariant burstStart == p.burstStart && next == Interval(c, p.fast)
      {
        TurnsSnoc(turns, i);
        PacedSnoc(c, start, Lates(turns[..i]), turns[i].late);
        p := Tick(c, p, turns[i].late);
        CallsOfSnoc(w, portal, old(calls), Replies(turns[..i]), turns[i].reply);
        var turn := turns[i];
        DispatchOne(turn.reply);
        now := now + next + turn.late;
        if w.burstEvery > 0 && !bursting && now - lastBurst >= w.burstEvery {
          bursting := true;
          burstStart := now;
        }
        if bursting && now - burstStart >= w.burstFor {
          bursting := false;
          lastBurst := now;
        }
        next := steady;
        if bursting && burst > 0 {
          next := burst;
        }
      }
      assert turns[..|turns|] == turns;
    }
  }

  // ----- names -----

  lemma NameEndsAfterLastDash(workload: string, n: nat)
    ensures var s, d := ResourceName(workload, n), NatText(n);
            && |d| + 6 < |s| && s[|s| - |d|..] == d && s[|s| - |d| - 1] == '-' && s[6..|s| - |d| - 1] == workload
            && forall i :: |s| - |d| <= i < |s| ==> s[i] != '-'
  {
    var s, d := ResourceName(workload, n), NatText(n);
    assert s == ("chaos-" + workload + "-") + d;
    assert forall i :: |s| - |d| <= i < |s| ==> s[i] == d[i - (|s| - |d|)];
  }

  /** A name tells the workload and the number. */
  lemma NameDeterminesRequest(v: string, m: nat, w: string, n: nat)
    requires ResourceName(v, m) == ResourceName(w, n)
    ensures v == w && m == n
  {
    hide ResourceName;
    NameEndsAfterLastDash(v, m);
    NameEndsAfterLastDash(w, n);
    var s := ResourceName(v, m);
    var a, b := |NatText(m)|, |NatText(n)|;
    assert s[|s| - a - 1] == '-' && s[|s| - b - 1] == '-';
    assert a == b;
    assert NatText(m) == NatText(n);
  }

  lemma {:induction false} CallsOfLength(w: Workload, portal: bool, replies: seq<Reply>)
    requires w.resources != []
    ensures |CallsOf(w, portal, [], replies)| == |replies|
    decreases |replies|
  {
    if replies != [] {
      hide CallAt;
      CallsOfLength(w, portal, replies[..|replies| - 1]);
    }
  }

  /** A success status, or for a delete the answer that there is nothing to delete. */
  predicate Accepts(verb: Verb, r: Reply) {
    r.Status? && (r.code / 100 == 2 || (verb == Delete && r.code == 404))
  }

  lemma CallIs(w: Workload, portal: bool, i: nat, r: Reply)
    requires w.resources != []
    ensures var c := CallAt(w, portal, i, r);
            && c.resource == w.resources[i % |w.resources|]
            && c.verb == (if i % 2 == 0 then Create else Delete)
            && c.name == "chaos-" + w.name + "-" + NatText(i + 1)
            && (c.outcome == Unsupported <==> !Supported(c.resource))
            && (c.outcome == Error <==> Supported(c.resource) && portal && !Accepts(c.verb, r))
  {
    hide Supported, NatText;
    assert r.Status? ==> (r.code / 100 == 2 <==> 200 <= r.code <= 299);
  }

  /** Without resources nothing is ever called. */
  lemma {:induction false} NothingToDrive(w: Workload, portal: bool, replies: seq<Reply>)
    requires w.resources == []
    ensures CallsOf(w, portal, [], replies) == []
    decreases |replies|
  {
    if replies != [] {
      NothingToDrive(w, portal, replies[..|replies| - 1]);
    }
  }

  /** The i-th call of a fresh agent, whatever came before. */
  lemma {:induction false} CallsOfAt(w: Workload, portal: bool, replies: seq<Reply>, i: nat)
    requires w.resources != [] && i < |replies|
    ensures |CallsOf(w, portal, [], replies)| == |replies|
    ensures CallsOf(w, portal, [], replies)[i] == CallAt(w, portal, i, replies[i])
    ensures var c := CallsOf(w, portal, [], replies)[i];
            && c.resource == w.resources[i % |w.resources|]
            && c.verb == (if i % 2 == 0 then Create else Delete)
            && c.name == "chaos-" + w.name + "-" + NatText(i + 1)
            && (c.outcome == Unsupported <==> !Supported(c.resource))
            && (c.outcome == Error <==> Supported(c.resource) && portal && !Accepts(c.verb, replies[i]))
    decreases |replies|
  {
    hide CallAt;
    CallsOfLength(w, portal, replies);
    CallsOfLength(w, portal, replies[..|replies| - 1]);
    if i < |replies| - 1 {
      CallsOfAt(w, portal, replies[..|replies| - 1], i);
    }
    CallIs(w, portal, i, replies[i]);
  }

  /** No DELETE of any run names anything that a CREATE of any run named, whichever agents the two
      belong to and however their runs interleave. */
  lemma DeletesNeverNameCreated(v: Workload, w: Workload, portal: bool, rs: seq<Reply>, qs: seq<Reply>, i: nat, j: nat)
    requires v.resources != [] && w.resources != [] && i < |rs| && j < |qs|
    ensures var a, b := CallsOf(v, portal, [], rs), CallsOf(w, portal, [], qs);
            && |a| == |rs| && |b| == |qs|
            && (a[i].verb == Create && b[j].verb == Delete ==> a[i].name != b[j].name)
  {
    CallsOfAt(v, portal, rs, i);
    CallsOfAt(w, portal, qs, j);
    hide ResourceName, Dispatch;
    if ResourceName(v.name, i + 1) == ResourceName(w.name, j + 1) {
      NameDeterminesRequest(v.name, i + 1, w.name, j + 1);
    }
  }

  // ----- round robin and verbs -----

  lemma DivModNext(n: nat, k: nat)
    requires k > 0
    ensures n % k + 1 < k ==> (n + 1) / k == n / k && (n + 1) % k == n % k + 1
    ensures n % k + 1 == k ==> (n + 1) / k == n / k + 1 && (n + 1) % k == 0
  {
    var q, t := n / k, n % k;
    DivMod(n, k);
    DivMod(n + 1, k);
    if t + 1 < k {
      QuotientIs(n + 1, k, q, t + 1);
    } else {
      assert k * (q + 1) == k * q + k;
      QuotientIs(n + 1, k, q + 1, 0);
    }
  }

  function OnResource(resource: string): Call -> nat {
    (c: Call) => if c.resource == resource then 1 else 0
  }

  function Is(resource: string): string -> nat {
    (x: string) => if x == resource then 1 else 0
  }

  lemma NextPass(rs: seq<string>, n: nat, resource: string)
    requires rs != []
    ensures var k := |rs|;
            (n + 1) / k * Sum(rs, Is(resource)) + Sum(rs[..(n + 1) % k], Is(resource))
            == n / k * Sum(rs, Is(resource)) + Sum(rs[..n % k], Is(resource)) + Is(resource)(rs[n % k])
  {
    var k, t := |rs|, n % |rs|;
    DivModNext(n, k);
    assert rs[..t + 1] == rs[..t] + [rs[t]];
    SumSnoc(rs[..t], rs[t], Is(resource));
    if t + 1 == k {
      assert rs[..t + 1] == rs && rs[..0] == [];
      MulNext(n / k, Sum(rs, Is(resource)));
    }
  }

  /** After n calls over k entries, a resource was called once per time it is listed in each of the
      floor(n/k) full passes, and once per time it is listed among the first n mod k entries. So a
      resource listed once was called floor(n/k) or ceil(n/k) times. */
  lemma {:induction false} RoundRobinIsFair(w: Workload, portal: bool, replies: seq<Reply>, resource: string)
    requires w.resources != []
    ensures var n, k := |replies|, |w.resources|;
            Sum(CallsOf(w, portal, [], replies), OnResource(resource))
            == n / k * Sum(w.resources, Is(resource)) + Sum(w.resources[..n % k], Is(resource))
    decreases |replies|
  {
    var n, k := |replies|, |w.resources|;
    if n == 0 {
      QuotientIs(0, k, 0, 0);
      DivMod(0, k);
      assert w.resources[..0] == [] && 0 * Sum(w.resources, Is(resource)) == 0;
    } else {
      hide CallAt;
      var init := replies[..n - 1];
      RoundRobinIsFair(w, portal, init, resource);
      CallsOfLength(w, portal, init);
      CallIs(w, portal, n - 1, replies[n - 1]);
      SumSnoc(CallsOf(w, portal, [], init), CallAt(w, portal, n - 1, replies[n - 1]), OnResource(resource));
      NextPass(w.resources, n - 1, resource);
    }
  }

  lemma ModOfSum(k: nat, q: int, t: nat)
    requires t < k && k * q + t >= 0
    ensures (k * q + t) % k == t
  {
    if q < 0 {
      MulMonotone(q, -1, k);
    }
    DivMod(k * q + t, k);
    QuotientIs(k * q + t, k, q, t);
  }

  lemma EvenResidue(i: nat, k: nat)
    requires k > 0 && k % 2 == 0
    ensures i % 2 == i % k % 2
  {
    DivMod(i, k);
    var h, q := k / 2, i / k;
    assert k * q == 2 * (h * q);
  }

  /** Over an even number of entries each of them only ever sees one verb. */
  lemma EvenCountPinsVerb(w: Workload, portal: bool, replies: seq<Reply>, i: nat)
    requires w.resources != [] && |w.resources| % 2 == 0 && i < |replies|
    ensures |CallsOf(w, portal, [], replies)| == |replies|
    ensures var c, r := CallsOf(w, portal, [], replies)[i], i % |w.resources|;
            c.resource == w.resources[r] && c.verb == if r % 2 == 0 then Create else Delete
  {
    hide CallAt, CallsOf;
    CallsOfAt(w, portal, replies, i);
    EvenResidue(i, |w.resources|);
  }

  /** Dispatch i lies in the 2k dispatches from s on, picks index r and has this verb. */
  predicate InBlock(i: nat, s: nat, k: nat, r: nat, verb: Verb)
    requires k > 0
  {
    s <= i < s + 2 * k && i % k == r && VerbAt(i) == verb
  }

  lemma OppositeVerb(i: nat, k: nat)
    requires k % 2 == 1
    ensures VerbAt(i + k) != VerbAt(i)
  {
  }

  lemma SameResidue(i: nat, j: nat, k: nat)
    requires k > 0 && i < j < i + 2 * k && i % k == j % k
    ensures j == i + k
  {
    DivMod(i, k);
    DivMod(j, k);
    var d := j / k - i / k;
    assert j - i == k * d;
    if d <= 0 {
      MulMonotone(d, 0, k);
    } else if d >= 2 {
      MulMonotone(2, d, k);
    }
  }

  lemma OnePerBlock(i: nat, j: nat, s: nat, k: nat, r: nat, verb: Verb)
    requires k % 2 == 1 && InBlock(i, s, k, r, verb) && InBlock(j, s, k, r, verb)
    ensures j <= i
  {
    hide VerbAt;
    if i < j {
      SameResidue(i, j, k);
      OppositeVerb(i, k);
    }
  }

  lemma PickAtOrAfter(s: nat, k: nat, r: nat) returns (i: nat)
    requires r < k
    ensures s <= i < s + k && i % k == r
  {
    DivMod(s, k);
    var q, t := s / k, s % k;
    if t <= r {
      i := k * q + r;
      ModOfSum(k, q, r);
    } else {
      i := k * (q + 1) + r;
      assert k * (q + 1) == k * q + k;
      ModOfSum(k, q + 1, r);
    }
  }

  lemma NextPick(i: nat, k: nat)
    requires k > 0
    ensures (i + k) % k == i % k
  {
    DivMod(i, k);
    assert i + k == k * (i / k + 1) + i % k;
    ModOfSum(k, i / k + 1, i % k);
  }

  lemma OneOfEachVerb(s: nat, k: nat, r: nat, verb: Verb) returns (i: nat)
    requires r < k && k % 2 == 1
    ensures InBlock(i, s, k, r, verb)
    ensures forall j: nat :: InBlock(j, s, k, r, verb) ==> i == j
  {
    i := PickAtOrAfter(s, k, r);
    NextPick(i, k);
    OppositeVerb(i, k);
    i := if VerbAt(i) == verb then i else i + k;
    forall j: nat | InBlock(j, s, k, r, verb)
      ensures i == j
    {
      OnePerBlock(i, j, s, k, r, verb);
      OnePerBlock(j, i, s, k, r, verb);
    }
  }

  /** Over an odd number k of entries, every 2k consecutive calls give entry r exactly one create and
      exactly one delete: call i, and no other call of that block to that entry has that verb. */
  lemma OddCountGivesBothVerbs(w: Workload, portal: bool, replies: seq<Reply>, s: nat, r: nat, verb: Verb)
    returns (i: nat)
    requires |w.resources| % 2 == 1 && r < |w.resources| && s + 2 * |w.resources| <= |replies|
    ensures |CallsOf(w, portal, [], replies)| == |replies| && s <= i < s + 2 * |w.resources|
    ensures i % |w.resources| == r && CallsOf(w, portal, [], replies)[i].resource == w.resources[r]
    ensures CallsOf(w, portal, [], replies)[i].verb == verb
    ensures forall j :: s <= j < s + 2 * |w.resources| && j % |w.resources| == r && j != i ==>
              CallsOf(w, portal, [], replies)[j].verb != verb
  {
    hide CallAt, CallsOf;
    var k := |w.resources|;
    i := OneOfEachVerb(s, k, r, verb);
    CallsOfAt(w, portal, replies, i);
    forall j | s <= j < s + 2 * k && j % k == r && j != i
      ensures CallsOf(w, portal, [], replies)[j].verb != verb
    {
      CallsOfAt(w, portal, replies, j);
      assert !InBlock(j, s, k, r, verb);
    }
  }

  // ----- the rate of an agent -----

  /** The bounds of the automaton in the terms of a workload block. */
  lemma AgentRate(w: Workload, start: int, lates: seq<nat>)
    requires w.burstEvery > 0 && w.burstFor > 0 && 1 <= w.burstRps <= SECOND
    ensures var p := Paced(ConfigOf(w), start, lates);
            var steady, burst := if w.steadyRps < 1 then SECOND else SECOND / w.steadyRps, SECOND / w.burstRps;
            && burst > 0
            && p.steadyTicks + p.burstTicks == |lates|
            && p.steadyTicks * steady + p.burstTicks * burst + Delay(lates) == p.now - start
            && p.burstTicks <= p.windows * CeilDiv(w.burstFor, burst)
            && (p.windows >= 1 ==> p.windows * w.burstEvery + (p.windows - 1) * w.burstFor <= p.now - start)
            && (!p.bursting && Delay(lates) == 0 ==> p.burstTicks >= p.windows * CeilDiv(w.burstFor, burst))
  {
    hide Paced;
    BurstRateTruncatesToZeroIff(w.burstRps);
    DispatchRateBound(ConfigOf(w), start, lates);
    IntervalsAreFloors(w.steadyRps);
    if Delay(lates) == 0 {
      NoDelay(lates);
      BurstsDoCome(ConfigOf(w), start, lates, 0);
    }
  }
}
