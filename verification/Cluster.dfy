/** An idealised cluster under any interleaving of any number of agents: what a chaos run leaves
    behind. */
module Cluster {
  import opened Sums
  import opened Agents

  /** What the portal's API identifies a resource by. */
  datatype Id = Id(kind: string, tenant: string, name: string)

  /** The n-th request (from 1) of one agent; `lost` if it never reached the cluster. */
  datatype Request = Request(agent: nat, n: nat, lost: bool)

  predicate LegalWorkloads(ws: seq<Workload>) {
    forall w :: w in ws ==> w.resources != []
  }

  predicate LegalRequest(ws: seq<Workload>, r: Request) {
    r.agent < |ws| && r.n >= 1
  }

  function KindOf(ws: seq<Workload>, r: Request): string
    requires LegalWorkloads(ws) && LegalRequest(ws, r)
  {
    ws[r.agent].resources[(r.n - 1) % |ws[r.agent].resources|]
  }

  function IdOf(ws: seq<Workload>, r: Request): Id
    requires LegalWorkloads(ws) && LegalRequest(ws, r)
  {
    Id(KindOf(ws, r), ws[r.agent].tenant, ResourceName(ws[r.agent].name, r.n))
  }

  function VerbOf(r: Request): Verb
    requires r.n >= 1
  {
    VerbAt(r.n - 1)
  }

  /** A create adds the resource or finds it there; a delete removes it or answers 404. */
  function Serve(live: set<Id>, verb: Verb, id: Id): (set<Id>, Reply) {
    match verb
    case Create => if id in live then (live, Status(409)) else (live + {id}, Status(201))
    case Delete => if id in live then (live - {id}, Status(204)) else (live, Status(404))
  }

  function ReplyTo(ws: seq<Workload>, live: set<Id>, r: Request): Reply
    requires LegalWorkloads(ws) && LegalRequest(ws, r)
  {
    if r.lost then NoReply else Serve(live, VerbOf(r), IdOf(ws, r)).1
  }

  /** Requests for kinds without a driver are never sent. */
  predicate Arrives(ws: seq<Workload>, r: Request)
    requires LegalWorkloads(ws) && LegalRequest(ws, r)
  {
    !r.lost && Supported(KindOf(ws, r))
  }

  predicate LegalHistory(ws: seq<Workload>, h: seq<Request>) {
    LegalWorkloads(ws) && forall r :: r in h ==> LegalRequest(ws, r)
  }

  function LiveAfter(ws: seq<Workload>, start: set<Id>, h: seq<Request>): set<Id>
    requires LegalHistory(ws, h)
  {
    if h == [] then start
    else
      var live, last := LiveAfter(ws, start, h[..|h| - 1]), h[|h| - 1];
      if Arrives(ws, last) then Serve(live, VerbOf(last), IdOf(ws, last)).0 else live
  }

  /** What the arriving creates of a history named. */
  function Created(ws: seq<Workload>, h: seq<Request>): set<Id>
    requires LegalHistory(ws, h)
  {
    if h == [] then {}
    else
      var ids, last := Created(ws, h[..|h| - 1]), h[|h| - 1];
      if Arrives(ws, last) && VerbOf(last) == Create then ids + {IdOf(ws, last)} else ids
  }

  /** No resource carries a name that some agent may use. */
  ghost predicate FreeOfHarnessNames(ws: seq<Workload>, live: set<Id>) {
    forall id, a: nat, n: nat :: id in live && a < |ws| ==> id.name != ResourceName(ws[a].name, n)
  }

  lemma {:induction false} CreatedComeFromRequests(ws: seq<Workload>, h: seq<Request>, id: Id)
    requires LegalHistory(ws, h) && id in Created(ws, h)
    ensures exists r :: r in h && Arrives(ws, r) && VerbOf(r) == Create && id == IdOf(ws, r)
    decreases |h|
  {
    var init, last := h[..|h| - 1], h[|h| - 1];
    if id in Created(ws, init) {
      CreatedComeFromRequests(ws, init, id);
    } else {
      assert last in h;
    }
  }

  lemma DeleteMissesCreated(ws: seq<Workload>, h: seq<Request>, r: Request)
    requires LegalHistory(ws, h) && LegalRequest(ws, r) && VerbOf(r) == Delete
    ensures IdOf(ws, r) !in Created(ws, h)
  {
    hide ResourceName, KindOf;
    if IdOf(ws, r) in Created(ws, h) {
      CreatedComeFromRequests(ws, h, IdOf(ws, r));
      var c :| c in h && Arrives(ws, c) && VerbOf(c) == Create && IdOf(ws, r) == IdOf(ws, c);
      NameDeterminesRequest(ws[r.agent].name, r.n, ws[c.agent].name, c.n);
    }
  }

  /** The harness removes nothing it made: after any history the live set is what was there plus
      everything the arriving creates named. */
  lemma {:induction false} LiveSetIsWhatWasCreated(ws: seq<Workload>, start: set<Id>, h: seq<Request>)
    requires LegalHistory(ws, h) && FreeOfHarnessNames(ws, start)
    ensures LiveAfter(ws, start, h) == start + Created(ws, h)
    decreases |h|
  {
    if h != [] {
      hide Supported, ResourceName, KindOf;
      var init, last := h[..|h| - 1], h[|h| - 1];
      LiveSetIsWhatWasCreated(ws, start, init);
      assert last in h;
      if VerbOf(last) == Delete {
        DeleteMissesCreated(ws, init, last);
        assert IdOf(ws, last) !in start;
      }
    }
  }

  /** Every delete that reaches the cluster is answered 404, which the agent counts as success. */
  lemma EveryDeleteMisses(ws: seq<Workload>, start: set<Id>, h: seq<Request>, r: Request)
    requires LegalHistory(ws, h) && LegalRequest(ws, r) && FreeOfHarnessNames(ws, start)
    requires VerbOf(r) == Delete && !r.lost
    ensures ReplyTo(ws, LiveAfter(ws, start, h), r) == Status(404)
    ensures Supported(KindOf(ws, r)) ==> Dispatch(KindOf(ws, r), Delete, true, Status(404)) == Ok
  {
    hide ResourceName, KindOf, Supported, Created, LiveAfter;
    LiveSetIsWhatWasCreated(ws, start, h);
    DeleteMissesCreated(ws, h, r);
    assert IdOf(ws, r) !in start;
  }

  // ----- how much a run leaves behind -----

  function Sent(h: seq<Request>, a: nat): nat {
    if h == [] then 0 else Sent(h[..|h| - 1], a) + if h[|h| - 1].agent == a then 1 else 0
  }

  /** Each agent numbers its own requests 1, 2, 3, …; the agents interleave freely. */
  predicate InOrder(h: seq<Request>) {
    h == [] ||
    (var init, last := h[..|h| - 1], h[|h| - 1];
     InOrder(init) && last.n == Sent(init, last.agent) + 1)
  }

  lemma {:induction false} NumbersAreBounded(h: seq<Request>, r: Request)
    requires InOrder(h) && r in h
    ensures r.n <= Sent(h, r.agent)
    decreases |h|
  {
    var init, last := h[..|h| - 1], h[|h| - 1];
    if r in init {
      NumbersAreBounded(init, r);
    }
  }

  predicate DistinctWorkloads(ws: seq<Workload>) {
    forall i, j :: 0 <= i < j < |ws| ==> ws[i].name != ws[j].name
  }

  predicate FullySupported(ws: seq<Workload>) {
    forall w, k :: w in ws && k in w.resources ==> Supported(k)
  }

  predicate NothingLost(h: seq<Request>) {
    forall r :: r in h ==> !r.lost
  }

  /** ceil(n/2) summed over the first m agents, n being what each of them sent. */
  function Halves(h: seq<Request>, m: nat): nat {
    if m == 0 then 0 else Halves(h, m - 1) + (Sent(h, m - 1) + 1) / 2
  }

  lemma {:induction false} HalvesStep(h: seq<Request>, m: nat)
    requires h != []
    ensures var init, last := h[..|h| - 1], h[|h| - 1];
            Halves(h, m) == Halves(init, m)
                            + if last.agent < m && Sent(init, last.agent) % 2 == 0 then 1 else 0
    decreases m
  {
    if m > 0 {
      HalvesStep(h, m - 1);
      var init, last := h[..|h| - 1], h[|h| - 1];
      assert Sent(h, m - 1) == Sent(init, m - 1) + if last.agent == m - 1 then 1 else 0;
    }
  }

  lemma {:induction false} NoHalvesAtFirst(m: nat)
    ensures Halves([], m) == 0
  {
    if m > 0 {
      NoHalvesAtFirst(m - 1);
    }
  }

  lemma NextCreateIsNew(ws: seq<Workload>, h: seq<Request>, r: Request)
    requires LegalHistory(ws, h) && LegalRequest(ws, r) && DistinctWorkloads(ws)
    requires InOrder(h) && r.n == Sent(h, r.agent) + 1
    ensures IdOf(ws, r) !in Created(ws, h)
  {
    hide ResourceName, KindOf, Supported;
    if IdOf(ws, r) in Created(ws, h) {
      CreatedComeFromRequests(ws, h, IdOf(ws, r));
      var c :| c in h && Arrives(ws, c) && VerbOf(c) == Create && IdOf(ws, r) == IdOf(ws, c);
      NameDeterminesRequest(ws[r.agent].name, r.n, ws[c.agent].name, c.n);
      NumbersAreBounded(h, c);
    }
  }

  lemma KindIsSupported(ws: seq<Workload>, r: Request)
    requires LegalWorkloads(ws) && LegalRequest(ws, r) && FullySupported(ws)
    ensures Supported(KindOf(ws, r))
  {
    hide Supported;
    assert ws[r.agent] in ws;
  }

  lemma {:induction false} CreatedCount(ws: seq<Workload>, h: seq<Request>)
    requires LegalHistory(ws, h) && DistinctWorkloads(ws) && FullySupported(ws)
    requires InOrder(h) && NothingLost(h)
    ensures |Created(ws, h)| == Halves(h, |ws|)
    decreases |h|
  {
    if h == [] {
      NoHalvesAtFirst(|ws|);
    } else {
      hide ResourceName, Supported, Sent, Halves, KindOf;
      var init, last := h[..|h| - 1], h[|h| - 1];
      assert last in h && last.agent < |ws|;
      assert Supported(KindOf(ws, last)) by {
        KindIsSupported(ws, last);
      }
      CreatedCount(ws, init);
      NextCreateIsNew(ws, init, last);
      HalvesStep(h, |ws|);
    }
  }

  /** The gap to the promised "similar resource count": with nothing lost, every kind supported and
      distinct workload names, the run leaves ceil(n/2) resources per agent behind, n being the
      number of its dispatches. */
  lemma RunLeavesHalfBehind(ws: seq<Workload>, start: set<Id>, h: seq<Request>)
    requires LegalHistory(ws, h) && FreeOfHarnessNames(ws, start)
    requires DistinctWorkloads(ws) && FullySupported(ws) && InOrder(h) && NothingLost(h)
    ensures |LiveAfter(ws, start, h)| == |start| + Halves(h, |ws|)
  {
    hide ResourceName, Supported, Halves, InOrder, KindOf;
    LiveSetIsWhatWasCreated(ws, start, h);
    CreatedCount(ws, h);
    forall id | id in Created(ws, h)
      ensures id !in start
    {
      CreatedComeFromRequests(ws, h, id);
    }
    assert start !! Created(ws, h);
  }

  // ----- the requests are the calls of the agents -----

  /** What the cluster answered to one agent, in the agent's order. */
  function RepliesTo(ws: seq<Workload>, start: set<Id>, h: seq<Request>, a: nat): seq<Reply>
    requires LegalHistory(ws, h)
  {
    if h == [] then []
    else
      var init, last := h[..|h| - 1], h[|h| - 1];
      var replies := RepliesTo(ws, start, init, a);
      if last.agent == a then replies + [ReplyTo(ws, LiveAfter(ws, start, init), last)] else replies
  }

  /** The calls that agent makes when it is given these replies. */
  function CallsIn(ws: seq<Workload>, start: set<Id>, h: seq<Request>, a: nat): seq<Call>
    requires LegalHistory(ws, h) && a < |ws|
  {
    CallsOf(ws[a], true, [], RepliesTo(ws, start, h, a))
  }

  predicate IsRequest(c: Call, ws: seq<Workload>, r: Request)
    requires LegalWorkloads(ws) && LegalRequest(ws, r)
  {
    c.resource == KindOf(ws, r) && c.verb == VerbOf(r) && c.name == IdOf(ws, r).name
  }

  lemma NextRequestIsCall(ws: seq<Workload>, start: set<Id>, h: seq<Request>)
    requires LegalHistory(ws, h) && h != [] && h[|h| - 1] in h
    requires h[|h| - 1].n == |CallsIn(ws, start, h[..|h| - 1], h[|h| - 1].agent)| + 1
    ensures var init, last := h[..|h| - 1], h[|h| - 1];
            var reply := ReplyTo(ws, LiveAfter(ws, start, init), last);
            var call := CallAt(ws[last.agent], true, last.n - 1, reply);
            && CallsIn(ws, start, h, last.agent) == CallsIn(ws, start, init, last.agent) + [call]
            && IsRequest(call, ws, last) && call.outcome == Dispatch(KindOf(ws, last), VerbOf(last), true, reply)
  {
    hide ResourceName, Dispatch, LiveAfter, ReplyTo;
    var init, last := h[..|h| - 1], h[|h| - 1];
    assert last in h && ws[last.agent] in ws;
    CallsOfSnoc(ws[last.agent], true, [], RepliesTo(ws, start, init, last.agent), ReplyTo(ws, LiveAfter(ws, start, init), last));
  }

  /** Request n of an agent, in any interleaving, is the n-th call of its run: the same kind, verb and
      name, with the outcome that the cluster's reply calls for. */
  lemma {:induction false} RequestsAreCalls(ws: seq<Workload>, start: set<Id>, h: seq<Request>, a: nat)
    requires LegalHistory(ws, h) && InOrder(h) && a < |ws|
    ensures |CallsIn(ws, start, h, a)| == |RepliesTo(ws, start, h, a)| == Sent(h, a)
    ensures forall r :: r in h && r.agent == a ==>
              r.n <= Sent(h, a) && IsRequest(CallsIn(ws, start, h, a)[r.n - 1], ws, r)
    decreases |h|
  {
    if h != [] {
      hide IsRequest, CallAt, ReplyTo, LiveAfter, Dispatch;
      var init, last := h[..|h| - 1], h[|h| - 1];
      RequestsAreCalls(ws, start, init, a);
      assert forall r :: r in h ==> r in init || r == last;
      if last.agent == a {
        NextRequestIsCall(ws, start, h);
      }
    }
  }

  lemma NextRequestSucceeds(ws: seq<Workload>, start: set<Id>, h: seq<Request>, r: Request)
    requires LegalHistory(ws, h) && LegalRequest(ws, r) && FreeOfHarnessNames(ws, start) && DistinctWorkloads(ws)
    requires InOrder(h) && r.n == Sent(h, r.agent) + 1 && !r.lost
    ensures Dispatch(KindOf(ws, r), VerbOf(r), true, ReplyTo(ws, LiveAfter(ws, start, h), r)) != Error
  {
    hide ResourceName, KindOf, Supported, Created, LiveAfter, InOrder, Sent;
    if VerbOf(r) == Delete {
      EveryDeleteMisses(ws, start, h, r);
    } else {
      LiveSetIsWhatWasCreated(ws, start, h);
      NextCreateIsNew(ws, h, r);
      assert IdOf(ws, r) !in start;
    }
  }

  lemma OthersDoNotMatter(ws: seq<Workload>, start: set<Id>, h: seq<Request>, a: nat)
    requires LegalHistory(ws, h) && h != [] && a < |ws| && h[|h| - 1].agent != a
    ensures CallsIn(ws, start, h, a) == CallsIn(ws, start, h[..|h| - 1], a)
  {
  }

  /** While the cluster silently fills up, every agent reports no error at all. */
  lemma {:induction false} NoErrorIsReported(ws: seq<Workload>, start: set<Id>, h: seq<Request>, a: nat)
    requires LegalHistory(ws, h) && FreeOfHarnessNames(ws, start) && DistinctWorkloads(ws)
    requires InOrder(h) && NothingLost(h) && a < |ws|
    ensures Sum(CallsIn(ws, start, h, a), IsError()) == 0
    decreases |h|
  {
    if h != [] {
      hide KindOf, ResourceName, Dispatch, ReplyTo, LiveAfter, Sent, CallsOf, Supported;
      var init, last := h[..|h| - 1], h[|h| - 1];
      NoErrorIsReported(ws, start, init, a);
      assert last in h;
      if last.agent == a {
        RequestsAreCalls(ws, start, init, a);
        NextRequestIsCall(ws, start, h);
        NextRequestSucceeds(ws, start, init, last);
        var calls := CallsIn(ws, start, init, a);
        SumSnoc(calls, CallsIn(ws, start, h, a)[|calls|], IsError());
      } else {
        OthersDoNotMatter(ws, start, h, a);
      }
    } else {
      assert CallsIn(ws, start, h, a) == [];
    }
  }
}
