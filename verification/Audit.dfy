/** internal/invariants/audit_tenant_isolation.go: one round over all tenants. */
module Audit {
  import opened Sums
  import opened Order
  import opened Breaches

  datatype Event = Event(id: string, tenant: string)

  /** What the fetch for one tenant came to; `Aborted` is an error after the run context ended. */
  datatype Response = Events(events: seq<Event>) | Garbage | Refused | Aborted

  predicate Leaks(tenant: string, e: Event) {
    e.tenant != "" && e.tenant != tenant
  }

  function LeakBreach(spec: Spec, tenant: string, e: Event): Breach {
    Breach(spec.name, spec.kind, Leaked(e.id), [tenant, e.tenant])
  }

  function TenantBreach(spec: Spec, tenant: string, cause: Cause): Breach {
    Breach(spec.name, spec.kind, cause, [tenant])
  }

  function LeakBreaches(spec: Spec, tenant: string, es: seq<Event>): seq<Breach> {
    if es == [] then []
    else
      var init, last := LeakBreaches(spec, tenant, es[..|es| - 1]), es[|es| - 1];
      if Leaks(tenant, last) then init + [LeakBreach(spec, tenant, last)] else init
  }

  function ResponseBreaches(spec: Spec, tenant: string, r: Response): seq<Breach> {
    match r
    case Events(es) => LeakBreaches(spec, tenant, es)
    case Garbage => [TenantBreach(spec, tenant, Undecodable)]
    case Refused => [TenantBreach(spec, tenant, FetchFailed)]
    case Aborted => []
  }

  /** What a round records: nothing more once a fetch was aborted. */
  function RoundBreaches(spec: Spec, tenants: seq<string>, rs: seq<Response>): seq<Breach>
    requires |rs| == |tenants|
  {
    if tenants == [] || rs[0].Aborted? then []
    else ResponseBreaches(spec, tenants[0], rs[0]) + RoundBreaches(spec, tenants[1..], rs[1..])
  }

  lemma LeakBreachesSnoc(spec: Spec, tenant: string, es: seq<Event>, j: nat)
    requires j < |es|
    ensures LeakBreaches(spec, tenant, es[..j + 1])
            == LeakBreaches(spec, tenant, es[..j])
               + if Leaks(tenant, es[j]) then [LeakBreach(spec, tenant, es[j])] else []
  {
    assert es[..j + 1][..j] == es[..j];
  }

  lemma NoEventsNoLeaks(spec: Spec, tenant: string)
    ensures LeakBreaches(spec, tenant, []) == []
  {
  }

  lemma NoTenantsNoBreaches(spec: Spec)
    ensures RoundBreaches(spec, [], []) == []
  {
  }

  lemma RoundBreachesFrom(spec: Spec, tenants: seq<string>, rs: seq<Response>, i: nat)
    requires |rs| == |tenants| && i < |tenants|
    ensures RoundBreaches(spec, tenants[i..], rs[i..])
            == if rs[i].Aborted? then []
               else ResponseBreaches(spec, tenants[i], rs[i]) + RoundBreaches(spec, tenants[i + 1..], rs[i + 1..])
  {
    assert tenants[i..][1..] == tenants[i + 1..] && rs[i..][1..] == rs[i + 1..];
  }

  lemma Reassociate(a: seq<Breach>, b: seq<Breach>, c: seq<Breach>)
    ensures (a + b) + c == a + (b + c)
  {
  }

  method Evaluate(spec: Spec, rec: Recorder, tenants: seq<string>, rs: seq<Response>)
    requires |rs| == |tenants|
    requires rec.Valid()
    modifies rec
    ensures rec.Valid()
    ensures rec.breaches == old(rec.breaches) + RoundBreaches(spec, tenants, rs)
  {
    hide LeakBreaches, LeakBreach, TenantBreach, RoundBreaches;
    ghost var goal, rest := rec.breaches + RoundBreaches(spec, tenants, rs), RoundBreaches(spec, tenants, rs);
    assert tenants[0..] == tenants && rs[0..] == rs;
    for i := 0 to |tenants|
      invariant rec.Valid()
      invariant rest == RoundBreaches(spec, tenants[i..], rs[i..])
      invariant rec.breaches + rest == goal
    {
      RoundBreachesFrom(spec, tenants, rs, i);
      var tenant := tenants[i];
      ghost var before := rec.breaches;
      match rs[i] {
        case Aborted =>
          assert rec.breaches == goal;
          return;
        case Refused =>
          rec.Record(TenantBreach(spec, tenant, FetchFailed));
        case Garbage =>
          rec.Record(TenantBreach(spec, tenant, Undecodable));
        case Events(events) =>
          NoEventsNoLeaks(spec, tenant);
          assert events[..0] == [];
          for j := 0 to |events|
            invariant rec.Valid()
            invariant rec.breaches == before + LeakBreaches(spec, tenant, events[..j])
          {
            LeakBreachesSnoc(spec, tenant, events, j);
            var ev := events[j];
            if ev.tenant == "" || ev.tenant == tenant {
              continue;
            }
            rec.Record(LeakBreach(spec, tenant, ev));
          }
          assert events[..|events|] == events;
      }
      assert rec.breaches == before + ResponseBreaches(spec, tenant, rs[i]);
      rest := RoundBreaches(spec, tenants[i + 1..], rs[i + 1..]);
      Reassociate(before, ResponseBreaches(spec, tenant, rs[i]), rest);
    }
    assert tenants[|tenants|..] == [] && rs[|tenants|..] == [];
    NoTenantsNoBreaches(spec);
  }

  // ----- what a round amounts to -----

  /** The events of another, non-empty tenant. */
  function IsForeign(tenant: string, es: seq<Event>): nat -> bool {
    (i: nat) => i < |es| && es[i].tenant != "" && es[i].tenant != tenant
  }

  function TellsOf(spec: Spec, tenant: string, es: seq<Event>): (nat, Breach) -> bool {
    (i: nat, b: Breach) => i < |es| && b == Breach(spec.name, spec.kind, Leaked(es[i].id), [tenant, es[i].tenant])
  }

  lemma {:induction false} LeaksInOrder(spec: Spec, tenant: string, es: seq<Event>)
    ensures TakenInOrder(|es|, IsForeign(tenant, es), TellsOf(spec, tenant, es), LeakBreaches(spec, tenant, es))
    decreases |es|
  {
    if es == [] {
      NothingTaken(IsForeign(tenant, es), TellsOf(spec, tenant, es));
    } else {
      var n := |es| - 1;
      var init := es[..n];
      var bs := LeakBreaches(spec, tenant, init);
      LeaksInOrder(spec, tenant, init);
      Retaken(n, IsForeign(tenant, init), TellsOf(spec, tenant, init), IsForeign(tenant, es), TellsOf(spec, tenant, es), bs);
      TakeNext(n, IsForeign(tenant, es), TellsOf(spec, tenant, es), bs, LeakBreach(spec, tenant, es[n]));
    }
  }

  /** What is recorded for one tenant. */
  ghost predicate TenantTells(spec: Spec, tenant: string, r: Response, bs: seq<Breach>) {
    match r
    case Refused => bs == [Breach(spec.name, spec.kind, FetchFailed, [tenant])]
    case Garbage => bs == [Breach(spec.name, spec.kind, Undecodable, [tenant])]
    case Events(es) => TakenInOrder(|es|, IsForeign(tenant, es), TellsOf(spec, tenant, es), bs)
    case Aborted => false
  }

  function Flatten(blocks: seq<seq<Breach>>): seq<Breach> {
    if blocks == [] then [] else blocks[0] + Flatten(blocks[1..])
  }

  /** One block per tenant, in order, up to the first aborted fetch or to the last tenant. */
  ghost predicate TellsTenants(spec: Spec, tenants: seq<string>, rs: seq<Response>, blocks: seq<seq<Breach>>)
    requires |rs| == |tenants|
  {
    && |blocks| <= |tenants| && (|blocks| < |tenants| ==> rs[|blocks|].Aborted?)
    && forall i :: 0 <= i < |blocks| ==> TenantTells(spec, tenants[i], rs[i], blocks[i])
  }

  /** A round goes through the tenants in order and through each answer's events in order. */
  lemma {:induction false} RoundInOrder(spec: Spec, tenants: seq<string>, rs: seq<Response>) returns (blocks: seq<seq<Breach>>)
    requires |rs| == |tenants|
    ensures RoundBreaches(spec, tenants, rs) == Flatten(blocks) && TellsTenants(spec, tenants, rs, blocks)
    decreases |tenants|
  {
    if tenants == [] || rs[0].Aborted? {
      blocks := [];
    } else {
      hide LeakBreaches;
      var rest := RoundInOrder(spec, tenants[1..], rs[1..]);
      var first := ResponseBreaches(spec, tenants[0], rs[0]);
      blocks := [first] + rest;
      if rs[0].Events? {
        LeaksInOrder(spec, tenants[0], rs[0].events);
      }
      assert blocks[1..] == rest;
      forall i | 0 <= i < |blocks|
        ensures TenantTells(spec, tenants[i], rs[i], blocks[i])
      {
        assert i > 0 ==> blocks[i] == rest[i - 1] && tenants[i] == tenants[1..][i - 1] && rs[i] == rs[1..][i - 1];
      }
    }
  }

  function LeakCount(tenant: string): Event -> nat {
    (e: Event) => if Leaks(tenant, e) then 1 else 0
  }

  lemma {:induction false} OneBreachPerLeak(spec: Spec, tenant: string, es: seq<Event>)
    ensures |LeakBreaches(spec, tenant, es)| == Sum(es, LeakCount(tenant))
    ensures forall b :: b in LeakBreaches(spec, tenant, es)
                        <==> exists e :: e in es && Leaks(tenant, e) && b == LeakBreach(spec, tenant, e)
    decreases |es|
  {
    if es != [] {
      var init, last := es[..|es| - 1], es[|es| - 1];
      assert es == init + [last];
      OneBreachPerLeak(spec, tenant, init);
      SumSnoc(init, last, LeakCount(tenant));
    }
  }

  function Expected(tenant: string, r: Response): nat {
    match r
    case Events(es) => Sum(es, LeakCount(tenant))
    case Garbage => 1
    case Refused => 1
    case Aborted => 0
  }

  function ExpectedTotal(tenants: seq<string>, rs: seq<Response>): nat
    requires |rs| == |tenants|
  {
    if tenants == [] then 0 else Expected(tenants[0], rs[0]) + ExpectedTotal(tenants[1..], rs[1..])
  }

  predicate Uncancelled(rs: seq<Response>) {
    forall i :: 0 <= i < |rs| ==> !rs[i].Aborted?
  }

  /** An uncancelled round records exactly one breach per failed or undecodable tenant and one per
      event tagged with another non-empty tenant. */
  lemma {:induction false} RoundIsExact(spec: Spec, tenants: seq<string>, rs: seq<Response>)
    requires |rs| == |tenants| && Uncancelled(rs)
    ensures |RoundBreaches(spec, tenants, rs)| == ExpectedTotal(tenants, rs)
    decreases |tenants|
  {
    if tenants != [] {
      RoundIsExact(spec, tenants[1..], rs[1..]);
      if rs[0].Events? {
        OneBreachPerLeak(spec, tenants[0], rs[0].events);
      }
    }
  }

  /** Cut short or not, a round records no more than that. */
  lemma {:induction false} RoundIsBounded(spec: Spec, tenants: seq<string>, rs: seq<Response>)
    requires |rs| == |tenants|
    ensures |RoundBreaches(spec, tenants, rs)| <= ExpectedTotal(tenants, rs)
    decreases |tenants|
  {
    if tenants != [] {
      RoundIsBounded(spec, tenants[1..], rs[1..]);
      if rs[0].Events? {
        OneBreachPerLeak(spec, tenants[0], rs[0].events);
      }
    }
  }

  /** Before the first aborted fetch the two runs see the same. */
  predicate SameUntilAbort(rs: seq<Response>, full: seq<Response>) {
    |full| == |rs| && forall i :: 0 <= i < |rs| && Uncancelled(rs[..i + 1]) ==> full[i] == rs[i]
  }

  /** A cancelled round records a prefix of what the round would have recorded uncancelled. */
  lemma {:induction false} CancelledRoundIsPrefix(spec: Spec, tenants: seq<string>, rs: seq<Response>, full: seq<Response>)
    requires |rs| == |tenants| && SameUntilAbort(rs, full) && Uncancelled(full)
    ensures RoundBreaches(spec, tenants, rs) <= RoundBreaches(spec, tenants, full)
    decreases |tenants|
  {
    if tenants != [] && !rs[0].Aborted? {
      assert Uncancelled(rs[..1]);
      assert SameUntilAbort(rs[1..], full[1..]) by {
        forall i | 0 <= i < |rs| - 1 && Uncancelled(rs[1..][..i + 1])
          ensures full[1..][i] == rs[1..][i]
        {
          assert rs[..i + 2] == [rs[0]] + rs[1..][..i + 1];
          assert Uncancelled(rs[..i + 2]);
        }
      }
      CancelledRoundIsPrefix(spec, tenants[1..], rs[1..], full[1..]);
    }
  }

  predicate Isolated(tenant: string, r: Response) {
    r.Events? && forall e :: e in r.events ==> !Leaks(tenant, e)
  }

  /** An uncancelled round is silent exactly when every tenant was answered with its own or
      untagged events. */
  lemma {:induction false} SilentIffIsolated(spec: Spec, tenants: seq<string>, rs: seq<Response>)
    requires |rs| == |tenants| && Uncancelled(rs)
    ensures RoundBreaches(spec, tenants, rs) == [] <==> forall i :: 0 <= i < |tenants| ==> Isolated(tenants[i], rs[i])
    decreases |tenants|
  {
    if tenants != [] {
      SilentIffIsolated(spec, tenants[1..], rs[1..]);
      var head := ResponseBreaches(spec, tenants[0], rs[0]);
      if rs[0].Events? {
        OneBreachPerLeak(spec, tenants[0], rs[0].events);
        if head != [] {
          assert head[0] in head;
        }
        if !Isolated(tenants[0], rs[0]) {
          var e :| e in rs[0].events && Leaks(tenants[0], e);
          assert LeakBreach(spec, tenants[0], e) in head;
        }
      }
      assert head == [] <==> Isolated(tenants[0], rs[0]);
      assert RoundBreaches(spec, tenants, rs) == [] <==> head == [] && RoundBreaches(spec, tenants[1..], rs[1..]) == [];
      assert forall i :: 0 <= i < |tenants| - 1 ==> tenants[1..][i] == tenants[i + 1] && rs[1..][i] == rs[i + 1];
    }
  }
}
