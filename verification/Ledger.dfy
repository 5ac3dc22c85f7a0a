/** From the breach log to the report's totals: collectInvariantTimelines, totalBreaches and
    Report.Summarize. */
module Ledger {
  import opened Text
  import opened Sums
  import opened Order
  import opened Breaches

  datatype Timeline = Timeline(name: string, kind: string, breaches: seq<Breach>)

  datatype Summary = Summary(
    totalBreaches: nat,
    byKind: map<string, nat>,
    byName: map<string, nat>,
    seconds: real,
    workloads: nat,
    injectors: nat,
    invariants: nat)

  function At(m: map<string, nat>, k: string): nat {
    if k in m then m[k] else 0
  }

  // ----- collectInvariantTimelines -----

  /** The breaches that carry this name, in log order. */
  function Named(log: seq<Breach>, name: string): seq<Breach> {
    if log == [] then []
    else
      var init, last := Named(log[..|log| - 1], name), log[|log| - 1];
      if last.name == name then init + [last] else init
  }

  function CarriesName(log: seq<Breach>, name: string): nat -> bool {
    (i: nat) => i < |log| && log[i].name == name
  }

  function IsEntry(log: seq<Breach>): (nat, Breach) -> bool {
    (i: nat, b: Breach) => i < |log| && b == log[i]
  }

  /** These are exactly the log's breaches that carry the name, in log order. */
  ghost predicate InLogOrder(log: seq<Breach>, name: string, bs: seq<Breach>) {
    TakenInOrder(|log|, CarriesName(log, name), IsEntry(log), bs)
  }

  lemma {:induction false} NamedInLogOrder(log: seq<Breach>, name: string)
    ensures InLogOrder(log, name, Named(log, name))
    decreases |log|
  {
    if log == [] {
      NothingTaken(CarriesName(log, name), IsEntry(log));
    } else {
      var n := |log| - 1;
      var init := log[..n];
      NamedInLogOrder(init, name);
      Retaken(n, CarriesName(init, name), IsEntry(init), CarriesName(log, name), IsEntry(log), Named(init, name));
      TakeNext(n, CarriesName(log, name), IsEntry(log), Named(init, name), log[n]);
    }
  }

  function TimelineOf(spec: Spec, log: seq<Breach>): Timeline {
    Timeline(spec.name, spec.kind, Named(log, spec.name))
  }

  function Timelines(specs: seq<Spec>, log: seq<Breach>): seq<Timeline> {
    if specs == [] then []
    else Timelines(specs[..|specs| - 1], log) + [TimelineOf(specs[|specs| - 1], log)]
  }

  lemma {:induction false} TimelinesInLogOrder(specs: seq<Spec>, log: seq<Breach>)
    ensures |Timelines(specs, log)| == |specs|
    ensures forall i :: 0 <= i < |specs| ==>
              var t := Timelines(specs, log)[i];
              t.name == specs[i].name && t.kind == specs[i].kind && InLogOrder(log, specs[i].name, t.breaches)
    decreases |specs|
  {
    if specs != [] {
      hide InLogOrder, Named;
      TimelinesInLogOrder(specs[..|specs| - 1], log);
      NamedInLogOrder(log, specs[|specs| - 1].name);
    }
  }

  method CollectInvariantTimelines(specs: seq<Spec>, rec: Recorder) returns (out: seq<Timeline>)
    ensures out == Timelines(specs, rec.breaches)
    ensures |out| == |specs|
    ensures forall i :: 0 <= i < |specs| ==>
              && out[i].name == specs[i].name && out[i].kind == specs[i].kind
              && InLogOrder(rec.breaches, specs[i].name, out[i].breaches)
  {
    var all := rec.Snapshot();
    var byName: map<string, seq<Breach>> := map[];
    for i := 0 to |all|
      invariant forall n :: (if n in byName then byName[n] else []) == Named(all[..i], n)
    {
      assert all[..i + 1][..i] == all[..i];
      var b := all[i];
      byName := byName[b.name := (if b.name in byName then byName[b.name] else []) + [b]];
    }
    assert all[..|all|] == all;
    out := [];
    for i := 0 to |specs|
      invariant out == Timelines(specs[..i], all)
    {
      assert specs[..i + 1][..i] == specs[..i];
      var v := specs[i];
      out := out + [Timeline(v.name, v.kind, if v.name in byName then byName[v.name] else [])];
    }
    assert specs[..|specs|] == specs;
    TimelinesInLogOrder(specs, all);
  }

  // ----- Summarize and totalBreaches -----

  function Count(): Timeline -> nat {
    (t: Timeline) => |t.breaches|
  }

  function CountOfKind(kind: string): Timeline -> nat {
    (t: Timeline) => if t.kind == kind then |t.breaches| else 0
  }

  function CountOfName(name: string): Timeline -> nat {
    (t: Timeline) => if t.name == name then |t.breaches| else 0
  }

  /** A map with an entry exactly for the labels that have breaches, holding their number. */
  ghost predicate Tabulates(m: map<string, nat>, ts: seq<Timeline>, per: string -> Timeline -> nat) {
    forall k :: At(m, k) == Sum(ts, per(k)) && (k in m <==> Sum(ts, per(k)) > 0)
  }

  function ByKind(): string -> Timeline -> nat {
    (k: string) => CountOfKind(k)
  }

  function ByName(): string -> Timeline -> nat {
    (n: string) => CountOfName(n)
  }

  method TotalBreaches(timelines: seq<Timeline>) returns (n: nat)
    ensures n == Sum(timelines, Count())
  {
    n := 0;
    for i := 0 to |timelines|
      invariant n == Sum(timelines[..i], Count())
    {
      assert timelines[..i + 1] == timelines[..i] + [timelines[i]];
      SumSnoc(timelines[..i], timelines[i], Count());
      n := n + |timelines[i].breaches|;
    }
    assert timelines[..|timelines|] == timelines;
  }

  datatype WorkloadRow = WorkloadRow(name: string, tenant: string, ops: nat, errors: nat)

  datatype InjectorRow = InjectorRow(name: string, kind: string, appliedAt: Option<int>, revertedAt: Option<int>, detail: string)

  lemma TabulatesSnoc(m: map<string, nat>, ts: seq<Timeline>, t: Timeline, per: string -> Timeline -> nat, key: string)
    requires Tabulates(m, ts, per)
    requires forall k :: per(k)(t) == if k == key then |t.breaches| else 0
    ensures Tabulates(if |t.breaches| == 0 then m else m[key := At(m, key) + |t.breaches|], ts + [t], per)
  {
    forall k: string
      ensures Sum(ts + [t], per(k)) == Sum(ts, per(k)) + per(k)(t)
    {
      SumSnoc(ts, t, per(k));
    }
  }

  class Report {
    const startedAt: Option<int>
    const endedAt: Option<int>
    const invariants: seq<Timeline>
    const workloads: seq<WorkloadRow>
    const injectors: seq<InjectorRow>
    var summary: Summary

    constructor (startedAt: Option<int>, endedAt: Option<int>, invariants: seq<Timeline>,
                 workloads: seq<WorkloadRow>, injectors: seq<InjectorRow>)
      ensures this.startedAt == startedAt && this.endedAt == endedAt && this.invariants == invariants
      ensures this.workloads == workloads && this.injectors == injectors
    {
      this.startedAt, this.endedAt, this.invariants := startedAt, endedAt, invariants;
      this.workloads, this.injectors := workloads, injectors;
      summary := Summary(0, map[], map[], 0.0, 0, 0, 0);
    }

    /** Times are in nanoseconds; `None` is the zero time. */
    method Summarize()
      modifies this
      ensures summary.totalBreaches == Sum(invariants, Count())
      ensures Tabulates(summary.byKind, invariants, ByKind())
      ensures Tabulates(summary.byName, invariants, ByName())
      ensures summary.workloads == |workloads| && summary.injectors == |injectors|
      ensures summary.invariants == |invariants|
      ensures summary.seconds == if startedAt.Some? && endedAt.Some?
                                 then (endedAt.value - startedAt.value) as real / 1000000000.0 else 0.0
    {
      var seconds := 0.0;
      if endedAt.Some? && startedAt.Some? {
        seconds := (endedAt.value - startedAt.value) as real / 1000000000.0;
      }
      var total := 0;
      var byKind: map<string, nat> := map[];
      var byName: map<string, nat> := map[];
      for i := 0 to |invariants|
        invariant total == Sum(invariants[..i], Count())
        invariant Tabulates(byKind, invariants[..i], ByKind())
        invariant Tabulates(byName, invariants[..i], ByName())
      {
        var it := invariants[i];
        assert invariants[..i + 1] == invariants[..i] + [it];
        SumSnoc(invariants[..i], it, Count());
        TabulatesSnoc(byKind, invariants[..i], it, ByKind(), it.kind);
        TabulatesSnoc(byName, invariants[..i], it, ByName(), it.name);
        var n := |it.breaches|;
        if n == 0 {
          continue;
        }
        total := total + n;
        byKind := byKind[it.kind := At(byKind, it.kind) + n];
        byName := byName[it.name := At(byName, it.name) + n];
      }
      assert invariants[..|invariants|] == invariants;
      summary := Summary(total, byKind, byName, seconds, |workloads|, |injectors|, |invariants|);
    }
  }

  // ----- conservation -----

  /** 1 if the block declares the breach's name. */
  function Owns(): (Spec, Breach) -> nat {
    (s: Spec, b: Breach) => if s.name == b.name then 1 else 0
  }

  function OwnsInKind(kind: string): (Spec, Breach) -> nat {
    (s: Spec, b: Breach) => if s.name == b.name && s.kind == kind then 1 else 0
  }

  /** How many blocks of the scenario carry the breach's name. */
  function Declarations(specs: seq<Spec>): Breach -> nat {
    ColumnSum(Owns(), specs)
  }

  lemma {:induction false} NamedCount(log: seq<Breach>, spec: Spec)
    ensures |Named(log, spec.name)| == Sum(log, Row(Owns(), spec))
    decreases |log|
  {
    if log != [] {
      var init, last := log[..|log| - 1], log[|log| - 1];
      NamedCount(init, spec);
      assert log == init + [last];
      SumSnoc(init, last, Row(Owns(), spec));
    }
  }

  lemma {:induction false} NamedCountOfKind(log: seq<Breach>, spec: Spec, kind: string)
    ensures CountOfKind(kind)(TimelineOf(spec, log)) == Sum(log, Row(OwnsInKind(kind), spec))
  {
    if spec.kind == kind {
      NamedCount(log, spec);
      SumCongruent(log, Row(Owns(), spec), Row(OwnsInKind(kind), spec));
    } else {
      SumZero(log, Row(OwnsInKind(kind), spec));
    }
  }

  lemma {:induction false} TimelineCount(specs: seq<Spec>, log: seq<Breach>)
    ensures Sum(Timelines(specs, log), Count()) == Sum(specs, RowSum(Owns(), log))
    decreases |specs|
  {
    if specs != [] {
      var init, last := specs[..|specs| - 1], specs[|specs| - 1];
      TimelineCount(init, log);
      NamedCount(log, last);
      assert specs == init + [last];
      SumSnoc(init, last, RowSum(Owns(), log));
      SumSnoc(Timelines(init, log), TimelineOf(last, log), Count());
    }
  }

  lemma {:induction false} TimelineCountOfKind(specs: seq<Spec>, log: seq<Breach>, kind: string)
    ensures Sum(Timelines(specs, log), CountOfKind(kind)) == Sum(specs, RowSum(OwnsInKind(kind), log))
    decreases |specs|
  {
    if specs != [] {
      var init, last := specs[..|specs| - 1], specs[|specs| - 1];
      TimelineCountOfKind(init, log, kind);
      NamedCountOfKind(log, last, kind);
      assert specs == init + [last];
      SumSnoc(init, last, RowSum(OwnsInKind(kind), log));
      SumSnoc(Timelines(init, log), TimelineOf(last, log), CountOfKind(kind));
    }
  }

  /** Conservation: the report counts every logged breach once per block that declares its name. */
  lemma TotalIsDeclarations(specs: seq<Spec>, log: seq<Breach>)
    ensures Sum(Timelines(specs, log), Count()) == Sum(log, Declarations(specs))
  {
    TimelineCount(specs, log);
    Exchange(specs, log, Owns());
  }

  /** A kind is charged with every breach once per block of that kind that declares its name, even
      when the breach was recorded under another kind. */
  lemma KindTotalIsDeclarations(specs: seq<Spec>, log: seq<Breach>, kind: string)
    ensures Sum(Timelines(specs, log), CountOfKind(kind)) == Sum(log, ColumnSum(OwnsInKind(kind), specs))
  {
    TimelineCountOfKind(specs, log, kind);
    Exchange(specs, log, OwnsInKind(kind));
  }

  function NameIs(name: string): Spec -> nat {
    (s: Spec) => if s.name == name then 1 else 0
  }

  /** A name declared k times reports k times its breaches. */
  lemma {:induction false} NameTotalIsMultiplied(specs: seq<Spec>, log: seq<Breach>, name: string)
    ensures Sum(Timelines(specs, log), CountOfName(name)) == Sum(specs, NameIs(name)) * |Named(log, name)|
    decreases |specs|
  {
    if specs != [] {
      var init, last := specs[..|specs| - 1], specs[|specs| - 1];
      NameTotalIsMultiplied(init, log, name);
      assert specs == init + [last];
      SumSnoc(init, last, NameIs(name));
      SumSnoc(Timelines(init, log), TimelineOf(last, log), CountOfName(name));
    }
  }

  /** When only declared names were recorded, the total is the number of recorded breaches exactly
      if no recorded name is declared twice. */
  lemma TotalIsLogLengthIff(specs: seq<Spec>, log: seq<Breach>)
    requires forall b :: b in log ==> Declarations(specs)(b) >= 1
    ensures Sum(Timelines(specs, log), Count()) >= |log|
    ensures Sum(Timelines(specs, log), Count()) == |log| <==> forall b :: b in log ==> Declarations(specs)(b) == 1
  {
    TotalIsDeclarations(specs, log);
    SumOne(log);
    SumMonotone(log, One(), Declarations(specs));
  }

  predicate DistinctNames(specs: seq<Spec>) {
    forall i, j :: 0 <= i < j < |specs| ==> specs[i].name != specs[j].name
  }

  lemma {:induction false} DistinctNamesDeclareOnce(specs: seq<Spec>, b: Breach)
    requires DistinctNames(specs)
    ensures Declarations(specs)(b) <= 1
    decreases |specs|
  {
    if specs != [] {
      var rest := specs[1..];
      if specs[0].name == b.name {
        SumZero(rest, Column(Owns(), b));
      } else {
        DistinctNamesDeclareOnce(rest, b);
      }
    }
  }

  // ----- the two tables add up to the total -----

  ghost predicate Enumerates(keys: seq<string>, m: map<string, nat>) {
    && (forall i, j :: 0 <= i < j < |keys| ==> keys[i] != keys[j])
    && (forall k :: k in keys <==> k in m)
  }

  function EntryOf(m: map<string, nat>): string -> nat {
    (k: string) => At(m, k)
  }

  function Share(per: string -> Timeline -> nat): (string, Timeline) -> nat {
    (k: string, t: Timeline) => per(k)(t)
  }

  lemma {:induction false} OneShare(keys: seq<string>, per: string -> Timeline -> nat, t: Timeline, key: string)
    requires forall i, j :: 0 <= i < j < |keys| ==> keys[i] != keys[j]
    requires per(key)(t) == |t.breaches| && forall k :: k != key ==> per(k)(t) == 0
    ensures Sum(keys, Column(Share(per), t)) == if key in keys then |t.breaches| else 0
    decreases |keys|
  {
    if keys != [] {
      OneShare(keys[1..], per, t, key);
    }
  }

  /** Whichever way the entries of such a table are enumerated, they add up to the total. */
  lemma TableAddsUp(m: map<string, nat>, keys: seq<string>, ts: seq<Timeline>,
                    per: string -> Timeline -> nat, keyOf: Timeline -> string)
    requires Tabulates(m, ts, per) && Enumerates(keys, m)
    requires forall t :: t in ts ==>
               per(keyOf(t))(t) == |t.breaches| && forall k :: k != keyOf(t) ==> per(k)(t) == 0
    ensures Sum(keys, EntryOf(m)) == Sum(ts, Count())
  {
    forall k | k in keys
      ensures EntryOf(m)(k) == RowSum(Share(per), ts)(k)
    {
      SumCongruent(ts, per(k), Row(Share(per), k));
    }
    SumCongruent(keys, EntryOf(m), RowSum(Share(per), ts));
    Exchange(keys, ts, Share(per));
    forall t | t in ts
      ensures ColumnSum(Share(per), keys)(t) == Count()(t)
    {
      OneShare(keys, per, t, keyOf(t));
      var i :| 0 <= i < |ts| && ts[i] == t;
      SumBounds(ts, i, per(keyOf(t)));
    }
    SumCongruent(ts, ColumnSum(Share(per), keys), Count());
  }

  function KindOf(): Timeline -> string { (t: Timeline) => t.kind }

  function NameOf(): Timeline -> string { (t: Timeline) => t.name }

  /** BreachesByKind and BreachesByName each add up to TotalBreaches. */
  lemma SummaryTablesAddUp(byKind: map<string, nat>, kinds: seq<string>, byName: map<string, nat>, names: seq<string>,
                           ts: seq<Timeline>)
    requires Tabulates(byKind, ts, ByKind()) && Enumerates(kinds, byKind)
    requires Tabulates(byName, ts, ByName()) && Enumerates(names, byName)
    ensures Sum(kinds, EntryOf(byKind)) == Sum(ts, Count())
    ensures Sum(names, EntryOf(byName)) == Sum(ts, Count())
  {
    TableAddsUp(byKind, kinds, ts, ByKind(), KindOf());
    TableAddsUp(byName, names, ts, ByName(), NameOf());
  }
}
