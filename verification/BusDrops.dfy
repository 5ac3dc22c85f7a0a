/** internal/invariants/bus_drops_zero.go: the baseline automaton over a run of scrapes. */
module BusDrops {
  import opened Text
  import opened Decimal
  import opened Sums
  import opened Order
  import opened Accumulate
  import opened Scrape
  import opened Exposition
  import opened Pages
  import opened Breaches
  import opened Sla

  /** One poll: what the GET brought and whether the run context had ended by then. */
  datatype Probe = Probe(fetched: Fetched, cancelled: bool)

  /** The same poll after scraping; `missing` if the page was there but the metric was not. */
  datatype Round = Sampled(value: real) | Failed(missing: bool) | Cancelled

  function RoundOf(p: Probe, metric: string): Round {
    var value := match p.fetched
                 case Unreachable => None
                 case Body(text) => MetricOf(Split(text, '\n'), metric, ParseFloat);
    if value.Some? then Sampled(value.value) else if p.cancelled then Cancelled else Failed(p.fetched.Body?)
  }

  function RoundsOf(probes: seq<Probe>, metric: string): seq<Round> {
    if probes == [] then []
    else RoundsOf(probes[..|probes| - 1], metric) + [RoundOf(probes[|probes| - 1], metric)]
  }

  /** The source's "not yet sampled" sentinel. */
  const UNSAMPLED := -1.0

  function NextBaseline(prev: real, r: Round): real {
    if r.Sampled? then r.value else prev
  }

  /** What one round records. */
  function RoundCauses(prev: real, r: Round, threshold: real): seq<Cause> {
    match r
    case Cancelled => []
    case Failed(missing) => [if missing then MetricMissing else ScrapeFailed]
    case Sampled(v) => if prev >= 0.0 && v - prev > threshold then [Grew(v - prev)] else []
  }

  function Baseline(rounds: seq<Round>): real {
    if rounds == [] then UNSAMPLED else NextBaseline(Baseline(rounds[..|rounds| - 1]), rounds[|rounds| - 1])
  }

  function Causes(rounds: seq<Round>, threshold: real): seq<Cause> {
    if rounds == [] then []
    else
      var init, last := rounds[..|rounds| - 1], rounds[|rounds| - 1];
      Causes(init, threshold) + RoundCauses(Baseline(init), last, threshold)
  }

  function BreachesFor(spec: Spec, causes: seq<Cause>): (bs: seq<Breach>)
    ensures |bs| == |causes|
    ensures forall i :: 0 <= i < |bs| ==> bs[i] == Breach(spec.name, spec.kind, causes[i], [])
  {
    if causes == [] then []
    else BreachesFor(spec, causes[..|causes| - 1]) + [MakeBreach(spec, causes[|causes| - 1])]
  }

  lemma {:induction false} BreachesForConcat(spec: Spec, a: seq<Cause>, b: seq<Cause>)
    ensures BreachesFor(spec, a + b) == BreachesFor(spec, a) + BreachesFor(spec, b)
    decreases |b|
  {
    if b == [] {
      assert a + b == a;
    } else {
      assert (a + b)[..|a + b| - 1] == a + b[..|b| - 1];
      BreachesForConcat(spec, a, b[..|b| - 1]);
    }
  }

  method Evaluate(spec: Spec, rec: Recorder, probe: Probe, metric: string, threshold: real, prev: real)
    returns (baseline: real)
    requires rec.Valid()
    modifies rec
    ensures rec.Valid()
    ensures baseline == NextBaseline(prev, RoundOf(probe, metric))
    ensures rec.breaches == old(rec.breaches) + BreachesFor(spec, RoundCauses(prev, RoundOf(probe, metric), threshold))
  {
    hide MetricOf, ParseFloat;
    var value: Option<real> := None;
    if probe.fetched.Body? {
      value := ParseMetric(probe.fetched.text, metric, ParseFloat);
    }
    if value.None? {
      if probe.cancelled {
        return prev;
      }
      rec.Record(MakeBreach(spec, if probe.fetched.Body? then MetricMissing else ScrapeFailed));
      return prev;
    }
    if prev < 0.0 {
      return value.value;
    }
    var delta := value.value - prev;
    if delta > threshold {
      rec.Record(MakeBreach(spec, Grew(delta)));
    }
    return value.value;
  }

  lemma RunStep(spec: Spec, probes: seq<Probe>, i: nat, metric: string, threshold: real)
    requires i < |probes|
    ensures var before, after := RoundsOf(probes[..i], metric), RoundsOf(probes[..i + 1], metric);
            var r := RoundOf(probes[i], metric);
            && Baseline(after) == NextBaseline(Baseline(before), r)
            && BreachesFor(spec, Causes(after, threshold))
               == BreachesFor(spec, Causes(before, threshold)) + BreachesFor(spec, RoundCauses(Baseline(before), r, threshold))
  {
    hide RoundOf, RoundCauses, NextBaseline;
    assert probes[..i + 1][..i] == probes[..i];
    var before, after := RoundsOf(probes[..i], metric), RoundsOf(probes[..i + 1], metric);
    assert after[..|after| - 1] == before;
    BreachesForConcat(spec, Causes(before, threshold), RoundCauses(Baseline(before), RoundOf(probes[i], metric), threshold));
  }

  /** The first probe is unconditional, every later one answers a tick. */
  method Run(spec: Spec, rec: Recorder, probes: seq<Probe>, metric: string, threshold: real)
    requires probes != []
    requires rec.Valid()
    modifies rec
    ensures rec.Valid()
    ensures rec.breaches
            == old(rec.breaches) + BreachesFor(spec, Causes(RoundsOf(probes, metric), threshold))
  {
    hide RoundOf, RoundCauses, NextBaseline;
    var baseline := UNSAMPLED;
    assert RoundsOf([], metric) == [];
    for i := 0 to |probes|
      invariant rec.Valid()
      invariant baseline == Baseline(RoundsOf(probes[..i], metric))
      invariant rec.breaches
                == old(rec.breaches) + BreachesFor(spec, Causes(RoundsOf(probes[..i], metric), threshold))
    {
      RunStep(spec, probes, i, metric, threshold);
      baseline := Evaluate(spec, rec, probes[i], metric, threshold, baseline);
    }
    assert probes[..|probes|] == probes;
  }

  /** Nothing came back, or no line of the page is a sample of the metric. */
  ghost predicate NoSample(fetched: Fetched, metric: string) {
    fetched.Unreachable? || forall l :: l in Split(fetched.text, '\n') ==> SampleOf(l, metric, ParseFloat).None?
  }

  /** What a poll comes to, for every answer: a sample is the sum over the page's sample lines; without
      one the round failed, or was cancelled if the context had ended. */
  lemma RoundIs(p: Probe, metric: string)
    ensures NoSample(p.fetched, metric) ==>
              RoundOf(p, metric) == if p.cancelled then Cancelled else Failed(p.fetched.Body?)
    ensures !NoSample(p.fetched, metric) ==>
              RoundOf(p, metric)
              == Sampled(Total(Split(p.fetched.text, '\n'), Contribution(SampleReader(metric, ParseFloat))))
  {
    hide SampleOf, ParseFloat, Split;
    if p.fetched.Body? {
      TallyIsSum(Split(p.fetched.text, '\n'), SampleReader(metric, ParseFloat));
    }
  }

  /** From any rendered page to the sample: the sum over the lines that are read. */
  lemma AnyPageSample(name: string, entries: seq<SampleEntry>, cancelled: bool)
    requires LegalName(name) && LegalSamples(name, entries)
    ensures RoundOf(Probe(Body(Page(entries, SampleRenderer(name))), cancelled), name)
            == match Tally(entries, SampleReading())
               case Some(t) => Sampled(t)
               case None => if cancelled then Cancelled else Failed(true)
  {
    hide MetricOf, ParseFloat, Page, LegalSamples, LegalName, Tally;
    MetricPageIsRead(name, entries);
  }

  /** When every line is kept, that is the sum over the metric's label permutations. */
  lemma PublishedSample(name: string, entries: seq<SampleEntry>, cancelled: bool)
    requires LegalName(name) && LegalSamples(name, entries)
    requires (forall e :: e in entries ==> KeepsSample(e)) && exists e :: e in entries && e.Sample?
    ensures RoundOf(Probe(Body(Page(entries, SampleRenderer(name))), cancelled), name)
            == Sampled(Total(entries, Contribution(SampleMeaning())))
  {
    hide RoundOf, ParseFloat, Page, Value, Valid, LegalName, LegalSamples, PublishedMetric;
    var e :| e in entries && e.Sample?;
    AnyPageSample(name, entries, cancelled);
    MetricPageIsRead(name, entries);
    MetricPageRoundTrip(name, entries);
    TallyIsSum(entries, SampleMeaning());
    assert KeepsSample(e) && SampleMeaning()(e).Some?;
  }

  /** Routes such as `/users/{id}` among the labels of all samples: the metric is reported missing,
      however much was dropped. */
  lemma BracedSamplesAreMissing(name: string, entries: seq<SampleEntry>)
    requires LegalName(name) && LegalSamples(name, entries)
    requires forall e :: e in entries && e.Sample? ==> DropsNumber(e.labels)
    ensures RoundOf(Probe(Body(Page(entries, SampleRenderer(name))), false), name) == Failed(true)
  {
    hide RoundOf, ParseFloat, Page, Value, Valid, LegalName, LegalSamples, DropsNumber, ValueRead;
    AnyPageSample(name, entries, false);
    forall e | e in entries
      ensures SampleReading()(e).None?
    {
      if e.Sample? {
        if Valid(e.value) {
          DropsNumberIs(e.labels, e.value);
        }
      }
    }
    TallyIsSum(entries, SampleReading());
  }

  // ----- whole-run properties -----

  /** The successful samples of a run. */
  function Values(rounds: seq<Round>): seq<real> {
    if rounds == [] then []
    else
      var init, last := rounds[..|rounds| - 1], rounds[|rounds| - 1];
      if last.Sampled? then Values(init) + [last.value] else Values(init)
  }

  /** The recorded growths, in order. */
  function Growths(causes: seq<Cause>): seq<real> {
    if causes == [] then []
    else
      var init, last := causes[..|causes| - 1], causes[|causes| - 1];
      if last.Grew? then Growths(init) + [last.delta] else Growths(init)
  }

  /** What consecutive samples alone amount to. */
  function Jumps(vs: seq<real>, threshold: real): seq<real> {
    if |vs| < 2 then []
    else
      var n := |vs|;
      var delta := vs[n - 1] - vs[n - 2];
      Jumps(vs[..n - 1], threshold) + if vs[n - 2] >= 0.0 && delta > threshold then [delta] else []
  }

  /** The baseline is the last successful sample, however many failures came since. */
  lemma {:induction false} BaselineIsLastSample(rounds: seq<Round>)
    ensures Baseline(rounds) == if Values(rounds) == [] then UNSAMPLED else Values(rounds)[|Values(rounds)| - 1]
    decreases |rounds|
  {
    if rounds != [] {
      BaselineIsLastSample(rounds[..|rounds| - 1]);
    }
  }

  lemma GrowthsSnoc(causes: seq<Cause>, more: seq<Cause>)
    requires |more| <= 1
    ensures Growths(causes + more) == Growths(causes) + Growths(more)
  {
    if more == [] {
      assert causes + more == causes;
    } else {
      assert (causes + more)[..|causes|] == causes;
    }
  }

  /** Failed and cancelled rounds change no growth breach: those are the jumps between consecutive
      samples, where a jump away from a negative sample is not seen. */
  lemma {:induction false} GrowthsAreJumps(rounds: seq<Round>, threshold: real)
    ensures Growths(Causes(rounds, threshold)) == Jumps(Values(rounds), threshold)
    decreases |rounds|
  {
    if rounds != [] {
      var init, last := rounds[..|rounds| - 1], rounds[|rounds| - 1];
      GrowthsAreJumps(init, threshold);
      BaselineIsLastSample(init);
      var c := RoundCauses(Baseline(init), last, threshold);
      GrowthsSnoc(Causes(init, threshold), c);
      if last.Sampled? {
        var vs := Values(rounds);
        assert vs[..|vs| - 1] == Values(init);
      }
    }
  }

  /** Round i fails, or samples more than the threshold above the last sample before it. */
  function Recorded(rounds: seq<Round>, threshold: real): nat -> bool {
    (i: nat) => i < |rounds| && match rounds[i]
                         case Failed(_) => true
                         case Cancelled => false
                         case Sampled(v) =>
                           var before := Values(rounds[..i]);
                           before != [] && before[|before| - 1] >= 0.0 && v > before[|before| - 1] + threshold
  }

  function TellsOf(rounds: seq<Round>): (nat, Cause) -> bool {
    (i: nat, c: Cause) => i < |rounds| && match rounds[i]
                              case Failed(missing) => c == if missing then MetricMissing else ScrapeFailed
                              case Cancelled => false
                              case Sampled(v) =>
                                var before := Values(rounds[..i]);
                                before != [] && c == Grew(v - before[|before| - 1])
  }

  /** A run records exactly one breach for every failed round, by its kind, and one for every growth
      over the last sample, and these in the order of the rounds. */
  lemma {:induction false} CausesInOrder(rounds: seq<Round>, threshold: real)
    ensures TakenInOrder(|rounds|, Recorded(rounds, threshold), TellsOf(rounds), Causes(rounds, threshold))
    decreases |rounds|
  {
    if rounds == [] {
      NothingTaken(Recorded(rounds, threshold), TellsOf(rounds));
    } else {
      var n := |rounds| - 1;
      var init, last := rounds[..n], rounds[n];
      var causes := Causes(init, threshold);
      CausesInOrder(init, threshold);
      assert forall i :: 0 <= i < n ==> init[..i] == rounds[..i];
      Retaken(n, Recorded(init, threshold), TellsOf(init), Recorded(rounds, threshold), TellsOf(rounds), causes);
      BaselineIsLastSample(init);
      var added := RoundCauses(Baseline(init), last, threshold);
      assert Recorded(rounds, threshold)(n) <==> added != [];
      assert added == if added == [] then [] else [added[0]];
      assert causes + [] == causes;
      TakeNext(n, Recorded(rounds, threshold), TellsOf(rounds), causes, if added == [] then ScrapeFailed else added[0]);
    }
  }

  predicate NonNegative(vs: seq<real>) {
    forall v :: v in vs ==> v >= 0.0
  }

  function Identity(): real -> real {
    x => x
  }

  /** What `quiet` rounds may add without a breach. */
  function Tolerated(threshold: real, quiet: int): real {
    threshold * quiet as real
  }

  lemma ToleratedNext(threshold: real, quiet: int)
    ensures Tolerated(threshold, quiet + 1) == Tolerated(threshold, quiet) + threshold
  {
  }

  /** Growth over a run is bounded by what was tolerated plus what was recorded. */
  lemma {:induction false} Telescope(vs: seq<real>, threshold: real)
    requires vs != [] && NonNegative(vs)
    ensures |Jumps(vs, threshold)| <= |vs| - 1
    ensures vs[|vs| - 1] - vs[0]
            <= Tolerated(threshold, |vs| - 1 - |Jumps(vs, threshold)|) + Total(Jumps(vs, threshold), Identity())
    decreases |vs|
  {
    if |vs| > 1 {
      hide Tolerated;
      var n := |vs|;
      var init := vs[..n - 1];
      assert NonNegative(init) by {
        assert forall v :: v in init ==> v in vs;
      }
      assert vs[n - 2] in vs;
      Telescope(init, threshold);
      var delta := vs[n - 1] - vs[n - 2];
      var js := Jumps(init, threshold);
      if delta > threshold {
        TotalConcat(js, [delta], Identity());
        assert Total([delta], Identity()) == delta;
        assert Jumps(vs, threshold) == js + [delta];
      } else {
        assert Jumps(vs, threshold) == js;
        ToleratedNext(threshold, n - 2 - |js|);
      }
    } else {
      assert Tolerated(threshold, 0) == 0.0;
    }
  }

  predicate Monotone(vs: seq<real>) {
    forall i, j :: 0 <= i <= j < |vs| ==> vs[i] <= vs[j]
  }

  /** For a counter that never falls and a zero tolerance, silence means that nothing was dropped. */
  lemma {:induction false} SilentIffUnchanged(vs: seq<real>)
    requires vs != [] && NonNegative(vs) && Monotone(vs)
    ensures Jumps(vs, 0.0) == [] <==> vs[|vs| - 1] == vs[0]
    decreases |vs|
  {
    if |vs| > 1 {
      var n := |vs|;
      var init := vs[..n - 1];
      assert NonNegative(init) by {
        assert forall v :: v in init ==> v in vs;
      }
      assert vs[n - 2] in vs;
      SilentIffUnchanged(init);
      assert vs[0] <= vs[n - 2] <= vs[n - 1];
    }
  }

  /** The run-level reading of the three lemmas above, for every sequence of polls. */
  lemma RunGrowth(rounds: seq<Round>, threshold: real)
    requires Values(rounds) != [] && NonNegative(Values(rounds))
    ensures var vs, gs := Values(rounds), Growths(Causes(rounds, threshold));
            && vs[|vs| - 1] - vs[0] <= Tolerated(threshold, |vs| - 1 - |gs|) + Total(gs, Identity())
            && (Monotone(vs) && threshold == 0.0 ==> (gs == [] <==> vs[|vs| - 1] == vs[0]))
  {
    hide Tolerated, Values, Causes, Growths, Jumps;
    GrowthsAreJumps(rounds, threshold);
    Telescope(Values(rounds), threshold);
    if Monotone(Values(rounds)) && threshold == 0.0 {
      SilentIffUnchanged(Values(rounds));
    }
  }

  /** With a negative sample the sentinel is mistaken for "not yet sampled": any growth goes unseen. */
  lemma NegativeSampleHidesGrowth(u: real, v: real, threshold: real)
    ensures Growths(Causes([Sampled(u), Sampled(v)], threshold)) != [] <==> u >= 0.0 && v - u > threshold
  {
    GrowthsAreJumps([Sampled(u), Sampled(v)], threshold);
    var rounds := [Sampled(u), Sampled(v)];
    assert rounds[..1] == [Sampled(u)] && [Sampled(u)][..0] == [];
    assert Values([Sampled(u)]) == [u];
    assert Values(rounds) == [u, v];
    assert [u, v][..1] == [u];
  }
}
