/** internal/invariants/respawn_within_sla.go: from observed times to a verdict. */
module Sla {
  import opened Text
  import opened Decimal
  import opened Sums
  import opened Accumulate
  import opened Scrape
  import opened Grammar
  import opened Exposition
  import opened Pages
  import opened HistogramPages
  import opened Breaches

  /** The outcome of the GET: a 200 page, or anything else. */
  datatype Fetched = Body(text: string) | Unreachable

  datatype Params = Params(metric: string, sla: real, minRatio: real, minSamples: real)

  /** `within / count < minRatio` in IEEE terms: 0/0 is NaN and positive/0 is +Inf, neither of them
      below anything, negative/0 is -Inf. */
  predicate BelowMinimum(within: real, count: real, minRatio: real) {
    if count == 0.0 then within < 0.0 else within / count < minRatio
  }

  function Judge(h: Histogram, p: Params): Option<Cause> {
    if h.count < p.minSamples then None
    else if Finite(p.sla) !in h.buckets then Some(NoBoundary)
    else if BelowMinimum(h.buckets[Finite(p.sla)], h.count, p.minRatio) then Some(BelowRatio)
    else None
  }

  function ScrapeHistogram(fetched: Fetched, metric: string): Option<Histogram> {
    match fetched
    case Unreachable => None
    case Body(text) => HistogramOf(Split(text, '\n'), metric, ParseFloat)
  }

  /** What one round of the watcher records. */
  function RoundCause(fetched: Fetched, cancelled: bool, p: Params): Option<Cause> {
    match ScrapeHistogram(fetched, p.metric)
    case None => if cancelled then None else Some(ScrapeFailed)
    case Some(h) => Judge(h, p)
  }

  function BreachesOf(spec: Spec, cause: Option<Cause>): seq<Breach> {
    if cause.None? then [] else [MakeBreach(spec, cause.value)]
  }

  /** Nothing came back, or no line of the page gives the histogram's count. */
  ghost predicate NoCount(fetched: Fetched, metric: string) {
    fetched.Unreachable?
    || forall l :: l in Split(fetched.text, '\n') ==> SampleOf(l, CountName(metric), ParseFloat).None?
  }

  /** For every answer to the GET: a round records a failed scrape if and only if the run was not
      cancelled and no count came back. */
  lemma ScrapeFailsIff(fetched: Fetched, cancelled: bool, p: Params)
    ensures NoCount(fetched, p.metric) ==> RoundCause(fetched, cancelled, p) == if cancelled then None else Some(ScrapeFailed)
    ensures !NoCount(fetched, p.metric) ==> RoundCause(fetched, cancelled, p) != Some(ScrapeFailed)
    ensures !NoCount(fetched, p.metric) ==>
              exists h :: HistogramOf(Split(fetched.text, '\n'), p.metric, ParseFloat) == Some(h)
                          && RoundCause(fetched, cancelled, p) == Judge(h, p)
  {
    hide SampleOf, ParseFloat, EventOf, Split, BelowMinimum;
    if fetched.Body? {
      var lines, read := Split(fetched.text, '\n'), EventReader(p.metric, ParseFloat);
      LastCountLineWins(lines, read);
      forall l | l in lines
        ensures read(l).CountSet? <==> SampleOf(l, CountName(p.metric), ParseFloat).Some?
      {
        CountLineReads(l, p.metric, ParseFloat);
      }
      assert (exists i :: 0 <= i < |lines| && read(lines[i]).CountSet?) <==> exists l :: l in lines && read(l).CountSet?;
    }
  }

  lemma RatioWithoutDivision(x: real, n: real, r: real)
    requires n != 0.0
    ensures n > 0.0 ==> (x / n < r <==> x < r * n)
    ensures n < 0.0 ==> (x / n < r <==> x > r * n)
  {
    var q := x / n;
    assert q * n == x;
  }

  /** The verdict on a histogram without a division. */
  lemma JudgeIs(h: Histogram, p: Params)
    ensures h.count < p.minSamples ==> Judge(h, p) == None
    ensures h.count >= p.minSamples && Finite(p.sla) !in h.buckets ==> Judge(h, p) == Some(NoBoundary)
    ensures h.count >= p.minSamples && Finite(p.sla) in h.buckets ==>
              var within := h.buckets[Finite(p.sla)];
              Judge(h, p) == if (h.count > 0.0 && within < p.minRatio * h.count)
                                || (h.count < 0.0 && within > p.minRatio * h.count)
                                || (h.count == 0.0 && within < 0.0) then Some(BelowRatio) else None
  {
    if Finite(p.sla) in h.buckets && h.count != 0.0 {
      RatioWithoutDivision(h.buckets[Finite(p.sla)], h.count, p.minRatio);
    }
  }

  /** `cancelled` is whether the run context had ended when the scrape failed. */
  method Evaluate(spec: Spec, rec: Recorder, fetched: Fetched, cancelled: bool, p: Params)
    requires rec.Valid()
    modifies rec
    ensures rec.Valid()
    ensures rec.breaches == old(rec.breaches) + BreachesOf(spec, RoundCause(fetched, cancelled, p))
    ensures NoCount(fetched, p.metric) && !cancelled ==>
              rec.breaches == old(rec.breaches) + [Breach(spec.name, spec.kind, ScrapeFailed, [])]
    ensures NoCount(fetched, p.metric) && cancelled ==> rec.breaches == old(rec.breaches)
    ensures !NoCount(fetched, p.metric) ==>
              exists h :: HistogramOf(Split(fetched.text, '\n'), p.metric, ParseFloat) == Some(h)
                          && rec.breaches == old(rec.breaches)
                                             + if Judge(h, p).None? then []
                                               else [Breach(spec.name, spec.kind, Judge(h, p).value, [])]
  {
    hide HistogramOf, ParseFloat, BelowMinimum, NoCount;
    ScrapeFailsIff(fetched, cancelled, p);
    var h: Option<Histogram> := None;
    if fetched.Body? {
      h := ParseHistogram(fetched.text, p.metric, ParseFloat);
    }
    if h.None? {
      if cancelled {
        return;
      }
      rec.Record(MakeBreach(spec, ScrapeFailed));
      return;
    }
    if h.value.count < p.minSamples {
      return;
    }
    if Finite(p.sla) !in h.value.buckets {
      rec.Record(MakeBreach(spec, NoBoundary));
      return;
    }
    var within := h.value.buckets[Finite(p.sla)];
    if BelowMinimum(within, h.value.count, p.minRatio) {
      rec.Record(MakeBreach(spec, BelowRatio));
    }
  }

  // ----- from observations to the verdict -----

  function Within(b: Bound): real -> nat {
    x => if b.PosInf? || x <= b.value then 1 else 0
  }

  /** How many observations lie at or below a bound. */
  function AtMost(obs: seq<real>, b: Bound): nat {
    Sum(obs, Within(b))
  }

  predicate TellsTruth(e: HistogramEntry, obs: seq<real>) {
    match e
    case BucketEntry(_, bound, _, value) =>
      LegalBound(bound) && Valid(value) && Value(value) == AtMost(obs, BoundOf(bound)) as real
    case CountEntry(_, value) => Valid(value) && Value(value) == |obs| as real
    case Foreign(_) => true
  }

  /** The entries tell the truth about the observations: every bucket line gives its cumulative
      count, every count line the number of observations, there is a count line, and no label keeps
      a line from being read as it was written. */
  predicate Publishes(metric: string, entries: seq<HistogramEntry>, obs: seq<real>) {
    && (forall e :: e in entries ==> LegalEntry(metric, e) && TellsTruth(e, obs) && KeepsEntry(e))
    && Counted(entries)
  }

  predicate Declares(entries: seq<HistogramEntry>, b: Bound) {
    exists e :: e in entries && e.BucketEntry? && LegalBound(e.bound) && BoundOf(e.bound) == b
  }

  lemma PublishedCounts(metric: string, entries: seq<HistogramEntry>, obs: seq<real>, b: Bound)
    requires Publishes(metric, entries, obs)
    ensures var a := Assemble(entries, HistogramMeaning());
            && a.count == Some(|obs| as real)
            && (b in a.buckets <==> Declares(entries, b))
            && (b in a.buckets ==> a.buckets[b] == AtMost(obs, b) as real)
  {
    hide LegalEntry, KeepsEntry, Valid, Value, LegalBound, BoundOf, AtMost;
    var meaning := HistogramMeaning();
    var a := Assemble(entries, meaning);
    LastCountLineWins(entries, meaning);
    var e :| e in entries && e.CountEntry?;
    assert TellsTruth(e, obs) && meaning(e).CountSet?;
    var i: nat :| LastCountLine(entries, meaning, i) && a.count.value == meaning(entries[i]).value;
    assert entries[i] in entries && TellsTruth(entries[i], obs);
    LastBucketLineWins(entries, meaning, b);
    if Declares(entries, b) {
      var d :| d in entries && d.BucketEntry? && LegalBound(d.bound) && BoundOf(d.bound) == b;
      assert TellsTruth(d, obs) && SetsBucket(meaning(d), b);
    }
    if b in a.buckets {
      var j: nat :| LastBucketLine(entries, meaning, b, j) && a.buckets[b] == meaning(entries[j]).value;
      assert entries[j] in entries && TellsTruth(entries[j], obs);
    }
  }

  /** End to end: for any observations and any page that publishes them — lines in any order,
      further labels, comments and other metrics in between — a round records a breach exactly as
      the SLA says. */
  lemma SlaVerdict(metric: string, entries: seq<HistogramEntry>, obs: seq<real>, cancelled: bool, p: Params)
    requires LegalName(metric) && p.metric == metric && Publishes(metric, entries, obs)
    ensures var n, within := |obs| as real, AtMost(obs, Finite(p.sla)) as real;
            RoundCause(Body(Page(entries, HistogramRenderer(metric))), cancelled, p)
            == if n < p.minSamples then None
               else if !Declares(entries, Finite(p.sla)) then Some(NoBoundary)
               else if n > 0.0 && within / n < p.minRatio then Some(BelowRatio)
               else None
  {
    hide LegalEntry, KeepsEntry, ParseFloat, HistogramOf, Page, Declares, AtMost, LegalName;
    var e :| e in entries && e.CountEntry?;
    HistogramPageRoundTrip(metric, entries);
    PublishedCounts(metric, entries, obs, Finite(p.sla));
  }

  /** A page that carries the histogram of no observations is never flagged once the boundary is
      there, even with min_samples = 0. */
  lemma NoObservationsNoBreach(metric: string, entries: seq<HistogramEntry>, cancelled: bool, p: Params)
    requires LegalName(metric) && p.metric == metric && Publishes(metric, entries, [])
    requires Declares(entries, Finite(p.sla))
    ensures RoundCause(Body(Page(entries, HistogramRenderer(metric))), cancelled, p) == None
  {
    hide Page, RoundCause, Publishes, Declares, LegalName;
    SlaVerdict(metric, entries, [], cancelled, p);
  }

  /** The watcher's verdict on any rendered page, told from what its lines are read as. */
  lemma AnyPageVerdict(metric: string, entries: seq<HistogramEntry>, cancelled: bool, p: Params)
    requires LegalName(metric) && p.metric == metric && LegalEntries(metric, entries)
    ensures RoundCause(Body(Page(entries, HistogramRenderer(metric))), cancelled, p)
            == match Finish(Assemble(entries, HistogramReading()))
               case None => if cancelled then None else Some(ScrapeFailed)
               case Some(h) => Judge(h, p)
  {
    hide LegalEntries, ParseFloat, HistogramOf, Page, Judge, LegalName, HistogramReading;
    HistogramPageIsRead(metric, entries);
  }

  lemma CountedIsFound(entries: seq<HistogramEntry>, n: real)
    requires Counted(entries)
    requires forall e :: e in entries && e.CountEntry? ==> HistogramReading()(e) == CountSet(n)
    ensures Assemble(entries, HistogramReading()).count == Some(n)
  {
    hide Valid, Value, BoundRead, ValueRead;
    LastCountLineWins(entries, HistogramReading());
    var e :| e in entries && e.CountEntry?;
    assert forall i :: 0 <= i < |entries| ==> entries[i] in entries;
  }

  /** Routes such as `/users/{id}` among the labels of all bucket lines: whatever was observed, the
      boundary is reported missing. */
  lemma BracedBucketsHaveNoBoundary(metric: string, entries: seq<HistogramEntry>, n: real, cancelled: bool, p: Params)
    requires LegalName(metric) && p.metric == metric && LegalEntries(metric, entries) && Counted(entries)
    requires forall e :: e in entries && e.CountEntry? ==> KeepsEntry(e) && Value(e.value) == n
    requires forall e :: e in entries && e.BucketEntry? ==> DropsNumber(e.before + e.after)
    ensures RoundCause(Body(Page(entries, HistogramRenderer(metric))), cancelled, p)
            == if n < p.minSamples then None else Some(NoBoundary)
  {
    hide LegalEntry, RoundCause, Page, LegalName, Valid, Value, DropsNumber, ValueRead, BoundRead, Counted;
    AnyPageVerdict(metric, entries, cancelled, p);
    var a := Assemble(entries, HistogramReading());
    forall e | e in entries
      ensures e.CountEntry? ==> HistogramReading()(e) == CountSet(n)
      ensures !HistogramReading()(e).BucketSet?
    {
      if e.BucketEntry? && Valid(e.value) {
        DropsNumberIs(e.before + e.after, e.value);
      }
      KeepsEntryIff(metric, e);
    }
    LastBucketLineWins(entries, HistogramReading(), Finite(p.sla));
    CountedIsFound(entries, n);
  }

  // ----- a publisher -----

  function BucketFor(obs: seq<real>): BoundText -> HistogramEntry {
    (b: BoundText) => BucketEntry([], b, [], NatLiteral(if LegalBound(b) then AtMost(obs, BoundOf(b)) else 0))
  }

  /** The lines a client library writes for a histogram with these boundaries. */
  function Exposed(obs: seq<real>, bounds: seq<BoundText>): seq<HistogramEntry> {
    Map(bounds + [Infinity], BucketFor(obs)) + [CountEntry([], NatLiteral(|obs|))]
  }

  lemma ExposedLineIsTrue(metric: string, obs: seq<real>, bounds: seq<BoundText>, e: HistogramEntry)
    requires forall b :: b in bounds ==> LegalBound(b)
    requires e in Exposed(obs, bounds)
    ensures LegalEntry(metric, e) && TellsTruth(e, obs) && KeepsEntry(e)
  {
    hide AtMost, Valid, Value, BoundOf;
    var all, ex := bounds + [Infinity], Exposed(obs, bounds);
    var i :| 0 <= i < |ex| && ex[i] == e;
    if i < |all| {
      assert e == BucketFor(obs)(all[i]) && LegalBound(all[i]);
    }
  }

  lemma ForeignIsTrue(metric: string, e: HistogramEntry, obs: seq<real>)
    requires e.Foreign?
    ensures TellsTruth(e, obs) && KeepsEntry(e)
  {
  }

  lemma BoundsAreExposed(obs: seq<real>, bounds: seq<BoundText>, b: BoundText)
    requires b in bounds
    ensures BucketFor(obs)(b) in Exposed(obs, bounds)
  {
    hide BucketFor, NatLiteral;
    var all := bounds + [Infinity];
    var i :| 0 <= i < |bounds| && bounds[i] == b;
    assert all[i] == b && Exposed(obs, bounds)[i] == BucketFor(obs)(b);
  }

  /** Any reordering of the exposed lines, with foreign lines mixed in, publishes the observations. */
  lemma ExposedPublishes(metric: string, obs: seq<real>, bounds: seq<BoundText>,
                         entries: seq<HistogramEntry>, foreign: seq<HistogramEntry>)
    requires forall b :: b in bounds ==> LegalBound(b)
    requires forall e :: e in foreign ==> e.Foreign? && LegalEntry(metric, e)
    requires multiset(entries) == multiset(Exposed(obs, bounds) + foreign)
    ensures Publishes(metric, entries, obs)
    ensures forall b :: b in bounds ==> Declares(entries, BoundOf(b))
  {
    hide AtMost, Valid, Value, BoundOf, LegalEntry, TellsTruth, KeepsEntry, NatLiteral;
    var ex := Exposed(obs, bounds);
    SameMembers(entries, ex + foreign);
    forall e | e in entries
      ensures LegalEntry(metric, e) && TellsTruth(e, obs) && KeepsEntry(e)
    {
      if e in ex {
        ExposedLineIsTrue(metric, obs, bounds, e);
      } else {
        ForeignIsTrue(metric, e, obs);
      }
    }
    assert ex[|ex| - 1].CountEntry? && ex[|ex| - 1] in entries;
    forall b | b in bounds
      ensures Declares(entries, BoundOf(b))
    {
      BoundsAreExposed(obs, bounds, b);
      var e := BucketFor(obs)(b);
      assert e in entries && e.BucketEntry? && e.bound == b;
    }
  }
}
