/** Pages with a histogram on them: exactly what parseHistogram makes of them. */
module HistogramPages {
  import opened Text
  import opened Decimal
  import opened Accumulate
  import opened Scrape
  import opened Grammar
  import opened Labels
  import opened Exposition
  import opened Pages

  // ----- histogram lines -----

  datatype HistogramEntry =
    | BucketEntry(before: seq<Label>, bound: BoundText, after: seq<Label>, value: Literal)
    | CountEntry(labels: seq<Label>, value: Literal)
    | Foreign(text: string)

  predicate LegalEntry(metric: string, e: HistogramEntry) {
    match e
    case BucketEntry(before, bound, after, value) =>
      LegalLabels(before) && LegalLabels(after) && LegalBound(bound) && Valid(value)
    case CountEntry(labels, value) => LegalLabels(labels) && Valid(value)
    case Foreign(text) =>
      '\n' !in text && NameToken(text) != BucketName(metric) && NameToken(text) != CountName(metric)
  }

  predicate LegalEntries(metric: string, entries: seq<HistogramEntry>) {
    entries != [] && forall e :: e in entries ==> LegalEntry(metric, e)
  }

  function BucketLine(metric: string, before: seq<Label>, bound: BoundText, after: seq<Label>, value: Literal): string {
    BucketName(metric) + (BucketBlock(before, bound, after) + ValueText(value, None))
  }

  function HistogramRenderer(metric: string): HistogramEntry -> string {
    (e: HistogramEntry) => match e
         case BucketEntry(before, bound, after, value) => BucketLine(metric, before, bound, after, value)
         case CountEntry(labels, value) => SampleLine(CountName(metric), labels, value, None)
         case Foreign(text) => text
  }

  /** What was published. */
  function HistogramMeaning(): HistogramEntry -> Event {
    (e: HistogramEntry) => match e
         case BucketEntry(_, bound, _, value) =>
           if LegalBound(bound) && Valid(value) then BucketSet(BoundOf(bound), Value(value)) else Ignored
         case CountEntry(_, value) => if Valid(value) then CountSet(Value(value)) else Ignored
         case Foreign(_) => Ignored
  }

  function BucketReading(before: seq<Label>, bound: BoundText, after: seq<Label>, value: Literal): Event
    requires LegalBound(bound) && Valid(value)
  {
    match (BoundRead(before, bound), ValueRead(before + after, value))
    case (Some(b), Some(v)) => BucketSet(b, v)
    case _ => Ignored
  }

  function CountReading(labels: seq<Label>, value: Literal): Event
    requires Valid(value)
  {
    match ValueRead(labels, value)
    case None => Ignored
    case Some(v) => CountSet(v)
  }

  /** What is read. */
  function HistogramReading(): HistogramEntry -> Event {
    (e: HistogramEntry) => match e
         case BucketEntry(before, bound, after, value) =>
           if LegalBound(bound) && Valid(value) then BucketReading(before, bound, after, value) else Ignored
         case CountEntry(labels, value) => if Valid(value) then CountReading(labels, value) else Ignored
         case Foreign(_) => Ignored
  }

  /** The condition on one line under which the two are the same. */
  predicate KeepsEntry(e: HistogramEntry) {
    match e
    case BucketEntry(before, bound, after, value) =>
      LegalBound(bound) && Valid(value) && KeepsBound(before, bound) && KeepsValue(before + after, value)
    case CountEntry(labels, value) => Valid(value) && KeepsValue(labels, value)
    case Foreign(_) => true
  }

  lemma KeepsEntryIff(metric: string, e: HistogramEntry)
    requires LegalEntry(metric, e)
    ensures HistogramReading()(e) == HistogramMeaning()(e) <==> KeepsEntry(e)
  {
    hide LegalLabels, Valid, Value, ReadField, ReadBound, NameCaptures, BoundOf, NameToken;
  }

  lemma BucketBlockHasNoNewline(before: seq<Label>, bound: BoundText, after: seq<Label>)
    requires LegalLabels(before) && LegalLabels(after) && LegalBound(bound)
    ensures '\n' !in BucketBlock(before, bound, after)
  {
    ReadBoundOfString(bound);
    AfterHasNoNewline(after);
    LabelledHasNoNewline(before, BoundString(bound), After(after));
  }

  lemma BucketEntryIsRead(metric: string, before: seq<Label>, bound: BoundText, after: seq<Label>, value: Literal)
    requires LegalName(metric) && LegalEntry(metric, BucketEntry(before, bound, after, value))
    ensures EventOf(BucketLine(metric, before, bound, after, value), metric, ParseFloat)
            == BucketReading(before, bound, after, value)
    ensures '\n' !in BucketLine(metric, before, bound, after, value)
  {
    hide ParseFloat, ParseBucketLine, EventOf, TrimSpace, ToText, Valid, Value, BoundRead, ValueRead;
    SuffixedNamesAreNames(metric);
    var block := BucketBlock(before, bound, after);
    RenderedLineIsTrimmed(BucketName(metric), block, value, None);
    EventOfBucketName(BucketLine(metric, before, bound, after, value), metric, block + ValueText(value, None), ParseFloat);
    BucketLineIsRead(before, bound, after, value);
    assert ValueText(value, None) == " " + ToText(value);
    BucketBlockHasNoNewline(before, bound, after);
    ValueTextShape(value, None);
  }

  /** Round trip on one bucket line of a page. */
  lemma BucketLineRoundTrip(metric: string, before: seq<Label>, bound: BoundText, after: seq<Label>, value: Literal)
    requires LegalName(metric) && LegalEntry(metric, BucketEntry(before, bound, after, value))
    ensures EventOf(BucketLine(metric, before, bound, after, value), metric, ParseFloat)
            == BucketSet(BoundOf(bound), Value(value))
            <==> KeepsBound(before, bound) && KeepsValue(before + after, value)
  {
    hide EventOf, BucketLine, BucketReading, KeepsBound, KeepsValue, Valid, Value, BoundOf, ParseFloat;
    BucketEntryIsRead(metric, before, bound, after, value);
    KeepsEntryIff(metric, BucketEntry(before, bound, after, value));
  }

  lemma SampleLineBegins(name: string, labels: seq<Label>, value: Literal)
    ensures name <= SampleLine(name, labels, value, None)
    ensures SampleLine(name, labels, value, None) == name + (LabelBlock(labels) + ValueText(value, None))
  {
  }

  lemma CountNameIsName(metric: string)
    requires LegalName(metric)
    ensures LegalName(CountName(metric))
  {
    SuffixedNamesAreNames(metric);
  }

  lemma CountEntryIsRead(metric: string, labels: seq<Label>, value: Literal)
    requires LegalName(metric) && LegalLabels(labels) && Valid(value)
    ensures EventOf(SampleLine(CountName(metric), labels, value, None), metric, ParseFloat) == CountReading(labels, value)
    ensures '\n' !in SampleLine(CountName(metric), labels, value, None)
  {
    hide EventOf, SampleOf, ParseFloat, Valid, Value, ValueRead, TrimSpace, CountName, SampleLine;
    var name, line := CountName(metric), SampleLine(CountName(metric), labels, value, None);
    CountNameIsName(metric);
    SampleLineIsRead(name, labels, value, None);
    SampleLineBegins(name, labels, value);
    RenderedLineIsTrimmed(name, LabelBlock(labels), value, None);
    CountLineReads(line, metric, ParseFloat);
  }

  lemma HistogramEntryIsRead(metric: string, e: HistogramEntry)
    requires LegalName(metric) && LegalEntry(metric, e)
    ensures EventOf(HistogramRenderer(metric)(e), metric, ParseFloat) == HistogramReading()(e)
    ensures '\n' !in HistogramRenderer(metric)(e)
  {
    hide EventOf, SampleOf, ParseFloat, BucketLine, SampleLine, Valid, Value, NameToken, ValueRead, BucketReading;
    match e
    case BucketEntry(before, bound, after, value) => BucketEntryIsRead(metric, before, bound, after, value);
    case CountEntry(labels, value) => CountEntryIsRead(metric, labels, value);
    case Foreign(text) => EventNamesItsMetric(text, metric, ParseFloat);
  }

  function PublishedHistogram(metric: string, entries: seq<HistogramEntry>): Option<Histogram> {
    HistogramOf(Split(Page(entries, HistogramRenderer(metric)), '\n'), metric, ParseFloat)
  }

  lemma {:induction false} AssembleOfMap<T, U>(xs: seq<T>, f: T -> U, read: U -> Event, meant: T -> Event)
    requires forall x :: x in xs ==> read(f(x)) == meant(x)
    ensures Assemble(Map(xs, f), read) == Assemble(xs, meant)
    decreases |xs|
  {
    if xs != [] {
      var init, last := xs[..|xs| - 1], xs[|xs| - 1];
      AssembleOfMap(init, f, read, meant);
      assert Map(xs, f)[..|xs| - 1] == Map(init, f);
      assert last in xs;
    }
  }

  /** parseHistogram on any rendered page. */
  lemma HistogramPageIsRead(metric: string, entries: seq<HistogramEntry>)
    requires LegalName(metric) && LegalEntries(metric, entries)
    ensures PublishedHistogram(metric, entries) == Finish(Assemble(entries, HistogramReading()))
  {
    hide EventOf, LegalEntry, Page, ParseFloat;
    forall e | e in entries
      ensures EventOf(HistogramRenderer(metric)(e), metric, ParseFloat) == HistogramReading()(e)
      ensures '\n' !in HistogramRenderer(metric)(e)
    {
      HistogramEntryIsRead(metric, e);
    }
    SplitPage(entries, HistogramRenderer(metric));
    AssembleOfMap(entries, HistogramRenderer(metric), EventReader(metric, ParseFloat), HistogramReading());
  }

  lemma {:induction false} AssemblePointwise<T>(xs: seq<T>, ys: seq<T>, f: T -> Event, g: T -> Event)
    requires |xs| == |ys| && forall i :: 0 <= i < |xs| ==> f(xs[i]) == g(ys[i])
    ensures Assemble(xs, f) == Assemble(ys, g)
    decreases |xs|
  {
    if xs != [] {
      AssemblePointwise(xs[..|xs| - 1], ys[..|ys| - 1], f, g);
    }
  }

  /** parseHistogram inverts the renderer on every page whose lines are kept. */
  lemma HistogramPageRoundTrip(metric: string, entries: seq<HistogramEntry>)
    requires LegalName(metric) && LegalEntries(metric, entries)
    requires forall e :: e in entries ==> KeepsEntry(e)
    ensures PublishedHistogram(metric, entries) == Finish(Assemble(entries, HistogramMeaning()))
  {
    hide KeepsEntry, LegalEntry, PublishedHistogram;
    HistogramPageIsRead(metric, entries);
    forall i | 0 <= i < |entries|
      ensures HistogramReading()(entries[i]) == HistogramMeaning()(entries[i])
    {
      KeepsEntryIff(metric, entries[i]);
    }
    AssemblePointwise(entries, entries, HistogramReading(), HistogramMeaning());
  }

  // ----- when a page of histogram lines is read back whatever its values and their order -----

  /** The line is kept whatever its value. */
  predicate Faithful(e: HistogramEntry) {
    match e
    case BucketEntry(before, bound, after, _) =>
      LegalBound(bound) && KeepsBound(before, bound) && FirstBraced(before + after).None?
    case CountEntry(labels, _) => FirstBraced(labels).None?
    case Foreign(_) => true
  }

  /** The same line up to its value. */
  predicate SameEntry(d: HistogramEntry, e: HistogramEntry) {
    match (d, e)
    case (BucketEntry(p, b, q, _), BucketEntry(r, c, s, v)) => p == r && b == c && q == s && Valid(v)
    case (CountEntry(l, _), CountEntry(m, v)) => l == m && Valid(v)
    case _ => d == e
  }

  predicate SameEntries(ds: seq<HistogramEntry>, es: seq<HistogramEntry>) {
    |ds| == |es| && forall i :: 0 <= i < |ds| ==> SameEntry(ds[i], es[i])
  }

  predicate Shuffled(ds: seq<HistogramEntry>, es: seq<HistogramEntry>) {
    multiset(ds) == multiset(es)
  }

  predicate Counted(entries: seq<HistogramEntry>) {
    exists e :: e in entries && e.CountEntry?
  }

  ghost predicate HistogramRoundTrips(metric: string, entries: seq<HistogramEntry>) {
    PublishedHistogram(metric, entries) == Finish(Assemble(entries, HistogramMeaning()))
  }

  lemma VariantsAreLegal(metric: string, entries: seq<HistogramEntry>, ds: seq<HistogramEntry>, es: seq<HistogramEntry>)
    requires LegalEntries(metric, entries) && SameEntries(entries, ds) && Shuffled(ds, es)
    ensures LegalEntries(metric, ds) && LegalEntries(metric, es)
    ensures Counted(es) <==> Counted(entries)
    ensures (forall e :: e in entries ==> Faithful(e)) ==> forall e :: e in es ==> KeepsEntry(e)
  {
    hide LegalLabels, Valid, NameToken, FirstBraced, KeepsBound;
    SameMembers(ds, es);
    forall e | e in ds
      ensures LegalEntry(metric, e) && exists d :: d in entries && SameEntry(d, e)
    {
      var i :| 0 <= i < |ds| && ds[i] == e;
      assert LegalEntry(metric, entries[i]) && SameEntry(entries[i], ds[i]);
    }
    assert |multiset(ds)| == |ds| && |multiset(es)| == |es|;
  }

  /** A number that no line is read as. */
  lemma {:induction false} FreshValue(entries: seq<HistogramEntry>) returns (n: nat)
    ensures forall e :: e in entries && HistogramReading()(e) != Ignored ==> HistogramReading()(e).value < n as real
    decreases |entries|
  {
    if entries == [] {
      n := 0;
    } else {
      hide HistogramReading;
      n := FreshValue(entries[1..]);
      var r := HistogramReading()(entries[0]);
      if r != Ignored && r.value >= n as real {
        n := r.value.Floor + 1;
      }
    }
  }

  function WithValue(e: HistogramEntry, v: Literal): HistogramEntry
    requires !e.Foreign?
  {
    e.(value := v)
  }

  /** An unfaithful line with a value of its own is not read as it was published. */
  lemma UnfaithfulMisreads(metric: string, e: HistogramEntry, n: nat)
    requires LegalEntry(metric, e) && !Faithful(e)
    requires HistogramReading()(e) != Ignored ==> HistogramReading()(e).value < n as real
    ensures !e.Foreign? && SameEntry(e, WithValue(e, NatLiteral(n)))
    ensures HistogramReading()(WithValue(e, NatLiteral(n))) != HistogramMeaning()(WithValue(e, NatLiteral(n)))
    ensures HistogramMeaning()(WithValue(e, NatLiteral(n))).value == n as real
    ensures HistogramMeaning()(WithValue(e, NatLiteral(n)))
            == if e.BucketEntry? then BucketSet(BoundOf(e.bound), n as real) else CountSet(n as real)
  {
    hide LegalLabels, Valid, Value, ReadField, ReadBound, NameCaptures, BoundOf, NameToken;
  }

  lemma EntriesAreLike(metric: string, entries: seq<HistogramEntry>)
    requires LegalEntries(metric, entries)
    ensures SameEntries(entries, entries)
  {
    hide LegalLabels, NameToken, Valid;
    forall i | 0 <= i < |entries|
      ensures SameEntry(entries[i], entries[i])
    {
      assert LegalEntry(metric, entries[i]);
    }
  }

  /** A page is misread if what one of its last lines means is read from no line. */
  lemma UnreadMeaningShows(es: seq<HistogramEntry>, e: HistogramEntry)
    requires es != [] && es[|es| - 1] == e && HistogramMeaning()(e) != Ignored && Counted(es)
    requires forall d :: d in es && d.CountEntry? ==> Valid(d.value)
    requires forall d :: d in es ==> HistogramReading()(d) != HistogramMeaning()(e)
    ensures Finish(Assemble(es, HistogramReading())) != Finish(Assemble(es, HistogramMeaning()))
  {
    hide HistogramReading, Valid, Value, BoundOf, LegalBound;
    var read, meant := HistogramReading(), HistogramMeaning();
    var a, m := Assemble(es, read), Assemble(es, meant);
    var d :| d in es && d.CountEntry?;
    LastCountLineWins(es, meant);
    assert meant(d).CountSet?;
    hide HistogramMeaning;
    match meant(e)
    case BucketSet(b, v) => LastBucketLineWins(es, read, b);
    case CountSet(v) => LastCountLineWins(es, read);
  }

  lemma CountValueIsValid(metric: string, e: HistogramEntry)
    requires LegalEntry(metric, e)
    ensures e.CountEntry? ==> Valid(e.value)
  {
  }

  /** A line that is not faithful spoils some order of the page, provided that it has a count line. */
  lemma UnfaithfulBreaksPage(metric: string, entries: seq<HistogramEntry>, i: nat)
    returns (ds: seq<HistogramEntry>, es: seq<HistogramEntry>)
    requires LegalName(metric) && LegalEntries(metric, entries) && Counted(entries)
    requires i < |entries| && !Faithful(entries[i])
    ensures SameEntries(entries, ds) && Shuffled(ds, es) && !HistogramRoundTrips(metric, es)
  {
    hide HistogramReading, HistogramMeaning, LegalName, Valid, Faithful, PublishedHistogram, Assemble;
    hide LegalEntry, Counted, SameEntry, NatLiteral, WithValue;
    var n := FreshValue(entries);
    assert LegalEntry(metric, entries[i]);
    UnfaithfulMisreads(metric, entries[i], n);
    var e := WithValue(entries[i], NatLiteral(n));
    ds := entries[i := e];
    es := MoveToEnd(ds, i);
    EntriesAreLike(metric, entries);
    MovedLineWins(ds, HistogramMeaning(), i);
    VariantsAreLegal(metric, entries, ds, es);
    HistogramPageIsRead(metric, es);
    SameMembers(ds, es);
    forall d | d in es
      ensures HistogramReading()(d) != HistogramMeaning()(e)
      ensures d.CountEntry? ==> Valid(d.value)
    {
      assert LegalEntry(metric, d) && (d == e || d in entries);
      CountValueIsValid(metric, d);
    }
    UnreadMeaningShows(es, e);
  }

  lemma UncountedIsNotFound(es: seq<HistogramEntry>)
    requires !Counted(es)
    ensures Finish(Assemble(es, HistogramReading())) == None == Finish(Assemble(es, HistogramMeaning()))
  {
    hide Valid, Value, LegalBound, BoundOf;
    assert forall i :: 0 <= i < |es| ==> es[i] in es && !es[i].CountEntry?;
    LastCountLineWins(es, HistogramReading());
    LastCountLineWins(es, HistogramMeaning());
  }

  /** A set of histogram lines is read back whatever their values and in whatever order they stand,
      exactly when there is no count line among them, so that nothing is found either way, or every
      line is faithful. */
  lemma HistogramPageRoundTripIff(metric: string, entries: seq<HistogramEntry>)
    requires LegalName(metric) && LegalEntries(metric, entries)
    ensures (forall ds, es :: SameEntries(entries, ds) && Shuffled(ds, es) ==> HistogramRoundTrips(metric, es))
            <==> (!Counted(entries) || forall e :: e in entries ==> Faithful(e))
  {
    hide PublishedHistogram, LegalName, LegalEntries, SameEntries, Shuffled, Faithful, KeepsEntry, Counted;
    hide HistogramReading, HistogramMeaning, Assemble;
    if !Counted(entries) || forall e :: e in entries ==> Faithful(e) {
      forall ds, es | SameEntries(entries, ds) && Shuffled(ds, es)
        ensures HistogramRoundTrips(metric, es)
      {
        VariantsAreLegal(metric, entries, ds, es);
        if Counted(entries) {
          HistogramPageRoundTrip(metric, es);
        } else {
          HistogramPageIsRead(metric, es);
          UncountedIsNotFound(es);
        }
      }
    } else {
      var e :| e in entries && !Faithful(e);
      var i :| 0 <= i < |entries| && entries[i] == e;
      var ds, es := UnfaithfulBreaksPage(metric, entries, i);
    }
  }

  // ----- instances -----

  /** Blanks between a name and its label block make the line unreadable. */
  lemma BlankBeforeBlockIsUnread(line: string, metric: string, gap: string, rest: string)
    requires LegalName(metric) && gap != "" && All(gap, IsSpace)
    ensures TrimSpace(line) == BucketName(metric) + (gap + "{" + rest) ==> EventOf(line, metric, ParseFloat) == Ignored
    ensures TrimSpace(line) == CountName(metric) + (gap + "{" + rest) ==> EventOf(line, metric, ParseFloat) == Ignored
    ensures TrimSpace(line) == metric + (gap + "{" + rest) ==> SampleOf(line, metric, ParseFloat) == None
  {
    hide ParseFloat, TrimSpace, EventOf, SampleOf;
    SuffixedNamesAreNames(metric);
    var r := gap + "{" + rest;
    if TrimSpace(line) == BucketName(metric) + r {
      EventOfBucketName(line, metric, r, ParseFloat);
    }
    if TrimSpace(line) == CountName(metric) + r {
      BlankedSampleIsUnread(line, CountName(metric), gap, rest);
      CountLineReads(line, metric, ParseFloat);
    }
    if TrimSpace(line) == metric + r {
      BlankedSampleIsUnread(line, metric, gap, rest);
    }
  }

  /** The histogram of a page that splits one metric by a further label depends on the order of
      its lines. */
  lemma SplitHistogramDependsOnOrder(metric: string, bound: BoundText, few: Literal, many: Literal, total: Literal)
    requires LegalName(metric) && LegalBound(bound)
    requires Valid(few) && Valid(many) && Valid(total) && Value(few) != Value(many)
    ensures var a := BucketLine(metric, [Label("pool", "a")], bound, [], few);
            var b := BucketLine(metric, [Label("pool", "b")], bound, [], many);
            var c := SampleLine(CountName(metric), [], total, None);
            !OrderIndependent([a, b, c], EventReader(metric, ParseFloat))
  {
    hide ParseFloat, EventOf, BucketLine, SampleLine, Valid, Value, BoundOf;
    var p, q := Label("pool", "a"), Label("pool", "b");
    assert !Captures(p) && !Captures(q) && !Braced(p) && !Braced(q);
    assert LegalLabels([p]) && LegalLabels([q]) && [p] + [] == [p] && [q] + [] == [q];
    assert FirstObscuring([p]).None? && FirstObscuring([q]).None?;
    assert FirstBraced([p]).None? && FirstBraced([q]).None?;
    BucketLineRoundTrip(metric, [p], bound, [], few);
    BucketLineRoundTrip(metric, [q], bound, [], many);
    HistogramEntryIsRead(metric, CountEntry([], total));
    var lines := [BucketLine(metric, [p], bound, [], few), BucketLine(metric, [q], bound, [], many),
                  SampleLine(CountName(metric), [], total, None)];
    var read := EventReader(metric, ParseFloat);
    assert !Agree(read(lines[0]), read(lines[1]));
    LastCountLineWins(lines, read);
    assert read(lines[2]).CountSet?;
    OrderIndependentIff(lines, read);
  }
}
