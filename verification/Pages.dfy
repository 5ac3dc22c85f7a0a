/** Whole rendered pages: what is published is what is scraped. */
module Pages {
  import opened Text
  import opened Decimal
  import opened Sums
  import opened Accumulate
  import opened Scrape
  import opened Grammar
  import opened Labels
  import opened Exposition

  // ----- rendering any kind of entry, one per line -----

  function Map<T, U>(xs: seq<T>, f: T -> U): (ys: seq<U>)
    ensures |ys| == |xs| && forall i :: 0 <= i < |xs| ==> ys[i] == f(xs[i])
  {
    if xs == [] then [] else Map(xs[..|xs| - 1], f) + [f(xs[|xs| - 1])]
  }

  function Page<T>(entries: seq<T>, render: T -> string): string {
    Join(Map(entries, render), '\n')
  }

  lemma {:induction false} TallyOfMap<T, U>(xs: seq<T>, f: T -> U, read: U -> Option<real>, meant: T -> Option<real>)
    requires forall x :: x in xs ==> read(f(x)) == meant(x)
    ensures Tally(Map(xs, f), read) == Tally(xs, meant)
    decreases |xs|
  {
    if xs != [] {
      var init, last := xs[..|xs| - 1], xs[|xs| - 1];
      TallyOfMap(init, f, read, meant);
      assert Map(xs, f)[..|xs| - 1] == Map(init, f);
      assert last in xs;
    }
  }

  lemma SplitPage<T>(entries: seq<T>, render: T -> string)
    requires entries != [] && forall e :: e in entries ==> '\n' !in render(e)
    ensures Split(Page(entries, render), '\n') == Map(entries, render)
  {
    var lines := Map(entries, render);
    forall p | p in lines
      ensures '\n' !in p
    {
      var i :| 0 <= i < |lines| && lines[i] == p;
      assert entries[i] in entries;
    }
    SplitJoin(lines, '\n');
  }

  // ----- sample lines -----

  function LabelBlock(ls: seq<Label>): string {
    if ls == [] then "" else "{" + (LabelText(ls[0]) + After(ls[1..])) + "}"
  }

  lemma NameHasNoNewline(l: Label)
    requires LegalLabel(l)
    ensures '\n' !in LabelText(l)
  {
  }

  lemma LabelBlockHasNoNewline(ls: seq<Label>)
    requires LegalLabels(ls)
    ensures '\n' !in LabelBlock(ls)
  {
    if ls != [] {
      assert LegalLabel(ls[0]);
      AfterHasNoNewline(ls[1..]);
      NameHasNoNewline(ls[0]);
      hide After;
    }
  }

  lemma BlockTextIsCut(ls: seq<Label>)
    requires LegalLabels(ls) && ls != []
    ensures var text := LabelText(ls[0]) + After(ls[1..]);
            match FirstBraced(ls) case None => '}' !in text case Some(l) => CutIn(text, l)
  {
    hide LabelText, FirstBraced, Suffix;
    var text := LabelText(ls[0]) + After(ls[1..]);
    AfterIsCut(ls);
    assert After(ls) == "," + text;
    assert After(ls)[1..] == text && After(ls)[0] == ',';
  }

  /** A blank, the value and possibly a timestamp. */
  function ValueText(value: Literal, stamp: Option<Literal>): string {
    " " + ToText(value) + if stamp.Some? then " " + ToText(stamp.value) else ""
  }

  lemma ValueTextShape(value: Literal, stamp: Option<Literal>)
    requires Valid(value) && (stamp.Some? ==> Valid(stamp.value))
    ensures var v := ValueText(value, stamp); |v| > 1 && !IsSpace(v[|v| - 1]) && '\n' !in v
  {
    hide ToText, Valid;
    LiteralIsPlain(value);
    if stamp.Some? {
      LiteralIsPlain(stamp.value);
    }
  }

  lemma RenderedLineIsTrimmed(name: string, block: string, value: Literal, stamp: Option<Literal>)
    requires LegalName(name) && Valid(value) && (stamp.Some? ==> Valid(stamp.value))
    ensures var l := name + (block + ValueText(value, stamp)); TrimSpace(l) == l
  {
    hide ToText, Valid, ValueText, TrimSpace;
    ValueTextShape(value, stamp);
    TrimSpaceIdentity(name + (block + ValueText(value, stamp)));
  }

  function SampleLine(name: string, labels: seq<Label>, value: Literal, stamp: Option<Literal>): string {
    name + (LabelBlock(labels) + ValueText(value, stamp))
  }

  lemma SampleOfRendered(line: string, name: string, rest: string)
    requires LegalName(name) && TrimSpace(line) == name + rest
    requires rest != "" && EndsName(rest[0])
    ensures SampleOf(line, name, ParseFloat) == ReadValue(rest, ParseFloat)
  {
    hide TrimSpace, ReadValue, ParseFloat;
    var l := TrimSpace(line);
    assert l[0] == name[0] && l[|name|..] == rest;
  }

  lemma BlockOf(ls: seq<Label>)
    ensures LabelBlock(ls) == if ls == [] then "" else "{" + (LabelText(ls[0]) + After(ls[1..])) + "}"
  {
  }

  lemma ReadBehindBlock(text: string, tail: string)
    ensures ReadValue("{" + text + "}" + tail, ParseFloat) == ReadField(BehindBrace(text, tail), ParseFloat)
  {
    hide ReadField, ParseFloat, BehindBrace;
    BlockEndsAtBrace(text, tail);
  }

  lemma ReadValueOfBlock(ls: seq<Label>, value: Literal, stamp: Option<Literal>)
    requires LegalLabels(ls) && Valid(value)
    ensures ReadValue(LabelBlock(ls) + ValueText(value, stamp), ParseFloat) == ValueRead(ls, value)
  {
    hide ToText, Valid, Value, LabelText, After, CutIn, ReadField, ParseFloat, ValueRead, LegalLabels, LabelBlock;
    var more := if stamp.Some? then " " + ToText(stamp.value) else "";
    var tail := ValueText(value, stamp);
    assert tail == " " + ToText(value) + more;
    if ls == [] {
      BlockOf(ls);
      assert "" + tail == tail && BehindBrace("", tail) == tail;
      ValueBehind("", ls, value, more);
    } else {
      var text := LabelText(ls[0]) + After(ls[1..]);
      BlockTextIsCut(ls);
      BlockOf(ls);
      ReadBehindBlock(text, tail);
      ValueBehind(text, ls, value, more);
    }
  }

  /** What parseMetric reads from a rendered sample with any legal labels. */
  lemma SampleLineIsRead(name: string, labels: seq<Label>, value: Literal, stamp: Option<Literal>)
    requires LegalName(name) && LegalLabels(labels)
    requires Valid(value) && (stamp.Some? ==> Valid(stamp.value))
    ensures SampleOf(SampleLine(name, labels, value, stamp), name, ParseFloat) == ValueRead(labels, value)
    ensures '\n' !in SampleLine(name, labels, value, stamp)
  {
    hide SampleOf, ReadValue, ValueRead, ParseFloat, ToText, Value, Valid, TrimSpace;
    LabelBlockHasNoNewline(labels);
    RenderedLineIsTrimmed(name, LabelBlock(labels), value, stamp);
    ValueTextShape(value, stamp);
    ReadValueOfBlock(labels, value, stamp);
    SampleOfRendered(SampleLine(name, labels, value, stamp), name, LabelBlock(labels) + ValueText(value, stamp));
  }

  /** Round trip on one line: the sample is read back exactly when no label value holds a brace, or
      the first one that does happens to have the same number behind its brace. */
  lemma SampleRoundTripIff(name: string, labels: seq<Label>, value: Literal, stamp: Option<Literal>)
    requires LegalName(name) && LegalLabels(labels)
    requires Valid(value) && (stamp.Some? ==> Valid(stamp.value))
    ensures SampleOf(SampleLine(name, labels, value, stamp), name, ParseFloat) == Some(Value(value))
            <==> KeepsValue(labels, value)
  {
    hide SampleOf, SampleLine, ParseFloat, ReadField, Value, Valid;
    SampleLineIsRead(name, labels, value, stamp);
  }

  /** A label such as `path="/users/{id}"` makes parseMetric pass the sample over. */
  lemma BraceDropsSample(name: string, labels: seq<Label>, value: Literal, stamp: Option<Literal>)
    requires LegalName(name) && LegalLabels(labels) && DropsNumber(labels)
    requires Valid(value) && (stamp.Some? ==> Valid(stamp.value))
    ensures SampleOf(SampleLine(name, labels, value, stamp), name, ParseFloat) == None
  {
    hide SampleOf, SampleLine, ParseFloat, ValueRead, DropsNumber, Valid;
    SampleLineIsRead(name, labels, value, stamp);
    DropsNumberIs(labels, value);
  }

  // ----- pages of samples -----

  datatype SampleEntry =
    | Sample(labels: seq<Label>, value: Literal, stamp: Option<Literal>)
    | Other(text: string)

  /** `Other` is any line that does not begin with the metric's name: a comment, a blank, another metric. */
  predicate LegalSample(name: string, e: SampleEntry) {
    match e
    case Sample(labels, value, stamp) =>
      LegalLabels(labels) && Valid(value) && (stamp.Some? ==> Valid(stamp.value))
    case Other(text) => '\n' !in text && NameToken(text) != name
  }

  predicate LegalSamples(name: string, entries: seq<SampleEntry>) {
    entries != [] && forall e :: e in entries ==> LegalSample(name, e)
  }

  function SampleRenderer(name: string): SampleEntry -> string {
    (e: SampleEntry) => match e
         case Sample(labels, value, stamp) => SampleLine(name, labels, value, stamp)
         case Other(text) => text
  }

  /** What was published. */
  function SampleMeaning(): SampleEntry -> Option<real> {
    (e: SampleEntry) => if e.Sample? && Valid(e.value) then Some(Value(e.value)) else None
  }

  /** What is read. */
  function SampleReading(): SampleEntry -> Option<real> {
    (e: SampleEntry) => if e.Sample? && Valid(e.value) then ValueRead(e.labels, e.value) else None
  }

  predicate KeepsSample(e: SampleEntry) {
    e.Sample? ==> Valid(e.value) && KeepsValue(e.labels, e.value)
  }

  function PublishedMetric(name: string, entries: seq<SampleEntry>): Option<real> {
    MetricOf(Split(Page(entries, SampleRenderer(name)), '\n'), name, ParseFloat)
  }

  /** parseMetric on any rendered page, whatever stands between the samples. */
  lemma MetricPageIsRead(name: string, entries: seq<SampleEntry>)
    requires LegalName(name) && LegalSamples(name, entries)
    ensures PublishedMetric(name, entries) == Tally(entries, SampleReading())
  {
    hide SampleOf, ParseFloat, SampleLine, ValueRead, Valid, NameToken, Page;
    forall e | e in entries
      ensures SampleOf(SampleRenderer(name)(e), name, ParseFloat) == SampleReading()(e)
      ensures '\n' !in SampleRenderer(name)(e)
    {
      assert LegalSample(name, e);
      match e
      case Sample(labels, value, stamp) => SampleLineIsRead(name, labels, value, stamp);
      case Other(text) =>
        if SampleOf(text, name, ParseFloat).Some? {
          SampleNamesItsMetric(text, name, ParseFloat);
        }
    }
    SplitPage(entries, SampleRenderer(name));
    TallyOfMap(entries, SampleRenderer(name), SampleReader(name, ParseFloat), SampleReading());
  }

  lemma {:induction false} TallyPointwise<T>(xs: seq<T>, ys: seq<T>, f: T -> Option<real>, g: T -> Option<real>)
    requires |xs| == |ys| && forall i :: 0 <= i < |xs| ==> f(xs[i]) == g(ys[i])
    ensures Tally(xs, f) == Tally(ys, g)
    decreases |xs|
  {
    if xs != [] {
      TallyPointwise(xs[..|xs| - 1], ys[..|ys| - 1], f, g);
    }
  }

  /** parseMetric inverts the renderer on every page whose samples are kept. */
  lemma MetricPageRoundTrip(name: string, entries: seq<SampleEntry>)
    requires LegalName(name) && LegalSamples(name, entries)
    requires forall e :: e in entries ==> KeepsSample(e)
    ensures PublishedMetric(name, entries) == Tally(entries, SampleMeaning())
  {
    hide ParseFloat, Value, Valid, ReadField, PublishedMetric, LegalSamples;
    MetricPageIsRead(name, entries);
    forall i | 0 <= i < |entries|
      ensures SampleReading()(entries[i]) == SampleMeaning()(entries[i])
    {
      assert KeepsSample(entries[i]);
    }
    TallyPointwise(entries, entries, SampleReading(), SampleMeaning());
  }

  /** The same line up to its value. */
  predicate SameSample(d: SampleEntry, e: SampleEntry) {
    match (d, e)
    case (Sample(l, _, s), Sample(m, v, t)) => l == m && s == t && Valid(v)
    case _ => d == e
  }

  predicate SameSamples(ds: seq<SampleEntry>, es: seq<SampleEntry>) {
    |ds| == |es| && forall i :: 0 <= i < |ds| ==> SameSample(ds[i], es[i])
  }

  ghost predicate MetricRoundTrips(name: string, entries: seq<SampleEntry>) {
    PublishedMetric(name, entries) == Tally(entries, SampleMeaning())
  }

  lemma SameSamplesAreLegal(name: string, entries: seq<SampleEntry>, es: seq<SampleEntry>)
    requires LegalSamples(name, entries) && SameSamples(entries, es)
    ensures LegalSamples(name, es)
  {
    hide LegalLabels, Valid, NameToken;
    forall e | e in es
      ensures LegalSample(name, e)
    {
      var i :| 0 <= i < |es| && es[i] == e;
      assert LegalSample(name, entries[i]) && SameSample(entries[i], es[i]);
    }
  }

  lemma UnbracedSamplesAreKept(name: string, entries: seq<SampleEntry>, es: seq<SampleEntry>)
    requires forall e :: e in entries && e.Sample? ==> FirstBraced(e.labels).None?
    requires SameSamples(entries, es) && LegalSamples(name, es)
    ensures forall e :: e in es ==> KeepsSample(e)
  {
    hide FirstBraced, Valid;
    forall e | e in es
      ensures KeepsSample(e)
    {
      assert LegalSample(name, e);
      var i :| 0 <= i < |es| && es[i] == e;
      assert entries[i] in entries && SameSample(entries[i], es[i]);
    }
  }

  /** The value of a braced sample is not read, so it can be chosen to make the sum wrong. */
  lemma BracedSampleBreaksPage(name: string, entries: seq<SampleEntry>, i: nat) returns (es: seq<SampleEntry>)
    requires LegalName(name) && LegalSamples(name, entries)
    requires i < |entries| && entries[i].Sample? && FirstBraced(entries[i].labels).Some?
    ensures SameSamples(entries, es) && !MetricRoundTrips(name, es)
  {
    hide PublishedMetric, LegalName, Valid, Value, Tally, ReadField;
    assert LegalSample(name, entries[i]);
    var v := entries[i].value;
    var n := if Value(v) == 0.0 then 1 else 0;
    var changed := entries[i := entries[i].(value := NatLiteral(n))];
    assert forall k :: 0 <= k < |entries| ==> LegalSample(name, entries[k]);
    assert SameSamples(entries, changed) && SameSamples(entries, entries);
    SameSamplesAreLegal(name, entries, changed);
    MetricPageIsRead(name, entries);
    MetricPageIsRead(name, changed);
    TallyPointwise(entries, changed, SampleReading(), SampleReading());
    TallyIsSum(entries, SampleMeaning());
    TallyIsSum(changed, SampleMeaning());
    TotalUpdate(entries, i, changed[i], Contribution(SampleMeaning()));
    assert entries[i] in entries && changed[i] in changed;
    es := if MetricRoundTrips(name, entries) then changed else entries;
  }

  /** A set of sample lines is summed correctly whatever their values, exactly when no label value
      holds a brace. */
  lemma MetricPageRoundTripIff(name: string, entries: seq<SampleEntry>)
    requires LegalName(name) && LegalSamples(name, entries)
    ensures (forall es :: SameSamples(entries, es) ==> MetricRoundTrips(name, es))
            <==> forall e :: e in entries && e.Sample? ==> FirstBraced(e.labels).None?
  {
    hide PublishedMetric, LegalName, LegalSamples, SameSamples, FirstBraced, Valid, Value, Tally;
    if forall e :: e in entries && e.Sample? ==> FirstBraced(e.labels).None? {
      forall es | SameSamples(entries, es)
        ensures MetricRoundTrips(name, es)
      {
        SameSamplesAreLegal(name, entries, es);
        UnbracedSamplesAreKept(name, entries, es);
        MetricPageRoundTrip(name, es);
      }
    } else {
      var e :| e in entries && e.Sample? && FirstBraced(e.labels).Some?;
      var i :| 0 <= i < |entries| && entries[i] == e;
      var es := BracedSampleBreaksPage(name, entries, i);
    }
  }

  /** Two samples of one metric are added, not reduced to the first. */
  lemma TwoSamplesAdd(name: string, p: Label, q: Label, a: Literal, b: Literal)
    requires LegalName(name) && LegalLabels([p, q]) && Valid(a) && Valid(b)
    ensures PublishedMetric(name, [Sample([p], a, None), Sample([q], b, None)])
            == Add(ValueRead([p], a), ValueRead([q], b))
    ensures !Braced(p) && !Braced(q) ==>
              PublishedMetric(name, [Sample([p], a, None), Sample([q], b, None)]) == Some(Value(a) + Value(b))
  {
    hide ParseFloat, Value, Valid, ReadField, PublishedMetric;
    assert LegalLabel([p, q][0]) && LegalLabel([p, q][1]);
    var entries := [Sample([p], a, None), Sample([q], b, None)];
    MetricPageIsRead(name, entries);
    TallySnoc(entries, 0, SampleReading());
    TallySnoc(entries, 1, SampleReading());
    assert entries[..0] == [] && entries[..2] == entries;
    assert FirstBraced([p]) == if Braced(p) then Some(p) else None;
    assert FirstBraced([q]) == if Braced(q) then Some(q) else None;
  }

  lemma BraceIsNoField(gap: string, rest: string)
    requires All(gap, IsSpace)
    ensures ReadField(gap + "{" + rest, ParseFloat) == None
  {
    hide ParseFloat;
    var r := gap + "{" + rest;
    assert r[..|gap|] == gap && r[|gap|] == '{';
    SpanIs(r, IsSpace, |gap|);
    var f := FirstField(r).value;
    assert f[0] == '{';
    if ParseFloat(f).Some? {
      ParseFloatReadsOnlyPlainText(f);
    }
  }

  lemma BlankedSampleIsUnread(line: string, name: string, gap: string, rest: string)
    requires LegalName(name) && gap != "" && All(gap, IsSpace)
    requires TrimSpace(line) == name + (gap + "{" + rest)
    ensures SampleOf(line, name, ParseFloat) == None
  {
    hide ParseFloat, TrimSpace;
    assert TrimSpace(line)[|name|..] == gap + "{" + rest;
    BraceIsNoField(gap, rest);
  }
}
