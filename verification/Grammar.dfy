/** Which lines the scrapers read, stated independently of how they read them, and what that
    implies for whole pages. */
module Grammar {
  import opened Text
  import opened Sums
  import opened Accumulate
  import opened Scrape

  // ----- the grammar of a sample line -----

  /** Empty, or `{…}` with no other `}` in it. */
  predicate IsLabelBlock(b: string) {
    b == "" || (|b| >= 2 && b[0] == '{' && b[|b| - 1] == '}' && '}' !in b[..|b| - 1])
  }

  /** The parts of a sample line behind the metric's name. */
  datatype Parts = Parts(labels: string, gap: string, field: string, tail: string)

  predicate WellFormed(p: Parts) {
    && IsLabelBlock(p.labels)
    && All(p.gap, IsSpace)
    && (p.labels == "" ==> p.gap != "" && (p.gap[0] == ' ' || p.gap[0] == '\t'))
    && p.field != "" && All(p.field, NotSpace)
    && (p.tail == "" || IsSpace(p.tail[0]))
  }

  predicate Spells(line: string, metric: string, p: Parts) {
    WellFormed(p) && TrimSpace(line) == metric + (p.labels + (p.gap + p.field + p.tail))
  }

  lemma ReadValueOfParts(p: Parts, parse: NumberReader)
    requires WellFormed(p)
    ensures ReadValue(p.labels + (p.gap + p.field + p.tail), parse) == parse(p.field)
  {
    hide FirstField;
    var r := p.gap + p.field + p.tail;
    var rest := p.labels + r;
    FirstFieldIs(p.gap, p.field, p.tail);
    if p.labels == "" {
      assert rest == r && rest[0] == p.gap[0];
    } else {
      var k := |p.labels| - 1;
      assert rest == p.labels[..k] + ['}'] + r;
      IndexByteIs(p.labels[..k], '}', r);
      assert rest[k + 1..] == r && rest[0] == '{';
    }
  }

  lemma PartsOfField(r: string) returns (gap: string, field: string, tail: string)
    requires FirstField(r).Some?
    ensures r == gap + field + tail && FirstField(r) == Some(field)
    ensures All(gap, IsSpace) && field != "" && All(field, NotSpace) && (tail == "" || IsSpace(tail[0]))
    ensures !IsSpace(r[0]) <==> gap == ""
  {
    var g := Span(r, IsSpace);
    var t := r[g..];
    var f := Span(t, NotSpace);
    gap, field, tail := r[..g], t[..f], t[f..];
  }

  lemma PartsOfValue(rest: string, parse: NumberReader) returns (p: Parts)
    requires rest != "" && EndsName(rest[0]) && ReadValue(rest, parse).Some?
    ensures WellFormed(p) && rest == p.labels + (p.gap + p.field + p.tail)
  {
    var r := AfterLabels(rest).value;
    var gap, field, tail := PartsOfField(r);
    var end := IndexByte(rest, '}');
    hide FirstField, ReadValue;
    if rest[0] == '{' {
      var labels := rest[..end + 1];
      assert labels[..|labels| - 1] == rest[..end];
      assert rest == labels + r;
      p := Parts(labels, gap, field, tail);
    } else {
      assert rest == "" + r;
      p := Parts("", gap, field, tail);
    }
  }

  lemma SpelledLineIsRead(line: string, metric: string, p: Parts, parse: NumberReader)
    requires metric != "" && metric[0] != '#'
    requires Spells(line, metric, p)
    ensures SampleOf(line, metric, parse) == parse(p.field)
  {
    var l := TrimSpace(line);
    var rest := p.labels + (p.gap + p.field + p.tail);
    assert l == metric + rest;
    assert l[0] == metric[0] && l[|metric|..] == rest;
    assert rest != "" && EndsName(rest[0]);
    ReadValueOfParts(p, parse);
  }

  /** A line is read as a sample of value `v` exactly when it spells one. */
  lemma SampleGrammar(line: string, metric: string, parse: NumberReader, v: real)
    requires metric != "" && metric[0] != '#'
    ensures SampleOf(line, metric, parse) == Some(v)
            <==> exists p :: Spells(line, metric, p) && parse(p.field) == Some(v)
  {
    var l := TrimSpace(line);
    if SampleOf(line, metric, parse) == Some(v) {
      var rest := l[|metric|..];
      assert l == metric + rest;
      var p := PartsOfValue(rest, parse);
      ReadValueOfParts(p, parse);
      assert Spells(line, metric, p) && parse(p.field) == Some(v);
    }
    if exists p :: Spells(line, metric, p) && parse(p.field) == Some(v) {
      var p :| Spells(line, metric, p) && parse(p.field) == Some(v);
      SpelledLineIsRead(line, metric, p, parse);
    }
  }

  // ----- the grammar of a bucket line -----

  /** The parts of a bucket line behind the name: what stands before, in and behind the quotes of the
      first `le="`, and what follows the block. */
  datatype BucketParts = BucketParts(before: string, le: string, after: string, gap: string, field: string, tail: string)

  function LabelsOf(p: BucketParts): string {
    p.before + LE + (p.le + ("\"" + p.after))
  }

  function BucketText(p: BucketParts): string {
    "{" + LabelsOf(p) + "}" + (p.gap + p.field + p.tail)
  }

  predicate WellFormedBucket(p: BucketParts) {
    && '}' !in LabelsOf(p) && '"' !in p.le
    && (forall j :: 0 <= j < |p.before| ==> !(LE <= LabelsOf(p)[j..]))
    && All(p.gap, IsSpace) && p.field != "" && All(p.field, NotSpace)
    && (p.tail == "" || IsSpace(p.tail[0]))
  }

  predicate SpellsBucket(line: string, metric: string, p: BucketParts) {
    WellFormedBucket(p) && TrimSpace(line) == BucketName(metric) + BucketText(p)
  }

  /** `+Inf` is the one bound that is not a number. */
  predicate SpellsBound(le: string, b: Bound, parse: NumberReader) {
    if le == "+Inf" then b == PosInf else b.Finite? && parse(le) == Some(b.value)
  }

  lemma QuotedPart(p: BucketParts)
    requires WellFormedBucket(p)
    ensures ExtractLabel(LabelsOf(p), "le") == Some(p.le)
  {
    var s := LabelsOf(p);
    assert s[|p.before|..] == LE + (p.le + ("\"" + p.after));
    IndexIs(s, LE, |p.before|);
    assert "le" + "=\"" == LE;
    var rest := s[|p.before| + 4..];
    assert rest == p.le + ['"'] + p.after;
    IndexByteIs(p.le, '"', p.after);
  }

  lemma NoBraceInside(p: BucketParts)
    requires WellFormedBucket(p)
    ensures '}' !in "{" + LabelsOf(p)
  {
    hide LabelsOf;
  }

  lemma BucketTextIsRead(p: BucketParts, parse: NumberReader, b: Bound, v: real)
    requires WellFormedBucket(p)
    ensures ParseBucketLine(BucketText(p), parse) == Some((b, v)) <==> SpellsBound(p.le, b, parse) && parse(p.field) == Some(v)
  {
    hide ExtractLabel, FirstField;
    QuotedPart(p);
    FirstFieldIs(p.gap, p.field, p.tail);
    hide LabelsOf, WellFormedBucket;
    var s, r := BucketText(p), p.gap + p.field + p.tail;
    assert s == ("{" + LabelsOf(p)) + ['}'] + r;
    assert '}' !in "{" + LabelsOf(p) by {
      NoBraceInside(p);
    }
    IndexByteIs("{" + LabelsOf(p), '}', r);
    assert s[1..|LabelsOf(p)| + 1] == LabelsOf(p) && s[|LabelsOf(p)| + 2..] == r;
  }

  lemma SplitAround(s: string, needle: string, i: nat)
    requires i + |needle| <= |s| && needle <= s[i..]
    ensures s == s[..i] + needle + s[i + |needle|..]
  {
  }

  lemma FirstNeedle(labels: string) returns (i: nat)
    requires ExtractLabel(labels, "le").Some?
    ensures i + 4 <= |labels| && LE <= labels[i..] && IndexByte(labels[i + 4..], '"') >= 0
    ensures forall j :: 0 <= j < i ==> !(LE <= labels[j..])
  {
    assert "le" + "=\"" == LE;
    i := Index(labels, LE);
  }

  lemma SplitAtQuote(s: string, q: nat)
    requires q < |s| && s[q] == '"'
    ensures s == s[..q] + ("\"" + s[q + 1..])
  {
  }

  lemma QuotedParts(labels: string) returns (before: string, le: string, after: string)
    requires ExtractLabel(labels, "le").Some?
    ensures labels == before + LE + (le + ("\"" + after)) && '"' !in le
    ensures forall j :: 0 <= j < |before| ==> !(LE <= labels[j..])
  {
    var i := FirstNeedle(labels);
    assert |LE| == 4;
    hide *;
    SplitAround(labels, LE, i);
    var tail := labels[i + |LE|..];
    var q := IndexByte(tail, '"');
    SplitAtQuote(tail, q);
    before, le, after := labels[..i], tail[..q], tail[q + 1..];
  }

  lemma PartsOfBucket(rest: string, parse: NumberReader) returns (p: BucketParts)
    requires ParseBucketLine(rest, parse).Some?
    ensures WellFormedBucket(p) && rest == BucketText(p)
  {
    hide ExtractLabel, FirstField;
    var end := IndexByte(rest, '}');
    var labels, r := rest[1..end], rest[end + 1..];
    var before, le, after := QuotedParts(labels);
    var gap, field, tail := PartsOfField(r);
    p := BucketParts(before, le, after, gap, field, tail);
    assert '}' !in labels by {
      assert forall i :: 0 <= i < |labels| ==> labels[i] == rest[..end][i + 1];
    }
    assert rest == "{" + labels + "}" + r;
  }

  lemma EventOfBucketName(line: string, metric: string, rest: string, parse: NumberReader)
    requires metric != "" && metric[0] != '#' && TrimSpace(line) == BucketName(metric) + rest
    ensures EventOf(line, metric, parse) == BucketEvent(rest, parse)
  {
    hide BucketEvent, CountEvent, TrimSpace;
    var l := TrimSpace(line);
    assert l[|BucketName(metric)|..] == rest;
    assert l[0] == metric[0];
  }

  lemma BucketNameOfEvent(line: string, metric: string, parse: NumberReader) returns (rest: string)
    requires EventOf(line, metric, parse).BucketSet?
    ensures TrimSpace(line) == BucketName(metric) + rest && EventOf(line, metric, parse) == BucketEvent(rest, parse)
  {
    hide BucketEvent, CountEvent, TrimSpace;
    rest := TrimSpace(line)[|BucketName(metric)|..];
  }

  lemma BucketEventIs(p: BucketParts, parse: NumberReader, b: Bound, v: real)
    requires WellFormedBucket(p)
    ensures BucketEvent(BucketText(p), parse) == BucketSet(b, v)
            <==> SpellsBound(p.le, b, parse) && parse(p.field) == Some(v)
  {
    hide ParseBucketLine, WellFormedBucket, SpellsBound;
    BucketTextIsRead(p, parse, b, v);
  }

  /** A line sets bucket `b` to `v` exactly when it spells that. */
  lemma BucketGrammar(line: string, metric: string, parse: NumberReader, b: Bound, v: real)
    requires metric != "" && metric[0] != '#'
    ensures EventOf(line, metric, parse) == BucketSet(b, v)
            <==> exists p :: SpellsBucket(line, metric, p) && SpellsBound(p.le, b, parse) && parse(p.field) == Some(v)
  {
    if EventOf(line, metric, parse) == BucketSet(b, v) {
      var rest := BucketNameOfEvent(line, metric, parse);
      var p := PartsOfBucket(rest, parse);
      hide EventOf, BucketEvent, ParseBucketLine, WellFormedBucket, SpellsBound, TrimSpace, BucketText;
      BucketEventIs(p, parse, b, v);
      assert SpellsBucket(line, metric, p);
    }
    if exists p :: SpellsBucket(line, metric, p) && SpellsBound(p.le, b, parse) && parse(p.field) == Some(v) {
      var p :| SpellsBucket(line, metric, p) && SpellsBound(p.le, b, parse) && parse(p.field) == Some(v);
      hide EventOf, BucketEvent, ParseBucketLine, WellFormedBucket, SpellsBound, TrimSpace, BucketText;
      BucketEventIs(p, parse, b, v);
      EventOfBucketName(line, metric, BucketText(p), parse);
    }
  }

  /** Comments and blank lines are read under no name at all. */
  lemma CommentsAreSkipped(line: string, metric: string, parse: NumberReader)
    requires TrimSpace(line) == "" || TrimSpace(line)[0] == '#'
    ensures SampleOf(line, metric, parse) == None && EventOf(line, metric, parse) == Ignored
  {
    hide TrimSpace, ReadValue, BucketEvent, CountEvent;
  }

  // ----- no line is read under two names -----

  predicate Heads(name: string, l: string) {
    name <= l && |name| < |l| && EndsName(l[|name|])
  }

  lemma NameTokenIs(line: string, name: string)
    requires Heads(name, TrimSpace(line)) && All(name, IsNameChar)
    ensures NameToken(line) == name
  {
    var l := TrimSpace(line);
    assert l[..|name|] == name;
    SpanIs(l, IsNameChar, |name|);
  }

  lemma SampleNamesItsMetric(line: string, metric: string, parse: NumberReader)
    requires LegalName(metric) && SampleOf(line, metric, parse).Some?
    ensures NameToken(line) == metric
  {
    var l := TrimSpace(line);
    assert l == metric + l[|metric|..];
    NameTokenIs(line, metric);
  }

  lemma EventIsOnItsName(line: string, metric: string, parse: NumberReader)
    ensures var l := TrimSpace(line);
            match EventOf(line, metric, parse)
            case Ignored => true
            case BucketSet(_, _) => Heads(BucketName(metric), l)
            case CountSet(_) => Heads(CountName(metric), l)
  {
  }

  lemma SuffixedNamesAreNames(metric: string)
    requires LegalName(metric)
    ensures All(BucketName(metric), IsNameChar) && All(CountName(metric), IsNameChar)
  {
  }

  lemma EventNamesItsMetric(line: string, metric: string, parse: NumberReader)
    requires LegalName(metric)
    ensures EventOf(line, metric, parse).BucketSet? ==> NameToken(line) == BucketName(metric)
    ensures EventOf(line, metric, parse).CountSet? ==> NameToken(line) == CountName(metric)
  {
    EventIsOnItsName(line, metric, parse);
    SuffixedNamesAreNames(metric);
    var e, b, c := EventOf(line, metric, parse), BucketName(metric), CountName(metric);
    if e.BucketSet? {
      NameTokenIs(line, b);
    } else if e.CountSet? {
      NameTokenIs(line, c);
    }
  }

  lemma SuffixDecides(m: string, n: string)
    ensures BucketName(m) == BucketName(n) ==> m == n
    ensures CountName(m) == CountName(n) ==> m == n
    ensures BucketName(m) != CountName(n)
  {
    var b, c := BucketName(m), CountName(n);
    assert b[..|m|] == m && CountName(m)[..|m|] == m && BucketName(n)[..|n|] == n && c[..|n|] == n;
    assert b[|b| - 2] == 'e' && c[|c| - 2] == 'n';
  }

  /** No line contributes to two different metrics, nor to two different histograms in any role. */
  lemma NameSeparation(line: string, m: string, n: string, parse: NumberReader)
    requires LegalName(m) && LegalName(n)
    ensures SampleOf(line, m, parse).Some? && SampleOf(line, n, parse).Some? ==> m == n
    ensures EventOf(line, m, parse) != Ignored && EventOf(line, n, parse) != Ignored ==> m == n
  {
    if SampleOf(line, m, parse).Some? && SampleOf(line, n, parse).Some? {
      SampleNamesItsMetric(line, m, parse);
      SampleNamesItsMetric(line, n, parse);
    }
    EventNamesItsMetric(line, m, parse);
    EventNamesItsMetric(line, n, parse);
    SuffixDecides(m, n);
    SuffixDecides(n, m);
  }

  /** The histogram's count is what parseMetric reads from the same line. */
  lemma CountLineIsSample(line: string, metric: string, parse: NumberReader, v: real)
    ensures EventOf(line, metric, parse) == CountSet(v) <==> SampleOf(line, CountName(metric), parse) == Some(v)
  {
    var l := TrimSpace(line);
    var b, c := BucketName(metric), CountName(metric);
    if b <= l && c <= l {
      assert l[|metric| + 1] == b[|metric| + 1] && l[|metric| + 1] == c[|metric| + 1];
    }
  }

  lemma CountPrefixIsNoBucket(line: string, metric: string, parse: NumberReader)
    requires CountName(metric) <= TrimSpace(line)
    ensures !EventOf(line, metric, parse).BucketSet?
  {
    hide TrimSpace, BucketEvent, CountEvent;
    var l, b, c := TrimSpace(line), BucketName(metric), CountName(metric);
    assert l[|metric| + 1] == c[|metric| + 1] != b[|metric| + 1];
  }

  lemma CountLineReads(line: string, metric: string, parse: NumberReader)
    ensures SampleOf(line, CountName(metric), parse).Some? ==>
              EventOf(line, metric, parse) == CountSet(SampleOf(line, CountName(metric), parse).value)
    ensures SampleOf(line, CountName(metric), parse).None? ==> !EventOf(line, metric, parse).CountSet?
    ensures CountName(metric) <= TrimSpace(line) ==> !EventOf(line, metric, parse).BucketSet?
  {
    hide EventOf, SampleOf;
    if SampleOf(line, CountName(metric), parse).Some? {
      CountLineIsSample(line, metric, parse, SampleOf(line, CountName(metric), parse).value);
    } else if EventOf(line, metric, parse).CountSet? {
      CountLineIsSample(line, metric, parse, EventOf(line, metric, parse).value);
    }
    if CountName(metric) <= TrimSpace(line) {
      CountPrefixIsNoBucket(line, metric, parse);
    }
  }

  // ----- whole pages -----

  /** The lines that begin with exactly this name. */
  function Own(lines: seq<string>, names: set<string>): seq<string> {
    if lines == [] then []
    else
      var init, last := lines[..|lines| - 1], lines[|lines| - 1];
      if NameToken(last) in names then Own(init, names) + [last] else Own(init, names)
  }

  /** Everything but the metric's own lines can be dropped from a page. */
  lemma {:induction false} ForeignLinesDoNotMatter(lines: seq<string>, metric: string, parse: NumberReader)
    requires LegalName(metric)
    ensures MetricOf(Own(lines, {metric}), metric, parse) == MetricOf(lines, metric, parse)
    decreases |lines|
  {
    if lines != [] {
      var init, last := lines[..|lines| - 1], lines[|lines| - 1];
      ForeignLinesDoNotMatter(init, metric, parse);
      if NameToken(last) == metric {
        assert (Own(init, {metric}) + [last])[..|Own(init, {metric})|] == Own(init, {metric});
      } else if SampleOf(last, metric, parse).Some? {
        SampleNamesItsMetric(last, metric, parse);
      }
    }
  }

  lemma {:induction false} ForeignLinesDoNotMatterToHistograms(lines: seq<string>, metric: string, parse: NumberReader)
    requires LegalName(metric)
    ensures Assemble(Own(lines, {BucketName(metric), CountName(metric)}), EventReader(metric, parse))
            == Assemble(lines, EventReader(metric, parse))
    decreases |lines|
  {
    if lines != [] {
      var names := {BucketName(metric), CountName(metric)};
      var init, last := lines[..|lines| - 1], lines[|lines| - 1];
      ForeignLinesDoNotMatterToHistograms(init, metric, parse);
      if NameToken(last) in names {
        assert (Own(init, names) + [last])[..|Own(init, names)|] == Own(init, names);
      } else {
        EventNamesItsMetric(last, metric, parse);
      }
    }
  }

  /** Pages joined by a newline add up. */
  lemma PagesAddUp(p: string, q: string, metric: string, parse: NumberReader)
    ensures MetricOf(Split(p + "\n" + q, '\n'), metric, parse)
            == Add(MetricOf(Split(p, '\n'), metric, parse), MetricOf(Split(q, '\n'), metric, parse))
  {
    SplitConcat(p, '\n', q);
    TallyConcat(Split(p, '\n'), Split(q, '\n'), SampleReader(metric, parse));
  }

  /** The metric is the sum over the page's samples, whatever their order. */
  lemma MetricIsSumInAnyOrder(lines: seq<string>, shuffled: seq<string>, metric: string, parse: NumberReader)
    requires multiset(lines) == multiset(shuffled)
    ensures MetricOf(shuffled, metric, parse) == MetricOf(lines, metric, parse)
    ensures MetricOf(lines, metric, parse).Some? <==> exists l :: l in lines && SampleOf(l, metric, parse).Some?
    ensures MetricOf(lines, metric, parse).Some? ==>
              MetricOf(lines, metric, parse).value == Total(lines, Contribution(SampleReader(metric, parse)))
  {
    TallyPermutation(lines, shuffled, SampleReader(metric, parse));
    TallyIsSum(lines, SampleReader(metric, parse));
  }

  /** Where parseMetric sums, parseHistogram keeps the last value: shuffling a page never changes
      the histogram exactly when it has no count line or no two lines disagree. */
  lemma HistogramInAnyOrderIff(lines: seq<string>, metric: string, parse: NumberReader)
    ensures OrderIndependent(lines, EventReader(metric, parse))
            <==> (HistogramOf(lines, metric, parse).None? || Consistent(lines, EventReader(metric, parse)))
  {
    OrderIndependentIff(lines, EventReader(metric, parse));
  }
}
