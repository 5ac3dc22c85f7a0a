/** internal/wclient: reading one metric or one histogram out of a Prometheus text page.
    Everything here holds for any reader of numbers; `Exposition` plugs in Decimal.ParseFloat. */
module Scrape {
  import opened Text
  import opened Accumulate
  import Decimal

  /** strconv.ParseFloat, or anything of its type; `None` is an error. */
  type NumberReader = string -> Option<real>

  // ----- one line -----

  predicate IsNameChar(c: char) {
    'a' <= c <= 'z' || 'A' <= c <= 'Z' || Decimal.IsDigit(c) || c == '_' || c == ':'
  }

  predicate LegalName(m: string) {
    m != "" && All(m, IsNameChar) && !Decimal.IsDigit(m[0])
  }

  /** The longest run of name characters a line begins with. */
  function NameToken(line: string): string {
    var l := TrimSpace(line);
    l[..Span(l, IsNameChar)]
  }

  predicate EndsName(c: char) {
    c == ' ' || c == '\t' || c == '{'
  }

  predicate Skipped(line: string) {
    line == "" || line[0] == '#'
  }

  /** What is left of `rest` behind an optional `{…}` block; `None` if the block never closes. */
  function AfterLabels(rest: string): Option<string> {
    if !("{" <= rest) then Some(rest)
    else if IndexByte(rest, '}') < 0 then None
    else Some(rest[IndexByte(rest, '}') + 1..])
  }

  function ReadField(rest: string, parse: NumberReader): Option<real> {
    match FirstField(rest)
    case None => None
    case Some(f) => parse(f)
  }

  /** The number that follows a metric's name and its optional labels. */
  function ReadValue(rest: string, parse: NumberReader): Option<real> {
    match AfterLabels(rest)
    case None => None
    case Some(r) => ReadField(r, parse)
  }

  /** The sample of `metric` that one line of a page carries, if any. */
  function SampleOf(line: string, metric: string, parse: NumberReader): Option<real> {
    var l := TrimSpace(line);
    if Skipped(l) || !(metric <= l) then None else
    var rest := l[|metric|..];
    if rest != "" && !EndsName(rest[0]) then None else ReadValue(rest, parse)
  }

  function Quoted(tail: string): Option<string> {
    var end := IndexByte(tail, '"');
    if end < 0 then None else Some(tail[..end])
  }

  function QuotedAfter(labels: string, needle: string): Option<string> {
    var idx := Index(labels, needle);
    if idx < 0 then None else Quoted(labels[idx + |needle|..])
  }

  const LE := "le=\""

  function ExtractLabel(labels: string, key: string): Option<string> {
    QuotedAfter(labels, key + "=\"")
  }

  function ReadBound(le: string, parse: NumberReader): Option<Bound> {
    if le == "+Inf" then Some(PosInf)
    else match parse(le)
         case None => None
         case Some(v) => Some(Finite(v))
  }

  function ParseBucketLine(rest: string, parse: NumberReader): Option<(Bound, real)> {
    if !("{" <= rest) then None else
    var end := IndexByte(rest, '}');
    if end < 0 then None else
    match ExtractLabel(rest[1..end], "le")
    case None => None
    case Some(le) =>
      match (ReadBound(le, parse), ReadField(rest[end + 1..], parse))
      case (Some(b), Some(v)) => Some((b, v))
      case _ => None
  }

  function BucketName(metric: string): string { metric + "_bucket" }

  function CountName(metric: string): string { metric + "_count" }

  /** `rest` is what follows `<metric>_bucket`. */
  function BucketEvent(rest: string, parse: NumberReader): (e: Event)
    ensures !e.CountSet?
  {
    if rest == "" || !EndsName(rest[0]) then Ignored
    else match ParseBucketLine(rest, parse)
         case None => Ignored
         case Some((b, v)) => BucketSet(b, v)
  }

  /** `rest` is what follows `<metric>_count`. */
  function CountEvent(rest: string, parse: NumberReader): (e: Event)
    ensures !e.BucketSet?
  {
    if rest == "" || !EndsName(rest[0]) then Ignored
    else match ReadValue(rest, parse)
         case None => Ignored
         case Some(v) => CountSet(v)
  }

  function EventOf(line: string, metric: string, parse: NumberReader): Event {
    var l := TrimSpace(line);
    if Skipped(l) then Ignored
    else if BucketName(metric) <= l then BucketEvent(l[|BucketName(metric)|..], parse)
    else if CountName(metric) <= l then CountEvent(l[|CountName(metric)|..], parse)
    else Ignored
  }

  // ----- parseMetric -----

  function SampleReader(metric: string, parse: NumberReader): string -> Option<real> {
    line => SampleOf(line, metric, parse)
  }

  function EventReader(metric: string, parse: NumberReader): string -> Event {
    line => EventOf(line, metric, parse)
  }

  /** The sum of every sample of the metric, `None` (ErrMetricNotFound) when there is none. */
  function MetricOf(lines: seq<string>, metric: string, parse: NumberReader): Option<real> {
    Tally(lines, SampleReader(metric, parse))
  }

  lemma MetricOfSnoc(lines: seq<string>, i: nat, metric: string, parse: NumberReader)
    requires i < |lines|
    ensures MetricOf(lines[..i + 1], metric, parse)
            == Add(MetricOf(lines[..i], metric, parse), SampleOf(lines[i], metric, parse))
  {
    TallySnoc(lines, i, SampleReader(metric, parse));
  }

  method ParseMetric(body: string, metric: string, parse: NumberReader) returns (r: Option<real>)
    ensures r == MetricOf(Split(body, '\n'), metric, parse)
  {
    hide ReadValue, TrimSpace;
    var total, found := 0.0, false;
    var lines := Split(body, '\n');
    for i := 0 to |lines|
      invariant MetricOf(lines[..i], metric, parse) == if found then Some(total) else None
      invariant !found ==> total == 0.0
    {
      MetricOfSnoc(lines, i, metric, parse);
      var line := TrimSpace(lines[i]);
      if line == "" || line[0] == '#' {
        continue;
      }
      if !(metric <= line) {
        continue;
      }
      var rest := line[|metric|..];
      if rest != "" && rest[0] != ' ' && rest[0] != '{' && rest[0] != '\t' {
        continue;
      }
      var v := ReadValue(rest, parse);
      if v.None? {
        continue;
      }
      total := total + v.value;
      found := true;
    }
    assert lines[..|lines|] == lines;
    r := if found then Some(total) else None;
  }

  // ----- parseHistogram -----

  function HistogramOf(lines: seq<string>, metric: string, parse: NumberReader): Option<Histogram> {
    Finish(Assemble(lines, EventReader(metric, parse)))
  }

  method ParseHistogram(body: string, metric: string, parse: NumberReader) returns (r: Option<Histogram>)
    ensures r == HistogramOf(Split(body, '\n'), metric, parse)
  {
    ghost var read, a := EventReader(metric, parse), Assembly(map[], None);
    assert Assemble([], read) == a;
    hide BucketEvent, CountEvent, TrimSpace, Assemble, BucketName, CountName;
    var buckets: map<Bound, real>, count, sawCount := map[], 0.0, false;
    var bucketPrefix, countPrefix := BucketName(metric), CountName(metric);
    var lines := Split(body, '\n');
    assert lines[..0] == [];
    for i := 0 to |lines|
      invariant read == EventReader(metric, parse)
      invariant a == Assemble(lines[..i], read)
      invariant a == Assembly(buckets, if sawCount then Some(count) else None)
    {
      AssembleSnoc(lines, i, read);
      a := Step(a, EventOf(lines[i], metric, parse));
      var line := TrimSpace(lines[i]);
      if line == "" || line[0] == '#' {
        continue;
      }
      if bucketPrefix <= line {
        var e := BucketEvent(line[|bucketPrefix|..], parse);
        if e.BucketSet? {
          buckets := buckets[e.bound := e.value];
        }
      } else if countPrefix <= line {
        var e := CountEvent(line[|countPrefix|..], parse);
        if e.CountSet? {
          count, sawCount := e.value, true;
        }
      }
    }
    assert lines[..|lines|] == lines;
    r := if sawCount then Some(Histogram(buckets, count)) else None;
  }
}
