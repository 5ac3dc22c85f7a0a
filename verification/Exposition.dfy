/** Rendered label blocks: exactly which bound and which value the scrapers read from them. */
module Exposition {
  import opened Text
  import opened Decimal
  import opened Accumulate
  import opened Scrape
  import opened Labels

  /** The `le` value of a bucket as written. */
  datatype BoundText = Infinity | At(literal: Literal)

  predicate LegalBound(b: BoundText) {
    b.At? ==> Valid(b.literal)
  }

  function BoundString(b: BoundText): string {
    match b
    case Infinity => "+Inf"
    case At(l) => ToText(l)
  }

  function BoundOf(b: BoundText): Bound
    requires LegalBound(b)
  {
    match b
    case Infinity => PosInf
    case At(l) => Finite(Value(l))
  }

  lemma ParseFloatReadsOnlyPlainText(s: string)
    requires ParseFloat(s).Some?
    ensures s != "" && All(s, Plain)
  {
    var l := ReadLiteral(s).value;
    TextOfReadLiteral(s);
    LiteralIsPlain(l);
  }

  lemma TextIsNotInf(l: Literal)
    requires Valid(l)
    ensures ToText(l) != "+Inf" && '"' !in ToText(l) && '}' !in ToText(l) && '\n' !in ToText(l)
  {
    hide ToText, Valid;
    LiteralIsPlain(l);
    assert !Plain("+Inf"[1]);
  }

  lemma ReadBoundOfString(b: BoundText)
    requires LegalBound(b)
    ensures ReadBound(BoundString(b), ParseFloat) == Some(BoundOf(b))
    ensures '"' !in BoundString(b) && '}' !in BoundString(b) && '\n' !in BoundString(b)
  {
    hide ParseFloat, ToText;
    if b.At? {
      ParseFloatOfText(b.literal);
      TextIsNotInf(b.literal);
    }
  }

  /** A text that begins with a comma is no bound. */
  lemma CommaIsNoBound(le: string)
    requires |le| > 0 && le[0] == ','
    ensures ReadBound(le, ParseFloat) == None
  {
    hide ParseFloat;
    if ParseFloat(le).Some? {
      ParseFloatReadsOnlyPlainText(le);
    }
    assert "+Inf"[0] != ',';
  }

  lemma ReadFieldOfText(l: Literal, tail: string)
    requires Valid(l) && (tail == "" || IsSpace(tail[0]))
    ensures FirstField(" " + ToText(l) + tail) == Some(ToText(l))
    ensures ReadField(" " + ToText(l) + tail, ParseFloat) == Some(Value(l))
  {
    hide ToText, Valid, Value, ParseFloat;
    LiteralIsPlain(l);
    ParseFloatOfText(l);
    hide FirstField;
    FirstFieldIs(" ", ToText(l), tail);
  }

  // ----- which number is read for the value -----

  lemma QuotedFieldIsUnread(f: string)
    requires '"' in f
    ensures ParseFloat(f) == None
  {
    hide ParseFloat;
    if ParseFloat(f).Some? {
      ParseFloatReadsOnlyPlainText(f);
    }
  }

  /** No field that reaches as far as a quote is a number. */
  lemma QuoteEndsReading(u: string, more: string)
    ensures ReadField(u + "\"" + more, ParseFloat) == ReadField(u + "\"", ParseFloat)
  {
    hide ParseFloat;
    var s := u + "\"";
    var t := s + more;
    var k := Span(s, IsSpace);
    assert s[|u|] == '"';
    assert t[..k] == s[..k] && t[k] == s[k];
    SpanIs(t, IsSpace, k);
    var m := Span(s[k..], NotSpace);
    assert t[k..] == s[k..] + more;
    if m < |s[k..]| {
      assert t[k..][..m] == s[k..][..m];
      SpanIs(t[k..], NotSpace, m);
    } else {
      assert s[k..][|u| - k] == '"';
      QuotedFieldIsUnread(s[k..]);
      var n := Span(t[k..], NotSpace);
      assert forall j :: 0 <= j < m ==> t[k..][j] == s[k..][j];
      assert t[k..][..n][|u| - k] == '"';
      QuotedFieldIsUnread(t[k..][..n]);
      assert s[k..][..m] == s[k..];
    }
  }

  /** The number read behind a block with these labels: the one rendered, unless a label value holds
      a brace; then whatever number follows the first brace of the first such value. */
  function ValueRead(ls: seq<Label>, value: Literal): Option<real>
    requires Valid(value)
  {
    match FirstBraced(ls)
    case None => Some(Value(value))
    case Some(l) => ReadField(Suffix(l) + "\"", ParseFloat)
  }

  /** The condition under which that is the number rendered. */
  predicate KeepsValue(ls: seq<Label>, value: Literal)
    requires Valid(value)
  {
    match FirstBraced(ls)
    case None => true
    case Some(l) => ReadField(Suffix(l) + "\"", ParseFloat) == Some(Value(value))
  }

  /** What stands behind the first brace of `text + "}" + tail`. */
  function BehindBrace(text: string, tail: string): string {
    if '}' in text then text[IndexByte(text, '}') + 1..] + ("}" + tail) else tail
  }

  lemma PrefixRest(p: string, s: string, t: string) returns (w: string)
    requires p <= s
    ensures s + t == p + w
  {
    w := s[|p|..] + t;
  }

  lemma BehindSuffix(text: string, l: Label, tail: string) returns (w: string)
    requires Braced(l) && CutIn(text, l)
    ensures BehindBrace(text, tail) == Suffix(l) + "\"" + w
  {
    hide Suffix;
    w := PrefixRest(Suffix(l) + "\"", text[IndexByte(text, '}') + 1..], "}" + tail);
  }

  lemma CutReadsSuffix(text: string, l: Label, tail: string)
    requires Braced(l) && CutIn(text, l)
    ensures ReadField(BehindBrace(text, tail), ParseFloat) == ReadField(Suffix(l) + "\"", ParseFloat)
  {
    hide ReadField, ParseFloat, Suffix;
    hide CutIn;
    var w := BehindSuffix(text, l, tail);
    QuoteEndsReading(Suffix(l), w);
  }

  lemma ValueBehind(text: string, ls: seq<Label>, value: Literal, more: string)
    requires match FirstBraced(ls) case None => '}' !in text case Some(l) => CutIn(text, l)
    requires Valid(value) && (more == "" || IsSpace(more[0]))
    ensures ReadField(BehindBrace(text, " " + ToText(value) + more), ParseFloat) == ValueRead(ls, value)
  {
    hide ReadField, ParseFloat, ToText, Suffix, Valid, Value, CutIn;
    match FirstBraced(ls)
    case None => ReadFieldOfText(value, more);
    case Some(l) => CutReadsSuffix(text, l, " " + ToText(value) + more);
  }

  /** The first brace ends the block. */
  lemma BlockEndsAtBrace(text: string, tail: string)
    ensures var line := "{" + text + "}" + tail;
            && IndexByte(line, '}') == |UpTo(text, '}')| + 1
            && line[1..IndexByte(line, '}')] == UpTo(text, '}')
            && line[IndexByte(line, '}') + 1..] == BehindBrace(text, tail)
  {
    var line := "{" + text + "}" + tail;
    var labels, behind := UpTo(text, '}'), BehindBrace(text, tail);
    assert line == ("{" + labels) + ['}'] + behind;
    IndexByteIs("{" + labels, '}', behind);
  }

  // ----- bucket lines -----

  function BucketBlock(before: seq<Label>, bound: BoundText, after: seq<Label>): string {
    "{" + Labelled(before, BoundString(bound), After(after)) + "}"
  }

  /** The bound read from such a block: the one rendered, unless a label in front obscures it; then
      the value of that label if its name ends in `le`, and none otherwise. */
  function BoundRead(before: seq<Label>, bound: BoundText): Option<Bound>
    requires LegalBound(bound)
  {
    match FirstObscuring(before)
    case None => Some(BoundOf(bound))
    case Some(l) => if NameCaptures(l) then ReadBound(UpTo(l.value, '"'), ParseFloat) else None
  }

  /** The condition under which that is the bound rendered. */
  predicate KeepsBound(before: seq<Label>, bound: BoundText)
    requires LegalBound(bound)
  {
    match FirstObscuring(before)
    case None => true
    case Some(l) => NameCaptures(l) && ReadBound(UpTo(l.value, '"'), ParseFloat) == Some(BoundOf(bound))
  }

  lemma BracedIsNoBound(le: string)
    requires '}' in le
    ensures ReadBound(le, ParseFloat) == None
  {
    hide ParseFloat;
    if ParseFloat(le).Some? {
      ParseFloatReadsOnlyPlainText(le);
    }
  }

  lemma BoundReadIs(before: seq<Label>, bound: BoundText)
    requires LegalBound(bound)
    ensures BoundRead(before, bound) == match ReadAsBound(before, BoundString(bound))
                                        case None => None
                                        case Some(le) => ReadBound(le, ParseFloat)
  {
    hide ReadBound, ParseFloat, NameCaptures, BoundString, BoundOf, ReadAsBound;
    ReadBoundOfString(bound);
    ReadAsBoundCases(before, BoundString(bound));
    match FirstObscuring(before)
    case None =>
    case Some(l) =>
      var text := ReadAsBound(before, BoundString(bound));
      if NameCaptures(l) {
        if '}' in UpTo(l.value, '"') {
          BracedIsNoBound(UpTo(l.value, '"'));
        }
      } else if text.Some? {
        CommaIsNoBound(text.value);
      }
  }

  /** A rendered bucket line, with any legal labels: the bound is read as BoundRead says, the value as
      ValueRead says, and the line is dropped when one of them is not there. */
  lemma BucketLineIsRead(before: seq<Label>, bound: BoundText, after: seq<Label>, value: Literal)
    requires LegalLabels(before) && LegalLabels(after) && LegalBound(bound) && Valid(value)
    ensures ParseBucketLine(BucketBlock(before, bound, after) + (" " + ToText(value)), ParseFloat)
            == match (BoundRead(before, bound), ValueRead(before + after, value))
               case (Some(b), Some(v)) => Some((b, v))
               case _ => None
  {
    hide ReadBound, ReadField, QuotedAfter, ToText, ReadAsBound, BoundRead, ValueRead, BehindBrace, UpTo, CutIn;
    hide ParseFloat, Labelled, Valid;
    ReadBoundOfString(bound);
    var text := Labelled(before, BoundString(bound), After(after));
    var tail := " " + ToText(value);
    LabelledIsCut(before, BoundString(bound), after);
    ExtractLeIs(before, BoundString(bound), After(after));
    BlockEndsAtBrace(text, tail);
    ValueBehind(text, before + after, value, "");
    assert tail + "" == tail;
    BoundReadIs(before, bound);
    assert "le" + "=\"" == LE;
  }

  /** Round trip: a bucket line gives back its own bound and value exactly when both survive. The
      bound does unless a label in front obscures it — the name ends in `le`, the value ends in
      `le=` or holds a brace — except by a name such as `handle` whose value reads as that very
      bound. The value does unless some label value holds a brace that does not happen to be
      followed by that very number. */
  lemma BucketRoundTripIff(before: seq<Label>, bound: BoundText, after: seq<Label>, value: Literal)
    requires LegalLabels(before) && LegalLabels(after) && LegalBound(bound) && Valid(value)
    ensures ParseBucketLine(BucketBlock(before, bound, after) + (" " + ToText(value)), ParseFloat)
            == Some((BoundOf(bound), Value(value)))
            <==> KeepsBound(before, bound) && KeepsValue(before + after, value)
  {
    hide ParseBucketLine, ToText, ParseFloat, NameCaptures, FirstObscuring, FirstBraced, ReadField, ReadBound, BucketBlock;
    BucketLineIsRead(before, bound, after, value);
  }

  // ----- instances that break each side condition -----

  lemma PlainTextIsEscaped(a: string, t: string, b: string)
    requires All(t, Plain) && Escaped(a) && Escaped(b)
    ensures Escaped(a + t + b)
  {
  }

  /** A label value holding `} n ` makes n the value of the bucket. */
  lemma BraceInValueMisreads(bound: BoundText, fake: Literal, actual: Literal)
    requires LegalBound(bound) && Valid(fake) && Valid(actual)
    ensures var path := Label("path", "a} " + ToText(fake) + " b");
            ParseBucketLine(BucketBlock([], bound, [path]) + (" " + ToText(actual)), ParseFloat)
            == Some((BoundOf(bound), Value(fake)))
  {
    hide ParseFloat, ToText, ReadField, ParseBucketLine, Valid, Value, BucketBlock, Plain;
    var path := Label("path", "a} " + ToText(fake) + " b");
    LiteralIsPlain(fake);
    PlainTextIsEscaped("a} ", ToText(fake), " b");
    assert path.value == "a" + ['}'] + (" " + ToText(fake) + " b");
    IndexByteIs("a", '}', " " + ToText(fake) + " b");
    assert Suffix(path) == " " + ToText(fake) + " b";
    assert LegalLabels([path]) && [] + [path] == [path];
    assert FirstBraced([path]) == Some(path) && FirstObscuring([]) == None;
    BucketLineIsRead([], bound, [path], actual);
    ReadFieldOfText(fake, " b\"");
    assert Suffix(path) + "\"" == " " + ToText(fake) + " b\"";
  }

  /** The first brace in a label value has no blank behind it, as in a route `/users/{id}`. */
  predicate DropsNumber(ls: seq<Label>) {
    FirstBraced(ls).Some? && All(Suffix(FirstBraced(ls).value), NotSpace)
  }

  lemma DropsNumberIs(ls: seq<Label>, value: Literal)
    requires DropsNumber(ls) && Valid(value)
    ensures ValueRead(ls, value) == None
  {
    hide ParseFloat, Suffix, FirstBraced;
    var s := Suffix(FirstBraced(ls).value) + "\"";
    assert All(s, NotSpace) && s[|s| - 1] == '"';
    FirstFieldIs("", s, "");
    assert "" + s + "" == s;
    QuotedFieldIsUnread(s);
  }

  /** Such a label makes the line unreadable. */
  lemma BraceDropsBucket(before: seq<Label>, bound: BoundText, after: seq<Label>, value: Literal)
    requires LegalLabels(before) && LegalLabels(after) && LegalBound(bound) && Valid(value)
    requires DropsNumber(before + after)
    ensures ParseBucketLine(BucketBlock(before, bound, after) + (" " + ToText(value)), ParseFloat) == None
  {
    hide ParseBucketLine, ToText, ParseFloat, BoundRead, ValueRead, DropsNumber;
    BucketLineIsRead(before, bound, after, value);
    DropsNumberIs(before + after, value);
  }

  /** A label whose name ends in `le` replaces the bound by its own value. */
  lemma NameEndingInLeMisreads(other: BoundText, bound: BoundText, value: Literal)
    requires LegalBound(other) && LegalBound(bound) && Valid(value)
    ensures ParseBucketLine(BucketBlock([Label("handle", BoundString(other))], bound, []) + (" " + ToText(value)), ParseFloat)
            == Some((BoundOf(other), Value(value)))
  {
    hide ParseFloat, ParseBucketLine, ToText, ReadBound;
    ReadBoundOfString(other);
    var l := Label("handle", BoundString(other));
    assert "handle"[4..] == "le" && NameCaptures(l);
    assert FirstObscuring([l]) == Some(l) && FirstBraced([l] + []) == None && UpTo(l.value, '"') == l.value;
    BucketLineIsRead([l], bound, [], value);
  }

  /** A label value ending in `le=` makes the line unreadable. */
  lemma ValueEndingInLeMisreads(bound: BoundText, value: Literal)
    requires LegalBound(bound) && Valid(value)
    ensures ParseBucketLine(BucketBlock([Label("q", "le=")], bound, []) + (" " + ToText(value)), ParseFloat) == None
  {
    hide ParseFloat, ParseBucketLine, ToText, ReadBound;
    var l := Label("q", "le=");
    assert "le="[0..] == "le=" && ValueCaptures(l) && !NameCaptures(l);
    assert FirstObscuring([l]) == Some(l);
    BucketLineIsRead([l], bound, [], value);
  }
}
