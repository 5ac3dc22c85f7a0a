/** Rendering label blocks, and exactly what parseBucketLine makes of a rendered block. */
module Labels {
  import opened Text
  import opened Scrape

  /** One label; `value` is the escaped text between the quotes. */
  datatype Label = Label(name: string, value: string)

  predicate IsLabelChar(c: char) {
    IsNameChar(c) && c != ':'
  }

  /** In an escaped value every quote follows a backslash. */
  predicate Escaped(v: string) {
    && '\n' !in v
    && forall i :: 0 <= i < |v| && v[i] == '"' ==> i > 0 && v[i - 1] == '\\'
  }

  predicate LegalLabel(l: Label) {
    l.name != "" && All(l.name, IsLabelChar) && Escaped(l.value)
  }

  predicate LegalLabels(ls: seq<Label>) {
    forall l :: l in ls ==> LegalLabel(l)
  }

  /** The value holds a closing brace, which the scrapers take for the end of the block. */
  predicate Braced(l: Label) {
    '}' in l.value
  }

  function FirstBraced(ls: seq<Label>): (l: Option<Label>)
    ensures l.Some? ==> l.value in ls && Braced(l.value)
    ensures l.None? <==> forall m :: m in ls ==> !Braced(m)
  {
    if ls == [] then None
    else if Braced(ls[0]) then Some(ls[0])
    else FirstBraced(ls[1..])
  }

  /** What stands behind the first brace of the value. */
  function Suffix(l: Label): string
    requires Braced(l)
  {
    l.value[IndexByte(l.value, '}') + 1..]
  }

  function LabelText(l: Label): string {
    l.name + "=\"" + l.value + "\""
  }

  /** Labels written behind another one. */
  function After(ls: seq<Label>): string {
    if ls == [] then "" else "," + LabelText(ls[0]) + After(ls[1..])
  }

  /** The text between the braces of a bucket line: `before`, the bound, then `rest`. */
  function Labelled(before: seq<Label>, bound: string, rest: string): string {
    if before == [] then LE + (bound + ("\"" + rest))
    else LabelText(before[0]) + ("," + Labelled(before[1..], bound, rest))
  }

  // ----- which text is taken for the value of `le` -----

  predicate EndsWith(s: string, suffix: string) {
    |suffix| <= |s| && s[|s| - |suffix|..] == suffix
  }

  predicate NameCaptures(l: Label) {
    EndsWith(l.name, "le")
  }

  predicate ValueCaptures(l: Label) {
    EndsWith(l.value, "le=")
  }

  predicate Captures(l: Label) {
    NameCaptures(l) || ValueCaptures(l)
  }

  /** Where `le="` first occurs in the text of a capturing label. */
  function CaptureOffset(l: Label): nat
    requires Captures(l)
  {
    if NameCaptures(l) then |l.name| - 2 else |l.name| + |l.value| - 1
  }

  /** What stands in front of the first `c`, or everything. */
  function UpTo(s: string, c: char): string {
    if IndexByte(s, c) < 0 then s else s[..IndexByte(s, c)]
  }

  /** The text that is read as the bound when `before` stands in front of a real `le` label; `None`
      if the block seems to end before any bound is closed. */
  function ReadAsBound(before: seq<Label>, bound: string): Option<string> {
    if before == [] then Some(bound)
    else if NameCaptures(before[0]) then
      var own := UpTo(before[0].value, '"');
      if '}' in own then None else Some(own)
    else if Braced(before[0]) then None
    else if ValueCaptures(before[0]) then Some("," + (if |before| > 1 then before[1].name else "le") + "=")
    else ReadAsBound(before[1..], bound)
  }

  lemma UpToConcat(a: string, b: string, c: char)
    ensures UpTo(a + b, c) == if c in a then UpTo(a, c) else a + UpTo(b, c)
  {
    var i := IndexByte(a, c);
    if i >= 0 {
      assert a + b == a[..i] + [c] + (a[i + 1..] + b);
      IndexByteIs(a[..i], c, a[i + 1..] + b);
    } else if c in b {
      var k := IndexByte(b, c);
      assert a + b == (a + b[..k]) + [c] + b[k + 1..];
      IndexByteIs(a + b[..k], c, b[k + 1..]);
      assert (a + b)[..|a| + k] == a + b[..k];
    }
  }

  lemma NeedleInLabel(l: Label, t: string, j: nat)
    requires LegalLabel(l)
    requires j <= |LabelText(l)| && LE <= (LabelText(l) + ("," + t))[j..]
    ensures Captures(l) && CaptureOffset(l) <= j
  {
    var r := LabelText(l);
    var s := r + ("," + t);
    assert s[j..][0] == s[j] && s[j..][1] == s[j + 1] && s[j..][2] == s[j + 2] && s[j..][3] == s[j + 3];
    assert s[j] == 'l' && s[j + 1] == 'e' && s[j + 2] == '=' && s[j + 3] == '"';
    assert s[|r|] == ',';
    var n := |l.name|;
    assert r[..n] == l.name && r[n] == '=' && r[n + 1] == '"' && r[n + 2..|r| - 1] == l.value && r[|r| - 1] == '"';
    assert forall i :: 0 <= i < n ==> s[i] == l.name[i];
    assert forall i :: 0 <= i < |l.value| ==> s[n + 2 + i] == l.value[i];
    if j + 3 == n + 1 {
      assert l.name[n - 2..] == "le";
    } else {
      assert j + 3 == |r| - 1;
      assert l.value[|l.value| - 3..] == "le=";
    }
  }

  lemma NeedleAtOffset(l: Label, t: string)
    requires LegalLabel(l) && Captures(l)
    ensures CaptureOffset(l) + 4 <= |LabelText(l)| && LE <= (LabelText(l) + t)[CaptureOffset(l)..]
    ensures (LabelText(l) + t)[CaptureOffset(l) + 4..] == if NameCaptures(l) then l.value + ("\"" + t) else t
  {
    var s := LabelText(l) + t;
    var o := CaptureOffset(l);
    var n := |l.name|;
    if NameCaptures(l) {
      assert l.name == l.name[..o] + "le";
      assert s == l.name[..o] + LE + (l.value + ("\"" + t));
    } else {
      var v := l.value[..|l.value| - 3];
      assert l.value == v + "le=";
      assert s == (l.name + "=\"" + v) + LE + t;
    }
  }

  lemma QuotedAfterIs(s: string, i: nat, tail: string)
    requires Index(s, LE) == i && i + 4 <= |s| && s[i + 4..] == tail
    ensures QuotedAfter(s, LE) == Quoted(tail)
  {
    hide Quoted, Index;
  }

  lemma QuotedIs(text: string, rest: string)
    requires '"' !in text
    ensures Quoted(text + ("\"" + rest)) == Some(text)
  {
    assert text + ("\"" + rest) == text + ['"'] + rest;
    IndexByteIs(text, '"', rest);
  }

  lemma QuotedIsUpTo(s: string, rest: string)
    ensures Quoted(s + ("\"" + rest)) == Some(UpTo(s, '"'))
  {
    var w := UpTo(s, '"');
    if w == s {
      QuotedIs(s, rest);
    } else {
      assert s + ("\"" + rest) == w + ("\"" + (s[|w| + 1..] + ("\"" + rest)));
      QuotedIs(w, s[|w| + 1..] + ("\"" + rest));
    }
  }

  lemma NoneToQuote(s: string)
    requires forall j :: 0 <= j <= |s| ==> !(LE <= s[j..])
    ensures QuotedAfter(s, LE) == None
  {
    hide Quoted;
  }

  /** Text in which no occurrence of `le="` begins only shifts the first occurrence. */
  lemma ExtractShift(a: string, t: string)
    requires forall j :: 0 <= j < |a| ==> !(LE <= (a + t)[j..])
    ensures QuotedAfter(a + t, LE) == QuotedAfter(t, LE)
  {
    hide Quoted, QuotedAfter;
    var s := a + t;
    assert forall j :: |a| <= j <= |s| ==> s[j..] == t[j - |a|..];
    var i := Index(t, LE);
    if i >= 0 {
      IndexIs(s, LE, |a| + i);
      QuotedAfterIs(t, i, t[i + 4..]);
      QuotedAfterIs(s, |a| + i, t[i + 4..]);
    } else {
      NoneToQuote(t);
      NoneToQuote(s);
    }
  }

  lemma NoNeedleBefore(l: Label, t: string, n: nat)
    requires LegalLabel(l) && n <= |LabelText(l)| + 1
    requires Captures(l) ==> n <= CaptureOffset(l)
    ensures forall j :: 0 <= j < n ==> !(LE <= (LabelText(l) + ("," + t))[j..])
  {
    forall j | 0 <= j < n
      ensures !(LE <= (LabelText(l) + ("," + t))[j..])
    {
      if LE <= (LabelText(l) + ("," + t))[j..] {
        NeedleInLabel(l, t, j);
      }
    }
  }

  lemma UnbracedText(l: Label)
    requires LegalLabel(l) && !Braced(l)
    ensures '}' !in LabelText(l) && '}' !in LabelText(l) + ","
  {
  }

  /** What the first label of a block makes of the search for `le="`. */
  lemma FirstLabelDecides(l: Label, t: string)
    requires LegalLabel(l)
    ensures QuotedAfter(LabelText(l) + ("," + t), LE)
            == if NameCaptures(l) then Some(UpTo(l.value, '"'))
               else if ValueCaptures(l) then Quoted("," + t)
               else QuotedAfter(t, LE)
  {
    hide NameCaptures, ValueCaptures, Quoted, QuotedAfter, UpTo;
    var s := LabelText(l) + ("," + t);
    if Captures(l) {
      var o := CaptureOffset(l);
      NeedleAtOffset(l, "," + t);
      NoNeedleBefore(l, t, o);
      IndexIs(s, LE, o);
      QuotedAfterIs(s, o, s[o + 4..]);
      QuotedIsUpTo(l.value, "," + t);
    } else {
      NoNeedleBefore(l, t, |LabelText(l)| + 1);
      assert s == (LabelText(l) + ",") + t;
      ExtractShift(LabelText(l) + ",", t);
    }
  }

  /** The same for a label that is cut off inside its value. */
  lemma CutLabelDecides(l: Label)
    requires LegalLabel(l)
    ensures QuotedAfter(l.name + "=\"" + l.value, LE) == if NameCaptures(l) then Quoted(l.value) else None
  {
    hide Quoted, QuotedAfter;
    var s := l.name + "=\"" + l.value;
    var full := LabelText(l) + ("," + "");
    assert s == full[..|s|];
    var n := if NameCaptures(l) then CaptureOffset(l) else |s| + 1;
    forall j | 0 <= j < n && j <= |s|
      ensures !(LE <= s[j..])
    {
      if LE <= s[j..] {
        assert full[j..][..4] == s[j..][..4];
        NeedleInLabel(l, "", j);
      }
    }
    if NameCaptures(l) {
      assert l.name == l.name[..n] + "le";
      assert s == l.name[..n] + LE + l.value;
      IndexIs(s, LE, n);
      QuotedAfterIs(s, n, l.value);
    } else {
      NoneToQuote(s);
    }
  }

  lemma LabelledNext(before: seq<Label>, bound: string, rest: string)
    requires before != []
    ensures Labelled(before, bound, rest) == LabelText(before[0]) + ("," + Labelled(before[1..], bound, rest))
  {
  }

  lemma OwnValueIsUnbraced(l: Label)
    requires !Braced(l)
    ensures '}' !in UpTo(l.value, '"')
  {
  }

  function NameOfNext(ls: seq<Label>): string {
    if ls != [] then ls[0].name else "le"
  }

  lemma BehindName(ls: seq<Label>, bound: string, rest: string) returns (more: string)
    ensures Labelled(ls, bound, rest) == (NameOfNext(ls) + "=\"") + more
  {
    if ls == [] {
      more := bound + ("\"" + rest);
    } else {
      more := ls[0].value + ("\"" + ("," + Labelled(ls[1..], bound, rest)));
    }
  }

  /** Behind a comma stands the next label's name, even if that label is cut off. */
  lemma NextName(ls: seq<Label>, bound: string, rest: string) returns (u: string)
    requires LegalLabels(ls)
    ensures '"' !in "," + NameOfNext(ls) + "="
    ensures UpTo(Labelled(ls, bound, rest), '}') == NameOfNext(ls) + ("=\"" + u)
  {
    hide UpTo;
    var name := NameOfNext(ls);
    if ls != [] {
      assert LegalLabel(ls[0]);
    }
    assert All(name, IsLabelChar);
    assert '}' !in name + "=\"" && '"' !in "," + name + "=";
    var more := BehindName(ls, bound, rest);
    UpToConcat(name + "=\"", more, '}');
    u := UpTo(more, '}');
    assert (name + "=\"") + u == name + ("=\"" + u);
  }

  lemma ExtractFromWhole(before: seq<Label>, bound: string, rest: string)
    requires LegalLabels(before) && before != [] && LegalLabel(before[0]) && !Braced(before[0])
    requires '"' !in bound && '}' !in bound
    ensures QuotedAfter(UpTo(Labelled(before, bound, rest), '}'), LE)
            == if NameCaptures(before[0]) || ValueCaptures(before[0]) then ReadAsBound(before, bound)
               else QuotedAfter(UpTo(Labelled(before[1..], bound, rest), '}'), LE)
  {
    hide Quoted, QuotedAfter, NameCaptures, ValueCaptures, UpTo, LabelText, Labelled, LegalLabel;
    var l, t := before[0], Labelled(before[1..], bound, rest);
    UnbracedText(l);
    UpToConcat(LabelText(l) + ",", t, '}');
    LabelledNext(before, bound, rest);
    assert LabelText(l) + "," + t == LabelText(l) + ("," + t);
    assert LabelText(l) + "," + UpTo(t, '}') == LabelText(l) + ("," + UpTo(t, '}'));
    FirstLabelDecides(l, UpTo(t, '}'));
    OwnValueIsUnbraced(l);
    var u := NextName(before[1..], bound, rest);
    var name := NameOfNext(before[1..]);
    assert "," + UpTo(t, '}') == ("," + name + "=") + ("\"" + u);
    QuotedIs("," + name + "=", u);
  }

  /** What is left of a braced label. */
  lemma CutLabel(l: Label) returns (cut: Label)
    requires LegalLabel(l) && Braced(l)
    ensures cut == Label(l.name, UpTo(l.value, '}')) && LegalLabel(cut)
  {
    cut := Label(l.name, UpTo(l.value, '}'));
    assert forall i :: 0 <= i < |cut.value| ==> cut.value[i] == l.value[i];
  }

  /** The cut value still closes a quote exactly if its first quote stands in front of the brace. */
  lemma QuotedBeforeBrace(l: Label)
    requires Braced(l)
    ensures var own := UpTo(l.value, '"');
            Quoted(UpTo(l.value, '}')) == if '}' in own then None else Some(own)
  {
    var v := l.value;
    var q, b := IndexByte(v, '"'), IndexByte(v, '}');
    var p := v[..b];
    if 0 <= q < b {
      assert p == v[..q] + ['"'] + v[q + 1..b];
      IndexByteIs(v[..q], '"', v[q + 1..b]);
      assert p[..q] == v[..q];
      assert '}' !in v[..q] by {
        assert forall i :: 0 <= i < q ==> v[..q][i] == p[i];
      }
    } else {
      assert UpTo(v, '"')[b] == '}';
      assert '"' !in p by {
        assert q >= 0 ==> forall i :: 0 <= i < b ==> v[..q][i] == p[i];
      }
    }
  }

  lemma SameNameSameCapture(k: Label, l: Label)
    requires k.name == l.name
    ensures NameCaptures(k) <==> NameCaptures(l)
  {
  }

  lemma ExtractFromCut(before: seq<Label>, bound: string, rest: string)
    requires LegalLabels(before) && before != [] && LegalLabel(before[0]) && Braced(before[0])
    ensures QuotedAfter(UpTo(Labelled(before, bound, rest), '}'), LE) == ReadAsBound(before, bound)
  {
    hide QuotedAfter, NameCaptures, ValueCaptures, UpTo, Quoted;
    var l := before[0];
    var more := "\"" + ("," + Labelled(before[1..], bound, rest));
    assert Labelled(before, bound, rest) == (l.name + "=\"") + (l.value + more);
    UpToConcat(l.name + "=\"", l.value + more, '}');
    UpToConcat(l.value, more, '}');
    var cut := CutLabel(l);
    CutLabelDecides(cut);
    SameNameSameCapture(cut, l);
    QuotedBeforeBrace(l);
  }

  /** Up to the first brace, behind the first `le="`, stands exactly ReadAsBound, wherever the real
      `le` label stands and whatever comes behind it. */
  lemma {:induction false} ExtractLeIs(before: seq<Label>, bound: string, rest: string)
    requires LegalLabels(before) && '"' !in bound && '}' !in bound
    ensures QuotedAfter(UpTo(Labelled(before, bound, rest), '}'), LE) == ReadAsBound(before, bound)
    decreases |before|
  {
    hide UpTo, Quoted, QuotedAfter, NameCaptures, ValueCaptures;
    if before == [] {
      UpToConcat(LE + bound + "\"", rest, '}');
      var s := LE + (bound + ("\"" + UpTo(rest, '}')));
      assert LE + bound + "\"" + rest == Labelled(before, bound, rest);
      assert LE + bound + "\"" + UpTo(rest, '}') == s;
      assert s[0..] == s;
      IndexIs(s, LE, 0);
      QuotedAfterIs(s, 0, bound + ("\"" + UpTo(rest, '}')));
      QuotedIs(bound, UpTo(rest, '}'));
    } else {
      assert LegalLabel(before[0]);
      if Braced(before[0]) {
        ExtractFromCut(before, bound, rest);
      } else {
        ExtractFromWhole(before, bound, rest);
        ExtractLeIs(before[1..], bound, rest);
      }
    }
  }

  // ----- what hides the bound, what hides the value -----

  /** In front of `le`, such a label keeps the real bound from being read. */
  predicate Obscures(l: Label) {
    Captures(l) || Braced(l)
  }

  function FirstObscuring(before: seq<Label>): (l: Option<Label>)
    ensures l.None? <==> forall m :: m in before ==> !Obscures(m)
  {
    if before == [] then None
    else if Obscures(before[0]) then Some(before[0])
    else FirstObscuring(before[1..])
  }

  lemma {:induction false} ReadAsBoundCases(before: seq<Label>, bound: string)
    ensures match FirstObscuring(before)
            case None => ReadAsBound(before, bound) == Some(bound)
            case Some(l) =>
              var text := ReadAsBound(before, bound);
              if NameCaptures(l) then text == if '}' in UpTo(l.value, '"') then None else Some(UpTo(l.value, '"'))
              else text.None? || (|text.value| > 0 && text.value[0] == ',')
    decreases |before|
  {
    if before != [] {
      ReadAsBoundCases(before[1..], bound);
    }
  }

  /** The first brace of `s` stands in the value of `l`. */
  predicate CutIn(s: string, l: Label)
    requires Braced(l)
  {
    IndexByte(s, '}') >= 0 && Suffix(l) + "\"" <= s[IndexByte(s, '}') + 1..]
  }

  lemma CutInContext(a: string, s: string, b: string, l: Label)
    requires Braced(l) && CutIn(s, l) && '}' !in a
    ensures CutIn(a + s + b, l)
  {
    hide Suffix;
    var i := IndexByte(s, '}');
    assert a + s + b == (a + s[..i]) + ['}'] + (s[i + 1..] + b);
    IndexByteIs(a + s[..i], '}', s[i + 1..] + b);
    assert (a + s + b)[|a| + i + 1..] == s[i + 1..] + b;
  }

  lemma CutInOwnText(l: Label)
    requires LegalLabel(l) && Braced(l)
    ensures CutIn(LabelText(l), l)
  {
    var i := IndexByte(l.value, '}');
    var a, b := l.name + "=\"" + l.value[..i], Suffix(l) + "\"";
    SplitAt(l.value, i);
    assert l.value == l.value[..i] + ['}'] + Suffix(l);
    var text := LabelText(l);
    assert text == a + ['}'] + b;
    IndexByteIs(a, '}', b);
    assert text[|a| + 1..] == b;
  }

  lemma {:induction false} AfterIsCut(ls: seq<Label>)
    requires LegalLabels(ls)
    ensures match FirstBraced(ls) case None => '}' !in After(ls) case Some(l) => CutIn(After(ls), l)
    decreases |ls|
  {
    if ls != [] {
      hide CutIn, LabelText;
      var l := ls[0];
      assert LegalLabel(l);
      AfterIsCut(ls[1..]);
      if Braced(l) {
        CutInOwnText(l);
        CutInContext(",", LabelText(l), After(ls[1..]), l);
      } else {
        UnbracedText(l);
        if FirstBraced(ls[1..]).Some? {
          CutInContext("," + LabelText(l), After(ls[1..]), "", FirstBraced(ls[1..]).value);
          assert "," + LabelText(l) + After(ls[1..]) + "" == After(ls);
        }
      }
    }
  }

  lemma BoundIsUncut(bound: string, after: seq<Label>)
    requires LegalLabels(after) && '}' !in bound
    ensures var s := Labelled([], bound, After(after));
            match FirstBraced(after) case None => '}' !in s case Some(l) => CutIn(s, l)
  {
    hide CutIn, FirstBraced, After;
    AfterIsCut(after);
    var s := Labelled([], bound, After(after));
    assert LE + bound + "\"" + After(after) + "" == s;
    if FirstBraced(after).Some? {
      CutInContext(LE + bound + "\"", After(after), "", FirstBraced(after).value);
    }
  }

  /** Where the first brace stands when a label is put in front of a text. */
  lemma PrefixedIsCut(l: Label, t: string, first: Option<Label>)
    requires LegalLabel(l) && (first.Some? ==> Braced(first.value))
    requires match first case None => '}' !in t case Some(m) => CutIn(t, m)
    ensures var s := LabelText(l) + ("," + t);
            if Braced(l) then CutIn(s, l) else match first case None => '}' !in s case Some(m) => CutIn(s, m)
  {
    hide CutIn, LabelText, LegalLabel;
    var s := LabelText(l) + ("," + t);
    if Braced(l) {
      CutInOwnText(l);
      assert "" + LabelText(l) + ("," + t) == s;
      CutInContext("", LabelText(l), "," + t, l);
    } else {
      UnbracedText(l);
      assert (LabelText(l) + ",") + t + "" == s;
      if first.Some? {
        CutInContext(LabelText(l) + ",", t, "", first.value);
      }
    }
  }

  lemma {:induction false} LabelledIsCut(before: seq<Label>, bound: string, after: seq<Label>)
    requires LegalLabels(before) && LegalLabels(after) && '}' !in bound
    ensures var s := Labelled(before, bound, After(after));
            match FirstBraced(before + after) case None => '}' !in s case Some(l) => CutIn(s, l)
    decreases |before|
  {
    if before == [] {
      assert before + after == after;
      BoundIsUncut(bound, after);
    } else {
      hide CutIn, LabelText, Labelled, After, Braced;
      assert LegalLabel(before[0]) && (before + after)[1..] == before[1..] + after && (before + after)[0] == before[0];
      LabelledIsCut(before[1..], bound, after);
      LabelledNext(before, bound, After(after));
      PrefixedIsCut(before[0], Labelled(before[1..], bound, After(after)), FirstBraced(before[1..] + after));
    }
  }

  lemma {:induction false} AfterHasNoNewline(ls: seq<Label>)
    requires LegalLabels(ls)
    ensures '\n' !in After(ls)
    decreases |ls|
  {
    if ls != [] {
      assert LegalLabel(ls[0]);
      AfterHasNoNewline(ls[1..]);
    }
  }

  lemma {:induction false} LabelledHasNoNewline(before: seq<Label>, bound: string, rest: string)
    requires LegalLabels(before) && '\n' !in bound && '\n' !in rest
    ensures '\n' !in Labelled(before, bound, rest)
    decreases |before|
  {
    if before != [] {
      assert LegalLabel(before[0]);
      LabelledHasNoNewline(before[1..], bound, rest);
    }
  }
}
