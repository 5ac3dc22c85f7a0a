/** The pieces of Go's `strings` package that the harness relies on, over `seq<char>`.
    White space is the ASCII set. */
module Text {

  datatype Option<+T> = None | Some(value: T)

  predicate IsSpace(c: char) {
    c == ' ' || c == '\t' || c == '\n' || c == '\r' || c == '\U{0B}' || c == '\U{0C}'
  }

  /** The control characters from tab to carriage return, and the space. */
  lemma SpacesAre(c: char)
    ensures IsSpace(c) <==> 9 <= c as int <= 13 || c as int == 32
  {
  }

  predicate NotSpace(c: char) {
    !IsSpace(c)
  }

  predicate All(s: string, p: char -> bool) {
    forall i :: 0 <= i < |s| ==> p(s[i])
  }

  /** Length of the longest prefix whose characters all satisfy `p`. */
  function Span(s: string, p: char -> bool): (n: nat)
    ensures n <= |s|
    ensures forall i :: 0 <= i < n ==> p(s[i])
    ensures n < |s| ==> !p(s[n])
  {
    if s == "" || !p(s[0]) then 0 else 1 + Span(s[1..], p)
  }

  lemma SpanIs(s: string, p: char -> bool, n: nat)
    requires n <= |s| && All(s[..n], p) && (n < |s| ==> !p(s[n]))
    ensures Span(s, p) == n
  {
    assert forall i :: 0 <= i < n ==> s[..n][i] == s[i];
  }

  predicate Trimmed(t: string) {
    t == "" || (!IsSpace(t[0]) && !IsSpace(t[|t| - 1]))
  }

  function TrimRight(s: string): (t: string)
    ensures t <= s && All(s[|t|..], IsSpace)
    ensures t == "" || !IsSpace(t[|t| - 1])
  {
    if s != "" && IsSpace(s[|s| - 1]) then TrimRight(s[..|s| - 1]) else s
  }

  /** strings.TrimSpace */
  function TrimSpace(s: string): (t: string)
    ensures Trimmed(t)
  {
    TrimRight(s[Span(s, IsSpace)..])
  }

  lemma TrimSpaceIdentity(s: string)
    requires s == "" || (!IsSpace(s[0]) && !IsSpace(s[|s| - 1]))
    ensures TrimSpace(s) == s
  {
    assert s[0..] == s;
  }

  lemma {:induction false} TrimRightIs(t: string, b: string)
    requires Trimmed(t) && All(b, IsSpace)
    ensures TrimRight(t + b) == t
    decreases |b|
  {
    if b == "" {
      assert t + b == t;
    } else {
      var s := t + b;
      assert s[|s| - 1] == b[|b| - 1] && s[..|s| - 1] == t + b[..|b| - 1];
      TrimRightIs(t, b[..|b| - 1]);
    }
  }

  /** Blanks on both sides are taken away, and nothing else. */
  lemma TrimSpaceIs(a: string, t: string, b: string)
    requires All(a, IsSpace) && Trimmed(t) && All(b, IsSpace)
    ensures TrimSpace(a + t + b) == t
  {
    var s := a + t + b;
    if t == "" {
      assert s[..|s|] == s && All(s, IsSpace);
      SpanIs(s, IsSpace, |s|);
      assert s[|s|..] == "";
    } else {
      assert s[..|a|] == a && s[|a|] == t[0] && s[|a|..] == t + b;
      SpanIs(s, IsSpace, |a|);
      TrimRightIs(t, b);
    }
  }

  /** The first element of strings.Fields, `None` when that list is empty. */
  function FirstField(s: string): (f: Option<string>) {
    var t := s[Span(s, IsSpace)..];
    if t == "" then None else Some(t[..Span(t, NotSpace)])
  }

  lemma NoFieldIff(s: string)
    ensures FirstField(s) == None <==> All(s, IsSpace)
  {
    var k := Span(s, IsSpace);
    if All(s, IsSpace) {
      assert s[..|s|] == s;
      SpanIs(s, IsSpace, |s|);
    }
  }

  lemma FirstFieldIs(gap: string, token: string, tail: string)
    requires All(gap, IsSpace) && All(token, NotSpace) && token != ""
    requires tail == "" || IsSpace(tail[0])
    ensures FirstField(gap + token + tail) == Some(token)
  {
    var s := gap + token + tail;
    assert s[..|gap|] == gap && s[|gap|] == token[0];
    SpanIs(s, IsSpace, |gap|);
    var t := s[|gap|..];
    assert t == token + tail;
    assert t[..|token|] == token;
    SpanIs(t, NotSpace, |token|);
  }

  /** strings.IndexByte: the first position of `c`, or -1. */
  function IndexByte(s: string, c: char): (i: int)
    ensures -1 <= i < |s|
    ensures i >= 0 ==> s[i] == c && c !in s[..i]
    ensures i < 0 ==> c !in s
  {
    if s == "" then -1
    else if s[0] == c then 0
    else
      var r := IndexByte(s[1..], c);
      assert s == [s[0]] + s[1..];
      if r < 0 then -1 else
      assert s[..r + 1] == [s[0]] + s[1..][..r];
      r + 1
  }

  lemma IndexByteIs(a: string, c: char, b: string)
    requires c !in a
    ensures IndexByte(a + [c] + b, c) == |a|
  {
    var s := a + [c] + b;
    assert s[|a|] == c;
    assert forall k :: 0 <= k < |a| ==> s[k] == a[k];
    assert forall k :: |a| < k <= |s| ==> s[..k][|a|] == c;
  }

  lemma SplitAt(s: string, i: nat)
    requires i < |s|
    ensures s == s[..i] + [s[i]] + s[i + 1..]
  {
  }

  /** strings.Index: the first position at which `needle` occurs, or -1. */
  function Index(s: string, needle: string): (i: int)
    ensures i >= 0 ==> i + |needle| <= |s| && needle <= s[i..]
    ensures i >= 0 ==> forall j :: 0 <= j < i ==> !(needle <= s[j..])
    ensures i < 0 ==> i == -1 && forall j :: 0 <= j <= |s| ==> !(needle <= s[j..])
  {
    if needle <= s then 0
    else if s == "" then -1
    else
      var r := Index(s[1..], needle);
      assert forall j :: 1 <= j <= |s| ==> s[1..][j - 1..] == s[j..];
      if r < 0 then -1 else r + 1
  }

  lemma IndexIs(s: string, needle: string, i: nat)
    requires i <= |s| && needle <= s[i..]
    requires forall j :: 0 <= j < i ==> !(needle <= s[j..])
    ensures Index(s, needle) == i
  {
  }

  // ----- splitting and joining -----

  /** strings.Split for a one-byte separator. */
  function Split(s: string, sep: char): (parts: seq<string>)
    ensures parts != []
    ensures forall p :: p in parts ==> sep !in p
    decreases |s|
  {
    var i := IndexByte(s, sep);
    if i < 0 then [s] else [s[..i]] + Split(s[i + 1..], sep)
  }

  /** strings.Join */
  function Join(parts: seq<string>, sep: char): string {
    if parts == [] then ""
    else if |parts| == 1 then parts[0]
    else parts[0] + [sep] + Join(parts[1..], sep)
  }

  lemma {:induction false} SplitConcat(a: string, sep: char, b: string)
    ensures Split(a + [sep] + b, sep) == Split(a, sep) + Split(b, sep)
    decreases |a|
  {
    var s := a + [sep] + b;
    var i := IndexByte(a, sep);
    if i < 0 {
      IndexByteIs(a, sep, b);
      assert s[..|a|] == a && s[|a| + 1..] == b;
    } else {
      assert a == a[..i] + [sep] + a[i + 1..];
      assert s == a[..i] + [sep] + (a[i + 1..] + [sep] + b);
      IndexByteIs(a[..i], sep, a[i + 1..] + [sep] + b);
      assert s[..i] == a[..i] && s[i + 1..] == a[i + 1..] + [sep] + b;
      SplitConcat(a[i + 1..], sep, b);
    }
  }

  lemma {:induction false} SplitJoin(parts: seq<string>, sep: char)
    requires parts != [] && forall p :: p in parts ==> sep !in p
    ensures Split(Join(parts, sep), sep) == parts
  {
    assert sep !in parts[0];
    assert Split(parts[0], sep) == [parts[0]];
    if |parts| > 1 {
      SplitJoin(parts[1..], sep);
      SplitConcat(parts[0], sep, Join(parts[1..], sep));
      assert parts == [parts[0]] + parts[1..];
    }
  }
}
