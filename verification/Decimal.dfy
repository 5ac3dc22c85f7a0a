/** strconv.ParseFloat on decimal literals, with real arithmetic in place of IEEE-754. */
module Decimal {
  import opened Text

  datatype Sign = NoSign | Plus | Minus

  /** The syntax of a decimal literal: `[+-]whole[.frac][e[+-]digits]`. */
  datatype Literal = Literal(sign: Sign, whole: string, frac: Option<string>, exponent: Option<Exponent>)
  datatype Exponent = Exponent(mark: char, sign: Sign, digits: string)

  predicate IsDigit(c: char) {
    '0' <= c <= '9'
  }

  predicate IsMark(c: char) {
    c == 'e' || c == 'E'
  }

  predicate NotMark(c: char) {
    !IsMark(c)
  }

  predicate NotDot(c: char) {
    c != '.'
  }

  predicate AllDigits(s: string) {
    All(s, IsDigit)
  }

  function FracDigits(l: Literal): string {
    if l.frac.Some? then l.frac.value else ""
  }

  predicate Valid(l: Literal) {
    && AllDigits(l.whole) && AllDigits(FracDigits(l))
    && |l.whole| + |FracDigits(l)| > 0
    && (l.exponent.Some? ==>
        var e := l.exponent.value;
        IsMark(e.mark) && AllDigits(e.digits) && e.digits != "")
  }

  // ----- the text of a literal -----

  function SignText(s: Sign): string {
    match s
    case NoSign => ""
    case Plus => "+"
    case Minus => "-"
  }

  function MantissaText(l: Literal): string {
    l.whole + if l.frac.Some? then "." + l.frac.value else ""
  }

  function ExponentText(e: Option<Exponent>): string {
    match e
    case None => ""
    case Some(x) => [x.mark] + SignText(x.sign) + x.digits
  }

  function ToText(l: Literal): string {
    SignText(l.sign) + (MantissaText(l) + ExponentText(l.exponent))
  }

  // ----- the value of a literal -----

  function DigitsValue(s: string): nat
    requires AllDigits(s)
  {
    if s == "" then 0 else 10 * DigitsValue(s[..|s| - 1]) + (s[|s| - 1] as int - '0' as int)
  }

  function Pow10(e: int): (p: real)
    ensures p > 0.0
    decreases if e < 0 then -e else e
  {
    if e == 0 then 1.0 else if e > 0 then 10.0 * Pow10(e - 1) else Pow10(e + 1) / 10.0
  }

  function Signed(s: Sign, x: real): real {
    if s == Minus then -x else x
  }

  function ExponentValue(e: Option<Exponent>): int
    requires e.Some? ==> AllDigits(e.value.digits)
  {
    match e
    case None => 0
    case Some(x) =>
      var v: int := DigitsValue(x.digits);
      if x.sign == Minus then -v else v
  }

  function Value(l: Literal): real
    requires Valid(l)
  {
    var digits := l.whole + FracDigits(l);
    Signed(l.sign, DigitsValue(digits) as real * Pow10(ExponentValue(l.exponent) - |FracDigits(l)|))
  }

  // ----- reading -----

  function SplitSign(s: string): (Sign, string) {
    if s != "" && s[0] == '+' then (Plus, s[1..])
    else if s != "" && s[0] == '-' then (Minus, s[1..])
    else (NoSign, s)
  }

  function ReadMantissa(m: string): (string, Option<string>) {
    var dot := Span(m, NotDot);
    (m[..dot], if dot < |m| then Some(m[dot + 1..]) else None)
  }

  function ReadExponent(t: string): Option<Exponent> {
    if t == "" then None else
    var (sign, digits) := SplitSign(t[1..]);
    Some(Exponent(t[0], sign, digits))
  }

  function ReadBody(body: string): (string, Option<string>, Option<Exponent>) {
    var e := Span(body, NotMark);
    var (whole, frac) := ReadMantissa(body[..e]);
    (whole, frac, ReadExponent(body[e..]))
  }

  /** The literal that `s` spells, if it spells one. */
  function ReadLiteral(s: string): Option<Literal> {
    var (sign, body) := SplitSign(s);
    var (whole, frac, exponent) := ReadBody(body);
    var l := Literal(sign, whole, frac, exponent);
    if Valid(l) then Some(l) else None
  }

  /** strconv.ParseFloat; `None` is its error. */
  function ParseFloat(s: string): Option<real> {
    match ReadLiteral(s)
    case None => None
    case Some(l) => Some(Value(l))
  }

  // ----- reading inverts writing, both ways -----

  lemma SplitSignText(sign: Sign, rest: string)
    requires rest == "" || (rest[0] != '+' && rest[0] != '-')
    ensures SplitSign(SignText(sign) + rest) == (sign, rest)
  {
    var s := SignText(sign) + rest;
    match sign
    case NoSign => assert s == rest;
    case Plus => assert s[0] == '+' && s[1..] == rest;
    case Minus => assert s[0] == '-' && s[1..] == rest;
  }

  lemma TextOfSplitSign(s: string)
    ensures var (sign, rest) := SplitSign(s); SignText(sign) + rest == s
  {
  }

  lemma ReadMantissaText(l: Literal)
    requires Valid(l)
    ensures ReadMantissa(MantissaText(l)) == (l.whole, l.frac)
  {
    var m := MantissaText(l);
    assert m[..|l.whole|] == l.whole;
    SpanIs(m, NotDot, |l.whole|);
    if l.frac.Some? {
      assert m[|l.whole| + 1..] == l.frac.value;
    }
  }

  lemma ReadExponentText(e: Option<Exponent>)
    requires e.Some? ==> IsMark(e.value.mark) && AllDigits(e.value.digits)
    ensures ReadExponent(ExponentText(e)) == e
  {
    if e.Some? {
      var x := e.value;
      assert ExponentText(e)[1..] == SignText(x.sign) + x.digits;
      SplitSignText(x.sign, x.digits);
    }
  }

  lemma ReadBodyText(l: Literal)
    requires Valid(l)
    ensures ReadBody(MantissaText(l) + ExponentText(l.exponent)) == (l.whole, l.frac, l.exponent)
  {
    var m, t := MantissaText(l), ExponentText(l.exponent);
    assert (m + t)[..|m|] == m && (m + t)[|m|..] == t;
    assert All(m, NotMark);
    SpanIs(m + t, NotMark, |m|);
    ReadMantissaText(l);
    ReadExponentText(l.exponent);
  }

  lemma ReadLiteralOfText(l: Literal)
    requires Valid(l)
    ensures ReadLiteral(ToText(l)) == Some(l)
  {
    var body := MantissaText(l) + ExponentText(l.exponent);
    assert body[0] != '+' && body[0] != '-';
    SplitSignText(l.sign, body);
    ReadBodyText(l);
  }

  lemma TextOfReadMantissa(m: string, l: Literal)
    requires ReadMantissa(m) == (l.whole, l.frac)
    ensures MantissaText(l) == m
  {
  }

  lemma TextOfReadExponent(t: string)
    ensures ExponentText(ReadExponent(t)) == t
  {
    if t != "" {
      TextOfSplitSign(t[1..]);
      assert ExponentText(ReadExponent(t)) == [t[0]] + t[1..];
    }
  }

  lemma TextOfReadBody(body: string, l: Literal)
    requires ReadBody(body) == (l.whole, l.frac, l.exponent)
    ensures MantissaText(l) + ExponentText(l.exponent) == body
  {
    var e := Span(body, NotMark);
    TextOfReadMantissa(body[..e], l);
    TextOfReadExponent(body[e..]);
  }

  lemma TextOfReadLiteral(s: string)
    requires ReadLiteral(s).Some?
    ensures Valid(ReadLiteral(s).value) && ToText(ReadLiteral(s).value) == s
  {
    TextOfReadBody(SplitSign(s).1, ReadLiteral(s).value);
    TextOfSplitSign(s);
  }

  /** The reader accepts exactly the decimal literals and yields exactly the literal written. */
  lemma ReadsExactlyLiterals(s: string, l: Literal)
    ensures ReadLiteral(s) == Some(l) <==> (Valid(l) && ToText(l) == s)
  {
    if Valid(l) && ToText(l) == s {
      ReadLiteralOfText(l);
    }
    if ReadLiteral(s) == Some(l) {
      TextOfReadLiteral(s);
    }
  }

  lemma ParseFloatOfText(l: Literal)
    requires Valid(l)
    ensures ParseFloat(ToText(l)) == Some(Value(l))
  {
    ReadLiteralOfText(l);
  }

  /** No character of a literal can be taken for part of a page's punctuation. */
  predicate Plain(c: char) {
    IsDigit(c) || c == '+' || c == '-' || c == '.' || IsMark(c)
  }

  lemma LiteralIsPlain(l: Literal)
    requires Valid(l)
    ensures ToText(l) != "" && All(ToText(l), Plain)
  {
  }

  // ----- natural numbers -----

  /** fmt's %d on a non-negative integer. */
  function NatText(n: nat): (s: string)
    ensures s != "" && AllDigits(s) && DigitsValue(s) == n
  {
    var last := ['0' + (n % 10) as char];
    if n < 10 then
      assert last[..0] == "";
      last
    else
      var s := NatText(n / 10) + last;
      assert s[..|s| - 1] == NatText(n / 10);
      s
  }

  function NatLiteral(n: nat): (l: Literal)
    ensures Valid(l) && Value(l) == n as real
  {
    var l := Literal(NoSign, NatText(n), None, None);
    assert l.whole + FracDigits(l) == l.whole;
    l
  }

  // ----- what a literal is worth, told from its text alone -----

  lemma Pow10Next(e: int)
    ensures Pow10(e + 1) == 10.0 * Pow10(e) && Pow10(0) == 1.0
  {
  }

  lemma TenTimes(x: real, y: real)
    ensures 10.0 * (x * y) == (10.0 * x) * y == x * (10.0 * y)
  {
  }

  lemma {:induction false} Pow10Sum(a: int, b: int)
    ensures Pow10(a + b) == Pow10(a) * Pow10(b)
    decreases if a < 0 then -a else a
  {
    hide Pow10;
    if a > 0 {
      Pow10Sum(a - 1, b);
      Pow10Next(a - 1);
      Pow10Next(a - 1 + b);
      TenTimes(Pow10(a - 1), Pow10(b));
    } else if a < 0 {
      Pow10Sum(a + 1, b);
      Pow10Next(a);
      Pow10Next(a + b);
      TenTimes(Pow10(a), Pow10(b));
    } else {
      Pow10Next(0);
    }
  }

  lemma WholeIsText(s: string)
    ensures ToText(Literal(NoSign, s, None, None)) == s
  {
  }

  lemma DigitsRead(s: string)
    requires AllDigits(s) && s != ""
    ensures ParseFloat(s) == Some(DigitsValue(s) as real)
  {
    hide ParseFloat, DigitsValue;
    var l := Literal(NoSign, s, None, None);
    WholeIsText(s);
    ParseFloatOfText(l);
    assert l.whole + FracDigits(l) == s;
    hide ToText;
    assert Pow10(0) == 1.0;
  }

  /** Digits read positionally, to the base of ten. */
  lemma NextDigitReads(s: string, d: char)
    requires AllDigits(s) && IsDigit(d)
    ensures ParseFloat([d]) == Some((d as int - '0' as int) as real)
    ensures s != "" ==> ParseFloat(s).Some?
                        && ParseFloat(s + [d]) == Some(10.0 * ParseFloat(s).value + (d as int - '0' as int) as real)
  {
    hide ParseFloat;
    assert [d][..0] == "" && (s + [d])[..|s|] == s;
    DigitsRead([d]);
    if s != "" {
      DigitsRead(s);
      assert AllDigits(s + [d]);
      DigitsRead(s + [d]);
    }
  }

  lemma NatTextReads(n: nat)
    ensures ParseFloat(NatText(n)) == Some(n as real)
  {
    DigitsRead(NatText(n));
  }

  lemma LiteralReads(l: Literal, text: string)
    requires Valid(l) && ToText(l) == text
    ensures ParseFloat(text) == Some(Value(l))
  {
    ParseFloatOfText(l);
  }

  lemma FractionIsWorth(l: Literal, d: real, p: real)
    requires Valid(l) && l.sign == NoSign && l.frac.Some? && l.exponent == None
    requires d == DigitsValue(l.whole + l.frac.value) as real && p == Pow10(-(|l.frac.value| as int))
    ensures Value(l) == d * p
  {
    hide DigitsValue, Pow10;
  }

  lemma FractionIsText(w: string, f: string)
    requires AllDigits(w) && AllDigits(f) && w + f != ""
    ensures Valid(Literal(NoSign, w, Some(f), None)) && AllDigits(w + f)
    ensures ToText(Literal(NoSign, w, Some(f), None)) == w + "." + f
  {
  }

  lemma FractionIs(w: string, f: string, p: real)
    requires AllDigits(w) && AllDigits(f) && w + f != "" && p == Pow10(-(|f| as int))
    ensures ParseFloat(w + "." + f).Some? && ParseFloat(w + f).Some?
    ensures ParseFloat(w + "." + f).value == ParseFloat(w + f).value * p
  {
    hide *;
    var l := Literal(NoSign, w, Some(f), None);
    FractionIsText(w, f);
    LiteralReads(l, w + "." + f);
    DigitsRead(w + f);
    FractionIsWorth(l, ParseFloat(w + f).value, p);
  }

  lemma InverseOf(n: nat, p: real, q: real)
    requires p == Pow10(-(n as int)) && q == Pow10(n)
    ensures p * q == 1.0
  {
    hide Pow10;
    Pow10Next(0);
    Pow10Sum(-(n as int), n);
  }

  lemma Cancels(v: real, d: real, p: real, q: real)
    requires v == d * p && p * q == 1.0
    ensures v * q == d
  {
    assert (d * p) * q == d * (p * q);
  }

  /** A fraction of n digits is 10^n times less than its digits without the point. */
  lemma FractionReads(w: string, f: string)
    requires AllDigits(w) && AllDigits(f) && w + f != ""
    ensures ParseFloat(w + "." + f).Some? && ParseFloat(w + f).Some?
    ensures ParseFloat(w + "." + f).value * Pow10(|f|) == ParseFloat(w + f).value
  {
    hide ParseFloat, DigitsValue, Pow10, All;
    var p, q := Pow10(-(|f| as int)), Pow10(|f|);
    FractionIs(w, f, p);
    InverseOf(|f|, p, q);
    Cancels(ParseFloat(w + "." + f).value, ParseFloat(w + f).value, p, q);
  }

  function Negated(v: Option<real>): Option<real> {
    if v.Some? then Some(-v.value) else None
  }

  lemma SignDecides(l: Literal)
    requires l.sign == NoSign
    ensures Valid(l) <==> Valid(l.(sign := Minus))
    ensures Valid(l) <==> Valid(l.(sign := Plus))
    ensures Valid(l) ==> Value(l.(sign := Minus)) == -Value(l) && Value(l.(sign := Plus)) == Value(l)
  {
    hide DigitsValue, Pow10, ExponentValue;
  }

  /** A sign in front of an unsigned text, be it a number or not. */
  lemma SignReads(s: string)
    requires s != "" ==> s[0] != '+' && s[0] != '-'
    ensures ParseFloat("-" + s) == Negated(ParseFloat(s))
    ensures ParseFloat("+" + s) == ParseFloat(s)
  {
    hide ReadBody, Valid, Value;
    assert ("-" + s)[1..] == s && ("+" + s)[1..] == s;
    var (whole, frac, exponent) := ReadBody(s);
    SignDecides(Literal(NoSign, whole, frac, exponent));
  }

  /** fmt's %d */
  function IntText(e: int): string {
    if e < 0 then "-" + NatText(-e) else NatText(e)
  }

  lemma ExponentIsText(l: Literal, x: Exponent)
    requires l.exponent == None
    ensures ToText(l.(exponent := Some(x))) == ToText(l) + [x.mark] + (SignText(x.sign) + x.digits)
  {
  }

  lemma ScaleValue(l: Literal, le: Literal, e: int)
    requires Valid(l) && Valid(le) && l.exponent == None
    requires le == l.(exponent := le.exponent) && ExponentValue(le.exponent) == e
    requires Pow10(e - |FracDigits(l)|) == Pow10(e) * Pow10(-(|FracDigits(l)| as int))
    ensures Value(le) == Value(l) * Pow10(e)
  {
    hide Pow10;
    var v := DigitsValue(l.whole + FracDigits(l)) as real;
    var p, q := Pow10(e), Pow10(-(|FracDigits(l)| as int));
    assert v * (p * q) == (v * q) * p;
    assert -((v * q) * p) == (-(v * q)) * p;
  }

  lemma MarkInText(l: Literal)
    ensures l.exponent.Some? ==> l.exponent.value.mark in ToText(l)
  {
    if l.exponent.Some? {
      assert ToText(l)[|SignText(l.sign)| + |MantissaText(l)|] == l.exponent.value.mark;
    }
  }

  lemma LiteralOf(m: string) returns (l: Literal)
    requires ParseFloat(m).Some? && All(m, NotMark)
    ensures Valid(l) && ToText(l) == m && l.exponent == None
  {
    l := ReadLiteral(m).value;
    TextOfReadLiteral(m);
    MarkInText(l);
  }

  lemma ExponentReadsAs(m: string, mark: char, sign: Sign, digits: string, e: int)
    requires ParseFloat(m).Some? && All(m, NotMark) && IsMark(mark) && AllDigits(digits) && digits != ""
    requires e == if sign == Minus then -(DigitsValue(digits) as int) else DigitsValue(digits)
    ensures ParseFloat(m + [mark] + (SignText(sign) + digits)).Some?
    ensures ParseFloat(m + [mark] + (SignText(sign) + digits)).value == ParseFloat(m).value * Pow10(e)
  {
    hide ParseFloat, DigitsValue, Pow10, Value, ToText;
    var l := LiteralOf(m);
    var x := Exponent(mark, sign, digits);
    var le := l.(exponent := Some(x));
    ExponentIsText(l, x);
    ParseFloatOfText(l);
    ParseFloatOfText(le);
    Pow10Sum(e, -(|FracDigits(l)| as int));
    ScaleValue(l, le, e);
    var text := m + [mark] + (SignText(sign) + digits);
    assert ToText(le) == text;
    assert ParseFloat(text) == Some(Value(le));
    assert ParseFloat(m) == Some(Value(l));
  }

  lemma ZeroExponent(m: string, mark: char)
    requires ParseFloat(m).Some? && All(m, NotMark) && IsMark(mark)
    ensures ParseFloat(m + [mark] + "0") == ParseFloat(m)
  {
    hide ParseFloat;
    assert "0"[..0] == "" && DigitsValue("0") == 0 && SignText(NoSign) + "0" == "0";
    ExponentReadsAs(m, mark, NoSign, "0", 0);
  }

  lemma IntExponentReads(m: string, mark: char, e: int)
    requires ParseFloat(m).Some? && All(m, NotMark) && IsMark(mark)
    ensures ParseFloat(m + [mark] + IntText(e)).Some?
    ensures ParseFloat(m + [mark] + IntText(e)).value == ParseFloat(m).value * Pow10(e)
  {
    hide ParseFloat;
    if e < 0 {
      ExponentReadsAs(m, mark, Minus, NatText(-e), e);
    } else {
      assert SignText(NoSign) + NatText(e) == NatText(e);
      ExponentReadsAs(m, mark, NoSign, NatText(e), e);
    }
  }

  lemma PlusExponent(m: string, mark: char, e: nat)
    requires ParseFloat(m).Some? && All(m, NotMark) && IsMark(mark)
    ensures ParseFloat(m + [mark] + ("+" + NatText(e))) == ParseFloat(m + [mark] + IntText(e))
  {
    hide ParseFloat;
    IntExponentReads(m, mark, e);
    ExponentReadsAs(m, mark, Plus, NatText(e), e);
  }

  /** An exponent multiplies: without sign, with a plus or with a minus, one more is ten times as much,
      and zero changes nothing. */
  lemma ExponentReads(m: string, mark: char, e: int)
    requires ParseFloat(m).Some? && 'e' !in m && 'E' !in m && (mark == 'e' || mark == 'E')
    ensures ParseFloat(m + [mark] + IntText(e)).Some? && ParseFloat(m + [mark] + IntText(e + 1)).Some?
    ensures ParseFloat(m + [mark] + IntText(e + 1)).value == 10.0 * ParseFloat(m + [mark] + IntText(e)).value
    ensures ParseFloat(m + [mark] + "0") == ParseFloat(m)
    ensures e >= 0 ==> ParseFloat(m + [mark] + ("+" + NatText(e))) == ParseFloat(m + [mark] + IntText(e))
  {
    hide ParseFloat, DigitsValue, IntText, Pow10;
    IntExponentReads(m, mark, e);
    IntExponentReads(m, mark, e + 1);
    Pow10Next(e);
    TenTimes(ParseFloat(m).value, Pow10(e));
    ZeroExponent(m, mark);
    if e >= 0 {
      PlusExponent(m, mark, e);
    }
  }

  lemma ExponentEndsInDigit(l: Literal)
    requires Valid(l)
    ensures l.exponent.Some? ==> var t := ExponentText(l.exponent); t != "" && IsDigit(t[|t| - 1])
  {
  }

  lemma FrontIsMarkless(l: Literal) returns (front: string)
    requires Valid(l)
    ensures ToText(l) == front + ExponentText(l.exponent) && All(front, NotMark)
    ensures l.exponent.Some? <==> ExponentText(l.exponent) != ""
    ensures l.exponent.Some? ==> IsMark(ExponentText(l.exponent)[0])
  {
    front := SignText(l.sign) + MantissaText(l);
  }

  lemma SameFront(a: string, x: string, m: string, y: string)
    requires a + x == m + y && All(a, NotMark) && All(m, NotMark)
    requires (x == "" || IsMark(x[0])) && y != "" && IsMark(y[0])
    ensures x == y
  {
    var s := a + x;
    assert forall i :: 0 <= i < |a| ==> s[i] == a[i];
    assert forall i :: 0 <= i < |m| ==> s[i] == m[i];
    assert s[|m|] == y[0];
    assert x != "" ==> s[|a|] == x[0];
    assert |a| == |m|;
    assert s[|a|..] == x && s[|m|..] == y;
  }

  /** The first mark of a literal's text opens its exponent. */
  lemma MarkSplits(m: string, mark: char, rest: string, l: Literal)
    requires Valid(l) && All(m, NotMark) && IsMark(mark) && ToText(l) == m + [mark] + rest
    ensures l.exponent.Some? && ExponentText(l.exponent) == [mark] + rest
  {
    hide ToText, Valid, ExponentText;
    var front := FrontIsMarkless(l);
    assert m + [mark] + rest == m + ([mark] + rest);
    SameFront(front, ExponentText(l.exponent), m, [mark] + rest);
  }

  lemma OpenExponentIsRefused(m: string, mark: char, sign: Sign)
    requires All(m, NotMark) && IsMark(mark)
    ensures ParseFloat(m + [mark] + SignText(sign)) == None
  {
    hide Value;
    var s := m + [mark] + SignText(sign);
    if ReadLiteral(s).Some? {
      var l := ReadLiteral(s).value;
      TextOfReadLiteral(s);
      assert l.exponent.Some? && ExponentText(l.exponent) == [mark] + SignText(sign) by {
        MarkSplits(m, mark, SignText(sign), l);
      }
      ExponentEndsInDigit(l);
    }
  }

  lemma NoDigitsIsRefused()
    ensures ParseFloat("") == None && ParseFloat(".") == None
  {
    assert "."[1..] == "" && "."[..0] == "";
  }

  /** No digits, or none behind the mark of an exponent: that is no number. */
  lemma MalformedIsRefused(m: string, mark: char)
    requires 'e' !in m && 'E' !in m && (mark == 'e' || mark == 'E')
    ensures ParseFloat("") == None && ParseFloat(".") == None
    ensures ParseFloat(m + [mark]) == None
    ensures ParseFloat(m + [mark] + "+") == None && ParseFloat(m + [mark] + "-") == None
  {
    hide ParseFloat;
    NoDigitsIsRefused();
    OpenExponentIsRefused(m, mark, NoSign);
    OpenExponentIsRefused(m, mark, Plus);
    OpenExponentIsRefused(m, mark, Minus);
    assert m + [mark] + "" == m + [mark];
  }

  /** Other digits of the exponent mean the number that they read as. */
  lemma ExponentDigitsRead(m: string, mark: char, sign: Sign, digits: string, n: nat)
    requires ParseFloat(m).Some? && All(m, NotMark) && IsMark(mark)
    requires AllDigits(digits) && digits != "" && ParseFloat(digits) == Some(n as real)
    ensures ParseFloat(m + [mark] + (SignText(sign) + digits)) == ParseFloat(m + [mark] + (SignText(sign) + NatText(n)))
  {
    hide ParseFloat;
    DigitsRead(digits);
    var e := if sign == Minus then -(n as int) else n;
    ExponentReadsAs(m, mark, sign, digits, e);
    ExponentReadsAs(m, mark, sign, NatText(n), e);
  }
}
