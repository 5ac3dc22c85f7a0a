/** Comma-separated parameters: parseCSV and parseSelector. */
module Csv {
  import opened Text
  import opened Order

  // ----- parseCSV -----

  /** The trimmed, non-empty parts, in order. */
  function Items(parts: seq<string>): seq<string> {
    if parts == [] then []
    else
      var init, last := Items(parts[..|parts| - 1]), TrimSpace(parts[|parts| - 1]);
      if last != "" then init + [last] else init
  }

  function CsvItems(s: string): seq<string> {
    Items(Split(s, ','))
  }

  function NotBlank(parts: seq<string>): nat -> bool {
    (i: nat) => i < |parts| && TrimSpace(parts[i]) != ""
  }

  function IsTrimmedPart(parts: seq<string>): (nat, string) -> bool {
    (i: nat, item: string) => i < |parts| && item == TrimSpace(parts[i])
  }

  lemma {:induction false} ItemsInOrder(parts: seq<string>)
    ensures TakenInOrder(|parts|, NotBlank(parts), IsTrimmedPart(parts), Items(parts))
    decreases |parts|
  {
    hide TrimSpace;
    if parts == [] {
      NothingTaken(NotBlank(parts), IsTrimmedPart(parts));
    } else {
      var n := |parts| - 1;
      var init := parts[..n];
      ItemsInOrder(init);
      Retaken(n, NotBlank(init), IsTrimmedPart(init), NotBlank(parts), IsTrimmedPart(parts), Items(init));
      TakeNext(n, NotBlank(parts), IsTrimmedPart(parts), Items(init), TrimSpace(parts[n]));
    }
  }

  method ParseCSV(s: string) returns (out: seq<string>)
    ensures out == CsvItems(s)
    ensures var parts := Split(s, ','); TakenInOrder(|parts|, NotBlank(parts), IsTrimmedPart(parts), out)
  {
    hide TrimSpace;
    ItemsInOrder(Split(s, ','));
    if s == "" {
      TrimSpaceIdentity("");
      assert Split(s, ',') == [""] && [""][..0] == [] && Items([""]) == [];
      return [];
    }
    out := [];
    var parts := Split(s, ',');
    for i := 0 to |parts|
      invariant out == Items(parts[..i])
    {
      assert parts[..i + 1][..i] == parts[..i];
      var p := TrimSpace(parts[i]);
      if p != "" {
        out := out + [p];
      }
    }
    assert parts[..|parts|] == parts;
  }

  predicate IsItem(p: string) {
    p != "" && Trimmed(p) && ',' !in p
  }

  lemma TrimSpaceKeepsOut(s: string, c: char)
    requires c !in s
    ensures c !in TrimSpace(s)
  {
    var t := s[Span(s, IsSpace)..];
    assert forall x :: x in t ==> x in s;
    assert forall x :: x in TrimRight(t) ==> x in t;
  }

  lemma {:induction false} ItemsAreItems(parts: seq<string>)
    requires forall p :: p in parts ==> ',' !in p
    ensures forall q :: q in Items(parts) ==> IsItem(q)
    decreases |parts|
  {
    if parts != [] {
      hide TrimSpace;
      ItemsAreItems(parts[..|parts| - 1]);
      TrimSpaceKeepsOut(parts[|parts| - 1], ',');
    }
  }

  lemma {:induction false} ItemsOfItems(items: seq<string>)
    requires forall q :: q in items ==> IsItem(q)
    ensures Items(items) == items
    decreases |items|
  {
    if items != [] {
      hide TrimSpace;
      ItemsOfItems(items[..|items| - 1]);
      assert IsItem(items[|items| - 1]);
      TrimSpaceIdentity(items[|items| - 1]);
    }
  }

  /** Every list of proper items survives joining and parsing. */
  lemma CsvRoundTrip(items: seq<string>)
    requires forall q :: q in items ==> IsItem(q)
    ensures CsvItems(Join(items, ',')) == items
  {
    if items == [] {
      assert Split("", ',') == [""] && [""][..0] == [] && TrimSpace("") == "";
    } else {
      SplitJoin(items, ',');
      ItemsOfItems(items);
    }
  }

  /** Parsing normalises: its output consists of proper items and parses to itself. */
  lemma CsvNormalises(s: string)
    ensures forall q :: q in CsvItems(s) ==> IsItem(q)
    ensures CsvItems(Join(CsvItems(s), ',')) == CsvItems(s)
  {
    ItemsAreItems(Split(s, ','));
    CsvRoundTrip(CsvItems(s));
  }

  // ----- parseSelector -----

  /** The binding of `key` that one comma-separated part makes, if it makes one. */
  function BindingOf(part: string, key: string): Option<string> {
    var kv := TrimSpace(part);
    var eq := IndexByte(kv, '=');
    if eq < 0 || TrimSpace(kv[..eq]) != key then None else Some(TrimSpace(kv[eq + 1..]))
  }

  function FirstBinding(parts: seq<string>, key: string): Option<string> {
    if parts == [] then None
    else if BindingOf(parts[0], key).Some? then BindingOf(parts[0], key)
    else FirstBinding(parts[1..], key)
  }

  /** The part reads `key=value` up to blanks around either. */
  ghost predicate Binds(part: string, key: string, value: string) {
    exists k, v :: TrimSpace(part) == k + ("=" + v) && '=' !in k && TrimSpace(k) == key && TrimSpace(v) == value
  }

  lemma BindingOfIs(part: string, key: string, value: string)
    ensures BindingOf(part, key) == Some(value) <==> Binds(part, key, value)
  {
    hide TrimSpace;
    var kv := TrimSpace(part);
    if BindingOf(part, key) == Some(value) {
      var eq := IndexByte(kv, '=');
      SplitAt(kv, eq);
      assert kv == kv[..eq] + ("=" + kv[eq + 1..]);
    }
    if Binds(part, key, value) {
      var k, v :| TrimSpace(part) == k + ("=" + v) && '=' !in k && TrimSpace(k) == key && TrimSpace(v) == value;
      assert kv == k + ['='] + v;
      IndexByteIs(k, '=', v);
      assert kv[..|k|] == k && kv[|k| + 1..] == v;
    }
  }

  /** Part i is the first to bind the key. */
  ghost predicate FirstToBind(parts: seq<string>, key: string, value: string, i: nat) {
    i < |parts| && Binds(parts[i], key, value) && forall j, v :: 0 <= j < i ==> !Binds(parts[j], key, v)
  }

  ghost predicate NobodyBinds(parts: seq<string>, key: string) {
    forall j, v :: 0 <= j < |parts| ==> !Binds(parts[j], key, v)
  }

  ghost predicate TellsBinding(parts: seq<string>, key: string, b: Option<string>) {
    match b
    case None => NobodyBinds(parts, key)
    case Some(v) => exists i: nat :: FirstToBind(parts, key, v, i)
  }

  lemma {:induction false} FirstBindingIs(parts: seq<string>, key: string)
    ensures TellsBinding(parts, key, FirstBinding(parts, key))
    decreases |parts|
  {
    hide BindingOf, Binds;
    if parts != [] {
      forall v
        ensures Binds(parts[0], key, v) <==> BindingOf(parts[0], key) == Some(v)
      {
        BindingOfIs(parts[0], key, v);
      }
      FirstBindingIs(parts[1..], key);
      assert forall j :: 1 <= j < |parts| ==> parts[j] == parts[1..][j - 1];
      var b := FirstBinding(parts, key);
      if BindingOf(parts[0], key).Some? {
        assert FirstToBind(parts, key, BindingOf(parts[0], key).value, 0);
        assert TellsBinding(parts, key, BindingOf(parts[0], key));
      } else if b.Some? {
        var i: nat :| FirstToBind(parts[1..], key, b.value, i);
        assert FirstToBind(parts, key, b.value, i + 1);
      }
    }
  }

  method ParseSelector(sel: string, key: string) returns (value: Option<string>)
    ensures value == FirstBinding(Split(sel, ','), key)
    ensures TellsBinding(Split(sel, ','), key, value)
  {
    hide TrimSpace, Binds;
    FirstBindingIs(Split(sel, ','), key);
    var parts := Split(sel, ',');
    for i := 0 to |parts|
      invariant FirstBinding(parts, key) == FirstBinding(parts[i..], key)
    {
      assert parts[i..][1..] == parts[i + 1..];
      var kv := TrimSpace(parts[i]);
      var eq := IndexByte(kv, '=');
      if eq < 0 {
        continue;
      }
      if TrimSpace(kv[..eq]) == key {
        return Some(TrimSpace(kv[eq + 1..]));
      }
    }
    return None;
  }

  datatype Pair = Pair(key: string, value: string)

  predicate LegalPair(p: Pair) {
    && Trimmed(p.key) && Trimmed(p.value)
    && ',' !in p.key && ',' !in p.value && '=' !in p.key
  }

  function PairText(p: Pair): string {
    p.key + "=" + p.value
  }

  function PairTexts(ps: seq<Pair>): seq<string> {
    if ps == [] then [] else [PairText(ps[0])] + PairTexts(ps[1..])
  }

  /** The value first paired with the key. */
  function Lookup(ps: seq<Pair>, key: string): Option<string> {
    if ps == [] then None
    else if ps[0].key == key then Some(ps[0].value)
    else Lookup(ps[1..], key)
  }

  lemma BindingOfPair(p: Pair, key: string)
    requires LegalPair(p)
    ensures BindingOf(PairText(p), key) == if p.key == key then Some(p.value) else None
    ensures ',' !in PairText(p)
  {
    hide TrimSpace;
    var t := PairText(p);
    TrimSpaceIdentity(p.key);
    TrimSpaceIdentity(p.value);
    assert t == p.key + ['='] + p.value;
    TrimSpaceIdentity(t);
    IndexByteIs(p.key, '=', p.value);
    assert t[..|p.key|] == p.key && t[|p.key| + 1..] == p.value;
  }

  lemma {:induction false} FirstBindingOfPairs(ps: seq<Pair>, key: string)
    requires forall p :: p in ps ==> LegalPair(p)
    ensures FirstBinding(PairTexts(ps), key) == Lookup(ps, key)
    ensures forall t :: t in PairTexts(ps) ==> ',' !in t
    decreases |ps|
  {
    if ps != [] {
      hide BindingOf;
      BindingOfPair(ps[0], key);
      FirstBindingOfPairs(ps[1..], key);
      assert PairTexts(ps)[1..] == PairTexts(ps[1..]);
    }
  }

  /** A selector rendered from pairs answers every key like the list of pairs does. */
  lemma SelectorRoundTrip(ps: seq<Pair>, key: string)
    requires ps != [] && forall p :: p in ps ==> LegalPair(p)
    ensures FirstBinding(Split(Join(PairTexts(ps), ','), ','), key) == Lookup(ps, key)
  {
    FirstBindingOfPairs(ps, key);
    SplitJoin(PairTexts(ps), ',');
  }
}
