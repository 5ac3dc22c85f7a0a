/** What the two scrapers accumulate over a page, for any way of reading one line. */
module Accumulate {
  import opened Text
  import opened Sums

  // ----- summing samples (parseMetric) -----

  function Add(sofar: Option<real>, sample: Option<real>): Option<real> {
    match (sofar, sample)
    case (_, None) => sofar
    case (None, Some(v)) => Some(v)
    case (Some(t), Some(v)) => Some(t + v)
  }

  /** The running total of a page, `None` until a first sample was read. */
  function Tally<T>(xs: seq<T>, read: T -> Option<real>): Option<real> {
    if xs == [] then None else Add(Tally(xs[..|xs| - 1], read), read(xs[|xs| - 1]))
  }

  lemma TallySnoc<T>(xs: seq<T>, i: nat, read: T -> Option<real>)
    requires i < |xs|
    ensures Tally(xs[..i + 1], read) == Add(Tally(xs[..i], read), read(xs[i]))
  {
    assert xs[..i + 1][..i] == xs[..i];
  }

  function Contribution<T>(read: T -> Option<real>): T -> real {
    x => match read(x) case None => 0.0 case Some(v) => v
  }

  ghost predicate Carries<T(!new)>(xs: seq<T>, read: T -> Option<real>) {
    exists x :: x in xs && read(x).Some?
  }

  /** Scanning a page yields the sum of its samples, and nothing exactly when it has none. */
  lemma {:induction false} TallyIsSum<T(!new)>(xs: seq<T>, read: T -> Option<real>)
    ensures Tally(xs, read) == if Carries(xs, read) then Some(Total(xs, Contribution(read))) else None
    ensures !Carries(xs, read) ==> Total(xs, Contribution(read)) == 0.0
    decreases |xs|
  {
    if xs != [] {
      var init, last := xs[..|xs| - 1], xs[|xs| - 1];
      assert xs == init + [last];
      TallyIsSum(init, read);
      TotalConcat(init, [last], Contribution(read));
      assert Carries(xs, read) <==> Carries(init, read) || read(last).Some?;
    }
  }

  /** Reading two pages one after the other adds up what each carries. */
  lemma TallyConcat<T(!new)>(xs: seq<T>, ys: seq<T>, read: T -> Option<real>)
    ensures Tally(xs + ys, read) == Add(Tally(xs, read), Tally(ys, read))
  {
    TallyIsSum(xs, read);
    TallyIsSum(ys, read);
    TallyIsSum(xs + ys, read);
    TotalConcat(xs, ys, Contribution(read));
    assert Carries(xs + ys, read) <==> Carries(xs, read) || Carries(ys, read);
  }

  lemma SameMembers<T>(xs: seq<T>, ys: seq<T>)
    requires multiset(xs) == multiset(ys)
    ensures forall x :: x in xs <==> x in ys
  {
    assert forall x :: x in xs <==> x in multiset(xs);
    assert forall x :: x in ys <==> x in multiset(ys);
  }

  lemma TallyPermutation<T(!new)>(xs: seq<T>, ys: seq<T>, read: T -> Option<real>)
    requires multiset(xs) == multiset(ys)
    ensures Tally(xs, read) == Tally(ys, read)
  {
    TallyIsSum(xs, read);
    TallyIsSum(ys, read);
    TotalPermutation(xs, ys, Contribution(read));
    SameMembers(xs, ys);
  }

  // ----- assembling a histogram (parseHistogram) -----

  /** The upper bound of a bucket. */
  datatype Bound = Finite(value: real) | PosInf

  datatype Histogram = Histogram(buckets: map<Bound, real>, count: real)

  /** What one line does to the histogram being assembled. */
  datatype Event = Ignored | BucketSet(bound: Bound, value: real) | CountSet(value: real)

  /** `count` is `None` until a `_count` line was read. */
  datatype Assembly = Assembly(buckets: map<Bound, real>, count: Option<real>)

  function Step(a: Assembly, e: Event): Assembly {
    match e
    case Ignored => a
    case BucketSet(b, v) => a.(buckets := a.buckets[b := v])
    case CountSet(v) => a.(count := Some(v))
  }

  function Assemble<T>(xs: seq<T>, read: T -> Event): Assembly {
    if xs == [] then Assembly(map[], None)
    else Step(Assemble(xs[..|xs| - 1], read), read(xs[|xs| - 1]))
  }

  function Finish(a: Assembly): Option<Histogram> {
    if a.count.None? then None else Some(Histogram(a.buckets, a.count.value))
  }

  lemma AssembleSnoc<T>(xs: seq<T>, i: nat, read: T -> Event)
    requires i < |xs|
    ensures Assemble(xs[..i + 1], read) == Step(Assemble(xs[..i], read), read(xs[i]))
  {
    assert xs[..i + 1][..i] == xs[..i];
  }

  predicate SetsBucket(e: Event, b: Bound) {
    e.BucketSet? && e.bound == b
  }

  /** Line `i` is the last of `xs` to set the bucket `b`. */
  predicate LastBucketLine<T>(xs: seq<T>, read: T -> Event, b: Bound, i: nat) {
    i < |xs| && SetsBucket(read(xs[i]), b) && forall j :: i < j < |xs| ==> !SetsBucket(read(xs[j]), b)
  }

  /** Line `i` is the last of `xs` to set the count. */
  predicate LastCountLine<T>(xs: seq<T>, read: T -> Event, i: nat) {
    i < |xs| && read(xs[i]).CountSet? && forall j :: i < j < |xs| ==> !read(xs[j]).CountSet?
  }

  /** Every bucket holds the value of its last line, and a bucket exists only if some line set it. */
  lemma {:induction false} LastBucketLineWins<T>(xs: seq<T>, read: T -> Event, b: Bound)
    ensures b in Assemble(xs, read).buckets <==> exists i :: 0 <= i < |xs| && SetsBucket(read(xs[i]), b)
    ensures b in Assemble(xs, read).buckets ==>
              exists i: nat :: LastBucketLine(xs, read, b, i) && Assemble(xs, read).buckets[b] == read(xs[i]).value
    decreases |xs|
  {
    if xs != [] {
      var last := |xs| - 1;
      var init := xs[..last];
      LastBucketLineWins(init, read, b);
      assert forall j :: 0 <= j < last ==> init[j] == xs[j];
      if SetsBucket(read(xs[last]), b) {
        assert LastBucketLine(xs, read, b, last);
      } else if b in Assemble(init, read).buckets {
        var i: nat :| LastBucketLine(init, read, b, i) && Assemble(init, read).buckets[b] == read(init[i]).value;
        assert LastBucketLine(xs, read, b, i);
      }
    }
  }

  lemma {:induction false} LastCountLineWins<T>(xs: seq<T>, read: T -> Event)
    ensures Assemble(xs, read).count.Some? <==> exists i :: 0 <= i < |xs| && read(xs[i]).CountSet?
    ensures Assemble(xs, read).count.Some? ==>
              exists i: nat :: LastCountLine(xs, read, i) && Assemble(xs, read).count.value == read(xs[i]).value
    decreases |xs|
  {
    if xs != [] {
      var last := |xs| - 1;
      var init := xs[..last];
      LastCountLineWins(init, read);
      assert forall j :: 0 <= j < last ==> init[j] == xs[j];
      if read(xs[last]).CountSet? {
        assert LastCountLine(xs, read, last);
      } else if Assemble(init, read).count.Some? {
        var i: nat :| LastCountLine(init, read, i) && Assemble(init, read).count.value == read(init[i]).value;
        assert LastCountLine(xs, read, i);
      }
    }
  }

  // ----- when the order of the lines does not matter -----

  predicate Agree(d: Event, e: Event) {
    match (d, e)
    case (BucketSet(b, v), BucketSet(c, w)) => b == c ==> v == w
    case (CountSet(v), CountSet(w)) => v == w
    case _ => true
  }

  /** No two lines give the same bucket, or the count, different values. */
  predicate Consistent<T>(xs: seq<T>, read: T -> Event) {
    forall i, j :: 0 <= i < |xs| && 0 <= j < |xs| ==> Agree(read(xs[i]), read(xs[j]))
  }

  ghost predicate OrderIndependent<T(!new)>(xs: seq<T>, read: T -> Event) {
    forall ys: seq<T> :: multiset(ys) == multiset(xs) ==> Finish(Assemble(ys, read)) == Finish(Assemble(xs, read))
  }

  lemma ConsistentBuckets<T>(xs: seq<T>, ys: seq<T>, read: T -> Event, b: Bound)
    requires multiset(xs) == multiset(ys) && Consistent(xs, read)
    ensures var p, q := Assemble(xs, read).buckets, Assemble(ys, read).buckets;
            (b in p <==> b in q) && (b in p ==> p[b] == q[b])
  {
    hide Assemble;
    SameMembers(xs, ys);
    LastBucketLineWins(xs, read, b);
    LastBucketLineWins(ys, read, b);
    var p, q := Assemble(xs, read).buckets, Assemble(ys, read).buckets;
    assert b in p <==> exists x :: x in xs && SetsBucket(read(x), b);
    assert b in q <==> exists y :: y in ys && SetsBucket(read(y), b);
    if b in p {
      var i: nat :| LastBucketLine(xs, read, b, i) && p[b] == read(xs[i]).value;
      var j: nat :| LastBucketLine(ys, read, b, j) && q[b] == read(ys[j]).value;
      assert ys[j] in xs;
      var k :| 0 <= k < |xs| && xs[k] == ys[j];
      assert Agree(read(xs[i]), read(xs[k]));
    }
  }

  lemma ConsistentCount<T>(xs: seq<T>, ys: seq<T>, read: T -> Event)
    requires multiset(xs) == multiset(ys) && Consistent(xs, read)
    ensures Assemble(xs, read).count == Assemble(ys, read).count
  {
    hide Assemble;
    SameMembers(xs, ys);
    LastCountLineWins(xs, read);
    LastCountLineWins(ys, read);
    var c, d := Assemble(xs, read).count, Assemble(ys, read).count;
    assert c.Some? <==> exists x :: x in xs && read(x).CountSet?;
    assert d.Some? <==> exists y :: y in ys && read(y).CountSet?;
    if c.Some? {
      var i: nat :| LastCountLine(xs, read, i) && c.value == read(xs[i]).value;
      var j: nat :| LastCountLine(ys, read, j) && d.value == read(ys[j]).value;
      assert ys[j] in xs;
      var k :| 0 <= k < |xs| && xs[k] == ys[j];
      assert Agree(read(xs[i]), read(xs[k]));
    }
  }

  lemma ConsistentAssembly<T>(xs: seq<T>, ys: seq<T>, read: T -> Event)
    requires multiset(xs) == multiset(ys) && Consistent(xs, read)
    ensures Assemble(xs, read) == Assemble(ys, read)
  {
    hide Assemble;
    ConsistentCount(xs, ys, read);
    var p, q := Assemble(xs, read).buckets, Assemble(ys, read).buckets;
    forall b: Bound
      ensures (b in p <==> b in q) && (b in p ==> p[b] == q[b])
    {
      ConsistentBuckets(xs, ys, read, b);
    }
    assert p == q;
  }

  function MoveToEnd<T>(xs: seq<T>, i: nat): seq<T>
    requires i < |xs|
  {
    xs[..i] + xs[i + 1..] + [xs[i]]
  }

  /** Whichever line is moved to the end of the page decides its own bucket or the count. */
  lemma MovedLineWins<T>(xs: seq<T>, read: T -> Event, i: nat)
    requires i < |xs|
    ensures multiset(MoveToEnd(xs, i)) == multiset(xs)
    ensures var e, a := read(xs[i]), Assemble(MoveToEnd(xs, i), read);
            (e.BucketSet? ==> e.bound in a.buckets && a.buckets[e.bound] == e.value)
            && (e.CountSet? ==> a.count == Some(e.value))
  {
    RemoveOne(xs, i);
    assert MoveToEnd(xs, i)[..|xs| - 1] == xs[..i] + xs[i + 1..];
  }

  lemma CountSurvivesReordering<T>(xs: seq<T>, ys: seq<T>, read: T -> Event)
    requires multiset(xs) == multiset(ys)
    ensures Finish(Assemble(xs, read)).Some? <==> Finish(Assemble(ys, read)).Some?
  {
    SameMembers(xs, ys);
    LastCountLineWins(xs, read);
    LastCountLineWins(ys, read);
    assert Assemble(xs, read).count.Some? <==> exists x :: x in xs && read(x).CountSet?;
    assert Assemble(ys, read).count.Some? <==> exists y :: y in ys && read(y).CountSet?;
  }

  /** The result is the same for every order of the lines exactly when no `_count` line is
      present or no two lines disagree. */
  lemma OrderIndependentIff<T(!new)>(xs: seq<T>, read: T -> Event)
    ensures OrderIndependent(xs, read) <==> (Assemble(xs, read).count.None? || Consistent(xs, read))
  {
    if Assemble(xs, read).count.None? || Consistent(xs, read) {
      forall ys: seq<T> | multiset(ys) == multiset(xs)
        ensures Finish(Assemble(ys, read)) == Finish(Assemble(xs, read))
      {
        if Assemble(xs, read).count.None? {
          CountSurvivesReordering(xs, ys, read);
        } else {
          ConsistentAssembly(xs, ys, read);
        }
      }
    } else {
      var i, j :| 0 <= i < |xs| && 0 <= j < |xs| && !Agree(read(xs[i]), read(xs[j]));
      MovedLineWins(xs, read, i);
      MovedLineWins(xs, read, j);
      var p, q := MoveToEnd(xs, i), MoveToEnd(xs, j);
      CountSurvivesReordering(xs, p, read);
      CountSurvivesReordering(xs, q, read);
      assert Finish(Assemble(p, read)) != Finish(Assemble(q, read));
    }
  }
}
