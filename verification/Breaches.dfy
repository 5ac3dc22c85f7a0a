/** The breach log that every watcher appends to, as one goroutine sees it.
    `RecorderSteps` has the interleaved version. */
module Breaches {
  import opened Sums

  /** Which branch recorded a breach; the prose of Detail and the time stamp are left out. */
  datatype Cause =
    | ScrapeFailed
    | MetricMissing
    | NoBoundary
    | BelowRatio
    | Grew(delta: real)
    | FetchFailed
    | Undecodable
    | Leaked(event: string)

  datatype Breach = Breach(name: string, kind: string, cause: Cause, tenants: seq<string>)

  /** The part of an invariant block that ends up in its breaches. */
  datatype Spec = Spec(name: string, kind: string)

  function MakeBreach(spec: Spec, cause: Cause): Breach {
    Breach(spec.name, spec.kind, cause, [])
  }

  /** A logged breach with the goroutine that logged it. */
  datatype Entry = Entry(author: nat, breach: Breach)

  type CellKey = (string, string)

  function KeyOf(b: Breach): CellKey {
    (b.name, b.kind)
  }

  function InCell(key: CellKey): Breach -> nat {
    (b: Breach) => if b.name == key.0 && b.kind == key.1 then 1 else 0
  }

  function Cell(counter: map<CellKey, nat>, key: CellKey): nat {
    if key in counter then counter[key] else 0
  }

  class Recorder {
    var breaches: seq<Breach>
    var counter: map<CellKey, nat>
    const mirrored: bool

    /** The counter, if there is one, agrees with the log cell by cell. */
    ghost predicate Valid()
      reads this
    {
      forall key: CellKey :: Cell(counter, key) == if mirrored then Sum(breaches, InCell(key)) else 0
    }

    constructor (mirrored: bool)
      ensures Valid() && breaches == [] && this.mirrored == mirrored
    {
      this.mirrored := mirrored;
      breaches, counter := [], map[];
    }

    method Record(b: Breach)
      requires Valid()
      modifies this
      ensures Valid() && breaches == old(breaches) + [b]
    {
      breaches := breaches + [b];
      if mirrored {
        counter := counter[KeyOf(b) := Cell(counter, KeyOf(b)) + 1];
      }
      forall key: CellKey
        ensures Sum(breaches, InCell(key)) == Sum(old(breaches), InCell(key)) + InCell(key)(b)
      {
        SumSnoc(old(breaches), b, InCell(key));
      }
    }

    method Snapshot() returns (out: seq<Breach>)
      ensures out == breaches
    {
      out := breaches;
    }
  }
}
