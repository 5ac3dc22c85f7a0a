/** What it means that a list was made by going through positions in order and taking some of them. */
module Order {

  predicate Increasing(pos: seq<nat>) {
    forall i, j :: 0 <= i < j < |pos| ==> pos[i] < pos[j]
  }

  /** The positions below n that were chosen, in order; entry k fits the k-th of them. */
  ghost predicate TakenAt<U>(pos: seq<nat>, n: nat, chosen: nat -> bool, fits: (nat, U) -> bool, out: seq<U>) {
    && Increasing(pos) && |pos| == |out|
    && (forall i: nat :: i in pos <==> i < n && chosen(i))
    && (forall k :: 0 <= k < |out| ==> fits(pos[k], out[k]))
  }

  ghost predicate TakenInOrder<U>(n: nat, chosen: nat -> bool, fits: (nat, U) -> bool, out: seq<U>) {
    exists pos: seq<nat> :: TakenAt(pos, n, chosen, fits, out)
  }

  lemma NothingTaken<U>(chosen: nat -> bool, fits: (nat, U) -> bool)
    ensures TakenInOrder(0, chosen, fits, [])
  {
    assert TakenAt([], 0, chosen, fits, []);
  }

  lemma TakeNext<U>(n: nat, chosen: nat -> bool, fits: (nat, U) -> bool, out: seq<U>, u: U)
    requires TakenInOrder(n, chosen, fits, out) && (chosen(n) ==> fits(n, u))
    ensures TakenInOrder(n + 1, chosen, fits, if chosen(n) then out + [u] else out)
  {
    var pos: seq<nat> :| TakenAt(pos, n, chosen, fits, out);
    if chosen(n) {
      assert forall i :: 0 <= i < |pos| ==> pos[i] in pos;
      assert n in pos + [n];
      assert TakenAt(pos + [n], n + 1, chosen, fits, out + [u]);
    } else {
      assert TakenAt(pos, n + 1, chosen, fits, out);
    }
  }

  lemma Retaken<U>(n: nat, chosen: nat -> bool, fits: (nat, U) -> bool, now: nat -> bool, suits: (nat, U) -> bool, out: seq<U>)
    requires TakenInOrder(n, chosen, fits, out)
    requires forall i: nat :: i < n ==> chosen(i) == now(i)
    requires forall i: nat, u: U :: i < n && fits(i, u) ==> suits(i, u)
    ensures TakenInOrder(n, now, suits, out)
  {
    var pos: seq<nat> :| TakenAt(pos, n, chosen, fits, out);
    assert forall k :: 0 <= k < |pos| ==> pos[k] in pos;
    assert TakenAt(pos, n, now, suits, out);
  }
}
