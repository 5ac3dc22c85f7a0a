/** internal/invariants/audit_tenant_isolation.go, Recorder: any number of goroutines inside Record
    and Snapshot at once. The append is a load and a store, the counter is bumped after the unlock,
    and any goroutine may be scheduled at any point. */
module RecorderSteps {
  import opened Sums
  import opened Breaches

  datatype PC = Idle | Locked | Loaded(local: seq<Entry>) | Stored | Unlocked

  /** A goroutine that records the breaches of `todo` one after the other. */
  datatype Writer = Writer(pc: PC, done: seq<Breach>, todo: seq<Breach>)

  datatype Holder = Free | ByWriter(w: nat) | ByReader

  datatype State = State(
    mirrored: bool,
    programs: seq<seq<Breach>>,
    log: seq<Entry>,
    lock: Holder,
    writers: seq<Writer>,
    cells: map<CellKey, nat>,
    snapshots: seq<seq<Entry>>)

  datatype Action =
    | Lock(w: nat)
    | Load(w: nat)
    | Store(w: nat)
    | Unlock(w: nat)
    | Inc(w: nat)
    | ReaderLock
    | ReaderCopy
    | ReaderUnlock

  function Fresh(programs: seq<seq<Breach>>): seq<Writer> {
    if programs == [] then []
    else Fresh(programs[..|programs| - 1]) + [Writer(Idle, [], programs[|programs| - 1])]
  }

  function Init(programs: seq<seq<Breach>>, mirrored: bool): State {
    State(mirrored, programs, [], Free, Fresh(programs), map[], [])
  }

  predicate Enabled(s: State, a: Action) {
    match a
    case Lock(w) => w < |s.writers| && s.writers[w].pc == Idle && s.writers[w].todo != [] && s.lock == Free
    case Load(w) => w < |s.writers| && s.writers[w].pc == Locked
    case Store(w) => w < |s.writers| && s.writers[w].pc.Loaded? && s.writers[w].todo != []
    case Unlock(w) => w < |s.writers| && s.writers[w].pc == Stored
    case Inc(w) => w < |s.writers| && s.writers[w].pc == Unlocked && s.writers[w].todo != []
    case ReaderLock => s.lock == Free
    case ReaderCopy => s.lock == ByReader
    case ReaderUnlock => s.lock == ByReader
  }

  function SetPC(s: State, w: nat, pc: PC): State
    requires w < |s.writers|
  {
    s.(writers := s.writers[w := s.writers[w].(pc := pc)])
  }

  function Bump(cells: map<CellKey, nat>, key: CellKey): map<CellKey, nat> {
    cells[key := Cell(cells, key) + 1]
  }

  function Finished(w: Writer): Writer
    requires w.todo != []
  {
    Writer(Idle, w.done + [w.todo[0]], w.todo[1..])
  }

  function Do(s: State, a: Action): State
    requires Enabled(s, a)
  {
    match a
    case Lock(w) => SetPC(s, w, Locked).(lock := ByWriter(w))
    case Load(w) => SetPC(s, w, Loaded(s.log))
    case Store(w) =>
      SetPC(s, w, Stored).(log := s.writers[w].pc.local + [Entry(w, s.writers[w].todo[0])])
    case Unlock(w) => SetPC(s, w, Unlocked).(lock := Free)
    case Inc(w) =>
      var me := s.writers[w];
      s.(cells := if s.mirrored then Bump(s.cells, KeyOf(me.todo[0])) else s.cells,
         writers := s.writers[w := Finished(me)])
    case ReaderLock => s.(lock := ByReader)
    case ReaderCopy => s.(snapshots := s.snapshots + [s.log])
    case ReaderUnlock => s.(lock := Free)
  }

  predicate CanRun(s: State, run: seq<Action>)
    decreases |run|
  {
    run != [] ==> Enabled(s, run[0]) && CanRun(Do(s, run[0]), run[1..])
  }

  function Exec(s: State, run: seq<Action>): State
    requires CanRun(s, run)
    decreases |run|
  {
    if run == [] then s else Exec(Do(s, run[0]), run[1..])
  }

  // ----- the invariant -----

  predicate Critical(pc: PC) {
    pc.Locked? || pc.Loaded? || pc.Stored?
  }

  /** Logged but not yet counted. */
  predicate InFlight(pc: PC) {
    pc.Stored? || pc.Unlocked?
  }

  function Authored(log: seq<Entry>, w: nat): seq<Breach> {
    if log == [] then []
    else
      var init, last := Authored(log[..|log| - 1], w), log[|log| - 1];
      if last.author == w then init + [last.breach] else init
  }

  function EntryInCell(key: CellKey): Entry -> nat {
    (e: Entry) => if e.breach.name == key.0 && e.breach.kind == key.1 then 1 else 0
  }

  /** How many logged breaches carry this label. */
  function Logged(log: seq<Entry>, key: CellKey): nat {
    Sum(log, EntryInCell(key))
  }

  function PendingIn(key: CellKey): Writer -> nat {
    (w: Writer) => if InFlight(w.pc) && w.todo != [] && KeyOf(w.todo[0]) == key then 1 else 0
  }

  /** How many goroutines have logged such a breach and not yet bumped its cell. */
  function Pending(writers: seq<Writer>, key: CellKey): nat {
    Sum(writers, PendingIn(key))
  }

  /** What a goroutine has in the log. */
  function InLog(w: Writer): seq<Breach> {
    w.done + if InFlight(w.pc) && w.todo != [] then [w.todo[0]] else []
  }

  predicate WriterInv(s: State, w: nat)
    requires w < |s.writers| && |s.programs| == |s.writers|
  {
    var me := s.writers[w];
    && (Critical(me.pc) <==> s.lock == ByWriter(w))
    && (me.pc.Loaded? ==> me.pc.local == s.log)
    && (me.pc != Idle ==> me.todo != [])
    && me.done + me.todo == s.programs[w]
    && Authored(s.log, w) == InLog(me)
  }

  predicate WritersInv(s: State) {
    && |s.programs| == |s.writers|
    && (forall w :: 0 <= w < |s.writers| ==> WriterInv(s, w))
    && (forall e :: e in s.log ==> e.author < |s.writers|)
    && (s.lock.ByWriter? ==> s.lock.w < |s.writers|)
  }

  predicate CellInv(s: State, key: CellKey) {
    if s.mirrored then Logged(s.log, key) == Cell(s.cells, key) + Pending(s.writers, key)
    else Cell(s.cells, key) == 0
  }

  ghost predicate CellsInv(s: State) {
    forall key: CellKey :: CellInv(s, key)
  }

  predicate SnapshotsInv(s: State) {
    && (forall i, j :: 0 <= i < j < |s.snapshots| ==> s.snapshots[i] <= s.snapshots[j])
    && (forall i :: 0 <= i < |s.snapshots| ==> s.snapshots[i] <= s.log)
  }

  ghost predicate Inv(s: State) {
    WritersInv(s) && CellsInv(s) && SnapshotsInv(s)
  }

  lemma {:induction false} FreshWriters(programs: seq<seq<Breach>>)
    ensures |Fresh(programs)| == |programs|
    ensures forall w :: 0 <= w < |programs| ==> Fresh(programs)[w] == Writer(Idle, [], programs[w])
    decreases |programs|
  {
    if programs != [] {
      FreshWriters(programs[..|programs| - 1]);
    }
  }

  lemma InitInv(programs: seq<seq<Breach>>, mirrored: bool)
    ensures Inv(Init(programs, mirrored))
  {
    FreshWriters(programs);
    var s := Init(programs, mirrored);
    forall key: CellKey
      ensures CellInv(s, key)
    {
      SumZero(s.writers, PendingIn(key));
    }
  }

  lemma AuthoredSnoc(log: seq<Entry>, e: Entry, w: nat)
    ensures Authored(log + [e], w) == Authored(log, w) + if e.author == w then [e.breach] else []
  {
    assert (log + [e])[..|log|] == log;
  }

  lemma WritersStep(s: State, a: Action)
    requires WritersInv(s) && Enabled(s, a)
    ensures WritersInv(Do(s, a))
    ensures s.log <= Do(s, a).log
  {
    hide Authored;
    var t := Do(s, a);
    if a.Store? {
      assert WriterInv(s, a.w);
    }
    forall w | 0 <= w < |t.writers|
      ensures WriterInv(t, w)
    {
      assert WriterInv(s, w);
      if a.Store? {
        AuthoredSnoc(s.log, Entry(a.w, s.writers[a.w].todo[0]), w);
      }
      if (a.Lock? || a.Load? || a.Store? || a.Unlock? || a.Inc?) && a.w != w {
        assert WriterInv(s, a.w);
      }
      if a.Inc? && a.w == w {
        var me := s.writers[w];
        assert me.done + me.todo == me.done + [me.todo[0]] + me.todo[1..];
      }
    }
  }

  lemma CellStep(s: State, a: Action, key: CellKey)
    requires WritersInv(s) && CellInv(s, key) && Enabled(s, a)
    ensures CellInv(Do(s, a), key)
  {
    hide Authored;
    var t := Do(s, a);
    if a.Lock? || a.Load? || a.Store? || a.Unlock? || a.Inc? {
      assert WriterInv(s, a.w);
      SumUpdate(s.writers, a.w, t.writers[a.w], PendingIn(key));
      if a.Store? {
        SumSnoc(s.log, Entry(a.w, s.writers[a.w].todo[0]), EntryInCell(key));
      }
    }
  }

  lemma CellsStep(s: State, a: Action)
    requires WritersInv(s) && CellsInv(s) && Enabled(s, a)
    ensures CellsInv(Do(s, a))
  {
    hide WritersInv, CellInv, Enabled, Do;
    forall key: CellKey
      ensures CellInv(Do(s, a), key)
    {
      CellStep(s, a, key);
    }
  }

  lemma SnapshotsStep(s: State, a: Action)
    requires SnapshotsInv(s) && Enabled(s, a) && s.log <= Do(s, a).log
    ensures SnapshotsInv(Do(s, a))
  {
    var t := Do(s, a);
    forall i | 0 <= i < |t.snapshots|
      ensures t.snapshots[i] <= t.log
    {
      if i < |s.snapshots| {
        assert s.snapshots[i] <= s.log <= t.log;
      }
    }
  }

  lemma {:induction false} InvAlong(s: State, run: seq<Action>)
    requires Inv(s) && CanRun(s, run)
    ensures Inv(Exec(s, run))
    ensures s.log <= Exec(s, run).log
    decreases |run|
  {
    if run != [] {
      hide WritersInv, CellsInv, SnapshotsInv, Do, Enabled;
      WritersStep(s, run[0]);
      CellsStep(s, run[0]);
      SnapshotsStep(s, run[0]);
      InvAlong(Do(s, run[0]), run[1..]);
    }
  }

  lemma {:induction false} ExecKeepsShape(s: State, run: seq<Action>)
    requires CanRun(s, run)
    ensures |Exec(s, run).writers| == |s.writers| && Exec(s, run).mirrored == s.mirrored
    ensures Exec(s, run).programs == s.programs
    decreases |run|
  {
    if run != [] {
      ExecKeepsShape(Do(s, run[0]), run[1..]);
    }
  }

  /** In every reachable state the log and every cell differ exactly by the goroutines caught
      between storing a breach and bumping its cell. */
  lemma CountersTrackTheLog(programs: seq<seq<Breach>>, run: seq<Action>, key: CellKey)
    requires CanRun(Init(programs, true), run)
    ensures var s := Exec(Init(programs, true), run);
            Logged(s.log, key) == Cell(s.cells, key) + Pending(s.writers, key)
            && Cell(s.cells, key) <= Logged(s.log, key) <= Cell(s.cells, key) + |programs|
  {
    InitInv(programs, true);
    InvAlong(Init(programs, true), run);
    ExecKeepsShape(Init(programs, true), run);
    FreshWriters(programs);
    var s := Exec(Init(programs, true), run);
    assert CellInv(s, key);
    SumMonotone(s.writers, PendingIn(key), One());
    SumOne(s.writers);
  }

  lemma {:induction false} AuthoredPrefix(a: seq<Entry>, b: seq<Entry>, w: nat)
    requires a <= b
    ensures Authored(a, w) <= Authored(b, w)
    decreases |b|
  {
    if a == b {
    } else {
      AuthoredPrefix(a, b[..|b| - 1], w);
    }
  }

  /** Every snapshot is a prefix of every later one and of the log, and holds each goroutine's
      breaches in the order the goroutine recorded them. */
  lemma SnapshotsArePrefixes(programs: seq<seq<Breach>>, mirrored: bool, run: seq<Action>, i: nat, w: nat)
    requires CanRun(Init(programs, mirrored), run)
    requires i < |Exec(Init(programs, mirrored), run).snapshots| && w < |programs|
    ensures var s := Exec(Init(programs, mirrored), run);
            && s.snapshots[i] <= s.log
            && (forall j :: i <= j < |s.snapshots| ==> s.snapshots[i] <= s.snapshots[j])
            && Authored(s.snapshots[i], w) <= programs[w]
  {
    hide Enabled, Do, Authored, CellsInv;
    InitInv(programs, mirrored);
    InvAlong(Init(programs, mirrored), run);
    ExecKeepsShape(Init(programs, mirrored), run);
    FreshWriters(programs);
    var s := Exec(Init(programs, mirrored), run);
    assert WriterInv(s, w);
    AuthoredPrefix(s.snapshots[i], s.log, w);
    assert InLog(s.writers[w]) <= s.writers[w].done + s.writers[w].todo;
  }

  predicate Quiescent(s: State) {
    forall w :: 0 <= w < |s.writers| ==> s.writers[w].pc == Idle && s.writers[w].todo == []
  }

  /** The mutex never blocks everybody: until all goroutines are through, some action that is not
      yet another snapshot can be taken. */
  lemma SomeoneCanMove(s: State) returns (a: Action)
    requires WritersInv(s) && !Quiescent(s)
    ensures Enabled(s, a) && !a.ReaderLock? && !a.ReaderCopy?
  {
    var w :| 0 <= w < |s.writers| && !(s.writers[w].pc == Idle && s.writers[w].todo == []);
    assert WriterInv(s, w);
    match s.lock
    case ByReader => a := ReaderUnlock;
    case ByWriter(h) =>
      assert WriterInv(s, h);
      var pc := s.writers[h].pc;
      a := if pc.Locked? then Load(h) else if pc.Loaded? then Store(h) else Unlock(h);
    case Free => a := if s.writers[w].pc.Unlocked? then Inc(w) else Lock(w);
  }

  function LengthOf(): seq<Breach> -> nat {
    (p: seq<Breach>) => |p|
  }

  function AuthoredBy(log: seq<Entry>, n: nat): seq<seq<Breach>> {
    if n == 0 then [] else AuthoredBy(log, n - 1) + [Authored(log, n - 1)]
  }

  lemma {:induction false} AuthoredByIs(log: seq<Entry>, n: nat)
    ensures |AuthoredBy(log, n)| == n
    ensures forall w :: 0 <= w < n ==> AuthoredBy(log, n)[w] == Authored(log, w)
  {
    if n > 0 {
      AuthoredByIs(log, n - 1);
    }
  }

  lemma {:induction false} AuthoredLengths(log: seq<Entry>, n: nat)
    requires forall e :: e in log ==> e.author < n
    ensures Sum(AuthoredBy(log, n), LengthOf()) == |log|
    decreases |log|
  {
    AuthoredByIs(log, n);
    if log == [] {
      SumZero(AuthoredBy(log, n), LengthOf());
    } else {
      var init, last := log[..|log| - 1], log[|log| - 1];
      AuthoredLengths(init, n);
      AuthoredByIs(init, n);
      assert last in log;
      var xs := AuthoredBy(init, n);
      SumUpdate(xs, last.author, Authored(log, last.author), LengthOf());
      assert AuthoredBy(log, n) == xs[last.author := Authored(log, last.author)];
    }
  }

  lemma LogIsInterleaving(log: seq<Entry>, programs: seq<seq<Breach>>)
    requires forall e :: e in log ==> e.author < |programs|
    requires forall w :: 0 <= w < |programs| ==> Authored(log, w) == programs[w]
    ensures |log| == Sum(programs, LengthOf())
  {
    AuthoredLengths(log, |programs|);
    AuthoredByIs(log, |programs|);
    assert AuthoredBy(log, |programs|) == programs;
  }

  /** Nothing is lost or duplicated: once all goroutines are through, the log is an interleaving of
      their programs and every cell equals its share of the log. */
  lemma QuiescentLogIsComplete(programs: seq<seq<Breach>>, run: seq<Action>)
    requires CanRun(Init(programs, true), run) && Quiescent(Exec(Init(programs, true), run))
    ensures var s := Exec(Init(programs, true), run);
            && (forall w :: 0 <= w < |programs| ==> Authored(s.log, w) == programs[w])
            && |s.log| == Sum(programs, LengthOf())
            && forall key: CellKey :: Cell(s.cells, key) == Logged(s.log, key)
  {
    hide Enabled, Do, Authored;
    InitInv(programs, true);
    InvAlong(Init(programs, true), run);
    ExecKeepsShape(Init(programs, true), run);
    FreshWriters(programs);
    var s := Exec(Init(programs, true), run);
    forall w | 0 <= w < |programs|
      ensures Authored(s.log, w) == programs[w]
    {
      assert WriterInv(s, w);
    }
    forall key: CellKey
      ensures Cell(s.cells, key) == Logged(s.log, key)
    {
      assert CellInv(s, key);
      SumZero(s.writers, PendingIn(key));
    }
    LogIsInterleaving(s.log, programs);
  }

  // ----- recording looks like one step -----

  /** What is logged, and what each goroutine has yet to log. */
  datatype Atomic = Atomic(log: seq<Entry>, queues: seq<seq<Breach>>)

  predicate CanRecord(a: Atomic, w: nat) {
    w < |a.queues| && a.queues[w] != []
  }

  /** Record as a single step. */
  function RecordOne(a: Atomic, w: nat): Atomic
    requires CanRecord(a, w)
  {
    Atomic(a.log + [Entry(w, a.queues[w][0])], a.queues[w := a.queues[w][1..]])
  }

  predicate CanRecordAll(a: Atomic, ws: seq<nat>)
    decreases |ws|
  {
    ws != [] ==> CanRecord(a, ws[0]) && CanRecordAll(RecordOne(a, ws[0]), ws[1..])
  }

  function RecordAll(a: Atomic, ws: seq<nat>): Atomic
    requires CanRecordAll(a, ws)
    decreases |ws|
  {
    if ws == [] then a else RecordAll(RecordOne(a, ws[0]), ws[1..])
  }

  function NotYetLogged(w: Writer): seq<Breach> {
    if InFlight(w.pc) && w.todo != [] then w.todo[1..] else w.todo
  }

  function Queues(writers: seq<Writer>): (qs: seq<seq<Breach>>)
    ensures |qs| == |writers| && forall w :: 0 <= w < |writers| ==> qs[w] == NotYetLogged(writers[w])
  {
    if writers == [] then []
    else Queues(writers[..|writers| - 1]) + [NotYetLogged(writers[|writers| - 1])]
  }

  function View(s: State): Atomic {
    Atomic(s.log, Queues(s.writers))
  }

  lemma StoreTakesFirst(s: State, w: nat)
    requires Enabled(s, Store(w))
    ensures s.writers[w].todo != [] && NotYetLogged(s.writers[w]) == s.writers[w].todo
    ensures Do(s, Store(w)).writers == s.writers[w := s.writers[w].(pc := Stored)]
  {
  }

  lemma StoreIsSeen(s: State, w: nat)
    requires WritersInv(s) && Enabled(s, Store(w))
    ensures CanRecord(View(s), w) && View(Do(s, Store(w))) == RecordOne(View(s), w)
  {
    hide Authored;
    assert WriterInv(s, w);
    StoreTakesFirst(s, w);
    var t := Do(s, Store(w));
    assert Queues(t.writers) == Queues(s.writers)[w := Queues(s.writers)[w][1..]];
  }

  /** The store is the moment at which a breach is recorded; no other action is visible. */
  lemma StoreRecords(s: State, a: Action)
    requires WritersInv(s) && Enabled(s, a)
    ensures a.Store? ==> CanRecord(View(s), a.w) && View(Do(s, a)) == RecordOne(View(s), a.w)
    ensures !a.Store? ==> View(Do(s, a)) == View(s)
  {
    hide WritersInv, WriterInv;
    if a.Store? {
      hide Enabled, Do, View, RecordOne, CanRecord;
      StoreIsSeen(s, a.w);
    } else {
      assert Queues(Do(s, a).writers) == Queues(s.writers);
    }
  }

  /** Who stores, in order. */
  function Stores(run: seq<Action>): seq<nat> {
    if run == [] then [] else (if run[0].Store? then [run[0].w] else []) + Stores(run[1..])
  }

  lemma StepKeepsInv(s: State, a: Action)
    requires Inv(s) && Enabled(s, a)
    ensures Inv(Do(s, a)) && WritersInv(s)
  {
    hide WritersInv, CellsInv, SnapshotsInv, Do, Enabled;
    WritersStep(s, a);
    CellsStep(s, a);
    SnapshotsStep(s, a);
  }

  lemma {:induction false} RunRecords(s: State, run: seq<Action>)
    requires Inv(s) && CanRun(s, run)
    ensures CanRecordAll(View(s), Stores(run)) && RecordAll(View(s), Stores(run)) == View(Exec(s, run))
    decreases |run|
  {
    if run != [] {
      hide Inv, Enabled, Do, View, RecordOne, CanRecord, CellsInv, SnapshotsInv;
      var t := Do(s, run[0]);
      StepKeepsInv(s, run[0]);
      StoreRecords(s, run[0]);
      RunRecords(t, run[1..]);
      assert run[0].Store? ==> Stores(run)[0] == run[0].w && Stores(run)[1..] == Stores(run[1..]);
      assert !run[0].Store? ==> Stores(run) == Stores(run[1..]);
    }
  }

  /** Whatever the goroutines' actions and the snapshots interleave to, the log is one that recording
      in single steps produces, the goroutines taking turns in the order of their stores. */
  lemma RecordingIsAtomic(programs: seq<seq<Breach>>, mirrored: bool, run: seq<Action>)
    requires CanRun(Init(programs, mirrored), run)
    ensures CanRecordAll(Atomic([], programs), Stores(run))
    ensures Exec(Init(programs, mirrored), run).log == RecordAll(Atomic([], programs), Stores(run)).log
  {
    hide Inv, Enabled, Do, CanRecord, RecordOne;
    InitInv(programs, mirrored);
    FreshWriters(programs);
    assert View(Init(programs, mirrored)) == Atomic([], programs);
    RunRecords(Init(programs, mirrored), run);
  }

  // ----- and every sequence of single steps comes about -----

  predicate AtRest(s: State) {
    s.lock == Free && forall w :: 0 <= w < |s.writers| ==> s.writers[w].pc == Idle
  }

  /** One call of Record from beginning to end. */
  function Whole(w: nat): seq<Action> {
    [Lock(w), Load(w), Store(w), Unlock(w), Inc(w)]
  }

  lemma Prepend(s: State, a: Action, rest: seq<Action>)
    requires Enabled(s, a) && CanRun(Do(s, a), rest)
    ensures CanRun(s, [a] + rest) && Exec(s, [a] + rest) == Exec(Do(s, a), rest)
  {
    hide Enabled, Do;
    assert ([a] + rest)[1..] == rest;
  }

  /** The state between the store and the unlock. */
  lemma UntilStore(s: State, w: nat)
    requires AtRest(s) && w < |s.writers| && s.writers[w].todo != []
    ensures Enabled(s, Lock(w)) && Enabled(Do(s, Lock(w)), Load(w))
    ensures Enabled(Do(Do(s, Lock(w)), Load(w)), Store(w))
    ensures var t := Do(Do(Do(s, Lock(w)), Load(w)), Store(w));
            && t.log == s.log + [Entry(w, s.writers[w].todo[0])]
            && t.writers == s.writers[w := s.writers[w].(pc := Stored)]
  {
  }

  lemma FromStore(s: State, t: State, w: nat)
    requires AtRest(s) && w < |s.writers| && s.writers[w].todo != []
    requires t.log == s.log + [Entry(w, s.writers[w].todo[0])]
    requires t.writers == s.writers[w := s.writers[w].(pc := Stored)]
    ensures Enabled(t, Unlock(w)) && Enabled(Do(t, Unlock(w)), Inc(w))
    ensures var u := Do(Do(t, Unlock(w)), Inc(w));
            AtRest(u) && u.log == t.log && u.writers == s.writers[w := Finished(s.writers[w])]
  {
    assert Do(t, Unlock(w)).writers == s.writers[w := s.writers[w].(pc := Unlocked)];
  }

  lemma WholeRecords(s: State, w: nat)
    requires AtRest(s) && w < |s.writers| && s.writers[w].todo != []
    ensures CanRun(s, Whole(w))
    ensures var t := Exec(s, Whole(w)); AtRest(t) && CanRecord(View(s), w) && View(t) == RecordOne(View(s), w)
  {
    hide Enabled, Do;
    UntilStore(s, w);
    var s1 := Do(s, Lock(w));
    var s2 := Do(s1, Load(w));
    var s3 := Do(s2, Store(w));
    FromStore(s, s3, w);
    var s4 := Do(s3, Unlock(w));
    var t := Do(s4, Inc(w));
    Prepend(s4, Inc(w), []);
    Prepend(s3, Unlock(w), [Inc(w)]);
    Prepend(s2, Store(w), [Unlock(w), Inc(w)]);
    Prepend(s1, Load(w), [Store(w), Unlock(w), Inc(w)]);
    Prepend(s, Lock(w), [Load(w), Store(w), Unlock(w), Inc(w)]);
    hide CanRun, Exec;
    assert [Inc(w)] + [] == [Inc(w)] && [Unlock(w)] + [Inc(w)] == [Unlock(w), Inc(w)];
    assert [Store(w)] + [Unlock(w), Inc(w)] == [Store(w), Unlock(w), Inc(w)];
    assert [Load(w)] + [Store(w), Unlock(w), Inc(w)] == [Load(w), Store(w), Unlock(w), Inc(w)];
    assert [Lock(w)] + [Load(w), Store(w), Unlock(w), Inc(w)] == Whole(w);
    assert Queues(t.writers) == Queues(s.writers)[w := Queues(s.writers)[w][1..]];
  }

  lemma {:induction false} RunConcat(s: State, a: seq<Action>, b: seq<Action>)
    requires CanRun(s, a) && CanRun(Exec(s, a), b)
    ensures CanRun(s, a + b) && Exec(s, a + b) == Exec(Exec(s, a), b)
    decreases |a|
  {
    hide Enabled, Do;
    if a == [] {
      assert a + b == b;
    } else {
      assert (a + b)[0] == a[0] && (a + b)[1..] == a[1..] + b;
      RunConcat(Do(s, a[0]), a[1..], b);
    }
  }

  lemma RestingQueue(s: State, w: nat)
    requires AtRest(s) && CanRecord(View(s), w)
    ensures w < |s.writers| && s.writers[w].todo != []
  {
  }

  lemma {:induction false} RecordingIsPossible(s: State, ws: seq<nat>) returns (run: seq<Action>)
    requires AtRest(s) && CanRecordAll(View(s), ws)
    ensures CanRun(s, run) && View(Exec(s, run)) == RecordAll(View(s), ws)
    decreases |ws|
  {
    if ws == [] {
      run := [];
    } else {
      hide Enabled, Do, RecordOne, AtRest, Whole;
      assert ws[0] < |s.writers| && s.writers[ws[0]].todo != [] by {
        RestingQueue(s, ws[0]);
      }
      WholeRecords(s, ws[0]);
      var rest := RecordingIsPossible(Exec(s, Whole(ws[0])), ws[1..]);
      RunConcat(s, Whole(ws[0]), rest);
      run := Whole(ws[0]) + rest;
    }
  }

  ghost predicate Interleaves(programs: seq<seq<Breach>>, mirrored: bool, log: seq<Entry>) {
    exists run :: CanRun(Init(programs, mirrored), run) && Exec(Init(programs, mirrored), run).log == log
  }

  ghost predicate TakesTurns(programs: seq<seq<Breach>>, log: seq<Entry>) {
    exists ws :: CanRecordAll(Atomic([], programs), ws) && RecordAll(Atomic([], programs), ws).log == log
  }

  /** The logs that any interleaving can produce are exactly those of recording in single steps. */
  lemma LogsAreAtomicLogs(programs: seq<seq<Breach>>, mirrored: bool, log: seq<Entry>)
    ensures Interleaves(programs, mirrored, log) <==> TakesTurns(programs, log)
  {
    hide CanRun, Exec, CanRecordAll, RecordAll;
    var s := Init(programs, mirrored);
    if Interleaves(programs, mirrored, log) {
      var run :| CanRun(s, run) && Exec(s, run).log == log;
      RecordingIsAtomic(programs, mirrored, run);
    }
    if TakesTurns(programs, log) {
      var ws :| CanRecordAll(Atomic([], programs), ws) && RecordAll(Atomic([], programs), ws).log == log;
      FreshWriters(programs);
      assert View(s) == Atomic([], programs) && AtRest(s);
      var run := RecordingIsPossible(s, ws);
      assert CanRun(s, run) && Exec(s, run).log == log;
    }
  }

  // ----- what a snapshot holds -----

  function Copies(run: seq<Action>): nat {
    if run == [] then 0 else (if run[0].ReaderCopy? then 1 else 0) + Copies(run[1..])
  }

  lemma {:induction false} RunSplit(s: State, run: seq<Action>, k: nat)
    requires CanRun(s, run) && k <= |run|
    ensures CanRun(s, run[..k]) && CanRun(Exec(s, run[..k]), run[k..])
    ensures Exec(s, run) == Exec(Exec(s, run[..k]), run[k..])
    decreases k
  {
    hide Enabled, Do;
    if k == 0 {
      assert run[..0] == [] && run[0..] == run;
    } else {
      RunSplit(Do(s, run[0]), run[1..], k - 1);
      assert run[..k][0] == run[0] && run[..k][1..] == run[1..][..k - 1] && run[1..][k - 1..] == run[k..];
    }
  }

  lemma {:induction false} SnapshotsGrow(s: State, run: seq<Action>)
    requires CanRun(s, run)
    ensures s.snapshots <= Exec(s, run).snapshots && |Exec(s, run).snapshots| == |s.snapshots| + Copies(run)
    decreases |run|
  {
    if run != [] {
      SnapshotsGrow(Do(s, run[0]), run[1..]);
    }
  }

  /** A snapshot holds exactly what was recorded when it was taken: copy number c, taken by action k,
      is the log after the stores among the first k actions. */
  lemma SnapshotIsLogThen(programs: seq<seq<Breach>>, mirrored: bool, run: seq<Action>, k: nat)
    requires CanRun(Init(programs, mirrored), run) && k < |run| && run[k] == ReaderCopy
    ensures var s, c := Exec(Init(programs, mirrored), run), Copies(run[..k]);
            && c < |s.snapshots| == Copies(run)
            && CanRecordAll(Atomic([], programs), Stores(run[..k]))
            && s.snapshots[c] == RecordAll(Atomic([], programs), Stores(run[..k])).log
  {
    hide Enabled, CanRecordAll, RecordAll, Stores;
    var s := Init(programs, mirrored);
    RunSplit(s, run, k);
    var t := Exec(s, run[..k]);
    RecordingIsAtomic(programs, mirrored, run[..k]);
    SnapshotsGrow(s, run);
    SnapshotsGrow(s, run[..k]);
    assert run[k..][0] == ReaderCopy;
    SnapshotsGrow(Do(t, ReaderCopy), run[k..][1..]);
    assert Do(t, ReaderCopy).snapshots == t.snapshots + [t.log];
  }
}
