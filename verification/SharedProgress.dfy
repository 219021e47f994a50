/**
 Who gets into `Shared`, and when. A writer that finds the spinlock free enters exactly when no reader is
 left; otherwise it waits, and as long as its core keeps the control block cached it goes on waiting even
 when all readers are gone.
 */
module SharedProgress {
  import opened Words
  import opened Coherence
  import opened SharedModel
  import opened SharedProofs

  ghost predicate ReadersGone<V>(s: State<V>) {
    forall d :: 0 <= d < |s.cores| ==> !s.cores[d].pc.Reading?
  }

  /** While the spinlock is free the control block in memory is current and counts the readers. */
  lemma FreeMeansCounted<V>(s: State<V>)
    requires ControlInv(s) && s.lock.None?
    ensures s.ctrl == s.truth && s.truth.readers >= 0 && (s.truth.readers == 0 <==> ReadersGone(s))
  {
    forall c | 0 <= c < |s.cores|
      ensures Counted(s.cores[c].pc) <==> s.cores[c].pc.Reading?
    {
      assert CoreControlOk(s, c);
    }
    CountIsCardinality(s.cores);
    if !ReadersGone(s) {
      var d :| 0 <= d < |s.cores| && s.cores[d].pc.Reading?;
      assert d in Readers(s.cores);
    }
  }

  /** The spinlock is free and the core has no access. */
  ghost predicate CanBegin<V>(s: State<V>, c: nat) {
    ControlInv(s) && s.lock.None? && c < |s.cores| && s.cores[c].pc.Idle?
  }

  // ---------------------------------------------------------------- a reader enters

  /** The steps of a core that acquires for reading. */
  function ReadEntry<V>(c: nat, k: nat): Action<V> {
    if k == 0 then AcquireRead(c) else Advance(c)
  }

  function ReadPoint(flagged: bool, k: nat): Pc {
    match k
    case 0 => Idle
    case 1 => RLocked
    case 2 => RCount
    case 3 => RTest
    case 4 => if flagged then RClear else RFlush
    case 5 => if flagged then RFlush else RUnlock
    case 6 => if flagged then RUnlock else Reading
    case _ => Reading
  }

  function ReadLength(flagged: bool): nat {
    if flagged then 7 else 6
  }

  ghost predicate EntersToRead<V>(states: seq<State<V>>, c: nat, k: nat) {
    && |states| == k + 1
    && forall j :: 0 <= j < k ==> IsStep(states[j], ReadEntry(c, j), states[j + 1])
  }

  ghost predicate ReadOnTheWay<V>(s: State<V>, t: State<V>, c: nat, k: nat)
    requires c < |s.cores|
  {
    var flagged := Flagged(s.truth, c);
    && ControlInv(t) && c < |t.cores| && t.obj == s.obj
    && t.cores[c].pc == ReadPoint(flagged, k)
    && t.lock == (if k == 0 || k == ReadLength(flagged) then None else Some(c))
    && (Flagged(t.truth, c) <==> flagged && k <= 4)
    && t.cores[c].obj == if flagged && k >= 4 then InvalidateRegion(s.cores[c].obj) else s.cores[c].obj
  }

  lemma Counts<V>(s: State<V>, t: State<V>, c: nat, k: nat)
    requires c < |s.cores| && ReadOnTheWay(s, t, c, k) && k < 3
    ensures Enabled(t, ReadEntry(c, k)) && ReadOnTheWay(s, Next(t, ReadEntry(c, k)), c, k + 1)
  {
    assert CoreControlOk(t, c);
    NextKeepsControl(t, ReadEntry(c, k));
  }

  lemma TestsFlag<V>(s: State<V>, t: State<V>, c: nat, k: nat)
    requires c < |s.cores| && ReadOnTheWay(s, t, c, k) && k == 3
    ensures Enabled(t, ReadEntry(c, k)) && ReadOnTheWay(s, Next(t, ReadEntry(c, k)), c, k + 1)
  {
    assert CoreControlOk(t, c);
    NextKeepsControl(t, ReadEntry(c, k));
  }

  lemma Drops<V>(s: State<V>, t: State<V>, c: nat, k: nat)
    requires c < |s.cores| && ReadOnTheWay(s, t, c, k) && k == 4
    ensures Enabled(t, ReadEntry(c, k)) && ReadOnTheWay(s, Next(t, ReadEntry(c, k)), c, k + 1)
  {
    assert CoreControlOk(t, c);
    NextKeepsControl(t, ReadEntry(c, k));
  }

  lemma Unlocks<V>(s: State<V>, t: State<V>, c: nat, k: nat)
    requires c < |s.cores| && ReadOnTheWay(s, t, c, k) && 5 <= k < ReadLength(Flagged(s.truth, c))
    ensures Enabled(t, ReadEntry(c, k)) && ReadOnTheWay(s, Next(t, ReadEntry(c, k)), c, k + 1)
  {
    assert CoreControlOk(t, c);
    NextKeepsControl(t, ReadEntry(c, k));
  }

  lemma {:induction false} ReadReaches<V>(states: seq<State<V>>, c: nat, k: nat, j: nat)
    requires EntersToRead(states, c, k) && j <= k && CanBegin(states[0], c)
    requires k <= ReadLength(Flagged(states[0].truth, c))
    ensures ReadOnTheWay(states[0], states[j], c, j)
  {
    if j > 0 {
      ReadReaches(states, c, k, j - 1);
      if j - 1 < 3 {
        Counts(states[0], states[j - 1], c, j - 1);
      } else if j - 1 == 3 {
        TestsFlag(states[0], states[j - 1], c, j - 1);
      } else if j - 1 == 4 {
        Drops(states[0], states[j - 1], c, j - 1);
      } else {
        Unlocks(states[0], states[j - 1], c, j - 1);
      }
      assert IsStep(states[j - 1], ReadEntry(c, j - 1), states[j - 1 + 1]);
    }
  }

  /** A reader that finds the spinlock free always enters and gives the spinlock back. It drops its copy of
      the object exactly when its flag was set. */
  lemma ReaderEnters<V>(states: seq<State<V>>, c: nat)
    requires states != [] && CanBegin(states[0], c)
    requires EntersToRead(states, c, ReadLength(Flagged(states[0].truth, c)))
    ensures var s, t := states[0], states[|states| - 1];
            && c < |t.cores| && t.cores[c].pc.Reading? && t.lock.None? && t.obj == s.obj
            && t.cores[c].obj == if Flagged(s.truth, c) then InvalidateRegion(s.cores[c].obj) else s.cores[c].obj
  {
    var k := ReadLength(Flagged(states[0].truth, c));
    ReadReaches(states, c, k, k);
  }

  /** These steps are always possible. */
  lemma {:induction false} CanEnterToRead<V>(s: State<V>, c: nat, k: nat) returns (states: seq<State<V>>)
    requires CanBegin(s, c) && k <= ReadLength(Flagged(s.truth, c))
    ensures EntersToRead(states, c, k) && states[0] == s
  {
    if k == 0 {
      states := [s];
    } else {
      states := CanEnterToRead(s, c, k - 1);
      ReadReaches(states, c, k - 1, k - 1);
      assert CoreControlOk(states[k - 1], c);
      states := OneMoreToRead(states, c, k - 1);
    }
  }

  lemma OneMoreToRead<V>(states: seq<State<V>>, c: nat, k: nat) returns (longer: seq<State<V>>)
    requires EntersToRead(states, c, k) && Enabled(states[k], ReadEntry(c, k))
    ensures EntersToRead(longer, c, k + 1) && longer[0] == states[0]
  {
    longer := states + [Next(states[k], ReadEntry(c, k))];
    forall j | 0 <= j < k + 1
      ensures IsStep(longer[j], ReadEntry(c, j), longer[j + 1])
    {
      assert j < k ==> IsStep(states[j], ReadEntry(c, j), states[j + 1]);
    }
  }

  // ---------------------------------------------------------------- a writer enters

  /** The steps of a core that acquires for writing, or for reading and writing. */
  function Entry<V>(c: nat, readWrite: bool, k: nat): Action<V> {
    if k == 0 then AcquireWrite(c, readWrite) else Advance(c)
  }

  /** Where it is after k of them when no reader is left. */
  function EntryPoint(readWrite: bool, flagged: bool, k: nat): Pc {
    match k
    case 0 => Idle
    case 1 => WLocked
    case 2 => WCheck
    case 3 => WMark
    case 4 => WFlush
    case 5 => if readWrite then XTest else Writing
    case 6 => if flagged then XClear else Writing
    case 7 => XFlush
    case _ => Writing
  }

  function EntryLength(readWrite: bool, flagged: bool): nat {
    if !readWrite then 5 else if !flagged then 6 else 8
  }

  /** The states the first k of these steps go through. */
  ghost predicate Enters<V>(states: seq<State<V>>, c: nat, readWrite: bool, k: nat) {
    && |states| == k + 1
    && forall j :: 0 <= j < k ==> IsStep(states[j], Entry(c, readWrite, j), states[j + 1])
  }

  /** What is known of the state t after k steps from s: only a read-write access whose flag was set
      drops its copy of the object. */
  ghost predicate OnTheWay<V>(s: State<V>, t: State<V>, c: nat, readWrite: bool, k: nat)
    requires c < |s.cores|
  {
    var flagged := Flagged(s.truth, c);
    && ControlInv(t) && c < |t.cores| && t.obj == s.obj
    && t.cores[c].pc == EntryPoint(readWrite, flagged, k)
    && t.lock == (if k == 0 then None else Some(c))
    && t.truth.readers == 0
    && (k <= 6 ==> (Flagged(t.truth, c) <==> flagged))
    && (k > 0 ==> t.cores[c].readWrite == readWrite)
    && (k == 2 ==> t.cores[c].ctrl == Absent && t.ctrl == t.truth)
    && t.cores[c].obj == if flagged && k >= 6 then InvalidateRegion(s.cores[c].obj) else s.cores[c].obj
  }

  lemma Locks<V>(s: State<V>, t: State<V>, c: nat, readWrite: bool, k: nat)
    requires c < |s.cores| && OnTheWay(s, t, c, readWrite, k) && k == 0
    ensures Enabled(t, Entry(c, readWrite, k)) && OnTheWay(s, Next(t, Entry(c, readWrite, k)), c, readWrite, k + 1)
  {
    assert CoreControlOk(t, c);
    NextKeepsControl(t, Entry(c, readWrite, k));
  }

  lemma WaitsNot<V>(s: State<V>, t: State<V>, c: nat, readWrite: bool, k: nat)
    requires c < |s.cores| && OnTheWay(s, t, c, readWrite, k) && 1 <= k < 3
    ensures Enabled(t, Entry(c, readWrite, k)) && OnTheWay(s, Next(t, Entry(c, readWrite, k)), c, readWrite, k + 1)
  {
    assert CoreControlOk(t, c);
    NextKeepsControl(t, Entry(c, readWrite, k));
  }

  lemma Marks<V>(s: State<V>, t: State<V>, c: nat, readWrite: bool, k: nat)
    requires c < |s.cores| && OnTheWay(s, t, c, readWrite, k) && 3 <= k < 5
    ensures Enabled(t, Entry(c, readWrite, k)) && OnTheWay(s, Next(t, Entry(c, readWrite, k)), c, readWrite, k + 1)
  {
    assert CoreControlOk(t, c);
    NextKeepsControl(t, Entry(c, readWrite, k));
  }

  lemma Tests<V>(s: State<V>, t: State<V>, c: nat, readWrite: bool, k: nat)
    requires c < |s.cores| && OnTheWay(s, t, c, readWrite, k) && readWrite && k == 5
    ensures Enabled(t, Entry(c, readWrite, k)) && OnTheWay(s, Next(t, Entry(c, readWrite, k)), c, readWrite, k + 1)
  {
    assert CoreControlOk(t, c);
    NextKeepsControl(t, Entry(c, readWrite, k));
  }

  lemma Refreshes<V>(s: State<V>, t: State<V>, c: nat, readWrite: bool, k: nat)
    requires c < |s.cores| && OnTheWay(s, t, c, readWrite, k) && readWrite && Flagged(s.truth, c) && 6 <= k < 8
    ensures Enabled(t, Entry(c, readWrite, k)) && OnTheWay(s, Next(t, Entry(c, readWrite, k)), c, readWrite, k + 1)
  {
    assert CoreControlOk(t, c);
    NextKeepsControl(t, Entry(c, readWrite, k));
  }

  lemma StepOnTheWay<V>(s: State<V>, t: State<V>, c: nat, readWrite: bool, k: nat)
    requires c < |s.cores| && OnTheWay(s, t, c, readWrite, k) && k < EntryLength(readWrite, Flagged(s.truth, c))
    ensures Enabled(t, Entry(c, readWrite, k)) && OnTheWay(s, Next(t, Entry(c, readWrite, k)), c, readWrite, k + 1)
  {
    if k == 0 {
      Locks(s, t, c, readWrite, k);
    } else if k < 3 {
      WaitsNot(s, t, c, readWrite, k);
    } else if k < 5 {
      Marks(s, t, c, readWrite, k);
    } else if k == 5 {
      Tests(s, t, c, readWrite, k);
    } else {
      Refreshes(s, t, c, readWrite, k);
    }
  }

  lemma {:induction false} Reaches<V>(states: seq<State<V>>, c: nat, readWrite: bool, k: nat, j: nat)
    requires Enters(states, c, readWrite, k) && j <= k && CanBegin(states[0], c)
    requires ReadersGone(states[0]) && k <= EntryLength(readWrite, Flagged(states[0].truth, c))
    ensures OnTheWay(states[0], states[j], c, readWrite, j)
  {
    if j == 0 {
      FreeMeansCounted(states[0]);
    } else {
      Reaches(states, c, readWrite, k, j - 1);
      StepOnTheWay(states[0], states[j - 1], c, readWrite, j - 1);
      assert IsStep(states[j - 1], Entry(c, readWrite, j - 1), states[j - 1 + 1]);
    }
  }

  /** When no reader is left the writer enters at its first check. A read-write access drops its copy of
      the object exactly when its flag was set; every other access keeps the copy. */
  lemma WriterEnters<V>(states: seq<State<V>>, c: nat, readWrite: bool)
    requires states != [] && CanBegin(states[0], c) && ReadersGone(states[0])
    requires Enters(states, c, readWrite, EntryLength(readWrite, Flagged(states[0].truth, c)))
    ensures var s, t := states[0], states[|states| - 1];
            && c < |t.cores| && t.cores[c].pc.Writing? && t.lock == Some(c) && t.obj == s.obj
            && t.cores[c].obj == if readWrite && Flagged(s.truth, c) then InvalidateRegion(s.cores[c].obj)
                                 else s.cores[c].obj
  {
    var k := EntryLength(readWrite, Flagged(states[0].truth, c));
    Reaches(states, c, readWrite, k, k);
  }

  /** These steps are always possible. */
  lemma {:induction false} CanEnter<V>(s: State<V>, c: nat, readWrite: bool, k: nat) returns (states: seq<State<V>>)
    requires CanBegin(s, c) && ReadersGone(s) && k <= EntryLength(readWrite, Flagged(s.truth, c))
    ensures Enters(states, c, readWrite, k) && states[0] == s
  {
    if k == 0 {
      states := [s];
    } else {
      states := CanEnter(s, c, readWrite, k - 1);
      Reaches(states, c, readWrite, k - 1, k - 1);
      StepOnTheWay(s, states[k - 1], c, readWrite, k - 1);
      states := OneMore(states, c, readWrite, k - 1);
    }
  }

  lemma OneMore<V>(states: seq<State<V>>, c: nat, readWrite: bool, k: nat) returns (longer: seq<State<V>>)
    requires Enters(states, c, readWrite, k) && Enabled(states[k], Entry(c, readWrite, k))
    ensures Enters(longer, c, readWrite, k + 1) && longer[0] == states[0]
  {
    longer := states + [Next(states[k], Entry(c, readWrite, k))];
    forall j | 0 <= j < k + 1
      ensures IsStep(longer[j], Entry(c, readWrite, j), longer[j + 1])
    {
      assert j < k ==> IsStep(states[j], Entry(c, readWrite, j), states[j + 1]);
    }
  }

  // ---------------------------------------------------------------- a writer waits

  /** The steps up to the end of the first check. */
  ghost predicate Checks<V>(s: State<V>, a: State<V>, b: State<V>, d: State<V>, c: nat, readWrite: bool) {
    IsStep(s, AcquireWrite(c, readWrite), a) && IsStep(a, Advance(c), b) && IsStep(b, Advance(c), d)
  }

  /** In the wait loop with a control block in the cache that shows a reader. */
  predicate Stuck(core: Core) {
    (core.pc.WCheck? || core.pc.WBusy? || core.pc.WSpin?) && core.ctrl.Present? && core.ctrl.val.readers > 0
  }

  /** The first check lets the writer in exactly when no reader is left; otherwise it is stuck. */
  lemma FirstCheckDecides<V>(s: State<V>, a: State<V>, b: State<V>, d: State<V>, c: nat, readWrite: bool)
    requires CanBegin(s, c) && Checks(s, a, b, d, c, readWrite)
    ensures c < |d.cores| && (d.cores[c].pc.WMark? <==> ReadersGone(s)) && (Stuck(d.cores[c]) <==> !ReadersGone(s))
  {
    FreeMeansCounted(s);
    NextKeepsControl(s, AcquireWrite(c, readWrite));
    NextKeepsControl(a, Advance(c));
  }

  /** A core in the wait loop that takes the spinlock again gets in exactly when its control block was
      evicted in the meantime and no reader is left: the loop does not invalidate it. */
  lemma RetryDecides<V>(s: State<V>, c: nat)
    requires ControlInv(s) && s.lock.None? && c < |s.cores| && s.cores[c].pc.WSpin?
    ensures Enabled(s, Relock(c)) && Enabled(Next(s, Relock(c)), Advance(c))
    ensures var d := Next(Next(s, Relock(c)), Advance(c));
            && c < |d.cores|
            && d.cores[c].pc == if s.cores[c].ctrl == Absent && ReadersGone(s) then WMark else WBusy
  {
    FreeMeansCounted(s);
    assert CoreControlOk(s, c);
  }

  lemma StuckStep<V>(s: State<V>, a: Action<V>, c: nat)
    requires Enabled(s, a) && c < |s.cores| && Stuck(s.cores[c]) && a != EvictControl(c)
    ensures c < |Next(s, a).cores| && Stuck(Next(s, a).cores[c])
  {
    NextKeepsShape(s, a);
  }

  /** In any trace a writer that once found a reader never gets in, even when all readers are gone, until
      its control block happens to be evicted. */
  lemma {:induction false} StuckUntilEviction<V>(
      states: seq<State<V>>, actions: seq<Action<V>>, c: nat, from: nat, to: nat)
    requires IsTrace(states, actions) && from <= to < |states|
    requires c < |states[from].cores| && Stuck(states[from].cores[c])
    requires forall k :: from <= k < to ==> actions[k] != EvictControl(c)
    ensures c < |states[to].cores| && Stuck(states[to].cores[c])
  {
    if from < to {
      StuckUntilEviction(states, actions, c, from, to - 1);
      assert IsStep(states[to - 1], actions[to - 1], states[to - 1 + 1]);
      StuckStep(states[to - 1], actions[to - 1], c);
    }
  }
}
