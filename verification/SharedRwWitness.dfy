/**
 Why a light section of `SharedRW` must only read: wherever one ends with a dirty line, any other core
 can store to that line in a full section afterwards, and then the eviction of the dirty line
 overwrites in memory what that core released. First for every state, then one run from the start.
 */
module SharedRwWitness {
  import opened Words
  import opened Coherence
  import opened SharedRwModel

  // ---------------------------------------------------------------- from every state

  const LOSING: nat := 7

  /** Core c ends its light section, core d stores v in a full section, the line of core c is evicted. */
  function Losing<V>(c: nat, d: nat, i: nat, v: V, k: nat): Action<V> {
    match k
    case 0 => Release(c)
    case 1 => Acquire(d, false)
    case 2 => Invalidate(d)
    case 3 => Store(d, i, v)
    case 4 => Release(d)
    case 5 => Unlock(d)
    case _ => Evict(c, i)
  }

  /** The states the first k of these steps go through. */
  ghost predicate Loses<V>(states: seq<State<V>>, c: nat, d: nat, i: nat, v: V, k: nat) {
    && |states| == k + 1
    && forall j :: 0 <= j < k ==> IsStep(states[j], Losing(c, d, i, v, j), states[j + 1])
  }

  /** Core c is about to end a light section with the value w in a dirty line. */
  ghost predicate LeavesDirty<V>(s: State<V>, start: seq<V>, c: nat, i: nat, w: V) {
    && LockInv(s, start) && s.lock == Some(c) && i < |s.obj|
    && s.cores[c].pc.Inside? && s.cores[c].light && s.cores[c].obj[i] == Present(w, true)
  }

  /** What is known of the state t after k of these steps. */
  ghost predicate OnTheWay<V>(s: State<V>, t: State<V>, c: nat, d: nat, i: nat, v: V, w: V, k: nat)
    requires c < |s.cores| && d < |s.cores| && i < |s.obj|
  {
    && Shaped(t) && |t.cores| == |s.cores| && |t.obj| == |s.obj|
    && t.lock == (if k == 0 then Some(c) else if 2 <= k <= 5 then Some(d) else None)
    && (k == 0 ==> t.cores[c].pc.Inside? && t.cores[c].light)
    && (k < 7 ==> t.cores[c].obj[i] == Present(w, true))
    && t.cores[d].pc == (match k
                         case 2 => Locked
                         case 3 => Inside
                         case 4 => Inside
                         case 5 => Leaving
                         case _ => Idle)
    && (k >= 2 ==> !t.cores[d].light && t.log != [])
    && (k == 4 ==> t.cores[d].obj[i] == Present(v, true))
    && (k == 5 || k == 6 ==> t.obj[i] == v)
    && (k == 7 ==> t.obj[i] == w)
    && Flat(t.log) == Flat(s.log) + if k < 4 then [] else [Stored(i, v)]
  }

  lemma RecordedFlat<V>(log: seq<Section<V>>, e: Event<V>)
    requires log != []
    ensures Record(log, e) != [] && Flat(Record(log, e)) == Flat(log) + [e]
  {
    var longer := Record(log, e);
    assert longer[..|longer| - 1] == log[..|log| - 1];
  }

  lemma EndOnTheWay<V>(s: State<V>, t: State<V>, c: nat, d: nat, i: nat, v: V, w: V, k: nat)
    requires c < |s.cores| && d < |s.cores| && c != d && i < |s.obj| && k < 2
    requires OnTheWay(s, t, c, d, i, v, w, k)
    ensures Enabled(t, Losing(c, d, i, v, k))
    ensures OnTheWay(s, Next(t, Losing(c, d, i, v, k)), c, d, i, v, w, k + 1)
  {
    if k == 1 {
      OpenedSection(t.log, d, false);
    }
  }

  lemma StoreOnTheWay<V>(s: State<V>, t: State<V>, c: nat, d: nat, i: nat, v: V, w: V, k: nat)
    requires c < |s.cores| && d < |s.cores| && c != d && i < |s.obj| && 2 <= k < 4
    requires OnTheWay(s, t, c, d, i, v, w, k)
    ensures Enabled(t, Losing(c, d, i, v, k))
    ensures OnTheWay(s, Next(t, Losing(c, d, i, v, k)), c, d, i, v, w, k + 1)
  {
    if k == 3 {
      RecordedFlat(t.log, Stored(i, v));
    }
  }

  lemma ReleaseOnTheWay<V>(s: State<V>, t: State<V>, c: nat, d: nat, i: nat, v: V, w: V, k: nat)
    requires c < |s.cores| && d < |s.cores| && c != d && i < |s.obj| && 4 <= k < LOSING
    requires OnTheWay(s, t, c, d, i, v, w, k)
    ensures Enabled(t, Losing(c, d, i, v, k))
    ensures OnTheWay(s, Next(t, Losing(c, d, i, v, k)), c, d, i, v, w, k + 1)
  {
  }

  lemma StepOnTheWay<V>(s: State<V>, t: State<V>, c: nat, d: nat, i: nat, v: V, w: V, k: nat)
    requires c < |s.cores| && d < |s.cores| && c != d && i < |s.obj| && k < LOSING
    requires OnTheWay(s, t, c, d, i, v, w, k)
    ensures Enabled(t, Losing(c, d, i, v, k))
    ensures OnTheWay(s, Next(t, Losing(c, d, i, v, k)), c, d, i, v, w, k + 1)
  {
    if k < 2 {
      EndOnTheWay(s, t, c, d, i, v, w, k);
    } else if k < 4 {
      StoreOnTheWay(s, t, c, d, i, v, w, k);
    } else {
      ReleaseOnTheWay(s, t, c, d, i, v, w, k);
    }
  }

  lemma {:induction false} Reaches<V>(
      states: seq<State<V>>, start: seq<V>, c: nat, d: nat, i: nat, v: V, w: V, k: nat, j: nat)
    requires Loses(states, c, d, i, v, k) && k <= LOSING && j <= k
    requires LeavesDirty(states[0], start, c, i, w) && d < |states[0].cores| && c != d
    ensures OnTheWay(states[0], states[j], c, d, i, v, w, j)
  {
    if j == 0 {
      assert CoreOk(states[0], start, d);
    } else {
      Reaches(states, start, c, d, i, v, w, k, j - 1);
      StepOnTheWay(states[0], states[j - 1], c, d, i, v, w, j - 1);
      assert IsStep(states[j - 1], Losing(c, d, i, v, j - 1), states[j - 1 + 1]);
    }
  }

  /** Every other core can take these steps. */
  lemma {:induction false} CanLose<V>(s: State<V>, start: seq<V>, c: nat, d: nat, i: nat, v: V, w: V, k: nat)
      returns (states: seq<State<V>>)
    requires LeavesDirty(s, start, c, i, w) && d < |s.cores| && c != d && k <= LOSING
    ensures Loses(states, c, d, i, v, k) && states[0] == s
  {
    if k == 0 {
      states := [s];
    } else {
      states := CanLose(s, start, c, d, i, v, w, k - 1);
      Reaches(states, start, c, d, i, v, w, k - 1, k - 1);
      StepOnTheWay(s, states[k - 1], c, d, i, v, w, k - 1);
      states := OneMore(states, c, d, i, v, k - 1);
    }
  }

  lemma OneMore<V>(states: seq<State<V>>, c: nat, d: nat, i: nat, v: V, k: nat) returns (longer: seq<State<V>>)
    requires Loses(states, c, d, i, v, k) && Enabled(states[k], Losing(c, d, i, v, k))
    ensures Loses(longer, c, d, i, v, k + 1) && longer[0] == states[0]
  {
    longer := states + [Next(states[k], Losing(c, d, i, v, k))];
    forall j | 0 <= j < k + 1
      ensures IsStep(longer[j], Losing(c, d, i, v, j), longer[j + 1])
    {
      assert j < k ==> IsStep(states[j], Losing(c, d, i, v, j), states[j + 1]);
    }
  }

  /** Core d has released its value, and in the serial order it is the last one stored; but the eviction
      puts the older value of the light section back, so with different values the update is lost. */
  lemma LightReleaseLosesUpdate<V>(
      states: seq<State<V>>, start: seq<V>, c: nat, d: nat, i: nat, v: V, w: V)
    requires Loses(states, c, d, i, v, LOSING)
    requires LeavesDirty(states[0], start, c, i, w) && d < |states[0].cores| && c != d
    ensures Serial(states[0], start)[i] == w
    ensures forall k: nat :: k < LOSING ==>
              Enabled(states[k], Losing(c, d, i, v, k)) && Disciplined(states[k], Losing(c, d, i, v, k))
    ensures var released, end := states[LOSING - 1], states[LOSING];
            && released.lock.None? && i < |released.obj| && released.obj[i] == v
            && end.lock.None? && i < |end.obj| && end.obj[i] == w
            && Serial(end, start) == Serial(states[0], start)[i := v]
  {
    var s := states[0];
    assert CoreOk(s, start, c);
    Reaches(states, start, c, d, i, v, w, LOSING, LOSING - 1);
    Reaches(states, start, c, d, i, v, w, LOSING, LOSING);
    forall k: nat | k < LOSING
      ensures Enabled(states[k], Losing(c, d, i, v, k)) && Disciplined(states[k], Losing(c, d, i, v, k))
    {
      Reaches(states, start, c, d, i, v, w, LOSING, k);
      StepOnTheWay(s, states[k], c, d, i, v, w, k);
    }
    StoredLast(start, Flat(s.log), i, v);
  }

  lemma StoredLast<V>(start: seq<V>, events: seq<Event<V>>, i: nat, v: V)
    requires i < |start|
    ensures Replay(start, events + [Stored(i, v)]) == Replay(start, events)[i := v]
  {
    assert (events + [Stored(i, v)])[..|events|] == events;
  }

  // ---------------------------------------------------------------- one run

  function Scene<V>(lock: Option<nat>, memory: V, zero: Core<V>, one: Core<V>, log: seq<Section<V>>): State<V> {
    State(lock, [memory], [zero, one], log)
  }

  function Resting<V>(light: bool, line: Line<V>): Core<V> {
    Core(Idle, light, [line])
  }

  /** The states of the run, from memory `start`: core 0 stores a, core 1 stores b. */
  function At<V>(start: V, a: V, b: V, k: nat): State<V> {
    var none := Resting(false, Absent);
    var zero := Resting(true, Present(a, true));
    var begun := [Section(0, true, [])];
    var first := [Section(0, true, [Stored(0, a)])];
    var both := first + [Section(1, false, [])];
    var done := first + [Section(1, false, [Stored(0, b)])];
    match k
    case 0 => Scene(None, start, none, none, [])
    case 1 => Scene(Some(0), start, Core(Locked, true, [Absent]), none, begun)
    case 2 => Scene(Some(0), start, Core(Inside, true, [Absent]), none, begun)
    case 3 => Scene(Some(0), start, Core(Inside, true, [Present(a, true)]), none, first)
    case 4 => Scene(None, start, zero, none, first)
    case 5 => Scene(Some(1), start, zero, Core(Locked, false, [Absent]), both)
    case 6 => Scene(Some(1), start, zero, Core(Inside, false, [Absent]), both)
    case 7 => Scene(Some(1), start, zero, Core(Inside, false, [Present(b, true)]), done)
    case 8 => Scene(Some(1), b, zero, Core(Leaving, false, [Absent]), done)
    case 9 => Scene(None, b, zero, none, done)
    case _ => Scene(None, a, Resting(true, Absent), none, done)
  }

  function Act<V>(a: V, b: V, k: nat): Action<V> {
    match k
    case 0 => Acquire(0, true)
    case 1 => Invalidate(0)
    case 2 => Store(0, 0, a)
    case 3 => Release(0)
    case 4 => Acquire(1, false)
    case 5 => Invalidate(1)
    case 6 => Store(1, 0, b)
    case 7 => Release(1)
    case 8 => Unlock(1)
    case _ => Evict(0, 0)
  }

  ghost predicate StepOk<V>(start: V, a: V, b: V, k: nat) {
    Enabled(At(start, a, b, k), Act(a, b, k)) && Next(At(start, a, b, k), Act(a, b, k)) == At(start, a, b, k + 1)
  }

  lemma Regions<V>(v: V, w: V)
    ensures InvalidateRegion([Line<V>.Absent]) == [Absent] == InvalidateRegion([Present(v, true)])
    ensures FlushRegion([w], [Present(v, true)]) == [v]
  {
  }

  /** Recording an access in the section that was opened last. */
  lemma Recorded<V>(done: seq<Section<V>>, c: nat, light: bool, e: Event<V>)
    ensures Record(done + [Section(c, light, [])], e) == done + [Section(c, light, [e])]
  {
    assert (done + [Section(c, light, [])])[..|done|] == done && [] + [e] == [e];
  }

  lemma LightSteps<V>(start: V, a: V, b: V, k: nat)
    requires k < 2
    ensures StepOk(start, a, b, k)
  {
    Regions(a, start);
    var t := At(start, a, b, k + 1);
    var n := Next(At(start, a, b, k), Act(a, b, k));
    assert n.cores[0] == t.cores[0] && n.cores[1] == t.cores[1];
    assert n.cores == t.cores && n.log == t.log;
  }

  lemma DirtyStep<V>(start: V, a: V, b: V, k: nat)
    requires 2 <= k < 3
    ensures StepOk(start, a, b, k)
  {
    Recorded([], 0, true, Stored(0, a));
    var t := At(start, a, b, k + 1);
    var n := Next(At(start, a, b, k), Act(a, b, k));
    assert n.cores[0] == t.cores[0] && n.cores[1] == t.cores[1];
    assert n.cores == t.cores && n.log == t.log;
  }

  lemma FullSteps<V>(start: V, a: V, b: V, k: nat)
    requires 3 <= k < 5
    ensures StepOk(start, a, b, k)
  {
    Regions(b, start);
    var t := At(start, a, b, k + 1);
    var n := Next(At(start, a, b, k), Act(a, b, k));
    assert n.cores[0] == t.cores[0] && n.cores[1] == t.cores[1];
    assert n.cores == t.cores && n.log == t.log;
  }

  lemma StoreSteps<V>(start: V, a: V, b: V, k: nat)
    requires 5 <= k < 7
    ensures StepOk(start, a, b, k)
  {
    Regions(b, start);
    Recorded([Section(0, true, [Stored(0, a)])], 1, false, Stored(0, b));
    var t := At(start, a, b, k + 1);
    var n := Next(At(start, a, b, k), Act(a, b, k));
    assert n.cores[0] == t.cores[0] && n.cores[1] == t.cores[1];
    assert n.cores == t.cores && n.log == t.log;
  }

  lemma LastSteps<V>(start: V, a: V, b: V, k: nat)
    requires 7 <= k < 10
    ensures StepOk(start, a, b, k)
  {
    Regions(b, start);
    var t := At(start, a, b, k + 1);
    var n := Next(At(start, a, b, k), Act(a, b, k));
    assert n.cores[0] == t.cores[0] && n.cores[1] == t.cores[1];
    assert n.cores == t.cores && n.log == t.log;
  }

  /** Every step is a step of the protocol, and only the store at step 2 is undisciplined; in the end
      the lock is free and memory is not what the sections leave when run one after the other. */
  lemma DirtyLightSectionLosesUpdate<V>(start: V, a: V, b: V)
    requires a != b
    ensures Initial(At(start, a, b, 0))
    ensures forall k: nat :: k < 10 ==> StepOk(start, a, b, k)
    ensures forall k: nat {:trigger StepOk(start, a, b, k)} :: k < 10 && k != 2 ==>
              StepOk(start, a, b, k) && Disciplined(At(start, a, b, k), Act(a, b, k))
    ensures var end := At(start, a, b, 10);
            && end.lock.None? && end.obj == [a]
            && Flat(end.log) == [Stored(0, a), Stored(0, b)] && Replay([start], Flat(end.log)) == [b]
  {
    forall k: nat | k < 10
      ensures StepOk(start, a, b, k)
    {
      if k < 2 {
        LightSteps(start, a, b, k);
      } else if k < 3 {
        DirtyStep(start, a, b, k);
      } else if k < 5 {
        FullSteps(start, a, b, k);
      } else if k < 7 {
        StoreSteps(start, a, b, k);
      } else {
        LastSteps(start, a, b, k);
      }
    }
    forall k: nat {:trigger StepOk(start, a, b, k)} | k < 10 && k != 2
      ensures StepOk(start, a, b, k) && Disciplined(At(start, a, b, k), Act(a, b, k))
    {
      OnlyOneUndisciplined(start, a, b, k);
    }
    SerialOrder(start, a, b);
  }

  lemma OnlyOneUndisciplined<V>(start: V, a: V, b: V, k: nat)
    requires k < 10 && k != 2 && StepOk(start, a, b, k)
    ensures Disciplined(At(start, a, b, k), Act(a, b, k))
  {
    assert Act(a, b, k).Store? ==> k == 6;
  }

  lemma SerialOrder<V>(start: V, a: V, b: V)
    ensures var log := At(start, a, b, 10).log;
            Flat(log) == [Stored(0, a), Stored(0, b)] && Replay([start], Flat(log)) == [b]
  {
    var one := Section(0, true, [Stored(0, a)]);
    var two := Section(1, false, [Stored(0, b)]);
    assert [one, two][..1] == [one] && [one][..0] == [];
    assert Flat([one]) == [Stored(0, a)];
    var events := [Stored(0, a), Stored(0, b)];
    assert events[..1] == [Stored(0, a)] && events[..1][..0] == [];
    assert Replay([start], events[..1]) == [a];
  }
}
