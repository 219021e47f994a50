/**
 The re-entrant guard `ThreadSafe::Lock`. Its two critical sections are the methods of `ThreadSafe`;
 around them any number of threads preempt each other.
 */
module ThreadLocks {
  import opened Words

  /** `thread` is None for the invalid marker; `references` is the counter, a machine word. */
  datatype Guarded = Guarded(thread: Option<nat>, references: Word)

  // ---------------------------------------------------------------- the critical sections

  predicate Admits(g: Guarded, t: nat) {
    g.references == 0 || g.thread == Some(t)
  }

  /** Whether the constructor's own check holds: a free lock carries the marker. */
  predicate MarkedWhenFree(g: Guarded) {
    g.references == 0 ==> g.thread.None?
  }

  function Entered(g: Guarded, t: nat): Guarded {
    if Admits(g, t) then Guarded(Some(t), (g.references + 1) % WORD) else g
  }

  /** Whether the destructor's two checks hold for thread t. */
  predicate MayLeave(g: Guarded, t: nat) {
    g.references != 0 && g.thread == Some(t)
  }

  function Left(g: Guarded, t: nat): Guarded
    requires MayLeave(g, t)
  {
    if g.references == 1 then Guarded(None, 0) else Guarded(g.thread, g.references - 1)
  }

  class ThreadSafe {
    var thread: Option<nat>
    var references: Word

    constructor ()
      ensures State() == Guarded(None, 0)
    {
      thread := None;
      references := 0;
    }

    function State(): Guarded
      reads this
    {
      Guarded(thread, references)
    }

    /** One turn of the constructor's loop; it goes round again when `inLoop`. */
    method TryEnter(current: nat) returns (inLoop: bool)
      requires MarkedWhenFree(State())
      modifies this
      ensures inLoop <==> old(references != 0 && thread != Some(current))
      ensures inLoop ==> thread == old(thread) && references == old(references)
      ensures !inLoop ==> thread == Some(current) && references == (old(references) + 1) % WORD
      ensures inLoop <==> !Admits(old(State()), current)
      ensures State() == Entered(old(State()), current)
    {
      inLoop := true;
      if references != 0 {
        if thread == Some(current) {
          references := (references + 1) % WORD;
          inLoop := false;
        } else {
          inLoop := true;
        }
      } else {
        assert thread == None;
        thread := Some(current);
        references := (references + 1) % WORD;
        inLoop := false;
      }
    }

    method Leave(current: nat)
      requires MayLeave(State(), current)
      modifies this
      ensures references == old(references) - 1
      ensures thread == if references == 0 then None else Some(current)
      ensures State() == Left(old(State()), current)
    {
      references := references - 1;
      if references == 0 {
        thread := None;
      }
    }
  }

  // ---------------------------------------------------------------- threads

  /** Running its own code, in the constructor's loop, refused but not yet blocked, or blocked. */
  datatype Phase = Running | Entering | Refused | Blocked

  datatype Task = Task(phase: Phase, guards: nat)

  /** `halted` is set when a check of the source fails. */
  datatype World = World(lock: Guarded, tasks: seq<Task>, halted: bool)

  datatype Step = Construct(t: nat) | Try(t: nat) | Block(t: nat) | Wake(t: nat) | Destroy(t: nat)

  /** A blocked thread resumes only while the word it watches holds the marker; guards nest. */
  predicate Enabled(w: World, s: Step) {
    && s.t < |w.tasks|
    && var task := w.tasks[s.t];
       match s
       case Construct(_) => task.phase.Running?
       case Try(_) => task.phase.Entering?
       case Block(_) => task.phase.Refused?
       case Wake(_) => task.phase.Blocked? && w.lock.thread.None?
       case Destroy(_) => task.phase.Running? && task.guards > 0
  }

  function With(w: World, t: nat, task: Task): World
    requires t < |w.tasks|
  {
    w.(tasks := w.tasks[t := task])
  }

  function Next(w: World, s: Step): World
    requires Enabled(w, s)
  {
    var t := s.t;
    var task := w.tasks[t];
    match s
    case Construct(_) => With(w, t, task.(phase := Entering))
    case Try(_) =>
      if !MarkedWhenFree(w.lock) then w.(halted := true)
      else if Admits(w.lock, t) then With(w, t, Task(Running, task.guards + 1)).(lock := Entered(w.lock, t))
      else With(w, t, task.(phase := Refused))
    case Block(_) => With(w, t, task.(phase := Blocked))
    case Wake(_) => With(w, t, task.(phase := Entering))
    case Destroy(_) =>
      if !MayLeave(w.lock, t) then w.(halted := true)
      else With(w, t, task.(guards := task.guards - 1)).(lock := Left(w.lock, t))
  }

  // ---------------------------------------------------------------- invariant

  ghost predicate TaskOk(w: World, t: nat)
    requires t < |w.tasks|
  {
    && w.tasks[t].guards == (if w.lock.thread == Some(t) then w.lock.references else 0)
    && (w.tasks[t].phase.Refused? || w.tasks[t].phase.Blocked? ==> w.tasks[t].guards == 0)
  }

  ghost predicate Inv(w: World) {
    && !w.halted
    && (w.lock.references == 0 <==> w.lock.thread.None?)
    && (w.lock.thread.Some? ==> w.lock.thread.value < |w.tasks|)
    && forall t :: 0 <= t < |w.tasks| ==> TaskOk(w, t)
  }

  /** The counter does not overflow: fewer than 2^32 live guards in one thread. */
  predicate InRange(w: World, s: Step) {
    s.Try? && s.t < |w.tasks| ==> w.tasks[s.t].guards + 1 < WORD
  }

  /** The invariant survives exactly the steps that do not overflow the counter. */
  lemma NextKeepsInvIff(w: World, s: Step)
    requires Inv(w) && Enabled(w, s)
    ensures Inv(Next(w, s)) <==> InRange(w, s)
  {
    assert TaskOk(w, s.t);
    var after := Next(w, s);
    if InRange(w, s) {
      forall t | 0 <= t < |after.tasks| ensures TaskOk(after, t) {
        assert TaskOk(w, t);
      }
    }
  }

  // ---------------------------------------------------------------- what the invariant gives

  /** Guards of two threads never live at the same time. */
  lemma MutualExclusion(w: World, t: nat, u: nat)
    requires Inv(w) && t < |w.tasks| && u < |w.tasks|
    requires w.tasks[t].guards > 0 && w.tasks[u].guards > 0
    ensures t == u && w.lock.thread == Some(t) && w.lock.references == w.tasks[t].guards
  {
    assert TaskOk(w, t) && TaskOk(w, u);
  }

  /** A turn in the loop gets the lock while nobody has a guard, and is refused exactly while another
      thread has one. */
  lemma TryDecides(w: World, t: nat)
    requires Inv(w) && Enabled(w, Try(t))
    ensures var n := Next(w, Try(t));
            && ((forall u :: 0 <= u < |w.tasks| ==> w.tasks[u].guards == 0) ==>
                  n.tasks[t] == Task(Running, 1) && n.lock == Guarded(Some(t), 1))
            && (n.tasks[t].phase.Refused? <==> exists u :: 0 <= u < |w.tasks| && u != t && w.tasks[u].guards > 0)
            && (n.tasks[t].phase.Refused? ==> n.lock == w.lock && n.tasks[t].guards == 0)
            && (!n.tasks[t].phase.Refused? ==> n.tasks[t] == Task(Running, w.tasks[t].guards + 1))
  {
    assert TaskOk(w, t);
    if w.lock.thread.Some? {
      assert TaskOk(w, w.lock.thread.value) && w.tasks[w.lock.thread.value].guards > 0;
    }
    forall u | 0 <= u < |w.tasks| && w.tasks[u].guards > 0
      ensures w.lock.thread == Some(u)
    {
      assert TaskOk(w, u);
    }
  }

  /** A thread with a live guard is never refused another, and holds the lock for as long as it has one. */
  lemma OwnerKeepsLock(w: World, t: nat, s: Step)
    requires Inv(w) && Enabled(w, s) && t < |w.tasks| && w.tasks[t].guards > 0 && InRange(w, s)
    ensures s == Try(t) ==> Next(w, s).tasks[t] == Task(Running, w.tasks[t].guards + 1)
    ensures s.t != t ==> Next(w, s).tasks[t] == w.tasks[t] && Next(w, s).lock == w.lock
    ensures !w.tasks[t].phase.Refused? && !w.tasks[t].phase.Blocked?
  {
    assert TaskOk(w, t) && TaskOk(w, s.t);
  }

  /** A blocked thread may resume exactly while no thread has a guard. */
  lemma WakesIffFree(w: World, t: nat)
    requires Inv(w) && t < |w.tasks| && w.tasks[t].phase.Blocked?
    ensures Enabled(w, Wake(t)) <==> forall u :: 0 <= u < |w.tasks| ==> w.tasks[u].guards == 0
  {
    if w.lock.thread.Some? {
      assert TaskOk(w, w.lock.thread.value);
    } else {
      forall u | 0 <= u < |w.tasks| ensures w.tasks[u].guards == 0 {
        assert TaskOk(w, u);
      }
    }
  }

  /** Destroying the last guard lets every blocked thread resume; destroying an inner one lets none. */
  lemma LastGuardWakes(w: World, t: nat, u: nat)
    requires Inv(w) && Enabled(w, Destroy(t)) && u < |w.tasks| && w.tasks[u].phase.Blocked?
    ensures Enabled(Next(w, Destroy(t)), Wake(u)) <==> w.tasks[t].guards == 1
    ensures !Enabled(w, Wake(u))
  {
    assert TaskOk(w, t) && TaskOk(w, u);
  }

  /** A destructor takes exactly one guard of its own thread away. */
  lemma DestroyDropsOne(w: World, t: nat)
    requires Inv(w) && Enabled(w, Destroy(t))
    ensures var n := Next(w, Destroy(t));
            && |n.tasks| == |w.tasks| && n.tasks[t] == Task(Running, w.tasks[t].guards - 1)
            && n.lock.references == w.tasks[t].guards - 1
            && n.lock.thread == (if w.tasks[t].guards == 1 then None else Some(t))
            && forall u :: 0 <= u < |w.tasks| && u != t ==> n.tasks[u] == w.tasks[u]
  {
    assert TaskOk(w, t);
  }

  /** Nobody waits for ever behind a stuck owner: while any thread waits, some thread can go on. */
  lemma NoDeadlock(w: World, t: nat)
    requires Inv(w) && t < |w.tasks| && !w.tasks[t].phase.Running?
    ensures exists s :: Enabled(w, s) && (s.t == t || w.tasks[s.t].guards > 0)
  {
    if w.lock.thread.Some? {
      var owner := w.lock.thread.value;
      assert TaskOk(w, owner);
      assert Enabled(w, Destroy(owner)) || Enabled(w, Try(owner));
    } else {
      assert Enabled(w, Try(t)) || Enabled(w, Block(t)) || Enabled(w, Wake(t));
    }
  }

  // ---------------------------------------------------------------- runs

  function Initial(n: nat): World {
    World(Guarded(None, 0), seq(n, _ => Task(Running, 0)), false)
  }

  /** The state after the steps, if each was enabled and kept the counter in range. */
  function Run(w: World, steps: seq<Step>): Option<World> {
    if steps == [] then Some(w)
    else
      var before := Run(w, steps[..|steps| - 1]);
      var s := steps[|steps| - 1];
      if before.Some? && Enabled(before.value, s) && InRange(before.value, s) then Some(Next(before.value, s))
      else None
  }

  /**
   In every run of any number of threads no check fails, at most one thread has live guards, the
   counter is their number, and it is zero exactly when the marker is stored.
   */
  lemma {:induction false} RunIsExclusive(n: nat, steps: seq<Step>)
    requires Run(Initial(n), steps).Some?
    ensures Inv(Run(Initial(n), steps).value)
    ensures var w := Run(Initial(n), steps).value;
            && !w.halted
            && (w.lock.references == 0 <==> w.lock.thread.None?)
            && forall t, u :: (0 <= t < |w.tasks| && 0 <= u < |w.tasks| && w.tasks[t].guards > 0
                 && w.tasks[u].guards > 0) ==> t == u && w.lock.references == w.tasks[t].guards
  {
    if steps == [] {
      forall t | 0 <= t < n ensures TaskOk(Initial(n), t) {
      }
    } else {
      RunIsExclusive(n, steps[..|steps| - 1]);
      NextKeepsInvIff(Run(Initial(n), steps[..|steps| - 1]).value, steps[|steps| - 1]);
    }
    var w := Run(Initial(n), steps).value;
    forall t, u | 0 <= t < |w.tasks| && 0 <= u < |w.tasks| && w.tasks[t].guards > 0 && w.tasks[u].guards > 0
      ensures t == u && w.lock.references == w.tasks[t].guards
    {
      MutualExclusion(w, t, u);
    }
  }
}
