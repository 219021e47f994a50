/**
 The exclusive lock `SharedRW` over an object in non-coherent caches. Sections of different cores
 are shown to be equivalent to running them one after another on one memory.
 */
module SharedRwModel {
  import opened Words
  import opened Coherence

  datatype Event<V> = Loaded(i: nat, v: V) | Stored(i: nat, v: V)

  /** The accesses of one acquire..release (or lightacquire..lightrelease) section, in order. */
  datatype Section<V> = Section(core: nat, light: bool, events: seq<Event<V>>)

  datatype Pc = Idle | Locked | Inside | Leaving

  datatype Core<V> = Core(pc: Pc, light: bool, obj: seq<Line<V>>)

  /** `log` only records: the sections in the order in which they took the lock. */
  datatype State<V> = State(lock: Option<nat>, obj: seq<V>, cores: seq<Core<V>>, log: seq<Section<V>>)

  datatype Action<V> =
    | Acquire(c: nat, light: bool)
    | Invalidate(c: nat)
    | Load(c: nat, i: nat)
    | Store(c: nat, i: nat, v: V)
    | Release(c: nat)
    | Unlock(c: nat)
    | Evict(c: nat, i: nat)

  predicate Shaped<V>(s: State<V>) {
    forall c :: 0 <= c < |s.cores| ==> |s.cores[c].obj| == |s.obj|
  }

  predicate Enabled<V>(s: State<V>, a: Action<V>) {
    && Shaped(s)
    && a.c < |s.cores|
    && var core := s.cores[a.c];
       match a
       case Acquire(_, _) => core.pc.Idle? && s.lock.None?
       case Invalidate(_) => core.pc.Locked?
       case Load(_, i) => core.pc.Inside? && i < |s.obj| && s.log != []
       case Store(_, i, _) => core.pc.Inside? && i < |s.obj| && s.log != []
       case Release(_) => core.pc.Inside? || s.lock != Some(a.c)
       case Unlock(_) => core.pc.Leaving?
       case Evict(_, i) => i < |s.obj|
  }

  function SetCore<V>(s: State<V>, c: nat, core: Core<V>): State<V>
    requires c < |s.cores|
  {
    s.(cores := s.cores[c := core])
  }

  function Record<V>(log: seq<Section<V>>, e: Event<V>): seq<Section<V>>
    requires log != []
  {
    var last := log[|log| - 1];
    log[..|log| - 1] + [last.(events := last.events + [e])]
  }

  function Next<V>(s: State<V>, a: Action<V>): State<V>
    requires Enabled(s, a)
  {
    var c := a.c;
    var core := s.cores[c];
    match a
    case Acquire(_, light) =>
      SetCore(s, c, core.(pc := Locked, light := light)).(lock := Some(c), log := s.log + [Section(c, light, [])])
    case Invalidate(_) => SetCore(s, c, core.(obj := InvalidateRegion(core.obj), pc := Inside))
    case Load(_, i) =>
      var line := Fill(s.obj[i], core.obj[i]);
      SetCore(s, c, core.(obj := core.obj[i := line])).(log := Record(s.log, Loaded(i, line.val)))
    case Store(_, i, v) =>
      SetCore(s, c, core.(obj := core.obj[i := Present(v, true)])).(log := Record(s.log, Stored(i, v)))
    case Release(_) =>
      if s.lock != Some(c) then s
      else if core.light then SetCore(s, c, core.(pc := Idle)).(lock := None)
      else
        SetCore(s, c, core.(obj := InvalidateRegion(core.obj), pc := Leaving))
        .(obj := FlushRegion(s.obj, core.obj))
    case Unlock(_) => SetCore(s, c, core.(pc := Idle)).(lock := None)
    case Evict(_, i) =>
      SetCore(s, c, core.(obj := core.obj[i := Absent])).(obj := s.obj[i := Flushed(s.obj[i], core.obj[i])])
  }

  // ---------------------------------------------------------------- the serial reference

  function Flat<V>(log: seq<Section<V>>): seq<Event<V>> {
    if log == [] then [] else Flat(log[..|log| - 1]) + log[|log| - 1].events
  }

  /** One memory that executes the events in order. */
  function Replay<V>(memory: seq<V>, events: seq<Event<V>>): (after: seq<V>)
    ensures |after| == |memory|
  {
    if events == [] then memory
    else
      var before := Replay(memory, events[..|events| - 1]);
      var e := events[|events| - 1];
      if e.Stored? && e.i < |before| then before[e.i := e.v] else before
  }

  /** Every load returns what that one memory holds at that moment. */
  ghost predicate Legal<V>(memory: seq<V>, events: seq<Event<V>>) {
    events == [] ||
    (var e := events[|events| - 1];
     && Legal(memory, events[..|events| - 1])
     && e.i < |memory|
     && (e.Loaded? ==> e.v == Replay(memory, events[..|events| - 1])[e.i]))
  }

  // ---------------------------------------------------------------- invariant

  ghost predicate Clean<V>(core: Core<V>) {
    forall i :: 0 <= i < |core.obj| ==> !IsDirty(core.obj[i])
  }

  /** The view of the core inside its section is the serial memory. */
  ghost predicate InsideOk<V>(core: Core<V>, obj: seq<V>, serial: seq<V>)
    requires |core.obj| == |obj| == |serial|
  {
    forall i :: 0 <= i < |obj| ==>
      && (core.obj[i].Present? ==> core.obj[i].val == serial[i])
      && (!IsDirty(core.obj[i]) ==> obj[i] == serial[i])
  }

  function Serial<V>(s: State<V>, start: seq<V>): seq<V> {
    Replay(start, Flat(s.log))
  }

  /** Who is inside a section owns the lock, and nobody else is. */
  predicate OwnerOk<V>(s: State<V>, c: nat)
    requires c < |s.cores|
  {
    !s.cores[c].pc.Idle? <==> s.lock == Some(c)
  }

  /** The section of the owner is the last one of the log. */
  predicate LogOk<V>(s: State<V>) {
    s.lock.Some? ==>
      && s.lock.value < |s.cores| && s.log != []
      && s.log[|s.log| - 1].core == s.lock.value
  }

  /** What needs no discipline of the callers. */
  ghost predicate OwnerInv<V>(s: State<V>) {
    Shaped(s) && LogOk(s) && forall c :: 0 <= c < |s.cores| ==> OwnerOk(s, c)
  }

  ghost predicate CoreOk<V>(s: State<V>, start: seq<V>, c: nat)
    requires Shaped(s) && c < |s.cores| && |start| == |s.obj|
  {
    var core := s.cores[c];
    && OwnerOk(s, c)
    && (!core.pc.Inside? ==> Clean(core))
    && (core.pc.Inside? ==> InsideOk(core, s.obj, Serial(s, start)))
  }

  ghost predicate LockInv<V>(s: State<V>, start: seq<V>) {
    && Shaped(s) && |start| == |s.obj|
    && LogOk(s)
    && (forall c :: 0 <= c < |s.cores| ==> CoreOk(s, start, c))
    && (s.lock.None? || !s.cores[s.lock.value].pc.Inside? ==> s.obj == Serial(s, start))
    && Legal(start, Flat(s.log))
  }

  /** Light sections have stored nothing. */
  ghost predicate LightInv<V>(s: State<V>) {
    forall c :: 0 <= c < |s.cores| && s.cores[c].light ==> Clean(s.cores[c])
  }

  predicate Disciplined<V>(s: State<V>, a: Action<V>)
    requires Enabled(s, a)
  {
    a.Store? ==> !s.cores[a.c].light
  }

  // ---------------------------------------------------------------- steps

  lemma RecordedEvent<V>(start: seq<V>, log: seq<Section<V>>, e: Event<V>)
    requires log != [] && Legal(start, Flat(log)) && e.i < |start|
    requires e.Loaded? ==> e.v == Replay(start, Flat(log))[e.i]
    ensures Flat(Record(log, e)) == Flat(log) + [e]
    ensures Legal(start, Flat(Record(log, e)))
    ensures Replay(start, Flat(Record(log, e)))
         == if e.Stored? then Replay(start, Flat(log))[e.i := e.v] else Replay(start, Flat(log))
  {
    assert Record(log, e)[..|log| - 1] == log[..|log| - 1];
    var events := Flat(log) + [e];
    assert events[..|events| - 1] == Flat(log);
  }

  lemma OpenedSection<V>(log: seq<Section<V>>, c: nat, light: bool)
    ensures Flat(log + [Section(c, light, [])]) == Flat(log)
  {
    var longer := log + [Section(c, light, [])];
    assert longer[..|longer| - 1] == log;
  }

  lemma OtherCoreKept<V>(s: State<V>, t: State<V>, start: seq<V>, d: nat)
    requires LockInv(s, start) && Shaped(t) && |t.obj| == |s.obj|
    requires |t.cores| == |s.cores| && d < |s.cores| && t.cores[d] == s.cores[d]
    requires s.lock == Some(d) <==> t.lock == Some(d)
    requires s.lock == Some(d) ==> t.obj == s.obj && t.log == s.log
    ensures CoreOk(t, start, d)
  {
    assert CoreOk(s, start, d);
  }

  lemma LockStepOk<V>(s: State<V>, start: seq<V>, a: Action<V>)
    requires LockInv(s, start) && Enabled(s, a) && (a.Acquire? || a.Unlock? || a.Invalidate?)
    ensures LockInv(Next(s, a), start)
  {
    var t := Next(s, a);
    assert CoreOk(s, start, a.c);
    if a.Acquire? {
      OpenedSection(s.log, a.c, a.light);
    }
    forall d | 0 <= d < |s.cores| && d != a.c
      ensures CoreOk(t, start, d)
    {
      OtherCoreKept(s, t, start, d);
    }
  }

  /** What an access does to the cache line and to the serial memory. */
  lemma LoadedLine<V>(core: Core<V>, obj: seq<V>, serial: seq<V>, i: nat)
    requires |core.obj| == |obj| == |serial| && i < |obj| && InsideOk(core, obj, serial)
    ensures Fill(obj[i], core.obj[i]).val == serial[i]
    ensures InsideOk(core.(obj := core.obj[i := Fill(obj[i], core.obj[i])]), obj, serial)
  {
  }

  lemma StoredLine<V>(core: Core<V>, obj: seq<V>, serial: seq<V>, i: nat, v: V)
    requires |core.obj| == |obj| == |serial| && i < |obj| && InsideOk(core, obj, serial)
    ensures InsideOk(core.(obj := core.obj[i := Present(v, true)]), obj, serial[i := v])
  {
  }

  /** A step of the lock holder `c` inside its section that leaves memory alone. */
  lemma InsideKept<V>(s: State<V>, t: State<V>, start: seq<V>, c: nat, serial: seq<V>)
    requires LockInv(s, start) && s.lock == Some(c) && c < |s.cores|
    requires |t.cores| == |s.cores| && t == SetCore(s, c, t.cores[c]).(log := t.log)
    requires t.log != [] && t.log[|t.log| - 1].core == c
    requires Legal(start, Flat(t.log)) && Serial(t, start) == serial
    requires t.cores[c].pc.Inside? && |t.cores[c].obj| == |s.obj| == |serial| && InsideOk(t.cores[c], s.obj, serial)
    ensures LockInv(t, start)
  {
    forall d | 0 <= d < |s.cores|
      ensures CoreOk(t, start, d)
    {
      if d != c {
        OtherCoreKept(s, t, start, d);
      }
    }
  }

  lemma AccessKept<V>(s: State<V>, start: seq<V>, c: nat, core: Core<V>, e: Event<V>)
    requires LockInv(s, start) && s.lock == Some(c) && c < |s.cores| && e.i < |start|
    requires core.pc.Inside? && |core.obj| == |s.obj|
    requires e.Loaded? ==> e.v == Serial(s, start)[e.i]
    requires InsideOk(core, s.obj, if e.Stored? then Serial(s, start)[e.i := e.v] else Serial(s, start))
    ensures LockInv(SetCore(s, c, core).(log := Record(s.log, e)), start)
  {
    RecordedEvent(start, s.log, e);
    InsideKept(s, SetCore(s, c, core).(log := Record(s.log, e)), start, c,
               if e.Stored? then Serial(s, start)[e.i := e.v] else Serial(s, start));
  }

  lemma AccessStepOk<V>(s: State<V>, start: seq<V>, a: Action<V>)
    requires LockInv(s, start) && Enabled(s, a) && (a.Load? || a.Store?)
    ensures LockInv(Next(s, a), start)
  {
    var core := s.cores[a.c];
    assert CoreOk(s, start, a.c);
    if a.Load? {
      var line := Fill(s.obj[a.i], core.obj[a.i]);
      LoadedLine(core, s.obj, Serial(s, start), a.i);
      AccessKept(s, start, a.c, core.(obj := core.obj[a.i := line]), Loaded(a.i, line.val));
    } else {
      StoredLine(core, s.obj, Serial(s, start), a.i, a.v);
      AccessKept(s, start, a.c, core.(obj := core.obj[a.i := Present(a.v, true)]), Stored(a.i, a.v));
    }
  }

  lemma EvictStepOk<V>(s: State<V>, start: seq<V>, a: Action<V>)
    requires LockInv(s, start) && Enabled(s, a) && a.Evict?
    ensures LockInv(Next(s, a), start)
  {
    var t := Next(s, a);
    assert CoreOk(s, start, a.c);
    forall d | 0 <= d < |s.cores| && d != a.c
      ensures CoreOk(t, start, d)
    {
      assert s.lock == Some(d) ==> t.obj == s.obj;
      OtherCoreKept(s, t, start, d);
    }
  }

  /** release() writes the whole section back before it gives up the lock; a call by a core that
      does not own the lock does nothing. */
  lemma ReleaseStepOk<V>(s: State<V>, start: seq<V>, a: Action<V>)
    requires LockInv(s, start) && Enabled(s, a) && a.Release? && !s.cores[a.c].light
    ensures LockInv(Next(s, a), start)
    ensures if s.lock == Some(a.c) then Next(s, a).obj == Serial(s, start) else Next(s, a) == s
  {
    var t := Next(s, a);
    assert CoreOk(s, start, a.c);
    if s.lock == Some(a.c) {
      assert t.obj == Serial(s, start);
      forall d | 0 <= d < |s.cores| && d != a.c
        ensures CoreOk(t, start, d)
      {
        OtherCoreKept(s, t, start, d);
      }
    }
  }

  /** lightrelease() writes nothing back: it keeps the invariant exactly when the section left no
      dirty line behind. */
  lemma LightReleaseKeepsInvIff<V>(s: State<V>, start: seq<V>, a: Action<V>)
    requires LockInv(s, start) && Enabled(s, a) && a.Release?
    requires s.lock == Some(a.c) && s.cores[a.c].light
    ensures LockInv(Next(s, a), start) <==> Clean(s.cores[a.c])
  {
    var t := Next(s, a);
    assert CoreOk(s, start, a.c);
    if Clean(s.cores[a.c]) {
      assert t.obj == Serial(s, start);
      forall d | 0 <= d < |s.cores| && d != a.c
        ensures CoreOk(t, start, d)
      {
        OtherCoreKept(s, t, start, d);
      }
    } else {
      assert LockInv(t, start) ==> CoreOk(t, start, a.c);
    }
  }

  lemma NextKeepsInv<V>(s: State<V>, start: seq<V>, a: Action<V>)
    requires LockInv(s, start) && LightInv(s) && Enabled(s, a) && Disciplined(s, a)
    ensures LockInv(Next(s, a), start) && LightInv(Next(s, a))
  {
    LightKept(s, start, a);
    match a
    case Load(_, _) => AccessStepOk(s, start, a);
    case Store(_, _, _) => AccessStepOk(s, start, a);
    case Evict(_, _) => EvictStepOk(s, start, a);
    case Release(_) =>
      if s.lock == Some(a.c) && s.cores[a.c].light {
        LightReleaseKeepsInvIff(s, start, a);
      } else if s.lock == Some(a.c) {
        ReleaseStepOk(s, start, a);
      }
    case _ => LockStepOk(s, start, a);
  }

  lemma LightKept<V>(s: State<V>, start: seq<V>, a: Action<V>)
    requires LockInv(s, start) && LightInv(s) && Enabled(s, a) && Disciplined(s, a)
    ensures LightInv(Next(s, a))
  {
    assert CoreOk(s, start, a.c);
  }

  /** Ownership of the lock needs no discipline. */
  lemma NextKeepsOwner<V>(s: State<V>, a: Action<V>)
    requires OwnerInv(s) && Enabled(s, a)
    ensures OwnerInv(Next(s, a))
  {
    var t := Next(s, a);
    assert OwnerOk(s, a.c);
    forall d | 0 <= d < |t.cores|
      ensures OwnerOk(t, d)
    {
      assert OwnerOk(s, d);
    }
  }

  // ---------------------------------------------------------------- runs

  ghost predicate IsStep<V>(s: State<V>, a: Action<V>, t: State<V>) {
    Enabled(s, a) && t == Next(s, a)
  }

  /** Any interleaving of the cores' actions. */
  ghost predicate IsTrace<V>(states: seq<State<V>>, actions: seq<Action<V>>) {
    && |states| == |actions| + 1
    && forall k :: 0 <= k < |actions| ==> IsStep(states[k], actions[k], states[k + 1])
  }

  ghost predicate IsRun<V>(states: seq<State<V>>, actions: seq<Action<V>>) {
    && IsTrace(states, actions)
    && forall k :: 0 <= k < |actions| ==> Enabled(states[k], actions[k]) && Disciplined(states[k], actions[k])
  }

  /** After Init nobody holds the lock; caches may hold anything clean. */
  ghost predicate Initial<V>(s: State<V>) {
    && Shaped(s) && s.lock.None? && s.log == []
    && forall c :: 0 <= c < |s.cores| ==> s.cores[c].pc.Idle? && Clean(s.cores[c])
  }

  lemma {:induction false} RunKeepsInv<V>(states: seq<State<V>>, actions: seq<Action<V>>, k: nat)
    requires IsRun(states, actions) && Initial(states[0]) && k < |states|
    ensures LockInv(states[k], states[0].obj) && LightInv(states[k])
  {
    if k == 0 {
      assert Flat(states[0].log) == [];
    } else {
      RunKeepsInv(states, actions, k - 1);
      NextKeepsInv(states[k - 1], states[0].obj, actions[k - 1]);
      assert IsStep(states[k - 1], actions[k - 1], states[k - 1 + 1]);
    }
  }

  lemma {:induction false} TraceKeepsOwner<V>(states: seq<State<V>>, actions: seq<Action<V>>, k: nat)
    requires IsTrace(states, actions) && Initial(states[0]) && k < |states|
    ensures OwnerInv(states[k])
  {
    if k > 0 {
      TraceKeepsOwner(states, actions, k - 1);
      assert IsStep(states[k - 1], actions[k - 1], states[k - 1 + 1]);
      NextKeepsOwner(states[k - 1], actions[k - 1]);
    }
  }

  /** Every run is equivalent to its sections executed one after another on one memory: each load,
      in full and in light sections, returns what that memory holds, and when the lock is free main
      memory is that memory, so no update is lost. */
  lemma RunsAreSerial<V>(states: seq<State<V>>, actions: seq<Action<V>>, k: nat)
    requires IsRun(states, actions) && Initial(states[0]) && k < |states|
    ensures Legal(states[0].obj, Flat(states[k].log))
    ensures states[k].lock.None? ==> states[k].obj == Replay(states[0].obj, Flat(states[k].log))
  {
    RunKeepsInv(states, actions, k);
  }

  /** The sections of the log do not interleave, whatever the callers do: an access is recorded in the
      section of the core that makes it, and that section is the last one. */
  lemma AccessesStayInSection<V>(states: seq<State<V>>, actions: seq<Action<V>>, k: nat)
    requires IsTrace(states, actions) && Initial(states[0]) && k < |actions|
    requires actions[k].Load? || actions[k].Store?
    ensures var before, after := states[k].log, states[k + 1].log;
            && before != [] && |after| == |before|
            && after[..|after| - 1] == before[..|before| - 1]
            && before[|before| - 1].core == after[|after| - 1].core == actions[k].c
            && |after[|after| - 1].events| == |before[|before| - 1].events| + 1
            && before[|before| - 1].events <= after[|after| - 1].events
  {
    TraceKeepsOwner(states, actions, k);
    assert IsStep(states[k], actions[k], states[k + 1]);
    assert OwnerOk(states[k], actions[k].c);
  }
}
