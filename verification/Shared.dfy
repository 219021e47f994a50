/**
 The reader/writer lock `Shared` over an object in non-coherent caches, as a transition system with
 one step per action of the code on the spinlock, the control block or the object. Loads, stores
 and evictions of any core may happen between any two steps.
 */
module SharedModel {
  import opened Words
  import opened Coherence

  /** The control block without its spinlock; a core whose flag is set must invalidate its copy of
      the object before it reads. */
  datatype Control = Control(readers: int, flags: seq<bool>, possiblyDirty: bool)

  predicate Flagged(control: Control, c: nat) {
    c < |control.flags| && control.flags[c]
  }

  function WithoutFlag(control: Control, c: nat): Control {
    if c < |control.flags| then control.(flags := control.flags[c := false]) else control
  }

  /** The mask of all cores but one. */
  function OthersMask(cores: nat, c: nat): seq<bool> {
    seq(cores, i => i != c)
  }

  /** Where a core is inside the protocol: R.. acquire for reading, Q.. release of a read access,
      W.. acquire for writing, X.. the extra part of a read-write acquire, P.. release of a write. */
  datatype Pc =
    | Idle
    | RLocked | RCount | RTest | RClear | RFlush | RUnlock | Reading
    | QLocked | QCount | QFlush | QUnlock
    | WLocked | WCheck | WBusy | WSpin | WMark | WFlush
    | XTest | XClear | XFlush
    | Writing
    | PTest | PFlush | PFlags | PCtrl | PUnlock

  /** `readWrite` and `written` belong to a write access: its kind and the lines it stored to. */
  datatype Core<V> = Core(pc: Pc, ctrl: Line<Control>, obj: seq<Line<V>>, readWrite: bool, written: set<nat>)

  /** `lock`, `ctrl` and `obj` are the spinlock and main memory. The last three fields only record:
      `truth` the up-to-date control block, `value` the object as the last store left it,
      `committed` the object as the last dirty release wrote it back. */
  datatype State<V> = State(
    lock: Option<nat>, ctrl: Control, obj: seq<V>, cores: seq<Core<V>>,
    truth: Control, value: seq<V>, committed: seq<V>)

  datatype Action<V> =
    | AcquireRead(c: nat)
    | AcquireWrite(c: nat, readWrite: bool)
    | Relock(c: nat)
    | Release(c: nat)
    | Advance(c: nat)
    | Load(c: nat, i: nat)
    | Store(c: nat, i: nat, v: V)
    | Evict(c: nat, i: nat)
    | EvictControl(c: nat)

  /** All copies of the object have the same number of lines, all masks one bit per core. */
  predicate Shaped<V>(s: State<V>) {
    && |s.obj| == |s.value| == |s.committed|
    && |s.truth.flags| == |s.cores|
    && forall c :: 0 <= c < |s.cores| ==> |s.cores[c].obj| == |s.obj|
  }

  // ---------------------------------------------------------------- steps

  predicate Holds(pc: Pc) {
    !(pc.Idle? || pc.Reading? || pc.WSpin?)
  }

  predicate Enabled<V>(s: State<V>, a: Action<V>) {
    && Shaped(s)
    && a.c < |s.cores|
    && var core := s.cores[a.c];
       match a
       case AcquireRead(_) => core.pc.Idle? && s.lock.None?
       case AcquireWrite(_, _) => core.pc.Idle? && s.lock.None?
       case Relock(_) => core.pc.WSpin? && s.lock.None?
       case Release(_) =>
         (core.pc.Reading? || core.pc.Writing?) && (s.lock == Some(a.c) || s.lock.None?)
       case Advance(_) => Holds(core.pc) && !core.pc.Writing?
       case Load(_, i) => (core.pc.Reading? || core.pc.Writing?) && i < |s.obj|
       case Store(_, i, _) => core.pc.Writing? && i < |s.obj|
       case Evict(_, i) => i < |s.obj|
       case EvictControl(_) => true
  }

  function SetCore<V>(s: State<V>, c: nat, core: Core<V>): State<V>
    requires c < |s.cores|
  {
    s.(cores := s.cores[c := core])
  }

  function Next<V>(s: State<V>, a: Action<V>): State<V>
    requires Enabled(s, a)
  {
    var c := a.c;
    var core := s.cores[c];
    match a
    case AcquireRead(_) => SetCore(s, c, core.(pc := RLocked)).(lock := Some(c))
    case AcquireWrite(_, rw) => SetCore(s, c, core.(pc := WLocked, readWrite := rw, written := {})).(lock := Some(c))
    case Relock(_) => SetCore(s, c, core.(pc := WCheck)).(lock := Some(c))
    case Release(_) =>
      if s.lock == Some(c) then SetCore(s, c, core.(pc := PTest))
      else SetCore(s, c, core.(pc := QLocked)).(lock := Some(c))
    case Advance(_) => AdvanceCore(s, c)
    case Load(_, i) => SetCore(s, c, core.(obj := core.obj[i := Fill(s.obj[i], core.obj[i])]))
    case Store(_, i, v) =>
      SetCore(s, c, core.(obj := core.obj[i := Present(v, true)], written := core.written + {i}))
      .(value := s.value[i := v])
    case Evict(_, i) =>
      SetCore(s, c, core.(obj := core.obj[i := Absent])).(obj := s.obj[i := Flushed(s.obj[i], core.obj[i])])
    case EvictControl(_) =>
      SetCore(s, c, core.(ctrl := Absent)).(ctrl := Flushed(s.ctrl, core.ctrl))
  }

  /** A store to the cached control block. */
  function Modify<V>(s: State<V>, c: nat, control: Control, pc: Pc): State<V>
    requires c < |s.cores|
  {
    SetCore(s, c, s.cores[c].(ctrl := Present(control, true), pc := pc))
  }

  /** The explicit write-back of the control block. */
  function FlushControl<V>(s: State<V>, c: nat, pc: Pc): State<V>
    requires c < |s.cores|
  {
    var core := s.cores[c];
    SetCore(s, c, core.(ctrl := Cleaned(core.ctrl), pc := pc)).(ctrl := Flushed(s.ctrl, core.ctrl))
  }

  /** A load of the control block. */
  function Look<V>(s: State<V>, c: nat, pc: Pc): State<V>
    requires c < |s.cores|
  {
    SetCore(s, c, s.cores[c].(ctrl := Fill(s.ctrl, s.cores[c].ctrl), pc := pc))
  }

  /** acquire(access_read_t) between taking and returning the spinlock. */
  function ReadStep<V>(s: State<V>, c: nat): State<V>
    requires Shaped(s) && c < |s.cores|
  {
    var core := s.cores[c];
    var seen := Seen(s.ctrl, core.ctrl);
    match core.pc
    case RLocked => SetCore(s, c, core.(ctrl := Absent, pc := RCount))
    case RCount =>
      Modify(s, c, seen.(readers := seen.readers + 1), RTest).(truth := s.truth.(readers := s.truth.readers + 1))
    case RTest =>
      if Flagged(seen, c) then
        SetCore(s, c, core.(ctrl := Fill(s.ctrl, core.ctrl), obj := InvalidateRegion(core.obj), pc := RClear))
      else Look(s, c, RFlush)
    case RClear =>
      Modify(s, c, WithoutFlag(seen, c), RFlush).(truth := WithoutFlag(s.truth, c))
    case RFlush => FlushControl(s, c, RUnlock)
    case RUnlock => SetCore(s, c, core.(pc := Reading)).(lock := None)
    case _ => s
  }

  /** The part of release() that ends a read access. */
  function QuitStep<V>(s: State<V>, c: nat): State<V>
    requires Shaped(s) && c < |s.cores|
  {
    var core := s.cores[c];
    var seen := Seen(s.ctrl, core.ctrl);
    match core.pc
    case QLocked => SetCore(s, c, core.(ctrl := Absent, pc := QCount))
    case QCount =>
      Modify(s, c, seen.(readers := seen.readers - 1), QFlush).(truth := s.truth.(readers := s.truth.readers - 1))
    case QFlush => FlushControl(s, c, QUnlock)
    case QUnlock => SetCore(s, c, core.(pc := Idle)).(lock := None)
    case _ => s
  }

  /** acquire(access_write_t): the wait loop does not invalidate the control block again. */
  function WaitStep<V>(s: State<V>, c: nat): State<V>
    requires Shaped(s) && c < |s.cores|
  {
    var core := s.cores[c];
    var seen := Seen(s.ctrl, core.ctrl);
    match core.pc
    case WLocked => SetCore(s, c, core.(ctrl := Absent, pc := WCheck))
    case WCheck => Look(s, c, if seen.readers > 0 then WBusy else WMark)
    case WBusy => SetCore(s, c, core.(pc := WSpin)).(lock := None)
    case WMark =>
      Modify(s, c, seen.(possiblyDirty := true), WFlush).(truth := s.truth.(possiblyDirty := true))
    case WFlush => FlushControl(s, c, if core.readWrite then XTest else Writing)
    case _ => s
  }

  /** The part that acquire(access_readwrite_t) adds. */
  function PromoteStep<V>(s: State<V>, c: nat): State<V>
    requires Shaped(s) && c < |s.cores|
  {
    var core := s.cores[c];
    var seen := Seen(s.ctrl, core.ctrl);
    match core.pc
    case XTest =>
      if Flagged(seen, c) then
        SetCore(s, c, core.(ctrl := Fill(s.ctrl, core.ctrl), obj := InvalidateRegion(core.obj), pc := XClear))
      else Look(s, c, Writing)
    case XClear =>
      Modify(s, c, WithoutFlag(seen, c), XFlush).(truth := WithoutFlag(s.truth, c))
    case XFlush => FlushControl(s, c, Writing)
    case _ => s
  }

  /** The part of release() that ends a write or read-write access. */
  function PublishStep<V>(s: State<V>, c: nat): State<V>
    requires Shaped(s) && c < |s.cores|
  {
    var core := s.cores[c];
    var seen := Seen(s.ctrl, core.ctrl);
    match core.pc
    case PTest => Look(s, c, if seen.possiblyDirty then PFlush else PCtrl)
    case PFlush =>
      var memory := FlushRegion(s.obj, core.obj);
      SetCore(s, c, core.(obj := CleanRegion(core.obj), pc := PFlags)).(obj := memory, committed := memory)
    case PFlags =>
      var others := OthersMask(|s.cores|, c);
      Modify(s, c, seen.(flags := others), PCtrl).(truth := s.truth.(flags := others))
    case PCtrl => FlushControl(s, c, PUnlock)
    case PUnlock => SetCore(s, c, core.(pc := Idle)).(lock := None)
    case _ => s
  }

  function AdvanceCore<V>(s: State<V>, c: nat): State<V>
    requires Shaped(s) && c < |s.cores|
  {
    match s.cores[c].pc
    case RLocked | RCount | RTest | RClear | RFlush | RUnlock => ReadStep(s, c)
    case QLocked | QCount | QFlush | QUnlock => QuitStep(s, c)
    case WLocked | WCheck | WBusy | WMark | WFlush => WaitStep(s, c)
    case XTest | XClear | XFlush => PromoteStep(s, c)
    case PTest | PFlush | PFlags | PCtrl | PUnlock => PublishStep(s, c)
    case _ => s
  }

  // ---------------------------------------------------------------- caller discipline and runs

  /** Every line of the object that the core caches is the current value. */
  ghost predicate Good<V>(core: Core<V>, value: seq<V>) {
    && |core.obj| == |value|
    && forall i :: 0 <= i < |core.obj| && core.obj[i].Present? ==> core.obj[i].val == value[i]
  }

  /** A write access may end only when its core caches nothing outdated. */
  ghost predicate Harmless<V>(s: State<V>, a: Action<V>)
    requires Enabled(s, a)
  {
    a.Release? && s.lock == Some(a.c) ==> Good(s.cores[a.c], s.value)
  }

  /** What a caller can check instead: a write access that did not refresh its copy stores to the
      whole object before it is released; read-write accesses and accesses of a core that had nothing
      to refresh need not. */
  ghost predicate Disciplined<V>(s: State<V>, a: Action<V>)
    requires Enabled(s, a)
  {
    a.Release? && s.lock == Some(a.c) ==>
      var core := s.cores[a.c];
      || core.readWrite
      || !Flagged(s.truth, a.c)
      || forall i: nat :: i < |s.obj| ==> i in core.written
  }

  /** Any state the constructor can leave on core `maker`: the other cores may cache anything clean. */
  ghost predicate Initial<V>(s: State<V>, maker: nat) {
    && Shaped(s)
    && maker < |s.cores|
    && s.lock.None?
    && s.ctrl == s.truth == Control(0, OthersMask(|s.cores|, maker), false)
    && s.value == s.obj == s.committed
    && forall c :: 0 <= c < |s.cores| ==>
         && s.cores[c].pc.Idle?
         && !IsDirty(s.cores[c].ctrl)
         && forall i :: 0 <= i < |s.obj| ==>
              && !IsDirty(s.cores[c].obj[i])
              && (c == maker && s.cores[c].obj[i].Present? ==> s.cores[c].obj[i].val == s.obj[i])
  }

  ghost predicate IsStep<V>(s: State<V>, a: Action<V>, t: State<V>) {
    Enabled(s, a) && t == Next(s, a)
  }

  /** Any interleaving of the cores' actions. */
  ghost predicate IsTrace<V>(states: seq<State<V>>, actions: seq<Action<V>>) {
    && |states| == |actions| + 1
    && forall k :: 0 <= k < |actions| ==> IsStep(states[k], actions[k], states[k + 1])
  }

  ghost predicate IsRun<V>(states: seq<State<V>>, actions: seq<Action<V>>) {
    && IsTrace(states, actions)
    && forall k :: 0 <= k < |actions| ==> Enabled(states[k], actions[k]) && Harmless(states[k], actions[k])
  }
}
