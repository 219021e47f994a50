/** Safety of the reader/writer lock `Shared` in every run over any number of cores. */
module SharedProofs {
  import opened Words
  import opened Coherence
  import opened SharedModel

  // ---------------------------------------------------------------- classes of program points

  /** The holder of the spinlock works on the current control block. */
  predicate Fresh(pc: Pc) {
    Holds(pc) && !(pc.RLocked? || pc.QLocked? || pc.WLocked? || pc.WCheck? || pc.WBusy?)
  }

  /** The cached control block may differ from memory. */
  predicate MayBeDirty(pc: Pc) {
    pc.RTest? || pc.RClear? || pc.RFlush? || pc.QFlush? || pc.WFlush? || pc.XFlush? || pc.PCtrl?
  }

  /** Counted in reader_cnt. */
  predicate Counted(pc: Pc) {
    pc.RTest? || pc.RClear? || pc.RFlush? || pc.RUnlock? || pc.Reading? || pc.QLocked? || pc.QCount?
  }

  /** The readers were found gone: from the end of the wait loop to the release. */
  predicate Exclusive(pc: Pc) {
    || pc.WMark? || pc.WFlush? || pc.XTest? || pc.XClear? || pc.XFlush? || pc.Writing?
    || pc.PTest? || pc.PFlush? || pc.PFlags? || pc.PCtrl? || pc.PUnlock?
  }

  predicate Marked(pc: Pc) {
    pc.WFlush? || pc.XTest? || pc.XClear? || pc.XFlush? || pc.Writing? || pc.PTest?
  }

  /** The copy of the object was found or made valid in this access. */
  predicate Refreshed(core: Core) {
    || core.pc.RFlush? || core.pc.RUnlock? || core.pc.Reading? || core.pc.XFlush?
    || (core.readWrite && Storing(core.pc))
  }

  /** The object may be ahead of memory. */
  predicate Storing(pc: Pc) {
    pc.Writing? || pc.PTest? || pc.PFlush?
  }

  // ---------------------------------------------------------------- control-block invariant

  function Weight(core: Core): nat {
    if Counted(core.pc) then 1 else 0
  }

  function CountReaders<V>(cores: seq<Core<V>>): nat {
    if cores == [] then 0 else CountReaders(cores[..|cores| - 1]) + Weight(cores[|cores| - 1])
  }

  ghost predicate CoreControlOk<V>(s: State<V>, c: nat)
    requires c < |s.cores|
  {
    var core := s.cores[c];
    && (Holds(core.pc) <==> s.lock == Some(c))
    && (Fresh(core.pc) ==>
          && Seen(s.truth, core.ctrl) == s.truth
          && (!IsDirty(core.ctrl) ==> s.ctrl == s.truth))
    && (IsDirty(core.ctrl) ==> MayBeDirty(core.pc))
    && ((core.pc.WBusy? || core.pc.WSpin?) && core.ctrl.Present? ==> core.ctrl.val.readers > 0)
    && (core.pc.WCheck? && core.ctrl.Present? ==> core.ctrl.val.readers > 0 || core.ctrl.val == s.truth)
    && (Exclusive(core.pc) ==> s.truth.readers == 0)
    && (Marked(core.pc) ==> s.truth.possiblyDirty)
    && (Refreshed(core) ==> !Flagged(s.truth, c))
  }

  ghost predicate ControlInv<V>(s: State<V>) {
    && Shaped(s)
    && (s.lock.Some? ==> s.lock.value < |s.cores|)
    && (forall c :: 0 <= c < |s.cores| ==> CoreControlOk(s, c))
    && (s.ctrl == s.truth || (s.lock.Some? && Fresh(s.cores[s.lock.value].pc)))
    && s.truth.readers == CountReaders(s.cores)
  }

  lemma {:induction false} CountUpdated<V>(cores: seq<Core<V>>, c: nat, core: Core<V>)
    requires c < |cores|
    ensures CountReaders(cores[c := core])
         == CountReaders(cores) - Weight(cores[c]) + Weight(core)
  {
    var last := |cores| - 1;
    if c == last {
      assert cores[c := core][..last] == cores[..last];
    } else {
      assert cores[c := core][..last] == cores[..last][c := core];
      CountUpdated(cores[..last], c, core);
    }
  }

  lemma {:induction false} CountBoundsEach<V>(cores: seq<Core<V>>, c: nat)
    requires c < |cores| && Counted(cores[c].pc)
    ensures CountReaders(cores) >= 1
  {
    if c < |cores| - 1 {
      CountBoundsEach(cores[..|cores| - 1], c);
    }
  }

  lemma NoReaderWhenExclusive<V>(s: State<V>, c: nat, d: nat)
    requires ControlInv(s) && c < |s.cores| && d < |s.cores| && Exclusive(s.cores[c].pc)
    ensures !Counted(s.cores[d].pc)
  {
    assert CoreControlOk(s, c);
    if Counted(s.cores[d].pc) {
      CountBoundsEach(s.cores, d);
    }
  }

  /** Nothing about a core changes when another core acts without touching its flag or the lock. */
  lemma OtherControlKept<V>(s: State<V>, t: State<V>, c: nat, d: nat)
    requires ControlInv(s) && c < |s.cores| && d < |s.cores| && c != d
    requires |t.cores| == |s.cores| && t.cores[d] == s.cores[d]
    requires s.lock == t.lock || s.lock == Some(c) || (s.lock.None? && t.lock == Some(c))
    requires t.lock == s.lock || t.lock == Some(c) || t.lock.None?
    requires s.lock != Some(d) || (t.ctrl == s.ctrl && t.truth == s.truth)
    requires Flagged(t.truth, d) ==> Flagged(s.truth, d) || !Refreshed(s.cores[d])
    ensures CoreControlOk(t, d)
  {
    assert CoreControlOk(s, d);
  }

  /** What the acting core has to re-establish. */
  ghost predicate ActorControlOk<V>(t: State<V>, c: nat)
    requires c < |t.cores|
  {
    && (t.lock == Some(c) || t.lock.None?)
    && CoreControlOk(t, c)
    && (t.ctrl == t.truth || (t.lock.Some? && Fresh(t.cores[c].pc)))
  }

  predicate Waits(pc: Pc) {
    pc.WLocked? || pc.WCheck? || pc.WBusy? || pc.WMark? || pc.WFlush?
  }

  predicate Promotes(pc: Pc) {
    pc.XTest? || pc.XClear? || pc.XFlush?
  }

  lemma EnterStepControl<V>(s: State<V>, c: nat)
    requires ControlInv(s) && c < |s.cores| && (s.cores[c].pc.RLocked? || s.cores[c].pc.RCount?)
    ensures ActorControlOk(ReadStep(s, c), c)
  {
    assert CoreControlOk(s, c);
  }

  lemma TestStepControl<V>(s: State<V>, c: nat)
    requires ControlInv(s) && c < |s.cores| && s.cores[c].pc.RTest?
    ensures ActorControlOk(ReadStep(s, c), c)
  {
    assert CoreControlOk(s, c);
  }

  lemma AdmitStepControl<V>(s: State<V>, c: nat)
    requires ControlInv(s) && c < |s.cores|
    requires s.cores[c].pc.RClear? || s.cores[c].pc.RFlush? || s.cores[c].pc.RUnlock?
    ensures ActorControlOk(ReadStep(s, c), c)
  {
    assert CoreControlOk(s, c);
  }

  lemma DiscountStepControl<V>(s: State<V>, c: nat)
    requires ControlInv(s) && c < |s.cores| && (s.cores[c].pc.QLocked? || s.cores[c].pc.QCount?)
    ensures ActorControlOk(QuitStep(s, c), c)
  {
    assert CoreControlOk(s, c);
  }

  lemma QuitStepControl<V>(s: State<V>, c: nat)
    requires ControlInv(s) && c < |s.cores| && (s.cores[c].pc.QFlush? || s.cores[c].pc.QUnlock?)
    ensures ActorControlOk(QuitStep(s, c), c)
  {
    assert CoreControlOk(s, c);
  }

  lemma WaitStepControl<V>(s: State<V>, c: nat)
    requires ControlInv(s) && c < |s.cores|
    requires s.cores[c].pc.WLocked? || s.cores[c].pc.WCheck? || s.cores[c].pc.WBusy?
    ensures ActorControlOk(WaitStep(s, c), c)
  {
    assert CoreControlOk(s, c);
  }

  lemma MarkStepControl<V>(s: State<V>, c: nat)
    requires ControlInv(s) && c < |s.cores| && (s.cores[c].pc.WMark? || s.cores[c].pc.WFlush?)
    ensures ActorControlOk(WaitStep(s, c), c)
  {
    assert CoreControlOk(s, c);
  }

  lemma PromoteStepControl<V>(s: State<V>, c: nat)
    requires ControlInv(s) && c < |s.cores| && Promotes(s.cores[c].pc)
    ensures ActorControlOk(PromoteStep(s, c), c)
  {
    assert CoreControlOk(s, c);
  }

  lemma WriteBackStepControl<V>(s: State<V>, c: nat)
    requires ControlInv(s) && c < |s.cores| && (s.cores[c].pc.PTest? || s.cores[c].pc.PFlush?)
    ensures ActorControlOk(PublishStep(s, c), c)
  {
    assert CoreControlOk(s, c);
  }

  lemma PublishStepControl<V>(s: State<V>, c: nat)
    requires ControlInv(s) && c < |s.cores|
    requires s.cores[c].pc.PFlags? || s.cores[c].pc.PCtrl? || s.cores[c].pc.PUnlock?
    ensures ActorControlOk(PublishStep(s, c), c)
  {
    assert CoreControlOk(s, c);
  }

  lemma AcquireStepControl<V>(s: State<V>, a: Action<V>)
    requires ControlInv(s) && Enabled(s, a) && (a.AcquireRead? || a.AcquireWrite?)
    ensures ActorControlOk(Next(s, a), a.c)
  {
    assert CoreControlOk(s, a.c);
  }

  lemma LockStepControl<V>(s: State<V>, a: Action<V>)
    requires ControlInv(s) && Enabled(s, a) && (a.Relock? || a.Release?)
    ensures ActorControlOk(Next(s, a), a.c)
  {
    assert CoreControlOk(s, a.c);
  }

  /** Accesses to the object leave the lock and the control block alone. */
  lemma ObjectStepControl<V>(s: State<V>, a: Action<V>)
    requires ControlInv(s) && Enabled(s, a) && (a.Load? || a.Store? || a.Evict?)
    ensures var t := Next(s, a);
            && t.lock == s.lock && t.ctrl == s.ctrl && t.truth == s.truth
            && t.cores[a.c].pc == s.cores[a.c].pc && CoreControlOk(t, a.c)
  {
    assert CoreControlOk(s, a.c);
  }

  lemma EvictStepControl<V>(s: State<V>, c: nat)
    requires ControlInv(s) && Enabled(s, EvictControl(c))
    ensures var t := Next(s, EvictControl(c));
            && t.lock == s.lock && t.truth == s.truth
            && t.cores[c].pc == s.cores[c].pc && CoreControlOk(t, c)
            && (t.ctrl == s.ctrl || (s.lock == Some(c) && t.ctrl == t.truth))
  {
    assert CoreControlOk(s, c);
  }

  /** Same sizes, and no core but `c` touched. */
  ghost predicate SameShape<V>(s: State<V>, t: State<V>, c: nat) {
    && Shaped(t) && |t.cores| == |s.cores| && |t.obj| == |s.obj|
    && forall d :: 0 <= d < |s.cores| && d != c ==> t.cores[d] == s.cores[d]
  }

  /** The readers count and the number of counted cores move together. */
  ghost predicate SameBalance<V>(s: State<V>, t: State<V>, c: nat) {
    && c < |s.cores| == |t.cores|
    && t.truth.readers - s.truth.readers == Weight(t.cores[c]) - Weight(s.cores[c])
  }

  lemma ReadStepShape<V>(s: State<V>, c: nat)
    requires Shaped(s) && c < |s.cores|
    ensures SameShape(s, ReadStep(s, c), c) && SameBalance(s, ReadStep(s, c), c)
  {
  }

  lemma QuitStepShape<V>(s: State<V>, c: nat)
    requires Shaped(s) && c < |s.cores|
    ensures SameShape(s, QuitStep(s, c), c) && SameBalance(s, QuitStep(s, c), c)
  {
  }

  lemma WaitStepShape<V>(s: State<V>, c: nat)
    requires Shaped(s) && c < |s.cores|
    ensures SameShape(s, WaitStep(s, c), c) && SameBalance(s, WaitStep(s, c), c)
  {
  }

  lemma PromoteStepShape<V>(s: State<V>, c: nat)
    requires Shaped(s) && c < |s.cores|
    ensures SameShape(s, PromoteStep(s, c), c) && SameBalance(s, PromoteStep(s, c), c)
  {
  }

  lemma PublishStepShape<V>(s: State<V>, c: nat)
    requires Shaped(s) && c < |s.cores|
    ensures SameShape(s, PublishStep(s, c), c) && SameBalance(s, PublishStep(s, c), c)
  {
  }

  lemma NextKeepsShape<V>(s: State<V>, a: Action<V>)
    requires Enabled(s, a)
    ensures SameShape(s, Next(s, a), a.c)
  {
    if a.Advance? {
      ReadStepShape(s, a.c);
      QuitStepShape(s, a.c);
      WaitStepShape(s, a.c);
      PromoteStepShape(s, a.c);
      PublishStepShape(s, a.c);
    }
  }

  lemma AdvanceControl<V>(s: State<V>, c: nat)
    requires ControlInv(s) && c < |s.cores| && Holds(s.cores[c].pc) && !s.cores[c].pc.Writing?
    ensures ActorControlOk(AdvanceCore(s, c), c)
  {
    match s.cores[c].pc
    case RLocked | RCount => EnterStepControl(s, c);
    case RTest => TestStepControl(s, c);
    case RClear | RFlush | RUnlock => AdmitStepControl(s, c);
    case QLocked | QCount => DiscountStepControl(s, c);
    case QFlush | QUnlock => QuitStepControl(s, c);
    case WLocked | WCheck | WBusy => WaitStepControl(s, c);
    case WMark | WFlush => MarkStepControl(s, c);
    case XTest | XClear | XFlush => PromoteStepControl(s, c);
    case PTest | PFlush => WriteBackStepControl(s, c);
    case PFlags | PCtrl | PUnlock => PublishStepControl(s, c);
  }

  lemma NextCounts<V>(s: State<V>, a: Action<V>)
    requires ControlInv(s) && Enabled(s, a)
    ensures SameBalance(s, Next(s, a), a.c)
  {
    assert CoreControlOk(s, a.c);
    if a.Advance? {
      ReadStepShape(s, a.c);
      QuitStepShape(s, a.c);
      WaitStepShape(s, a.c);
      PromoteStepShape(s, a.c);
      PublishStepShape(s, a.c);
    }
  }

  /** Only the release of a write sets flags of other cores. */
  lemma NextFlags<V>(s: State<V>, a: Action<V>, d: nat)
    requires Enabled(s, a) && d < |s.cores| && d != a.c
    ensures Flagged(Next(s, a).truth, d) <==>
              Flagged(s.truth, d) || (a.Advance? && s.cores[a.c].pc.PFlags?)
  {
    if a.Advance? {
      AdvanceFlags(s, a.c, d);
    }
  }

  lemma AdvanceFlags<V>(s: State<V>, c: nat, d: nat)
    requires Shaped(s) && c < |s.cores| && d < |s.cores| && d != c
    ensures Flagged(AdvanceCore(s, c).truth, d) <==> Flagged(s.truth, d) || s.cores[c].pc.PFlags?
  {
    match s.cores[c].pc
    case PFlags =>
    case RClear =>
    case XClear =>
    case _ =>
      assert AdvanceCore(s, c).truth.flags == s.truth.flags;
  }

  /** The lock goes to and from the acting core only, and others see the shared fields unchanged
      while they hold it. */
  lemma NextLock<V>(s: State<V>, a: Action<V>)
    requires ControlInv(s) && Enabled(s, a)
    ensures var t := Next(s, a);
            && (t.lock == s.lock || (s.lock.None? && t.lock == Some(a.c)) || (s.lock == Some(a.c) && t.lock.None?))
            && (s.lock.Some? && s.lock != Some(a.c) ==> t.ctrl == s.ctrl && t.truth == s.truth)
  {
    assert CoreControlOk(s, a.c);
  }

  lemma NextCoreControl<V>(s: State<V>, a: Action<V>)
    requires ControlInv(s) && Enabled(s, a)
    ensures var t := Next(s, a);
            && |t.cores| == |s.cores| && CoreControlOk(t, a.c)
            && (t.lock.Some? ==> t.lock.value < |t.cores|)
            && (t.ctrl == t.truth || (t.lock.Some? && Fresh(t.cores[t.lock.value].pc)))
  {
    NextKeepsShape(s, a);
    if a.Advance? {
      AdvanceControl(s, a.c);
    } else if a.EvictControl? {
      EvictStepControl(s, a.c);
    } else if a.Load? || a.Store? || a.Evict? {
      ObjectStepControl(s, a);
    } else if a.AcquireRead? || a.AcquireWrite? {
      AcquireStepControl(s, a);
    } else {
      LockStepControl(s, a);
    }
  }

  lemma NextKeepsControl<V>(s: State<V>, a: Action<V>)
    requires ControlInv(s) && Enabled(s, a)
    ensures ControlInv(Next(s, a))
  {
    var t := Next(s, a);
    NextKeepsShape(s, a);
    NextLock(s, a);
    NextCounts(s, a);
    NextCoreControl(s, a);
    assert t.cores == s.cores[a.c := t.cores[a.c]];
    CountUpdated(s.cores, a.c, t.cores[a.c]);
    forall d | 0 <= d < |t.cores|
      ensures CoreControlOk(t, d)
    {
      if d != a.c {
        NextFlags(s, a, d);
        if s.cores[a.c].pc.PFlags? {
          NoReaderWhenExclusive(s, a.c, d);
          assert CoreControlOk(s, d) && CoreControlOk(s, a.c);
        }
        OtherControlKept(s, t, a.c, d);
      }
    }
  }

  // ---------------------------------------------------------------- object invariant

  /** No write access has stored anything that other cores were not told about. */
  predicate Settled<V>(s: State<V>)
    requires s.lock.Some? ==> s.lock.value < |s.cores|
  {
    s.lock.Some? ==> var pc := s.cores[s.lock.value].pc; !Storing(pc) && !pc.PFlags?
  }

  /** Lines of a running write access, `whole` when the copy was valid from the start. */
  ghost predicate StoringOk<V>(core: Core<V>, obj: seq<V>, value: seq<V>, committed: seq<V>, whole: bool)
    requires |core.obj| == |obj| == |value| == |committed|
  {
    forall i :: 0 <= i < |core.obj| ==>
      && (IsDirty(core.obj[i]) ==> i in core.written)
      && (!IsDirty(core.obj[i]) ==> obj[i] == value[i])
      && (core.obj[i].Present? && (whole || i in core.written) ==> core.obj[i].val == value[i])
      && (i !in core.written ==> value[i] == committed[i])
  }

  ghost predicate Clean<V>(core: Core<V>) {
    forall i :: 0 <= i < |core.obj| ==> !IsDirty(core.obj[i])
  }

  predicate Whole<V>(s: State<V>, c: nat)
    requires c < |s.cores|
  {
    s.cores[c].readWrite || !Flagged(s.truth, c)
  }

  ghost predicate CoreObjectOk<V>(s: State<V>, c: nat)
    requires Shaped(s) && c < |s.cores| && (s.lock.Some? ==> s.lock.value < |s.cores|)
  {
    var core := s.cores[c];
    && (!Storing(core.pc) ==> Clean(core))
    && (Storing(core.pc) ==> StoringOk(core, s.obj, s.value, s.committed, Whole(s, c)))
    && (core.pc.PTest? || core.pc.PFlush? ==> Good(core, s.value))
    && (Waits(core.pc) || core.pc.WSpin? || Promotes(core.pc) ==> core.written == {})
    && ((Settled(s) && (!Flagged(s.truth, c) || core.pc.RClear? || core.pc.XClear?)) || core.pc.PFlags? ==>
          Good(core, s.value))
  }

  ghost predicate MemoryOk<V>(s: State<V>)
    requires s.lock.Some? ==> s.lock.value < |s.cores|
  {
    (s.lock.Some? ==> !Storing(s.cores[s.lock.value].pc)) ==> s.obj == s.value == s.committed
  }

  ghost predicate Inv<V>(s: State<V>) {
    && ControlInv(s)
    && MemoryOk(s)
    && forall c :: 0 <= c < |s.cores| ==> CoreObjectOk(s, c)
  }

  /** What the acting core has to re-establish. */
  ghost predicate ActorObjectOk<V>(t: State<V>, c: nat) {
    Shaped(t) && c < |t.cores| && (t.lock.Some? ==> t.lock.value < |t.cores|) && CoreObjectOk(t, c) && MemoryOk(t)
  }

  lemma EnterStepObject<V>(s: State<V>, c: nat)
    requires Inv(s) && c < |s.cores| && (s.cores[c].pc.RLocked? || s.cores[c].pc.RCount?)
    ensures ActorObjectOk(ReadStep(s, c), c)
  {
    assert CoreControlOk(s, c) && CoreObjectOk(s, c);
    ReadStepShape(s, c);
  }

  lemma TestStepObject<V>(s: State<V>, c: nat)
    requires Inv(s) && c < |s.cores| && s.cores[c].pc.RTest?
    ensures ActorObjectOk(ReadStep(s, c), c)
  {
    assert CoreControlOk(s, c) && CoreObjectOk(s, c);
    ReadStepShape(s, c);
  }

  lemma AdmitStepObject<V>(s: State<V>, c: nat)
    requires Inv(s) && c < |s.cores|
    requires s.cores[c].pc.RClear? || s.cores[c].pc.RFlush? || s.cores[c].pc.RUnlock?
    ensures ActorObjectOk(ReadStep(s, c), c)
  {
    assert CoreControlOk(s, c) && CoreObjectOk(s, c);
    ReadStepShape(s, c);
  }

  lemma DiscountStepObject<V>(s: State<V>, c: nat)
    requires Inv(s) && c < |s.cores| && (s.cores[c].pc.QLocked? || s.cores[c].pc.QCount?)
    ensures ActorObjectOk(QuitStep(s, c), c)
  {
    assert CoreControlOk(s, c) && CoreObjectOk(s, c);
    QuitStepShape(s, c);
  }

  lemma QuitStepObject<V>(s: State<V>, c: nat)
    requires Inv(s) && c < |s.cores| && (s.cores[c].pc.QFlush? || s.cores[c].pc.QUnlock?)
    ensures ActorObjectOk(QuitStep(s, c), c)
  {
    assert CoreControlOk(s, c) && CoreObjectOk(s, c);
    QuitStepShape(s, c);
  }

  lemma WaitStepObject<V>(s: State<V>, c: nat)
    requires Inv(s) && c < |s.cores| && Waits(s.cores[c].pc)
    ensures ActorObjectOk(WaitStep(s, c), c)
  {
    assert CoreControlOk(s, c) && CoreObjectOk(s, c);
    WaitStepShape(s, c);
  }

  lemma PromoteStepObject<V>(s: State<V>, c: nat)
    requires Inv(s) && c < |s.cores| && Promotes(s.cores[c].pc)
    ensures ActorObjectOk(PromoteStep(s, c), c)
  {
    assert CoreControlOk(s, c) && CoreObjectOk(s, c);
    PromoteStepShape(s, c);
  }

  lemma PublishStepObject<V>(s: State<V>, c: nat)
    requires Inv(s) && c < |s.cores|
    requires var pc := s.cores[c].pc; pc.PTest? || pc.PFlags? || pc.PCtrl? || pc.PUnlock?
    ensures ActorObjectOk(PublishStep(s, c), c)
  {
    assert CoreControlOk(s, c) && CoreObjectOk(s, c);
    PublishStepShape(s, c);
  }

  lemma WriteBackStepObject<V>(s: State<V>, c: nat)
    requires Inv(s) && c < |s.cores| && s.cores[c].pc.PFlush?
    ensures ActorObjectOk(PublishStep(s, c), c)
  {
    assert CoreControlOk(s, c) && CoreObjectOk(s, c);
    PublishStepShape(s, c);
    var t := PublishStep(s, c);
    assert t.obj == s.value;
  }

  lemma LockStepObject<V>(s: State<V>, a: Action<V>)
    requires Inv(s) && Enabled(s, a) && Harmless(s, a)
    requires a.AcquireRead? || a.AcquireWrite? || a.Relock? || a.Release?
    ensures ActorObjectOk(Next(s, a), a.c)
  {
    assert CoreControlOk(s, a.c) && CoreObjectOk(s, a.c);
    NextKeepsShape(s, a);
  }

  lemma LoadStepObject<V>(s: State<V>, a: Action<V>)
    requires Inv(s) && Enabled(s, a) && a.Load?
    ensures ActorObjectOk(Next(s, a), a.c)
  {
    assert CoreControlOk(s, a.c) && CoreObjectOk(s, a.c);
    NextKeepsShape(s, a);
  }

  lemma StoreStepObject<V>(s: State<V>, a: Action<V>)
    requires Inv(s) && Enabled(s, a) && a.Store?
    ensures ActorObjectOk(Next(s, a), a.c)
  {
    assert CoreControlOk(s, a.c) && CoreObjectOk(s, a.c);
    NextKeepsShape(s, a);
  }

  lemma EvictStepObject<V>(s: State<V>, a: Action<V>)
    requires Inv(s) && Enabled(s, a) && a.Evict?
    ensures ActorObjectOk(Next(s, a), a.c)
  {
    assert CoreControlOk(s, a.c) && CoreObjectOk(s, a.c);
    NextKeepsShape(s, a);
  }

  lemma EvictControlObject<V>(s: State<V>, a: Action<V>)
    requires Inv(s) && Enabled(s, a) && a.EvictControl?
    ensures ActorObjectOk(Next(s, a), a.c)
  {
    assert CoreControlOk(s, a.c) && CoreObjectOk(s, a.c);
    NextKeepsShape(s, a);
  }

  // ---------------------------------------------------------------- every step keeps the invariant

  /** A core without the spinlock changes no shared field. */
  lemma BystanderChangesNothing<V>(s: State<V>, a: Action<V>)
    requires Inv(s) && Enabled(s, a) && s.lock.Some? && s.lock != Some(a.c)
    ensures var t := Next(s, a);
            && t.lock == s.lock && t.obj == s.obj && t.truth == s.truth
            && t.value == s.value && t.committed == s.committed
  {
    assert CoreControlOk(s, a.c) && CoreObjectOk(s, a.c);
    assert a.EvictControl? || a.Load? || a.Evict?;
  }

  /** When a step of the lock holder ends the unsettled phase, it flags all other cores; when it
      stores, the phase has begun. */
  lemma HolderSettles<V>(s: State<V>, a: Action<V>)
    requires Inv(s) && Enabled(s, a) && (s.lock.None? || s.lock == Some(a.c))
    ensures var t := Next(s, a);
            && (t.lock.Some? ==> t.lock.value < |t.cores|)
            && (Settled(t) ==> t.value == s.value)
            && (Settled(t) && !Settled(s) ==> a.Advance? && s.cores[a.c].pc.PFlags?)
  {
    assert CoreControlOk(s, a.c);
    NextKeepsShape(s, a);
    NextLock(s, a);
  }

  lemma OtherObjectKept<V>(s: State<V>, a: Action<V>, t: State<V>, d: nat)
    requires Inv(s) && Enabled(s, a) && d < |s.cores| && d != a.c
    requires t == Next(s, a) && SameShape(s, t, a.c) && ControlInv(t)
    ensures CoreObjectOk(t, d)
  {
    assert CoreControlOk(s, d) && CoreObjectOk(s, d);
    if s.lock.Some? && s.lock != Some(a.c) {
      BystanderChangesNothing(s, a);
      if s.lock.value != d {
        assert t.cores[s.lock.value] == s.cores[s.lock.value];
      } else {
        assert t.cores[d] == s.cores[d];
      }
    } else {
      HolderSettles(s, a);
      NextFlags(s, a, d);
    }
  }

  lemma ActorObject<V>(s: State<V>, a: Action<V>)
    requires Inv(s) && Enabled(s, a) && Harmless(s, a)
    ensures ActorObjectOk(Next(s, a), a.c)
  {
    if !a.Advance? {
      if a.Load? {
        LoadStepObject(s, a);
      } else if a.Store? {
        StoreStepObject(s, a);
      } else if a.Evict? {
        EvictStepObject(s, a);
      } else if a.EvictControl? {
        EvictControlObject(s, a);
      } else {
        LockStepObject(s, a);
      }
    } else {
      match s.cores[a.c].pc
      case RLocked | RCount => EnterStepObject(s, a.c);
      case RTest => TestStepObject(s, a.c);
      case RClear | RFlush | RUnlock => AdmitStepObject(s, a.c);
      case QLocked | QCount => DiscountStepObject(s, a.c);
      case QFlush | QUnlock => QuitStepObject(s, a.c);
      case WLocked | WCheck | WBusy | WMark | WFlush => WaitStepObject(s, a.c);
      case XTest | XClear | XFlush => PromoteStepObject(s, a.c);
      case PFlush => WriteBackStepObject(s, a.c);
      case PTest | PFlags | PCtrl | PUnlock => PublishStepObject(s, a.c);
    }
  }

  lemma NextKeepsInv<V>(s: State<V>, a: Action<V>)
    requires Inv(s) && Enabled(s, a) && Harmless(s, a)
    ensures Inv(Next(s, a))
  {
    var t := Next(s, a);
    NextKeepsControl(s, a);
    NextKeepsShape(s, a);
    ActorObject(s, a);
    forall d | 0 <= d < |t.cores|
      ensures CoreObjectOk(t, d)
    {
      if d != a.c {
        OtherObjectKept(s, a, t, d);
      }
    }
  }

  /** The discipline callers can follow is enough. */
  lemma DisciplinedIsHarmless<V>(s: State<V>, a: Action<V>)
    requires Inv(s) && Enabled(s, a) && Disciplined(s, a)
    ensures Harmless(s, a)
  {
    assert CoreControlOk(s, a.c) && CoreObjectOk(s, a.c);
  }

  lemma {:induction false} NoReadersAtStart<V>(cores: seq<Core<V>>)
    requires forall c :: 0 <= c < |cores| ==> cores[c].pc.Idle?
    ensures CountReaders(cores) == 0
  {
    if cores != [] {
      NoReadersAtStart(cores[..|cores| - 1]);
    }
  }

  lemma InitialInv<V>(s: State<V>, maker: nat)
    requires Initial(s, maker)
    ensures Inv(s)
  {
    NoReadersAtStart(s.cores);
  }

  lemma {:induction false} RunKeepsInv<V>(states: seq<State<V>>, actions: seq<Action<V>>, maker: nat, k: nat)
    requires IsRun(states, actions) && Initial(states[0], maker) && k < |states|
    ensures Inv(states[k])
  {
    if k == 0 {
      InitialInv(states[0], maker);
    } else {
      RunKeepsInv(states, actions, maker, k - 1);
      NextKeepsInv(states[k - 1], actions[k - 1]);
      assert IsStep(states[k - 1], actions[k - 1], states[k - 1 + 1]);
    }
  }

  lemma {:induction false} DisciplinedKeepsInv<V>(
      states: seq<State<V>>, actions: seq<Action<V>>, maker: nat, k: nat)
    requires IsTrace(states, actions) && Initial(states[0], maker) && k < |states|
    requires forall j :: 0 <= j < |actions| ==> Enabled(states[j], actions[j]) && Disciplined(states[j], actions[j])
    ensures Inv(states[k])
  {
    if k == 0 {
      InitialInv(states[0], maker);
    } else {
      DisciplinedKeepsInv(states, actions, maker, k - 1);
      DisciplinedIsHarmless(states[k - 1], actions[k - 1]);
      NextKeepsInv(states[k - 1], actions[k - 1]);
      assert IsStep(states[k - 1], actions[k - 1], states[k - 1 + 1]);
    }
  }

  /** A trace in which every caller follows the discipline is a run. */
  lemma DisciplinedTracesAreRuns<V>(states: seq<State<V>>, actions: seq<Action<V>>, maker: nat)
    requires IsTrace(states, actions) && Initial(states[0], maker)
    requires forall j :: 0 <= j < |actions| ==> Enabled(states[j], actions[j]) && Disciplined(states[j], actions[j])
    ensures IsRun(states, actions)
  {
    forall k | 0 <= k < |actions|
      ensures Harmless(states[k], actions[k])
    {
      DisciplinedKeepsInv(states, actions, maker, k);
      DisciplinedIsHarmless(states[k], actions[k]);
    }
  }

  // ---------------------------------------------------------------- main results

  /** The protocol itself needs no discipline: its invariant holds along every trace. */
  lemma {:induction false} TraceKeepsControl<V>(
      states: seq<State<V>>, actions: seq<Action<V>>, maker: nat, k: nat)
    requires IsTrace(states, actions) && Initial(states[0], maker) && k < |states|
    ensures ControlInv(states[k])
  {
    if k == 0 {
      InitialInv(states[0], maker);
    } else {
      TraceKeepsControl(states, actions, maker, k - 1);
      assert IsStep(states[k - 1], actions[k - 1], states[k - 1 + 1]);
      NextKeepsControl(states[k - 1], actions[k - 1]);
    }
  }

  /** In every reachable state, whatever the callers stored, a core inside a write access excludes
      every reader and every other writer. */
  lemma WritersExclude<V>(states: seq<State<V>>, actions: seq<Action<V>>, maker: nat, k: nat, c: nat, d: nat)
    requires IsTrace(states, actions) && Initial(states[0], maker) && k < |states|
    requires c < |states[k].cores| && d < |states[k].cores| && c != d
    requires states[k].cores[c].pc.Writing?
    ensures !states[k].cores[d].pc.Reading? && !Exclusive(states[k].cores[d].pc)
  {
    TraceKeepsControl(states, actions, maker, k);
    NoReaderWhenExclusive(states[k], c, d);
    assert CoreControlOk(states[k], c) && CoreControlOk(states[k], d);
  }

  ghost function Readers<V>(cores: seq<Core<V>>): set<int> {
    set c | 0 <= c < |cores| && cores[c].pc.Reading?
  }

  lemma {:induction false} CountIsCardinality<V>(cores: seq<Core<V>>)
    requires forall c :: 0 <= c < |cores| ==> (Counted(cores[c].pc) <==> cores[c].pc.Reading?)
    ensures CountReaders(cores) == |Readers(cores)|
  {
    if cores != [] {
      var last := |cores| - 1;
      CountIsCardinality(cores[..last]);
      ReadersUpTo(cores, last);
    }
  }

  lemma ReadersUpTo<V>(cores: seq<Core<V>>, last: nat)
    requires |cores| == last + 1
    ensures |Readers(cores)| == |Readers(cores[..last])| + if cores[last].pc.Reading? then 1 else 0
  {
    if cores[last].pc.Reading? {
      assert Readers(cores) == Readers(cores[..last]) + {last};
    } else {
      assert Readers(cores) == Readers(cores[..last]);
    }
  }

  /** Whenever the spinlock is free, reader_cnt in memory is the number of live read accesses. */
  lemma MemoryCountsReaders<V>(states: seq<State<V>>, actions: seq<Action<V>>, maker: nat, k: nat)
    requires IsTrace(states, actions) && Initial(states[0], maker) && k < |states|
    requires states[k].lock.None?
    ensures states[k].ctrl.readers == |Readers(states[k].cores)|
  {
    var s := states[k];
    TraceKeepsControl(states, actions, maker, k);
    forall c | 0 <= c < |s.cores|
      ensures Counted(s.cores[c].pc) <==> s.cores[c].pc.Reading?
    {
      assert CoreControlOk(s, c);
    }
    CountIsCardinality(s.cores);
  }

  /** A load by a reader returns the line as the last dirty release wrote it back. A load by a
      read-write holder returns that too, or what the holder itself stored last. */
  lemma LoadsAreCurrent<V>(states: seq<State<V>>, actions: seq<Action<V>>, maker: nat, k: nat, c: nat, i: nat)
    requires IsRun(states, actions) && Initial(states[0], maker) && k < |actions|
    requires actions[k] == Load(c, i)
    ensures var s := states[k];
            var loaded := Seen(s.obj[i], s.cores[c].obj[i]);
            && (s.cores[c].pc.Reading? ==> loaded == s.committed[i])
            && (s.cores[c].pc.Writing? && (s.cores[c].readWrite || i in s.cores[c].written) ==>
                  && loaded == s.value[i]
                  && (i !in s.cores[c].written ==> loaded == s.committed[i]))
  {
    var s := states[k];
    RunKeepsInv(states, actions, maker, k);
    assert CoreControlOk(s, c) && CoreObjectOk(s, c);
    if s.cores[c].pc.Reading? && s.lock.Some? {
      var h := s.lock.value;
      assert CoreControlOk(s, h);
      if Exclusive(s.cores[h].pc) {
        NoReaderWhenExclusive(s, h, c);
      }
    }
  }

  /** What a dirty release writes back is what its holder left, line by line: its own stores, and
      the previous contents elsewhere. */
  lemma ReleasePublishesStores<V>(states: seq<State<V>>, actions: seq<Action<V>>, maker: nat, k: nat)
    requires IsRun(states, actions) && Initial(states[0], maker) && k < |actions|
    requires actions[k].Advance? && states[k].cores[actions[k].c].pc.PFlush?
    ensures states[k + 1].committed == states[k + 1].obj == states[k].value
    ensures forall i: nat :: i < |states[k].value| && i !in states[k].cores[actions[k].c].written ==>
              states[k].value[i] == states[k].committed[i]
  {
    var s, c := states[k], actions[k].c;
    RunKeepsInv(states, actions, maker, k);
    RunKeepsInv(states, actions, maker, k + 1);
    assert CoreControlOk(s, c) && CoreObjectOk(s, c);
    WriteBackStepObject(s, c);
  }
}
