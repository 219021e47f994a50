/**
 Why a write access that did not refresh its copy has to overwrite the whole object: a run of two
 cores on an object of one line in which core 1, whose copy is outdated, acquires for writing,
 stores nothing, releases, acquires for reading, and then loads the outdated value.
 */
module SharedWitness {
  import opened Words
  import opened Coherence
  import opened SharedModel

  /** Core 0 made the object and sleeps; core 1 caches the outdated value throughout. */
  function Scene<V>(stale: V, current: V, lock: Option<nat>, memory: Control, line: Line<Control>, pc: Pc,
                    truth: Control)
    : State<V>
  {
    State(lock, memory, [current],
          [Core(Idle, Absent, [Absent], false, {}), Core(pc, line, [Present(stale, false)], false, {})],
          truth, [current], [current])
  }

  function At<V>(stale: V, current: V, k: nat): State<V>
  {
    var begun := Control(0, OthersMask(2, 0), false);
    var marked := Control(0, OthersMask(2, 0), true);
    var told := Control(0, OthersMask(2, 1), true);
    var read := Control(1, OthersMask(2, 1), true);
    match k
    case 0 => Scene(stale, current, None, begun, Absent, Idle, begun)
    case 1 => Scene(stale, current, Some(1), begun, Absent, WLocked, begun)
    case 2 => Scene(stale, current, Some(1), begun, Absent, WCheck, begun)
    case 3 => Scene(stale, current, Some(1), begun, Present(begun, false), WMark, begun)
    case 4 => Scene(stale, current, Some(1), begun, Present(marked, true), WFlush, marked)
    case 5 => Scene(stale, current, Some(1), marked, Present(marked, false), Writing, marked)
    case 6 => Scene(stale, current, Some(1), marked, Present(marked, false), PTest, marked)
    case 7 => Scene(stale, current, Some(1), marked, Present(marked, false), PFlush, marked)
    case 8 => Scene(stale, current, Some(1), marked, Present(marked, false), PFlags, marked)
    case 9 => Scene(stale, current, Some(1), marked, Present(told, true), PCtrl, told)
    case 10 => Scene(stale, current, Some(1), told, Present(told, false), PUnlock, told)
    case 11 => Scene(stale, current, None, told, Present(told, false), Idle, told)
    case 12 => Scene(stale, current, Some(1), told, Present(told, false), RLocked, told)
    case 13 => Scene(stale, current, Some(1), told, Absent, RCount, told)
    case 14 => Scene(stale, current, Some(1), told, Present(read, true), RTest, read)
    case 15 => Scene(stale, current, Some(1), told, Present(read, true), RFlush, read)
    case 16 => Scene(stale, current, Some(1), read, Present(read, false), RUnlock, read)
    case _ => Scene(stale, current, None, read, Present(read, false), Reading, read)
  }

  function Act<V>(k: nat): Action<V> {
    match k
    case 0 => AcquireWrite(1, false)
    case 5 => Release(1)
    case 11 => AcquireRead(1)
    case _ => Advance(1)
  }

  ghost predicate StepOk<V>(stale: V, current: V, k: nat) {
    Enabled(At(stale, current, k), Act(k)) && Next(At(stale, current, k), Act(k)) == At(stale, current, k + 1)
  }

  lemma AcquireSteps<V>(stale: V, current: V, k: nat)
    requires k < 3
    ensures StepOk(stale, current, k)
  {
  }

  lemma EnterSteps<V>(stale: V, current: V, k: nat)
    requires 3 <= k < 6
    ensures StepOk(stale, current, k)
  {
  }

  lemma PublishSteps<V>(stale: V, current: V, k: nat)
    requires 6 <= k < 9
    ensures StepOk(stale, current, k)
  {
    var line := Present(stale, false);
    assert FlushRegion([current], [line]) == [current] && CleanRegion([line]) == [line];
  }

  lemma LeaveSteps<V>(stale: V, current: V, k: nat)
    requires 9 <= k < 12
    ensures StepOk(stale, current, k)
  {
  }

  lemma ReadSteps<V>(stale: V, current: V, k: nat)
    requires 12 <= k < 17
    ensures StepOk(stale, current, k)
  {
  }

  /** Every step of the run is a step of the protocol; only the release at step 5 breaks the
      discipline; and the read access it ends in loads the outdated value. */
  lemma PartialWriteLeavesStaleCopy<V>(stale: V, current: V)
    requires stale != current
    ensures Initial(At(stale, current, 0), 0)
    ensures forall k: nat :: k < 17 ==> StepOk(stale, current, k)
    ensures forall k: nat {:trigger StepOk(stale, current, k)} :: k < 17 && k != 5 ==>
              StepOk(stale, current, k) && Disciplined(At(stale, current, k), Act(k))
    ensures var last := At(stale, current, 17);
            && Enabled(last, Load(1, 0)) && last.cores[1].pc.Reading?
            && Seen(last.obj[0], last.cores[1].obj[0]) == stale != last.committed[0]
  {
    forall k: nat | k < 17
      ensures StepOk(stale, current, k)
    {
      if k < 3 {
        AcquireSteps(stale, current, k);
      } else if k < 6 {
        EnterSteps(stale, current, k);
      } else if k < 9 {
        PublishSteps(stale, current, k);
      } else if k < 12 {
        LeaveSteps(stale, current, k);
      } else {
        ReadSteps(stale, current, k);
      }
    }
  }
}
