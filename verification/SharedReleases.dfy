/**
 Exactly when the end of a write access of `Shared` does harm: the releasing core itself, if it reads
 next, with no step of another core and no eviction in between, sees an outdated line if and only if it
 cached one when it released. And what a caller can check to rule that out cannot be weakened.
 */
module SharedReleases {
  import opened Words
  import opened Coherence
  import opened SharedModel
  import opened SharedProofs

  const REREAD: nat := 12

  /** The steps of a core that releases its write access and acquires for reading. */
  function Reread<V>(c: nat, k: nat): Action<V> {
    if k == 0 then Release(c) else if k == 6 then AcquireRead(c) else Advance(c)
  }

  /** The point the core has reached after k of them. */
  function Point(k: nat): Pc {
    match k
    case 0 => Writing
    case 1 => PTest
    case 2 => PFlush
    case 3 => PFlags
    case 4 => PCtrl
    case 5 => PUnlock
    case 6 => Idle
    case 7 => RLocked
    case 8 => RCount
    case 9 => RTest
    case 10 => RFlush
    case 11 => RUnlock
    case _ => Reading
  }

  /** The states the first k of them go through. */
  ghost predicate Rereads<V>(states: seq<State<V>>, c: nat, k: nat) {
    && |states| == k + 1
    && forall j :: 0 <= j < k ==> IsStep(states[j], Reread(c, j), states[j + 1])
  }

  /** What is known of the state t after k steps from s. */
  ghost predicate OnTheWay<V>(s: State<V>, t: State<V>, c: nat, k: nat)
    requires Shaped(s) && c < |s.cores|
  {
    && ControlInv(t) && c < |t.cores|
    && t.cores[c].pc == Point(k)
    && t.lock == (if k == 6 || k == REREAD then None else Some(c))
    && (k <= 2 ==> t.cores[c].obj == s.cores[c].obj && t.obj == s.obj)
    && (k >= 3 ==>
          && t.cores[c].obj == CleanRegion(s.cores[c].obj)
          && t.obj == t.committed == FlushRegion(s.obj, s.cores[c].obj))
    && (k >= 4 ==> !Flagged(t.truth, c))
  }

  lemma PublishOnTheWay<V>(s: State<V>, t: State<V>, c: nat, k: nat)
    requires Shaped(s) && c < |s.cores| && OnTheWay(s, t, c, k) && k < 3
    ensures Enabled(t, Reread(c, k)) && OnTheWay(s, Next(t, Reread(c, k)), c, k + 1)
  {
    assert CoreControlOk(t, c);
    NextKeepsControl(t, Reread(c, k));
  }

  lemma FlagOnTheWay<V>(s: State<V>, t: State<V>, c: nat, k: nat)
    requires Shaped(s) && c < |s.cores| && OnTheWay(s, t, c, k) && 3 <= k < 5
    ensures Enabled(t, Reread(c, k)) && OnTheWay(s, Next(t, Reread(c, k)), c, k + 1)
  {
    assert CoreControlOk(t, c);
    NextKeepsControl(t, Reread(c, k));
  }

  lemma LeaveOnTheWay<V>(s: State<V>, t: State<V>, c: nat, k: nat)
    requires Shaped(s) && c < |s.cores| && OnTheWay(s, t, c, k) && 5 <= k < 7
    ensures Enabled(t, Reread(c, k)) && OnTheWay(s, Next(t, Reread(c, k)), c, k + 1)
  {
    assert CoreControlOk(t, c);
    NextKeepsControl(t, Reread(c, k));
  }

  lemma EnterOnTheWay<V>(s: State<V>, t: State<V>, c: nat, k: nat)
    requires Shaped(s) && c < |s.cores| && OnTheWay(s, t, c, k) && 7 <= k < 8
    ensures Enabled(t, Reread(c, k)) && OnTheWay(s, Next(t, Reread(c, k)), c, k + 1)
  {
    assert CoreControlOk(t, c);
    NextKeepsControl(t, Reread(c, k));
  }

  lemma CountOnTheWay<V>(s: State<V>, t: State<V>, c: nat, k: nat)
    requires Shaped(s) && c < |s.cores| && OnTheWay(s, t, c, k) && 8 <= k < 9
    ensures Enabled(t, Reread(c, k)) && OnTheWay(s, Next(t, Reread(c, k)), c, k + 1)
  {
    assert CoreControlOk(t, c);
    NextKeepsControl(t, Reread(c, k));
  }

  lemma TestOnTheWay<V>(s: State<V>, t: State<V>, c: nat, k: nat)
    requires Shaped(s) && c < |s.cores| && OnTheWay(s, t, c, k) && 9 <= k < 10
    ensures Enabled(t, Reread(c, k)) && OnTheWay(s, Next(t, Reread(c, k)), c, k + 1)
  {
    assert CoreControlOk(t, c);
    NextKeepsControl(t, Reread(c, k));
  }

  lemma ReadOnTheWay<V>(s: State<V>, t: State<V>, c: nat, k: nat)
    requires Shaped(s) && c < |s.cores| && OnTheWay(s, t, c, k) && 10 <= k < REREAD
    ensures Enabled(t, Reread(c, k)) && OnTheWay(s, Next(t, Reread(c, k)), c, k + 1)
  {
    assert CoreControlOk(t, c);
    NextKeepsControl(t, Reread(c, k));
  }

  lemma StepOnTheWay<V>(s: State<V>, t: State<V>, c: nat, k: nat)
    requires Shaped(s) && c < |s.cores| && OnTheWay(s, t, c, k) && k < REREAD
    ensures Enabled(t, Reread(c, k)) && OnTheWay(s, Next(t, Reread(c, k)), c, k + 1)
  {
    if k < 3 {
      PublishOnTheWay(s, t, c, k);
    } else if k < 5 {
      FlagOnTheWay(s, t, c, k);
    } else if k < 7 {
      LeaveOnTheWay(s, t, c, k);
    } else if k < 8 {
      EnterOnTheWay(s, t, c, k);
    } else if k < 9 {
      CountOnTheWay(s, t, c, k);
    } else if k < 10 {
      TestOnTheWay(s, t, c, k);
    } else {
      ReadOnTheWay(s, t, c, k);
    }
  }

  lemma {:induction false} Reaches<V>(states: seq<State<V>>, c: nat, k: nat, j: nat)
    requires Rereads(states, c, k) && k <= REREAD && j <= k
    requires Inv(states[0]) && c < |states[0].cores| && states[0].cores[c].pc.Writing?
    ensures OnTheWay(states[0], states[j], c, j)
  {
    if j == 0 {
      assert CoreControlOk(states[0], c);
    } else {
      Reaches(states, c, k, j - 1);
      StepOnTheWay(states[0], states[j - 1], c, j - 1);
      assert IsStep(states[j - 1], Reread(c, j - 1), states[j - 1 + 1]);
    }
  }

  /** A core inside a write access can take all these steps. */
  lemma {:induction false} CanReread<V>(s: State<V>, c: nat, k: nat) returns (states: seq<State<V>>)
    requires Inv(s) && c < |s.cores| && s.cores[c].pc.Writing? && k <= REREAD
    ensures Rereads(states, c, k) && states[0] == s
  {
    if k == 0 {
      states := [s];
    } else {
      states := CanReread(s, c, k - 1);
      Reaches(states, c, k - 1, k - 1);
      StepOnTheWay(s, states[k - 1], c, k - 1);
      states := states + [Next(states[k - 1], Reread(c, k - 1))];
    }
  }

  /** What the core sees of a line in the end. */
  lemma LineInTheEnd<V>(s: State<V>, t: State<V>, c: nat, i: nat)
    requires Inv(s) && c < |s.cores| && s.cores[c].pc.Writing? && i < |s.obj|
    requires OnTheWay(s, t, c, REREAD)
    ensures |t.obj| == |t.committed| == |t.cores[c].obj| == |s.obj| && t.committed[i] == s.value[i]
    ensures Seen(t.obj[i], t.cores[c].obj[i]) == t.committed[i]
       <==> (s.cores[c].obj[i].Present? ==> s.cores[c].obj[i].val == s.value[i])
  {
    assert CoreControlOk(s, c) && CoreObjectOk(s, c);
  }

  lemma InTheEnd<V>(s: State<V>, t: State<V>, c: nat)
    requires Inv(s) && c < |s.cores| && s.cores[c].pc.Writing? && OnTheWay(s, t, c, REREAD)
    ensures |t.obj| == |t.cores[c].obj| == |t.committed| && t.committed == s.value
    ensures Good(s.cores[c], s.value) <==>
              forall i :: 0 <= i < |t.obj| ==> Seen(t.obj[i], t.cores[c].obj[i]) == t.committed[i]
  {
    forall i | 0 <= i < |s.obj|
      ensures t.committed[i] == s.value[i]
      ensures Seen(t.obj[i], t.cores[c].obj[i]) == t.committed[i]
         <==> (s.cores[c].obj[i].Present? ==> s.cores[c].obj[i].val == s.value[i])
    {
      LineInTheEnd(s, t, c, i);
    }
  }

  /** When a core inside a write access releases it and acquires for reading, which it can, without a
      step of another core or an eviction in between, loads of all lines then return what the release
      wrote back if and only if the core cached no outdated line when it released. */
  lemma RereadIsCurrentIff<V>(states: seq<State<V>>, c: nat)
    requires Rereads(states, c, REREAD)
    requires Inv(states[0]) && c < |states[0].cores| && states[0].cores[c].pc.Writing?
    ensures var s, t := states[0], states[REREAD];
            && c < |t.cores| && |t.obj| == |t.cores[c].obj| == |t.committed|
            && t.cores[c].pc.Reading? && t.committed == s.value
            && (Good(s.cores[c], s.value) <==>
                  forall i :: 0 <= i < |t.obj| ==> Seen(t.obj[i], t.cores[c].obj[i]) == t.committed[i])
  {
    Reaches(states, c, REREAD, REREAD);
    InTheEnd(states[0], states[REREAD], c);
  }

  /** The lines in question are those the access did not store to. */
  lemma OutdatedLinesAreUnwritten<V>(s: State<V>, c: nat)
    requires Inv(s) && c < |s.cores| && s.cores[c].pc.Writing?
    ensures Good(s.cores[c], s.value) <==>
              forall i: nat :: i < |s.obj| && i !in s.cores[c].written && s.cores[c].obj[i].Present? ==>
                s.cores[c].obj[i].val == s.value[i]
  {
    assert CoreControlOk(s, c) && CoreObjectOk(s, c);
  }

  /** And the release keeps the invariant, on which all other readers rely, in exactly these cases. */
  lemma ReleaseKeepsInvIff<V>(s: State<V>, c: nat)
    requires Inv(s) && c < |s.cores| && s.cores[c].pc.Writing?
    ensures Enabled(s, Release(c))
    ensures Inv(Next(s, Release(c))) <==> Good(s.cores[c], s.value)
  {
    assert CoreControlOk(s, c);
    if Good(s.cores[c], s.value) {
      NextKeepsInv(s, Release(c));
    } else {
      assert Inv(Next(s, Release(c))) ==> CoreObjectOk(Next(s, Release(c)), c);
    }
  }

  // ---------------------------------------------------------------- what a caller can check

  /** The same state with other lines of the object in the cache of one core, which no caller sees. */
  function Caching<V>(s: State<V>, c: nat, lines: seq<Line<V>>): State<V>
    requires c < |s.cores|
  {
    SetCore(s, c, s.cores[c].(obj := lines))
  }

  function WithLine<V>(s: State<V>, c: nat, i: nat, stale: V): seq<Line<V>>
    requires c < |s.cores| && i < |s.cores[c].obj|
  {
    s.cores[c].obj[i := Present(stale, false)]
  }

  /** The core did nothing that rules an old value of the line out: its flag is set, but it did not
      refresh its copy, and it did not store to the line. */
  ghost predicate Unchecked<V>(s: State<V>, c: nat, i: nat)
    requires c < |s.cores|
  {
    i < |s.obj| && !s.cores[c].readWrite && Flagged(s.truth, c) && i !in s.cores[c].written
  }

  lemma CachingControl<V>(s: State<V>, c: nat, lines: seq<Line<V>>)
    requires ControlInv(s) && c < |s.cores| && |lines| == |s.obj|
    ensures ControlInv(Caching(s, c, lines))
  {
    var t := Caching(s, c, lines);
    CountUpdated(s.cores, c, t.cores[c]);
    forall d | 0 <= d < |t.cores|
      ensures CoreControlOk(t, d)
    {
      assert CoreControlOk(s, d);
    }
  }

  lemma OutdatedLineOk<V>(s: State<V>, c: nat, i: nat, stale: V)
    requires Inv(s) && c < |s.cores| && s.cores[c].pc.Writing? && Unchecked(s, c, i)
    ensures CoreObjectOk(Caching(s, c, WithLine(s, c, i, stale)), c)
  {
    assert CoreControlOk(s, c) && CoreObjectOk(s, c);
  }

  /** Wherever a line is unchecked, an old value in the cache satisfies the invariant. */
  lemma OldValueIsPossible<V>(s: State<V>, c: nat, i: nat, stale: V)
    requires Inv(s) && c < |s.cores| && s.cores[c].pc.Writing? && Unchecked(s, c, i) && stale != s.value[i]
    ensures var t := Caching(s, c, WithLine(s, c, i, stale));
            Inv(t) && !Good(t.cores[c], t.value) && Enabled(t, Release(c)) && !Inv(Next(t, Release(c)))
  {
    var t := Caching(s, c, WithLine(s, c, i, stale));
    CachingControl(s, c, WithLine(s, c, i, stale));
    OutdatedLineOk(s, c, i, stale);
    assert CoreControlOk(s, c);
    forall d | 0 <= d < |t.cores| && d != c
      ensures CoreObjectOk(t, d)
    {
      assert CoreObjectOk(s, d);
    }
    assert t.cores[c].obj[i].Present?;
    ReleaseKeepsInvIff(t, c);
  }

  /** The discipline is what a caller needs, no less: it holds if and only if the release is harmless
      whatever the cache of the core contains within the invariant. */
  lemma DisciplineIsExact<V>(s: State<V>, c: nat, stale: V)
    requires Inv(s) && c < |s.cores| && s.cores[c].pc.Writing?
    requires forall i :: 0 <= i < |s.value| ==> stale != s.value[i]
    ensures Enabled(s, Release(c))
    ensures Disciplined(s, Release(c))
       <==> forall lines: seq<Line<V>> {:trigger Caching(s, c, lines)} ::
              Inv(Caching(s, c, lines)) ==> Good(Caching(s, c, lines).cores[c], s.value)
  {
    assert CoreControlOk(s, c);
    if Disciplined(s, Release(c)) {
      forall lines: seq<Line<V>> {:trigger Caching(s, c, lines)} | Inv(Caching(s, c, lines))
        ensures Good(Caching(s, c, lines).cores[c], s.value)
      {
        DisciplinedIsHarmless(Caching(s, c, lines), Release(c));
      }
    } else {
      var i: nat :| i < |s.obj| && i !in s.cores[c].written;
      OldValueIsPossible(s, c, i, stale);
    }
  }
}
