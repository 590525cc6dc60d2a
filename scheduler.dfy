/** What the playback scheduler promises, stated about the pure `Step` that
    `PlaybackEngine.Tick` is proved to follow. */
module Scheduler {
  import opened Wrappers
  import opened Manifest
  import opened Flattener
  import opened Ghosts
  import opened Playback

  function Min(a: int, b: int): int
  {
    if a <= b then a else b
  }

  /** How many actions a drain applies. */
  function Drained(e: Engine, now: int): int
  {
    |e.actionQueue| - |DrainLoop(e, now).actionQueue|
  }

  /** The drain loop takes a prefix of the queue, applies exactly those actions
      in order, pays one character's time per action and changes nothing
      else. */
  lemma {:induction false} DrainLoopFrame(e: Engine, now: int)
    ensures 0 <= Drained(e, now) <= |e.actionQueue|
    ensures DrainLoop(e, now).actionQueue == e.actionQueue[Drained(e, now)..]
    ensures DrainLoop(e, now).timeAccumulator == e.timeAccumulator - Drained(e, now) * e.charDuration
    ensures DrainLoop(e, now).AsView() == ApplyAll(e.AsView(), e.actionQueue[..Drained(e, now)], now)
    ensures var r := DrainLoop(e, now);
      r == e.(text := r.text, pendingDeletions := r.pendingDeletions,
              actionQueue := r.actionQueue, timeAccumulator := r.timeAccumulator)
    decreases |e.actionQueue|
  {
    var q := e.actionQueue;
    if q != [] && e.timeAccumulator >= e.charDuration {
      var e' := DrainStep(e, now);
      var r := DrainLoop(e', now);
      assert DrainLoop(e, now) == r;
      DrainLoopFrame(e', now);
      var n := Drained(e, now);
      assert Drained(e', now) == n - 1;
      assert q[1..][n - 1..] == q[n..];
      assert q[..n][1..] == q[1..][..n - 1];
      assert q[..n][0] == q[0];
      assert e'.AsView() == ApplyAction(e.AsView(), q[0], now);
      Repay(e.timeAccumulator, e.charDuration, n);
    } else {
      assert q[..0] == [];
    }
  }

  /** One payment and then n - 1 more is n payments. */
  lemma Repay(acc: int, d: int, n: int)
    ensures (acc - d) - (n - 1) * d == acc - n * d
  {
  }

  /** With a positive character duration, a drain applies no action when less
      than one character's time has accumulated, never spends more time than
      has accumulated, and stops only when the queue is empty or less than one
      character's time is left: so it applies min(queue length, accumulated
      time / character duration) actions. */
  lemma {:induction false} DrainLoopCount(e: Engine, now: int)
    requires e.charDuration > 0
    ensures e.timeAccumulator < e.charDuration ==> Drained(e, now) == 0
    ensures Drained(e, now) > 0 ==> DrainLoop(e, now).timeAccumulator >= 0
    ensures DrainLoop(e, now).actionQueue == [] || DrainLoop(e, now).timeAccumulator < e.charDuration
    decreases |e.actionQueue|
  {
    if e.actionQueue != [] && e.timeAccumulator >= e.charDuration {
      var e' := DrainStep(e, now);
      DrainLoopCount(e', now);
      assert DrainLoop(e, now) == DrainLoop(e', now);
      if !(e'.actionQueue != [] && e'.timeAccumulator >= e'.charDuration) {
        assert DrainLoop(e', now) == e';
      } else {
        assert |DrainLoop(e', now).actionQueue| <= |DrainStep(e', now).actionQueue| < |e'.actionQueue| by {
          DrainLoopFrame(DrainStep(e', now), now);
        }
      }
    }
  }

  /** A multiple of a positive `d` below `d` has a factor below 1. */
  lemma FactorBelow(k: int, d: int)
    requires d > 0
    ensures k * d < d ==> k < 1
  {
    if k >= 1 {
      assert k * d == d + (k - 1) * d;
    }
  }

  /** The arithmetic of the drain's exit: `n` payments of `d` out of `acc`,
      stopping when `len` items are done or less than `d` is left, make
      min(len, acc / d) payments. */
  lemma PaymentCount(n: int, len: int, acc: int, d: int)
    requires d > 0 && 0 <= n <= len
    requires acc < d ==> n == 0
    requires n > 0 ==> acc - n * d >= 0
    requires len > 0 && acc >= d ==> n > 0
    requires n == len || acc - n * d < d
    ensures n == Min(len, if acc < 0 then 0 else acc / d)
  {
    if acc >= d && len > 0 {
      var q, m := acc / d, acc % d;
      assert acc == q * d + m && 0 <= m < d;
      assert (n - q) * d == n * d - q * d;
      assert n - q < 1 by { FactorBelow(n - q, d); }
      if n < len {
        assert (q - n) * d == q * d - n * d;
        assert q - n < 1 by { FactorBelow(q - n, d); }
      }
    } else if 0 <= acc < d {
      assert acc / d == 0;
    }
  }

  /** The number of actions one drain applies: as many as whole character
      durations have accumulated, but no more than are queued. */
  lemma DrainCountExact(e: Engine, now: int)
    requires e.charDuration > 0
    ensures Drained(e, now) == Min(|e.actionQueue|, if e.timeAccumulator < 0 then 0 else e.timeAccumulator / e.charDuration)
  {
    DrainLoopFrame(e, now);
    DrainLoopCount(e, now);
    var r := DrainLoop(e, now);
    var n, len := Drained(e, now), |e.actionQueue|;
    assert len > 0 && e.timeAccumulator >= e.charDuration ==> n > 0;
    PaymentCount(n, len, e.timeAccumulator, e.charDuration);
  }

  /** The frame of `Step`: apart from the drain, only the listed fields move. */
  predicate Loads(e: Engine, ts: int)
  {
    && e.isPlaying && e.manifest.Some? && !Waiting(e, ts) && e.actionQueue == []
    && e.revisionIndex < |e.manifest.value.deltas|
    && !LargeGap(e.manifest.value.deltas, e.revisionIndex)
  }

  predicate Stops(e: Engine, ts: int)
  {
    && e.isPlaying && e.manifest.Some? && !Waiting(e, ts) && e.actionQueue == []
    && e.revisionIndex >= |e.manifest.value.deltas|
  }

  predicate IsSuffix(a: seq<Action>, b: seq<Action>)
  {
    |a| <= |b| && a == b[|b| - |a|..]
  }

  /** The engine's state after the time-skip check and the sweep of a frame
      that is not waiting. */
  function Swept(e: Engine, ts: int): Engine
  {
    var e2 := e.(lastFrameTime := ts, timeSkipEndTime := if e.timeSkipEndTime > 0 then 0 else e.timeSkipEndTime);
    var swept := Sweep(e2.AsView(), ts);
    e2.(text := swept.text, pendingDeletions := swept.pending)
  }

  /** A frame while not playing, or without a manifest, changes nothing. */
  lemma StepIdle(e: Engine, ts: int)
    requires !e.isPlaying || e.manifest.None?
    ensures Step(e, ts) == e
  {
  }

  /** While the time-skip wait runs, a frame only records its time: no text
      mutation, no sweep, no loading, no draining. */
  lemma StepWaiting(e: Engine, ts: int)
    requires e.isPlaying && e.manifest.Some?
    requires 0 < e.timeSkipEndTime && ts < e.timeSkipEndTime
    ensures Step(e, ts) == e.(lastFrameTime := ts)
  {
  }

  /** A frame that is playing, has a manifest and is not waiting is the
      sweep followed by the load-or-stop step and the drain. */
  lemma StepUnfold(e: Engine, ts: int)
    requires e.isPlaying && e.manifest.Some? && !Waiting(e, ts)
    ensures Step(e, ts) == LoadAndDrain(Swept(e, ts), ts, ts - (if e.lastFrameTime == 0 then ts else e.lastFrameTime))
  {
  }

  /** A drain keeps the revision index, the playing flag and the manifest, and
      leaves a suffix of the queue. */
  lemma DrainKeeps(e: Engine, now: int)
    ensures var r := DrainLoop(e, now);
      && r.revisionIndex == e.revisionIndex && r.isPlaying == e.isPlaying && r.manifest == e.manifest
      && IsSuffix(r.actionQueue, e.actionQueue)
  {
    DrainLoopFrame(e, now);
    var r := DrainLoop(e, now);
    assert r.actionQueue == e.actionQueue[|e.actionQueue| - |r.actionQueue|..];
  }

  /** The load-or-stop step and the drain, on the state after the sweep. */
  lemma LoadAndDrainEffect(s: Engine, ts: int, dt: int)
    requires s.manifest.Some?
    ensures var r := LoadAndDrain(s, ts, dt);
      var deltas := s.manifest.value.deltas;
      var k := s.revisionIndex;
      var loads := s.actionQueue == [] && k < |deltas| && !LargeGap(deltas, k);
      && r.revisionIndex == (if loads then k + 1 else k)
      && (loads ==> IsSuffix(r.actionQueue, Flatten(deltas[k].ops)))
      && (!loads ==> IsSuffix(r.actionQueue, s.actionQueue))
      && r.isPlaying == (s.isPlaying && !(s.actionQueue == [] && k >= |deltas|))
      && r.manifest == s.manifest
  {
    var deltas := s.manifest.value.deltas;
    var k := s.revisionIndex;
    if s.actionQueue == [] {
      if k < |deltas| && !LargeGap(deltas, k) {
        var loaded := s.(charDuration := CHAR_DURATION, timeAccumulator := dt,
                         actionQueue := Flatten(deltas[k].ops), revisionIndex := k + 1);
        assert LoadAndDrain(s, ts, dt) == DrainLoop(loaded, ts);
        DrainKeeps(loaded, ts);
      }
    } else {
      var s' := s.(timeAccumulator := s.timeAccumulator + dt);
      assert LoadAndDrain(s, ts, dt) == DrainLoop(s', ts);
      DrainKeeps(s', ts);
    }
  }

  /** A revision is loaded only when the queue is empty, a revision remains and
      the gap to the previous delta is within the threshold; loading bumps the
      revision index by exactly one, and the queue afterwards is what is left
      of the new revision's actions. Otherwise the index stays and the queue
      only loses actions from its head. */
  lemma RevisionAdvance(e: Engine, ts: int)
    ensures var r := Step(e, ts);
      && r.revisionIndex == (if Loads(e, ts) then e.revisionIndex + 1 else e.revisionIndex)
      && (Loads(e, ts) ==> IsSuffix(r.actionQueue, Flatten(e.manifest.value.deltas[e.revisionIndex].ops)))
      && (!Loads(e, ts) ==> IsSuffix(r.actionQueue, e.actionQueue))
  {
    if e.isPlaying && e.manifest.Some? && !Waiting(e, ts) {
      StepUnfold(e, ts);
      LoadAndDrainEffect(Swept(e, ts), ts, ts - (if e.lastFrameTime == 0 then ts else e.lastFrameTime));
    }
  }

  /** Playback stops exactly when, outside a wait, the queue is empty and no
      revision remains; the stopping frame then only records its time, ends
      any finished wait, sweeps, and clears the playing flag. */
  lemma PlaybackStops(e: Engine, ts: int)
    ensures Step(e, ts).isPlaying == (e.isPlaying && !Stops(e, ts))
    ensures Stops(e, ts) ==> Step(e, ts) == Swept(e, ts).(isPlaying := false)
  {
    if e.isPlaying && e.manifest.Some? && !Waiting(e, ts) {
      StepUnfold(e, ts);
      LoadAndDrainEffect(Swept(e, ts), ts, ts - (if e.lastFrameTime == 0 then ts else e.lastFrameTime));
    }
  }

  /** A large gap before the next revision starts a time skip: the frame
      records its time, sweeps and sets the end of the wait, and loads and
      applies nothing. */
  lemma TimeSkipStarts(e: Engine, ts: int)
    requires e.isPlaying && e.manifest.Some? && !Waiting(e, ts) && e.actionQueue == []
    requires e.revisionIndex < |e.manifest.value.deltas| && LargeGap(e.manifest.value.deltas, e.revisionIndex)
    ensures Step(e, ts) == Swept(e, ts).(timeSkipEndTime := ts + TIME_SKIP_DISPLAY_DURATION)
  {
  }

  /** The gap before the first delta is never checked: the manifest keeps no
      time for the base revision, and the check only compares two
      consecutive deltas. So the first delta loads whatever its time. */
  lemma FirstDeltaNeverSkips(e: Engine, ts: int)
    requires e.isPlaying && e.manifest.Some? && !Waiting(e, ts) && e.actionQueue == []
    requires e.revisionIndex == 0 && |e.manifest.value.deltas| > 0
    ensures Loads(e, ts) && Step(e, ts).revisionIndex == 1
  {
    RevisionAdvance(e, ts);
  }

  /** Playing, with an empty queue, in front of a revision that follows a
      large gap. */
  predicate StuckAtGap(e: Engine)
  {
    && e.isPlaying && e.manifest.Some? && e.actionQueue == []
    && e.revisionIndex < |e.manifest.value.deltas|
    && LargeGap(e.manifest.value.deltas, e.revisionIndex)
  }

  /** Nothing records that a gap has been shown: when the wait ends, the same
      check fires again on the same frame and starts a new wait. So the
      revision after a gap larger than the threshold is never loaded, however
      many frames follow. */
  lemma {:induction false} GapNeverLoads(e: Engine, times: seq<int>)
    requires StuckAtGap(e)
    ensures StuckAtGap(Run(e, times))
    ensures Run(e, times).revisionIndex == e.revisionIndex
    ensures Run(e, times).manifest == e.manifest
    decreases |times|
  {
    if times != [] {
      var next := Step(e, times[0]);
      assert StuckAtGap(next) && next.revisionIndex == e.revisionIndex && next.manifest == e.manifest;
      GapNeverLoads(next, times[1..]);
    }
  }

  /** Two revisions an hour and a millisecond apart: the frame in front of the
      second starts the wait and changes no text. */
  lemma TimeSkipExample(base: Delta, next: Delta, ts: int)
    requires base.timestamp == 1000000 && next.timestamp == 1000000 + 3600001
    ensures var e := Initial.(isPlaying := true, lastFrameTime := ts, text := "abc",
                              manifest := Some(DeltaManifest("f", 3, Some(""), [base, next])),
                              revisionIndex := 1);
      Step(e, ts) == e.(timeSkipEndTime := ts + TIME_SKIP_DISPLAY_DURATION)
  {
    var e := Initial.(isPlaying := true, lastFrameTime := ts, text := "abc",
                      manifest := Some(DeltaManifest("f", 3, Some(""), [base, next])),
                      revisionIndex := 1);
    assert Sweep(e.AsView(), ts) == e.AsView();
  }

  /** A manifest with no deltas and base text "X": after the reset and one
      frame of playing, the text is "X", the revision index 0 and playback
      has stopped without processing any action. */
  lemma NoRevisionsExample(m: DeltaManifest, now: int, ts: int)
    requires m.deltas == [] && m.baseText == Some("X")
    ensures var e := Step(PlayState(ResetState(Initial, Some(m)), now), ts);
      e.text == "X" && e.revisionIndex == 0 && !e.isPlaying && e.actionQueue == []
  {
    var e := PlayState(ResetState(Initial, Some(m)), now);
    assert Sweep(e.AsView(), ts) == e.AsView();
  }

  /** Replacing the manifest puts the engine back at the start of the new one
      whatever state it was in; a missing manifest changes nothing. */
  lemma ResetRestarts(e: Engine, m: Option<DeltaManifest>)
    ensures var r := ResetState(e, m);
      && (m.None? ==> r == e)
      && (m.Some? ==>
            && r.text == (if m.value.baseText.Some? then m.value.baseText.value else "")
            && r.revisionIndex == 0 && r.actionQueue == [] && r.pendingDeletions == []
            && r.manifest == m && r.timeSkipEndTime == 0
            && r.isPlaying == e.isPlaying && r.lastFrameTime == e.lastFrameTime
            && r.charDuration == e.charDuration && r.timeAccumulator == e.timeAccumulator)
      && ResetState(r, m) == r
  {
  }

  // ---------------------------------------------------------------------------
  // Ghost entries across frames
  // ---------------------------------------------------------------------------

  /** The load-or-stop step and the drain keep every ghost entry, up to its
      start. */
  lemma LoadAndDrainKeeps(s: Engine, ts: int, dt: int, d: PendingDeletion)
    requires s.manifest.Some?
    requires d in Erase(s.pendingDeletions)
    ensures d in Erase(LoadAndDrain(s, ts, dt).pendingDeletions)
  {
    var x := DrainInput(s, ts, dt);
    if x.Some? {
      DrainLoopFrame(x.value, ts);
      ApplyAllKeeps(x.value.AsView(), x.value.actionQueue[..Drained(x.value, ts)], ts, d);
    }
  }

  /** The load-or-stop step and the drain at `ts` add only entries expiring
      after `ts`. */
  lemma LoadAndDrainFresh(s: Engine, ts: int, dt: int)
    requires s.manifest.Some?
    requires forall j :: 0 <= j < |s.pendingDeletions| ==> ts < s.pendingDeletions[j].expiry
    ensures var ps := LoadAndDrain(s, ts, dt).pendingDeletions;
      forall j :: 0 <= j < |ps| ==> ts < ps[j].expiry
  {
    var x := DrainInput(s, ts, dt);
    if x.Some? {
      DrainLoopFrame(x.value, ts);
      ApplyAllFresh(x.value.AsView(), x.value.actionQueue[..Drained(x.value, ts)], ts);
    }
  }

  /** The state `LoadAndDrain` hands to the drain loop, if it reaches it; when
      it does not, it changes no text and no ghost entry. */
  function DrainInput(s: Engine, ts: int, dt: int): (x: Option<Engine>)
    requires s.manifest.Some?
    ensures x.Some? ==> LoadAndDrain(s, ts, dt) == DrainLoop(x.value, ts) && x.value.AsView() == s.AsView()
    ensures x.None? ==> LoadAndDrain(s, ts, dt).AsView() == s.AsView()
  {
    var deltas := s.manifest.value.deltas;
    var k := s.revisionIndex;
    if s.actionQueue == [] then
      if k < |deltas| && !LargeGap(deltas, k) then
        Some(s.(charDuration := CHAR_DURATION, timeAccumulator := dt,
                actionQueue := Flatten(deltas[k].ops), revisionIndex := k + 1))
      else None
    else Some(s.(timeAccumulator := s.timeAccumulator + dt))
  }

  /** A frame before a ghost entry's expiry keeps it: the sweep spares it and
      the actions of the frame only move its start. */
  lemma StepKeepsGhost(e: Engine, ts: int, d: PendingDeletion)
    requires d in Erase(e.pendingDeletions) && ts < d.expiry
    ensures d in Erase(Step(e, ts).pendingDeletions)
  {
    if e.isPlaying && e.manifest.Some? && !Waiting(e, ts) {
      StepUnfold(e, ts);
      var sw := Swept(e, ts);
      SweepKeepsUnexpired(e.AsView(), ts, d);
      assert sw.pendingDeletions == Sweep(e.AsView(), ts).pending;
      LoadAndDrainKeeps(sw, ts, ts - (if e.lastFrameTime == 0 then ts else e.lastFrameTime), d);
    }
  }

  /** After a frame that sweeps at `ts`, every ghost entry expires after `ts`:
      the sweep removed all the others and the frame's deletes expire later. */
  lemma StepLeavesUnexpired(e: Engine, ts: int)
    requires e.isPlaying && e.manifest.Some? && !Waiting(e, ts)
    ensures var ps := Step(e, ts).pendingDeletions;
      forall j :: 0 <= j < |ps| ==> ts < ps[j].expiry
  {
    StepUnfold(e, ts);
    var sw := Swept(e, ts);
    SweepSurvivors(e.AsView(), ts);
    assert sw.pendingDeletions == Sweep(e.AsView(), ts).pending;
    LoadAndDrainFresh(sw, ts, ts - (if e.lastFrameTime == 0 then ts else e.lastFrameTime));
  }

  /** Deletion linger across frames: a ghost entry stays through every frame
      before its expiry, and the first frame at or after its expiry that
      sweeps removes it, so it is removed exactly once. */
  lemma {:induction false} GhostLifetime(e: Engine, times: seq<int>, d: PendingDeletion)
    requires d in Erase(e.pendingDeletions)
    requires forall i :: 0 <= i < |times| ==> times[i] < d.expiry
    ensures d in Erase(Run(e, times).pendingDeletions)
    ensures forall ts :: d.expiry <= ts && Run(e, times).isPlaying && Run(e, times).manifest.Some?
                         && !Waiting(Run(e, times), ts) ==>
              d !in Erase(Step(Run(e, times), ts).pendingDeletions)
    decreases |times|
  {
    if times != [] {
      StepKeepsGhost(e, times[0], d);
      GhostLifetime(Step(e, times[0]), times[1..], d);
    } else {
      forall ts | d.expiry <= ts && e.isPlaying && e.manifest.Some? && !Waiting(e, ts)
        ensures d !in Erase(Step(e, ts).pendingDeletions)
      {
        StepLeavesUnexpired(e, ts);
      }
    }
  }

  // ---------------------------------------------------------------------------
  // Which frames ask for the next one
  // ---------------------------------------------------------------------------

  /** With a manifest, a frame asks for the next frame exactly when playback
      is still on after it. */
  lemma RequestsFrameWhilePlaying(e: Engine, ts: int)
    requires e.manifest.Some?
    ensures RequestsFrame(e, ts) == Step(e, ts).isPlaying
  {
    PlaybackStops(e, ts);
  }

  /** A frame that is playing but finds no manifest ends the frame loop while
      the playing flag stays set. A manifest that arrives afterwards keeps the
      flag set, so starting playback again requests no frame and changes
      nothing: the engine stays idle until it is paused and played. */
  lemma StallWithoutManifest(e: Engine, ts: int, m: DeltaManifest, now: int)
    requires e.isPlaying && e.manifest.None?
    ensures Step(e, ts) == e && !RequestsFrame(e, ts)
    ensures var r := ResetState(e, Some(m));
      r.isPlaying && PlayState(r, now) == r
    ensures PlayState(ResetState(e, Some(m)).(isPlaying := false), now).isPlaying
  {
  }
}
