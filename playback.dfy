/** The playback engine: a tick-driven state machine that turns the manifest's
    deltas into a text that is typed and erased character by character. */
module Playback {
  import opened Wrappers
  import opened JsString
  import opened Manifest
  import opened Flattener
  import opened Ghosts

  /** A gap of more than an hour between two revisions is compressed. */
  const TIME_SKIP_THRESHOLD: int := 60 * 60 * 1000
  /** How long the compressed gap is shown, in milliseconds. */
  const TIME_SKIP_DISPLAY_DURATION: int := 1000
  /** Milliseconds per applied action. */
  const CHAR_DURATION: int := 20

  /** The engine's internal state, field for field, as a value. */
  datatype Engine = Engine(
    text: string,
    revisionIndex: nat,
    actionQueue: seq<Action>,
    pendingDeletions: seq<PendingDeletion>,
    isPlaying: bool,
    lastFrameTime: int,
    manifest: Option<DeltaManifest>,
    timeSkipEndTime: int,
    charDuration: int,
    timeAccumulator: int)
  {
    /** The text and the ghost registry, as the ghost operations see them. */
    function AsView(): View
    {
      View(text, pendingDeletions)
    }
  }

  const Initial: Engine := Engine("", 0, [], [], false, 0, None, 0, CHAR_DURATION, 0)

  /** The time-skip wait is still running at `ts`. */
  predicate Waiting(e: Engine, ts: int)
  {
    e.timeSkipEndTime > 0 && ts < e.timeSkipEndTime
  }

  /** Delta `k` follows its predecessor after more than the threshold. */
  predicate LargeGap(deltas: seq<Delta>, k: nat)
    requires k < |deltas|
  {
    k > 0 && deltas[k].timestamp - deltas[k - 1].timestamp > TIME_SKIP_THRESHOLD
  }

  /** The drain loop: while actions are queued and a whole character's time
      has accumulated, take the head of the queue and apply it. */
  function DrainLoop(e: Engine, now: int): Engine
    decreases |e.actionQueue|
  {
    if e.actionQueue != [] && e.timeAccumulator >= e.charDuration then DrainLoop(DrainStep(e, now), now)
    else e
  }

  /** One turn of the drain loop: pay one character's time, take the head of
      the queue, apply it. */
  function DrainStep(e: Engine, now: int): (r: Engine)
    requires e.actionQueue != []
    ensures |r.actionQueue| == |e.actionQueue| - 1
  {
    var v := ApplyAction(e.AsView(), e.actionQueue[0], now);
    e.(timeAccumulator := e.timeAccumulator - e.charDuration, actionQueue := e.actionQueue[1..],
       text := v.text, pendingDeletions := v.pending)
  }

  /** After the sweep: load the next revision, start a time skip or stop when
      the queue is empty, then drain with the frame's elapsed time added. */
  function LoadAndDrain(e: Engine, ts: int, dt: int): Engine
    requires e.manifest.Some?
  {
    if e.actionQueue == [] then
      var deltas := e.manifest.value.deltas;
      var k := e.revisionIndex;
      if k < |deltas| then
        if LargeGap(deltas, k) then e.(timeSkipEndTime := ts + TIME_SKIP_DISPLAY_DURATION)
        else
          var loaded := e.(charDuration := CHAR_DURATION, timeAccumulator := 0,
                           actionQueue := Flatten(deltas[k].ops), revisionIndex := k + 1);
          DrainLoop(loaded.(timeAccumulator := loaded.timeAccumulator + dt), ts)
      else e.(isPlaying := false)
    else DrainLoop(e.(timeAccumulator := e.timeAccumulator + dt), ts)
  }

  /** One frame of the game loop at time `ts`. */
  function Step(e: Engine, ts: int): Engine
  {
    if !e.isPlaying || e.manifest.None? then e
    else
      var dt := ts - (if e.lastFrameTime == 0 then ts else e.lastFrameTime);
      var e1 := e.(lastFrameTime := ts);
      if Waiting(e1, ts) then e1
      else
        var e2 := if e1.timeSkipEndTime > 0 then e1.(timeSkipEndTime := 0) else e1;
        var swept := Sweep(e2.AsView(), ts);
        LoadAndDrain(e2.(text := swept.text, pendingDeletions := swept.pending), ts, dt)
  }

  /** Whether the frame at `ts` asks the host for another frame. A frame
      while paused or without a manifest does not, nor does the frame that
      finds no revision left; a frame inside a time-skip wait, one that
      starts a wait, and every other frame does. */
  function RequestsFrame(e: Engine, ts: int): bool
  {
    if !e.isPlaying || e.manifest.None? then false
    else Waiting(e, ts) || !(e.actionQueue == [] && e.revisionIndex >= |e.manifest.value.deltas|)
  }

  /** Frames at the given times, in order. */
  function Run(e: Engine, times: seq<int>): Engine
    decreases |times|
  {
    if times == [] then e else Run(Step(e, times[0]), times[1..])
  }

  /** A new manifest resets text, revision index, queue, registry and time
      skip; a missing one changes nothing. */
  function ResetState(e: Engine, m: Option<DeltaManifest>): Engine
  {
    match m
    case None => e
    case Some(dm) =>
      e.(text := BaseTextOf(dm), revisionIndex := 0, actionQueue := [], pendingDeletions := [],
         manifest := m, timeSkipEndTime := 0)
  }

  /** Starting playback records the host clock's current time as the last
      frame; starting while playing changes nothing. */
  function PlayState(e: Engine, now: int): Engine
  {
    if e.isPlaying then e else e.(isPlaying := true, lastFrameTime := now)
  }

  class PlaybackEngine {
    var text: string
    var revisionIndex: nat
    var actionQueue: seq<Action>
    var pendingDeletions: seq<PendingDeletion>
    var isPlaying: bool
    var lastFrameTime: int
    var manifest: Option<DeltaManifest>
    var timeSkipEndTime: int
    var charDuration: int
    var timeAccumulator: int

    function Snapshot(): Engine
      reads this
    {
      Engine(text, revisionIndex, actionQueue, pendingDeletions, isPlaying, lastFrameTime,
             manifest, timeSkipEndTime, charDuration, timeAccumulator)
    }

    constructor ()
      ensures Snapshot() == Initial
    {
      text, revisionIndex, actionQueue, pendingDeletions := "", 0, [], [];
      isPlaying, lastFrameTime, manifest := false, 0, None;
      timeSkipEndTime, charDuration, timeAccumulator := 0, CHAR_DURATION, 0;
    }

    /** The effect run whenever the manifest changes. */
    method Reset(m: Option<DeltaManifest>)
      modifies this
      ensures Snapshot() == ResetState(old(Snapshot()), m)
    {
      if m.Some? {
        text := BaseTextOf(m.value);
        revisionIndex := 0;
        actionQueue := [];
        pendingDeletions := [];
        manifest := m;
        timeSkipEndTime := 0;
      }
    }

    /** `now` is the host clock's reading. `startsLoop` tells whether the
        first frame is requested: only when the engine was not already
        playing. */
    method Play(now: int) returns (startsLoop: bool)
      modifies this
      ensures Snapshot() == PlayState(old(Snapshot()), now)
      ensures startsLoop == !old(isPlaying)
    {
      startsLoop := !isPlaying;
      if !isPlaying {
        isPlaying := true;
        lastFrameTime := now;
      }
    }

    method Pause()
      modifies this
      ensures Snapshot() == old(Snapshot()).(isPlaying := false)
    {
      isPlaying := false;
    }

    /** Seeking is not supported: the engine's state is left alone and the
        caller is warned. */
    method SetIndex(index: int) returns (warning: string)
      ensures warning == "Seeking not implemented"
    {
      warning := "Seeking not implemented";
    }

    /** Cut the entry at array index `idx` out of the text, shift the other
        entries that start after it left by its length, splice it out. */
    method RemoveEntry(idx: nat)
      requires idx < |pendingDeletions|
      modifies this
      ensures var r := RemoveAt(old(Snapshot()).AsView(), idx);
        Snapshot() == old(Snapshot()).(text := r.text, pendingDeletions := r.pending)
    {
      var d := pendingDeletions[idx];
      text := Slice(text, 0, d.start) + SliceFrom(text, d.start + d.length);
      var ps := pendingDeletions;
      for o := 0 to |ps|
        invariant |ps| == |pendingDeletions|
        invariant forall j :: 0 <= j < o ==> ps[j] == ShiftForRemoval(pendingDeletions, idx)[j]
        invariant forall j :: o <= j < |ps| ==> ps[j] == pendingDeletions[j]
      {
        var other := ps[o];
        if o != idx && other.start > d.start {
          ps := ps[o := other.(start := other.start - d.length)];
        }
      }
      assert ps == ShiftForRemoval(pendingDeletions, idx);
      pendingDeletions := ps[..idx] + ps[idx + 1..];
    }

    /** Remove the expired entries, whose array indices `expired` lists in
        ascending order, from the highest index down. Each splice only moves
        entries above the removed one, so the indices still to be visited stay
        valid. */
    method RemoveExpired(timestamp: int, expired: seq<nat>)
      requires forall k, l :: 0 <= k < l < |expired| ==> expired[k] < expired[l]
      requires forall k :: 0 <= k < |expired| ==> expired[k] < |pendingDeletions|
      requires forall j :: 0 <= j < |pendingDeletions| ==> (j in expired <==> timestamp >= pendingDeletions[j].expiry)
      modifies this
      ensures var r := Sweep(old(Snapshot()).AsView(), timestamp);
        Snapshot() == old(Snapshot()).(text := r.text, pendingDeletions := r.pending)
    {
      ghost var start := Snapshot();
      ghost var whole := Sweep(start.AsView(), timestamp);
      // the entries at indices `bound` and above have been dealt with
      ghost var bound := |pendingDeletions|;
      var n := |expired|;
      while n > 0
        invariant 0 <= n <= |expired|
        invariant bound <= |pendingDeletions| <= |start.pendingDeletions|
        invariant n < |expired| ==> bound == expired[n]
        invariant n == |expired| ==> bound == |start.pendingDeletions|
        invariant forall k :: 0 <= k < n ==> expired[k] < bound
        invariant forall j :: 0 <= j < bound ==> pendingDeletions[j].expiry == start.pendingDeletions[j].expiry
        invariant SweepDown(View(text, pendingDeletions), timestamp, bound) == whole
        invariant Snapshot() == start.(text := text, pendingDeletions := pendingDeletions)
      {
        n := n - 1;
        var idx := expired[n];
        ghost var before := View(text, pendingDeletions);
        RemoveStep(before, timestamp, idx, bound, expired, start.pendingDeletions);
        RemoveEntry(idx);
        bound := idx;
      }
      SkipLive(View(text, pendingDeletions), timestamp, 0, bound, expired, start.pendingDeletions);
    }

    /** Collect the indices of the entries expired at `timestamp`, then remove
        them from the highest index down. */
    method SweepExpired(timestamp: int)
      modifies this
      ensures var r := Sweep(old(Snapshot()).AsView(), timestamp);
        Snapshot() == old(Snapshot()).(text := r.text, pendingDeletions := r.pending)
    {
      var expired := ExpiredIndices(pendingDeletions, timestamp);
      RemoveExpired(timestamp, expired);
    }

    /** Insert `c` at visual index `v` and push the entries at or after `v`
        right by one. */
    method InsertAt(v: int, c: char)
      modifies this
      ensures var r := InsertChar(old(Snapshot()).AsView(), v, c);
        Snapshot() == old(Snapshot()).(text := r.text, pendingDeletions := r.pending)
    {
      text := Slice(text, 0, v) + [c] + SliceFrom(text, v);
      var ps := pendingDeletions;
      for j := 0 to |ps|
        invariant |ps| == |pendingDeletions|
        invariant forall k :: 0 <= k < j ==> ps[k] == ShiftedForInsert(pendingDeletions[k], v)
        invariant forall k :: j <= k < |ps| ==> ps[k] == pendingDeletions[k]
      {
        if ps[j].start >= v {
          ps := ps[j := ps[j].(start := ps[j].start + 1)];
        }
      }
      assert ps == ShiftForInsertion(pendingDeletions, v);
      pendingDeletions := ps;
    }

    /** Apply the head of the queue. */
    method ApplyHead(timestamp: int)
      requires actionQueue != []
      modifies this
      ensures Snapshot() == DrainStep(old(Snapshot()), timestamp)
    {
      timeAccumulator := timeAccumulator - charDuration;
      var action := actionQueue[0];
      actionQueue := actionQueue[1..];
      var visualIndex := ToVisualIndex(action.logicalIndex, pendingDeletions);
      match action
      case Insert(c, _) =>
        InsertAt(visualIndex, c);
      case Delete(t, _) =>
        pendingDeletions := pendingDeletions + [PendingDeletion(visualIndex, |t|, t, timestamp + DELETION_WAIT_DURATION)];
    }

    /** Drain the queue at the fixed per-character rate. */
    method ProcessActions(timestamp: int)
      modifies this
      ensures Snapshot() == DrainLoop(old(Snapshot()), timestamp)
      ensures isPlaying == old(isPlaying)
    {
      while |actionQueue| > 0 && timeAccumulator >= charDuration
        invariant DrainLoop(Snapshot(), timestamp) == DrainLoop(old(Snapshot()), timestamp)
        invariant isPlaying == old(isPlaying)
        decreases |actionQueue|
      {
        ApplyHead(timestamp);
      }
    }

    /** Load the next revision, start a time skip or stop when the queue is
        empty; then drain with the elapsed time added. */
    method LoadAndProcess(timestamp: int, deltaTime: int)
      requires manifest.Some?
      modifies this
      ensures Snapshot() == LoadAndDrain(old(Snapshot()), timestamp, deltaTime)
      ensures isPlaying == (old(isPlaying) && !(old(actionQueue) == [] && old(revisionIndex) >= |old(manifest).value.deltas|))
    {
      ghost var s0 := Snapshot();
      if |actionQueue| == 0 {
        var deltas := manifest.value.deltas;
        var nextIndex := revisionIndex;
        if nextIndex < |deltas| {
          var delta := deltas[nextIndex];
          if nextIndex > 0 {
            var prevTimestamp := deltas[nextIndex - 1].timestamp;
            var currTimestamp := delta.timestamp;
            if currTimestamp - prevTimestamp > TIME_SKIP_THRESHOLD {
              timeSkipEndTime := timestamp + TIME_SKIP_DISPLAY_DURATION;
              return;
            }
          }
          charDuration := CHAR_DURATION;
          timeAccumulator := 0;
          var actions := FlattenOps(delta.ops);
          actionQueue := actions;
          revisionIndex := revisionIndex + 1;
          assert !LargeGap(deltas, nextIndex);
        } else {
          isPlaying := false;
          return;
        }
      }
      timeAccumulator := timeAccumulator + deltaTime;
      ghost var s1 := Snapshot();
      assert DrainLoop(s1, timestamp) == LoadAndDrain(s0, timestamp, deltaTime);
      ProcessActions(timestamp);
    }

    /** One frame of the game loop; `requestsFrame` tells whether the frame
        asks the host for the next one. */
    method Tick(timestamp: int) returns (requestsFrame: bool)
      modifies this
      ensures Snapshot() == Step(old(Snapshot()), timestamp)
      ensures requestsFrame == RequestsFrame(old(Snapshot()), timestamp)
    {
      if !isPlaying || manifest.None? {
        return false;
      }
      if lastFrameTime == 0 {
        lastFrameTime := timestamp;
      }
      var deltaTime := timestamp - lastFrameTime;
      lastFrameTime := timestamp;
      if timeSkipEndTime > 0 {
        if timestamp < timeSkipEndTime {
          return true;
        }
        timeSkipEndTime := 0;
      }
      SweepExpired(timestamp);
      LoadAndProcess(timestamp, deltaTime);
      requestsFrame := isPlaying;
    }
  }

  /** The array indices of the entries that have expired at `now`, ascending. */
  method ExpiredIndices(ps: seq<PendingDeletion>, now: int) returns (expired: seq<nat>)
    ensures forall k, l :: 0 <= k < l < |expired| ==> expired[k] < expired[l]
    ensures forall k :: 0 <= k < |expired| ==> expired[k] < |ps|
    ensures forall j :: 0 <= j < |ps| ==> (j in expired <==> now >= ps[j].expiry)
  {
    expired := [];
    for i := 0 to |ps|
      invariant forall k :: 0 <= k < |expired| ==> expired[k] < i
      invariant forall k, l :: 0 <= k < l < |expired| ==> expired[k] < expired[l]
      invariant forall j :: 0 <= j < i ==> (j in expired <==> now >= ps[j].expiry)
    {
      if now >= ps[i].expiry {
        expired := expired + [i];
      }
    }
  }

  /** One iteration of the removal loop: the sweep from `bound` down is the
      removal of the expired entry `idx` followed by the sweep from `idx`
      down, and the removal leaves the entries below `idx` in place. */
  lemma RemoveStep(view: View, now: int, idx: nat, bound: nat, expired: seq<nat>, orig: seq<PendingDeletion>)
    requires idx < bound <= |view.pending| && bound <= |orig|
    requires idx in expired
    requires forall j :: 0 <= j < bound ==> view.pending[j].expiry == orig[j].expiry
    requires forall j :: 0 <= j < |orig| ==> (j in expired <==> now >= orig[j].expiry)
    requires forall j :: idx < j < bound ==> j !in expired
    ensures SweepDown(view, now, bound) == SweepDown(RemoveAt(view, idx), now, idx)
    ensures forall j :: 0 <= j < idx ==> RemoveAt(view, idx).pending[j].expiry == orig[j].expiry
  {
    SkipLive(view, now, idx + 1, bound, expired, orig);
    var shifted := ShiftForRemoval(view.pending, idx);
    assert forall j :: 0 <= j < idx ==> RemoveAt(view, idx).pending[j] == shifted[j];
  }

  /** Between two consecutive expired indices (or above the last one) every
      entry is live, so the sweep passes over it without change. */
  lemma SkipLive(view: View, now: int, lo: nat, hi: nat, expired: seq<nat>, orig: seq<PendingDeletion>)
    requires lo <= hi <= |view.pending| && hi <= |orig|
    requires forall j :: 0 <= j < hi ==> view.pending[j].expiry == orig[j].expiry
    requires forall j :: lo <= j < hi ==> (j in expired <==> now >= orig[j].expiry)
    requires forall j :: lo <= j < hi ==> j !in expired
    ensures SweepDown(view, now, hi) == SweepDown(view, now, lo)
    decreases hi - lo
  {
    if lo < hi {
      SkipLive(view, now, lo, hi - 1, expired, orig);
    }
  }
}
