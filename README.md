# Revision playback engine, modelled in Dafny

This project models the core of a document-history player. The backend's
`DiffEngine.computeManifest` pairs consecutive revisions of a document into a
*delta manifest*: a base text plus one delta (id, time, author, diff
operations) per later revision. The frontend's `usePlaybackEngine` hook replays
that manifest as an animation. It is a tick-driven state machine. Each frame it
does the following:

- starts a *time-skip* wait when two consecutive deltas are more than an
  hour apart;
- sweeps expired *ghost* deletions out of the text;
- flattens the next revision's diff into single-character insert actions and
  whole-span delete actions, each tagged with a *logical* index;
- drains that queue at 20 ms per action.

Each action's logical index is remapped to a *visual* index. The visual index
skips over the deleted spans that are still shown. Inserts splice one
character in and push the later ghost spans right. Deletes only register a
ghost span that expires 300 ms later.

Files and modules:

- `wrappers.dfy` (`Wrappers`): `Option`, `Result`.
- `manifest.dfy` (`Manifest`): opcodes, `Op`, `Delta`, `DeltaManifest`.
- `js_string.dfy` (`JsString`): JavaScript's `slice` semantics. It clamps
  positions and counts negative positions from the end.
- `flattener.dfy` (`Flattener`): the action flattener. `Flatten` is the
  specification and `FlattenOps` is the cursor loop.
- `ghosts.dfy` (`Ghosts`): the pending-deletion registry. It has the stable
  sort by start, the remapper (`Remap`, `VisualIndex`, the loop
  `ToVisualIndex`), insert and register, and the expiry sweep (`RemoveAt`,
  `SweepDown`, `Sweep`).
- `playback.dfy` (`Playback`): the engine state as a value (`Engine`) and one
  frame as a pure function (`Step`). The class `PlaybackEngine` has the fields
  of the hook's internal state. Its methods mutate them in place: the sweep
  collects expired array indices and removes them from the highest index
  down, the drain is a `while` loop, and the shifts update entries of the
  registry one by one. `Tick` is proved to leave exactly the state
  `Step(old state, timestamp)`.
- `scheduler.dfy` (`Scheduler`): lemmas about `Step`: idling, waiting,
  loading, stopping, time skips, draining and reset.
- `diff_engine.dfy` (`DiffEngine`): the manifest builder. The diff algorithm
  is a function parameter `diff`, and nothing is assumed about it.

Timestamps are integers of milliseconds. Strings are `seq<char>`.

Behaviour of the code as written that the model exposes:

- For the diff `[[0,"Hello"],[1," World"],[-1,"lo"]]` the delete action gets
  logical index 11. The cursor has already moved past the six inserted
  characters (`Flattener.HelloWorldExample`). In the text before the
  revision, "Hellolo", the deleted "lo" starts at 5, and the comment at
  PlaybackHook.js:150 says the cursor does not move
  for a delete relative to the original source. The model follows the code.
- Once a time-skip wait ends, nothing records that the gap was shown. The
  same frame meets the same gap again and starts a new wait. So a revision
  that follows a gap of more than an hour is never loaded, and playback
  stays in front of it for ever (`Scheduler.GapNeverLoads`). A time skip
  is evidently meant to shorten the pause and then load the revision.
- The gap between the base revision and the first delta is never checked.
  The manifest keeps no time for the base revision (DiffEngine.js:43-48),
  and the gap check runs only from the second delta on and compares two
  consecutive deltas (PlaybackHook.js:119-122). So the first delta loads
  however long after the base revision it was made
  (`Scheduler.FirstDeltaNeverSkips`).
- The sweep removes expired entries in descending *array index* order
  (PlaybackHook.js:85), not in descending start order. The two orders
  differ once an entry registered later lies before an earlier one in the
  text.
- A frame that is playing but has no manifest requests no next frame and
  leaves the playing flag set (PlaybackHook.js:56). A manifest supplied
  afterwards is not played until playback is paused and started again
  (`Scheduler.StallWithoutManifest`).
- A missing manifest leaves the engine's state untouched. It does not reset
  to an empty text.
- An empty author display name counts as absent and gives "Unknown".

## Model

| member | source | states |
|---|---|---|
| `Flattener.FlattenOps` | web/frontend/src/hooks/PlaybackHook.js:130-153 | the cursor loop builds exactly `Flatten(ops)`, with one action per inserted character plus one per delete span |
| `Flattener.QueueInserts` | web/frontend/src/hooks/PlaybackHook.js:144-147 | an insert span queues its characters in order at cursor, cursor+1, …, and leaves the cursor past them |
| `Flattener.EmitSpan` | web/frontend/src/hooks/PlaybackHook.js:141-151 | one span's actions and new cursor, by opcode (equal / insert / delete / ignored) |
| `Flattener.InsertsAtIndex` | web/frontend/src/hooks/PlaybackHook.js:144-147 | the k-th insert action of a span carries the span's k-th character at cursor + k |
| `Flattener.FlattenAppend` | web/frontend/src/hooks/PlaybackHook.js:140-152 | flattening a concatenated diff is the concatenation, the second part starting at the cursor the first leaves |
| `Flattener.FlattenSnoc` | web/frontend/src/hooks/PlaybackHook.js:140-152 | appending one span to a diff appends that span's actions, emitted at the cursor the diff leaves, and moves the cursor by that span alone |
| `Flattener.FlattenInsertSpan` | web/frontend/src/hooks/PlaybackHook.js:143-147 | an appended insert span of n characters adds exactly n insert actions after those already emitted, the k-th carrying its k-th character at cursor + k |
| `Flattener.FlattenSpan` | web/frontend/src/hooks/PlaybackHook.js:140-152 | appending an equal span emits nothing and moves the cursor by its length; an insert span of n characters emits n inserts at cursor … cursor+n-1 and moves it n; a delete span emits one delete with its whole text at the cursor and does not move it; other opcodes emit nothing |
| `Flattener.FlattenCount` | web/frontend/src/hooks/PlaybackHook.js:140-152 | action count = inserted characters + delete spans |
| `Flattener.FlattenIndexRange` | web/frontend/src/hooks/PlaybackHook.js:133-152 | every logical index lies between the starting cursor and the final cursor, and the cursor never moves back |
| `Flattener.HelloWorldExample` | web/frontend/src/hooks/PlaybackHook.js:140-152 | `[[0,"Hello"],[1," World"],[-1,"lo"]]` gives inserts at 5..10 and the delete at 11 |
| `Ghosts.SortByStartCorrect` | web/frontend/src/hooks/PlaybackHook.js:173 | the sorted copy of the registry is ordered by start and is a permutation of it, with the same total length |
| `Ghosts.RemapBounds` | web/frontend/src/hooks/PlaybackHook.js:171-179 | logical ≤ visual ≤ logical + total ghost length, and visual = logical when no entry starts at or before it |
| `Ghosts.RemapOutsideSpans` | web/frontend/src/hooks/PlaybackHook.js:171-179 | on sorted entries, compared with the running index, the result is outside every ghost span, and it equals logical + the lengths of exactly the spans starting at or before it |
| `Ghosts.VisualIndexProperties` | web/frontend/src/hooks/PlaybackHook.js:171-179 | visual ≥ logical, visual = logical for an empty registry, visual ≤ logical + total length, and visual is never inside a ghost span |
| `Ghosts.ToVisualIndex` | web/frontend/src/hooks/PlaybackHook.js:171-179 | the remapping loop over the sorted copy computes `VisualIndex`, with the bounds and the outside-every-span property |
| `Ghosts.InsertCharEffect` | web/frontend/src/hooks/PlaybackHook.js:183-193 | for 0 ≤ v ≤ \|text\|: the new text is `text[..v] + [c] + text[v..]`; exactly the entries with start ≥ v move right by one; nothing else about any entry changes |
| `Ghosts.RegisterEffect` | web/frontend/src/hooks/PlaybackHook.js:195-202 | a delete leaves the text and every existing entry unchanged and appends one entry: start v, length \|t\|, text t, expiry timestamp + 300 |
| `Ghosts.InsertShiftExample` | web/frontend/src/hooks/PlaybackHook.js:188-193 | an entry at start 5, length 3, after an insert at 2, starts at 6 |
| `Ghosts.InsertKeepsGhosts` | web/frontend/src/hooks/PlaybackHook.js:183-193 | an insert outside every ghost span keeps each span showing its deleted text and keeps the spans apart |
| `Ghosts.ShiftKeepsShowing` | web/frontend/src/hooks/PlaybackHook.js:183-193 | after the splice at a position outside every ghost span, every shifted entry still shows its deleted text |
| `Ghosts.ShiftKeepsApart` | web/frontend/src/hooks/PlaybackHook.js:188-193 | the +1 shift of entries at or after the insert point keeps ghost spans that were apart still apart |
| `Ghosts.InsertActionKeepsGhosts` | web/frontend/src/hooks/PlaybackHook.js:171-193 | a remapped insert action (within the text) keeps every ghost span showing its text and the spans apart |
| `Ghosts.RemoveAtEffect` | web/frontend/src/hooks/PlaybackHook.js:88-105 | removing entry idx splices it out and leaves the other entries in order; each other entry starting after it moves left by its length, the rest keep their start; an in-text span is cut out of the text exactly |
| `Ghosts.SweepDownSurvivors` | web/frontend/src/hooks/PlaybackHook.js:76-106 | sweeping indices below k removes exactly the expired ones among them and keeps the rest in order; entries at k and above stay |
| `Ghosts.SweepSurvivors` | web/frontend/src/hooks/PlaybackHook.js:76-106 | the sweep removes exactly the entries with expiry ≤ now, the others survive in their relative order, and every survivor has not expired |
| `Ghosts.SweepNothingExpired` | web/frontend/src/hooks/PlaybackHook.js:76-110 | if nothing has expired, text and registry are unchanged |
| `Ghosts.RemoveKeepsOther` | web/frontend/src/hooks/PlaybackHook.js:90-102 | cutting a span out keeps a span apart from it showing its text after the left shift |
| `Ghosts.RemoveKeepsApart` | web/frontend/src/hooks/PlaybackHook.js:97-102 | the left shift keeps spans that were apart still apart |
| `Ghosts.RemoveAtKeepsGhosts` | web/frontend/src/hooks/PlaybackHook.js:88-105 | removing one entry keeps the other spans showing their text and apart, and the text shrinks by exactly its length |
| `Ghosts.SweepKeepsGhosts` | web/frontend/src/hooks/PlaybackHook.js:76-106 | the sweep keeps spans apart and showing their text, and shrinks the text by exactly the expired lengths |
| `Ghosts.SweepDownKeepsGhosts` | web/frontend/src/hooks/PlaybackHook.js:87-106 | the same, for the sweep over indices below k, processed downwards |
| `Ghosts.DeletionLingers` | web/frontend/src/hooks/PlaybackHook.js:195-202 | within its frame: a deletion registered at time now stays in the registry through all the actions that follow it; a sweep of that state before now + 300 keeps it, one at or after leaves no entry expiring at or before now + 300 |
| `Ghosts.InsertKeepsErased` | web/frontend/src/hooks/PlaybackHook.js:183-193 | wherever it lands, an insert changes no registry entry except its start |
| `Ghosts.LiveKeeps` | web/frontend/src/hooks/PlaybackHook.js:76-81 | an entry that has not expired by now is among the survivors |
| `Ghosts.SweepKeepsUnexpired` | web/frontend/src/hooks/PlaybackHook.js:76-106 | a sweep at now keeps every entry with now < expiry (start aside) |
| `Ghosts.ApplyActionKeeps` | web/frontend/src/hooks/PlaybackHook.js:171-203 | one action keeps every registry entry (start aside): an insert only moves starts, a delete only appends |
| `Ghosts.ApplyAllKeeps` | web/frontend/src/hooks/PlaybackHook.js:165-208 | a run of actions keeps every registry entry (start aside) |
| `Ghosts.ApplyAllFresh` | web/frontend/src/hooks/PlaybackHook.js:195-202 | actions applied at now add only entries expiring after now |
| `Playback.ExpiredIndices` | web/frontend/src/hooks/PlaybackHook.js:76-81 | the collected array indices are strictly ascending and are exactly those of the entries with expiry ≤ timestamp |
| `Playback.PlaybackEngine.constructor` | web/frontend/src/hooks/PlaybackHook.js:22-34 | the initial state: empty text, index 0, empty queue and registry, not playing, 20 ms per character |
| `Playback.PlaybackEngine.Reset` | web/frontend/src/hooks/PlaybackHook.js:37-51 | a new manifest resets text to its base text (or ""), index to 0, empties queue and registry, clears the time skip; a missing one changes nothing |
| `Playback.PlaybackEngine.Play` | web/frontend/src/hooks/PlaybackHook.js:218-221 | starting sets the playing flag and takes the clock reading as the last frame time, and requests the first frame, only if not already playing |
| `Playback.PlaybackEngine.Pause` | web/frontend/src/hooks/PlaybackHook.js:222-227 | pausing clears the playing flag and keeps everything else |
| `Playback.PlaybackEngine.SetIndex` | web/frontend/src/hooks/PlaybackHook.js:238 | seeking changes no state and reports that it is not implemented |
| `Playback.PlaybackEngine.RemoveEntry` | web/frontend/src/hooks/PlaybackHook.js:88-105 | in place: cut entry idx's span out of the text, shift the other entries starting after it left, splice it out (`RemoveAt`) |
| `Playback.PlaybackEngine.RemoveExpired` | web/frontend/src/hooks/PlaybackHook.js:84-106 | removing the expired indices from the highest down gives `Sweep`; the loop invariant keeps every index still to be visited valid after each splice |
| `Playback.PlaybackEngine.SweepExpired` | web/frontend/src/hooks/PlaybackHook.js:75-110 | the expiry sweep leaves text and registry as `Sweep` says and nothing else changed |
| `Playback.PlaybackEngine.InsertAt` | web/frontend/src/hooks/PlaybackHook.js:183-193 | in place: splice the character in and push entries with start ≥ v right by one (`InsertChar`) |
| `Playback.PlaybackEngine.ApplyHead` | web/frontend/src/hooks/PlaybackHook.js:168-203 | one drain turn: pay one character's time, dequeue the head, remap it, insert or register |
| `Playback.PlaybackEngine.LoadAndProcess` | web/frontend/src/hooks/PlaybackHook.js:112-208 | load, time skip or stop on an empty queue, then drain, as `LoadAndDrain` gives; the playing flag is cleared exactly on an empty queue with no revision left |
| `Playback.PlaybackEngine.Tick` | web/frontend/src/hooks/PlaybackHook.js:53-214 | one frame changes the state exactly as `Step` does, and requests the next frame exactly as `RequestsFrame` says: not at lines 54, 56 and 158, yes at 66, 125 and 212 |
| `Playback.PlaybackEngine.ProcessActions` | web/frontend/src/hooks/PlaybackHook.js:165-208 | the drain loop ends in the state `DrainLoop` gives and never changes the playing flag |
| `Scheduler.DrainLoopFrame` | web/frontend/src/hooks/PlaybackHook.js:165-208 | a drain takes a prefix of the queue (FIFO), applies exactly those actions in order, subtracts one character duration per action, and changes nothing else |
| `Scheduler.DrainLoopCount` | web/frontend/src/hooks/PlaybackHook.js:165-169 | no action when less than one character's time has accumulated, never more time spent than accumulated, and exit only with an empty queue or less than one character's time left |
| `Scheduler.DrainCountExact` | web/frontend/src/hooks/PlaybackHook.js:163-169 | with a positive character duration, one drain applies exactly min(queue length, ⌊accumulator / duration⌋) actions (none for a negative accumulator), so never more than ⌊acc/charDuration⌋ |
| `Scheduler.DrainKeeps` | web/frontend/src/hooks/PlaybackHook.js:165-208 | a drain keeps the revision index, the playing flag and the manifest, and leaves a suffix of the queue |
| `Scheduler.StepIdle` | web/frontend/src/hooks/PlaybackHook.js:54-56 | a frame while paused or without a manifest changes nothing |
| `Scheduler.StepWaiting` | web/frontend/src/hooks/PlaybackHook.js:63-67 | while 0 < timeSkipEndTime and the frame's timestamp is before it, a frame changes only the last frame time |
| `Scheduler.LoadAndDrainEffect` | web/frontend/src/hooks/PlaybackHook.js:112-208 | after the sweep: the index grows by one exactly when a revision is loaded; the queue is then a suffix of its actions, else a suffix of the old queue; playing stops exactly on an empty queue with no revision left |
| `Scheduler.RevisionAdvance` | web/frontend/src/hooks/PlaybackHook.js:113-154 | a revision is loaded only when the queue is empty, one remains and the gap is within the threshold; loading bumps the index by exactly 1 and queues that revision's actions; otherwise the queue only loses head actions |
| `Scheduler.PlaybackStops` | web/frontend/src/hooks/PlaybackHook.js:155-158 | playback stops exactly when, outside a wait, the queue is empty and no revision remains; that frame only records its time, ends a finished wait, sweeps and clears the flag |
| `Scheduler.TimeSkipStarts` | web/frontend/src/hooks/PlaybackHook.js:119-127 | a gap above the threshold starts a 1000 ms wait and loads and applies nothing |
| `Scheduler.FirstDeltaNeverSkips` | web/frontend/src/hooks/PlaybackHook.js:113-154 | at revision index 0 with an empty queue, a frame outside a wait always loads the first delta: no gap is checked before it |
| `Scheduler.GapNeverLoads` | web/frontend/src/hooks/PlaybackHook.js:63-127 | in front of a revision after a large gap with an empty queue, no sequence of frames ever advances the revision index |
| `Scheduler.TimeSkipExample` | web/frontend/src/hooks/PlaybackHook.js:119-127 | revisions 3,600,001 ms apart: the frame sets the wait end and changes no text |
| `Scheduler.NoRevisionsExample` | web/frontend/src/hooks/PlaybackHook.js:112-158 | no deltas, base text "X": after reset, play and one frame, the text is "X", the index 0, and playback has stopped with nothing applied |
| `Scheduler.ResetRestarts` | web/frontend/src/hooks/PlaybackHook.js:37-51 | whatever the prior state, a new manifest gives its base text, index 0, an empty queue and registry and no wait, and leaves the rest; resetting twice is resetting once |
| `Scheduler.DrainInput` | web/frontend/src/hooks/PlaybackHook.js:112-164 | the state the load-or-stop step hands to the drain, if it reaches it; when it does not, text and registry are unchanged |
| `Scheduler.LoadAndDrainKeeps` | web/frontend/src/hooks/PlaybackHook.js:112-208 | loading and draining keep every registry entry (start aside) |
| `Scheduler.LoadAndDrainFresh` | web/frontend/src/hooks/PlaybackHook.js:112-208 | loading and draining at ts add only entries expiring after ts |
| `Scheduler.StepKeepsGhost` | web/frontend/src/hooks/PlaybackHook.js:53-214 | a frame before an entry's expiry keeps that entry (start aside) |
| `Scheduler.StepLeavesUnexpired` | web/frontend/src/hooks/PlaybackHook.js:75-208 | after a frame that sweeps at ts, every entry expires after ts |
| `Scheduler.GhostLifetime` | web/frontend/src/hooks/PlaybackHook.js:76-202 | a ghost entry stays through every frame before its expiry, and the first sweeping frame at or after its expiry removes it |
| `Scheduler.RequestsFrameWhilePlaying` | web/frontend/src/hooks/PlaybackHook.js:54-212 | with a manifest, a frame requests the next one exactly when playback is still on after it |
| `Scheduler.StallWithoutManifest` | web/frontend/src/hooks/PlaybackHook.js:37-56 | a playing frame without a manifest changes nothing and requests no frame; a manifest loaded afterwards leaves the playing flag set, so a start (line 218) does nothing, and only a pause followed by a start starts playing again |
| `DiffEngine.ComputeManifest` | web/backend/src/DiffEngine.js:15-49 | the builder's loop produces `ManifestOf`: an error exactly for a missing or empty list, else one delta fewer than revisions |
| `DiffEngine.DeltasFromIndex` | web/backend/src/DiffEngine.js:25-41 | delta i-1 is built from revisions i-1 and i, in order, and there are \|revisions\| - 1 of them |
| `DiffEngine.ManifestShape` | web/backend/src/DiffEngine.js:15-48 | error iff missing or empty; otherwise fileId passes through, totalRevisions = \|revisions\|, baseText = first text or "", and delta i-1 has revision i's id, time, author, and `diff(text i-1, text i)` |
| `DiffEngine.AuthorFallback` | web/backend/src/DiffEngine.js:38 | the author is the non-empty display name, else "Unknown" (absent user, absent name or empty name); never empty |
| `DiffEngine.ThreeRevisionsExample` | web/backend/test_diff.js:3-14 | three revisions give totalRevisions 3, two deltas and base text "Hello" |

## Left out

- React plumbing is not modelled: the `useState` setters, the effects' dependency lists and the published snapshot copies. The model holds only the internal state.
- The host clock is not modelled: `requestAnimationFrame`, `cancelAnimationFrame` and `performance.now()`. Each frame is a call `Tick(timestamp)`, and `Play` takes the clock reading as a parameter. The `animationFrameId` field is left out with them.
- Playback.PlaybackEngine.Tick: the model returns whether a frame requests the next one (`RequestsFrame`) but does not enforce it. `Tick`, `Step` and `Run` accept a frame at any time, even after a frame that requested none. The stall at PlaybackHook.js:56, where the loop ends with the playing flag still set, is stated by `Scheduler.StallWithoutManifest`. A `Tick` called after that stall would still load a later manifest, which the source never does.
- Timestamps are integers. Frame times are doubles in the source, and delta times are date strings parsed with `new Date(...).getTime()`. A `NaN` last frame time is not modelled.
- Strings are `seq<char>`. The source iterates code points for inserts but measures `.length` in UTF-16 units. Treating one character as one unit removes that mismatch.
- The diff library (`diff_main`, `diff_cleanupSemantic`) is foreign code. It is the parameter `diff`, and the `DiffEngine` constructor holding it is not modelled.
- `SetIndex`: `console.warn` is I/O. The method returns the warning text instead of printing it.
- Object identity is not modelled. Registry entries are values that the methods replace, not objects shared with the sorted copy. The sorted copy is only read, so nothing observable depends on this.
- Eventual consistency is not stated: that the final text equals the last revision once every ghost expires. It depends on the diffs being well formed with respect to the animated text, which the engine neither checks nor guarantees. A delete span whose logical range covers an older ghost span is registered over the wrong visible characters.
- Whether the engine as a whole keeps ghost spans apart and showing their text is not stated. Inserts and sweeps preserve this (`Ghosts.InsertActionKeepsGhosts`, `Ghosts.SweepKeepsGhosts`). Registering a delete preserves it only for a well-formed diff.
- The tests for the document-store service (`tests/Test_DriveService.js`, `tests/Test_BatchFetch.js`) exercise `DriveService.gs` through mocked I/O. DriveService.gs is not part of this model.
