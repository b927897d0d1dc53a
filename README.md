# Player position receivers: tracking and clustering model

This project models the two Unity receiver scripts of a floor-projection
installation. They turn `/Position` OSC messages into tracked players and
group the players into clusters that drive visual effects.

- **`PlayerPositionReceiverStable`** (module `StableReceiver`) owns a fixed
  array of `maxPlayers` slots. For each `/Position` message it:
  - maps every readable coordinate pair from [0,1] into the world rectangle;
  - clears the `matchedThisFrame` flags;
  - builds every (active slot, detection) pair within `assignMaxDistance`
    and sorts the pairs by squared distance;
  - commits pairs greedily, so no slot and no detection is used twice;
  - gives each leftover detection the lowest inactive slot or, when every
    slot is on, switches off the slot seen longest ago and gives it that
    one; the spawn is skipped if the slot was spawned less than
    `spawnCooldown` ago, but an eviction stands even then;
  - moves every active matched slot one smoothing step towards its
    detection, clamped to the rectangle.

  `Update` switches off slots unseen for longer than `timeoutSec`, clusters
  the active positions (`FindClusters`), and resizes the pooled list of
  cluster effects to the cluster count (`SyncClusterFxCount`).
- **`PlayerPositionReceiver`**, its predecessor (module `IndexReceiver`),
  keeps a resizable list of players:
  - `/Count` resizes the list, taking objects from the pools or returning
    them, and switches every listed player on.
  - Player i is driven by coordinate pair i, with no matching.
  - The timeout sweep, the clustering and the cluster effects are the same
    as in the stable receiver.

Shared modules:

| module | contents |
|---|---|
| `Geometry` | points on the ground plane; `Mathf.Clamp`, `Clamp01` and `Lerp`; the world rectangle |
| `Messages` | how a `/Position` message is read into detections |
| `Pooling` | the stack-based object pools; scene objects are opaque handles |
| `Clustering` | `FindClusters` as a method, proved equal to a recursive specification, with lemmas about that specification |
| `ClusterEffects` | the cluster effect list and its `SyncClusterFxCount` |
| `SlotPool` | the slot record, the `FindFreeSlot` choice, one spawn turn, candidate pairs and the in-place sort |

Modelling choices:

- Time (`Time.time`) is the parameter `now`.
- `Vector3.SmoothDamp` is the caller-supplied function `smooth` and is not
  interpreted. Only the clamp applied after it is specified.
- Floats are modelled as reals.

Behaviour of the code that the model keeps:

- **Eviction and cooldown.** A spawn skipped for cooldown still leaves the
  evicted slot off: `FindFreeSlot` switches it off before the cooldown is
  tested (PlayerPositionReceiverStable.cs:163-167, 299). With every slot
  on, such a detection costs the pool an active slot.
- **Sort ties.** `List<T>.Sort` is not stable, so pairs at equal squared
  distance may be scanned in any order
  (PlayerPositionReceiverStable.cs:148). Only the order by squared
  distance and the permutation are modelled, and the assignment is
  specified by a property that holds for every such order.
- **Cluster cap.** The cap is tested after the append
  (PlayerPositionReceiverStable.cs:265-266), so the list holds at most
  `max(1, maxClusters)` clusters.
- **Shared points.** The refinement counts every point within the radius,
  used or not (PlayerPositionReceiverStable.cs:260), so two clusters
  may share points. No disjointness is claimed.

## Model

Paths are relative to the repository root. S is `Assets/Script/PlayerPositionReceiverStable.cs` and P is `Assets/Script/PlayerPositionReceiver.cs`; they are written out in full below.

| member | source | states |
|---|---|---|
| Geometry.Clamp | Assets/Script/PlayerPositionReceiverStable.cs:184 | the result lies in [lo, hi] when lo <= hi, is the value itself inside the range, is lo below it, and is hi above it |
| Geometry.ClampInt | Assets/Script/PlayerPositionReceiverStable.cs:120 | the integer clamp lies in [lo, hi] when lo <= hi, keeps values inside, gives lo below and hi above |
| Geometry.Lerp | Assets/Script/PlayerPositionReceiverStable.cs:129-130 | the interpolated value stays between a and b when a <= b, and is a for t <= 0 and b for t >= 1 |
| Geometry.Box.ClampPoint | Assets/Script/PlayerPositionReceiverStable.cs:184 | the clamped point lies in a well-formed rectangle, and a point already inside is unchanged |
| Geometry.Box.MapSample | Assets/Script/PlayerPositionReceiverStable.cs:129-131 | a mapped sample lies in a well-formed rectangle whatever the raw values; samples at or beyond 0 and 1 map to the corners |
| Messages.PairPoint | Assets/Script/PlayerPositionReceiverStable.cs:128-131 | a readable pair maps to a point inside a well-formed rectangle |
| Messages.DetectionsFromPairs | Assets/Script/PlayerPositionReceiverStable.cs:124-132 | at most n detections come from n pairs, exactly n when every pair reads, and detection k is the point of a readable pair i with k <= i < n |
| Messages.DetectionsInBox | Assets/Script/PlayerPositionReceiverStable.cs:129-131 | every detection lies in a well-formed rectangle |
| Messages.ReadDetections | Assets/Script/PlayerPositionReceiverStable.cs:124-132 | the loop reads min(m.Count()/2, cap) pairs, skipping unreadable ones, so there are at most that many detections, each inside the rectangle |
| Pooling.ObjectPool.Get | Assets/Script/PlayerPositionReceiverStable.cs:67 | the object returned was not handed out and now is; everything handed out before stays handed out; with a non-empty stack it is the top and the rest of the stack stays; otherwise it is a new instance and the serial counter advances |
| Pooling.ObjectPool.Release | Assets/Script/PlayerPositionReceiverStable.cs:68 | releasing a handed-out object keeps the pool well formed and changes the ownership of that object only |
| Pooling.Preloaded | Assets/Script/PlayerPositionReceiverStable.cs:62-66 | a preloaded pool is well formed and holds exactly `preload` instantiated objects |
| Pooling.ReleaseThenGet | Assets/Script/PlayerPositionReceiverStable.cs:67-68 | releasing an object and getting one again returns that object and the pool as it was |
| Clustering.VisitEmitsRefined | Assets/Script/PlayerPositionReceiverStable.cs:253-267 | a seed emits exactly when it is unused and both its gather and the points, used or not, within the radius of the gather's centroid number at least minMembers; the cluster's size is the count of those points and its center is their centroid |
| Clustering.ScanFromCapped | Assets/Script/PlayerPositionReceiverStable.cs:244-270 | the list never exceeds max(1, maxClusters): clusters are appended only below the cap and the pass stops when an append reaches maxClusters |
| Clustering.ScanFromKeeps | Assets/Script/PlayerPositionReceiverStable.cs:244-270 | clusters already emitted are kept, in order, as a prefix of the result |
| Clustering.EmitKeepsRefined | Assets/Script/PlayerPositionReceiverStable.cs:261-265 | appending the cluster a seed emits keeps every listed cluster refined |
| Clustering.ScanFromRefined | Assets/Script/PlayerPositionReceiverStable.cs:244-270 | everything the pass emits is such a refined cluster |
| Clustering.ClustersSound | Assets/Script/PlayerPositionReceiverStable.cs:237-272 | no clusters for no points or minMembers <= 1; otherwise each cluster is refined with size >= minMembers and there are at most max(1, maxClusters) |
| Clustering.ShortSeedRetired | Assets/Script/PlayerPositionReceiverStable.cs:253-269 | a seed whose first gather falls short is marked used and emits nothing |
| Clustering.FindClusters | Assets/Script/PlayerPositionReceiverStable.cs:237-272 | the loop over the used array returns exactly the specified clusters, with the emptiness, cap and size properties (the same code is at PlayerPositionReceiver.cs:195-237) |
| Clustering.ScanSeeds | Assets/Script/PlayerPositionReceiverStable.cs:241-271 | the seed loop over the used array returns exactly the specified clusters, including the early stop at the cap |
| Clustering.VisitLoop | Assets/Script/PlayerPositionReceiverStable.cs:246-269 | one seed's gather, centroid and refine loops produce exactly the specified outcome and used flags |
| Clustering.SumLoop | Assets/Script/PlayerPositionReceiverStable.cs:255 | the loop's sum is the sum of the member points |
| Clustering.SumAndMark | Assets/Script/PlayerPositionReceiverStable.cs:263 | the loop sums the members and marks exactly them used |
| ClusterEffects.ClusterFx.constructor | Assets/Script/PlayerPositionReceiverStable.cs:81 | the cluster pool preloads max(1, maxClusters) objects and the effect list starts empty |
| ClusterEffects.ClusterFx.Sync | Assets/Script/PlayerPositionReceiverStable.cs:274-291 | the list ends with length `needed`; the first min(old, needed) entries are unchanged; the excess goes back to the pool from the tail; a burst fires only for new entries; the list stays distinct and owned by the pool |
| ClusterEffects.ClusterFx.Grow | Assets/Script/PlayerPositionReceiverStable.cs:277-283 | entries are appended up to `needed`, each taken from the pool with a burst when enabled |
| ClusterEffects.ClusterFx.Shrink | Assets/Script/PlayerPositionReceiverStable.cs:285-290 | the tail beyond `needed` is removed and pushed back on the pool, last entry first |
| ClusterEffects.ClusterFx.Show | Assets/Script/PlayerPositionReceiverStable.cs:222-234 | effect i is placed at center i, objects not in the list keep their last center, and a sustain fires for each entry when enabled |
| ClusterEffects.PlaceAll | Assets/Script/PlayerPositionReceiverStable.cs:222-234 | over distinct objects, object i ends on center i, every other object keeps its placement, and the sustain events are the objects in order |
| SlotPool.Spawned | Assets/Script/PlayerPositionReceiverStable.cs:166-170 | a spawned slot is active, matched, warped to the detection, at rest, and seen and spawned now |
| SlotPool.Deactivated | Assets/Script/PlayerPositionReceiverStable.cs:311-316 | a switched-off slot is inactive and keeps every other field; a slot already off is unchanged |
| SlotPool.Matched | Assets/Script/PlayerPositionReceiverStable.cs:155-156 | a committed slot is matched to the detection, and its position, velocity, timestamps and on flag are kept |
| SlotPool.Smoothed | Assets/Script/PlayerPositionReceiverStable.cs:179-186 | after a smoothing step the slot lies in a well-formed rectangle and was seen now; its flags, matched position and spawn time are kept |
| SlotPool.FirstInactiveFromSpec | Assets/Script/PlayerPositionReceiverStable.cs:296 | the first loop finds the lowest inactive slot, or -1 when all are active |
| SlotPool.OldestFromSpec | Assets/Script/PlayerPositionReceiverStable.cs:297-298 | the age scan picks the strictly oldest slot, the lowest index on ties, and gives -1 only when no age exceeds -1 |
| SlotPool.FreeSlotChoice | Assets/Script/PlayerPositionReceiverStable.cs:294-301 | `FindFreeSlot` returns the lowest inactive slot if there is one, else the oldest, and a valid index whenever the pool is non-empty and no slot was seen after now |
| SlotPool.SpawnStep | Assets/Script/PlayerPositionReceiverStable.cs:163-170 | one spawn turn: with no slot to give nothing changes; otherwise only the chosen slot changes, and it is spawned at the detection when its cooldown has run out and switched off when it has not |
| SlotPool.SpawnIntoFree | Assets/Script/PlayerPositionReceiverStable.cs:163-170 | with an inactive slot, a detection is spawned into the lowest one once its cooldown has run out, and otherwise nothing changes |
| SlotPool.SpawnIntoFull | Assets/Script/PlayerPositionReceiverStable.cs:163-170 | with every slot on, the oldest slot (lowest index on ties) is switched off; the detection is spawned there once its cooldown has run out, and otherwise the slot stays off |
| SlotPool.BuildCandidates | Assets/Script/PlayerPositionReceiverStable.cs:136-147 | a pair is listed exactly when its slot is active and its squared distance is at most assignMaxDistance², each once, in slot-then-detection order |
| SlotPool.SortByD2 | Assets/Script/PlayerPositionReceiverStable.cs:148 | the array is sorted by squared distance and is a permutation of its old contents |
| SlotPool.InsertAt | Assets/Script/PlayerPositionReceiverStable.cs:148 | one insertion extends the sorted prefix by one and keeps the contents |
| StableReceiver.Swept | Assets/Script/PlayerPositionReceiverStable.cs:205 | a slot stays on exactly when it was on and its age is within the timeout; nothing else about it changes |
| StableReceiver.ActivePositionsSpec | Assets/Script/PlayerPositionReceiverStable.cs:216-217 | a point is in the clustering input exactly when an active slot is there, and there are no more points than slots |
| StableReceiver.CommitSkip | Assets/Script/PlayerPositionReceiverStable.cs:153-154 | a pair skipped because its slot is matched or its detection used is blocked by an earlier committed pair sharing one of them |
| StableReceiver.CommitTakeState | Assets/Script/PlayerPositionReceiverStable.cs:155-157 | committing a pair whose slot and detection are free keeps the matching one to one and `detUsed` equal to the set of matched detections |
| StableReceiver.CommitTakeOrder | Assets/Script/PlayerPositionReceiverStable.cs:150-158 | after a commit, every match is a scanned pair and every earlier pair is still committed or blocked |
| StableReceiver.BlockedByCloser | Assets/Script/PlayerPositionReceiverStable.cs:148-158 | over sorted pairs, every pair not committed is blocked by a committed pair that shares its slot or detection and is no farther apart |
| StableReceiver.SpawnEvict | Assets/Script/PlayerPositionReceiverStable.cs:299 | an eviction only switches a slot off and keeps the spawn loop's invariant |
| StableReceiver.SpawnAdvance | Assets/Script/PlayerPositionReceiverStable.cs:160-162 | skipping a detection keeps the spawn loop's invariant |
| StableReceiver.SpawnTake | Assets/Script/PlayerPositionReceiverStable.cs:163-170 | spawning an unused detection into an inactive slot whose cooldown has run out keeps the matching one to one and the cooldown respected |
| StableReceiver.CommitGivesMatch | Assets/Script/PlayerPositionReceiverStable.cs:150-158 | after the greedy scan, active slots are matched exactly to their owners, one to one, and each owner is a used detection |
| StableReceiver.PhasesMatch | Assets/Script/PlayerPositionReceiverStable.cs:174-186 | smoothing keeps the matching, and each active matched slot is seen now and lies in the rectangle |
| StableReceiver.PhasesKeep | Assets/Script/PlayerPositionReceiverStable.cs:122-197 | through the four phases, an active slot left unmatched is unchanged except for the cleared flag, and no spawn broke the cooldown |
| StableReceiver.ScannedAreCandidates | Assets/Script/PlayerPositionReceiverStable.cs:134-148 | the sorted pairs are exactly the candidates over the slots as they were before the match flags were cleared |
| StableReceiver.GreedyIsAssignment | Assets/Script/PlayerPositionReceiverStable.cs:148-158 | the greedy scan over the sorted candidates yields a greedy assignment: one to one, each assigned pair a candidate, each other candidate blocked by an assigned one sharing its slot or detection and no farther apart |
| StableReceiver.IdlePoolSpawns | Assets/Script/PlayerPositionReceiverStable.cs:122-197 | a single detection arriving while no slot is on takes slot 0 once its cooldown has run out: slot 0 comes on matched to it, spawned and seen now, and the other slots only have their match flag cleared |
| StableReceiver.Stepped | Assets/Script/PlayerPositionReceiverStable.cs:176-186 | only active matched slots are smoothed; flags, matched position and spawn time are kept |
| StableReceiver.Receiver.Awake | Assets/Script/PlayerPositionReceiverStable.cs:83-100 | there are maxPlayers slots, all inactive at the origin, never seen and never spawned, and no cluster effects |
| StableReceiver.Receiver.OnCount | Assets/Script/PlayerPositionReceiverStable.cs:119-120 | the hint is the count clamped to [0, maxPlayers] |
| StableReceiver.Receiver.FindFreeSlot | Assets/Script/PlayerPositionReceiverStable.cs:294-301 | the index returned is the specified choice, which is inactive afterwards; the chosen slot is switched off only when every slot was active |
| StableReceiver.Receiver.ResetMatched | Assets/Script/PlayerPositionReceiverStable.cs:134 | every matchedThisFrame is cleared and nothing else changes |
| StableReceiver.Receiver.Assign | Assets/Script/PlayerPositionReceiverStable.cs:134-158 | the matching phases give a greedy `Assignment` over the slots as they were; each slot is cleared then committed to its assigned detection; `detUsed` marks exactly the assigned detections |
| StableReceiver.Receiver.CommitGreedy | Assets/Script/PlayerPositionReceiverStable.cs:150-158 | the committed matching is one to one; matched slots hold their detection; `detUsed` marks exactly the matched detections; every match is a scanned pair; every pair not committed is blocked by an earlier committed pair |
| StableReceiver.Receiver.SpawnUnmatched | Assets/Script/PlayerPositionReceiverStable.cs:160-172 | the new slots are `SpawnUpTo` of the old ones: each detection left unused, in order, takes one `SpawnStep`; the matching stays one to one and every spawn respected the cooldown |
| StableReceiver.Receiver.SpawnOne | Assets/Script/PlayerPositionReceiverStable.cs:162-171 | the new slots are exactly `SpawnStep` of the old ones for this detection, and the spawn loop's invariant holds for the next detection |
| StableReceiver.Receiver.SmoothMatched | Assets/Script/PlayerPositionReceiverStable.cs:174-194 | each active matched slot takes one clamped smoothing step and is seen now; other slots are unchanged |
| StableReceiver.Receiver.OnPosition | Assets/Script/PlayerPositionReceiverStable.cs:122-197 | at most maxPlayers detections; the new slots are `AfterPosition` of the old ones under a greedy `Assignment` (cleared, committed, spawned into, smoothed); no two active slots share a detection; each active matched slot holds its detection, was seen now and lies in the rectangle; each active unmatched slot is as before; no slot was respawned within the cooldown |
| StableReceiver.Receiver.Sweep | Assets/Script/PlayerPositionReceiverStable.cs:202-206 | exactly the active slots unseen for longer than timeoutSec are switched off |
| StableReceiver.Receiver.CollectActive | Assets/Script/PlayerPositionReceiverStable.cs:216-217 | the point list is the active positions in slot order |
| StableReceiver.Receiver.HandleClusters | Assets/Script/PlayerPositionReceiverStable.cs:214-235 | the clusters are those of the active positions, at most max(1, maxClusters); effect i sits at center i |
| StableReceiver.Receiver.Update | Assets/Script/PlayerPositionReceiverStable.cs:199-209 | after the sweep every active slot is within the timeout; the clusters are those of the remaining active positions; there is one effect per cluster |
| IndexReceiver.Woken | Assets/Script/PlayerPositionReceiver.cs:127-130 | every listed player ends on; a player that was off is seen now and keeps its position |
| IndexReceiver.Activated | Assets/Script/PlayerPositionReceiver.cs:300-308 | an activated player is on and seen now, and keeps its position, velocity and objects |
| IndexReceiver.Deactivated | Assets/Script/PlayerPositionReceiver.cs:310-315 | a deactivated player is off and keeps everything else; a player already off is unchanged |
| IndexReceiver.Driven | Assets/Script/PlayerPositionReceiver.cs:147-158 | a driven player is on, seen now and inside a well-formed rectangle, and keeps its pooled objects |
| IndexReceiver.Swept | Assets/Script/PlayerPositionReceiver.cs:113-115 | a player stays on exactly when it was on and its age is within the timeout |
| IndexReceiver.CountFor | Assets/Script/PlayerPositionReceiver.cs:123-124 | the list length after `OnCount` is the count clamped to [0, maxPlayers], or 0 when maxPlayers is negative |
| IndexReceiver.ShrinkVisitsBelowZero | Assets/Script/PlayerPositionReceiver.cs:290 | as written, a negative target makes the shrink loop visit index -1 |
| IndexReceiver.ShrinkVisitsInRange | Assets/Script/PlayerPositionReceiver.cs:290-297 | with a non-negative target, the loop visits exactly the indices from the target to the end of the list |
| IndexReceiver.Receiver.Awake | Assets/Script/PlayerPositionReceiver.cs:80-88 | there are no players; both player pools preload max(0, maxPlayers) objects |
| IndexReceiver.Receiver.OnCount | Assets/Script/PlayerPositionReceiver.cs:121-133 | the list length is the clamped count; every player is on; old players are kept and woken; new ones are seen now at the origin |
| IndexReceiver.Receiver.EnsurePlayerCount | Assets/Script/PlayerPositionReceiver.cs:264-298 | the length is min(target, maxPlayers) raised to 0; only the tail is removed; players below both lengths are untouched; new players are off, at rest at the origin, with lastSeen -999 |
| IndexReceiver.Receiver.Grow | Assets/Script/PlayerPositionReceiver.cs:268-288 | fresh players are appended, each with objects newly handed out by the pools |
| IndexReceiver.ReleaseTail | Assets/Script/PlayerPositionReceiver.cs:290-297 | with the stop raised to 0, the players below the stop are kept; the trackers and effects of the rest go back on their pools, last player first; the kept players still hold distinct handed-out objects |
| IndexReceiver.ReleaseLast | Assets/Script/PlayerPositionReceiver.cs:294-296 | releasing the last player's objects leaves every other player's objects handed out |
| IndexReceiver.Receiver.Shrink | Assets/Script/PlayerPositionReceiver.cs:290-297 | the list is cut to max(0, n) players, the tail's trackers and effects go back on their pools last player first, and nothing else changes |
| IndexReceiver.Receiver.OnPosition | Assets/Script/PlayerPositionReceiver.cs:135-169 | only players below min(m.Count()/2, players.Count) whose pair reads are written, each driven towards the point of its own pair; the rest are unchanged |
| IndexReceiver.Receiver.Sweep | Assets/Script/PlayerPositionReceiver.cs:110-116 | exactly the active players unseen for longer than timeoutSec are switched off; the length is unchanged |
| IndexReceiver.Receiver.CollectActive | Assets/Script/PlayerPositionReceiver.cs:176-178 | the point list is the active positions in list order |
| IndexReceiver.Receiver.HandleClusters | Assets/Script/PlayerPositionReceiver.cs:174-193 | the clusters are those of the active positions, at most max(1, maxClusters); effect i sits at center i |
| IndexReceiver.Receiver.Update | Assets/Script/PlayerPositionReceiver.cs:110-118 | after the sweep every active player is within the timeout; the clusters are those of the remaining active positions |

## Left out

- OSC transport is not modelled: opening the port, `Map`/`Unmap`, duplicate filtering and `OscPool.Recycle`. A message is the sequence of its arguments, and `TryGet` succeeds only on a float argument.
- Unity side effects are not modelled: `SetActive` on scene objects, parenting, `Transform` writes of player objects, and the player effect's `SetVector3`/`SendEvent` (`PlayerPos`, `RipplePulse`, `OnAppear`). The cluster effects' burst, sustain and center writes are kept as event lists and a map.
- `Vector3.SmoothDamp` is an opaque parameter, so the model says nothing about where a smoothing step lands before the clamp.
- Floats and their rounding are not modelled; values are reals.
- The y coordinate is not modelled; every position lies on the ground plane.
- The cluster pool is assumed to exist. Without a cluster prefab, `SyncClusterFxCount` calls `Instantiate` and `Destroy` on a missing prefab; that path is not modelled.
- A missing effect component is not modelled separately. The stable receiver's `if (fx)` test is folded into the `burstFires` setting.
- The stable receiver's tracker and effect objects are not modelled. They are taken from their pools once in `Awake` and never change, so a slot's index stands for them.
- The stable receiver's `maxPlayers` is a natural number. A negative value makes `new Tracked[maxPlayers]` throw in `Awake`.
- `Start`, `OnDestroy` and the prefab-missing early exits of `Awake` are Unity lifecycle glue and are not modelled.
- These files are not part of this model: `PlayerPositionReceiverBackup.cs`, `RippleEffect.cs`, the UI and persistence scripts (`ControlPanelUI.cs`, `MaskingPlaneControls.cs`, both `MaskSwitcher.cs`) and the animation scripts (`FloatUpDown.cs`, `VFX_Position.cs`, `RotateArround.cs`).
- StableReceiver.Receiver.OnPosition: the greedy assignment is stated as a property (`Assignment`) rather than computed, because the unstable sort lets pairs at equal distance be scanned in any order.

## Findings

| source | as written | input that shows it | evidently intended | confidence | as-written member | corrected member |
|---|---|---|---|---|---|---|
| Assets/Script/PlayerPositionReceiver.cs:290 | the shrinking loop of `EnsurePlayerCount` runs from `players.Count - 1` down to `target` even when the target is negative | `maxPlayers = -1` and any `/Count` message: the target is -1, so the first turn reads `players[-1]` and throws | stop at index 0 and leave no players, as `Awake` does with `Mathf.Max(0, maxPlayers)` | not executed; high | IndexReceiver.ShrinkVisitsBelowZero | IndexReceiver.ReleaseTail |
