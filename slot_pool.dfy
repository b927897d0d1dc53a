/** The fixed slot pool of the stable receiver: the slot record, the rule
    `FindFreeSlot` uses to pick a slot for a new detection, and the
    candidate (slot, detection) pairs the greedy assignment scans. */
module SlotPool {
  import opened Geometry

  /** `Tracked`: one pool slot. Its tracker and effect objects never change
      after `Awake`, so the slot's index stands for them. */
  datatype Slot = Slot(pos: Point, vel: Point, lastSeen: real, lastSpawnT: real,
                       active: bool, matchedThisFrame: bool, matchedPos: Point)

  /** A slot as `Awake` creates it: at the origin, at rest, never seen,
      never spawned, inactive. */
  const Idle := Slot(Origin, Origin, -999.0, -999.0, false, false, Origin)

  /** `SetActive(tr, false)`: the slot is off and keeps every other field;
      switching off a slot that is already off changes nothing. */
  function Deactivated(s: Slot): (r: Slot)
    ensures !r.active && r.(active := s.active) == s
    ensures !s.active ==> r == s
  {
    s.(active := false)
  }

  /** The greedy scan's commit: the slot is marked matched to the
      detection, and its position, velocity, timestamps and on flag stay. */
  function Matched(s: Slot, p: Point): (r: Slot)
    ensures r.matchedThisFrame && r.matchedPos == p
    ensures r.(matchedThisFrame := s.matchedThisFrame, matchedPos := s.matchedPos) == s
  {
    s.(matchedThisFrame := true, matchedPos := p)
  }

  /** `WarpAndActivate(tr, pos, fireAppear: false)` followed by marking the
      slot matched to the same position. */
  function Spawned(s: Slot, p: Point, now: real): (r: Slot)
    ensures SpawnedAt(r, now) && r.pos == p
  {
    s.(pos := p, vel := Origin, lastSeen := now, lastSpawnT := now, active := true,
       matchedThisFrame := true, matchedPos := p)
  }

  /** The state a slot is in right after a spawn: active, matched to the
      position it was warped to, at rest, seen and spawned now. */
  predicate SpawnedAt(s: Slot, now: real)
  {
    s.active && s.matchedThisFrame && s.pos == s.matchedPos && s.vel == Origin &&
    s.lastSeen == now && s.lastSpawnT == now
  }

  /** The smoothing step of a matched slot: one `SmoothDamp` towards its
      matched position, clamped per axis to the world rectangle, and seen now. */
  function Smoothed(s: Slot, box: Box, smooth: Smoother, now: real): (r: Slot)
    ensures box.Valid() ==> box.Contains(r.pos)
    ensures r.lastSeen == now
    ensures r.active == s.active && r.matchedThisFrame == s.matchedThisFrame
    ensures r.matchedPos == s.matchedPos && r.lastSpawnT == s.lastSpawnT
  {
    var m := smooth(s.pos, s.matchedPos, s.vel);
    s.(pos := box.ClampPoint(m.pos), vel := m.vel, lastSeen := now)
  }

  function Age(s: Slot, now: real): real
  {
    now - s.lastSeen
  }

  // ---------------- FindFreeSlot ----------------

  /** The first loop of `FindFreeSlot`: the lowest inactive index from i on,
      or -1. */
  function FirstInactiveFrom(s: seq<Slot>, i: nat): int
    decreases |s| - i
  {
    if i >= |s| then -1
    else if !s[i].active then i
    else FirstInactiveFrom(s, i + 1)
  }

  /** The second loop of `FindFreeSlot`: keeps the first index whose age is
      strictly greater than every age before it, starting from
      `oldest = -1, oldestAge = -1`. */
  function OldestFrom(s: seq<Slot>, now: real, i: nat, best: int, bestAge: real): int
    decreases |s| - i
  {
    if i >= |s| then best
    else if Age(s[i], now) > bestAge then OldestFrom(s, now, i + 1, i, Age(s[i], now))
    else OldestFrom(s, now, i + 1, best, bestAge)
  }

  /** The index `FindFreeSlot` returns (before any eviction). */
  function FreeSlot(s: seq<Slot>, now: real): int
  {
    var f := FirstInactiveFrom(s, 0);
    if f >= 0 then f else OldestFrom(s, now, 0, -1, -1.0)
  }

  /** Whether `FindFreeSlot` evicts the slot it returns: only when every
      slot is active and some slot qualifies as the oldest. */
  predicate Evicts(s: seq<Slot>, now: real)
  {
    FirstInactiveFrom(s, 0) < 0 && FreeSlot(s, now) >= 0
  }

  lemma {:induction false} FirstInactiveFromSpec(s: seq<Slot>, i: nat)
    requires i <= |s|
    ensures var r := FirstInactiveFrom(s, i);
      (r == -1 && forall k :: i <= k < |s| ==> s[k].active) ||
      (i <= r < |s| && !s[r].active && forall k :: i <= k < r ==> s[k].active)
    decreases |s| - i
  {
    if i < |s| && s[i].active {
      FirstInactiveFromSpec(s, i + 1);
    }
  }

  /** The age scan picks the strictly oldest slot, the lowest index among
      equally old ones, provided its age exceeds -1; otherwise it returns -1. */
  lemma {:induction false} OldestFromSpec(s: seq<Slot>, now: real, i: nat, best: int, bestAge: real)
    requires i <= |s| && -1 <= best < i
    requires best == -1 ==> bestAge == -1.0 && forall k :: 0 <= k < i ==> Age(s[k], now) <= -1.0
    requires best >= 0 ==> bestAge == Age(s[best], now) && bestAge > -1.0 &&
                           (forall k :: 0 <= k < i ==> Age(s[k], now) <= bestAge) &&
                           (forall k :: 0 <= k < best ==> Age(s[k], now) < bestAge)
    ensures var r := OldestFrom(s, now, i, best, bestAge);
      (r == -1 && forall k :: 0 <= k < |s| ==> Age(s[k], now) <= -1.0) ||
      (0 <= r < |s| && Age(s[r], now) > -1.0 &&
       (forall k :: 0 <= k < |s| ==> Age(s[k], now) <= Age(s[r], now)) &&
       (forall k :: 0 <= k < r ==> Age(s[k], now) < Age(s[r], now)))
    decreases |s| - i
  {
    if i < |s| {
      if Age(s[i], now) > bestAge {
        OldestFromSpec(s, now, i + 1, i, Age(s[i], now));
      } else {
        OldestFromSpec(s, now, i + 1, best, bestAge);
      }
    }
  }

  /** `FindFreeSlot`'s choice: the lowest inactive slot if there is one;
      otherwise the slot with the strictly greatest `now - lastSeen`, the
      lowest index on ties; -1 only when no age exceeds -1, which cannot
      happen in a non-empty pool whose slots were all seen at or before
      `now`. */
  lemma FreeSlotChoice(s: seq<Slot>, now: real)
    ensures var r := FreeSlot(s, now);
      -1 <= r < |s| &&
      ((exists k :: 0 <= k < |s| && !s[k].active) ==>
         0 <= r && !s[r].active && forall k :: 0 <= k < r ==> s[k].active) &&
      ((forall k :: 0 <= k < |s| ==> s[k].active) ==>
         (r == -1 && forall k :: 0 <= k < |s| ==> Age(s[k], now) <= -1.0) ||
         (0 <= r && (forall k :: 0 <= k < |s| ==> Age(s[k], now) <= Age(s[r], now)) &&
                    (forall k :: 0 <= k < r ==> Age(s[k], now) < Age(s[r], now)))) &&
      (|s| > 0 && (forall k :: 0 <= k < |s| ==> s[k].lastSeen <= now) ==> 0 <= r)
  {
    FirstInactiveFromSpec(s, 0);
    OldestFromSpec(s, now, 0, -1, -1.0);
    if |s| > 0 && forall k :: 0 <= k < |s| ==> s[k].lastSeen <= now {
      assert Age(s[0], now) >= 0.0;
    }
  }

  /** One turn of the spawning loop for a leftover detection at p: the slot
      `FindFreeSlot` returns (switched off first when every slot was on)
      is spawned at p unless it was spawned less than `cooldown` ago, in
      which case it is left off. No other slot changes. */
  function SpawnStep(s: seq<Slot>, p: Point, now: real, cooldown: real): (r: seq<Slot>)
    ensures |r| == |s|
    ensures var f := FreeSlot(s, now);
      (f < 0 ==> r == s) &&
      (0 <= f < |s| ==> forall t :: 0 <= t < |s| && t != f ==> r[t] == s[t]) &&
      (0 <= f < |s| && now - s[f].lastSpawnT >= cooldown ==> r[f] == Spawned(s[f], p, now)) &&
      (0 <= f < |s| && now - s[f].lastSpawnT < cooldown ==> r[f] == Deactivated(s[f]))
  {
    FreeSlotChoice(s, now);
    FirstInactiveFromSpec(s, 0);
    var f := FreeSlot(s, now);
    var e := if Evicts(s, now) then s[f := Deactivated(s[f])] else s;
    if f < 0 || now - e[f].lastSpawnT < cooldown then e
    else e[f := Spawned(e[f], p, now)]
  }

  /** With an inactive slot, a leftover detection goes to the lowest one:
      it is spawned there once that slot's cooldown has run out, and
      otherwise nothing changes. */
  lemma SpawnIntoFree(s: seq<Slot>, p: Point, now: real, cooldown: real, f: nat)
    requires f < |s| && !s[f].active && forall k :: 0 <= k < f ==> s[k].active
    ensures now - s[f].lastSpawnT >= cooldown ==> SpawnStep(s, p, now, cooldown) == s[f := Spawned(s[f], p, now)]
    ensures now - s[f].lastSpawnT < cooldown ==> SpawnStep(s, p, now, cooldown) == s
  {
    FirstInactiveFromSpec(s, 0);
    assert FreeSlot(s, now) == f;
  }

  /** With every slot on, a leftover detection evicts the slot seen longest
      ago (the lowest such index, and only when its age exceeds -1). The
      detection is spawned there once that slot's cooldown has run out;
      otherwise the evicted slot stays off and the detection is dropped. */
  lemma SpawnIntoFull(s: seq<Slot>, p: Point, now: real, cooldown: real, f: nat)
    requires forall k :: 0 <= k < |s| ==> s[k].active
    requires f < |s| && Age(s[f], now) > -1.0
    requires forall k :: 0 <= k < |s| ==> Age(s[k], now) <= Age(s[f], now)
    requires forall k :: 0 <= k < f ==> Age(s[k], now) < Age(s[f], now)
    ensures now - s[f].lastSpawnT >= cooldown ==> SpawnStep(s, p, now, cooldown) == s[f := Spawned(s[f], p, now)]
    ensures now - s[f].lastSpawnT < cooldown ==> SpawnStep(s, p, now, cooldown) == s[f := Deactivated(s[f])]
  {
    FirstInactiveFromSpec(s, 0);
    OldestFromSpec(s, now, 0, -1, -1.0);
    assert FreeSlot(s, now) == f;
  }

  // ---------------- candidate pairs ----------------

  /** `(int track, int det, float d2)`. */
  datatype Pair = Pair(track: nat, det: nat, d2: real)

  /** A candidate of the assignment: an active slot and a detection within
      `assignMaxDistance` of it, with their squared distance. */
  predicate IsCandidate(slots: seq<Slot>, det: seq<Point>, r2: real, p: Pair)
  {
    p.track < |slots| && p.det < |det| && slots[p.track].active &&
    p.d2 == Dist2(slots[p.track].pos, det[p.det]) && p.d2 <= r2
  }

  predicate Before(p: Pair, q: Pair)
  {
    p.track < q.track || (p.track == q.track && p.det < q.det)
  }

  predicate SortedByD2(ps: seq<Pair>)
  {
    forall k, l :: 0 <= k < l < |ps| ==> ps[k].d2 <= ps[l].d2
  }

  /** The nested loops that build `pairs`: exactly the candidates, each once
      (the list is strictly increasing by slot, then detection). */
  method BuildCandidates(slots: seq<Slot>, det: seq<Point>, assignMaxDistance: real)
    returns (pairs: seq<Pair>)
    ensures forall p :: p in pairs <==> IsCandidate(slots, det, assignMaxDistance * assignMaxDistance, p)
    ensures forall k, l :: 0 <= k < l < |pairs| ==> Before(pairs[k], pairs[l])
  {
    var r2 := assignMaxDistance * assignMaxDistance;
    pairs := [];
    var i := 0;
    while i < |slots|
      invariant 0 <= i <= |slots|
      invariant forall p :: p in pairs <==> IsCandidate(slots, det, r2, p) && p.track < i
      invariant forall k, l :: 0 <= k < l < |pairs| ==> Before(pairs[k], pairs[l])
      invariant forall k :: 0 <= k < |pairs| ==> pairs[k].track < i
    {
      if slots[i].active {
        var p := slots[i].pos;
        var j := 0;
        while j < |det|
          invariant 0 <= j <= |det|
          invariant forall q :: q in pairs <==>
                      IsCandidate(slots, det, r2, q) && (q.track < i || (q.track == i && q.det < j))
          invariant forall k, l :: 0 <= k < l < |pairs| ==> Before(pairs[k], pairs[l])
          invariant forall k :: 0 <= k < |pairs| ==> pairs[k].track < i || (pairs[k].track == i && pairs[k].det < j)
        {
          var d2 := Dist2(p, det[j]);
          if d2 <= r2 {
            pairs := pairs + [Pair(i, j, d2)];
          }
          j := j + 1;
        }
      }
      i := i + 1;
    }
  }

  /** `pairs.Sort((a, b) => a.d2.CompareTo(b.d2))`: an in-place sort by
      squared distance. `List<T>.Sort` is not stable, so only the order by
      `d2` and the permutation are promised; ties may come in any order. */
  method SortByD2(a: array<Pair>)
    modifies a
    ensures SortedByD2(a[..])
    ensures multiset(a[..]) == old(multiset(a[..]))
  {
    if a.Length == 0 {
      return;
    }
    var i := 1;
    while i < a.Length
      invariant 1 <= i <= a.Length
      invariant SortedByD2(a[..i])
      invariant multiset(a[..]) == old(multiset(a[..]))
    {
      InsertAt(a, i);
      i := i + 1;
    }
    assert a[..i] == a[..];
  }

  /** One pass of the insertion: moves `a[i]` left past every larger `d2`
      so that the prefix up to i is sorted. */
  method InsertAt(a: array<Pair>, i: nat)
    requires 0 < i < a.Length && SortedByD2(a[..i])
    modifies a
    ensures SortedByD2(a[..i + 1])
    ensures multiset(a[..]) == old(multiset(a[..]))
  {
    var j := i;
    InsertStart(a[..], i);
    while j > 0 && a[j - 1].d2 > a[j].d2
      invariant 0 <= j <= i
      invariant Inserting(a[..], j, i)
      invariant multiset(a[..]) == old(multiset(a[..]))
    {
      ghost var before := a[..];
      Swap(a, j - 1, j);
      InsertStep(before, j, i);
      j := j - 1;
    }
    InsertDone(a[..], j, i);
  }

  /** The insertion loop's invariant: the prefix up to i is sorted apart
      from the element at j, and that element is no larger than anything
      after it in the prefix. */
  ghost predicate Inserting(s: seq<Pair>, j: nat, i: nat)
  {
    j <= i < |s| &&
    (forall k, l :: 0 <= k < l <= i && k != j && l != j ==> s[k].d2 <= s[l].d2) &&
    (forall l :: j < l <= i ==> s[j].d2 <= s[l].d2)
  }

  lemma InsertStart(s: seq<Pair>, i: nat)
    requires i < |s| && SortedByD2(s[..i])
    ensures Inserting(s, i, i)
  {
    forall k, l | 0 <= k < l <= i && k != i && l != i
      ensures s[k].d2 <= s[l].d2
    {
      assert s[..i][k] == s[k] && s[..i][l] == s[l];
    }
  }

  lemma InsertStep(s: seq<Pair>, j: nat, i: nat)
    requires 0 < j && Inserting(s, j, i) && s[j - 1].d2 > s[j].d2
    ensures Inserting(s[j - 1 := s[j]][j := s[j - 1]], j - 1, i)
  {
  }

  lemma InsertDone(s: seq<Pair>, j: nat, i: nat)
    requires Inserting(s, j, i) && (j == 0 || s[j - 1].d2 <= s[j].d2)
    ensures SortedByD2(s[..i + 1])
  {
  }

  /** Exchanges two entries of the array. */
  method Swap(a: array<Pair>, x: nat, y: nat)
    requires x < a.Length && y < a.Length
    modifies a
    ensures a[..] == old(a[..])[x := old(a[y])][y := old(a[x])]
    ensures multiset(a[..]) == old(multiset(a[..]))
  {
    a[x], a[y] := a[y], a[x];
  }
}
