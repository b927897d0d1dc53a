/** `PlayerPositionReceiverStable`: a fixed pool of `maxPlayers` slots that
    detections are matched to by distance, greedily and one to one; an
    unmatched detection is spawned into a free slot (or the longest-unseen
    one), a slot unseen for longer than the timeout is switched off, and
    the active positions are clustered every frame. */
module StableReceiver {
  import opened Geometry
  import opened Messages
  import opened Clustering
  import opened ClusterEffects
  import opened SlotPool

  /** The inspector settings the core reads. */
  datatype Settings = Settings(box: Box, timeoutSec: real, maxPlayers: nat,
                               assignMaxDistance: real, spawnCooldown: real,
                               clusterMinMembers: int, clusterRadius: real, maxClusters: int)

  /** Slot `t` is matched to detection `owner[t]` (or to none, -1): among
      active slots, exactly the matched ones have an owner, and a matched
      slot's `matchedPos` is its detection. */
  predicate MatchedTo(s: seq<Slot>, owner: seq<int>, det: seq<Point>)
    requires |owner| == |s|
  {
    forall t :: 0 <= t < |s| ==>
      owner[t] < |det| &&
      (s[t].active ==> (s[t].matchedThisFrame <==> owner[t] >= 0)) &&
      (s[t].active && owner[t] >= 0 ==> s[t].matchedPos == det[owner[t]])
  }

  /** No two active slots share a detection. */
  predicate InjectiveOnActive(s: seq<Slot>, owner: seq<int>)
    requires |owner| == |s|
  {
    forall t, u :: 0 <= t < |s| && 0 <= u < |s| && t != u && s[t].active && s[u].active && owner[t] >= 0 ==>
      owner[t] != owner[u]
  }

  /** The slot was not spawned, or was spawned now after its cooldown had
      run out. */
  predicate CooledDown(before: Slot, after: Slot, now: real, cooldown: real)
  {
    after.lastSpawnT == before.lastSpawnT ||
    (after.lastSpawnT == now && now - before.lastSpawnT >= cooldown)
  }

  /** The invariant of the spawning loop before detection j, against the
      slots `s0` the loop started from: owners are detections the greedy
      scan used or spawned detections below j; matches stay consistent
      and one to one; an active slot is untouched or freshly spawned at
      its detection; and every spawn respected the cooldown. */
  predicate SpawnInv(s0: seq<Slot>, s: seq<Slot>, owner: seq<int>, det: seq<Point>, used: seq<bool>,
                     j: nat, now: real, cooldown: real)
  {
    |s0| == |s| == |owner| && |used| == |det| && j <= |det| &&
    (forall t :: 0 <= t < |s| && owner[t] >= 0 ==> owner[t] < |det| && (used[owner[t]] || owner[t] < j)) &&
    MatchedTo(s, owner, det) && InjectiveOnActive(s, owner) &&
    (forall t :: 0 <= t < |s| && s[t].active ==>
       s[t] == s0[t] || (SpawnedAt(s[t], now) && 0 <= owner[t] && s[t].pos == det[owner[t]])) &&
    (forall t :: 0 <= t < |s| ==> CooledDown(s0[t], s[t], now, cooldown))
  }

  /** The slots during the greedy scan, against the slots `s0` it started
      from: a slot with an owner is matched to that detection, and nothing
      else about any slot has changed. */
  predicate CommitState(s0: seq<Slot>, s: seq<Slot>, owner: seq<int>, det: seq<Point>)
  {
    |s0| == |s| == |owner| &&
    forall t :: 0 <= t < |s| ==>
      -1 <= owner[t] < |det| && s[t] == (if owner[t] >= 0 then Matched(s0[t], det[owner[t]]) else s0[t])
  }

  predicate OneToOne(owner: seq<int>)
  {
    forall t, u :: 0 <= t < |owner| && 0 <= u < |owner| && t != u && owner[t] >= 0 ==> owner[t] != owner[u]
  }

  /** `detUsed[j]` holds exactly when some slot is matched to detection j. */
  predicate UsedIsOwned(used: seq<bool>, owner: seq<int>)
  {
    forall j :: 0 <= j < |used| ==> (used[j] <==> j in owner)
  }

  /** Every match is one of the first k scanned pairs. */
  ghost predicate FromPairs(ps: seq<Pair>, owner: seq<int>, k: nat)
  {
    forall t :: 0 <= t < |owner| && owner[t] >= 0 ==>
      exists k0 :: 0 <= k0 < k && k0 < |ps| && ps[k0].track == t && ps[k0].det == owner[t]
  }

  /** Each of the first k scanned pairs was committed, or was blocked by an
      earlier committed pair with the same slot or the same detection. */
  ghost predicate GreedyUpTo(ps: seq<Pair>, owner: seq<int>, k: nat)
  {
    forall k1 :: 0 <= k1 < k && k1 < |ps| ==>
      Committed(ps, owner, k1) || exists k' :: 0 <= k' < k1 && Committed(ps, owner, k') && Shares(ps[k'], ps[k1])
  }

  /** A pair whose slot is matched or whose detection is used is blocked by
      the earlier pair that made it so. */
  lemma CommitSkip(s0: seq<Slot>, s: seq<Slot>, owner: seq<int>, used: seq<bool>, ps: seq<Pair>, det: seq<Point>, k: nat)
    requires k < |ps| && ps[k].track < |s| && ps[k].det < |det| && |used| == |det|
    requires forall t :: 0 <= t < |s0| ==> !s0[t].matchedThisFrame
    requires CommitState(s0, s, owner, det) && UsedIsOwned(used, owner)
    requires FromPairs(ps, owner, k) && GreedyUpTo(ps, owner, k)
    requires s[ps[k].track].matchedThisFrame || used[ps[k].det]
    ensures FromPairs(ps, owner, k + 1) && GreedyUpTo(ps, owner, k + 1)
  {
    var p := ps[k];
    var t: int;
    if s[p.track].matchedThisFrame {
      t := p.track;
      assert owner[t] >= 0;
    } else {
      assert p.det in owner;
      t :| 0 <= t < |owner| && owner[t] == p.det;
    }
    var k0 :| 0 <= k0 < k && k0 < |ps| && ps[k0].track == t && ps[k0].det == owner[t];
    assert Committed(ps, owner, k0) && Shares(ps[k0], p);
    forall k1 | 0 <= k1 < k + 1 && k1 < |ps|
      ensures Committed(ps, owner, k1) || exists k' :: 0 <= k' < k1 && Committed(ps, owner, k') && Shares(ps[k'], ps[k1])
    {
      if k1 == k {
        assert 0 <= k0 < k1 && Committed(ps, owner, k0) && Shares(ps[k0], ps[k1]);
      }
    }
  }

  /** Committing a pair whose slot and detection are both free keeps the
      scan's state consistent and one to one. */
  lemma CommitTakeState(s0: seq<Slot>, s: seq<Slot>, owner: seq<int>, used: seq<bool>, ps: seq<Pair>, det: seq<Point>, k: nat)
    requires k < |ps| && ps[k].track < |s| && ps[k].det < |det| && |used| == |det|
    requires forall t :: 0 <= t < |s0| ==> !s0[t].matchedThisFrame
    requires CommitState(s0, s, owner, det) && OneToOne(owner) && UsedIsOwned(used, owner)
    requires !s[ps[k].track].matchedThisFrame && !used[ps[k].det]
    ensures var p := ps[k]; var owner' := owner[p.track := p.det];
      CommitState(s0, s[p.track := Matched(s[p.track], det[p.det])], owner', det) &&
      OneToOne(owner') && UsedIsOwned(used[p.det := true], owner')
  {
    var p := ps[k];
    var owner' := owner[p.track := p.det];
    assert owner[p.track] == -1;
    assert p.det !in owner;
    forall j | 0 <= j < |used| ensures (used[p.det := true][j] <==> j in owner') {
      if j == p.det {
        assert owner'[p.track] == j;
      } else {
        if j in owner {
          var t :| 0 <= t < |owner| && owner[t] == j;
          assert owner'[t] == j;
        }
        if j in owner' {
          var t :| 0 <= t < |owner'| && owner'[t] == j;
          assert owner[t] == j;
        }
      }
    }
  }

  /** Committing pair k keeps every earlier pair committed or blocked, and
      pair k itself is committed. */
  lemma CommitTakeOrder(s0: seq<Slot>, s: seq<Slot>, owner: seq<int>, used: seq<bool>, ps: seq<Pair>, det: seq<Point>, k: nat)
    requires k < |ps| && ps[k].track < |s| && ps[k].det < |det| && |used| == |det|
    requires forall t :: 0 <= t < |s0| ==> !s0[t].matchedThisFrame
    requires CommitState(s0, s, owner, det)
    requires FromPairs(ps, owner, k) && GreedyUpTo(ps, owner, k)
    requires !s[ps[k].track].matchedThisFrame
    ensures var p := ps[k]; var owner' := owner[p.track := p.det];
      FromPairs(ps, owner', k + 1) && GreedyUpTo(ps, owner', k + 1)
  {
    var p := ps[k];
    var owner' := owner[p.track := p.det];
    assert owner[p.track] == -1;
    forall k1 | 0 <= k1 < |ps| && Committed(ps, owner, k1) ensures Committed(ps, owner', k1) {
    }
    assert Committed(ps, owner', k);
    forall t | 0 <= t < |owner'| && owner'[t] >= 0
      ensures exists k0 :: 0 <= k0 < k + 1 && k0 < |ps| && ps[k0].track == t && ps[k0].det == owner'[t]
    {
      if t == p.track {
        assert ps[k].track == t && ps[k].det == owner'[t];
      } else {
        var k0 :| 0 <= k0 < k && k0 < |ps| && ps[k0].track == t && ps[k0].det == owner[t];
        assert ps[k0].det == owner'[t];
      }
    }
  }

  /** Over pairs sorted by squared distance, the greedy scan leaves every
      pair committed or blocked by a committed pair that shares its slot or
      detection and is no farther apart. */
  lemma BlockedByCloser(ps: seq<Pair>, owner: seq<int>)
    requires SortedByD2(ps) && GreedyUpTo(ps, owner, |ps|)
    ensures forall k :: 0 <= k < |ps| ==>
              Committed(ps, owner, k) ||
              exists k' :: 0 <= k' < |ps| && Committed(ps, owner, k') && Shares(ps[k'], ps[k]) && ps[k'].d2 <= ps[k].d2
  {
    forall k | 0 <= k < |ps| && !Committed(ps, owner, k)
      ensures exists k' :: 0 <= k' < |ps| && Committed(ps, owner, k') && Shares(ps[k'], ps[k]) && ps[k'].d2 <= ps[k].d2
    {
      var k' :| 0 <= k' < k && Committed(ps, owner, k') && Shares(ps[k'], ps[k]);
      assert ps[k'].d2 <= ps[k].d2;
    }
  }

  /** An eviction keeps the spawning loop's invariant: it only switches a
      slot off. */
  lemma SpawnEvict(s0: seq<Slot>, s: seq<Slot>, owner: seq<int>, det: seq<Point>, used: seq<bool>,
                   j: nat, now: real, cooldown: real, e: int)
    requires SpawnInv(s0, s, owner, det, used, j, now, cooldown) && 0 <= e < |s|
    ensures SpawnInv(s0, s[e := Deactivated(s[e])], owner, det, used, j, now, cooldown)
  {
  }

  /** Moving on to the next detection without a spawn keeps the invariant. */
  lemma SpawnAdvance(s0: seq<Slot>, s: seq<Slot>, owner: seq<int>, det: seq<Point>, used: seq<bool>,
                     j: nat, now: real, cooldown: real)
    requires SpawnInv(s0, s, owner, det, used, j, now, cooldown) && j < |det|
    ensures SpawnInv(s0, s, owner, det, used, j + 1, now, cooldown)
  {
  }

  /** Spawning unused detection j into an inactive slot whose cooldown has
      run out keeps the invariant, with that slot now matched to j. */
  lemma SpawnTake(s0: seq<Slot>, s: seq<Slot>, owner: seq<int>, det: seq<Point>, used: seq<bool>,
                  j: nat, now: real, cooldown: real, f: int)
    requires SpawnInv(s0, s, owner, det, used, j, now, cooldown) && j < |det| && !used[j]
    requires 0 <= f < |s| && !s[f].active && now - s[f].lastSpawnT >= cooldown
    ensures SpawnInv(s0, s[f := Spawned(s[f], det[j], now)], owner[f := j], det, used, j + 1, now, cooldown)
  {
    var s' := s[f := Spawned(s[f], det[j], now)];
    var owner' := owner[f := j];
    assert forall t :: 0 <= t < |s| && owner[t] >= 0 ==> owner[t] != j;
  }

  /** Pair k of the scan was committed: its slot is matched to its detection. */
  predicate Committed(ps: seq<Pair>, owner: seq<int>, k: nat)
  {
    k < |ps| && ps[k].track < |owner| && owner[ps[k].track] == ps[k].det
  }

  predicate Shares(p: Pair, q: Pair)
  {
    p.track == q.track || p.det == q.det
  }

  /** What the timeout sweep does to one slot. */
  function Swept(s: Slot, now: real, timeoutSec: real): (r: Slot)
    ensures r.active <==> s.active && now - s.lastSeen <= timeoutSec
    ensures r == s || r == Deactivated(s)
  {
    if s.active && now - s.lastSeen > timeoutSec then Deactivated(s) else s
  }

  /** The positions of the active slots, in slot order: the point list
      `HandleClusters` hands to `FindClusters`. */
  function ActivePositions(s: seq<Slot>): seq<Point>
  {
    if s == [] then []
    else ActivePositions(s[..|s| - 1]) + (if s[|s| - 1].active then [s[|s| - 1].pos] else [])
  }

  /** A point is listed exactly when some active slot is there, and the list
      is no longer than the pool. */
  lemma {:induction false} ActivePositionsSpec(s: seq<Slot>)
    ensures |ActivePositions(s)| <= |s|
    ensures forall p :: p in ActivePositions(s) <==> exists t :: 0 <= t < |s| && s[t].active && s[t].pos == p
  {
    if s != [] {
      var s' := s[..|s| - 1];
      ActivePositionsSpec(s');
      forall p | p in ActivePositions(s)
        ensures exists t :: 0 <= t < |s| && s[t].active && s[t].pos == p
      {
        if p in ActivePositions(s') {
          var t :| 0 <= t < |s'| && s'[t].active && s'[t].pos == p;
          assert s[t] == s'[t];
        } else {
          assert s[|s| - 1].active && s[|s| - 1].pos == p;
        }
      }
      forall p | exists t :: 0 <= t < |s| && s[t].active && s[t].pos == p
        ensures p in ActivePositions(s)
      {
        var t :| 0 <= t < |s| && s[t].active && s[t].pos == p;
        if t < |s| - 1 {
          assert s'[t] == s[t];
        }
      }
    }
  }

  /** One turn of the smoothing loop. */
  function Stepped(s: Slot, box: Box, smooth: Smoother, now: real): (r: Slot)
    ensures r.active == s.active && r.matchedThisFrame == s.matchedThisFrame
    ensures r.matchedPos == s.matchedPos && r.lastSpawnT == s.lastSpawnT
    ensures s.active && s.matchedThisFrame ==> r == Smoothed(s, box, smooth, now)
    ensures !(s.active && s.matchedThisFrame) ==> r == s
  {
    if s.active && s.matchedThisFrame then Smoothed(s, box, smooth, now) else s
  }

  function Centers(cs: seq<Cluster>): (r: seq<Point>)
    ensures |r| == |cs| && forall k :: 0 <= k < |cs| ==> r[k] == cs[k].center
  {
    seq(|cs|, k requires 0 <= k < |cs| => cs[k].center)
  }

  /** After the greedy scan from unmatched slots, the active slots are
      matched exactly to their owners, one to one, and every owner is a used
      detection. */
  lemma CommitGivesMatch(s0: seq<Slot>, s: seq<Slot>, owner: seq<int>, used: seq<bool>, det: seq<Point>)
    requires forall t :: 0 <= t < |s0| ==> !s0[t].matchedThisFrame
    requires CommitState(s0, s, owner, det) && OneToOne(owner) && UsedIsOwned(used, owner) && |used| == |det|
    ensures MatchedTo(s, owner, det) && InjectiveOnActive(s, owner)
    ensures forall t :: 0 <= t < |s| && owner[t] >= 0 ==> owner[t] < |det| && used[owner[t]]
  {
    forall t | 0 <= t < |s| && owner[t] >= 0 ensures used[owner[t]] {
      assert owner[t] in owner;
    }
  }

  /** Smoothing keeps the matching, and leaves every active matched slot
      seen now and inside the world rectangle. */
  lemma PhasesMatch(s: seq<Slot>, s': seq<Slot>, owner: seq<int>, det: seq<Point>, box: Box, smooth: Smoother, now: real)
    requires |s| == |s'| == |owner| && MatchedTo(s, owner, det) && InjectiveOnActive(s, owner)
    requires forall t :: 0 <= t < |s| ==> s'[t] == Stepped(s[t], box, smooth, now)
    ensures MatchedTo(s', owner, det) && InjectiveOnActive(s', owner)
    ensures forall t :: 0 <= t < |s'| && s'[t].active && s'[t].matchedThisFrame ==>
              s'[t].lastSeen == now && (box.Valid() ==> box.Contains(s'[t].pos))
  {
  }

  /** Through the four phases of `OnPosition`, an active slot that ends
      unmatched is exactly as it was apart from the cleared flag, and every
      spawn respected the cooldown. */
  lemma PhasesKeep(sOld: seq<Slot>, sReset: seq<Slot>, sCommit: seq<Slot>, owner1: seq<int>,
                   sSpawn: seq<Slot>, owner2: seq<int>, sFinal: seq<Slot>, det: seq<Point>, used: seq<bool>,
                   box: Box, smooth: Smoother, now: real, cooldown: real)
    requires |sOld| == |sReset| && forall t :: 0 <= t < |sOld| ==> sReset[t] == sOld[t].(matchedThisFrame := false)
    requires CommitState(sReset, sCommit, owner1, det)
    requires SpawnInv(sCommit, sSpawn, owner2, det, used, |det|, now, cooldown)
    requires |sFinal| == |sSpawn| && forall t :: 0 <= t < |sSpawn| ==> sFinal[t] == Stepped(sSpawn[t], box, smooth, now)
    ensures forall t :: 0 <= t < |sFinal| && sFinal[t].active && !sFinal[t].matchedThisFrame ==>
              sFinal[t] == sOld[t].(matchedThisFrame := false)
    ensures forall t :: 0 <= t < |sFinal| ==> CooledDown(sOld[t], sFinal[t], now, cooldown)
  {
    forall t | 0 <= t < |sFinal| ensures CooledDown(sOld[t], sFinal[t], now, cooldown) {
      assert sCommit[t].lastSpawnT == sOld[t].lastSpawnT;
      assert CooledDown(sCommit[t], sSpawn[t], now, cooldown);
    }
  }

  /** The slots after `ResetMatched`: every `matchedThisFrame` cleared. */
  function Cleared(s: seq<Slot>): (r: seq<Slot>)
    ensures |r| == |s| && forall t :: 0 <= t < |s| ==> r[t] == s[t].(matchedThisFrame := false)
  {
    seq(|s|, t requires 0 <= t < |s| => s[t].(matchedThisFrame := false))
  }

  /** The slots after the greedy scan has committed slot t to detection
      `owner[t]` wherever that is not -1. */
  function CommitAll(s: seq<Slot>, owner: seq<int>, det: seq<Point>): (r: seq<Slot>)
    requires |owner| == |s| && forall t :: 0 <= t < |s| ==> -1 <= owner[t] < |det|
    ensures CommitState(s, r, owner, det)
  {
    seq(|s|, t requires 0 <= t < |s| => if owner[t] >= 0 then Matched(s[t], det[owner[t]]) else s[t])
  }

  /** `detUsed` after the greedy scan: the detections some slot took. */
  function UsedBy(owner: seq<int>, n: nat): (r: seq<bool>)
    ensures |r| == n && UsedIsOwned(r, owner)
  {
    seq(n, j => j in owner)
  }

  /** The slots after the spawning loop has handled the detections below j:
      each one the greedy scan left unused takes one `SpawnStep`, in order. */
  function SpawnUpTo(s: seq<Slot>, det: seq<Point>, used: seq<bool>, j: nat, now: real, cooldown: real): (r: seq<Slot>)
    requires j <= |det| == |used|
    ensures |r| == |s|
  {
    if j == 0 then s
    else
      var r := SpawnUpTo(s, det, used, j - 1, now, cooldown);
      if used[j - 1] then r else SpawnStep(r, det[j - 1], now, cooldown)
  }

  /** The slots after the smoothing loop. */
  function StepAll(s: seq<Slot>, box: Box, smooth: Smoother, now: real): (r: seq<Slot>)
    ensures |r| == |s| && forall t :: 0 <= t < |s| ==> r[t] == Stepped(s[t], box, smooth, now)
  {
    seq(|s|, t requires 0 <= t < |s| => Stepped(s[t], box, smooth, now))
  }

  /** A greedy one-to-one assignment of the detections to the slots `s`
      as they were before the message: every assigned pair is a candidate
      (an active slot within `assignMaxDistance`), and every candidate pair
      is assigned or blocked by an assigned candidate pair sharing its slot
      or its detection and no farther apart. */
  ghost predicate Assignment(s: seq<Slot>, det: seq<Point>, r2: real, a: seq<int>)
  {
    |a| == |s| && OneToOne(a) &&
    (forall t :: 0 <= t < |s| ==> -1 <= a[t] < |det|) &&
    (forall t :: 0 <= t < |s| && a[t] >= 0 ==> IsCandidate(s, det, r2, Pair(t, a[t], Dist2(s[t].pos, det[a[t]])))) &&
    (forall p :: IsCandidate(s, det, r2, p) ==>
       a[p.track] == p.det ||
       exists q :: IsCandidate(s, det, r2, q) && a[q.track] == q.det && Shares(q, p) && q.d2 <= p.d2)
  }

  /** The slots `OnPosition` leaves, given the detections and the greedy
      assignment: cleared, committed, spawned into, then smoothed. */
  function AfterPosition(s: seq<Slot>, a: seq<int>, det: seq<Point>, box: Box, cooldown: real,
                         smooth: Smoother, now: real): (r: seq<Slot>)
    requires |a| == |s| && forall t :: 0 <= t < |s| ==> -1 <= a[t] < |det|
    ensures |r| == |s|
  {
    StepAll(SpawnUpTo(CommitAll(Cleared(s), a, det), det, UsedBy(a, |det|), |det|, now, cooldown), box, smooth, now)
  }

  /** The sorted pairs are the candidates over the slots as they were
      before the message (clearing the match flags changes no candidate). */
  lemma ScannedAreCandidates(s0: seq<Slot>, det: seq<Point>, r2: real, pairs: seq<Pair>, ps: seq<Pair>)
    requires forall p :: p in pairs <==> IsCandidate(Cleared(s0), det, r2, p)
    requires multiset(ps) == multiset(pairs)
    ensures forall p :: p in ps <==> IsCandidate(s0, det, r2, p)
  {
    forall p ensures p in ps <==> IsCandidate(s0, det, r2, p) {
      assert p in ps <==> p in multiset(ps);
      assert p in pairs <==> p in multiset(pairs);
    }
  }

  /** The greedy scan over all candidates sorted by squared distance yields
      a greedy assignment. */
  lemma GreedyIsAssignment(s0: seq<Slot>, det: seq<Point>, r2: real, ps: seq<Pair>, a: seq<int>)
    requires forall p :: p in ps <==> IsCandidate(s0, det, r2, p)
    requires |a| == |s0| && OneToOne(a) && forall t :: 0 <= t < |s0| ==> -1 <= a[t] < |det|
    requires SortedByD2(ps) && FromPairs(ps, a, |ps|) && GreedyUpTo(ps, a, |ps|)
    ensures Assignment(s0, det, r2, a)
  {
    BlockedByCloser(ps, a);
    forall t | 0 <= t < |s0| && a[t] >= 0
      ensures IsCandidate(s0, det, r2, Pair(t, a[t], Dist2(s0[t].pos, det[a[t]])))
    {
      var k0 :| 0 <= k0 < |ps| && ps[k0].track == t && ps[k0].det == a[t];
      assert ps[k0] in ps;
    }
    forall p | IsCandidate(s0, det, r2, p)
      ensures a[p.track] == p.det ||
              exists q :: IsCandidate(s0, det, r2, q) && a[q.track] == q.det && Shares(q, p) && q.d2 <= p.d2
    {
      var k :| 0 <= k < |ps| && ps[k] == p;
      if !Committed(ps, a, k) {
        var k' :| 0 <= k' < |ps| && Committed(ps, a, k') && Shares(ps[k'], ps[k]) && ps[k'].d2 <= ps[k].d2;
        assert ps[k'] in ps;
      }
    }
  }

  /** One detection arriving while no slot is on takes slot 0, once that
      slot's cooldown has run out: slot 0 comes on, matched to the
      detection, spawned and seen now, and every other slot only has its
      match flag cleared. */
  lemma IdlePoolSpawns(s: seq<Slot>, a: seq<int>, d: Point, box: Box, r2: real, cooldown: real,
                       smooth: Smoother, now: real)
    requires |s| > 0 && forall t :: 0 <= t < |s| ==> !s[t].active
    requires Assignment(s, [d], r2, a)
    requires now - s[0].lastSpawnT >= cooldown
    ensures var r := AfterPosition(s, a, [d], box, cooldown, smooth, now);
      r[0].active && r[0].matchedThisFrame && r[0].matchedPos == d &&
      r[0].lastSpawnT == now && r[0].lastSeen == now &&
      forall t :: 1 <= t < |s| ==> r[t] == s[t].(matchedThisFrame := false)
  {
    assert forall t :: 0 <= t < |s| ==> a[t] == -1;
    var c := Cleared(s);
    assert CommitAll(c, a, [d]) == c;
    assert 0 !in a;
    assert UsedBy(a, 1) == [false];
    SpawnIntoFree(c, d, now, cooldown, 0);
    assert SpawnUpTo(c, [d], [false], 1, now, cooldown) == c[0 := Spawned(c[0], d, now)];
  }

  class Receiver {
    const settings: Settings
    /** `Tracked[] slots`. */
    const slots: array<Slot>
    /** The cluster effect objects and their pool. */
    const fx: ClusterFx
    /** The last `/Count` value, clamped; nothing else reads it. */
    var countHint: int

    ghost predicate Valid()
      reads this, fx
    {
      slots.Length == settings.maxPlayers && fx.Valid()
    }

    /** `Awake`: `maxPlayers` slots, all inactive at the origin, never seen
        and never spawned; the cluster pool preloads `max(1, maxClusters)`. */
    constructor Awake(settings: Settings, burstFires: bool, sustainFires: bool)
      ensures Valid() && this.settings == settings && fresh(slots) && fresh(fx)
      ensures forall t :: 0 <= t < slots.Length ==> slots[t] == Idle
      ensures fx.objects == [] && countHint == 0
    {
      this.settings := settings;
      slots := new Slot[settings.maxPlayers](_ => Idle);
      fx := new ClusterFx(settings.maxClusters, burstFires, sustainFires);
      countHint := 0;
    }

    /** `OnCount(c)`: only records the clamped count. */
    method OnCount(c: int)
      modifies this
      ensures countHint == ClampInt(c, 0, settings.maxPlayers)
      ensures 0 <= countHint <= settings.maxPlayers
    {
      countHint := ClampInt(c, 0, settings.maxPlayers);
    }

    /** `FindFreeSlot()`: the lowest inactive slot; otherwise the slot seen
        longest ago, which is switched off before it is returned. */
    method FindFreeSlot(now: real) returns (idx: int)
      modifies slots
      ensures -1 <= idx < slots.Length
      ensures idx == FreeSlot(old(slots[..]), now)
      ensures idx >= 0 ==> !slots[idx].active
      ensures slots[..] == if Evicts(old(slots[..]), now)
                           then old(slots[..])[idx := Deactivated(old(slots[..])[idx])]
                           else old(slots[..])
    {
      FreeSlotChoice(slots[..], now);
      var i := 0;
      while i < slots.Length
        invariant 0 <= i <= slots.Length
        invariant FirstInactiveFrom(slots[..], i) == FirstInactiveFrom(slots[..], 0)
      {
        if !slots[i].active {
          return i;
        }
        i := i + 1;
      }
      var oldest, oldestAge := -1, -1.0;
      i := 0;
      while i < slots.Length
        invariant 0 <= i <= slots.Length && -1 <= oldest < i
        invariant OldestFrom(slots[..], now, i, oldest, oldestAge) == FreeSlot(slots[..], now)
      {
        var age := now - slots[i].lastSeen;
        if age > oldestAge {
          oldestAge := age;
          oldest := i;
        }
        i := i + 1;
      }
      if oldest >= 0 {
        slots[oldest] := Deactivated(slots[oldest]);
      }
      idx := oldest;
    }

    /** The first step of `OnPosition`: every `matchedThisFrame` is cleared. */
    method ResetMatched()
      modifies slots
      ensures forall t :: 0 <= t < slots.Length ==> slots[t] == old(slots[t]).(matchedThisFrame := false)
    {
      var i := 0;
      while i < slots.Length
        invariant 0 <= i <= slots.Length
        invariant forall t :: 0 <= t < i ==> slots[t] == old(slots[t]).(matchedThisFrame := false)
        invariant forall t :: i <= t < slots.Length ==> slots[t] == old(slots[t])
      {
        slots[i] := slots[i].(matchedThisFrame := false);
        i := i + 1;
      }
    }

    /** The greedy scan over the sorted pairs: a pair is committed unless its
        slot is already matched or its detection already used. The result
        is one to one, every committed match is a scanned pair, and every
        pair not committed was blocked by a committed pair scanned before
        it, sharing its slot or its detection. */
    method CommitGreedy(ps: seq<Pair>, det: seq<Point>) returns (detUsed: array<bool>, ghost owner: seq<int>)
      requires forall k :: 0 <= k < |ps| ==> ps[k].track < slots.Length && ps[k].det < |det|
      requires forall t :: 0 <= t < slots.Length ==> !slots[t].matchedThisFrame
      modifies slots
      ensures fresh(detUsed) && detUsed.Length == |det|
      ensures CommitState(old(slots[..]), slots[..], owner, det) && OneToOne(owner)
      ensures UsedIsOwned(detUsed[..], owner)
      ensures FromPairs(ps, owner, |ps|) && GreedyUpTo(ps, owner, |ps|)
    {
      ghost var s0 := slots[..];
      detUsed := new bool[|det|](_ => false);
      owner := seq(slots.Length, _ => -1);
      var k := 0;
      while k < |ps|
        invariant 0 <= k <= |ps| && detUsed.Length == |det|
        invariant CommitState(s0, slots[..], owner, det) && OneToOne(owner)
        invariant UsedIsOwned(detUsed[..], owner)
        invariant FromPairs(ps, owner, k) && GreedyUpTo(ps, owner, k)
      {
        var p := ps[k];
        if slots[p.track].matchedThisFrame {
          CommitSkip(s0, slots[..], owner, detUsed[..], ps, det, k);
        } else if detUsed[p.det] {
          CommitSkip(s0, slots[..], owner, detUsed[..], ps, det, k);
        } else {
          ghost var s, u := slots[..], detUsed[..];
          CommitTakeState(s0, s, owner, u, ps, det, k);
          CommitTakeOrder(s0, s, owner, u, ps, det, k);
          slots[p.track] := Matched(slots[p.track], det[p.det]);
          detUsed[p.det] := true;
          owner := owner[p.track := p.det];
          assert slots[..] == s[p.track := Matched(s[p.track], det[p.det])];
          assert detUsed[..] == u[p.det := true];
        }
        k := k + 1;
      }
    }

    /** The spawning loop: every detection left unused takes the slot
        `FindFreeSlot` gives (which may evict one) unless that slot was
        spawned less than `spawnCooldown` ago; the eviction stands even
        when the cooldown then skips the spawn. */
    method SpawnUnmatched(det: seq<Point>, detUsed: array<bool>, now: real, ghost owner0: seq<int>)
      returns (ghost owner: seq<int>)
      requires detUsed.Length == |det| && |owner0| == slots.Length
      requires forall t :: 0 <= t < slots.Length && owner0[t] >= 0 ==> owner0[t] < |det| && detUsed[owner0[t]]
      requires MatchedTo(slots[..], owner0, det) && InjectiveOnActive(slots[..], owner0)
      modifies slots
      ensures slots[..] == SpawnUpTo(old(slots[..]), det, detUsed[..], |det|, now, settings.spawnCooldown)
      ensures SpawnInv(old(slots[..]), slots[..], owner, det, detUsed[..], |det|, now, settings.spawnCooldown)
    {
      ghost var s0 := slots[..];
      owner := owner0;
      var j := 0;
      while j < |det|
        invariant 0 <= j <= |det|
        invariant slots[..] == SpawnUpTo(s0, det, detUsed[..], j, now, settings.spawnCooldown)
        invariant SpawnInv(s0, slots[..], owner, det, detUsed[..], j, now, settings.spawnCooldown)
      {
        if !detUsed[j] {
          owner := SpawnOne(det, detUsed, j, now, s0, owner);
        } else {
          SpawnAdvance(s0, slots[..], owner, det, detUsed[..], j, now, settings.spawnCooldown);
        }
        j := j + 1;
      }
    }

    /** One turn of the spawning loop, for an unused detection j: the slot
        `FindFreeSlot` returns is spawned at the detection unless its
        cooldown has not run out, and an eviction stands either way. */
    method SpawnOne(det: seq<Point>, detUsed: array<bool>, j: nat, now: real, ghost s0: seq<Slot>, ghost owner0: seq<int>)
      returns (ghost owner: seq<int>)
      requires j < |det| && detUsed.Length == |det| && !detUsed[j]
      requires SpawnInv(s0, slots[..], owner0, det, detUsed[..], j, now, settings.spawnCooldown)
      modifies slots
      ensures slots[..] == SpawnStep(old(slots[..]), det[j], now, settings.spawnCooldown)
      ensures SpawnInv(s0, slots[..], owner, det, detUsed[..], j + 1, now, settings.spawnCooldown)
    {
      owner := owner0;
      ghost var s := slots[..];
      var free := FindFreeSlot(now);
      if Evicts(s, now) {
        SpawnEvict(s0, s, owner, det, detUsed[..], j, now, settings.spawnCooldown, free);
      }
      if free >= 0 {
        if now - slots[free].lastSpawnT < settings.spawnCooldown {
          SpawnAdvance(s0, slots[..], owner, det, detUsed[..], j, now, settings.spawnCooldown);
          return;
        }
        ghost var s1 := slots[..];
        slots[free] := Spawned(slots[free], det[j], now);
        SpawnTake(s0, s1, owner, det, detUsed[..], j, now, settings.spawnCooldown, free);
        owner := owner[free := j];
        assert slots[..] == s1[free := Spawned(s1[free], det[j], now)];
      } else {
        SpawnAdvance(s0, slots[..], owner, det, detUsed[..], j, now, settings.spawnCooldown);
      }
    }

    /** The smoothing loop: every active matched slot takes one smoothing
        step towards its matched position, clamped to the world rectangle,
        and is seen now; every other slot is left as it is. */
    method SmoothMatched(now: real, smooth: Smoother)
      modifies slots
      ensures forall t :: 0 <= t < slots.Length ==> slots[t] == Stepped(old(slots[t]), settings.box, smooth, now)
    {
      var i := 0;
      while i < slots.Length
        invariant 0 <= i <= slots.Length
        invariant forall t :: 0 <= t < i ==> slots[t] == Stepped(old(slots[t]), settings.box, smooth, now)
        invariant forall t :: i <= t < slots.Length ==> slots[t] == old(slots[t])
      {
        var tr := slots[i];
        if tr.active {
          if tr.matchedThisFrame {
            var next := smooth(tr.pos, tr.matchedPos, tr.vel);
            slots[i] := tr.(pos := settings.box.ClampPoint(next.pos), vel := next.vel, lastSeen := now);
          }
        }
        i := i + 1;
      }
    }

    /** The matching phases of `OnPosition`: clear the matches, build the
        candidate pairs, sort them by squared distance and commit them
        greedily. The result is a greedy assignment over the slots as they
        were, every slot is cleared and then committed to its assigned
        detection, and `detUsed` marks exactly the assigned detections. */
    method Assign(det: seq<Point>) returns (detUsed: array<bool>, ghost a: seq<int>)
      modifies slots
      ensures fresh(detUsed) && detUsed.Length == |det|
      ensures Assignment(old(slots[..]), det, settings.assignMaxDistance * settings.assignMaxDistance, a)
      ensures slots[..] == CommitAll(Cleared(old(slots[..])), a, det)
      ensures detUsed[..] == UsedBy(a, |det|)
    {
      ghost var s0 := slots[..];
      ResetMatched();
      ghost var sReset := slots[..];
      assert sReset == Cleared(s0);
      var pairs := BuildCandidates(slots[..], det, settings.assignMaxDistance);
      var sorted := new Pair[|pairs|](k requires 0 <= k < |pairs| => pairs[k]);
      assert sorted[..] == pairs;
      SortByD2(sorted);
      var ps := sorted[..];
      ScannedAreCandidates(s0, det, settings.assignMaxDistance * settings.assignMaxDistance, pairs, ps);
      assert forall k :: 0 <= k < |ps| ==> ps[k] in ps;
      detUsed, a := CommitGreedy(ps, det);
      GreedyIsAssignment(s0, det, settings.assignMaxDistance * settings.assignMaxDistance, ps, a);
      assert slots[..] == CommitAll(sReset, a, det);
      assert detUsed[..] == UsedBy(a, |det|);
    }

    /** `OnPosition(m)`: reads the detections, assigns them greedily to the
        slots by distance, spawns the detections left over, and smooths the
        matched slots. The new slots are `AfterPosition` of the old ones
        under a greedy assignment `chosen`. Afterwards no two active slots
        share a detection; each active matched slot holds its detection as
        `matchedPos`, was seen now and lies in the world rectangle; each
        active unmatched slot is as it was; and no slot was spawned within
        `spawnCooldown` of its previous spawn. */
    method OnPosition(m: seq<OscArg>, now: real, smooth: Smoother)
      returns (det: seq<Point>, ghost chosen: seq<int>, ghost owner: seq<int>)
      requires Valid()
      modifies slots
      ensures det == Detections(settings.box, m, PairLimit(m, settings.maxPlayers))
      ensures |det| <= settings.maxPlayers
      ensures Assignment(old(slots[..]), det, settings.assignMaxDistance * settings.assignMaxDistance, chosen)
      ensures slots[..] == AfterPosition(old(slots[..]), chosen, det, settings.box, settings.spawnCooldown, smooth, now)
      ensures |owner| == slots.Length && MatchedTo(slots[..], owner, det) && InjectiveOnActive(slots[..], owner)
      ensures forall t :: 0 <= t < slots.Length && slots[t].active && slots[t].matchedThisFrame ==>
                slots[t].lastSeen == now && (settings.box.Valid() ==> settings.box.Contains(slots[t].pos))
      ensures forall t :: 0 <= t < slots.Length && slots[t].active && !slots[t].matchedThisFrame ==>
                slots[t] == old(slots[t]).(matchedThisFrame := false)
      ensures forall t :: 0 <= t < slots.Length ==> CooledDown(old(slots[t]), slots[t], now, settings.spawnCooldown)
    {
      det := ReadDetections(settings.box, m, settings.maxPlayers);
      ghost var sOld := slots[..];
      var detUsed;
      detUsed, chosen := Assign(det);
      ghost var sReset, sCommit := Cleared(sOld), slots[..];
      CommitGivesMatch(sReset, sCommit, chosen, detUsed[..], det);
      owner := SpawnUnmatched(det, detUsed, now, chosen);
      ghost var sSpawn := slots[..];
      SmoothMatched(now, smooth);
      assert slots[..] == StepAll(sSpawn, settings.box, smooth, now);
      PhasesMatch(sSpawn, slots[..], owner, det, settings.box, smooth, now);
      PhasesKeep(sOld, sReset, sCommit, chosen, sSpawn, owner, slots[..], det, detUsed[..],
                 settings.box, smooth, now, settings.spawnCooldown);
    }

    /** The timeout sweep of `Update`: exactly the active slots unseen for
        longer than `timeoutSec` are switched off. */
    method Sweep(now: real)
      modifies slots
      ensures forall t :: 0 <= t < slots.Length ==> slots[t] == Swept(old(slots[t]), now, settings.timeoutSec)
    {
      var i := 0;
      while i < slots.Length
        invariant 0 <= i <= slots.Length
        invariant forall t :: 0 <= t < i ==> slots[t] == Swept(old(slots[t]), now, settings.timeoutSec)
        invariant forall t :: i <= t < slots.Length ==> slots[t] == old(slots[t])
      {
        var tr := slots[i];
        if tr.active && now - tr.lastSeen > settings.timeoutSec {
          slots[i] := Deactivated(tr);
        }
        i := i + 1;
      }
    }

    /** The point list of `HandleClusters`. */
    method CollectActive() returns (pts: seq<Point>)
      ensures pts == ActivePositions(slots[..])
    {
      pts := [];
      var i := 0;
      while i < slots.Length
        invariant 0 <= i <= slots.Length
        invariant pts == ActivePositions(slots[..i])
      {
        assert slots[..i + 1][..i] == slots[..i];
        if slots[i].active {
          pts := pts + [slots[i].pos];
        }
        i := i + 1;
      }
      assert slots[..i] == slots[..];
    }

    /** `HandleClusters()`: clusters the active positions, resizes the
        effect list to the cluster count, and places effect i on the center
        of cluster i. */
    method HandleClusters() returns (clusters: seq<Cluster>)
      requires Valid()
      modifies fx
      ensures Valid() && fx.pool.prefab == old(fx.pool.prefab)
      ensures clusters == Clusters(ActivePositions(slots[..]), settings.clusterRadius,
                                   settings.clusterMinMembers, settings.maxClusters)
      ensures |clusters| <= Cap(settings.maxClusters)
      ensures |fx.objects| == |clusters|
      ensures forall k :: 0 <= k < |clusters| ==> fx.objects[k] in fx.placed && fx.placed[fx.objects[k]] == clusters[k].center
    {
      var pts := CollectActive();
      clusters := FindClusters(pts, settings.clusterRadius, settings.clusterMinMembers, settings.maxClusters);
      fx.Sync(|clusters|);
      fx.Show(Centers(clusters));
    }

    /** `Update()`: the timeout sweep, then the cluster effects. */
    method Update(now: real) returns (clusters: seq<Cluster>)
      requires Valid()
      modifies slots, fx
      ensures Valid()
      ensures forall t :: 0 <= t < slots.Length ==> slots[t] == Swept(old(slots[t]), now, settings.timeoutSec)
      ensures forall t :: 0 <= t < slots.Length && slots[t].active ==> now - slots[t].lastSeen <= settings.timeoutSec
      ensures clusters == Clusters(ActivePositions(slots[..]), settings.clusterRadius,
                                   settings.clusterMinMembers, settings.maxClusters)
      ensures |fx.objects| == |clusters|
    {
      Sweep(now);
      clusters := HandleClusters();
    }
  }
}
