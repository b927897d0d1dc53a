/** `PlayerPositionReceiver`, the predecessor of the stable receiver: a list
    of players sized by the `/Count` message, where player i is driven by
    coordinate pair i of each `/Position` message with no distance
    matching. Players unseen for longer than the timeout are switched off
    and the active positions are clustered as in the stable receiver. */
module IndexReceiver {
  import opened Geometry
  import opened Messages
  import opened Pooling
  import opened Clustering
  import opened ClusterEffects

  /** The inspector settings the core reads. `maxPlayers` is a plain `int`
      here: nothing stops it from being negative. */
  datatype Settings = Settings(box: Box, timeoutSec: real, maxPlayers: int,
                               clusterMinMembers: int, clusterRadius: real, maxClusters: int)

  /** `TrackedPlayer`: the position and velocity of its tracker, when it was
      last seen, whether it is on, and its two pooled objects. */
  datatype Player = Player(pos: Point, vel: Point, lastSeen: real, active: bool,
                           tracker: GameObject, vfx: GameObject)

  /** A player as `EnsurePlayerCount` appends it. */
  predicate Fresh(p: Player)
  {
    p.pos == Origin && p.vel == Origin && p.lastSeen == -999.0 && !p.active
  }

  /** `ActivatePlayer(p, ...)`: the player is on and seen now; its position,
      velocity and objects stay. */
  function Activated(p: Player, now: real): (r: Player)
    ensures r.active && r.lastSeen == now
    ensures r.(active := p.active, lastSeen := p.lastSeen) == p
  {
    p.(active := true, lastSeen := now)
  }

  /** `DeactivatePlayer(p)`: the player is off and keeps everything else. */
  function Deactivated(p: Player): (r: Player)
    ensures !r.active && r.(active := p.active) == p
    ensures !p.active ==> r == p
  {
    p.(active := false)
  }

  /** What the activation loop of `OnCount` does to a player in the list. */
  function Woken(p: Player, now: real): (r: Player)
    ensures r.active && r.tracker == p.tracker && r.vfx == p.vfx
    ensures p.active ==> r == p
    ensures !p.active ==> r.lastSeen == now && r.pos == p.pos && r.vel == p.vel
  {
    if p.active then p else Activated(p, now)
  }

  /** One turn of the `OnPosition` loop for a player whose pair was read:
      switched on (and seen now) if it was off, one smoothing step towards
      the mapped target, clamped to the world rectangle, and seen now. */
  function Driven(p: Player, target: Point, box: Box, smooth: Smoother, now: real): (r: Player)
    ensures r.active && r.lastSeen == now
    ensures box.Valid() ==> box.Contains(r.pos)
    ensures r.tracker == p.tracker && r.vfx == p.vfx
  {
    var q := if !p.active then Activated(p, now) else p;
    var next := smooth(q.pos, target, q.vel);
    q.(pos := box.ClampPoint(next.pos), vel := next.vel, lastSeen := now)
  }

  /** What the timeout sweep of `Update` does to one player. */
  function Swept(p: Player, now: real, timeoutSec: real): (r: Player)
    ensures r.active <==> p.active && now - p.lastSeen <= timeoutSec
    ensures r == p || r == Deactivated(p)
  {
    if p.active && now - p.lastSeen > timeoutSec then Deactivated(p) else p
  }

  /** The number of players `OnCount(count)` leaves: the count clamped to
      [0, maxPlayers], then capped again by `EnsurePlayerCount`, and no
      player at all when `maxPlayers` is negative. */
  function CountFor(count: int, maxPlayers: int): (r: nat)
    ensures maxPlayers >= 0 ==> r == ClampInt(count, 0, maxPlayers)
    ensures maxPlayers < 0 ==> r == 0
    ensures r <= ClampInt(count, 0, maxPlayers) || r == 0
  {
    var c := ClampInt(count, 0, maxPlayers);
    var target := Min(c, maxPlayers);
    if target < 0 then 0 else target
  }

  function TrackersOf(ps: seq<Player>): (r: seq<GameObject>)
    ensures |r| == |ps| && forall k :: 0 <= k < |ps| ==> r[k] == ps[k].tracker
  {
    seq(|ps|, k requires 0 <= k < |ps| => ps[k].tracker)
  }

  function EffectsOf(ps: seq<Player>): (r: seq<GameObject>)
    ensures |r| == |ps| && forall k :: 0 <= k < |ps| ==> r[k] == ps[k].vfx
  {
    seq(|ps|, k requires 0 <= k < |ps| => ps[k].vfx)
  }

  /** Every player holds a tracker and an effect handed out by their pools,
      and no two players share one. */
  predicate HandlesOwned(ps: seq<Player>, trackers: ObjectPool, effects: ObjectPool)
  {
    (forall k :: 0 <= k < |ps| ==> trackers.Owns(ps[k].tracker) && effects.Owns(ps[k].vfx)) &&
    (forall k, l :: 0 <= k < l < |ps| ==> ps[k].tracker != ps[l].tracker && ps[k].vfx != ps[l].vfx)
  }

  /** The positions of the active players, in list order. */
  function ActivePositions(ps: seq<Player>): seq<Point>
  {
    if ps == [] then []
    else ActivePositions(ps[..|ps| - 1]) + (if ps[|ps| - 1].active then [ps[|ps| - 1].pos] else [])
  }

  /** The indices the shrinking loop of `EnsurePlayerCount` visits as
      written: from `count - 1` down to `target`, whatever their sign. */
  function ShrinkVisits(count: int, target: int): seq<int>
    decreases count - target
  {
    if count - 1 < target then [] else [count - 1] + ShrinkVisits(count - 1, target)
  }

  /** As written, a negative target (a negative `maxPlayers`) makes the
      loop read `players[-1]`, whatever the list's length. */
  lemma {:induction false} ShrinkVisitsBelowZero(count: nat, target: int)
    requires target < 0
    ensures -1 in ShrinkVisits(count, target)
    decreases count
  {
    if count > 0 {
      ShrinkVisitsBelowZero(count - 1, target);
    }
  }

  /** With the target raised to 0, every index the loop visits is in the
      list, and they are exactly the indices from the target up. */
  lemma {:induction false} ShrinkVisitsInRange(count: nat, target: nat)
    ensures forall i :: i in ShrinkVisits(count, target) <==> target <= i < count
    decreases count
  {
    if count > 0 && count - 1 >= target {
      ShrinkVisitsInRange(count - 1, target);
    }
  }

  /** Releasing the objects of the last player leaves the others' objects
      handed out. */
  lemma ReleaseLast(ps: seq<Player>, trackers: ObjectPool, effects: ObjectPool)
    requires |ps| > 0 && HandlesOwned(ps, trackers, effects)
    ensures HandlesOwned(ps[..|ps| - 1], trackers.Release(ps[|ps| - 1].tracker),
                         effects.Release(ps[|ps| - 1].vfx))
  {
    var last := ps[|ps| - 1];
    forall k | 0 <= k < |ps| - 1
      ensures ps[k].tracker != last.tracker && ps[k].vfx != last.vfx
    {
    }
  }

  /** The shrinking loop of `EnsurePlayerCount` on values, stopping at
      `stop` (never below 0): from the last player down to `stop`, each
      player's tracker and effect go back to their pools and the player is
      removed. */
  method ReleaseTail(ps: seq<Player>, trackers: ObjectPool, effects: ObjectPool, stop: nat)
    returns (kept: seq<Player>, ts: ObjectPool, es: ObjectPool)
    requires trackers.Valid() && effects.Valid() && HandlesOwned(ps, trackers, effects)
    ensures kept == ps[..if stop < |ps| then stop else |ps|]
    ensures ts.free == trackers.free + Reversed(TrackersOf(ps[|kept|..]))
    ensures es.free == effects.free + Reversed(EffectsOf(ps[|kept|..]))
    ensures ts.next == trackers.next && es.next == effects.next
    ensures ts.prefab == trackers.prefab && es.prefab == effects.prefab
    ensures ts.Valid() && es.Valid() && HandlesOwned(kept, ts, es)
  {
    kept, ts, es := ps, trackers, effects;
    var i := |ps| - 1;
    while i >= stop
      invariant -1 <= i < |ps|
      invariant stop - 1 <= i || i == |ps| - 1
      invariant kept == ps[..i + 1]
      invariant ts.free == trackers.free + Reversed(TrackersOf(ps[i + 1..])) && ts.next == trackers.next
      invariant es.free == effects.free + Reversed(EffectsOf(ps[i + 1..])) && es.next == effects.next
      invariant ts.prefab == trackers.prefab && es.prefab == effects.prefab
      invariant ts.Valid() && es.Valid() && HandlesOwned(kept, ts, es)
    {
      var p := kept[i];
      assert TrackersOf(ps[i..])[1..] == TrackersOf(ps[i + 1..]);
      assert EffectsOf(ps[i..])[1..] == EffectsOf(ps[i + 1..]);
      ReleaseLast(kept, ts, es);
      ts := ts.Release(p.tracker);
      es := es.Release(p.vfx);
      kept := kept[..i];
      i := i - 1;
    }
  }

  class Receiver {
    const settings: Settings
    /** `List<TrackedPlayer> players`. */
    var players: seq<Player>
    /** `playerPool`. */
    var trackers: ObjectPool
    /** `playerVfxPool`. */
    var effects: ObjectPool
    /** The cluster effect objects and their pool. */
    const fx: ClusterFx

    ghost predicate Valid()
      reads this, fx
    {
      trackers.Valid() && trackers.prefab == PlayerTracker &&
      effects.Valid() && effects.prefab == PlayerVfx &&
      fx.Valid() &&
      (|players| == 0 || |players| <= settings.maxPlayers) &&
      HandlesOwned(players, trackers, effects)
    }

    /** `Awake`: no players yet; both player pools preload
        `max(0, maxPlayers)` objects, the cluster pool `max(1, maxClusters)`. */
    constructor Awake(settings: Settings, burstFires: bool, sustainFires: bool)
      ensures Valid() && this.settings == settings && fresh(fx)
      ensures players == [] && fx.objects == []
      ensures trackers == Preloaded(PlayerTracker, if settings.maxPlayers < 0 then 0 else settings.maxPlayers)
      ensures effects == Preloaded(PlayerVfx, if settings.maxPlayers < 0 then 0 else settings.maxPlayers)
    {
      this.settings := settings;
      players := [];
      trackers := Preloaded(PlayerTracker, if settings.maxPlayers < 0 then 0 else settings.maxPlayers);
      effects := Preloaded(PlayerVfx, if settings.maxPlayers < 0 then 0 else settings.maxPlayers);
      fx := new ClusterFx(settings.maxClusters, burstFires, sustainFires);
    }

    /** `OnCount(count)`: clamps the count to [0, maxPlayers], resizes the
        list to it, and switches on every player in the list; a player that
        was off is seen now. The branch that would switch players off never
        fires, since the list is exactly as long as the count. */
    method OnCount(count: int, now: real)
      requires Valid()
      modifies this
      ensures Valid()
      ensures |players| == CountFor(count, settings.maxPlayers)
      ensures forall k :: 0 <= k < |players| ==> players[k].active
      ensures forall k :: 0 <= k < |players| && k < |old(players)| ==> players[k] == Woken(old(players[k]), now)
      ensures forall k :: |old(players)| <= k < |players| ==>
                players[k].lastSeen == now && players[k].pos == Origin && players[k].vel == Origin
    {
      var c := ClampInt(count, 0, settings.maxPlayers);
      EnsurePlayerCount(c);
      ghost var sized := players;
      var i := 0;
      while i < |players|
        invariant 0 <= i <= |players| && |players| == |sized| == CountFor(count, settings.maxPlayers)
        invariant Valid()
        invariant forall k :: 0 <= k < i ==> players[k] == Woken(sized[k], now)
        invariant forall k :: i <= k < |players| ==> players[k] == sized[k]
      {
        var on := i < c;
        if on && !players[i].active {
          players := players[i := Activated(players[i], now)];
        }
        if players[i].active && !on {
          assert false;
        }
        i := i + 1;
      }
    }

    /** `EnsurePlayerCount(target)`: the target is capped at `maxPlayers`;
        fresh players are appended up to it, and players beyond it are
        removed from the tail, their objects going back to the pools. The
        players below both lengths are untouched. */
    method EnsurePlayerCount(target: int)
      requires Valid()
      modifies this
      ensures Valid()
      ensures var n := Min(target, settings.maxPlayers);
        |players| == (if n < 0 then 0 else n) &&
        (n < |old(players)| ==> players == old(players)[..|players|]) &&
        (n >= |old(players)| ==> players[..|old(players)|] == old(players))
      ensures forall k :: |old(players)| <= k < |players| ==> Fresh(players[k])
    {
      var n := Min(target, settings.maxPlayers);
      Grow(n);
      Shrink(n);
    }

    /** The growing loop: each new player takes a tracker and an effect from
        the pools and starts off. */
    method Grow(n: int)
      requires Valid() && n <= settings.maxPlayers
      modifies this
      ensures Valid()
      ensures |players| == if n > |old(players)| then n else |old(players)|
      ensures players[..|old(players)|] == old(players)
      ensures forall k :: |old(players)| <= k < |players| ==> Fresh(players[k])
    {
      ghost var n0 := |players|;
      while |players| < n
        invariant Valid()
        invariant |players| >= n0 && players[..n0] == old(players)
        invariant |players| <= if n > n0 then n else n0
        invariant forall k :: n0 <= k < |players| ==> Fresh(players[k])
        decreases n - |players|
      {
        var t := trackers.Get();
        var v := effects.Get();
        trackers := t.1;
        effects := v.1;
        players := players + [Player(Origin, Origin, -999.0, false, t.0, v.0)];
      }
    }

    /** The shrinking loop: `for (i = players.Count - 1; i >= target; i--)`
        releases the objects of player i and removes it. The loop stops at
        index 0 even for a negative target (see `ShrinkVisits`). */
    method Shrink(n: int)
      requires Valid()
      modifies this
      ensures Valid()
      ensures |players| == if n < 0 then 0 else if n < |old(players)| then n else |old(players)|
      ensures players == old(players)[..|players|]
      ensures trackers.free == old(trackers.free) + Reversed(TrackersOf(old(players)[|players|..]))
      ensures effects.free == old(effects.free) + Reversed(EffectsOf(old(players)[|players|..]))
      ensures trackers.next == old(trackers.next) && effects.next == old(effects.next)
    {
      var kept, ts, es := ReleaseTail(players, trackers, effects, if n < 0 then 0 else n);
      players, trackers, effects := kept, ts, es;
    }

    /** `OnPosition(m)`: for every i below `min(m.Count() / 2, players.Count)`
        whose pair reads as two floats, player i is driven towards the
        mapped point; no other player changes. */
    method OnPosition(m: seq<OscArg>, now: real, smooth: Smoother)
      requires Valid()
      modifies this
      ensures Valid() && trackers == old(trackers) && effects == old(effects)
      ensures |players| == |old(players)|
      ensures forall i :: 0 <= i < |players| ==>
                players[i] == if i < PairLimit(m, |players|) && PairReadable(m, i)
                              then Driven(old(players[i]), PairPoint(settings.box, m, i), settings.box, smooth, now)
                              else old(players[i])
    {
      var limit := Min(|m| / 2, |players|);
      var i := 0;
      while i < limit
        invariant 0 <= i <= limit
        invariant Valid() && trackers == old(trackers) && effects == old(effects)
        invariant |players| == |old(players)|
        invariant forall k :: 0 <= k < |players| ==>
                    players[k] == if k < i && PairReadable(m, k)
                                  then Driven(old(players[k]), PairPoint(settings.box, m, k), settings.box, smooth, now)
                                  else old(players[k])
      {
        if PairReadable(m, i) {
          var target := settings.box.MapSample(m[2 * i].value, m[2 * i + 1].value);
          var p := players[i];
          if !p.active {
            p := Activated(p, now);
          }
          var next := smooth(p.pos, target, p.vel);
          p := p.(pos := settings.box.ClampPoint(next.pos), vel := next.vel, lastSeen := now);
          players := players[i := p];
        }
        i := i + 1;
      }
    }

    /** The timeout sweep of `Update`: exactly the active players unseen
        for longer than `timeoutSec` are switched off. */
    method Sweep(now: real)
      requires Valid()
      modifies this
      ensures Valid() && trackers == old(trackers) && effects == old(effects)
      ensures |players| == |old(players)|
      ensures forall k :: 0 <= k < |players| ==> players[k] == Swept(old(players[k]), now, settings.timeoutSec)
    {
      var i := 0;
      while i < |players|
        invariant 0 <= i <= |players| == |old(players)|
        invariant Valid() && trackers == old(trackers) && effects == old(effects)
        invariant forall k :: 0 <= k < i ==> players[k] == Swept(old(players[k]), now, settings.timeoutSec)
        invariant forall k :: i <= k < |players| ==> players[k] == old(players[k])
      {
        var p := players[i];
        if p.active && now - p.lastSeen > settings.timeoutSec {
          players := players[i := Deactivated(p)];
        }
        i := i + 1;
      }
    }

    /** The point list of `HandleClusters`. */
    method CollectActive() returns (pts: seq<Point>)
      ensures pts == ActivePositions(players)
    {
      pts := [];
      var i := 0;
      while i < |players|
        invariant 0 <= i <= |players|
        invariant pts == ActivePositions(players[..i])
      {
        assert players[..i + 1][..i] == players[..i];
        if players[i].active {
          pts := pts + [players[i].pos];
        }
        i := i + 1;
      }
      assert players[..i] == players;
    }

    /** `HandleClusters()`: clusters the active positions, resizes the
        effect list to the cluster count, and places effect i on the center
        of cluster i. */
    method HandleClusters() returns (clusters: seq<Cluster>)
      requires Valid()
      modifies fx
      ensures Valid()
      ensures clusters == Clusters(ActivePositions(players), settings.clusterRadius,
                                   settings.clusterMinMembers, settings.maxClusters)
      ensures |clusters| <= Cap(settings.maxClusters)
      ensures |fx.objects| == |clusters|
      ensures forall k :: 0 <= k < |clusters| ==> fx.objects[k] in fx.placed && fx.placed[fx.objects[k]] == clusters[k].center
    {
      var pts := CollectActive();
      clusters := FindClusters(pts, settings.clusterRadius, settings.clusterMinMembers, settings.maxClusters);
      fx.Sync(|clusters|);
      fx.Show(seq(|clusters|, k requires 0 <= k < |clusters| => clusters[k].center));
    }

    /** `Update()`: the timeout sweep, then the cluster effects. */
    method Update(now: real) returns (clusters: seq<Cluster>)
      requires Valid()
      modifies this, fx
      ensures Valid()
      ensures |players| == |old(players)|
      ensures forall k :: 0 <= k < |players| ==> players[k] == Swept(old(players[k]), now, settings.timeoutSec)
      ensures forall k :: 0 <= k < |players| && players[k].active ==> now - players[k].lastSeen <= settings.timeoutSec
      ensures clusters == Clusters(ActivePositions(players), settings.clusterRadius,
                                   settings.clusterMinMembers, settings.maxClusters)
      ensures |fx.objects| == |clusters|
    {
      Sweep(now);
      clusters := HandleClusters();
    }
  }
}
