/** The cluster effect objects of a receiver (`clusterFx`/`clusterTf` in the
    stable receiver, `activeClusterVfx`/`activeClusterTf` in its
    predecessor). Entry i of the two lists are the VisualEffect and the
    Transform of one pooled object, so the model keeps that object. */
module ClusterEffects {
  import opened Geometry
  import opened Pooling

  function Reversed<T>(s: seq<T>): (r: seq<T>)
    ensures |r| == |s|
  {
    if s == [] then [] else Reversed(s[1..]) + [s[0]]
  }

  class ClusterFx {
    /** One pooled cluster effect object per current cluster, by position. */
    var objects: seq<GameObject>
    var pool: ObjectPool
    /** The objects a `ClusterBurst` event was sent to, in order. */
    var bursts: seq<GameObject>
    /** The objects a `ClusterSustain` event was sent to, in order. */
    var sustains: seq<GameObject>
    /** The last center pushed to each object's Transform and VisualEffect. */
    var placed: map<GameObject, Point>
    /** Whether a new object fires `ClusterBurst`: the event name is set
        (and, in the stable receiver, the object has a VisualEffect). */
    const burstFires: bool
    /** Whether `ClusterSustain` is fired: the event name is set. */
    const sustainFires: bool

    /** Every entry is a distinct object handed out by the cluster pool. */
    ghost predicate Valid()
      reads this
    {
      pool.Valid() && pool.prefab == ClusterVfx && Distinct(objects) &&
      forall k :: 0 <= k < |objects| ==> pool.Owns(objects[k])
    }

    /** `poolCluster = new Pool(clusterVfxPrefab, transform, Mathf.Max(1, maxClusters))`. */
    constructor (maxClusters: int, burstFires: bool, sustainFires: bool)
      ensures Valid()
      ensures objects == [] && bursts == [] && sustains == [] && placed == map[]
      ensures pool == Preloaded(ClusterVfx, if maxClusters < 1 then 1 else maxClusters)
      ensures this.burstFires == burstFires && this.sustainFires == sustainFires
    {
      objects := [];
      pool := Preloaded(ClusterVfx, if maxClusters < 1 then 1 else maxClusters);
      bursts := [];
      sustains := [];
      placed := map[];
      this.burstFires := burstFires;
      this.sustainFires := sustainFires;
    }

    /** `SyncClusterFxCount(needed)`: grows the list with objects from the
        pool, firing a burst on each new one, then releases the excess from
        the tail, last entry first. Entries below both lengths are kept. */
    method Sync(needed: nat)
      requires Valid()
      modifies this
      ensures Valid()
      ensures |objects| == needed
      ensures needed <= |old(objects)| ==> objects == old(objects)[..needed]
      ensures needed > |old(objects)| ==> objects[..|old(objects)|] == old(objects)
      ensures needed <= |old(objects)| ==>
                pool.free == old(pool.free) + Reversed(old(objects)[needed..]) && pool.next == old(pool.next)
      ensures bursts == if burstFires && needed > |old(objects)|
                        then old(bursts) + objects[|old(objects)|..] else old(bursts)
      ensures sustains == old(sustains) && placed == old(placed)
    {
      Grow(needed);
      Shrink(needed);
    }

    /** The growing loop: `while (clusterFx.Count < needed)`. */
    method Grow(needed: nat)
      requires Valid()
      modifies this
      ensures Valid()
      ensures |objects| == if needed > |old(objects)| then needed else |old(objects)|
      ensures objects[..|old(objects)|] == old(objects)
      ensures needed <= |old(objects)| ==> objects == old(objects) && pool == old(pool)
      ensures bursts == if burstFires then old(bursts) + objects[|old(objects)|..] else old(bursts)
      ensures sustains == old(sustains) && placed == old(placed)
    {
      ghost var n0 := |objects|;
      while |objects| < needed
        invariant Valid()
        invariant |objects| >= n0 && objects[..n0] == old(objects)
        invariant |objects| <= if needed > n0 then needed else n0
        invariant bursts == if burstFires then old(bursts) + objects[n0..] else old(bursts)
        invariant sustains == old(sustains) && placed == old(placed)
        invariant n0 >= needed ==> objects == old(objects) && pool == old(pool)
        decreases needed - |objects|
      {
        var got := pool.Get();
        var go := got.0;
        pool := got.1;
        objects := objects + [go];
        if burstFires {
          bursts := bursts + [go];
        }
      }
    }

    /** The shrinking loop: `for (i = clusterFx.Count - 1; i >= needed; i--)`
        removes entry i and releases its object to the pool. */
    method Shrink(needed: nat)
      requires Valid()
      modifies this
      ensures Valid()
      ensures |objects| == if needed < |old(objects)| then needed else |old(objects)|
      ensures needed < |old(objects)| ==> objects == old(objects)[..needed]
      ensures needed >= |old(objects)| ==> objects == old(objects)
      ensures needed <= |old(objects)| ==> pool.free == old(pool.free) + Reversed(old(objects)[needed..])
      ensures pool.next == old(pool.next)
      ensures bursts == old(bursts) && sustains == old(sustains) && placed == old(placed)
    {
      var i := |objects| - 1;
      while i >= needed
        invariant -1 <= i < |old(objects)|
        invariant needed - 1 <= i || i == |old(objects)| - 1
        invariant objects == old(objects)[..i + 1]
        invariant pool.free == old(pool.free) + Reversed(old(objects)[i + 1..]) && pool.next == old(pool.next)
        invariant Valid()
        invariant bursts == old(bursts) && sustains == old(sustains) && placed == old(placed)
      {
        var go := objects[i];
        assert old(objects)[i..][1..] == old(objects)[i + 1..];
        objects := objects[..i];
        pool := pool.Release(go);
        i := i - 1;
      }
    }

    /** The per-cluster loop of `HandleClusters`: entry i gets the center of
        cluster i and, when enabled, a sustain event. */
    method Show(centers: seq<Point>)
      requires Valid() && |centers| == |objects|
      modifies this
      ensures Valid() && objects == old(objects) && pool == old(pool) && bursts == old(bursts)
      ensures forall k :: 0 <= k < |objects| ==> objects[k] in placed && placed[objects[k]] == centers[k]
      ensures forall g :: g in old(placed) && g !in objects ==> g in placed && placed[g] == old(placed)[g]
      ensures sustains == if sustainFires then old(sustains) + objects else old(sustains)
    {
      var pl, su := PlaceAll(objects, centers, placed, sustains, sustainFires);
      placed, sustains := pl, su;
    }
  }

  /** The loop of `Show` on values: each object in turn is placed on its
      center and, when enabled, sent a sustain event. */
  method PlaceAll(objs: seq<GameObject>, centers: seq<Point>, placed: map<GameObject, Point>,
                  sustains: seq<GameObject>, sustainFires: bool)
    returns (pl: map<GameObject, Point>, su: seq<GameObject>)
    requires Distinct(objs) && |centers| == |objs|
    ensures forall k :: 0 <= k < |objs| ==> objs[k] in pl && pl[objs[k]] == centers[k]
    ensures forall g :: g in placed && g !in objs ==> g in pl && pl[g] == placed[g]
    ensures su == if sustainFires then sustains + objs else sustains
  {
    pl, su := placed, sustains;
    var i := 0;
    while i < |objs|
      invariant 0 <= i <= |objs|
      invariant forall k :: 0 <= k < i ==> objs[k] in pl && pl[objs[k]] == centers[k]
      invariant forall g :: g in placed && g !in objs[..i] ==> g in pl && pl[g] == placed[g]
      invariant su == if sustainFires then sustains + objs[..i] else sustains
    {
      pl := pl[objs[i] := centers[i]];
      if sustainFires {
        su := su + [objs[i]];
      }
      i := i + 1;
    }
    assert objs[..i] == objs;
  }
}
