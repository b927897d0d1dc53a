/** The receivers' stack-based object pools (`Pool` in the stable receiver,
    `ObjectPool` in its predecessor). Scene objects are opaque handles: an
    object is identified by the prefab it was instantiated from and the
    order of its instantiation. Activation, parenting and the components
    of an object are not modelled. */
module Pooling {

  datatype Prefab = PlayerTracker | PlayerVfx | ClusterVfx

  datatype GameObject = GameObject(prefab: Prefab, serial: nat)

  predicate Distinct(s: seq<GameObject>)
  {
    forall i, j :: 0 <= i < j < |s| ==> s[i] != s[j]
  }

  /** A pool of one prefab: `free` is the stack of released objects (top at
      the end) and `next` is how many objects the pool has instantiated. */
  datatype ObjectPool = ObjectPool(prefab: Prefab, free: seq<GameObject>, next: nat)
  {
    /** Pooled objects are distinct objects of this pool's prefab that the
        pool has already instantiated. */
    predicate Valid()
    {
      Distinct(free) &&
      forall i :: 0 <= i < |free| ==> free[i].prefab == prefab && free[i].serial < next
    }

    /** An object of this pool that is not on its stack: it is handed out. */
    predicate Owns(g: GameObject)
    {
      g.prefab == prefab && g.serial < next && g !in free
    }

    /** `Get()`: pops the top of the stack, or instantiates a new object when
        the stack is empty. The object returned is handed out afterwards,
        and every object handed out before stays handed out. */
    function Get(): (r: (GameObject, ObjectPool))
      requires Valid()
      ensures r.1.Valid() && r.1.prefab == prefab
      ensures !Owns(r.0) && r.1.Owns(r.0)
      ensures forall g :: Owns(g) ==> r.1.Owns(g)
      ensures |free| > 0 ==> r.0 == free[|free| - 1] && r.1.free == free[..|free| - 1] && r.1.next == next
      ensures |free| == 0 ==> r.0.serial == next && r.1.free == [] && r.1.next == next + 1
    {
      if |free| > 0 then
        (free[|free| - 1], this.(free := free[..|free| - 1]))
      else
        (GameObject(prefab, next), this.(next := next + 1))
    }

    /** `Release(go)`: pushes the object back on the stack. Releasing an
        object this pool handed out keeps the pool valid and hands nothing
        else back. */
    function Release(g: GameObject): (r: ObjectPool)
      ensures Valid() && Owns(g) ==> r.Valid()
      ensures r.prefab == prefab && r.next == next
      ensures !r.Owns(g)
      ensures forall h :: h != g ==> (Owns(h) <==> r.Owns(h))
    {
      this.(free := free + [g])
    }
  }

  /** `new Pool(prefab, parent, preload)`: `preload` objects instantiated and
      pushed in order. */
  function Preloaded(prefab: Prefab, preload: nat): (p: ObjectPool)
    ensures p.Valid() && p.prefab == prefab
    ensures |p.free| == preload && p.next == preload
  {
    ObjectPool(prefab, seq(preload, (k: nat) => GameObject(prefab, k)), preload)
  }

  /** Releasing a handed-out object and getting one again gives back that
      same object and the pool as it was. */
  lemma ReleaseThenGet(p: ObjectPool, g: GameObject)
    requires p.Valid() && p.Owns(g)
    ensures p.Release(g).Get() == (g, p)
  {
    var q := p.Release(g);
    assert q.free[..|q.free| - 1] == p.free;
  }
}
