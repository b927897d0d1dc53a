/** Exclusive clustering of the active positions (`FindClusters`, identical
    in both receivers). A single pass over the points: an unused seed
    gathers every unused point within the radius; a large enough gather is
    refined once around its centroid, this time over ALL points whether
    used or not, and the refined set, if still large enough, is emitted and
    marked used. The pass stops once the list has reached `maxClusters`,
    a test made only after an append. */
module Clustering {
  import opened Geometry

  datatype Cluster = Cluster(center: Point, size: nat)

  predicate Indices(idx: seq<nat>, n: nat)
  {
    forall k :: 0 <= k < |idx| ==> idx[k] < n
  }

  /** `sum += pts[k]` for every k of idx, in the order of idx. */
  function SumOf(pts: seq<Point>, idx: seq<nat>): Point
    requires Indices(idx, |pts|)
  {
    if |idx| == 0 then Origin
    else Add(SumOf(pts, idx[..|idx| - 1]), pts[idx[|idx| - 1]])
  }

  function Centroid(pts: seq<Point>, idx: seq<nat>): Point
    requires Indices(idx, |pts|) && |idx| > 0
  {
    DivBy(SumOf(pts, idx), |idx|)
  }

  /** The gather of seed i after scanning the points below k: the seed,
      then every unused j other than i within the radius, in index order. */
  function Gather(pts: seq<Point>, used: seq<bool>, r2: real, i: nat, k: nat): (mem: seq<nat>)
    requires |used| == |pts| && i < |pts| && k <= |pts|
    ensures |mem| >= 1
  {
    if k == 0 then [i]
    else
      var j := k - 1;
      Gather(pts, used, r2, i, j) + (if j != i && !used[j] && Dist2(pts[j], pts[i]) <= r2 then [j] else [])
  }

  /** The indices below k of the points within the radius of c, used or
      not, in index order. */
  function Within(pts: seq<Point>, c: Point, r2: real, k: nat): (mem: seq<nat>)
    requires k <= |pts|
  {
    if k == 0 then []
    else Within(pts, c, r2, k - 1) + (if Dist2(pts[k - 1], c) <= r2 then [k - 1] else [])
  }

  lemma {:induction false} GatherIndices(pts: seq<Point>, used: seq<bool>, r2: real, i: nat, k: nat)
    requires |used| == |pts| && i < |pts| && k <= |pts|
    ensures Indices(Gather(pts, used, r2, i, k), |pts|)
  {
    if k > 0 {
      GatherIndices(pts, used, r2, i, k - 1);
    }
  }

  lemma {:induction false} WithinIndices(pts: seq<Point>, c: Point, r2: real, k: nat)
    requires k <= |pts|
    ensures Indices(Within(pts, c, r2, k), k) && |Within(pts, c, r2, k)| <= k
  {
    if k > 0 {
      WithinIndices(pts, c, r2, k - 1);
    }
  }

  /** `used` with every index of idx set. */
  function MarkUsed(used: seq<bool>, idx: seq<nat>): (r: seq<bool>)
    ensures |r| == |used|
  {
    seq(|used|, j requires 0 <= j < |used| => used[j] || j in idx)
  }

  /** At least one cluster is always allowed: the cap is tested after the
      append. */
  function Cap(maxClusters: int): nat
  {
    if maxClusters < 1 then 1 else maxClusters
  }

  /** What visiting seed i does: a used seed is skipped; a seed whose
      gather is short is retired (marked used); a gather whose refinement is
      short leaves the flags as they were; otherwise the refined set is
      emitted as a cluster and marked used. */
  datatype Outcome = Skip(used: seq<bool>) | Emit(cluster: Cluster, used: seq<bool>)

  function VisitSeed(pts: seq<Point>, r2: real, minMembers: int, i: nat, used: seq<bool>): (v: Outcome)
    requires |used| == |pts| && i < |pts| && minMembers >= 2
    ensures |v.used| == |pts|
  {
    if used[i] then Skip(used)
    else
      var mem := Gather(pts, used, r2, i, |pts|);
      if |mem| < minMembers then Skip(used[i := true])
      else
        GatherIndices(pts, used, r2, i, |pts|);
        var mem2 := Within(pts, Centroid(pts, mem), r2, |pts|);
        WithinIndices(pts, Centroid(pts, mem), r2, |pts|);
        if |mem2| < minMembers then Skip(used)
        else Emit(Cluster(Centroid(pts, mem2), |mem2|), MarkUsed(used, mem2))
  }

  /** The rest of the pass from seed i, given the used flags and the
      clusters emitted so far. */
  function ScanFrom(pts: seq<Point>, r2: real, minMembers: int, maxClusters: int,
                    i: nat, used: seq<bool>, acc: seq<Cluster>): seq<Cluster>
    requires |used| == |pts| && i <= |pts| && minMembers >= 2
    decreases |pts| - i
  {
    if i == |pts| then acc
    else
      var v := VisitSeed(pts, r2, minMembers, i, used);
      if v.Skip? then ScanFrom(pts, r2, minMembers, maxClusters, i + 1, v.used, acc)
      else if |acc| + 1 >= maxClusters then acc + [v.cluster]
      else ScanFrom(pts, r2, minMembers, maxClusters, i + 1, v.used, acc + [v.cluster])
  }

  /** The clusters `FindClusters(pts, radius, minMembers, maxClusters)` returns. */
  function Clusters(pts: seq<Point>, radius: real, minMembers: int, maxClusters: int): seq<Cluster>
  {
    if |pts| == 0 || minMembers <= 1 then []
    else ScanFrom(pts, radius * radius, minMembers, maxClusters, 0, seq(|pts|, _ => false), [])
  }

  /** A cluster that is the refinement around some point q: its size is the
      number of all points within the radius of q, and its center is their
      centroid. */
  ghost predicate Refined(pts: seq<Point>, r2: real, minMembers: int, c: Cluster)
  {
    c.size >= minMembers &&
    exists q :: var w := Within(pts, q, r2, |pts|);
      |w| == c.size && |w| > 0 && (WithinIndices(pts, q, r2, |pts|); c.center == Centroid(pts, w))
  }

  /** A visit emits only a refined cluster of at least `minMembers` points.
      It emits exactly when the seed is unused and both its gather and the
      points, used or not, within the radius of the gather's centroid number
      at least `minMembers`; the cluster is then those points' size and
      centroid. */
  lemma VisitEmitsRefined(pts: seq<Point>, r2: real, minMembers: int, i: nat, used: seq<bool>)
    requires |used| == |pts| && i < |pts| && minMembers >= 2
    ensures var v := VisitSeed(pts, r2, minMembers, i, used);
      v.Emit? ==> Refined(pts, r2, minMembers, v.cluster)
    ensures var v := VisitSeed(pts, r2, minMembers, i, used);
      var g := Gather(pts, used, r2, i, |pts|);
      (GatherIndices(pts, used, r2, i, |pts|);
       var w := Within(pts, Centroid(pts, g), r2, |pts|);
       (WithinIndices(pts, Centroid(pts, g), r2, |pts|);
        (v.Emit? <==> !used[i] && |g| >= minMembers && |w| >= minMembers) &&
        (v.Emit? ==> v.cluster.size == |w| && v.cluster.center == Centroid(pts, w))))
  {
    var v := VisitSeed(pts, r2, minMembers, i, used);
    if v.Emit? {
      GatherIndices(pts, used, r2, i, |pts|);
      var q := Centroid(pts, Gather(pts, used, r2, i, |pts|));
      assert |Within(pts, q, r2, |pts|)| == v.cluster.size;
    }
  }

  /** The list never grows past `max(1, maxClusters)`: a cluster is only
      appended while the list is below the cap, and the pass stops as soon
      as an append reaches `maxClusters`. */
  lemma {:induction false} ScanFromCapped(pts: seq<Point>, r2: real, minMembers: int, maxClusters: int,
                                          i: nat, used: seq<bool>, acc: seq<Cluster>)
    requires |used| == |pts| && i <= |pts| && minMembers >= 2
    requires |acc| == 0 || |acc| < maxClusters
    ensures |ScanFrom(pts, r2, minMembers, maxClusters, i, used, acc)| <= Cap(maxClusters)
    decreases |pts| - i
  {
    if i == |pts| {
      assert ScanFrom(pts, r2, minMembers, maxClusters, i, used, acc) == acc;
    } else {
      var v := VisitSeed(pts, r2, minMembers, i, used);
      if v.Skip? {
        assert ScanFrom(pts, r2, minMembers, maxClusters, i, used, acc)
            == ScanFrom(pts, r2, minMembers, maxClusters, i + 1, v.used, acc);
        ScanFromCapped(pts, r2, minMembers, maxClusters, i + 1, v.used, acc);
      } else if |acc| + 1 < maxClusters {
        assert ScanFrom(pts, r2, minMembers, maxClusters, i, used, acc)
            == ScanFrom(pts, r2, minMembers, maxClusters, i + 1, v.used, acc + [v.cluster]);
        ScanFromCapped(pts, r2, minMembers, maxClusters, i + 1, v.used, acc + [v.cluster]);
      } else {
        assert ScanFrom(pts, r2, minMembers, maxClusters, i, used, acc) == acc + [v.cluster];
      }
    }
  }

  /** What was emitted before seed i is kept as a prefix of the result. */
  lemma {:induction false} ScanFromKeeps(pts: seq<Point>, r2: real, minMembers: int, maxClusters: int,
                                         i: nat, used: seq<bool>, acc: seq<Cluster>)
    requires |used| == |pts| && i <= |pts| && minMembers >= 2
    ensures acc <= ScanFrom(pts, r2, minMembers, maxClusters, i, used, acc)
    decreases |pts| - i
  {
    if i < |pts| {
      var v := VisitSeed(pts, r2, minMembers, i, used);
      if v.Skip? {
        ScanFromKeeps(pts, r2, minMembers, maxClusters, i + 1, v.used, acc);
      } else if |acc| + 1 < maxClusters {
        ScanFromKeeps(pts, r2, minMembers, maxClusters, i + 1, v.used, acc + [v.cluster]);
      }
    }
  }

  ghost predicate AllRefined(pts: seq<Point>, r2: real, minMembers: int, cs: seq<Cluster>)
  {
    forall k :: 0 <= k < |cs| ==> Refined(pts, r2, minMembers, cs[k])
  }

  /** A visit that emits appends a refined cluster to a list of refined
      clusters. */
  lemma EmitKeepsRefined(pts: seq<Point>, r2: real, minMembers: int, i: nat, used: seq<bool>, acc: seq<Cluster>)
    requires |used| == |pts| && i < |pts| && minMembers >= 2
    requires AllRefined(pts, r2, minMembers, acc) && VisitSeed(pts, r2, minMembers, i, used).Emit?
    ensures AllRefined(pts, r2, minMembers, acc + [VisitSeed(pts, r2, minMembers, i, used).cluster])
  {
    var c := VisitSeed(pts, r2, minMembers, i, used).cluster;
    VisitEmitsRefined(pts, r2, minMembers, i, used);
    forall k | 0 <= k < |acc| + 1 ensures Refined(pts, r2, minMembers, (acc + [c])[k]) {
      if k < |acc| { assert (acc + [c])[k] == acc[k]; }
    }
  }

  /** Everything emitted from seed i on is a refined cluster of at least
      `minMembers` points. */
  lemma {:induction false} ScanFromRefined(pts: seq<Point>, r2: real, minMembers: int, maxClusters: int,
                                           i: nat, used: seq<bool>, acc: seq<Cluster>)
    requires |used| == |pts| && i <= |pts| && minMembers >= 2
    requires AllRefined(pts, r2, minMembers, acc)
    ensures AllRefined(pts, r2, minMembers, ScanFrom(pts, r2, minMembers, maxClusters, i, used, acc))
    decreases |pts| - i
  {
    if i == |pts| {
      assert ScanFrom(pts, r2, minMembers, maxClusters, i, used, acc) == acc;
    } else {
      var v := VisitSeed(pts, r2, minMembers, i, used);
      var acc' := if v.Skip? then acc else acc + [v.cluster];
      if v.Emit? {
        EmitKeepsRefined(pts, r2, minMembers, i, used, acc);
      }
      if v.Skip? || |acc'| < maxClusters {
        assert ScanFrom(pts, r2, minMembers, maxClusters, i, used, acc)
            == ScanFrom(pts, r2, minMembers, maxClusters, i + 1, v.used, acc');
        ScanFromRefined(pts, r2, minMembers, maxClusters, i + 1, v.used, acc');
      } else {
        assert ScanFrom(pts, r2, minMembers, maxClusters, i, used, acc) == acc';
      }
    }
  }

  /** The properties of `FindClusters`: nothing for no points or for
      `minMembers <= 1`; otherwise every cluster is a refinement of at least
      `minMembers` points and there are at most `max(1, maxClusters)`. */
  lemma ClustersSound(pts: seq<Point>, radius: real, minMembers: int, maxClusters: int)
    ensures var r := Clusters(pts, radius, minMembers, maxClusters);
      (|pts| == 0 || minMembers <= 1 ==> r == []) &&
      |r| <= Cap(maxClusters) &&
      forall k :: 0 <= k < |r| ==> Refined(pts, radius * radius, minMembers, r[k])
  {
    if |pts| > 0 && minMembers > 1 {
      ScanFromCapped(pts, radius * radius, minMembers, maxClusters, 0, seq(|pts|, _ => false), []);
      ScanFromRefined(pts, radius * radius, minMembers, maxClusters, 0, seq(|pts|, _ => false), []);
    }
  }

  /** A seed whose first gather falls short is marked used and emits
      nothing; the refinement is never attempted for it. */
  lemma ShortSeedRetired(pts: seq<Point>, r2: real, minMembers: int, i: nat, used: seq<bool>)
    requires |used| == |pts| && i < |pts| && minMembers >= 2 && !used[i]
    requires |Gather(pts, used, r2, i, |pts|)| < minMembers
    ensures VisitSeed(pts, r2, minMembers, i, used) == Skip(used[i := true])
  {
  }

  /** `FindClusters`: no clusters for no points or `minMembers <= 1`,
      otherwise the loop over seeds. */
  method FindClusters(pts: seq<Point>, radius: real, minMembers: int, maxClusters: int)
    returns (clusters: seq<Cluster>)
    ensures clusters == Clusters(pts, radius, minMembers, maxClusters)
    ensures |pts| == 0 || minMembers <= 1 ==> clusters == []
    ensures |clusters| <= Cap(maxClusters)
    ensures forall k :: 0 <= k < |clusters| ==> Refined(pts, radius * radius, minMembers, clusters[k])
  {
    if |pts| == 0 || minMembers <= 1 {
      clusters := [];
    } else {
      clusters := ScanSeeds(pts, radius, minMembers, maxClusters);
    }
    ClustersSound(pts, radius, minMembers, maxClusters);
  }

  /** The loop over seeds over a `used` array, stopping once the cap is
      reached after an append. */
  method ScanSeeds(pts: seq<Point>, radius: real, minMembers: int, maxClusters: int)
    returns (clusters: seq<Cluster>)
    requires |pts| > 0 && minMembers > 1
    ensures clusters == Clusters(pts, radius, minMembers, maxClusters)
  {
    clusters := [];
    var n := |pts|;
    var used := new bool[n](_ => false);
    var r2 := radius * radius;
    assert used[..] == seq(n, _ => false);
    var i := 0;
    while i < n
      invariant 0 <= i <= n && used.Length == n
      invariant ScanFrom(pts, r2, minMembers, maxClusters, i, used[..], clusters)
             == Clusters(pts, radius, minMembers, maxClusters)
    {
      ghost var v := VisitSeed(pts, r2, minMembers, i, used[..]);
      assert ScanFrom(pts, r2, minMembers, maxClusters, i, used[..], clusters) ==
        if v.Skip? then ScanFrom(pts, r2, minMembers, maxClusters, i + 1, v.used, clusters)
        else if |clusters| + 1 >= maxClusters then clusters + [v.cluster]
        else ScanFrom(pts, r2, minMembers, maxClusters, i + 1, v.used, clusters + [v.cluster]);
      var emitted, c := VisitLoop(pts, r2, minMembers, i, used);
      if emitted {
        clusters := clusters + [c];
        if |clusters| >= maxClusters {
          break;
        }
      }
      i := i + 1;
    }
  }

  /** The body of the seed loop for seed i: gather, centroid, refine, and
      either mark the refined set (returning its cluster) or retire the
      seed. */
  method VisitLoop(pts: seq<Point>, r2: real, minMembers: int, i: nat, used: array<bool>)
    returns (emitted: bool, c: Cluster)
    requires used.Length == |pts| && i < |pts| && minMembers >= 2
    modifies used
    ensures var v := VisitSeed(pts, r2, minMembers, i, old(used[..]));
      used[..] == v.used && emitted == v.Emit? && (emitted ==> c == v.cluster)
  {
    emitted, c := false, Cluster(Origin, 0);
    if used[i] {
      return;
    }
    ghost var u := used[..];
    var n := |pts|;
    var mem := [i];
    var j := 0;
    while j < n
      invariant 0 <= j <= n
      invariant mem == Gather(pts, u, r2, i, j)
    {
      if i != j && !used[j] && Dist2(pts[j], pts[i]) <= r2 {
        mem := mem + [j];
      }
      j := j + 1;
    }
    if |mem| >= minMembers {
      GatherIndices(pts, u, r2, i, n);
      var sum := SumLoop(pts, mem);
      var center := DivBy(sum, |mem|);
      var mem2 := [];
      j := 0;
      while j < n
        invariant 0 <= j <= n
        invariant mem2 == Within(pts, center, r2, j)
      {
        if Dist2(pts[j], center) <= r2 {
          mem2 := mem2 + [j];
        }
        j := j + 1;
      }
      if |mem2| >= minMembers {
        WithinIndices(pts, center, r2, n);
        sum := SumAndMark(pts, mem2, used);
        center := DivBy(sum, |mem2|);
        emitted, c := true, Cluster(center, |mem2|);
      }
    } else {
      used[i] := true;
    }
  }

  /** `foreach (int k in mem) sum += pts[k]`. */
  method SumLoop(pts: seq<Point>, mem: seq<nat>) returns (sum: Point)
    requires Indices(mem, |pts|)
    ensures sum == SumOf(pts, mem)
  {
    sum := Origin;
    var t := 0;
    while t < |mem|
      invariant 0 <= t <= |mem|
      invariant sum == SumOf(pts, mem[..t])
    {
      assert mem[..t + 1][..t] == mem[..t];
      sum := Add(sum, pts[mem[t]]);
      t := t + 1;
    }
    assert mem[..t] == mem;
  }

  /** `foreach (int k in mem2) { sum += pts[k]; used[k] = true; }`. */
  method SumAndMark(pts: seq<Point>, mem: seq<nat>, used: array<bool>) returns (sum: Point)
    requires Indices(mem, |pts|) && used.Length == |pts|
    modifies used
    ensures sum == SumOf(pts, mem)
    ensures used[..] == MarkUsed(old(used[..]), mem)
  {
    sum := Origin;
    var t := 0;
    while t < |mem|
      invariant 0 <= t <= |mem|
      invariant sum == SumOf(pts, mem[..t])
      invariant used[..] == MarkUsed(old(used[..]), mem[..t])
    {
      assert mem[..t + 1][..t] == mem[..t];
      sum := Add(sum, pts[mem[t]]);
      used[mem[t]] := true;
      t := t + 1;
    }
    assert mem[..t] == mem;
  }
}
