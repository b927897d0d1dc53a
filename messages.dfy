/** The `/Position` OSC message as the receivers read it: a flat list of
    arguments where arguments 2i and 2i+1 are the raw [0,1] sample of
    detection i. */
module Messages {
  import opened Geometry

  /** One OSC argument. `OscMessage.TryGet(index, out float)` succeeds only
      on a float argument; every other type tag is `OtherArg`. */
  datatype OscArg = FloatArg(value: real) | OtherArg

  /** Both reads `TryGet(2i)` and `TryGet(2i + 1)` succeed. */
  predicate PairReadable(m: seq<OscArg>, i: nat)
  {
    2 * i + 1 < |m| && m[2 * i].FloatArg? && m[2 * i + 1].FloatArg?
  }

  /** The world position of readable pair i. */
  function PairPoint(box: Box, m: seq<OscArg>, i: nat): (p: Point)
    requires PairReadable(m, i)
    ensures box.Valid() ==> box.Contains(p)
  {
    box.MapSample(m[2 * i].value, m[2 * i + 1].value)
  }

  function Min(a: int, b: int): int
  {
    if a <= b then a else b
  }

  /** `Mathf.Min(m.Count() / 2, cap)`: how many pairs a receiver looks at. */
  function PairLimit(m: seq<OscArg>, cap: int): int
  {
    Min(|m| / 2, cap)
  }

  /** The detections built from the first n pairs, in pair order, with every
      pair whose read fails skipped. */
  function Detections(box: Box, m: seq<OscArg>, n: nat): seq<Point>
  {
    if n == 0 then []
    else Detections(box, m, n - 1) + (if PairReadable(m, n - 1) then [PairPoint(box, m, n - 1)] else [])
  }

  /** Point p is the mapped sample of some readable pair i with k <= i < n. */
  predicate FromPairAtOrAfter(box: Box, m: seq<OscArg>, n: nat, k: nat, p: Point)
  {
    exists i :: k <= i < n && PairReadable(m, i) && p == PairPoint(box, m, i)
  }

  /** Every detection is the mapped sample of a readable pair below n, no
      earlier than its own position in the list; their number is at most n,
      and exactly n when every pair below n is readable. */
  lemma {:induction false} DetectionsFromPairs(box: Box, m: seq<OscArg>, n: nat)
    ensures |Detections(box, m, n)| <= n
    ensures (forall i :: 0 <= i < n ==> PairReadable(m, i)) ==> |Detections(box, m, n)| == n
    ensures forall k :: 0 <= k < |Detections(box, m, n)| ==>
              FromPairAtOrAfter(box, m, n, k, Detections(box, m, n)[k])
  {
    if n > 0 {
      DetectionsFromPairs(box, m, n - 1);
      var prev := Detections(box, m, n - 1);
      var d := Detections(box, m, n);
      assert d == prev + (if PairReadable(m, n - 1) then [PairPoint(box, m, n - 1)] else []);
      forall k | 0 <= k < |d|
        ensures FromPairAtOrAfter(box, m, n, k, d[k])
      {
        if k < |prev| {
          assert d[k] == prev[k];
          assert FromPairAtOrAfter(box, m, n - 1, k, prev[k]);
          var i :| k <= i < n - 1 && PairReadable(m, i) && prev[k] == PairPoint(box, m, i);
          assert k <= i < n && PairReadable(m, i) && d[k] == PairPoint(box, m, i);
        } else {
          assert k <= n - 1 < n && PairReadable(m, n - 1) && d[k] == PairPoint(box, m, n - 1);
        }
      }
    }
  }

  /** Every detection lies in the world rectangle when the rectangle is
      well formed: the raw sample is clamped to [0,1] before the lerp. */
  lemma {:induction false} DetectionsInBox(box: Box, m: seq<OscArg>, n: nat)
    requires box.Valid()
    ensures forall k :: 0 <= k < |Detections(box, m, n)| ==> box.Contains(Detections(box, m, n)[k])
  {
    if n > 0 {
      DetectionsInBox(box, m, n - 1);
    }
  }

  /** The detection-building loop of the stable receiver's `OnPosition`:
      reads at most `min(m.Count() / 2, cap)` pairs and skips unreadable
      ones. */
  method ReadDetections(box: Box, m: seq<OscArg>, cap: int) returns (det: seq<Point>)
    ensures det == Detections(box, m, if PairLimit(m, cap) < 0 then 0 else PairLimit(m, cap))
    ensures |det| <= |m| / 2 && |det| <= if cap < 0 then 0 else cap
    ensures box.Valid() ==> forall k :: 0 <= k < |det| ==> box.Contains(det[k])
  {
    var n := PairLimit(m, cap);
    det := [];
    var i := 0;
    while i < n
      invariant 0 <= i <= if n < 0 then 0 else n
      invariant det == Detections(box, m, i)
    {
      if PairReadable(m, i) {
        det := det + [box.MapSample(m[2 * i].value, m[2 * i + 1].value)];
      }
      i := i + 1;
    }
    DetectionsFromPairs(box, m, i);
    if box.Valid() {
      DetectionsInBox(box, m, i);
    }
  }
}
