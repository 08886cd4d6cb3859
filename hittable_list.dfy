/** A scene: a list of spheres and the nearest-hit search over it. */
module Scene {
  import opened Options
  import opened Vectors
  import opened Rays
  import opened Intervals
  import opened Hits
  import opened Spheres

  /** No sphere of the list would reach the panicking division by a zero radius
      when queried alone on `rayT`. */
  ghost predicate NonDegenerate(objects: seq<Sphere>, ray: Ray, rayT: Interval, sqrt: real -> real)
    requires IsSqrt(sqrt)
    requires ray.dir != Zero
  {
    forall o :: o in objects ==> o.radius != 0.0 || o.Root(ray, rayT, sqrt).None?
  }

  /** `closest_so_far` for a result found so far: its `t`, or the query's upper bound. */
  function Closest(best: Option<HitRecord>, rayT: Interval): real
  {
    if best.Some? then best.value.t else rayT.max
  }

  /** The hit that the `hit` loop holds after visiting `objects` in order: each sphere
      is queried on `(rayT.min, closest_so_far)` and a hit replaces the previous one. */
  function Nearest(objects: seq<Sphere>, ray: Ray, rayT: Interval, sqrt: real -> real): (r: Option<HitRecord>)
    requires IsSqrt(sqrt)
    requires ray.dir != Zero
    requires NonDegenerate(objects, ray, rayT, sqrt)
    ensures r.Some? ==> rayT.min < r.value.t < rayT.max
    ensures r.Some? ==> LenSq(r.value.normal) == 1.0 && Dot(ray.dir, r.value.normal) <= 0.0
    decreases |objects|
  {
    if |objects| == 0 then None
    else
      var prev := Nearest(objects[..|objects| - 1], ray, rayT, sqrt);
      var closest := Closest(prev, rayT);
      var last := objects[|objects| - 1];
      HitNarrowed(last, ray, rayT, closest, sqrt);
      match last.Hit(ray, Interval(rayT.min, closest), sqrt)
      case Some(rec) => Some(rec)
      case None => prev
  }

  /** Sphere `k`, queried alone, gives `r`, and no earlier sphere hits at `r`'s `t` or closer. */
  ghost predicate FirstClosestAt(objects: seq<Sphere>, k: int, ray: Ray, rayT: Interval, sqrt: real -> real, r: Option<HitRecord>)
    requires IsSqrt(sqrt)
    requires ray.dir != Zero
    requires NonDegenerate(objects, ray, rayT, sqrt)
    requires r.Some?
  {
    && 0 <= k < |objects|
    && objects[k].Hit(ray, rayT, sqrt) == r
    && forall j :: 0 <= j < k && objects[j].Hit(ray, rayT, sqrt).Some? ==>
         objects[j].Hit(ray, rayT, sqrt).value.t > r.value.t
  }

  /** The last sphere's hit replaces the result over the rest exactly when it is strictly
      closer (or the rest found nothing): the narrowed query of `Nearest`, stated with
      each sphere queried alone on `rayT`. */
  lemma NearestUnfold(objects: seq<Sphere>, ray: Ray, rayT: Interval, sqrt: real -> real)
    requires IsSqrt(sqrt)
    requires ray.dir != Zero
    requires NonDegenerate(objects, ray, rayT, sqrt)
    requires |objects| > 0
    ensures NonDegenerate(objects[..|objects| - 1], ray, rayT, sqrt)
    ensures var prev := Nearest(objects[..|objects| - 1], ray, rayT, sqrt);
      var full := objects[|objects| - 1].Hit(ray, rayT, sqrt);
      Nearest(objects, ray, rayT, sqrt)
        == if full.Some? && (prev.None? || full.value.t < prev.value.t) then full else prev
  {
    var prev := Nearest(objects[..|objects| - 1], ray, rayT, sqrt);
    HitNarrowed(objects[|objects| - 1], ray, rayT, Closest(prev, rayT), sqrt);
  }

  /** The reference fold: over the results of querying each sphere alone, a result
      replaces the one held only when it is strictly closer. */
  function FirstNearest(hits: seq<Option<HitRecord>>): Option<HitRecord>
  {
    if |hits| == 0 then None
    else
      var prev := FirstNearest(hits[..|hits| - 1]);
      var h := hits[|hits| - 1];
      if h.Some? && (prev.None? || h.value.t < prev.value.t) then h else prev
  }

  /** `hits[k]` is `r`, and every earlier result is strictly farther. */
  ghost predicate FirstMinimumAt(hits: seq<Option<HitRecord>>, k: int, r: Option<HitRecord>)
    requires r.Some?
  {
    && 0 <= k < |hits|
    && hits[k] == r
    && forall j :: 0 <= j < k && hits[j].Some? ==> hits[j].value.t > r.value.t
  }

  lemma {:induction false} FirstNearestNoneIff(hits: seq<Option<HitRecord>>)
    ensures FirstNearest(hits).None? <==> forall k :: 0 <= k < |hits| ==> hits[k].None?
  {
    if |hits| > 0 {
      var prefix := hits[..|hits| - 1];
      FirstNearestNoneIff(prefix);
      assert forall k :: 0 <= k < |hits| - 1 ==> hits[k] == prefix[k];
    }
  }

  lemma {:induction false} FirstNearestIsMinimal(hits: seq<Option<HitRecord>>)
    ensures var r := FirstNearest(hits);
      r.Some? ==> forall k :: 0 <= k < |hits| && hits[k].Some? ==> r.value.t <= hits[k].value.t
  {
    if |hits| > 0 {
      var prefix := hits[..|hits| - 1];
      FirstNearestIsMinimal(prefix);
      FirstNearestNoneIff(prefix);
      assert forall k :: 0 <= k < |hits| - 1 ==> hits[k] == prefix[k];
    }
  }

  lemma {:induction false} FirstNearestIsEarliest(hits: seq<Option<HitRecord>>)
    ensures var r := FirstNearest(hits);
      r.Some? ==> exists k :: FirstMinimumAt(hits, k, r)
  {
    if |hits| > 0 {
      var n := |hits|;
      var prefix := hits[..n - 1];
      FirstNearestIsEarliest(prefix);
      FirstNearestIsMinimal(prefix);
      FirstNearestNoneIff(prefix);
      assert forall k :: 0 <= k < n - 1 ==> hits[k] == prefix[k];
      var prev := FirstNearest(prefix);
      var h := hits[n - 1];
      if h.Some? && (prev.None? || h.value.t < prev.value.t) {
        assert FirstMinimumAt(hits, n - 1, h);
      } else if prev.Some? {
        var k :| FirstMinimumAt(prefix, k, prev);
        assert FirstMinimumAt(hits, k, prev);
      }
    }
  }

  /** The result of querying each sphere alone on `rayT`, in list order. */
  function Solo(objects: seq<Sphere>, ray: Ray, rayT: Interval, sqrt: real -> real): (hits: seq<Option<HitRecord>>)
    requires IsSqrt(sqrt)
    requires ray.dir != Zero
    requires NonDegenerate(objects, ray, rayT, sqrt)
    ensures |hits| == |objects|
    ensures forall k :: 0 <= k < |objects| ==> hits[k] == objects[k].Hit(ray, rayT, sqrt)
  {
    seq(|objects|, k requires 0 <= k < |objects| => objects[k].Hit(ray, rayT, sqrt))
  }

  /** The loop with its narrowing upper bound computes the reference fold over the
      spheres queried alone. */
  lemma {:induction false} NearestIsFirstNearest(objects: seq<Sphere>, ray: Ray, rayT: Interval, sqrt: real -> real)
    requires IsSqrt(sqrt)
    requires ray.dir != Zero
    requires NonDegenerate(objects, ray, rayT, sqrt)
    ensures Nearest(objects, ray, rayT, sqrt) == FirstNearest(Solo(objects, ray, rayT, sqrt))
    decreases |objects|
  {
    if |objects| > 0 {
      var n := |objects|;
      var prefix := objects[..n - 1];
      NearestUnfold(objects, ray, rayT, sqrt);
      NearestIsFirstNearest(prefix, ray, rayT, sqrt);
      SoloPrefix(objects, ray, rayT, sqrt);
    }
  }

  /** Dropping the last sphere drops the last solo result. */
  lemma SoloPrefix(objects: seq<Sphere>, ray: Ray, rayT: Interval, sqrt: real -> real)
    requires IsSqrt(sqrt)
    requires ray.dir != Zero
    requires NonDegenerate(objects, ray, rayT, sqrt)
    requires |objects| > 0
    ensures NonDegenerate(objects[..|objects| - 1], ray, rayT, sqrt)
    ensures Solo(objects, ray, rayT, sqrt)[..|objects| - 1] == Solo(objects[..|objects| - 1], ray, rayT, sqrt)
  {
    var prefix := objects[..|objects| - 1];
    assert forall o :: o in prefix ==> o in objects;
  }

  /** The loop finds nothing exactly when no sphere is hit on `rayT` alone. */
  lemma NearestNoneIff(objects: seq<Sphere>, ray: Ray, rayT: Interval, sqrt: real -> real)
    requires IsSqrt(sqrt)
    requires ray.dir != Zero
    requires NonDegenerate(objects, ray, rayT, sqrt)
    ensures Nearest(objects, ray, rayT, sqrt).None? <==>
      forall k :: 0 <= k < |objects| ==> objects[k].Hit(ray, rayT, sqrt).None?
  {
    NearestIsFirstNearest(objects, ray, rayT, sqrt);
    FirstNearestNoneIff(Solo(objects, ray, rayT, sqrt));
  }

  /** A found hit is at least as close as the hit of every sphere queried alone. */
  lemma NearestIsMinimal(objects: seq<Sphere>, ray: Ray, rayT: Interval, sqrt: real -> real)
    requires IsSqrt(sqrt)
    requires ray.dir != Zero
    requires NonDegenerate(objects, ray, rayT, sqrt)
    ensures var r := Nearest(objects, ray, rayT, sqrt);
      r.Some? ==> forall k :: 0 <= k < |objects| && objects[k].Hit(ray, rayT, sqrt).Some? ==>
        r.value.t <= objects[k].Hit(ray, rayT, sqrt).value.t
  {
    NearestIsFirstNearest(objects, ray, rayT, sqrt);
    FirstNearestIsMinimal(Solo(objects, ray, rayT, sqrt));
  }

  /** A found hit is the one of a sphere that no earlier sphere hits as close: among
      spheres hit at the same `t` the first in the list wins, because the narrowed
      upper bound is exclusive. */
  lemma NearestIsEarliest(objects: seq<Sphere>, ray: Ray, rayT: Interval, sqrt: real -> real)
    requires IsSqrt(sqrt)
    requires ray.dir != Zero
    requires NonDegenerate(objects, ray, rayT, sqrt)
    ensures var r := Nearest(objects, ray, rayT, sqrt);
      r.Some? ==> exists k :: FirstClosestAt(objects, k, ray, rayT, sqrt, r)
  {
    var hits := Solo(objects, ray, rayT, sqrt);
    var r := Nearest(objects, ray, rayT, sqrt);
    NearestIsFirstNearest(objects, ray, rayT, sqrt);
    FirstNearestIsEarliest(hits);
    if r.Some? {
      var k :| FirstMinimumAt(hits, k, r);
      assert FirstClosestAt(objects, k, ray, rayT, sqrt, r);
    }
  }

  /** One iteration of the loop: sphere `i` is queried below the closest hit so far. */
  lemma NearestStep(objects: seq<Sphere>, i: int, ray: Ray, rayT: Interval, sqrt: real -> real)
    requires IsSqrt(sqrt)
    requires ray.dir != Zero
    requires NonDegenerate(objects, ray, rayT, sqrt)
    requires 0 <= i < |objects|
    ensures NonDegenerate(objects[..i], ray, rayT, sqrt) && NonDegenerate(objects[..i + 1], ray, rayT, sqrt)
    ensures var prev := Nearest(objects[..i], ray, rayT, sqrt);
      var narrowed := Interval(rayT.min, Closest(prev, rayT));
      && (objects[i].radius != 0.0 || objects[i].Root(ray, narrowed, sqrt).None?)
      && Nearest(objects[..i + 1], ray, rayT, sqrt)
         == if objects[i].Hit(ray, narrowed, sqrt).Some? then objects[i].Hit(ray, narrowed, sqrt) else prev
  {
    assert objects[..i + 1][..i] == objects[..i];
    HitNarrowed(objects[i], ray, rayT, Closest(Nearest(objects[..i], ray, rayT, sqrt), rayT), sqrt);
  }

  /** All three properties of the loop's result together. */
  lemma NearestIsClosest(objects: seq<Sphere>, ray: Ray, rayT: Interval, sqrt: real -> real)
    requires IsSqrt(sqrt)
    requires ray.dir != Zero
    requires NonDegenerate(objects, ray, rayT, sqrt)
    ensures var r := Nearest(objects, ray, rayT, sqrt);
      r.None? <==> forall k :: 0 <= k < |objects| ==> objects[k].Hit(ray, rayT, sqrt).None?
    ensures var r := Nearest(objects, ray, rayT, sqrt);
      r.Some? ==> forall k :: 0 <= k < |objects| && objects[k].Hit(ray, rayT, sqrt).Some? ==>
        r.value.t <= objects[k].Hit(ray, rayT, sqrt).value.t
    ensures var r := Nearest(objects, ray, rayT, sqrt);
      r.Some? ==> exists k :: FirstClosestAt(objects, k, ray, rayT, sqrt, r)
  {
    NearestNoneIff(objects, ray, rayT, sqrt);
    NearestIsMinimal(objects, ray, rayT, sqrt);
    NearestIsEarliest(objects, ray, rayT, sqrt);
  }

  /** `closest_so_far` never increases from one iteration to the next. */
  lemma ClosestNeverIncreases(objects: seq<Sphere>, o: Sphere, ray: Ray, rayT: Interval, sqrt: real -> real)
    requires IsSqrt(sqrt)
    requires ray.dir != Zero
    requires NonDegenerate(objects + [o], ray, rayT, sqrt)
    ensures NonDegenerate(objects, ray, rayT, sqrt)
    ensures Closest(Nearest(objects + [o], ray, rayT, sqrt), rayT) <= Closest(Nearest(objects, ray, rayT, sqrt), rayT)
  {
    assert (objects + [o])[..|objects|] == objects;
  }

  /** `HittableList`: the scene's spheres, in the order they were added. */
  class HittableList {
    var objects: seq<Sphere>

    constructor ()
      ensures objects == []
    {
      objects := [];
    }

    /** `add` pushes the sphere onto the end of the list. */
    method Add(sphere: Sphere)
      modifies this
      ensures objects == old(objects) + [sphere]
    {
      objects := objects + [sphere];
    }

    /** `Hit for HittableList`: each sphere is queried with the upper bound narrowed
        to the closest hit found so far; the last hit found is returned. */
    method Hit(ray: Ray, rayT: Interval, sqrt: real -> real) returns (result: Option<HitRecord>)
      requires IsSqrt(sqrt)
      requires ray.dir != Zero
      requires NonDegenerate(objects, ray, rayT, sqrt)
      ensures result == Nearest(objects, ray, rayT, sqrt)
      ensures result.None? <==> forall k :: 0 <= k < |objects| ==> objects[k].Hit(ray, rayT, sqrt).None?
      ensures result.Some? ==> rayT.min < result.value.t < rayT.max
      ensures result.Some? ==> forall k :: 0 <= k < |objects| && objects[k].Hit(ray, rayT, sqrt).Some? ==>
        result.value.t <= objects[k].Hit(ray, rayT, sqrt).value.t
      ensures result.Some? ==> exists k :: FirstClosestAt(objects, k, ray, rayT, sqrt, result)
    {
      result := None;
      var closest := rayT.max;
      for i := 0 to |objects|
        invariant NonDegenerate(objects[..i], ray, rayT, sqrt)
        invariant result == Nearest(objects[..i], ray, rayT, sqrt)
        invariant closest == Closest(result, rayT)
      {
        NearestStep(objects, i, ray, rayT, sqrt);
        var hit := objects[i].Hit(ray, Interval(rayT.min, closest), sqrt);
        match hit {
          case Some(rec) =>
            closest := rec.t;
            result := Some(rec);
          case None =>
        }
      }
      assert objects[..|objects|] == objects;
      NearestIsClosest(objects, ray, rayT, sqrt);
    }
  }
}
