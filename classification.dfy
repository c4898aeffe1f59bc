/**
  `LightCast.cs:104-159`: one ray per vertex, in order. The ray toward a vertex is cast
  from the light; what it reports decides whether the vertex is dropped or
  yields a `LightRay`, and the rays kept are appended to a list.
*/
module Classification {
  import opened Wrappers
  import opened Engine
  import opened LightRays

  /** The direction from the light toward `vertex` (`LightCast.cs:107`). */
  function RayDirection<P>(scene: Scene<P>, vertex: P): P
  {
    scene.direction(scene.position, vertex)
  }

  /** The ray cast from the light toward `vertex` (`LightCast.cs:109`). */
  function FirstHit<P>(scene: Scene<P>, vertex: P): Hit<P>
  {
    scene.raycast(scene.position, RayDirection(scene, vertex))
  }

  /** The probe cast from just past `vertex`, in the same direction (`LightCast.cs:136`). */
  function ProbeHit<P>(scene: Scene<P>, vertex: P): Hit<P>
  {
    var d := RayDirection(scene, vertex);
    scene.raycast(scene.advance(vertex, d, ProbeStep), d)
  }

  /** The hit is reported farther from the light than the vertex (`LightCast.cs:119`). */
  predicate Beyond<P>(scene: Scene<P>, hit: P, vertex: P)
  {
    scene.distance(scene.position, hit) > scene.distance(scene.position, vertex)
  }

  /** The ray, if any, that `vertex` contributes. A ray starts at its vertex
      (exactly, or equal to it under `Vector2 ==`); a second point is either
      farther from the light than the first or more than the threshold past it;
      without one, the second point keeps its default value. */
  function Classify<P>(scene: Scene<P>, vertex: P): (r: Option<Ray<P>>)
    ensures r.Some? ==> r.value.first == vertex || scene.equal(r.value.first, vertex)
    ensures r.Some? && r.value.hasSecond ==>
      Beyond(scene, r.value.second, r.value.first) ||
      scene.distance(r.value.second, r.value.first) > PassThreshold
    ensures r.Some? && !r.value.hasSecond ==> r.value.second == scene.zero
  {
    var hit := FirstHit(scene, vertex);
    if !hit.hasCollider then None
    else if !scene.equal(hit.point, vertex) then
      if Beyond(scene, hit.point, vertex) then Some(Ray(vertex, hit.point, true))
      else None
    else
      var next := ProbeHit(scene, vertex);
      if scene.distance(next.point, hit.point) > PassThreshold then Some(Ray(hit.point, next.point, true))
      else Some(Ray(hit.point, scene.zero, false))
  }

  function Emitted<P>(r: Option<Ray<P>>): seq<Ray<P>>
  {
    if r.Some? then [r.value] else []
  }

  /** The rays of the vertices `points`, in order. */
  function Traced<P>(scene: Scene<P>, points: seq<P>): seq<Ray<P>>
  {
    if |points| == 0 then []
    else Traced(scene, points[..|points| - 1]) + Emitted(Classify(scene, points[|points| - 1]))
  }

  /** The positions in `points` of the vertices that yield a ray. */
  function Sources<P>(scene: Scene<P>, points: seq<P>): seq<nat>
  {
    if |points| == 0 then []
    else
      var k := |points| - 1;
      Sources(scene, points[..k]) + if Classify(scene, points[k]).Some? then [k] else []
  }

  /** A vertex is dropped exactly when nothing was struck, or when the ray
      struck something other than the vertex no farther away than the vertex. */
  lemma ClassifyDrops<P>(scene: Scene<P>, vertex: P)
    ensures Classify(scene, vertex).None? <==>
      var hit := FirstHit(scene, vertex);
      !hit.hasCollider || (!scene.equal(hit.point, vertex) && !Beyond(scene, hit.point, vertex))
  {
  }

  /** A ray that struck past the vertex runs from the vertex to what it struck. */
  lemma ClassifyPassThrough<P>(scene: Scene<P>, vertex: P)
    requires FirstHit(scene, vertex).hasCollider
    requires !scene.equal(FirstHit(scene, vertex).point, vertex)
    requires Beyond(scene, FirstHit(scene, vertex).point, vertex)
    ensures Classify(scene, vertex) == Some(Ray(vertex, FirstHit(scene, vertex).point, true))
  {
  }

  /** A ray that struck the vertex itself starts there, and has a second point
      exactly when the probe travelled more than the threshold past it. */
  lemma ClassifyCorner<P>(scene: Scene<P>, vertex: P)
    requires FirstHit(scene, vertex).hasCollider
    requires scene.equal(FirstHit(scene, vertex).point, vertex)
    ensures Classify(scene, vertex).Some?
    ensures Classify(scene, vertex).value.first == FirstHit(scene, vertex).point
    ensures Classify(scene, vertex).value.hasSecond <==>
      scene.distance(ProbeHit(scene, vertex).point, FirstHit(scene, vertex).point) > PassThreshold
    ensures Classify(scene, vertex).value.hasSecond ==>
      Classify(scene, vertex).value.second == ProbeHit(scene, vertex).point
  {
  }

  lemma {:induction false} TracedLength<P>(scene: Scene<P>, points: seq<P>)
    ensures |Traced(scene, points)| <= |points|
  {
    if |points| > 0 {
      TracedLength(scene, points[..|points| - 1]);
    }
  }

  /** The rays are those of the vertices that are not dropped, in vertex order. */
  lemma {:induction false} TracedOrder<P>(scene: Scene<P>, points: seq<P>)
    ensures |Sources(scene, points)| == |Traced(scene, points)|
    ensures forall i :: 0 <= i < |Sources(scene, points)| ==>
      Sources(scene, points)[i] < |points| &&
      Classify(scene, points[Sources(scene, points)[i]]) == Some(Traced(scene, points)[i])
    ensures forall i, j :: 0 <= i < j < |Sources(scene, points)| ==>
      Sources(scene, points)[i] < Sources(scene, points)[j]
    ensures forall k :: 0 <= k < |points| && Classify(scene, points[k]).Some? ==>
      k in Sources(scene, points)
  {
    if |points| > 0 {
      var n := |points| - 1;
      var init := points[..n];
      TracedOrder(scene, init);
      assert forall k :: 0 <= k < n ==> init[k] == points[k];
    }
  }

  /** Every ray starts at its vertex: at the vertex itself when the cast went
      past it, at the reported hit, equal to the vertex under `Vector2 ==`, otherwise. */
  lemma RaysStartAtVertices<P>(scene: Scene<P>, points: seq<P>)
    ensures |Sources(scene, points)| == |Traced(scene, points)|
    ensures forall i :: 0 <= i < |Sources(scene, points)| ==> Sources(scene, points)[i] < |points|
    ensures forall i :: 0 <= i < |Sources(scene, points)| ==>
      var v := points[Sources(scene, points)[i]];
      var r := Traced(scene, points)[i];
      r.first == v || scene.equal(r.first, v)
  {
    TracedOrder(scene, points);
  }

  /** The loop of `LightCast.cs:104-159`, building each ray with a `LightRay` record. */
  method TraceRays<P>(scene: Scene<P>, points: seq<P>) returns (lightPositions: seq<Ray<P>>)
    ensures lightPositions == Traced(scene, points)
  {
    lightPositions := [];
    for i := 0 to |points|
      invariant lightPositions == Traced(scene, points[..i])
    {
      var vertex := points[i];
      assert points[..i + 1][..i] == points[..i];
      var rayDirection := scene.direction(scene.position, vertex);
      var hit := scene.raycast(scene.position, rayDirection);
      if hit.hasCollider {
        var result := new LightRay(scene.zero);
        if !scene.equal(hit.point, vertex) {
          if scene.distance(scene.position, hit.point) > scene.distance(scene.position, vertex) {
            result.SetFirstPoint(vertex);
            result.SetSecondPoint(hit.point);
          } else {
            continue;
          }
        } else {
          result.SetFirstPoint(hit.point);
          var nextHit := scene.raycast(scene.advance(vertex, rayDirection, ProbeStep), rayDirection);
          if scene.distance(nextHit.point, hit.point) > PassThreshold {
            result.SetSecondPoint(nextHit.point);
          }
        }
        lightPositions := lightPositions + [result.Value()];
      }
    }
    assert points[..|points|] == points;
  }
}
