/**
  `CastLight` (`LightCast.cs:75-159`): gather the occluder vertices, order them by
  bearing from the light, and trace one ray per vertex.
*/
module LightCast {
  import opened Engine
  import opened LightRays
  import opened Occluders
  import opened RadialSort
  import opened Classification

  /** `paths` are the collider's paths (`Collider.GetPath(j)` for each `j`). */
  method CastLight<P(==)>(scene: Scene<P>, paths: seq<seq<P>>) returns (lightPositions: seq<Ray<P>>)
    ensures lightPositions == Traced(scene, SortRadially(scene, Distinct(Flatten(paths))))
    ensures |lightPositions| <= |Distinct(Flatten(paths))|
  {
    var points := CollectVertices(paths);
    points := SortRadially(scene, points);
    lightPositions := TraceRays(scene, points);
    assert |points| == |Distinct(Flatten(paths))| by {
      assert |multiset(points)| == |multiset(Distinct(Flatten(paths)))|;
    }
    TracedLength(scene, points);
  }
}
