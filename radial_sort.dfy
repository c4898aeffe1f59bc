/**
  `LightCast.cs:94-100`: the vertices are put in ascending order of their bearing
  from the light. The bearing (`Mathf.Atan2`) is the engine's; only its order
  is used.
*/
module RadialSort {
  import opened Engine

  /** The bearing of `p` seen from the light. */
  function Bearing<P>(scene: Scene<P>, p: P): real
  {
    scene.bearing(scene.position, p)
  }

  ghost predicate SortedByBearing<P>(scene: Scene<P>, s: seq<P>)
  {
    forall i, j :: 0 <= i < j < |s| ==> Bearing(scene, s[i]) <= Bearing(scene, s[j])
  }

  /** `x` placed before the first element of `s` whose bearing is larger. */
  function Insert<P>(scene: Scene<P>, x: P, s: seq<P>): seq<P>
  {
    if |s| == 0 || Bearing(scene, x) <= Bearing(scene, s[0]) then [x] + s
    else [s[0]] + Insert(scene, x, s[1..])
  }


  lemma {:induction false} InsertKeeps<P>(scene: Scene<P>, x: P, s: seq<P>)
    ensures multiset(Insert(scene, x, s)) == multiset(s) + multiset{x}
    ensures SortedByBearing(scene, s) ==> SortedByBearing(scene, Insert(scene, x, s))
  {
    if |s| > 0 && Bearing(scene, x) > Bearing(scene, s[0]) {
      InsertKeeps(scene, x, s[1..]);
      assert s == [s[0]] + s[1..];
      var r := Insert(scene, x, s[1..]);
      if SortedByBearing(scene, s) {
        forall y | y in multiset(r) ensures Bearing(scene, s[0]) <= Bearing(scene, y) {
          assert y in multiset(s[1..]) + multiset{x};
        }
        forall i | 0 <= i < |r| ensures Bearing(scene, s[0]) <= Bearing(scene, r[i]) {
          assert r[i] in multiset(r);
        }
      }
    }
  }

  /** A permutation of `s` in ascending order of bearing. */
  function SortRadially<P>(scene: Scene<P>, s: seq<P>): (r: seq<P>)
    ensures multiset(r) == multiset(s)
    ensures SortedByBearing(scene, r)
  {
    if |s| == 0 then []
    else
      var sorted := SortRadially(scene, s[1..]);
      InsertKeeps(scene, s[0], sorted);
      assert s == [s[0]] + s[1..];
      Insert(scene, s[0], sorted)
  }
}
