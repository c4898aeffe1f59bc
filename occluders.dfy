/**
  The occluder vertices: the collider's paths are walked in order and every
  point is kept the first time it is met (`List.Contains` compares
  `Vector2` values exactly, so this is Dafny's `==`).
*/
module Occluders {

  /** All points of all paths, path after path. */
  function Flatten<P>(paths: seq<seq<P>>): seq<P>
  {
    if |paths| == 0 then [] else Flatten(paths[..|paths| - 1]) + paths[|paths| - 1]
  }

  /** `p` is a point of one of the paths. */
  ghost predicate OnSomePath<P>(paths: seq<seq<P>>, p: P)
  {
    exists j :: 0 <= j < |paths| && p in paths[j]
  }

  /** `s` read left to right, each value kept at its first occurrence only. */
  function Distinct<P(==)>(s: seq<P>): seq<P>
  {
    if |s| == 0 then []
    else
      var d := Distinct(s[..|s| - 1]);
      if s[|s| - 1] in d then d else d + [s[|s| - 1]]
  }

  ghost predicate NoDuplicates<P>(s: seq<P>)
  {
    forall i, j :: 0 <= i < j < |s| ==> s[i] != s[j]
  }

  /** The position at which `x` first occurs in `s`. */
  function FirstIndex<P(==)>(s: seq<P>, x: P): (k: nat)
    requires x in s
    ensures k < |s| && s[k] == x
    ensures forall m :: 0 <= m < k ==> s[m] != x
  {
    if s[0] == x then 0 else 1 + FirstIndex(s[1..], x)
  }

  lemma FirstIndexUnique<P>(s: seq<P>, x: P, k: nat)
    requires x in s && k < |s| && s[k] == x
    requires forall m :: 0 <= m < k ==> s[m] != x
    ensures FirstIndex(s, x) == k
  {
  }

  /** Appending a value does not move the first occurrence of anything already present. */
  lemma FirstIndexSnoc<P>(s: seq<P>, y: P, x: P)
    requires x in s
    ensures x in s + [y] && FirstIndex(s + [y], x) == FirstIndex(s, x)
  {
    var k := FirstIndex(s, x);
    FirstIndexUnique(s + [y], x, k);
  }

  lemma {:induction false} FlattenMembership<P>(paths: seq<seq<P>>, p: P)
    ensures p in Flatten(paths) <==> OnSomePath(paths, p)
  {
    if |paths| > 0 {
      var init := paths[..|paths| - 1];
      FlattenMembership(init, p);
      if OnSomePath(init, p) {
        var j :| 0 <= j < |init| && p in init[j];
        assert paths[j] == init[j];
      }
      if OnSomePath(paths, p) && p !in paths[|paths| - 1] {
        var j :| 0 <= j < |paths| && p in paths[j];
        assert j < |init| && init[j] == paths[j];
      }
    }
  }

  lemma DistinctSnoc<P>(s: seq<P>, x: P)
    ensures Distinct(s + [x]) == if x in Distinct(s) then Distinct(s) else Distinct(s) + [x]
  {
    assert (s + [x])[..|s|] == s;
  }

  lemma {:induction false} DistinctElements<P>(s: seq<P>)
    ensures forall x :: x in Distinct(s) <==> x in s
  {
    if |s| > 0 {
      var init := s[..|s| - 1];
      DistinctElements(init);
      assert s == init + [s[|s| - 1]];
    }
  }

  lemma {:induction false} DistinctNoDuplicates<P>(s: seq<P>)
    ensures NoDuplicates(Distinct(s))
  {
    if |s| > 0 {
      DistinctNoDuplicates(s[..|s| - 1]);
    }
  }

  /** The kept values appear in the order of their first occurrences. */
  lemma {:induction false} DistinctFirstOccurrenceOrder<P>(s: seq<P>)
    ensures forall x :: x in Distinct(s) ==> x in s
    ensures forall i, j :: 0 <= i < j < |Distinct(s)| ==>
      FirstIndex(s, Distinct(s)[i]) < FirstIndex(s, Distinct(s)[j])
  {
    DistinctElements(s);
    if |s| > 0 {
      var init, y := s[..|s| - 1], s[|s| - 1];
      assert s == init + [y];
      DistinctFirstOccurrenceOrder(init);
      DistinctElements(init);
      var d, d' := Distinct(init), Distinct(s);
      forall i, j | 0 <= i < j < |d'|
        ensures FirstIndex(s, d'[i]) < FirstIndex(s, d'[j])
      {
        FirstIndexSnoc(init, y, d'[i]);
        if j < |d| {
          FirstIndexSnoc(init, y, d'[j]);
        } else {
          assert d'[j] == y && y !in init;
          FirstIndexUnique(s, y, |init|);
        }
      }
    }
  }

  /** `LightCast.cs:79-90`: collect each point of each path unless it is already listed. */
  method CollectVertices<P(==)>(paths: seq<seq<P>>) returns (points: seq<P>)
    ensures points == Distinct(Flatten(paths))
    ensures NoDuplicates(points)
    ensures forall p :: p in points <==> OnSomePath(paths, p)
  {
    points := [];
    for j := 0 to |paths|
      invariant points == Distinct(Flatten(paths[..j]))
    {
      ghost var before := Flatten(paths[..j]);
      var path := paths[j];
      assert before + path[..0] == before;
      for k := 0 to |path|
        invariant points == Distinct(before + path[..k])
      {
        var point := path[k];
        assert before + path[..k + 1] == (before + path[..k]) + [point];
        DistinctSnoc(before + path[..k], point);
        if point !in points {
          points := points + [point];
        }
      }
      assert path[..|path|] == path;
      assert paths[..j + 1][..j] == paths[..j];
    }
    assert paths[..|paths|] == paths;
    DistinctNoDuplicates(Flatten(paths));
    DistinctElements(Flatten(paths));
    forall p ensures p in points <==> OnSomePath(paths, p) {
      FlattenMembership(paths, p);
    }
  }
}
