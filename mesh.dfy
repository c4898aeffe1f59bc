/**
  `CreateMesh` (`LightCast.cs:204-249`): the polygon's nodes become the mesh's
  vertices, the texture coordinates alternate by index parity, and the
  triangles form a fan around vertex 0.
*/
module Meshes {
  import opened Wrappers

  /** A texture coordinate; the program only ever writes (0, 0) and (1, 1). */
  datatype Uv = Uv(u: int, v: int)

  /** The arrays handed to the engine's `Mesh`. */
  datatype Mesh<P> = Mesh(vertices: array<P>, uvs: array<Uv>, triangles: array<int>)

  /** The texture coordinate of vertex `x`. */
  function UvAt(x: nat): Uv
  {
    if x % 2 == 0 then Uv(0, 0) else Uv(1, 1)
  }

  /** Entry `i` of the flattened index list of the fan over `n` vertices. */
  function FanIndex(n: int, i: nat): int
  {
    var k := i / 3;
    if i % 3 == 0 then 0 else if i % 3 == 1 then n - 1 - k else n - 2 - k
  }

  /** Every index names one of the `n` vertices. */
  lemma FanIndexInRange(n: int, i: nat)
    requires 2 <= n && i < 3 * (n - 2)
    ensures 0 <= FanIndex(n, i) < n
  {
    assert i / 3 < n - 2;
  }

  /** Triangle `k` is `(0, n-1-k, n-2-k)`. */
  lemma FanTriangle(n: int, k: nat)
    ensures FanIndex(n, 3 * k) == 0
    ensures FanIndex(n, 3 * k + 1) == n - 1 - k
    ensures FanIndex(n, 3 * k + 2) == n - 2 - k
  {
    assert (3 * k) / 3 == (3 * k + 1) / 3 == (3 * k + 2) / 3 == k;
  }

  /** Consecutive triangles share the edge from vertex 0 to the previous triangle's last vertex. */
  lemma FanSharedEdge(n: int, k: nat)
    requires 1 <= k
    ensures FanIndex(n, 3 * k) == FanIndex(n, 3 * (k - 1))
    ensures FanIndex(n, 3 * k + 1) == FanIndex(n, 3 * (k - 1) + 2)
  {
    FanTriangle(n, k);
    FanTriangle(n, k - 1);
  }

  /** With at least three vertices no triangle is degenerate in its indices. */
  lemma FanDistinct(n: int, k: nat)
    requires 3 <= n && k < n - 2
    ensures FanIndex(n, 3 * k) != FanIndex(n, 3 * k + 1)
    ensures FanIndex(n, 3 * k + 1) != FanIndex(n, 3 * k + 2)
    ensures FanIndex(n, 3 * k) != FanIndex(n, 3 * k + 2)
  {
    FanTriangle(n, k);
  }

  /** Builds the mesh arrays. With fewer than two nodes the triangle array would
      have a negative length, and its allocation throws: no mesh is built. */
  method CreateMesh<P(0)>(nodes: seq<P>) returns (mesh: Option<Mesh<P>>)
    ensures mesh.None? <==> |nodes| < 2
    ensures mesh.Some? ==>
      var m := mesh.value;
      m.vertices[..] == nodes &&
      m.uvs.Length == |nodes| &&
      (forall x :: 0 <= x < m.uvs.Length ==> m.uvs[x] == UvAt(x)) &&
      m.triangles.Length == 3 * (|nodes| - 2) &&
      (forall i :: 0 <= i < m.triangles.Length ==> m.triangles[i] == FanIndex(|nodes|, i)) &&
      (forall i :: 0 <= i < m.triangles.Length ==> 0 <= m.triangles[i] < |nodes|)
  {
    var vertex := new P[|nodes|];
    for x := 0 to |nodes|
      modifies vertex
      invariant forall y :: 0 <= y < x ==> vertex[y] == nodes[y]
    {
      vertex[x] := nodes[x];
    }

    var uvs := new Uv[vertex.Length];
    for x := 0 to vertex.Length
      modifies uvs
      invariant forall y :: 0 <= y < x ==> uvs[y] == UvAt(y)
    {
      if x % 2 == 0 {
        uvs[x] := Uv(0, 0);
      } else {
        uvs[x] := Uv(1, 1);
      }
    }

    if vertex.Length < 2 {
      return None;
    }
    var tris := new int[3 * (vertex.Length - 2)];
    var c1, c2, c3 := 0, vertex.Length - 1, vertex.Length - 2;
    var x := 0;
    while x < tris.Length
      modifies tris
      invariant x % 3 == 0 && x <= tris.Length
      invariant c1 == 0 && c2 == vertex.Length - 1 - x / 3 && c3 == vertex.Length - 2 - x / 3
      invariant forall i :: 0 <= i < x ==> tris[i] == FanIndex(vertex.Length, i)
    {
      tris[x] := c1;
      tris[x + 1] := c2;
      tris[x + 2] := c3;
      FanTriangle(vertex.Length, x / 3);
      c2 := c2 - 1;
      c3 := c3 - 1;
      x := x + 3;
    }
    forall i | 0 <= i < tris.Length ensures 0 <= tris[i] < |nodes| {
      FanIndexInRange(|nodes|, i);
    }
    assert vertex[..] == nodes;
    mesh := Some(Mesh(vertex, uvs, tris));
  }
}
