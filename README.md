# LightCast: a verified model of the 2D light caster's sequential core

The light caster (`LightCast`, a Unity component) computes the area lit by a
point light among polygon colliders. This project models its three pieces of
sequential logic, with Unity's engine services passed in as uninterpreted
functions (the `Engine.Scene` datatype):

- **Occluder vertex collection** (`Occluders`). The collider's paths are
  walked in order. Each point is kept the first time it appears. `List.Contains`
  compares `Vector2` values exactly, so this is Dafny's `==` on an abstract
  point type.
- **Radial ordering** (`RadialSort`). The vertices are ordered by ascending
  bearing from the light. The bearing is an abstract real-valued key standing
  for `Mathf.Atan2`.
- **Per-vertex ray classification** (`Classification`, `LightRays`). A ray is
  cast from the light toward each vertex. The vertex is dropped when nothing
  was struck, and skipped when the hit is not the vertex and no farther away
  than it. When the hit is farther, the vertex yields a two-point ray (vertex,
  hit). When the hit is the vertex (under Unity's tolerant `==`), a probe ray
  is cast from just past the vertex, and a second point is recorded when the
  probe's point is more than 0.01 away. `LightRay` is a class whose
  `SecondPoint` setter also raises `HasSecondPoint`. The kept rays are copied
  into a list, as the C# struct is copied by `List.Add`.
- **Mesh construction** (`Meshes`). `CreateMesh` copies the nodes into the
  vertex array and gives even-indexed vertices UV (0,0) and odd ones (1,1).
  It fills the index array with the fan triangles `(0, n-1-k, n-2-k)`.
- `LightCast.CastLight` composes collection, ordering and classification.

When the cast toward a vertex strikes something nearer than the vertex, the
code does no search of the edges adjacent to the vertex: it drops the vertex.
There is no flush-corner fallback, and the corner threshold (0.01) equals the
probe offset. When a cast strikes no collider, the vertex is skipped; the code
only writes a debug log message, which the model leaves out.

The code reads the probe ray's reported point without checking whether the
probe struck a collider (`Assets/LightCast.cs:136-141`). The model does the
same: `Hit` always carries the point the engine reports.

## Model

| member | source | states |
|---|---|---|
| `Occluders.CollectVertices` | Assets/LightCast.cs:79-90 | the nested loop returns exactly the first-occurrence deduplication of all path points in path order; it has no duplicates, and a point is in it iff it lies on some path |
| `Occluders.DistinctNoDuplicates` | Assets/LightCast.cs:85-88 | the deduplicated list never holds the same point twice |
| `Occluders.DistinctElements` | Assets/LightCast.cs:85-88 | the deduplicated list holds exactly the points of its input |
| `Occluders.DistinctFirstOccurrenceOrder` | Assets/LightCast.cs:81-90 | kept points appear in the order of their first occurrence in the input |
| `Occluders.FlattenMembership` | Assets/LightCast.cs:81-83 | a point occurs in the concatenated paths iff it occurs in one of the paths |
| `RadialSort.SortRadially` | Assets/LightCast.cs:94-100 | the radial ordering is a permutation of the vertices and is ascending by bearing from the light |
| `Classification.Classify` | Assets/LightCast.cs:109-142 | the ray, if any, one vertex yields: it starts at the vertex (exactly or under `Vector2 ==`); a second point is farther from the light than the first or more than 0.01 past it; without one the second point keeps its default value |
| `Classification.ClassifyDrops` | Assets/LightCast.cs:111-128 | a vertex yields no ray iff the cast struck no collider, or struck a point other than the vertex no farther from the light than the vertex |
| `Classification.ClassifyPassThrough` | Assets/LightCast.cs:115-123 | when the hit differs from the vertex and is farther away, the ray is (FirstPoint = vertex, SecondPoint = hit) |
| `Classification.ClassifyCorner` | Assets/LightCast.cs:130-142 | when the hit equals the vertex, FirstPoint is the hit, and a second point (the probe's point) is present iff the probe's point is more than 0.01 from the hit |
| `Classification.TracedLength` | Assets/LightCast.cs:104-159 | there are at most as many rays as vertices |
| `Classification.TracedOrder` | Assets/LightCast.cs:104-159 | the rays are exactly those of the vertices that are not dropped, one each, in the same relative order as their vertices |
| `Classification.RaysStartAtVertices` | Assets/LightCast.cs:115-132 | every ray's first point is its vertex or equal to it under the engine's `Vector2 ==` |
| `Classification.TraceRays` | Assets/LightCast.cs:104-159 | the loop that builds `LightRay` records and appends them (with `continue` for a skipped vertex) returns exactly the classification of each vertex, in order |
| `LightCast.CastLight` | Assets/LightCast.cs:75-159 | the rays are the classification of the deduplicated vertices in radial order, and there are at most as many rays as distinct vertices |
| `LightRays.LightRay.constructor` | Assets/LightCast.cs:6-22 | a new record has default points and `HasSecondPoint` false |
| `LightRays.LightRay.SetFirstPoint` | Assets/LightCast.cs:8 | assigning `FirstPoint` changes nothing else |
| `LightRays.LightRay.SetSecondPoint` | Assets/LightCast.cs:11-21 | assigning `SecondPoint` stores it and sets `HasSecondPoint`, leaving `FirstPoint` unchanged |
| `Meshes.CreateMesh` | Assets/LightCast.cs:204-249 | no mesh for fewer than two nodes (negative array length); otherwise the vertices equal the nodes, there are as many UVs with the parity pattern, `3*(n-2)` triangle indices following the fan, each in `[0, n)` |
| `Meshes.FanIndexInRange` | Assets/LightCast.cs:235-249 | every fan index lies in `[0, n)` |
| `Meshes.FanTriangle` | Assets/LightCast.cs:237-248 | triangle k is `(0, n-1-k, n-2-k)` |
| `Meshes.FanSharedEdge` | Assets/LightCast.cs:237-248 | consecutive triangles share vertex 0 and the edge to the previous triangle's third vertex |
| `Meshes.FanDistinct` | Assets/LightCast.cs:237-248 | for n of at least 3, every triangle has three distinct indices |

## Left out

- Engine services are uninterpreted fields of `Engine.Scene`. These are `Physics2D.Raycast`, `Vector2.normalized`, vector scaling and addition, `Vector2.Distance`, the `Vector2 ==` operator and `Mathf.Atan2`. Nothing is proved about their numerical behaviour. Distances and bearings are reals, not single-precision floats, and `.01f` is the real 0.01.
- `Collider.pathCount`/`GetPath` and `transform.position` are inputs (`paths`, `Scene.position`).
- `RadialSort.SortRadially`: the sort is modelled as one particular ascending order (insertion sort). `List.Sort` is unstable, so vertices with equal bearings may come out in another order.
- `Meshes.CreateMesh`: `Vector2` nodes become `Vector3` vertices (z = 0) in the source; the model keeps one point type. On fewer than two nodes the source throws; the model returns `None`.
- Debug drawing and logging (`DrawPoint`, `Debug.DrawLine`, `Debug.Log("No collider??")`) produce no state and are left out.
- The commented-out triangle assembly (lines 161-183) is not live code.
- `Start`, `Update` and `DrawPolygon` are left out: they set up the object pool, clear meshes and assign meshes and materials. So are `RecalculateNormals`, `RecalculateBounds`, `Optimize` and the mesh name. These are rendering glue with no stateable logic.
- `CastLight` keeps `lightPositions` in a local that the source then discards. The model returns it so that its contents can be stated.
