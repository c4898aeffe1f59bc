/**
  The game engine as the light caster sees it. Every engine service that the
  program calls is a field of `Scene`, so that the model is stated for every
  possible engine behaviour: the physics ray query, the vector arithmetic and
  Unity's approximate `Vector2` comparison are left uninterpreted.
*/
module Engine {

  /** What `Physics2D.Raycast` reports: whether a collider was struck, and the
      reported point (the engine fills it in even when nothing was struck). */
  datatype Hit<P> = Hit(hasCollider: bool, point: P)

  /** The engine services, for a point type `P` standing for `Vector2`. */
  datatype Scene<!P> = Scene(
    /** `transform.position`: where the light is. */
    position: P,
    /** `default(Vector2)`, the value of a point field never assigned. */
    zero: P,
    /** `Physics2D.Raycast(origin, direction)`. */
    raycast: (P, P) -> Hit<P>,
    /** `(to - from).normalized`, the unit direction from one point to another. */
    direction: (P, P) -> P,
    /** `point + direction * step`. */
    advance: (P, P, real) -> P,
    /** `Vector2.Distance`. */
    distance: (P, P) -> real,
    /** Unity's `Vector2 ==` operator, which compares within a tolerance. */
    equal: (P, P) -> bool,
    /** `Mathf.Atan2(point.y - origin.y, point.x - origin.x)`. */
    bearing: (P, P) -> real)

  /** How far past a vertex the corner probe starts (`.01f`). */
  const ProbeStep: real := 0.01

  /** How far the probe must travel past the first hit to count as a second point (`.01f`). */
  const PassThreshold: real := 0.01
}
