/**
  The `LightRay` record: a first boundary point and an optional second one.
  Assigning the second point also raises the flag that says it is present;
  the flag has no other setter.
*/
module LightRays {

  /** A copy of a `LightRay`'s state, as it is stored when the record is added to a list. */
  datatype Ray<P> = Ray(first: P, second: P, hasSecond: bool)

  class LightRay<P> {
    var firstPoint: P
    var secondPoint: P
    var hasSecondPoint: bool

    /** `new LightRay()`: every field holds its default value. */
    constructor (zero: P)
      ensures firstPoint == zero && secondPoint == zero
      ensures !hasSecondPoint
    {
      firstPoint := zero;
      secondPoint := zero;
      hasSecondPoint := false;
    }

    /** Assignment to the public `FirstPoint` field. */
    method SetFirstPoint(p: P)
      modifies this
      ensures firstPoint == p
      ensures secondPoint == old(secondPoint) && hasSecondPoint == old(hasSecondPoint)
    {
      firstPoint := p;
    }

    /** The `SecondPoint` setter: stores the point and marks it present. */
    method SetSecondPoint(p: P)
      modifies this
      ensures secondPoint == p && hasSecondPoint
      ensures firstPoint == old(firstPoint)
    {
      hasSecondPoint := true;
      secondPoint := p;
    }

    /** The record's current state as a value. */
    function Value(): Ray<P>
      reads this
    {
      Ray(firstPoint, secondPoint, hasSecondPoint)
    }
  }
}
