/**
 * A rigid-body collider: a surface plus a linear and an angular velocity.
 * The velocity of the collider at a point is that of a rigid motion about
 * the surface's translation.
 */
module RigidBodyCollider {
  import opened VectorMath
  import opened Wrappers

  /** The part of a surface the collider reads: its transform's translation. */
  datatype Surface3 = Surface3(translation: Vector3)

  /** `surface` is None for a collider built without one (a null pointer). */
  datatype RigidBodyCollider3 = RigidBodyCollider3(
    surface: Option<Surface3>,
    linearVelocity: Vector3,
    angularVelocity: Vector3)

  /** The constructor taking only a surface leaves both velocities at zero. */
  function FromSurface(surface: Surface3): (c: RigidBodyCollider3)
    ensures c.surface == Some(surface)
    ensures c.linearVelocity == Zero3 && c.angularVelocity == Zero3
  {
    RigidBodyCollider3(Some(surface), Zero3, Zero3)
  }

  /**
   * `velocityAt`: `linearVelocity + angularVelocity x (point - translation)`,
   * the velocity of a rigid motion. With no spin every point moves at the
   * linear velocity, and so does the centre of rotation.
   */
  function VelocityAt(c: RigidBodyCollider3, point: Vector3): (v: Vector3)
    requires c.surface.Some?
    ensures c.angularVelocity == Zero3 ==> v == c.linearVelocity
    ensures point == c.surface.value.translation ==> v == c.linearVelocity
  {
    Add(c.linearVelocity, Cross(c.angularVelocity, Sub(point, c.surface.value.translation)))
  }

  /** The rotational part of the velocity is orthogonal to the spin axis. */
  lemma RotationalPartOrthogonalToSpin(c: RigidBodyCollider3, point: Vector3)
    requires c.surface.Some?
    ensures Dot(Sub(VelocityAt(c, point), c.linearVelocity), c.angularVelocity) == 0.0
  {
    var w := c.angularVelocity;
    var r := Sub(point, c.surface.value.translation);
    var d := Sub(VelocityAt(c, point), c.linearVelocity);
    assert d == Cross(w, r);
    calc {
      Dot(d, w);
      (w.y * r.z - w.z * r.y) * w.x + (w.z * r.x - w.x * r.z) * w.y + (w.x * r.y - w.y * r.x) * w.z;
      0.0;
    }
  }

  /** The fluent builder: every field defaults to null / zero. */
  datatype Builder = Builder(surface: Option<Surface3>, linearVelocity: Vector3, angularVelocity: Vector3)
  {
    function WithSurface(s: Surface3): (b: Builder)
      ensures b.surface == Some(s)
      ensures b.linearVelocity == linearVelocity && b.angularVelocity == angularVelocity
    {
      this.(surface := Some(s))
    }

    function WithLinearVelocity(v: Vector3): (b: Builder)
      ensures b.linearVelocity == v
      ensures b.surface == surface && b.angularVelocity == angularVelocity
    {
      this.(linearVelocity := v)
    }

    function WithAngularVelocity(v: Vector3): (b: Builder)
      ensures b.angularVelocity == v
      ensures b.surface == surface && b.linearVelocity == linearVelocity
    {
      this.(angularVelocity := v)
    }

    /** `build` and `makeShared` hand the three stored values to the constructor. */
    function Build(): (c: RigidBodyCollider3)
      ensures c.surface == surface
      ensures c.linearVelocity == linearVelocity && c.angularVelocity == angularVelocity
    {
      RigidBodyCollider3(surface, linearVelocity, angularVelocity)
    }

    function MakeShared(): (c: RigidBodyCollider3)
      ensures c == Build()
    {
      RigidBodyCollider3(surface, linearVelocity, angularVelocity)
    }
  }

  function NewBuilder(): (b: Builder)
    ensures b.surface == None && b.linearVelocity == Zero3 && b.angularVelocity == Zero3
  {
    Builder(None, Zero3, Zero3)
  }

  /** A fully configured builder produces a collider moving as configured. */
  lemma BuiltColliderVelocity(s: Surface3, lin: Vector3, ang: Vector3, point: Vector3)
    ensures var c := NewBuilder().WithSurface(s).WithLinearVelocity(lin).WithAngularVelocity(ang).Build();
            c.surface == Some(s) &&
            VelocityAt(c, point) == Add(lin, Cross(ang, Sub(point, s.translation)))
  {
  }
}
