/**
 * The 3-D grid fluid solver's time step: the parameter clamps, the CFL
 * number and the adaptive sub-step count, and the fixed order of stages in
 * one sub-step (begin, gravity, viscosity, pressure, advection, end) with
 * the skips for an empty grid and absent solvers. The diffusion, pressure,
 * advection and boundary solvers are functions of the velocity given as parameters; the
 * calls the solver makes into collaborators are recorded in `log`.
 */
module GridFluid {
  import opened Wrappers
  import opened VectorMath
  import Animation

  const kEpsilonD: real := Animation.kEpsilonD

  function Max(a: real, b: real): real
  {
    if a < b then b else a
  }

  /** `min3` of the grid spacing. */
  function MinSpacing(h: Vector3): (m: real)
    ensures (m == h.x || m == h.y || m == h.z) && m <= h.x && m <= h.y && m <= h.z
  {
    if h.x <= h.y && h.x <= h.z then h.x else if h.y <= h.z then h.y else h.z
  }

  /** `std::ceil`: the least integer not below `x`. */
  function Ceil(x: real): (c: int)
    ensures x <= c as real < x + 1.0
  {
    if x.Floor as real == x then x.Floor else x.Floor + 1
  }

  /** The face-centred velocity grid: the u, v and w face values. */
  datatype Field = Field(u: seq<real>, v: seq<real>, w: seq<real>)

  datatype Axis = X | Y | Z

  function Component(f: Field, a: Axis): seq<real>
  {
    match a
    case X => f.u
    case Y => f.v
    case Z => f.w
  }

  function WithComponent(f: Field, a: Axis, s: seq<real>): (r: Field)
    ensures Component(r, a) == s
    ensures forall b :: b != a ==> Component(r, b) == Component(f, b)
  {
    match a
    case X => f.(u := s)
    case Y => f.(v := s)
    case Z => f.(w := s)
  }

  function GravityComponent(g: Vector3, a: Axis): real
  {
    match a
    case X => g.x
    case Y => g.y
    case Z => g.z
  }

  /** Every face value moved by `c`. */
  function Shifted(s: seq<real>, c: real): (r: seq<real>)
    ensures |r| == |s| && forall i :: 0 <= i < |s| ==> r[i] == s[i] + c
  {
    seq(|s|, i requires 0 <= i < |s| => s[i] + c)
  }

  /** How an advectable vector layer is stored; `Other` is neither grid type. */
  datatype LayerKind = Collocated | FaceCentered | Other

  /** A pressure solver with the boundary-condition solver it suggests. */
  datatype PressureSolver = PressureSolver(
    solve: (Field, real, bool) -> Field,
    suggestedBoundary: (Field, nat, int) -> Field)

  /** A boundary-condition solver: `constrainVelocity(velocity, depth)` under its closed-domain flag. */
  datatype BoundarySolver = BoundarySolver(constrain: (Field, nat, int) -> Field, closedDomainBoundaryFlag: int)

  /** A call the solver makes into a collaborator. */
  datatype Event =
    | ColliderUpdated(time: real, dt: real)
    | EmitterUpdated(time: real, dt: real)
    | BoundaryColliderUpdated
    | BoundaryApplied(depth: nat)
    | BeginCallback(dt: real)
    | Diffused(coefficient: real, dt: real)
    | Projected(dt: real, compressed: bool)
    | ScalarAdvected(index: nat, dt: real)
    | ScalarExtrapolated(index: nat, depth: nat)
    | VectorAdvected(index: nat, dt: real)
    | VectorExtrapolated(index: nat, depth: nat)
    | VelocityAdvected(dt: real)
    | EndCallback(dt: real)

  /** What one sub-step reads from the solver: everything except the velocity. */
  datatype Config = Config(
    resolution: (nat, nat, nat),
    gravity: Vector3,
    viscosityCoefficient: real,
    maxCfl: real,
    useCompressedLinearSystem: bool,
    advection: Option<(Field, Field, real) -> Field>,
    diffusion: Option<(Field, real, real) -> Field>,
    pressure: Option<PressureSolver>,
    boundary: Option<BoundarySolver>,
    hasCollider: bool,
    hasEmitter: bool,
    currentTime: real,
    scalarLayers: nat,
    vectorLayers: seq<LayerKind>,
    velocityIndex: nat)

  /** The clamps keep the CFL limit at least `kEpsilonD` and the viscosity non-negative. */
  predicate ConfigValid(c: Config)
  {
    c.maxCfl >= kEpsilonD && c.viscosityCoefficient >= 0.0
  }

  /** The extrapolation and boundary depth, `ceil(maxCfl)`. */
  function Depth(maxCfl: real): (d: nat)
    requires maxCfl > 0.0
    ensures d >= 1 && maxCfl <= d as real < maxCfl + 1.0
  {
    Ceil(maxCfl)
  }

  // ---------------------------------------------------------------
  // The effect of each stage, on the velocity and on the call log
  // ---------------------------------------------------------------

  /** `applyBoundaryCondition`: constrain the velocity when there is a boundary solver. */
  function BoundaryVelocity(f: Field, c: Config): Field
    requires ConfigValid(c)
  {
    match c.boundary
    case None => f
    case Some(b) => b.constrain(f, Depth(c.maxCfl), b.closedDomainBoundaryFlag)
  }

  function BoundaryEvents(c: Config): seq<Event>
    requires ConfigValid(c)
  {
    if c.boundary.Some? then [BoundaryApplied(Depth(c.maxCfl))] else []
  }

  /** `beginAdvanceTimeStep`: collider, emitter, boundary solver's collider, boundary, callback. */
  function BeginEvents(c: Config, dt: real): seq<Event>
    requires ConfigValid(c)
  {
    (if c.hasCollider then [ColliderUpdated(c.currentTime, dt)] else [])
    + (if c.hasEmitter then [EmitterUpdated(c.currentTime, dt)] else [])
    + (if c.boundary.Some? then [BoundaryColliderUpdated] else [])
    + BoundaryEvents(c)
    + [BeginCallback(dt)]
  }

  /** Gravity acts when `|g|^2 > kEpsilonD`. */
  predicate GravityActs(g: Vector3)
  {
    LengthSquared(g) > kEpsilonD
  }

  /** `computeGravity` before the boundary: `dt * g` added to the faces of each axis with `|g_axis| > kEpsilonD`. */
  function GravityFaces(f: Field, g: Vector3, dt: real): Field
  {
    if !GravityActs(g) then f else ShiftedFaces(f, g, Scale(dt, g))
  }

  /** Each face component shifted by the matching component of `d` where `|g_axis| > kEpsilonD`. */
  function ShiftedFaces(f: Field, g: Vector3, d: Vector3): Field
  {
    Field(
      if Abs(g.x) > kEpsilonD then Shifted(f.u, d.x) else f.u,
      if Abs(g.y) > kEpsilonD then Shifted(f.v, d.y) else f.v,
      if Abs(g.z) > kEpsilonD then Shifted(f.w, d.z) else f.w)
  }

  function GravityVelocity(f: Field, c: Config, dt: real): Field
    requires ConfigValid(c)
  {
    if GravityActs(c.gravity) then BoundaryVelocity(GravityFaces(f, c.gravity, dt), c) else f
  }

  function GravityEvents(c: Config): seq<Event>
    requires ConfigValid(c)
  {
    if GravityActs(c.gravity) then BoundaryEvents(c) else []
  }

  /** `computeViscosity` runs with a diffusion solver and a coefficient above `kEpsilonD`. */
  predicate ViscosityRuns(c: Config)
  {
    c.diffusion.Some? && c.viscosityCoefficient > kEpsilonD
  }

  function ViscosityVelocity(f: Field, c: Config, dt: real): Field
    requires ConfigValid(c)
  {
    if ViscosityRuns(c) then BoundaryVelocity(c.diffusion.value(f, c.viscosityCoefficient, dt), c) else f
  }

  function ViscosityEvents(c: Config, dt: real): seq<Event>
    requires ConfigValid(c)
  {
    if ViscosityRuns(c) then [Diffused(c.viscosityCoefficient, dt)] + BoundaryEvents(c) else []
  }

  function PressureVelocity(f: Field, c: Config, dt: real): Field
    requires ConfigValid(c)
  {
    match c.pressure
    case None => f
    case Some(p) => BoundaryVelocity(p.solve(f, dt, c.useCompressedLinearSystem), c)
  }

  function PressureEvents(c: Config, dt: real): seq<Event>
    requires ConfigValid(c)
  {
    if c.pressure.Some? then [Projected(dt, c.useCompressedLinearSystem)] + BoundaryEvents(c) else []
  }

  /** The scalar layers `0 .. n-1`, each advected and extrapolated into the collider. */
  function ScalarEvents(n: nat, dt: real, depth: nat): (r: seq<Event>)
    ensures |r| == 2 * n
  {
    if n == 0 then [] else ScalarEvents(n - 1, dt, depth) + [ScalarAdvected(n - 1, dt), ScalarExtrapolated(n - 1, depth)]
  }

  /** Whether vector layer `i` is advected: not the velocity layer, and a collocated or face-centred grid. */
  predicate VectorAdvects(layers: seq<LayerKind>, velocityIndex: nat, i: nat)
  {
    i < |layers| && i != velocityIndex && layers[i] != Other
  }

  /** The vector layers `0 .. n-1`, skipping the velocity layer and layers of neither grid type. */
  function VectorEvents(layers: seq<LayerKind>, velocityIndex: nat, dt: real, depth: nat, n: nat): seq<Event>
    requires n <= |layers|
  {
    if n == 0 then []
    else
      VectorEvents(layers, velocityIndex, dt, depth, n - 1)
      + (if VectorAdvects(layers, velocityIndex, n - 1)
         then [VectorAdvected(n - 1, dt), VectorExtrapolated(n - 1, depth)] else [])
  }

  /** `computeAdvection`: scalars, other vectors, then the velocity against its own copy, then the boundary. */
  function AdvectionVelocity(f: Field, c: Config, dt: real): Field
    requires ConfigValid(c)
  {
    match c.advection
    case None => f
    case Some(advect) => BoundaryVelocity(advect(f, f, dt), c)
  }

  function AdvectionEvents(c: Config, dt: real): seq<Event>
    requires ConfigValid(c)
  {
    if c.advection.Some? then
      ScalarEvents(c.scalarLayers, dt, Depth(c.maxCfl))
      + VectorEvents(c.vectorLayers, c.velocityIndex, dt, Depth(c.maxCfl), |c.vectorLayers|)
      + [VelocityAdvected(dt)]
      + BoundaryEvents(c)
    else []
  }

  /** A grid with a zero axis is empty: the step is skipped. */
  predicate EmptyGrid(c: Config)
  {
    c.resolution.0 == 0 || c.resolution.1 == 0 || c.resolution.2 == 0
  }

  /** `onAdvanceTimeStep`'s effect on the velocity. */
  function StepVelocity(f: Field, c: Config, dt: real): Field
    requires ConfigValid(c)
  {
    if EmptyGrid(c) then f
    else
      var begun := BoundaryVelocity(f, c);
      AdvectionVelocity(PressureVelocity(ViscosityVelocity(GravityVelocity(begun, c, dt), c, dt), c, dt), c, dt)
  }

  /** `onAdvanceTimeStep`'s calls into collaborators, in order. */
  function StepEvents(c: Config, dt: real): seq<Event>
    requires ConfigValid(c)
  {
    if EmptyGrid(c) then []
    else
      BeginEvents(c, dt) + GravityEvents(c) + ViscosityEvents(c, dt) + PressureEvents(c, dt)
      + AdvectionEvents(c, dt) + [EndCallback(dt)]
  }

  // ---------------------------------------------------------------
  // Properties of a step
  // ---------------------------------------------------------------

  /** The position of each kind of call in the stage order; the boundary is applied in several stages. */
  function Rank(e: Event): nat
  {
    match e
    case ColliderUpdated(_, _) => 0
    case EmitterUpdated(_, _) => 1
    case BoundaryColliderUpdated => 2
    case BoundaryApplied(_) => 0
    case BeginCallback(_) => 3
    case Diffused(_, _) => 4
    case Projected(_, _) => 5
    case ScalarAdvected(_, _) => 6
    case ScalarExtrapolated(_, _) => 6
    case VectorAdvected(_, _) => 7
    case VectorExtrapolated(_, _) => 7
    case VelocityAdvected(_) => 8
    case EndCallback(_) => 9
  }

  /** The stage calls of `t` (all but boundary applications) come in stage order. */
  ghost predicate InStageOrder(t: seq<Event>)
  {
    forall i, j :: 0 <= i < j < |t| && !t[i].BoundaryApplied? && !t[j].BoundaryApplied? ==> Rank(t[i]) <= Rank(t[j])
  }

  /** The stage calls of `t` have ranks in `lo .. hi`. */
  ghost predicate RanksWithin(t: seq<Event>, lo: nat, hi: nat)
  {
    forall i :: 0 <= i < |t| && !t[i].BoundaryApplied? ==> lo <= Rank(t[i]) <= hi
  }

  lemma OrderedConcat(a: seq<Event>, b: seq<Event>, lo: nat, mid: nat, hi: nat)
    requires lo <= mid <= hi
    requires InStageOrder(a) && RanksWithin(a, lo, mid)
    requires InStageOrder(b) && RanksWithin(b, mid, hi)
    ensures InStageOrder(a + b) && RanksWithin(a + b, lo, hi)
  {
    var t := a + b;
    forall i, j | 0 <= i < j < |t| && !t[i].BoundaryApplied? && !t[j].BoundaryApplied?
      ensures Rank(t[i]) <= Rank(t[j])
    {
      if j < |a| {
        assert t[i] == a[i] && t[j] == a[j];
      } else if i >= |a| {
        assert t[i] == b[i - |a|] && t[j] == b[j - |a|];
      } else {
        assert t[i] == a[i] && t[j] == b[j - |a|];
      }
    }
    forall i | 0 <= i < |t| && !t[i].BoundaryApplied?
      ensures lo <= Rank(t[i]) <= hi
    {
      if i < |a| {
        assert t[i] == a[i];
      } else {
        assert t[i] == b[i - |a|];
      }
    }
  }

  /** A sequence of calls all of one rank, apart from boundary applications. */
  ghost predicate OneRank(t: seq<Event>, r: nat)
  {
    forall i :: 0 <= i < |t| && !t[i].BoundaryApplied? ==> Rank(t[i]) == r
  }

  lemma OneRankOrdered(t: seq<Event>, r: nat)
    requires OneRank(t, r)
    ensures InStageOrder(t) && RanksWithin(t, r, r)
  {
  }

  lemma {:induction false} ScalarEventsRank(n: nat, dt: real, depth: nat)
    ensures OneRank(ScalarEvents(n, dt, depth), 6)
  {
    if n > 0 {
      ScalarEventsRank(n - 1, dt, depth);
      var t := ScalarEvents(n, dt, depth);
      assert forall i :: 0 <= i < 2 * (n - 1) ==> t[i] == ScalarEvents(n - 1, dt, depth)[i];
    }
  }

  lemma {:induction false} VectorEventsRank(layers: seq<LayerKind>, velocityIndex: nat, dt: real, depth: nat, n: nat)
    requires n <= |layers|
    ensures OneRank(VectorEvents(layers, velocityIndex, dt, depth, n), 7)
  {
    if n > 0 {
      VectorEventsRank(layers, velocityIndex, dt, depth, n - 1);
      var a := VectorEvents(layers, velocityIndex, dt, depth, n - 1);
      var t := VectorEvents(layers, velocityIndex, dt, depth, n);
      assert forall i :: 0 <= i < |a| ==> t[i] == a[i];
    }
  }

  /** The collider, emitter and boundary-collider updates that open `beginAdvanceTimeStep`. */
  lemma CollidersInStageOrder(c: Config, dt: real)
    ensures var t := (if c.hasCollider then [ColliderUpdated(c.currentTime, dt)] else [])
                     + (if c.hasEmitter then [EmitterUpdated(c.currentTime, dt)] else [])
                     + (if c.boundary.Some? then [BoundaryColliderUpdated] else []);
            InStageOrder(t) && RanksWithin(t, 0, 2)
  {
    var coll := if c.hasCollider then [ColliderUpdated(c.currentTime, dt)] else [];
    var emit := if c.hasEmitter then [EmitterUpdated(c.currentTime, dt)] else [];
    var bcoll := if c.boundary.Some? then [BoundaryColliderUpdated] else [];
    OneRankOrdered(coll, 0);
    OneRankOrdered(emit, 1);
    OneRankOrdered(bcoll, 2);
    OrderedConcat(coll, emit, 0, 0, 1);
    OrderedConcat(coll + emit, bcoll, 0, 1, 2);
  }

  /** `beginAdvanceTimeStep`'s calls: collider, emitter, boundary collider, boundary, callback. */
  lemma BeginInStageOrder(c: Config, dt: real)
    requires ConfigValid(c)
    ensures InStageOrder(BeginEvents(c, dt)) && RanksWithin(BeginEvents(c, dt), 0, 3)
  {
    var colliders := (if c.hasCollider then [ColliderUpdated(c.currentTime, dt)] else [])
                     + (if c.hasEmitter then [EmitterUpdated(c.currentTime, dt)] else [])
                     + (if c.boundary.Some? then [BoundaryColliderUpdated] else []);
    var bnd := BoundaryEvents(c);
    CollidersInStageOrder(c, dt);
    OneRankOrdered(bnd, 2);
    OneRankOrdered([BeginCallback(dt)], 3);
    OrderedConcat(colliders, bnd, 0, 2, 2);
    OrderedConcat(colliders + bnd, [BeginCallback(dt)], 0, 2, 3);
  }

  /** `computeAdvection`'s calls: scalar layers, vector layers, velocity, boundary. */
  lemma AdvectionInStageOrder(c: Config, dt: real)
    requires ConfigValid(c)
    ensures InStageOrder(AdvectionEvents(c, dt)) && RanksWithin(AdvectionEvents(c, dt), 6, 8)
  {
    if c.advection.Some? {
      var depth := Depth(c.maxCfl);
      var sc := ScalarEvents(c.scalarLayers, dt, depth);
      var vc := VectorEvents(c.vectorLayers, c.velocityIndex, dt, depth, |c.vectorLayers|);
      var bnd := BoundaryEvents(c);
      ScalarEventsRank(c.scalarLayers, dt, depth);
      VectorEventsRank(c.vectorLayers, c.velocityIndex, dt, depth, |c.vectorLayers|);
      OneRankOrdered(sc, 6);
      OneRankOrdered(vc, 7);
      OneRankOrdered([VelocityAdvected(dt)], 8);
      OneRankOrdered(bnd, 8);
      OrderedConcat(sc, vc, 6, 6, 7);
      OrderedConcat(sc + vc, [VelocityAdvected(dt)], 6, 7, 8);
      OrderedConcat(sc + vc + [VelocityAdvected(dt)], bnd, 6, 8, 8);
    }
  }

  /** The calls up to and including `computeExternalForces` come in stage order. */
  lemma GravityInStageOrder(c: Config, dt: real)
    requires ConfigValid(c)
    ensures var t := BeginEvents(c, dt) + GravityEvents(c);
            InStageOrder(t) && RanksWithin(t, 0, 3)
  {
    BeginInStageOrder(c, dt);
    OneRankOrdered(GravityEvents(c), 3);
    OrderedConcat(BeginEvents(c, dt), GravityEvents(c), 0, 3, 3);
  }

  /** The calls up to and including `computeViscosity` come in stage order. */
  lemma ViscosityInStageOrder(c: Config, dt: real)
    requires ConfigValid(c)
    ensures var t := BeginEvents(c, dt) + GravityEvents(c) + ViscosityEvents(c, dt);
            InStageOrder(t) && RanksWithin(t, 0, 4)
  {
    GravityInStageOrder(c, dt);
    OneRankOrdered(ViscosityEvents(c, dt), 4);
    OrderedConcat(BeginEvents(c, dt) + GravityEvents(c), ViscosityEvents(c, dt), 0, 3, 4);
  }

  /** The calls up to and including `computePressure` come in stage order. */
  lemma PressureInStageOrder(c: Config, dt: real)
    requires ConfigValid(c)
    ensures var t := BeginEvents(c, dt) + GravityEvents(c) + ViscosityEvents(c, dt) + PressureEvents(c, dt);
            InStageOrder(t) && RanksWithin(t, 0, 5)
  {
    var before := BeginEvents(c, dt) + GravityEvents(c) + ViscosityEvents(c, dt);
    ViscosityInStageOrder(c, dt);
    OneRankOrdered(PressureEvents(c, dt), 5);
    OrderedConcat(before, PressureEvents(c, dt), 0, 4, 5);
  }

  /** The calls up to and including `computeAdvection` come in stage order. */
  lemma StepBodyInStageOrder(c: Config, dt: real)
    requires ConfigValid(c)
    ensures var t := BeginEvents(c, dt) + GravityEvents(c) + ViscosityEvents(c, dt) + PressureEvents(c, dt)
                     + AdvectionEvents(c, dt);
            InStageOrder(t) && RanksWithin(t, 0, 8)
  {
    var before := BeginEvents(c, dt) + GravityEvents(c) + ViscosityEvents(c, dt) + PressureEvents(c, dt);
    PressureInStageOrder(c, dt);
    AdvectionInStageOrder(c, dt);
    OrderedConcat(before, AdvectionEvents(c, dt), 0, 5, 8);
  }

  /**
   * In a step on a non-empty grid the calls come in stage order: collider,
   * emitter, boundary collider, begin callback, diffusion, pressure, scalar
   * then vector then velocity advection, end callback; the end callback is
   * the last call.
   */
  lemma StepInStageOrder(c: Config, dt: real)
    requires ConfigValid(c)
    ensures InStageOrder(StepEvents(c, dt))
    ensures !EmptyGrid(c) ==> |StepEvents(c, dt)| > 0 && StepEvents(c, dt)[|StepEvents(c, dt)| - 1] == EndCallback(dt)
  {
    if !EmptyGrid(c) {
      var body := BeginEvents(c, dt) + GravityEvents(c) + ViscosityEvents(c, dt) + PressureEvents(c, dt)
                  + AdvectionEvents(c, dt);
      StepBodyInStageOrder(c, dt);
      OneRankOrdered([EndCallback(dt)], 9);
      OrderedConcat(body, [EndCallback(dt)], 0, 8, 9);
    }
  }

  /** A step on an empty grid changes nothing. */
  lemma EmptyGridSkipsStep(f: Field, c: Config, dt: real)
    requires ConfigValid(c) && EmptyGrid(c)
    ensures StepVelocity(f, c, dt) == f && StepEvents(c, dt) == []
  {
  }

  /** Viscosity leaves everything alone unless it runs; it runs iff it calls the diffusion solver. */
  lemma ViscositySkip(f: Field, c: Config, dt: real)
    requires ConfigValid(c)
    ensures !ViscosityRuns(c) ==> ViscosityVelocity(f, c, dt) == f && ViscosityEvents(c, dt) == []
    ensures Diffused(c.viscosityCoefficient, dt) in ViscosityEvents(c, dt)
            <==> c.diffusion.Some? && c.viscosityCoefficient > kEpsilonD
  {
    if ViscosityRuns(c) {
      assert ViscosityEvents(c, dt)[0] == Diffused(c.viscosityCoefficient, dt);
    }
  }

  /** The pressure stage runs iff there is a pressure solver. */
  lemma PressureSkip(f: Field, c: Config, dt: real)
    requires ConfigValid(c)
    ensures c.pressure.None? ==> PressureVelocity(f, c, dt) == f && PressureEvents(c, dt) == []
    ensures Projected(dt, c.useCompressedLinearSystem) in PressureEvents(c, dt) <==> c.pressure.Some?
  {
    if c.pressure.Some? {
      assert PressureEvents(c, dt)[0] == Projected(dt, c.useCompressedLinearSystem);
    }
  }

  /** The advection stage runs iff there is an advection solver, and then the velocity is advected last. */
  lemma AdvectionSkip(f: Field, c: Config, dt: real)
    requires ConfigValid(c)
    ensures c.advection.None? ==> AdvectionVelocity(f, c, dt) == f && AdvectionEvents(c, dt) == []
    ensures VelocityAdvected(dt) in AdvectionEvents(c, dt) <==> c.advection.Some?
    ensures c.advection.Some? ==>
              var t := AdvectionEvents(c, dt);
              t[|t| - 1 - |BoundaryEvents(c)|] == VelocityAdvected(dt)
  {
    if c.advection.Some? {
      var depth := Depth(c.maxCfl);
      var pre := ScalarEvents(c.scalarLayers, dt, depth)
                 + VectorEvents(c.vectorLayers, c.velocityIndex, dt, depth, |c.vectorLayers|);
      assert AdvectionEvents(c, dt) == pre + [VelocityAdvected(dt)] + BoundaryEvents(c);
      assert AdvectionEvents(c, dt)[|pre|] == VelocityAdvected(dt);
    }
  }

  /** Scalar layer `i` is advected (and then extrapolated) iff `i < n`. */
  lemma {:induction false} ScalarAdvectedIff(n: nat, dt: real, depth: nat, i: nat)
    ensures ScalarAdvected(i, dt) in ScalarEvents(n, dt, depth) <==> i < n
    ensures ScalarExtrapolated(i, depth) in ScalarEvents(n, dt, depth) <==> i < n
  {
    if n > 0 {
      ScalarAdvectedIff(n - 1, dt, depth, i);
    }
  }

  /**
   * Vector layer `i` is advected (and then extrapolated) iff it exists, is
   * not the velocity layer and is a collocated or face-centred grid.
   */
  lemma {:induction false} VectorAdvectedIff(layers: seq<LayerKind>, velocityIndex: nat, dt: real, depth: nat, n: nat, i: nat)
    requires n <= |layers|
    ensures VectorAdvected(i, dt) in VectorEvents(layers, velocityIndex, dt, depth, n)
            <==> i < n && VectorAdvects(layers, velocityIndex, i)
    ensures VectorExtrapolated(i, depth) in VectorEvents(layers, velocityIndex, dt, depth, n)
            <==> i < n && VectorAdvects(layers, velocityIndex, i)
  {
    if n > 0 {
      VectorAdvectedIff(layers, velocityIndex, dt, depth, n - 1, i);
    }
  }

  /** The velocity layer is never advected as an ordinary vector layer. */
  lemma VelocityLayerSkipped(c: Config, dt: real)
    requires ConfigValid(c)
    ensures VectorAdvected(c.velocityIndex, dt) !in AdvectionEvents(c, dt)
  {
    if c.advection.Some? {
      var depth := Depth(c.maxCfl);
      var sc := ScalarEvents(c.scalarLayers, dt, depth);
      var vc := VectorEvents(c.vectorLayers, c.velocityIndex, dt, depth, |c.vectorLayers|);
      VectorAdvectedIff(c.vectorLayers, c.velocityIndex, dt, depth, |c.vectorLayers|, c.velocityIndex);
      ScalarEventsRank(c.scalarLayers, dt, depth);
      assert forall k :: 0 <= k < |sc| ==> sc[k] != VectorAdvected(c.velocityIndex, dt);
      assert AdvectionEvents(c, dt) == sc + vc + ([VelocityAdvected(dt)] + BoundaryEvents(c));
    }
  }

  /**
   * Gravity adds `dt * g_axis` to every face of the axes whose component
   * exceeds `kEpsilonD`, only when `|g|^2 > kEpsilonD`, and leaves the other
   * axes' faces as they were.
   */
  lemma GravityFaceValues(f: Field, g: Vector3, dt: real, a: Axis, i: nat)
    requires i < |Component(f, a)|
    ensures |Component(GravityFaces(f, g, dt), a)| == |Component(f, a)|
    ensures GravityActs(g) && Abs(GravityComponent(g, a)) > kEpsilonD ==>
              Component(GravityFaces(f, g, dt), a)[i] == Component(f, a)[i] + dt * GravityComponent(g, a)
    ensures !(GravityActs(g) && Abs(GravityComponent(g, a)) > kEpsilonD) ==>
              Component(GravityFaces(f, g, dt), a) == Component(f, a)
  {
  }

  // ---------------------------------------------------------------
  // CFL number and sub-step count
  // ---------------------------------------------------------------

  /** The running maximum over one cell: `max(max(max(m, v.x), v.y), v.z)`. */
  function MaxWith(m: real, v: Vector3): real
  {
    Max(Max(Max(m, v.x), v.y), v.z)
  }

  /** The velocity a cell reaches after `dt` of gravity. */
  function Pushed(cell: Vector3, dt: real, g: Vector3): Vector3
  {
    Add(cell, Scale(dt, g))
  }

  /** `maxVel` after the cell loop, from 0 over the signed components of every pushed cell velocity. */
  function MaxVelocity(cells: seq<Vector3>, dt: real, g: Vector3): real
  {
    if |cells| == 0 then 0.0
    else MaxWith(MaxVelocity(cells[..|cells| - 1], dt, g), Pushed(cells[|cells| - 1], dt, g))
  }

  predicate IsComponent(m: real, v: Vector3)
  {
    m == v.x || m == v.y || m == v.z
  }

  /**
   * The maximum is at least 0 and every component; it is 0 or one of the
   * components. So components at or below zero never raise it.
   */
  lemma {:induction false} MaxVelocityIsMax(cells: seq<Vector3>, dt: real, g: Vector3)
    ensures MaxVelocity(cells, dt, g) >= 0.0
    ensures forall k :: 0 <= k < |cells| ==>
              var p := Pushed(cells[k], dt, g);
              p.x <= MaxVelocity(cells, dt, g) && p.y <= MaxVelocity(cells, dt, g) && p.z <= MaxVelocity(cells, dt, g)
    ensures MaxVelocity(cells, dt, g) == 0.0
            || exists k :: 0 <= k < |cells| && IsComponent(MaxVelocity(cells, dt, g), Pushed(cells[k], dt, g))
  {
    if |cells| > 0 {
      var init := cells[..|cells| - 1];
      MaxVelocityIsMax(init, dt, g);
      var m := MaxVelocity(init, dt, g);
      var r := MaxVelocity(cells, dt, g);
      var last := |cells| - 1;
      assert forall k :: 0 <= k < last ==> cells[k] == init[k];
      if r != m {
        assert IsComponent(r, Pushed(cells[last], dt, g));
      } else if m != 0.0 {
        var k :| 0 <= k < |init| && IsComponent(m, Pushed(init[k], dt, g));
        assert IsComponent(r, Pushed(cells[k], dt, g));
      }
    }
  }

  /** With every pushed component at or below zero, `maxVel` stays 0. */
  lemma MaxVelocityNonPositive(cells: seq<Vector3>, dt: real, g: Vector3)
    requires forall k :: 0 <= k < |cells| ==>
               var p := Pushed(cells[k], dt, g); p.x <= 0.0 && p.y <= 0.0 && p.z <= 0.0
    ensures MaxVelocity(cells, dt, g) == 0.0
  {
    MaxVelocityIsMax(cells, dt, g);
  }

  /** `cfl(dt)`: the largest signed velocity component over a time step, in cells. */
  function CflNumber(cells: seq<Vector3>, dt: real, g: Vector3, h: Vector3): real
    requires MinSpacing(h) != 0.0
  {
    MaxVelocity(cells, dt, g) * dt / MinSpacing(h)
  }

  /** The CFL number is non-negative for a non-negative interval and positive spacing. */
  lemma CflNonNegative(cells: seq<Vector3>, dt: real, g: Vector3, h: Vector3)
    requires MinSpacing(h) > 0.0 && dt >= 0.0
    ensures CflNumber(cells, dt, g, h) >= 0.0
  {
    MaxVelocityIsMax(cells, dt, g);
    var m := MaxVelocity(cells, dt, g);
    assert m * dt >= 0.0;
  }

  /** `numberOfSubTimeSteps`: `max(ceil(cfl / maxCfl), 1)`. */
  function SubTimeSteps(cfl: real, maxCfl: real): nat
    requires maxCfl > 0.0
  {
    var q := Ceil(cfl / maxCfl);
    if q >= 1 then q else 1
  }

  /**
   * At least one sub-step; each sub-step's share of the CFL number is within
   * `maxCfl`; and one sub-step fewer would not be enough.
   */
  lemma SubTimeStepsBound(cfl: real, maxCfl: real)
    requires maxCfl > 0.0
    ensures SubTimeSteps(cfl, maxCfl) >= 1
    ensures cfl / SubTimeSteps(cfl, maxCfl) as real <= maxCfl
    ensures SubTimeSteps(cfl, maxCfl) == 1 || (SubTimeSteps(cfl, maxCfl) - 1) as real < cfl / maxCfl
  {
    var n := SubTimeSteps(cfl, maxCfl);
    ShareWithin(cfl, n as real, maxCfl);
  }

  /** Splitting `c` into `n >= c / m` parts gives parts of at most `m`. */
  lemma ShareWithin(c: real, n: real, m: real)
    requires n >= 1.0 && m > 0.0 && n >= c / m
    ensures c / n <= m
  {
    var q := c / m;
    assert q * m == c;
    assert q * m <= n * m;
    assert c / n * n == c;
  }

  /** The solver's sub-step count as the animation's adaptive stepping sees it, for a fixed cell velocity. */
  function SubStepCount(cells: seq<Vector3>, g: Vector3, h: Vector3, maxCfl: real): real -> nat
    requires MinSpacing(h) != 0.0 && maxCfl > 0.0
  {
    t => SubTimeSteps(CflNumber(cells, t, g, h), maxCfl)
  }

  /** The solver's count meets the adaptive stepper's need for at least one sub-step. */
  lemma SubStepCountPositive(cells: seq<Vector3>, g: Vector3, h: Vector3, maxCfl: real)
    requires MinSpacing(h) != 0.0 && maxCfl > 0.0
    ensures forall t :: SubStepCount(cells, g, h, maxCfl)(t) >= 1
  {
  }

  // ---------------------------------------------------------------
  // The solver
  // ---------------------------------------------------------------

  class GridFluidSolver {
    var resolution: (nat, nat, nat)
    var gridSpacing: Vector3
    var gravity: Vector3
    var viscosityCoefficient: real
    var maxCfl: real
    var useCompressedLinearSystem: bool
    var closedDomainBoundaryFlag: int
    var advectionSolver: Option<(Field, Field, real) -> Field>
    var diffusionSolver: Option<(Field, real, real) -> Field>
    var pressureSolver: Option<PressureSolver>
    var boundarySolver: Option<BoundarySolver>
    var hasCollider: bool
    var hasEmitter: bool
    /** The animation's current time, read when the collider and emitter are updated. */
    var currentTime: real
    var scalarLayers: nat
    var vectorLayers: seq<LayerKind>
    var velocityIndex: nat
    var velocity: Field
    /** The calls made into collaborators so far. */
    var log: seq<Event>
    /** `valueAtCellCenter` over every cell of a velocity grid. */
    const cellCenters: Field -> seq<Vector3>

    function Settings(): Config
      reads this`resolution, this`gravity, this`viscosityCoefficient, this`maxCfl,
            this`useCompressedLinearSystem, this`advectionSolver, this`diffusionSolver,
            this`pressureSolver, this`boundarySolver, this`hasCollider, this`hasEmitter,
            this`currentTime, this`scalarLayers, this`vectorLayers, this`velocityIndex
    {
      Config(resolution, gravity, viscosityCoefficient, maxCfl, useCompressedLinearSystem,
             advectionSolver, diffusionSolver, pressureSolver, boundarySolver,
             hasCollider, hasEmitter, currentTime, scalarLayers, vectorLayers, velocityIndex)
    }

    ghost predicate Valid()
      reads this`viscosityCoefficient, this`maxCfl
    {
      maxCfl >= kEpsilonD && viscosityCoefficient >= 0.0
    }

    /**
     * A solver on a grid of the given resolution with the given advection,
     * diffusion and pressure solvers; the pressure solver's suggested
     * boundary solver becomes the boundary solver.
     */
    constructor(resolution: (nat, nat, nat), gridSpacing: Vector3, cellCenters: Field -> seq<Vector3>,
                advection: (Field, Field, real) -> Field, diffusion: (Field, real, real) -> Field,
                pressure: PressureSolver, gravity: Vector3, viscosityCoefficient: real, maxCfl: real,
                closedDomainBoundaryFlag: int, velocity: Field)
      requires maxCfl >= kEpsilonD && viscosityCoefficient >= 0.0
      ensures Valid() && log == [] && this.velocity == velocity && this.cellCenters == cellCenters
      ensures this.resolution == resolution && this.gridSpacing == gridSpacing
      ensures advectionSolver == Some(advection) && diffusionSolver == Some(diffusion) && pressureSolver == Some(pressure)
      ensures boundarySolver == Some(BoundarySolver(pressure.suggestedBoundary, closedDomainBoundaryFlag))
      ensures this.gravity == gravity && this.viscosityCoefficient == viscosityCoefficient && this.maxCfl == maxCfl
      ensures this.closedDomainBoundaryFlag == closedDomainBoundaryFlag && !useCompressedLinearSystem
      ensures !hasCollider && !hasEmitter && currentTime == 0.0
      ensures scalarLayers == 0 && vectorLayers == [FaceCentered] && velocityIndex == 0
    {
      this.resolution, this.gridSpacing, this.cellCenters := resolution, gridSpacing, cellCenters;
      this.gravity, this.viscosityCoefficient, this.maxCfl := gravity, viscosityCoefficient, maxCfl;
      this.closedDomainBoundaryFlag := closedDomainBoundaryFlag;
      useCompressedLinearSystem := false;
      advectionSolver, diffusionSolver := Some(advection), Some(diffusion);
      pressureSolver := Some(pressure);
      boundarySolver := Some(BoundarySolver(pressure.suggestedBoundary, closedDomainBoundaryFlag));
      hasCollider, hasEmitter := false, false;
      currentTime := 0.0;
      scalarLayers, vectorLayers, velocityIndex := 0, [FaceCentered], 0;
      this.velocity := velocity;
      log := [];
    }

    /** `setViscosityCoefficient`: negative coefficients become 0. */
    method SetViscosityCoefficient(newValue: real)
      requires Valid()
      modifies this`viscosityCoefficient
      ensures Valid()
      ensures newValue >= 0.0 ==> viscosityCoefficient == newValue
      ensures newValue < 0.0 ==> viscosityCoefficient == 0.0
    {
      viscosityCoefficient := Max(newValue, 0.0);
    }

    /** `setMaxCfl`: the limit never drops below `kEpsilonD`. */
    method SetMaxCfl(newCfl: real)
      requires Valid()
      modifies this`maxCfl
      ensures Valid()
      ensures newCfl >= kEpsilonD ==> maxCfl == newCfl
      ensures newCfl < kEpsilonD ==> maxCfl == kEpsilonD
    {
      maxCfl := Max(newCfl, kEpsilonD);
    }

    /**
     * `setPressureSolver`: a new solver brings its suggested boundary solver,
     * with the current closed-domain flag; no solver keeps the old boundary solver.
     */
    method SetPressureSolver(newSolver: Option<PressureSolver>)
      modifies this`pressureSolver, this`boundarySolver
      ensures pressureSolver == newSolver
      ensures newSolver.Some? ==>
                boundarySolver == Some(BoundarySolver(newSolver.value.suggestedBoundary, closedDomainBoundaryFlag))
      ensures newSolver.None? ==> boundarySolver == old(boundarySolver)
    {
      pressureSolver := newSolver;
      if newSolver.Some? {
        boundarySolver := Some(BoundarySolver(newSolver.value.suggestedBoundary, closedDomainBoundaryFlag));
      }
    }

    /** `setClosedDomainBoundaryFlag`: stored and passed on to the boundary solver, which must exist. */
    method SetClosedDomainBoundaryFlag(flag: int)
      requires boundarySolver.Some?
      modifies this`closedDomainBoundaryFlag, this`boundarySolver
      ensures closedDomainBoundaryFlag == flag
      ensures boundarySolver == Some(old(boundarySolver).value.(closedDomainBoundaryFlag := flag))
    {
      closedDomainBoundaryFlag := flag;
      boundarySolver := Some(boundarySolver.value.(closedDomainBoundaryFlag := flag));
    }

    /** `cfl(dt)`: the loop over cells keeps the running maximum of the signed components. */
    method Cfl(dt: real) returns (cfl: real)
      requires MinSpacing(gridSpacing) != 0.0
      ensures cfl == CflNumber(cellCenters(velocity), dt, gravity, gridSpacing)
    {
      var cells := cellCenters(velocity);
      var maxVel := 0.0;
      var i := 0;
      while i < |cells|
        invariant 0 <= i <= |cells|
        invariant maxVel == MaxVelocity(cells[..i], dt, gravity)
      {
        var v := Add(cells[i], Scale(dt, gravity));
        assert cells[..i + 1][..i] == cells[..i];
        maxVel := Max(maxVel, v.x);
        maxVel := Max(maxVel, v.y);
        maxVel := Max(maxVel, v.z);
        i := i + 1;
      }
      assert cells[..|cells|] == cells;
      var minGridSize := MinSpacing(gridSpacing);
      cfl := maxVel * dt / minGridSize;
    }

    /** `numberOfSubTimeSteps(dt)`: `max(ceil(cfl(dt) / maxCfl), 1)`, at least one. */
    method NumberOfSubTimeSteps(dt: real) returns (n: nat)
      requires Valid() && MinSpacing(gridSpacing) != 0.0
      ensures n == SubTimeSteps(CflNumber(cellCenters(velocity), dt, gravity, gridSpacing), maxCfl)
      ensures n >= 1
    {
      var currentCfl := Cfl(dt);
      var q := Ceil(currentCfl / maxCfl);
      n := if q >= 1 then q else 1;
    }

    /** `onInitialize`: the collider and the emitter are updated with a zero interval. */
    method OnInitialize()
      modifies this`log
      ensures log == old(log) + (if hasCollider then [ColliderUpdated(currentTime, 0.0)] else [])
                              + (if hasEmitter then [EmitterUpdated(currentTime, 0.0)] else [])
    {
      UpdateCollider(0.0);
      UpdateEmitter(0.0);
    }

    /** `updateCollider(dt)`: only when there is a collider. */
    method UpdateCollider(dt: real)
      modifies this`log
      ensures log == old(log) + if hasCollider then [ColliderUpdated(currentTime, dt)] else []
    {
      if hasCollider {
        log := log + [ColliderUpdated(currentTime, dt)];
      }
    }

    /** `updateEmitter(dt)`: only when there is an emitter. */
    method UpdateEmitter(dt: real)
      modifies this`log
      ensures log == old(log) + if hasEmitter then [EmitterUpdated(currentTime, dt)] else []
    {
      if hasEmitter {
        log := log + [EmitterUpdated(currentTime, dt)];
      }
    }

    /** `applyBoundaryCondition`: constrain the velocity to depth `ceil(maxCfl)` when there is a boundary solver. */
    method ApplyBoundaryCondition()
      requires Valid()
      modifies this`velocity, this`log
      ensures velocity == BoundaryVelocity(old(velocity), Settings())
      ensures log == old(log) + BoundaryEvents(Settings())
    {
      if boundarySolver.Some? {
        var depth := Ceil(maxCfl);
        var b := boundarySolver.value;
        velocity := b.constrain(velocity, depth, b.closedDomainBoundaryFlag);
        log := log + [BoundaryApplied(depth)];
      }
    }

    /** `beginAdvanceTimeStep`. */
    method BeginAdvanceTimeStep(dt: real)
      requires Valid()
      modifies this`velocity, this`log
      ensures velocity == BoundaryVelocity(old(velocity), Settings())
      ensures log == old(log) + BeginEvents(Settings(), dt)
    {
      ghost var c := Settings();
      ghost var start := log;
      UpdateCollider(dt);
      ghost var done := if c.hasCollider then [ColliderUpdated(c.currentTime, dt)] else [];
      UpdateEmitter(dt);
      Animation.ConcatAssoc(start, done, if c.hasEmitter then [EmitterUpdated(c.currentTime, dt)] else []);
      done := done + if c.hasEmitter then [EmitterUpdated(c.currentTime, dt)] else [];
      if boundarySolver.Some? {
        log := log + [BoundaryColliderUpdated];
      }
      Animation.ConcatAssoc(start, done, if c.boundary.Some? then [BoundaryColliderUpdated] else []);
      done := done + if c.boundary.Some? then [BoundaryColliderUpdated] else [];
      ApplyBoundaryCondition();
      Animation.ConcatAssoc(start, done, BoundaryEvents(c));
      done := done + BoundaryEvents(c);
      log := log + [BeginCallback(dt)];
      Animation.ConcatAssoc(start, done, [BeginCallback(dt)]);
    }

    /** Adds `c` to every face of one axis, face by face. */
    method AddToFaces(a: Axis, c: real)
      modifies this`velocity
      ensures velocity == WithComponent(old(velocity), a, Shifted(Component(old(velocity), a), c))
    {
      var n := |Component(velocity, a)|;
      ghost var start := Component(velocity, a);
      var i := 0;
      while i < n
        invariant 0 <= i <= n
        invariant velocity == WithComponent(old(velocity), a, Component(velocity, a))
        invariant |Component(velocity, a)| == n
        invariant forall k :: 0 <= k < i ==> Component(velocity, a)[k] == start[k] + c
        invariant forall k :: i <= k < n ==> Component(velocity, a)[k] == start[k]
      {
        var s := Component(velocity, a);
        velocity := WithComponent(velocity, a, s[i := s[i] + c]);
        i := i + 1;
      }
      assert Component(velocity, a) == Shifted(start, c);
    }

    /** `computeGravity`. */
    method ComputeGravity(dt: real)
      requires Valid()
      modifies this`velocity, this`log
      ensures velocity == GravityVelocity(old(velocity), Settings(), dt)
      ensures log == old(log) + GravityEvents(Settings())
    {
      if LengthSquared(gravity) > kEpsilonD {
        AddGravityToFaces(Scale(dt, gravity));
        ApplyBoundaryCondition();
      }
    }

    /** The three face loops of `computeGravity`, each for an axis whose gravity exceeds `kEpsilonD`. */
    method AddGravityToFaces(d: Vector3)
      modifies this`velocity
      ensures velocity == ShiftedFaces(old(velocity), gravity, d)
    {
      ghost var f := velocity;
      if Abs(gravity.x) > kEpsilonD {
        AddToFaces(X, d.x);
      }
      assert velocity == f.(u := velocity.u);
      if Abs(gravity.y) > kEpsilonD {
        AddToFaces(Y, d.y);
      }
      assert velocity == f.(u := velocity.u, v := velocity.v);
      if Abs(gravity.z) > kEpsilonD {
        AddToFaces(Z, d.z);
      }
    }

    /** `computeViscosity`: diffuse from a copy of the velocity, then apply the boundary. */
    method ComputeViscosity(dt: real)
      requires Valid()
      modifies this`velocity, this`log
      ensures velocity == ViscosityVelocity(old(velocity), Settings(), dt)
      ensures log == old(log) + ViscosityEvents(Settings(), dt)
    {
      if diffusionSolver.Some? && viscosityCoefficient > kEpsilonD {
        var vel0 := velocity;
        velocity := diffusionSolver.value(vel0, viscosityCoefficient, dt);
        log := log + [Diffused(viscosityCoefficient, dt)];
        ApplyBoundaryCondition();
      }
    }

    /** `computePressure`: project from a copy of the velocity, then apply the boundary. */
    method ComputePressure(dt: real)
      requires Valid()
      modifies this`velocity, this`log
      ensures velocity == PressureVelocity(old(velocity), Settings(), dt)
      ensures log == old(log) + PressureEvents(Settings(), dt)
    {
      if pressureSolver.Some? {
        var vel0 := velocity;
        velocity := pressureSolver.value.solve(vel0, dt, useCompressedLinearSystem);
        log := log + [Projected(dt, useCompressedLinearSystem)];
        ApplyBoundaryCondition();
      }
    }

    /** The scalar-layer loop of `computeAdvection`. */
    method AdvectScalarLayers(dt: real, depth: nat)
      modifies this`log
      ensures log == old(log) + ScalarEvents(scalarLayers, dt, depth)
    {
      var n := scalarLayers;
      var i := 0;
      while i < n
        invariant 0 <= i <= n
        invariant log == old(log) + ScalarEvents(i, dt, depth)
      {
        log := log + [ScalarAdvected(i, dt), ScalarExtrapolated(i, depth)];
        i := i + 1;
      }
    }

    /** The vector-layer loop of `computeAdvection`: the velocity layer and layers of neither grid type are skipped. */
    method AdvectVectorLayers(dt: real, depth: nat)
      modifies this`log
      ensures log == old(log) + VectorEvents(vectorLayers, velocityIndex, dt, depth, |vectorLayers|)
    {
      var n := |vectorLayers|;
      var velIdx := velocityIndex;
      var i := 0;
      while i < n
        invariant 0 <= i <= n
        invariant log == old(log) + VectorEvents(vectorLayers, velocityIndex, dt, depth, i)
      {
        if i == velIdx {
          i := i + 1;
          continue;
        }
        match vectorLayers[i] {
          case Collocated =>
            log := log + [VectorAdvected(i, dt), VectorExtrapolated(i, depth)];
          case FaceCentered =>
            log := log + [VectorAdvected(i, dt), VectorExtrapolated(i, depth)];
          case Other =>
        }
        i := i + 1;
      }
    }

    /** `computeAdvection`: the layers, then the velocity advected by a copy of itself, then the boundary. */
    method ComputeAdvection(dt: real)
      requires Valid()
      modifies this`velocity, this`log
      ensures velocity == AdvectionVelocity(old(velocity), Settings(), dt)
      ensures log == old(log) + AdvectionEvents(Settings(), dt)
    {
      if advectionSolver.Some? {
        ghost var c := Settings();
        ghost var start := log;
        var depth := Ceil(maxCfl);
        AdvectScalarLayers(dt, depth);
        ghost var done := ScalarEvents(scalarLayers, dt, depth);
        AdvectVectorLayers(dt, depth);
        ghost var vectors := VectorEvents(vectorLayers, velocityIndex, dt, depth, |vectorLayers|);
        Animation.ConcatAssoc(start, done, vectors);
        done := done + vectors;
        var vel0 := velocity;
        velocity := advectionSolver.value(vel0, vel0, dt);
        log := log + [VelocityAdvected(dt)];
        Animation.ConcatAssoc(start, done, [VelocityAdvected(dt)]);
        done := done + [VelocityAdvected(dt)];
        ApplyBoundaryCondition();
        Animation.ConcatAssoc(start, done, BoundaryEvents(c));
      }
    }

    /** `onAdvanceTimeStep`: nothing on an empty grid, otherwise the stages in order. */
    method OnAdvanceTimeStep(dt: real)
      requires Valid()
      modifies this`velocity, this`log
      ensures velocity == StepVelocity(old(velocity), Settings(), dt)
      ensures log == old(log) + StepEvents(Settings(), dt)
    {
      if resolution.0 == 0 || resolution.1 == 0 || resolution.2 == 0 {
        return;
      }
      ghost var c := Settings();
      ghost var start := log;
      ghost var f := BoundaryVelocity(velocity, c);
      BeginAdvanceTimeStep(dt);
      assert velocity == f && Settings() == c;
      ghost var done := BeginEvents(c, dt);
      ComputeGravity(dt);
      f := GravityVelocity(f, c, dt);
      assert velocity == f && Settings() == c;
      Animation.ConcatAssoc(start, done, GravityEvents(c));
      done := done + GravityEvents(c);
      ComputeViscosity(dt);
      f := ViscosityVelocity(f, c, dt);
      assert velocity == f && Settings() == c;
      Animation.ConcatAssoc(start, done, ViscosityEvents(c, dt));
      done := done + ViscosityEvents(c, dt);
      ComputePressure(dt);
      f := PressureVelocity(f, c, dt);
      assert velocity == f && Settings() == c;
      Animation.ConcatAssoc(start, done, PressureEvents(c, dt));
      done := done + PressureEvents(c, dt);
      ComputeAdvection(dt);
      f := AdvectionVelocity(f, c, dt);
      assert velocity == f;
      Animation.ConcatAssoc(start, done, AdvectionEvents(c, dt));
      done := done + AdvectionEvents(c, dt);
      log := log + [EndCallback(dt)];
      Animation.ConcatAssoc(start, done, [EndCallback(dt)]);
    }
  }
}
