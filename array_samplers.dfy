/**
 * Index selection and weights of the 3-D array samplers (nearest,
 * trilinear and cubic). Positions are reals; the per-axis split of a
 * normalised coordinate into a cell index and a fraction (getBarycentric)
 * is a parameter of which only its range is required.
 */
module ArraySamplers {
  import opened VectorMath
  import Array3D

  /** A cell index and the fraction of the way to the next cell along one axis. */
  datatype Barycentric = Barycentric(i: int, f: real)

  datatype Index3 = Index3(x: int, y: int, z: int)

  datatype Size3 = Size3(x: nat, y: nat, z: nat)

  /**
   * getBarycentric(v, 0, hi) is required to return an index in [0, hi] and a
   * fraction in [0, 1] whenever the axis is non-empty.
   */
  ghost predicate BarycentricOk(bary: (real, int) -> Barycentric)
  {
    forall v: real, hi: int {:trigger bary(v, hi)} :: hi >= 0 ==> 0 <= bary(v, hi).i <= hi && 0.0 <= bary(v, hi).f <= 1.0
  }

  predicate NonEmpty(size: Size3)
  {
    size.x >= 1 && size.y >= 1 && size.z >= 1
  }

  predicate InBounds(p: Index3, size: Size3)
  {
    0 <= p.x < size.x && 0 <= p.y < size.y && 0 <= p.z < size.z
  }

  predicate Positive(v: Vector3)
  {
    v.x > 0.0 && v.y > 0.0 && v.z > 0.0
  }

  function MinInt(a: int, b: int): int
  {
    if a < b then a else b
  }

  function MaxInt(a: int, b: int): int
  {
    if a < b then b else a
  }

  /** A cast of a real to a signed integer: truncation toward zero. */
  function Trunc(x: real): (n: int)
    ensures x >= 0.0 ==> n as real <= x < n as real + 1.0
    ensures x < 0.0 ==> n as real - 1.0 < x <= n as real
  {
    if x >= 0.0 then x.Floor else -((-x).Floor)
  }

  /** `(x - origin) / gridSpacing`, per component. */
  function Normalize(x: Vector3, origin: Vector3, spacing: Vector3): Vector3
    requires Positive(spacing)
  {
    Vector3((x.x - origin.x) / spacing.x, (x.y - origin.y) / spacing.y, (x.z - origin.z) / spacing.z)
  }

  /** `(x - origin) * invGridSpacing`, per component. */
  function NormalizeByInverse(x: Vector3, origin: Vector3, inv: Vector3): Vector3
  {
    Vector3((x.x - origin.x) * inv.x, (x.y - origin.y) * inv.y, (x.z - origin.z) * inv.z)
  }

  /** Multiplying by the cached inverse spacing is dividing by the spacing (in exact arithmetic). */
  lemma NormalizeByInverseAgrees(x: Vector3, origin: Vector3, spacing: Vector3, inv: Vector3)
    requires Positive(spacing)
    requires inv.x * spacing.x == 1.0 && inv.y * spacing.y == 1.0 && inv.z * spacing.z == 1.0
    ensures NormalizeByInverse(x, origin, inv) == Normalize(x, origin, spacing)
  {
    assert inv.x == 1.0 / spacing.x;
    assert inv.y == 1.0 / spacing.y;
    assert inv.z == 1.0 / spacing.z;
  }

  // ---------------------------------------------------------------- nearest

  /**
   * The nearest index along one axis: `min(trunc(i + f + 0.5), size - 1)`.
   * It rounds to the nearer of i and i+1 (halves go up) and stays in bounds.
   */
  function NearestAxis(b: Barycentric, size: int): (r: int)
    requires size >= 1 && 0 <= b.i <= size - 1 && 0.0 <= b.f <= 1.0
    ensures 0 <= r <= size - 1
    ensures r == b.i || r == b.i + 1
    ensures r == b.i + 1 <==> b.f >= 0.5 && b.i + 1 <= size - 1
  {
    MinInt(Trunc(b.i as real + b.f + 0.5), size - 1)
  }

  datatype NearestSampler = NearestSampler(gridSpacing: Vector3, origin: Vector3, size: Size3)

  /** `getCoordinate`: the nearest array index to `x`, always inside the array. */
  function NearestCoordinate(s: NearestSampler, x: Vector3, bary: (real, int) -> Barycentric): (p: Index3)
    requires Positive(s.gridSpacing) && NonEmpty(s.size) && BarycentricOk(bary)
    ensures InBounds(p, s.size)
    ensures var n := Normalize(x, s.origin, s.gridSpacing);
            p == Index3(NearestAxis(bary(n.x, s.size.x - 1), s.size.x),
                        NearestAxis(bary(n.y, s.size.y - 1), s.size.y),
                        NearestAxis(bary(n.z, s.size.z - 1), s.size.z))
  {
    var n := Normalize(x, s.origin, s.gridSpacing);
    var baryX, baryY, baryZ := bary(n.x, s.size.x - 1), bary(n.y, s.size.y - 1), bary(n.z, s.size.z - 1);
    Index3(MinInt(Trunc(baryX.i as real + baryX.f + 0.5), s.size.x - 1),
           MinInt(Trunc(baryY.i as real + baryY.f + 0.5), s.size.y - 1),
           MinInt(Trunc(baryZ.i as real + baryZ.f + 0.5), s.size.z - 1))
  }

  /**
   * `operator()` of the nearest sampler, over the array's flat data: the
   * element stored at the index `getCoordinate` reports.
   */
  function NearestSample<T>(s: NearestSampler, data: seq<T>, x: Vector3, bary: (real, int) -> Barycentric): (v: T)
    requires Positive(s.gridSpacing) && NonEmpty(s.size) && BarycentricOk(bary)
    requires |data| == s.size.x * s.size.y * s.size.z
    ensures var p := NearestCoordinate(s, x, bary);
            v == Array3D.Cell(data, s.size.x, s.size.y, s.size.z, p.x, p.y, p.z)
    ensures v in data
  {
    var n := Normalize(x, s.origin, s.gridSpacing);
    var baryX, baryY, baryZ := bary(n.x, s.size.x - 1), bary(n.y, s.size.y - 1), bary(n.z, s.size.z - 1);
    var i := MinInt(Trunc(baryX.i as real + baryX.f + 0.5), s.size.x - 1);
    var j := MinInt(Trunc(baryY.i as real + baryY.f + 0.5), s.size.y - 1);
    var k := MinInt(Trunc(baryZ.i as real + baryZ.f + 0.5), s.size.z - 1);
    Array3D.LinearIndexInRange(s.size.x, s.size.y, s.size.z, i, j, k);
    data[Array3D.LinearIndex(s.size.x, s.size.y, i, j, k)]
  }

  // ---------------------------------------------------------------- linear

  /** Whether corner `c` (0..7) takes the upper neighbour along `axis` (0 = x, 1 = y, 2 = z). */
  function CornerBit(c: nat, axis: nat): bool
    requires c < 8 && axis < 3
  {
    if axis == 0 then c % 2 == 1 else if axis == 1 then (c / 2) % 2 == 1 else c / 4 == 1
  }

  /** The index of corner `c` built from its bit pattern: the reference definition of the corner table. */
  function CornerOf(c: nat, lo: Index3, hi: Index3): Index3
    requires c < 8
  {
    Index3(if CornerBit(c, 0) then hi.x else lo.x,
           if CornerBit(c, 1) then hi.y else lo.y,
           if CornerBit(c, 2) then hi.z else lo.z)
  }

  /** The eight corner indices in the order the linear sampler writes them. */
  function Corners(lo: Index3, hi: Index3): (r: seq<Index3>)
    ensures |r| == 8
    ensures forall c :: 0 <= c < 8 ==> r[c] == CornerOf(c, lo, hi)
  {
    [Index3(lo.x, lo.y, lo.z), Index3(hi.x, lo.y, lo.z), Index3(lo.x, hi.y, lo.z), Index3(hi.x, hi.y, lo.z),
     Index3(lo.x, lo.y, hi.z), Index3(hi.x, lo.y, hi.z), Index3(lo.x, hi.y, hi.z), Index3(hi.x, hi.y, hi.z)]
  }

  /** The weight factor along one axis: `f` toward the upper neighbour, `1 - f` toward the lower. */
  function Factor(upper: bool, f: real): real
  {
    if upper then f else 1.0 - f
  }

  /** The derivative of Factor(upper, f) with respect to `f`, times `v`: `v` toward the upper neighbour, `-v` toward the lower. */
  function Signed(upper: bool, v: real): real
  {
    if upper then v else -v
  }

  /** Trilinear weight `c`, as the linear sampler writes it. */
  function TrilinearWeight(fx: real, fy: real, fz: real, c: nat): real
    requires c < 8
  {
    if c == 0 then (1.0 - fx) * (1.0 - fy) * (1.0 - fz)
    else if c == 1 then fx * (1.0 - fy) * (1.0 - fz)
    else if c == 2 then (1.0 - fx) * fy * (1.0 - fz)
    else if c == 3 then fx * fy * (1.0 - fz)
    else if c == 4 then (1.0 - fx) * (1.0 - fy) * fz
    else if c == 5 then fx * (1.0 - fy) * fz
    else if c == 6 then (1.0 - fx) * fy * fz
    else fx * fy * fz
  }

  /** The trilinear weights in the order the linear sampler writes them. */
  function TrilinearWeights(fx: real, fy: real, fz: real): (w: seq<real>)
    ensures |w| == 8 && forall c :: 0 <= c < 8 ==> w[c] == TrilinearWeight(fx, fy, fz, c)
  {
    seq(8, c requires 0 <= c < 8 => TrilinearWeight(fx, fy, fz, c))
  }

  /** Weight `c` is the product of the per-axis factors selected by the bits of `c`. */
  lemma TrilinearWeightIsFactorProduct(fx: real, fy: real, fz: real, c: nat)
    requires c < 8
    ensures TrilinearWeight(fx, fy, fz, c) == Factor(CornerBit(c, 0), fx) * Factor(CornerBit(c, 1), fy) * Factor(CornerBit(c, 2), fz)
  {
    if c == 0 {
      assert !CornerBit(0, 0) && !CornerBit(0, 1) && !CornerBit(0, 2);
    } else if c == 1 {
      assert CornerBit(1, 0) && !CornerBit(1, 1) && !CornerBit(1, 2);
    } else if c == 2 {
      assert !CornerBit(2, 0) && CornerBit(2, 1) && !CornerBit(2, 2);
    } else if c == 3 {
      assert CornerBit(3, 0) && CornerBit(3, 1) && !CornerBit(3, 2);
    } else if c == 4 {
      assert !CornerBit(4, 0) && !CornerBit(4, 1) && CornerBit(4, 2);
    } else if c == 5 {
      assert CornerBit(5, 0) && !CornerBit(5, 1) && CornerBit(5, 2);
    } else if c == 6 {
      assert !CornerBit(6, 0) && CornerBit(6, 1) && CornerBit(6, 2);
    } else {
      assert CornerBit(7, 0) && CornerBit(7, 1) && CornerBit(7, 2);
    }
  }

  function Sum8(w: seq<real>): real
    requires |w| == 8
  {
    w[0] + w[1] + w[2] + w[3] + w[4] + w[5] + w[6] + w[7]
  }

  lemma MulNonneg(a: real, b: real)
    requires 0.0 <= a && 0.0 <= b
    ensures 0.0 <= a * b
  {
  }

  lemma UnitProduct(a: real, b: real)
    requires 0.0 <= a <= 1.0 && 0.0 <= b <= 1.0
    ensures 0.0 <= a * b <= 1.0
  {
    MulNonneg(a, b);
    MulNonneg(1.0 - a, b);
    assert (1.0 - a) * b == b - a * b;
  }

  lemma PairSum(f: real, p: real, q: real)
    ensures (1.0 - f) * p * q + f * p * q == p * q
  {
  }

  /** For fractions in [0, 1] the trilinear weights are each in [0, 1] and sum to 1. */
  lemma TrilinearWeightsPartitionUnity(fx: real, fy: real, fz: real)
    requires 0.0 <= fx <= 1.0 && 0.0 <= fy <= 1.0 && 0.0 <= fz <= 1.0
    ensures var w := TrilinearWeights(fx, fy, fz);
            Sum8(w) == 1.0 && forall c :: 0 <= c < 8 ==> 0.0 <= w[c] <= 1.0
  {
    var w := TrilinearWeights(fx, fy, fz);
    PairSum(fx, 1.0 - fy, 1.0 - fz);
    PairSum(fx, fy, 1.0 - fz);
    PairSum(fx, 1.0 - fy, fz);
    PairSum(fx, fy, fz);
    assert w[0] + w[1] + w[2] + w[3] == (1.0 - fy) * (1.0 - fz) + fy * (1.0 - fz);
    assert w[4] + w[5] + w[6] + w[7] == (1.0 - fy) * fz + fy * fz;
    PairSum(fy, 1.0, 1.0 - fz);
    PairSum(fy, 1.0, fz);
    forall c | 0 <= c < 8
      ensures 0.0 <= w[c] <= 1.0
    {
      var a, b, d := Factor(CornerBit(c, 0), fx), Factor(CornerBit(c, 1), fy), Factor(CornerBit(c, 2), fz);
      TrilinearWeightIsFactorProduct(fx, fy, fz, c);
      UnitProduct(a, b);
      UnitProduct(a * b, d);
    }
  }

  /** Gradient weight `c`, as the linear sampler writes it. */
  function GradientWeight(fx: real, fy: real, fz: real, inv: Vector3, c: nat): Vector3
    requires c < 8
  {
    if c == 0 then Vector3(-inv.x * (1.0 - fy) * (1.0 - fz), -inv.y * (1.0 - fx) * (1.0 - fz), -inv.z * (1.0 - fx) * (1.0 - fy))
    else if c == 1 then Vector3(inv.x * (1.0 - fy) * (1.0 - fz), fx * (-inv.y) * (1.0 - fz), fx * (1.0 - fy) * (-inv.z))
    else if c == 2 then Vector3((-inv.x) * fy * (1.0 - fz), (1.0 - fx) * inv.y * (1.0 - fz), (1.0 - fx) * fy * (-inv.z))
    else if c == 3 then Vector3(inv.x * fy * (1.0 - fz), fx * inv.y * (1.0 - fz), fx * fy * (-inv.z))
    else if c == 4 then Vector3((-inv.x) * (1.0 - fy) * fz, (1.0 - fx) * (-inv.y) * fz, (1.0 - fx) * (1.0 - fy) * inv.z)
    else if c == 5 then Vector3(inv.x * (1.0 - fy) * fz, fx * (-inv.y) * fz, fx * (1.0 - fy) * inv.z)
    else if c == 6 then Vector3((-inv.x) * fy * fz, (1.0 - fx) * inv.y * fz, (1.0 - fx) * fy * inv.z)
    else Vector3(inv.x * fy * fz, fx * inv.y * fz, fx * fy * inv.z)
  }

  /** The gradient weights in the order the linear sampler writes them. */
  function GradientWeights(fx: real, fy: real, fz: real, inv: Vector3): (g: seq<Vector3>)
    ensures |g| == 8 && forall c :: 0 <= c < 8 ==> g[c] == GradientWeight(fx, fy, fz, inv, c)
  {
    seq(8, c requires 0 <= c < 8 => GradientWeight(fx, fy, fz, inv, c))
  }

  /**
   * The derivative of trilinear weight `c` with respect to the position:
   * along each axis the factor of that axis is replaced by its slope (+1 or
   * -1) times the inverse spacing.
   */
  function WeightDerivative(fx: real, fy: real, fz: real, inv: Vector3, c: nat): Vector3
    requires c < 8
  {
    var bitX, bitY, bitZ := CornerBit(c, 0), CornerBit(c, 1), CornerBit(c, 2);
    Vector3(Signed(bitX, inv.x) * Factor(bitY, fy) * Factor(bitZ, fz),
            Factor(bitX, fx) * Signed(bitY, inv.y) * Factor(bitZ, fz),
            Factor(bitX, fx) * Factor(bitY, fy) * Signed(bitZ, inv.z))
  }

  /** Gradient weight `c` is the derivative of trilinear weight `c`. */
  lemma GradientWeightIsDerivative(fx: real, fy: real, fz: real, inv: Vector3, c: nat)
    requires c < 8
    ensures GradientWeight(fx, fy, fz, inv, c) == WeightDerivative(fx, fy, fz, inv, c)
  {
    if c == 0 {
      GradientCorner0(fx, fy, fz, inv);
    } else if c == 1 {
      GradientCorner1(fx, fy, fz, inv);
    } else if c == 2 {
      GradientCorner2(fx, fy, fz, inv);
    } else if c == 3 {
      GradientCorner3(fx, fy, fz, inv);
    } else if c == 4 {
      GradientCorner4(fx, fy, fz, inv);
    } else if c == 5 {
      GradientCorner5(fx, fy, fz, inv);
    } else if c == 6 {
      GradientCorner6(fx, fy, fz, inv);
    } else {
      GradientCorner7(fx, fy, fz, inv);
    }
  }

  lemma GradientCorner0(fx: real, fy: real, fz: real, inv: Vector3)
    ensures GradientWeight(fx, fy, fz, inv, 0) == WeightDerivative(fx, fy, fz, inv, 0)
  {
    assert !CornerBit(0, 0) && !CornerBit(0, 1) && !CornerBit(0, 2);
    SwapFirstTwo(1.0 - fx, -inv.y, 1.0 - fz);
    RotateLast(1.0 - fx, 1.0 - fy, -inv.z);
  }

  lemma GradientCorner1(fx: real, fy: real, fz: real, inv: Vector3)
    ensures GradientWeight(fx, fy, fz, inv, 1) == WeightDerivative(fx, fy, fz, inv, 1)
  {
    assert CornerBit(1, 0) && !CornerBit(1, 1) && !CornerBit(1, 2);
  }

  lemma GradientCorner2(fx: real, fy: real, fz: real, inv: Vector3)
    ensures GradientWeight(fx, fy, fz, inv, 2) == WeightDerivative(fx, fy, fz, inv, 2)
  {
    assert !CornerBit(2, 0) && CornerBit(2, 1) && !CornerBit(2, 2);
  }

  lemma GradientCorner3(fx: real, fy: real, fz: real, inv: Vector3)
    ensures GradientWeight(fx, fy, fz, inv, 3) == WeightDerivative(fx, fy, fz, inv, 3)
  {
    assert CornerBit(3, 0) && CornerBit(3, 1) && !CornerBit(3, 2);
  }

  lemma GradientCorner4(fx: real, fy: real, fz: real, inv: Vector3)
    ensures GradientWeight(fx, fy, fz, inv, 4) == WeightDerivative(fx, fy, fz, inv, 4)
  {
    assert !CornerBit(4, 0) && !CornerBit(4, 1) && CornerBit(4, 2);
  }

  lemma GradientCorner5(fx: real, fy: real, fz: real, inv: Vector3)
    ensures GradientWeight(fx, fy, fz, inv, 5) == WeightDerivative(fx, fy, fz, inv, 5)
  {
    assert CornerBit(5, 0) && !CornerBit(5, 1) && CornerBit(5, 2);
  }

  lemma GradientCorner6(fx: real, fy: real, fz: real, inv: Vector3)
    ensures GradientWeight(fx, fy, fz, inv, 6) == WeightDerivative(fx, fy, fz, inv, 6)
  {
    assert !CornerBit(6, 0) && CornerBit(6, 1) && CornerBit(6, 2);
  }

  lemma GradientCorner7(fx: real, fy: real, fz: real, inv: Vector3)
    ensures GradientWeight(fx, fy, fz, inv, 7) == WeightDerivative(fx, fy, fz, inv, 7)
  {
    assert CornerBit(7, 0) && CornerBit(7, 1) && CornerBit(7, 2);
  }

  lemma SwapFirstTwo(a: real, b: real, c: real)
    ensures a * b * c == b * a * c
  {
  }

  lemma RotateLast(a: real, b: real, c: real)
    ensures a * b * c == c * a * b
  {
  }

  /** Each component of the eight gradient weights sums to zero. */
  lemma GradientWeightsSumToZero(fx: real, fy: real, fz: real, inv: Vector3)
    ensures var g := GradientWeights(fx, fy, fz, inv);
            && g[0].x + g[1].x + g[2].x + g[3].x + g[4].x + g[5].x + g[6].x + g[7].x == 0.0
            && g[0].y + g[1].y + g[2].y + g[3].y + g[4].y + g[5].y + g[6].y + g[7].y == 0.0
            && g[0].z + g[1].z + g[2].z + g[3].z + g[4].z + g[5].z + g[6].z + g[7].z == 0.0
  {
  }

  /** The linear sampler: the inverse spacing is computed once, at construction. */
  datatype LinearSampler = LinearSampler(gridSpacing: Vector3, invGridSpacing: Vector3, origin: Vector3, size: Size3)
  {
    ghost predicate Valid()
    {
      && Positive(gridSpacing)
      && invGridSpacing.x * gridSpacing.x == 1.0
      && invGridSpacing.y * gridSpacing.y == 1.0
      && invGridSpacing.z * gridSpacing.z == 1.0
    }
  }

  /** The linear sampler's constructor caches `1 / gridSpacing`. */
  function NewLinearSampler(gridSpacing: Vector3, origin: Vector3, size: Size3): (s: LinearSampler)
    requires Positive(gridSpacing)
    ensures s.Valid()
    ensures s.gridSpacing == gridSpacing && s.origin == origin && s.size == size
  {
    LinearSampler(gridSpacing, Vector3(1.0 / gridSpacing.x, 1.0 / gridSpacing.y, 1.0 / gridSpacing.z), origin, size)
  }

  /**
   * The lower corner (i, j, k) and the upper corner clamped to the array:
   * on each axis the upper index is the next one, or the lower one itself
   * when the lower index is already the last.
   */
  function CellCorners(baryX: Barycentric, baryY: Barycentric, baryZ: Barycentric, size: Size3): (r: (Index3, Index3))
    requires 0 <= baryX.i < size.x && 0 <= baryY.i < size.y && 0 <= baryZ.i < size.z
    ensures r.0 == Index3(baryX.i, baryY.i, baryZ.i)
    ensures InBounds(r.0, size) && InBounds(r.1, size)
    ensures r.1.x == (if baryX.i == size.x - 1 then baryX.i else baryX.i + 1)
    ensures r.1.y == (if baryY.i == size.y - 1 then baryY.i else baryY.i + 1)
    ensures r.1.z == (if baryZ.i == size.z - 1 then baryZ.i else baryZ.i + 1)
  {
    (Index3(baryX.i, baryY.i, baryZ.i),
     Index3(MinInt(baryX.i + 1, size.x - 1), MinInt(baryY.i + 1, size.y - 1), MinInt(baryZ.i + 1, size.z - 1)))
  }

  /**
   * Corner `c` of the cell of barycentric coordinates (baryX, baryY, baryZ): on each
   * axis the bit of `c` picks the upper neighbour (clamped) or the cell's own index.
   */
  function CellCorner(baryX: Barycentric, baryY: Barycentric, baryZ: Barycentric, size: Size3, c: nat): Index3
    requires c < 8
  {
    Index3(if CornerBit(c, 0) then MinInt(baryX.i + 1, size.x - 1) else baryX.i,
           if CornerBit(c, 1) then MinInt(baryY.i + 1, size.y - 1) else baryY.i,
           if CornerBit(c, 2) then MinInt(baryZ.i + 1, size.z - 1) else baryZ.i)
  }

  /** The result of getCoordinatesAndWeights / getCoordinatesAndGradientWeights. */
  datatype Stencil<W> = Stencil(indices: seq<Index3>, weights: seq<W>)

  /**
   * `getCoordinatesAndWeights`: the position is normalised with the cached
   * inverse spacing. Corner `c` is the cell corner its bits select and the
   * weights are the trilinear weights of the cell's fractions (each the
   * product of the per-axis factors the corner's bits select, by
   * TrilinearWeightIsFactorProduct); every corner lies in the array, and the
   * weights are a partition of unity.
   */
  function CoordinatesAndWeights(s: LinearSampler, x: Vector3, bary: (real, int) -> Barycentric): (r: Stencil<real>)
    requires s.Valid() && NonEmpty(s.size) && BarycentricOk(bary)
    ensures |r.indices| == 8 && |r.weights| == 8
    ensures var n := NormalizeByInverse(x, s.origin, s.invGridSpacing);
            var baryX, baryY, baryZ := bary(n.x, s.size.x - 1), bary(n.y, s.size.y - 1), bary(n.z, s.size.z - 1);
            forall c :: 0 <= c < 8 ==> r.indices[c] == CellCorner(baryX, baryY, baryZ, s.size, c)
    ensures var n := NormalizeByInverse(x, s.origin, s.invGridSpacing);
            r.weights == TrilinearWeights(bary(n.x, s.size.x - 1).f, bary(n.y, s.size.y - 1).f, bary(n.z, s.size.z - 1).f)
    ensures forall c :: 0 <= c < 8 ==> InBounds(r.indices[c], s.size)
    ensures forall c :: 0 <= c < 8 ==> 0.0 <= r.weights[c] <= 1.0
    ensures Sum8(r.weights) == 1.0
  {
    var n := NormalizeByInverse(x, s.origin, s.invGridSpacing);
    var baryX, baryY, baryZ := bary(n.x, s.size.x - 1), bary(n.y, s.size.y - 1), bary(n.z, s.size.z - 1);
    var (lo, hi) := CellCorners(baryX, baryY, baryZ, s.size);
    TrilinearWeightsPartitionUnity(baryX.f, baryY.f, baryZ.f);
    CellStencilIsCorners(baryX, baryY, baryZ, s.size);
    Stencil(Corners(lo, hi), TrilinearWeights(baryX.f, baryY.f, baryZ.f))
  }

  /** The corner table of a cell holds, at position `c`, the corner the bits of `c` select. */
  lemma CellStencilIsCorners(baryX: Barycentric, baryY: Barycentric, baryZ: Barycentric, size: Size3)
    requires 0 <= baryX.i < size.x && 0 <= baryY.i < size.y && 0 <= baryZ.i < size.z
    ensures var cell := CellCorners(baryX, baryY, baryZ, size);
            forall c :: 0 <= c < 8 ==> Corners(cell.0, cell.1)[c] == CellCorner(baryX, baryY, baryZ, size, c) && InBounds(Corners(cell.0, cell.1)[c], size)
  {
    var (lo, hi) := CellCorners(baryX, baryY, baryZ, size);
    forall c | 0 <= c < 8
      ensures Corners(lo, hi)[c] == CellCorner(baryX, baryY, baryZ, size, c) && InBounds(Corners(lo, hi)[c], size)
    {
      assert Corners(lo, hi)[c] == CornerOf(c, lo, hi);
    }
  }

  /** Every gradient weight is the derivative of the trilinear weight of its corner. */
  lemma GradientWeightsAreDerivatives(fx: real, fy: real, fz: real, inv: Vector3)
    ensures forall c :: 0 <= c < 8 ==> GradientWeights(fx, fy, fz, inv)[c] == WeightDerivative(fx, fy, fz, inv, c)
  {
    forall c | 0 <= c < 8
      ensures GradientWeights(fx, fy, fz, inv)[c] == WeightDerivative(fx, fy, fz, inv, c)
    {
      GradientWeightIsDerivative(fx, fy, fz, inv, c);
    }
  }

  /**
   * `getCoordinatesAndGradientWeights`: the position is normalised by
   * dividing by the spacing; the gradient magnitudes use the cached inverse.
   * Corner `c` is the cell corner its bits select and its weight the
   * derivative of its trilinear weight; every corner lies in the array and
   * each gradient component sums to 0.
   */
  function CoordinatesAndGradientWeights(s: LinearSampler, x: Vector3, bary: (real, int) -> Barycentric): (r: Stencil<Vector3>)
    requires s.Valid() && NonEmpty(s.size) && BarycentricOk(bary)
    ensures |r.indices| == 8 && |r.weights| == 8
    ensures var n := Normalize(x, s.origin, s.gridSpacing);
            var baryX, baryY, baryZ := bary(n.x, s.size.x - 1), bary(n.y, s.size.y - 1), bary(n.z, s.size.z - 1);
            forall c :: 0 <= c < 8 ==>
              && r.indices[c] == CellCorner(baryX, baryY, baryZ, s.size, c)
              && r.weights[c] == WeightDerivative(baryX.f, baryY.f, baryZ.f, s.invGridSpacing, c)
    ensures forall c :: 0 <= c < 8 ==> InBounds(r.indices[c], s.size)
    ensures r.weights[0].x + r.weights[1].x + r.weights[2].x + r.weights[3].x
          + r.weights[4].x + r.weights[5].x + r.weights[6].x + r.weights[7].x == 0.0
    ensures r.weights[0].y + r.weights[1].y + r.weights[2].y + r.weights[3].y
          + r.weights[4].y + r.weights[5].y + r.weights[6].y + r.weights[7].y == 0.0
    ensures r.weights[0].z + r.weights[1].z + r.weights[2].z + r.weights[3].z
          + r.weights[4].z + r.weights[5].z + r.weights[6].z + r.weights[7].z == 0.0
  {
    var n := Normalize(x, s.origin, s.gridSpacing);
    var baryX, baryY, baryZ := bary(n.x, s.size.x - 1), bary(n.y, s.size.y - 1), bary(n.z, s.size.z - 1);
    var (lo, hi) := CellCorners(baryX, baryY, baryZ, s.size);
    GradientWeightsSumToZero(baryX.f, baryY.f, baryZ.f, s.invGridSpacing);
    CellStencilIsCorners(baryX, baryY, baryZ, s.size);
    GradientWeightsAreDerivatives(baryX.f, baryY.f, baryZ.f, s.invGridSpacing);
    Stencil(Corners(lo, hi), GradientWeights(baryX.f, baryY.f, baryZ.f, s.invGridSpacing))
  }

  /**
   * Both queries select the same eight corners (the positions are normalised
   * differently, but agree because the cached inverse is exact).
   */
  lemma GradientStencilMatchesWeights(s: LinearSampler, x: Vector3, bary: (real, int) -> Barycentric)
    requires s.Valid() && NonEmpty(s.size) && BarycentricOk(bary)
    ensures CoordinatesAndGradientWeights(s, x, bary).indices == CoordinatesAndWeights(s, x, bary).indices
  {
    NormalizeByInverseAgrees(x, s.origin, s.gridSpacing, s.invGridSpacing);
  }

  // ---------------------------------------------------------------- cubic

  /** The cubic stencil along one axis: `[max(i-1, 0), i, min(i+1, size-1), min(i+2, size-1)]`. */
  function CubicAxis(i: int, size: int): (r: seq<int>)
    requires 0 <= i <= size - 1
    ensures |r| == 4 && r[1] == i
    ensures forall t :: 0 <= t < 4 ==> 0 <= r[t] <= size - 1
    ensures forall t :: 0 <= t < 3 ==> r[t] <= r[t + 1] <= r[t] + 1
    ensures 1 <= i <= size - 3 ==> r == [i - 1, i, i + 1, i + 2]
    ensures forall t :: 0 <= t < 4 ==> r[t] == MaxInt(0, MinInt(i - 1 + t, size - 1))
  {
    [MaxInt(i - 1, 0), i, MinInt(i + 1, size - 1), MinInt(i + 2, size - 1)]
  }

  datatype CubicSampler = CubicSampler(gridSpacing: Vector3, origin: Vector3, size: Size3)

  /**
   * The per-axis index lists `is`, `js`, `ks` the cubic sampler interpolates
   * over: the cubic stencil of the barycentric index on each axis, all in the array.
   */
  function CubicStencil(s: CubicSampler, x: Vector3, bary: (real, int) -> Barycentric): (r: (seq<int>, seq<int>, seq<int>))
    requires Positive(s.gridSpacing) && NonEmpty(s.size) && BarycentricOk(bary)
    ensures |r.0| == 4 && |r.1| == 4 && |r.2| == 4
    ensures forall a, b, c :: 0 <= a < 4 && 0 <= b < 4 && 0 <= c < 4 ==> InBounds(Index3(r.0[a], r.1[b], r.2[c]), s.size)
    ensures var n := Normalize(x, s.origin, s.gridSpacing);
            r == (CubicAxis(bary(n.x, s.size.x - 1).i, s.size.x),
                  CubicAxis(bary(n.y, s.size.y - 1).i, s.size.y),
                  CubicAxis(bary(n.z, s.size.z - 1).i, s.size.z))
  {
    var n := Normalize(x, s.origin, s.gridSpacing);
    var baryX, baryY, baryZ := bary(n.x, s.size.x - 1), bary(n.y, s.size.y - 1), bary(n.z, s.size.z - 1);
    (CubicAxis(baryX.i, s.size.x), CubicAxis(baryY.i, s.size.y), CubicAxis(baryZ.i, s.size.z))
  }
}
