/**
 * The parallel hash-grid neighbour searcher. Points are hashed by the
 * bucket of the grid they fall in, wrapped around a fixed resolution;
 * `build` sorts the points by key and records, per key, the range of the
 * sorted arrays holding that key; queries scan the eight buckets around
 * the query position.
 */
module HashGrid {
  import opened VectorMath
  import Array3D

  /** `kMaxSize`: the largest `size_t`, used to mark a bucket without points. */
  const kMaxSize: nat := 0xFFFF_FFFF_FFFF_FFFF

  /** The number of values of a 64-bit `size_t`. */
  const kSizeRange: nat := 0x1_0000_0000_0000_0000

  /** A signed integer bucket coordinate (`Point3I`). */
  datatype Point3I = Point3I(x: int, y: int, z: int)

  /** The per-axis resolution of the hash table, as signed sizes. */
  datatype Resolution = Resolution(x: int, y: int, z: int)

  predicate PositiveResolution(res: Resolution)
  {
    res.x >= 1 && res.y >= 1 && res.z >= 1
  }

  /** The number of buckets, `rx * ry * rz`. */
  function TableSize(res: Resolution): nat
    requires PositiveResolution(res)
  {
    Array3D.MulLeft(res.x, 0, res.y);
    Array3D.MulLeft(res.x * res.y, 0, res.z);
    res.x * res.y * res.z
  }

  // ---------------------------------------------------------------- arithmetic

  /** `static_cast<ssize_t>` of a `size_t`: values from 2^63 on wrap to negatives. */
  function ToSSize(n: nat): (r: int)
    requires n < kSizeRange
    ensures n < kSizeRange / 2 ==> r == n
    ensures n >= kSizeRange / 2 ==> r < 0
    ensures r % kSizeRange == n % kSizeRange
  {
    if n < kSizeRange / 2 then n else n - kSizeRange
  }

  /** `max(static_cast<ssize_t>(n), kOneSSize)`: the clamp applied to each resolution axis. */
  function ClampAxis(n: nat): (r: int)
    requires n < kSizeRange
    ensures r >= 1
    ensures 1 <= n < kSizeRange / 2 ==> r == n
    ensures n == 0 || n >= kSizeRange / 2 ==> r == 1
  {
    var s := ToSSize(n);
    if s < 1 then 1 else s
  }

  lemma MulSign(n: int, d: int)
    requires n > 0
    ensures d >= 1 ==> n * d >= n
    ensures d <= -1 ==> n * d <= -n
  {
    if d >= 1 {
      assert n * d == n * (d - 1) + n;
    } else if d <= -1 {
      assert n * d == -(n * (-d - 1)) - n;
    }
  }

  /** The Euclidean remainder is determined by any quotient/remainder split. */
  lemma ModUnique(a: int, n: int, q: int, r: int)
    requires n > 0 && a == n * q + r && 0 <= r < n
    ensures a % n == r
  {
    var d := q - a / n;
    assert n * d == n * q - n * (a / n);
    MulSign(n, d);
  }

  /** C++ `%` on signed integers: truncating division, so the remainder takes the sign of `a`. */
  function TruncRem(a: int, n: int): (r: int)
    requires n > 0
    ensures -n < r < n
    ensures a >= 0 ==> r == a % n
    ensures a >= 0 ==> r >= 0
    ensures a < 0 ==> r <= 0
  {
    if a >= 0 then a % n else -((-a) % n)
  }

  /**
   * One wrapped coordinate of `getHashKeyFromBucketIndex`: the C++ remainder,
   * corrected by `+ n` when negative. It is the mathematical (Euclidean) modulus.
   */
  function WrapAxis(a: int, n: int): (r: int)
    requires n > 0
    ensures 0 <= r < n
    ensures r == a % n
  {
    var t := TruncRem(a, n);
    WrapAxisIsModulus(a, n);
    if t < 0 then t + n else t
  }

  lemma WrapAxisIsModulus(a: int, n: int)
    requires n > 0
    ensures var t := TruncRem(a, n); (if t < 0 then t + n else t) == a % n
  {
    if a < 0 {
      var m := -a;
      var q, s := m / n, m % n;
      assert m == n * q + s;
      if s == 0 {
        assert a == n * (-q) + 0;
        ModUnique(a, n, -q, 0);
      } else {
        assert a == n * (-q - 1) + (n - s);
        ModUnique(a, n, -q - 1, n - s);
      }
    }
  }

  /** Shifting a coordinate by the resolution wraps it to the same value. */
  lemma WrapAxisPeriodic(a: int, n: int)
    requires n > 0
    ensures WrapAxis(a + n, n) == WrapAxis(a, n)
    ensures WrapAxis(a - n, n) == WrapAxis(a, n)
  {
    assert a == n * (a / n) + a % n;
    ModUnique(a + n, n, a / n + 1, a % n);
    ModUnique(a - n, n, a / n - 1, a % n);
  }

  // ---------------------------------------------------------------- hashing

  /** `getHashKeyFromBucketIndex`: `(z' * ry + y') * rx + x'` over the wrapped coordinates. */
  function HashKey(b: Point3I, res: Resolution): (key: nat)
    requires PositiveResolution(res)
    ensures key < TableSize(res)
  {
    var x, y, z := WrapAxis(b.x, res.x), WrapAxis(b.y, res.y), WrapAxis(b.z, res.z);
    HashKeyIsLinearIndex(x, y, z, res);
    Array3D.LinearIndexInRange(res.x, res.y, res.z, x, y, z);
    (z * res.y + y) * res.x + x
  }

  lemma HashKeyIsLinearIndex(x: nat, y: nat, z: nat, res: Resolution)
    requires PositiveResolution(res)
    ensures (z * res.y + y) * res.x + x == Array3D.LinearIndex(res.x, res.y, x, y, z)
  {
    assert (z * res.y + y) * res.x == res.x * (y + res.y * z);
  }

  /** Two bucket indices share a key exactly when they agree modulo the resolution on every axis. */
  lemma HashKeyEqualIff(a: Point3I, b: Point3I, res: Resolution)
    requires PositiveResolution(res)
    ensures HashKey(a, res) == HashKey(b, res) <==>
            a.x % res.x == b.x % res.x && a.y % res.y == b.y % res.y && a.z % res.z == b.z % res.z
  {
    var ax, ay, az := WrapAxis(a.x, res.x), WrapAxis(a.y, res.y), WrapAxis(a.z, res.z);
    var bx, by_, bz := WrapAxis(b.x, res.x), WrapAxis(b.y, res.y), WrapAxis(b.z, res.z);
    HashKeyIsLinearIndex(ax, ay, az, res);
    HashKeyIsLinearIndex(bx, by_, bz, res);
    Array3D.LinearIndexInjective(res.x, res.y, ax, ay, az, bx, by_, bz);
  }

  /** Shifting a bucket index by the resolution along any axis gives the same key. */
  lemma HashKeyPeriodic(b: Point3I, res: Resolution)
    requires PositiveResolution(res)
    ensures HashKey(Point3I(b.x + res.x, b.y, b.z), res) == HashKey(b, res)
    ensures HashKey(Point3I(b.x, b.y + res.y, b.z), res) == HashKey(b, res)
    ensures HashKey(Point3I(b.x, b.y, b.z + res.z), res) == HashKey(b, res)
  {
    WrapAxisPeriodic(b.x, res.x);
    WrapAxisPeriodic(b.y, res.y);
    WrapAxisPeriodic(b.z, res.z);
  }

  /** `floor(v / s) * s <= v < (floor(v / s) + 1) * s` for a positive spacing. */
  lemma FloorCell(v: real, s: real)
    requires s != 0.0
    ensures s > 0.0 ==> (v / s).Floor as real * s <= v < ((v / s).Floor + 1) as real * s
  {
    if s > 0.0 {
      FloorCellPositive(v, s);
    }
  }

  lemma FloorCellPositive(v: real, s: real)
    requires s > 0.0
    ensures (v / s).Floor as real * s <= v < ((v / s).Floor + 1) as real * s
  {
    var f := (v / s).Floor as real;
    assert f <= v / s < f + 1.0;
    assert (v / s) * s == v;
    assert ((v / s).Floor + 1) as real == f + 1.0;
    assert (v / s) * s - f * s == (v / s - f) * s;
    var d := f + 1.0 - v / s;
    assert d > 0.0 && d * s > 0.0;
    assert (f + 1.0) * s - (v / s) * s == d * s;
    assert v < (f + 1.0) * s;
    assert ((v / s).Floor + 1) as real * s == (f + 1.0) * s;
  }

  /**
   * `getBucketIndex`: `floor(position / gridSpacing)` per axis. For a positive
   * spacing the position lies inside the returned bucket.
   */
  function BucketIndex(p: Vector3, spacing: real): (b: Point3I)
    requires spacing != 0.0
    ensures spacing > 0.0 ==> b.x as real * spacing <= p.x < (b.x + 1) as real * spacing
    ensures spacing > 0.0 ==> b.y as real * spacing <= p.y < (b.y + 1) as real * spacing
    ensures spacing > 0.0 ==> b.z as real * spacing <= p.z < (b.z + 1) as real * spacing
  {
    FloorCell(p.x, spacing);
    FloorCell(p.y, spacing);
    FloorCell(p.z, spacing);
    Point3I((p.x / spacing).Floor, (p.y / spacing).Floor, (p.z / spacing).Floor)
  }

  /** `getHashKeyFromPosition`. */
  function KeyOfPosition(p: Vector3, spacing: real, res: Resolution): (key: nat)
    requires spacing != 0.0 && PositiveResolution(res)
    ensures key < TableSize(res)
    ensures key == HashKey(BucketIndex(p, spacing), res)
  {
    HashKey(BucketIndex(p, spacing), res)
  }

  // ---------------------------------------------------------------- nearby buckets

  /** The direction of the neighbour along one axis: up when the position is in the upper half. */
  function Step(up: bool): int
  {
    if up then 1 else -1
  }

  /** Whether `v` lies in the upper half of bucket `o`: `(o + 0.5) * spacing <= v`. */
  predicate UpperHalf(o: int, v: real, spacing: real)
  {
    (o as real + 0.5) * spacing <= v
  }

  /** Which axes candidate `c` (0..7) is moved along: bit 2 for x, bit 1 for y, bit 0 for z. */
  function MovesX(c: nat): bool { (c / 4) % 2 == 1 }
  function MovesY(c: nat): bool { (c / 2) % 2 == 1 }
  function MovesZ(c: nat): bool { c % 2 == 1 }

  /**
   * The eight candidate buckets of `getNearbyKeys`, in the order it writes
   * them. Entry 0 is the origin's own bucket; every other entry is moved by
   * exactly one bucket, toward the nearer half, along the axes its bits select.
   */
  function NearbyBuckets(o: Point3I, upX: bool, upY: bool, upZ: bool): (r: seq<Point3I>)
    ensures |r| == 8 && r[0] == o
    ensures forall c :: 0 <= c < 8 ==>
              r[c] == Point3I(o.x + (if MovesX(c) then Step(upX) else 0),
                              o.y + (if MovesY(c) then Step(upY) else 0),
                              o.z + (if MovesZ(c) then Step(upZ) else 0))
  {
    var dx, dy, dz := Step(upX), Step(upY), Step(upZ);
    [o,
     Point3I(o.x, o.y, o.z + dz),
     Point3I(o.x, o.y + dy, o.z),
     Point3I(o.x, o.y + dy, o.z + dz),
     Point3I(o.x + dx, o.y, o.z),
     Point3I(o.x + dx, o.y, o.z + dz),
     Point3I(o.x + dx, o.y + dy, o.z),
     Point3I(o.x + dx, o.y + dy, o.z + dz)]
  }

  /**
   * The candidate buckets around `p`: each axis moves toward the half of the
   * origin's bucket that holds `p` (`(o + 0.5) * spacing <= p` moves up).
   */
  function NearbyBucketsOf(p: Vector3, spacing: real): (r: seq<Point3I>)
    requires spacing != 0.0
    ensures |r| == 8 && r[0] == BucketIndex(p, spacing)
  {
    var o := BucketIndex(p, spacing);
    NearbyBuckets(o, UpperHalf(o.x, p.x, spacing), UpperHalf(o.y, p.y, spacing), UpperHalf(o.z, p.z, spacing))
  }

  /**
   * `getNearbyKeys`: the keys of the eight candidate buckets around `p`.
   * Entry 0 is the key of `p` itself, entry `c` the key of candidate bucket
   * `c`, and every entry is a valid table index.
   */
  function NearbyKeys(p: Vector3, spacing: real, res: Resolution): (keys: seq<nat>)
    requires spacing != 0.0 && PositiveResolution(res)
    ensures |keys| == 8
    ensures keys[0] == KeyOfPosition(p, spacing, res)
    ensures forall c :: 0 <= c < 8 ==> keys[c] < TableSize(res)
    ensures forall c :: 0 <= c < 8 ==> keys[c] == HashKey(NearbyBucketsOf(p, spacing)[c], res)
  {
    var buckets := NearbyBucketsOf(p, spacing);
    seq(8, c requires 0 <= c < 8 => HashKey(buckets[c], res))
  }

  // ---------------------------------------------------------------- coverage of the candidates

  /** For a positive spacing, a larger integer index starts at least one spacing further on. */
  lemma IndexGap(a: int, b: int, s: real)
    requires a < b && s > 0.0
    ensures a as real * s + s <= b as real * s
  {
    assert b as real * s - (a as real * s + s) == (b - a - 1) as real * s;
  }

  lemma MulPositive(a: real, b: real)
    requires a > 0.0 && b > 0.0
    ensures a * b > 0.0
  {
  }

  lemma SquareNonNegative(x: real)
    ensures x * x >= 0.0
  {
    if x < 0.0 {
      MulPositive(-x, -x);
    } else if x > 0.0 {
      MulPositive(x, x);
    }
  }

  /** A square no larger than `r * r`, with `r >= 0`, has its root within `[-r, r]`. */
  lemma SquareBound(d: real, r: real)
    requires r >= 0.0 && d * d <= r * r
    ensures -r <= d <= r
  {
    assert d * d - r * r == (d - r) * (d + r);
    if d > r {
      MulPositive(d - r, d + r);
      assert false;
    } else if d < -r {
      MulPositive(-d - r, -d + r);
      assert false;
    }
  }

  /** A value that lies no lower than bucket `a` and below the end of bucket `b` has `a <= b`. */
  lemma CellsOrdered(a: int, b: int, s: real, w: real)
    requires s > 0.0 && a as real * s <= w < (b + 1) as real * s
    ensures a <= b
  {
    assert (b + 1) as real * s == b as real * s + s;
    if a > b {
      IndexGap(b, a, s);
      assert false;
    }
  }

  /**
   * Along one axis: when `v` lies in bucket `o`, `w` in bucket `b`, and the two
   * are at most half a spacing apart, `b` is `o` or its neighbour on the side
   * of `o`'s half that holds `v` -- the one `getNearbyKeys` picks.
   */
  lemma AxisNeighbour(v: real, w: real, s: real, r: real, o: int, b: int)
    requires s > 0.0 && 0.0 <= r && 2.0 * r <= s
    requires o as real * s <= v < (o + 1) as real * s
    requires b as real * s <= w < (b + 1) as real * s
    requires -r <= w - v <= r
    ensures b == o || b == o + Step(UpperHalf(o, v, s))
  {
    var lo, hi := o as real * s, (o + 1) as real * s;
    assert hi == lo + s;
    if UpperHalf(o, v, s) {
      assert lo + 0.5 * s <= v by { assert (o as real + 0.5) * s == lo + 0.5 * s; }
      assert lo <= w;
      CellsOrdered(o, b, s, w);
      assert w < (o + 2) as real * s by { assert (o + 2) as real * s == hi + s; }
      CellsOrdered(b, o + 1, s, w);
    } else {
      assert v < lo + 0.5 * s by { assert (o as real + 0.5) * s == lo + 0.5 * s; }
      assert w < hi;
      CellsOrdered(b, o, s, w);
      assert (o - 1) as real * s <= w by { assert (o - 1) as real * s == lo - s; }
      CellsOrdered(o - 1, b, s, w);
    }
  }

  /** Within the radius means within it along each axis. */
  lemma WithinAlongAxes(q: Vector3, p: Vector3, radius: real)
    requires 0.0 <= radius && Within(q, p, radius)
    ensures -radius <= q.x - p.x <= radius
    ensures -radius <= q.y - p.y <= radius
    ensures -radius <= q.z - p.z <= radius
  {
    var d := Sub(q, p);
    assert LengthSquared(d) == d.x * d.x + d.y * d.y + d.z * d.z;
    SquareNonNegative(d.x);
    SquareNonNegative(d.y);
    SquareNonNegative(d.z);
    SquareBound(d.x, radius);
    SquareBound(d.y, radius);
    SquareBound(d.z, radius);
  }

  /** `AxisNeighbour` for the buckets `getBucketIndex` computes along one axis. */
  lemma AxisCandidate(v: real, w: real, s: real, r: real, o: int, b: int)
    requires s > 0.0 && 0.0 <= r && 2.0 * r <= s && -r <= w - v <= r
    requires o == (v / s).Floor && b == (w / s).Floor
    ensures b == o || b == o + Step(UpperHalf(o, v, s))
  {
    FloorCellPositive(v, s);
    FloorCellPositive(w, s);
    AxisNeighbour(v, w, s, r, o, b);
  }

  /** A bucket at most one step from `o`, on the chosen side of each axis, is one of the eight candidates. */
  lemma CandidateIndex(o: Point3I, b: Point3I, upX: bool, upY: bool, upZ: bool) returns (c: nat)
    requires b.x == o.x || b.x == o.x + Step(upX)
    requires b.y == o.y || b.y == o.y + Step(upY)
    requires b.z == o.z || b.z == o.z + Step(upZ)
    ensures c < 8 && NearbyBuckets(o, upX, upY, upZ)[c] == b
  {
    c := (if b.x == o.x then 0 else 4) + (if b.y == o.y then 0 else 2) + (if b.z == o.z then 0 else 1);
  }

  /** A point at most half a spacing from `p` along each axis lies in one of `p`'s candidate buckets. */
  lemma BucketIsCandidate(p: Vector3, q: Vector3, spacing: real, radius: real) returns (c: nat)
    requires spacing > 0.0 && 0.0 <= radius && 2.0 * radius <= spacing
    requires -radius <= q.x - p.x <= radius && -radius <= q.y - p.y <= radius && -radius <= q.z - p.z <= radius
    ensures c < 8 && NearbyBucketsOf(p, spacing)[c] == BucketIndex(q, spacing)
  {
    var o, b := BucketIndex(p, spacing), BucketIndex(q, spacing);
    AxisCandidate(p.x, q.x, spacing, radius, o.x, b.x);
    AxisCandidate(p.y, q.y, spacing, radius, o.y, b.y);
    AxisCandidate(p.z, q.z, spacing, radius, o.z, b.z);
    c := CandidateIndex(o, b, UpperHalf(o.x, p.x, spacing), UpperHalf(o.y, p.y, spacing), UpperHalf(o.z, p.z, spacing));
  }

  /**
   * Every point within `radius <= spacing / 2` of `p` hashes to one of the
   * eight keys `getNearbyKeys` returns for `p`.
   */
  lemma NearbyKeysCover(p: Vector3, q: Vector3, spacing: real, res: Resolution, radius: real)
    requires spacing > 0.0 && PositiveResolution(res)
    requires 0.0 <= radius && 2.0 * radius <= spacing
    requires Within(q, p, radius)
    ensures KeyOfPosition(q, spacing, res) in NearbyKeys(p, spacing, res)
  {
    WithinAlongAxes(q, p, radius);
    var c := BucketIsCandidate(p, q, spacing, radius);
    assert NearbyKeys(p, spacing, res)[c] == KeyOfPosition(q, spacing, res);
  }

  /**
   * With a resolution of 1 along x, the origin's bucket and its x neighbour
   * wrap to the same key, so `forEachNearbyPoint` scans that bucket twice.
   */
  lemma RepeatedKeyAtResolutionOne(p: Vector3, spacing: real, res: Resolution)
    requires spacing != 0.0 && PositiveResolution(res) && res.x == 1
    ensures NearbyKeys(p, spacing, res)[0] == NearbyKeys(p, spacing, res)[4]
  {
    var o := BucketIndex(p, spacing);
    var b := NearbyBucketsOf(p, spacing);
    assert b[4] == Point3I(o.x + Step(UpperHalf(o.x, p.x, spacing)), o.y, o.z);
    HashKeyEqualIff(b[0], b[4], res);
  }

  /**
   * A radius above half the spacing can miss a stored point: with spacing 1
   * and resolution 10 on each axis, `(2.1, 0.1, 0.1)` is within 2 of
   * `(0.1, 0.1, 0.1)`, but its key is none of the eight candidates.
   */
  lemma LargeRadiusMissesPoint()
    ensures Within(Vector3(2.1, 0.1, 0.1), Vector3(0.1, 0.1, 0.1), 2.0)
    ensures KeyOfPosition(Vector3(2.1, 0.1, 0.1), 1.0, Resolution(10, 10, 10))
            !in NearbyKeys(Vector3(0.1, 0.1, 0.1), 1.0, Resolution(10, 10, 10))
  {
    var res := Resolution(10, 10, 10);
    var p, q := Vector3(0.1, 0.1, 0.1), Vector3(2.1, 0.1, 0.1);
    assert BucketIndex(p, 1.0) == Point3I(0, 0, 0);
    assert BucketIndex(q, 1.0) == Point3I(2, 0, 0);
    var keys := NearbyKeys(p, 1.0, res);
    var b := NearbyBucketsOf(p, 1.0);
    assert b == NearbyBuckets(Point3I(0, 0, 0), false, false, false);
    forall c | 0 <= c < 8
      ensures keys[c] != 2
    {
      assert b[c].x in {0, -1} && b[c].y in {0, -1} && b[c].z in {0, -1};
      HashKeyEqualIff(b[c], Point3I(2, 0, 0), res);
    }
    assert KeyOfPosition(q, 1.0, res) == 2 by {
      assert HashKey(Point3I(2, 0, 0), res) == 2;
    }
  }

  // ---------------------------------------------------------------- build helpers

  /** The identity permutation `0, 1, ..., n - 1`. */
  function Iota(n: nat): (r: seq<nat>)
    ensures |r| == n && forall i :: 0 <= i < n ==> r[i] == i
  {
    seq(n, i requires 0 <= i => i)
  }

  /** `s` holds each of `0..n-1` exactly once. */
  ghost predicate IsPermutation(s: seq<nat>, n: nat)
  {
    |s| == n && multiset(s) == multiset(Iota(n))
  }

  lemma PermutationBounds(s: seq<nat>, n: nat)
    requires IsPermutation(s, n)
    ensures forall i :: 0 <= i < |s| ==> s[i] < n
  {
    forall i | 0 <= i < |s|
      ensures s[i] < n
    {
      assert s[i] in multiset(s);
      assert s[i] in multiset(Iota(n));
    }
  }

  predicate Sorted(s: seq<nat>)
  {
    forall p, q :: 0 <= p <= q < |s| ==> s[p] <= s[q]
  }

  /** Every key of a sorted sequence `keys` of keys lies in `[start[b], end[b])` exactly when it is `b`. */
  ghost predicate TablesIndex(keys: seq<nat>, start: seq<nat>, end: seq<nat>)
  {
    && |start| == |end|
    && forall b :: 0 <= b < |start| ==>
         && (start[b] == kMaxSize <==> end[b] == kMaxSize)
         && (start[b] == kMaxSize ==> forall t :: 0 <= t < |keys| ==> keys[t] != b)
         && (start[b] != kMaxSize ==>
               && start[b] < end[b] <= |keys|
               && forall t :: 0 <= t < |keys| ==> (start[b] <= t < end[b] <==> keys[t] == b))
  }

  /** Position `t` holds the first key of its run: the `_keys[i] > _keys[i - 1]` test of `build`. */
  predicate StartsRun(keys: seq<nat>, t: nat)
    requires t < |keys|
  {
    t == 0 || keys[t - 1] < keys[t]
  }

  /**
   * What the fill loop of `build` leaves in the tables: a start entry marks
   * the first position of its key, an end entry one past the last.
   */
  ghost predicate Boundaries(keys: seq<nat>, start: seq<nat>, end: seq<nat>)
    requires |keys| >= 1
  {
    var n := |keys|;
    && |start| == |end|
    && (forall b :: 0 <= b < |start| ==>
          start[b] == kMaxSize || (start[b] < n && keys[start[b]] == b && (start[b] == 0 || keys[start[b] - 1] < b)))
    && (forall t :: 0 <= t < n && StartsRun(keys, t) ==> keys[t] < |start| && start[keys[t]] == t)
    && (forall b :: 0 <= b < |end| ==>
          end[b] == kMaxSize || (0 < end[b] <= n && keys[end[b] - 1] == b && (end[b] == n || b < keys[end[b]])))
    && (forall t :: 0 < t < n && StartsRun(keys, t) ==> keys[t - 1] < |end| && end[keys[t - 1]] == t)
    && keys[n - 1] < |end| && end[keys[n - 1]] == n
  }

  lemma FirstOccurrence(keys: seq<nat>, t: nat) returns (f: nat)
    requires t < |keys|
    ensures f <= t && keys[f] == keys[t] && (f == 0 || keys[f - 1] != keys[f])
  {
    if t == 0 || keys[t - 1] != keys[t] {
      f := t;
    } else {
      f := FirstOccurrence(keys, t - 1);
    }
  }

  lemma LastOccurrence(keys: seq<nat>, t: nat) returns (l: nat)
    requires t < |keys|
    ensures t <= l < |keys| && keys[l] == keys[t] && (l == |keys| - 1 || keys[l + 1] != keys[l])
    decreases |keys| - t
  {
    if t == |keys| - 1 || keys[t + 1] != keys[t] {
      l := t;
    } else {
      l := LastOccurrence(keys, t + 1);
    }
  }

  lemma SortedPair(keys: seq<nat>, p: nat, q: nat)
    requires Sorted(keys) && p <= q < |keys|
    ensures keys[p] <= keys[q]
  {
  }

  /** The first position of a run is recorded in the start table. */
  lemma RunStartMarked(keys: seq<nat>, start: seq<nat>, end: seq<nat>, f: nat)
    requires 1 <= |keys| && Boundaries(keys, start, end) && f < |keys| && StartsRun(keys, f)
    ensures keys[f] < |start| && start[keys[f]] == f
  {
  }

  /** The position after the last of a run is recorded in the end table. */
  lemma RunEndMarked(keys: seq<nat>, start: seq<nat>, end: seq<nat>, l: nat)
    requires 1 <= |keys| && Boundaries(keys, start, end) && l < |keys|
    requires l == |keys| - 1 || keys[l] < keys[l + 1]
    ensures keys[l] < |end| && end[keys[l]] == l + 1
  {
    if l + 1 < |keys| {
      assert StartsRun(keys, l + 1);
    }
  }

  /** A key that occurs has both table entries set. */
  lemma OccurringKeyIsMarked(keys: seq<nat>, start: seq<nat>, end: seq<nat>, t: nat)
    requires 1 <= |keys| < kMaxSize && Sorted(keys) && Boundaries(keys, start, end) && t < |keys|
    ensures keys[t] < |start| && start[keys[t]] != kMaxSize && end[keys[t]] != kMaxSize
  {
    var f := FirstOccurrence(keys, t);
    if f > 0 {
      SortedPair(keys, f - 1, f);
    }
    RunStartMarked(keys, start, end, f);
    var l := LastOccurrence(keys, t);
    if l + 1 < |keys| {
      SortedPair(keys, l, l + 1);
    }
    RunEndMarked(keys, start, end, l);
  }

  /** The boundary marks of a sorted key sequence index every bucket exactly. */
  lemma BoundariesIndex(keys: seq<nat>, start: seq<nat>, end: seq<nat>)
    requires 1 <= |keys| < kMaxSize && Sorted(keys) && Boundaries(keys, start, end)
    ensures TablesIndex(keys, start, end)
  {
    forall t | 0 <= t < |keys|
      ensures keys[t] < |start| && start[keys[t]] != kMaxSize && end[keys[t]] != kMaxSize
    {
      OccurringKeyIsMarked(keys, start, end, t);
    }
  }

  /** `end[b] - start[b]` is the number of points whose key is `b`. */
  lemma BucketSizeIsCount(keys: seq<nat>, start: seq<nat>, end: seq<nat>, b: nat)
    requires TablesIndex(keys, start, end) && b < |start|
    ensures start[b] == kMaxSize ==> multiset(keys)[b] == 0
    ensures start[b] != kMaxSize ==> multiset(keys)[b] == end[b] - start[b]
  {
    if start[b] == kMaxSize {
      assert b !in keys;
    } else {
      var s, e := start[b], end[b];
      assert keys == keys[..s] + keys[s..e] + keys[e..];
      CountOutside(keys[..s], b);
      CountOutside(keys[e..], b);
      CountInside(keys[s..e], b);
    }
  }

  lemma {:induction false} CountOutside(s: seq<nat>, b: nat)
    requires forall t :: 0 <= t < |s| ==> s[t] != b
    ensures multiset(s)[b] == 0
  {
    assert b !in s;
  }

  lemma {:induction false} CountInside(s: seq<nat>, b: nat)
    requires forall t :: 0 <= t < |s| ==> s[t] == b
    ensures multiset(s)[b] == |s|
  {
    if s != [] {
      CountInside(s[1..], b);
      assert s == [s[0]] + s[1..];
    }
  }

  /** `tempKeys[i] = getHashKeyFromPosition(points[i])` and `_sortedIndices[i] = i`. */
  method ComputeKeys(input: seq<Vector3>, spacing: real, res: Resolution) returns (tempKeys: seq<nat>, order: seq<nat>)
    requires spacing != 0.0 && PositiveResolution(res)
    ensures |tempKeys| == |input| && order == Iota(|input|)
    ensures forall i :: 0 <= i < |input| ==> tempKeys[i] == KeyOfPosition(input[i], spacing, res)
  {
    tempKeys, order := [], [];
    var i := 0;
    while i < |input|
      invariant 0 <= i <= |input| && |tempKeys| == i && order == Iota(i)
      invariant forall p :: 0 <= p < i ==> tempKeys[p] == KeyOfPosition(input[p], spacing, res)
    {
      tempKeys := tempKeys + [KeyOfPosition(input[i], spacing, res)];
      order := order + [i];
      i := i + 1;
    }
  }

  /** Every index in `s` selects a key of `k`. */
  ghost predicate IndexesKeys(s: seq<nat>, k: seq<nat>)
  {
    forall p :: 0 <= p < |s| ==> s[p] < |k|
  }

  /** The indices `s[..n]` are in key order. */
  ghost predicate KeySortedPrefix(s: seq<nat>, k: seq<nat>, n: nat)
    requires n <= |s| && IndexesKeys(s, k)
  {
    forall p, q :: 0 <= p <= q < n ==> k[s[p]] <= k[s[q]]
  }

  /** Inserting `s[i]` into the sorted prefix, with the moving index now at `j`. */
  ghost predicate Inserting(s: seq<nat>, k: seq<nat>, i: nat, j: nat)
    requires j <= i < |s| && IndexesKeys(s, k)
  {
    && (forall p, q :: 0 <= p <= q <= i && p != j && q != j ==> k[s[p]] <= k[s[q]])
    && (forall q :: j < q <= i ==> k[s[j]] <= k[s[q]])
  }

  lemma InsertingStart(s: seq<nat>, k: seq<nat>, i: nat)
    requires i < |s| && IndexesKeys(s, k) && KeySortedPrefix(s, k, i)
    ensures Inserting(s, k, i, i)
  {
  }

  /** One swap of the moving index with its smaller-keyed left neighbour. */
  lemma InsertingSwap(s: seq<nat>, k: seq<nat>, i: nat, j: nat)
    requires 0 < j <= i < |s| && IndexesKeys(s, k) && Inserting(s, k, i, j)
    requires k[s[j - 1]] > k[s[j]]
    ensures var t := s[j - 1 := s[j]][j := s[j - 1]];
            && IndexesKeys(t, k) && Inserting(t, k, i, j - 1) && multiset(t) == multiset(s)
  {
    var t := s[j - 1 := s[j]][j := s[j - 1]];
    assert t == s[..j - 1] + [s[j], s[j - 1]] + s[j + 1..];
    assert s == s[..j - 1] + [s[j - 1], s[j]] + s[j + 1..];
  }

  lemma InsertingDone(s: seq<nat>, k: seq<nat>, i: nat, j: nat)
    requires j <= i < |s| && IndexesKeys(s, k) && Inserting(s, k, i, j)
    requires j == 0 || k[s[j - 1]] <= k[s[j]]
    ensures KeySortedPrefix(s, k, i + 1)
  {
  }

  /**
   * The sort of `_sortedIndices` by key. The source's parallel sort leaves the
   * order of equal keys unspecified; this insertion sort is one such order.
   */
  method SortByKey(order: seq<nat>, tempKeys: seq<nat>) returns (s: seq<nat>)
    requires forall i :: 0 <= i < |order| ==> order[i] < |tempKeys|
    ensures multiset(s) == multiset(order) && |s| == |order|
    ensures forall i :: 0 <= i < |s| ==> s[i] < |tempKeys|
    ensures forall p, q :: 0 <= p <= q < |s| ==> tempKeys[s[p]] <= tempKeys[s[q]]
  {
    s := order;
    if |s| == 0 {
      return;
    }
    assert IndexesKeys(s, tempKeys);
    var i := 1;
    while i < |s|
      invariant 1 <= i <= |s| && |s| == |order| && multiset(s) == multiset(order)
      invariant IndexesKeys(s, tempKeys) && KeySortedPrefix(s, tempKeys, i)
    {
      InsertingStart(s, tempKeys, i);
      var j := i;
      while j > 0 && tempKeys[s[j - 1]] > tempKeys[s[j]]
        invariant 0 <= j <= i && |s| == |order| && multiset(s) == multiset(order)
        invariant IndexesKeys(s, tempKeys) && Inserting(s, tempKeys, i, j)
      {
        InsertingSwap(s, tempKeys, i, j);
        s := s[j - 1 := s[j]][j := s[j - 1]];
        j := j - 1;
      }
      InsertingDone(s, tempKeys, i, j);
      i := i + 1;
    }
  }

  /** The reorder step: `_points[i] = points[_sortedIndices[i]]`, `_keys[i] = tempKeys[_sortedIndices[i]]`. */
  method Reorder(input: seq<Vector3>, tempKeys: seq<nat>, order: seq<nat>) returns (pts: seq<Vector3>, ks: seq<nat>)
    requires |tempKeys| == |input|
    requires forall i :: 0 <= i < |order| ==> order[i] < |input|
    ensures |pts| == |order| && |ks| == |order|
    ensures forall i :: 0 <= i < |order| ==> pts[i] == input[order[i]] && ks[i] == tempKeys[order[i]]
  {
    pts, ks := [], [];
    var i := 0;
    while i < |order|
      invariant 0 <= i <= |order| && |pts| == i && |ks| == i
      invariant forall p :: 0 <= p < i ==> pts[p] == input[order[p]] && ks[p] == tempKeys[order[p]]
    {
      pts := pts + [input[order[i]]];
      ks := ks + [tempKeys[order[i]]];
      i := i + 1;
    }
  }

  /** The start table after the fill loop of `build` has looked at positions `1..i-1`. */
  ghost predicate StartState(keys: seq<nat>, start: seq<nat>, size: nat, i: nat)
    requires 1 <= i <= |keys|
  {
    && |start| == size
    && (forall t :: 0 <= t < |keys| ==> keys[t] < size)
    && (forall b :: 0 <= b < size ==>
          start[b] == kMaxSize || (start[b] < i && keys[start[b]] == b && (start[b] == 0 || keys[start[b] - 1] < b)))
    && (forall t :: 0 <= t < i && StartsRun(keys, t) ==> start[keys[t]] == t)
  }

  /** The end table after the fill loop of `build` has looked at positions `1..i-1`. */
  ghost predicate EndState(keys: seq<nat>, end: seq<nat>, size: nat, i: nat)
    requires 1 <= i <= |keys|
  {
    var n := |keys|;
    && |end| == size
    && (forall t :: 0 <= t < n ==> keys[t] < size)
    && (forall b :: 0 <= b < size ==>
          end[b] == kMaxSize || (0 < end[b] <= n && keys[end[b] - 1] == b && (end[b] == n || b < keys[end[b]])))
    && (forall t :: 0 < t < i && StartsRun(keys, t) ==> end[keys[t - 1]] == t)
    && end[keys[n - 1]] == n
  }

  lemma StartStep(keys: seq<nat>, start: seq<nat>, size: nat, i: nat)
    requires 1 <= i < |keys| && Sorted(keys) && StartState(keys, start, size, i)
    ensures StartsRun(keys, i) ==> StartState(keys, start[keys[i] := i], size, i + 1)
    ensures !StartsRun(keys, i) ==> StartState(keys, start, size, i + 1)
  {
    if StartsRun(keys, i) {
      StartStepAtRun(keys, start, size, i);
    }
  }

  lemma StartStepAtRun(keys: seq<nat>, start: seq<nat>, size: nat, i: nat)
    requires 1 <= i < |keys| && Sorted(keys) && StartState(keys, start, size, i) && StartsRun(keys, i)
    ensures StartState(keys, start[keys[i] := i], size, i + 1)
  {
    var start' := start[keys[i] := i];
    forall b | 0 <= b < size
      ensures start'[b] == kMaxSize || (start'[b] < i + 1 && keys[start'[b]] == b && (start'[b] == 0 || keys[start'[b] - 1] < b))
    {
    }
    forall t | 0 <= t < i + 1 && StartsRun(keys, t)
      ensures start'[keys[t]] == t
    {
      if t < i {
        assert keys[t] <= keys[i - 1];
      }
    }
  }

  lemma EndStep(keys: seq<nat>, end: seq<nat>, size: nat, i: nat)
    requires 1 <= i < |keys| && Sorted(keys) && EndState(keys, end, size, i)
    ensures StartsRun(keys, i) ==> EndState(keys, end[keys[i - 1] := i], size, i + 1)
    ensures !StartsRun(keys, i) ==> EndState(keys, end, size, i + 1)
  {
    var n := |keys|;
    if StartsRun(keys, i) {
      var end' := end[keys[i - 1] := i];
      forall t | 0 < t < i + 1 && StartsRun(keys, t)
        ensures end'[keys[t - 1]] == t
      {
        if t < i {
          assert keys[t] <= keys[i - 1];
        }
      }
      assert keys[i] <= keys[n - 1];
      assert end'[keys[n - 1]] == n;
    }
  }

  lemma FillInit(keys: seq<nat>, size: nat)
    requires 1 <= |keys| && Sorted(keys)
    requires forall t :: 0 <= t < |keys| ==> keys[t] < size
    ensures StartState(keys, seq(size, _ => kMaxSize)[keys[0] := 0], size, 1)
    ensures EndState(keys, seq(size, _ => kMaxSize)[keys[|keys| - 1] := |keys|], size, 1)
  {
    var n := |keys|;
    var end := seq(size, _ => kMaxSize)[keys[n - 1] := n];
    forall b | 0 <= b < size
      ensures end[b] == kMaxSize || (b == keys[n - 1] && end[b] == n)
    {
    }
  }

  /** The start/end fill of `build` over sorted, non-empty keys. */
  method FillTables(keys: seq<nat>, size: nat) returns (start: seq<nat>, end: seq<nat>)
    requires 1 <= |keys| < kMaxSize && Sorted(keys)
    requires forall t :: 0 <= t < |keys| ==> keys[t] < size
    ensures |start| == size && |end| == size
    ensures TablesIndex(keys, start, end)
  {
    var n := |keys|;
    start := seq(size, _ => kMaxSize);
    end := seq(size, _ => kMaxSize);
    start := start[keys[0] := 0];
    end := end[keys[n - 1] := n];
    FillInit(keys, size);
    var i := 1;
    while i < n
      invariant 1 <= i <= n && StartState(keys, start, size, i) && EndState(keys, end, size, i)
    {
      StartStep(keys, start, size, i);
      EndStep(keys, end, size, i);
      if keys[i] > keys[i - 1] {
        start := start[keys[i] := i];
        end := end[keys[i - 1] := i];
      }
      i := i + 1;
    }
    BoundariesIndex(keys, start, end);
  }

  // ---------------------------------------------------------------- the searcher

  /** The pair a neighbour callback receives: the point's original index and the point. */
  datatype Neighbour = Neighbour(index: nat, point: Vector3)

  /** The inclusive radius test of the queries: `|p - origin|^2 <= radius^2`. */
  predicate Within(p: Vector3, origin: Vector3, radius: real)
  {
    LengthSquared(Sub(p, origin)) <= radius * radius
  }

  /**
   * The body of `build` for a non-empty input: keys, the sorted permutation,
   * the reordered points and keys, and the filled bucket tables.
   */
  method BuildIndex(input: seq<Vector3>, spacing: real, res: Resolution)
    returns (pts: seq<Vector3>, ks: seq<nat>, sorted: seq<nat>, start: seq<nat>, end: seq<nat>)
    requires spacing != 0.0 && PositiveResolution(res) && 1 <= |input| < kMaxSize
    ensures |pts| == |input| && |ks| == |input| && IsPermutation(sorted, |input|)
    ensures forall i :: 0 <= i < |input| ==>
              sorted[i] < |input| && pts[i] == input[sorted[i]] && ks[i] == KeyOfPosition(input[sorted[i]], spacing, res)
    ensures Sorted(ks) && forall t :: 0 <= t < |ks| ==> ks[t] < TableSize(res)
    ensures |start| == TableSize(res) && TablesIndex(ks, start, end)
    ensures IndexValid(res, pts, ks, sorted, start, end)
  {
    var n := |input|;
    var tempKeys, order := ComputeKeys(input, spacing, res);
    sorted := SortByKey(order, tempKeys);
    pts, ks := Reorder(input, tempKeys, sorted);
    forall p, q | 0 <= p <= q < n
      ensures ks[p] <= ks[q]
    {
    }
    start, end := FillTables(ks, TableSize(res));
  }

  /** Each marked bucket is a range of stored positions, and the arrays a scan reads are parallel. */
  ghost predicate ScanRanges(pts: seq<Vector3>, sorted: seq<nat>, start: seq<nat>, end: seq<nat>)
  {
    && |pts| == |sorted| && |start| == |end|
    && forall b :: 0 <= b < |start| && start[b] != kMaxSize ==> start[b] <= end[b] <= |pts|
  }

  /**
   * The searcher's invariant over its stored values: points and keys are
   * parallel, the order is a permutation, keys are sorted and in the table,
   * and the tables index every bucket.
   */
  ghost predicate IndexValid(res: Resolution, pts: seq<Vector3>, ks: seq<nat>, sorted: seq<nat>, start: seq<nat>, end: seq<nat>)
  {
    && PositiveResolution(res)
    && |start| == TableSize(res)
    && |pts| == |ks| && IsPermutation(sorted, |ks|)
    && (forall t :: 0 <= t < |ks| ==> ks[t] < TableSize(res))
    && Sorted(ks)
    && TablesIndex(ks, start, end)
    && ScanRanges(pts, sorted, start, end)
  }

  /** An empty searcher with every bucket marked `kMaxSize` is valid. */
  lemma EmptyIndexValid(res: Resolution)
    requires PositiveResolution(res)
    ensures IndexValid(res, [], [], [], seq(TableSize(res), _ => kMaxSize), seq(TableSize(res), _ => kMaxSize))
  {
    assert IsPermutation([], 0) by { assert Iota(0) == []; }
  }

  lemma PrefixExtends<T>(a: seq<T>, b: seq<T>, c: seq<T>)
    requires a <= b
    ensures a <= b + c
  {
    assert (b + c)[..|a|] == b[..|a|];
  }

  class PointParallelHashGridSearcher3 {
    var gridSpacing: real
    var resolution: Resolution
    var points: seq<Vector3>
    var keys: seq<nat>
    var startIndexTable: seq<nat>
    var endIndexTable: seq<nat>
    var sortedIndices: seq<nat>

    /**
     * The stored points are sorted by key, the permutation is one, and the
     * tables index every bucket.
     */
    ghost predicate Valid()
      reads this
    {
      IndexValid(resolution, points, keys, sortedIndices, startIndexTable, endIndexTable)
    }

    /** Every stored key is the hash of its stored point, as `build` leaves them. */
    ghost predicate Hashed()
      reads this
    {
      && gridSpacing != 0.0 && PositiveResolution(resolution) && |keys| == |points|
      && forall i :: 0 <= i < |points| ==> keys[i] == KeyOfPosition(points[i], gridSpacing, resolution)
    }

    /** What a scan of the tables needs: parallel arrays, and each marked bucket a range of stored positions. */
    ghost predicate Scannable()
      reads this
    {
      ScanRanges(points, sortedIndices, startIndexTable, endIndexTable)
    }

    /**
     * Each resolution axis is clamped to at least 1 after the signed cast, and
     * both tables hold `rx * ry * rz` entries, all `kMaxSize`.
     */
    constructor(resolutionX: nat, resolutionY: nat, resolutionZ: nat, spacing: real)
      requires resolutionX < kSizeRange && resolutionY < kSizeRange && resolutionZ < kSizeRange
      ensures Valid()
      ensures gridSpacing == spacing
      ensures resolution == Resolution(ClampAxis(resolutionX), ClampAxis(resolutionY), ClampAxis(resolutionZ))
      ensures startIndexTable == seq(TableSize(resolution), _ => kMaxSize)
      ensures endIndexTable == seq(TableSize(resolution), _ => kMaxSize)
      ensures points == [] && keys == [] && sortedIndices == []
    {
      gridSpacing := spacing;
      resolution := Resolution(ClampAxis(resolutionX), ClampAxis(resolutionY), ClampAxis(resolutionZ));
      var size := TableSize(Resolution(ClampAxis(resolutionX), ClampAxis(resolutionY), ClampAxis(resolutionZ)));
      startIndexTable := seq(size, _ => kMaxSize);
      endIndexTable := seq(size, _ => kMaxSize);
      points, keys, sortedIndices := [], [], [];
    }

    /**
     * `build`: hash every point, sort a permutation by key, reorder points and
     * keys by it and fill the bucket tables.
     */
    method Build(input: seq<Vector3>)
      requires Valid() && gridSpacing != 0.0 && |input| < kMaxSize
      modifies this
      ensures Valid() && Hashed()
      ensures gridSpacing == old(gridSpacing) && resolution == old(resolution)
      ensures |points| == |input| && IsPermutation(sortedIndices, |input|)
      ensures forall i :: 0 <= i < |input| ==>
                sortedIndices[i] < |input| &&
                points[i] == input[sortedIndices[i]] &&
                keys[i] == KeyOfPosition(input[sortedIndices[i]], gridSpacing, resolution)
      ensures |input| == 0 ==> startIndexTable == endIndexTable == seq(TableSize(resolution), _ => kMaxSize)
    {
      var n := |input|;
      var size := TableSize(resolution);
      startIndexTable := seq(size, _ => kMaxSize);
      endIndexTable := seq(size, _ => kMaxSize);
      if n == 0 {
        points, keys, sortedIndices := [], [], [];
        EmptyIndexValid(resolution);
        return;
      }
      var pts, ks, sorted, start, end := BuildIndex(input, gridSpacing, resolution);
      points, keys, sortedIndices := pts, ks, sorted;
      startIndexTable, endIndexTable := start, end;
    }

    /** `set`: every field is copied from `other`. */
    method Set(other: PointParallelHashGridSearcher3)
      requires other.Valid()
      modifies this
      ensures Valid()
      ensures gridSpacing == old(other.gridSpacing) && resolution == old(other.resolution)
      ensures points == old(other.points) && keys == old(other.keys) && sortedIndices == old(other.sortedIndices)
      ensures startIndexTable == old(other.startIndexTable) && endIndexTable == old(other.endIndexTable)
    {
      gridSpacing, resolution := other.gridSpacing, other.resolution;
      points, keys, sortedIndices := other.points, other.keys, other.sortedIndices;
      startIndexTable, endIndexTable := other.startIndexTable, other.endIndexTable;
    }

    /** The callbacks the scan of stored positions `lo..hi-1` fires, in order. */
    ghost function RangeMatches(lo: nat, hi: nat, origin: Vector3, radius: real): seq<Neighbour>
      reads this
      requires Scannable() && lo <= hi <= |points|
      decreases hi - lo
    {
      if hi == lo then []
      else RangeMatches(lo, hi - 1, origin, radius)
           + (if Within(points[hi - 1], origin, radius) then [Neighbour(sortedIndices[hi - 1], points[hi - 1])] else [])
    }

    /** The callbacks of one bucket: none when it is marked `kMaxSize`. */
    ghost function BucketMatches(key: nat, origin: Vector3, radius: real): seq<Neighbour>
      reads this
      requires Scannable() && key < |startIndexTable|
    {
      if startIndexTable[key] == kMaxSize then []
      else RangeMatches(startIndexTable[key], endIndexTable[key], origin, radius)
    }

    /** The callbacks of the first `c` candidate buckets. */
    ghost function MatchesInBuckets(nearby: seq<nat>, c: nat, origin: Vector3, radius: real): seq<Neighbour>
      reads this
      requires Scannable() && c <= |nearby|
      requires forall k :: 0 <= k < |nearby| ==> nearby[k] < |startIndexTable|
    {
      if c == 0 then []
      else MatchesInBuckets(nearby, c - 1, origin, radius) + BucketMatches(nearby[c - 1], origin, radius)
    }

    /** Every callback `forEachNearbyPoint(origin, radius, ...)` fires, in order. */
    ghost function NearbyMatches(origin: Vector3, radius: real): seq<Neighbour>
      reads this
      requires Valid() && gridSpacing != 0.0
    {
      MatchesInBuckets(NearbyKeys(origin, gridSpacing, resolution), 8, origin, radius)
    }

    /**
     * `forEachNearbyPoint`, with the callback's invocations returned as a
     * sequence: the stored points of the eight candidate buckets that pass the
     * inclusive radius test, each with its original index.
     */
    method ForEachNearbyPoint(origin: Vector3, radius: real) returns (fired: seq<Neighbour>)
      requires Valid() && gridSpacing != 0.0
      ensures fired == NearbyMatches(origin, radius)
    {
      var nearby := NearbyKeys(origin, gridSpacing, resolution);
      fired := [];
      var c := 0;
      while c < 8
        invariant 0 <= c <= 8
        invariant fired == MatchesInBuckets(nearby, c, origin, radius)
      {
        var key := nearby[c];
        var start, end := startIndexTable[key], endIndexTable[key];
        if start != kMaxSize {
          var hits := ScanRange(start, end, origin, radius);
          fired := fired + hits;
        }
        c := c + 1;
      }
    }

    /** The inner loop of `forEachNearbyPoint` over stored positions `start..end-1`. */
    method ScanRange(start: nat, end: nat, origin: Vector3, radius: real) returns (hits: seq<Neighbour>)
      requires Valid() && start <= end <= |points|
      ensures hits == RangeMatches(start, end, origin, radius)
    {
      var queryRadiusSquared := radius * radius;
      hits := [];
      var j := start;
      while j < end
        invariant start <= j <= end
        invariant hits == RangeMatches(start, j, origin, radius)
      {
        var direction := Sub(points[j], origin);
        if LengthSquared(direction) <= queryRadiusSquared {
          hits := hits + [Neighbour(sortedIndices[j], points[j])];
        }
        j := j + 1;
      }
    }

    /** The inner loop of `hasNearbyPoint`: stops at the first position that passes the radius test. */
    method AnyInRange(start: nat, end: nat, origin: Vector3, radius: real) returns (found: bool)
      requires Valid() && start <= end <= |points|
      ensures found <==> RangeMatches(start, end, origin, radius) != []
    {
      var queryRadiusSquared := radius * radius;
      var j := start;
      while j < end
        invariant start <= j <= end
        invariant RangeMatches(start, j, origin, radius) == []
      {
        var direction := Sub(points[j], origin);
        if LengthSquared(direction) <= queryRadiusSquared {
          RangeMatchesPrefix(start, j + 1, end, origin, radius);
          return true;
        }
        j := j + 1;
      }
      return false;
    }

    /** `hasNearbyPoint`: true exactly when `forEachNearbyPoint` would fire at least once. */
    method HasNearbyPoint(origin: Vector3, radius: real) returns (found: bool)
      requires Valid() && gridSpacing != 0.0
      ensures found <==> NearbyMatches(origin, radius) != []
    {
      var nearby := NearbyKeys(origin, gridSpacing, resolution);
      var c := 0;
      while c < 8
        invariant 0 <= c <= 8
        invariant MatchesInBuckets(nearby, c, origin, radius) == []
      {
        var key := nearby[c];
        var start, end := startIndexTable[key], endIndexTable[key];
        if start != kMaxSize {
          var any := AnyInRange(start, end, origin, radius);
          if any {
            MatchesInBucketsPrefix(nearby, c + 1, 8, origin, radius);
            return true;
          }
        }
        c := c + 1;
      }
      return false;
    }

    lemma {:induction false} RangeMatchesPrefix(lo: nat, mid: nat, hi: nat, origin: Vector3, radius: real)
      requires Scannable() && lo <= mid <= hi <= |points|
      ensures RangeMatches(lo, mid, origin, radius) <= RangeMatches(lo, hi, origin, radius)
      decreases hi - mid
    {
      if mid < hi {
        RangeMatchesPrefix(lo, mid, hi - 1, origin, radius);
      }
    }

    lemma {:induction false} MatchesInBucketsPrefix(nearby: seq<nat>, c: nat, c': nat, origin: Vector3, radius: real)
      requires Scannable() && c <= c' <= |nearby|
      requires forall k :: 0 <= k < |nearby| ==> nearby[k] < |startIndexTable|
      ensures MatchesInBuckets(nearby, c, origin, radius) <= MatchesInBuckets(nearby, c', origin, radius)
      decreases c' - c
    {
      if c < c' {
        MatchesInBucketsPrefix(nearby, c, c' - 1, origin, radius);
        var before, bucket := MatchesInBuckets(nearby, c' - 1, origin, radius), BucketMatches(nearby[c' - 1], origin, radius);
        assert MatchesInBuckets(nearby, c', origin, radius) == before + bucket;
        PrefixExtends(MatchesInBuckets(nearby, c, origin, radius), before, bucket);
      }
    }

    /** A range scan fires for exactly the stored positions in the range that pass the radius test. */
    lemma {:induction false} RangeMatchesExactly(lo: nat, hi: nat, origin: Vector3, radius: real, e: Neighbour)
      requires Valid() && lo <= hi <= |points|
      ensures e in RangeMatches(lo, hi, origin, radius) <==>
              exists j :: lo <= j < hi && Within(points[j], origin, radius) && e == Neighbour(sortedIndices[j], points[j])
      decreases hi - lo
    {
      if lo < hi {
        RangeMatchesExactly(lo, hi - 1, origin, radius, e);
      }
    }

    /** A bucket fires for exactly its stored points that pass the radius test. */
    lemma BucketMatchesExactly(key: nat, origin: Vector3, radius: real, e: Neighbour)
      requires Valid() && key < |startIndexTable|
      ensures e in BucketMatches(key, origin, radius) <==>
              exists j :: 0 <= j < |points| && keys[j] == key && Within(points[j], origin, radius)
                       && e == Neighbour(sortedIndices[j], points[j])
    {
      if startIndexTable[key] != kMaxSize {
        RangeMatchesExactly(startIndexTable[key], endIndexTable[key], origin, radius, e);
      }
    }

    /** Every callback from the first `c` buckets is a stored point with one of their keys that passes the test. */
    lemma {:induction false} MatchesInBucketsSound(nearby: seq<nat>, c: nat, origin: Vector3, radius: real, e: Neighbour)
      requires Valid() && c <= |nearby|
      requires forall k :: 0 <= k < |nearby| ==> nearby[k] < |startIndexTable|
      requires e in MatchesInBuckets(nearby, c, origin, radius)
      ensures exists j :: 0 <= j < |points| && keys[j] in nearby[..c] && Within(points[j], origin, radius)
                       && e == Neighbour(sortedIndices[j], points[j])
    {
      var key := nearby[c - 1];
      assert MatchesInBuckets(nearby, c, origin, radius) == MatchesInBuckets(nearby, c - 1, origin, radius) + BucketMatches(key, origin, radius);
      if e in MatchesInBuckets(nearby, c - 1, origin, radius) {
        MatchesInBucketsSound(nearby, c - 1, origin, radius, e);
        var j :| 0 <= j < |points| && keys[j] in nearby[..c - 1] && Within(points[j], origin, radius)
                 && e == Neighbour(sortedIndices[j], points[j]);
        assert keys[j] in nearby[..c];
      } else {
        BucketMatchesExactly(key, origin, radius, e);
        var j :| 0 <= j < |points| && keys[j] == key && Within(points[j], origin, radius) && e == Neighbour(sortedIndices[j], points[j]);
        assert keys[j] in nearby[..c];
      }
    }

    /** Every stored point with one of the first `c` keys that passes the test is a callback of those buckets. */
    lemma {:induction false} MatchesInBucketsComplete(nearby: seq<nat>, c: nat, origin: Vector3, radius: real, j: nat)
      requires Valid() && c <= |nearby|
      requires forall k :: 0 <= k < |nearby| ==> nearby[k] < |startIndexTable|
      requires j < |points| && keys[j] in nearby[..c] && Within(points[j], origin, radius)
      ensures Neighbour(sortedIndices[j], points[j]) in MatchesInBuckets(nearby, c, origin, radius)
    {
      var e, key := Neighbour(sortedIndices[j], points[j]), nearby[c - 1];
      assert nearby[..c] == nearby[..c - 1] + [key];
      assert MatchesInBuckets(nearby, c, origin, radius) == MatchesInBuckets(nearby, c - 1, origin, radius) + BucketMatches(key, origin, radius);
      if keys[j] in nearby[..c - 1] {
        MatchesInBucketsComplete(nearby, c - 1, origin, radius, j);
      } else {
        BucketMatchesExactly(key, origin, radius, e);
      }
    }

    /** The first `c` buckets fire for exactly the stored points with one of their keys that pass the test. */
    lemma MatchesInBucketsExactly(nearby: seq<nat>, c: nat, origin: Vector3, radius: real, e: Neighbour)
      requires Valid() && c <= |nearby|
      requires forall k :: 0 <= k < |nearby| ==> nearby[k] < |startIndexTable|
      ensures e in MatchesInBuckets(nearby, c, origin, radius) <==>
              exists j :: 0 <= j < |points| && keys[j] in nearby[..c] && Within(points[j], origin, radius)
                       && e == Neighbour(sortedIndices[j], points[j])
    {
      if e in MatchesInBuckets(nearby, c, origin, radius) {
        MatchesInBucketsSound(nearby, c, origin, radius, e);
      }
      if exists j :: 0 <= j < |points| && keys[j] in nearby[..c] && Within(points[j], origin, radius)
                     && e == Neighbour(sortedIndices[j], points[j]) {
        var j :| 0 <= j < |points| && keys[j] in nearby[..c] && Within(points[j], origin, radius)
                 && e == Neighbour(sortedIndices[j], points[j]);
        MatchesInBucketsComplete(nearby, c, origin, radius, j);
      }
    }

    /**
     * The callbacks of a query are exactly the stored points whose key is one
     * of the eight candidate keys and that pass the inclusive radius test,
     * each reported with its original index.
     */
    lemma NearbyMatchesExactly(origin: Vector3, radius: real, e: Neighbour)
      requires Valid() && gridSpacing != 0.0
      ensures e in NearbyMatches(origin, radius) <==>
              exists j :: 0 <= j < |points| && keys[j] in NearbyKeys(origin, gridSpacing, resolution)
                       && Within(points[j], origin, radius) && e == Neighbour(sortedIndices[j], points[j])
    {
      var nearby := NearbyKeys(origin, gridSpacing, resolution);
      MatchesInBucketsExactly(nearby, 8, origin, radius, e);
      assert nearby[..8] == nearby;
    }

    /**
     * With a positive spacing and `radius <= gridSpacing / 2`, the query of a
     * built searcher reports exactly the stored points within the radius of
     * `origin`, each with its original index.
     */
    lemma NearbyMatchesWithinRadius(origin: Vector3, radius: real, e: Neighbour)
      requires Valid() && Hashed() && gridSpacing > 0.0
      requires 0.0 <= radius && 2.0 * radius <= gridSpacing
      ensures e in NearbyMatches(origin, radius) <==>
              exists j :: 0 <= j < |points| && Within(points[j], origin, radius) && e == Neighbour(sortedIndices[j], points[j])
    {
      NearbyMatchesExactly(origin, radius, e);
      if j :| 0 <= j < |points| && Within(points[j], origin, radius) && e == Neighbour(sortedIndices[j], points[j]) {
        NearbyKeysCover(origin, points[j], gridSpacing, resolution, radius);
      }
    }
  }
}
