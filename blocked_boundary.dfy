/**
 * The blocked boundary pass of the 2-D grid solver. Each cell of the grid is
 * marked as collider or fluid from the sign of the collider's signed distance;
 * then every face lying between a collider cell and a fluid cell takes the
 * collider's velocity there (x-velocity on u faces, y-velocity on v faces).
 *
 * Face arrays: `u` has (width + 1) x height faces, u face (a, b) lying
 * between cells (a - 1, b) and (a, b); `v` has width x (height + 1) faces,
 * v face (a, b) lying between cells (a, b - 1) and (a, b).
 */
module BlockedBoundary {

  /** A cell's marker: `kCollider` (0) or `kFluid` (1). */
  datatype Marker = Collider | Fluid

  /** The marker of a cell whose signed distance is `phi`, for the inside test `inside`. */
  function Classify(inside: real -> bool, phi: real): Marker
  {
    if inside(phi) then Collider else Fluid
  }

  /** `g` is a width x height grid indexed `g[i][j]`. */
  ghost predicate IsGrid<T>(g: seq<seq<T>>, w: nat, h: nat)
  {
    |g| == w && forall i :: 0 <= i < w ==> |g[i]| == h
  }

  /** u face (a, b) separates a collider cell from a fluid cell. */
  ghost predicate UInterface(m: seq<seq<Marker>>, w: nat, h: nat, a: nat, b: nat)
    requires IsGrid(m, w, h) && a <= w && b < h
  {
    0 < a < w && m[a - 1][b] != m[a][b]
  }

  /** v face (a, b) separates a collider cell from a fluid cell. */
  ghost predicate VInterface(m: seq<seq<Marker>>, w: nat, h: nat, a: nat, b: nat)
    requires IsGrid(m, w, h) && a < w && b <= h
  {
    0 < b < h && m[a][b - 1] != m[a][b]
  }

  /** The x index of the collider cell beside an interface u face. */
  function UOwner(m: seq<seq<Marker>>, w: nat, h: nat, a: nat, b: nat): (c: nat)
    requires IsGrid(m, w, h) && a <= w && b < h && UInterface(m, w, h, a, b)
    ensures c < w && m[c][b] == Collider && (c == a || c == a - 1)
  {
    if m[a][b] == Collider then a else a - 1
  }

  /** The y index of the collider cell beside an interface v face. */
  function VOwner(m: seq<seq<Marker>>, w: nat, h: nat, a: nat, b: nat): (c: nat)
    requires IsGrid(m, w, h) && a < w && b <= h && VInterface(m, w, h, a, b)
    ensures c < h && m[a][c] == Collider && (c == b || c == b - 1)
  {
    if m[a][b] == Collider then b else b - 1
  }

  /**
   * The u faces after the blocked pass: an interface face holds the collider's
   * x-velocity at its position, `uVel(a, b)`; every other face keeps `U`.
   */
  ghost function BlockedU(m: seq<seq<Marker>>, w: nat, h: nat, U: seq<seq<real>>, uVel: (nat, nat) -> real): (r: seq<seq<real>>)
    requires IsGrid(m, w, h) && IsGrid(U, w + 1, h)
    ensures IsGrid(r, w + 1, h)
    ensures forall a, b :: 0 <= a <= w && 0 <= b < h ==> r[a][b] == if UInterface(m, w, h, a, b) then uVel(a, b) else U[a][b]
  {
    seq(w + 1, a requires 0 <= a <= w =>
      seq(h, b requires 0 <= b < h => if UInterface(m, w, h, a, b) then uVel(a, b) else U[a][b]))
  }

  /**
   * The v faces after the blocked pass: an interface face holds the collider's
   * y-velocity at its position, `vVel(a, b)`; every other face keeps `V`.
   */
  ghost function BlockedV(m: seq<seq<Marker>>, w: nat, h: nat, V: seq<seq<real>>, vVel: (nat, nat) -> real): (r: seq<seq<real>>)
    requires IsGrid(m, w, h) && IsGrid(V, w, h + 1)
    ensures IsGrid(r, w, h + 1)
    ensures forall a, b :: 0 <= a < w && 0 <= b <= h ==> r[a][b] == if VInterface(m, w, h, a, b) then vVel(a, b) else V[a][b]
  {
    seq(w, a requires 0 <= a < w =>
      seq(h + 1, b requires 0 <= b <= h => if VInterface(m, w, h, a, b) then vVel(a, b) else V[a][b]))
  }

  /**
   * The pass in the terms of the cell loop: a collider cell (i, j) with a fluid
   * cell on its left sets its own u face, with a fluid cell on its right (and
   * `i < width - 1`) the next u face, and likewise below and above for v; no
   * other face changes, so the domain's outer faces never do.
   */
  lemma BlockedFaceRules(m: seq<seq<Marker>>, w: nat, h: nat, U: seq<seq<real>>, V: seq<seq<real>>,
                         uVel: (nat, nat) -> real, vVel: (nat, nat) -> real, i: nat, j: nat)
    requires IsGrid(m, w, h) && IsGrid(U, w + 1, h) && IsGrid(V, w, h + 1) && i < w && j < h
    ensures m[i][j] == Collider && i > 0 && m[i - 1][j] == Fluid ==> BlockedU(m, w, h, U, uVel)[i][j] == uVel(i, j)
    ensures m[i][j] == Collider && i + 1 < w && m[i + 1][j] == Fluid ==> BlockedU(m, w, h, U, uVel)[i + 1][j] == uVel(i + 1, j)
    ensures m[i][j] == Collider && j > 0 && m[i][j - 1] == Fluid ==> BlockedV(m, w, h, V, vVel)[i][j] == vVel(i, j)
    ensures m[i][j] == Collider && j + 1 < h && m[i][j + 1] == Fluid ==> BlockedV(m, w, h, V, vVel)[i][j + 1] == vVel(i, j + 1)
    ensures m[i][j] == Fluid && (i == 0 || m[i - 1][j] == Fluid) ==> BlockedU(m, w, h, U, uVel)[i][j] == U[i][j]
    ensures m[i][j] == Fluid && (j == 0 || m[i][j - 1] == Fluid) ==> BlockedV(m, w, h, V, vVel)[i][j] == V[i][j]
    ensures BlockedU(m, w, h, U, uVel)[0][j] == U[0][j] && BlockedU(m, w, h, U, uVel)[w][j] == U[w][j]
    ensures BlockedV(m, w, h, V, vVel)[i][0] == V[i][0] && BlockedV(m, w, h, V, vVel)[i][h] == V[i][h]
  {
  }

  /** All cells fluid: nothing is blocked. */
  ghost predicate NoCollider(m: seq<seq<Marker>>, w: nat, h: nat)
    requires IsGrid(m, w, h)
  {
    forall i, j :: 0 <= i < w && 0 <= j < h ==> m[i][j] == Fluid
  }

  /** With no collider cell the blocked pass changes no face. */
  lemma NoColliderKeepsFaces(m: seq<seq<Marker>>, w: nat, h: nat, U: seq<seq<real>>, V: seq<seq<real>>,
                             uVel: (nat, nat) -> real, vVel: (nat, nat) -> real)
    requires IsGrid(m, w, h) && IsGrid(U, w + 1, h) && IsGrid(V, w, h + 1) && NoCollider(m, w, h)
    ensures BlockedU(m, w, h, U, uVel) == U && BlockedV(m, w, h, V, vVel) == V
  {
    var U', V' := BlockedU(m, w, h, U, uVel), BlockedV(m, w, h, V, vVel);
    forall a | 0 <= a <= w
      ensures U'[a] == U[a]
    {
      forall b | 0 <= b < h
        ensures U'[a][b] == U[a][b]
      {
        if 0 < a < w {
          assert m[a - 1][b] == Fluid && m[a][b] == Fluid;
        }
      }
    }
    forall a | 0 <= a < w
      ensures V'[a] == V[a]
    {
      forall b | 0 <= b <= h
        ensures V'[a][b] == V[a][b]
      {
        if 0 < b < h {
          assert m[a][b - 1] == Fluid && m[a][b] == Fluid;
        }
      }
    }
  }

  /** The pass is idempotent: running it again on its own output changes nothing. */
  lemma BlockedIdempotent(m: seq<seq<Marker>>, w: nat, h: nat, U: seq<seq<real>>, V: seq<seq<real>>,
                          uVel: (nat, nat) -> real, vVel: (nat, nat) -> real)
    requires IsGrid(m, w, h) && IsGrid(U, w + 1, h) && IsGrid(V, w, h + 1)
    ensures BlockedU(m, w, h, BlockedU(m, w, h, U, uVel), uVel) == BlockedU(m, w, h, U, uVel)
    ensures BlockedV(m, w, h, BlockedV(m, w, h, V, vVel), vVel) == BlockedV(m, w, h, V, vVel)
  {
    var U1 := BlockedU(m, w, h, U, uVel);
    var U2 := BlockedU(m, w, h, U1, uVel);
    forall a | 0 <= a <= w
      ensures U2[a] == U1[a]
    {
      assert forall b :: 0 <= b < h ==> U2[a][b] == U1[a][b];
    }
    var V1 := BlockedV(m, w, h, V, vVel);
    var V2 := BlockedV(m, w, h, V1, vVel);
    forall a | 0 <= a < w
      ensures V2[a] == V1[a]
    {
      assert forall b :: 0 <= b <= h ==> V2[a][b] == V1[a][b];
    }
  }

  /** The values of a 2-D array, indexed `[i][j]`. */
  ghost function Contents(g: array2<real>): (r: seq<seq<real>>)
    reads g
    ensures IsGrid(r, g.Length0, g.Length1)
    ensures forall i, j :: 0 <= i < g.Length0 && 0 <= j < g.Length1 ==> r[i][j] == g[i, j]
  {
    seq(g.Length0, i requires 0 <= i < g.Length0 reads g =>
      seq(g.Length1, j requires 0 <= j < g.Length1 reads g => g[i, j]))
  }

  /** Cell (ci, cj) comes before cell (i, j) in the loop order (rows of j, then i). */
  predicate Before(ci: nat, cj: nat, i: nat, j: nat)
  {
    cj < j || (cj == j && ci < i)
  }

  class BlockedSolver {
    var width: nat
    var height: nat
    /** `_marker`, indexed `marker[i][j]`. */
    var marker: seq<seq<Marker>>

    ghost predicate Valid()
      reads this
    {
      IsGrid(marker, width, height)
    }

    constructor()
      ensures Valid() && width == 0 && height == 0
    {
      width, height, marker := 0, 0, [];
    }

    /**
     * `onColliderUpdated`: the marker takes the grid's size and each cell is
     * `kCollider` when its signed distance `sdf[i, j]` is inside the collider,
     * else `kFluid`. (The fractional parent's own update is not modelled.)
     */
    method OnColliderUpdated(sdf: array2<real>, inside: real -> bool)
      modifies this
      ensures Valid() && width == sdf.Length0 && height == sdf.Length1
      ensures forall i, j :: 0 <= i < width && 0 <= j < height ==> marker[i][j] == Classify(inside, sdf[i, j])
    {
      var w, h := sdf.Length0, sdf.Length1;
      var m: seq<seq<Marker>> := [];
      var i := 0;
      while i < w
        invariant 0 <= i <= w && IsGrid(m, i, h)
        invariant forall a, b :: 0 <= a < i && 0 <= b < h ==> m[a][b] == Classify(inside, sdf[a, b])
      {
        var column: seq<Marker> := [];
        var j := 0;
        while j < h
          invariant 0 <= j <= h && |column| == j
          invariant forall b :: 0 <= b < j ==> column[b] == Classify(inside, sdf[i, b])
        {
          column := column + [if inside(sdf[i, j]) then Collider else Fluid];
          j := j + 1;
        }
        m := m + [column];
        i := i + 1;
      }
      width, height, marker := w, h, m;
    }

    /** The u faces once every cell before (i, j) has been visited. */
    ghost predicate UVisited(u: array2<real>, U0: seq<seq<real>>, uVel: (nat, nat) -> real, i: nat, j: nat)
      reads this, u
      requires Valid() && u.Length0 == width + 1 && u.Length1 == height && IsGrid(U0, width + 1, height)
    {
      forall a, b :: 0 <= a <= width && 0 <= b < height ==>
        u[a, b] == if UInterface(marker, width, height, a, b) && Before(UOwner(marker, width, height, a, b), b, i, j)
                   then uVel(a, b) else U0[a][b]
    }

    /** The v faces once every cell before (i, j) has been visited. */
    ghost predicate VVisited(v: array2<real>, V0: seq<seq<real>>, vVel: (nat, nat) -> real, i: nat, j: nat)
      reads this, v
      requires Valid() && v.Length0 == width && v.Length1 == height + 1 && IsGrid(V0, width, height + 1)
    {
      forall a, b :: 0 <= a < width && 0 <= b <= height ==>
        v[a, b] == if VInterface(marker, width, height, a, b) && Before(a, VOwner(marker, width, height, a, b), i, j)
                   then vVel(a, b) else V0[a][b]
    }

    /**
     * The u half of the loop body for cell (i, j): a collider cell writes the
     * collider's x-velocity into its left and right u faces where they border
     * a fluid cell.
     */
    method VisitCellU(u: array2<real>, uVel: (nat, nat) -> real, i: nat, j: nat)
      requires Valid() && u.Length0 == width + 1 && u.Length1 == height && i < width && j < height
      modifies u
      ensures forall a, b :: 0 <= a <= width && 0 <= b < height ==>
                u[a, b] == if UInterface(marker, width, height, a, b) && UOwner(marker, width, height, a, b) == i && b == j
                           then uVel(a, b) else old(u[a, b])
    {
      if marker[i][j] == Collider {
        if i > 0 && marker[i - 1][j] == Fluid {
          u[i, j] := uVel(i, j);
        }
        if i < width - 1 && marker[i + 1][j] == Fluid {
          u[i + 1, j] := uVel(i + 1, j);
        }
      }
    }

    /** The v half of the loop body for cell (i, j). */
    method VisitCellV(v: array2<real>, vVel: (nat, nat) -> real, i: nat, j: nat)
      requires Valid() && v.Length0 == width && v.Length1 == height + 1 && i < width && j < height
      modifies v
      ensures forall a, b :: 0 <= a < width && 0 <= b <= height ==>
                v[a, b] == if VInterface(marker, width, height, a, b) && VOwner(marker, width, height, a, b) == j && a == i
                           then vVel(a, b) else old(v[a, b])
    {
      if marker[i][j] == Collider {
        if j > 0 && marker[i][j - 1] == Fluid {
          v[i, j] := vVel(i, j);
        }
        if j < height - 1 && marker[i][j + 1] == Fluid {
          v[i, j + 1] := vVel(i, j + 1);
        }
      }
    }

    /**
     * The blocked pass of `constrainVelocity` over the face arrays as the
     * fractional parent pass leaves them: every cell is visited, and each face
     * between a collider cell and a fluid cell takes the collider's velocity.
     */
    method ConstrainVelocity(u: array2<real>, v: array2<real>, uVel: (nat, nat) -> real, vVel: (nat, nat) -> real)
      requires Valid() && u != v
      requires u.Length0 == width + 1 && u.Length1 == height && v.Length0 == width && v.Length1 == height + 1
      modifies u, v
      ensures Contents(u) == BlockedU(marker, width, height, old(Contents(u)), uVel)
      ensures Contents(v) == BlockedV(marker, width, height, old(Contents(v)), vVel)
    {
      ghost var U0, V0 := Contents(u), Contents(v);
      var j := 0;
      while j < height
        invariant 0 <= j <= height
        invariant UVisited(u, U0, uVel, 0, j) && VVisited(v, V0, vVel, 0, j)
      {
        var i := 0;
        while i < width
          invariant 0 <= i <= width
          invariant UVisited(u, U0, uVel, i, j) && VVisited(v, V0, vVel, i, j)
        {
          VisitCellU(u, uVel, i, j);
          VisitCellV(v, vVel, i, j);
          i := i + 1;
        }
        j := j + 1;
      }
      FinishU(u, U0, uVel);
      FinishV(v, V0, vVel);
    }

    /** Once every cell is visited, the u faces are the blocked field. */
    lemma FinishU(u: array2<real>, U0: seq<seq<real>>, uVel: (nat, nat) -> real)
      requires Valid() && u.Length0 == width + 1 && u.Length1 == height && IsGrid(U0, width + 1, height)
      requires UVisited(u, U0, uVel, 0, height)
      ensures Contents(u) == BlockedU(marker, width, height, U0, uVel)
    {
      var r, s := Contents(u), BlockedU(marker, width, height, U0, uVel);
      forall a | 0 <= a <= width
        ensures r[a] == s[a]
      {
        assert forall b :: 0 <= b < height ==> r[a][b] == s[a][b];
      }
    }

    /** Once every cell is visited, the v faces are the blocked field. */
    lemma FinishV(v: array2<real>, V0: seq<seq<real>>, vVel: (nat, nat) -> real)
      requires Valid() && v.Length0 == width && v.Length1 == height + 1 && IsGrid(V0, width, height + 1)
      requires VVisited(v, V0, vVel, 0, height)
      ensures Contents(v) == BlockedV(marker, width, height, V0, vVel)
    {
      var r, s := Contents(v), BlockedV(marker, width, height, V0, vVel);
      forall a | 0 <= a < width
        ensures r[a] == s[a]
      {
        assert forall b :: 0 <= b <= height ==> r[a][b] == s[a][b];
      }
    }
  }
}
