/**
 * The dense 3-D array: a size (width, height, depth) and a flat vector in
 * which element (i, j, k) lives at `i + width * (j + height * k)`.
 */
module Array3D {
  import opened Wrappers

  /** The flat position of element (i, j, k) in an array of the given width and height. */
  function LinearIndex(w: nat, h: nat, i: nat, j: nat, k: nat): nat
  {
    i + w * (j + h * k)
  }

  lemma MulLeft(c: nat, a: nat, b: nat)
    requires a <= b
    ensures c * a <= c * b
  {
    assert c * b - c * a == c * (b - a);
  }

  /** Every in-bounds element has a position inside the data vector. */
  lemma LinearIndexInRange(w: nat, h: nat, d: nat, i: nat, j: nat, k: nat)
    requires i < w && j < h && k < d
    ensures LinearIndex(w, h, i, j, k) < w * h * d
  {
    var jk := j + h * k;
    MulLeft(h, k + 1, d);
    assert h * (k + 1) == h * k + h;
    MulLeft(w, jk + 1, h * d);
    assert w * (jk + 1) == w * jk + w;
    assert w * (h * d) == w * h * d;
  }

  /** A larger outer coordinate outweighs any inner coordinate below the stride. */
  lemma StrideBelow(w: nat, a: nat, b: nat, i: nat, i': nat)
    requires i < w && a < b
    ensures i + w * a < i' + w * b
  {
    MulLeft(w, a + 1, b);
    assert w * (a + 1) == w * a + w;
  }

  /** Positions follow the lexicographic order of (k, j, i). */
  lemma LinearIndexOrdered(w: nat, h: nat, i: nat, j: nat, k: nat, i': nat, j': nat, k': nat)
    requires i < w && j < h && i' < w && j' < h
    requires k < k' || (k == k' && j < j') || (k == k' && j == j' && i < i')
    ensures LinearIndex(w, h, i, j, k) < LinearIndex(w, h, i', j', k')
  {
    var jk, jk' := j + h * k, j' + h * k';
    if k < k' {
      StrideBelow(h, k, k', j, j');
      StrideBelow(w, jk, jk', i, i');
    } else if j < j' {
      StrideBelow(w, jk, jk', i, i');
    }
  }

  /** Distinct in-bounds elements never share a position. */
  lemma LinearIndexInjective(w: nat, h: nat, i: nat, j: nat, k: nat, i': nat, j': nat, k': nat)
    requires i < w && j < h && i' < w && j' < h
    ensures (i, j, k) != (i', j', k') ==> LinearIndex(w, h, i, j, k) != LinearIndex(w, h, i', j', k')
  {
    if k < k' || (k == k' && j < j') || (k == k' && j == j' && i < i') {
      LinearIndexOrdered(w, h, i, j, k, i', j', k');
    } else if k' < k || (k == k' && j' < j) || (k == k' && j == j' && i' < i) {
      LinearIndexOrdered(w, h, i', j', k', i, j, k);
    }
  }

  class Array3<T(0)> {
    var width: nat
    var height: nat
    var depth: nat
    var data: seq<T>

    ghost predicate Valid()
      reads this
    {
      |data| == width * height * depth
    }

    /** `at(i, j, k)` and `operator()(i, j, k)`: the bounds are asserted. */
    function At(i: nat, j: nat, k: nat): (v: T)
      reads this
      requires Valid() && i < width && j < height && k < depth
      ensures LinearIndex(width, height, i, j, k) < |data|
      ensures v == data[LinearIndex(width, height, i, j, k)]
    {
      LinearIndexInRange(width, height, depth, i, j, k);
      data[LinearIndex(width, height, i, j, k)]
    }

    /** The default constructor: an empty 0x0x0 array. */
    constructor Empty()
      ensures Valid()
      ensures width == 0 && height == 0 && depth == 0 && data == []
    {
      width, height, depth := 0, 0, 0;
      data := [];
    }

    /** Sized constructor: every element is `initVal`. */
    constructor (w: nat, h: nat, d: nat, initVal: T)
      ensures Valid()
      ensures width == w && height == h && depth == d
      ensures forall p :: 0 <= p < |data| ==> data[p] == initVal
    {
      width, height, depth := w, h, d;
      data := seq(w * h * d, _ => initVal);
    }

    /** Initializer-list constructor: delegates to `set(nested list)`. */
    constructor FromList(lst: seq<seq<seq<T>>>)
      requires Rectangular(lst)
      ensures Valid()
      ensures (width, height, depth) == ListShape(lst)
      ensures forall i: nat, j: nat, k: nat :: i < width && j < height && k < depth ==> At(i, j, k) == lst[k][j][i]
    {
      width, height, depth := 0, 0, 0;
      data := [];
      new;
      SetFromList(lst);
    }

    /** Copy constructor. */
    constructor Copy(other: Array3<T>)
      requires other.Valid()
      ensures Valid()
      ensures width == other.width && height == other.height && depth == other.depth
      ensures data == other.data
    {
      width, height, depth := other.width, other.height, other.depth;
      data := other.data;
    }

    /** `set(value)`: every element becomes `value`; the size is unchanged. */
    method SetValue(value: T)
      requires Valid()
      modifies this`data
      ensures Valid()
      ensures width == old(width) && height == old(height) && depth == old(depth)
      ensures |data| == |old(data)|
      ensures forall p :: 0 <= p < |data| ==> data[p] == value
    {
      var p := 0;
      while p < |data|
        invariant 0 <= p <= |data| == |old(data)|
        invariant forall q :: 0 <= q < p ==> data[q] == value
      {
        data := data[p := value];
        p := p + 1;
      }
    }

    /** `set(other)` and copy assignment: equal size and data. */
    method SetFrom(other: Array3<T>)
      requires other.Valid()
      modifies this
      ensures Valid()
      ensures width == other.width && height == other.height && depth == other.depth
      ensures data == other.data
    {
      var copy := other.data;
      width, height, depth := other.width, other.height, other.depth;
      data := copy;
    }

    /** `clear`: size (0, 0, 0) and no data. */
    method Clear()
      modifies this
      ensures Valid()
      ensures width == 0 && height == 0 && depth == 0 && data == []
    {
      width, height, depth := 0, 0, 0;
      data := [];
    }

    /** `swap`: exchanges both size and data with `other`. */
    method Swap(other: Array3<T>)
      modifies this, other
      ensures width == old(other.width) && height == old(other.height) && depth == old(other.depth)
      ensures other.width == old(width) && other.height == old(height) && other.depth == old(depth)
      ensures data == old(other.data) && other.data == old(data)
    {
      data, other.data := other.data, data;
      width, other.width := other.width, width;
      height, other.height := other.height, height;
      depth, other.depth := other.depth, depth;
    }

    /**
     * Move assignment: this array takes the other's size and data; the
     * other is left with size (0, 0, 0) and (as a moved-from vector) no data.
     */
    method MoveFrom(other: Array3<T>)
      requires other != this && other.Valid()
      modifies this, other
      ensures Valid() && other.Valid()
      ensures width == old(other.width) && height == old(other.height) && depth == old(other.depth)
      ensures data == old(other.data)
      ensures other.width == 0 && other.height == 0 && other.depth == 0 && other.data == []
    {
      data := other.data;
      other.data := [];
      width, height, depth := other.width, other.height, other.depth;
      other.width, other.height, other.depth := 0, 0, 0;
    }

    /**
     * `set(nested list)`: the array takes the list's extents and element
     * (i, j, k) becomes `lst[k][j][i]`. An empty list gives a 0x0x0 array
     * (see ListShapeAsWritten for how the code reads that case).
     */
    method SetFromList(lst: seq<seq<seq<T>>>)
      requires Valid()
      requires Rectangular(lst)
      modifies this
      ensures Valid()
      ensures (width, height, depth) == ListShape(lst)
      ensures forall i: nat, j: nat, k: nat :: i < width && j < height && k < depth ==> At(i, j, k) == lst[k][j][i]
    {
      var (w, h, d) := ListShape(lst);
      var zero: T := *;
      Resize(w, h, d, zero);
      var k := 0;
      while k < d
        invariant 0 <= k <= d
        invariant width == w && height == h && depth == d && Valid()
        invariant forall a: nat, b: nat, c: nat :: a < w && b < h && c < k ==> Cell(data, w, h, d, a, b, c) == lst[c][b][a]
      {
        data := FillPage(data, w, h, d, lst[k], k);
        k := k + 1;
      }
      forall a: nat, b: nat, c: nat | a < w && b < h && c < d
        ensures At(a, b, c) == lst[c][b][a]
      {
        assert At(a, b, c) == Cell(data, w, h, d, a, b, c);
      }
    }

    /**
     * `resize`: a new array of the requested size filled with `initVal`,
     * into which the overlap of the old and new extents is copied, (k, j, i)
     * in lexicographic order; then the new array is swapped in.
     */
    method Resize(w: nat, h: nat, d: nat, initVal: T)
      requires Valid()
      modifies this
      ensures Valid()
      ensures width == w && height == h && depth == d
      ensures forall i: nat, j: nat, k: nat :: i < w && j < h && k < d ==>
                At(i, j, k) == if i < old(width) && j < old(height) && k < old(depth) then old(At(i, j, k)) else initVal
    {
      var src, sw, sh, sd := data, width, height, depth;
      var grid := seq(w * h * d, _ => initVal);
      var iMin, jMin, kMin := Min(w, sw), Min(h, sh), Min(d, sd);
      forall a: nat, b: nat, c: nat | a < w && b < h && c < d
        ensures Cell(grid, w, h, d, a, b, c) == initVal
      {
        LinearIndexInRange(w, h, d, a, b, c);
      }
      var k := 0;
      while k < kMin
        invariant 0 <= k <= kMin
        invariant |grid| == w * h * d
        invariant forall a: nat, b: nat, c: nat :: a < w && b < h && c < d ==>
                    Cell(grid, w, h, d, a, b, c) ==
                      if a < iMin && b < jMin && c < k then Cell(src, sw, sh, sd, a, b, c) else initVal
      {
        grid := CopyPage(grid, w, h, d, src, sw, sh, sd, iMin, jMin, k);
        k := k + 1;
      }
      width, height, depth := w, h, d;
      data := grid;
      forall a: nat, b: nat, c: nat | a < w && b < h && c < d
        ensures At(a, b, c) == if a < sw && b < sh && c < sd then Cell(src, sw, sh, sd, a, b, c) else initVal
      {
        assert At(a, b, c) == Cell(grid, w, h, d, a, b, c);
      }
    }
  }

  /**
   * The body of the `j` loop of `resize` for one page `k`: copies the cells
   * (i, j, k) with i < iMin and j < jMin from `src` into `grid`; no other
   * cell changes.
   */
  method CopyPage<T>(grid: seq<T>, w: nat, h: nat, d: nat, src: seq<T>, sw: nat, sh: nat, sd: nat,
                     iMin: nat, jMin: nat, k: nat) returns (r: seq<T>)
    requires |grid| == w * h * d && |src| == sw * sh * sd
    requires iMin <= w && iMin <= sw && jMin <= h && jMin <= sh && k < d && k < sd
    ensures |r| == |grid|
    ensures forall a: nat, b: nat, c: nat :: a < w && b < h && c < d ==>
              Cell(r, w, h, d, a, b, c) ==
                if a < iMin && b < jMin && c == k then Cell(src, sw, sh, sd, a, b, c) else Cell(grid, w, h, d, a, b, c)
  {
    r := grid;
    var j := 0;
    while j < jMin
      invariant 0 <= j <= jMin
      invariant |r| == |grid|
      invariant forall a: nat, b: nat, c: nat :: a < w && b < h && c < d ==>
                  Cell(r, w, h, d, a, b, c) ==
                    if a < iMin && b < j && c == k then Cell(src, sw, sh, sd, a, b, c) else Cell(grid, w, h, d, a, b, c)
    {
      r := CopyRow(r, w, h, d, src, sw, sh, sd, iMin, j, k);
      j := j + 1;
    }
  }

  /**
   * The body of the `i` loop of `resize` for one row (j, k): copies the
   * cells (i, j, k) with i < iMin from `src` into `grid`; no other cell changes.
   */
  method CopyRow<T>(grid: seq<T>, w: nat, h: nat, d: nat, src: seq<T>, sw: nat, sh: nat, sd: nat,
                    iMin: nat, j: nat, k: nat) returns (r: seq<T>)
    requires |grid| == w * h * d && |src| == sw * sh * sd
    requires iMin <= w && iMin <= sw && j < h && j < sh && k < d && k < sd
    ensures |r| == |grid|
    ensures forall a: nat, b: nat, c: nat :: a < w && b < h && c < d ==>
              Cell(r, w, h, d, a, b, c) ==
                if a < iMin && b == j && c == k then Cell(src, sw, sh, sd, a, b, c) else Cell(grid, w, h, d, a, b, c)
  {
    r := grid;
    var i := 0;
    while i < iMin
      invariant 0 <= i <= iMin
      invariant |r| == |grid|
      invariant forall a: nat, b: nat, c: nat :: a < w && b < h && c < d ==>
                  Cell(r, w, h, d, a, b, c) ==
                    if a < i && b == j && c == k then Cell(src, sw, sh, sd, a, b, c) else Cell(grid, w, h, d, a, b, c)
    {
      ghost var prev := r;
      LinearIndexInRange(w, h, d, i, j, k);
      r := r[LinearIndex(w, h, i, j, k) := Cell(src, sw, sh, sd, i, j, k)];
      forall a: nat, b: nat, c: nat | a < w && b < h && c < d
        ensures Cell(r, w, h, d, a, b, c) == if (a, b, c) == (i, j, k) then Cell(src, sw, sh, sd, a, b, c) else Cell(prev, w, h, d, a, b, c)
      {
        if (a, b, c) != (i, j, k) {
          LinearIndexInjective(w, h, a, b, c, i, j, k);
          LinearIndexInRange(w, h, d, a, b, c);
          var p, q := LinearIndex(w, h, i, j, k), LinearIndex(w, h, a, b, c);
          assert p != q;
          assert r[q] == prev[q];
        }
      }
      i := i + 1;
    }
  }

  /** One row of an initializer list: cell (a, j, k) takes `row[a]`; no other cell changes. */
  method FillRow<T>(grid: seq<T>, w: nat, h: nat, d: nat, row: seq<T>, j: nat, k: nat) returns (r: seq<T>)
    requires |grid| == w * h * d && |row| == w && j < h && k < d
    ensures |r| == |grid|
    ensures forall a: nat, b: nat, c: nat :: a < w && b < h && c < d ==>
              Cell(r, w, h, d, a, b, c) == if b == j && c == k then row[a] else Cell(grid, w, h, d, a, b, c)
  {
    r := grid;
    var i := 0;
    while i < w
      invariant 0 <= i <= w
      invariant |r| == |grid|
      invariant forall a: nat, b: nat, c: nat :: a < w && b < h && c < d ==>
                  Cell(r, w, h, d, a, b, c) == if a < i && b == j && c == k then row[a] else Cell(grid, w, h, d, a, b, c)
    {
      ghost var prev := r;
      LinearIndexInRange(w, h, d, i, j, k);
      r := r[LinearIndex(w, h, i, j, k) := row[i]];
      forall a: nat, b: nat, c: nat | a < w && b < h && c < d
        ensures Cell(r, w, h, d, a, b, c) == if (a, b, c) == (i, j, k) then row[a] else Cell(prev, w, h, d, a, b, c)
      {
        if (a, b, c) != (i, j, k) {
          LinearIndexInjective(w, h, a, b, c, i, j, k);
          LinearIndexInRange(w, h, d, a, b, c);
          var p, q := LinearIndex(w, h, i, j, k), LinearIndex(w, h, a, b, c);
          assert p != q;
          assert r[q] == prev[q];
        }
      }
      i := i + 1;
    }
  }

  /** One page of an initializer list: cell (a, b, k) takes `page[b][a]`; no other cell changes. */
  method FillPage<T>(grid: seq<T>, w: nat, h: nat, d: nat, page: seq<seq<T>>, k: nat) returns (r: seq<T>)
    requires |grid| == w * h * d && |page| == h && k < d
    requires forall b :: 0 <= b < h ==> |page[b]| == w
    ensures |r| == |grid|
    ensures forall a: nat, b: nat, c: nat :: a < w && b < h && c < d ==>
              Cell(r, w, h, d, a, b, c) == if c == k then page[b][a] else Cell(grid, w, h, d, a, b, c)
  {
    r := grid;
    var j := 0;
    while j < h
      invariant 0 <= j <= h
      invariant |r| == |grid|
      invariant forall a: nat, b: nat, c: nat :: a < w && b < h && c < d ==>
                  Cell(r, w, h, d, a, b, c) == if b < j && c == k then page[b][a] else Cell(grid, w, h, d, a, b, c)
    {
      r := FillRow(r, w, h, d, page[j], j, k);
      j := j + 1;
    }
  }

  /** The extents an initializer list gives: depth, height of its first page, width of that page's first row. */
  function ListShape<T>(lst: seq<seq<seq<T>>>): (wh: (nat, nat, nat))
    ensures wh.2 == |lst|
    ensures wh.1 == 0 <==> (|lst| == 0 || |lst[0]| == 0)
    ensures wh.1 > 0 ==> wh.1 == |lst[0]| && wh.0 == |lst[0][0]|
    ensures wh.1 == 0 ==> wh.0 == 0
  {
    var depth := |lst|;
    var height := if depth > 0 then |lst[0]| else 0;
    var width := if height > 0 then |lst[0][0]| else 0;
    (width, height, depth)
  }

  /**
   * The extents as the code reads them: the first page's row iterator is
   * taken even when there is no first page, which is undefined for an
   * empty list (None).
   */
  function ListShapeAsWritten<T>(lst: seq<seq<seq<T>>>): (r: Option<(nat, nat, nat)>)
    ensures r.None? <==> |lst| == 0
  {
    if |lst| == 0 then None
    else
      var height := |lst[0]|;
      var width := if height > 0 then |lst[0][0]| else 0;
      Some((width, height, |lst|))
  }

  /** The two readings agree except on the empty list, where only the corrected one is defined. */
  lemma ListShapeAgreesAsWritten<T>(lst: seq<seq<seq<T>>>)
    ensures |lst| > 0 ==> ListShapeAsWritten(lst) == Some(ListShape(lst))
    ensures ListShapeAsWritten<T>([]) == None && ListShape<T>([]) == (0, 0, 0)
  {
  }

  /** Every page has the first page's height and every row the first row's width (asserted by the code). */
  ghost predicate Rectangular<T>(lst: seq<seq<seq<T>>>)
  {
    var (w, h, d) := ListShape(lst);
    forall k :: 0 <= k < d ==> |lst[k]| == h && forall j :: 0 <= j < h ==> |lst[k][j]| == w
  }

  function Min(a: nat, b: nat): (r: nat)
    ensures r <= a && r <= b && (r == a || r == b)
  {
    if a < b then a else b
  }

  /** Element (a, b, c) of a flat vector of a w x h x d array. */
  function Cell<T>(grid: seq<T>, w: nat, h: nat, d: nat, a: nat, b: nat, c: nat): T
    requires |grid| == w * h * d && a < w && b < h && c < d
  {
    LinearIndexInRange(w, h, d, a, b, c);
    grid[LinearIndex(w, h, a, b, c)]
  }
}
