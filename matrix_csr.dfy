/**
 * The compressed-sparse-row matrix: the stored values `nonZeros`, their
 * column indices `columnIndices`, and `rowPointers`, where row `i` owns the
 * flat positions `rowPointers[i] .. rowPointers[i + 1] - 1`. A position not
 * stored reads as 0.
 */
module Csr {
  import opened Wrappers
  import opened VectorMath

  /** `kMaxSize`: the largest `size_t`, returned by `hasElement` for an absent element. */
  const kMaxSize: nat := 0xFFFF_FFFF_FFFF_FFFF

  /** One stored element of a row: its column and value. */
  datatype Entry = Entry(col: nat, value: real)

  /** The stored entries at flat positions `lo .. hi - 1`. */
  function Slice(ci: seq<nat>, nz: seq<real>, lo: nat, hi: nat): (r: seq<Entry>)
    requires lo <= hi <= |ci| && |ci| == |nz|
    ensures |r| == hi - lo
    ensures forall p :: 0 <= p < |r| ==> r[p] == Entry(ci[lo + p], nz[lo + p])
  {
    seq(hi - lo, p requires 0 <= p < hi - lo => Entry(ci[lo + p], nz[lo + p]))
  }

  /** Columns are non-decreasing along the row. */
  predicate ColsSorted(row: seq<Entry>)
  {
    forall p, q :: 0 <= p <= q < |row| ==> row[p].col <= row[q].col
  }

  /** Columns are strictly increasing along the row: each column is stored at most once. */
  predicate ColsStrict(row: seq<Entry>)
  {
    forall p, q :: 0 <= p < q < |row| ==> row[p].col < row[q].col
  }

  /**
   * The CSR invariant: `rows + 1` row pointers from 0 to the number of
   * non-zeros, non-decreasing; one column per value; columns sorted inside
   * each row and below the column count.
   */
  ghost predicate CsrValid(rows: nat, cols: nat, nz: seq<real>, rp: seq<nat>, ci: seq<nat>)
  {
    && Pointers(rows, nz, rp, ci) && rp[0] == 0 && |nz| < kMaxSize
    && (forall i :: 0 <= i < rows ==> RowSorted(rp, ci, i))
    && (forall p :: 0 <= p < |ci| ==> ci[p] < cols)
  }

  /**
   * The stored entries of row `r`: flat positions `rp[r] .. rp[r + 1] - 1`
   * (none when those pointers do not delimit a range of the arrays).
   */
  function RowOf(nz: seq<real>, rp: seq<nat>, ci: seq<nat>, r: nat): seq<Entry>
  {
    if r + 1 < |rp| && rp[r] <= rp[r + 1] <= |ci| && |ci| == |nz| then Slice(ci, nz, rp[r], rp[r + 1]) else []
  }

  /** `n` copies of `x`. */
  function Repeat(n: nat, x: nat): (r: seq<nat>)
    ensures |r| == n && forall t :: 0 <= t < n ==> r[t] == x
  {
    seq(n, _ => x)
  }

  /** The columns of row `i` are non-decreasing. */
  ghost predicate RowSorted(rp: seq<nat>, ci: seq<nat>, i: nat)
  {
    i + 1 < |rp| ==> forall p, q :: rp[i] <= p <= q < rp[i + 1] && q < |ci| ==> ci[p] <= ci[q]
  }

  /** The row pointers delimit consecutive ranges that end at the number of stored values. */
  ghost predicate Pointers(rows: nat, nz: seq<real>, rp: seq<nat>, ci: seq<nat>)
  {
    && |rp| == rows + 1 && rp[rows] == |nz| && |ci| == |nz|
    && (forall a, b :: 0 <= a <= b <= rows ==> rp[a] <= rp[b])
  }

  /** The first position in `lo .. hi - 1` whose column is `j`, or `hi` when there is none. */
  function FindColumn(ci: seq<nat>, lo: nat, hi: nat, j: nat): (p: nat)
    requires lo <= hi <= |ci|
    ensures lo <= p <= hi
    ensures p < hi ==> ci[p] == j
    ensures forall q :: lo <= q < p ==> ci[q] != j
    decreases hi - lo
  {
    if lo == hi then hi
    else if ci[lo] == j then lo
    else FindColumn(ci, lo + 1, hi, j)
  }

  /** The sum `sum nz[jj] * v[ci[jj]]` over flat positions `lo .. hi - 1`, accumulated in order. */
  function RowDot(ci: seq<nat>, nz: seq<real>, lo: nat, hi: nat, v: seq<real>): real
    requires lo <= hi <= |ci| && |ci| == |nz|
    requires forall p :: lo <= p < hi ==> ci[p] < |v|
    decreases hi - lo
  {
    if hi == lo then 0.0 else RowDot(ci, nz, lo, hi - 1, v) + nz[hi - 1] * v[ci[hi - 1]]
  }

  // ---------------------------------------------------------------- addRow

  /** The values of a row's entries, in order. */
  function Values(row: seq<Entry>): (r: seq<real>)
    ensures |r| == |row| && forall p :: 0 <= p < |row| ==> r[p] == row[p].value
  {
    seq(|row|, p requires 0 <= p < |row| => row[p].value)
  }

  /** The columns of a row's entries, in order. */
  function Columns(row: seq<Entry>): (r: seq<nat>)
    ensures |r| == |row| && forall p :: 0 <= p < |row| ==> r[p] == row[p].col
  {
    seq(|row|, p requires 0 <= p < |row| => row[p].col)
  }

  function Max(a: nat, b: nat): nat
  {
    if a < b then b else a
  }

  /**
   * The column count after `addRow` with columns `ci`: the old count raised to
   * `c + 1` for every column `c`, i.e. the least bound above all of them.
   */
  function WidthAfter(cols: nat, ci: seq<nat>): (w: nat)
    ensures w >= cols && forall p :: 0 <= p < |ci| ==> ci[p] < w
    ensures w == cols || exists p :: 0 <= p < |ci| && w == ci[p] + 1
  {
    if |ci| == 0 then cols
    else
      var init := ci[..|ci| - 1];
      var w := WidthAfter(cols, init);
      assert w != cols ==> exists p :: 0 <= p < |init| && w == init[p] + 1;
      Max(w, ci[|ci| - 1] + 1)
  }

  /** During an insertion step: positions `0 .. i` other than the moving one `j` are in order, and `j` is below those after it. */
  predicate SinkState(s: seq<Entry>, i: nat, j: nat)
    requires j <= i < |s|
  {
    && (forall p, q :: 0 <= p <= q <= i && p != j && q != j ==> s[p].col <= s[q].col)
    && (forall q :: j < q <= i ==> s[j].col <= s[q].col)
  }

  /** Swapping the moving entry with a larger left neighbour keeps the insertion-step state. */
  lemma SinkSwap(s: seq<Entry>, i: nat, j: nat)
    requires 0 < j <= i < |s| && SinkState(s, i, j) && s[j - 1].col > s[j].col
    ensures SinkState(s[j - 1 := s[j]][j := s[j - 1]], i, j - 1)
  {
  }

  /** One insertion step: entry `i` moves left past the larger columns before it. */
  method SinkEntry(s0: seq<Entry>, i: nat) returns (s: seq<Entry>)
    requires i < |s0| && forall p, q :: 0 <= p <= q < i ==> s0[p].col <= s0[q].col
    ensures |s| == |s0| && multiset(s) == multiset(s0)
    ensures forall p, q :: 0 <= p <= q <= i ==> s[p].col <= s[q].col
    ensures (i == 0 || s0[i - 1].col <= s0[i].col) ==> s == s0
  {
    s := s0;
    var j := i;
    while j > 0 && s[j - 1].col > s[j].col
      invariant 0 <= j <= i && |s| == |s0| && multiset(s) == multiset(s0)
      invariant SinkState(s, i, j)
      invariant (i == 0 || s0[i - 1].col <= s0[i].col) ==> s == s0 && j == i
    {
      SinkSwap(s, i, j);
      s := s[j - 1 := s[j]][j := s[j - 1]];
      j := j - 1;
    }
  }

  /**
   * The sort in `addRow`: the row's entries reordered by column. A row that is
   * already in column order is left as it is.
   */
  method SortEntries(es: seq<Entry>) returns (s: seq<Entry>)
    ensures |s| == |es| && multiset(s) == multiset(es) && ColsSorted(s)
    ensures ColsSorted(es) ==> s == es
  {
    s := es;
    var i := 0;
    while i < |s|
      invariant 0 <= i <= |s| && |s| == |es| && multiset(s) == multiset(es)
      invariant forall p, q :: 0 <= p <= q < i ==> s[p].col <= s[q].col
      invariant ColsSorted(es) ==> s == es
    {
      s := SinkEntry(s, i);
      i := i + 1;
    }
  }

  /** A reordering of entries whose columns lie below `width` has its columns below `width` too. */
  lemma PermutedColumnsBelow(es: seq<Entry>, s: seq<Entry>, width: nat)
    requires multiset(s) == multiset(es) && forall p :: 0 <= p < |es| ==> es[p].col < width
    ensures forall p :: 0 <= p < |s| ==> s[p].col < width
  {
    forall p | 0 <= p < |s|
      ensures s[p].col < width
    {
      assert s[p] in multiset(es);
      var q :| 0 <= q < |es| && es[q] == s[p];
    }
  }

  /** Appending a sorted row keeps the CSR invariant and leaves the earlier rows as they were. */
  lemma AppendRowValid(rows: nat, cols: nat, nz: seq<real>, rp: seq<nat>, ci: seq<nat>, row: seq<Entry>, width: nat)
    requires CsrValid(rows, cols, nz, rp, ci)
    requires ColsSorted(row) && width >= cols && forall p :: 0 <= p < |row| ==> row[p].col < width
    requires |nz| + |row| < kMaxSize
    ensures CsrValid(rows + 1, width, nz + Values(row), rp + [|nz| + |row|], ci + Columns(row))
  {
    var nz', rp', ci' := nz + Values(row), rp + [|nz| + |row|], ci + Columns(row);
    forall a, b | 0 <= a <= b <= rows + 1
      ensures rp'[a] <= rp'[b]
    {
      if b <= rows {
        assert rp'[a] == rp[a] && rp'[b] == rp[b];
      } else {
        assert rp'[a] <= rp[rows] || a == rows + 1;
      }
    }
    forall i | 0 <= i < rows + 1
      ensures RowSorted(rp', ci', i)
    {
      if i < rows {
        assert rp[i + 1] <= rp[rows] && RowSorted(rp, ci, i);
        assert rp'[i] == rp[i] && rp'[i + 1] == rp[i + 1];
        forall p, q | rp'[i] <= p <= q < rp'[i + 1] && q < |ci'|
          ensures ci'[p] <= ci'[q]
        {
          assert ci'[p] == ci[p] && ci'[q] == ci[q];
        }
      } else {
        forall p, q | rp'[i] <= p <= q < rp'[i + 1] && q < |ci'|
          ensures ci'[p] <= ci'[q]
        {
          assert ci'[p] == row[p - |nz|].col && ci'[q] == row[q - |nz|].col;
        }
      }
    }
    forall p | 0 <= p < |ci'|
      ensures ci'[p] < width
    {
      if p >= |ci| {
        assert ci'[p] == row[p - |ci|].col;
      }
    }
  }

  /** After appending a row, the earlier rows read as before and the new row is the appended one. */
  lemma AppendRowRows(rows: nat, cols: nat, nz: seq<real>, rp: seq<nat>, ci: seq<nat>, row: seq<Entry>, width: nat)
    requires CsrValid(rows, cols, nz, rp, ci)
    requires CsrValid(rows + 1, width, nz + Values(row), rp + [|nz| + |row|], ci + Columns(row))
    ensures forall r :: 0 <= r < rows ==>
              RowOf(nz + Values(row), rp + [|nz| + |row|], ci + Columns(row), r) == RowOf(nz, rp, ci, r)
    ensures RowOf(nz + Values(row), rp + [|nz| + |row|], ci + Columns(row), rows) == row
  {
    var nz', rp', ci' := nz + Values(row), rp + [|nz| + |row|], ci + Columns(row);
    forall r | 0 <= r < rows
      ensures RowOf(nz', rp', ci', r) == RowOf(nz, rp, ci, r)
    {
      assert rp[r + 1] <= rp[rows];
    }
  }

  // ---------------------------------------------------------------- addElement

  /** `s` with `x` inserted before position `p`, as `vector::insert` does. */
  function Insert<T>(s: seq<T>, p: nat, x: T): (r: seq<T>)
    requires p <= |s|
    ensures |r| == |s| + 1 && r[p] == x
    ensures forall q :: 0 <= q < p ==> r[q] == s[q]
    ensures forall q :: p < q < |r| ==> r[q] == s[q - 1]
  {
    s[..p] + [x] + s[p..]
  }

  /** The row pointers after one insertion into row `i`: every pointer after row `i` moves up by one. */
  function Bumped(rp: seq<nat>, i: nat): (r: seq<nat>)
    ensures |r| == |rp|
    ensures forall t :: 0 <= t < |rp| ==> r[t] == if t > i then rp[t] + 1 else rp[t]
  {
    seq(|rp|, t requires 0 <= t < |rp| => if t > i then rp[t] + 1 else rp[t])
  }

  /** The `std::lower_bound` of `j` in the sorted positions `lo .. hi - 1`: the first column not below `j`. */
  method LowerBound(ci: seq<nat>, lo: nat, hi: nat, j: nat) returns (p: nat)
    requires lo <= hi <= |ci| && forall a, b :: lo <= a <= b < hi ==> ci[a] <= ci[b]
    ensures lo <= p <= hi
    ensures forall q :: lo <= q < p ==> ci[q] < j
    ensures forall q :: p <= q < hi ==> ci[q] >= j
  {
    var a, b := lo, hi;
    while a < b
      invariant lo <= a <= b <= hi
      invariant forall q :: lo <= q < a ==> ci[q] < j
      invariant forall q :: b <= q < hi ==> ci[q] >= j
    {
      var mid := a + (b - a) / 2;
      if ci[mid] < j {
        a := mid + 1;
      } else {
        b := mid;
      }
    }
    p := a;
  }

  /** The pointer loop of `addElement`: one more for every row pointer after row `i`. */
  method BumpAfter(rp: seq<nat>, i: nat) returns (r: seq<nat>)
    ensures r == Bumped(rp, i)
  {
    r := rp;
    var t := i + 1;
    while t < |r|
      invariant i + 1 <= t && |r| == |rp|
      invariant t <= |r| || r == rp
      invariant forall u :: 0 <= u < |r| ==> r[u] == if i < u < t then rp[u] + 1 else rp[u]
    {
      r := r[t := r[t] + 1];
      t := t + 1;
    }
  }

  /** The insertion position `p` lies in row `i` and splits it at the lower bound of `j`. */
  predicate InsertsAt(rows: nat, rp: seq<nat>, ci: seq<nat>, i: nat, p: nat, j: nat)
    requires |rp| == rows + 1
  {
    && i < rows && rp[i] <= p <= rp[i + 1] && p <= |ci|
    && (forall q :: rp[i] <= q < p && q < |ci| ==> ci[q] < j)
    && (forall q :: p <= q < rp[i + 1] && q < |ci| ==> ci[q] >= j)
  }

  /** Columns stay sorted inside every row after the insertion. */
  lemma InsertSorted(rows: nat, cols: nat, nz: seq<real>, rp: seq<nat>, ci: seq<nat>, i: nat, p: nat, j: nat)
    requires CsrValid(rows, cols, nz, rp, ci) && InsertsAt(rows, rp, ci, i, p, j)
    ensures forall r :: 0 <= r < rows ==> RowSorted(Bumped(rp, i), Insert(ci, p, j), r)
  {
    forall r | 0 <= r < rows
      ensures RowSorted(Bumped(rp, i), Insert(ci, p, j), r)
    {
      InsertSortedRow(rows, cols, nz, rp, ci, i, p, j, r);
    }
  }

  lemma InsertSortedRow(rows: nat, cols: nat, nz: seq<real>, rp: seq<nat>, ci: seq<nat>, i: nat, p: nat, j: nat, r: nat)
    requires CsrValid(rows, cols, nz, rp, ci) && InsertsAt(rows, rp, ci, i, p, j) && r < rows
    ensures RowSorted(Bumped(rp, i), Insert(ci, p, j), r)
  {
    var rp', ci' := Bumped(rp, i), Insert(ci, p, j);
    assert RowSorted(rp, ci, r);
    forall a, b | rp'[r] <= a <= b < rp'[r + 1] && b < |ci'|
      ensures ci'[a] <= ci'[b]
    {
      assert rp[r + 1] <= rp[rows];
      if r < i {
        assert rp[r + 1] <= rp[i];
        assert ci'[a] == ci[a] && ci'[b] == ci[b];
      } else if r > i {
        assert rp[i + 1] <= rp[r];
        assert ci'[a] == ci[a - 1] && ci'[b] == ci[b - 1];
      } else if b < p {
        assert ci'[a] == ci[a] && ci'[b] == ci[b];
      } else if a > p {
        assert ci'[a] == ci[a - 1] && ci'[b] == ci[b - 1];
      } else if a < p {
        assert ci'[a] == ci[a] && ci[a] < j;
        assert b == p || ci'[b] == ci[b - 1] >= j;
      } else {
        assert b == p || ci'[b] == ci[b - 1] >= j;
      }
    }
  }

  /** Inserting column `j` at its lower-bound position in row `i` keeps the CSR invariant. */
  lemma InsertValid(rows: nat, cols: nat, nz: seq<real>, rp: seq<nat>, ci: seq<nat>, i: nat, p: nat, j: nat, v: real)
    requires CsrValid(rows, cols, nz, rp, ci) && InsertsAt(rows, rp, ci, i, p, j)
    requires j < cols && |nz| + 1 < kMaxSize
    ensures CsrValid(rows, cols, Insert(nz, p, v), Bumped(rp, i), Insert(ci, p, j))
  {
    var rp', ci' := Bumped(rp, i), Insert(ci, p, j);
    InsertSorted(rows, cols, nz, rp, ci, i, p, j);
    forall a, b | 0 <= a <= b <= rows
      ensures rp'[a] <= rp'[b]
    {
      assert rp[a] <= rp[b];
    }
    forall q | 0 <= q < |ci'|
      ensures ci'[q] < cols
    {
      if q < p {
        assert ci'[q] == ci[q];
      } else if q > p {
        assert ci'[q] == ci[q - 1];
      }
    }
  }

  /** Positions before the insertion point keep their entries. */
  lemma SliceBeforeInsert(ci: seq<nat>, nz: seq<real>, p: nat, j: nat, v: real, lo: nat, hi: nat)
    requires |ci| == |nz| && lo <= hi <= p <= |ci|
    ensures Slice(Insert(ci, p, j), Insert(nz, p, v), lo, hi) == Slice(ci, nz, lo, hi)
  {
  }

  /** Positions after the insertion point keep their entries, one place further on. */
  lemma SliceAfterInsert(ci: seq<nat>, nz: seq<real>, p: nat, j: nat, v: real, lo: nat, hi: nat)
    requires |ci| == |nz| && p <= lo <= hi <= |ci|
    ensures Slice(Insert(ci, p, j), Insert(nz, p, v), lo + 1, hi + 1) == Slice(ci, nz, lo, hi)
  {
    var s, t := Slice(Insert(ci, p, j), Insert(nz, p, v), lo + 1, hi + 1), Slice(ci, nz, lo, hi);
    forall q | 0 <= q < |s|
      ensures s[q] == t[q]
    {
      assert Insert(ci, p, j)[lo + 1 + q] == ci[lo + q];
    }
  }

  /** After the insertion the other rows read as before. */
  lemma InsertKeepsOtherRows(rows: nat, cols: nat, nz: seq<real>, rp: seq<nat>, ci: seq<nat>, i: nat, p: nat, j: nat, v: real, r: nat)
    requires Pointers(rows, nz, rp, ci) && i < rows && rp[i] <= p <= rp[i + 1]
    requires r < rows && r != i
    ensures RowOf(Insert(nz, p, v), Bumped(rp, i), Insert(ci, p, j), r) == RowOf(nz, rp, ci, r)
  {
    var rp' := Bumped(rp, i);
    assert rp[r] <= rp[r + 1] <= rp[rows];
    if r < i {
      assert rp[r + 1] <= rp[i];
      assert rp'[r] == rp[r] && rp'[r + 1] == rp[r + 1];
      SliceBeforeInsert(ci, nz, p, j, v, rp[r], rp[r + 1]);
    } else {
      assert rp[i + 1] <= rp[r];
      assert rp'[r] == rp[r] + 1 && rp'[r + 1] == rp[r + 1] + 1;
      SliceAfterInsert(ci, nz, p, j, v, rp[r], rp[r + 1]);
    }
  }

  /** Entry `q` of row `i` after the insertion at position `p` of that row. */
  lemma InsertRowEntry(nz: seq<real>, ci: seq<nat>, lo: nat, hi: nat, p: nat, j: nat, v: real, q: nat)
    requires |ci| == |nz| && lo <= p <= hi <= |nz| && q <= hi - lo
    ensures Entry(Insert(ci, p, j)[lo + q], Insert(nz, p, v)[lo + q]) == Insert(Slice(ci, nz, lo, hi), p - lo, Entry(j, v))[q]
  {
  }

  /** The slice over an insertion point, one position longer, is the old slice with the new entry inserted. */
  lemma SliceOverInsert(ci: seq<nat>, nz: seq<real>, lo: nat, hi: nat, p: nat, j: nat, v: real)
    requires |ci| == |nz| && lo <= p <= hi <= |nz|
    ensures Slice(Insert(ci, p, j), Insert(nz, p, v), lo, hi + 1) == Insert(Slice(ci, nz, lo, hi), p - lo, Entry(j, v))
  {
    var new_ := Slice(Insert(ci, p, j), Insert(nz, p, v), lo, hi + 1);
    var want := Insert(Slice(ci, nz, lo, hi), p - lo, Entry(j, v));
    forall q | 0 <= q < |new_|
      ensures new_[q] == want[q]
    {
      InsertRowEntry(nz, ci, lo, hi, p, j, v, q);
    }
  }

  /** After the insertion row `i` holds the new entry at the insertion position. */
  lemma InsertFillsRow(rows: nat, nz: seq<real>, rp: seq<nat>, ci: seq<nat>, i: nat, p: nat, j: nat, v: real)
    requires |rp| == rows + 1 && |ci| == |nz| && i < rows && rp[i] <= p <= rp[i + 1] <= |nz|
    ensures RowOf(Insert(nz, p, v), Bumped(rp, i), Insert(ci, p, j), i) ==
              Insert(RowOf(nz, rp, ci, i), p - rp[i], Entry(j, v))
  {
    var rp' := Bumped(rp, i);
    assert rp'[i] == rp[i] && rp'[i + 1] == rp[i + 1] + 1;
    SliceOverInsert(ci, nz, rp[i], rp[i + 1], p, j, v);
  }

  /** Raising the column count keeps the CSR invariant and the rows. */
  lemma WidenValid(rows: nat, cols: nat, nz: seq<real>, rp: seq<nat>, ci: seq<nat>, width: nat)
    requires CsrValid(rows, cols, nz, rp, ci) && cols <= width
    ensures CsrValid(rows, width, nz, rp, ci)
  {
  }

  /**
   * The insertion step of `addElement` on the flat arrays: the lower bound of
   * `j` among row `i`'s columns, the insertion of column and value there, and
   * the pointer loop.
   */
  method InsertEntry(rows: nat, cols: nat, nz: seq<real>, rp: seq<nat>, ci: seq<nat>, i: nat, j: nat, v: real)
    returns (nz': seq<real>, rp': seq<nat>, ci': seq<nat>, k: nat)
    requires CsrValid(rows, cols, nz, rp, ci) && i < rows && j < cols && |nz| + 1 < kMaxSize
    ensures CsrValid(rows, cols, nz', rp', ci') && |nz'| == |nz| + 1
    ensures forall r :: 0 <= r < rows && r != i ==> RowOf(nz', rp', ci', r) == RowOf(nz, rp, ci, r)
    ensures var before := RowOf(nz, rp, ci, i);
            && k <= |before| && RowOf(nz', rp', ci', i) == Insert(before, k, Entry(j, v))
            && (forall q :: 0 <= q < k ==> before[q].col < j)
            && (forall q :: k <= q < |before| ==> before[q].col >= j)
  {
    assert rp[i] <= rp[i + 1] <= rp[rows];
    var rowBegin, rowEnd := rp[i], rp[i + 1];
    assert RowSorted(rp, ci, i);
    var offset := LowerBound(ci, rowBegin, rowEnd, j);
    InsertValid(rows, cols, nz, rp, ci, i, offset, j, v);
    forall r | 0 <= r < rows && r != i
      ensures RowOf(Insert(nz, offset, v), Bumped(rp, i), Insert(ci, offset, j), r) == RowOf(nz, rp, ci, r)
    {
      InsertKeepsOtherRows(rows, cols, nz, rp, ci, i, offset, j, v, r);
    }
    InsertFillsRow(rows, nz, rp, ci, i, offset, j, v);
    k := offset - rowBegin;
    ci', nz' := Insert(ci, offset, j), Insert(nz, offset, v);
    rp' := BumpAfter(rp, i);
  }

  /**
   * What `addElement(i, j, v)` does to the rows: there are at least `i + 1`
   * rows and `j + 1` columns and one more non-zero; every other old row is
   * unchanged, the added rows are empty, and row `i` has `Entry(j, v)`
   * inserted at position `k`, after the columns below `j` and before the rest.
   */
  ghost predicate ElementAdded(rows: nat, cols: nat, nz: seq<real>, rp: seq<nat>, ci: seq<nat>,
                               rows': nat, cols': nat, nz': seq<real>, rp': seq<nat>, ci': seq<nat>,
                               i: nat, j: nat, v: real, k: nat)
  {
    && rows' == Max(rows, i + 1) && cols' == Max(cols, j + 1) && |nz'| == |nz| + 1
    && (forall r :: 0 <= r < rows && r != i ==> RowOf(nz', rp', ci', r) == RowOf(nz, rp, ci, r))
    && (forall r :: rows <= r < rows' && r != i ==> RowOf(nz', rp', ci', r) == [])
    && var before := if i < rows then RowOf(nz, rp, ci, i) else [];
       && k <= |before| && RowOf(nz', rp', ci', i) == Insert(before, k, Entry(j, v))
       && (forall q :: 0 <= q < k ==> before[q].col < j)
       && (forall q :: k <= q < |before| ==> before[q].col >= j)
  }

  /** Padding with empty rows keeps the old rows and adds empty ones. */
  lemma PaddedRows(nz: seq<real>, rp: seq<nat>, ci: seq<nat>, rows: nat, n: nat)
    requires |rp| == rows + 1 && rp[rows] == |nz| == |ci|
    requires forall a, b :: 0 <= a <= b <= rows ==> rp[a] <= rp[b]
    ensures forall r :: 0 <= r < rows ==> RowOf(nz, rp + Repeat(n, |nz|), ci, r) == RowOf(nz, rp, ci, r)
    ensures forall r :: rows <= r < rows + n ==> RowOf(nz, rp + Repeat(n, |nz|), ci, r) == []
  {
    var rp1 := rp + Repeat(n, |nz|);
    forall r | 0 <= r < rows
      ensures RowOf(nz, rp1, ci, r) == RowOf(nz, rp, ci, r)
    {
      assert rp1[r] == rp[r] && rp1[r + 1] == rp[r + 1];
    }
    forall r | rows <= r < rows + n
      ensures RowOf(nz, rp1, ci, r) == []
    {
      assert rp1[r] == |nz| && rp1[r + 1] == |nz|;
    }
  }

  /** Padding with empty rows and widening, then inserting, is what `ElementAdded` describes. */
  lemma PadThenInsert(rows: nat, cols: nat, nz: seq<real>, rp: seq<nat>, ci: seq<nat>, i: nat, j: nat, v: real,
                      nz': seq<real>, rp': seq<nat>, ci': seq<nat>, k: nat)
    requires CsrValid(rows, cols, nz, rp, ci)
    requires var rows1 := Max(rows, i + 1);
             var rp1 := rp + Repeat(rows1 - rows, |nz|);
             && |nz'| == |nz| + 1
             && (forall r :: 0 <= r < rows1 && r != i ==> RowOf(nz', rp', ci', r) == RowOf(nz, rp1, ci, r))
             && var before := RowOf(nz, rp1, ci, i);
                && k <= |before| && RowOf(nz', rp', ci', i) == Insert(before, k, Entry(j, v))
                && (forall q :: 0 <= q < k ==> before[q].col < j)
                && (forall q :: k <= q < |before| ==> before[q].col >= j)
    ensures ElementAdded(rows, cols, nz, rp, ci, Max(rows, i + 1), Max(cols, j + 1), nz', rp', ci', i, j, v, k)
  {
    PaddedRows(nz, rp, ci, rows, Max(rows, i + 1) - rows);
  }

  /**
   * Inserting an entry in front of every larger column: its column now
   * reads its value, and every other column reads as before.
   */
  lemma {:induction false} LookupInserted(row: seq<Entry>, k: nat, e: Entry, c: nat)
    requires k <= |row| && forall q :: 0 <= q < k ==> row[q].col < e.col
    ensures Lookup(Insert(row, k, e), c) == if c == e.col then e.value else Lookup(row, c)
  {
    var r := Insert(row, k, e);
    if k == 0 {
      assert r[1..] == row;
    } else {
      assert r[1..] == Insert(row[1..], k - 1, e);
      LookupInserted(row[1..], k - 1, e, c);
    }
  }

  /**
   * What `addRow(nzIn, ciIn)` does to a matrix with `rows` rows: the column
   * count rises to cover the new columns; the stored values and columns are
   * extended and the new row pointer is the new count; the earlier rows are
   * unchanged; the new row holds the given entries sorted by column, and
   * exactly as given when they already are.
   */
  ghost predicate RowAppended(rows: nat, cols: nat, nz: seq<real>, rp: seq<nat>, ci: seq<nat>,
                              nzIn: seq<real>, ciIn: seq<nat>,
                              cols': nat, nz': seq<real>, rp': seq<nat>, ci': seq<nat>)
    requires |nzIn| == |ciIn|
  {
    var given := Slice(ciIn, nzIn, 0, |ciIn|);
    && cols' == WidthAfter(cols, ciIn)
    && |nz'| == |nz| + |nzIn| && |ci'| == |ci| + |ciIn| && rp' == rp + [|nz'|]
    && nz'[..|nz|] == nz && ci'[..|ci|] == ci
    && (forall r :: 0 <= r < rows ==> RowOf(nz', rp', ci', r) == RowOf(nz, rp, ci, r))
    && ColsSorted(RowOf(nz', rp', ci', rows)) && multiset(RowOf(nz', rp', ci', rows)) == multiset(given)
    && (ColsSorted(given) ==> RowOf(nz', rp', ci', rows) == given)
  }

  /** `addRow` on the flat arrays: the entries are sorted by column and appended. */
  method AppendRow(rows: nat, cols: nat, nz: seq<real>, rp: seq<nat>, ci: seq<nat>, nzIn: seq<real>, ciIn: seq<nat>)
    returns (cols': nat, nz': seq<real>, rp': seq<nat>, ci': seq<nat>)
    requires CsrValid(rows, cols, nz, rp, ci) && |nzIn| == |ciIn| && |nz| + |nzIn| < kMaxSize
    ensures CsrValid(rows + 1, cols', nz', rp', ci')
    ensures RowAppended(rows, cols, nz, rp, ci, nzIn, ciIn, cols', nz', rp', ci')
  {
    var zipped := Slice(ciIn, nzIn, 0, |ciIn|);
    var sorted := SortEntries(zipped);
    cols' := WidthAfter(cols, ciIn);
    PermutedColumnsBelow(zipped, sorted, cols');
    AppendRowValid(rows, cols, nz, rp, ci, sorted, cols');
    AppendRowRows(rows, cols, nz, rp, ci, sorted, cols');
    nz', rp', ci' := nz + Values(sorted), rp + [|nz| + |sorted|], ci + Columns(sorted);
    assert nz'[..|nz|] == nz && ci'[..|ci|] == ci;
  }

  /** The element-wise scalar operations of the matrix: add, sub, mul, div, rsub, rdiv. */
  datatype ScalarOp = AddScalar | SubScalar | MulScalar | DivScalar | RSubScalar | RDivScalar

  /** Whether `op` with scalar `s` is defined on a stored value `x` (no division by zero). */
  predicate ScalarDefined(op: ScalarOp, s: real, x: real)
  {
    (op == DivScalar ==> s != 0.0) && (op == RDivScalar ==> x != 0.0)
  }

  /** The new value of a stored element under `op` with scalar `s`. */
  function ApplyScalar(op: ScalarOp, s: real, x: real): real
    requires ScalarDefined(op, s, x)
  {
    match op
    case AddScalar => x + s
    case SubScalar => x - s
    case MulScalar => x * s
    case DivScalar => x / s
    case RSubScalar => s - x
    case RDivScalar => s / x
  }

  /** Adding and subtracting the same scalar, or multiplying and dividing by it, are inverse. */
  lemma ScalarRoundTrips(s: real, x: real)
    ensures ApplyScalar(SubScalar, s, ApplyScalar(AddScalar, s, x)) == x
    ensures ApplyScalar(AddScalar, s, ApplyScalar(SubScalar, s, x)) == x
    ensures s != 0.0 ==> ApplyScalar(DivScalar, s, ApplyScalar(MulScalar, s, x)) == x
    ensures ApplyScalar(RSubScalar, s, ApplyScalar(RSubScalar, s, x)) == x
  {
  }

  /** The value a row holds at column `j`: its first entry with that column, else 0. */
  function Lookup(row: seq<Entry>, j: nat): (v: real)
    ensures v != 0.0 ==> exists p :: 0 <= p < |row| && row[p] == Entry(j, v)
  {
    if |row| == 0 then 0.0
    else if row[0].col == j then row[0].value
    else
      var rest := Lookup(row[1..], j);
      assert rest != 0.0 ==> exists p :: 0 <= p < |row[1..]| && row[1..][p] == Entry(j, rest);
      rest
  }

  /** Lookup finds the first entry of a column. */
  lemma {:induction false} LookupFirst(row: seq<Entry>, p: nat)
    requires p < |row| && forall q :: 0 <= q < p ==> row[q].col != row[p].col
    ensures Lookup(row, row[p].col) == row[p].value
  {
    if p > 0 {
      LookupFirst(row[1..], p - 1);
    }
  }

  /** A column the row does not store reads 0. */
  lemma {:induction false} LookupAbsent(row: seq<Entry>, j: nat)
    requires forall q :: 0 <= q < |row| ==> row[q].col != j
    ensures Lookup(row, j) == 0.0
  {
    if |row| > 0 {
      LookupAbsent(row[1..], j);
    }
  }

  /** The kept entries of a dense row read back the row, with the small values read as 0. */
  lemma LookupKept(row: seq<real>, eps: real, j: nat)
    ensures Lookup(Kept(row, eps), j) == if j < |row| && Abs(row[j]) > eps then row[j] else 0.0
  {
    var kept := Kept(row, eps);
    if j < |row| && Abs(row[j]) > eps {
      KeptExactly(row, eps, Entry(j, row[j]));
      var p :| 0 <= p < |kept| && kept[p] == Entry(j, row[j]);
      LookupFirst(kept, p);
    } else {
      forall q | 0 <= q < |kept|
        ensures kept[q].col != j
      {
        KeptExactly(row, eps, kept[q]);
      }
      LookupAbsent(kept, j);
    }
  }

  /** Reading through `FindColumn` over flat positions is a lookup in the row's entries. */
  lemma {:induction false} FindColumnIsLookup(ci: seq<nat>, nz: seq<real>, lo: nat, hi: nat, j: nat)
    requires lo <= hi <= |ci| && |ci| == |nz|
    ensures var p := FindColumn(ci, lo, hi, j); Lookup(Slice(ci, nz, lo, hi), j) == if p == hi then 0.0 else nz[p]
    decreases hi - lo
  {
    if lo < hi {
      assert Slice(ci, nz, lo, hi)[1..] == Slice(ci, nz, lo + 1, hi);
      FindColumnIsLookup(ci, nz, lo + 1, hi, j);
    }
  }

  // ---------------------------------------------------------------- compress

  /**
   * The entries `compress` keeps from one dense row, in column order: those
   * whose magnitude exceeds `eps`.
   */
  function Kept(row: seq<real>, eps: real): (r: seq<Entry>)
    ensures ColsStrict(r)
    ensures forall p :: 0 <= p < |r| ==> r[p].col < |row|
    ensures |r| <= |row|
  {
    if |row| == 0 then []
    else
      var init := Kept(row[..|row| - 1], eps);
      var last := row[|row| - 1];
      init + (if Abs(last) > eps then [Entry(|row| - 1, last)] else [])
  }

  /** An entry is kept exactly when it is a value of the row whose magnitude exceeds `eps`. */
  lemma {:induction false} KeptExactly(row: seq<real>, eps: real, e: Entry)
    ensures e in Kept(row, eps) <==> e.col < |row| && e.value == row[e.col] && Abs(e.value) > eps
  {
    if |row| > 0 {
      var init := row[..|row| - 1];
      KeptExactly(init, eps, e);
      if e.col < |init| {
        assert init[e.col] == row[e.col];
      }
    }
  }

  /** The entries kept from the first `i` rows, concatenated row by row. */
  function KeptRows(lst: seq<seq<real>>, eps: real, i: nat): (r: seq<Entry>)
    requires i <= |lst|
  {
    if i == 0 then [] else KeptRows(lst, eps, i - 1) + Kept(lst[i - 1], eps)
  }

  lemma {:induction false} KeptRowsPrefix(lst: seq<seq<real>>, eps: real, i: nat, n: nat)
    requires i <= n <= |lst|
    ensures KeptRows(lst, eps, i) <= KeptRows(lst, eps, n)
    decreases n - i
  {
    if i < n {
      KeptRowsPrefix(lst, eps, i, n - 1);
    }
  }

  lemma {:induction false} KeptRowsLength(lst: seq<seq<real>>, eps: real, i: nat, width: nat)
    requires i <= |lst| && forall r :: 0 <= r < |lst| ==> |lst[r]| == width
    ensures |KeptRows(lst, eps, i)| <= i * width
  {
    if i > 0 {
      KeptRowsLength(lst, eps, i - 1, width);
      assert i * width == (i - 1) * width + width;
    }
  }

  /** Row `r` of the concatenation sits between the lengths of the first `r` and `r + 1` rows. */
  lemma KeptRowsRow(lst: seq<seq<real>>, eps: real, r: nat, n: nat)
    requires r < n <= |lst|
    ensures |KeptRows(lst, eps, r)| <= |KeptRows(lst, eps, r + 1)| <= |KeptRows(lst, eps, n)|
    ensures KeptRows(lst, eps, n)[|KeptRows(lst, eps, r)|..|KeptRows(lst, eps, r + 1)|] == Kept(lst[r], eps)
  {
    KeptRowsPrefix(lst, eps, r + 1, n);
    var whole := KeptRows(lst, eps, n);
    var upto := KeptRows(lst, eps, r + 1);
    assert upto == KeptRows(lst, eps, r) + Kept(lst[r], eps);
    assert whole[..|upto|] == upto;
  }

  /** The arrays `compress` builds satisfy the CSR invariant. */
  lemma CompressedIsValid(lst: seq<seq<real>>, eps: real, nz: seq<real>, rp: seq<nat>, ci: seq<nat>)
    requires Rectangular(lst)
    requires |lst| > 0 ==> |lst| * |lst[0]| < kMaxSize
    requires |rp| == |lst| + 1 && |ci| == |nz|
    requires forall r :: 0 <= r <= |lst| ==> rp[r] == |KeptRows(lst, eps, r)|
    requires KeptRows(lst, eps, |lst|) == Slice(ci, nz, 0, |ci|)
    ensures CsrValid(|lst|, if |lst| > 0 then |lst[0]| else 0, nz, rp, ci)
  {
    var n := |lst|;
    KeptRowsLength(lst, eps, n, if n > 0 then |lst[0]| else 0);
    forall a, b | 0 <= a <= b <= n
      ensures rp[a] <= rp[b]
    {
      KeptRowsPrefix(lst, eps, a, b);
    }
    assert Pointers(n, nz, rp, ci);
    CompressedSorted(lst, eps, nz, rp, ci);
    CompressedBelow(lst, eps, nz, rp, ci);
  }

  lemma CompressedSorted(lst: seq<seq<real>>, eps: real, nz: seq<real>, rp: seq<nat>, ci: seq<nat>)
    requires Pointers(|lst|, nz, rp, ci)
    requires forall r :: 0 <= r <= |lst| ==> rp[r] == |KeptRows(lst, eps, r)|
    requires KeptRows(lst, eps, |lst|) == Slice(ci, nz, 0, |ci|)
    ensures forall i :: 0 <= i < |lst| ==> RowSorted(rp, ci, i)
  {
    forall i | 0 <= i < |lst|
      ensures RowSorted(rp, ci, i)
    {
      CompressedRowSorted(lst, eps, nz, rp, ci, i);
    }
  }

  /** Row `i` of the compressed arrays holds the kept entries of `lst[i]`, whose columns increase. */
  lemma CompressedRowSorted(lst: seq<seq<real>>, eps: real, nz: seq<real>, rp: seq<nat>, ci: seq<nat>, i: nat)
    requires |ci| == |nz| && |rp| == |lst| + 1 && i < |lst|
    requires rp[i] == |KeptRows(lst, eps, i)| && rp[i + 1] == |KeptRows(lst, eps, i + 1)|
    requires KeptRows(lst, eps, |lst|) == Slice(ci, nz, 0, |ci|)
    ensures RowSorted(rp, ci, i)
  {
    var whole := KeptRows(lst, eps, |lst|);
    KeptRowsRow(lst, eps, i, |lst|);
    var row, lo, hi := Kept(lst[i], eps), rp[i], rp[i + 1];
    forall p, q | lo <= p <= q < hi && q < |ci|
      ensures ci[p] <= ci[q]
    {
      ColumnsWithinRun(whole, row, lo, hi, p, q);
    }
  }

  lemma ColumnsWithinRun(whole: seq<Entry>, row: seq<Entry>, lo: nat, hi: nat, p: nat, q: nat)
    requires lo <= p <= q < hi <= |whole| && whole[lo..hi] == row && ColsStrict(row)
    ensures whole[p].col <= whole[q].col
  {
    assert whole[p] == row[p - lo] && whole[q] == row[q - lo];
  }

  lemma CompressedBelow(lst: seq<seq<real>>, eps: real, nz: seq<real>, rp: seq<nat>, ci: seq<nat>)
    requires Rectangular(lst)
    requires Pointers(|lst|, nz, rp, ci)
    requires forall r :: 0 <= r <= |lst| ==> rp[r] == |KeptRows(lst, eps, r)|
    requires KeptRows(lst, eps, |lst|) == Slice(ci, nz, 0, |ci|)
    ensures forall p :: 0 <= p < |ci| ==> ci[p] < if |lst| > 0 then |lst[0]| else 0
  {
    var n := |lst|;
    var whole := KeptRows(lst, eps, n);
    forall p | 0 <= p < |ci|
      ensures ci[p] < |lst[0]|
    {
      var r := RowOfPosition(lst, eps, p, n);
      KeptRowsRow(lst, eps, r, n);
      ColumnWithinRow(whole, Kept(lst[r], eps), rp[r], rp[r + 1], p, |lst[r]|);
      assert ci[p] == whole[p].col && |lst[r]| == |lst[0]|;
    }
  }

  lemma ColumnWithinRow(whole: seq<Entry>, row: seq<Entry>, lo: nat, hi: nat, p: nat, width: nat)
    requires lo <= p < hi <= |whole| && whole[lo..hi] == row
    requires forall k :: 0 <= k < |row| ==> row[k].col < width
    ensures whole[p].col < width
  {
    assert whole[p] == row[p - lo];
  }

  /** The row whose kept entries contain flat position `p`. */
  lemma {:induction false} RowOfPosition(lst: seq<seq<real>>, eps: real, p: nat, n: nat) returns (r: nat)
    requires n <= |lst| && p < |KeptRows(lst, eps, n)|
    ensures r < n && |KeptRows(lst, eps, r)| <= p < |KeptRows(lst, eps, r + 1)|
  {
    if p < |KeptRows(lst, eps, n - 1)| {
      r := RowOfPosition(lst, eps, p, n - 1);
    } else {
      r := n - 1;
    }
  }

  /** Appends the entries of `row` that `compress` keeps to the flat arrays. */
  method AppendKept(row: seq<real>, eps: real, nz: seq<real>, ci: seq<nat>) returns (nz': seq<real>, ci': seq<nat>)
    requires |nz| == |ci|
    ensures |nz'| == |ci'|
    ensures Slice(ci', nz', 0, |ci'|) == Slice(ci, nz, 0, |ci|) + Kept(row, eps)
  {
    nz', ci' := nz, ci;
    var j := 0;
    while j < |row|
      invariant 0 <= j <= |row| && |nz'| == |ci'|
      invariant Slice(ci', nz', 0, |ci'|) == Slice(ci, nz, 0, |ci|) + Kept(row[..j], eps)
    {
      KeptPrefixStep(row, eps, j);
      if Abs(row[j]) > eps {
        SliceSnoc(ci', nz', j, row[j]);
        nz', ci' := nz' + [row[j]], ci' + [j];
      }
      j := j + 1;
    }
    assert row[..|row|] == row;
  }

  /** One more position of the row keeps one more entry exactly when its magnitude exceeds `eps`. */
  lemma KeptPrefixStep(row: seq<real>, eps: real, j: nat)
    requires j < |row|
    ensures Kept(row[..j + 1], eps) == Kept(row[..j], eps) + (if Abs(row[j]) > eps then [Entry(j, row[j])] else [])
  {
    assert row[..j + 1][..j] == row[..j];
  }

  /** The kept entries of every row, with the start position of each row. */
  method FillRows(lst: seq<seq<real>>, eps: real) returns (nz: seq<real>, starts: seq<nat>, ci: seq<nat>)
    ensures |starts| == |lst| && |nz| == |ci|
    ensures forall r :: 0 <= r < |lst| ==> starts[r] == |KeptRows(lst, eps, r)|
    ensures Slice(ci, nz, 0, |ci|) == KeptRows(lst, eps, |lst|)
  {
    nz, starts, ci := [], [], [];
    var i := 0;
    while i < |lst|
      invariant 0 <= i <= |lst|
      invariant |starts| == i && |nz| == |ci|
      invariant forall r :: 0 <= r < i ==> starts[r] == |KeptRows(lst, eps, r)|
      invariant Slice(ci, nz, 0, |ci|) == KeptRows(lst, eps, i)
    {
      nz, starts, ci := FillRow(lst, eps, i, nz, starts, ci);
      i := i + 1;
    }
  }

  /** One pass of the `compress` loop: row `i` starts at the current count and its kept entries follow. */
  method FillRow(lst: seq<seq<real>>, eps: real, i: nat, nz: seq<real>, starts: seq<nat>, ci: seq<nat>)
    returns (nz': seq<real>, starts': seq<nat>, ci': seq<nat>)
    requires i < |lst| && |starts| == i && |nz| == |ci|
    requires forall r :: 0 <= r < i ==> starts[r] == |KeptRows(lst, eps, r)|
    requires Slice(ci, nz, 0, |ci|) == KeptRows(lst, eps, i)
    ensures |starts'| == i + 1 && |nz'| == |ci'|
    ensures forall r :: 0 <= r < i + 1 ==> starts'[r] == |KeptRows(lst, eps, r)|
    ensures Slice(ci', nz', 0, |ci'|) == KeptRows(lst, eps, i + 1)
  {
    assert |nz| == |KeptRows(lst, eps, i)|;
    starts' := starts + [|nz|];
    nz', ci' := AppendKept(lst[i], eps, nz, ci);
    assert KeptRows(lst, eps, i + 1) == KeptRows(lst, eps, i) + Kept(lst[i], eps);
  }

  /** The flat arrays `compress` fills, row by row, closed by the total count. */
  method CompressArrays(lst: seq<seq<real>>, eps: real) returns (nz: seq<real>, rp: seq<nat>, ci: seq<nat>)
    requires Rectangular(lst)
    requires |lst| > 0 ==> |lst| * |lst[0]| < kMaxSize
    ensures CsrValid(|lst|, if |lst| > 0 then |lst[0]| else 0, nz, rp, ci)
    ensures forall r :: 0 <= r <= |lst| ==> rp[r] == |KeptRows(lst, eps, r)|
    ensures Slice(ci, nz, 0, |ci|) == KeptRows(lst, eps, |lst|)
  {
    var starts;
    nz, starts, ci := FillRows(lst, eps);
    rp := starts + [|nz|];
    assert rp[|lst|] == |Slice(ci, nz, 0, |ci|)|;
    assert forall r :: 0 <= r < |lst| ==> rp[r] == starts[r];
    CompressedIsValid(lst, eps, nz, rp, ci);
  }

  /** Every row of the nested list has the length of the first. */
  predicate Rectangular(lst: seq<seq<real>>)
  {
    forall r :: 0 <= r < |lst| ==> |lst[r]| == |lst[0]|
  }

  // ---------------------------------------------------------------- binaryOp

  /** The two element-wise matrix operations built on `binaryOp`: `add` and `sub`. */
  datatype BinaryOpKind = Plus | Minus

  function Combine(op: BinaryOpKind, x: real, y: real): real
  {
    match op
    case Plus => x + y
    case Minus => x - y
  }

  /** What one step of the two-pointer merge consumes: A's entry, B's entry, or both. */
  datatype Choice = TakeA | TakeB | TakeBoth

  /**
   * One step of the merge over flat positions `pa .. endA - 1` of A and
   * `pb .. endB - 1` of B: the smaller column goes first, equal columns go
   * together, and an exhausted row is never read.
   */
  function MergeStep(ciA: seq<nat>, pa: nat, endA: nat, ciB: seq<nat>, pb: nat, endB: nat): (c: Choice)
    requires pa <= endA <= |ciA| && pb <= endB <= |ciB| && (pa < endA || pb < endB)
    ensures c != TakeB ==> pa < endA
    ensures c != TakeA ==> pb < endB
    ensures c == TakeBoth ==> ciA[pa] == ciB[pb]
  {
    if pb == endB || (pa < endA && ciA[pa] < ciB[pb]) then TakeA
    else if pa == endA || ciA[pa] > ciB[pb] then TakeB
    else TakeBoth
  }

  /**
   * The merge step as `binaryOp` writes it: its first test compares A's
   * current column even when A's row is exhausted (`pa == endA`), where it
   * reads `ciA[endA]`, the first column of A's next row.
   */
  function MergeStepAsWritten(ciA: seq<nat>, pa: nat, endA: nat, ciB: seq<nat>, pb: nat, endB: nat): (c: Choice)
    requires pa <= endA && pa < |ciA| && pb <= endB <= |ciB| && (pa < endA || pb < endB)
    ensures c != TakeA ==> pb < endB
    ensures c == TakeA ==> pb == endB || ciA[pa] < ciB[pb]
    ensures c == TakeBoth ==> ciA[pa] == ciB[pb]
  {
    if pb == endB || ciA[pa] < ciB[pb] then TakeA
    else if pa == endA || ciA[pa] > ciB[pb] then TakeB
    else TakeBoth
  }

  /**
   * Row 0 of A is empty and row 1 stores column 0; row 0 of B stores column 1.
   * As written the merge of row 0 takes from A's exhausted row (and so
   * copies A's next-row entry and runs past the row end); the merge should take B.
   */
  lemma MergeStepReadsPastRow()
    ensures MergeStepAsWritten([0], 0, 0, [1], 0, 1) == TakeA
    ensures MergeStep([0], 0, 0, [1], 0, 1) == TakeB
  {
  }

  /** While A's row is not exhausted, the step as written and the corrected step agree. */
  lemma MergeStepAgreesInsideRow(ciA: seq<nat>, pa: nat, endA: nat, ciB: seq<nat>, pb: nat, endB: nat)
    requires pa < endA <= |ciA| && pb <= endB <= |ciB|
    ensures MergeStepAsWritten(ciA, pa, endA, ciB, pb, endB) == MergeStep(ciA, pa, endA, ciB, pb, endB)
  {
  }

  /**
   * The row `binaryOp` builds from rows `a` and `b`: walking both from the
   * front, the smaller column is taken with the other side read as 0, and
   * equal columns are combined.
   */
  function Merge(a: seq<Entry>, b: seq<Entry>, op: BinaryOpKind): (r: seq<Entry>)
    ensures |r| <= |a| + |b|
    decreases |a| + |b|
  {
    if |a| == 0 && |b| == 0 then []
    else if |b| == 0 || (|a| > 0 && a[0].col < b[0].col) then
      [Entry(a[0].col, Combine(op, a[0].value, 0.0))] + Merge(a[1..], b, op)
    else if |a| == 0 || a[0].col > b[0].col then
      [Entry(b[0].col, Combine(op, 0.0, b[0].value))] + Merge(a, b[1..], op)
    else
      [Entry(a[0].col, Combine(op, a[0].value, b[0].value))] + Merge(a[1..], b[1..], op)
  }

  /** The set of columns a row stores. */
  function ColumnSet(row: seq<Entry>): set<nat>
  {
    set p | 0 <= p < |row| :: row[p].col
  }

  lemma ColumnSetCons(row: seq<Entry>)
    requires |row| > 0
    ensures ColumnSet(row) == {row[0].col} + ColumnSet(row[1..])
  {
    forall c | c in ColumnSet(row)
      ensures c in {row[0].col} + ColumnSet(row[1..])
    {
      var p :| 0 <= p < |row| && row[p].col == c;
      if p > 0 {
        assert row[1..][p - 1].col == c;
      }
    }
    forall c | c in ColumnSet(row[1..])
      ensures c in ColumnSet(row)
    {
      var p :| 0 <= p < |row[1..]| && row[1..][p].col == c;
      assert row[p + 1].col == c;
    }
  }

  /** The merged row stores exactly the union of both rows' columns. */
  lemma {:induction false} MergeColumns(a: seq<Entry>, b: seq<Entry>, op: BinaryOpKind)
    ensures ColumnSet(Merge(a, b, op)) == ColumnSet(a) + ColumnSet(b)
    decreases |a| + |b|
  {
    var r := Merge(a, b, op);
    if |a| == 0 && |b| == 0 {
    } else if |b| == 0 || (|a| > 0 && a[0].col < b[0].col) {
      MergeColumns(a[1..], b, op);
      ColumnSetCons(a);
      ColumnSetCons(r);
      assert r[1..] == Merge(a[1..], b, op);
    } else if |a| == 0 || a[0].col > b[0].col {
      MergeColumns(a, b[1..], op);
      ColumnSetCons(b);
      ColumnSetCons(r);
      assert r[1..] == Merge(a, b[1..], op);
    } else {
      MergeColumns(a[1..], b[1..], op);
      ColumnSetCons(a);
      ColumnSetCons(b);
      ColumnSetCons(r);
      assert r[1..] == Merge(a[1..], b[1..], op);
    }
  }

  /** Every column of the merged row is below any bound both rows keep. */
  lemma MergeBelow(a: seq<Entry>, b: seq<Entry>, op: BinaryOpKind, bound: nat)
    requires forall p :: 0 <= p < |a| ==> a[p].col < bound
    requires forall p :: 0 <= p < |b| ==> b[p].col < bound
    ensures forall p :: 0 <= p < |Merge(a, b, op)| ==> Merge(a, b, op)[p].col < bound
  {
    var r := Merge(a, b, op);
    MergeColumns(a, b, op);
    forall p | 0 <= p < |r|
      ensures r[p].col < bound
    {
      assert r[p].col in ColumnSet(r);
    }
  }

  /** Every column of the row is at least `c`. */
  predicate ColsAtLeast(row: seq<Entry>, c: nat)
  {
    forall p :: 0 <= p < |row| ==> c <= row[p].col
  }

  /** Every column of the row is above `c`. */
  predicate ColsAbove(row: seq<Entry>, c: nat)
  {
    forall p :: 0 <= p < |row| ==> c < row[p].col
  }

  /** The merge keeps any lower bound both rows keep. */
  lemma MergeAtLeast(a: seq<Entry>, b: seq<Entry>, op: BinaryOpKind, c: nat)
    ensures ColsAtLeast(a, c) && ColsAtLeast(b, c) ==> ColsAtLeast(Merge(a, b, op), c)
    ensures ColsAbove(a, c) && ColsAbove(b, c) ==> ColsAbove(Merge(a, b, op), c)
  {
    var r := Merge(a, b, op);
    MergeColumns(a, b, op);
    forall q | 0 <= q < |r|
      ensures r[q].col in ColumnSet(a) + ColumnSet(b)
    {
      assert r[q].col in ColumnSet(r);
    }
  }

  /** The step of the merge that consumes `a'` and `b'` after emitting `e`, where `a'`, `b'` lie at or above `e`'s column. */
  lemma ConsSorted(e: Entry, rest: seq<Entry>)
    ensures ColsSorted(rest) && ColsAtLeast(rest, e.col) ==> ColsSorted([e] + rest)
    ensures ColsStrict(rest) && ColsAbove(rest, e.col) ==> ColsStrict([e] + rest)
  {
    var r := [e] + rest;
    assert forall q :: 1 <= q < |r| ==> r[q] == rest[q - 1];
  }

  /** The tail of a column-sorted row lies at or above its head; strictly above for a strictly sorted row. */
  lemma TailAbove(a: seq<Entry>)
    requires |a| > 0
    ensures ColsSorted(a) ==> ColsSorted(a[1..]) && ColsAtLeast(a[1..], a[0].col) && ColsAtLeast(a, a[0].col)
    ensures ColsStrict(a) ==> ColsStrict(a[1..]) && ColsAbove(a[1..], a[0].col)
  {
    assert forall q :: 0 <= q < |a[1..]| ==> a[1..][q] == a[q + 1];
  }

  /** Merging two column-sorted rows gives a column-sorted row; strictly sorted rows give a strictly sorted one. */
  lemma {:induction false} MergeSorted(a: seq<Entry>, b: seq<Entry>, op: BinaryOpKind)
    requires ColsSorted(a) && ColsSorted(b)
    ensures ColsSorted(Merge(a, b, op))
    ensures ColsStrict(a) && ColsStrict(b) ==> ColsStrict(Merge(a, b, op))
    decreases |a| + |b|
  {
    var r := Merge(a, b, op);
    if |a| == 0 && |b| == 0 {
    } else if |b| == 0 || (|a| > 0 && a[0].col < b[0].col) {
      TailAbove(a);
      if |b| > 0 {
        TailAbove(b);
        assert ColsAbove(b, a[0].col);
      }
      MergeSorted(a[1..], b, op);
      MergeAtLeast(a[1..], b, op, a[0].col);
      ConsSorted(r[0], Merge(a[1..], b, op));
    } else if |a| == 0 || a[0].col > b[0].col {
      TailAbove(b);
      if |a| > 0 {
        TailAbove(a);
        assert ColsAbove(a, b[0].col);
      }
      MergeSorted(a, b[1..], op);
      MergeAtLeast(a, b[1..], op, b[0].col);
      ConsSorted(r[0], Merge(a, b[1..], op));
    } else {
      TailAbove(a);
      TailAbove(b);
      MergeSorted(a[1..], b[1..], op);
      MergeAtLeast(a[1..], b[1..], op, a[0].col);
      ConsSorted(r[0], Merge(a[1..], b[1..], op));
    }
  }

  /**
   * For column-sorted rows, each column of the merged row reads `op` of the
   * two rows' values there, a missing entry read as 0.
   */
  lemma {:induction false} MergeLookup(a: seq<Entry>, b: seq<Entry>, op: BinaryOpKind, c: nat)
    requires ColsSorted(a) && ColsSorted(b)
    ensures Lookup(Merge(a, b, op), c) == Combine(op, Lookup(a, c), Lookup(b, c))
    decreases |a| + |b|
  {
    var r := Merge(a, b, op);
    if |a| == 0 && |b| == 0 {
    } else if |b| == 0 || (|a| > 0 && a[0].col < b[0].col) {
      assert r[1..] == Merge(a[1..], b, op);
      if a[0].col == c {
        LookupAbsent(b, c);
      } else {
        MergeLookup(a[1..], b, op, c);
      }
    } else if |a| == 0 || a[0].col > b[0].col {
      assert r[1..] == Merge(a, b[1..], op);
      if b[0].col == c {
        LookupAbsent(a, c);
      } else {
        MergeLookup(a, b[1..], op, c);
      }
    } else {
      assert r[1..] == Merge(a[1..], b[1..], op);
      if a[0].col != c {
        MergeLookup(a[1..], b[1..], op, c);
      }
    }
  }

  /** Appending one position to the flat arrays appends one entry to their slice. */
  lemma SliceSnoc(ci: seq<nat>, nz: seq<real>, c: nat, v: real)
    requires |ci| == |nz|
    ensures Slice(ci + [c], nz + [v], 0, |ci| + 1) == Slice(ci, nz, 0, |ci|) + [Entry(c, v)]
  {
  }

  /** Dropping the first position of a non-empty range drops the first entry of its slice. */
  lemma SliceTail(ci: seq<nat>, nz: seq<real>, lo: nat, hi: nat)
    requires lo < hi <= |ci| && |ci| == |nz|
    ensures Slice(ci, nz, lo, hi)[0] == Entry(ci[lo], nz[lo])
    ensures Slice(ci, nz, lo, hi)[1..] == Slice(ci, nz, lo + 1, hi)
  {
  }

  /** The flat ranges `pa .. endA - 1` of A and `pb .. endB - 1` of B. */
  predicate MergeRanges(ciA: seq<nat>, nzA: seq<real>, pa: nat, endA: nat, ciB: seq<nat>, nzB: seq<real>, pb: nat, endB: nat)
  {
    pa <= endA <= |ciA| == |nzA| && pb <= endB <= |ciB| == |nzB|
  }

  /** A step that takes A's entry emits it combined with 0 and moves on in A. */
  lemma MergeTakesA(ciA: seq<nat>, nzA: seq<real>, pa: nat, endA: nat, ciB: seq<nat>, nzB: seq<real>, pb: nat, endB: nat, op: BinaryOpKind)
    requires MergeRanges(ciA, nzA, pa, endA, ciB, nzB, pb, endB) && (pa < endA || pb < endB)
    requires MergeStep(ciA, pa, endA, ciB, pb, endB) == TakeA
    ensures Merge(Slice(ciA, nzA, pa, endA), Slice(ciB, nzB, pb, endB), op)
            == [Entry(ciA[pa], Combine(op, nzA[pa], 0.0))] + Merge(Slice(ciA, nzA, pa + 1, endA), Slice(ciB, nzB, pb, endB), op)
  {
    SliceTail(ciA, nzA, pa, endA);
    if pb < endB {
      SliceTail(ciB, nzB, pb, endB);
    }
  }

  /** A step that takes B's entry emits it combined with 0 and moves on in B. */
  lemma MergeTakesB(ciA: seq<nat>, nzA: seq<real>, pa: nat, endA: nat, ciB: seq<nat>, nzB: seq<real>, pb: nat, endB: nat, op: BinaryOpKind)
    requires MergeRanges(ciA, nzA, pa, endA, ciB, nzB, pb, endB) && (pa < endA || pb < endB)
    requires MergeStep(ciA, pa, endA, ciB, pb, endB) == TakeB
    ensures Merge(Slice(ciA, nzA, pa, endA), Slice(ciB, nzB, pb, endB), op)
            == [Entry(ciB[pb], Combine(op, 0.0, nzB[pb]))] + Merge(Slice(ciA, nzA, pa, endA), Slice(ciB, nzB, pb + 1, endB), op)
  {
    SliceTail(ciB, nzB, pb, endB);
    if pa < endA {
      SliceTail(ciA, nzA, pa, endA);
    }
  }

  /** A step on equal columns emits both values combined and moves on in both rows. */
  lemma MergeTakesBoth(ciA: seq<nat>, nzA: seq<real>, pa: nat, endA: nat, ciB: seq<nat>, nzB: seq<real>, pb: nat, endB: nat, op: BinaryOpKind)
    requires MergeRanges(ciA, nzA, pa, endA, ciB, nzB, pb, endB) && (pa < endA || pb < endB)
    requires MergeStep(ciA, pa, endA, ciB, pb, endB) == TakeBoth
    ensures Merge(Slice(ciA, nzA, pa, endA), Slice(ciB, nzB, pb, endB), op)
            == [Entry(ciB[pb], Combine(op, nzA[pa], nzB[pb]))] + Merge(Slice(ciA, nzA, pa + 1, endA), Slice(ciB, nzB, pb + 1, endB), op)
  {
    SliceTail(ciA, nzA, pa, endA);
    SliceTail(ciB, nzB, pb, endB);
  }

  /** Moving the next merged entry from the rest of the merge to the part already built. */
  lemma MergeProgress(col: seq<nat>, nnz: seq<real>, c: nat, v: real, rest': seq<Entry>, target: seq<Entry>)
    requires |col| == |nnz|
    requires Slice(col, nnz, 0, |col|) + ([Entry(c, v)] + rest') == target
    ensures Slice(col + [c], nnz + [v], 0, |col| + 1) + rest' == target
  {
    SliceSnoc(col, nnz, c, v);
    assert Slice(col, nnz, 0, |col|) + ([Entry(c, v)] + rest') == (Slice(col, nnz, 0, |col|) + [Entry(c, v)]) + rest';
  }

  /**
   * The body of the merge loop: one step, the column and value it emits and
   * the positions after it.
   */
  method NextMerged(ciA: seq<nat>, nzA: seq<real>, pa: nat, endA: nat, ciB: seq<nat>, nzB: seq<real>, pb: nat, endB: nat, op: BinaryOpKind)
    returns (c: nat, v: real, pa': nat, pb': nat)
    requires MergeRanges(ciA, nzA, pa, endA, ciB, nzB, pb, endB) && (pa < endA || pb < endB)
    ensures MergeRanges(ciA, nzA, pa', endA, ciB, nzB, pb', endB) && pa <= pa' && pb <= pb' && pa + pb < pa' + pb'
    ensures Merge(Slice(ciA, nzA, pa, endA), Slice(ciB, nzB, pb, endB), op)
            == [Entry(c, v)] + Merge(Slice(ciA, nzA, pa', endA), Slice(ciB, nzB, pb', endB), op)
  {
    match MergeStep(ciA, pa, endA, ciB, pb, endB) {
      case TakeA =>
        MergeTakesA(ciA, nzA, pa, endA, ciB, nzB, pb, endB, op);
        c, v, pa', pb' := ciA[pa], Combine(op, nzA[pa], 0.0), pa + 1, pb;
      case TakeB =>
        MergeTakesB(ciA, nzA, pa, endA, ciB, nzB, pb, endB, op);
        c, v, pa', pb' := ciB[pb], Combine(op, 0.0, nzB[pb]), pa, pb + 1;
      case TakeBoth =>
        MergeTakesBoth(ciA, nzA, pa, endA, ciB, nzB, pb, endB, op);
        c, v, pa', pb' := ciB[pb], Combine(op, nzA[pa], nzB[pb]), pa + 1, pb + 1;
    }
  }

  /** One pass of the merge loop: the entry it emits moves from the rest of the merge to the output. */
  method MergeOne(ciA: seq<nat>, nzA: seq<real>, endA: nat, ciB: seq<nat>, nzB: seq<real>, endB: nat, op: BinaryOpKind,
                  col: seq<nat>, nnz: seq<real>, pa: nat, pb: nat, ghost target: seq<Entry>)
    returns (col': seq<nat>, nnz': seq<real>, pa': nat, pb': nat)
    requires MergeRanges(ciA, nzA, pa, endA, ciB, nzB, pb, endB) && (pa < endA || pb < endB) && |col| == |nnz|
    requires Slice(col, nnz, 0, |col|) + Merge(Slice(ciA, nzA, pa, endA), Slice(ciB, nzB, pb, endB), op) == target
    ensures MergeRanges(ciA, nzA, pa', endA, ciB, nzB, pb', endB) && pa <= pa' && pb <= pb' && pa + pb < pa' + pb'
    ensures |col'| == |nnz'|
    ensures Slice(col', nnz', 0, |col'|) + Merge(Slice(ciA, nzA, pa', endA), Slice(ciB, nzB, pb', endB), op) == target
  {
    var c, v;
    c, v, pa', pb' := NextMerged(ciA, nzA, pa, endA, ciB, nzB, pb, endB, op);
    MergeProgress(col, nnz, c, v, Merge(Slice(ciA, nzA, pa', endA), Slice(ciB, nzB, pb', endB), op), target);
    col', nnz' := col + [c], nnz + [v];
  }

  /**
   * The inner loop of `binaryOp` for one row, with the corrected step: the
   * columns and values it collects are the merge of the two rows.
   */
  method MergeRow(ciA: seq<nat>, nzA: seq<real>, loA: nat, endA: nat,
                  ciB: seq<nat>, nzB: seq<real>, loB: nat, endB: nat, op: BinaryOpKind)
    returns (col: seq<nat>, nnz: seq<real>)
    requires MergeRanges(ciA, nzA, loA, endA, ciB, nzB, loB, endB)
    ensures |col| == |nnz|
    ensures Slice(col, nnz, 0, |col|) == Merge(Slice(ciA, nzA, loA, endA), Slice(ciB, nzB, loB, endB), op)
  {
    ghost var target := Merge(Slice(ciA, nzA, loA, endA), Slice(ciB, nzB, loB, endB), op);
    col, nnz := [], [];
    var pa: nat, pb: nat := loA, loB;
    while pa != endA || pb != endB
      invariant MergeRanges(ciA, nzA, pa, endA, ciB, nzB, pb, endB) && loA <= pa && loB <= pb && |col| == |nnz|
      invariant Slice(col, nnz, 0, |col|) + Merge(Slice(ciA, nzA, pa, endA), Slice(ciB, nzB, pb, endB), op) == target
      decreases endA - pa + endB - pb
    {
      col, nnz, pa, pb := MergeOne(ciA, nzA, endA, ciB, nzB, endB, op, col, nnz, pa, pb, target);
    }
  }

  /** A valid matrix stores each row sorted by column. */
  lemma RowIsSorted(rows: nat, cols: nat, nz: seq<real>, rp: seq<nat>, ci: seq<nat>, i: nat)
    requires CsrValid(rows, cols, nz, rp, ci) && i < rows
    ensures ColsSorted(RowOf(nz, rp, ci, i))
    ensures forall p :: 0 <= p < |RowOf(nz, rp, ci, i)| ==> RowOf(nz, rp, ci, i)[p].col < cols
    ensures |RowOf(nz, rp, ci, i)| == rp[i + 1] - rp[i]
  {
    assert rp[i] <= rp[i + 1] <= rp[rows];
    assert RowSorted(rp, ci, i);
    var row := RowOf(nz, rp, ci, i);
    forall p, q | 0 <= p <= q < |row|
      ensures row[p].col <= row[q].col
    {
      assert row[p].col == ci[rp[i] + p] && row[q].col == ci[rp[i] + q];
    }
  }

  /** The merge of row `r` of A with row `r` of B. */
  ghost function MergedRow(nzA: seq<real>, rpA: seq<nat>, ciA: seq<nat>,
                           nzB: seq<real>, rpB: seq<nat>, ciB: seq<nat>, op: BinaryOpKind, r: nat): seq<Entry>
  {
    Merge(RowOf(nzA, rpA, ciA, r), RowOf(nzB, rpB, ciB, r), op)
  }

  /**
   * One pass of the row loop of `binaryOp`: row `i` of A and B merged and
   * appended with `addRow` to the `i` rows built so far.
   */
  method AppendMergedRow(i: nat, rows: nat, cols: nat, width: nat, nz: seq<real>, rp: seq<nat>, ci: seq<nat>,
                         nzA: seq<real>, rpA: seq<nat>, ciA: seq<nat>,
                         nzB: seq<real>, rpB: seq<nat>, ciB: seq<nat>, op: BinaryOpKind)
    returns (width': nat, nz': seq<real>, rp': seq<nat>, ci': seq<nat>)
    requires CsrValid(rows, cols, nzA, rpA, ciA) && CsrValid(rows, cols, nzB, rpB, ciB)
    requires |nzA| + |nzB| < kMaxSize && i < rows
    requires CsrValid(i, width, nz, rp, ci) && width <= cols && |nz| <= rpA[i] + rpB[i]
    ensures CsrValid(i + 1, width', nz', rp', ci') && width' <= cols && |nz'| <= rpA[i + 1] + rpB[i + 1]
    ensures |nz| <= |nz'| && (|nz'| == 0 ==> width' == width)
    ensures |ci| <= |ci'| && ci'[..|ci|] == ci
    ensures width' == width || exists p :: |ci| <= p < |ci'| && width' == ci'[p] + 1
    ensures forall r :: 0 <= r < i ==> RowOf(nz', rp', ci', r) == RowOf(nz, rp, ci, r)
    ensures RowOf(nz', rp', ci', i) == MergedRow(nzA, rpA, ciA, nzB, rpB, ciB, op, i)
  {
    RowIsSorted(rows, cols, nzA, rpA, ciA, i);
    RowIsSorted(rows, cols, nzB, rpB, ciB, i);
    assert rpA[i + 1] <= rpA[rows] && rpB[i + 1] <= rpB[rows];
    var col, nnz := MergeRow(ciA, nzA, rpA[i], rpA[i + 1], ciB, nzB, rpB[i], rpB[i + 1], op);
    ghost var merged := MergedRow(nzA, rpA, ciA, nzB, rpB, ciB, op, i);
    MergeSorted(RowOf(nzA, rpA, ciA, i), RowOf(nzB, rpB, ciB, i), op);
    MergeBelow(RowOf(nzA, rpA, ciA, i), RowOf(nzB, rpB, ciB, i), op, cols);
    assert forall p :: 0 <= p < |col| ==> col[p] == merged[p].col;
    width', nz', rp', ci' := AppendRow(i, width, nz, rp, ci, nnz, col);
    NewWidthIsStored(width, col, nz', rp', ci', i, |ci|, merged);
  }

  /**
   * After `addRow` appends the columns `col` as row `i` from flat position
   * `lo` on, the new column count is the old one or one of those columns + 1.
   */
  lemma NewWidthIsStored(width: nat, col: seq<nat>, nz: seq<real>, rp: seq<nat>, ci: seq<nat>, i: nat, lo: nat, row: seq<Entry>)
    requires i + 1 < |rp| && rp[i] == lo && rp[i + 1] == |ci| && lo <= |ci| == |nz|
    requires RowOf(nz, rp, ci, i) == row && |row| == |col|
    requires forall p :: 0 <= p < |col| ==> col[p] == row[p].col
    ensures WidthAfter(width, col) == width || exists p :: lo <= p < |ci| && WidthAfter(width, col) == ci[p] + 1
  {
    var w := WidthAfter(width, col);
    if w != width {
      var q :| 0 <= q < |col| && w == col[q] + 1;
      assert row == Slice(ci, nz, lo, |ci|);
      assert ci[lo + q] == col[q];
    }
  }

  /**
   * The row loop of `binaryOp` on the flat arrays of A and B: row by row,
   * the merge is appended with `addRow` to an initially cleared matrix.
   * `width` is the column count those `addRow` calls leave behind: as written,
   * the result's column count. It is the largest stored column + 1, and 0
   * whenever nothing is stored.
   */
  method MergeArrays(rows: nat, cols: nat, nzA: seq<real>, rpA: seq<nat>, ciA: seq<nat>,
                     nzB: seq<real>, rpB: seq<nat>, ciB: seq<nat>, op: BinaryOpKind)
    returns (width: nat, nz: seq<real>, rp: seq<nat>, ci: seq<nat>)
    requires CsrValid(rows, cols, nzA, rpA, ciA) && CsrValid(rows, cols, nzB, rpB, ciB)
    requires |nzA| + |nzB| < kMaxSize
    ensures CsrValid(rows, cols, nz, rp, ci) && CsrValid(rows, width, nz, rp, ci)
    ensures width <= cols && (|nz| == 0 ==> width == 0)
    ensures |ci| > 0 ==> exists p :: 0 <= p < |ci| && width == ci[p] + 1
    ensures forall r :: 0 <= r < rows ==> RowOf(nz, rp, ci, r) == MergedRow(nzA, rpA, ciA, nzB, rpB, ciB, op, r)
  {
    width, nz, rp, ci := 0, [], [0], [];
    var i := 0;
    while i < rows
      invariant i <= rows && width <= cols
      invariant CsrValid(i, width, nz, rp, ci)
      invariant |nz| <= rpA[i] + rpB[i]
      invariant |nz| == 0 ==> width == 0
      invariant width == 0 || exists p :: 0 <= p < |ci| && width == ci[p] + 1
      invariant forall r :: 0 <= r < i ==> RowOf(nz, rp, ci, r) == MergedRow(nzA, rpA, ciA, nzB, rpB, ciB, op, r)
    {
      ghost var width0, ci0 := width, ci;
      width, nz, rp, ci := AppendMergedRow(i, rows, cols, width, nz, rp, ci, nzA, rpA, ciA, nzB, rpB, ciB, op);
      if width == width0 && width != 0 {
        var p :| 0 <= p < |ci0| && width0 == ci0[p] + 1;
        assert ci[p] == ci0[p];
      }
      i := i + 1;
    }
    if |ci| > 0 {
      assert ci[0] < width;
    }
    WidenValid(rows, width, nz, rp, ci, cols);
  }

  // ---------------------------------------------------------------- compress(expression)

  /**
   * `compress(expression, eps)` as written, on the dense values `m` of the
   * expression: it clears the values and columns but not the row pointers,
   * so the new pointers land after the old ones `rp0` -- `[0]` after
   * `clear()`, or any earlier content. With any old pointer the result is
   * never valid; from the empty pointers of a newly constructed object, as in
   * the expression constructor, it is.
   */
  method CompressExpressionAsWritten(rp0: seq<nat>, m: seq<seq<real>>, eps: real) returns (nz: seq<real>, rp: seq<nat>, ci: seq<nat>)
    requires Rectangular(m) && (|m| > 0 ==> |m| * |m[0]| < kMaxSize)
    ensures |rp| == |rp0| + |m| + 1 && rp[..|rp0|] == rp0
    ensures |ci| == |nz| && Slice(ci, nz, 0, |ci|) == KeptRows(m, eps, |m|)
    ensures |rp0| > 0 ==> forall cols :: !CsrValid(|m|, cols, nz, rp, ci)
    ensures |rp0| == 0 ==> CsrValid(|m|, if |m| > 0 then |m[0]| else 0, nz, rp, ci)
  {
    var nz', rp', ci' := CompressArrays(m, eps);
    nz, rp, ci := nz', rp0 + rp', ci';
  }

  // ---------------------------------------------------------------- min / max

  function Pow2(n: nat): (r: real)
    ensures r >= 1.0 && (n > 0 ==> r >= 2.0)
  {
    if n == 0 then 1.0 else 2.0 * Pow2(n - 1)
  }

  /** `numeric_limits<double>::max()`, the largest finite double: (2^53 - 1) * 2^971. */
  const kMaxDouble: real := (Pow2(53) - 1.0) * Pow2(971)

  /** `numeric_limits<double>::min()`, the smallest positive normal double: 2^-1022. */
  const kMinPositiveDouble: real := 1.0 / Pow2(1022)

  lemma LimitsPositive()
    ensures kMaxDouble >= 1.0 && kMinPositiveDouble > 0.0
  {
    var a, b := Pow2(53) - 1.0, Pow2(971);
    assert a >= 1.0 && b >= 1.0;
    assert a * b >= 1.0 * b;
  }

  /** The running maximum `std::max` keeps over `nz`, started at `seed`. */
  function MaxFold(seed: real, nz: seq<real>): real
  {
    if |nz| == 0 then seed
    else
      var m := MaxFold(seed, nz[..|nz| - 1]);
      if m < nz[|nz| - 1] then nz[|nz| - 1] else m
  }

  /** The running minimum `std::min` keeps over `nz`, started at `seed`. */
  function MinFold(seed: real, nz: seq<real>): real
  {
    if |nz| == 0 then seed
    else
      var m := MinFold(seed, nz[..|nz| - 1]);
      if nz[|nz| - 1] < m then nz[|nz| - 1] else m
  }

  /** The running maximum is the largest of the seed and the values, and is one of them. */
  lemma {:induction false} MaxFoldIsMax(seed: real, nz: seq<real>)
    ensures MaxFold(seed, nz) >= seed && forall p :: 0 <= p < |nz| ==> nz[p] <= MaxFold(seed, nz)
    ensures MaxFold(seed, nz) == seed || MaxFold(seed, nz) in nz
  {
    if |nz| > 0 {
      var init := nz[..|nz| - 1];
      MaxFoldIsMax(seed, init);
      assert forall p :: 0 <= p < |init| ==> init[p] == nz[p];
      assert MaxFold(seed, init) in init ==> MaxFold(seed, init) in nz;
    }
  }

  /** The running minimum is the smallest of the seed and the values, and is one of them. */
  lemma {:induction false} MinFoldIsMin(seed: real, nz: seq<real>)
    ensures MinFold(seed, nz) <= seed && forall p :: 0 <= p < |nz| ==> MinFold(seed, nz) <= nz[p]
    ensures MinFold(seed, nz) == seed || MinFold(seed, nz) in nz
  {
    if |nz| > 0 {
      var init := nz[..|nz| - 1];
      MinFoldIsMin(seed, init);
      assert forall p :: 0 <= p < |init| ==> init[p] == nz[p];
      assert MinFold(seed, init) in init ==> MinFold(seed, init) in nz;
    }
  }

  /**
   * `max()` as written starts from the smallest positive double, so when
   * every stored value is zero or negative it returns that seed, which is
   * none of them: for `nz = [-1.0]` it returns 2^-1022.
   */
  lemma MaxSeedAsWritten(nz: seq<real>)
    requires |nz| > 0 && forall p :: 0 <= p < |nz| ==> nz[p] <= 0.0
    ensures MaxFold(kMinPositiveDouble, nz) == kMinPositiveDouble && kMinPositiveDouble !in nz
  {
    LimitsPositive();
    MaxFoldIsMax(kMinPositiveDouble, nz);
  }

  /** Started from the lowest double, the maximum of doubles is the largest stored value. */
  lemma MaxFromLowest(nz: seq<real>)
    requires |nz| > 0 && forall p :: 0 <= p < |nz| ==> -kMaxDouble <= nz[p]
    ensures MaxFold(-kMaxDouble, nz) in nz && forall p :: 0 <= p < |nz| ==> nz[p] <= MaxFold(-kMaxDouble, nz)
  {
    MaxFoldIsMax(-kMaxDouble, nz);
    if MaxFold(-kMaxDouble, nz) == -kMaxDouble {
      assert nz[0] <= -kMaxDouble;
    }
  }

  // ---------------------------------------------------------------- matrix-vector product

  /** The sum of the values a row stores at column `j`: every copy of a repeated column counts. */
  function ColumnTotal(row: seq<Entry>, j: nat): real
  {
    if |row| == 0 then 0.0
    else ColumnTotal(row[..|row| - 1], j) + (if row[|row| - 1].col == j then row[|row| - 1].value else 0.0)
  }

  /** The dense product `sum_{j < n} ColumnTotal(row, j) * v[j]`: the reference for a row times a vector. */
  function TotalsDot(row: seq<Entry>, v: seq<real>, n: nat): real
    requires n <= |v|
  {
    if n == 0 then 0.0 else TotalsDot(row, v, n - 1) + ColumnTotal(row, n - 1) * v[n - 1]
  }

  /** One more entry adds its value times its vector entry, when its column is below `n`. */
  lemma {:induction false} TotalsDotSnoc(init: seq<Entry>, e: Entry, v: seq<real>, n: nat)
    requires n <= |v|
    ensures TotalsDot(init + [e], v, n) == TotalsDot(init, v, n) + (if e.col < n then e.value * v[e.col] else 0.0)
  {
    var row := init + [e];
    assert row[..|row| - 1] == init;
    if n > 0 {
      TotalsDotSnoc(init, e, v, n - 1);
      assert ColumnTotal(row, n - 1) == ColumnTotal(init, n - 1) + (if e.col == n - 1 then e.value else 0.0);
    }
  }

  /** An empty row times any vector is 0. */
  lemma {:induction false} TotalsDotEmpty(v: seq<real>, n: nat)
    requires n <= |v|
    ensures TotalsDot([], v, n) == 0.0
  {
    if n > 0 {
      TotalsDotEmpty(v, n - 1);
    }
  }

  /**
   * The in-order sum over a row's stored entries is the dense product with
   * the column totals, whether or not a column is stored more than once.
   */
  lemma {:induction false} RowDotIsTotals(ci: seq<nat>, nz: seq<real>, lo: nat, hi: nat, v: seq<real>)
    requires lo <= hi <= |ci| && |ci| == |nz|
    requires forall p :: lo <= p < hi ==> ci[p] < |v|
    ensures RowDot(ci, nz, lo, hi, v) == TotalsDot(Slice(ci, nz, lo, hi), v, |v|)
    decreases hi - lo
  {
    if hi == lo {
      TotalsDotEmpty(v, |v|);
    } else {
      RowDotIsTotals(ci, nz, lo, hi - 1, v);
      assert Slice(ci, nz, lo, hi) == Slice(ci, nz, lo, hi - 1) + [Entry(ci[hi - 1], nz[hi - 1])];
      TotalsDotSnoc(Slice(ci, nz, lo, hi - 1), Entry(ci[hi - 1], nz[hi - 1]), v, |v|);
    }
  }

  /** A column no entry stores totals 0. */
  lemma {:induction false} TotalAbsent(row: seq<Entry>, j: nat)
    requires forall q :: 0 <= q < |row| ==> row[q].col != j
    ensures ColumnTotal(row, j) == 0.0
  {
    if |row| > 0 {
      TotalAbsent(row[..|row| - 1], j);
    }
  }

  /** An entry appended with another column leaves the lookup of `j` unchanged. */
  lemma {:induction false} LookupSnocOther(init: seq<Entry>, e: Entry, j: nat)
    requires e.col != j
    ensures Lookup(init + [e], j) == Lookup(init, j)
  {
    if |init| > 0 {
      assert (init + [e])[1..] == init[1..] + [e];
      LookupSnocOther(init[1..], e, j);
    }
  }

  /** With each column stored at most once, a column's total is the value the row reads there. */
  lemma {:induction false} TotalIsLookup(row: seq<Entry>, j: nat)
    requires ColsStrict(row)
    ensures ColumnTotal(row, j) == Lookup(row, j)
  {
    if |row| > 0 {
      var init, e := row[..|row| - 1], row[|row| - 1];
      assert row == init + [e];
      if e.col == j {
        TotalAbsent(init, j);
        LookupFirst(row, |row| - 1);
      } else {
        TotalIsLookup(init, j);
        LookupSnocOther(init, e, j);
      }
    }
  }

  /**
   * The dense product `sum_{j < n} Lookup(row, j) * v[j]`: row `i` of the
   * matrix as `operator()` reads it (Get(i, j) is Lookup(Row(i), j)) times `v`.
   */
  function LookupDot(row: seq<Entry>, v: seq<real>, n: nat): real
    requires n <= |v|
  {
    if n == 0 then 0.0 else LookupDot(row, v, n - 1) + Lookup(row, n - 1) * v[n - 1]
  }

  /** For a row storing each column once, the product over column totals is the product over the values it reads. */
  lemma LookupDotIsTotals(row: seq<Entry>, v: seq<real>, n: nat)
    requires ColsStrict(row) && n <= |v|
    ensures LookupDot(row, v, n) == TotalsDot(row, v, n)
  {
    forall j: nat | j < n
      ensures Lookup(row, j) == ColumnTotal(row, j)
    {
      TotalIsLookup(row, j);
    }
    DotsAgree(row, v, n);
  }

  /** Two dense products agree when their terms agree column by column. */
  lemma {:induction false} DotsAgree(row: seq<Entry>, v: seq<real>, n: nat)
    requires n <= |v|
    requires forall j: nat :: j < n ==> Lookup(row, j) == ColumnTotal(row, j)
    ensures LookupDot(row, v, n) == TotalsDot(row, v, n)
  {
    if n > 0 {
      DotsAgree(row, v, n - 1);
    }
  }

  /** A column stored twice counts twice in the product but reads as its first value. */
  lemma RepeatedColumnCountsTwice()
    ensures var row := [Entry(0, 1.0), Entry(0, 2.0)];
            ColumnTotal(row, 0) == 3.0 && Lookup(row, 0) == 1.0
  {
    var row := [Entry(0, 1.0), Entry(0, 2.0)];
    assert row[..1] == [Entry(0, 1.0)] && row[..1][..0] == [];
  }

  class MatrixCsr {
    var rows: nat
    var cols: nat
    var nonZeros: seq<real>
    var rowPointers: seq<nat>
    var columnIndices: seq<nat>

    ghost predicate Valid()
      reads this
    {
      CsrValid(rows, cols, nonZeros, rowPointers, columnIndices)
    }

    /** The stored entries of row `i` (none past the last row). */
    ghost function Row(i: nat): seq<Entry>
      reads this
    {
      RowOf(nonZeros, rowPointers, columnIndices, i)
    }

    /** `clear`: an empty 0 x 0 matrix whose only row pointer is 0. */
    method Clear()
      modifies this
      ensures Valid()
      ensures rows == 0 && cols == 0 && nonZeros == [] && columnIndices == [] && rowPointers == [0]
    {
      rows, cols := 0, 0;
      nonZeros, columnIndices := [], [];
      rowPointers := [0];
    }

    /** The default constructor clears. */
    constructor()
      ensures Valid()
      ensures rows == 0 && cols == 0 && nonZeros == [] && columnIndices == [] && rowPointers == [0]
    {
      rows, cols := 0, 0;
      nonZeros, columnIndices := [], [];
      rowPointers := [0];
    }

    /**
     * `compress(lst, eps)`: rows = number of lists, cols = length of the
     * first; row `i` stores exactly the entries of `lst[i]` whose magnitude
     * exceeds `eps`, in column order.
     */
    method Compress(lst: seq<seq<real>>, eps: real)
      requires Rectangular(lst)
      requires |lst| > 0 ==> |lst| * |lst[0]| < kMaxSize
      modifies this
      ensures Valid()
      ensures rows == |lst| && cols == (if |lst| > 0 then |lst[0]| else 0)
      ensures forall i :: 0 <= i < rows ==> Row(i) == Kept(lst[i], eps)
      ensures forall i: nat, j: nat :: i < rows ==> Get(i, j) == if j < cols && Abs(lst[i][j]) > eps then lst[i][j] else 0.0
    {
      var nz, rp, ci := CompressArrays(lst, eps);
      rows, cols := |lst|, if |lst| > 0 then |lst[0]| else 0;
      nonZeros, rowPointers, columnIndices := nz, rp, ci;
      forall r | 0 <= r < rows
        ensures Row(r) == Kept(lst[r], eps)
      {
        KeptRowsRow(lst, eps, r, |lst|);
      }
      forall i: nat, j: nat | i < rows
        ensures Get(i, j) == if j < cols && Abs(lst[i][j]) > eps then lst[i][j] else 0.0
      {
        KeptRowReads(lst[i], eps, i, j);
      }
    }

    /**
     * `addRow(nz, ci)`: one more row holding the given entries sorted by
     * column; the column count rises to cover them; the earlier rows and
     * their row pointers are untouched and the new row pointer is the new
     * number of non-zeros.
     */
    method AddRow(nz: seq<real>, ci: seq<nat>)
      requires Valid() && |nz| == |ci| && |nonZeros| + |nz| < kMaxSize
      modifies this
      ensures Valid() && rows == old(rows) + 1
      ensures RowAppended(old(rows), old(cols), old(nonZeros), old(rowPointers), old(columnIndices), nz, ci,
                          cols, nonZeros, rowPointers, columnIndices)
    {
      var cols', nz', rp', ci' := AppendRow(rows, cols, nonZeros, rowPointers, columnIndices, nz, ci);
      rows, cols, nonZeros, rowPointers, columnIndices := rows + 1, cols', nz', rp', ci';
    }

    /** The padding loop of `addElement`: empty rows are added until there are `n`. */
    method PadRows(n: nat)
      requires Valid()
      modifies this
      ensures Valid() && rows == Max(old(rows), n) && cols == old(cols)
      ensures nonZeros == old(nonZeros) && columnIndices == old(columnIndices)
      ensures rowPointers == old(rowPointers) + Repeat(rows - old(rows), |nonZeros|)
    {
      var numRowsToAdd := n - rows;
      var t := 0;
      while t < numRowsToAdd
        invariant rows == old(rows) + t && (t == 0 || 0 < t <= numRowsToAdd)
        invariant Valid() && cols == old(cols)
        invariant nonZeros == old(nonZeros) && columnIndices == old(columnIndices)
        invariant rowPointers == old(rowPointers) + Repeat(t, |nonZeros|)
      {
        AddRow([], []);
        assert nonZeros == nonZeros[..|nonZeros|] && columnIndices == columnIndices[..|columnIndices|];
        t := t + 1;
      }
    }

    /**
     * `addElement(i, j, v)`: empty rows are added until row `i` exists, the
     * column count rises to `j + 1` if needed, and the entry goes in at the
     * lower bound of `j` in row `i`; the pointers after row `i` move up by one.
     * Afterwards (i, j) reads `v`, and every other element reads as before.
     */
    method AddElement(i: nat, j: nat, v: real) returns (ghost at: nat)
      requires Valid() && |nonZeros| + 1 < kMaxSize
      modifies this
      ensures Valid()
      ensures ElementAdded(old(rows), old(cols), old(nonZeros), old(rowPointers), old(columnIndices),
                           rows, cols, nonZeros, rowPointers, columnIndices, i, j, v, at)
      ensures Get(i, j) == v
    {
      ghost var rows0, cols0, nz0, rp0, ci0 := rows, cols, nonZeros, rowPointers, columnIndices;
      PadRows(i + 1);
      var width := Max(cols, j + 1);
      WidenValid(rows, cols, nonZeros, rowPointers, columnIndices, width);
      var nz', rp', ci', k := InsertEntry(rows, width, nonZeros, rowPointers, columnIndices, i, j, v);
      PadThenInsert(rows0, cols0, nz0, rp0, ci0, i, j, v, nz', rp', ci', k);
      cols, nonZeros, rowPointers, columnIndices := width, nz', rp', ci';
      at := k;
      ReadsInserted(i, j, v, if i < rows0 then RowOf(nz0, rp0, ci0, i) else [], at);
    }

    /**
     * `setElement(i, j, v)`: a stored (i, j) is overwritten in place, leaving
     * the structure and the other values alone; otherwise the element is added
     * as `addElement` does. Either way (i, j) then reads `v`.
     */
    method SetElement(i: nat, j: nat, v: real)
      requires Valid() && |nonZeros| + 1 < kMaxSize
      modifies this
      ensures Valid() && Get(i, j) == v
      ensures old(HasElement(i, j)) != kMaxSize ==>
                && rows == old(rows) && cols == old(cols)
                && rowPointers == old(rowPointers) && columnIndices == old(columnIndices)
                && nonZeros == old(nonZeros)[old(HasElement(i, j)) := v]
      ensures old(HasElement(i, j)) == kMaxSize ==>
                exists k :: ElementAdded(old(rows), old(cols), old(nonZeros), old(rowPointers), old(columnIndices),
                                         rows, cols, nonZeros, rowPointers, columnIndices, i, j, v, k)
    {
      var nzIndex := HasElement(i, j);
      if nzIndex == kMaxSize {
        ghost var k := AddElement(i, j, v);
      } else {
        nonZeros := nonZeros[nzIndex := v];
        assert HasElement(i, j) == nzIndex;
      }
    }

    /**
     * `hasElement(i, j)`: the flat position of element (i, j), or `kMaxSize`
     * when (i, j) is out of range or not stored. The search (`binaryFind`)
     * reports the first stored position with column `j`.
     */
    function HasElement(i: nat, j: nat): (r: nat)
      reads this
      requires Valid()
      ensures r != kMaxSize ==> i < rows && j < cols && rowPointers[i] <= r < rowPointers[i + 1] && columnIndices[r] == j
      ensures r != kMaxSize ==> forall q :: rowPointers[i] <= q < r ==> columnIndices[q] != j
      ensures r == kMaxSize <==>
                i >= rows || forall q :: rowPointers[i] <= q < rowPointers[i + 1] ==> columnIndices[q] != j
    {
      if i >= rows || j >= cols then kMaxSize
      else
        assert rowPointers[i] <= rowPointers[i + 1] <= rowPointers[rows];
        var p := FindColumn(columnIndices, rowPointers[i], rowPointers[i + 1], j);
        if p == rowPointers[i + 1] then kMaxSize else p
    }

    /**
     * `operator()(i, j)`: the stored value of (i, j), else 0 - also when
     * `i` or `j` is out of range.
     */
    function Get(i: nat, j: nat): (v: real)
      reads this
      requires Valid()
      ensures i >= rows || j >= cols ==> v == 0.0
      ensures v != 0.0 ==> exists p :: rowPointers[i] <= p < rowPointers[i + 1] && columnIndices[p] == j && nonZeros[p] == v
      ensures forall p ::
                (i < rows && rowPointers[i] <= p < rowPointers[i + 1] && columnIndices[p] == j &&
                 (forall q :: rowPointers[i] <= q < p ==> columnIndices[q] != j)) ==> v == nonZeros[p]
    {
      var p := HasElement(i, j);
      if p == kMaxSize then 0.0 else nonZeros[p]
    }

    /** Within the rows, `operator()(i, j)` is the lookup of column `j` in row `i`. */
    lemma GetIsLookup(i: nat, j: nat)
      requires Valid() && i < rows
      ensures Get(i, j) == Lookup(Row(i), j)
    {
      assert rowPointers[i] <= rowPointers[i + 1] <= rowPointers[rows];
      FindColumnIsLookup(columnIndices, nonZeros, rowPointers[i], rowPointers[i + 1], j);
      if j >= cols {
        assert FindColumn(columnIndices, rowPointers[i], rowPointers[i + 1], j) == rowPointers[i + 1];
      }
    }

    /** A row holding the kept entries of a dense row reads back that row, small values as 0. */
    lemma KeptRowReads(row: seq<real>, eps: real, i: nat, j: nat)
      requires Valid() && i < rows && |row| == cols && Row(i) == Kept(row, eps)
      ensures Get(i, j) == if j < cols && Abs(row[j]) > eps then row[j] else 0.0
    {
      GetIsLookup(i, j);
      LookupKept(row, eps, j);
    }

    /** A row holding a new entry in front of every larger column reads the new value there. */
    lemma ReadsInserted(i: nat, j: nat, v: real, before: seq<Entry>, k: nat)
      requires Valid() && i < rows && k <= |before| && Row(i) == Insert(before, k, Entry(j, v))
      requires forall q :: 0 <= q < k ==> before[q].col < j
      ensures Get(i, j) == v
    {
      GetIsLookup(i, j);
      LookupInserted(before, k, Entry(j, v), j);
    }

    /** Every element reads as the lookup in its row; rows past the end read 0. */
    lemma ReadsAsRows()
      requires Valid()
      ensures forall r: nat, c: nat :: Get(r, c) == if r < rows then Lookup(Row(r), c) else 0.0
    {
      forall r: nat, c: nat | r < rows
        ensures Get(r, c) == Lookup(Row(r), c)
      {
        GetIsLookup(r, c);
      }
    }

    /**
     * `isEqual`: same size, same stored values and columns position by
     * position, and the same row pointers.
     */
    method IsEqual(other: MatrixCsr) returns (equal: bool)
      requires Valid() && other.Valid()
      ensures equal <==> rows == other.rows && cols == other.cols && nonZeros == other.nonZeros
                         && columnIndices == other.columnIndices && rowPointers == other.rowPointers
    {
      if rows != other.rows || cols != other.cols {
        return false;
      }
      if |nonZeros| != |other.nonZeros| {
        return false;
      }
      var i := 0;
      while i < |nonZeros|
        invariant 0 <= i <= |nonZeros|
        invariant nonZeros[..i] == other.nonZeros[..i] && columnIndices[..i] == other.columnIndices[..i]
      {
        if nonZeros[i] != other.nonZeros[i] {
          return false;
        }
        if columnIndices[i] != other.columnIndices[i] {
          return false;
        }
        i := i + 1;
      }
      assert nonZeros == nonZeros[..i] && other.nonZeros == other.nonZeros[..i];
      assert columnIndices == columnIndices[..i] && other.columnIndices == other.columnIndices[..i];
      i := 0;
      while i < |rowPointers|
        invariant 0 <= i <= |rowPointers|
        invariant rowPointers[..i] == other.rowPointers[..i]
      {
        if rowPointers[i] != other.rowPointers[i] {
          return false;
        }
        i := i + 1;
      }
      assert rowPointers == rowPointers[..i] && other.rowPointers == other.rowPointers[..i];
      return true;
    }

    /**
     * `makeIdentity(m)`: an m x m matrix with one stored 1 per row, on the
     * diagonal; it reads 1 exactly on the diagonal and 0 elsewhere.
     */
    static method MakeIdentity(m: nat) returns (ret: MatrixCsr)
      requires m < kMaxSize
      ensures fresh(ret) && ret.Valid()
      ensures ret.rows == m && ret.cols == m && |ret.nonZeros| == m
      ensures forall i, j :: 0 <= i < m && 0 <= j < m ==> ret.Get(i, j) == if i == j then 1.0 else 0.0
    {
      ret := new MatrixCsr();
      ret.rows, ret.cols := m, m;
      ret.nonZeros := seq(m, _ => 1.0);
      ret.columnIndices := seq(m, p requires 0 <= p => p);
      ret.rowPointers := seq(m + 1, p requires 0 <= p => p);
      forall i, j | 0 <= i < m && 0 <= j < m
        ensures ret.Get(i, j) == if i == j then 1.0 else 0.0
      {
        assert ret.rowPointers[i] == i && ret.rowPointers[i + 1] == i + 1;
      }
    }

    /**
     * Element `i` of the matrix-vector product (`MatrixCsrVectorMul::operator[]`):
     * the stored values of row `i` times the matching vector entries, summed in order.
     */
    method RowTimesVector(i: nat, v: seq<real>) returns (sum: real)
      requires Valid() && i < rows && |v| == cols
      ensures sum == RowDot(columnIndices, nonZeros, rowPointers[i], rowPointers[i + 1], v)
      ensures sum == TotalsDot(Row(i), v, cols)
      ensures ColsStrict(Row(i)) ==> sum == LookupDot(Row(i), v, cols)
    {
      assert rowPointers[i] <= rowPointers[i + 1] <= rowPointers[rows];
      var colBegin, colEnd := rowPointers[i], rowPointers[i + 1];
      sum := 0.0;
      var jj := colBegin;
      while jj < colEnd
        invariant colBegin <= jj <= colEnd
        invariant sum == RowDot(columnIndices, nonZeros, colBegin, jj, v)
      {
        var j := columnIndices[jj];
        sum := sum + nonZeros[jj] * v[j];
        jj := jj + 1;
      }
      RowDotIsTotals(columnIndices, nonZeros, colBegin, colEnd, v);
      if ColsStrict(Row(i)) {
        LookupDotIsTotals(Row(i), v, cols);
      }
    }

    /**
     * The in-place scalar operations (`iadd`, `isub`, `imul`, `idiv`): every
     * stored value is updated; the structure and the unstored zeros are untouched.
     */
    method ApplyInPlace(op: ScalarOp, s: real)
      requires Valid()
      requires forall p :: 0 <= p < |nonZeros| ==> ScalarDefined(op, s, nonZeros[p])
      modifies this`nonZeros
      ensures Valid()
      ensures |nonZeros| == |old(nonZeros)|
      ensures forall p :: 0 <= p < |nonZeros| ==> nonZeros[p] == ApplyScalar(op, s, old(nonZeros[p]))
    {
      var i := 0;
      while i < |nonZeros|
        invariant 0 <= i <= |nonZeros| == |old(nonZeros)|
        invariant forall p :: 0 <= p < i ==> nonZeros[p] == ApplyScalar(op, s, old(nonZeros[p]))
        invariant forall p :: i <= p < |nonZeros| ==> nonZeros[p] == old(nonZeros[p])
      {
        nonZeros := nonZeros[i := ApplyScalar(op, s, nonZeros[i])];
        i := i + 1;
      }
    }

    /** `set(other)`, the copy constructor and copy assignment: every field is copied. */
    method SetFrom(other: MatrixCsr)
      requires other.Valid()
      modifies this
      ensures Valid()
      ensures rows == other.rows && cols == other.cols && nonZeros == other.nonZeros
      ensures rowPointers == other.rowPointers && columnIndices == other.columnIndices
    {
      rows, cols := other.rows, other.cols;
      nonZeros, rowPointers, columnIndices := other.nonZeros, other.rowPointers, other.columnIndices;
    }

    /**
     * The copying scalar operations (`add(s)`, `sub(s)`, `mul(s)`, `div(s)`,
     * `rsub(s)`, `rdiv(s)`): a copy of this matrix with `op` applied to every
     * stored value.
     */
    method Scalar(op: ScalarOp, s: real) returns (ret: MatrixCsr)
      requires Valid()
      requires forall p :: 0 <= p < |nonZeros| ==> ScalarDefined(op, s, nonZeros[p])
      ensures fresh(ret) && ret.Valid()
      ensures ret.rows == rows && ret.cols == cols
      ensures ret.rowPointers == rowPointers && ret.columnIndices == columnIndices
      ensures |ret.nonZeros| == |nonZeros|
      ensures forall p :: 0 <= p < |nonZeros| ==> ret.nonZeros[p] == ApplyScalar(op, s, nonZeros[p])
    {
      ret := new MatrixCsr();
      ret.SetFrom(this);
      ret.ApplyInPlace(op, s);
    }

    /** The reduction loop of `min()` and `max()`: the running maximum of the stored values from `seed`. */
    method MaxFrom(seed: real) returns (r: real)
      ensures r == MaxFold(seed, nonZeros)
    {
      r := seed;
      var i := 0;
      while i < |nonZeros|
        invariant 0 <= i <= |nonZeros| && r == MaxFold(seed, nonZeros[..i])
      {
        assert nonZeros[..i + 1][..i] == nonZeros[..i];
        r := if r < nonZeros[i] then nonZeros[i] else r;
        i := i + 1;
      }
      assert nonZeros[..i] == nonZeros;
    }

    /** `max()` as written: the running maximum from `numeric_limits<double>::min()`. */
    method MaxStoredAsWritten() returns (r: real)
      ensures r == MaxFold(kMinPositiveDouble, nonZeros)
    {
      r := MaxFrom(kMinPositiveDouble);
    }

    /**
     * `max()` seeded with the lowest double: the largest stored value when
     * there is one, and the lowest double otherwise.
     */
    method MaxStored() returns (r: real)
      requires forall p :: 0 <= p < |nonZeros| ==> -kMaxDouble <= nonZeros[p]
      ensures |nonZeros| > 0 ==> r in nonZeros
      ensures forall p :: 0 <= p < |nonZeros| ==> nonZeros[p] <= r
      ensures |nonZeros| == 0 ==> r == -kMaxDouble
    {
      r := MaxFrom(-kMaxDouble);
      MaxFoldIsMax(-kMaxDouble, nonZeros);
      if |nonZeros| > 0 {
        MaxFromLowest(nonZeros);
      }
    }

    /**
     * `min()`: the running minimum of the stored values from the largest
     * double; the smallest stored value when there is one.
     */
    method MinStored() returns (r: real)
      ensures r == MinFold(kMaxDouble, nonZeros)
      ensures forall p :: 0 <= p < |nonZeros| ==> r <= nonZeros[p]
      ensures r == kMaxDouble || r in nonZeros
    {
      r := kMaxDouble;
      var i := 0;
      while i < |nonZeros|
        invariant 0 <= i <= |nonZeros| && r == MinFold(kMaxDouble, nonZeros[..i])
      {
        assert nonZeros[..i + 1][..i] == nonZeros[..i];
        r := if nonZeros[i] < r then nonZeros[i] else r;
        i := i + 1;
      }
      assert nonZeros[..i] == nonZeros;
      MinFoldIsMin(kMaxDouble, nonZeros);
    }

    /**
     * `binaryOp(m, op)` for equal-size matrices: each result row is the merge
     * of the two rows. The result is built row by row with `addRow` from a
     * cleared matrix and then keeps the operands' size (as written, its column
     * count is the one `addRow` leaves, see MergeArrays).
     */
    method BinaryOp(m: MatrixCsr, op: BinaryOpKind) returns (ret: MatrixCsr)
      requires Valid() && m.Valid() && rows == m.rows && cols == m.cols
      requires |nonZeros| + |m.nonZeros| < kMaxSize
      ensures fresh(ret) && ret.Valid() && ret.rows == rows && ret.cols == cols
      ensures forall i :: 0 <= i < rows ==> ret.Row(i) == Merge(Row(i), m.Row(i), op)
    {
      var width, nz, rp, ci := MergeArrays(rows, cols, nonZeros, rowPointers, columnIndices,
                                           m.nonZeros, m.rowPointers, m.columnIndices, op);
      ret := new MatrixCsr();
      ret.rows, ret.cols, ret.nonZeros, ret.rowPointers, ret.columnIndices := rows, cols, nz, rp, ci;
    }

    /**
     * `binaryOp(m, op)` as written for its column count: the result keeps the
     * column count its `addRow` calls leave behind, the largest stored column
     * + 1, which falls short of the operands' whenever their last columns
     * store nothing, and is 0 when nothing is stored at all. The rows are the
     * corrected merge (MergeStep), not the step that reads past an exhausted
     * row of A (MergeStepAsWritten).
     */
    method BinaryOpAsWritten(m: MatrixCsr, op: BinaryOpKind) returns (ret: MatrixCsr)
      requires Valid() && m.Valid() && rows == m.rows && cols == m.cols
      requires |nonZeros| + |m.nonZeros| < kMaxSize
      ensures fresh(ret) && ret.Valid() && ret.rows == rows && ret.cols <= cols
      ensures ret.nonZeros == [] ==> ret.cols == 0
      ensures forall p :: 0 <= p < |ret.columnIndices| ==> ret.columnIndices[p] < ret.cols
      ensures ret.nonZeros != [] ==> exists p :: 0 <= p < |ret.columnIndices| && ret.cols == ret.columnIndices[p] + 1
      ensures forall i :: 0 <= i < rows ==> ret.Row(i) == Merge(Row(i), m.Row(i), op)
    {
      var width, nz, rp, ci := MergeArrays(rows, cols, nonZeros, rowPointers, columnIndices,
                                           m.nonZeros, m.rowPointers, m.columnIndices, op);
      ret := new MatrixCsr();
      ret.rows, ret.cols, ret.nonZeros, ret.rowPointers, ret.columnIndices := rows, width, nz, rp, ci;
    }

    /** `add(m)`: the element-wise sum; every element reads the sum of the operands' elements. */
    method Add(m: MatrixCsr) returns (ret: MatrixCsr)
      requires Valid() && m.Valid() && rows == m.rows && cols == m.cols
      requires |nonZeros| + |m.nonZeros| < kMaxSize
      ensures fresh(ret) && ret.Valid() && ret.rows == rows && ret.cols == cols
      ensures forall i: nat, j: nat :: ret.Get(i, j) == Get(i, j) + m.Get(i, j)
    {
      ret := BinaryOp(m, Plus);
      MergedReads(this, m, ret, Plus);
    }

    /** `sub(m)`: the element-wise difference; every element reads the difference of the operands' elements. */
    method Sub(m: MatrixCsr) returns (ret: MatrixCsr)
      requires Valid() && m.Valid() && rows == m.rows && cols == m.cols
      requires |nonZeros| + |m.nonZeros| < kMaxSize
      ensures fresh(ret) && ret.Valid() && ret.rows == rows && ret.cols == cols
      ensures forall i: nat, j: nat :: ret.Get(i, j) == Get(i, j) - m.Get(i, j)
    {
      ret := BinaryOp(m, Minus);
      MergedReads(this, m, ret, Minus);
    }
  }

  /** Every element of a merged matrix reads `op` of the two operands' elements. */
  lemma MergedReads(a: MatrixCsr, b: MatrixCsr, ret: MatrixCsr, op: BinaryOpKind)
    requires a.Valid() && b.Valid() && ret.Valid()
    requires a.rows == b.rows == ret.rows && a.cols == b.cols == ret.cols
    requires forall i :: 0 <= i < a.rows ==> ret.Row(i) == Merge(a.Row(i), b.Row(i), op)
    ensures forall i: nat, j: nat :: ret.Get(i, j) == Combine(op, a.Get(i, j), b.Get(i, j))
  {
    a.ReadsAsRows();
    b.ReadsAsRows();
    ret.ReadsAsRows();
    forall i: nat, j: nat | i < a.rows
      ensures ret.Get(i, j) == Combine(op, a.Get(i, j), b.Get(i, j))
    {
      RowIsSorted(a.rows, a.cols, a.nonZeros, a.rowPointers, a.columnIndices, i);
      RowIsSorted(b.rows, b.cols, b.nonZeros, b.rowPointers, b.columnIndices, i);
      MergeLookup(a.Row(i), b.Row(i), op, j);
    }
  }

  /** Row `i` of an identity matrix times `v` is `v[i]`. */
  lemma IdentityRowDot(m: nat, i: nat, v: seq<real>)
    requires i < m && |v| == m
    ensures RowDot(seq(m, p requires 0 <= p => p), seq(m, _ => 1.0), i, i + 1, v) == v[i]
  {
    var ci: seq<nat> := seq(m, p requires 0 <= p => p);
    var nz := seq(m, _ => 1.0);
    assert RowDot(ci, nz, i, i, v) == 0.0;
  }

  /** A scalar operation keeps every unstored element at 0: only stored values change. */
  lemma ScalarKeepsUnstoredZero(a: MatrixCsr, b: MatrixCsr, i: nat, j: nat)
    requires a.Valid() && b.Valid()
    requires b.rows == a.rows && b.cols == a.cols && b.rowPointers == a.rowPointers && b.columnIndices == a.columnIndices
    requires |b.nonZeros| == |a.nonZeros|
    requires a.HasElement(i, j) == kMaxSize
    ensures b.Get(i, j) == 0.0
  {
  }
}
