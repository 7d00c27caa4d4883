/**
 Row-major enumeration of grid cells. The river generator visits the
 terrain as `for row in matrix: for pixel in row`, so both the list of
 candidate source spots and the order in which sources are traced are the
 cells of some set listed row by row, left to right.
 */
module Grid {
  import opened Builtins

  /** A (row, col) pair. */
  type Cell = (int, int)

  /** `p` comes strictly before `q` in row-major order. */
  predicate Before(p: Cell, q: Cell) {
    p.0 < q.0 || (p.0 == q.0 && p.1 < q.1)
  }

  predicate Ascending(s: seq<Cell>) {
    forall a, b :: 0 <= a < b < |s| ==> Before(s[a], s[b])
  }

  predicate InBox(p: Cell, rows: int, cols: int) {
    0 <= p.0 < rows && 0 <= p.1 < cols
  }

  /** The cells (r, c) of `S` with 0 <= c < j, by increasing column. */
  function RowSegment(S: set<Cell>, r: int, j: nat): seq<Cell> {
    if j == 0 then []
    else RowSegment(S, r, j - 1) + (if (r, j - 1) in S then [(r, j - 1)] else [])
  }

  /** The cells of `S` in rows 0 .. i-1 and columns 0 .. cols-1, row by row. */
  function RowMajor(S: set<Cell>, cols: nat, i: nat): seq<Cell> {
    if i == 0 then [] else RowMajor(S, cols, i - 1) + RowSegment(S, i - 1, cols)
  }

  /** A row segment holds exactly the cells of `S` in that row left of `j`,
      in strictly increasing order, and no more of them than `j`. */
  lemma {:induction false} RowSegmentSpec(S: set<Cell>, r: int, j: nat)
    ensures forall p :: p in RowSegment(S, r, j) <==> p in S && p.0 == r && 0 <= p.1 < j
    ensures Ascending(RowSegment(S, r, j))
    ensures |RowSegment(S, r, j)| <= j
  {
    if j > 0 {
      RowSegmentSpec(S, r, j - 1);
      var prev := RowSegment(S, r, j - 1);
      AscendingAppend(prev, if (r, j - 1) in S then [(r, j - 1)] else []);
    }
  }

  /** `RowMajor(S, cols, i)` lists exactly the cells of `S` inside the
      i-by-cols box. */
  lemma {:induction false} RowMajorMembers(S: set<Cell>, cols: nat, i: nat)
    ensures forall p :: p in RowMajor(S, cols, i) ==> p in S && InBox(p, i, cols)
    ensures forall p :: p in S && InBox(p, i, cols) ==> p in RowMajor(S, cols, i)
  {
    forall p | p in RowMajor(S, cols, i) ensures p in S && InBox(p, i, cols) {
      RowMajorOnly(S, cols, i, p);
    }
    forall p | p in S && InBox(p, i, cols) ensures p in RowMajor(S, cols, i) {
      RowMajorHas(S, cols, i, p);
    }
  }

  /** Every cell of a row segment lies in that row, left of `j`. */
  lemma {:induction false} RowSegmentOnly(S: set<Cell>, r: int, j: nat, p: Cell)
    requires p in RowSegment(S, r, j)
    ensures p in S && p.0 == r && 0 <= p.1 < j
  {
    if j > 0 {
      var prev, last := RowSegment(S, r, j - 1), if (r, j - 1) in S then [(r, j - 1)] else [];
      assert RowSegment(S, r, j) == prev + last;
      if p in prev {
        RowSegmentOnly(S, r, j - 1, p);
      } else {
        assert p in last;
      }
    }
  }

  lemma {:induction false} RowMajorOnly(S: set<Cell>, cols: nat, i: nat, p: Cell)
    requires p in RowMajor(S, cols, i)
    ensures p in S && InBox(p, i, cols)
  {
    if i > 0 {
      var prev, seg := RowMajor(S, cols, i - 1), RowSegment(S, i - 1, cols);
      assert p in prev || p in seg;
      if p in prev {
        RowMajorOnly(S, cols, i - 1, p);
      } else {
        RowSegmentOnly(S, i - 1, cols, p);
      }
    }
  }

  lemma {:induction false} RowMajorHas(S: set<Cell>, cols: nat, i: nat, p: Cell)
    requires p in S && InBox(p, i, cols)
    ensures p in RowMajor(S, cols, i)
  {
    var prev, seg := RowMajor(S, cols, i - 1), RowSegment(S, i - 1, cols);
    if p.0 < i - 1 {
      RowMajorHas(S, cols, i - 1, p);
      assert p in prev;
    } else {
      RowSegmentSpec(S, i - 1, cols);
      assert p in seg;
    }
    assert RowMajor(S, cols, i) == prev + seg;
  }

  /** `RowMajor(S, cols, i)` is in strictly increasing row-major order (so
      without repetitions). */
  lemma {:induction false} RowMajorSpec(S: set<Cell>, cols: nat, i: nat)
    ensures Ascending(RowMajor(S, cols, i))
    ensures Distinct(RowMajor(S, cols, i))
  {
    if i > 0 {
      RowMajorSpec(S, cols, i - 1);
      RowMajorStep(S, cols, i);
    }
    AscendingDistinct(RowMajor(S, cols, i));
  }

  /** Appending row i-1 keeps the listing ascending. */
  lemma {:induction false} RowMajorStep(S: set<Cell>, cols: nat, i: nat)
    requires i > 0 && Ascending(RowMajor(S, cols, i - 1))
    ensures Ascending(RowMajor(S, cols, i))
  {
    var prev, seg := RowMajor(S, cols, i - 1), RowSegment(S, i - 1, cols);
    RowSegmentSpec(S, i - 1, cols);
    EarlierRowsFirst(S, cols, i);
    AscendingAppend(prev, seg);
  }

  /** Every listed cell of rows before i-1 comes before every cell of row i-1. */
  lemma {:induction false} EarlierRowsFirst(S: set<Cell>, cols: nat, i: nat)
    requires i > 0
    ensures forall x, y :: x in RowMajor(S, cols, i - 1) && y in RowSegment(S, i - 1, cols) ==> Before(x, y)
  {
    forall x | x in RowMajor(S, cols, i - 1) ensures x.0 < i - 1 {
      RowMajorOnly(S, cols, i - 1, x);
    }
    forall y | y in RowSegment(S, i - 1, cols) ensures y.0 == i - 1 {
      RowSegmentOnly(S, i - 1, cols, y);
    }
  }

  /** A strictly increasing list has no repetitions. */
  lemma {:induction false} AscendingDistinct(s: seq<Cell>)
    requires Ascending(s)
    ensures Distinct(s)
  {
    forall a, b | 0 <= a < b < |s| ensures s[a] != s[b] {
      assert Before(s[a], s[b]);
    }
  }

  /** `RowMajor(S, cols, i)` has at most i * cols entries. */
  lemma {:induction false} RowMajorLength(S: set<Cell>, cols: nat, i: nat)
    ensures |RowMajor(S, cols, i)| <= i * cols
  {
    if i > 0 {
      RowMajorLength(S, cols, i - 1);
      RowSegmentSpec(S, i - 1, cols);
      assert (i - 1) * cols + cols == i * cols;
    }
  }

  /** Two ascending lists, every entry of the first before every entry of
      the second, make an ascending list. */
  lemma {:induction false} AscendingAppend(a: seq<Cell>, b: seq<Cell>)
    requires Ascending(a) && Ascending(b)
    requires forall x, y :: x in a && y in b ==> Before(x, y)
    ensures Ascending(a + b)
  {
    var s := a + b;
    forall i, j | 0 <= i < j < |s| ensures Before(s[i], s[j]) {
      if j < |a| {
        assert s[i] == a[i] && s[j] == a[j];
      } else if i >= |a| {
        assert s[i] == b[i - |a|] && s[j] == b[j - |a|];
      } else {
        assert s[i] == a[i] && s[j] == b[j - |a|];
        assert a[i] in a && b[j - |a|] in b;
      }
    }
  }

  /** Extending the column bound only appends to a row segment. */
  lemma {:induction false} RowSegmentGrows(S: set<Cell>, r: int, j: nat, k: nat)
    requires j <= k
    ensures RowSegment(S, r, j) <= RowSegment(S, r, k)
    decreases k
  {
    if j < k {
      RowSegmentGrows(S, r, j, k - 1);
    }
  }

  /** Extending the row bound only appends to a row-major listing. */
  lemma {:induction false} RowMajorGrows(S: set<Cell>, cols: nat, i: nat, k: nat)
    requires i <= k
    ensures RowMajor(S, cols, i) <= RowMajor(S, cols, k)
    decreases k
  {
    if i < k {
      RowMajorGrows(S, cols, i, k - 1);
    }
  }

  /** Part-way through row r (columns before c), the cells seen so far are
      a prefix of the full row-major listing of the rows-by-cols grid. */
  lemma {:induction false} RowMajorPrefix(S: set<Cell>, cols: nat, rows: nat, r: nat, c: nat)
    requires r < rows && c <= cols
    ensures RowMajor(S, cols, r) + RowSegment(S, r, c) <= RowMajor(S, cols, rows)
  {
    var done := RowMajor(S, cols, r);
    var part := RowSegment(S, r, c);
    var full := RowSegment(S, r, cols);
    RowSegmentGrows(S, r, c, cols);
    PrefixAfter(done, part, full);
    assert done + full == RowMajor(S, cols, r + 1);
    RowMajorGrows(S, cols, r + 1, rows);
    PrefixTransitive(done + part, done + full, RowMajor(S, cols, rows));
  }

  /** A scan that stops right after taking cell (r, c) of `S` has taken a
      non-empty prefix of the full row-major listing. */
  lemma {:induction false} StoppedScanPrefix(S: set<Cell>, cols: nat, rows: nat, r: nat, c: nat, taken: seq<Cell>)
    requires r < rows && c < cols && (r, c) in S
    requires taken == RowMajor(S, cols, r) + RowSegment(S, r, c) + [(r, c)]
    ensures taken != [] && taken <= RowMajor(S, cols, rows)
  {
    assert taken == RowMajor(S, cols, r) + RowSegment(S, r, c + 1);
    RowMajorPrefix(S, cols, rows, r, c + 1);
  }

  lemma {:induction false} PrefixAfter<T>(a: seq<T>, b: seq<T>, c: seq<T>)
    requires b <= c
    ensures a + b <= a + c
  {
    assert (a + c)[..|a + b|] == a + b;
  }

  lemma {:induction false} PrefixTransitive<T>(a: seq<T>, b: seq<T>, c: seq<T>)
    requires a <= b && b <= c
    ensures a <= c
  {
    assert c[..|a|] == b[..|a|];
  }

  /** A set of cells inside a rows-by-cols grid has at most rows * cols
      members. */
  lemma {:induction false} CellsBound(S: set<Cell>, rows: nat, cols: nat)
    requires forall p :: p in S ==> InBox(p, rows, cols)
    ensures |S| <= rows * cols
  {
    var s := RowMajor(S, cols, rows);
    RowMajorSpec(S, cols, rows);
    RowMajorMembers(S, cols, rows);
    RowMajorLength(S, cols, rows);
    DistinctCard(s);
    assert (set x | x in s) == S;
  }
}
