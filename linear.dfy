/**
 * Pure vector and grid arithmetic over integers: the reference definitions that the
 * array-backed classes are proved against, and the algebraic facts relating them.
 * A grid is a row-major sequence of rows.
 */
module Linear {

  type Grid = seq<seq<int>>

  /** Left-to-right sum of a sequence, in the order an accumulator loop adds. */
  function Sum(s: seq<int>): int
    decreases |s|
  {
    if |s| == 0 then 0 else Sum(s[..|s| - 1]) + s[|s| - 1]
  }

  predicate AllNonNegative(s: seq<int>) {
    forall i :: 0 <= i < |s| ==> s[i] >= 0
  }

  lemma {:induction false} SumNonNegative(s: seq<int>)
    requires AllNonNegative(s)
    ensures Sum(s) >= 0
    decreases |s|
  {
    if |s| > 0 {
      SumNonNegative(s[..|s| - 1]);
    }
  }

  /** A sum of non-negative entries is 0 exactly when every entry is 0. */
  lemma {:induction false} SumZeroIffAllZero(s: seq<int>)
    requires AllNonNegative(s)
    ensures Sum(s) == 0 <==> forall i :: 0 <= i < |s| ==> s[i] == 0
    decreases |s|
  {
    if |s| > 0 {
      var p := s[..|s| - 1];
      SumZeroIffAllZero(p);
      SumNonNegative(p);
      if Sum(s) == 0 {
        forall i | 0 <= i < |s| ensures s[i] == 0 {
          if i < |s| - 1 { assert s[i] == p[i]; }
        }
      } else {
        assert exists i :: 0 <= i < |s| && s[i] != 0 by {
          if s[|s| - 1] == 0 {
            var k :| 0 <= k < |p| && p[k] != 0;
            assert s[k] == p[k];
          }
        }
      }
    }
  }

  /** Writing `v` at index `i` changes the sum by `v - s[i]`. */
  lemma {:induction false} SumUpdate(s: seq<int>, i: int, v: int)
    requires 0 <= i < |s|
    ensures Sum(s[i := v]) == Sum(s) - s[i] + v
    decreases |s|
  {
    var t := s[i := v];
    if i == |s| - 1 {
      assert t[..|t| - 1] == s[..|s| - 1];
    } else {
      assert t[..|t| - 1] == s[..|s| - 1][i := v];
      SumUpdate(s[..|s| - 1], i, v);
    }
  }

  /** Number of zero entries. */
  function CountZeros(s: seq<int>): (n: nat)
    ensures n <= |s|
    decreases |s|
  {
    if |s| == 0 then 0 else CountZeros(s[..|s| - 1]) + (if s[|s| - 1] == 0 then 1 else 0)
  }

  lemma {:induction false} CountZerosAll(s: seq<int>)
    ensures CountZeros(s) == |s| <==> forall i :: 0 <= i < |s| ==> s[i] == 0
    ensures CountZeros(s) == 0 <==> forall i :: 0 <= i < |s| ==> s[i] != 0
    decreases |s|
  {
    if |s| > 0 {
      var p := s[..|s| - 1];
      CountZerosAll(p);
      assert forall i :: 0 <= i < |p| ==> s[i] == p[i];
      if CountZeros(s) == |s| {
        assert CountZeros(p) == |p|;
      }
      if CountZeros(s) == 0 {
        assert CountZeros(p) == 0;
      }
    }
  }

  /** Entry-wise sum of two vectors of equal length. */
  function VAdd(a: seq<int>, b: seq<int>): (r: seq<int>)
    requires |a| == |b|
    ensures |r| == |a|
  {
    seq(|a|, i requires 0 <= i < |a| => a[i] + b[i])
  }

  function VScale(k: int, a: seq<int>): (r: seq<int>)
    ensures |r| == |a|
  {
    seq(|a|, i requires 0 <= i < |a| => a[i] * k)
  }

  /** Subtraction as the source defines it: adding the other vector scaled by -1. */
  function VSub(a: seq<int>, b: seq<int>): (r: seq<int>)
    requires |a| == |b|
    ensures |r| == |a|
  {
    VAdd(a, VScale(-1, b))
  }

  /** Subtracting and then adding back the same vector gives the original. */
  lemma SubThenAdd(a: seq<int>, b: seq<int>)
    requires |a| == |b|
    ensures VAdd(VSub(a, b), b) == a
  {
    assert forall i :: 0 <= i < |a| ==> VAdd(VSub(a, b), b)[i] == a[i];
  }

  /** Inner product, accumulated left to right. */
  function Dot(a: seq<int>, b: seq<int>): int
    requires |a| == |b|
    decreases |a|
  {
    if |a| == 0 then 0 else Dot(a[..|a| - 1], b[..|b| - 1]) + a[|a| - 1] * b[|b| - 1]
  }

  lemma {:induction false} DotCommutes(a: seq<int>, b: seq<int>)
    requires |a| == |b|
    ensures Dot(a, b) == Dot(b, a)
    decreases |a|
  {
    if |a| > 0 {
      DotCommutes(a[..|a| - 1], b[..|b| - 1]);
    }
  }

  /** The unit vector of length n with a 1 at index k. */
  function Unit(n: nat, k: nat): (u: seq<int>)
    ensures |u| == n
  {
    seq(n, i => if i == k then 1 else 0)
  }

  /** The inner product with a unit vector picks one entry. */
  lemma {:induction false} DotUnit(a: seq<int>, k: nat)
    requires k < |a|
    ensures Dot(a, Unit(|a|, k)) == a[k]
    decreases |a|
  {
    var n := |a|;
    var p := a[..n - 1];
    assert Unit(n, k)[..n - 1] == Unit(n - 1, k);
    if k < n - 1 {
      DotUnit(p, k);
    } else {
      DotZero(p, Unit(n - 1, k));
    }
  }

  lemma {:induction false} DotZero(a: seq<int>, z: seq<int>)
    requires |a| == |z|
    requires forall i :: 0 <= i < |z| ==> z[i] == 0
    ensures Dot(a, z) == 0
    decreases |a|
  {
    if |a| > 0 {
      DotZero(a[..|a| - 1], z[..|z| - 1]);
    }
  }

  /** Every row of `g` has `cols` entries. */
  predicate IsGrid(g: Grid, cols: nat) {
    forall i :: 0 <= i < |g| ==> |g[i]| == cols
  }

  /** The all-zero rows x cols grid. */
  function Zeros(rows: nat, cols: nat): (g: Grid)
    ensures |g| == rows && IsGrid(g, cols)
  {
    seq(rows, i => seq(cols, j => 0))
  }

  /** Column j of a grid, top to bottom. */
  function Column(g: Grid, j: nat): (c: seq<int>)
    requires forall i :: 0 <= i < |g| ==> j < |g[i]|
    ensures |c| == |g|
  {
    seq(|g|, i requires 0 <= i < |g| => g[i][j])
  }

  /** The transpose of a grid with `cols` columns: row i of the result is column i. */
  function Transpose(g: Grid, cols: nat): (t: Grid)
    requires IsGrid(g, cols)
    ensures |t| == cols && IsGrid(t, |g|)
  {
    seq(cols, i requires 0 <= i < cols => Column(g, i))
  }

  /** Transposing twice gives back the original grid. */
  lemma TransposeTwice(g: Grid, cols: nat)
    requires IsGrid(g, cols)
    ensures Transpose(Transpose(g, cols), |g|) == g
  {
    var t := Transpose(Transpose(g, cols), |g|);
    forall i | 0 <= i < |g| ensures t[i] == g[i] {
      assert forall j :: 0 <= j < cols ==> t[i][j] == g[i][j];
    }
  }

  function MAdd(g: Grid, h: Grid, cols: nat): (r: Grid)
    requires IsGrid(g, cols) && IsGrid(h, cols) && |g| == |h|
    ensures |r| == |g| && IsGrid(r, cols)
  {
    seq(|g|, i requires 0 <= i < |g| => VAdd(g[i], h[i]))
  }

  function MScale(k: int, g: Grid, cols: nat): (r: Grid)
    requires IsGrid(g, cols)
    ensures |r| == |g| && IsGrid(r, cols)
  {
    seq(|g|, i requires 0 <= i < |g| => VScale(k, g[i]))
  }

  /** Matrix product: cell (i, j) is row i of g dotted with column j of h. */
  function MMul(g: Grid, h: Grid, cols: nat): (r: Grid)
    requires IsGrid(g, |h|) && IsGrid(h, cols)
    ensures |r| == |g| && IsGrid(r, cols)
  {
    seq(|g|, i requires 0 <= i < |g| =>
      seq(cols, j requires 0 <= j < cols => Dot(g[i], Column(h, j))))
  }

  /** Matrix times column vector: entry i is row i dotted with v. */
  function MatVec(g: Grid, v: seq<int>): (r: seq<int>)
    requires IsGrid(g, |v|)
    ensures |r| == |g|
  {
    seq(|g|, i requires 0 <= i < |g| => Dot(g[i], v))
  }

  /** Row vector times matrix: entry i is v dotted with column i. */
  function VecMat(v: seq<int>, g: Grid, cols: nat): (r: seq<int>)
    requires |g| == |v| && IsGrid(g, cols)
    ensures |r| == cols
  {
    seq(cols, i requires 0 <= i < cols => Dot(v, Column(g, i)))
  }

  /** A matrix times a column vector equals the row vector times the transposed matrix. */
  lemma MatVecIsVecMatOfTranspose(g: Grid, v: seq<int>)
    requires IsGrid(g, |v|)
    ensures MatVec(g, v) == VecMat(v, Transpose(g, |v|), |g|)
  {
    var t := Transpose(g, |v|);
    forall i | 0 <= i < |g| ensures MatVec(g, v)[i] == VecMat(v, t, |g|)[i] {
      assert Column(t, i) == g[i];
      DotCommutes(g[i], v);
    }
  }

  function Identity(n: nat): (r: Grid)
    ensures |r| == n && IsGrid(r, n)
  {
    seq(n, i => seq(n, j => if i == j then 1 else 0))
  }

  /** Multiplying by the identity on the right gives back the matrix. */
  lemma MulIdentity(g: Grid, cols: nat)
    requires IsGrid(g, cols)
    ensures MMul(g, Identity(cols), cols) == g
  {
    var r := MMul(g, Identity(cols), cols);
    forall i | 0 <= i < |g| ensures r[i] == g[i] {
      forall j | 0 <= j < cols ensures r[i][j] == g[i][j] {
        assert Column(Identity(cols), j) == Unit(cols, j);
        DotUnit(g[i], j);
      }
    }
  }

  /** Index of the first maximum of a non-empty sequence. */
  function FirstMaxIndex(s: seq<int>): (i: nat)
    requires |s| > 0
    ensures i < |s|
    ensures forall k :: 0 <= k < |s| ==> s[k] <= s[i]
    ensures forall k :: 0 <= k < i ==> s[k] < s[i]
    decreases |s|
  {
    if |s| == 1 then 0
    else
      var j := FirstMaxIndex(s[..|s| - 1]);
      if s[|s| - 1] > s[j] then |s| - 1 else j
  }

  /** The sum of an entry-wise sum is the sum of the sums. */
  lemma {:induction false} SumAdd(a: seq<int>, b: seq<int>)
    requires |a| == |b|
    ensures Sum(VAdd(a, b)) == Sum(a) + Sum(b)
    decreases |a|
  {
    if |a| > 0 {
      var n := |a| - 1;
      assert VAdd(a, b)[..n] == VAdd(a[..n], b[..n]);
      SumAdd(a[..n], b[..n]);
    }
  }

  /** Row totals of a grid. */
  function RowSums(g: Grid): (s: seq<int>)
    ensures |s| == |g|
  {
    seq(|g|, i requires 0 <= i < |g| => Sum(g[i]))
  }

  /** Column totals of a grid with `cols` columns. */
  function ColumnSums(g: Grid, cols: nat): (s: seq<int>)
    requires IsGrid(g, cols)
    ensures |s| == cols
  {
    seq(cols, j requires 0 <= j < cols => Sum(Column(g, j)))
  }

  /** Adding up the row totals or the column totals gives the same grand total. */
  lemma {:induction false} GrandTotal(g: Grid, cols: nat)
    requires IsGrid(g, cols)
    ensures Sum(RowSums(g)) == Sum(ColumnSums(g, cols))
    decreases |g|
  {
    if |g| > 0 {
      var n := |g| - 1;
      var p := g[..n];
      GrandTotal(p, cols);
      assert RowSums(g)[..n] == RowSums(p);
      assert ColumnSums(g, cols) == VAdd(ColumnSums(p, cols), g[n]) by {
        forall j | 0 <= j < cols ensures ColumnSums(g, cols)[j] == VAdd(ColumnSums(p, cols), g[n])[j] {
          assert Column(g, j)[..n] == Column(p, j);
        }
      }
      SumAdd(ColumnSums(p, cols), g[n]);
    } else {
      assert forall j :: 0 <= j < cols ==> Column(g, j) == [];
      SumZeroIffAllZero(ColumnSums(g, cols));
    }
  }

  /** (r, c) holds the least value of g, and no cell before it in row-major order holds that value. */
  predicate IsFirstMinCell(g: Grid, cols: nat, r: nat, c: nat)
    requires IsGrid(g, cols)
  {
    && r < |g| && c < cols
    && (forall i, j :: 0 <= i < |g| && 0 <= j < cols ==> g[r][c] <= g[i][j])
    && (forall i, j :: 0 <= i < |g| && 0 <= j < cols && (i < r || (i == r && j < c)) ==> g[r][c] < g[i][j])
  }
}
