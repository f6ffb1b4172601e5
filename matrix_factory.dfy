/** MatrixFactory: building matrices from dimensions, arrays, rows or columns. */
module MatrixFactory {
  import opened Errors
  import opened Linear
  import opened Implementations

  method CreateEmptyMatrix(rows: nat, cols: nat) returns (m: ArrayMatrix)
    ensures m.Valid() && fresh(m.values)
    ensures m.rows == rows && m.cols == cols && m.Cells() == Zeros(rows, cols)
  {
    m := new ArrayMatrix(rows, cols);
  }

  method CreateIdentityMatrix(size: nat) returns (m: ArrayMatrix)
    ensures m.Valid() && fresh(m.values)
    ensures m.rows == size && m.cols == size && m.Cells() == Identity(size)
  {
    m := new ArrayMatrix(size, size);
    var i := 0;
    while i < size
      invariant 0 <= i <= size
      invariant m.Valid() && m.rows == size && m.cols == size
      invariant forall p, q :: 0 <= p < size && 0 <= q < size ==>
        m.Cells()[p][q] == if p == q && p < i then 1 else 0
    {
      var o := m.SetItem(i, i, 1);
      i := i + 1;
    }
    forall p | 0 <= p < size ensures m.Cells()[p] == Identity(size)[p] {
    }
  }

  /**
   * A matrix with `|items|` rows and `|items[0]|` columns holding the items. An empty
   * array, or a row shorter than the first, throws; longer rows are cut to that width.
   */
  method CreateMatrix(items: seq<seq<int>>) returns (r: Result<ArrayMatrix>)
    ensures r.Ok? <==> |items| > 0 && forall i :: 0 <= i < |items| ==> |items[0]| <= |items[i]|
    ensures r.Err? ==> r.error == IndexOutOfBounds
    ensures r.Ok? ==> r.value.Valid() && fresh(r.value.values)
    ensures r.Ok? ==> r.value.rows == |items| && r.value.cols == |items[0]|
    ensures r.Ok? ==> r.value.Cells() == seq(|items|, i requires 0 <= i < |items| => items[i][..|items[0]|])
  {
    if |items| == 0 {
      return Err(IndexOutOfBounds);
    }
    var n, m := |items|, |items[0]|;
    var result := new ArrayMatrix(n, m);
    var i := 0;
    while i < n
      invariant 0 <= i <= n
      invariant forall k :: 0 <= k < i ==> m <= |items[k]|
      invariant result.Valid() && result.rows == n && result.cols == m
      invariant forall p, q :: 0 <= p < i && 0 <= q < m ==> result.Cells()[p][q] == items[p][q]
    {
      var j := 0;
      while j < m
        invariant 0 <= j <= m && j <= |items[i]|
        invariant result.Valid() && result.rows == n && result.cols == m
        invariant forall p, q :: 0 <= p < i && 0 <= q < m ==> result.Cells()[p][q] == items[p][q]
        invariant forall q :: 0 <= q < j ==> result.Cells()[i][q] == items[i][q]
      {
        if j >= |items[i]| {
          return Err(IndexOutOfBounds);
        }
        var o := result.SetItem(i, j, items[i][j]);
        j := j + 1;
      }
      i := i + 1;
    }
    ghost var expected := seq(n, i requires 0 <= i < n => items[i][..m]);
    forall p | 0 <= p < n ensures result.Cells()[p] == expected[p] {
    }
    return Ok(result);
  }

  /**
   * A matrix whose row i is `rows[i]`, with the width of `rows[0]`. An empty array throws,
   * and so does (from setRow) a row of another length.
   */
  method CreateMatrixFromRows(rows: seq<ArrayVector>) returns (r: Result<ArrayMatrix>)
    requires forall i :: 0 <= i < |rows| ==> rows[i].Valid()
    ensures r.Ok? <==> |rows| > 0 && forall i :: 0 <= i < |rows| ==> rows[i].length == rows[0].length
    ensures |rows| == 0 ==> r == Err(IndexOutOfBounds)
    ensures |rows| > 0 && r.Err? ==> r.error == IllegalArgument
    ensures r.Ok? ==> r.value.Valid() && fresh(r.value.values)
    ensures r.Ok? ==> r.value.rows == |rows| && r.value.cols == rows[0].length
    ensures r.Ok? ==> forall i :: 0 <= i < |rows| ==> r.value.Cells()[i] == rows[i].values[..]
  {
    if |rows| == 0 {
      return Err(IndexOutOfBounds);
    }
    var n, m := |rows|, rows[0].length;
    var result := new ArrayMatrix(n, m);
    var i := 0;
    while i < n
      invariant 0 <= i <= n
      invariant forall k :: 0 <= k < i ==> rows[k].length == m
      invariant result.Valid() && result.rows == n && result.cols == m
      invariant forall k :: 0 <= k < i ==> result.Cells()[k] == rows[k].values[..]
    {
      var o := result.SetRow(i, rows[i]);
      if o.Fail? {
        return Err(o.error);
      }
      i := i + 1;
    }
    return Ok(result);
  }

  /**
   * A matrix whose column i is `columns[i]`, with the height of `columns[0]`. An empty
   * array throws, and so does (from setColumn) a column of another length.
   */
  method CreateMatrixFromColumns(columns: seq<ArrayVector>) returns (r: Result<ArrayMatrix>)
    requires forall i :: 0 <= i < |columns| ==> columns[i].Valid()
    ensures r.Ok? <==> |columns| > 0 && forall i :: 0 <= i < |columns| ==> columns[i].length == columns[0].length
    ensures |columns| == 0 ==> r == Err(IndexOutOfBounds)
    ensures |columns| > 0 && r.Err? ==> r.error == IllegalArgument
    ensures r.Ok? ==> r.value.Valid() && fresh(r.value.values)
    ensures r.Ok? ==> r.value.rows == columns[0].length && r.value.cols == |columns|
    ensures r.Ok? ==> forall j :: 0 <= j < |columns| ==> Column(r.value.Cells(), j) == columns[j].values[..]
  {
    if |columns| == 0 {
      return Err(IndexOutOfBounds);
    }
    var n, m := columns[0].length, |columns|;
    var result := new ArrayMatrix(n, m);
    var i := 0;
    while i < m
      invariant 0 <= i <= m
      invariant forall k :: 0 <= k < i ==> columns[k].length == n
      invariant result.Valid() && result.rows == n && result.cols == m
      invariant forall p, k :: 0 <= p < n && 0 <= k < i ==> result.Cells()[p][k] == columns[k].values[p]
    {
      var o := result.SetColumn(i, columns[i]);
      if o.Fail? {
        return Err(o.error);
      }
      i := i + 1;
    }
    forall j | 0 <= j < m ensures Column(result.Cells(), j) == columns[j].values[..] {
    }
    return Ok(result);
  }
}
