/**
 * The array-backed implementations of the vector and matrix interfaces:
 * ArrayVector over an `array<int>`, ArrayMatrix over an `array2<int>`.
 */
module Implementations {
  import opened Errors
  import opened Linear

  class ArrayVector {
    /** The fixed length and the backing array; both are final in the source. */
    const length: nat
    const values: array<int>

    ghost predicate Valid() {
      values.Length == length
    }

    /** A new vector of the given length has every entry 0. */
    constructor (length: nat)
      ensures Valid() && fresh(values)
      ensures this.length == length
      ensures values[..] == seq(length, _ => 0)
    {
      this.length := length;
      values := new int[length];
      new;
      var i := 0;
      while i < length
        invariant 0 <= i <= length
        invariant forall k :: 0 <= k < i ==> values[k] == 0
      {
        values[i] := 0;
        i := i + 1;
      }
      assert values[..] == seq(length, _ => 0);
    }

    method GetItem(index: int) returns (r: Result<int>)
      requires Valid()
      ensures r.Ok? <==> 0 <= index < length
      ensures r.Ok? ==> r.value == values[index]
      ensures r.Err? ==> r.error == IndexOutOfBounds
    {
      if index < 0 || index >= length {
        return Err(IndexOutOfBounds);
      }
      return Ok(values[index]);
    }

    /** Writes one entry; out of range it throws and nothing changes. */
    method SetItem(index: int, value: int) returns (o: Outcome)
      requires Valid()
      modifies values
      ensures o.Pass? <==> 0 <= index < length
      ensures o.Fail? ==> o.error == IndexOutOfBounds
      ensures o.Pass? ==> values[..] == old(values[..])[index := value]
      ensures o.Fail? ==> values[..] == old(values[..])
    {
      if index < 0 || index >= length {
        return Fail(IndexOutOfBounds);
      }
      values[index] := value;
      return Pass;
    }

    method Plus(other: ArrayVector) returns (r: Result<ArrayVector>)
      requires Valid() && other.Valid()
      ensures r.Ok? <==> length == other.length
      ensures r.Err? ==> r.error == IllegalArgument
      ensures r.Ok? ==> r.value.Valid() && fresh(r.value.values)
      ensures r.Ok? ==> r.value.values[..] == VAdd(values[..], other.values[..])
    {
      if length != other.length {
        return Err(IllegalArgument);
      }
      var result := new ArrayVector(length);
      var i := 0;
      while i < length
        invariant 0 <= i <= length
        invariant forall k :: 0 <= k < i ==> result.values[k] == values[k] + other.values[k]
      {
        result.values[i] := values[i] + other.values[i];
        i := i + 1;
      }
      assert result.values[..] == VAdd(values[..], other.values[..]);
      return Ok(result);
    }

    /** As in the source: the other vector scaled by -1, then added. */
    method Minus(other: ArrayVector) returns (r: Result<ArrayVector>)
      requires Valid() && other.Valid()
      ensures r.Ok? <==> length == other.length
      ensures r.Err? ==> r.error == IllegalArgument
      ensures r.Ok? ==> r.value.Valid() && fresh(r.value.values)
      ensures r.Ok? ==> r.value.values[..] == VSub(values[..], other.values[..])
    {
      if length != other.length {
        return Err(IllegalArgument);
      }
      var negated := other.ScalarMultiply(-1);
      r := Plus(negated);
    }

    method ScalarMultiply(scalar: int) returns (r: ArrayVector)
      requires Valid()
      ensures r.Valid() && fresh(r.values)
      ensures r.values[..] == VScale(scalar, values[..])
    {
      r := new ArrayVector(length);
      var i := 0;
      while i < length
        invariant 0 <= i <= length
        invariant forall k :: 0 <= k < i ==> r.values[k] == values[k] * scalar
      {
        r.values[i] := values[i] * scalar;
        i := i + 1;
      }
      assert r.values[..] == VScale(scalar, values[..]);
    }

    method DotProduct(other: ArrayVector) returns (r: Result<int>)
      requires Valid() && other.Valid()
      ensures r.Ok? <==> length == other.length
      ensures r.Err? ==> r.error == IllegalArgument
      ensures r.Ok? ==> r.value == Dot(values[..], other.values[..])
    {
      if length != other.length {
        return Err(IllegalArgument);
      }
      var sum := 0;
      var i := 0;
      while i < length
        invariant 0 <= i <= length
        invariant sum == Dot(values[..i], other.values[..i])
      {
        assert values[..i + 1][..i] == values[..i];
        assert other.values[..i + 1][..i] == other.values[..i];
        sum := sum + values[i] * other.values[i];
        i := i + 1;
      }
      assert values[..] == values[..length] && other.values[..] == other.values[..length];
      return Ok(sum);
    }

    /** Row vector times matrix: entry i is the dot product with column i. */
    method Multiply(matrix: ArrayMatrix) returns (r: Result<ArrayVector>)
      requires Valid() && matrix.Valid()
      ensures r.Ok? <==> length == matrix.rows
      ensures r.Err? ==> r.error == IllegalArgument
      ensures r.Ok? ==> r.value.Valid() && fresh(r.value.values)
      ensures r.Ok? ==> r.value.values[..] == VecMat(values[..], matrix.Cells(), matrix.cols)
    {
      if length != matrix.rows {
        return Err(IllegalArgument);
      }
      ghost var v, g := values[..], matrix.Cells();
      var result := new ArrayVector(matrix.cols);
      var i := 0;
      while i < matrix.cols
        invariant 0 <= i <= matrix.cols
        invariant forall p :: 0 <= p < i ==> result.values[p] == Dot(v, Column(g, p))
      {
        var sum := DotWithColumn(matrix, i);
        result.values[i] := sum;
        i := i + 1;
      }
      assert result.values[..] == VecMat(v, g, matrix.cols);
      return Ok(result);
    }

    /** The inner loop of `Multiply`: the dot product of this vector with column i of the matrix. */
    method DotWithColumn(matrix: ArrayMatrix, i: nat) returns (sum: int)
      requires Valid() && matrix.Valid() && length == matrix.rows && i < matrix.cols
      ensures sum == Dot(values[..], Column(matrix.Cells(), i))
    {
      ghost var v, col := values[..], Column(matrix.Cells(), i);
      sum := 0;
      var j := 0;
      while j < length
        invariant 0 <= j <= length
        invariant sum == Dot(v[..j], col[..j])
      {
        assert v[..j + 1][..j] == v[..j] && col[..j + 1][..j] == col[..j];
        sum := sum + values[j] * matrix.values[j, i];
        j := j + 1;
      }
      assert v[..length] == v && col[..length] == col;
    }

    /** Equal lengths and equal entries. */
    method Equals(other: ArrayVector) returns (b: bool)
      requires Valid() && other.Valid()
      ensures b <==> values[..] == other.values[..]
    {
      if length != other.length {
        return false;
      }
      var i := 0;
      while i < length
        invariant 0 <= i <= length
        invariant forall k :: 0 <= k < i ==> values[k] == other.values[k]
      {
        if values[i] != other.values[i] {
          assert values[..][i] != other.values[..][i];
          return false;
        }
        i := i + 1;
      }
      assert values[..] == other.values[..];
      return true;
    }

    method GetNumberOfZeroElements() returns (count: nat)
      requires Valid()
      ensures count == CountZeros(values[..])
      ensures count <= length
    {
      count := 0;
      var i := 0;
      while i < length
        invariant 0 <= i <= length
        invariant count == CountZeros(values[..i])
      {
        assert values[..i + 1][..i] == values[..i];
        if values[i] == 0 {
          count := count + 1;
        }
        i := i + 1;
      }
      assert values[..] == values[..length];
    }

    /** The smaller of 1000000000 and the least entry. */
    method FindMinValue() returns (m: int)
      requires Valid()
      ensures m <= 1000000000
      ensures forall k :: 0 <= k < length ==> m <= values[k]
      ensures m == 1000000000 || exists k :: 0 <= k < length && values[k] == m
    {
      m := 1000000000;
      var i := 0;
      while i < length
        invariant 0 <= i <= length
        invariant m <= 1000000000
        invariant forall k :: 0 <= k < i ==> m <= values[k]
        invariant m == 1000000000 || exists k :: 0 <= k < i && values[k] == m
      {
        if values[i] < m {
          m := values[i];
        }
        i := i + 1;
      }
    }

    /** The sum of all entries (its body is not part of the source shown; accumulated left to right). */
    method GetSum() returns (s: int)
      requires Valid()
      ensures s == Sum(values[..])
    {
      s := 0;
      var i := 0;
      while i < length
        invariant 0 <= i <= length
        invariant s == Sum(values[..i])
      {
        assert values[..i + 1][..i] == values[..i];
        s := s + values[i];
        i := i + 1;
      }
      assert values[..] == values[..length];
    }

    /** First index attaining the maximum (its body is not part of the source shown). */
    method GetMaxValueIndex() returns (index: nat)
      requires Valid() && length > 0
      ensures index == FirstMaxIndex(values[..])
    {
      index := 0;
      var i := 1;
      while i < length
        invariant 1 <= i <= length
        invariant index == FirstMaxIndex(values[..i])
      {
        assert values[..i + 1][..i] == values[..i];
        if values[i] > values[index] {
          index := i;
        }
        i := i + 1;
      }
      assert values[..] == values[..length];
    }

    /** An independent copy (its body is not part of the source shown). */
    method BuildClone() returns (c: ArrayVector)
      requires Valid()
      ensures c.Valid() && fresh(c.values)
      ensures c.length == length && c.values[..] == values[..]
    {
      c := new ArrayVector(length);
      var i := 0;
      while i < length
        invariant 0 <= i <= length
        invariant forall k :: 0 <= k < i ==> c.values[k] == values[k]
      {
        c.values[i] := values[i];
        i := i + 1;
      }
      assert c.values[..] == values[..];
    }
  }

  /** The grid of values held by a two-dimensional array. */
  ghost function GridOf(a: array2<int>): (g: Grid)
    reads a
    ensures |g| == a.Length0 && IsGrid(g, a.Length1)
    ensures forall i, j :: 0 <= i < a.Length0 && 0 <= j < a.Length1 ==> g[i][j] == a[i, j]
  {
    seq(a.Length0, i requires 0 <= i < a.Length0 reads a =>
      seq(a.Length1, j requires 0 <= j < a.Length1 reads a => a[i, j]))
  }

  lemma GridOfIs(a: array2<int>, g: Grid)
    requires |g| == a.Length0 && IsGrid(g, a.Length1)
    requires forall i, j :: 0 <= i < a.Length0 && 0 <= j < a.Length1 ==> a[i, j] == g[i][j]
    ensures GridOf(a) == g
  {
    forall i | 0 <= i < |g| ensures GridOf(a)[i] == g[i] {
      assert forall j :: 0 <= j < a.Length1 ==> GridOf(a)[i][j] == g[i][j];
    }
  }

  class ArrayMatrix {
    /** The fixed dimensions and the backing array; all final in the source. */
    const rows: nat
    const cols: nat
    const values: array2<int>

    ghost predicate Valid() {
      values.Length0 == rows && values.Length1 == cols
    }

    /** The abstract value: the grid of cells. */
    ghost function Cells(): (g: Grid)
      reads values
      requires Valid()
      ensures |g| == rows && IsGrid(g, cols)
    {
      GridOf(values)
    }

    /** A new rows x cols matrix has every cell 0. */
    constructor (rows: nat, cols: nat)
      ensures Valid() && fresh(values)
      ensures this.rows == rows && this.cols == cols
      ensures Cells() == Zeros(rows, cols)
    {
      this.rows := rows;
      this.cols := cols;
      values := new int[rows, cols];
      new;
      var i := 0;
      while i < rows
        invariant 0 <= i <= rows
        invariant forall p, q :: 0 <= p < i && 0 <= q < cols ==> values[p, q] == 0
      {
        var j := 0;
        while j < cols
          invariant 0 <= j <= cols
          invariant forall p, q :: 0 <= p < i && 0 <= q < cols ==> values[p, q] == 0
          invariant forall q :: 0 <= q < j ==> values[i, q] == 0
        {
          values[i, j] := 0;
          j := j + 1;
        }
        i := i + 1;
      }
      GridOfIs(values, Zeros(rows, cols));
    }

    method Plus(other: ArrayMatrix) returns (r: Result<ArrayMatrix>)
      requires Valid() && other.Valid()
      ensures r.Ok? <==> rows == other.rows && cols == other.cols
      ensures r.Err? ==> r.error == IllegalArgument
      ensures r.Ok? ==> r.value.Valid() && fresh(r.value.values)
      ensures r.Ok? ==> r.value.rows == rows && r.value.cols == cols
      ensures r.Ok? ==> r.value.Cells() == MAdd(Cells(), other.Cells(), cols)
    {
      if rows != other.rows || cols != other.cols {
        return Err(IllegalArgument);
      }
      var result := new ArrayMatrix(rows, cols);
      var i := 0;
      while i < rows
        invariant 0 <= i <= rows
        invariant forall p, q :: 0 <= p < i && 0 <= q < cols ==>
          result.values[p, q] == values[p, q] + other.values[p, q]
      {
        var j := 0;
        while j < cols
          invariant 0 <= j <= cols
          invariant forall p, q :: 0 <= p < i && 0 <= q < cols ==>
            result.values[p, q] == values[p, q] + other.values[p, q]
          invariant forall q :: 0 <= q < j ==> result.values[i, q] == values[i, q] + other.values[i, q]
        {
          result.values[i, j] := values[i, j] + other.values[i, j];
          j := j + 1;
        }
        i := i + 1;
      }
      GridOfIs(result.values, MAdd(Cells(), other.Cells(), cols));
      return Ok(result);
    }

    /** As in the source: the other matrix scaled by -1, then added. */
    method Minus(other: ArrayMatrix) returns (r: Result<ArrayMatrix>)
      requires Valid() && other.Valid()
      ensures r.Ok? <==> rows == other.rows && cols == other.cols
      ensures r.Err? ==> r.error == IllegalArgument
      ensures r.Ok? ==> r.value.Valid() && fresh(r.value.values)
      ensures r.Ok? ==> r.value.rows == rows && r.value.cols == cols
      ensures r.Ok? ==> r.value.Cells() == MAdd(Cells(), MScale(-1, other.Cells(), cols), cols)
    {
      if rows != other.rows || cols != other.cols {
        return Err(IllegalArgument);
      }
      var negated := other.ScalarMultiply(-1);
      r := Plus(negated);
    }

    method ScalarMultiply(scalar: int) returns (r: ArrayMatrix)
      requires Valid()
      ensures r.Valid() && fresh(r.values)
      ensures r.rows == rows && r.cols == cols
      ensures r.Cells() == MScale(scalar, Cells(), cols)
    {
      r := new ArrayMatrix(rows, cols);
      var i := 0;
      while i < rows
        invariant 0 <= i <= rows
        invariant forall p, q :: 0 <= p < i && 0 <= q < cols ==> r.values[p, q] == values[p, q] * scalar
      {
        var j := 0;
        while j < cols
          invariant 0 <= j <= cols
          invariant forall p, q :: 0 <= p < i && 0 <= q < cols ==> r.values[p, q] == values[p, q] * scalar
          invariant forall q :: 0 <= q < j ==> r.values[i, q] == values[i, q] * scalar
        {
          r.values[i, j] := values[i, j] * scalar;
          j := j + 1;
        }
        i := i + 1;
      }
      GridOfIs(r.values, MScale(scalar, Cells(), cols));
    }

    /** Matrix product, accumulated in the result cell as in the source. */
    method Multiply(other: ArrayMatrix) returns (r: Result<ArrayMatrix>)
      requires Valid() && other.Valid()
      ensures r.Ok? <==> cols == other.rows
      ensures r.Err? ==> r.error == IllegalArgument
      ensures r.Ok? ==> r.value.Valid() && fresh(r.value.values)
      ensures r.Ok? ==> r.value.rows == rows && r.value.cols == other.cols
      ensures r.Ok? ==> r.value.Cells() == MMul(Cells(), other.Cells(), other.cols)
    {
      if cols != other.rows {
        return Err(IllegalArgument);
      }
      ghost var a, b := Cells(), other.Cells();
      var result := new ArrayMatrix(rows, other.cols);
      var i := 0;
      while i < rows
        invariant 0 <= i <= rows
        invariant forall p, q :: 0 <= p < i && 0 <= q < other.cols ==>
          result.values[p, q] == Dot(a[p], Column(b, q))
        invariant forall p, q :: i <= p < rows && 0 <= q < other.cols ==> result.values[p, q] == 0
      {
        MultiplyRow(other, result, i);
        i := i + 1;
      }
      GridOfIs(result.values, MMul(a, b, other.cols));
      return Ok(result);
    }

    /** The middle loop of `Multiply`: fills row i of the result, one cell at a time. */
    method MultiplyRow(other: ArrayMatrix, result: ArrayMatrix, i: nat)
      requires Valid() && other.Valid() && result.Valid()
      requires cols == other.rows && result.rows == rows && result.cols == other.cols && i < rows
      requires forall q :: 0 <= q < other.cols ==> result.values[i, q] == 0
      requires result.values != values && result.values != other.values
      modifies result.values
      ensures forall p, q :: 0 <= p < rows && 0 <= q < other.cols ==>
        result.values[p, q] == if p == i then Dot(Cells()[i], Column(other.Cells(), q))
                               else old(result.values[p, q])
    {
      var j := 0;
      while j < other.cols
        invariant 0 <= j <= other.cols
        invariant forall p, q :: 0 <= p < rows && 0 <= q < other.cols ==>
          result.values[p, q] ==
            if p == i && q < j then Dot(Cells()[i], Column(other.Cells(), q))
            else old(result.values[p, q])
      {
        AccumulateCell(other, result, i, j);
        j := j + 1;
      }
    }

    /** The innermost loop of `Multiply`: adds this[i][k] * other[k][j] into result[i][j] for every k. */
    method AccumulateCell(other: ArrayMatrix, result: ArrayMatrix, i: nat, j: nat)
      requires Valid() && other.Valid() && result.Valid()
      requires cols == other.rows && result.rows == rows && result.cols == other.cols
      requires i < rows && j < other.cols && result.values[i, j] == 0
      requires result.values != values && result.values != other.values
      modifies result.values
      ensures forall p, q :: 0 <= p < rows && 0 <= q < other.cols ==>
        result.values[p, q] == if p == i && q == j then Dot(Cells()[i], Column(other.Cells(), j))
                               else old(result.values[p, q])
    {
      ghost var row, col := Cells()[i], Column(other.Cells(), j);
      var k := 0;
      while k < cols
        invariant 0 <= k <= cols
        invariant forall p, q :: 0 <= p < rows && 0 <= q < other.cols && (p != i || q != j) ==>
          result.values[p, q] == old(result.values[p, q])
        invariant result.values[i, j] == Dot(row[..k], col[..k])
      {
        assert row[..k + 1][..k] == row[..k] && col[..k + 1][..k] == col[..k];
        result.values[i, j] := result.values[i, j] + values[i, k] * other.values[k, j];
        k := k + 1;
      }
      assert row[..cols] == row && col[..cols] == col;
    }

    /** Matrix times a column vector. */
    method MultiplyByVector(vector: ArrayVector) returns (r: Result<ArrayVector>)
      requires Valid() && vector.Valid()
      ensures r.Ok? <==> cols == vector.length
      ensures r.Err? ==> r.error == IllegalArgument
      ensures r.Ok? ==> r.value.Valid() && fresh(r.value.values)
      ensures r.Ok? ==> r.value.values[..] == MatVec(Cells(), vector.values[..])
    {
      if cols != vector.length {
        return Err(IllegalArgument);
      }
      ghost var a, v := Cells(), vector.values[..];
      var result := new ArrayVector(rows);
      var i := 0;
      while i < rows
        invariant 0 <= i <= rows
        invariant forall p :: 0 <= p < i ==> result.values[p] == Dot(a[p], v)
        invariant forall p :: i <= p < rows ==> result.values[p] == 0
      {
        AccumulateRow(vector, result, i);
        i := i + 1;
      }
      assert result.values[..] == MatVec(a, v);
      return Ok(result);
    }

    /** The inner loop of `MultiplyByVector`: adds this[i][j] * vector[j] into result[i] for every j. */
    method AccumulateRow(vector: ArrayVector, result: ArrayVector, i: nat)
      requires Valid() && vector.Valid() && result.Valid()
      requires cols == vector.length && result.length == rows && i < rows && result.values[i] == 0
      requires result.values != vector.values
      modifies result.values
      ensures result.values[..] == old(result.values[..])[i := Dot(Cells()[i], vector.values[..])]
    {
      ghost var row, v := Cells()[i], vector.values[..];
      var j := 0;
      while j < cols
        invariant 0 <= j <= cols
        invariant result.values[..] == old(result.values[..])[i := Dot(row[..j], v[..j])]
      {
        assert row[..j + 1][..j] == row[..j] && v[..j + 1][..j] == v[..j];
        result.values[i] := result.values[i] + values[i, j] * vector.values[j];
        j := j + 1;
      }
      assert row[..cols] == row && v[..cols] == v;
    }

    method GetTransposed() returns (r: ArrayMatrix)
      requires Valid()
      ensures r.Valid() && fresh(r.values)
      ensures r.rows == cols && r.cols == rows
      ensures r.Cells() == Transpose(Cells(), cols)
    {
      r := new ArrayMatrix(cols, rows);
      var i := 0;
      while i < cols
        invariant 0 <= i <= cols
        invariant forall p, q :: 0 <= p < i && 0 <= q < rows ==> r.values[p, q] == values[q, p]
      {
        var j := 0;
        while j < rows
          invariant 0 <= j <= rows
          invariant forall p, q :: 0 <= p < i && 0 <= q < rows ==> r.values[p, q] == values[q, p]
          invariant forall q :: 0 <= q < j ==> r.values[i, q] == values[q, i]
        {
          r.values[i, j] := values[j, i];
          j := j + 1;
        }
        i := i + 1;
      }
      GridOfIs(r.values, Transpose(Cells(), cols));
    }

    method GetItem(row: int, col: int) returns (r: Result<int>)
      requires Valid()
      ensures r.Ok? <==> 0 <= row < rows && 0 <= col < cols
      ensures r.Err? ==> r.error == IndexOutOfBounds
      ensures r.Ok? ==> r.value == values[row, col]
    {
      if row >= rows || col >= cols || row < 0 || col < 0 {
        return Err(IndexOutOfBounds);
      }
      return Ok(values[row, col]);
    }

    /** Writes one cell; out of range it throws and nothing changes. */
    method SetItem(row: int, col: int, value: int) returns (o: Outcome)
      requires Valid()
      modifies values
      ensures o.Pass? <==> 0 <= row < rows && 0 <= col < cols
      ensures o.Fail? ==> o.error == IndexOutOfBounds && Cells() == old(Cells())
      ensures o.Pass? ==> Cells() == old(Cells())[row := old(Cells())[row][col := value]]
    {
      if row >= rows || col >= cols || row < 0 || col < 0 {
        return Fail(IndexOutOfBounds);
      }
      ghost var g := Cells();
      values[row, col] := value;
      GridOfIs(values, g[row := g[row][col := value]]);
      return Pass;
    }

    /** A fresh copy of one row. */
    method GetRow(row: int) returns (r: Result<ArrayVector>)
      requires Valid()
      ensures r.Ok? <==> 0 <= row < rows
      ensures r.Err? ==> r.error == IndexOutOfBounds
      ensures r.Ok? ==> r.value.Valid() && fresh(r.value.values)
      ensures r.Ok? ==> r.value.length == cols && r.value.values[..] == Cells()[row]
    {
      if row >= rows || row < 0 {
        return Err(IndexOutOfBounds);
      }
      var v := new ArrayVector(cols);
      var i := 0;
      while i < cols
        invariant 0 <= i <= cols
        invariant forall k :: 0 <= k < i ==> v.values[k] == values[row, k]
      {
        v.values[i] := values[row, i];
        i := i + 1;
      }
      assert v.values[..] == Cells()[row];
      return Ok(v);
    }

    /** A fresh copy of one column. */
    method GetColumn(col: int) returns (r: Result<ArrayVector>)
      requires Valid()
      ensures r.Ok? <==> 0 <= col < cols
      ensures r.Err? ==> r.error == IndexOutOfBounds
      ensures r.Ok? ==> r.value.Valid() && fresh(r.value.values)
      ensures r.Ok? ==> r.value.length == rows && r.value.values[..] == Column(Cells(), col)
    {
      if col >= cols || col < 0 {
        return Err(IndexOutOfBounds);
      }
      var v := new ArrayVector(rows);
      var i := 0;
      while i < rows
        invariant 0 <= i <= rows
        invariant forall k :: 0 <= k < i ==> v.values[k] == values[k, col]
      {
        v.values[i] := values[i, col];
        i := i + 1;
      }
      assert v.values[..] == Column(Cells(), col);
      return Ok(v);
    }

    /** Overwrites one row; the length is checked before the index. */
    method SetRow(row: int, vector: ArrayVector) returns (o: Outcome)
      requires Valid() && vector.Valid()
      modifies values
      ensures o.Pass? <==> vector.length == cols && 0 <= row < rows
      ensures vector.length != cols ==> o == Fail(IllegalArgument)
      ensures vector.length == cols && !(0 <= row < rows) ==> o == Fail(IndexOutOfBounds)
      ensures o.Fail? ==> Cells() == old(Cells())
      ensures o.Pass? ==> Cells() == old(Cells())[row := vector.values[..]]
    {
      if vector.length != cols {
        return Fail(IllegalArgument);
      }
      if row >= rows || row < 0 {
        return Fail(IndexOutOfBounds);
      }
      ghost var g := Cells();
      var i := 0;
      while i < cols
        invariant 0 <= i <= cols
        invariant forall p, q :: 0 <= p < rows && 0 <= q < cols ==>
          values[p, q] == if p == row && q < i then vector.values[q] else g[p][q]
      {
        values[row, i] := vector.values[i];
        i := i + 1;
      }
      GridOfIs(values, g[row := vector.values[..]]);
      return Pass;
    }

    /** Overwrites one column; the length is checked before the index. */
    method SetColumn(col: int, vector: ArrayVector) returns (o: Outcome)
      requires Valid() && vector.Valid()
      modifies values
      ensures o.Pass? <==> vector.length == rows && 0 <= col < cols
      ensures vector.length != rows ==> o == Fail(IllegalArgument)
      ensures vector.length == rows && !(0 <= col < cols) ==> o == Fail(IndexOutOfBounds)
      ensures o.Fail? ==> Cells() == old(Cells())
      ensures o.Pass? ==> forall p, q :: 0 <= p < rows && 0 <= q < cols ==>
        Cells()[p][q] == if q == col then vector.values[p] else old(Cells())[p][q]
    {
      if vector.length != rows {
        return Fail(IllegalArgument);
      }
      if col >= cols || col < 0 {
        return Fail(IndexOutOfBounds);
      }
      ghost var g := Cells();
      var i := 0;
      while i < rows
        invariant 0 <= i <= rows
        invariant forall p, q :: 0 <= p < rows && 0 <= q < cols ==>
          values[p, q] == if q == col && p < i then vector.values[p] else g[p][q]
      {
        values[i, col] := vector.values[i];
        i := i + 1;
      }
      return Pass;
    }

    /**
     * Writes the vector onto the diagonal. A length other than `rows` throws before
     * any write; when rows > cols the write at (cols, cols) throws after the cells
     * (i, i) with i < cols have been written.
     */
    method SeatDiagonal(vector: ArrayVector) returns (o: Outcome)
      requires Valid() && vector.Valid()
      modifies values
      ensures o.Pass? <==> vector.length == rows && rows <= cols
      ensures vector.length != rows ==> o == Fail(IllegalArgument) && Cells() == old(Cells())
      ensures vector.length == rows && rows > cols ==> o == Fail(IndexOutOfBounds)
      ensures vector.length == rows ==> forall p, q :: 0 <= p < rows && 0 <= q < cols ==>
        Cells()[p][q] == if p == q then vector.values[p] else old(Cells())[p][q]
    {
      if vector.length != rows {
        return Fail(IllegalArgument);
      }
      ghost var g := Cells();
      var i := 0;
      while i < rows
        invariant 0 <= i <= rows
        invariant i <= cols
        invariant forall p, q :: 0 <= p < rows && 0 <= q < cols ==>
          values[p, q] == if p == q && p < i then vector.values[p] else g[p][q]
      {
        if i >= cols {
          return Fail(IndexOutOfBounds);
        }
        values[i, i] := vector.values[i];
        i := i + 1;
      }
      return Pass;
    }

    /** Fresh copies of all rows, in order (its body is not part of the source shown). */
    method GetRows() returns (lines: seq<ArrayVector>)
      requires Valid()
      ensures |lines| == rows
      ensures forall i :: 0 <= i < rows ==>
        lines[i].Valid() && fresh(lines[i].values) && lines[i].values[..] == Cells()[i]
      ensures forall i, j :: 0 <= i < j < |lines| ==> lines[i].values != lines[j].values
    {
      lines := [];
      var i := 0;
      while i < rows
        invariant 0 <= i <= rows && |lines| == i
        invariant forall k :: 0 <= k < i ==>
          lines[k].Valid() && fresh(lines[k].values) && lines[k].values[..] == Cells()[k]
        invariant forall k, l :: 0 <= k < l < i ==> lines[k].values != lines[l].values
      {
        var r := GetRow(i);
        lines := lines + [r.value];
        i := i + 1;
      }
    }

    /** Fresh copies of all columns, in order (its body is not part of the source shown). */
    method GetColumns() returns (lines: seq<ArrayVector>)
      requires Valid()
      ensures |lines| == cols
      ensures forall j :: 0 <= j < cols ==>
        lines[j].Valid() && fresh(lines[j].values) && lines[j].values[..] == Column(Cells(), j)
      ensures forall i, j :: 0 <= i < j < |lines| ==> lines[i].values != lines[j].values
    {
      lines := [];
      var j := 0;
      while j < cols
        invariant 0 <= j <= cols && |lines| == j
        invariant forall k :: 0 <= k < j ==>
          lines[k].Valid() && fresh(lines[k].values) && lines[k].values[..] == Column(Cells(), k)
        invariant forall k, l :: 0 <= k < l < j ==> lines[k].values != lines[l].values
      {
        var c := GetColumn(j);
        lines := lines + [c.value];
        j := j + 1;
      }
    }

    /**
     * Coordinates of the least cell; ties go to the first in row-major order
     * (its body is not part of the source shown).
     */
    method GetCoordsOfMostNegative() returns (r: nat, c: nat)
      requires Valid() && rows > 0 && cols > 0
      ensures IsFirstMinCell(Cells(), cols, r, c)
    {
      r, c := 0, 0;
      var i := 0;
      while i < rows
        invariant 0 <= i <= rows && r < rows && c < cols
        invariant r < i || (r == 0 && c == 0)
        invariant forall p, q :: 0 <= p < i && 0 <= q < cols ==> values[r, c] <= values[p, q]
        invariant forall p, q :: 0 <= p < i && 0 <= q < cols && (p < r || (p == r && q < c)) ==>
          values[r, c] < values[p, q]
      {
        var j := 0;
        while j < cols
          invariant 0 <= j <= cols && r < rows && c < cols
          invariant r < i || (r == i && c < j) || (r == 0 && c == 0)
          invariant forall p, q :: 0 <= p < rows && 0 <= q < cols && (p < i || (p == i && q < j)) ==>
            values[r, c] <= values[p, q]
          invariant forall p, q ::
            (0 <= p < rows && 0 <= q < cols && (p < i || (p == i && q < j)) && (p < r || (p == r && q < c)))
            ==> values[r, c] < values[p, q]
        {
          if values[i, j] < values[r, c] {
            r, c := i, j;
          }
          j := j + 1;
        }
        i := i + 1;
      }
    }

    /** An independent copy (its body is not part of the source shown). */
    method BuildClone() returns (m: ArrayMatrix)
      requires Valid()
      ensures m.Valid() && fresh(m.values)
      ensures m.rows == rows && m.cols == cols && m.Cells() == Cells()
    {
      m := new ArrayMatrix(rows, cols);
      var i := 0;
      while i < rows
        invariant 0 <= i <= rows
        invariant forall p, q :: 0 <= p < i && 0 <= q < cols ==> m.values[p, q] == values[p, q]
      {
        var j := 0;
        while j < cols
          invariant 0 <= j <= cols
          invariant forall p, q :: 0 <= p < i && 0 <= q < cols ==> m.values[p, q] == values[p, q]
          invariant forall q :: 0 <= q < j ==> m.values[i, q] == values[i, q]
        {
          m.values[i, j] := values[i, j];
          j := j + 1;
        }
        i := i + 1;
      }
      GridOfIs(m.values, Cells());
    }
  }
}
