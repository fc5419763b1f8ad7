/** Matrix kernels over exact reals and flat arrays: the unrolled, column-major and transposed forms against the plain
    ones. */
module Matrices {
  import opened Modular

  function At(m: seq<real>, i: int): real {
    if 0 <= i < |m| then m[i] else 0.0
  }

  /** The plain dot product, left to right: `n` elements of `a` from index `i` with stride `s` against `n` elements of
      `b` from index `j` with stride `t`. */
  function Dot(a: seq<real>, i: int, s: int, b: seq<real>, j: int, t: int, n: nat): real {
    if n == 0 then 0.0
    else Dot(a, i, s, b, j, t, n - 1) + At(a, i + (n - 1) * s) * At(b, j + (n - 1) * t)
  }

  lemma DotNone(a: seq<real>, s: int, b: seq<real>, j: int, t: int)
    ensures forall i :: Dot(a, i, s, b, j, t, 0) == 0.0
  {
  }

  /** Flat indices of a matrix are in range and count up row by row. */
  lemma FlatIndex(r: int, c: int, rows: int, cols: int)
    requires 0 <= r < rows && 0 <= c < cols
    ensures 0 <= r * cols + c < rows * cols
    ensures (r + 1) * cols == r * cols + cols
  {
    MulOrder(r, rows - 1, cols);
    MulOrder(0, r, cols);
  }

  lemma RowInRange(r: int, c: int, rows: int, stride: int, width: int)
    requires 0 <= r < rows && 0 <= c < width && stride > 0
    ensures 0 <= r * stride + c < (rows - 1) * stride + width
  {
    MulOrder(r, rows - 1, stride);
    MulOrder(0, r, stride);
  }

  lemma FlatDivMod(r: int, c: int, cols: int)
    requires 0 <= r && 0 <= c < cols
    ensures (r * cols + c) / cols == r && (r * cols + c) % cols == c
  {
    var x := r * cols + c;
    ModOf(x, r, c, cols);
    assert (x / cols - r) * cols == (x / cols) * cols - r * cols;
    if x / cols - r > 0 {
      MulAtLeast(x / cols - r, cols);
    } else if x / cols - r < 0 {
      MulAtLeast(r - x / cols, cols);
    }
  }

  /** The number of entries of `rows` rows of `cols` entries. */
  function Area(rows: int, cols: int): int {
    rows * cols
  }

  /** `FlatIndex` in terms of areas. */
  lemma AreaIndex(r: int, c: int, rows: int, cols: int)
    requires 0 <= r < rows && 0 <= c < cols
    ensures cols * r + c == r * cols + c == Area(r, cols) + c
    ensures 0 <= Area(r, cols) && Area(r, cols) + c < Area(rows, cols)
    ensures Area(r + 1, cols) == Area(r, cols) + cols
  {
    FlatIndex(r, c, rows, cols);
    FlatIndex(r, 0, rows, cols);
  }

  lemma NoArea(cols: int)
    ensures Area(0, cols) == 0
  {
  }

  lemma MulOrder(x: int, y: int, m: int)
    requires x <= y && m > 0
    ensures x * m <= y * m
  {
  }

  // ---------- matrix times vector ----------

  /** Row `r` of a row-major matrix against a vector. */
  function RowTimes(m: seq<real>, r: int, cols: nat, v: seq<real>): real {
    Dot(m, r * cols, 1, v, 0, 1, cols)
  }

  lemma RowTimesIs(m: seq<real>, r: int, cols: nat, v: seq<real>)
    ensures RowTimes(m, r, cols, v) == Dot(m, r * cols, 1, v, 0, 1, cols)
  {
  }

  predicate Sized(matrix: array?<real>, rows: int, cols: int, vector: array?<real>, result: array?<real>) {
    matrix != null && vector != null && result != null && rows > 0 && cols > 0
  }

  method MultiplyMvRowMajor(matrix: array?<real>, rows: int, cols: int, vector: array?<real>, result: array?<real>)
    returns (ok: bool)
    requires Sized(matrix, rows, cols, vector, result) ==>
      && matrix.Length >= rows * cols && vector.Length >= cols && result.Length >= rows
      && result != matrix && result != vector
    modifies result
    ensures ok <==> matrix != null && vector != null && result != null && rows > 0 && cols > 0
    ensures !ok && result != null ==> result[..] == old(result[..])
    ensures ok ==> forall r :: 0 <= r < result.Length ==>
      result[r] == if r < rows then RowTimes(matrix[..], r, cols, vector[..]) else old(result[r])
  {
    if matrix == null || vector == null || result == null {
      return false;
    }
    if rows <= 0 || cols <= 0 {
      return false;
    }
    ghost var m, v := matrix[..], vector[..];
    hide RowTimes;
    for row := 0 to rows
      invariant forall r :: 0 <= r < result.Length ==>
        result[r] == if r < row then RowTimes(m, r, cols, v) else old(result[r])
    {
      var temp := 0.0;
      for col := 0 to cols
        modifies {}
        invariant temp == Dot(m, row * cols, 1, v, 0, 1, col)
      {
        FlatIndex(row, col, rows, cols);
        temp := temp + matrix[row * cols + col] * vector[col];
      }
      RowTimesIs(m, row, cols, v);
      result[row] := temp;
    }
    assert matrix[..] == m && vector[..] == v;
    return true;
  }

  /** Four accumulators and a remainder loop give the plain dot product, for every length. */
  method DotProductUnrolled(matrix: array<real>, row: nat, vector: array<real>, cols: int) returns (total: real)
    requires 0 <= cols <= vector.Length && row + cols <= matrix.Length
    ensures total == Dot(matrix[..], row, 1, vector[..], 0, 1, cols)
  {
    var sum0, sum1, sum2, sum3 := 0.0, 0.0, 0.0, 0.0;
    var i := 0;
    while i <= cols - 4
      invariant 0 <= i <= cols
      invariant sum0 + sum1 + sum2 + sum3 == Dot(matrix[..], row, 1, vector[..], 0, 1, i)
    {
      DotFour(matrix[..], row, vector[..], i);
      sum0 := sum0 + matrix[row + i] * vector[i];
      sum1 := sum1 + matrix[row + i + 1] * vector[i + 1];
      sum2 := sum2 + matrix[row + i + 2] * vector[i + 2];
      sum3 := sum3 + matrix[row + i + 3] * vector[i + 3];
      i := i + 4;
    }
    total := sum0 + sum1 + sum2 + sum3;
    while i < cols
      invariant 0 <= i <= cols
      invariant total == Dot(matrix[..], row, 1, vector[..], 0, 1, i)
    {
      total := total + matrix[row + i] * vector[i];
      i := i + 1;
    }
  }

  lemma DotFour(a: seq<real>, i: int, b: seq<real>, n: nat)
    ensures Dot(a, i, 1, b, 0, 1, n + 4) == Dot(a, i, 1, b, 0, 1, n)
      + At(a, i + n) * At(b, n) + At(a, i + n + 1) * At(b, n + 1)
      + At(a, i + n + 2) * At(b, n + 2) + At(a, i + n + 3) * At(b, n + 3)
  {
    assert Dot(a, i, 1, b, 0, 1, n + 2)
        == Dot(a, i, 1, b, 0, 1, n) + At(a, i + n) * At(b, n) + At(a, i + n + 1) * At(b, n + 1);
  }

  method MultiplyMvRowMajorOptimised(matrix: array?<real>, rows: int, cols: int, vector: array?<real>,
                                     result: array?<real>)
    returns (ok: bool)
    requires Sized(matrix, rows, cols, vector, result) ==>
      && matrix.Length >= rows * cols && vector.Length >= cols && result.Length >= rows
      && result != matrix && result != vector
    modifies result
    ensures ok <==> matrix != null && vector != null && result != null && rows > 0 && cols > 0
    ensures !ok && result != null ==> result[..] == old(result[..])
    ensures ok ==> forall r :: 0 <= r < result.Length ==>
      result[r] == if r < rows then RowTimes(matrix[..], r, cols, vector[..]) else old(result[r])
  {
    if matrix == null || vector == null || result == null {
      return false;
    }
    if rows <= 0 || cols <= 0 {
      return false;
    }
    ghost var m, v := matrix[..], vector[..];
    hide RowTimes;
    for row := 0 to rows
      invariant forall r :: 0 <= r < result.Length ==>
        result[r] == if r < row then RowTimes(m, r, cols, v) else old(result[r])
    {
      FlatIndex(row, cols - 1, rows, cols);
      FlatIndex(row, 0, rows, cols);
      RowTimesIs(m, row, cols, v);
      result[row] := DotProductUnrolled(matrix, row * cols, vector, cols);
    }
    assert matrix[..] == m && vector[..] == v;
    return true;
  }

  lemma ColumnStep(m: seq<real>, rows: int, cols: int, v: seq<real>, row: int, col: int)
    requires 0 <= row < rows && 0 <= col < cols && |m| >= Area(cols, rows) && |v| >= cols
    ensures 0 <= col * rows + row < Area(cols, rows)
    ensures Dot(m, row, rows, v, 0, 1, col + 1) == Dot(m, row, rows, v, 0, 1, col) + m[col * rows + row] * v[col]
  {
    FlatIndex(col, row, cols, rows);
  }

  /** The inner loop of the column-major kernel: adds one more product to every entry. */
  method AddColumn(matrix: array<real>, rows: nat, cols: nat, vector: array<real>, col: nat, result: array<real>)
    requires matrix.Length >= Area(cols, rows) && vector.Length >= cols && result.Length >= rows && col < cols
    requires result != matrix && result != vector
    requires forall r :: 0 <= r < rows ==> result[r] == Dot(matrix[..], r, rows, vector[..], 0, 1, col)
    modifies result
    ensures forall r :: 0 <= r < result.Length ==>
      result[r] == if r < rows then Dot(matrix[..], r, rows, vector[..], 0, 1, col + 1) else old(result[r])
  {
    hide Dot, Area;
    ghost var m, v := matrix[..], vector[..];
    for row := 0 to rows
      invariant forall r :: 0 <= r < result.Length ==>
        result[r] == if r < row then Dot(m, r, rows, v, 0, 1, col + 1) else old(result[r])
    {
      ColumnStep(m, rows, cols, v, row, col);
      result[row] := result[row] + matrix[col * rows + row] * vector[col];
    }
    assert matrix[..] == m && vector[..] == v;
  }

  /** Accumulates column by column into the result; each entry still ends as one dot product. */
  method MultiplyMvColMajor(matrix: array?<real>, rows: int, cols: int, vector: array?<real>, result: array?<real>)
    returns (ok: bool)
    requires Sized(matrix, rows, cols, vector, result) ==>
      && matrix.Length >= Area(cols, rows) && vector.Length >= cols && result.Length >= rows
      && result != matrix && result != vector
    modifies result
    ensures ok <==> matrix != null && vector != null && result != null && rows > 0 && cols > 0
    ensures !ok && result != null ==> result[..] == old(result[..])
    ensures ok ==> forall r :: 0 <= r < result.Length ==>
      result[r] == if r < rows then Dot(matrix[..], r, rows, vector[..], 0, 1, cols) else old(result[r])
  {
    if matrix == null || vector == null || result == null {
      return false;
    }
    if rows <= 0 || cols <= 0 {
      return false;
    }
    ghost var m, v := matrix[..], vector[..];
    for row := 0 to rows
      invariant forall r :: 0 <= r < result.Length ==> result[r] == if r < row then 0.0 else old(result[r])
    {
      result[row] := 0.0;
    }
    DotNone(m, rows, v, 0, 1);
    hide Dot, Area, At;
    for col := 0 to cols
      invariant forall r :: 0 <= r < result.Length ==>
        result[r] == if r < rows then Dot(m, r, rows, v, 0, 1, col) else old(result[r])
    {
      AddColumn(matrix, rows, cols, vector, col, result);
    }
    assert matrix[..] == m && vector[..] == v;
    return true;
  }

  /** `c` is the column-major layout of the matrix whose row-major layout is `m`. */
  predicate Relaid(m: seq<real>, c: seq<real>, rows: int, cols: int) {
    forall i, j :: 0 <= i < rows && 0 <= j < cols ==> At(c, i + j * rows) == At(m, i * cols + j)
  }

  /** On a re-laid-out matrix the column-major kernel computes what the row-major kernel computes. */
  lemma {:induction false} ColumnMajorAgrees(m: seq<real>, c: seq<real>, v: seq<real>, rows: int, cols: int, r: int,
                                             n: nat)
    requires Relaid(m, c, rows, cols) && 0 <= r < rows && n <= cols
    ensures Dot(c, r, rows, v, 0, 1, n) == Dot(m, r * cols, 1, v, 0, 1, n)
  {
    if n > 0 {
      ColumnMajorAgrees(m, c, v, rows, cols, r, n - 1);
      assert At(c, r + (n - 1) * rows) == At(m, r * cols + (n - 1));
    }
  }

  // ---------- matrix times matrix ----------

  predicate SizedMm(a: array?<real>, rowsA: int, colsA: int, b: array?<real>, rowsB: int, colsB: int,
                    result: array?<real>)
  {
    a != null && b != null && result != null && rowsA > 0 && colsA > 0 && rowsB > 0 && colsB > 0
  }

  /** Entry `k` of the flat product of `a` and `b`. */
  function ProductAt(a: seq<real>, colsA: nat, b: seq<real>, colsB: nat, k: int): real
    requires colsB > 0
  {
    Dot(a, (k / colsB) * colsA, 1, b, k % colsB, colsB, colsA)
  }

  /** Entry `k` computed from the rows of both arguments, the second being stored transposed with row length `rowsB`. */
  function ProductAtTransposed(a: seq<real>, colsA: nat, bt: seq<real>, rowsB: int, colsB: nat, k: int): real
    requires colsB > 0
  {
    Dot(a, (k / colsB) * colsA, 1, bt, (k % colsB) * rowsB, 1, colsA)
  }

  lemma ProductEntry(a: seq<real>, colsA: nat, b: seq<real>, colsB: nat, r: nat, c: nat)
    requires c < colsB
    ensures ProductAt(a, colsA, b, colsB, r * colsB + c) == Dot(a, r * colsA, 1, b, c, colsB, colsA)
  {
    FlatDivMod(r, c, colsB);
  }

  lemma TransposedEntry(a: seq<real>, colsA: nat, bt: seq<real>, rowsB: int, colsB: nat, r: nat, c: nat)
    requires c < colsB
    ensures ProductAtTransposed(a, colsA, bt, rowsB, colsB, r * colsB + c)
         == Dot(a, r * colsA, 1, bt, c * rowsB, 1, colsA)
  {
    FlatDivMod(r, c, colsB);
  }

  lemma RowByColumnStep(a: seq<real>, rowA: nat, rowsA: nat, colsA: nat, b: seq<real>, colB: nat, colsB: nat, k: nat)
    requires rowA < rowsA && |a| >= Area(rowsA, colsA) && colB < colsB && |b| >= Area(colsA, colsB) && k < colsA
    ensures 0 <= colsA * rowA + k < |a| && 0 <= colsB * k + colB < |b|
    ensures Dot(a, rowA * colsA, 1, b, colB, colsB, k + 1)
         == Dot(a, rowA * colsA, 1, b, colB, colsB, k) + a[colsA * rowA + k] * b[colsB * k + colB]
  {
    FlatIndex(rowA, k, rowsA, colsA);
    FlatIndex(k, colB, colsA, colsB);
  }

  /** The innermost loop of the naive product. */
  method RowByColumn(a: array<real>, rowA: nat, rowsA: nat, colsA: nat, b: array<real>, colB: nat, colsB: nat)
    returns (dotResult: real)
    requires rowA < rowsA && a.Length >= Area(rowsA, colsA) && colB < colsB && b.Length >= Area(colsA, colsB)
    ensures dotResult == ProductAt(a[..], colsA, b[..], colsB, Area(rowA, colsB) + colB)
  {
    ProductEntry(a[..], colsA, b[..], colsB, rowA, colB);
    DotNone(a[..], 1, b[..], colB, colsB);
    hide ProductAt, Dot, Area;
    dotResult := 0.0;
    for colA := 0 to colsA
      invariant dotResult == Dot(a[..], rowA * colsA, 1, b[..], colB, colsB, colA)
    {
      RowByColumnStep(a[..], rowA, rowsA, colsA, b[..], colB, colsB, colA);
      dotResult := dotResult + a[colsA * rowA + colA] * b[colsB * colA + colB];
    }
  }

  method MultiplyMmNaive(a: array?<real>, rowsA: int, colsA: int, b: array?<real>, rowsB: int, colsB: int,
                         result: array?<real>)
    returns (ok: bool)
    requires SizedMm(a, rowsA, colsA, b, rowsB, colsB, result) ==>
      && a.Length >= Area(rowsA, colsA) && b.Length >= Area(rowsB, colsB) && result.Length >= Area(rowsA, colsB)
      && result != a && result != b
    modifies result
    ensures ok <==>
      && a != null && b != null && result != null
      && rowsA > 0 && colsA > 0 && rowsB > 0 && colsB > 0 && colsA == rowsB
    ensures !ok && result != null ==> result[..] == old(result[..])
    ensures ok ==> forall k :: 0 <= k < Area(rowsA, colsB) ==> result[k] == ProductAt(a[..], colsA, b[..], colsB, k)
  {
    if a == null || b == null || result == null {
      return false;
    }
    if rowsA <= 0 || colsA <= 0 || rowsB <= 0 || colsB <= 0 {
      return false;
    }
    if colsA != rowsB {
      return false;
    }
    ghost var x, y := a[..], b[..];
    hide ProductAt, Dot, Area;
    NoArea(colsB);
    ghost var base := 0;
    for rowA := 0 to rowsA
      invariant base == Area(rowA, colsB)
      invariant forall k :: 0 <= k < base ==> result[k] == ProductAt(x, colsA, y, colsB, k)
    {
      AreaIndex(rowA, 0, rowsA, colsB);
      for colB := 0 to colsB
        invariant forall k :: 0 <= k < base + colB ==> result[k] == ProductAt(x, colsA, y, colsB, k)
      {
        var dotResult := RowByColumn(a, rowA, rowsA, colsA, b, colB, colsB);
        AreaIndex(rowA, colB, rowsA, colsB);
        result[colsB * rowA + colB] := dotResult;
      }
      base := base + colsB;
    }
    assert a[..] == x && b[..] == y;
    return true;
  }

  lemma RowByRowStep(a: seq<real>, i: nat, rowsA: nat, colsA: nat, bt: seq<real>, j: nat, rowsB: nat, colsB: nat,
                     k: nat)
    requires i < rowsA && |a| >= Area(rowsA, colsA) && rowsB > 0 && k < colsA
    requires j < colsB && |bt| >= Area(colsB - 1, rowsB) + colsA
    ensures 0 <= i * colsA + k < |a| && 0 <= j * rowsB + k < |bt|
    ensures Dot(a, i * colsA, 1, bt, j * rowsB, 1, k + 1)
         == Dot(a, i * colsA, 1, bt, j * rowsB, 1, k) + a[i * colsA + k] * bt[j * rowsB + k]
  {
    FlatIndex(i, k, rowsA, colsA);
    RowInRange(j, k, colsB, rowsB, colsA);
  }

  /** The innermost loop of the transposed product, with the element product inlined or not. */
  method RowByRow(a: array<real>, i: nat, rowsA: nat, colsA: nat, bt: array<real>, j: nat, rowsB: nat, colsB: nat)
    returns (temp: real)
    requires i < rowsA && a.Length >= Area(rowsA, colsA) && rowsB > 0
    requires j < colsB && bt.Length >= Area(colsB - 1, rowsB) + colsA
    ensures temp == ProductAtTransposed(a[..], colsA, bt[..], rowsB, colsB, Area(i, colsB) + j)
  {
    TransposedEntry(a[..], colsA, bt[..], rowsB, colsB, i, j);
    DotNone(a[..], 1, bt[..], j * rowsB, 1);
    hide ProductAtTransposed, Dot, Area;
    temp := 0.0;
    for k := 0 to colsA
      invariant temp == Dot(a[..], i * colsA, 1, bt[..], j * rowsB, 1, k)
    {
      RowByRowStep(a[..], i, rowsA, colsA, bt[..], j, rowsB, colsB, k);
      temp := temp + a[i * colsA + k] * bt[j * rowsB + k];
    }
  }

  /** The three loops of the transposed product. */
  method FillTransposed(a: array<real>, rowsA: nat, colsA: nat, bt: array<real>, rowsB: nat, colsB: nat,
                        result: array<real>)
    requires rowsB > 0 && colsB > 0 && a.Length >= Area(rowsA, colsA) && bt.Length >= Area(colsB - 1, rowsB) + colsA
    requires result.Length >= Area(rowsA, colsB) && result != a && result != bt
    modifies result
    ensures forall k :: 0 <= k < Area(rowsA, colsB) ==>
      result[k] == ProductAtTransposed(a[..], colsA, bt[..], rowsB, colsB, k)
  {
    ghost var x, y := a[..], bt[..];
    hide ProductAtTransposed, Dot, Area;
    NoArea(colsB);
    ghost var base := 0;
    for i := 0 to rowsA
      invariant base == Area(i, colsB)
      invariant forall k :: 0 <= k < base ==> result[k] == ProductAtTransposed(x, colsA, y, rowsB, colsB, k)
    {
      AreaIndex(i, 0, rowsA, colsB);
      for j := 0 to colsB
        invariant forall k :: 0 <= k < base + j ==> result[k] == ProductAtTransposed(x, colsA, y, rowsB, colsB, k)
      {
        var temp := RowByRow(a, i, rowsA, colsA, bt, j, rowsB, colsB);
        AreaIndex(i, j, rowsA, colsB);
        result[i * colsB + j] := temp;
      }
      base := base + colsB;
    }
    assert a[..] == x && bt[..] == y;
  }

  /** The inner dimensions are not compared; `bt` must reach as far as its last row is read. */
  method MultiplyMmTransposedB(a: array?<real>, rowsA: int, colsA: int, bt: array?<real>, rowsB: int, colsB: int,
                               result: array?<real>)
    returns (ok: bool)
    requires SizedMm(a, rowsA, colsA, bt, rowsB, colsB, result) ==>
      && a.Length >= Area(rowsA, colsA) && bt.Length >= Area(colsB - 1, rowsB) + colsA
      && result.Length >= Area(rowsA, colsB) && result != a && result != bt
    modifies result
    ensures ok <==> a != null && bt != null && result != null && rowsA > 0 && colsA > 0 && rowsB > 0 && colsB > 0
    ensures !ok && result != null ==> result[..] == old(result[..])
    ensures ok ==> forall k :: 0 <= k < Area(rowsA, colsB) ==>
      result[k] == ProductAtTransposed(a[..], colsA, bt[..], rowsB, colsB, k)
  {
    if a == null || bt == null || result == null {
      return false;
    }
    if rowsA <= 0 || colsA <= 0 || rowsB <= 0 || colsB <= 0 {
      return false;
    }
    hide ProductAtTransposed, Area;
    FillTransposed(a, rowsA, colsA, bt, rowsB, colsB, result);
    return true;
  }

  /** `bt` stores the transpose of the `rows` by `cols` matrix `b`. */
  predicate Transposed(b: seq<real>, bt: seq<real>, rows: int, cols: int) {
    forall i, j :: 0 <= i < rows && 0 <= j < cols ==> At(bt, j * rows + i) == At(b, j + i * cols)
  }

  lemma {:induction false} TransposedDot(a: seq<real>, i: int, b: seq<real>, bt: seq<real>, rows: int, cols: int,
                                         j: int, n: nat)
    requires Transposed(b, bt, rows, cols) && 0 <= j < cols && n <= rows
    ensures Dot(a, i, 1, bt, j * rows, 1, n) == Dot(a, i, 1, b, j, cols, n)
  {
    if n > 0 {
      TransposedDot(a, i, b, bt, rows, cols, j, n - 1);
      assert At(bt, j * rows + (n - 1)) == At(b, j + (n - 1) * cols);
    }
  }

  /** With matching inner dimensions, multiplying by the stored transpose gives the naive product, entry by entry. */
  lemma TransposedProductAgrees(a: seq<real>, rowsA: int, colsA: int, b: seq<real>, bt: seq<real>, colsB: int)
    requires colsA > 0 && colsB > 0 && Transposed(b, bt, colsA, colsB)
    ensures forall k :: 0 <= k < Area(rowsA, colsB) ==>
      ProductAtTransposed(a, colsA, bt, colsA, colsB, k) == ProductAt(a, colsA, b, colsB, k)
  {
    forall k | 0 <= k < Area(rowsA, colsB)
      ensures ProductAtTransposed(a, colsA, bt, colsA, colsB, k) == ProductAt(a, colsA, b, colsB, k)
    {
      TransposedDot(a, (k / colsB) * colsA, b, bt, colsA, colsB, k % colsB, colsA);
    }
  }
}
