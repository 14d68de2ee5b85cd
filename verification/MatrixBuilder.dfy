/** The matrix operations of lgc/builder/MatrixBuilder.cpp over exact real arithmetic.

A matrix value is a sequence of column vectors.  The determinant and the inverse work, as the
builder does, on the column-major list of all entries.
*/
module MatrixBuilder {
  import opened Determinant

  type Columns = seq<seq<real>>

  predicate Shape(m: Columns, rows: nat, columns: nat)
  {
    |m| == columns && forall c :: 0 <= c < columns ==> |m[c]| == rows
  }

  ghost function View(m: Columns): Matrix
  {
    (r, c) => if 0 <= c < |m| && 0 <= r < |m[c]| then m[c][r] else 0.0
  }

  // ----- positions in the column-major list of entries -----

  /** The position of row `r` of column `c` when columns have `n` entries. */
  function At(n: nat, r: nat, c: nat): nat { c * n + r }

  function Size(n: nat): nat { n * n }

  lemma Distribute(a: int, b: int, n: int)
    ensures (a + b) * n == a * n + b * n
  {
  }

  lemma Times(a: nat, b: nat)
    ensures 0 <= a * b
  {
  }

  lemma AtSteps(n: nat, r: nat, c: nat)
    ensures At(n, r + 1, c) == At(n, r, c) + 1
    ensures At(n, n, c) == At(n, 0, c + 1)
    ensures At(n, 0, 0) == 0 && At(n, 0, n) == Size(n)
  {
    Distribute(c, 1, n);
  }

  lemma AtInRange(n: nat, r: nat, c: nat)
    requires r < n && c < n
    ensures At(n, r, c) < Size(n)
  {
    Distribute(c + 1, n - c - 1, n);
    Times(n - c - 1, n);
    Distribute(c, 1, n);
  }

  lemma AtSplits(n: nat, r: nat, c: nat)
    requires r < n
    ensures At(n, r, c) / n == c && At(n, r, c) % n == r
  {
    var p := At(n, r, c);
    var q := p / n;
    Quotient(p, n);
    Distribute(q, c - q, n);
    if q < c {
      Distribute(c - q - 1, 1, n);
      Times(c - q - 1, n);
      assert false;
    } else if c < q {
      Distribute(c, q - c, n);
      Distribute(q - c - 1, 1, n);
      Times(q - c - 1, n);
      assert false;
    }
  }

  lemma Quotient(p: nat, n: nat)
    requires 0 < n
    ensures p == p / n * n + p % n && 0 <= p % n < n
  {
  }

  ghost function Linear(e: seq<real>, n: nat): Matrix
    requires |e| == Size(n)
  {
    (r, c) => if 0 <= r < n && 0 <= c < n then AtInRange(n, r, c); e[At(n, r, c)] else 0.0
  }

  lemma LinearAt(e: seq<real>, n: nat, r: nat, c: nat)
    requires |e| == Size(n) && r < n && c < n
    ensures At(n, r, c) < |e| && Linear(e, n)(r, c) == e[At(n, r, c)]
  {
    AtInRange(n, r, c);
  }

  // ----- submatrix -----

  /** How many of the first `k` indices remain when index `x` is deleted. */
  function Kept(x: nat, k: nat): nat { if k <= x then k else k - 1 }

  /** Where the entry at position `p` of a submatrix comes from. */
  ghost function Origin(p: nat, order: nat, row: nat, column: nat): nat
    requires 2 <= order
  {
    At(order, Skip(row, p % (order - 1)), Skip(column, p / (order - 1)))
  }

  lemma OriginAt(order: nat, row: nat, column: nat, r: nat, c: nat)
    requires 2 <= order && r < order && c < order && r != row && c != column
    ensures Kept(row, r) < order - 1 || row >= order
    ensures row < order ==> Origin(At(order - 1, Kept(row, r), Kept(column, c)), order, row, column) == At(order, r, c)
  {
    if row < order {
      AtSplits(order - 1, Kept(row, r), Kept(column, c));
    }
  }

  /** The first `n` entries of the submatrix are in place. */
  ghost predicate Copied(sub: seq<real>, n: nat, matrix: seq<real>, order: nat, row: nat, column: nat)
    requires 2 <= order
  {
    n <= |sub| &&
    forall p :: 0 <= p < n ==> Origin(p, order, row, column) < |matrix| && sub[p] == matrix[Origin(p, order, row, column)]
  }

  /** getSubmatrix: the entries outside one row and one column, in order. */
  method GetSubmatrix(matrix: seq<real>, submatrix: array<real>, order: nat, rowToDelete: nat, columnToDelete: nat)
    requires 2 <= order && rowToDelete < order && columnToDelete < order
    requires |matrix| == Size(order) && submatrix.Length == Size(order - 1)
    modifies submatrix
    ensures Agree(Linear(submatrix[..], order - 1), Minor(Linear(matrix, order), rowToDelete, columnToDelete), order - 1)
  {
    hide At;
    hide Size;
    hide Origin;
    var inElementIdx, outElementIdx := 0, 0;
    var columnIdx := 0;
    AtSteps(order, 0, 0);
    AtSteps(order - 1, 0, 0);
    while columnIdx != order
      invariant columnIdx <= order
      invariant inElementIdx == At(order, 0, columnIdx)
      invariant outElementIdx == At(order - 1, 0, Kept(columnToDelete, columnIdx))
      invariant Copied(submatrix[..], outElementIdx, matrix, order, rowToDelete, columnToDelete)
    {
      var rowIdx := 0;
      ghost var c := Kept(columnToDelete, columnIdx);
      while rowIdx != order
        invariant rowIdx <= order
        invariant inElementIdx == At(order, rowIdx, columnIdx)
        invariant outElementIdx == At(order - 1, if columnIdx == columnToDelete then 0 else Kept(rowToDelete, rowIdx), c)
        invariant Copied(submatrix[..], outElementIdx, matrix, order, rowToDelete, columnToDelete)
      {
        AtInRange(order, rowIdx, columnIdx);
        AtSteps(order, rowIdx, columnIdx);
        if rowIdx != rowToDelete && columnIdx != columnToDelete {
          ghost var r := Kept(rowToDelete, rowIdx);
          AtInRange(order - 1, r, c);
          AtSteps(order - 1, r, c);
          OriginAt(order, rowToDelete, columnToDelete, rowIdx, columnIdx);
          ghost var before := submatrix[..];
          submatrix[outElementIdx] := matrix[inElementIdx];
          assert submatrix[..] == before[outElementIdx := matrix[inElementIdx]];
          outElementIdx := outElementIdx + 1;
        }
        inElementIdx := inElementIdx + 1;
        rowIdx := rowIdx + 1;
      }
      AtSteps(order, 0, columnIdx);
      AtSteps(order - 1, 0, c);
      columnIdx := columnIdx + 1;
    }
    SubmatrixIsMinor(matrix, submatrix[..], order, rowToDelete, columnToDelete);
  }

  lemma SubmatrixIsMinor(matrix: seq<real>, sub: seq<real>, order: nat, row: nat, column: nat)
    requires 2 <= order && row < order && column < order
    requires |matrix| == Size(order) && |sub| == Size(order - 1)
    requires Copied(sub, |sub|, matrix, order, row, column)
    ensures Agree(Linear(sub, order - 1), Minor(Linear(matrix, order), row, column), order - 1)
  {
    hide At;
    hide Size;
    var S, M := Linear(sub, order - 1), Minor(Linear(matrix, order), row, column);
    forall r, c | 0 <= r < order - 1 && 0 <= c < order - 1
      ensures S(r, c) == M(r, c)
    {
      LinearAt(sub, order - 1, r, c);
      AtSplits(order - 1, r, c);
      MinorAt(Linear(matrix, order), row, column, r, c);
      LinearAt(matrix, order, Skip(row, r), Skip(column, c));
    }
  }

  // ----- determinant -----

  lemma DetOfOrderTwo(A: Matrix)
    ensures Det(A, 2) == A(0, 0) * A(1, 1) - A(1, 0) * A(0, 1)
  {
    DetOfOrderOne(Minor(A, 0, 0));
    DetOfOrderOne(Minor(A, 1, 0));
    MinorAt(A, 0, 0, 0, 0);
    MinorAt(A, 1, 0, 0, 0);
    assert Det(A, 2) == Sum(r => Term(A, 2, r), 2);
    assert Sum(r => Term(A, 2, r), 1) == Term(A, 2, 0);
  }

  lemma DetOfOrderOne(A: Matrix)
    ensures Det(A, 1) == A(0, 0)
  {
    assert Det(A, 1) == Sum(r => Term(A, 1, r), 1);
  }

  lemma SmallDeterminants(elements: seq<real>, order: nat)
    requires 1 <= order <= 2 && |elements| == Size(order)
    ensures |elements| == if order == 1 then 1 else 4
    ensures Det(Linear(elements, order), order) ==
            if order == 1 then elements[0] else elements[0] * elements[3] - elements[1] * elements[2]
  {
    hide Det;
    var A := Linear(elements, order);
    LinearAt(elements, order, 0, 0);
    if order == 1 {
      DetOfOrderOne(A);
    } else {
      DetOfOrderTwo(A);
      LinearAt(elements, order, 1, 0);
      LinearAt(elements, order, 0, 1);
      LinearAt(elements, order, 1, 1);
    }
  }

  lemma TermBySign(elements: seq<real>, sub: seq<real>, n: nat, r: nat)
    requires 2 <= n && r < n && |elements| == Size(n) && |sub| == Size(n - 1)
    requires Agree(Linear(sub, n - 1), Minor(Linear(elements, n), r, 0), n - 1)
    ensures r < |elements|
    ensures var product := elements[r] * Det(Linear(sub, n - 1), n - 1);
            Term(Linear(elements, n), n, r) == if r % 2 != 0 then -product else product
  {
    hide Det;
    hide Linear;
    var A := Linear(elements, n);
    DetSame(Linear(sub, n - 1), Minor(A, r, 0), n - 1);
    LinearAt(elements, n, r, 0);
    assert At(n, r, 0) == r;
  }

  /** determinant: the recursive expansion along the first column. */
  method Expand(elements: seq<real>, order: nat) returns (result: real)
    requires 1 <= order && |elements| == Size(order)
    ensures result == Det(Linear(elements, order), order)
    decreases order
  {
    hide Linear;
    hide Det;
    hide Term;
    hide Size;
    hide At;
    if order == 1 {
      SmallDeterminants(elements, order);
      return elements[0];
    }
    if order == 2 {
      SmallDeterminants(elements, order);
      return elements[0] * elements[3] - elements[1] * elements[2];
    }
    var submatrix := new real[Size(order - 1)];
    ghost var terms := r => Term(Linear(elements, order), order, r);
    var leadRowIdx := 0;
    result := 0.0;
    while leadRowIdx != order
      invariant leadRowIdx <= order
      invariant result == Sum(terms, leadRowIdx)
    {
      GetSubmatrix(elements, submatrix, order, leadRowIdx, 0);
      var subdeterminant := Expand(submatrix[..], order - 1);
      TermBySign(elements, submatrix[..], order, leadRowIdx);
      subdeterminant := elements[leadRowIdx] * subdeterminant;
      if leadRowIdx % 2 != 0 {
        result := result - subdeterminant;
      } else if leadRowIdx == 0 {
        result := subdeterminant;
      } else {
        result := result + subdeterminant;
      }
      leadRowIdx := leadRowIdx + 1;
    }
    DetIsSum(Linear(elements, order), order, terms);
  }

  lemma DetIsSum(A: Matrix, n: nat, terms: int -> real)
    requires 0 < n
    requires forall r :: terms(r) == Term(A, n, r)
    ensures Det(A, n) == Sum(terms, n)
  {
    hide Term;
    SumSame(r => Term(A, n, r), terms, n);
  }

  /** The extraction loop of CreateDeterminant and CreateMatrixInverse. */
  method ExtractElements(matrix: Columns, order: nat) returns (elements: seq<real>)
    requires Shape(matrix, order, order)
    ensures |elements| == Size(order)
    ensures Agree(Linear(elements, order), View(matrix), order)
  {
    hide At;
    hide Size;
    elements := [];
    var columnIdx := 0;
    AtSteps(order, 0, 0);
    while columnIdx != order
      invariant columnIdx <= order
      invariant |elements| == At(order, 0, columnIdx)
      invariant Extracted(elements, matrix, order)
    {
      var rowIdx := 0;
      while rowIdx != order
        invariant rowIdx <= order
        invariant |elements| == At(order, rowIdx, columnIdx)
        invariant Extracted(elements, matrix, order)
      {
        AtSplits(order, rowIdx, columnIdx);
        AtSteps(order, rowIdx, columnIdx);
        elements := elements + [matrix[columnIdx][rowIdx]];
        rowIdx := rowIdx + 1;
      }
      AtSteps(order, 0, columnIdx);
      columnIdx := columnIdx + 1;
    }
    ghost var A, V := Linear(elements, order), View(matrix);
    forall r, c | 0 <= r < order && 0 <= c < order
      ensures A(r, c) == V(r, c)
    {
      LinearAt(elements, order, r, c);
      AtSplits(order, r, c);
    }
  }

  ghost predicate Extracted(elements: seq<real>, matrix: Columns, order: nat)
    requires Shape(matrix, order, order)
  {
    forall p :: 0 <= p < |elements| ==> 0 < order && p / order < order && elements[p] == matrix[p / order][p % order]
  }

  method CreateDeterminant(matrix: Columns) returns (result: real)
    requires 2 <= |matrix| && Shape(matrix, |matrix|, |matrix|)
    ensures result == Det(View(matrix), |matrix|)
  {
    hide Linear;
    var elements := ExtractElements(matrix, |matrix|);
    result := Expand(elements, |matrix|);
    DetSame(Linear(elements, |matrix|), View(matrix), |matrix|);
  }

  // ----- inverse -----

  /** Entry (r, c) of the product of two matrices of order `n`. */
  ghost function Entry(A: Matrix, B: Matrix, n: nat, r: int, c: int): real
  {
    Sum(i => A(r, i) * B(i, c), n)
  }

  ghost predicate ProductIsIdentity(A: Matrix, B: Matrix, n: nat)
  {
    forall r, c :: 0 <= r < n && 0 <= c < n ==> Entry(A, B, n, r, c) == if r == c then 1.0 else 0.0
  }

  /** The entry that CreateMatrixInverse computes for row `r` and column `c`. */
  ghost function InverseEntry(A: Matrix, n: nat, r: int, c: int): real
    requires 0 < n && Det(A, n) != 0.0
  {
    Cofactor(A, n, c, r) * (1.0 / Det(A, n))
  }

  ghost predicate IsAdjugateInverse(R: Matrix, A: Matrix, n: nat)
    requires 0 < n && Det(A, n) != 0.0
  {
    forall r, c :: 0 <= r < n && 0 <= c < n ==> R(r, c) == InverseEntry(A, n, r, c)
  }

  lemma AdjugateIsLeftInverse(R: Matrix, A: Matrix, n: nat)
    requires 0 < n && Det(A, n) != 0.0 && IsAdjugateInverse(R, A, n)
    ensures ProductIsIdentity(R, A, n)
  {
    hide Det;
    hide Cofactor;
    hide ProductIsIdentity;
    var rcp := 1.0 / Det(A, n);
    forall r, c | 0 <= r < n && 0 <= c < n
      ensures Entry(R, A, n, r, c) == if r == c then 1.0 else 0.0
    {
      forall i | 0 <= i < n
        ensures R(r, i) * A(i, c) == rcp * (Cofactor(A, n, i, r) * A(i, c))
      {
        assert R(r, i) == InverseEntry(A, n, r, i);
        Reorder(Cofactor(A, n, i, r), rcp, A(i, c));
      }
      SumScale(rcp, i => Cofactor(A, n, i, r) * A(i, c), i => R(r, i) * A(i, c), n);
      CofactorsAgainstColumn(A, n, r, c);
    }
    assert ProductIsIdentity(R, A, n) by {
      UnfoldIdentity(R, A, n);
    }
  }

  lemma UnfoldIdentity(R: Matrix, A: Matrix, n: nat)
    requires forall r, c :: 0 <= r < n && 0 <= c < n ==> Entry(R, A, n, r, c) == if r == c then 1.0 else 0.0
    ensures ProductIsIdentity(R, A, n)
  {
  }

  lemma Reorder(x: real, y: real, z: real)
    ensures x * y * z == y * (x * z)
  {
  }

  lemma CofactorOfTransposed(A: Matrix, n: nat, r: nat, c: nat)
    requires r < n && c < n
    ensures Cofactor(Transposed(A), n, c, r) == Cofactor(A, n, r, c)
  {
    hide Det;
    MinorOfTransposed(A, n - 1, c, r);
    DetSame(Minor(Transposed(A), c, r), Transposed(Minor(A, r, c)), n - 1);
    TransposeKeepsDet(Minor(A, r, c), n - 1);
  }

  lemma AdjugateIsRightInverse(R: Matrix, A: Matrix, n: nat)
    requires 0 < n && Det(A, n) != 0.0 && IsAdjugateInverse(R, A, n)
    ensures ProductIsIdentity(A, R, n)
  {
    hide Det;
    hide Cofactor;
    var T, S := Transposed(A), Transposed(R);
    TransposeKeepsDet(A, n);
    forall r, c | 0 <= r < n && 0 <= c < n
      ensures S(r, c) == InverseEntry(T, n, r, c)
    {
      CofactorOfTransposed(A, n, r, c);
      assert R(c, r) == InverseEntry(A, n, c, r);
    }
    AdjugateIsLeftInverse(S, T, n);
    forall r, c | 0 <= r < n && 0 <= c < n
      ensures Entry(A, R, n, r, c) == if r == c then 1.0 else 0.0
    {
      SumSame(i => A(r, i) * R(i, c), i => S(c, i) * T(i, r), n);
      assert Entry(S, T, n, c, r) == if r == c then 1.0 else 0.0;
    }
  }

  /** CreateMatrixInverse: defined, as in the source, for matrices that are not singular. */
  method CreateMatrixInverse(matrix: Columns) returns (result: Columns)
    requires 2 <= |matrix| && Shape(matrix, |matrix|, |matrix|)
    requires Det(View(matrix), |matrix|) != 0.0
    ensures Shape(result, |matrix|, |matrix|)
    ensures IsAdjugateInverse(View(result), View(matrix), |matrix|)
    ensures ProductIsIdentity(View(result), View(matrix), |matrix|)
    ensures ProductIsIdentity(View(matrix), View(result), |matrix|)
  {
    hide Det;
    hide Linear;
    hide Size;
    hide At;
    hide IsAdjugateInverse;
    hide ProductIsIdentity;
    var order := |matrix|;
    ghost var A := View(matrix);
    var elements := ExtractElements(matrix, order);
    var resultElements := new real[Size(order)];
    var submatrix := new real[Size(order - 1)];
    var det := Expand(elements, order);
    DetSame(Linear(elements, order), A, order);
    var rcpDet := 1.0 / det;
    var negRcpDet := 0.0 - rcpDet;
    var columnIdx := 0;
    while columnIdx != order
      invariant columnIdx <= order
      invariant Filled(resultElements[..], A, order, columnIdx, 0)
    {
      var rowIdx := 0;
      while rowIdx != order
        invariant rowIdx <= order
        invariant Filled(resultElements[..], A, order, columnIdx, rowIdx)
      {
        GetSubmatrix(elements, submatrix, order, rowIdx, columnIdx);
        var cofactor := Expand(submatrix[..], order - 1);
        CofactorOfElements(elements, submatrix[..], A, order, rowIdx, columnIdx);
        ScaledCofactor(A, order, columnIdx, rowIdx, cofactor);
        cofactor := cofactor * (if (rowIdx + columnIdx) % 2 != 0 then negRcpDet else rcpDet);
        AtInRange(order, columnIdx, rowIdx);
        ghost var before := resultElements[..];
        resultElements[At(order, columnIdx, rowIdx)] := cofactor;
        assert resultElements[..] == before[At(order, columnIdx, rowIdx) := cofactor];
        FillOne(before, A, order, columnIdx, rowIdx, cofactor);
        rowIdx := rowIdx + 1;
      }
      FillNext(resultElements[..], A, order, columnIdx);
      columnIdx := columnIdx + 1;
    }
    result := CreateColumns(resultElements[..], order);
    FilledIsAdjugate(resultElements[..], result, A, order);
    AdjugateIsLeftInverse(View(result), A, order);
    AdjugateIsRightInverse(View(result), A, order);
  }

  /** The entries of the inverse are in place for all columns of A below `column`, and in it for the first `row` rows. */
  ghost predicate Filled(e: seq<real>, A: Matrix, n: nat, column: nat, row: nat)
    requires 0 < n && Det(A, n) != 0.0
  {
    |e| == Size(n) &&
    forall p :: 0 <= p < |e| && (p % n < column || (p % n == column && p / n < row)) ==>
                  e[p] == InverseEntry(A, n, p % n, p / n)
  }

  lemma FillOne(e: seq<real>, A: Matrix, n: nat, column: nat, row: nat, x: real)
    requires 0 < n && Det(A, n) != 0.0 && Filled(e, A, n, column, row) && column < n && row < n
    requires x == InverseEntry(A, n, column, row)
    ensures At(n, column, row) < |e| && Filled(e[At(n, column, row) := x], A, n, column, row + 1)
  {
    hide Det;
    hide Size;
    hide InverseEntry;
    AtInRange(n, column, row);
    AtSplits(n, column, row);
    var f := e[At(n, column, row) := x];
    forall p | 0 <= p < |f| && (p % n < column || (p % n == column && p / n < row + 1))
      ensures f[p] == InverseEntry(A, n, p % n, p / n)
    {
      Quotient(p, n);
    }
  }

  lemma FillNext(e: seq<real>, A: Matrix, n: nat, column: nat)
    requires 0 < n && Det(A, n) != 0.0 && Filled(e, A, n, column, n)
    ensures Filled(e, A, n, column + 1, 0)
  {
    hide Det;
    hide InverseEntry;
    forall p | 0 <= p < |e| && p % n < column + 1
      ensures p / n < n
    {
      Quotient(p, n);
      if p / n >= n {
        Distribute(n, p / n - n, n);
        Times(p / n - n, n);
        assert false;
      }
    }
  }

  lemma CofactorOfElements(elements: seq<real>, sub: seq<real>, A: Matrix, n: nat, row: nat, column: nat)
    requires 2 <= n && row < n && column < n && |elements| == Size(n) && |sub| == Size(n - 1)
    requires Agree(Linear(elements, n), A, n)
    requires Agree(Linear(sub, n - 1), Minor(Linear(elements, n), row, column), n - 1)
    ensures Det(Linear(sub, n - 1), n - 1) == Det(Minor(A, row, column), n - 1)
  {
    hide Det;
    hide Linear;
    DetSame(Linear(sub, n - 1), Minor(Linear(elements, n), row, column), n - 1);
    MinorsAgree(Linear(elements, n), A, n, row, column);
    DetSame(Minor(Linear(elements, n), row, column), Minor(A, row, column), n - 1);
  }

  lemma ScaledCofactor(A: Matrix, n: nat, r: nat, c: nat, minor: real)
    requires 0 < n && Det(A, n) != 0.0 && minor == Det(Minor(A, c, r), n - 1)
    ensures var rcp := 1.0 / Det(A, n);
            minor * (if (c + r) % 2 != 0 then 0.0 - rcp else rcp) == InverseEntry(A, n, r, c)
  {
    hide Det;
    hide Minor;
    var rcp := 1.0 / Det(A, n);
    if (c + r) % 2 != 0 {
      assert Sign(c + r) == -1.0;
      calc {
        minor * (0.0 - rcp);
        -1.0 * minor * rcp;
        InverseEntry(A, n, r, c);
      }
    }
  }

  /** The last loop of CreateMatrixInverse: build the result matrix from its list of entries. */
  method CreateColumns(entries: seq<real>, order: nat) returns (result: Columns)
    requires |entries| == Size(order)
    ensures Shape(result, order, order)
    ensures forall r, c :: 0 <= r < order && 0 <= c < order ==>
                             At(order, r, c) < |entries| && result[c][r] == entries[At(order, r, c)]
  {
    hide At;
    hide Size;
    result := [];
    for columnIdx := 0 to order
      invariant |result| == columnIdx
      invariant forall c :: 0 <= c < columnIdx ==> |result[c]| == order
      invariant forall r, c :: 0 <= r < order && 0 <= c < columnIdx ==>
                                 At(order, r, c) < |entries| && result[c][r] == entries[At(order, r, c)]
    {
      var column := [];
      for rowIdx := 0 to order
        invariant |column| == rowIdx
        invariant forall r :: 0 <= r < rowIdx ==>
                                At(order, r, columnIdx) < |entries| && column[r] == entries[At(order, r, columnIdx)]
      {
        AtInRange(order, rowIdx, columnIdx);
        column := column + [entries[At(order, rowIdx, columnIdx)]];
      }
      result := result + [column];
    }
  }

  lemma FilledIsAdjugate(e: seq<real>, result: Columns, A: Matrix, n: nat)
    requires 0 < n && Det(A, n) != 0.0 && Filled(e, A, n, n, 0) && Shape(result, n, n)
    requires forall r, c :: 0 <= r < n && 0 <= c < n ==> At(n, r, c) < |e| && result[c][r] == e[At(n, r, c)]
    ensures IsAdjugateInverse(View(result), A, n)
  {
    hide Det;
    hide At;
    hide InverseEntry;
    var R := View(result);
    forall r, c | 0 <= r < n && 0 <= c < n
      ensures R(r, c) == InverseEntry(A, n, r, c)
    {
      AtSplits(n, r, c);
      assert R(r, c) == result[c][r];
    }
  }

  // ----- products and transposition -----

  function Scaled(v: seq<real>, s: real): (w: seq<real>)
    ensures |w| == |v|
  {
    seq(|v|, i requires 0 <= i < |v| => v[i] * s)
  }

  function Added(v: seq<real>, w: seq<real>): (u: seq<real>)
    requires |v| == |w|
    ensures |u| == |v|
  {
    seq(|v|, i requires 0 <= i < |v| => v[i] + w[i])
  }

  /** CreateMatrixTimesVector: accumulate the columns, each scaled by one component of the vector. */
  method CreateMatrixTimesVector(matrix: Columns, vector: seq<real>, rowCount: nat) returns (result: seq<real>)
    requires matrix != [] && Shape(matrix, rowCount, |vector|)
    ensures |result| == rowCount
    ensures forall r :: 0 <= r < rowCount ==> result[r] == Entry(View(matrix), View([vector]), |vector|, r, 0)
  {
    ghost var A, V := View(matrix), View([vector]);
    result := [];
    var i := 0;
    while i < |matrix|
      invariant i <= |matrix|
      invariant 0 < i ==> |result| == rowCount
      invariant 0 < i ==> forall r :: 0 <= r < rowCount ==> result[r] == Entry(A, V, i, r, 0)
    {
      var partialResult := Scaled(matrix[i], vector[i]);
      forall r | 0 <= r < rowCount
        ensures Entry(A, V, i + 1, r, 0) == Entry(A, V, i, r, 0) + partialResult[r]
      {
        var f := k => A(r, k) * V(k, 0);
        assert f(i) == partialResult[r];
      }
      if i != 0 {
        result := Added(result, partialResult);
      } else {
        result := partialResult;
      }
      i := i + 1;
    }
  }

  /** CreateMatrixTimesMatrix: the columns of the product, one by one. */
  method CreateMatrixTimesMatrix(matrix1: Columns, matrix2: Columns, rows: nat) returns (result: Columns)
    requires matrix1 != [] && Shape(matrix1, rows, |matrix1|) && Shape(matrix2, |matrix1|, |matrix2|)
    ensures Shape(result, rows, |matrix2|)
    ensures forall r, c :: 0 <= r < rows && 0 <= c < |matrix2| ==>
                             result[c][r] == Entry(View(matrix1), View(matrix2), |matrix1|, r, c)
  {
    ghost var A, B := View(matrix1), View(matrix2);
    result := [];
    for i := 0 to |matrix2|
      invariant |result| == i
      invariant forall c :: 0 <= c < i ==> |result[c]| == rows
      invariant forall r, c :: 0 <= r < rows && 0 <= c < i ==> result[c][r] == Entry(A, B, |matrix1|, r, c)
    {
      var newColumnVector := CreateMatrixTimesVector(matrix1, matrix2[i], rows);
      forall r | 0 <= r < rows
        ensures newColumnVector[r] == Entry(A, B, |matrix1|, r, i)
      {
        ghost var column := View([matrix2[i]]);
        forall k | 0 <= k < |matrix1|
          ensures column(k, 0) == B(k, i)
        {
          assert column(k, 0) == matrix2[i][k] == B(k, i);
        }
        SumSame(k => A(r, k) * column(k, 0), k => A(r, k) * B(k, i), |matrix1|);
      }
      result := result + [newColumnVector];
    }
  }

  /** CreateTransposeMatrix: entry (r, c) moves to (c, r). */
  method CreateTransposeMatrix(matrix: Columns, rowCount: nat) returns (newMatrix: Columns)
    requires Shape(matrix, rowCount, |matrix|)
    ensures Shape(newMatrix, |matrix|, rowCount)
    ensures forall r, c :: 0 <= r < rowCount && 0 <= c < |matrix| ==> newMatrix[r][c] == matrix[c][r]
  {
    newMatrix := seq(rowCount, _ => []);
    for column := 0 to |matrix|
      invariant Shape(newMatrix, column, rowCount)
      invariant forall r, c :: 0 <= r < rowCount && 0 <= c < column ==> newMatrix[r][c] == matrix[c][r]
    {
      for row := 0 to rowCount
        invariant |newMatrix| == rowCount
        invariant forall r :: 0 <= r < rowCount ==> |newMatrix[r]| == if r < row then column + 1 else column
        invariant forall r, c :: 0 <= r < rowCount && 0 <= c < |newMatrix[r]| ==> newMatrix[r][c] == matrix[c][r]
      {
        newMatrix := newMatrix[row := newMatrix[row] + [matrix[column][row]]];
      }
    }
  }
}
