/** Determinants by expansion along the first column, for square real matrices of any order.

A matrix is a total function from (row, column) to its entry; only the entries below the
order matter.  The module proves the laws that CreateMatrixInverse relies on: a determinant
can be expanded along any column, it vanishes when two columns are equal, and it is not
changed by transposition.
*/
module Determinant {
  type Matrix = (int, int) -> real

  // ----- finite sums -----

  ghost function Sum(f: int -> real, n: nat): real
  {
    if n == 0 then 0.0 else Sum(f, n - 1) + f(n - 1)
  }

  lemma {:induction false} SumSame(f: int -> real, g: int -> real, n: nat)
    requires forall i :: 0 <= i < n ==> f(i) == g(i)
    ensures Sum(f, n) == Sum(g, n)
  {
    if n != 0 { SumSame(f, g, n - 1); }
  }

  lemma {:induction false} SumAdd(f: int -> real, g: int -> real, h: int -> real, n: nat)
    requires forall i :: 0 <= i < n ==> h(i) == f(i) + g(i)
    ensures Sum(h, n) == Sum(f, n) + Sum(g, n)
  {
    if n != 0 { SumAdd(f, g, h, n - 1); }
  }

  lemma {:induction false} SumScale(a: real, f: int -> real, h: int -> real, n: nat)
    requires forall i :: 0 <= i < n ==> h(i) == a * f(i)
    ensures Sum(h, n) == a * Sum(f, n)
  {
    if n != 0 { SumScale(a, f, h, n - 1); }
  }

  lemma {:induction false} SumZero(f: int -> real, n: nat)
    requires forall i :: 0 <= i < n ==> f(i) == 0.0
    ensures Sum(f, n) == 0.0
  {
    if n != 0 { SumZero(f, n - 1); }
  }

  ghost function RowSum(h: (int, int) -> real, i: int, n: nat): real
  {
    Sum(j => h(i, j), n)
  }

  ghost function ColumnSum(h: (int, int) -> real, j: int, m: nat): real
  {
    Sum(i => h(i, j), m)
  }

  /** The order of a double sum does not matter. */
  lemma {:induction false} SumSwap(h: (int, int) -> real, m: nat, n: nat)
    ensures Sum(i => RowSum(h, i, n), m) == Sum(j => ColumnSum(h, j, m), n)
  {
    if m == 0 {
      SumZero(j => ColumnSum(h, j, m), n);
    } else {
      SumSwap(h, m - 1, n);
      SumAdd(j => ColumnSum(h, j, m - 1), j => h(m - 1, j), j => ColumnSum(h, j, m), n);
    }
  }

  /** A double sum of terms that are `e` times the transposed terms. */
  lemma SumTransposed(e: real, a: (int, int) -> real, b: (int, int) -> real, n: nat)
    requires forall r, s :: 0 <= r < n && 0 <= s < n ==> b(s, r) == e * a(r, s)
    ensures Sum(s => RowSum(b, s, n), n) == e * Sum(r => RowSum(a, r, n), n)
  {
    SumSwap(a, n, n);
    forall s | 0 <= s < n
      ensures RowSum(b, s, n) == e * ColumnSum(a, s, n)
    {
      SumScale(e, r => a(r, s), r => b(s, r), n);
    }
    hide RowSum;
    hide ColumnSum;
    SumScale(e, s => ColumnSum(a, s, n), s => RowSum(b, s, n), n);
  }

  lemma {:induction false} SumFirst(f: int -> real, g: int -> real, n: nat)
    requires 0 < n
    requires forall i :: 0 <= i < n - 1 ==> g(i) == f(i + 1)
    ensures Sum(f, n) == f(0) + Sum(g, n - 1)
  {
    if n != 1 { SumFirst(f, g, n - 1); }
  }

  /** The index that position `i` had before index `x` was deleted. */
  function Skip(x: int, i: int): int { if i < x then i else i + 1 }

  /** The position of index `i` after index `x` has been deleted. */
  function Unskip(x: int, i: int): int { if i < x then i else i - 1 }

  /** A sum over the positions left by deleting `x` is a sum over all indices but `x`. */
  lemma {:induction false} SumSkip(f: int -> real, g: int -> real, x: int, n: nat)
    requires 0 <= x < n
    requires g(x) == 0.0
    requires forall i :: 0 <= i < n && i != x ==> g(i) == f(Unskip(x, i))
    ensures Sum(f, n - 1) == Sum(g, n)
  {
    if x == n - 1 {
      SumSame(f, g, n - 1);
    } else {
      SumSkip(f, g, x, n - 1);
      assert g(n - 1) == f(Unskip(x, n - 1)) == f(n - 2);
    }
  }

  // ----- the determinant -----

  function Sign(k: int): real { if k % 2 == 0 then 1.0 else -1.0 }

  /** The matrix without row `r` and column `c`. */
  ghost function Minor(A: Matrix, r: int, c: int): Matrix
  {
    (i, j) => A(Skip(r, i), Skip(c, j))
  }

  lemma MinorAt(A: Matrix, r: int, c: int, i: int, j: int)
    ensures Minor(A, r, c)(i, j) == A(Skip(r, i), Skip(c, j))
  {
  }

  /** Determinant by expansion along the first column. */
  ghost function Det(A: Matrix, n: nat): real
    decreases n, 0
  {
    if n == 0 then 1.0 else Sum(r => Term(A, n, r), n)
  }

  /** The contribution of row `r` to the expansion along the first column. */
  ghost function Term(A: Matrix, n: nat, r: int): real
    requires 0 < n
    decreases n - 1, 1
  {
    Sign(r) * A(r, 0) * Det(Minor(A, r, 0), n - 1)
  }

  ghost predicate Agree(A: Matrix, B: Matrix, n: nat)
  {
    forall i, j :: 0 <= i < n && 0 <= j < n ==> A(i, j) == B(i, j)
  }

  lemma MinorsAgree(A: Matrix, B: Matrix, n: nat, r: int, c: int)
    requires 0 <= r < n && 0 <= c < n
    requires forall i, j :: 0 <= i < n && 0 <= j < n && j != c ==> A(i, j) == B(i, j)
    ensures Agree(Minor(A, r, c), Minor(B, r, c), n - 1)
  {
    var M, N := Minor(A, r, c), Minor(B, r, c);
    forall i, j | 0 <= i < n - 1 && 0 <= j < n - 1
      ensures M(i, j) == N(i, j)
    {
      MinorAt(A, r, c, i, j);
      MinorAt(B, r, c, i, j);
    }
  }

  lemma {:induction false} DetSame(A: Matrix, B: Matrix, n: nat)
    requires Agree(A, B, n)
    ensures Det(A, n) == Det(B, n)
  {
    if n != 0 {
      forall r | 0 <= r < n
        ensures Term(A, n, r) == Term(B, n, r)
      {
        MinorsAgree(A, B, n, r, 0);
        DetSame(Minor(A, r, 0), Minor(B, r, 0), n - 1);
      }
      SumSame(r => Term(A, n, r), r => Term(B, n, r), n);
    }
  }

  // ----- swapping neighbouring columns -----

  function Swapped(j: int, c: int): int { if c == j then j + 1 else if c == j + 1 then j else c }

  ghost function SwapColumns(A: Matrix, j: int): Matrix
  {
    (r, c) => A(r, Swapped(j, c))
  }

  lemma SwapAt(A: Matrix, j: int, r: int, c: int)
    ensures SwapColumns(A, j)(r, c) == A(r, Swapped(j, c))
  {
  }

  /** The minor left by deleting rows `r` and `s` and the first two columns. */
  ghost function PairMinor(A: Matrix, r: int, s: int): Matrix
  {
    Minor(Minor(A, r, 0), Unskip(r, s), 0)
  }

  /** The expansion along the first two columns, by rows `r` and `s`. */
  ghost function PairTerm(A: Matrix, n: nat, r: int, s: int): real
    requires 2 <= n
  {
    if r == s then 0.0
    else Product(Sign(r) * Sign(Unskip(r, s)), A(r, 0), A(s, 1), Det(PairMinor(A, r, s), n - 2))
  }

  ghost function Pairs(A: Matrix, n: nat): (int, int) -> real
    requires 2 <= n
  {
    (r, s) => PairTerm(A, n, r, s)
  }

  lemma PairsAt(A: Matrix, n: nat, r: int, s: int)
    requires 2 <= n
    ensures Pairs(A, n)(r, s) == PairTerm(A, n, r, s)
  {
  }

  lemma ExpandTwice(A: Matrix, n: nat)
    requires 2 <= n
    ensures Det(A, n) == Sum(r => RowSum(Pairs(A, n), r, n), n)
  {
    forall r | 0 <= r < n
      ensures Term(A, n, r) == RowSum(Pairs(A, n), r, n)
    {
      ExpandRow(A, n, r);
    }
    SumSame(r => Term(A, n, r), r => RowSum(Pairs(A, n), r, n), n);
  }

  lemma ExpandRow(A: Matrix, n: nat, r: int)
    requires 2 <= n && 0 <= r < n
    ensures Term(A, n, r) == RowSum(Pairs(A, n), r, n)
  {
    hide Pairs;
    hide Minor;
    var a := Sign(r) * A(r, 0);
    var scaled := k => a * Term(Minor(A, r, 0), n - 1, k);
    SumScale(a, k => Term(Minor(A, r, 0), n - 1, k), scaled, n - 1);
    assert Term(A, n, r) == Sum(scaled, n - 1);
    PairRow(A, n, r, scaled);
  }

  lemma PairRow(A: Matrix, n: nat, r: int, scaled: int -> real)
    requires 2 <= n && 0 <= r < n
    requires forall k :: 0 <= k < n - 1 ==> scaled(k) == Sign(r) * A(r, 0) * Term(Minor(A, r, 0), n - 1, k)
    ensures Sum(scaled, n - 1) == RowSum(Pairs(A, n), r, n)
  {
    hide Term;
    var pair := s => Pairs(A, n)(r, s);
    forall s | 0 <= s < n && s != r
      ensures pair(s) == scaled(Unskip(r, s))
    {
      PairsAt(A, n, r, s);
      PairTermFactors(A, n, r, s);
    }
    PairsAt(A, n, r, r);
    SumSkip(scaled, pair, r, n);
  }

  lemma PairTermFactors(A: Matrix, n: nat, r: int, s: int)
    requires 2 <= n && 0 <= r < n && 0 <= s < n && r != s
    ensures PairTerm(A, n, r, s) == Sign(r) * A(r, 0) * Term(Minor(A, r, 0), n - 1, Unskip(r, s))
  {
    var k := Unskip(r, s);
    MinorAt(A, r, 0, k, 0);
    Regroup(Sign(r), A(r, 0), Sign(k), A(s, 1), Det(PairMinor(A, r, s), n - 2));
  }

  function Product(a: real, x: real, y: real, d: real): real { a * (x * y) * d }

  lemma Regroup(a: real, b: real, c: real, d: real, e: real)
    ensures a * b * (c * d * e) == Product(a * c, b, d, e)
  {
    calc {
      a * b * (c * d * e);
      a * (b * c) * (d * e);
      a * (c * b) * (d * e);
      a * c * (b * d) * e;
    }
  }

  lemma SwapFirstColumns(A: Matrix, n: nat)
    requires 2 <= n
    ensures Det(SwapColumns(A, 0), n) == -Det(A, n)
  {
    hide Det;
    hide Pairs;
    var a, b := Pairs(A, n), Pairs(SwapColumns(A, 0), n);
    ExpandTwice(A, n);
    ExpandTwice(SwapColumns(A, 0), n);
    forall r, s | 0 <= r < n && 0 <= s < n
      ensures b(s, r) == -1.0 * a(r, s)
    {
      PairsAt(A, n, r, s);
      PairsAt(SwapColumns(A, 0), n, s, r);
      PairTermSwaps(A, n, r, s);
    }
    SumTransposed(-1.0, a, b, n);
  }

  lemma PairMinorAt(A: Matrix, r: int, s: int, i: int, j: int)
    requires 0 <= j
    ensures PairMinor(A, r, s)(i, j) == A(Skip(r, Skip(Unskip(r, s), i)), j + 2)
  {
    var k := Unskip(r, s);
    MinorAt(Minor(A, r, 0), k, 0, i, j);
    MinorAt(A, r, 0, Skip(k, i), Skip(0, j));
  }

  lemma PairMinorsAgree(A: Matrix, n: nat, r: int, s: int)
    requires 2 <= n && 0 <= r < n && 0 <= s < n && r != s
    ensures Agree(PairMinor(A, r, s), PairMinor(SwapColumns(A, 0), s, r), n - 2)
  {
    var B := SwapColumns(A, 0);
    var MA, MB := PairMinor(A, r, s), PairMinor(B, s, r);
    forall i, j | 0 <= i < n - 2 && 0 <= j < n - 2
      ensures MA(i, j) == MB(i, j)
    {
      PairMinorAt(A, r, s, i, j);
      PairMinorAt(B, s, r, i, j);
      SwapAt(A, 0, Skip(s, Skip(Unskip(s, r), i)), j + 2);
    }
  }

  lemma PairSign(r: int, s: int)
    requires r != s
    ensures Sign(s) * Sign(Unskip(s, r)) == -1.0 * (Sign(r) * Sign(Unskip(r, s)))
  {
  }

  lemma SwapFactors(e: real, a: real, b: real, x: real, y: real, d: real)
    requires a == e * b
    ensures Product(a, y, x, d) == e * Product(b, x, y, d)
  {
    calc {
      a * (y * x) * d;
      e * b * (x * y) * d;
      e * (b * (x * y) * d);
    }
  }

  lemma PairTermSwaps(A: Matrix, n: nat, r: int, s: int)
    requires 2 <= n && 0 <= r < n && 0 <= s < n
    ensures PairTerm(SwapColumns(A, 0), n, s, r) == -1.0 * PairTerm(A, n, r, s)
  {
    if r != s {
      var B := SwapColumns(A, 0);
      hide Det;
      hide PairMinor;
      hide Sign;
      hide Unskip;
      hide Product;
      PairMinorsAgree(A, n, r, s);
      DetSame(PairMinor(A, r, s), PairMinor(B, s, r), n - 2);
      var d := Det(PairMinor(A, r, s), n - 2);
      var x, y := A(r, 0), A(s, 1);
      SwapAt(A, 0, s, 0);
      SwapAt(A, 0, r, 1);
      PairSign(r, s);
      SwapFactors(-1.0, Sign(s) * Sign(Unskip(s, r)), Sign(r) * Sign(Unskip(r, s)), x, y, d);
    }
  }

  lemma {:induction false} SwapNegates(A: Matrix, n: nat, j: int)
    requires 0 <= j && j + 1 < n
    ensures Det(SwapColumns(A, j), n) == -Det(A, n)
    decreases n
  {
    if j == 0 {
      SwapFirstColumns(A, n);
    } else {
      var B := SwapColumns(A, j);
      hide Term;
      forall r | 0 <= r < n
        ensures Term(B, n, r) == -1.0 * Term(A, n, r)
      {
        SwapNegates(Minor(A, r, 0), n - 1, j - 1);
        SwapInTerm(A, n, j, r);
      }
      SumScale(-1.0, r => Term(A, n, r), r => Term(B, n, r), n);
    }
  }

  lemma SwapInTerm(A: Matrix, n: nat, j: int, r: int)
    requires 1 <= j && j + 1 < n && 0 <= r < n
    requires Det(SwapColumns(Minor(A, r, 0), j - 1), n - 1) == -Det(Minor(A, r, 0), n - 1)
    ensures Term(SwapColumns(A, j), n, r) == -1.0 * Term(A, n, r)
  {
    hide Det;
    SwapInMinor(A, n, j, r);
    DetSame(Minor(SwapColumns(A, j), r, 0), SwapColumns(Minor(A, r, 0), j - 1), n - 1);
    SwapAt(A, j, r, 0);
    NegateFactor(Sign(r) * A(r, 0), Det(Minor(A, r, 0), n - 1));
  }

  lemma NegateFactor(a: real, b: real)
    ensures a * -b == -1.0 * (a * b)
  {
  }

  lemma SwapInMinor(A: Matrix, n: nat, j: int, r: int)
    requires 1 <= j && j + 1 < n && 0 <= r < n
    ensures Agree(Minor(SwapColumns(A, j), r, 0), SwapColumns(Minor(A, r, 0), j - 1), n - 1)
  {
    var M, N := Minor(SwapColumns(A, j), r, 0), SwapColumns(Minor(A, r, 0), j - 1);
    forall i, k | 0 <= i < n - 1 && 0 <= k < n - 1
      ensures M(i, k) == N(i, k)
    {
      MinorAt(SwapColumns(A, j), r, 0, i, k);
      SwapAt(A, j, Skip(r, i), k + 1);
      SwapAt(Minor(A, r, 0), j - 1, i, k);
      MinorAt(A, r, 0, i, Swapped(j - 1, k));
    }
  }

  // ----- expansion along any column -----

  function Fronted(a: int, c: int): int { if c == 0 then a else if c <= a then c - 1 else c }

  ghost function ToFront(A: Matrix, a: int): Matrix
  {
    (r, c) => A(r, Fronted(a, c))
  }

  lemma FrontAt(A: Matrix, a: int, r: int, c: int)
    ensures ToFront(A, a)(r, c) == A(r, Fronted(a, c))
  {
  }

  lemma {:induction false} ToFrontSign(A: Matrix, n: nat, a: int)
    requires 0 <= a < n
    ensures Det(ToFront(A, a), n) == Sign(a) * Det(A, n)
    decreases a
  {
    var F := ToFront(A, a);
    if a == 0 {
      forall r, c | 0 <= r < n && 0 <= c < n
        ensures F(r, c) == A(r, c)
      {
        FrontAt(A, a, r, c);
      }
      DetSame(F, A, n);
    } else {
      var B := SwapColumns(A, a - 1);
      var G := ToFront(B, a - 1);
      ToFrontSign(B, n, a - 1);
      SwapNegates(A, n, a - 1);
      forall r, c | 0 <= r < n && 0 <= c < n
        ensures F(r, c) == G(r, c)
      {
        FrontAt(A, a, r, c);
        FrontAt(B, a - 1, r, c);
        SwapAt(A, a - 1, r, Fronted(a - 1, c));
      }
      DetSame(F, G, n);
    }
  }

  /** The cofactor of the entry at row `r` and column `a`. */
  ghost function Cofactor(A: Matrix, n: nat, r: int, a: int): real
    requires 0 < n
  {
    Sign(r + a) * Det(Minor(A, r, a), n - 1)
  }

  /** Laplace expansion along an arbitrary column. */
  lemma ColumnExpansion(A: Matrix, n: nat, a: int)
    requires 0 <= a < n
    ensures Det(A, n) == Sum(r => Cofactor(A, n, r, a) * A(r, a), n)
  {
    hide Term;
    hide Cofactor;
    hide ToFront;
    var B := ToFront(A, a);
    var d, e := Det(A, n), Det(B, n);
    ToFrontSign(A, n, a);
    forall r | 0 <= r < n
      ensures Cofactor(A, n, r, a) * A(r, a) == Sign(a) * Term(B, n, r)
    {
      FrontTerm(A, n, r, a);
    }
    SumScale(Sign(a), r => Term(B, n, r), r => Cofactor(A, n, r, a) * A(r, a), n);
    SignTwice(a, d, e);
  }

  lemma SignTwice(a: int, d: real, e: real)
    requires e == Sign(a) * d
    ensures Sign(a) * e == d
  {
  }

  lemma FrontTerm(A: Matrix, n: nat, r: int, a: int)
    requires 0 <= a < n && 0 <= r < n
    ensures Cofactor(A, n, r, a) * A(r, a) == Sign(a) * Term(ToFront(A, a), n, r)
  {
    hide Det;
    FrontMinor(A, n, r, a);
    DetSame(Minor(ToFront(A, a), r, 0), Minor(A, r, a), n - 1);
    FrontAt(A, a, r, 0);
    SignOfSum(r, a);
    SignedProduct(Sign(a), Sign(r), A(r, a), Det(Minor(A, r, a), n - 1));
  }

  lemma SignOfSum(r: int, a: int)
    ensures Sign(r + a) == Sign(a) * Sign(r)
  {
  }

  lemma SignedProduct(s: real, t: real, x: real, d: real)
    ensures s * t * d * x == s * (t * x * d)
  {
    calc {
      s * t * d * x;
      s * (t * (d * x));
      s * (t * (x * d));
      s * (t * x * d);
    }
  }

  lemma FrontMinor(A: Matrix, n: nat, r: int, a: int)
    requires 0 <= a < n && 0 <= r < n
    ensures Agree(Minor(ToFront(A, a), r, 0), Minor(A, r, a), n - 1)
  {
    var M, N := Minor(ToFront(A, a), r, 0), Minor(A, r, a);
    forall i, j | 0 <= i < n - 1 && 0 <= j < n - 1
      ensures M(i, j) == N(i, j)
    {
      MinorAt(ToFront(A, a), r, 0, i, j);
      FrontAt(A, a, Skip(r, i), j + 1);
      MinorAt(A, r, a, i, j);
    }
  }

  // ----- equal columns -----

  lemma {:induction false} EqualToFirstColumn(A: Matrix, n: nat, b: int)
    requires 1 <= b < n
    requires forall r :: 0 <= r < n ==> A(r, 0) == A(r, b)
    ensures Det(A, n) == 0.0
    decreases b
  {
    var B := SwapColumns(A, b - 1);
    SwapNegates(A, n, b - 1);
    if b == 1 {
      forall r, c | 0 <= r < n && 0 <= c < n
        ensures A(r, c) == B(r, c)
      {
        SwapAt(A, 0, r, c);
      }
      DetSame(A, B, n);
    } else {
      forall r | 0 <= r < n
        ensures B(r, 0) == B(r, b - 1)
      {
        SwapAt(A, b - 1, r, 0);
        SwapAt(A, b - 1, r, b - 1);
      }
      EqualToFirstColumn(B, n, b - 1);
    }
  }

  lemma EqualColumns(A: Matrix, n: nat, a: int, b: int)
    requires 0 <= a < n && 0 <= b < n && a != b
    requires forall r :: 0 <= r < n ==> A(r, a) == A(r, b)
    ensures Det(A, n) == 0.0
  {
    var F := ToFront(A, a);
    var k := if b < a then b + 1 else b;
    hide Det;
    ToFrontSign(A, n, a);
    forall r | 0 <= r < n
      ensures F(r, 0) == F(r, k)
    {
      FrontAt(A, a, r, 0);
      FrontAt(A, a, r, k);
    }
    EqualToFirstColumn(F, n, k);
  }

  /** Cofactors of column `a` against column `b`: the determinant if a == b, and zero otherwise. */
  lemma CofactorsAgainstColumn(A: Matrix, n: nat, a: int, b: int)
    requires 0 <= a < n && 0 <= b < n
    ensures Sum(r => Cofactor(A, n, r, a) * A(r, b), n) == if a == b then Det(A, n) else 0.0
  {
    hide Det;
    hide Cofactor;
    if a == b {
      ColumnExpansion(A, n, a);
      SumSame(r => Cofactor(A, n, r, a) * A(r, b), r => Cofactor(A, n, r, a) * A(r, a), n);
    } else {
      var B := ReplaceColumn(A, a, b);
      forall r | 0 <= r < n
        ensures B(r, a) == B(r, b)
      {
        assert B(r, a) == A(r, b) && B(r, b) == A(r, b);
      }
      EqualColumns(B, n, a, b);
      ColumnExpansion(B, n, a);
      forall r | 0 <= r < n
        ensures Cofactor(A, n, r, a) * A(r, b) == Cofactor(B, n, r, a) * B(r, a)
      {
        CofactorIgnoresColumn(A, n, r, a, b);
        assert B(r, a) == A(r, b);
      }
      SumSame(r => Cofactor(A, n, r, a) * A(r, b), r => Cofactor(B, n, r, a) * B(r, a), n);
    }
  }

  ghost function ReplaceColumn(A: Matrix, a: int, b: int): Matrix
  {
    (r, c) => if c == a then A(r, b) else A(r, c)
  }

  lemma CofactorIgnoresColumn(A: Matrix, n: nat, r: int, a: int, b: int)
    requires 0 <= r < n && 0 <= a < n
    ensures Cofactor(ReplaceColumn(A, a, b), n, r, a) == Cofactor(A, n, r, a)
  {
    hide Det;
    var B := ReplaceColumn(A, a, b);
    forall i, j | 0 <= i < n && 0 <= j < n && j != a
      ensures A(i, j) == B(i, j)
    {
    }
    MinorsAgree(A, B, n, r, a);
    DetSame(Minor(A, r, a), Minor(B, r, a), n - 1);
  }

  // ----- transposition -----

  ghost function Transposed(A: Matrix): Matrix
  {
    (r, c) => A(c, r)
  }

  lemma MinorOfTransposed(A: Matrix, n: nat, r: int, c: int)
    ensures Agree(Minor(Transposed(A), r, c), Transposed(Minor(A, c, r)), n)
  {
    var M, N := Minor(Transposed(A), r, c), Transposed(Minor(A, c, r));
    forall i, j | 0 <= i < n && 0 <= j < n
      ensures M(i, j) == N(i, j)
    {
      MinorAt(Transposed(A), r, c, i, j);
      MinorAt(A, c, r, j, i);
    }
  }

  ghost function RowTerm(B: Matrix, m: nat, c: int): real
    requires 0 < m
  {
    Sign(c) * B(0, c) * Det(Minor(B, 0, c), m - 1)
  }

  lemma TransposedTerm(B: Matrix, m: nat, c: int)
    requires 0 <= c < m
    requires Det(Transposed(Minor(B, 0, c)), m - 1) == Det(Minor(B, 0, c), m - 1)
    ensures Term(Transposed(B), m, c) == RowTerm(B, m, c)
  {
    hide Det;
    MinorOfTransposed(B, m - 1, c, 0);
    DetSame(Minor(Transposed(B), c, 0), Transposed(Minor(B, 0, c)), m - 1);
  }

  /** Expansion along the first row, provided transposition keeps smaller determinants. */
  lemma FirstRowExpansion(B: Matrix, m: nat)
    requires 0 < m
    requires Det(Transposed(B), m) == Det(B, m)
    requires forall c :: 0 <= c < m ==> Det(Transposed(Minor(B, 0, c)), m - 1) == Det(Minor(B, 0, c), m - 1)
    ensures Det(B, m) == Sum(c => RowTerm(B, m, c), m)
  {
    hide Term;
    hide RowTerm;
    hide Transposed;
    var T := Transposed(B);
    forall c | 0 <= c < m
      ensures Term(T, m, c) == RowTerm(B, m, c)
    {
      TransposedTerm(B, m, c);
    }
    SumSame(c => Term(T, m, c), c => RowTerm(B, m, c), m);
  }

  ghost function CrossMinor(A: Matrix, r: int, c: int): Matrix
  {
    Minor(Minor(A, r + 1, 0), 0, c)
  }

  /** The term of row r + 1 and column c + 1 when both the first column and the first row are expanded. */
  ghost function CrossTerm(A: Matrix, n: nat, r: int, c: int): real
    requires 2 <= n
  {
    Product(Sign(r + 1) * Sign(c), A(r + 1, 0), A(0, c + 1), Det(CrossMinor(A, r, c), n - 2))
  }

  ghost function Crosses(A: Matrix, n: nat): (int, int) -> real
    requires 2 <= n
  {
    (r, c) => CrossTerm(A, n, r, c)
  }

  lemma {:induction false} TransposeKeepsDet(A: Matrix, n: nat)
    ensures Det(Transposed(A), n) == Det(A, n)
    decreases n, 1
  {
    hide Det;
    hide Sum;
    hide Crosses;
    hide RowSum;
    hide Minor;
    assert Transposed(A)(0, 0) == A(0, 0);
    if n <= 1 {
      DetSame(Transposed(A), A, n);
    } else {
      var m := n - 1;
      CrossExpansion(A, n, m);
      CrossExpansion(Transposed(A), n, m);
      CrossesTransposed(A, n, m);
      TransposeKeepsDet(Minor(A, 0, 0), m);
      MinorOfTransposed(A, m, 0, 0);
      DetSame(Minor(Transposed(A), 0, 0), Transposed(Minor(A, 0, 0)), m);
    }
  }

  lemma CrossesTransposed(A: Matrix, n: nat, m: nat)
    requires 2 <= n && m == n - 1
    ensures Sum(r => RowSum(Crosses(Transposed(A), n), r, m), m) == Sum(r => RowSum(Crosses(A, n), r, m), m)
    decreases n, 0, 1
  {
    hide Det;
    hide Crosses;
    hide CrossTerm;
    var a, t := Crosses(A, n), Crosses(Transposed(A), n);
    forall r, c | 0 <= r < m && 0 <= c < m
      ensures t(c, r) == 1.0 * a(r, c)
    {
      CrossesAt(A, n, r, c);
      CrossesAt(Transposed(A), n, c, r);
      CrossTermTransposed(A, n, r, c);
    }
    SumTransposed(1.0, a, t, m);
  }

  lemma CrossesAt(A: Matrix, n: nat, r: int, c: int)
    requires 2 <= n
    ensures Crosses(A, n)(r, c) == CrossTerm(A, n, r, c)
  {
  }

  lemma CrossMinorAt(A: Matrix, r: int, c: int, i: int, j: int)
    requires 0 <= i && 0 <= r
    ensures CrossMinor(A, r, c)(i, j) == A(Skip(r + 1, i + 1), Skip(0, Skip(c, j)))
  {
    MinorAt(Minor(A, r + 1, 0), 0, c, i, j);
    MinorAt(A, r + 1, 0, Skip(0, i), Skip(c, j));
  }

  lemma CrossMinorTransposed(A: Matrix, n: nat, r: int, c: int)
    requires 0 <= r && 0 <= c
    ensures Agree(CrossMinor(Transposed(A), c, r), Transposed(CrossMinor(A, r, c)), n)
  {
    var T := Transposed(A);
    var M, N := CrossMinor(T, c, r), Transposed(CrossMinor(A, r, c));
    forall i, j | 0 <= i < n && 0 <= j < n
      ensures M(i, j) == N(i, j)
    {
      CrossMinorAt(T, c, r, i, j);
      CrossMinorAt(A, r, c, j, i);
    }
  }

  lemma CrossSign(r: int, c: int)
    ensures Sign(c + 1) * Sign(r) == Sign(r + 1) * Sign(c)
  {
  }

  lemma CrossTermTransposed(A: Matrix, n: nat, r: int, c: int)
    requires 2 <= n && 0 <= r < n - 1 && 0 <= c < n - 1
    ensures CrossTerm(Transposed(A), n, c, r) == CrossTerm(A, n, r, c)
    decreases n, 0, 0
  {
    hide Det;
    hide CrossMinor;
    hide Sign;
    hide Product;
    var T := Transposed(A);
    var d := Det(CrossMinor(A, r, c), n - 2);
    CrossMinorTransposed(A, n - 2, r, c);
    DetSame(CrossMinor(T, c, r), Transposed(CrossMinor(A, r, c)), n - 2);
    TransposeKeepsDet(CrossMinor(A, r, c), n - 2);
    var x, y := A(r + 1, 0), A(0, c + 1);
    assert T(c + 1, 0) == y && T(0, r + 1) == x;
    CrossSign(r, c);
    SwapFactors(1.0, Sign(c + 1) * Sign(r), Sign(r + 1) * Sign(c), x, y, d);
  }

  lemma CrossExpansion(A: Matrix, n: nat, m: nat)
    requires 2 <= n && m == n - 1
    ensures Det(A, n) == A(0, 0) * Det(Minor(A, 0, 0), m) + Sum(r => RowSum(Crosses(A, n), r, m), m)
    decreases n, 0
  {
    hide Term;
    hide RowSum;
    hide Minor;
    var terms := r => Term(A, n, r);
    CrossRows(A, n, m, terms);
    FirstTerm(A, n);
    assert Det(A, n) == Sum(terms, n);
  }

  lemma CrossRows(A: Matrix, n: nat, m: nat, terms: int -> real)
    requires 2 <= n && m == n - 1
    requires forall r :: 0 <= r < n ==> terms(r) == Term(A, n, r)
    ensures Sum(terms, n) == terms(0) + Sum(r => RowSum(Crosses(A, n), r, m), m)
    decreases m, 4
  {
    hide Term;
    hide Crosses;
    hide RowSum;
    forall r | 0 <= r < m
      ensures RowSum(Crosses(A, n), r, m) == terms(r + 1)
    {
      CrossRow(A, n, m, r);
    }
    SumFirst(terms, r => RowSum(Crosses(A, n), r, m), n);
  }

  lemma FirstTerm(A: Matrix, n: nat)
    requires 0 < n
    ensures Term(A, n, 0) == A(0, 0) * Det(Minor(A, 0, 0), n - 1)
  {
  }

  lemma CrossRow(A: Matrix, n: nat, m: nat, r: int)
    requires 2 <= n && m == n - 1 && 0 <= r < m
    ensures RowSum(Crosses(A, n), r, m) == Term(A, n, r + 1)
    decreases m, 3
  {
    var a := Sign(r + 1) * A(r + 1, 0);
    hide Det;
    RowExpansion(Minor(A, r + 1, 0), m);
    CrossRowScaled(A, n, m, r, a);
  }

  lemma CrossRowScaled(A: Matrix, n: nat, m: nat, r: int, a: real)
    requires 2 <= n && m == n - 1 && 0 <= r < m && a == Sign(r + 1) * A(r + 1, 0)
    ensures RowSum(Crosses(A, n), r, m) == a * Sum(c => RowTerm(Minor(A, r + 1, 0), m, c), m)
  {
    hide RowTerm;
    hide CrossTerm;
    hide Minor;
    var t := Crosses(A, n);
    forall c | 0 <= c < m
      ensures t(r, c) == a * RowTerm(Minor(A, r + 1, 0), m, c)
    {
      CrossesAt(A, n, r, c);
      CrossTermFactors(A, n, r, c);
    }
    SumScale(a, c => RowTerm(Minor(A, r + 1, 0), m, c), c => t(r, c), m);
  }

  lemma CrossTermFactors(A: Matrix, n: nat, r: int, c: int)
    requires 2 <= n && 0 <= r && 0 <= c
    ensures CrossTerm(A, n, r, c) == Sign(r + 1) * A(r + 1, 0) * RowTerm(Minor(A, r + 1, 0), n - 1, c)
  {
    hide Det;
    MinorAt(A, r + 1, 0, 0, c);
    Regroup(Sign(r + 1), A(r + 1, 0), Sign(c), A(0, c + 1), Det(CrossMinor(A, r, c), n - 2));
  }

  lemma RowExpansion(B: Matrix, m: nat)
    requires 1 <= m
    ensures Det(B, m) == Sum(c => RowTerm(B, m, c), m)
    decreases m, 2
  {
    TransposeKeepsDet(B, m);
    forall c | 0 <= c < m
      ensures Det(Transposed(Minor(B, 0, c)), m - 1) == Det(Minor(B, 0, c), m - 1)
    {
      TransposeKeepsDet(Minor(B, 0, c), m - 1);
    }
    FirstRowExpansion(B, m);
  }
}
