/** The mathematics behind the dense matrix utility of ReactPhysics3D.

    A matrix is a row-major sequence of rows of reals (an abstraction of the
    `double` entries). Every operation of the utility is given here as a pure
    function, together with the lemmas that say what the operation means. The
    class in module DenseMatrix implements the same operations with loops over
    a two-dimensional array and is proved against these functions. */
module MatrixMath {

  /** The two exceptions the utility throws: `std::invalid_argument` and `MatrixException`. */
  datatype MatrixError = InvalidArgument | MatrixException

  /** An operation either returns its value or throws one of the two exceptions. */
  datatype Result<T> = Ok(value: T) | Err(error: MatrixError)

  type Mat = seq<seq<real>>

  /** `m` has exactly `rows` rows of `cols` entries each. */
  predicate IsMatrix(m: Mat, rows: nat, cols: nat) {
    |m| == rows && forall i :: 0 <= i < rows ==> |m[i]| == cols
  }

  /** A matrix the utility can hold: both dimensions are positive. */
  predicate WellFormed(m: Mat) {
    |m| > 0 && |m[0]| > 0 && IsMatrix(m, |m|, |m[0]|)
  }

  predicate IsSquare(m: Mat) {
    WellFormed(m) && |m| == |m[0]|
  }

  predicate SameShape(a: Mat, b: Mat)
    requires WellFormed(a) && WellFormed(b)
  {
    |a| == |b| && |a[0]| == |b[0]|
  }

  /** Two matrices of one shape are equal when all their entries are. */
  lemma Extensionality(a: Mat, b: Mat, rows: nat, cols: nat)
    requires IsMatrix(a, rows, cols) && IsMatrix(b, rows, cols)
    requires forall i, j :: 0 <= i < rows && 0 <= j < cols ==> a[i][j] == b[i][j]
    ensures a == b
  {
    assert forall i :: 0 <= i < rows ==> a[i] == b[i];
  }

  // ---------------------------------------------------------------------
  // Construction, identity, transpose
  // ---------------------------------------------------------------------

  /** The matrix the constructor builds: every entry is zero. */
  function Zero(rows: nat, cols: nat): (z: Mat)
    requires rows > 0 && cols > 0
    ensures WellFormed(z) && IsMatrix(z, rows, cols)
    ensures forall i, j :: 0 <= i < rows && 0 <= j < cols ==> z[i][j] == 0.0
  {
    seq(rows, i => seq(cols, j => 0.0))
  }

  function Identity(n: nat): (e: Mat)
    requires n > 0
    ensures IsSquare(e) && IsMatrix(e, n, n)
  {
    seq(n, i => seq(n, j => if i == j then 1.0 else 0.0))
  }

  function Transpose(m: Mat): (t: Mat)
    requires WellFormed(m)
    ensures WellFormed(t) && IsMatrix(t, |m[0]|, |m|)
  {
    seq(|m[0]|, j requires 0 <= j < |m[0]| => seq(|m|, i requires 0 <= i < |m| => m[i][j]))
  }

  /** Transposing twice gives back the original matrix. */
  lemma TransposeInvolutive(m: Mat)
    requires WellFormed(m)
    ensures Transpose(Transpose(m)) == m
  {
    var tt := Transpose(Transpose(m));
    forall i, j | 0 <= i < |m| && 0 <= j < |m[0]|
      ensures tt[i][j] == m[i][j]
    {
      assert tt[i][j] == Transpose(m)[j][i];
    }
    Extensionality(tt, m, |m|, |m[0]|);
  }

  lemma TransposeIdentity(n: nat)
    requires n > 0
    ensures Transpose(Identity(n)) == Identity(n)
  {
    var t := Transpose(Identity(n));
    forall i, j | 0 <= i < n && 0 <= j < n
      ensures t[i][j] == Identity(n)[i][j]
    {
      assert t[i][j] == Identity(n)[j][i];
    }
    Extensionality(t, Identity(n), n, n);
  }

  // ---------------------------------------------------------------------
  // Minors (what the source calls the cofactor matrix)
  // ---------------------------------------------------------------------

  /** `s` with its element at position `k` deleted. */
  function Without<T>(s: seq<T>, k: nat): (r: seq<T>)
    requires k < |s|
    ensures |r| == |s| - 1
    ensures forall t :: 0 <= t < |r| ==> r[t] == s[if t < k then t else t + 1]
  {
    s[..k] + s[k + 1..]
  }

  /** The matrix left after deleting row `i` and column `j`. */
  function Minor(m: Mat, i: nat, j: nat): (c: Mat)
    requires WellFormed(m) && 1 < |m| && 1 < |m[0]| && i < |m| && j < |m[0]|
    ensures WellFormed(c) && IsMatrix(c, |m| - 1, |m[0]| - 1)
  {
    var rows := Without(m, i);
    seq(|rows|, u requires 0 <= u < |rows| => Without(rows[u], j))
  }

  /** Entry (u, v) of the minor is the entry of the original matrix that
      skips row `i` and column `j`. */
  lemma MinorEntry(m: Mat, i: nat, j: nat, u: nat, v: nat)
    requires WellFormed(m) && 1 < |m| && 1 < |m[0]| && i < |m| && j < |m[0]|
    requires u < |m| - 1 && v < |m[0]| - 1
    ensures Minor(m, i, j)[u][v] == m[if u < i then u else u + 1][if v < j then v else v + 1]
  {
    var rows := Without(m, i);
    assert Minor(m, i, j)[u] == Without(rows[u], j);
  }

  /** Deleting row i and column j commutes with transposition. */
  lemma MinorTranspose(m: Mat, i: nat, j: nat)
    requires WellFormed(m) && 1 < |m| && 1 < |m[0]| && i < |m| && j < |m[0]|
    ensures Transpose(Minor(m, i, j)) == Minor(Transpose(m), j, i)
  {
    var a := Transpose(Minor(m, i, j));
    var b := Minor(Transpose(m), j, i);
    forall v, u | 0 <= v < |m[0]| - 1 && 0 <= u < |m| - 1
      ensures a[v][u] == b[v][u]
    {
      MinorEntry(m, i, j, u, v);
      MinorEntry(Transpose(m), j, i, v, u);
    }
    Extensionality(a, b, |m[0]| - 1, |m| - 1);
  }

  // ---------------------------------------------------------------------
  // Entry-wise operations and the product
  // ---------------------------------------------------------------------

  function Add(a: Mat, b: Mat): (s: Mat)
    requires WellFormed(a) && WellFormed(b) && SameShape(a, b)
    ensures WellFormed(s) && IsMatrix(s, |a|, |a[0]|)
  {
    seq(|a|, i requires 0 <= i < |a| => seq(|a[0]|, j requires 0 <= j < |a[0]| => a[i][j] + b[i][j]))
  }

  function Sub(a: Mat, b: Mat): (d: Mat)
    requires WellFormed(a) && WellFormed(b) && SameShape(a, b)
    ensures WellFormed(d) && IsMatrix(d, |a|, |a[0]|)
  {
    seq(|a|, i requires 0 <= i < |a| => seq(|a[0]|, j requires 0 <= j < |a[0]| => a[i][j] - b[i][j]))
  }

  function Scale(m: Mat, x: real): (s: Mat)
    requires WellFormed(m)
    ensures WellFormed(s) && IsMatrix(s, |m|, |m[0]|)
  {
    seq(|m|, i requires 0 <= i < |m| => seq(|m[0]|, j requires 0 <= j < |m[0]| => m[i][j] * x))
  }

  /** Subtracting what was added gives back the original matrix. */
  lemma SubUndoesAdd(a: Mat, b: Mat)
    requires WellFormed(a) && WellFormed(b) && SameShape(a, b)
    ensures Sub(Add(a, b), b) == a
  {
    var r := Sub(Add(a, b), b);
    forall i, j | 0 <= i < |a| && 0 <= j < |a[0]|
      ensures r[i][j] == a[i][j]
    {
      assert r[i][j] == Add(a, b)[i][j] - b[i][j];
    }
    Extensionality(r, a, |a|, |a[0]|);
  }

  lemma AddCommutes(a: Mat, b: Mat)
    requires WellFormed(a) && WellFormed(b) && SameShape(a, b)
    ensures Add(a, b) == Add(b, a)
  {
    Extensionality(Add(a, b), Add(b, a), |a|, |a[0]|);
  }

  /** The zero matrix the constructor builds is neutral for addition. */
  lemma AddZero(m: Mat)
    requires WellFormed(m)
    ensures Add(m, Zero(|m|, |m[0]|)) == m
  {
    Extensionality(Add(m, Zero(|m|, |m[0]|)), m, |m|, |m[0]|);
  }

  /** Scaling by a non-zero factor is undone by scaling with its reciprocal. */
  lemma ScaleUndo(m: Mat, x: real)
    requires WellFormed(m) && x != 0.0
    ensures Scale(Scale(m, x), 1.0 / x) == m
  {
    var r := Scale(Scale(m, x), 1.0 / x);
    forall i, j | 0 <= i < |m| && 0 <= j < |m[0]|
      ensures r[i][j] == m[i][j]
    {
      calc {
        r[i][j];
        Scale(m, x)[i][j] * (1.0 / x);
        (m[i][j] * x) * (1.0 / x);
        m[i][j] * (x * (1.0 / x));
        m[i][j];
      }
    }
    Extensionality(r, m, |m|, |m[0]|);
  }

  /** The first k terms of row i of `a` times column j of `b`, summed left to right. */
  function Dot(a: Mat, b: Mat, i: nat, j: nat, k: nat): real
    requires WellFormed(a) && WellFormed(b) && |a[0]| == |b|
    requires i < |a| && j < |b[0]| && k <= |b|
  {
    if k == 0 then 0.0 else Dot(a, b, i, j, k - 1) + a[i][k - 1] * b[k - 1][j]
  }

  function Product(a: Mat, b: Mat): (p: Mat)
    requires WellFormed(a) && WellFormed(b) && |a[0]| == |b|
    ensures WellFormed(p) && IsMatrix(p, |a|, |b[0]|)
  {
    seq(|a|, i requires 0 <= i < |a| =>
      seq(|b[0]|, j requires 0 <= j < |b[0]| => Dot(a, b, i, j, |b|)))
  }

  lemma {:induction false} DotIdentityLeft(m: Mat, i: nat, j: nat, k: nat)
    requires WellFormed(m) && i < |m| && j < |m[0]| && k <= |m|
    ensures Dot(Identity(|m|), m, i, j, k) == if i < k then m[i][j] else 0.0
  {
    if k > 0 {
      DotIdentityLeft(m, i, j, k - 1);
    }
  }

  lemma {:induction false} DotIdentityRight(m: Mat, i: nat, j: nat, k: nat)
    requires WellFormed(m) && i < |m| && j < |m[0]| && k <= |m[0]|
    ensures Dot(m, Identity(|m[0]|), i, j, k) == if j < k then m[i][j] else 0.0
  {
    if k > 0 {
      DotIdentityRight(m, i, j, k - 1);
    }
  }

  /** The identity matrix is neutral on both sides of the product. */
  lemma IdentityNeutral(m: Mat)
    requires WellFormed(m)
    ensures Product(Identity(|m|), m) == m
    ensures Product(m, Identity(|m[0]|)) == m
  {
    forall i, j | 0 <= i < |m| && 0 <= j < |m[0]|
      ensures Product(Identity(|m|), m)[i][j] == m[i][j]
      ensures Product(m, Identity(|m[0]|))[i][j] == m[i][j]
    {
      DotIdentityLeft(m, i, j, |m|);
      DotIdentityRight(m, i, j, |m[0]|);
    }
    Extensionality(Product(Identity(|m|), m), m, |m|, |m[0]|);
    Extensionality(Product(m, Identity(|m[0]|)), m, |m|, |m[0]|);
  }

  // ---------------------------------------------------------------------
  // Determinant and inverse
  // ---------------------------------------------------------------------

  /** The alternating sign: +1 at k = 0, flipping at every step, as the
      determinant loop toggles its k. */
  function Sign(k: nat): real {
    if k == 0 then 1.0 else -Sign(k - 1)
  }

  /** The sign is +1 at even k and -1 at odd k, the (i + j) % 2 test of
      getInverse. */
  lemma {:induction false} SignParity(k: nat)
    ensures Sign(k) == if k % 2 == 0 then 1.0 else -1.0
  {
    if k > 0 {
      SignParity(k - 1);
      assert (k - 1) % 2 == 0 <==> k % 2 == 1;
    }
  }

  /** The determinant: the entry for 1x1, the closed formula for 2x2,
      and the expansion along the first row otherwise. */
  function Det(m: Mat): real
    requires IsSquare(m)
    decreases |m|, 2, 0
  {
    if |m| == 1 then m[0][0]
    else if |m| == 2 then m[0][0] * m[1][1] - m[1][0] * m[0][1]
    else FirstRowExpansion(m, |m|)
  }

  /** The first k terms of the cofactor expansion along row 0, summed left to right. */
  function FirstRowExpansion(m: Mat, k: nat): real
    requires IsSquare(m) && 1 < |m| && k <= |m|
    decreases |m|, 1, k
  {
    if k == 0 then 0.0
    else FirstRowExpansion(m, k - 1) + ExpansionTerm(m, k - 1)
  }

  /** The term of column j in the expansion along row 0: the signed entry
      times the determinant of the minor without row 0 and column j. */
  function ExpansionTerm(m: Mat, j: nat): real
    requires IsSquare(m) && 1 < |m| && j < |m|
    decreases |m|, 0, 0
  {
    Sign(j) * m[0][j] * Det(Minor(m, 0, j))
  }

  /** The signed cofactor at (i, j): the determinant of the minor without
      row i and column j, negated when i + j is odd. */
  function SignedMinor(m: Mat, i: nat, j: nat): real
    requires IsSquare(m) && 1 < |m| && i < |m| && j < |m|
  {
    Sign(i + j) * Det(Minor(m, i, j))
  }

  /** The closed 2x2 formula is the cofactor expansion along the first row. */
  lemma DetTwoByTwoIsExpansion(m: Mat)
    requires IsSquare(m) && |m| == 2
    ensures Det(m) == FirstRowExpansion(m, 2)
  {
    MinorEntry(m, 0, 0, 0, 0);
    MinorEntry(m, 0, 1, 0, 0);
    assert Det(Minor(m, 0, 0)) == m[1][1];
    assert Det(Minor(m, 0, 1)) == m[1][0];
    assert FirstRowExpansion(m, 1) == m[0][0] * m[1][1];
  }

  /** Deleting the first row and column of an identity matrix leaves the next smaller one. */
  lemma MinorOfIdentity(n: nat)
    requires n > 1
    ensures Minor(Identity(n), 0, 0) == Identity(n - 1)
  {
    forall u, v | 0 <= u < n - 1 && 0 <= v < n - 1
      ensures Minor(Identity(n), 0, 0)[u][v] == Identity(n - 1)[u][v]
    {
      MinorEntry(Identity(n), 0, 0, u, v);
    }
    Extensionality(Minor(Identity(n), 0, 0), Identity(n - 1), n - 1, n - 1);
  }

  lemma {:induction false} ExpansionOfIdentity(n: nat, k: nat)
    requires 1 < n && 0 < k <= n
    ensures FirstRowExpansion(Identity(n), k) == Det(Minor(Identity(n), 0, 0))
  {
    if k > 1 {
      ExpansionOfIdentity(n, k - 1);
      assert Identity(n)[0][k - 1] == 0.0;
    }
  }

  /** The determinant of every identity matrix is 1. */
  lemma {:induction false} DetIdentity(n: nat)
    requires n > 0
    ensures Det(Identity(n)) == 1.0
  {
    if n > 2 {
      ExpansionOfIdentity(n, n);
      MinorOfIdentity(n);
      DetIdentity(n - 1);
    }
  }

  /** Entry (i, j) is the signed determinant of the minor at (i, j). */
  function SignedCofactors(m: Mat): (c: Mat)
    requires IsSquare(m) && 1 < |m|
    ensures IsSquare(c) && IsMatrix(c, |m|, |m|)
  {
    seq(|m|, i requires 0 <= i < |m| =>
      seq(|m|, j requires 0 <= j < |m| => SignedMinor(m, i, j)))
  }

  /** The inverse exactly as the utility computes it. A non-square or singular
      matrix is rejected with MatrixException. A 1x1 matrix is rejected too:
      its only cofactor would be a 0x0 matrix, which the constructor refuses
      with invalid_argument. */
  function Inverse(m: Mat): Result<Mat>
    requires WellFormed(m)
  {
    if !IsSquare(m) then Err(MatrixException)
    else if Det(m) == 0.0 then Err(MatrixException)
    else if |m| == 1 then Err(InvalidArgument)
    else Ok(Scale(Transpose(SignedCofactors(m)), 1.0 / Det(m)))
  }

  /** A non-singular 1x1 matrix has an inverse, yet the utility throws. */
  lemma OneByOneInverseThrows(x: real)
    requires x != 0.0
    ensures Inverse([[x]]) == Err(InvalidArgument)
  {
    assert Det([[x]]) == x;
  }

  /** The inverse as intended: the 1x1 case is the reciprocal of the entry. */
  function CorrectedInverse(m: Mat): (r: Result<Mat>)
    requires WellFormed(m)
    ensures r.Err? <==> !IsSquare(m) || Det(m) == 0.0
    ensures r.Err? ==> r.error == MatrixException
    ensures r.Ok? ==> IsMatrix(r.value, |m|, |m|)
    ensures 1 < |m| ==> r == Inverse(m)
  {
    if IsSquare(m) && |m| == 1 && Det(m) != 0.0 then Ok([[1.0 / m[0][0]]])
    else Inverse(m)
  }

  lemma SignedCofactorsTwoByTwo(m: Mat)
    requires IsSquare(m) && |m| == 2
    ensures SignedCofactors(m) == [[m[1][1], -m[1][0]], [-m[0][1], m[0][0]]]
  {
    var c := SignedCofactors(m);
    MinorEntry(m, 0, 0, 0, 0);
    MinorEntry(m, 0, 1, 0, 0);
    MinorEntry(m, 1, 0, 0, 0);
    MinorEntry(m, 1, 1, 0, 0);
    assert c[0][0] == Det(Minor(m, 0, 0)) == m[1][1];
    assert c[0][1] == -1.0 * Det(Minor(m, 0, 1)) == -m[1][0];
    assert c[1][0] == -1.0 * Det(Minor(m, 1, 0)) == -m[0][1];
    assert c[1][1] == Det(Minor(m, 1, 1)) == m[0][0];
    Extensionality(c, [[m[1][1], -m[1][0]], [-m[0][1], m[0][0]]], 2, 2);
  }

  /** The scaled adjugate of [[a, b], [c, e]] is [[e, -b], [-c, a]] scaled. */
  lemma ScaledAdjugateTwoByTwo(m: Mat, x: real)
    requires IsSquare(m) && |m| == 2
    ensures Scale(Transpose(SignedCofactors(m)), x)
         == [[m[1][1] * x, -m[0][1] * x], [-m[1][0] * x, m[0][0] * x]]
  {
    var c := SignedCofactors(m);
    SignedCofactorsTwoByTwo(m);
    var inv := Scale(Transpose(c), x);
    var expected := [[m[1][1] * x, -m[0][1] * x], [-m[1][0] * x, m[0][0] * x]];
    forall i, j | 0 <= i < 2 && 0 <= j < 2
      ensures inv[i][j] == expected[i][j]
    {
      assert inv[i][j] == c[j][i] * x;
    }
    Extensionality(inv, expected, 2, 2);
  }

  /** The products of a 2x2 matrix [[a, b], [c, e]] with its scaled adjugate. */
  lemma AdjugateAlgebra(a: real, b: real, c: real, e: real, d: real, x: real)
    requires d == a * e - c * b && d * x == 1.0
    ensures a * (e * x) + b * (-c * x) == 1.0
    ensures a * (-b * x) + b * (a * x) == 0.0
    ensures c * (e * x) + e * (-c * x) == 0.0
    ensures c * (-b * x) + e * (a * x) == 1.0
    ensures (e * x) * a + (-b * x) * c == 1.0
    ensures (e * x) * b + (-b * x) * e == 0.0
    ensures (-c * x) * a + (a * x) * c == 0.0
    ensures (-c * x) * b + (a * x) * e == 1.0
  {
    assert a * (e * x) + b * (-c * x) == (a * e - c * b) * x;
    assert c * (-b * x) + e * (a * x) == (a * e - c * b) * x;
    assert (e * x) * a + (-b * x) * c == (a * e - c * b) * x;
    assert (-c * x) * b + (a * x) * e == (a * e - c * b) * x;
  }

  lemma DotTwo(p: Mat, q: Mat, i: nat, j: nat)
    requires IsMatrix(p, 2, 2) && IsMatrix(q, 2, 2) && i < 2 && j < 2
    ensures Dot(p, q, i, j, 2) == p[i][0] * q[0][j] + p[i][1] * q[1][j]
  {
    assert Dot(p, q, i, j, 1) == p[i][0] * q[0][j];
  }

  lemma ProductTwoByTwo(p: Mat, q: Mat)
    requires IsMatrix(p, 2, 2) && IsMatrix(q, 2, 2)
    ensures Product(p, q) == [[p[0][0] * q[0][0] + p[0][1] * q[1][0], p[0][0] * q[0][1] + p[0][1] * q[1][1]],
                              [p[1][0] * q[0][0] + p[1][1] * q[1][0], p[1][0] * q[0][1] + p[1][1] * q[1][1]]]
  {
    var r := Product(p, q);
    var expected := [[p[0][0] * q[0][0] + p[0][1] * q[1][0], p[0][0] * q[0][1] + p[0][1] * q[1][1]],
                     [p[1][0] * q[0][0] + p[1][1] * q[1][0], p[1][0] * q[0][1] + p[1][1] * q[1][1]]];
    forall i, j | 0 <= i < 2 && 0 <= j < 2
      ensures r[i][j] == expected[i][j]
    {
      DotTwo(p, q, i, j);
      assert r[i][j] == Dot(p, q, i, j, 2);
    }
    Extensionality(r, expected, 2, 2);
  }

  lemma ProductOneByOne(p: Mat, q: Mat)
    requires IsMatrix(p, 1, 1) && IsMatrix(q, 1, 1)
    ensures Product(p, q) == [[p[0][0] * q[0][0]]]
  {
    assert Product(p, q)[0][0] == Dot(p, q, 0, 0, 1);
    Extensionality(Product(p, q), [[p[0][0] * q[0][0]]], 1, 1);
  }

  /** A 2x2 matrix [[a, b], [c, e]] times [[e, -b], [-c, a]] scaled by the
      reciprocal of its determinant is the identity, on both sides. */
  lemma AdjugateTwoByTwoIsInverse(m: Mat, d: real, x: real)
    requires IsMatrix(m, 2, 2)
    requires d == m[0][0] * m[1][1] - m[1][0] * m[0][1] && d * x == 1.0
    ensures Product(m, [[m[1][1] * x, -m[0][1] * x], [-m[1][0] * x, m[0][0] * x]]) == Identity(2)
    ensures Product([[m[1][1] * x, -m[0][1] * x], [-m[1][0] * x, m[0][0] * x]], m) == Identity(2)
  {
    var q := [[m[1][1] * x, -m[0][1] * x], [-m[1][0] * x, m[0][0] * x]];
    assert Product(m, q) == [[1.0, 0.0], [0.0, 1.0]] && Product(q, m) == [[1.0, 0.0], [0.0, 1.0]] by {
      var a, b, c, e := m[0][0], m[0][1], m[1][0], m[1][1];
      AdjugateAlgebra(a, b, c, e, d, x);
      assert q[0][0] == e * x && q[0][1] == -b * x && q[1][0] == -c * x && q[1][1] == a * x;
      ProductTwoByTwo(m, q);
      assert m[0][0] * q[0][0] + m[0][1] * q[1][0] == 1.0;
      assert m[0][0] * q[0][1] + m[0][1] * q[1][1] == 0.0;
      assert m[1][0] * q[0][0] + m[1][1] * q[1][0] == 0.0;
      assert m[1][0] * q[0][1] + m[1][1] * q[1][1] == 1.0;
      ProductTwoByTwo(q, m);
      assert q[0][0] * m[0][0] + q[0][1] * m[1][0] == 1.0;
      assert q[0][0] * m[0][1] + q[0][1] * m[1][1] == 0.0;
      assert q[1][0] * m[0][0] + q[1][1] * m[1][0] == 0.0;
      assert q[1][0] * m[0][1] + q[1][1] * m[1][1] == 1.0;
    }
    Extensionality(Identity(2), [[1.0, 0.0], [0.0, 1.0]], 2, 2);
  }

  lemma Reciprocal(d: real)
    requires d != 0.0
    ensures d * (1.0 / d) == 1.0
  {
  }

  /** A 2x2 matrix times its adjugate scaled by x is the identity when x is
      the reciprocal of the determinant, on both sides. */
  lemma ScaledAdjugateIsInverse(m: Mat, x: real)
    requires IsSquare(m) && |m| == 2 && (m[0][0] * m[1][1] - m[1][0] * m[0][1]) * x == 1.0
    ensures Product(m, Scale(Transpose(SignedCofactors(m)), x)) == Identity(2)
    ensures Product(Scale(Transpose(SignedCofactors(m)), x), m) == Identity(2)
  {
    ScaledAdjugateTwoByTwo(m, x);
    AdjugateTwoByTwoIsInverse(m, m[0][0] * m[1][1] - m[1][0] * m[0][1], x);
  }

  lemma CorrectedInverseOneByOne(m: Mat)
    requires IsSquare(m) && |m| == 1 && m[0][0] != 0.0
    ensures CorrectedInverse(m) == Ok([[1.0 / m[0][0]]])
    ensures Product(m, [[1.0 / m[0][0]]]) == Identity(1)
    ensures Product([[1.0 / m[0][0]]], m) == Identity(1)
  {
    var x := 1.0 / m[0][0];
    Reciprocal(m[0][0]);
    var inv := [[x]];
    assert inv[0][0] == x;
    ProductOneByOne(m, inv);
    ProductOneByOne(inv, m);
    assert m[0][0] * inv[0][0] == 1.0 && inv[0][0] * m[0][0] == 1.0;
    Extensionality(Identity(1), [[1.0]], 1, 1);
  }

  lemma CorrectedInverseTwoByTwo(m: Mat)
    requires IsSquare(m) && |m| == 2 && Det(m) != 0.0
    ensures CorrectedInverse(m) == Ok(Scale(Transpose(SignedCofactors(m)), 1.0 / Det(m)))
    ensures Product(m, Scale(Transpose(SignedCofactors(m)), 1.0 / Det(m))) == Identity(2)
    ensures Product(Scale(Transpose(SignedCofactors(m)), 1.0 / Det(m)), m) == Identity(2)
  {
    var d := Det(m);
    assert d == m[0][0] * m[1][1] - m[1][0] * m[0][1];
    Reciprocal(d);
    ScaledAdjugateIsInverse(m, 1.0 / d);
  }

  /** For 1x1 and 2x2 matrices the corrected inverse is a two-sided inverse. */
  lemma CorrectedInverseIsInverse(m: Mat)
    requires IsSquare(m) && |m| <= 2 && Det(m) != 0.0
    ensures CorrectedInverse(m).Ok?
    ensures Product(m, CorrectedInverse(m).value) == Identity(|m|)
    ensures Product(CorrectedInverse(m).value, m) == Identity(|m|)
  {
    if |m| == 1 {
      CorrectedInverseOneByOne(m);
    } else {
      CorrectedInverseTwoByTwo(m);
    }
  }

  // ---------------------------------------------------------------------
  // Trace
  // ---------------------------------------------------------------------

  /** The first k entries of a row, summed left to right. */
  function RowSum(row: seq<real>, k: nat): real
    requires k <= |row|
  {
    if k == 0 then 0.0 else RowSum(row, k - 1) + row[k - 1]
  }

  /** The entries of the first k rows, summed in row-major order. */
  function SumRows(m: Mat, k: nat): real
    requires k <= |m|
  {
    if k == 0 then 0.0 else SumRows(m, k - 1) + RowSum(m[k - 1], |m[k - 1]|)
  }

  /** What the utility's trace returns: the sum of every entry. */
  function SumAll(m: Mat): real {
    SumRows(m, |m|)
  }

  /** The first k diagonal entries, summed. */
  function DiagonalSum(m: Mat, k: nat): real
    requires IsSquare(m) && k <= |m|
  {
    if k == 0 then 0.0 else DiagonalSum(m, k - 1) + m[k - 1][k - 1]
  }

  /** Every entry off the diagonal is zero. */
  predicate IsDiagonal(m: Mat)
    requires IsSquare(m)
  {
    forall i, j :: 0 <= i < |m| && 0 <= j < |m| && i != j ==> m[i][j] == 0.0
  }

  /** A row that is zero except at position i sums to its entry at i. */
  lemma {:induction false} RowSumSingle(row: seq<real>, i: nat, k: nat)
    requires i < |row| && k <= |row|
    requires forall t :: 0 <= t < |row| && t != i ==> row[t] == 0.0
    ensures RowSum(row, k) == if i < k then row[i] else 0.0
  {
    if k > 0 {
      RowSumSingle(row, i, k - 1);
    }
  }

  /** On a diagonal matrix, summing every entry sums the diagonal. */
  lemma {:induction false} SumRowsOfDiagonal(m: Mat, k: nat)
    requires IsSquare(m) && k <= |m|
    ensures IsDiagonal(m) ==> SumRows(m, k) == DiagonalSum(m, k)
  {
    if k > 0 && IsDiagonal(m) {
      SumRowsOfDiagonal(m, k - 1);
      RowSumSingle(m[k - 1], k - 1, |m[k - 1]|);
    }
  }

  /** The trace as intended: the sum of the diagonal entries. On a matrix
      with nothing off the diagonal it agrees with the utility's sum of all
      entries. */
  function DiagonalTrace(m: Mat): (r: real)
    requires IsSquare(m)
    ensures IsDiagonal(m) ==> r == SumAll(m)
  {
    SumRowsOfDiagonal(m, |m|);
    DiagonalSum(m, |m|)
  }

  /** The utility's trace counts an off-diagonal entry that the trace does not. */
  lemma TraceCountsOffDiagonal()
    ensures IsSquare([[0.0, 1.0], [0.0, 0.0]])
    ensures SumAll([[0.0, 1.0], [0.0, 0.0]]) == 1.0
    ensures DiagonalTrace([[0.0, 1.0], [0.0, 0.0]]) == 0.0
  {
    var m := [[0.0, 1.0], [0.0, 0.0]];
    assert RowSum(m[0], 2) == 1.0;
    assert RowSum(m[1], 2) == 0.0;
  }

  lemma {:induction false} DiagonalSumDiagonalOnly(a: Mat, b: Mat, k: nat)
    requires IsSquare(a) && IsSquare(b) && |a| == |b| && k <= |a|
    requires forall t :: 0 <= t < |a| ==> a[t][t] == b[t][t]
    ensures DiagonalSum(a, k) == DiagonalSum(b, k)
  {
    if k > 0 {
      DiagonalSumDiagonalOnly(a, b, k - 1);
    }
  }

  /** The trace depends on the diagonal entries alone. */
  lemma DiagonalTraceDiagonalOnly(a: Mat, b: Mat)
    requires IsSquare(a) && IsSquare(b) && |a| == |b|
    requires forall t :: 0 <= t < |a| ==> a[t][t] == b[t][t]
    ensures DiagonalTrace(a) == DiagonalTrace(b)
  {
    DiagonalSumDiagonalOnly(a, b, |a|);
  }

  lemma {:induction false} DiagonalSumIdentity(n: nat, k: nat)
    requires 0 < n && k <= n
    ensures DiagonalSum(Identity(n), k) == k as real
  {
    if k > 0 {
      DiagonalSumIdentity(n, k - 1);
    }
  }

  /** The trace of the n x n identity matrix is n. */
  lemma DiagonalTraceIdentity(n: nat)
    requires n > 0
    ensures DiagonalTrace(Identity(n)) == n as real
  {
    DiagonalSumIdentity(n, n);
  }

  /** The trace of a transpose is the trace of the matrix. */
  lemma DiagonalTraceTranspose(m: Mat)
    requires IsSquare(m)
    ensures IsSquare(Transpose(m)) && DiagonalTrace(Transpose(m)) == DiagonalTrace(m)
  {
    DiagonalTraceDiagonalOnly(Transpose(m), m);
  }
}
