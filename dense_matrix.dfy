/** The dense matrix class of ReactPhysics3D's mathematics library.

    A Matrix owns a two-dimensional array of nbRow x nbColumn entries. Its
    shape is fixed when it is built (the three fields are constants), so no
    operation can change it. Every operation that yields a matrix allocates a
    new one and fills it with nested loops, as the C++ class does; each is
    proved to produce the corresponding function of module MatrixMath. */
module DenseMatrix {
  import opened MatrixMath

  /** Where the loop over rows of the cofactor has reached: rows before r,
      not counting the deleted row i. */
  function Before(r: nat, i: nat): nat {
    if r <= i then r else r - 1
  }

  /** The row (or column) of the original matrix that lands at position p of
      the cofactor when row (or column) i is deleted. */
  function Skip(p: nat, i: nat): nat {
    if p < i then p else p + 1
  }

  /** A matrix whose entry (p, q) is m's entry (Skip(p, i), Skip(q, j)) is
      the minor of m without row i and column j. */
  lemma MinorFromEntries(m: Mat, c: Mat, i: nat, j: nat)
    requires WellFormed(m) && 1 < |m| && 1 < |m[0]| && i < |m| && j < |m[0]|
    requires IsMatrix(c, |m| - 1, |m[0]| - 1)
    requires forall p, q :: 0 <= p < |m| - 1 && 0 <= q < |m[0]| - 1 ==> c[p][q] == m[Skip(p, i)][Skip(q, j)]
    ensures c == Minor(m, i, j)
  {
    forall p, q | 0 <= p < |m| - 1 && 0 <= q < |m[0]| - 1
      ensures c[p][q] == Minor(m, i, j)[p][q]
    {
      MinorEntry(m, i, j, p, q);
      assert Skip(p, i) == (if p < i then p else p + 1);
      assert Skip(q, j) == (if q < j then q else q + 1);
    }
    Extensionality(c, Minor(m, i, j), |m| - 1, |m[0]| - 1);
  }

  /** The closed formula for a 2x2 determinant, over named entries. */
  lemma DetTwoByTwo(m: Mat, a: real, b: real, c: real, d: real)
    requires IsSquare(m) && |m| == 2
    requires m[0][0] == a && m[0][1] == b && m[1][0] == c && m[1][1] == d
    ensures Det(m) == a * d - c * b
  {
  }

  /** The sign of the expansion flips from one column to the next. */
  lemma SignFlips(j: nat, k: real)
    requires k == Sign(j)
    ensures (if k == 1.0 then -1.0 else 1.0) == Sign(j + 1)
  {
    SignParity(j);
  }

  class Matrix {
    const nbRow: nat
    const nbColumn: nat
    const data: array2<real>

    ghost predicate Valid()
      reads this
    {
      0 < nbRow && 0 < nbColumn && data.Length0 == nbRow && data.Length1 == nbColumn
    }

    /** The entries, as a row-major sequence of rows. */
    ghost function Contents(): (m: Mat)
      reads this, data
      requires Valid()
      ensures WellFormed(m) && IsMatrix(m, nbRow, nbColumn)
      ensures forall i, j :: 0 <= i < nbRow && 0 <= j < nbColumn ==> m[i][j] == data[i, j]
    {
      seq(nbRow, i requires 0 <= i < nbRow reads data =>
        seq(nbColumn, j requires 0 <= j < nbColumn reads data => data[i, j]))
    }

    /** An array holding the entries of s has s as its contents. */
    lemma FilledWith(s: Mat)
      requires Valid() && IsMatrix(s, nbRow, nbColumn)
      requires forall p, q :: 0 <= p < nbRow && 0 <= q < nbColumn ==> data[p, q] == s[p][q]
      ensures Contents() == s
    {
      Extensionality(Contents(), s, nbRow, nbColumn);
    }

    /** An array of zeros, as Zeros and Create leave it, holds the zero
        matrix of its shape. */
    lemma ZeroContents()
      requires Valid()
      requires forall p, q :: 0 <= p < nbRow && 0 <= q < nbColumn ==> data[p, q] == 0.0
      ensures Contents() == Zero(nbRow, nbColumn)
    {
      FilledWith(Zero(nbRow, nbColumn));
    }

    /** Allocates the array and fills it with zeros. */
    constructor Zeros(nbRow: nat, nbColumn: nat)
      requires 0 < nbRow && 0 < nbColumn
      ensures Valid() && fresh(data)
      ensures this.nbRow == nbRow && this.nbColumn == nbColumn
      ensures forall p, q :: 0 <= p < nbRow && 0 <= q < nbColumn ==> data[p, q] == 0.0
    {
      var a := new real[nbRow, nbColumn];
      for i := 0 to nbRow
        invariant forall p, q :: 0 <= p < i && 0 <= q < nbColumn ==> a[p, q] == 0.0
      {
        for j := 0 to nbColumn
          invariant forall p, q :: 0 <= p < i && 0 <= q < nbColumn ==> a[p, q] == 0.0
          invariant forall q :: 0 <= q < j ==> a[i, q] == 0.0
        {
          a[i, j] := 0.0;
        }
      }
      this.nbRow := nbRow;
      this.nbColumn := nbColumn;
      data := a;
    }

    /** The constructor Matrix(nbRow, nbColumn): refuses a non-positive
        dimension with invalid_argument, otherwise builds a zero matrix. */
    static method Create(nbRow: int, nbColumn: int) returns (r: Result<Matrix>)
      ensures r.Ok? <==> 0 < nbRow && 0 < nbColumn
      ensures r.Err? ==> r.error == InvalidArgument
      ensures r.Ok? ==> fresh(r.value) && fresh(r.value.data) && r.value.Valid()
      ensures r.Ok? ==> r.value.nbRow == nbRow && r.value.nbColumn == nbColumn
      ensures r.Ok? ==> forall p, q :: 0 <= p < nbRow && 0 <= q < nbColumn ==> r.value.data[p, q] == 0.0
    {
      if 0 < nbRow && 0 < nbColumn {
        var m := new Matrix.Zeros(nbRow, nbColumn);
        r := Ok(m);
      } else {
        r := Err(InvalidArgument);
      }
    }

    /** The copy constructor: same shape, same entries, its own array. */
    constructor Copy(matrix: Matrix)
      requires matrix.Valid()
      ensures Valid() && fresh(data)
      ensures nbRow == matrix.nbRow && nbColumn == matrix.nbColumn
      ensures Contents() == matrix.Contents()
    {
      var a := new real[matrix.nbRow, matrix.nbColumn];
      for i := 0 to matrix.nbRow
        invariant forall p, q :: 0 <= p < i && 0 <= q < matrix.nbColumn ==> a[p, q] == matrix.data[p, q]
      {
        for j := 0 to matrix.nbColumn
          invariant forall p, q :: 0 <= p < i && 0 <= q < matrix.nbColumn ==> a[p, q] == matrix.data[p, q]
          invariant forall q :: 0 <= q < j ==> a[i, q] == matrix.data[i, q]
        {
          a[i, j] := matrix.data[i, j];
        }
      }
      nbRow := matrix.nbRow;
      nbColumn := matrix.nbColumn;
      data := a;
      new;
      Extensionality(Contents(), matrix.Contents(), nbRow, nbColumn);
    }

    /** getCofactor(i, j): the matrix without row i and column j. The entries
        are copied column by column; u and v are the row and column where the
        next one goes, and u wraps to 0 (moving v on) when the column is full.
        An index outside the matrix is refused with invalid_argument, and so is
        a matrix with one row or one column, whose cofactor would be empty. */
    method GetCofactor(i: int, j: int) returns (r: Result<Matrix>)
      requires Valid()
      ensures r.Ok? <==> 0 <= i < nbRow && 0 <= j < nbColumn && 1 < nbRow && 1 < nbColumn
      ensures r.Err? ==> r.error == InvalidArgument
      ensures r.Ok? ==> fresh(r.value) && fresh(r.value.data) && r.value.Valid()
      ensures r.Ok? ==> 0 <= i && 0 <= j && r.value.Contents() == Minor(Contents(), i, j)
    {
      if !(0 <= i < nbRow && 0 <= j < nbColumn) {
        return Err(InvalidArgument);
      }
      var created := Create(nbRow - 1, nbColumn - 1);
      if created.Err? {
        return Err(InvalidArgument);
      }
      var cofactor := created.value;
      var u, v := 0, 0;
      for s := 0 to nbColumn
        invariant u == 0 && v == Before(s, j)
        invariant forall p, q :: 0 <= p < nbRow - 1 && 0 <= q < v ==>
          cofactor.data[p, q] == data[Skip(p, i), Skip(q, j)]
      {
        for r := 0 to nbRow
          invariant s == j ==> u == 0 && v == Before(s, j)
          invariant s != j && Before(r, i) == nbRow - 1 ==> u == 0 && v == Before(s, j) + 1
          invariant s != j && Before(r, i) < nbRow - 1 ==> u == Before(r, i) && v == Before(s, j)
          invariant forall p, q :: 0 <= p < nbRow - 1 && 0 <= q < Before(s, j) ==>
            cofactor.data[p, q] == data[Skip(p, i), Skip(q, j)]
          invariant s != j ==> forall p :: 0 <= p < Before(r, i) ==>
            cofactor.data[p, Before(s, j)] == data[Skip(p, i), s]
        {
          if r != i && s != j {
            cofactor.data[u, v] := data[r, s];
            u := u + 1;
            if u == cofactor.nbRow {
              u := 0;
              v := v + 1;
            }
          }
        }
      }
      MinorFromEntries(Contents(), cofactor.Contents(), i, j);
      return Ok(cofactor);
    }

    /** getTranspose: an nbColumn x nbRow matrix with T[j][i] = A[i][j]. */
    method GetTranspose() returns (t: Matrix)
      requires Valid()
      ensures fresh(t) && fresh(t.data) && t.Valid()
      ensures t.nbRow == nbColumn && t.nbColumn == nbRow
      ensures t.Contents() == Transpose(Contents())
    {
      ghost var s := Transpose(Contents());
      t := new Matrix.Zeros(nbColumn, nbRow);
      for i := 0 to nbRow
        invariant forall p, q :: 0 <= p < i && 0 <= q < nbColumn ==> t.data[q, p] == s[q][p]
      {
        for j := 0 to nbColumn
          invariant forall p, q :: 0 <= p < i && 0 <= q < nbColumn ==> t.data[q, p] == s[q][p]
          invariant forall q :: 0 <= q < j ==> t.data[q, i] == s[q][i]
        {
          t.data[j, i] := data[i, j];
        }
      }
      t.FilledWith(s);
    }

    /** getDeterminant: refuses a non-square matrix with MatrixException;
        otherwise the entry, the 2x2 formula, or the expansion along row 0
        over the determinants of the cofactors. */
    method GetDeterminant() returns (r: Result<real>)
      requires Valid()
      ensures r.Err? <==> nbRow != nbColumn
      ensures r.Err? ==> r.error == MatrixException
      ensures r.Ok? ==> r.value == Det(Contents())
      decreases nbRow, 2
    {
      if nbRow != nbColumn {
        return Err(MatrixException);
      }
      ghost var m := Contents();
      if nbRow == 1 {
        assert data[0, 0] == m[0][0];
        return Ok(data[0, 0]);
      } else if nbRow == 2 {
        DetTwoByTwo(m, data[0, 0], data[0, 1], data[1, 0], data[1, 1]);
        return Ok(data[0, 0] * data[1, 1] - data[1, 0] * data[0, 1]);
      }
      var determinant := ExpandAlongFirstRow();
      return Ok(determinant);
    }

    /** The loop of getDeterminant for a square matrix of size 3 or more:
        adds the term of each column in turn, with the sign k starting at 1
        and flipping at every column. */
    method ExpandAlongFirstRow() returns (determinant: real)
      requires Valid() && nbRow == nbColumn && 2 < nbRow
      ensures determinant == Det(Contents())
      decreases nbRow, 1
    {
      ghost var m := Contents();
      determinant := 0.0;
      var k := 1.0;
      for j := 0 to nbColumn
        invariant determinant == FirstRowExpansion(m, j)
        invariant k == Sign(j)
        invariant Contents() == m
      {
        var term := ColumnTerm(m, j, k);
        determinant := determinant + term;
        SignFlips(j, k);
        if k == 1.0 {
          k := -1.0;
        } else {
          k := 1.0;
        }
      }
    }

    /** k * A[0][j] * getCofactor(0, j).getDeterminant(), the term of
        column j in the expansion along row 0. */
    method ColumnTerm(ghost m: Mat, j: nat, k: real) returns (term: real)
      requires Valid() && nbRow == nbColumn && 2 < nbRow && j < nbColumn
      requires m == Contents() && k == Sign(j)
      ensures IsSquare(m) && 1 < |m| && j < |m| && term == ExpansionTerm(m, j)
      decreases nbRow, 0
    {
      var cofactor := GetCofactor(0, j);
      var cofactorDeterminant := cofactor.value.GetDeterminant();
      term := k * data[0, j] * cofactorDeterminant.value;
    }

    /** k * getCofactor(i, j).getDeterminant(), entry (i, j) of the matrix
        that getInverse transposes. It fails as getCofactor does, which for
        valid indices of a square matrix means exactly the 1x1 case. */
    method SignedCofactor(ghost m: Mat, i: nat, j: nat, k: real) returns (r: Result<real>)
      requires Valid() && nbRow == nbColumn && i < nbRow && j < nbColumn
      requires m == Contents() && k == Sign(i + j)
      ensures r.Ok? <==> 1 < nbRow
      ensures r.Err? ==> r.error == InvalidArgument
      ensures r.Ok? ==> IsSquare(m) && 1 < |m| && r.value == SignedMinor(m, i, j)
    {
      var cofactor := GetCofactor(i, j);
      if cofactor.Err? {
        return Err(cofactor.error);
      }
      assert cofactor.value.Contents() == Minor(m, i, j);
      var cofactorDeterminant := cofactor.value.GetDeterminant();
      return Ok(k * cofactorDeterminant.value);
    }

    /** getInverse: refuses a non-square or singular matrix with
        MatrixException; otherwise the transpose of the signed-cofactor matrix
        scaled by 1/det. A 1x1 matrix fails in its first getCofactor call. */
    method GetInverse() returns (r: Result<Matrix>)
      requires Valid()
      ensures r.Err? <==> Inverse(Contents()).Err?
      ensures r.Err? ==> r.error == Inverse(Contents()).error
      ensures r.Ok? ==> fresh(r.value) && fresh(r.value.data) && r.value.Valid()
      ensures r.Ok? ==> r.value.Contents() == Inverse(Contents()).value
    {
      if nbRow != nbColumn {
        return Err(MatrixException);
      }
      var determinant := GetDeterminant();
      if determinant.value == 0.0 {
        return Err(MatrixException);
      }
      var tempMatrix := SignedCofactorMatrix();
      if tempMatrix.Err? {
        return Err(tempMatrix.error);
      }
      var transposed := tempMatrix.value.GetTranspose();
      var inverse := transposed.Times(1.0 / determinant.value);
      return Ok(inverse);
    }

    /** The double loop of getInverse: entry (i, j) is
        k * getCofactor(i, j).getDeterminant(), with k = 1 when i + j is even
        and -1 when it is odd. It fails with invalid_argument at the first
        getCofactor call of a 1x1 matrix. */
    method SignedCofactorMatrix() returns (r: Result<Matrix>)
      requires Valid() && nbRow == nbColumn
      ensures r.Ok? <==> 1 < nbRow
      ensures r.Err? ==> r.error == InvalidArgument
      ensures r.Ok? ==> fresh(r.value) && fresh(r.value.data) && r.value.Valid()
      ensures r.Ok? ==> 1 < nbRow && r.value.Contents() == SignedCofactors(Contents())
    {
      ghost var m := Contents();
      var tempMatrix := new Matrix.Zeros(nbRow, nbColumn);
      for i := 0 to nbRow
        invariant Contents() == m
        invariant 0 < i ==> 1 < nbRow
        invariant forall p, q :: 0 <= p < i && 0 <= q < nbColumn ==>
          tempMatrix.data[p, q] == SignedMinor(m, p, q)
      {
        for j := 0 to nbColumn
          invariant Contents() == m
          invariant 0 < i || 0 < j ==> 1 < nbRow
          invariant forall p, q :: 0 <= p < i && 0 <= q < nbColumn ==>
            tempMatrix.data[p, q] == SignedMinor(m, p, q)
          invariant forall q :: 0 <= q < j ==> tempMatrix.data[i, q] == SignedMinor(m, i, q)
        {
          var k := if (i + j) % 2 == 0 then 1.0 else -1.0;
          SignParity(i + j);
          var entry := SignedCofactor(m, i, j, k);
          if entry.Err? {
            // only a 1x1 matrix gets here: its cofactor would be 0x0
            return Err(entry.error);
          }
          tempMatrix.data[i, j] := entry.value;
        }
      }
      Extensionality(tempMatrix.Contents(), SignedCofactors(m), nbRow, nbColumn);
      return Ok(tempMatrix);
    }

    /** getTrace, as written: the sum of every entry, row by row. */
    method GetTrace() returns (sum: real)
      requires Valid()
      ensures sum == SumAll(Contents())
    {
      ghost var m := Contents();
      sum := 0.0;
      for i := 0 to nbRow
        invariant sum == SumRows(m, i)
      {
        for j := 0 to nbColumn
          invariant sum == SumRows(m, i) + RowSum(m[i], j)
        {
          sum := sum + data[i, j];
        }
      }
    }

    /** identityMatrix(dimension): refuses a non-positive dimension with
        invalid_argument, otherwise 1 on the diagonal and 0 elsewhere. */
    static method IdentityMatrix(dimension: int) returns (r: Result<Matrix>)
      ensures r.Ok? <==> 0 < dimension
      ensures r.Err? ==> r.error == InvalidArgument
      ensures r.Ok? ==> fresh(r.value) && fresh(r.value.data) && r.value.Valid()
      ensures r.Ok? ==> r.value.Contents() == Identity(dimension)
    {
      if dimension <= 0 {
        return Err(InvalidArgument);
      }
      ghost var s := Identity(dimension);
      var identity := new Matrix.Zeros(dimension, dimension);
      for i := 0 to dimension
        invariant forall p, q :: 0 <= p < i && 0 <= q < dimension ==> identity.data[p, q] == s[p][q]
      {
        for j := 0 to dimension
          invariant forall p, q :: 0 <= p < i && 0 <= q < dimension ==> identity.data[p, q] == s[p][q]
          invariant forall q :: 0 <= q < j ==> identity.data[i, q] == s[i][q]
        {
          if i == j {
            identity.data[i, j] := 1.0;
          } else {
            identity.data[i, j] := 0.0;
          }
        }
      }
      identity.FilledWith(s);
      return Ok(identity);
    }

    /** operator +: refuses different shapes with MatrixException, otherwise
        adds entry by entry. */
    method Plus(matrix2: Matrix) returns (r: Result<Matrix>)
      requires Valid() && matrix2.Valid()
      ensures r.Ok? <==> nbRow == matrix2.nbRow && nbColumn == matrix2.nbColumn
      ensures r.Err? ==> r.error == MatrixException
      ensures r.Ok? ==> fresh(r.value) && fresh(r.value.data) && r.value.Valid()
      ensures r.Ok? ==> r.value.Contents() == Add(Contents(), matrix2.Contents())
    {
      if !(nbRow == matrix2.nbRow && nbColumn == matrix2.nbColumn) {
        return Err(MatrixException);
      }
      var sumMatrix := new Matrix.Zeros(nbRow, nbColumn);
      for i := 0 to nbRow
        invariant forall p, q :: 0 <= p < i && 0 <= q < nbColumn ==>
          sumMatrix.data[p, q] == data[p, q] + matrix2.data[p, q]
      {
        for j := 0 to nbColumn
          invariant forall p, q :: 0 <= p < i && 0 <= q < nbColumn ==>
            sumMatrix.data[p, q] == data[p, q] + matrix2.data[p, q]
          invariant forall q :: 0 <= q < j ==> sumMatrix.data[i, q] == data[i, q] + matrix2.data[i, q]
        {
          sumMatrix.data[i, j] := data[i, j] + matrix2.data[i, j];
        }
      }
      sumMatrix.FilledWith(Add(Contents(), matrix2.Contents()));
      return Ok(sumMatrix);
    }

    /** operator -: refuses different shapes with MatrixException, otherwise
        subtracts entry by entry. */
    method Minus(matrix2: Matrix) returns (r: Result<Matrix>)
      requires Valid() && matrix2.Valid()
      ensures r.Ok? <==> nbRow == matrix2.nbRow && nbColumn == matrix2.nbColumn
      ensures r.Err? ==> r.error == MatrixException
      ensures r.Ok? ==> fresh(r.value) && fresh(r.value.data) && r.value.Valid()
      ensures r.Ok? ==> r.value.Contents() == Sub(Contents(), matrix2.Contents())
    {
      if !(nbRow == matrix2.nbRow && nbColumn == matrix2.nbColumn) {
        return Err(MatrixException);
      }
      var difference := new Matrix.Zeros(nbRow, nbColumn);
      for i := 0 to nbRow
        invariant forall p, q :: 0 <= p < i && 0 <= q < nbColumn ==>
          difference.data[p, q] == data[p, q] - matrix2.data[p, q]
      {
        for j := 0 to nbColumn
          invariant forall p, q :: 0 <= p < i && 0 <= q < nbColumn ==>
            difference.data[p, q] == data[p, q] - matrix2.data[p, q]
          invariant forall q :: 0 <= q < j ==> difference.data[i, q] == data[i, q] - matrix2.data[i, q]
        {
          difference.data[i, j] := data[i, j] - matrix2.data[i, j];
        }
      }
      difference.FilledWith(Sub(Contents(), matrix2.Contents()));
      return Ok(difference);
    }

    /** operator * with a number: every entry times nb. */
    method Times(nb: real) returns (result: Matrix)
      requires Valid()
      ensures fresh(result) && fresh(result.data) && result.Valid()
      ensures result.Contents() == Scale(Contents(), nb)
    {
      ghost var s := Scale(Contents(), nb);
      result := new Matrix.Zeros(nbRow, nbColumn);
      for i := 0 to nbRow
        invariant forall p, q :: 0 <= p < i && 0 <= q < nbColumn ==> result.data[p, q] == s[p][q]
      {
        for j := 0 to nbColumn
          invariant forall p, q :: 0 <= p < i && 0 <= q < nbColumn ==> result.data[p, q] == s[p][q]
          invariant forall q :: 0 <= q < j ==> result.data[i, q] == s[i][q]
        {
          result.data[i, j] := data[i, j] * nb;
        }
      }
      result.FilledWith(s);
    }

    /** operator * with a matrix: refuses nbColumn != matrix2.nbRow with
        MatrixException; otherwise entry (i, j) is the sum over k of
        A[i][k] * B[k][j]. */
    method Multiply(matrix2: Matrix) returns (r: Result<Matrix>)
      requires Valid() && matrix2.Valid()
      ensures r.Ok? <==> nbColumn == matrix2.nbRow
      ensures r.Err? ==> r.error == MatrixException
      ensures r.Ok? ==> fresh(r.value) && fresh(r.value.data) && r.value.Valid()
      ensures r.Ok? ==> r.value.Contents() == Product(Contents(), matrix2.Contents())
    {
      if nbColumn != matrix2.nbRow {
        return Err(MatrixException);
      }
      ghost var a := Contents();
      ghost var b := matrix2.Contents();
      var result := new Matrix.Zeros(nbRow, matrix2.nbColumn);
      for i := 0 to nbRow
        invariant forall p, q :: 0 <= p < i && 0 <= q < matrix2.nbColumn ==>
          result.data[p, q] == Dot(a, b, p, q, nbColumn)
      {
        for j := 0 to matrix2.nbColumn
          invariant forall p, q :: 0 <= p < i && 0 <= q < matrix2.nbColumn ==>
            result.data[p, q] == Dot(a, b, p, q, nbColumn)
          invariant forall q :: 0 <= q < j ==> result.data[i, q] == Dot(a, b, i, q, nbColumn)
        {
          var sum := RowTimesColumn(matrix2, i, j, a, b);
          result.data[i, j] := sum;
        }
      }
      result.FilledWith(Product(a, b));
      return Ok(result);
    }

    /** The innermost loop of operator *: the sum over k of A[i][k] * B[k][j],
        accumulated left to right. */
    method RowTimesColumn(matrix2: Matrix, i: nat, j: nat, ghost a: Mat, ghost b: Mat) returns (sum: real)
      requires Valid() && matrix2.Valid() && nbColumn == matrix2.nbRow
      requires i < nbRow && j < matrix2.nbColumn
      requires a == Contents() && b == matrix2.Contents()
      ensures sum == Dot(a, b, i, j, nbColumn)
    {
      sum := 0.0;
      for k := 0 to nbColumn
        invariant sum == Dot(a, b, i, j, k)
      {
        sum := sum + data[i, k] * matrix2.data[k, j];
      }
    }

    /** operator =: refuses a different shape with MatrixException (so the
        shape never changes); otherwise copies every entry of matrix2 into
        this matrix, skipping the copy on self-assignment. */
    method Assign(matrix2: Matrix) returns (r: Result<Matrix>)
      requires Valid() && matrix2.Valid()
      modifies data
      ensures r.Ok? <==> nbRow == matrix2.nbRow && nbColumn == matrix2.nbColumn
      ensures r.Err? ==> r.error == MatrixException && Contents() == old(Contents())
      ensures r.Ok? ==> r.value == this && Contents() == old(matrix2.Contents())
      ensures matrix2 == this ==> Contents() == old(Contents())
      ensures matrix2.Contents() == old(matrix2.Contents())
    {
      if !(nbRow == matrix2.nbRow && nbColumn == matrix2.nbColumn) {
        return Err(MatrixException);
      }
      ghost var source := matrix2.Contents();
      if this != matrix2 {
        for i := 0 to nbRow
          invariant forall p, q :: 0 <= p < nbRow && 0 <= q < nbColumn ==> matrix2.data[p, q] == source[p][q]
          invariant forall p, q :: 0 <= p < i && 0 <= q < nbColumn ==> data[p, q] == source[p][q]
        {
          for j := 0 to nbColumn
            invariant forall p, q :: 0 <= p < nbRow && 0 <= q < nbColumn ==> matrix2.data[p, q] == source[p][q]
            invariant forall p, q :: 0 <= p < i && 0 <= q < nbColumn ==> data[p, q] == source[p][q]
            invariant forall q :: 0 <= q < j ==> data[i, q] == source[i][q]
          {
            data[i, j] := matrix2.data[i, j];
          }
        }
      }
      Extensionality(Contents(), source, nbRow, nbColumn);
      Extensionality(matrix2.Contents(), source, nbRow, nbColumn);
      return Ok(this);
    }

    /** operator ==: refuses different shapes with MatrixException rather
        than answering false; otherwise true exactly when all entries agree. */
    method Equals(matrix2: Matrix) returns (r: Result<bool>)
      requires Valid() && matrix2.Valid()
      ensures r.Err? <==> !(nbRow == matrix2.nbRow && nbColumn == matrix2.nbColumn)
      ensures r.Err? ==> r.error == MatrixException
      ensures r.Ok? ==> (r.value <==> Contents() == matrix2.Contents())
    {
      if !(nbRow == matrix2.nbRow && nbColumn == matrix2.nbColumn) {
        return Err(MatrixException);
      }
      for i := 0 to nbRow
        invariant forall p, q :: 0 <= p < i && 0 <= q < nbColumn ==> data[p, q] == matrix2.data[p, q]
      {
        for j := 0 to nbColumn
          invariant forall p, q :: 0 <= p < i && 0 <= q < nbColumn ==> data[p, q] == matrix2.data[p, q]
          invariant forall q :: 0 <= q < j ==> data[i, q] == matrix2.data[i, q]
        {
          if data[i, j] != matrix2.data[i, j] {
            assert Contents()[i][j] != matrix2.Contents()[i][j];
            return Ok(false);
          }
        }
      }
      Extensionality(Contents(), matrix2.Contents(), nbRow, nbColumn);
      return Ok(true);
    }
  }
}
