/** The cases of `MatrixUtilsTests`, and the agreement of the two
    multiplication paths on every input. */
module MatrixUtilsTests {
  import opened Wrappers
  import opened JavaInt
  import opened Regions
  import opened MatrixUtils

  /** The Java array literal `{{...}, ...}` of a `width`-wide matrix. */
  method FromRows(rows: seq<seq<Int32>>, width: nat) returns (m: array2<Int32>)
    requires forall i :: 0 <= i < |rows| ==> |rows[i]| == width
    ensures fresh(m) && m.Length0 == |rows| && m.Length1 == width
    ensures forall i, j :: 0 <= i < |rows| && 0 <= j < width ==> m[i, j] == rows[i][j]
  {
    m := new Int32[|rows|, width]((i, j) requires 0 <= i < |rows| && 0 <= j < width => rows[i][j]);
  }

  /** The exact dot-product prefix over a matrix given by its rows. */
  function RowsDotPrefix(a: seq<seq<Int32>>, b: seq<seq<Int32>>, i: nat, j: nat, n: nat): int
    requires i < |a| && n <= |a[i]| && n <= |b|
    requires forall k :: 0 <= k < n ==> j < |b[k]|
  {
    if n == 0 then 0 else RowsDotPrefix(a, b, i, j, n - 1) + a[i][n - 1] as int * b[n - 1][j] as int
  }

  lemma {:induction false} DotPrefixOfRows(v1: array2<Int32>, v2: array2<Int32>, a: seq<seq<Int32>>, b: seq<seq<Int32>>,
                                           i: nat, j: nat, n: nat)
    requires |a| == v1.Length0 && |b| == v2.Length0
    requires forall r :: 0 <= r < |a| ==> |a[r]| == v1.Length1
    requires forall r :: 0 <= r < |b| ==> |b[r]| == v2.Length1
    requires forall r, c :: 0 <= r < |a| && 0 <= c < v1.Length1 ==> v1[r, c] == a[r][c]
    requires forall r, c :: 0 <= r < |b| && 0 <= c < v2.Length1 ==> v2[r, c] == b[r][c]
    requires i < v1.Length0 && j < v2.Length1 && n <= v1.Length1 && n <= v2.Length0
    ensures DotPrefix(v1, v2, i, j, n) == RowsDotPrefix(a, b, i, j, n)
  {
    if n > 0 {
      DotPrefixOfRows(v1, v2, a, b, i, j, n - 1);
    }
  }

  /** `multiply_twoMatrices_resultReturned` and
      `multiplyParallel_twoMatrices_resultReturned`: both paths give the
      expected 3 x 3 product, here with the default load per worker. */
  method TwoMatricesExample() returns (sequential: Result<array2<Int32>, MatrixError>,
                                       parallel: Result<array2<Int32>, MatrixError>)
    ensures sequential.Success? && parallel.Success?
    ensures sequential.value.Length0 == parallel.value.Length0 == 3
    ensures sequential.value.Length1 == parallel.value.Length1 == 3
    ensures forall i, j :: 0 <= i < 3 && 0 <= j < 3 ==>
      sequential.value[i, j] == parallel.value[i, j] == [[99, 141, 159], [58, 77, 81], [86, 126, 151]][i][j]
  {
    var a: seq<seq<Int32>> := [[7, 8, 9, 0], [4, 5, 3, 1], [2, 5, 8, 9]];
    var b: seq<seq<Int32>> := [[7, 8, 9], [4, 5, 3], [2, 5, 8], [4, 5, 6]];
    var expected: seq<seq<Int32>> := [[99, 141, 159], [58, 77, 81], [86, 126, 151]];
    var m1 := FromRows(a, 4);
    var m2 := FromRows(b, 3);
    forall i, j | 0 <= i < 3 && 0 <= j < 3
      ensures Dot(m1, m2, i, j) == expected[i][j]
    {
      DotPrefixOfRows(m1, m2, a, b, i, j, 4);
      ExpectedCell(i, j);
    }
    sequential := Multiply(m1, m2);
    ghost var jobs;
    parallel, jobs := MultiplyParallel(m1, m2, 2);
  }

  lemma ExpectedCell(i: nat, j: nat)
    requires i < 3 && j < 3
    ensures Wrap(RowsDotPrefix([[7, 8, 9, 0], [4, 5, 3, 1], [2, 5, 8, 9]],
                               [[7, 8, 9], [4, 5, 3], [2, 5, 8], [4, 5, 6]], i, j, 4))
            == [[99, 141, 159], [58, 77, 81], [86, 126, 151]][i][j]
  {
    if i == 0 {
      if j == 0 {} else if j == 1 {} else {}
    } else if i == 1 {
      if j == 0 {} else if j == 1 {} else {}
    } else {
      if j == 0 {} else if j == 1 {} else {}
    }
  }

  /** `multiply_illegalSizedMatrices_exceptionThrown`,
      `multiply_emptyArray_exceptionThrown` and
      `multiply_malformedArray_exceptionThrown`, on both paths. */
  method RejectedInputs() returns (illegalSized: Result<array2<Int32>, MatrixError>,
                                   empty: Result<array2<Int32>, MatrixError>,
                                   malformed: Result<array2<Int32>, MatrixError>,
                                   parallelIllegalSized: Result<array2<Int32>, MatrixError>,
                                   parallelEmpty: Result<array2<Int32>, MatrixError>,
                                   parallelMalformed: Result<array2<Int32>, MatrixError>)
    ensures illegalSized == Failure(DimensionMismatch)
    ensures empty == Failure(MalformedMatrices)
    ensures malformed == Failure(MalformedMatrices)
    ensures parallelIllegalSized == Failure(DimensionMismatch)
    ensures parallelEmpty == Failure(MalformedMatrices)
    ensures parallelMalformed == Failure(MalformedMatrices)
  {
    ghost var jobs;
    var a := new Int32[1, 2];
    var b := new Int32[1, 2];
    illegalSized := Multiply(a, b);
    parallelIllegalSized, jobs := MultiplyParallel(a, b, 2);
    var c := new Int32[0, 0];
    var d := new Int32[0, 0];
    empty := Multiply(c, d);
    parallelEmpty, jobs := MultiplyParallel(c, d, 2);
    var e := new Int32[2, 0];
    var f := new Int32[0, 2];
    malformed := Multiply(e, f);
    parallelMalformed, jobs := MultiplyParallel(e, f, 2);
  }

  /** For every input and every load per worker of at least 2, the parallel
      path fails exactly when the sequential one does, with the same error,
      and otherwise returns the same matrix. */
  method ParallelMatchesSequential(v1: array2?<Int32>, v2: array2?<Int32>, load: int)
    returns (sequential: Result<array2<Int32>, MatrixError>, parallel: Result<array2<Int32>, MatrixError>)
    requires load >= 2
    ensures sequential.Failure? <==> parallel.Failure?
    ensures sequential.Failure? ==> sequential == parallel
    ensures sequential.Success? ==>
      && sequential.value.Length0 == parallel.value.Length0
      && sequential.value.Length1 == parallel.value.Length1
      && forall i, j :: 0 <= i < sequential.value.Length0 && 0 <= j < sequential.value.Length1 ==>
           sequential.value[i, j] == parallel.value[i, j]
  {
    sequential := Multiply(v1, v2);
    ghost var jobs;
    parallel, jobs := MultiplyParallel(v1, v2, load);
  }

  /** Why the load per worker must be at least 2: with `LOAD_PER_WORKER`
      set to 1, the job over any single cell `(i, j)` is not a leaf, and its
      second sub-job covers that same cell again, so the job tree is
      infinite. */
  lemma SingleCellSplitsIntoItself(i: int, j: int)
    ensures !Region(i, i + 1, j, j + 1).IsLeaf(1)
    ensures Region(i, i + 1, j, j + 1).Children().1 == Region(i, i + 1, j, j + 1)
  {
    SmallLoadSplitRepeats(Region(i, i + 1, j, j + 1), 1);
  }
}
