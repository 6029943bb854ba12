/** `com.presenso.MatrixUtils`: integer matrix multiplication, sequentially
    and by a divide-and-conquer job tree over one shared result buffer.
    A Java `int[][]` is an `array2?<Int32>`: it may be null, and it is
    rectangular; every `+` and `*` is Java's wrapping `int` arithmetic. */
module MatrixUtils {
  import opened Wrappers
  import opened JavaInt
  import opened Regions
  import opened Text

  /** The two `IllegalArgumentException`s the validation throws. */
  datatype MatrixError =
    | MalformedMatrices   // a matrix is null or has no rows
    | DimensionMismatch   // columns of v1 differ from rows of v2

  /** The first validation guard: a missing matrix, or one with no rows. */
  predicate Malformed(v1: array2?<Int32>, v2: array2?<Int32>) {
    v1 == null || v2 == null || v1.Length0 == 0 || v2.Length0 == 0
  }

  /** Both guards pass: the product is defined. */
  predicate Multipliable(v1: array2?<Int32>, v2: array2?<Int32>) {
    !Malformed(v1, v2) && v1.Length1 == v2.Length0
  }

  /** The exact sum `v1[i][0]*v2[0][j] + ... + v1[i][n-1]*v2[n-1][j]`. */
  ghost function DotPrefix(v1: array2<Int32>, v2: array2<Int32>, i: int, j: int, n: int): int
    reads v1, v2
    requires 0 <= i < v1.Length0 && 0 <= j < v2.Length1
    requires 0 <= n <= v1.Length1 && n <= v2.Length0
  {
    if n == 0 then 0
    else DotPrefix(v1, v2, i, j, n - 1) + v1[i, n - 1] as int * v2[n - 1, j] as int
  }

  /** Cell `(i, j)` of the product as Java computes it: the full dot product
      of row `i` of `v1` and column `j` of `v2`, wrapped to 32 bits. */
  ghost function Dot(v1: array2<Int32>, v2: array2<Int32>, i: int, j: int): Int32
    reads v1, v2
    requires v1.Length1 == v2.Length0
    requires 0 <= i < v1.Length0 && 0 <= j < v2.Length1
  {
    Wrap(DotPrefix(v1, v2, i, j, v2.Length0))
  }

  /** `m` is the `v1.length x v2[0].length` product of `v1` and `v2`. */
  ghost predicate IsProduct(v1: array2<Int32>, v2: array2<Int32>, m: array2<Int32>)
    reads v1, v2, m
    requires v1.Length1 == v2.Length0
  {
    && m.Length0 == v1.Length0
    && m.Length1 == v2.Length1
    && forall i, j :: 0 <= i < m.Length0 && 0 <= j < m.Length1 ==> m[i, j] == Dot(v1, v2, i, j)
  }

  /** One step of the inner `k` loop, `sum += v1[i][k] * v2[k][j]`, keeps
      `sum` equal to the wrapped exact prefix sum. */
  lemma DotStep(v1: array2<Int32>, v2: array2<Int32>, i: int, j: int, k: int, sum: Int32)
    requires 0 <= i < v1.Length0 && 0 <= j < v2.Length1
    requires 0 <= k < v1.Length1 && k < v2.Length0
    requires sum == Wrap(DotPrefix(v1, v2, i, j, k))
    ensures Add(sum, Mul(v1[i, k], v2[k, j])) == Wrap(DotPrefix(v1, v2, i, j, k + 1))
  {
    WrapAdd(DotPrefix(v1, v2, i, j, k), v1[i, k] as int * v2[k, j] as int);
  }

  /** `id` is the `n x n` identity matrix. */
  ghost predicate IsIdentity(id: array2<Int32>, n: int)
    reads id
  {
    && id.Length0 == n && id.Length1 == n
    && forall r, c :: 0 <= r < n && 0 <= c < n ==> id[r, c] == if r == c then 1 else 0
  }

  /** Against an identity matrix, a prefix of the dot product picks out cell
      `(i, j)` once the prefix reaches column `j`, and is 0 before. */
  lemma {:induction false} IdentityPrefix(v1: array2<Int32>, id: array2<Int32>, i: int, j: int, n: int)
    requires IsIdentity(id, v1.Length1)
    requires 0 <= i < v1.Length0 && 0 <= j < id.Length1 && 0 <= n <= v1.Length1
    ensures DotPrefix(v1, id, i, j, n) == if j < n then v1[i, j] as int else 0
  {
    if n > 0 {
      IdentityPrefix(v1, id, i, j, n - 1);
    }
  }

  /** A matrix times the identity of matching size is the matrix itself. */
  lemma IdentityRight(v1: array2<Int32>, id: array2<Int32>, i: int, j: int)
    requires IsIdentity(id, v1.Length1)
    requires 0 <= i < v1.Length0 && 0 <= j < v1.Length1
    ensures Dot(v1, id, i, j) == v1[i, j]
  {
    IdentityPrefix(v1, id, i, j, id.Length0);
  }

  /** A `1 x 1` times a `1 x 1` matrix is the Java `int` product of the two
      entries. */
  lemma ScalarProduct(a: array2<Int32>, b: array2<Int32>)
    requires a.Length0 == a.Length1 == b.Length0 == b.Length1 == 1
    ensures Dot(a, b, 0, 0) == Mul(a[0, 0], b[0, 0])
  {
    assert DotPrefix(a, b, 0, 0, 1) == a[0, 0] as int * b[0, 0] as int;
  }

  /** The sequential `multiply`: validate, allocate a
      `v1.length x v2[0].length` buffer, fill it with the triple loop. */
  method Multiply(v1: array2?<Int32>, v2: array2?<Int32>) returns (r: Result<array2<Int32>, MatrixError>)
    ensures Malformed(v1, v2) ==> r == Failure(MalformedMatrices)
    ensures !Malformed(v1, v2) && v1.Length1 != v2.Length0 ==> r == Failure(DimensionMismatch)
    ensures Multipliable(v1, v2) ==> r.Success? && fresh(r.value) && IsProduct(v1, v2, r.value)
  {
    if v1 == null || v2 == null || v1.Length0 == 0 || v2.Length0 == 0 {
      return Failure(MalformedMatrices);
    }
    if v1.Length1 != v2.Length0 {
      return Failure(DimensionMismatch);
    }
    var result := new Int32[v1.Length0, v2.Length1];
    for i := 0 to result.Length0
      invariant forall r, c :: 0 <= r < i && 0 <= c < result.Length1 ==> result[r, c] == Dot(v1, v2, r, c)
    {
      for j := 0 to result.Length1
        invariant forall r, c :: 0 <= r < i && 0 <= c < result.Length1 ==> result[r, c] == Dot(v1, v2, r, c)
        invariant forall c :: 0 <= c < j ==> result[i, c] == Dot(v1, v2, i, c)
      {
        var sum: Int32 := 0;
        for k := 0 to v2.Length0
          invariant sum == Wrap(DotPrefix(v1, v2, i, j, k))
          modifies {}
        {
          DotStep(v1, v2, i, j, k, sum);
          sum := Add(sum, Mul(v1[i, k], v2[k, j]));
        }
        result[i, j] := sum;
      }
    }
    return Success(result);
  }

  /** `multiplyParallel`: build the root job (which validates), run it, and
      hand back its buffer. The fork-join pool is replaced by running the
      job tree in place; `jobs` lists the leaf regions it computed. */
  method MultiplyParallel(v1: array2?<Int32>, v2: array2?<Int32>, load: int)
    returns (r: Result<array2<Int32>, MatrixError>, ghost jobs: seq<Region>)
    requires load >= 2
    ensures Malformed(v1, v2) ==> r == Failure(MalformedMatrices)
    ensures !Malformed(v1, v2) && v1.Length1 != v2.Length0 ==> r == Failure(DimensionMismatch)
    ensures Multipliable(v1, v2) ==> r.Success? && fresh(r.value) && IsProduct(v1, v2, r.value)
    ensures r.Success? ==> forall i, j :: CoverCount(jobs, i, j) == if 0 <= i < r.value.Length0 && 0 <= j < r.value.Length1 then 1 else 0
  {
    jobs := [];
    var job :- MatrixMultiplicationJob.Create(v1, v2);
    jobs := job.Compute(load);
    forall i, j
      ensures CoverCount(jobs, i, j) == if 0 <= i < job.result.Length0 && 0 <= j < job.result.Length1 then 1 else 0
    {
      LeavesPartition(job.Bounds(), load, i, j);
    }
    return Success(job.result), jobs;
  }

  /** The texts of cells `0 .. n-1` of row `i`. */
  function CellTexts(m: array2<Int32>, i: int, n: int): (texts: seq<string>)
    reads m
    requires 0 <= i < m.Length0 && 0 <= n <= m.Length1
    ensures |texts| == n
    ensures forall k :: 0 <= k < n ==> texts[k] == DecimalString(m[i, k] as int)
  {
    if n == 0 then [] else CellTexts(m, i, n - 1) + [DecimalString(m[i, n - 1] as int)]
  }

  /** The line for row `i`: its cells separated by ", ". */
  function RowText(m: array2<Int32>, i: int): string
    reads m
    requires 0 <= i < m.Length0
  {
    Join(CellTexts(m, i, m.Length1), ", ")
  }

  /** The lines of rows `0 .. n-1`. */
  function RowTexts(m: array2<Int32>, n: int): (lines: seq<string>)
    reads m
    requires 0 <= n <= m.Length0
    ensures |lines| == n
    ensures forall k :: 0 <= k < n ==> lines[k] == RowText(m, k)
  {
    if n == 0 then [] else RowTexts(m, n - 1) + [RowText(m, n - 1)]
  }

  /** What `toString` returns: the row lines separated by newlines. */
  function Render(m: array2<Int32>): string
    reads m
  {
    Join(RowTexts(m, m.Length0), "\n")
  }

  /** `toString`: a `StringJoiner` over the lines, each line built by
      `JoinRow`. */
  method ToString(matrix: array2<Int32>) returns (s: string)
    ensures s == Render(matrix)
  {
    var columns := new StringJoiner("\n");
    for i := 0 to matrix.Length0
      invariant columns.Valid() && columns.delimiter == "\n"
      invariant columns.Parts == RowTexts(matrix, i)
      modifies columns
    {
      var line := JoinRow(matrix, i);
      columns.Add(line);
    }
    s := columns.ToString();
  }

  /** The body of `toString`'s outer loop: a fresh `StringJoiner` over the
      cells of row `i`. The Java code takes the width from row 0, which for
      a rectangular matrix is every row's width. */
  method JoinRow(matrix: array2<Int32>, i: int) returns (line: string)
    requires 0 <= i < matrix.Length0
    ensures line == RowText(matrix, i)
  {
    var rows := new StringJoiner(", ");
    for j := 0 to matrix.Length1
      invariant rows.Valid() && rows.delimiter == ", "
      invariant rows.Parts == CellTexts(matrix, i, j)
    {
      rows.Add(DecimalString(matrix[i, j] as int));
    }
    line := rows.ToString();
  }

  /** A row line has no newline, and one comma per cell boundary. */
  lemma RowTextShape(m: array2<Int32>, i: int)
    requires 0 <= i < m.Length0
    ensures '\n' !in RowText(m, i)
    ensures CountChar(',', RowText(m, i)) == if m.Length1 == 0 then 0 else m.Length1 - 1
  {
    var cells := CellTexts(m, i, m.Length1);
    forall k | 0 <= k < |cells|
      ensures '\n' !in cells[k] && ',' !in cells[k]
    {
      DecimalHasNoSeparator(m[i, k] as int);
    }
    if m.Length1 == 0 {
      assert RowText(m, i) == "";
    } else {
      CountJoin(cells, ", ", ',');
      CountJoin(cells, ", ", '\n');
      assert CountChar(',', ", ") == 1 by {
        assert ", "[..1] == ",";
        assert ","[..0] == "";
      }
      assert CountChar('\n', ", ") == 0 by {
        CountAbsent('\n', ", ");
      }
      if '\n' in RowText(m, i) {
        CountPresent('\n', RowText(m, i));
      }
    }
  }

  /** The rendering of a matrix with rows splits at its newlines back into
      exactly its row lines; a matrix without rows renders as "". */
  lemma RenderLines(m: array2<Int32>)
    ensures m.Length0 == 0 ==> Render(m) == ""
    ensures m.Length0 > 0 ==> Split(Render(m), '\n') == RowTexts(m, m.Length0)
  {
    if m.Length0 > 0 {
      var lines := RowTexts(m, m.Length0);
      forall k | 0 <= k < |lines|
        ensures '\n' !in lines[k]
      {
        RowTextShape(m, k);
      }
      SplitJoin(lines, '\n');
    }
  }

  /** `MatrixMultiplicationJob`: one rectangle of the shared result buffer.
      The Java fields are set once, by a constructor, so they are constants
      here; only the cells of `result` change. */
  class MatrixMultiplicationJob {
    const v1: array2<Int32>
    const v2: array2<Int32>
    const result: array2<Int32>
    const startRow: int
    const endRow: int
    const startColumn: int
    const endColumn: int

    /** The region lies in the buffer, the buffer has the product's shape,
        and it is not one of the inputs. */
    predicate Valid() {
      && v1.Length1 == v2.Length0
      && result.Length0 == v1.Length0 && result.Length1 == v2.Length1
      && result != v1 && result != v2
      && 0 <= startRow <= endRow <= result.Length0
      && 0 <= startColumn <= endColumn <= result.Length1
    }

    function Bounds(): Region {
      Region(startRow, endRow, startColumn, endColumn)
    }

    /** The public constructor after its two guards have passed: a fresh
        buffer and the whole of it as the region. */
    constructor Root(v1: array2<Int32>, v2: array2<Int32>)
      requires v1.Length0 > 0 && v2.Length0 > 0 && v1.Length1 == v2.Length0
      ensures Valid() && fresh(result)
      ensures this.v1 == v1 && this.v2 == v2
      ensures Bounds() == Region(0, v1.Length0, 0, v2.Length1)
    {
      this.v1 := v1;
      this.v2 := v2;
      var buffer := new Int32[v1.Length0, v2.Length1];
      result := buffer;
      startRow := 0;
      endRow := buffer.Length0;
      startColumn := 0;
      endColumn := buffer.Length1;
    }

    /** The private constructor used by `clone`. */
    constructor Sub(v1: array2<Int32>, v2: array2<Int32>, result: array2<Int32>,
                    startRow: int, endRow: int, startColumn: int, endColumn: int)
      ensures this.v1 == v1 && this.v2 == v2 && this.result == result
      ensures Bounds() == Region(startRow, endRow, startColumn, endColumn)
    {
      this.v1 := v1;
      this.v2 := v2;
      this.result := result;
      this.startRow := startRow;
      this.endRow := endRow;
      this.startColumn := startColumn;
      this.endColumn := endColumn;
    }

    /** The public constructor with its guards: it throws on malformed or
        non-conformable input, before any job runs. */
    static method Create(v1: array2?<Int32>, v2: array2?<Int32>)
      returns (r: Result<MatrixMultiplicationJob, MatrixError>)
      ensures Malformed(v1, v2) ==> r == Failure(MalformedMatrices)
      ensures !Malformed(v1, v2) && v1.Length1 != v2.Length0 ==> r == Failure(DimensionMismatch)
      ensures Multipliable(v1, v2) ==> r.Success?
      ensures r.Success? ==> && fresh(r.value) && fresh(r.value.result) && r.value.Valid()
                             && r.value.v1 == v1 && r.value.v2 == v2
                             && r.value.Bounds() == Region(0, v1.Length0, 0, v2.Length1)
    {
      if v1 == null || v2 == null || v1.Length0 == 0 || v2.Length0 == 0 {
        return Failure(MalformedMatrices);
      }
      if v1.Length1 != v2.Length0 {
        return Failure(DimensionMismatch);
      }
      var job := new MatrixMultiplicationJob.Root(v1, v2);
      return Success(job);
    }

    /** `clone`: a job over another region of the same buffer. */
    method Clone(startRow: int, endRow: int, startColumn: int, endColumn: int)
      returns (job: MatrixMultiplicationJob)
      ensures fresh(job)
      ensures job.v1 == v1 && job.v2 == v2 && job.result == result
      ensures job.Bounds() == Region(startRow, endRow, startColumn, endColumn)
    {
      job := new MatrixMultiplicationJob.Sub(v1, v2, result, startRow, endRow, startColumn, endColumn);
    }

    /** `compute`: exactly the cells of this job's region receive their
        product value; every other cell of the buffer keeps its value.
        `leaves` are the regions of the leaf jobs that ran. */
    method Compute(load: int) returns (ghost leaves: seq<Region>)
      requires Valid() && load >= 2
      modifies result
      ensures leaves == Leaves(Bounds(), load)
      ensures forall i, j :: 0 <= i < result.Length0 && 0 <= j < result.Length1 ==>
        result[i, j] == if Bounds().Contains(i, j) then Dot(v1, v2, i, j) else old(result[i, j])
      decreases Bounds().Size(), 1
    {
      if endRow - startRow > endColumn - startColumn {
        leaves := ComputeOrSplitByRows(load);
      } else {
        leaves := ComputeOrSplitByColumns(load);
      }
    }

    /** `computeOrSplitByRows`, reached from `compute` when the region is
        taller than wide. */
    method ComputeOrSplitByRows(load: int) returns (ghost leaves: seq<Region>)
      requires Valid() && load >= 2 && Bounds().ByRows()
      modifies result
      ensures leaves == Leaves(Bounds(), load)
      ensures forall i, j :: 0 <= i < result.Length0 && 0 <= j < result.Length1 ==>
        result[i, j] == if Bounds().Contains(i, j) then Dot(v1, v2, i, j) else old(result[i, j])
      decreases Bounds().Size(), 0
    {
      if endRow - startRow < load {
        Multiply();
        leaves := [Bounds()];
      } else {
        var split := (endRow - startRow) / 2 + startRow;
        var first := Clone(startRow, split, startColumn, endColumn);
        var second := Clone(split, endRow, startColumn, endColumn);
        assert (first.Bounds(), second.Bounds()) == Bounds().Children();
        // invokeAll(first, second): the regions are disjoint, so running
        // the two jobs one after the other gives the same buffer.
        var l1 := first.Compute(load);
        var l2 := second.Compute(load);
        leaves := l1 + l2;
      }
    }

    /** `computeOrSplitByColumns`, reached from `compute` when the region is
        at least as wide as tall. */
    method ComputeOrSplitByColumns(load: int) returns (ghost leaves: seq<Region>)
      requires Valid() && load >= 2 && !Bounds().ByRows()
      modifies result
      ensures leaves == Leaves(Bounds(), load)
      ensures forall i, j :: 0 <= i < result.Length0 && 0 <= j < result.Length1 ==>
        result[i, j] == if Bounds().Contains(i, j) then Dot(v1, v2, i, j) else old(result[i, j])
      decreases Bounds().Size(), 0
    {
      if endColumn - startColumn < load {
        Multiply();
        leaves := [Bounds()];
      } else {
        var split := (endColumn - startColumn) / 2 + startColumn;
        var first := Clone(startRow, endRow, startColumn, split);
        var second := Clone(startRow, endRow, split, endColumn);
        assert (first.Bounds(), second.Bounds()) == Bounds().Children();
        var l1 := first.Compute(load);
        var l2 := second.Compute(load);
        leaves := l1 + l2;
      }
    }

    /** The leaf `multiply`: the triple loop restricted to the region. */
    method Multiply()
      requires Valid()
      modifies result
      ensures forall i, j :: 0 <= i < result.Length0 && 0 <= j < result.Length1 ==>
        result[i, j] == if Bounds().Contains(i, j) then Dot(v1, v2, i, j) else old(result[i, j])
    {
      for i := startRow to endRow
        invariant forall r, c :: 0 <= r < result.Length0 && 0 <= c < result.Length1 ==>
          result[r, c] == if startRow <= r < i && startColumn <= c < endColumn then Dot(v1, v2, r, c) else old(result[r, c])
      {
        for j := startColumn to endColumn
          invariant forall r, c :: 0 <= r < result.Length0 && 0 <= c < result.Length1 ==>
            result[r, c] == if (startRow <= r < i || r == i) && startColumn <= c < (if r == i then j else endColumn)
                            then Dot(v1, v2, r, c) else old(result[r, c])
        {
          var sum: Int32 := 0;
          for k := 0 to v2.Length0
            invariant sum == Wrap(DotPrefix(v1, v2, i, j, k))
            modifies {}
          {
            DotStep(v1, v2, i, j, k, sum);
            sum := Add(sum, Mul(v1[i, k], v2[k, j]));
          }
          result[i, j] := sum;
        }
      }
    }
  }
}
