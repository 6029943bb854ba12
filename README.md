# matrix-utils in Dafny

A model of `com.presenso.MatrixUtils`, a small Java library that multiplies
dense `int` matrices in two ways:

- `multiply`: validate the two inputs, allocate a `v1.length x v2[0].length`
  result, and fill it with a triple loop.
- `multiplyParallel`: validate the same way, then run a fork-join tree of
  `MatrixMultiplicationJob`s. Each job owns a rectangle of one shared result
  buffer. A job whose longer side (ties go to columns) is shorter than
  `LOAD_PER_WORKER` computes its rectangle directly. Any other job bisects that
  side and hands the two halves to `invokeAll`.

The model keeps the shape of the Java code:

- `JavaInt`: Java's 32-bit `int`, with wrapping `+` and `*`. Every cell is
  the exact dot product wrapped to 32 bits (`MatrixUtils.Dot`), on both paths.
- `Regions`: a job's rectangle as a value. It holds the split policy
  (`Region.Children`), the tree of leaf jobs (`Leaves`) and the proof that the
  leaves partition the output exactly once (`LeavesPartition`).
- `MatrixUtils`: the sequential `Multiply`, `MultiplyParallel`, and the
  `MatrixMultiplicationJob` class. The class works over `array2<Int32>`, and
  its fields are set once by a constructor. Each job method has a frame
  specification: the cells of the job's region receive their product value,
  and every other cell of the shared buffer is unchanged. Because of that,
  running the two halves one after the other composes into the parent's
  specification. Both paths therefore produce `IsProduct`, and
  `ParallelMatchesSequential` states that they agree.
- `Text`: the `String.valueOf` and `StringJoiner` behaviour that `toString`
  uses, with `Join`/`Split` and decimal round trips.
- `MatrixUtilsTests`: the JUnit cases of `MatrixUtilsTests.java`, proved.

A Java `int[][]` is modelled as a nullable, rectangular `array2?<Int32>`.
Thrown `IllegalArgumentException`s become `Failure(MalformedMatrices)` or
`Failure(DimensionMismatch)`, in the same order as the two guards. The global
`LOAD_PER_WORKER` (default 2) becomes the parameter `load`.

The code needs `load >= 2`. With a threshold of 1, a region whose chosen side
has extent 1 is not a leaf. It is split at `start + 0`, and its second half is
the region itself, so the job tree is infinite (`Regions.SmallLoadSplitRepeats`,
`MatrixUtilsTests.SingleCellSplitsIntoItself`); in Java this most likely ends
in a `StackOverflowError`. The comment on `LOAD_PER_WORKER`
(src/main/java/com/presenso/MatrixUtils.java:8-10) invites tuning the value and
sets no lower bound. The model follows the code: it requires `load >= 2` and
claims nothing for smaller thresholds.

## Model

| member | source | states |
|---|---|---|
| `JavaInt.Wrap` | src/main/java/com/presenso/MatrixUtils.java:35 | The 32-bit `int` a Java computation yields: congruent to the exact value modulo 2^32, and equal to it when the exact value fits. |
| `JavaInt.WrapCongruent` | src/main/java/com/presenso/MatrixUtils.java:35 | Two exact values with the same residue modulo 2^32 give the same Java `int`. |
| `JavaInt.WrapAdd` | src/main/java/com/presenso/MatrixUtils.java:35 | Wrapping each partial sum and product, as `sum += v1[i][k] * v2[k][j]` does, gives the same `int` as wrapping only the exact total. |
| `JavaInt.Add` | src/main/java/com/presenso/MatrixUtils.java:35 | Java's `+` on `int`: congruent to the exact sum modulo 2^32, and equal to it when the sum fits in 32 bits. |
| `JavaInt.Mul` | src/main/java/com/presenso/MatrixUtils.java:35 | Java's `*` on `int`: congruent to the exact product modulo 2^32, and equal to it when the product fits in 32 bits. |
| `MatrixUtils.DotStep` | src/main/java/com/presenso/MatrixUtils.java:33-36 | One iteration of the `k` loop keeps `sum` equal to the wrapped exact prefix of the dot product. |
| `MatrixUtils.Multiply` | src/main/java/com/presenso/MatrixUtils.java:22-41 | A null or row-less input gives `MalformedMatrices`. Otherwise, `v1[0].length != v2.length` gives `DimensionMismatch`. Otherwise the result is a fresh `v1.length x v2[0].length` matrix whose every cell is the dot product of row `i` and column `j`. The inputs are not modified. |
| `MatrixUtils.IdentityRight` | src/main/java/com/presenso/MatrixUtils.java:22-41 | Multiplying a matrix by the identity of matching size gives back every cell of the matrix. |
| `MatrixUtils.ScalarProduct` | src/main/java/com/presenso/MatrixUtils.java:22-41 | A `1 x 1` times a `1 x 1` matrix is the Java `int` product of the two entries. |
| `MatrixUtils.MultiplyParallel` | src/main/java/com/presenso/MatrixUtils.java:43-49 | The same error cases and the same product as `Multiply`, for every `load >= 2`. The leaf jobs that ran cover every output cell exactly once and nothing outside the output. |
| `MatrixUtils.MatrixMultiplicationJob.Create` | src/main/java/com/presenso/MatrixUtils.java:73-79 | The root job's guards reject the same inputs with the same errors, before any job runs. On success the job is fresh, with a fresh buffer, and its region is `[0, v1.length) x [0, v2[0].length)`. |
| `MatrixUtils.MatrixMultiplicationJob.Root` | src/main/java/com/presenso/MatrixUtils.java:80-85 | After the guards: a fresh `v1.length x v2[0].length` buffer, distinct from both inputs, and the whole of it as the job's region. |
| `MatrixUtils.MatrixMultiplicationJob.Sub` | src/main/java/com/presenso/MatrixUtils.java:87-96 | The private constructor stores the inputs, the shared buffer and the region unchanged. |
| `MatrixUtils.MatrixMultiplicationJob.Clone` | src/main/java/com/presenso/MatrixUtils.java:139-141 | A fresh job over the given region that shares the inputs and the result buffer. |
| `MatrixUtils.MatrixMultiplicationJob.Compute` | src/main/java/com/presenso/MatrixUtils.java:98-105 | Exactly the cells of the job's region receive their product value, and every other buffer cell keeps its value. The leaf jobs run are `Leaves(region, load)`. |
| `MatrixUtils.MatrixMultiplicationJob.ComputeOrSplitByRows` | src/main/java/com/presenso/MatrixUtils.java:107-115 | The same frame specification for a region taller than wide. It either runs the leaf loop, or runs the two row halves in turn on the shared buffer. |
| `MatrixUtils.MatrixMultiplicationJob.ComputeOrSplitByColumns` | src/main/java/com/presenso/MatrixUtils.java:117-125 | The same frame specification for a region at least as wide as tall, split into column halves. |
| `MatrixUtils.MatrixMultiplicationJob.Multiply` | src/main/java/com/presenso/MatrixUtils.java:127-137 | The leaf loop writes the product value into exactly the cells `[startRow, endRow) x [startColumn, endColumn)` and leaves every other cell of the shared buffer unchanged. |
| `Regions.Region.Children` | src/main/java/com/presenso/MatrixUtils.java:100-125 | The rows are split only when the region is strictly taller than wide; otherwise the columns are split, so ties go to columns. The split at `start + extent / 2` yields two halves that keep the other side's bounds, meet at the split and partition the parent: no gap, no overlap. When the chosen extent is at least 2, both halves are non-empty and strictly shorter in the split dimension, so the job tree shrinks. |
| `Regions.Leaves` | src/main/java/com/presenso/MatrixUtils.java:99-125 | For `load >= 2` the job tree is finite. Every leaf job is a well-formed region whose chosen extent is below the load, and lies inside the root region. |
| `Regions.LeavesPartition` | src/main/java/com/presenso/MatrixUtils.java:99-137 | Every cell of a region is computed by exactly one leaf job, and no cell outside it by any. |
| `Regions.SmallLoadSplitRepeats` | src/main/java/com/presenso/MatrixUtils.java:107-124 | With a load of 1 or less, a non-leaf region whose chosen extent is at most 1 splits into a second half equal to itself, so the job tree is infinite. |
| `MatrixUtilsTests.SingleCellSplitsIntoItself` | src/main/java/com/presenso/MatrixUtils.java:117-124 | With `LOAD_PER_WORKER == 1`, any single-cell job is not a leaf, and its second sub-job is itself. |
| `MatrixUtils.ToString` | src/main/java/com/presenso/MatrixUtils.java:51-62 | The result is the row lines joined by `"\n"`. |
| `MatrixUtils.JoinRow` | src/main/java/com/presenso/MatrixUtils.java:55-59 | The line for row `i` is the decimal text of its cells joined by `", "`, over the full row width. |
| `MatrixUtils.CellTexts` | src/main/java/com/presenso/MatrixUtils.java:56-58 | The first `n` cell texts of row `i`: entry `k` is the decimal rendering of `matrix[i][k]`. |
| `MatrixUtils.RowTexts` | src/main/java/com/presenso/MatrixUtils.java:54-60 | The first `n` row lines: entry `k` is the line for row `k`. |
| `MatrixUtils.RowTextShape` | src/main/java/com/presenso/MatrixUtils.java:55-59 | A row line contains no newline. It has one comma between each pair of neighbouring cells: `width - 1` commas, or none for a zero-width row. |
| `MatrixUtils.RenderLines` | src/main/java/com/presenso/MatrixUtils.java:51-62 | A matrix with no rows renders as `""`. Otherwise, splitting the rendering at `'\n'` gives back exactly its `matrix.length` row lines. |
| `Text.DecimalString` | src/main/java/com/presenso/MatrixUtils.java:57 | `String.valueOf(int)` is non-empty. It starts with `-` exactly for negative values, and every other character is a digit. |
| `Text.DecimalRoundTrip` | src/main/java/com/presenso/MatrixUtils.java:57 | Parsing the decimal rendering of any integer gives that integer back. |
| `Text.DecimalHasNoSeparator` | src/main/java/com/presenso/MatrixUtils.java:52-57 | A rendered cell contains no `'\n'`, `','` or `' '`, so the separators that `toString` inserts are the only ones. |
| `Text.StringJoiner.constructor` | src/main/java/com/presenso/MatrixUtils.java:52-55 | `new StringJoiner(delimiter)` holds no parts and keeps the given delimiter; its text is the empty join. |
| `Text.StringJoiner.Add` | src/main/java/com/presenso/MatrixUtils.java:57-59 | `add` appends one part; the joiner's text stays the parts joined by the delimiter. |
| `Text.StringJoiner.ToString` | src/main/java/com/presenso/MatrixUtils.java:59-61 | The text is the added parts joined by the delimiter, or `""` if none were added. |
| `Text.SplitJoin` | src/main/java/com/presenso/MatrixUtils.java:52-61 | Joining parts at a one-character delimiter that no part contains, then splitting at it, gives back the parts. |
| `Text.CountJoin` | src/main/java/com/presenso/MatrixUtils.java:55-59 | A join of `n` parts that do not contain `c` holds `n - 1` times the delimiter's count of `c`. |
| `MatrixUtilsTests.TwoMatricesExample` | src/test/java/test/com/presenso/MatrixUtilsTests.java:11-49 | Both paths multiply the 3x4 and 4x3 test matrices to `[[99,141,159],[58,77,81],[86,126,151]]`. |
| `MatrixUtilsTests.RejectedInputs` | src/test/java/test/com/presenso/MatrixUtilsTests.java:22-35 | `int[1][2] x int[1][2]` gives `DimensionMismatch`. `int[0][0] x int[0][0]` and `int[2][0] x int[0][2]` give `MalformedMatrices`. Each of the three cases gives the same error on the parallel path. |
| `MatrixUtilsTests.ParallelMatchesSequential` | src/main/java/com/presenso/MatrixUtils.java:22-49 | For every input and every `load >= 2`, the parallel path fails exactly when the sequential one does, with the same error. Otherwise it returns the same matrix. |

## Left out

- The `ForkJoinPool`, `pool.invoke` and the concurrent scheduling of `invokeAll` (work stealing, thread visibility) are not modelled. The two sub-jobs run one after the other on the shared buffer. Their regions are disjoint and each job changes only its own cells, so every order gives the same final buffer. The pool is never shut down in the Java code; that has no bearing on the result.
- The mutable global `LOAD_PER_WORKER` is a parameter. Its default of 2 is used in the concrete example.
- MatrixUtils.MultiplyParallel: requires `load >= 2`. The Java code accepts any value, but for 1 or less its job tree is infinite (see `Regions.SmallLoadSplitRepeats`), so nothing is claimed there.
- MatrixUtils.MatrixMultiplicationJob.ComputeOrSplitByRows: requires the region to be taller than wide, and `ComputeOrSplitByColumns` requires the converse. These are the conditions under which `compute` calls them. Their buffer specification holds without them; only the listing of leaf jobs uses them.
- MatrixUtils.MatrixMultiplicationJob.Root: requires the two guards to have passed. The guards themselves, and the exceptions they throw, are in `Create`, which is the only caller.
- Ragged `int[][]` inputs and `null` rows are not modelled; the arrays are rectangular. The Java code checks only row 0 and the outer lengths, and so does the model. On a ragged input the Java code may throw `ArrayIndexOutOfBoundsException` or read a short row, which the model cannot express.
- MatrixUtils.ToString: takes a non-null matrix. Java's `toString(null)` throws `NullPointerException`, which is not modelled. Java reads every row up to `matrix[0].length`; in a rectangular matrix that is every row's width.
- `String.valueOf(int)` is modelled as plain decimal rendering with a leading `-`. `StringJoiner` is modelled without prefix, suffix or empty-value settings, which `toString` does not use.
- The Java zero-initialisation of the result buffer is not relied on. Every cell is overwritten, and the specifications do not mention the initial contents.
