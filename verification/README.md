# Matrices, Fibonacci numbers and a linked list, in Dafny

This project models three pieces of a small algorithms repository and
proves what they compute.

- **Matrix routines** (`Matrix/matrix.py`): element-wise sum and difference,
  reading and writing a quadrant (`matrix_get`, `matrix_compile`), identity,
  transpose, Strassen's multiplication and exponentiation by squaring.
  Matrices are lists of columns, `m[col][row]`. The routines that print an
  error and return `None` return `None` here too (`Option`). The model proves
  that Strassen's seven-product recursion equals the textbook product for
  every power-of-two size. It also proves that `matrix_power` equals repeated
  multiplication.
- **The copy of those routines beside the Fibonacci code**
  (`Fibonacci/matrix.py`). Its sum, difference, get and compile are the same
  text, so the model reuses them. It differs in two ways: `matrix_identity(0)`
  is `[]` instead of `[0]`, and `matrix_multiply` has no guards: its size
  check prints a message but does not return. Both are modelled in
  `FibonacciMatrix`, and proved to agree with the first copy wherever both
  are defined.
- **The four Fibonacci routines** (`Fibonacci/fibonacci.py`), each compared
  with the textbook sequence `Fib`. `fib_matrix` imports the routines of
  `Matrix/matrix.py`, so it uses `Matrices.Power`. Two routines disagree with
  the sequence; see Findings.
- **The singly linked list** (`cpp/data/list.hpp`):
  - nodes live on a heap, modelled as a map from addresses to nodes;
  - an extra field `order` records the chain from head to tail;
  - `Valid` says that the links, the head and the tail agree with that chain;
  - `Contents` is the chain's values;
  - the six end operations are proved to keep `Valid` and to act on
    `Contents` like a double-ended queue.

  Stream output of an integer list is also modelled: the text is proved to
  read back as the list. The program in `cpp/data/list.cpp` is proved to
  write `l: [0, 1, 2, 3, 4, 5, 6, 7, 8, 9]`.

Files:
- `wrappers.dfy`: `Option`.
- `matrix.dfy`: `Matrices`, the routines of `Matrix/matrix.py`.
- `linear_algebra.dfy`: `LinearAlgebra`, the textbook product and its algebra.
- `strassen.dfy`: `StrassenProofs`.
- `fib_matrix.dfy`: `FibonacciMatrix`.
- `fibonacci.dfy`: `Fibonacci`.
- `linked_list.dfy`: `LinkedList`.
- `list_output.dfy`: `ListOutput`.

## Model

| member | source | states |
|---|---|---|
| Matrices.Zeros | Matrix/matrix.py:193 | definition: `[[0] * n] * n`, `n` columns of `n` zeros |
| Matrices.Sum | Matrix/matrix.py:203-217 | `None` exactly when the column counts differ; otherwise a square matrix of the same size whose every entry is the sum of the operands' entries |
| Matrices.Difference | Matrix/matrix.py:220-234 | `None` exactly when the column counts differ; otherwise every entry is `a[c][k] - b[c][k]` |
| Matrices.DifferenceUndoesSum | Matrix/matrix.py:203-234 | subtracting `b` from `a + b` gives back `a` |
| Matrices.SumUndoesDifference | Matrix/matrix.py:203-234 | adding `b` to `a - b` gives back `a` |
| Matrices.SumCommutes | Matrix/matrix.py:203-217 | the sum (or its failure) does not depend on the order of the operands |
| Matrices.Block | Matrix/matrix.py:303-336 | a `half x half` block holds the entries of `m` shifted by the block's column and row offsets |
| Matrices.Get | Matrix/matrix.py:294-336 | a quadrant exists exactly for an even size and a position in 0..3; it is square of half the size, and entry `[c][k]` is the entry of `m` at the quadrant's offsets plus `(c, k)` |
| Matrices.Compile | Matrix/matrix.py:237-291 | a result exists exactly when `main` is twice the size of `sub` and the position is in 0..3; entries inside the quadrant come from `sub`, shifted by the quadrant's offsets, and all others from `main` |
| Matrices.GetTopOfShort | Matrix/matrix.py:294-320 | when every column holds only half as many entries as there are columns, the two top quadrants still exist and hold the entries of `m`, as the source reads no lower row for them |
| Matrices.GetReads | Matrix/matrix.py:294-336 | an entry inside quadrant `p` is what `Get` answers at the same place within the quadrant |
| Matrices.CompileGet | Matrix/matrix.py:237-336 | writing a quadrant back where it was read from gives back the matrix |
| Matrices.GetCompile | Matrix/matrix.py:237-336 | reading a quadrant just written gives what was written |
| Matrices.CompileFrame | Matrix/matrix.py:237-336 | writing one quadrant leaves each of the other three as it was |
| Matrices.Identity | Matrix/matrix.py:72-87 | the flat list `[0]` exactly for size 0; otherwise `n` columns with ones on the diagonal and zeros elsewhere |
| Matrices.Transpose | Matrix/matrix.py:106-116 | as many columns as column 1 has entries, each with one entry per column of `m`, and `t[r][c] == m[c][r]` |
| Matrices.TransposeTwice | Matrix/matrix.py:106-116 | transposing a rectangular matrix with at least two rows and columns twice gives it back |
| Matrices.Base2 | Matrix/matrix.py:138-167 | the scalar case answers a 2 x 2 matrix; StrassenProofs.Base2IsProduct proves it is the textbook product |
| Matrices.Factors | Matrix/matrix.py:172-190 | the seven factor pairs of the block case, each pair of half size; StrassenProofs.StrassenIsProduct proves that their seven products assemble to the textbook product |
| Matrices.Assemble | Matrix/matrix.py:193-197 | writing the four combinations of the seven products into a zero matrix gives a square matrix of the full size; StrassenProofs.AssembleIsProduct proves it is the product |
| Matrices.Strassen | Matrix/matrix.py:132-200 | the recursion answers a square matrix of the operands' size; StrassenProofs.StrassenIsProduct proves it is the textbook product |
| Matrices.Blocks | Matrix/matrix.py:170-200 | the block case answers a square matrix of the operands' size; StrassenProofs.StrassenIsProduct proves it is the textbook product |
| Matrices.Multiply | Matrix/matrix.py:119-200 | `None` exactly when the column counts differ or are odd; otherwise a square matrix of the same size |
| Matrices.Power | Matrix/matrix.py:55-69 | exponent 0 gives the identity of the same size, exponent 1 gives the matrix itself, a larger exponent gives a square matrix of the same size |
| Matrices.HalfExponent | Matrix/matrix.py:64 | Python's `e // 2` rounds down: twice the half is at most `e` and more than `e - 2`, for negative `e` too |
| Matrices.NegativeExponentDiverges | Matrix/matrix.py:59-64 | a negative exponent stays negative after any number of halvings, and -1 halves to itself, so the base cases 0 and 1 are never reached |
| LinearAlgebra.ProductAssociates | Matrix/matrix.py:64-69 | the textbook product is associative, which is what lets squaring regroup the factors of a power |
| LinearAlgebra.ProductIdentity | Matrix/matrix.py:59-60 | the identity of the same size is neutral on both sides of the product |
| LinearAlgebra.ProductDistributesLeft | Matrix/matrix.py:185-186 | a product with a summed (or subtracted) left factor is the sum (or difference) of the two products |
| LinearAlgebra.ProductDistributesRight | Matrix/matrix.py:184 | a product with a summed (or subtracted) right factor is the sum (or difference) of the two products |
| LinearAlgebra.BlockEntry | Matrix/matrix.py:170-200 | an entry of the product in any quadrant is the sum of two products of quadrant blocks: a row of blocks of `a` times a column of blocks of `b` |
| LinearAlgebra.RepeatedProductAdds | Matrix/matrix.py:64-69 | `m^(i+j) == m^i m^j` for the one-factor-at-a-time power |
| StrassenProofs.Base2IsProduct | Matrix/matrix.py:138-167 | the scalar case's ten sums, seven products and four combinations equal the textbook 2 x 2 product |
| StrassenProofs.Quadrant | Matrix/matrix.py:303-336 | quadrant `q` of an even-sized matrix is a square matrix of half the size |
| StrassenProofs.RightCombinedEntries | Matrix/matrix.py:184 | `p1` and `p4` at each entry are differences of two block products |
| StrassenProofs.LeftCombinedEntries | Matrix/matrix.py:185-186 | `p2` and `p3` at each entry are sums of two block products |
| StrassenProofs.MixedFactorEntries | Matrix/matrix.py:188-190 | `p5`, `p6` and `p7` at each entry are signed sums of four block products |
| StrassenProofs.ProductOfCombinations | Matrix/matrix.py:188-190 | a product of two combined blocks is the signed sum of the four block products |
| StrassenProofs.SevenEntries | Matrix/matrix.py:184-190 | the seven products, at each entry, as combinations of the sixteen block products |
| StrassenProofs.CompileFour | Matrix/matrix.py:193-197 | writing the four quadrants of a matrix one after the other leaves, in each quadrant, the block written there |
| StrassenProofs.AssembleTopLeft | Matrix/matrix.py:194 | the top-left quadrant of the result is `p5 + p4 - p2 + p6` |
| StrassenProofs.AssembleTopRight | Matrix/matrix.py:195 | the top-right quadrant of the result is `p1 + p2` |
| StrassenProofs.AssembleBottomLeft | Matrix/matrix.py:196 | the bottom-left quadrant of the result is `p3 + p4` |
| StrassenProofs.AssembleBottomRight | Matrix/matrix.py:197 | the bottom-right quadrant of the result is `p5 + p1 - p3 - p7` |
| StrassenProofs.AssembleEntry | Matrix/matrix.py:193-197 | every entry of the assembled result is the combination of the seven products belonging to its quadrant |
| StrassenProofs.ProductTopLeft | Matrix/matrix.py:170-200 | the top-left quadrant of the textbook product is `a0 b0 + a1 b2`, where `ai` and `bj` are quadrants `i` of `a` and `j` of `b` |
| StrassenProofs.ProductTopRight | Matrix/matrix.py:170-200 | the top-right quadrant of the textbook product is `a0 b1 + a1 b3` |
| StrassenProofs.ProductBottomLeft | Matrix/matrix.py:170-200 | the bottom-left quadrant of the textbook product is `a2 b0 + a3 b2` |
| StrassenProofs.ProductBottomRight | Matrix/matrix.py:170-200 | the bottom-right quadrant of the textbook product is `a2 b1 + a3 b3` |
| StrassenProofs.BlockTerms | Matrix/matrix.py:184-190 | names the sixteen block-product entries the seven products are made of |
| StrassenProofs.StrassenIdentities | Matrix/matrix.py:194-197 | Strassen's four combinations of seven numbers cancel to the four block sums of the product |
| StrassenProofs.CombinationIsProduct | Matrix/matrix.py:193-197 | the combination written at each entry equals the textbook product's entry |
| StrassenProofs.AssembleIsProduct | Matrix/matrix.py:193-200 | assembling the seven products of the factors gives the textbook product |
| StrassenProofs.StrassenIsProduct | Matrix/matrix.py:132-200 | the recursion (scalar case at size 2, seven half-size products above it) computes the textbook product for every power-of-two size |
| StrassenProofs.MultiplyIsProduct | Matrix/matrix.py:119-200 | `matrix_multiply` returns the textbook product of conformable operands |
| StrassenProofs.SquareStep | Matrix/matrix.py:64-67 | squaring `m^k` gives `m^(2k)` |
| StrassenProofs.OddStep | Matrix/matrix.py:68-69 | multiplying `m^(2k)` by `m` gives `m^(2k+1)` |
| StrassenProofs.PowerIsRepeatedProduct | Matrix/matrix.py:55-69 | for every positive exponent, `matrix_power` equals multiplying `m` by itself that many times |
| StrassenProofs.CheckedPower | Matrix/matrix.py:55-69 | `matrix_power` with negative exponents refused: no result exactly for `e < 0`, the identity at 0, the repeated product for every positive exponent |
| FibonacciMatrix.Identity | Fibonacci/matrix.py:50-60 | `n` columns with ones on the diagonal and zeros elsewhere; the empty list for size 0 |
| FibonacciMatrix.IdentityAgrees | Fibonacci/matrix.py:50-60 | the two copies of `matrix_identity` agree for every positive size; at size 0 one gives `[]` and the other `[0]` |
| FibonacciMatrix.Multiply | Fibonacci/matrix.py:63-136 | the unguarded multiplication is the textbook product |
| FibonacciMatrix.ScalarCaseAsWritten | Fibonacci/matrix.py:63-103 | with a 2 x 2 left operand the scalar case runs for any right operand of at least 2 x 2, and answers the product with that operand's top-left 2 x 2 block |
| FibonacciMatrix.MismatchAnswered | Fibonacci/matrix.py:63-103 | the 2 x 2 identity times a 4 x 4 matrix answers the 2 x 2 top-left block instead of being refused |
| FibonacciMatrix.CheckedMultiply | Fibonacci/matrix.py:63-136 | with the missing `return None` after the size message: no result exactly when the sizes differ, the textbook product otherwise |
| FibonacciMatrix.MultiplyAgrees | Fibonacci/matrix.py:63-136 | on conformable operands the unguarded multiplication gives the answer of the guarded one |
| FibonacciMatrix.Power | Fibonacci/matrix.py:36-47 | exponent 0 gives the identity, exponent 1 the matrix itself, a larger exponent the repeated product |
| FibonacciMatrix.PowerAgrees | Fibonacci/matrix.py:36-47 | both copies of `matrix_power` compute the same matrix for every positive exponent |
| Fibonacci.FibRecursive | Fibonacci/fibonacci.py:38-42 | `fib_recursive(n)` is `n` for `n <= 0` and `Fib(n + 1)` for every `n >= 1` |
| Fibonacci.FibRecursiveRunsAhead | Fibonacci/fibonacci.py:40-42 | at 3 the routine answers 3 where `Fib(3)` is 2 |
| Fibonacci.FibRecursiveFixed | Fibonacci/fibonacci.py:38-42 | with base case `n <= 1` the routine returns `Fib(n)` for every `n >= 0` |
| Fibonacci.FibIterative | Fibonacci/fibonacci.py:45-53 | `fib_iterative(n)` is `Fib(n)` for `n >= 1` and 1 for every `n <= 0` |
| Fibonacci.FibIterativeAtZero | Fibonacci/fibonacci.py:47-53 | at 0 the routine answers 1 where `Fib(0)` is 0 |
| Fibonacci.FibIterativeFixed | Fibonacci/fibonacci.py:45-53 | answering 0 for `n == 0` gives `Fib(n)` for every `n >= 0` |
| Fibonacci.FibMemoized | Fibonacci/fibonacci.py:56-61 | `fib_memoized(n)` is `Fib(n)` for `n >= 0`; -1 gives 1 and -2 gives 0 by reading the table from the end |
| Fibonacci.ProductByQ | Fibonacci/fibonacci.py:72 | multiplying by `[[1, 1], [1, 0]]` on the left adds the two entries of each column into the top one and moves the old top entry to the bottom |
| Fibonacci.PowersOfQ | Fibonacci/fibonacci.py:72-73 | the `k`-th power of `[[1, 1], [1, 0]]` is `[[Fib(k+1), Fib(k)], [Fib(k), Fib(k-1)]]` |
| Fibonacci.FibMatrix | Fibonacci/fibonacci.py:64-73 | `fib_matrix(n)` is `Fib(n)` for every `n >= 0` and `n` below that |
| LinkedList.LinkAfterLast | cpp/data/list.hpp:49-50 | linking a fresh node after the last one extends the chain by that node |
| LinkedList.LinkBeforeFirst | cpp/data/list.hpp:55-61 | linking a fresh node before the first one extends the chain at the front |
| LinkedList.UnlinkFirst | cpp/data/list.hpp:92-98 | deleting the first node leaves the chain of the rest |
| LinkedList.UnlinkLast | cpp/data/list.hpp:76-84 | deleting the last node and clearing its predecessor's link leaves the chain without it |
| LinkedList.Empty | cpp/data/list.hpp:33 | the new list is well formed, owns no nodes and holds no values |
| LinkedList.Single | cpp/data/list.hpp:44-47 | one node at a fresh address holding `x`, which is both head and tail |
| LinkedList.PushBack | cpp/data/list.hpp:43-52 | the list stays well formed, `x` is appended to the values, and exactly one fresh address is added |
| LinkedList.Append | cpp/data/list.hpp:48-51 | the non-empty case of `push_back`: the list stays well formed, `x` follows the old values, the head stays and the new node is the tail, and exactly one fresh address is added |
| LinkedList.PushFront | cpp/data/list.hpp:54-63 | the list stays well formed, `x` is prepended to the values, and exactly one fresh address is added |
| LinkedList.Prepend | cpp/data/list.hpp:59-62 | the non-empty case of `push_front`: the list stays well formed, `x` precedes the old values, the new node is the head and the tail stays, and exactly one fresh address is added |
| LinkedList.PopFront | cpp/data/list.hpp:88-100 | on an empty list the list is unchanged and `(T)0` is returned; otherwise the first value is returned, the values lose their first entry, and exactly the head's address is released |
| LinkedList.DropHead | cpp/data/list.hpp:92-98 | deleting the head keeps the list well formed, drops the first value, releases exactly the head's address, and clears the tail exactly when one value was left |
| LinkedList.PopBack | cpp/data/list.hpp:65-86 | on an empty list the list is unchanged and `(T)0` is returned; otherwise the last value is returned, the values lose their last entry, and exactly the tail's address is released |
| LinkedList.WalkToLast | cpp/data/list.hpp:69-74 | the walk along the links from the head ends at the last node, with its predecessor (null for a one-node list) |
| LinkedList.DropTail | cpp/data/list.hpp:76-84 | deleting the last node keeps the list well formed, drops the last value and releases exactly its address; the predecessor becomes the tail, and with no predecessor the list becomes empty |
| LinkedList.Front | cpp/data/list.hpp:109-114 | the first value, or `(T)0` for an empty list |
| LinkedList.Back | cpp/data/list.hpp:102-107 | the last value, or `(T)0` for an empty list |
| LinkedList.PushPopFront | cpp/data/list.hpp:54-100 | `push_front` then `pop_front` gives back the pushed value and the list it started from, only the next unused address having moved on |
| LinkedList.PushPopBack | cpp/data/list.hpp:43-86 | `push_back` then `pop_back` gives back the pushed value, the same values and the same addresses |
| ListOutput.DigitChar | cpp/data/list.hpp:121 | definition: a digit's character is the one whose code is the digit above `'0'` |
| ListOutput.Digits | cpp/data/list.hpp:121 | the decimal digits of a number are non-empty digits with no leading zero |
| ListOutput.DigitsRoundTrip | cpp/data/list.hpp:121 | reading the digits of `n` gives `n` |
| ListOutput.Decimal | cpp/data/list.hpp:121 | a written `int` is non-empty and holds no comma or space |
| ListOutput.DecimalRoundTrip | cpp/data/list.hpp:121 | reading a written `int` gives it back, negative numbers included |
| ListOutput.Join | cpp/data/list.hpp:120-126 | the text between the brackets is empty exactly for an empty list |
| ListOutput.JoinSeparates | cpp/data/list.hpp:120-126 | the text holds a comma exactly when the list has two values or more |
| ListOutput.JoinAppend | cpp/data/list.hpp:120-126 | writing one more value after a non-empty text adds ", " and the value |
| ListOutput.WriteNext | cpp/data/list.hpp:120-126 | one turn of the output loop extends the text of the values written so far by the next value |
| ListOutput.ParseJoin | cpp/data/list.hpp:118-127 | the text between the brackets determines the values: reading it back gives them |
| ListOutput.ShownParses | cpp/data/list.hpp:116-129 | reading the bracketed text gives the values |
| ListOutput.Show | cpp/data/list.hpp:116-129 | the output is "[", the values from head to tail separated by ", ", and "]", and it reads back as the list's values |
| ListOutput.Upto | cpp/data/list.cpp:23-25 | definition: the values 0 to `n - 1` in increasing order |
| ListOutput.JoinToNine | cpp/data/list.cpp:27 | the text of the values 0 to 9 |
| ListOutput.Demo | cpp/data/list.cpp:19-30 | pushing 0 to 9 on the back of an empty list and writing it gives `l: [0, 1, 2, 3, 4, 5, 6, 7, 8, 9]` |

## Left out

- Everything of the repository outside the three matrix and Fibonacci files, `cpp/data/list.hpp` and `cpp/data/list.cpp` is not part of this model. That includes the graph library, the sorting code and the assignments.
- `matrix_generate` (Matrix/matrix.py:90-103) draws random numbers, so it is not modelled.
- The `__main__` blocks are not modelled: printing, timing with `timeit`, plotting and saving figures are all I/O.
- The error messages printed before `return None` are I/O. Only the `None` is modelled.
- The destructor `~list` (cpp/data/list.hpp:34-41) releases memory when a list goes out of scope. No operation observes that. Its line 36 also carries a stray token after the loop's brace, which would not compile.
- `new` and `delete` are modelled as taking the next unused address and removing a map entry. Allocation failure is not modelled.
- `(T)0`, which the source returns from an empty list, is the parameter `zero`.
- The field `order`, the chain from head to tail, has no counterpart in the C++ class; it exists only to state `Valid`. No operation consults it to decide anything.
- Matrix entries and list values are unbounded integers. Python integers are unbounded too. C++ `int` is 32 bits wide, but the demonstration program only stores 0 to 9, so no overflow happens there.
- ListOutput.Decimal: models the stream's default formatting of an `int`. Stream flags (width, base, fill) are not modelled.
- Matrices.Multiply: for equal even sizes that are not powers of two, and for size 0, the precondition excludes them. In the source, the recursion reaches an odd block and then adds `None` (a `TypeError`), and size 0 indexes an empty list.
- Matrices.Power: for exponents of 2 and above, the precondition requires a power-of-two size of at least 2. In the source, an odd size makes a product `None`, so the power ends in `None` or in a `TypeError`. Size 0 passes the guards of `matrix_multiply` and raises `IndexError` at `mat_b[1][0]` (Matrix/matrix.py:140).
- Matrices.Power: the exponent is a `nat`. For a negative exponent the source recurses until Python raises `RecursionError` (see Findings). Matrices.NegativeExponentDiverges models that, and StrassenProofs.CheckedPower is the version that refuses such exponents.
- FibonacciMatrix.Power: the exponent is a `nat`. For a negative exponent this copy also recurses until `RecursionError` (Fibonacci/matrix.py:42), as with Matrices.Power.
- Matrices.Base2, Matrices.Factors, Matrices.Assemble, Matrices.Strassen and Matrices.Blocks: their own contracts state only the shape of the result. The lemmas in StrassenProofs named in the table prove what the result is.
- Matrices.Sum, Matrices.Difference, Matrices.Get and Matrices.Compile: the preconditions hold only when the sizes suit and, for Get and Compile, the position is in 0..3. The `None` cases need no precondition. They then ask for exactly the entries the source reads, and a shorter column raises `IndexError` in the source. Sum and Difference read every column down to row `n - 1` (`Tall`). Get reads only the columns of its quadrant, down to the quadrant's last row (`QuadrantReadable`). Compile reads all of `sub` and every entry of `main` outside the quadrant (`KeptReadable`); for a bottom quadrant, the quadrant's columns of `main` need only reach the row above it.
- Matrices.Identity and FibonacciMatrix.Identity: the size is a `nat`. For a negative `n` both sources return `[]`, because `range(n)` is empty. Every caller passes a `len(...)`, which is never negative.
- Matrices.Transpose: requires at least two columns, each at least as long as column 1, where the source would raise `IndexError`.
- FibonacciMatrix.Multiply and FibonacciMatrix.Power: this copy has no guards, so after printing its message it goes on with mismatched or odd sizes. With a 2 x 2 left operand and a larger right one, the scalar case answers a 2 x 2 matrix built from the right operand's top-left block. That case is modelled by FibonacciMatrix.ScalarCaseAsWritten (see Findings). A right operand smaller than 2 x 2 raises `IndexError` at `mat_b[1][0]` (Fibonacci/matrix.py:76). Other mismatches can also answer a matrix that is not the product, for example 4 x 4 by 8 x 8 answers a 4 x 4 one, or they fail with an `IndexError` or a `TypeError`. The precondition `Conformable` excludes all of these.
- Fibonacci.FibMemoized: below -2 the source raises `IndexError`. The precondition `n >= -2` excludes those inputs.
- The C++ stream's `std::endl` and the program's exit status are not modelled. `Demo` returns the text written before the line end.

## Findings

| source | as written | input that shows it | evidently intended | confidence | as-written member | corrected member |
|---|---|---|---|---|---|---|
| Fibonacci/fibonacci.py:40-41 | the base case `n <= 2` returns `n`, so from 1 on the result is `Fib(n + 1)` | `fib_recursive(3)` is 3, while the third Fibonacci number is 2 | base case `n <= 1`, giving `Fib(n)` | not executed | Fibonacci.FibRecursiveRunsAhead | Fibonacci.FibRecursiveFixed |
| Fibonacci/fibonacci.py:47-53 | `curr` starts at 1 and the loop does not run for `n <= 2`, so 0 gives 1 | `fib_iterative(0)` is 1, while the sequence starts with 0 | 0 for `n == 0` | not executed | Fibonacci.FibIterativeAtZero | Fibonacci.FibIterativeFixed |
| Fibonacci/matrix.py:64-66 | on a size mismatch `matrix_multiply` prints its message but does not return, so the product is computed anyway | the 2 x 2 identity times a 4 x 4 matrix answers `[[1, 2], [5, 6]]`, the top-left block of the second | `return None` after the message, as in Matrix/matrix.py:124-126 | not executed | FibonacciMatrix.MismatchAnswered | FibonacciMatrix.CheckedMultiply |
| Matrix/matrix.py:59-64 | a negative exponent matches neither base case and `exponential // 2` rounds down, so -1 halves to -1 and the recursion never ends | `matrix_power(m, -1)` recurses until `RecursionError` | a negative exponent refused (or inverted), never an endless recursion | not executed | Matrices.NegativeExponentDiverges | StrassenProofs.CheckedPower |
