# A verified model of a RaptorQ file broadcaster

The broadcaster sends files over a lossy link. A sender cuts a file into source blocks, encodes each block
with the RaptorQ erasure code (RFC 6330) and transmits frames in an endless carousel. A receiver collects
whatever frames arrive, in any order, and rebuilds the file once every block can be solved. This project
models the codec (`raptorq/`, `oblas/`), the sending and receiving sessions (`daemon.c`), the KISS framing on
the modem connection (`kiss.c`, `tcp_interface.c`), the byte queue between threads (`ring_buffer_posix.c`) and
the frame checksum (`crc6.c`) in Dafny, and proves what they promise each other. `dafny verify dfyconfig.toml`
checks everything.

## How it is built

- **Field and linear algebra** (`Bits`, `GF256`, `Tables`, `Linear`, `Oblas`, `Permutation`). GF(256) is defined
  by shift-and-reduce with the polynomial 285; the log/exp tables, the nibble tables and the byte-row loops are
  proved to compute it. Dense matrices over the field, and the row operations of a schedule on them, are the
  specification of everything the solver does.
- **The solver** (`SpMat`, `Schedule`, `Precond`, `WrkMat`, `Elimination`, `Hdpc`, `Dense`, `Solve`, `Backsolve`,
  `Rank`, `Invert`). The sparse phase, the bit-packed working matrix and the schedule are classes that are updated
  in place. The working matrix stands for a dense matrix (`View`), and every phase keeps it linked to what the
  schedule recorded so far does to the full constraint matrix.
- **Replay** (`Replay`, `ReplayOrder`, `Intermediate`). A schedule is replayed forwards, partly backwards, and
  forwards again on the symbol matrix, whose rows are then permuted along cycles.
- **Encoding and decoding** (`Primes`, `Tuples`, `Generate`, `Symbols`, `Bitmask`, `Layout`, `Transfer`, `Oti`,
  `Degrees`, `Encoder`, `Reception`, `Sufficiency`, `Decoder`, `FileDecoder`).
- **The broadcast** (`Frames`, `Session`, `Carousel`, `Broadcast`, `EndToEnd`) and its transport (`Crc6Table`,
  `Crc6`, `Kiss`, `RingBuffer`).

## Main results

1. *Whole broadcast* (`EndToEnd.SendAndReceive`, `Broadcast.ReceiveFile`). Whatever subset of a sender's frames
   arrives, in whatever order and however often, and with whatever errors the checksum can see: unless the solver ends
   the program (then it says for which block and why) or the receiver had completed this very transfer immediately
   before, a file is reported complete if and only if for every block the symbols that arrived intact are *sufficient*, that is, they include all K source
   symbols, or no nonzero code makes all of them, the padding symbols and the relations zero. The file reported is the
   file that was sent (under the condition of result 4). The first K rounds of the carousel are always sufficient, and
   so are any 65536 rounds in a row, wherever a receiver joins (`EndToEnd.FirstRoundsEnough`, `EndToEnd.AnyTurnEnough`).
2. *Any sufficient set* (`Sufficiency.ShortIff`, `Decoding.BlockDecoder.RepairBlock`). Sufficiency depends on the set of
   received symbol numbers only, not on their order or on what is stored where, more symbols never hurt, it takes at
   least K of them (`Sufficiency.AtLeastK`: a system with fewer rows than columns has a nonzero kernel vector), and it
   means that only one code explains what was received (`Sufficiency.AmbiguousIff`). The decoder's own test, enough
   repair symbols and a full-rank system, decides exactly it. With retries and whatever codes the symbols come
   from, every source symbol written is that of the code (`FileDecoding.BlockRoundTrip`,
   `FileDecoding.FileDecoder.WholeFile`).
3. *Completeness of the solver* (`Inversion.Invert`). Unless the working matrix runs out of spare rows, inversion
   fails if and only if the columns of the constraint matrix are linearly dependent. It cannot run out of spare
   rows when at most 2H rows are left outside the triangular block, nor when there are at least L sparse rows
   and these determine the symbols by themselves.
4. *What the replay order costs* (`IntermediateSymbols.ReplayIsCorrectIff`, `Inversion.Invert`). The second checkpoint
   of a schedule is one short (`raptorq/precode.c:372`), so the last operation before it is replayed after the first
   pass has been undone. The replay is correct, for every system the schedule inverts, if and only if that
   operation is *harmless*: it is a scaling, or its target is a row that is not used, or the first pass did not
   change its source row. Every operation that Gaussian elimination records is: the solver keeps its sources
   outside the triangular block. So the encoder's symbols are a code of the block, and the decoder's output is the
   file, whenever elimination recorded an operation at all (`Encoding.BlockEncoder.GenerateSymbols`,
   `Sending.TxSession.EliminatedReady`, `FileDecoding.FileDecoder.EliminatedSound`). What is left is a system on which
   elimination recorded nothing. Then the operation is one of a clearing pass, and the replay is correct if and
   only if its target is not used or the first pass left its source alone (`ReplayOrder.LateHarmlessIff`). Whether
   the solver meets such a system in which neither holds is open: `IntermediateSymbols.LateOperationCanHarm` only
   shows, on a schedule written by hand, that inverting a matrix is not enough for a schedule to be replayed
   correctly in this order.
5. *The first checkpoint* (`Inversion.MakeU`, `IntermediateSymbols.ApplySched`, `Encoding.Used.HeavyOverruns`). It wraps
   to 4294967295 when the first pass records no operation (`raptorq/precode.c:259`), and the replay leaves its list if
   and only if that happens. It happens if and only if no row of the triangular block has an entry left of the
   diagonal; in particular if the block is empty, which it is if and only if no sparse row has one or two entries
   before the last P columns. With at least S columns below B, as throughout the table of section 5.6 of RFC 6330,
   that means that no symbol of the system has one or two LT neighbours. So a block whose received symbols all
   have three LT neighbours or more is never repaired: the attempt runs out of the list
   (`Decoding.BlockDecoder.RepairedLight`).
6. *What goes over the link.* The layout of symbols in the file, the tuples and relations, the number of blocks, every
   byte of a frame and every byte on the wire are also stated in closed form, apart from the code that computes them
   (`Transfer.SymbolsInOrder`, `Tuples.TupleParts`, `Tuples.NeighboursAre`, `Generation.LdpcTerms`, `Hdpc.HdpcEntries`,
   `TransferInfo.GenScheme`, `Frames.FrameBytes`, `Kiss.EscapedBytes`). A frame with errors is let in if and only if
   its error pattern is itself a multiple of the checksum polynomial (`Frames.HitPassesIff`), which no pattern with an
   odd number of ones is, nor one confined to six consecutive bits behind the header (`Receiving.RxSession.Screen`). Of any
   mixture of frames on the wire, cut in any way, exactly those of data come out (`Kiss.Receiver.ReceiveAll`).

## Model

| member | source | states |
|---|---|---|
| GF256.XtimeAdd | oblas/tablegen.c:31-52 | Multiplication by x with reduction by 285 distributes over exclusive-or. |
| GF256.MulAddRight | oblas/oblas_classic.c:34-52 | Multiplication distributes over exclusive-or on the right; with MulAddLeft, MulComm and MulAssoc, the octets form a commutative ring. |
| GF256.MulAddLeft | oblas/oblas_classic.c:34-52 | Multiplication distributes over exclusive-or on the left. |
| GF256.MulComm | oblas/tablegen.c:31-52 | Multiplication of octets is commutative. |
| GF256.MulAssoc | oblas/tablegen.c:31-52 | Multiplication of octets is associative. |
| Tables.AlphaPowAdd | oblas/tablegen.c:31-52 | The powers of the generator multiply by adding exponents. |
| Tables.AlphaRoot | oblas/tablegen.c:31-52 | The generator of the field is x, its powers below the eighth are the single bits, and x^8 is x^4 + x^3 + x^2 + 1. |
| Tables.OrderOfAlpha | oblas/tablegen.c:31-52 | No power of the generator between 1 and 254 is one: its order is exactly 255. |
| Tables.LogOfNonzero | oblas/tablegen.c:31-52 | Every nonzero octet is the power of the generator that its logarithm, below 255, names. |
| Tables.LogOfPower | oblas/tablegen.c:31-52 | The logarithm undoes the powers below 255. |
| Tables.InvCorrect | oblas/tablegen.c:74-91 | An octet times its entry in the inverse table is one, for every nonzero octet. |
| Tables.MulNonzero | oblas/tablegen.c:31-52 | A product of octets is zero only if a factor is. |
| Tables.FillTabs | oblas/tablegen.c:31-52 | The loop fills the tables with the 255 powers of the generator and with logarithms that invert them; the logarithm of zero is 255. |
| Tables.LogProduct | oblas/tablegen.c:93-126 | Adding logarithms modulo 255 multiplies nonzero octets. |
| Tables.NibbleProduct | oblas/tablegen.c:93-126 | Two nibble look-ups, xored, are the product, for all pairs of octets. |
| Linear.StepSolves | raptorq/precode.c:15-21 | One row operation on both sides of a linear system neither gains nor loses solutions. |
| Linear.RunSolves | raptorq/precode.c:15-32 | Running any list of operations on both sides of a system neither gains nor loses solutions. |
| Linear.ReverseUndoes | raptorq/precode.c:27-28 | Running additions and then the same additions backwards restores every matrix. |
| Linear.RunLocal | raptorq/precode.c:15-32 | Operations among a set of rows act on a column only through its entries in those rows. |
| Oblas.OSwapRow | oblas/oblas_classic.c:13-22 | Exchanges two rows and leaves the rest. |
| Oblas.OAddRow | oblas/oblas_classic.c:54-62 | Is the row operation "add row j to row i". |
| Oblas.OAxpy | oblas/oblas_classic.c:34-52 | Is the row operation "add u times row j to row i"; u zero does nothing. |
| Oblas.OScal | oblas/oblas_classic.c:64-77 | Is the row operation "multiply row i by u"; u zero or one does nothing. |
| Permutation.SwapInverse | raptorq/precode.c:142-154 | Exchanging two entries, and in the inverse the entries they name, keeps two vectors mutually inverse. |
| Permutation.SwapEntries | raptorq/precode.c:142-154 | The in-place exchange keeps the pair of vectors mutually inverse and changes nothing else. |
| Permutation.Permute | raptorq/precode.c:3-13 | For every permutation of the first n rows the cycle-following loop ends, moves old row x to row p[x], and leaves rows from n on. |
| Permutation.FollowCycle | raptorq/precode.c:3-13 | The inner loop completes exactly the cycle it starts in; every visited row is in its final place. |
| SpMat.Sparse.Transpose | raptorq/spmat.c:38-46 | The transpose lists a row under a column exactly if the row lists the column, without repetition. |
| SpMat.Sparse.Push | raptorq/spmat.c:34-36 | Appends one column to one row. |
| SpMat.Sparse.Nnz | raptorq/spmat.c:48-58 | Counts the entries of a row that lie in the column range. |
| SpMat.CountSplit | raptorq/spmat.c:48-58 | Counts over adjoining column ranges add up. |
| Scheduling.Schedule.constructor | raptorq/sched.c:3-26 | Row and column order start as the identity, with their inverses, and the operation list empty. |
| Scheduling.Schedule.Push | raptorq/sched.c:46-49 | Appends one operation. |
| Preconditioning.Sort | raptorq/precode.c:99-109 | The dense rows move to the bottom; permutations are inverse, and every degree is the row's count in the active columns, or the sentinel L for a row that starts with none. |
| Preconditioning.Choose | raptorq/precode.c:115-126 | Finds an active row of least degree if that is one or two; answers "none" only when no active row has degree one or two. |
| Preconditioning.RowNzAt | raptorq/precode.c:128-140 | Finds exactly the positions of a row's one or two entries in the active range, in order. |
| Preconditioning.ExposeRow | raptorq/precode.c:142-154 | The column exchanges put the chosen row's entries at the two edges of the active range and keep the phase invariant. |
| Preconditioning.ShrinkKeeps | raptorq/precode.c:176-203 | One pass keeps the whole invariant: inverse permutations, dense rows at the bottom, exact degrees, unit lower triangular block, i + u at most L. |
| Preconditioning.UpdateNnz | raptorq/precode.c:156-174 | Every row's degree drops by exactly its entries in the one or two columns that leave the active part, and every row that reaches degree one or two is on its stack. |
| Preconditioning.TakeRow | raptorq/precode.c:176-203 | Moves the chosen row to position i keeping the invariant; stops only when no active row of degree one or two is left. |
| Preconditioning.Precond | raptorq/precode.c:176-203 | The phase ends with a unit lower triangular block of size S.i, and only when every column has left the active part or no row outside the block has one or two entries in it; the block is empty if and only if no row had one or two entries before the last P columns. |
| Preconditioning.PrecondPass | raptorq/precode.c:176-203 | One iteration keeps the invariant with the block one larger, or finds that no active row has degree one or two. |
| Hdpc.FlipsDistinct | raptorq/precode.c:60-83 | The two rows flipped in a column are different, for every generator. |
| Hdpc.ProductStep | raptorq/precode.c:60-83 | Column col of MT * GAMMA is alpha times column col + 1 plus column col of MT, for partial sums of every length. |
| Hdpc.ProductLast | raptorq/precode.c:60-83 | The last column of MT * GAMMA is the last column of MT: the powers of alpha. |
| Hdpc.HdpcEntries | raptorq/precode.c:60-83 | The product in full: the powers of alpha in the last column; in every other column alpha times the right neighbour, plus one in the two rows that random numbers 6 and 7 of the column name. |
| Hdpc.MakeHDPC | raptorq/precode.c:60-83 | The right-to-left recurrence computes the product MT * GAMMA of section 5.3.3.3 of RFC 6330, for every H of at least 2 and every width. |
| WorkMatrix.XorWords | oblas/gf2.c:70-77 | Exclusive-or of two packed rows word by word, keeping bits beyond the last column zero. |
| WorkMatrix.Fill | oblas/gf2.c:109-120 | Unpacking a row sets exactly the bytes whose bits are set. |
| WorkMatrix.AxpyPacked | oblas/oblas_classic.c:108-118 | Adds u to a byte row exactly where the packed row has a bit. |
| WorkMatrix.WrkMat.At | raptorq/wrkmat.c:60-63 | Reads the entry of the dense matrix the hybrid stands for; a packed row holds zeros and ones. |
| WorkMatrix.WrkMat.SetBit | oblas/gf2.c:61-68 | Sets or clears one bit of a packed row: one entry of the dense matrix. |
| WorkMatrix.WrkMat.Set | raptorq/wrkmat.c:65-74 | Sets one entry of the dense matrix, in a byte row or a packed one; aborts exactly for a value above 1 in a packed row. |
| WorkMatrix.WrkMat.Promote | raptorq/wrkmat.c:76-108 | Turning a packed row into a byte row does not change the dense matrix; it takes one spare row. |
| WorkMatrix.WrkMat.Axpy | raptorq/wrkmat.c:76-108 | In all four type combinations the dense matrix undergoes the row operation; it aborts exactly when a packed row needs promotion and no spare row is left. |
| WorkMatrix.WrkMat.Scal | raptorq/wrkmat.c:110-118 | Scaling a byte row is the row operation on the dense matrix. |
| WorkMatrix.WrkMat.AssignBlock | raptorq/wrkmat.c:32-41 | The block's rows replace the packed ones in the dense matrix; all other rows stay. |
| Elimination.LinkedStep | raptorq/precode.c:205-219 | Applying an operation to the working matrix and recording it keeps the working matrix equal to what the schedule does to the full matrix. |
| Elimination.ClearStep | raptorq/precode.c:205-219 | Each recorded addition clears one entry of the block's column and disturbs no cleared one. |
| Elimination.FwdGE | raptorq/precode.c:205-219 | A pass clears every entry of the block's columns in the rows it covers, by additions in source order only, leaving all other rows. |
| Elimination.FillU | raptorq/precode.c:221-230 | The working matrix is the sparse matrix in the permuted columns outside the block. |
| Elimination.FirstPassReady | raptorq/precode.c:254-262 | After the sparse phase the block is unit lower triangular with its sparse entries, as the first pass needs. |
| Elimination.SecondPassReady | raptorq/precode.c:254-262 | After the first pass the block is the identity and the rows below still hold their sparse entries. |
| Elimination.FirstPassEmpty | raptorq/precode.c:254-262 | The first pass records no operation if and only if no row of the block has an entry left of the diagonal. |
| DenseRows.OverlayAgrees | raptorq/precode.c:232-252 | Laying the dense rows over the working matrix makes it agree with the full matrix in every row. |
| DenseRows.FillHDPC | raptorq/precode.c:232-252 | Afterwards all rows are cleared in the block's columns and take part in elimination, and the matrix has 2H byte rows; the last operation, if there is a new one, adds a row of the block. |
| DenseRows.FillBlock | raptorq/precode.c:232-252 | The byte block holds the dense rows in the permuted columns, then the identity, then H spare zero rows. |
| Gauss.FindPivot | raptorq/precode.c:264-315 | Finds the first row with an entry in the column; a pivot above one is always in a byte row, so no packed row is ever scaled. |
| Gauss.EliminateColumn | raptorq/precode.c:264-315 | Clears the pivot column below the pivot by adding rows from outside the block only; a failure means all spare rows are used, and cannot happen while every row is packed. |
| Gauss.SolveGF2 | raptorq/precode.c:264-285 | Elimination over GF(2) on the sparse rows goes on until every column has a pivot or a column has none among the rows that are left; it records additions of rows outside the block only. |
| Gauss.SolveGF256 | raptorq/precode.c:287-315 | Elimination over GF(256) on all rows ends triangular, at a column without pivot, or in the abort, which takes more rows outside the block than there are byte rows; it records scalings and additions of rows outside the block only. |
| Gauss.PivotGF256 | raptorq/precode.c:287-315 | Exchanging, scaling and clearing give one more pivot, recording scalings and additions of rows outside the block only; a failure means no spare row is left. |
| Rank.RunKernel | raptorq/precode.c:347-377 | Row operations keep the kernel of a matrix. |
| Rank.TriangularNotDeficient | raptorq/precode.c:347-377 | A matrix that eliminates to a full triangle has independent columns. |
| Rank.StuckDeficient | raptorq/precode.c:264-315 | A matrix in which elimination finds no pivot has dependent columns: a kernel vector is constructed. |
| Rank.FewRowsDeficient | raptorq/precode.c:347-371 | A matrix with fewer rows than columns has dependent columns: a nonzero kernel vector is constructed. |
| BackSubstitution.Backsolve | raptorq/precode.c:317-334 | The recorded operations make the triangular part the identity and clear its columns from the block's sparse rows, whatever the matrix. |
| Inversion.MakeU | raptorq/precode.c:254-262 | The two passes leave a working matrix ready for elimination; the first checkpoint is the first pass's operation count minus one in 32 bits, and that count is zero if and only if no row of the block has an entry left of the diagonal. |
| Inversion.SparseStuck | raptorq/precode.c:264-285 | If elimination over GF(2) gets stuck, the sparse rows by themselves have dependent columns. |
| Inversion.Eliminate | raptorq/precode.c:347-377 | Trying the sparse rows first never loses a solvable system; the abort means that 2H byte rows are in use, more rows are outside the block, and the sparse rows do not suffice; the operations recorded last, from some point on, are exactly those of elimination. |
| Inversion.Invert | raptorq/precode.c:347-377 | Barring the abort, NULL if and only if the constraint matrix has dependent columns; otherwise a schedule that inverts it, split at its checkpoints; no abort with at most 2H rows outside the block, nor when at least L sparse rows suffice by themselves; the late operation is harmless if elimination recorded any, and otherwise if and only if its target is unused or the first pass spared its source; the block is empty if and only if no row is light, and the first pass recorded nothing if and only if the block is diagonal. |
| Inversion.FinishSchedule | raptorq/precode.c:317-377 | The finished schedule splits into the parts of one that inverts the constraint matrix, whose columns are then independent. |
| Inversion.EliminateAll | raptorq/precode.c:365-371 | With the dense rows: a full triangle, dependent columns, or the abort, with 2H byte rows in use and more rows than that outside the block. |
| Replaying.UnwoundRows | raptorq/precode.c:23-32 | Undoing the first pass restores the block's original rows and leaves the others eliminated. |
| Replaying.PhasesSolve | raptorq/precode.c:23-32 | In their intended order the phases turn the constraint matrix into unit rows, for every schedule that inverts it. |
| ReplayOrder.SolvingHarmless | raptorq/precode.c:264-315 | An operation whose source row lies outside the block, as of every addition of Gaussian elimination, is harmless when replayed late. |
| ReplayOrder.LateHarmlessIff | raptorq/precode.c:347-377 | For an inverting schedule in which elimination begins at operation e: the late operation is harmless if and only if elimination recorded an operation or its target is unused or its source was left alone; without elimination it is an addition of a block row. |
| ReplayOrder.ActualPhasesSolve | raptorq/precode.c:23-32 | In the source's order the phases turn the constraint matrix into unit rows if and only if the late operation is harmless. |
| IntermediateSymbols.RecoversIffSolved | raptorq/precode.c:379-389 | A replay recovers the solution of every system exactly if it turns the constraint matrix into unit rows. |
| IntermediateSymbols.SquareSolvable | raptorq/precode.c:379-389 | For a square system, what such a replay leaves is a solution for every right-hand side. |
| IntermediateSymbols.ReplayIsCorrectIff | raptorq/precode.c:23-32 | The source's replay order recovers the solution of every solvable system if and only if the late operation is harmless. |
| IntermediateSymbols.LateOperationCanHarm | raptorq/precode.c:23-32 | A matrix and a schedule, written by hand, that inverts it, whose replay in the source's order is wrong: that a schedule inverts its matrix does not suffice. The schedule is not claimed to come from precode_matrix_invert. |
| IntermediateSymbols.ApplySched | raptorq/precode.c:23-32 | The replay stays inside the list if and only if the first pass recorded an operation, and then runs the phases in the source's order. |
| IntermediateSymbols.Unscramble | raptorq/precode.c:379-389 | Permuting by the inverse row order and then by the column order puts the row solved for column j at row j. |
| IntermediateSymbols.Intermediate | raptorq/precode.c:379-389 | With a harmless late operation, the first L rows end up as the solution of every solvable system, and solve every square one. |
| IntermediateSymbols.ApplyOne | raptorq/precode.c:15-21 | One recorded operation, in place, is the row operation. |
| Primes.IsPrime | raptorq/params.c:5-19 | Answers true exactly for primes. |
| Primes.EuclidStep | raptorq/params.c:47-65 | A prime divides no product of two smaller positive numbers. |
| Primes.StopsDistinct | raptorq/params.c:47-65 | A walk around a prime circle visits no place twice in one round. |
| Primes.NextPrime | raptorq/params.c:35-45 | The 16-bit search ends for every start, and finds the least prime unless it wraps. |
| Tuples.SmallestParams | raptorq/params.c:21-45 | The table entry for K' = 10 satisfies everything that is assumed of parameters. |
| Tuples.DeriveParams | raptorq/params.c:21-45 | The parameters derived from a table row satisfy everything that is assumed of parameters. |
| Tuples.InitParams | raptorq/params.c:21-45 | Finds a table row with at least K symbols, that of the least K' if the table is in order, and derives its parameters. |
| Tuples.BandUnique | raptorq/tuple.c:13-19 | A value falls into one band of the degree distribution only. |
| Tuples.Deg | raptorq/tuple.c:13-19 | The scan returns the value's band, capped at W - 2. |
| Tuples.DegreeTable | raptorq/tuple.c:4-8 | The distribution in closed form: entry d is 5243 + 2^20 * (d - 1) / d, rounded up or down, for d from 1 to 29, between 0 and 2^20. |
| Tuples.SeedNext | raptorq/tuple.c:21-30 | Seeds start at 10267 * (J + 1) and go up, with each symbol, by the odd one of 53591 + 997 J and 53592 + 997 J, in 32 bits. |
| Tuples.SeedsDistinct | raptorq/tuple.c:21-30 | Different symbols below 2^32 have different seeds, because the multiplier is odd. |
| Tuples.GenTuple | raptorq/tuple.c:21-43 | Returns the tuple of section 5.3.5.4 of RFC 6330, in 32-bit arithmetic; TupleParts, SeedNext and SeedsDistinct say what that is. |
| Tuples.TupleParts | raptorq/tuple.c:21-43 | Every component: d is the band of random number 0 of the seed, capped at W - 2, a and b come from numbers 1 and 2 of the seed, and d1, a1, b1 from numbers 3, 4, 5 of X itself, d1 being 2 unless d is below 4. |
| Tuples.TupleBounds | raptorq/tuple.c:21-43 | Every component of a tuple is in the range the index walks need. |
| Tuples.RoundHits | raptorq/params.c:47-65 | A full round around P1 places meets at least P places below P, so the skip loops end. |
| Tuples.NeighboursDistinct | raptorq/params.c:47-65 | For every internal symbol number the indices are pairwise distinct and below L: at least one LT index below W, then two or three PI indices from W on. |
| Tuples.NeighboursAre | raptorq/params.c:47-65 | The indices in full: LT index k is (b + k * a) mod W; the PI indices are W plus the first d1 numbers below P among b1, b1 + a1, b1 + 2 a1, ... modulo P1. |
| Tuples.SetIdxs | raptorq/params.c:47-65 | Pushes exactly these indices onto the row, in order. |
| Generation.LdpcDistinct | raptorq/precode.c:39-49 | Each column below B goes to three different LDPC rows. |
| Generation.LdpcTerms | raptorq/precode.c:34-58 | The terms of relation r in full: the columns x below B with r at one of the places x, x + a, x + 2 a modulo S, a being 1 + x / S; column B + r; and columns W + r mod P and W + (r + 1) mod P. |
| Generation.MakeLDPC1 | raptorq/precode.c:39-49 | Row r lists column x below B exactly if x takes part in LDPC relation r. |
| Generation.MakeIdentity | raptorq/precode.c:34-37 | Adds one diagonal entry to each row of the range. |
| Generation.MakeLDPC2 | raptorq/precode.c:51-58 | Adds two neighbouring columns around the circle of P to each of the first S rows. |
| Generation.MakeGEnc | raptorq/precode.c:85-88 | Row S + H + k lists the neighbours of internal symbol k, for all k below K'. |
| Generation.Generate | raptorq/precode.c:90-97 | The sparse part of the constraint matrix of section 5.3.3.3 of RFC 6330, followed by empty rows for overhead. |
| Generation.RowsWellFormed | raptorq/precode.c:90-97 | With every row past the dense ones belonging to a symbol, all rows list distinct columns below L. |
| Degrees.SymbolLight | raptorq/precode.c:85-88 | A symbol's row has one or two entries before the last P columns if and only if the symbol has at most two LT neighbours. |
| Degrees.RelationHeavy | raptorq/precode.c:39-58 | With at least S columns below B every LDPC row has at least three entries before the last P columns. |
| Degrees.NoneLightIff | raptorq/precode.c:176-203 | The first phase finds no row to start with if and only if every symbol of the system has three or more LT neighbours. |
| Symbols.SumIsDot | raptorq/nanorq.c:184-204 | A sum of distinct rows is the combination with ones at those rows. |
| Symbols.HalfTerms | raptorq/precode.c:60-83 | Half relation h in full: row h of the product, and half symbol K' + S + h itself. |
| Symbols.EncodesSystem | raptorq/precode.c:85-97 | The generated lists and dense rows are the constraint matrix for those symbols. |
| Symbols.SystemMeaning | raptorq/precode.c:85-97 | Intermediate symbols solve the system if and only if they obey all pre-coding relations and make up every given symbol. |
| Symbols.DecodeRow | raptorq/nanorq.c:184-204 | Computes the symbol with that internal number: the sum of exactly its neighbours' rows. |
| Bitmasks.Bitmask.constructor | raptorq/bitmask.c:6-13 | A new mask is empty and long enough for its initial size. |
| Bitmasks.Bitmask.Set | raptorq/bitmask.c:15-22 | Adds one number to the set, growing as needed. |
| Bitmasks.Bitmask.Check | raptorq/bitmask.c:34-41 | Answers membership, for every number. |
| Bitmasks.Bitmask.Gaps | raptorq/bitmask.c:51-67 | Counts the numbers below the bound that are not in the set; words past the end are not counted. |
| Bitmasks.Bitmask.Reset | raptorq/bitmask.c:69-72 | Empties the set. |
| Bitmasks.NoneMissing | raptorq/bitmask.c:51-67 | The count is zero exactly if every number below the bound is in the set. |
| Bitmasks.MissingAdd | raptorq/bitmask.c:51-67 | Adding a number lowers the count by one exactly if it is below the bound and was not there. |
| Layout.FillSplits | raptorq/nanorq.c:83-95 | I things are cut into exactly J parts that differ by at most one, the longer ones first. |
| Layout.PartSizes | raptorq/nanorq.c:83-95 | Of I things in J parts, the first I mod J parts have I div J + 1 and the others I div J, and each starts where the ones before it end. |
| Layout.FindStart | raptorq/nanorq.c:83-95 | Every position of a part is found in that part. |
| Layout.StartFind | raptorq/nanorq.c:83-95 | The part found for a position contains it. |
| Layout.OffsetIsPlace | raptorq/nanorq.c:97-128 | The offset arithmetic is the sub-block layout of section 4.4.1.2 of RFC 6330; FirstPlace, NextSymbolPlace and NextUnitPlace say where that puts every unit. |
| Layout.FirstPlace | raptorq/nanorq.c:97-128 | A block starts behind all units of the blocks before it, and each of its sub-blocks behind all its symbols' units of the sub-blocks before. |
| Layout.NextSymbolPlace | raptorq/nanorq.c:114-128 | The next symbol lies one sub-block's worth of units further on, for every number of sub-blocks. |
| Layout.NextUnitPlace | raptorq/nanorq.c:114-128 | The next unit of a symbol in the same sub-block is the next unit of the file. |
| Layout.PlaceLocate | raptorq/nanorq.c:114-128 | Every unit of the padded file is some unit of some symbol. |
| Layout.LocatePlace | raptorq/nanorq.c:114-128 | No two units of symbols share a place, and all lie in the padded file. |
| Transfer.ByteAtOwner | raptorq/nanorq.c:148-173 | Every byte of the file belongs to a byte of a symbol. |
| Transfer.OwnerByteAt | raptorq/nanorq.c:148-173 | No two bytes of symbols share a byte of the file. |
| Transfer.SymbolsInOrder | raptorq/nanorq.c:114-128 | With one sub-block the padded file is its symbols in order: byte b of symbol esi of a block is byte (start of the block + esi) * T + b. |
| Transfer.TransferOut | raptorq/nanorq.c:148-173 | Writing a symbol changes exactly its bytes of the file, for every number of sub-blocks, clipped at the file's end. |
| Transfer.TransferIn | raptorq/nanorq.c:148-173 | Reading a symbol fills the row with its bytes and keeps what it held past the file's end. |
| TransferInfo.Blocking | raptorq/nanorq.c:60-81 | Rounding twice leaves at most the blocks asked for, none empty and none larger than intended. |
| TransferInfo.CeilCovers | raptorq/nanorq.c:60-81 | Rounding up gives the least number of groups of a given size that hold everything. |
| TransferInfo.AsksSixteen | raptorq/nanorq.c:67-73 | Without a request 16 blocks are asked for if and only if there are at most 16 * 56403 symbols. |
| TransferInfo.CountBlocks | raptorq/nanorq.c:60-81 | The search finds the least number of blocks from 16 on that makes none too large. |
| TransferInfo.GenScheme | raptorq/nanorq.c:60-81 | The least number of blocks of at most K symbols, if K is asked for; otherwise the least number of blocks of at most kn symbols, kn being the least with which Z blocks suffice, for the Z asked for or the least Z from 16 on that makes no block too large. |
| TransferInfo.Grow | raptorq/nanorq.c:241-292 | The first symbol size that is large enough; no end exactly if the alignment is one and the size too small; zero only if no 16-bit multiple would do. |
| TransferInfo.MultipliedPower | raptorq/nanorq.c:267-271 | After i multiplications in 16 bits the symbol size is the first one times the i-th power of the alignment, modulo 65536. |
| TransferInfo.LargeEnoughIff | raptorq/nanorq.c:267-271 | A symbol size is large enough if and only if 256 * 56403 symbols of it hold the file. |
| TransferInfo.MaxTransfer | raptorq/nanorq.c:247-249 | A length is within the maximum if and only if some 16-bit symbol size is large enough for it. |
| TransferInfo.NewEncoder | raptorq/nanorq.c:241-292 | Every encoder has between 1 and 256 blocks of 1 to 56403 symbols, as many as GenScheme says; exactly when creating one does not end and exactly when it divides by zero, and what every refusal is due to. |
| TransferInfo.AcceptedShape | raptorq/nanorq.c:375-415 | An accepted decoder has a usable shape if and only if it does not ask for 65536 sub-blocks. |
| TransferInfo.ConfigBytes | raptorq/nanorq.c:318-345 | The configuration bytes: F in three bytes, T - 1 in two, Z - 1 in one and N - 1 in two, low bytes first. |
| TransferInfo.ConfigVerdict | daemon.c:346-365 | What a receiver makes of any eight bytes: it fails with a symbol size of 65536, refuses more bytes than Z blocks of 56403 symbols hold, and otherwise accepts the shape that the bytes say. |
| TransferInfo.ConfigAgrees | daemon.c:346-365 | What the receiver parses from the eight configuration bytes is exactly the sender's shape, for every file below 2^24 bytes. |
| TransferInfo.ConfigDetermined | daemon.c:346-365 | No two configurations are accepted with the same shape. |
| TransferInfo.TagBytes | raptorq/nanorq.c:362-369 | The packed tag is the block number and the symbol number, low byte first. |
| TransferInfo.TagAgrees | raptorq/nanorq.c:356-369 | The three tag bytes name the block and symbol number that were packed. |
| Encoding.MakeSchedule | raptorq/nanorq.c:432-440 | A schedule for a whole block, or the constraint matrix of its K' symbols has dependent columns. |
| Encoding.EncodedMeaning | raptorq/nanorq.c:206-232 | Intermediate symbols computed from a loaded block obey all relations and reproduce all its symbols. |
| Encoding.BlockEncoder.constructor | raptorq/nanorq.c:130-146 | A new encoder has a zero matrix with room for overhead. |
| Encoding.BlockEncoder.Load | raptorq/nanorq.c:175-182 | The rows become the block's source symbols, padded with zeros, above them zeros. |
| Encoding.BlockEncoder.GenerateSymbols | raptorq/nanorq.c:206-232 | On success the matrix holds a code of the block if elimination recorded an operation for the replayed schedule, or the late operation is harmless for another reason; failure means the block's symbols do not determine a code; a second call changes nothing. |
| Encoding.BlockEncoder.EncodeSource | raptorq/nanorq.c:442-460 | Systematic: encoding a source symbol gives back the original bytes, before the computation, and after it if elimination recorded an operation or the late operation is harmless for another reason. |
| Encoding.BlockEncoder.EncodeRepair | raptorq/nanorq.c:442-474 | Repair symbol esi is the symbol of the code with internal number esi + K' - K; numbers from 2^24 on fail. |
| Encoding.BlockEncoder.Replay | raptorq/nanorq.c:206-232 | The replayed schedule inverts the block's constraint matrix; it overruns its list exactly if the first pass recorded nothing or the list is too long to count. |
| Encoding.Used.HarmlessIff | raptorq/precode.c:347-389 | A replayed schedule is harmless if and only if elimination recorded an operation for it or its late operation is spared. |
| Encoding.Used.HeavyOverruns | raptorq/precode.c:176-262 | A system none of whose symbols has one or two LT neighbours has a schedule whose replay leaves its list. |
| Encoding.BlockEncoder.Eliminated | raptorq/nanorq.c:206-232 | If elimination recorded an operation, the rows of D are a code of the block. |
| Reception.MergePairs | raptorq/nanorq.c:568-606 | Two merges of the same shape pair what their parts pair, row by row. |
| Reception.FillSymbolMatrixGaps | raptorq/nanorq.c:590-606 | Missing source rows are replaced by repair symbols in order, the rest follow at the end. |
| Reception.PatchPrecodeMatrix | raptorq/nanorq.c:568-588 | The constraint rows are merged in the same way with the same repair symbols. |
| Sufficiency.AmbiguousIff | raptorq/nanorq.c:632-672 | Given one code that explains the received symbols, there is a different one if and only if a nonzero code makes all of them zero: a sufficient set beyond the source symbols is one that leaves a single code. |
| Sufficiency.SufficientMore | raptorq/nanorq.c:632-672 | A sufficient set of symbols stays sufficient when symbols are added. |
| Sufficiency.FewAmbiguous | raptorq/nanorq.c:632-672 | Fewer than K symbols never determine a block of K symbols. |
| Sufficiency.AtLeastK | raptorq/nanorq.c:632-672 | A sufficient set has at least K symbols. |
| Sufficiency.IsiCovers | raptorq/nanorq.c:560-606 | The internal numbers of the encoding symbols ascend, are the symbol numbers below K, and leave out exactly the padding symbols K to K' - 1. |
| Sufficiency.KernelMeaning | raptorq/precode.c:85-97 | A vector is in the kernel of a system if and only if, as intermediate symbols, it obeys all relations and makes every listed symbol zero. |
| Sufficiency.MergeCovers | raptorq/nanorq.c:568-588 | The patched system holds every received symbol, every padding symbol and every repair symbol. |
| Sufficiency.DeficientIff | raptorq/nanorq.c:568-606 | The system a repair solves has dependent columns if and only if the set of received symbols leaves the block ambiguous, whatever their order. |
| Sufficiency.ReceivedSize | raptorq/nanorq.c:632-654 | Received symbols number K less the missing ones plus the repair symbols. |
| Sufficiency.ShortIff | raptorq/nanorq.c:632-672 | Too few repair symbols or a system with dependent columns, if and only if the received set is not sufficient. |
| Decoding.AllStored | raptorq/nanorq.c:148-173 | A file in which every symbol of another file is stored is that file. |
| Decoding.Capacity | raptorq/nanorq.c:632-654 | There are never more different repair symbols than the matrix has room for. |
| Decoding.BlockDecoder.constructor | raptorq/nanorq.c:130-146 | A new block decoder has nothing and misses all its source symbols. |
| Decoding.BlockDecoder.NumMissing | raptorq/nanorq.c:552-558 | The number of missing source symbols. |
| Decoding.BlockDecoder.AddSymbol | raptorq/nanorq.c:517-550 | The verdict for every symbol number; an added symbol is recorded once and, if it is a source symbol, written to its place; otherwise nothing changes. |
| Decoding.BlockDecoder.SetUp | raptorq/nanorq.c:568-606 | Symbol matrix and constraint matrix form one system: every code the received symbols come from solves it. |
| Decoding.BlockDecoder.DecodeRepairRows | raptorq/nanorq.c:608-618 | The missing source symbols, in order, computed from the intermediate symbols. |
| Decoding.BlockDecoder.WriteRepairRows | raptorq/nanorq.c:620-630 | Each missing symbol is written to its place and marked; nothing outside the block changes. |
| Decoding.BlockDecoder.RepairBlock | raptorq/nanorq.c:632-672 | Succeeds if and only if the set of received symbols is sufficient, barring abort and overrun: the abort only when rows are left over and the sparse rows do not suffice, the overrun exactly if the schedule's first pass recorded nothing or it is too long to count; afterwards nothing is missing and every written symbol is that of every code the received symbols come from, if elimination recorded an operation or the late operation is harmless for another reason. |
| Decoding.BlockDecoder.ShortIff | raptorq/nanorq.c:632-654 | A block that misses a symbol cannot be repaired yet if and only if what it has received is not sufficient. |
| Decoding.BlockDecoder.EliminatedSound | raptorq/nanorq.c:632-672 | A repair for which elimination recorded an operation was replayed correctly. |
| Decoding.BlockDecoder.RepairedLight | raptorq/nanorq.c:632-672 | A repaired block had a symbol with one or two LT neighbours, given at least S columns below B: no other block is ever repaired. |
| Decoding.RepairFaithful | raptorq/nanorq.c:632-672 | If the replay solved the system, the restored symbols are those of every code that explains what was received. |
| Decoding.BlockDecoder.OtherBlock | raptorq/nanorq.c:517-550 | Writing symbols of one block does not disturb the decoder of another. |
| Decoding.BlockDecoder.Solve | raptorq/nanorq.c:632-672 | Fails exactly if the constraint matrix of the received symbols has dependent columns; then nothing has changed. |
| FileDecoding.FirstLargest | raptorq/nanorq.c:375-415 | No block is larger than block 0, so the parameters taken from block 0 fit every block. |
| FileDecoding.BlockRoundTrip | raptorq/nanorq.c:517-550 | If the accepted symbols are encoding symbols of a file's block, every source symbol written is the file's and lies in its place. |
| FileDecoding.FileDecoder.constructor | raptorq/nanorq.c:375-415 | Decoders for all block numbers, each with nothing received. |
| FileDecoding.FileDecoder.AddSymbol | raptorq/nanorq.c:517-550 | The verdict, and the exact change to what every block has accepted; an accepted symbol is for a block of the file. |
| FileDecoding.FileDecoder.RepairBlock | raptorq/nanorq.c:632-672 | Repairs one block exactly if it is not short of symbols, and leaves the state of every other block. |
| FileDecoding.FileDecoder.WaitsFor | raptorq/nanorq.c:632-672 | A block that misses a symbol is marked short exactly if the symbols it has accepted are not sufficient. |
| FileDecoding.FileDecoder.WholeEnough | raptorq/nanorq.c:517-550 | A block that misses nothing has accepted a sufficient set of symbols. |
| FileDecoding.FileDecoder.EliminatedSound | raptorq/nanorq.c:632-672 | If elimination recorded an operation for every repair, no replay ran into the late operation. |
| FileDecoding.FileDecoder.WholeFile | raptorq/nanorq.c:632-672 | When no block misses a source symbol and the accepted symbols are those of a file, the output is that file. |
| Frames.FrameAgrees | daemon.c:303-338 | A frame passes the receiver's checks and yields the block, symbol number, symbol and transfer parameters that were sent. |
| Frames.FrameBytes | daemon.c:303-338 | What the bytes of every frame sent say: type 2 with the remainder of the rest, seeded with one; F, T - 1, Z - 1 and N - 1; block and symbol number; the symbol. |
| Frames.PassesIff | daemon.c:522-543 | A frame passes if and only if it has the expected length and its first byte is 128 plus the remainder by long division of the rest. |
| Frames.PassesEven | daemon.c:522-543 | A frame that passes has an even number of ones. |
| Frames.FrameOddErrors | daemon.c:522-543 | An odd number of bit errors anywhere in a frame, header included, makes it fail. |
| Frames.FrameBurst | daemon.c:522-543 | Any change confined to six consecutive bits behind the header makes a frame fail. |
| Frames.HitPassesIff | daemon.c:522-543 | A frame that passes still passes with an error pattern added if and only if the pattern's first byte is the remainder of its rest: exactly which errors go unnoticed. |
| Frames.SlipsNot | daemon.c:522-543 | A pattern that goes unnoticed has an even number of ones, and is not a burst of six bits behind a clean header. |
| Receiving.RxSession.Start | daemon.c:367-409 | Opens a fresh session exactly for accepted parameters, refuses or fails exactly for the others. |
| Receiving.RxSession.Accept | daemon.c:567-590 | The exact verdict; the symbol is counted, and a repair is tried when due; afterwards counts and decoded marks are right for every block. |
| Receiving.RxSession.TryRepair | daemon.c:576-588 | A block is marked decoded exactly when none of its source symbols is missing; otherwise it has too few symbols or they do not determine it. |
| Receiving.Settled | daemon.c:576-588 | After a repair that was tried or not due, the bookkeeping of every block is right again. |
| Receiving.RxSession.IsComplete | daemon.c:411-418 | True exactly if every block is decoded. |
| Receiving.RxSession.Finish | daemon.c:600-607 | A completed session has all source symbols of all blocks, and is recorded as the one completed last. |
| Receiving.RxSession.Admit | daemon.c:545-565 | Keeps the open session of the same transfer, with everything it holds, or opens a new one. |
| Receiving.RxSession.Screen | daemon.c:522-543 | Passes a frame if and only if it has the expected length and its first byte is 128 plus the remainder of the rest; a passing frame damaged in an odd number of bits, or within six consecutive bits behind the header, never passes. |
| Receiving.RxSession.Receive | daemon.c:521-607 | What each frame does to the session, case by case; a session is open only while a block is not decoded; a completed transfer is not reopened before a different one. |
| Receiving.RxSession.Waiting | daemon.c:576-607 | An open session waits for a block whose accepted symbols are not sufficient, and all of its symbols that arrived are among them. |
| Receiving.RxSession.Process | daemon.c:567-607 | A frame of the open transfer adds its symbol, loses none, and ends the session exactly if every block is decoded. |
| Sending.StoredNext | daemon.c:303-323 | The counter sent is the number of rounds modulo 65536, for every round. |
| Sending.CountersStep | daemon.c:303-323 | One frame advances the counter of exactly one block, that of the frame. |
| Sending.TxSession.constructor | daemon.c:247-301 | An encoder for every block, counters at zero. |
| Sending.TxSession.GenerateAll | daemon.c:284 | Afterwards every block has its intermediate symbols, unless a whole block does not determine them. |
| Sending.TxSession.CodesReady | daemon.c:247-301 | What the encoders of a ready session hold are codes of its file. |
| Sending.TxSession.EliminatedReady | daemon.c:247-301 | A session whose schedules all hold an operation of elimination is ready: its encoders hold codes. |
| Sending.TxSession.SendOne | daemon.c:303-344 | Frame n carries block n mod Z and symbol (n div Z) mod 65536; sending a source symbol never fails, and nothing fails in a ready session. |
| Sending.OpenSession | daemon.c:247-301 | Refuses exactly files above 2^24 - 1 bytes; fails exactly for an empty file or symbols too small; otherwise a session for the file. |
| Sending.SendFrames | daemon.c:420-500 | Every frame of a run is the one its number says, and carries an encoding symbol of the file's code. |
| Sending.TxSession.NextSymbol | daemon.c:303-323 | The carousel's next symbol, and the counters after it. |
| Sending.CarouselPlace | daemon.c:303-323 | Frame (e + 65536 r) * Z + b is the one that carries symbol e of block b for the r-th time. |
| Broadcast.SentFrame | daemon.c:303-338 | Every frame made from a code is a frame the receiver can use. |
| Broadcast.ReceiveOne | daemon.c:502-619 | A frame of the broadcast keeps everything accepted so far an encoding symbol of the file that has arrived, and loses nothing that was held; only the solver ends the program. |
| Broadcast.ReceiveFile | daemon.c:502-619 | Unless the solver ends the program, for a block that is named, a file is reported complete if and only if the symbols that arrived are sufficient for every block; it is the file sent if elimination recorded an operation for every repair, or every late operation was harmless. |
| Broadcast.StillWaiting | daemon.c:502-619 | If a receiver that was sent frames still waits, the symbols that arrived are not sufficient for some block. |
| EndToEnd.SendAndReceive | daemon.c:303-619 | From sender to receiver: unless the solver ends the program or the transfer had just been completed, a file is completed if and only if the symbols of the frames that arrived intact, among any others damaged in a way the checksum sees, are sufficient for every block, and a completed file is the file sent, for schedules in which elimination recorded an operation; the block whose solver ends the program is one of those that arrived. |
| EndToEnd.FirstRoundsEnough | daemon.c:303-344 | If the first K rounds of the carousel arrive, K being the size of the largest block, what arrived is sufficient for every block. |
| EndToEnd.AnyTurnEnough | daemon.c:303-344 | So it is if any 65536 rounds in a row arrive, wherever they start. |
| Crc6Table.AllDouble | crc6.c:16-33 | Each table entry follows from that of half its index by doubling and reducing. |
| Crc6.RemXor | crc6.c:42-53 | Division by the generator polynomial is linear. |
| Crc6.EntryIsRem | crc6.c:16-33 | Every table entry is the remainder of its index times x^6. |
| Crc6.TableStep | crc6.c:42-53 | One look-up is one byte's worth of division. |
| Crc6.CrcIsDivision | crc6.c:42-53 | The checksum of any byte string is one long division by x^6 + x^5 + x^3 + x^2 + x + 1. |
| Crc6.Crc6_0x6F | crc6.c:42-53 | The loop computes this checksum, for every seed and length. |
| Crc6.CrcDifference | crc6.c:42-53 | Two strings' checksums differ by the remainder of their difference. |
| Crc6.CrcParity | crc6.c:42-53 | The checksum's parity is that of seed and data together. |
| Crc6.OddErrorsDetected | crc6.c:42-53 | Every odd number of bit errors in data and checksum is detected. |
| Crc6.BurstDetected | crc6.c:42-53 | Every change within six consecutive bits of the data is detected. |
| Crc6.BurstNoticed | crc6.c:42-53 | Two strings that differ, and only within six consecutive bits counted from the highest bit of the first byte, have different checksums. |
| Crc6.HitDivided | crc6.c:42-53 | Errors change the remainder by their own remainder. |
| Kiss.WriteFrame | kiss.c:69-93 | Writes the encoding of a frame, at most twice its length plus three bytes. |
| Kiss.EscapedBytes | kiss.c:69-93 | The bytes on the wire: 0xC0 0x02, the data with 0xC0 as 0xDB 0xDC and 0xDB as 0xDB 0xDD, and 0xC0. |
| Kiss.RunSplit | kiss.c:24-67 | How a byte stream is cut makes no difference to the frames that come out. |
| Kiss.FrameDecoded | kiss.c:24-93 | Between frames, an encoded frame comes out as it was, up to 756 bytes. |
| Kiss.DataDecoded | kiss.c:24-67 | So does a frame with any port number in the high half of its command byte. |
| Kiss.OtherIgnored | kiss.c:24-67 | Between frames, a frame of any other command is not delivered, and leaves the framer between frames. |
| Kiss.LongFrameCut | kiss.c:24-67 | Of a frame of 756 bytes or more, exactly the first 756 come out. |
| Kiss.StaleEscape | kiss.c:24-67 | An escape left over from an earlier frame changes the next frame if and only if that begins with 0xDC or 0xDD, and is then forgotten. |
| Kiss.WireDecoded | kiss.c:24-93 | Of any sequence of frames of data and of other commands, those of data come out, in order, and no others. |
| Kiss.DeliveredWhole | kiss.c:24-93 | Frames of 1 to 756 bytes come out unchanged. |
| Kiss.JoinedLate | kiss.c:24-67 | Joining in the middle of a frame loses that frame and no other frame of data. |
| Kiss.Framer.constructor | kiss.c:16-22 | A new framer is outside any frame. |
| Kiss.Framer.Read | kiss.c:24-67 | One byte, in place, is one step of the state machine, of which DataDecoded, OtherIgnored, LongFrameCut and StaleEscape say what whole frames come to. |
| Kiss.Receiver.RecvKiss | tcp_interface.c:133-196 | A positive result is the next frame of the stream, whatever pieces it arrives in; zero loses nothing; a negative result closes the connection with no frame left to come. |
| Kiss.Receiver.ReceiveAll | daemon.c:510-519 | For every cut of the stream into reads, and whatever frames of other commands are among them, the calls return exactly the frames of data in order, unchanged if they have 1 to 756 bytes. |
| Ring.RingBuffer.constructor | ring_buffer_posix.c:511-531 | A new buffer is empty. |
| Ring.RingBuffer.Size | ring_buffer_posix.c:78-99 | The number of bytes held; it equals the capacity exactly if the full flag is set, and zero exactly if head and tail meet without it. |
| Ring.RingBuffer.FreeSize | ring_buffer_posix.c:101-121 | Size and free size add up to the capacity. |
| Ring.RingBuffer.Advance | ring_buffer_posix.c:30-45 | Moves the head by n around the end; a full buffer drags the tail along. |
| Ring.RingBuffer.Retreat | ring_buffer_posix.c:62-68 | Moves the tail by n around the end. |
| Ring.RingBuffer.Write | ring_buffer_posix.c:470-506 | All bytes are appended, or none while there is too little room; first in, first out. |
| Ring.RingBuffer.Read | ring_buffer_posix.c:432-468 | The oldest bytes in order, or none while there are fewer. |
| Ring.RingBuffer.ReadAll | ring_buffer_posix.c:393-430 | Everything held, in order, or nothing while it is empty. |
| Ring.RingBuffer.Put | ring_buffer_posix.c:307-335 | Appends one byte unless full. |
| Ring.RingBuffer.Get | ring_buffer_posix.c:337-365 | Removes the oldest byte unless empty. |
| Ring.WindowExtends | ring_buffer_posix.c:470-506 | Bytes laid behind the contents, around the end, extend the contents. |
| Ring.WindowSplit | ring_buffer_posix.c:432-468 | Moving the tail by k drops exactly the oldest k bytes. |

## Left out

What the model takes as given or leaves to parameters:

- The four random tables behind `rnd_get` (`raptorq/rand.c`): an arbitrary function, of which only "below the
  modulus" is known. Nothing proved depends on their contents.
- The table of section 5.6 of RFC 6330 (`raptorq/table2.h`): any table whose entries satisfy `ValidParams`, and whose
  entry for K symbols has K' at least K. `Tuples.SmallestParams` checks the entry for K' = 10; the others are not
  checked against the literals. That no block of K' symbols is singular is a property of these tables, so
  the model keeps that failure.
- The decode failure probability: nothing in the code decides it.
- The condition on replays: the late operation is taken as it is in the code. The round trips hold when elimination
  recorded an operation, and otherwise exactly when that operation is spared; that elimination always records one is
  not claimed.
- The abort of the working matrix is an outcome of its own. What it takes is stated (`Inversion.Invert`, `BlockDecoder.Starved`),
  not that it then happens: whether a row is promoted depends on which entries vanish during elimination.
- EndToEnd.SendAndReceive: no claim about frames damaged on the way that still pass the checksum; `Frames.HitPassesIff`
  says exactly which damage that is.

Machine details:

- Encoding.BlockEncoder.Replay: a schedule of 2^31 operations or more counts as running out of its list, because the signed
  loop counters of `raptorq/precode.c:23-32` would wrap there.
- IntermediateSymbols.ApplySched: does not say what memory is read when the replay leaves its list.
- WorkMatrix.WrkMat.Axpy: the packed bits of a row that has been turned into bytes go stale in the source and are updated
  there too; the model keeps them but says nothing about them.
- Bitmasks.Bitmask.Gaps: requires the mask to reach the last partial word, which the source reads without a check; every
  caller's mask does.
- Bit-packed rows are modelled with 32-bit words. Alignment padding of rows, memory allocation, growth of `kvec.h`
  vectors and the SIMD back ends (`oblas_avx.c`, `oblas_avx512.c`, `oblas_sse.c`, `oblas_neon.c`) are not modelled; the portable loops are
  the reference.
- `oblas/gf4.c`, `oblas/gf16.c`, `gf2mat_nnz`, `gf2mat_and`, `gf2mat_swapcol`, `ogemm` and `onnz` are not used by the codec.
- Sequence numbers of frames stay below 2^31 - 1: the signed counter `next_sbn` would overflow there.

Sessions and transport:

- One set of parameters, that of block 0, serves all blocks, as in the code; `FileDecoding.FirstLargest` shows that it fits.
- The limit on symbol numbers is set before the first symbol, as the daemon does; the order "first symbol, then limit" is
  not modelled.
- The receiver creates its 256 block decoders at once rather than on first use.
- The input and output files are byte arrays of length F. Opening, naming, mapping, truncating and removing files,
  watching the directory and reloading a changed file are left out.
- Sending.SendFrames: models the frames of one file up to its frame limit; handing frames to the modem never fails.
- Receiving.RxSession.Start: a transfer that announces 65536 sub-blocks ends the program when its session is opened; in the
  source the session opens with an empty sub-block partition, and the first symbol written divides by its part size.
- Receiving.RxSession.Receive: a symbol longer than its frame, which the source reads past the frame's end, a symbol size of
  65536 and 65536 sub-blocks are modelled as ending the program.
- A transfer announcing more blocks than it has symbols is never reported complete: a block without symbols never
  counts as decoded. The sender in this repository does not announce one (`TransferInfo.NewEncoder`).
- Threads, locks and condition variables: each attempt of a ring buffer call is one atomic step, and an attempt that would wait is
  one that changes nothing. Writes of zero bytes and reads of zero bytes are not modelled.
- Kiss.Receiver.RecvKiss: called with one frame buffer throughout, as the daemon does; a connection is the list of
  byte strings its reads return. Reconnecting and time-outs are left out.
- `transmitter.c`, `receiver.c`, `broadcast.c`, `net.c` and `shm_posix.c` are plumbing around the same library calls.
