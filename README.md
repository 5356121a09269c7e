# sparsenc core in Dafny

A model of the core of sparsenc, a C library for sparse (subgeneration
based) random linear network coding over GF(2^8), with proofs of what its
functions promise.

The model follows the library layer by layer:

- **Field arithmetic** (`galois.dfy`, `galois_arith.dfy`, `galois_primitive.dfy`, `galois_legacy.dfy`).
  - `GaloisArith` defines the reference field: multiplication by x modulo the primitive polynomial 0435, powers and discrete logarithms.
  - `GaloisPrimitive` proves that x has order 255.
  - `Galois.Field` is a class over the static log, antilog, product and quotient tables of `src/galois.c`. The tables are `seq<bv8>` fields. Its builders are loops that build each table as a sequence and assign it back, proved to fill the tables with the reference field.
  - `GaloisLegacy.LegacyField` does the same for the older `galois.c` at the repository root.
- **Utilities.**
  - `Common` models the `ALIGN` and `RESIDUAL` macros, `has_item`, and the singly linked ID lists (a class over the sequence of nodes). The `common.c` at the repository root is the same code as `src/common.c` apart from layout and a commented-out `swap_memory`, so the `Common` rows citing `src/common.c` cover both files.
  - `Flags` models the bit-flag macros.
  - `Arith` and `Bytes` hold arithmetic helper lemmas.
- **Linear algebra.**
  - `Linear` defines row operations and solution sets of `A * X == B`.
  - `Gaussian` models `forward_substitute`, `back_substitute` and `matrix_to_REF` on `array2` matrices, each proved to apply only proper row operations to both sides.
- **Encoders.**
  - `Packets` covers loading, recovering and linear combinations of byte packets.
  - `Grouping` covers the random, band and window-wrap groupings.
  - `Bipartite` builds the LDPC precode graph.
  - `Primes` covers `is_prime` and `number_of_checks`.
  - `SncEncoder`, `GncEncoder` and `GncLegacyEncoder` are the encoding contexts as classes: sizing, validation, loading, precoding, encoding, scheduling and recovery.
- **Recoders.** `Recoder.RecodeBuffer` is the per-generation FIFO buffer and the schedulers of `src/sncRecoder.c`, `src/gncRecoder.c` and `src/slncRecoder.c`. The three files run one algorithm. A row citing `src/sncRecoder.c` stands for the matching lines of the other two unless its text says otherwise.
- **Pivoting.**
  - `Pivoting` covers the subscript lists and inactivation pivoting.
  - `PivotReshape` covers `reshape_matrix` and `permute_matrix_columns`.
  - `PivotRounds` and `PivotTwoRound` cover the one-round and two-round drivers of `src/pivoting.c`.
- **Decoders.**
  - `Decoding` holds the algebra the decoders share. An equation of the packets X is a full-length coefficient vector v with payload msg such that v * X == msg.
  - `CompactRows` covers the compact upper-triangular rows of the band decoders.
  - `DecoderCbd` and `GncDecoderCbd` model the compact band decoders as classes.
  - `DecoderPp` models the perpetual decoder.
  - `DecoderBd` models the band decoder of `src/decoderBD.c`: banded reduction before the precode, partial diagonalisation, parity rows and pivoting at the precode, pivoted reduction after it, and back substitution.
  - `RunningMatrices` models the per-subgeneration running matrices of the GG decoder: row extraction with known packets masked out, forward and back substitution, and the erasure of a column once its packet is decoded.
  - `DecoderGg` models the GG decoder of `src/decoderGG.c`: subgeneration decoding, the peeling of the precode through the check lists and evolving buffers, and the iterative loop that alternates the two.
  - `DecoderOa` models the overlap-aware (OA) decoder of `src/decoderOA.c`. Before OA-readiness it reduces each packet within its generation's local matrix and counts local DoF. At readiness it brings the local matrices to reduced row-echelon form and builds, pivots and possibly diagonalises the global decoding matrix (GDM). Once ready it reduces each packet against the GDM.
  - `GlobalMatrix` holds the GDM operations both OA decoders share: the check rows, the pivoting, reduction and storage of a packet against the GDM, and the recovery of `diagonalize_GDM` and `finish_recovering_inactivation`.
  - `GncDecoderOa` models the older OA decoder of `gncOADecoder.c`. It allocates the GDM with the check rows at creation, keeps the local matrices once ready, and sends to the GDM only a packet that adds a local row.
  - Each decoder is proved to keep every stored row an equation of the packets the encoder sent. A decoder that finishes therefore holds exactly those packets.

The values `rand()` would return are parameters of the methods that use
them (`draw`, `draws`). Byte values are `bv8`. C `int` arithmetic is
unbounded here except where the source relies on its truncating `/` and
`%`, which `Common.CDiv` and `Common.CMod` model.

## Model

| member | source | states |
|---|---|---|
| Common.CDivMod | src/common.h:24 | the modelled C quotient and remainder satisfy a == b * (a / b) + a % b, and the remainder of a non-negative dividend is non-negative and below the divisor's magnitude |
| Common.AlignIsCeiling | src/common.h:24 | ALIGN(a, b) is the ceiling of a / b: the least k with k * b >= a |
| Common.ResidualBounds | src/common.h:25 | RESIDUAL(a, b), the padding up to the next multiple of b, lies in [0, b) |
| Common.ResidualZero | src/common.h:25 | RESIDUAL(a, b) is zero exactly when b divides a |
| Common.HasItem | src/common.c:8-18 | has_item returns the first index below length holding item, and -1 exactly when no such index exists |
| Common.RemovedLength | src/common.c:33-59 | removing an absent ID leaves the list as it was; removing a present one shortens it by one node |
| Common.RemovedIsWithout | src/common.c:30-33 | with unique IDs, as the function's comment requires, remove_from_list deletes exactly the nodes carrying the ID and keeps the order of the rest |
| Common.RemovedAbsent | src/common.c:30-33 | with unique IDs the removed ID is gone from the list afterwards |
| Common.AppendThenRemove | src/common.c:20-59 | appending a node with a fresh ID and then removing that ID gives the list back |
| Common.NodeList.Append | src/common.c:20-28 | append_to_list makes nd the last node, and also the first on an empty list; the head is otherwise kept |
| Common.NodeList.Remove | src/common.c:33-59 | remove_from_list unlinks the first node carrying the ID and returns 0, or returns -1 and changes nothing when no node carries it |
| Common.NodeList.Exist | src/common.c:61-70 | exist_in_list returns 1 exactly when some node carries the ID, else 0 |
| Common.NodeList.Clear | src/common.c:73-84 | clear_list leaves an empty list with first and last NULL |
| Flags.BitMask | src/decoderGG.h:10 | _BIT_MASK(n) has bit n on and every other bit off |
| Flags.FlagOnIsBit | src/decoderGG.h:12 | _FLAG_ON(x, n) tests exactly bit n of x |
| Flags.OnOffComplement | src/decoderGG.h:12-13 | _FLAG_ON and _FLAG_OFF are negations of each other below the word width |
| Flags.SetThenOn | src/decoderGG.h:11-12 | after _FLAG_SET(x, n), flag n is on |
| Flags.SetKeepsOthers | include/slncGGDecoder.h:11-12 | _FLAG_SET(x, n) leaves every other flag as it was |
| Flags.SetIdempotent | src/decoderGG.h:11 | setting a flag twice is setting it once, and setting a flag that is on changes nothing |
| GaloisPrimitive.OrderOfX | src/galois.c:22 | the generator x has multiplicative order 255 modulo the primitive polynomial 0435 (x^8+x^4+x^3+x^2+1) |
| GaloisPrimitive.PowersAreDistinct | src/galois.c:103-114 | the powers x^0 .. x^254 that the log-table builder walks are pairwise distinct, so its duplicate check never fires for GF(2^8) |
| GaloisArith.PowersCover | src/galois.c:103-114 | every nonzero byte is one of the 255 powers the log-table builder visits |
| GaloisArith.PowPeriod | src/galois.c:150-151 | x^255 == 1, which makes exponents wrap modulo 255 as the table builder wraps them |
| GaloisArith.DLogOf | src/galois.c:109-110 | every nonzero byte is x raised to its discrete logarithm, and the logarithm is below 255 |
| GaloisArith.DLogPow | src/galois.c:109-110 | the logarithm of x^k is k modulo 255 |
| GaloisArith.MulLogs | src/galois.c:145-152 | the product of nonzero bytes is x^((log a + log b) mod 255), the log-table rule of the multiplication table |
| GaloisArith.MulNonZero | src/galois.c:177-181 | a product is zero exactly when a factor is zero |
| GaloisArith.MulOne | src/galois.c:182-185 | 1 is the multiplicative identity on both sides, so the one short-cuts agree with the table |
| GaloisArith.MulCommutes | src/galois.c:177-189 | multiplication is commutative |
| GaloisArith.MulAssociates | src/galois.c:177-189 | multiplication is associative |
| GaloisArith.MulDistributes | src/galois.c:167-189 | multiplication distributes over XOR addition |
| GaloisArith.MulCancel | src/galois.c:177-189 | multiplication by a nonzero byte is injective |
| GaloisArith.MulInverse | src/galois.c:154-157 | every nonzero byte b has the inverse x^(255 - log b) |
| GaloisArith.DivUndoesMul | src/galois.c:192-207 | (a / b) * b == a for every nonzero divisor b |
| GaloisArith.DivUnique | src/galois.c:192-207 | the quotient a / b is the only r with r * b == a |
| GaloisArith.DivIsMulInverse | src/galois.c:192-207 | dividing by b is multiplying by 1 / b, and (1 / b) * b == 1 |
| GaloisArith.QuotientPow | src/galois.c:154-157 | x^((i - j) mod 255) * x^j == x^i, the rule the division table is built from |
| Galois.ParamsFor | src/galois.c:76-95 | the log builder accepts exactly the orders 1, 2, 4 and 8, and each accepted order has nwml == nw - 1 |
| Galois.NextPowerIsXTime | src/galois.c:111-113 | for order 8 one step of the walk (shift, reduce by 0435 when bit 8 is set) is multiplication by x |
| Galois.ClearLogTables | src/galois.c:98-101 | the first loop sets log[j] to nwml and ilog[j] to 0 below nw and leaves the rest of the tables alone |
| Galois.WalkPowers | src/galois.c:103-114 | the walk numbers 1, x, x^2, .. in both tables; for order 8 it never stops early and leaves ilog[k] == x^k and log[x^k] == k |
| Galois.CreateLogTable | src/galois.c:68-117 | an unsupported order leaves the tables untouched and succeeds; order 8 always succeeds with valid log tables |
| Galois.WrapSumMod | src/galois.c:149-151 | the builder's wrapped sum of two logarithms is their sum modulo 255 |
| Galois.ComputeEntries | src/galois.c:148-157 | the inner-loop body computes the product entry from the wrapped sum of logarithms and the quotient entry from the difference lifted by the while loop |
| Galois.FillRow | src/galois.c:141-160 | filling row x keeps the rows built so far and completes row x |
| Galois.CreateMultTable | src/galois.c:119-164 | the product tables are complete whenever the log builder succeeded, and order 8 always succeeds |
| Galois.LogIsDLog | src/galois.c:109-110 | a complete order-8 log table holds the discrete logarithm of every nonzero byte, and ilog inverts it |
| Galois.MultEntryIsMul | src/galois.c:145-152 | a multiplication-table entry of nonzero bytes is their field product |
| Galois.DiviEntryIsQuotient | src/galois.c:154-157 | a division-table entry of nonzero bytes, times the divisor, is the dividend |
| Galois.TableProduct | src/galois.c:130-161 | complete order-8 tables hold the field product at (a << 8) or b for every pair, zero rows and columns included |
| Galois.TableQuotient | src/galois.c:130-161 | complete order-8 tables hold, for nonzero a and b, a quotient that times b gives a |
| Galois.Sub | src/galois.c:172-175 | galois_sub is the inverse of galois_add: r + b == a |
| Galois.Field.GFConstructed | src/galois.c:26-28 | GFConstructed answers 1 exactly when the tables have been built |
| Galois.Field.ConstructField | src/galois.c:30-66 | the tables are built on the first call only; for GF_POWER 8 they then describe GF(2^8) and later calls change nothing |
| Galois.Field.Multiply | src/galois.c:177-189 | galois_multiply returns the field product once the field is constructed, short-cuts included |
| Galois.Field.Divide | src/galois.c:192-207 | galois_divide returns 255, the C -1, for a zero divisor, and otherwise a quotient that times the divisor gives the dividend |
| Galois.Field.DivideIsDiv | src/galois.c:192-207 | galois_divide equals the reference field quotient for every pair of bytes |
| Galois.Field.ShortCuts | src/galois.c:179-185 | the zero and one short-cuts of galois_multiply agree with the field product |
| Galois.Field.LogRoundTrip | src/galois.c:109-110 | ilog[log[a]] == a for every nonzero byte once the field is constructed |
| Galois.Field.MultiplyUndoesDivide | src/galois.c:177-207 | multiplying a quotient by its divisor gives back the dividend |
| Galois.Field.MultiplyCommutes | src/galois.c:177-189 | the product table is symmetric, and so is galois_multiply |
| Galois.Field.DivideUndoesMultiply | src/galois.c:177-207 | dividing a product by its nonzero factor gives back the other factor |
| Galois.Field.MultiplyAddRegion | src/galois.c:212-284 | galois_multiply_add_region adds multiplier times src to the region byte by byte, leaving the rest of the buffer alone |
| Galois.Field.MultiplyRegion | src/galois.c:288-336 | galois_multiply_region scales the region in place by multiplier, zeroing it for 0 and keeping it for 1 |
| GaloisLegacy.LegacyField.GFConstructed | galois.c:17-19 | GFConstructed reports the file-level flag |
| GaloisLegacy.LegacyField.ConstructField | galois.c:21-34 | the tables are built on the first call only, guarded by the function-local static; the file-level flag is never written |
| GaloisLegacy.LegacyField.Multiply | galois.c:148-155 | galois_multiply returns 0 when an operand is 0 and otherwise the table entry, which is the field product once built |
| GaloisLegacy.LegacyField.Divide | galois.c:158-170 | galois_divide returns 255 for a zero divisor, 0 for a zero dividend, and otherwise a quotient that times the divisor gives the dividend |
| GaloisLegacy.LegacyField.DivideIsDiv | galois.c:158-170 | the older galois_divide equals the reference field quotient for every pair of bytes |
| GaloisLegacy.LegacyField.ZeroRowsAndColumns | galois.c:87-132 | row 0 and column 0 of the product table are 0 and dividing by 0 in the table gives 255 |
| GaloisLegacy.LegacyField.MultiplyAddRegion | galois.c:172-188 | the older galois_multiply_add_region adds multiplier times src to the region: a no-op for 0, XOR for 1, table products otherwise |
| GaloisLegacy.ShadowedFlag | galois.c:17-34 | after a successful first constructField, GFConstructed still answers 0 |
| GaloisLegacy.ReportedFlag | src/galois.c:26-66 | against the newer file, the same sequence makes GFConstructed answer 1 |
| Linear.OpKeepsSolution | gaussian.c:56-59 | a solution of A * X == B stays a solution after the same row operation on A and B |
| Linear.UndoOp | gaussian.c:36-59 | every swap, row addition and nonzero scaling the elimination uses can be undone |
| Linear.OpSameSolutions | gaussian.c:36-59 | one row operation applied to both sides keeps the set of solutions |
| Linear.OpsSameSolutions | gaussian.c:16-77 | any sequence of proper row operations applied to both sides keeps the set of solutions |
| Linear.IdentitySolution | gaussian.c:106-115 | with A the identity, B is the one and only solution of A * X == B |
| Linear.EliminationSolves | gaussian.c:82-118 | elimination that ends with the identity on the left leaves on the right the one and only solution of the original system |
| Linear.DotAddScaled | gaussian.c:56-59 | adding q times row b to row a adds q times b . x to a . x |
| Linear.DotScaled | gaussian.c:109-112 | scaling a row by c scales its inner product with x by c |
| Gaussian.SwapRows | gaussian.c:37-42 | the swap loop exchanges the first cols entries of rows i and j, which is the Swap operation on the block |
| Gaussian.AddRowTo | gaussian.c:56 | galois_multiply_add_region on two rows adds q times row src to row dst and changes nothing else |
| Gaussian.DivideRow | gaussian.c:109-112 | dividing every entry of row l by d scales the row by 1 / d |
| Gaussian.Clears | gaussian.c:53-56 | subtracting (a / pivot) times the pivot entry from a clears it |
| Gaussian.ReduceRow | gaussian.c:64-75 | one elimination step clears A[j][i] by an AddRow on both sides, keeping the zeros already below the diagonal |
| Gaussian.EliminateBelow | gaussian.c:64-75 | the elimination loop clears column i below the diagonal and keeps row i |
| Gaussian.SwapBoth | gaussian.c:36-49 | the row exchange brings a nonzero pivot to the diagonal on both sides, keeping the zeros below the diagonal |
| Gaussian.FindPivot | gaussian.c:24-29 | the search returns the first row below i with a nonzero entry in column i, or nrow when there is none |
| Gaussian.ProcessColumn | gaussian.c:17-76 | one column pass leaves column i zero below the diagonal, a column with no nonzero entry being skipped |
| Gaussian.ForwardSubstitute | gaussian.c:5-79 | forward_substitute makes the first min(nrow, ncolA) columns upper triangular by row operations applied to A and B alike, keeping the solution set of A * X == B |
| Gaussian.ClearEntry | gaussian.c:91-102 | one step of the clearing pass clears A[j][i] and adds the same multiple of B[i] to B[j], which is a row addition on both sides |
| Gaussian.ClearColumn | gaussian.c:91-103 | the inner loop clears column i above its diagonal and changes no other entry of A |
| Gaussian.ClearAbove | gaussian.c:87-104 | the first pass turns an upper triangular block with nonzero diagonal into a diagonal one, keeping the diagonal |
| Gaussian.NormalizeRow | gaussian.c:108-114 | dividing B[l] by the diagonal and setting A[l][l] to 1 scales row l by the inverse of the diagonal |
| Gaussian.Normalize | gaussian.c:106-115 | the second pass sets every nonzero diagonal entry to 1 by row scaling and keeps zero diagonals |
| Gaussian.BackSubstitute | gaussian.c:82-118 | on a full-rank upper triangular block, back_substitute leaves A the identity and B the one and only solution of the original system |
| Gaussian.AddToZeroDiagonalColumns | gaussian.c:147-152 | the innermost loop adds q times row k to row l only in the later columns whose diagonal entry is zero |
| Gaussian.ReduceAbove | gaussian.c:139-154 | one step of matrix_to_REF clears A[l][k], and its writes to A and B amount to adding a multiple of row k to row l |
| Gaussian.ReduceColumnAbove | gaussian.c:139-155 | the loop over l clears column k above its nonzero diagonal and keeps the diagonal |
| Gaussian.MatrixToREF | gaussian.c:124-160 | matrix_to_REF clears every column with a nonzero diagonal above the diagonal, keeps the diagonal and keeps the solution set |
| Bipartite.Wrap | src/bipartite.c:43 | the conditional reduction lands in [1, S] |
| Bipartite.CheckNeighbours | src/bipartite.c:41-47 | every left node joins exactly three right nodes |
| Bipartite.WrapLessOne | src/bipartite.c:43-44 | a - 1 computed by the wrap is (x - 1) mod S, so every index passed to include_left_node is in range |
| Bipartite.NeighboursClosedForm | src/bipartite.c:38-63 | column j of circulant block i has its ones in rows j, (i + 1 + j) mod S and (2i + 2 + j) mod S |
| Bipartite.NeighboursOfBlock | src/bipartite.c:38-63 | the same closed form, from any l with l / S == i and l mod S == j |
| Bipartite.CirculantShift | src/bipartite.c:55-63 | each column of a circulant block is the block's first column shifted down cyclically by its offset |
| Bipartite.NeighboursInRange | src/bipartite.c:41-63 | every right node a left node is joined to is below S |
| Bipartite.NeighboursAt | src/bipartite.c:57-63 | the three indices computed in the column loop are the closed-form neighbours of i * S + j |
| Bipartite.EdgesBothWays | src/bipartite.c:70-84 | l is on the list of r exactly when r is on the list of l |
| Bipartite.LeftsBelow | src/bipartite.c:70-84 | after n left nodes are joined, the right lists name only nodes below n |
| Bipartite.TotalRecords | src/bipartite.c:70-84 | the right side holds as many edge records as the left side |
| Bipartite.PrecodeRecords | src/bipartite.c:34-65 | the right side of the precode graph holds three records per left node |
| Bipartite.AddEdgesAt | src/bipartite.c:70-84 | appending the edges of l adds l to the list of r once per edge to r |
| Bipartite.JoinedNext | src/bipartite.c:57-63 | joining node l extends the lists of the first l left nodes to l + 1 |
| Bipartite.JoinedBelow | src/bipartite.c:70-76 | every right list names only joined left nodes |
| Bipartite.Graph.IncludeLeftNode | src/bipartite.c:70-84 | the edge (l, r) is appended to the list of r and to the list of l, and nothing else changes |
| Bipartite.Graph.IncludeThree | src/bipartite.c:41-47 | the three calls for one column append l to the lists of its three right nodes, in order |
| Bipartite.Graph.JoinLeftNode | src/bipartite.c:56-63 | one column pass keeps the graph valid and joins one more left node |
| Bipartite.Graph.JoinBlock | src/bipartite.c:35-64 | one block pass joins S left nodes or stops at node nleft, raising touching_edge |
| Bipartite.Graph.Create | src/bipartite.c:11-67 | with S == 0 the graph is unchanged; otherwise every left node below nleft is joined to its three closed-form neighbours and both sides agree |
| Primes.NoSmallDivisorPrime | src/gncEncoder.c:429-437 | trial division up to the square root is enough to show primality |
| Primes.IsPrime | src/gncEncoder.c:429-437 | is_prime returns 1 exactly for the primes and for every number below 2 |
| Primes.FactDivisible | src/gncEncoder.c:447 | every k in [1, m] divides m!, used to show the prime search ends |
| Primes.DividesTransitive | src/gncEncoder.c:429-437 | a divisor of a divisor divides |
| Primes.LeastDivisorPrime | src/gncEncoder.c:429-437 | the least divisor above 1 of n is a prime |
| Primes.PrimeAtLeast | src/gncEncoder.c:447-448 | there is a prime at or above every bound, so the search loop ends |
| Primes.FactAtLeast | src/gncEncoder.c:447 | m! is at least m |
| Primes.FloorSqrt | src/gncEncoder.c:442 | the start of the search is floor(sqrt(m)): r * r <= m < (r + 1)^2 |
| Primes.TriGrows | src/gncEncoder.c:443-444 | x * (x - 1) reaches m for x above m, so the first loop ends |
| Primes.XFromIsFirst | src/gncEncoder.c:443-444 | the first loop stops at the first x from its start with x * (x - 1) >= m |
| Primes.XOfIsSmallest | src/gncEncoder.c:442-444 | the loop's x is the smallest positive X with X * (X - 1) >= 2 * snum, as section 5.4.2.3 of RFC 5053 asks |
| Primes.TriBelowSquare | src/gncEncoder.c:442 | below s, x * (x - 1) stays under s * s, so starting at the floor of the square root skips no candidate |
| Primes.SmallestX | src/gncEncoder.c:442-444 | the first loop of number_of_checks computes XOf(snum) |
| Primes.SearchPrimeAsWritten | src/gncEncoder.c:447-448 | the post-increment loop returns one past the first value is_prime accepts |
| Primes.NumberOfChecks | src/gncEncoder.c:440-451 | number_of_checks, as written, returns one past the first accepted value from ceil(0.01 snum) + X |
| Primes.ChecksAsWrittenOffByOne | src/gncEncoder.c:447-450 | for one source packet the function returns 4, which is not prime |
| Primes.SearchPrime | src/gncEncoder.c:447-448 | the search without the extra increment returns the first prime from its start |
| Primes.NumberOfChecksFixed | src/gncEncoder.c:440-451 | the corrected function returns the smallest prime at or above ceil(0.01 snum) + X |
| Packets.ConcatLength | src/sncEncoder.c:87-92 | snum packets of size_p bytes lay out snum * size_p bytes |
| Packets.ConcatPrefix | src/sncEncoder.c:262-266 | the first n packets lay out a prefix of the bytes |
| Packets.LoadStep | src/sncEncoder.c:88-91 | reading toread more bytes into the next zeroed packet extends the loaded prefix |
| Packets.LoadNext | src/sncEncoder.c:88-91 | after one more packet, toread is size_p while data lasts, then what is left, then zero, and the packets still spell data followed by zeros |
| Packets.Load | src/sncEncoder.c:83-92 | the load loop fills snum packets of size_p bytes that, laid end to end, are the data padded with zeros |
| Packets.RecoverStep | src/sncEncoder.c:262-266 | writing towrite bytes of packet pc extends the written prefix by the start of that packet |
| Packets.Recover | src/sncEncoder.c:248-269 | snc_recover_data returns the first datasize bytes of the packets laid end to end |
| Packets.RecoverLoaded | src/sncEncoder.c:83-92 | recovering what was loaded gives back exactly the loaded data |
| Packets.AccumulateLast | src/sncEncoder.c:538-546 | the last galois_multiply_add_region call adds its term to every byte |
| Packets.AccumulateAt | src/sncEncoder.c:538-546 | the encoding loop adds to each byte of the payload the combination of the packets' bytes by the coefficients |
| Packets.DotUnit | src/sncEncoder.c:520-530 | with a unit coefficient vector only the packet at that position counts |
| Packets.UnitCombination | src/sncEncoder.c:520-530 | the uncoded packet a systematic encoder sends is the coded packet for the unit coefficient vector |
| Packets.ParityEquation | src/sncEncoder.c:310-325 | a check packet built by adding its neighbours satisfies the parity equation: adding them once more gives zero |
| Grouping.FreeUpIsFree | src/sncEncoder.c:349-350 | the upward bump stops on the first value at or above its start that the generation does not hold yet |
| Grouping.Drop | src/sncEncoder.c:364-367 | dropping a value that occurs shortens the sequence and keeps every other value |
| Grouping.Pigeonhole | src/sncEncoder.c:364-367 | fewer than num_p entries leave some packet index free |
| Grouping.StepsReach | src/sncEncoder.c:364-367 | the cyclic scan from a reaches b within n steps |
| Grouping.StepsNext | src/sncEncoder.c:365-366 | one step of the scan brings b one step closer |
| Grouping.FreeWrapReaches | src/sncEncoder.c:364-367 | the wrapping bump ends on a free index below num_p when one is reachable |
| Grouping.FreeWrapIsFree | src/sncEncoder.c:364-367 | with fewer than num_p entries taken, the wrapping bump finds a free index within num_p steps |
| Grouping.BumpUp | src/sncEncoder.c:349-350 | the non-wrapping bump loop returns the first index at or above its start not yet in the generation |
| Grouping.BumpWrap | src/sncEncoder.c:364-367 | the wrapping bump loop returns the first free index met cyclically from its start |
| Grouping.ModDistinct | src/sncEncoder.c:435 | fewer than n consecutive residues modulo n do not repeat |
| Grouping.RotationNext | src/sncEncoder.c:371 | rotate advances by 7 modulo size_g per generation |
| Grouping.RotationClosedForm | src/sncEncoder.c:342-371 | the rotate of generation i is 7i modulo size_g |
| Grouping.SncStartNonNegative | src/sncEncoder.c:357-362 | magicX keeps the borrowed generation's index from being negative |
| Grouping.SncCandidateInRange | src/sncEncoder.c:363 | the first candidate for a fill entry is a packet index |
| Grouping.BaseNotTaken | src/sncEncoder.c:347-350 | a base index is never among the base indices before it, so the first bump never moves |
| Grouping.SncRandGenerationValid | src/sncEncoder.c:345-370 | a random generation repeats no index, stays below num_p, and starts with the base indices i * size_b + j mod num_p |
| Grouping.FillRandBase | src/sncEncoder.c:346-352 | the first inner loop writes the base entries of the generation |
| Grouping.FillRandRest | src/sncEncoder.c:355-369 | the second inner loop writes the borrowed entries of the generation |
| Grouping.FillRand | src/sncEncoder.c:344-370 | one pass of the outer loop builds the generation the specification function describes |
| Grouping.SncRandGroupsAt | src/sncEncoder.c:343-372 | generation k of the grouping has id k and the entries for rotate 7k mod size_g |
| Grouping.GroupRand | src/sncEncoder.c:333-381 | group_packets_rand gives generation i the id i and size_g distinct packet indices below num_p |
| Grouping.GncRandGenerationDistinct | src/gncEncoder.c:315-337 | the has_item bumps keep the indices of a generation distinct |
| Grouping.GncRandNegativeIndex | src/gncEncoder.c:327-332 | with num_p = num_g = 5, size_b = 1 and size_g = 2, entry 1 of generation 0 is packet -2 |
| Grouping.FillRandGncBase | src/gncEncoder.c:317-323 | the first inner loop writes the base entries |
| Grouping.FillRandGncRest | src/gncEncoder.c:326-336 | the second inner loop writes the borrowed entries, bumping upwards without wrapping |
| Grouping.FillRandGnc | src/gncEncoder.c:315-337 | one pass of the outer loop builds the generation the specification function describes |
| Grouping.GncRandGroupsAt | src/gncEncoder.c:314-339 | generation k has id k and the entries for rotate 7k mod size_g |
| Grouping.GroupRandGnc | src/gncEncoder.c:304-346 | group_packets_rand of the gnc encoder gives generation i the id i and distinct indices |
| Grouping.BandInRange | src/sncEncoder.c:397-408 | with size_g <= num_p every band lies below num_p and repeats nothing |
| Grouping.BandCovers | src/sncEncoder.c:385-415 | with enough generations every packet belongs to some band |
| Grouping.BandCoversTail | src/sncEncoder.c:398-403 | the last size_g packets lie in every generation whose lead was clipped |
| Grouping.BandCoversHead | src/sncEncoder.c:397 | a packet below num_p - size_g lies in generation p / size_b |
| Grouping.GncBandCount | src/gncEncoder.c:50 | the gnc encoder's generation count is enough for every packet to be covered |
| Grouping.FillBand | src/sncEncoder.c:396-408 | one band generation is size_g consecutive indices from its clipped lead |
| Grouping.GroupBand | src/sncEncoder.c:385-415 | group_packets_band gives generation i the id i and its band |
| Grouping.WindWrapInRange | src/sncEncoder.c:433-438 | a window shorter than num_p stays below num_p and does not repeat |
| Grouping.WindWrapCovers | src/sncEncoder.c:421-446 | every packet p lies in window-wrap generation p / size_b |
| Grouping.FillWindWrap | src/sncEncoder.c:433-438 | one window-wrap generation is size_g indices from i * size_b modulo num_p |
| Grouping.GroupWindWrap | src/sncEncoder.c:421-446 | group_packets_windwrap gives generation i the id i and its window |
| SncEncoder.Sizing | src/sncEncoder.c:48-57 | snum is the number of size_p-byte packets the data needs, and a band code gets ALIGN(num_p - size_g, size_b) + 1 subgenerations, the others ALIGN(num_p, size_b) |
| SncEncoder.AcceptedSizes | src/sncEncoder.c:148-162 | an accepted meta has 0 < size_b <= size_g <= snum, at least one subgeneration, and less than one packet of padding |
| SncEncoder.SizingAccepted | src/sncEncoder.c:48-65 | a context is built exactly when verify_code_parameter accepts the sizes |
| SncEncoder.Groups | src/sncEncoder.c:171-200 | create_context_from_meta builds gnum subgenerations |
| SncEncoder.GroupsValid | src/sncEncoder.c:190-198 | every subgeneration of a known type has its index as gid and size_g distinct packet indices below snum + cnum |
| SncEncoder.RandCovers | src/sncEncoder.c:345-352 | under random grouping packet p is in the base of subgeneration p / size_b |
| SncEncoder.RandBaseIndex | src/sncEncoder.c:56 | with gnum == ALIGN(num_p, size_b) the base generation of every packet exists |
| SncEncoder.RandBaseMember | src/sncEncoder.c:346-352 | packet p is member p mod size_b of subgeneration p / size_b |
| SncEncoder.EveryPacketGrouped | src/sncEncoder.c:53-57 | with the computed gnum every packet, source or check, belongs to some subgeneration, for each of the three code types |
| SncEncoder.GroupPackets | src/sncEncoder.c:190-198 | the dispatch on the code type builds the grouping Groups describes |
| SncEncoder.BuildGraph | src/sncEncoder.c:203-212 | the precode graph joins all snum sources, and its check lists name source packets only |
| SncEncoder.MembersCover | src/sncEncoder.c:538-546 | the members of a subgeneration name size_p-byte buffers |
| SncEncoder.PrecodeFirst | src/sncEncoder.c:313-324 | precoding the first n checks leaves the sources and the later checks unchanged |
| SncEncoder.PrecodeFirstAt | src/sncEncoder.c:313-324 | check i gets the sum of its neighbours when i < n and is untouched otherwise |
| SncEncoder.PrecodedParity | src/sncEncoder.c:310-325 | checks precoded from zero satisfy their parity equations |
| SncEncoder.PrecodeFirstStep | src/sncEncoder.c:316-323 | one more pass of the outer loop precodes one more check |
| SncEncoder.PrecodedSums | src/sncEncoder.c:310-325 | precoding zero checks makes each the sum of its source neighbours |
| SncEncoder.PrecodeAll | src/sncEncoder.c:310-325 | perform_precoding's loops compute Precoded |
| SncEncoder.Combine | src/sncEncoder.c:538-546 | the multiply-add loop adds the combination of the members by the coefficients |
| SncEncoder.SetBit | src/sncEncoder.c:522-523 | setting a bit keeps the length of the buffer |
| SncEncoder.ByteBit | src/sncEncoder.c:522-523 | setting bit a of a byte makes it one and keeps the others |
| SncEncoder.SetBitGet | src/sncEncoder.c:522-523 | after set_bit_in_array bit i reads 1 and every other bit is unchanged |
| SncEncoder.SetBitSameByte | src/sncEncoder.c:522-523 | the same within one byte |
| SncEncoder.SetBits | src/sncEncoder.c:540-542 | the binary coding loop keeps the buffer length |
| SncEncoder.SetBitsGet | src/sncEncoder.c:537-545 | after the binary loop bit j is one when it was set or co[j] == 1 |
| SncEncoder.CoesLength | src/sncEncoder.c:459-463 | a binary code's buffer holds at least size_g bits, a non-binary one size_g bytes |
| SncEncoder.Coefficients | src/sncEncoder.c:519-545 | a packet carries size_g coefficients |
| SncEncoder.BinaryCoefficients | src/sncEncoder.c:537-545 | a zero bit buffer with the drawn 0/1 coefficients set reads back as those coefficients |
| SncEncoder.BinaryUnit | src/sncEncoder.c:521-523 | a bit array with one bit set reads as a unit vector |
| SncEncoder.DrawCoefficients | src/sncEncoder.c:539-544 | a binary code draws only 0 and 1 |
| SncEncoder.CopyNext | src/sncEncoder.c:543 | writing coes[i] extends the copied prefix |
| SncEncoder.EncodeCoded | src/sncEncoder.c:535-546 | the coding loop writes the coefficients into the buffer (bits or bytes) and adds their combination to the payload |
| SncEncoder.EncodedCoefficients | src/sncEncoder.c:519-545 | encode_packet writes size_g coefficients |
| SncEncoder.MarkUnit | src/sncEncoder.c:521-525 | from a zeroed buffer the systematic write is the unit vector of member nccount |
| SncEncoder.CodedCoefficients | src/sncEncoder.c:537-545 | the coding loop's buffer reads back as the drawn coefficients |
| SncEncoder.EmptyPacket | src/sncEncoder.c:454-476 | snc_alloc_empty_packet gives zero coefficients and a zero payload of the right sizes |
| SncEncoder.EncodedIsCombination | src/sncEncoder.c:517-549 | in either branch the payload is the combination of the subgeneration's members named by the coefficients the packet carries |
| SncEncoder.ScheduleGeneration | src/sncEncoder.c:551-557 | the scheduled gid is always valid, 0 for one subgeneration and rand() mod gnum otherwise |
| SncEncoder.EncContext.CheckLists | src/sncEncoder.c:316 | the check lists name source packets only |
| SncEncoder.EncContext.Create | src/sncEncoder.c:30-100 | snc_create_enc_context returns null exactly when the sizes are rejected; otherwise the grouping, graph and zeroed counters are built and the data is loaded and precoded |
| SncEncoder.EncContext.LoadData | src/sncEncoder.c:83-97 | the loaded sources spell the zero-padded data and each check is the sum of its source neighbours |
| SncEncoder.EncContext.CreateFromMeta | src/sncEncoder.c:164-215 | create_context_from_meta builds the grouping, zero send counters and the precode graph when cnum != 0 |
| SncEncoder.EncContext.PerformPrecoding | src/sncEncoder.c:310-325 | perform_precoding adds to each check its source neighbours, changing nothing else |
| SncEncoder.EncContext.EncodePacket | src/sncEncoder.c:517-549 | encode_packet sends member nccount uncoded while a systematic code has sent fewer than size_b, otherwise the drawn combination, and increments nccount[gid] only |
| SncEncoder.EncContext.GeneratePacket | src/sncEncoder.c:478-484 | snc_generate_packet returns a packet for a valid gid whose payload is the combination its coefficients name |
| SncEncoder.EncContext.RecoverData | src/sncEncoder.c:248-269 | snc_recover_data returns exactly the loaded data |
| GncEncoder.Sizing | src/gncEncoder.c:39-50 | snum packets of size_p bytes, cnum checks and ALIGN(snum + cnum, size_b) generations |
| GncEncoder.ParameterValidAsWritten | src/gncEncoder.c:153-164 | verify_code_parameter as written: size_b <= size_g and size_b * size_p <= datasize |
| GncEncoder.ParameterValid | src/sncEncoder.c:148-162 | the check as the SNC encoder writes it, bounding size_g * size_p by datasize |
| GncEncoder.ValidSizes | src/gncEncoder.c:153-164 | sizes the check as written accepts give 0 < size_b <= size_g, size_b <= snum and less than one packet of padding; size_g is bounded only by size_b |
| GncEncoder.IntendedSizes | src/sncEncoder.c:148-162 | the SNC form of the check implies the GNC form and also bounds size_g by snum |
| GncEncoder.GroupSizes | src/gncEncoder.c:153-167 | an accepted meta has what the grouping needs |
| GncEncoder.SizingAccepted | src/gncEncoder.c:44-58 | a context is built exactly when the parameters are accepted |
| GncEncoder.BandIndexBelowZero | src/gncEncoder.c:159-162 | the check as written accepts 10 bytes with size_b 1 and size_g 6, and band generation 0 then starts at packet -1, so the grouping leaves the packets |
| GncEncoder.Groups | src/gncEncoder.c:169-200 | create_context_from_meta builds gnum generations |
| GncEncoder.GroupsValid | src/gncEncoder.c:193-196 | every generation of a known type carries its own index and size_g distinct entries, and under random grouping its first size_b entries are the base indices (i * size_b + j) mod num_p; that the entries are packet indices is GroupsInRange, which does not always hold |
| GncEncoder.GroupsInRange | src/gncEncoder.c:409-418 | every entry of every generation is one of the snum + cnum packets encode_packet reads |
| GncEncoder.BandInRangeIff | src/gncEncoder.c:352-370 | a band grouping stays among the packets exactly when size_g <= snum + cnum |
| GncEncoder.RandGrouped | src/gncEncoder.c:314-324 | under random grouping every packet p is a base member of generation p / size_b, so every packet belongs to some generation |
| GncEncoder.BandGrouped | src/gncEncoder.c:362-372 | under band grouping every packet belongs to some band, clipped bands included |
| GncEncoder.IntendedBandInRange | src/sncEncoder.c:148-162 | with the SNC form of the check, a band grouping always stays among the packets |
| GncEncoder.RandIndexBelowZero | src/gncEncoder.c:326-332 | the check as written accepts 10 bytes with size_b 1 and size_g 2, and random generation 0 then holds packet -2, so the grouping leaves the packets |
| GncEncoder.EveryPacketGrouped | src/gncEncoder.c:50 | every packet belongs to some generation |
| GncEncoder.GroupPackets | src/gncEncoder.c:193-196 | the dispatch builds the grouping Groups describes |
| GncEncoder.MembersCover | src/gncEncoder.c:413-418 | the members of a generation name size_p-byte buffers |
| GncEncoder.LoadedChecksZero | src/gncEncoder.c:75-81 | the load loop over all snum + cnum buffers leaves the sources with the zero-padded data and every check zero |
| GncEncoder.DrawCoefficients | src/gncEncoder.c:416 | one coefficient per draw |
| GncEncoder.ScheduleGeneration | src/gncEncoder.c:423-427 | the scheduled gid is rand() mod gnum and valid |
| GncEncoder.GncContext.CheckLists | src/gncEncoder.c:288 | the check lists name source packets only |
| GncEncoder.GncContext.Create | src/gncEncoder.c:30-87 | create_gnc_context fails exactly when verify_code_parameter as written rejects the sizes; cnum is what number_of_checks as written returns (one past the prime it finds); the data is loaded and the checks precoded |
| GncEncoder.GncContext.Populate | src/gncEncoder.c:61-84 | the structure is built, then the packets loaded and precoded |
| GncEncoder.GncContext.CreateFromMeta | src/gncEncoder.c:169-211 | generations grouped by type, and the precode graph when cnum != 0 |
| GncEncoder.GncContext.LoadData | src/gncEncoder.c:73-84 | the sources spell the zero-padded data and each check is the sum of its source neighbours |
| GncEncoder.GncContext.PerformPrecoding | src/gncEncoder.c:279-302 | each check gets its source neighbours added with coefficient 1 |
| GncEncoder.GncContext.EncodePacket | src/gncEncoder.c:409-421 | the payload gets every member weighted by its drawn coefficient and coes holds those coefficients |
| GncEncoder.GncContext.GeneratePacket | src/gncEncoder.c:381-399 | generate_gnc_packet returns a packet of gid rand() mod gnum whose payload is the combination its coefficients name |
| GncLegacyEncoder.Sizing | gncEncoder.c:40-45 | snum packets of size_p bytes, cnum checks and ALIGN(snum + cnum, size_b) generations |
| GncLegacyEncoder.LegacySizes | gncEncoder.c:40-45 | the sized context has at least one packet and one generation |
| Primes.ChecksPositive | gncEncoder.c:268-279 | number_of_checks as written returns at least 1 |
| GncLegacyEncoder.Groups | gncEncoder.c:165-207 | group_packets builds gnum generations |
| GncLegacyEncoder.GroupsDistinct | gncEncoder.c:165-207 | generation i has id i and size_g packet ids, none twice |
| GncLegacyEncoder.NegativeIndex | gncEncoder.c:188-197 | with one source packet (at most size_p bytes of data), the 4 checks number_of_checks gives, size_b 1 and size_g 2, entry 1 of generation 0 is packet -2, which no loaded buffer covers |
| GncLegacyEncoder.LegacyContext.Create | gncEncoder.c:27-95 | create_gnc_context without validation: cnum is what number_of_checks as written returns, the grouping and graph are built, the data is loaded with the checks zero and then precoded |
| GncLegacyEncoder.LegacyContext.LoadData | gncEncoder.c:80-92 | the sources spell the zero-padded data and each check is the sum of its source neighbours |
| GncLegacyEncoder.LegacyContext.EncodePacket | gncEncoder.c:237-249 | the payload gains every member weighted by its drawn coefficient, and coes holds those coefficients |
| GncLegacyEncoder.LegacyContext.GeneratePacket | gncEncoder.c:209-227 | generate_gnc_packet encodes a zeroed packet for generation rand() mod gnum |
| GncLegacyEncoder.LegacyContext.RecoverData | gncEncoder.c:118-138 | recover_data returns exactly the loaded data |
| Recoder.Latest | src/sncRecoder.c:64-83 | the last n packets that arrived, oldest first |
| Recoder.Ages | src/sncRecoder.c:64-83 | reading the n filled slots from the oldest gives n packets |
| Recoder.StoreAge | src/sncRecoder.c:64-83 | after a store each slot, read by age, holds the packet one younger (full buffer) or of the same age, and the newest is in slot pn |
| Recoder.StoreAt | src/sncRecoder.c:64-83 | the packet of age a after a store is the packet of age a among the last n' arrivals |
| Recoder.FifoStore | src/sncRecoder.c:64-83 | a store keeps the FIFO: the new packet is the newest and a full buffer loses only its oldest packet |
| Recoder.StoreFilled | src/sncRecoder.c:67-80 | after a store exactly the first n' slots are filled |
| Recoder.StoreAges | src/sncRecoder.c:64-83 | after a store the filled slots, read from the oldest, are the last n' packets |
| Recoder.SlotHolds | src/sncRecoder.c:64-83 | filled slot k holds the packet of age (k + n - pn) mod size |
| Recoder.FullOldestAtPn | src/sncRecoder.c:72-75 | a full buffer keeps its oldest packet in slot pn, the one the next arrival replaces |
| Recoder.FifoKeepsLatest | src/sncRecoder.c:64-83 | the last min(arrivals, size) packets of a generation are all in its buffer |
| Recoder.CountNonEmpty | src/sncRecoder.c:21 | the number of non-empty generations is at most gnum |
| Recoder.CountUpdate | src/sncRecoder.c:67-71 | changing one count changes nemp only when it crosses zero |
| Recoder.CountZeros | src/sncRecoder.c:21 | with all counts zero no generation is non-empty |
| Recoder.CountPrefixNext | src/sncRecoder.c:145-148 | one more generation in the prefix adds one exactly when it is non-empty |
| Recoder.NthNonEmpty | src/sncRecoder.c:143-151 | the RAND scan stops on the generation with a nonzero count and exactly index non-empty generations before it |
| Recoder.MostPotential | src/sncRecoder.c:154-166 | the MLPI scan returns the first generation of largest nc - nsched |
| Recoder.RecodeCoefficients | src/sncRecoder.c:97 | one drawn coefficient per buffered packet |
| Recoder.Recoded | src/sncRecoder.c:92-101 | the recoded packet has the scheduled gid and size_g coefficients and size_p payload bytes |
| Recoder.CombineBuffered | src/sncRecoder.c:96-101 | the recoding loop computes the combination of the buffered packets by the drawn coefficients on both parts |
| Recoder.RecodedConsistent | src/sncRecoder.c:96-101 | combining coded packets of X with the same coefficients on both parts gives a coded packet of X |
| Recoder.BufferStore | src/sncRecoder.c:64-83 | buffering a packet keeps the state of the whole buffer, in each of the three cases |
| Recoder.Store | src/sncRecoder.c:67-80 | the three cases: an empty buffer stores at slot 0 and raises nemp, a full one overwrites slot pn, any other stores at pn and counts it |
| Recoder.RecodeBuffer.constructor | src/sncRecoder.c:9-46 | snc_create_buffer makes gnum empty buffers of bufsize slots and zero counters |
| Recoder.RecodeBuffer.BufferPacket | src/sncRecoder.c:64-83 | snc_buffer_packet stores the packet in the FIFO of its generation, advances pn modulo size and changes no other generation |
| Recoder.RecodeBuffer.Held | src/sncRecoder.c:96 | the buffered packets of a generation number nc[gid], all of that generation and of the right sizes |
| Recoder.RecodeBuffer.ScheduleTriv | src/sncRecoder.c:134-138 | TRIV scheduling returns rand() mod gnum and counts it in nsched |
| Recoder.RecodeBuffer.ScheduleRand | src/sncRecoder.c:140-152 | RAND scheduling returns -1 exactly when every generation is empty, else the (rand() mod nemp)-th non-empty generation, counted |
| Recoder.RecodeBuffer.ScheduleMlpi | src/sncRecoder.c:154-166 | MLPI scheduling returns the first generation of largest potential, counted |
| Recoder.RecodeBuffer.Schedule | src/sncRecoder.c:131-167 | schedule_recode_generation returns -1 only for RAND with every generation empty and otherwise a valid gid, counted in nsched: rand() mod gnum for TRIV, a non-empty generation with rand() mod nemp non-empty ones before it for RAND, the first generation of largest potential for MLPI |
| Recoder.RecodeBuffer.ScheduleGncAsWritten | src/gncRecoder.c:98-116 | the gnc scheduler returns no value for MLPI and does not count TRIV |
| Recoder.RecodeBuffer.ScheduleGnc | src/gncRecoder.c:98-116 | the corrected gnc scheduler handles MLPI as the other recoders do: TRIV gives rand() mod gnum without counting, RAND and MLPI pick and count as Schedule does |
| Recoder.RecodeBuffer.RecodeFrom | src/sncRecoder.c:91-103 | the recoded packet of a scheduled generation combines all its buffered packets |
| Recoder.RecodeBuffer.RecodePacket | src/sncRecoder.c:85-103 | snc_recode_packet returns NULL exactly when RAND finds every generation empty, else the recoded packet of the generation the TRIV, RAND or MLPI rule picks; nsched counts that generation once more, and is unchanged on NULL |
| Recoder.RecodeBuffer.RecodeGncPacket | src/gncRecoder.c:78-96 | generate_recoded_packet with the corrected scheduler: NULL exactly when RAND finds every generation empty, else the recoded packet of the generation ScheduleGnc picks (rand() mod gnum for TRIV, with nsched unchanged), counted in nsched for RAND and MLPI |
| Pivoting.RemoveAt | src/pivoting.c:1059-1077 | removing a node shortens the list by one |
| Pivoting.RemoveAtEntries | src/pivoting.c:1059-1077 | removing keeps every other node, in order, and drops exactly one copy |
| Pivoting.RemoveDescending | src/pivoting.c:1059-1077 | removing from a bucket keeps it descending and holding exactly the other columns |
| Pivoting.InsertThenRemove | src/pivoting.c:1029-1077 | a node inserted at the front or back is what removing the first or last node takes away |
| Pivoting.SubscriptList.constructor | src/pivoting.c:1031-1032 | a new list is empty |
| Pivoting.SubscriptList.First | src/pivoting.c:1029-1041 | ssFirst is NULL exactly for an empty list, else the first node |
| Pivoting.SubscriptList.Last | src/pivoting.c:1044-1056 | ssLast is NULL exactly for an empty list, else the last node |
| Pivoting.SubscriptList.InsertAtBeginning | src/pivoting.c:1029-1041 | insertSubAtBeginning makes the node the first, and also the last of an empty list |
| Pivoting.SubscriptList.InsertAtEnd | src/pivoting.c:1044-1056 | insertSubAtEnd makes the node the last, and also the first of an empty list |
| Pivoting.SubscriptList.Remove | src/pivoting.c:1059-1077 | removeSubscript unlinks exactly the given node in each of its four cases |
| Pivoting.SubscriptList.Retarget | src/pivoting.c:982-988 | the retargeting walk renames every later node naming k and leaves the rest |
| Pivoting.SwapPermutation | src/pivoting.c:951-989 | exchanging two entries of a permutation gives a permutation |
| Pivoting.Occurrences | src/pivoting.c:793-794 | a count of entries never exceeds the prefix length |
| Pivoting.OccurrencesUpdate | src/pivoting.c:857-872 | changing one column state changes the count of that state by at most one |
| Pivoting.OccurrencesSameMask | src/pivoting.c:793-794 | sequences agreeing on which entries equal v count alike |
| Pivoting.FindOccurrence | src/pivoting.c:890-891 | a positive count has a witness |
| Pivoting.FindOther | src/pivoting.c:801 | a count below n has an entry that differs |
| Pivoting.OccurrencesNone | src/pivoting.c:791-794 | with no entry equal to v, none is counted |
| Pivoting.OccurrencesAll | src/pivoting.c:791-794 | with every entry equal to v, all are counted |
| Pivoting.OccurrencesMono | src/pivoting.c:801 | a longer prefix never counts fewer |
| Pivoting.Idle | src/pivoting.c:791 | after the memset every column is active |
| Pivoting.NzActive | src/pivoting.c:756-768 | the active nonzero count of a row is at most its length |
| Pivoting.NzActiveUpdate | src/pivoting.c:841-846 | taking column c out of the active set removes its entry from every row's count |
| Pivoting.NzActiveSingle | src/pivoting.c:805-821 | a row counted one has its one active nonzero entry where the search finds it |
| Pivoting.NzActiveNone | src/pivoting.c:816-825 | a row counts zero exactly when its active entries are all zero |
| Pivoting.NzColumn | src/pivoting.c:756-768 | a column count is at most the number of rows |
| Pivoting.InitialCounts | src/pivoting.c:749-768 | the counting loops give each row and column its nonzero count and max_col1s bounds the column counts |
| Pivoting.FillBuckets | src/pivoting.c:772-785 | every column sits, once, in the bucket of its initial count, buckets in descending order |
| Pivoting.FirstSingletonRow | src/pivoting.c:805-812 | the search returns the first row counted one, or -1 when none is |
| Pivoting.FirstActiveNonzero | src/pivoting.c:816-825 | the scan returns the lowest active column where the row is nonzero, or -1 when there is none |
| Pivoting.Position | src/pivoting.c:847-852 | the search of a bucket returns the position of the column, or the end |
| Pivoting.HighestBucket | src/pivoting.c:866-869 | the downward scan returns the highest non-empty bucket |
| Pivoting.DropColumn | src/pivoting.c:841-846 | unselected rows with a nonzero entry in the column lose one and no other count changes |
| Pivoting.RowsSelect | src/pivoting.c:832-840 | selecting a pivot row marks it -1 and appends it to the row pivot list |
| Pivoting.RowsDrop | src/pivoting.c:841-846 | the row counts stay the active nonzero counts once a column leaves the active set |
| Pivoting.ColumnsLeave | src/pivoting.c:857-872 | active and inactivated keep counting the column states, and removed columns are those of the pivot list |
| Pivoting.BucketsLeave | src/pivoting.c:853-856 | the buckets hold exactly the active columns after one leaves |
| Pivoting.SingletonPivot | src/pivoting.c:814-861 | the singleton branch picks a nonzero pivot in an active column and keeps the search invariant with one column fewer |
| Pivoting.PivotsGrow | src/pivoting.c:814-861 | a singleton pivot extends the lower triangular structure of the pivots found |
| Pivoting.InactivateColumn | src/pivoting.c:862-884 | without a singleton row an active column with the most nonzeros is inactivated and the invariant kept |
| Pivoting.DenseRow | src/pivoting.c:892-900 | the row chosen for a dense pivot is the first unselected row nonzero in the column, or the last unselected row when there is none |
| Pivoting.RowsTake | src/pivoting.c:908-915 | selecting row j marks it and appends it |
| Pivoting.ColumnsTake | src/pivoting.c:913-916 | an inactivated column is removed and appended |
| Pivoting.DenseSkip | src/pivoting.c:890-891 | a column that was not inactivated is skipped |
| Pivoting.DenseStep | src/pivoting.c:891-917 | one inactivated column is paired with an unselected row |
| Pivoting.DensePivots | src/pivoting.c:889-918 | the dense loop pairs every inactivated column, in increasing order, and the lists form the pivot sequence |
| Pivoting.DenseStart | src/pivoting.c:889 | the dense loop starts from the state the search ends in |
| Pivoting.DenseEnd | src/pivoting.c:918 | after the dense loop the lists form the pivot sequence |
| Pivoting.AppendFresh | src/pivoting.c:832-837 | appending an index not yet listed keeps the list distinct |
| Pivoting.PivotsPrefix | src/pivoting.c:889-918 | the singleton pivots keep their structure as a prefix of the final lists |
| Pivoting.SearchStart | src/pivoting.c:789-800 | the search starts with every column active and no pivot |
| Pivoting.Search | src/pivoting.c:801-887 | the search ends with no active column, the rows, columns and pivots consistent |
| Pivoting.InactivationPivoting | src/pivoting.c:739-929 | inactivation_pivoting returns ncolA distinct pivot rows and all columns once, the singleton pivots lower triangular, and the inactivated columns last in increasing order |
| PivotReshape.SwapRowEntries | src/pivoting.c:951-963 | the row swap loops exchange rows i and j of a matrix |
| PivotReshape.SwapColumnEntries | src/pivoting.c:975-980 | the column swap loop exchanges columns i and j |
| PivotReshape.TracksStart | src/pivoting.c:937-946 | the pivot lists start out tracking the identity placement |
| PivotReshape.PivotAhead | src/pivoting.c:946-951 | the k-th pivot never sits above k, and no later entry names the same index |
| PivotReshape.TracksSwap | src/pivoting.c:951-973 | swapping k with the k-th pivot's index and retargeting later entries puts the pivots up to k in place |
| PivotReshape.RunTracks | src/pivoting.c:997-1026 | the remaining swap steps realise a tracked list of pivots |
| PivotReshape.SwapsPrefix | src/pivoting.c:1005-1025 | the exchanges up to k depend only on the first k entries |
| PivotReshape.SwapsStep | src/pivoting.c:1009-1014 | one more exchange by the entry at k |
| PivotReshape.ReplayAhead | src/pivoting.c:1016-1022 | a list whose entries never name earlier indices retargets nothing when walked |
| PivotReshape.ReplayedExchanges | src/pivoting.c:997-1026 | permute_matrix_columns given the list reshape_matrix leaves behind applies that same column permutation |
| PivotReshape.PlaceRow | src/pivoting.c:947-973 | rows k and the k-th pivot row are exchanged in A and B and later entries retargeted |
| PivotReshape.PlaceColumn | src/pivoting.c:975-989 | columns k and the named column are exchanged and later entries retargeted |
| PivotReshape.PlacePivot | src/pivoting.c:946-992 | one step moves the k-th pivot to (k, k), each entry holding the input entry at its tracked position |
| PivotReshape.PlacePivots | src/pivoting.c:946-993 | after the loop every pivot is on the diagonal |
| PivotReshape.ReshapeMatrix | src/pivoting.c:937-994 | result row k is input row rp[k] and result column k input column cp[k], B's rows moving with A's |
| PivotReshape.PermuteMatrixColumns | src/pivoting.c:997-1026 | permute_matrix_columns places input column cp[c] at c for a permutation cp, and replays reshape's permutation for the list it leaves |
| PivotRounds.Snapshot | src/pivoting.c:122-129 | the rows of the matrix as a value, entry by entry |
| PivotRounds.DistinctValues | src/pivoting.c:150-155 | n distinct column indices form a set of n |
| PivotRounds.PermutationCovers | src/pivoting.c:150-155 | a permutation of 0 .. n-1 names every index |
| PivotRounds.InverseFromLeft | src/pivoting.c:395-397 | writing otoc[ctoo[i]] = i for a permutation ctoo makes otoc its inverse |
| PivotRounds.ColumnOrder | src/pivoting.c:148-155 | the walk of the column pivot list makes ctoo the list and otoc its inverse |
| PivotRounds.CopyCorner | src/pivoting.c:200-206 | the corner copy holds the block of the matrix from row and column ncolA - ias on |
| PivotRounds.AddInactive | src/pivoting.c:188 | the multiply-add on the inactive columns adds q times row i to row j there and changes nothing else |
| PivotRounds.EliminateEntry | src/pivoting.c:184-196 | clearing entry (j, i) is a row addition applied to the working matrix and to B alike |
| PivotRounds.EliminateColumn | src/pivoting.c:178-197 | the inner loop clears column i below the diagonal by proper row operations |
| PivotRounds.EliminateActive | src/pivoting.c:175-198 | the active-part loop diagonalises the first ncolA - ias columns by row additions applied to both matrices |
| PivotRounds.CopyRow | src/pivoting.c:216-224 | one memcpy of the write-back sets one row from a column on and keeps everything else |
| PivotRounds.WriteBack | src/pivoting.c:216-224 | the write-back loops give A the working copy above the corner and the solved corner below |
| PivotRounds.ReshapedTriangle | src/pivoting.c:160-198 | after reshape_matrix the active part is lower triangular with nonzero diagonal |
| PivotRounds.SameSnapshot | src/pivoting.c:122-129 | a copy has the same contents |
| PivotRounds.ReshapedBlock | src/pivoting.c:160 | the reordered matrix is the input with rows and columns permuted |
| PivotRounds.ChoosePivots | src/pivoting.c:135-155 | inactivation pivoting and the column-order walk give a pivot sequence and inverse column maps |
| PivotRounds.CopyAndPivot | src/pivoting.c:122-155 | the working copies equal A and B and the pivots are chosen on them |
| PivotRounds.ReshapeCopies | src/pivoting.c:160 | reshape_matrix leaves the working copies permuted and the active part lower triangular |
| PivotRounds.FirstRound | src/pivoting.c:112-198 | the first round of both drivers reorders A and B by the pivots and diagonalises the active part by proper row operations |
| PivotRounds.CopiedCorner | src/pivoting.c:200-206 | a copy of a corner holds that corner of the contents |
| PivotRounds.Substitute | src/pivoting.c:211 | forward substitution makes the corner upper triangular and keeps its solution set |
| PivotRounds.SolveCorner | src/pivoting.c:200-212 | the corner copies, after forward_substitute, are upper triangular with the solutions of the corner |
| PivotRounds.WriteBackContents | src/pivoting.c:214-224 | the write-back stated on the matrices' contents |
| PivotRounds.WriteBoth | src/pivoting.c:214-224 | A receives the working copy and solved corner, B the matching rows |
| PivotRounds.SolveFirst | src/pivoting.c:200-224 | the corner is solved by forward substitution and written back into A and B |
| PivotRounds.PivotMatrixOneRound | src/pivoting.c:112-243 | pivot_matrix_oneround reorders by the inactivation pivots, diagonalises the active part, triangularises the corner keeping its solutions, and writes the result into A and B |
| PivotTwoRound.RemappedOrder | src/pivoting.c:386-393 | the first ncolA - ias entries of ctoo stay and inactive position i takes what position ncolA - ias + cp2[i] held |
| PivotTwoRound.RemappedPermutation | src/pivoting.c:386-393 | reordering the inactive tail of a permutation by a permutation keeps it a permutation |
| PivotTwoRound.GatherTail | src/pivoting.c:386-392 | partial_mappings holds the inactive tail of ctoo in the order of the second column pivots |
| PivotTwoRound.CopyTail | src/pivoting.c:393 | the memcpy puts partial_mappings over the tail of ctoo |
| PivotTwoRound.RebuildInverse | src/pivoting.c:395-397 | otoc becomes the inverse of ctoo |
| PivotTwoRound.RemapColumns | src/pivoting.c:385-397 | the column maps follow the second column permutation and stay inverse |
| PivotTwoRound.ReshapeCorner | src/pivoting.c:363-401 | the corner copies are reordered by the second pivot lists |
| PivotTwoRound.CopyTop | src/pivoting.c:404-408 | BI_matrix holds the inactive columns of the rows above the corner |
| PivotTwoRound.PermuteInactive | src/pivoting.c:404-415 | the inactive columns of the rows above the corner follow the second column permutation |
| PivotTwoRound.CopyBack | src/pivoting.c:414-415 | BI_matrix is copied back over the inactive columns |
| PivotTwoRound.InactiveBlock | src/pivoting.c:404-415 | the entries left in the working copy are those of the permuted inactive block |
| PivotTwoRound.ReorderSecond | src/pivoting.c:363-415 | the second round's reordering: column maps remapped, corner reordered, and inactive columns of the rows above reordered alike |
| PivotTwoRound.SubstituteAndWrite | src/pivoting.c:422-434 | forward substitution of the reordered corner keeps its solutions, and A and B receive the result |
| PivotTwoRound.SolveSecond | src/pivoting.c:363-434 | the corner is reordered, triangularised with the same solutions and written back |
| PivotTwoRound.SecondRound | src/pivoting.c:363-459 | pivot_matrix_tworound from the first round on: the column maps follow the second permutation, the corner is solved and the result written into A and B |
| Decoding.Expand | src/decoderCBD.h:6-10 | a stored row of len entries starting at its diagonal stands for the full-length vector with those entries from the diagonal on and zeros elsewhere |
| Decoding.CombinedOutside | src/decoderCBD.c:102-111 | a position no packet id of the subgeneration names stays zero in the coding vector |
| Decoding.AssignedIsCombined | src/decoderCBD.c:102-111 | with distinct packet ids, the scatter ces[pktid[i]] = coes[i] builds the same vector as adding each coefficient in |
| Decoding.CombinedWindow | src/decoderCBD.c:102-111 | the coding vector of packets inside a window has its nonzeros inside the window |
| Decoding.BandVectorWindow | src/decoderCBD.c:102-111 | the coding vector of a band subgeneration has its nonzeros within the size_g packets from the band's lead |
| Decoding.CombinedDot | src/sncEncoder.c:517-549 | byte k of a coded payload is the inner product of its full-length coding vector with column k of the packets |
| Decoding.CodedEquation | src/sncEncoder.c:517-549 | a coded packet is an equation of the packets it was coded from: its full-length coding vector times the packets gives its payload |
| Decoding.DotOfPrefix | src/sncEncoder.c:310-325 | a combination over packets below s is the same taken over the first s packets or all packets |
| Decoding.ParityRowEquation | src/decoderCBD.c:212-223 | when each check packet is the sum of its neighbours, each parity vector with an all-zero message is an equation of the packets |
| Decoding.DoubledEdge | src/sncEncoder.c:310-325 | with one source and two checks, check 0 lists source 0 twice |
| Decoding.ExampleChecks | src/sncEncoder.c:310-325 | in that example both checks are the sums of their neighbour lists |
| Decoding.ExampleAsWritten | src/decoderCBD.c:217-221 | the parity vector as written for check 0 of the example is not satisfied by the encoder's packets |
| Decoding.ParityRowAsWrittenFails | src/decoderCBD.c:217-221 | the parity vector as written fails on the encoder's own packets while the summed parity vector holds |
| Decoding.AddScaledAtExpand | src/galois.c:212-286 | multiply-adding a stored row at its diagonal is multiply-adding the full-length row it stands for |
| Decoding.HoldsAddScaled | src/decoderCBD.c:156-158 | adding q times one equation of the packets to another, coefficients and message alike, gives an equation |
| Decoding.HoldsScaled | src/decoderCBD.c:269-274 | scaling the coefficients and message of an equation alike gives an equation |
| Decoding.HoldsUnit | src/decoderCBD.c:275-277 | an equation whose coefficient vector is the unit vector at i has packet i as message |
| Decoding.ClearsPivot | src/decoderCBD.c:155-157 | dividing by the stored row's diagonal and multiply-adding clears the vector's entry at the pivot |
| Decoding.ReduceHolds | src/decoderCBD.c:155-158 | a reduction against a stored row keeps the vector and message an equation of the packets |
| Decoding.WindowStep | src/decoderCBD.c:152-158 | a reduction against a row of at most w entries moves the vector's window of w to start at the pivot |
| Decoding.ExpandSlice | src/decoderCBD.c:186-187 | storing the len entries from the pivot loses nothing when the vector is zero outside them |
| Decoding.ClearEntryHolds | src/decoderCBD.c:256-265 | clearing an entry above the diagonal with the diagonal row zeroes it and keeps an equation of the packets |
| Decoding.NormaliseHolds | src/decoderCBD.c:268-273 | scaling a diagonal row and its message by the inverse of the diagonal entry gives diagonal 1 and keeps an equation |
| Decoding.UnitRowSolves | src/decoderCBD.c:275-277 | a row of 1 followed by zeros has as message the packet at its diagonal |
| CompactRows.Stored | src/decoderCBD.c:231-238 | the number of rows stored is at most the number of rows |
| CompactRows.StoredSet | src/decoderCBD.c:176-187 | storing or freeing one row changes the count by one |
| CompactRows.StoredFull | src/decoderCBD.c:231-240 | the count reaches the row count exactly when every row is stored |
| CompactRows.StoredNone | src/decoderCBD.c:20-85 | a fresh matrix with no rows stored counts zero |
| CompactRows.RowsHoldSet | src/decoderCBD.c:186-188 | storing an equation at a row keeps every stored row an equation of the packets |
| CompactRows.ScatterCoefficients | src/decoderCBD.c:102-111 | the scatter loop builds the full-length coding vector of the packet |
| CompactRows.ParityVector | src/decoderCBD.c:212-221 | the parity vector of check p, neighbours added in, and 1 at snum + p |
| CompactRows.ParityVectorAsWritten | src/decoderCBD.c:212-221 | the parity vector as written, a neighbour assigned rather than added, and 1 at snum + p |
| CompactRows.ReduceVector | src/decoderCBD.c:151-172 | the loop is the left-to-right reduction ReduceFrom: zeros before the pivot, a nonzero entry at a free pivot, the vector changed only by a combination of the stored rows and still an equation, no pivot exactly when the input is a combination of the stored rows, and for a windowed vector nonzeros within w of the pivot |
| CompactRows.ReducedSpan | src/decoderCBD.c:151-172 | against triangular rows the reduced vector differs from the input by a combination of the rows, and the reduction finds no pivot exactly when the input is such a combination |
| CompactRows.ReduceFromSpan | src/decoderCBD.c:151-172 | the reduction loop invariant: from any position with zeros before it, the vector stays the input plus a combination of the rows, and no pivot is found exactly when the input is a combination |
| CompactRows.RowLength | src/decoderCBD.c:179-186 | a stored row runs to the end of the matrix, or is size_g entries long while the band code is not yet precode-reduced |
| CompactRows.StoreHolds | src/decoderCBD.c:186-188 | a reduced vector stored at its pivot keeps every stored row an equation of the packets |
| CompactRows.CountMissing | src/decoderCBD.c:230-238 | missing_DoF is the number of rows with nothing stored |
| CompactRows.ClearEntry | src/decoderCBD.c:256-265 | one elimination clears the entry above the diagonal, changes only that row and its message, and keeps the equations |
| CompactRows.ClearColumn | src/decoderCBD.c:255-266 | the inner loop clears column i above the diagonal and keeps the equations |
| CompactRows.NormaliseRow | src/decoderCBD.c:268-273 | the diagonal of row i becomes 1, its message is scaled alike, nothing else changes |
| CompactRows.UnitRowsSolve | src/decoderCBD.c:248-281 | with every row diagonal, the messages are the packets |
| CompactRows.Diagonalise | src/decoderCBD.c:248-287 | finish_recovering_CBD makes every row 1 followed by zeros and copies the messages out, which are the packets when the rows were equations |
| CompactRows.StoreVector | src/decoderCBD.c:138-199 | process_vector_CBD reduces the vector as ReduceFrom and stores the reduced vector at its free pivot, raising the count by one, exactly when the vector is not a combination of the stored rows; it keeps the matrix triangular and its rows equations, and changes nothing otherwise |
| CompactRows.ApplyChecks | src/decoderCBD.c:202-224 | every parity vector is processed at full row length, stored rows are kept, and the rows stay equations of the packets when the checks are sums of their neighbours |
| CompactRows.ReshapedMatrix | src/decoderCBD.c:248-287 | back-substitution keeps the shape of the decoding matrix |
| CompactRows.Finish | src/decoderCBD.c:248-287 | on a complete matrix the rows become diagonal and the copied packets are the original packets when the rows were equations |
| DecoderCbd.GraphLists | src/bipartite.c:11-67 | one neighbour list per check |
| DecoderCbd.ContextLists | src/bipartite.c:11-67 | the check lists of an encoding context are those the graph construction builds from snum and cnum alone, so a decoder's fresh context has the encoder's lists |
| DecoderCbd.PacketVector | src/decoderCBD.c:101-111 | the full-length vector of a packet names packets of the code only, lies in its band for a band code, and is an equation of the packets it was coded from |
| DecoderCbd.FullVector | src/decoderCBD.c:101-111 | the scatter of the packet's coefficients over its subgeneration, with the band window and equation properties |
| DecoderCbd.CbdDecoder.constructor | src/decoderCBD.c:46-81 | no rows stored, zero messages, no DoF, flags cleared |
| DecoderCbd.CbdDecoder.Create | src/decoderCBD.c:20-85 | no decoder exactly when the code parameters are rejected; otherwise an empty matrix, naive mode for a code that is not a band code, and every packet set consistent with it |
| DecoderCbd.CbdDecoder.ProcessVector | src/decoderCBD.c:138-199 | the vector is reduced as ReduceFrom against the stored rows; it is reported -1, with nothing changed, exactly when it is a combination of them; otherwise its reduction is stored at the free pivot with one more DoF; stored rows stay equations of the packets |
| DecoderCbd.CbdDecoder.ApplyParityCheckMatrix | src/decoderCBD.c:202-241 | every parity vector is processed, stored rows are kept, missing is the number of rows still empty, and the rows stay equations |
| DecoderCbd.CbdDecoder.FinishRecovering | src/decoderCBD.c:248-287 | decoding finishes with every row diagonal and the recovered packets equal to the original packets |
| DecoderCbd.CbdDecoder.CheckProgress | src/decoderCBD.c:122-134 | at snum DoF the precode is applied and DoF becomes the rows present; at snum + cnum DoF decoding finishes; consistency with the packets is kept |
| DecoderCbd.CbdDecoder.ProcessPacket | src/decoderCBD.c:91-135 | one more packet counted, DoF and flags only grow, no stored row is lost, and a packet coded from the packets keeps the decoder consistent, so a finished decoder holds the original packets |
| GncDecoderCbd.ContextLists | src/bipartite.c:11-67 | the check lists of a gnc context are those the graph construction builds from snum and cnum alone |
| GncDecoderCbd.PacketVector | src/gncCBDDecoder.c:79-85 | the full-length vector of a band packet names packets of the code, lies in the band's window, and is an equation of the packets it was coded from |
| GncDecoderCbd.FullVector | src/gncCBDDecoder.c:79-85 | the scatter of the packet's coefficients over its generation, with the window and equation properties |
| GncDecoderCbd.GncCbdDecoder.constructor | src/gncCBDDecoder.c:37-60 | no rows stored, zero messages, no DoF, flags cleared |
| GncDecoderCbd.GncCbdDecoder.Create | src/gncCBDDecoder.c:21-61 | no decoder for a code that is not a band code or whose parameters are rejected; otherwise an empty matrix consistent with every packet set |
| GncDecoderCbd.GncCbdDecoder.ProcessVector | src/gncCBDDecoder.c:111-166 | the vector is reduced as ReduceFrom against the stored rows; it is reported -1, with nothing changed, exactly when it is a combination of them; otherwise its reduction is stored at the free pivot with one more DoF; stored rows stay equations of the packets |
| GncDecoderCbd.GncCbdDecoder.ApplyParityCheckMatrix | src/gncCBDDecoder.c:169-212 | every parity vector is processed, stored rows are kept, missing counts the empty rows, and the rows stay equations |
| GncDecoderCbd.GncCbdDecoder.FinishRecovering | src/gncCBDDecoder.c:215-246 | decoding finishes with every row diagonal and the recovered packets equal to the original packets |
| GncDecoderCbd.GncCbdDecoder.CheckProgress | src/gncCBDDecoder.c:93-107 | at snum DoF the precode is applied and DoF becomes the rows present; at snum + cnum DoF decoding finishes; consistency is kept |
| GncDecoderCbd.GncCbdDecoder.ProcessPacket | src/gncCBDDecoder.c:67-108 | one more packet counted, DoF and flags only grow, no stored row is lost, and a packet coded from the packets keeps the decoder consistent |
| DecoderPp.AdvanceIsMod | src/decoderPP.c:106 | the pivot advance without division is (p + s) mod numpp |
| DecoderPp.Cyclic | src/decoderPP.c:212-215 | a row of the perpetual matrix stands for a full-length vector of numpp entries, wrapping round the end |
| DecoderPp.CyclicFlat | src/decoderPP.c:212-215 | a row that does not reach the end of the matrix is an ordinary compact row |
| DecoderPp.CyclicAddScaled | src/decoderPP.c:112-114 | the multiply-add of a row onto the candidate, both starting at the pivot, adds the full-length vectors they stand for |
| DecoderPp.CyclicShift | src/decoderPP.c:106-108 | dropping leading zero entries moves the row that many columns on, wrapping at numpp |
| DecoderPp.CyclicTrim | src/decoderPP.c:138-143 | storing only the first rowlen entries loses nothing when the rest are zero |
| DecoderPp.CyclicAt | src/decoderPP.c:212-214 | entry t of a row lies at column (p + t) mod numpp |
| DecoderPp.CombinedAt | src/decoderPP.c:157-164 | coefficients scattered to distinct positions can be read back there |
| DecoderPp.WindWrapMember | src/sncEncoder.c:421-446 | member t of a window-wrap subgeneration is packet (first + t) mod numpp |
| DecoderPp.WindWrapVector | src/decoderPP.c:95-108 | the full-length vector of a window-wrap packet is the wrapping row from its subgeneration's first packet with its coefficients as entries |
| DecoderPp.FirstNonzero | src/decoderPP.c:99-105 | the first nonzero entry from a position on, or the bound when there is none, with zeros before it |
| DecoderPp.Start | src/decoderPP.c:97-110 | the pivot candidate starts at the subgeneration's first packet moved past the leading zeros; an all-zero coefficient vector, and only that, is useless |
| DecoderPp.StartHolds | src/decoderPP.c:97-110 | the start of the reduction stands for the same vector as the packet's coefficients |
| DecoderPp.Shifted | src/decoderPP.c:115-132 | after a reduction the zero first entry is dropped and the candidate moves past the following zeros, or the vector is dropped |
| DecoderPp.DropFirst | src/decoderPP.c:116-118 | dropping a zero first entry moves the row one column on |
| DecoderPp.SkipZeros | src/decoderPP.c:120-132 | dropping the zeros before the first nonzero entry moves the row past them |
| DecoderPp.ShiftedDrops | src/decoderPP.c:121-127 | the shift drops the vector exactly when it has become zero |
| DecoderPp.ShiftedHolds | src/decoderPP.c:115-132 | the shift keeps the vector the candidate stands for |
| DecoderPp.Step | src/decoderPP.c:111-133 | one pass of the reduction loop keeps a reduction state of at most size_g entries |
| DecoderPp.StepHolds | src/decoderPP.c:111-133 | a pass keeps the candidate an equation of the packets, and a dropped vector was a combination of rows |
| DecoderPp.ReduceForward | src/decoderPP.c:97-145 | the Forward reduction, bounded at numpp passes, stores at an empty pivot a row with nonzero first entry that is an equation of the packets, or gives -1, always for a zero packet |
| DecoderPp.CyclicHoldSet | src/decoderPP.c:135-145 | storing a row that is an equation of the packets keeps every stored row one |
| DecoderPp.CyclicExtend | src/decoderPP.c:212-214 | writing one more entry extends the unwrapped vector by it |
| DecoderPp.UnwrapRow | src/decoderPP.c:209-215 | the loop writes a row at full length, wrapping at numpp |
| DecoderPp.RemoveNext | src/decoderPP.c:219-221 | freeing one more bottom row extends the removed range |
| DecoderPp.ZeroNext | src/decoderPP.c:222 | zeroing one more bottom message extends the zeroed range |
| DecoderPp.StoredRemoved | src/decoderPP.c:203 | removing the bottom size_g rows of a full matrix leaves numpp - size_g rows stored, the value pivots is reset to |
| DecoderPp.UnwrappedMatrix | src/decoderPP.c:200-223 | the rows above the bottom size_g do not wrap, so they form a triangular compact matrix whose rows stay equations |
| DecoderPp.UnwrappedHold | src/decoderPP.c:208-217 | a vector unwrapped from a row that is an equation of the packets is one, with the row's message |
| DecoderPp.Unwrap | src/decoderPP.c:206-223 | the bottom size_g rows are written out at full length with their messages, then removed with messages zeroed |
| DecoderPp.Reinsert | src/decoderPP.c:224-255 | each unwrapped vector is processed at full length and stored at an empty pivot; stored rows stay and the rows stay equations |
| DecoderPp.MoveToFinal | src/decoderPP.c:200-259 | the move to FinalForward gives a triangular matrix keeping the rows above the bottom size_g, with pivots counting its rows, at least numpp - size_g, and rows that are equations of the packets |
| DecoderPp.PacketRow | src/decoderPP.c:86-110 | a window-wrap packet stands for the wrapping row from its subgeneration's first packet, an equation of the packets it was coded from |
| DecoderPp.StoreForward | src/decoderPP.c:86-150 | the Forward branch stores the reduced packet at an empty pivot, one more row, or changes nothing; rows stay equations of the packets |
| DecoderPp.StoreFinal | src/decoderPP.c:151-191 | the FinalForward branch reduces the full-length vector as ReduceFrom; it changes nothing exactly when the vector is a combination of the stored rows, and otherwise stores the reduction at the empty pivot, numpp - pivot long; rows stay equations |
| DecoderPp.StageRank | src/decoderPP.c:86-263 | the stages in the order the decoder passes through them |
| DecoderPp.PpDecoder.constructor | src/decoderPP.c:36-65 | the Forward stage, no pivots, no rows, zero messages |
| DecoderPp.PpDecoder.Create | src/decoderPP.c:14-71 | no decoder for a code that is not window-wrap, has checks, or has rejected parameters; otherwise an empty Forward-stage matrix consistent with every packet set |
| DecoderPp.PpDecoder.ForwardPacket | src/decoderPP.c:86-150 | one more pivot for a stored packet, stored rows kept, and rows still equations of the packets |
| DecoderPp.PpDecoder.StartFinalForward | src/decoderPP.c:200-259 | the move to FinalForward keeps the rows above the bottom size_g, pivots at least numpp - size_g, and rows that are equations of the packets |
| DecoderPp.PpDecoder.FinalForwardPacket | src/decoderPP.c:151-191 | the scattered packet is reduced as ReduceFrom against the stored rows: it is dropped, changing nothing, exactly when it is a combination of them, and otherwise its reduced vector is stored at the pivot, adding one; stored rows are kept and stay equations |
| DecoderPp.PpDecoder.FinishRecovering | src/decoderPP.c:272-305 | every row diagonal, the stage FinalBackward, and the recovered packets equal to the original packets |
| DecoderPp.PpDecoder.ProcessPacket | src/decoderPP.c:73-265 | one more packet counted, stages only advance, and a packet coded from the packets keeps the decoder consistent, so a finished decoder holds them |
| DecoderPp.LoopRowsCircular | src/decoderPP.c:111-133 | the example rows are wrapping rows of at most size_g entries |
| DecoderPp.LoopStep | src/decoderPP.c:111-133 | in the example a pass at pivot 1 or 3 moves the candidate two columns on |
| DecoderPp.LoopStarts | src/decoderPP.c:97-110 | the example rows are what the Forward start gives for their packets |
| DecoderPp.ForwardCycles | src/decoderPP.c:111-133 | a packet whose candidate alternates between two stored pivots never becomes zero: the reduction loop as written does not end |
| Linear.OpsKeepSolutionSet | gaussian.c:16-77 | for every X: X solves the system before the row operations exactly when it solves it after |
| Galois.Field.constructor | src/galois.c:7-16 | the static tables start zeroed and the constructed flag cleared |
| Galois.Field.MultiplyTable | src/galois.c:145-161 | once the field is built, the product-table entry of a and b is the field product |
| Galois.Field.DivideTable | src/galois.c:145-161 | once the field is built, the quotient-table entry of nonzero a and b times b gives back a |
| GaloisLegacy.LegacyField.constructor | galois.c:4-8 | the static tables start zeroed, the file-level flag cleared and the tables not yet built |
| GaloisLegacy.LegacyField.LegacyZero | galois.c:87-132 | once built, the product of 0 with any byte is 0 |
| GaloisLegacy.LegacyField.ZeroColumn | galois.c:87-132 | once built, a product with a zero operand is 0 |
| GaloisLegacy.LegacyField.LegacyTableProduct | galois.c:87-132 | once built, the older product-table entry of a and b is the field product |
| GaloisLegacy.LegacyField.LegacyTableQuotient | galois.c:87-132 | once built, the older quotient-table entry of nonzero a and b times b gives back a |
| GncEncoder.GncContext.constructor | src/gncEncoder.c:34-37 | a zeroed context: the given sizes, no generations, no graph, no packets, no data |
| GncEncoder.GncContext.RecoverData | src/gncEncoder.c:234-253 | recover_data reads back exactly the data that was loaded |
| GncLegacyEncoder.LegacyContext.constructor | gncEncoder.c:31-34 | a zeroed context: the given sizes, no generations, no graph, no packets, no data |
| SncEncoder.EncContext.constructor | src/sncEncoder.c:35-38 | a zeroed context: the given sizes, no generations, no graph, no packets, no counters, no data |
| Bipartite.Graph.constructor | src/bipartite.c:11-30 | an empty graph: no nodes, no neighbour lists, no edges |
| Bipartite.Precode | src/bipartite.c:34-65 | the neighbour table of the precode graph holds, for every left node, its three check neighbours |
| Common.IndexOfData | src/common.c:33-59 | the position of the first node carrying the ID, and -1 exactly when none does |
| Common.NodeList.constructor | src/common.c:82 | a new list is empty: first and last are NULL |
| Common.NodeList.First | src/common.c:20-28 | the head is absent exactly for an empty list, and is otherwise the first node |
| Common.NodeList.Last | src/common.c:20-28 | the tail is absent exactly for an empty list, and is otherwise the last node |
| DecoderBd.PivotsSet | src/decoderBD.c:168-171 | a row stored at an empty diagonal with a nonzero entry there adds exactly one to the count of nonzero diagonal entries; a row keeping its diagonal entry's zeroness changes nothing |
| DecoderBd.PivotsFull | src/decoderBD.c:194 | the count of nonzero diagonal entries reaches the number of rows exactly when every diagonal entry is nonzero |
| DecoderBd.AddAtZeroPivots | src/decoderBD.c:249-255 | the zero-pivot loop adds q times row j's entry to row i at each listed column where row j is nonzero, and nowhere else |
| DecoderBd.EliminationAddsRow | src/decoderBD.c:245-255 | clearing entry j and updating only the zero-pivot columns adds q times row j to row i, since row j is zero everywhere else after its diagonal |
| DecoderBd.EliminateRow | src/decoderBD.c:242-258 | entry j of row i is cleared with row j, changing only row i and only at column j and the zero-pivot columns, or nothing when it is zero; every row stays an equation of X |
| DecoderBd.ClearAbove | src/decoderBD.c:240-259 | the rows from start_row to j - 1 have entry j cleared; rows outside that range or with a zero entry stay; every row stays an equation of X |
| DecoderBd.DiagonaliseColumn | src/decoderBD.c:238-260 | a column with a nonzero diagonal entry is cleared above the diagonal, extending the processed part of the matrix by one column |
| DecoderBd.DiagonaliseStep | src/decoderBD.c:230-261 | one pass of the column loop, for a zero or a nonzero diagonal entry, keeps the zero-pivot list and the count of nonzero rows in step with the processed columns |
| DecoderBd.PartiallyDiag | src/decoderBD.c:215-265 | afterwards every column with a nonzero diagonal entry is zero off the diagonal, the returned count is the number of zero diagonal entries, and every row is still an equation of X |
| DecoderBd.EmptyPivots | src/decoderBD.c:279-291 | every row is either counted among the nonzero diagonal entries or among the empty rows, so with snum pivots there are exactly cnum empty rows |
| DecoderBd.ParityStep | src/decoderBD.c:280-290 | visiting row i gives it the next parity vector and a zero message when its diagonal entry is zero, and leaves it otherwise |
| DecoderBd.ApplyParity | src/decoderBD.c:277-291 | the p-th empty row receives the summed parity vector of check p with a zero message, rows with a pivot stay, and when the checks of X are the sums of their neighbours every row stays an equation of X |
| DecoderBd.StoreBanded | src/decoderBD.c:110-134 | before the precode the scattered vector is reduced, as ReduceFrom over the band of each row on the diagonal, and its reduction stored at the first nonzero position without a row, adding one pivot, or nothing changes; the matrix stays banded and its rows stay equations of X |
| DecoderBd.PivotedRowsHold | src/decoderBD.c:293-299 | after pivot_matrix_oneround every row with a nonzero diagonal entry, read from the diagonal, is an equation of X in the new column order |
| DecoderBd.MissingDof | src/decoderBD.c:301-306 | the count of zero diagonal entries of the pivoted matrix is the number of rows minus the pivots |
| DecoderBd.InvertOrder | src/pivoting.c:152 | the column order ctoo is the inverse of the map otoc the pivoting fills |
| DecoderBd.PivotMatrix | src/decoderBD.c:293-309 | the pivoted matrix is square with a permutation as column order, missing counts its zero diagonal entries, and every row with a pivot, read from the diagonal, is an equation of X in that order |
| DecoderBd.StorePivoted | src/decoderBD.c:139-178 | after the precode the vector, read in the column order, is reduced as ReduceFrom against each row with a pivot to the end and its reduction stored at the first nonzero position without a pivot, adding one, or nothing changes; rows stay equations of X in that order |
| DecoderBd.BackSubstitute | src/decoderBD.c:322-332 | every row ends zero after its diagonal entry, the shape kept, and rows that were equations of Y stay so |
| DecoderBd.Normalise | src/decoderBD.c:333-341 | every row reads 1 on its diagonal, pp[ctoo[i]] takes message i, and when the rows were equations of Y the messages are Y |
| DecoderBd.FinishBd | src/decoderBD.c:314-344 | every row reads 1 on the diagonal and 0 after it, every pivot is present, each packet is copied to the position its column stands for, and they are X when the rows were equations of X in that order |
| DecoderBd.Precode | src/decoderBD.c:181-191 | partially diagonalise, add the parity rows and pivot: a square matrix with a permutation as column order, missing counts its zero diagonal entries, and every row with a pivot is an equation of X in that order |
| DecoderBd.ZeroMatrixHolds | src/decoderBD.c:36-47 | the zeroed matrix create_dec_context_BD allocates is banded with no pivot, and each zero row with its zero message is an equation of any X |
| DecoderBd.BdDecoder.constructor | src/decoderBD.c:36-64 | zero coefficient and message matrices, no DoF, the precode not applied, nothing decoded, every overhead counter zero |
| DecoderBd.BdDecoder.Create | src/decoderBD.c:18-86 | no decoder exactly for a code that is not a band code or whose parameters are rejected; otherwise an empty decoder consistent with every X the encoder could hold |
| DecoderBd.BdDecoder.StoreVector | src/decoderBD.c:118-178 | the reduction and store in either stage: the pivot and the stored row are those of ReduceFrom over the stage's view, a row is stored only at an empty diagonal, DoF grows by one exactly when it is, and a vector that is an equation of X keeps the decoder consistent with X |
| DecoderBd.BdDecoder.ApplyPrecode | src/decoderBD.c:181-192 | at snum DoF the precode is applied, DoF becomes the number of nonzero diagonal entries, and consistency with X is kept |
| DecoderBd.BdDecoder.FinishRecovering | src/decoderBD.c:314-344 | finish_recovering_BD leaves every row a unit row from its diagonal, the decoder finished, and a decoder consistent with X holding exactly X |
| DecoderBd.BdDecoder.CheckProgress | src/decoderBD.c:181-196 | the precode is applied at snum DoF and decoding finishes at snum + cnum DoF; neither step is undone, and consistency with X is kept |
| DecoderBd.BdDecoder.StorePacket | src/decoderBD.c:103-178 | the packet's coefficients, scattered over its subgeneration, are reduced as ReduceFrom over the stage's view and the reduction stored at the pivot, adding one DoF, or nothing changes; a packet coded from X keeps the decoder consistent with X |
| DecoderBd.BdDecoder.ProcessPacket | src/decoderBD.c:89-200 | both overhead counters grow by one, the stages only advance, and a packet coded from X keeps the decoder consistent with X, so a finished decoder holds X |
| RunningMatrices.UnerasedAt | src/decoderGG.c:537-542 | the column of a member not yet erased is the number of members before it not yet erased |
| RunningMatrices.UnerasedErase | src/decoderGG.c:537-559 | erasing member index takes out column count, the number of members before it not erased, and moves every later column one to the left |
| RunningMatrices.ExtractRow | src/decoderGG.c:209-227 | the row holds the coefficients of the unknown members in column order, and for a packet coded from X whose known members hold their contents in X the masked payload (mask_packet, lines 608-615) makes the row an equation of the unknown members |
| RunningMatrices.Solved | src/decoderGG.c:308 | a matrix left with no row and no column holds for any members |
| RunningMatrices.StoredRow | src/decoderGG.c:223-228 | storing an equation of the unknown members below the other rows keeps every stored row an equation |
| RunningMatrices.FewerRows | src/decoderGG.c:244-245 | keeping only the first rows keeps them equations |
| RunningMatrices.Flush | src/decoderGG.c:234-242 | forward_substitute leaves zeros below the diagonal and rows with the same solutions, and the count is the number of nonzero diagonal entries, equal to the columns exactly when none is zero |
| RunningMatrices.Refresh | src/decoderGG.c:232-247 | refreshed rows are full, as many as the columns and reduced, or fewer than the columns; columns and erased members stay, rows never grow, and stored rows stay equations |
| RunningMatrices.CountInnovatives | src/decoderGG.c:239-242 | the result is the number of nonzero entries among the first n diagonal places |
| RunningMatrices.Solve | src/decoderGG.c:274 | back_substitute on as many reduced rows as columns turns message i into the content of the i-th unknown member of X |
| RunningMatrices.UpdateMatrix | src/decoderGG.c:522-561 | the member at index is erased, one column fewer remains, rows stay, and when the known content is that of X the stored rows stay equations of the unknown members |
| RunningMatrices.ColumnOf | src/decoderGG.c:537-541 | the count is the number of members before index not yet erased |
| RunningMatrices.MoveColumn | src/decoderGG.c:543-549 | the adjacent exchanges carry column count of each stored row to column cols - 1, moving the columns between one to the left, and leave the other rows |
| RunningMatrices.MaskMessages | src/decoderGG.c:551-557 | each stored row's message gains its last-column entry times the known content; other messages stay |
| RunningMatrices.ErasedEquations | src/decoderGG.c:543-557 | a stored row without the erased column meets its message with the known term added, so it stays an equation of the remaining unknowns |
| DecoderGg.SumIsAccumulate | src/decoderGG.c:359-378 | the sum of a check's listed neighbours is the combination the precode builds with every coefficient 1 |
| DecoderGg.SumUnlinked | src/decoderGG.c:370-374 | unlinking a listed source from a check's list takes it out of the sum of the list |
| DecoderGg.LeftsCount | src/decoderGG.c:359-374 | a source appears in a check's list as often as the check appears among the source's neighbours, so each visit finds it still listed |
| DecoderGg.RemainingDrops | src/decoderGG.c:318-343 | fewer unknown columns in one open matrix and no more in any other means fewer in all, the measure that ends the repetition of perform_iterative_decoding |
| DecoderGg.UnerasedFewer | src/decoderGG.c:558-559 | marking more members erased leaves no more unknown columns, strictly fewer when one is newly marked |
| DecoderGg.CheckDecodedStep | src/decoderGG.c:391-404 | a decoded check added to its evolving buffer, a copy when NULL, leaves there the sum of its remaining neighbours |
| DecoderGg.SourceDecodedStep | src/decoderGG.c:364-370 | a decoded source added to the evolving buffer of a check it neighbours takes it out of the buffer's sum |
| DecoderGg.LastNeighbour | src/decoderGG.c:416-439 | a decoded check whose one remaining neighbour is undecoded holds that neighbour in its evolving buffer |
| DecoderGg.ScanRow | src/decoderGG.c:281-304 | the first member not yet erased is erased; when its packet is undecoded it takes the row's payload and is listed as recent and the scan stops, otherwise the scan goes on |
| DecoderGg.VisitChecks | src/decoderGG.c:359-378 | each check the source neighbours gains the packet in its evolving buffer, drops one degree and unlinks the source; with buffers that agree with X the source leaves every list and buffer |
| DecoderGg.Recoverables | src/decoderGG.c:415-473 | afterwards no decoded, non-recent check of degree one and no undecoded check of degree zero is left, recovered packets join the recent list, and agreement with X is kept |
| DecoderGg.RecoverableAt | src/decoderGG.c:416-471 | one check visited: recovery of its last neighbour or of itself as the source does, leaving it with nothing to do, and agreement with X kept |
| DecoderGg.EraseAt | src/decoderGG.c:487-496 | an unsolved matrix holding id as an unknown member has it erased; the erased members are those before and id, and rows stay equations when the known content is that of X |
| DecoderGg.EraseFrom | src/decoderGG.c:486-497 | every matrix holding the packet as an unknown member has it erased, the others stay |
| DecoderGg.EraseRecent | src/decoderGG.c:482-499 | every recent packet is erased from every unsolved matrix holding it; the erased members are those before and the recent ones |
| DecoderGg.FindDecodable | src/decoderGG.c:570-601 | the first matrix that is full once refreshed, or -1 with every matrix solved or short of rows; rows never grow and stored rows stay equations |
| DecoderGg.RefreshIfDue | src/decoderGG.c:571-599 | an unsolved matrix with at least as many rows as columns is refreshed and reports whether it is full; any other matrix stays |
| DecoderGg.Unpack | src/decoderGG.c:280-305 | every member unknown before is decoded and erased, and when none was decoded before each takes its content in X and is listed as recent |
| DecoderGg.DecodeMatrix | src/decoderGG.c:274-308 | back substitution and unpacking leave the matrix with no row and no column and every member decoded, decoding still in agreement with X |
| DecoderGg.Receive | src/decoderGG.c:209-253 | the masked row is stored and refreshed once the rows reach one less than the columns; the result is full or short of rows, and stored rows stay equations for a packet coded from X |
| DecoderGg.EmptyMatrix | src/decoderGG.c:80-122 | a running matrix with no row, every member unknown, zero coefficients and messages |
| DecoderGg.GgDecoder.Create | src/decoderGG.c:32-142 | no decoder exactly when the parameters are rejected; otherwise nothing decoded, empty matrices, each check's degree the length of its list, in agreement with every X the encoder could hold |
| DecoderGg.GgDecoder.NewDecodedCheckPacket | src/decoderGG.c:382-405 | one more decoded packet, the check absorbed into its evolving buffer, and agreement with X carried past the pending packet |
| DecoderGg.GgDecoder.NewDecodedSourcePacket | src/decoderGG.c:346-379 | one more decoded and original packet, finished exactly when originals reach snum, and otherwise the source unlinked from its checks with agreement with X kept |
| DecoderGg.GgDecoder.CheckForNewRecoverables | src/decoderGG.c:409-475 | the result is -1; no check is left with something to recover, decoded packets are kept, and agreement with X is kept |
| DecoderGg.GgDecoder.UpdateGenerations | src/decoderGG.c:478-502 | the recent list is cleared, rows stay, no matrix gains a column, the erased members are those before and the recent ones, and agreement with X is kept |
| DecoderGg.GgDecoder.CheckForNewDecodables | src/decoderGG.c:566-602 | the first subgeneration that becomes full, ready for back substitution, or -1 with every matrix solved or short of rows; agreement with X is kept |
| DecoderGg.GgDecoder.DecodeGeneration | src/decoderGG.c:262-314 | every member of the subgeneration is decoded, its matrix left empty, other matrices unchanged, the subgeneration recorded at newgpos modulo FB_THOLD, and agreement with X kept |
| DecoderGg.GgDecoder.PerformIterativeDecoding | src/decoderGG.c:318-343 | the repetition ends; afterwards decoding is finished with every source packet of X, or nothing is recent and no subgeneration is decodable |
| DecoderGg.GgDecoder.ApplyRecent | src/decoderGG.c:322-334 | every recent packet is applied to the precode, or decoding stopped finished with every source packet of X |
| DecoderGg.GgDecoder.ProcessPacket | src/decoderGG.c:195-259 | the packet is counted, decoded packets are kept, a finished decoder stays finished, and a decoder correct for X stays correct after a packet the encoder built from X |
| DecoderGg.GgDecoder.Started | src/decoderGG.c:63-135 | the initial state is in shape and agrees with every X the encoder could hold |
| DecoderGg.Learn | src/decoderGG.c:293-300 | decoding one more packet as in X and listing it as recent keeps agreement with X |
| DecoderGg.RetireCheck | src/decoderGG.c:423-431 | a decoded, non-recent check of degree one has been applied, its buffer is its remaining neighbour, and its degree may drop to zero |
| DecoderGg.RecoverCheck | src/decoderGG.c:455-462 | an undecoded check of degree zero holds the check itself in its evolving buffer |
| DecoderGg.FinishedRecovered | src/decoderGG.c:349-353 | when the last missing source is applied every source packet is decoded |
| DecoderGg.RecoveredKept | src/decoderGG.c:254 | decoding more packets keeps every source packet of X decoded |
| DecoderOa.GatheredDot | src/decoderOA.c:139-150 | byte k of a combination of the generation's members is the inner product of its coefficients with column k of those members |
| DecoderOa.CodedLocally | src/decoderOA.c:139-150 | a packet coded from a generation's members is an equation of those members with its own coefficient vector |
| DecoderOa.PacketHolds | src/decoderOA.c:139-150 | only the first size_g coefficient bytes enter that equation |
| DecoderOa.LocalDoFSet | src/decoderOA.c:151-163 | replacing one generation's matrix moves local_DoF by the change in its pivots |
| DecoderOa.LocalsSet | src/decoderOA.c:151-163 | storing a generation's new local matrix keeps every matrix square and banded and every row an equation of its members |
| DecoderOa.OaDecoder.constructor | src/decoderOA.c:54-119 | zeroed local matrices per generation, no local DoF, no packet, not OA-ready, and consistent with every X of the right shape |
| DecoderOa.OaDecoder.StoreLocal | src/decoderOA.c:137-163 | the vector is reduced as ReduceFrom against the local rows on the diagonal and its reduction stored at the pivot, an empty diagonal, adding one local DoF, or nothing changes; other generations stay and rows stay equations of the generation's members |
| DecoderOa.OaDecoder.ProcessPacket | src/decoderOA.c:120-238 | one more packet counted; before OA-readiness it is reduced and stored in its generation's local matrix as LocalReduction says, local_DoF counting a stored row, and the decoder becomes ready exactly when local_DoF >= snum and overhead >= snum + aoh; once ready the column order stays and the GDM, global_DoF, pp and finished change as GlobalReduction says: no pivot, nothing changes; a pivot, one more global DoF and the reduced vector stored there; a packet coded from X keeps every stored row an equation of X |
| DecoderOa.RefBanded | src/decoderOA.c:365-412 | bringing a banded local matrix to reduced row-echelon form keeps it banded |
| DecoderOa.RunningMatrixToRef | src/decoderOA.c:365-412 | every local matrix is diagonalised from the bottom up: each column with a nonzero diagonal entry becomes zero off the diagonal, local_DoF is unchanged, and rows that were equations of their generation's members stay so |
| DecoderOa.LocalDoFMono | src/decoderOA.c:461-477 | the local DoF of the first g generations never exceed those of the first m >= g, so the copy stays within the rows it counts |
| DecoderOa.ScatteredHolds | src/decoderOA.c:467-473 | a local row that is an equation of its generation's members, placed at its members' packet positions, is an equation of all the packets with the same message |
| DecoderOa.GenerationRowsHold | src/decoderOA.c:463-476 | every row a generation contributes to the GDM is an equation of all the packets when its local rows are equations of its members |
| DecoderOa.CopiedRowsHold | src/decoderOA.c:458-477 | every row copied from the first g generations is an equation of all the packets when every local row is an equation of its members |
| DecoderOa.CopyGenerationRows | src/decoderOA.c:463-476 | from row p0 on, the GDM receives in order each local row with a nonzero diagonal entry, placed at its members' packet positions, with its message; p advances by the generation's pivots and the other rows stay |
| DecoderOa.CopyNextGeneration | src/decoderOA.c:461-477 | after generation g the first rows of the GDM are exactly the rows copied from generations 0 to g, and the rows after them stay |
| DecoderOa.CopyLocalRows | src/decoderOA.c:458-477 | the first local_DoF GDM rows are exactly the local rows with a nonzero diagonal entry, generation by generation in diagonal order, over all packets and with their messages; the later rows, the check rows among them, stay |
| DecoderOa.FillGdm | src/decoderOA.c:458-498 | after the copy and the pivoting the GDM is in pivoted form, otoc and ctoo are inverse permutations and global_DoF counts the nonzero diagonal entries; if every row and every local row was an equation, every GDM row is an equation of X in column order |
| DecoderOa.ConstructGdm | src/decoderOA.c:414-499 | a GDM of numpp + aoh rows whose check rows state the precode, filled from the local rows and pivoted; when the checks hold in X and the local rows are equations of their members, every GDM row is an equation of X in column order |
| DecoderOa.FinishWhenFull | src/decoderOA.c:175-176 | decoding finishes exactly when global_DoF reaches numpp, the active rows then unit rows and each column's message recorded at its packet; otherwise nothing changes; if the GDM rows were equations of X, the recovered packets are X |
| DecoderOa.OaReady | src/decoderOA.c:165-177 | the transition to OA-readiness: local matrices to reduced form, GDM built and pivoted, finished exactly when global_DoF reaches numpp; the GDM says of X what the checks and local rows said, or the packets recovered are X |
| DecoderOa.GlobalStep | src/decoderOA.c:178-234 | the packet's coefficients at their packets' columns, in column order, are reduced as ReduceFrom against the GDM; a finished decoder finds no pivot; no pivot, nothing changes; a pivot is an inactive column without a row, where the reduced vector is stored, adding one global DoF, and the GDM diagonalised when global_DoF reaches numpp; an equation of X keeps what the decoder knows of X |
| DecoderOa.OaDecoder.BecomeReady | src/decoderOA.c:165-177 | the decoder becomes OA-ready in shape, finished only with unit active rows and the messages recorded, and what the local rows said of X the GDM says |
| DecoderOa.OaDecoder.InstallGdm | src/decoderOA.c:483-488 | the local matrices are freed and the GDM, mappings, inactive count, global_DoF, pp and finished take the given well-formed values |
| DecoderOa.OaDecoder.SetGdm | src/decoderOA.c:223-231 | the GDM, global_DoF, pp and finished take the given values and the decoder stays in shape and correct for X |
| DecoderOa.OaDecoder.ProcessGlobal | src/decoderOA.c:178-234 | the ready branch on the decoder's state: the pivot is GlobalReduction's; no pivot, nothing changes; a pivot, an inactive column without a row, the reduced vector stored there and one more global DoF; finished only with unit active rows and the messages recorded; a coded packet of X keeps the decoder correct for X |
| DecoderOa.OaDecoder.ProcessLocal | src/decoderOA.c:137-177 | before readiness the packet is reduced and stored as LocalReduction says, at an empty diagonal, local_DoF counting it, and the decoder becomes ready exactly when local_DoF >= snum and overhead >= snum + aoh |
| DecoderOa.OaDecoder.TestReady | src/decoderOA.c:165-177 | the decoder becomes ready exactly when local_DoF >= snum and overhead >= snum + aoh; otherwise the local matrices stay |
| DecoderOa.OaDecoder.Count | src/decoderOA.c:122 | a ready decoder counts one more packet and stays correct for X |
| DecoderOa.AccumulatePrefix | src/decoderOA.c:141-150 | only the first size_g coefficients of a packet enter its payload |
| DecoderOa.DotPrefix | src/decoderOA.c:141-150 | each byte of the payload depends only on the first size_g coefficients |
| GlobalMatrix.ZeroRowHolds | src/decoderOA.c:432-435 | a zero row with a zero message is an equation of any packets |
| GlobalMatrix.CheckRows | src/decoderOA.c:424-455 | numpp + aoh rows over numpp packets, zero except row snum + aoh + i, which has 1 at the sources of check i and at column snum + i, and zero messages; every row is an equation of packets whose checks are the sums of their sources |
| GlobalMatrix.CheckRowsHold | src/decoderOA.c:444-455 | the check rows and the zero rows are equations of packets whose checks are the sums of their sources |
| GlobalMatrix.PivotedShape | src/decoderOA.c:490-492 | a matrix made of a diagonal active block and an upper-triangular inactive corner is in pivoted form |
| GlobalMatrix.PivotGdm | src/decoderOA.c:490-498 | the GDM ends in pivoted form with the returned inactive count, otoc and ctoo inverse permutations, global_DoF the nonzero diagonal entries of the first numpp rows, and rows that were equations of X are equations of X in column order |
| GlobalMatrix.PivotRows | src/decoderOA.c:490-492 | the in-place pivoting leaves the rows in pivoted form, otoc the inverse of the column order, and equations of X equations of X in that order |
| GlobalMatrix.GlobalVector | src/decoderOA.c:185-190 | the vector placed through otoc is the vector of the packet's coefficients at its packets' positions, read in column order |
| GlobalMatrix.CodedInColumnOrder | src/decoderOA.c:185-190 | a packet coded from distinct packets of X is, read in column order, an equation of X in column order |
| GlobalMatrix.ActiveStep | src/decoderOA.c:202-208 | at an active column the shortcut that updates only the inactive part and clears entry m gives the vector of a full elimination from m |
| GlobalMatrix.ReduceAt | src/decoderOA.c:198-214 | one elimination step at a column with a row clears that entry, keeps the entries before it and leaves the rest of the reduction unchanged; an equation stays an equation |
| GlobalMatrix.ReduceGlobal | src/decoderOA.c:195-221 | the loop is the reduction ReduceFrom against the GDM: zeros before the pivot, a pivot only at an inactive column without a row with a nonzero entry, and an equation stays an equation |
| GlobalMatrix.StoreGlobal | src/decoderOA.c:195-226 | the reduced vector is stored at the pivot, one more nonzero diagonal entry, pivoted form kept, or nothing changes; GDM rows stay equations of X in column order |
| GlobalMatrix.InactiveCorner | src/decoderOA.c:296-300 | the inactive corner is the square of rows and columns from na to numpp |
| GlobalMatrix.CornerHolds | src/decoderOA.c:296-305 | the inactive corner with its messages is a system the inactive packets solve |
| GlobalMatrix.SolveInactive | src/decoderOA.c:296-315 | the messages of the inactive rows become exactly the inactive packets; the other messages stay |
| GlobalMatrix.BackSolve | src/decoderOA.c:303-305 | back substitution on an upper-triangular corner with a nonzero diagonal returns the one solution of the system |
| GlobalMatrix.ClearKnown | src/decoderOA.c:333-341 | clearing an entry whose packet is known, and adding that packet to the message, keeps an equation an equation |
| GlobalMatrix.ScaledToUnit | src/decoderOA.c:344-349 | a row with a single nonzero entry, scaled by its inverse, is the unit row |
| GlobalMatrix.ClearActiveRow | src/decoderOA.c:333-349 | an active row becomes the unit row and its message the packet of its column, once the inactive packets are known |
| GlobalMatrix.ActiveRowsHold | src/decoderOA.c:327-358 | in pivoted form every active row, read whole, is an equation of X in column order |
| GlobalMatrix.SaveInactive | src/decoderOA.c:308-315 | each inactive column's message is recorded at its packet |
| GlobalMatrix.RecoverActive | src/decoderOA.c:326-358 | the active rows become unit rows and every column's message is recorded at its packet; these are the packets of X when the rows were equations and the inactive packets known |
| GlobalMatrix.DiagonalizeGdm | src/decoderOA.c:280-361 | with numpp nonzero diagonal entries, the active rows become unit rows, pivoted form is kept, and pp is exactly X when the GDM rows were equations of X in column order |
| GlobalMatrix.InactiveSolved | src/decoderOA.c:296-319 | after the inactive solve the active rows stay equations and the inactive messages are the inactive packets |
| GlobalMatrix.FullDiagonal | src/decoderOA.c:228-230 | when global_DoF equals numpp every diagonal entry is nonzero |
| GlobalMatrix.UnitsKeepForm | src/decoderOA.c:326-358 | unit active rows with the inactive corner unchanged keep pivoted form and the full count |
| GlobalMatrix.UnreorderedVia | src/decoderOA.c:352-357 | messages recorded through ctoo, each the packet of its column, give back the packets in packet order |
| GlobalMatrix.RemapInactive | gncOADecoder.c:597-608 | the inactive tail of ctoo is put in the second round's column order, the active prefix stays, and otoc is rebuilt as its inverse |
| GlobalMatrix.RemappedPermutation | gncOADecoder.c:597-604 | reordering the tail of a permutation by a permutation gives a permutation |
| GlobalMatrix.InverseOver | gncOADecoder.c:606-608 | setting otoc[ctoo[i]] = i for every column makes otoc the inverse of ctoo |
| GlobalMatrix.PivotsActive | gncOADecoder.c:640-647 | in pivoted form the nonzero diagonal entries are the na active columns plus those of the inactive corner |
| GlobalMatrix.CornerDoF | gncOADecoder.c:640-647 | numpp less the zero diagonal entries of the inactive corner is the number of nonzero diagonal entries of the first numpp rows |
| GncDecoderOa.IdentityInverses | gncOADecoder.c:111-117 | the identity otoc and ctoo are each other's inverse |
| GncDecoderOa.AllocatedHolds | gncOADecoder.c:98-131 | every row of the GDM as allocated is an equation of packets whose checks are the sums of their sources |
| GncDecoderOa.Allocate | gncOADecoder.c:43-131 | zero local matrices with no pivot per generation, and the GDM allocated with the check rows at rows snum + aoh + i and zeros elsewhere |
| GncDecoderOa.GncReady | gncOADecoder.c:189-200 | the local matrices are partially diagonalised and kept, still equations of their members; the GDM allocated at creation is filled and pivoted, and finished exactly when global_DoF reaches numpp; the GDM says of X what the checks and local rows said, or the packets recovered are X |
| GncDecoderOa.GncOaDecoder.constructor | gncOADecoder.c:43-136 | zeroed local matrices, no DoF, no packet, not ready or finished; the GDM with the check rows in place, and otoc and ctoo the identity, each other's inverse; correct for every X of the right shape |
| GncDecoderOa.GncOaDecoder.StoreLocal | gncOADecoder.c:151-187 | the vector is reduced as ReduceFrom against the local rows and its reduction stored at the pivot, an empty diagonal, adding one pivot, or nothing changes; rows stay equations |
| GncDecoderOa.GncOaDecoder.CountPacket | gncOADecoder.c:140 | one more packet counted |
| GncDecoderOa.GncOaDecoder.BecomeReady | gncOADecoder.c:189-200 | the decoder becomes ready in shape, the local matrices partially diagonalised, finished only with unit active rows and the messages recorded, and what the local rows said of X the GDM says |
| GncDecoderOa.GncOaDecoder.InstallReady | gncOADecoder.c:189-200 | local matrices, GDM, mappings, counts and pp take the given well-formed values |
| GncDecoderOa.GncOaDecoder.SetGdm | gncOADecoder.c:255-263 | the GDM, global_DoF, pp and finished take the given values and the decoder stays in shape and correct for X |
| GncDecoderOa.GncOaDecoder.ProcessGlobal | gncOADecoder.c:211-264 | a locally reduced row is reduced as GlobalReduction against the GDM; no pivot, nothing changes; a pivot, an inactive column without a row, where it is stored with one more global DoF; finished only with unit active rows and the messages recorded |
| GncDecoderOa.GncOaDecoder.TestReady | gncOADecoder.c:189-200 | the decoder becomes ready exactly when local_DoF >= snum and overhead >= snum + aoh, the local matrices then partially diagonalised; otherwise they stay |
| GncDecoderOa.GncOaDecoder.ProcessLocal | gncOADecoder.c:151-201 | before readiness the packet is reduced and stored as LocalReduction says, local_DoF counts it, and the decoder becomes ready exactly when local_DoF >= snum and overhead >= snum + aoh |
| GncDecoderOa.GncOaDecoder.AddLocal | gncOADecoder.c:151-187 | the packet is stored as LocalReduction says and local_DoF counts the stored row, staying within snum + aoh |
| GncDecoderOa.GncOaDecoder.ProcessReady | gncOADecoder.c:202-266 | once ready the packet is stored locally as LocalReduction says without counting local DoF; only a stored row goes on to the GDM, as GlobalReduction says |
| GncDecoderOa.GncOaDecoder.AddReady | gncOADecoder.c:151-209 | the packet is counted and stored as LocalReduction says; a stored row of a coded packet of X is an equation of its members |
| GncDecoderOa.GncOaDecoder.ProcessPacket | gncOADecoder.c:138-272 | one more packet counted and stored locally as LocalReduction says; before readiness local_DoF counts it and the decoder becomes ready exactly when local_DoF >= snum and overhead >= snum + aoh; once ready the column order stays and a stored row goes to the GDM as GlobalReduction says; a coded packet of X keeps the decoder correct for X |

## Left out

- File I/O is not modelled: loading from and recovering to files, and every save and restore of a decoding context. The in-memory equivalents are modelled.
- `rand()` is not modelled. Its values are method parameters.
- The `INTEL_SSSE3` branches of the region operations are an optimisation of the scalar loops, which are modelled.
- `malloc`, `calloc` and `free` are not modelled, and neither are the allocation-failure paths or `fprintf` error messages. Contexts are allocated with `new`.
- Operation counters (`operations`, `ops1` to `ops3`), `GNCTRACE` and `TRACE` printing, and timing are left out. They do not affect the results.
- Floating point: `number_of_checks` is restated in integer arithmetic (`Primes`). Overhead and cost ratios are left out.
- Environment variables are not modelled.
- The SNC encoder's check count comes from `number_of_checks(snum, pcrate)`, which is not part of this model. `SncEncoder.Sizing` therefore takes `cnum` as a parameter.
- `get_bit_in_array` and `set_bit_in_array` are not part of this model. `Packets.GetBit` and `Packets.SetBit` assume bit i of byte i / 8, least significant bit first.
- `include_left_node` never sets an edge coefficient. The precode is taken as binary: every edge has coefficient 1.
- GG decoder: `DecoderGg` models `src/decoderGG.c` only. The GNC variant `src/gncGGDecoder.c` is not modelled, and it differs in four ways: its `perform_iterative_decoding` (`src/gncGGDecoder.c:246-267`) does not leave the loop once decoding has finished; its `new_decoded_source_packet` (`src/gncGGDecoder.c:271-301`) goes on unlinking the source from its checks after setting `finished`; its `check_for_new_recoverables` copies the evolving buffer without dividing by the edge coefficient `ce`; and a matrix's erased members are one `FLAGS` word (`unsigned long`, `src/decoderGG.h:9`), so a size_g above the word width shifts past it, where `src/decoderGG.c` uses a byte array of bits.
- GG decoder: a NULL evolving buffer is modelled as a buffer of zeros. The packet is masked in a copy rather than in place. `perform_iterative_decoding` is split into the methods `ApplyRecent`, `DecodeNext` and `DecodeAndRepeat`, one per part of its loop.
- DecoderGg.GgDecoder.CheckForNewRecoverables: the coefficient `ce` read from a check's edge (`src/decoderGG.c:438-445`) is taken as 1, since `include_left_node` never sets one and the precode is binary.
- DecoderGg.GgDecoder.Create: requires `cnum > 0` and a code type of RAND, BAND or WINDWRAP. With no checks `create_context_from_meta` builds no precode graph (`src/sncEncoder.c:204-211`), yet `new_decoded_source_packet` dereferences it (`src/decoderGG.c:359`); with any other type the generations are never grouped (`src/sncEncoder.c:194-199`), yet the decoder reads their packet ids.
- OA decoders: the pivoting of the GDM is modelled by the one-round inactivation pivoting of `GlobalMatrix.PivotGdm`. This covers `pivot_matrix_tworound` (`src/decoderOA.c:490-492`) and, in `construct_GDM_inactivation` (`gncOADecoder.c:455-647`), `Inactivation_pivoting`, `Zlatev_pivoting`, `matrices_reordering`, `permute_matrix_columns`, the partial diagonalisation and the second round. The model keeps the form they leave: a diagonal active block and an upper-triangular inactive corner. It also keeps the inverse mappings and the DoF count. It does not keep the particular column order or inactive count that these routines choose.
- Second pivoting round: `GlobalMatrix.RemapInactive` and `GlobalMatrix.CornerDoF` model the remap and the count that follow the second round (`gncOADecoder.c:597-608` and `640-647`). They are proved on their own and not called by `GncDecoderOa`, which takes the count from `PivotGdm`. `CornerDoF` shows that the two counts agree on the pivoted form.
- GncDecoderOa: `construct_GDM_inactivation` writes back only the first numpp rows of the pivoted copy (`gncOADecoder.c:650-663`), so its last aoh GDM rows keep their values from before pivoting. The model pivots all numpp + aoh rows. Only the first numpp rows are read afterwards, by the ready branch and by `finish_recovering_inactivation`.
- GncDecoderOa: the per-generation `matrix->overhead` counter (`gncOADecoder.c:154`) is not modelled, because nothing reads it.
- DecoderOa: `construct_GDM` frees the local matrices (`src/decoderOA.c:483-488`). The model sets them to empty sequences. The no-op comparison `dec_ctx->Matrices[i] == NULL` at line 485 has no effect and is not modelled.
- OA decoders: the recovered packets `pp` start as empty slots, with no packet. The "already recovered" warning of `src/decoderOA.c:353-354` and the `calloc` of each slot are not modelled.
- GncEncoder.GncContext.EncodePacket: requires GroupsInRange, that every generation entry is a packet index. The sizes verify_code_parameter accepts as written do not guarantee it (`src/gncEncoder.c:159-162`): with the sizes of `GncEncoder.BandIndexBelowZero` or `GncEncoder.RandIndexBelowZero` (`src/gncEncoder.c:326-332`) the source reads `pp[-1]` or `pp[-2]` at `src/gncEncoder.c:413-416`, outside the buffers. `GncEncoder.IntendedBandInRange` shows the intended check rules this out for band codes.
- GncEncoder.GncContext.GeneratePacket: requires GroupsInRange for the same reason; it calls encode_packet on the scheduled generation.
- GncLegacyEncoder.LegacyContext.EncodePacket: requires that every packet id of the generation names a loaded packet (`Covers`). The older file validates nothing, and its `group_packets` (`gncEncoder.c:188-197`) has no magicX bound. With at most size_p bytes of data, size_b 1 and size_g 2, number_of_checks gives 4 checks, and generation 0 gets the ids [0, -2] (`GncLegacyEncoder.NegativeIndex`). The source then writes `selected[-2]` at `gncEncoder.c:197` and reads `pp[-2]` in `encode_packet` (`gncEncoder.c:237-249`), outside the buffers.
- GncLegacyEncoder.LegacyContext.GeneratePacket: requires `Covers` on the scheduled generation for the same reason; it calls encode_packet on that generation, and with the sizes above generation 0 names packet -2.
- GncDecoderCbd.GncCbdDecoder.ProcessPacket: requires size_g <= snum + cnum. Without it the band grouping starts generation 0 at a negative packet (`GncEncoder.BandInRangeIff`, `src/gncEncoder.c:159-162` and `352-370`), and the scatter of the coefficients (`src/gncCBDDecoder.c:82-85`) writes before the start of `ces`.
- DecoderOa.OaDecoder.ProcessPacket: requires at least size_g coefficient bytes; it reads size_g of them as written, which would overrun the ALIGN(size_g, 8)-byte coefficient buffer of a binary code, so binary codes are excluded.
- BD decoder: the pivoting at the precode is `pivot_matrix_oneround` (`PivotRounds.PivotMatrixOneRound`, the `SNC_BD_ONEROUND` build). The default two-round pivoting is modelled in `PivotTwoRound` but not wired into `DecoderBd`, because it relies on `zlatev_pivoting`, whose internals are not modelled. `ctoo` is the inverse of the `otoc` map `src/pivoting.c` fills; `src/decoderBD.c:293-299` passes `ctoo_r` and `ctoo_c`, which does not match that function's signature.
- The internals of `zlatev_pivoting` (`src/pivoting.c:466-728`) are not modelled. It only chooses a fill-reducing order for the inactive corner: which row and column to take as the next pivot. `PivotTwoRound.SecondRound` takes the row and column pivot lists it returns as parameters, and is proved correct for any such lists that are permutations: the corner keeps its solutions and the column maps stay inverse. The model does not prove that the lists are permutations. On its partial path (`src/pivoting.c:598-634`) zlatev pads the columns counted zero and as many rows counted zero. That gives a permutation only when every unpivoted column is counted zero and enough rows are. No decoder in the model calls the two-round driver: `DecoderBd` uses the one-round driver and the OA decoders use `GlobalMatrix.PivotGdm`, so no decoder theorem rests on this.
- The thin dispatchers `src/sncDecoder.c` and `src/slncDecoder.c`, the drivers under `examples/` and `python/`, and the test programs are not modelled.
- Recoder.RecodeBuffer.BufferPacket: requires a packet with exactly size_g coefficient bytes, so packets of binary codes, which carry ALIGN(size_g, 8) bytes, are excluded. `snc_recode_packet` (`src/sncRecoder.c:96-100`) reads size_g coefficient bytes of every buffered packet, which would overrun that shorter buffer; `Recoder.Recoded` and `Recoder.RecodeBuffer.RecodePacket` make the same assumption.
- CompactRows.ApplyChecks: the parity vector sums the edge coefficients of repeated listings, the corrected form; `src/decoderCBD.c:217-221` assigns them (see the `src/decoderCBD.c:217-221` row under Findings).
- DecoderCbd.CbdDecoder.ApplyParityCheckMatrix: builds the summed parity vector rather than the assigned one of `src/decoderCBD.c:217-221` (see the same row under Findings).
- GncDecoderCbd.GncCbdDecoder.ApplyParityCheckMatrix: builds the summed parity vector rather than the assigned one of `src/gncCBDDecoder.c:190-194` (see the `src/decoderCBD.c:217-221` row under Findings).
- DecoderBd.ApplyParity: builds the summed parity vector rather than the assigned one of `src/decoderBD.c:282-287` (see the `src/decoderCBD.c:217-221` row under Findings).
- DecoderPp.StoreForward: states that a stored row is an equation of X, that nothing changes when the packet is dropped, and where the row goes; it does not state that a dropped packet was a combination of the stored rows. The wrap-around reduction of `src/decoderPP.c:99-129` moves its pivot cyclically, so the triangular span argument of `CompactRows.ReducedSpan` does not apply. The full-length reduction of FinalForward is stated exactly by `DecoderPp.StoreFinal`.
- DecoderPp.ReduceForward: the Forward reduction loop is bounded at numpp passes and reports -1 when the bound is reached. As written, the loop can run for ever (see Findings).
- DecoderPp.PpDecoder.Create: for a code that is not window-wrap or has checks, the source calls `exit(1)`; the model returns null.
- DecoderPp.PpDecoder.ForwardPacket: the source reduces the packet's payload in place; the model reduces a copy, so the packet is not changed.
- DecoderPp.PpDecoder.ProcessPacket: a packet that arrives after decoding finished re-runs `finish_recovering_PP`, as written. The contract only says the decoder stays finished and consistent.
- GncDecoderCbd.GncCbdDecoder.Create: for a code that is not a band code, the source returns and leaves the context uninitialised; the model returns null.
- Galois.Field.ConstructField: a failing table build calls `exit(1)` in the source; the model returns `ok == false`, which is proved never to happen for GF(2^8).
- The static tables of `src/galois.c` (`galois_log_table`, `galois_ilog_table`, `galois_mult_table`, `galois_divi_table`, `src/galois.c:8-11`) are `seq<bv8>` fields, not arrays: the builders compute each table as a new sequence and assign it to the field, so writing one table cell at a time in place is not modelled. Nothing else points into these tables, so no aliasing is lost.
- Gaussian: the operation count each routine returns is not modelled.

## Findings

| source | as written | input that shows it | evidently intended | confidence | as-written member | corrected member |
|---|---|---|---|---|---|---|
| src/gncEncoder.c:326-332 | the borrowed entries of random grouping start at generation i - (j - size_b + 7), wrapped once by num_g; without the magicX bound of src/sncEncoder.c:357-358 the start can stay negative, and C's `%` keeps the sign | num_p = num_g = 5, size_b = 1, size_g = 2: entry 1 of generation 0 is packet -2 | every entry a packet index in 0 .. num_p - 1, as the magicX bound gives in src/sncEncoder.c | high; not executed | Grouping.GncRandNegativeIndex | Grouping.SncRandGenerationValid |
| gncEncoder.c:188-197 | the older group_packets runs the same loop as src/gncEncoder.c's group_packets_rand, also without the magicX bound, and the older context validates nothing | datasize <= size_p, size_b 1, size_g 2: number_of_checks gives 4, num_p = num_g = 5, and generation 0 gets the ids [0, -2]; `selected[-2]` is written (line 197) and `pp[-2]` later read | every entry a packet index in 0 .. num_p - 1, as the magicX bound gives in src/sncEncoder.c | high; not executed | GncLegacyEncoder.NegativeIndex | Grouping.SncRandGenerationValid |
| src/gncEncoder.c:447-450 | `while (!is_prime(c++))` increments once more on the accepted value, so number_of_checks returns one past the prime it found | snum = 1: the search starts at 3, accepts 3 and returns 4, which is not prime | the prime found | high; not executed | Primes.ChecksAsWrittenOffByOne | Primes.NumberOfChecksFixed |
| src/gncEncoder.c:159-162 | verify_code_parameter checks size_b * size_p against datasize, so size_g may exceed the packet count | datasize 10, size_p 10, size_b 1, size_g 6, band code: accepted, and band generation 0 starts at packet -1 | size_g * size_p <= datasize, as in src/sncEncoder.c:148-162 | high; not executed | GncEncoder.BandIndexBelowZero | GncEncoder.IntendedBandInRange |
| galois.c:17-34 | constructField guards itself with a function-local static that shadows the file-level flag, so GFConstructed never reports the field as built | constructField(8) followed by GFConstructed() gives 0 | 1 once the field is built, as src/galois.c:26-34 does | high; not executed | GaloisLegacy.ShadowedFlag | GaloisLegacy.ReportedFlag |
| src/gncRecoder.c:98-116 | schedule_recode_generation has no MLPI branch and ends without a return value for any type but TRIV and RAND | sched_t = MLPI_SCHED | MLPI scheduling as src/sncRecoder.c:154-166 does it | high; not executed | Recoder.RecodeBuffer.ScheduleGncAsWritten | Recoder.RecodeBuffer.ScheduleGnc |
| src/decoderCBD.c:217-221 | the parity vector assigns the edge coefficient at each listed neighbour, while precoding adds the neighbour once per listing; a check that lists a source twice gets a vector its packets do not satisfy | snum = 1, cnum = 2: check 0 lists source 0 twice, its packet is 0, but the parity vector has 1 at source 0, so the decoder would recover source 0 as 0 | the coefficients added per listing, so the vector is an equation of the packets (src/gncCBDDecoder.c:183-199 is the same) | medium; not executed | Decoding.ParityRowAsWrittenFails | Decoding.ParityRowEquation |
| src/decoderPP.c:111-133 | the Forward reduction loop runs while the candidate pivot holds a row; two stored rows for the same vector can send the candidate between their pivots for ever | window-wrap, numpp 4, size_g 3, size_b 1: packets of generations 0, 1 and 3 with coefficients 1 0 0, 1 0 1 and 1 0 1 stored at 0, 1 and 3, then a packet of generation 1 with coefficients 1 0 0 | the loop ends, with the packet stored or discarded | medium; not executed | DecoderPp.ForwardCycles | DecoderPp.ReduceForward |
