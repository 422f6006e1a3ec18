# Verified model of the graph accelerator's host software

The repository holds the host side of an FPGA graph accelerator together with the
arithmetic headers its kernels are written against.  This project models seven parts
of it and proves what they are for.

* **Fixed-point registers** (`Bits`, `FixedSpec`, `FixedFlags`, `ApFixed`, `Doubles`,
  `ToDouble`, `DoubleTheorems`, `DoubleLaws`, `FixedArith`).  `ap_fixed_base` converts between types of
  any width by shifting, adding a rounding bit and deciding overflow from patterns of the
  bits that are dropped.  The specification has no bits in it: the exact value is rounded
  in one of seven modes (`IsRounded` says what a mode means, without computing) and brought
  into the range of the target (`IsLimited` says what that means, also without computing).  `ApFixed.Fixed` follows the source's branches on a field
  `v`, an unbounded integer that is kept in register range by explicit wrapping, and is
  proved to store what the specification says for all widths, signs, binary points,
  rounding modes and saturation modes.  Doubles are 64-bit patterns; both conversions are
  proved, and so is the trip through both.
* **Cube root** (`Cbrt`).  The digit recurrence keeps root, square and remainder in
  registers that it reads and writes slice by slice, with a sum, a comparison and a
  subtraction split into two halves.
* **Burst port** (`BurstMaxi`, `BurstLaws`).  The state machine of `hls::burst_maxi`, and the class with
  its queues and counters, over all sequences of operations.
* **Multi-limb arithmetic** (`Limbs`).  The inline functions of `gmp.h` on arrays, in place
  or not.
* **Loading graphs** (`Sorting`, `Rows`, `Blocks`, `Graphs`, `Csr`, `Tiles`, `Relabel`,
  `Reorder`).
  Neighbour lists, compressed rows in both directions, tiles, renumbering by degree, and the
  symmetrised graph without repeated edges.
* **Partitioning** (`Compression`, `Partition`, `GraphInfos`, `Pipeline`).  Leaving out
  vertices without out-edges, sorting each destination interval by source and cutting it
  into padded chunks.  `Pipeline` joins this to the compressed rows: from edge list to
  chunks no edge is lost, added or changed.
* **Two scripts** (`Butterfly`, `Reservoir`).

Numbers with a fixed width in the source are wrapped explicitly wherever the width shows.
The registers of the cube root are integers; every slice that is read or written lies inside
its register (`Cbrt.Get`, `Cbrt.Put`), and what the loop keeps fits (`Cbrt.RegistersFit`).
File contents, random draws and the random-access memory behind a port are parameters.

## Where the code falls short of what it is for

* `ApFixed.StoredMeetsMode`: a signed type of one bit with symmetric saturation stores -1
  for negative numbers, although its symmetric range is just zero.  This is the only
  exception, for every mode, width and number; `ApFixed.OneBitSymmetric` assigns -1.
* `DoubleTheorems.RoundTrip`: a register of at most 53 significant bits survives a trip
  through a double except for the most negative number of a symmetrically saturating type,
  which comes back one larger.  No assignment and no construction from a double stores that
  number (`DoubleTheorems.AssignedSurvives`, `DoubleTheorems.ConstructedSurvives`), but the
  left shift, which does not look at the modes, does: `DoubleTheorems.ShiftedIsExceptional`
  shifts one into the sign of any such type, and `DoubleTheorems.MinusFourReturnsMinusThree`
  is the type of three bits.
* `Partition.SafeExactly`: padding copies the record before it, and so reads in front of the
  chunk's buffer if a chunk begins with padding.  This happens for no chunk if and only if
  the last chunk begins with an edge; `Partition.SafeExamples` shows that one chunk to a
  partition, the default, is safe and that two are not when the edges fit into one.
* `Compression.IndexLeadsBack` and `Partition.EdgesConserved`: a vertex without out-edges
  gets the number of the next vertex kept, so edges are conserved if and only if the sources
  of the kept edges have out-edges.  In `Partition.DeadSourceExample` the edge from vertex 1
  to vertex 0 comes back as one from vertex 2.  `Pipeline.CsrSourcesLive` shows that
  compressed rows of a graph always meet the condition.
* `Relabel.Graph`: `vertexNum` is the largest vertex number there, one less than the number
  of vertices (host/graph_sort/graph.cpp:90-91); the other loaders add one.

## Model

| member | source | states |
|---|---|---|
| FixedSpec.RoundedIsRounded | host/hls_header/ap_fixed_base.h:402-417 | the rounding used as specification is the one its mode describes: floor, truncation, or a nearest integer with the tie going the mode's way |
| FixedSpec.RoundedExactly | host/hls_header/ap_fixed_base.h:402-417 | an integer is the rounding in a mode if and only if it meets the mode's description |
| FixedSpec.ModesAtHalf | host/hls_header/ap_fixed_base.h:402-417 | what each of the seven modes makes of two and a half, minus two and a half, and for convergent rounding three and a half |
| FixedSpec.ExactExactly | host/hls_header/ap_fixed_base.h:702-745 | the exact result of a conversion is the only rounding of the operand's value in the target's units, however that value is written as a fraction of powers of two |
| FixedSpec.LimitedExactly | host/hls_header/ap_fixed_base.h:338-400 | the limited number is the only one that meets the mode: in range and nearest to the given one for both saturations, zero out of range, or in range and congruent for wrap-around |
| FixedFlags.IncrementRounds | host/hls_header/ap_fixed_base.h:404-415 | quotient plus the mode's increment, taken from the first dropped bit, the or of the rest, sign and lowest bit, is the rounded rational |
| FixedFlags.GuardIsSound | host/hls_header/ap_fixed_base.h:747-751 | whenever the condition for looking at overflow at all is false, the rounded value is in the target's range |
| FixedFlags.DecideInside | host/hls_header/ap_fixed_base.h:759-800 | deleted-bit patterns, carry and sign flags decide exactly whether the rounded value is above or below the target's range |
| FixedFlags.DecideBeyond | host/hls_header/ap_fixed_base.h:791-800 | the same when the sign of the source lies inside the target |
| ApFixed.StoredMeetsMode | host/hls_header/ap_fixed_base.h:382-399 | what is stored is the saturation the mode asks for, if and only if the type is not the one-bit symmetric one with a negative number |
| ApFixed.MeetsExactly | host/hls_header/ap_fixed_base.h:697-805 | outside the one-bit symmetric type, what an assignment stores is the only number that meets rounding mode and overflow mode |
| ApFixed.AssignedExactly | host/hls_header/ap_fixed_base.h:697-805 | the same with the operand's value written as any fraction of powers of two |
| ApFixed.CarryOut | host/hls_header/ap_fixed_base.h:403-416 | the old sign bit set and the new one clear tells exactly when the increment left the register |
| ApFixed.AdjustedIsStored | host/hls_header/ap_fixed_base.h:338-400 | the adjusted register is the clamped value when the flags tell above and below range correctly |
| ApFixed.Fixed.OverflowAdjust | host/hls_header/ap_fixed_base.h:338-400 | new content for every flag and mode: zero, largest, smallest or symmetric smallest |
| ApFixed.Fixed.QuantizationAdjust | host/hls_header/ap_fixed_base.h:402-417 | adds the mode's increment to the register and reports the carry out of it |
| ApFixed.Fixed.DetectOverflow | host/hls_header/ap_fixed_base.h:752-800 | the flags computed from slices of the source are exact |
| ApFixed.Fixed.Assign | host/hls_header/ap_fixed_base.h:697-805 | assignment stores the exact value rounded in the target's mode and clamped, or wrapped, for all types on either side, and outside the one-bit symmetric type the only number the two modes allow; the operand keeps its content |
| ApFixed.OneBitSymmetric | host/hls_header/ap_fixed_base.h:382-399 | the one-bit symmetric type keeps minus one, where the mode asks for zero |
| ApFixed.Fixed.Shl | host/hls_header/ap_fixed_base.h:1350-1352 | a left shift wraps the shifted content and looks at no mode |
| Doubles.SplitRange | host/hls_header/ap_fixed_base.h:633-657 | the tests on the shifted significand agree with tests on a slice one bit longer |
| Doubles.WordConstructs | host/hls_header/ap_fixed_base.h:563-678 | the word with sign, exponent e and fraction frac constructs the only rounding and clamping of plus or minus (2^52 + frac) * 2^(e - 1075); both zeros give zero |
| Doubles.FromDouble | host/hls_header/ap_fixed_base.h:563-678 | construction from a double, with shift amounts known only at run time, stores what the fields of the word stand for, written in the numbers of the format, rounded and clamped; both zeros give zero |
| ToDouble.GuardBitRounds | host/hls_header/ap_fixed_base.h:947-965 | adding the one guard increment and halving is rounding to nearest, ties to even, of the magnitude |
| ToDouble.CarryBit | host/hls_header/ap_fixed_base.h:967-970 | the bit tested for the exponent's increment is set exactly when rounding reached the next power of two |
| ToDouble.ToDouble | host/hls_header/ap_fixed_base.h:932-978 | the word returned is the encoding of sign, exponent and fraction of the rounded magnitude, for every width, and the word zero for zero |
| DoubleTheorems.EncodingDecodes | host/hls_header/ap_fixed_base.h:971-977 | in the normal range decoding the word gives back sign, significand and scale |
| DoubleTheorems.ToDoubleIsNearest | host/hls_header/ap_fixed_base.h:930-978 | no double with any exponent is nearer to the register's value, and on a tie the chosen significand is even |
| DoubleLaws.EncodingIsWord | host/hls_header/ap_fixed_base.h:971-977 | in the normal range the word is the sum of its three fields, with an exponent between 1 and 2046 |
| DoubleLaws.WordIsNearest | host/hls_header/ap_fixed_base.h:932-978 | no double is nearer to the register's value than the one the word's fields stand for, and on a tie the fraction is even |
| DoubleLaws.PowerIsWord | host/hls_header/ap_fixed_base.h:945-977 | a register holding plus or minus 2^k is converted to the word with exponent k + 1023 and fraction zero |
| DoubleLaws.NormalExactly | host/hls_header/ap_fixed_base.h:946-970 | a value is in the normal range if and only if its magnitude is at least (2^54 - 1) * 2^-1076 and less than (2^54 - 1) * 2^970 |
| DoubleTheorems.RoundTrip | host/hls_header/ap_fixed_base.h:563-678 | converting a register of at most 53 significant bits to a double and back is the identity, if and only if it is not the most negative number of a symmetric type, which comes back one larger |
| DoubleTheorems.AssignedSurvives | host/hls_header/ap_fixed_base.h:697-805 | what an assignment stores fits the register and survives the trip, in every mode and without exception |
| DoubleTheorems.ConstructedSurvives | host/hls_header/ap_fixed_base.h:563-678 | so does what a construction from a double stores |
| DoubleTheorems.ShiftedIsExceptional | host/hls_header/ap_fixed_base.h:1350-1352 | shifting one into the sign of a symmetric type of any width leaves the number that does not survive |
| DoubleTheorems.MinusFourReturnsMinusThree | host/hls_header/ap_fixed_base.h:563-678 | in three bits -4 comes back as -3 |
| DoubleTheorems.ThereAndBack | host/hls_header/ap_fixed_base.h:932-978 | the two conversions called one after the other restore the content, in every mode, with the same exact exception |
| FixedArith.PlusExact | host/hls_header/ap_fixed_base.h:1233-1245 | the result type chosen for + (lines 173-177) holds every sum exactly, for all mixes of signs and binary points |
| FixedArith.MinusExact | host/hls_header/ap_fixed_base.h:1233-1246 | the same for differences, whose type (lines 178-183) is always signed |
| FixedArith.MultExact | host/hls_header/ap_fixed_base.h:1163-1173 | the same for products, taken in place in the result register |
| FixedArith.PlusTypeLeast | host/hls_header/ap_fixed_base.h:173-177 | the sum's type has one integer bit more than the least that hold every content of both operands with its sign, and the least fractional bits that hold both units |
| FixedArith.MinusTypeIs | host/hls_header/ap_fixed_base.h:178-183 | the difference's type is the sum's, signed |
| FixedArith.SumNeedsAll | host/hls_header/ap_fixed_base.h:173-177 | with operands of one type some sum does not fit a type one bit narrower |
| FixedArith.DifferenceNeedsAll | host/hls_header/ap_fixed_base.h:178-183 | nor some difference |
| FixedArith.ProductNeedsAll | host/hls_header/ap_fixed_base.h:170-172 | nor some product, for two bits or more |
| FixedArith.SpelledTogether | host/hls_header/ap_fixed_base.h:1787-1795 | digits are read in tens, those behind weighing less |
| FixedArith.DecimalFraction | host/hls_header/ap_fixed_base.h:1785-1795 | the digits printed spell the fraction exactly, there are at most as many as fractional bits, and the last is not zero |
| Cbrt.TrialSubtract | host/hls_header/hls_cbrt_apfixed.h:101-110 | the split compare and the subtraction with borrow are the comparison and subtraction of the whole numbers |
| Cbrt.SquareUpdate | host/hls_header/hls_cbrt_apfixed.h:116-123 | the carry passed between two slices makes the square register the square of the new root |
| Cbrt.TrialIs | host/hls_header/hls_cbrt_apfixed.h:88-93 | low sum, its two carry bits and the high sum together are the trial product |
| Cbrt.RegistersFit | host/hls_header/hls_cbrt_apfixed.h:63-65 | the root, its square and the remainder fit the registers declared for them in every iteration |
| Cbrt.Step | host/hls_header/hls_cbrt_apfixed.h:66-124 | one step keeps root, square and remainder related, takes the bit exactly when it fits, and finds the slices empty that the source asserts to be |
| Cbrt.RootBits | host/hls_header/hls_cbrt_apfixed.h:62-132 | after all steps the root's cube is at most the argument and the next cube above it |
| Cbrt.DropGuardBit | host/hls_header/hls_cbrt_apfixed.h:139-143 | halving the root with its guard bit still brackets the argument |
| Cbrt.RoundRoot | host/hls_header/hls_cbrt_apfixed.h:139-143 | the small number added before the last narrowing never changes the result |
| Cbrt.FabsFixed | host/hls_header/hls_round_copysign_apfixed.h:176-181 | absolute value in a register one bit wider |
| Cbrt.CbrtFixed | host/hls_header/hls_cbrt_apfixed.h:42-146 | the cube root truncated towards zero in the last place, with the sign of the argument, fitting its type; zero for types too wide |
| Cbrt.CubeRootIsUnique | host/hls_header/hls_cbrt_apfixed.h:42-146 | only one number meets the bounds proved of the result |
| BurstMaxi.OverlapIsExact | host/hls_header/hls_burst_maxi.h:114-116 | the guard's test is true if and only if two bursts share an address |
| BurstMaxi.AcceptsExactly | host/hls_header/hls_burst_maxi.h:49-110 | an operation is refused only for an empty burst, a read of addresses with a write in flight, a write to addresses still to be read, or data or a response without a request |
| BurstMaxi.WriteStores | host/hls_header/hls_burst_maxi.h:91-97 | an accepted write changes the enabled bytes of one word to those of its value and nothing else |
| BurstMaxi.StepKeeps | host/hls_header/hls_burst_maxi.h:49-110 | every accepted operation keeps the port valid, keeps queued reads apart from queued and unacknowledged writes, and keeps delivered plus pending words equal to what was promised |
| BurstMaxi.StepKeepsWrites | host/hls_header/hls_burst_maxi.h:76-104 | written plus outstanding addresses are those planned by the requests, in order |
| BurstMaxi.StepKeepsBursts | host/hls_header/hls_burst_maxi.h:76-110 | acknowledged, finished and unfinished bursts are the requested ones in order |
| BurstMaxi.RunsAreOrderly | host/hls_header/hls_burst_maxi.h:49-110 | in every run of any operations that is not aborted, reads return what memory held when their requests were accepted, burst after burst, an acknowledged write burst is completely written, and memory is the first memory with the program's words merged in under their masks, in order, at the addresses written |
| BurstMaxi.StepMemory | host/hls_header/hls_burst_maxi.h:88-97 | a write changes one word of memory, in the bytes its mask enables, and no other operation changes memory |
| BurstMaxi.BurstPort.constructor | host/hls_header/hls_burst_maxi.h:36-47 | a new port has no requests |
| BurstMaxi.BurstPort.ReadRequest | host/hls_header/hls_burst_maxi.h:49-62 | performs the state machine's read request, accepted exactly if it is not empty and has no address in common with a write queued or not acknowledged |
| BurstMaxi.BurstPort.Read | host/hls_header/hls_burst_maxi.h:64-74 | returns the word of memory the oldest request has come to, if there is one, and performs the state machine's read |
| BurstMaxi.BurstPort.WriteRequest | host/hls_header/hls_burst_maxi.h:76-86 | performs the state machine's write request, accepted exactly if it is not empty and has no address in common with a queued read |
| BurstMaxi.BurstPort.Write | host/hls_header/hls_burst_maxi.h:88-104 | stores the enabled bytes of the value at the word the oldest request has come to, changes no other byte, and performs the state machine's write |
| BurstMaxi.BurstPort.WriteResponse | host/hls_header/hls_burst_maxi.h:106-110 | performs the state machine's acknowledgement |
| BurstLaws.TraceOf | host/hls_header/hls_burst_maxi.h:49-110 | every run that is not aborted is a chain of accepted operations from a fresh port |
| BurstLaws.DeliveredWord | host/hls_header/hls_burst_maxi.h:49-74 | word j of a requested burst is what memory held at that address when the request was accepted, and comes with the read that as many requested words precede |
| BurstLaws.WrittenAddress | host/hls_header/hls_burst_maxi.h:76-104 | the word that as many announced words precede is written to word j of the requested burst |
| BurstLaws.ReadsApart | host/hls_header/hls_burst_maxi.h:49-86 | at no time does a queued read share an address with a write queued or not acknowledged |
| BurstLaws.ByteIsLastWritten | host/hls_header/hls_burst_maxi.h:88-97 | after any run each byte of memory is the last one written to it with its byte enabled, or the first one if there was none |
| Limbs.PassCarry | host/hls_header/gmp.h:2021-2030 | passes a carry or borrow up and stops at the first limb that absorbs it |
| Limbs.AddOrSub | host/hls_header/gmp.h:2006-2045 | sum or difference of numbers of different lengths with its carry, in place or not, limbs beyond untouched |
| Limbs.AddOrSub1 | host/hls_header/gmp.h:2073-2108 | the same for a single-limb operand |
| Limbs.MpnAdd | host/hls_header/gmp.h:2223-2229 | sum and carry account for both operands, in numbers |
| Limbs.MpnSub | host/hls_header/gmp.h:2262-2268 | difference and borrow |
| Limbs.MpnAdd1 | host/hls_header/gmp.h:2236-2242 | the sum with a single limb |
| Limbs.MpnSub1 | host/hls_header/gmp.h:2275-2281 | the difference with a single limb |
| Limbs.ValueLowFirst | host/hls_header/gmp.h:2006-2045 | limbs weigh powers of 2^64, the lowest first |
| Limbs.Cmp | host/hls_header/gmp.h:2162-2182 | the sign of the difference of the numbers |
| Limbs.FirstDifference | host/hls_header/gmp.h:2162-2182 | the highest limb that differs decides the comparison of the numbers |
| Limbs.ValueInjective | host/hls_header/gmp.h:2006-2045 | limbs are determined by the number they denote |
| Limbs.ThereAndBack | host/hls_header/gmp.h:2223-2282 | subtracting what was added in place restores the limbs and borrows exactly if the addition carried, and the other way round |
| Graphs.BuildLists | host/gp/graph.cpp:71-90 | the loader's lists hold the lines of the file in order, in both directions, and the degrees are their lengths |
| Graphs.MaxIndex | host/gp/graph.cpp:31-41 | the largest index of the file: it stands in some line and no index exceeds it |
| Graphs.CountsExactly | host/gp/graph.cpp:66 | the vertex count is the least number that holds every line |
| Graphs.OutListIsLines | host/gp/graph.cpp:76-85 | the out-list of a vertex has one entry for each line that leaves it or, undirected, enters it: the other end, in the order of the lines |
| Graphs.InListIsLines | host/gp/graph.cpp:76-85 | the same for the in-list |
| Graphs.ArcCountIsLines | host/gp/graph.cpp:76-85 | the number of arcs between two vertices is the number of such lines |
| Graphs.ListsAreDual | host/gp/graph.cpp:76-85 | out-lists and in-lists give every pair of vertices the same number of arcs |
| Graphs.UndirectedLists | host/graph_reorder/graph.cpp:99-108 | in an undirected graph the two lists of a vertex are permutations of each other |
| Csr.CSR.constructor | host/gp/graph.cpp:93-119 | row pointers and columns hold the sorted lists of all vertices, of which there are as few as hold the file |
| Csr.CsrIsTheGraph | host/gp/graph.cpp:93-119 | rows are increasing permutations of the lists, agree in both directions on every pair, the pointers start at zero and the last ones count all arcs |
| Csr.ArcsAre | host/gp/graph.cpp:76-85 | every line is an arc, and in an undirected graph every line but a loop is another |
| Tiles.CSR_BLOCK.constructor | host/gp/graph.cpp:166-207 | the tile holds its rows restricted to its columns, with their pointers and properties |
| Tiles.WindowCount | host/gp/graph.cpp:195-199 | a tile's row holds exactly the entries of the row in the column range, as often |
| Tiles.RowOfBlock | host/gp/graph.cpp:186-205 | a block's row, read through the block's own pointers, is the window of the graph's row on the block's columns |
| Tiles.BlocksGiveRow | host/gp/graph.cpp:166-207 | the blocks of a block row, read through their pointers and put side by side, give back each row of the compressed graph in order |
| Tiles.BlocksHoldAllEdges | host/gp/graph.cpp:202-206 | the edgeNum fields of all blocks add up to the last row pointer of the compressed graph |
| Tiles.OneBlock | host/gp/graph.cpp:180-184 | every vertex lies in exactly one block of columns |
| Tiles.ArcInOneBlock | host/gp/graph.cpp:166-207 | of the blocks of a block row, the one of column block v / size holds the arc from u to v as often as the graph, the others not at all |
| Relabel.SortIndexesProps | host/graph_sort/graph.cpp:14-29 | the order is a permutation of the indices, decreasing by entry, equal entries in increasing order |
| Relabel.Renumber | host/graph_sort/graph.cpp:137-145 | the order and the numbering are inverse to each other |
| Relabel.RenamedLists | host/graph_sort/graph.cpp:163-176 | vertex k of the rebuilt graph has the renumbered neighbours of the vertex it stands for, in the same order |
| Relabel.RenamedArcs | host/graph_sort/graph.cpp:163-176 | renumbering keeps the number of arcs between any two vertices |
| Relabel.Graph.constructor | host/graph_sort/graph.cpp:80-189 | loading in two passes yields degrees and numbering of the file's graph and the lists of the renumbered one; its vertices are as few as hold the file |
| Relabel.LoadedIsIsomorphic | host/graph_sort/graph.cpp:98-182 | the loaded graph is isomorphic to the file's, with out-degrees not increasing and ties in the old order, directed or not |
| Reorder.UniqueProps | host/graph_reorder/graph.cpp:144-152 | removing equal neighbours from a sorted list leaves each entry once |
| Reorder.CSR.constructor | host/graph_reorder/graph.cpp:133-168 | row i holds the tidied, renumbered lists of the vertex in place i, for as few vertices as hold the file |
| Reorder.RowIsNeighbours | host/graph_reorder/graph.cpp:139-163 | row i lists j once if the vertices in places i and j are joined and not at all otherwise |
| Reorder.RowInOrder | host/graph_reorder/graph.cpp:144-159 | the entries of a row come in the order of the old numbers |
| Reorder.CsrIsSymmetrised | host/graph_reorder/graph.cpp:81-164 | both directions are the same arrays, the edge count is twice their length, and membership is symmetric |
| Compression.IndexLeadsBack | host/gp/graph_partition.cpp:70-82 | a vertex's new number leads back to it if and only if it has out-edges |
| Compression.KeptAreLive | host/gp/graph_partition.cpp:71-86 | kept and dropped vertices are in order, told apart by their out-degree, and together all vertices |
| Compression.DegreesOfKept | host/gp/graph_partition.cpp:73-77 | the degrees collected are those of the kept vertices, entry by entry |
| Compression.CompressVertices | host/gp/graph_partition.cpp:66-86 | the vectors filled are the kept vertices, the dropped ones, and the out-degrees of the kept |
| Compression.CompressEdges | host/gp/graph_partition.cpp:95-108 | row pointers, columns and destinations hold the compressed rows |
| Compression.CompressionRestores | host/gp/graph_partition.cpp:95-115 | under the old numbers the compressed edges are, in order, the edges into kept vertices, if and only if all their sources are kept |
| Partition.SortLexicographic | host/gp/graph_partition.cpp:227-229 | inserting edges that come by destination into a multimap by source orders them by source and destination |
| Partition.OrderedProps | host/gp/graph_partition.cpp:222-232 | the edges of a partition are those of its destination interval, sorted |
| Partition.ChunksSuffice | host/gp/graph_partition.cpp:152-155 | chunks are aligned, take all edges, and leave fewer than one alignment unit of padding per chunk |
| Partition.SafeExactly | host/gp/graph_partition.cpp:233-241 | no chunk begins with padding if and only if the last one begins with an edge |
| Partition.SafeExamples | host/gp/graph_partition.cpp:239-241 | one chunk per partition is safe; two are not when the edges fit into one |
| Partition.ChunksHoldOrder | host/gp/graph_partition.cpp:233-255 | the real records of the chunks, one chunk after the other, are the partition's edges in order |
| Partition.EdgesConserved | host/gp/graph_partition.cpp:213-266 | all real records under the old numbers are the edges into kept vertices, as often as in the graph, if and only if all their sources are kept |
| Partition.DeadSourceExample | host/gp/graph_partition.cpp:72-104 | a graph whose dead source makes an edge come back from another vertex |
| Partition.PaddingIsWord | host/gp/graph_partition.cpp:241 | the destination of padding is the end flag less one as a signed word of 32 bits |
| GraphInfos.FillMultimap | host/gp/graph_partition.cpp:227-229 | the multimap holds the partition's edges stably sorted by source |
| GraphInfos.FillChunk | host/gp/graph_partition.cpp:234-257 | the buffer's words are source and destination of the chunk's edges in turn and then padding with the last source, the iterator advances by the edges taken and is never read at its end, and the source spread is that of the chunk |
| GraphInfos.GraphInfo.constructor | host/gp/graph_partition.cpp:63-177 | loading compresses the graph and allocates separate buffers of the right sizes |
| GraphInfos.LoadedFields | host/gp/graph_partition.cpp:63-124 | kept vertices are those whose out-pointers increase, in order, with their degrees; counts are consistent and rounded up to 1024, and the partitions cover the kept vertices with none to spare |
| GraphInfos.LoadedChunks | host/gp/graph_partition.cpp:147-161 | each chunk is described by its destination vertices rounded up to 1024 and has a buffer of two words for each record |
| GraphInfos.GraphInfo.PartitionFunction | host/gp/graph_partition.cpp:213-266 | fills the buffers of all partitions and changes nothing else but the chunks' descriptions |
| GraphInfos.PartitionerConserves | host/gp/graph_partition.cpp:213-266 | conservation, stated of the words in the buffers |
| GraphInfos.ChunkIsSorted | host/gp/graph_partition.cpp:222-258 | in each buffer edges precede padding, are sorted, lie in the destination interval, and sources do not decrease through the padding |
| Pipeline.CsrSourcesLive | host/gp/graph.cpp:93-112 | in compressed rows of a graph every in-neighbour has out-edges |
| Pipeline.ChunksHoldTheGraph | host/gp/graph_partition.cpp:14-266 | from edge list to buffers: the edge from u to v is held as often as the list has the arc if v has out-edges, and not otherwise |
| Pipeline.Prepare | host/gp/graph_partition.cpp:14-266 | from any edge list, with one chunk to a partition, the filled buffers hold every arc into a vertex with out-edges as often as the list has it, with no condition on the chunks |
| Butterfly.ButterflyNetwork | misc/butterfly.py:11-30 | the wires are exactly those to the same node and to the node with the level's bit flipped |
| Butterfly.XorPower | misc/butterfly.py:25-27 | exclusive or with a power of two changes that bit and keeps all others |
| Butterfly.WiresAre | misc/butterfly.py:16-29 | a pair of nodes is wired if and only if the second is one level on and agrees with the first in every bit but the level's |
| Butterfly.ExactlyOnePath | misc/butterfly.py:11-30 | for every n a sequence of nodes is a path from a node of the first level to one of the last if and only if it is the one route that sets the bits level by level |
| Reservoir.Sample | misc/wrs.py:11-17 | the index held is the one whose draw took it and that no later draw replaced |
| Reservoir.ChanceIsShare | misc/wrs.py:13-17 | the product of the lengths of the draws' intervals, for real weights, is the item's share of the total weight |
| Reservoir.VectorsAre | misc/wrs.py:13-15 | the vectors counted are those whose every draw is one of as many numbers as the items so far weigh |
| Reservoir.WinsIsHeld | misc/wrs.py:14-17 | for whole weights the loop's comparison of fractions is a comparison of whole numbers |
| Reservoir.ReturnsCounted | misc/wrs.py:11-17 | of all vectors of equally likely draws, the number for which the loop returns an index, times the total weight, is the index's weight times the number of all vectors |

## Left out

- `ap_fixed_base.h`: division, other radices than ten, parsing from strings, and the proxy classes.
- ApFixed.Fixed.OverflowAdjust: wrap-around with saturated bits (`AP_WRAP` with N > 0) and sign-magnitude wrap-around (`AP_WRAP_SM`); the four other overflow modes are complete.
- ApFixed.Fixed.Assign: targets in these two wrap-around modes.
- ApFixed.Fixed.Shl: the variant compiled for SystemC compatibility, which does look at the modes.
- FixedArith.MultExact: the operands are multiplied as integers; nothing is said about how the compiler widens them.
- Doubles.FromDouble: targets in the same two modes; infinities, NaNs and denormal numbers are taken as normal numbers with the exponent their bits spell, as the code does.
- DoubleTheorems.ToDoubleIsNearest: values whose exponent is outside the normal range of a double are encoded as the code does, but not shown to be nearest.
- Cbrt.CbrtFixed: types without integer bits or with a negative number of fractional bits.
- BurstMaxi.BurstPort.ReadRequest: requests that reach past the buffer, which the code queues unchecked.
- BurstMaxi.BurstPort.WriteRequest: the same.
- BurstMaxi.RunsAreOrderly: the access record shared by all ports on one pointer is the record of one port here; requests lie within the buffer, which the code does not check.
- Limbs.AddOrSub: `mpn_add_n` and `mpn_sub_n`, whose bodies are not among the sources, are stood in for by a loop over the limbs; nail bits are zero.
- Tiles.CSR_BLOCK.constructor: the generation of random edge properties, which the source switches off.
- Graphs.BuildLists: reading the file; lines have two numbers, and vertex and edge counts stay below the range of `int`.
- Relabel.Graph.constructor: the compressed rows of `graph_sort`, whose arrays are one entry short.
- GraphInfos.GraphInfo.constructor: reading the binary files, where the row pointer arrays have one entry more than vertices; the property, register and temporary buffers, which are filled with zeros.
- GraphInfos.GraphInfo.PartitionFunction: runs in which a chunk begins with padding, which read outside the buffer; `Pipeline.Prepare` has none.
- GraphInfos.FillChunk: the same.
- Reservoir.ChanceIsShare: for weights that are not whole the probability is the product of interval lengths, with no measure behind it; whole weights are counted in `Reservoir.ReturnsCounted`.  Rounding of the quotient is not modelled.
- Butterfly.ButterflyNetwork: the positions for drawing.
- Device code, kernel launches, buffers of the accelerator runtime, timing, logging and the command line.
- CORDIC, DDS and floating-point headers, comparison and maximum helpers, streams and shift registers.
