# Verified model of the reconciliation, proof-of-work and Merkle components

This project models four parts of the Go library and proves what they promise.

**Set reconciliation by syndrome sketches** (`reconcile/`). A set of 64-bit
identifiers is stored as its odd power sums over GF(2^64). The decoder rebuilds
all power sums, finds the shortest feedback register (Berlekamp-Massey), splits
its reverse into linear factors with trace polynomials under a work budget, and
checks the result against the sketch. `Word64`, `WordPolynomial` and `Gf64`
prove that the 64-step multiplication loop is multiplication in a field with
2^64 elements, without any open assumption: that the modulus is irreducible is
proved from the 64-fold squaring and the absence of idempotents. Everything
above the words (`Polynomial`, `Roots`, `BerlekampMassey`, `PowerSums`,
`PolyOps`, `PolyGcd`, `Quadratic`, `Splitting`, `FactorTrials`, `FindRoots`,
`PinSketch`, `Algebraic`) is proved for any binary field given by its
operations. The main result is that a successful decode is the unique ascending
list of nonzero words with the given sketch, whatever the sketch holds. The work
is accounted for exactly: `Splitting` gives the cost of a set, which is decided
by the trials that separate its elements, and a set within the limit is decoded
if and only if its cost is within the budget. `Extremes` and `DecodeBudget` show
what that means for the constants of the code: every set of up to eighteen
elements is decoded, and some set of nineteen is not, although sketches of up to
32 coordinates are allowed. `Resident` adds the per-population state and what it
holds after any run of insertions and removals, and `Estimate` the estimate that
is taken from it; `StratumSize` counts the words of each stratum, which is what
the weights of the estimate mean.

**The bucket exchange** (`reconcile/triage.go`, `reconcile/client.go`).
`Triage`, `Client` and `Transition` follow the request validation, the decoding
of an answer with its shared budget, the first action and the step after each
round. `SharedBudget` says which buckets of an answer are solved. `Exchange`
proves over every run that the decoded buckets and the outstanding requests tile
the 32-bit space exactly once, that a run stops at the round limit, and that it
ends even without one. What a round ends in is stated by its causes: which
failures cannot be asked for again, and how much is asked for. `Difference`
proves what a run that decodes true sketches returns when it resolves: the whole
difference, each element once, if and only if no bucket was solved while it held
more than its capacity, and if and only if there are as many roots as elements.
`Overfull` shows that this can fail: for eleven elements of a subfield, asked
for with four coordinates, the exchange resolves with four other words.

**Cuckoo cycle proofs** (`cuckoo/`). `Cycle` and `Cuckoo` prove that
verification always stops and accepts exactly the single cycles. `Bitset`,
`Trim`, `Peel`, `Search`, `Prover`, `Completeness` and `FindProof` prove that
the search is sound and complete: bulk trimming with the two-bit counter, the
incremental peel in any queue order and the pruning of the depth-first search
never lose a cycle, and backtracking restores the search state exactly. The
keyed hash is an arbitrary function of the seed and the message; `EdgeGraphs`
shows that any two endpoint functions come from one, and for which proof sizes
some graph has a proof: the even ones, up to the number of edges.

**Merkle trees** (`merkle/`). Digests are terms with one constructor for each
domain-separation tag, so that equal digests have equal preimages. `FieldTree`
and `Fields` cover the tree over named fields. That it is shaped as in section
2.1 of RFC 6962 is proved: the laws of that tree hash determine the root.
`Causal`, `CausalProof` and `CausalKey` cover the sparse Merkle sum trie over
keys of any number of bits, determined by its laws in the same way, and show
that 32-byte keys are an instance with 256. The non-inclusion verifier takes no
key: an accepted path binds a bit prefix, and that is how its result is stated.

Code that updates its variables step by step is modelled by methods with loops
and invariants, objects with methods by classes; the specification functions
beside them carry the theorems. Go slices that are changed in place are
sequence variables here, and words are 64-bit vectors or integers with explicit
bounds. Maps whose iteration order Go leaves open are read in an arbitrary
order.

`dafny verify dfyconfig.toml` checks everything.

## Model

| member | source | states |
|---|---|---|
| Word64.MulBitwise | reconcile/gf64.go:9-20 | the 64-step masked loop computes the sum of the shifted multiplicands selected by the bits of the multiplier |
| WordPolynomial.MulIsReducedProduct | reconcile/gf64.go:5-20 | the product of two words is the remainder of the product of their polynomials over the two-element field modulo x^64 + x^4 + x^3 + x + 1, for all words |
| Gf64.GfRing | reconcile/gf64.go:22-25 | exclusive or and the bitwise product satisfy the commutative ring laws with identity 1 and x + x = 0 |
| Gf64.GfIsBinaryField | reconcile/gf64.go:22-25 | every nonzero word has an inverse and every word is fixed by 64 squarings, so the words are a field of 2^64 elements; irreducibility of the modulus is proved, not assumed |
| Gf64.GfIsWordField | reconcile/gf64.go:22-25 | that field together with the bits of its words and an element of trace one, the setting of all decoder results |
| FieldTheory.FieldInv | reconcile/pinsketch.go:115-131 | square-and-multiply returns the inverse of every nonzero element and refuses zero |
| FieldTheory.Fermat | reconcile/pinsketch.go:115-131 | the exponent 2^bits - 2 that the loop spells out inverts every nonzero element |
| PowerSums.ReconstructSyndromes | reconcile/pinsketch.go:52-59 | the full syndrome sequence: the given odd entries, each even entry the square of the entry at half its index |
| PowerSums.SyndromesAreSums | reconcile/pinsketch.go:52-59 | from the odd power sums of a list the loop rebuilds exactly all its power sums |
| BerlekampMassey.Discrepancy | reconcile/pinsketch.go:67-74 | the inner loop computes the recurrence sum at position n |
| BerlekampMassey.Massey | reconcile/pinsketch.go:61-113 | a register that generates a prefix but fails at n forces every longer prefix to need length at least n + 1 minus its length |
| BerlekampMassey.Correct | reconcile/pinsketch.go:93-102 | the corrected register is the lengthened current one plus the shifted multiple of the previous one that cancels the discrepancy |
| BerlekampMassey.Run | reconcile/pinsketch.go:61-113 | for every sequence: on success a register with constant coefficient one that satisfies the recurrence from its length to the end, no shorter register exists, its degree is within the limit and its last coefficient is nonzero; a failure means no register within the limit generates the sequence, or a shortest one has a zero last coefficient |
| Roots.Vandermonde | reconcile/pinsketch.go:61-113 | weights on distinct points whose first moments all vanish are zero |
| PowerSums.LocatorGenerates | reconcile/pinsketch.go:61-113 | the reversed root product of a set is a register that generates its power sums |
| PowerSums.LocatorUnique | reconcile/pinsketch.go:61-113 | every shortest register for at least twice as many power sums as the set has elements is that reversed root product |
| PowerSums.SumsInjective | reconcile/pinsketch.go:52-59 | two sets of nonzero elements of size at most t with the same first 2t power sums are the same set |
| PowerSums.PowerSumDouble | reconcile/pinsketch.go:56-57 | the power sum of twice the exponent is the square of the power sum |
| PolyOps.Trim | reconcile/pinsketch.go:133-137 | removes exactly the zero leading coefficients |
| PolyOps.MakeMonic | reconcile/pinsketch.go:139-155 | scales by the inverse of the leading coefficient; refuses exactly when there is none |
| PolyOps.PolyMod | reconcile/pinsketch.go:157-178 | refuses exactly the moduli that are not monic; otherwise value = quotient * modulus + remainder with a shorter, trimmed remainder |
| PolyOps.PolyDiv | reconcile/pinsketch.go:180-203 | succeeds exactly for a monic divisor no longer than the dividend, and then the division identity holds with a remainder shorter than the divisor |
| PolyGcd.PolyGCD | reconcile/pinsketch.go:205-223 | a monic common divisor of both arguments that every common divisor divides, whose roots are exactly the common roots; it does not fail on trimmed arguments that are not both zero |
| PolyGcd.PolySquare | reconcile/pinsketch.go:225-236 | spreading the squared coefficients gives the product of the polynomial with itself |
| FactorTrials.TraceMod | reconcile/pinsketch.go:238-254 | refuses exactly the moduli that are not monic; otherwise the reduced trace polynomial takes, at every root of the modulus, the trace of the parameter times the root |
| Quadratic.BuildRows | reconcile/pinsketch.go:268-282 | the linear system whose solutions are the solutions of y*y + y = target, column by column from the images of the basis |
| Quadratic.Eliminate | reconcile/pinsketch.go:297-303 | clearing a column adds the pivot row to exactly the rows with that bit and keeps the solution set |
| Quadratic.Reduce | reconcile/pinsketch.go:284-305 | Gauss-Jordan elimination keeps the solution set, every pivot column is clear outside its row, and each pivot row has its lowest set bit at its pivot |
| Quadratic.ReadSolution | reconcile/pinsketch.go:311-321 | reading the right-hand sides at the pivots solves the reduced system; the pivot check in this loop never fails |
| Quadratic.SolveQuadraticForm | reconcile/pinsketch.go:262-327 | succeeds if and only if some y satisfies y*y + y = target, and then returns such a y; the final recheck never fires |
| FactorTrials.TrialCostExact | reconcile/pinsketch.go:338-353 | the cost is degree squared times the number of squarings, refused exactly when that exceeds the int range |
| Splitting.TraceSeparates | reconcile/pinsketch.go:392-400 | for any two distinct elements some basis parameter gives different traces |
| FactorTrials.AllTrialsFailed | reconcile/pinsketch.go:390-435 | a polynomial on which every trial failed is not a product of distinct linear factors |
| FactorTrials.Trial | reconcile/pinsketch.go:410-428 | a trial either returns two monic proper factors whose product is the polynomial, the roots of the first being those with trace zero under the parameter, or shows that all roots have the same trace |
| FactorTrials.Split | reconcile/pinsketch.go:390-435 | the paid trial loop: a proper factorisation by the first parameter that splits, each trial up to it paid for; or no product of distinct linear factors; or the budget ran out at a trial before which all had failed |
| FactorTrials.QuadraticRoots | reconcile/pinsketch.go:368-387 | two roots whose linear factors multiply back to the quadratic; refused only when it is not a product of distinct linear factors |
| Splitting.TogetherBound | reconcile/pinsketch.go:390-435 | elements that all the trials before one leave together number at most two to the number of later trials that are not redundant |
| Splitting.CostBound | reconcile/pinsketch.go:338-438 | no set costs more than the sum of steps up to its size, for any steps that cover one split by the latest trial its size allows |
| Splitting.CostWithinWorst | reconcile/pinsketch.go:338-438 | no set costs more than all the trials at every split of one element from the rest |
| FindRoots.FindRootsWithBudget | reconcile/pinsketch.go:355-438 | for monic input the linear factors of the returned roots multiply back to the polynomial; a product of distinct linear factors within the int range is never refused, is charged exactly the cost of its roots, and is cut short exactly when the budget is below that cost; any polynomial is charged at most the worst case of its degree |
| PinSketch.ReverseInPlace | reconcile/pinsketch.go:440-444 | swapping from both ends reverses the list |
| PinSketch.LocatorFound | reconcile/pinsketch.go:21-25 | for the syndromes of a set within the limit Berlekamp-Massey succeeds and its reversed register is the root product of the set |
| PinSketch.DecodePinSketch | reconcile/pinsketch.go:20-50 | results are sorted, nonzero and within the limit; for the syndromes of any set within the limit the result is that set, a refusal means its size is outside the int range, a success is charged exactly the cost of the set, and the budget runs out exactly when it is below that cost |
| PinSketch.SketchInjective | reconcile/algebraic.go:246-257 | two sets within the capacity with equal sketches are equal |
| PinSketch.DecodesUnique | reconcile/algebraic.go:330-354 | at most one ascending list of nonzero words within the capacity has a given sketch |
| PinSketch.DecodesSet | reconcile/algebraic.go:330-354 | a decoded list is a rearrangement of any set within the limit that has the sketch |
| Algebraic.SyndromeSketch.New | reconcile/algebraic.go:223-228 | an empty sketch for capacities 1 to 32, InvalidSketchCapacity otherwise |
| Algebraic.SyndromeSketch.Toggle | reconcile/algebraic.go:246-257 | adds the odd powers of the value to the coordinates; zero is refused and changes nothing |
| Algebraic.SyndromeSketch.Xor | reconcile/algebraic.go:260-268 | coordinatewise sum in place, also with itself; other capacities are refused and nothing changes |
| Algebraic.SyndromeSketch.Subtract | reconcile/algebraic.go:271-280 | a new sketch with the coordinatewise sum; refused exactly for different capacities |
| Algebraic.ToggleAppends | reconcile/algebraic.go:246-257 | toggling a value into the sketch of a list gives the sketch of the list with the value appended |
| Algebraic.ToggleTwice | reconcile/algebraic.go:245-257 | toggling the same value twice restores any sketch |
| Algebraic.DifferenceIsSymmetric | reconcile/algebraic.go:270-280 | the difference of the sketches of two sets is the sketch of exactly the elements on one side only |
| Algebraic.SyndromeSketch.DecodeAndVerify | reconcile/algebraic.go:330-354 | a success is the ascending list of nonzero words with this sketch, whatever the sketch holds; a set behind the sketch is found and charged exactly its cost, unless that is more than the budget or its size is outside the int range |
| Algebraic.SyndromeSketch.DecodeElements | reconcile/algebraic.go:283-288 | capacity errors exactly when the limit is not positive, above the capacity or above 32; otherwise a verified result or DecodeFailure, and a set behind the sketch within the int range is found if and only if its cost is within the fixed budget |
| Extremes.LeadingIsRedundant | reconcile/pinsketch.go:390-435 | when mixed parameters add up to a word with highest bit u, the basis trial of bit u never separates what the trials before it left together |
| Extremes.OthersCount | reconcile/pinsketch.go:10-18 | with as many redundant trials as mixed parameters, no other trial is redundant: there are 2^bits words to separate |
| DecodeBudget.AllSparesRedundant | reconcile/pinsketch.go:256-260 | with the eight xorshift parameters of the code the basis trials of the bits 54 and 57 to 63 are redundant |
| DecodeBudget.EighteenFit | reconcile/pinsketch.go:10-18 | every set of up to eighteen words costs no more than the budget of 8000000 |
| DecodeBudget.NineteenExceed | reconcile/pinsketch.go:10-18 | some set of nineteen nonzero words costs more than the budget, so that eighteen cannot be raised |
| Gf64Sketch.WordLess | reconcile/pinsketch.go:48 | the order in which roots are returned is that of unsigned 64-bit words |
| Gf64Sketch.DecodeElements | reconcile/algebraic.go:283-288 | over the 64-bit field: a result is the one list with the sketch, strictly ascending as unsigned words; a set within the limit is returned if and only if its cost is within the budget, and always when it has at most eighteen elements |
| Resident.RoomAccumulator.Insert | reconcile/algebraic.go:139-148 | CountOverflow at 2^64 - 1 with nothing changed; otherwise the count grows by one and exactly the bits of the digest flip that are set in the hash |
| Resident.RoomAccumulator.Remove | reconcile/algebraic.go:151-160 | CountUnderflow at zero with nothing changed; otherwise the count drops by one and exactly the bits of the digest flip that are set in the hash |
| ByteBits.ByteValue | reconcile/algebraic.go:144-146 | the bits that are spoken of are the binary digits of the byte |
| Resident.ResidentKernel.ToggleStratum | reconcile/resident.go:56-67 | toggles the value in the stratum of its trailing zeros, capped at 31, and no other |
| Resident.ResidentKernel.Insert | reconcile/resident.go:33-42 | ZeroShortIdentifier for the zero identifier, CountOverflow at the greatest count, both with nothing changed; otherwise one more in the count, the bits of the hash flipped in the digest, and the identifier toggled in its stratum |
| Resident.ResidentKernel.Remove | reconcile/resident.go:45-54 | ZeroShortIdentifier for the zero identifier, CountUnderflow at zero, both with nothing changed; otherwise one less in the count, the bits of the hash flipped in the digest, and the identifier toggled in its stratum |
| Resident.RunKeeps | reconcile/resident.go:33-67 | after any run a bit of the digest is set exactly when an odd number of the applied operations have it in their hash, the count is the number of insertions less that of removals, and each stratum holds the odd power sums of the identifiers toggled in it |
| Resident.StratumOf | reconcile/resident.go:57-60 | the bits of an identifier below its stratum are clear, and the bit of the stratum is set in all but the last |
| Resident.StratumIsSketch | reconcile/resident.go:56-67 | each stratum is the sketch of exactly the identifiers of that stratum toggled an odd number of times |
| Resident.StrataDifference | reconcile/triage.go:88-92 | the xor of the strata of two kernels is the sketch of the identifiers present on one side only |
| Resident.RemoveUndoesInsert | reconcile/resident.go:33-54 | removing what was just inserted restores the whole state |
| Encoding.BytesHoldBits | reconcile/algebraic.go:291-299 | bit s of byte k of an encoded word is its bit 8k + s: the bytes are little-endian |
| Encoding.ByteRoundTrip | reconcile/algebraic.go:324-326 | every eight bytes are the encoding of the word they are read as |
| Encoding.BytesRoundTrip | reconcile/algebraic.go:291-328 | decoding the little-endian bytes of a sketch gives back its coordinates |
| Triage.ValidateBucketRequests | reconcile/triage.go:48-78 | accepts exactly the lists with capacities in 1 to 32 and at most 4096 in all, indices within their depth, and buckets disjoint in ascending order |
| Triage.NewSketchFromEncodedBytes | reconcile/algebraic.go:318-328 | succeeds exactly for eight bytes per coordinate, with the little-endian words as coordinates |
| Triage.DecodeBucket | reconcile/triage.go:144-166 | a solved bucket holds the unique set with its sketch; a set within the capacity is charged exactly its cost when solved, and is unsolved only with at least three elements and less work left than its cost |
| Triage.DecodeBucketSketches | reconcile/triage.go:125-173 | succeeds exactly for valid requests and an answer of the matching length; every request is reported once and in order; a ledger of the work left before and after each request accounts exactly for the sets they hold, and bounds what the others use up by the worst case of their capacity |
| SharedBudget.SolvedIff | reconcile/triage.go:125-173 | when the first requests hold sets within their capacities, one of them is solved if and only if its set has up to two elements or the sets up to and including it cost no more than the budget together |
| SharedBudget.AllSolved | reconcile/triage.go:125-173 | an answer whose sets together cost no more than the budget is decoded completely |
| SharedBudget.SolvedWithin | reconcile/triage.go:125-173 | a bucket that holds a set is solved when its cost and what the requests before it can use up fit the budget, also when those hold too much |
| Estimate.EstimateDelta | reconcile/triage.go:81-122 | always an estimate, since the budget never runs out; zero exactly when all strata agree; otherwise eight times 2^31, or the weight of one to eight elements of the highest stratum that differs, namely of the elements on one side only when it can hold them |
| StratumSize.WeightOfStratum | reconcile/triage.go:107-119 | the weight of an element times the number of 64-bit words in its stratum is 2^64: a stratum holds one word in as many as its weight says |
| Estimate.TopOfKernels | reconcile/triage.go:86-119 | for two kernels the elements of that stratum are exactly its identifiers present on one side only |
| DecodeBudget.StratumFits | reconcile/triage.go:87-99 | no polynomial of degree up to eight can use up the budget |
| Client.ProvisionCapacity | reconcile/client.go:305-335 | one and a half times the estimate rounded up, plus four, plus a positive headroom, or -1 exactly when that exceeds the int range; no step wraps around |
| Client.ProvisionBucketCapacity | reconcile/client.go:358-385 | the same provision raised to the floor and cut at 32; refused exactly beyond the int range |
| Client.CeilDiv | reconcile/client.go:337-349 | the least quotient that reaches the dividend; zero for arguments that are not positive |
| Client.UniformIsValid | reconcile/client.go:153-168 | one request for every bucket of a depth up to six is a valid list whose buckets tile the 32-bit space exactly once |
| Client.ShapeFor | reconcile/client.go:134-151 | the least depth up to six whose buckets can hold the provision, with capacities between 4 and 32 that together reach it whenever 2048 coordinates can |
| Client.ExpectedDelta | reconcile/client.go:122-129 | the larger of the distance of the two counts and the estimate |
| Client.SelectAction | reconcile/client.go:114-169 | the fallback exactly for a frame mismatch, an unknown extremity or a difference above the gate, expected from the counts and the estimate of the strata; synchronized exactly for equal digest and count; otherwise uniform requests of the provisioned shape |
| Transition.Retry | reconcile/client.go:234-272 | a failed bucket below 32 coordinates is asked for again with more, one at 32 in two halves, while the total stays within the limit |
| Transition.RetryAll | reconcile/client.go:222-273 | the loop over all failed buckets succeeds exactly when each can be provisioned and the total of all fits the limit |
| Transition.ReprovisionedMeans | reconcile/client.go:222-273 | no requests exactly when some failed bucket is unknown, is at full capacity and depth, or needs a provision beyond the int range; otherwise the requests are exactly those that continue the failed buckets, of the summed capacity |
| Transition.NextIsJustified | reconcile/client.go:190-280 | the roots are returned exactly when nothing failed; otherwise the fallback exactly at the round limit, at a bucket that nothing can replace, or when what is asked for again exceeds the allowed total or 4096; and otherwise exactly the requests that continue the failed buckets |
| Transition.TransitionBucketBatch | reconcile/client.go:190-280 | the loops compute that action: the same roots, causes of the fallback, requests and capacities, with the unaccounted part of the estimate shared out among the failures and rounded down |
| Tiling.CoversPrefix | reconcile/triage.go:66-71 | a bucket covers exactly the positions whose first bits, as many as its depth, are its index |
| Tiling.LevelTiles | reconcile/triage.go:66-71 | the buckets of one depth cover every position of the 32-bit space exactly once |
| Tiling.SplitHits | reconcile/client.go:261-272 | replacing a bucket by its two halves changes no cover count |
| Exchange.ReprovisionKeeps | reconcile/client.go:234-272 | what replaces a failed request covers the same positions, stays within its bounds and in order, and has a strictly smaller rank |
| Exchange.BatchHits | reconcile/triage.go:125-173 | the solved and the failed buckets of a batch together cover what the requests covered |
| Exchange.FirstActionStarts | reconcile/client.go:153-168 | the first action satisfies the invariant, with rank at most 1084 |
| Exchange.StepKeeps | reconcile/client.go:190-280 | every round keeps the invariant, whatever is decoded, estimated or allowed: decoded buckets and outstanding requests tile the space exactly once, the requests are valid, the roots are those of the decoded buckets, and on resolution the decoded buckets alone tile the space |
| Exchange.StepIsJustified | reconcile/client.go:190-280 | how a round of any run ends: resolved exactly when nothing failed, the fallback for the causes above only, and otherwise outstanding requests that continue exactly the failed buckets |
| Exchange.Run | reconcile/client.go:190-280 | the invariant holds after any number of rounds |
| Exchange.RunEnds | reconcile/client.go:222-273 | even without a round limit: the greatest outstanding rank drops every answered round, so a run has no more rounds than the rank it starts with |
| Exchange.StepIsLimited | reconcile/client.go:204-220 | a round that leaves requests outstanding is below the limit on rounds and asks for no more than the responder allows |
| Exchange.RoundLimit | reconcile/client.go:204-206 | a run never goes on past the round limit: it has at most the limit less its first round rounds of requests, whatever is decoded or estimated |
| Difference.SolvedIsHonest | reconcile/triage.go:152-166 | a bucket solved from the sketch of its part of the difference holds exactly that part if and only if the part fits the capacity, and otherwise fewer elements than it |
| Difference.ResolvedIsDifference | reconcile/client.go:201-206 | when a run resolves with buckets that each hold their part or fewer elements, the returned roots are the whole difference, each element once, if and only if every bucket holds its part, and if and only if there are as many roots as elements |
| Difference.SketchAnswer | reconcile/triage.go:133-151 | in the concatenated sketches of the parts each request receives the sketch of its own part |
| Difference.DecodedIsTruthful | reconcile/triage.go:125-173 | what is decoded from those sketches has the sketches of the parts, which is the hypothesis about a round |
| Difference.ExchangeReturnsDifference | reconcile/client.go:190-280 | from the first action on: when every round decodes the sketches of the parts of a difference, a run that resolves returns exactly the difference, each element once, if and only if no bucket was solved while it held more than its capacity, if and only if there are as many roots as elements; otherwise there are fewer |
| Overfull.SameSketch | reconcile/algebraic.go:246-257 | eleven of the nonzero elements of a subfield of sixteen have the same four coordinates as the other four |
| Overfull.ExchangeCanReturnOther | reconcile/client.go:201-206 | for these eleven words an exchange that starts with one request of capacity four resolves in its first round and returns four words, none of them in the difference |
| XorSum.EvenIsZero | cuckoo/cuckoo.go:190-196 | a list in which every value occurs an even number of times has xor zero |
| Cycle.RegularSumsToZero | cuckoo/cuckoo.go:190-196 | the xor pre-check never rejects a list whose endpoints are each shared by exactly two edges on their side |
| Cycle.FindPartner | cuckoo/cuckoo.go:201-213 | the inner scan finds the only other position with the same endpoint on the same side, and fails exactly when there is none or more than one |
| Cycle.WalkFresh | cuckoo/cuckoo.go:198-234 | the walk cannot enter a loop that misses its first position |
| Cycle.TourDecides | cuckoo/cuckoo.go:235-238 | a closed walk has as many steps as there are edges exactly when the edges form one single cycle |
| Cycle.VerifyCycle | cuckoo/cuckoo.go:189-239 | always terminates, and accepts exactly the lists that form one single cycle: every endpoint shared by exactly two edges on its side, and no proper part closed under shared endpoints |
| Cuckoo.EdgeForNonce | cuckoo/cuckoo.go:137-153 | an edge exactly for a configuration, an index and a 32-byte seed in range, with the errors told apart; for any two functions that the hash gives on the even and on the odd messages, the ends are their values at the index modulo 2^edgeBits; every list that contains the index has its tagged endpoints at them |
| EdgeGraphs.AnyGraph | cuckoo/cuckoo.go:149-152 | any two functions are the ends of the edges of some hash, so that the two ends of an edge are independent |
| EdgeGraphs.OneMessageOneEnd | cuckoo/cuckoo.go:150-151 | changing the hash at one message changes one end of one edge at most |
| Cuckoo.Verify | cuckoo/cuckoo.go:156-184 | for a valid configuration and seed, accepts exactly the strictly ascending lists of the right length, in range, whose edges form one single cycle; a seed of another length is reported as such exactly when the list passes the checks before it is read |
| EdgeGraphs.RingIsProof | cuckoo/cuckoo.go:156-184 | in a graph whose first edges form a ring those edges are a proof, for every even size |
| EdgeGraphs.FourCycle | cuckoo/cuckoo.go:156-184 | for eight given hash values the first four edges are a proof of size four |
| EdgeGraphs.ProofSizes | cuckoo/cuckoo.go:40-51 | some graph has a proof of the configured size if and only if the size is even and at most 2^edgeBits, although odd and larger sizes are accepted in a configuration |
| Bitsets.TestBit | cuckoo/cuckoo_prover.go:28-30 | masking a word with one shifted bit reads that bit |
| Bitsets.Bitset.Get | cuckoo/cuckoo_prover.go:28-30 | reads the bit |
| Bitsets.Bitset.Set | cuckoo/cuckoo_prover.go:33-35 | sets the bit and no other |
| Bitsets.Bitset.Clear | cuckoo/cuckoo_prover.go:38-40 | clears the bit and no other |
| Trim.BumpLeafCounter | cuckoo/cuckoo_prover.go:45-54 | the two bits count 0, 1, 2 or more |
| Trim.CountDegrees | cuckoo/cuckoo_prover.go:276-283 | after the first pass the two-bit counter of every node is its degree in the live edges, cut at two |
| Trim.TrimAliveEdges | cuckoo/cuckoo_prover.go:271-297 | a round drops exactly the live edges at a node of degree one in the live edges before the round, and returns their number |
| Trim.TrimKeepsCore | cuckoo/cuckoo_prover.go:271-297 | a round drops no edge of any set in which every touched node has degree at least two |
| Peel.CollectSurvivors | cuckoo/cuckoo_prover.go:300-310 | exactly the live edges, in order, with their endpoints |
| Peel.BuildTables | cuckoo/cuckoo_prover.go:159-166 | the degree table holds the degrees and the incidence table exactly the edges at each node |
| Peel.PeelLeaves | cuckoo/cuckoo_prover.go:168-197 | for every order of the queue the peel ends, the edge lookup always succeeds, and the edges left are a core that contains every core |
| Prover.CycleIsCore | cuckoo/cuckoo_prover.go:62-91 | the edges of a valid proof are a set in which every touched node has degree at least two |
| Prover.BulkTrim | cuckoo/cuckoo_prover.go:128-150 | any number of rounds keeps every core below the limit, and the live count is exact |
| Prover.RemainingIsGreatestCore | cuckoo/cuckoo_prover.go:128-197 | after bulk trimming and the peel the remaining edges are exactly the greatest set in which every touched node has degree at least two |
| Search.Searcher.TryEdge | cuckoo/cuckoo_prover.go:225-244 | one neighbour: a proof, or the state is restored exactly and nothing that continues through the edge is a proof |
| Search.Searcher.Dfs | cuckoo/cuckoo_prover.go:212-247 | a verified proof, or path, used edges and seen nodes are exactly as before and no continuation of the path is a proof |
| Completeness.NextUsable | cuckoo/cuckoo_prover.go:320-325 | walking around a cycle, no pruning rule rejects the next edge |
| Completeness.ProofIsFound | cuckoo/cuckoo_prover.go:252-264 | when the edges of a proof are all among those searched, the search from its first edge cannot fail |
| FindProofs.FindProof | cuckoo/cuckoo_prover.go:92-268 | what is returned is a valid proof below the limit, and NoSolution is reported only if no list of indices below the limit is a valid proof; a bad configuration or seed is reported as such |
| FieldTree.LargestPowerOfTwoLessThan | merkle/merkle.go:258-264 | the power of two k with k < n <= 2k |
| FieldTree.MerkleShape | merkle/merkle.go:238-256 | a power of two of leaves followed by no more than as many: the root joins the two roots, left and right |
| FieldTree.TreeHashIsRoot | merkle/merkle.go:238-256 | the laws of the tree hash of section 2.1 of RFC 6962 hold of the root computed here and of nothing that differs from it on a nonempty list |
| FieldTree.PathShape | merkle/proof.go:74-95 | the path of a leaf is its path in its own part, then the root of the other part on the side where that is |
| FieldTree.VerifyLeafPath | merkle/proof.go:56-69 | accepts exactly the well-formed paths that lead from the leaf hash to the root |
| FieldTree.PathVerifies | merkle/proof.go:74-95 | for every nonempty list and index the root is that of the tree and the path leads from the leaf to it |
| FieldTree.PathLength | merkle/proof.go:74-95 | a path (section 2.1.1 of RFC 6962) has at most as many steps as the logarithm of the number of leaves, rounded up |
| FieldTree.AcceptedLeafIsInTree | merkle/proof.go:56-69 | a path accepted for a leaf-tagged hash shows that the leaf is in the tree |
| Fields.NameLessMeans | merkle/merkle.go:132-136 | names are ordered lexicographically by their bytes |
| Fields.Leaves | merkle/merkle.go:123-143 | succeeds exactly for proper fields with distinct names, and returns exactly their leaves in ascending order of names; otherwise the error of the first improper field, or DuplicateField |
| Fields.RootOverAscending | merkle/merkle.go:145-165 | the root is the tree hash over the leaves of the fields in ascending order of names, however they were sorted |
| Fields.Root | merkle/merkle.go:147-165 | succeeds exactly for a nonempty list of proper fields with distinct names, and returns that root |
| Fields.RootOrderFree | merkle/merkle.go:145-165 | the root does not depend on the order of the fields |
| Fields.LeafPath | merkle/proof.go:31-52 | succeeds exactly when the fields can be committed and contain the name; the path leads from the leaf of that field to their root |
| Fields.LeafBinds | merkle/merkle.go:90-104 | the zero byte after the name makes a leaf preimage determine name and value |
| Fields.AcceptedFieldIsCommitted | merkle/proof.go:54-69 | a path accepted for a name and a value against the root of some fields shows that the fields contain that name with that value |
| Causal.BuildCausalEmpty | merkle/causal.go:20-27 | the table of empty subtree hashes, each the node of two empty children |
| Causal.CausalSubtreeRoot | merkle/causal.go:124-147 | root and count of the subtree that holds the keys |
| Causal.SubtreeOfSet | merkle/causal.go:104-120 | root and count depend only on the set of keys, not on the order in which the map yields them |
| Causal.TrieIsTree | merkle/causal.go:22-45 | the laws of the trie (the empty leaf, the leaf of a key with count one, the node of the keys with a clear and a set bit, left and right, with their counts added) hold of the trie computed here and of nothing else |
| Causal.TreeCount | merkle/causal.go:98-101 | the committed count is the number of keys |
| CausalKey.DigestsIdentify | merkle/causal.go:47-53 | the 256 bits read from the top of the first byte on identify a 32-byte key |
| CausalKey.KeyDigits | merkle/causal.go:47-53 | the bits of a key are the binary digits of its bytes, the highest digit of each byte first |
| CausalProof.CausalDescend | merkle/causal_proof.go:97-124 | the descent: hash, count, sibling path, kind and depth of the terminal |
| CausalProof.DescentShape | merkle/causal_proof.go:97-124 | a descent computes the root and count of the trie, its path has one step per level, and its sides spell the bits of the target |
| CausalProof.DescentKind | merkle/causal_proof.go:97-124 | a descent ends in a leaf exactly for the members |
| CausalProof.OnPathSpells | merkle/causal_proof.go:113-123 | a key is on a path exactly when each sibling is on the left where the key has a set bit and on the right where it has a clear one, read from the end of the path |
| CausalProof.VerifyCausalPath | merkle/causal_proof.go:68-89 | accepts exactly the well-formed paths of the right length that recompute the root and the count |
| CausalProof.VerifyCausalInclusion | merkle/causal_proof.go:51-53 | a full-length path from the leaf of the key with count one |
| CausalProof.VerifyCausalNonInclusion | merkle/causal_proof.go:58-63 | a path from the empty hash of the terminal depth with count zero; depths out of range are refused |
| CausalProof.InclusionSound | merkle/causal_proof.go:48-53 | a path accepted for a key against the root of some keys shows that the key is one of them |
| CausalProof.NonInclusionSound | merkle/causal_proof.go:55-63 | a path accepted for non-inclusion shows that no member has the bits spelled by its sides, read from the root down |
| CausalProof.AcceptedAgainstSet | merkle/causal_proof.go:48-63 | both statements against the root and count of a set |
| CausalProof.RootIdentifies | merkle/causal.go:104-111 | two sets have the same root if and only if they are the same set |
| CausalProof.InsertCommits | merkle/causal.go:68-77 | inserting keeps the root exactly when the key is a member already |
| CausalProof.UnionCommits | merkle/causal.go:79-90 | a union has the root of its first part exactly when the other adds nothing, and does not depend on the order |
| CausalProof.Root | merkle/causal.go:104-111 | the root of the set, the empty root for the empty set |
| CausalProof.InclusionProof | merkle/causal_proof.go:20-30 | ok exactly for members, with the root and count of the set and a path that verifies and whose sides spell the bits of the key |
| CausalProof.NonInclusionProof | merkle/causal_proof.go:36-46 | ok exactly for the keys that are not members, with the root and count of the set and a path that verifies and whose sides spell the bits of the key |

## Left out

- SipHash, SHA-2, SHA-3, base64 and the canonical JSON encoder: arbitrary functions, constructors of the digest terms, or values that are already encoded.
- Estimate.EstimateDelta: when the highest stratum that differs holds more than eight elements the estimate is only known to be the greatest one or the weight of one to eight elements, because the code does not check such a decode against the stratum.
- Aliasing of Go slices: polynomials, matrix rows, sketches under decoding and root lists are values, so that a routine consuming its argument in place (as `polyDiv` does) is not distinguished from one that copies.
- The xorshift parameters of the root search are a list given to the search (`DecodeBudget.Mixed` is the list of the code) instead of being advanced inside the trial loop.
- The byte encoding of depths and counts inside trie nodes: the node term holds them as numbers, below 2^64 for counts.
- `ReconciliationClient` construction and its copies with other limits, `BuildSketch`, `VerifyGlobalResidual`, accessors, event-ID parsing, ETags and digest encodings: little depth.
- Progress reports and time in the proof search.
- The server identity, key, signature, redaction, lattice-hash and command-line packages.
