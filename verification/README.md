# Verified models of the ARM64 server's derivation and analysis scripts

The server is hand-written ARM64 assembly. Its `scripts/` directory holds the
Python that the assembly is checked against: word-for-word references for the
P-256 and GCM code, the data-flow analyses that judge a rewritten function, and
a few stateful tools. Those references leave out carries on the strength of a
bound, and so far the bounds and the analyses are only sampled. This project
models that Python in Dafny and proves, for all inputs, what it is relied on
for.

| module | models |
|---|---|
| `Limbs`, `ModArith`, `Wrappers` | 64-bit words and carry chains, congruences, options |
| `Montgomery`, `Chain`, `ChainProgram`, `ScalarInv` | inversion modulo n: the Montgomery multiply, the run-length chain for n-2, the slot interpreter, and the three together |
| `Fold`, `Reduce`, `FeMul` | reduction modulo p: the fold table, the signed-digit folds, the corrections, and the 4x4 product in front |
| `Curve`, `Comb` | the Jacobian+affine formula against affine addition, and the 64-block comb |
| `Gf128`, `Gcm` | GHASH as GF(2^128) arithmetic, the two counter sequences, `seal` |
| `GenKill`, `Flags`, `RegPressure` | gen/kill data flow against paths; flag liveness and reaching definitions, register liveness, interprocedural clobbers |
| `SavedRegs`, `DirtyRuns`, `EntryGuard`, `PassBound`, `RoundCap` | the callee-saved/SP checker against entry paths, what makes a register dirty on a run, where its verdict is wrong and a remedy, and how many passes it needs |
| `Minimize`, `SymbolExtents`, `SampleTree` | the input minimiser, the symbol annotator, the sample-tree accounting |

Python lists that a script changes step by step are local `seq` variables that
the methods reassign; buffers changed in place (`inc32`, `simplify_pass`) are
arrays; `State` of abi.py and `FunctionInfo` of regpressure.py are classes.
Every such method is tied to a function or a predicate, and the lemmas are
about those.

## Hypotheses

Stated where they are used, never assumed silently:

- `Fermat(m)` (a^(m-1) = 1 mod m for a not divisible by m) stands for "p is
  prime" and "n is prime".
- `Curve.CurveGroup` says that affine addition on the curve is associative,
  `Comb.Generates` that the base point has order exactly n. Both are facts about
  P-256 (section D.1.2.3 of FIPS 186-4). That the curve is closed under
  addition, that G is on it and that 15*2^252 < n < 2^256 are proved.
- The block cipher is an arbitrary function from blocks to blocks.
- The minimiser's oracle is an arbitrary function: a deterministic campaign.

## Where the code is not what its documentation says

- abi.py says its check "never lets a broken candidate through" (line 32). Two
  methods give inputs for which the reports at a return are empty although a
  run returns with x19 dirty.
  - `SavedRegs.LoopToEntryMissed`: instruction 0 is pinned to the clean state
    (line 593), so what a branch back to it carries is lost. The exact condition
    is a comparison a caller can make: a nop in front of the function keeps its
    runs and takes every edge away from instruction 0, so the check of the
    function behind a nop is about every run (`EntryGuard.GuardedIsEveryRun`).
    At the returns that a function has, the runs that stay away from
    instruction 0 speak for all runs if and only if the nop changes none of
    their verdicts (`EntryGuard.ReturnsDecidedExactWhen`,
    `EntryGuard.CompareChecks`). It is sufficient that whatever comes back to
    instruction 0 has no register dirty and SP restored, in particular that
    nothing comes back; that is necessary for a right verdict at every
    instruction, whether it returns or not (`SavedRegs.PinnedEntryExactWhen`),
    and not at the returns alone (`EntryGuard.ReturnsRestoredNotNeeded`).
  - `RoundCap.MissedByCap`: for every length from 12 on, the cap of n + 2 passes
    (line 589) ends the loop before the fixpoint, with no edge into instruction
    0 involved. The states are exact if and only if one more pass would change
    nothing (`SavedRegs.ExactWhenStable`). Passes do come to rest: with b
    instructions from which an edge leads back (to the same or an earlier
    instruction other than 0), and h the number of registers from which copies
    can reach one register, itself included, more than (h + 1) b passes always
    leave exact states (`PassBound.PassesComeToRest`). Without copies from
    callee-saved registers h is 1, and then the bound is attained: the region
    of `RoundCap` is exact after r passes if and only if r > 2 b
    (`RoundCap.BoundAttained`). So n + 2 is enough for a function with
    (h + 1) b <= n, in particular for one without loops
    (`PassBound.CheckFewLoops`), and 21 n is a cap that is never too small
    (`PassBound.SoundCap`). A false alarm is impossible on either exit
    (`SavedRegs.AlarmsAreReal`). For the gen/kill analyses the same cap is
    proved to suffice.
- A return through a register other than x30 is not checked for a dirty x30;
  `SavedRegs.Restored` states the check as it is.
- The header of p256_scalar_inv_derivation.py (line 25) gives the chain 302
  multiplications. The generated program has 257 squarings and 43 multiplies.
  (The 33 runs of line 196 are those of the low 128 bits; the first is the end
  of the 65-bit run, and the encoder meets the other 32.)
- p256_reduce_derivation.py (line 29) says each rewrite lowers the maximum
  exponent. It does so exactly when the exponent rewritten is the maximum
  (`Fold.RewriteTop`), and `high[0]`, the oldest key, need not be: two rounds
  into word 13 it is 256 while 320 is present (`Fold.OldestNotLargest`). The
  rewriting terminates by the weighted sum `Fold.Measure`.
- The minimiser need not try the empty input before it ends at one byte. Every
  output is 1-minimal if and only if the empty input passes or every one-byte
  input does (`Minimize.Minimise`). Otherwise a run from a failing single byte
  is not, and one from two bytes need not be either (`Minimize.EmptyNotTried`).

## Model

| member | source | states |
|---|---|---|
| Montgomery.ProductRow | scripts/p256_scalar_inv_derivation.py:83-104 | row i turns a * (b mod 2^(64 i)) into a * (b mod 2^(64(i+1))) and nothing is carried out of t[i+4] |
| Montgomery.Product | scripts/p256_scalar_inv_derivation.py:76-106 | the eight words hold a * b exactly |
| Montgomery.Modulus.RoundChains | scripts/p256_scalar_inv_derivation.py:114-138 | a reduction round clears t[i], and its two-word carry has c2 <= 1 |
| Montgomery.Deposit | scripts/p256_scalar_inv_derivation.py:140-156 | depositing (c2 : c1) at word i+4 adds exactly that weight, carries rippling into ext, and leaves the lower words alone |
| Montgomery.Modulus.ReductionRound | scripts/p256_scalar_inv_derivation.py:113-157 | a round adds m * n at word i, keeps ext <= 1 and zeroes t[i] |
| Montgomery.Modulus.Reduce | scripts/p256_scalar_inv_derivation.py:108-157 | four rounds add a multiple M of n with M < 2^256 and leave the low half zero |
| Montgomery.Modulus.HighHalf | scripts/p256_scalar_inv_derivation.py:159-161 | the value before the subtraction times R is a b + M n, and it is below 2 n |
| Montgomery.Modulus.SubtractOnce | scripts/p256_scalar_inv_derivation.py:163-178 | the fifth-word borrow decides the subtraction correctly: the result is below n |
| Montgomery.ScaledBack | scripts/p256_scalar_inv_derivation.py:179 | multiplying by R^-1 modulo n and then by R is the identity on residues |
| Montgomery.Modulus.MontMulUnique | scripts/p256_scalar_inv_derivation.py:178-179 | the only reduced value that R carries to a b is the Montgomery product |
| Montgomery.Modulus.MontMulHw | scripts/p256_scalar_inv_derivation.py:75-180 | for every pair of operands with a b < n R no assert trips, and the words returned are a b / R mod n, below n |
| Montgomery.Modulus.MontMulInt | scripts/p256_scalar_inv_derivation.py:183-185 | the wrapper keeps 256 bits of each operand and returns their Montgomery product |
| Chain.RunChain | scripts/p256_scalar_inv_derivation.py:260-273 | the slot loop computes Result, with None when a slot is read before it is written |
| Chain.RunTracks | scripts/p256_scalar_inv_derivation.py:260-273 | at every step a slot holds x to the power of what the replay under addition holds there |
| Chain.ReplaySound | scripts/p256_scalar_inv_derivation.py:309-315 | for every program and associative multiply, the run from x succeeds exactly when the integer replay from 1 does, and yields x to the replayed exponent |
| ChainProgram.SegmentsShiftIn | scripts/p256_scalar_inv_derivation.py:237-256 | one instruction per run sends exponent e to e * 2^len + value(bits), for every ladder-covered bit string |
| ChainProgram.SegmentsUnique | scripts/p256_scalar_inv_derivation.py:240-255 | maximal runs of a bit string determine its instructions |
| ChainProgram.EncodeRuns | scripts/p256_scalar_inv_derivation.py:240-256 | the encoder fails exactly when a run is not in the ladder or the string ends in 0; otherwise its program shifts the string in, using exactly len squarings |
| ChainProgram.LadderStep | scripts/p256_scalar_inv_derivation.py:219-223 | one ladder instruction writes 2^(h+k) - 1 into slot h+k and keeps the rest of the ladder |
| ChainProgram.BuildLadder | scripts/p256_scalar_inv_derivation.py:219-223 | after the ladder each slot for k holds 2^k - 1 |
| ChainProgram.ProgramValue | scripts/p256_scalar_inv_derivation.py:225-257 | ladder, main pass and encoded low half together replay to n - 2 |
| ChainProgram.ProgramCost | scripts/p256_scalar_inv_derivation.py:276-279 | the program costs 257 squarings and 43 multiplies |
| ChainProgram.BuildChain | scripts/p256_scalar_inv_derivation.py:209-257 | the generated program replays to exactly n - 2, with no assert tripped |
| ScalarInv.RunChainMont | scripts/p256_scalar_inv_derivation.py:286-288 | the interpreter with the word-level multiply computes the chain over Montgomery products, every slot reduced |
| ScalarInv.MontMulIsAssociative | scripts/p256_scalar_inv_derivation.py:288 | the Montgomery product is associative, so exponent replay applies to it |
| ScalarInv.PowerMont | scripts/p256_scalar_inv_derivation.py:286-289 | powers taken in Montgomery form are the Montgomery forms of the powers |
| ScalarInv.PowerHw | scripts/p256_scalar_inv_derivation.py:283-289 | entering, running the chain and leaving gives a^(n-2) mod the modulus, for any modulus the multiply is valid for |
| ScalarInv.ScalarInvHw | scripts/p256_scalar_inv_derivation.py:283-289 | for every natural a, reduced or not, the result is (a mod n)^(n-2) mod n |
| ScalarInv.InverseModN | scripts/p256_scalar_inv_derivation.py:32-33 | with n prime that value inverts a, and is 0 for multiples of n |
| Fold.Solinas | scripts/p256_reduce_derivation.py:26-27 | 2^(32k) equals the four lower terms plus a multiple of p |
| Fold.RowValueCongruent | scripts/p256_reduce_derivation.py:53-57 | row i of the table is congruent to 2^(32 i) modulo p, for every i |
| Fold.RewriteTerm | scripts/p256_reduce_derivation.py:36-42 | one rewrite keeps the sum modulo p, keeps what each output column will receive, lowers the measure, and lowers the maximum exactly if it took the maximum |
| Fold.RewriteMeasure | scripts/p256_reduce_derivation.py:28-42 | the sum of 2^(e/32) over the present exponents drops at each rewrite, whichever high term is chosen |
| Fold.RewriteTop | scripts/p256_reduce_derivation.py:28-42 | every exponent left is below the old maximum if and only if the one rewritten was that maximum |
| Fold.OldestNotLargest | scripts/p256_reduce_derivation.py:33-42 | with the dictionary's order, the third round of word 13 takes 256 while 320 is present |
| Fold.RewriteHighWord | scripts/p256_reduce_derivation.py:30-43 | for every word index the rewriting terminates with the nonzero entries of the table row, all in columns 0 to 7 |
| Reduce.FoldedCongruent | scripts/p256_reduce_derivation.py:96-99 | folding words 8 to n into the accumulators keeps the residue |
| Reduce.FoldedBounds | scripts/p256_reduce_derivation.py:96-99 | the accumulators grow by at most 3 * 2^32 per word |
| Reduce.Accumulate | scripts/p256_reduce_derivation.py:86-99 | no signed 64-bit register wraps while the fold is accumulated |
| Reduce.Propagate | scripts/p256_reduce_derivation.py:101-108 | digits and carry are the same number as the accumulators, the carry is the floor quotient by 2^256, and nothing wraps |
| Reduce.FirstCarry | scripts/p256_reduce_derivation.py:68-76 | the first carry is within [-4, 4] for every input |
| Reduce.FirstCarryTight | scripts/p256_reduce_derivation.py:68-76 | both ends of that range are attained |
| Reduce.SecondFold | scripts/p256_reduce_derivation.py:110-113 | folding the carry back leaves the value less carry * p, strictly between -p and 2 p |
| Reduce.ReduceHw | scripts/p256_reduce_derivation.py:86-116 | four words and ext in {-1, 0, 1} hold the twice-folded value |
| Reduce.RefoldedCongruent | scripts/p256_reduce_derivation.py:86-116 | the twice-folded value is congruent to the input |
| Reduce.RefoldedRange | scripts/p256_reduce_derivation.py:119-150 | it lies strictly between -p and 2 p |
| Reduce.CorrectionRound | scripts/p256_reduce_derivation.py:129-149 | the five-limb test subtracts p exactly when the value is at least p |
| Reduce.Canonicalize | scripts/p256_reduce_derivation.py:119-150 | after adding p to a negative value and two rounds, of which the second changes nothing, ext is 0 and the value is the residue |
| Reduce.FiveLimbTestNeeded | scripts/p256_reduce_derivation.py:135-146 | the twice-folded value of the known input lies from 2^256 up to below 2^256 + p |
| Reduce.WideIsProduct | scripts/p256_reduce_derivation.py:176-178 | the known input is the product that the edge case names |
| Reduce.FourLimbRound | scripts/p256_reduce_derivation.py:141-144 | a round that looks only at the fourth limb's borrow leaves ext alone and compares only the low limbs with p |
| Reduce.FourLimbsRefuse | scripts/p256_reduce_derivation.py:139-146 | on the known input two such rounds refuse and leave ext at 1 and a value of at least p |
| Reduce.ReduceFull | scripts/p256_reduce_derivation.py:153-159 | for every 512-bit T the result is T mod p |
| FeMul.FirstRow | scripts/p256_fe_mul_derivation.py:100-117 | the row that sets t holds a * b[0], with no carry out of t[4] |
| FeMul.NextRow | scripts/p256_fe_mul_derivation.py:128-150 | row i keeps t = a * (b mod 2^(64(i+1))) with no carry out of t[i+4] |
| FeMul.Mul4x4Hw | scripts/p256_fe_mul_derivation.py:75-154 | the unrolled product is exact for all 256-bit operands |
| FeMul.FeMulHw | scripts/p256_fe_mul_derivation.py:157-162 | product and reduction composed give a b mod p in canonical form, of the low 256 bits of each operand |
| Curve.Curve.InverseExists | scripts/p256_comb_derivation.py:72-74 | over a prime every nonzero residue has an inverse, the one Fermat exponentiation computes |
| Curve.Curve.ToAffineRepresents | scripts/p256_comb_derivation.py:169-177 | to_affine of a finite triple is the affine point it represents |
| Curve.Curve.MaddRepresents | scripts/p256_comb_derivation.py:138-166 | madd of a representative and a point represents the chord point, whenever the slope is the chord's |
| Curve.Curve.MaddRefinesAdd | scripts/p256_comb_derivation.py:62-177 | for finite P1 with H != 0, leaving Jacobian coordinates after madd is aff_add after leaving them, and the result is finite |
| Curve.Curve.ClashMeansSameX | scripts/p256_comb_derivation.py:144-147 | H is 0 exactly when the two points share an x-coordinate |
| Curve.Curve.MulAdd | scripts/p256_comb_derivation.py:79-86 | multiples add: (j + k) P = j P + k P |
| Curve.Curve.EqualMultiples | scripts/p256_comb_derivation.py:227-228 | equal multiples differ by a multiple that is infinity |
| Curve.Curve.SameX | scripts/p256_comb_derivation.py:66-71 | points with the same x are equal or opposite |
| Curve.Curve.AddIsThirdPoint | scripts/p256_comb_derivation.py:62-76 | the sum of two finite points is infinity exactly if they are opposite, and else the mirror image of the third place where their chord, or the tangent at a doubled point, meets the curve, counted with multiplicity |
| Curve.Curve.AddOnCurve | scripts/p256_comb_derivation.py:62-97 | the curve is closed under aff_add, doubling included |
| Comb.DistinctX | scripts/p256_comb_derivation.py:227-235 | distinct multiples below n that do not sum to n have distinct x-coordinates |
| Comb.MulModOrder | scripts/p256_comb_derivation.py:183-187 | reducing the scalar modulo n first changes nothing |
| Comb.AffMul | scripts/p256_comb_derivation.py:79-86 | double-and-add computes k P |
| Comb.BuildTable | scripts/p256_comb_derivation.py:100-119 | entry j-1 of row i is j * 16^i * G |
| Comb.BlockCorrect | scripts/p256_comb_derivation.py:222-239 | a contributing addition clashes exactly when the nibbles so far sum to n, and even then the block result is right |
| Comb.LastBlock | scripts/p256_comb_derivation.py:230-236 | the nibbles up to a block sum to n only at the last block of k = n |
| Comb.Select | scripts/p256_comb_derivation.py:192-198 | the masked scan selects entry d, and (0, 0) for digit 0 |
| Comb.CombBlock | scripts/p256_comb_derivation.py:189-213 | a block takes (k mod 16^i) G to (k mod 16^(i+1)) G |
| Comb.CombMulBase | scripts/p256_comb_derivation.py:180-214 | for every scalar the coordinates are those of k G, and (0, 0) for infinity; no contributing addition meets plus or minus its addend except the last block of k = n |
| Comb.GeneratorOnCurve | scripts/p256_comb_derivation.py:241-245 | G satisfies the curve equation and 15 * 2^252 < n |
| Comb.PointMulBase | scripts/p256_comb_derivation.py:180-214 | with its own table the comb gives the coordinates of k G = (k mod n) G, a point of the curve, and (0, 0) exactly for infinity, which is k = 0 and k = n |
| Gf128.MulShift | scripts/gcm_ctr_sweep_derivation.py:117-122 | the shift-and-reduce loop computes the field product |
| Gf128.Relation | scripts/gcm_ctr_sweep_derivation.py:121 | x^128 = x^7 + x^2 + x + 1 in the reflected bit order |
| Gf128.DotIsRemainder | scripts/gcm_ctr_sweep_derivation.py:117-122 | the field product is the 255-bit polynomial product reduced by long division |
| Gf128.DotLinearLeft | scripts/gcm_ctr_sweep_derivation.py:117-122 | the product is XOR-linear on the left |
| Gf128.DotLinearRight | scripts/gcm_ctr_sweep_derivation.py:117-122 | and on the right |
| Gf128.DotAssoc | scripts/gcm_ctr_sweep_derivation.py:117-122 | the product is associative |
| Gf128.DotComm | scripts/gcm_ctr_sweep_derivation.py:117-122 | and commutative |
| Gcm.Ghash | scripts/gcm_ctr_sweep_derivation.py:113-123 | the byte loop is the chained hash of the zero-padded blocks |
| Gcm.BytesBit | scripts/gcm_ctr_sweep_derivation.py:113-123 | bit i of a byte string is bit 7 - i mod 8, by weight, of byte i div 8 |
| Gcm.BlockBit | scripts/gcm_ctr_sweep_derivation.py:118-120 | block i holds bytes 16 i to 16 i + 15 of the data, and zeros beyond its end |
| Gcm.ChainIsHorner | scripts/gcm_ctr_sweep_derivation.py:113-123 | the chained hash is the sum of block i times H^(m-i+1) (section 6.4 of NIST SP 800-38D) |
| Gcm.GhashLinear | scripts/gcm_ctr_sweep_derivation.py:113-123 | ghash is XOR-linear in data of equal length |
| Gcm.Inc32 | scripts/gcm_ctr_sweep_derivation.py:48-50 | the increment is modulo 2^32 on the last four bytes and leaves the rest |
| Gcm.CounterBytes | scripts/gcm_ctr_sweep_derivation.py:46-66 | a counter block is the IV and the four low bytes of the counter, high byte first |
| Gcm.CurrentSeq | scripts/gcm_ctr_sweep_derivation.py:44-58 | the byte-buffer loop gives J0, the n counter blocks after it and the tail block |
| Gcm.UnrolledSeq | scripts/gcm_ctr_sweep_derivation.py:61-77 | the four-at-a-time loop gives the same sequence, wherever the wrap falls |
| Gcm.CountersDistinct | scripts/gcm_ctr_sweep_derivation.py:44-77 | J0, the counter blocks and the tail block are pairwise distinct exactly when n < 2^32 - 1 |
| Gcm.CtrInvolution | scripts/gcm_ctr_sweep_derivation.py:131-138 | counter mode undoes itself |
| Gcm.CtrSeal | scripts/gcm_ctr_sweep_derivation.py:131-138 | the block loop and the partial tail together are counter mode byte by byte |
| Gcm.Seal | scripts/gcm_ctr_sweep_derivation.py:126-143 | the ciphertext is counter mode from counter 2, and the tag is the masked hash of data laid out as the next row says |
| Gcm.HashInputLayout | scripts/gcm_ctr_sweep_derivation.py:140-142 | the one byte string that is aad and ciphertext, each followed by zeros to a multiple of 16, then the bit length of aad and that of the ciphertext in eight bytes each, high byte first |
| GenKill.FixpointComplete | scripts/abi.py:487-524 | a fixpoint contains every fact that a path brings |
| GenKill.SoundFixpointExact | scripts/abi.py:487-524 | a fixpoint reached from below holds a fact exactly where a path brings it |
| GenKill.MidRoundStep | scripts/abi.py:493-503 | recomputing one node in place keeps the state sound, justified and growing |
| GenKill.RoundEnd | scripts/abi.py:492-505 | a full in-place round settles each fact or spreads it to one more node; a round without change is a fixpoint |
| GenKill.EnoughRounds | scripts/abi.py:492 | n rounds always reach the fixpoint |
| Flags.Predecessors | scripts/abi.py:362-367 | the lists built are the transpose of the successor lists |
| Flags.Successors | scripts/abi.py:330-359 | the successors of an instruction are, each once, its branch target if that is in the region and the next instruction unless it is a jump or a return |
| Flags.LiveAtIsReaches | scripts/abi.py:487-503 | flag liveness as a path statement is reachability in the gen/kill sense |
| Flags.FlagLiveness | scripts/abi.py:489-505 | n + 2 rounds suffice; live_in holds exactly when some path of such steps reaches a flag read, or an exit under the carry convention, with no flag write before, and live_out when that is so after the instruction |
| Flags.ReachesThroughPredecessor | scripts/abi.py:507-524 | a definition reaches an instruction exactly through one of its predecessors |
| Flags.FlagReaching | scripts/abi.py:507-524 | n + 2 rounds suffice, and reach_in holds exactly the flag writes joined to the instruction by a write-free path |
| Flags.AnalyseFlags | scripts/abi.py:477-539 | the exits are the rets and the b and br that lead nowhere in the region; the report lists for each flag read, and for the caller of a carry function, exactly the writes that reach it |
| RegPressure.Liveness | scripts/regpressure.py:335-350 | n + 2 rounds suffice; a register is live into an instruction exactly when some path reads it before writing it, and live out when it is live into a successor |
| RegPressure.ClobbersIsReaches | scripts/regpressure.py:454-483 | a call chain that destroys a register, with no function on it preserving it, is reachability in the gen/kill sense |
| RegPressure.RowStep | scripts/regpressure.py:467-481 | updating one row in place keeps the round's invariant |
| RegPressure.CallerSavedAre | scripts/regpressure.py:88-95 | of the registers, x30 alone is both destroyed by an unknown callee and callee-saved, and x18 alone is neither |
| RegPressure.ResolveClobbers | scripts/regpressure.py:454-483 | len + 2 rounds suffice through any recursion, and a row ends with exactly the registers that some call chain destroys |
| SavedRegs.State.ApplyEffect | scripts/abi.py:404-437 | the in-place update of the state is Applied, with loads, copies, writes, calls and SP in the source's order |
| DirtyRuns.CalleeSavedAre | scripts/abi.py:74-79 | the callee-saved registers are x19 to x30 and v8 to v15 |
| DirtyRuns.DirtyLaw | scripts/abi.py:404-432 | a register is dirty after an instruction exactly if the instruction writes it, other than by a copy of a callee-saved register, or calls and it is x30, or if it was dirty, or is a copy of one that was, and that one is not loaded |
| DirtyRuns.DirtyIsTraced | scripts/abi.py:404-432 | at the end of a run a register is dirty exactly when the dirt can be traced back, through copies, to the instruction that made it |
| DirtyRuns.DirtyWithoutCopies | scripts/abi.py:404-432 | on a run without such copies: exactly when it was written, or x30 by a call, and not loaded since |
| DirtyRuns.SavedAndCalled | scripts/abi.py:410-432 | x30 counts as saved once stored on the run, and a call as made once one was |
| DirtyRuns.DisplacedSince | scripts/abi.py:433-437 | SP is displaced by the adjustments since it was last restored |
| DirtyRuns.ReportsTraced | scripts/abi.py:720-760 | the registers reported at a return are those to which dirt can be traced on an entry path |
| DirtyRuns.CallReported | scripts/abi.py:430-432 | a ret reached from a call with x30 neither loaded nor written on the way is reported |
| SavedRegs.Join | scripts/abi.py:390-401 | the merged state is the join of the list, the clean state for none, and the inputs are left alone |
| SavedRegs.AttainedStep | scripts/abi.py:594-599 | what an attained state says after an instruction still happens on some entry path |
| SavedRegs.Covered | scripts/abi.py:590-602 | a stable assignment covers every entry path |
| SavedRegs.StableIsExact | scripts/abi.py:587-602 | and then is exactly the meet over all entry paths: dirty, saved and called hold iff on some path, SP is v iff on every path |
| SavedRegs.ExactWhenStable | scripts/abi.py:589-602 | the states are that meet if and only if another pass would leave them alone |
| SavedRegs.Solve | scripts/abi.py:587-602 | the capped loop computes n + 2 passes and exits for no change exactly when the last of them changes nothing; then its states are exact |
| SavedRegs.AlignedDisplacement | scripts/abi.py:434-437 | with 16-byte steps the tracked SP is the true displacement and never the sentinel by accident |
| SavedRegs.CheckRet | scripts/abi.py:720-760 | the reports list exactly the registers not restored and the SP error, and are empty exactly when the state is restored |
| SavedRegs.AlarmsAreReal | scripts/abi.py:604-612 | for an aligned function, whatever the exit, a return that every entry path restores is silent |
| SavedRegs.CheckReturns | scripts/abi.py:580-655 | for an aligned function there is no false alarm on either exit; on the exit for no change the reports at each return name exactly the registers that some entry path leaves dirty and the SP displacement, a return is silent exactly when every run that stays away from instruction 0 restores everything, and when what comes back to instruction 0 is restored, exactly when every run does |
| SavedRegs.PinnedEntryExactWhen | scripts/abi.py:592-593 | for an aligned function the runs that stay away from instruction 0 speak for every run at every instruction, whether it returns or not, if and only if each run that comes back there arrives with no register dirty and SP restored; true when no edge enters it |
| SavedRegs.SilentMeansEveryRun | scripts/abi.py:592-593 | under that condition the entry paths restore everything at a return if and only if every run does |
| SavedRegs.LoopToEntryBadRun | scripts/abi.py:592-593 | in a loop back to instruction 0 every entry path restores everything and some run does not |
| SavedRegs.LoopToEntryMissed | scripts/abi.py:580-612 | the reports that the checker returns for that loop are empty at the bad return |
| EntryGuard.RunFollows | scripts/abi.py:590-602 | every run is, behind a nop, a run that stays away from instruction 0, in the same state at its end |
| EntryGuard.RunBehind | scripts/abi.py:590-602 | and every run of the function behind a nop that passes the nop is such a run |
| EntryGuard.GuardedIsEveryRun | scripts/abi.py:592-593 | for every function, what the checker looks at behind a nop restores everything at an instruction if and only if every run does |
| EntryGuard.ReturnsDecidedExactWhen | scripts/abi.py:592-593 | at the returns of any function its entry paths speak for every run if and only if a nop in front takes no restoration away; it never adds one |
| EntryGuard.CheckGuarded | scripts/abi.py:580-612 | for an aligned function checked behind a nop, on the exit for no change, a return is silent exactly when every run restores everything |
| EntryGuard.CheckGuardedFewLoops | scripts/abi.py:580-612 | with few enough loops, those to the old entry included, that holds whatever the exit |
| EntryGuard.CompareChecks | scripts/abi.py:580-612 | the verdict on the function as it stands is right about every run at a return exactly when the check behind a nop gives the same verdict |
| EntryGuard.ReturnsRestoredNotNeeded | scripts/abi.py:592-593 | a function whose only return is restored on every run, though a run comes back to instruction 0 with x19 dirty |
| PassBound.JoinAllLeast | scripts/abi.py:390-401 | the join is the least state above what is joined |
| PassBound.PassesRise | scripts/abi.py:589-602 | every pass leaves each state where it is or raises it |
| PassBound.PassKeepsAlike | scripts/abi.py:589-602 | a pass treats what is reached, each set of registers closed under copies, SP, saved and called separately: states that agree on one agree on it afterwards |
| PassBound.LoopsDecide | scripts/abi.py:591-600 | once a pass leaves such a part alone where an edge leads back, the next leaves it alone everywhere |
| PassBound.KnownRests | scripts/abi.py:595-597 | which of those instructions are reached is settled after b passes |
| PassBound.PartComesToRest | scripts/abi.py:589-602 | and every part of at most h registers settles everywhere after (h + 1) b + 1 |
| PassBound.PassesComeToRest | scripts/abi.py:589-602 | with b instructions from which an edge leads back, and copies among at most h registers, more than (h + 1) b passes leave a fixpoint whose states are exact |
| PassBound.SoundCap | scripts/abi.py:589 | 21 n passes are enough for every region |
| PassBound.NoCopiesDepth | scripts/abi.py:419-428 | without copies from tracked registers h is 1 |
| PassBound.StraightLineLoops | scripts/abi.py:589 | a region whose edges all lead forward, or to instruction 0, has none of those instructions |
| PassBound.CheckFewLoops | scripts/abi.py:580-612 | with (h + 1) b at most n the capped check is exact at every return |
| RoundCap.BadRun | scripts/abi.py:580-602 | in the slow region of any length a run returns with x19 dirty |
| RoundCap.PassesOnTime | scripts/abi.py:589-602 | no pass moves a state further than the two tables of due passes allow |
| RoundCap.CapTooSmall | scripts/abi.py:589 | after n + 2 passes the bad return is still silent, for every n >= 12 |
| RoundCap.MissedByCap | scripts/abi.py:580-612 | the reports that the checker returns for that region are empty at the bad return |
| RoundCap.BoundAttained | scripts/abi.py:589 | that region has h = 1 and b = n - 5, and its states are exact after r passes if and only if r > 2 b |
| Minimize.DropScan | scripts/fuzz_minimize.py:115-124 | the scan drops, from left to right, each run of chunk bytes without which the rest still fails; one that drops nothing at chunk 1 shows that no byte can be dropped |
| Minimize.OneMinimalIsNoDrop | scripts/fuzz_minimize.py:118-121 | that no byte can be dropped means that no subsequence one byte shorter fails |
| Minimize.RemovePass | scripts/fuzz_minimize.py:111-129 | the pass terminates, still fails, and if it changes nothing (from two bytes on) no single byte can be dropped |
| Minimize.RanksUpdate | scripts/fuzz_minimize.py:132-135 | replacing one byte moves the rank sum by the ranks' difference |
| Minimize.SimplifyByte | scripts/fuzz_minimize.py:140-147 | byte i moves only to an easier value, and if it stays no easier value fails |
| Minimize.SimplifyPass | scripts/fuzz_minimize.py:138-148 | the pass still fails, and either lowers the rank sum or shows every byte stuck |
| Minimize.DerivedTrans | scripts/fuzz_minimize.py:111-148 | outputs derived from derived outputs are derived from the input |
| Minimize.Minimise | scripts/fuzz_minimize.py:186-208 | the loop terminates with a failing output derived from the input, every byte as easy as it can be; outputs are 1-minimal for exactly the oracles where the empty input or every one-byte input passes |
| Minimize.EmptyNotTried | scripts/fuzz_minimize.py:111-129 | from one failing byte, and from two, a run stops at one byte although the empty input fails |
| SymbolExtents.CondRegions | scripts/add_symbol_directives.py:116-147 | each position gets the stack of (conditional, branch) pairs around it, and two stacks are equal exactly when the directives between put both positions in one branch |
| SymbolExtents.StackIsBranch | scripts/add_symbol_directives.py:119-121 | that is, at equal depth, and either outside every conditional or with no conditional around the first closed and its innermost not moved to another branch in between |
| SymbolExtents.LastSection | scripts/add_symbol_directives.py:101-113 | a line is in data if the last section directive up to it says so, or there is none and the file starts in data |
| SymbolExtents.BodyEnd | scripts/add_symbol_directives.py:150-198 | the extent ends at the next start, or where its branch ends when a table of branches is given, less detached padding, and then in the branch where it began |
| SymbolExtents.ExtentShape | scripts/add_symbol_directives.py:157-198 | within an extent nothing else begins, its last line is neither blank nor an alignment, and only padding follows up to the next beginning, the end of the branch or of the file |
| SymbolExtents.Disjoint | scripts/add_symbol_directives.py:159-171 | an extent ends at or before the next global label |
| SymbolExtents.PlanExtents | scripts/add_symbol_directives.py:224-255 | each global symbol with a body is planned once, with its extent and section; the others are repeats or empty |
| SymbolExtents.Emit | scripts/add_symbol_directives.py:260-282 | the output is the plan's, line by line |
| SymbolExtents.OutputBracketed | scripts/add_symbol_directives.py:256-282 | reading the output, every closer follows its own opener in the same branch of the conditionals, pairs never nest or overlap, none stays open, and no other line is lost or moved |
| SymbolExtents.OutputWellAnnotated | scripts/add_symbol_directives.py:256-284 | the lines but the .global lines of converted symbols survive in order, and every planned extent has its opener, its trailing text and its closer, each between the lines where the extent begins and ends |
| SymbolExtents.Process | scripts/add_symbol_directives.py:201-284 | the annotator produces such an output from a plan that fits: properly bracketed, every directive in place, and no other line lost or moved |
| SampleTree.ChildrenOf | scripts/profile_samples.py:244-249 | the forward scan sums the counts of the node's children |
| SampleTree.SeenAbove | scripts/profile_samples.py:253-263 | the backward scan finds exactly whether an ancestor carries the key |
| SampleTree.OwnTelescopes | scripts/profile_samples.py:243-252 | own times of a forest add up to the counts of its top level |
| SampleTree.SelfConserved | scripts/profile_samples.py:241-252 | self times add up to the total if and only if every node covers its children |
| SampleTree.InclusiveFits | scripts/profile_samples.py:253-265 | a key's inclusive time never counts the same time twice |
| SampleTree.InclusiveBetween | scripts/profile_samples.py:241-266 | self <= inclusive <= total for every key, however often it repeats along a path |
| SampleTree.ParseSample | scripts/profile_samples.py:241-266 | the tables hold exactly the self and inclusive sums of each key |
| SampleTree.Account | scripts/profile_samples.py:241-266 | the two theorems hold of the tables the loop builds |

## Left out

- Reading assembly: regular expressions, macro expansion, label resolution and the mnemonic tables (`effect`, `def_use`, `defines_flags`) are not modelled; the analyses start from parsed records with resolved targets.
- `check_function` beyond SP and saved registers: the function-wide x30-save warning and the flag diagnostics are not modelled; reports carry an instruction index instead of a line and a text.
- The saved-register checker follows only the x, v, d and q spellings, as the source does: a write through another spelling of a callee-saved register is as untracked in the model as in the source.
- Gcm.Ghash: 128-bit integers are bit strings, most significant bit first, and bytes are numbers below 256 whose XOR is defined on their bits.
- Gcm.Seal: the two lengths must fit their eight-byte fields, as the source's `to_bytes` demands.
- Comb.CombMulBase: the source's `pow(..., -1, P)` raises where there is no inverse and the model's `Inverse` is 0 there; no such case arises under the hypotheses.
- Reduce.Pack: joining two 32-bit digits is addition of disjoint parts, written with `+` for the source's `|`.
- SavedRegs.Solve: whether the loop ended by its no-change exit is an extra result; the source does not return it.
- Minimize.Minimise: an oracle that stops the run (a misuse of the campaign) is not modelled.
- SymbolExtents.Process: an input line is a record of what the patterns match, required to be consistent in the way one line of text is. The two early returns of the source are not separate branches: with nothing to convert the loops give back the input.
- SymbolExtents: `#include` handling (`include_context`) and file input and output.
- SampleTree.ParseSample: reading the text of the report and resolving addresses to names; nodes are given as depth, count and key.
- Text generators, benchmarks, random checks and interoperability runs of the derivation scripts; the assembly itself.
- The source transformers under scripts/mutations and the optimiser.
