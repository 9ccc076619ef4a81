# Models and proofs for the Chrome EC firmware

Dafny models of the self-contained parts of the firmware, and proofs of what they promise.

- **X25519** (`Rfc7748`, `CurvePolynomials`, `Montgomery`, `Field25519`, `Curve25519`, `FieldBytes`, `X25519`,
  `LittleEndian`). The limb code on 32- and 64-bit integers against the function of section 5 of RFC 7748, which
  is written down in `Rfc7748` without limbs; and that function against the group law of the curve, by tangents
  and chords. All machine arithmetic is on the bounded types of `MachineInts`, so every operation is shown not to
  overflow. Right shifts of signed numbers are floor divisions, and `&`, `|` and `^` are those of two's complement
  (`Bits`).
- **Persistent state** (`StrikeWord`, `NvCounter`, `Nvmem`, `NvmemLock`, `TupleStore`, `NvmemVars`). Flash
  can only clear bits; a write that loses power clears any subset of the bits it was to clear, and an erase
  that loses power leaves anything. After power is lost, flash operations have no effect until the next boot.
  The NVMEM lock is a state machine with one step for each access to a shared variable.
- **Fast forms** (`ShiftRegister`, `CrcTable`, `CrcBits`, `Crc`, `Gf2Division`, `WrappedIndex`, `Queue`).
  The table CRC-32 against polynomial division, and free-running queue indices against a sequence.
- **Schedulers and events** (`Hooks`, `HookNotify`, `ChargeSelection`, `ChargeManager`, `MkbpEvents`, `MkbpSteps`,
  `Mkbp`, `KeyBits`, `Debouncing`, `KeyboardScan`). The deferred calls are a state machine: the hook task, any
  number of callers in tasks and interrupts, and time, interleaved between any two accesses to the shared
  variables. A key of the keyboard matrix is debounced as a function of all its readings.

Code that changes state is modelled by classes and arrays with the same loops; each method is tied to a
function of the old state, and the promises are lemmas about these functions and about runs.

Where the code and what is written about it differ, the model follows the code:

- The proof in the comment on fe_tobytes uses |h| <= p, which the stated limb bounds do not give: the
  quotient lies between -3 and 3. The result is right all the same.
- `nvmem.h` gives the generation number the range 0 to 0xfe, while the code wraps after 0xff (an 8-bit field).
- The header of `nvmem_commit` promises the lock until the commit. After a failed write the commit is
  abandoned and the lock stays with the task (`NvmemLock.FailedWriteKeepsLock`; exactly when:
  `NvmemLock.CommitKeepsIff`). The error exit of `nvmem_is_different` does not release it either
  (`NvmemLock.ComparisonKeepsLock`; exactly when: `NvmemLock.ReadOutcome`).
- `hook_task` can lose a new deadline, or run a cancelled routine, if a caller writes the slot between the
  test and the clearing (`Hooks.RearmIsLost`, `Hooks.CancelledRoutineStarts`; exactly when:
  `Hooks.StoreKeepsDeadline`, `Hooks.CancelInWindow`), and can sleep past a deadline (`Hooks.SleepEndsLate`;
  exactly when: `Hooks.SleepIsLateByTheLag`).
- A variable bound twice in a region that `initvars` accepts outlives its deletion
  (`NvmemVars.DuplicateIsAccepted`; exactly when: `NvmemVars.DeletingUnbinds`).
- The comment in `mkbp_get_next_event` says that a busy source makes it serve the other event first. Inside
  an addition or a clear that event may not be set, and the loop never ends (`MkbpSteps.HangsWhenQueued`,
  `MkbpSteps.HangsInClear`; exactly when: `MkbpSteps.HangsInRun`). A host command that takes an entry between
  the stores of a clear tears the FIFO (`MkbpSteps.DeliversAnother`, `MkbpSteps.HangsWhenTorn`; exactly when: `MkbpSteps.NextInv`).
- `queue_peek_units` beyond the count returns a number although it copies nothing (`Queue.Queue.PeekUnits`).
- A scan time is kept for 32 scans and then overwritten. With a debounce time that 32 scans do not reach,
  a held key is never seen (`KeyboardScan.HeldForEver`, over all such runs `KeyboardScan.ShortRunsNeverFlip`;
  exactly when debouncing goes on: `Debouncing.SettlingExactly`).

## Model

| member | source | states |
|---|---|---|
| X25519.ScalarMultGeneric | fw/common/curve25519.c:774-824 | for every scalar and point, the 32 bytes written are those of the X25519 function of section 5 of RFC 7748; the output may be the same buffer as an input |
| X25519.LadderIteration | fw/common/curve25519.c:794-816 | one ladder iteration with the swap deferred to the next one is one iteration of the RFC loop, and every field operation gets limbs within its bounds |
| X25519.LadderArithmetic | fw/common/curve25519.c:799-816 | the field operations of an iteration compute the RFC step for bit 0, with 121666 and BB where the RFC has 121665 and AA |
| X25519.LastFactor | fw/common/curve25519.c:809-816 | BB + 121666 E = AA + 121665 E in the field, where E = AA - BB |
| Montgomery.StepSplit | fw/common/curve25519.c:795-798 | a step of the RFC is a conditional swap followed by the step for bit 0 |
| Montgomery.StepDoublesAndAdds | fw/common/curve25519.c:799-816 | the step for bit 0 gives the polynomials of the x-only doubling, and of the x-only addition for the given difference, on the curve v^2 = u^3 + 486662 u^2 + u |
| CurvePolynomials.Tangent | fw/common/curve25519.c:799-816 | the identity of polynomials behind the doubling formula |
| CurvePolynomials.Chords | fw/common/curve25519.c:799-816 | the identity of polynomials behind the addition formula |
| Montgomery.DoubleIs | fw/common/curve25519.c:799-816 | the doubling formula gives the u-coordinate of the double by the tangent, for every point of the curve, infinity and points of order two included |
| Montgomery.SumIs | fw/common/curve25519.c:799-816 | the addition formula gives the u-coordinate of the sum by the chord, for all points whose difference has the given coordinate, infinity and opposite points included |
| Montgomery.StepMultiplies | fw/common/curve25519.c:794-816 | a step for bit b goes from the n-fold and (n + 1)-fold points to the (2 n + b)-fold and the next |
| Montgomery.LadderMultiplies | fw/common/curve25519.c:792-818 | the ladder ends with the u-coordinate of k times the point, for every k of 255 bits |
| Montgomery.X25519Multiplies | fw/common/curve25519.c:774-824 | the function of the RFC gives the u-coordinate of as many times the point as the decoded scalar says, 0 for the point at infinity, and otherwise the quotient whenever z^(2^255 - 21) inverts the denominator z |
| Montgomery.OrderTwoMultiplies | fw/common/curve25519.c:774-824 | the laws that these lemmas suppose of the multiples of a point can be met |
| LittleEndian.ScalarIs | fw/common/curve25519.c:783-785 | the decoded scalar is 2^254 plus the bits 3 to 253 of the input: a multiple of 8 from 2^254 to 2^255 |
| X25519.RunLadder | fw/common/curve25519.c:792-817 | the loop over bits 254 to 0 is the loop of the RFC |
| X25519.Clamp | fw/common/curve25519.c:783-785 | the three clamping statements are decodeScalar25519 |
| X25519.ScalarBit | fw/common/curve25519.c:794 | the bit expression reads bit pos of the scalar as a little-endian integer |
| X25519.FinishLadder | fw/common/curve25519.c:818-823 | the last swap, the inversion and the product give the encoded quotient of the ladder |
| X25519.FeInvert | fw/common/curve25519.c:637-693 | the addition chain computes z to the power 2^255 - 21, for all limbs that a multiplication accepts |
| X25519.SquareTimes | fw/common/curve25519.c:653-656 | the loop squares the element n times, within the limb bounds |
| X25519.SquaredPower | fw/common/curve25519.c:653-656 | n squarings double the exponent of a power n times |
| X25519.AppendOnes | fw/common/curve25519.c:653-687 | a block of the chain: n squarings and one product |
| X25519.OnesPower | fw/common/curve25519.c:653-687 | from powers whose exponents are m ones and n ones in binary, such a block gives the power with m + n ones |
| X25519.ChainPowers | fw/common/curve25519.c:653-691 | the blocks of the chain, in their order, end with the exponent 2^255 - 21 |
| X25519.PowAdd | fw/common/curve25519.c:637-693 | powers in the field add their exponents |
| Curve25519.FeMul | fw/common/curve25519.c:280-494 | for limbs within 1.65 * 2^26 and 1.65 * 2^25 no 32- or 64-bit operation overflows, the result stands for the product modulo 2^255 - 19, and its limbs are within 1.01 * 2^25 and 1.01 * 2^24 |
| Curve25519.FeSq | fw/common/curve25519.c:506-635 | the same for a square; the limbs are the ones that fe_mul gives for equal arguments, as both equal one function of the limbs |
| Curve25519.FeMul121666 | fw/common/curve25519.c:718-772 | multiplication by 121666 in the field, without overflow |
| Curve25519.FeAdd | fw/common/curve25519.c:230-235 | addition in the field, with limb bounds that fe_mul accepts |
| Curve25519.FeSub | fw/common/curve25519.c:246-251 | subtraction in the field, with limb bounds that fe_mul accepts |
| Curve25519.FeCswap | fw/common/curve25519.c:699-708 | the masked exchange swaps the arrays if b is 1 and changes nothing if b is 0 |
| Curve25519.Reduce | fw/common/curve25519.c:425-493 | the interleaved carries bring 64-bit sums within the tight limb bounds, without overflow |
| Curve25519.SqSums | fw/common/curve25519.c:506-594 | the shortened column sums of a square are the schoolbook columns |
| Curve25519.MulSums | fw/common/curve25519.c:280-424 | the column sums are the schoolbook columns, with 2^255 folded to 19 |
| Field25519.ProductElem | fw/common/curve25519.c:253-279 | the ten columns stand for the product modulo 2^255 - 19 |
| Field25519.CarryElem | fw/common/curve25519.c:425-493 | a carry out of any limb, also the one that wraps with factor 19, keeps the field element |
| Field25519.NestedFloors | fw/common/curve25519.c:140-166 | carrying with floors through all limbs gives the remainder and the quotient by 2^255 |
| Field25519.QuotientExact | fw/common/curve25519.c:105-150 | the estimated quotient is the floor of the value divided by 2^255 - 19, for all limbs within 1.1 * 2^26 and 1.1 * 2^25 |
| Field25519.CanonicalValue | fw/common/curve25519.c:152-171 | adding 19 q and dropping 2^255 leaves the representative in [0, 2^255 - 19) |
| FieldBytes.FeToBytes | fw/common/curve25519.c:127-205 | the bytes are the little-endian representative in [0, 2^255 - 19), for every limb vector within the bounds |
| FieldBytes.FeFromBytes | fw/common/curve25519.c:58-103 | the limbs stand for the low 255 bits of the input, and are tight |
| FieldBytes.CanonicalDecode | fw/common/curve25519.c:173-204 | the 32 shifted and joined bytes decode to the value of the canonical limbs |
| LittleEndian.ReadThenWrite | fw/common/curve25519.c:58-205 | as functions of byte strings, reading and then writing reduces the low 255 bits modulo 2^255 - 19 |
| FieldBytes.ReadAndWrite | fw/common/curve25519.c:58-205 | fe_frombytes followed by fe_tobytes leaves the low 255 bits of the 32 bytes, reduced modulo 2^255 - 19 |
| LittleEndian.EncodeDecode | fw/common/curve25519.c:127-205 | encoding inverts decoding of byte strings |
| NvCounter.NvCounter.Incr | fw/common/nvcounter.c:174-260 | with power the number goes up by one and is returned, or is the largest and stays; if power is lost at any point the number stays or goes up by one; the flash pages stay well formed |
| NvCounter.NvCounter.Run | fw/common/nvcounter.c:174-260 | any number of calls, with power lost inside any of them, is a run of the abstract counter |
| NvCounter.ReturnedValuesIncrease | fw/common/nvcounter.c:174-260 | over every run the returned values are strictly increasing |
| NvCounter.SkippedValues | fw/common/nvcounter.c:174-260 | each call that loses power skips at most one value, and without one each call returns the previous value plus one |
| NvCounter.ExhaustedForEver | fw/common/nvcounter.c:237-240 | an exhausted counter never returns a value again |
| NvCounter.CountFromContents | fw/common/nvcounter.c:184-235 | the number is a function of what is on flash |
| NvCounter.StrikesUnique | fw/common/nvcounter.c:184-235 | a page determines its number of strikes |
| NvCounter.NvCounter.CountHigh | fw/common/nvcounter.c:184-217 | the strikes of the HIGH page, torn word included; the incorrect-count branch is dead |
| NvCounter.NvCounter.CountLow | fw/common/nvcounter.c:222-235 | the strikes of the LOW page; the incorrect-count branch is dead |
| NvCounter.NvCounter.Inc | fw/common/nvcounter.c:152-172 | one more strike on the page, or none if power is lost; on every page that it is called on, the branch for a word already full is dead, so no write lands outside the word |
| NvCounter.NvCounter.Decode | fw/common/nvcounter.c:61-125 | reading a word returns its strikes and completes a torn one, keeping the count of the page if power is lost meanwhile |
| NvCounter.NvCounter.FinishErase | fw/common/nvcounter.c:202-207 | an erase left pending by a power loss is finished, and counts once |
| NvCounter.NvCounter.Rollover | fw/common/nvcounter.c:243-253 | the rollover of the LOW page counts once, wherever power is lost |
| StrikeWord.EncodeBytes | fw/common/nvcounter.c:127-150 | the clean word after v strikes, byte by byte from the top: two strikes clear a byte, one leaves it 0x3c |
| StrikeWord.TornStrikeDecodes | fw/common/nvcounter.c:61-150 | a word torn between strike k and k + 1 decodes as k or as k + 1 |
| StrikeWord.DecodeHolds | fw/common/nvcounter.c:61-125 | a word that holds c strikes decodes as c, torn or not |
| StrikeWord.Affirm | fw/common/nvcounter.c:61-125 | writing the clean code over a torn word completes it, and interrupted keeps its count |
| StrikeWord.InterruptedStrike | fw/common/nvcounter.c:127-172 | any subset of the bits of a strike leaves the old or the new count |
| Nvmem.Nvmem.Save | fw/common/nvmem.c:103-170 | with power the cache is on flash and active; with power lost at any flash operation, a boot recovers what it would have recovered before, or the new contents; a save with nothing changed touches nothing, and any other flips the active partition, leaves the old one alone and counts its generation up |
| Nvmem.Nvmem.FindPartition | fw/common/nvmem.c:278-316 | a boot reads what flash holds, and if nothing verifies, starts both partitions over |
| Nvmem.Nvmem.Reinitialize | fw/common/nvmem.c:241-254 | starting over is atomic as well |
| Nvmem.Nvmem.ReadVerify | fw/common/nvmem.c:181-208 | reads and deciphers a partition, and says whether its hash matches |
| Nvmem.Nvmem.Run | fw/common/nvmem.c:103-316 | any sequence of commits and boots, with power lost inside an operation or between two of them, is a run of the abstract store |
| Nvmem.RecoversLastCommit | fw/common/nvmem.c:103-316 | after any run, a boot recovers the last commit that completed or a later one that was cut short |
| Nvmem.ChoiceIsActive | fw/common/nvmem.c:256-316 | a boot chooses the active partition, whatever is in the other one, for every wrap of the generation number |
| Nvmem.NewestOfNeighbours | fw/common/nvmem.c:256-276 | of two neighbouring generation numbers the later one is newer, around the wrap |
| Nvmem.EraseIsHarmless | fw/common/nvmem.c:123-132 | erasing the other partition, even halfway, does not change what a boot recovers |
| Nvmem.WriteTakesOver | fw/common/nvmem.c:103-170 | once the next generation is whole in the other partition, a boot recovers it |
| NvmemLock.NextInv | fw/common/nvmem.c:210-239 | every step of every task keeps the lock invariant, and a task without the mutex changes nothing shared |
| NvmemLock.WriterExcludesOthers | fw/common/nvmem.c:464-603 | from a first write, or from disabling commits, no other task reads or changes the cache before this task has unlocked with nothing pending, over every interleaving |
| NvmemLock.CacheChanges | fw/common/nvmem.c:484-546 | the cache changes only in an access by the task that holds the mutex |
| NvmemLock.PendingStarts | fw/common/nvmem.c:484-570 | a write or disabling commits makes the task's changes pending |
| NvmemLock.PendingEnds | fw/common/nvmem.c:548-603 | only the task itself ends that, by a completed save or by enabling commits |
| NvmemLock.NeverWaitsForItself | fw/common/nvmem.c:210-229 | over every run a task that waits for the lock is not itself the holder, and goes on exactly when the mutex is free |
| NvmemLock.HolderPasses | fw/common/nvmem.c:210-229 | over every run nvmem_lock_cache lets its caller through at once if it holds the lock, and otherwise sends it to the mutex |
| NvmemLock.CallOutcome | fw/common/nvmem.c:441-603 | over every run, what a call by the holder leaves of the pending write, of enabled commits, of the error and of the lock is what its arguments and the variables said at any time before: a write fails exactly out of range, a commit after a failure is abandoned, and one with commits enabled ends the write and the lock |
| NvmemLock.HolderEnables | fw/common/nvmem.c:548-562 | called by the holder, nvmem_enable_commits enables commits and goes on to commit if and only if they were disabled |
| NvmemLock.OthersCommitNothing | fw/common/nvmem.c:548-590 | called by a task that does not hold the lock, enabling commits or committing changes nothing |
| NvmemLock.CommitKeepsIff | fw/common/nvmem.c:572-603 | a commit by the holder ends with the lock still held if and only if a write had failed or commits are disabled |
| NvmemLock.ReadOutcome | fw/common/nvmem.c:441-482 | a read or a comparison ends with the lock still held if and only if a write is in progress, commits are disabled, or it is a comparison whose arguments are out of range |
| NvmemLock.ComparisonKeepsLock | fw/common/nvmem.c:441-462 | a run from the start in which a comparison with arguments out of range is over, nothing is pending, and the lock is still held |
| NvmemLock.FailedWriteKeepsLock | fw/common/nvmem.c:484-603 | a run from the start in which a write fails, the commit after it is abandoned, and the lock is still held |
| NvmemVars.NvmemVars.SetVar | fw/common/nvmem_vars.c:235-318 | the status and the new tuples for every key and value, and the whole region is again their image; it overflows if and only if the key is not empty and the map with the new binding does not fit |
| NvmemVars.OverflowsExactly | fw/common/nvmem_vars.c:235-318 | the capacity of the store: overflow if and only if 3 bytes, key and value for every binding of the new map, and one more, exceed the region; an empty key is invalid, and everything else succeeds |
| TupleStore.EncodeSize | fw/common/nvmem_vars.c:295-299 | the tuples take as many bytes as the bindings of their map, in whichever order |
| NvmemVars.SetIsMapUpdate | fw/common/nvmem_vars.c:235-318 | on the map: success binds or, without a value, unbinds the key; overflow only unbinds it; nothing else changes, and no key occurs twice |
| NvmemVars.LastRequestDecides | fw/common/nvmem_vars.c:209-318 | over every run from the empty store, the last request for a key decides: the key is bound to its value if it has one and the map with it fits, and unbound otherwise |
| NvmemVars.NeverRequested | fw/common/nvmem_vars.c:209-318 | a key never set is not bound |
| NvmemVars.DeletingUnbinds | fw/common/nvmem_vars.c:164-278 | in a region accepted by initvars, deleting a key unbinds it if and only if it is not bound twice |
| NvmemVars.DuplicateIsAccepted | fw/common/nvmem_vars.c:164-278 | a region that initvars accepts, and a key that is still bound there after it was deleted |
| NvmemVars.NvmemVars.GetVar | fw/common/nvmem_vars.c:209-233 | finds a tuple if and only if the key is bound, and its value bytes are the bound value |
| NvmemVars.NvmemVars.GetVarIdx | fw/common/nvmem_vars.c:140-153 | the first tuple with the key, or the place for a new one |
| NvmemVars.NvmemVars.MatchKeyAt | fw/common/nvmem_vars.c:94-110 | the comparison without early exit is exact |
| NvmemVars.NvmemVars.InitVars | fw/common/nvmem_vars.c:164-207 | a region is kept unchanged if and only if it is the image of some list of tuples, and otherwise becomes the empty store |
| NvmemVars.ParseGoesOn | fw/common/nvmem_vars.c:173-195 | a parse that begins with some tuples goes on with the tuple found after them, or ends there |
| TupleStore.DocumentedExample | fw/common/nvmem_vars.c:57-74 | the bytes of the two tuples in the implementation notes |
| TupleStore.MapOfWithout | fw/common/nvmem_vars.c:249-277 | removing the tuple of a key removes it from the map and keeps the rest |
| TupleStore.ShiftedStarts | fw/common/nvmem_vars.c:252-272 | moving the bytes after a tuple over it leaves the image of the other tuples |
| Crc.AccumulatorIsCheckValue | fw/common/crc.c:62-94 | for every message the accumulator holds the check value of clause 3.2.9 of IEEE 802.3, by polynomial division |
| Crc.TableIsBitSerial | fw/common/crc.c:62-74 | the table gives what bit-serial processing gives, for every message and start value |
| Crc.WordIs32Steps | fw/common/crc.c:81-84 | hashing a 32-bit word is xor with the word and 32 bit-steps |
| Crc.HalfWordIs16Steps | fw/common/crc.c:86-89 | hashing a 16-bit word is xor with the word and 16 bit-steps |
| Crc.BurstNeverCollides | fw/common/crc.c:62-94 | two different messages of equal length whose differences lie within 32 consecutive bits never collide |
| Crc.Hash | fw/common/crc.c:62-74 | the byte loop computes the register after the message, by the table and bit by bit |
| Crc.Accumulator.Hash32 | fw/common/crc.c:81-84 | appends the four octets of the word to the message |
| Crc.Accumulator.Hash16 | fw/common/crc.c:86-89 | appends the two octets of the word to the message |
| Crc.Accumulator.Result | fw/common/crc.c:91-94 | the check value of everything hashed since crc32_init |
| CrcTable.Entry | fw/common/crc.c:13-57 | every one of the 256 table entries is eight bit-steps of its index |
| CrcBits.RegisterIsRemainder | fw/common/crc.c:12-74 | the register after a message is the remainder of a polynomial division |
| CrcBits.WordAtOnce | fw/common/crc.c:62-89 | feeding the bits of a word one by one is xor with the word and as many steps |
| CrcBits.BurstDetected | fw/common/crc.c:62-74 | the same as BurstNeverCollides, on bits |
| CrcBits.ReflectedGenerator | fw/common/crc.c:12 | the constant of the reflected register is the generator polynomial |
| Gf2Division.RemainderIsUnique | fw/common/crc.c:12 | long division finds the one remainder there is |
| Gf2Division.RemainderExists | fw/common/crc.c:12 | and there is one |
| ShiftRegister.StepsSplit | fw/common/crc.c:68-71 | eight steps depend on the lowest octet alone, apart from the shift of the others |
| Queue.Queue.AddUnits | fw/common/queue.c:136-162 | appends as many units as fit, in order, also when the copy is in two parts and the indices wrap the machine word |
| Queue.Queue.AddUnit | fw/common/queue.c:121-134 | appends one unit, if there is space |
| Queue.Queue.RemoveUnits | fw/common/queue.c:199-217 | removes the first units in order, and touches no more of the destination |
| Queue.Queue.RemoveUnit | fw/common/queue.c:184-197 | removes the first unit, if there is one |
| Queue.Queue.PeekUnits | fw/common/queue.c:219-245 | copies units from position i on without removing them; for i past the count nothing is copied, and the number returned comes from the wrapped difference |
| Queue.Queue.AdvanceHead | fw/common/queue.c:99-108 | drops the first units |
| Queue.Queue.AdvanceTail | fw/common/queue.c:110-119 | the units in the buffer after the tail join the queue |
| Queue.Queue.GetWriteChunk | fw/common/queue.c:71-83 | the largest contiguous part of the free space from the tail |
| Queue.Queue.GetReadChunk | fw/common/queue.c:85-97 | the largest contiguous run of queued units from the head, with their contents |
| Queue.Queue.AddThroughChunk | fw/common/queue.c:71-119 | filling a write chunk and advancing the tail is an ordinary append |
| Queue.Queue.Count | fw/common/queue.c:35-38 | the wrapped difference of the indices is the number of queued units |
| Queue.Queue.IsEmpty | fw/common/queue.c:30-33 | equal indices mean an empty queue, never a full one |
| WrappedIndex.WrapSum | fw/common/queue.c:123 | the low bits of a wrapped index are those of the unwrapped one |
| WrappedIndex.SlotAfter | fw/common/queue.c:150-159 | where the two parts of a copy lie in the ring |
| Hooks.SleepMissesNothing | fw/common/hooks.c:215-239 | over every interleaving with callers, whenever the hook task sleeps, for each armed deadline a wake is pending or in flight, or the sleep ends by then and by the next tick, up to the time that passed since the task read the clock |
| Hooks.SleepIsLateByTheLag | fw/common/hooks.c:216-239 | a sleep planned to end at a deadline ends at it if and only if no time passed since the clock was read |
| Hooks.NextInv | fw/common/hooks.c:134-240 | every step of the task, of a caller and of time keeps the invariant |
| Hooks.StartsOnTime | fw/common/hooks.c:182-192 | no routine starts before its deadline or after being cancelled, unless its slot was written between the test and the clearing |
| Hooks.ComputedBy | fw/common/hooks.c:134-148 | over every run, the deadline that a caller is about to store is the time of its call plus its delay |
| Hooks.ArmedBy | fw/common/hooks.c:141-190 | over every run, an armed slot holds the deadline of the last caller that wrote it, and its routine has not started since |
| Hooks.StartsAfterDelay | fw/common/hooks.c:134-192 | over every run, a routine starts outside the window only when more than the delay has passed since the call that armed it |
| Hooks.TicksApart | fw/common/hooks.c:194-203 | over every run two ticks are at least the interval apart |
| Hooks.SleepReason | fw/common/hooks.c:215-239 | over every run a sleep is planned to end at the next tick, or at a deadline that the task read in this pass, and not earlier |
| Hooks.TouchedByACaller | fw/common/hooks.c:183-190 | that exception is a write by a caller exactly there |
| Hooks.StoreKeepsDeadline | fw/common/hooks.c:146-148 | a stored deadline is safe if and only if the task is not between testing this slot and clearing it, or the deadline is already past |
| Hooks.DeferralNeverLost | fw/common/hooks.c:182-192 | a safe deferral stays armed until its slot is written again or its routine has started after the deadline |
| Hooks.RearmLost | fw/common/hooks.c:183-190 | in that window the new deadline is lost and the routine starts at once |
| Hooks.WindowIsReached | fw/common/hooks.c:146-190 | a run from the start that reaches the window, with a caller about to store a later deadline |
| Hooks.RearmIsLost | fw/common/hooks.c:146-190 | in that run the later deadline is stored, its slot is cleared, and its routine starts 990 microseconds early |
| Hooks.CancelledRoutineStarts | fw/common/hooks.c:141-190 | in that run the cancelled routine starts |
| Hooks.SleepEndsLate | fw/common/hooks.c:216-239 | a run in which the task is delayed before it sleeps, and the sleep ends 50 microseconds after the deadline |
| Hooks.CancelHolds | fw/common/hooks.c:141-143 | a routine cancelled outside the window does not start before it is armed again |
| Hooks.CancelInWindow | fw/common/hooks.c:183-190 | a cancellation takes hold if and only if it is outside the window |
| Hooks.PassRunsDueRoutines | fw/common/hooks.c:177-192 | a routine whose deadline is past when a pass starts runs in that pass |
| HookNotify.Notify | fw/common/hooks.c:92-132 | the loops end, and every hook is called exactly once, by priority and within a priority in table order |
| HookNotify.OrderIsUnique | fw/common/hooks.c:106-124 | that order is the only one |
| ChargeManager.ChargeManager.GetBestChargePort | fw/common/charge_manager.c:429-509 | the selection is the best: no charge on request; else the best supplier of the override port if it offers charge; else a candidate that no other beats by priority or power, on the active port if it has one such |
| ChargeManager.ChargeManager.Refresh | fw/common/charge_manager.c:515-681 | takes the best port once the offers of the ports refused so far are set to zero, and only if the board accepts it in answer to the next question or it is the active port and supplier; clears an override that was not selected, limits the current, and says whom to tell; it fails only if the board refuses not to charge |
| ChargeManager.ChargeManager.Hunt | fw/common/charge_manager.c:528-559 | the hunt ends, as every refusal removes a chargeable port; the refused ports are, one after the other, the best of what was left, each was refused when asked, and the last question decides |
| ChargeManager.RefusedOnce | fw/common/charge_manager.c:528-559 | no port is refused twice in a refresh, whatever the board answers, so there are at most as many refusals as ports |
| ChargeManager.ChargeManager.Adopt | fw/common/charge_manager.c:561-647 | the new limits, and who is told of them |
| ChargeManager.ChargeManager.GetCeil | fw/common/charge_manager.c:407-420 | the smallest ceiling that is set, or none |
| ChargeManager.CurrentIsDetermined | fw/common/charge_manager.c:587-593 | the smallest of the offer and the ceilings is one number |
| ChargeSelection.SelectsWhenItCan | fw/common/charge_manager.c:429-509 | a port is selected if and only if charging is wanted and some supplier offers current and voltage on a port that may charge; the one selected is of that kind |
| ChargeSelection.SuppliersInOrder | fw/common/charge_manager.c:32-41 | the order of the suppliers by name, in which only type C and proprietary ones are equal |
| ChargeSelection.PortIsStable | fw/common/charge_manager.c:441-448 | a refresh after a refresh keeps the port, also when the first one cleared the override |
| ChargeSelection.Table.RejectRemovesPort | fw/common/charge_manager.c:553-558 | zeroing the currents of a port removes it, and no other, from the chargeable ports |
| Mkbp.Mkbp.GetNextEvent | fw/common/mkbp_event.c:81-141 | serves the first event in turn that can be served; FIFO entries go out in the order they were added, none lost or repeated between clears; the retry loop ends; the interrupt line falls if and only if the answer is that there is no event, or an event with no other left, and is raised for the next entry if that wakes the host |
| Mkbp.Mkbp.FifoAdd | fw/common/keyboard_mkbp.c:163-199 | adds the entry at the end, or refuses it when the FIFO is at its depth, or drops it when the host sleeps on and nothing else is queued; the head's event bit stays set; the memory is the one that its steps, taken one by one, lead to |
| Mkbp.Mkbp.GetData | fw/common/keyboard_mkbp.c:284-318 | busy if and only if the head is of another type; otherwise removes the head and sends the event of the next |
| Mkbp.Mkbp.FifoRemove | fw/common/keyboard_mkbp.c:106-135 | removes the head of the FIFO |
| Mkbp.Mkbp.ClearFifo | fw/common/keyboard_mkbp.c:145-156 | empties the FIFO and leaves the event bits |
| Mkbp.Mkbp.FindEvent | fw/common/mkbp_event.c:93-100 | the first event that is set, in the order of the round robin |
| MkbpEvents.LoopEndsIffLive | fw/common/mkbp_event.c:88-131 | the retry loop ends if and only if some set event is answered, and then within one turn, with the first such event |
| MkbpSteps.NextInv | fw/common/keyboard_mkbp.c:145-199 | additions and clears store by store, with host commands between any two stores: what holds at each position is kept, if and only if the step does not end a clear in which a host command has taken entries |
| MkbpSteps.HangsInRun | fw/common/keyboard_mkbp.c:145-199 | over every run in which no clear has ended so, at every position, a host command never ends if and only if only FIFO events are set and either an addition to an empty FIFO has queued its entry and not set its event, or a clear has stored start but not entries and the event of the entry then at the head is not set |
| MkbpSteps.HangsInAddition | fw/common/keyboard_mkbp.c:163-199 | the same seen from the start of an addition: which memory leads to a position where a host command never ends |
| MkbpSteps.HangsWhenQueued | fw/common/keyboard_mkbp.c:183-194 | a run from the start ends at the first of these positions |
| MkbpSteps.HangsInClear | fw/common/keyboard_mkbp.c:145-154 | a run from the start ends at the second, although the event of the new entry is set |
| MkbpSteps.TearsFifo | fw/common/keyboard_mkbp.c:145-156 | a clear in which a host command has taken entries leaves start and end apart |
| MkbpSteps.DeliversAnother | fw/common/keyboard_mkbp.c:145-156 | after such a clear a run goes on to a state in which the host gets another entry than the only one queued |
| MkbpSteps.HangsWhenTorn | fw/common/keyboard_mkbp.c:145-156 | and another to one in which a host command never ends, although no addition or clear is under way |
| MkbpSteps.TakenInOrder | fw/common/keyboard_mkbp.c:163-199 | between clears, host commands take the entries in the order in which they were queued, none lost and none twice, wherever the commands fall |
| MkbpSteps.Clears | fw/common/keyboard_mkbp.c:145-156 | the stores of a clear that nothing interrupts lead to the cleared memory |
| MkbpSteps.Adds | fw/common/keyboard_mkbp.c:163-199 | from any state between additions, the stores of an addition that nothing interrupts, one after the other, lead to what the whole addition does |
| MkbpEvents.NoneStarves | fw/common/mkbp_event.c:81-131 | over every sequence of calls, an event that stays set and whose source answers is served within as many calls as there are events |
| Mkbp.LineStays | fw/common/mkbp_event.c:56-141 | over every mix of work, once the interrupt line is raised it stays raised as long as an event is set |
| Mkbp.Mkbp.Run | fw/common/mkbp_event.c:56-141 | any mix of additions, clears, other events and host commands: every command is answered, the FIFO is at each point the abstract queue, and the entries that the host got since the last clear, followed by those queued, are the ones accepted since then; the commands that find an event are a sequence as in NoneStarves; each piece of work lowers the interrupt line if and only if it is a command that leaves no event |
| MkbpEvents.OthersGetNearer | fw/common/mkbp_event.c:89-92 | serving an event moves every later one nearer in the round robin |
| KeyboardScan.KeyboardScan.CheckKeysChanged | fw/common/keyboard_scan.c:417-527 | after every scan the debounced value, the debouncing bit and the slot of every key are what all its readings make of them; a key flips only if it has read the new value for the debounce time; the reported changes are exactly the flips, and a ghosted scan changes nothing |
| KeyboardScan.AcceptedKey | fw/common/keyboard_scan.c:438-489 | what the two loops do to a key, with the time in its slot, is one more reading |
| KeyboardScan.LatestIsSlotScan | fw/common/keyboard_scan.c:425-428 | the slot of the scan e holds, at scan n, the time of scan e + 32 ((n - e) / 32) |
| KeyboardScan.ShortRunsNeverFlip | fw/common/keyboard_scan.c:417-489 | over every run in which 32 scans take less than the debounce time, no key ever flips, and each is debounced from its first edge on |
| KeyboardScan.HeldForEver | fw/common/keyboard_scan.c:417-489 | one such run, of any length: a key held with a scan every 900 microseconds and 30 milliseconds to debounce is never seen |
| KeyboardScan.HeldLongEnough | fw/common/keyboard_scan.c:417-489 | a run whose scans are further apart than the debounce time: the held key is seen |
| Debouncing.FlipsAreDebounced | fw/common/keyboard_scan.c:454-489 | a key flips only if all accepted scans over at least the debounce time, within the last 32 scans, read its new value |
| Debouncing.SettledIsLast | fw/common/keyboard_scan.c:454-489 | a key that is not being debounced is as in the last accepted scan |
| Debouncing.TakesValueExactly | fw/common/keyboard_scan.c:467-489 | a key takes its new value in an accepted scan if and only if the time since the scan in its slot has reached the debounce time |
| Debouncing.SettlingExactly | fw/common/keyboard_scan.c:438-473 | a key is being debounced if and only if it had an edge and no accepted scan since has found the debounce time elapsed |
| Debouncing.HeldKeySettles | fw/common/keyboard_scan.c:454-489 | a held key has its new value once an accepted scan, among the 32 from the edge on, comes the debounce time after the edge |
| Debouncing.NeverEnds | fw/common/keyboard_scan.c:417-489 | if any 32 readings take less than the debounce time, debouncing never ends |
| KeyboardScan.HasGhosting | fw/common/keyboard_scan.c:384-408 | ghosting is found if and only if two columns share two pressed rows |
| KeyboardScan.SettleColumn | fw/common/keyboard_scan.c:454-489 | the keys that are done debouncing take their new value, and exactly the changed ones are reported |
| KeyboardScan.NoteColumn | fw/common/keyboard_scan.c:438-451 | exactly the rows that read differently start debouncing in this scan |
| KeyboardScan.SlotsNext | fw/common/keyboard_scan.c:425-428 | each slot holds the time of the last scan that used it |
| KeyBits.KeyIsBit | fw/common/keyboard_scan.c:445-465 | key i of a column is bit i of its byte |
| KeyBits.TwoKeys | fw/common/keyboard_scan.c:401-403 | x & (x - 1) is nonzero if and only if two bits are set |

## Left out

- Random keys, the constant-time comparison and the wrappers X25519_keypair, X25519 and X25519_public_from_private.
- Montgomery.X25519Multiplies: it speaks of a point whose multiples obey the group law; that the law is associative, so that every point of the curve has such multiples, is not proved. The primality of 2^255 - 19 is not used: inversion is stated as an exponent, and that it inverts is a premise where a quotient is named.
- Timing: that the field code has no secret-dependent branches is not stated.
- The hash and the cipher of NVMEM are parameters. It is assumed that equal hashes mean equal contents, that the cipher with one salt is its own inverse, and that a torn or erased partition fails verification (Nvmem.SoundIsPossible shows that this can be met).
- Flash and cipher errors other than power loss (the failure exits of nvmem_save), and nvmem_erase_user_data, which restarts the generation number between its two saves.
- The offset table, ranges and return codes of nvmem_read, nvmem_write and nvmem_move: in the lock model they are accesses to the cache, in the commit model arbitrary new contents.
- The mutex of the RTOS is one atomic step; fairness and priorities of tasks are not modelled.
- The shared-memory copy in nvmem_vars.c, nvmem_read and writevars: a store object starts with the bytes read. The region has two spare bytes after it, as the comparison in match_key_at may look that far. Keys and values are not stored inside the region themselves.
- Queue.Queue.AddUnits: a unit is one element, so unit_bytes and the byte copies inside a unit are not modelled; neither are the policy callbacks, which get the numbers that the methods return.
- The rows of the CRC table have sixteen entries each, for the same 256 entries.
- Big-endian machines: crc32_hash32 and crc32_hash16 hash the word as it lies in little-endian memory.
- Hooks.SleepMissesNothing: a store to the 64-bit deadline is one step, although it is two on the hardware, and each round of the two loops reads the slot once, while a compiler may read it again; the 64-bit clock does not wrap and starts above 0. What hooks and deferred routines do is covered only as far as they call hook_call_deferred; HOOK_SECOND is not modelled.
- HookNotify.Notify: priorities outside HOOK_PRIO_FIRST to HOOK_PRIO_LAST, which the header excludes, are excluded.
- ChargeManager.ChargeManager.Refresh: the board's answers are arbitrary, but the offers are not changed by other tasks during one refresh; hardware charge ramps, dual-role swaps, logging and host events are left out, and power is not limited to 32 bits.
- Mkbp.Mkbp.FifoAdd: the methods of the class are atomic; host commands between the stores of an addition or a clear are in MkbpSteps, where each host command runs in one piece. An addition inside a host command, and two additions or clears at once (keyboard_clear_buffer does not take fifo_mutex), are not modelled. The source of one event does not send others, and only types with a FIFO source are added, as in the repository.
- KeyboardScan.KeyboardScan.CheckKeysChanged: the matrix that is read is arbitrary; runtime key combinations, printing and the scan task around it are left out.
- pd_log.c, int_sqrtf, the Bluetooth packing, drivers, console and host command wrappers.
