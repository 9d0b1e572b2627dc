# A model of the CPU, FPU, NoC and cache blocks

This project models four parts of the hardware repository and proves what each of them promises, for
all inputs and all runs:

1. **The binary32 datapaths** `fp_add`, `fp_sub`, `fp_mul` and `fp_div` against the exact reference in
   `reference/`. Each datapath is a method that follows the register transfers of its source, loops
   included. Its result is proved equal to the exact fraction rounded once by
   `binary32_from_fraction`, over all pairs of finite operands. The guard/round/sticky decision
   is one lemma, `RneOfGrs`. `RoundsQuotient` carries it to the exact values of the multiplier and the
   divider; in the adder `RoundAndPack` combines it with `RneOfJam`, which says that a sticky-shifted
   register may be rounded in place of the exact sum. The encoder itself is proved correctly rounded, monotone, odd and inverse
   to `exact_fraction` (IEEE 754-2019, sections 3.4, 4.3.1 and 7.4).
2. **The NoC router and the 2x2 mesh.** One step is one clock edge of all four routers, with arbitrary
   traffic and readiness at the endpoints. Exactly-once delivery, per-flow order, deadlock freedom,
   bounded service, and delivery once every endpoint has been ready twenty times over, whoever stalls in
   between, hold over every run from reset.
3. **Cache V2 over its backing memory.** For every request sequence, every stalling on either side and
   every memory, each request is answered within a bound and the memory traffic is exactly one store per
   write and one fetch per read miss. The responses are those of a flat byte memory, and the lines equal
   the memory, for exactly the address sets in which no two addresses select the same memory word.
4. **The CPU execution core against the Python emulator** of the same RV32I subset (RISC-V ISA
   Manual, Vol. I, version 20191213, sections 2.3 to 2.6). Each clock edge of the core is one step of
   the emulator in PC, x0 to x31, memory and the stream of commits; the conditions under which this
   fails are stated as equivalences. Both sides are also proved to follow an account of the
   instructions that shares nothing with them: encodings as numbers, results as arithmetic and bits.

Parts that the source writes as clocked in-place updates appear twice: as a step function on values,
about which the theorems speak, and as classes with arrays and registers (`NocHardware`,
`CacheHardware`, `CpuHardware`, `Rv32iBackend`) whose methods are proved to compute that step function.

## How to read the files

| files | contents |
|---|---|
| `Powers`, `Rounding` | powers of two, bit slices; round-to-nearest-even, guard/round/sticky, sticky ("jammed") values |
| `Binary32`, `Magnitudes`, `FpuReferenceModel`, `Binary32Properties`, `FpuContract` | `reference/binary32.py` and `reference/fpu_reference_model.py`, and what they promise |
| `FpuOperand`, `FpuAdd`, `FpuSub`, `FpuMul`, `FpuDiv`, `FpuSigns` | the four datapaths, and the sign rule |
| `NocRouter`, `NocMesh` | the step functions of the router and the mesh, and where packets can be |
| `NocDelivery`, `NocOrder`, `NocSource`, `NocProgress`, `NocLiveness` | the theorems about whole runs of the mesh |
| `NocService`, `NocFairness`, `NocStability` | waiting and stalling at one output |
| `NocHardware` | router and mesh as classes |
| `CacheV2`, `CacheRefinement`, `CacheCoherence`, `CacheTraffic`, `CacheProgress`, `CacheHardware` | cache and memory: step function, theorems, classes |
| `Rv32i`, `Alu`, `CpuExecCore`, `CpuHardware` | instruction words, ALU, core: step function and classes |
| `Rv32iEmulator`, `Rv32iBackend` | the emulator: specification run, and its loop |
| `Rv32iEncoding`, `Rv32iMeaning` | the instructions as numbers and as effects, apart from core and emulator, and both sides against them |
| `CpuSimulation`, `CpuLockstep`, `CpuAliases`, `CpuLoading`, `CpuDifferences` | the core against the emulator |

A `Fraction` is a numerator over a positive denominator that need not be in lowest terms;
`Binary32Properties.RepresentationIndependent` proves that the encoder cannot tell the difference, so
this is the value semantics of the `Fraction` class. Registers are bounded integers, and a bit slice is
a quotient or remainder by a power of two. In the router a direction and a port index have the same
code in the source, so both are a `Port`. Clock edges are atomic; combinational values are taken from
the state before the edge. Requests, endpoint traffic, stalls and the initial memory are parameters.

## Where the code and other statements about it part ways

- `-0 + -0` is `-0` in `rtl/fpu_add.sv` (and in the verification matrix under `docs/`), but the
  reference encodes every zero as `+0`. This is the only finite pair on which adder and reference
  differ, and `-0 - +0` the only one for the subtractor; `FpAdd` and `FpSub` state both as equivalences.
- A zero product and the quotient of a zero dividend are `+0` on both sides, by project contract.
  Section 6.3 of IEEE 754-2019 asks for the exclusive OR of the operand signs. For finite operands the
  rule fails exactly when an operand of the product, or the dividend, is zero and the signs differ
  (`ProductSignIff`, `QuotientSignIff`, with an input in `SignRuleFails`); it holds for results that
  underflow to zero, that overflow, and for a zero divisor.
- `docs/noc_rtl_interface_contract.md` (lines 209-224 and 384) promises that a packet presented on a
  stalled output stays the same. The arbiter selects anew in every cycle, so it need not:
  `StalledPacketReplaced` gives a run of the mesh, `StableIffNotOvertaken` and `PacketChangesIff` the
  exact condition for the selected slot and for the packet, and `StallReplacesAtMostFour` what always
  holds.
- The same contract promises service within four arbitration opportunities. At most four eligible
  requesters per output are part of that promise (lines 300-305 and 352-354), and with them it holds.
  `ServesWithinIff` shows that this assumption is needed: service within n opportunities is guaranteed
  if and only if at most n inputs may request the output. A lone router has five inputs and may need five
  opportunities (`SlowestRun`); the mesh has at most three requesters and needs at most three
  (`MeshServesWithinThree`).
- `docs/cache_verification_requirements.md` lists the line update of a write hit before the memory
  write. The code does both on the edge that completes the memory write.
- `docs/cpu_exec_verification_plan.md` puts branches out of scope; the code implements them, and the
  sign-off document lists them.
- The execution enable gates neither register nor data memory writes. While registers are being
  initialised, instruction 0 stores in every cycle if it is a store, and in idle cycles it writes its
  destination register if it is an R-type instruction or a load. `LoadsIff` gives the exact outcome of
  any sequence of initialisation and idle edges, `InitialisesIff` the condition for integer registers in
  any order, `InitialisesWithFpIff` that for floating-point registers after them, `IdleKeepsStartIff` that
  for an idle edge after loading, and `StoreWhileLoading` an input.
- The data memory of the core keeps only the low byte of an address and the emulator keeps all of it;
  the control unit has no row for ADDI and the emulator has. `IndistinguishableIffAliasFree` and
  `LockstepIff` state both differences exactly, and `CoreRun` and `AddiIsDropped` give inputs.

## Model

| member | source | states |
|---|---|---|
| Binary32.Encode | reference/binary32.py:80-96 | packing three fields in range is undone by decoding |
| Binary32.FloorLog2Exact | reference/binary32.py:181-200 | the bit-length estimate with its single correction is the exact binary logarithm of every positive fraction |
| Rounding.RneHolds | reference/binary32.py:203-232 | the floor-and-compare function returns a nearest integer, the even one of two |
| Rounding.RneIs | reference/binary32.py:203-232 | being nearest with ties to even determines the result |
| Binary32.EncodesUnits | reference/binary32.py:254-339 | all branches of the encoder (carry, overflow, subnormal, underflow) are one rounding in the unit of the binade, packed |
| Binary32.Encodes | reference/binary32.py:235-339 | any ratio equal to the value in units of 2^-149 and any rounding of it in its binade determine the encoding |
| Magnitudes.UnitsOfFraction | reference/binary32.py:142-178 | a finite encoding is a whole number of units of 2^-149, with the sign of its sign bit, and zero only for the two zeros |
| Binary32Properties.CorrectlyRounded | reference/binary32.py:235-339 | no finite encoding is closer to the fraction than a finite result, and a distinct equally close value makes the result even |
| Binary32Properties.OverflowThreshold | reference/binary32.py:291-296 | the result is infinite, with the sign of the fraction, if and only if the magnitude is at least 2^128 - 2^103 |
| Binary32Properties.Monotone | reference/binary32.py:235-339 | a larger fraction never gets a lower encoding, across zero, subnormals, normals, infinities and signs |
| Binary32Properties.NegationFlipsSign | reference/binary32.py:257-258 | negating a nonzero fraction changes the sign bit and nothing else |
| Binary32Properties.RepresentationIndependent | reference/binary32.py:251-252 | the encoding depends on the value of a fraction only |
| Binary32Properties.RoundTrip | reference/binary32.py:142-178 | every finite encoding but -0 is recovered from its exact value, -0 gives +0, and exactly infinities and NaNs have no value |
| Binary32Properties.ExactIffRepresentable | reference/binary32.py:342-367 | is_exact_binary32 holds if and only if some finite encoding has the value |
| Rounding.RneOfGrs | rtl/fpu_add.sv:526-547 | incrementing on guard and (round or sticky or LSB) is round-to-nearest-even of the register over eight |
| Rounding.GuardRoundSticky | rtl/fpu_div.sv:271-292 | the same decision, with a division remainder in the sticky bit, rounds the exact quotient |
| Rounding.RoundsQuotient | rtl/fpu_mul.sv:393-424 | for any number of dropped bits, guard, round and sticky of a register decide the rounding of the exact value it truncates |
| Rounding.RneOfJam | rtl/fpu_add.sv:92-150 | rounding a sticky-shifted register rounds the exact value, whenever at least two bits are rounded off |
| Rounding.JamSum | rtl/fpu_add.sv:403-463 | adding or subtracting a sticky-shifted operand gives the sticky-shifted exact sum or difference |
| Rounding.JamAgain | rtl/fpu_add.sv:419-429 | one more right shift that keeps the lost bit sticky keeps the register a sticky-shifted exact value |
| FpuAdd.ShiftRightSticky | rtl/fpu_add.sv:92-150 | the shifted register is the exact quotient, or the odd neighbour of an inexact one, for shifts below 27 and above |
| FpuAdd.Align | rtl/fpu_add.sv:293-395 | the larger register is the larger magnitude exactly, the smaller one is sticky-shifted to its exponent, the sign is that of the larger operand, and a shifted register that is not far smaller is exact |
| FpuAdd.CarryStandsFor | rtl/fpu_add.sv:419-429 | after a carry the register still stands for the exact sum, and at exponent 255 leaves no room for a rounding carry |
| FpuAdd.AddSignificands | rtl/fpu_add.sv:403-438 | in both carry cases the register and exponent stand for the exact sum |
| FpuAdd.Normalize | rtl/fpu_add.sv:465-497 | the 26 steps shift a nonzero difference until its hidden bit is set or the exponent is 1, losing nothing |
| FpuAdd.NormalizedStandsFor | rtl/fpu_add.sv:465-497 | after at most one left shift of an inexact difference, or any shift of an exact one, rounding decides as for the exact value |
| FpuAdd.SubtractSignificands | rtl/fpu_add.sv:446-499 | after normalisation the register and exponent stand for the exact difference |
| FpuAdd.CancelsExactly | rtl/fpu_add.sv:451-458 | the aligned registers are equal if and only if the magnitudes are |
| FpuAdd.RoundsExactSum | rtl/fpu_add.sv:526-547 | rounding a register rounds the exact sum it stands for, in the binade the exponent names |
| FpuAdd.RoundAndPack | rtl/fpu_add.sv:512-634 | the rounded and packed register is the encoding of the exact sum |
| FpuAdd.PackRounded | rtl/fpu_add.sv:561-632 | rounding carry, overflow, subnormal and normal packing give the packed encoding, and the exponent never wraps |
| FpuAdd.AddFinite | rtl/fpu_add.sv:282-634 | for nonzero finite operands the datapath computes the reference encoding of the exact sum |
| FpuAdd.ZeroOperand | rtl/fpu_add.sv:244-274 | the reference sum with a zero operand is the other operand, and +0 for two zeros |
| FpuAdd.FpAdd | rtl/fpu_add.sv:153-638 | over all finite pairs the result equals that of the reference if and only if the operands are not both -0; NaN and infinity operands give the listed results |
| FpuSub.FlipSignNegates | rtl/fpu_sub.sv:9-9 | flipping the sign bit negates the exact value |
| FpuSub.FpSub | rtl/fpu_sub.sv:9-15 | over all finite pairs the result equals the reference difference if and only if the pair is not (-0, +0) |
| FpuOperand.NormaliseOperand | rtl/fpu_mul.sv:247-319 | the decoded significand has its hidden bit set and, with its exponent, equals the operand, for subnormals after the shift loop |
| FpuOperand.PackNormal | rtl/fpu_mul.sv:427-480 | carry renormalisation, overflow to infinity and biased packing are the packed encoding of significand and exponent |
| FpuOperand.PackSubnormal | rtl/fpu_mul.sv:684-701 | a subnormal that reaches 2^23 becomes the smallest normal |
| FpuMul.ExactProduct | rtl/fpu_mul.sv:327-327 | the product of the significands at the sum of the exponents is the exact product, with the sign the XOR of the signs |
| FpuMul.NormalisedProduct | rtl/fpu_mul.sv:350-368 | both normalisation cases leave the exact product unchanged |
| FpuMul.MulNormal | rtl/fpu_mul.sv:380-482 | a normal result is the reference encoding of the exact product |
| FpuMul.MulSubnormal | rtl/fpu_mul.sv:504-703 | a subnormal or vanishing result is too, for shifts below, at and above 48; the shift is at least 25 |
| FpuMul.HalfwayShift | rtl/fpu_mul.sv:634-660 | at shift 48 the result rounds up exactly when it is above the tie |
| FpuMul.VanishingShift | rtl/fpu_mul.sv:661-665 | above shift 48 every product rounds to zero |
| FpuMul.FpMul | rtl/fpu_mul.sv:109-707 | over all finite pairs the result equals that of the reference; NaN and infinity operands give the listed results |
| FpuDiv.ExactQuotient | rtl/fpu_div.sv:219-223 | the quotient of the significands at the difference of the exponents is the exact quotient, with the sign the XOR of the signs |
| FpuDiv.DivideSignificands | rtl/fpu_div.sv:219-263 | in both normalisation cases the quotient register has exactly 33 bits and, with the remainder, is the exact quotient |
| FpuDiv.QuotientValue | rtl/fpu_div.sv:213-263 | quotient register, remainder and exponent together are the exact quotient of the operands |
| FpuDiv.DivisionNeverTies | rtl/fpu_div.sv:271-288 | in the normal range a set guard bit is followed by a one, so the even-LSB term never decides |
| FpuDiv.DivisionNeverCarries | rtl/fpu_div.sv:290-311 | rounding a normal quotient never sets bit 24 |
| FpuDiv.DivNormal | rtl/fpu_div.sv:269-336 | a normal result is the reference encoding of the exact quotient |
| FpuDiv.DivSubnormal | rtl/fpu_div.sv:342-474 | a subnormal or totally underflowing result is too; the shift is at least 10, so the defensive branches are dead |
| FpuDiv.FpDiv | rtl/fpu_div.sv:99-476 | over all finite pairs but 0/0 the result equals that of the reference, signed infinity for a zero divisor and +0 for a zero dividend included; 0/0 is unsupported there and NaN here |
| FpuOperand.CanonicalNaN | rtl/fpu_mul.sv:156-164 | the NaN of all four datapaths is a NaN with sign 0 and only the first fraction bit set |
| FpuContract.ClassByValue | reference/binary32.py:122-139 | the five classes by value and bits: normal from 2^23 units on, subnormal between, and the two infinities |
| FpuContract.ClassSign | reference/binary32.py:122-139 | a classification is negative exactly when the sign bit is set and it is no NaN |
| FpuContract.SupportedIff | reference/fpu_reference_model.py:138-230 | the reference answers exactly for the codes 0 to 3 and finite operands but 0/0, and reports the class of its answer |
| FpuContract.RejectedFor | reference/fpu_reference_model.py:138-185 | otherwise the reason is the first of code, NaN, infinity and 0/0 |
| FpuContract.DividesByZero | reference/fpu_reference_model.py:180-191 | a finite nonzero number over zero is infinity with the XOR of the signs, in bits |
| FpuContract.KeyIsValueOrder | reference/binary32.py:254-339 | the order in which the encoder is monotone is that of the values, with the infinities at its ends |
| FpuSigns.EncodedSign | reference/binary32.py:257-339 | the encoding of a nonzero fraction has its sign, also when it underflows to zero or overflows |
| FpuSigns.ProductSignIff | rtl/fpu_mul.sv:203-216 | over all finite pairs the product has the XOR of the signs if and only if not both an operand is zero and the signs differ |
| FpuSigns.QuotientSignIff | rtl/fpu_div.sv:110-142 | over all finite pairs but 0/0 the quotient has the XOR of the signs if and only if not both the dividend is zero and the signs differ |
| NocRouter.GrantsNearest | rtl/noc_router.sv:316-332 | an output grants if and only if it is requested, and grants exactly the requester nearest its pointer in scanning order |
| NocRouter.ServedByRoute | rtl/noc_router.sv:362-369 | an input is served if and only if the output its packet routes to is ready and grants it |
| NocRouter.StalledOutput | rtl/noc_router.sv:378-397 | while stalled, an output stays valid, its pointer and the waiting slot stay put, and the grant moves only nearer the pointer |
| NocRouter.WaitingGetsCloser | rtl/noc_router.sv:392-397 | an unserved request stays, and on a ready cycle a nearer one was served and the pointer moved just past it |
| NocRouter.RouterConserves | rtl/noc_router.sv:371-398 | for every measure of packets, what a router holds and sends equals what it held and accepted |
| NocService.AheadShrinks | rtl/noc_router.sv:187-196 | each ready cycle spent waiting removes one input from those ahead, for good |
| NocService.BoundedWait | rtl/noc_router.sv:316-397 | an input that waits sees its output ready in fewer cycles than there are inputs that may request it |
| NocService.RouterServesWithinFive | rtl/noc_router.sv:316-397 | a lone router under any traffic serves a waiting input no later than the fifth ready cycle |
| NocService.StallReplacesAtMostFour | rtl/noc_router.sv:316-332 | however long a stall, the output stays valid, its pointer stays put and the presented packet is replaced at most four times |
| NocStability.StableIffNotOvertaken | docs/noc_rtl_interface_contract.md:210-222 | a stalled output keeps its selected slot if and only if no packet for it arrives nearer the pointer on that edge |
| NocStability.PacketChangesIff | docs/noc_rtl_interface_contract.md:214-224 | the packet presented by a stalled output changes if and only if the first packet to overtake it on that edge is another packet |
| NocStability.StalledPacketReplaced | docs/noc_rtl_interface_contract.md:209-224 | a run of the mesh in which a packet presented to a stalled endpoint is replaced by another |
| NocFairness.ServesWithinIff | docs/noc_rtl_interface_contract.md:300-305 | for every output and set of inputs that may request it, each waiting input is served within n ready cycles in every run if and only if the set has at most n members |
| NocFairness.SlowestRun | rtl/noc_router.sv:316-397 | for every output and set of inputs, a run out of reset in which the last of them waits through all but one of that many ready cycles |
| NocMesh.RouteByCoordinate | rtl/noc_router.sv:144-163 | routing goes along the row until the column is right, then along the column, then to the endpoint |
| NocMesh.WiredNeighbours | rtl/noc_mesh_2x2.sv:204-246 | each router has one row and one column neighbour, and links join opposite ports |
| NocMesh.OutputMayMove | rtl/noc_mesh_2x2.sv:168-246 | no packet is ever presented on a tied-off port, and what a link presents the next slot may hold |
| NocMesh.RunIsReachable | rtl/noc_mesh_2x2.sv:168-246 | in every run from reset, packets stand only in slots that XY routing allows |
| NocMesh.InvalidNeverEnters | rtl/noc_router.sv:219-241 | no slot and no link ever carries a destination above 3 |
| NocDelivery.LinkCarries | rtl/noc_mesh_2x2.sv:204-246 | a link transfer is one packet leaving one router and entering the other, unchanged; boundaries carry nothing |
| NocDelivery.LocalSlotTakes | rtl/noc_router.sv:120-122 | an empty local slot takes every offered packet with destination below 4, unchanged, and stays empty otherwise |
| NocDelivery.EndpointReceives | rtl/noc_router.sv:342-359 | an endpoint receives what its router presents, exactly in the cycles in which it is ready |
| NocDelivery.MeshConserves | rtl/noc_mesh_2x2.sv:204-309 | one cycle of the mesh conserves every measure of packets |
| NocDelivery.ExactlyOnce | docs/noc_rtl_interface_contract.md:391-407 | in every run the multiset of packets with destination 0 to 3 that were offered to empty local slots is that in slots plus that delivered |
| NocDelivery.DeliveredAtDestination | rtl/noc_router.sv:144-163 | a packet is delivered only at its own destination |
| NocOrder.SlotFlow | rtl/noc_router.sv:379-390 | a slot is a queue of one place for every flow |
| NocOrder.Hop | rtl/noc_mesh_2x2.sv:204-246 | what leaves the slot before a link is what enters the slot after it |
| NocOrder.OnPath | rtl/noc_router.sv:144-163 | every packet stands in the one slot that its flow's XY path uses at that router |
| NocOrder.FlowStep | rtl/noc_router.sv:371-398 | in one cycle the slots of a path and the injected packet equal the delivered packet and the new slots, in order |
| NocOrder.PerFlowOrder | docs/noc_rtl_interface_contract.md:414-423 | for every run, source and destination, what was injected is what was delivered followed by the slots along the path, in order |
| NocSource.ReceivedInOrder | docs/noc_rtl_interface_contract.md:414-423 | for every source number that only one endpoint uses, what any endpoint has received under it is a prefix of what was injected for that endpoint under it, short by at most three packets |
| NocProgress.PotentialStep | rtl/noc_mesh_2x2.sv:168-309 | every transfer brings the sum of remaining transfers down by exactly one |
| NocProgress.NoDeadlock | rtl/noc_router.sv:211-359 | in every reachable occupied state there is an endpoint whose readiness alone makes a transfer fire, whatever the others do |
| NocProgress.PotentialBound | rtl/noc_router.sv:144-163 | the remaining transfers of a reachable state number at most 24, and 0 exactly when it is empty |
| NocProgress.DrainsWithin24 | rtl/noc_mesh_2x2.sv:168-309 | from any state of any run, a continuation without injections in which every endpoint has been ready 24 times over leaves the mesh empty, with any stalls in between |
| NocProgress.Frozen | rtl/noc_router.sv:371-398 | a cycle without a transfer and without injections changes nothing in the mesh |
| NocProgress.ReadyCyclesAreRounds | rtl/noc_mesh_2x2.sv:283-309 | each cycle with all endpoints ready counts as a round in which every endpoint has been ready |
| NocProgress.AtMostThreeRequesters | rtl/noc_router.sv:303-314 | in every reachable state only three inputs can request an output |
| NocProgress.MeshServesWithinThree | rtl/noc_router.sv:316-397 | in every run a waiting slot is served no later than the third ready cycle of its output |
| NocLiveness.MovesOn | rtl/noc_router.sv:362-398 | a packet that is not served stays, one that is served stands unchanged in the next slot of its way, or is handed to its own endpoint |
| NocLiveness.TimeLeftFalls | rtl/noc_mesh_2x2.sv:168-309 | under any injections and stalls, a packet's bound falls in every cycle or stays while one endpoint stalls, and it goes on waiting for that same endpoint |
| NocLiveness.DeliveredInTwentyRounds | rtl/noc_mesh_2x2.sv:168-309 | in every run, under any injections and stalls, a packet followed from any slot has been handed to its own endpoint once every endpoint has been ready twenty times over |
| NocLiveness.DeliveredWithin20 | rtl/noc_mesh_2x2.sv:168-309 | in particular after any twenty cycles, consecutive or not, in which all endpoints are ready |
| NocLiveness.InjectedIsDelivered | rtl/noc_mesh_2x2.sv:283-309 | so is, from the injection on, every packet with destination 0 to 3 that an endpoint offers to an empty local slot: that very packet, followed slot by slot |
| NocHardware.RouterUnit.Arbitrate | rtl/noc_router.sv:316-332 | the scanning loop finds the specified grant |
| NocHardware.RouterUnit.Present | rtl/noc_router.sv:335-360 | the five outputs present the granted slots |
| NocHardware.RouterUnit.ServedInputs | rtl/noc_router.sv:362-369 | the loop marks exactly the inputs whose packet leaves |
| NocHardware.RouterUnit.Clock | rtl/noc_router.sv:378-398 | updating slots and pointers in place, out of reset, is the step function |
| NocHardware.RouterUnit.Reset | rtl/noc_router.sv:372-377 | the reset branch empties the slots and sends the pointers to local, from any state |
| NocHardware.MeshUnit.Reset | rtl/noc_mesh_2x2.sv:315-531 | resetting the four routers reaches the initial mesh from any state |
| NocHardware.MeshUnit.Clock | rtl/noc_mesh_2x2.sv:168-531 | clocking the four routers with settled wires is the mesh step, and hands the endpoints what it sends |
| CacheV2.MergeByLane | rtl/cache_v2.sv:66-82 | each byte of a merge is the new byte where strobed and the old byte elsewhere |
| CacheRefinement.ReadHit | rtl/cache_v2.sv:173-177 | a hit is served from the line with the word of the flat memory and changes nothing |
| CacheRefinement.ReadMiss | rtl/cache_v2.sv:179-184 | a miss fills its line by one fetch and keeps the correspondence with the flat memory |
| CacheRefinement.WriteThrough | rtl/cache_v2.sv:186-198 | one store merges the lanes into memory and, on a hit, into the line, and keeps the correspondence |
| CacheRefinement.CycleKeepsProgress | rtl/cache_v2.sv:97-200 | every cycle in every FSM state, under any stall, keeps the correspondence |
| CacheRefinement.AnswersLikeFlatMemory | rtl/cache_v2.sv:97-200 | on alias-free addresses every response is the flat memory's answer to the accepted requests, with at most one pending |
| CacheTraffic.TrafficIsMinimal | docs/cache_verification_requirements.md:80-109 | in every run over every memory the completed transactions are, in order, one store per write and one fetch per read miss, none for a hit, of the requests that have taken effect: all answered ones, and the pending one from its memory handshake or hit on |
| CacheCoherence.LinesStayCoherent | rtl/cache_v2.sv:179-198 | on alias-free addresses each valid line equals the memory word at {tag, index} in every state of every run |
| CacheCoherence.CoherentIffAliasFree | rtl/cache_v2.sv:179-198 | that holds for all runs over a set of word addresses if and only if no two of them select the same memory word |
| CacheCoherence.StaleRun | rtl/memory_controller.sv:16-20 | for any two addresses that do, a run that leaves a stale line |
| CacheRefinement.ControllerRange | rtl/memory_controller.sv:16-20 | over the 256-word controller every answer is right for byte addresses below 0x400 |
| CacheRefinement.CorrectIffAliasFree | rtl/memory_controller.sv:16-20 | a memory answers every run over a set of word addresses correctly if and only if no two of them select the same word |
| CacheProgress.CycleAdvances | rtl/cache_v2.sv:97-147 | a stalled cycle changes nothing, and every other brings a pending request nearer its answer |
| CacheProgress.AcceptsWhenIdle | rtl/cache_v2.sv:99-104 | with all accepted requests answered, an offered request is accepted on that edge whatever the memory does, and otherwise nothing is |
| CacheProgress.AnsweredInTime | rtl/cache_v2.sv:85-201 | in every continuation of every run an accepted request is answered within three cycles and those in which mem_ready or rsp_ready was low |
| CacheHardware.CacheUnit.Clock | rtl/cache_v2.sv:150-201 | the registers and line arrays updated in place follow the step function |
| CacheHardware.CacheUnit.Reset | rtl/cache_v2.sv:151-164 | the reset loop reaches the empty cache from any state |
| CacheHardware.MemoryUnit.Clock | rtl/memory_controller.sv:43-59 | writing the strobed byte lanes in place merges the word and touches no other |
| CacheHardware.LanesMerge | rtl/memory_controller.sv:46-57 | the four lane assignments of the memory and the merge function of the cache agree |
| CacheHardware.SystemUnit.Clock | rtl/cache_v2.sv:85-201 | cache and memory wired together follow the step function |
| Rv32i.BitwiseAt | rtl/alu.sv:23-26 | each bit of AND, OR and XOR is the gate of the two bits |
| Rv32i.OrConcatenates | scripts/riscv_iss/rv32i_emulator_backend.py:225-230 | the OR of fields shifted apart is their concatenation |
| Alu.OverflowIffOutOfRange | rtl/alu.sv:15-22 | the overflow output is raised if and only if the signed sum or difference does not fit, and otherwise the result is that sum or difference |
| Alu.ShiftLeftMultiplies | rtl/alu.sv:27-27 | dropping the bits shifted out is multiplication modulo 2^32 |
| Alu.ShiftRightDivides | rtl/alu.sv:28-28 | filling with the sign bit is division of the signed value, rounded down |
| CpuExecCore.ReadAfterWrite | rtl/register_file.sv:41-88 | a port reads back what was last written to that register of that bank; writes to x0 and to the other bank are never seen |
| CpuExecCore.ZeroRegister | rtl/register_file.sv:71-88 | no input sequence ever changes a zero x0 |
| CpuSimulation.SameImmediate | scripts/riscv_iss/rv32i_emulator_backend.py:317-324 | adding a sign-filled field and adding the sign-extended number agree on 32 bits |
| CpuSimulation.SameI | rtl/cu.sv:69-69 | the I-immediates of both sides agree in every address |
| CpuSimulation.SameS | rtl/cu.sv:77-77 | so do the S-immediates |
| CpuSimulation.SameB | rtl/cu.sv:84-91 | and the B-immediates, as concatenation and as OR of shifted fields |
| CpuSimulation.SameArithmetic | rtl/alu.sv:13-31 | for every R-type encoding in scope, decoding and ALU give the emulator's unbounded result truncated to 32 bits |
| CpuSimulation.OpStep | scripts/riscv_iss/rv32i_emulator_backend.py:179-222 | an R-type instruction has the same effect and the same commit on both sides |
| CpuSimulation.BranchStep | rtl/cpu_exec_core.sv:172-208 | so has BEQ, taken and not taken, forwards and backwards |
| CpuSimulation.LoadStep | scripts/riscv_iss/rv32i_emulator_backend.py:247-267 | so has an aligned LW, and the emulator raises on a misaligned one only |
| CpuSimulation.StoreStep | scripts/riscv_iss/rv32i_emulator_backend.py:269-290 | so has an aligned SW, on alias-free addresses |
| CpuSimulation.StepMatchesIff | rtl/cpu_exec_core.sv:54-297 | from matching states one edge matches one step if and only if the instruction is not an ADDI that changes a register |
| CpuSimulation.WindowIsAliasFree | rtl/mmu.sv:16-16 | the addresses of any 256-byte window are free of aliases |
| Rv32iEncoding.EncodedR | tests/cpu_exec_tb.sv:32-49 | decoding an assembled R-type word gives back operation and registers |
| Rv32iEncoding.EncodedI | tests/cpu_exec_tb.sv:51-65 | so for I-type words, with their signed immediate |
| Rv32iEncoding.EncodedS | tests/cpu_exec_tb.sv:67-82 | so for S-type words |
| Rv32iEncoding.EncodedB | tests/cpu_exec_branch_smoke_tb.sv:111-132 | so for branches, with their signed offset |
| Rv32iEncoding.ImmediateIs | scripts/riscv_iss/rv32i_emulator_backend.py:225-274 | the three immediates of the emulator are the signed numbers in their bits |
| Rv32iEncoding.CoreImmediates | rtl/cu.sv:69-91 | those of the control unit add the same numbers modulo 2^32 |
| Rv32iEncoding.ScopeIsTheInstructions | scripts/riscv_iss/rv32i_emulator_backend.py:86-148 | the scope is exactly the encodings of ADDI, the eight R-type operations, BEQ, LW and SW |
| Rv32iEncoding.ScopeIsExecutable | scripts/riscv_iss/rv32i_emulator_backend.py:150-294 | outside OP-IMM it is exactly what the emulator never rejects as unsupported, and inside it exactly funct3 0 |
| Rv32iMeaning.AluComputes | rtl/alu.sv:12-31 | every operation code computes its operation, stated by arithmetic modulo 2^32, bit by bit, or on signed readings |
| Rv32iMeaning.CoreComputes | rtl/cu.sv:32-64 | every R-type word with an operation writes its result to rd, goes on by four and changes nothing else; only bit 30 of funct7 counts |
| Rv32iMeaning.CoreUnsupported | rtl/cu.sv:54-63 | SLTU and SRL write zero |
| Rv32iMeaning.CoreLoads | rtl/cu.sv:66-72 | every load writes the word at the low byte of register plus immediate |
| Rv32iMeaning.CoreStores | rtl/cu.sv:74-79 | every store writes a word there and no register |
| Rv32iMeaning.CoreBranches | rtl/cpu_exec_core.sv:174-208 | BEQ, BNE, BLT and BGE go to the offset exactly when their comparison holds, the other codes never |
| Rv32iMeaning.BranchesComplement | rtl/cpu_exec_core.sv:180-195 | of BEQ and BNE, and of BLT and BGE, on equal operands and offset exactly one is taken |
| Rv32iMeaning.CoreIgnores | rtl/cu.sv:95-97 | every other word only goes on by four, and zero stays |
| Rv32iMeaning.FetchesWord | rtl/cpu_exec_core.sv:71-76 | the word fetched is that of bits 7 to 2 of the PC |
| Rv32iMeaning.PinsAct | rtl/cpu_exec_core.sv:37-68 | reset clears PC, registers and memory whatever the other pins say, a disabled core keeps its PC, the initialisation port takes the place of the writeback, and the programming port always writes its one word |
| Rv32iMeaning.EmulatorComputes | scripts/riscv_iss/rv32i_emulator_backend.py:179-222 | each assembled R-type instruction writes and reports what its operation computes |
| Rv32iMeaning.EmulatorAdds | scripts/riscv_iss/rv32i_emulator_backend.py:161-177 | ADDI writes and reports register plus signed immediate modulo 2^32 |
| Rv32iMeaning.EmulatorBranches | scripts/riscv_iss/rv32i_emulator_backend.py:224-245 | BEQ goes to the offset exactly when the registers are equal |
| Rv32iMeaning.EmulatorLoads | scripts/riscv_iss/rv32i_emulator_backend.py:247-267 | LW reads multiples of four, zero where nothing was stored, and raises with the address elsewhere |
| Rv32iMeaning.EmulatorStores | scripts/riscv_iss/rv32i_emulator_backend.py:269-290 | SW writes multiples of four and raises with the address elsewhere |
| Rv32iMeaning.CommitTells | scripts/riscv_iss/iss_contract.py:63-103 | every commit reports the place, the word and exactly the register change |
| Rv32iMeaning.FailsForAlignment | scripts/riscv_iss/rv32i_emulator_backend.py:37-59 | an accepted request fails only for the alignment of the PC or of a data address |
| Rv32iMeaning.PassesIff | scripts/riscv_iss/rv32i_emulator_backend.py:26-77 | execute passes exactly for a nonempty program of the ten instructions whose run raises nothing and ends at a multiple of four |
| CpuLockstep.LockstepIff | rtl/cpu_exec_core.sv:54-297 | the core matches the emulator through n steps if and only if none of the n instructions is such an ADDI |
| CpuLockstep.SimulatesEmulator | rtl/cpu_exec_core.sv:54-297 | for accepted programs without ADDI on alias-free addresses, n edges match n steps in PC, registers, memory and commits |
| CpuLockstep.ResultMatches | scripts/riscv_iss/rv32i_emulator_backend.py:26-67 | the final PC, registers and trace that execute reports are what the core reaches, and it stays there if an all-zero word follows |
| CpuLockstep.ZeroHolds | rtl/cpu_exec_core.sv:61-66 | an all-zero instruction holds the whole core for ever |
| CpuLockstep.StoppedAt | scripts/riscv_iss/rv32i_emulator_backend.py:37-59 | a run that left the loop had executed exactly its trace, and stands past the program |
| CpuAliases.IndistinguishableIffAliasFree | rtl/mmu.sv:16-29 | no program over a set of word addresses tells core from emulator if and only if no two addresses share their low byte |
| CpuAliases.CoreRun | rtl/mmu.sv:18-31 | the core reads back through one address what it stored through an alias of it |
| CpuLoading.LoadsIff | rtl/cpu_exec_core.sv:37-158 | after programming under reset, any sequence of integer, floating-point and idle edges reaches the emulator's start if and only if each register's last write is as requested and the last word stored to each memory entry is zero |
| CpuLoading.InitialisesIff | rtl/cpu_exec_core.sv:134-158 | idle edges and then registers in any order reach the emulator's start if and only if instruction 0 is not a store of a nonzero register that is set before the last edge |
| CpuLoading.InitialisesWithFpIff | rtl/cpu_exec_core.sv:134-158 | with floating-point registers set afterwards, if and only if instruction 0 is not a store or every nonzero word it stores is overwritten by a later edge |
| CpuLoading.IdleKeepsStartIff | rtl/cpu_exec_core.sv:266-297 | an idle edge at the start keeps it if and only if instruction 0 neither changes its register nor stores a nonzero word |
| CpuDifferences.AddiIsDropped | rtl/cu.sv:95-97 | a program of one ADDI after which emulator and core differ |
| CpuDifferences.StoreWhileLoading | rtl/cpu_exec_core.sv:266-288 | a program and registers with which loading cannot reach the emulator's start |
| CpuHardware.RegisterFile.Clock | rtl/register_file.sv:71-88 | reset loop and guarded write update both banks as specified |
| CpuHardware.Mmu.Clock | rtl/mmu.sv:18-26 | reset loop and indexed write update the memory as specified |
| CpuHardware.CoreUnit.Settle | rtl/cpu_exec_core.sv:71-302 | fetch, decode, operand, branch, ALU and writeback multiplexers settle to the specified values |
| CpuHardware.CoreUnit.Clock | rtl/cpu_exec_core.sv:37-297 | one edge in place, with any reset, enable, programming and initialisation inputs, is the step function |
| Rv32iBackend.Backend.ValidateScope | scripts/riscv_iss/rv32i_emulator_backend.py:86-148 | the loop accepts if and only if every word is in scope, and otherwise names the first that is not |
| Rv32iBackend.Backend.ExecuteInPlace | scripts/riscv_iss/rv32i_emulator_backend.py:151-294 | mutating registers and memory in place has the specified effect, and none when an error is raised |
| Rv32iBackend.Backend.Execute | scripts/riscv_iss/rv32i_emulator_backend.py:26-77 | the loop reports exactly the result of the specification run, errors included |

## Left out

- NaN payloads, invalid opcodes and the output register of `rtl/fpu.sv`: single-branch facts outside the reference contract.
- `from_float` and `to_float` (host float conversion), and the error text of results.
- MulSubnormal: the tests for shifts of 2 and less are replaced by the proof that they cannot succeed.
- DivSubnormal: the branches for shifts of 1 and less are replaced by the proof that they are dead, and the sticky bit of a total underflow, which no later step reads, is not computed.
- PerFlowOrder: a flow is identified by the injecting endpoint, recorded in a history variable; ReceivedInOrder restates it on packet fields, for source numbers that only one endpoint uses.
- ExactlyOnce: packets with an invalid destination are outside the equation, since they are discarded; the error outputs that report them are not modelled.
- Reset in the middle of a run, which discards packets and cache lines by design: the reset edges are modelled as methods, and runs start from reset.
- StalledPacketReplaced: the packet stability of the interface contract is false of the code, so it is stated as a counterexample and an exact condition.
- AnswersLikeFlatMemory: needs addresses no two of which select the same memory word; CorrectIffAliasFree proves this condition exact.
- LinesStayCoherent: needs the same; CoherentIffAliasFree proves it exact.
- SimulatesEmulator: covers BEQ, LW, SW and the eight R-type operations; BNE, BLT and BGE are in the core only, and the emulator rejects them.
- The load and store variants with other `funct3` values that the control unit accepts as words, and the PC wrapping past the 64 instruction words: the emulator rejects or stops there.
- LoadsIff: programming is modelled as consecutive words from 0 under reset; words that are rewritten, and programming out of reset, are in the step function but not in this theorem.
- The unconnected zero, physical-address and ready outputs, and the `result` pin, which shows the ALU output.
- Bitwise masks with contiguous ones in the emulator are modelled as remainders, and shifts as quotients and products.
- Clock edges, X and Z values, delta timing and asynchronous reset: one atomic step per clock.
- `rtl/cache.sv`, `rtl/cpu_core.sv`, the AXI4 and interconnect blocks, the Spike backend, log parsers, testbenches, assertions and coverage: no coherent contract to refine, or evidence rather than design.
