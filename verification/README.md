# Verification of umeq

umeq runs ARM user-mode programs on x86 hosts.  This project models four of its parts in Dafny and proves
what they are for:

* **Arithmetic** (`src/fpu`).  The rounding rules of IEEE 754-2008 are stated twice: as a function on exact
  real magnitudes (`Rounding.Round`) and as a selection among all encodings (`Rounding.IsRoundingOf`), and the
  two are proved to agree.  `roundAndPackFloat32/64`, `float64_add`, `float64_sub`, `float64_mul`,
  `float64_div`, `float64_rem`, `float32_sqrt` and `float32_muladd` are methods with the branches, words and
  loops of the C code; each is proved to return the exact result rounded once, with the right flags, for all
  operands.  Magnitudes are counted in units of the smallest subnormal number.  `FloatLaws` says what the
  routines deliver for signed numbers, flags included, without naming the functions they are proved against.
* **Code generator** (`src/jitter`).  The IR builder, the lowering to pseudo-instructions, the register
  allocator, the emitters and the patching of exits.  The main theorem, `JitCompile.CompiledCodeIsCorrect`,
  says that generated code returns the same value, through the same exit, and has the same effects on memory,
  guest context and helpers as the IR, for every host and every initial machine state.  Emitters read some narrow operands as
  whole registers, so the theorem asks that the upper bits which the run at hand finds there are tolerated
  (`JitLower.Tolerates`): a condition that is exact for every comparison, shift, selection and exit.
  `JitCompile.SupportedCodeIsCorrect` gives programs that meet it from every state, such as a conditional exit
  on the result of a helper that returns values of its width; `JitNarrow` gives two programs, one of them a
  conditional instruction of the guest, with the exact states of host and machine in which their code is right.
  Shifts by the width of an operand or more have no result of their own in the IR; a program may execute them if
  it does not let them decide its outcome, as `JitShift` shows of shifts by a guest register.  `JitLaws` says in
  integers and bits what the generated code of every operator, cast, selection, memory access and call returns.
* **Cache and dispatch loop** (`src/cache/cache.c`, `src/main.c`).  The arena with its chains and fast slots
  is a map that is emptied at each reset; no cache returns a block older than the last request to clean; and
  running with patched exits goes through the same guest pcs as running without.  What the loop takes for
  granted of translated blocks is proved of compiled code (`JitDispatch`).
* **Mutex** (`src/runtime/pthread.c`).  A transition system for any number of threads: mutual exclusion, no
  forgotten sleeper, and at most one retry of an unlock.

Modules follow the files they model.  `Arithmetic`, `Powers` and `Sticky` hold the mathematics below the
floating-point routines, `JitBits` that below the code generator.  In a few places the code and its comments
differ, and the code is followed:

* With flush_to_zero, two subnormal operands of one sign are flushed by `float64_add` even if their sum is a
  normal number; `Float64Add.FlushedSumExactly` says when the result is that of flushing the sum.
* With flush_to_zero, `float64_rem` returns a small dividend unflushed, and a zero remainder may report a
  denormal output; `Float64Rem.RemFlushesExactly` says for which operands result and flags are those of
  flushing, `SubnormalIsReturned` and `ZeroReportsDenormal` give an input for each failure.
* The guard "only link forward" in the dispatch loop compares with the pc at which the last pass entered a
  chain of blocks, not with that of the block whose exit is patched.  The two tests agree if and
  only if the last pass ran one block (`Dispatch.Dispatcher.ForwardIffOneBlock`); `Dispatch.LinkThatGoesBack` is a
  run in which they do not.  Chains are finite because
  links go from older to newer blocks.

## Model

| member | source | states |
|---|---|---|
| Rounding.RoundedEncodingIsCorrect | src/fpu/softfloat.c:361-418 | section 4.3: the encoding computed by exponent, carry and increment is the one that the rounding mode selects among all encodings, ties included |
| Rounding.RoundingIsUnique | src/fpu/softfloat.c:361-418 | no two encodings satisfy the selection of a mode, so the specification determines the result |
| Rounding.MagnitudeMonotone | src/fpu/softfloat.c:331-337 | larger bit patterns are larger numbers |
| Sticky.ShiftRightJam | src/fpu/softfloat-macros.h:58-99 | the shifted word equals the exact quotient, or is odd and within one of it: lost bits survive in the last bit, for any count |
| Sticky.JamIsSame | src/fpu/softfloat-macros.h:58-99 | a jammed word and the exact value compare alike with every multiple of two and coarser grids, which is all that rounding looks at |
| RoundPack.RoundedSigIsRoundInt | src/fpu/softfloat.c:596-598 | adding the increment, shifting and clearing the last bit of a tie is rounding to an integer in the mode |
| RoundPack.RoundAndPack | src/fpu/softfloat.c:361-418 | every mode, sign, normalized significand and 16-bit exponent gives the specified encoding and flags: carries, overflow to infinity or the largest number, subnormals, tininess before or after rounding, flushing; a subnormal number that comes without normalization is packed as it is; `FloatLaws.FiniteIsCorrect` and `UnderflowLaw` say what the flags mean |
| RoundPack.TinyTest | src/fpu/softfloat.c:586-589 | the code's test for underflow is the tininess of section 7.5, which `FloatLaws.UnderflowLaw` puts in terms of the rounding modes |
| RoundPack.NormalizeRoundAndPack | src/fpu/softfloat.c:613-621 | the same for significands that still need normalizing, exact or jammed |
| RoundPack.ExactIsDelivered | src/fpu/softfloat.c:516-522 | a representable number is delivered unchanged without flags |
| Floats.Classes | src/fpu/softfloat.c:258-286 | the field tests of the routines decide NaN, infinity, finite and zero |
| Floats.NaNOfTwo | src/fpu/softfloat-specialize.h:359-379 | the result is a quiet NaN: the default one if so configured, else the first signaling operand, or without such the first NaN, with its quiet bit set; invalid exactly for signaling operands |
| Floats.SquashInputDenormal | src/fpu/softfloat.c:476-486 | subnormal inputs become zeros of their sign with the input-denormal flag exactly if so configured |
| Floats.OperandValue | src/fpu/softfloat.c:494-503 | normalizing a subnormal and setting the implicit bit keep the value of the operand |
| FloatLaws.UnitOfOne | src/fpu/softfloat.c:331-337 | the unit is 2^-149 or 2^-1074 of the number one |
| FloatLaws.NumbersAre | src/fpu/softfloat.c:331-337 | bit patterns count units up to twice the smallest normal number, and each further exponent doubles the magnitude |
| FloatLaws.ModesMean | src/fpu/softfloat.c:361-418 | for signed values: upwards the least number not below, downwards the greatest not above, towards zero the greatest in magnitude, otherwise the nearest with ties to even or away |
| FloatLaws.UnderflowLaw | src/fpu/softfloat.c:586-593 | section 7.5: underflow is raised exactly if the delivered magnitude differs from the exact one, which lies strictly between zero and the smallest normal number and, with tininess after rounding, still rounds below it when the exponent range is unbounded |
| FloatLaws.FiniteIsCorrect | src/fpu/softfloat.c:546-602 | a finite result has the sign of the exact value, or the given one for zero, the encoding that the mode selects or the overflow result of the mode, and exactly the flags overflow, inexact and underflow of section 7; flushed results are zeros with the output-denormal flag |
| FloatLaws.SquashLaw | src/fpu/softfloat.c:476-486 | an operand strictly between zero and the smallest normal number becomes a zero of its sign with the input-denormal flag exactly if so configured |
| FloatLaws.MulLaw | src/fpu/softfloat.c:3815-3868 | what is delivered for finite operands is the signed product A * B rounded once, a zero with the exclusive or of the signs |
| FloatLaws.SpecialProducts | src/fpu/softfloat.c:3830-3848 | infinity times zero is the default NaN with the invalid flag, other infinite products are infinities with the exclusive or of the signs |
| FloatLaws.DivLaw | src/fpu/softfloat.c:3876-3940 | what is delivered for finite operands is the signed quotient A / B rounded once, a zero with the exclusive or of the signs |
| FloatLaws.SpecialQuotients | src/fpu/softfloat.c:3892-3916 | quotients of infinities and zeros: signs, the default NaN with the invalid flag, and infinity with the division-by-zero flag |
| FloatLaws.SumLaw | src/fpu/softfloat.c:3769-3807 | what is delivered for finite operands is the signed sum or difference rounded once, a zero sum of unlike signs being negative only when rounding down |
| FloatLaws.FlushedSumLaw | src/fpu/softfloat.c:3663-3671 | operands of one sign below the normal numbers sum up to a zero of that sign if results are flushed |
| FloatLaws.SpecialSums | src/fpu/softfloat.c:3769-3807 | infinities of unlike signs give the default NaN with the invalid flag, other sums with infinities that infinity |
| FloatLaws.MulAddLaw | src/fpu/softfloat.c:2304-2514 | what is delivered for finite operands is the signed A * B + C with the negations and the halving asked for, rounded once, with the sign of an exact zero |
| FloatLaws.SpecialMulAdds | src/fpu/softfloat.c:2304-2514 | products and sums with infinities: signs after the negations, and the default NaN with the invalid flag |
| FloatLaws.NaNOperands | src/fpu/softfloat.c:3815-3868 | NaN operands of sums, products and quotients have the outcome of the NaN rules |
| FloatLaws.SqrtLaw | src/fpu/softfloat.c:2524-2571 | what is delivered for a positive number is the number rounded once whose order with the integers is that of the square root of the number of units times the units of one |
| FloatLaws.RemLaw | src/fpu/softfloat.c:3948-4026 | section 5.3.1: the remainder is A - n * B for an integer n, at most half of B in magnitude, n being even at half, a zero having the sign of A; it is delivered, or flushed to a zero of its sign |
| Words.Add128 | src/fpu/softfloat-macros.h:353-363 | 128-bit sum modulo 2^128 |
| Words.Sub128 | src/fpu/softfloat-macros.h:411-419 | 128-bit difference modulo 2^128 |
| Words.Mul64To128 | src/fpu/softfloat-macros.h:465-486 | exact product of two words, all carries of the cross terms taken along |
| Words.Mul128By64To192 | src/fpu/softfloat-macros.h:495-514 | exact 192-bit product |
| Words.Mul128To256 | src/fpu/softfloat-macros.h:523-551 | exact 256-bit product |
| Words.EstimateDiv128To64 | src/fpu/softfloat-macros.h:562-582 | with b at least 2^63 and a below b * 2^64 the estimate z satisfies (z - 2) b <= a < (z + 1) b; its high half is exact after at most two corrections made modulo 2^128 |
| Float64Mul.MulFinite | src/fpu/softfloat.c:3849-3867 | finite non-zero operands: exact product, rounded once |
| Float64Mul.Mul | src/fpu/softfloat.c:3815-3868 | all operands: exact product rounded once, NaN, infinity and zero cases, flags |
| Float64Div.DivSignificand | src/fpu/softfloat.c:3921-3938 | although the remainder is only computed if the low nine bits are at most two, the result rounds like the exact quotient |
| Float64Div.CloseEnough | src/fpu/softfloat.c:3929-3929 | an estimate whose low nine bits exceed two lies in the same rounding cell as the quotient |
| Float64Div.Div | src/fpu/softfloat.c:3876-3940 | all operands: exact quotient rounded once, division by zero, invalid cases, flags |
| Float64Add.AddFinite | src/fpu/softfloat.c:3617-3686 | the sum of the magnitudes of finite operands rounded once, subnormals included |
| Float64Add.SubFinite | src/fpu/softfloat.c:3696-3761 | the difference of the magnitudes rounded once, with the sign of an exact zero |
| Float64Add.NearExponents | src/fpu/softfloat.c:3723-3756 | an alignment by at most one position loses nothing, so massive cancellation is exact |
| Float64Add.FlushedSumExactly | src/fpu/softfloat.c:3617-3686 | subnormal operands that are flushed before they are added give the flushed sum if and only if the exact sum is below the normal numbers |
| Float64Add.NormalSumIsFlushed | src/fpu/softfloat.c:3617-3686 | two subnormals whose sum is the smallest normal number are added to zero |
| Float64Add.Add | src/fpu/softfloat.c:3769-3784 | all operands: exact sum rounded once, zero signs of section 6.3, invalid for opposite infinities |
| Float64Add.Sub | src/fpu/softfloat.c:3792-3807 | all operands: exact difference rounded once |
| Float64Rem.Reduce | src/fpu/softfloat.c:3995-4000 | each 62-bit step keeps the dividend as quotient * divisor + residue with the residue below the divisor, and the loop ends |
| Float64Rem.LowQuotient | src/fpu/softfloat.c:3996-3997 | the lowered estimate never exceeds the quotient and is at most two below it |
| Float64Rem.LastDigits | src/fpu/softfloat.c:4001-4012 | the last digits leave a residue below three quarters of the scaled divisor and the parity of the quotient in q |
| Float64Rem.Finish | src/fpu/softfloat.c:4013-4023 | stepping below zero and comparing the last two remainders gives the nearest one, the even quotient for a tie |
| Float64Rem.RemainderUnique | src/fpu/softfloat.c:3948-4026 | section 5.3.1 determines the remainder |
| Float64Rem.RemainderFits | src/fpu/softfloat.c:4024-4024 | the remainder is representable, so delivering it does not round |
| Float64Rem.RemFinite | src/fpu/softfloat.c:3985-4024 | finite non-zero operands: exactly a - b n for n nearest to a / b, and what is delivered of it with and without flush_to_zero |
| Float64Rem.RemFlushesExactly | src/fpu/softfloat.c:3985-4024 | with flush_to_zero, result and flags are those of flushing the exact remainder if and only if the dividend, where it is returned for being small, is no subnormal, and where it is divided is no multiple of a divisor whose exponent is below 63 |
| Float64Rem.SubnormalIsReturned | src/fpu/softfloat.c:3985-4024 | the smallest subnormal by one comes back unflushed |
| Float64Rem.ZeroReportsDenormal | src/fpu/softfloat.c:3985-4024 | the smallest normal number by itself gives a zero and reports a denormal output |
| Float64Rem.Rem | src/fpu/softfloat.c:3948-4026 | all operands: the exact remainder and its flags, sign of a for zero, NaN, infinity and zero divisor cases, flush_to_zero |
| Float32Sqrt.CorrectRoot | src/fpu/softfloat.c:2558-2564 | the loop keeps rem = a * 2^32 - z^2 modulo 2^64 and stops at the integer part of the root |
| Float32Sqrt.UncorrectedRoot | src/fpu/softfloat.c:2553-2553 | if the low seven bits exceed five, skipping the correction cannot change the rounding |
| Float32Sqrt.OverflowedRoot | src/fpu/softfloat.c:2554-2557 | an estimate that wraps belongs to a root for which 0x7FFFFFFF rounds alike |
| Float32Sqrt.SquareRootIsRootLike | src/fpu/softfloat.c:2524-2571 | a real square root has the order with the integers that the specification uses in its place |
| Float32Sqrt.RootLikeExists | src/fpu/softfloat.c:2524-2571 | a number with that order exists for every radicand |
| Float32Sqrt.Sqrt | src/fpu/softfloat.c:2524-2571 | given an estimate strictly within two of the root: correctly rounded square root, flags, invalid for negative operands |
| Float32MulAdd.AddTerms | src/fpu/softfloat.c:2455-2475 | the sum of aligned, jammed terms rounds like the exact sum |
| Float32MulAdd.SubTerms | src/fpu/softfloat.c:2476-2507 | the difference rounds like the exact one, massive cancellation included, and is zero exactly for equal terms |
| Float32MulAdd.NaNOfMulAdd | src/fpu/softfloat-specialize.h:461-488 | the result is a quiet NaN: the default one if so configured or for infinity times zero plus a quiet NaN, else the NaN of the operand that no other precedes, signaling ones before quiet ones and c, a, b in this order; invalid exactly for signaling operands and for that product |
| Float32MulAdd.SumWithZero | src/fpu/softfloat.c:2375-2407 | a zero product: the addend, halved if asked for, and the signs of zero sums |
| Float32MulAdd.MulAdd | src/fpu/softfloat.c:2304-2514 | a * b + c rounded once for all negation flags and the halved result, with all special cases and flags |
| JitBits.BitwiseLow | src/jitter/x86_64/be_x86_64.c:1033-1037 | low bits of a 64-bit and, or, xor depend on low bits only |
| JitBits.MaskedLow | src/jitter/x86_64/be_x86_64.c:1040-1056 | and with the mask in rcx leaves the low bits |
| JitBits.SignExtended | src/jitter/x86_64/be_x86_64.c:1091-1104 | shl followed by sar extends the sign of the low bits |
| JitBits.NativeAsr | src/jitter/x86_64/be_x86_64.c:414-438 | sar of the sign-extended operand, masked, is the narrow arithmetic shift, for every count that cl may hold |
| JitBits.NativeShr | src/jitter/x86_64/be_x86_64.c:1013-1023 | a logical right shift is right if and only if the upper bits that it brings down are zero |
| JitBits.NativeRor | src/jitter/x86_64/be_x86_64.c:1024-1032 | the rotate of the partial register is the rotate of the value, for every count that cl may hold |
| JitLower.LoweringIsCorrect | src/jitter/x86_64/be_x86_64.c:362-500 | for every run of well-formed IR in which the upper bits of narrow operands are tolerated, the pseudo-instructions over 64-bit registers give the outcome of the IR and leave through the same exit; arithmetic shifts expanded, unread reads dropped |
| JitLower.ToleratedExactly | src/jitter/x86_64/be_x86_64.c:977-1079 | after a comparison, a shift, a selection or at an exit, registers and IR agree in the low bits if and only if the condition on upper bits holds |
| JitLower.CompareExactly | src/jitter/x86_64/be_x86_64.c:977-997 | a narrow comparison is right if and only if equal values come in equal registers |
| JitLower.SupportedIsTolerated | src/jitter/x86_64/be_x86_64.c:362-500 | operands that are clean by their definition, or because a helper keeps its promise, are tolerated whatever partial writes have left behind |
| JitLower.SingleStep | src/jitter/x86_64/be_x86_64.c:362-500 | every instruction but the narrow arithmetic shift keeps each register in agreement with its IR value in the low bits, and equal to it if known clean |
| JitLower.NarrowAsr | src/jitter/x86_64/be_x86_64.c:414-438 | the expansion through two temporaries computes the narrow arithmetic shift |
| JitAlloc.AllocationIsSound | src/jitter/x86_64/be_x86_64.c:533-716 | a slot is taken exactly if a live register holds it, and by one only |
| JitAlloc.LiveAreApart | src/jitter/x86_64/be_x86_64.c:533-716 | no two registers share a slot while both are live |
| JitAlloc.DestinationIsApart | src/jitter/x86_64/be_x86_64.c:584-593 | the destination differs from all operands and from all that is read later |
| JitAlloc.ExhaustedExactly | src/jitter/x86_64/be_x86_64.c:503-521 | the assertion fails exactly if a defining instruction meets eight slots held by registers still to be read |
| JitAlloc.FitsExactly | src/jitter/x86_64/be_x86_64.c:533-716 | all registers get slots if and only if fewer than eight are live wherever one more is defined |
| JitAlloc.LoweredTo | src/jitter/x86_64/be_x86_64.c:362-500 | lowering keeps single assignment form |
| JitMachine.RunAppend | src/jitter/x86_64/be_x86_64.c:1321-1407 | code that falls off its end goes on with what follows |
| JitEmit.CmpWrites | src/jitter/x86_64/be_x86_64.c:977-997 | all ones or zero by comparison of whole registers, given a destination apart from the operands |
| JitEmit.BinopWrites | src/jitter/x86_64/be_x86_64.c:999-1059 | the emitted operation and mask leave the result in the destination and the other slots alone |
| JitEmit.IteWrites | src/jitter/x86_64/be_x86_64.c:1061-1079 | conditional move selects by the whole predicate register |
| JitEmit.CastWrites | src/jitter/x86_64/be_x86_64.c:1081-1141 | extensions and truncations |
| JitEmit.ExitRuns | src/jitter/x86_64/be_x86_64.c:903-966 | returns the value with zero or the address of the ret in rdx, or jumps over itself if the predicate is zero |
| JitEmit.CallRuns | src/jitter/x86_64/be_x86_64.c:1165-1213 | the helper gets its address, the context and its arguments; slots, context pointer and stack survive; the result arrives |
| JitEmit.EmitIsCorrect | src/jitter/x86_64/be_x86_64.c:742-1319 | the code of every pseudo-instruction does on the slots what the instruction does on its registers |
| JitCompile.CodeSimulates | src/jitter/x86_64/be_x86_64.c:1321-1407 | the whole code simulates the pseudo-instructions for what the slots hold when they are written, and reports the address of the exit that it leaves through |
| JitCompile.CompiledCodeIsCorrect | src/jitter/x86_64/be_x86_64.c:1532-1548 | for every host, IR and machine state: generated code preserves the meaning of the IR, that is value, exit, stores, context writes and helper calls, if the run tolerates its upper bits |
| JitCompile.SupportedCodeIsCorrect | src/jitter/x86_64/be_x86_64.c:1532-1548 | programs whose whole-register operands are clean by definition or by promise of the helpers are compiled correctly from every machine state |
| JitCompile.OpenShiftsMayBeDiscarded | src/jitter/x86_64/be_x86_64.c:1532-1548 | if the outcome of the IR is the same whatever shifts by the width or more compute, the code has it |
| JitCompile.RegistersDoNotMatter | src/jitter/x86_64/be_x86_64.c:1532-1548 | programs with clean or promised operands return, report and do the same from any two states with the same guest context and world |
| JitShift.ShiftMeans | src/target/arm/disassembler/arm_disassembler.c:2411-2437 | the IR of a left or right shift by a guest register writes the value shifted by the low byte, or zero from 32 on, whatever shifts out of range compute |
| JitShift.ShiftIsCompiled | src/target/arm/disassembler/arm_disassembler.c:2411-2437 | so does the emitted code, from every state of the machine |
| JitBackend.Inter.AllocateRegister | src/jitter/x86_64/be_x86_64.c:175-193 | one backend register for each IR register, made when first met |
| JitBackend.Inter.AddExit | src/jitter/x86_64/be_x86_64.c:238-253 | an exit is patchable exactly if its value is the target of a constant move so far; last reads stay exact |
| JitBackend.Inter.AddCall | src/jitter/x86_64/be_x86_64.c:305-324 | stores the call and notes the last reads of address and parameters |
| JitBackend.Inter.AllocateInstructions | src/jitter/x86_64/be_x86_64.c:362-500 | the loop produces the lowered code with exact last reads |
| JitBackend.Inter.GetFreeRegRaw | src/jitter/x86_64/be_x86_64.c:503-514 | takes the first free slot |
| JitBackend.Inter.AllocateRegisters | src/jitter/x86_64/be_x86_64.c:533-716 | the loop over instructions computes the specified slots, or fails exactly when they run out |
| JitBackend.Inter.GenerateCode | src/jitter/x86_64/be_x86_64.c:1321-1407 | appends the code of each instruction and fails at a marker |
| JitBackend.Inter.Jit | src/jitter/x86_64/be_x86_64.c:1532-1548 | succeeds exactly if all registers get slots, there are no markers and the code fits into the buffer, and then returns the code of the main theorem |
| JitBuilder.Jitter.AddBinop | src/jitter/jitter.c:194-215 | keeps the IR well formed and the last reads exact |
| JitBuilder.Jitter.AddIte | src/jitter/jitter.c:498-520 | the same for selections |
| JitBuilder.Jitter.AddCall | src/jitter/jitter.c:446-471 | the same for calls |
| JitBuilder.Jitter.AddExit | src/jitter/jitter.c:631-647 | the same for exits |
| JitBuilder.ConsistentNext | src/jitter/jitter.c:76-90 | one more instruction keeps typing, single assignment, definition before use and last reads |
| JitPipeline.JitCode | src/jitter/jitter.c:1040-1047 | what the builder guarantees is what the backend needs; it succeeds exactly if the IR is compilable |
| JitNarrow.ByteTestExactly | src/jitter/x86_64/be_x86_64.c:1215-1226 | the emitted code for a byte that is read and compared with zero is right if and only if the byte is not zero or r8 has zeros above its low byte |
| JitNarrow.ByteTestMeans | src/jitter/x86_64/be_x86_64.c:1215-1226 | the IR of that program exits with 1 for a zero byte and with 2 otherwise |
| JitNarrow.ByteTestIsWellFormed | src/jitter/jitter.c:654-669 | the program is well formed and fails only the condition on upper bits |
| JitNarrow.CondExactly | src/target/arm/disassembler/arm_disassembler.c:2682-2696 | the emitted code for the test of a conditional instruction, with its reads, writes and helper call, is right if and only if a helper result with a zero low half has a zero upper half |
| JitNarrow.CondIsSupported | src/target/arm/disassembler/arm_disassembler.c:2682-2696 | its IR is well formed, and a promise of the helper is all that it needs |
| JitLaws.OperatorLaw | src/jitter/x86_64/be_x86_64.c:999-1059 | for every operator and width and from every state, the generated code that reads two operands, combines them and exits returns r with, modulo the size, r == a + b, r + b == a or r == a * 2^b, the bits of and, or, exclusive or and rotation, the floors of right shifts, and all ones or zero for comparisons |
| JitOperators.ApplyIsResult | src/jitter/jitter_types.h:64-74 | the same of the IR |
| JitLaws.CastLaw | src/jitter/x86_64/be_x86_64.c:1081-1141 | generated code of every cast keeps the unsigned or signed value or its remainder |
| JitLaws.SelectLaw | src/jitter/x86_64/be_x86_64.c:1061-1079 | generated code returns the first value for a predicate that is not zero and the second one otherwise |
| JitLaws.MemoryLaw | src/jitter/x86_64/be_x86_64.c:769-881 | generated code loads from and stores to the addresses that it has read, writes and reads the context, in this order and in the width asked for |
| JitLaws.CallLaw | src/jitter/x86_64/be_x86_64.c:1165-1213 | generated code passes the context and four values in order and width to the helper whose address it has read, and returns its result and its effects |
| JitBlocks.BlockCompiles | src/jitter/x86_64/be_x86_64.c:1532-1548 | short straight-line blocks in order are well formed, find slots and leave through an exit that cannot be patched |
| JitLink.LinkDeterminesValue | src/jitter/x86_64/be_x86_64.c:926-957 | runs that report the same address return the same value, so a jump patched in there is right whenever the exit is taken |
| JitLink.PatchIsCorrect | src/jitter/x86_64/be_x86_64.c:1513-1529 | with any number of exits patched, the runs that returned the address of one of them jump to its target instead, with the same effects, and all others are as before |
| JitLink.PatchAddsTarget | src/jitter/x86_64/be_x86_64.c:1513-1529 | patch finds a ret at the address of an exit not patched yet, whatever others have been, and adds it to the patched ones |
| JitDispatch.CompiledGuestIsWellBehaved | src/main.c:79-96 | compiled blocks are a guest as the dispatch loop needs it: every patchable exit always returns the same pc, and code fits into the buffer |
| JitDispatch.EntryDoesNotMatter | src/main.c:79-96 | a block with clean or promised operands reports the same exit, pc and world whether it is entered from the loop or through a link |
| JitMarker.MarkersInIrChangeNothing | src/jitter/x86_64/be_x86_64.c:351-360 | markers anywhere in the IR leave slots and code as they are |
| JitMarker.FindInsnInCode | src/jitter/x86_64/be_x86_64.c:1409-1501 | the search returns the last marker before the instruction whose code spans the offset |
| JitMarker.LastMarkerIsLast | src/jitter/x86_64/be_x86_64.c:1409-1501 | it is the pc of a marker that no other one follows before the instruction, or 0xFFFFFFFF if there is none |
| Cache.TranslationCache.Search | src/cache/cache.c:145-179 | fast slot and chain find exactly what the map holds for the pc, that is the only block for it if none was appended twice |
| Cache.TranslationCache.Append | src/cache/cache.c:181-208 | the map gets one more entry, after being emptied if the arena is full, unless the pc is cached already and its block in the fast slot; blocks keep tiling the arena |
| Cache.FoundIsBlock | src/cache/cache.c:162-175 | what is found for a pc is a block for it, and nothing is found only if there is none |
| Cache.DistinctContents | src/cache/cache.c:162-175 | if no pc has been appended twice the fast slots make no difference to the map |
| Cache.TranslationCache.Reset | src/cache/cache.c:137-143 | the map is empty |
| Cache.TranslationCache.LookupPc | src/cache/cache.c:210-228 | every host address inside the blocks finds the pc and the code start of its owner, and the walk ends |
| Cache.BlocksAreDisjoint | src/cache/cache.c:192-205 | no address belongs to two blocks |
| Cache.ChainsGoDown | src/cache/cache.c:196-198 | chain pointers lead to strictly lower addresses |
| CacheList.CacheList.Lookup | src/cache/cache.c:145-179 | with any number of caches, a lookup only returns blocks appended after the last request to clean, and nothing from a cache with one pending, which it empties; blocks and mappings of the other caches stay |
| CacheList.CacheList.Append | src/cache/cache.c:181-208 | a clean event is reported exactly if the block does not fit; then it is the only block, otherwise it comes after those present; the mapping, the write position, the order and the cleared mark in both cases |
| CacheList.CacheList.CleanCaches | src/cache/cache.c:260-264 | from then on all present blocks are old |
| CacheList.CacheList.RemoveCache | src/cache/cache.c:84-105 | the walk finds the cache and takes it off the list |
| Dispatch.Dispatcher.Execute | src/main.c:80-83 | following patched exits ends, and goes through the pcs that the guest runs through without them |
| Dispatch.FollowIsChain | src/main.c:80-83 | an execution runs the chain of blocks that patched exits lead to from the first one, and ends at the first exit that is not patched |
| Dispatch.PcsAre | src/main.c:75-83 | without patching, each block runs from the pc and state that the one before has left |
| Dispatch.LinkedToIs | src/main.c:91-96 | patching makes the exit that was left jump to the new block if the guard says so, and keeps all other patched exits of all blocks |
| Dispatch.Dispatcher.Translate | src/main.c:84-97 | the patched exit belongs to an older live block and returns the pc of the new one; after a reset, by request or because the arena is full, there is one block and nothing is patched |
| Dispatch.Dispatcher.Iterate | src/main.c:75-103 | one pass of the loop, for a hit, a miss that fits and a reset of either kind: the block that is run, the exits that are patched, where the chain of blocks ends, the contents and the end of the cache; all links stay sound |
| Dispatch.Dispatcher.Loop | src/main.c:66-104 | the loop ends only when the guest stops looping or the modelled passes are used up: there is a sequence of moments, the first and last being the states before and after, of which each was entered while the guest was looping and leads to the next by one pass with its clean request; the pcs are those of a loop without patching |
| Dispatch.Dispatcher.ForwardIffOneBlock | src/main.c:91-96 | the guard is the test for a forward link, for every pc, if and only if the last pass ran one block |
| Dispatch.LinkThatGoesBack | src/main.c:91-96 | a run in which the exit of a block is patched to jump to a block of lower pc |
| Mutex.StepKeepsInv | src/runtime/pthread.c:37-65 | the invariant holds after every atomic step of any thread |
| Mutex.MutualExclusion | src/runtime/pthread.c:37-65 | in no run do two threads hold the lock |
| Mutex.NeverAllAsleep | src/runtime/pthread.c:37-49 | while a thread sleeps another one owns the lock with the word at 2, owes a wake or is awake in the retry loop |
| Mutex.UnlockRetriesOnce | src/runtime/pthread.c:51-65 | the compare-and-swap of an unlock fails at most once |
| Mutex.NoWakeWithoutContention | src/runtime/pthread.c:60-64 | an uncontended lock is given back without a system call |
| Mutex.UncontendedLock | src/runtime/pthread.c:37-65 | a free lock is taken with the word at 1 and given back with it at 0, the calling thread never sleeping nor waking others |
| Mutex.ContendedLock | src/runtime/pthread.c:37-49 | a thread that finds the lock taken marks the word with 2 and sleeps |
| Mutex.HandOver | src/runtime/pthread.c:37-65 | the owner of a marked lock frees it and wakes the sleeper, which takes it and leaves it marked |

## Left out

- Float32Sqrt.Sqrt: the bound that the comment on estimateSqrt32 gives for its table-driven estimate is a precondition.
- JitCompile.CompiledCodeIsCorrect: a run that does not tolerate some upper bits may have the right outcome all the same, if the wrong value is not used; for whole programs the exact condition is given for two of them.
- JitLower.ToleratedExactly: loads, stores and calls are not in it; an address narrower than 64 bits is asked to come in a clean register.
- JitBuilder.Jitter.AddWriteContext: the builder does not check the width of what is written, nor that of the operand of a cast; well-formed IR is taken to have the right ones.
- JitBackend.Inter.AllocateInstructions: the memory pools do not run out.
- JitMachine.RunAppend: instructions have their lengths but not their bytes; jump distances are counted in instructions.
- Dispatch.Dispatcher.Loop: a block behaves the same whether it is entered from the loop or through a link, which is proved of blocks with clean or promised operands only; the translation of a pc does not change while its block is cached, and a chain of linked blocks is run to its end even if the guest stops looping in the middle.
- CacheList.CacheList.Lookup: calls are atomic; the unsynchronised flag is not raced.
- float64_muladd, whose 128-bit jamming shift and normalization are not modelled; the other float32 operations, comparisons and conversions.
- Half precision, extended and quadruple precision, exp2 and log2.
- The NaN rules of targets other than ARM.
- The i386 backend.
- Liveness of the mutex, which depends on a fair scheduler.
- Disassembly, signal handling, system calls, ELF loading, thread-local storage and option parsing.
