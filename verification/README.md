# TMS32010 toolchain, modelled and proved in Dafny

A model of an instruction-set toolchain for the original TMS32010 signal
processor: the instruction-boundary interpreter, the instruction database with its
validator, the two-pass assembler and the lossless disassembler. `dafny verify
dfyconfig.toml` checks everything.

The machine is a class, `Machine.Model`, whose fields and memories the methods
update in place in the order of the original; its log and its effects are computed
by separate methods. Each call of `Step` is proved against `Semantics.Step`, a pure
definition by components, and the theorems about whole runs are about that
definition. A run (`Runs`) is any sequence of steps, resets, pin changes and port
inputs; steps that raise an exception are part of runs.

- `Bits`, `Arithmetic`: Python's bit operators on integers; saturating sums, the
  divide step, circular counters.
- `Isa`, `Decoder`, `DecoderInverse`: instructions as values, the hand-written
  decoder, and the proof that it inverts the instruction words.
- `Semantics`, `Machine`: one step as a definition and as an object;
  `InstructionLaws`, `StateLaws`, `Bus`, `Context`: what each instruction does, in
  integers and bits, and what save and restore sequences keep.
- `Runs`, `InterruptRuns`, `StackRuns`, `Replay`: whole runs.
- `Execution`, `Division`, `Fir`, `FirExtremes`, `BanzLoop`, `Alias`: programs with
  interrupts inactive.
- `IsaDatabase`, `FieldReconstruction`, `ShadowedFields`, `Classification`,
  `Validator`, `Verdicts`, `BitTiling`, `Acceptance`, `RepeatedName`: mask/match
  decoding, for every database;
  `ShippedDatabase`, `ShippedValid`, `ShippedCounts`: the sixty entries.
- `Include`, `IncludeOrder`, `Expressions`, `ExpressionLaws`, `Encoder`,
  `OperandLaws`, `Assembler`, `TwoPass`, `Layout`: the assembler.
- `Disassembler`, `RoundTrip`, `PrintedForm`, `ImageBytes`, `Toolchain`: the way back.

Four findings. The validator never checks that the field names of an entry are
distinct. A validated entry with a repeated name loses a field: `RepeatedName` is a
database that passes every modelled check with two legal words decoding alike, and
`ShadowedFields.InjectiveExactly` gives the exact condition for all entries. The
divide idiom keeps OV for divisors up to 0x8000, one more than the largest positive
word, and for every larger divisor some dividend in range sets it
(`Arithmetic.SubcKeepsOverflowClear`). The product of 0x8000 by 0x8000 is
0xC0000000 and reads as -2^30, 2^31 less than the arithmetic product; a filter sum
that fits, with OVM clear, is right exactly for an even number of such taps
(`Fir.FirSigned`, `FirExtremes`). The word of `MAR *,k` is that of `LARP k`, so the
two cannot be told apart after assembly (`Encoder.EncodeThenDecode`,
`Alias.LarpIsMar`). Behaviours the original calls provisional (DINT cancelling an
entry, the ARP after an indirect LST, the OV stage of SUBC) are proved as what the
code does.

## Model

| member | source | states |
|---|---|---|
| Machine.Model.Step | sim/reference_models/tms32010_model.py:201-904 | one call returns the trace (event, addresses, branch decision, cycles and transactions) or raises the exception that `Semantics.Step` names for the old state, leaves exactly its state, and keeps every register in its width; the two internal assertions (lines 830 and 868) are `assert` statements in `ExecuteEffects` and `Finish`, so both are unreachable |
| Machine.Model.EnterInterruptRoutine | sim/reference_models/tms32010_model.py:205-235 | the dummy cycle: stacks the program counter, goes to vector 2, masks interrupts, clears the request and both latches, logs one fetch |
| Machine.Model.ExecuteStack | sim/reference_models/tms32010_model.py:251-306 | CALA, POP, PUSH and RET agree with the specification in state, trace and log |
| Machine.Model.ExecuteControlFlow | sim/reference_models/tms32010_model.py:307-390 | two-word instructions raise exactly when the second word is no program address, before anything changes, and otherwise agree with the specification |
| Machine.Model.ExecuteBranch | sim/reference_models/tms32010_model.py:334-377 | program counter, counter, stack and OV after every branch and CALL |
| Machine.Model.Address | sim/reference_models/tms32010_model.py:391-441 | the selected counter, the effective address and the exception raised before anything changes |
| Machine.Model.TransactionWord | sim/reference_models/tms32010_model.py:449-510 | the word the transactions carry, from the state before the effects |
| Machine.Model.LogData | sim/reference_models/tms32010_model.py:511-644 | the data, port and table transactions, in order, are those of the specification |
| Machine.Model.ExecuteEffects | sim/reference_models/tms32010_model.py:646-830 | the separately written effects leave every register and memory as the specification says; the unhandled-mnemonic branch cannot be reached |
| Machine.Model.ExecuteArithmetic | sim/reference_models/tms32010_model.py:648-813 | accumulator, OV and T after loads, sums, differences and the divide step |
| Machine.Model.ExecuteLogic | sim/reference_models/tms32010_model.py:700-821 | accumulator, product and T after loads, logic and multiplication, the 0x8000 by 0x8000 product included |
| Machine.Model.ExecuteStatus | sim/reference_models/tms32010_model.py:654-829 | auxiliary registers and status bits after the register and status loads, constants and mode instructions, before any indirect update |
| Machine.Model.ExecuteStores | sim/reference_models/tms32010_model.py:674-742 | the three memories, the stack and the accumulator after every store, move, port and table instruction |
| Machine.Model.Finish | sim/reference_models/tms32010_model.py:832-893 | counter and ARP after the indirect update (suppressed for LAR into the selected register), cycles, interrupt latches |
| Machine.Model.IndirectUpdate | sim/reference_models/tms32010_model.py:866-886 | the counter update and the next ARP of an indirect operand |
| Machine.Model.AdvanceInterruptPipeline | sim/reference_models/tms32010_model.py:906-928 | the two latches move as the deferral sequence says |
| Machine.Model.AddAccumulator | sim/reference_models/tms32010_model.py:935-950 | ACC is the exact signed sum, clamped when it leaves the 32-bit range in overflow mode and wrapped otherwise; OV is set when it leaves the range and else keeps its value |
| Machine.Model.SubtractAccumulator | sim/reference_models/tms32010_model.py:952-968 | the same for the difference |
| Machine.Model.ConditionalSubtract | sim/reference_models/tms32010_model.py:970-984 | ACC is one step of a restoring division; OV is set when the subtraction leaves the signed range and else keeps its value |
| Machine.AccumulatorBranchTaken | sim/reference_models/tms32010_model.py:986-1004 | each branch condition is the sign test of the signed accumulator |
| Machine.Model.Reset | sim/reference_models/tms32010_model.py:142-152 | exactly the documented reset effects |
| Machine.Model.constructor | sim/reference_models/tms32010_model.py:130-140 | all registers and memories zero, pins high |
| Machine.Model.LoadWords | sim/reference_models/tms32010_model.py:154-164 | the error is that of the first word that cannot be stored, and exactly the words before it are in memory |
| Machine.Model.LoadBinary | sim/reference_models/tms32010_model.py:166-183 | byte order, odd length and word errors in that order; on success the words of the bytes are stored |
| Machine.LoadableIsLongest | sim/reference_models/tms32010_model.py:158-164 | the stored prefix is the longest one of 16-bit words that fit |
| Arithmetic.AddOverflowExact | sim/reference_models/tms32010_model.py:937-942 | the bit test is true exactly when the signed sum leaves [-2^31, 2^31), for all 32-bit patterns |
| Arithmetic.SubOverflowExact | sim/reference_models/tms32010_model.py:954-960 | the same for differences |
| Arithmetic.StoredMeaning | sim/reference_models/tms32010_model.py:943-950 | the stored pattern reads back as the exact result, the clamped end of the range, or off by 2^32 |
| Arithmetic.OverflowIsSticky | sim/reference_models/tms32010_model.py:935-968 | over any sequence of additions and subtractions OV is set exactly when it was set before or some operation overflowed |
| Arithmetic.WrappedTotal | sim/reference_models/tms32010_model.py:935-968 | with OVM clear any sequence leaves the start plus the total modulo 2^32, whatever overflows on the way |
| Arithmetic.ClearOvIsExact | sim/reference_models/tms32010_model.py:935-968 | in either overflow mode, when OV ends clear the signed accumulator is the signed start plus the exact signed total of the sequence |
| Arithmetic.SubcDivides | sim/reference_models/tms32010_model.py:970-984 | sixteen divide steps leave remainder and quotient for every 16-bit divisor and every dividend below divisor times 2^16 |
| Arithmetic.SubcKeepsOverflowClear | sim/reference_models/tms32010_model.py:974-980 | no step of any division sets OV if and only if the divisor is at most 0x8000 |
| Division.SubcProgramDivides | sim/reference_models/tms32010_model.py:785-788 | sixteen SUBC words run by the machine divide in sixteen cycles, keep the data memory and every status bit but OV, and keep OV for divisors up to 0x8000 |
| Arithmetic.CounterIsCircular | sim/reference_models/tms32010_model.py:930-933 | the upper seven bits stay, the lower nine count modulo 512 |
| Arithmetic.CounterRing | sim/reference_models/tms32010_model.py:930-933 | n counts return to the start exactly when 512 divides n; up and down are inverse |
| BanzLoop.LoopEnds | sim/reference_models/tms32010_model.py:327-345 | a BANZ to itself ends for every counter value, after exactly AR mod 512 plus one rounds, with the low bits all ones and accumulator, memories and status kept |
| Decoder.Decode | sim/reference_models/tms32010_model.py:1006-1339 | a decoded instruction is legal, its word is the opcode, and its operands are the opcode's fields |
| DecoderInverse.DecodeAfterWord | sim/reference_models/tms32010_model.py:1006-1339 | every documented instruction has a 16-bit word that decodes to it |
| DecoderInverse.DecodeIsInverse | sim/reference_models/tms32010_model.py:1006-1339 | a word decodes to an instruction exactly when that instruction is legal and has that word |
| DecoderInverse.WordInjective | sim/reference_models/tms32010_model.py:1006-1339 | different documented instructions have different words |
| Runs.StepCases | sim/reference_models/tms32010_model.py:201-250 | a step from any well-formed state enters an interrupt, retires into a well-formed state, or raises one of the three errors; which, by the state alone |
| Runs.TrapIsAtomic | sim/reference_models/tms32010_model.py:237-250 | a raising step changes nothing but a possible latch of the request the pin asserts |
| Runs.RaisesExactly | sim/reference_models/tms32010_model.py:307-441 | a step raises exactly for undocumented opcodes, targets that are no program address, and data addresses 144 and up (143 and up for DMOV and LTD) |
| Runs.DetailsTell | sim/reference_models/tms32010_model.py:205-447 | what a trace reports came about: the reported target is the second word, the reported decision is the branch's own condition in the state before it (the signed accumulator, OV, the BIO pin, the low nine bits of the counter) and decides between the target and pc+2; entries stack the reported address, moves and table accesses transfer the word between the two cells named, and data accesses touch the reported address alone |
| InstructionLaws.OperandAddress | sim/reference_models/tms32010_model.py:425-435 | the field on the current page, page one for a direct SST, the low byte of the selected counter for an indirect operand |
| InstructionLaws.LoadsMean | sim/reference_models/tms32010_model.py:648-820 | LAC leaves the signed word times 2^shift, ZALH the signed word times 2^16, ZALS and LACK the unsigned constant, PAC the product, POP the stack top |
| InstructionLaws.SumsMean | sim/reference_models/tms32010_model.py:671-784 | every sum and difference: ACC reads as the exact integer when it fits, with OV kept, and otherwise OV is set and ACC is clamped or off by 2^32, the operand being sign-extended and scaled for ADD, SUB and SUBH and unsigned for ADDS and SUBS |
| InstructionLaws.AddhMeans | sim/reference_models/tms32010_model.py:753-760 | ADDH adds 2^16 times the word modulo 2^32, keeps the low half and keeps OV |
| InstructionLaws.SubcMeans | sim/reference_models/tms32010_model.py:970-984 | the divide step for every operand: the reduced difference shifted with a one, or ACC shifted with a zero, and OV for a difference out of range |
| InstructionLaws.LogicMeans | sim/reference_models/tms32010_model.py:789-803 | AND, OR and XOR at each of the 32 bit positions |
| InstructionLaws.AbsMeans | sim/reference_models/tms32010_model.py:813-818 | the magnitude; -2^31 stays or is clamped as OVM says, and OV is kept |
| InstructionLaws.MultiplyMeans | sim/reference_models/tms32010_model.py:700-721 | the product register reads as the signed product, but -2^30 for 0x8000 by 0x8000 |
| StateLaws.StoresMean | sim/reference_models/tms32010_model.py:674-745 | the one cell each store changes and its value, all other cells kept: SACH the accumulator bits from 16 minus shift up, SAR the value its register holds afterwards, SST each status bit in its place |
| StateLaws.CountersMean | sim/reference_models/tms32010_model.py:656-886 | both counters after every instruction: loads, BANZ, and the nine-bit count an indirect operand asks of the selected counter, which LAR into that counter suppresses |
| StateLaws.StatusMean | sim/reference_models/tms32010_model.py:654-888 | which instructions change OV, OVM, INTM, ARP and DP, and to what |
| StateLaws.ContinuesMean | sim/reference_models/tms32010_model.py:251-447 | where the program continues after every instruction, with the condition of every branch on the accumulator pattern, OV, the pin or the counter |
| StateLaws.StackMeans | sim/reference_models/tms32010_model.py:251-377 | the four stack levels after every instruction |
| StateLaws.TrapsMean | sim/reference_models/tms32010_model.py:313-441 | every exception with the address and word it reports |
| StateLaws.RegistersKept | sim/reference_models/tms32010_model.py:646-830 | all but the listed instructions keep ACC; all but the multiplies keep P; none touches the pins, the ports read or the request |
| StateLaws.ResetMeans | sim/reference_models/tms32010_model.py:142-152 | address 0, INTM set, request and deferral forgotten, everything else kept, and the next step fetches word 0 |
| Bus.BusCycles | sim/reference_models/tms32010_model.py:239-644 | the log of every instruction starts with its fetch, uses the external bus exactly once in each of its cycles (but the second of CALA, POP, PUSH and RET), and makes exactly the documented data accesses in its last cycle |
| Context.ContextRestored | sim/reference_models/tms32010_model.py:663-752 | SST, SACH, SACL on the way into a routine and ZALH, ADDS, LST on the way out restore ACC, OV, OVM, ARP and DP, in any addressing and whatever happened in between, if the three cells are kept |
| Context.AccumulatorRestored | sim/reference_models/tms32010_model.py:727-752 | SACH, SACL then ZALH, ADDS give back the accumulator and never touch OV |
| Context.StatusRestored | sim/reference_models/tms32010_model.py:663-742 | SST then LST gives back every status bit but INTM |
| Context.CounterRestored | sim/reference_models/tms32010_model.py:656-740 | SAR then LAR gives back the counter as SAR left it |
| Context.LogicTwice | sim/reference_models/tms32010_model.py:789-803 | XOR with the same word twice is the identity, AND and OR are idempotent |
| Semantics.RetireKeepsWidths | sim/reference_models/tms32010_model.py:75-87 | retiring any instruction keeps every register and memory word in its width |
| Replay.RetireReplays | sim/reference_models/tms32010_model.py:425-742 | replaying the log of an instruction gives the memories its separately computed effects leave |
| Replay.RunReplays | sim/reference_models/tms32010_model.py:425-742 | over any run of steps, traps, resets and pin changes, folding the logged writes over the first memories gives the last ones |
| Replay.RunExplains | sim/reference_models/tms32010_model.py:239-247 | every logged fetch, read and table read equals the memory or port when its step began; the cycle counter moves by what the trace reports |
| Replay.RunLogOrdered | sim/reference_models/tms32010_model.py:411-417 | the log of a whole run is in cycle order |
| InterruptRuns.DeferredAlways | sim/reference_models/tms32010_model.py:906-928 | in every run the two latches are never both set, and either implies a pending request with interrupts enabled |
| InterruptRuns.EintBetweenEntries | sim/reference_models/tms32010_model.py:205-250 | between two interrupt entries of any run an EINT retires, and after it at least one more instruction |
| InterruptRuns.InterruptLatency | sim/reference_models/tms32010_model.py:906-928 | from a deferred request, after any number of multiplies and one other instruction, the very next step is the interrupt entry stacking that instruction's successor; DINT alone cancels it and keeps the request |
| StackRuns.RunMovesStack | sim/reference_models/tms32010_model.py:251-306 | each action moves the four-level stack as its kind says, and RET goes to the top entry |
| StackRuns.StackRefines | sim/reference_models/tms32010_model.py:209-214 | in every run the tracked top entries of the hardware stack are those of an unbounded stack |
| StackRuns.DisciplinedStackIsExact | sim/reference_models/tms32010_model.py:690-699 | in runs within four levels (three at TBLR and TBLW, never popped empty) the hardware holds the whole unbounded stack and RET goes to its top |
| StackRuns.ReturnsMatch | sim/reference_models/tms32010_model.py:272-306 | the RET that closes a CALL, CALA, PUSH or interrupt returns to the address it pushed, from any earlier stack, while the nesting above that push stays within the four levels (three at TBLR and TBLW) |
| Fir.FirAccumulates | sim/reference_models/tms32010_model.py:669-724 | ZAC; LT; MPY; (LTD; MPY)*; APAC in any addressing and either overflow mode leaves in ACC and OV what adding the products one by one to zero leaves, and moves the delay line by exactly one word, for every tap count that fits |
| Fir.FirCorrect | sim/reference_models/tms32010_model.py:669-724 | so ACC is the sum of products modulo 2^32 with OVM clear, and in either mode OV is set exactly when it was set before or some partial sum left the signed range |
| Fir.FirProgram | sim/reference_models/tms32010_model.py:669-724 | the same for the words of the program with direct addresses, started at the program counter |
| Fir.FirSigned | sim/reference_models/tms32010_model.py:700-713 | with OVM clear the accumulator reads back as the signed convolution if and only if that fits in 32 bits and an even number of taps multiplies 0x8000 by 0x8000, whatever partial sums do |
| Fir.FirConvolves | sim/reference_models/tms32010_model.py:700-713 | the case of no such tap |
| Fir.FirCertified | sim/reference_models/tms32010_model.py:700-713 | in either overflow mode, when OV ends clear the accumulator is the signed convolution less 2^31 for each such tap, so it is the convolution exactly when there is none |
| FirExtremes.OneExtremeFails | sim/reference_models/tms32010_model.py:704-710 | a one-tap filter in program memory whose convolution 2^30 fits and that leaves -2^30 |
| FirExtremes.TwoExtremesCancel | sim/reference_models/tms32010_model.py:704-710 | a three-tap filter with two such taps that leaves its convolution |
| Alias.LarpIsMar | sim/reference_models/tms32010_model.py:807-808 | LARP k has the same effect on the whole state as MAR with counter unchanged and next ARP k |
| Alias.MarRetires | sim/reference_models/tms32010_model.py:809-810 | that effect is what every legal MAR does |
| IsaDatabase.DecodeEntry | tools/generators/isa_database.py:66-102 | decodes a word exactly when base pattern, constraints and listed values accept it, into the dictionary of its fields; numbers that are no words are refused |
| FieldReconstruction.FieldsRebuildWord | tools/generators/isa_database.py:66-102 | for a validated entry with distinct field names the match and the decoded fields, re-masked and shifted back, are the word |
| FieldReconstruction.DecodeInjective | tools/generators/isa_database.py:66-102 | hence decoding is injective per entry |
| ShadowedFields.SameDictionary | tools/generators/isa_database.py:93-102 | for every entry with valid spans two words have the same fields exactly when they agree on each field that is the last of its name |
| ShadowedFields.InjectiveExactly | tools/generators/isa_database.py:66-102 | for every validated entry, constraints and listed values included, decoding is injective exactly when no two accepted words differ only in fields shadowed by a later one of the same name |
| ShadowedFields.RebuildsExactly | tools/generators/isa_database.py:66-102 | the decoded fields, re-masked and shifted back by name, are the word exactly when each shadowed field holds what its name was given last |
| ShadowedFields.InjectiveIffDistinctNames | tools/generators/isa_database.py:264-302 | without constraints and listed values that condition is that the field names are distinct, which the validator does not check |
| RepeatedName.RepeatedIsValid | tools/generators/isa_database.py:204-368 | a database of one entry that names two fields alike passes every modelled check of the validator |
| RepeatedName.RepeatedLosesField | tools/generators/isa_database.py:66-102 | and two of its legal words decode to the same fields |
| Classification.DecodeWord | tools/generators/isa_database.py:410-424 | finds the one entry that accepts the word, reports ambiguity for more |
| Classification.ClassifyWord | tools/generators/isa_database.py:105-193 | the class, the mnemonics, the operands of a legal word and the open question of every word |
| Classification.AuditOpcodeSpace | tools/generators/isa_database.py:196-201 | counts every word of the opcode space in its class |
| Verdicts.LookupMeans | tools/generators/isa_database.py:410-424 | an entry is found exactly when it is the only one that accepts the word, with its fields; two that accept it are an ambiguity |
| Verdicts.VerdictMeans | tools/generators/isa_database.py:105-193 | the class follows from which entries accept the word or are candidates, in the order of the tests; its mnemonics are those of all candidates of that class, operands come with legal words alone and the open question with simultaneous updates alone |
| Classification.CountsPartition | tools/generators/isa_database.py:196-201 | the five counts sum to the number of words |
| Validator.ValidateDatabase | tools/generators/isa_database.py:204-368 | accepts exactly the databases that satisfy `ValidDatabase` |
| Validator.CheckEntry | tools/generators/isa_database.py:264-338 | accepts exactly the entries with 16-bit disjoint covering fields, valid listed values, constraints and envelope |
| Validator.CheckDecode | tools/generators/isa_database.py:354-368 | accepts exactly when no word decodes twice and every entry accepts some word |
| BitTiling.EntryFitsExactly | tools/generators/isa_database.py:264-338 | the mask arithmetic accepts an entry exactly when every one of the sixteen bits is either fixed or described by exactly one field, listed values fit their fields, constraint patterns stay inside their masks, and the envelope looks at fixed bits only and asks what the entry asks |
| Acceptance.AcceptsExactly | tools/generators/isa_database.py:204-368 | a database is accepted exactly when its entries fit in that sense, no word is an instance of two entries, every entry has an instance, and coverage and counts add up |
| Validator.BaseInEnvelope | tools/generators/isa_database.py:311-332 | base patterns lie in their audit envelopes |
| Validator.ClassesPartition | tools/generators/isa_database.py:105-193 | for every validated database each word has one class, legal exactly when `decode_word` returns an entry, and a legal word has the mnemonic and fields of that entry and lies in its base pattern and its envelope |
| Validator.AuditCovers | tools/generators/isa_database.py:196-201 | for every validated database the audit succeeds and its counts sum to 65536 |
| ShippedDatabase.DecodersAgree | tools/generators/isa_database.py:66-102 | each shipped entry decodes a word exactly when the model's hand-written decoder gives that mnemonic, with the same operands |
| ShippedValid.ShippedIsValid | tools/generators/isa_database.py:204-368 | the shipped database passes every modelled check of the validator |
| ShippedCounts.CountsAreExpected | tools/generators/isa_database.py:196-201 | the audit of the shipped entries counts exactly the recorded 21895, 10976, 372, 3637 and 28656 words |
| ShippedDatabase.CyclesAreDuration | sim/reference_models/tms32010_model.py:887-894 | the recorded cycle counts are the cycles the machine takes |
| ShippedValid.DecodeWordIsDecode | tools/generators/isa_database.py:410-424 | on the shipped database `decode_word` is the hand-written decoder, and never ambiguous |
| Include.ReadFile | tools/assembler/tms32010_as.py:104-116 | expands a file, reporting recursion before unreadable files |
| Include.ReadText | tools/assembler/tms32010_as.py:118-143 | the loop over the lines, stopping at the first failure |
| Include.ExpandsExactly | tools/assembler/tms32010_as.py:104-143 | expansion terminates, and succeeds exactly when every reachable file is readable and no include chain returns to a file on it |
| Include.NothingLeft | tools/assembler/tms32010_as.py:118-143 | no include line is left in the output |
| IncludeOrder.OutputInOrder | tools/assembler/tms32010_as.py:126-143 | the output of a file is its lines in order, every include line replaced in place by the output of its file |
| IncludeOrder.IncludedInPlace | tools/assembler/tms32010_as.py:126-143 | what stands before an include line comes out before the included output and what stands after it after it |
| IncludeOrder.TextsInSequence | tools/assembler/tms32010_as.py:126-143 | texts one after the other expand one after the other, and the first fault wins |
| IncludeOrder.PlainText | tools/assembler/tms32010_as.py:126-143 | a text without include lines expands to itself |
| IncludeOrder.ReportedFaultIsReal | tools/assembler/tms32010_as.py:104-116 | a reported recursion is the chain of includes from the root to a file on it, a reported file is unreadable and reached from the root |
| Include.ReportedChainRepeats | tools/assembler/tms32010_as.py:109-111 | a reported recursion is a chain that ends in a file it contains |
| Include.StackDoesNotMatter | tools/assembler/tms32010_as.py:118-143 | the expanded text does not depend on who includes it |
| Expressions.FloorLaws | tools/assembler/tms32010_as.py:556-567 | `//` and `%` satisfy the division law with the remainder on the divisor's side |
| ExpressionLaws.BinaryFails | tools/assembler/tms32010_as.py:555-595 | a binary expression has a value exactly when both operands have one, a divisor is not zero and a shift count is not negative |
| ExpressionLaws.ArithmeticMeans | tools/assembler/tms32010_as.py:556-561 | sum, difference, product, floor quotient and remainder of the operands' values |
| ExpressionLaws.ShiftsMean | tools/assembler/tms32010_as.py:562-563 | shifts multiply by 2^n and divide by it rounding down, for negative numbers too |
| ExpressionLaws.ShiftBack | tools/assembler/tms32010_as.py:562-563 | a left shift is undone by the right shift of the same count |
| ExpressionLaws.BitwiseMeans | tools/assembler/tms32010_as.py:564-566 | `|`, `&` and `^` at every bit position of the two's-complement numbers, which by `Bits.SameBits` is their whole value |
| ExpressionLaws.UnaryMeans | tools/assembler/tms32010_as.py:568-572 | `+`, `-` and `~`, the last also bit by bit |
| ExpressionLaws.NamesMean | tools/assembler/tms32010_as.py:546-553 | names are labels without regard to case, and `$` is the location |
| Expressions.EvaluateMonotone | tools/assembler/tms32010_as.py:537-552 | what evaluates with the labels seen so far keeps its value when all labels are known |
| OperandLaws.ValuesMean | tools/assembler/tms32010_as.py:537-553 | how each kind of operand text reads as a value |
| OperandLaws.PlacesMean | tools/assembler/tms32010_as.py:459-481 | which texts stand for a register and which for a port, and which number |
| OperandLaws.CountsMean | tools/assembler/tms32010_as.py:224-252 | the shape check passes exactly for operand counts in range with none missing; otherwise that is the fault reported |
| Encoder.EncodeIsDenoted | tools/assembler/tms32010_as.py:254-456 | an operand list is accepted exactly when it denotes a documented instruction, and then gives that instruction's word |
| Encoder.EncodeThenDecode | tools/assembler/tms32010_as.py:254-456 | an accepted instruction is a 16-bit word that decodes to the operands written; the decoded mnemonic differs from the written one exactly for MAR with `*` and a next ARP, which decodes as LARP of that ARP |
| Encoder.StarMeans | tools/assembler/tms32010_as.py:412-436 | `*`, `*+` and `*-` with or without a next ARP are the control bits the machine reads that way |
| Assembler.Assemble | tools/assembler/tms32010_as.py:145-222 | both loops compute `Passes`: the first failing line with its fault, or the words, listing and symbols |
| Assembler.EmitWordLine | tools/assembler/tms32010_as.py:182-195 | all values are evaluated at their own locations before any is emitted |
| Assembler.EmitInstructionLine | tools/assembler/tms32010_as.py:197-221 | emits the encoded word at the location and, for two-word instructions, the target at the one after it, keeps the earlier words, and moves the location past them; or reports the fault |
| Layout.AssemblesExactly | tools/assembler/tms32010_as.py:145-222 | a source assembles if and only if it has a layout: a location for every line such that `.ORG` goes to the value of its expression under the labels so far, `.WORD` and instructions move on by their words and stay in 4096, all operands have values in range or denote an instruction under all labels, labels are distinct and lines do not overlap; the layout is then unique, its labels are the symbols and its addresses the image |
| Layout.LocationMoves | tools/assembler/tms32010_as.py:155-221 | in every assembled source each line leaves the next one where its statement says |
| Layout.ListingInOrder | tools/assembler/tms32010_as.py:520-535 | the listing follows the lines, each row with the number of its own line and the addresses of one line one after the other |
| Layout.FirstFaults | tools/assembler/tms32010_as.py:148-179 | which fault stops the first pass at a line |
| Layout.FailureIsFirst | tools/assembler/tms32010_as.py:145-222 | a failure names the first line that stops the first pass, or else the second |
| TwoPass.PassesAgree | tools/assembler/tms32010_as.py:145-222 | if assembly succeeds both passes stand at the same location at every line |
| TwoPass.LabelIsLocation | tools/assembler/tms32010_as.py:148-154 | each label's value is the location of its own line in the emitting pass |
| TwoPass.SymbolsAreLabels | tools/assembler/tms32010_as.py:150-154 | the symbols are exactly the labels, each defined once |
| TwoPass.ImageExact | tools/assembler/tms32010_as.py:510-535 | the words are exactly those of the listing, 16 bits wide at distinct program addresses, and the location of each `.WORD` and instruction line holds what the line says with all labels known (`Layout.LocationMoves` says where `.ORG` and every other line put the next one) |
| ImageBytes.RawBytes | tools/assembler/tms32010_as.py:54-62 | refused exactly for an unknown byte order, a fill that is no word or a word wider than 16 bits; otherwise two bytes in the given order for every address up to the highest, those of the word there or of the fill |
| ImageBytes.ReadersAgree | tools/disassembler/tms32010_dis.py:204-211 | for any bytes and any origin the machine's loader accepts exactly what the disassembler's accepts and what fits in the program memory above the origin (8192 bytes at 0), and the words are then the same; of a longer image it loads the part that fits and reports the overrun |
| ImageBytes.ImageRoundTrip | sim/reference_models/tms32010_model.py:166-183 | for any successful assembly, either byte order and any fill the written bytes load at 0 without error, set exactly the addresses up to the highest, and read back as the same list |
| Disassembler.DisassembleSource | tools/disassembler/tms32010_dis.py:139-160 | the loop prints exactly the chunks of `Source` |
| Disassembler.SourceByStarts | tools/disassembler/tms32010_dis.py:139-160 | the printed source has one line for every statement start, in order: an opcode of a two-word instruction takes the next word as its target exactly when there is one below 4096, and every other word is a line of its own |
| Disassembler.DisassembleListing | tools/disassembler/tms32010_dis.py:162-201 | succeeds exactly when origin plus length is at most 4096, else with the fault of the first row that does not fit; row k shows address origin+k and word k, is a target row exactly when a statement does not start there, and without target rows it is the source form |
| RoundTrip.PrintedEncodes | tools/disassembler/tms32010_dis.py:24-137 | every printed instruction assembles to the word it was printed from |
| PrintedForm.PrintedIsShortest | tools/disassembler/tms32010_dis.py:24-137 | no operand list that assembles to a printed word is shorter than the printed one, which uses decimals, registers and indirect notation alone |
| RoundTrip.SourceRoundTrip | tools/disassembler/tms32010_dis.py:139-160 | for all 16-bit words the printed source assembles exactly when there are at most 4096 of them, and then to exactly those words at 0, 1, 2, ... |
| Toolchain.PrintedRawExactly | tools/disassembler/tms32010_dis.py:24-137 | exactly the undocumented words, lone control-flow opcodes and indirect words with a redundant ARP bit are printed as data |
| Toolchain.FullCircle | sim/reference_models/tms32010_model.py:154-183 | words printed, assembled, written as a raw image and loaded are the same words, in either byte order |

## Left out

- Machine.Model.Step: the `state_after` copy inside a trace is the state the call leaves and has no field of its own; the source masks the program counter, opcode and accumulator defensively at each use; well-formed states make those masks identities, and the model writes only the ones the results need.
- Machine.Model.StoredValue: the source computes the SAR value twice with the same expression, once for the log and once for the effect; both uses call one function here.
- Machine.Model.LoadBinary: the file read is a parameter.
- Runs: inputs between steps are modelled as assignments of the pins and ports, as the callers of the original do.
- Fir.FirCorrect: interrupts are inactive, as the idiom assumes; a saturating run that overflows has no closed sum and is stated as the fold of its additions (`FirAccumulates`).
- Validator.ValidateDatabase: schema version, device name, citations, confidence levels, required keys and type tests carry no computation and are not modelled; the modelled database is already typed.
- ShippedDatabase.EntryOf: descriptive fields and the order of the documented list are not modelled; no check depends on them.
- Classification.ClassifyWord: the sorting of the mnemonics is not modelled; they are a set.
- Assembler.Assemble: lines are already split into label, operation and operand tokens; lexing, Unicode and Python's expression parser are not modelled, an expression that does not parse is `Unsupported`.
- Assembler.WordCount: the database of the assembler is the shipped one, whose word count is 2 exactly for the two-word instructions.
- Expressions.Visit: shift counts too large for the memory of the host are not an error here.
- Encoder.Encode: diagnostics carry a kind and a line index, not their text.
- Include.ReadFile: an include line carries the path it resolves to, and expanded lines do not carry their file name and number.
- Disassembler.DisassembleSource: its input is 16-bit words; numbers outside that range, which the loader never produces, are only modelled for a single word.
- Text output: hexadecimal and listing texts, command lines, JSON and the generated documents are not modelled.
- RTL, simulation runners, trace capture, reference metadata and release scripts are not part of this model.
