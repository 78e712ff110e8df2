# WallNetMalbolge in Dafny

A model of the two core pieces of WallNetMalbolge.

The first is the Malbolge interpreter (`MalbolgeInterpreter`):
- a tape of 3^10 = 59049 cells and the registers A, C and D;
- the ternary "crazy" operation and the trit rotation;
- wrapped register arithmetic;
- the address-dependent decode of the cell at C through `NormalizationTable`;
- the eight instruction bodies;
- the self-modification of the executed cell through `EncryptionTable`;
- program loading, with the deterministic fill of the rest of the tape;
- the two static codecs, `DeNormalize` (mnemonic form to raw form) and `Normalize` (raw form to mnemonic form).

The second is the linear program generator (`LinearGenerator`):
- the mutation list built by its static constructor, and its full-length sublist;
- `GenerateOpCodes`, the search that grows a mnemonic program one target character at a time;
- `GenerateProgram`.

The interpreter that runs each candidate and the random number generator are parameters of the generator model. So its properties hold whatever the interpreter prints and whatever the random draws are.

Modules, one per file:
- `Wrappers`: `Option`.
- `Arith`: small facts about division.
- `CSharp`: C#'s truncating `%`, and the unchecked casts to `ushort` and `char`.
- `Ternary`: trits, `Crazy`, `Rotate` and `WrappedIncrement`.
- `OpCodes`: instructions, mnemonics and the two tables.
- `Interpreter`: the machine, one step, fuel-bounded runs, and loading.
- `Codec`: `DeNormalize` and `Normalize`.
- `Mutations`: the mutation lists.
- `Generator`: the search.

The interpreter and codec model follow the code, including where it departs from what the program evidently intends. The generator is modelled twice: `Generator.GenerateOpCodesAsWritten` is the code as written, and `Generator.GenerateOpCodes` and `Generator.GenerateProgram` are the corrected versions that the properties below are about (see Findings). The points where the code departs from what the program evidently intends:
- C and D are advanced on every step, also on the step that terminates the machine.
- Loading has no size check. A program longer than the tape is excluded by the precondition `IsProgramText` instead of being reported as an error.
- The machine is not fault-free. The C# code throws when the decode index `Tape[C] - 33 + C` is negative, and when a `Jump` sends C past the tape. `CanStep` names the steps that do not throw, and a run that reaches any other step ends as `Crashed`.
- The mutation list is not ordered shortest first, and it repeats entries (`Mutations.MutationOrder`).
- `DeNormalize` uses C#'s truncating `%` and an unchecked `char` cast. So the round trip `Normalize(DeNormalize(m)) == m` holds for opcode strings of up to 40 characters, and can fail at 41, with a `Rotate` at position 40 (`Codec.RoundTripBreaksAt41`).
- The generator's output buffer is never cleared between probes, and the echo reads one past the character found. `GenerateOpCodesAsWritten` keeps both; `GenerateOpCodes` and `GenerateProgram` correct both (see Findings).

## Model

| member | source | states |
|---|---|---|
| CSharp.TruncMod | WallNetMalbolge/MalbolgeInterpreter.cs:170 | C#'s remainder: it equals the Euclidean one for a non-negative dividend; for a negative dividend it lies in (-m, 0] and is the Euclidean remainder minus m, or 0 |
| CSharp.ToUInt16 | WallNetMalbolge/MalbolgeInterpreter.cs:275-278 | the unchecked `ushort` cast keeps a value in range and is congruent to its argument modulo 65536 |
| CSharp.ToChar16 | WallNetMalbolge/MalbolgeInterpreter.cs:170 | the unchecked `char` cast is the low 16 bits; it keeps 0..0xD7FF and wraps -0x2000..-1 up by 65536 |
| Ternary.Pow3Constants | WallNetMalbolge/MalbolgeInterpreter.cs:23-28 | `LeadingOneTrit` is 3^9 and `MaxValue` is 3^10 |
| Ternary.TritIsDivision | WallNetMalbolge/MalbolgeInterpreter.cs:146-147 | the trit the source reads as `v / 3^i % 3` is trit i of v |
| Ternary.Crazy | WallNetMalbolge/MalbolgeInterpreter.cs:139-152 | the crazy operation of any two `ushort`s is a word below 59049 |
| Ternary.CrazyTrits | WallNetMalbolge/MalbolgeInterpreter.cs:139-152 | trit i of `Crazy(l, r)` is `CrazyTable[trit i of r][trit i of l]`, for each of the ten trits |
| Ternary.CrazyLowTrits | WallNetMalbolge/MalbolgeInterpreter.cs:139-152 | `Crazy` depends only on the low ten trits of its operands |
| Ternary.CrazyOfZeros | WallNetMalbolge/MalbolgeInterpreter.cs:40 | every trit of `Crazy(0, 0)` is 1, so it is 29524 |
| Ternary.CrazyLoop | WallNetMalbolge/MalbolgeInterpreter.cs:139-152 | the source's digit loop computes the same word as the trit-wise definition |
| Ternary.Rotate | WallNetMalbolge/MalbolgeInterpreter.cs:321 | rotating a word below 59049 gives a word below 59049 |
| Ternary.RotateTrits | WallNetMalbolge/MalbolgeInterpreter.cs:303-324 | trit i of the rotated word is trit i+1 of the word, and the top trit is the old bottom one |
| Ternary.RotateNTrits | WallNetMalbolge/MalbolgeInterpreter.cs:303-324 | n rotations move every trit index on by n, modulo 10 |
| Ternary.RotateCycle | WallNetMalbolge/MalbolgeInterpreter.cs:303-324 | ten rotations give back the word |
| Ternary.WrappedIncrement | WallNetMalbolge/MalbolgeInterpreter.cs:326-329 | the double truncated remainder and cast give the value in [0, 59048] congruent to `original + increment` |
| Ternary.WrappedIncrementNeighbours | WallNetMalbolge/MalbolgeInterpreter.cs:326-329 | +1 wraps 59048 to 0; -1 and -2 wrap below 0 to the top of the tape |
| OpCodes.OpCodeMapsInverse | WallNetMalbolge/MalbolgeInterpreter.cs:47-71 | the two opcode maps are inverse bijections between the eight instructions and their mnemonics |
| OpCodes.OpCode | WallNetMalbolge/MalbolgeInterpreter.cs:47-58 | every instruction's mnemonic is looked up in the reverse map as that instruction |
| OpCodes.TableIndex | WallNetMalbolge/MalbolgeInterpreter.cs:87-92 | every instruction's position in the decode table lies in [6, 94) |
| OpCodes.TableIndexHoldsOpCode | WallNetMalbolge/MalbolgeInterpreter.cs:87-92 | the decode table holds each instruction's mnemonic at that instruction's position |
| OpCodes.TableIndexIsFirst | WallNetMalbolge/MalbolgeInterpreter.cs:87-92 | no earlier entry holds the mnemonic, so the position is what `IndexOf` returns |
| OpCodes.DecodeAtTableIndex | WallNetMalbolge/MalbolgeInterpreter.cs:228-232 | a value whose decode index hits an instruction's table position decodes to that instruction |
| OpCodes.TryGetInstruction | WallNetMalbolge/MalbolgeInterpreter.cs:228-232 | a character decodes at a position exactly when the decode-table entry it selects is a mnemonic, and then to that mnemonic's instruction |
| OpCodes.Encrypted | WallNetMalbolge/MalbolgeInterpreter.cs:243-245 | the replacement of a printable cell is printable |
| OpCodes.EncryptionTableIsPrintable | WallNetMalbolge/MalbolgeInterpreter.cs:35-36 | the encryption table has 94 entries, all in [33, 126] |
| Interpreter.CurrentOperation | WallNetMalbolge/MalbolgeInterpreter.cs:73-85 | the current instruction is the one whose mnemonic is at entry `(Tape[C] - 33 + C) % 94`, and `Nop` when that entry is no mnemonic |
| Interpreter.IncrementProgramAndDataCounters | WallNetMalbolge/MalbolgeInterpreter.cs:280-284 | C and D each advance by one modulo 59049, and nothing else changes |
| Interpreter.StepOnce | WallNetMalbolge/MalbolgeInterpreter.cs:215-226 | a terminated machine is unchanged; otherwise the step decodes, executes, encrypts and advances, and the machine stays well formed |
| Interpreter.Execute | WallNetMalbolge/MalbolgeInterpreter.cs:234-301 | what each of the eight instruction bodies changes: C on `Jump`, D on `Move`, the output on `Out`, A and the input count on `In`, cell D and A on `Rotate` and `Crazy`, the flag on `End`, and nothing else |
| Interpreter.Encrypt | WallNetMalbolge/MalbolgeInterpreter.cs:241-253 | `Encrypt` replaces a printable cell at C through the table, or terminates when the cell is not printable, and touches nothing else |
| Interpreter.StepPointers | WallNetMalbolge/MalbolgeInterpreter.cs:280-294 | after a step C is one past the jump target or the old C, and D one past the move target or the old D, also on the step that terminates |
| Interpreter.StepRegisters | WallNetMalbolge/MalbolgeInterpreter.cs:275-301 | after a step A, the output and the input count are as the instruction sets them: `Out` appends `A % 256`, `In` stores the input cast to `ushort`, `Rotate` and `Crazy` store their word |
| Interpreter.StepTape | WallNetMalbolge/MalbolgeInterpreter.cs:234-253 | after a step the executed cell (the jump target after a `Jump`) is encrypted when printable, cell D, when it is another cell, holds the stored word for `Rotate` and `Crazy` and is unchanged otherwise, and no other cell changes |
| Interpreter.StepTermination | WallNetMalbolge/MalbolgeInterpreter.cs:241-258 | a step terminates the machine exactly when it executes `End` or leaves a non-printable cell to encrypt |
| Interpreter.TerminatedIsFinal | WallNetMalbolge/MalbolgeInterpreter.cs:215-220 | a terminated machine can always step and never changes again |
| Interpreter.StepExtendsOutput | WallNetMalbolge/MalbolgeInterpreter.cs:298-301 | a step keeps the output so far and adds at most one character |
| Interpreter.StepPreservesValid | WallNetMalbolge/MalbolgeInterpreter.cs:215-253 | a valid machine (cells and pointers below 59049) that is terminated or whose decode index `Tape[C] - 33 + C` is not negative can take a step without the C# code throwing, and stays valid |
| Interpreter.StepKeeps | WallNetMalbolge/MalbolgeInterpreter.cs:215-226 | the step function is defined exactly where the C# step does not throw, and keeps well-formedness, validity and the output |
| Interpreter.Iterate | WallNetMalbolge/MalbolgeInterpreter.cs:207-213 | the loop ends halted exactly when the machine is terminated, crashed only where the step is undefined, and with no fuel it is halted or out of fuel at the start |
| Interpreter.IterateKeeps | WallNetMalbolge/MalbolgeInterpreter.cs:207-213 | iterating such a step function ends halted exactly when terminated, crashes only where it cannot step, and keeps well-formedness, validity and the output |
| Interpreter.RunFacts | WallNetMalbolge/MalbolgeInterpreter.cs:207-213 | every run of the interpreter keeps those facts |
| Interpreter.Run | WallNetMalbolge/MalbolgeInterpreter.cs:207-213 | a run ends well formed, halted exactly when terminated, crashed only where the C# code would throw, with the earlier output as a prefix, and valid if it started valid and did not crash |
| Interpreter.IterateFuelMonotone | WallNetMalbolge/MalbolgeInterpreter.cs:207-213 | more fuel does not change an iteration that has halted |
| Interpreter.RunFuelMonotone | WallNetMalbolge/MalbolgeInterpreter.cs:207-213 | more fuel does not change a run that has halted |
| Interpreter.HardReset | WallNetMalbolge/MalbolgeInterpreter.cs:266-273 | the reset machine has a zero tape, zero registers, is running and valid, keeps the collaborators' state, and cannot step until loaded (its decode index is -33) |
| Interpreter.CopyProgram | WallNetMalbolge/MalbolgeInterpreter.cs:181-184 | cells below the program length hold the program's characters, and the other cells are untouched |
| Interpreter.FillKeepsPrefix | WallNetMalbolge/MalbolgeInterpreter.cs:185-188 | the fill from cell i on leaves the cells before i alone |
| Interpreter.FillWritesCell | WallNetMalbolge/MalbolgeInterpreter.cs:185-188 | the fill writes cell i from its two wrapped predecessors as they stand |
| Interpreter.FillFirstCell | WallNetMalbolge/MalbolgeInterpreter.cs:185-188 | on a tape cleared from i on, the first filled cell is the crazy operation of its predecessors, where wrapped ones not yet filled are still 0 |
| Interpreter.FillSpec | WallNetMalbolge/MalbolgeInterpreter.cs:185-188 | on a tape cleared from i on, every cell from i on is the crazy operation of its two wrapped predecessors as the increasing fill sees them |
| Interpreter.LoadProgram | WallNetMalbolge/MalbolgeInterpreter.cs:177-189 | for a program given as its UTF-16 code units, surrogates included: after loading, A = C = D = 0, the machine runs, the program's code units sit at the start of the tape, the rest is the fill, and a program of words below 59049 gives a valid machine |
| Interpreter.LoadedTapeUnique | WallNetMalbolge/MalbolgeInterpreter.cs:177-189 | the cell-by-cell description of the loaded tape determines it |
| Interpreter.EndFirstHalts | WallNetMalbolge/MalbolgeInterpreter.cs:207-226 | a running machine with C = 0 and cell 0 holding 'Q' halts on its first step, printing and reading nothing |
| Interpreter.LoneHaltHalts | WallNetMalbolge/MalbolgeInterpreter.cs:177-258 | the loaded program "Q" halts on its first step whatever the machine held before, with no output and no input read |
| Codec.EncodedAt | WallNetMalbolge/MalbolgeInterpreter.cs:168-171 | the character written for an instruction at input position i is `TableIndex - i + 33`: printable up to the table index; past it the C# remainder repeats every 94 positions, so within each period the character is printable at the start, below 33 for the next 33 positions and wrapped by 65536 for the remaining 60, and it is printable exactly at the table index plus a multiple of 94 |
| Codec.EncodedAtRepeats | WallNetMalbolge/MalbolgeInterpreter.cs:170 | from the table index on, the character written at position i equals the one written 94 positions earlier |
| Codec.RotateAt100 | WallNetMalbolge/MalbolgeInterpreter.cs:170 | `Rotate` at position 100 is written as '!' again, and '!' at address 100 decodes back to `Rotate` |
| Codec.DeNormalize | WallNetMalbolge/MalbolgeInterpreter.cs:160-175 | the raw form is never longer than the mnemonic form |
| Codec.DeNormalizeOpCodes | WallNetMalbolge/MalbolgeInterpreter.cs:160-175 | on an opcode-only string the raw form has the same length, and character j is the instruction at j encoded at position j |
| Codec.DeNormalizeMixed | WallNetMalbolge/MalbolgeInterpreter.cs:160-175 | on any string the raw form has one character per opcode; the opcode at input position j is written, encoded at j, as the next character after those of the opcodes before it |
| Codec.DroppedCharacterShifts | WallNetMalbolge/MalbolgeInterpreter.cs:163-170 | a dropped non-opcode character still shifts later encodings: `xo` and `o` encode differently |
| Codec.Mnemonics | WallNetMalbolge/MalbolgeInterpreter.cs:193-205 | the mnemonic form is opcodes only and no longer than the raw form |
| Codec.Normalize | WallNetMalbolge/MalbolgeInterpreter.cs:193-205 | the mnemonic form holds opcodes only and is no longer than the raw form |
| Codec.MnemonicsAllDecoded | WallNetMalbolge/MalbolgeInterpreter.cs:193-205 | when every position decodes, the mnemonic form keeps the length and holds each decoded instruction's mnemonic |
| Codec.MnemonicsMixed | WallNetMalbolge/MalbolgeInterpreter.cs:193-205 | one mnemonic per decoded position, the position's instruction at the count of decoded positions before it |
| Codec.NormalizeMixed | WallNetMalbolge/MalbolgeInterpreter.cs:193-205 | on any decodable raw string the mnemonic form has one character per decoding position, in order, and the instruction decoded at position j is its character at the number of decoding positions before j |
| Codec.MnemonicsOfDecoded | WallNetMalbolge/MalbolgeInterpreter.cs:193-205 | decodings that are exactly the instructions of an opcode string give that string back |
| Codec.DecodeEncoded | WallNetMalbolge/MalbolgeInterpreter.cs:228-232 | an instruction encoded at position i decodes back to itself there, as long as the cast has not wrapped |
| Codec.EncodingDecodes | WallNetMalbolge/MalbolgeInterpreter.cs:160-175 | every character of the raw form of an opcode string of at most 40 decodes, at its position, to the instruction it came from |
| Codec.RoundTrip | WallNetMalbolge/MalbolgeInterpreter.cs:160-205 | `Normalize` undoes `DeNormalize` on every opcode string of at most 40 characters |
| Codec.NormalizeAppend | WallNetMalbolge/MalbolgeInterpreter.cs:193-205 | appending a raw character appends the mnemonic it decodes to, if any |
| Codec.NormalizeDropsAppended | WallNetMalbolge/MalbolgeInterpreter.cs:193-205 | appending a raw character that decodes to nothing leaves the mnemonic form unchanged |
| Codec.RotateWrapsAt40 | WallNetMalbolge/MalbolgeInterpreter.cs:170 | a `Rotate` at position 40 is encoded as 65535, which decodes to nothing at position 40 |
| Codec.WrappedRotateDropped | WallNetMalbolge/MalbolgeInterpreter.cs:160-205 | forty opcodes followed by a `Rotate` normalize back to the forty alone |
| Codec.RoundTripBreaksAt41 | WallNetMalbolge/MalbolgeInterpreter.cs:160-205 | for 41 opcodes ending in `Rotate` the round trip returns the first 40, not the input |
| Codec.NormalizeThenDeNormalize | WallNetMalbolge/MalbolgeInterpreter.cs:160-205 | on a raw string whose every position decodes, encoding the mnemonic form gives back the raw string exactly when each character is the encoding of its instruction at its position |
| Mutations.ExtendLength | WallNetMalbolge/Generators/LinearGenerator.cs:40-46 | extending a snapshot adds three children per entry |
| Mutations.ExtendMembers | WallNetMalbolge/Generators/LinearGenerator.cs:40-46 | the children are exactly the one-mnemonic extensions of the snapshot's entries |
| Mutations.SinglesMembers | WallNetMalbolge/Generators/LinearGenerator.cs:47-50 | the singles are exactly the one-character safe mnemonics |
| Mutations.BuildLength | WallNetMalbolge/Generators/LinearGenerator.cs:37-51 | after k rounds the list holds 4^k - 1 entries |
| Mutations.BuildMembers | WallNetMalbolge/Generators/LinearGenerator.cs:37-51 | after k rounds the list holds exactly the strings of 1 to k safe mnemonics |
| Mutations.BuildPrefix | WallNetMalbolge/Generators/LinearGenerator.cs:38-51 | each round keeps the earlier list as its prefix |
| Mutations.MutationCount | WallNetMalbolge/Generators/LinearGenerator.cs:37-53 | the mutation list has 1023 entries |
| Mutations.Reverse | WallNetMalbolge/Generators/LinearGenerator.cs:52 | the reversed list has the same length, with entry i taken from position n-1-i |
| Mutations.ReverseMembers | WallNetMalbolge/Generators/LinearGenerator.cs:52 | reversing keeps the same members |
| Mutations.MutationOrder | WallNetMalbolge/Generators/LinearGenerator.cs:52 | the list starts `*`, `p`, `o`, `**` and ends with `o`, so it is not shortest first and it repeats entries |
| Mutations.WithLength | WallNetMalbolge/Generators/LinearGenerator.cs:54-55 | the filter keeps exactly the entries of the given length, each as often as the list holds it |
| Mutations.MutationMembers | WallNetMalbolge/Generators/LinearGenerator.cs:35-53 | the mutations are exactly the strings of 1 to 5 characters over `o`, `p` and `*` |
| Mutations.ForcedMembers | WallNetMalbolge/Generators/LinearGenerator.cs:54-55 | the forced mutations are exactly the mutations of length 5, and there is at least one |
| Mutations.ForcedShape | WallNetMalbolge/Generators/LinearGenerator.cs:94-95 | any forced mutation picked has five safe mnemonics |
| Generator.SourceListsValid | WallNetMalbolge/Generators/LinearGenerator.cs:31-56 | the generator's two lists hold mutations, the forced ones of full length, and a draw below the forced count picks from a non-empty list |
| Generator.MutationPrintsNothing | WallNetMalbolge/Generators/LinearGenerator.cs:23-29 | a mutation contains no print |
| Generator.AppendToBody | WallNetMalbolge/Generators/LinearGenerator.cs:82-96 | appending a mutation, with or without a print, keeps the committed program safe mnemonics and prints, and adds exactly the appended prints |
| Generator.CandidatePrints | WallNetMalbolge/Generators/LinearGenerator.cs:73-75 | a probed candidate holds at least one print more than the committed program |
| Generator.CommitKeepsProbes | WallNetMalbolge/Generators/LinearGenerator.cs:82-83 | committing more keeps every earlier probe's program a prefix of the committed one |
| Generator.ProbeCollects | WallNetMalbolge/Generators/LinearGenerator.cs:76-80 | after one more probe the text compared is all runs' output, or this run's, as the comparison sees it |
| Generator.ProbeKeepsConsistent | WallNetMalbolge/Generators/LinearGenerator.cs:70-80 | running a listed mutation on the committed program keeps the state consistent |
| Generator.ScanFacts | WallNetMalbolge/Generators/LinearGenerator.cs:71-90 | a pass over the mutations changes only the compared text and the probes, keeps the state consistent, and a found pass's compared text is the target prefix |
| Generator.ScanTries | WallNetMalbolge/Generators/LinearGenerator.cs:71-90 | a pass tries the mutations in list order, each on the committed program restored after the failed ones, all of them when none is found |
| Generator.ScanFirstMatch | WallNetMalbolge/Generators/LinearGenerator.cs:79-87 | the mutation found is the first whose run makes the compared text the target prefix |
| Generator.CommitFound | WallNetMalbolge/Generators/LinearGenerator.cs:82-84 | committing a found mutation and a print keeps the state consistent, extends the program, adds one print, and is the probed candidate without its halt |
| Generator.CommitForced | WallNetMalbolge/Generators/LinearGenerator.cs:94-96 | committing a forced mutation keeps the state consistent, extends the program and adds no print |
| Generator.SearchFound | WallNetMalbolge/Generators/LinearGenerator.cs:79-87 | a pass that finds a mutation commits it with a print, or throws exactly when there is nothing to echo |
| Generator.SearchExhausted | WallNetMalbolge/Generators/LinearGenerator.cs:91-97 | a pass that finds nothing commits a random forced mutation and searches again |
| Generator.SearchPass | WallNetMalbolge/Generators/LinearGenerator.cs:68-98 | one pass either ends the search as stated, or repeats from a state where what the repetition achieves the search achieves |
| Generator.SearchFacts | WallNetMalbolge/Generators/LinearGenerator.cs:68-98 | a search that ends has extended the program with one more print, made the compared text the target prefix, run last exactly the program and a halt, and echoed one character |
| Generator.SearchedFromForced | WallNetMalbolge/Generators/LinearGenerator.cs:91-97 | a forced commit before a search is absorbed into what the search achieves |
| Generator.CharacterFound | WallNetMalbolge/Generators/LinearGenerator.cs:64-66 | finding character i reaches character i + 1 with a program of i prints and the compared text `target[..i]` |
| Generator.CharactersFacts | WallNetMalbolge/Generators/LinearGenerator.cs:64-99 | the outer loop from character i ends with one print per target character and the compared text equal to the target |
| Generator.StartFacts | WallNetMalbolge/Generators/LinearGenerator.cs:64-99 | the same from the empty program |
| Generator.GenerateFacts | WallNetMalbolge/Generators/LinearGenerator.cs:58-103 | with the intended echo the generator never throws; a program it returns is safe mnemonics and prints, one print per target character, the compared text and the echo are the target, and every probe ran a listed mutation on a prefix of it |
| Generator.HaltAppended | WallNetMalbolge/Generators/LinearGenerator.cs:101-102 | the final halt ends the program and adds no print |
| Generator.EmptyTargetDone | WallNetMalbolge/Generators/LinearGenerator.cs:64-102 | for the empty target the loop body never runs and the result is the lone halt |
| Generator.GenerateOpCodesFacts | WallNetMalbolge/Generators/LinearGenerator.cs:58-103 | the facts `GenerateOpCodes` promises, proved of the intended generation |
| Generator.GenerateOpCodes | WallNetMalbolge/Generators/LinearGenerator.cs:58-103 | the corrected generation (echo `target[i - 1]` at line 85, and a comparison with what each run printed at lines 79-80; the code as written is `GenerateOpCodesAsWritten`): a returned program is safe mnemonics and prints followed by one halt, has one print per target character, and for a non-empty target is the last candidate run, whose run printed exactly the target; the empty target gives the lone halt |
| Generator.AsWrittenFacts | WallNetMalbolge/Generators/LinearGenerator.cs:58-103 | the facts `GenerateOpCodesAsWritten` promises, proved of the generation as written |
| Generator.GenerateOpCodesAsWritten | WallNetMalbolge/Generators/LinearGenerator.cs:58-103 | as written, a non-empty target never yields a program, and the empty target yields the lone halt |
| Generator.HaltRawForm | WallNetMalbolge/Generators/LinearGenerator.cs:101-108 | the raw form of the lone halt is "Q" |
| Generator.GenerateProgramFacts | WallNetMalbolge/Generators/LinearGenerator.cs:105-108 | the raw form of any result with the promises of `GenerateOpCodes` exists with it, prints the target, decodes back to it up to 40 mnemonics, and is "Q" for the empty target |
| Generator.GenerateProgram | WallNetMalbolge/Generators/LinearGenerator.cs:105-108 | the raw form of the corrected generation `GenerateOpCodes` (as written the source never returns a program for a non-empty target, `GenerateOpCodesAsWritten`): a raw program exists exactly when the mnemonic one does; for a non-empty target, given to the interpreter, it prints exactly the target; up to 40 mnemonics it normalizes back to them; for the empty target it is "Q" |
| Generator.GeneratedIsOpCodes | WallNetMalbolge/Generators/LinearGenerator.cs:101-102 | such a program consists of opcodes only |
| Generator.GeneratedRoundTrip | WallNetMalbolge/Generators/LinearGenerator.cs:105-108 | a generated program of at most 40 mnemonics survives the trip through the raw form |
| Generator.AsWrittenNeverReturns | WallNetMalbolge/Generators/LinearGenerator.cs:85 | with the echo as written, no non-empty target ever yields a program: the echo of the last character is out of range |
| Generator.FoundCommits | WallNetMalbolge/Generators/LinearGenerator.cs:79-87 | with the intended echo, a pass that finds a mutation ends the search with that mutation and a print committed and the character echoed |
| Generator.AccumulatedReturnsWrongProgram | WallNetMalbolge/Generators/LinearGenerator.cs:60-87 | with the never-cleared buffer and an interpreter that prints "A" for every candidate, the target "AA" yields `*<*<v`, whose run prints "A", not the target |

## Left out

- Console I/O: the default output and input callbacks, and the `Console.Write` echo of the generator. Output is an appended string, the echo is the `echoed` string of the generator state, and input is a function from the call number to the value read.
- `System.Random`: the draws are a parameter `random`, with the n-th draw below the number of forced mutations (`IsRandomSource`).
- Unbounded loops: `Run` and the generator's `while (!found)` take a fuel bound. Running out of fuel is the outcome `GaveUp`, about which nothing is claimed.
- The interpreter run inside the generator: it is a parameter `oracle` from a raw program to the text it prints. Executing real programs through the 59049-cell fill is not part of this model. So a candidate whose run throws or never halts, which would make the generator throw or hang, is not modelled: the oracle answers for every program. Every probe also shares the interpreter's one `Console.Read` input stream, so in the source a candidate's output can depend on the input earlier probes consumed; the oracle is a function of the program alone, so it does not model that.
- The "Hello World!" test in `MalbolgeInterpreterSpec.cs`: it is a concrete execution, not a law.
- `IGenerator`: it is an interface only.
- The `Action` dictionaries that dispatch the instruction bodies: they are a single `match`.
- Exceptions: the steps on which the C# code throws are excluded by `CanStep`, and a run ends as `Crashed` there. `Normalize` requires `Decodable` instead of throwing on a negative table index.
- Interpreter.LoadProgram: requires `IsProgramText`, because the source writes past the tape for longer programs.
- Surrogate code units: a Dafny `string` holds Unicode scalar values only, so the input of `DeNormalize`, the raw input of `Normalize` and the generator's target cannot hold the code units 0xD800-0xDFFF that a C# string can. The loader takes its program as code units (`seq<uint16>`) and covers them; `DeNormalize` never writes one, since `EncodedAt` gives values below 127 or at least 0xFFC4.
- Codec.RoundTrip: stated for opcode strings of up to 40 characters, because the code breaks the law at 41 (`Codec.RoundTripBreaksAt41`).
- Mutations.WithLength: the order of the kept entries is not stated, only which entries are kept and how often.
- Generator.GenerateProgram: for the empty target it states that the program is "Q" and `Interpreter.LoneHaltHalts` that "Q" halts at once with no output; that the oracle answers "" for it is not assumed, since the oracle is arbitrary.
- OpCodes.InstructionOf: its contract is stated through `OpCode` and `OpCodes.OpCodeMapsInverse` (a contract of its own naming `OpCode` would make the two maps mutually recursive).
- Mutations.ForcedMembers: the number of forced mutations (243) is not stated, only that the list is non-empty and what it contains.

## Findings

| source | as written | input that shows it | evidently intended | confidence | as-written member | corrected member |
|---|---|---|---|---|---|---|
| WallNetMalbolge/Generators/LinearGenerator.cs:85 | after finding target character i (1-based) the generator echoes `target[i]`, one past the character found | any non-empty target: for i equal to the target length the index is out of range and the generator throws | echo `target[i - 1]` | high; not executed | Generator.AsWrittenNeverReturns | Generator.GenerateFacts |
| WallNetMalbolge/Generators/LinearGenerator.cs:79-80 | the buffer the interpreter prints into is created once at lines 60-61 and never cleared, so each comparison sees the text of every run so far, and a program is accepted when all runs together printed the target prefix | target "AA" with a hypothetical interpreter that prints "A" for every candidate (it shows the generator's logic only; the Malbolge machine itself halts silently on `*<v`), with the echo at line 85 corrected, since as written the generator throws there first and the defect shows only as wrong committed mutations and a wrong echo, never as a wrong returned program: the first two probes, `*<v` and `*<*<v`, fill the buffer with "AA", and `*<*<v` is returned although it prints "A" | compare with what this run printed | medium; not executed | Generator.AccumulatedReturnsWrongProgram | Generator.GenerateProgram |
