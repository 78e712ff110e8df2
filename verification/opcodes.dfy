/** The instruction set, its one-character mnemonics ("opcodes") and the two
    94-entry substitution tables that drive address-dependent decoding and
    self-modification. */
module OpCodes {

  import opened Wrappers

  datatype Instruction = Jump | Out | In | Rotate | Move | Crazy | Nop | End

  /** Size of both substitution tables: the printable characters 33..126. */
  const TableSize := 94

  /** Decode table: the effective mnemonic of a cell holding `v` at address `a`
      is `NormalizationTable[(v - 33 + a) % 94]`. (Written in five pieces only
      so that the verifier can reason about every entry.) */
  const NormalizationTable: string :=
    "+b(29e*j1VMEKLyC})8&"
    + "m#~W>qxdRp0wkrUo[D7,"
    + "XTcA\"lI.v%{gJh4G\\-=O"
    + "@5`_3i<?Z';FNQuY]szf"
    + "$!BS/|t:Pn6^Ha"

  /** Self-modification table: an executed cell holding `v` in [33, 126]
      becomes `EncryptionTable[v - 33]`. */
  const EncryptionTable: string :=
    EncryptionPart1 + EncryptionPart2 + EncryptionPart3 + EncryptionPart4 + EncryptionPart5

  const EncryptionPart1: string := "5z]&gqtyfr$(we4{WP)H"
  const EncryptionPart2: string := "-Zn,[%\\3dL+Q;>U!pJS7"
  const EncryptionPart3: string := "2FhOA1CB6v^=I_0/8|js"
  const EncryptionPart4: string := "b9m<.TVac`uY*MK'X~xD"
  const EncryptionPart5: string := "l}REokN:#?G\"i@"

  /** `InstructionsToOpCodes`: every instruction's mnemonic maps back to it. */
  function OpCode(instruction: Instruction): (c: char)
    ensures InstructionOf(c) == Some(instruction)
  {
    match instruction
    case Jump => 'i'
    case Out => '<'
    case In => '/'
    case Rotate => '*'
    case Move => 'j'
    case Crazy => 'p'
    case Nop => 'o'
    case End => 'v'
  }

  /** `OpCodesToInstructions.TryGetValue`: `None` for a character that is not
      one of the eight mnemonics. */
  function InstructionOf(c: char): Option<Instruction>
  {
    match c
    case 'i' => Some(Jump)
    case '<' => Some(Out)
    case '/' => Some(In)
    case '*' => Some(Rotate)
    case 'j' => Some(Move)
    case 'p' => Some(Crazy)
    case 'o' => Some(Nop)
    case 'v' => Some(End)
    case _ => None
  }

  predicate IsOpCode(c: char)
  {
    InstructionOf(c).Some?
  }

  /** The two opcode maps are inverse bijections between the eight
      instructions and the eight mnemonics. */
  lemma OpCodeMapsInverse(instruction: Instruction, c: char)
    ensures InstructionOf(OpCode(instruction)) == Some(instruction)
    ensures InstructionOf(c) == Some(instruction) <==> OpCode(instruction) == c
  {
  }

  /** `DeNormalizedOpCodes`: the position of the instruction's mnemonic in
      the decode table (`IndexOf`; `TableIndexHoldsOpCode` and
      `TableIndexIsFirst` show it is the first occurrence). */
  function TableIndex(instruction: Instruction): (idx: nat)
    ensures 6 <= idx < TableSize
  {
    match instruction
    case Jump => 65
    case Out => 66
    case In => 84
    case Rotate => 6
    case Move => 7
    case Crazy => 29
    case Nop => 35
    case End => 48
  }

  /** The decode table holds the instruction's mnemonic at `TableIndex`. */
  lemma TableIndexHoldsOpCode(instruction: Instruction)
    ensures NormalizationTable[TableIndex(instruction)] == OpCode(instruction)
  {
  }

  /** No earlier entry of the decode table holds the mnemonic, so `TableIndex`
      is what `IndexOf` returns. */
  lemma TableIndexIsFirst(instruction: Instruction)
    ensures forall j :: 0 <= j < TableIndex(instruction) ==> NormalizationTable[j] != OpCode(instruction)
  {
    match instruction
    case Jump => NoEarlierJump();
    case Out => NoEarlierOut();
    case In => NoEarlierIn();
    case Rotate => NoEarlierRotate();
    case Move => NoEarlierMove();
    case Crazy => NoEarlierCrazy();
    case Nop => NoEarlierNop();
    case End => NoEarlierEnd();
  }

  // One lemma per mnemonic keeps each table scan a separate, small proof.
  lemma NoEarlierJump() ensures forall j :: 0 <= j < 65 ==> NormalizationTable[j] != 'i' {}
  lemma NoEarlierOut() ensures forall j :: 0 <= j < 66 ==> NormalizationTable[j] != '<' {}
  lemma NoEarlierIn() ensures forall j :: 0 <= j < 84 ==> NormalizationTable[j] != '/' {}
  lemma NoEarlierRotate() ensures forall j :: 0 <= j < 6 ==> NormalizationTable[j] != '*' {}
  lemma NoEarlierMove() ensures forall j :: 0 <= j < 7 ==> NormalizationTable[j] != 'j' {}
  lemma NoEarlierCrazy() ensures forall j :: 0 <= j < 29 ==> NormalizationTable[j] != 'p' {}
  lemma NoEarlierNop() ensures forall j :: 0 <= j < 35 ==> NormalizationTable[j] != 'o' {}
  lemma NoEarlierEnd() ensures forall j :: 0 <= j < 48 ==> NormalizationTable[j] != 'v' {}

  /** `TryGetInstruction`: the instruction a character `value` denotes at
      position `index`, if the table entry it selects is a mnemonic. The C#
      code indexes out of range when `value + index < 33`. */
  function TryGetInstruction(value: int, index: int): (r: Option<Instruction>)
    requires value + index - 33 >= 0
    ensures var entry := NormalizationTable[(value + index - 33) % TableSize];
      && (r.Some? <==> IsOpCode(entry))
      && (r.Some? ==> OpCode(r.value) == entry)
  {
    InstructionOf(NormalizationTable[(value + index - 33) % TableSize])
  }

  /** The decode at a position whose table entry is the mnemonic of
      `instruction` yields that instruction. */
  lemma DecodeAtTableIndex(instruction: Instruction, value: int, index: int)
    requires value + index - 33 >= 0 && (value + index - 33) % TableSize == TableIndex(instruction)
    ensures TryGetInstruction(value, index) == Some(instruction)
  {
    TableIndexHoldsOpCode(instruction);
    OpCodeMapsInverse(instruction, OpCode(instruction));
  }

  /** The replacement of an executed cell holding `v`; it is again printable. */
  function Encrypted(v: int): (c: char)
    requires 33 <= v <= 126
    ensures 33 <= c as int <= 126
  {
    EncryptionTableIsPrintable();
    EncryptionTable[v - 33]
  }

  /** Every character of `s` is printable ASCII, 33..126. */
  predicate Printable(s: string)
  {
    forall j :: 0 <= j < |s| ==> 33 <= s[j] as int <= 126
  }

  lemma PrintableAppend(a: string, b: string)
    requires Printable(a) && Printable(b)
    ensures Printable(a + b)
  {
    forall j | 0 <= j < |a + b|
      ensures 33 <= (a + b)[j] as int <= 126
    {
      if j >= |a| {
        assert (a + b)[j] == b[j - |a|];
      }
    }
  }

  // One lemma per part keeps each scan of literal characters small.
  lemma Part1Printable() ensures Printable(EncryptionPart1) {}
  lemma Part2Printable() ensures Printable(EncryptionPart2) {}
  lemma Part3Printable() ensures Printable(EncryptionPart3) {}
  lemma Part4Printable() ensures Printable(EncryptionPart4) {}
  lemma Part5Printable() ensures Printable(EncryptionPart5) {}

  lemma EncryptionTableIsPrintable()
    ensures |EncryptionTable| == TableSize
    ensures forall j :: 0 <= j < TableSize ==> 33 <= EncryptionTable[j] as int <= 126
  {
    Part1Printable();
    Part2Printable();
    Part3Printable();
    Part4Printable();
    Part5Printable();
    PrintableAppend(EncryptionPart1, EncryptionPart2);
    PrintableAppend(EncryptionPart1 + EncryptionPart2, EncryptionPart3);
    PrintableAppend(EncryptionPart1 + EncryptionPart2 + EncryptionPart3, EncryptionPart4);
    PrintableAppend(EncryptionPart1 + EncryptionPart2 + EncryptionPart3 + EncryptionPart4, EncryptionPart5);
  }

}
