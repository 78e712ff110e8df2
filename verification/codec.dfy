/** The two static codecs between the mnemonic form of a program (one opcode
    character per instruction) and its raw form, where the character that
    denotes an instruction depends on its address. */
module Codec {

  import opened CSharp
  import opened Wrappers
  import opened OpCodes

  // ----------------------------------------------------------- DeNormalize

  /** The character `DeNormalize` writes for `instruction` met at position
      `i` of its input: the decode-table index minus the position, as a C#
      remainder, plus 33, cast to `char`. Past the index the C# remainder
      counts down from 0 to -93 and then starts again at 0, every 94
      positions: within each such period the character is printable at the
      start, below 33 for the next 33 positions, and wrapped into the top of
      the 16-bit range for the remaining 60. */
  function EncodedAt(instruction: Instruction, i: nat): (c: char)
    ensures i <= TableIndex(instruction) ==> 33 <= c as int <= 126
    ensures i <= TableIndex(instruction) + 33 ==> c as int == TableIndex(instruction) - i + 33
    ensures TableIndex(instruction) + 33 < i < TableIndex(instruction) + TableSize ==>
      c as int == TableIndex(instruction) - i + 33 + 0x1_0000
    ensures i >= TableIndex(instruction) ==>
      c as int == (33 - (i - TableIndex(instruction)) % TableSize) % 0x1_0000
    ensures i >= TableIndex(instruction) ==>
      (33 <= c as int <= 126 <==> (i - TableIndex(instruction)) % TableSize == 0)
  {
    var v := TruncMod(TableIndex(instruction) - i, TableSize) + 33;
    assert -61 < v <= 117;
    assert v < 0 ==> v % 0x1_0000 == v + 0x1_0000;
    ToChar16(v)
  }

  /** From the table index on, the character written repeats every 94
      positions, so it is printable again at the index plus any multiple of
      94. */
  lemma EncodedAtRepeats(instruction: Instruction, i: nat)
    requires i >= TableIndex(instruction) + TableSize
    ensures EncodedAt(instruction, i) == EncodedAt(instruction, i - TableSize)
  {
  }

  /** A witness of the repetition: `Rotate` at position 100, 94 past its
      table index 6, is written as '!' again, and '!' at address 100 decodes
      back to `Rotate`. */
  lemma RotateAt100()
    ensures EncodedAt(Rotate, 100) == '!'
    ensures TryGetInstruction('!' as int, 100) == Some(Rotate)
  {
    DecodeAtTableIndex(Rotate, '!' as int, 100);
  }

  /** What `DeNormalize` appends for the character at position `i`: the
      encoded instruction, or nothing for a character that is no opcode. */
  function DeNormalizedPiece(opCode: char, i: nat): string
  {
    match InstructionOf(opCode)
    case Some(instruction) => [EncodedAt(instruction, i)]
    case None => []
  }

  /** `DeNormalize`: mnemonic form to raw form, one loop step per input
      character. The position used is the input index, so a dropped
      non-opcode character still shifts the encoding of later ones. */
  function DeNormalize(opCodes: string): (raw: string)
    ensures |raw| <= |opCodes|
  {
    if opCodes == [] then []
    else DeNormalize(opCodes[..|opCodes| - 1]) + DeNormalizedPiece(opCodes[|opCodes| - 1], |opCodes| - 1)
  }

  predicate OpCodesOnly(s: string)
  {
    forall j :: 0 <= j < |s| ==> IsOpCode(s[j])
  }

  lemma OpCodesOnlyPrefix(m: string, k: nat)
    requires OpCodesOnly(m) && k <= |m|
    ensures OpCodesOnly(m[..k])
  {
    assert forall j :: 0 <= j < k ==> m[..k][j] == m[j];
  }

  /** On a string of opcodes only, `DeNormalize` keeps the length and writes
      each instruction encoded at its own position. */
  lemma {:induction false} DeNormalizeOpCodes(m: string)
    requires OpCodesOnly(m)
    ensures |DeNormalize(m)| == |m|
    ensures forall j :: 0 <= j < |m| ==> DeNormalize(m)[j] == EncodedAt(InstructionOf(m[j]).value, j)
  {
    if m != [] {
      var n := |m| - 1;
      var init := m[..n];
      OpCodesOnlyPrefix(m, n);
      DeNormalizeOpCodes(init);
      var last := [EncodedAt(InstructionOf(m[n]).value, n)];
      assert DeNormalize(m) == DeNormalize(init) + last by {
        assert IsOpCode(m[n]);
      }
      forall j | 0 <= j < |m|
        ensures DeNormalize(m)[j] == EncodedAt(InstructionOf(m[j]).value, j)
      {
        if j < n {
          assert init[j] == m[j];
          assert DeNormalize(m)[j] == DeNormalize(init)[j];
        } else {
          assert DeNormalize(m)[j] == last[0];
        }
      }
    }
  }

  /** Appending a mnemonic-form character appends its encoding, if any. */
  lemma DeNormalizeAppend(m: string, x: char)
    ensures DeNormalize(m + [x]) == DeNormalize(m) + DeNormalizedPiece(x, |m|)
  {
    assert (m + [x])[..|m|] == m;
  }

  /** The number of opcode characters in `s`. */
  function OpCodeCount(s: string): (n: nat)
    ensures n <= |s|
  {
    if s == [] then 0
    else OpCodeCount(s[..|s| - 1]) + (if IsOpCode(s[|s| - 1]) then 1 else 0)
  }

  /** On any input, `DeNormalize` writes one character per opcode and nothing
      for the other characters: the opcode at position `j` is the
      `OpCodeCount(m[..j])`-th character of the result, encoded at `j`. */
  lemma {:induction false} DeNormalizeMixed(m: string)
    ensures |DeNormalize(m)| == OpCodeCount(m)
    ensures forall j :: 0 <= j < |m| && IsOpCode(m[j]) ==>
      OpCodeCount(m[..j]) < |DeNormalize(m)| && DeNormalize(m)[OpCodeCount(m[..j])] == EncodedAt(InstructionOf(m[j]).value, j)
  {
    if m != [] {
      var n := |m| - 1;
      var init := m[..n];
      DeNormalizeMixed(init);
      var piece := DeNormalizedPiece(m[n], n);
      assert DeNormalize(m) == DeNormalize(init) + piece;
      forall j | 0 <= j < |m| && IsOpCode(m[j])
        ensures OpCodeCount(m[..j]) < |DeNormalize(m)|
        ensures DeNormalize(m)[OpCodeCount(m[..j])] == EncodedAt(InstructionOf(m[j]).value, j)
      {
        if j < n {
          assert m[..j] == init[..j] && m[j] == init[j];
        } else {
          assert m[..j] == init;
        }
      }
    }
  }

  /** The encoding depends on the input position, so dropping a non-opcode
      character changes what follows it. */
  lemma DroppedCharacterShifts()
    ensures DeNormalize("xo") == "C"
    ensures DeNormalize("o") == "D"
  {
    assert "xo"[..1] == "x";
    assert "x"[..0] == [];
    assert "o"[..0] == [];
  }

  // ------------------------------------------------------------- Normalize

  /** A raw string `Normalize` can decode: the C# code indexes the table out
      of range at a position `j` where `raw[j] + j < 33`. */
  predicate Decodable(raw: string)
  {
    forall j :: 0 <= j < |raw| ==> raw[j] as int + j >= 33
  }

  /** `TryGetInstruction` at every position of a decodable raw string. */
  function Decodings(raw: string): (d: seq<Option<Instruction>>)
    requires Decodable(raw)
    ensures |d| == |raw|
  {
    seq(|raw|, j requires 0 <= j < |raw| && raw[j] as int + j >= 33 => TryGetInstruction(raw[j] as int, j))
  }

  /** The mnemonics of the decoded instructions, in order; a position that
      decodes to nothing contributes nothing. */
  function Mnemonics(d: seq<Option<Instruction>>): (opCodes: string)
    ensures |opCodes| <= |d|
    ensures OpCodesOnly(opCodes)
  {
    if d == [] then []
    else
      Mnemonics(d[..|d| - 1]) + match d[|d| - 1] case Some(instruction) => [OpCode(instruction)] case None => []
  }

  /** `Normalize`: raw form to mnemonic form, one loop step per raw
      character, keeping the mnemonic of each character that decodes. */
  function Normalize(raw: string): (opCodes: string)
    requires Decodable(raw)
    ensures OpCodesOnly(opCodes) && |opCodes| <= |raw|
  {
    Mnemonics(Decodings(raw))
  }

  /** When every position decodes, `Mnemonics` keeps the length and writes
      each instruction's mnemonic at its own position. */
  lemma {:induction false} MnemonicsAllDecoded(d: seq<Option<Instruction>>)
    requires forall j :: 0 <= j < |d| ==> d[j].Some?
    ensures |Mnemonics(d)| == |d|
    ensures forall j :: 0 <= j < |d| ==> Mnemonics(d)[j] == OpCode(d[j].value)
  {
    if d != [] {
      var n := |d| - 1;
      assert forall j :: 0 <= j < n ==> d[..n][j] == d[j];
      MnemonicsAllDecoded(d[..n]);
      assert Mnemonics(d) == Mnemonics(d[..n]) + [OpCode(d[n].value)];
    }
  }

  /** The number of positions that decode to an instruction. */
  function DecodedCount(d: seq<Option<Instruction>>): (n: nat)
    ensures n <= |d|
  {
    if d == [] then 0
    else DecodedCount(d[..|d| - 1]) + (if d[|d| - 1].Some? then 1 else 0)
  }

  /** On any decodings, `Mnemonics` writes one mnemonic per decoded position
      and nothing for the others: the instruction at position `j` gives the
      `DecodedCount(d[..j])`-th character of the result. */
  lemma {:induction false} MnemonicsMixed(d: seq<Option<Instruction>>)
    ensures |Mnemonics(d)| == DecodedCount(d)
    ensures forall j :: 0 <= j < |d| && d[j].Some? ==>
      DecodedCount(d[..j]) < |Mnemonics(d)| && Mnemonics(d)[DecodedCount(d[..j])] == OpCode(d[j].value)
  {
    if d != [] {
      var n := |d| - 1;
      var init := d[..n];
      MnemonicsMixed(init);
      forall j | 0 <= j < |d| && d[j].Some?
        ensures DecodedCount(d[..j]) < |Mnemonics(d)|
        ensures Mnemonics(d)[DecodedCount(d[..j])] == OpCode(d[j].value)
      {
        if j < n {
          assert d[..j] == init[..j] && d[j] == init[j];
        } else {
          assert d[..j] == init;
        }
      }
    }
  }

  /** On any decodable raw string, `Normalize` writes one mnemonic per
      position that decodes, in order, and drops the positions that do not:
      the instruction decoded at position `j` gives the
      `DecodedCount(Decodings(raw)[..j])`-th character of the result. */
  lemma NormalizeMixed(raw: string)
    requires Decodable(raw)
    ensures var d := Decodings(raw);
      && |Normalize(raw)| == DecodedCount(d)
      && forall j :: 0 <= j < |raw| && TryGetInstruction(raw[j] as int, j).Some? ==>
           DecodedCount(d[..j]) < |Normalize(raw)|
           && Normalize(raw)[DecodedCount(d[..j])] == OpCode(TryGetInstruction(raw[j] as int, j).value)
  {
    MnemonicsMixed(Decodings(raw));
  }

  /** Decoded instructions that are exactly those of an opcode string give
      that string back. */
  lemma MnemonicsOfDecoded(d: seq<Option<Instruction>>, m: string)
    requires |d| == |m| && OpCodesOnly(m)
    requires forall j :: 0 <= j < |d| ==> d[j] == InstructionOf(m[j])
    ensures Mnemonics(d) == m
  {
    MnemonicsAllDecoded(d);
    forall j | 0 <= j < |m|
      ensures Mnemonics(d)[j] == m[j]
    {
      OpCodeMapsInverse(d[j].value, m[j]);
    }
  }

  // ------------------------------------------------------------ round trip

  /** An instruction encoded at position `i` decodes back to itself there,
      as long as the encoding has not wrapped through the `char` cast. */
  lemma DecodeEncoded(instruction: Instruction, i: nat)
    requires i <= TableIndex(instruction) + 33
    ensures EncodedAt(instruction, i) as int + i >= 33
    ensures TryGetInstruction(EncodedAt(instruction, i) as int, i) == Some(instruction)
  {
    DecodeAtTableIndex(instruction, EncodedAt(instruction, i) as int, i);
  }

  /** Every character `DeNormalize` writes for an opcode string of at most
      40 instructions decodes, at its position, to the instruction it came
      from. */
  lemma EncodingDecodes(m: string)
    requires OpCodesOnly(m) && |m| <= 40
    ensures var raw := DeNormalize(m);
      && |raw| == |m| && Decodable(raw)
      && forall j :: 0 <= j < |raw| ==> Decodings(raw)[j] == InstructionOf(m[j])
  {
    var raw := DeNormalize(m);
    DeNormalizeOpCodes(m);
    forall j | 0 <= j < |m|
      ensures raw[j] as int + j >= 33
    {
      DecodeEncoded(InstructionOf(m[j]).value, j);
    }
    forall j | 0 <= j < |m|
      ensures Decodings(raw)[j] == InstructionOf(m[j])
    {
      DecodeEncoded(InstructionOf(m[j]).value, j);
    }
  }

  /** `Normalize` undoes `DeNormalize` on every opcode string of at most 40
      instructions (the smallest table index is 6, so no encoding wraps
      before position 40). */
  lemma RoundTrip(m: string)
    requires OpCodesOnly(m) && |m| <= 40
    ensures |DeNormalize(m)| == |m| && Decodable(DeNormalize(m))
    ensures Normalize(DeNormalize(m)) == m
  {
    EncodingDecodes(m);
    MnemonicsOfDecoded(Decodings(DeNormalize(m)), m);
  }

  /** Appending a raw character appends what it decodes to, if anything. */
  lemma NormalizeAppend(raw: string, c: char)
    requires Decodable(raw) && c as int + |raw| >= 33
    ensures Decodable(raw + [c])
    ensures Decodings(raw + [c]) == Decodings(raw) + [TryGetInstruction(c as int, |raw|)]
    ensures Normalize(raw + [c]) == Normalize(raw) + Mnemonics([TryGetInstruction(c as int, |raw|)])
  {
    var r := raw + [c];
    assert forall j :: 0 <= j < |raw| ==> r[j] == raw[j];
    var d := Decodings(r);
    assert d[..|raw|] == Decodings(raw);
    assert d == d[..|raw|] + [d[|raw|]];
    assert Mnemonics([d[|raw|]]) == Mnemonics([d[|raw|]][..0]) + Mnemonics([d[|raw|]]);
  }

  /** Appending a raw character that decodes to nothing leaves the mnemonic
      form unchanged. */
  lemma NormalizeDropsAppended(raw: string, c: char)
    requires Decodable(raw) && c as int + |raw| >= 33
    requires TryGetInstruction(c as int, |raw|) == None
    ensures Decodable(raw + [c]) && Normalize(raw + [c]) == Normalize(raw)
  {
    NormalizeAppend(raw, c);
    assert Mnemonics([None]) == [];
  }

  /** The 41st `Rotate` wraps: position 40 is 34 past its table index, so
      the C# remainder is -1 and the cast gives 65535, which selects entry
      24 of the decode table, `>`. */
  lemma RotateWrapsAt40()
    ensures EncodedAt(Rotate, 40) as int == 65535
    ensures TryGetInstruction(65535, 40) == None
  {
    assert (65535 + 40 - 33) % TableSize == 24;
    assert NormalizationTable[24] == '>';
  }

  lemma RotatePiece(i: nat)
    ensures DeNormalizedPiece(OpCode(Rotate), i) == [EncodedAt(Rotate, i)]
  {
    OpCodeMapsInverse(Rotate, OpCode(Rotate));
  }

  /** Forty opcodes followed by a `Rotate` normalize back to the forty
      alone: the `Rotate`'s wrapped encoding decodes to nothing. */
  lemma WrappedRotateDropped(init: string)
    requires OpCodesOnly(init) && |init| == 40
    ensures Decodable(DeNormalize(init + ['*']))
    ensures Normalize(DeNormalize(init + ['*'])) == init
  {
    var raw, c := DeNormalize(init), EncodedAt(Rotate, 40);
    RoundTrip(init);
    RotateWrapsAt40();
    DeNormalizeAppend(init, '*');
    RotatePiece(40);
    assert DeNormalize(init + ['*']) == raw + [c];
    NormalizeDropsAppended(raw, c);
  }

  /** Past 40 instructions the round trip breaks: a `Rotate` at position 40
      is encoded as the code unit 65535, which decodes to `>` (no mnemonic)
      and is dropped, so 41 opcodes come back as their first 40. */
  lemma RoundTripBreaksAt41(m: string)
    requires OpCodesOnly(m) && |m| == 41 && m[40] == '*'
    ensures Decodable(DeNormalize(m))
    ensures Normalize(DeNormalize(m)) == m[..40] != m
  {
    var init := m[..40];
    OpCodesOnlyPrefix(m, 40);
    assert m == init + ['*'];
    WrappedRotateDropped(init);
  }

  /** On a raw string whose every character decodes, `DeNormalize` gives it
      back from its mnemonics exactly when each character is the canonical
      encoding of its instruction at its position. */
  lemma NormalizeThenDeNormalize(raw: string)
    requires Decodable(raw)
    requires forall j :: 0 <= j < |raw| ==> Decodings(raw)[j].Some?
    ensures DeNormalize(Normalize(raw)) == raw <==>
      forall j :: 0 <= j < |raw| ==> raw[j] == EncodedAt(Decodings(raw)[j].value, j)
  {
    var d := Decodings(raw);
    var m := Normalize(raw);
    MnemonicsAllDecoded(d);
    DeNormalizeOpCodes(m);
    forall j | 0 <= j < |raw|
      ensures DeNormalize(m)[j] == EncodedAt(d[j].value, j)
    {
      OpCodeMapsInverse(d[j].value, m[j]);
    }
  }

}
