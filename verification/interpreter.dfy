/** The interpreter: a 3^10-cell tape, the registers A (accumulator), C (code
    pointer) and D (data pointer), the terminated flag, and the state of the
    two injected collaborators (the text written to the output sink so far,
    and how many values the input source has produced). */
module Interpreter {

  import opened CSharp
  import opened Wrappers
  import opened Ternary
  import opened OpCodes

  datatype Machine = Machine(
    tape: seq<uint16>,
    a: uint16,
    c: uint16,
    d: uint16,
    terminated: bool,
    output: string,
    inputsRead: nat)

  /** Between steps the tape has its full size and C, D address a cell. */
  predicate Wf(m: Machine)
  {
    |m.tape| == WordSize && m.c < WordSize && m.d < WordSize
  }

  /** In addition, every cell holds a ten-trit word. */
  predicate Valid(m: Machine)
  {
    Wf(m) && forall i :: 0 <= i < |m.tape| ==> m.tape[i] < WordSize
  }

  // ------------------------------------------------------------- decoding

  /** `CurrentOperation`: the instruction the cell at C denotes at address C,
      the one whose mnemonic sits at table entry `(Tape[C] - 33 + C) % 94`; an
      entry that is no mnemonic acts as `Nop`. The C# code indexes the table
      out of range when `Tape[C] - 33 + C` is negative. */
  function CurrentOperation(m: Machine): (op: Instruction)
    requires Wf(m) && m.tape[m.c] - 33 + m.c >= 0
    ensures var entry := NormalizationTable[(m.tape[m.c] - 33 + m.c) % TableSize];
      && (IsOpCode(entry) ==> OpCode(op) == entry)
      && (!IsOpCode(entry) ==> op == Nop)
  {
    match TryGetInstruction(m.tape[m.c], m.c)
    case Some(instruction) => instruction
    case None => Nop
  }

  /** The C# code does not throw on this step: the decode index is not
      negative, and a `Jump` does not send C past the tape (where `Encrypt`
      would index `Tape[C]` out of range). */
  predicate CanStep(m: Machine)
  {
    Wf(m) &&
    (m.terminated || (m.tape[m.c] - 33 + m.c >= 0 && CanExecute(m, CurrentOperation(m))))
  }

  // ---------------------------------------------------- instruction bodies

  /** The eight instruction bodies and what each changes. `input(k)` is the
      value the input source produces on its k-th call. */
  function Execute(m: Machine, op: Instruction, input: nat -> int): (e: Machine)
    requires Wf(m)
    ensures e.c == (if op == Jump then m.tape[m.d] else m.c)
    ensures e.d == (if op == Move then m.tape[m.d] else m.d)
    ensures e.output == m.output + (if op == Out then [(m.a % 256) as char] else [])
    ensures e.inputsRead == m.inputsRead + (if op == In then 1 else 0)
    ensures e.terminated == (m.terminated || op == End)
    ensures op == Rotate ==> e.tape == m.tape[m.d := Ternary.Rotate(m.tape[m.d])] && e.a == e.tape[m.d]
    ensures op == Crazy ==> e.tape == m.tape[m.d := Ternary.Crazy(m.a, m.tape[m.d])] && e.a == e.tape[m.d]
    ensures op == In ==> e.tape == m.tape && e.a == ToUInt16(input(m.inputsRead))
    ensures !WritesTape(op) && op != In ==> e.tape == m.tape && e.a == m.a
  {
    match op
    case Jump => m.(c := m.tape[m.d])
    case Out => m.(output := m.output + [(m.a % 256) as char])
    case In => m.(a := ToUInt16(input(m.inputsRead)), inputsRead := m.inputsRead + 1)
    case Rotate =>
      var v := Ternary.Rotate(m.tape[m.d]);
      m.(tape := m.tape[m.d := v], a := v)
    case Move => m.(d := m.tape[m.d])
    case Crazy =>
      var v := Ternary.Crazy(m.a, m.tape[m.d]);
      m.(tape := m.tape[m.d := v], a := v)
    case Nop => m
    case End => m.(terminated := true)
  }

  /** `Encrypt`: the cell at C, as the instruction left it, is replaced
      through the encryption table, or the machine stops when it is not a
      printable character; nothing else changes. */
  function Encrypt(m: Machine): (x: Machine)
    requires |m.tape| == WordSize && m.c < WordSize
    ensures |x.tape| == WordSize
    ensures x == m.(tape := x.tape, terminated := x.terminated)
    ensures x.terminated == (m.terminated || !(33 <= m.tape[m.c] <= 126))
    ensures x.tape == (if 33 <= m.tape[m.c] <= 126 then m.tape[m.c := Encrypted(m.tape[m.c]) as int] else m.tape)
  {
    var v := m.tape[m.c];
    if 33 <= v <= 126 then m.(tape := m.tape[m.c := Encrypted(v) as int])
    else m.(terminated := true)
  }

  function IncrementProgramAndDataCounters(m: Machine): (r: Machine)
    ensures r == m.(c := (m.c + 1) % WordSize, d := (m.d + 1) % WordSize)
  {
    m.(c := WrappedIncrement(m.c, 1), d := WrappedIncrement(m.d, 1))
  }

  /** An instruction the machine can carry out without the C# code throwing:
      a `Jump` must not send C past the tape. */
  predicate CanExecute(m: Machine, op: Instruction)
  {
    Wf(m) && (op == Jump ==> m.tape[m.d] < WordSize)
  }

  /** Execute, encrypt, then advance C and D (also on the step that
      terminates). */
  function Advance(m: Machine, op: Instruction, input: nat -> int): (r: Machine)
    requires CanExecute(m, op)
    ensures Wf(r)
  {
    IncrementProgramAndDataCounters(Encrypt(Execute(m, op, input)))
  }

  /** `StepOnce`: nothing on a terminated machine; otherwise decode the cell
      at C and advance with that instruction. */
  function StepOnce(m: Machine, input: nat -> int): (r: Machine)
    requires CanStep(m)
    ensures Wf(r)
    ensures m.terminated ==> r == m
    ensures !m.terminated ==> r == Advance(m, CurrentOperation(m), input)
  {
    if m.terminated then m
    else Advance(m, CurrentOperation(m), input)
  }

  // ------------------------------------------------- step, field by field

  /** The cell `Encrypt` acts on: the jump target after a `Jump`, else C. */
  function ExecutedCell(m: Machine, op: Instruction): uint16
    requires CanExecute(m, op)
  {
    if op == Jump then m.tape[m.d] else m.c
  }

  /** The word `Rotate` and `Crazy` store into the cell at D and into A. */
  function StoredWord(m: Machine, op: Instruction): uint16
    requires Wf(m)
  {
    if op == Rotate then Ternary.Rotate(m.tape[m.d]) else Ternary.Crazy(m.a, m.tape[m.d])
  }

  predicate WritesTape(op: Instruction)
  {
    op == Rotate || op == Crazy
  }

  /** The executed cell's value after the instruction, before `Encrypt`. */
  function ExecutedValue(m: Machine, op: Instruction): uint16
    requires CanExecute(m, op)
  {
    if WritesTape(op) && ExecutedCell(m, op) == m.d then StoredWord(m, op)
    else m.tape[ExecutedCell(m, op)]
  }

  /** The pointers after one step: C and D advance by one (modulo 3^10)
      from the jump/move target or from their old value, even on the step
      that terminates. */
  lemma StepPointers(m: Machine, op: Instruction, input: nat -> int)
    requires CanExecute(m, op)
    ensures var r := Advance(m, op, input);
      && r.c == ((if op == Jump then m.tape[m.d] else m.c) + 1) % WordSize
      && r.d == ((if op == Move then m.tape[m.d] else m.d) + 1) % WordSize
  {
  }

  /** The accumulator and the collaborators after one step: `Out` appends
      `A % 256` to the output, `In` stores the next input truncated to 16
      bits, `Rotate` and `Crazy` set A to the stored word. */
  lemma StepRegisters(m: Machine, op: Instruction, input: nat -> int)
    requires CanExecute(m, op)
    ensures var r := Advance(m, op, input);
      && r.output == m.output + (if op == Out then [(m.a % 256) as char] else [])
      && r.a == (if op == In then ToUInt16(input(m.inputsRead))
                 else if WritesTape(op) then StoredWord(m, op)
                 else m.a)
      && r.inputsRead == m.inputsRead + (if op == In then 1 else 0)
  {
  }

  /** The tape after one step: the executed cell is encrypted (when it is
      printable), a `Rotate`/`Crazy` stores its word at D, and no other cell
      changes. */
  lemma StepTape(m: Machine, op: Instruction, input: nat -> int)
    requires CanExecute(m, op)
    ensures var r, p, v := Advance(m, op, input), ExecutedCell(m, op), ExecutedValue(m, op);
      && (33 <= v <= 126 ==> r.tape[p] == Encrypted(v) as int)
      && (!(33 <= v <= 126) ==> r.tape[p] == v)
      && (WritesTape(op) && p != m.d ==> r.tape[m.d] == StoredWord(m, op))
      && (!WritesTape(op) && p != m.d ==> r.tape[m.d] == m.tape[m.d])
      && (forall k :: 0 <= k < WordSize && k != p && k != m.d ==> r.tape[k] == m.tape[k])
  {
    var e := Execute(m, op, input);
    assert e.c == ExecutedCell(m, op) && e.tape[e.c] == ExecutedValue(m, op);
  }

  /** A step terminates the machine exactly when it executes `End` or leaves
      a non-printable value in the executed cell (the fatal "invalid
      program" stop). */
  lemma StepTermination(m: Machine, op: Instruction, input: nat -> int)
    requires CanExecute(m, op)
    ensures Advance(m, op, input).terminated
        <==> m.terminated || op == End || !(33 <= ExecutedValue(m, op) <= 126)
  {
    var e := Execute(m, op, input);
    assert e.c == ExecutedCell(m, op) && e.tape[e.c] == ExecutedValue(m, op);
  }

  /** A terminated machine never changes again. */
  lemma TerminatedIsFinal(m: Machine, input: nat -> int)
    requires Wf(m) && m.terminated
    ensures CanStep(m) && StepOnce(m, input) == m
  {
  }

  /** One step keeps the output written so far and adds at most one
      character. */
  lemma StepExtendsOutput(m: Machine, input: nat -> int)
    requires CanStep(m)
    ensures var r := StepOnce(m, input);
      |m.output| <= |r.output| <= |m.output| + 1 && m.output <= r.output
  {
    if !m.terminated {
      StepRegisters(m, CurrentOperation(m), input);
    }
  }

  /** One step keeps every cell and both pointers below 3^10. */
  lemma StepPreservesValid(m: Machine, input: nat -> int)
    requires Valid(m) && (m.terminated || m.tape[m.c] - 33 + m.c >= 0)
    ensures CanStep(m)
    ensures Valid(StepOnce(m, input))
  {
    if !m.terminated {
      var op := CurrentOperation(m);
      StepTape(m, op, input);
      var r := StepOnce(m, input);
      forall k | 0 <= k < WordSize
        ensures r.tape[k] < WordSize
      {
        if WritesTape(op) {
          Pow3Constants();
          assert StoredWord(m, op) < WordSize;
        }
      }
    }
  }

  // ------------------------------------------------------------------- run

  /** One step as the C# code takes it, or `None` where it would throw. */
  function TryStep(m: Machine, input: nat -> int): (r: Option<Machine>)
  {
    if CanStep(m) then Some(StepOnce(m, input)) else None
  }

  function StepFunction(input: nat -> int): Machine -> Option<Machine>
  {
    m => TryStep(m, input)
  }

  datatype RunResult = Halted(m: Machine) | OutOfFuel(m: Machine) | Crashed(m: Machine)

  /** `while (!terminated) step` with a step budget, for any step function:
      `Crashed` is where the step is not defined. */
  function Iterate(m: Machine, step: Machine -> Option<Machine>, fuel: nat): (r: RunResult)
    ensures r.Halted? <==> r.m.terminated
    ensures r.Crashed? ==> step(r.m).None?
    ensures fuel == 0 ==> r.Halted? || r == OutOfFuel(m)
    decreases fuel
  {
    if m.terminated then Halted(m)
    else if fuel == 0 then OutOfFuel(m)
    else match step(m)
      case None => Crashed(m)
      case Some(next) => Iterate(next, step, fuel - 1)
  }

  /** Extra fuel does not change an iteration that has already halted. */
  lemma {:induction false} IterateFuelMonotone(m: Machine, step: Machine -> Option<Machine>, fuel: nat, more: nat)
    requires Iterate(m, step, fuel).Halted?
    ensures Iterate(m, step, fuel + more) == Iterate(m, step, fuel)
    decreases fuel
  {
    if !m.terminated {
      IterateFuelMonotone(step(m).value, step, fuel - 1, more);
    }
  }

  /** One step as the iteration sees it, with what it keeps. */
  lemma StepFacts(m: Machine, input: nat -> int) returns (next: Machine)
    requires CanStep(m)
    ensures StepFunction(input)(m) == Some(next)
    ensures Wf(next) && m.output <= next.output
    ensures Valid(m) ==> Valid(next)
  {
    next := StepOnce(m, input);
    StepExtendsOutput(m, input);
    if Valid(m) {
      StepPreservesValid(m, input);
    }
  }

  /** What a run from `m` that ended in `r` keeps: well-formedness,
      validity (unless it crashed), the output written so far; it halted
      exactly on a terminated machine and crashed only where `StepOnce`
      would throw. */
  ghost predicate RunKept(m: Machine, r: RunResult)
  {
    && Wf(r.m)
    && (r.Halted? <==> r.m.terminated)
    && (r.Crashed? ==> !CanStep(r.m))
    && m.output <= r.m.output
    && (Valid(m) && !r.Crashed? ==> Valid(r.m))
  }

  /** A step function that is defined exactly where the interpreter does not
      throw, and whose steps keep well-formedness, validity and the output. */
  ghost predicate KeepsStep(step: Machine -> Option<Machine>)
  {
    forall m :: Wf(m) && !m.terminated ==>
      && (step(m).Some? <==> CanStep(m))
      && (step(m).Some? ==>
            Wf(step(m).value) && m.output <= step(m).value.output && (Valid(m) ==> Valid(step(m).value)))
  }

  /** The interpreter's step function is such a step function. */
  lemma StepKeeps(input: nat -> int)
    ensures KeepsStep(StepFunction(input))
  {
    forall m | Wf(m) && !m.terminated && CanStep(m)
      ensures StepFunction(input)(m) == Some(StepOnce(m, input))
      ensures Wf(StepOnce(m, input)) && m.output <= StepOnce(m, input).output
      ensures Valid(m) ==> Valid(StepOnce(m, input))
    {
      var next := StepFacts(m, input);
    }
  }

  /** An iteration of such a step function keeps what `RunKept` says. */
  lemma {:induction false} IterateKeeps(m: Machine, step: Machine -> Option<Machine>, fuel: nat)
    requires Wf(m) && KeepsStep(step)
    ensures RunKept(m, Iterate(m, step, fuel))
    decreases fuel
  {
    if !m.terminated && fuel > 0 && step(m).Some? {
      var next := step(m).value;
      IterateKeeps(next, step, fuel - 1);
    }
  }

  /** Every run of the interpreter keeps what `RunKept` says. */
  lemma RunFacts(m: Machine, input: nat -> int, fuel: nat)
    requires Wf(m)
    ensures RunKept(m, Iterate(m, StepFunction(input), fuel))
  {
    StepKeeps(input);
    IterateKeeps(m, StepFunction(input), fuel);
  }

  /** The interpreter's `Run` with a step budget. */
  function Run(m: Machine, input: nat -> int, fuel: nat): (r: RunResult)
    requires Wf(m)
    ensures Wf(r.m)
    ensures r.Halted? <==> r.m.terminated
    ensures r.Crashed? ==> !CanStep(r.m)
    ensures m.output <= r.m.output
    ensures Valid(m) && !r.Crashed? ==> Valid(r.m)
  {
    RunFacts(m, input, fuel);
    Iterate(m, StepFunction(input), fuel)
  }

  /** Extra fuel does not change a run that has already halted. */
  lemma RunFuelMonotone(m: Machine, input: nat -> int, fuel: nat, more: nat)
    requires Wf(m) && Run(m, input, fuel).Halted?
    ensures Run(m, input, fuel + more) == Run(m, input, fuel)
  {
    IterateFuelMonotone(m, StepFunction(input), fuel, more);
  }

  // ------------------------------------------------------------------ load

  /** `HardReset`: registers to zero, running again, tape cleared. The output
      sink and the input source are outside the interpreter and keep their
      state. Stepping the cleared machine would index the decode table at -33,
      so it must be loaded before it runs. */
  function HardReset(m: Machine): (r: Machine)
    ensures Valid(r) && !r.terminated && !CanStep(r)
    ensures r.a == r.c == r.d == 0
    ensures forall i :: 0 <= i < |r.tape| ==> r.tape[i] == 0
    ensures r.output == m.output && r.inputsRead == m.inputsRead
  {
    m.(tape := seq(WordSize, _ => 0), a := 0, c := 0, d := 0, terminated := false)
  }

  /** A C# program string, as the sequence of its UTF-16 code units (any
      16-bit value, surrogates included), that the loader accepts: it fits on
      the tape (the source does not check this and would index past the
      array). */
  predicate IsProgramText(program: seq<uint16>)
  {
    |program| <= WordSize
  }

  /** The first loop of `LoadProgram`: `Tape[i] = program[i]`. */
  function CopyProgram(tape: seq<uint16>, program: seq<uint16>): (r: seq<uint16>)
    requires IsProgramText(program) && |tape| == WordSize
    ensures |r| == WordSize
    ensures forall i :: 0 <= i < |program| ==> r[i] == program[i]
    ensures forall i :: |program| <= i < WordSize ==> r[i] == tape[i]
  {
    seq(WordSize, i requires 0 <= i < WordSize => if i < |program| then program[i] else tape[i])
  }

  /** The second loop of `LoadProgram`, from cell `i` on: each cell becomes
      the crazy operation of its two predecessors (wrapping below 0). */
  function Fill(tape: seq<uint16>, i: nat): (r: seq<uint16>)
    requires |tape| == WordSize && i <= WordSize
    ensures |r| == WordSize
    decreases WordSize - i
  {
    if i == WordSize then tape
    else
      var cell := Ternary.Crazy(tape[WrappedIncrement(i, -2)], tape[WrappedIncrement(i, -1)]);
      Fill(tape[i := cell], i + 1)
  }

  /** Cell `j` as the fill loop reads it while filling cell `i`: its final
      value when already written, otherwise still 0 from the clear. */
  function SeenWhileFilling(tape: seq<uint16>, i: nat, j: nat): uint16
    requires j < |tape|
  {
    if j < i then tape[j] else 0
  }

  function FillValue(tape: seq<uint16>, i: nat): uint16
    requires |tape| == WordSize && i < WordSize
  {
    Ternary.Crazy(SeenWhileFilling(tape, i, WrappedIncrement(i, -2)),
          SeenWhileFilling(tape, i, WrappedIncrement(i, -1)))
  }

  /** The tape `LoadProgram` produces, described cell by cell: the program
      verbatim, then every later cell the crazy operation of its two wrapped
      predecessors as the increasing fill sees them. */
  predicate IsLoadedTape(tape: seq<uint16>, program: seq<uint16>)
  {
    && |tape| == WordSize && |program| <= WordSize
    && (forall i :: 0 <= i < |program| ==> tape[i] == program[i])
    && (forall i :: |program| <= i < WordSize ==> tape[i] == FillValue(tape, i))
  }

  /** The fill from cell `i` on leaves the cells before `i` alone. */
  lemma {:induction false} FillKeepsPrefix(tape: seq<uint16>, i: nat)
    requires |tape| == WordSize && i <= WordSize
    ensures forall k :: 0 <= k < i ==> Fill(tape, i)[k] == tape[k]
    decreases WordSize - i
  {
    if i < WordSize {
      FillUnfold(tape, i);
      FillKeepsPrefix(tape[i := Ternary.Crazy(tape[WrappedIncrement(i, -2)], tape[WrappedIncrement(i, -1)])], i + 1);
    }
  }

  lemma FillUnfold(tape: seq<uint16>, i: nat)
    requires |tape| == WordSize && i < WordSize
    ensures Fill(tape, i) == Fill(tape[i := Ternary.Crazy(tape[WrappedIncrement(i, -2)], tape[WrappedIncrement(i, -1)])], i + 1)
  {
  }

  /** The fill from cell `i` on writes cell `i` from its two wrapped
      predecessors as they stand. */
  lemma FillWritesCell(tape: seq<uint16>, i: nat)
    requires |tape| == WordSize && i < WordSize
    ensures Fill(tape, i)[i] == Ternary.Crazy(tape[WrappedIncrement(i, -2)], tape[WrappedIncrement(i, -1)])
  {
    var next := tape[i := Ternary.Crazy(tape[WrappedIncrement(i, -2)], tape[WrappedIncrement(i, -1)])];
    FillUnfold(tape, i);
    FillKeepsPrefix(next, i + 1);
  }

  /** A cell other than `i` reads, while `i` is being filled, as it stands
      on the tape before the fill reaches it. */
  lemma SeenBeforeFilling(r: seq<uint16>, tape: seq<uint16>, i: nat, j: nat)
    requires |r| == WordSize && |tape| == WordSize && i < WordSize && j < WordSize && j != i
    requires forall k :: 0 <= k < i ==> r[k] == tape[k]
    requires forall k :: i <= k < WordSize ==> tape[k] == 0
    ensures SeenWhileFilling(r, i, j) == tape[j]
  {
  }

  /** The first cell the fill writes is the crazy operation of its
      predecessors as the loop sees them: earlier cells as they stand, later
      ones still 0. */
  lemma FillFirstCell(tape: seq<uint16>, i: nat)
    requires |tape| == WordSize && i < WordSize
    requires forall k :: i <= k < WordSize ==> tape[k] == 0
    ensures Fill(tape, i)[i] == FillValue(Fill(tape, i), i)
  {
    var p2, p1 := WrappedIncrement(i, -2), WrappedIncrement(i, -1);
    WrappedIncrementNeighbours(i);
    var r := Fill(tape, i);
    FillWritesCell(tape, i);
    FillKeepsPrefix(tape, i);
    SeenBeforeFilling(r, tape, i, p2);
    SeenBeforeFilling(r, tape, i, p1);
  }

  predicate FilledFrom(r: seq<uint16>, i: nat)
    requires |r| == WordSize
  {
    forall k :: i <= k < WordSize ==> r[k] == FillValue(r, k)
  }

  lemma FilledFromStep(r: seq<uint16>, i: nat)
    requires |r| == WordSize && i < WordSize
    requires r[i] == FillValue(r, i) && FilledFrom(r, i + 1)
    ensures FilledFrom(r, i)
  {
  }

  /** On a tape cleared from `i` on, every filled cell is the crazy operation
      of its predecessors as the fill loop sees them. */
  lemma {:induction false} FillSpec(tape: seq<uint16>, i: nat)
    requires |tape| == WordSize && i <= WordSize
    requires forall k :: i <= k < WordSize ==> tape[k] == 0
    ensures FilledFrom(Fill(tape, i), i)
    decreases WordSize - i
  {
    if i < WordSize {
      var next := tape[i := Ternary.Crazy(tape[WrappedIncrement(i, -2)], tape[WrappedIncrement(i, -1)])];
      FillUnfold(tape, i);
      FillFirstCell(tape, i);
      FillSpec(next, i + 1);
      FilledFromStep(Fill(tape, i), i);
    }
  }

  /** `LoadProgram` (with its `HardReset`): registers zero, running, the
      program verbatim at the start of the tape and the deterministic fill
      after it. Programs of words below 3^10 give a valid machine. */
  function LoadProgram(m: Machine, program: seq<uint16>): (r: Machine)
    requires IsProgramText(program)
    ensures Wf(r) && r.a == 0 && r.c == 0 && r.d == 0 && !r.terminated
    ensures r.output == m.output && r.inputsRead == m.inputsRead
    ensures IsLoadedTape(r.tape, program)
    ensures (forall i :: 0 <= i < |program| ==> program[i] < WordSize) ==> Valid(r)
  {
    var reset := HardReset(m);
    var copied := CopyProgram(reset.tape, program);
    FillKeepsPrefix(copied, |program|);
    FillSpec(copied, |program|);
    reset.(tape := Fill(copied, |program|))
  }

  /** The cell-by-cell description determines the tape: there is exactly one
      loaded tape per program. */
  lemma LoadedTapeUnique(t: seq<uint16>, t': seq<uint16>, program: seq<uint16>)
    requires IsLoadedTape(t, program) && IsLoadedTape(t', program)
    ensures t == t'
  {
    var k := 0;
    while k < WordSize
      invariant 0 <= k <= WordSize
      invariant forall j :: 0 <= j < k ==> t[j] == t'[j]
    {
      if k >= |program| {
        assert SeenWhileFilling(t, k, WrappedIncrement(k, -2)) == SeenWhileFilling(t', k, WrappedIncrement(k, -2));
        assert SeenWhileFilling(t, k, WrappedIncrement(k, -1)) == SeenWhileFilling(t', k, WrappedIncrement(k, -1));
      }
      k := k + 1;
    }
  }

  // ------------------------------------------------------------- lone halt

  /** The one-character program "Q" (code unit 81) is `End` at address 0:
      loaded and run with any budget of at least one step, it halts on its
      first step, prints nothing and reads no input. */
  lemma LoneHaltHalts(m: Machine, input: nat -> int, fuel: nat)
    requires fuel >= 1
    ensures var r := Run(LoadProgram(m, ['Q' as int]), input, fuel);
      r.Halted? && r.m.output == m.output && r.m.inputsRead == m.inputsRead
  {
    var l := LoadProgram(m, ['Q' as int]);
    assert l.tape[0] == 81;
    EndFirstHalts(l, input, fuel);
  }

  /** A machine at address 0 whose cell 0 holds 'Q' halts on its first step
      without printing or reading. */
  lemma {:induction false} EndFirstHalts(l: Machine, input: nat -> int, fuel: nat)
    requires Wf(l) && !l.terminated && l.c == 0 && l.tape[0] == 81 && fuel >= 1
    ensures var r := Run(l, input, fuel);
      r.Halted? && r.m.output == l.output && r.m.inputsRead == l.inputsRead
  {
    DecodeAtTableIndex(End, 81, 0);
    assert CurrentOperation(l) == End;
    var next := StepOnce(l, input);
    StepTermination(l, End, input);
    StepRegisters(l, End, input);
    assert StepFunction(input)(l) == Some(next);
    assert Iterate(next, StepFunction(input), fuel - 1) == Halted(next);
  }

}
