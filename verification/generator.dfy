/** The linear generator: grows a program in mnemonic form one target
    character at a time, trying each mutation followed by "print, halt" and
    keeping the first whose run makes the collected output equal the target
    prefix; when none does, it commits a random full-length mutation and
    tries again. */
module Generator {

  import opened Wrappers
  import opened OpCodes
  import opened Codec
  import opened Mutations

  /** `PrintOpCode`. */
  const PrintOpCode: char := OpCode(Out)

  /** `TerminalOpCode`. */
  const TerminalOpCode: char := OpCode(End)

  /** One program the search ran: the program committed so far, then a
      mutation. */
  datatype Probe = Probe(prefix: string, mutation: string)

  /** The candidate `currentProgram` holds when it is run: the committed
      program, the mutation, then print and halt. */
  function Candidate(p: Probe): string
  {
    p.prefix + p.mutation + [PrintOpCode, TerminalOpCode]
  }

  /** The generator's state: the committed program (`programAsOpCodes`), the
      text the comparison sees (`outputBuilder`), the probes run so far, the
      number of random draws, and the text echoed to the console. */
  datatype State = State(committed: string, output: string, probes: seq<Probe>, draws: nat, echoed: string)

  const Initial := State([], [], [], 0, [])

  /** The character echoed when target character `i` (1-based) is found.
      As written the code echoes `target[i]`, which is past the end for the
      last character; the intended echo is `target[i - 1]`. */
  datatype Echo = AsWritten | Intended

  function Echoed(echo: Echo, target: string, i: nat): Option<char>
    requires 1 <= i <= |target|
  {
    match echo
    case AsWritten => if i < |target| then Some(target[i]) else None
    case Intended => Some(target[i - 1])
  }

  /** What the comparison sees after a run. As written the builder the
      interpreter prints into is never cleared, so it holds the text of every
      run so far (`Accumulated`); the intended comparison is with what this
      run printed (`PerRun`). */
  datatype Collect = Accumulated | PerRun

  function Collected(collect: Collect, before: string, text: string): string
  {
    match collect
    case Accumulated => before + text
    case PerRun => text
  }

  /** What the generator works with: the mutation list and the forced list;
      `run`, the text a candidate prints (see `Runner`); `random(n)`, the
      `n`-th result of `RGen.Next` over the forced list; which echo it
      performs and what its comparison sees. */
  datatype Setting = Setting(mutations: seq<string>, forced: seq<string>, run: string -> string,
                             random: nat -> nat, echo: Echo, collect: Collect)

  /** `RGen.Next(Count)` stays below `Count`. */
  ghost predicate DrawsInRange(s: Setting)
  {
    forall n :: s.random(n) < |s.forced|
  }

  /** How the source runs a candidate: encode it with `DeNormalize`, load
      the raw program and run it; `oracle` is the text a fresh interpreter
      prints for a raw program. */
  function Runner(oracle: string -> string): string -> string
  {
    candidate => oracle(DeNormalize(candidate))
  }

  /** The setting of `LinearGenerator`: its two static lists and the runner. */
  function Source(oracle: string -> string, random: nat -> nat, echo: Echo, collect: Collect): Setting
  {
    Setting(OpCodeMutations, ForcedOpCodeMutations, Runner(oracle), random, echo, collect)
  }

  /** What a sequence of probes prints, in order. */
  function Outputs(probes: seq<Probe>, run: string -> string): string
  {
    if probes == [] then []
    else Outputs(probes[..|probes| - 1], run) + run(Candidate(probes[|probes| - 1]))
  }

  /** What the comparison sees after the given probes: all they printed, or
      what the last one printed. */
  function Collection(collect: Collect, probes: seq<Probe>, run: string -> string): string
  {
    match collect
    case Accumulated => Outputs(probes, run)
    case PerRun => if probes == [] then [] else run(Candidate(probes[|probes| - 1]))
  }

  datatype ScanResult = Found(mutation: string, state: State) | Exhausted(state: State)

  /** The `foreach` over the mutations still to try: run each candidate,
      collect what it prints, stop at the first that makes the collected
      text equal `target[..i]`. */
  function Scan(st: State, target: string, i: nat, run: string -> string, collect: Collect, rest: seq<string>): ScanResult
    requires i <= |target|
    decreases |rest|
  {
    if rest == [] then Exhausted(st)
    else
      var probe := Probe(st.committed, rest[0]);
      var next := st.(output := Collected(collect, st.output, run(Candidate(probe))), probes := st.probes + [probe]);
      if target[..i] == next.output then Found(rest[0], next)
      else Scan(next, target, i, run, collect, rest[1..])
  }

  /** The two lists hold mutations, the forced ones of full length. */
  ghost predicate ValidLists(s: Setting)
  {
    && (forall m :: m in s.mutations ==> IsMutation(m, MutationLength))
    && (forall f :: f in s.forced ==> |f| == MutationLength && IsMutation(f, MutationLength))
  }

  /** The lists of the source are valid, and any draw within range picks from
      a non-empty forced list. */
  lemma SourceListsValid(run: string -> string, random: nat -> nat, echo: Echo, collect: Collect)
    ensures ValidLists(Source(run, random, echo, collect))
    ensures IsRandomSource(random) ==> DrawsInRange(Source(run, random, echo, collect))
  {
    forall m | m in OpCodeMutations
      ensures IsMutation(m, MutationLength)
    {
      MutationMembers(m);
    }
    forall f | f in ForcedOpCodeMutations
      ensures |f| == MutationLength && IsMutation(f, MutationLength)
    {
      ForcedMembers(f);
    }
  }

  /** How a search or the whole generation ends: with a state, out of fuel
      (the source would keep looping), or by an exception. */
  datatype Outcome = Done(state: State) | GaveUp | Threw

  /** `while (!found)` for target character `i`, at most `fuel` passes: a
      found mutation is committed with a print, and the character echoed;
      otherwise a random forced mutation is committed and the scan repeats. */
  function Search(s: Setting, st: State, target: string, i: nat, fuel: nat): Outcome
    requires 1 <= i <= |target| && DrawsInRange(s) && ValidLists(s)
    decreases fuel
  {
    if fuel == 0 then GaveUp
    else match Scan(st, target, i, s.run, s.collect, s.mutations)
      case Found(mutation, next) =>
        (match Echoed(s.echo, target, i)
         case None => Threw
         case Some(ch) =>
           Done(next.(committed := next.committed + mutation + [PrintOpCode], echoed := next.echoed + [ch])))
      case Exhausted(next) => Search(s, Forced(s, next), target, i, fuel - 1)
  }

  /** The state after committing the next random forced mutation. */
  function Forced(s: Setting, st: State): State
    requires DrawsInRange(s)
  {
    st.(committed := st.committed + s.forced[s.random(st.draws)], draws := st.draws + 1)
  }

  /** The outer `for` loop from target character `i` on. */
  function Characters(s: Setting, st: State, target: string, i: nat, fuel: nat): Outcome
    requires 1 <= i <= |target| + 1 && DrawsInRange(s) && ValidLists(s)
    decreases |target| + 1 - i
  {
    if i > |target| then Done(st)
    else match Search(s, st, target, i, fuel)
      case Done(next) => Characters(s, next, target, i + 1, fuel)
      case GaveUp => GaveUp
      case Threw => Threw
  }

  /** `random` draws within the forced list of the source. */
  ghost predicate IsRandomSource(random: nat -> nat)
  {
    forall n :: random(n) < |ForcedOpCodeMutations|
  }

  /** The outcome of `GenerateOpCodes` with the given echo and comparison. */
  function Generate(target: string, run: string -> string, random: nat -> nat, echo: Echo, collect: Collect, fuel: nat): Outcome
    requires IsRandomSource(random)
  {
    SourceListsValid(run, random, echo, collect);
    Characters(Source(run, random, echo, collect), Initial, target, 1, fuel)
  }

  /** The empty target needs no search: the generation ends at once, with
      the lone halt. */
  lemma EmptyTargetDone(run: string -> string, random: nat -> nat, echo: Echo, collect: Collect, fuel: nat)
    requires IsRandomSource(random)
    ensures Program(Generate([], run, random, echo, collect, fuel)) == Some([TerminalOpCode])
  {
    SourceListsValid(run, random, echo, collect);
    var s := Source(run, random, echo, collect);
    assert Characters(s, Initial, [], 1, fuel) == Done(Initial);
    assert Initial.committed + [TerminalOpCode] == [TerminalOpCode];
  }

  /** The program a generation that ends with a state returns: the committed
      program and a final halt. */
  function Program(o: Outcome): Option<string>
  {
    match o
    case Done(st) => Some(st.committed + [TerminalOpCode])
    case _ => None
  }

  /** `GenerateOpCodes` as written: it echoes `target[i]` and compares the
      never-cleared builder. `None` when it throws or runs out of fuel, which
      it does for every non-empty target (`AsWrittenNeverReturns`); the empty
      target gives the lone halt. */
  function GenerateOpCodesAsWritten(target: string, run: string -> string, random: nat -> nat, fuel: nat): (r: Option<string>)
    requires IsRandomSource(random)
    ensures |target| > 0 ==> r == None
    ensures |target| == 0 ==> r == Some([TerminalOpCode])
  {
    AsWrittenFacts(target, run, random, fuel);
    Program(Generate(target, run, random, AsWritten, Accumulated, fuel))
  }

  /** `GenerateOpCodes` as intended: it echoes the character found and
      compares what each run printed. `None` when some character ran out of
      fuel; otherwise safe mnemonics and one print per target character,
      then a halt, and for a non-empty target a program whose run printed
      exactly the target. The empty target gives the lone halt. */
  function GenerateOpCodes(target: string, run: string -> string, random: nat -> nat, fuel: nat): (r: Option<string>)
    requires IsRandomSource(random)
    ensures EndsInHalt(r)
    ensures r.Some? ==> Prints(r.value) == |target|
    ensures |target| > 0 && r.Some? ==> Runner(run)(r.value) == target
    ensures |target| == 0 ==> r == Some([TerminalOpCode])
  {
    GenerateOpCodesFacts(target, run, random, fuel);
    Program(Generate(target, run, random, Intended, PerRun, fuel))
  }

  /** The raw form of a generated program, if there is one. */
  function RawForm(opCodes: Option<string>): Option<string>
  {
    match opCodes
    case Some(p) => Some(DeNormalize(p))
    case None => None
  }

  /** `GenerateProgram`, corrected: the mnemonics of `GenerateOpCodes` (not
      of `GenerateOpCodesAsWritten`, which returns none) in raw form. For a
      non-empty target the raw program, run by the interpreter `oracle`
      stands for, prints exactly the target; short enough, it normalizes back
      to the mnemonics. The empty target gives "Q", the raw form of a lone
      halt (`EmptyTargetProgramHalts`). */
  function GenerateProgram(target: string, oracle: string -> string, random: nat -> nat, fuel: nat): (p: Option<string>)
    requires IsRandomSource(random)
    ensures p.Some? <==> GenerateOpCodes(target, oracle, random, fuel).Some?
    ensures |target| > 0 && p.Some? ==> oracle(p.value) == target
    ensures DecodesTo(p, GenerateOpCodes(target, oracle, random, fuel))
    ensures |target| == 0 ==> p == Some("Q")
  {
    var o := GenerateOpCodes(target, oracle, random, fuel);
    GenerateProgramFacts(target, oracle, o);
    RawForm(o)
  }

  /** The raw form of the lone halt: `End` encoded at position 0 is
      `48 + 33`, the character 'Q'. */
  lemma HaltRawForm()
    ensures DeNormalize([TerminalOpCode]) == "Q"
  {
    assert [TerminalOpCode][..0] == [];
    OpCodeMapsInverse(End, TerminalOpCode);
  }

  // --------------------------------------------------------------- shape

  /** A committed program: safe mnemonics and prints only. */
  predicate IsBody(s: string)
  {
    forall j :: 0 <= j < |s| ==> s[j] in SafeOpCodes || s[j] == PrintOpCode
  }

  /** The number of prints in a program. */
  function Prints(s: string): nat
  {
    if s == [] then 0
    else Prints(s[..|s| - 1]) + if s[|s| - 1] == PrintOpCode then 1 else 0
  }

  lemma {:induction false} PrintsAppend(a: string, b: string)
    ensures Prints(a + b) == Prints(a) + Prints(b)
    decreases |b|
  {
    if b != [] {
      var n := |b| - 1;
      assert (a + b)[..|a + b| - 1] == a + b[..n];
      assert (a + b)[|a + b| - 1] == b[n];
      PrintsAppend(a, b[..n]);
    } else {
      assert a + b == a;
    }
  }

  /** A mutation prints nothing. */
  lemma {:induction false} MutationPrintsNothing(s: string, n: nat)
    requires IsMutation(s, n) || s == []
    ensures Prints(s) == 0
    decreases |s|
  {
    if s != [] {
      var init := s[..|s| - 1];
      assert forall j :: 0 <= j < |init| ==> init[j] == s[j];
      assert s[|s| - 1] in SafeOpCodes;
      if |init| > 0 {
        assert IsMutation(init, n);
      }
      MutationPrintsNothing(init, n);
    }
  }

  /** Appending a mutation, and optionally a print, keeps a body a body. */
  lemma AppendToBody(c: string, s: string, n: nat, tail: string)
    requires IsBody(c) && IsMutation(s, n) && (tail == [] || tail == [PrintOpCode])
    ensures IsBody(c + s + tail)
    ensures Prints(c + s + tail) == Prints(c) + |tail|
  {
    MutationPrintsNothing(s, n);
    PrintsAppend(c, s);
    PrintsAppend(c + s, tail);
    assert Prints(tail) == |tail| by {
      if tail != [] {
        assert tail[..0] == [];
      }
    }
  }

  /** A candidate holds one print more than the program it extends. */
  lemma CandidatePrints(p: Probe)
    ensures Prints(Candidate(p)) >= Prints(p.prefix) + 1
  {
    var tail := [PrintOpCode, TerminalOpCode];
    PrintsAppend(p.prefix, p.mutation);
    PrintsAppend(p.prefix + p.mutation, tail);
    assert tail[..1] == [PrintOpCode] && [PrintOpCode][..0] == [];
  }

  // ----------------------------------------------------------- invariant

  /** What holds of the state throughout: the committed program is a body;
      every probe ran a listed mutation on a prefix of the committed
      program; the collected text is what the comparison sees after the
      probes. */
  ghost predicate Consistent(s: Setting, st: State)
  {
    && IsBody(st.committed)
    && (forall j :: 0 <= j < |st.probes| ==>
          st.probes[j].prefix <= st.committed && st.probes[j].mutation in s.mutations)
    && st.output == Collection(s.collect, st.probes, s.run)
  }

  /** Committing more keeps every probe's prefix a prefix. */
  lemma CommitKeepsProbes(s: Setting, st: State, more: string)
    requires Consistent(s, st) && IsBody(st.committed + more)
    ensures Consistent(s, st.(committed := st.committed + more))
  {
    forall j | 0 <= j < |st.probes|
      ensures st.probes[j].prefix <= st.committed + more
    {
      var p := st.probes[j].prefix;
      assert p == st.committed[..|p|];
      assert (st.committed + more)[..|p|] == st.committed[..|p|];
    }
  }

  /** Running one more probe keeps the collected text what the comparison
      sees after the probes. */
  lemma ProbeCollects(collect: Collect, probes: seq<Probe>, run: string -> string, before: string, probe: Probe)
    requires before == Collection(collect, probes, run)
    ensures Collected(collect, before, run(Candidate(probe))) == Collection(collect, probes + [probe], run)
  {
    var more := probes + [probe];
    assert more[..|more| - 1] == probes;
  }

  /** Running one more probe keeps the state consistent. */
  lemma ProbeKeepsConsistent(s: Setting, st: State, mutation: string)
    requires Consistent(s, st) && mutation in s.mutations
    ensures var probe := Probe(st.committed, mutation);
      Consistent(s, st.(output := Collected(s.collect, st.output, s.run(Candidate(probe))), probes := st.probes + [probe]))
  {
    ProbeCollects(s.collect, st.probes, s.run, st.output, Probe(st.committed, mutation));
  }

  /** A scan changes only the output and the probes; it keeps the state
      consistent, and a found mutation is one it was to try, was the last
      probe, on the committed program, and makes the collected text the
      target prefix. */
  lemma {:induction false} ScanFacts(s: Setting, st: State, target: string, i: nat, rest: seq<string>)
    requires Consistent(s, st) && i <= |target|
    requires forall m :: m in rest ==> m in s.mutations
    ensures var r := Scan(st, target, i, s.run, s.collect, rest);
      && Consistent(s, r.state)
      && r.state.committed == st.committed && r.state.draws == st.draws && r.state.echoed == st.echoed
      && (r.Found? ==> r.mutation in rest && r.state.output == target[..i])
      && (r.Found? ==> |r.state.probes| > 0 && r.state.probes[|r.state.probes| - 1] == Probe(st.committed, r.mutation))
    decreases |rest|
  {
    if rest != [] {
      var probe := Probe(st.committed, rest[0]);
      ProbeKeepsConsistent(s, st, rest[0]);
      var next := st.(output := Collected(s.collect, st.output, s.run(Candidate(probe))), probes := st.probes + [probe]);
      if target[..i] != next.output {
        assert forall m :: m in rest[1..] ==> m in rest;
        ScanFacts(s, next, target, i, rest[1..]);
      }
    }
  }

  /** A scan tries the mutations in list order, each on the committed
      program alone (the candidate buffer is cut back after every try); it
      tries them all when none is found, and stops at the one it finds. */
  lemma {:induction false} ScanTries(st: State, target: string, i: nat, run: string -> string, collect: Collect, rest: seq<string>)
    requires i <= |target|
    ensures var r, n := Scan(st, target, i, run, collect, rest), |st.probes|;
      && n <= |r.state.probes| <= n + |rest|
      && st.probes <= r.state.probes
      && (forall j :: n <= j < |r.state.probes| ==> r.state.probes[j] == Probe(st.committed, rest[j - n]))
      && (r.Exhausted? ==> |r.state.probes| == n + |rest|)
      && (r.Found? ==> |r.state.probes| > n && r.mutation == rest[|r.state.probes| - n - 1])
    decreases |rest|
  {
    if rest != [] {
      var probe := Probe(st.committed, rest[0]);
      var next := st.(output := Collected(collect, st.output, run(Candidate(probe))), probes := st.probes + [probe]);
      if target[..i] != next.output {
        ScanTries(next, target, i, run, collect, rest[1..]);
      }
    }
  }

  /** The mutation a scan finds is the first that completes the target
      prefix: after no earlier try had the collected text been it. */
  lemma {:induction false} ScanFirstMatch(st: State, target: string, i: nat, run: string -> string, collect: Collect, rest: seq<string>)
    requires i <= |target| && st.output == Collection(collect, st.probes, run)
    ensures var r := Scan(st, target, i, run, collect, rest);
      r.Found? ==> forall j :: |st.probes| < j < |r.state.probes| ==>
        Collection(collect, r.state.probes[..j], run) != target[..i]
    decreases |rest|
  {
    if rest != [] {
      var probe := Probe(st.committed, rest[0]);
      var next := st.(output := Collected(collect, st.output, run(Candidate(probe))), probes := st.probes + [probe]);
      ProbeCollects(collect, st.probes, run, st.output, probe);
      if target[..i] != next.output {
        ScanFirstMatch(next, target, i, run, collect, rest[1..]);
        ScanTries(next, target, i, run, collect, rest[1..]);
        var r := Scan(next, target, i, run, collect, rest[1..]).state.probes;
        assert r[..|next.probes|] == next.probes;
      }
    }
  }

  /** Committing a found mutation and its print keeps the state consistent
      and adds one print. */
  lemma CommitFound(s: Setting, st: State, mutation: string)
    requires Consistent(s, st) && IsMutation(mutation, MutationLength)
    ensures Consistent(s, st.(committed := st.committed + mutation + [PrintOpCode]))
    ensures Prints(st.committed + mutation + [PrintOpCode]) == Prints(st.committed) + 1
    ensures st.committed <= st.committed + mutation + [PrintOpCode]
    ensures Candidate(Probe(st.committed, mutation)) == st.committed + mutation + [PrintOpCode] + [TerminalOpCode]
  {
    AppendToBody(st.committed, mutation, MutationLength, [PrintOpCode]);
    CommitKeepsProbes(s, st, mutation + [PrintOpCode]);
    assert st.committed + mutation + [PrintOpCode] == st.committed + (mutation + [PrintOpCode]);
  }

  /** Committing a forced mutation keeps the state consistent and adds no
      print. */
  lemma CommitForced(s: Setting, st: State, forced: string)
    requires Consistent(s, st) && IsMutation(forced, MutationLength)
    ensures Consistent(s, st.(committed := st.committed + forced))
    ensures Prints(st.committed + forced) == Prints(st.committed)
    ensures st.committed <= st.committed + forced
  {
    AppendToBody(st.committed, forced, MutationLength, []);
    assert st.committed + forced + [] == st.committed + forced;
    CommitKeepsProbes(s, st, forced);
  }

  /** The last probe ran the committed program followed by a halt. */
  ghost predicate RanLast(st: State)
  {
    |st.probes| > 0 && Candidate(st.probes[|st.probes| - 1]) == st.committed + [TerminalOpCode]
  }

  /** What a search that ends with a state has done since `st`: committed
      more after what was there, with one print, the last probe having run
      exactly that program and a halt; made the collected text the target
      prefix; echoed one character. */
  ghost predicate SearchedFrom(s: Setting, st: State, r: State, target: string, i: nat)
    requires 1 <= i <= |target|
  {
    && Consistent(s, r)
    && st.committed <= r.committed
    && Prints(r.committed) == Prints(st.committed) + 1
    && RanLast(r)
    && r.output == target[..i]
    && Echoed(s.echo, target, i).Some?
    && r.echoed == st.echoed + [Echoed(s.echo, target, i).value]
  }

  /** What a search from `st` that ended in `r` has achieved: a state as
      `SearchedFrom` says; no exception with the intended echo; never a state
      for the last character with the echo as written. */
  ghost predicate SearchEnds(s: Setting, st: State, r: Outcome, target: string, i: nat)
    requires 1 <= i <= |target|
  {
    && (r.Done? ==> SearchedFrom(s, st, r.state, target, i))
    && (s.echo == Intended ==> !r.Threw?)
    && (s.echo == AsWritten && i == |target| ==> !r.Done?)
  }

  /** What a search for character `i` from `st` needs: valid lists, draws
      in range and a consistent state. */
  ghost predicate Searching(s: Setting, st: State, target: string, i: nat)
  {
    1 <= i <= |target| && DrawsInRange(s) && ValidLists(s) && Consistent(s, st)
  }

  /** The pass that finds a mutation commits it with a print, or throws
      exactly when there is nothing to echo. */
  lemma SearchFound(s: Setting, st: State, target: string, i: nat, fuel: nat, mutation: string, next: State)
    requires Searching(s, st, target, i) && fuel > 0
    requires Scan(st, target, i, s.run, s.collect, s.mutations) == Found(mutation, next)
    ensures SearchEnds(s, st, Search(s, st, target, i, fuel), target, i)
    ensures var r := Search(s, st, target, i, fuel);
      && (r.Done? <==> Echoed(s.echo, target, i).Some?)
      && (r.Threw? <==> Echoed(s.echo, target, i).None?)
  {
    ScanFacts(s, st, target, i, s.mutations);
    CommitFound(s, next, mutation);
  }

  /** The pass that finds nothing commits a forced mutation and repeats. */
  lemma SearchExhausted(s: Setting, st: State, target: string, i: nat, fuel: nat, next: State)
    requires Searching(s, st, target, i) && fuel > 0
    requires Scan(st, target, i, s.run, s.collect, s.mutations) == Exhausted(next)
    ensures Search(s, st, target, i, fuel) == Search(s, Forced(s, next), target, i, fuel - 1)
    ensures Searching(s, Forced(s, next), target, i)
    ensures var after := Forced(s, next);
      SearchEnds(s, after, Search(s, after, target, i, fuel - 1), target, i) ==>
        SearchEnds(s, st, Search(s, st, target, i, fuel), target, i)
  {
    ScanFacts(s, st, target, i, s.mutations);
    CommitForced(s, next, s.forced[s.random(next.draws)]);
    var after := Forced(s, next);
    SearchedFromForced(s, st, after, Search(s, after, target, i, fuel - 1), target, i);
  }

  /** A search that ends with a state has committed, after what was there,
      some mutations and one print, made the collected text the target
      prefix and echoed one character; the intended echo never throws, and
      the echo as written always throws on the last target character. */
  lemma {:induction false} SearchFacts(s: Setting, st: State, target: string, i: nat, fuel: nat)
    requires Searching(s, st, target, i)
    ensures SearchEnds(s, st, Search(s, st, target, i, fuel), target, i)
    decreases fuel
  {
    SearchPass(s, st, target, i, fuel);
    if Repeats(s, st, target, i, fuel) {
      SearchFacts(s, Forced(s, Scan(st, target, i, s.run, s.collect, s.mutations).state), target, i, fuel - 1);
    }
  }

  /** The pass over the mutations finds nothing, so the search repeats. */
  ghost predicate Repeats(s: Setting, st: State, target: string, i: nat, fuel: nat)
    requires i <= |target|
  {
    fuel > 0 && Scan(st, target, i, s.run, s.collect, s.mutations).Exhausted?
  }

  /** One pass of the search: it ends as `SearchEnds` says, or it repeats
      from a state where what the repetition achieves, the search achieves. */
  lemma SearchPass(s: Setting, st: State, target: string, i: nat, fuel: nat)
    requires Searching(s, st, target, i)
    ensures !Repeats(s, st, target, i, fuel) ==> SearchEnds(s, st, Search(s, st, target, i, fuel), target, i)
    ensures Repeats(s, st, target, i, fuel) ==>
      var after := Forced(s, Scan(st, target, i, s.run, s.collect, s.mutations).state);
      && Searching(s, after, target, i)
      && (SearchEnds(s, after, Search(s, after, target, i, fuel - 1), target, i) ==>
            SearchEnds(s, st, Search(s, st, target, i, fuel), target, i))
  {
    if fuel > 0 {
      match Scan(st, target, i, s.run, s.collect, s.mutations)
      case Found(mutation, next) =>
        SearchFound(s, st, target, i, fuel, mutation, next);
      case Exhausted(next) =>
        SearchExhausted(s, st, target, i, fuel, next);
    }
  }

  /** A forced commit before a search is absorbed into it. */
  lemma SearchedFromForced(s: Setting, st: State, after: State, r: Outcome, target: string, i: nat)
    requires 1 <= i <= |target|
    requires st.committed <= after.committed && Prints(after.committed) == Prints(st.committed)
    requires after.echoed == st.echoed
    ensures SearchEnds(s, after, r, target, i) ==> SearchEnds(s, st, r, target, i)
  {
  }

  /** What the outer loop from character `i` and state `st` has achieved
      when it ends in `r`: a state that is consistent, extends the committed
      program, holds one print per target character and whose collected
      text is the target (and, with the intended echo, whose echo is the
      target), its last probe having run its program if any character was
      searched; no exception with the intended echo; never a state with the
      echo as written while a character remains. */
  ghost predicate Finished(s: Setting, st: State, r: Outcome, target: string, i: nat)
  {
    && (r.Done? ==>
          && Consistent(s, r.state)
          && st.committed <= r.state.committed
          && Prints(r.state.committed) == |target|
          && r.state.output == target
          && (i <= |target| ==> RanLast(r.state))
          && (s.echo == Intended ==> r.state.echoed == target))
    && (s.echo == Intended ==> !r.Threw?)
    && (s.echo == AsWritten && i <= |target| ==> !r.Done?)
  }

  /** The state reached after `i - 1` target characters. */
  ghost predicate Reached(s: Setting, st: State, target: string, i: nat)
  {
    && 1 <= i <= |target| + 1
    && Consistent(s, st)
    && Prints(st.committed) == i - 1
    && st.output == target[..i - 1]
    && (s.echo == Intended ==> st.echoed == target[..i - 1])
  }

  /** A search for character `i` that ends in a state reaches character
      `i + 1`, and what the rest of the loop achieves from there it achieves
      from `st`. */
  lemma CharacterFound(s: Setting, st: State, next: State, r: Outcome, target: string, i: nat)
    requires 1 <= i <= |target| && Reached(s, st, target, i)
    requires SearchedFrom(s, st, next, target, i)
    requires i == |target| ==> r == Done(next)
    ensures Reached(s, next, target, i + 1)
    ensures Finished(s, next, r, target, i + 1) ==> Finished(s, st, r, target, i)
  {
    assert target[..i] == target[..i - 1] + [target[i - 1]];
  }

  /** The outer loop from character `i` achieves what `Finished` says. */
  lemma {:induction false} CharactersFacts(s: Setting, st: State, target: string, i: nat, fuel: nat)
    requires ValidLists(s) && DrawsInRange(s) && Reached(s, st, target, i)
    ensures Finished(s, st, Characters(s, st, target, i, fuel), target, i)
    decreases |target| + 1 - i
  {
    if i <= |target| {
      SearchFacts(s, st, target, i, fuel);
      match Search(s, st, target, i, fuel)
      case Done(next) =>
        CharacterFound(s, st, next, Characters(s, next, target, i + 1, fuel), target, i);
        CharactersFacts(s, next, target, i + 1, fuel);
      case GaveUp =>
      case Threw =>
    } else {
      assert target[..i - 1] == target;
    }
  }

  // ------------------------------------------------------------- results

  /** What a generation with the intended echo that ends with a state
      guarantees, whatever the comparison sees: every probe ran a listed
      mutation, then print and halt, on a prefix of the committed program;
      the committed program holds one print per target character; the text
      the comparison saw last is the target; the echo is the target; and,
      for a non-empty target, the last probe ran the returned program. */
  lemma GenerateFacts(target: string, run: string -> string, random: nat -> nat, collect: Collect, fuel: nat)
    requires IsRandomSource(random)
    ensures var r := Generate(target, run, random, Intended, collect, fuel);
      && !r.Threw?
      && (r.Done? ==>
            && IsBody(r.state.committed)
            && Prints(r.state.committed) == |target|
            && Collection(collect, r.state.probes, Runner(run)) == target
            && r.state.echoed == target
            && (|target| > 0 ==> RanLast(r.state))
            && forall j :: 0 <= j < |r.state.probes| ==>
                 r.state.probes[j].prefix <= r.state.committed
                 && r.state.probes[j].mutation in OpCodeMutations)
  {
    SourceListsValid(run, random, Intended, collect);
    StartFacts(Source(run, random, Intended, collect), target, fuel);
  }

  /** The outer loop from the initial state achieves what `Finished` says. */
  lemma StartFacts(s: Setting, target: string, fuel: nat)
    requires ValidLists(s) && DrawsInRange(s)
    ensures Finished(s, Initial, Characters(s, Initial, target, 1, fuel), target, 1)
  {
    CharactersFacts(s, Initial, target, 1, fuel);
  }

  /** What `GenerateOpCodes` promises of its result `r`. */
  ghost predicate IsGenerated(target: string, run: string -> string, r: Option<string>)
  {
    && EndsInHalt(r)
    && (r.Some? ==> Prints(r.value) == |target|)
    && (|target| > 0 && r.Some? ==> Runner(run)(r.value) == target)
    && (|target| == 0 ==> r == Some([TerminalOpCode]))
  }

  lemma GenerateOpCodesFacts(target: string, run: string -> string, random: nat -> nat, fuel: nat)
    requires IsRandomSource(random)
    ensures IsGenerated(target, run, Program(Generate(target, run, random, Intended, PerRun, fuel)))
  {
    if target == [] {
      EmptyTargetDone(run, random, Intended, PerRun, fuel);
      LoneHaltGenerated(target, run);
    } else {
      NonEmptyGenerated(target, run, random, fuel);
    }
  }

  /** The lone halt is what the generation promises for the empty target. */
  lemma LoneHaltGenerated(target: string, run: string -> string)
    requires target == []
    ensures IsGenerated(target, run, Some([TerminalOpCode]))
  {
    var r := [TerminalOpCode];
    assert r[..|r| - 1] == [];
  }

  /** The per-run generation for a non-empty target keeps the promises. */
  lemma NonEmptyGenerated(target: string, run: string -> string, random: nat -> nat, fuel: nat)
    requires IsRandomSource(random) && |target| > 0
    ensures IsGenerated(target, run, Program(Generate(target, run, random, Intended, PerRun, fuel)))
  {
    GenerateFacts(target, run, random, PerRun, fuel);
    var g := Generate(target, run, random, Intended, PerRun, fuel);
    if g.Done? {
      DoneGenerated(target, run, g.state);
    }
  }

  /** A final state of the per-run generation gives a generated program. */
  lemma DoneGenerated(target: string, run: string -> string, st: State)
    requires |target| > 0 && IsBody(st.committed) && Prints(st.committed) == |target|
    requires Collection(PerRun, st.probes, Runner(run)) == target && RanLast(st)
    ensures IsGenerated(target, run, Some(st.committed + [TerminalOpCode]))
  {
    HaltAppended(st.committed);
  }

  lemma AsWrittenFacts(target: string, run: string -> string, random: nat -> nat, fuel: nat)
    requires IsRandomSource(random)
    ensures var r := Program(Generate(target, run, random, AsWritten, Accumulated, fuel));
      && (|target| > 0 ==> r == None)
      && (|target| == 0 ==> r == Some([TerminalOpCode]))
  {
    if target == [] {
      EmptyTargetDone(run, random, AsWritten, Accumulated, fuel);
    } else {
      AsWrittenNeverReturns(target, run, random, Accumulated, fuel);
    }
  }

  /** The raw form of any result `GenerateOpCodes` may give keeps its
      promises: it exists with it, prints the target, decodes back to it, and
      is "Q" for the empty target. */
  lemma GenerateProgramFacts(target: string, oracle: string -> string, o: Option<string>)
    requires IsGenerated(target, oracle, o)
    ensures var p := RawForm(o);
      && (p.Some? <==> o.Some?)
      && (|target| > 0 && p.Some? ==> oracle(p.value) == target)
      && DecodesTo(p, o)
      && (|target| == 0 ==> p == Some("Q"))
  {
    GeneratedRoundTrip(o);
    if |target| == 0 {
      HaltRawForm();
    }
  }

  /** A body followed by a halt: ends in the halt, and prints as the body
      does. */
  lemma HaltAppended(c: string)
    requires IsBody(c)
    ensures var r := c + [TerminalOpCode];
      && r[|r| - 1] == TerminalOpCode && r[..|r| - 1] == c && Prints(r) == Prints(c)
  {
    var r := c + [TerminalOpCode];
    assert r[..|r| - 1] == c;
  }

  /** A program, if there is one, that is a body followed by one halt. */
  ghost predicate EndsInHalt(o: Option<string>)
  {
    o.Some? ==> var r := o.value; |r| >= 1 && r[|r| - 1] == TerminalOpCode && IsBody(r[..|r| - 1])
  }

  /** As written the echo of the last character indexes past the end of the
      target, so for any non-empty target the generator never returns a
      program, whatever its comparison sees: it runs out of fuel or throws. */
  lemma AsWrittenNeverReturns(target: string, run: string -> string, random: nat -> nat, collect: Collect, fuel: nat)
    requires IsRandomSource(random) && |target| > 0
    ensures !Generate(target, run, random, AsWritten, collect, fuel).Done?
    ensures Echoed(AsWritten, target, |target|) == None
  {
    SourceListsValid(run, random, AsWritten, collect);
    StartFacts(Source(run, random, AsWritten, collect), target, fuel);
    SourceListsValid(run, random, AsWritten, Accumulated);
    StartFacts(Source(run, random, AsWritten, Accumulated), target, fuel);
  }

  // ---------------------------------------------------- never-cleared text

  /** With the intended echo, a scan that finds a mutation ends the search
      with that mutation and a print committed and the character echoed. */
  lemma FoundCommits(s: Setting, st: State, target: string, i: nat, fuel: nat, mutation: string, next: State)
    requires 1 <= i <= |target| && DrawsInRange(s) && ValidLists(s) && s.echo == Intended && fuel >= 1
    requires Scan(st, target, i, s.run, s.collect, s.mutations) == Found(mutation, next)
    ensures Search(s, st, target, i, fuel)
      == Done(next.(committed := next.committed + mutation + [PrintOpCode], echoed := next.echoed + [target[i - 1]]))
  {
  }

  /** An interpreter that prints `text` for every program. */
  function ConstantOracle(text: string): string -> string
  {
    _ => text
  }

  /** The never-cleared builder can make the generator return a wrong
      program once the echo is corrected (as written the echo of the last
      character throws first, so there the defect shows only as wrong
      committed mutations and a wrong echo, never as a wrong returned
      program). The witness interpreter is hypothetical and shows the
      generator's logic only: when every candidate prints "A", the target
      "AA" is met by the two probe runs together, and the program returned,
      `*<*<v`, prints "A" alone. */
  lemma AccumulatedReturnsWrongProgram(target: string, random: nat -> nat)
    requires target == "AA" && IsRandomSource(random)
    ensures Program(Generate(target, ConstantOracle("A"), random, Intended, Accumulated, 1)) == Some("*<*<v")
    ensures forall c :: Runner(ConstantOracle("A"))(c) == "A" != target
  {
    ConstantGeneration(target, random);
    ConstantRunner();
    assert "A" != target by {
      assert |target| == 2;
    }
  }

  lemma ConstantRunner()
    ensures forall c :: Runner(ConstantOracle("A"))(c) == "A"
  {
  }

  lemma ConstantGeneration(target: string, random: nat -> nat)
    requires target == "AA" && IsRandomSource(random)
    ensures Program(Generate(target, ConstantOracle("A"), random, Intended, Accumulated, 1)) == Some("*<*<v")
  {
    var oracle := ConstantOracle("A");
    GenerateRunsCharacters(target, oracle, random, Intended, Accumulated, 1);
    ConstantSource(random);
    ConstantRunAccumulates(Source(oracle, random, Intended, Accumulated), 1);
    SecondCommitProgram();
  }

  lemma SecondCommitProgram()
    ensures Program(Done(SecondCommit)) == Some("*<*<v")
  {
    assert TerminalOpCode == 'v';
    assert SecondCommit.committed + [TerminalOpCode] == "*<*<v";
  }

  lemma GenerateRunsCharacters(target: string, run: string -> string, random: nat -> nat, echo: Echo, collect: Collect, fuel: nat)
    requires IsRandomSource(random)
    ensures ValidLists(Source(run, random, echo, collect)) && DrawsInRange(Source(run, random, echo, collect))
    ensures Generate(target, run, random, echo, collect, fuel) == Characters(Source(run, random, echo, collect), Initial, target, 1, fuel)
  {
    SourceListsValid(run, random, echo, collect);
  }

  /** The source under the constant interpreter: its runner prints "A" for
      every candidate, and it tries `*` first. */
  lemma ConstantSource(random: nat -> nat)
    ensures var s := Source(ConstantOracle("A"), random, Intended, Accumulated);
      && (forall c :: s.run(c) == "A")
      && s.mutations != [] && s.mutations[0] == "*"
  {
    MutationOrder();
  }

  /** The first character "A": the first mutation's candidate prints "A". */
  const FirstCommit := State("*<", "A", [Probe([], "*")], 0, "A")

  /** The second: its candidate prints "A" again, and the builder reads "AA". */
  const SecondCommit := State("*<*<", "AA", [Probe([], "*"), Probe("*<", "*")], 0, "AA")

  /** Under a runner that prints "A" for everything, with `*` the first
      mutation tried, both characters of "AA" are found at the first probe. */
  lemma ConstantRunAccumulates(s: Setting, fuel: nat)
    requires ValidLists(s) && DrawsInRange(s) && s.echo == Intended && s.collect == Accumulated
    requires s.mutations != [] && s.mutations[0] == "*" && fuel >= 1
    requires forall c :: s.run(c) == "A"
    ensures Characters(s, Initial, "AA", 1, fuel) == Done(SecondCommit)
  {
    FirstFound(s, fuel);
    SecondFound(s, fuel);
    assert Characters(s, SecondCommit, "AA", 3, fuel) == Done(SecondCommit);
  }

  lemma FirstFound(s: Setting, fuel: nat)
    requires ValidLists(s) && DrawsInRange(s) && s.echo == Intended && s.collect == Accumulated
    requires s.mutations != [] && s.mutations[0] == "*" && fuel >= 1
    requires forall c :: s.run(c) == "A"
    ensures Search(s, Initial, "AA", 1, fuel) == Done(FirstCommit)
  {
    var target := "AA";
    assert target[..1] == "A";
    assert PrintOpCode == '<';
    var n1 := Initial.(output := "A", probes := [Probe([], "*")]);
    assert Scan(Initial, target, 1, s.run, Accumulated, s.mutations) == Found("*", n1);
    FoundCommits(s, Initial, target, 1, fuel, "*", n1);
  }

  lemma SecondFound(s: Setting, fuel: nat)
    requires ValidLists(s) && DrawsInRange(s) && s.echo == Intended && s.collect == Accumulated
    requires s.mutations != [] && s.mutations[0] == "*" && fuel >= 1
    requires forall c :: s.run(c) == "A"
    ensures Search(s, FirstCommit, "AA", 2, fuel) == Done(SecondCommit)
  {
    var target := "AA";
    assert target[..2] == "AA";
    assert PrintOpCode == '<';
    var st := FirstCommit;
    var n2 := st.(output := "AA", probes := st.probes + [Probe("*<", "*")]);
    assert Scan(st, target, 2, s.run, Accumulated, s.mutations) == Found("*", n2);
    FoundCommits(s, st, target, 2, fuel, "*", n2);
    var w: string := "*<";
    assert w + "*" + ['<'] == w + w;
  }

  // ------------------------------------------------------------ raw form

  /** A raw program that, when the mnemonic program exists and is at most
      40 long, exists too, can be normalized and normalizes back to it. */
  ghost predicate DecodesTo(program: Option<string>, opCodes: Option<string>)
  {
    opCodes.Some? && |opCodes.value| <= 40 ==>
      program.Some? && Decodable(program.value) && Normalize(program.value) == opCodes.value
  }

  /** A body followed by a halt consists of opcodes only, so up to 40 of
      them survive the trip through the raw form. */
  lemma GeneratedRoundTrip(o: Option<string>)
    requires EndsInHalt(o)
    ensures DecodesTo(RawForm(o), o)
  {
    if o.Some? && |o.value| <= 40 {
      GeneratedIsOpCodes(o.value);
      RoundTrip(o.value);
    }
  }

  lemma GeneratedIsOpCodes(r: string)
    requires |r| >= 1 && r[|r| - 1] == TerminalOpCode && IsBody(r[..|r| - 1])
    ensures OpCodesOnly(r)
  {
    forall j | 0 <= j < |r|
      ensures IsOpCode(r[j])
    {
      if j < |r| - 1 {
        assert r[..|r| - 1][j] == r[j];
      }
    }
  }

}
