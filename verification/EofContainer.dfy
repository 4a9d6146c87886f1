/**
 * From validation to execution: the program `analyze_eof1` hands to the interpreter for a validated
 * container, and what type soundness says about its runs.
 */
module EofContainer {
  import opened Bytes
  import opened Opcodes
  import opened EofInstructions
  import opened EofStackHeight
  import opened EofHeader
  import opened EofValidation
  import opened Interpreter
  import opened EofSoundness
  import opened ExecutionState
  import RwTrace

  /** `get_data`: what follows the last code section. */
  function GetData(c: seq<byte>, header: Eof1Header): seq<byte>
    requires 0 < |header.codeOffsets| == |header.codeSizes|
    requires header.codeOffsets[|header.codeOffsets| - 1] + header.codeSizes[|header.codeSizes| - 1] <= |c|
  {
    var last := |header.codeOffsets| - 1;
    var rest := c[header.codeOffsets[last] + header.codeSizes[last]..];
    if |rest| <= header.dataSize then rest else rest[..header.dataSize]
  }

  lemma LayoutInside(c: seq<byte>, h: Headers)
    requires Parsed(c, h)
    ensures var header := HeaderOf(c, h); var last := |header.codeOffsets| - 1;
      && 0 < |header.codeOffsets| == |header.codeSizes|
      && header.codeOffsets[last] + header.codeSizes[last] <= |c|
      && |GetData(c, header)| == header.dataSize
  {
    hide ParseHeaders, PrintHeaders, TrueOffset, TypesAt;
    ParsedLayout(c, h);
    SectionLayout(c, h, |h.codeSizes| - 1);
  }

  /** What the interpreter is given for container c: its code is read from the container itself. */
  ghost function EofEnv(c: seq<byte>, h: Headers): Env
    requires Parsed(c, h)
  {
    LayoutInside(c, h);
    var header := HeaderOf(c, h);
    Env(Prague, true, 0, c, header.codeOffsets[0], [], header.types, header.codeOffsets, GetData(c, header))
  }

  /** The data are the end of the container, if its last code section starts below 65536. */
  lemma DataIsTail(c: seq<byte>, h: Headers)
    requires Parsed(c, h) && |h.codeSizes| > 0 && TrueOffset(h, |h.codeSizes| - 1) < 0x1_0000
    ensures h.dataSize <= |c| && EofEnv(c, h).data == c[|c| - h.dataSize..]
  {
    hide ParseHeaders, PrintHeaders, TrueOffset, TypesAt;
    LayoutInside(c, h);
    ParsedLayout(c, h);
    SectionLayout(c, h, |h.codeSizes| - 1);
    OffsetsExact(c, h);
  }

  ghost function Sections(c: seq<byte>, h: Headers): (ss: seq<Section>)
    requires Parsed(c, h)
    ensures |ss| == |h.codeSizes| && forall i :: 0 <= i < |ss| ==> ss[i] == SectionOf(c, h, i)
  {
    seq(|h.codeSizes|, i requires 0 <= i < |h.codeSizes| => SectionOf(c, h, i))
  }

  /** Heights found by the validator for every section, as one table. */
  ghost predicate HeightTables(ss: seq<Section>, hs: seq<seq<int>>) {
    |hs| == |ss| && forall f: nat :: f < |ss| ==> TableFor(ss[f], hs[f])
  }

  /** hs gives each instruction start of s the height every path reaches it with. */
  ghost predicate TableFor(s: Section, hs: seq<int>) {
    && s.Valid() && Typed(s, hs, s.types[s.index].maxStackHeight)
    && forall i: nat :: IsStart(s.code, i) ==> i < |hs| && Reachable(s, Config(i, hs[i]))
  }

  lemma {:induction false} AllTables(ss: seq<Section>) returns (hs: seq<seq<int>>)
    requires forall f: nat :: f < |ss| ==> Checked(ss[f]) && SectionAccepted(ss[f])
    ensures HeightTables(ss, hs)
  {
    hide Checked, StackOk, Typed;
    if ss == [] {
      hs := [];
    } else {
      var last := |ss| - 1;
      assert SectionAccepted(ss[last]);
      AcceptedValid(ss[last]);
      var table := StackOkTyping(ss[last], ss[last].types[ss[last].index].maxStackHeight);
      var rest := AllTables(ss[..last]);
      hs := rest + [table];
      forall f: nat | f < |ss|
        ensures TableFor(ss[f], hs[f])
      {
        if f < last { assert ss[..last][f] == ss[f]; }
      }
    }
  }

  lemma AcceptedValid(s: Section)
    requires SectionAccepted(s)
    ensures s.Valid() && StackOk(s, s.types[s.index].maxStackHeight)
  {
    hide StackOk, RjumpsOk;
  }

  lemma SectionChecked(c: seq<byte>, h: Headers, f: nat)
    requires Accepted(c, h) && f < |h.codeSizes|
    ensures Checked(SectionOf(c, h, f))
  {
    hide ParseHeaders, StackOk, InstructionsOk, RjumpsOk, TypesAt;
    TypesAllOk(HeaderOf(c, h).types);
    assert SectionAccepted(SectionOf(c, h, f));
  }

  /** The program of an accepted container, with the height of every path to every instruction. */
  ghost predicate ProgramOf(c: seq<byte>, h: Headers, p: Program)
    requires Parsed(c, h)
  {
    && p.Valid() && p.env == EofEnv(c, h) && p.sections == Sections(c, h)
    && HeightTables(p.sections, p.heights)
  }

  lemma PlacedSection(c: seq<byte>, h: Headers, p: Program, f: nat)
    requires Accepted(c, h) && f < |h.codeSizes|
    requires p.Shape() && p.env == EofEnv(c, h) && p.sections == Sections(c, h) && HeightTables(p.sections, p.heights)
    ensures p.SectionAt(f)
  {
    hide ParseHeaders, PrintHeaders, TrueOffset, TypesAt, SectionAccepted, Typed, Checked, GetData;
    hide GetCode;
    LayoutInside(c, h);
    SectionChecked(c, h, f);
    SectionShape(c, h, f);
    CalleeIsSection(c, h, f);
    assert TableFor(p.sections[f], p.heights[f]);
  }

  /** Validation builds a well-typed program: every accepted container has one. */
  lemma AcceptedProgram(c: seq<byte>, h: Headers) returns (p: Program)
    requires Accepted(c, h)
    ensures ProgramOf(c, h, p)
  {
    hide ParseHeaders, PrintHeaders, TrueOffset, SectionAccepted, Typed, Checked, GetData;
    hide GetCode, HeightTables, TypesValid;
    LayoutInside(c, h);
    var ss := Sections(c, h);
    forall f: nat | f < |ss|
      ensures Checked(ss[f]) && SectionAccepted(ss[f])
    {
      SectionChecked(c, h, f);
    }
    var hs := AllTables(ss);
    p := Program(EofEnv(c, h), ss, hs);
    TablesMatch(ss, hs);
    FirstSection(c, h);
    forall f: nat | f < |ss|
      ensures p.SectionAt(f)
    {
      PlacedSection(c, h, p, f);
    }
  }

  lemma TablesMatch(ss: seq<Section>, hs: seq<seq<int>>)
    requires HeightTables(ss, hs)
    ensures |hs| == |ss|
  {
  }

  lemma FirstSection(c: seq<byte>, h: Headers)
    requires Accepted(c, h)
    ensures var types := HeaderOf(c, h).types;
      |types| == |h.codeSizes| > 0 && types[0].inputs == 0 && types[0].outputs == NON_RETURNING
  {
    hide ParseHeaders, PrintHeaders, TrueOffset, SectionAccepted;
    ParsedLayout(c, h);
  }

  /**
   * EOF soundness, end to end: every run of a container that `validate_eof` accepts stays inside it, at
   * instruction starts, at the validator's heights. A run that ends does so in an excused way: the requirements
   * check only ever reports lack of gas, every other status comes from the instructions that Excused lists, no
   * jump is bad, and Fault comes only from a stuck step.
   */
  lemma AcceptedContainerSafe(c: seq<byte>, h: Headers, choices: nat -> Choice, s: State, n: nat)
    requires Accepted(c, h) && Initial(EofEnv(c, h), s)
    ensures var env := EofEnv(c, h); var o := Run(env, choices, s, n);
      if o.Next? then
        && (exists p :: ProgramOf(c, h, p) && WellPlaced(p, o.s))
        && 0 <= o.s.pc < |c| && |o.s.stack| <= STACK_LIMIT
      else exists m :: EndedAt(env, choices, s, n, m)
  {
    hide Accepted, Parsed, Program.Valid, WellPlaced, Run, EndedAt, HeaderOf, GetData;
    var p := AcceptedProgram(c, h);
    ProgramSafe(p, choices, s, n);
  }

  /** When a run of an accepted container has the outcome Fault, exactly. */
  lemma AcceptedFaultsExactly(c: seq<byte>, h: Headers, choices: nat -> Choice, s: State, n: nat)
    requires Accepted(c, h) && Initial(EofEnv(c, h), s)
    ensures Run(EofEnv(c, h), choices, s, n).Fault? <==>
      exists m :: 0 <= m < n && FaultsAt(EofEnv(c, h), choices, s, m)
  {
    hide Accepted, Parsed, EofEnv, Program.Valid, Run, FaultsAt;
    var p := AcceptedProgram(c, h);
    ProgramFaultsExactly(p, choices, s, n);
  }

  /** The return discipline of accepted containers. */
  lemma AcceptedCallReturns(c: seq<byte>, h: Headers, choices: nat -> Choice, s: State, m: nat, e: nat)
    requires Accepted(c, h) && Initial(EofEnv(c, h), s) && LeavesCall(EofEnv(c, h), choices, s, m, e)
    ensures Resumes(EofEnv(c, h), StateAt(EofEnv(c, h), choices, s, m), StateAt(EofEnv(c, h), choices, s, e))
  {
    hide Accepted, Parsed, EofEnv, Program.Valid, Run, LeavesCall, Resumes;
    var p := AcceptedProgram(c, h);
    CallReturns(p, choices, s, m, e);
  }

  /** RETF in an accepted container always finds a return address. */
  lemma AcceptedReturnHasCaller(c: seq<byte>, h: Headers, choices: nat -> Choice, s: State, n: nat)
    requires Accepted(c, h) && Initial(EofEnv(c, h), s) && Run(EofEnv(c, h), choices, s, n).Next?
    ensures var t := StateAt(EofEnv(c, h), choices, s, n);
      0 <= t.pc < |c| && (c[t.pc] == OP_RETF ==> t.callStack != [])
  {
    hide Accepted, Parsed, Program.Valid, Run, HeaderOf, GetData;
    var p := AcceptedProgram(c, h);
    ReturnHasCaller(p, choices, s, n);
  }

  // ---------------------------------------------------------------- execution

  /** No instruction of the container is an indexed DUP or SWAP, or a PUSH5 or PUSH6 too close to its end. */
  ghost predicate Executable(c: seq<byte>, h: Headers)
    requires Parsed(c, h)
  {
    forall f: nat, i: nat :: f < |h.codeSizes| && IsStart(SectionOf(c, h, f).code, i) ==>
      Harmless(EofEnv(c, h), HeaderOf(c, h).codeOffsets[f] + i)
  }

  lemma ExecutableFaultFree(c: seq<byte>, h: Headers, p: Program)
    requires Parsed(c, h) && ProgramOf(c, h, p) && Executable(c, h)
    ensures FaultFree(p)
  {
    hide Parsed, IsStart, Harmless, Program.Valid, GetData;
    forall f: nat, i: nat | f < |p.sections| && IsStart(p.sections[f].code, i)
      ensures Harmless(p.env, p.Offset(f) + i)
    {
      assert p.sections[f] == SectionOf(c, h, f);
      assert p.Offset(f) == HeaderOf(c, h).codeOffsets[f];
    }
  }

  lemma ProgramHalts(p: Program, choices: nat -> Choice, s: State)
    requires p.Valid() && Initial(p.env, s) && FaultFree(p) && s.gas >= 0 && NeverRefunds(choices)
    ensures Halts(p.env, choices, s)
  {
    hide Program.Valid, Run, FaultFree;
    var n := s.gas * (|p.env.code| + 1) + |p.env.code| + 1;
    ProgramTerminates(p, choices, s, n);
    FaultFreeRuns(p, choices, s, n);
    assert Run(p.env, choices, s, n).Halt?;
  }

  /** Runs of such containers halt, if the outside world never gives gas back. */
  lemma AcceptedHalts(c: seq<byte>, h: Headers, choices: nat -> Choice, s: State)
    requires Accepted(c, h) && Initial(EofEnv(c, h), s) && Executable(c, h) && s.gas >= 0 && NeverRefunds(choices)
    ensures Halts(EofEnv(c, h), choices, s)
  {
    hide Accepted, Parsed, EofEnv, Program.Valid, Halts, Executable, FaultFree, NeverRefunds;
    var p := AcceptedProgram(c, h);
    AcceptedParsed(c, h);
    ExecutableFaultFree(c, h, p);
    ProgramHalts(p, choices, s);
  }

  lemma AcceptedParsed(c: seq<byte>, h: Headers)
    requires Accepted(c, h)
    ensures Parsed(c, h)
  {
  }

  /** `analyze_eof1`: the header read back without checks, and where the executable code starts. */
  method AnalyzeEof1(c: seq<byte>, ghost h: Headers) returns (env: Env)
    requires Parsed(c, h)
    ensures env == EofEnv(c, h)
  {
    hide ParseHeaders, HeaderOf;
    var header := ReadValidEof1Header(c);
    LayoutInside(c, h);
    env := Env(Prague, true, 0, c, header.codeOffsets[0], [], header.types, header.codeOffsets, GetData(c, header));
  }

  /** Analysis and execution of a container end exactly if the run of the step function halts, as it does. */
  method ExecuteContainer(c: seq<byte>, ghost h: Headers, gas: int, choices: nat -> Choice)
    returns (status: Status, gasLeft: int, trace: seq<RwTrace.RwOperation>)
    requires Parsed(c, h) && WholeMemory(choices) && Halts(EofEnv(c, h), choices, Start(EofEnv(c, h), gas))
    ensures exists n: nat, final: State ::
      && StopsWith(EofEnv(c, h), choices, Start(EofEnv(c, h), gas), n, status, final)
      && final.gas == gasLeft && final.trace == trace
  {
    hide ParseHeaders, HeaderOf, EofEnv, StopsWith, WholeMemory, Halts;
    var env := AnalyzeEof1(c, h);
    var state := new ExecutionState(env, gas);
    ghost var start := state.Abs(env.origin);
    state.Dispatch(choices);
    status, gasLeft, trace := state.status, state.gasLeft, state.rwTrace;
    ghost var n: nat, pos: int :| StopsWith(env, choices, start, n, status, state.Abs(pos));
    assert state.Abs(pos).gas == gasLeft && state.Abs(pos).trace == trace;
  }
}
