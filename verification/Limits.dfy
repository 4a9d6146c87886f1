/**
 * Programs on which the code does not meet a property of the other modules: an accepted container whose first
 * step reads past it, a push that reads in front of the stack, and runs whose traces no memory explains.
 */
module Limits {
  import opened Bytes
  import opened Opcodes
  import opened EofInstructions
  import opened EofHeader
  import opened EofStackHeight
  import opened EofValidation
  import opened Words
  import opened RwTrace
  import opened Interpreter
  import EofSoundness
  import opened EofContainer
  import opened LegacyCode
  import opened Accesses
  import opened MemorySafety
  import opened TraceConsistency

  // ---------------------------------------------------------------- a load past the container

  /** PUSH5 01 02 03 04 05 and STOP: one section of seven bytes, and nothing after it. */
  const OVER_READING: seq<byte> :=
    [0xef, 0x00, 0x01, 0x01, 0x00, 0x04, 0x02, 0x00, 0x01, 0x00, 0x07, 0x04, 0x00, 0x00, 0x00,
     0x00, 0x80, 0x00, 0x01, OP_PUSH5, 0x01, 0x02, 0x03, 0x04, 0x05, OP_STOP]

  const OVER_READING_HEADERS := Headers(4, [7], 0)

  const OVER_READING_SECTION :=
    Section([OP_PUSH5, 0x01, 0x02, 0x03, 0x04, 0x05, OP_STOP], 0, [EofCodeType(0, NON_RETURNING, 1)], 0)

  lemma OverReadingSizes()
    ensures ParseSizes(OVER_READING, 9, 1) == Ok([7]) && Sum([7]) == 7
  {
    var c := OVER_READING;
    assert ParseSizes(c, 11, 0) == Ok([]);
    assert c[9] == 0 && c[10] == 7 && U16(c, 9) == 7;
    var none: seq<nat> := [];
    assert [U16(c, 9)] + none == [7];
    assert Sum([7][1..]) == 0;
  }

  lemma OverReadingHeader()
    ensures ParseHeaders(OVER_READING) == Ok(OVER_READING_HEADERS)
  {
    hide ParseSizes, Sum;
    OverReadingSizes();
    var c := OVER_READING;
    assert c[3] == TYPE_SECTION && U16(c, 4) == 4 && c[6] == CODE_SECTION && U16(c, 7) == 1;
    assert c[11] == DATA_SECTION && U16(c, 12) == 0 && c[14] == TERMINATOR;
  }

  lemma OverReadingParsed()
    ensures Parsed(OVER_READING, OVER_READING_HEADERS)
    ensures SectionOf(OVER_READING, OVER_READING_HEADERS, 0) == OVER_READING_SECTION
    ensures HeaderOf(OVER_READING, OVER_READING_HEADERS).types == OVER_READING_SECTION.types
    ensures HeaderOf(OVER_READING, OVER_READING_HEADERS).codeOffsets == [19]
  {
    hide ParseHeaders;
    OverReadingHeader();
    var c, h := OVER_READING, OVER_READING_HEADERS;
    assert StoredOffsets(h) == [19] by { assert h.codeSizes[..0] == []; }
    assert c[15] == 0 && c[16] == NON_RETURNING && c[17] == 0 && c[18] == 1;
    assert ReadType(c, 15) == EofCodeType(0, NON_RETURNING, 1);
    assert TypesAt(c, 15, 1) == [EofCodeType(0, NON_RETURNING, 1)];
    assert c[19..26] == OVER_READING_SECTION.code;
  }

  lemma OverReadingStarts(k: nat)
    ensures IsStart(OVER_READING_SECTION.code, k) <==> k == 0 || k == 6
  {
    var code := OVER_READING_SECTION.code;
    assert NextInstr(code, 0) == 6 && NextInstr(code, 6) == 7;
    assert DecodesTo(code, 6, k) <==> k == 6 || k == 7;
  }

  lemma OverReadingCosts()
    ensures CostTable(Prague, true, OP_PUSH5) == 3 && CostTable(Prague, true, OP_STOP) == 0
  {
    hide GasCost;
    forall r ensures Override(r, OP_PUSH5) == None && Override(r, OP_STOP) == None {}
    NeverOverridden(Prague, OP_PUSH5);
    NeverOverridden(Prague, OP_STOP);
  }

  lemma OverReadingChecked()
    ensures Checked(OVER_READING_SECTION)
  {
    hide GasCost, DecodesTo, IsStart;
    var s := OVER_READING_SECTION;
    OverReadingCosts();
    forall i: nat ensures IsStart(s.code, i) <==> i == 0 || i == 6 { OverReadingStarts(i); }
    assert InstructionError(s, 0) == None && InstructionError(s, 6) == None;
    assert !ReturnsAt(s, 0) && !ReturnsAt(s, 6);
    assert TargetsOk(s.code, 0) && TargetsOk(s.code, 6);
  }

  /** The heights the worklist would find: nothing before the PUSH5, one item before the STOP. */
  lemma OverReadingHeights()
    ensures StackOk(OVER_READING_SECTION, 1)
  {
    hide DecodesTo, IsStart, Checked;
    var s := OVER_READING_SECTION;
    var hs := [0, LOC_IMMEDIATE, LOC_IMMEDIATE, LOC_IMMEDIATE, LOC_IMMEDIATE, LOC_IMMEDIATE, 1];
    OverReadingChecked();
    forall k: nat ensures IsStart(s.code, k) <==> k == 0 || k == 6 { OverReadingStarts(k); }
    StartReachable(s);
    assert Successors(s, 0) == [6] && Successors(s, 6) == [];
    assert 6 in Successors(s, 0);
    assert Edge(s, Config(0, 0), Config(6, 1));
    ReachableStep(s, Config(0, 0), Config(6, 1));
    assert Done(s, hs, 0) && Done(s, hs, 6);
    FullyVisited(s, hs);
    assert MaxElement(hs) == 1;
  }

  lemma OverReadingAccepted()
    ensures HasEof1Prefix(OVER_READING) && Accepted(OVER_READING, OVER_READING_HEADERS)
  {
    hide ParseHeaders, StackOk, IsStart, InstructionsOk, RjumpsOk, SectionOf;
    OverReadingParsed();
    OverReadingChecked();
    OverReadingHeights();
  }

  /** This container passes validation, and its first step reads two bytes past its end. */
  lemma OverReadingFaults(choices: nat -> Choice, s: State)
    ensures HasEof1Prefix(OVER_READING) && Accepted(OVER_READING, OVER_READING_HEADERS)
    ensures EofSoundness.Initial(EofEnv(OVER_READING, OVER_READING_HEADERS), s) && s.gas >= 3 ==>
      Run(EofEnv(OVER_READING, OVER_READING_HEADERS), choices, s, 1).Fault?
  {
    OverReadingAccepted();
    OverReadingParsed();
    if EofSoundness.Initial(EofEnv(OVER_READING, OVER_READING_HEADERS), s) && s.gas >= 3 {
      OverReadingStep(choices, s);
    }
  }

  lemma OverReadingStep(choices: nat -> Choice, s: State)
    requires Parsed(OVER_READING, OVER_READING_HEADERS)
    requires EofSoundness.Initial(EofEnv(OVER_READING, OVER_READING_HEADERS), s) && s.gas >= 3
    ensures Run(EofEnv(OVER_READING, OVER_READING_HEADERS), choices, s, 1).Fault?
  {
    hide Step, CheckRequirements, Parsed, HeaderOf, Run;
    OverReadingParsed();
    var env := EofEnv(OVER_READING, OVER_READING_HEADERS);
    assert s.pc == 19 && env.code[19] == OP_PUSH5 && |env.code| == 26;
    FirstPushPasses(env, s.gas);
    HarmfulFaults(env, choices(0), s);
    FirstState(env, choices, s);
    StepInRun(env, choices, s, 1);
  }

  lemma FirstPushPasses(env: Env, gas: int)
    requires gas >= 3
    ensures CheckRequirements(env, gas, 0, OP_PUSH5).0 == None
  {
    hide BaseCost, HasConstGasCost, GasCost;
    SteadyCost(env, OP_PUSH5);
  }

  // ---------------------------------------------------------------- a read in front of the stack array

  /** PUSH2 00 01 */
  const SHALLOW_CODE: seq<byte> := [OP_PUSH1 + 1, 0x00, 0x01]

  /** The first step reads slot -1 and continues, although the code has no indexed DUP or SWAP. */
  lemma ShallowPush(rev: Revision, callId: nat, choices: nat -> Choice, s: State)
    requires EofSoundness.Initial(LegacyEnv(rev, callId, SHALLOW_CODE), s) && s.gas >= 8
    ensures FreeOfIndexed(rev, SHALLOW_CODE)
    ensures var env := LegacyEnv(rev, callId, SHALLOW_CODE);
      && AccessesOutside(env, choices, s, 0) && Run(env, choices, s, 1).Next?
      && |Run(env, choices, s, 1).s.trace| == |s.trace| + 2
      && Run(env, choices, s, 1).s.trace[|s.trace| + 1].address == 0xffff
  {
    hide Step, Run, KindOf, TraitsOf, Exec, CheckRequirements, ExecPush, Jumpdests, AccessesOutside, StaysInside;
    hide FrontierCost, Stuck, NeverSkips, LegacyStart;
    var env := LegacyEnv(rev, callId, SHALLOW_CODE);
    var op := env.code[0];
    FirstState(env, choices, s);
    TwoPush();
    SteadyPasses(env, s.gas, 0, op);
    PassedStep(env, choices(0), s, op, s.gas - FrontierCost(op));
    TraitsMatchImplementation(op);
    var charged := s.(gas := s.gas - FrontierCost(op));
    ExecStackMove(env, choices(0), charged, op);
    TwoRecords(env, choices(0), charged);
    StepInRun(env, choices, s, 1);
    LegacyAccessesExactly(rev, callId, SHALLOW_CODE, choices, s, 0);
  }

  lemma TwoPush()
    ensures KindOf(OP_PUSH1 + 1) == KPush(2) && TraitsOf(OP_PUSH1 + 1).stackHeightRequired == 0 && Steady(OP_PUSH1 + 1)
  {
  }

  lemma TwoRecords(env: Env, ch: Choice, s: State)
    requires s.pc == 0 && s.stack == [] && |env.code| > 2
    ensures var o := ExecPush(env, ch, s, 2);
      o.Next? && |o.s.trace| == |s.trace| + 2 && o.s.trace[|s.trace| + 1].address == 0xffff
  {
    hide WordFromBytes;
    var pushed := s.(stack := [WordFromBytes(env.code[1..3])]);
    var record := StackOperation(env.callId, 0, |pushed.trace|, true, pushed.stack[0]);
    var first := pushed.(trace := pushed.trace + [record]);
    assert WriteTop(env, pushed, 0, 2, ch.stale) == WriteTop(env, first, 1, 2, ch.stale);
    assert (-1) % 0x1_0000 == 0xffff;
  }

  // ---------------------------------------------------------------- traces that nothing explains

  lemma SteadyPasses(env: Env, gas: int, height: nat, op: byte)
    requires Steady(op) && gas >= 8 && TraitsOf(op).stackHeightRequired <= height < STACK_LIMIT
    ensures CheckRequirements(env, gas, height, op) == (None, gas - FrontierCost(op))
  {
    hide BaseCost, HasConstGasCost, TraitsOf, FrontierCost;
    SteadyCost(env, op);
    SteadyPrice(op);
  }

  lemma SteadyPrice(op: byte)
    requires Steady(op)
    ensures 0 < FrontierCost(op) <= 8
    ensures OP_PUSH1 <= op < 0xa0 ==> FrontierCost(op) == 3
    ensures FrontierCost(OP_MULMOD) == FrontierCost(OP_JUMP) == 8
    ensures FrontierCost(OP_ADDRESS) == FrontierCost(OP_POP) == 2 && FrontierCost(OP_JUMPDEST) == 1
  {
  }

  lemma PushOne(env: Env, ch: Choice, s: State)
    requires 0 <= s.pc && s.pc + 1 < |env.code| && env.code[s.pc] == OP_PUSH1
    requires |s.stack| < STACK_LIMIT && s.gas >= 8
    ensures var o := Step(env, ch, s);
      && o.Next? && o.s.pc == s.pc + 2 && o.s.stack == s.stack + [env.code[s.pc + 1]] && o.s.gas == s.gas - 3
      && o.s.memory == s.memory
  {
    hide KindOf, TraitsOf, Exec, Step, CheckRequirements, ExecPush, KindFits, FrontierCost, Steady;
    OnePush();
    SteadyPasses(env, s.gas, |s.stack|, OP_PUSH1);
    SteadyPrice(OP_PUSH1);
    PassedStep(env, ch, s, OP_PUSH1, s.gas - 3);
    TraitsMatchImplementation(OP_PUSH1);
    var charged := s.(gas := s.gas - 3);
    ExecStackMove(env, ch, charged, OP_PUSH1);
    OneByte(env, ch, charged);
  }

  lemma OnePush()
    ensures KindOf(OP_PUSH1) == KPush(1) && TraitsOf(OP_PUSH1).stackHeightRequired == 0 && Steady(OP_PUSH1)
  {
  }

  lemma OneByte(env: Env, ch: Choice, s: State)
    requires 0 <= s.pc && s.pc + 1 < |env.code|
    ensures var o := ExecPush(env, ch, s, 1);
      && o.Next? && o.s.pc == s.pc + 2 && o.s.stack == s.stack + [env.code[s.pc + 1]] && o.s.gas == s.gas
      && o.s.memory == s.memory
  {
    hide WriteTop;
    var data := env.code[s.pc + 1..s.pc + 2];
    assert data == [env.code[s.pc + 1]];
    assert FromBytes(data) == env.code[s.pc + 1] by { assert FromBytes(data[..0]) == 0; }
    WriteTopShape(env, s.(stack := s.stack + [WordFromBytes(data)]), 0, 1, ch.stale);
  }

  lemma ShuffleContinues(env: Env, ch: Choice, s: State)
    requires 0 <= s.pc < |env.code| && |s.stack| < STACK_LIMIT && s.gas >= 8
    requires var op := env.code[s.pc];
      op in {OP_MULMOD, OP_SWAP1, OP_DUP1, OP_DUP1 + 1} && TraitsOf(op).stackHeightRequired <= |s.stack|
    ensures var o, op := Step(env, ch, s), env.code[s.pc];
      && o.Next? && o.s.pc == s.pc + 1 && o.s.gas == s.gas - (if op == OP_MULMOD then 8 else 3)
      && |o.s.stack| == |s.stack| + TraitsOf(op).stackHeightChange
  {
    hide KindOf, TraitsOf, Exec, Step, CheckRequirements, ExecMulMod, ExecSwap, ExecDup, FrontierCost;
    var op := env.code[s.pc];
    SteadyPrice(op);
    SteadyPasses(env, s.gas, |s.stack|, op);
    var charged := s.(gas := s.gas - if op == OP_MULMOD then 8 else 3);
    PassedStep(env, ch, s, op, charged.gas);
    TraitsMatchImplementation(op);
    ShuffleKinds(op);
    ExecStackMove(env, ch, charged, op);
    ExecArithmetic(env, ch, charged, op);
    ShuffleTraits();
    ShuffleEffects(env, charged);
  }

  lemma ShuffleEffects(env: Env, s: State)
    ensures |s.stack| >= 3 ==> var o := ExecMulMod(env, s);
      o.Next? && o.s.pc == s.pc + 1 && o.s.gas == s.gas && |o.s.stack| == |s.stack| - 2
    ensures |s.stack| >= 2 ==> var o := ExecSwap(env, s, 1);
      o.Next? && o.s.pc == s.pc + 1 && o.s.gas == s.gas && |o.s.stack| == |s.stack|
    ensures forall n :: 1 <= n <= |s.stack| ==> var o := ExecDup(env, s, n);
      o.Next? && o.s.pc == s.pc + 1 && o.s.gas == s.gas && |o.s.stack| == |s.stack| + 1
  {
    hide MulMod;
  }

  /** 5, 2 and 3 on the stack, 3 * 2 mod 5, and a copy of the result. */
  const MULMOD_CODE: seq<byte> := [OP_PUSH1, 5, OP_PUSH1, 2, OP_PUSH1, 3, OP_MULMOD, OP_DUP1]

  /** 1 and 2 on the stack, exchanged, and a copy of the lower one. */
  const SWAP_CODE: seq<byte> := [OP_PUSH1, 1, OP_PUSH1, 2, OP_SWAP1, OP_DUP1 + 1]

  lemma MulModUnexplained(rev: Revision, callId: nat, choices: nat -> Choice, s: State)
    requires EofSoundness.Initial(LegacyEnv(rev, callId, MULMOD_CODE), s) && s.gas >= 25
    ensures var o := Run(LegacyEnv(rev, callId, MULMOD_CODE), choices, s, 5);
      o.Next? && Unexplained(o.s.trace) && !exists m0 :: TimeConsistent(m0, o.s.trace)
  {
    hide Step, Run, Unexplained, Jumpdests, TraitsOf;
    var env := LegacyEnv(rev, callId, MULMOD_CODE);
    FirstState(env, choices, s);
    forall e: nat | 0 < e <= 5 && Run(env, choices, s, e - 1).Next?
      ensures Run(env, choices, s, e) == Step(env, choices(e - 1), Run(env, choices, s, e - 1).s)
    {
      StepInRun(env, choices, s, e);
    }
    ShuffleTraits();
    PushOne(env, choices(0), s);
    PushOne(env, choices(1), Run(env, choices, s, 1).s);
    PushOne(env, choices(2), Run(env, choices, s, 2).s);
    var t := Run(env, choices, s, 3).s;
    assert t.stack == [5, 2, 3];
    ShuffleContinues(env, choices(3), t);
    ShuffleContinues(env, choices(4), Run(env, choices, s, 4).s);
    MulModThenDup(env, choices(3), choices(4), t);
    UnexplainedNow(Run(env, choices, s, 5).s.trace);
  }

  lemma FirstState(env: Env, choices: nat -> Choice, s: State)
    ensures Run(env, choices, s, 0) == Next(s)
  {
  }

  lemma ShuffleTraits()
    ensures TraitsOf(OP_MULMOD) == Traits(0, false, 3, -2) && TraitsOf(OP_SWAP1) == Traits(0, false, 2, 0)
    ensures TraitsOf(OP_DUP1) == Traits(0, false, 1, 1) && TraitsOf(OP_DUP1 + 1) == Traits(0, false, 2, 1)
  {
  }

  lemma SwapUnexplained(rev: Revision, callId: nat, choices: nat -> Choice, s: State)
    requires EofSoundness.Initial(LegacyEnv(rev, callId, SWAP_CODE), s) && s.gas >= 17
    ensures var o := Run(LegacyEnv(rev, callId, SWAP_CODE), choices, s, 4);
      o.Next? && Unexplained(o.s.trace) && !exists m0 :: TimeConsistent(m0, o.s.trace)
  {
    hide Step, Run, Unexplained, Jumpdests, TraitsOf;
    var env := LegacyEnv(rev, callId, SWAP_CODE);
    FirstState(env, choices, s);
    forall e: nat | 0 < e <= 4 && Run(env, choices, s, e - 1).Next?
      ensures Run(env, choices, s, e) == Step(env, choices(e - 1), Run(env, choices, s, e - 1).s)
    {
      StepInRun(env, choices, s, e);
    }
    ShuffleTraits();
    PushOne(env, choices(0), s);
    PushOne(env, choices(1), Run(env, choices, s, 1).s);
    var t := Run(env, choices, s, 2).s;
    assert t.stack == [1, 2];
    ShuffleContinues(env, choices(2), t);
    ShuffleContinues(env, choices(3), Run(env, choices, s, 3).s);
    SwapThenDup(env, choices(2), choices(3), t, 1);
    UnexplainedNow(Run(env, choices, s, 4).s.trace);
  }
}
