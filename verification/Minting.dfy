/**
 * What a gas operand that is read as negative does to whole executions: one that returns more gas than it was
 * given, and one that never ends.
 */
module Minting {
  import opened Bytes
  import opened Opcodes
  import opened MemoryGas
  import opened Words
  import opened Interpreter
  import opened LegacyCode
  import opened CallGas
  import opened Evaluation
  import opened Limits
  import opened Samples
  import EofSoundness

  /** Five zeros, the executing account, the operand 2^64 - 2634 and CALL: the account calls itself. */
  const CALL_ITSELF: seq<byte> :=
    [OP_PUSH1, 0, OP_PUSH1, 0, OP_PUSH1, 0, OP_PUSH1, 0, OP_PUSH1, 0, OP_ADDRESS,
     OP_PUSH8, 0xff, 0xff, 0xff, 0xff, 0xff, 0xff, 0xf5, 0xb6, OP_CALL]

  const OPERAND: Word := TWO_64 - 2634

  const MINTING_CODE := CALL_ITSELF + [OP_STOP]

  const LOOPING_CODE := [OP_JUMPDEST] + CALL_ITSELF + [OP_POP, OP_PUSH1, 0, OP_JUMP]

  /** The repository's host: every access is cold, the account exists and holds this code. */
  function HostOf(code: seq<byte>): Host {
    (path, k) => Reply(Answers(false, true, true, false, false), Holds(code), NOTHING)
  }

  /** The first n steps of the execution of code. */
  ghost function Execution(code: seq<byte>, gas: int, n: nat): Frame {
    Build(HostOf(code), [], 0, code, gas, n)
  }

  ghost function Outcome(code: seq<byte>, gas: int, n: nat): Interpreter.Outcome {
    var f := Execution(code, gas, n); Run(f.env, f.choices, StartOf(f), n)
  }

  /** After n steps the execution stands at pc with this stack, this gas and untouched memory. */
  ghost predicate At(code: seq<byte>, gas: int, n: nat, pc: int, stack: seq<Word>, left: int) {
    var o := Outcome(code, gas, n);
    o.Next? && o.s.pc == pc && o.s.stack == stack && o.s.gas == left && o.s.memory == []
  }

  // ---------------------------------------------------------------- one step of the execution

  lemma NextStep(code: seq<byte>, gas: int, n: nat)
    requires Outcome(code, gas, n).Next?
    ensures var f, host := Execution(code, gas, n), HostOf(code);
      Outcome(code, gas, n + 1)
      == Step(f.env, ChoiceOf(f, host([], n), CalleeOf(host, [], f)), Outcome(code, gas, n).s)
  {
    hide Run, Step, ChoiceOf, CalleeOf, HostOf;
    var f, host := Execution(code, gas, n), HostOf(code);
    var callee := CalleeOf(host, [], f);
    assert Execution(code, gas, n + 1) == Extend(f, host([], n), callee);
    Extended(f, host([], n), callee, n);
    StepInRun(f.env, Execution(code, gas, n + 1).choices, StartOf(f), n + 1);
  }

  /** Other instructions than calls and creations get the host's plain contribution. */
  lemma PlainStep(code: seq<byte>, gas: int, n: nat)
    requires Outcome(code, gas, n).Next?
    requires var s := Outcome(code, gas, n).s; 0 <= s.pc < |Padded(code)| && !IsNested(Padded(code)[s.pc])
    ensures Outcome(code, gas, n + 1) == Step(LegacyEnv(Shanghai, 0, code), NOTHING, Outcome(code, gas, n).s)
  {
    hide Run, Step, CheckRequirements, IsNested, Jumpdests, Padded;
    NextStep(code, gas, n);
  }

  lemma PopStep(env: Env, s: State)
    requires 0 <= s.pc < |env.code| && 1 <= |s.stack| < STACK_LIMIT && s.gas >= 8 && env.code[s.pc] == OP_POP
    ensures Step(env, NOTHING, s) == Next(s.(pc := s.pc + 1, gas := s.gas - 2, stack := s.stack[..|s.stack| - 1]))
  {
    hide KindOf, TraitsOf, Exec, Step, CheckRequirements, FrontierCost, Steady, KindFits;
    SimpleKinds();
    SteadyPrice(OP_POP);
    SteadyPasses(env, s.gas, |s.stack|, OP_POP);
    var charged := s.(gas := s.gas - 2);
    PassedStep(env, NOTHING, s, OP_POP, charged.gas);
    TraitsMatchImplementation(OP_POP);
    ExecHalting(env, NOTHING, charged, OP_POP);
  }

  lemma AddressStep(env: Env, s: State)
    requires 0 <= s.pc < |env.code| && |s.stack| < STACK_LIMIT && s.gas >= 8 && env.code[s.pc] == OP_ADDRESS
    ensures var o := Step(env, NOTHING, s);
      && o.Next? && o.s.pc == s.pc + 1 && o.s.gas == s.gas - 2 && o.s.stack == s.stack + [0]
      && o.s.memory == s.memory
  {
    hide KindOf, TraitsOf, Exec, Step, CheckRequirements, FrontierCost, Steady, KindFits;
    SimpleKinds();
    SteadyPrice(OP_ADDRESS);
    SteadyPasses(env, s.gas, |s.stack|, OP_ADDRESS);
    var charged := s.(gas := s.gas - 2);
    PassedStep(env, NOTHING, s, OP_ADDRESS, charged.gas);
    TraitsMatchImplementation(OP_ADDRESS);
    ExecStackMove(env, NOTHING, charged, OP_ADDRESS);
  }

  lemma JumpStep(env: Env, s: State)
    requires 0 <= s.pc < |env.code| && 1 <= |s.stack| < STACK_LIMIT && s.gas >= 8 && env.code[s.pc] == OP_JUMP
    requires s.stack[|s.stack| - 1] == 0 && 0 < |env.jumpdests| && env.jumpdests[0]
    ensures var o := Step(env, NOTHING, s);
      && o.Next? && o.s.pc == env.origin && o.s.gas == s.gas - 8 && o.s.stack == s.stack[..|s.stack| - 1]
      && o.s.memory == s.memory
  {
    hide KindOf, TraitsOf, Exec, Step, CheckRequirements, FrontierCost, Steady, KindFits;
    SimpleKinds();
    SteadyPrice(OP_JUMP);
    SteadyPasses(env, s.gas, |s.stack|, OP_JUMP);
    var charged := s.(gas := s.gas - 8);
    PassedStep(env, NOTHING, s, OP_JUMP, charged.gas);
    TraitsMatchImplementation(OP_JUMP);
    ExecControl(env, NOTHING, charged, OP_JUMP);
  }

  lemma SimpleKinds()
    ensures KindOf(OP_POP) == KDrop(1) && KindOf(OP_ADDRESS) == KEnvPush && KindOf(OP_JUMP) == KJump
    ensures KindOf(OP_JUMPDEST) == KDrop(0) && KindOf(OP_PUSH8) == KPush(8)
    ensures TraitsOf(OP_POP).stackHeightRequired == TraitsOf(OP_JUMP).stackHeightRequired == 1
    ensures TraitsOf(OP_ADDRESS).stackHeightRequired == TraitsOf(OP_JUMPDEST).stackHeightRequired == 0
    ensures TraitsOf(OP_PUSH8).stackHeightRequired == 0
    ensures Steady(OP_POP) && Steady(OP_ADDRESS) && Steady(OP_JUMP) && Steady(OP_JUMPDEST) && Steady(OP_PUSH8)
  {
  }

  lemma JumpdestStep(env: Env, s: State)
    requires 0 <= s.pc < |env.code| && |s.stack| < STACK_LIMIT && s.gas >= 8 && env.code[s.pc] == OP_JUMPDEST
    ensures Step(env, NOTHING, s) == Next(s.(pc := s.pc + 1, gas := s.gas - 1))
  {
    hide KindOf, TraitsOf, Exec, Step, CheckRequirements, FrontierCost, Steady, Drop, Advance, KindFits;
    SimpleKinds();
    SteadyPrice(OP_POP);
    SteadyPasses(env, s.gas, |s.stack|, OP_JUMPDEST);
    var charged := s.(gas := s.gas - 1);
    PassedStep(env, NOTHING, s, OP_JUMPDEST, charged.gas);
    TraitsMatchImplementation(OP_JUMPDEST);
    ExecHalting(env, NOTHING, charged, OP_JUMPDEST);
    DropNothing(charged);
  }

  lemma DropNothing(s: State)
    ensures Advance(Drop(s, 0), 1) == Next(s.(pc := s.pc + 1))
  {
    assert s.stack[..|s.stack|] == s.stack;
  }

  lemma PushEight(env: Env, s: State)
    requires 0 <= s.pc && s.pc + 8 < |env.code| && env.code[s.pc] == OP_PUSH8
    requires env.code[s.pc + 1..s.pc + 9] == [0xff, 0xff, 0xff, 0xff, 0xff, 0xff, 0xf5, 0xb6]
    requires |s.stack| < STACK_LIMIT && s.gas >= 8
    ensures var o := Step(env, NOTHING, s);
      && o.Next? && o.s.pc == s.pc + 9 && o.s.stack == s.stack + [OPERAND] && o.s.gas == s.gas - 3
      && o.s.memory == s.memory
  {
    hide KindOf, TraitsOf, Exec, Step, CheckRequirements, FrontierCost, Steady, ExecPush;
    SimpleKinds();
    SteadyPrice(OP_PUSH8);
    SteadyPasses(env, s.gas, |s.stack|, OP_PUSH8);
    var charged := s.(gas := s.gas - 3);
    PassedStep(env, NOTHING, s, OP_PUSH8, charged.gas);
    TraitsMatchImplementation(OP_PUSH8);
    ExecStackMove(env, NOTHING, charged, OP_PUSH8);
    EightBytes(env, charged);
  }

  lemma EightBytes(env: Env, s: State)
    requires 0 <= s.pc && s.pc + 8 < |env.code|
    requires env.code[s.pc + 1..s.pc + 9] == [0xff, 0xff, 0xff, 0xff, 0xff, 0xff, 0xf5, 0xb6]
    ensures var o := ExecPush(env, NOTHING, s, 8);
      && o.Next? && o.s.pc == s.pc + 9 && o.s.stack == s.stack + [OPERAND] && o.s.gas == s.gas
      && o.s.memory == s.memory
  {
    hide WriteTop, FromBytes;
    OperandValue();
    WriteTopShape(env, s.(stack := s.stack + [OPERAND]), 0, 8, NOTHING.stale);
  }

  lemma OperandValue()
    ensures FromBytes([0xff, 0xff, 0xff, 0xff, 0xff, 0xff, 0xf5, 0xb6]) == OPERAND
  {
    hide FromBytes, ToBytes, Pow256;
    var bytes: seq<byte> := [0xff, 0xff, 0xff, 0xff, 0xff, 0xff, 0xf5, 0xb6];
    FromPairs([0xff, 0xff], 0xff, 0xff);
    FromPairs([0xff, 0xff, 0xff, 0xff], 0xff, 0xff);
    FromPairs([0xff, 0xff, 0xff, 0xff, 0xff, 0xff], 0xf5, 0xb6);
    FromPairs([], 0xff, 0xff);
    EmptyIsZero();
    assert [] + [0xff, 0xff] == [0xff, 0xff];
    assert [0xff, 0xff] + [0xff, 0xff] == [0xff, 0xff, 0xff, 0xff];
    assert [0xff, 0xff, 0xff, 0xff] + [0xff, 0xff] == [0xff, 0xff, 0xff, 0xff, 0xff, 0xff];
    assert [0xff, 0xff, 0xff, 0xff, 0xff, 0xff] + [0xf5, 0xb6] == bytes;
  }

  lemma FromPairs(s: seq<byte>, a: byte, b: byte)
    ensures FromBytes(s + [a, b]) == FromBytes(s) * 0x1_0000 + a as int * 0x100 + b
  {
    var t := s + [a, b];
    assert t[..|t| - 1] == s + [a] && (s + [a])[..|s|] == s;
  }

  // ---------------------------------------------------------------- the call

  lemma CallCost(code: seq<byte>, gas: int, height: nat)
    requires gas >= 100 && 7 <= height < STACK_LIMIT
    ensures CheckRequirements(LegacyEnv(Shanghai, 0, code), gas, height, OP_CALL) == (None, gas - 100)
  {
    hide GasCost, Jumpdests, Padded;
    CallPrice();
    assert GasCost(Shanghai, OP_CALL) != GasCost(Frontier, OP_CALL);
  }

  lemma CallPrice()
    ensures GasCost(Frontier, OP_CALL) == 40 && GasCost(Shanghai, OP_CALL) == 100
  {
    assert GasCost(Berlin, OP_CALL) == 100;
    assert GasCost(Paris, OP_CALL) == 100;
  }

  /** The call is prepared with a message of -2634, whose execution fails, so the caller gains 134. */
  lemma CallPrepared(depth: nat, gas: int, stack: seq<Word>)
    requires gas >= 2500 && depth < MAX_DEPTH && |stack| == 7 && stack[0] == stack[1] == stack[2] == stack[3] == 0
    requires stack[4] == 0 && stack[6] == OPERAND
    ensures var p := PrepareCall(Shanghai, depth, Answers(false, true, true, false, false), gas, [], stack, OP_CALL);
      p == Made(gas - 2500, -2634) && AfterCall(p, 0) == gas + 134
  {
  }

  predicate CallStack(stack: seq<Word>) {
    |stack| == 7 && stack[0] == stack[1] == stack[2] == stack[3] == stack[4] == 0 && stack[6] == OPERAND
  }

  /** The callee's execution, entered with -2634 gas, gives none back. */
  lemma CalleeReturnsNone(code: seq<byte>, f: Frame)
    requires f.depth < MAX_DEPTH && Nests(f) && f.env == LegacyEnv(Shanghai, 0, code)
    requires Prepares(f, HostOf(code)([], f.steps).answers).Made?
    requires Prepares(f, HostOf(code)([], f.steps).answers).message == -2634
    ensures CalleeGas(CalleeOf(HostOf(code), [], f), -2634) == 0
  {
    hide Nests, Prepares, GasLeft, LegacyEnv, Fetches;
    var callee := CalleeOf(HostOf(code), [], f);
    LegacyFrameFetches(callee.frame, code, 0);
    NegativeReturnsNone(callee.frame);
  }

  /** What the outside world contributes to the call: 134 gas too many. */
  lemma CallChoice(code: seq<byte>, gas: int, n: nat, pc: int, stack: seq<Word>, left: int)
    requires At(code, gas, n, pc, stack, left) && CallStack(stack) && left >= 2600
    requires 0 <= pc < |Padded(code)| && Padded(code)[pc] == OP_CALL
    ensures var f, host := Execution(code, gas, n), HostOf(code);
      ChoiceOf(f, host([], n), CalleeOf(host, [], f)) == NOTHING.(failure := false, cost := -134)
  {
    hide Run, CheckRequirements, Jumpdests, CalleeOf, CalleeGas, PrepareCall, Padded;
    var f, host := Execution(code, gas, n), HostOf(code);
    CallCost(code, left, 7);
    assert Nests(f);
    CallPrepared(0, left - 100, stack);
    CalleeReturnsNone(code, f);
  }

  lemma CallStep(code: seq<byte>, gas: int, n: nat, pc: int, stack: seq<Word>, left: int)
    requires At(code, gas, n, pc, stack, left) && CallStack(stack) && left >= 2600
    requires 0 <= pc < |Padded(code)| && Padded(code)[pc] == OP_CALL
    ensures At(code, gas, n + 1, pc + 1, [0], left + 34)
  {
    hide Run, Step, CheckRequirements, Jumpdests, CalleeOf, ChoiceOf, KindOf, TraitsOf, Exec, Padded;
    NextStep(code, gas, n);
    CallChoice(code, gas, n, pc, stack, left);
    CallCost(code, left, 7);
    var s := Outcome(code, gas, n).s;
    var ch := NOTHING.(failure := false, cost := -134);
    var env := LegacyEnv(Shanghai, 0, code);
    PassedStep(env, ch, s, OP_CALL, left - 100);
    CallKind();
    TraitsMatchImplementation(OP_CALL);
    ExecAccess(env, ch, s.(gas := left - 100), OP_CALL);
  }

  lemma CallKind()
    ensures KindOf(OP_CALL) == KExternal(7, 1)
  {
  }

  // ---------------------------------------------------------------- the sequence

  lemma PushAt(code: seq<byte>, gas: int, n: nat, pc: int, stack: seq<Word>, left: int)
    requires At(code, gas, n, pc, stack, left) && |stack| < 8 && left >= 8
    requires 0 <= pc && pc + 1 < |Padded(code)| && Padded(code)[pc] == OP_PUSH1 && Padded(code)[pc + 1] == 0
    ensures At(code, gas, n + 1, pc + 2, stack + [0], left - 3)
  {
    hide Run, Step, Jumpdests, Padded, Execution;
    NotNested();
    PlainStep(code, gas, n);
    PushOne(LegacyEnv(Shanghai, 0, code), NOTHING, Outcome(code, gas, n).s);
  }

  lemma NotNested()
    ensures forall op :: op in {OP_PUSH1, OP_PUSH8, OP_ADDRESS, OP_POP, OP_JUMP, OP_JUMPDEST, OP_STOP} ==> !IsNested(op)
  {
  }

  lemma PushEightAt(code: seq<byte>, gas: int, n: nat, pc: int, stack: seq<Word>, left: int)
    requires At(code, gas, n, pc, stack, left) && |stack| < 8 && left >= 8
    requires 0 <= pc && pc + 8 < |Padded(code)| && Padded(code)[pc] == OP_PUSH8
    requires Padded(code)[pc + 1..pc + 9] == [0xff, 0xff, 0xff, 0xff, 0xff, 0xff, 0xf5, 0xb6]
    ensures At(code, gas, n + 1, pc + 9, stack + [OPERAND], left - 3)
  {
    hide Run, Step, Jumpdests, Padded, Execution;
    NotNested();
    PlainStep(code, gas, n);
    PushEight(LegacyEnv(Shanghai, 0, code), Outcome(code, gas, n).s);
  }

  lemma SimpleAt(code: seq<byte>, gas: int, n: nat, pc: int, stack: seq<Word>, left: int)
    requires At(code, gas, n, pc, stack, left) && 1 <= |stack| < 8 && left >= 8 && 0 <= pc < |Padded(code)|
    ensures Padded(code)[pc] == OP_ADDRESS ==> At(code, gas, n + 1, pc + 1, stack + [0], left - 2)
    ensures Padded(code)[pc] == OP_POP ==> At(code, gas, n + 1, pc + 1, stack[..|stack| - 1], left - 2)
    ensures Padded(code)[pc] == OP_JUMP && stack[|stack| - 1] == 0 && 0 < |code| && Jumpdests(code)[0] ==>
      At(code, gas, n + 1, 0, stack[..|stack| - 1], left - 8)
  {
    hide Run, Step, Jumpdests, Padded, Execution, IsNested;
    NotNested();
    var env, s, op := LegacyEnv(Shanghai, 0, code), Outcome(code, gas, n).s, Padded(code)[pc];
    if op in {OP_ADDRESS, OP_POP, OP_JUMP} { PlainStep(code, gas, n); }
    if op == OP_ADDRESS {
      AddressStep(env, s);
    } else if op == OP_POP {
      PopStep(env, s);
    } else if op == OP_JUMP && stack[|stack| - 1] == 0 && 0 < |code| && Jumpdests(code)[0] {
      JumpStep(env, s);
    }
  }

  /** The code from p on is the call sequence. */
  predicate CallsItselfAt(code: seq<byte>, p: nat) {
    p + 21 <= |code| && code[p..p + 21] == CALL_ITSELF
  }

  lemma SequenceBytes(code: seq<byte>, p: nat)
    requires CallsItselfAt(code, p)
    ensures |Padded(code)| > p + 21
    ensures var c := Padded(code);
      && (forall k :: 0 <= k < 5 ==> c[p + 2 * k] == OP_PUSH1 && c[p + 2 * k + 1] == 0)
      && c[p + 10] == OP_ADDRESS && c[p + 11] == OP_PUSH8 && c[p + 20] == OP_CALL
      && c[p + 12..p + 20] == [0xff, 0xff, 0xff, 0xff, 0xff, 0xff, 0xf5, 0xb6]
  {
    var c := Padded(code);
    forall k | 0 <= k < 21 ensures c[p + k] == CALL_ITSELF[k] {
      assert c[p + k] == code[p..p + 21][k];
    }
    forall k | 0 <= k < 5 ensures c[p + 2 * k] == OP_PUSH1 && c[p + 2 * k + 1] == 0 {
      assert c[p + 2 * k] == CALL_ITSELF[2 * k] && c[p + (2 * k + 1)] == CALL_ITSELF[2 * k + 1];
    }
    assert c[p..p + 21] == CALL_ITSELF;
    assert c[p + 12..p + 20] == c[p..p + 21][12..20] == CALL_ITSELF[12..20];
  }

  /** The stack as the sequence builds it up. */
  lemma StackGrows()
    ensures var none: seq<Word> := [];
      && none + [0] == [0] && none + [0] + [0] == [0, 0] && [0, 0] + [0] == [0, 0, 0]
      && [0, 0, 0] + [0] == [0, 0, 0, 0] && [0, 0, 0, 0] + [0] == [0, 0, 0, 0, 0]
      && [0, 0, 0, 0, 0] + [0] == [0, 0, 0, 0, 0, 0]
      && [0, 0, 0, 0, 0, 0] + [OPERAND] == [0, 0, 0, 0, 0, 0, OPERAND]
  {
  }

  /** Eight steps on, the call has failed, and there are 14 more units of gas than before. */
  lemma CallSequence(code: seq<byte>, gas: int, n: nat, p: nat, left: int)
    requires At(code, gas, n, p, [], left) && CallsItselfAt(code, p) && left >= 2620
    ensures At(code, gas, n + 8, p + 21, [0], left + 14)
  {
    hide At, Padded, Jumpdests;
    SequenceBytes(code, p);
    var c := Padded(code);
    assert c[p + 2 * 0] == OP_PUSH1 && c[p + 2 * 1] == OP_PUSH1 && c[p + 2 * 2] == OP_PUSH1;
    assert c[p + 2 * 3] == OP_PUSH1 && c[p + 2 * 4] == OP_PUSH1;
    StackGrows();
    PushAt(code, gas, n, p, [], left);
    PushAt(code, gas, n + 1, p + 2, [0], left - 3);
    PushAt(code, gas, n + 2, p + 4, [0, 0], left - 6);
    PushAt(code, gas, n + 3, p + 6, [0, 0, 0], left - 9);
    PushAt(code, gas, n + 4, p + 8, [0, 0, 0, 0], left - 12);
    SimpleAt(code, gas, n + 5, p + 10, [0, 0, 0, 0, 0], left - 15);
    PushEightAt(code, gas, n + 6, p + 11, [0, 0, 0, 0, 0, 0], left - 17);
    CallStep(code, gas, n + 7, p + 20, [0, 0, 0, 0, 0, 0, OPERAND], left - 20);
  }

  // ---------------------------------------------------------------- gas from nothing

  lemma StartsAt(code: seq<byte>, gas: int)
    ensures At(code, gas, 0, 0, [], gas)
  {
  }

  lemma StopStep(env: Env, s: State)
    requires 0 <= s.pc < |env.code| && |s.stack| < STACK_LIMIT && s.gas >= 0 && env.code[s.pc] == OP_STOP
    ensures Step(env, NOTHING, s) == Halt(Success, s, false)
  {
    hide KindOf, TraitsOf, Exec, Step, CheckRequirements;
    StopIsStop();
    StopPasses(env, s.gas, |s.stack|);
    PassedStep(env, NOTHING, s, OP_STOP, s.gas);
    TraitsMatchImplementation(OP_STOP);
    ExecHalting(env, NOTHING, s, OP_STOP);
  }

  /** A consistent call tree that returns 14 more units of gas than it was given. */
  lemma MintsGas(gas: int)
    requires gas >= 2620
    ensures var f := Execution(MINTING_CODE, gas, 9); Consistent(f) && f.gas == gas && GasLeft(f) == gas + 14
  {
    hide At, Step, Run, Jumpdests, Execution;
    var code := MINTING_CODE;
    StartsAt(code, gas);
    assert code[0..21] == CALL_ITSELF;
    CallSequence(code, gas, 0, 0, gas);
    assert Padded(code)[21] == OP_STOP;
    FinalStep(code, gas, 8, 21, [0], gas + 14);
    HostIsSane(code);
    ExecutionConsistent(code, gas, 9);
  }

  lemma FinalStep(code: seq<byte>, gas: int, n: nat, pc: int, stack: seq<Word>, left: int)
    requires At(code, gas, n, pc, stack, left) && |stack| < 8 && left >= 0
    requires 0 <= pc < |Padded(code)| && Padded(code)[pc] == OP_STOP
    ensures GasLeft(Execution(code, gas, n + 1)) == left
  {
    hide Run, Step, Jumpdests, Padded, IsNested;
    NotNested();
    PlainStep(code, gas, n);
    StopStep(LegacyEnv(Shanghai, 0, code), Outcome(code, gas, n).s);
  }

  lemma HostIsSane(code: seq<byte>)
    ensures Sane(HostOf(code))
  {
  }

  lemma ExecutionConsistent(code: seq<byte>, gas: int, n: nat)
    ensures Consistent(Execution(code, gas, n)) && Execution(code, gas, n).gas == gas
  {
    hide Consistent, Sane;
    HostIsSane(code);
    BuildConsistent(HostOf(code), [], 0, code, gas, n);
  }

  // ---------------------------------------------------------------- no end

  lemma LoopBytes()
    ensures CallsItselfAt(LOOPING_CODE, 1) && |LOOPING_CODE| == 26 && Jumpdests(LOOPING_CODE)[0]
    ensures |Padded(LOOPING_CODE)| == 59
    ensures var c := Padded(LOOPING_CODE);
      && c[0] == OP_JUMPDEST && c[22] == OP_POP && c[23] == OP_PUSH1 && c[24] == 0 && c[25] == OP_JUMP
  {
    assert LOOPING_CODE[1..22] == CALL_ITSELF;
    DecodesSelf(LOOPING_CODE);
  }

  lemma JumpdestAt(code: seq<byte>, gas: int, n: nat, pc: int, stack: seq<Word>, left: int)
    requires At(code, gas, n, pc, stack, left) && |stack| < 8 && left >= 8
    requires 0 <= pc < |Padded(code)| && Padded(code)[pc] == OP_JUMPDEST
    ensures At(code, gas, n + 1, pc + 1, stack, left - 1)
  {
    hide Run, Step, Jumpdests, Padded, Execution, IsNested;
    NotNested();
    PlainStep(code, gas, n);
    JumpdestStep(LegacyEnv(Shanghai, 0, code), Outcome(code, gas, n).s);
  }

  /** Twelve steps lead back to the start with the same gas. */
  lemma Round(gas: int, n: nat, left: int)
    requires At(LOOPING_CODE, gas, n, 0, [], left) && left >= 2621
    ensures At(LOOPING_CODE, gas, n + 12, 0, [], left)
  {
    hide At, Padded, Jumpdests;
    LoopBytes();
    var code := LOOPING_CODE;
    JumpdestAt(code, gas, n, 0, [], left);
    CallSequence(code, gas, n + 1, 1, left - 1);
    SimpleAt(code, gas, n + 9, 22, [0], left + 13);
    assert [0][..0] == [] && [] + [0] == [0];
    PushAt(code, gas, n + 10, 23, [], left + 11);
    SimpleAt(code, gas, n + 11, 25, [0], left + 8);
  }

  lemma {:induction false} Rounds(gas: int, r: nat)
    requires gas >= 2621
    ensures At(LOOPING_CODE, gas, 12 * r, 0, [], gas)
  {
    hide At;
    if r == 0 {
      StartsAt(LOOPING_CODE, gas);
    } else {
      Rounds(gas, r - 1);
      Round(gas, 12 * (r - 1), gas);
    }
  }

  lemma {:induction false} EarlierGoesOn(code: seq<byte>, gas: int, m: nat, n: nat)
    requires m <= n && Outcome(code, gas, n).Next?
    ensures Outcome(code, gas, m).Next?
    decreases n
  {
    hide Step, Extend, CalleeOf, HostOf;
    if m < n {
      var f, host := Execution(code, gas, n - 1), HostOf(code);
      Extended(f, host([], n - 1), CalleeOf(host, [], f), n - 1);
      EarlierGoesOn(code, gas, m, n - 1);
    }
  }

  /**
   * `evaluate` need not terminate: with 2621 units of gas or more the execution of these 26 bytes, consistent
   * with every nested execution having failed, goes on after any number of steps.
   */
  lemma NeverEnds(gas: int, n: nat)
    requires gas >= 2621
    ensures var f := Execution(LOOPING_CODE, gas, n);
      Consistent(f) && Run(f.env, f.choices, StartOf(f), n).Next?
  {
    hide Execution, Consistent, Run;
    ExecutionConsistent(LOOPING_CODE, gas, n);
    Rounds(gas, n);
    EarlierGoesOn(LOOPING_CODE, gas, n, 12 * n);
  }
}
