/**
 * Legacy code: padding, jump destination analysis, and the safety and termination of the interpreter loop
 * on any code whatever.
 */
module LegacyCode {
  import opened Bytes
  import opened Opcodes
  import opened EofInstructions
  import opened Interpreter
  import opened EofSoundness
  import opened ExecutionState
  import RwTrace
  import Words

  const PADDING := 32 + 1

  // ---------------------------------------------------------------- the linear decode

  predicate IsPush(op: byte) {
    OP_PUSH1 <= op <= OP_PUSH32
  }

  /** The instruction after the one at i: only PUSH1 to PUSH32 carry data. */
  function NextLegacy(code: seq<byte>, i: nat): (next: nat)
    requires i < |code|
    ensures i < next <= i + 33
  {
    if IsPush(code[i]) then i + 1 + (code[i] - 0x5f) else i + 1
  }

  predicate LegacyDecodes(code: seq<byte>, from: nat, k: nat)
    decreases |code| - from
  {
    from == k || (from < |code| && from < k && LegacyDecodes(code, NextLegacy(code, from), k))
  }

  predicate LegacyStart(code: seq<byte>, k: nat) {
    k < |code| && LegacyDecodes(code, 0, k)
  }

  lemma {:induction false} LegacyStep(code: seq<byte>, from: nat, i: nat)
    requires LegacyDecodes(code, from, i) && i < |code|
    ensures LegacyDecodes(code, from, NextLegacy(code, i))
    decreases |code| - from
  {
    if from != i {
      LegacyStep(code, NextLegacy(code, from), i);
    } else {
      assert LegacyDecodes(code, NextLegacy(code, i), NextLegacy(code, i));
    }
  }

  lemma {:induction false} NoLegacyInside(code: seq<byte>, from: nat, i: nat, x: nat)
    requires LegacyDecodes(code, from, i) && i < |code| && i < x < NextLegacy(code, i)
    ensures !LegacyDecodes(code, from, x)
    decreases |code| - from
  {
    if from != i {
      NoLegacyInside(code, NextLegacy(code, from), i, x);
    }
  }

  // ---------------------------------------------------------------- jump destinations

  /** A JUMPDEST byte that is an instruction, not push data. */
  predicate IsJumpdest(code: seq<byte>, i: nat) {
    LegacyStart(code, i) && code[i] == OP_JUMPDEST
  }

  function Jumpdests(code: seq<byte>): (m: seq<bool>)
    ensures |m| == |code| && forall i :: 0 <= i < |m| ==> m[i] == IsJumpdest(code, i)
  {
    seq(|code|, i requires 0 <= i < |code| => IsJumpdest(code, i))
  }

  method AnalyzeJumpdests(code: seq<byte>) returns (jumpdests: array<bool>)
    ensures fresh(jumpdests) && jumpdests[..] == Jumpdests(code)
  {
    hide LegacyDecodes;
    jumpdests := new bool[|code|](_ => false);
    assert LegacyDecodes(code, 0, 0) by { DecodesSelf(code); }
    var i := 0;
    while i < |code|
      invariant 0 <= i && LegacyDecodes(code, 0, i)
      invariant forall k :: 0 <= k < |code| ==> jumpdests[k] == (k < i && IsJumpdest(code, k))
    {
      ghost var start := i;
      var op := code[i];
      LegacyStep(code, 0, start);
      // Read as a signed byte, every opcode from 0x80 up is negative.
      if Int8(op) >= OP_PUSH1 as int {
        i := i + (op as int - (OP_PUSH1 as int - 1));
      } else if op == OP_JUMPDEST {
        jumpdests[i] := true;
      }
      i := i + 1;
      assert i == NextLegacy(code, start);
      forall k | start < k < i && k < |code|
        ensures !IsJumpdest(code, k)
      {
        NoLegacyInside(code, 0, start, k);
      }
    }
  }

  lemma DecodesSelf(code: seq<byte>)
    ensures LegacyDecodes(code, 0, 0)
  {
  }

  function Padded(code: seq<byte>): seq<byte> {
    code + seq(PADDING, _ => OP_STOP)
  }

  method PadCode(code: seq<byte>) returns (padded: array<byte>)
    ensures fresh(padded) && padded[..] == Padded(code)
  {
    padded := new byte[|code| + PADDING];
    forall i | 0 <= i < |code| {
      padded[i] := code[i];
    }
    forall i | |code| <= i < |code| + PADDING {
      padded[i] := OP_STOP;
    }
    assert padded[..] == Padded(code);
  }

  // ---------------------------------------------------------------- what the interpreter is given

  function LegacyEnv(rev: Revision, callId: nat, code: seq<byte>): Env {
    Env(rev, false, callId, Padded(code), 0, Jumpdests(code), [], [], [])
  }

  /** `analyze_legacy` */
  method AnalyzeLegacy(rev: Revision, callId: nat, code: seq<byte>) returns (env: Env)
    ensures env == LegacyEnv(rev, callId, code) && env.origin == 0
  {
    var padded := PadCode(code);
    var jumpdests := AnalyzeJumpdests(code);
    env := Env(rev, false, callId, padded[..], 0, jumpdests[..], [], [], []);
  }

  // ---------------------------------------------------------------- the invariant of the loop

  /** Every reachable state of the loop, for code of n bytes. */
  ghost predicate LegacyInv(code: seq<byte>, s: State) {
    && 0 <= s.pc <= |code| + 32 && |s.stack| <= STACK_LIMIT && s.callStack == []
  }

  /** Before Prague, control never enters push data. */
  ghost predicate OnInstruction(code: seq<byte>, s: State) {
    s.pc >= |code| || (0 <= s.pc && LegacyStart(code, s.pc))
  }

  lemma FetchInside(env: Env, code: seq<byte>, s: State)
    requires env.code == Padded(code) && LegacyInv(code, s)
    ensures 0 <= s.pc < |env.code| && ImmediateInside(env, s, env.code[s.pc])
    ensures s.pc >= |code| ==> env.code[s.pc] == OP_STOP
    ensures s.pc < |code| ==> env.code[s.pc] == code[s.pc]
  {
    ImmediateSmall(env.code[s.pc]);
  }

  lemma ImmediateSmall(op: byte)
    ensures TraitsOf(op).immediateSize <= 32
    ensures TraitsOf(OP_STOP).immediateSize == 0
    ensures TraitsOf(op).stackHeightChange <= 1
    ensures IsPush(op) ==> TraitsOf(op).immediateSize == op - 0x5f
    ensures !IsPush(op) && TraitsOf(op).immediateSize != 0 ==> OP_RJUMP <= op <= OP_DATALOADN
  {
  }

  /** Legacy code never executes an EOF-only instruction: the check refuses it first. */
  lemma NoEofInstruction(env: Env, gas: int, height: nat, op: byte)
    requires !env.isEof && CheckRequirements(env, gas, height, op).0 == None
    ensures OP_RJUMP <= op <= OP_DATALOADN ==> env.rev == Prague && (op == OP_DUPN || op == OP_SWAPN)
  {
    hide TraitsOf, GasCost, HasConstGasCost;
    if OP_RJUMP <= op <= OP_DATALOADN {
      PragueOnly(env.rev, op);
      PragueNotConstant(op);
    }
  }

  lemma LegacyControl(env: Env, gas: int, height: nat, op: byte)
    requires !env.isEof && CheckRequirements(env, gas, height, op).0 == None && IsControl(KindOf(op))
    ensures op == OP_JUMP || op == OP_JUMPI
  {
    hide KindOf, CheckRequirements;
    ControlKinds(op);
    NoEofInstruction(env, gas, height, op);
  }

  /** JUMPI does not jump exactly if the low 64 bits of its condition are zero. */
  predicate FallsPast(s: State, op: byte) {
    op == OP_JUMPI && |s.stack| >= 2 && s.stack[|s.stack| - 2] % TWO_64 == 0
  }

  /** JUMP and JUMPI, in legacy terms: past a JUMPI, or to the marked destination on top, or a bad destination. */
  lemma JumpEffect(env: Env, ch: Choice, s: State, op: byte)
    requires |s.stack| >= TraitsOf(op).stackHeightRequired && (op == OP_JUMP || op == OP_JUMPI) && env.origin == 0
    ensures |s.stack| >= 1
    ensures var o, dst := Exec(env, ch, s, op), Low64(s.stack[|s.stack| - 1]);
      && !o.Fault?
      && (o.Halt? <==> !FallsPast(s, op) && !(dst < |env.jumpdests| && env.jumpdests[dst]))
      && (o.Halt? ==> o.status == BadJumpDestination)
      && (o.Next? ==>
            && o.s.callStack == s.callStack && |o.s.stack| <= |s.stack|
            && o.s.pc == if FallsPast(s, op) then s.pc + 1 else dst)
  {
    hide KindOf, TraitsOf, Exec;
    ControlKinds(op);
    TraitsMatchImplementation(op);
    ExecControl(env, ch, s, op);
  }

  /** Where a step may continue. */
  ghost predicate LegacyMove(env: Env, code: seq<byte>, s: State, s': State)
    requires 0 <= s.pc < |env.code|
  {
    var op := env.code[s.pc];
    && s'.callStack == s.callStack
    && (s'.pc == s.pc + 1 + TraitsOf(op).immediateSize || (0 <= s'.pc < |code| && IsJumpdest(code, s'.pc)))
    && (OP_RJUMP <= op <= OP_DATALOADN ==> env.rev == Prague && (op == OP_DUPN || op == OP_SWAPN))
    && op != OP_STOP
    && |s'.stack| <= STACK_LIMIT
  }

  lemma LegacyExec(env: Env, code: seq<byte>, ch: Choice, s: State, op: byte)
    requires env.code == Padded(code) && env.origin == 0 && env.jumpdests == Jumpdests(code) && !env.isEof
    requires LegacyInv(code, s)
    requires env.code[s.pc] == op && |s.stack| >= TraitsOf(op).stackHeightRequired
    requires |s.stack| == STACK_LIMIT ==> TraitsOf(op).stackHeightChange <= 0
    requires IsControl(KindOf(op)) ==> op == OP_JUMP || op == OP_JUMPI
    requires OP_RJUMP <= op <= OP_DATALOADN ==> env.rev == Prague && (op == OP_DUPN || op == OP_SWAPN)
    ensures var o := Exec(env, ch, s, op);
      && (o.Next? ==> LegacyMove(env, code, s, o.s))
      && (o.Fault? ==> (op == OP_DUP || op == OP_SWAP) && IndexOutside(op, s.stack))
  {
    hide IndexOutside, KindOf, TraitsOf, Exec, LegacyInv, ImmediateInside, LegacyStart, Padded;
    FetchInside(env, code, s);
    ControlKinds(op);
    ImmediateSmall(op);
    StopTerminates();
    LegacyInvBounds(code, s);
    if IsControl(KindOf(op)) {
      JumpEffect(env, ch, s, op);
      JumpsHaveNoImmediate();
    } else {
      OrdinaryShape(env, ch, s, op);
      PaddingCoversPush(env, code, s);
    }
  }

  /** The 33 bytes of padding take every load of a push, whole machine words included. */
  lemma PaddingCoversPush(env: Env, code: seq<byte>, s: State)
    requires env.code == Padded(code) && LegacyInv(code, s)
    ensures 0 <= s.pc < |env.code|
    ensures var k := KindOf(env.code[s.pc]); k.KPush? ==> !PushLeaves(env, s.pc, k.len)
  {
    hide TraitsOf, ImmediateInside;
    FetchInside(env, code, s);
    if s.pc >= |code| { StopIsStop(); }
  }

  lemma StopIsStop()
    ensures KindOf(OP_STOP) == KStop
  {
  }

  lemma LegacyInvBounds(code: seq<byte>, s: State)
    requires LegacyInv(code, s)
    ensures 0 <= s.pc <= |code| + 32 && |s.stack| <= STACK_LIMIT && s.callStack == []
  {
  }

  lemma StopTerminates()
    ensures TraitsOf(OP_STOP).isTerminating
  {
  }

  lemma JumpsHaveNoImmediate()
    ensures TraitsOf(OP_JUMPI).immediateSize == 0 && TraitsOf(OP_JUMP).immediateSize == 0
  {
  }

  /** One step of legacy code: every bound is kept, and only the indexed DUP and SWAP can fault. */
  lemma LegacyStepSafe(env: Env, code: seq<byte>, ch: Choice, s: State)
    requires env.code == Padded(code) && env.origin == 0 && env.jumpdests == Jumpdests(code) && !env.isEof
    requires LegacyInv(code, s)
    ensures 0 <= s.pc < |env.code|
    ensures var o := Step(env, ch, s);
      && (o.Next? ==> LegacyMove(env, code, s, o.s) && LegacyInv(code, o.s))
      && (o.Fault? ==> s.pc < |code| && (code[s.pc] == OP_DUP || code[s.pc] == OP_SWAP)
                       && IndexOutside(code[s.pc], s.stack))
  {
    hide IndexOutside, KindOf, TraitsOf, Exec, ImmediateInside, CheckRequirements, LegacyStart, Padded, IsJumpdest;
    FetchInside(env, code, s);
    var op := env.code[s.pc];
    var (failed, gas) := CheckRequirements(env, s.gas, |s.stack|, op);
    if failed == None {
      CheckPassed(env, s.gas, |s.stack|, op);
      if IsControl(KindOf(op)) { LegacyControl(env, s.gas, |s.stack|, op); }
      NoEofInstruction(env, s.gas, |s.stack|, op);
      ImmediateSmall(op);
      LegacyExec(env, code, ch, s.(gas := gas), op);
    }
  }

  /**
   * A step from an instruction lands on an instruction, except after a DUPN or SWAPN of legacy Prague code
   * whose immediate byte reads as a PUSH: jump analysis knows nothing of that immediate.
   */
  lemma LegacyStepAligned(env: Env, code: seq<byte>, ch: Choice, s: State)
    requires env.code == Padded(code) && env.origin == 0 && env.jumpdests == Jumpdests(code) && !env.isEof
    requires LegacyInv(code, s)
    requires OnInstruction(code, s) && Step(env, ch, s).Next?
    ensures 0 <= s.pc < |code|
    ensures OnInstruction(code, Step(env, ch, s).s) <==> !SkipsPush(code, s.pc)
  {
    hide KindOf, TraitsOf, Step, LegacyDecodes;
    LegacyStepSafe(env, code, ch, s);
    FetchInside(env, code, s);
    var s' := Step(env, ch, s).s;
    var op := code[s.pc];
    ImmediateSmall(op);
    ExtensionSizes();
    LegacyStep(code, 0, s.pc);
    if SkipsPush(code, s.pc) {
      SkippedPush(code, s.pc);
      NotAJump(env, code, ch, s);
    } else if s'.pc == s.pc + 1 + TraitsOf(op).immediateSize && s'.pc < |code| && (op == OP_DUPN || op == OP_SWAPN) {
      LegacyStep(code, 0, s.pc + 1);
    }
  }

  /** The instruction at i is DUPN or SWAPN and its immediate byte is a PUSH opcode with data in the code. */
  predicate SkipsPush(code: seq<byte>, i: nat) {
    i + 2 < |code| && (code[i] == OP_DUPN || code[i] == OP_SWAPN) && IsPush(code[i + 1])
  }

  lemma SkippedPush(code: seq<byte>, i: nat)
    requires LegacyStart(code, i) && SkipsPush(code, i)
    ensures !LegacyStart(code, i + 2)
  {
    hide LegacyDecodes;
    LegacyStep(code, 0, i);
    NoLegacyInside(code, 0, i + 1, i + 2);
  }

  lemma ExtensionSizes()
    ensures TraitsOf(OP_DUPN).immediateSize == TraitsOf(OP_SWAPN).immediateSize == 1
  {
  }

  lemma NotAJump(env: Env, code: seq<byte>, ch: Choice, s: State)
    requires env.code == Padded(code) && LegacyInv(code, s) && s.pc < |code|
    requires code[s.pc] == OP_DUPN || code[s.pc] == OP_SWAPN
    requires Step(env, ch, s).Next?
    ensures Step(env, ch, s).s.pc == s.pc + 2
  {
    hide KindOf, TraitsOf, Exec, CheckRequirements;
    var op := env.code[s.pc];
    CheckPassed(env, s.gas, |s.stack|, op);
    FetchInside(env, code, s);
    ShuffleOpcodes(op);
    ExtensionSizes();
    OrdinaryShape(env, ch, s.(gas := CheckRequirements(env, s.gas, |s.stack|, op).1), op);
  }

  // ---------------------------------------------------------------- whole runs

  /**
   * No instruction is an indexed DUP or SWAP, whatever push data contains. Where Prague code can skip a PUSH,
   * any byte may be executed, and none may be one of these.
   */
  predicate FreeOfIndexed(rev: Revision, code: seq<byte>) {
    forall i :: 0 <= i < |code| && (NeverSkips(rev, code) ==> LegacyStart(code, i)) ==>
      code[i] != OP_DUP && code[i] != OP_SWAP
  }

  /** Whole runs of arbitrary legacy code stay within bounds, and within instructions unless a PUSH is skipped. */
  lemma {:induction false} LegacyRunSafe(rev: Revision, callId: nat, code: seq<byte>, choices: nat -> Choice,
        s: State, n: nat)
    requires Initial(LegacyEnv(rev, callId, code), s)
    ensures var o := Run(LegacyEnv(rev, callId, code), choices, s, n);
      && (o.Next? ==> LegacyInv(code, o.s))
      && (o.Next? && NeverSkips(rev, code) ==> OnInstruction(code, o.s))
      && (FreeOfIndexed(rev, code) ==> !o.Fault?)
  {
    hide Step, LegacyStart, SkipsPush, Padded, Jumpdests;
    var env := LegacyEnv(rev, callId, code);
    if n == 0 {
      StartsOnInstruction(code, s);
    } else {
      LegacyRunSafe(rev, callId, code, choices, s, n - 1);
      if Run(env, choices, s, n - 1).Next? {
        var t := Run(env, choices, s, n - 1).s;
        LegacyStepSafe(env, code, choices(n - 1), t);
        if NeverSkips(rev, code) && Step(env, choices(n - 1), t).Next? {
          LegacyStepAligned(env, code, choices(n - 1), t);
          NeverSkipsHere(env, code, choices(n - 1), t);
        }
      }
    }
  }

  /** When a run of legacy code has the outcome Fault, exactly: an indexed DUP or SWAP leaves the stack array. */
  lemma LegacyFaultsExactly(rev: Revision, callId: nat, code: seq<byte>, choices: nat -> Choice, s: State, n: nat)
    requires Initial(LegacyEnv(rev, callId, code), s)
    ensures Run(LegacyEnv(rev, callId, code), choices, s, n).Fault? <==>
      exists m :: 0 <= m < n && FaultsAt(LegacyEnv(rev, callId, code), choices, s, m)
  {
    hide Run, Step, LegacyEnv, LegacyInv, FreeOfIndexed, NeverSkips, Stuck, CheckRequirements;
    var env := LegacyEnv(rev, callId, code);
    if Run(env, choices, s, n).Fault? {
      var m := FirstFault(env, choices, s, n);
      LegacyRunSafe(rev, callId, code, choices, s, m);
      LegacyFault(rev, callId, code, choices(m), Run(env, choices, s, m).s);
      assert FaultsAt(env, choices, s, m);
    }
    if m :| 0 <= m < n && FaultsAt(env, choices, s, m) {
      HarmfulFaults(env, choices(m), Run(env, choices, s, m).s);
      StepInRun(env, choices, s, m + 1);
      FaultRemains(env, choices, s, m + 1, n);
    }
  }

  lemma LegacyFault(rev: Revision, callId: nat, code: seq<byte>, ch: Choice, s: State)
    requires LegacyInv(code, s) && Step(LegacyEnv(rev, callId, code), ch, s).Fault?
    ensures var env := LegacyEnv(rev, callId, code);
      && 0 <= s.pc < |env.code| && Stuck(env, s)
      && CheckRequirements(env, s.gas, |s.stack|, env.code[s.pc]).0 == None
  {
    hide IndexOutside, Exec, CheckRequirements, LegacyInv, Jumpdests, OverReads;
    var env := LegacyEnv(rev, callId, code);
    LegacyStepSafe(env, code, ch, s);
    FetchInside(env, code, s);
  }

  lemma {:induction false} FirstFault(env: Env, choices: nat -> Choice, s: State, n: nat) returns (m: nat)
    requires Run(env, choices, s, n).Fault?
    ensures m < n && Run(env, choices, s, m).Next? && Step(env, choices(m), Run(env, choices, s, m).s).Fault?
    decreases n
  {
    hide Step;
    if Run(env, choices, s, n - 1).Next? {
      m := n - 1;
      StepInRun(env, choices, s, n);
    } else {
      m := FirstFault(env, choices, s, n - 1);
    }
  }

  /** What a run executes, unless Prague code skips a PUSH: instructions of the code, or the padding. */
  lemma LegacyFetches(rev: Revision, code: seq<byte>, choices: nat -> Choice, s: State, n: nat)
    requires NeverSkips(rev, code)
    requires Initial(LegacyEnv(rev, 0, code), s) && Run(LegacyEnv(rev, 0, code), choices, s, n).Next?
    ensures var pc := Run(LegacyEnv(rev, 0, code), choices, s, n).s.pc;
      && 0 <= pc < |code| + PADDING
      && (if pc < |code| then LegacyStart(code, pc) && Padded(code)[pc] == code[pc] else Padded(code)[pc] == OP_STOP)
  {
    hide Run, LegacyStart, NeverSkips;
    LegacyRunSafe(rev, 0, code, choices, s, n);
  }

  lemma StartsOnInstruction(code: seq<byte>, s: State)
    requires s.pc == 0 && s.stack == [] && s.callStack == []
    ensures OnInstruction(code, s) && LegacyInv(code, s)
  {
    DecodesSelf(code);
  }

  /** No instruction skips a PUSH: always so before Prague. */
  predicate NeverSkips(rev: Revision, code: seq<byte>) {
    rev != Prague || forall i :: 0 <= i < |code| && LegacyStart(code, i) ==> !SkipsPush(code, i)
  }

  lemma NeverSkipsHere(env: Env, code: seq<byte>, ch: Choice, s: State)
    requires env.code == Padded(code) && env.origin == 0 && env.jumpdests == Jumpdests(code) && !env.isEof
    requires LegacyInv(code, s)
    requires NeverSkips(env.rev, code) && OnInstruction(code, s) && 0 <= s.pc < |code| && Step(env, ch, s).Next?
    ensures !SkipsPush(code, s.pc)
  {
    hide KindOf, TraitsOf, Step, LegacyDecodes, Jumpdests;
    LegacyStepSafe(env, code, ch, s);
    FetchInside(env, code, s);
  }

  /** 97 times PUSH0, then DUPN 96, then a JUMPDEST that jump analysis takes for the data of the byte 0x60. */
  const SKIPPING_CODE: seq<byte> := seq(97, _ => OP_PUSH0) + [OP_DUPN, OP_PUSH1, OP_JUMPDEST]

  lemma PushZero(env: Env, ch: Choice, s: State)
    requires env.rev == Prague && 0 <= s.pc < |env.code| && env.code[s.pc] == OP_PUSH0
    requires |s.stack| < STACK_LIMIT && s.gas >= 2
    ensures var o := Step(env, ch, s);
      o.Next? && o.s.pc == s.pc + 1 && |o.s.stack| == |s.stack| + 1 && o.s.gas == s.gas - 2
  {
    hide KindOf, TraitsOf, Exec, Step, GasCost, HasConstGasCost, CheckRequirements, ExecPush;
    ZeroPasses(env, s.gas, |s.stack|);
    PassedStep(env, ch, s, OP_PUSH0, s.gas - 2);
    TraitsMatchImplementation(OP_PUSH0);
    var charged := s.(gas := s.gas - 2);
    ExecStackMove(env, ch, charged, OP_PUSH0);
    ZeroReach();
    PushEffect(env, ch, charged, 0);
  }

  lemma ZeroReach()
    ensures KindOf(OP_PUSH0) == KPush(0) && Words.PushReach(0) == 0
  {
  }

  lemma ZeroPasses(env: Env, gas: int, height: nat)
    requires env.rev == Prague && height < STACK_LIMIT && gas >= 2
    ensures CheckRequirements(env, gas, height, OP_PUSH0) == (None, gas - 2)
  {
    hide HasConstGasCost;
    assert GasCost(Frontier, OP_PUSH0) == 2;
    assert GasCost(Shanghai, OP_PUSH0) == 2;
    assert GasCost(Cancun, OP_PUSH0) == 2;
    assert GasCost(Prague, OP_PUSH0) == 2;
  }

  lemma {:induction false} PushZeros(callId: nat, choices: nat -> Choice, s: State, k: nat)
    requires k <= 97 && Initial(LegacyEnv(Prague, callId, SKIPPING_CODE), s) && s.gas >= 2 * k
    ensures LegacyDecodes(SKIPPING_CODE, 0, k)
    ensures var o := Run(LegacyEnv(Prague, callId, SKIPPING_CODE), choices, s, k);
      o.Next? && o.s.pc == k && |o.s.stack| == k && o.s.gas == s.gas - 2 * k
  {
    hide Step, LegacyDecodes, Jumpdests;
    var env := LegacyEnv(Prague, callId, SKIPPING_CODE);
    if k == 0 {
      DecodesSelf(SKIPPING_CODE);
    } else {
      PushZeros(callId, choices, s, k - 1);
      LegacyStep(SKIPPING_CODE, 0, k - 1);
      PushZero(env, choices(k - 1), Run(env, choices, s, k - 1).s);
    }
  }

  /**
   * The limit of the previous property: started on legacy Prague code of 100 bytes with enough gas, the run
   * is after 98 steps at byte 99, which is push data to the jump analysis.
   */
  lemma PragueEntersPushData(callId: nat, choices: nat -> Choice, s: State)
    requires Initial(LegacyEnv(Prague, callId, SKIPPING_CODE), s) && s.gas >= 197
    ensures var o := Run(LegacyEnv(Prague, callId, SKIPPING_CODE), choices, s, 98);
      o.Next? && o.s.pc == 99 < |SKIPPING_CODE| && !LegacyStart(SKIPPING_CODE, 99)
  {
    hide Run, Step, LegacyDecodes, Jumpdests;
    var env := LegacyEnv(Prague, callId, SKIPPING_CODE);
    PushZeros(callId, choices, s, 97);
    var t := Run(env, choices, s, 97).s;
    SkippedPush(SKIPPING_CODE, 97);
    StepInRun(env, choices, s, 98);
    assert env.code[97] == OP_DUPN && env.code[98] == OP_PUSH1;
    CopyContinues(env, choices(97), t);
  }

  /** DUPN 96 continues with 97 items on the stack. */
  lemma CopyContinues(env: Env, ch: Choice, s: State)
    requires env.rev == Prague && !env.isEof && 0 <= s.pc && s.pc + 1 < |env.code|
    requires env.code[s.pc] == OP_DUPN && env.code[s.pc + 1] == OP_PUSH1 && 97 <= |s.stack| < STACK_LIMIT && s.gas >= 3
    ensures Step(env, ch, s).Next? && Step(env, ch, s).s.pc == s.pc + 2
  {
    hide KindOf, TraitsOf, Exec, Step, GasCost, HasConstGasCost, CheckRequirements;
    DupNPasses(env, s);
    ShuffleOpcodes(OP_DUPN);
    var charged := s.(gas := CheckRequirements(env, s.gas, |s.stack|, OP_DUPN).1);
    PassedStep(env, ch, s, OP_DUPN, charged.gas);
    TraitsMatchImplementation(OP_DUPN);
    ExecStackMove(env, ch, charged, OP_DUPN);
  }

  lemma DupNPasses(env: Env, s: State)
    requires env.rev == Prague && !env.isEof && |s.stack| < STACK_LIMIT && s.gas >= 3
    ensures CheckRequirements(env, s.gas, |s.stack|, OP_DUPN).0 == None
  {
    hide HasConstGasCost;
    PragueNotConstant(OP_DUPN);
  }

  /** The loop ends after at most gas * (n + 34) + n + 33 continuing steps, if the host never gives gas back. */
  lemma LegacyTerminates(rev: Revision, callId: nat, code: seq<byte>, choices: nat -> Choice, s: State, n: nat)
    requires Initial(LegacyEnv(rev, callId, code), s) && s.gas >= 0 && (forall k :: choices(k).cost >= 0)
    requires n > s.gas * (|code| + 34) + |code| + 33
    ensures !Run(LegacyEnv(rev, callId, code), choices, s, n).Next?
  {
    hide Step, ImmediateInside, LegacyInv, NeverSkips, FreeOfIndexed;
    var env := LegacyEnv(rev, callId, code);
    assert |env.code| == |code| + 33;
    if Run(env, choices, s, n).Next? {
      forall k: nat | k <= n && Run(env, choices, s, k).Next?
        ensures var t := Run(env, choices, s, k).s; 0 <= t.pc < |env.code| && ImmediateInside(env, t, env.code[t.pc])
      {
        LegacyRunSafe(rev, callId, code, choices, s, k);
        FetchInside(env, code, Run(env, choices, s, k).s);
      }
      RunMeasure(env, choices, s, n);
      assert false;
    }
  }

  /** Runs of code without an indexed DUP or SWAP halt, if the outside world never gives gas back. */
  lemma LegacyHalts(rev: Revision, callId: nat, code: seq<byte>, choices: nat -> Choice, s: State)
    requires Initial(LegacyEnv(rev, callId, code), s) && FreeOfIndexed(rev, code)
    requires s.gas >= 0 && NeverRefunds(choices)
    ensures Halts(LegacyEnv(rev, callId, code), choices, s)
  {
    hide Step, LegacyInv, NeverSkips, FreeOfIndexed, Run, LegacyEnv;
    var n := s.gas * (|code| + 34) + |code| + 34;
    LegacyTerminates(rev, callId, code, choices, s, n);
    LegacyRunSafe(rev, callId, code, choices, s, n);
    assert Run(LegacyEnv(rev, callId, code), choices, s, n).Halt?;
  }

  /** Analysis and execution of legacy code end exactly if the run of the step function halts, as it does. */
  method ExecuteLegacy(rev: Revision, callId: nat, code: seq<byte>, gas: int, choices: nat -> Choice)
    returns (status: Status, gasLeft: int, trace: seq<RwTrace.RwOperation>)
    requires WholeMemory(choices)
    requires Halts(LegacyEnv(rev, callId, code), choices, Start(LegacyEnv(rev, callId, code), gas))
    ensures exists n: nat, final: State ::
      && StopsWith(LegacyEnv(rev, callId, code), choices, Start(LegacyEnv(rev, callId, code), gas), n, status, final)
      && final.gas == gasLeft && final.trace == trace
  {
    hide StopsWith, WholeMemory, Halts, LegacyEnv;
    var env := AnalyzeLegacy(rev, callId, code);
    var state := new ExecutionState(env, gas);
    state.Dispatch(choices);
    status, gasLeft, trace := state.status, state.gasLeft, state.rwTrace;
    ghost var n: nat, pos: int :| StopsWith(env, choices, Start(env, gas), n, status, state.Abs(pos));
    assert state.Abs(pos).gas == gasLeft && state.Abs(pos).trace == trace;
  }
}
