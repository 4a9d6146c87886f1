/**
 * Which array elements an instruction reads or writes, written down instruction by instruction, and when all
 * of them exist. Host instructions take part only with their operands; MemoryGas says what two of them do to memory.
 */
module Accesses {
  import opened Bytes
  import opened Opcodes
  import opened MemoryGas
  import opened Words
  import opened Interpreter

  // ---------------------------------------------------------------- what is accessed

  /** The stack slots accessed, from the bottom; the new top item of a push included. */
  function StackSlots(env: Env, s: State, k: Kind): seq<int> {
    var n: int := |s.stack|;
    match k
    case KBinary => [n - 2, n - 1]
    case KAddMod => [n - 3, n - 2, n - 1]
    case KMulMod => [n - 3, n - 2, n - 1]
    case KUnary => [n - 1]
    case KMLoad => [n - 1]
    case KMStore(_) => [n - 2, n - 1]
    case KReturn(_) => [n - 2, n - 1]
    case KJump => [n - 1]
    case KJumpI => [n - 2, n - 1]
    case KRJumpI => [n - 1]
    case KRJumpV => [n - 1]
    case KSelfdestruct => [n - 1]
    case KPc => [n]
    case KMSize => [n]
    case KGas => [n]
    case KEnvPush => [n]
    case KDataLoadN => [n]
    case KPush(len) => seq(PushRecords(len), i requires 0 <= i < PushRecords(len) => n - i)
    case KDup(d) => [n - d, n]
    case KSwap(d) => [n - d - 1, n - 1, n - d]
    case KDupN => var d := Immediate(env, s); if n < d then [] else [n - d, n]
    case KSwapN => var d := Immediate(env, s); if n <= d then [] else [n - d - 1, n - 1]
    case KDupAt => if n > 0 then [n - 1, DupSlot(s.stack)] else [n - 1]
    case KSwapAt =>
      if n == 0 then [n - 1] else var d := Low64(s.stack[n - 1]) % 0x1_0000; [n - 1, n - 2 - d, n - 2, n - 1 - d]
    case KExternal(pops, _) => seq(pops, i requires 0 <= i < pops => n - 1 - i)
    case _ => []
  }

  /** The depth that DUPN and SWAPN name in the code. */
  function Immediate(env: Env, s: State): int {
    if 0 <= s.pc && s.pc + 1 < |env.code| then env.code[s.pc + 1] as int + 1 else 1
  }

  /** The bytes of the code buffer accessed after the opcode. */
  function CodeBytes(env: Env, s: State, k: Kind): seq<int> {
    match k
    case KPush(len) => if len <= 32 then Range(s.pc + 1, PushReach(len)) else []
    case KDupN => [s.pc + 1]
    case KSwapN => [s.pc + 1]
    case KRJump => [s.pc + 1, s.pc + 2]
    case KRJumpI => if |s.stack| > 0 && Low64(s.stack[|s.stack| - 1]) > 0 then [s.pc + 1, s.pc + 2] else []
    case KRJumpV =>
      if |s.stack| == 0 || !(0 <= s.pc && s.pc + 1 < |env.code|) then [s.pc + 1]
      else
        var index := Low64(s.stack[|s.stack| - 1]);
        [s.pc + 1] + if index > env.code[s.pc + 1] then [] else [s.pc + 2 + 2 * index, s.pc + 3 + 2 * index]
    case KCallF => [s.pc + 1, s.pc + 2]
    case KJumpF => [s.pc + 1, s.pc + 2]
    case KDataLoadN => [s.pc + 1, s.pc + 2]
    case _ => []
  }

  /** The 16-bit operand after the opcode; 0 stands for one that is not there. */
  function Operand(env: Env, s: State): nat {
    if 0 <= s.pc && s.pc + 2 < |env.code| then U16(env.code, s.pc + 1) else 0
  }

  /** The n elements from `from` on. */
  function Range(from: int, n: nat): (r: seq<int>)
    ensures |r| == n && forall i :: 0 <= i < n ==> r[i] == from + i
  {
    seq(n, i requires 0 <= i < n => from + i)
  }

  function DataBytes(env: Env, s: State, k: Kind): seq<int> {
    if k == KDataLoadN then Range(Operand(env, s), 32) else []
  }

  /** Entries of the types and of the code offsets. */
  function SectionEntries(env: Env, s: State, k: Kind): seq<int> {
    if k == KCallF || k == KJumpF then [0, Operand(env, s)] else []
  }

  function ReturnAddresses(s: State, k: Kind): seq<int> {
    if k == KRetF then [|s.callStack| - 1] else []
  }

  /** Memory as the check of an MLOAD or MSTORE leaves it, and the bytes accessed once it has passed. */
  function MemoryAfter(s: State, k: Kind): Access {
    if (k.KMLoad? || k.KMStore?) && |s.stack| > 0 then Touch(s.gas, s.memory, s.stack[|s.stack| - 1], 32)
    else Access(false, s.gas, s.memory)
  }

  function MemoryBytes(s: State, k: Kind): seq<int> {
    if MemoryAfter(s, k).ok && |s.stack| > 0 then Range(Low64(s.stack[|s.stack| - 1]), 32)
    else []
  }

  predicate Within(elements: seq<int>, size: nat) {
    forall i :: 0 <= i < |elements| ==> 0 <= elements[i] < size
  }

  /** Everything that op accesses exists; s has paid the base cost. */
  ghost predicate StaysInside(env: Env, s: State, op: byte) {
    var k := KindOf(op);
    && Within(StackSlots(env, s, k), STACK_LIMIT) && Within(CodeBytes(env, s, k), |env.code|)
    && Within(DataBytes(env, s, k), |env.data|) && Within(ReturnAddresses(s, k), |s.callStack|)
    && Within(SectionEntries(env, s, k), |env.types|) && Within(SectionEntries(env, s, k), |env.codeOffsets|)
    && Within(MemoryBytes(s, k), |MemoryAfter(s, k).memory|)
  }

  // ---------------------------------------------------------------- when it exists

  /** A PUSH2 to PUSH31 on a stack of too few items: its records read in front of the stack array. */
  predicate Shallow(env: Env, s: State) {
    0 <= s.pc < |env.code| && var k := KindOf(env.code[s.pc]); k.KPush? && PushRecords(k.len) > |s.stack| + 1
  }

  /** The step accesses something outside its array. */
  predicate Undefined(env: Env, s: State) {
    Stuck(env, s) || Shallow(env, s)
  }

  /** What the bytes and operands of an instruction must satisfy beyond its stack requirements. */
  ghost predicate Ready(env: Env, s: State, k: Kind)
    requires 0 <= s.pc
  {
    match k
    case KPush(len) => PushLeaves(env, s.pc, len) ==> OverReads(env, s.pc)
    case KRJumpV => s.pc + 1 < |env.code| && s.pc + 1 + (env.code[s.pc + 1] as int + 1) * 2 < |env.code|
    case KCallF => SectionOperand(env, s.pc)
    case KJumpF => SectionOperand(env, s.pc)
    case KRetF => s.callStack != []
    case KDataLoadN => s.pc + 2 < |env.code| && U16(env.code, s.pc + 1) + 32 <= |env.data|
    case _ => true
  }

  /** A height within the stack array, with room for what the instruction adds. */
  predicate Fits(s: State, op: byte) {
    && TraitsOf(op).stackHeightRequired <= |s.stack| <= STACK_LIMIT
    && (|s.stack| == STACK_LIMIT ==> TraitsOf(op).stackHeightChange <= 0)
  }

  /** The stack slots of a push exist unless the stack is too shallow for its records. */
  lemma PushSlots(env: Env, s: State, len: nat)
    requires len <= 32 && |s.stack| < STACK_LIMIT
    ensures Within(StackSlots(env, s, KPush(len)), STACK_LIMIT) <==> PushRecords(len) <= |s.stack| + 1
  {
    var slots := StackSlots(env, s, KPush(len));
    assert slots[PushRecords(len) - 1] == |s.stack| - (PushRecords(len) - 1);
  }

  lemma IndexedSlots(env: Env, s: State)
    requires 1 <= |s.stack| <= STACK_LIMIT
    ensures Within(StackSlots(env, s, KDupAt), STACK_LIMIT) <==> !IndexOutside(OP_DUP, s.stack)
    ensures Within(StackSlots(env, s, KSwapAt), STACK_LIMIT) <==> !IndexOutside(OP_SWAP, s.stack)
  {
    hide Low64, Signed32;
    var n, d := |s.stack|, Low64(s.stack[|s.stack| - 1]) % 0x1_0000;
    var slots := StackSlots(env, s, KSwapAt);
    assert slots == [n - 1, n - 2 - d, n - 2, n - 1 - d];
    assert slots[1] == n - 2 - d;
    var copied := StackSlots(env, s, KDupAt);
    assert copied[1] == DupSlot(s.stack);
  }

  lemma OtherSlots(env: Env, s: State, op: byte)
    requires Fits(s, op) && !KindOf(op).KPush? && KindOf(op) !in {KDupAt, KSwapAt}
    ensures Within(StackSlots(env, s, KindOf(op)), STACK_LIMIT)
  {
    hide KindOf, TraitsOf, Low64, DupSlot;
    TraitsMatchImplementation(op);
  }

  /** The stack slots accessed exist unless a push is too shallow or an index leads outside. */
  lemma StackInside(env: Env, s: State, op: byte)
    requires 0 <= s.pc < |env.code| && op == env.code[s.pc] && Fits(s, op)
    ensures Within(StackSlots(env, s, KindOf(op)), STACK_LIMIT) <==>
      !Shallow(env, s) && !((op == OP_DUP || op == OP_SWAP) && IndexOutside(op, s.stack))
  {
    hide KindOf, TraitsOf, StackSlots, IndexOutside, Within;
    TraitsMatchImplementation(op);
    ControlKinds(op);
    var k := KindOf(op);
    if k.KPush? {
      PushSlots(env, s, k.len);
    } else if k == KDupAt || k == KSwapAt {
      IndexedSlots(env, s);
    } else {
      OtherSlots(env, s, op);
    }
  }

  /** The bytes of the code buffer exist unless a PUSH5 or PUSH6 is too close to its end. */
  lemma CodeInside(env: Env, s: State, op: byte)
    requires 0 <= s.pc < |env.code| && op == env.code[s.pc] && ImmediateInside(env, s, op) && Ready(env, s, KindOf(op))
    requires Fits(s, op)
    ensures Within(CodeBytes(env, s, KindOf(op)), |env.code|) <==> !OverReads(env, s.pc)
  {
    hide KindOf, TraitsOf, Low64, PushReach, SectionOperand, U16;
    TraitsMatchImplementation(op);
    PushFive();
    var k := KindOf(op);
    if k.KPush? {
      PushBytes(env, s, k.len);
      PushReaches(op);
    } else {
      OthersOverReadNothing(op);
    }
  }

  lemma PushBytes(env: Env, s: State, len: nat)
    requires len <= 32 && 0 <= s.pc < |env.code|
    ensures Within(CodeBytes(env, s, KPush(len)), |env.code|) <==> !PushLeaves(env, s.pc, len)
  {
    hide PushReach;
    var bytes := CodeBytes(env, s, KPush(len));
    if PushReach(len) > 0 { assert bytes[PushReach(len) - 1] == s.pc + PushReach(len); }
  }

  lemma PushReaches(op: byte)
    requires KindOf(op).KPush?
    ensures op == OP_PUSH5 || op == OP_PUSH6 ==> KindOf(op).len <= 32 && PushReach(KindOf(op).len) == 8
  {
  }

  lemma OthersOverReadNothing(op: byte)
    requires !KindOf(op).KPush?
    ensures op != OP_PUSH5 && op != OP_PUSH6
  {
  }

  /** Data, section tables, return stack and memory are never left. */
  lemma RestInside(env: Env, s: State, op: byte)
    requires 0 <= s.pc < |env.code| && op == env.code[s.pc] && Ready(env, s, KindOf(op)) && Fits(s, op)
    ensures var k := KindOf(op);
      && Within(DataBytes(env, s, k), |env.data|) && Within(ReturnAddresses(s, k), |s.callStack|)
      && Within(SectionEntries(env, s, k), |env.types|) && Within(SectionEntries(env, s, k), |env.codeOffsets|)
      && Within(MemoryBytes(s, k), |MemoryAfter(s, k).memory|)
  {
    hide *;
    DataInside(env, s, KindOf(op));
    TablesInside(env, s, KindOf(op));
    MemoryInside(s, KindOf(op));
  }

  lemma TablesInside(env: Env, s: State, k: Kind)
    requires 0 <= s.pc && Ready(env, s, k)
    ensures Within(ReturnAddresses(s, k), |s.callStack|)
    ensures Within(SectionEntries(env, s, k), |env.types|) && Within(SectionEntries(env, s, k), |env.codeOffsets|)
  {
    hide U16, PushLeaves, OverReads, Low64;
  }

  lemma MemoryInside(s: State, k: Kind)
    ensures Within(MemoryBytes(s, k), |MemoryAfter(s, k).memory|)
  {
    hide Low64, Touch;
    if MemoryAfter(s, k).ok { TouchCovers(s.gas, s.memory, s.stack[|s.stack| - 1], 32); }
  }

  lemma DataInside(env: Env, s: State, k: Kind)
    requires 0 <= s.pc && Ready(env, s, k)
    ensures Within(DataBytes(env, s, k), |env.data|)
  {
    hide U16, PushLeaves, OverReads, SectionOperand;
    if k == KDataLoadN { assert Operand(env, s) == U16(env.code, s.pc + 1); }
  }

  /** An instruction whose operands are ready stays inside every array exactly when it is not undefined. */
  lemma InsideExactly(env: Env, s: State, op: byte)
    requires 0 <= s.pc < |env.code| && op == env.code[s.pc] && ImmediateInside(env, s, op)
    requires Ready(env, s, KindOf(op)) && Fits(s, op)
    ensures StaysInside(env, s, op) <==> !Undefined(env, s)
  {
    hide KindOf, Within, StackSlots, CodeBytes, DataBytes, ReturnAddresses, SectionEntries, MemoryBytes, MemoryAfter;
    hide Ready, Fits, ImmediateInside, Shallow, OverReads, IndexOutside;
    StackInside(env, s, op);
    CodeInside(env, s, op);
    RestInside(env, s, op);
  }

  // ---------------------------------------------------------------- steps and runs

  /** The state in which the instruction at the current position executes. */
  function Paid(env: Env, s: State): State
    requires 0 <= s.pc < |env.code|
  {
    s.(gas := CheckRequirements(env, s.gas, |s.stack|, env.code[s.pc]).1)
  }

  /** Step m of the run gets past the requirements check. */
  ghost predicate Reaches(env: Env, choices: nat -> Choice, s: State, m: nat) {
    Run(env, choices, s, m).Next? &&
    var t := Run(env, choices, s, m).s;
    0 <= t.pc < |env.code| && CheckRequirements(env, t.gas, |t.stack|, env.code[t.pc]).0 == None
  }

  /** Step m executes an instruction that accesses something outside its array. */
  ghost predicate AccessesOutside(env: Env, choices: nat -> Choice, s: State, m: nat) {
    Reaches(env, choices, s, m) &&
    var t := Run(env, choices, s, m).s; !StaysInside(env, Paid(env, t), env.code[t.pc])
  }

  /** Step m executes an over-reading push, a shallow push, or an index that leads outside. */
  ghost predicate UndefinedAt(env: Env, choices: nat -> Choice, s: State, m: nat) {
    Reaches(env, choices, s, m) && Undefined(env, Run(env, choices, s, m).s)
  }

  /** What the requirements check leaves to be shown of a state. */
  lemma StepInside(env: Env, s: State)
    requires 0 <= s.pc < |env.code| && |s.stack| <= STACK_LIMIT
    requires var op := env.code[s.pc];
      && CheckRequirements(env, s.gas, |s.stack|, op).0 == None
      && ImmediateInside(env, s, op) && Ready(env, s, KindOf(op))
    ensures StaysInside(env, Paid(env, s), env.code[s.pc]) <==> !Undefined(env, s)
  {
    hide KindOf, TraitsOf, CheckRequirements, StaysInside, IndexOutside;
    var op := env.code[s.pc];
    CheckPassed(env, s.gas, |s.stack|, op);
    InsideExactly(env, Paid(env, s), op);
  }
}
