/**
 * The interpreter (`dispatch`, `invoke`, `check_requirements`) as a step function: one instruction of
 * legacy or EOF code on stack, memory, return stack, gas and read/write trace.
 *
 * A step whose continuation would come from outside the code buffer, the stack array, the return stack or the
 * data section has the outcome Fault. Results that come from outside (host calls, hashing, big-number library
 * routines) are supplied by a Choice; so are the words that a step finds outside the live stack.
 */
module Interpreter {
  import opened Bytes
  import opened Opcodes
  import opened EofInstructions
  import opened MemoryGas
  import opened RwTrace
  import opened Words

  const STACK_LIMIT := 1024

  datatype Status =
    | Success | Revert | OutOfGas | UndefinedOpcode | InvalidOpcode | Overflow | Underflow
    | BadJumpDestination | ExternalFailure

  /**
   * What stays fixed during one dispatch. `code` is the whole readable buffer, a container or padded legacy
   * code, and positions are positions in it; the executable code starts at `origin`.
   */
  datatype Env = Env(rev: Revision, isEof: bool, callId: nat, code: seq<byte>, origin: nat, jumpdests: seq<bool>,
                     types: seq<EofCodeType>, codeOffsets: seq<nat>, data: seq<byte>)

  datatype State = State(pc: int, gas: int, stack: seq<Word>, memory: seq<byte>, callStack: seq<int>,
                         trace: seq<RwOperation>)

  /** The outside world's contribution to one step; `stale` is what slots outside the live stack hold. */
  datatype Choice = Choice(word: Word, cost: int, failure: bool, results: seq<Word>, memory: seq<byte>,
                           records: seq<RwOperation>, stale: int -> Word)

  /** atCheck tells a halt decided by check_requirements from one decided by the instruction. */
  datatype Outcome = Next(s: State) | Halt(status: Status, s: State, atCheck: bool) | Fault

  // ---------------------------------------------------------------- instruction groups

  datatype Kind =
    | KStop | KInvalid | KReturn(status: Status) | KDrop(count: nat)
    | KBinary | KAddMod | KMulMod | KUnary
    | KMLoad | KMStore(width: nat) | KJump | KJumpI | KPc | KMSize | KGas
    | KPush(len: nat) | KEnvPush | KDup(n: nat) | KSwap(n: nat) | KDupN | KSwapN
    | KRJump | KRJumpI | KRJumpV | KCallF | KRetF | KJumpF | KDataLoadN
    | KDupAt | KSwapAt | KExternal(pops: nat, pushes: nat) | KSelfdestruct | KUnimplemented

  /** The implementation each opcode is mapped to; opcodes without one end in the default case. */
  function KindOf(op: byte): Kind {
    if op < 0x20 then
      if op == 0x00 then KStop
      else if op == 0x08 then KAddMod
      else if op == 0x09 then KMulMod
      else if op == 0x0a then KExternal(2, 1)
      else if op == 0x15 || op == 0x19 then KUnary
      else if 0x0c <= op <= 0x0f || 0x1e <= op then KUnimplemented
      else KBinary
    else if op < 0x50 then
      if op in {0x35, 0x40, 0x49} then KUnary
      else if op == 0x20 then KExternal(2, 1)
      else if op in {0x31, 0x3b, 0x3f} then KExternal(1, 1)
      else if op in {0x37, 0x39, 0x3e} then KExternal(3, 0)
      else if op == 0x3c then KExternal(4, 0)
      else if op < 0x30 || 0x4b <= op then KUnimplemented
      else KEnvPush
    else if op < 0x60 then
      if op == 0x50 then KDrop(1) else if op == 0x5b then KDrop(0)
      else if op == 0x51 then KMLoad
      else if op == 0x52 then KMStore(32) else if op == 0x53 then KMStore(1)
      else if op == 0x56 then KJump else if op == 0x57 then KJumpI
      else if op == 0x58 then KPc else if op == 0x59 then KMSize else if op == 0x5a then KGas
      else if op == 0x5f then KPush(0)
      else if op == 0x54 || op == 0x5c then KExternal(1, 1)
      else if op == 0x55 || op == 0x5d then KExternal(2, 0)
      else KExternal(3, 0)
    else if op < 0x80 then KPush(op - 0x5f)
    else if op < 0x90 then KDup(op - 0x7f)
    else if op < 0xa0 then KSwap(op - 0x8f)
    else if op < 0xe0 then
      if op == 0xa1 then KDrop(3)
      else if op == 0xa6 then KSwapAt else if op == 0xa7 then KDupAt
      else if op == 0xb0 then KMStore(2) else if op == 0xb1 then KMStore(4) else if op == 0xb2 then KMStore(8)
      else if 0xc0 <= op <= 0xc3 then KMLoad
      else KUnimplemented
    else if op < 0xf0 then
      if op == 0xe0 then KRJump else if op == 0xe1 then KRJumpI else if op == 0xe2 then KRJumpV
      else if op == 0xe3 then KCallF else if op == 0xe4 then KRetF else if op == 0xe5 then KJumpF
      else if op == 0xe6 then KDupN else if op == 0xe7 then KSwapN
      else if op == 0xe8 then KExternal(1, 1) else if op == 0xeb then KExternal(3, 0)
      else if op == 0xe9 then KDataLoadN else if op == 0xea then KEnvPush
      else KUnimplemented
    else
      if op == 0xf0 then KExternal(3, 1) else if op == 0xf5 then KExternal(4, 1)
      else if op == 0xf1 || op == 0xf2 then KExternal(7, 1) else if op == 0xf4 || op == 0xfa then KExternal(6, 1)
      else if op == 0xf3 then KReturn(Success) else if op == 0xfd then KReturn(Revert)
      else if op == 0xfe then KInvalid
      else if op == 0xff then KSelfdestruct
      else KUnimplemented
  }

  /** Stack items an implementation reaches, its net effect, and the immediate bytes it skips. */
  ghost predicate KindFits(k: Kind, t: Traits) {
    match k
    case KStop => t == Traits(0, true, 0, 0)
    case KInvalid => t == Traits(0, true, 0, 0)
    case KReturn(_) => t == Traits(0, true, 2, -2)
    case KDrop(n) => t == Traits(0, false, n, -(n as int))
    case KBinary => t == Traits(0, false, 2, -1)
    case KAddMod => t == Traits(0, false, 3, -2)
    case KMulMod => t == Traits(0, false, 3, -2)
    case KUnary => t == Traits(0, false, 1, 0)
    case KMLoad => t == Traits(0, false, 1, 0)
    case KMStore(w) => t == Traits(0, false, 2, -2) && 1 <= w <= 32
    case KJump => t == Traits(0, false, 1, -1)
    case KJumpI => t == Traits(0, false, 2, -2)
    case KPc => t == Traits(0, false, 0, 1)
    case KMSize => t == Traits(0, false, 0, 1)
    case KGas => t == Traits(0, false, 0, 1)
    case KPush(len) => t == Traits(len, false, 0, 1) && len <= 32
    case KEnvPush => t == Traits(0, false, 0, 1)
    case KDup(n) => t == Traits(0, false, n, 1) && 1 <= n <= 16
    case KSwap(n) => t == Traits(0, false, n + 1, 0) && 1 <= n <= 16
    case KDupN => t == Traits(1, false, 0, 1)
    case KSwapN => t == Traits(1, false, 0, 0)
    case KRJump => t == Traits(2, false, 0, 0)
    case KRJumpI => t == Traits(2, false, 1, -1)
    case KRJumpV => t == Traits(1, false, 1, -1)
    case KCallF => t == Traits(2, false, 0, 0)
    case KRetF => t == Traits(0, true, 0, 0)
    case KJumpF => t == Traits(2, true, 0, 0)
    case KDataLoadN => t == Traits(2, false, 0, 1)
    case KDupAt => t == Traits(0, false, 1, 0)
    case KSwapAt => t == Traits(0, false, 1, -1)
    case KExternal(pops, pushes) => t == Traits(0, false, pops, pushes - pops)
    case KSelfdestruct => t == Traits(0, true, 1, -1)
    case KUnimplemented => t.immediateSize == 0 && !t.isTerminating && 0 <= t.stackHeightRequired + t.stackHeightChange
  }

  lemma LowTraits(op: byte)
    requires op < 0x50
    ensures KindFits(KindOf(op), TraitsOf(op))
  {
  }

  lemma PushTraits(op: byte)
    requires 0x50 <= op < 0x90
    ensures KindFits(KindOf(op), TraitsOf(op))
  {
  }

  lemma MiddleTraits(op: byte)
    requires 0x90 <= op < 0xe0
    ensures KindFits(KindOf(op), TraitsOf(op))
  {
  }

  lemma HighTraits(op: byte)
    requires 0xe0 <= op
    ensures KindFits(KindOf(op), TraitsOf(op))
  {
  }

  /** The traits table and the implementations agree for every opcode. */
  lemma TraitsMatchImplementation(op: byte)
    ensures KindFits(KindOf(op), TraitsOf(op))
  {
    hide KindFits, KindOf, TraitsOf;
    if op < 0x50 {
      LowTraits(op);
    } else if op < 0x90 {
      PushTraits(op);
    } else if op < 0xe0 {
      MiddleTraits(op);
    } else {
      HighTraits(op);
    }
  }

  lemma ControlKinds(op: byte)
    ensures KindOf(op) == KRJump <==> op == OP_RJUMP
    ensures KindOf(op) == KRJumpI <==> op == OP_RJUMPI
    ensures KindOf(op) == KRJumpV <==> op == OP_RJUMPV
    ensures KindOf(op) == KCallF <==> op == OP_CALLF
    ensures KindOf(op) == KRetF <==> op == OP_RETF
    ensures KindOf(op) == KJumpF <==> op == OP_JUMPF
    ensures KindOf(op) == KJump <==> op == OP_JUMP
    ensures KindOf(op) == KJumpI <==> op == OP_JUMPI
    ensures KindOf(op) == KSwapAt <==> op == OP_SWAP
    ensures KindOf(op) == KDupAt <==> op == OP_DUP
    ensures KindOf(op) == KDataLoadN <==> op == OP_DATALOADN
  {
  }

  // ---------------------------------------------------------------- check_requirements

  /** The base cost that is charged: the Frontier entry when no revision changes it, else the table's. */
  function BaseCost(env: Env, op: byte): int {
    if HasConstGasCost(op) then GasCost(Frontier, op) else CostTable(env.rev, env.isEof, op)
  }

  /** The first failing requirement, and the gas left after the base charge where it was made. */
  function CheckRequirements(env: Env, gas: int, height: nat, op: byte): (Option<Status>, int) {
    var cost := BaseCost(env, op);
    if !HasConstGasCost(op) && cost < 0 then (Some(UndefinedOpcode), gas)
    else if TraitsOf(op).stackHeightChange > 0 && height == STACK_LIMIT then (Some(Overflow), gas)
    else if height < TraitsOf(op).stackHeightRequired then (Some(Underflow), gas)
    else if gas - cost < 0 then (Some(OutOfGas), gas - cost)
    else (None, gas - cost)
  }

  // ---------------------------------------------------------------- trace records

  /** The record of reading stack slot i as it is now. */
  function ReadSlot(env: Env, s: State, i: nat): State
    requires i < |s.stack|
  {
    s.(trace := s.trace + [StackOperation(env.callId, i, |s.trace|, false, s.stack[i])])
  }

  /** The record of having written stack slot i. */
  function WriteSlot(env: Env, s: State, i: nat): State
    requires i < |s.stack|
  {
    s.(trace := s.trace + [StackOperation(env.callId, i, |s.trace|, true, s.stack[i])])
  }

  /** The per-byte memory records of a 32-byte access at addr. */
  function MemoryRecords(env: Env, s: State, addr: nat, isWrite: bool): State
    requires addr + 32 <= |s.memory| && addr <= MAX_BUFFER_SIZE
  {
    s.(trace := s.trace + seq(32, j requires 0 <= j < 32 =>
      MemoryOperation(env.callId, addr + j, |s.trace| + j, isWrite, s.memory[addr + j])))
  }

  function Push(env: Env, s: State, w: Word): State {
    var s' := s.(stack := s.stack + [w]);
    WriteSlot(env, s', |s.stack|)
  }

  function Drop(s: State, k: nat): State
    requires k <= |s.stack|
  {
    s.(stack := s.stack[..|s.stack| - k])
  }

  function Advance(s: State, k: nat): Outcome {
    Next(s.(pc := s.pc + k))
  }

  // ---------------------------------------------------------------- computation

  function WordMul(x: Word, y: Word): Word {
    var product: nat := x * y;
    product % TWO_256
  }

  function WordDiv(x: Word, y: Word): Word {
    if y == 0 then 0
    else
      QuotientAtMost(x, y);
      x / y
  }

  function WordMod(x: Word, y: Word): Word {
    if y == 0 then 0 else x % y
  }

  lemma QuotientAtMost(x: nat, y: nat)
    requires y > 0
    ensures x / y <= x
  {
    Product(x / y, y);
    assert x == (x / y) * y + x % y;
  }

  lemma Product(a: nat, b: nat)
    requires b > 0
    ensures a <= a * b
  {
  }

  /** Results of two-operand instructions; x is the top item. Library routines contribute `other`. */
  function Alu(op: byte, x: Word, y: Word, other: Word): Word {
    if op == OP_ADD then (x + y) % TWO_256
    else if op == OP_MUL then WordMul(x, y)
    else if op == OP_SUB then (x - y) % TWO_256
    else if op == OP_DIV then WordDiv(x, y)
    else if op == OP_MOD then WordMod(x, y)
    else if op == OP_LT then (if x < y then 1 else 0)
    else if op == OP_GT then (if y < x then 1 else 0)
    else if op == OP_EQ then (if x == y then 1 else 0)
    else other
  }

  function Unary(op: byte, x: Word, other: Word): Word {
    if op == OP_ISZERO then (if x == 0 then 1 else 0)
    else if op == OP_NOT then TWO_256 - 1 - x
    else other
  }

  function AddMod(x: Word, y: Word, m: Word): Word {
    if m == 0 then 0 else (x + y) % m
  }

  function MulMod(x: Word, y: Word, m: Word): Word {
    if m == 0 then 0 else (x * y) % m
  }

  /** Subtraction takes the top item as minuend, and undoes addition modulo 2^256. */
  lemma SubUndoesAdd(x: Word, y: Word, other: Word)
    ensures Alu(OP_SUB, Alu(OP_ADD, x, y, other), y, other) == x
    ensures Alu(OP_ADD, Alu(OP_SUB, x, y, other), y, other) == x
  {
    hide WordMul, WordDiv, WordMod;
    Wrap(x + y);
    Wrap(x - y);
    Wrap((x + y) % TWO_256 - y);
    Wrap((x - y) % TWO_256 + y);
  }

  /** MULMOD reduces the unbounded product. */
  lemma MulModExact(x: Word, y: Word, m: Word) returns (k: nat)
    requires m > 0
    ensures x * y == k * m + MulMod(x, y, m) && MulMod(x, y, m) < m
  {
    hide MulMod;
    var product: nat := x * y;
    k := product / m;
    MulModIs(x, y, m, product);
    Euclid(product, m);
  }

  lemma MulModIs(x: Word, y: Word, m: Word, product: nat)
    requires m > 0 && product == x * y
    ensures MulMod(x, y, m) == product % m
  {
  }

  function ExecBinary(env: Env, ch: Choice, s: State, op: byte): Outcome
    requires |s.stack| >= 2
  {
    var n := |s.stack|;
    var x, y := s.stack[n - 1], s.stack[n - 2];
    var read := ReadSlot(env, ReadSlot(env, s, n - 2), n - 1);
    var done := read.(stack := s.stack[..n - 2] + [Alu(op, x, y, ch.word)]);
    Advance(WriteSlot(env, done, n - 2), 1)
  }

  function ExecAddMod(env: Env, s: State): Outcome
    requires |s.stack| >= 3
  {
    var n := |s.stack|;
    var read := ReadSlot(env, ReadSlot(env, ReadSlot(env, s, n - 3), n - 2), n - 1);
    var done := read.(stack := s.stack[..n - 3] + [AddMod(s.stack[n - 1], s.stack[n - 2], s.stack[n - 3])]);
    Advance(WriteSlot(env, done, n - 3), 1)
  }

  /** MULMOD records a write of the unchanged top item; the result goes, unrecorded, to the third item. */
  function ExecMulMod(env: Env, s: State): Outcome
    requires |s.stack| >= 3
  {
    var n := |s.stack|;
    var read := ReadSlot(env, ReadSlot(env, ReadSlot(env, s, n - 3), n - 2), n - 1);
    var m := MulMod(s.stack[n - 1], s.stack[n - 2], s.stack[n - 3]);
    var written := WriteSlot(env, read.(stack := s.stack[n - 3 := m]), n - 1);
    Advance(Drop(written, 2), 1)
  }

  function ExecUnary(env: Env, ch: Choice, s: State, op: byte): Outcome
    requires |s.stack| >= 1
  {
    var n := |s.stack|;
    var read := ReadSlot(env, s, n - 1);
    Advance(WriteSlot(env, read.(stack := s.stack[n - 1 := Unary(op, s.stack[n - 1], ch.word)]), n - 1), 1)
  }

  // ---------------------------------------------------------------- memory

  /** MLOAD once memory is large enough: the word replaces the top item, byte records first. */
  function Loaded(env: Env, s: State, addr: nat): State
    requires |s.stack| >= 1 && addr + 32 <= |s.memory| && addr <= MAX_BUFFER_SIZE
  {
    var top := |s.stack| - 1;
    var loaded := s.(stack := s.stack[top := WordFromBytes(s.memory[addr..addr + 32])]);
    WriteSlot(env, MemoryRecords(env, loaded, addr, false), top)
  }

  function ExecMLoad(env: Env, s: State): Outcome
    requires |s.stack| >= 1
  {
    var n := |s.stack|;
    var read := ReadSlot(env, s, n - 1);
    var a := Touch(s.gas, s.memory, s.stack[n - 1], 32);
    if !a.ok then Halt(OutOfGas, read.(gas := a.gas, memory := a.memory), false)
    else
      var addr := Low64(s.stack[n - 1]);
      TouchCovers(s.gas, s.memory, s.stack[n - 1], 32);
      Advance(Loaded(env, read.(gas := a.gas, memory := a.memory), addr), 1)
  }

  lemma TouchCovers(gas: int, memory: seq<byte>, offset: Word, size: nat)
    requires Touch(gas, memory, offset, size).ok
    ensures Low64(offset) + size <= |Touch(gas, memory, offset, size).memory| && Low64(offset) <= MAX_BUFFER_SIZE
  {
    RoundUp(Low64(offset) + size);
  }

  /** MSTORE of any width charges for, and records, 32 bytes, and writes `width` of them. */
  function ExecMStore(env: Env, s: State, width: nat): Outcome
    requires |s.stack| >= 2 && 1 <= width <= 32
  {
    var n := |s.stack|;
    var read := ReadSlot(env, ReadSlot(env, s, n - 2), n - 1);
    var a := Touch(s.gas, s.memory, s.stack[n - 1], 32);
    if !a.ok then Halt(OutOfGas, Drop(read, 2).(gas := a.gas, memory := a.memory), false)
    else
      var addr := Low64(s.stack[n - 1]);
      TouchCovers(s.gas, s.memory, s.stack[n - 1], 32);
      var stored := Drop(read, 2).(gas := a.gas, memory := StoreAt(a.memory, addr, s.stack[n - 2], width));
      Advance(MemoryRecords(env, stored, addr, true), 1)
  }

  function ExecReturn(env: Env, s: State, status: Status): Outcome
    requires |s.stack| >= 2
  {
    var n := |s.stack|;
    var read := ReadSlot(env, ReadSlot(env, s, n - 2), n - 1);
    var a := TouchRange(s.gas, s.memory, s.stack[n - 1], s.stack[n - 2]);
    Halt(if a.ok then status else OutOfGas, read.(gas := a.gas, memory := a.memory), false)
  }

  // ---------------------------------------------------------------- pushing, copying, swapping

  /** Records a PUSH of len data bytes makes: one for PUSH0 and PUSH32, len in between. */
  function PushRecords(len: nat): nat {
    if len == 0 || len == 32 then 1 else len
  }

  /** k records of the top k slots; slots below the bottom wrap around and hold anything. */
  function WriteTop(env: Env, s: State, i: nat, k: nat, stale: int -> Word): State
    decreases k - i
  {
    if i >= k then s
    else
      var slot: int := |s.stack| - 1 - i;
      var v := if slot >= 0 then s.stack[slot] else stale(slot);
      WriteTop(env, s.(trace := s.trace + [StackOperation(env.callId, slot, |s.trace|, true, v)]), i + 1, k, stale)
  }

  function ExecPush(env: Env, ch: Choice, s: State, len: nat): Outcome
    requires len <= 32
  {
    if s.pc < 0 || s.pc + PushReach(len) >= |env.code| then Fault
    else
      var w := WordFromBytes(env.code[s.pc + 1..s.pc + 1 + len]);
      Advance(WriteTop(env, s.(stack := s.stack + [w]), 0, PushRecords(len), ch.stale), len + 1)
  }

  function ExecDup(env: Env, s: State, n: nat): Outcome
    requires 1 <= n <= |s.stack|
  {
    Advance(Push(env, ReadSlot(env, s, |s.stack| - n), s.stack[|s.stack| - n]), 1)
  }

  /** The items at depth 0 and n exchanged. */
  function Swapped(stack: seq<Word>, n: nat): (r: seq<Word>)
    requires n < |stack|
    ensures |r| == |stack|
  {
    var top := |stack| - 1;
    stack[top := stack[top - n]][top - n := stack[top]]
  }

  /** SWAP1-16: the second write record names the slot above the one that changed. */
  function ExecSwap(env: Env, s: State, n: nat): Outcome
    requires 1 <= n < |s.stack|
  {
    var size := |s.stack|;
    var read := ReadSlot(env, ReadSlot(env, s, size - n - 1), size - 1);
    var done := read.(stack := Swapped(s.stack, n));
    Advance(WriteSlot(env, WriteSlot(env, done, size - 1), size - n), 1)
  }

  /** The stack slot that the indexed DUP copies: its depth is an `int`, and 0 names the popped depth itself. */
  function DupSlot(stack: seq<Word>): int
    requires |stack| > 0
  {
    |stack| - 1 - Signed32(Low64(stack[|stack| - 1]))
  }

  /** The depth operand leads outside the stack array, or in the case of SWAP below its bottom. */
  predicate IndexOutside(op: byte, stack: seq<Word>) {
    |stack| > 0 &&
    if op == OP_DUP then !(0 <= DupSlot(stack) < STACK_LIMIT)
    else Low64(stack[|stack| - 1]) % 0x1_0000 + 2 > |stack|
  }

  /** DUP (0xa7): the depth is on the stack; a negative one copies a stale word from above the top. */
  function ExecDupAt(env: Env, ch: Choice, s: State): Outcome
    requires |s.stack| >= 1
  {
    var n := |s.stack|;
    if IndexOutside(OP_DUP, s.stack) then Fault
    else
      var slot := DupSlot(s.stack);
      var w := if slot < n then s.stack[slot] else ch.stale(slot);
      var read := ReadSlot(env, s, n - 1);
      var copied := read.(trace := read.trace + [StackOperation(env.callId, slot, |read.trace|, false, w)]);
      Advance(Push(env, Drop(copied, 1), w), 1)
  }

  /** SWAP (0xa6): depth 0 exchanges the top with itself, and its second write names the popped slot. */
  function ExecSwapAt(env: Env, s: State): Outcome
    requires |s.stack| >= 1
  {
    var n := |s.stack|;
    if IndexOutside(OP_SWAP, s.stack) then Fault
    else
      var depth := Low64(s.stack[n - 1]) % 0x1_0000;
      var read := ReadSlot(env, s, n - 1);
      if depth > 0 then ExecSwap(env, Drop(read, 1), depth)
      else
        var again := ReadSlot(env, ReadSlot(env, read, n - 2), n - 2);
        Advance(Drop(WriteSlot(env, WriteSlot(env, again, n - 2), n - 1), 1), 1)
  }

  function ExecDupN(env: Env, s: State): Outcome {
    if s.pc < 0 || s.pc + 1 >= |env.code| then Fault
    else
      var n := env.code[s.pc + 1] as int + 1;
      if |s.stack| < n then Halt(Underflow, s, false)
      else Advance(Push(env, ReadSlot(env, s, |s.stack| - n), s.stack[|s.stack| - n]), 2)
  }

  function ExecSwapN(env: Env, s: State): Outcome {
    if s.pc < 0 || s.pc + 1 >= |env.code| then Fault
    else
      var n := env.code[s.pc + 1] as int + 1;
      var size := |s.stack|;
      if size <= n then Halt(Underflow, s, false)
      else
        var read := ReadSlot(env, ReadSlot(env, s, size - n - 1), size - 1);
        var done := read.(stack := Swapped(s.stack, n));
        Advance(WriteSlot(env, WriteSlot(env, done, size - 1), size - n - 1), 2)
  }

  /** An exchange touches two items, and a second one undoes it. */
  lemma SwapTwice(stack: seq<Word>, n: nat)
    requires n < |stack|
    ensures Swapped(Swapped(stack, n), n) == stack
    ensures Swapped(stack, n)[|stack| - 1] == stack[|stack| - 1 - n]
    ensures forall i :: 0 <= i < |stack| - 1 && i != |stack| - 1 - n ==> Swapped(stack, n)[i] == stack[i]
  {
  }

  /** MSTORE and then MLOAD at the same offset: the word comes back, and the load costs nothing more. */
  lemma StoreThenLoad(env: Env, s: State, offset: Word)
    requires |s.stack| >= 2 && s.stack[|s.stack| - 1] == offset && ExecMStore(env, s, 32).Next?
    requires s.gas >= 0
    ensures var w, stored := s.stack[|s.stack| - 2], ExecMStore(env, s, 32).s;
      var o := ExecMLoad(env, stored.(stack := stored.stack + [offset]));
      && o.Next? && o.s.stack == stored.stack + [w] && o.s.memory == stored.memory && o.s.gas == stored.gas
  {
    hide ToBytes, FromBytes, Touch;
    var n := |s.stack|;
    var w, stored := s.stack[n - 2], ExecMStore(env, s, 32).s;
    var a := Touch(s.gas, s.memory, offset, 32);
    TouchCovers(s.gas, s.memory, offset, 32);
    MemoryShape(s, 1);
    MemoryRoundTrip(a.memory, Low64(offset), w);
    TouchedAgain(stored.gas, stored.memory, offset);
    var again := stored.(stack := stored.stack + [offset]);
    assert again.stack[|again.stack| - 1 := w] == stored.stack + [w];
  }

  /** A range that memory already covers costs nothing. */
  lemma TouchedAgain(gas: int, memory: seq<byte>, offset: Word)
    requires gas >= 0 && Low64(offset) + 32 <= |memory| && Low64(offset) <= MAX_BUFFER_SIZE
    ensures Touch(gas, memory, offset, 32) == Access(true, gas, memory)
  {
  }

  // ---------------------------------------------------------------- control

  /** `jump_impl`: only marked positions inside the original code are destinations. */
  function JumpTo(env: Env, s: State, dst: Word): Outcome {
    if Low64(dst) >= |env.jumpdests| || !env.jumpdests[Low64(dst)] then Halt(BadJumpDestination, s, false)
    else Next(s.(pc := env.origin + Low64(dst)))
  }

  function ExecJump(env: Env, s: State): Outcome
    requires |s.stack| >= 1
  {
    JumpTo(env, Drop(ReadSlot(env, s, |s.stack| - 1), 1), s.stack[|s.stack| - 1])
  }

  function ExecJumpI(env: Env, s: State): Outcome
    requires |s.stack| >= 2
  {
    var n := |s.stack|;
    var read := Drop(ReadSlot(env, ReadSlot(env, s, n - 2), n - 1), 2);
    if Low64(s.stack[n - 2]) > 0 then JumpTo(env, read, s.stack[n - 1]) else Advance(read, 1)
  }

  function ExecRJump(env: Env, s: State): Outcome {
    if s.pc < 0 || s.pc + 2 >= |env.code| then Fault
    else Next(s.(pc := s.pc + 3 + I16(env.code, s.pc + 1)))
  }

  function ExecRJumpI(env: Env, s: State): Outcome
    requires |s.stack| >= 1
  {
    var n := |s.stack|;
    var read := Drop(ReadSlot(env, s, n - 1), 1);
    if Low64(s.stack[n - 1]) > 0 then ExecRJump(env, read) else Advance(read, 3)
  }

  function ExecRJumpV(env: Env, s: State): Outcome
    requires |s.stack| >= 1
  {
    if s.pc < 0 || s.pc + 1 >= |env.code| then Fault
    else
      var n := |s.stack|;
      var read := Drop(ReadSlot(env, s, n - 1), 1);
      var index, maxIndex := Low64(s.stack[n - 1]), env.code[s.pc + 1];
      var post := s.pc + 1 + 1 + (maxIndex as int + 1) * REL_OFFSET_SIZE;
      if index > maxIndex then Next(read.(pc := post))
      else if s.pc + 2 + index * REL_OFFSET_SIZE + 1 >= |env.code| then Fault
      else Next(read.(pc := post + I16(env.code, s.pc + 2 + index * REL_OFFSET_SIZE)))
  }

  /** The section named by the two bytes after pc, if it exists. */
  predicate SectionOperand(env: Env, pc: int) {
    && 0 <= pc && pc + 2 < |env.code|
    && U16(env.code, pc + 1) < |env.types| == |env.codeOffsets|
  }

  /** `callee_required_stack_size`: negative when the callee's maximum is below its inputs. */
  function CalleeRoom(env: Env, pc: int): int
    requires SectionOperand(env, pc)
  {
    var t := env.types[U16(env.code, pc + 1)];
    t.maxStackHeight - t.inputs
  }

  function SectionEntry(env: Env, pc: int): int
    requires SectionOperand(env, pc)
  {
    env.origin + env.codeOffsets[U16(env.code, pc + 1)] - env.codeOffsets[0]
  }

  function ExecCallF(env: Env, s: State): Outcome {
    if !SectionOperand(env, s.pc) then Fault
    else if |s.stack| + CalleeRoom(env, s.pc) > STACK_LIMIT then Halt(Overflow, s, false)
    else if |s.callStack| >= STACK_LIMIT then Halt(Overflow, s, false)
    else Next(s.(callStack := s.callStack + [s.pc + 3], pc := SectionEntry(env, s.pc)))
  }

  function ExecRetF(env: Env, s: State): Outcome {
    if s.callStack == [] then Fault
    else
      var last := |s.callStack| - 1;
      Next(s.(pc := s.callStack[last], callStack := s.callStack[..last]))
  }

  function ExecJumpF(env: Env, s: State): Outcome {
    if !SectionOperand(env, s.pc) then Fault
    else if |s.stack| + CalleeRoom(env, s.pc) > STACK_LIMIT then Halt(Overflow, s, false)
    else Next(s.(pc := SectionEntry(env, s.pc)))
  }

  function ExecDataLoadN(env: Env, s: State): Outcome {
    if s.pc < 0 || s.pc + 2 >= |env.code| then Fault
    else
      var index := U16(env.code, s.pc + 1);
      if index + 32 > |env.data| then Fault
      else Advance(Push(env, s, WordFromBytes(env.data[index..index + 32])), 3)
  }

  // ---------------------------------------------------------------- external instructions

  /** Exactly n words: the outside world cannot change how many items an instruction leaves. */
  function Fit(results: seq<Word>, n: nat): (r: seq<Word>)
    ensures |r| == n
  {
    seq(n, i requires 0 <= i < n => if i < |results| then results[i] else 0)
  }

  /** A host, hashing or copying instruction: its arity is fixed, everything else comes from outside. */
  function ExecExternal(ch: Choice, s: State, pops: nat, pushes: nat): Outcome
    requires |s.stack| >= pops
  {
    var charged := s.(gas := s.gas - ch.cost);
    if charged.gas < 0 then Halt(OutOfGas, charged, false)
    else if ch.failure then Halt(ExternalFailure, charged, false)
    else
      Advance(charged.(stack := s.stack[..|s.stack| - pops] + Fit(ch.results, pushes),
                       memory := ch.memory, trace := s.trace + ch.records), 1)
  }

  /** SELFDESTRUCT: refused in static mode before anything is recorded. */
  function ExecSelfdestruct(env: Env, ch: Choice, s: State): Outcome
    requires |s.stack| >= 1
  {
    if ch.failure then Halt(ExternalFailure, s, false)
    else
      var charged := ReadSlot(env, s, |s.stack| - 1).(gas := s.gas - ch.cost);
      Halt(if charged.gas < 0 then OutOfGas else Success, charged, false)
  }

  // ---------------------------------------------------------------- one step

  function Exec(env: Env, ch: Choice, s: State, op: byte): Outcome
    requires |s.stack| >= TraitsOf(op).stackHeightRequired
  {
    TraitsMatchImplementation(op);
    match KindOf(op)
    case KStop => Halt(Success, s, false)
    case KInvalid => Halt(InvalidOpcode, s, false)
    case KReturn(status) => ExecReturn(env, s, status)
    case KDrop(n) => Advance(Drop(s, n), 1)
    case KBinary => ExecBinary(env, ch, s, op)
    case KAddMod => ExecAddMod(env, s)
    case KMulMod => ExecMulMod(env, s)
    case KUnary => ExecUnary(env, ch, s, op)
    case KMLoad => ExecMLoad(env, s)
    case KMStore(width) => ExecMStore(env, s, width)
    case KJump => ExecJump(env, s)
    case KJumpI => ExecJumpI(env, s)
    case KPc => Advance(Push(env, s, (s.pc - env.origin) % TWO_256), 1)
    case KMSize => Advance(Push(env, s, |s.memory| % TWO_256), 1)
    case KGas => Advance(Push(env, s, s.gas % TWO_256), 1)
    case KPush(len) => ExecPush(env, ch, s, len)
    case KEnvPush => Advance(Push(env, s, ch.word), 1)
    case KDup(n) => ExecDup(env, s, n)
    case KSwap(n) => ExecSwap(env, s, n)
    case KDupN => ExecDupN(env, s)
    case KSwapN => ExecSwapN(env, s)
    case KRJump => ExecRJump(env, s)
    case KRJumpI => ExecRJumpI(env, s)
    case KRJumpV => ExecRJumpV(env, s)
    case KCallF => ExecCallF(env, s)
    case KRetF => ExecRetF(env, s)
    case KJumpF => ExecJumpF(env, s)
    case KDataLoadN => ExecDataLoadN(env, s)
    case KDupAt => ExecDupAt(env, ch, s)
    case KSwapAt => ExecSwapAt(env, s)
    case KExternal(pops, pushes) => ExecExternal(ch, s, pops, pushes)
    case KSelfdestruct => ExecSelfdestruct(env, ch, s)
    case KUnimplemented => Halt(UndefinedOpcode, s, false)
  }

  /** Which implementation a jump or frame instruction is. */
  lemma ExecControl(env: Env, ch: Choice, s: State, op: byte)
    requires |s.stack| >= TraitsOf(op).stackHeightRequired && KindFits(KindOf(op), TraitsOf(op))
    ensures KindOf(op) == KJump ==> Exec(env, ch, s, op) == ExecJump(env, s)
    ensures KindOf(op) == KJumpI ==> Exec(env, ch, s, op) == ExecJumpI(env, s)
    ensures KindOf(op) == KRJump ==> Exec(env, ch, s, op) == ExecRJump(env, s)
    ensures KindOf(op) == KRJumpI ==> Exec(env, ch, s, op) == ExecRJumpI(env, s)
    ensures KindOf(op) == KRJumpV ==> Exec(env, ch, s, op) == ExecRJumpV(env, s)
    ensures KindOf(op) == KCallF ==> Exec(env, ch, s, op) == ExecCallF(env, s)
    ensures KindOf(op) == KRetF ==> Exec(env, ch, s, op) == ExecRetF(env, s)
    ensures KindOf(op) == KJumpF ==> Exec(env, ch, s, op) == ExecJumpF(env, s)
  {
    hide KindOf, TraitsOf, ExecJump, ExecJumpI, ExecRJump, ExecRJumpI, ExecRJumpV, ExecCallF, ExecRetF, ExecJumpF;
  }

  /** Which implementation an arithmetic instruction is. */
  lemma ExecArithmetic(env: Env, ch: Choice, s: State, op: byte)
    requires |s.stack| >= TraitsOf(op).stackHeightRequired && KindFits(KindOf(op), TraitsOf(op))
    ensures KindOf(op) == KBinary ==> Exec(env, ch, s, op) == ExecBinary(env, ch, s, op)
    ensures KindOf(op) == KAddMod ==> Exec(env, ch, s, op) == ExecAddMod(env, s)
    ensures KindOf(op) == KMulMod ==> Exec(env, ch, s, op) == ExecMulMod(env, s)
    ensures KindOf(op) == KUnary ==> Exec(env, ch, s, op) == ExecUnary(env, ch, s, op)
  {
    hide KindOf, TraitsOf, ExecBinary, ExecAddMod, ExecMulMod, ExecUnary;
  }

  /** Which implementation a halting or popping instruction is. */
  lemma ExecHalting(env: Env, ch: Choice, s: State, op: byte)
    requires |s.stack| >= TraitsOf(op).stackHeightRequired && KindFits(KindOf(op), TraitsOf(op))
    ensures KindOf(op) == KStop ==> Exec(env, ch, s, op) == Halt(Success, s, false)
    ensures KindOf(op) == KInvalid ==> Exec(env, ch, s, op) == Halt(InvalidOpcode, s, false)
    ensures KindOf(op) == KUnimplemented ==> Exec(env, ch, s, op) == Halt(UndefinedOpcode, s, false)
    ensures KindOf(op).KDrop? ==> Exec(env, ch, s, op) == Advance(Drop(s, KindOf(op).count), 1)
  {
    hide KindOf, TraitsOf;
  }

  /** Which implementation a memory or host instruction is. */
  lemma ExecAccess(env: Env, ch: Choice, s: State, op: byte)
    requires |s.stack| >= TraitsOf(op).stackHeightRequired && KindFits(KindOf(op), TraitsOf(op))
    ensures KindOf(op) == KMLoad ==> Exec(env, ch, s, op) == ExecMLoad(env, s)
    ensures KindOf(op).KMStore? ==> Exec(env, ch, s, op) == ExecMStore(env, s, KindOf(op).width)
    ensures KindOf(op).KReturn? ==> Exec(env, ch, s, op) == ExecReturn(env, s, KindOf(op).status)
    ensures KindOf(op).KExternal? ==> Exec(env, ch, s, op) == ExecExternal(ch, s, KindOf(op).pops, KindOf(op).pushes)
    ensures KindOf(op) == KSelfdestruct ==> Exec(env, ch, s, op) == ExecSelfdestruct(env, ch, s)
  {
    hide KindOf, TraitsOf, ExecMLoad, ExecMStore, ExecReturn, ExecExternal;
  }

  lemma ExecPushing(env: Env, ch: Choice, s: State, op: byte)
    requires |s.stack| >= TraitsOf(op).stackHeightRequired && KindFits(KindOf(op), TraitsOf(op))
    ensures KindOf(op) == KPc ==> Exec(env, ch, s, op) == Advance(Push(env, s, (s.pc - env.origin) % TWO_256), 1)
    ensures KindOf(op) == KMSize ==> Exec(env, ch, s, op) == Advance(Push(env, s, |s.memory| % TWO_256), 1)
    ensures KindOf(op) == KGas ==> Exec(env, ch, s, op) == Advance(Push(env, s, s.gas % TWO_256), 1)
    ensures KindOf(op) == KEnvPush ==> Exec(env, ch, s, op) == Advance(Push(env, s, ch.word), 1)
    ensures KindOf(op).KPush? ==> Exec(env, ch, s, op) == ExecPush(env, ch, s, KindOf(op).len)
    ensures KindOf(op) == KDataLoadN ==> Exec(env, ch, s, op) == ExecDataLoadN(env, s)
  {
    hide KindOf, TraitsOf, ExecPush, ExecDataLoadN, Push, Advance;
  }

  lemma ExecMoving(env: Env, ch: Choice, s: State, op: byte)
    requires |s.stack| >= TraitsOf(op).stackHeightRequired && KindFits(KindOf(op), TraitsOf(op))
    ensures KindOf(op).KDup? ==> Exec(env, ch, s, op) == ExecDup(env, s, KindOf(op).n)
    ensures KindOf(op).KSwap? ==> Exec(env, ch, s, op) == ExecSwap(env, s, KindOf(op).n)
    ensures KindOf(op) == KDupAt ==> Exec(env, ch, s, op) == ExecDupAt(env, ch, s)
    ensures KindOf(op) == KSwapAt ==> Exec(env, ch, s, op) == ExecSwapAt(env, s)
    ensures KindOf(op) == KDupN ==> Exec(env, ch, s, op) == ExecDupN(env, s)
    ensures KindOf(op) == KSwapN ==> Exec(env, ch, s, op) == ExecSwapN(env, s)
  {
    hide KindOf, TraitsOf, ExecDup, ExecSwap, ExecDupAt, ExecSwapAt, ExecDupN, ExecSwapN;
  }

  /** Which implementation a pushing, copying or exchanging instruction is. */
  lemma ExecStackMove(env: Env, ch: Choice, s: State, op: byte)
    requires |s.stack| >= TraitsOf(op).stackHeightRequired && KindFits(KindOf(op), TraitsOf(op))
    ensures KindOf(op) == KPc ==> Exec(env, ch, s, op) == Advance(Push(env, s, (s.pc - env.origin) % TWO_256), 1)
    ensures KindOf(op) == KMSize ==> Exec(env, ch, s, op) == Advance(Push(env, s, |s.memory| % TWO_256), 1)
    ensures KindOf(op) == KGas ==> Exec(env, ch, s, op) == Advance(Push(env, s, s.gas % TWO_256), 1)
    ensures KindOf(op) == KEnvPush ==> Exec(env, ch, s, op) == Advance(Push(env, s, ch.word), 1)
    ensures KindOf(op).KPush? ==> Exec(env, ch, s, op) == ExecPush(env, ch, s, KindOf(op).len)
    ensures KindOf(op).KDup? ==> Exec(env, ch, s, op) == ExecDup(env, s, KindOf(op).n)
    ensures KindOf(op).KSwap? ==> Exec(env, ch, s, op) == ExecSwap(env, s, KindOf(op).n)
    ensures KindOf(op) == KDupAt ==> Exec(env, ch, s, op) == ExecDupAt(env, ch, s)
    ensures KindOf(op) == KSwapAt ==> Exec(env, ch, s, op) == ExecSwapAt(env, s)
    ensures KindOf(op) == KDupN ==> Exec(env, ch, s, op) == ExecDupN(env, s)
    ensures KindOf(op) == KSwapN ==> Exec(env, ch, s, op) == ExecSwapN(env, s)
    ensures KindOf(op) == KDataLoadN ==> Exec(env, ch, s, op) == ExecDataLoadN(env, s)
  {
    hide *;
    ExecPushing(env, ch, s, op);
    ExecMoving(env, ch, s, op);
  }

  lemma CheckPassed(env: Env, gas: int, height: nat, op: byte)
    requires CheckRequirements(env, gas, height, op).0 == None
    ensures height >= TraitsOf(op).stackHeightRequired
    ensures CheckRequirements(env, gas, height, op).1 == gas - BaseCost(env, op) >= 0
    ensures height == STACK_LIMIT ==> TraitsOf(op).stackHeightChange <= 0
  {
  }

  /** `invoke`: fetch, check, execute. */
  function Step(env: Env, ch: Choice, s: State): Outcome {
    if !(0 <= s.pc < |env.code|) then Fault
    else
      var op := env.code[s.pc];
      var (failed, gas) := CheckRequirements(env, s.gas, |s.stack|, op);
      match failed
      case Some(status) => Halt(status, s.(gas := gas), true)
      case None =>
        CheckPassed(env, s.gas, |s.stack|, op);
        Exec(env, ch, s.(gas := gas), op)
  }

  /** A step whose requirements are met is its instruction, after the base charge. */
  lemma PassedStep(env: Env, ch: Choice, s: State, op: byte, gas: int)
    requires 0 <= s.pc < |env.code| && op == env.code[s.pc]
    requires CheckRequirements(env, s.gas, |s.stack|, op) == (None, gas)
    ensures |s.stack| >= TraitsOf(op).stackHeightRequired && Step(env, ch, s) == Exec(env, ch, s.(gas := gas), op)
  {
    hide Exec, TraitsOf, CheckRequirements;
    CheckPassed(env, s.gas, |s.stack|, op);
  }

  // ---------------------------------------------------------------- runs

  /** The blank state in which code starts. */
  function Start(env: Env, gas: int): State {
    State(env.origin, gas, [], [], [], [])
  }

  /** A run: one choice per step, ending at the first step that does not continue. */
  function Run(env: Env, choices: nat -> Choice, s: State, n: nat): Outcome
    decreases n
  {
    if n == 0 then Next(s)
    else
      match Run(env, choices, s, n - 1)
      case Next(s') => Step(env, choices(n - 1), s')
      case stopped => stopped
  }

  lemma StepInRun(env: Env, choices: nat -> Choice, s: State, e: nat)
    requires e > 0 && Run(env, choices, s, e - 1).Next?
    ensures Run(env, choices, s, e) == Step(env, choices(e - 1), Run(env, choices, s, e - 1).s)
  {
    hide Step;
  }

  lemma {:induction false} FaultRemains(env: Env, choices: nat -> Choice, s: State, m: nat, n: nat)
    requires m <= n && Run(env, choices, s, m).Fault?
    ensures Run(env, choices, s, n).Fault?
    decreases n
  {
    hide Step;
    if m < n { FaultRemains(env, choices, s, m, n - 1); }
  }

  // ---------------------------------------------------------------- shape of a step

  predicate IsControl(k: Kind) {
    k.KJump? || k.KJumpI? || k.KRJump? || k.KRJumpI? || k.KRJumpV? || k.KCallF? || k.KRetF? || k.KJumpF?
  }

  /** The instructions outside the control group that can halt with each status. */
  predicate HaltFits(k: Kind, status: Status) {
    match status
    case Success => k == KStop || k == KReturn(Success) || k == KSelfdestruct
    case Revert => k == KReturn(Revert)
    case OutOfGas => k.KMLoad? || k.KMStore? || k.KReturn? || k.KExternal? || k == KSelfdestruct
    case UndefinedOpcode => k == KUnimplemented
    case InvalidOpcode => k == KInvalid
    case Underflow => k == KDupN || k == KSwapN
    case ExternalFailure => k.KExternal? || k == KSelfdestruct
    case _ => false
  }

  /** What an instruction outside the control group does to position, stack height and return stack. */
  ghost predicate Ordinary(env: Env, ch: Choice, s: State, op: byte, o: Outcome) {
    var k, t := KindOf(op), TraitsOf(op);
    match o
    case Next(s') =>
      && s'.pc == s.pc + 1 + t.immediateSize && s'.callStack == s.callStack
      && |s'.stack| == |s.stack| + t.stackHeightChange
      && !t.isTerminating && k != KUnimplemented
      && (ch.cost >= 0 ==> s'.gas <= s.gas) && (s.gas >= 0 ==> s'.gas >= 0)
    case Halt(status, _, atCheck) =>
      !atCheck && HaltFits(k, status)
    case Fault =>
      || ((k == KDupAt || k == KSwapAt) && IndexOutside(op, s.stack))
      || (k.KPush? && PushLeaves(env, s.pc, k.len))
      || (k == KDataLoadN && (s.pc < 0 || s.pc + 2 >= |env.code| || U16(env.code, s.pc + 1) + 32 > |env.data|))
  }

  /** The loads of a push of len bytes at pc leave the readable buffer. */
  predicate PushLeaves(env: Env, pc: int, len: nat) {
    len <= 32 && pc + PushReach(len) >= |env.code|
  }

  /** PUSH5 or PUSH6 too close to the end of the buffer: its one load takes eight bytes after the opcode. */
  predicate OverReads(env: Env, pc: int) {
    0 <= pc < |env.code| && (env.code[pc] == OP_PUSH5 || env.code[pc] == OP_PUSH6) && pc + 8 >= |env.code|
  }

  /** The step at the current position has no defined continuation: what it loads or copies lies outside the code
      buffer or the stack array. */
  predicate Stuck(env: Env, s: State) {
    0 <= s.pc < |env.code| &&
    var op := env.code[s.pc];
    OverReads(env, s.pc) || ((op == OP_DUP || op == OP_SWAP) && IndexOutside(op, s.stack))
  }

  /** No step at pc can be stuck, whatever is on the stack. */
  predicate Harmless(env: Env, pc: int) {
    0 <= pc < |env.code| ==> env.code[pc] != OP_DUP && env.code[pc] != OP_SWAP && !OverReads(env, pc)
  }

  predicate ImmediateInside(env: Env, s: State, op: byte) {
    0 <= s.pc && s.pc + TraitsOf(op).immediateSize < |env.code|
  }

  lemma ArithmeticShape(env: Env, ch: Choice, s: State, op: byte)
    requires |s.stack| >= TraitsOf(op).stackHeightRequired
    requires KindOf(op) in {KBinary, KAddMod, KMulMod, KUnary}
    ensures Ordinary(env, ch, s, op, Exec(env, ch, s, op))
  {
    hide KindOf, TraitsOf, Exec, Alu, Unary, AddMod, MulMod;
    TraitsMatchImplementation(op);
    ExecArithmetic(env, ch, s, op);
  }

  lemma HaltingShape(env: Env, ch: Choice, s: State, op: byte)
    requires |s.stack| >= TraitsOf(op).stackHeightRequired
    requires KindOf(op) in {KStop, KInvalid, KUnimplemented}
    ensures Ordinary(env, ch, s, op, Exec(env, ch, s, op))
  {
    hide KindOf, TraitsOf, Exec;
    TraitsMatchImplementation(op);
    ExecHalting(env, ch, s, op);
  }

  lemma DropShape(env: Env, ch: Choice, s: State, op: byte)
    requires |s.stack| >= TraitsOf(op).stackHeightRequired && KindOf(op).KDrop?
    ensures Ordinary(env, ch, s, op, Exec(env, ch, s, op))
  {
    hide KindOf, TraitsOf, Exec;
    TraitsMatchImplementation(op);
    ExecHalting(env, ch, s, op);
  }

  /** A memory instruction continues one byte on with `change` more items, or halts with one of two statuses. */
  ghost predicate AccessShape(s: State, o: Outcome, change: int, status: Status) {
    match o
    case Next(s') =>
      && s'.pc == s.pc + 1 && s'.callStack == s.callStack && |s'.stack| == |s.stack| + change
      && 0 <= s'.gas <= s.gas
    case Halt(st, _, atCheck) => !atCheck && (st == OutOfGas || st == status)
    case Fault => false
  }

  lemma MLoadShape(env: Env, s: State)
    requires |s.stack| >= 1
    ensures AccessShape(s, ExecMLoad(env, s), 0, OutOfGas)
  {
    hide Touch, WordFromBytes, Low64;
    MemoryShape(s, 1);
  }

  lemma MStoreShape(env: Env, s: State, width: nat)
    requires |s.stack| >= 2 && 1 <= width <= 32
    ensures AccessShape(s, ExecMStore(env, s, width), -2, OutOfGas)
  {
    hide Touch, StoreAt, Low64;
    MemoryShape(s, 1);
  }

  lemma ReturnShape(env: Env, s: State, status: Status)
    requires |s.stack| >= 2
    ensures AccessShape(s, ExecReturn(env, s, status), -2, status) && ExecReturn(env, s, status).Halt?
  {
    hide TouchRange;
  }

  lemma MemoryOpShape(env: Env, ch: Choice, s: State, op: byte)
    requires |s.stack| >= TraitsOf(op).stackHeightRequired
    requires var k := KindOf(op); k.KMLoad? || k.KMStore? || k.KReturn?
    ensures Ordinary(env, ch, s, op, Exec(env, ch, s, op))
  {
    hide KindOf, TraitsOf, Exec, ExecMLoad, ExecMStore, ExecReturn;
    TraitsMatchImplementation(op);
    ExecAccess(env, ch, s, op);
    ReturnStatus(op);
    match KindOf(op)
    case KMLoad => MLoadShape(env, s);
    case KMStore(width) => MStoreShape(env, s, width);
    case KReturn(status) => ReturnShape(env, s, status);
  }

  lemma ReturnStatus(op: byte)
    ensures KindOf(op).KReturn? ==> KindOf(op).status == Success || KindOf(op).status == Revert
  {
  }

  /** PC, MSIZE, GAS, environment values and DUP1-16. */
  lemma PushShape(env: Env, ch: Choice, s: State, op: byte)
    requires |s.stack| >= TraitsOf(op).stackHeightRequired && ImmediateInside(env, s, op)
    requires var k := KindOf(op); k in {KPc, KMSize, KGas, KEnvPush} || k.KDup?
    ensures Ordinary(env, ch, s, op, Exec(env, ch, s, op))
  {
    hide KindOf, TraitsOf, Exec;
    TraitsMatchImplementation(op);
    ExecStackMove(env, ch, s, op);
  }

  lemma PushDataShape(env: Env, ch: Choice, s: State, op: byte)
    requires |s.stack| >= TraitsOf(op).stackHeightRequired && ImmediateInside(env, s, op) && KindOf(op).KPush?
    ensures Ordinary(env, ch, s, op, Exec(env, ch, s, op))
  {
    hide KindOf, TraitsOf, Exec, ExecPush, PushLeaves;
    TraitsMatchImplementation(op);
    ExecStackMove(env, ch, s, op);
    PushEffect(env, ch, s, KindOf(op).len);
  }

  /** A push adds one item and skips its data, unless its loads leave the buffer. */
  lemma PushEffect(env: Env, ch: Choice, s: State, len: nat)
    requires len <= 32
    ensures var o := ExecPush(env, ch, s, len);
      && !o.Halt? && (o.Fault? <==> s.pc < 0 || PushLeaves(env, s.pc, len))
      && (!o.Fault? ==>
            && o.Next? && o.s.pc == s.pc + len + 1 && |o.s.stack| == |s.stack| + 1 && o.s.stack[..|s.stack|] == s.stack
            && o.s.gas == s.gas && o.s.callStack == s.callStack && o.s.memory == s.memory
            && |o.s.trace| == |s.trace| + PushRecords(len))
  {
    hide WriteTop, WordFromBytes, PushReach, PushRecords;
    if s.pc >= 0 && !PushLeaves(env, s.pc, len) {
      var w := WordFromBytes(env.code[s.pc + 1..s.pc + 1 + len]);
      WriteTopShape(env, s.(stack := s.stack + [w]), 0, PushRecords(len), ch.stale);
    }
  }

  lemma DataLoadShape(env: Env, ch: Choice, s: State, op: byte)
    requires |s.stack| >= TraitsOf(op).stackHeightRequired && ImmediateInside(env, s, op) && KindOf(op) == KDataLoadN
    ensures Ordinary(env, ch, s, op, Exec(env, ch, s, op))
  {
    hide KindOf, TraitsOf, Exec, U16, WordFromBytes;
    TraitsMatchImplementation(op);
    ExecStackMove(env, ch, s, op);
  }

  lemma SwapShape(env: Env, ch: Choice, s: State, op: byte)
    requires |s.stack| >= TraitsOf(op).stackHeightRequired && KindOf(op).KSwap?
    ensures Ordinary(env, ch, s, op, Exec(env, ch, s, op))
  {
    hide KindOf, TraitsOf, Exec, Swapped;
    TraitsMatchImplementation(op);
    ExecStackMove(env, ch, s, op);
  }

  lemma ExtendedShape(env: Env, ch: Choice, s: State, op: byte)
    requires |s.stack| >= TraitsOf(op).stackHeightRequired && ImmediateInside(env, s, op)
    requires KindOf(op) == KDupN || KindOf(op) == KSwapN
    ensures Ordinary(env, ch, s, op, Exec(env, ch, s, op))
  {
    hide KindOf, TraitsOf, Exec, Swapped;
    TraitsMatchImplementation(op);
    ExecStackMove(env, ch, s, op);
  }

  lemma IndexedShape(env: Env, ch: Choice, s: State, op: byte)
    requires |s.stack| >= TraitsOf(op).stackHeightRequired && (KindOf(op) == KDupAt || KindOf(op) == KSwapAt)
    ensures Ordinary(env, ch, s, op, Exec(env, ch, s, op))
  {
    hide KindOf, TraitsOf, Exec, Swapped, Low64, IndexOutside, ExecDupAt, ExecSwapAt;
    TraitsMatchImplementation(op);
    ControlKinds(op);
    ExecStackMove(env, ch, s, op);
    DupAtEffect(env, ch, s);
    SwapAtEffect(env, s);
  }

  lemma DupAtEffect(env: Env, ch: Choice, s: State)
    requires |s.stack| >= 1
    ensures var o := ExecDupAt(env, ch, s);
      && !o.Halt? && (o.Fault? <==> IndexOutside(OP_DUP, s.stack))
      && (o.Next? ==>
            && o.s.pc == s.pc + 1 && |o.s.stack| == |s.stack| && o.s.gas == s.gas && o.s.callStack == s.callStack
            && o.s.memory == s.memory && |o.s.trace| == |s.trace| + 3)
  {
    hide Low64;
  }

  lemma SwapAtEffect(env: Env, s: State)
    requires |s.stack| >= 1
    ensures var o := ExecSwapAt(env, s);
      && !o.Halt? && (o.Fault? <==> IndexOutside(OP_SWAP, s.stack))
      && (o.Next? ==>
            && o.s.pc == s.pc + 1 && |o.s.stack| == |s.stack| - 1 && o.s.gas == s.gas && o.s.callStack == s.callStack
            && o.s.memory == s.memory && |o.s.trace| == |s.trace| + 5)
  {
    hide Low64, Swapped;
  }

  lemma OutsideShape(env: Env, ch: Choice, s: State, op: byte)
    requires |s.stack| >= TraitsOf(op).stackHeightRequired
    requires KindOf(op).KSelfdestruct? || KindOf(op).KExternal?
    ensures Ordinary(env, ch, s, op, Exec(env, ch, s, op))
  {
    hide KindOf, TraitsOf, Exec, Fit;
    TraitsMatchImplementation(op);
    ExecHalting(env, ch, s, op);
    ExecAccess(env, ch, s, op);
  }

  lemma OrdinaryShape(env: Env, ch: Choice, s: State, op: byte)
    requires |s.stack| >= TraitsOf(op).stackHeightRequired && !IsControl(KindOf(op))
    requires ImmediateInside(env, s, op)
    ensures Ordinary(env, ch, s, op, Exec(env, ch, s, op))
  {
    hide Exec, KindOf, TraitsOf, Ordinary, ImmediateInside;
    match KindOf(op)
    case KMLoad => MemoryOpShape(env, ch, s, op);
    case KMStore(_) => MemoryOpShape(env, ch, s, op);
    case KReturn(_) => MemoryOpShape(env, ch, s, op);
    case KPc => PushShape(env, ch, s, op);
    case KMSize => PushShape(env, ch, s, op);
    case KGas => PushShape(env, ch, s, op);
    case KEnvPush => PushShape(env, ch, s, op);
    case KDataLoadN => DataLoadShape(env, ch, s, op);
    case KPush(_) => PushDataShape(env, ch, s, op);
    case KDup(_) => PushShape(env, ch, s, op);
    case KDupN => ExtendedShape(env, ch, s, op);
    case KSwapN => ExtendedShape(env, ch, s, op);
    case KSwap(_) => SwapShape(env, ch, s, op);
    case KDupAt => IndexedShape(env, ch, s, op);
    case KSwapAt => IndexedShape(env, ch, s, op);
    case KExternal(_, _) => OutsideShape(env, ch, s, op);
    case KSelfdestruct => OutsideShape(env, ch, s, op);
    case KBinary => ArithmeticShape(env, ch, s, op);
    case KAddMod => ArithmeticShape(env, ch, s, op);
    case KMulMod => ArithmeticShape(env, ch, s, op);
    case KUnary => ArithmeticShape(env, ch, s, op);
    case KStop => HaltingShape(env, ch, s, op);
    case KInvalid => HaltingShape(env, ch, s, op);
    case KUnimplemented => HaltingShape(env, ch, s, op);
    case KDrop(_) => DropShape(env, ch, s, op);
  }

  lemma MemoryShape(s: State, k: nat)
    requires 1 <= k <= |s.stack|
    ensures var a := Touch(s.gas, s.memory, s.stack[|s.stack| - 1], 32); a.gas <= s.gas && (a.ok ==> a.gas >= 0)
  {
    var offset := s.stack[|s.stack| - 1];
    var newSize := Low64(offset) + 32;
    if newSize > |s.memory| {
      RoundUp(newSize);
      WordsCostMonotone(|s.memory| / WORD_SIZE, NumWords(newSize));
    }
  }

  lemma {:induction false} WriteTopShape(env: Env, s: State, i: nat, k: nat, stale: int -> Word)
    ensures var s' := WriteTop(env, s, i, k, stale);
      s'.(trace := s.trace) == s && |s'.trace| == |s.trace| + (if i < k then k - i else 0)
    decreases k - i
  {
    if i < k {
      var slot: int := |s.stack| - 1 - i;
      var v := if slot >= 0 then s.stack[slot] else stale(slot);
      var s' := s.(trace := s.trace + [StackOperation(env.callId, slot, |s.trace|, true, v)]);
      WriteTopShape(env, s', i + 1, k, stale);
    }
  }

  lemma PushFive()
    ensures KindOf(OP_PUSH5) == KPush(5) && KindOf(OP_PUSH6) == KPush(6)
  {
  }

  /** A stuck step that passes the check has the outcome Fault. */
  lemma HarmfulFaults(env: Env, ch: Choice, s: State)
    requires Stuck(env, s)
    requires CheckRequirements(env, s.gas, |s.stack|, env.code[s.pc]).0 == None
    ensures Step(env, ch, s).Fault?
  {
    hide KindOf, TraitsOf, Exec, Step, CheckRequirements, WordFromBytes, WriteTop, IndexOutside, ExecDupAt, ExecSwapAt;
    var op := env.code[s.pc];
    var charged := s.(gas := CheckRequirements(env, s.gas, |s.stack|, op).1);
    PassedStep(env, ch, s, op, charged.gas);
    TraitsMatchImplementation(op);
    ControlKinds(op);
    PushFive();
    ExecStackMove(env, ch, charged, op);
    if op == OP_DUP { DupAtEffect(env, ch, charged); }
    if op == OP_SWAP { SwapAtEffect(env, charged); }
  }

  // ---------------------------------------------------------------- base costs

  lemma {:induction false} NeverOverridden(rev: Revision, op: byte)
    requires forall r :: Override(r, op) == None
    ensures GasCost(rev, op) == FrontierCost(op)
    decreases Order(rev)
  {
    if rev != Frontier { NeverOverridden(Previous(rev), op); }
  }

  /** Instructions that cost the same in every revision and both formats. */
  predicate Steady(op: byte) {
    OP_PUSH1 <= op < 0xa0 || op in {OP_MULMOD, OP_ADDRESS, OP_POP, OP_JUMP, OP_JUMPDEST}
  }

  lemma SteadyCost(env: Env, op: byte)
    requires Steady(op)
    ensures BaseCost(env, op) == FrontierCost(op) > 0
  {
    hide GasCost, HasConstGasCost;
    forall r ensures Override(r, op) == None { NoOverride(r, op); }
    forall r ensures GasCost(r, op) == FrontierCost(op) { NeverOverridden(r, op); }
    SteadyIsConstant(op);
  }

  lemma SteadyIsConstant(op: byte)
    requires forall r :: GasCost(r, op) == FrontierCost(op)
    ensures HasConstGasCost(op)
  {
  }

  lemma NoOverride(rev: Revision, op: byte)
    requires Steady(op)
    ensures Override(rev, op) == None
  {
  }

  /** Five defined opcodes have no implementation: LOG0, LOG2, LOG3, LOG4 and PRINTF. */
  lemma DefinedUnimplemented(rev: Revision, op: byte)
    ensures KindOf(op) == KUnimplemented && GasCost(rev, op) != UNDEFINED <==> op in {0xa0, 0xa2, 0xa3, 0xa4, 0xa5}
  {
    hide GasCost;
    if KindOf(op) == KUnimplemented {
      assert forall r :: Override(r, op) == None;
      NeverOverridden(rev, op);
    }
  }

  /** An implemented opcode never passes the check with a negative charge. */
  lemma ImplementedCost(env: Env, gas: int, height: nat, op: byte)
    requires CheckRequirements(env, gas, height, op).0 == None && KindOf(op) != KUnimplemented
    ensures BaseCost(env, op) >= 0
  {
    hide TraitsOf;
    if HasConstGasCost(op) && FrontierCost(op) == UNDEFINED {
      LaterOpcode(op);
    }
  }

  /** An implemented opcode missing from the Frontier row is introduced by a later revision. */
  lemma LaterOpcode(op: byte)
    requires KindOf(op) != KUnimplemented && FrontierCost(op) == UNDEFINED
    ensures !HasConstGasCost(op)
  {
    var rev :=
      if op == 0x1b || op == 0x1d || op == 0x3f || op == 0xf5 then Constantinople
      else if op == 0x3d || op == 0x3e || op == 0xfa || op == 0xfd then Byzantium
      else if op == 0x46 || op == 0x47 then Istanbul
      else if op == 0x48 then London
      else if op == 0x49 || op == 0x4a || 0x5c <= op <= 0x5e then Cancun
      else if op == 0xf4 then Homestead
      else Prague;
    assert Override(rev, op).Some? && Override(rev, op).value >= 0;
    assert GasCost(rev, op) == Override(rev, op).value;
  }

  lemma JumpsNeverChange(rev: Revision)
    ensures Override(rev, OP_JUMP) == None && Override(rev, OP_JUMPI) == None
    ensures FrontierCost(OP_JUMP) == 8 && FrontierCost(OP_JUMPI) == 10
  {
  }

  /** Everything that can move the position backwards costs gas. */
  lemma ControlCost(env: Env, op: byte)
    requires IsControl(KindOf(op)) && BaseCost(env, op) >= 0
    ensures BaseCost(env, op) > 0
  {
    hide KindOf, Override, FrontierCost, GasCost;
    ControlKinds(op);
    if op == OP_JUMP || op == OP_JUMPI {
      forall r ensures Override(r, op) == None { JumpsNeverChange(r); }
      JumpsNeverChange(env.rev);
      NeverOverridden(env.rev, op);
      NeverOverridden(Frontier, op);
    } else {
      PragueOnly(env.rev, op);
      PragueNotConstant(op);
    }
  }

  /** What the tables say of the instructions that Prague introduces. */
  lemma PragueRows(rev: Revision, op: byte)
    requires OP_RJUMP <= op <= OP_DATALOADN
    ensures FrontierCost(op) == UNDEFINED
    ensures rev != Prague ==> Override(rev, op) == None
    ensures Override(Prague, op).Some? && Override(Prague, op).value > 0
  {
  }

  lemma {:induction false} PragueOnly(rev: Revision, op: byte)
    requires OP_RJUMP <= op <= OP_DATALOADN
    ensures rev != Prague ==> GasCost(rev, op) == UNDEFINED
    ensures GasCost(Prague, op) > 0
    decreases Order(rev)
  {
    hide Override, FrontierCost;
    PragueRows(rev, op);
    if rev != Frontier && rev != Prague {
      PragueOnly(Previous(rev), op);
    }
  }

  lemma PragueNotConstant(op: byte)
    requires OP_RJUMP <= op <= OP_DATALOADN
    ensures !HasConstGasCost(op)
  {
    hide GasCost;
    PragueOnly(Frontier, op);
    assert GasCost(Prague, op) != GasCost(Frontier, op);
  }

  // ---------------------------------------------------------------- progress of a continuing step

  /** Gas never rises, and a step that charges nothing moves forward. */
  ghost predicate Progresses(s: State, s': State) {
    0 <= s'.gas <= s.gas && (s'.gas < s.gas || s'.pc > s.pc)
  }

  /** CALLF pushes the position after it, RETF pops, nothing else touches the return stack. */
  ghost predicate KeepsReturns(op: byte, s: State, s': State) {
    if op == OP_CALLF then s'.callStack == s.callStack + [s.pc + 3]
    else if op == OP_RETF then
      s.callStack != [] && s'.callStack == s.callStack[..|s.callStack| - 1] && s'.pc == s.callStack[|s.callStack| - 1]
    else s'.callStack == s.callStack
  }

  lemma ControlEffect(env: Env, ch: Choice, s: State, op: byte)
    requires |s.stack| >= TraitsOf(op).stackHeightRequired && IsControl(KindOf(op))
    requires Exec(env, ch, s, op).Next?
    ensures Exec(env, ch, s, op).s.gas == s.gas && KeepsReturns(op, s, Exec(env, ch, s, op).s)
  {
    hide KindOf, TraitsOf, Exec, U16, I16, Low64;
    TraitsMatchImplementation(op);
    ControlKinds(op);
    ExecControl(env, ch, s, op);
  }

  lemma ExecEffect(env: Env, ch: Choice, s: State, op: byte)
    requires |s.stack| >= TraitsOf(op).stackHeightRequired && ImmediateInside(env, s, op) && ch.cost >= 0 && s.gas >= 0
    requires Exec(env, ch, s, op).Next?
    ensures var s' := Exec(env, ch, s, op).s;
      && 0 <= s'.gas <= s.gas && KeepsReturns(op, s, s') && KindOf(op) != KUnimplemented
      && (!IsControl(KindOf(op)) ==> s'.pc > s.pc)
  {
    hide KindOf, TraitsOf, Exec, ImmediateInside;
    ControlKinds(op);
    if IsControl(KindOf(op)) { ControlEffect(env, ch, s, op); } else { OrdinaryShape(env, ch, s, op); }
  }

  /** Any continuing step progresses, whatever the outside world answers, as long as it charges nothing negative. */
  lemma StepProgresses(env: Env, ch: Choice, s: State)
    requires ch.cost >= 0 && 0 <= s.pc < |env.code| && ImmediateInside(env, s, env.code[s.pc])
    requires Step(env, ch, s).Next?
    ensures Progresses(s, Step(env, ch, s).s) && KeepsReturns(env.code[s.pc], s, Step(env, ch, s).s)
  {
    hide KindOf, TraitsOf, Exec, CheckRequirements, BaseCost;
    var op := env.code[s.pc];
    CheckPassed(env, s.gas, |s.stack|, op);
    ExecEffect(env, ch, s.(gas := CheckRequirements(env, s.gas, |s.stack|, op).1), op);
    ImplementedCost(env, s.gas, |s.stack|, op);
    if IsControl(KindOf(op)) { ControlCost(env, op); }
  }

  /** Every state of the run up to step n can fetch a whole instruction. */
  ghost predicate Confined(env: Env, choices: nat -> Choice, s: State, n: nat) {
    forall k: nat :: k <= n && Run(env, choices, s, k).Next? ==>
      var t := Run(env, choices, s, k).s; 0 <= t.pc < |env.code| && ImmediateInside(env, t, env.code[t.pc])
  }

  ghost function Measure(env: Env, s: State): int {
    s.gas * (|env.code| + 1) + |env.code| - s.pc
  }

  lemma MeasureFalls(env: Env, s: State, s': State)
    requires Progresses(s, s') && 0 <= s.pc < |env.code| && 0 <= s'.pc
    ensures Measure(env, s') < Measure(env, s)
  {
    if s'.gas < s.gas {
      Gap(|env.code| + 1, s'.gas, s.gas);
    }
  }

  lemma RunPrefix(env: Env, choices: nat -> Choice, s: State, m: nat, n: nat)
    requires m <= n && Run(env, choices, s, n).Next?
    ensures Run(env, choices, s, m).Next?
    decreases n
  {
    if m < n { RunPrefix(env, choices, s, m, n - 1); }
  }

  /** A run takes at most gas * (|code| + 1) + |code| continuing steps. */
  lemma {:induction false} RunMeasure(env: Env, choices: nat -> Choice, s: State, n: nat)
    requires s.gas >= 0 && Confined(env, choices, s, n) && (forall k :: choices(k).cost >= 0)
    requires Run(env, choices, s, n).Next?
    ensures Run(env, choices, s, n).s.gas >= 0
    ensures n <= Measure(env, s) - Measure(env, Run(env, choices, s, n).s)
    ensures n <= Measure(env, s)
    decreases n
  {
    hide Step, ImmediateInside, Measure, Progresses, KeepsReturns;
    RunPrefix(env, choices, s, 0, n);
    if n > 0 {
      RunMeasure(env, choices, s, n - 1);
      var t := Run(env, choices, s, n - 1).s;
      StepProgresses(env, choices(n - 1), t);
      GasOnlyFalls(t, Run(env, choices, s, n).s);
      MeasureFalls(env, t, Run(env, choices, s, n).s);
    }
    MeasurePositive(env, Run(env, choices, s, n).s);
  }

  lemma GasOnlyFalls(s: State, s': State)
    requires Progresses(s, s')
    ensures 0 <= s'.gas <= s.gas
  {
  }

  lemma MeasurePositive(env: Env, s: State)
    requires s.gas >= 0 && s.pc <= |env.code|
    ensures Measure(env, s) >= 0
  {
  }
}
