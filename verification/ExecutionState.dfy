/**
 * The interpreter in place: `ExecutionState`, the instruction implementations that update it, `invoke`
 * and the `dispatch` loop, each proved to do what the step function says.
 */
module ExecutionState {
  import opened Bytes
  import opened Opcodes
  import opened EofInstructions
  import opened MemoryGas
  import opened RwTrace
  import opened Words
  import opened Interpreter

  class ExecutionState {
    const env: Env
    const memory: Memory
    var gasLeft: int
    var stack: seq<Word>
    var callStack: seq<int>
    var rwTrace: seq<RwOperation>
    var status: Status

    ghost predicate Valid()
      reads this, memory, memory.data
    {
      memory.Valid() && memory.size % WORD_SIZE == 0
    }

    /** The state of the step function, at code position pos. */
    ghost function Abs(pos: int): State
      reads this, memory, memory.data
      requires Valid()
    {
      State(pos, gasLeft, stack, memory.Contents(), callStack, rwTrace)
    }

    /** The fields now are those of outcome o; `next` is the new position, or None for a null code iterator. */
    ghost predicate Did(o: Outcome, next: Option<int>)
      reads this, memory, memory.data
    {
      Valid() &&
      match o
      case Next(s) => next == Some(s.pc) && Abs(s.pc) == s
      case Halt(st, s, _) => next == None && status == st && Abs(s.pc) == s
      case Fault => false
    }

    constructor (env: Env, gas: int)
      ensures Valid() && fresh(memory) && fresh(memory.data) && this.env == env
      ensures Abs(env.origin) == Start(env, gas)
    {
      this.env := env;
      this.memory := new Memory();
      this.gasLeft := gas;
      this.stack := [];
      this.callStack := [];
      this.rwTrace := [];
      this.status := Success;
    }

    // -------------------------------------------------------------- records

    method Record(slot: int, isWrite: bool, value: Word)
      modifies `rwTrace
      ensures rwTrace == old(rwTrace) + [StackOperation(env.callId, slot, |old(rwTrace)|, isWrite, value)]
    {
      rwTrace := rwTrace + [StackOperation(env.callId, slot, |rwTrace|, isWrite, value)];
    }

    /** One record per byte of a 32-byte access. */
    method RecordMemory(pos: int, addr: nat, isWrite: bool)
      requires Valid() && addr + 32 <= memory.size && addr <= MAX_BUFFER_SIZE
      modifies `rwTrace
      ensures Abs(pos) == MemoryRecords(env, old(Abs(pos)), addr, isWrite)
    {
      ghost var contents, before := memory.Contents(), rwTrace;
      ghost var rows := seq(32, k requires 0 <= k < 32 =>
        MemoryOperation(env.callId, addr + k, |before| + k, isWrite, contents[addr + k]));
      var j := 0;
      while j < 32
        invariant 0 <= j <= 32 && rwTrace == before + rows[..j]
      {
        assert rows[..j + 1] == rows[..j] + [rows[j]];
        assert memory.data[addr + j] == contents[addr + j];
        rwTrace := rwTrace + [MemoryOperation(env.callId, addr + j, |rwTrace|, isWrite, memory.data[addr + j])];
        j := j + 1;
      }
      assert rows[..32] == rows;
    }

    method PushWord(pos: int, w: Word)
      requires Valid()
      modifies `stack, `rwTrace
      ensures Abs(pos) == Push(env, old(Abs(pos)), w)
    {
      stack := stack + [w];
      Record(|stack| - 1, true, w);
    }

    // -------------------------------------------------------------- arithmetic

    /** add, mul, sub, div, lt, and_ …: two reads, one pop, one write. */
    method Binary(pos: int, ch: Choice, op: byte) returns (next: Option<int>)
      requires Valid() && |stack| >= 2
      modifies `stack, `rwTrace
      ensures Did(ExecBinary(env, ch, old(Abs(pos)), op), next)
    {
      hide Alu;
      var size := |stack|;
      Record(size - 2, false, stack[size - 2]);
      Record(size - 1, false, stack[size - 1]);
      var x := stack[size - 1];
      stack := stack[..size - 1];
      stack := stack[size - 2 := Alu(op, x, stack[size - 2], ch.word)];
      Record(size - 2, true, stack[size - 2]);
      return Some(pos + 1);
    }

    method AddModulo(pos: int) returns (next: Option<int>)
      requires Valid() && |stack| >= 3
      modifies `stack, `rwTrace
      ensures Did(ExecAddMod(env, old(Abs(pos))), next)
    {
      hide AddMod;
      var size := |stack|;
      Record(size - 3, false, stack[size - 3]);
      Record(size - 2, false, stack[size - 2]);
      Record(size - 1, false, stack[size - 1]);
      var x, y := stack[size - 1], stack[size - 2];
      stack := stack[..size - 2];
      stack := stack[size - 3 := AddMod(x, y, stack[size - 3])];
      Record(size - 3, true, stack[size - 3]);
      return Some(pos + 1);
    }

    method MulModulo(pos: int) returns (next: Option<int>)
      requires Valid() && |stack| >= 3
      modifies `stack, `rwTrace
      ensures Did(ExecMulMod(env, old(Abs(pos))), next)
    {
      hide MulMod;
      var size := |stack|;
      Record(size - 3, false, stack[size - 3]);
      Record(size - 2, false, stack[size - 2]);
      Record(size - 1, false, stack[size - 1]);
      stack := stack[size - 3 := MulMod(stack[size - 1], stack[size - 2], stack[size - 3])];
      Record(size - 1, true, stack[size - 1]);
      stack := stack[..size - 2];
      return Some(pos + 1);
    }

    method UnaryTop(pos: int, ch: Choice, op: byte) returns (next: Option<int>)
      requires Valid() && |stack| >= 1
      modifies `stack, `rwTrace
      ensures Did(ExecUnary(env, ch, old(Abs(pos)), op), next)
    {
      hide Unary;
      var top := |stack| - 1;
      Record(top, false, stack[top]);
      stack := stack[top := Unary(op, stack[top], ch.word)];
      Record(top, true, stack[top]);
      return Some(pos + 1);
    }

    // -------------------------------------------------------------- memory

    /** `check_memory` on the live gas counter and memory. */
    method CheckMemory(offset: Word, size: nat) returns (ok: bool)
      requires Valid()
      modifies `gasLeft, memory, memory.data
      ensures Valid() && (memory.data == old(memory.data) || fresh(memory.data))
      ensures Touch(old(gasLeft), old(memory.Contents()), offset, size) == Access(ok, gasLeft, memory.Contents())
      ensures ok ==> Low64(offset) + size <= memory.size && Low64(offset) <= MAX_BUFFER_SIZE
    {
      ghost var gas0, memory0 := gasLeft, memory.Contents();
      ok, gasLeft := memory.Check(gasLeft, offset, size);
      if ok { TouchCovers(gas0, memory0, offset, size); }
    }

    method LoadWord(addr: nat) returns (w: Word)
      requires Valid() && addr + 32 <= memory.size
      ensures w == WordFromBytes(memory.Contents()[addr..addr + 32])
    {
      assert memory.data[addr..addr + 32] == memory.Contents()[addr..addr + 32];
      w := WordFromBytes(memory.data[addr..addr + 32]);
    }

    method MLoad(pos: int) returns (next: Option<int>)
      requires Valid() && |stack| >= 1
      modifies `stack, `rwTrace, `gasLeft, `status, memory, memory.data
      ensures memory.data == old(memory.data) || fresh(memory.data)
      ensures Did(ExecMLoad(env, old(Abs(pos))), next)
    {
      hide Loaded, Touch, Low64;
      var top := |stack| - 1;
      Record(top, false, stack[top]);
      var ok := CheckMemory(stack[top], 32);
      if !ok {
        status := OutOfGas;
        return None;
      }
      LoadTop(pos, Low64(stack[top]));
      return Some(pos + 1);
    }

    /** Replaces the top item by the word at addr, with the records of both. */
    method LoadTop(pos: int, addr: nat)
      requires Valid() && |stack| >= 1 && addr + 32 <= memory.size && addr <= MAX_BUFFER_SIZE
      modifies `stack, `rwTrace
      ensures Abs(pos) == Loaded(env, old(Abs(pos)), addr)
    {
      hide WordFromBytes, MemoryRecords;
      var w := LoadWord(addr);
      stack := stack[|stack| - 1 := w];
      RecordMemory(pos, addr, false);
      Record(|stack| - 1, true, stack[|stack| - 1]);
    }

    /** Writes the low n bytes of v, big-endian. */
    method StoreBytes(addr: nat, v: Word, n: nat)
      requires Valid() && addr + n <= memory.size
      modifies memory.data
      ensures Valid() && memory.Contents() == StoreAt(old(memory.Contents()), addr, v, n)
    {
      hide ToBytes;
      var bytes := ToBytes(v, n);
      ghost var before := memory.Contents();
      var j := 0;
      while j < n
        invariant 0 <= j <= n && Valid()
        invariant memory.Contents() == before[..addr] + bytes[..j] + before[addr + j..]
      {
        memory.Store(addr + j, bytes[j]);
        assert bytes[..j + 1] == bytes[..j] + [bytes[j]];
        j := j + 1;
      }
      assert bytes[..n] == bytes;
    }

    method MStore(pos: int, width: nat) returns (next: Option<int>)
      requires Valid() && |stack| >= 2 && 1 <= width <= 32
      modifies `stack, `rwTrace, `gasLeft, `status, memory, memory.data
      ensures memory.data == old(memory.data) || fresh(memory.data)
      ensures Did(ExecMStore(env, old(Abs(pos)), width), next)
    {
      hide ToBytes, Touch, StoreAt, MemoryRecords;
      var size := |stack|;
      Record(size - 2, false, stack[size - 2]);
      Record(size - 1, false, stack[size - 1]);
      var index, value := stack[size - 1], stack[size - 2];
      stack := stack[..size - 2];
      var ok := CheckMemory(index, 32);
      if !ok {
        status := OutOfGas;
        return None;
      }
      StoreBytes(Low64(index), value, width);
      RecordMemory(pos, Low64(index), true);
      return Some(pos + 1);
    }

    /** return_impl: RETURN and REVERT. */
    method Return(pos: int, st: Status) returns (next: Option<int>)
      requires Valid() && |stack| >= 2
      modifies `stack, `rwTrace, `gasLeft, `status, memory, memory.data
      ensures memory.data == old(memory.data) || fresh(memory.data)
      ensures Did(ExecReturn(env, old(Abs(pos)), st), next)
    {
      hide Touch;
      var size := |stack|;
      Record(size - 2, false, stack[size - 2]);
      Record(size - 1, false, stack[size - 1]);
      var offset, length := stack[size - 1], stack[size - 2];
      var ok := true;
      if length != 0 {
        if Low64(length) > MAX_BUFFER_SIZE {
          ok := false;
        } else {
          ok := CheckMemory(offset, Low64(length));
        }
      }
      status := if ok then st else OutOfGas;
      return None;
    }

    // -------------------------------------------------------------- pushing, copying, swapping

    /** The records of a PUSH, from the top slot downwards. */
    method RecordTop(pos: int, words: nat, stale: int -> Word)
      requires Valid()
      modifies `rwTrace
      ensures Abs(pos) == WriteTop(env, old(Abs(pos)), 0, words, stale)
    {
      ghost var before := Abs(pos);
      var i := 0;
      while i < words
        invariant 0 <= i <= words
        invariant WriteTop(env, before, 0, words, stale) == WriteTop(env, Abs(pos), i, words, stale)
      {
        var slot := |stack| - 1 - i;
        Record(slot, true, if slot >= 0 then stack[slot] else stale(slot));
        i := i + 1;
      }
    }

    /** The limbs of the pushed word, loaded as the hardware does: a partial load may read past the data. */
    method LoadPushed(pos: int, len: nat) returns (w: Word)
      requires 0 <= pos && len <= 32 && pos + PushReach(len) < |env.code|
      ensures w == WordFromBytes(env.code[pos + 1..pos + 1 + len])
    {
      hide FromBytes, LimbValue;
      w := 0;
      if len > 0 {
        var data := env.code[pos + 1..];
        var limbs := LoadPushData(data, len);
        assert data[..len] == env.code[pos + 1..pos + 1 + len];
        assert LimbValue(limbs) == WordFromBytes(env.code[pos + 1..pos + 1 + len]);
        w := LimbValue(limbs);
      } else {
        EmptyIsZero();
        assert env.code[pos + 1..pos + 1 + len] == [];
      }
    }

    method PushData(pos: int, ch: Choice, len: nat) returns (next: Option<int>)
      requires Valid() && len <= 32 && !ExecPush(env, ch, Abs(pos), len).Fault?
      modifies `stack, `rwTrace
      ensures Did(ExecPush(env, ch, old(Abs(pos)), len), next)
    {
      hide WordFromBytes, WriteTop, PushReach;
      var w := LoadPushed(pos, len);
      stack := stack + [w];
      RecordTop(pos, PushRecords(len), ch.stale);
      ghost var pushed := old(Abs(pos)).(stack := old(stack) + [w]);
      WriteTopShape(env, pushed, 0, PushRecords(len), ch.stale);
      return Some(pos + len + 1);
    }

    method Dup(pos: int, n: nat) returns (next: Option<int>)
      requires Valid() && 1 <= n <= |stack|
      modifies `stack, `rwTrace
      ensures Did(ExecDup(env, old(Abs(pos)), n), next)
    {
      Record(|stack| - n, false, stack[|stack| - n]);
      PushWord(pos, stack[|stack| - n]);
      return Some(pos + 1);
    }

    method ExchangeTop(n: nat)
      requires n < |stack|
      modifies `stack
      ensures stack == Swapped(old(stack), n)
    {
      var top := |stack| - 1;
      var t, a := stack[top], stack[top - n];
      stack := stack[top := a];
      stack := stack[top - n := t];
    }

    method Swap(pos: int, n: nat) returns (next: Option<int>)
      requires Valid() && 1 <= n < |stack|
      modifies `stack, `rwTrace
      ensures Did(ExecSwap(env, old(Abs(pos)), n), next)
    {
      hide Swapped;
      var size := |stack|;
      Record(size - n - 1, false, stack[size - n - 1]);
      Record(size - 1, false, stack[size - 1]);
      ExchangeTop(n);
      Record(size - 1, true, stack[size - 1]);
      Record(size - n, true, stack[size - n]);
      return Some(pos + 1);
    }

    method DupAt(pos: int, ch: Choice) returns (next: Option<int>)
      requires Valid() && |stack| >= 1 && !ExecDupAt(env, ch, Abs(pos)).Fault?
      modifies `stack, `rwTrace
      ensures Did(ExecDupAt(env, ch, old(Abs(pos))), next)
    {
      hide Low64;
      var index := stack[|stack| - 1];
      Record(|stack| - 1, false, index);
      stack := stack[..|stack| - 1];
      var addr := Signed32(Low64(index));
      var slot := |stack| - addr;
      // The slot just above the new top still holds the popped index.
      var w := if slot < |stack| then stack[slot] else if slot == |stack| then index else ch.stale(slot);
      Record(slot, false, w);
      PushWord(pos, w);
      return Some(pos + 1);
    }

    method SwapAt(pos: int) returns (next: Option<int>)
      requires Valid() && |stack| >= 1 && !ExecSwapAt(env, Abs(pos)).Fault?
      modifies `stack, `rwTrace
      ensures Did(ExecSwapAt(env, old(Abs(pos))), next)
    {
      hide Low64, ExecSwap;
      var index := stack[|stack| - 1];
      Record(|stack| - 1, false, index);
      stack := stack[..|stack| - 1];
      var addr := Low64(index) % 0x1_0000;
      if addr > 0 {
        next := Swap(pos, addr);
        return;
      }
      var size := |stack|;
      Record(size - 1, false, stack[size - 1]);
      Record(size - 1, false, stack[size - 1]);
      Record(size - 1, true, stack[size - 1]);
      // The slot above still holds the popped index.
      Record(size, true, index);
      return Some(pos + 1);
    }

    method DupN(pos: int) returns (next: Option<int>)
      requires Valid() && !ExecDupN(env, Abs(pos)).Fault?
      modifies `stack, `rwTrace, `status
      ensures Did(ExecDupN(env, old(Abs(pos))), next)
    {
      var n := env.code[pos + 1] as int + 1;
      if |stack| < n {
        status := Underflow;
        return None;
      }
      Record(|stack| - n, false, stack[|stack| - n]);
      PushWord(pos, stack[|stack| - n]);
      return Some(pos + 2);
    }

    method SwapN(pos: int) returns (next: Option<int>)
      requires Valid() && !ExecSwapN(env, Abs(pos)).Fault?
      modifies `stack, `rwTrace, `status
      ensures Did(ExecSwapN(env, old(Abs(pos))), next)
    {
      hide Swapped;
      var n := env.code[pos + 1] as int + 1;
      var size := |stack|;
      if size <= n {
        status := Underflow;
        return None;
      }
      Record(size - n - 1, false, stack[size - n - 1]);
      Record(size - 1, false, stack[size - 1]);
      ExchangeTop(n);
      Record(size - 1, true, stack[size - 1]);
      Record(size - n - 1, true, stack[size - n - 1]);
      return Some(pos + 2);
    }

    // -------------------------------------------------------------- control

    /** `jump_impl` */
    method JumpImpl(pos: int, dst: Word) returns (next: Option<int>)
      requires Valid()
      modifies `status
      ensures Did(JumpTo(env, old(Abs(pos)), dst), next)
    {
      var target := Low64(dst);
      if target >= |env.jumpdests| || !env.jumpdests[target] {
        status := BadJumpDestination;
        return None;
      }
      return Some(env.origin + target);
    }

    method PopTop() returns (w: Word)
      requires Valid() && |stack| >= 1
      modifies `stack
      ensures w == old(stack)[|old(stack)| - 1] && stack == old(stack)[..|old(stack)| - 1]
    {
      w := stack[|stack| - 1];
      stack := stack[..|stack| - 1];
    }

    method Jump(pos: int) returns (next: Option<int>)
      requires Valid() && |stack| >= 1
      modifies `stack, `rwTrace, `status
      ensures Did(ExecJump(env, old(Abs(pos))), next)
    {
      Record(|stack| - 1, false, stack[|stack| - 1]);
      var dst := PopTop();
      next := JumpImpl(pos, dst);
    }

    method JumpI(pos: int) returns (next: Option<int>)
      requires Valid() && |stack| >= 2
      modifies `stack, `rwTrace, `status
      ensures Did(ExecJumpI(env, old(Abs(pos))), next)
    {
      Record(|stack| - 2, false, stack[|stack| - 2]);
      Record(|stack| - 1, false, stack[|stack| - 1]);
      var dst := PopTop();
      var cond := PopTop();
      assert stack == old(stack)[..|old(stack)| - 2];
      if Low64(cond) > 0 {
        next := JumpImpl(pos, dst);
      } else {
        return Some(pos + 1);
      }
    }

    method RJump(pos: int) returns (next: Option<int>)
      requires Valid() && !ExecRJump(env, Abs(pos)).Fault?
      ensures Did(ExecRJump(env, Abs(pos)), next)
    {
      hide I16;
      return Some(pos + 3 + I16(env.code, pos + 1));
    }

    method RJumpI(pos: int) returns (next: Option<int>)
      requires Valid() && |stack| >= 1 && !ExecRJumpI(env, Abs(pos)).Fault?
      modifies `stack, `rwTrace
      ensures Did(ExecRJumpI(env, old(Abs(pos))), next)
    {
      hide I16;
      Record(|stack| - 1, false, stack[|stack| - 1]);
      var cond := PopTop();
      if Low64(cond) > 0 {
        next := RJump(pos);
      } else {
        return Some(pos + 3);
      }
    }

    method RJumpV(pos: int) returns (next: Option<int>)
      requires Valid() && |stack| >= 1 && !ExecRJumpV(env, Abs(pos)).Fault?
      modifies `stack, `rwTrace
      ensures Did(ExecRJumpV(env, old(Abs(pos))), next)
    {
      hide I16;
      Record(|stack| - 1, false, stack[|stack| - 1]);
      var index := PopTop();
      var maxIndex := env.code[pos + 1];
      var pcPost := pos + 1 + 1 + (maxIndex as int + 1) * REL_OFFSET_SIZE;
      if Low64(index) > maxIndex {
        return Some(pcPost);
      }
      return Some(pcPost + I16(env.code, pos + 2 + Low64(index) * REL_OFFSET_SIZE));
    }

    method CallF(pos: int) returns (next: Option<int>)
      requires Valid() && !ExecCallF(env, Abs(pos)).Fault?
      modifies `callStack, `status
      ensures Did(ExecCallF(env, old(Abs(pos))), next)
    {
      hide U16;
      var index := U16(env.code, pos + 1);
      var calleeRequired := env.types[index].maxStackHeight - env.types[index].inputs;
      if |stack| + calleeRequired > STACK_LIMIT {
        status := Overflow;
        return None;
      }
      if |callStack| >= STACK_LIMIT {
        status := Overflow;
        return None;
      }
      callStack := callStack + [pos + 3];
      return Some(env.origin + env.codeOffsets[index] - env.codeOffsets[0]);
    }

    method RetF(pos: int) returns (next: Option<int>)
      requires Valid() && !ExecRetF(env, Abs(pos)).Fault?
      modifies `callStack
      ensures Did(ExecRetF(env, old(Abs(pos))), next)
    {
      var p := callStack[|callStack| - 1];
      callStack := callStack[..|callStack| - 1];
      return Some(p);
    }

    method JumpF(pos: int) returns (next: Option<int>)
      requires Valid() && !ExecJumpF(env, Abs(pos)).Fault?
      modifies `status
      ensures Did(ExecJumpF(env, old(Abs(pos))), next)
    {
      hide U16;
      var index := U16(env.code, pos + 1);
      var calleeRequired := env.types[index].maxStackHeight - env.types[index].inputs;
      if |stack| + calleeRequired > STACK_LIMIT {
        status := Overflow;
        return None;
      }
      return Some(env.origin + env.codeOffsets[index] - env.codeOffsets[0]);
    }

    method DataLoadN(pos: int) returns (next: Option<int>)
      requires Valid() && !ExecDataLoadN(env, Abs(pos)).Fault?
      modifies `stack, `rwTrace
      ensures Did(ExecDataLoadN(env, old(Abs(pos))), next)
    {
      hide U16, FromBytes;
      var index := U16(env.code, pos + 1);
      PushWord(pos, WordFromBytes(env.data[index..index + 32]));
      return Some(pos + 3);
    }

    // -------------------------------------------------------------- the outside world

    /** Memory as an external instruction leaves it. */
    method ReplaceMemory(contents: seq<byte>)
      requires Valid() && |contents| % WORD_SIZE == 0
      modifies memory, memory.data
      ensures Valid() && memory.Contents() == contents
      ensures memory.data == old(memory.data) || fresh(memory.data)
    {
      memory.Clear();
      if |contents| > 0 {
        memory.Grow(|contents|);
      }
      var i := 0;
      while i < |contents|
        invariant 0 <= i <= |contents| && Valid() && memory.size == |contents|
        invariant forall k :: 0 <= k < i ==> memory.data[k] == contents[k]
        invariant memory.data == old(memory.data) || fresh(memory.data)
      {
        memory.data[i] := contents[i];
        i := i + 1;
      }
      assert memory.Contents() == contents;
    }

    method External(pos: int, ch: Choice, pops: nat, pushes: nat) returns (next: Option<int>)
      requires Valid() && |stack| >= pops && |ch.memory| % WORD_SIZE == 0
      modifies `stack, `rwTrace, `gasLeft, `status, memory, memory.data
      ensures memory.data == old(memory.data) || fresh(memory.data)
      ensures Did(ExecExternal(ch, old(Abs(pos)), pops, pushes), next)
    {
      hide Fit;
      gasLeft := gasLeft - ch.cost;
      if gasLeft < 0 {
        status := OutOfGas;
        return None;
      }
      if ch.failure {
        status := ExternalFailure;
        return None;
      }
      stack := stack[..|stack| - pops] + Fit(ch.results, pushes);
      rwTrace := rwTrace + ch.records;
      ReplaceMemory(ch.memory);
      return Some(pos + 1);
    }

    method Selfdestruct(pos: int, ch: Choice) returns (next: Option<int>)
      requires Valid() && |stack| >= 1
      modifies `gasLeft, `status, `rwTrace
      ensures Did(ExecSelfdestruct(env, ch, old(Abs(pos))), next)
    {
      if ch.failure {
        status := ExternalFailure;
        return None;
      }
      Record(|stack| - 1, false, stack[|stack| - 1]);
      gasLeft := gasLeft - ch.cost;
      status := if gasLeft < 0 then OutOfGas else Success;
      return None;
    }

    // -------------------------------------------------------------- invoke and dispatch

    /** The switch over opcodes, by what they touch: jumps and frames. */
    method ExecuteControl(pos: int, ch: Choice, op: byte) returns (next: Option<int>)
      requires Valid() && |stack| >= TraitsOf(op).stackHeightRequired
      requires !Exec(env, ch, Abs(pos), op).Fault?
      requires IsControl(KindOf(op))
      modifies this
      ensures Did(Exec(env, ch, old(Abs(pos)), op), next)
    {
      hide TraitsOf, KindOf, Exec, Did;
      TraitsMatchImplementation(op);
      ExecControl(env, ch, Abs(pos), op);
      match KindOf(op)
      case KJump => next := Jump(pos);
      case KJumpI => next := JumpI(pos);
      case KRJump => next := RJump(pos);
      case KRJumpI => next := RJumpI(pos);
      case KRJumpV => next := RJumpV(pos);
      case KCallF => next := CallF(pos);
      case KRetF => next := RetF(pos);
      case KJumpF => next := JumpF(pos);
    }

    method PushNext(pos: int, w: Word) returns (next: Option<int>)
      requires Valid()
      modifies `stack, `rwTrace
      ensures Did(Advance(Push(env, old(Abs(pos)), w), 1), next)
    {
      PushWord(pos, w);
      return Some(pos + 1);
    }

    /** Pushing one computed word. */
    method ExecutePush(pos: int, ch: Choice, op: byte) returns (next: Option<int>)
      requires Valid() && |stack| >= TraitsOf(op).stackHeightRequired
      requires KindOf(op) in {KPc, KMSize, KGas, KEnvPush}
      modifies this
      ensures Did(Exec(env, ch, old(Abs(pos)), op), next)
    {
      hide TraitsOf, KindOf, Exec, Did;
      TraitsMatchImplementation(op);
      ExecStackMove(env, ch, Abs(pos), op);
      match KindOf(op)
      case KPc => next := PushNext(pos, (pos - env.origin) % TWO_256);
      case KMSize => next := PushNext(pos, memory.size % TWO_256);
      case KGas => next := PushNext(pos, gasLeft % TWO_256);
      case KEnvPush => next := PushNext(pos, ch.word);
    }

    /** Push data, copying and exchanging. */
    method ExecuteStack(pos: int, ch: Choice, op: byte) returns (next: Option<int>)
      requires Valid() && |stack| >= TraitsOf(op).stackHeightRequired
      requires !Exec(env, ch, Abs(pos), op).Fault?
      requires IsStackMove(KindOf(op))
      modifies this
      ensures Did(Exec(env, ch, old(Abs(pos)), op), next)
    {
      hide TraitsOf, KindOf, Exec, Did;
      hide ExecPush, ExecDup, ExecSwap, ExecDupAt, ExecSwapAt, ExecDupN, ExecSwapN;
      TraitsMatchImplementation(op);
      ExecStackMove(env, ch, Abs(pos), op);
      match KindOf(op)
      case KPush(len) => next := PushData(pos, ch, len);
      case KDup(n) => next := Dup(pos, n);
      case KSwap(n) => next := Swap(pos, n);
      case KDupAt => next := DupAt(pos, ch);
      case KSwapAt => next := SwapAt(pos);
      case KDupN => next := DupN(pos);
      case KSwapN => next := SwapN(pos);
      case KDataLoadN => next := DataLoadN(pos);
    }

    /** Arithmetic. */
    method ExecuteArithmetic(pos: int, ch: Choice, op: byte) returns (next: Option<int>)
      requires Valid() && |stack| >= TraitsOf(op).stackHeightRequired
      requires !Exec(env, ch, Abs(pos), op).Fault?
      requires KindOf(op) in {KBinary, KAddMod, KMulMod, KUnary}
      modifies this
      ensures Did(Exec(env, ch, old(Abs(pos)), op), next)
    {
      hide TraitsOf, KindOf, Exec, Did;
      TraitsMatchImplementation(op);
      ExecArithmetic(env, ch, Abs(pos), op);
      match KindOf(op)
      case KBinary => next := Binary(pos, ch, op);
      case KAddMod => next := AddModulo(pos);
      case KMulMod => next := MulModulo(pos);
      case KUnary => next := UnaryTop(pos, ch, op);
    }

    method Pop(pos: int, n: nat) returns (next: Option<int>)
      requires Valid() && n <= |stack|
      modifies `stack
      ensures Did(Advance(Drop(old(Abs(pos)), n), 1), next)
    {
      stack := stack[..|stack| - n];
      return Some(pos + 1);
    }

    method Stop(pos: int, st: Status) returns (next: Option<int>)
      requires Valid()
      modifies `status
      ensures Did(Halt(st, old(Abs(pos)), false), next)
    {
      status := st;
      return None;
    }

    /** Halting and popping. */
    method ExecuteSimple(pos: int, ch: Choice, op: byte) returns (next: Option<int>)
      requires Valid() && |stack| >= TraitsOf(op).stackHeightRequired
      requires IsSimple(KindOf(op))
      modifies this
      ensures Did(Exec(env, ch, old(Abs(pos)), op), next)
    {
      hide TraitsOf, KindOf, Exec, Did;
      TraitsMatchImplementation(op);
      ExecHalting(env, ch, Abs(pos), op);
      ExecAccess(env, ch, Abs(pos), op);
      match KindOf(op)
      case KStop => next := Stop(pos, Success);
      case KInvalid => next := Stop(pos, InvalidOpcode);
      case KDrop(n) => next := Pop(pos, n);
      case KSelfdestruct => next := Selfdestruct(pos, ch);
      case KUnimplemented => next := Stop(pos, UndefinedOpcode);
    }

    /** Memory and the outside world. */
    method ExecuteMemory(pos: int, ch: Choice, op: byte) returns (next: Option<int>)
      requires Valid() && |stack| >= TraitsOf(op).stackHeightRequired && |ch.memory| % WORD_SIZE == 0
      requires var k := KindOf(op); k.KReturn? || k.KMLoad? || k.KMStore? || k.KExternal?
      modifies this, memory, memory.data
      ensures memory.data == old(memory.data) || fresh(memory.data)
      ensures Did(Exec(env, ch, old(Abs(pos)), op), next)
    {
      hide TraitsOf, KindOf, Exec, Did;
      TraitsMatchImplementation(op);
      ExecAccess(env, ch, Abs(pos), op);
      match KindOf(op)
      case KReturn(st) => next := Return(pos, st);
      case KMLoad => next := MLoad(pos);
      case KMStore(width) => next := MStore(pos, width);
      case KExternal(pops, pushes) => next := External(pos, ch, pops, pushes);
    }

    method Execute(pos: int, ch: Choice, op: byte) returns (next: Option<int>)
      requires Valid() && |stack| >= TraitsOf(op).stackHeightRequired && |ch.memory| % WORD_SIZE == 0
      requires !Exec(env, ch, Abs(pos), op).Fault?
      modifies this, memory, memory.data
      ensures memory.data == old(memory.data) || fresh(memory.data)
      ensures Did(Exec(env, ch, old(Abs(pos)), op), next)
    {
      hide TraitsOf, KindOf, Exec;
      var kind := KindOf(op);
      if IsControl(kind) {
        next := ExecuteControl(pos, ch, op);
      } else if IsStackMove(kind) {
        next := ExecuteStack(pos, ch, op);
      } else if kind in {KPc, KMSize, KGas, KEnvPush} {
        next := ExecutePush(pos, ch, op);
      } else if kind in {KBinary, KAddMod, KMulMod, KUnary} {
        next := ExecuteArithmetic(pos, ch, op);
      } else if IsSimple(kind) {
        next := ExecuteSimple(pos, ch, op);
      } else {
        KindGroups(op);
        next := ExecuteMemory(pos, ch, op);
      }
    }

    /** `check_requirements`: the status of the first failed check, charging the base cost if none but gas fails. */
    method Require(op: byte) returns (failed: Option<Status>)
      requires Valid()
      modifies `gasLeft
      ensures (failed, gasLeft) == Interpreter.CheckRequirements(env, old(gasLeft), |stack|, op)
    {
      hide TraitsOf, GasCost;
      var gasCost := GasCost(Frontier, op);
      if !HasConstGasCost(op) {
        gasCost := CostTable(env.rev, env.isEof, op);
        if gasCost < 0 {
          return Some(UndefinedOpcode);
        }
      }
      if TraitsOf(op).stackHeightChange > 0 {
        if |stack| == STACK_LIMIT {
          return Some(Overflow);
        }
      }
      if TraitsOf(op).stackHeightRequired > 0 {
        if |stack| <= TraitsOf(op).stackHeightRequired - 1 {
          return Some(Underflow);
        }
      }
      gasLeft := gasLeft - gasCost;
      if gasLeft < 0 {
        return Some(OutOfGas);
      }
      return None;
    }

    method Invoke(pos: int, ch: Choice) returns (next: Option<int>)
      requires Valid() && !Step(env, ch, Abs(pos)).Fault? && |ch.memory| % WORD_SIZE == 0
      modifies this, memory, memory.data
      ensures memory.data == old(memory.data) || fresh(memory.data)
      ensures Did(Step(env, ch, old(Abs(pos))), next)
    {
      hide TraitsOf, KindOf, Exec, Interpreter.CheckRequirements;
      var op := env.code[pos];
      var failed := Require(op);
      if failed.Some? {
        status := failed.value;
        return None;
      }
      CheckPassed(env, old(gasLeft), |stack|, op);
      next := Execute(pos, ch, op);
    }

    /** The loop ends exactly if the run of the step function halts, in that state and with that status. */
    method Dispatch(choices: nat -> Choice)
      requires Valid() && WholeMemory(choices) && Halts(env, choices, Abs(env.origin))
      modifies this, memory, memory.data
      ensures Valid()
      ensures exists n: nat, pos: int :: StopsWith(env, choices, old(Abs(env.origin)), n, status, Abs(pos))
    {
      hide Step, Run;
      ghost var start := Abs(env.origin);
      ghost var bound: nat :| Run(env, choices, start, bound).Halt?;
      var position: int := env.origin;
      var n: nat := 0;
      RunStarts(env, choices, start);
      while true
        invariant Valid() && (memory.data == old(memory.data) || fresh(memory.data))
        invariant Run(env, choices, start, n) == Next(Abs(position))
        decreases bound - n
      {
        BeforeHalt(env, choices, start, n, bound);
        var next := Invoke(position, choices(n));
        if next == None {
          ghost var final := Run(env, choices, start, n + 1).s;
          assert StopsWith(env, choices, start, n + 1, status, Abs(final.pc));
          return;
        }
        position := next.value;
        n := n + 1;
      }
    }
  }

  predicate IsStackMove(k: Kind) {
    k in {KDupN, KSwapN, KDupAt, KSwapAt, KDataLoadN} || k.KPush? || k.KDup? || k.KSwap?
  }

  predicate IsSimple(k: Kind) {
    k in {KStop, KInvalid, KSelfdestruct, KUnimplemented} || k.KDrop?
  }

  lemma KindGroups(op: byte)
    ensures var k := KindOf(op);
      || IsControl(k) || IsStackMove(k) || k in {KPc, KMSize, KGas, KEnvPush} || IsSimple(k)
      || k in {KBinary, KAddMod, KMulMod, KUnary}
      || k.KReturn? || k.KMLoad? || k.KMStore? || k.KExternal?
  {
    hide KindOf;
  }

  /** The run comes to a halt. */
  ghost predicate Halts(env: Env, choices: nat -> Choice, s: State) {
    exists n: nat :: Run(env, choices, s, n).Halt?
  }

  /** The outside world leaves whole words of memory. */
  ghost predicate WholeMemory(choices: nat -> Choice) {
    forall k: nat :: |choices(k).memory| % WORD_SIZE == 0
  }

  /** The outside world never gives gas back. */
  ghost predicate NeverRefunds(choices: nat -> Choice) {
    forall k: nat :: choices(k).cost >= 0
  }

  ghost predicate StopsWith(env: Env, choices: nat -> Choice, s: State, n: nat, status: Status, final: State) {
    var o := Run(env, choices, s, n); o.Halt? && o.status == status && o.s == final
  }

  lemma RunStarts(env: Env, choices: nat -> Choice, s: State)
    ensures Run(env, choices, s, 0) == Next(s)
  {
  }

  /** A run that halts later neither faults now nor goes on beyond its halt. */
  lemma BeforeHalt(env: Env, choices: nat -> Choice, s: State, n: nat, bound: nat)
    requires Run(env, choices, s, n).Next? && Run(env, choices, s, bound).Halt?
    ensures n < bound && Run(env, choices, s, n + 1) == Step(env, choices(n), Run(env, choices, s, n).s)
    ensures !Step(env, choices(n), Run(env, choices, s, n).s).Fault?
  {
    hide Step, Run;
    if bound <= n { RunPrefix(env, choices, s, bound, n); }
    StepInRun(env, choices, s, n + 1);
    if Run(env, choices, s, n + 1).Fault? { FaultRemains(env, choices, s, n + 1, bound); }
  }
}
