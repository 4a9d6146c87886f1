/**
 * Runs produce consistent traces: replaying the records of a run from blank memory gives, at every point,
 * the live stack and memory, so every read in the trace repeats the latest write to its cell.
 *
 * MULMOD and SWAP1-16 record their writes in the wrong slot; what they break is stated exactly.
 */
module TraceConsistency {
  import opened Bytes
  import opened Opcodes
  import opened MemoryGas
  import opened Words
  import opened RwTrace
  import opened RwColumns
  import opened RwTable
  import opened Interpreter

  // ---------------------------------------------------------------- replaying a trace

  function Blank(k: Key): Word {
    0
  }

  /** The value of cell k after the whole trace. */
  ghost function Replay(t: seq<RwOperation>, k: Key): Word {
    ValueAt(Blank, t, |t|, k)
  }

  function StackKey(slot: int): Key {
    Key(STACK_OP, slot % 0x1_0000, 0, 0)
  }

  function MemoryKey(a: Word): Key {
    Key(MEMORY_OP, a, 0, 0)
  }

  predicate RecordOk(r: RwOperation, id: nat) {
    && (r.op == STACK_OP || r.op == MEMORY_OP) && r.id == id && r.field == 0 && r.storageKey == 0
    && r.address < 0x2_0000_0000
  }

  /** A well-numbered trace in which every read is explained. */
  ghost predicate Good(id: nat, t: seq<RwOperation>) {
    && Numbered(t) && TimeConsistent(Blank, t)
    && forall i :: 0 <= i < |t| ==> RecordOk(t[i], id)
  }

  lemma {:induction false} ValueAtPrefix(m0: Key -> Word, t: seq<RwOperation>, r: RwOperation, i: nat, k: Key)
    requires i <= |t|
    ensures ValueAt(m0, t + [r], i, k) == ValueAt(m0, t, i, k)
  {
    if i > 0 { ValueAtPrefix(m0, t, r, i - 1, k); }
  }

  lemma Appended(t: seq<RwOperation>, r: RwOperation, k: Key)
    ensures Replay(t + [r], k) == if r.isWrite && KeyOf(r) == k then r.value else Replay(t, k)
  {
    ValueAtPrefix(Blank, t, r, |t|, k);
  }

  /** A trace stays good exactly when an appended read repeats the replayed value of its cell. */
  lemma GoodAppend(id: nat, t: seq<RwOperation>, r: RwOperation)
    requires Good(id, t) && RecordOk(r, id) && r.rwId == |t|
    ensures Good(id, t + [r]) <==> r.isWrite || r.value == Replay(t, KeyOf(r))
  {
    hide RecordOk;
    var t' := t + [r];
    forall i: nat, k: Key | i <= |t|
      ensures ValueAt(Blank, t', i, k) == ValueAt(Blank, t, i, k)
    {
      ValueAtPrefix(Blank, t, r, i, k);
    }
    assert t'[|t|] == r;
    assert forall i :: 0 <= i < |t| ==> t'[i] == t[i];
  }

  // ---------------------------------------------------------------- agreement with the live state

  /** What may still differ: one stack slot, or a range of memory. */
  datatype Gap = Gap(slot: int, lo: nat, hi: nat)

  const WHOLE := Gap(-1, 0, 0)

  ghost predicate StackAgrees(stack: seq<Word>, t: seq<RwOperation>, slot: int) {
    forall i :: 0 <= i < |stack| && i != slot ==> Replay(t, StackKey(i)) == stack[i]
  }

  /** Memory beyond the end counts as zero. */
  ghost predicate MemoryAgrees(memory: seq<byte>, t: seq<RwOperation>, lo: nat, hi: nat) {
    forall a: Word :: !(lo <= a < hi) ==> Replay(t, MemoryKey(a)) == if a < |memory| then memory[a] as int else 0
  }

  ghost predicate Agrees(id: nat, stack: seq<Word>, memory: seq<byte>, t: seq<RwOperation>, g: Gap) {
    && Good(id, t) && |stack| <= STACK_LIMIT
    && StackAgrees(stack, t, g.slot) && MemoryAgrees(memory, t, g.lo, g.hi)
  }

  /** The invariant of a faithful run. */
  ghost predicate Holds(env: Env, s: State) {
    Agrees(env.callId, s.stack, s.memory, s.trace, WHOLE)
  }

  lemma SlotKeys(i: int, j: int)
    requires 0 <= i < STACK_LIMIT && -STACK_LIMIT <= j < STACK_LIMIT
    ensures StackKey(i) == StackKey(j) <==> i == j
  {
    if j < 0 { assert j % 0x1_0000 == j + 0x1_0000; }
  }

  /** Any record of slot i that repeats the live item closes a gap there and opens none. */
  lemma SlotRecorded(id: nat, stack: seq<Word>, memory: seq<byte>, t: seq<RwOperation>, g: Gap, i: nat, isWrite: bool)
    requires Agrees(id, stack, memory, t, g) && i < |stack| && (isWrite || i != g.slot)
    ensures var r := StackOperation(id, i, |t|, isWrite, stack[i]);
      Agrees(id, stack, memory, t + [r], if i == g.slot then g.(slot := -1) else g)
  {
    hide Good, RecordOk;
    var r := StackOperation(id, i, |t|, isWrite, stack[i]);
    StackRecordOk(id, i, |t|, isWrite, stack[i]);
    GoodAppend(id, t, r);
    forall j | 0 <= j < |stack| && (j != g.slot || j == i)
      ensures Replay(t + [r], StackKey(j)) == stack[j]
    {
      Appended(t, r, StackKey(j));
      SlotKeys(j, i);
    }
    MemoryUntouched(memory, t, r, g.lo, g.hi);
  }

  lemma StackRecordOk(id: nat, slot: int, n: nat, isWrite: bool, w: Word)
    ensures var r := StackOperation(id, slot, n, isWrite, w);
      && RecordOk(r, id) && KeyOf(r) == StackKey(slot) && r.rwId == n && r.isWrite == isWrite && r.value == w
      && r.op == STACK_OP
  {
  }

  lemma MemoryUntouched(memory: seq<byte>, t: seq<RwOperation>, r: RwOperation, lo: nat, hi: nat)
    requires MemoryAgrees(memory, t, lo, hi) && r.op == STACK_OP
    ensures MemoryAgrees(memory, t + [r], lo, hi)
  {
    hide Replay;
    forall a: Word | !(lo <= a < hi)
      ensures Replay(t + [r], MemoryKey(a)) == if a < |memory| then memory[a] as int else 0
    {
      Appended(t, r, MemoryKey(a));
    }
  }

  /** A write record of a slot number below the bottom of the stack wraps around and touches no live slot. */
  lemma WrappedRecorded(id: nat, stack: seq<Word>, memory: seq<byte>, t: seq<RwOperation>, slot: int, w: Word)
    requires Agrees(id, stack, memory, t, WHOLE) && -STACK_LIMIT <= slot < 0
    ensures Agrees(id, stack, memory, t + [StackOperation(id, slot, |t|, true, w)], WHOLE)
  {
    hide Good, RecordOk;
    var r := StackOperation(id, slot, |t|, true, w);
    StackRecordOk(id, slot, |t|, true, w);
    GoodAppend(id, t, r);
    forall j | 0 <= j < |stack|
      ensures Replay(t + [r], StackKey(j)) == stack[j]
    {
      Appended(t, r, StackKey(j));
      SlotKeys(j, slot);
    }
    MemoryUntouched(memory, t, r, 0, 0);
  }

  // ---------------------------------------------------------------- the record helpers of the interpreter

  lemma ReadKept(env: Env, s: State, i: nat)
    requires Holds(env, s) && i < |s.stack|
    ensures Holds(env, ReadSlot(env, s, i))
  {
    hide Agrees;
    SlotRecorded(env.callId, s.stack, s.memory, s.trace, WHOLE, i, false);
  }

  /** State s agrees except at stack slot i. */
  ghost predicate Pending(env: Env, s: State, i: nat) {
    Agrees(env.callId, s.stack, s.memory, s.trace, Gap(i, 0, 0))
  }

  lemma WriteKept(env: Env, s: State, i: nat)
    requires Pending(env, s, i) && i < |s.stack|
    ensures Holds(env, WriteSlot(env, s, i))
  {
    hide Agrees;
    SlotRecorded(env.callId, s.stack, s.memory, s.trace, Gap(i, 0, 0), i, true);
  }

  lemma Rewritten(env: Env, s: State, i: nat)
    requires Holds(env, s) && i < |s.stack|
    ensures Holds(env, WriteSlot(env, s, i))
  {
    hide Agrees;
    SlotRecorded(env.callId, s.stack, s.memory, s.trace, WHOLE, i, true);
  }

  lemma Overwritten(env: Env, s: State, i: nat, w: Word)
    requires Holds(env, s) && i < |s.stack|
    ensures Pending(env, s.(stack := s.stack[i := w]), i)
  {
    hide Replay, Good, StackKey, MemoryAgrees;
  }

  lemma Dropped(env: Env, s: State, n: nat)
    requires Holds(env, s) && n <= |s.stack|
    ensures Holds(env, s.(stack := s.stack[..n]))
  {
    hide Replay, Good, StackKey, MemoryAgrees;
  }

  /** A new top item, not yet recorded. */
  lemma OnTop(env: Env, s: State, n: nat, w: Word)
    requires Holds(env, s) && n <= |s.stack| && n < STACK_LIMIT
    ensures Pending(env, s.(stack := s.stack[..n] + [w]), n)
  {
    hide Replay, Good, StackKey, MemoryAgrees;
  }

  /** Position, gas and return stack take no part. */
  lemma SameCells(env: Env, s: State, s': State)
    requires Holds(env, s) && s'.stack == s.stack && s'.memory == s.memory && s'.trace == s.trace
    ensures Holds(env, s')
  {
    hide Agrees;
  }

  lemma PushKept(env: Env, s: State, w: Word)
    requires Holds(env, s) && |s.stack| < STACK_LIMIT
    ensures Holds(env, Push(env, s, w))
  {
    hide Agrees;
    OnTop(env, s, |s.stack|, w);
    assert s.stack[..|s.stack|] == s.stack;
    WriteKept(env, s.(stack := s.stack + [w]), |s.stack|);
  }

  // ---------------------------------------------------------------- memory

  lemma Grown(env: Env, s: State, memory: seq<byte>)
    requires Holds(env, s) && s.memory <= memory && forall i :: |s.memory| <= i < |memory| ==> memory[i] == 0
    ensures Holds(env, s.(memory := memory))
  {
    hide Replay, Good, StackAgrees, MemoryKey;
    assert forall i :: 0 <= i < |s.memory| ==> s.memory[i] == memory[i];
  }

  lemma TouchExtends(gas: int, memory: seq<byte>, offset: Word)
    ensures var m := Touch(gas, memory, offset, 32).memory;
      memory <= m && forall i :: |memory| <= i < |m| ==> m[i] == 0
  {
    RoundUp(Low64(offset) + 32);
  }

  lemma Touched(env: Env, s: State, offset: Word)
    requires Holds(env, s)
    ensures Holds(env, s.(memory := Touch(s.gas, s.memory, offset, 32).memory))
  {
    hide Touch, Agrees;
    TouchExtends(s.gas, s.memory, offset);
    Grown(env, s, Touch(s.gas, s.memory, offset, 32).memory);
  }

  /** One memory record that repeats the live byte shrinks a gap that starts there. */
  lemma ByteRecorded(id: nat, stack: seq<Word>, memory: seq<byte>, t: seq<RwOperation>, a: Word, hi: nat, isWrite: bool)
    requires a < |memory| && a < 0x2_0000_0000
    requires Agrees(id, stack, memory, t, if isWrite then Gap(-1, a, hi) else WHOLE)
    ensures var r := MemoryOperation(id, a, |t|, isWrite, memory[a]);
      Agrees(id, stack, memory, t + [r], if isWrite then Gap(-1, a + 1, hi) else WHOLE)
  {
    hide Good, Replay;
    var r := MemoryOperation(id, a, |t|, isWrite, memory[a]);
    if !isWrite { assert Replay(t, MemoryKey(a)) == memory[a] as int; }
    GoodAppend(id, t, r);
    forall j | 0 <= j < |stack|
      ensures Replay(t + [r], StackKey(j)) == stack[j]
    {
      Appended(t, r, StackKey(j));
    }
    forall b: Word | if isWrite then !(a + 1 <= b < hi) else true
      ensures Replay(t + [r], MemoryKey(b)) == if b < |memory| then memory[b] as int else 0
    {
      Appended(t, r, MemoryKey(b));
    }
  }

  function ByteRow(id: nat, memory: seq<byte>, base: nat, addr: nat, j: nat, isWrite: bool): RwOperation
    requires addr + j < |memory| && addr + j < 0x2_0000_0000
  {
    MemoryOperation(id, addr + j, base + j, isWrite, memory[addr + j])
  }

  lemma {:induction false} BytesRecorded(env: Env, s: State, addr: nat, rows: seq<RwOperation>, n: nat, isWrite: bool)
    requires n <= 32 && addr + 32 <= |s.memory| && addr <= MAX_BUFFER_SIZE && |rows| == n
    requires forall j :: 0 <= j < n ==> rows[j] == ByteRow(env.callId, s.memory, |s.trace|, addr, j, isWrite)
    requires Agrees(env.callId, s.stack, s.memory, s.trace, if isWrite then Gap(-1, addr, addr + 32) else WHOLE)
    ensures Agrees(env.callId, s.stack, s.memory, s.trace + rows,
                   if isWrite then Gap(-1, addr + n, addr + 32) else WHOLE)
  {
    hide Agrees;
    if n == 0 {
      assert s.trace + rows == s.trace;
    } else {
      BytesRecorded(env, s, addr, rows[..n - 1], n - 1, isWrite);
      ByteRecorded(env.callId, s.stack, s.memory, s.trace + rows[..n - 1], addr + n - 1, addr + 32, isWrite);
      assert s.trace + rows == (s.trace + rows[..n - 1]) + [rows[n - 1]];
    }
  }

  lemma MemoryRecorded(env: Env, s: State, addr: nat, isWrite: bool)
    requires addr + 32 <= |s.memory| && addr <= MAX_BUFFER_SIZE
    requires Agrees(env.callId, s.stack, s.memory, s.trace, if isWrite then Gap(-1, addr, addr + 32) else WHOLE)
    ensures Holds(env, MemoryRecords(env, s, addr, isWrite))
  {
    hide Good, Replay, StackAgrees;
    var rows := seq(32, j requires 0 <= j < 32 =>
      MemoryOperation(env.callId, addr + j, |s.trace| + j, isWrite, s.memory[addr + j]));
    BytesRecorded(env, s, addr, rows, 32, isWrite);
  }

  /** A store leaves a gap of 32 bytes for its records to close. */
  lemma Stored(env: Env, s: State, addr: nat, v: Word, width: nat)
    requires Holds(env, s) && addr + 32 <= |s.memory| && width <= 32
    ensures Agrees(env.callId, s.stack, StoreAt(s.memory, addr, v, width), s.trace, Gap(-1, addr, addr + 32))
  {
    hide Replay, Good, StackAgrees, MemoryKey, ToBytes;
    var m := StoreAt(s.memory, addr, v, width);
    assert forall a :: 0 <= a < |m| && !(addr <= a < addr + 32) ==> m[a] == s.memory[a];
  }

  // ---------------------------------------------------------------- the instructions

  /** A continuing step keeps the invariant; a halting one leaves a good trace. */
  ghost predicate Kept(env: Env, o: Outcome) {
    match o
    case Next(s) => Holds(env, s)
    case Halt(_, s, _) => Good(env.callId, s.trace)
    case Fault => true
  }

  lemma GoodTrace(env: Env, s: State)
    requires Holds(env, s)
    ensures Good(env.callId, s.trace) && |s.stack| <= STACK_LIMIT
  {
    hide Good;
  }

  lemma KeptNext(env: Env, s: State, s': State)
    requires Holds(env, s) && s'.stack == s.stack && s'.memory == s.memory && s'.trace == s.trace
    ensures Kept(env, Next(s'))
  {
    hide Holds;
    SameCells(env, s, s');
  }

  lemma KeptHalt(env: Env, s: State, status: Status, s': State, atCheck: bool)
    requires Holds(env, s) && s'.trace == s.trace
    ensures Kept(env, Halt(status, s', atCheck))
  {
    hide Holds, Good;
    GoodTrace(env, s);
  }

  lemma BinaryKept(env: Env, ch: Choice, s: State, op: byte)
    requires Holds(env, s) && |s.stack| >= 2
    ensures Kept(env, ExecBinary(env, ch, s, op))
  {
    hide Holds, Pending, Alu, Kept;
    GoodTrace(env, s);
    var n := |s.stack|;
    ReadKept(env, s, n - 2);
    ReadKept(env, ReadSlot(env, s, n - 2), n - 1);
    var read := ReadSlot(env, ReadSlot(env, s, n - 2), n - 1);
    var v := Alu(op, s.stack[n - 1], s.stack[n - 2], ch.word);
    OnTop(env, read, n - 2, v);
    var done := read.(stack := s.stack[..n - 2] + [v]);
    WriteKept(env, done, n - 2);
    KeptNext(env, WriteSlot(env, done, n - 2), ExecBinary(env, ch, s, op).s);
  }

  /** The three reads of ADDMOD and MULMOD. */
  function ReadThree(env: Env, s: State): State
    requires |s.stack| >= 3
  {
    var n := |s.stack|;
    ReadSlot(env, ReadSlot(env, ReadSlot(env, s, n - 3), n - 2), n - 1)
  }

  lemma ReadThreeKept(env: Env, s: State)
    requires Holds(env, s) && |s.stack| >= 3
    ensures Holds(env, ReadThree(env, s)) && ReadThree(env, s).stack == s.stack
    ensures ReadThree(env, s).memory == s.memory
  {
    hide Holds;
    var n := |s.stack|;
    ReadKept(env, s, n - 3);
    ReadKept(env, ReadSlot(env, s, n - 3), n - 2);
    ReadKept(env, ReadSlot(env, ReadSlot(env, s, n - 3), n - 2), n - 1);
  }

  lemma AddModKept(env: Env, s: State)
    requires Holds(env, s) && |s.stack| >= 3
    ensures Kept(env, ExecAddMod(env, s))
  {
    hide Holds, Pending, AddMod, Kept;
    GoodTrace(env, s);
    var n := |s.stack|;
    ReadThreeKept(env, s);
    var read := ReadThree(env, s);
    var v := AddMod(s.stack[n - 1], s.stack[n - 2], s.stack[n - 3]);
    OnTop(env, read, n - 3, v);
    var done := read.(stack := s.stack[..n - 3] + [v]);
    WriteKept(env, done, n - 3);
    KeptNext(env, WriteSlot(env, done, n - 3), ExecAddMod(env, s).s);
  }

  lemma UnaryKept(env: Env, ch: Choice, s: State, op: byte)
    requires Holds(env, s) && |s.stack| >= 1
    ensures Kept(env, ExecUnary(env, ch, s, op))
  {
    hide Holds, Pending, Unary, Kept;
    var n := |s.stack|;
    ReadKept(env, s, n - 1);
    var read := ReadSlot(env, s, n - 1);
    var v := Unary(op, s.stack[n - 1], ch.word);
    Overwritten(env, read, n - 1, v);
    var done := read.(stack := s.stack[n - 1 := v]);
    WriteKept(env, done, n - 1);
    KeptNext(env, WriteSlot(env, done, n - 1), ExecUnary(env, ch, s, op).s);
  }

  lemma MLoadKept(env: Env, s: State)
    requires Holds(env, s) && |s.stack| >= 1
    ensures Kept(env, ExecMLoad(env, s))
  {
    hide Holds, Kept, Touch, Loaded;
    var n := |s.stack|;
    ReadKept(env, s, n - 1);
    var read := ReadSlot(env, s, n - 1);
    var a := Touch(s.gas, s.memory, s.stack[n - 1], 32);
    if a.ok {
      TouchCovers(s.gas, s.memory, s.stack[n - 1], 32);
      Touched(env, read, s.stack[n - 1]);
      var grown := read.(gas := a.gas, memory := a.memory);
      SameCells(env, read.(memory := a.memory), grown);
      LoadKept(env, grown, Low64(s.stack[n - 1]));
      KeptSame(env, Loaded(env, grown, Low64(s.stack[n - 1])), ExecMLoad(env, s));
    } else {
      KeptHalt(env, read, OutOfGas, read.(gas := a.gas, memory := a.memory), false);
    }
  }

  lemma LoadKept(env: Env, s: State, addr: nat)
    requires Holds(env, s) && |s.stack| >= 1 && addr + 32 <= |s.memory| && addr <= MAX_BUFFER_SIZE
    ensures Holds(env, Loaded(env, s, addr))
  {
    hide Agrees, WordFromBytes;
    var top := |s.stack| - 1;
    var w := WordFromBytes(s.memory[addr..addr + 32]);
    var loaded := s.(stack := s.stack[top := w]);
    ReadRowsKept(env, s, loaded, addr);
    WriteKept(env, MemoryRecords(env, loaded, addr, false), top);
  }

  /** The read records of MLOAD come while the new top item is still unrecorded. */
  lemma ReadRowsKept(env: Env, s: State, loaded: State, addr: nat)
    requires Holds(env, s) && |s.stack| >= 1 && addr + 32 <= |s.memory| && addr <= MAX_BUFFER_SIZE
    requires loaded.memory == s.memory && loaded.trace == s.trace && |loaded.stack| == |s.stack|
    requires forall i :: 0 <= i < |s.stack| - 1 ==> loaded.stack[i] == s.stack[i]
    ensures Pending(env, MemoryRecords(env, loaded, addr, false), |s.stack| - 1)
  {
    hide Good, Replay;
    MemoryRecorded(env, s, addr, false);
    assert MemoryRecords(env, s, addr, false).trace == MemoryRecords(env, loaded, addr, false).trace;
  }

  lemma MStoreKept(env: Env, s: State, width: nat)
    requires Holds(env, s) && |s.stack| >= 2 && 1 <= width <= 32
    ensures Kept(env, ExecMStore(env, s, width))
  {
    hide Holds, Kept, Touch, StoreAt, MemoryRecords;
    var n := |s.stack|;
    ReadKept(env, s, n - 2);
    ReadKept(env, ReadSlot(env, s, n - 2), n - 1);
    var read := ReadSlot(env, ReadSlot(env, s, n - 2), n - 1);
    Dropped(env, read, n - 2);
    var dropped := Drop(read, 2);
    var a := Touch(s.gas, s.memory, s.stack[n - 1], 32);
    if a.ok {
      TouchCovers(s.gas, s.memory, s.stack[n - 1], 32);
      Touched(env, dropped, s.stack[n - 1]);
      var addr := Low64(s.stack[n - 1]);
      var stored := dropped.(gas := a.gas, memory := StoreAt(a.memory, addr, s.stack[n - 2], width));
      StoreKept(env, dropped.(memory := a.memory), stored, addr, s.stack[n - 2], width);
      KeptNext(env, MemoryRecords(env, stored, addr, true), ExecMStore(env, s, width).s);
    } else {
      KeptHalt(env, dropped, OutOfGas, dropped.(gas := a.gas, memory := a.memory), false);
    }
  }

  lemma StoreKept(env: Env, s: State, stored: State, addr: nat, v: Word, width: nat)
    requires Holds(env, s) && addr + 32 <= |s.memory| && addr <= MAX_BUFFER_SIZE && width <= 32
    requires stored.stack == s.stack && stored.trace == s.trace && stored.memory == StoreAt(s.memory, addr, v, width)
    ensures Holds(env, MemoryRecords(env, stored, addr, true))
  {
    hide Agrees, MemoryRecords;
    Stored(env, s, addr, v, width);
    MemoryRecorded(env, stored, addr, true);
  }

  lemma ReturnKept(env: Env, s: State, status: Status)
    requires Holds(env, s) && |s.stack| >= 2
    ensures Kept(env, ExecReturn(env, s, status))
  {
    hide Holds, Kept, TouchRange;
    var n := |s.stack|;
    ReadKept(env, s, n - 2);
    ReadKept(env, ReadSlot(env, s, n - 2), n - 1);
    var o := ExecReturn(env, s, status);
    KeptHalt(env, ReadSlot(env, ReadSlot(env, s, n - 2), n - 1), o.status, o.s, false);
  }

  /** One more record of a push, of a live slot or of one that wrapped around. */
  lemma TopRecord(env: Env, s: State, i: nat, stale: int -> Word)
    requires Holds(env, s) && i < 32
    ensures var slot := |s.stack| - 1 - i;
      var v := if slot >= 0 then s.stack[slot] else stale(slot);
      Holds(env, s.(trace := s.trace + [StackOperation(env.callId, slot, |s.trace|, true, v)]))
  {
    hide Agrees;
    var slot: int := |s.stack| - 1 - i;
    if slot >= 0 {
      Rewritten(env, s, slot);
    } else {
      WrappedRecorded(env.callId, s.stack, s.memory, s.trace, slot, stale(slot));
    }
  }

  lemma {:induction false} TopRewritten(env: Env, s: State, i: nat, k: nat, stale: int -> Word)
    requires Holds(env, s) && k <= 32
    ensures Holds(env, WriteTop(env, s, i, k, stale))
    decreases k - i
  {
    hide Holds, StackOperation;
    if i < k {
      TopRecord(env, s, i, stale);
      var slot: int := |s.stack| - 1 - i;
      var v := if slot >= 0 then s.stack[slot] else stale(slot);
      TopRewritten(env, s.(trace := s.trace + [StackOperation(env.callId, slot, |s.trace|, true, v)]), i + 1, k, stale);
    }
  }

  /** PUSH of any length: the records below the top repeat what is there, or wrap around to no live slot. */
  lemma PushDataKept(env: Env, ch: Choice, s: State, len: nat)
    requires Holds(env, s) && |s.stack| < STACK_LIMIT && len <= 32
    ensures Kept(env, ExecPush(env, ch, s, len))
  {
    hide Holds, Kept, WordFromBytes;
    if !ExecPush(env, ch, s, len).Fault? {
      var w := WordFromBytes(env.code[s.pc + 1..s.pc + 1 + len]);
      var pushed := s.(stack := s.stack + [w]);
      PushKept(env, s, w);
      TopRewritten(env, Push(env, s, w), 1, PushRecords(len), ch.stale);
      KeptNext(env, WriteTop(env, pushed, 0, PushRecords(len), ch.stale), ExecPush(env, ch, s, len).s);
    } else {
      KeptFault(env);
    }
  }

  lemma KeptFault(env: Env)
    ensures Kept(env, Fault)
  {
  }

  lemma DupKept(env: Env, s: State, n: nat)
    requires Holds(env, s) && 1 <= n <= |s.stack| < STACK_LIMIT
    ensures Holds(env, Push(env, ReadSlot(env, s, |s.stack| - n), s.stack[|s.stack| - n]))
  {
    hide Holds;
    ReadKept(env, s, |s.stack| - n);
    PushKept(env, ReadSlot(env, s, |s.stack| - n), s.stack[|s.stack| - n]);
  }

  /** SWAPN records both exchanged slots. */
  lemma SwapNKept(env: Env, s: State)
    requires Holds(env, s)
    ensures Kept(env, ExecSwapN(env, s))
  {
    hide Holds, Kept, Pending;
    var o := ExecSwapN(env, s);
    if o.Next? {
      var n, size := env.code[s.pc + 1] as int + 1, |s.stack|;
      ReadKept(env, s, size - n - 1);
      ReadKept(env, ReadSlot(env, s, size - n - 1), size - 1);
      var read := ReadSlot(env, ReadSlot(env, s, size - n - 1), size - 1);
      var done := read.(stack := Swapped(s.stack, n));
      ExchangeKept(env, read, done, n);
      KeptNext(env, WriteSlot(env, WriteSlot(env, done, size - 1), size - n - 1), o.s);
    } else if o.Halt? {
      KeptHalt(env, s, o.status, o.s, o.atCheck);
    } else {
      KeptFault(env);
    }
  }

  lemma ExchangeKept(env: Env, s: State, done: State, n: nat)
    requires Holds(env, s) && 1 <= n < |s.stack| && done == s.(stack := Swapped(s.stack, n))
    ensures Holds(env, WriteSlot(env, WriteSlot(env, done, |s.stack| - 1), |s.stack| - n - 1))
  {
    hide Agrees;
    var size := |s.stack|;
    var low := size - n - 1;
    // As if the two slots had been overwritten one after the other.
    var first := s.(stack := s.stack[size - 1 := s.stack[low]]);
    Overwritten(env, s, size - 1, s.stack[low]);
    WriteKept(env, first, size - 1);
    var middle := WriteSlot(env, first, size - 1);
    Overwritten(env, middle, low, s.stack[size - 1]);
    var last := middle.(stack := middle.stack[low := s.stack[size - 1]]);
    WriteKept(env, last, low);
    assert WriteSlot(env, last, low) == WriteSlot(env, WriteSlot(env, done, size - 1), low);
  }

  // ---------------------------------------------------------------- the instructions that record a wrong slot

  /** When only slot i was changed without a record, the invariant survives exactly if the word is the same. */
  lemma WrongSlot(env: Env, s: State, stack: seq<Word>, i: nat)
    requires Holds(env, s) && |stack| == |s.stack| && i < |stack|
    requires forall j :: 0 <= j < |stack| && j != i ==> stack[j] == s.stack[j]
    ensures Holds(env, s.(stack := stack)) <==> stack[i] == s.stack[i]
  {
    hide Replay, Good, StackKey, MemoryAgrees;
    assert Replay(s.trace, StackKey(i)) == s.stack[i];
    if stack[i] == s.stack[i] { assert stack == s.stack; }
  }

  /** A product reduced by a modulus is that modulus only if it is zero. */
  lemma ReducedDiffers(x: Word, y: Word, m: Word)
    ensures MulMod(x, y, m) == m <==> m == 0
  {
    hide MulMod;
    if m > 0 {
      var k := MulModExact(x, y, m);
    } else {
      ZeroModulus(x, y);
    }
  }

  lemma ZeroModulus(x: Word, y: Word)
    ensures MulMod(x, y, 0) == 0
  {
  }

  /** MULMOD keeps the invariant if and only if the modulus is zero. */
  lemma MulModTraceExact(env: Env, s: State)
    requires Holds(env, s) && |s.stack| >= 3
    ensures Holds(env, ExecMulMod(env, s).s) <==> s.stack[|s.stack| - 3] == 0
  {
    hide Holds, MulMod;
    var n := |s.stack|;
    ReducedDiffers(s.stack[n - 1], s.stack[n - 2], s.stack[n - 3]);
    ReadThreeKept(env, s);
    var read := ReadThree(env, s);
    Rewritten(env, read, n - 1);
    var written := WriteSlot(env, read, n - 1);
    Dropped(env, written, n - 2);
    var rest := written.(stack := s.stack[..n - 2]);
    var m := MulMod(s.stack[n - 1], s.stack[n - 2], s.stack[n - 3]);
    var after := ExecMulMod(env, s).s;
    WrongSlot(env, rest, after.stack, n - 3);
    var unmoved := rest.(stack := after.stack);
    if Holds(env, unmoved) { SameCells(env, unmoved, after); }
    if Holds(env, after) { SameCells(env, after, unmoved); }
  }

  /** SWAP1 to SWAP16 keep the invariant if and only if the two words are equal. */
  lemma SwapTraceExact(env: Env, s: State, n: nat)
    requires Holds(env, s) && 1 <= n < |s.stack|
    ensures var size := |s.stack|;
      && (Holds(env, ExecSwap(env, s, n).s) <==> s.stack[size - 1] == s.stack[size - n - 1])
      && Good(env.callId, ExecSwap(env, s, n).s.trace)
      && Replay(ExecSwap(env, s, n).s.trace, StackKey(size - n - 1)) == s.stack[size - n - 1]
  {
    hide Holds, Pending, Good, Replay;
    var size := |s.stack|;
    var low := size - n - 1;
    ReadKept(env, s, low);
    ReadKept(env, ReadSlot(env, s, low), size - 1);
    var read := ReadSlot(env, ReadSlot(env, s, low), size - 1);
    Overwritten(env, read, size - 1, s.stack[low]);
    var first := read.(stack := s.stack[size - 1 := s.stack[low]]);
    WriteKept(env, first, size - 1);
    Rewritten(env, WriteSlot(env, first, size - 1), size - n);
    var recorded := WriteSlot(env, WriteSlot(env, first, size - 1), size - n);
    var after := ExecSwap(env, s, n).s;
    SlotReplays(env, recorded, low);
    assert recorded.trace == after.trace;
    WrongSlot(env, recorded, after.stack, low);
    var unmoved := recorded.(stack := after.stack);
    if Holds(env, unmoved) { SameCells(env, unmoved, after); }
    if Holds(env, after) { SameCells(env, after, unmoved); }
  }

  /** The two words that an indexed SWAP exchanges are equal. */
  predicate SwapAtEqual(stack: seq<Word>)
    requires |stack| > 0 && !IndexOutside(OP_SWAP, stack)
  {
    var n := |stack|; stack[n - 2] == stack[n - 2 - Low64(stack[n - 1]) % 0x1_0000]
  }

  /** The indexed SWAP likewise, at every depth inside the stack. */
  lemma SwapAtTraceExact(env: Env, s: State)
    requires Holds(env, s) && |s.stack| > 0 && !IndexOutside(OP_SWAP, s.stack)
    ensures Holds(env, ExecSwapAt(env, s).s) <==> SwapAtEqual(s.stack)
  {
    hide Holds, Low64, ExecSwap, Replay, Good;
    var n := |s.stack|;
    var depth := Low64(s.stack[n - 1]) % 0x1_0000;
    ReadKept(env, s, n - 1);
    var read := ReadSlot(env, s, n - 1);
    if depth > 0 {
      Dropped(env, read, n - 1);
      SwapTraceExact(env, Drop(read, 1), depth);
    } else {
      SelfSwapKept(env, read);
      SameCells(env, SelfSwapped(env, read), ExecSwapAt(env, s).s);
    }
  }

  lemma SlotReplays(env: Env, s: State, i: nat)
    requires Holds(env, s) && i < |s.stack|
    ensures Good(env.callId, s.trace) && Replay(s.trace, StackKey(i)) == s.stack[i] && |s.stack| <= STACK_LIMIT
  {
    hide Good, Replay, StackKey;
  }

  /** The last thing recorded of cell k is that it was read as v; nothing has been written to it since. */
  ghost predicate LastRead(t: seq<RwOperation>, k: Key, v: Word) {
    exists a: nat :: ReadAt(t, a, k, v) && forall u :: a <= u < |t| && t[u].isWrite ==> KeyOf(t[u]) != k
  }

  predicate ReadAt(t: seq<RwOperation>, a: nat, k: Key, v: Word) {
    a < |t| && !t[a].isWrite && KeyOf(t[a]) == k && t[a].value == v
  }

  /** No initial memory whatever explains the trace, however it goes on. */
  ghost predicate Unexplained(t: seq<RwOperation>) {
    forall more: seq<RwOperation>, m0: Key -> Word :: !TimeConsistent(m0, t + more)
  }

  /** In particular nothing explains the trace as it stands. */
  lemma UnexplainedNow(t: seq<RwOperation>)
    requires Unexplained(t)
    ensures !exists m0 :: TimeConsistent(m0, t)
  {
    assert t + [] == t;
  }

  /** A second read of the cell with another value. */
  lemma ReadAgain(t: seq<RwOperation>, k: Key, v: Word, r: RwOperation, t': seq<RwOperation>)
    requires LastRead(t, k, v) && !r.isWrite && KeyOf(r) == k && r.value != v && t + [r] <= t'
    ensures Unexplained(t')
  {
    hide KeyOf;
    var a: nat :| ReadAt(t, a, k, v) && forall u :: a <= u < |t| && t[u].isWrite ==> KeyOf(t[u]) != k;
    forall more: seq<RwOperation>, m0: Key -> Word
      ensures !TimeConsistent(m0, t' + more)
    {
      var all := t' + more;
      assert all[|t|] == (t + [r])[|t|] == r;
      assert forall u :: 0 <= u < |t| ==> all[u] == (t + [r])[u] == t[u];
      ValueUnchanged(m0, all, a, |t|, k);
    }
  }

  /** SWAPn reads the lower slot, changes it, and records no write of it. */
  lemma SwapLoses(env: Env, s: State, n: nat)
    requires 1 <= n < |s.stack| <= STACK_LIMIT
    ensures var low := |s.stack| - n - 1; LastRead(ExecSwap(env, s, n).s.trace, StackKey(low), s.stack[low])
  {
    hide StackKey, Swapped;
    var size, t := |s.stack|, ExecSwap(env, s, n).s.trace;
    var low := size - n - 1;
    LowestRecord(env, s, t, low);
    SlotKeys(size - 1, low);
    SlotKeys(size - n, low);
    StackRecordOk(env.callId, size - 1, |s.trace| + 2, true, ExecSwap(env, s, n).s.stack[size - 1]);
    StackRecordOk(env.callId, size - n, |s.trace| + 3, true, ExecSwap(env, s, n).s.stack[size - n]);
  }

  lemma LowestRecord(env: Env, s: State, t: seq<RwOperation>, low: nat)
    requires low < |s.stack| && s.trace + [StackOperation(env.callId, low, |s.trace|, false, s.stack[low])] <= t
    ensures ReadAt(t, |s.trace|, StackKey(low), s.stack[low])
  {
    StackRecordOk(env.callId, low, |s.trace|, false, s.stack[low]);
    assert t[|s.trace|] == StackOperation(env.callId, low, |s.trace|, false, s.stack[low]);
  }

  /** MULMOD reads the modulus, replaces it, and records no write of its slot. */
  lemma MulModLoses(env: Env, s: State)
    requires 3 <= |s.stack| <= STACK_LIMIT
    ensures var low := |s.stack| - 3; LastRead(ExecMulMod(env, s).s.trace, StackKey(low), s.stack[low])
  {
    hide StackKey, MulMod;
    var n, t := |s.stack|, ExecMulMod(env, s).s.trace;
    LowestRecord(env, s, t, n - 3);
    SlotKeys(n - 1, n - 3);
    StackRecordOk(env.callId, n - 1, |s.trace| + 3, true, t[|s.trace| + 3].value);
  }

  /** DUPn first records a read of the slot it copies. */
  lemma DupReads(env: Env, s: State, n: nat, v: Word)
    requires 1 <= n <= |s.stack| && LastRead(s.trace, StackKey(|s.stack| - n), v) && v != s.stack[|s.stack| - n]
    ensures Unexplained(ExecDup(env, s, n).s.trace)
  {
    hide StackKey, LastRead, Unexplained;
    var slot := |s.stack| - n;
    var r := StackOperation(env.callId, slot, |s.trace|, false, s.stack[slot]);
    StackRecordOk(env.callId, slot, |s.trace|, false, s.stack[slot]);
    ReadAgain(s.trace, StackKey(slot), v, r, ExecDup(env, s, n).s.trace);
  }

  /** SWAPn of two different words and then DUPn+1: no memory explains the trace of these two steps. */
  lemma SwapThenDup(env: Env, ch: Choice, ch': Choice, s: State, n: nat)
    requires 1 <= n <= 15 && n < |s.stack| <= STACK_LIMIT && s.stack[|s.stack| - 1] != s.stack[|s.stack| - n - 1]
    requires 0 <= s.pc && s.pc + 1 < |env.code|
    requires env.code[s.pc] == OP_SWAP1 + (n - 1) && env.code[s.pc + 1] == OP_DUP1 + n
    requires Step(env, ch, s).Next? && Step(env, ch', Step(env, ch, s).s).Next?
    ensures Unexplained(Step(env, ch', Step(env, ch, s).s).s.trace)
  {
    hide Step, ExecSwap, ExecDup, LastRead, Unexplained, StackKey, CheckRequirements;
    ShuffleStep(env, ch, s);
    var charged := Charged(env, s);
    SwapLoses(env, charged, n);
    SwapEffect(env, charged, n);
    var s' := Step(env, ch, s).s;
    ShuffleStep(env, ch', s');
    DupReads(env, Charged(env, s'), n + 1, s.stack[|s.stack| - n - 1]);
  }

  /** MULMOD with a modulus other than zero and then DUP1 likewise. */
  lemma MulModThenDup(env: Env, ch: Choice, ch': Choice, s: State)
    requires 3 <= |s.stack| <= STACK_LIMIT && s.stack[|s.stack| - 3] != 0
    requires 0 <= s.pc && s.pc + 1 < |env.code| && env.code[s.pc] == OP_MULMOD && env.code[s.pc + 1] == OP_DUP1
    requires Step(env, ch, s).Next? && Step(env, ch', Step(env, ch, s).s).Next?
    ensures Unexplained(Step(env, ch', Step(env, ch, s).s).s.trace)
  {
    hide Step, ExecMulMod, ExecDup, LastRead, Unexplained, StackKey, MulMod, CheckRequirements;
    ShuffleStep(env, ch, s);
    var charged := Charged(env, s);
    MulModLoses(env, charged);
    MulModEffect(env, charged);
    var n := |s.stack|;
    ReducedDiffers(s.stack[n - 1], s.stack[n - 2], s.stack[n - 3]);
    var s' := Step(env, ch, s).s;
    ShuffleStep(env, ch', s');
    DupReads(env, Charged(env, s'), 1, s.stack[n - 3]);
  }

  /** The state in which the instruction at the current position executes: its base cost is paid. */
  function Charged(env: Env, s: State): State
    requires 0 <= s.pc < |env.code|
  {
    s.(gas := CheckRequirements(env, s.gas, |s.stack|, env.code[s.pc]).1)
  }

  /** A continuing step of SWAP1-16, DUP1-16 or MULMOD, without its requirements check. */
  lemma ShuffleStep(env: Env, ch: Choice, s: State)
    requires 0 <= s.pc < |env.code| && Step(env, ch, s).Next?
    ensures var op, o := env.code[s.pc], Step(env, ch, s);
      && (OP_SWAP1 <= op < 0xa0 ==> op - 0x8f < |s.stack| && o == ExecSwap(env, Charged(env, s), op - 0x8f))
      && (OP_DUP1 <= op < OP_SWAP1 ==> op - 0x7f <= |s.stack| && o == ExecDup(env, Charged(env, s), op - 0x7f))
      && (op == OP_MULMOD ==> 3 <= |s.stack| && o == ExecMulMod(env, Charged(env, s)))
  {
    hide KindOf, TraitsOf, Exec, Step, CheckRequirements, ExecSwap, ExecDup, ExecMulMod;
    var op := env.code[s.pc];
    Continues(env, ch, s);
    PassedStep(env, ch, s, op, Charged(env, s).gas);
    TraitsMatchImplementation(op);
    ShuffleKinds(op);
    ExecStackMove(env, ch, Charged(env, s), op);
    ExecArithmetic(env, ch, Charged(env, s), op);
  }

  lemma Continues(env: Env, ch: Choice, s: State)
    requires 0 <= s.pc < |env.code| && Step(env, ch, s).Next?
    ensures CheckRequirements(env, s.gas, |s.stack|, env.code[s.pc]).0 == None
  {
    hide Exec, CheckRequirements, TraitsOf;
  }

  lemma ShuffleKinds(op: byte)
    ensures OP_SWAP1 <= op < 0xa0 ==> KindOf(op) == KSwap(op - 0x8f)
    ensures OP_DUP1 <= op < OP_SWAP1 ==> KindOf(op) == KDup(op - 0x7f)
    ensures KindOf(OP_MULMOD) == KMulMod
  {
  }

  lemma SwapEffect(env: Env, s: State, n: nat)
    requires 1 <= n < |s.stack|
    ensures var o := ExecSwap(env, s, n); var low := |s.stack| - n - 1;
      o.Next? && o.s.pc == s.pc + 1 && |o.s.stack| == |s.stack| && o.s.stack[low] == s.stack[|s.stack| - 1]
  {
  }

  lemma MulModEffect(env: Env, s: State)
    requires |s.stack| >= 3
    ensures var o, n := ExecMulMod(env, s), |s.stack|;
      && o.Next? && o.s.pc == s.pc + 1 && |o.s.stack| == n - 2
      && o.s.stack[n - 3] == MulMod(s.stack[n - 1], s.stack[n - 2], s.stack[n - 3])
  {
    hide MulMod;
  }

  /** The extra records of PUSH2 to PUSH31 name live slots only on a stack at least len - 1 deep. */
  lemma PushRecordsInside(env: Env, s: State, w: Word, len: nat, stale: int -> Word)
    requires len <= 32 && |s.stack| < STACK_LIMIT
    ensures var pushed := s.(stack := s.stack + [w]); var t := WriteTop(env, pushed, 0, PushRecords(len), stale).trace;
      && |s.trace| <= |t|
      && ((forall k :: |s.trace| <= k < |t| ==> t[k].address <= |s.stack|) <==> PushRecords(len) <= |s.stack| + 1)
  {
    var pushed := s.(stack := s.stack + [w]);
    var t := WriteTop(env, pushed, 0, PushRecords(len), stale).trace;
    TopAddresses(env, pushed, 0, PushRecords(len), stale);
    if PushRecords(len) > |s.stack| + 1 {
      assert t[|s.trace| + |s.stack| + 1].address == (-1) % 0x1_0000;
    }
  }

  lemma {:induction false} TopAddresses(env: Env, s: State, i: nat, k: nat, stale: int -> Word)
    requires i <= k <= 32
    ensures var t := WriteTop(env, s, i, k, stale).trace;
      && |t| == |s.trace| + (k - i) && s.trace <= t
      && forall j: int :: |s.trace| <= j < |t| ==> t[j].address == (|s.stack| - 1 - i - (j - |s.trace|)) % 0x1_0000
    decreases k - i
  {
    if i < k {
      var slot: int := |s.stack| - 1 - i;
      var v := if slot >= 0 then s.stack[slot] else stale(slot);
      var s' := s.(trace := s.trace + [StackOperation(env.callId, slot, |s.trace|, true, v)]);
      TopAddresses(env, s', i + 1, k, stale);
      var t := WriteTop(env, s', i + 1, k, stale).trace;
      assert t[|s.trace|] == s'.trace[|s.trace|];
    }
  }

  // ---------------------------------------------------------------- one step

  /** The step records what it does: everything but external instructions, MULMOD and SWAP1-16 always does. */
  predicate Faithful(env: Env, s: State) {
    0 <= s.pc < |env.code| &&
    var k, n := KindOf(env.code[s.pc]), |s.stack|;
    match k
    case KExternal(_, _) => false
    case KMulMod => n >= 3 ==> s.stack[n - 3] == 0
    case KDupAt => CopiesLive(s.stack)
    case KSwapAt => n > 0 && !IndexOutside(OP_SWAP, s.stack) ==> SwapAtEqual(s.stack)
    case KSwap(d) => n > d ==> s.stack[n - 1] == s.stack[n - d - 1]
    case _ => true
  }

  lemma KeptSame(env: Env, s: State, o: Outcome)
    requires Holds(env, s)
    requires o.Next? ==> o.s.stack == s.stack && o.s.memory == s.memory && o.s.trace == s.trace
    requires o.Halt? ==> o.s.trace == s.trace
    ensures Kept(env, o)
  {
    hide Holds, Kept;
    match o
    case Next(s') => KeptNext(env, s, s');
    case Halt(status, s', atCheck) => KeptHalt(env, s, status, s', atCheck);
    case Fault => KeptFault(env);
  }

  lemma JumpKept(env: Env, s: State, dst: Word)
    requires Holds(env, s)
    ensures Kept(env, JumpTo(env, s, dst))
  {
    hide Holds, Kept;
    KeptSame(env, s, JumpTo(env, s, dst));
  }

  lemma ReadAndDropKept(env: Env, s: State)
    requires Holds(env, s) && |s.stack| >= 1
    ensures Holds(env, Drop(ReadSlot(env, s, |s.stack| - 1), 1))
  {
    hide Holds;
    ReadKept(env, s, |s.stack| - 1);
    Dropped(env, ReadSlot(env, s, |s.stack| - 1), |s.stack| - 1);
  }

  lemma JumpOpKept(env: Env, s: State)
    requires Holds(env, s) && |s.stack| >= 1
    ensures Kept(env, ExecJump(env, s))
  {
    hide Holds, Kept, JumpTo;
    ReadAndDropKept(env, s);
    JumpKept(env, Drop(ReadSlot(env, s, |s.stack| - 1), 1), s.stack[|s.stack| - 1]);
  }

  lemma JumpIOpKept(env: Env, s: State)
    requires Holds(env, s) && |s.stack| >= 2
    ensures Kept(env, ExecJumpI(env, s))
  {
    hide Holds, Kept, JumpTo, Low64;
    var n := |s.stack|;
    ReadKept(env, s, n - 2);
    ReadKept(env, ReadSlot(env, s, n - 2), n - 1);
    var read := ReadSlot(env, ReadSlot(env, s, n - 2), n - 1);
    Dropped(env, read, n - 2);
    JumpKept(env, Drop(read, 2), s.stack[n - 1]);
    if Low64(s.stack[n - 2]) <= 0 { KeptSame(env, Drop(read, 2), Advance(Drop(read, 2), 1)); }
  }

  lemma RJumpIOpKept(env: Env, s: State)
    requires Holds(env, s) && |s.stack| >= 1
    ensures Kept(env, ExecRJumpI(env, s))
  {
    hide Holds, Kept, I16, Low64;
    ReadAndDropKept(env, s);
    KeptSame(env, Drop(ReadSlot(env, s, |s.stack| - 1), 1), ExecRJumpI(env, s));
  }

  lemma RJumpVOpKept(env: Env, s: State)
    requires Holds(env, s) && |s.stack| >= 1
    ensures Kept(env, ExecRJumpV(env, s))
  {
    hide Holds, Kept, I16, Low64;
    ReadAndDropKept(env, s);
    KeptSame(env, Drop(ReadSlot(env, s, |s.stack| - 1), 1), ExecRJumpV(env, s));
  }

  lemma JumpsKept(env: Env, ch: Choice, s: State, op: byte)
    requires Holds(env, s) && |s.stack| >= TraitsOf(op).stackHeightRequired
    requires KindOf(op) in {KJump, KJumpI, KRJumpI, KRJumpV}
    ensures Kept(env, Exec(env, ch, s, op))
  {
    hide Holds, Kept, TraitsOf, KindOf, Exec, ExecJump, ExecJumpI, ExecRJumpI, ExecRJumpV;
    TraitsMatchImplementation(op);
    ExecControl(env, ch, s, op);
    match KindOf(op)
    case KJump => JumpOpKept(env, s);
    case KJumpI => JumpIOpKept(env, s);
    case KRJumpI => RJumpIOpKept(env, s);
    case KRJumpV => RJumpVOpKept(env, s);
  }

  lemma FramesKept(env: Env, s: State)
    requires Holds(env, s)
    ensures Kept(env, ExecRJump(env, s)) && Kept(env, ExecCallF(env, s))
    ensures Kept(env, ExecRetF(env, s)) && Kept(env, ExecJumpF(env, s))
  {
    hide Holds, Kept, I16, U16;
    KeptSame(env, s, ExecRJump(env, s));
    KeptSame(env, s, ExecCallF(env, s));
    KeptSame(env, s, ExecRetF(env, s));
    KeptSame(env, s, ExecJumpF(env, s));
  }

  /** Frames and unconditional relative jumps touch no cell. */
  lemma FrameOpKept(env: Env, ch: Choice, s: State, op: byte)
    requires Holds(env, s) && |s.stack| >= TraitsOf(op).stackHeightRequired
    requires KindOf(op) in {KRJump, KCallF, KRetF, KJumpF}
    ensures Kept(env, Exec(env, ch, s, op))
  {
    hide Holds, Kept, TraitsOf, KindOf, Exec, ExecRJump, ExecCallF, ExecRetF, ExecJumpF;
    TraitsMatchImplementation(op);
    ExecControl(env, ch, s, op);
    FramesKept(env, s);
  }

  lemma ArithmeticKept(env: Env, ch: Choice, s: State, op: byte)
    requires Holds(env, s) && |s.stack| >= TraitsOf(op).stackHeightRequired
    requires KindOf(op) in {KBinary, KAddMod, KUnary}
    ensures Kept(env, Exec(env, ch, s, op))
  {
    hide Holds, Kept, TraitsOf, KindOf, Exec, ExecBinary, ExecAddMod, ExecUnary;
    TraitsMatchImplementation(op);
    ExecArithmetic(env, ch, s, op);
    match KindOf(op)
    case KBinary => BinaryKept(env, ch, s, op);
    case KAddMod => AddModKept(env, s);
    case KUnary => UnaryKept(env, ch, s, op);
  }

  lemma DropKept(env: Env, s: State, n: nat)
    requires Holds(env, s) && n <= |s.stack|
    ensures Kept(env, Advance(Drop(s, n), 1))
  {
    hide Holds, Kept;
    Dropped(env, s, |s.stack| - n);
    KeptSame(env, Drop(s, n), Advance(Drop(s, n), 1));
  }

  lemma SelfdestructKept(env: Env, ch: Choice, s: State)
    requires Holds(env, s) && |s.stack| >= 1
    ensures Kept(env, ExecSelfdestruct(env, ch, s))
  {
    hide Holds, Kept;
    ReadKept(env, s, |s.stack| - 1);
    KeptSame(env, if ch.failure then s else ReadSlot(env, s, |s.stack| - 1), ExecSelfdestruct(env, ch, s));
  }

  lemma SimpleKept(env: Env, ch: Choice, s: State, op: byte)
    requires Holds(env, s) && |s.stack| >= TraitsOf(op).stackHeightRequired
    requires KindOf(op) in {KStop, KInvalid, KUnimplemented, KSelfdestruct} || KindOf(op).KDrop?
    ensures Kept(env, Exec(env, ch, s, op))
  {
    hide Holds, Kept, TraitsOf, KindOf, Exec, ExecSelfdestruct, Advance, Drop;
    TraitsMatchImplementation(op);
    ExecHalting(env, ch, s, op);
    ExecAccess(env, ch, s, op);
    var k := KindOf(op);
    if k.KDrop? {
      DropKept(env, s, k.count);
    } else if k == KSelfdestruct {
      SelfdestructKept(env, ch, s);
    } else {
      KeptSame(env, s, Exec(env, ch, s, op));
    }
  }

  lemma AccessKept(env: Env, ch: Choice, s: State, op: byte)
    requires Holds(env, s) && |s.stack| >= TraitsOf(op).stackHeightRequired
    requires var k := KindOf(op); k.KMLoad? || k.KMStore? || k.KReturn?
    ensures Kept(env, Exec(env, ch, s, op))
  {
    hide Holds, Kept, TraitsOf, KindOf, Exec, ExecMLoad, ExecMStore, ExecReturn;
    TraitsMatchImplementation(op);
    ExecAccess(env, ch, s, op);
    match KindOf(op)
    case KMLoad => MLoadKept(env, s);
    case KMStore(width) => MStoreKept(env, s, width);
    case KReturn(status) => ReturnKept(env, s, status);
  }

  lemma PushNextKept(env: Env, s: State, w: Word)
    requires Holds(env, s) && |s.stack| < STACK_LIMIT
    ensures Kept(env, Advance(Push(env, s, w), 1))
  {
    hide Holds, Kept, Push;
    PushKept(env, s, w);
    KeptSame(env, Push(env, s, w), Advance(Push(env, s, w), 1));
  }

  lemma PushedKept(env: Env, ch: Choice, s: State, op: byte)
    requires Holds(env, s) && |s.stack| >= TraitsOf(op).stackHeightRequired
    requires |s.stack| == STACK_LIMIT ==> TraitsOf(op).stackHeightChange <= 0
    requires KindOf(op) in {KPc, KMSize, KGas, KEnvPush}
    ensures Kept(env, Exec(env, ch, s, op))
  {
    hide Holds, Kept, TraitsOf, KindOf, Exec, Push, Advance;
    TraitsMatchImplementation(op);
    ExecStackMove(env, ch, s, op);
    GoodTrace(env, s);
    match KindOf(op)
    case KPc => PushNextKept(env, s, (s.pc - env.origin) % TWO_256);
    case KMSize => PushNextKept(env, s, |s.memory| % TWO_256);
    case KGas => PushNextKept(env, s, s.gas % TWO_256);
    case KEnvPush => PushNextKept(env, s, ch.word);
  }

  lemma DupOpKept(env: Env, s: State, n: nat)
    requires Holds(env, s) && 1 <= n <= |s.stack| < STACK_LIMIT
    ensures Kept(env, ExecDup(env, s, n))
  {
    hide Holds, Kept, Push;
    DupKept(env, s, n);
    KeptSame(env, Push(env, ReadSlot(env, s, |s.stack| - n), s.stack[|s.stack| - n]), ExecDup(env, s, n));
  }

  lemma DupNKept(env: Env, s: State)
    requires Holds(env, s) && |s.stack| < STACK_LIMIT
    ensures Kept(env, ExecDupN(env, s))
  {
    hide Holds, Kept, Push;
    var o := ExecDupN(env, s);
    if o.Next? {
      var n := env.code[s.pc + 1] as int + 1;
      DupKept(env, s, n);
      KeptSame(env, Push(env, ReadSlot(env, s, |s.stack| - n), s.stack[|s.stack| - n]), o);
    } else {
      KeptSame(env, s, o);
    }
  }

  lemma DataLoadNKept(env: Env, s: State)
    requires Holds(env, s) && |s.stack| < STACK_LIMIT
    ensures Kept(env, ExecDataLoadN(env, s))
  {
    hide Holds, Kept, U16, Push, WordFromBytes;
    var o := ExecDataLoadN(env, s);
    if o.Next? {
      var index := U16(env.code, s.pc + 1);
      var w := WordFromBytes(env.data[index..index + 32]);
      PushKept(env, s, w);
      KeptSame(env, Push(env, s, w), o);
    } else {
      KeptFault(env);
    }
  }

  lemma PushOpKept(env: Env, ch: Choice, s: State, op: byte)
    requires Holds(env, s) && |s.stack| >= TraitsOf(op).stackHeightRequired
    requires |s.stack| == STACK_LIMIT ==> TraitsOf(op).stackHeightChange <= 0
    requires var k := KindOf(op); k in {KDataLoadN, KDupN} || k.KPush? || k.KDup?
    ensures Kept(env, Exec(env, ch, s, op))
  {
    hide Holds, Kept, TraitsOf, KindOf, Exec, ExecPush, ExecDup, ExecDupN, ExecDataLoadN, Push;
    TraitsMatchImplementation(op);
    ExecStackMove(env, ch, s, op);
    GoodTrace(env, s);
    match KindOf(op)
    case KPush(len) => PushDataKept(env, ch, s, len);
    case KDup(n) => DupOpKept(env, s, n);
    case KDupN => DupNKept(env, s);
    case KDataLoadN => DataLoadNKept(env, s);
  }

  lemma MulModOpKept(env: Env, s: State)
    requires Holds(env, s) && |s.stack| >= 3 && s.stack[|s.stack| - 3] == 0
    ensures Kept(env, ExecMulMod(env, s))
  {
    hide Holds, MulMod;
    MulModTraceExact(env, s);
  }

  lemma SwapOpKept(env: Env, s: State, n: nat)
    requires Holds(env, s) && 1 <= n < |s.stack| && s.stack[|s.stack| - 1] == s.stack[|s.stack| - n - 1]
    ensures Kept(env, ExecSwap(env, s, n))
  {
    hide Holds, Good, Replay, Swapped;
    SwapTraceExact(env, s, n);
  }

  lemma FaithfulExchange(env: Env, s: State)
    requires Faithful(env, s)
    ensures var k, n := KindOf(env.code[s.pc]), |s.stack|;
      && (k == KMulMod && n >= 3 ==> s.stack[n - 3] == 0)
      && (k.KSwap? && n > k.n ==> s.stack[n - 1] == s.stack[n - k.n - 1])
  {
    hide KindOf;
  }

  lemma ExchangeOpKept(env: Env, ch: Choice, s: State, op: byte)
    requires Holds(env, s) && |s.stack| >= TraitsOf(op).stackHeightRequired && Faithful(env, s) && op == env.code[s.pc]
    requires var k := KindOf(op); k == KMulMod || k.KSwap? || k == KSwapN
    ensures Kept(env, Exec(env, ch, s, op))
  {
    hide Holds, Kept, TraitsOf, KindOf, Exec, ExecMulMod, ExecSwap, ExecSwapN, Faithful;
    FaithfulExchange(env, s);
    TraitsMatchImplementation(op);
    ExecArithmetic(env, ch, s, op);
    ExecStackMove(env, ch, s, op);
    match KindOf(op)
    case KMulMod => MulModOpKept(env, s);
    case KSwap(n) => SwapOpKept(env, s, n);
    case KSwapN => SwapNKept(env, s);
  }

  /** A depth that is not negative copies a live word. */
  predicate CopiesLive(stack: seq<Word>) {
    |stack| > 0 && !IndexOutside(OP_DUP, stack) ==> DupSlot(stack) < |stack|
  }

  lemma DupAtKept(env: Env, ch: Choice, s: State)
    requires Holds(env, s) && |s.stack| >= 1 && CopiesLive(s.stack)
    ensures Kept(env, ExecDupAt(env, ch, s))
  {
    hide Holds, Kept, DupSlot, Push;
    var n := |s.stack|;
    var o := ExecDupAt(env, ch, s);
    if o.Fault? {
      KeptFault(env);
    } else {
      GoodTrace(env, s);
      var slot := DupSlot(s.stack);
      ReadKept(env, s, n - 1);
      var read := ReadSlot(env, s, n - 1);
      ReadKept(env, read, slot);
      Dropped(env, ReadSlot(env, read, slot), n - 1);
      PushNextKept(env, Drop(ReadSlot(env, read, slot), 1), s.stack[slot]);
    }
  }

  lemma SwapAtKept(env: Env, s: State)
    requires Holds(env, s) && |s.stack| >= 1
    requires !IndexOutside(OP_SWAP, s.stack) ==> SwapAtEqual(s.stack)
    ensures Kept(env, ExecSwapAt(env, s))
  {
    hide Holds, Kept, Low64, ExecSwap;
    if IndexOutside(OP_SWAP, s.stack) {
      KeptFault(env);
    } else {
      var n := |s.stack|;
      var depth := Low64(s.stack[n - 1]) % 0x1_0000;
      ReadKept(env, s, n - 1);
      var read := ReadSlot(env, s, n - 1);
      if depth > 0 {
        Dropped(env, read, n - 1);
        SwapOpKept(env, Drop(read, 1), depth);
      } else {
        SelfSwapKept(env, read);
        KeptSame(env, SelfSwapped(env, read), ExecSwapAt(env, s));
      }
    }
  }

  /** SWAP at depth 0 after its first read record. */
  function SelfSwapped(env: Env, s: State): State
    requires |s.stack| >= 2
  {
    var n := |s.stack|;
    var again := ReadSlot(env, ReadSlot(env, s, n - 2), n - 2);
    Drop(WriteSlot(env, WriteSlot(env, again, n - 2), n - 1), 1)
  }

  lemma SelfSwapKept(env: Env, s: State)
    requires Holds(env, s) && |s.stack| >= 2
    ensures Holds(env, SelfSwapped(env, s))
  {
    hide Holds;
    var n := |s.stack|;
    ReadKept(env, s, n - 2);
    ReadKept(env, ReadSlot(env, s, n - 2), n - 2);
    var again := ReadSlot(env, ReadSlot(env, s, n - 2), n - 2);
    Rewritten(env, again, n - 2);
    Rewritten(env, WriteSlot(env, again, n - 2), n - 1);
    Dropped(env, WriteSlot(env, WriteSlot(env, again, n - 2), n - 1), n - 1);
  }

  lemma IndexedOpKept(env: Env, ch: Choice, s: State, op: byte)
    requires Holds(env, s) && |s.stack| >= TraitsOf(op).stackHeightRequired && Faithful(env, s) && op == env.code[s.pc]
    requires KindOf(op) == KDupAt || KindOf(op) == KSwapAt
    ensures Kept(env, Exec(env, ch, s, op))
  {
    hide Holds, Kept, TraitsOf, KindOf, Exec, ExecDupAt, ExecSwapAt, IndexOutside, SwapAtEqual, CopiesLive;
    TraitsMatchImplementation(op);
    ExecStackMove(env, ch, s, op);
    if KindOf(op) == KDupAt { DupAtKept(env, ch, s); } else { SwapAtKept(env, s); }
  }

  lemma ExecKept(env: Env, ch: Choice, s: State, op: byte)
    requires Holds(env, s) && |s.stack| >= TraitsOf(op).stackHeightRequired && Faithful(env, s) && op == env.code[s.pc]
    requires |s.stack| == STACK_LIMIT ==> TraitsOf(op).stackHeightChange <= 0
    ensures Kept(env, Exec(env, ch, s, op))
  {
    hide Holds, Kept, TraitsOf, KindOf, Exec, MulMod;
    match KindOf(op)
    case KBinary => ArithmeticKept(env, ch, s, op);
    case KAddMod => ArithmeticKept(env, ch, s, op);
    case KUnary => ArithmeticKept(env, ch, s, op);
    case KStop => SimpleKept(env, ch, s, op);
    case KInvalid => SimpleKept(env, ch, s, op);
    case KUnimplemented => SimpleKept(env, ch, s, op);
    case KSelfdestruct => SimpleKept(env, ch, s, op);
    case KDrop(_) => SimpleKept(env, ch, s, op);
    case KMLoad => AccessKept(env, ch, s, op);
    case KMStore(_) => AccessKept(env, ch, s, op);
    case KReturn(_) => AccessKept(env, ch, s, op);
    case KPc => PushedKept(env, ch, s, op);
    case KMSize => PushedKept(env, ch, s, op);
    case KGas => PushedKept(env, ch, s, op);
    case KEnvPush => PushedKept(env, ch, s, op);
    case KDataLoadN => PushOpKept(env, ch, s, op);
    case KDupN => PushOpKept(env, ch, s, op);
    case KPush(_) => PushOpKept(env, ch, s, op);
    case KDup(_) => PushOpKept(env, ch, s, op);
    case KMulMod => ExchangeOpKept(env, ch, s, op);
    case KSwap(_) => ExchangeOpKept(env, ch, s, op);
    case KSwapN => ExchangeOpKept(env, ch, s, op);
    case KDupAt => IndexedOpKept(env, ch, s, op);
    case KSwapAt => IndexedOpKept(env, ch, s, op);
    case KExternal(_, _) => assert false;
    case KJump => JumpsKept(env, ch, s, op);
    case KJumpI => JumpsKept(env, ch, s, op);
    case KRJumpI => JumpsKept(env, ch, s, op);
    case KRJumpV => JumpsKept(env, ch, s, op);
    case _ => FrameOpKept(env, ch, s, op);
  }

  lemma FaithfulPosition(env: Env, s: State)
    requires Faithful(env, s)
    ensures 0 <= s.pc < |env.code|
  {
    hide KindOf, MulMod;
  }

  lemma FaithfulCharged(env: Env, s: State, gas: int)
    requires Faithful(env, s)
    ensures Faithful(env, s.(gas := gas))
  {
    hide KindOf, MulMod;
  }

  /** Every faithful step keeps trace, stack and memory in agreement. */
  lemma StepKept(env: Env, ch: Choice, s: State)
    requires Holds(env, s) && Faithful(env, s)
    ensures Kept(env, Step(env, ch, s))
  {
    hide Holds, Kept, TraitsOf, KindOf, Exec, CheckRequirements, MulMod, Faithful;
    FaithfulPosition(env, s);
    var op := env.code[s.pc];
    var (failed, gas) := CheckRequirements(env, s.gas, |s.stack|, op);
    if failed.Some? {
      KeptHalt(env, s, failed.value, s.(gas := gas), true);
    } else {
      CheckPassed(env, s.gas, |s.stack|, op);
      SameCells(env, s, s.(gas := gas));
      FaithfulCharged(env, s, gas);
      ExecKept(env, ch, s.(gas := gas), op);
    }
  }

  // ---------------------------------------------------------------- whole runs

  predicate Untouched(s: State) {
    s.stack == [] && s.memory == [] && s.trace == []
  }

  /** Every step of the first n is faithful. */
  ghost predicate FaithfulRun(env: Env, choices: nat -> Choice, s: State, n: nat) {
    forall k: nat :: k < n && Run(env, choices, s, k).Next? ==> Faithful(env, Run(env, choices, s, k).s)
  }

  lemma StartsInAgreement(env: Env, s: State)
    requires Untouched(s)
    ensures Holds(env, s)
  {
  }

  /**
   * Runs produce consistent traces: at every point of a faithful run of legacy or EOF code, record k has
   * number k, every read repeats the latest write to its cell or 0, and replaying the records gives the
   * live stack and memory.
   */
  lemma {:induction false} RunKept(env: Env, choices: nat -> Choice, s: State, n: nat)
    requires Untouched(s) && FaithfulRun(env, choices, s, n)
    ensures Kept(env, Run(env, choices, s, n))
  {
    hide Step, Kept, Holds, Faithful;
    StartsInAgreement(env, s);
    KeptSame(env, s, Next(s));
    if n > 0 {
      RunKept(env, choices, s, n - 1);
      if Run(env, choices, s, n - 1).Next? {
        KeptHolds(env, Run(env, choices, s, n - 1).s);
        StepKept(env, choices(n - 1), Run(env, choices, s, n - 1).s);
      }
    }
  }

  lemma KeptHolds(env: Env, s: State)
    requires Kept(env, Next(s))
    ensures Holds(env, s)
  {
  }

  lemma KeptGood(env: Env, o: Outcome)
    requires Kept(env, o) && !o.Fault?
    ensures Good(env.callId, o.s.trace)
  {
    hide Good;
    if o.Next? { GoodTrace(env, o.s); }
  }

  // ---------------------------------------------------------------- down to the table

  lemma WeightValues()
    ensures Weight(2) == 0x1_0000_0000 && Weight(10) >= 0x2_0000_0000 && Weight(16) > 0
  {
    assert Weight(2) == CHUNK * Weight(1);
    assert Weight(1) == CHUNK * Weight(0);
    WeightGrows(2, 10);
    assert Weight(3) == CHUNK * Weight(2);
    WeightGrows(3, 10);
  }

  lemma {:induction false} WeightGrows(a: nat, b: nat)
    requires a <= b
    ensures Weight(a) <= Weight(b)
  {
    if a < b { WeightGrows(a, b - 1); }
  }

  /** A good trace meets the side conditions of the table. */
  lemma GoodFits(id: nat, t: seq<RwOperation>)
    requires Good(id, t) && id < Weight(2) && |t| <= Weight(2)
    ensures TraceFits(t, id) && forall r :: r in t ==> START_OP < r.op < PADDING_OP
  {
    hide Weight, TimeConsistent;
    WeightValues();
    forall r | r in t
      ensures RecordFits(r, id) && START_OP < r.op < PADDING_OP
    {
      var i :| 0 <= i < |t| && t[i] == r;
    }
  }

  /** The neighbour check on two rows of the finished table. */
  ghost predicate NeighboursAgree(cells: Cells, row: nat)
    requires row > 0
  {
    Cell(cells, IS_FIRST, row) == 0 && Cell(cells, IS_WRITE, row) == 0 ==>
      && Cell(cells, VALUE_HI, row) == Cell(cells, VALUE_HI, row - 1)
      && Cell(cells, VALUE_LO, row) == Cell(cells, VALUE_LO, row - 1)
  }

  /** From execution to circuit: the table filled from a good trace passes the neighbour check in every row. */
  method HandleRw(f: Field, table: Table, start: nat, id: nat, trace: seq<RwOperation>) returns (rows: seq<RwOperation>)
    requires f.Valid() && Good(id, trace) && id < Weight(2) && |trace| <= Weight(2)
    requires forall c: nat, q: nat :: q >= start ==> Cell(table.cells, c, q) == 0
    modifies table
    ensures IsSorting(trace, rows) && ReadsBack(table.cells, start, |rows|, trace)
    ensures forall q: nat :: start < q < start + |rows| ==> NeighboursAgree(table.cells, q)
  {
    hide Weight, TraceFits, Good, IsSorting, Expected, TimeConsistent, ReadsBack;
    GoodConsistent(id, trace);
    GoodFits(id, trace);
    rows := table.ProcessRwOperations(f, start, trace);
    TableDecidesConsistency(f, trace, rows, id);
    assert TimeConsistent(Blank, trace);
    forall q: nat | start < q < start + |rows|
      ensures NeighboursAgree(table.cells, q)
    {
      var i: nat := q - start;
      assert CellsAgree(f, rows, i);
      CellsAre(f, table.cells, start, rows, i);
      CellsAre(f, table.cells, start, rows, i - 1);
    }
  }

  lemma GoodConsistent(id: nat, t: seq<RwOperation>)
    requires Good(id, t)
    ensures Numbered(t) && TimeConsistent(Blank, t)
  {
  }

  lemma CellsAre(f: Field, cells: Cells, start: nat, rows: seq<RwOperation>, i: nat)
    requires f.Valid() && Separated(rows) && i < |rows|
    requires forall j: nat, c: nat :: j < |rows| ==> Cell(cells, c, start + j) == Expected(f, rows, j, c)
    ensures Cell(cells, IS_FIRST, start + i) == Expected(f, rows, i, IS_FIRST)
    ensures Cell(cells, IS_WRITE, start + i) == Expected(f, rows, i, IS_WRITE)
    ensures Cell(cells, VALUE_HI, start + i) == Expected(f, rows, i, VALUE_HI)
    ensures Cell(cells, VALUE_LO, start + i) == Expected(f, rows, i, VALUE_LO)
  {
    hide Expected, Cell;
  }
}
