/**
 * The read/write records each instruction appends to the trace, in their order: operands are read from the
 * bottom up with the values they had, results are written with the values they have.
 */
module Records {
  import opened Bytes
  import opened Opcodes
  import opened MemoryGas
  import opened Words
  import opened RwTrace
  import opened Interpreter
  import opened Accesses
  import opened Effects

  /** One record for each of the slots, numbered on from `from`. */
  function Listed(id: nat, stack: seq<Word>, slots: seq<int>, from: nat, isWrite: bool): (r: seq<RwOperation>)
    requires Within(slots, |stack|)
    ensures |r| == |slots|
  {
    seq(|slots|, i requires 0 <= i < |slots| => StackOperation(id, slots[i], from + i, isWrite, stack[slots[i]]))
  }

  /** From s to t the trace grows by reads of these slots as they were in s and then writes of those as in t. */
  ghost predicate Notes(env: Env, s: State, t: State, seen: seq<int>, written: seq<int>) {
    && Within(seen, |s.stack|) && Within(written, |t.stack|)
    && t.trace == s.trace + Listed(env.callId, s.stack, seen, |s.trace|, false)
                  + Listed(env.callId, t.stack, written, |s.trace| + |seen|, true)
  }

  /** The top k slots from the bottom up. */
  function Top(s: State, k: nat): seq<int> {
    Range(|s.stack| - k, k)
  }

  /** Behind `before`, one record for each of the 32 bytes from addr on, in the order of their addresses. */
  ghost predicate NotesBytes(env: Env, before: seq<RwOperation>, t: State, addr: nat, isWrite: bool) {
    && addr + 32 <= |t.memory| && |before| + 32 <= |t.trace| && t.trace[..|before|] == before
    && forall i :: |before| <= i < |before| + 32 ==>
         var r := t.trace[i];
         && r.op == MEMORY_OP && r.id == env.callId && r.address == addr + i - |before| && r.rwId == i
         && r.field == 0 && r.storageKey == 0 && r.isWrite == isWrite && r.value == t.memory[addr + i - |before|]
  }

  lemma ListedOne(id: nat, stack: seq<Word>, a: int, from: nat, w: bool)
    requires 0 <= a < |stack|
    ensures Listed(id, stack, [], from, w) == []
    ensures Listed(id, stack, [a], from, w) == [StackOperation(id, a, from, w, stack[a])]
  {
  }

  lemma ListedTwo(id: nat, stack: seq<Word>, a: int, b: int, from: nat, w: bool)
    requires 0 <= a < |stack| && 0 <= b < |stack|
    ensures Listed(id, stack, [a, b], from, w)
      == [StackOperation(id, a, from, w, stack[a]), StackOperation(id, b, from + 1, w, stack[b])]
  {
  }

  lemma ListedThree(id: nat, stack: seq<Word>, a: int, b: int, c: int, from: nat, w: bool)
    requires 0 <= a < |stack| && 0 <= b < |stack| && 0 <= c < |stack|
    ensures Listed(id, stack, [a, b, c], from, w)
      == [StackOperation(id, a, from, w, stack[a]), StackOperation(id, b, from + 1, w, stack[b]),
          StackOperation(id, c, from + 2, w, stack[c])]
  {
  }

  lemma TopItems(s: State)
    ensures Top(s, 0) == [] && Top(s, 1) == [|s.stack| - 1] && Top(s, 2) == [|s.stack| - 2, |s.stack| - 1]
    ensures Top(s, 3) == [|s.stack| - 3, |s.stack| - 2, |s.stack| - 1]
  {
  }

  // ---------------------------------------------------------------- arithmetic

  lemma BinaryNotes(env: Env, ch: Choice, s: State, op: byte)
    requires |s.stack| >= 2
    ensures ExecBinary(env, ch, s, op).Next?
    ensures Notes(env, s, ExecBinary(env, ch, s, op).s, Top(s, 2), [|s.stack| - 2])
  {
    hide Alu, Listed, StackOperation;
    var n, t := |s.stack|, ExecBinary(env, ch, s, op).s;
    TopItems(s);
    ListedTwo(env.callId, s.stack, n - 2, n - 1, |s.trace|, false);
    ListedOne(env.callId, t.stack, n - 2, |s.trace| + 2, true);
  }

  lemma UnaryNotes(env: Env, ch: Choice, s: State, op: byte)
    requires |s.stack| >= 1
    ensures ExecUnary(env, ch, s, op).Next?
    ensures Notes(env, s, ExecUnary(env, ch, s, op).s, Top(s, 1), [|s.stack| - 1])
  {
    hide Unary, Listed, StackOperation;
    var n, t := |s.stack|, ExecUnary(env, ch, s, op).s;
    TopItems(s);
    ListedOne(env.callId, s.stack, n - 1, |s.trace|, false);
    ListedOne(env.callId, t.stack, n - 1, |s.trace| + 1, true);
  }

  lemma AddModNotes(env: Env, s: State)
    requires |s.stack| >= 3
    ensures ExecAddMod(env, s).Next? && Notes(env, s, ExecAddMod(env, s).s, Top(s, 3), [|s.stack| - 3])
  {
    hide AddMod, Listed, StackOperation;
    var n, t := |s.stack|, ExecAddMod(env, s).s;
    TopItems(s);
    ListedThree(env.callId, s.stack, n - 3, n - 2, n - 1, |s.trace|, false);
    ListedOne(env.callId, t.stack, n - 3, |s.trace| + 3, true);
  }

  /** After its reads MULMOD records a write of its top operand, which is not the slot of its result. */
  ghost predicate NotesOperand(env: Env, s: State, t: State)
    requires |s.stack| >= 3
  {
    var n := |s.stack|;
    t.trace == s.trace + Listed(env.callId, s.stack, [n - 3, n - 2, n - 1], |s.trace|, false)
               + [StackOperation(env.callId, n - 1, |s.trace| + 3, true, s.stack[n - 1])]
  }

  lemma MulModNotes(env: Env, s: State)
    requires |s.stack| >= 3
    ensures ExecMulMod(env, s).Next? && NotesOperand(env, s, ExecMulMod(env, s).s)
  {
    hide MulMod, Listed, StackOperation;
    var n := |s.stack|;
    ListedThree(env.callId, s.stack, n - 3, n - 2, n - 1, |s.trace|, false);
  }

  /** Arithmetic reads all of its operands and writes its result, except for MULMOD. */
  lemma ArithmeticRecords(env: Env, ch: Choice, s: State)
    requires ChecksOut(env, s) && KindOf(env.code[s.pc]) in {KBinary, KUnary, KAddMod, KMulMod}
    ensures var op, o, n := env.code[s.pc], Step(env, ch, s), |s.stack|;
      var k := TraitsOf(op).stackHeightRequired;
      && k <= n && o.Next?
      && (op != OP_MULMOD ==> Notes(env, s, o.s, Top(s, k), [n - k]))
      && (op == OP_MULMOD ==> n >= 3 && NotesOperand(env, s, o.s))
  {
    hide KindOf, TraitsOf, Exec, Step, CheckRequirements, BaseCost, Paid, Notes, NotesOperand;
    hide ExecBinary, ExecUnary, ExecAddMod, ExecMulMod;
    var op, paid := env.code[s.pc], Paid(env, s);
    Executes(env, ch, s);
    ArithmeticKinds(op);
    OnlyMulMod(op);
    ExecArithmetic(env, ch, paid, op);
    match KindOf(op)
    case KBinary =>
      BinaryNotes(env, ch, paid, op);
      SameNotes(env, s, paid, Step(env, ch, s).s, Top(s, 2), [|s.stack| - 2]);
    case KUnary =>
      UnaryNotes(env, ch, paid, op);
      SameNotes(env, s, paid, Step(env, ch, s).s, Top(s, 1), [|s.stack| - 1]);
    case KAddMod =>
      AddModNotes(env, paid);
      SameNotes(env, s, paid, Step(env, ch, s).s, Top(s, 3), [|s.stack| - 3]);
    case KMulMod =>
      MulModNotes(env, paid);
      SameNotes(env, s, paid, Step(env, ch, s).s, [], []);
  }

  lemma OnlyMulMod(op: byte)
    ensures KindOf(op) == KMulMod <==> op == OP_MULMOD
  {
  }

  /** Paying the base cost changes nothing that is recorded. */
  lemma SameNotes(env: Env, s: State, paid: State, t: State, seen: seq<int>, written: seq<int>)
    requires paid == s.(gas := paid.gas)
    ensures Notes(env, paid, t, seen, written) <==> Notes(env, s, t, seen, written)
    ensures |s.stack| >= 3 && NotesOperand(env, paid, t) ==> NotesOperand(env, s, t)
    ensures forall k: nat :: Top(paid, k) == Top(s, k)
  {
  }

  // ---------------------------------------------------------------- pushing

  lemma PushNotes(env: Env, s: State, w: Word, length: nat)
    ensures var o := Advance(Push(env, s, w), length); o.Next? && Notes(env, s, o.s, [], [|s.stack|])
  {
    hide Listed, StackOperation;
    var n, t := |s.stack|, Push(env, s, w);
    ListedNone(env.callId, s.stack, |s.trace|);
    ListedOne(env.callId, t.stack, n, |s.trace|, true);
  }

  lemma ListedNone(id: nat, stack: seq<Word>, from: nat)
    ensures Listed(id, stack, [], from, false) == []
  {
  }

  /** The top k slots from the top down. */
  function Down(n: nat, k: nat): seq<int> {
    seq(k, i requires 0 <= i < k => n - 1 - i)
  }

  lemma {:induction false} TopNotes(env: Env, s: State, i: nat, k: nat, stale: int -> Word)
    requires i <= k <= |s.stack|
    ensures var t := WriteTop(env, s, i, k, stale);
      && t.stack == s.stack && |t.trace| == |s.trace| + (k - i) && s.trace <= t.trace
      && forall j :: |s.trace| <= j < |t.trace| ==>
           var slot := |s.stack| - 1 - i - (j - |s.trace|);
           t.trace[j] == StackOperation(env.callId, slot, j, true, s.stack[slot])
    decreases k - i
  {
    hide StackOperation;
    if i < k {
      var slot := |s.stack| - 1 - i;
      var s' := s.(trace := s.trace + [StackOperation(env.callId, slot, |s.trace|, true, s.stack[slot])]);
      TopNotes(env, s', i + 1, k, stale);
    }
  }

  lemma NumberNotes(env: Env, ch: Choice, s: State, len: nat)
    requires 0 <= s.pc && len <= 32 && PushRecords(len) <= |s.stack| + 1 && s.pc + PushReach(len) < |env.code|
    ensures var o := ExecPush(env, ch, s, len);
      o.Next? && Notes(env, s, o.s, [], Down(|s.stack| + 1, PushRecords(len)))
  {
    hide StackOperation, WordFromBytes, PushReach, PushRecords, WriteTop;
    var w := WordFromBytes(env.code[s.pc + 1..s.pc + 1 + len]);
    var pushed := s.(stack := s.stack + [w]);
    TopNotes(env, pushed, 0, PushRecords(len), ch.stale);
    var t := ExecPush(env, ch, s, len).s;
    assert t.trace == s.trace + t.trace[|s.trace|..];
    assert t.trace[|s.trace|..]
        == Listed(env.callId, t.stack, Down(|s.stack| + 1, PushRecords(len)), |s.trace|, true);
  }

  /** A value pushed is recorded once; PUSH1 to PUSH31 record the top slots again, one for each data byte. */
  lemma PushesRecord(env: Env, ch: Choice, s: State)
    requires ChecksOut(env, s) && Step(env, ch, s).Next?
    ensures var k, o := KindOf(env.code[s.pc]), Step(env, ch, s);
      && (k in {KPc, KMSize, KGas, KEnvPush, KDataLoadN} ==> Notes(env, s, o.s, [], [|s.stack|]))
      && (k.KPush? && PushRecords(k.len) <= |s.stack| + 1 ==>
            Notes(env, s, o.s, [], Down(|s.stack| + 1, PushRecords(k.len))))
  {
    hide KindOf, TraitsOf, Exec, Step, CheckRequirements, BaseCost, Paid, Notes, KindFits, PushRecords, PushReach;
    hide ExecPush, ExecDataLoadN, Push, Advance;
    var op, paid, n := env.code[s.pc], Paid(env, s), |s.stack|;
    Executes(env, ch, s);
    ExecPushing(env, ch, paid, op);
    SameNotes(env, s, paid, Step(env, ch, s).s, [], [n]);
    match KindOf(op)
    case KPc => PushNotes(env, paid, (paid.pc - env.origin) % TWO_256, 1);
    case KMSize => PushNotes(env, paid, |paid.memory| % TWO_256, 1);
    case KGas => PushNotes(env, paid, paid.gas % TWO_256, 1);
    case KEnvPush => PushNotes(env, paid, ch.word, 1);
    case KDataLoadN => DataNotes(env, paid);
    case KPush(len) =>
      PushLength(op);
      if PushRecords(len) <= n + 1 {
        NumberReached(env, ch, paid, len);
        NumberNotes(env, ch, paid, len);
        SameNotes(env, s, paid, Step(env, ch, s).s, [], Down(n + 1, PushRecords(len)));
      }
    case _ =>
  }

  lemma PushLength(op: byte)
    ensures KindOf(op).KPush? ==> KindOf(op).len <= 32
  {
  }

  lemma NumberReached(env: Env, ch: Choice, s: State, len: nat)
    requires len <= 32 && ExecPush(env, ch, s, len).Next?
    ensures 0 <= s.pc && s.pc + PushReach(len) < |env.code|
  {
  }

  lemma DataNotes(env: Env, s: State)
    requires ExecDataLoadN(env, s).Next?
    ensures Notes(env, s, ExecDataLoadN(env, s).s, [], [|s.stack|])
  {
    hide WordFromBytes, Notes;
    var index := U16(env.code, s.pc + 1);
    PushNotes(env, s, WordFromBytes(env.data[index..index + 32]), 3);
  }

  // ---------------------------------------------------------------- copying and exchanging

  lemma CopyNotes(env: Env, s: State, d: nat, length: nat)
    requires 1 <= d <= |s.stack|
    ensures var n := |s.stack|;
      Notes(env, s, Advance(Push(env, ReadSlot(env, s, n - d), s.stack[n - d]), length).s, [n - d], [n])
  {
    hide Listed, StackOperation;
    var n := |s.stack|;
    var t := Push(env, ReadSlot(env, s, n - d), s.stack[n - d]);
    ListedOne(env.callId, s.stack, n - d, |s.trace|, false);
    ListedOne(env.callId, t.stack, n, |s.trace| + 1, true);
  }

  /** Two reads, the exchange, and writes of the top and one more slot. */
  lemma ExchangeNotes(env: Env, s: State, d: nat, second: nat, length: nat)
    requires 1 <= d < |s.stack| && second < |s.stack|
    ensures var n := |s.stack|; var read := ReadSlot(env, ReadSlot(env, s, n - d - 1), n - 1);
      var done := read.(stack := Swapped(s.stack, d));
      Notes(env, s, Advance(WriteSlot(env, WriteSlot(env, done, n - 1), second), length).s,
            [n - d - 1, n - 1], [n - 1, second])
  {
    hide Listed, StackOperation, Swapped;
    var n, stack := |s.stack|, Swapped(s.stack, d);
    ListedTwo(env.callId, s.stack, n - d - 1, n - 1, |s.trace|, false);
    ListedTwo(env.callId, stack, n - 1, second, |s.trace| + 2, true);
  }

  lemma NearNotes(env: Env, s: State)
    ensures forall d: nat :: 1 <= d <= |s.stack| ==>
      ExecDup(env, s, d).Next? && Notes(env, s, ExecDup(env, s, d).s, [|s.stack| - d], [|s.stack|])
    ensures forall d: nat :: 1 <= d < |s.stack| ==>
      && ExecSwap(env, s, d).Next?
      && Notes(env, s, ExecSwap(env, s, d).s, [|s.stack| - d - 1, |s.stack| - 1], [|s.stack| - 1, |s.stack| - d])
  {
    hide Notes, Swapped, Push, ReadSlot, WriteSlot;
    forall d: nat | 1 <= d <= |s.stack|
      ensures ExecDup(env, s, d).Next? && Notes(env, s, ExecDup(env, s, d).s, [|s.stack| - d], [|s.stack|])
    {
      CopyNotes(env, s, d, 1);
    }
    forall d: nat | 1 <= d < |s.stack|
      ensures ExecSwap(env, s, d).Next?
      ensures Notes(env, s, ExecSwap(env, s, d).s, [|s.stack| - d - 1, |s.stack| - 1],
                    [|s.stack| - 1, |s.stack| - d])
    {
      ExchangeNotes(env, s, d, |s.stack| - d, 1);
    }
  }

  lemma FarNotes(env: Env, s: State)
    requires 0 <= s.pc && s.pc + 1 < |env.code|
    ensures var n, d := |s.stack|, env.code[s.pc + 1] as int + 1;
      && (ExecDupN(env, s).Next? ==> d <= n && Notes(env, s, ExecDupN(env, s).s, [n - d], [n]))
      && (ExecSwapN(env, s).Next? ==>
            d < n && Notes(env, s, ExecSwapN(env, s).s, [n - d - 1, n - 1], [n - 1, n - d - 1]))
  {
    hide Notes, Swapped, Push, ReadSlot, WriteSlot;
    var n, d := |s.stack|, env.code[s.pc + 1] as int + 1;
    if d <= n { CopyNotes(env, s, d, 2); }
    if d < n { ExchangeNotes(env, s, d, n - d - 1, 2); }
  }

  /**
   * Copies record the item read and the slot written. Exchanges record both reads and two writes, of which
   * SWAP1 to SWAP16 name the slot above the one that changed.
   */
  lemma MovesRecord(env: Env, ch: Choice, s: State)
    requires ChecksOut(env, s) && Step(env, ch, s).Next?
    ensures var k, o, n := KindOf(env.code[s.pc]), Step(env, ch, s), |s.stack|;
      && (k.KDup? ==> Notes(env, s, o.s, [n - k.n], [n]))
      && (k.KSwap? ==> Notes(env, s, o.s, [n - k.n - 1, n - 1], [n - 1, n - k.n]))
      && (k == KDupN && s.pc + 1 < |env.code| ==> Notes(env, s, o.s, [n - 1 - env.code[s.pc + 1]], [n]))
      && (k == KSwapN && s.pc + 1 < |env.code| ==>
            Notes(env, s, o.s, [n - 2 - env.code[s.pc + 1], n - 1], [n - 1, n - 2 - env.code[s.pc + 1]]))
  {
    hide KindOf, TraitsOf, Exec, Step, CheckRequirements, BaseCost, Paid, Notes, KindFits;
    hide ExecDup, ExecSwap, ExecDupN, ExecSwapN;
    var op, paid, n := env.code[s.pc], Paid(env, s), |s.stack|;
    var t := Step(env, ch, s).s;
    Executes(env, ch, s);
    ExecMoving(env, ch, paid, op);
    MoveReach(op);
    match KindOf(op)
    case KDup(d) =>
      NearNotes(env, paid);
      SameNotes(env, s, paid, t, [n - d], [n]);
    case KSwap(d) =>
      NearNotes(env, paid);
      SameNotes(env, s, paid, t, [n - d - 1, n - 1], [n - 1, n - d]);
    case KDupN =>
      if s.pc + 1 < |env.code| {
        FarNotes(env, paid);
        SameNotes(env, s, paid, t, [n - 1 - env.code[s.pc + 1]], [n]);
      }
    case KSwapN =>
      if s.pc + 1 < |env.code| {
        FarNotes(env, paid);
        var d := env.code[s.pc + 1] as int + 1;
        SameNotes(env, s, paid, t, [n - d - 1, n - 1], [n - 1, n - d - 1]);
      }
    case _ =>
  }

  lemma MoveReach(op: byte)
    ensures KindOf(op).KDup? ==> 1 <= KindOf(op).n == TraitsOf(op).stackHeightRequired
    ensures KindOf(op).KSwap? ==> 1 <= KindOf(op).n == TraitsOf(op).stackHeightRequired - 1
  {
  }

  /** The indexed DUP records the read of its operand and of the item, and the write of the copy. */
  lemma IndexedCopyNotes(env: Env, ch: Choice, s: State)
    requires 1 <= |s.stack| <= STACK_LIMIT && 0 <= DupSlot(s.stack) < |s.stack|
    ensures var n, o := |s.stack|, ExecDupAt(env, ch, s);
      o.Next? && Notes(env, s, o.s, [n - 1, DupSlot(s.stack)], [n - 1])
  {
    hide Listed, StackOperation, DupSlot;
    var n, slot := |s.stack|, DupSlot(s.stack);
    assert !IndexOutside(OP_DUP, s.stack);
    var t := ExecDupAt(env, ch, s).s;
    ListedTwo(env.callId, s.stack, n - 1, slot, |s.trace|, false);
    ListedOne(env.callId, t.stack, n - 1, |s.trace| + 2, true);
  }

  /** The indexed SWAP: its second write names the slot above the one that changed. */
  lemma IndexedExchangeNotes(env: Env, s: State, d: nat)
    requires 0 < d && d + 2 <= |s.stack| && d == Low64(s.stack[|s.stack| - 1]) % 0x1_0000
    ensures var n, o := |s.stack|, ExecSwapAt(env, s);
      o.Next? && Notes(env, s, o.s, [n - 1, n - 2 - d, n - 2], [n - 2, n - 1 - d])
  {
    hide Listed, StackOperation, Low64, Swapped;
    var n := |s.stack|;
    assert !IndexOutside(OP_SWAP, s.stack);
    var t := ExecSwapAt(env, s).s;
    ListedThree(env.callId, s.stack, n - 1, n - 2 - d, n - 2, |s.trace|, false);
    ListedTwo(env.callId, t.stack, n - 2, n - 1 - d, |s.trace| + 3, true);
  }

  /** With depth 0 the indexed SWAP reads the same item twice, and its second write names the dropped operand. */
  lemma IndexedIdleNotes(env: Env, s: State)
    requires |s.stack| >= 2 && Low64(s.stack[|s.stack| - 1]) % 0x1_0000 == 0
    ensures var n, o, k := |s.stack|, ExecSwapAt(env, s), |s.trace|;
      o.Next? && o.s.trace == s.trace + Listed(env.callId, s.stack, [n - 1, n - 2, n - 2], k, false)
                              + Listed(env.callId, s.stack, [n - 2, n - 1], k + 3, true)
  {
    hide Listed, StackOperation, Low64, Swapped;
    var n := |s.stack|;
    ListedThree(env.callId, s.stack, n - 1, n - 2, n - 2, |s.trace|, false);
    ListedTwo(env.callId, s.stack, n - 2, n - 1, |s.trace| + 3, true);
  }

  /** The indexed DUP, whose depth is its operand. */
  lemma IndexedCopyRecords(env: Env, ch: Choice, s: State)
    requires ChecksOut(env, s) && env.code[s.pc] == OP_DUP && 1 <= |s.stack| <= STACK_LIMIT
    ensures var o, n := Step(env, ch, s), |s.stack|;
      0 <= DupSlot(s.stack) < n ==> o.Next? && Notes(env, s, o.s, [n - 1, DupSlot(s.stack)], [n - 1])
  {
    hide KindOf, TraitsOf, Exec, Step, CheckRequirements, BaseCost, Paid, Notes, KindFits, ExecDupAt, DupSlot;
    var paid, n := Paid(env, s), |s.stack|;
    Executes(env, ch, s);
    Interpreter.ControlKinds(OP_DUP);
    ExecMoving(env, ch, paid, OP_DUP);
    if 0 <= DupSlot(s.stack) < n {
      IndexedCopyNotes(env, ch, paid);
      SameNotes(env, s, paid, Step(env, ch, s).s, [n - 1, DupSlot(s.stack)], [n - 1]);
    }
  }

  /** The indexed SWAP, whose depth is the low 16 bits of its operand. */
  lemma IndexedExchangeRecords(env: Env, ch: Choice, s: State, d: nat)
    requires ChecksOut(env, s) && env.code[s.pc] == OP_SWAP && |s.stack| >= 2
    requires d == Low64(s.stack[|s.stack| - 1]) % 0x1_0000
    ensures var o, n, k := Step(env, ch, s), |s.stack|, |s.trace|;
      && (0 < d && d + 2 <= n ==> o.Next? && Notes(env, s, o.s, [n - 1, n - 2 - d, n - 2], [n - 2, n - 1 - d]))
      && (d == 0 ==>
            o.Next? && o.s.trace == s.trace + Listed(env.callId, s.stack, [n - 1, n - 2, n - 2], k, false)
                                    + Listed(env.callId, s.stack, [n - 2, n - 1], k + 3, true))
  {
    hide *;
    Executes(env, ch, s);
    var paid, n := Paid(env, s), |s.stack|;
    Interpreter.ControlKinds(OP_SWAP);
    ExecMoving(env, ch, paid, OP_SWAP);
    if d == 0 {
      IndexedIdleNotes(env, paid);
    } else if d + 2 <= n {
      IndexedExchangeNotes(env, paid, d);
      SameNotes(env, s, paid, Step(env, ch, s).s, [n - 1, n - 2 - d, n - 2], [n - 2, n - 1 - d]);
    }
  }

  // ---------------------------------------------------------------- memory

  lemma BytesNoted(env: Env, s: State, addr: nat, isWrite: bool)
    requires addr + 32 <= |s.memory| && addr <= MAX_BUFFER_SIZE
    ensures var t := MemoryRecords(env, s, addr, isWrite);
      && t == s.(trace := t.trace) && |t.trace| == |s.trace| + 32 && NotesBytes(env, s.trace, t, addr, isWrite)
  {
    var t := MemoryRecords(env, s, addr, isWrite);
    forall i | |s.trace| <= i < |s.trace| + 32
      ensures var at := addr + i - |s.trace|; t.trace[i] == MemoryOperation(env.callId, at, i, isWrite, s.memory[at])
    {
      var j := i - |s.trace|;
    }
  }

  /** MLOAD: the offset read, the bytes read in order, the loaded word written. */
  lemma LoadNotes(env: Env, s: State)
    requires |s.stack| >= 1 && ExecMLoad(env, s).Next?
    ensures LoadNoted(env, s, ExecMLoad(env, s).s)
  {
    hide WordFromBytes, Touch, Low64, MemoryRecords, Listed, StackOperation, NotesBytes;
    var n, offset := |s.stack|, s.stack[|s.stack| - 1];
    var a, addr := Touch(s.gas, s.memory, offset, 32), Low64(offset);
    TouchCovers(s.gas, s.memory, offset, 32);
    var read := ReadSlot(env, s, n - 1).(gas := a.gas, memory := a.memory);
    var loaded := read.(stack := s.stack[n - 1 := WordFromBytes(a.memory[addr..addr + 32])]);
    BytesNoted(env, loaded, addr, false);
    ListedOne(env.callId, s.stack, n - 1, |s.trace|, false);
    MoreBehind(env, read.trace, MemoryRecords(env, loaded, addr, false), ExecMLoad(env, s).s, addr, false);
  }

  lemma MoreBehind(env: Env, before: seq<RwOperation>, s: State, t: State, addr: nat, isWrite: bool)
    requires NotesBytes(env, before, s, addr, isWrite) && s.trace <= t.trace && s.memory == t.memory
    ensures NotesBytes(env, before, t, addr, isWrite)
  {
  }

  ghost predicate LoadNoted(env: Env, s: State, t: State)
    requires |s.stack| >= 1
  {
    var n, addr := |s.stack|, Low64(s.stack[|s.stack| - 1]);
    && |t.stack| == n && |t.trace| == |s.trace| + 34
    && NotesBytes(env, s.trace + Listed(env.callId, s.stack, [n - 1], |s.trace|, false), t, addr, false)
    && t.trace[|s.trace| + 33] == StackOperation(env.callId, n - 1, |s.trace| + 33, true, t.stack[n - 1])
  }

  /** MSTORE: both operands read, then 32 bytes written in order, whatever the width. */
  lemma StoreNotes(env: Env, s: State, width: nat)
    requires |s.stack| >= 2 && 1 <= width <= 32 && ExecMStore(env, s, width).Next?
    ensures StoreNoted(env, s, ExecMStore(env, s, width).s)
  {
    hide StoreAt, Touch, Low64, MemoryRecords, Listed, StackOperation, NotesBytes;
    var n, offset := |s.stack|, s.stack[|s.stack| - 1];
    var a, addr := Touch(s.gas, s.memory, offset, 32), Low64(offset);
    TouchCovers(s.gas, s.memory, offset, 32);
    ListedTwo(env.callId, s.stack, n - 2, n - 1, |s.trace|, false);
    var read := Drop(ReadSlot(env, ReadSlot(env, s, n - 2), n - 1), 2);
    assert read.trace == s.trace + Listed(env.callId, s.stack, [n - 2, n - 1], |s.trace|, false);
    var stored := read.(gas := a.gas, memory := StoreAt(a.memory, addr, s.stack[n - 2], width));
    BytesNoted(env, stored, addr, true);
    MoreBehind(env, read.trace, MemoryRecords(env, stored, addr, true), ExecMStore(env, s, width).s, addr, true);
  }

  ghost predicate StoreNoted(env: Env, s: State, t: State)
    requires |s.stack| >= 2
  {
    var n, addr := |s.stack|, Low64(s.stack[|s.stack| - 1]);
    && |t.trace| == |s.trace| + 34
    && NotesBytes(env, s.trace + Listed(env.callId, s.stack, [n - 2, n - 1], |s.trace|, false), t, addr, true)
  }

  lemma ReturnNotes(env: Env, s: State, status: Status)
    requires |s.stack| >= 2
    ensures Notes(env, s, ExecReturn(env, s, status).s, Top(s, 2), [])
  {
    hide Touch, TouchRange, Listed, StackOperation;
    var n := |s.stack|;
    TopItems(s);
    ListedTwo(env.callId, s.stack, n - 2, n - 1, |s.trace|, false);
    ListedNothing(env.callId, ExecReturn(env, s, status).s.stack, |s.trace| + 2);
  }

  lemma ListedNothing(id: nat, stack: seq<Word>, from: nat)
    ensures Listed(id, stack, [], from, true) == []
  {
  }

  /** Loads and stores record their operands and 32 bytes; RETURN and REVERT only their operands. */
  lemma AccessesRecord(env: Env, ch: Choice, s: State)
    requires ChecksOut(env, s)
    ensures var k, o := KindOf(env.code[s.pc]), Step(env, ch, s);
      && (k == KMLoad && o.Next? ==> |s.stack| >= 1 && LoadNoted(env, s, o.s))
      && (k.KMStore? && o.Next? ==> |s.stack| >= 2 && StoreNoted(env, s, o.s))
      && (k.KReturn? ==> o.Halt? && Notes(env, s, o.s, Top(s, 2), []))
  {
    hide KindOf, TraitsOf, Exec, Step, CheckRequirements, BaseCost, Paid, Notes, LoadNoted, StoreNoted;
    hide ExecMLoad, ExecMStore, ExecReturn;
    var op, paid := env.code[s.pc], Paid(env, s);
    Executes(env, ch, s);
    ExecAccess(env, ch, paid, op);
    match KindOf(op)
    case KMLoad =>
      if Step(env, ch, s).Next? { LoadNotes(env, paid); NotedAlike(env, s, paid, Step(env, ch, s).s); }
    case KMStore(width) =>
      if Step(env, ch, s).Next? { StoreNotes(env, paid, width); NotedAlike(env, s, paid, Step(env, ch, s).s); }
    case KReturn(status) =>
      ReturnNotes(env, paid, status);
      ReturnHalts(env, paid, status);
      SameNotes(env, s, paid, Step(env, ch, s).s, Top(s, 2), []);
    case _ =>
  }

  lemma ReturnHalts(env: Env, s: State, status: Status)
    requires |s.stack| >= 2
    ensures ExecReturn(env, s, status).Halt?
  {
  }

  lemma NotedAlike(env: Env, s: State, paid: State, t: State)
    requires paid == s.(gas := paid.gas) && |s.stack| >= 1
    ensures LoadNoted(env, paid, t) ==> LoadNoted(env, s, t)
    ensures |s.stack| >= 2 && StoreNoted(env, paid, t) ==> StoreNoted(env, s, t)
  {
    hide NotesBytes, Listed;
  }

  // ---------------------------------------------------------------- jumps

  lemma JumpNotes(env: Env, s: State)
    requires |s.stack| >= 1
    ensures !ExecJump(env, s).Fault? && Notes(env, s, ExecJump(env, s).s, Top(s, 1), [])
    ensures !ExecRJumpI(env, s).Fault? ==> Notes(env, s, ExecRJumpI(env, s).s, Top(s, 1), [])
    ensures !ExecRJumpV(env, s).Fault? ==> Notes(env, s, ExecRJumpV(env, s).s, Top(s, 1), [])
    ensures |s.stack| >= 2 ==> !ExecJumpI(env, s).Fault? && Notes(env, s, ExecJumpI(env, s).s, Top(s, 2), [])
  {
    hide Listed, StackOperation, I16, Low64;
    var n := |s.stack|;
    TopItems(s);
    ListedOne(env.callId, s.stack, n - 1, |s.trace|, false);
    ListedNothing(env.callId, s.stack[..n - 1], |s.trace| + 1);
    if n >= 2 {
      ListedTwo(env.callId, s.stack, n - 2, n - 1, |s.trace|, false);
      ListedNothing(env.callId, s.stack[..n - 2], |s.trace| + 2);
    }
  }

  /** Jumps record the operands they read, taken or not; calls and returns of sections record nothing. */
  lemma JumpsRecord(env: Env, ch: Choice, s: State)
    requires ChecksOut(env, s) && !Step(env, ch, s).Fault?
    ensures var k, o := KindOf(env.code[s.pc]), Step(env, ch, s);
      && (k in {KJump, KRJumpI, KRJumpV} ==> Notes(env, s, o.s, Top(s, 1), []))
      && (k == KJumpI ==> Notes(env, s, o.s, Top(s, 2), []))
      && (k in {KRJump, KCallF, KJumpF, KRetF, KStop, KInvalid} || k.KDrop? ==> o.s.trace == s.trace)
  {
    hide KindOf, TraitsOf, Exec, Step, CheckRequirements, BaseCost, Paid, Notes, KindFits;
    hide ExecJump, ExecJumpI, ExecRJump, ExecRJumpI, ExecRJumpV, ExecCallF, ExecJumpF, ExecRetF;
    var op, paid := env.code[s.pc], Paid(env, s);
    Executes(env, ch, s);
    ExecControl(env, ch, paid, op);
    ExecHalting(env, ch, paid, op);
    JumpReach(op);
    SilentNotes(env, paid);
    if |s.stack| >= 1 { JumpNotes(env, paid); }
    SameNotes(env, s, paid, Step(env, ch, s).s, Top(s, 1), []);
    SameNotes(env, s, paid, Step(env, ch, s).s, Top(s, 2), []);
  }

  lemma JumpReach(op: byte)
    ensures KindOf(op) in {KJump, KRJumpI, KRJumpV} ==> TraitsOf(op).stackHeightRequired == 1
    ensures KindOf(op) == KJumpI ==> TraitsOf(op).stackHeightRequired == 2
  {
  }

  lemma SilentNotes(env: Env, s: State)
    ensures var o := ExecRJump(env, s); !o.Fault? ==> o.s.trace == s.trace
    ensures var o := ExecCallF(env, s); !o.Fault? ==> o.s.trace == s.trace
    ensures var o := ExecJumpF(env, s); !o.Fault? ==> o.s.trace == s.trace
    ensures var o := ExecRetF(env, s); !o.Fault? ==> o.s.trace == s.trace
  {
    hide SectionOperand, I16, CalleeRoom, SectionEntry;
  }
}
