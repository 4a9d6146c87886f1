/**
 * What the instructions answer, opcode by opcode: each result by the property that defines it, each choice by
 * the condition that decides it, for every step that gets past the requirements check.
 */
module Effects {
  import opened Bytes
  import opened Opcodes
  import opened MemoryGas
  import opened Words
  import opened Interpreter
  import opened Accesses

  /** The step gets past the requirements check. */
  ghost predicate ChecksOut(env: Env, s: State) {
    0 <= s.pc < |env.code| && CheckRequirements(env, s.gas, |s.stack|, env.code[s.pc]).0 == None
  }

  /** The step continues `length` bytes on, with `results` for the top `pops` items and nothing else changed. */
  ghost predicate Leaves(s: State, o: Outcome, pops: nat, results: seq<Word>, length: int)
    requires pops <= |s.stack|
  {
    && o.Next? && o.s.pc == s.pc + length && o.s.stack == s.stack[..|s.stack| - pops] + results
    && o.s.memory == s.memory && o.s.callStack == s.callStack && o.s.gas == s.gas
  }

  lemma Executes(env: Env, ch: Choice, s: State)
    requires ChecksOut(env, s)
    ensures 0 <= s.pc < |env.code|
    ensures var op, paid := env.code[s.pc], Paid(env, s);
      && |s.stack| >= TraitsOf(op).stackHeightRequired && KindFits(KindOf(op), TraitsOf(op))
      && paid == s.(gas := s.gas - BaseCost(env, op)) && paid.gas >= 0
      && Step(env, ch, s) == Exec(env, ch, paid, op)
  {
    hide Exec, Step, TraitsOf, KindOf, CheckRequirements, BaseCost;
    var op := env.code[s.pc];
    CheckPassed(env, s.gas, |s.stack|, op);
    PassedStep(env, ch, s, op, Paid(env, s).gas);
    TraitsMatchImplementation(op);
  }

  // ---------------------------------------------------------------- arithmetic

  /** r is the answer to op on the top item x and the second item y. */
  ghost predicate Answers(op: byte, x: Word, y: Word, r: Word) {
    && (op == OP_ADD ==> r == x + y || r == x + y - TWO_256)
    && (op == OP_SUB ==> r == x - y || r == x - y + TWO_256)
    && (op == OP_MUL ==> exists k: nat :: x * y == k * TWO_256 + r)
    && (op == OP_DIV ==> if y == 0 then r == 0 else r * y <= x < r * y + y)
    && (op == OP_MOD ==> if y == 0 then r == 0 else r < y && exists k: nat :: x == k * y + r)
    && (op == OP_LT ==> r == if x < y then 1 else 0)
    && (op == OP_GT ==> r == if x > y then 1 else 0)
    && (op == OP_EQ ==> r == if x == y then 1 else 0)
  }

  lemma AluAnswers(op: byte, x: Word, y: Word, other: Word)
    ensures Answers(op, x, y, Alu(op, x, y, other))
  {
    hide WordMul, WordDiv, WordMod;
    Wrap(x + y);
    Wrap(x - y);
    ProductAnswers(x, y);
    if y > 0 { QuotientAnswers(x, y); }
    NoDivisor(x);
  }

  lemma NoDivisor(x: Word)
    ensures WordDiv(x, 0) == 0 && WordMod(x, 0) == 0
  {
  }

  lemma ProductAnswers(x: Word, y: Word)
    ensures exists k: nat :: x * y == k * TWO_256 + WordMul(x, y)
  {
    var product: nat := x * y;
    Euclid(product, TWO_256);
    assert product == (product / TWO_256) * TWO_256 + WordMul(x, y);
  }

  lemma QuotientAnswers(x: Word, y: Word)
    requires y > 0
    ensures WordDiv(x, y) * y <= x < WordDiv(x, y) * y + y
    ensures WordMod(x, y) < y && exists k: nat :: x == k * y + WordMod(x, y)
  {
    Euclid(x, y);
    assert x == (x / y) * y + WordMod(x, y);
  }

  lemma BinaryEffect(env: Env, ch: Choice, s: State)
    requires ChecksOut(env, s)
    requires env.code[s.pc] in {OP_ADD, OP_MUL, OP_SUB, OP_DIV, OP_MOD, OP_LT, OP_GT, OP_EQ}
    ensures |s.stack| >= 2
    ensures exists r: Word ::
      && Leaves(Paid(env, s), Step(env, ch, s), 2, [r], 1)
      && Answers(env.code[s.pc], s.stack[|s.stack| - 1], s.stack[|s.stack| - 2], r)
  {
    hide KindOf, TraitsOf, Exec, Step, CheckRequirements, BaseCost, Paid, Alu, Answers;
    var op, n := env.code[s.pc], |s.stack|;
    Executes(env, ch, s);
    ArithmeticKinds(op);
    ExecArithmetic(env, ch, Paid(env, s), op);
    var x, y := s.stack[n - 1], s.stack[n - 2];
    AluAnswers(op, x, y, ch.word);
    assert Leaves(Paid(env, s), Step(env, ch, s), 2, [Alu(op, x, y, ch.word)], 1);
  }

  lemma ArithmeticKinds(op: byte)
    ensures op in {OP_ADD, OP_MUL, OP_SUB, OP_DIV, OP_MOD, OP_LT, OP_GT, OP_EQ} ==> KindOf(op) == KBinary
    ensures op == OP_ISZERO || op == OP_NOT ==> KindOf(op) == KUnary
    ensures KindOf(OP_ADDMOD) == KAddMod && KindOf(OP_MULMOD) == KMulMod
  {
  }

  /** ISZERO and NOT. */
  lemma UnaryEffect(env: Env, ch: Choice, s: State)
    requires ChecksOut(env, s) && env.code[s.pc] in {OP_ISZERO, OP_NOT}
    ensures |s.stack| >= 1
    ensures exists r: Word ::
      && Leaves(Paid(env, s), Step(env, ch, s), 1, [r], 1)
      && (env.code[s.pc] == OP_ISZERO ==> r == if s.stack[|s.stack| - 1] == 0 then 1 else 0)
      && (env.code[s.pc] == OP_NOT ==> r + s.stack[|s.stack| - 1] == TWO_256 - 1)
  {
    hide KindOf, TraitsOf, Exec, Step, CheckRequirements, BaseCost, Paid;
    var op, n := env.code[s.pc], |s.stack|;
    Executes(env, ch, s);
    ArithmeticKinds(op);
    ExecArithmetic(env, ch, Paid(env, s), op);
    var r := Unary(op, s.stack[n - 1], ch.word);
    assert Leaves(Paid(env, s), Step(env, ch, s), 1, [r], 1);
  }

  /** r is v modulo m, and 0 for m = 0. */
  ghost predicate Reduced(v: int, m: Word, r: Word) {
    if m == 0 then r == 0 else r < m && exists k: nat :: v == k * m + r
  }

  /** ADDMOD and MULMOD reduce the unbounded sum and product by the third item; a zero modulus gives zero. */
  lemma ModuloEffect(env: Env, ch: Choice, s: State)
    requires ChecksOut(env, s) && env.code[s.pc] in {OP_ADDMOD, OP_MULMOD}
    ensures |s.stack| >= 3
    ensures var n := |s.stack|; var x, y, m := s.stack[n - 1], s.stack[n - 2], s.stack[n - 3];
      exists r: Word ::
        && Leaves(Paid(env, s), Step(env, ch, s), 3, [r], 1)
        && (env.code[s.pc] == OP_ADDMOD ==> Reduced((x as int) + y, m, r))
        && (env.code[s.pc] == OP_MULMOD ==> Reduced((x as int) * y, m, r))
  {
    hide KindOf, TraitsOf, Exec, Step, CheckRequirements, BaseCost, Paid, AddMod, MulMod;
    var op, n := env.code[s.pc], |s.stack|;
    Executes(env, ch, s);
    ArithmeticKinds(op);
    ExecArithmetic(env, ch, Paid(env, s), op);
    var x, y, m := s.stack[n - 1], s.stack[n - 2], s.stack[n - 3];
    var r := if op == OP_ADDMOD then AddMod(x, y, m) else MulMod(x, y, m);
    if m == 0 {
      ZeroModuli(x, y);
    } else if op == OP_ADDMOD {
      var k := AddModExact(x, y, m);
    } else {
      var k := MulModExact(x, y, m);
    }
    assert Leaves(Paid(env, s), Step(env, ch, s), 3, [r], 1);
  }

  lemma ZeroModuli(x: Word, y: Word)
    ensures AddMod(x, y, 0) == 0 && MulMod(x, y, 0) == 0
  {
  }

  lemma AddModExact(x: Word, y: Word, m: Word) returns (k: nat)
    requires m > 0
    ensures x + y == k * m + AddMod(x, y, m) && AddMod(x, y, m) < m
  {
    k := (x + y) / m;
    Euclid(x + y, m);
  }

  // ---------------------------------------------------------------- pushing, copying, exchanging

  lemma PushingKinds(op: byte)
    ensures KindOf(OP_PC) == KPc && KindOf(OP_MSIZE) == KMSize && KindOf(OP_GAS) == KGas && KindOf(OP_POP) == KDrop(1)
    ensures OP_PUSH0 <= op <= OP_PUSH32 ==> KindOf(op) == KPush(op - OP_PUSH0)
    ensures OP_DUP1 <= op < OP_SWAP1 ==> KindOf(op) == KDup(op - OP_DUP1 + 1)
    ensures OP_SWAP1 <= op < 0xa0 ==> KindOf(op) == KSwap(op - OP_SWAP1 + 1)
    ensures KindOf(OP_DUPN) == KDupN && KindOf(OP_SWAPN) == KSwapN && KindOf(OP_DATALOADN) == KDataLoadN
  {
  }

  /** PC counts from the start of the executable code, GAS after the base charge, MSIZE in bytes. */
  lemma CounterEffect(env: Env, ch: Choice, s: State)
    requires ChecksOut(env, s) && env.code[s.pc] in {OP_PC, OP_MSIZE, OP_GAS}
    ensures var op, o := env.code[s.pc], Step(env, ch, s);
      && (op == OP_PC ==> Leaves(Paid(env, s), o, 0, [(s.pc - env.origin) % TWO_256], 1))
      && (op == OP_MSIZE ==> Leaves(Paid(env, s), o, 0, [|s.memory| % TWO_256], 1))
      && (op == OP_GAS ==> Leaves(Paid(env, s), o, 0, [(s.gas - BaseCost(env, op)) % TWO_256], 1))
  {
    hide *;
    Executes(env, ch, s);
    var op, paid := env.code[s.pc], Paid(env, s);
    PushingKinds(op);
    ExecPushing(env, ch, paid, op);
    PushLeavesWord(env, paid, (paid.pc - env.origin) % TWO_256, 1);
    PushLeavesWord(env, paid, |paid.memory| % TWO_256, 1);
    PushLeavesWord(env, paid, paid.gas % TWO_256, 1);
  }

  /** PUSH0 to PUSH32 push the big-endian number that follows the opcode, if its loads stay in the buffer. */
  lemma PushNumberEffect(env: Env, ch: Choice, s: State)
    requires ChecksOut(env, s) && OP_PUSH0 <= env.code[s.pc] <= OP_PUSH32
    ensures var len, o := env.code[s.pc] - OP_PUSH0, Step(env, ch, s);
      if s.pc + PushReach(len) >= |env.code| then o.Fault?
      else Leaves(Paid(env, s), o, 0, [WordFromBytes(env.code[s.pc + 1..s.pc + 1 + len])], len + 1)
  {
    hide KindOf, TraitsOf, Exec, Step, CheckRequirements, BaseCost, Paid, KindFits, Leaves, ExecPush, WordFromBytes;
    hide PushReach;
    Executes(env, ch, s);
    var op := env.code[s.pc];
    PushingKinds(op);
    var paid, len := Paid(env, s), op - OP_PUSH0;
    ExecPushing(env, ch, paid, op);
    NumberLeaves(env, ch, paid, len);
  }

  lemma NumberLeaves(env: Env, ch: Choice, s: State, len: nat)
    requires 0 <= s.pc < |env.code| && len <= 32
    ensures var o := ExecPush(env, ch, s, len);
      if s.pc + PushReach(len) >= |env.code| then o.Fault?
      else Leaves(s, o, 0, [WordFromBytes(env.code[s.pc + 1..s.pc + 1 + len])], len + 1)
  {
    hide WordFromBytes, WriteTop, PushReach, PushRecords;
    if s.pc + PushReach(len) < |env.code| {
      var w := WordFromBytes(env.code[s.pc + 1..s.pc + 1 + len]);
      WriteTopShape(env, s.(stack := s.stack + [w]), 0, PushRecords(len), ch.stale);
      assert s.stack[..|s.stack|] == s.stack;
    }
  }

  lemma PushLeavesWord(env: Env, s: State, w: Word, length: nat)
    ensures Leaves(s, Advance(Push(env, s, w), length), 0, [w], length)
  {
    assert s.stack[..|s.stack|] == s.stack;
  }

  lemma CopyLeaves(env: Env, s: State, n: nat)
    requires 1 <= n <= |s.stack|
    ensures Leaves(s, ExecDup(env, s, n), 0, [s.stack[|s.stack| - n]], 1)
  {
    assert s.stack[..|s.stack|] == s.stack;
  }

  /** The exchanged stack in one piece. */
  lemma SwappedIs(stack: seq<Word>, d: nat)
    requires 1 <= d < |stack|
    ensures var n := |stack|;
      Swapped(stack, d) == stack[..n - d - 1] + ([stack[n - 1]] + stack[n - d..n - 1] + [stack[n - 1 - d]])
  {
  }

  lemma SwapLeaves(env: Env, s: State, d: nat)
    requires 1 <= d < |s.stack|
    ensures Exchanges(s, ExecSwap(env, s, d), d, 1)
  {
    hide Swapped;
    SwappedIs(s.stack, d);
  }

  lemma PopEffect(env: Env, ch: Choice, s: State)
    requires ChecksOut(env, s) && env.code[s.pc] == OP_POP
    ensures |s.stack| >= 1 && Leaves(Paid(env, s), Step(env, ch, s), 1, [], 1)
  {
    hide KindOf, TraitsOf, Exec, Step, CheckRequirements, BaseCost, Paid, Leaves, Drop, Advance;
    Executes(env, ch, s);
    PushingKinds(OP_POP);
    ExecHalting(env, ch, Paid(env, s), OP_POP);
    PopLeaves(Paid(env, s));
  }

  /** DUP1 to DUP16 copy the item so far down. */
  lemma CopyEffect(env: Env, ch: Choice, s: State)
    requires ChecksOut(env, s) && OP_DUP1 <= env.code[s.pc] < OP_SWAP1
    ensures var d := env.code[s.pc] - OP_DUP1 + 1;
      |s.stack| >= d && Leaves(Paid(env, s), Step(env, ch, s), 0, [s.stack[|s.stack| - d]], 1)
  {
    hide KindOf, TraitsOf, Exec, Step, CheckRequirements, BaseCost, Paid, Leaves, ExecDup, KindFits;
    var op := env.code[s.pc];
    Executes(env, ch, s);
    PushingKinds(op);
    ExecMoving(env, ch, Paid(env, s), op);
    MoveOperands(op);
    CopyLeaves(env, Paid(env, s), op - OP_DUP1 + 1);
  }

  /** SWAP1 to SWAP16 exchange the top with the item so far below it. */
  lemma ExchangeEffect(env: Env, ch: Choice, s: State)
    requires ChecksOut(env, s) && OP_SWAP1 <= env.code[s.pc] < 0xa0
    ensures var d := env.code[s.pc] - OP_SWAP1 + 1;
      |s.stack| > d && Exchanges(Paid(env, s), Step(env, ch, s), d, 1)
  {
    hide KindOf, TraitsOf, Exec, Step, CheckRequirements, BaseCost, Paid, Exchanges, ExecSwap, KindFits;
    var op := env.code[s.pc];
    Executes(env, ch, s);
    PushingKinds(op);
    ExecMoving(env, ch, Paid(env, s), op);
    MoveOperands(op);
    SwapLeaves(env, Paid(env, s), op - OP_SWAP1 + 1);
  }

  lemma MoveOperands(op: byte)
    ensures OP_DUP1 <= op < OP_SWAP1 ==> TraitsOf(op).stackHeightRequired == op - OP_DUP1 + 1
    ensures OP_SWAP1 <= op < 0xa0 ==> TraitsOf(op).stackHeightRequired == op - OP_SWAP1 + 2
  {
  }

  lemma PopLeaves(s: State)
    requires |s.stack| >= 1
    ensures Leaves(s, Advance(Drop(s, 1), 1), 1, [], 1)
  {
  }

  /** The step exchanges the top item with the one d below it, and changes nothing else. */
  ghost predicate Exchanges(s: State, o: Outcome, d: nat, length: nat)
    requires 1 <= d < |s.stack|
  {
    var n := |s.stack|;
    Leaves(s, o, d + 1, [s.stack[n - 1]] + s.stack[n - d..n - 1] + [s.stack[n - 1 - d]], length)
  }

  /** DUPN and SWAPN reach one item further than their immediate byte says, or underflow. */
  lemma ReachEffect(env: Env, ch: Choice, s: State)
    requires ChecksOut(env, s) && env.code[s.pc] in {OP_DUPN, OP_SWAPN} && s.pc + 1 < |env.code|
    ensures var op, o, n, d := env.code[s.pc], Step(env, ch, s), |s.stack|, env.code[s.pc + 1] as int + 1;
      && (op == OP_DUPN ==>
            if n >= d then Leaves(Paid(env, s), o, 0, [s.stack[n - d]], 2)
            else o == Halt(Underflow, Paid(env, s), false))
      && (op == OP_SWAPN ==>
            if n > d then Exchanges(Paid(env, s), o, d, 2) else o == Halt(Underflow, Paid(env, s), false))
  {
    hide KindOf, TraitsOf, Exec, Step, CheckRequirements, BaseCost, Paid, Leaves, Exchanges, KindFits;
    hide ExecDupN, ExecSwapN;
    var op := env.code[s.pc];
    Executes(env, ch, s);
    PushingKinds(op);
    ExecMoving(env, ch, Paid(env, s), op);
    ReachLeaves(env, Paid(env, s));
  }

  lemma ReachLeaves(env: Env, s: State)
    requires 0 <= s.pc && s.pc + 1 < |env.code|
    ensures var n, d := |s.stack|, env.code[s.pc + 1] as int + 1;
      && (if n >= d then Leaves(s, ExecDupN(env, s), 0, [s.stack[n - d]], 2)
          else ExecDupN(env, s) == Halt(Underflow, s, false))
      && (if n > d then Exchanges(s, ExecSwapN(env, s), d, 2) else ExecSwapN(env, s) == Halt(Underflow, s, false))
  {
    hide Swapped;
    assert s.stack[..|s.stack|] == s.stack;
    var d := env.code[s.pc + 1] as int + 1;
    if |s.stack| > d { SwappedIs(s.stack, d); }
  }

  /** The indexed DUP replaces its operand, a signed depth, by the item so far below it; 0 copies the operand. */
  lemma IndexedCopyEffect(env: Env, ch: Choice, s: State)
    requires ChecksOut(env, s) && env.code[s.pc] == OP_DUP && |s.stack| <= STACK_LIMIT
    ensures |s.stack| >= 1
    ensures var n, o, d := |s.stack|, Step(env, ch, s), Signed32(Low64(s.stack[|s.stack| - 1]));
      && (0 <= d < n ==> Leaves(Paid(env, s), o, 1, [s.stack[n - 1 - d]], 1))
      && (o.Fault? <==> d >= n || d < n - STACK_LIMIT)
  {
    hide KindOf, TraitsOf, Exec, Step, CheckRequirements, BaseCost, Paid, Leaves, KindFits, ExecDupAt, Low64;
    Executes(env, ch, s);
    Interpreter.ControlKinds(OP_DUP);
    ExecMoving(env, ch, Paid(env, s), OP_DUP);
    IndexOperands();
    IndexedLeaves(env, ch, Paid(env, s));
  }

  /** The indexed SWAP drops its operand, a 16-bit depth, and exchanges the new top with the item so far below it. */
  lemma IndexedExchangeEffect(env: Env, ch: Choice, s: State)
    requires ChecksOut(env, s) && env.code[s.pc] == OP_SWAP
    ensures |s.stack| >= 1
    ensures var n, o, d := |s.stack|, Step(env, ch, s), Low64(s.stack[|s.stack| - 1]) % 0x1_0000;
      if d + 2 > n then o.Fault?
      else if d == 0 then Leaves(Paid(env, s), o, 1, [], 1)
      else Leaves(Paid(env, s), o, d + 2, [s.stack[n - 2]] + s.stack[n - 1 - d..n - 2] + [s.stack[n - 2 - d]], 1)
  {
    hide *;
    Executes(env, ch, s);
    Interpreter.ControlKinds(OP_SWAP);
    ExecMoving(env, ch, Paid(env, s), OP_SWAP);
    IndexOperands();
    IndexedSwaps(env, Paid(env, s));
  }

  lemma IndexOperands()
    ensures TraitsOf(OP_DUP).stackHeightRequired >= 1 && TraitsOf(OP_SWAP).stackHeightRequired >= 1
  {
  }

  lemma IndexedLeaves(env: Env, ch: Choice, s: State)
    requires 1 <= |s.stack| <= STACK_LIMIT
    ensures var n, o, d := |s.stack|, ExecDupAt(env, ch, s), Signed32(Low64(s.stack[|s.stack| - 1]));
      && (0 <= d < n ==> Leaves(s, o, 1, [s.stack[n - 1 - d]], 1))
      && (o.Fault? <==> d >= n || d < n - STACK_LIMIT)
  {
    hide Low64, Signed32;
    assert s.stack[..|s.stack| - 1] == Drop(s, 1).stack;
  }

  lemma IndexedSwaps(env: Env, s: State)
    requires |s.stack| >= 1
    ensures var n, o, d := |s.stack|, ExecSwapAt(env, s), Low64(s.stack[|s.stack| - 1]) % 0x1_0000;
      if d + 2 > n then o.Fault?
      else if d == 0 then Leaves(s, o, 1, [], 1)
      else Leaves(s, o, d + 2, [s.stack[n - 2]] + s.stack[n - 1 - d..n - 2] + [s.stack[n - 2 - d]], 1)
  {
    hide Low64, Swapped, ExecSwap, Leaves;
    var n, d := |s.stack|, Low64(s.stack[|s.stack| - 1]) % 0x1_0000;
    if d + 2 <= n {
      if d > 0 { SwapBelow(env, s, d); } else { IdleLeaves(env, s); }
    }
  }

  lemma IdleLeaves(env: Env, s: State)
    requires |s.stack| >= 2 && Low64(s.stack[|s.stack| - 1]) % 0x1_0000 == 0
    ensures Leaves(s, ExecSwapAt(env, s), 1, [], 1)
  {
    hide Low64;
  }

  /** The exchange behind a dropped operand. */
  lemma SwapBelow(env: Env, s: State, d: nat)
    requires 0 < d && d + 2 <= |s.stack|
    ensures var n := |s.stack|;
      Leaves(s, ExecSwap(env, Drop(ReadSlot(env, s, n - 1), 1), d), d + 2,
             [s.stack[n - 2]] + s.stack[n - 1 - d..n - 2] + [s.stack[n - 2 - d]], 1)
  {
    hide ExecSwap;
    var n := |s.stack|;
    var below := Drop(ReadSlot(env, s, n - 1), 1);
    SwapLeaves(env, below, d);
    assert below.stack[..n - d - 2] == s.stack[..n - d - 2];
    assert below.stack[n - 1 - d..n - 2] == s.stack[n - 1 - d..n - 2];
  }

  /** DATALOADN pushes the 32 bytes of the data section that its operand names. */
  lemma DataEffect(env: Env, ch: Choice, s: State)
    requires ChecksOut(env, s) && env.code[s.pc] == OP_DATALOADN && s.pc + 2 < |env.code|
    ensures var index := 256 * env.code[s.pc + 1] as int + env.code[s.pc + 2];
      index + 32 <= |env.data| ==>
        Leaves(Paid(env, s), Step(env, ch, s), 0, [WordFromBytes(env.data[index..index + 32])], 3)
  {
    hide *;
    Executes(env, ch, s);
    var op := env.code[s.pc];
    PushingKinds(op);
    ExecPushing(env, ch, Paid(env, s), op);
    DataLeaves(env, Paid(env, s));
  }

  lemma DataLeaves(env: Env, s: State)
    requires 0 <= s.pc && s.pc + 2 < |env.code|
    ensures var index := 256 * env.code[s.pc + 1] as int + env.code[s.pc + 2];
      index + 32 <= |env.data| ==>
        Leaves(s, ExecDataLoadN(env, s), 0, [WordFromBytes(env.data[index..index + 32])], 3)
  {
    hide WordFromBytes;
    assert s.stack[..|s.stack|] == s.stack;
  }

  // ---------------------------------------------------------------- memory

  lemma AccessKinds(op: byte)
    ensures op == OP_MLOAD || 0xc0 <= op <= 0xc3 ==> KindOf(op) == KMLoad
    ensures KindOf(OP_MSTORE) == KMStore(32) && KindOf(OP_MSTORE8) == KMStore(1)
    ensures KindOf(0xb0) == KMStore(2) && KindOf(0xb1) == KMStore(4) && KindOf(0xb2) == KMStore(8)
    ensures KindOf(OP_RETURN) == KReturn(Success) && KindOf(OP_REVERT) == KReturn(Revert)
    ensures KindOf(OP_STOP) == KStop && KindOf(OP_INVALID) == KInvalid
  {
  }

  /** Out of gas, or the 32 bytes at the offset in memory as the check extends it. */
  ghost predicate Loads(s: State, o: Outcome)
    requires |s.stack| >= 1
  {
    var a, addr := Touch(s.gas, s.memory, s.stack[|s.stack| - 1], 32), Low64(s.stack[|s.stack| - 1]);
    if !a.ok then o.Halt? && o.status == OutOfGas
    else
      && addr + 32 <= |a.memory|
      && Leaves(s.(gas := a.gas, memory := a.memory), o, 1, [WordFromBytes(a.memory[addr..addr + 32])], 1)
  }

  /** MLOAD of any width. */
  lemma LoadEffect(env: Env, ch: Choice, s: State)
    requires ChecksOut(env, s)
    requires var op := env.code[s.pc]; op == OP_MLOAD || 0xc0 <= op <= 0xc3
    ensures |s.stack| >= 1 && Loads(Paid(env, s), Step(env, ch, s))
  {
    hide KindOf, TraitsOf, Exec, Step, CheckRequirements, BaseCost, Paid, ExecMLoad, Loads;
    var op := env.code[s.pc];
    Executes(env, ch, s);
    AccessKinds(op);
    ExecAccess(env, ch, Paid(env, s), op);
    LoadLoads(env, Paid(env, s));
  }

  lemma LoadLoads(env: Env, s: State)
    requires |s.stack| >= 1
    ensures Loads(s, ExecMLoad(env, s))
  {
    hide WordFromBytes, Touch, Low64;
    if Touch(s.gas, s.memory, s.stack[|s.stack| - 1], 32).ok {
      TouchCovers(s.gas, s.memory, s.stack[|s.stack| - 1], 32);
    }
  }

  /** Out of gas, or the low `width` bytes of the word, big-endian, from the offset on; no other byte changes. */
  ghost predicate Stores(s: State, o: Outcome, width: nat)
    requires |s.stack| >= 2 && width <= 32
  {
    var n := |s.stack|;
    var a, addr := Touch(s.gas, s.memory, s.stack[n - 1], 32), Low64(s.stack[n - 1]);
    if !a.ok then o.Halt? && o.status == OutOfGas
    else
      && o.Next? && addr + 32 <= |a.memory| == |o.s.memory|
      && Leaves(s.(gas := a.gas, memory := o.s.memory), o, 2, [], 1)
      && FromBytes(o.s.memory[addr..addr + width]) == s.stack[n - 2] % Pow256(width)
      && forall i :: 0 <= i < |a.memory| && !(addr <= i < addr + width) ==> o.s.memory[i] == a.memory[i]
  }

  /** The bytes an MSTORE opcode writes. */
  function StoreWidth(op: byte): (width: nat)
    ensures 1 <= width <= 32
  {
    if op == OP_MSTORE8 then 1 else if op == 0xb0 then 2 else if op == 0xb1 then 4 else if op == 0xb2 then 8 else 32
  }

  /** MSTORE of any width. */
  lemma StoreEffect(env: Env, ch: Choice, s: State)
    requires ChecksOut(env, s) && env.code[s.pc] in {OP_MSTORE, OP_MSTORE8, 0xb0, 0xb1, 0xb2}
    ensures |s.stack| >= 2 && Stores(Paid(env, s), Step(env, ch, s), StoreWidth(env.code[s.pc]))
  {
    hide KindOf, TraitsOf, Exec, Step, CheckRequirements, BaseCost, Paid, ExecMStore, Stores;
    var op := env.code[s.pc];
    Executes(env, ch, s);
    AccessKinds(op);
    ExecAccess(env, ch, Paid(env, s), op);
    StoreStores(env, Paid(env, s), StoreWidth(op));
  }

  lemma StoreStores(env: Env, s: State, width: nat)
    requires |s.stack| >= 2 && 1 <= width <= 32
    ensures Stores(s, ExecMStore(env, s, width), width)
  {
    hide FromBytes, Pow256, StoreAt, Touch, Low64;
    var n := |s.stack|;
    var a := Touch(s.gas, s.memory, s.stack[n - 1], 32);
    if a.ok {
      TouchCovers(s.gas, s.memory, s.stack[n - 1], 32);
      StoredBytes(a.memory, Low64(s.stack[n - 1]), s.stack[n - 2], width);
    }
  }

  lemma StoredBytes(memory: seq<byte>, addr: nat, v: Word, width: nat)
    requires addr + width <= |memory|
    ensures var m := StoreAt(memory, addr, v, width);
      && FromBytes(m[addr..addr + width]) == v % Pow256(width)
      && forall i :: 0 <= i < |m| && !(addr <= i < addr + width) ==> m[i] == memory[i]
  {
    hide FromBytes, ToBytes, Pow256;
    assert StoreAt(memory, addr, v, width)[addr..addr + width] == ToBytes(v, width);
    LoadStored(v, width);
  }

  // ---------------------------------------------------------------- jumps

  /** The position is that of a marked destination. */
  predicate Marked(env: Env, dst: Word) {
    Low64(dst) < |env.jumpdests| && env.jumpdests[Low64(dst)]
  }

  /** A jump to dst after `pops` operands: to the marked destination, or a bad one. */
  ghost predicate JumpsTo(env: Env, s: State, o: Outcome, pops: nat, dst: Word)
    requires pops <= |s.stack|
  {
    if Marked(env, dst) then Leaves(s, o, pops, [], env.origin + Low64(dst) - s.pc)
    else o.Halt? && o.status == BadJumpDestination
  }

  /** JUMP. */
  lemma JumpEffect(env: Env, ch: Choice, s: State)
    requires ChecksOut(env, s) && env.code[s.pc] == OP_JUMP
    ensures |s.stack| >= 1 && JumpsTo(env, Paid(env, s), Step(env, ch, s), 1, s.stack[|s.stack| - 1])
  {
    hide KindOf, TraitsOf, Exec, Step, CheckRequirements, BaseCost, Paid, ExecJump, JumpsTo;
    Executes(env, ch, s);
    ControlKinds(OP_JUMP);
    ExecControl(env, ch, Paid(env, s), OP_JUMP);
    JumpJumps(env, Paid(env, s));
  }

  lemma JumpJumps(env: Env, s: State)
    requires |s.stack| >= 1
    ensures JumpsTo(env, s, ExecJump(env, s), 1, s.stack[|s.stack| - 1])
  {
    hide Low64;
  }

  /** JUMPI falls through exactly if the low 64 bits of its condition, the second item, are zero. */
  lemma JumpIEffect(env: Env, ch: Choice, s: State)
    requires ChecksOut(env, s) && env.code[s.pc] == OP_JUMPI
    ensures |s.stack| >= 2
    ensures var n, o := |s.stack|, Step(env, ch, s);
      if s.stack[n - 2] % TWO_64 == 0 then Leaves(Paid(env, s), o, 2, [], 1)
      else JumpsTo(env, Paid(env, s), o, 2, s.stack[n - 1])
  {
    hide KindOf, TraitsOf, Exec, Step, CheckRequirements, BaseCost, Paid, ExecJumpI, JumpsTo, Leaves;
    Executes(env, ch, s);
    ControlKinds(OP_JUMPI);
    ExecControl(env, ch, Paid(env, s), OP_JUMPI);
    JumpIJumps(env, Paid(env, s));
  }

  lemma JumpIJumps(env: Env, s: State)
    requires |s.stack| >= 2
    ensures var n, o := |s.stack|, ExecJumpI(env, s);
      if s.stack[n - 2] % TWO_64 == 0 then Leaves(s, o, 2, [], 1) else JumpsTo(env, s, o, 2, s.stack[n - 1])
  {
  }

  /** RJUMP always jumps; RJUMPI falls through exactly if the low 64 bits of its operand are zero. */
  lemma RelativeEffect(env: Env, ch: Choice, s: State)
    requires ChecksOut(env, s) && env.code[s.pc] in {OP_RJUMP, OP_RJUMPI} && s.pc + 2 < |env.code|
    ensures var op, o, n, offset := env.code[s.pc], Step(env, ch, s), |s.stack|, I16(env.code, s.pc + 1);
      && (op == OP_RJUMP ==> Leaves(Paid(env, s), o, 0, [], 3 + offset))
      && (op == OP_RJUMPI ==>
            n >= 1 && Leaves(Paid(env, s), o, 1, [], if s.stack[n - 1] % TWO_64 == 0 then 3 else 3 + offset))
  {
    hide KindOf, TraitsOf, Exec, Step, CheckRequirements, BaseCost, Paid, ExecRJump, ExecRJumpI, Leaves, I16;
    hide KindFits;
    var op := env.code[s.pc];
    Executes(env, ch, s);
    ControlKinds(op);
    ExecControl(env, ch, Paid(env, s), op);
    JumpOperands(op);
    RelativeJumps(env, Paid(env, s));
  }

  lemma JumpOperands(op: byte)
    ensures op == OP_RJUMPI || op == OP_RJUMPV ==> TraitsOf(op).stackHeightRequired == 1
  {
  }

  lemma RelativeJumps(env: Env, s: State)
    requires 0 <= s.pc && s.pc + 2 < |env.code|
    ensures Leaves(s, ExecRJump(env, s), 0, [], 3 + I16(env.code, s.pc + 1))
    ensures |s.stack| >= 1 ==>
      Leaves(s, ExecRJumpI(env, s), 1, [],
             if s.stack[|s.stack| - 1] % TWO_64 == 0 then 3 else 3 + I16(env.code, s.pc + 1))
  {
    hide I16;
    assert s.stack[..|s.stack|] == s.stack;
  }

  /** RJUMPV takes the entry that its operand selects, and falls through behind the table if there is none. */
  lemma TableEffect(env: Env, ch: Choice, s: State)
    requires ChecksOut(env, s) && env.code[s.pc] == OP_RJUMPV && s.pc + 1 < |env.code|
    requires s.pc + 3 + 2 * (env.code[s.pc + 1] as int) < |env.code|
    ensures |s.stack| >= 1
    ensures var index, last := s.stack[|s.stack| - 1] % TWO_64, env.code[s.pc + 1] as int;
      Leaves(Paid(env, s), Step(env, ch, s), 1, [],
             4 + 2 * last + if index > last then 0 else I16(env.code, s.pc + 2 + 2 * index))
  {
    hide KindOf, TraitsOf, Exec, Step, CheckRequirements, BaseCost, Paid, ExecRJumpV, Leaves, I16;
    hide KindFits;
    Executes(env, ch, s);
    ControlKinds(OP_RJUMPV);
    ExecControl(env, ch, Paid(env, s), OP_RJUMPV);
    JumpOperands(OP_RJUMPV);
    TableJumps(env, Paid(env, s));
  }

  lemma TableJumps(env: Env, s: State)
    requires |s.stack| >= 1 && 0 <= s.pc && s.pc + 1 < |env.code|
    requires s.pc + 3 + 2 * (env.code[s.pc + 1] as int) < |env.code|
    ensures var index, last := s.stack[|s.stack| - 1] % TWO_64, env.code[s.pc + 1] as int;
      Leaves(s, ExecRJumpV(env, s), 1, [],
             4 + 2 * last + if index > last then 0 else I16(env.code, s.pc + 2 + 2 * index))
  {
    hide I16;
  }

  // ---------------------------------------------------------------- calls and returns

  /**
   * CALLF and JUMPF fail with an overflow exactly if the callee's maximum height, counted from below its inputs,
   * would pass 1024 items, or CALLF finds 1024 return addresses; otherwise they enter the callee.
   */
  lemma FrameEffect(env: Env, ch: Choice, s: State)
    requires ChecksOut(env, s) && env.code[s.pc] in {OP_CALLF, OP_JUMPF} && SectionOperand(env, s.pc)
    ensures Enters(env, Paid(env, s), Step(env, ch, s), env.code[s.pc] == OP_CALLF)
  {
    hide KindOf, TraitsOf, Exec, Step, CheckRequirements, BaseCost, Paid, Enters, SectionOperand, KindFits;
    hide ExecCallF, ExecJumpF;
    var op := env.code[s.pc];
    Executes(env, ch, s);
    ControlKinds(op);
    ExecControl(env, ch, Paid(env, s), op);
    SameOperand(env, s, Paid(env, s));
    FrameEnters(env, Paid(env, s));
  }

  lemma SameOperand(env: Env, s: State, s': State)
    requires s'.pc == s.pc && SectionOperand(env, s.pc)
    ensures SectionOperand(env, s'.pc)
  {
  }

  /** The overflow test, and the entry of section g, with a return address if the callee is to return here. */
  ghost predicate Enters(env: Env, s: State, o: Outcome, returns_: bool)
    requires SectionOperand(env, s.pc)
  {
    var g := 256 * env.code[s.pc + 1] as int + env.code[s.pc + 2];
    var base := |s.stack| - env.types[g].inputs as int;
    if base + env.types[g].maxStackHeight > 1024 || (returns_ && |s.callStack| >= 1024) then
      o == Halt(Overflow, s, false)
    else
      o == Next(s.(pc := env.origin + env.codeOffsets[g] - env.codeOffsets[0],
                   callStack := if returns_ then s.callStack + [s.pc + 3] else s.callStack))
  }

  lemma FrameEnters(env: Env, s: State)
    requires SectionOperand(env, s.pc)
    ensures Enters(env, s, ExecCallF(env, s), true) && Enters(env, s, ExecJumpF(env, s), false)
  {
  }

  /** RETF goes where the return stack says. */
  lemma ReturnEffect(env: Env, ch: Choice, s: State)
    requires ChecksOut(env, s) && env.code[s.pc] == OP_RETF && s.callStack != []
    ensures var last := |s.callStack| - 1;
      Step(env, ch, s) == Next(Paid(env, s).(pc := s.callStack[last], callStack := s.callStack[..last]))
  {
    hide KindOf, TraitsOf, Exec, Step, CheckRequirements, BaseCost, Paid;
    Executes(env, ch, s);
    ControlKinds(OP_RETF);
    ExecControl(env, ch, Paid(env, s), OP_RETF);
  }

  // ---------------------------------------------------------------- halting

  /** STOP, INVALID, RETURN and REVERT; the last two run out of gas if their output range cannot be paid for. */
  lemma HaltEffect(env: Env, ch: Choice, s: State)
    requires ChecksOut(env, s) && env.code[s.pc] in {OP_STOP, OP_INVALID, OP_RETURN, OP_REVERT}
    ensures var op, o := env.code[s.pc], Step(env, ch, s);
      && (op == OP_STOP ==> o == Halt(Success, Paid(env, s), false))
      && (op == OP_INVALID ==> o == Halt(InvalidOpcode, Paid(env, s), false))
      && (op == OP_RETURN ==> |s.stack| >= 2 && ReturnsWith(Paid(env, s), o, Success))
      && (op == OP_REVERT ==> |s.stack| >= 2 && ReturnsWith(Paid(env, s), o, Revert))
  {
    hide KindOf, TraitsOf, Exec, Step, CheckRequirements, BaseCost, Paid, ReturnsWith, ExecReturn;
    var op := env.code[s.pc];
    Executes(env, ch, s);
    AccessKinds(op);
    ExecHalting(env, ch, Paid(env, s), op);
    ExecAccess(env, ch, Paid(env, s), op);
    if |s.stack| >= 2 {
      ReturnReturns(env, Paid(env, s), Success);
      ReturnReturns(env, Paid(env, s), Revert);
    }
  }

  /** The step halts with the status if its output range can be paid for, else out of gas. */
  ghost predicate ReturnsWith(s: State, o: Outcome, status: Status)
    requires |s.stack| >= 2
  {
    var n := |s.stack|;
    var a := TouchRange(s.gas, s.memory, s.stack[n - 1], s.stack[n - 2]);
    && o.Halt? && o.s.gas == a.gas && o.s.memory == a.memory && o.s.stack == s.stack
    && o.status == if a.ok then status else OutOfGas
  }

  lemma ReturnReturns(env: Env, s: State, status: Status)
    requires |s.stack| >= 2
    ensures ReturnsWith(s, ExecReturn(env, s, status), status)
  {
    hide TouchRange;
  }

  // ---------------------------------------------------------------- the requirements check

  /** The price of op where it runs, and whether it is refused as undefined. */
  predicate Refused(env: Env, op: byte) {
    CostTable(env.rev, env.isEof, op) < 0 && !HasConstGasCost(op)
  }

  /**
   * The check reports the first of: an undefined opcode, no room for a push, too few items, too little gas; it
   * passes exactly if there is none, and gas may be used up completely.
   */
  lemma CheckExact(env: Env, gas: int, height: nat, op: byte)
    requires height <= STACK_LIMIT
    ensures var failed := CheckRequirements(env, gas, height, op).0;
      && (failed == Some(UndefinedOpcode) <==> Refused(env, op))
      && (failed == Some(Overflow) <==> !Refused(env, op) && TraitsOf(op).stackHeightChange == 1 && height == 1024)
      && (failed == Some(Underflow) <==>
            && !Refused(env, op) && !(TraitsOf(op).stackHeightChange == 1 && height == 1024)
            && height < TraitsOf(op).stackHeightRequired)
      && (failed == None <==>
            && !Refused(env, op) && height >= TraitsOf(op).stackHeightRequired
            && height + TraitsOf(op).stackHeightChange <= 1024 && gas >= BaseCost(env, op))
      && (failed in {None, Some(UndefinedOpcode), Some(Overflow), Some(Underflow), Some(OutOfGas)})
  {
    hide HasConstGasCost, TraitsOf, GasCost;
    OneAtMost(op);
    if HasConstGasCost(op) { ConstantTable(env, op); }
  }

  lemma OneAtMost(op: byte)
    ensures TraitsOf(op).stackHeightChange <= 1
  {
  }

  lemma ConstantTable(env: Env, op: byte)
    requires HasConstGasCost(op)
    ensures GasCost(env.rev, op) == GasCost(Frontier, op)
  {
    hide GasCost;
  }
}
