/**
 * Gas across nested calls: what CALL and CREATE charge and pass on, and conservation over whole call trees
 * in which every frame is a run of the interpreter.
 */
module CallGas {
  import opened Bytes
  import opened Opcodes
  import opened MemoryGas
  import opened Words
  import opened Interpreter
  import opened ExecutionState
  import opened LegacyCode
  import EofSoundness

  const TWO_63: int := 0x8000_0000_0000_0000
  const CALL_STIPEND := 2300
  const CALL_VALUE_COST := 9000
  const NEW_ACCOUNT_COST := 25000
  const COLD_ACCOUNT_COST := 2500
  const MAX_DEPTH := 1024
  const MAX_INIT_CODE := 0xC000

  /** The cast of a 64-bit operand to `int64_t`. */
  function Signed64(x: nat): int
    requires x < TWO_64
  {
    if x < TWO_63 then x else x - TWO_64
  }

  /** What the host answers while a call is prepared. */
  datatype Answers = Answers(isStatic: bool, cold: bool, exists_: bool, poor: bool, refused: bool)

  /** A call that fails, one that returns at once, or one that is made with a message of so much gas. */
  datatype Prepared = Failed | Light(gas: int) | Made(gas: int, message: int)

  predicate IsCall(op: byte) {
    op == OP_CALL || op == OP_CALLCODE || op == OP_DELEGATECALL || op == OP_STATICCALL
  }

  predicate IsCreate(op: byte) {
    op == OP_CREATE || op == OP_CREATE2
  }

  predicate TakesValue(op: byte) {
    op == OP_CALL || op == OP_CALLCODE
  }

  function CallOperands(op: byte): nat {
    if TakesValue(op) then 7 else 6
  }

  predicate HasValue(op: byte, stack: seq<Word>)
    requires |stack| >= CallOperands(op)
  {
    TakesValue(op) && stack[|stack| - 3] != 0
  }

  // ---------------------------------------------------------------- the surcharges of a call

  /** Gas left once access, memory, value and account creation are paid; None when the call fails there. */
  function Surcharged(rev: Revision, a: Answers, gas: int, memory: seq<byte>, stack: seq<Word>, op: byte): Option<int>
    requires |stack| >= CallOperands(op)
  {
    var n, k := |stack|, CallOperands(op);
    var warmed := gas - (if Order(rev) >= Order(Berlin) && a.cold then COLD_ACCOUNT_COST else 0);
    if warmed < 0 then None
    else
      var input := TouchRange(warmed, memory, stack[n - k + 3], stack[n - k + 2]);
      if !input.ok then None
      else
        var output := TouchRange(input.gas, input.memory, stack[n - k + 1], stack[n - k]);
        if !output.ok then None
        else if op == OP_CALL && HasValue(op, stack) && a.isStatic then None
        else
          var cost := (if HasValue(op, stack) then CALL_VALUE_COST else 0)
            + (if op == OP_CALL && (HasValue(op, stack) || Order(rev) < Order(SpuriousDragon)) && !a.exists_
               then NEW_ACCOUNT_COST else 0);
          if output.gas - cost < 0 then None else Some(output.gas - cost)
  }

  /** The gas of the message, before the stipend: all but one 64th from Tangerine Whistle on. */
  function MessageGas(rev: Revision, gas: int, operand: Word): Option<int> {
    var requested := Signed64(Low64(operand));
    if Order(rev) >= Order(TangerineWhistle) then
      Some(if requested < gas - gas / 64 then requested else gas - gas / 64)
    else if requested > gas then None
    else Some(requested)
  }

  /** `call_impl` up to the call of the host. */
  function PrepareCall(rev: Revision, depth: nat, a: Answers, gas: int, memory: seq<byte>, stack: seq<Word>,
          op: byte): Prepared
    requires |stack| >= CallOperands(op)
  {
    match Surcharged(rev, a, gas, memory, stack, op)
    case None => Failed
    case Some(left) =>
      match MessageGas(rev, left, stack[|stack| - 1])
      case None => Failed
      case Some(m) =>
        var stipend := if HasValue(op, stack) then CALL_STIPEND else 0;
        if depth >= MAX_DEPTH || (HasValue(op, stack) && a.poor) || (op == OP_DELEGATECALL && a.refused) then
          Light(left + stipend)
        else Made(left + stipend, m + stipend)
  }

  /** The caller's gas once the callee has left `left` of the message's gas. */
  function AfterCall(p: Prepared, left: int): int
    requires p.Made?
  {
    p.gas - (p.message - left)
  }

  lemma TouchRangeGas(gas: int, memory: seq<byte>, offset: Word, size: Word)
    requires gas >= 0
    ensures var a := TouchRange(gas, memory, offset, size); a.gas <= gas && (a.ok ==> a.gas >= 0)
  {
    var newSize := Low64(offset) + Low64(size);
    if newSize > |memory| {
      RoundUp(newSize);
      WordsCostMonotone(|memory| / WORD_SIZE, NumWords(newSize));
    }
  }

  lemma SurchargeBounds(rev: Revision, a: Answers, gas: int, memory: seq<byte>, stack: seq<Word>, op: byte)
    requires gas >= 0 && |stack| >= CallOperands(op) && Surcharged(rev, a, gas, memory, stack, op).Some?
    ensures var left := Surcharged(rev, a, gas, memory, stack, op).value;
      0 <= left <= gas - (if HasValue(op, stack) then CALL_VALUE_COST else 0)
  {
    hide TouchRange;
    var n, k := |stack|, CallOperands(op);
    var warmed := gas - (if Order(rev) >= Order(Berlin) && a.cold then COLD_ACCOUNT_COST else 0);
    TouchRangeGas(warmed, memory, stack[n - k + 3], stack[n - k + 2]);
    var input := TouchRange(warmed, memory, stack[n - k + 3], stack[n - k + 2]);
    TouchRangeGas(input.gas, input.memory, stack[n - k + 1], stack[n - k]);
  }

  /**
   * One call, whatever the callee does: the caller keeps at least a 64th of what it had after the surcharges
   * (from Tangerine Whistle on), never gains, and the surcharge for value always covers the stipend.
   */
  lemma CallConserves(rev: Revision, depth: nat, a: Answers, gas: int, memory: seq<byte>, stack: seq<Word>,
          op: byte, left: int)
    requires gas >= 0 && |stack| >= CallOperands(op)
    requires Low64(stack[|stack| - 1]) < TWO_63
    ensures var p := PrepareCall(rev, depth, a, gas, memory, stack, op);
      var paid := if HasValue(op, stack) then CALL_VALUE_COST - CALL_STIPEND else 0;
      && (p.Light? ==> 0 <= p.gas <= gas - paid)
      && (p.Made? && 0 <= left <= p.message ==>
            && 0 <= AfterCall(p, left) <= gas - paid
            && (Order(rev) >= Order(TangerineWhistle) ==>
                  AfterCall(p, left) >= Surcharged(rev, a, gas, memory, stack, op).value / 64))
      && (p.Made? ==> p.message >= 0)
  {
    hide Surcharged, Low64;
    if Surcharged(rev, a, gas, memory, stack, op).Some? {
      SurchargeBounds(rev, a, gas, memory, stack, op);
    }
  }

  /**
   * The exact condition, with no assumption on the operand: a call never raises the caller's gas, for any
   * callee, if and only if the operand read as a signed number does not undercut the surcharges paid.
   */
  lemma CallConservesExactly(rev: Revision, depth: nat, a: Answers, gas: int, memory: seq<byte>,
          stack: seq<Word>, op: byte)
    requires gas >= 0 && |stack| >= CallOperands(op)
    requires PrepareCall(rev, depth, a, gas, memory, stack, op).Made?
    ensures var p := PrepareCall(rev, depth, a, gas, memory, stack, op);
      var paid := gas - Surcharged(rev, a, gas, memory, stack, op).value;
      (forall left: nat :: left <= p.message || left == 0 ==> AfterCall(p, left) <= gas)
      <==> Signed64(Low64(stack[|stack| - 1])) + paid >= 0
  {
    hide Surcharged, Low64;
    SurchargeBounds(rev, a, gas, memory, stack, op);
    var p := PrepareCall(rev, depth, a, gas, memory, stack, op);
    if forall left: nat :: left <= p.message || left == 0 ==> AfterCall(p, left) <= gas {
      var none: nat := 0;
      assert AfterCall(p, none) <= gas;
    }
  }

  /** Under that condition no call raises the caller's gas or takes it below zero, negative messages included. */
  lemma CoveredCall(rev: Revision, depth: nat, a: Answers, gas: int, memory: seq<byte>, stack: seq<Word>,
          op: byte, left: int)
    requires gas >= 0 && |stack| >= CallOperands(op)
    requires PrepareCall(rev, depth, a, gas, memory, stack, op).Made? ==>
      Signed64(Low64(stack[|stack| - 1])) + (gas - Surcharged(rev, a, gas, memory, stack, op).value) >= 0
    ensures var p := PrepareCall(rev, depth, a, gas, memory, stack, op);
      && (p.Light? ==> 0 <= p.gas <= gas)
      && (p.Made? && (if p.message >= 0 then 0 <= left <= p.message else left == 0 || left == p.message) ==>
            0 <= AfterCall(p, left) <= gas)
  {
    hide Surcharged, Low64;
    if Surcharged(rev, a, gas, memory, stack, op).Some? {
      SurchargeBounds(rev, a, gas, memory, stack, op);
    }
  }

  /** A gas operand of 2^64 - 5000 is read as -5000: a callee that fails then hands the caller 5000 gas. */
  lemma NegativeOperandMints(a: Answers)
    requires !a.cold && a.exists_
    ensures var stack: seq<Word> := [0, 0, 0, 0, 0, 0, TWO_64 - 5000];
      var p := PrepareCall(Shanghai, 0, a, 1000, [], stack, OP_CALL);
      p.Made? && AfterCall(p, 0) == 1000 + 5000
  {
  }

  // ---------------------------------------------------------------- the bill of a call

  /** What extending memory from one size to another costs. */
  function MemoryBill(before: seq<byte>, after: seq<byte>): int {
    WordsCost(WordsOf(after)) - WordsCost(WordsOf(before))
  }

  /** Memory once the input and output ranges of a call have been checked. */
  function MemoryAfterCall(gas: int, memory: seq<byte>, stack: seq<Word>, op: byte): seq<byte>
    requires |stack| >= CallOperands(op)
  {
    var n, k := |stack|, CallOperands(op);
    var input := TouchRange(gas, memory, stack[n - k + 3], stack[n - k + 2]);
    TouchRange(input.gas, input.memory, stack[n - k + 1], stack[n - k]).memory
  }

  /**
   * The surcharges, item by item: 2500 for a cold account from Berlin on, memory, 9000 for value, and 25000 for a
   * CALL that makes an account: one to nobody, with value or before Spurious Dragon.
   */
  lemma CallBill(rev: Revision, a: Answers, gas: int, memory: seq<byte>, stack: seq<Word>, op: byte)
    requires IsCall(op) && |stack| >= CallOperands(op) && |memory| % WORD_SIZE == 0
    requires Surcharged(rev, a, gas, memory, stack, op).Some?
    ensures var value := op in {OP_CALL, OP_CALLCODE} && stack[|stack| - 3] != 0;
      var cold := if a.cold && Order(rev) >= Order(Berlin) then 2500 else 0;
      && (value && op == OP_CALL ==> !a.isStatic)
      && gas - Surcharged(rev, a, gas, memory, stack, op).value ==
           cold + MemoryBill(memory, MemoryAfterCall(gas - cold, memory, stack, op)) + (if value then 9000 else 0)
           + if op == OP_CALL && !a.exists_ && (value || rev in {Frontier, Homestead, TangerineWhistle})
             then 25000 else 0
  {
    hide TouchRange, WordsCost, WordsOf;
    var n, k := |stack|, CallOperands(op);
    var warmed := gas - if Order(rev) >= Order(Berlin) && a.cold then COLD_ACCOUNT_COST else 0;
    RangeBill(warmed, memory, stack[n - k + 3], stack[n - k + 2]);
    var input := TouchRange(warmed, memory, stack[n - k + 3], stack[n - k + 2]);
    RangeBill(input.gas, input.memory, stack[n - k + 1], stack[n - k]);
  }

  lemma RangeBill(gas: int, memory: seq<byte>, offset: Word, size: Word)
    requires |memory| % WORD_SIZE == 0
    ensures var a := TouchRange(gas, memory, offset, size);
      |a.memory| % WORD_SIZE == 0 && (a.ok ==> gas - a.gas == MemoryBill(memory, a.memory))
  {
    hide Touch, WordsCost, WordsOf, Low64;
    if size != 0 { TouchCorrect(gas, memory, offset, Low64(size)); }
  }

  /** A call without input and output fails exactly for value in static mode, or if the gas does not cover the bill. */
  lemma CallAffordable(rev: Revision, a: Answers, gas: int, memory: seq<byte>, stack: seq<Word>, op: byte)
    requires IsCall(op) && |stack| >= CallOperands(op) && gas >= 0
    requires stack[|stack| - CallOperands(op)] == stack[|stack| - CallOperands(op) + 2] == 0
    ensures var value := op in {OP_CALL, OP_CALLCODE} && stack[|stack| - 3] != 0;
      Surcharged(rev, a, gas, memory, stack, op) == None <==>
        || (op == OP_CALL && value && a.isStatic)
        || gas < (if a.cold && Order(rev) >= Order(Berlin) then 2500 else 0) + (if value then 9000 else 0)
                 + if op == OP_CALL && !a.exists_ && (value || rev in {Frontier, Homestead, TangerineWhistle})
                   then 25000 else 0
  {
  }

  /**
   * The message gets what the operand asks for, but from Tangerine Whistle on at most all except one 64th, rounded
   * down, of the rest; with value both sides get a stipend of 2300.
   */
  lemma MessageExact(rev: Revision, depth: nat, a: Answers, gas: int, memory: seq<byte>, stack: seq<Word>, op: byte)
    requires |stack| >= CallOperands(op) && Surcharged(rev, a, gas, memory, stack, op).Some?
    ensures var p := PrepareCall(rev, depth, a, gas, memory, stack, op);
      var rest, asked := Surcharged(rev, a, gas, memory, stack, op).value, Signed64(Low64(stack[|stack| - 1]));
      var stipend, most := if HasValue(op, stack) then 2300 else 0, rest - rest / 64;
      && (p.Failed? <==> Order(rev) < Order(TangerineWhistle) && asked > rest)
      && (p.Light? <==>
            && !p.Failed?
            && (depth >= 1024 || (HasValue(op, stack) && a.poor) || (op == OP_DELEGATECALL && a.refused)))
      && (p.Light? ==> p.gas == rest + stipend)
      && (p.Made? ==>
            && p.gas == rest + stipend
            && p.message - stipend == if Order(rev) >= Order(TangerineWhistle) && asked > most then most else asked)
  {
    hide Surcharged, Low64, Signed64;
  }

  // ---------------------------------------------------------------- contract creation

  function CreateOperands(op: byte): nat {
    if op == OP_CREATE2 then 4 else 3
  }

  /** `create_impl` up to the call of the host. */
  function PrepareCreate(rev: Revision, depth: nat, a: Answers, gas: int, memory: seq<byte>, stack: seq<Word>,
          op: byte): Prepared
    requires |stack| >= CreateOperands(op)
  {
    var n := |stack|;
    if a.isStatic then Failed
    else
      var code := TouchRange(gas, memory, stack[n - 2], stack[n - 3]);
      var size := Low64(stack[n - 3]);
      if !code.ok then Failed
      else if Order(rev) >= Order(Shanghai) && size > MAX_INIT_CODE then Failed
      else
        var perWord := (if op == OP_CREATE2 then 6 else 0) + (if Order(rev) >= Order(Shanghai) then 2 else 0);
        var left := code.gas - NumWords(size) * perWord;
        if left < 0 then Failed
        else if depth >= MAX_DEPTH || (stack[n - 1] != 0 && a.poor) then Light(left)
        else Made(left, if Order(rev) >= Order(TangerineWhistle) then left - left / 64 else left)
  }

  lemma CreateConserves(rev: Revision, depth: nat, a: Answers, gas: int, memory: seq<byte>, stack: seq<Word>,
          op: byte, left: int)
    requires gas >= 0 && |stack| >= CreateOperands(op)
    ensures var p := PrepareCreate(rev, depth, a, gas, memory, stack, op);
      && (p.Light? ==> 0 <= p.gas <= gas)
      && (p.Made? ==> 0 <= p.message <= p.gas)
      && (p.Made? && 0 <= left <= p.message ==>
            && 0 <= AfterCall(p, left) <= gas
            && (Order(rev) >= Order(TangerineWhistle) ==> AfterCall(p, left) >= p.gas / 64))
  {
    hide TouchRange, NumWords, Low64;
    var n := |stack|;
    TouchRangeGas(gas, memory, stack[n - 2], stack[n - 3]);
  }

  /**
   * Creation pays for memory and, by the word, 6 for hashing in CREATE2 and 2 for the init code limit of 49152 bytes
   * from Shanghai on; from Tangerine Whistle on the message gets all but one 64th.
   */
  lemma CreateBill(rev: Revision, depth: nat, a: Answers, gas: int, memory: seq<byte>, stack: seq<Word>, op: byte)
    requires IsCreate(op) && |stack| >= CreateOperands(op) && |memory| % WORD_SIZE == 0
    ensures var p, n := PrepareCreate(rev, depth, a, gas, memory, stack, op), |stack|;
      var size, code := Low64(stack[n - 3]), TouchRange(gas, memory, stack[n - 2], stack[n - 3]);
      var price := (if op == OP_CREATE2 then 6 else 0) + if Order(rev) >= Order(Shanghai) then 2 else 0;
      var rest := gas - MemoryBill(memory, code.memory) - NumWords(size) * price;
      && (p.Failed? <==>
            a.isStatic || !code.ok || (Order(rev) >= Order(Shanghai) && size > 49152) || rest < 0)
      && (!p.Failed? ==>
            && p.gas == rest && (p.Light? <==> depth >= 1024 || (stack[n - 1] != 0 && a.poor))
            && (p.Made? ==> p.message == if Order(rev) >= Order(TangerineWhistle) then rest - rest / 64 else rest))
  {
    hide TouchRange, NumWords, Low64, WordsCost, WordsOf;
    RangeBill(gas, memory, stack[|stack| - 2], stack[|stack| - 3]);
  }

  // ---------------------------------------------------------------- call trees

  /** One execution: a run of the interpreter, with the nested executions its call steps started. */
  datatype Frame = Frame(env: Env, depth: nat, gas: int, choices: nat -> Choice, steps: nat, calls: seq<NestedCall>)

  datatype NestedCall = NestedCall(step: nat, answers: Answers, callee: Callee)

  /** The host runs the callee's code, finds none and returns all gas, or refuses and returns none. */
  datatype Callee = NoCode | Refused | Executed(frame: Frame)

  function StartOf(f: Frame): State {
    Start(f.env, f.gas)
  }

  /** `evaluate`: gas is returned on success and revert only. */
  ghost function GasLeft(f: Frame): int {
    match Run(f.env, f.choices, StartOf(f), f.steps)
    case Halt(status, s, _) => if status == Success || status == Revert then s.gas else 0
    case _ => 0
  }

  /** A run that halts in success or revert gives back exactly its gas counter, any other outcome nothing. */
  lemma ReturnedGas(f: Frame)
    ensures var o := Run(f.env, f.choices, StartOf(f), f.steps);
      && (o.Halt? && (o.status == Success || o.status == Revert) ==> GasLeft(f) == o.s.gas)
      && (!(o.Halt? && (o.status == Success || o.status == Revert)) ==> GasLeft(f) == 0)
  {
    hide Run;
  }

  ghost function CalleeGas(c: Callee, message: int): int {
    match c
    case NoCode => message
    case Refused => 0
    case Executed(f) => GasLeft(f)
  }

  predicate IsNested(op: byte) {
    IsCall(op) || IsCreate(op)
  }

  function Operands(op: byte): nat {
    if IsCall(op) then CallOperands(op) else CreateOperands(op)
  }

  function Prepare(env: Env, depth: nat, a: Answers, t: State, op: byte): Prepared
    requires |t.stack| >= Operands(op)
  {
    if IsCall(op) then PrepareCall(env.rev, depth, a, t.gas, t.memory, t.stack, op)
    else PrepareCreate(env.rev, depth, a, t.gas, t.memory, t.stack, op)
  }

  /** Step k of the frame gets past the requirements check. */
  ghost predicate Passes(f: Frame, k: nat) {
    Run(f.env, f.choices, StartOf(f), k).Next? &&
    var s := Run(f.env, f.choices, StartOf(f), k).s;
    0 <= s.pc < |f.env.code| && CheckRequirements(f.env, s.gas, |s.stack|, f.env.code[s.pc]).0 == None
  }

  ghost function OpAt(f: Frame, k: nat): byte
    requires Passes(f, k)
  {
    f.env.code[Run(f.env, f.choices, StartOf(f), k).s.pc]
  }

  /** The state in which the instruction of step k executes: the base cost is paid. */
  ghost function ExecutesIn(f: Frame, k: nat): State
    requires Passes(f, k)
  {
    var s := Run(f.env, f.choices, StartOf(f), k).s;
    s.(gas := CheckRequirements(f.env, s.gas, |s.stack|, OpAt(f, k)).1)
  }

  /** The outside world's contribution ch to a call in state t is what the nested execution c came to. */
  ghost predicate Accounted(env: Env, depth: nat, t: State, op: byte, ch: Choice, c: NestedCall) {
    |t.stack| >= Operands(op) &&
    match Prepare(env, depth, c.answers, t, op)
    case Failed => (ch.failure || ch.cost > t.gas) && !c.callee.Executed?
    case Light(g) => !ch.failure && t.gas - ch.cost == g && !c.callee.Executed?
    case Made(g, m) =>
      && !ch.failure && t.gas - ch.cost == g - (m - CalleeGas(c.callee, m))
      && (c.callee.Executed? ==> c.callee.frame.gas == m && c.callee.frame.depth == depth + 1)
  }

  ghost predicate CallAt(f: Frame, c: NestedCall) {
    && c.step < f.steps && Passes(f, c.step) && IsNested(OpAt(f, c.step))
    && Accounted(f.env, f.depth, ExecutesIn(f, c.step), OpAt(f, c.step), f.choices(c.step), c)
  }

  ghost predicate StepAccounted(f: Frame, k: nat)
    requires Passes(f, k)
  {
    if IsNested(OpAt(f, k)) then exists j :: 0 <= j < |f.calls| && f.calls[j].step == k
    else f.choices(k).cost >= 0
  }

  /** Wherever step k of the frame finds itself, it can fetch a whole instruction. */
  ghost predicate Fetches(f: Frame, k: nat) {
    Run(f.env, f.choices, StartOf(f), k).Next? ==>
      var t := Run(f.env, f.choices, StartOf(f), k).s;
      0 <= t.pc < |f.env.code| && ImmediateInside(f.env, t, f.env.code[t.pc])
  }

  /** A whole execution: its nested calls are exactly the ones its steps made, and are themselves consistent. */
  ghost predicate Consistent(f: Frame)
    decreases f
  {
    && (forall k: nat :: Fetches(f, k))
    && (forall k: nat :: k < f.steps && Passes(f, k) ==> StepAccounted(f, k))
    && (forall j :: 0 <= j < |f.calls| ==> CallAt(f, f.calls[j]))
    && (forall j :: 0 <= j < |f.calls| && f.calls[j].callee.Executed? ==> Consistent(f.calls[j].callee.frame))
  }

  /**
   * The gas operand of a call in state t, read as a signed number, undercuts zero by no more than the surcharges
   * that were paid.
   */
  predicate OperandCovered(env: Env, depth: nat, t: State, op: byte, a: Answers) {
    IsCall(op) && |t.stack| >= Operands(op) && Prepare(env, depth, a, t, op).Made? ==>
      var paid := t.gas - Surcharged(env.rev, a, t.gas, t.memory, t.stack, op).value;
      Signed64(Low64(t.stack[|t.stack| - 1])) + paid >= 0
  }

  /** Every CALL of the tree has such an operand. */
  ghost predicate CallsCovered(f: Frame)
    decreases f
  {
    && (forall j :: 0 <= j < |f.calls| ==> CallCovered(f, f.calls[j]))
    && (forall j :: 0 <= j < |f.calls| && f.calls[j].callee.Executed? ==> CallsCovered(f.calls[j].callee.frame))
  }

  ghost predicate CallCovered(f: Frame, c: NestedCall) {
    Passes(f, c.step) && IsCall(OpAt(f, c.step)) ==>
      OperandCovered(f.env, f.depth, ExecutesIn(f, c.step), OpAt(f, c.step), c.answers)
  }

  /**
   * The caller's side: when the execution that a call started halts in success or revert, the caller goes on with
   * its prepared gas less exactly what that execution spent; when it ends otherwise, less the whole message.
   */
  lemma CalleePaidFor(f: Frame, c: NestedCall)
    requires CallAt(f, c) && c.callee.Executed? && IsNested(OpAt(f, c.step))
    requires |ExecutesIn(f, c.step).stack| >= Operands(OpAt(f, c.step))
    requires var p := Prepare(f.env, f.depth, c.answers, ExecutesIn(f, c.step), OpAt(f, c.step));
      p.Made? && p.gas - p.message >= 0 && GasLeft(c.callee.frame) >= 0
    ensures var g, t, op := c.callee.frame, ExecutesIn(f, c.step), OpAt(f, c.step);
      var p, o := Prepare(f.env, f.depth, c.answers, t, op), Run(g.env, g.choices, StartOf(g), g.steps);
      var after := Exec(f.env, f.choices(c.step), t, op);
      && g.gas == p.message && after.Next?
      && after.s.gas == if o.Halt? && (o.status == Success || o.status == Revert) then p.gas - (g.gas - o.s.gas)
                        else p.gas - g.gas
  {
    hide Run, Passes, OpAt, ExecutesIn, Prepare, IsNested, KindOf, TraitsOf, Exec;
    var g, t, op := c.callee.frame, ExecutesIn(f, c.step), OpAt(f, c.step);
    ReturnedGas(g);
    NestedIsExternal(op);
    TraitsMatchImplementation(op);
    NestedOperands(op);
    ExecAccess(f.env, f.choices(c.step), t, op);
  }

  lemma NestedOperands(op: byte)
    requires IsNested(op)
    ensures TraitsOf(op).stackHeightRequired == Operands(op)
  {
  }

  // ---------------------------------------------------------------- conservation over the tree

  /** Gas given back is between none and all; an execution entered with a negative amount gives none back. */
  ghost predicate Conserves(f: Frame) {
    if f.gas >= 0 then 0 <= GasLeft(f) <= f.gas else GasLeft(f) == 0
  }

  ghost predicate CalleesConserve(f: Frame) {
    forall j :: 0 <= j < |f.calls| && f.calls[j].callee.Executed? ==> Conserves(f.calls[j].callee.frame)
  }

  /** A call that the outside world accounts for costs the caller something, if it continues at all. */
  lemma NestedCost(env: Env, depth: nat, t: State, op: byte, ch: Choice, c: NestedCall)
    requires IsNested(op) && t.gas >= 0 && Accounted(env, depth, t, op, ch, c)
    requires IsCall(op) ==> OperandCovered(env, depth, t, op, c.answers)
    requires c.callee.Executed? ==> Conserves(c.callee.frame)
    ensures ch.failure || ch.cost >= 0
  {
    hide PrepareCall, PrepareCreate, GasLeft, Low64, Surcharged, Signed64;
    var p := Prepare(env, depth, c.answers, t, op);
    var left := if p.Made? then CalleeGas(c.callee, p.message) else 0;
    if IsCall(op) {
      CoveredCall(env.rev, depth, c.answers, t.gas, t.memory, t.stack, op, left);
    } else {
      CreateConserves(env.rev, depth, c.answers, t.gas, t.memory, t.stack, op, left);
    }
  }

  lemma ChoiceCost(f: Frame, k: nat)
    requires Consistent(f) && CallsCovered(f) && CalleesConserve(f) && k < f.steps && Passes(f, k)
    ensures (f.choices(k).failure && IsNested(OpAt(f, k))) || f.choices(k).cost >= 0
  {
    hide Run, Accounted, CheckRequirements, Fetches, OperandCovered, Conserves;
    assert StepAccounted(f, k);
    if IsNested(OpAt(f, k)) {
      var j :| 0 <= j < |f.calls| && f.calls[j].step == k;
      assert CallAt(f, f.calls[j]) && CallCovered(f, f.calls[j]);
      PaidGas(f, k);
      NestedCost(f.env, f.depth, ExecutesIn(f, k), OpAt(f, k), f.choices(k), f.calls[j]);
    }
  }

  lemma PaidGas(f: Frame, k: nat)
    requires Passes(f, k)
    ensures ExecutesIn(f, k).gas >= 0
  {
    hide Run, TraitsOf, BaseCost;
  }

  lemma NestedIsExternal(op: byte)
    requires IsNested(op)
    ensures KindOf(op).KExternal?
  {
  }

  /** A step that continues, or ends in success or revert, leaves gas between 0 and what there was. */
  ghost predicate GasWithin(o: Outcome, gas: int) {
    match o
    case Next(s) => 0 <= s.gas <= gas
    case Halt(status, s, _) => status == Success || status == Revert ==> 0 <= s.gas <= gas
    case Fault => true
  }

  lemma AccessHaltGas(env: Env, ch: Choice, s: State, op: byte)
    requires |s.stack| >= TraitsOf(op).stackHeightRequired && s.gas >= 0 && ch.cost >= 0
    requires var k := KindOf(op); k.KMLoad? || k.KMStore? || k.KReturn? || k.KExternal? || k.KSelfdestruct?
    requires Exec(env, ch, s, op).Halt?
    ensures GasWithin(Exec(env, ch, s, op), s.gas)
  {
    hide KindOf, TraitsOf, Exec, Low64, TouchRange, Touch;
    TraitsMatchImplementation(op);
    ExecAccess(env, ch, s, op);
    if KindOf(op).KReturn? {
      TouchRangeGas(s.gas, s.memory, s.stack[|s.stack| - 1], s.stack[|s.stack| - 2]);
    }
  }

  /** Jumps and frames never halt in success or revert. */
  lemma ControlHaltGas(env: Env, ch: Choice, s: State, op: byte)
    requires |s.stack| >= TraitsOf(op).stackHeightRequired && IsControl(KindOf(op))
    requires Exec(env, ch, s, op).Halt?
    ensures GasWithin(Exec(env, ch, s, op), s.gas)
  {
    hide KindOf, TraitsOf, Exec, U16, I16, Low64, SectionOperand, SectionEntry, CalleeRoom;
    TraitsMatchImplementation(op);
    ExecControl(env, ch, s, op);
  }

  /** Of the others only STOP halts in success. */
  lemma OtherHaltGas(env: Env, ch: Choice, s: State, op: byte)
    requires |s.stack| >= TraitsOf(op).stackHeightRequired && s.gas >= 0
    requires var k := KindOf(op);
      !IsControl(k) && !(k.KMLoad? || k.KMStore? || k.KReturn? || k.KExternal? || k.KSelfdestruct?)
    requires Exec(env, ch, s, op).Halt?
    ensures GasWithin(Exec(env, ch, s, op), s.gas)
  {
    hide KindOf, TraitsOf, Exec, ExecPush, ExecDupAt, ExecSwapAt, ExecDup, ExecSwap, ExecDataLoadN;
    hide ExecBinary, ExecAddMod, ExecMulMod, ExecUnary;
    TraitsMatchImplementation(op);
    ExecHalting(env, ch, s, op);
    ExecStackMove(env, ch, s, op);
    ExecArithmetic(env, ch, s, op);
    NeverHalt(env, ch, s, op);
  }

  lemma NeverHalt(env: Env, ch: Choice, s: State, op: byte)
    ensures |s.stack| >= 1 ==>
      !ExecUnary(env, ch, s, op).Halt? && !ExecDupAt(env, ch, s).Halt? && !ExecSwapAt(env, s).Halt?
    ensures |s.stack| >= 2 ==> !ExecBinary(env, ch, s, op).Halt?
    ensures |s.stack| >= 3 ==> !ExecAddMod(env, s).Halt? && !ExecMulMod(env, s).Halt?
    ensures forall len :: 0 <= len <= 32 ==> !ExecPush(env, ch, s, len).Halt?
    ensures forall n :: 1 <= n <= |s.stack| ==> !ExecDup(env, s, n).Halt?
    ensures forall n :: 1 <= n < |s.stack| ==> !ExecSwap(env, s, n).Halt?
    ensures !ExecDataLoadN(env, s).Halt?
  {
    hide Low64, Alu, Unary, AddMod, MulMod, Swapped, WriteTop, WordFromBytes, U16;
  }

  lemma HaltGas(env: Env, ch: Choice, s: State, op: byte)
    requires |s.stack| >= TraitsOf(op).stackHeightRequired && s.gas >= 0
    requires ch.cost >= 0 && Exec(env, ch, s, op).Halt?
    ensures GasWithin(Exec(env, ch, s, op), s.gas)
  {
    hide KindOf, TraitsOf, Exec, GasWithin;
    var k := KindOf(op);
    if IsControl(k) {
      ControlHaltGas(env, ch, s, op);
    } else if k.KMLoad? || k.KMStore? || k.KReturn? || k.KExternal? || k.KSelfdestruct? {
      AccessHaltGas(env, ch, s, op);
    } else {
      OtherHaltGas(env, ch, s, op);
    }
  }

  lemma FailureHalts(env: Env, ch: Choice, s: State, op: byte)
    requires |s.stack| >= TraitsOf(op).stackHeightRequired && ch.failure && IsNested(op)
    ensures var o := Exec(env, ch, s, op); o.Halt? && o.status != Success && o.status != Revert
  {
    hide TraitsOf, KindOf, Exec, Fit;
    NestedIsExternal(op);
    TraitsMatchImplementation(op);
    ExecAccess(env, ch, s, op);
  }

  lemma StepGas(env: Env, ch: Choice, s: State)
    requires 0 <= s.pc < |env.code| && ImmediateInside(env, s, env.code[s.pc])
    requires s.gas >= 0
    requires CheckRequirements(env, s.gas, |s.stack|, env.code[s.pc]).0 == None ==>
      ch.cost >= 0 || (ch.failure && IsNested(env.code[s.pc]))
    ensures GasWithin(Step(env, ch, s), s.gas)
  {
    hide Exec, TraitsOf, KindOf, CheckRequirements, ImmediateInside, BaseCost;
    var op := env.code[s.pc];
    var (failed, gas) := CheckRequirements(env, s.gas, |s.stack|, op);
    if failed.Some? {
      CheckStatus(env, s.gas, |s.stack|, op);
    } else {
      CheckPassed(env, s.gas, |s.stack|, op);
      var charged := s.(gas := gas);
      if ch.cost < 0 {
        FailureHalts(env, ch, charged, op);
      } else if Exec(env, ch, charged, op).Next? {
        StepProgresses(env, ch, s);
        ProgressGas(s, Exec(env, ch, charged, op).s, env.code[s.pc]);
      } else if Exec(env, ch, charged, op).Halt? {
        HaltGas(env, ch, charged, op);
        HaltCharge(env, ch, s.gas, charged, op);
      }
    }
  }

  lemma ProgressGas(s: State, s': State, op: byte)
    requires Progresses(s, s')
    ensures 0 <= s'.gas <= s.gas
  {
  }

  /** A negative base charge belongs to an unimplemented opcode, which halts in neither success nor revert. */
  lemma HaltCharge(env: Env, ch: Choice, gas: int, charged: State, op: byte)
    requires CheckRequirements(env, gas, |charged.stack|, op) == (None, charged.gas)
    requires |charged.stack| >= TraitsOf(op).stackHeightRequired
    requires Exec(env, ch, charged, op).Halt? && GasWithin(Exec(env, ch, charged, op), charged.gas)
    ensures GasWithin(Exec(env, ch, charged, op), gas)
  {
    hide TraitsOf, BaseCost;
    if KindOf(op) == KUnimplemented {
      UnimplementedHalts(env, ch, charged, op);
    } else {
      ImplementedCost(env, gas, |charged.stack|, op);
      CheckPassed(env, gas, |charged.stack|, op);
    }
  }

  lemma UnimplementedHalts(env: Env, ch: Choice, s: State, op: byte)
    requires |s.stack| >= TraitsOf(op).stackHeightRequired && KindOf(op) == KUnimplemented
    ensures Exec(env, ch, s, op) == Halt(UndefinedOpcode, s, false)
  {
    hide TraitsOf, KindOf, Exec;
    TraitsMatchImplementation(op);
    ExecHalting(env, ch, s, op);
  }

  lemma CheckStatus(env: Env, gas: int, height: nat, op: byte)
    ensures CheckRequirements(env, gas, height, op).0 != Some(Success)
    ensures CheckRequirements(env, gas, height, op).0 != Some(Revert)
  {
    hide TraitsOf, BaseCost, HasConstGasCost;
  }

  lemma {:induction false} RunGas(f: Frame, n: nat)
    requires Consistent(f) && CallsCovered(f) && CalleesConserve(f) && f.gas >= 0 && n <= f.steps
    ensures GasWithin(Run(f.env, f.choices, StartOf(f), n), f.gas)
    decreases n
  {
    hide Step, ImmediateInside, CalleesConserve, CallsCovered, StepAccounted, CallAt, CheckRequirements;
    if n > 0 {
      RunGas(f, n - 1);
      if Run(f.env, f.choices, StartOf(f), n - 1).Next? {
        var s := Run(f.env, f.choices, StartOf(f), n - 1).s;
        assert Fetches(f, n - 1);
        if Passes(f, n - 1) { ChoiceCost(f, n - 1); }
        StepGas(f.env, f.choices(n - 1), s);
      }
    }
  }

  /**
   * Gas conservation: whatever the code of the frames and whatever the host answers, an execution returns
   * between 0 and all of the gas it was given, if no gas operand undercuts zero by more than the surcharges.
   */
  lemma GasConserved(f: Frame)
    requires Consistent(f) && CallsCovered(f)
    ensures Conserves(f)
    decreases f
  {
    hide Run, CallAt, StepAccounted, Fetches, CallCovered;
    if f.gas >= 0 {
      forall j | 0 <= j < |f.calls| && f.calls[j].callee.Executed?
        ensures Conserves(f.calls[j].callee.frame)
      {
        GasConserved(f.calls[j].callee.frame);
      }
      RunGas(f, f.steps);
    } else {
      NegativeReturnsNone(f);
    }
  }

  lemma NegativeReturnsNone(f: Frame)
    requires f.gas < 0 && Fetches(f, 0)
    ensures GasLeft(f) == 0
  {
    hide Step, ImmediateInside;
    if f.steps > 0 {
      assert Run(f.env, f.choices, StartOf(f), 0) == Next(StartOf(f));
      NegativeGasFails(f);
    }
  }

  // ---------------------------------------------------------------- call depth

  ghost predicate DepthsBounded(f: Frame)
    decreases f
  {
    && f.depth <= MAX_DEPTH
    && forall j :: 0 <= j < |f.calls| && f.calls[j].callee.Executed? ==> DepthsBounded(f.calls[j].callee.frame)
  }

  /** The third component of the termination measure: no frame of the tree lies deeper than 1024. */
  lemma {:induction false} DepthBounded(f: Frame)
    requires Consistent(f) && f.depth <= MAX_DEPTH
    ensures DepthsBounded(f)
    decreases f
  {
    hide Run, StepAccounted, Fetches;
    forall j | 0 <= j < |f.calls| && f.calls[j].callee.Executed?
      ensures DepthsBounded(f.calls[j].callee.frame)
    {
      assert CallAt(f, f.calls[j]);
      var k := f.calls[j].step;
      ExecutedDepth(f.env, f.depth, ExecutesIn(f, k), OpAt(f, k), f.choices(k), f.calls[j]);
      DepthBounded(f.calls[j].callee.frame);
    }
  }

  lemma ExecutedDepth(env: Env, depth: nat, t: State, op: byte, ch: Choice, c: NestedCall)
    requires Accounted(env, depth, t, op, ch, c) && c.callee.Executed?
    ensures c.callee.frame.depth == depth + 1 <= MAX_DEPTH
  {
    hide Surcharged, MessageGas, TouchRange, GasLeft;
  }

  // ---------------------------------------------------------------- frames of legacy code

  /** Nested code always runs at the latest stable revision. */
  function LegacyFrame(code: seq<byte>, depth: nat, gas: int, choices: nat -> Choice, steps: nat): Frame {
    Frame(LegacyEnv(Shanghai, 0, code), depth, gas, choices, steps, [])
  }

  /** Runs of legacy code always find an instruction to fetch. */
  lemma LegacyFrameFetches(f: Frame, code: seq<byte>, k: nat)
    requires f.env == LegacyEnv(Shanghai, 0, code)
    ensures Fetches(f, k)
  {
    hide Run, ImmediateInside, FreeOfIndexed, NeverSkips, LegacyInv;
    LegacyRunSafe(Shanghai, 0, code, f.choices, StartOf(f), k);
    if Run(f.env, f.choices, StartOf(f), k).Next? {
      FetchInside(f.env, code, Run(f.env, f.choices, StartOf(f), k).s);
    }
  }

  /** Every run of legacy code without nested calls is a consistent frame. */
  lemma LeafConsistent(code: seq<byte>, depth: nat, gas: int, choices: nat -> Choice, steps: nat)
    requires forall k :: choices(k).cost >= 0
    requires forall i :: 0 <= i < |code| && LegacyStart(code, i) ==> !IsNested(code[i])
    ensures Consistent(LegacyFrame(code, depth, gas, choices, steps))
    ensures CallsCovered(LegacyFrame(code, depth, gas, choices, steps))
  {
    hide Run, Fetches, LegacyStart, CheckRequirements, IsNested;
    var f := LegacyFrame(code, depth, gas, choices, steps);
    forall k: nat ensures Fetches(f, k) {
      LegacyFrameFetches(f, code, k);
    }
    forall k: nat | k < f.steps && Passes(f, k)
      ensures !IsNested(OpAt(f, k))
    {
      LegacyFetches(Shanghai, code, choices, StartOf(f), k);
      StopNotNested();
    }
  }

  lemma StopNotNested()
    ensures !IsNested(OP_STOP)
  {
  }

  /** A frame entered with negative gas returns none, and fails. */
  lemma {:induction false} NegativeGasFails(f: Frame)
    requires f.gas < 0 && f.steps > 0 && f.env.origin < |f.env.code|
    ensures Run(f.env, f.choices, StartOf(f), f.steps).Halt? && GasLeft(f) == 0
  {
    hide Step;
    FirstStepFails(f.env, f.choices(0), StartOf(f));
    HaltsFrom(f, f.steps);
  }

  lemma {:induction false} HaltsFrom(f: Frame, n: nat)
    requires n > 0 && Step(f.env, f.choices(0), StartOf(f)).Halt?
    ensures Run(f.env, f.choices, StartOf(f), n) == Step(f.env, f.choices(0), StartOf(f))
  {
    hide Step;
    if n > 1 {
      HaltsFrom(f, n - 1);
    } else {
      assert Run(f.env, f.choices, StartOf(f), 0) == Next(StartOf(f));
    }
  }

  lemma FirstStepFails(env: Env, ch: Choice, s: State)
    requires s.gas < 0 && 0 <= s.pc < |env.code|
    ensures var o := Step(env, ch, s); o.Halt? && o.status != Success && o.status != Revert
  {
    hide TraitsOf, KindOf, Exec, BaseCost, HasConstGasCost;
    var op := env.code[s.pc];
    var (failed, gas) := CheckRequirements(env, s.gas, |s.stack|, op);
    if failed == None {
      CheckPassed(env, s.gas, |s.stack|, op);
      if KindOf(op) != KUnimplemented { ImplementedCost(env, s.gas, |s.stack|, op); }
      UnimplementedHalts(env, ch, s.(gas := gas), op);
    } else {
      CheckStatus(env, s.gas, |s.stack|, op);
    }
  }

  /** `evaluate` for legacy code: analyse, dispatch, and give gas back on success and revert only. */
  method Evaluate(code: seq<byte>, gas: int, choices: nat -> Choice) returns (status: Status, gasLeft: int)
    requires WholeMemory(choices)
    requires Halts(LegacyEnv(Shanghai, 0, code), choices, Start(LegacyEnv(Shanghai, 0, code), gas))
    ensures exists n: nat, final: State ::
      && StopsWith(LegacyEnv(Shanghai, 0, code), choices, Start(LegacyEnv(Shanghai, 0, code), gas), n, status, final)
      && gasLeft == if status == Success || status == Revert then final.gas else 0
    ensures exists n: nat :: Returns(LegacyFrame(code, 0, gas, choices, n), gasLeft)
  {
    hide WholeMemory, Halts, Run;
    var left, trace;
    status, left, trace := ExecuteLegacy(Shanghai, 0, code, gas, choices);
    gasLeft := if status == Success || status == Revert then left else 0;
    ghost var env := LegacyEnv(Shanghai, 0, code);
    ghost var n: nat, final: State :| StopsWith(env, choices, Start(env, gas), n, status, final) && final.gas == left;
    assert Returns(LegacyFrame(code, 0, gas, choices, n), gasLeft);
  }

  /** The execution has halted and gives back so much gas. */
  ghost predicate Returns(f: Frame, gasLeft: int) {
    Run(f.env, f.choices, StartOf(f), f.steps).Halt? && GasLeft(f) == gasLeft
  }
}
