/**
 * Small programs that validation, the interpreter and the gas rules must take: a call with an item below its
 * arguments, a conditional jump that is not taken, and an execution that reverts.
 */
module Samples {
  import opened Bytes
  import opened Opcodes
  import opened EofInstructions
  import opened EofHeader
  import opened EofStackHeight
  import opened EofValidation
  import opened MemoryGas
  import opened Interpreter
  import opened Accesses
  import opened Effects
  import EofSoundness
  import opened EofContainer
  import opened LegacyCode
  import opened Limits
  import opened CallGas

  // ---------------------------------------------------------------- a call above an item

  /** Section 0 is PUSH0, CALLF 1 and STOP, section 1 is RETF. */
  const CALLING: seq<byte> :=
    [0xef, 0x00, 0x01, 0x01, 0x00, 0x08, 0x02, 0x00, 0x02, 0x00, 0x05, 0x00, 0x01, 0x04, 0x00, 0x00, 0x00,
     0x00, 0x80, 0x00, 0x01, 0x00, 0x00, 0x00, 0x00, OP_PUSH0, OP_CALLF, 0x00, 0x01, OP_STOP, OP_RETF]

  const CALLING_HEADERS := Headers(8, [5, 1], 0)

  const CALLING_TYPES := [EofCodeType(0, NON_RETURNING, 1), EofCodeType(0, 0, 0)]

  const CALLER := Section([OP_PUSH0, OP_CALLF, 0x00, 0x01, OP_STOP], 0, CALLING_TYPES, 0)

  const CALLEE := Section([OP_RETF], 1, CALLING_TYPES, 0)

  lemma CallingSizes()
    ensures ParseSizes(CALLING, 9, 2) == Ok([5, 1]) && Sum([5, 1]) == 6 && Sum([5]) == 5
  {
    var c := CALLING;
    assert ParseSizes(c, 13, 0) == Ok([]);
    assert U16(c, 9) == 5 && U16(c, 11) == 1;
    var none: seq<nat> := [];
    assert [U16(c, 11)] + none == [1];
    assert ParseSizes(c, 11, 1) == Ok([1]);
    assert [U16(c, 9)] + [1] == [5, 1];
    assert [5, 1][1..] == [1] && [1][1..] == none && [5][1..] == none;
    assert Sum(none) == 0 && Sum([1]) == 1;
  }

  lemma CallingHeader()
    ensures ParseHeaders(CALLING) == Ok(CALLING_HEADERS)
  {
    hide ParseSizes, Sum;
    CallingSizes();
    var c := CALLING;
    assert c[3] == TYPE_SECTION && U16(c, 4) == 8 && c[6] == CODE_SECTION && U16(c, 7) == 2;
    assert c[13] == DATA_SECTION && U16(c, 14) == 0 && c[16] == TERMINATOR;
  }

  lemma CallingParsed()
    ensures Parsed(CALLING, CALLING_HEADERS)
    ensures SectionOf(CALLING, CALLING_HEADERS, 0) == CALLER && SectionOf(CALLING, CALLING_HEADERS, 1) == CALLEE
    ensures HeaderOf(CALLING, CALLING_HEADERS).types == CALLING_TYPES
    ensures HeaderOf(CALLING, CALLING_HEADERS).codeOffsets == [25, 30]
  {
    hide ParseHeaders, Sum;
    CallingHeader();
    CallingSizes();
    var c, h := CALLING, CALLING_HEADERS;
    assert h.codeSizes[..0] == [] && h.codeSizes[..1] == [5];
    NothingAdds();
    assert StoredOffsets(h) == [25, 30];
    assert ReadType(c, 17) == EofCodeType(0, NON_RETURNING, 1) && ReadType(c, 21) == EofCodeType(0, 0, 0);
    assert TypesAt(c, 17, 2) == CALLING_TYPES;
    assert c[25..30] == CALLER.code && c[30..31] == CALLEE.code;
  }

  lemma NothingAdds()
    ensures Sum([]) == 0
  {
  }

  lemma CallingStarts(k: nat)
    ensures IsStart(CALLER.code, k) <==> k == 0 || k == 1 || k == 4
    ensures IsStart(CALLEE.code, k) <==> k == 0
  {
    var code := CALLER.code;
    assert NextInstr(code, 0) == 1 && NextInstr(code, 1) == 4 && NextInstr(code, 4) == 5;
    assert DecodesTo(code, 4, k) <==> k == 4 || k == 5;
    assert DecodesTo(code, 1, k) <==> k == 1 || k == 4 || k == 5;
    assert NextInstr(CALLEE.code, 0) == 1;
  }

  lemma CallingCosts()
    ensures CostTable(Prague, true, OP_PUSH0) >= 0 && CostTable(Prague, true, OP_STOP) >= 0
    ensures CostTable(Prague, true, OP_CALLF) >= 0 && CostTable(Prague, true, OP_RETF) >= 0
  {
    hide GasCost;
    forall r ensures Override(r, OP_STOP) == None {}
    NeverOverridden(Prague, OP_STOP);
    PragueOnly(Prague, OP_CALLF);
    PragueOnly(Prague, OP_RETF);
    PushZeroCost();
  }

  lemma PushZeroCost()
    ensures GasCost(Prague, OP_PUSH0) == 2
  {
    assert GasCost(Shanghai, OP_PUSH0) == 2;
    assert GasCost(Cancun, OP_PUSH0) == 2;
  }

  lemma CallingChecked()
    ensures Checked(CALLER) && Checked(CALLEE)
  {
    hide GasCost, DecodesTo, IsStart, CostTable;
    CallingCosts();
    forall i: nat
      ensures IsStart(CALLER.code, i) <==> i == 0 || i == 1 || i == 4
      ensures IsStart(CALLEE.code, i) <==> i == 0
    {
      CallingStarts(i);
    }
    InstructionRule(CALLER, 0);
    InstructionRule(CALLER, 1);
    InstructionRule(CALLER, 4);
    InstructionRule(CALLEE, 0);
    assert !ReturnsAt(CALLER, 0) && !ReturnsAt(CALLER, 1) && !ReturnsAt(CALLER, 4) && ReturnsAt(CALLEE, 0);
    assert TargetsOk(CALLER.code, 0) && TargetsOk(CALLER.code, 1) && TargetsOk(CALLER.code, 4);
    assert TargetsOk(CALLEE.code, 0);
  }

  /** The heights the worklist finds. */
  const CALLER_HEIGHTS := [0, 1, LOC_IMMEDIATE, LOC_IMMEDIATE, 1]

  lemma CallerDone()
    ensures Done(CALLER, CALLER_HEIGHTS, 0) && Done(CALLER, CALLER_HEIGHTS, 1) && Done(CALLER, CALLER_HEIGHTS, 4)
  {
    hide GasCost, CostTable, LocalError;
    var s := CALLER;
    CallerRules();
    assert Successors(s, 0) == [1] && Successors(s, 1) == [4] && Successors(s, 4) == [];
  }

  lemma CallerRules()
    ensures Decodable(CALLER, 0) && LocalError(CALLER, 0, 0) == None
    ensures Decodable(CALLER, 1) && LocalError(CALLER, 1, 1) == None
    ensures Decodable(CALLER, 4) && LocalError(CALLER, 4, 1) == None
  {
    hide DecodesTo, IsStart, GasCost, CostTable, LocalError, Checked;
    CallingChecked();
    CallingStarts(0);
    CallingStarts(1);
    CallingStarts(4);
    OtherRule(CALLER, 0, 0);
    CallfRule(CALLER, 1, 1);
    OtherRule(CALLER, 4, 1);
  }

  lemma CallerEdges()
    requires IsStart(CALLER.code, 0) && IsStart(CALLER.code, 1)
    ensures Edge(CALLER, Config(0, 0), Config(1, 1)) && Edge(CALLER, Config(1, 1), Config(4, 1))
  {
    hide DecodesTo, IsStart, GasCost, CostTable, LocalError;
    var s := CALLER;
    assert Successors(s, 0) == [1] && Successors(s, 1) == [4];
    assert 1 in Successors(s, 0) && 4 in Successors(s, 1);
  }

  /** One item lies below the call, which takes no arguments. */
  lemma CallerHeights()
    ensures StackOk(CALLER, 1)
  {
    hide DecodesTo, IsStart, Checked, Reachable, Edge, Done;
    var s, hs := CALLER, CALLER_HEIGHTS;
    CallingChecked();
    forall k: nat ensures IsStart(s.code, k) <==> k == 0 || k == 1 || k == 4 { CallingStarts(k); }
    StartReachable(s);
    CallerEdges();
    ReachableStep(s, Config(0, 0), Config(1, 1));
    ReachableStep(s, Config(1, 1), Config(4, 1));
    CallerDone();
    FullyVisited(s, hs);
    assert MaxElement(hs) == 1;
  }

  lemma CalleeHeights()
    ensures StackOk(CALLEE, 0)
  {
    hide DecodesTo, IsStart, Checked, Reachable;
    var s := CALLEE;
    CallingChecked();
    forall k: nat ensures IsStart(s.code, k) <==> k == 0 { CallingStarts(k); }
    StartReachable(s);
    assert Successors(s, 0) == [];
    assert Done(s, [0], 0);
    FullyVisited(s, [0]);
  }

  /** The container is valid although the call is made above an item that is not an argument. */
  lemma CallingAccepted()
    ensures HasEof1Prefix(CALLING) && Accepted(CALLING, CALLING_HEADERS)
  {
    hide ParseHeaders, StackOk, IsStart, InstructionsOk, RjumpsOk, SectionOf;
    CallingParsed();
    CallingChecked();
    CallerHeights();
    CalleeHeights();
  }

  // ---------------------------------------------------------------- a jump that is not taken

  /** PUSH1 0, PUSH1 6, JUMPI, STOP, JUMPDEST and INVALID. */
  const NOT_TAKEN: seq<byte> := [OP_PUSH1, 0, OP_PUSH1, 6, OP_JUMPI, OP_STOP, OP_JUMPDEST, OP_INVALID]

  lemma JumpIPasses(env: Env, gas: int, height: nat)
    requires gas >= 10 && 2 <= height < STACK_LIMIT
    ensures CheckRequirements(env, gas, height, OP_JUMPI) == (None, gas - 10)
  {
    hide GasCost, HasConstGasCost;
    forall r ensures Override(r, OP_JUMPI) == None { JumpsNeverChange(r); }
    forall r ensures GasCost(r, OP_JUMPI) == 10 { NeverOverridden(r, OP_JUMPI); }
    SteadyIsConstant(OP_JUMPI);
  }

  lemma StopPasses(env: Env, gas: int, height: nat)
    requires gas >= 0
    ensures CheckRequirements(env, gas, height, OP_STOP) == (None, gas)
  {
    hide GasCost, HasConstGasCost;
    forall r ensures Override(r, OP_STOP) == None {}
    forall r ensures GasCost(r, OP_STOP) == 0 { NeverOverridden(r, OP_STOP); }
    SteadyIsConstant(OP_STOP);
  }

  /** With a zero condition the run stops successfully at byte 5. */
  lemma NotTaken(rev: Revision, callId: nat, choices: nat -> Choice, s: State)
    requires EofSoundness.Initial(LegacyEnv(rev, callId, NOT_TAKEN), s) && s.gas >= 16
    ensures var o := Run(LegacyEnv(rev, callId, NOT_TAKEN), choices, s, 4);
      o.Halt? && o.status == Success && o.s.pc == 5 && o.s.gas == s.gas - 16
  {
    hide Step, Run, CheckRequirements, Jumpdests, JumpsTo, Paid, TraitsOf;
    var env := LegacyEnv(rev, callId, NOT_TAKEN);
    FirstState(env, choices, s);
    PushOne(env, choices(0), s);
    StepInRun(env, choices, s, 1);
    var t := Run(env, choices, s, 1).s;
    PushOne(env, choices(1), t);
    StepInRun(env, choices, s, 2);
    var u := Run(env, choices, s, 2).s;
    assert u.stack == [0, 6];
    JumpIPasses(env, u.gas, 2);
    JumpIEffect(env, choices(2), u);
    PaidGas(env, u);
    StepInRun(env, choices, s, 3);
    var v := Run(env, choices, s, 3).s;
    StopPasses(env, v.gas, |v.stack|);
    HaltEffect(env, choices(3), v);
    PaidGas(env, v);
    StepInRun(env, choices, s, 4);
  }

  // ---------------------------------------------------------------- an execution that reverts

  /** PUSH1 0, PUSH1 0 and REVERT. */
  const REVERTING: seq<byte> := [OP_PUSH1, 0, OP_PUSH1, 0, OP_REVERT]

  lemma RevertCost()
    ensures GasCost(Shanghai, OP_REVERT) == 0
  {
    assert GasCost(Byzantium, OP_REVERT) == 0;
    assert GasCost(Petersburg, OP_REVERT) == 0;
    assert GasCost(Berlin, OP_REVERT) == 0;
  }

  lemma RevertPasses(env: Env, gas: int, height: nat)
    requires env.rev == Shanghai && gas >= 0 && 2 <= height < STACK_LIMIT
    ensures CheckRequirements(env, gas, height, OP_REVERT) == (None, gas)
  {
    hide GasCost;
    RevertCost();
  }

  lemma RevertRun(env: Env, choices: nat -> Choice, s: State)
    requires env == LegacyEnv(Shanghai, 0, REVERTING) && EofSoundness.Initial(env, s) && s.gas >= 11
    ensures var o := Run(env, choices, s, 3); o.Halt? && o.status == Revert && o.s.gas == s.gas - 6
  {
    hide Step, Run, CheckRequirements, Jumpdests, TouchRange, Paid, TraitsOf;
    FirstState(env, choices, s);
    PushOne(env, choices(0), s);
    StepInRun(env, choices, s, 1);
    var t := Run(env, choices, s, 1).s;
    PushOne(env, choices(1), t);
    StepInRun(env, choices, s, 2);
    var u := Run(env, choices, s, 2).s;
    assert u.stack == [0, 0];
    RevertPasses(env, u.gas, 2);
    HaltEffect(env, choices(2), u);
    PaidGas(env, u);
    NothingTouched(u.gas, u.memory);
    StepInRun(env, choices, s, 3);
  }

  lemma NothingTouched(gas: int, memory: seq<byte>)
    ensures TouchRange(gas, memory, 0, 0) == Access(true, gas, memory)
  {
  }

  /** A frame that reverts after two pushes hands back all but the six units they cost. */
  lemma RevertGivesBack(gas: int, choices: nat -> Choice)
    requires gas >= 11
    ensures GasLeft(LegacyFrame(REVERTING, 0, gas, choices, 3)) == gas - 6
  {
    hide Run, GasLeft, Jumpdests, Padded;
    var f := LegacyFrame(REVERTING, 0, gas, choices, 3);
    RevertRun(f.env, choices, StartOf(f));
    ReturnedGas(f);
  }

  lemma PaidGas(env: Env, s: State)
    requires 0 <= s.pc < |env.code|
    ensures Paid(env, s) == s.(gas := CheckRequirements(env, s.gas, |s.stack|, env.code[s.pc]).1)
  {
    hide CheckRequirements;
  }
}
