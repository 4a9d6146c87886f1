/**
 * Memory safety of whole runs: validated EOF code and arbitrary legacy code access only what exists, with the
 * exact exceptions.
 */
module MemorySafety {
  import opened Bytes
  import opened Opcodes
  import opened EofInstructions
  import opened EofStackHeight
  import opened EofHeader
  import opened EofValidation
  import opened Interpreter
  import opened Accesses
  import opened EofSoundness
  import opened EofContainer
  import opened LegacyCode

  // ---------------------------------------------------------------- validated EOF code

  /** Validation makes the operands of every instruction ready; RETF is left to the return stack. */
  lemma SiteReady(p: Program, s: State, fr: Frame, i: nat)
    requires p.Valid() && FrameOk(p, fr) && Site(p, s, fr, i)
    requires p.env.code[s.pc] == OP_RETF ==> s.callStack != []
    ensures 0 <= s.pc < |p.env.code| && Ready(p.env, s, KindOf(p.env.code[s.pc]))
  {
    hide KindOf, Site, Program.Valid, SectionOperand, U16, PushLeaves, OverReads;
    Bridge(p, s, fr, i);
    var op := p.env.code[s.pc];
    ControlKinds(op);
    if KindOf(op).KPush? { PushStays(p, s, fr, i); }
    if op == OP_RJUMPV { TableSize(p, s, fr, i); }
    if op == OP_CALLF || op == OP_JUMPF { CalleeFacts(p, s, fr, i); }
    if op == OP_DATALOADN { DataOperand(p, s, fr, i); }
  }

  /** Every state a run of validated code reaches is ready for its instruction. */
  lemma ReachedReady(p: Program, choices: nat -> Choice, s: State, m: nat)
    requires p.Valid() && Initial(p.env, s) && Run(p.env, choices, s, m).Next?
    ensures var t := Run(p.env, choices, s, m).s;
      && 0 <= t.pc < |p.env.code| && |t.stack| <= STACK_LIMIT
      && ImmediateInside(p.env, t, p.env.code[t.pc]) && Ready(p.env, t, KindOf(p.env.code[t.pc]))
  {
    hide Run, Program.Valid, Ready, ImmediateInside, KindOf, Site, FramesAfter, FrameOk, Current;
    var t := Run(p.env, choices, s, m).s;
    var frames := FramesAfter(p, choices, s, [Frame(0, 0)], m);
    ReachesEvery(p, choices, s, m);
    ReturnHasCaller(p, choices, s, m);
    ProgramSafe(p, choices, s, m);
    TopOk(p, frames, t.callStack);
    var i: nat :| Current(p, t, Top(frames), i);
    SiteHolds(p, t, Top(frames), i);
    Bridge(p, t, Top(frames), i);
    SiteReady(p, t, Top(frames), i);
  }

  /**
   * The exact condition: step m of a run of validated code accesses an element that does not exist if and only
   * if it executes a PUSH5 or PUSH6 with fewer than eight bytes after it, a PUSH2 to PUSH31 on too few items,
   * or an indexed DUP or SWAP that leads outside the stack array.
   */
  lemma ProgramAccessesExactly(p: Program, choices: nat -> Choice, s: State, m: nat)
    requires p.Valid() && Initial(p.env, s)
    ensures AccessesOutside(p.env, choices, s, m) <==> UndefinedAt(p.env, choices, s, m)
  {
    hide Run, Program.Valid, Ready, ImmediateInside, KindOf, StaysInside, Undefined, CheckRequirements;
    if Accesses.Reaches(p.env, choices, s, m) {
      ReachedReady(p, choices, s, m);
      StepInside(p.env, Run(p.env, choices, s, m).s);
    }
  }

  /** The same for every container the validator accepts. */
  lemma AcceptedAccessesExactly(c: seq<byte>, h: Headers, choices: nat -> Choice, s: State, m: nat)
    requires Accepted(c, h) && Initial(EofEnv(c, h), s)
    ensures AccessesOutside(EofEnv(c, h), choices, s, m) <==> UndefinedAt(EofEnv(c, h), choices, s, m)
  {
    hide Accepted, Parsed, EofEnv, Program.Valid, Run, AccessesOutside, UndefinedAt;
    var p := AcceptedProgram(c, h);
    ProgramAccessesExactly(p, choices, s, m);
  }

  /** Every push of the program finds at least as many items below it as it makes records. */
  ghost predicate DeepPushes(p: Program)
    requires p.Valid()
  {
    forall f: nat, i: nat :: f < |p.sections| && IsStart(p.sections[f].code, i) ==>
      var k := KindOf(p.sections[f].code[i]); k.KPush? ==> PushRecords(k.len) <= p.Height(f, i) + 1
  }

  /** A condition that validation's own height table decides: such programs never access anything outside. */
  lemma DeepProgramSafe(p: Program, choices: nat -> Choice, s: State, m: nat)
    requires p.Valid() && Initial(p.env, s) && FaultFree(p) && DeepPushes(p)
    ensures !AccessesOutside(p.env, choices, s, m)
  {
    hide Run, Program.Valid, Stuck, FaultFree, DeepPushes, AccessesOutside, Shallow;
    ProgramAccessesExactly(p, choices, s, m);
    if UndefinedAt(p.env, choices, s, m) {
      var t := Run(p.env, choices, s, m).s;
      ProgramSafe(p, choices, s, m);
      PlacedHarmless(p, t);
      PlacedDeep(p, t);
    }
  }

  lemma PlacedDeep(p: Program, s: State)
    requires p.Valid() && WellPlaced(p, s) && DeepPushes(p)
    ensures !Shallow(p.env, s)
  {
    hide IsStart, EofStackHeight.Checked, Typed, KindOf, PushRecords, Site;
    var fr: Frame, i: nat :|
      FrameOk(p, fr) && Current(p, s, fr, i) && 0 <= p.Height(fr.section, i) <= p.MaxHeight(fr.section);
    SiteHolds(p, s, fr, i);
    Bridge(p, s, fr, i);
  }

  // ---------------------------------------------------------------- legacy code

  /** Legacy code runs no instruction with operands that validation would have to check. */
  lemma LegacyReady(rev: Revision, callId: nat, code: seq<byte>, s: State)
    requires LegacyInv(code, s)
    requires var env := LegacyEnv(rev, callId, code);
      0 <= s.pc < |env.code| && CheckRequirements(env, s.gas, |s.stack|, env.code[s.pc]).0 == None
    ensures var env := LegacyEnv(rev, callId, code);
      ImmediateInside(env, s, env.code[s.pc]) && Ready(env, s, KindOf(env.code[s.pc]))
  {
    hide KindOf, CheckRequirements, ImmediateInside, Jumpdests, PushLeaves, OverReads, SectionOperand, U16;
    var env := LegacyEnv(rev, callId, code);
    var op := env.code[s.pc];
    FetchInside(env, code, s);
    ControlKinds(op);
    NoEofInstruction(env, s.gas, |s.stack|, op);
    if KindOf(op).KPush? { PaddingCoversPush(env, code, s); }
  }

  /** The exact condition for any legacy code whatever. */
  lemma LegacyAccessesExactly(rev: Revision, callId: nat, code: seq<byte>, choices: nat -> Choice, s: State, m: nat)
    requires Initial(LegacyEnv(rev, callId, code), s)
    ensures var env := LegacyEnv(rev, callId, code);
      AccessesOutside(env, choices, s, m) <==> UndefinedAt(env, choices, s, m)
  {
    hide Run, Ready, ImmediateInside, KindOf, StaysInside, Undefined, CheckRequirements, LegacyEnv, FreeOfIndexed;
    hide NeverSkips;
    var env := LegacyEnv(rev, callId, code);
    if Accesses.Reaches(env, choices, s, m) {
      LegacyRunSafe(rev, callId, code, choices, s, m);
      LegacyReady(rev, callId, code, Run(env, choices, s, m).s);
      StepInside(env, Run(env, choices, s, m).s);
    }
  }

  /** Neither an indexed DUP or SWAP nor one of PUSH2 to PUSH31. */
  predicate Tame(op: byte) {
    op != OP_DUP && op != OP_SWAP && !(0x61 <= op <= 0x7e)
  }

  /** All instructions are tame; where Prague code can skip a PUSH, all bytes. */
  predicate TameCode(rev: Revision, code: seq<byte>) {
    forall i :: 0 <= i < |code| && (NeverSkips(rev, code) ==> LegacyStart(code, i)) ==> Tame(code[i])
  }

  lemma TameIsDefined(rev: Revision, callId: nat, code: seq<byte>, s: State)
    requires TameCode(rev, code) && LegacyInv(code, s) && (NeverSkips(rev, code) ==> OnInstruction(code, s))
    ensures !Undefined(LegacyEnv(rev, callId, code), s)
  {
    hide LegacyStart, NeverSkips, Jumpdests, KindOf;
    var env := LegacyEnv(rev, callId, code);
    FetchInside(env, code, s);
    TamePush(env.code[s.pc]);
    PaddedEnd(env, code, s);
  }

  lemma TamePush(op: byte)
    requires Tame(op)
    ensures KindOf(op).KPush? ==> PushRecords(KindOf(op).len) == 1
  {
  }

  lemma PaddedEnd(env: Env, code: seq<byte>, s: State)
    requires env.code == Padded(code) && LegacyInv(code, s)
    ensures !OverReads(env, s.pc)
  {
  }

  /** Code that is free of all of them accesses nothing outside, in any run. */
  lemma TameCodeSafe(rev: Revision, callId: nat, code: seq<byte>, choices: nat -> Choice, s: State, m: nat)
    requires Initial(LegacyEnv(rev, callId, code), s) && TameCode(rev, code)
    ensures !AccessesOutside(LegacyEnv(rev, callId, code), choices, s, m)
  {
    hide Run, LegacyEnv, FreeOfIndexed, NeverSkips, TameCode, AccessesOutside, Undefined, LegacyInv, OnInstruction;
    LegacyAccessesExactly(rev, callId, code, choices, s, m);
    var env := LegacyEnv(rev, callId, code);
    if UndefinedAt(env, choices, s, m) {
      LegacyRunSafe(rev, callId, code, choices, s, m);
      TameIsDefined(rev, callId, code, Run(env, choices, s, m).s);
    }
  }

  // ---------------------------------------------------------------- what an outside access means for the run

  /** A step that accesses something outside ends in Fault, or is a shallow push and only records strange words. */
  lemma OutsideMeans(env: Env, choices: nat -> Choice, s: State, m: nat)
    requires UndefinedAt(env, choices, s, m)
    ensures var t := Run(env, choices, s, m).s;
      if Stuck(env, t) then Step(env, choices(m), t).Fault? else Shallow(env, t)
  {
    hide Run, Stuck, Shallow, CheckRequirements, Step;
    if Stuck(env, Run(env, choices, s, m).s) { HarmfulFaults(env, choices(m), Run(env, choices, s, m).s); }
  }
}
