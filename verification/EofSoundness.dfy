/**
 * Type soundness of validated EOF code: the interpreter, which re-checks no jump target, immediate or
 * return address, never leaves the code it was given, and the validator's heights are the run-time heights.
 */
module EofSoundness {
  import opened Bytes
  import opened Words
  import opened Opcodes
  import opened EofInstructions
  import opened EofStackHeight
  import opened Interpreter

  /** A validated program: its sections, the exact height table of each, and where they lie in the code. */
  datatype Program = Program(env: Env, sections: seq<Section>, heights: seq<seq<int>>) {
    function Offset(f: nat): int
      requires f < |env.codeOffsets|
    {
      env.origin + env.codeOffsets[f] - env.codeOffsets[0]
    }

    function MaxHeight(f: nat): nat
      requires f < |env.types|
    {
      env.types[f].maxStackHeight
    }

    /** The validator's height at instruction i of section f. */
    function Height(f: nat, i: nat): int {
      if f < |heights| && i < |heights[f]| then heights[f][i] else 0
    }

    predicate Returns(f: nat)
      requires f < |env.types|
    {
      env.types[f].outputs != NON_RETURNING
    }

    ghost predicate Shape() {
      && env.isEof && env.rev == Prague
      && 0 < |sections| == |heights| == |env.types| == |env.codeOffsets|
    }

    /** Section f is accepted and lies where a call of it enters the code. */
    ghost predicate SectionAt(f: nat)
      requires Shape() && f < |sections|
    {
      var s := sections[f];
      && s.index == f && s.types == env.types && s.dataSize == |env.data|
      && Checked(s) && Typed(s, heights[f], MaxHeight(f))
      && 0 <= Offset(f) && Offset(f) + |s.code| <= |env.code|
      && env.code[Offset(f)..Offset(f) + |s.code|] == s.code
    }

    ghost predicate Valid() {
      && Shape()
      && (forall f: nat :: f < |sections| ==> SectionAt(f))
      && env.types[0].inputs == 0 && !Returns(0)
    }
  }

  /** An activation: the section being executed and the stack height below its inputs. */
  datatype Frame = Frame(section: nat, base: int)

  /** pc is instruction start i of section f. */
  ghost predicate AtStart(p: Program, pc: int, f: nat, i: nat)
    requires p.Valid()
  {
    f < |p.sections| && IsStart(p.sections[f].code, i) && pc == p.Offset(f) + i
  }

  ghost predicate FrameOk(p: Program, fr: Frame)
    requires p.Valid()
  {
    fr.section < |p.sections| && 0 <= fr.base && fr.base + p.MaxHeight(fr.section) <= STACK_LIMIT
  }

  /** Return address ret leads back into `caller`, with the stack as `callee` leaves it. */
  ghost predicate ReturnOk(p: Program, caller: Frame, callee: Frame, ret: int)
    requires p.Valid() && FrameOk(p, caller) && FrameOk(p, callee)
  {
    exists i: nat :: AtStart(p, ret, caller.section, i)
      && (p.Returns(callee.section) ==>
            callee.base + p.env.types[callee.section].outputs == caller.base + p.Height(caller.section, i))
  }

  ghost predicate FramesOk(p: Program, frames: seq<Frame>, callStack: seq<int>)
    requires p.Valid()
  {
    && |frames| == |callStack| + 1
    && (forall k :: 0 <= k < |frames| ==> FrameOk(p, frames[k]))
    && !p.Returns(frames[0].section)
    && (forall k :: 0 <= k < |callStack| ==> ReturnOk(p, frames[k], frames[k + 1], callStack[k]))
  }

  function Top(frames: seq<Frame>): Frame
    requires frames != []
  {
    frames[|frames| - 1]
  }

  /** The position is instruction i of the current section, at exactly the validator's height above the base. */
  ghost predicate Current(p: Program, s: State, fr: Frame, i: nat)
    requires p.Valid() && FrameOk(p, fr)
  {
    AtStart(p, s.pc, fr.section, i) && |s.stack| == fr.base + p.Height(fr.section, i)
  }

  ghost predicate Inv(p: Program, s: State, frames: seq<Frame>)
    requires p.Valid()
  {
    && FramesOk(p, frames, s.callStack)
    && exists i: nat :: Current(p, s, Top(frames), i)
  }

  /** Frames follow CALLF, RETF and JUMPF. */
  ghost function NextFrames(p: Program, s: State, frames: seq<Frame>): seq<Frame>
    requires p.Valid()
  {
    if !(0 <= s.pc < |p.env.code|) || frames == [] then frames
    else
      var op, last := p.env.code[s.pc], |frames| - 1;
      if op == OP_CALLF && SectionOperand(p.env, s.pc) then
        var g := U16(p.env.code, s.pc + 1);
        frames + [Frame(g, |s.stack| - p.env.types[g].inputs)]
      else if op == OP_JUMPF && SectionOperand(p.env, s.pc) then
        var g := U16(p.env.code, s.pc + 1);
        frames[..last] + [Frame(g, |s.stack| - p.env.types[g].inputs)]
      else if op == OP_RETF then frames[..last]
      else frames
  }

  // ---------------------------------------------------------------- facts at the current instruction

  /** Everything validation says about the instruction at the current position, in terms of the run. */
  ghost predicate Site(p: Program, s: State, fr: Frame, i: nat)
    requires p.Valid() && FrameOk(p, fr)
  {
    var sec, hs := p.sections[fr.section], p.heights[fr.section];
    && Current(p, s, fr, i) && Checked(sec) && |hs| == |sec.code|
    && TypedAt(sec, hs, p.MaxHeight(fr.section), i) && InstructionError(sec, i) == None
    && i < NextInstr(sec.code, i) <= |sec.code|
    && 0 <= s.pc && s.pc + (NextInstr(sec.code, i) - i) <= |p.env.code|
    && p.env.code[s.pc] == sec.code[i]
    && forall x :: s.pc <= x < s.pc + (NextInstr(sec.code, i) - i) ==>
         p.env.code[x] == sec.code[x - p.Offset(fr.section)]
  }

  lemma SiteHolds(p: Program, s: State, fr: Frame, i: nat)
    requires p.Valid() && FrameOk(p, fr) && Current(p, s, fr, i)
    ensures Site(p, s, fr, i)
  {
    hide InstructionError, TypedAt, IsStart, InstructionsOk, RjumpsOk, NextInstr, Successors, LocalError;
    var f := fr.section;
    var sec, hs := p.sections[f], p.heights[f];
    assert p.SectionAt(f);
    assert TypedAt(sec, hs, p.MaxHeight(f), i);
    CheckedUntruncated(sec);
    assert InstructionError(sec, i) == None by { StartPasses(sec, i); }
    InstructionStartDecodes(sec.code, i);
    assert NextInstr(sec.code, i) <= |sec.code|;
    var slice := p.env.code[p.Offset(f)..p.Offset(f) + |sec.code|];
    forall x | s.pc <= x < s.pc + (NextInstr(sec.code, i) - i)
      ensures p.env.code[x] == sec.code[x - p.Offset(f)]
    {
      assert slice[x - p.Offset(f)] == p.env.code[x];
    }
  }

  lemma StartPasses(sec: Section, i: nat)
    requires InstructionsOk(sec) && IsStart(sec.code, i)
    ensures InstructionError(sec, i) == None
  {
    hide InstructionError;
  }

  /** Two-byte operands read through the executable code are the section's own. */
  lemma OperandAgrees(p: Program, s: State, fr: Frame, i: nat, k: nat)
    requires p.Valid() && FrameOk(p, fr) && Site(p, s, fr, i)
    requires 0 < k && i + k + 1 < NextInstr(p.sections[fr.section].code, i)
    ensures s.pc + k + 1 < |p.env.code|
    ensures U16(p.env.code, s.pc + k) == U16(p.sections[fr.section].code, i + k)
    ensures I16(p.env.code, s.pc + k) == I16(p.sections[fr.section].code, i + k)
  {
    hide InstructionError, TypedAt, Checked, NextInstr;
  }

  /** Moving to a successor j of i with the section's height change keeps the frame's discipline. */
  lemma Moved(p: Program, s: State, s': State, fr: Frame, i: nat, j: int)
    requires p.Valid() && FrameOk(p, fr) && Site(p, s, fr, i)
    requires j in Successors(p.sections[fr.section], i)
    requires s'.pc == p.Offset(fr.section) + j
    requires |s'.stack| == |s.stack| + HeightChange(p.sections[fr.section], i)
    ensures 0 <= j && Current(p, s', fr, j)
  {
    hide InstructionError, Checked, NextInstr, Successors, HeightChange, IsStart, LocalError;
  }

  lemma TopUnchanged(p: Program, s: State, s': State, frames: seq<Frame>, i: nat)
    requires p.Valid() && FramesOk(p, frames, s.callStack) && s'.callStack == s.callStack
    requires Current(p, s', Top(frames), i)
    ensures Inv(p, s', frames)
  {
    hide FramesOk, Current;
  }

  // ---------------------------------------------------------------- the requirements check

  lemma EnoughItems(sec: Section, i: nat, h: int)
    requires Decodable(sec, i) && LocalError(sec, i, h) == None && h >= 0
    ensures h >= TraitsOf(sec.code[i]).stackHeightRequired
  {
    hide TraitsOf, KindOf, NextInstr, U16;
    TraitsMatchImplementation(sec.code[i]);
    ControlKinds(sec.code[i]);
  }

  lemma RoomToGrow(p: Program, s: State, fr: Frame, i: nat)
    requires p.Valid() && FrameOk(p, fr) && Site(p, s, fr, i)
    requires TraitsOf(p.env.code[s.pc]).stackHeightChange > 0
    ensures |s.stack| < STACK_LIMIT
  {
    hide TraitsOf, KindOf, IsStart, NextInstr, JumpTargets, LocalError, InstructionError, Checked;
    hide HeightChange, Decodable, Typed;
    var sec, op := p.sections[fr.section], p.env.code[s.pc];
    Bridge(p, s, fr, i);
    GrowthFallsThrough(op);
    SuccessorList(sec, i);
    assert Successors(sec, i)[0] in Successors(sec, i);
    assert p.SectionAt(fr.section);
    SuccessorHeight(sec, p.heights[fr.section], p.MaxHeight(fr.section), i, NextInstr(sec.code, i));
  }

  lemma GrowthFallsThrough(op: byte)
    requires TraitsOf(op).stackHeightChange > 0
    ensures FallsThrough(op) && op != OP_CALLF
  {
    hide TraitsOf, KindOf;
    TraitsMatchImplementation(op);
    ControlKinds(op);
  }

  lemma DefinedCost(sec: Section, i: nat)
    requires sec.Valid() && i < |sec.code| && InstructionError(sec, i) == None
    ensures CostTable(Prague, true, sec.code[i]) >= 0
  {
    hide TraitsOf, GasCost, NextInstr;
  }

  /** In validated code the check can only run out of gas. */
  lemma CheckSafe(p: Program, s: State, fr: Frame, i: nat)
    requires p.Valid() && FrameOk(p, fr) && Site(p, s, fr, i)
    ensures var failed := CheckRequirements(p.env, s.gas, |s.stack|, p.env.code[s.pc]).0;
      failed == None || failed == Some(OutOfGas)
  {
    hide TraitsOf, IsStart, GasCost, NextInstr, LocalError, InstructionError, Checked, HeightRequired;
    var sec, op := p.sections[fr.section], p.env.code[s.pc];
    EnoughItems(sec, i, p.Height(fr.section, i));
    DefinedCost(sec, i);
    if TraitsOf(op).stackHeightChange > 0 { RoomToGrow(p, s, fr, i); }
  }

  lemma SuccessorHeight(sec: Section, hs: seq<int>, m: int, i: nat, j: nat)
    requires Typed(sec, hs, m) && IsStart(sec.code, i) && Decodable(sec, i) && (j as int) in Successors(sec, i)
    ensures j < |hs| && 0 <= hs[j] <= m && hs[j] == hs[i] + HeightChange(sec, i)
  {
    hide Successors, HeightChange, LocalError, IsStart, Decodable;
    assert TypedAt(sec, hs, m, i);
    assert TypedAt(sec, hs, m, j);
  }

  // ---------------------------------------------------------------- one instruction

  /** Instructions that charge gas beyond their base cost. */
  predicate ChargesMore(k: Kind) {
    k.KMLoad? || k.KMStore? || k.KReturn? || k.KExternal?
  }

  lemma HaltingOpcodes(op: byte)
    ensures KindOf(op) == KStop ==> op == OP_STOP
    ensures KindOf(op) == KReturn(Success) ==> op == OP_RETURN
    ensures KindOf(op) == KReturn(Revert) ==> op == OP_REVERT
    ensures KindOf(op) == KInvalid ==> op == OP_INVALID
    ensures KindOf(op) == KSelfdestruct ==> op == OP_SELFDESTRUCT
  {
  }

  /** The ways a step of validated code may end a run: each status with the instructions that can cause it. */
  ghost predicate Excused(env: Env, t: State, o: Outcome)
    requires 0 <= t.pc < |env.code|
  {
    var op := env.code[t.pc];
    match o
    case Next(_) => true
    case Halt(status, _, atCheck) =>
      && (atCheck ==> status == OutOfGas)
      && (status == OutOfGas ==> atCheck || ChargesMore(KindOf(op)))
      && (status == Overflow ==> op == OP_CALLF || op == OP_JUMPF)
      && (status == Underflow ==> op == OP_DUPN || op == OP_SWAPN)
      && (status == UndefinedOpcode ==> op in {0xa0, 0xa2, 0xa3, 0xa4, 0xa5})
      && (status == Success ==> op == OP_STOP || op == OP_RETURN)
      && (status == Revert ==> op == OP_REVERT) && (status == InvalidOpcode ==> op == OP_INVALID)
      && (status == ExternalFailure ==> KindOf(op).KExternal?)
      && status != BadJumpDestination
    case Fault => Stuck(env, t)
  }

  /** What soundness promises of one step from a state of the invariant. */
  ghost predicate StepSound(p: Program, s: State, frames: seq<Frame>, o: Outcome)
    requires p.Valid() && 0 <= s.pc < |p.env.code|
  {
    if o.Next? then Inv(p, o.s, NextFrames(p, s, frames)) else Excused(p.env, s, o)
  }

  /** The site in the vocabulary of the interpreter. */
  lemma Bridge(p: Program, s: State, fr: Frame, i: nat)
    requires p.Valid() && FrameOk(p, fr) && Site(p, s, fr, i)
    ensures 0 <= s.pc < |p.env.code| && p.env.code[s.pc] == p.sections[fr.section].code[i]
    ensures s.pc == p.Offset(fr.section) + i
    ensures ImmediateInside(p.env, s, p.env.code[s.pc])
    ensures p.env.code[s.pc] != OP_RJUMPV ==>
      NextInstr(p.sections[fr.section].code, i) == i + 1 + TraitsOf(p.env.code[s.pc]).immediateSize
    ensures Decodable(p.sections[fr.section], i)
    ensures p.env.code[s.pc] != OP_CALLF ==>
      HeightChange(p.sections[fr.section], i) == TraitsOf(p.env.code[s.pc]).stackHeightChange
  {
    hide TraitsOf, IsStart, LocalError, InstructionError, Checked, Successors, U16;
    RelativeJumpSizes();
  }

  /** Falling through to the next instruction. */
  lemma FallThroughSound(p: Program, s: State, s': State, frames: seq<Frame>, i: nat)
    requires p.Valid() && FramesOk(p, frames, s.callStack) && Site(p, s, Top(frames), i)
    requires var op := p.env.code[s.pc];
      && FallsThrough(op) && op != OP_RJUMPV && op != OP_CALLF
      && s'.pc == s.pc + 1 + TraitsOf(op).immediateSize && s'.callStack == s.callStack
      && |s'.stack| == |s.stack| + TraitsOf(op).stackHeightChange
    ensures Inv(p, s', frames)
  {
    hide TraitsOf, IsStart, LocalError, FramesOk, JumpTargets, Site;
    TopOk(p, frames, s.callStack);
    var fr := Top(frames);
    Bridge(p, s, fr, i);
    var sec := p.sections[fr.section];
    var next := NextInstr(sec.code, i);
    assert Successors(sec, i)[0] == next && Successors(sec, i)[0] in Successors(sec, i);
    Moved(p, s, s', fr, i, next);
    TopUnchanged(p, s, s', frames, next);
  }

  lemma TopOk(p: Program, frames: seq<Frame>, callStack: seq<int>)
    requires p.Valid() && FramesOk(p, frames, callStack)
    ensures |frames| == |callStack| + 1 && FrameOk(p, Top(frames))
  {
  }

  lemma SoundNext(p: Program, s: State, frames: seq<Frame>, s': State)
    requires p.Valid() && 0 <= s.pc < |p.env.code| && Inv(p, s', frames)
    requires var op := p.env.code[s.pc]; op != OP_CALLF && op != OP_JUMPF && op != OP_RETF
    ensures StepSound(p, s, frames, Next(s'))
  {
    hide Inv, Program.Valid;
  }

  lemma OrdinarySound(p: Program, ch: Choice, s: State, frames: seq<Frame>, i: nat)
    requires p.Valid() && FramesOk(p, frames, s.callStack) && Site(p, s, Top(frames), i)
    requires !IsControl(KindOf(p.env.code[s.pc]))
    requires |s.stack| >= TraitsOf(p.env.code[s.pc]).stackHeightRequired
    ensures StepSound(p, s, frames, Exec(p.env, ch, s, p.env.code[s.pc]))
  {
    hide TraitsOf, KindOf, Exec, FramesOk, Site, Program.Valid, Inv, NextFrames, U16, ImmediateInside;
    hide Decodable, NextInstr, HeightChange;
    TopOk(p, frames, s.callStack);
    var fr := Top(frames);
    Bridge(p, s, fr, i);
    var op := p.env.code[s.pc];
    ControlKinds(op);
    OrdinaryShape(p.env, ch, s, op);
    OutcomeSound(p, s, frames, i, ch, Exec(p.env, ch, s, op));
  }

  /** An outcome of ordinary shape is sound. */
  lemma OutcomeSound(p: Program, s: State, frames: seq<Frame>, i: nat, ch: Choice, o: Outcome)
    requires p.Valid() && FramesOk(p, frames, s.callStack) && Site(p, s, Top(frames), i)
    requires !IsControl(KindOf(p.env.code[s.pc])) && Ordinary(p.env, ch, s, p.env.code[s.pc], o)
    ensures StepSound(p, s, frames, o)
  {
    hide TraitsOf, KindOf, FramesOk, Site, Program.Valid, Inv, NextFrames, U16, Decodable, NextInstr;
    hide HeightChange, GasCost;
    TopOk(p, frames, s.callStack);
    Bridge(p, s, Top(frames), i);
    var op := p.env.code[s.pc];
    ControlKinds(op);
    ShuffleOpcodes(op);
    SiteDefined(p, s, Top(frames), i);
    match o
    case Next(s') =>
      OrdinaryFalls(op);
      FallThroughSound(p, s, s', frames, i);
      SoundNext(p, s, frames, s');
    case Halt(_, _, _) =>
      HaltingOpcodes(op);
      DefinedUnimplemented(Prague, op);
    case Fault =>
      if op == OP_DATALOADN { DataOperand(p, s, Top(frames), i); }
      if KindOf(op).KPush? { PushStays(p, s, Top(frames), i); }
  }

  /** A push is never the last instruction of its section, so at least one byte follows its data. */
  lemma PushStays(p: Program, s: State, fr: Frame, i: nat)
    requires p.Valid() && FrameOk(p, fr) && Site(p, s, fr, i) && KindOf(p.env.code[s.pc]).KPush?
    ensures PushLeaves(p.env, s.pc, KindOf(p.env.code[s.pc]).len) ==> OverReads(p.env, s.pc)
  {
    hide KindOf, TraitsOf, PushReach, IsStart, Checked, InstructionError, Successors, HeightChange, Decodable;
    hide HeightRequired;
    var sec, op := p.sections[fr.section], p.env.code[s.pc];
    Bridge(p, s, fr, i);
    SiteHeight(p, s, fr, i);
    TraitsMatchImplementation(op);
    PushFallsThrough(op);
    FollowedBy(sec, i, p.Height(fr.section, i));
    assert p.SectionAt(fr.section);
    PushOpcode(op);
    ReachValues(KindOf(op).len);
  }

  lemma PushFallsThrough(op: byte)
    requires KindOf(op).KPush?
    ensures FallsThrough(op) && op != OP_RJUMPV && op != OP_CALLF
  {
    hide TraitsOf, KindOf;
    TraitsMatchImplementation(op);
    ControlKinds(op);
  }

  lemma PushOpcode(op: byte)
    requires KindOf(op).KPush?
    ensures KindOf(op).len == 5 ==> op == OP_PUSH5
    ensures KindOf(op).len == 6 ==> op == OP_PUSH6
  {
  }

  lemma FollowedBy(sec: Section, i: nat, h: int)
    requires Decodable(sec, i) && LocalError(sec, i, h) == None && FallsThrough(sec.code[i])
    ensures NextInstr(sec.code, i) < |sec.code|
  {
    hide NextInstr, HeightRequired, FallsThrough;
  }

  lemma OrdinaryFalls(op: byte)
    requires !IsControl(KindOf(op)) && !TraitsOf(op).isTerminating
    ensures FallsThrough(op) && op != OP_RJUMPV && op != OP_CALLF && op != OP_JUMPF && op != OP_RETF
  {
    hide TraitsOf, KindOf;
    ControlKinds(op);
  }

  lemma SiteDefined(p: Program, s: State, fr: Frame, i: nat)
    requires p.Valid() && FrameOk(p, fr) && Site(p, s, fr, i)
    ensures CostTable(Prague, true, p.env.code[s.pc]) >= 0
    ensures GasCost(Prague, p.env.code[s.pc]) != UNDEFINED
    ensures p.env.code[s.pc] !in {OP_JUMP, OP_JUMPI, OP_SELFDESTRUCT}
  {
    hide IsStart, LocalError, InstructionError, NextInstr, GasCost;
    DefinedCost(p.sections[fr.section], i);
  }

  lemma ShuffleOpcodes(op: byte)
    ensures KindOf(op) == KDupN <==> op == OP_DUPN
    ensures KindOf(op) == KSwapN <==> op == OP_SWAPN
  {
  }

  /** DATALOADN reads inside the data section. */
  lemma DataOperand(p: Program, s: State, fr: Frame, i: nat)
    requires p.Valid() && FrameOk(p, fr) && Site(p, s, fr, i) && p.env.code[s.pc] == OP_DATALOADN
    ensures s.pc + 2 < |p.env.code| && U16(p.env.code, s.pc + 1) + 32 <= |p.env.data|
  {
    hide IsStart, GasCost, LocalError, TypedAt, Checked, U16, I16;
    assert p.SectionAt(fr.section);
    OperandAgrees(p, s, fr, i, 1);
  }

  // ---------------------------------------------------------------- relative jumps

  lemma JumpedTo(p: Program, s: State, frames: seq<Frame>, i: nat, s': State, t: int)
    requires p.Valid() && FramesOk(p, frames, s.callStack) && Site(p, s, Top(frames), i)
    requires var op := p.env.code[s.pc];
      && (op == OP_RJUMP || op == OP_RJUMPI || op == OP_RJUMPV)
      && |s'.stack| == |s.stack| + TraitsOf(op).stackHeightChange
    requires var fr := Top(frames);
      && t in Successors(p.sections[fr.section], i) && s'.pc == p.Offset(fr.section) + t
    requires s'.callStack == s.callStack
    ensures StepSound(p, s, frames, Next(s'))
  {
    hide TraitsOf, FramesOk, Site, Inv, Successors, NextFrames, Program.Valid, HeightChange, NextInstr;
    TopOk(p, frames, s.callStack);
    var fr := Top(frames);
    Bridge(p, s, fr, i);
    Moved(p, s, s', fr, i, t);
    TopUnchanged(p, s, s', frames, t);
    SoundNext(p, s, frames, s');
  }

  /** The effect of RJUMP and RJUMPI in interpreter terms alone: RJUMPI falls through on 64 zero bits. */
  lemma RJumpExec(env: Env, ch: Choice, s: State, op: byte)
    requires (op == OP_RJUMP || op == OP_RJUMPI) && 0 <= s.pc && s.pc + 2 < |env.code|
    requires |s.stack| >= TraitsOf(op).stackHeightRequired
    ensures var o := Exec(env, ch, s, op);
      && o.Next? && o.s.callStack == s.callStack && |o.s.stack| == |s.stack| + TraitsOf(op).stackHeightChange
      && o.s.pc == s.pc + 3 + if RJumpFallsPast(s, op) then 0 else I16(env.code, s.pc + 1)
  {
    hide KindOf, I16, Low64, Exec, ExecRJump, ExecRJumpI, RJumpFallsPast, KindFits;
    ControlKinds(op);
    TraitsMatchImplementation(op);
    ExecControl(env, ch, s, op);
    RJumpSizes();
    RJumpEffect(env, s);
  }

  predicate RJumpFallsPast(s: State, op: byte) {
    op == OP_RJUMPI && |s.stack| >= 1 && s.stack[|s.stack| - 1] % TWO_64 == 0
  }

  lemma RJumpSizes()
    ensures TraitsOf(OP_RJUMP) == Traits(2, false, 0, 0) && TraitsOf(OP_RJUMPI) == Traits(2, false, 1, -1)
  {
  }

  lemma RJumpEffect(env: Env, s: State)
    requires 0 <= s.pc && s.pc + 2 < |env.code|
    ensures var o := ExecRJump(env, s);
      && o.Next? && o.s.callStack == s.callStack && |o.s.stack| == |s.stack|
      && o.s.pc == s.pc + 3 + if RJumpFallsPast(s, OP_RJUMP) then 0 else I16(env.code, s.pc + 1)
    ensures |s.stack| >= 1 ==> var o := ExecRJumpI(env, s);
      && o.Next? && o.s.callStack == s.callStack && |o.s.stack| == |s.stack| - 1
      && o.s.pc == s.pc + 3 + if RJumpFallsPast(s, OP_RJUMPI) then 0 else I16(env.code, s.pc + 1)
  {
    hide I16;
  }

  lemma RJumpSound(p: Program, ch: Choice, s: State, frames: seq<Frame>, i: nat)
    requires p.Valid() && FramesOk(p, frames, s.callStack) && Site(p, s, Top(frames), i)
    requires p.env.code[s.pc] == OP_RJUMP || p.env.code[s.pc] == OP_RJUMPI
    requires |s.stack| >= TraitsOf(p.env.code[s.pc]).stackHeightRequired
    ensures StepSound(p, s, frames, Exec(p.env, ch, s, p.env.code[s.pc]))
  {
    hide TraitsOf, KindOf, FramesOk, Site, Program.Valid, Inv, I16, U16, Exec, StepSound, Successors;
    hide HeightChange, Decodable;
    TopOk(p, frames, s.callStack);
    var fr := Top(frames);
    Bridge(p, s, fr, i);
    RelativeJumpSizes();
    var sec, op := p.sections[fr.section], p.env.code[s.pc];
    OperandAgrees(p, s, fr, i, 1);
    SuccessorList(sec, i);
    RJumpFalls(op);
    RJumpExec(p.env, ch, s, op);
    var o := Exec(p.env, ch, s, op);
    var list := Successors(sec, i);
    assert forall k :: 0 <= k < |list| ==> list[k] in list;
    JumpedTo(p, s, frames, i, o.s, i + (o.s.pc - s.pc));
  }

  lemma RJumpFalls(op: byte)
    ensures op == OP_RJUMPI ==> FallsThrough(op)
    ensures op == OP_RJUMP ==> !FallsThrough(op)
    ensures op == OP_RJUMPV ==> FallsThrough(op)
    ensures op == OP_CALLF ==> FallsThrough(op)
  {
  }

  /** The effect of RJUMPV in interpreter terms alone. */
  lemma RJumpVExec(env: Env, ch: Choice, s: State)
    requires |s.stack| >= 1 && 0 <= s.pc && s.pc + 1 < |env.code|
    requires s.pc + 1 + (env.code[s.pc + 1] as int + 1) * REL_OFFSET_SIZE < |env.code|
    requires |s.stack| >= TraitsOf(OP_RJUMPV).stackHeightRequired
    ensures RJumpVLands(env, s, Exec(env, ch, s, OP_RJUMPV))
  {
    hide KindOf, TraitsOf, Exec, ExecRJumpV, RJumpVLands;
    ControlKinds(OP_RJUMPV);
    TraitsMatchImplementation(OP_RJUMPV);
    ExecControl(env, ch, s, OP_RJUMPV);
    RJumpVEffect(env, s);
  }

  /** Past the table when the index is too large, else by the selected entry. */
  ghost predicate RJumpVLands(env: Env, s: State, o: Outcome)
    requires |s.stack| >= 1 && 0 <= s.pc && s.pc + 1 < |env.code|
    requires s.pc + 1 + (env.code[s.pc + 1] as int + 1) * REL_OFFSET_SIZE < |env.code|
  {
    var post := s.pc + 2 + (env.code[s.pc + 1] as int + 1) * REL_OFFSET_SIZE;
    var index := Low64(s.stack[|s.stack| - 1]);
    && o.Next? && o.s.callStack == s.callStack && |o.s.stack| == |s.stack| - 1
    && (index > env.code[s.pc + 1] ==> o.s.pc == post)
    && (index <= env.code[s.pc + 1] ==> o.s.pc == post + I16(env.code, s.pc + 2 + index * REL_OFFSET_SIZE))
  }

  lemma RJumpVEffect(env: Env, s: State)
    requires |s.stack| >= 1 && 0 <= s.pc && s.pc + 1 < |env.code|
    requires s.pc + 1 + (env.code[s.pc + 1] as int + 1) * REL_OFFSET_SIZE < |env.code|
    ensures RJumpVLands(env, s, ExecRJumpV(env, s))
  {
    hide I16, Low64;
  }

  lemma RJumpVSound(p: Program, ch: Choice, s: State, frames: seq<Frame>, i: nat)
    requires p.Valid() && FramesOk(p, frames, s.callStack) && Site(p, s, Top(frames), i)
    requires p.env.code[s.pc] == OP_RJUMPV
    requires |s.stack| >= TraitsOf(p.env.code[s.pc]).stackHeightRequired
    ensures StepSound(p, s, frames, Exec(p.env, ch, s, p.env.code[s.pc]))
  {
    hide KindOf, FramesOk, Site, Program.Valid, Inv, I16, U16, Exec, StepSound, Successors, HeightChange;
    hide Decodable, Low64;
    TopOk(p, frames, s.callStack);
    var fr := Top(frames);
    Bridge(p, s, fr, i);
    var sec := p.sections[fr.section];
    SuccessorList(sec, i);
    TableSize(p, s, fr, i);
    RJumpFalls(OP_RJUMPV);
    RJumpVExec(p.env, ch, s);
    var list := Successors(sec, i);
    var index := Low64(s.stack[|s.stack| - 1]);
    var o := Exec(p.env, ch, s, OP_RJUMPV);
    var slot := if index > sec.code[i + 1] then 0 else index + 1;
    if slot > 0 {
      OperandAgrees(p, s, fr, i, 2 + index * REL_OFFSET_SIZE);
    }
    assert list[slot] in list;
    JumpedTo(p, s, frames, i, o.s, list[slot]);
  }

  /** Each of the validator's successors of a relative jump is where some operand takes the interpreter. */
  lemma EverySuccessorTaken(p: Program, ch: Choice, s: State, fr: Frame, i: nat, t: int)
    requires p.Valid() && FrameOk(p, fr) && Site(p, s, fr, i) && p.env.code[s.pc] in {OP_RJUMP, OP_RJUMPI, OP_RJUMPV}
    requires t in Successors(p.sections[fr.section], i) && s.stack != []
    ensures exists w: Word :: Lands(p.env, ch, WithTop(s, w), p.Offset(fr.section) + t)
  {
    hide TraitsOf, KindOf, Site, I16, U16, Exec, Successors, HeightChange, Decodable, Low64;
    Bridge(p, s, fr, i);
    RelativeJumpSizes();
    var sec, op := p.sections[fr.section], p.env.code[s.pc];
    SuccessorList(sec, i);
    RJumpFalls(op);
    RJumpSizes();
    var list := Successors(sec, i);
    var k :| 0 <= k < |list| && list[k] == t;
    if op == OP_RJUMPV {
      TableSize(p, s, fr, i);
      var w: Word := if k == 0 then 256 else k - 1;
      if k > 0 { OperandAgrees(p, s, fr, i, 2 + (k - 1) * REL_OFFSET_SIZE); }
      TableLands(p.env, ch, s, w);
      assert Lands(p.env, ch, WithTop(s, w), p.Offset(fr.section) + t);
    } else {
      OperandAgrees(p, s, fr, i, 1);
      var w: Word := if op == OP_RJUMPI && k == 0 then 0 else 1;
      RJumpExec(p.env, ch, WithTop(s, w), op);
      assert Lands(p.env, ch, WithTop(s, w), p.Offset(fr.section) + t);
    }
  }

  /** The same state with another top item. */
  function WithTop(s: State, w: Word): State
    requires s.stack != []
  {
    s.(stack := s.stack[..|s.stack| - 1] + [w])
  }

  ghost predicate Lands(env: Env, ch: Choice, s: State, pc: int) {
    && 0 <= s.pc < |env.code| && |s.stack| >= TraitsOf(env.code[s.pc]).stackHeightRequired
    && Exec(env, ch, s, env.code[s.pc]).Next? && Exec(env, ch, s, env.code[s.pc]).s.pc == pc
  }

  /** The overflow the validator refuses is the one CALLF and JUMPF report on so many items and no return address. */
  lemma OverflowAgrees(sec: Section, i: nat, env: Env, s: State)
    requires EofStackHeight.Checked(sec) && IsStart(sec.code, i) && (sec.code[i] == OP_CALLF || sec.code[i] == OP_JUMPF)
    requires SectionOperand(env, s.pc) && NamesSection(sec, i)
    requires env.types == sec.types && env.code[s.pc + 1] == sec.code[i + 1] && env.code[s.pc + 2] == sec.code[i + 2]
    requires s.callStack == []
    ensures Decodable(sec, i)
    ensures var o := if sec.code[i] == OP_CALLF then ExecCallF(env, s) else ExecJumpF(env, s);
      LocalError(sec, i, |s.stack|) == Some(StackOverflow) <==> o == Halt(Overflow, s, false)
  {
    hide TraitsOf, IsStart, InstructionsOk, RjumpsOk, LocalError;
    CheckedDecodable(sec, i);
    if sec.code[i] == OP_CALLF {
      CallfRule(sec, i, |s.stack|);
    } else if Target(sec, i).outputs == NON_RETURNING {
      JumpfRule(sec, i, |s.stack|);
    } else {
      JumpfReturningRule(sec, i, |s.stack|);
    }
  }

  lemma TableLands(env: Env, ch: Choice, s: State, w: Word)
    requires s.stack != [] && 0 <= s.pc && s.pc + 1 < |env.code| && env.code[s.pc] == OP_RJUMPV && w <= 256
    requires s.pc + 1 + (env.code[s.pc + 1] as int + 1) * REL_OFFSET_SIZE < |env.code|
    ensures var post := s.pc + 2 + (env.code[s.pc + 1] as int + 1) * REL_OFFSET_SIZE;
      && (w == 256 ==> Lands(env, ch, WithTop(s, w), post))
      && (w <= env.code[s.pc + 1] ==>
            Lands(env, ch, WithTop(s, w), post + I16(env.code, s.pc + 2 + w * REL_OFFSET_SIZE)))
  {
    hide KindOf, Exec, I16;
    RJumpVExec(env, ch, WithTop(s, w));
  }

  /** The jump table the interpreter reads is the one the validator measured. */
  lemma TableSize(p: Program, s: State, fr: Frame, i: nat)
    requires p.Valid() && FrameOk(p, fr) && Site(p, s, fr, i) && p.env.code[s.pc] == OP_RJUMPV
    ensures i + 1 < |p.sections[fr.section].code| && s.pc + 1 < |p.env.code|
    ensures p.env.code[s.pc + 1] == p.sections[fr.section].code[i + 1]
    ensures var code := p.sections[fr.section].code;
      NextInstr(code, i) == i + 2 + (code[i + 1] as int + 1) * REL_OFFSET_SIZE
    ensures s.pc + 1 + (p.env.code[s.pc + 1] as int + 1) * REL_OFFSET_SIZE < |p.env.code|
  {
    hide IsStart, LocalError, TypedAt, Checked, InstructionError;
  }

  // ---------------------------------------------------------------- calls and returns

  /** The section operand at a CALLF or JUMPF, with what validation and the type section say about it. */
  lemma CalleeFacts(p: Program, s: State, fr: Frame, i: nat)
    requires p.Valid() && FrameOk(p, fr) && Site(p, s, fr, i)
    requires p.env.code[s.pc] == OP_CALLF || p.env.code[s.pc] == OP_JUMPF
    ensures SectionOperand(p.env, s.pc)
    ensures var sec, g := p.sections[fr.section], U16(p.env.code, s.pc + 1);
      && g < |p.sections| && Decodable(sec, i) && Callee(sec, i) == p.env.types[g]
      && sec.types[sec.index] == p.env.types[fr.section]
      && p.env.types[g].inputs <= 127 && p.env.types[fr.section].outputs <= 128
      && (p.Returns(g) ==> p.env.types[g].outputs <= 127)
      && (p.env.code[s.pc] == OP_CALLF ==> p.Returns(g))
      && (p.env.code[s.pc] == OP_JUMPF && p.Returns(g) ==> p.Returns(fr.section))
  {
    hide IsStart, U16, I16, TypedAt, NextInstr, GasCost;
    var sec := p.sections[fr.section];
    assert p.SectionAt(fr.section);
    Bridge(p, s, fr, i);
    SectionOperandSize(sec, i);
    OperandAgrees(p, s, fr, i, 1);
    var g := U16(p.env.code, s.pc + 1);
    assert TypeOk(sec.types[g]) && TypeOk(sec.types[fr.section]);
    assert ReturnsAt(sec, i) ==> sec.Returning();
  }

  lemma SectionOperandSize(sec: Section, i: nat)
    requires i < |sec.code| && (sec.code[i] == OP_CALLF || sec.code[i] == OP_JUMPF)
    ensures NextInstr(sec.code, i) == i + 3
  {
  }

  /** The exact height rule at each of the three frame-changing instructions. */
  lemma FrameHeights(sec: Section, i: nat, h: int)
    requires Decodable(sec, i) && LocalError(sec, i, h) == None && h >= 0
    ensures sec.code[i] == OP_CALLF && Callee(sec, i).inputs <= 127 ==> h >= Callee(sec, i).inputs
    ensures sec.code[i] == OP_CALLF && Callee(sec, i).inputs <= 127 && Callee(sec, i).outputs <= 127 ==>
      HeightChange(sec, i) == Callee(sec, i).outputs - Callee(sec, i).inputs
    ensures sec.code[i] == OP_JUMPF && Callee(sec, i).outputs == NON_RETURNING && Callee(sec, i).inputs <= 127 ==>
      h >= Callee(sec, i).inputs
    ensures (sec.code[i] == OP_JUMPF && Callee(sec, i).outputs != NON_RETURNING
             && Callee(sec, i).inputs <= 127 && Callee(sec, i).outputs <= 127
             && sec.types[sec.index].outputs <= 127) ==>
      h == sec.types[sec.index].outputs as int + Callee(sec, i).inputs - Callee(sec, i).outputs >= Callee(sec, i).inputs
    ensures sec.code[i] == OP_RETF && sec.types[sec.index].outputs <= 127 ==> h == sec.types[sec.index].outputs
  {
    hide TraitsOf, NextInstr, U16, Decodable, FallsThrough, Callee;
  }

  lemma EntryCurrent(p: Program, s: State, g: nat, base: int)
    requires p.Valid() && g < |p.sections| && FrameOk(p, Frame(g, base))
    requires s.pc == p.Offset(g) && |s.stack| == base + p.env.types[g].inputs
    ensures Current(p, s, Frame(g, base), 0)
  {
    hide IsStart, Checked, NextInstr, LocalError, TypedAt;
    assert p.SectionAt(g);
    EntryIsStart(p.sections[g].code);
  }

  lemma EntryIsStart(code: seq<byte>)
    requires |code| > 0
    ensures IsStart(code, 0)
  {
  }

  lemma CallFExec(env: Env, ch: Choice, s: State, op: byte)
    requires (op == OP_CALLF || op == OP_JUMPF) && SectionOperand(env, s.pc)
    requires |s.stack| >= TraitsOf(op).stackHeightRequired
    ensures Exec(env, ch, s, op) == if op == OP_CALLF then ExecCallF(env, s) else ExecJumpF(env, s)
  {
    hide ExecCallF, ExecJumpF, KindOf, Exec;
    ControlKinds(op);
    TraitsMatchImplementation(op);
    ExecControl(env, ch, s, op);
  }

  lemma CallFSound(p: Program, ch: Choice, s: State, frames: seq<Frame>, i: nat)
    requires p.Valid() && FramesOk(p, frames, s.callStack) && Site(p, s, Top(frames), i)
    requires p.env.code[s.pc] == OP_CALLF
    requires |s.stack| >= TraitsOf(p.env.code[s.pc]).stackHeightRequired
    ensures StepSound(p, s, frames, Exec(p.env, ch, s, p.env.code[s.pc]))
  {
    hide TraitsOf, Site, Program.Valid, Exec, U16, I16, Decodable, NextInstr, HeightChange, Successors, IsStart, Callee;
    TopOk(p, frames, s.callStack);
    var fr := Top(frames);
    CalleeFacts(p, s, fr, i);
    CallFExec(p.env, ch, s, OP_CALLF);
    if ExecCallF(p.env, s).Next? {
      CallFNext(p, s, frames, i);
    }
  }

  lemma CallFNext(p: Program, s: State, frames: seq<Frame>, i: nat)
    requires p.Valid() && FramesOk(p, frames, s.callStack) && Site(p, s, Top(frames), i)
    requires p.env.code[s.pc] == OP_CALLF && ExecCallF(p.env, s).Next?
    ensures Inv(p, ExecCallF(p.env, s).s, NextFrames(p, s, frames))
  {
    hide TraitsOf, U16, I16, Decodable, NextInstr, HeightChange, Successors, IsStart, Callee, LocalError;
    hide Checked, FramesOk, InstructionError, TypedAt;
    TopOk(p, frames, s.callStack);
    var fr := Top(frames);
    var sec := p.sections[fr.section];
    CalleeFacts(p, s, fr, i);
    Bridge(p, s, fr, i);
    SiteHeight(p, s, fr, i);
    FrameHeights(sec, i, p.Height(fr.section, i));
    var g := U16(p.env.code, s.pc + 1);
    var callee := Frame(g, |s.stack| - p.env.types[g].inputs);
    var s' := ExecCallF(p.env, s).s;
    EntryCurrent(p, s', g, callee.base);
    SectionOperandSize(sec, i);
    RJumpFalls(OP_CALLF);
    SuccessorList(sec, i);
    var next := NextInstr(sec.code, i);
    assert Successors(sec, i)[0] in Successors(sec, i);
    NextHeight(p, s, fr, i, next);
    assert AtStart(p, s.pc + 3, fr.section, next);
    assert ReturnOk(p, fr, callee, s.pc + 3);
    PushFrame(p, frames, s.callStack, callee, s.pc + 3);
    EnteredInv(p, s', frames + [callee]);
  }

  /** A state at the entry of its top frame satisfies the invariant. */
  lemma EnteredInv(p: Program, s: State, frames: seq<Frame>)
    requires p.Valid() && FramesOk(p, frames, s.callStack) && FrameOk(p, Top(frames)) && Current(p, s, Top(frames), 0)
    ensures Inv(p, s, frames)
  {
    hide FramesOk, Current, FrameOk, Program.Valid;
  }

  lemma SiteHeight(p: Program, s: State, fr: Frame, i: nat)
    requires p.Valid() && FrameOk(p, fr) && Site(p, s, fr, i)
    ensures var h := p.Height(fr.section, i);
      && h >= 0 && Decodable(p.sections[fr.section], i) && LocalError(p.sections[fr.section], i, h) == None
      && |s.stack| == fr.base + h && h <= p.MaxHeight(fr.section)
  {
    hide LocalError, NextInstr, Checked, IsStart, InstructionError;
  }

  lemma NextHeight(p: Program, s: State, fr: Frame, i: nat, j: nat)
    requires p.Valid() && FrameOk(p, fr) && Site(p, s, fr, i)
    requires Decodable(p.sections[fr.section], i) && (j as int) in Successors(p.sections[fr.section], i)
    ensures j < |p.sections[fr.section].code| && IsStart(p.sections[fr.section].code, j)
    ensures p.Height(fr.section, j) == p.Height(fr.section, i) + HeightChange(p.sections[fr.section], i)
  {
    hide LocalError, NextInstr, Checked, IsStart, InstructionError, Successors, HeightChange;
    InstructionStartDecodes(p.sections[fr.section].code, j);
  }

  lemma PushFrame(p: Program, frames: seq<Frame>, callStack: seq<int>, callee: Frame, ret: int)
    requires p.Valid() && FramesOk(p, frames, callStack) && FrameOk(p, callee)
    requires FrameOk(p, Top(frames)) && ReturnOk(p, Top(frames), callee, ret)
    ensures FramesOk(p, frames + [callee], callStack + [ret])
  {
    hide ReturnOk, FrameOk, Program.Valid;
  }

  lemma PopFrame(p: Program, frames: seq<Frame>, callStack: seq<int>)
    requires p.Valid() && FramesOk(p, frames, callStack) && callStack != []
    ensures FramesOk(p, frames[..|frames| - 1], callStack[..|callStack| - 1])
    ensures FrameOk(p, frames[|frames| - 2]) && FrameOk(p, Top(frames))
    ensures ReturnOk(p, frames[|frames| - 2], Top(frames), callStack[|callStack| - 1])
  {
    hide ReturnOk, FrameOk, Program.Valid;
  }

  /** A tail call keeps the promise made to the caller: the replaced frame may only leave what it owed. */
  lemma ReplaceFrame(p: Program, frames: seq<Frame>, callStack: seq<int>, fr: Frame)
    requires p.Valid() && FramesOk(p, frames, callStack) && FrameOk(p, fr) && FrameOk(p, Top(frames))
    requires p.Returns(fr.section) ==>
      && p.Returns(Top(frames).section)
      && fr.base + p.env.types[fr.section].outputs == Top(frames).base + p.env.types[Top(frames).section].outputs
    ensures FramesOk(p, frames[..|frames| - 1] + [fr], callStack)
  {
    hide Program.Valid, AtStart, FrameOk;
    var frames' := frames[..|frames| - 1] + [fr];
    forall k {:trigger callStack[k]} | 0 <= k < |callStack|
      ensures FrameOk(p, frames'[k]) && FrameOk(p, frames'[k + 1])
      ensures ReturnOk(p, frames'[k], frames'[k + 1], callStack[k])
    {
      assert ReturnOk(p, frames[k], frames[k + 1], callStack[k]);
    }
  }

  lemma JumpFSound(p: Program, ch: Choice, s: State, frames: seq<Frame>, i: nat)
    requires p.Valid() && FramesOk(p, frames, s.callStack) && Site(p, s, Top(frames), i)
    requires p.env.code[s.pc] == OP_JUMPF
    requires |s.stack| >= TraitsOf(p.env.code[s.pc]).stackHeightRequired
    ensures StepSound(p, s, frames, Exec(p.env, ch, s, p.env.code[s.pc]))
  {
    hide TraitsOf, Site, Program.Valid, Exec, U16, I16, Decodable, NextInstr, HeightChange, Successors, IsStart, Callee;
    TopOk(p, frames, s.callStack);
    var fr := Top(frames);
    CalleeFacts(p, s, fr, i);
    CallFExec(p.env, ch, s, OP_JUMPF);
    if ExecJumpF(p.env, s).Next? {
      JumpFNext(p, s, frames, i);
    }
  }

  lemma JumpFNext(p: Program, s: State, frames: seq<Frame>, i: nat)
    requires p.Valid() && FramesOk(p, frames, s.callStack) && Site(p, s, Top(frames), i)
    requires p.env.code[s.pc] == OP_JUMPF && ExecJumpF(p.env, s).Next?
    ensures Inv(p, ExecJumpF(p.env, s).s, NextFrames(p, s, frames))
  {
    hide TraitsOf, U16, I16, Decodable, NextInstr, HeightChange, Successors, IsStart, Callee, LocalError;
    hide Checked, FramesOk, InstructionError, TypedAt;
    TopOk(p, frames, s.callStack);
    var fr := Top(frames);
    var sec := p.sections[fr.section];
    CalleeFacts(p, s, fr, i);
    Bridge(p, s, fr, i);
    SiteHeight(p, s, fr, i);
    FrameHeights(sec, i, p.Height(fr.section, i));
    var g := U16(p.env.code, s.pc + 1);
    var target := Frame(g, |s.stack| - p.env.types[g].inputs);
    EntryCurrent(p, ExecJumpF(p.env, s).s, g, target.base);
    ReplaceFrame(p, frames, s.callStack, target);
    EnteredInv(p, ExecJumpF(p.env, s).s, frames[..|frames| - 1] + [target]);
  }

  lemma RetFExec(env: Env, ch: Choice, s: State)
    requires |s.stack| >= TraitsOf(OP_RETF).stackHeightRequired
    ensures Exec(env, ch, s, OP_RETF) == ExecRetF(env, s)
  {
    hide ExecRetF, KindOf, Exec;
    ControlKinds(OP_RETF);
    TraitsMatchImplementation(OP_RETF);
    ExecControl(env, ch, s, OP_RETF);
  }

  /** RETF occurs only in returning sections, so never in the outermost frame. */
  lemma ReturnsHere(p: Program, s: State, fr: Frame, i: nat)
    requires p.Valid() && FrameOk(p, fr) && Site(p, s, fr, i) && p.env.code[s.pc] == OP_RETF
    ensures p.Returns(fr.section) && p.env.types[fr.section].outputs <= 127
    ensures p.sections[fr.section].index == fr.section && p.sections[fr.section].types == p.env.types
  {
    hide IsStart, U16, TypedAt, NextInstr, InstructionError, LocalError;
    var sec := p.sections[fr.section];
    assert p.SectionAt(fr.section);
    assert ReturnsAt(sec, i);
    assert TypeOk(sec.types[fr.section]);
  }

  lemma RetFSound(p: Program, ch: Choice, s: State, frames: seq<Frame>, i: nat)
    requires p.Valid() && FramesOk(p, frames, s.callStack) && Site(p, s, Top(frames), i)
    requires p.env.code[s.pc] == OP_RETF
    requires |s.stack| >= TraitsOf(p.env.code[s.pc]).stackHeightRequired
    ensures s.callStack != []
    ensures StepSound(p, s, frames, Exec(p.env, ch, s, p.env.code[s.pc]))
  {
    hide TraitsOf, Site, Program.Valid, Exec, U16, I16, Decodable, NextInstr, HeightChange, Successors;
    hide IsStart, Callee, LocalError;
    TopOk(p, frames, s.callStack);
    var fr := Top(frames);
    RetFExec(p.env, ch, s);
    ReturnsHere(p, s, fr, i);
    assert |frames| > 1;
    PopFrame(p, frames, s.callStack);
    Bridge(p, s, fr, i);
    SiteHeight(p, s, fr, i);
    FrameHeights(p.sections[fr.section], i, p.Height(fr.section, i));
    ReturnCurrent(p, ExecRetF(p.env, s).s, frames[|frames| - 2], fr, s.callStack[|s.callStack| - 1]);
    var s' := ExecRetF(p.env, s).s;
    var rest := frames[..|frames| - 1];
    assert Top(rest) == frames[|frames| - 2];
    assert FramesOk(p, rest, s'.callStack);
    assert Inv(p, s', rest);
    assert NextFrames(p, s, frames) == rest;
  }

  /** Popping the return stack resumes the caller right after its CALLF, at the validated height. */
  lemma ReturnCurrent(p: Program, s: State, caller: Frame, callee: Frame, ret: int)
    requires p.Valid() && FrameOk(p, caller) && FrameOk(p, callee) && ReturnOk(p, caller, callee, ret)
    requires p.Returns(callee.section) && s.pc == ret && |s.stack| == callee.base + p.env.types[callee.section].outputs
    ensures exists i: nat :: Current(p, s, caller, i)
  {
    hide AtStart;
    var i: nat :| AtStart(p, ret, caller.section, i)
      && callee.base + p.env.types[callee.section].outputs == caller.base + p.Height(caller.section, i);
    assert Current(p, s, caller, i);
  }

  // ---------------------------------------------------------------- every step

  lemma ControlIsKnown(p: Program, s: State, fr: Frame, i: nat)
    requires p.Valid() && FrameOk(p, fr) && Site(p, s, fr, i) && IsControl(KindOf(p.env.code[s.pc]))
    ensures p.env.code[s.pc] in {OP_RJUMP, OP_RJUMPI, OP_RJUMPV, OP_CALLF, OP_RETF, OP_JUMPF}
  {
    hide KindOf, Site;
    Bridge(p, s, fr, i);
    ControlKinds(p.env.code[s.pc]);
    SiteDefined(p, s, fr, i);
  }

  lemma ExecSafe(p: Program, ch: Choice, s: State, frames: seq<Frame>, i: nat)
    requires p.Valid() && FramesOk(p, frames, s.callStack) && Site(p, s, Top(frames), i)
    requires |s.stack| >= TraitsOf(p.env.code[s.pc]).stackHeightRequired
    ensures StepSound(p, s, frames, Exec(p.env, ch, s, p.env.code[s.pc]))
  {
    hide TraitsOf, KindOf, FramesOk, Site, Program.Valid, Exec, StepSound, IsControl;
    TopOk(p, frames, s.callStack);
    Bridge(p, s, Top(frames), i);
    var op := p.env.code[s.pc];
    if !IsControl(KindOf(op)) {
      OrdinarySound(p, ch, s, frames, i);
    } else {
      ControlIsKnown(p, s, Top(frames), i);
      if op == OP_RJUMP || op == OP_RJUMPI {
        RJumpSound(p, ch, s, frames, i);
      } else if op == OP_RJUMPV {
        RJumpVSound(p, ch, s, frames, i);
      } else if op == OP_CALLF {
        CallFSound(p, ch, s, frames, i);
      } else if op == OP_RETF {
        RetFSound(p, ch, s, frames, i);
      } else {
        JumpFSound(p, ch, s, frames, i);
      }
    }
  }

  /** The base charge changes nothing the invariant speaks of. */
  lemma Charged(p: Program, s: State, gas: int, frames: seq<Frame>, o: Outcome)
    requires p.Valid() && 0 <= s.pc < |p.env.code| && StepSound(p, s.(gas := gas), frames, o)
    ensures StepSound(p, s, frames, o)
  {
    hide Program.Valid, Inv;
  }

  /** Progress and preservation: a step from the invariant continues and keeps it, or ends in an excused way. */
  lemma StepSafe(p: Program, ch: Choice, s: State, frames: seq<Frame>)
    requires p.Valid() && Inv(p, s, frames)
    ensures 0 <= s.pc < |p.env.code| && ImmediateInside(p.env, s, p.env.code[s.pc])
    ensures StepSound(p, s, frames, Step(p.env, ch, s))
  {
    hide TraitsOf, KindOf, FramesOk, FrameOk, Current, Site, Program.Valid, Exec, CheckRequirements, ImmediateInside;
    TopOk(p, frames, s.callStack);
    var fr := Top(frames);
    var i: nat :| Current(p, s, fr, i);
    SiteHolds(p, s, fr, i);
    Bridge(p, s, fr, i);
    CheckSafe(p, s, fr, i);
    var op := p.env.code[s.pc];
    var (failed, gas) := CheckRequirements(p.env, s.gas, |s.stack|, op);
    if failed == None {
      CheckPassed(p.env, s.gas, |s.stack|, op);
      var charged := s.(gas := gas);
      SameCurrent(p, s, charged, fr, i);
      SiteHolds(p, charged, fr, i);
      ExecSafe(p, ch, charged, frames, i);
      Charged(p, s, gas, frames, Exec(p.env, ch, charged, op));
    }
  }

  lemma SameCurrent(p: Program, s: State, s': State, fr: Frame, i: nat)
    requires p.Valid() && FrameOk(p, fr) && Current(p, s, fr, i) && s'.pc == s.pc && s'.stack == s.stack
    ensures Current(p, s', fr, i)
  {
    hide Program.Valid, FrameOk, AtStart;
  }

  // ---------------------------------------------------------------- whole runs

  /** The frames of a run after n steps. */
  ghost function FramesAfter(p: Program, choices: nat -> Choice, s: State, frames: seq<Frame>, n: nat): seq<Frame>
    requires p.Valid()
  {
    if n == 0 then frames
    else
      match Run(p.env, choices, s, n - 1)
      case Next(t) => NextFrames(p, t, FramesAfter(p, choices, s, frames, n - 1))
      case _ => FramesAfter(p, choices, s, frames, n - 1)
  }

  /** The run's step m was its last, and was sound. */
  ghost predicate StoppedAt(p: Program, choices: nat -> Choice, s: State, frames: seq<Frame>, n: nat, m: nat)
    requires p.Valid()
  {
    m < n && Run(p.env, choices, s, m).Next? &&
    var t, fs := Run(p.env, choices, s, m).s, FramesAfter(p, choices, s, frames, m);
    && Inv(p, t, fs) && Run(p.env, choices, s, n) == Step(p.env, choices(m), t)
    && 0 <= t.pc < |p.env.code| && StepSound(p, t, fs, Run(p.env, choices, s, n))
  }

  /** Soundness of whole runs, for every sequence of answers from the outside world. */
  lemma {:induction false} RunSafe(p: Program, choices: nat -> Choice, s: State, frames: seq<Frame>, n: nat)
    requires p.Valid() && Inv(p, s, frames)
    ensures Run(p.env, choices, s, n).Next? ==>
      Inv(p, Run(p.env, choices, s, n).s, FramesAfter(p, choices, s, frames, n))
    ensures !Run(p.env, choices, s, n).Next? ==> exists m :: StoppedAt(p, choices, s, frames, n, m)
  {
    hide Program.Valid, Inv, NextFrames, Step, ImmediateInside;
    if n > 0 {
      RunSafe(p, choices, s, frames, n - 1);
      match Run(p.env, choices, s, n - 1)
      case Next(t) =>
        StepSafe(p, choices(n - 1), t, FramesAfter(p, choices, s, frames, n - 1));
        if !Run(p.env, choices, s, n).Next? {
          assert StoppedAt(p, choices, s, frames, n, n - 1);
        }
      case _ =>
        var m :| StoppedAt(p, choices, s, frames, n - 1, m);
        assert StoppedAt(p, choices, s, frames, n, m);
    }
  }

  /** The state in which code starts: at its origin, empty stack, nothing to return to. */
  predicate Initial(env: Env, s: State) {
    s.pc == env.origin && s.stack == [] && s.callStack == []
  }

  lemma InitialInv(p: Program, s: State)
    requires p.Valid() && Initial(p.env, s)
    ensures Inv(p, s, [Frame(0, 0)])
  {
    hide IsStart, LocalError, NextInstr, InstructionsOk, RjumpsOk;
    assert p.SectionAt(0);
    assert TypeOk(p.env.types[0]);
    EntryCurrent(p, s, 0, 0);
    assert FramesOk(p, [Frame(0, 0)], []);
    EnteredInv(p, s, [Frame(0, 0)]);
  }

  /** What can be said of any state a program reaches, without its frames. */
  ghost predicate WellPlaced(p: Program, s: State)
    requires p.Valid()
  {
    exists fr: Frame, i: nat :: FrameOk(p, fr) && Current(p, s, fr, i)
      && 0 <= p.Height(fr.section, i) <= p.MaxHeight(fr.section)
  }

  lemma InvWellPlaced(p: Program, s: State, frames: seq<Frame>)
    requires p.Valid() && Inv(p, s, frames)
    ensures WellPlaced(p, s)
  {
    hide FramesOk, Program.Valid, Site, FrameOk, Current;
    TopOk(p, frames, s.callStack);
    var i: nat :| Current(p, s, Top(frames), i);
    SiteHolds(p, s, Top(frames), i);
    SiteHeight(p, s, Top(frames), i);
    Placement(p, s, Top(frames), i);
  }

  lemma Placement(p: Program, s: State, fr: Frame, i: nat)
    requires p.Valid() && FrameOk(p, fr) && Current(p, s, fr, i)
    requires 0 <= p.Height(fr.section, i) <= p.MaxHeight(fr.section)
    ensures WellPlaced(p, s)
  {
    hide IsStart;
  }

  /** Step m was the last one of the run, and ended it in an excused way. */
  ghost predicate EndedAt(env: Env, choices: nat -> Choice, s: State, n: nat, m: nat) {
    m < n && Run(env, choices, s, m).Next? &&
    var t := Run(env, choices, s, m).s;
    && 0 <= t.pc < |env.code| && Run(env, choices, s, n) == Step(env, choices(m), t)
    && Excused(env, t, Run(env, choices, s, n))
  }

  /** Type soundness of a validated program, from its start, for any number of steps. */
  lemma ProgramSafe(p: Program, choices: nat -> Choice, s: State, n: nat)
    requires p.Valid() && Initial(p.env, s)
    ensures var o := Run(p.env, choices, s, n);
      if o.Next? then WellPlaced(p, o.s) && 0 <= o.s.pc < |p.env.code| && |o.s.stack| <= STACK_LIMIT
      else exists m :: EndedAt(p.env, choices, s, n, m)
  {
    hide Inv, Program.Valid, StoppedAt, WellPlaced, EndedAt, Run;
    InitialInv(p, s);
    RunSafe(p, choices, s, [Frame(0, 0)], n);
    var o := Run(p.env, choices, s, n);
    if o.Next? {
      InvWellPlaced(p, o.s, FramesAfter(p, choices, s, [Frame(0, 0)], n));
      PlacedBounds(p, o.s);
    } else {
      var m :| StoppedAt(p, choices, s, [Frame(0, 0)], n, m);
      StoppedFacts(p, choices, s, [Frame(0, 0)], n, m);
    }
  }

  /** Step m gets past the requirements check and is stuck. */
  ghost predicate FaultsAt(env: Env, choices: nat -> Choice, s: State, m: nat) {
    Run(env, choices, s, m).Next? &&
    var t := Run(env, choices, s, m).s;
    && 0 <= t.pc < |env.code| && Stuck(env, t)
    && CheckRequirements(env, t.gas, |t.stack|, env.code[t.pc]).0 == None
  }

  /** The exact condition for the outcome Fault: a run of validated code ends so if and only if it executes an
      indexed DUP or SWAP that leads outside the stack array, or a PUSH5 or PUSH6 whose load passes the buffer. */
  lemma ProgramFaultsExactly(p: Program, choices: nat -> Choice, s: State, n: nat)
    requires p.Valid() && Initial(p.env, s)
    ensures Run(p.env, choices, s, n).Fault? <==> exists m :: 0 <= m < n && FaultsAt(p.env, choices, s, m)
  {
    hide Program.Valid, WellPlaced, Step, Stuck, Run;
    if Run(p.env, choices, s, n).Fault? {
      ProgramSafe(p, choices, s, n);
      var m :| EndedAt(p.env, choices, s, n, m);
      FaultingStep(p.env, choices, s, n, m);
    }
    if m :| 0 <= m < n && FaultsAt(p.env, choices, s, m) {
      HarmfulFaults(p.env, choices(m), Run(p.env, choices, s, m).s);
      StepInRun(p.env, choices, s, m + 1);
      FaultRemains(p.env, choices, s, m + 1, n);
    }
  }

  lemma FaultingStep(env: Env, choices: nat -> Choice, s: State, n: nat, m: nat)
    requires EndedAt(env, choices, s, n, m) && Run(env, choices, s, n).Fault?
    ensures FaultsAt(env, choices, s, m)
  {
    hide Run, Exec, CheckRequirements, Stuck;
  }

  /** No instruction of the program can be stuck; what immediates contain does not matter. */
  ghost predicate FaultFree(p: Program)
    requires p.Valid()
  {
    forall f: nat, i: nat :: f < |p.sections| && IsStart(p.sections[f].code, i) ==> Harmless(p.env, p.Offset(f) + i)
  }

  lemma PlacedHarmless(p: Program, s: State)
    requires p.Valid() && WellPlaced(p, s) && FaultFree(p)
    ensures !Stuck(p.env, s)
  {
    hide IsStart, Checked, Typed, Harmless, Stuck;
    var fr: Frame, i: nat :|
      FrameOk(p, fr) && Current(p, s, fr, i) && 0 <= p.Height(fr.section, i) <= p.MaxHeight(fr.section);
    HarmlessNotStuck(p.env, s);
  }

  lemma HarmlessNotStuck(env: Env, s: State)
    requires Harmless(env, s.pc)
    ensures !Stuck(env, s)
  {
  }

  /** Runs of such programs never fault. */
  lemma FaultFreeRuns(p: Program, choices: nat -> Choice, s: State, n: nat)
    requires p.Valid() && Initial(p.env, s) && FaultFree(p)
    ensures !Run(p.env, choices, s, n).Fault?
  {
    hide Program.Valid, WellPlaced, Step, Stuck, Run, FaultFree;
    ProgramFaultsExactly(p, choices, s, n);
    if m :| 0 <= m < n && FaultsAt(p.env, choices, s, m) {
      ProgramSafe(p, choices, s, m);
      PlacedHarmless(p, Run(p.env, choices, s, m).s);
    }
  }

  lemma PlacedBounds(p: Program, s: State)
    requires p.Valid() && WellPlaced(p, s)
    ensures 0 <= s.pc < |p.env.code| && |s.stack| <= STACK_LIMIT
  {
    hide IsStart, Checked, Typed;
    var fr: Frame, i: nat :|
      FrameOk(p, fr) && Current(p, s, fr, i) && 0 <= p.Height(fr.section, i) <= p.MaxHeight(fr.section);
    assert p.SectionAt(fr.section);
    StartInside(p.sections[fr.section].code, i);
  }

  lemma StartInside(code: seq<byte>, i: nat)
    requires IsStart(code, i)
    ensures i < |code|
  {
  }

  lemma StoppedFacts(p: Program, choices: nat -> Choice, s: State, frames: seq<Frame>, n: nat, m: nat)
    requires p.Valid() && StoppedAt(p, choices, s, frames, n, m) && !Run(p.env, choices, s, n).Next?
    ensures EndedAt(p.env, choices, s, n, m)
  {
    hide Inv, Program.Valid, Step, NextFrames, Excused;
  }

  /** If the host never gives gas back, validated code runs out of steps: gas pays for every backward move. */
  lemma ProgramTerminates(p: Program, choices: nat -> Choice, s: State, n: nat)
    requires p.Valid() && Initial(p.env, s) && s.gas >= 0 && (forall k :: choices(k).cost >= 0)
    requires n > s.gas * (|p.env.code| + 1) + |p.env.code|
    ensures !Run(p.env, choices, s, n).Next?
  {
    hide Inv, Program.Valid, ImmediateInside, Step;
    InitialInv(p, s);
    if Run(p.env, choices, s, n).Next? {
      forall k: nat | k <= n && Run(p.env, choices, s, k).Next?
        ensures var t := Run(p.env, choices, s, k).s;
          0 <= t.pc < |p.env.code| && ImmediateInside(p.env, t, p.env.code[t.pc])
      {
        RunSafe(p, choices, s, [Frame(0, 0)], k);
        StepSafe(p, choices(k), Run(p.env, choices, s, k).s, FramesAfter(p, choices, s, [Frame(0, 0)], k));
      }
      RunMeasure(p.env, choices, s, n);
      assert false;
    }
  }

  // ---------------------------------------------------------------- return discipline

  /** One step's effect on the frames, against its effect on the return stack. */
  lemma StepReturns(p: Program, ch: Choice, s: State, frames: seq<Frame>)
    requires p.Valid() && Inv(p, s, frames) && Step(p.env, ch, s).Next?
    ensures 0 <= s.pc < |p.env.code| && |frames| == |s.callStack| + 1
    ensures var s', fs := Step(p.env, ch, s).s, NextFrames(p, s, frames);
      && |fs| == |s'.callStack| + 1 && KeepsReturns(p.env.code[s.pc], s, s') && Inv(p, s', fs)
  {
    hide TraitsOf, KindOf, Site, Program.Valid, Exec, CheckRequirements, ImmediateInside, NextFrames, FrameOk;
    hide Current, Step, ReturnOk;
    StepSafe(p, ch, s, frames);
    StepKeepsReturns(p.env, ch, s);
  }

  lemma StepKeepsReturns(env: Env, ch: Choice, s: State)
    requires 0 <= s.pc < |env.code| && ImmediateInside(env, s, env.code[s.pc]) && Step(env, ch, s).Next?
    ensures KeepsReturns(env.code[s.pc], s, Step(env, ch, s).s)
  {
    hide KindOf, TraitsOf, Exec, CheckRequirements, ImmediateInside, IsControl;
    var op := env.code[s.pc];
    CheckPassed(env, s.gas, |s.stack|, op);
    var charged := s.(gas := CheckRequirements(env, s.gas, |s.stack|, op).1);
    ChargedInside(env, s, charged.gas, op);
    ControlKinds(op);
    if IsControl(KindOf(op)) { ControlEffect(env, ch, charged, op); }
    else { OrdinaryShape(env, ch, charged, op); NotCallOrReturn(op); }
  }

  lemma ChargedInside(env: Env, s: State, gas: int, op: byte)
    requires ImmediateInside(env, s, op)
    ensures ImmediateInside(env, s.(gas := gas), op)
  {
    hide TraitsOf;
  }

  lemma NotCallOrReturn(op: byte)
    requires !IsControl(KindOf(op))
    ensures op != OP_CALLF && op != OP_RETF
  {
    hide KindOf;
    ControlKinds(op);
  }

  /** While nothing returns below depth d, the lowest d frames and d - 1 return addresses stay put. */
  lemma LowerFramesKept(p: Program, ch: Choice, s: State, frames: seq<Frame>, d: nat)
    requires p.Valid() && Inv(p, s, frames) && Step(p.env, ch, s).Next?
    requires 0 < d <= |s.callStack| && d <= |Step(p.env, ch, s).s.callStack|
    ensures |frames| == |s.callStack| + 1
    ensures var s', fs := Step(p.env, ch, s).s, NextFrames(p, s, frames);
      && s'.callStack[..d] == s.callStack[..d] && |fs| == |s'.callStack| + 1 && fs[..d] == frames[..d]
  {
    hide Inv, Step, Program.Valid;
    StepReturns(p, ch, s, frames);
  }

  /** The state, and the frames, m steps into a run from the program's start. */
  ghost predicate Reaches(p: Program, choices: nat -> Choice, s: State, n: nat, t: State, frames: seq<Frame>)
    requires p.Valid()
  {
    && Initial(p.env, s) && Run(p.env, choices, s, n) == Next(t)
    && frames == FramesAfter(p, choices, s, [Frame(0, 0)], n) && Inv(p, t, frames)
  }

  lemma ReachesEvery(p: Program, choices: nat -> Choice, s: State, n: nat)
    requires p.Valid() && Initial(p.env, s) && Run(p.env, choices, s, n).Next?
    ensures Reaches(p, choices, s, n, Run(p.env, choices, s, n).s, FramesAfter(p, choices, s, [Frame(0, 0)], n))
  {
    hide Inv, Program.Valid, Run, FramesAfter;
    InitialInv(p, s);
    RunSafe(p, choices, s, [Frame(0, 0)], n);
  }

  /** The state after n steps of a run that gets that far. */
  function StateAt(env: Env, choices: nat -> Choice, s: State, n: nat): State
    requires Run(env, choices, s, n).Next?
  {
    Run(env, choices, s, n).s
  }

  /** Between steps m and n, control stays inside the call made at step m. */
  ghost predicate InsideCall(env: Env, choices: nat -> Choice, s: State, m: nat, n: nat) {
    && m < n && Run(env, choices, s, n).Next? && Run(env, choices, s, m).Next?
    && 0 <= StateAt(env, choices, s, m).pc < |env.code| && env.code[StateAt(env, choices, s, m).pc] == OP_CALLF
    && forall k: nat :: m < k <= n && Run(env, choices, s, k).Next? ==>
         |StateAt(env, choices, s, k).callStack| > |StateAt(env, choices, s, m).callStack|
  }

  /** Inside a call, its return address and its caller's frames are untouched. */
  lemma {:induction false} CallKept(p: Program, choices: nat -> Choice, s: State, m: nat, n: nat)
    requires p.Valid() && Initial(p.env, s) && InsideCall(p.env, choices, s, m, n)
    ensures var a, b := StateAt(p.env, choices, s, m), StateAt(p.env, choices, s, n);
      var d := |a.callStack| + 1;
      && d <= |b.callStack| && b.callStack[..d] == a.callStack + [a.pc + 3]
      && |FramesAfter(p, choices, s, [Frame(0, 0)], n)| == |b.callStack| + 1
      && |FramesAfter(p, choices, s, [Frame(0, 0)], m)| == d
      && FramesAfter(p, choices, s, [Frame(0, 0)], n)[..d] == FramesAfter(p, choices, s, [Frame(0, 0)], m)
    decreases n
  {
    hide Inv, Program.Valid, Step;
    RunPrefix(p.env, choices, s, n - 1, n);
    ReachesEvery(p, choices, s, n - 1);
    var t := StateAt(p.env, choices, s, n - 1);
    var frames := FramesAfter(p, choices, s, [Frame(0, 0)], n - 1);
    StepReturns(p, choices(n - 1), t, frames);
    if n == m + 1 {
      FirstFrames(p, choices(m), t, frames);
    } else {
      CallKept(p, choices, s, m, n - 1);
      LowerFramesKept(p, choices(n - 1), t, frames, |StateAt(p.env, choices, s, m).callStack| + 1);
    }
  }

  lemma FirstFrames(p: Program, ch: Choice, s: State, frames: seq<Frame>)
    requires p.Valid() && Inv(p, s, frames) && Step(p.env, ch, s).Next?
    requires 0 <= s.pc < |p.env.code| && p.env.code[s.pc] == OP_CALLF
    ensures |frames| == |s.callStack| + 1
    ensures var s', fs := Step(p.env, ch, s).s, NextFrames(p, s, frames);
      |fs| == |s'.callStack| + 1 == |frames| + 1 && fs[..|frames|] == frames && s'.callStack == s.callStack + [s.pc + 3]
  {
    hide Inv, Step, Program.Valid;
    StepReturns(p, ch, s, frames);
  }

  /** Resuming after a call in the caller's frame means the validated height there. */
  lemma ResumeHeight(p: Program, a: State, b: State, frames: seq<Frame>)
    requires p.Valid() && Inv(p, a, frames) && Inv(p, b, frames) && b.pc == a.pc + 3
    requires 0 <= a.pc < |p.env.code| && p.env.code[a.pc] == OP_CALLF
    ensures SectionOperand(p.env, a.pc)
    ensures var t := p.env.types[U16(p.env.code, a.pc + 1)];
      |b.stack| == |a.stack| - t.inputs as int + t.outputs
  {
    hide TraitsOf, Site, U16, I16, Decodable, NextInstr, HeightChange, Successors, IsStart, Callee;
    hide LocalError, Program.Valid, FramesOk, FrameOk, SectionOperand;
    TopOk(p, frames, a.callStack);
    var fr := Top(frames);
    var i: nat :| Current(p, a, fr, i);
    var j: nat :| Current(p, b, fr, j);
    SiteHolds(p, a, fr, i);
    CalleeFacts(p, a, fr, i);
    Bridge(p, a, fr, i);
    SiteHeight(p, a, fr, i);
    FrameHeights(p.sections[fr.section], i, p.Height(fr.section, i));
    AfterCall(p, a, b, fr, i, j);
  }

  lemma AfterCall(p: Program, a: State, b: State, fr: Frame, i: nat, j: nat)
    requires p.Valid() && FrameOk(p, fr) && Site(p, a, fr, i) && Current(p, b, fr, j)
    requires p.env.code[a.pc] == OP_CALLF && b.pc == a.pc + 3
    ensures Decodable(p.sections[fr.section], i)
    ensures |b.stack| == |a.stack| + HeightChange(p.sections[fr.section], i)
  {
    hide TraitsOf, U16, I16, NextInstr, HeightChange, Successors, IsStart, Callee, LocalError, Program.Valid;
    hide Checked, TypedAt, InstructionError;
    var sec := p.sections[fr.section];
    Bridge(p, a, fr, i);
    SectionOperandSize(sec, i);
    RJumpFalls(OP_CALLF);
    SuccessorList(sec, i);
    assert Successors(sec, i)[0] in Successors(sec, i);
    NextHeight(p, a, fr, i, i + 3);
  }

  /** Step e is the first after which control has left the call made at step m. */
  ghost predicate LeavesCall(env: Env, choices: nat -> Choice, s: State, m: nat, e: nat) {
    && 0 < e && InsideCall(env, choices, s, m, e - 1) && Run(env, choices, s, e).Next?
    && |StateAt(env, choices, s, e).callStack| <= |StateAt(env, choices, s, m).callStack|
  }

  /** State b resumes after the CALLF at a, with the callee's outputs in place of its inputs. */
  ghost predicate Resumes(env: Env, a: State, b: State) {
    && SectionOperand(env, a.pc) && b.pc == a.pc + 3 && b.callStack == a.callStack
    && var t := env.types[U16(env.code, a.pc + 1)]; |b.stack| == |a.stack| - t.inputs as int + t.outputs
  }

  /**
   * Return discipline: when control first leaves a call made by CALLF, through any JUMPFs and inner calls,
   * it resumes right after that CALLF at the height of the call less the inputs plus the outputs.
   */
  lemma CallReturns(p: Program, choices: nat -> Choice, s: State, m: nat, e: nat)
    requires p.Valid() && Initial(p.env, s) && LeavesCall(p.env, choices, s, m, e)
    ensures Resumes(p.env, StateAt(p.env, choices, s, m), StateAt(p.env, choices, s, e))
  {
    hide Inv, Program.Valid, Step, SectionOperand, NextFrames;
    var n := e - 1;
    CallKept(p, choices, s, m, n);
    ReachesEvery(p, choices, s, m);
    ReachesEvery(p, choices, s, n);
    var t := StateAt(p.env, choices, s, n);
    var frames := FramesAfter(p, choices, s, [Frame(0, 0)], n);
    StepReturns(p, choices(n), t, frames);
    assert t.callStack == t.callStack[..|t.callStack|];
    PoppedFrames(p, choices(n), t, frames);
    ResumeHeight(p, StateAt(p.env, choices, s, m), StateAt(p.env, choices, s, e),
                 FramesAfter(p, choices, s, [Frame(0, 0)], m));
  }

  lemma PoppedFrames(p: Program, ch: Choice, s: State, frames: seq<Frame>)
    requires p.Valid() && Inv(p, s, frames) && Step(p.env, ch, s).Next?
    requires |Step(p.env, ch, s).s.callStack| < |s.callStack|
    ensures |frames| == |s.callStack| + 1
    ensures Inv(p, Step(p.env, ch, s).s, frames[..|s.callStack|])
  {
    hide Inv, Step, Program.Valid;
    StepReturns(p, ch, s, frames);
  }

  /** RETF always finds a return address. */
  lemma ReturnHasCaller(p: Program, choices: nat -> Choice, s: State, n: nat)
    requires p.Valid() && Initial(p.env, s) && Run(p.env, choices, s, n).Next?
    ensures var t := StateAt(p.env, choices, s, n);
      0 <= t.pc < |p.env.code| && (p.env.code[t.pc] == OP_RETF ==> t.callStack != [])
  {
    hide Program.Valid, Run, FramesAfter, Site, FrameOk, Current, ReturnOk;
    ReachesEvery(p, choices, s, n);
    var t := StateAt(p.env, choices, s, n);
    var frames := FramesAfter(p, choices, s, [Frame(0, 0)], n);
    TopOk(p, frames, t.callStack);
    var i: nat :| Current(p, t, Top(frames), i);
    SiteHolds(p, t, Top(frames), i);
    Bridge(p, t, Top(frames), i);
    if p.env.code[t.pc] == OP_RETF { ReturnsHere(p, t, Top(frames), i); }
  }
}
