/**
 * From code to circuit: a condition on the code alone under which execution produces a consistent trace, the
 * gas that pays for every record, and `evaluate` with `handle_rw` in one piece.
 */
module Assigner {
  import opened Bytes
  import opened Opcodes
  import opened EofInstructions
  import opened EofStackHeight
  import opened EofHeader
  import opened EofValidation
  import opened MemoryGas
  import opened Words
  import opened RwTrace
  import opened RwColumns
  import opened RwTable
  import opened Interpreter
  import opened EofSoundness
  import opened EofContainer
  import opened ExecutionState
  import opened LegacyCode
  import opened TraceConsistency

  // ---------------------------------------------------------------- a condition on the code

  /** Opcodes whose implementation, in every state, is defined and records exactly what it does. */
  predicate Recording(op: byte) {
    var k := KindOf(op); !k.KExternal? && !k.KSwap? && k !in {KMulMod, KDupAt, KSwapAt}
  }

  /** Every instruction is of that kind; where Prague code can skip a PUSH, every byte. */
  predicate RecordingCode(rev: Revision, code: seq<byte>) {
    forall i :: 0 <= i < |code| && (NeverSkips(rev, code) ==> LegacyStart(code, i)) ==> Recording(code[i])
  }

  lemma RecordingFaithful(env: Env, s: State)
    requires 0 <= s.pc < |env.code| && Recording(env.code[s.pc])
    ensures Faithful(env, s)
  {
    hide KindOf;
  }

  lemma RecordingDefined(op: byte)
    requires Recording(op)
    ensures op != OP_DUP && op != OP_SWAP
  {
    hide KindOf;
    ControlKinds(op);
  }

  lemma StopRecords()
    ensures Recording(OP_STOP)
  {
  }

  lemma RecordingIsDefined(rev: Revision, code: seq<byte>)
    requires RecordingCode(rev, code)
    ensures FreeOfIndexed(rev, code)
  {
    hide LegacyStart, NeverSkips, Recording;
    forall i | 0 <= i < |code| && (NeverSkips(rev, code) ==> LegacyStart(code, i))
      ensures code[i] != OP_DUP && code[i] != OP_SWAP
    {
      RecordingDefined(code[i]);
    }
  }

  /** Every instruction a run of such code executes is of that kind. */
  lemma ExecutesRecording(rev: Revision, callId: nat, code: seq<byte>, choices: nat -> Choice, s: State, n: nat)
    requires RecordingCode(rev, code) && Initial(LegacyEnv(rev, callId, code), s)
    requires Run(LegacyEnv(rev, callId, code), choices, s, n).Next?
    ensures var env := LegacyEnv(rev, callId, code); var t := Run(env, choices, s, n).s;
      0 <= t.pc < |env.code| && Recording(env.code[t.pc]) && ImmediateInside(env, t, env.code[t.pc])
  {
    hide Run, LegacyStart, NeverSkips, Recording, ImmediateInside;
    var env := LegacyEnv(rev, callId, code);
    LegacyRunSafe(rev, callId, code, choices, s, n);
    FetchInside(env, code, Run(env, choices, s, n).s);
    StopRecords();
  }

  /** Up to step n the run executes only instructions of that kind, and fetches them whole. */
  ghost predicate RecordsAlong(env: Env, choices: nat -> Choice, s: State, n: nat) {
    forall k: nat :: k <= n && Run(env, choices, s, k).Next? ==>
      var t := Run(env, choices, s, k).s;
      0 <= t.pc < |env.code| && Recording(env.code[t.pc]) && ImmediateInside(env, t, env.code[t.pc])
  }

  lemma LegacyRecordsAlong(rev: Revision, callId: nat, code: seq<byte>, choices: nat -> Choice, s: State, n: nat)
    requires RecordingCode(rev, code) && Initial(LegacyEnv(rev, callId, code), s)
    ensures RecordsAlong(LegacyEnv(rev, callId, code), choices, s, n)
  {
    hide Run, RecordingCode, Recording, LegacyEnv, Initial, ImmediateInside;
    forall k: nat | k <= n && Run(LegacyEnv(rev, callId, code), choices, s, k).Next?
      ensures var env := LegacyEnv(rev, callId, code); var t := Run(env, choices, s, k).s;
        0 <= t.pc < |env.code| && Recording(env.code[t.pc]) && ImmediateInside(env, t, env.code[t.pc])
    {
      ExecutesRecording(rev, callId, code, choices, s, k);
    }
  }

  /** The same for validated EOF code, section by section. */
  ghost predicate RecordingSections(sections: seq<Section>) {
    forall f: nat, i: nat :: f < |sections| && IsStart(sections[f].code, i) ==> Recording(sections[f].code[i])
  }

  lemma ProgramRecordsAlong(p: Program, choices: nat -> Choice, s: State, n: nat)
    requires p.Valid() && Initial(p.env, s) && RecordingSections(p.sections)
    ensures RecordsAlong(p.env, choices, s, n)
  {
    hide Run, Recording, Program.Valid, WellPlaced, IsStart, ImmediateInside, Step, EofSoundness.Inv, FramesAfter;
    forall k: nat | k <= n && Run(p.env, choices, s, k).Next?
      ensures var t := Run(p.env, choices, s, k).s;
        0 <= t.pc < |p.env.code| && Recording(p.env.code[t.pc]) && ImmediateInside(p.env, t, p.env.code[t.pc])
    {
      var t := Run(p.env, choices, s, k).s;
      ProgramSafe(p, choices, s, k);
      PlacedOpcode(p, t);
      ReachesEvery(p, choices, s, k);
      StepSafe(p, choices(k), t, FramesAfter(p, choices, s, [Frame(0, 0)], k));
    }
  }

  lemma AcceptedRecordsAlong(c: seq<byte>, h: Headers, choices: nat -> Choice, s: State, n: nat)
    requires Accepted(c, h) && Initial(EofEnv(c, h), s) && RecordingSections(Sections(c, h))
    ensures RecordsAlong(EofEnv(c, h), choices, s, n)
  {
    hide Accepted, Parsed, EofEnv, Program.Valid, RecordsAlong, RecordingSections, Sections;
    var p := AcceptedProgram(c, h);
    ProgramRecordsAlong(p, choices, s, n);
  }

  lemma AlongIsFaithful(env: Env, choices: nat -> Choice, s: State, n: nat)
    requires RecordsAlong(env, choices, s, n)
    ensures FaithfulRun(env, choices, s, n)
  {
    hide Run, Recording, Faithful, ImmediateInside;
    forall k: nat | k < n && Run(env, choices, s, k).Next?
      ensures Faithful(env, Run(env, choices, s, k).s)
    {
      RecordingFaithful(env, Run(env, choices, s, k).s);
    }
  }

  lemma PlacedOpcode(p: Program, s: State)
    requires p.Valid() && WellPlaced(p, s)
    ensures 0 <= s.pc < |p.env.code|
    ensures exists f: nat, i: nat ::
      f < |p.sections| && IsStart(p.sections[f].code, i) && p.env.code[s.pc] == p.sections[f].code[i]
  {
    hide IsStart, Checked, Typed, Site;
    var fr: Frame, i: nat :|
      FrameOk(p, fr) && Current(p, s, fr, i) && 0 <= p.Height(fr.section, i) <= p.MaxHeight(fr.section);
    SiteHolds(p, s, fr, i);
    Bridge(p, s, fr, i);
  }

  // ---------------------------------------------------------------- every record is paid for

  /** No instruction makes more records than MLOAD and MSTORE. */
  const MAX_RECORDS := 34

  ghost predicate FewRecords(s: State, o: Outcome) {
    match o
    case Next(s') => |s'.trace| <= |s.trace| + MAX_RECORDS
    case Halt(_, s', _) => |s'.trace| <= |s.trace| + 2
    case Fault => true
  }

  lemma ArithmeticRecords(env: Env, ch: Choice, s: State, op: byte)
    requires |s.stack| >= TraitsOf(op).stackHeightRequired && KindOf(op) in {KBinary, KAddMod, KUnary}
    ensures FewRecords(s, Exec(env, ch, s, op))
  {
    hide KindOf, TraitsOf, Exec, Alu, AddMod, Unary;
    TraitsMatchImplementation(op);
    ExecArithmetic(env, ch, s, op);
  }

  lemma AccessRecords(env: Env, ch: Choice, s: State, op: byte)
    requires |s.stack| >= TraitsOf(op).stackHeightRequired
    requires var k := KindOf(op); k.KMLoad? || k.KMStore? || k.KReturn? || k.KSelfdestruct?
    ensures FewRecords(s, Exec(env, ch, s, op))
  {
    hide KindOf, TraitsOf, Exec, Touch, TouchRange, StoreAt, WordFromBytes, Low64;
    TraitsMatchImplementation(op);
    ExecAccess(env, ch, s, op);
  }

  lemma ControlRecords(env: Env, ch: Choice, s: State, op: byte)
    requires |s.stack| >= TraitsOf(op).stackHeightRequired && IsControl(KindOf(op))
    ensures FewRecords(s, Exec(env, ch, s, op))
  {
    hide KindOf, TraitsOf, Exec, U16, I16, Low64, SectionOperand, SectionEntry, CalleeRoom;
    TraitsMatchImplementation(op);
    ExecControl(env, ch, s, op);
  }

  lemma PushRecorded(env: Env, ch: Choice, s: State, op: byte)
    requires |s.stack| >= TraitsOf(op).stackHeightRequired && KindOf(op).KPush?
    ensures FewRecords(s, Exec(env, ch, s, op))
  {
    hide KindOf, TraitsOf, Exec, ExecPush, PushLeaves;
    TraitsMatchImplementation(op);
    ExecStackMove(env, ch, s, op);
    PushEffect(env, ch, s, KindOf(op).len);
  }

  lemma MoveRecords(env: Env, ch: Choice, s: State, op: byte)
    requires |s.stack| >= TraitsOf(op).stackHeightRequired
    requires var k := KindOf(op); k in {KPc, KMSize, KGas, KEnvPush, KDupN, KSwapN, KDataLoadN} || k.KDup?
    ensures FewRecords(s, Exec(env, ch, s, op))
  {
    hide KindOf, TraitsOf, Exec, Swapped, U16, WordFromBytes;
    TraitsMatchImplementation(op);
    ExecStackMove(env, ch, s, op);
  }

  /** Halting and dropping instructions; a continuing one leaves the trace as it is. */
  lemma QuietRecords(env: Env, ch: Choice, s: State, op: byte)
    requires |s.stack| >= TraitsOf(op).stackHeightRequired
    requires KindOf(op) in {KStop, KInvalid, KUnimplemented} || KindOf(op).KDrop?
    ensures FewRecords(s, Exec(env, ch, s, op))
    ensures Exec(env, ch, s, op).Next? ==> Exec(env, ch, s, op).s.trace == s.trace
  {
    hide KindOf, TraitsOf, Exec;
    TraitsMatchImplementation(op);
    ExecHalting(env, ch, s, op);
  }

  lemma ExecRecords(env: Env, ch: Choice, s: State, op: byte)
    requires |s.stack| >= TraitsOf(op).stackHeightRequired && Recording(op)
    ensures FewRecords(s, Exec(env, ch, s, op))
  {
    hide KindOf, TraitsOf, Exec, FewRecords;
    var k := KindOf(op);
    if IsControl(k) {
      ControlRecords(env, ch, s, op);
    } else if k in {KBinary, KAddMod, KUnary} {
      ArithmeticRecords(env, ch, s, op);
    } else if k.KMLoad? || k.KMStore? || k.KReturn? || k.KSelfdestruct? {
      AccessRecords(env, ch, s, op);
    } else if k.KPush? {
      PushRecorded(env, ch, s, op);
    } else if k in {KPc, KMSize, KGas, KEnvPush, KDupN, KSwapN, KDataLoadN} || k.KDup? {
      MoveRecords(env, ch, s, op);
    } else {
      QuietRecords(env, ch, s, op);
    }
  }

  /** The instructions whose base cost is zero in some revision. */
  lemma FreeOpcodes(op: byte)
    ensures FrontierCost(op) == 0 ==> op in {0x00, 0x55, 0xa1, 0xf3, 0xfe, 0xff}
  {
  }

  lemma FreeOverrides(rev: Revision, op: byte)
    ensures Override(rev, op) == Some(0) ==> op == 0xfd
  {
  }

  lemma {:induction false} FreeSince(rev: Revision, op: byte)
    requires GasCost(rev, op) == 0
    ensures op in {0x00, 0x55, 0xa1, 0xf3, 0xfd, 0xfe, 0xff}
    decreases Order(rev)
  {
    hide Override, FrontierCost;
    FreeOpcodes(op);
    FreeOverrides(rev, op);
    if rev != Frontier && Override(rev, op) == None { FreeSince(Previous(rev), op); }
  }

  lemma FreeKinds(op: byte)
    requires op in {0x00, 0x55, 0xa1, 0xf3, 0xfd, 0xfe, 0xff}
    ensures var k := KindOf(op); k.KStop? || k.KExternal? || k.KDrop? || k.KReturn? || k.KInvalid? || k.KSelfdestruct?
  {
  }

  /** What costs nothing, and continues, records nothing. */
  lemma FreeIsQuiet(env: Env, ch: Choice, s: State, op: byte)
    requires |s.stack| >= TraitsOf(op).stackHeightRequired && Recording(op) && BaseCost(env, op) == 0
    requires Exec(env, ch, s, op).Next?
    ensures Exec(env, ch, s, op).s.trace == s.trace
  {
    hide KindOf, TraitsOf, Exec, GasCost, HasConstGasCost;
    FreeSince(if HasConstGasCost(op) then Frontier else env.rev, op);
    FreeKinds(op);
    TraitsMatchImplementation(op);
    ExecHalting(env, ch, s, op);
    ExecAccess(env, ch, s, op);
    if KindOf(op).KDrop? {
      QuietRecords(env, ch, s, op);
    } else {
      NeverContinues(env, ch, s, op);
    }
  }

  lemma NeverContinues(env: Env, ch: Choice, s: State, op: byte)
    requires |s.stack| >= TraitsOf(op).stackHeightRequired
    requires var k := KindOf(op); k.KStop? || k.KReturn? || k.KInvalid? || k.KSelfdestruct?
    ensures !Exec(env, ch, s, op).Next?
  {
    hide KindOf, TraitsOf, Exec, TouchRange;
    TraitsMatchImplementation(op);
    ExecHalting(env, ch, s, op);
    ExecAccess(env, ch, s, op);
  }

  /** A continuing step makes at most 34 records for each unit of gas it spends, a halting one two for nothing. */
  lemma StepPaysForRecords(env: Env, ch: Choice, s: State)
    requires 0 <= s.pc < |env.code| && ImmediateInside(env, s, env.code[s.pc]) && Recording(env.code[s.pc])
    requires ch.cost >= 0
    ensures var o := Step(env, ch, s);
      && (o.Next? ==> 0 <= o.s.gas && |o.s.trace| + MAX_RECORDS * o.s.gas <= |s.trace| + MAX_RECORDS * s.gas)
      && (o.Halt? ==> |o.s.trace| <= |s.trace| + 2)
  {
    hide KindOf, TraitsOf, Exec, CheckRequirements, BaseCost, Recording, ImmediateInside;
    var op := env.code[s.pc];
    if CheckRequirements(env, s.gas, |s.stack|, op).0 == None {
      CheckPassed(env, s.gas, |s.stack|, op);
      var charged := s.(gas := CheckRequirements(env, s.gas, |s.stack|, op).1);
      ExecRecords(env, ch, charged, op);
      if Exec(env, ch, charged, op).Next? {
        ChargedInside(env, s, charged.gas, op);
        ExecEffect(env, ch, charged, op);
        ImplementedCost(env, s.gas, |s.stack|, op);
        if BaseCost(env, op) == 0 { FreeIsQuiet(env, ch, charged, op); }
      }
    }
  }

  /** Gas pays for every record: at most 34 for each unit spent, and two in the step that ends the run. */
  lemma {:induction false} RunPaysForRecords(env: Env, choices: nat -> Choice, s: State, n: nat)
    requires RecordsAlong(env, choices, s, n) && s.gas >= 0 && NeverRefunds(choices)
    ensures var o := Run(env, choices, s, n);
      && (o.Next? ==> 0 <= o.s.gas && |o.s.trace| + MAX_RECORDS * o.s.gas <= |s.trace| + MAX_RECORDS * s.gas)
      && (o.Halt? ==> |o.s.trace| <= |s.trace| + MAX_RECORDS * s.gas + 2)
  {
    hide Step, Recording, ImmediateInside;
    if n > 0 {
      RunPaysForRecords(env, choices, s, n - 1);
      if Run(env, choices, s, n - 1).Next? {
        StepPaysForRecords(env, choices(n - 1), Run(env, choices, s, n - 1).s);
      }
    }
  }

  // ---------------------------------------------------------------- evaluate and handle_rw

  /** What `analyze` takes for EOF code. */
  predicate RunsAsEof(rev: Revision, code: seq<byte>) {
    rev == Prague && |code| > 1 && code[0] == 0xef && code[1] == 0x00
  }

  /** The static condition in either format: recording instructions only, and in a container no over-reading push. */
  ghost predicate Assignable(rev: Revision, code: seq<byte>, h: Headers) {
    if RunsAsEof(rev, code) then Accepted(code, h) && Executable(code, h) && RecordingSections(Sections(code, h))
    else RecordingCode(rev, code)
  }

  ghost function EnvOf(rev: Revision, code: seq<byte>, h: Headers): Env
    requires RunsAsEof(rev, code) ==> Parsed(code, h)
  {
    if RunsAsEof(rev, code) then EofEnv(code, h) else LegacyEnv(rev, 0, code)
  }

  /** In either format runs of such code halt, and record what they do at every step. */
  lemma AssignableRuns(rev: Revision, code: seq<byte>, h: Headers, gas: int, choices: nat -> Choice, n: nat)
    requires Assignable(rev, code, h) && gas >= 0 && NeverRefunds(choices)
    ensures RunsAsEof(rev, code) ==> Parsed(code, h)
    ensures var env := EnvOf(rev, code, h);
      env.callId == 0 && Halts(env, choices, Start(env, gas)) && RecordsAlong(env, choices, Start(env, gas), n)
  {
    hide Accepted, Executable, RecordingSections, RecordingCode, Parsed, NeverRefunds, Halts, RecordsAlong;
    hide FreeOfIndexed, HeaderOf, GetData, Sections, Jumpdests;
    if RunsAsEof(rev, code) {
      AcceptedParsed(code, h);
      var start := Start(EofEnv(code, h), gas);
      AcceptedHalts(code, h, choices, start);
      AcceptedRecordsAlong(code, h, choices, start, n);
    } else {
      var start := Start(LegacyEnv(rev, 0, code), gas);
      RecordingIsDefined(rev, code);
      LegacyHalts(rev, 0, code, choices, start);
      LegacyRecordsAlong(rev, 0, code, choices, start, n);
    }
  }

  /** A halted execution of code from blank state, and the table rows made of its trace. */
  ghost predicate Assigned(env: Env, gas: int, choices: nat -> Choice, n: nat, final: State, status: Status,
          gasLeft: int, rows: seq<RwOperation>) {
    StopsWith(env, choices, Start(env, gas), n, status, final) && final.gas == gasLeft && IsSorting(final.trace, rows)
  }

  /** What a halted execution hands to the table. */
  lemma TraceReady(env: Env, gas: int, choices: nat -> Choice, n: nat, status: Status, final: State)
    requires env.callId == 0 && RecordsAlong(env, choices, Start(env, gas), n)
    requires gas >= 0 && MAX_RECORDS * gas + 2 <= Weight(2) && NeverRefunds(choices)
    requires StopsWith(env, choices, Start(env, gas), n, status, final)
    ensures Good(0, final.trace) && |final.trace| <= Weight(2)
  {
    hide Run, RecordsAlong, Good, FaithfulRun, Kept, Weight, NeverRefunds;
    var start := Start(env, gas);
    AlongIsFaithful(env, choices, start, n);
    RunKept(env, choices, start, n);
    KeptGood(env, Run(env, choices, start, n));
    RunPaysForRecords(env, choices, start, n);
  }

  /** `analyze` and `dispatch` for either format. */
  method Execute(rev: Revision, code: seq<byte>, ghost h: Headers, gas: int, choices: nat -> Choice)
    returns (status: Status, gasLeft: int, trace: seq<RwOperation>)
    requires RunsAsEof(rev, code) ==> Parsed(code, h)
    requires WholeMemory(choices) && Halts(EnvOf(rev, code, h), choices, Start(EnvOf(rev, code, h), gas))
    ensures exists n: nat, final: State ::
      && StopsWith(EnvOf(rev, code, h), choices, Start(EnvOf(rev, code, h), gas), n, status, final)
      && final.gas == gasLeft && final.trace == trace
  {
    hide StopsWith, WholeMemory, Halts, Parsed, EofEnv, LegacyEnv;
    if RunsAsEof(rev, code) {
      status, gasLeft, trace := ExecuteContainer(code, h, gas, choices);
    } else {
      status, gasLeft, trace := ExecuteLegacy(rev, 0, code, gas, choices);
    }
  }

  /**
   * `evaluate` and `handle_rw`: code of either format that a static condition accepts is analysed and executed,
   * and its trace put into the table, whose rows all pass the neighbour check. The gas limit keeps record numbers
   * in 32 bits.
   */
  method EvaluateAndAssign(f: Field, table: Table, start: nat, rev: Revision, code: seq<byte>, ghost h: Headers,
                           gas: int, choices: nat -> Choice)
    returns (status: Status, gasLeft: int, rows: seq<RwOperation>)
    requires f.Valid() && Assignable(rev, code, h) && NeverRefunds(choices) && WholeMemory(choices)
    requires gas >= 0 && MAX_RECORDS * gas + 2 <= Weight(2)
    requires forall c: nat, q: nat :: q >= start ==> Cell(table.cells, c, q) == 0
    modifies table
    ensures RunsAsEof(rev, code) ==> Parsed(code, h)
    ensures exists n: nat, final: State ::
      && Assigned(EnvOf(rev, code, h), gas, choices, n, final, status, gasLeft, rows)
      && ReadsBack(table.cells, start, |rows|, final.trace)
    ensures forall q: nat :: start < q < start + |rows| ==> NeighboursAgree(table.cells, q)
  {
    hide Assignable, NeverRefunds, WholeMemory, StopsWith, Good, IsSorting, NeighboursAgree, Weight, Cell, Halts;
    hide ReadsBack;
    hide RecordsAlong, EnvOf, Parsed;
    AssignableRuns(rev, code, h, gas, choices, 0);
    var trace;
    status, gasLeft, trace := Execute(rev, code, h, gas, choices);
    ghost var env := EnvOf(rev, code, h);
    ghost var n: nat, final: State :|
      StopsWith(env, choices, Start(env, gas), n, status, final) && final.gas == gasLeft && final.trace == trace;
    AssignableRuns(rev, code, h, gas, choices, n);
    TraceReady(env, gas, choices, n, status, final);
    NoId();
    rows := HandleRw(f, table, start, 0, trace);
    assert Assigned(env, gas, choices, n, final, status, gasLeft, rows);
  }

  lemma NoId()
    ensures 0 < Weight(2)
  {
    WeightValues();
  }
}
