/**
 * The recursion evaluate, call_impl, handle_call, evaluate: for every host a whole tree of executions is
 * built, depth bounded by 1024 and steps by gas, and every execution in it comes to a halt.
 */
module Evaluation {
  import opened Bytes
  import opened Opcodes
  import opened MemoryGas
  import opened Interpreter
  import opened ExecutionState
  import opened LegacyCode
  import opened CallGas
  import EofSoundness

  /** What the host has at the recipient of a call: nothing to run, a refusal, or code. */
  datatype Recipient = Empty | Refuses | Holds(code: seq<byte>)

  /** The host's part in one step: answers to call_impl and create_impl, the recipient, and everything else. */
  datatype Reply = Reply(answers: Answers, recipient: Recipient, choice: Choice)

  /** A host replies to step k of the execution that the call steps of `path` lead to. */
  type Host = (seq<nat>, nat) -> Reply

  ghost predicate Sane(host: Host) {
    forall path: seq<nat>, k: nat :: SaneReply(host(path, k))
  }

  predicate SaneReply(r: Reply) {
    r.choice.cost >= 0
  }

  const NOTHING := Choice(0, 0, false, [], [], [], _ => 0)

  /** More steps than an execution with so much gas can take. */
  function StepBound(gas: int, code: seq<byte>): nat {
    if gas < 0 then 1 else gas * (|code| + 34) + |code| + 34
  }

  // ---------------------------------------------------------------- one more step

  /** The next step of f passes its check and is a call or creation. */
  ghost predicate Nests(f: Frame) {
    Passes(f, f.steps) && IsNested(OpAt(f, f.steps))
  }

  lemma OperandsChecked(f: Frame, k: nat)
    requires Passes(f, k) && IsNested(OpAt(f, k))
    ensures |ExecutesIn(f, k).stack| >= Operands(OpAt(f, k))
  {
    hide Run, TraitsOf, CheckRequirements;
    var s := Run(f.env, f.choices, StartOf(f), k).s;
    CheckPassed(f.env, s.gas, |s.stack|, OpAt(f, k));
    NestedOperands(OpAt(f, k));
  }

  ghost function Prepares(f: Frame, a: Answers): Prepared
    requires Nests(f)
  {
    OperandsChecked(f, f.steps);
    Prepare(f.env, f.depth, a, ExecutesIn(f, f.steps), OpAt(f, f.steps))
  }

  lemma MadeAboveLimit(env: Env, depth: nat, a: Answers, t: State, op: byte)
    requires |t.stack| >= Operands(op) && Prepare(env, depth, a, t, op).Made?
    ensures depth < MAX_DEPTH
  {
    hide Surcharged, MessageGas, TouchRange;
  }

  /** What the outside world contributes once the callee is known. */
  ghost function ChoiceOf(f: Frame, r: Reply, callee: Callee): Choice {
    if !Nests(f) then r.choice
    else
      var gas := ExecutesIn(f, f.steps).gas;
      match Prepares(f, r.answers)
      case Failed => r.choice.(failure := true, cost := 0)
      case Light(g) => r.choice.(failure := false, cost := gas - g)
      case Made(g, m) => r.choice.(failure := false, cost := gas - (g - (m - CalleeGas(callee, m))))
  }

  /** Frame f with one more step. */
  ghost function Extend(f: Frame, r: Reply, callee: Callee): Frame {
    var ch := ChoiceOf(f, r, callee);
    Frame(f.env, f.depth, f.gas, (k: nat) => if k == f.steps then ch else f.choices(k), f.steps + 1,
          if Nests(f) then f.calls + [NestedCall(f.steps, r.answers, callee)] else f.calls)
  }

  // ---------------------------------------------------------------- the recursion

  /** The first n steps of `evaluate`, with everything they call. */
  ghost function Build(host: Host, path: seq<nat>, depth: nat, code: seq<byte>, gas: int, n: nat): (f: Frame)
    requires depth <= MAX_DEPTH
    ensures f.env == LegacyEnv(Shanghai, 0, code) && f.depth == depth && f.gas == gas && f.steps == n
    decreases MAX_DEPTH - depth, n, 1
  {
    if n == 0 then LegacyFrame(code, depth, gas, _ => NOTHING, 0)
    else
      var f := Build(host, path, depth, code, gas, n - 1);
      Extend(f, host(path, n - 1), CalleeOf(host, path, f))
  }

  /** `handle_call` and `handle_create` as the next step of f reaches them: a whole execution, one level down. */
  ghost function CalleeOf(host: Host, path: seq<nat>, f: Frame): Callee
    requires f.depth <= MAX_DEPTH
    decreases MAX_DEPTH - f.depth, f.steps, 0
  {
    var r := host(path, f.steps);
    if !Nests(f) || !Prepares(f, r.answers).Made? then NoCode
    else
      OperandsChecked(f, f.steps);
      MadeAboveLimit(f.env, f.depth, r.answers, ExecutesIn(f, f.steps), OpAt(f, f.steps));
      var m := Prepares(f, r.answers).message;
      match r.recipient
      case Empty => NoCode
      case Refuses => Refused
      case Holds(code) => Executed(Build(host, path + [f.steps], f.depth + 1, code, m, StepBound(m, code)))
  }

  // ---------------------------------------------------------------- extension keeps what was

  lemma {:induction false} RunAgrees(env: Env, a: nat -> Choice, b: nat -> Choice, s: State, n: nat)
    requires forall k: nat :: k < n ==> a(k) == b(k)
    ensures Run(env, a, s, n) == Run(env, b, s, n)
  {
    hide Step;
    if n > 0 { RunAgrees(env, a, b, s, n - 1); }
  }

  lemma Extended(f: Frame, r: Reply, callee: Callee, k: nat)
    requires k <= f.steps
    ensures var f' := Extend(f, r, callee);
      && Run(f'.env, f'.choices, StartOf(f'), k) == Run(f.env, f.choices, StartOf(f), k)
      && (Passes(f', k) <==> Passes(f, k))
      && (Passes(f, k) ==> OpAt(f', k) == OpAt(f, k) && ExecutesIn(f', k) == ExecutesIn(f, k))
  {
    hide Run, CheckRequirements, ChoiceOf;
    var f' := Extend(f, r, callee);
    RunAgrees(f.env, f'.choices, f.choices, StartOf(f), k);
  }

  lemma CallRemains(f: Frame, r: Reply, callee: Callee, c: NestedCall)
    requires CallAt(f, c)
    ensures CallAt(Extend(f, r, callee), c)
  {
    hide Run, Passes, OpAt, ExecutesIn, Accounted, ChoiceOf, IsNested;
    Extended(f, r, callee, c.step);
  }

  /** The call that the new step makes is accounted for. */
  lemma CallAdded(f: Frame, r: Reply, callee: Callee)
    requires Nests(f)
    requires callee.Executed? ==> Prepares(f, r.answers).Made?
    requires callee.Executed? ==>
      callee.frame.gas == Prepares(f, r.answers).message && callee.frame.depth == f.depth + 1
    ensures CallAt(Extend(f, r, callee), NestedCall(f.steps, r.answers, callee))
  {
    hide Run, Passes, OpAt, ExecutesIn, Prepare, IsNested, CalleeGas;
    Extended(f, r, callee, f.steps);
    OperandsChecked(f, f.steps);
  }

  lemma ExtendConsistent(f: Frame, r: Reply, callee: Callee, code: seq<byte>)
    requires Consistent(f) && SaneReply(r) && f.env == LegacyEnv(Shanghai, 0, code)
    requires Nests(f) && callee.Executed? ==>
      && Prepares(f, r.answers).Made? && Consistent(callee.frame)
      && callee.frame.gas == Prepares(f, r.answers).message && callee.frame.depth == f.depth + 1
    requires !Nests(f) ==> !callee.Executed?
    ensures Consistent(Extend(f, r, callee))
  {
    hide Run, Passes, OpAt, ExecutesIn, Prepares, IsNested, CallAt, Fetches, LegacyEnv, Consistent;
    var f' := Extend(f, r, callee);
    ConsistentParts(f);
    forall k: nat ensures Fetches(f', k) {
      LegacyFrameFetches(f', code, k);
    }
    forall k: nat | k < f'.steps && Passes(f', k)
      ensures StepAccounted(f', k)
    {
      StillAccounted(f, r, callee, k);
    }
    forall j | 0 <= j < |f'.calls|
      ensures CallAt(f', f'.calls[j]) && (f'.calls[j].callee.Executed? ==> Consistent(f'.calls[j].callee.frame))
    {
      if j < |f.calls| { CallRemains(f, r, callee, f.calls[j]); } else { CallAdded(f, r, callee); }
    }
    ConsistentWhole(f');
  }

  lemma StartsLegacy(code: seq<byte>, f: Frame)
    requires f.env == LegacyEnv(Shanghai, 0, code)
    ensures EofSoundness.Initial(LegacyEnv(Shanghai, 0, code), StartOf(f))
  {
  }

  lemma ConsistentParts(f: Frame)
    requires Consistent(f)
    ensures forall k: nat :: k < f.steps && Passes(f, k) ==> StepAccounted(f, k)
    ensures forall j :: 0 <= j < |f.calls| ==> CallAt(f, f.calls[j])
    ensures forall j :: 0 <= j < |f.calls| && f.calls[j].callee.Executed? ==> Consistent(f.calls[j].callee.frame)
  {
    hide Passes, CallAt, Fetches, StepAccounted;
  }

  lemma ConsistentWhole(f: Frame)
    requires forall k: nat :: Fetches(f, k)
    requires forall k: nat :: k < f.steps && Passes(f, k) ==> StepAccounted(f, k)
    requires forall j :: 0 <= j < |f.calls| ==> CallAt(f, f.calls[j])
    requires forall j :: 0 <= j < |f.calls| && f.calls[j].callee.Executed? ==> Consistent(f.calls[j].callee.frame)
    ensures Consistent(f)
  {
    hide Passes, CallAt, Fetches, StepAccounted;
  }

  lemma StillAccounted(f: Frame, r: Reply, callee: Callee, k: nat)
    requires k < f.steps ==> (Passes(f, k) ==> StepAccounted(f, k))
    requires k <= f.steps && Passes(Extend(f, r, callee), k) && SaneReply(r)
    ensures StepAccounted(Extend(f, r, callee), k)
  {
    hide Run, Passes, OpAt, ExecutesIn, Prepares, IsNested;
    Extended(f, r, callee, k);
    var f' := Extend(f, r, callee);
    if k < f.steps {
      if IsNested(OpAt(f, k)) {
        var j :| 0 <= j < |f.calls| && f.calls[j].step == k;
        assert f'.calls[j] == f.calls[j];
      }
    } else if IsNested(OpAt(f, k)) {
      assert f'.calls[|f.calls|].step == k;
    }
  }

  // ---------------------------------------------------------------- every tree is consistent

  lemma FirstFrame(code: seq<byte>, depth: nat, gas: int)
    ensures Consistent(LegacyFrame(code, depth, gas, _ => NOTHING, 0))
  {
    hide Run, Fetches;
    var f := LegacyFrame(code, depth, gas, _ => NOTHING, 0);
    forall k: nat ensures Fetches(f, k) {
      LegacyFrameFetches(f, code, k);
    }
  }

  /** A callee fits the step it is made for. */
  ghost predicate CalleeFits(f: Frame, r: Reply, callee: Callee) {
    callee.Executed? ==>
      && Nests(f) && Prepares(f, r.answers).Made?
      && callee.frame.gas == Prepares(f, r.answers).message && callee.frame.depth == f.depth + 1
  }

  lemma CalleeOfFits(host: Host, path: seq<nat>, f: Frame)
    requires f.depth <= MAX_DEPTH
    ensures CalleeFits(f, host(path, f.steps), CalleeOf(host, path, f))
  {
    hide Nests, Prepares;
  }

  /** What the builder makes for any host is a consistent call tree. */
  lemma {:induction false} BuildConsistent(host: Host, path: seq<nat>, depth: nat, code: seq<byte>, gas: int, n: nat)
    requires Sane(host) && depth <= MAX_DEPTH
    ensures Consistent(Build(host, path, depth, code, gas, n))
    decreases MAX_DEPTH - depth, n, 1
  {
    hide Consistent, Nests, Prepares, Extend, CalleeOf, LegacyEnv, SaneReply;
    if n == 0 {
      FirstFrame(code, depth, gas);
    } else {
      BuildConsistent(host, path, depth, code, gas, n - 1);
      var f := Build(host, path, depth, code, gas, n - 1);
      CalleeConsistent(host, path, f);
      CalleeOfFits(host, path, f);
      assert SaneReply(host(path, n - 1));
      ExtendConsistent(f, host(path, n - 1), CalleeOf(host, path, f), code);
    }
  }

  lemma {:induction false} CalleeConsistent(host: Host, path: seq<nat>, f: Frame)
    requires Sane(host) && f.depth <= MAX_DEPTH
    ensures CalleeOf(host, path, f).Executed? ==> Consistent(CalleeOf(host, path, f).frame)
    decreases MAX_DEPTH - f.depth, f.steps, 0
  {
    hide Consistent, Nests, Prepares, StepBound, Build;
    var c := CalleeOf(host, path, f);
    if c.Executed? {
      var r := host(path, f.steps);
      assert SaneReply(r);
      CalleeOfFits(host, path, f);
      OperandsFit(f, r);
      var m := Prepares(f, r.answers).message;
      BuildConsistent(host, path + [f.steps], f.depth + 1, r.recipient.code, m, StepBound(m, r.recipient.code));
    }
  }

  lemma OperandsFit(f: Frame, r: Reply)
    requires Nests(f) && Prepares(f, r.answers).Made?
    ensures f.depth < MAX_DEPTH
  {
    hide Passes, OpAt, ExecutesIn, IsNested, Prepare;
    OperandsChecked(f, f.steps);
    MadeAboveLimit(f.env, f.depth, r.answers, ExecutesIn(f, f.steps), OpAt(f, f.steps));
  }

  // ---------------------------------------------------------------- every execution halts

  /** The execution and everything it calls has ended: it halted, or it faulted at an index outside the stack. */
  ghost predicate Complete(f: Frame)
    decreases f
  {
    && !Run(f.env, f.choices, StartOf(f), f.steps).Next?
    && forall j :: 0 <= j < |f.calls| && f.calls[j].callee.Executed? ==> Complete(f.calls[j].callee.frame)
  }

  ghost predicate CalleesComplete(f: Frame) {
    forall j :: 0 <= j < |f.calls| && f.calls[j].callee.Executed? ==> Complete(f.calls[j].callee.frame)
  }

  ghost predicate CostsPositive(f: Frame) {
    forall k: nat :: f.choices(k).cost >= 0
  }

  lemma FewerCalls(f: Frame, r: Reply, callee: Callee)
    requires Consistent(f) && CallsCovered(Extend(f, r, callee))
    ensures CallsCovered(f)
    ensures Nests(f) && IsCall(OpAt(f, f.steps)) ==>
      OperandCovered(f.env, f.depth, ExecutesIn(f, f.steps), OpAt(f, f.steps), r.answers)
    ensures Nests(f) && callee.Executed? ==> CallsCovered(callee.frame)
  {
    hide Run, Passes, OpAt, ExecutesIn, ChoiceOf, IsNested, IsCall, OperandCovered, Fetches, StepAccounted, Accounted;
    var f' := Extend(f, r, callee);
    forall j | 0 <= j < |f.calls|
      ensures CallCovered(f, f.calls[j]) && (f.calls[j].callee.Executed? ==> CallsCovered(f.calls[j].callee.frame))
    {
      assert f'.calls[j] == f.calls[j] && CallAt(f, f.calls[j]) && CallCovered(f', f'.calls[j]);
      Extended(f, r, callee, f.calls[j].step);
    }
    if Nests(f) {
      assert CallCovered(f', f'.calls[|f.calls|]);
      Extended(f, r, callee, f.steps);
    }
  }

  /** Under covered operands the new step costs something, whatever the callee came to. */
  lemma ExtendCosts(f: Frame, r: Reply, callee: Callee)
    requires SaneReply(r) && CostsPositive(f) && CalleeFits(f, r, callee)
    requires CallsCovered(Extend(f, r, callee))
    requires Consistent(f) && (callee.Executed? ==> Consistent(callee.frame))
    ensures CostsPositive(Extend(f, r, callee))
  {
    hide Run, Passes, OpAt, ExecutesIn, Accounted, IsNested, CalleeGas;
    hide Consistent, CallsCovered, OperandCovered, Conserves;
    if Nests(f) {
      FewerCalls(f, r, callee);
      CallAdded(f, r, callee);
      Extended(f, r, callee, f.steps);
      PaidGas(f, f.steps);
      if callee.Executed? { GasConserved(callee.frame); }
      var f' := Extend(f, r, callee);
      NestedCost(f'.env, f'.depth, ExecutesIn(f', f.steps), OpAt(f', f.steps), f'.choices(f.steps),
                 NestedCall(f.steps, r.answers, callee));
    }
  }

  /** While operands are covered, costs are never negative and everything called so far has halted. */
  lemma {:induction false} BuildHalts(host: Host, path: seq<nat>, depth: nat, code: seq<byte>, gas: int, n: nat)
    requires Sane(host) && depth <= MAX_DEPTH
    requires CallsCovered(Build(host, path, depth, code, gas, n))
    ensures CostsPositive(Build(host, path, depth, code, gas, n))
    ensures CalleesComplete(Build(host, path, depth, code, gas, n))
    decreases MAX_DEPTH - depth, n, 1
  {
    hide Consistent, Nests, Prepares, CalleeOf, LegacyEnv, SaneReply, CallsCovered, Complete;
    if n > 0 {
      var f := Build(host, path, depth, code, gas, n - 1);
      var r, callee := host(path, n - 1), CalleeOf(host, path, f);
      assert SaneReply(r);
      BuildConsistent(host, path, depth, code, gas, n - 1);
      FewerCalls(f, r, callee);
      BuildHalts(host, path, depth, code, gas, n - 1);
      CalleeConsistent(host, path, f);
      CalleeOfFits(host, path, f);
      ExtendCosts(f, r, callee);
      if callee.Executed? { CalleeHalts(host, path, f); }
    }
  }

  lemma {:induction false} CalleeHalts(host: Host, path: seq<nat>, f: Frame)
    requires Sane(host) && f.depth <= MAX_DEPTH && CalleeOf(host, path, f).Executed?
    requires CallsCovered(CalleeOf(host, path, f).frame)
    ensures Complete(CalleeOf(host, path, f).frame)
    decreases MAX_DEPTH - f.depth, f.steps, 0
  {
    hide Consistent, Nests, Prepares, StepBound, Build, CallsCovered, Complete;
    var r := host(path, f.steps);
    assert SaneReply(r);
    CalleeOfFits(host, path, f);
    OperandsFit(f, r);
    var m := Prepares(f, r.answers).message;
    EvaluationHalts(host, path + [f.steps], f.depth + 1, r.recipient.code, m);
  }

  /**
   * `evaluate` terminates, calls and creations included: whatever the host replies, the tree of executions
   * exists, and if no gas operand undercuts zero by more than the surcharges paid, every execution in it ends
   * within its step bound and gives back between 0 and all of its gas.
   */
  lemma {:induction false} EvaluationHalts(host: Host, path: seq<nat>, depth: nat, code: seq<byte>, gas: int)
    requires Sane(host) && depth <= MAX_DEPTH
    ensures var f := Build(host, path, depth, code, gas, StepBound(gas, code));
      Consistent(f) && (CallsCovered(f) ==> Complete(f) && Conserves(f))
    decreases MAX_DEPTH - depth, StepBound(gas, code), 2
  {
    hide Run, Consistent, CallsCovered, Build, Conserves;
    var n := StepBound(gas, code);
    var f := Build(host, path, depth, code, gas, n);
    BuildConsistent(host, path, depth, code, gas, n);
    if CallsCovered(f) {
      BuildHalts(host, path, depth, code, gas, n);
      GasConserved(f);
      StepsSuffice(f, code);
    }
  }

  lemma StepsSuffice(f: Frame, code: seq<byte>)
    requires f.env == LegacyEnv(Shanghai, 0, code) && CostsPositive(f)
    requires f.steps == StepBound(f.gas, code)
    ensures !Run(f.env, f.choices, StartOf(f), f.steps).Next?
  {
    hide Run;
    StartsLegacy(code, f);
    if f.gas < 0 {
      NegativeGasFails(f);
    } else {
      LegacyTerminates(Shanghai, 0, code, f.choices, StartOf(f), f.steps);
    }
  }
}
