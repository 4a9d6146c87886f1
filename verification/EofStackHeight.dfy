/**
 * The stack height analysis of one code section (`validate_max_stack_height`): a worklist
 * over instruction starts, judged against all control-flow paths through the section.
 */
module EofStackHeight {
  import opened Bytes
  import opened Opcodes
  import opened EofInstructions

  const STACK_SIZE_LIMIT := 1024
  const MAX_STACK_HEIGHT := 0x3ff
  const OUTPUTS_INPUTS_NUMBER_LIMIT := 0x7f
  const LOC_UNVISITED := -1
  const LOC_IMMEDIATE := -2

  predicate TypeOk(t: EofCodeType) {
    && (t.outputs <= OUTPUTS_INPUTS_NUMBER_LIMIT || t.outputs == NON_RETURNING)
    && t.inputs <= OUTPUTS_INPUTS_NUMBER_LIMIT
    && t.maxStackHeight <= MAX_STACK_HEIGHT
  }

  /** What the caller has established before the analysis runs. */
  ghost predicate Checked(s: Section) {
    && InstructionsOk(s) && RjumpsOk(s.code)
    && forall t :: t in s.types ==> TypeOk(t)
  }

  /** i is a whole instruction whose section operand, if any, exists. */
  predicate Decodable(s: Section, i: nat) {
    && s.Valid() && i < |s.code| && NextInstr(s.code, i) <= |s.code|
    && (s.code[i] == OP_CALLF || s.code[i] == OP_JUMPF ==> i + 2 < |s.code| && U16(s.code, i + 1) < |s.types|)
  }

  lemma CheckedDecodable(s: Section, i: nat)
    requires Checked(s) && IsStart(s.code, i)
    ensures Decodable(s, i)
  {
    hide GasCost, CostTable, IsStart, U16;
    assert InstructionError(s, i) == None;
  }

  lemma CheckedUntruncated(s: Section)
    requires InstructionsOk(s)
    ensures Untruncated(s.code)
  {
    hide GasCost, CostTable, IsStart, U16, TraitsOf;
    forall i: nat | IsStart(s.code, i)
      ensures NextInstr(s.code, i) <= |s.code|
    {
      assert InstructionError(s, i) == None;
    }
  }

  // ---------------------------------------------------------------- the local rules

  function Callee(s: Section, i: nat): EofCodeType
    requires Decodable(s, i) && (s.code[i] == OP_CALLF || s.code[i] == OP_JUMPF)
  {
    s.types[U16(s.code, i + 1)]
  }

  function HeightRequired(s: Section, i: nat): int
    requires Decodable(s, i)
  {
    var op := s.code[i];
    if op == OP_CALLF then Int8(Callee(s, i).inputs)
    else if op == OP_JUMPF then
      if Callee(s, i).outputs == NON_RETURNING then Int8(Callee(s, i).inputs)
      else Int8(s.types[s.index].outputs as int + Callee(s, i).inputs - Callee(s, i).outputs)
    else if op == OP_RETF then Int8(s.types[s.index].outputs)
    else TraitsOf(op).stackHeightRequired
  }

  function HeightChange(s: Section, i: nat): int
    requires Decodable(s, i)
  {
    if s.code[i] == OP_CALLF then Int8(Callee(s, i).outputs as int - Int8(Callee(s, i).inputs))
    else TraitsOf(s.code[i]).stackHeightChange
  }

  predicate FallsThrough(op: byte) {
    !TraitsOf(op).isTerminating && op != OP_RJUMP
  }

  /** The checks made on one visit of the instruction at i with stack height h, in order. */
  function LocalError(s: Section, i: nat, h: int): Option<EofError>
    requires Decodable(s, i)
  {
    var op := s.code[i];
    if op == OP_CALLF && h + Callee(s, i).maxStackHeight - HeightRequired(s, i) > STACK_SIZE_LIMIT then
      Some(StackOverflow)
    else if op == OP_JUMPF && h + Callee(s, i).maxStackHeight - Callee(s, i).inputs > STACK_SIZE_LIMIT then
      Some(StackOverflow)
    else if op == OP_JUMPF && Callee(s, i).outputs != NON_RETURNING &&
            s.types[s.index].outputs < Callee(s, i).outputs then
      Some(JumpfDestinationIncompatibleOutputs)
    else if op == OP_JUMPF && Callee(s, i).outputs != NON_RETURNING && h > HeightRequired(s, i) then
      Some(StackHigherThanOutputsRequired)
    else if op == OP_RETF && h > s.types[s.index].outputs then
      Some(StackHigherThanOutputsRequired)
    else if h < HeightRequired(s, i) then Some(StackUnderflow)
    else if FallsThrough(op) && NextInstr(s.code, i) >= |s.code| then Some(NoTerminatingInstruction)
    else None
  }

  /** Control-flow successors; CALLF continues after the call. */
  function Successors(s: Section, i: nat): seq<int>
    requires Decodable(s, i)
  {
    (if FallsThrough(s.code[i]) then [NextInstr(s.code, i)] else []) + JumpTargets(s.code, i)
  }

  // ---------------------------------------------------------------- paths

  datatype Config = Config(pos: int, height: int)

  ghost predicate Edge(s: Section, a: Config, b: Config) {
    && 0 <= a.pos && IsStart(s.code, a.pos) && Decodable(s, a.pos)
    && b.pos in Successors(s, a.pos)
    && b.height == a.height + HeightChange(s, a.pos)
  }

  ghost predicate IsPath(s: Section, p: seq<Config>)
    requires s.Valid()
  {
    && |p| > 0 && p[0] == Config(0, s.types[s.index].inputs)
    && forall k :: 0 < k < |p| ==> Edge(s, p[k - 1], p[k])
  }

  ghost predicate EndsAt(s: Section, p: seq<Config>, c: Config)
    requires s.Valid()
  {
    IsPath(s, p) && p[|p| - 1] == c
  }

  /** Some control-flow path through the section arrives at c.pos with c.height stack items. */
  ghost predicate Reachable(s: Section, c: Config)
    requires s.Valid()
  {
    exists p :: EndsAt(s, p, c)
  }

  lemma ReachableStep(s: Section, a: Config, b: Config)
    requires s.Valid() && Reachable(s, a) && Edge(s, a, b)
    ensures Reachable(s, b)
  {
    hide Edge;
    var p :| EndsAt(s, p, a);
    assert EndsAt(s, p + [b], b);
  }

  /** Heights never go below zero: an instruction removes no more than it requires. */
  lemma ChangeKeepsNonNegative(s: Section, i: nat, h: int)
    requires Checked(s) && IsStart(s.code, i) && Decodable(s, i) && h >= 0 && LocalError(s, i, h) == None
    ensures s.code[i] == OP_CALLF ==>
      HeightRequired(s, i) == Callee(s, i).inputs && HeightChange(s, i) == Callee(s, i).outputs - Callee(s, i).inputs
    ensures h + HeightChange(s, i) >= 0
  {
    hide GasCost, CostTable, IsStart, U16, NextInstr;
    if s.code[i] == OP_CALLF {
      assert InstructionError(s, i) == None;
      assert TypeOk(Callee(s, i));
    }
  }

  // ---------------------------------------------------------------- the promise

  ghost predicate VisitOk(s: Section, c: Config)
    requires s.Valid()
  {
    && 0 <= c.pos && IsStart(s.code, c.pos) && c.height >= 0
    && Decodable(s, c.pos) && LocalError(s, c.pos, c.height) == None
  }

  /** The section is well typed with maximum height m: a statement about all of its paths. */
  ghost predicate StackOk(s: Section, m: int)
    requires s.Valid()
  {
    && (forall c :: Reachable(s, c) ==> VisitOk(s, c) && c.height <= m)
    && (forall c, d :: Reachable(s, c) && Reachable(s, d) && c.pos == d.pos ==> c.height == d.height)
    && (forall i: nat :: IsStart(s.code, i) ==> exists h :: Reachable(s, Config(i, h)))
    && (exists c :: Reachable(s, c) && c.height == m)
  }

  /** A path that justifies rejecting the section with error e. */
  ghost predicate Refuted(s: Section, e: EofError)
    requires s.Valid()
  {
    if e == StackHeightMismatch then
      exists c, d :: Reachable(s, c) && Reachable(s, d) && c.pos == d.pos && c.height != d.height
    else if e == UnreachableInstructions then
      exists i: nat :: IsStart(s.code, i) && forall h :: !Reachable(s, Config(i, h))
    else
      exists c :: Reachable(s, c) && 0 <= c.pos && Decodable(s, c.pos) && LocalError(s, c.pos, c.height) == Some(e)
  }

  // ---------------------------------------------------------------- worklist invariant

  ghost predicate Done(s: Section, hs: seq<int>, j: nat)
    requires s.Valid() && |hs| == |s.code| && j < |hs|
  {
    && Decodable(s, j) && LocalError(s, j, hs[j]) == None
    && (forall t: int :: t in Successors(s, j) ==> 0 <= t < |hs| && hs[t] == hs[j] + HeightChange(s, j))
    && (forall x :: j < x < NextInstr(s.code, j) ==> hs[x] == LOC_IMMEDIATE)
  }

  ghost predicate SlotOk(s: Section, hs: seq<int>, j: nat)
    requires s.Valid() && j < |hs|
  {
    || hs[j] == LOC_UNVISITED
    || (hs[j] == LOC_IMMEDIATE && !IsStart(s.code, j))
    || (hs[j] >= 0 && IsStart(s.code, j) && Reachable(s, Config(j, hs[j])))
  }

  /** cur is the location being processed, or -1 between visits. */
  ghost predicate Inv(s: Section, hs: seq<int>, worklist: seq<nat>, cur: int) {
    && s.Valid() && |hs| == |s.code| && hs[0] == s.types[s.index].inputs
    && (forall j: nat :: j < |hs| ==> SlotOk(s, hs, j))
    && (forall j :: j in worklist ==> j < |hs| && hs[j] >= 0)
    && (forall j: nat :: j < |hs| && hs[j] >= 0 ==> j == cur || j in worklist || Done(s, hs, j))
  }

  lemma InvInit(s: Section, hs: seq<int>)
    requires Checked(s) && |hs| == |s.code|
    requires hs[0] == s.types[s.index].inputs && forall j :: 0 < j < |hs| ==> hs[j] == LOC_UNVISITED
    ensures Inv(s, hs, [0], -1)
  {
    var c := Config(0, hs[0]);
    assert EndsAt(s, [c], c);
    assert IsStart(s.code, 0);
  }

  /** Marking the immediates of a visited instruction touches no instruction start. */
  lemma InvMark(s: Section, hs: seq<int>, worklist: seq<nat>, i: nat, hs': seq<int>)
    requires Checked(s) && Inv(s, hs, worklist, i) && i < |hs| && IsStart(s.code, i) && Decodable(s, i)
    requires |hs'| == |hs|
    requires forall x :: 0 <= x < |hs| ==> hs'[x] == if i < x < NextInstr(s.code, i) then LOC_IMMEDIATE else hs[x]
    ensures Inv(s, hs', worklist, i)
    ensures forall x :: 0 <= x < |hs| && IsStart(s.code, x) ==> hs'[x] == hs[x]
  {
    hide LocalError, Successors, HeightChange, IsStart, NextInstr, Reachable;
    assert DecodesTo(s.code, 0, i) by { InstructionStartDecodes(s.code, i); }
    forall x | i < x < NextInstr(s.code, i)
      ensures !IsStart(s.code, x)
    {
      NoStartInside(s.code, 0, i, x);
      StartIffDecodes(s.code, x);
    }
    forall x | 0 <= x < |hs| && IsStart(s.code, x)
      ensures hs'[x] == hs[x]
    {
    }
    forall j: nat | j < |hs'| && hs'[j] >= 0 && j != i && j !in worklist
      ensures Done(s, hs', j)
    {
      assert SlotOk(s, hs, j);
      assert Done(s, hs, j);
      ChangeKeepsNonNegative(s, j, hs[j]);
      forall t: int | t in Successors(s, j)
        ensures 0 <= t < |hs'| && hs'[t] == hs'[j] + HeightChange(s, j)
      {
        assert SlotOk(s, hs, t);
      }
    }
    forall j: nat | j < |hs'|
      ensures SlotOk(s, hs', j)
    {
      assert SlotOk(s, hs, j);
    }
    assert SlotOk(s, hs, 0);
    forall j | j in worklist
      ensures hs'[j] >= 0
    {
      assert SlotOk(s, hs, j);
    }
  }

  lemma InstructionStartDecodes(code: seq<byte>, i: nat)
    requires IsStart(code, i)
    ensures DecodesTo(code, 0, i) && i < |code|
  {
  }

  lemma StartIffDecodes(code: seq<byte>, i: nat)
    requires i < |code|
    ensures IsStart(code, i) <==> DecodesTo(code, 0, i)
  {
  }

  /** Recording a first height for a successor t of i. */
  lemma InvPush(s: Section, hs: seq<int>, worklist: seq<nat>, i: nat, t: nat, h: int)
    requires Checked(s) && Inv(s, hs, worklist, i) && i < |hs| && hs[i] >= 0 && Decodable(s, i)
    requires LocalError(s, i, hs[i]) == None
    requires t < |hs| && hs[t] == LOC_UNVISITED && IsStart(s.code, t) && (t as int) in Successors(s, i)
    requires h == hs[i] + HeightChange(s, i)
    ensures Inv(s, hs[t := h], worklist + [t], i)
  {
    hide LocalError, Successors, HeightChange, IsStart, NextInstr, Reachable;
    assert SlotOk(s, hs, i);
    ChangeKeepsNonNegative(s, i, hs[i]);
    ReachableStep(s, Config(i, hs[i]), Config(t, h));
    var hs' := hs[t := h];
    forall j: nat | j < |hs'|
      ensures SlotOk(s, hs', j)
    {
      assert SlotOk(s, hs, j);
    }
    forall j: nat | j < |hs'| && hs'[j] >= 0 && j != i && j !in worklist + [t]
      ensures Done(s, hs', j)
    {
      assert j != t;
      assert Done(s, hs, j);
      assert SlotOk(s, hs, j);
      ChangeKeepsNonNegative(s, j, hs[j]);
    }
  }

  /** All successors recorded: the visit of i is complete. */
  lemma InvFinish(s: Section, hs: seq<int>, worklist: seq<nat>, i: nat)
    requires Inv(s, hs, worklist, i) && i < |hs| && Done(s, hs, i)
    ensures Inv(s, hs, worklist, -1)
  {
    hide LocalError, Successors, HeightChange, IsStart, NextInstr, Reachable, Done;
  }

  lemma InvPop(s: Section, hs: seq<int>, worklist: seq<nat>)
    requires Checked(s) && Inv(s, hs, worklist, -1) && |worklist| > 0
    ensures var i := worklist[|worklist| - 1];
      && i < |hs| && hs[i] >= 0 && IsStart(s.code, i) && Decodable(s, i)
      && Reachable(s, Config(i, hs[i]))
      && Inv(s, hs, worklist[..|worklist| - 1], i)
  {
    hide LocalError, Successors, HeightChange, NextInstr, Reachable, Done, IsStart, Decodable;
    var last := |worklist| - 1;
    var i, rest := worklist[last], worklist[..last];
    assert worklist == rest + [i];
    assert i in worklist;
    assert SlotOk(s, hs, i);
    CheckedDecodable(s, i);
    forall j | j in rest
      ensures j < |hs| && hs[j] >= 0
    {
      assert j in worklist;
    }
    forall j: nat | j < |hs| && hs[j] >= 0
      ensures j == i || j in rest || Done(s, hs, j)
    {
      if j in worklist { assert j == i || j in rest; }
    }
  }

  /** Every path stays inside the visited locations once the worklist is empty. */
  lemma {:induction false} PathsVisited(s: Section, hs: seq<int>, p: seq<Config>)
    requires Checked(s) && Inv(s, hs, [], -1) && IsPath(s, p)
    ensures var c := p[|p| - 1]; 0 <= c.pos < |hs| && hs[c.pos] == c.height && c.height >= 0
    decreases |p|
  {
    hide LocalError, Successors, HeightChange, NextInstr, Reachable, IsStart, Decodable;
    var last := |p| - 1;
    if last > 0 {
      var q := p[..last];
      assert IsPath(s, q) by {
        forall k | 0 < k < |q| ensures Edge(s, q[k - 1], q[k]) {
          assert Edge(s, p[k - 1], p[k]);
        }
      }
      PathsVisited(s, hs, q);
      var a, b := p[last - 1], p[last];
      assert Edge(s, a, b);
      assert Done(s, hs, a.pos);
      assert SlotOk(s, hs, b.pos);
      VisitedHeight(s, hs, a.pos);
    }
  }

  lemma VisitedHeight(s: Section, hs: seq<int>, j: nat)
    requires Checked(s) && Inv(s, hs, [], -1) && j < |hs| && hs[j] >= 0
    ensures Done(s, hs, j)
    ensures forall t: int :: t in Successors(s, j) ==> 0 <= t < |hs| && hs[t] >= 0
  {
    hide LocalError, Successors, HeightChange, NextInstr, Reachable, IsStart, Decodable;
    assert SlotOk(s, hs, j);
    assert Done(s, hs, j);
    ChangeKeepsNonNegative(s, j, hs[j]);
  }

  // ---------------------------------------------------------------- the outcome

  /** A start that was never visited cannot be reached by any path. */
  lemma UnvisitedUnreachable(s: Section, hs: seq<int>, i: nat, h: int)
    requires Checked(s) && Inv(s, hs, [], -1) && i < |hs| && hs[i] < 0
    ensures !Reachable(s, Config(i, h))
  {
    if Reachable(s, Config(i, h)) {
      var p :| EndsAt(s, p, Config(i, h));
      PathsVisited(s, hs, p);
    }
  }

  /** If some byte stays unvisited, some instruction start does. */
  lemma {:induction false} UnvisitedStart(s: Section, hs: seq<int>, from: nat, x: nat) returns (i: nat)
    requires Checked(s) && Inv(s, hs, [], -1) && x < |hs| && hs[x] == LOC_UNVISITED
    requires from <= x && IsStart(s.code, from)
    ensures i < |hs| && IsStart(s.code, i) && hs[i] == LOC_UNVISITED
    decreases x - from
  {
    hide LocalError, Successors, HeightChange, Reachable, Decodable;
    CheckedDecodable(s, from);
    assert SlotOk(s, hs, from);
    if hs[from] < 0 {
      i := from;
    } else {
      VisitedHeight(s, hs, from);
      DecodeStep(s.code, 0, from);
      i := UnvisitedStart(s, hs, NextInstr(s.code, from), x);
    }
  }

  lemma SomeUnreachable(s: Section, hs: seq<int>)
    requires Checked(s) && Inv(s, hs, [], -1) && LOC_UNVISITED in hs
    ensures Refuted(s, UnreachableInstructions)
  {
    hide LocalError, Successors, HeightChange, NextInstr, Decodable, Reachable;
    var x :| 0 <= x < |hs| && hs[x] == LOC_UNVISITED;
    assert SlotOk(s, hs, 0);
    var i := UnvisitedStart(s, hs, 0, x);
    forall h ensures !Reachable(s, Config(i, h)) {
      UnvisitedUnreachable(s, hs, i, h);
    }
  }

  function MaxElement(hs: seq<int>): (m: int)
    requires |hs| > 0
    ensures m in hs && forall h :: h in hs ==> h <= m
  {
    if |hs| == 1 then hs[0]
    else
      var rest := MaxElement(hs[1..]);
      assert forall h :: h in hs ==> h == hs[0] || h in hs[1..];
      if hs[0] < rest then rest else hs[0]
  }

  lemma FullyVisited(s: Section, hs: seq<int>)
    requires Checked(s) && Inv(s, hs, [], -1) && LOC_UNVISITED !in hs
    ensures StackOk(s, MaxElement(hs))
  {
    hide LocalError, Successors, HeightChange, NextInstr, IsStart, Decodable, Reachable;
    var m := MaxElement(hs);
    forall c | Reachable(s, c)
      ensures 0 <= c.pos < |hs| && hs[c.pos] == c.height && VisitOk(s, c) && c.height <= m
    {
      ReachableVisited(s, hs, c);
    }
    forall i: nat | IsStart(s.code, i)
      ensures exists h :: Reachable(s, Config(i, h))
    {
      InstructionStartDecodes(s.code, i);
      assert SlotOk(s, hs, i) && hs[i] in hs;
    }
    var j :| 0 <= j < |hs| && hs[j] == m;
    assert hs[0] in hs;
    assert SlotOk(s, hs, j);
    assert Reachable(s, Config(j, m));
  }

  lemma ReachableVisited(s: Section, hs: seq<int>, c: Config)
    requires Checked(s) && Inv(s, hs, [], -1) && Reachable(s, c)
    ensures 0 <= c.pos < |hs| && hs[c.pos] == c.height && VisitOk(s, c) && c.height in hs
  {
    hide LocalError, Successors, HeightChange, NextInstr, IsStart, Decodable;
    var p :| EndsAt(s, p, c);
    PathsVisited(s, hs, p);
    assert SlotOk(s, hs, c.pos);
    VisitedHeight(s, hs, c.pos);
  }

  // ---------------------------------------------------------------- the algorithm

  ghost function Unvisited(hs: seq<int>): set<nat> {
    set j: nat | j < |hs| && hs[j] == LOC_UNVISITED
  }

  lemma SubsetSize(a: set<nat>, b: set<nat>)
    requires a <= b
    ensures |a| <= |b|
  {
    assert b == a + (b - a);
  }

  /** `validate_successor`: first visit records the height, later visits must agree with it. */
  method ValidateSuccessor(heights: array<int>, worklist: seq<nat>, successor: nat, expected: int)
    returns (ok: bool, worklist': seq<nat>)
    requires successor < heights.Length
    modifies heights
    ensures old(heights[successor]) == LOC_UNVISITED ==>
      ok && heights[..] == old(heights[..])[successor := expected] && worklist' == worklist + [successor]
    ensures old(heights[successor]) != LOC_UNVISITED ==>
      ok == (old(heights[successor]) == expected) && heights[..] == old(heights[..]) && worklist' == worklist
  {
    if heights[successor] == LOC_UNVISITED {
      heights[successor] := expected;
      return true, worklist + [successor];
    }
    return heights[successor] == expected, worklist;
  }

  lemma SuccessorsAreStarts(s: Section, i: nat, h: int)
    requires Checked(s) && IsStart(s.code, i) && Decodable(s, i) && LocalError(s, i, h) == None
    ensures forall t: int :: t in Successors(s, i) ==> 0 <= t < |s.code| && IsStart(s.code, t)
  {
    hide HeightChange, HeightRequired, JumpTargets, NextInstr;
    DecodeStep(s.code, 0, i);
    assert TargetsOk(s.code, i);
  }

  predicate Holds(hs: seq<int>, t: int, h: int) {
    0 <= t < |hs| && hs[t] == h
  }

  /** What the visit of i has achieved after its first k successors. */
  ghost predicate Progress(s: Section, hs0: seq<int>, hs: seq<int>, wl: seq<nat>, i: nat, k: nat, budget: nat) {
    && Inv(s, hs, wl, i) && |hs0| == |hs| && i < |hs| && Decodable(s, i) && k <= |Successors(s, i)|
    && (forall x :: 0 <= x < |hs| && hs0[x] != LOC_UNVISITED ==> hs[x] == hs0[x])
    && (forall m :: 0 <= m < k ==> Holds(hs, Successors(s, i)[m], hs0[i] + HeightChange(s, i)))
    && |Unvisited(hs)| + |wl| <= budget
  }

  lemma AfterSuccessor(s: Section, hs0: seq<int>, hs: seq<int>, wl: seq<nat>, i: nat, k: nat, budget: nat,
                       ok: bool, hs': seq<int>, wl': seq<nat>)
    requires Checked(s) && Progress(s, hs0, hs, wl, i, k, budget) && k < |Successors(s, i)|
    requires hs0[i] >= 0 && LocalError(s, i, hs0[i]) == None
    requires var t := Successors(s, i)[k]; var e := hs0[i] + HeightChange(s, i);
      0 <= t < |hs| && IsStart(s.code, t) &&
      if hs[t] == LOC_UNVISITED then ok && hs' == hs[t := e] && wl' == wl + [t]
      else ok == (hs[t] == e) && hs' == hs && wl' == wl
    ensures ok ==> Progress(s, hs0, hs', wl', i, k + 1, budget)
    ensures !ok ==> Refuted(s, StackHeightMismatch)
  {
    hide LocalError, Successors, HeightChange, NextInstr, IsStart, Decodable, Reachable, Inv, Unvisited;
    hide Checked, Refuted, Progress;
    ProgressShape(s, hs0, hs, wl, i, k, budget);
    var t := Successors(s, i)[k];
    assert t in Successors(s, i);
    if hs[t] == LOC_UNVISITED {
      AfterNew(s, hs0, hs, wl, i, k, budget);
    } else if ok {
      AfterSeen(s, hs0, hs, wl, i, k, budget);
    } else {
      AfterMismatch(s, hs, wl, i, t);
    }
  }

  lemma ProgressShape(s: Section, hs0: seq<int>, hs: seq<int>, wl: seq<nat>, i: nat, k: nat, budget: nat)
    requires Progress(s, hs0, hs, wl, i, k, budget) && hs0[i] >= 0
    ensures Inv(s, hs, wl, i) && i < |hs| == |s.code| == |hs0| && hs[i] == hs0[i]
    ensures Decodable(s, i) && k <= |Successors(s, i)|
  {
    hide LocalError, Successors, HeightChange, NextInstr, IsStart, Unvisited, SlotOk, Done;
  }

  /** A first height for the successor. */
  lemma AfterNew(s: Section, hs0: seq<int>, hs: seq<int>, wl: seq<nat>, i: nat, k: nat, budget: nat)
    requires Checked(s) && Progress(s, hs0, hs, wl, i, k, budget) && k < |Successors(s, i)|
    requires hs0[i] >= 0 && LocalError(s, i, hs0[i]) == None
    requires var t := Successors(s, i)[k]; 0 <= t < |hs| && IsStart(s.code, t) && hs[t] == LOC_UNVISITED
    ensures var t, e := Successors(s, i)[k], hs0[i] + HeightChange(s, i);
      Progress(s, hs0, hs[t := e], wl + [t], i, k + 1, budget)
  {
    hide LocalError, Successors, HeightChange, NextInstr, IsStart, Decodable, Reachable, Inv, Unvisited, Checked;
    var t, e := Successors(s, i)[k], hs0[i] + HeightChange(s, i);
    assert t in Successors(s, i) && hs[i] == hs0[i];
    InvShape(s, hs, wl, i, t);
    ChangeKeepsNonNegative(s, i, hs[i]);
    InvPush(s, hs, wl, i, t, e);
    UnvisitedShrinks(hs, t, e);
  }

  /** The successor already has the expected height. */
  lemma AfterSeen(s: Section, hs0: seq<int>, hs: seq<int>, wl: seq<nat>, i: nat, k: nat, budget: nat)
    requires Progress(s, hs0, hs, wl, i, k, budget) && k < |Successors(s, i)|
    requires Holds(hs, Successors(s, i)[k], hs0[i] + HeightChange(s, i))
    ensures Progress(s, hs0, hs, wl, i, k + 1, budget)
  {
    hide LocalError, Successors, HeightChange, NextInstr, IsStart, Decodable, Reachable, Inv, Unvisited;
  }

  /** The successor has another height: two paths disagree. */
  lemma AfterMismatch(s: Section, hs: seq<int>, wl: seq<nat>, i: nat, t: nat)
    requires Checked(s) && Inv(s, hs, wl, i) && i < |hs| && t < |hs| && hs[i] >= 0 && Decodable(s, i)
    requires (t as int) in Successors(s, i) && IsStart(s.code, t)
    requires hs[t] != LOC_UNVISITED && hs[t] != hs[i] + HeightChange(s, i)
    ensures Refuted(s, StackHeightMismatch)
  {
    hide LocalError, Successors, HeightChange, NextInstr, IsStart, Reachable, Inv, Unvisited, Checked;
    InvShape(s, hs, wl, i, t);
    var e := hs[i] + HeightChange(s, i);
    ReachableStep(s, Config(i, hs[i]), Config(t, e));
    assert Reachable(s, Config(t, hs[t])) && Reachable(s, Config(t, e));
  }

  lemma InvShape(s: Section, hs: seq<int>, wl: seq<nat>, i: nat, t: nat)
    requires Inv(s, hs, wl, i) && i < |hs| && t < |hs| && hs[i] >= 0
    ensures IsStart(s.code, i) && Reachable(s, Config(i, hs[i]))
    ensures IsStart(s.code, t) ==> hs[t] == LOC_UNVISITED || (hs[t] >= 0 && Reachable(s, Config(t, hs[t])))
  {
    assert SlotOk(s, hs, i) && SlotOk(s, hs, t);
  }

  lemma UnvisitedShrinks(hs: seq<int>, t: nat, e: int)
    requires t < |hs| && hs[t] == LOC_UNVISITED && e >= 0
    ensures |Unvisited(hs[t := e])| == |Unvisited(hs)| - 1
  {
    assert Unvisited(hs[t := e]) == Unvisited(hs) - {t};
  }

  /** The targets of an RJUMPV, in table order, after its fall-through. */
  method ValidateTable(s: Section, heights: array<int>, worklist: seq<nat>, i: nat, next: nat, height: int,
                       ghost hs0: seq<int>, ghost budget: nat)
    returns (ok: bool, worklist': seq<nat>)
    requires Checked(s) && heights.Length == |s.code| && Progress(s, hs0, heights[..], worklist, i, 1, budget)
    requires s.code[i] == OP_RJUMPV && hs0[i] >= 0 && LocalError(s, i, hs0[i]) == None && IsStart(s.code, i)
    requires next == NextInstr(s.code, i) && height == hs0[i] + HeightChange(s, i)
    modifies heights
    ensures ok ==> Progress(s, hs0, heights[..], worklist', i, |Successors(s, i)|, budget)
    ensures !ok ==> Refuted(s, StackHeightMismatch)
  {
    hide LocalError, HeightChange, IsStart, Inv, Unvisited, TraitsOf, U16, I16, Progress, Successors, Refuted, Checked;
    ProgressShape(s, hs0, heights[..], worklist, i, 1, budget);
    ghost var targets := Successors(s, i);
    SuccessorsAreStarts(s, i, hs0[i]);
    RjumpvFallsThrough();
    SuccessorList(s, i);
    assert forall m :: 0 <= m < |targets| ==> targets[m] in targets;
    ok, worklist' := true, worklist;
    var maxIndex := s.code[i + 1];
    var k := 0;
    while k <= maxIndex
      invariant 0 <= k <= maxIndex as int + 1 && ok
      invariant Progress(s, hs0, heights[..], worklist', i, k + 1, budget)
    {
      var target := next + I16(s.code, i + k * REL_OFFSET_SIZE + 2);
      ghost var hs, wl := heights[..], worklist';
      assert targets[k + 1] == target;
      ok, worklist' := ValidateSuccessor(heights, worklist', target, height);
      AfterSuccessor(s, hs0, hs, wl, i, k + 1, budget, ok, heights[..], worklist');
      if !ok { return; }
      k := k + 1;
    }
  }

  lemma RjumpvFallsThrough()
    ensures FallsThrough(OP_RJUMPV)
  {
  }

  /** The successor part of a visit: fall-through first, then the jump targets in table order. */
  method ValidateSuccessors(s: Section, heights: array<int>, worklist: seq<nat>, i: nat, next: nat, height: int)
    returns (ok: bool, worklist': seq<nat>)
    requires Checked(s) && heights.Length == |s.code| && Inv(s, heights[..], worklist, i)
    requires i < heights.Length && heights[i] >= 0 && Decodable(s, i)
    requires LocalError(s, i, heights[i]) == None
    requires next == NextInstr(s.code, i) && height == heights[i] + HeightChange(s, i)
    requires forall x :: i < x < next ==> heights[x] == LOC_IMMEDIATE
    modifies heights
    ensures ok ==> Inv(s, heights[..], worklist', -1)
    ensures ok ==> |Unvisited(heights[..])| + |worklist'| <= |Unvisited(old(heights[..]))| + |worklist|
    ensures !ok ==> Refuted(s, StackHeightMismatch)
  {
    hide LocalError, HeightChange, IsStart, Reachable, Inv, Unvisited, TraitsOf, U16, I16, Progress;
    hide Successors, Refuted, Checked, NextInstr;
    var code, op := s.code, s.code[i];
    ghost var hs0 := heights[..];
    ghost var targets := Successors(s, i);
    ghost var budget := |Unvisited(hs0)| + |worklist|;
    InvShape(s, hs0, worklist, i, i);
    SuccessorsAreStarts(s, i, heights[i]);
    SuccessorList(s, i);
    assert forall m :: 0 <= m < |targets| ==> targets[m] in targets;
    ok, worklist' := true, worklist;
    ghost var done := 0;
    assert Progress(s, hs0, hs0, worklist, i, 0, budget) by { StartProgress(s, hs0, worklist, i); }
    if FallsThrough(op) {
      ok, worklist' := ValidateSuccessor(heights, worklist', next, height);
      AfterSuccessor(s, hs0, hs0, worklist, i, 0, budget, ok, heights[..], worklist');
      if !ok { return; }
      done := 1;
    }
    if op == OP_RJUMP || op == OP_RJUMPI {
      var target := i + I16(code, i + 1) + 3;
      ghost var hs, wl := heights[..], worklist';
      ok, worklist' := ValidateSuccessor(heights, worklist', target, height);
      AfterSuccessor(s, hs0, hs, wl, i, done, budget, ok, heights[..], worklist');
      if !ok { return; }
      done := done + 1;
    } else if op == OP_RJUMPV {
      ok, worklist' := ValidateTable(s, heights, worklist', i, next, height, hs0, budget);
      if !ok { return; }
      done := |targets|;
    }
    CompleteVisit(s, hs0, heights[..], worklist', i, budget);
    assert |Unvisited(heights[..])| + |worklist'| <= budget by {
      ProgressBudget(s, hs0, heights[..], worklist', i, done, budget);
    }
  }

  /** The successor list spelled out the way the visit enumerates it. */
  lemma SuccessorList(s: Section, i: nat)
    requires Decodable(s, i)
    ensures var op, next, list := s.code[i], NextInstr(s.code, i), Successors(s, i);
      var first := if FallsThrough(op) then 1 else 0;
      && (first == 1 ==> |list| > 0 && list[0] == next)
      && (op == OP_RJUMP || op == OP_RJUMPI ==>
            i + 2 < |s.code| && |list| == first + 1 && list[first] == i + I16(s.code, i + 1) + 3)
      && (op == OP_RJUMPV ==>
            && i + 1 < |s.code| && first == 1 && |list| == s.code[i + 1] as int + 2
            && next == i + 2 + (s.code[i + 1] as int + 1) * 2
            && forall k :: 0 <= k <= s.code[i + 1] ==> list[k + 1] == next + I16(s.code, i + k * REL_OFFSET_SIZE + 2))
      && (op != OP_RJUMP && op != OP_RJUMPI && op != OP_RJUMPV ==> |list| == first)
  {
    hide I16, U16;
  }

  lemma StartProgress(s: Section, hs: seq<int>, wl: seq<nat>, i: nat)
    requires Inv(s, hs, wl, i) && i < |hs| && Decodable(s, i)
    ensures Progress(s, hs, hs, wl, i, 0, |Unvisited(hs)| + |wl|)
  {
  }

  lemma ProgressBudget(s: Section, hs0: seq<int>, hs: seq<int>, wl: seq<nat>, i: nat, k: nat, budget: nat)
    requires Progress(s, hs0, hs, wl, i, k, budget)
    ensures |Unvisited(hs)| + |wl| <= budget
  {
  }

  lemma CompleteVisit(s: Section, hs0: seq<int>, hs: seq<int>, wl: seq<nat>, i: nat, budget: nat)
    requires Decodable(s, i) && Progress(s, hs0, hs, wl, i, |Successors(s, i)|, budget)
    requires hs0[i] >= 0 && LocalError(s, i, hs0[i]) == None
    requires forall x :: i < x < NextInstr(s.code, i) ==> x < |hs0| && hs0[x] == LOC_IMMEDIATE
    ensures Inv(s, hs, wl, -1)
  {
    hide LocalError, Successors, HeightChange, IsStart, Reachable, Unvisited;
    assert hs[i] == hs0[i];
    assert Done(s, hs, i) by {
      forall t: int | t in Successors(s, i)
        ensures 0 <= t < |hs| && hs[t] == hs[i] + HeightChange(s, i)
      {
        var m :| 0 <= m < |Successors(s, i)| && Successors(s, i)[m] == t;
        assert Holds(hs, Successors(s, i)[m], hs0[i] + HeightChange(s, i));
      }
    }
    InvFinish(s, hs, wl, i);
  }

  lemma UnvisitedMonotone(hs: seq<int>, hs': seq<int>)
    requires |hs'| == |hs| && forall x :: 0 <= x < |hs| ==> hs'[x] == hs[x] || hs'[x] == LOC_IMMEDIATE
    ensures |Unvisited(hs')| <= |Unvisited(hs)|
  {
    SubsetSize(Unvisited(hs'), Unvisited(hs));
  }

  lemma LocalRefutation(s: Section, c: Config, e: EofError)
    requires s.Valid() && Reachable(s, c) && 0 <= c.pos && Decodable(s, c.pos)
    requires LocalError(s, c.pos, c.height) == Some(e)
    ensures Refuted(s, e)
  {
    hide Reachable, HeightRequired;
  }

  /** The chain of checks on the popped location, before its successors are looked at. */
  method VisitError(s: Section, i: nat, stackHeight: int) returns (e: Option<EofError>)
    requires Decodable(s, i)
    ensures e == LocalError(s, i, stackHeight)
  {
    var op := s.code[i];
    var required := TraitsOf(op).stackHeightRequired as int;
    var outputs := s.types[s.index].outputs as int;
    if op == OP_CALLF {
      var callee := Callee(s, i);
      required := Int8(callee.inputs);
      if stackHeight + callee.maxStackHeight - required > STACK_SIZE_LIMIT {
        return Some(StackOverflow);
      }
    } else if op == OP_JUMPF {
      var callee := Callee(s, i);
      if stackHeight + callee.maxStackHeight - callee.inputs > STACK_SIZE_LIMIT {
        return Some(StackOverflow);
      }
      if callee.outputs == NON_RETURNING {
        required := Int8(callee.inputs);
      } else {
        if outputs < callee.outputs {
          return Some(JumpfDestinationIncompatibleOutputs);
        }
        required := Int8(outputs + callee.inputs - callee.outputs);
        if stackHeight > required {
          return Some(StackHigherThanOutputsRequired);
        }
      }
    } else if op == OP_RETF {
      required := Int8(outputs);
      if stackHeight > outputs {
        return Some(StackHigherThanOutputsRequired);
      }
    }
    if stackHeight < required {
      return Some(StackUnderflow);
    }
    if FallsThrough(op) && NextInstr(s.code, i) >= |s.code| {
      return Some(NoTerminatingInstruction);
    }
    return None;
  }

  // ---------------------------------------------------------------- the rules in plain terms

  /** An instruction passes the linear check exactly if it is defined, complete, and its operand names something. */
  lemma InstructionRule(s: Section, i: nat)
    requires s.Valid() && i < |s.code|
    ensures InstructionError(s, i) == None <==>
      && CostTable(Prague, true, s.code[i]) >= 0 && NextInstr(s.code, i) <= |s.code|
      && (s.code[i] == OP_CALLF ==> NamesSection(s, i) && Target(s, i).outputs != 0x80)
      && (s.code[i] == OP_JUMPF ==> NamesSection(s, i))
      && (s.code[i] == OP_DATALOADN ==>
            i + 2 < |s.code| && 256 * s.code[i + 1] as int + s.code[i + 2] + 32 <= s.dataSize)
  {
    hide TraitsOf, GasCost;
    OperandSizes();
  }

  lemma OperandSizes()
    ensures TraitsOf(OP_CALLF).immediateSize == TraitsOf(OP_JUMPF).immediateSize == 2
    ensures TraitsOf(OP_DATALOADN).immediateSize == 2 && TraitsOf(OP_RJUMPV).immediateSize == 1
  {
  }

  /** The section that the CALLF or JUMPF at i names. */
  function Target(s: Section, i: nat): EofCodeType
    requires i + 2 < |s.code| && 256 * s.code[i + 1] as int + s.code[i + 2] < |s.types|
  {
    s.types[256 * s.code[i + 1] as int + s.code[i + 2]]
  }

  predicate NamesSection(s: Section, i: nat) {
    i + 2 < |s.code| && 256 * s.code[i + 1] as int + s.code[i + 2] < |s.types|
  }

  /** With the callee's inputs taken away and its maximum added, h items stay within the stack. */
  predicate RoomFor(h: int, callee: EofCodeType) {
    h - callee.inputs + callee.maxStackHeight <= 1024
  }

  /** CALLF takes any height that holds the arguments and leaves room for the callee. */
  lemma CallfRule(s: Section, i: nat, h: int)
    requires Checked(s) && IsStart(s.code, i) && s.code[i] == OP_CALLF && h >= 0
    ensures NamesSection(s, i)
    ensures VisitOk(s, Config(i, h)) <==> h >= Target(s, i).inputs && RoomFor(h, Target(s, i)) && i + 3 < |s.code|
    ensures Decodable(s, i) && (LocalError(s, i, h) == Some(StackOverflow) <==> !RoomFor(h, Target(s, i)))
    ensures LocalError(s, i, h) == Some(StackUnderflow) <==> RoomFor(h, Target(s, i)) && h < Target(s, i).inputs
  {
    hide TraitsOf, IsStart, InstructionsOk, RjumpsOk;
    CheckedDecodable(s, i);
    CallSize(s.code, i);
    assert TypeOk(Target(s, i));
  }

  lemma CallSize(code: seq<byte>, i: nat)
    requires i < |code|
    ensures code[i] == OP_CALLF || code[i] == OP_JUMPF ==> NextInstr(code, i) == i + 3
    ensures FallsThrough(OP_CALLF) && !FallsThrough(OP_JUMPF) && !FallsThrough(OP_RETF)
    ensures !FallsThrough(OP_RJUMP)
  {
  }

  /** JUMPF to a section that does not return takes any height that holds the arguments and leaves room. */
  lemma JumpfRule(s: Section, i: nat, h: int)
    requires Checked(s) && IsStart(s.code, i) && s.code[i] == OP_JUMPF && h >= 0
    requires NamesSection(s, i) && Target(s, i).outputs == NON_RETURNING
    ensures VisitOk(s, Config(i, h)) <==> h >= Target(s, i).inputs && RoomFor(h, Target(s, i))
    ensures Decodable(s, i) && (LocalError(s, i, h) == Some(StackOverflow) <==> !RoomFor(h, Target(s, i)))
  {
    hide TraitsOf, IsStart, InstructionsOk, RjumpsOk;
    CheckedDecodable(s, i);
    CallSize(s.code, i);
    assert TypeOk(Target(s, i));
  }

  /**
   * JUMPF to a returning section takes exactly one height, at which the callee's return is the section's own; the
   * cast to a signed byte shuts out heights above 127.
   */
  lemma JumpfReturningRule(s: Section, i: nat, h: int)
    requires Checked(s) && IsStart(s.code, i) && s.code[i] == OP_JUMPF && h >= 0
    requires NamesSection(s, i) && Target(s, i).outputs != NON_RETURNING
    ensures s.types[s.index].outputs <= 127
    ensures var callee, outputs := Target(s, i), s.types[s.index].outputs;
      VisitOk(s, Config(i, h)) <==>
        && callee.outputs <= outputs && RoomFor(h, callee)
        && h == outputs + (callee.inputs as int) - callee.outputs && h <= 127
    ensures Decodable(s, i) && (LocalError(s, i, h) == Some(StackOverflow) <==> !RoomFor(h, Target(s, i)))
  {
    hide TraitsOf, IsStart, RjumpsOk, InstructionError;
    CheckedDecodable(s, i);
    CallSize(s.code, i);
    assert ReturnsAt(s, i) && s.Returning();
    assert TypeOk(Target(s, i)) && TypeOk(s.types[s.index]);
  }

  /** RETF takes exactly the section's outputs. */
  lemma RetfRule(s: Section, i: nat, h: int)
    requires Checked(s) && IsStart(s.code, i) && s.code[i] == OP_RETF && h >= 0
    ensures VisitOk(s, Config(i, h)) <==> h == s.types[s.index].outputs
  {
    hide TraitsOf, IsStart, RjumpsOk, InstructionError;
    CheckedDecodable(s, i);
    CallSize(s.code, i);
    assert ReturnsAt(s, i) && s.Returning();
    assert TypeOk(s.types[s.index]);
  }

  /** Any other instruction takes every height that holds its operands, if something follows where it may fall. */
  lemma OtherRule(s: Section, i: nat, h: int)
    requires Checked(s) && IsStart(s.code, i) && s.code[i] !in {OP_CALLF, OP_JUMPF, OP_RETF} && h >= 0
    ensures i < |s.code|
    ensures VisitOk(s, Config(i, h)) <==>
      && h >= TraitsOf(s.code[i]).stackHeightRequired
      && (TraitsOf(s.code[i]).isTerminating || s.code[i] == OP_RJUMP || NextInstr(s.code, i) < |s.code|)
  {
    hide TraitsOf, IsStart, InstructionsOk, RjumpsOk;
    CheckedDecodable(s, i);
  }

  method ValidateMaxStackHeight(s: Section) returns (r: Result<int>)
    requires Checked(s)
    ensures r.Ok? ==> StackOk(s, r.value)
    ensures r.Err? ==> Refuted(s, r.error)
    ensures r.Ok? <==> exists m :: StackOk(s, m)
  {
    hide StackOk, Refuted;
    r := AnalyzeHeights(s);
    if r.Err? {
      forall m ensures !StackOk(s, m) {
        VerdictsExclusive(s, r.error, m);
      }
    }
  }

  method AnalyzeHeights(s: Section) returns (r: Result<int>)
    requires Checked(s)
    ensures r.Ok? ==> StackOk(s, r.value)
    ensures r.Err? ==> Refuted(s, r.error)
  {
    hide HeightChange, LocalError, IsStart, Reachable, Inv, Unvisited, TraitsOf, U16, Successors, JumpTargets;
    RelativeJumpSizes();
    var code := s.code;
    var heights := new int[|code|](_ => LOC_UNVISITED);
    heights[0] := s.types[s.index].inputs;
    var worklist: seq<nat> := [0];
    InvInit(s, heights[..]);
    while |worklist| > 0
      invariant Inv(s, heights[..], worklist, -1)
      decreases |Unvisited(heights[..])| + |worklist|
    {
      InvPop(s, heights[..], worklist);
      var i := worklist[|worklist| - 1];
      worklist := worklist[..|worklist| - 1];
      var op := code[i];
      var stackHeight := heights[i];
      ghost var hs0 := heights[..];
      var error := VisitError(s, i, stackHeight);
      if error.Some? {
        LocalRefutation(s, Config(i, stackHeight), error.value);
        return Err(error.value);
      }
      stackHeight := stackHeight + HeightChange(s, i);
      var immSize := if op == OP_RJUMPV then 1 + (code[i + 1] as int + 1) * REL_OFFSET_SIZE
                     else TraitsOf(op).immediateSize;
      forall x | i + 1 <= x < i + 1 + immSize {
        heights[x] := LOC_IMMEDIATE;
      }
      InvMark(s, hs0, worklist, i, heights[..]);
      UnvisitedMonotone(hs0, heights[..]);
      var ok;
      ok, worklist := ValidateSuccessors(s, heights, worklist, i, i + immSize + 1, stackHeight);
      if !ok {
        return Err(StackHeightMismatch);
      }
    }
    var max := MaxElement(heights[..]);
    assert worklist == [];
    if LOC_UNVISITED in heights[..] {
      SomeUnreachable(s, heights[..]);
      return Err(UnreachableInstructions);
    }
    FullyVisited(s, heights[..]);
    return Ok(max);
  }

  // ---------------------------------------------------------------- consequences

  /** A refuted section has no maximum height at all: the verdict does not depend on the visiting order. */
  lemma VerdictsExclusive(s: Section, e: EofError, m: int)
    requires s.Valid() && Refuted(s, e)
    ensures !StackOk(s, m)
  {
    hide LocalError, Decodable, Reachable, IsStart;
    if e == StackHeightMismatch {
      var c, d :| Reachable(s, c) && Reachable(s, d) && c.pos == d.pos && c.height != d.height;
    } else if e == UnreachableInstructions {
      var i: nat :| IsStart(s.code, i) && forall h :: !Reachable(s, Config(i, h));
    } else {
      var c :| Reachable(s, c) && 0 <= c.pos && Decodable(s, c.pos) && LocalError(s, c.pos, c.height) == Some(e);
      assert !VisitOk(s, c);
    }
  }

  /** One exact height per instruction start: the table the interpreter's soundness rests on. */
  ghost predicate Typed(s: Section, hs: seq<int>, m: int) {
    && s.Valid() && |hs| == |s.code| && hs[0] == s.types[s.index].inputs
    && (forall i: nat :: IsStart(s.code, i) ==> TypedAt(s, hs, m, i))
  }

  ghost predicate TypedAt(s: Section, hs: seq<int>, m: int, i: nat)
    requires s.Valid() && |hs| == |s.code|
  {
    && Decodable(s, i) && 0 <= hs[i] <= m && LocalError(s, i, hs[i]) == None
    && forall t: int :: t in Successors(s, i) ==>
         0 <= t < |hs| && IsStart(s.code, t) && hs[t] == hs[i] + HeightChange(s, i)
  }

  ghost function HeightAt(s: Section, i: nat): int
    requires s.Valid()
  {
    if exists h :: Reachable(s, Config(i, h)) then
      var h :| Reachable(s, Config(i, h)); h
    else LOC_IMMEDIATE
  }

  lemma StartReachable(s: Section)
    requires s.Valid()
    ensures Reachable(s, Config(0, s.types[s.index].inputs))
  {
    var c := Config(0, s.types[s.index].inputs);
    assert EndsAt(s, [c], c);
  }

  lemma StackOkTyping(s: Section, m: int) returns (hs: seq<int>)
    requires Checked(s) && StackOk(s, m)
    ensures Typed(s, hs, m)
    ensures forall i: nat :: IsStart(s.code, i) ==> i < |hs| && Reachable(s, Config(i, hs[i]))
  {
    hide LocalError, Successors, HeightChange, IsStart, Reachable, Decodable;
    hs := seq(|s.code|, i requires 0 <= i < |s.code| => HeightAt(s, i));
    var start := Config(0, s.types[s.index].inputs);
    StartReachable(s);
    assert VisitOk(s, start);
    forall i: nat | IsStart(s.code, i)
      ensures TypedAt(s, hs, m, i)
    {
      InstructionStartDecodes(s.code, i);
      assert Reachable(s, Config(i, hs[i]));
      assert VisitOk(s, Config(i, hs[i]));
      SuccessorsAreStarts(s, i, hs[i]);
      forall t: int | t in Successors(s, i)
        ensures 0 <= t < |hs| && IsStart(s.code, t) && hs[t] == hs[i] + HeightChange(s, i)
      {
        ReachableStep(s, Config(i, hs[i]), Config(t, hs[i] + HeightChange(s, i)));
        assert Reachable(s, Config(t, hs[t]));
      }
    }
  }
}
