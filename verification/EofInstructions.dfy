/**
 * Linear decoding of one EOF code section: `validate_instructions` and
 * `validate_rjump_destinations`, each against the set of instruction starts.
 */
module EofInstructions {
  import opened Bytes
  import opened Opcodes

  datatype EofError =
    | InvalidPrefix | VersionUnknown
    | IncompleteSectionSize | IncompleteSectionNumber
    | HeaderTerminatorMissing | TypeSectionMissing | CodeSectionMissing | DataSectionMissing
    | ZeroSectionSize | SectionHeadersNotTerminated | InvalidSectionBodiesSize
    | UndefinedInstruction | TruncatedInstruction | InvalidRjumpDestination | TooManyCodeSections
    | InvalidTypeSectionSize | InvalidFirstSectionType | InvalidMaxStackHeight
    | NoTerminatingInstruction | StackHeightMismatch | StackHigherThanOutputsRequired
    | MaxStackHeightAboveLimit | InputsOutputsNumAboveLimit | UnreachableInstructions
    | StackUnderflow | StackOverflow | InvalidCodeSectionIndex | InvalidDataloadnIndex
    | JumpfDestinationIncompatibleOutputs | InvalidNonReturningFlag | CallfToNonReturningFunction

  datatype Result<+T> = Ok(value: T) | Err(error: EofError)

  datatype EofCodeType = EofCodeType(inputs: byte, outputs: byte, maxStackHeight: nat)

  const NON_RETURNING: byte := 0x80
  const REL_OFFSET_SIZE := 2

  /** One code section with the header facts its checks consult. */
  datatype Section = Section(code: seq<byte>, index: nat, types: seq<EofCodeType>, dataSize: nat) {
    predicate Valid() {
      |code| > 0 && index < |types|
    }

    predicate Returning()
      requires Valid()
    {
      types[index].outputs != NON_RETURNING
    }
  }

  // ---------------------------------------------------------------- linear decode

  /** Bytes of immediate data after the opcode at i, counting RJUMPV's table. */
  function ImmediateSize(code: seq<byte>, i: nat): nat
    requires i < |code|
  {
    if code[i] == OP_RJUMPV then
      if i + 1 < |code| then 1 + (code[i + 1] as int + 1) * REL_OFFSET_SIZE else 1
    else TraitsOf(code[i]).immediateSize
  }

  /** The fixed-size immediates of the relative jumps, as the decoders rely on them. */
  lemma RelativeJumpSizes()
    ensures TraitsOf(OP_RJUMP).immediateSize == TraitsOf(OP_RJUMPI).immediateSize == 2
    ensures TraitsOf(OP_RJUMPV).immediateSize == 1
  {
  }

  function NextInstr(code: seq<byte>, i: nat): (next: nat)
    requires i < |code|
    ensures i < next
  {
    i + 1 + ImmediateSize(code, i)
  }

  /** Decoding linearly from `from` arrives exactly at k. */
  predicate DecodesTo(code: seq<byte>, from: nat, k: nat)
    decreases |code| - from
  {
    from == k || (from < |code| && from < k && DecodesTo(code, NextInstr(code, from), k))
  }

  predicate IsStart(code: seq<byte>, k: nat) {
    DecodesTo(code, 0, k) && k < |code|
  }

  lemma {:induction false} DecodeStep(code: seq<byte>, from: nat, i: nat)
    requires DecodesTo(code, from, i) && i < |code|
    ensures DecodesTo(code, from, NextInstr(code, i))
    decreases |code| - from
  {
    if from != i {
      DecodeStep(code, NextInstr(code, from), i);
    } else {
      assert DecodesTo(code, NextInstr(code, i), NextInstr(code, i));
    }
  }

  /** Instructions do not overlap: nothing strictly inside an instruction is a decode point. */
  lemma {:induction false} NoStartInside(code: seq<byte>, from: nat, i: nat, x: nat)
    requires DecodesTo(code, from, i) && i < |code| && i < x < NextInstr(code, i)
    ensures !DecodesTo(code, from, x)
    decreases |code| - from
  {
    if from != i {
      NoStartInside(code, NextInstr(code, from), i, x);
    }
  }

  // ---------------------------------------------------------------- validate_instructions

  /** The verdict on the single instruction at i; None when it passes. */
  function InstructionError(s: Section, i: nat): Option<EofError>
    requires s.Valid() && i < |s.code|
  {
    var op := s.code[i];
    if CostTable(Prague, true, op) == UNDEFINED then Some(UndefinedInstruction)
    else if i + TraitsOf(op).immediateSize >= |s.code| then Some(TruncatedInstruction)
    else if NextInstr(s.code, i) > |s.code| then Some(TruncatedInstruction)
    else if op == OP_CALLF then
      var fid := U16(s.code, i + 1);
      if fid >= |s.types| then Some(InvalidCodeSectionIndex)
      else if s.types[fid].outputs == NON_RETURNING then Some(CallfToNonReturningFunction)
      else None
    else if op == OP_JUMPF && U16(s.code, i + 1) >= |s.types| then Some(InvalidCodeSectionIndex)
    else if op == OP_DATALOADN && (s.dataSize < 32 || U16(s.code, i + 1) > s.dataSize - 32) then
      Some(InvalidDataloadnIndex)
    else None
  }

  /** RETF, or JUMPF into a returning function, makes the section returning. */
  predicate ReturnsAt(s: Section, i: nat)
    requires s.Valid() && i < |s.code|
  {
    s.code[i] == OP_RETF ||
    (s.code[i] == OP_JUMPF && i + 2 < |s.code| && U16(s.code, i + 1) < |s.types| &&
     s.types[U16(s.code, i + 1)].outputs != NON_RETURNING)
  }

  /** What the whole check promises about an accepted section. */
  ghost predicate InstructionsOk(s: Section) {
    && s.Valid()
    && (forall i: nat :: IsStart(s.code, i) ==> InstructionError(s, i) == None)
    && (s.Returning() <==> exists i: nat :: IsStart(s.code, i) && ReturnsAt(s, i))
  }

  /** The first offending instruction in decode order, with its error. */
  ghost predicate FirstError(s: Section, i: nat, e: EofError) {
    && s.Valid() && IsStart(s.code, i) && InstructionError(s, i) == Some(e)
    && forall k: nat :: IsStart(s.code, k) && k < i ==> InstructionError(s, k) == None
  }

  method ValidateInstructions(s: Section) returns (r: Option<EofError>)
    requires s.Valid()
    ensures r == None <==> InstructionsOk(s)
    ensures r.Some? && r.value != InvalidNonReturningFlag ==> exists i: nat :: FirstError(s, i, r.value)
    ensures r == Some(InvalidNonReturningFlag) ==>
      forall i: nat :: IsStart(s.code, i) ==> InstructionError(s, i) == None
  {
    hide GasCost, U16;
    var code := s.code;
    var isReturning := false;
    var i := 0;
    while i < |code|
      invariant 0 <= i
      invariant DecodesTo(code, 0, i)
      invariant i <= |code|
      invariant forall k: nat :: IsStart(code, k) && k < i ==> InstructionError(s, k) == None
      invariant isReturning <==> exists k: nat :: IsStart(code, k) && k < i && ReturnsAt(s, k)
    {
      ghost var start := i;
      assert IsStart(code, start);
      var op := code[i];
      if CostTable(Prague, true, op) == UNDEFINED {
        assert FirstError(s, start, UndefinedInstruction);
        return Some(UndefinedInstruction);
      }
      if i + TraitsOf(op).immediateSize >= |code| {
        assert FirstError(s, start, TruncatedInstruction);
        return Some(TruncatedInstruction);
      }
      if op == OP_RJUMPV {
        var count := code[i + 1] as int + 1;
        i := i + 1 + count * 2;
        if i >= |code| {
          assert FirstError(s, start, TruncatedInstruction);
          return Some(TruncatedInstruction);
        }
      } else if op == OP_CALLF {
        var fid := U16(code, i + 1);
        if fid >= |s.types| {
          assert FirstError(s, start, InvalidCodeSectionIndex);
          return Some(InvalidCodeSectionIndex);
        }
        if s.types[fid].outputs == NON_RETURNING {
          assert FirstError(s, start, CallfToNonReturningFunction);
          return Some(CallfToNonReturningFunction);
        }
        i := i + 2;
      } else if op == OP_RETF {
        isReturning := true;
      } else if op == OP_JUMPF {
        var fid := U16(code, i + 1);
        if fid >= |s.types| {
          assert FirstError(s, start, InvalidCodeSectionIndex);
          return Some(InvalidCodeSectionIndex);
        }
        if s.types[fid].outputs != NON_RETURNING {
          isReturning := true;
        }
        i := i + 2;
      } else if op == OP_DATALOADN {
        var index := U16(code, i + 1);
        if s.dataSize < 32 || index > s.dataSize - 32 {
          assert FirstError(s, start, InvalidDataloadnIndex);
          return Some(InvalidDataloadnIndex);
        }
        i := i + 2;
      } else {
        i := i + TraitsOf(op).immediateSize;
      }
      i := i + 1;
      assert i == NextInstr(code, start);
      DecodeStep(code, 0, start);
      forall k: nat | IsStart(code, k) && k < i
        ensures k <= start
      {
        if start < k { NoStartInside(code, 0, start, k); }
      }
      assert isReturning <==>
        (exists k: nat :: IsStart(code, k) && k < start && ReturnsAt(s, k)) || ReturnsAt(s, start);
    }
    var declaredReturning := s.types[s.index].outputs != NON_RETURNING;
    if isReturning != declaredReturning {
      return Some(InvalidNonReturningFlag);
    }
    return None;
  }

  // ---------------------------------------------------------------- validate_rjump_destinations

  /** Absolute targets of the relative jump at i, in table order; empty for every other instruction. */
  function JumpTargets(code: seq<byte>, i: nat): seq<int>
    requires i < |code| && NextInstr(code, i) <= |code|
  {
    if code[i] == OP_RJUMP || code[i] == OP_RJUMPI then [i + 3 + I16(code, i + 1)]
    else if code[i] == OP_RJUMPV then
      seq(code[i + 1] as int + 1, k requires 0 <= k < code[i + 1] as int + 1 =>
        NextInstr(code, i) + I16(code, i + 2 + k * REL_OFFSET_SIZE))
    else []
  }

  /** No instruction runs past the end of the section. */
  ghost predicate Untruncated(code: seq<byte>) {
    forall i: nat :: IsStart(code, i) ==> NextInstr(code, i) <= |code|
  }

  ghost predicate TargetsOk(code: seq<byte>, i: nat)
    requires i < |code| && NextInstr(code, i) <= |code|
  {
    forall t: int :: t in JumpTargets(code, i) ==> 0 <= t && IsStart(code, t)
  }

  /** Every relative jump of the section lands on an instruction start of the section. */
  ghost predicate RjumpsOk(code: seq<byte>) {
    forall i: nat :: IsStart(code, i) && NextInstr(code, i) <= |code| ==> TargetsOk(code, i)
  }

  lemma BadTarget(code: seq<byte>, i: nat, k: nat)
    requires IsStart(code, i) && NextInstr(code, i) <= |code| && k < |JumpTargets(code, i)|
    requires var t := JumpTargets(code, i)[k]; !(0 <= t && IsStart(code, t))
    ensures !RjumpsOk(code)
  {
    hide JumpTargets, NextInstr, IsStart;
    assert JumpTargets(code, i)[k] in JumpTargets(code, i);
    assert !TargetsOk(code, i);
  }

  /** `check_rjump_destination`: appends a target that lies inside the section. */
  method CheckRjumpDestination(code: seq<byte>, offsetPos: nat, postPos: nat, dests: seq<nat>)
    returns (ok: bool, dests': seq<nat>)
    requires offsetPos + 1 < |code|
    ensures ok <==> 0 <= postPos + I16(code, offsetPos) < |code|
    ensures ok ==> dests' == dests + [postPos + I16(code, offsetPos)]
  {
    var jumpdest := postPos + I16(code, offsetPos);
    if jumpdest < 0 || jumpdest >= |code| {
      return false, dests;
    }
    return true, dests + [jumpdest];
  }

  /** dests lists exactly the targets of the instructions that start before i. */
  ghost predicate Collected(code: seq<byte>, i: nat, dests: seq<nat>)
    requires Untruncated(code)
  {
    && (forall d :: d in dests ==> d < |code| && TargetBefore(code, i, d))
    && (forall t: int :: TargetBefore(code, i, t) ==> 0 <= t && t in dests)
  }

  /** t is a target of some jump that starts before i. */
  ghost predicate TargetBefore(code: seq<byte>, i: nat, t: int)
    requires Untruncated(code)
  {
    exists k: nat :: IsStart(code, k) && k < i && t in JumpTargets(code, k)
  }

  function ToNats(s: seq<int>): (r: seq<nat>)
    requires forall d :: d in s ==> 0 <= d
    ensures r == s
  {
    assert forall i | 0 <= i < |s| :: s[i] in s;
    s
  }

  lemma CollectedAll(code: seq<byte>, dests: seq<nat>)
    requires Untruncated(code) && Collected(code, |code|, dests)
    requires forall d :: d in dests ==> IsStart(code, d)
    ensures RjumpsOk(code)
  {
    hide JumpTargets, NextInstr;
    forall i: nat | IsStart(code, i)
      ensures TargetsOk(code, i)
    {
      forall t: int | t in JumpTargets(code, i)
        ensures 0 <= t && IsStart(code, t)
      {
        assert TargetBefore(code, |code|, t);
      }
    }
  }

  lemma CollectNext(code: seq<byte>, i: nat, dests: seq<nat>, more: seq<int>)
    requires Untruncated(code) && IsStart(code, i)
    requires Collected(code, i, dests)
    requires JumpTargets(code, i) == more
    requires forall d :: d in more ==> 0 <= d < |code|
    ensures Collected(code, NextInstr(code, i), dests + ToNats(more))
  {
    hide TraitsOf, I16, JumpTargets, NextInstr, DecodesTo;
    var all := dests + ToNats(more);
    forall d | d in all
      ensures d < |code| && TargetBefore(code, NextInstr(code, i), d)
    {
      if d in dests {
        var k: nat :| IsStart(code, k) && k < i && (d as int) in JumpTargets(code, k);
      } else {
        assert (d as int) in more;
      }
    }
    forall t: int | TargetBefore(code, NextInstr(code, i), t)
      ensures 0 <= t && t in all
    {
      var k: nat :| IsStart(code, k) && k < NextInstr(code, i) && t in JumpTargets(code, k);
      StartNotInside(code, i, k);
      if k == i {
        assert t in ToNats(more);
      } else {
        assert TargetBefore(code, i, t);
      }
    }
  }

  lemma StartNotInside(code: seq<byte>, i: nat, k: nat)
    requires IsStart(code, i) && IsStart(code, k) && k < NextInstr(code, i)
    ensures k <= i
  {
    hide NextInstr;
    if i < k { NoStartInside(code, 0, i, k); }
  }

  /** The jump part of the decode loop: appends the targets of the instruction at i while they stay inside. */
  method CollectTargets(code: seq<byte>, i: nat, dests: seq<nat>) returns (ok: bool, dests': seq<nat>)
    requires i < |code| && NextInstr(code, i) <= |code|
    ensures ok <==> forall t: int :: t in JumpTargets(code, i) ==> 0 <= t < |code|
    ensures ok ==> dests' == dests + JumpTargets(code, i)
  {
    hide TraitsOf, I16, U16;
    RelativeJumpSizes();
    var op := code[i];
    dests' := dests;
    if op == OP_RJUMP || op == OP_RJUMPI {
      ok, dests' := CheckRjumpDestination(code, i + 1, i + REL_OFFSET_SIZE + 1, dests');
      assert JumpTargets(code, i)[0] in JumpTargets(code, i);
      return;
    }
    if op == OP_RJUMPV {
      var count := code[i + 1] as int + 1;
      var immSize := TraitsOf(op).immediateSize + count * REL_OFFSET_SIZE;
      var postPos := i + 1 + immSize;
      var k := 0;
      while k < count * REL_OFFSET_SIZE
        invariant 0 <= k <= count * REL_OFFSET_SIZE && k % REL_OFFSET_SIZE == 0
        invariant dests' == dests + JumpTargets(code, i)[..k / REL_OFFSET_SIZE]
        invariant forall m :: 0 <= m < k / REL_OFFSET_SIZE ==> 0 <= JumpTargets(code, i)[m] < |code|
      {
        ghost var targets, m := JumpTargets(code, i), k / REL_OFFSET_SIZE;
        assert targets[m] in targets;
        assert targets[..m + 1] == targets[..m] + [targets[m]];
        ok, dests' := CheckRjumpDestination(code, i + 1 + 1 + k, postPos, dests');
        if !ok {
          return;
        }
        k := k + REL_OFFSET_SIZE;
      }
      assert JumpTargets(code, i)[..count] == JumpTargets(code, i);
    }
    ok := true;
  }

  method ValidateRjumpDestinations(code: seq<byte>) returns (ok: bool)
    requires |code| > 0 && Untruncated(code)
    ensures ok <==> RjumpsOk(code)
  {
    hide TraitsOf, I16, U16, JumpTargets;
    RelativeJumpSizes();
    var rjumpdests: seq<nat> := [];
    var immediateMap := new bool[|code|](_ => false);
    var i := 0;
    while i < |code|
      invariant 0 <= i <= |code| && DecodesTo(code, 0, i)
      invariant Collected(code, i, rjumpdests)
      invariant forall x :: 0 <= x < i ==> (immediateMap[x] <==> !IsStart(code, x))
      invariant forall x :: i <= x < |code| ==> !immediateMap[x]
    {
      assert IsStart(code, i);
      var op := code[i];
      var immSize := TraitsOf(op).immediateSize;
      if op == OP_RJUMPV {
        immSize := immSize + (code[i + 1] as int + 1) * REL_OFFSET_SIZE;
      }
      ghost var before := rjumpdests;
      var ok1;
      ok1, rjumpdests := CollectTargets(code, i, rjumpdests);
      if !ok1 {
        var n :| 0 <= n < |JumpTargets(code, i)| && !(0 <= JumpTargets(code, i)[n] < |code|);
        BadTarget(code, i, n);
        return false;
      }
      CollectNext(code, i, before, JumpTargets(code, i));
      forall x | i + 1 <= x < i + 1 + immSize {
        immediateMap[x] := true;
      }
      DecodeStep(code, 0, i);
      forall x | i < x < NextInstr(code, i)
        ensures !IsStart(code, x)
      {
        NoStartInside(code, 0, i, x);
      }
      i := i + immSize + 1;
    }
    var j := 0;
    while j < |rjumpdests|
      invariant 0 <= j <= |rjumpdests|
      invariant forall m :: 0 <= m < j ==> IsStart(code, rjumpdests[m])
    {
      var rjumpdest := rjumpdests[j];
      assert rjumpdest in rjumpdests;
      if immediateMap[rjumpdest] {
        ghost var k: nat :| IsStart(code, k) && (rjumpdest as int) in JumpTargets(code, k);
        ghost var n :| 0 <= n < |JumpTargets(code, k)| && JumpTargets(code, k)[n] == rjumpdest;
        BadTarget(code, k, n);
        return false;
      }
      j := j + 1;
    }
    assert forall d :: d in rjumpdests ==> IsStart(code, d);
    CollectedAll(code, rjumpdests);
    return true;
  }
}
