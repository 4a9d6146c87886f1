/** Instruction traits, base gas costs and the per-format cost tables. */
module Opcodes {
  import opened Bytes

  const OP_STOP: byte := 0x00
  const OP_ADD: byte := 0x01
  const OP_MUL: byte := 0x02
  const OP_SUB: byte := 0x03
  const OP_DIV: byte := 0x04
  const OP_MOD: byte := 0x06
  const OP_ADDMOD: byte := 0x08
  const OP_MULMOD: byte := 0x09
  const OP_LT: byte := 0x10
  const OP_GT: byte := 0x11
  const OP_EQ: byte := 0x14
  const OP_ISZERO: byte := 0x15
  const OP_NOT: byte := 0x19
  const OP_ADDRESS: byte := 0x30
  const OP_POP: byte := 0x50
  const OP_MLOAD: byte := 0x51
  const OP_MSTORE: byte := 0x52
  const OP_MSTORE8: byte := 0x53
  const OP_JUMP: byte := 0x56
  const OP_JUMPI: byte := 0x57
  const OP_PC: byte := 0x58
  const OP_MSIZE: byte := 0x59
  const OP_GAS: byte := 0x5a
  const OP_JUMPDEST: byte := 0x5b
  const OP_PUSH0: byte := 0x5f
  const OP_PUSH1: byte := 0x60
  const OP_PUSH5: byte := 0x64
  const OP_PUSH6: byte := 0x65
  const OP_PUSH8: byte := 0x67
  const OP_PUSH32: byte := 0x7f
  const OP_DUP1: byte := 0x80
  const OP_SWAP1: byte := 0x90
  const OP_SWAP: byte := 0xa6
  const OP_DUP: byte := 0xa7
  const OP_RJUMP: byte := 0xe0
  const OP_RJUMPI: byte := 0xe1
  const OP_RJUMPV: byte := 0xe2
  const OP_CALLF: byte := 0xe3
  const OP_RETF: byte := 0xe4
  const OP_JUMPF: byte := 0xe5
  const OP_DUPN: byte := 0xe6
  const OP_SWAPN: byte := 0xe7
  const OP_DATALOAD: byte := 0xe8
  const OP_DATALOADN: byte := 0xe9
  const OP_DATASIZE: byte := 0xea
  const OP_DATACOPY: byte := 0xeb
  const OP_CREATE: byte := 0xf0
  const OP_CALL: byte := 0xf1
  const OP_CALLCODE: byte := 0xf2
  const OP_DELEGATECALL: byte := 0xf4
  const OP_CREATE2: byte := 0xf5
  const OP_RETURN: byte := 0xf3
  const OP_STATICCALL: byte := 0xfa
  const OP_REVERT: byte := 0xfd
  const OP_INVALID: byte := 0xfe
  const OP_SELFDESTRUCT: byte := 0xff

  datatype Traits = Traits(immediateSize: nat, isTerminating: bool, stackHeightRequired: nat, stackHeightChange: int)

  /** The revision-independent traits table; unlisted opcodes keep the default entry. */
  function TraitsOf(op: byte): Traits {
    if op < 0x20 then
      if op == 0x00 then Traits(0, true, 0, 0)
      else if op == 0x08 || op == 0x09 then Traits(0, false, 3, -2)
      else if op <= 0x0b then Traits(0, false, 2, -1)
      else if op <= 0x0f || 0x1e <= op then Traits(0, false, 0, 0)
      else if op == 0x15 || op == 0x19 then Traits(0, false, 1, 0)
      else Traits(0, false, 2, -1)
    else if op < 0x30 then
      if op == 0x20 then Traits(0, false, 2, -1) else Traits(0, false, 0, 0)
    else if op < 0x50 then
      if op in {0x31, 0x35, 0x3b, 0x3f, 0x40, 0x49} then Traits(0, false, 1, 0)
      else if op in {0x37, 0x39, 0x3e} then Traits(0, false, 3, -3)
      else if op == 0x3c then Traits(0, false, 4, -4)
      else if op <= 0x4a then Traits(0, false, 0, 1)
      else Traits(0, false, 0, 0)
    else if op < 0x60 then
      if op == 0x50 || op == 0x56 then Traits(0, false, 1, -1)
      else if op in {0x51, 0x54, 0x5c} then Traits(0, false, 1, 0)
      else if op in {0x52, 0x53, 0x55, 0x57, 0x5d} then Traits(0, false, 2, -2)
      else if op == 0x5b then Traits(0, false, 0, 0)
      else if op == 0x5e then Traits(0, false, 3, -3)
      else Traits(0, false, 0, 1)
    else if op < 0x80 then Traits(op - 0x5f, false, 0, 1)
    else if op < 0x90 then Traits(0, false, op - 0x7f, 1)
    else if op < 0xa0 then Traits(0, false, op - 0x8e, 0)
    else if op < 0xe0 then
      if op <= 0xa4 then Traits(0, false, op - 0x9e, 0x9e - op)
      else if op == 0xa6 then Traits(0, false, 1, -1)
      else if op == 0xa7 || 0xc0 <= op <= 0xc3 then Traits(0, false, 1, 0)
      else if 0xb0 <= op <= 0xb2 then Traits(0, false, 2, -2)
      else Traits(0, false, 0, 0)
    else if op < 0xf0 then
      if op == 0xe0 || op == 0xe3 then Traits(2, false, 0, 0)
      else if op == 0xe1 then Traits(2, false, 1, -1)
      else if op == 0xe2 then Traits(1, false, 1, -1)
      else if op == 0xe4 then Traits(0, true, 0, 0)
      else if op == 0xe5 then Traits(2, true, 0, 0)
      else if op == 0xe6 then Traits(1, false, 0, 1)
      else if op == 0xe7 then Traits(1, false, 0, 0)
      else if op == 0xe8 then Traits(0, false, 1, 0)
      else if op == 0xe9 then Traits(2, false, 0, 1)
      else if op == 0xea then Traits(0, false, 0, 1)
      else if op == 0xeb then Traits(0, false, 3, -3)
      else Traits(0, false, 0, 0)
    else
      if op == 0xf0 then Traits(0, false, 3, -2)
      else if op == 0xf1 || op == 0xf2 then Traits(0, false, 7, -6)
      else if op == 0xf3 || op == 0xfd then Traits(0, true, 2, -2)
      else if op == 0xf4 || op == 0xfa then Traits(0, false, 6, -5)
      else if op == 0xf5 then Traits(0, false, 4, -3)
      else if op == 0xfe then Traits(0, true, 0, 0)
      else if op == 0xff then Traits(0, true, 1, -1)
      else Traits(0, false, 0, 0)
  }

  /** The EVM revisions in their order of activation. */
  datatype Revision =
    | Frontier | Homestead | TangerineWhistle | SpuriousDragon | Byzantium | Constantinople | Petersburg
    | Istanbul | Berlin | London | Paris | Shanghai | Cancun | Prague

  function Order(rev: Revision): (n: nat)
    ensures n <= 13
  {
    match rev
    case Frontier => 0 case Homestead => 1 case TangerineWhistle => 2 case SpuriousDragon => 3
    case Byzantium => 4 case Constantinople => 5 case Petersburg => 6 case Istanbul => 7 case Berlin => 8
    case London => 9 case Paris => 10 case Shanghai => 11 case Cancun => 12 case Prague => 13
  }

  /** The cost that marks an undefined instruction. */
  const UNDEFINED := -1

  /** The Frontier row of the gas table. */
  function FrontierCost(op: byte): int {
    if op <= 0x0b then
      if op == 0x00 then 0
      else if op == 0x01 || op == 0x03 then 3
      else if op == 0x08 || op == 0x09 then 8
      else if op == 0x0a then 10
      else 5
    else if op < 0x30 then
      if 0x10 <= op <= 0x1a || op == 0x1c then 3 else if op == 0x20 then 30 else UNDEFINED
    else if op < 0x50 then
      if op in {0x31, 0x3b, 0x3c, 0x40} then 20
      else if op in {0x35, 0x37, 0x39} then 3
      else if op in {0x3d, 0x3e, 0x3f} || 0x46 <= op then UNDEFINED
      else 2
    else if op < 0x60 then
      if 0x51 <= op <= 0x53 then 3
      else if op == 0x54 then 50
      else if op == 0x55 then 0
      else if op == 0x56 then 8
      else if op == 0x57 then 10
      else if op == 0x5b then 1
      else if 0x5c <= op <= 0x5e then UNDEFINED
      else 2
    else if op < 0xa0 then 3
    else if op <= 0xa7 then
      if op == 0xa1 then 0 else if op <= 0xa4 then (op - 0x9f) * 375 else 3
    else if 0xb0 <= op <= 0xb2 || 0xc0 <= op <= 0xc3 then 3
    else if op == 0xf0 then 32000
    else if op == 0xf1 || op == 0xf2 then 40
    else if op == 0xf3 || op == 0xfe || op == 0xff then 0
    else UNDEFINED
  }

  /** What each later revision changes, as the table-building code overwrites it. */
  function Override(rev: Revision, op: byte): Option<int> {
    match rev
    case Homestead => if op == 0xf4 then Some(40) else None
    case TangerineWhistle =>
      if op == 0x31 then Some(400)
      else if op == 0x3b || op == 0x3c || op == 0xf1 || op == 0xf2 || op == 0xf4 then Some(700)
      else if op == 0x54 then Some(200)
      else if op == 0xff then Some(5000)
      else None
    case Byzantium =>
      if op == 0x3d then Some(2) else if op == 0x3e then Some(3)
      else if op == 0xfa then Some(700) else if op == 0xfd then Some(0) else None
    case Constantinople =>
      if 0x1b <= op <= 0x1d then Some(3) else if op == 0x3f then Some(400)
      else if op == 0xf5 then Some(32000) else None
    case Istanbul =>
      if op == 0x31 || op == 0x3f then Some(700) else if op == 0x46 then Some(2)
      else if op == 0x47 then Some(5) else if op == 0x54 then Some(800) else None
    case Berlin =>
      if op in {0x31, 0x3b, 0x3c, 0x3f, 0x54, 0xf1, 0xf2, 0xf4, 0xfa} then Some(100) else None
    case London => if op == 0x48 then Some(2) else None
    case Shanghai => if op == 0x5f then Some(2) else None
    case Cancun =>
      if op == 0x49 || op == 0x5e then Some(3) else if op == 0x4a then Some(2)
      else if op == 0x5c || op == 0x5d then Some(100) else None
    case Prague =>
      if op in {0xe6, 0xe7, 0xe4, 0xe9, 0xeb} then Some(3)
      else if op == 0xe0 || op == 0xea then Some(2)
      else if op == 0xe1 || op == 0xe2 || op == 0xe8 then Some(4)
      else if op == 0xe3 || op == 0xe5 then Some(5)
      else None
    case _ => None
  }

  function Previous(rev: Revision): (p: Revision)
    requires rev != Frontier
    ensures Order(p) + 1 == Order(rev)
  {
    match rev
    case Homestead => Frontier case TangerineWhistle => Homestead case SpuriousDragon => TangerineWhistle
    case Byzantium => SpuriousDragon case Constantinople => Byzantium case Petersburg => Constantinople
    case Istanbul => Petersburg case Berlin => Istanbul case London => Berlin case Paris => London
    case Shanghai => Paris case Cancun => Shanghai case Prague => Cancun
  }

  /** `gas_costs[rev][op]`: the latest overwrite at or before rev. */
  function GasCost(rev: Revision, op: byte): (cost: int)
    ensures UNDEFINED <= cost
    decreases Order(rev)
  {
    if rev == Frontier then FrontierCost(op)
    else
      match Override(rev, op)
      case Some(cost) => cost
      case None => GasCost(Previous(rev), op)
  }

  /** `has_const_gas_cost`: the same entry, possibly undefined, in every revision. */
  predicate HasConstGasCost(op: byte) {
    forall rev :: GasCost(rev, op) == GasCost(Frontier, op)
  }

  /** The legacy and EOF cost tables: Prague drops the other format's instructions. */
  function CostTable(rev: Revision, isEof: bool, op: byte): (cost: int)
    ensures UNDEFINED <= cost
    ensures cost != UNDEFINED ==> cost == GasCost(rev, op)
  {
    if rev == Prague && (if isEof then op in EOF_REMOVED else op in LEGACY_REMOVED) then UNDEFINED
    else GasCost(rev, op)
  }

  const LEGACY_REMOVED: set<byte> :=
    {OP_RJUMP, OP_RJUMPI, OP_RJUMPV, OP_CALLF, OP_RETF, OP_JUMPF, OP_DATALOAD, OP_DATALOADN, OP_DATASIZE, OP_DATACOPY}
  const EOF_REMOVED: set<byte> := {OP_JUMP, OP_JUMPI, OP_PC, OP_CALLCODE, OP_SELFDESTRUCT}
}
