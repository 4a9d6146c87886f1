/**
 * The bytecode table (`process_bytecode_input`): one row per byte, classifying opcodes and push data with a
 * countdown. The first byte of the input only fills the header row; the rest agrees with jump analysis.
 */
module BytecodeTable {
  import opened Bytes
  import opened Opcodes
  import opened Words
  import opened LegacyCode

  datatype Row = Row(tag: nat, index: nat, value: byte, isOpcode: bool, pushSize: nat, lengthLeft: nat, valueRlc: nat)

  const RLC_CHALLENGE := 15

  /** Random linear combination of the bytes, most significant first, in a field of order p. */
  function Rlc(s: seq<byte>, p: nat): (r: nat)
    requires p > 0
  {
    if s == [] then 0 else (Rlc(s[..|s| - 1], p) * RLC_CHALLENGE + s[|s| - 1]) % p
  }

  function Power15(n: nat): nat {
    if n == 0 then 1 else 15 * Power15(n - 1)
  }

  /** The bytes as digits in base 15, the first one with the highest power. */
  function Base15(s: seq<byte>): nat {
    if s == [] then 0 else s[0] as int * Power15(|s| - 1) + Base15(s[1..])
  }

  /** The combination is the base-15 number of the bytes, reduced once. */
  lemma {:induction false} RlcIsBase15(s: seq<byte>, p: nat)
    requires p > 0
    ensures Rlc(s, p) == Base15(s) % p
  {
    if s != [] {
      var front, last := s[..|s| - 1], s[|s| - 1];
      RlcIsBase15(front, p);
      LastDigit(s);
      ReducedOnce(Base15(front), last, p);
    }
  }

  lemma {:induction false} LastDigit(s: seq<byte>)
    requires s != []
    ensures Base15(s) == 15 * Base15(s[..|s| - 1]) + s[|s| - 1]
  {
    if |s| > 1 {
      LastDigit(s[1..]);
      assert s[1..][..|s| - 2] == s[..|s| - 1][1..];
      Scaled(s[0], Power15(|s| - 2));
    }
  }

  lemma Scaled(a: nat, b: nat)
    ensures 15 * (a * b) == a * (15 * b)
  {
  }

  lemma ReducedOnce(v: nat, d: nat, p: nat)
    requires p > 0
    ensures (v % p * 15 + d) % p == (15 * v + d) % p
  {
    Euclid(v, p);
    var low := v % p * 15 + d;
    Euclid(low, p);
    var q := v / p;
    assert 15 * v + d == 15 * (q * p) + low;
    Scaled(q, p);
    assert q * (15 * p) == (15 * q) * p;
    assert (15 * q + low / p) * p == (15 * q) * p + low / p * p;
    RemainderUnique(15 * v + d, p, 15 * q + low / p, low % p);
  }

  /** The instruction that byte k of the code belongs to. */
  ghost predicate Owns(code: seq<byte>, i: nat, k: nat) {
    LegacyStart(code, i) && i <= k < NextLegacy(code, i)
  }

  /** The counter is a `size_t`: past the length announced by the header byte it wraps around. */
  function LengthLeft(input: seq<byte>, j: nat): (n: nat)
    requires |input| > 0
    ensures n < TWO_64
  {
    (input[0] as int - j) % TWO_64
  }

  /** Row j > 0 describes byte j - 1 of the code after the header byte. */
  ghost predicate RowOk(input: seq<byte>, p: nat, j: nat, r: Row)
    requires 0 < j < |input| && p > 0
  {
    var code := input[1..];
    && r.tag == 1 && r.index == j - 1 && r.value == input[j] && r.lengthLeft == LengthLeft(input, j)
    && (r.isOpcode <==> LegacyStart(code, j - 1))
    && (r.isOpcode && r.value == OP_JUMPDEST <==> Jumpdests(code)[j - 1])
    && (exists i: nat :: Owns(code, i, j - 1) && r.pushSize == NextLegacy(code, i) - j)
    && r.valueRlc == Rlc(code[..j], p)
  }

  lemma OwnerIsStart(code: seq<byte>, i: nat, k: nat)
    requires Owns(code, i, k) && k < |code|
    ensures LegacyStart(code, k) <==> k == i
  {
    hide LegacyDecodes;
    if k != i { NoLegacyInside(code, 0, i, k); }
  }

  lemma NextOwner(code: seq<byte>, i: nat, k: nat)
    requires Owns(code, i, k) && k + 1 < |code| && k + 1 == NextLegacy(code, i)
    ensures Owns(code, k + 1, k + 1)
  {
    hide LegacyDecodes;
    LegacyStep(code, 0, i);
  }

  lemma CountDown(v: int)
    ensures (v % TWO_64 - 1) % TWO_64 == (v - 1) % TWO_64
  {
    assert v == TWO_64 * (v / TWO_64) + v % TWO_64;
    if v % TWO_64 == 0 {
      assert v - 1 == TWO_64 * (v / TWO_64 - 1) + (TWO_64 - 1);
    }
  }

  method ProcessBytecode(input: seq<byte>, p: nat) returns (rows: seq<Row>)
    requires p > 0
    ensures |rows| == |input|
    ensures |input| > 0 ==> rows[0] == Row(0, 0, input[0], false, 0, input[0] as int, 0)
    ensures forall j :: 0 < j < |input| ==> RowOk(input, p, j, rows[j])
  {
    hide LegacyDecodes, NextLegacy, RowOk, LengthLeft, Jumpdests, Rlc;
    rows := [];
    if |input| == 0 {
      return;
    }
    rows := [Row(0, 0, input[0], false, 0, input[0] as int, 0)];
    var prevLength: nat, prevVrlc, pushSize := input[0], 0, 0;
    ghost var code := input[1..];
    HeaderRow(input, p);
    assert code[..0] == [];
    ghost var owner: nat := 0;
    var j := 1;
    while j < |input|
      invariant 1 <= j <= |input| && |rows| == j
      invariant rows[0] == Row(0, 0, input[0], false, 0, input[0] as int, 0)
      invariant forall k :: 0 < k < j ==> RowOk(input, p, k, rows[k])
      invariant prevLength == LengthLeft(input, j - 1) && prevVrlc == Rlc(code[..j - 1], p)
      invariant j == 1 ==> pushSize == 0
      invariant j > 1 ==> Owns(code, owner, j - 2) && pushSize == NextLegacy(code, owner) - (j - 1)
    {
      var value := input[j];
      LengthNext(input, j);
      RlcNext(code, p, j);
      prevLength := (prevLength as int - 1) % TWO_64;
      var isOpcode := pushSize == 0;
      ghost var left := pushSize;
      if pushSize == 0 {
        if value > 0x5f && value < 0x80 {
          pushSize := value as int - 0x5f;
        }
      } else {
        pushSize := pushSize - 1;
      }
      prevVrlc := (prevVrlc * RLC_CHALLENGE + value) % p;
      owner := Classified(code, owner, j - 1, left, pushSize);
      var row := Row(1, j - 1, value, isOpcode, pushSize, prevLength, prevVrlc);
      RowDone(input, p, j, row, owner, left);
      rows := rows + [row];
      j := j + 1;
    }
  }

  /** A row is right once its byte is classified. */
  lemma RowDone(input: seq<byte>, p: nat, j: nat, r: Row, owner: nat, left: nat)
    requires 0 < j < |input| && p > 0 && r.tag == 1 && r.index == j - 1 && r.value == input[j]
    requires Owns(input[1..], owner, j - 1) && r.pushSize == NextLegacy(input[1..], owner) - j
    requires r.isOpcode <==> owner == j - 1
    requires r.lengthLeft == LengthLeft(input, j) && r.valueRlc == Rlc(input[1..][..j], p)
    ensures RowOk(input, p, j, r)
  {
    hide LegacyDecodes, NextLegacy, LengthLeft, Rlc;
    OwnerIsStart(input[1..], owner, j - 1);
  }

  lemma RlcNext(code: seq<byte>, p: nat, j: nat)
    requires 0 < j <= |code| && p > 0
    ensures Rlc(code[..j], p) == (Rlc(code[..j - 1], p) * RLC_CHALLENGE + code[j - 1]) % p
  {
    assert code[..j][..j - 1] == code[..j - 1];
  }

  /** Nothing is combined, and the counter starts, at the header byte. */
  lemma HeaderRow(input: seq<byte>, p: nat)
    requires |input| > 0 && p > 0
    ensures Rlc([], p) == 0 && LengthLeft(input, 0) == input[0]
  {
  }

  lemma LengthNext(input: seq<byte>, j: nat)
    requires |input| > 0 && j > 0
    ensures LengthLeft(input, j) == (LengthLeft(input, j - 1) - 1) % TWO_64
  {
    CountDown(input[0] as int - (j - 1));
  }

  /** One step of the countdown. */
  lemma Classified(code: seq<byte>, owner: nat, k: nat, left: nat, pushSize: nat) returns (i: nat)
    requires k < |code|
    requires k == 0 ==> left == 0
    requires k > 0 ==> Owns(code, owner, k - 1) && left == NextLegacy(code, owner) - k
    requires pushSize ==
      if left > 0 then left - 1 else if code[k] > 0x5f && code[k] < 0x80 then code[k] as int - 0x5f else 0
    ensures Owns(code, i, k) && pushSize == NextLegacy(code, i) - (k + 1) && (left == 0 <==> i == k)
  {
    hide LegacyDecodes;
    if left > 0 {
      i := owner;
    } else {
      i := k;
      if k == 0 { DecodesSelf(code); } else { NextOwner(code, owner, k - 1); }
    }
  }
}
