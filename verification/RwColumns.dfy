/**
 * The sorting columns of a read/write row: 16-bit chunks of the key fields. Their lexicographic
 * order is the numeric order of the fields.
 */
module RwColumns {
  import opened Bytes
  import opened Words
  import opened RwTrace

  const CHUNK := 0x1_0000
  const SORTED_COLUMNS_AMOUNT := 32

  /** 65536 to the power k: the weight of chunk k counted from the low end. */
  function Weight(k: nat): (w: nat)
    ensures w > 0
  {
    if k == 0 then 1 else CHUNK * Weight(k - 1)
  }

  function Power2(k: nat): (p: nat)
    ensures p > 0
  {
    if k == 0 then 1 else 2 * Power2(k - 1)
  }

  /** `a & b` */
  function BitAnd(a: nat, b: nat): nat {
    if a == 0 || b == 0 then 0
    else (if a % 2 == 1 && b % 2 == 1 then 1 else 0) + 2 * BitAnd(a / 2, b / 2)
  }

  lemma AndDoubled(v: nat, m: nat)
    ensures BitAnd(v, 2 * m) == 2 * BitAnd(v / 2, m)
  {
    if v > 0 && m > 0 {
      assert (2 * m) % 2 == 0 && (2 * m) / 2 == m;
    }
  }

  /** `m << k` */
  function Shl(m: nat, k: nat): nat {
    if k == 0 then m else 2 * Shl(m, k - 1)
  }

  lemma {:induction false} ShlIs(m: nat, k: nat)
    ensures Shl(m, k) == m * Power2(k)
  {
    if k > 0 {
      ShlIs(m, k - 1);
      Doubled(m, Power2(k - 1));
    }
  }

  lemma {:induction false} ShlAgain(m: nat, a: nat, b: nat)
    ensures Shl(m, a + b) == Shl(Shl(m, a), b)
  {
    if b > 0 { ShlAgain(m, a, b - 1); }
  }

  /** `mask >>= 16` takes the mask of one chunk to the mask of the next lower one. */
  lemma MaskShifts(m: nat, k: nat)
    ensures Shl(m, k + 16) / CHUNK == Shl(m, k)
  {
    hide Shl, Power2;
    ShlAgain(m, k, 16);
    ShlIs(Shl(m, k), 16);
    ChunkIsPower();
  }

  /** A shifted mask sees the value shifted the other way. */
  lemma {:induction false} AndShifted(v: nat, m: nat, k: nat)
    ensures BitAnd(v, Shl(m, k)) == Shl(BitAnd(Shr(v, k), m), k)
    decreases k
  {
    hide BitAnd;
    if k > 0 {
      AndDoubled(v, Shl(m, k - 1));
      AndShifted(v / 2, m, k - 1);
    }
  }

  /** `v >> k` */
  function Shr(v: nat, k: nat): nat {
    if k == 0 then v else Shr(v / 2, k - 1)
  }

  lemma {:induction false} ShrIs(v: nat, k: nat)
    ensures Shr(v, k) == v / Power2(k)
  {
    if k > 0 {
      ShrIs(v / 2, k - 1);
      DivDiv(v, 2, Power2(k - 1));
    }
  }

  lemma Doubled(a: nat, p: nat)
    ensures a * (2 * p) == 2 * (a * p)
  {
  }

  /** A mask of k ones leaves the remainder. */
  lemma {:induction false} AndOnes(v: nat, k: nat)
    ensures BitAnd(v, Power2(k) - 1) == v % Power2(k)
  {
    if k > 0 {
      var p := Power2(k - 1);
      AndOnes(v / 2, k - 1);
      assert (2 * p - 1) % 2 == 1 && (2 * p - 1) / 2 == p - 1;
      Halves(v, p);
    }
  }

  lemma Halves(v: nat, p: nat)
    requires p > 0
    ensures v % (2 * p) == v % 2 + 2 * (v / 2 % p)
  {
    Euclid(v, 2);
    Euclid(v / 2, p);
    var q, r := v / 2 / p, v / 2 % p;
    Doubled(q, p);
    RemainderUnique(v, 2 * p, q, v % 2 + 2 * r);
  }

  lemma {:induction false} PowerAdd(a: nat, b: nat)
    ensures Power2(a + b) == Power2(a) * Power2(b)
  {
    if a > 0 {
      PowerAdd(a - 1, b);
      Associate(Power2(a - 1), Power2(b));
    }
  }

  lemma Associate(x: nat, y: nat)
    ensures 2 * (x * y) == (2 * x) * y
  {
  }

  lemma ChunkIsPower()
    ensures Power2(16) == CHUNK
  {
    hide Power2;
    PowerOne();
    PowerAdd(1, 1);
    PowerAdd(2, 2);
    PowerAdd(4, 4);
    PowerAdd(8, 8);
  }

  lemma PowerOne()
    ensures Power2(0) == 1 && Power2(1) == 2
  {
  }

  lemma {:induction false} WeightIsPower(k: nat)
    ensures Weight(k) == Power2(16 * k)
  {
    hide Power2;
    if k == 0 {
      PowerOne();
    } else {
      WeightIsPower(k - 1);
      ChunkIsPower();
      PowerAdd(16, 16 * (k - 1));
    }
  }

  /** `v & (0xffff << 16k)` */
  function MaskChunk(v: nat, k: nat): nat {
    BitAnd(v, Shl(0xffff, 16 * k))
  }

  /** `(v & (0xffff << 16k)) >> 16k`, the form in which the table code extracts a chunk. */
  function ChunkAt(v: nat, k: nat): nat {
    MaskChunk(v, k) / Weight(k)
  }

  lemma ChunkIsDigit(v: nat, k: nat)
    ensures ChunkAt(v, k) == (v / Weight(k)) % CHUNK
  {
    hide BitAnd, Power2, Weight, Shl, Shr;
    var d, w := (v / Weight(k)) % CHUNK, Weight(k);
    WeightIsPower(k);
    AndShifted(v, 0xffff, 16 * k);
    ShrIs(v, 16 * k);
    ChunkIsPower();
    AndOnes(v / w, 16);
    ShlIs(d, 16 * k);
    RemainderUnique(d * w, w, d, 0);
  }

  /** The n chunks of v from the most significant down. */
  function Chunks(v: nat, n: nat): (s: seq<nat>)
    ensures |s| == n && forall i :: 0 <= i < n ==> s[i] < CHUNK
  {
    if n == 0 then [] else Chunks(v / CHUNK, n - 1) + [v % CHUNK]
  }

  lemma DivDiv(v: nat, a: nat, b: nat)
    requires a > 0 && b > 0
    ensures a * b > 0 && v / a / b == v / (a * b)
  {
    var q := v / a;
    Euclid(v, a);
    Euclid(q, b);
    Assemble(v, a, b, q, v % a, q / b, q % b);
    RemainderUnique(v, a * b, q / b, (q % b) * a + v % a);
  }

  /** Two digits of remainder are one remainder of the product base. */
  lemma Assemble(v: nat, a: nat, b: nat, q: nat, r: nat, q2: nat, r2: nat)
    requires v == q * a + r && q == q2 * b + r2 && r < a && r2 < b
    ensures v == q2 * (a * b) + (r2 * a + r) && 0 <= r2 * a + r < a * b
  {
    Gap(a, r2, b);
    Regroup(a, b, q2, r2, r);
    Commute(a, b);
    NonNegative(r2, a);
  }

  lemma Commute(a: nat, b: nat)
    ensures a * b == b * a
  {
  }

  lemma NonNegative(a: nat, b: nat)
    ensures 0 <= a * b
  {
  }

  lemma Regroup(a: nat, b: nat, q: nat, s: nat, r: nat)
    ensures (q * b + s) * a + r == q * (a * b) + (s * a + r)
  {
    assert (q * b + s) * a == (q * b) * a + s * a;
    assert (q * b) * a == q * (b * a);
  }

  lemma {:induction false} ChunksAt(v: nat, n: nat, j: nat)
    requires j < n
    ensures Chunks(v, n)[j] == ChunkAt(v, n - 1 - j)
    decreases n
  {
    ChunkIsDigit(v, n - 1 - j);
    if j < n - 1 {
      ChunksAt(v / CHUNK, n - 1, j);
      ChunkIsDigit(v / CHUNK, n - 2 - j);
      DivDiv(v, CHUNK, Weight(n - 2 - j));
    } else {
      assert Weight(0) == 1;
    }
  }

  // ---------------------------------------------------------------- lexicographic order

  /** a and b first differ at d, where a is smaller. */
  ghost predicate LessAt(a: seq<int>, b: seq<int>, d: nat) {
    |a| == |b| && d < |a| && a[..d] == b[..d] && a[d] < b[d]
  }

  lemma {:induction false} ChunkOrder(v: nat, w: nat, n: nat) returns (d: nat)
    requires v < w < Weight(n)
    ensures LessAt(Chunks(v, n), Chunks(w, n), d)
    decreases n
  {
    var hv, hw := v / CHUNK, w / CHUNK;
    assert hw < Weight(n - 1);
    if hv < hw {
      d := ChunkOrder(hv, hw, n - 1);
      assert Chunks(v, n)[..d] == Chunks(hv, n - 1)[..d];
      assert Chunks(w, n)[..d] == Chunks(hw, n - 1)[..d];
    } else {
      d := n - 1;
      assert Chunks(v, n)[..d] == Chunks(hv, n - 1);
      assert Chunks(w, n)[..d] == Chunks(hw, n - 1);
    }
  }

  lemma LessInside(p: seq<int>, a: seq<int>, b: seq<int>, q: seq<int>, q': seq<int>, d: nat)
    requires LessAt(a, b, d) && |q| == |q'|
    ensures LessAt(p + a + q, p + b + q', |p| + d)
  {
    assert (p + a + q)[..|p| + d] == p + a[..d];
    assert (p + b + q')[..|p| + d] == p + b[..d];
  }

  // ---------------------------------------------------------------- the key columns

  /** What the trace guarantees of its records: one call id, 160-bit addresses, 32-bit numbers, no field index. */
  predicate RecordFits(r: RwOperation, id: nat) {
    && r.op < 13 && r.id == id < Weight(2) && r.address < Weight(10) && r.field == 0
    && r.storageKey < Weight(16) && r.rwId < Weight(2)
  }

  /**
   * The 32 columns that order the rows: operation, call id (2 chunks), address (10), field type,
   * storage key (16), record number (2). The field type column is never written and stays 0.
   */
  function KeyColumns(r: RwOperation): (s: seq<int>)
    ensures |s| == SORTED_COLUMNS_AMOUNT
  {
    [r.op] + Chunks(r.id, 2) + Chunks(r.address, 10) + [0] + Chunks(r.storageKey, 16) + Chunks(r.rwId, 2)
  }

  lemma ColumnsFollowOrder(a: RwOperation, b: RwOperation, id: nat) returns (d: nat)
    requires RecordFits(a, id) && RecordFits(b, id) && Less(a, b)
    ensures LessAt(KeyColumns(a), KeyColumns(b), d)
    ensures d < 30 <==> KeyOf(a) != KeyOf(b)
    ensures KeyColumns(b)[d] - KeyColumns(a)[d] < CHUNK
  {
    hide Chunks, Weight;
    var ids := Chunks(id, 2);
    if a.op != b.op {
      d := 0;
      assert LessAt([a.op as int], [b.op as int], 0);
      var qa := ids + Chunks(a.address, 10) + [0] + Chunks(a.storageKey, 16) + Chunks(a.rwId, 2);
      var qb := ids + Chunks(b.address, 10) + [0] + Chunks(b.storageKey, 16) + Chunks(b.rwId, 2);
      LessInside([], [a.op as int], [b.op as int], qa, qb, 0);
      assert KeyColumns(a) == [] + [a.op as int] + qa && KeyColumns(b) == [] + [b.op as int] + qb;
    } else if a.address != b.address {
      var e := ChunkOrder(a.address, b.address, 10);
      d := 3 + e;
      var p := [a.op as int] + ids;
      var qa := [0] + Chunks(a.storageKey, 16) + Chunks(a.rwId, 2);
      var qb := [0] + Chunks(b.storageKey, 16) + Chunks(b.rwId, 2);
      LessInside(p, Chunks(a.address, 10), Chunks(b.address, 10), qa, qb, e);
      assert KeyColumns(a) == p + Chunks(a.address, 10) + qa && KeyColumns(b) == p + Chunks(b.address, 10) + qb;
    } else if a.storageKey != b.storageKey {
      var e := ChunkOrder(a.storageKey, b.storageKey, 16);
      d := 14 + e;
      var p := [a.op as int] + ids + Chunks(a.address, 10) + [0];
      LessInside(p, Chunks(a.storageKey, 16), Chunks(b.storageKey, 16), Chunks(a.rwId, 2), Chunks(b.rwId, 2), e);
      assert KeyColumns(a) == p + Chunks(a.storageKey, 16) + Chunks(a.rwId, 2);
      assert KeyColumns(b) == p + Chunks(b.storageKey, 16) + Chunks(b.rwId, 2);
    } else {
      var e := ChunkOrder(a.rwId, b.rwId, 2);
      d := 30 + e;
      var p := [a.op as int] + ids + Chunks(a.address, 10) + [0] + Chunks(a.storageKey, 16);
      LessInside(p, Chunks(a.rwId, 2), Chunks(b.rwId, 2), [], [], e);
      assert KeyColumns(a) == p + Chunks(a.rwId, 2) + [] && KeyColumns(b) == p + Chunks(b.rwId, 2) + [];
    }
    ColumnsSmall(a);
    ColumnsSmall(b);
  }

  lemma ColumnsSmall(r: RwOperation)
    requires r.op < 13
    ensures forall k :: 0 <= k < SORTED_COLUMNS_AMOUNT ==> 0 <= KeyColumns(r)[k] < CHUNK
  {
    hide Chunks;
  }
}
