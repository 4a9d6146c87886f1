/**
 * `process_rw_operations`: the sorted trace written into the assignment table, with the advice
 * columns (first difference, group flags, carried values) a circuit checks row by row.
 */
module RwTable {
  import opened Bytes
  import opened RwTrace
  import opened RwColumns
  import opened Words

  const OP := 0
  const ID := 1
  const ADDRESS := 2
  const STORAGE_KEY_HI := 3
  const STORAGE_KEY_LO := 4
  const FIELD_TYPE := 5
  const RW_ID := 6
  const IS_WRITE := 7
  const VALUE_HI := 8
  const VALUE_LO := 9
  const OP_SELECTORS := 10  // four columns
  const INDICES := 14       // five columns
  const IS_FIRST := 19
  const CHUNKS := 20        // thirty columns
  const DIFFERENCE := 50
  const INV_DIFFERENCE := 51
  const VALUE_BEFORE_HI := 52
  const VALUE_BEFORE_LO := 53
  const IS_LAST := 58
  const TWO_128 := TWO_64 * TWO_64

  /** The prime field of the table: its order and its inversion. */
  datatype Field = Field(order: nat, inverse: nat -> nat) {
    ghost predicate Valid() {
      && order > TWO_128 * TWO_64
      && forall x :: 0 < x < order ==> inverse(x) < order && (x * inverse(x)) % order == 1
    }
  }

  /** `sorting[k]`: the table column that holds key column k. */
  function SortingColumn(k: nat): nat
    requires k < SORTED_COLUMNS_AMOUNT
  {
    if k == 0 then OP else if k <= 12 then CHUNKS + k - 1 else if k == 13 then FIELD_TYPE else CHUNKS + k - 2
  }

  /** Columns that depend on one record only. */
  predicate IsPlain(c: nat) {
    c <= STORAGE_KEY_LO || RW_ID <= c < INDICES || CHUNKS <= c < DIFFERENCE
  }

  function Bit(v: nat, k: nat): nat {
    (v / Power2(k)) % 2
  }

  lemma HalfPower(k: nat)
    requires k > 0
    ensures Power2(k) / 2 == Power2(k - 1)
  {
  }

  lemma BitRange(v: nat, k: nat)
    ensures Bit(v, k) <= 1
  {
  }

  /** A one-bit mask tells whether that bit is set. */
  lemma MaskedBit(v: nat, k: nat)
    ensures BitAnd(v, Power2(k)) == 0 <==> Bit(v, k) == 0
  {
    hide Power2, BitAnd, Shl, Shr;
    var d := (v / Power2(k)) % 2;
    AndShifted(v, 1, k);
    ShrIs(v, k);
    ShlIs(1, k);
    PowerOne();
    AndOnes(v / Power2(k), 1);
    ShlIs(d, k);
    if d > 0 { Positive(d, Power2(k)); }
  }

  lemma Positive(a: nat, b: nat)
    requires a > 0 && b > 0
    ensures a * b > 0
  {
  }

  function Plain(r: RwOperation, c: nat): nat
    requires IsPlain(c)
  {
    if c == OP then r.op
    else if c == ID then r.id
    else if c == ADDRESS then r.address % (TWO_128 * TWO_64)
    else if c == STORAGE_KEY_HI then r.storageKey / TWO_128
    else if c == STORAGE_KEY_LO then r.storageKey % TWO_128
    else if c == RW_ID then r.rwId
    else if c == IS_WRITE then (if r.isWrite then 1 else 0)
    else if c == VALUE_HI then r.value / TWO_128
    else if c == VALUE_LO then r.value % TWO_128
    else if c < INDICES then Bit(r.op, 3 - (c - OP_SELECTORS))
    else if c < CHUNKS + 2 then ChunkAt(r.id, 1 - (c - CHUNKS))
    else if c < CHUNKS + 12 then ChunkAt(r.address, 9 - (c - CHUNKS - 2))
    else if c < CHUNKS + 28 then ChunkAt(r.storageKey, 15 - (c - CHUNKS - 12))
    else ChunkAt(r.rwId, 1 - (c - CHUNKS - 28))
  }

  lemma PlainIsKeyColumn(r: RwOperation, k: nat)
    requires k < SORTED_COLUMNS_AMOUNT && k != 13
    ensures Plain(r, SortingColumn(k)) == KeyColumns(r)[k]
  {
    hide Chunks, ChunkAt;
    if 1 <= k <= 2 { ChunksAt(r.id, 2, k - 1); }
    if 3 <= k <= 12 { ChunksAt(r.address, 10, k - 3); }
    if 14 <= k <= 29 { ChunksAt(r.storageKey, 16, k - 14); }
    if 30 <= k { ChunksAt(r.rwId, 2, k - 30); }
  }

  // ---------------------------------------------------------------- the advice, row by row

  /** The first key column in which a and b differ; their length if they do not. */
  function FirstDifference(a: seq<int>, b: seq<int>): (d: nat)
    requires |a| == |b|
    ensures d <= |a| && a[..d] == b[..d] && (d < |a| ==> a[d] != b[d])
  {
    if a == [] then 0
    else if a[0] != b[0] then 0
    else
      var d := FirstDifference(a[1..], b[1..]);
      assert a[..d + 1] == [a[0]] + a[1..][..d] && b[..d + 1] == [b[0]] + b[1..][..d];
      d + 1
  }

  function DiffIndex(s: seq<RwOperation>, i: nat): nat
    requires 0 < i < |s|
  {
    FirstDifference(KeyColumns(s[i]), KeyColumns(s[i - 1]))
  }

  /** `VALUE_BEFORE`: taken from the record where the key changes, carried down otherwise; 0 in row 0. */
  function ValueBefore(s: seq<RwOperation>, i: nat): Word
    requires i < |s|
    decreases i
  {
    if i == 0 then 0
    else if DiffIndex(s, i) < 30 then s[i].valuePrev
    else ValueBefore(s, i - 1)
  }

  predicate StartsGroup(s: seq<RwOperation>, i: nat)
    requires i < |s|
  {
    i > 0 && s[i].op != START_OP && DiffIndex(s, i) < 30
  }

  /** The finished table: the value of column c in the row of s[i]. */
  function Expected(f: Field, s: seq<RwOperation>, i: nat, c: nat): int
    requires f.order > 0 && i < |s| && (0 < i ==> DiffIndex(s, i) < SORTED_COLUMNS_AMOUNT)
  {
    if IsPlain(c) then Plain(s[i], c)
    else if c == VALUE_BEFORE_HI then ValueBefore(s, i) / TWO_128
    else if c == VALUE_BEFORE_LO then ValueBefore(s, i) % TWO_128
    else if c == IS_LAST then (if i + 1 < |s| && StartsGroup(s, i + 1) then 1 else 0)
    else if i == 0 then 0
    else if INDICES <= c < IS_FIRST then Bit(DiffIndex(s, i), 4 - (c - INDICES))
    else if c == IS_FIRST then (if StartsGroup(s, i) && s[i].op != PADDING_OP then 1 else 0)
    else if c == DIFFERENCE then Difference(f, s, i)
    else if c == INV_DIFFERENCE then (if Difference(f, s, i) == 0 then 0 else f.inverse(Difference(f, s, i)))
    else 0
  }

  /** The difference of the two rows in their first differing column, as a field element. */
  function Difference(f: Field, s: seq<RwOperation>, i: nat): nat
    requires f.order > 0 && 0 < i < |s| && DiffIndex(s, i) < SORTED_COLUMNS_AMOUNT
  {
    (KeyColumns(s[i])[DiffIndex(s, i)] - KeyColumns(s[i - 1])[DiffIndex(s, i)]) % f.order
  }

  // ---------------------------------------------------------------- the table

  type Cells = map<(nat, nat), int>

  /** A cell of a table; unwritten cells are zero. */
  function Cell(cells: Cells, c: nat, row: nat): int {
    if (c, row) in cells then cells[(c, row)] else 0
  }

  /** The two tables agree outside columns first..first+n of one row. */
  ghost predicate SameOutside(a: Cells, b: Cells, row: nat, first: nat, n: nat) {
    forall c: nat, q: nat :: q != row || c < first || first + n <= c ==> Cell(a, c, q) == Cell(b, c, q)
  }

  /** Row `row` holds record r. */
  ghost predicate RecordRow(cells: Cells, row: nat, r: RwOperation) {
    forall c: nat :: IsPlain(c) ==> Cell(cells, c, row) == Plain(r, c)
  }

  /** The lookup columns of a row say which record it is; two of its fields are split into halves. */
  ghost predicate ReadsAs(cells: Cells, row: nat, r: RwOperation) {
    && Cell(cells, OP, row) == r.op && Cell(cells, ID, row) == r.id && Cell(cells, RW_ID, row) == r.rwId
    && Cell(cells, ADDRESS, row) == r.address % (TWO_128 * TWO_64)
    && Cell(cells, STORAGE_KEY_HI, row) * TWO_128 + Cell(cells, STORAGE_KEY_LO, row) == r.storageKey
    && Cell(cells, VALUE_HI, row) * TWO_128 + Cell(cells, VALUE_LO, row) == r.value
    && 0 <= Cell(cells, STORAGE_KEY_LO, row) < TWO_128 && 0 <= Cell(cells, VALUE_LO, row) < TWO_128
    && Cell(cells, IS_WRITE, row) in {0, 1} && (Cell(cells, IS_WRITE, row) == 1 <==> r.isWrite)
  }

  /** The n chunk columns from `first` on as one number, most significant chunk first. */
  function Joined(cells: Cells, row: nat, first: nat, n: nat): int {
    if n == 0 then 0 else Joined(cells, row, first, n - 1) * CHUNK + Cell(cells, first + n - 1, row)
  }

  /** The chunk columns and selectors of a row agree with its own lookup columns. */
  ghost predicate ChunksMatch(cells: Cells, row: nat) {
    && Cell(cells, ID, row) % 0x1_0000_0000 == Joined(cells, row, CHUNKS, 2)
    && Cell(cells, ADDRESS, row) % (TWO_128 * 0x1_0000_0000) == Joined(cells, row, CHUNKS + 2, 10)
    && Cell(cells, STORAGE_KEY_HI, row) * TWO_128 + Cell(cells, STORAGE_KEY_LO, row)
       == Joined(cells, row, CHUNKS + 12, 16)
    && Cell(cells, RW_ID, row) % 0x1_0000_0000 == Joined(cells, row, CHUNKS + 28, 2)
    && (forall c: nat :: CHUNKS <= c < DIFFERENCE ==> 0 <= Cell(cells, c, row) < CHUNK)
    && (forall c: nat :: OP_SELECTORS <= c < INDICES ==> Cell(cells, c, row) in {0, 1})
    && Cell(cells, OP, row) % 16
       == 8 * Cell(cells, OP_SELECTORS, row) + 4 * Cell(cells, OP_SELECTORS + 1, row)
          + 2 * Cell(cells, OP_SELECTORS + 2, row) + Cell(cells, OP_SELECTORS + 3, row)
  }

  ghost predicate HasRow(cells: Cells, start: nat, n: nat, u: nat) {
    exists q: nat :: start <= q < start + n && Cell(cells, RW_ID, q) == u
  }

  /** The table can be read back: its record numbers are 0..n in some order, and that order is the trace. */
  ghost predicate ReadsBack(cells: Cells, start: nat, n: nat, t: seq<RwOperation>) {
    && n == |t|
    && (forall q: nat :: start <= q < start + n ==>
          && 0 <= Cell(cells, RW_ID, q) < |t|
          && ReadsAs(cells, q, t[Cell(cells, RW_ID, q)])
          && ChunksMatch(cells, q))
    && (forall p: nat, q: nat :: start <= p < q < start + n ==> Cell(cells, RW_ID, p) != Cell(cells, RW_ID, q))
    && (forall u: nat :: u < |t| ==> HasRow(cells, start, n, u))
  }

  class Table {
    var cells: Cells

    constructor ()
      ensures cells == map[]
    {
      cells := map[];
    }

    function Witness(c: nat, row: nat): int
      reads this
    {
      Cell(cells, c, row)
    }

    method Assign(c: nat, row: nat, v: int)
      modifies this
      ensures Cell(cells, c, row) == v
      ensures SameOutside(old(cells), cells, row, c, 1)
    {
      cells := cells[(c, row) := v];
    }

    /** The loop with the shifting mask over the n chunks of v, most significant first. */
    method FillChunks(row: nat, first: nat, n: nat, v: nat)
      requires n > 0
      modifies this
      ensures forall c: nat :: first <= c < first + n ==> Cell(cells, c, row) == ChunkAt(v, n - 1 - (c - first))
      ensures SameOutside(old(cells), cells, row, first, n)
    {
      hide BitAnd, Cell, Weight, Shl;
      var mask := Shl(0xffff, 16 * (n - 1));
      var j := 0;
      while j < n
        invariant 0 <= j <= n && (j < n ==> mask == Shl(0xffff, 16 * (n - 1 - j)))
        invariant forall c: nat :: first <= c < first + j ==> Cell(cells, c, row) == ChunkAt(v, n - 1 - (c - first))
        invariant SameOutside(old(cells), cells, row, first, n)
      {
        Assign(first + j, row, BitAnd(v, mask) / Weight(n - 1 - j));
        if j + 1 < n { MaskShifts(0xffff, 16 * (n - 2 - j)); }
        mask := mask / CHUNK;
        j := j + 1;
      }
    }

    /** The loop with the shifting mask over the n low bits of v, most significant first. */
    method FillBits(row: nat, first: nat, n: nat, v: nat)
      modifies this
      ensures forall c: nat :: first <= c < first + n ==> Cell(cells, c, row) == Bit(v, n - 1 - (c - first))
      ensures SameOutside(old(cells), cells, row, first, n)
    {
      hide Bit, BitAnd, Cell, Power2;
      var mask := Power2(n);
      var j := 0;
      while j < n
        invariant 0 <= j <= n && mask == Power2(n - j)
        invariant forall c: nat :: first <= c < first + j ==> Cell(cells, c, row) == Bit(v, n - 1 - (c - first))
        invariant SameOutside(old(cells), cells, row, first, n)
      {
        HalfPower(n - j);
        mask := mask / 2;
        MaskedBit(v, n - 1 - j);
        BitRange(v, n - 1 - j);
        Assign(first + j, row, if BitAnd(v, mask) == 0 then 0 else 1);
        j := j + 1;
      }
    }

    /** The lookup columns of one record. */
    method FillLookup(row: nat, r: RwOperation)
      modifies this
      ensures forall c: nat :: IsPlain(c) && c < OP_SELECTORS ==> Cell(cells, c, row) == Plain(r, c)
      ensures forall c: nat, q: nat :: q != row || !IsPlain(c) ==> Cell(cells, c, q) == Cell(old(cells), c, q)
    {
      hide ChunkAt, Bit, Cell;
      Assign(OP, row, r.op);
      Assign(ID, row, r.id);
      Assign(ADDRESS, row, r.address % (TWO_128 * TWO_64));
      Assign(STORAGE_KEY_HI, row, r.storageKey / TWO_128);
      Assign(STORAGE_KEY_LO, row, r.storageKey % TWO_128);
      Assign(RW_ID, row, r.rwId);
      Assign(IS_WRITE, row, if r.isWrite then 1 else 0);
      Assign(VALUE_HI, row, r.value / TWO_128);
      Assign(VALUE_LO, row, r.value % TWO_128);
    }

    /** The lookup columns, the operation selectors and the chunks of one record. */
    method FillRecord(row: nat, r: RwOperation)
      modifies this
      ensures RecordRow(cells, row, r)
      ensures forall c: nat, q: nat :: q != row || !IsPlain(c) ==> Cell(cells, c, q) == Cell(old(cells), c, q)
    {
      hide ChunkAt, Bit, Cell;
      FillLookup(row, r);
      FillBits(row, OP_SELECTORS, 4, r.op);
      FillChunks(row, CHUNKS, 2, r.id);
      FillChunks(row, CHUNKS + 2, 10, r.address);
      FillChunks(row, CHUNKS + 12, 16, r.storageKey);
      FillChunks(row, CHUNKS + 28, 2, r.rwId);
    }

    /** The search for the first sorting column that changed since the row above. */
    method FindDifference(row: nat, ghost r: RwOperation, ghost above: RwOperation) returns (diffInd: nat)
      requires row > 0 && RecordRow(cells, row, r) && RecordRow(cells, row - 1, above)
      requires Cell(cells, FIELD_TYPE, row) == Cell(cells, FIELD_TYPE, row - 1) == 0
      ensures diffInd == FirstDifference(KeyColumns(r), KeyColumns(above))
    {
      hide KeyColumns, Plain, RecordRow;
      ghost var a, b := KeyColumns(r), KeyColumns(above);
      diffInd := 0;
      while diffInd < SORTED_COLUMNS_AMOUNT
        invariant 0 <= diffInd <= SORTED_COLUMNS_AMOUNT
        invariant a[..diffInd] == b[..diffInd]
      {
        SortingCell(cells, row, r, diffInd);
        SortingCell(cells, row - 1, above, diffInd);
        if Witness(SortingColumn(diffInd), row) != Witness(SortingColumn(diffInd), row - 1) {
          break;
        }
        assert a[..diffInd + 1] == a[..diffInd] + [a[diffInd]] && b[..diffInd + 1] == b[..diffInd] + [b[diffInd]];
        diffInd := diffInd + 1;
      }
      FirstDifferenceIs(a, b, diffInd);
    }

    /** The advice columns of row i > 0, and the last-row flag of the row above it. */
    method FillAdvice(f: Field, start: nat, s: seq<RwOperation>, i: nat)
      requires f.Valid() && 0 < i < |s| && DiffIndex(s, i) < SORTED_COLUMNS_AMOUNT
      requires RecordRow(cells, start + i, s[i]) && AdviceClear(cells, start + i)
      requires RecordRow(cells, start + i - 1, s[i - 1]) && Cell(cells, FIELD_TYPE, start + i - 1) == 0
      requires Cell(cells, IS_LAST, start + i - 1) == 0
      requires Cell(cells, VALUE_BEFORE_HI, start + i - 1) == ValueBefore(s, i - 1) / TWO_128
      requires Cell(cells, VALUE_BEFORE_LO, start + i - 1) == ValueBefore(s, i - 1) % TWO_128
      modifies this
      ensures forall c: nat :: c != IS_LAST ==> Cell(cells, c, start + i) == Expected(f, s, i, c)
      ensures Cell(cells, IS_LAST, start + i) == 0
      ensures Cell(cells, IS_LAST, start + i - 1) == if StartsGroup(s, i) then 1 else 0
      ensures forall c: nat, q: nat :: q != start + i && !(c == IS_LAST && q == start + i - 1) ==>
        Cell(cells, c, q) == Cell(old(cells), c, q)
    {
      hide Cell, Plain, Bit, KeyColumns, FirstDifference;
      var row := start + i;
      var diffInd := FindDifference(row, s[i], s[i - 1]);
      ghost var filled := cells;
      if diffInd < 30 {
        Assign(VALUE_BEFORE_HI, row, s[i].valuePrev / TWO_128);
        Assign(VALUE_BEFORE_LO, row, s[i].valuePrev % TWO_128);
      } else {
        Assign(VALUE_BEFORE_HI, row, Witness(VALUE_BEFORE_HI, row - 1));
        Assign(VALUE_BEFORE_LO, row, Witness(VALUE_BEFORE_LO, row - 1));
      }
      FillBits(row, INDICES, 5, diffInd);
      if s[i].op != START_OP && diffInd < 30 {
        Assign(IS_LAST, row - 1, 1);
      }
      if s[i].op != START_OP && s[i].op != PADDING_OP && diffInd < 30 {
        Assign(IS_FIRST, row, 1);
      }
      SortingCell(filled, row, s[i], diffInd);
      SortingCell(filled, row - 1, s[i - 1], diffInd);
      var column := SortingColumn(diffInd);
      Assign(DIFFERENCE, row, (Witness(column, row) - Witness(column, row - 1)) % f.order);
      if Witness(DIFFERENCE, row) == 0 {
        Assign(INV_DIFFERENCE, row, 0);
      } else {
        Assign(INV_DIFFERENCE, row, f.inverse(Witness(DIFFERENCE, row)));
      }
    }

    /** Sorts the trace and appends it to the table from row `start` on. */
    method ProcessRwOperations(f: Field, start: nat, trace: seq<RwOperation>) returns (s: seq<RwOperation>)
      requires f.Valid() && Numbered(trace) && |trace| <= Weight(2)
      requires forall c: nat, q: nat :: q >= start ==> Cell(cells, c, q) == 0
      modifies this
      ensures IsSorting(trace, s) && Separated(s) && ReadsBack(cells, start, |s|, trace)
      ensures forall i: nat, c: nat :: i < |s| ==> Cell(cells, c, start + i) == Expected(f, s, i, c)
      ensures forall c: nat, q: nat :: q < start || start + |s| <= q ==> Cell(cells, c, q) == Cell(old(cells), c, q)
    {
      hide Cell, Plain, KeyColumns, Expected, DiffIndex, IsSorting, SortOperations, Weight, Numbered, StartsGroup;
      hide ReadsBack;
      SortIsSorting(trace);
      s := SortOperations(trace);
      SortedSeparated(trace, s);
      var i := 0;
      while i < |s|
        invariant 0 <= i <= |s|
        invariant forall k: nat, c: nat :: k < i && !(c == IS_LAST && k == i - 1) ==>
          Cell(cells, c, start + k) == Expected(f, s, k, c)
        invariant i > 0 ==> Cell(cells, IS_LAST, start + i - 1) == 0
        invariant forall c: nat, q: nat :: q >= start + i ==> Cell(cells, c, q) == 0
        invariant forall c: nat, q: nat :: q < start ==> Cell(cells, c, q) == Cell(old(cells), c, q)
      {
        ghost var before := cells;
        FillRecord(start + i, s[i]);
        if i > 0 {
          ExpectedAbove(f, s, i);
          FillAdvice(f, start, s, i);
          FlagAbove(f, s, i);
        } else {
          FirstExpected(f, s);
        }
        i := i + 1;
      }
      if i > 0 {
        FlagLast(f, s);
      }
      TableReadsBack(f, cells, start, trace, s);
    }
  }

  lemma ExpectedAbove(f: Field, s: seq<RwOperation>, i: nat)
    requires f.Valid() && 0 < i < |s| && Separated(s)
    ensures forall c: nat :: IsPlain(c) ==> Expected(f, s, i - 1, c) == Plain(s[i - 1], c)
    ensures Expected(f, s, i - 1, FIELD_TYPE) == 0
    ensures Expected(f, s, i - 1, VALUE_BEFORE_HI) == ValueBefore(s, i - 1) / TWO_128
    ensures Expected(f, s, i - 1, VALUE_BEFORE_LO) == ValueBefore(s, i - 1) % TWO_128
  {
    hide Plain;
  }

  lemma FlagAbove(f: Field, s: seq<RwOperation>, i: nat)
    requires f.Valid() && 0 < i < |s| && Separated(s)
    ensures Expected(f, s, i - 1, IS_LAST) == if StartsGroup(s, i) then 1 else 0
  {
  }

  lemma FlagLast(f: Field, s: seq<RwOperation>)
    requires f.Valid() && 0 < |s| && Separated(s)
    ensures Expected(f, s, |s| - 1, IS_LAST) == 0
  {
  }

  lemma FirstExpected(f: Field, s: seq<RwOperation>)
    requires f.Valid() && 0 < |s|
    ensures forall c: nat :: IsPlain(c) ==> Expected(f, s, 0, c) == Plain(s[0], c)
    ensures forall c: nat :: !IsPlain(c) && c != IS_LAST ==> Expected(f, s, 0, c) == 0
  {
    hide Plain;
  }

  // ---------------------------------------------------------------- what the table shows

  /** Different record numbers always show up in the last two key columns. */
  lemma SortedSeparated(t: seq<RwOperation>, s: seq<RwOperation>)
    requires Numbered(t) && IsSorting(t, s) && |t| <= Weight(2)
    ensures Separated(s)
  {
    hide KeyColumns, Chunks, Weight, FirstDifference;
    forall i | 0 < i < |s|
      ensures DiffIndex(s, i) < SORTED_COLUMNS_AMOUNT
    {
      RowIsRecord(t, s, i);
      RowIsRecord(t, s, i - 1);
      RowsDistinct(t, s, i - 1, i);
      NumbersSeparate(s[i], s[i - 1]);
      var a, b := KeyColumns(s[i]), KeyColumns(s[i - 1]);
      assert a[..|a|] == a && b[..|b|] == b;
    }
  }

  lemma NumbersSeparate(a: RwOperation, b: RwOperation)
    requires a.rwId != b.rwId && a.rwId < Weight(2) && b.rwId < Weight(2)
    ensures KeyColumns(a) != KeyColumns(b)
  {
    hide Chunks, Weight;
    assert KeyColumns(a)[30..] == Chunks(a.rwId, 2) && KeyColumns(b)[30..] == Chunks(b.rwId, 2);
    if a.rwId < b.rwId {
      var d := ChunkOrder(a.rwId, b.rwId, 2);
      assert Chunks(a.rwId, 2)[d] != Chunks(b.rwId, 2)[d];
    } else {
      var d := ChunkOrder(b.rwId, a.rwId, 2);
      assert Chunks(a.rwId, 2)[d] != Chunks(b.rwId, 2)[d];
    }
  }

  // ---------------------------------------------------------------- reading the table

  /** The low n chunks of v, most significant first, are v modulo the weight of chunk n. */
  lemma {:induction false} JoinedIs(cells: Cells, row: nat, first: nat, n: nat, k: nat, v: nat)
    requires k <= n
    requires forall c: nat :: first <= c < first + n ==> Cell(cells, c, row) == ChunkAt(v, n - 1 - (c - first))
    ensures Joined(cells, row, first, k) == (v / Weight(n - k)) % Weight(k)
  {
    hide Cell, ChunkAt, Weight;
    if k == 0 {
      NoChunks();
      Whole(v / Weight(n));
    } else {
      JoinedIs(cells, row, first, n, k - 1, v);
      ChunkIsDigit(v, n - k);
      assert Cell(cells, first + k - 1, row) == ChunkAt(v, n - k);
      OneChunk(v, n - k, k - 1);
    }
  }

  lemma Whole(x: int)
    ensures x % 1 == 0
  {
  }

  /** The chunks j+1 up to j+k joined with chunk j. */
  lemma OneChunk(v: nat, j: nat, k: nat)
    ensures (v / Weight(j + 1)) % Weight(k) * CHUNK + (v / Weight(j)) % CHUNK == (v / Weight(j)) % Weight(k + 1)
  {
    hide Weight;
    NextWeight(j);
    NextWeight(k);
    Commute(Weight(j), CHUNK);
    DivDiv(v, Weight(j), CHUNK);
    Longer(v / Weight(j), Weight(k));
  }

  lemma NoChunks()
    ensures Weight(0) == 1
  {
  }

  lemma NextWeight(k: nat)
    ensures Weight(k + 1) == CHUNK * Weight(k)
  {
  }

  /** One more chunk below a remainder. */
  lemma Longer(v: nat, m: nat)
    requires m > 0
    ensures (v / CHUNK % m) * CHUNK + v % CHUNK == v % (CHUNK * m)
  {
    var h := v / CHUNK;
    Euclid(v, CHUNK);
    Euclid(h, m);
    Assemble(v, CHUNK, m, h, v % CHUNK, h / m, h % m);
    RemainderUnique(v, CHUNK * m, h / m, (h % m) * CHUNK + v % CHUNK);
  }

  lemma Weights()
    ensures Weight(2) == 0x1_0000_0000 && Weight(10) == TWO_128 * 0x1_0000_0000 && Weight(16) == TWO_256
  {
    hide Power2;
    WeightIsPower(2);
    WeightIsPower(10);
    WeightIsPower(16);
    ChunkIsPower();
    PowerAdd(16, 16);
    PowerAdd(32, 32);
    PowerAdd(64, 64);
    PowerAdd(128, 32);
    PowerAdd(128, 128);
  }

  lemma FourBits(v: nat)
    ensures v % 16 == 8 * Bit(v, 3) + 4 * Bit(v, 2) + 2 * Bit(v, 1) + Bit(v, 0)
  {
    hide Power2;
    PowersOfTwo();
    Halves(v, 8);
    Halves(v / 2, 4);
    Halves(v / 4, 2);
    assert v / 2 / 2 == v / 4 && v / 4 / 2 == v / 8;
  }

  lemma RowReadsAs(cells: Cells, row: nat, r: RwOperation)
    requires RecordRow(cells, row, r)
    ensures ReadsAs(cells, row, r)
  {
    hide Cell, ChunkAt, Bit;
    assert IsPlain(OP) && IsPlain(ID) && IsPlain(RW_ID) && IsPlain(ADDRESS) && IsPlain(IS_WRITE);
    assert IsPlain(STORAGE_KEY_HI) && IsPlain(STORAGE_KEY_LO) && IsPlain(VALUE_HI) && IsPlain(VALUE_LO);
    Euclid(r.storageKey, TWO_128);
    Euclid(r.value, TWO_128);
  }

  lemma SelectorCells(cells: Cells, row: nat, r: RwOperation)
    requires RecordRow(cells, row, r)
    ensures forall c: nat :: OP_SELECTORS <= c < INDICES ==> Cell(cells, c, row) == Bit(r.op, 3 - (c - OP_SELECTORS))
    ensures forall c: nat :: CHUNKS <= c < CHUNKS + 2 ==> Cell(cells, c, row) == ChunkAt(r.id, 1 - (c - CHUNKS))
    ensures forall c: nat :: CHUNKS + 2 <= c < CHUNKS + 12 ==>
      Cell(cells, c, row) == ChunkAt(r.address, 9 - (c - (CHUNKS + 2)))
    ensures forall c: nat :: CHUNKS + 12 <= c < CHUNKS + 28 ==>
      Cell(cells, c, row) == ChunkAt(r.storageKey, 15 - (c - (CHUNKS + 12)))
    ensures forall c: nat :: CHUNKS + 28 <= c < CHUNKS + 30 ==>
      Cell(cells, c, row) == ChunkAt(r.rwId, 1 - (c - (CHUNKS + 28)))
  {
    hide Cell, ChunkAt, Bit;
    forall c: nat | OP_SELECTORS <= c < INDICES || CHUNKS <= c < DIFFERENCE
      ensures Cell(cells, c, row) == Plain(r, c)
    {
      assert IsPlain(c);
    }
  }

  /** All n chunks of a value below the weight of chunk n, or any value modulo it. */
  lemma JoinedAll(cells: Cells, row: nat, first: nat, n: nat, v: nat)
    requires forall c: nat :: first <= c < first + n ==> Cell(cells, c, row) == ChunkAt(v, n - 1 - (c - first))
    ensures Joined(cells, row, first, n) == v % Weight(n)
  {
    hide Cell, ChunkAt, Weight, Joined;
    NoChunks();
    JoinedIs(cells, row, first, n, n, v);
    assert v / 1 == v;
  }

  lemma ChunksSmall(cells: Cells, row: nat, r: RwOperation)
    requires RecordRow(cells, row, r)
    ensures forall c: nat :: CHUNKS <= c < DIFFERENCE ==> 0 <= Cell(cells, c, row) < CHUNK
    ensures forall c: nat :: OP_SELECTORS <= c < INDICES ==> Cell(cells, c, row) in {0, 1}
  {
    hide Cell, ChunkAt, Bit, RecordRow, Plain;
    SelectorCells(cells, row, r);
    forall v: nat, k: nat ensures 0 <= ChunkAt(v, k) < CHUNK { ChunkIsDigit(v, k); }
    forall v: nat, k: nat ensures Bit(v, k) in {0, 1} { BitRange(v, k); }
  }

  lemma SelectorsMatch(cells: Cells, row: nat, r: RwOperation)
    requires RecordRow(cells, row, r)
    ensures r.op % 16 == 8 * Cell(cells, OP_SELECTORS, row) + 4 * Cell(cells, OP_SELECTORS + 1, row)
      + 2 * Cell(cells, OP_SELECTORS + 2, row) + Cell(cells, OP_SELECTORS + 3, row)
  {
    hide Cell, ChunkAt, Bit, RecordRow, Plain;
    SelectorCells(cells, row, r);
    FourBits(r.op);
  }

  lemma AddressLow(a: nat)
    ensures a % (TWO_128 * TWO_64) % (TWO_128 * 0x1_0000_0000) == a % (TWO_128 * 0x1_0000_0000)
  {
  }

  lemma RowChunksMatch(cells: Cells, row: nat, r: RwOperation)
    requires RecordRow(cells, row, r)
    ensures ChunksMatch(cells, row)
  {
    hide Cell, ChunkAt, Bit, RecordRow, Plain, Joined, Weight;
    RowReadsAs(cells, row, r);
    ChunksSmall(cells, row, r);
    SelectorsMatch(cells, row, r);
    SelectorCells(cells, row, r);
    Weights();
    AddressLow(r.address);
    JoinedAll(cells, row, CHUNKS, 2, r.id);
    JoinedAll(cells, row, CHUNKS + 2, 10, r.address);
    JoinedAll(cells, row, CHUNKS + 12, 16, r.storageKey);
    JoinedAll(cells, row, CHUNKS + 28, 2, r.rwId);
  }

  /** Whatever rows the sort has put where, the finished table gives the trace back. */
  lemma TableReadsBack(f: Field, cells: Cells, start: nat, t: seq<RwOperation>, s: seq<RwOperation>)
    requires f.Valid() && Numbered(t) && IsSorting(t, s) && Separated(s)
    requires forall i: nat, c: nat :: i < |s| ==> Cell(cells, c, start + i) == Expected(f, s, i, c)
    ensures ReadsBack(cells, start, |s|, t)
  {
    hide Cell, Expected, RecordRow, ReadsAs, ChunksMatch, IsSorting, DiffIndex;
    SameLength(t, s);
    forall q: nat | start <= q < start + |s|
      ensures Cell(cells, RW_ID, q) == s[q - start].rwId < |t| && s[q - start] == t[s[q - start].rwId]
      ensures ReadsAs(cells, q, s[q - start]) && ChunksMatch(cells, q)
    {
      RowIsRecord(t, s, q - start);
      RecordInRow(f, cells, start, s, q - start);
      RowReadsAs(cells, q, s[q - start]);
      RowChunksMatch(cells, q, s[q - start]);
      NumberCell(cells, q, s[q - start]);
    }
    forall p: nat, q: nat | start <= p < q < start + |s|
      ensures Cell(cells, RW_ID, p) != Cell(cells, RW_ID, q)
    {
      RowsDistinct(t, s, p - start, q - start);
    }
    forall u: nat | u < |t|
      ensures HasRow(cells, start, |s|, u)
    {
      var i := RecordHasRow(t, s, u);
      assert Cell(cells, RW_ID, start + i) == u;
    }
  }

  lemma RecordInRow(f: Field, cells: Cells, start: nat, s: seq<RwOperation>, i: nat)
    requires f.Valid() && Separated(s) && i < |s|
    requires forall j: nat, c: nat :: j < |s| ==> Cell(cells, c, start + j) == Expected(f, s, j, c)
    ensures RecordRow(cells, start + i, s[i])
  {
    hide Cell, Plain, DiffIndex;
    forall c: nat | IsPlain(c)
      ensures Cell(cells, c, start + i) == Plain(s[i], c)
    {
      assert Cell(cells, c, start + i) == Expected(f, s, i, c);
    }
  }

  lemma NumberCell(cells: Cells, row: nat, r: RwOperation)
    requires RecordRow(cells, row, r)
    ensures Cell(cells, RW_ID, row) == r.rwId
  {
    RowReadsAs(cells, row, r);
  }

  lemma SameLength(t: seq<RwOperation>, s: seq<RwOperation>)
    requires IsSorting(t, s)
    ensures |s| == |t|
  {
    assert |multiset(s)| == |multiset(t)|;
  }

  /** The side conditions a single call's trace meets. */
  ghost predicate TraceFits(t: seq<RwOperation>, id: nat) {
    Numbered(t) && |t| <= Weight(2) && forall r :: r in t ==> RecordFits(r, id)
  }

  lemma NeighboursIncrease(t: seq<RwOperation>, s: seq<RwOperation>, id: nat, i: nat)
    requires TraceFits(t, id) && IsSorting(t, s) && 0 < i < |s|
    ensures LessAt(KeyColumns(s[i - 1]), KeyColumns(s[i]), DiffIndex(s, i))
    ensures DiffIndex(s, i) < 30 <==> KeyOf(s[i]) != KeyOf(s[i - 1])
    ensures KeyColumns(s[i])[DiffIndex(s, i)] - KeyColumns(s[i - 1])[DiffIndex(s, i)] < CHUNK
  {
    hide KeyColumns, Weight, FirstDifference, RecordFits;
    RowIsRecord(t, s, i);
    RowIsRecord(t, s, i - 1);
    RowsDistinct(t, s, i - 1, i);
    assert Less(s[i - 1], s[i]);
    var d := ColumnsFollowOrder(s[i - 1], s[i], id);
    FirstDifferenceIs(KeyColumns(s[i]), KeyColumns(s[i - 1]), d);
  }

  /**
   * The ordering advice is sound for every row after the first: the key columns increase strictly in
   * lexicographic order, DIFFERENCE is their 16-bit non-zero gap, INV_DIFFERENCE its field inverse, and the
   * five index bits name the column where they part.
   */
  lemma OrderingAdvice(f: Field, t: seq<RwOperation>, s: seq<RwOperation>, id: nat, i: nat)
    requires f.Valid() && TraceFits(t, id) && IsSorting(t, s) && 0 < i < |s|
    ensures Separated(s)
    ensures LessAt(KeyColumns(s[i - 1]), KeyColumns(s[i]), DiffIndex(s, i))
    ensures 0 < Expected(f, s, i, DIFFERENCE) < CHUNK
    ensures (Expected(f, s, i, DIFFERENCE) * Expected(f, s, i, INV_DIFFERENCE)) % f.order == 1
    ensures DiffIndex(s, i) == 16 * Expected(f, s, i, INDICES) + 8 * Expected(f, s, i, INDICES + 1)
      + 4 * Expected(f, s, i, INDICES + 2) + 2 * Expected(f, s, i, INDICES + 3) + Expected(f, s, i, INDICES + 4)
  {
    hide KeyColumns, Weight, FirstDifference, RecordFits, IsSorting, Plain;
    SortedSeparated(t, s);
    NeighboursIncrease(t, s, id, i);
    var d := DiffIndex(s, i);
    var gap := KeyColumns(s[i])[d] - KeyColumns(s[i - 1])[d];
    SmallResidue(gap, f.order);
    FiveBits(d);
  }

  lemma SmallResidue(x: nat, m: nat)
    requires x < m
    ensures x % m == x
  {
  }

  lemma PowersOfTwo()
    ensures Power2(0) == 1 && Power2(1) == 2 && Power2(2) == 4 && Power2(3) == 8 && Power2(4) == 16
  {
    assert Power2(3) == 2 * Power2(2);
    assert Power2(4) == 2 * Power2(3);
  }

  lemma FiveBits(d: nat)
    requires d < 32
    ensures d == 16 * Bit(d, 4) + 8 * Bit(d, 3) + 4 * Bit(d, 2) + 2 * Bit(d, 1) + Bit(d, 0)
  {
    hide Power2;
    PowersOfTwo();
  }

  /** IS_FIRST marks exactly the rows (after row 0) of ordinary operations whose cell has not occurred above. */
  lemma FirstFlag(f: Field, t: seq<RwOperation>, s: seq<RwOperation>, id: nat, i: nat)
    requires f.Valid() && TraceFits(t, id) && IsSorting(t, s) && 0 < i < |s|
    requires START_OP < s[i].op < PADDING_OP
    ensures Separated(s)
    ensures Expected(f, s, i, IS_FIRST) == 1 <==> forall j :: 0 <= j < i ==> KeyOf(s[j]) != KeyOf(s[i])
    ensures Expected(f, s, i, IS_FIRST) == Expected(f, s, i - 1, IS_LAST)
  {
    hide KeyColumns, Weight, FirstDifference, RecordFits, Plain;
    SortedSeparated(t, s);
    NeighboursIncrease(t, s, id, i);
    if KeyOf(s[i]) != KeyOf(s[i - 1]) {
      forall j | 0 <= j < i
        ensures KeyOf(s[j]) != KeyOf(s[i])
      {
        if KeyOf(s[j]) == KeyOf(s[i]) { GroupOrder(t, s, j, i); }
      }
    }
  }

  /** The carried value of a group is the previous value recorded by the group's first row. */
  lemma CarriedValue(t: seq<RwOperation>, s: seq<RwOperation>, id: nat, first: nat, i: nat)
    requires TraceFits(t, id) && IsSorting(t, s) && 0 < first <= i < |s|
    requires KeyOf(s[first]) == KeyOf(s[i]) && KeyOf(s[first - 1]) != KeyOf(s[first])
    ensures ValueBefore(s, i) == s[first].valuePrev
    decreases i
  {
    hide KeyColumns, Weight, FirstDifference, RecordFits;
    NeighboursIncrease(t, s, id, i);
    if first < i {
      GroupOrder(t, s, first, i);
      CarriedValue(t, s, id, first, i - 1);
    }
  }

  /** The advice columns of a row that only FillRecord has touched. */
  ghost predicate AdviceClear(cells: Cells, row: nat) {
    forall c: nat :: !IsPlain(c) ==> Cell(cells, c, row) == 0
  }

  /** Neighbouring rows differ in some key column, so the search never leaves the column list. */
  ghost predicate Separated(s: seq<RwOperation>) {
    forall i :: 0 < i < |s| ==> DiffIndex(s, i) < SORTED_COLUMNS_AMOUNT
  }

  lemma SortingCell(cells: Cells, row: nat, r: RwOperation, k: nat)
    requires k < SORTED_COLUMNS_AMOUNT
    requires RecordRow(cells, row, r) && Cell(cells, FIELD_TYPE, row) == 0
    ensures Cell(cells, SortingColumn(k), row) == KeyColumns(r)[k]
  {
    hide Plain, Chunks;
    if k == 13 {
      assert KeyColumns(r)[13] == 0;
    } else {
      PlainIsKeyColumn(r, k);
      assert IsPlain(SortingColumn(k));
    }
  }

  lemma FirstDifferenceIs(a: seq<int>, b: seq<int>, d: nat)
    requires |a| == |b| && d <= |a| && a[..d] == b[..d] && (d < |a| ==> a[d] != b[d])
    ensures FirstDifference(a, b) == d
  {
    var e := FirstDifference(a, b);
    assert forall k | 0 <= k < d :: a[k] == a[..d][k] == b[..d][k] == b[k];
    assert forall k | 0 <= k < e :: a[k] == a[..e][k] == b[..e][k] == b[k];
  }

  /** The check a circuit makes on two neighbouring rows, on table cells alone. */
  ghost predicate CellsAgree(f: Field, s: seq<RwOperation>, i: nat)
    requires f.Valid() && Separated(s) && 0 < i < |s|
  {
    Expected(f, s, i, IS_FIRST) == 0 && Expected(f, s, i, IS_WRITE) == 0 ==>
      && Expected(f, s, i, VALUE_HI) == Expected(f, s, i - 1, VALUE_HI)
      && Expected(f, s, i, VALUE_LO) == Expected(f, s, i - 1, VALUE_LO)
  }

  /**
   * The finished table decides consistency: its flag, write and value columns pass the neighbour check
   * if and only if some initial memory explains every read of the trace in execution order.
   */
  lemma TableDecidesConsistency(f: Field, t: seq<RwOperation>, s: seq<RwOperation>, id: nat)
    requires f.Valid() && TraceFits(t, id) && IsSorting(t, s)
    requires forall r :: r in t ==> START_OP < r.op < PADDING_OP
    ensures Separated(s)
    ensures (forall i :: 0 < i < |s| ==> CellsAgree(f, s, i)) <==> exists m0 :: TimeConsistent(m0, t)
  {
    hide KeyColumns, Weight, FirstDifference, RecordFits, Expected, TimeConsistent, IsSorting;
    SortedSeparated(t, s);
    SomeMemoryExplains(t, s);
    forall i | 0 < i < |s|
      ensures CellsAgree(f, s, i) <==> RowAgrees(s, i)
    {
      RowIsRecord(t, s, i);
      RowCells(f, t, s, id, i);
      WordHalves(s[i].value, s[i - 1].value);
    }
    RowsAgree(s);
    if forall i :: 0 < i < |s| ==> CellsAgree(f, s, i) {
      assert forall i :: 0 < i < |s| ==> CellsAgree(f, s, i) && RowAgrees(s, i);
    }
  }

  lemma RowsAgree(s: seq<RwOperation>)
    ensures RowsConsistent(s) <==> forall i :: 0 < i < |s| ==> RowAgrees(s, i)
  {
    if forall i :: 0 < i < |s| ==> RowAgrees(s, i) {
      forall i: nat | i < |s| && !FirstRow(s, i) && !s[i].isWrite
        ensures s[i].value == s[i - 1].value
      {
        assert RowAgrees(s, i);
      }
    }
  }

  ghost predicate RowAgrees(s: seq<RwOperation>, i: nat)
    requires 0 < i < |s|
  {
    FirstRow(s, i) || s[i].isWrite || s[i].value == s[i - 1].value
  }

  lemma RowCells(f: Field, t: seq<RwOperation>, s: seq<RwOperation>, id: nat, i: nat)
    requires f.Valid() && TraceFits(t, id) && IsSorting(t, s) && Separated(s) && 0 < i < |s|
    requires START_OP < s[i].op < PADDING_OP
    ensures Expected(f, s, i, IS_FIRST) == (if FirstRow(s, i) then 1 else 0)
    ensures Expected(f, s, i, IS_WRITE) == (if s[i].isWrite then 1 else 0)
    ensures Expected(f, s, i, VALUE_HI) == s[i].value / TWO_128 && Expected(f, s, i, VALUE_LO) == s[i].value % TWO_128
    ensures Expected(f, s, i - 1, VALUE_HI) == s[i - 1].value / TWO_128
    ensures Expected(f, s, i - 1, VALUE_LO) == s[i - 1].value % TWO_128
  {
    hide KeyColumns, Weight, FirstDifference, RecordFits;
    NeighboursIncrease(t, s, id, i);
  }

  lemma WordHalves(v: Word, w: Word)
    ensures v == w <==> v / TWO_128 == w / TWO_128 && v % TWO_128 == w % TWO_128
  {
    assert v == v / TWO_128 * TWO_128 + v % TWO_128;
    assert w == w / TWO_128 * TWO_128 + w % TWO_128;
  }
}
