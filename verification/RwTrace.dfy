/**
 * The read/write trace: record constructors, the sort order, and offline memory checking.
 * A trace is consistent in time exactly when its sorted rows pass a check between neighbours.
 */
module RwTrace {
  import opened Bytes

  const START_OP := 0
  const STACK_OP := 1
  const MEMORY_OP := 2
  const PADDING_OP := 12

  datatype RwOperation = RwOperation(op: nat, id: nat, address: Word, field: nat, storageKey: Word, rwId: nat,
                                     isWrite: bool, value: Word, valuePrev: Word)

  /** `stack_operation`; the slot index is a `uint16_t`. */
  function StackOperation(id: nat, slot: int, rwId: nat, isWrite: bool, value: Word): RwOperation {
    RwOperation(STACK_OP, id, slot % 0x1_0000, 0, 0, rwId, isWrite, value, 0)
  }

  function MemoryOperation(id: nat, address: Word, rwId: nat, isWrite: bool, value: Word): RwOperation {
    RwOperation(MEMORY_OP, id, address, 0, 0, rwId, isWrite, value, 0)
  }

  /** `operator<`: the call id takes no part in it. */
  predicate Less(a: RwOperation, b: RwOperation) {
    if a.op != b.op then a.op < b.op
    else if a.address != b.address then a.address < b.address
    else if a.field != b.field then a.field < b.field
    else if a.storageKey != b.storageKey then a.storageKey < b.storageKey
    else if a.rwId != b.rwId then a.rwId < b.rwId
    else false
  }

  /** The cell a record touches. */
  datatype Key = Key(op: nat, address: Word, field: nat, storageKey: Word)

  function KeyOf(r: RwOperation): Key {
    Key(r.op, r.address, r.field, r.storageKey)
  }

  // ---------------------------------------------------------------- sorting

  ghost predicate Sorted(s: seq<RwOperation>) {
    forall i, j :: 0 <= i < j < |s| ==> !Less(s[j], s[i])
  }

  ghost predicate IsSorting(t: seq<RwOperation>, s: seq<RwOperation>) {
    multiset(s) == multiset(t) && Sorted(s)
  }

  function Insert(x: RwOperation, s: seq<RwOperation>): (r: seq<RwOperation>)
    ensures multiset(r) == multiset(s) + multiset{x}
  {
    if s == [] then [x]
    else
      assert s == [s[0]] + s[1..];
      if Less(s[0], x) then [s[0]] + Insert(x, s[1..]) else [x] + s
  }

  /** Stands for `std::sort`; only IsSorting is ever used of it. */
  function SortOperations(t: seq<RwOperation>): (s: seq<RwOperation>)
    ensures multiset(s) == multiset(t)
  {
    if t == [] then []
    else
      assert t == [t[0]] + t[1..];
      Insert(t[0], SortOperations(t[1..]))
  }

  lemma {:induction false} InsertSorted(x: RwOperation, s: seq<RwOperation>)
    requires Sorted(s)
    ensures Sorted(Insert(x, s))
  {
    if s != [] && Less(s[0], x) {
      InsertSorted(x, s[1..]);
      var rest := Insert(x, s[1..]);
      forall j | 0 <= j < |rest|
        ensures !Less(rest[j], s[0])
      {
        assert rest[j] in multiset(rest);
        assert rest[j] == x || rest[j] in s[1..];
      }
    }
  }

  lemma {:induction false} SortIsSorting(t: seq<RwOperation>)
    ensures IsSorting(t, SortOperations(t))
  {
    if t != [] {
      SortIsSorting(t[1..]);
      InsertSorted(t[0], SortOperations(t[1..]));
    }
  }

  // ---------------------------------------------------------------- consistency in time

  /** Record numbers are positions, as every instruction writes `rw_trace.size()`. */
  ghost predicate Numbered(t: seq<RwOperation>) {
    forall i :: 0 <= i < |t| ==> t[i].rwId == i
  }

  /** The value of cell k just before record i, starting from the memory m0. */
  ghost function ValueAt(m0: Key -> Word, t: seq<RwOperation>, i: nat, k: Key): Word
    requires i <= |t|
  {
    if i == 0 then m0(k)
    else if t[i - 1].isWrite && KeyOf(t[i - 1]) == k then t[i - 1].value
    else ValueAt(m0, t, i - 1, k)
  }

  /** Every read returns the latest earlier write to its cell, or the cell's initial value. */
  ghost predicate TimeConsistent(m0: Key -> Word, t: seq<RwOperation>) {
    forall i :: 0 <= i < |t| && !t[i].isWrite ==> t[i].value == ValueAt(m0, t, i, KeyOf(t[i]))
  }

  // ---------------------------------------------------------------- consistency between rows

  ghost predicate FirstRow(s: seq<RwOperation>, i: nat)
    requires i < |s|
  {
    i == 0 || KeyOf(s[i]) != KeyOf(s[i - 1])
  }

  /** A read row that is not first in its group repeats the value of the row directly above. */
  ghost predicate RowsConsistent(s: seq<RwOperation>) {
    forall i: nat :: i < |s| && !FirstRow(s, i) && !s[i].isWrite ==> s[i].value == s[i - 1].value
  }

  ghost predicate FirstReads(m0: Key -> Word, s: seq<RwOperation>) {
    forall i: nat :: i < |s| && FirstRow(s, i) && !s[i].isWrite ==> s[i].value == m0(KeyOf(s[i]))
  }

  // ---------------------------------------------------------------- rows and times

  lemma RowIsRecord(t: seq<RwOperation>, s: seq<RwOperation>, i: nat)
    requires Numbered(t) && IsSorting(t, s) && i < |s|
    ensures s[i].rwId < |t| && s[i] == t[s[i].rwId]
  {
    assert s[i] in multiset(s);
    assert s[i] in t;
  }

  lemma RecordHasRow(t: seq<RwOperation>, s: seq<RwOperation>, u: nat) returns (i: nat)
    requires IsSorting(t, s) && u < |t|
    ensures i < |s| && s[i] == t[u]
  {
    assert t[u] in multiset(t);
    assert t[u] in s;
    i :| 0 <= i < |s| && s[i] == t[u];
  }

  lemma RowsDistinct(t: seq<RwOperation>, s: seq<RwOperation>, i: nat, j: nat)
    requires Numbered(t) && IsSorting(t, s) && i < j < |s|
    ensures s[i].rwId != s[j].rwId
  {
    RowIsRecord(t, s, i);
    RowIsRecord(t, s, j);
    if s[i].rwId == s[j].rwId {
      CountedTwice(s, i, j);
      CountedOnce(t, s[i].rwId);
      assert false;
    }
  }

  lemma CountedTwice(s: seq<RwOperation>, i: nat, j: nat)
    requires i < j < |s| && s[i] == s[j]
    ensures multiset(s)[s[i]] >= 2
  {
    assert s == s[..i] + [s[i]] + s[i + 1..] && s[j] == s[i + 1..][j - i - 1];
  }

  lemma CountedOnce(t: seq<RwOperation>, u: nat)
    requires Numbered(t) && u < |t|
    ensures multiset(t)[t[u]] == 1
  {
    assert t == t[..u] + [t[u]] + t[u + 1..];
    assert t[u] !in t[..u] && t[u] !in t[u + 1..];
  }

  /** Within the sorted rows, equal cells are contiguous and in time order. */
  lemma GroupOrder(t: seq<RwOperation>, s: seq<RwOperation>, i: nat, j: nat)
    requires Numbered(t) && IsSorting(t, s) && i < j < |s| && KeyOf(s[i]) == KeyOf(s[j])
    ensures s[i].rwId < s[j].rwId
    ensures forall m :: i <= m <= j ==> KeyOf(s[m]) == KeyOf(s[i])
  {
    RowsDistinct(t, s, i, j);
    assert !Less(s[j], s[i]);
    forall m | i < m < j
      ensures KeyOf(s[m]) == KeyOf(s[i])
    {
      assert !Less(s[m], s[i]) && !Less(s[j], s[m]);
    }
  }

  /** Between two neighbouring rows of a group nothing touched the cell, nor before the group's first row. */
  lemma QuietBefore(t: seq<RwOperation>, s: seq<RwOperation>, i: nat, u: nat)
    requires Numbered(t) && IsSorting(t, s) && i < |s|
    requires u < s[i].rwId && (FirstRow(s, i) || s[i - 1].rwId < u)
    ensures u < |t| && KeyOf(t[u]) != KeyOf(s[i])
  {
    RowIsRecord(t, s, i);
    if KeyOf(t[u]) == KeyOf(s[i]) {
      var r := RecordHasRow(t, s, u);
      if i < r {
        GroupOrder(t, s, i, r);
        assert false;
      } else {
        assert r < i;
        GroupOrder(t, s, r, i);
        assert false;
      }
    }
  }

  lemma {:induction false} ValueUnchanged(m0: Key -> Word, t: seq<RwOperation>, a: nat, b: nat, k: Key)
    requires a <= b <= |t| && forall u :: a <= u < b && t[u].isWrite ==> KeyOf(t[u]) != k
    ensures ValueAt(m0, t, b, k) == ValueAt(m0, t, a, k)
    decreases b - a
  {
    if a < b {
      ValueUnchanged(m0, t, a, b - 1, k);
    }
  }

  /** What the cell of row i holds when the row's record is made. */
  lemma ValueBeforeRow(m0: Key -> Word, t: seq<RwOperation>, s: seq<RwOperation>, i: nat)
    requires Numbered(t) && IsSorting(t, s) && i < |s|
    ensures s[i].rwId < |t|
    ensures FirstRow(s, i) ==> ValueAt(m0, t, s[i].rwId, KeyOf(s[i])) == m0(KeyOf(s[i]))
    ensures !FirstRow(s, i) ==> s[i - 1].rwId < s[i].rwId
    ensures !FirstRow(s, i) ==> 
      ValueAt(m0, t, s[i].rwId, KeyOf(s[i])) == ValueAt(m0, t, s[i - 1].rwId + 1, KeyOf(s[i]))
  {
    RowIsRecord(t, s, i);
    var from := if FirstRow(s, i) then 0 else s[i - 1].rwId + 1;
    if !FirstRow(s, i) { GroupOrder(t, s, i - 1, i); }
    forall u | from <= u < s[i].rwId
      ensures KeyOf(t[u]) != KeyOf(s[i])
    {
      QuietBefore(t, s, i, u);
    }
    ValueUnchanged(m0, t, from, s[i].rwId, KeyOf(s[i]));
  }

  /** Under the local checks every row shows what its cell holds afterwards. */
  lemma {:induction false} RowValue(m0: Key -> Word, t: seq<RwOperation>, s: seq<RwOperation>, i: nat)
    requires Numbered(t) && IsSorting(t, s) && i < |s| && RowsConsistent(s) && FirstReads(m0, s)
    ensures s[i].rwId < |t| && ValueAt(m0, t, s[i].rwId + 1, KeyOf(s[i])) == s[i].value
    decreases i
  {
    RowIsRecord(t, s, i);
    ValueBeforeRow(m0, t, s, i);
    if !FirstRow(s, i) {
      RowValue(m0, t, s, i - 1);
    }
  }

  // ---------------------------------------------------------------- the theorem

  /**
   * Offline memory checking: for a numbered trace and any sorting of it, reads agree with the latest
   * earlier write (or with m0) in time if and only if the sorted rows pass the neighbour check.
   */
  lemma OfflineMemoryCheck(m0: Key -> Word, t: seq<RwOperation>, s: seq<RwOperation>)
    requires Numbered(t) && IsSorting(t, s)
    ensures TimeConsistent(m0, t) <==> RowsConsistent(s) && FirstReads(m0, s)
  {
    if TimeConsistent(m0, t) {
      forall i: nat | i < |s| && !s[i].isWrite
        ensures s[i].value == if FirstRow(s, i) then m0(KeyOf(s[i])) else s[i - 1].value
      {
        RowIsRecord(t, s, i);
        ValueBeforeRow(m0, t, s, i);
        if !FirstRow(s, i) {
          RowIsRecord(t, s, i - 1);
          var u := s[i - 1].rwId;
          assert ValueAt(m0, t, u + 1, KeyOf(s[i])) == t[u].value;
        }
      }
    }
    if RowsConsistent(s) && FirstReads(m0, s) {
      forall u | 0 <= u < |t| && !t[u].isWrite
        ensures t[u].value == ValueAt(m0, t, u, KeyOf(t[u]))
      {
        var i := RecordHasRow(t, s, u);
        RowValue(m0, t, s, i);
      }
    }
  }

  /** The initial memory that a table's first rows imply. */
  ghost function ImpliedMemory(s: seq<RwOperation>): Key -> Word {
    k => if exists i: nat :: i < |s| && FirstRow(s, i) && KeyOf(s[i]) == k then
           (var i: nat :| i < |s| && FirstRow(s, i) && KeyOf(s[i]) == k; s[i].value)
         else 0
  }

  lemma FirstRowUnique(t: seq<RwOperation>, s: seq<RwOperation>, i: nat, j: nat)
    requires Numbered(t) && IsSorting(t, s) && i < |s| && j < |s|
    requires FirstRow(s, i) && FirstRow(s, j) && KeyOf(s[i]) == KeyOf(s[j])
    ensures i == j
  {
    hide IsSorting, Numbered, KeyOf;
    if i < j { GroupOrder(t, s, i, j); }
    if j < i { GroupOrder(t, s, j, i); }
  }

  lemma ImpliedReads(t: seq<RwOperation>, s: seq<RwOperation>)
    requires Numbered(t) && IsSorting(t, s)
    ensures FirstReads(ImpliedMemory(s), s)
  {
    hide IsSorting, Numbered, FirstRow, KeyOf;
    var m0 := ImpliedMemory(s);
    forall i: nat | i < |s| && FirstRow(s, i)
      ensures s[i].value == m0(KeyOf(s[i]))
    {
      var j: nat :| j < |s| && FirstRow(s, j) && KeyOf(s[j]) == KeyOf(s[i]) && m0(KeyOf(s[i])) == s[j].value;
      FirstRowUnique(t, s, i, j);
    }
  }

  /** Without fixing the initial memory: the neighbour check alone decides whether some memory explains the trace. */
  lemma SomeMemoryExplains(t: seq<RwOperation>, s: seq<RwOperation>)
    requires Numbered(t) && IsSorting(t, s)
    ensures (exists m0 :: TimeConsistent(m0, t)) <==> RowsConsistent(s)
  {
    hide TimeConsistent, IsSorting, Numbered, RowsConsistent, FirstReads;
    if m0 :| TimeConsistent(m0, t) {
      OfflineMemoryCheck(m0, t, s);
    }
    if RowsConsistent(s) {
      ImpliedReads(t, s);
      OfflineMemoryCheck(ImpliedMemory(s), t, s);
    }
  }
}
