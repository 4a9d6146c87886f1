/**
 * EVM memory: the growable buffer (`Memory`), its quadratic cost (`grow_memory`) and the access
 * check (`check_memory`), in place and as functions on the memory contents.
 */
module MemoryGas {
  import opened Bytes
  import opened Words

  const MAX_BUFFER_SIZE := 0xffff_ffff
  const WORD_SIZE := 32
  const PAGE_SIZE := 4 * 1024
  const INT64_MAX := 0x7fff_ffff_ffff_ffff

  /** `num_words`: bytes rounded up to words. */
  function NumWords(bytes: nat): nat {
    (bytes + (WORD_SIZE - 1)) / WORD_SIZE
  }

  /** Total cost of a memory of w words. */
  function WordsCost(w: nat): nat {
    3 * w + w * w / 512
  }

  function Zeros(n: nat): (z: seq<byte>)
    ensures |z| == n && forall i :: 0 <= i < n ==> z[i] == 0
  {
    seq(n, _ => 0)
  }

  // ---------------------------------------------------------------- specification functions

  datatype Access = Access(ok: bool, gas: int, memory: seq<byte>)

  /** `grow_memory` on contents: charge the cost difference, extend with zeros only if gas remains. */
  function GrowTo(gas: int, memory: seq<byte>, newSize: nat): Access
    requires newSize > |memory|
  {
    var w := NumWords(newSize);
    var gas' := gas - (WordsCost(w) - WordsCost(|memory| / WORD_SIZE));
    Access(gas' >= 0, gas', if gas' >= 0 then memory + Zeros(w * WORD_SIZE - |memory|) else memory)
  }

  /** `check_memory` for an access of known size. */
  function Touch(gas: int, memory: seq<byte>, offset: Word, size: nat): Access {
    if Low64(offset) > MAX_BUFFER_SIZE then Access(false, gas, memory)
    else if Low64(offset) + size > |memory| then GrowTo(gas, memory, Low64(offset) + size)
    else Access(gas >= 0, gas, memory)
  }

  /** `check_memory` for the copy instructions; an empty access is always valid. */
  function TouchRange(gas: int, memory: seq<byte>, offset: Word, size: Word): Access {
    if size == 0 then Access(true, gas, memory)
    else if Low64(size) > MAX_BUFFER_SIZE then Access(false, gas, memory)
    else Touch(gas, memory, offset, Low64(size))
  }

  // ---------------------------------------------------------------- what a check guarantees

  lemma WordsCostMonotone(a: nat, b: nat)
    requires a <= b
    ensures WordsCost(a) <= WordsCost(b)
  {
    SquareMonotone(a, b);
  }

  lemma SquareMonotone(a: nat, b: nat)
    requires a <= b
    ensures a * a <= b * b
  {
  }

  lemma RoundUp(bytes: nat)
    ensures bytes <= NumWords(bytes) * WORD_SIZE < bytes + WORD_SIZE
  {
  }

  /** The words of a memory whose size is whole words. */
  function WordsOf(memory: seq<byte>): nat {
    |memory| / WORD_SIZE
  }

  /** Growing to w words: the new size counts as w words, which are more than there were. */
  lemma WholeWords(w: nat, memory: seq<byte>)
    requires |memory| % WORD_SIZE == 0 && |memory| <= w * WORD_SIZE
    ensures (w * WORD_SIZE) / WORD_SIZE == w && (w * WORD_SIZE) % WORD_SIZE == 0 && WordsOf(memory) <= w
  {
    RemainderUnique(w * WORD_SIZE, WORD_SIZE, w, 0);
    Euclid(|memory|, WORD_SIZE);
  }

  /**
   * One check: gas never rises, what is charged is exactly the rise in total cost, old bytes stay, new
   * bytes are zero, and a successful check covers the whole access.
   */
  lemma TouchCorrect(gas: int, memory: seq<byte>, offset: Word, size: nat)
    requires |memory| % WORD_SIZE == 0
    ensures var a := Touch(gas, memory, offset, size);
      && a.gas <= gas && (a.ok ==> a.gas >= 0)
      && (a.ok ==> gas - a.gas == WordsCost(WordsOf(a.memory)) - WordsCost(WordsOf(memory)))
      && (a.ok ==> Low64(offset) + size <= |a.memory|)
      && |a.memory| % WORD_SIZE == 0 && memory <= a.memory
      && forall i :: |memory| <= i < |a.memory| ==> a.memory[i] == 0
  {
    var newSize := Low64(offset) + size;
    if Low64(offset) <= MAX_BUFFER_SIZE && newSize > |memory| {
      hide WordsCost, NumWords, Low64;
      RoundUp(newSize);
      WholeWords(NumWords(newSize), memory);
      WordsCostMonotone(WordsOf(memory), NumWords(newSize));
    }
  }

  /** A check passes exactly if the offset has 32 bits and the gas covers the words that are missing. */
  lemma TouchExact(gas: int, memory: seq<byte>, offset: Word, size: nat)
    requires |memory| % WORD_SIZE == 0
    ensures var a, end := Touch(gas, memory, offset, size), offset % TWO_64 + size;
      && (a.ok <==>
            && offset % TWO_64 < 0x1_0000_0000
            && gas >= if end <= |memory| then 0 else WordsCost(NumWords(end)) - WordsCost(WordsOf(memory)))
      && (a.ok && end > |memory| ==> end <= |a.memory| < end + 32)
      && (a.ok && end <= |memory| ==> a.memory == memory)
  {
    hide WordsCost, NumWords;
    var end := offset % TWO_64 + size;
    RoundUp(end);
  }

  /** 22 words cost 3 each, the 23rd one more; 1024 words cost 5120 and 32768 words 2195456. */
  lemma MemoryPrices()
    ensures WordsCost(0) == 0 && WordsCost(1) == 3 && WordsCost(22) == 66 && WordsCost(23) == 70
    ensures WordsCost(1024) == 5120 && WordsCost(32768) == 2195456
    ensures NumWords(0) == 0 && NumWords(1) == NumWords(32) == 1 && NumWords(33) == 2
  {
  }

  /** No intermediate value of the cost computation leaves int64. */
  lemma CostFitsInt64(offset: Word, size: nat)
    requires Low64(offset) <= MAX_BUFFER_SIZE && size <= MAX_BUFFER_SIZE
    ensures var w := NumWords(Low64(offset) + size);
      w * w <= INT64_MAX && WordsCost(w) <= INT64_MAX && w * WORD_SIZE <= INT64_MAX
  {
    hide WordsCost;
    var w := NumWords(Low64(offset) + size);
    assert w <= 0x1000_0000;
    WordsCostMonotone(w, 0x1000_0000);
    SquareMonotone(w, 0x1000_0000);
    LargestCost();
  }

  lemma LargestCost()
    ensures 0x1000_0000 * 0x1000_0000 <= INT64_MAX && WordsCost(0x1000_0000) <= INT64_MAX
  {
  }

  // ---------------------------------------------------------------- path independence

  /** A sequence of accesses, stopping at the first that fails. */
  function TouchAll(gas: int, memory: seq<byte>, accesses: seq<(Word, nat)>): Access
    decreases |accesses|
  {
    if accesses == [] then Access(true, gas, memory)
    else
      var a := Touch(gas, memory, accesses[0].0, accesses[0].1);
      if a.ok then TouchAll(a.gas, a.memory, accesses[1..]) else a
  }

  /** The extent of the furthest access, rounded up to words. */
  function Extent(words: nat, accesses: seq<(Word, nat)>): nat
    decreases |accesses|
  {
    if accesses == [] then words
    else
      var w := NumWords(Low64(accesses[0].0) + accesses[0].1);
      Extent(if w > words then w else words, accesses[1..])
  }

  /**
   * Memory gas telescopes: however the accesses grow the memory, the total charged depends only on the
   * initial and final word counts, and the final count only on the furthest access.
   */
  lemma {:induction false} MemoryGasTelescopes(gas: int, memory: seq<byte>, accesses: seq<(Word, nat)>)
    requires |memory| % WORD_SIZE == 0
    ensures var a := TouchAll(gas, memory, accesses);
      a.ok ==> && gas - a.gas == WordsCost(WordsOf(a.memory)) - WordsCost(WordsOf(memory))
               && WordsOf(a.memory) == Extent(WordsOf(memory), accesses)
    decreases |accesses|
  {
    if accesses != [] {
      var (offset, size) := accesses[0];
      TouchCorrect(gas, memory, offset, size);
      var a := Touch(gas, memory, offset, size);
      if a.ok {
        RoundUp(Low64(offset) + size);
        MemoryGasTelescopes(a.gas, a.memory, accesses[1..]);
      }
    }
  }

  // ---------------------------------------------------------------- the buffer

  /** Doubling, or rounding a size up to pages, gives whole pages. */
  lemma WholePages(capacity: nat, newSize: nat)
    requires capacity % PAGE_SIZE == 0
    ensures (capacity * 2) % PAGE_SIZE == 0
    ensures ((newSize + (PAGE_SIZE - 1)) / PAGE_SIZE * PAGE_SIZE) % PAGE_SIZE == 0
    ensures (newSize + (PAGE_SIZE - 1)) / PAGE_SIZE * PAGE_SIZE >= newSize
  {
    Euclid(capacity, PAGE_SIZE);
    RemainderUnique(capacity * 2, PAGE_SIZE, capacity / PAGE_SIZE * 2, 0);
    var padded := newSize + (PAGE_SIZE - 1);
    Euclid(padded, PAGE_SIZE);
    RemainderUnique(padded / PAGE_SIZE * PAGE_SIZE, PAGE_SIZE, padded / PAGE_SIZE, 0);
  }

  /** The capacity of the block after growth to newSize. */
  function GrownCapacity(capacity: nat, newSize: nat): nat {
    if newSize <= capacity then capacity
    else if capacity * 2 < newSize then (newSize + (PAGE_SIZE - 1)) / PAGE_SIZE * PAGE_SIZE
    else capacity * 2
  }

  /** The allocated buffer: `size` bytes of it are memory, the rest is indeterminate. */
  class Memory {
    var data: array<byte>
    var size: nat
    var capacity: nat

    ghost predicate Valid()
      reads this
    {
      data.Length == capacity && size <= capacity && capacity > 0 && capacity % PAGE_SIZE == 0
    }

    ghost function Contents(): seq<byte>
      reads this, data
      requires Valid()
    {
      data[..size]
    }

    constructor ()
      ensures Valid() && fresh(data) && Contents() == []
    {
      data := new byte[PAGE_SIZE];
      size := 0;
      capacity := PAGE_SIZE;
    }

    /** `realloc` to the current capacity: keeps the old bytes, promises nothing about the new ones. */
    method AllocateCapacity()
      requires size <= data.Length <= capacity && capacity > 0 && capacity % PAGE_SIZE == 0
      modifies this`data
      ensures Valid() && fresh(data)
      ensures data[..size] == old(data[..size])
    {
      var newData := new byte[capacity];
      forall i | 0 <= i < data.Length {
        newData[i] := data[i];
      }
      data := newData;
    }

    /** Grows to a larger multiple of the word size; the extension reads as zeros. */
    method Grow(newSize: nat)
      requires Valid() && newSize % WORD_SIZE == 0 && newSize > size
      modifies this, data
      ensures Valid() && (data == old(data) || fresh(data))
      ensures Contents() == old(Contents()) + Zeros(newSize - old(size))
      ensures size == newSize && capacity == GrownCapacity(old(capacity), newSize) >= old(capacity)
    {
      if newSize > capacity {
        WholePages(capacity, newSize);
        capacity := capacity * 2;
        if capacity < newSize {
          capacity := (newSize + (PAGE_SIZE - 1)) / PAGE_SIZE * PAGE_SIZE;
        }
        AllocateCapacity();
      }
      ghost var kept := data[..size];
      forall i | size <= i < newSize {
        data[i] := 0;
      }
      assert data[..size] == kept;
      assert data[..newSize] == kept + Zeros(newSize - size);
      size := newSize;
    }

    /** Forgets the contents; the buffer stays allocated and dirty. */
    method Clear()
      requires Valid()
      modifies this`size
      ensures Valid() && Contents() == []
    {
      size := 0;
    }

    method Store(index: nat, value: byte)
      requires Valid() && index < size
      modifies data
      ensures Valid() && Contents() == old(Contents())[index := value]
    {
      data[index] := value;
    }

    /** `grow_memory` */
    method GrowChecked(gasLeft: int, newSize: nat) returns (gas: int)
      requires Valid() && size % WORD_SIZE == 0 && newSize > size
      modifies this, data
      ensures Valid() && (data == old(data) || fresh(data))
      ensures GrowTo(gasLeft, old(Contents()), newSize) == Access(gas >= 0, gas, Contents())
      ensures capacity == GrownCapacity(old(capacity), size)
    {
      RoundUp(newSize);
      var newWords := NumWords(newSize);
      var currentWords := size / WORD_SIZE;
      var newCost := 3 * newWords + newWords * newWords / 512;
      var currentCost := 3 * currentWords + currentWords * currentWords / 512;
      gas := gasLeft - (newCost - currentCost);
      if gas >= 0 {
        Grow(newWords * WORD_SIZE);
      }
    }

    /** `check_memory` */
    method Check(gasLeft: int, offset: Word, accessSize: nat) returns (ok: bool, gas: int)
      requires Valid() && size % WORD_SIZE == 0
      modifies this, data
      ensures Valid() && (data == old(data) || fresh(data)) && size % WORD_SIZE == 0
      ensures Touch(gasLeft, old(Contents()), offset, accessSize) == Access(ok, gas, Contents())
      ensures capacity == GrownCapacity(old(capacity), size)
    {
      gas := gasLeft;
      TouchCorrect(gasLeft, Contents(), offset, accessSize);
      if Low64(offset) > MAX_BUFFER_SIZE {
        return false, gas;
      }
      var newSize := Low64(offset) + accessSize;
      if newSize > size {
        gas := GrowChecked(gas, newSize);
      }
      return gas >= 0, gas;
    }

    /**
     * KECCAK256 up to its records: the check covers the hashed bytes, but 32 bytes are read whatever their
     * number. Some of them lie past the block exactly when memory fills it and hashing starts in its last 31 bytes.
     */
    method HashRecords(gasLeft: int, offset: Word, hashed: Word)
      returns (ok: bool, gas: int, bytes: seq<byte>, outside: bool)
      requires Valid() && size % WORD_SIZE == 0
      modifies this, data
      ensures Valid() && (data == old(data) || fresh(data))
      ensures TouchRange(gasLeft, old(Contents()), offset, hashed) == Access(ok, gas, Contents())
      ensures outside <==> ok && Low64(hashed) != 0 && size == capacity && Low64(offset) + 32 > size
      ensures ok && Low64(hashed) != 0 && !outside ==>
        Low64(offset) + 32 <= data.Length && bytes == data[Low64(offset)..Low64(offset) + 32]
    {
      hide Low64;
      ok, gas, bytes, outside := true, gasLeft, [], false;
      if hashed != 0 {
        ok := Low64(hashed) <= MAX_BUFFER_SIZE;
        if ok { ok, gas := Check(gasLeft, offset, Low64(hashed)); }
      }
      if !ok || Low64(hashed) == 0 {
        return;
      }
      HashedInside(gasLeft, old(Contents()), offset, hashed, capacity);
      var from := Low64(offset);
      var j := 0;
      while j < 32
        invariant 0 <= j <= 32 && (outside <==> from + j > data.Length)
        invariant !outside ==> bytes == data[from..from + j]
      {
        if from + j < data.Length {
          bytes := bytes + [data[from + j]];
        } else {
          outside := true;
        }
        j := j + 1;
      }
    }
  }

  // ---------------------------------------------------------------- host instructions that leave memory

  /** Memory is whole words and the block whole pages, so only a full block can end within 32 bytes of the offset. */
  lemma HashedInside(gas: int, memory: seq<byte>, offset: Word, hashed: Word, capacity: nat)
    requires |memory| % WORD_SIZE == 0 && Low64(hashed) != 0 && TouchRange(gas, memory, offset, hashed).ok
    requires capacity % PAGE_SIZE == 0 && |TouchRange(gas, memory, offset, hashed).memory| <= capacity
    ensures var size := |TouchRange(gas, memory, offset, hashed).memory|;
      && Low64(offset) < size && (Low64(offset) + 32 > capacity <==> size == capacity && Low64(offset) + 32 > size)
  {
    hide Touch, Low64, WordsCost, WordsOf;
    LowValues(0);
    TouchCorrect(gas, memory, offset, Low64(hashed));
    LastWord(Low64(offset), |TouchRange(gas, memory, offset, hashed).memory|, capacity);
  }

  lemma LastWord(offset: nat, size: nat, capacity: nat)
    requires size % WORD_SIZE == 0 && capacity % PAGE_SIZE == 0 && offset < size <= capacity
    ensures offset + 32 > capacity <==> size == capacity && offset + 32 > size
  {
    PagesAreWords(capacity);
  }

  lemma LowValues(w: Word)
    requires w < TWO_64
    ensures Low64(w) == w
  {
  }

  lemma PagesAreWords(n: nat)
    requires n % PAGE_SIZE == 0
    ensures n % WORD_SIZE == 0
  {
    Euclid(n, PAGE_SIZE);
    RemainderUnique(n, WORD_SIZE, n / PAGE_SIZE * 128, 0);
  }

  /** The input: one byte at offset 4095 of fresh memory fills the first page exactly. */
  lemma HashAtPageEnd(gas: int)
    requires gas >= WordsCost(128)
    ensures var a := TouchRange(gas, [], 4095, 1);
      a.ok && |a.memory| == GrownCapacity(PAGE_SIZE, |a.memory|) && Low64(4095) + 32 > |a.memory|
  {
  }

  /** The check of MCOPY: for the larger of two 256-bit operands, although the copy uses their low 64 bits. */
  function TouchMove(gas: int, memory: seq<byte>, dst: Word, src: Word, size: Word): Access {
    TouchRange(gas, memory, if dst < src then src else dst, size)
  }

  /** It covers both ranges as long as both operands are below 2^64. */
  lemma MoveCovered(gas: int, memory: seq<byte>, dst: Word, src: Word, size: Word)
    requires |memory| % WORD_SIZE == 0 && TouchMove(gas, memory, dst, src, size).ok && size != 0
    requires dst < TWO_64 && src < TWO_64
    ensures var n := |TouchMove(gas, memory, dst, src, size).memory|;
      Low64(dst) + Low64(size) <= n && Low64(src) + Low64(size) <= n
  {
    hide Touch, Low64, WordsCost, WordsOf;
    LowValues(dst);
    LowValues(src);
    TouchCorrect(gas, memory, if dst < src then src else dst, Low64(size));
  }

  /** Otherwise it need not: a destination of 2^64 passes as offset 0, whatever the source. */
  lemma MoveUncovered(gas: int, src: Word)
    requires gas >= WordsCost(1) && WORD_SIZE <= src < TWO_64
    ensures var a := TouchMove(gas, [], TWO_64, src, 1); a.ok && Low64(src) + 1 > |a.memory|
  {
  }
}
