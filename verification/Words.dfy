/**
 * Big-endian byte strings and 256-bit words: the limb-wise load behind PUSH, and the memory
 * encoding behind MLOAD and MSTORE.
 */
module Words {
  import opened Bytes

  /** 256 to the power n. */
  function Pow256(n: nat): (p: nat)
    ensures p > 0
  {
    if n == 0 then 1 else 256 * Pow256(n - 1)
  }

  lemma PowAdd(a: nat, b: nat)
    ensures Pow256(a + b) == Pow256(a) * Pow256(b)
  {
    if a > 0 {
      PowAdd(a - 1, b);
      var x, y := Pow256(a - 1), Pow256(b);
      assert 256 * (x * y) == (256 * x) * y;
    }
  }

  lemma PowOne()
    ensures Pow256(1) == 256
  {
  }

  lemma PowValues()
    ensures Pow256(8) == TWO_64 && Pow256(32) == TWO_256
  {
    hide Pow256;
    PowOne();
    PowAdd(1, 1);
    PowAdd(2, 2);
    PowAdd(4, 4);
    PowAdd(8, 8);
    PowAdd(16, 16);
  }

  /** The big-endian value of a byte string. */
  function FromBytes(s: seq<byte>): (v: nat)
    ensures v < Pow256(|s|)
  {
    if s == [] then 0 else FromBytes(s[..|s| - 1]) * 256 + s[|s| - 1]
  }

  /** The n low bytes of v, most significant first. */
  function ToBytes(v: nat, n: nat): (s: seq<byte>)
    ensures |s| == n
  {
    if n == 0 then [] else ToBytes(v / 256, n - 1) + [v % 256]
  }

  function WordFromBytes(s: seq<byte>): (w: Word)
    requires |s| <= 32
    ensures w == FromBytes(s)
  {
    PowMonotone(|s|, 32);
    PowValues();
    FromBytes(s)
  }

  lemma {:induction false} PowMonotone(a: nat, b: nat)
    requires a <= b
    ensures Pow256(a) <= Pow256(b)
    decreases b
  {
    if a < b { PowMonotone(a, b - 1); }
  }

  // ---------------------------------------------------------------- encoding round trips

  lemma {:induction false} LoadStored(v: nat, n: nat)
    ensures FromBytes(ToBytes(v, n)) == v % Pow256(n)
  {
    if n > 0 {
      var s := ToBytes(v, n);
      assert s[..n - 1] == ToBytes(v / 256, n - 1);
      LoadStored(v / 256, n - 1);
      ModSplit(v, Pow256(n - 1));
    }
  }

  lemma ModSplit(v: nat, p: nat)
    requires p > 0
    ensures v % (256 * p) == (v / 256) % p * 256 + v % 256
  {
    var q, r := v / 256, v % 256;
    var q2, r2 := q / p, q % p;
    assert v == (q2 * p + r2) * 256 + r;
    assert (q2 * p + r2) * 256 + r == q2 * (256 * p) + (r2 * 256 + r) by {
      assert (q2 * p) * 256 == q2 * (256 * p);
    }
    RemainderUnique(v, 256 * p, q2, r2 * 256 + r);
  }

  lemma Euclid(v: nat, m: nat)
    requires m > 0
    ensures v == (v / m) * m + v % m && v % m < m
  {
  }

  lemma RemainderUnique(v: nat, m: nat, q: nat, r: nat)
    requires m > 0 && v == q * m + r && r < m
    ensures v % m == r && v / m == q
  {
    var q', r' := v / m, v % m;
    assert v == q' * m + r';
    if q < q' { Gap(m, q, q'); }
    if q' < q { Gap(m, q', q); }
  }

  lemma {:induction false} Gap(m: nat, x: nat, y: nat)
    requires x < y
    ensures x * m + m <= y * m
    decreases y
  {
    if x < y - 1 { Gap(m, x, y - 1); }
    assert (y - 1) * m + m == y * m;
  }

  lemma {:induction false} StoreLoaded(s: seq<byte>)
    ensures ToBytes(FromBytes(s), |s|) == s
  {
    if s != [] {
      var v, last := FromBytes(s), s[|s| - 1];
      RemainderUnique(v, 256, FromBytes(s[..|s| - 1]), last);
      StoreLoaded(s[..|s| - 1]);
    }
  }

  /** `state.memory` after an n-byte big-endian store of v at addr. */
  function StoreAt(memory: seq<byte>, addr: nat, v: nat, n: nat): (m: seq<byte>)
    requires addr + n <= |memory|
    ensures |m| == |memory|
  {
    memory[..addr] + ToBytes(v, n) + memory[addr + n..]
  }

  /** A 256-bit store followed by a load at the same address gives the word back and touches no other byte. */
  lemma MemoryRoundTrip(memory: seq<byte>, addr: nat, w: Word)
    requires addr + 32 <= |memory|
    ensures var m := StoreAt(memory, addr, w, 32);
      && WordFromBytes(m[addr..addr + 32]) == w
      && forall i :: 0 <= i < |m| && !(addr <= i < addr + 32) ==> m[i] == memory[i]
  {
    hide FromBytes, ToBytes, Pow256;
    var m := StoreAt(memory, addr, w, 32);
    assert m[addr..addr + 32] == ToBytes(w, 32);
    LoadStored(w, 32);
    PowValues();
  }

  // ---------------------------------------------------------------- push: limb-wise loads

  lemma {:induction false} FromBytesConcat(a: seq<byte>, b: seq<byte>)
    ensures FromBytes(a + b) == FromBytes(a) * Pow256(|b|) + FromBytes(b)
    decreases |b|
  {
    if b == [] {
      assert a + b == a;
    } else {
      var b', last := b[..|b| - 1], b[|b| - 1];
      assert (a + b)[..|a + b| - 1] == a + b';
      FromBytesConcat(a, b');
      Distribute(FromBytes(a), Pow256(|b'|), FromBytes(b'), last);
    }
  }

  lemma Distribute(x: nat, p: nat, y: nat, z: nat)
    ensures (x * p + y) * 256 + z == x * (256 * p) + (y * 256 + z)
  {
    assert (x * p) * 256 == x * (256 * p);
  }

  /** Bytes that `load_partial_data` actually reads for a request of len bytes. */
  function LoadWidth(len: nat): (w: nat)
    requires 1 <= len <= 8
    ensures len <= w <= 8
  {
    if len <= 2 then len else if len <= 4 then 4 else 8
  }

  /** One `load_partial_data`: a full-width load shifted down past the bytes that do not belong to it. */
  function LoadPartial(data: seq<byte>, len: nat): nat
    requires 1 <= len <= 8 && LoadWidth(len) <= |data|
  {
    FromBytes(data[..LoadWidth(len)]) / Pow256(LoadWidth(len) - len)
  }

  /** The over-read bytes never influence the loaded limb. */
  lemma PartialIsExact(data: seq<byte>, len: nat)
    requires 1 <= len <= 8 && LoadWidth(len) <= |data|
    ensures LoadPartial(data, len) == FromBytes(data[..len]) < TWO_64
  {
    var w := LoadWidth(len);
    var a, b := data[..len], data[len..w];
    assert data[..w] == a + b;
    FromBytesConcat(a, b);
    RemainderUnique(FromBytes(data[..w]), Pow256(w - len), FromBytes(a), FromBytes(b));
    PowMonotone(len, 8);
    PowValues();
  }

  /** The word made of four limbs, least significant first. */
  function LimbValue(l: seq<nat>): nat
    requires |l| == 4
  {
    l[0] + TWO_64 * (l[1] + TWO_64 * (l[2] + TWO_64 * l[3]))
  }

  /** The limbs that hold FromBytes(done) in positions from `low` upwards, with zeros below. */
  ghost predicate HighLimbs(l: seq<nat>, low: nat, done: seq<byte>) {
    && |l| == 4 && low <= 4 && (forall i :: 0 <= i < low ==> l[i] == 0)
    && LimbValue(l) == FromBytes(done) * Pow256(8 * low)
  }

  /** Bytes that a push of len data bytes reads: a single partial limb is loaded with whole machine words. */
  function PushReach(len: nat): (reach: nat)
    requires len <= 32
    ensures len <= reach <= 32 && reach <= len + 3
  {
    if 1 <= len < 8 then LoadWidth(len) else len
  }

  lemma EmptyIsZero()
    ensures FromBytes([]) == 0
  {
  }

  /** Only pushes of 3, 5, 6 and 7 bytes read beyond their data. */
  lemma ReachValues(len: nat)
    requires len <= 32
    ensures PushReach(len) == if len == 3 then 4 else if 5 <= len <= 7 then 8 else len
  {
  }

  /**
   * `push<Len>`: a partial load into the top limb, then full loads downwards. The word is the big-endian
   * value of the Len bytes of push data.
   */
  method LoadPushData(data: seq<byte>, len: nat) returns (limbs: seq<nat>)
    requires 1 <= len <= 32 && |data| >= PushReach(len)
    ensures |limbs| == 4 && LimbValue(limbs) == FromBytes(data[..len])
  {
    hide FromBytes, Pow256, LimbValue, LoadPartial;
    var numFullWords, numPartialBytes := len / 8, len % 8;
    limbs := [0, 0, 0, 0];
    var pos := 0;
    if numPartialBytes != 0 {
      PartialIsExact(data, numPartialBytes);
      limbs := limbs[numFullWords := LoadPartial(data, numPartialBytes)];
      pos := numPartialBytes;
      OneLimb(limbs, numFullWords, data[..pos]);
    } else {
      NoLimb(limbs, numFullWords, data[..0]);
    }
    var i := 0;
    while i < numFullWords
      invariant 0 <= i <= numFullWords && pos == numPartialBytes + 8 * i
      invariant HighLimbs(limbs, numFullWords - i, data[..pos])
    {
      var k := numFullWords - 1 - i;
      PartialIsExact(data[pos..], 8);
      var limb := LoadPartial(data[pos..], 8);
      assert data[pos..][..8] == data[pos..pos + 8];
      NextLimb(limbs, k, data[..pos], data[pos..pos + 8], limb);
      assert data[..pos] + data[pos..pos + 8] == data[..pos + 8];
      limbs := limbs[k := limb];
      pos := pos + 8;
      i := i + 1;
    }
    assert Pow256(0) == 1 by { PowZero(); }
  }

  lemma PowZero()
    ensures Pow256(0) == 1
  {
  }

  lemma NoLimb(l: seq<nat>, low: nat, done: seq<byte>)
    requires l == [0, 0, 0, 0] && low <= 4 && done == []
    ensures HighLimbs(l, low, done)
  {
  }

  lemma OneLimb(l: seq<nat>, low: nat, done: seq<byte>)
    requires low < 4 && l == [0, 0, 0, 0][low := FromBytes(done)]
    ensures HighLimbs(l, low, done)
  {
    hide FromBytes, Pow256;
    LimbWeights();
  }

  lemma LimbWeights()
    ensures Pow256(0) == 1 && Pow256(8) == TWO_64
    ensures Pow256(16) == TWO_64 * TWO_64 && Pow256(24) == TWO_64 * TWO_64 * TWO_64
    ensures Pow256(32) == TWO_64 * TWO_64 * TWO_64 * TWO_64
  {
    PowValues();
    PowAdd(8, 8);
    PowAdd(8, 16);
    PowAdd(8, 24);
  }

  lemma NextLimb(l: seq<nat>, k: nat, done: seq<byte>, more: seq<byte>, limb: nat)
    requires k < 4 && HighLimbs(l, k + 1, done) && |more| == 8 && limb == FromBytes(more)
    ensures HighLimbs(l[k := limb], k, done + more)
  {
    hide FromBytes, Pow256, HighLimbs;
    LimbWeights();
    FromBytesConcat(done, more);
    NextLimbValue(l, k, FromBytes(done), limb, FromBytes(done + more), done, done + more);
  }

  /** The same on numbers: the weights are powers of 2^64. */
  lemma NextLimbValue(l: seq<nat>, k: nat, f: nat, limb: nat, all: nat, done: seq<byte>, longer: seq<byte>)
    requires k < 4 && HighLimbs(l, k + 1, done) && f == FromBytes(done)
    requires all == FromBytes(longer) == f * TWO_64 + limb
    ensures HighLimbs(l[k := limb], k, longer)
  {
    hide FromBytes, Pow256;
    LimbWeights();
    if k == 0 {
      assert LimbValue(l) == f * TWO_64;
    } else if k == 1 {
      assert LimbValue(l) == f * (TWO_64 * TWO_64);
    } else if k == 2 {
      assert LimbValue(l) == f * (TWO_64 * TWO_64 * TWO_64);
    } else {
      assert l[0] == l[1] == l[2] == l[3] == 0;
      assert LimbValue(l[3 := limb]) == TWO_64 * TWO_64 * TWO_64 * limb;
    }
  }
}
