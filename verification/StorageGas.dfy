/**
 * SSTORE metering: the cost tables per revision, the storage status of a write, and what a whole sequence
 * of writes costs. Under net metering gas less refund depends only on the first and last values of each slot.
 */
module StorageGas {
  import opened Bytes
  import opened Opcodes

  const COLD_SLOAD_COST := 2100
  const WARM_STORAGE_READ_COST := 100
  const CALL_STIPEND_SENTRY := 2300

  datatype StorageCostSpec = StorageCostSpec(netCost: bool, warmAccess: int, set_: int, reset: int, clear: int)

  function CostSpec(rev: Revision): StorageCostSpec {
    match rev
    case Constantinople => StorageCostSpec(true, 200, 20000, 5000, 15000)
    case Istanbul => StorageCostSpec(true, 800, 20000, 5000, 15000)
    case Berlin => StorageCostSpec(true, WARM_STORAGE_READ_COST, 20000, 5000 - COLD_SLOAD_COST, 15000)
    case _ =>
      if Order(rev) >= Order(London) then
        StorageCostSpec(true, WARM_STORAGE_READ_COST, 20000, 5000 - COLD_SLOAD_COST, 4800)
      else StorageCostSpec(false, 200, 20000, 5000, 15000)
  }

  // ---------------------------------------------------------------- the status of a write

  datatype StorageStatus =
    | Assigned | Added | Deleted | Modified | DeletedAdded | ModifiedDeleted | DeletedRestored | AddedDeleted
    | ModifiedRestored

  /** The status of changing a slot of original value o from c to v. */
  function Classify(o: Word, c: Word, v: Word): StorageStatus {
    if c == v then Assigned
    else if o == c then
      if c == 0 then Added else if v == 0 then Deleted else Modified
    else if o == 0 then
      if v == 0 then AddedDeleted else Assigned
    else if c == 0 then
      if v == o then DeletedRestored else DeletedAdded
    else if v == 0 then ModifiedDeleted
    else if v == o then ModifiedRestored
    else Assigned
  }

  /** `VMHost::set_storage`: a missing slot reports a deletion, a present one only equality. */
  function HostStatus(stored: Option<Word>, v: Word): StorageStatus {
    match stored
    case None => Deleted
    case Some(c) => if c == v then Assigned else Modified
  }

  /** The host's three statuses agree with the classification only for unchanged values and clean modifications. */
  lemma HostStatusExact(o: Word, stored: Option<Word>, v: Word)
    ensures var c := if stored.Some? then stored.value else 0;
      HostStatus(stored, v) == Classify(o, c, v) <==> stored.Some? && (c == v || (o == c && c != 0 && v != 0))
  {
  }

  // ---------------------------------------------------------------- the cost table

  datatype StoreCost = StoreCost(gasCost: int, gasRefund: int)

  function SstoreCost(rev: Revision, status: StorageStatus): StoreCost {
    var c := CostSpec(rev);
    if !c.netCost then
      match status
      case Added => StoreCost(c.set_, 0)
      case Deleted => StoreCost(c.reset, c.clear)
      case Modified => StoreCost(c.reset, 0)
      case Assigned => StoreCost(c.reset, 0)
      case DeletedAdded => StoreCost(c.set_, 0)
      case ModifiedDeleted => StoreCost(c.reset, c.clear)
      case DeletedRestored => StoreCost(c.set_, 0)
      case AddedDeleted => StoreCost(c.reset, c.clear)
      case ModifiedRestored => StoreCost(c.reset, 0)
    else
      match status
      case Assigned => StoreCost(c.warmAccess, 0)
      case Added => StoreCost(c.set_, 0)
      case Deleted => StoreCost(c.reset, c.clear)
      case Modified => StoreCost(c.reset, 0)
      case DeletedAdded => StoreCost(c.warmAccess, -c.clear)
      case ModifiedDeleted => StoreCost(c.warmAccess, c.clear)
      case DeletedRestored => StoreCost(c.warmAccess, c.reset - c.warmAccess - c.clear)
      case AddedDeleted => StoreCost(c.warmAccess, c.set_ - c.warmAccess)
      case ModifiedRestored => StoreCost(c.warmAccess, c.reset - c.warmAccess)
  }

  /** The `int16_t` entries of the tables lose nothing. */
  lemma FitsInt16(rev: Revision, status: StorageStatus)
    ensures -0x8000 <= SstoreCost(rev, status).gasCost < 0x8000
    ensures -0x8000 <= SstoreCost(rev, status).gasRefund < 0x8000
    ensures SstoreCost(rev, status).gasCost > 0
  {
  }

  // ---------------------------------------------------------------- one write

  /** Metered storage: gas, refund counter and current values. */
  datatype Meter = Meter(gas: int, refund: int, current: seq<Word>)

  /** One SSTORE, with the host's answer to whether the slot is cold. */
  datatype Write = Write(slot: nat, value: Word, cold: bool)

  function ColdCost(rev: Revision, cold: bool): int {
    if Order(rev) >= Order(Berlin) && cold then COLD_SLOAD_COST else 0
  }

  /** A successful SSTORE; None where it runs out of gas. */
  function Store(rev: Revision, original: seq<Word>, m: Meter, w: Write): Option<Meter>
    requires w.slot < |m.current| == |original|
  {
    if Order(rev) >= Order(Istanbul) && m.gas <= CALL_STIPEND_SENTRY then None
    else
      var cost := SstoreCost(rev, Classify(original[w.slot], m.current[w.slot], w.value));
      var gas := m.gas - (cost.gasCost + ColdCost(rev, w.cold));
      if gas < 0 then None
      else Some(Meter(gas, m.refund + cost.gasRefund, m.current[w.slot := w.value]))
  }

  /** What a slot has cost so far beyond its warm accesses: a function of the original and current value. */
  function Potential(rev: Revision, o: Word, c: Word): int {
    var s := CostSpec(rev);
    if c == o then 0
    else if o == 0 then s.set_ - s.warmAccess
    else if c == 0 then s.reset - s.warmAccess - s.clear
    else s.reset - s.warmAccess
  }

  /** One write moves the potential by exactly what it charges less what it refunds and the warm access. */
  lemma WriteMovesPotential(rev: Revision, o: Word, c: Word, v: Word)
    requires CostSpec(rev).netCost
    ensures var cost := SstoreCost(rev, Classify(o, c, v));
      cost.gasCost - cost.gasRefund == CostSpec(rev).warmAccess + Potential(rev, o, v) - Potential(rev, o, c)
  {
    hide CostSpec;
  }

  /** Refund held in reserve against restoring a deleted slot. */
  function Reserve(rev: Revision, o: Word, c: Word): int {
    if o != 0 && c == 0 then CostSpec(rev).clear else 0
  }

  lemma RefundCoversReserve(rev: Revision, o: Word, c: Word, v: Word)
    ensures SstoreCost(rev, Classify(o, c, v)).gasRefund >= Reserve(rev, o, v) - Reserve(rev, o, c)
  {
  }

  // ---------------------------------------------------------------- prices in plain numbers

  /** What the first write to a cold slot costs with its surcharge. */
  function FirstWrite(rev: Revision, o: Word, v: Word): StoreCost {
    var c := SstoreCost(rev, Classify(o, o, v));
    StoreCost(c.gasCost + ColdCost(rev, true), c.gasRefund)
  }

  /**
   * Before Berlin, making a slot costs 20000 and changing or clearing one 5000; from Berlin on a cold access adds
   * 2100 to the former and is part of the latter. Clearing gives back 15000, from London on 4800.
   */
  lemma FirstWritePrices(rev: Revision, o: Word, v: Word)
    ensures o == 0 && v != 0 ==>
      FirstWrite(rev, o, v) == StoreCost(if Order(rev) >= Order(Berlin) then 22100 else 20000, 0)
    ensures o != 0 && v != 0 && v != o ==> FirstWrite(rev, o, v) == StoreCost(5000, 0)
    ensures o != 0 && v == 0 ==>
      FirstWrite(rev, o, v) == StoreCost(5000, if Order(rev) >= Order(London) then 4800 else 15000)
    ensures v == o ==>
      FirstWrite(rev, o, v) == StoreCost(
        if Order(rev) >= Order(Berlin) then 2200 else if rev == Istanbul then 800
        else if rev == Constantinople then 200 else 5000, 0)
  {
  }

  /** Under net metering a further change of a slot costs a warm access: 200, 800, or 100 from Berlin on. */
  lemma LaterWritePrices(rev: Revision, o: Word, c: Word, v: Word)
    requires CostSpec(rev).netCost && o != c
    ensures SstoreCost(rev, Classify(o, c, v)).gasCost ==
      if rev == Constantinople then 200 else if rev == Istanbul then 800 else 100
    ensures Order(rev) >= Order(London) && v == o && c != v ==>
      SstoreCost(rev, Classify(o, c, v)).gasRefund ==
        if o == 0 then 19900 else if c == 0 then 2800 - 4800 else 2800
  {
  }

  /** Without net metering: 20000 to fill an empty slot, else 5000, and 15000 back for emptying a full one. */
  lemma PlainPrices(rev: Revision, o: Word, c: Word, v: Word)
    requires !CostSpec(rev).netCost
    ensures SstoreCost(rev, Classify(o, c, v)) ==
      StoreCost(if c == 0 && v != 0 then 20000 else 5000, if c != 0 && v == 0 then 15000 else 0)
  {
  }

  /** Net metering holds in Constantinople and from Istanbul on. */
  lemma NetMetered(rev: Revision)
    ensures CostSpec(rev).netCost <==> rev == Constantinople || Order(rev) >= Order(Istanbul)
  {
  }

  /** A write goes through exactly if there is more than the sentry of 2300 left from Istanbul on, and enough to pay. */
  lemma StoreExact(rev: Revision, original: seq<Word>, m: Meter, w: Write)
    requires w.slot < |m.current| == |original|
    ensures var cost := SstoreCost(rev, Classify(original[w.slot], m.current[w.slot], w.value));
      var bill := cost.gasCost + if w.cold && Order(rev) >= Order(Berlin) then 2100 else 0;
      && (Store(rev, original, m, w).Some? <==> (Order(rev) >= Order(Istanbul) ==> m.gas > 2300) && m.gas >= bill)
      && (Store(rev, original, m, w).Some? ==>
            var e := Store(rev, original, m, w).value;
            && m.gas - e.gas == bill && e.refund - m.refund == cost.gasRefund
            && e.current == m.current[w.slot := w.value])
  {
    hide SstoreCost, Classify;
  }

  // ---------------------------------------------------------------- any sequence of writes to any slots

  predicate WritesInside(writes: seq<Write>, n: nat) {
    forall i :: 0 <= i < |writes| ==> writes[i].slot < n
  }

  /** All the writes in order, if gas suffices. */
  function StoreAll(rev: Revision, original: seq<Word>, m: Meter, writes: seq<Write>): (r: Option<Meter>)
    requires |m.current| == |original| && WritesInside(writes, |original|)
    ensures r.Some? ==> |r.value.current| == |original|
  {
    if writes == [] then Some(m)
    else
      var last := |writes| - 1;
      match StoreAll(rev, original, m, writes[..last])
      case None => None
      case Some(m') => Store(rev, original, m', writes[last])
  }

  ghost function SumPotential(rev: Revision, original: seq<Word>, current: seq<Word>): int
    requires |original| == |current|
  {
    if original == [] then 0
    else
      var last := |original| - 1;
      SumPotential(rev, original[..last], current[..last]) + Potential(rev, original[last], current[last])
  }

  ghost function SumReserve(rev: Revision, original: seq<Word>, current: seq<Word>): int
    requires |original| == |current|
  {
    if original == [] then 0
    else
      var last := |original| - 1;
      SumReserve(rev, original[..last], current[..last]) + Reserve(rev, original[last], current[last])
  }

  lemma {:induction false} PotentialUpdate(rev: Revision, original: seq<Word>, current: seq<Word>, i: nat, v: Word)
    requires i < |original| == |current|
    ensures SumPotential(rev, original, current[i := v])
         == SumPotential(rev, original, current)
            + Potential(rev, original[i], v) - Potential(rev, original[i], current[i])
  {
    hide Potential;
    var last := |original| - 1;
    if i == last {
      assert current[i := v][..last] == current[..last];
    } else {
      PotentialUpdate(rev, original[..last], current[..last], i, v);
      assert current[i := v][..last] == current[..last][i := v];
    }
  }

  lemma {:induction false} ReserveUpdate(rev: Revision, original: seq<Word>, current: seq<Word>, i: nat, v: Word)
    requires i < |original| == |current|
    ensures SumReserve(rev, original, current[i := v])
         == SumReserve(rev, original, current) + Reserve(rev, original[i], v) - Reserve(rev, original[i], current[i])
  {
    hide Reserve;
    var last := |original| - 1;
    if i == last {
      assert current[i := v][..last] == current[..last];
    } else {
      ReserveUpdate(rev, original[..last], current[..last], i, v);
      assert current[i := v][..last] == current[..last][i := v];
    }
  }

  lemma {:induction false} NothingHeld(rev: Revision, original: seq<Word>)
    ensures SumPotential(rev, original, original) == 0
    ensures SumReserve(rev, original, original) == 0
  {
    if original != [] { NothingHeld(rev, original[..|original| - 1]); }
  }

  lemma {:induction false} ReserveNonNegative(rev: Revision, original: seq<Word>, current: seq<Word>)
    requires |original| == |current|
    ensures SumReserve(rev, original, current) >= 0
  {
    if original != [] {
      var last := |original| - 1;
      ReserveNonNegative(rev, original[..last], current[..last]);
    }
  }

  /** The surcharges for the writes that the host calls cold. */
  function ColdTotal(rev: Revision, writes: seq<Write>): int {
    if writes == [] then 0
    else var last := |writes| - 1; ColdTotal(rev, writes[..last]) + ColdCost(rev, writes[last].cold)
  }

  /** A host that answers cold every time: each write pays the surcharge from Berlin on. */
  lemma {:induction false} AlwaysCold(rev: Revision, writes: seq<Write>)
    requires forall i :: 0 <= i < |writes| ==> writes[i].cold
    ensures ColdTotal(rev, writes) == |writes| * ColdCost(rev, true)
  {
    if writes != [] {
      var last := |writes| - 1;
      AlwaysCold(rev, writes[..last]);
      OneMore(last, ColdCost(rev, true));
    }
  }

  ghost function Slots(writes: seq<Write>): set<nat> {
    set i | 0 <= i < |writes| :: writes[i].slot
  }

  /** A host that warms a slot at its first access: the surcharge is paid once for each slot. */
  lemma {:induction false} ColdOnce(rev: Revision, writes: seq<Write>)
    requires forall i :: 0 <= i < |writes| ==> (writes[i].cold <==> writes[i].slot !in Slots(writes[..i]))
    ensures ColdTotal(rev, writes) == |Slots(writes)| * ColdCost(rev, true)
  {
    hide Slots;
    if writes == [] {
      NoSlots();
    } else {
      var last := |writes| - 1;
      var rest := writes[..last];
      assert forall i :: 0 <= i < last ==> rest[..i] == writes[..i];
      ColdOnce(rev, rest);
      MoreSlots(writes);
      var slot := writes[last].slot;
      if slot in Slots(rest) {
        assert Slots(rest) + {slot} == Slots(rest);
      }
      OneMore(|Slots(rest)|, ColdCost(rev, true));
    }
  }

  lemma NoSlots()
    ensures Slots([]) == {}
  {
  }

  lemma MoreSlots(writes: seq<Write>)
    requires writes != []
    ensures Slots(writes) == Slots(writes[..|writes| - 1]) + {writes[|writes| - 1].slot}
  {
    var last := |writes| - 1;
    forall x | x in Slots(writes[..last]) + {writes[last].slot}
      ensures x in Slots(writes)
    {
      if x != writes[last].slot {
        var i :| 0 <= i < last && writes[..last][i].slot == x;
        assert writes[i].slot == x;
      }
    }
  }

  /**
   * Net metering telescopes over any interleaving of writes to any slots: gas spent less refund gained is
   * the warm cost of every write, the cold surcharges, and a potential of the original and final values.
   */
  lemma {:induction false} NetMeteringTelescopes(rev: Revision, original: seq<Word>, m: Meter, writes: seq<Write>)
    requires CostSpec(rev).netCost && |m.current| == |original| && WritesInside(writes, |original|)
    requires StoreAll(rev, original, m, writes).Some?
    ensures var e := StoreAll(rev, original, m, writes).value;
      (m.gas - e.gas) - (e.refund - m.refund)
      == |writes| * CostSpec(rev).warmAccess + ColdTotal(rev, writes)
         + SumPotential(rev, original, e.current) - SumPotential(rev, original, m.current)
  {
    hide CostSpec, SstoreCost, Classify, Potential, SumPotential, ColdCost;
    if writes != [] {
      var last := |writes| - 1;
      NetMeteringTelescopes(rev, original, m, writes[..last]);
      var m' := StoreAll(rev, original, m, writes[..last]).value;
      var w := writes[last];
      WriteMovesPotential(rev, original[w.slot], m'.current[w.slot], w.value);
      PotentialUpdate(rev, original, m'.current, w.slot, w.value);
      OneMore(last, CostSpec(rev).warmAccess);
    }
  }

  lemma OneMore(n: nat, x: int)
    ensures (n + 1) * x == n * x + x
  {
  }

  /** From a clean start the bill depends on the number of writes, the cold ones, and the final values. */
  lemma FinalValuesDecide(rev: Revision, original: seq<Word>, m: Meter, writes: seq<Write>)
    requires CostSpec(rev).netCost && m.current == original && WritesInside(writes, |original|)
    requires StoreAll(rev, original, m, writes).Some?
    ensures var e := StoreAll(rev, original, m, writes).value;
      (m.gas - e.gas) - (e.refund - m.refund)
      == |writes| * CostSpec(rev).warmAccess + ColdTotal(rev, writes) + SumPotential(rev, original, e.current)
  {
    hide CostSpec, ColdTotal;
    NetMeteringTelescopes(rev, original, m, writes);
    NothingHeld(rev, original);
  }

  /** Under the repository's host, which always answers cold: no order of k writes beats another. */
  lemma ColdHostBill(rev: Revision, original: seq<Word>, m: Meter, writes: seq<Write>)
    requires CostSpec(rev).netCost && m.current == original && WritesInside(writes, |original|)
    requires forall i :: 0 <= i < |writes| ==> writes[i].cold
    requires StoreAll(rev, original, m, writes).Some?
    ensures var e := StoreAll(rev, original, m, writes).value;
      (m.gas - e.gas) - (e.refund - m.refund)
      == |writes| * (CostSpec(rev).warmAccess + ColdCost(rev, true)) + SumPotential(rev, original, e.current)
  {
    hide *;
    FinalValuesDecide(rev, original, m, writes);
    AlwaysCold(rev, writes);
    Distributes(|writes|, CostSpec(rev).warmAccess, ColdCost(rev, true));
  }

  lemma Distributes(n: nat, x: int, y: int)
    ensures n * (x + y) == n * x + n * y
  {
  }

  /** The refund counter never goes below zero, in any revision and after any writes. */
  lemma {:induction false} RefundNonNegative(rev: Revision, original: seq<Word>, m: Meter, writes: seq<Write>)
    requires m.current == original && m.refund >= 0 && WritesInside(writes, |original|)
    requires StoreAll(rev, original, m, writes).Some?
    ensures var e := StoreAll(rev, original, m, writes).value;
      e.refund >= m.refund + SumReserve(rev, original, e.current) >= m.refund
  {
    hide CostSpec, SstoreCost, Classify, Reserve, SumReserve, ColdCost;
    NothingHeld(rev, original);
    if writes != [] {
      var last := |writes| - 1;
      RefundNonNegative(rev, original, m, writes[..last]);
      var m' := StoreAll(rev, original, m, writes[..last]).value;
      var w := writes[last];
      RefundCoversReserve(rev, original[w.slot], m'.current[w.slot], w.value);
      ReserveUpdate(rev, original, m'.current, w.slot, w.value);
    }
    ReserveNonNegative(rev, original, StoreAll(rev, original, m, writes).value.current);
  }

  // ---------------------------------------------------------------- the instruction in place

  datatype StoreResult = Stored | StaticModeViolation | OutOfStorageGas

  class StorageMeter {
    const rev: Revision
    const staticMode: bool
    const original: seq<Word>
    var gasLeft: int
    var gasRefund: int
    var current: seq<Word>

    function Abs(): Meter
      reads this
    {
      Meter(gasLeft, gasRefund, current)
    }

    constructor (rev: Revision, staticMode: bool, original: seq<Word>, gas: int)
      ensures this.rev == rev && this.staticMode == staticMode && this.original == original
      ensures Abs() == Meter(gas, 0, original)
    {
      this.rev, this.staticMode, this.original := rev, staticMode, original;
      gasLeft, gasRefund, current := gas, 0, original;
    }

    /** `sstore`: the host has taken the value before the gas check can fail. `cold` is the host's answer. */
    method SStore(slot: nat, value: Word, cold: bool) returns (r: StoreResult)
      requires slot < |current| == |original|
      modifies this
      ensures r == Stored <==> !staticMode && Store(rev, original, old(Abs()), Write(slot, value, cold)).Some?
      ensures r == Stored ==> Store(rev, original, old(Abs()), Write(slot, value, cold)) == Some(Abs())
      ensures r == StaticModeViolation <==> staticMode
      ensures staticMode ==> Abs() == old(Abs())
      ensures r != Stored ==> gasRefund == old(gasRefund)
      ensures r == OutOfStorageGas ==>
        if Order(rev) >= Order(Istanbul) && old(gasLeft) <= CALL_STIPEND_SENTRY then Abs() == old(Abs())
        else gasLeft < 0 && current == old(current)[slot := value]
    {
      if staticMode {
        return StaticModeViolation;
      }
      if Order(rev) >= Order(Istanbul) && gasLeft <= CALL_STIPEND_SENTRY {
        return OutOfStorageGas;
      }
      var gasCostCold := if Order(rev) >= Order(Berlin) && cold then COLD_SLOAD_COST else 0;
      var cost := SstoreCost(rev, Classify(original[slot], current[slot], value));
      current := current[slot := value];
      gasLeft := gasLeft - (cost.gasCost + gasCostCold);
      if gasLeft < 0 {
        return OutOfStorageGas;
      }
      gasRefund := gasRefund + cost.gasRefund;
      return Stored;
    }
  }
}
