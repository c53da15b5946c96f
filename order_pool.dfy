/**
 * OrderPool: a fixed array of pre-built mutable `Order` records handed out
 * and taken back by reference. A record's `inUse` flag says whether it is
 * handed out; the cursor `nextAvailable` gives `acquire` a fast first guess.
 */
module OrderPools {
  import opened Int64
  import opened Outcomes

  /** The seven fields of a record, as one value. */
  datatype OrderState = OrderState(
    orderId: Long, timestamp: Long, priceScaled: Long, quantityScaled: Long,
    isBuy: bool, status: JavaInt, inUse: bool)

  /** A zeroed record that is not handed out: what `new Order()` and `reset` produce. */
  const FREE: OrderState := OrderState(0, 0, 0, 0, false, 0, false)

  /** `IllegalStateException` from `acquire` (it reports the capacity) and
      `IllegalArgumentException` from `release`. */
  datatype PoolError = Exhausted(capacity: nat) | ForeignRecord

  class Order {
    var orderId: Long
    var timestamp: Long
    var priceScaled: Long
    var quantityScaled: Long
    var isBuy: bool
    /** 0 = new, 1 = filled, 2 = cancelled (not enforced). */
    var status: JavaInt
    var inUse: bool

    ghost function State(): OrderState
      reads this
    {
      OrderState(orderId, timestamp, priceScaled, quantityScaled, isBuy, status, inUse)
    }

    constructor ()
      ensures State() == FREE
    {
      orderId, timestamp, priceScaled, quantityScaled := 0, 0, 0, 0;
      isBuy, status, inUse := false, 0, false;
    }

    /** Fills in a new order: the five given fields, status 0 (new), in use. */
    method Set(orderId: Long, timestamp: Long, priceScaled: Long, quantityScaled: Long, isBuy: bool)
      modifies this
      ensures State() == OrderState(orderId, timestamp, priceScaled, quantityScaled, isBuy, 0, true)
    {
      this.orderId := orderId;
      this.timestamp := timestamp;
      this.priceScaled := priceScaled;
      this.quantityScaled := quantityScaled;
      this.isBuy := isBuy;
      this.status := 0;
      this.inUse := true;
    }

    /** Zeroes every field and marks the record free. */
    method Reset()
      modifies this
      ensures State() == FREE
    {
      orderId, timestamp, priceScaled, quantityScaled := 0, 0, 0, 0;
      isBuy, status, inUse := false, 0, false;
    }

    method SetStatus(status: JavaInt)
      modifies this`status
      ensures State() == old(State()).(status := status)
    {
      this.status := status;
    }

    method SetQuantity(quantityScaled: Long)
      modifies this`quantityScaled
      ensures State() == old(State()).(quantityScaled := quantityScaled)
    {
      this.quantityScaled := quantityScaled;
    }
  }

  /** The `inUse` flags of a sequence of records, index for index. */
  ghost function Flags(records: seq<Order>): (flags: seq<bool>)
    reads records
    ensures |flags| == |records|
    ensures forall i :: 0 <= i < |records| ==> flags[i] == records[i].inUse
  {
    if records == [] then [] else Flags(records[..|records| - 1]) + [records[|records| - 1].inUse]
  }

  /** How many flags are set: what `getInUseCount` counts. */
  function CountInUse(flags: seq<bool>): (n: nat)
    ensures n <= |flags|
  {
    if flags == [] then 0 else CountInUse(flags[..|flags| - 1]) + (if flags[|flags| - 1] then 1 else 0)
  }

  /** The lowest free index, if any: the slow path of `acquire`. */
  function FirstFree(flags: seq<bool>): (r: Option<nat>)
    ensures r.None? <==> forall i :: 0 <= i < |flags| ==> flags[i]
    ensures r.Some? ==> r.value < |flags| && !flags[r.value] && forall j :: 0 <= j < r.value ==> flags[j]
  {
    if flags == [] then None
    else if !flags[0] then Some(0)
    else match FirstFree(flags[1..])
      case None => None
      case Some(k) => Some(k + 1)
  }

  /** The index `acquire` hands out: the cursor's record when the cursor is in range
      and that record is free, otherwise the lowest free one. */
  function Chosen(flags: seq<bool>, next: nat): (r: Option<nat>)
    ensures r.None? <==> forall i :: 0 <= i < |flags| ==> flags[i]
    ensures r.Some? ==> r.value < |flags| && !flags[r.value]
    ensures next < |flags| && !flags[next] ==> r == Some(next)
    ensures (next >= |flags| || flags[next]) ==> r == FirstFree(flags)
  {
    if next < |flags| && !flags[next] then Some(next) else FirstFree(flags)
  }

  // ---------------------------------------------------------------------------
  // Properties of the flags

  /** The scan's result is the lowest free index. */
  lemma FirstFreeUnique(flags: seq<bool>, i: nat)
    requires i < |flags| && !flags[i]
    requires forall j :: 0 <= j < i ==> flags[j]
    ensures FirstFree(flags) == Some(i)
  {
  }

  /** Every record is in use exactly when the in-use count reaches the capacity. */
  lemma {:induction false} CountAllInUse(flags: seq<bool>)
    ensures CountInUse(flags) == |flags| <==> forall i :: 0 <= i < |flags| ==> flags[i]
  {
    if flags != [] {
      var init := flags[..|flags| - 1];
      CountAllInUse(init);
      assert forall i :: 0 <= i < |init| ==> init[i] == flags[i];
    }
  }

  /** No record in use means a count of zero. */
  lemma {:induction false} CountNoneInUse(flags: seq<bool>)
    requires forall i :: 0 <= i < |flags| ==> !flags[i]
    ensures CountInUse(flags) == 0
  {
    if flags != [] {
      CountNoneInUse(flags[..|flags| - 1]);
    }
  }

  /** Setting or clearing one flag moves the count by one when the flag changes. */
  lemma {:induction false} CountUpdate(flags: seq<bool>, i: nat, b: bool)
    requires i < |flags|
    ensures CountInUse(flags[i := b]) == CountInUse(flags) - (if flags[i] then 1 else 0) + (if b then 1 else 0)
  {
    var n := |flags| - 1;
    var updated := flags[i := b];
    if i == n {
      assert updated[..n] == flags[..n];
    } else {
      assert updated[..n] == flags[..n][i := b];
      CountUpdate(flags[..n], i, b);
    }
  }

  class OrderPool {
    const pool: array<Order>
    const capacity: nat
    var nextAvailable: nat
    /** The records, fixed at construction. */
    ghost const records: seq<Order>

    /** The array holds `capacity` distinct records, and the cursor never passes
        the capacity. */
    ghost predicate Valid()
      reads this, pool
    {
      && pool.Length == capacity == |records|
      && pool[..] == records
      && nextAvailable <= capacity
      && forall i, j :: 0 <= i < j < capacity ==> records[i] != records[j]
    }

    ghost function InUse(): seq<bool>
      reads this, records
    {
      Flags(records)
    }

    /** A pool of `capacity` new records, all free and zeroed. */
    constructor (capacity: nat)
      ensures Valid()
      ensures this.capacity == capacity && nextAvailable == 0 && fresh(pool)
      ensures forall i :: 0 <= i < capacity ==> fresh(records[i]) && records[i].State() == FREE
      ensures CountInUse(InUse()) == 0
    {
      var made: seq<Order> := [];
      while |made| < capacity
        invariant |made| <= capacity
        invariant forall k :: 0 <= k < |made| ==> fresh(made[k]) && made[k].State() == FREE
        invariant forall k, l :: 0 <= k < l < |made| ==> made[k] != made[l]
      {
        var order := new Order();
        made := made + [order];
      }
      this.capacity := capacity;
      pool := new Order[capacity](k requires 0 <= k < capacity => made[k]);
      records := made;
      nextAvailable := 0;
      new;
      assert pool[..] == made;
      CountNoneInUse(InUse());
    }

    /** Hands out the record `Chosen` picks, marking it in use; the cursor advances
        only on the fast path. When every record is in use nothing changes. Only
        `inUse` flags and the cursor can change. */
    method Acquire() returns (r: Result<Order, PoolError>)
      requires Valid()
      modifies this`nextAvailable, records`inUse
      ensures Valid()
      ensures var pick := Chosen(old(InUse()), old(nextAvailable));
        && (pick.None? ==> r == Failure(Exhausted(capacity)) && nextAvailable == old(nextAvailable) && InUse() == old(InUse()))
        && (pick.Some? ==>
              && r == Success(records[pick.value])
              && InUse() == old(InUse())[pick.value := true]
              && nextAvailable == if pick.value == old(nextAvailable) then old(nextAvailable) + 1 else old(nextAvailable))
      ensures CountInUse(InUse()) == old(CountInUse(InUse())) + (if r.Success? then 1 else 0)
    {
      ghost var flags := InUse();
      if nextAvailable < capacity {
        var order := pool[nextAvailable];
        if !order.inUse {
          order.inUse := true;
          nextAvailable := nextAvailable + 1;
          assert InUse() == flags[old(nextAvailable) := true];
          CountUpdate(flags, old(nextAvailable), true);
          return Success(order);
        }
      }
      assert Chosen(flags, nextAvailable) == FirstFree(flags);
      r := AcquireLowestFree();
    }

    /** The slow path of `acquire`: marks and hands out the lowest free record, or
        fails with the capacity and changes nothing. */
    method AcquireLowestFree() returns (r: Result<Order, PoolError>)
      requires Valid()
      modifies records`inUse
      ensures Valid() && nextAvailable == old(nextAvailable)
      ensures var pick := FirstFree(old(InUse()));
        && (pick.None? ==> r == Failure(Exhausted(capacity)) && InUse() == old(InUse()))
        && (pick.Some? ==> r == Success(records[pick.value]) && InUse() == old(InUse())[pick.value := true])
      ensures CountInUse(InUse()) == old(CountInUse(InUse())) + (if r.Success? then 1 else 0)
    {
      ghost var flags := InUse();
      var i := 0;
      while i < capacity
        invariant 0 <= i <= capacity
        invariant forall k :: 0 <= k < i ==> flags[k]
        invariant InUse() == flags
      {
        if !pool[i].inUse {
          FirstFreeUnique(flags, i);
          pool[i].inUse := true;
          assert InUse() == flags[i := true];
          CountUpdate(flags, i, true);
          return Success(pool[i]);
        }
        i := i + 1;
      }
      return Failure(Exhausted(capacity));
    }

    /** Takes a record back: `null` is ignored, a record of another pool is refused
        and changes nothing, and one of this pool's records (free or not) is zeroed,
        marked free and the cursor is rewound to 0. No other record changes. */
    method Release(order: Order?) returns (r: Result<(), PoolError>)
      requires Valid()
      modifies this`nextAvailable, records
      ensures Valid()
      ensures r.Failure? <==> order != null && order !in records
      ensures r.Failure? ==> r.error == ForeignRecord
      ensures order == null || order !in records ==>
        && nextAvailable == old(nextAvailable)
        && forall i :: 0 <= i < capacity ==> records[i].State() == old(records[i].State())
      ensures order != null && order in records ==>
        && order.State() == FREE && nextAvailable == 0
        && forall i :: 0 <= i < capacity && records[i] != order ==> records[i].State() == old(records[i].State())
      ensures order != null && order in records ==>
        CountInUse(InUse()) == old(CountInUse(InUse())) - (if old(order.inUse) then 1 else 0)
    {
      if order == null {
        return Success(());
      }
      var found, i := Owns(order);
      if !found {
        return Failure(ForeignRecord);
      }
      Free(i);
      forall k | 0 <= k < capacity && records[k] != order
        ensures records[k].State() == old(records[k].State())
      {
        assert k != i;
      }
      return Success(());
    }

    /** The ownership check of `release`: a scan for the record by reference. */
    method Owns(order: Order) returns (found: bool, i: nat)
      requires Valid()
      ensures found <==> order in records
      ensures found ==> i < capacity && records[i] == order
    {
      i := 0;
      while i < capacity && pool[i] != order
        invariant 0 <= i <= capacity
        invariant forall k :: 0 <= k < i ==> pool[k] != order
      {
        i := i + 1;
      }
      found := i < capacity;
    }

    /** The last steps of `release`: record `i` is zeroed and freed, no other record
        changes, and the cursor is rewound to 0. */
    method Free(i: nat)
      requires Valid() && i < capacity
      modifies this`nextAvailable, records[i]
      ensures Valid() && nextAvailable == 0
      ensures records[i].State() == FREE
      ensures forall k :: 0 <= k < capacity && k != i ==> records[k].State() == old(records[k].State())
      ensures CountInUse(InUse()) == old(CountInUse(InUse())) - (if old(records[i].inUse) then 1 else 0)
    {
      ghost var flags := InUse();
      pool[i].Reset();
      forall k | 0 <= k < capacity ensures InUse()[k] == flags[i := false][k] {
        assert k != i ==> records[k] != records[i];
      }
      assert InUse() == flags[i := false];
      CountUpdate(flags, i, false);
      if nextAvailable > 0 {
        nextAvailable := 0;
      }
    }

    /** The number of records in use, counted by a scan. */
    method InUseCount() returns (count: nat)
      requires Valid()
      ensures count == CountInUse(InUse())
    {
      ghost var flags := InUse();
      count := 0;
      var i := 0;
      while i < capacity
        invariant 0 <= i <= capacity
        invariant count == CountInUse(flags[..i])
      {
        assert flags[..i + 1][..i] == flags[..i];
        if pool[i].inUse {
          count := count + 1;
        }
        i := i + 1;
      }
      assert flags[..capacity] == flags;
    }

    /** The free records: in use plus available is always the capacity. */
    method AvailableCount() returns (available: nat)
      requires Valid()
      ensures available + CountInUse(InUse()) == capacity
    {
      var used := InUseCount();
      available := capacity - used;
    }

    function Capacity(): (r: nat)
      requires Valid()
      reads this, pool
      ensures r == pool.Length && r == |records|
    {
      capacity
    }

    /** Exhausted exactly when every record is in use. */
    method IsExhausted() returns (exhausted: bool)
      requires Valid()
      ensures exhausted <==> forall i :: 0 <= i < capacity ==> records[i].inUse
    {
      var available := AvailableCount();
      exhausted := available == 0;
      CountAllInUse(InUse());
    }

    /** Zeroes and frees every record and rewinds the cursor. */
    method ResetAll()
      requires Valid()
      modifies this`nextAvailable, records
      ensures Valid() && nextAvailable == 0
      ensures forall i :: 0 <= i < capacity ==> records[i].State() == FREE
      ensures CountInUse(InUse()) == 0
    {
      var i := 0;
      while i < capacity
        invariant 0 <= i <= capacity
        invariant nextAvailable == old(nextAvailable)
        invariant forall k :: 0 <= k < i ==> records[k].State() == FREE
      {
        pool[i].Reset();
        i := i + 1;
      }
      nextAvailable := 0;
      CountNoneInUse(InUse());
    }
  }

  // ---------------------------------------------------------------------------
  // Scenarios

  /** Acquire A, acquire B, release A: the next acquire hands out A again, because
      the release rewound the cursor to A's slot. */
  method ReuseAfterRelease() returns (a: Order, b: Order, c: Order, inUse: nat)
    ensures a != b && c == a && inUse == 2
  {
    var p := new OrderPool(2);
    var ra := p.Acquire();
    var rb := p.Acquire();
    a, b := p.pool[0], p.pool[1];
    assert ra == Success(a) && rb == Success(b);
    assert a.inUse && a in p.records && CountInUse(p.InUse()) == 2;
    var released := p.Release(a);
    assert CountInUse(p.InUse()) == 1;
    var rc := p.Acquire();
    assert rc == Success(a);
    c := rc.value;
    inUse := p.InUseCount();
  }

  /** With two records in use out of two, `acquire` fails and reports the capacity. */
  method ExhaustionScenario() returns (third: Result<Order, PoolError>, inUse: nat)
    ensures third == Failure(Exhausted(2)) && inUse == 2
  {
    var p := new OrderPool(2);
    var first := p.Acquire();
    var second := p.Acquire();
    third := p.Acquire();
    inUse := p.InUseCount();
  }
}
