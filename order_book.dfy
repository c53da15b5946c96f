/**
 * OrderBook: two sides, each a pair of parallel `long[]` arrays (prices and
 * quantities) and a count of active levels. Bids are kept highest price
 * first, asks lowest price first; a new level is placed by binary search and
 * the tail is shifted up with `System.arraycopy`. A full side doubles its
 * arrays with `Arrays.copyOf`. Entries past the count are stale and ignored.
 */
module OrderBooks {
  import opened Int64
  import opened Outcomes
  import opened PriceLevels

  const INITIAL_CAPACITY: nat := 100
  const GROWTH_FACTOR: nat := 2

  /** `IndexOutOfBoundsException` from a level getter, with the level asked for. */
  datatype LevelError = InvalidBidLevel(level: int) | InvalidAskLevel(level: int)

  /** `System.arraycopy(src, srcPos, dst, dstPos, length)`: every target slot receives
      the source slot's value from before the copy, so overlapping ranges of one
      array shift correctly. */
  method ArrayCopy(src: array<Long>, srcPos: nat, dst: array<Long>, dstPos: nat, length: nat)
    requires srcPos + length <= src.Length && dstPos + length <= dst.Length
    modifies dst
    ensures forall k :: 0 <= k < dst.Length ==>
      dst[k] == if dstPos <= k < dstPos + length then old(src[srcPos + k - dstPos]) else old(dst[k])
  {
    forall k | dstPos <= k < dstPos + length {
      dst[k] := src[srcPos + k - dstPos];
    }
  }

  /** `Arrays.copyOf(a, n)` for `n >= a.Length`: a new array with `a`'s elements
      followed by zeros. */
  method CopyOf(a: array<Long>, n: nat) returns (r: array<Long>)
    requires n >= a.Length
    ensures fresh(r) && r.Length == n
    ensures r[..a.Length] == a[..]
    ensures forall k :: a.Length <= k < n ==> r[k] == 0
  {
    r := new Long[n](_ => 0);
    forall k | 0 <= k < a.Length {
      r[k] := a[k];
    }
  }

  /** The shift and store of `addBid` / `addAsk` on one array: the `count` active
      elements with `x` placed at `pos` and the tail moved up by one slot. */
  method InsertAt(a: array<Long>, count: nat, pos: nat, x: Long)
    requires pos <= count < a.Length
    modifies a
    ensures a[..count + 1] == Insert(old(a[..count]), pos, x)
  {
    if pos < count {
      ArrayCopy(a, pos, a, pos + 1, count - pos);
    }
    a[pos] := x;
    assert forall k :: 0 <= k < count + 1 ==> a[..count + 1][k] == Insert(old(a[..count]), pos, x)[k];
  }

  /** The shift of `removeTopBid` / `removeTopAsk` on one array: the `count` active
      elements without the first, moved down by one slot. */
  method ShiftDown(a: array<Long>, count: nat)
    requires 0 < count <= a.Length
    modifies a
    ensures a[..count - 1] == old(a[..count])[1..]
  {
    ArrayCopy(a, 1, a, 0, count - 1);
    assert forall k :: 0 <= k < count - 1 ==> a[..count - 1][k] == old(a[..count])[1..][k];
  }

  class OrderBook {
    var bidPrices: array<Long>
    var bidQuantities: array<Long>
    var bidCount: nat
    var askPrices: array<Long>
    var askQuantities: array<Long>
    var askCount: nat

    /** Four distinct arrays, parallel per side, never smaller than the initial
        capacity, the counts within them, and each side in its price order. */
    ghost predicate Valid()
      reads this, bidPrices, askPrices
    {
      && bidPrices != bidQuantities && askPrices != askQuantities
      && bidPrices != askPrices && bidPrices != askQuantities
      && bidQuantities != askPrices && bidQuantities != askQuantities
      && bidQuantities.Length == bidPrices.Length >= INITIAL_CAPACITY
      && askQuantities.Length == askPrices.Length >= INITIAL_CAPACITY
      && bidCount <= bidPrices.Length && askCount <= askPrices.Length
      && NonIncreasing(bidPrices[..bidCount])
      && NonDecreasing(askPrices[..askCount])
    }

    /** The active bid prices, best first. */
    ghost function BidPriceLevels(): seq<Long>
      reads this, bidPrices
      requires bidCount <= bidPrices.Length
    {
      bidPrices[..bidCount]
    }

    /** The active bid quantities; entry `i` belongs to bid price `i`. */
    ghost function BidQuantityLevels(): seq<Long>
      reads this, bidQuantities
      requires bidCount <= bidQuantities.Length
    {
      bidQuantities[..bidCount]
    }

    ghost function AskPriceLevels(): seq<Long>
      reads this, askPrices
      requires askCount <= askPrices.Length
    {
      askPrices[..askCount]
    }

    ghost function AskQuantityLevels(): seq<Long>
      reads this, askQuantities
      requires askCount <= askQuantities.Length
    {
      askQuantities[..askCount]
    }

    constructor ()
      ensures Valid()
      ensures fresh(bidPrices) && fresh(bidQuantities) && fresh(askPrices) && fresh(askQuantities)
      ensures bidPrices.Length == INITIAL_CAPACITY && askPrices.Length == INITIAL_CAPACITY
      ensures BidPriceLevels() == [] && BidQuantityLevels() == []
      ensures AskPriceLevels() == [] && AskQuantityLevels() == []
    {
      bidPrices := new Long[INITIAL_CAPACITY](_ => 0);
      bidQuantities := new Long[INITIAL_CAPACITY](_ => 0);
      bidCount := 0;
      askPrices := new Long[INITIAL_CAPACITY](_ => 0);
      askQuantities := new Long[INITIAL_CAPACITY](_ => 0);
      askCount := 0;
    }

    // -------------------------------------------------------------------------
    // Capacity

    /** A full bid side is reallocated at twice the length; every element, active
        or stale, keeps its index. Afterwards there is room for one more level. */
    method EnsureBidCapacity()
      requires Valid()
      modifies this
      ensures Valid()
      ensures bidCount == old(bidCount) && bidCount < bidPrices.Length
      ensures bidPrices.Length
           == if old(bidCount) >= old(bidPrices.Length) then GROWTH_FACTOR * old(bidPrices.Length) else old(bidPrices.Length)
      ensures old(bidCount) < old(bidPrices.Length) ==> bidPrices == old(bidPrices) && bidQuantities == old(bidQuantities)
      ensures old(bidCount) >= old(bidPrices.Length) ==> fresh(bidPrices) && fresh(bidQuantities)
      ensures bidPrices[..old(bidPrices.Length)] == old(bidPrices[..])
      ensures bidQuantities[..old(bidQuantities.Length)] == old(bidQuantities[..])
      ensures BidPriceLevels() == old(BidPriceLevels()) && BidQuantityLevels() == old(BidQuantityLevels())
      ensures askPrices == old(askPrices) && askQuantities == old(askQuantities) && askCount == old(askCount)
    {
      if bidCount >= bidPrices.Length {
        var newCapacity := bidPrices.Length * GROWTH_FACTOR;
        bidPrices := CopyOf(bidPrices, newCapacity);
        bidQuantities := CopyOf(bidQuantities, newCapacity);
        assert bidPrices[..bidCount] == old(bidPrices[..bidCount]);
        assert bidQuantities[..bidCount] == old(bidQuantities[..bidCount]);
      }
    }

    method EnsureAskCapacity()
      requires Valid()
      modifies this
      ensures Valid()
      ensures askCount == old(askCount) && askCount < askPrices.Length
      ensures askPrices.Length
           == if old(askCount) >= old(askPrices.Length) then GROWTH_FACTOR * old(askPrices.Length) else old(askPrices.Length)
      ensures old(askCount) < old(askPrices.Length) ==> askPrices == old(askPrices) && askQuantities == old(askQuantities)
      ensures old(askCount) >= old(askPrices.Length) ==> fresh(askPrices) && fresh(askQuantities)
      ensures askPrices[..old(askPrices.Length)] == old(askPrices[..])
      ensures askQuantities[..old(askQuantities.Length)] == old(askQuantities[..])
      ensures AskPriceLevels() == old(AskPriceLevels()) && AskQuantityLevels() == old(AskQuantityLevels())
      ensures bidPrices == old(bidPrices) && bidQuantities == old(bidQuantities) && bidCount == old(bidCount)
    {
      if askCount >= askPrices.Length {
        var newCapacity := askPrices.Length * GROWTH_FACTOR;
        askPrices := CopyOf(askPrices, newCapacity);
        askQuantities := CopyOf(askQuantities, newCapacity);
        assert askPrices[..askCount] == old(askPrices[..askCount]);
        assert askQuantities[..askCount] == old(askQuantities[..askCount]);
      }
    }

    // -------------------------------------------------------------------------
    // Binary search

    /** The first bid level whose price is not above `price`. */
    method FindBidInsertPosition(price: Long) returns (pos: nat)
      requires Valid()
      ensures pos == BidSlot(BidPriceLevels(), price)
    {
      var left, right := 0, bidCount;
      while left < right
        invariant 0 <= left <= right <= bidCount
        invariant forall j :: 0 <= j < left ==> bidPrices[j] > price
        invariant forall j :: right <= j < bidCount ==> bidPrices[j] <= price
      {
        var mid := (left + right) / 2;
        if bidPrices[mid] > price {
          assert forall j :: 0 <= j < mid ==> bidPrices[..bidCount][j] >= bidPrices[..bidCount][mid];
          left := mid + 1;
        } else {
          assert forall j :: mid < j < bidCount ==> bidPrices[..bidCount][mid] >= bidPrices[..bidCount][j];
          right := mid;
        }
      }
      BidSlotUnique(BidPriceLevels(), price, left);
      pos := left;
    }

    /** The first ask level whose price is not below `price`. */
    method FindAskInsertPosition(price: Long) returns (pos: nat)
      requires Valid()
      ensures pos == AskSlot(AskPriceLevels(), price)
    {
      var left, right := 0, askCount;
      while left < right
        invariant 0 <= left <= right <= askCount
        invariant forall j :: 0 <= j < left ==> askPrices[j] < price
        invariant forall j :: right <= j < askCount ==> askPrices[j] >= price
      {
        var mid := (left + right) / 2;
        if askPrices[mid] < price {
          assert forall j :: 0 <= j < mid ==> askPrices[..askCount][j] <= askPrices[..askCount][mid];
          left := mid + 1;
        } else {
          assert forall j :: mid < j < askCount ==> askPrices[..askCount][mid] <= askPrices[..askCount][j];
          right := mid;
        }
      }
      AskSlotUnique(AskPriceLevels(), price, left);
      pos := left;
    }

    // -------------------------------------------------------------------------
    // Adding and removing levels

    /** Inserts the pair at the bid slot of its price, before any level of equal
        price; the ask side is untouched. */
    method AddBid(priceScaled: Long, quantityScaled: Long)
      requires Valid()
      modifies this, bidPrices, bidQuantities
      ensures Valid()
      ensures bidCount == old(bidCount) + 1
      ensures var k := BidSlot(old(BidPriceLevels()), priceScaled);
        && BidPriceLevels() == Insert(old(BidPriceLevels()), k, priceScaled)
        && BidQuantityLevels() == Insert(old(BidQuantityLevels()), k, quantityScaled)
      ensures multiset(BidPriceLevels()) == multiset(old(BidPriceLevels())) + multiset{priceScaled}
      ensures bidPrices.Length
           == if old(bidCount) == old(bidPrices.Length) then GROWTH_FACTOR * old(bidPrices.Length) else old(bidPrices.Length)
      ensures old(bidCount) < old(bidPrices.Length) ==> bidPrices == old(bidPrices) && bidQuantities == old(bidQuantities)
      ensures old(bidCount) == old(bidPrices.Length) ==> fresh(bidPrices) && fresh(bidQuantities)
      ensures askPrices == old(askPrices) && askQuantities == old(askQuantities) && askCount == old(askCount)
      ensures askPrices[..] == old(askPrices[..]) && askQuantities[..] == old(askQuantities[..])
    {
      EnsureBidCapacity();
      var insertPos := FindBidInsertPosition(priceScaled);
      ghost var prices, quantities := BidPriceLevels(), BidQuantityLevels();
      assert prices == old(BidPriceLevels()) && quantities == old(BidQuantityLevels());
      InsertAt(bidPrices, bidCount, insertPos, priceScaled);
      InsertAt(bidQuantities, bidCount, insertPos, quantityScaled);
      bidCount := bidCount + 1;
      assert BidPriceLevels() == Insert(prices, insertPos, priceScaled);
      assert BidQuantityLevels() == Insert(quantities, insertPos, quantityScaled);
      InsertBidSorted(prices, priceScaled);
      InsertMultiset(prices, insertPos, priceScaled);
    }

    /** Inserts the pair at the ask slot of its price, before any level of equal
        price; the bid side is untouched. */
    method AddAsk(priceScaled: Long, quantityScaled: Long)
      requires Valid()
      modifies this, askPrices, askQuantities
      ensures Valid()
      ensures askCount == old(askCount) + 1
      ensures var k := AskSlot(old(AskPriceLevels()), priceScaled);
        && AskPriceLevels() == Insert(old(AskPriceLevels()), k, priceScaled)
        && AskQuantityLevels() == Insert(old(AskQuantityLevels()), k, quantityScaled)
      ensures multiset(AskPriceLevels()) == multiset(old(AskPriceLevels())) + multiset{priceScaled}
      ensures askPrices.Length
           == if old(askCount) == old(askPrices.Length) then GROWTH_FACTOR * old(askPrices.Length) else old(askPrices.Length)
      ensures old(askCount) < old(askPrices.Length) ==> askPrices == old(askPrices) && askQuantities == old(askQuantities)
      ensures old(askCount) == old(askPrices.Length) ==> fresh(askPrices) && fresh(askQuantities)
      ensures bidPrices == old(bidPrices) && bidQuantities == old(bidQuantities) && bidCount == old(bidCount)
      ensures bidPrices[..] == old(bidPrices[..]) && bidQuantities[..] == old(bidQuantities[..])
    {
      EnsureAskCapacity();
      var insertPos := FindAskInsertPosition(priceScaled);
      ghost var prices, quantities := AskPriceLevels(), AskQuantityLevels();
      assert prices == old(AskPriceLevels()) && quantities == old(AskQuantityLevels());
      InsertAt(askPrices, askCount, insertPos, priceScaled);
      InsertAt(askQuantities, askCount, insertPos, quantityScaled);
      askCount := askCount + 1;
      assert AskPriceLevels() == Insert(prices, insertPos, priceScaled);
      assert AskQuantityLevels() == Insert(quantities, insertPos, quantityScaled);
      InsertAskSorted(prices, priceScaled);
      InsertMultiset(prices, insertPos, priceScaled);
    }

    /** Drops the best bid level, moving every other level up by one; an empty side
        is left as it is. */
    method RemoveTopBid()
      requires Valid()
      modifies this, bidPrices, bidQuantities
      ensures Valid()
      ensures bidPrices == old(bidPrices) && bidQuantities == old(bidQuantities)
      ensures old(bidCount) == 0 ==> bidCount == 0 && bidPrices[..] == old(bidPrices[..]) && bidQuantities[..] == old(bidQuantities[..])
      ensures old(bidCount) > 0 ==>
        && bidCount == old(bidCount) - 1
        && BidPriceLevels() == old(BidPriceLevels())[1..]
        && BidQuantityLevels() == old(BidQuantityLevels())[1..]
      ensures askPrices == old(askPrices) && askQuantities == old(askQuantities) && askCount == old(askCount)
      ensures askPrices[..] == old(askPrices[..]) && askQuantities[..] == old(askQuantities[..])
    {
      if bidCount > 0 {
        ghost var prices := bidPrices[..bidCount];
        ShiftDown(bidPrices, bidCount);
        ShiftDown(bidQuantities, bidCount);
        bidCount := bidCount - 1;
        RemoveFirstSorted(prices);
      }
    }

    /** Drops the best ask level, moving every other level up by one; an empty side
        is left as it is. */
    method RemoveTopAsk()
      requires Valid()
      modifies this, askPrices, askQuantities
      ensures Valid()
      ensures askPrices == old(askPrices) && askQuantities == old(askQuantities)
      ensures old(askCount) == 0 ==> askCount == 0 && askPrices[..] == old(askPrices[..]) && askQuantities[..] == old(askQuantities[..])
      ensures old(askCount) > 0 ==>
        && askCount == old(askCount) - 1
        && AskPriceLevels() == old(AskPriceLevels())[1..]
        && AskQuantityLevels() == old(AskQuantityLevels())[1..]
      ensures bidPrices == old(bidPrices) && bidQuantities == old(bidQuantities) && bidCount == old(bidCount)
      ensures bidPrices[..] == old(bidPrices[..]) && bidQuantities[..] == old(bidQuantities[..])
    {
      if askCount > 0 {
        ghost var prices := askPrices[..askCount];
        ShiftDown(askPrices, askCount);
        ShiftDown(askQuantities, askCount);
        askCount := askCount - 1;
        RemoveFirstSorted(prices);
      }
    }

    /** Empties both sides; the arrays and their contents stay as they are. */
    method Clear()
      requires Valid()
      modifies this
      ensures Valid()
      ensures bidCount == 0 && askCount == 0
      ensures bidPrices == old(bidPrices) && bidQuantities == old(bidQuantities)
      ensures askPrices == old(askPrices) && askQuantities == old(askQuantities)
      ensures bidPrices[..] == old(bidPrices[..]) && bidQuantities[..] == old(bidQuantities[..])
      ensures askPrices[..] == old(askPrices[..]) && askQuantities[..] == old(askQuantities[..])
    {
      bidCount := 0;
      askCount := 0;
    }

    // -------------------------------------------------------------------------
    // Queries

    /** The highest bid price, or 0 for an empty bid side. */
    function BestBidPrice(): (r: Long)
      requires Valid()
      reads this, bidPrices, askPrices
      ensures bidCount == 0 ==> r == 0
      ensures bidCount > 0 ==> r in BidPriceLevels() && forall j :: 0 <= j < bidCount ==> bidPrices[j] <= r
    {
      if bidCount == 0 then 0
      else
        BestIsExtreme(bidPrices[..bidCount]);
        bidPrices[0]
    }

    /** The lowest ask price, or 0 for an empty ask side. */
    function BestAskPrice(): (r: Long)
      requires Valid()
      reads this, bidPrices, askPrices
      ensures askCount == 0 ==> r == 0
      ensures askCount > 0 ==> r in AskPriceLevels() && forall j :: 0 <= j < askCount ==> askPrices[j] >= r
    {
      if askCount == 0 then 0
      else
        BestIsExtreme(askPrices[..askCount]);
        askPrices[0]
    }

    /** Best ask minus best bid (wrapping like `long` subtraction), or 0 when either
        side is empty. */
    function Spread(): (r: Long)
      requires Valid()
      reads this, bidPrices, askPrices
      ensures bidCount == 0 || askCount == 0 ==> r == 0
      ensures bidCount > 0 && askCount > 0 ==> (r - (BestAskPrice() - BestBidPrice())) % MODULUS == 0
      ensures bidCount > 0 && askCount > 0 && InRange(BestAskPrice() - BestBidPrice()) ==> r == BestAskPrice() - BestBidPrice()
    {
      if bidCount == 0 || askCount == 0 then 0 else Wrap((askPrices[0] as int) - bidPrices[0])
    }

    /** The number of active bid levels. */
    function BidCount(): (r: nat)
      requires Valid()
      reads this, bidPrices, askPrices
      ensures r == |BidPriceLevels()| && r <= bidPrices.Length
    {
      bidCount
    }

    /** The number of active ask levels. */
    function AskCount(): (r: nat)
      requires Valid()
      reads this, bidPrices, askPrices
      ensures r == |AskPriceLevels()| && r <= askPrices.Length
    {
      askCount
    }

    /** The `long` sum of the active bid quantities; stale slots are not read. */
    method TotalBidVolume() returns (total: Long)
      requires Valid()
      ensures total == Wrap(Sum(BidQuantityLevels()))
      ensures InRange(Sum(BidQuantityLevels())) ==> total == Sum(BidQuantityLevels())
    {
      total := 0;
      var i := 0;
      while i < bidCount
        invariant 0 <= i <= bidCount
        invariant total == Wrap(Sum(bidQuantities[..i]))
      {
        assert bidQuantities[..i + 1][..i] == bidQuantities[..i];
        WrapAdd(Sum(bidQuantities[..i]), bidQuantities[i]);
        total := Wrap(total + bidQuantities[i]);
        i := i + 1;
      }
    }

    /** The `long` sum of the active ask quantities; stale slots are not read. */
    method TotalAskVolume() returns (total: Long)
      requires Valid()
      ensures total == Wrap(Sum(AskQuantityLevels()))
      ensures InRange(Sum(AskQuantityLevels())) ==> total == Sum(AskQuantityLevels())
    {
      total := 0;
      var i := 0;
      while i < askCount
        invariant 0 <= i <= askCount
        invariant total == Wrap(Sum(askQuantities[..i]))
      {
        assert askQuantities[..i + 1][..i] == askQuantities[..i];
        WrapAdd(Sum(askQuantities[..i]), askQuantities[i]);
        total := Wrap(total + askQuantities[i]);
        i := i + 1;
      }
    }

    /** The price at a bid level (0 is the best), failing outside the active levels. */
    function BidPriceAtLevel(level: int): (r: Result<Long, LevelError>)
      requires Valid()
      reads this, bidPrices, askPrices
      ensures r.Failure? <==> level < 0 || level >= bidCount
      ensures r.Failure? ==> r.error == InvalidBidLevel(level)
      ensures r.Success? ==> r.value == BidPriceLevels()[level]
    {
      if level < 0 || level >= bidCount then Failure(InvalidBidLevel(level)) else Success(bidPrices[level])
    }

    function AskPriceAtLevel(level: int): (r: Result<Long, LevelError>)
      requires Valid()
      reads this, bidPrices, askPrices
      ensures r.Failure? <==> level < 0 || level >= askCount
      ensures r.Failure? ==> r.error == InvalidAskLevel(level)
      ensures r.Success? ==> r.value == AskPriceLevels()[level]
    {
      if level < 0 || level >= askCount then Failure(InvalidAskLevel(level)) else Success(askPrices[level])
    }

    function BidQuantityAtLevel(level: int): (r: Result<Long, LevelError>)
      requires Valid()
      reads this, bidPrices, askPrices, bidQuantities
      ensures r.Failure? <==> level < 0 || level >= bidCount
      ensures r.Failure? ==> r.error == InvalidBidLevel(level)
      ensures r.Success? ==> r.value == BidQuantityLevels()[level]
    {
      if level < 0 || level >= bidCount then Failure(InvalidBidLevel(level)) else Success(bidQuantities[level])
    }

    function AskQuantityAtLevel(level: int): (r: Result<Long, LevelError>)
      requires Valid()
      reads this, bidPrices, askPrices, askQuantities
      ensures r.Failure? <==> level < 0 || level >= askCount
      ensures r.Failure? ==> r.error == InvalidAskLevel(level)
      ensures r.Success? ==> r.value == AskQuantityLevels()[level]
    {
      if level < 0 || level >= askCount then Failure(InvalidAskLevel(level)) else Success(askQuantities[level])
    }
  }
}
