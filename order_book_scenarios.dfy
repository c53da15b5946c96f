/**
 * Concrete runs of the order book: the ordering, spread, volume, removal,
 * duplicate-price and clear-and-reuse behaviour, each derived from the
 * contracts of `OrderBooks.OrderBook` alone.
 */
module OrderBookScenarios {
  import opened Int64
  import opened Outcomes
  import opened PriceLevels
  import opened OrderBooks

  /** Bids at 100, 105 and 95 are held best first: 105, 100, 95. */
  method BidOrdering() returns (count: nat, best: Long, levels: seq<Long>)
    ensures count == 3 && best == 10500000
    ensures levels == [10500000, 10000000, 9500000]
  {
    var book := new OrderBook();
    book.AddBid(10000000, 1000);
    book.AddBid(10500000, 500);
    book.AddBid(9500000, 750);
    count := book.BidCount();
    best := book.BestBidPrice();
    levels := [book.BidPriceAtLevel(0).value, book.BidPriceAtLevel(1).value, book.BidPriceAtLevel(2).value];
  }

  /** Asks at 110, 105 and 115 are held best first: 105, 110, 115. */
  method AskOrdering() returns (count: nat, best: Long, levels: seq<Long>)
    ensures count == 3 && best == 10500000
    ensures levels == [10500000, 11000000, 11500000]
  {
    var book := new OrderBook();
    book.AddAsk(11000000, 1000);
    book.AddAsk(10500000, 500);
    book.AddAsk(11500000, 750);
    count := book.AskCount();
    best := book.BestAskPrice();
    levels := [book.AskPriceAtLevel(0).value, book.AskPriceAtLevel(1).value, book.AskPriceAtLevel(2).value];
  }

  /** Best bid 100 and best ask 105 give a spread of 5; an empty book gives 0. */
  method SpreadExample() returns (empty: Long, spread: Long)
    ensures empty == 0 && spread == 500000
  {
    var book := new OrderBook();
    empty := book.Spread();
    book.AddBid(10000000, 1000);
    book.AddAsk(10500000, 500);
    spread := book.Spread();
  }

  /** Three bid quantities sum to the side's volume; the empty ask side has none. */
  method VolumeExample() returns (bids: Long, asks: Long)
    ensures bids == 2250 && asks == 0
  {
    var book := new OrderBook();
    book.AddBid(10000000, 1000);
    book.AddBid(9950000, 500);
    book.AddBid(9900000, 750);
    var levels := [book.BidQuantityAtLevel(0).value, book.BidQuantityAtLevel(1).value, book.BidQuantityAtLevel(2).value];
    assert levels == [1000, 500, 750];
    SumOfThree(book.BidQuantityLevels());
    bids := book.TotalBidVolume();
    asks := book.TotalAskVolume();
  }

  lemma SumOfThree(q: seq<int>)
    requires |q| == 3
    ensures Sum(q) == q[0] + q[1] + q[2]
  {
    assert q[..2][..1] == [q[0]];
    SumSingleton(q[0]);
  }

  /** Removing the top bid promotes the next one; removing from an empty side is harmless. */
  method RemoveTopExample() returns (count: nat, best: Long, asks: nat)
    ensures count == 1 && best == 10000000 && asks == 0
  {
    var book := new OrderBook();
    book.AddBid(10500000, 500);
    book.AddBid(10000000, 1000);
    book.RemoveTopBid();
    book.RemoveTopAsk();
    count := book.BidCount();
    best := book.BestBidPrice();
    asks := book.AskCount();
  }

  /** A second bid at an existing price is a separate level placed before the first one. */
  method DuplicatePrice() returns (count: nat, first: Long, second: Long)
    ensures count == 2 && first == 500 && second == 1000
  {
    var book := new OrderBook();
    book.AddBid(10000000, 1000);
    book.AddBid(10000000, 500);
    count := book.BidCount();
    first := book.BidQuantityAtLevel(0).value;
    second := book.BidQuantityAtLevel(1).value;
  }

  /** After `clear` both sides are empty, level reads fail, and a new bid is the only level. */
  method ClearAndReuse() returns (cleared: nat, stale: Result<Long, LevelError>, count: nat, best: Long)
    ensures cleared == 0 && stale == Failure(InvalidBidLevel(0))
    ensures count == 1 && best == 9900000
  {
    var book := new OrderBook();
    book.AddBid(10000000, 1000);
    book.AddBid(9950000, 500);
    book.AddAsk(10500000, 1000);
    book.Clear();
    cleared := book.BidCount() + book.AskCount();
    stale := book.BidPriceAtLevel(0);
    book.AddBid(9900000, 100);
    count := book.BidCount();
    best := book.BestBidPrice();
  }
}
