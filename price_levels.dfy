/**
 * The abstract contents of one side of the order book: the active prices (and,
 * index for index, their quantities) as sequences, the slot a new price is
 * inserted at, and the sum the volume getters compute.
 */
module PriceLevels {

  /** Bid side order: highest price first. */
  ghost predicate NonIncreasing(s: seq<int>)
  {
    forall i, j :: 0 <= i < j < |s| ==> s[i] >= s[j]
  }

  /** Ask side order: lowest price first. */
  ghost predicate NonDecreasing(s: seq<int>)
  {
    forall i, j :: 0 <= i < j < |s| ==> s[i] <= s[j]
  }

  /** `s` with `x` placed at index `i` and the tail moved up by one. */
  function Insert<T>(s: seq<T>, i: nat, x: T): (r: seq<T>)
    requires i <= |s|
    ensures |r| == |s| + 1 && r[i] == x
    ensures forall k :: 0 <= k < i ==> r[k] == s[k]
    ensures forall k :: i < k < |r| ==> r[k] == s[k - 1]
  {
    s[..i] + [x] + s[i..]
  }

  /** Where a bid at `price` goes: the first level whose price is not above it. */
  function BidSlot(s: seq<int>, price: int): (k: nat)
    ensures k <= |s|
    ensures forall j :: 0 <= j < k ==> s[j] > price
    ensures k < |s| ==> s[k] <= price
  {
    if s == [] || s[0] <= price then 0 else 1 + BidSlot(s[1..], price)
  }

  /** Where an ask at `price` goes: the first level whose price is not below it. */
  function AskSlot(s: seq<int>, price: int): (k: nat)
    ensures k <= |s|
    ensures forall j :: 0 <= j < k ==> s[j] < price
    ensures k < |s| ==> s[k] >= price
  {
    if s == [] || s[0] >= price then 0 else 1 + AskSlot(s[1..], price)
  }

  /** The mathematical sum of the quantities, left to right. */
  function Sum(s: seq<int>): int
  {
    if s == [] then 0 else Sum(s[..|s| - 1]) + s[|s| - 1]
  }

  // ---------------------------------------------------------------------------
  // Properties

  /** On a sorted bid side every level from the slot on is at or below the price, so a
      new bid lands before all levels of equal price. */
  lemma BidSlotSplits(s: seq<int>, price: int)
    requires NonIncreasing(s)
    ensures forall j :: BidSlot(s, price) <= j < |s| ==> s[j] <= price
  {
  }

  lemma AskSlotSplits(s: seq<int>, price: int)
    requires NonDecreasing(s)
    ensures forall j :: AskSlot(s, price) <= j < |s| ==> s[j] >= price
  {
  }

  /** The slot is the only index with everything before it above the price and
      the level at it not above: what the binary search establishes. */
  lemma BidSlotUnique(s: seq<int>, price: int, k: nat)
    requires k <= |s|
    requires forall j :: 0 <= j < k ==> s[j] > price
    requires k < |s| ==> s[k] <= price
    ensures BidSlot(s, price) == k
  {
  }

  lemma AskSlotUnique(s: seq<int>, price: int, k: nat)
    requires k <= |s|
    requires forall j :: 0 <= j < k ==> s[j] < price
    requires k < |s| ==> s[k] >= price
    ensures AskSlot(s, price) == k
  {
  }

  /** Inserting a bid at its slot keeps the bid side sorted. */
  lemma InsertBidSorted(s: seq<int>, price: int)
    requires NonIncreasing(s)
    ensures NonIncreasing(Insert(s, BidSlot(s, price), price))
  {
    var k := BidSlot(s, price);
    var r := Insert(s, k, price);
    BidSlotSplits(s, price);
    forall i, j | 0 <= i < j < |r| ensures r[i] >= r[j] {
      if j < k {
      } else if j == k {
      } else if i < k {
        assert s[i] >= s[j - 1];
      } else if i == k {
        assert s[j - 1] <= price;
      } else {
        assert s[i - 1] >= s[j - 1];
      }
    }
  }

  /** Inserting an ask at its slot keeps the ask side sorted. */
  lemma InsertAskSorted(s: seq<int>, price: int)
    requires NonDecreasing(s)
    ensures NonDecreasing(Insert(s, AskSlot(s, price), price))
  {
    var k := AskSlot(s, price);
    var r := Insert(s, k, price);
    AskSlotSplits(s, price);
    forall i, j | 0 <= i < j < |r| ensures r[i] <= r[j] {
      if j < k {
      } else if j == k {
      } else if i < k {
        assert s[i] <= s[j - 1];
      } else if i == k {
        assert s[j - 1] >= price;
      } else {
        assert s[i - 1] <= s[j - 1];
      }
    }
  }

  /** An insertion adds exactly one element and loses none. */
  lemma InsertMultiset<T>(s: seq<T>, i: nat, x: T)
    requires i <= |s|
    ensures multiset(Insert(s, i, x)) == multiset(s) + multiset{x}
  {
    assert s == s[..i] + s[i..];
  }

  /** Dropping the best level loses exactly that level. */
  lemma RemoveFirstMultiset<T>(s: seq<T>)
    requires s != []
    ensures multiset(s[1..]) == multiset(s) - multiset{s[0]}
  {
    assert s == [s[0]] + s[1..];
  }

  /** Dropping the best level keeps a side sorted. */
  lemma RemoveFirstSorted(s: seq<int>)
    requires s != []
    ensures NonIncreasing(s) ==> NonIncreasing(s[1..])
    ensures NonDecreasing(s) ==> NonDecreasing(s[1..])
  {
    if NonIncreasing(s) {
      forall i, j | 0 <= i < j < |s| - 1 ensures s[1..][i] >= s[1..][j] {
        assert s[1..][i] == s[i + 1] && s[1..][j] == s[j + 1];
      }
    }
    if NonDecreasing(s) {
      forall i, j | 0 <= i < j < |s| - 1 ensures s[1..][i] <= s[1..][j] {
        assert s[1..][i] == s[i + 1] && s[1..][j] == s[j + 1];
      }
    }
  }

  /** The best level of a sorted side is its extreme price. */
  lemma BestIsExtreme(s: seq<int>)
    requires s != []
    ensures NonIncreasing(s) ==> forall j :: 0 <= j < |s| ==> s[j] <= s[0]
    ensures NonDecreasing(s) ==> forall j :: 0 <= j < |s| ==> s[j] >= s[0]
  {
    if NonIncreasing(s) {
      forall j | 0 < j < |s| ensures s[j] <= s[0] { }
    }
    if NonDecreasing(s) {
      forall j | 0 < j < |s| ensures s[j] >= s[0] { }
    }
  }

  lemma {:induction false} SumConcat(a: seq<int>, b: seq<int>)
    ensures Sum(a + b) == Sum(a) + Sum(b)
  {
    if b != [] {
      assert (a + b)[..|a + b| - 1] == a + b[..|b| - 1];
      SumConcat(a, b[..|b| - 1]);
    } else {
      assert a + b == a;
    }
  }

  /** Adding a level raises the side's volume by exactly its quantity. */
  lemma {:induction false} SumInsert(s: seq<int>, i: nat, x: int)
    requires i <= |s|
    ensures Sum(Insert(s, i, x)) == Sum(s) + x
  {
    var t := Insert(s, i, x);
    if i == |s| {
      assert t[..|t| - 1] == s;
    } else {
      var init := s[..|s| - 1];
      assert t[..|t| - 1] == Insert(init, i, x);
      SumInsert(init, i, x);
    }
  }

  lemma SumSingleton(x: int)
    ensures Sum([x]) == x
  {
    assert [x][..0] == [];
  }

  /** Removing the best level lowers the side's volume by exactly its quantity. */
  lemma SumRemoveFirst(s: seq<int>)
    requires s != []
    ensures Sum(s[1..]) == Sum(s) - s[0]
  {
    SumConcat([s[0]], s[1..]);
    assert [s[0]] + s[1..] == s;
    SumSingleton(s[0]);
  }
}
