/**
 The engine's own consistency checks, each stated as the condition under
 which it does not throw, and the proof that every valid book passes all of
 them.
 */
module EngineChecks {
  import opened Orders
  import opened SideBook
  import opened OrderBook
  import opened Invariants

  /** The side has a level keyed by price `p`. */
  predicate HasLevel(levels: seq<Level>, p: nat) {
    exists i :: 0 <= i < |levels| && levels[i].price == p
  }

  /** checkForCrossedBook: with both sides present, the best ask must be above the best bid. */
  predicate PassesCrossedBookCheck(b: Book) {
    !(|b.bids| > 0 && |b.asks| > 0 && b.asks[0].price <= b.bids[0].price)
  }

  /** checkForFindersConsistency: whichever side has a level at an entry's price must hold that id there. */
  predicate PassesFindersConsistencyCheck(b: Book) {
    forall id :: id in b.locator ==>
      && (HasLevel(b.bids, b.locator[id].price) ==> id in IdSeq(OrdersAt(b.bids, b.locator[id].price)))
      && (HasLevel(b.asks, b.locator[id].price) ==> id in IdSeq(OrdersAt(b.asks, b.locator[id].price)))
  }

  /** checkForBadFinders: no locator entry names a price at which neither side has a level. */
  predicate PassesBadFindersCheck(b: Book) {
    forall id :: id in b.locator ==> HasLevel(b.bids, b.locator[id].price) || HasLevel(b.asks, b.locator[id].price)
  }

  /** checkBookAndAddIds on one side: every order in every level has a locator entry carrying that level's price. */
  predicate FindersCoverSide(locator: map<string, Locus>, levels: seq<Level>) {
    forall i, o :: 0 <= i < |levels| && o in levels[i].orders ==> o.id in locator && locator[o.id].price == levels[i].price
  }

  /** checkFullFinderConsistency: both sides covered (its final pass re-tests ids it already found). */
  predicate PassesFullFinderCheck(b: Book) {
    FindersCoverSide(b.locator, b.bids) && FindersCoverSide(b.locator, b.asks)
  }

  predicate NoZeroSize(levels: seq<Level>) {
    forall i, o :: 0 <= i < |levels| && o in levels[i].orders ==> o.qty != 0
  }

  /** checkForZeroSizeOrders: no resting order on either side has quantity zero. */
  predicate PassesZeroSizeCheck(b: Book) {
    NoZeroSize(b.bids) && NoZeroSize(b.asks)
  }

  predicate PassesAllChecks(b: Book) {
    && PassesCrossedBookCheck(b)
    && PassesFindersConsistencyCheck(b)
    && PassesBadFindersCheck(b)
    && PassesFullFinderCheck(b)
    && PassesZeroSizeCheck(b)
  }

  // ---------------------------------------------------------------------------

  lemma {:induction false} InLevelInFlatten(levels: seq<Level>, i: nat, o: Order)
    requires i < |levels| && o in levels[i].orders
    ensures o in Flatten(levels)
  {
    if i > 0 {
      InLevelInFlatten(levels[1..], i - 1, o);
    }
  }

  lemma {:induction false} OrdersAtHasLevel(levels: seq<Level>, p: nat)
    requires |OrdersAt(levels, p)| > 0
    ensures HasLevel(levels, p)
  {
    if levels[0].price != p {
      OrdersAtHasLevel(levels[1..], p);
      var i :| 0 <= i < |levels[1..]| && levels[1..][i].price == p;
      assert levels[i + 1].price == p;
    }
  }

  /** In an uncrossed book every bid level is priced below every ask level, so no price has a level on both sides. */
  lemma NoSharedPrice(b: Book)
    requires Valid(b)
    ensures forall p :: HasLevel(b.bids, p) ==> !HasLevel(b.asks, p)
  {
    assert SideOk(b, Buy) && SideOk(b, Sell);
    forall i, j | 0 <= i < |b.bids| && 0 <= j < |b.asks| ensures b.bids[i].price < b.asks[j].price {
      assert AtLeastAsGood(Buy, b.bids[0].price, b.bids[i].price);
      assert AtLeastAsGood(Sell, b.asks[0].price, b.asks[j].price);
    }
  }

  lemma SideCovered(b: Book, s: Side)
    requires Consistent(b)
    ensures FindersCoverSide(b.locator, Levels(b, s)) && NoZeroSize(Levels(b, s))
  {
    assert SideOk(b, s);
    var levels := Levels(b, s);
    forall i, o | 0 <= i < |levels| && o in levels[i].orders
      ensures o.id in b.locator && b.locator[o.id].price == levels[i].price && o.qty != 0
    {
      assert LevelOk(s, levels[i]);
      InLevelInFlatten(levels, i, o);
    }
  }

  lemma LocatorEntryChecks(b: Book, id: string)
    requires Valid(b) && id in b.locator
    ensures HasLevel(b.bids, b.locator[id].price) ==> id in IdSeq(OrdersAt(b.bids, b.locator[id].price))
    ensures HasLevel(b.asks, b.locator[id].price) ==> id in IdSeq(OrdersAt(b.asks, b.locator[id].price))
    ensures HasLevel(b.bids, b.locator[id].price) || HasLevel(b.asks, b.locator[id].price)
  {
    var loc := b.locator[id];
    LocatorFindsOrder(b, id);
    OrdersAtHasLevel(Levels(b, loc.side), loc.price);
    NoSharedPrice(b);
  }

  /** Every valid book passes all five of the engine's consistency checks. */
  lemma ValidPassesEngineChecks(b: Book)
    requires Valid(b)
    ensures PassesAllChecks(b)
  {
    forall id | id in b.locator
      ensures HasLevel(b.bids, b.locator[id].price) ==> id in IdSeq(OrdersAt(b.bids, b.locator[id].price))
      ensures HasLevel(b.asks, b.locator[id].price) ==> id in IdSeq(OrdersAt(b.asks, b.locator[id].price))
      ensures HasLevel(b.bids, b.locator[id].price) || HasLevel(b.asks, b.locator[id].price)
    {
      LocatorEntryChecks(b, id);
    }
    SideCovered(b, Buy);
    SideCovered(b, Sell);
  }
}
