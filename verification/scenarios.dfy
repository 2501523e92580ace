/**
 Worked sequences of order-entry events, each evaluated on the model from an
 empty book.
 */
module Scenarios {
  import opened Orders
  import opened SideBook
  import opened Matching
  import opened OrderBook
  import opened Snapshot

  /** A good-for-day buy into an empty book rests; the next sell at its price takes part of it. */
  lemma RestThenPartialFill()
    ensures
      var s1 := Submit(EmptyBook, Order(Buy, "GFD", 10, 200, "order2"));
      var s2 := Submit(s1.book, Order(Sell, "GFD", 10, 100, "order3"));
      && s1.trades == []
      && Print(s1.book) == View([], [Row(10, 200)])
      && s2.trades == [Trade("order2", 10, 100, "order3", 10)]
      && Print(s2.book) == View([], [Row(10, 100)])
  {
    var o2 := Order(Buy, "GFD", 10, 200, "order2");
    var o3 := Order(Sell, "GFD", 10, 100, "order3");
    var s1 := Submit(EmptyBook, o2);
    assert s1.book == Book([Level(10, [o2])], [], map["order2" := Locus(Buy, 10)]);
    var t := Trade("order2", 10, 100, "order3", 10);
    assert MatchLevel(o3, [o2]) == LevelFill(o3.(qty := 0), [o2.(qty := 100)], [], [t]);
    assert MatchSide(o3, s1.book.bids) == SideFill(o3.(qty := 0), [Level(10, [o2.(qty := 100)])], [], [t]);
    var s2 := Submit(s1.book, o3);
    assert s2.book.bids == [Level(10, [o2.(qty := 100)])];
    assert s2.book.asks == [];
    assert Qty([o2.(qty := 100)]) == 100 + Qty([]);
  }

  const Order1 := Order(Buy, "GFD", 11, 100, "order1")
  const Order2 := Order(Buy, "GFD", 10, 200, "order2")

  /** Two good-for-day bids at different prices rest best price first. */
  lemma TwoBidsRest()
    ensures Submit(Submit(EmptyBook, Order1).book, Order2) ==
      Step(Book([Level(11, [Order1]), Level(10, [Order2])], [], map["order1" := Locus(Buy, 11), "order2" := Locus(Buy, 10)]), [])
  {
    var s1 := Submit(EmptyBook, Order1);
    assert s1.book == Book([Level(11, [Order1])], [], map["order1" := Locus(Buy, 11)]);
  }

  /** Withdrawing the worse bid leaves the better one alone. */
  lemma WithdrawWorseBid()
    ensures
      var b := Book([Level(11, [Order1]), Level(10, [Order2])], [], map["order1" := Locus(Buy, 11), "order2" := Locus(Buy, 10)]);
      Withdraw(b, "order2") == Some((Order2, Book([Level(11, [Order1])], [], map["order1" := Locus(Buy, 11)])))
  {
    var b := Book([Level(11, [Order1]), Level(10, [Order2])], [], map["order1" := Locus(Buy, 11), "order2" := Locus(Buy, 10)]);
    assert IndexOf([Order2], "order2") == 0;
    assert RetrieveInLevel([Order2], "order2") == Some((Order2, []));
    var lv := [Level(10, [Order2])];
    assert lv[0].orders == [Order2] && lv[1..] == [];
    assert RetrieveAt(lv, 10, "order2") == Some((Order2, []));
    assert b.bids[1..] == lv && b.bids[0] == Level(11, [Order1]);
    assert [b.bids[0]] + [] == [Level(11, [Order1])];
    assert b.locator - {"order2"} == map["order1" := Locus(Buy, 11)];
  }

  /**
   A modify that flips a resting buy to a sell crosses the remaining bid,
   fills it completely, and rests the rest of its quantity on the ask side.
   */
  lemma ModifyFlipsSideAndCrosses()
    ensures
      var s1 := Submit(EmptyBook, Order1);
      var s2 := Submit(s1.book, Order2);
      var s3 := Modify(s2.book, "order2", Sell, 10, 1000);
      && s3.trades == [Trade("order1", 11, 100, "order2", 10)]
      && Print(s3.book) == View([Row(10, 900)], [])
      && s3.book.locator == map["order2" := Locus(Sell, 10)]
  {
    TwoBidsRest();
    WithdrawWorseBid();
    FlippedSellCrosses();
    OneAskPrints(Order(Sell, "GFD", 10, 900, "order2"));
  }

  /** The flipped order, now a sell of 1000 at 10, against the single bid of 100 at 11. */
  lemma FlippedSellCrosses()
    ensures
      var b := Book([Level(11, [Order1])], [], map["order1" := Locus(Buy, 11)]);
      Submit(b, Order(Sell, "GFD", 10, 1000, "order2")) ==
        Step(Book([], [Level(10, [Order(Sell, "GFD", 10, 900, "order2")])], map["order2" := Locus(Sell, 10)]),
             [Trade("order1", 11, 100, "order2", 10)])
  {
    var b := Book([Level(11, [Order1])], [], map["order1" := Locus(Buy, 11)]);
    var o := Order(Sell, "GFD", 10, 1000, "order2");
    var t := Trade("order1", 11, 100, "order2", 10);
    assert MatchLevel(o, [Order1]) == LevelFill(o.(qty := 900), [], ["order1"], [t]);
    assert MatchSide(o, b.bids) == SideFill(o.(qty := 900), [], ["order1"], [t]);
    assert b.locator - (set id | id in ["order1"]) == map[];
  }

  /** A book holding one sell shows one ask row and no bids. */
  lemma OneAskPrints(o: Order)
    ensures Print(Book([], [Level(o.price, [o])], map[o.id := Locus(Sell, o.price)])) == View([Row(o.price, o.qty)], [])
  {
    var ls := [Level(o.price, [o])];
    assert Qty([o]) == o.qty + Qty([]);
    assert ls[1..] == [];
    assert Rows(ls) == [Row(o.price, o.qty)];
    assert Reverse([Row(o.price, o.qty)]) == Reverse([]) + [Row(o.price, o.qty)];
  }

  /** An order that is not good for the day never rests, even when nothing trades. */
  lemma ImmediateOrCancelDoesNotRest()
    ensures Submit(EmptyBook, Order(Sell, "IOC", 10, 100, "x")) == Step(EmptyBook, [])
  {
  }

  /** An incoming order of quantity zero that crosses still produces one trade, of size zero, and changes nothing. */
  lemma ZeroQuantityTradesZero()
    ensures
      var b := Book([Level(11, [Order1])], [], map["order1" := Locus(Buy, 11)]);
      Submit(b, Order(Sell, "GFD", 10, 0, "z")) == Step(b, [Trade("order1", 11, 0, "z", 10)])
  {
    var b := Book([Level(11, [Order1])], [], map["order1" := Locus(Buy, 11)]);
    var z := Order(Sell, "GFD", 10, 0, "z");
    var t := Trade("order1", 11, 0, "z", 10);
    assert MatchLevel(z, [Order1]) == LevelFill(z, [Order1], [], [t]);
    assert MatchSide(z, b.bids) == SideFill(z, b.bids, [], [t]);
    assert b.locator - (set id | id in []) == b.locator;
  }

  const Sell1 := Order(Sell, "GFD", 10, 50, "s1")
  const Sell2 := Order(Sell, "GFD", 10, 50, "s2")

  /** Two sells queue at one price in arrival order. */
  lemma TwoSellsQueue()
    ensures Submit(Submit(EmptyBook, Sell1).book, Sell2) ==
      Step(Book([], [Level(10, [Sell1, Sell2])], map["s1" := Locus(Sell, 10), "s2" := Locus(Sell, 10)]), [])
  {
    var s1 := Submit(EmptyBook, Sell1);
    assert s1.book == Book([], [Level(10, [Sell1])], map["s1" := Locus(Sell, 10)]);
    assert [Sell1] + [Sell2] == [Sell1, Sell2];
  }

  /** A buy larger than the older sell takes all of it first, then part of the newer one. */
  lemma OldestFilledFirst()
    ensures
      var b := Submit(Submit(EmptyBook, Sell1).book, Sell2).book;
      var s := Submit(b, Order(Buy, "GFD", 10, 60, "b"));
      && s.trades == [Trade("s1", 10, 50, "b", 10), Trade("s2", 10, 10, "b", 10)]
      && s.book == Book([], [Level(10, [Sell2.(qty := 40)])], map["s2" := Locus(Sell, 10)])
  {
    TwoSellsQueue();
    BuyAgainstQueue();
    DropFilledEntry("s1", "s2", Locus(Sell, 10), Locus(Sell, 10));
  }

  /** Removing the one filled id from a two-entry locator leaves the other entry. */
  lemma DropFilledEntry(x: string, y: string, lx: Locus, ly: Locus)
    requires x != y
    ensures map[x := lx, y := ly] - (set id | id in [x]) == map[y := ly]
  {
    assert (set id | id in [x]) == {x};
  }

  /** Matching the buy of 60 against the queue of two sells of 50: the first is filled, the second loses 10. */
  lemma BuyAgainstQueue()
    ensures
      var o := Order(Buy, "GFD", 10, 60, "b");
      MatchSide(o, [Level(10, [Sell1, Sell2])]) ==
        SideFill(o.(qty := 0), [Level(10, [Sell2.(qty := 40)])], ["s1"], [Trade("s1", 10, 50, "b", 10), Trade("s2", 10, 10, "b", 10)])
  {
    var o := Order(Buy, "GFD", 10, 60, "b");
    var t1 := Trade("s1", 10, 50, "b", 10);
    var t2 := Trade("s2", 10, 10, "b", 10);
    assert [Sell1, Sell2][1..] == [Sell2];
    assert MatchLevel(o.(qty := 10), [Sell2]) == LevelFill(o.(qty := 0), [Sell2.(qty := 40)], [], [t2]);
    assert MatchLevel(o, [Sell1, Sell2]) == LevelFill(o.(qty := 0), [Sell2.(qty := 40)], ["s1"], [t1, t2]);
  }
}
