/**
 What a submitted order does to the book: which resting orders it trades
 against and for how much (price-time priority), how much quantity moves, and
 when its remainder rests.
 */
module Properties {
  import opened Orders
  import opened SideBook
  import opened Matching
  import opened OrderBook
  import opened Invariants

  /**
   The trades of a submit follow price-time priority: the i-th trade is
   against the i-th order of the opposite side in priority order, for the
   smaller of its quantity and what the incoming order still had. Every trade
   is at a price the incoming order's limit accepts, and trade prices get no
   better as matching proceeds.
   */
  lemma SubmitTradesFollowPriority(b: Book, o: Order)
    requires Valid(b)
    ensures PriorityFills(o, Flatten(Levels(b, Opposite(o.side))), Submit(b, o).trades)
    ensures forall tr :: tr in Submit(b, o).trades ==> Crosses(o.side, o.price, tr.restingPrice)
    ensures forall i, j :: 0 <= i < j < |Submit(b, o).trades| ==>
      AtLeastAsGood(Opposite(o.side), Submit(b, o).trades[i].restingPrice, Submit(b, o).trades[j].restingPrice)
    ensures o.qty > 0 ==> forall tr :: tr in Submit(b, o).trades ==> tr.size > 0
  {
    var t := Opposite(o.side);
    var ts := Submit(b, o).trades;
    var Y := Flatten(Levels(b, t));
    assert SideOk(b, t);
    MatchSidePriority(o, Levels(b, t));
    MatchSideTradesCross(t, o, Levels(b, t));
    FlattenPricesBestFirst(t, Levels(b, t));
    forall i, j | 0 <= i < j < |ts| ensures AtLeastAsGood(t, ts[i].restingPrice, ts[j].restingPrice) {
      assert FillAt(o, Y, ts, i) && FillAt(o, Y, ts, j);
    }
    if o.qty > 0 {
      MatchSideSizesPositive(t, o, Levels(b, t));
    }
  }

  /**
   Quantity is conserved on the side matched against: what it loses is exactly
   the total traded size. If anything is left of the incoming order, nothing
   left on that side crosses its limit.
   */
  lemma SubmitConservation(b: Book, o: Order)
    requires Valid(b)
    ensures Qty(Flatten(Levels(b, Opposite(o.side)))) ==
      SumSizes(Submit(b, o).trades) + Qty(Flatten(Levels(Submit(b, o).book, Opposite(o.side))))
    ensures SumSizes(Submit(b, o).trades) < o.qty ==>
      forall j :: 0 <= j < |Levels(Submit(b, o).book, Opposite(o.side))| ==>
        !Crosses(o.side, o.price, Levels(Submit(b, o).book, Opposite(o.side))[j].price)
  {
    var t := Opposite(o.side);
    var m := MatchSide(o, Levels(b, t));
    MatchSideConserves(o, Levels(b, t));
    assert Levels(Submit(b, o).book, t) == m.levels;
    assert SideOk(b, t);
    MatchSideLeavesNoCross(o, Levels(b, t));
  }

  /**
   A submit trades only while the order still has quantity: before every
   trade but the first, what it had traded was less than its quantity.
   */
  lemma SubmitStopsWhenDone(b: Book, o: Order)
    ensures forall i :: 0 < i < |Submit(b, o).trades| ==> SumSizes(Submit(b, o).trades[..i]) < o.qty
  {
    MatchSideStopsWhenDone(o, Levels(b, Opposite(o.side)));
  }

  /**
   Matching removes the orders it fills completely, which are a prefix of the
   opposite side in priority order, and takes them out of the locator; each of
   them traded its whole quantity. Of the rest only the first may have lost
   quantity, exactly the size of the one partial trade.
   */
  lemma SubmitRemovesFilledPrefix(b: Book, o: Order)
    requires Valid(b) && o.id !in b.locator
    ensures
      var Y, Y' := Flatten(Levels(b, Opposite(o.side))), Flatten(Levels(Submit(b, o).book, Opposite(o.side)));
      && |Y'| <= |Y|
      && Trimmed(Y, |Y| - |Y'|, Y')
      && Consumed(Y, |Y| - |Y'|, Y', Submit(b, o).trades)
      && forall x :: x in Ids(b, Opposite(o.side))[..|Y| - |Y'|] ==> x !in Submit(b, o).book.locator
  {
    var t := Opposite(o.side);
    var m := MatchSide(o, Levels(b, t));
    var r := Submit(b, o);
    SubmitOpposite(b, o);
    MatchFilledPrefix(b, o);
    var k := |m.filled|;
    assert Flatten(Levels(r.book, t)) == Flatten(m.levels);
    assert |Flatten(Levels(b, t))| - |Flatten(Levels(r.book, t))| == k;
    forall x | x in Ids(b, t)[..k] ensures x !in r.book.locator {
      assert x in m.filled;
    }
  }

  /** What a submit does to the opposite side is what matching does to it; filled ids leave the locator. */
  lemma SubmitOpposite(b: Book, o: Order)
    ensures
      var m := MatchSide(o, Levels(b, Opposite(o.side)));
      && Levels(Submit(b, o).book, Opposite(o.side)) == m.levels
      && Submit(b, o).trades == m.trades
      && forall x :: x in m.filled && x != o.id ==> x !in Submit(b, o).book.locator
  {
  }

  /** Matching consumes a prefix of the opposite side, whose ids were all in the locator. */
  lemma MatchFilledPrefix(b: Book, o: Order)
    requires Valid(b)
    ensures
      var t := Opposite(o.side);
      var m := MatchSide(o, Levels(b, t));
      var Y, Y' := Flatten(Levels(b, t)), Flatten(m.levels);
      && |Y'| <= |Y| && |m.filled| == |Y| - |Y'|
      && Trimmed(Y, |m.filled|, Y')
      && Consumed(Y, |m.filled|, Y', m.trades)
      && m.filled == Ids(b, t)[..|m.filled|]
      && forall x :: x in m.filled ==> x in b.locator
  {
    var t := Opposite(o.side);
    var m := MatchSide(o, Levels(b, t));
    MatchSideIsMatchOf(b, o);
    MatchSideConsumed(o, Levels(b, t));
    MatchedIdSplit(b, t, m);
    assert SideOk(b, t);
    LocatedIds(b, t);
    forall x | x in m.filled ensures x in b.locator {
      assert x in Ids(b, t);
    }
  }

  /**
   The remainder of a submitted order rests exactly when the order is good for
   the day and was not filled completely. It then joins the back of the queue
   at its limit price, with the unfilled quantity, and the locator points
   there; every other queue on its side is unchanged. Otherwise its own side
   is untouched.
   */
  lemma SubmitRestingRule(b: Book, o: Order)
    requires Valid(b) && o.id !in b.locator
    ensures
      var r := Submit(b, o);
      var rem := o.qty - SumSizes(r.trades);
      && (o.id in r.book.locator <==> GoodForDay(o) && rem > 0)
      && (o.id in r.book.locator ==>
            && r.book.locator[o.id] == Locus(o.side, o.price)
            && OrdersAt(Levels(r.book, o.side), o.price) == OrdersAt(Levels(b, o.side), o.price) + [o.(qty := rem)]
            && forall p :: p != o.price ==> OrdersAt(Levels(r.book, o.side), p) == OrdersAt(Levels(b, o.side), p))
      && (o.id !in r.book.locator ==> Levels(r.book, o.side) == Levels(b, o.side))
  {
    var m := MatchSide(o, Levels(b, Opposite(o.side)));
    if GoodForDay(m.incoming) && m.incoming.qty > 0 {
      assert SideOk(b, o.side);
      Rested(b, o);
    } else {
      NotRested(b, o);
    }
  }

  /** The case of `SubmitRestingRule` where a remainder is left and the order is good for the day. */
  lemma Rested(b: Book, o: Order)
    requires Sorted(o.side, Levels(b, o.side))
    requires var m := MatchSide(o, Levels(b, Opposite(o.side))); GoodForDay(m.incoming) && m.incoming.qty > 0
    ensures
      var r := Submit(b, o);
      var rem := o.qty - SumSizes(r.trades);
      && GoodForDay(o) && rem > 0 && o.id in r.book.locator
      && r.book.locator[o.id] == Locus(o.side, o.price)
      && OrdersAt(Levels(r.book, o.side), o.price) == OrdersAt(Levels(b, o.side), o.price) + [o.(qty := rem)]
      && forall p :: p != o.price ==> OrdersAt(Levels(r.book, o.side), p) == OrdersAt(Levels(b, o.side), p)
  {
    var m := MatchSide(o, Levels(b, Opposite(o.side)));
    var bm := Matched(b, Opposite(o.side), m);
    SubmitRests(b, o);
    MatchedKeepsOwnSide(b, o);
    RestAtBack(b, bm, m.incoming);
  }

  /** Resting `inc` on a book whose own side is that of `b` puts it at the back of its price's queue. */
  lemma RestAtBack(b: Book, bm: Book, inc: Order)
    requires Sorted(inc.side, Levels(b, inc.side)) && Levels(bm, inc.side) == Levels(b, inc.side)
    ensures
      var r := Rest(bm, inc);
      && inc.id in r.locator && r.locator[inc.id] == Locus(inc.side, inc.price)
      && OrdersAt(Levels(r, inc.side), inc.price) == OrdersAt(Levels(b, inc.side), inc.price) + [inc]
      && forall p :: p != inc.price ==> OrdersAt(Levels(r, inc.side), p) == OrdersAt(Levels(b, inc.side), p)
  {
    InsertAppendsAtBack(Levels(b, inc.side), inc);
  }

  /** Unfolding `Submit` when the remainder rests. */
  lemma SubmitRests(b: Book, o: Order)
    requires var m := MatchSide(o, Levels(b, Opposite(o.side))); GoodForDay(m.incoming) && m.incoming.qty > 0
    ensures
      var m := MatchSide(o, Levels(b, Opposite(o.side)));
      && Submit(b, o).book == Rest(Matched(b, Opposite(o.side), m), m.incoming)
      && Submit(b, o).trades == m.trades
      && o.qty - SumSizes(Submit(b, o).trades) == m.incoming.qty
      && m.incoming == o.(qty := m.incoming.qty)
  {
  }

  /** Unfolding `Submit` when nothing rests. */
  lemma SubmitDiscards(b: Book, o: Order)
    requires var m := MatchSide(o, Levels(b, Opposite(o.side))); !(GoodForDay(m.incoming) && m.incoming.qty > 0)
    ensures
      var m := MatchSide(o, Levels(b, Opposite(o.side)));
      && Submit(b, o).book == Matched(b, Opposite(o.side), m)
      && Submit(b, o).trades == m.trades
  {
  }

  /** Matching leaves the submitting side alone, and what is left of the order is the order with its unfilled quantity. */
  lemma MatchedKeepsOwnSide(b: Book, o: Order)
    ensures
      var m := MatchSide(o, Levels(b, Opposite(o.side)));
      && Levels(Matched(b, Opposite(o.side), m), o.side) == Levels(b, o.side)
      && m.incoming == o.(qty := m.incoming.qty)
      && m.incoming.qty == o.qty - SumSizes(m.trades)
  {
  }

  /** The case of `SubmitRestingRule` where nothing rests. */
  lemma NotRested(b: Book, o: Order)
    requires o.id !in b.locator
    requires var m := MatchSide(o, Levels(b, Opposite(o.side))); !(GoodForDay(m.incoming) && m.incoming.qty > 0)
    ensures
      var r := Submit(b, o);
      && !(GoodForDay(o) && o.qty - SumSizes(r.trades) > 0)
      && o.id !in r.book.locator
      && Levels(r.book, o.side) == Levels(b, o.side)
  {
    var m := MatchSide(o, Levels(b, Opposite(o.side)));
    var bm := Matched(b, Opposite(o.side), m);
    SubmitDiscards(b, o);
    MatchedKeepsOwnSide(b, o);
    assert o.id !in bm.locator;
  }

  /** Quantity on the submitting side grows by exactly the rested remainder, if any. */
  lemma SubmitOwnSideQty(b: Book, o: Order)
    requires Valid(b)
    ensures
      var r := Submit(b, o);
      Qty(Flatten(Levels(r.book, o.side))) == Qty(Flatten(Levels(b, o.side))) +
        (if GoodForDay(o) && SumSizes(r.trades) < o.qty then o.qty - SumSizes(r.trades) else 0)
  {
    var s := o.side;
    var t := Opposite(s);
    var m := MatchSide(o, Levels(b, t));
    if GoodForDay(m.incoming) && m.incoming.qty > 0 {
      InsertQty(Levels(b, s), m.incoming);
    }
  }
}
