/**
 The printed book: the ask side and then the bid side, one row per price
 level holding the price and the total quantity resting there, both sides
 listed from the highest price down.
 */
module Snapshot {
  import opened Orders
  import opened SideBook
  import opened OrderBook

  /** One printed line: a price and the total quantity resting at it. */
  datatype Row = Row(price: nat, quantity: nat)

  /** The whole printout: the SELL rows, then the BUY rows. */
  datatype View = View(sells: seq<Row>, buys: seq<Row>)

  /** One row per level, in the order the levels are given. */
  function Rows(levels: seq<Level>): seq<Row> {
    if |levels| == 0 then [] else [Row(levels[0].price, Qty(levels[0].orders))] + Rows(levels[1..])
  }

  function Reverse<T>(xs: seq<T>): seq<T> {
    if |xs| == 0 then [] else Reverse(xs[1..]) + [xs[0]]
  }

  /** Reference for the printout: asks walked from the back (highest first), bids from the front. */
  function Print(b: Book): View {
    View(Reverse(Rows(b.asks)), Rows(b.bids))
  }

  function RowsTotal(rows: seq<Row>): nat {
    if |rows| == 0 then 0 else rows[0].quantity + RowsTotal(rows[1..])
  }

  /** Strictly falling prices from the first row to the last. */
  predicate Descending(rows: seq<Row>) {
    forall i, j :: 0 <= i < j < |rows| ==> rows[i].price > rows[j].price
  }

  // ---------------------------------------------------------------------------
  // The printing loops
  // ---------------------------------------------------------------------------

  /** The total printed for one level: every order's quantity added up, oldest first. */
  method LevelTotal(orders: seq<Order>) returns (total: nat)
    ensures total == Qty(orders)
  {
    total := 0;
    var i := 0;
    while i < |orders|
      invariant 0 <= i <= |orders|
      invariant total == Qty(orders[..i])
    {
      QtyAppend(orders[..i], [orders[i]]);
      assert orders[..i + 1] == orders[..i] + [orders[i]];
      assert Qty([orders[i]]) == orders[i].qty + Qty([]);
      total := total + orders[i].qty;
      i := i + 1;
    }
    assert orders[..i] == orders;
  }

  /** Walks the ask side from its highest level down, then the bid side from its highest level down. */
  method PrintBook(b: Book) returns (v: View)
    ensures v == Print(b)
  {
    var sells: seq<Row> := [];
    var i := |b.asks|;
    while i > 0
      invariant 0 <= i <= |b.asks|
      invariant sells == Reverse(Rows(b.asks[i..]))
    {
      i := i - 1;
      var total := LevelTotal(b.asks[i].orders);
      assert b.asks[i..][1..] == b.asks[i + 1..];
      sells := sells + [Row(b.asks[i].price, total)];
    }
    assert b.asks[0..] == b.asks;
    var buys: seq<Row> := [];
    var j := 0;
    while j < |b.bids|
      invariant 0 <= j <= |b.bids|
      invariant buys == Rows(b.bids[..j])
    {
      var total := LevelTotal(b.bids[j].orders);
      RowsAppend(b.bids[..j], [b.bids[j]]);
      assert b.bids[..j + 1] == b.bids[..j] + [b.bids[j]];
      buys := buys + [Row(b.bids[j].price, total)];
      j := j + 1;
    }
    assert b.bids[..j] == b.bids;
    v := View(sells, buys);
  }

  // ---------------------------------------------------------------------------
  // What the printout shows
  // ---------------------------------------------------------------------------

  lemma {:induction false} RowsAppend(a: seq<Level>, c: seq<Level>)
    ensures Rows(a + c) == Rows(a) + Rows(c)
  {
    if |a| > 0 {
      assert (a + c)[1..] == a[1..] + c;
      RowsAppend(a[1..], c);
    } else {
      assert a + c == c;
    }
  }

  lemma {:induction false} RowsAt(levels: seq<Level>)
    ensures |Rows(levels)| == |levels|
    ensures forall i :: 0 <= i < |levels| ==> Rows(levels)[i] == Row(levels[i].price, Qty(levels[i].orders))
  {
    if |levels| > 0 {
      RowsAt(levels[1..]);
    }
  }

  lemma {:induction false} ReverseAt<T>(xs: seq<T>)
    ensures |Reverse(xs)| == |xs|
    ensures forall k :: 0 <= k < |xs| ==> Reverse(xs)[k] == xs[|xs| - 1 - k]
  {
    if |xs| > 0 {
      ReverseAt(xs[1..]);
    }
  }

  lemma {:induction false} RowsTotalAppend(a: seq<Row>, c: seq<Row>)
    ensures RowsTotal(a + c) == RowsTotal(a) + RowsTotal(c)
  {
    if |a| > 0 {
      assert (a + c)[1..] == a[1..] + c;
      RowsTotalAppend(a[1..], c);
    } else {
      assert a + c == c;
    }
  }

  lemma {:induction false} RowsTotalReverse(rows: seq<Row>)
    ensures RowsTotal(Reverse(rows)) == RowsTotal(rows)
  {
    if |rows| > 0 {
      RowsTotalReverse(rows[1..]);
      RowsTotalAppend(Reverse(rows[1..]), [rows[0]]);
      assert RowsTotal([rows[0]]) == rows[0].quantity + RowsTotal([]);
    }
  }

  /** The row totals of a side add up to everything resting on it. */
  lemma {:induction false} RowsTotalIsQty(levels: seq<Level>)
    ensures RowsTotal(Rows(levels)) == Qty(Flatten(levels))
  {
    if |levels| > 0 {
      RowsTotalIsQty(levels[1..]);
      QtyAppend(levels[0].orders, Flatten(levels[1..]));
    }
  }

  lemma {:induction false} QtyPositive(os: seq<Order>)
    requires |os| > 0 && forall o :: o in os ==> o.qty > 0
    ensures Qty(os) > 0
  {
    assert os[0] in os;
  }

  /** In a sorted side, looking a level's price up finds that very level. */
  lemma {:induction false} OrdersAtIndex(s: Side, levels: seq<Level>, i: nat)
    requires Sorted(s, levels) && i < |levels|
    ensures OrdersAt(levels, levels[i].price) == levels[i].orders
  {
    if i > 0 {
      assert Better(s, levels[0].price, levels[i].price);
      OrdersAtIndex(s, levels[1..], i - 1);
    }
  }

  /** Each row of a well-formed side is a live level's price and its total, and every resting price has its row. */
  lemma RowsOfSide(s: Side, levels: seq<Level>)
    requires WellFormed(s, levels)
    ensures forall r :: r in Rows(levels) ==> r.quantity > 0 && r.quantity == Qty(OrdersAt(levels, r.price))
    ensures forall o :: o in Flatten(levels) ==> Row(o.price, Qty(OrdersAt(levels, o.price))) in Rows(levels)
  {
    RowsAt(levels);
    var rows := Rows(levels);
    forall r | r in rows ensures r.quantity > 0 && r.quantity == Qty(OrdersAt(levels, r.price)) {
      var i :| 0 <= i < |rows| && rows[i] == r;
      OrdersAtIndex(s, levels, i);
      QtyPositive(levels[i].orders);
    }
    forall o | o in Flatten(levels) ensures Row(o.price, Qty(OrdersAt(levels, o.price))) in rows {
      var i := LevelOf(s, levels, o);
      OrdersAtIndex(s, levels, i);
      assert rows[i] == Row(o.price, Qty(OrdersAt(levels, o.price)));
    }
  }

  /** The index of the level a resting order sits in. */
  lemma {:induction false} LevelOf(s: Side, levels: seq<Level>, o: Order) returns (i: nat)
    requires WellFormed(s, levels) && o in Flatten(levels)
    ensures i < |levels| && levels[i].price == o.price
  {
    if o in levels[0].orders {
      i := 0;
    } else {
      assert Flatten(levels) == levels[0].orders + Flatten(levels[1..]);
      WellFormedTail(s, levels);
      var k := LevelOf(s, levels[1..], o);
      i := k + 1;
    }
  }

  /** The SELL rows: the ask levels from the highest price down. */
  lemma SellRows(asks: seq<Level>)
    requires WellFormed(Sell, asks)
    ensures var rows := Reverse(Rows(asks));
      && Descending(rows)
      && (forall r :: r in rows ==> r.quantity > 0 && r.quantity == Qty(OrdersAt(asks, r.price)))
      && (forall o :: o in Flatten(asks) ==> Row(o.price, Qty(OrdersAt(asks, o.price))) in rows)
      && RowsTotal(rows) == Qty(Flatten(asks))
      && (|rows| > 0 ==> |asks| > 0 && rows[|rows| - 1].price == asks[0].price)
  {
    var fwd := Rows(asks);
    RowsOfSide(Sell, asks);
    ReverseSameElems(fwd);
    SellDescending(asks);
    RowsTotalIsQty(asks);
    RowsTotalReverse(fwd);
  }

  lemma ReverseSameElems<T>(xs: seq<T>)
    ensures forall x :: x in Reverse(xs) <==> x in xs
  {
    var ys := Reverse(xs);
    ReverseAt(xs);
    forall x | x in ys ensures x in xs {
      var k :| 0 <= k < |ys| && ys[k] == x;
      assert xs[|xs| - 1 - k] == x;
    }
    forall x | x in xs ensures x in ys {
      var k :| 0 <= k < |xs| && xs[k] == x;
      assert ys[|xs| - 1 - k] == x;
    }
  }

  /** Asks rise from the best, so their rows reversed fall, ending at the best ask. */
  lemma SellDescending(asks: seq<Level>)
    requires Sorted(Sell, asks)
    ensures var rows := Reverse(Rows(asks));
      && Descending(rows)
      && (|rows| > 0 ==> |asks| > 0 && rows[|rows| - 1].price == asks[0].price)
  {
    var rows := Reverse(Rows(asks));
    ReversedRowsLength(asks);
    forall i, j | 0 <= i < j < |rows| ensures rows[i].price > rows[j].price {
      ReversedRowPrice(asks, i);
      ReversedRowPrice(asks, j);
      assert Better(Sell, asks[|asks| - 1 - j].price, asks[|asks| - 1 - i].price);
    }
    if |rows| > 0 {
      ReversedRowPrice(asks, |rows| - 1);
    }
  }

  lemma ReversedRowsLength(levels: seq<Level>)
    ensures |Reverse(Rows(levels))| == |levels|
  {
    RowsAt(levels);
    ReverseAt(Rows(levels));
  }

  lemma ReversedRowPrice(levels: seq<Level>, i: nat)
    requires i < |levels|
    ensures |Reverse(Rows(levels))| == |levels|
    ensures Reverse(Rows(levels))[i].price == levels[|levels| - 1 - i].price
  {
    RowsAt(levels);
    ReverseAt(Rows(levels));
  }

  /** The BUY rows: the bid levels from the highest price down. */
  lemma BuyRows(bids: seq<Level>)
    requires WellFormed(Buy, bids)
    ensures var rows := Rows(bids);
      && Descending(rows)
      && (forall r :: r in rows ==> r.quantity > 0 && r.quantity == Qty(OrdersAt(bids, r.price)))
      && (forall o :: o in Flatten(bids) ==> Row(o.price, Qty(OrdersAt(bids, o.price))) in rows)
      && RowsTotal(rows) == Qty(Flatten(bids))
      && (|rows| > 0 ==> |bids| > 0 && rows[0].price == bids[0].price)
  {
    RowsAt(bids);
    RowsOfSide(Buy, bids);
    RowsTotalIsQty(bids);
    var rows := Rows(bids);
    forall i, j | 0 <= i < j < |rows| ensures rows[i].price > rows[j].price {
      assert Better(Buy, bids[i].price, bids[j].price);
    }
  }

  /**
   For a valid book, the printout lists each side from the highest price down,
   one row per level with the level's total quantity (never zero), a row for
   every price where an order rests, row totals adding up to the side's whole
   quantity, and the lowest ask above the highest bid.
   */
  lemma PrintShape(b: Book)
    requires Valid(b)
    ensures Descending(Print(b).sells) && Descending(Print(b).buys)
    ensures forall r :: r in Print(b).sells ==> r.quantity > 0 && r.quantity == Qty(OrdersAt(b.asks, r.price))
    ensures forall r :: r in Print(b).buys ==> r.quantity > 0 && r.quantity == Qty(OrdersAt(b.bids, r.price))
    ensures forall o :: o in Flatten(b.asks) ==> Row(o.price, Qty(OrdersAt(b.asks, o.price))) in Print(b).sells
    ensures forall o :: o in Flatten(b.bids) ==> Row(o.price, Qty(OrdersAt(b.bids, o.price))) in Print(b).buys
    ensures RowsTotal(Print(b).sells) == Qty(Flatten(b.asks)) && RowsTotal(Print(b).buys) == Qty(Flatten(b.bids))
    ensures |Print(b).sells| > 0 && |Print(b).buys| > 0 ==> Print(b).sells[|Print(b).sells| - 1].price > Print(b).buys[0].price
  {
    assert SideOk(b, Buy) && SideOk(b, Sell);
    SellRows(b.asks);
    BuyRows(b.bids);
  }

  // ---------------------------------------------------------------------------
  // The level total as `printLevel` accumulates it
  // ---------------------------------------------------------------------------

  const Two32: int := 0x1_0000_0000
  const Two31: int := 0x8000_0000

  /** The value a signed 32-bit integer holds after being assigned `x`: `x` reduced modulo 2^32 into [-2^31, 2^31). */
  function Wrap32(x: int): (r: int)
    ensures -Two31 <= r < Two31
    ensures (r - x) % Two32 == 0
  {
    var m := x % Two32;
    if m >= Two31 then m - Two32 else m
  }

  /** Two values congruent modulo 2^32 wrap to the same signed 32-bit value. */
  lemma Wrap32Congruent(x: int, y: int)
    requires (x - y) % Two32 == 0
    ensures Wrap32(x) == Wrap32(y)
  {
    var k := (x - y) / Two32;
    assert x == y + k * Two32;
    assert x % Two32 == y % Two32;
  }

  /**
   The level total exactly as accumulated: the running sum is kept in a signed
   32-bit integer, so every addition wraps.
   */
  method LevelTotalAsWritten(orders: seq<Order>) returns (total: int)
    ensures total == Wrap32(Qty(orders))
  {
    total := 0;
    var i := 0;
    while i < |orders|
      invariant 0 <= i <= |orders|
      invariant total == Wrap32(Qty(orders[..i]))
    {
      QtyAppend(orders[..i], [orders[i]]);
      assert orders[..i + 1] == orders[..i] + [orders[i]];
      assert Qty([orders[i]]) == orders[i].qty + Qty([]);
      Wrap32Congruent(total + orders[i].qty, Qty(orders[..i + 1]));
      total := Wrap32(total + orders[i].qty);
      i := i + 1;
    }
    assert orders[..i] == orders;
  }

  /** A single resting order of 2^31 lots prints as a negative level total. */
  lemma LevelTotalOverflows()
    ensures
      var os := [Order(Buy, "GFD", 100, Two31, "big")];
      Wrap32(Qty(os)) == -Two31 && Qty(os) == Two31
  {
    var os := [Order(Buy, "GFD", 100, Two31, "big")];
    assert Qty(os) == Two31 + Qty([]);
  }
}
