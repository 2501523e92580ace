/**
 The order book: a bid side, an ask side and the order locator, which maps an
 order id to the side and price where that order rests so that a cancel or
 modify can go straight to its level. Every public operation is a pure
 function from one book to the next, returning the trades it produced.
 */
module OrderBook {
  import opened Orders
  import opened SideBook
  import opened Matching

  /** Where the locator says an order rests. */
  datatype Locus = Locus(side: Side, price: nat)

  datatype Book = Book(bids: seq<Level>, asks: seq<Level>, locator: map<string, Locus>)

  /** The result of an order-entry event: the new book and the trades, in execution order. */
  datatype Step = Step(book: Book, trades: seq<Trade>)

  const EmptyBook := Book([], [], map[])

  function Levels(b: Book, s: Side): seq<Level> {
    if s == Buy then b.bids else b.asks
  }

  function WithLevels(b: Book, s: Side, ls: seq<Level>): (r: Book)
    ensures Levels(r, s) == ls && Levels(r, Opposite(s)) == Levels(b, Opposite(s)) && r.locator == b.locator
  {
    if s == Buy then b.(bids := ls) else b.(asks := ls)
  }

  /** Ids of the orders resting on side `s`, in priority order. */
  function Ids(b: Book, s: Side): seq<string> {
    IdSeq(Flatten(Levels(b, s)))
  }

  // ---------------------------------------------------------------------------
  // Invariants: what the engine's consistency checks test, stated as predicates.
  // ---------------------------------------------------------------------------

  /** Best bid strictly below best ask whenever both sides have orders. */
  predicate NoCross(b: Book) {
    |b.bids| == 0 || |b.asks| == 0 || b.bids[0].price < b.asks[0].price
  }

  /** Every order resting on side `s` has a locator entry naming that side and its price. */
  predicate Located(b: Book, s: Side) {
    forall o :: o in Flatten(Levels(b, s)) ==> o.id in b.locator && b.locator[o.id] == Locus(s, o.price)
  }

  /** No id rests twice, on either side. */
  predicate IdsUnique(b: Book) {
    Distinct(Ids(b, Buy) + Ids(b, Sell))
  }

  /** Every locator entry belongs to a resting order. */
  predicate LocatorExact(b: Book) {
    forall id :: id in b.locator ==> id in Ids(b, Buy) || id in Ids(b, Sell)
  }

  predicate SideOk(b: Book, s: Side) {
    WellFormed(s, Levels(b, s)) && Located(b, s)
  }

  /** Everything but the no-cross condition. */
  predicate Consistent(b: Book) {
    SideOk(b, Buy) && SideOk(b, Sell) && IdsUnique(b) && LocatorExact(b)
  }

  /** The book invariant every public operation keeps. */
  predicate Valid(b: Book) {
    Consistent(b) && NoCross(b)
  }

  // ---------------------------------------------------------------------------
  // Operations
  // ---------------------------------------------------------------------------

  /** The book after matching: side `t` replaced by what matching left of it, the filled orders dropped from the locator. */
  function Matched(b: Book, t: Side, m: SideFill): Book {
    WithLevels(b, t, m.levels).(locator := b.locator - (set id | id in m.filled))
  }

  /** Rests `o` at the back of its price level on its own side and records where in the locator. */
  function Rest(b: Book, o: Order): Book {
    WithLevels(b, o.side, Insert(Levels(b, o.side), o)).(locator := b.locator[o.id := Locus(o.side, o.price)])
  }

  /**
   A new buy or sell order: match it against the opposite side, drop the
   filled resting orders from the locator, then rest whatever is left on its
   own side if it is good for the day; otherwise the remainder is discarded.
   */
  function Submit(b: Book, o: Order): (r: Step)
    ensures SumSizes(r.trades) <= o.qty
  {
    var m := MatchSide(o, Levels(b, Opposite(o.side)));
    var matched := Matched(b, Opposite(o.side), m);
    if GoodForDay(m.incoming) && m.incoming.qty > 0 then
      Step(Rest(matched, m.incoming), m.trades)
    else
      Step(matched, m.trades)
  }

  /**
   Takes a resting order out of the book through the locator, dropping its
   level if it empties and its locator entry. Fails for an unknown id, and
   when the locator points at a level that does not hold the order.
   */
  function Withdraw(b: Book, id: string): (r: Option<(Order, Book)>)
    ensures r.Some? ==> id in b.locator && r.value.0.id == id && r.value.1.locator == b.locator - {id}
  {
    if id !in b.locator then None
    else
      var loc := b.locator[id];
      match RetrieveAt(Levels(b, loc.side), loc.price, id)
      case None => None
      case Some((o, ls)) => Some((o, WithLevels(b, loc.side, ls).(locator := b.locator - {id})))
  }

  /** Removes a resting order; an unknown id is ignored. */
  function Cancel(b: Book, id: string): Book {
    match Withdraw(b, id)
    case None => b
    case Some((_, b')) => b'
  }

  /**
   Takes the order out, gives it the new side, price and quantity (keeping its
   id and time in force) and submits it again, so it may trade at once and
   otherwise queues at the back of its new level. An unknown id is ignored.
   */
  function Modify(b: Book, id: string, side: Side, price: nat, qty: nat): Step {
    match Withdraw(b, id)
    case None => Step(b, [])
    case Some((o, b')) => Submit(b', o.(side := side, price := price, qty := qty))
  }
}
