/**
 The book invariant is kept by every public operation: submitting a new order,
 cancelling and modifying. Also the promises each operation makes about what
 it changes and what it leaves alone.
 */
module Invariants {
  import opened Orders
  import opened SideBook
  import opened Matching
  import opened OrderBook

  /** A newly constructed engine starts with no levels on either side and an empty locator, which is a valid book. */
  lemma EmptyBookValid()
    ensures Valid(EmptyBook)
  {
  }

  // ---------------------------------------------------------------------------
  // Side-generic views of the invariant
  // ---------------------------------------------------------------------------

  lemma IdsUniqueSides(b: Book, s: Side)
    ensures IdsUnique(b) <==>
      && Distinct(Ids(b, s)) && Distinct(Ids(b, Opposite(s)))
      && forall x :: x in Ids(b, s) ==> x !in Ids(b, Opposite(s))
  {
    DistinctConcat(Ids(b, Buy), Ids(b, Sell));
    if s == Sell {
      DistinctConcat(Ids(b, Sell), Ids(b, Buy));
    }
  }

  lemma LocatorExactSides(b: Book, s: Side)
    ensures LocatorExact(b) <==> forall id :: id in b.locator ==> id in Ids(b, s) || id in Ids(b, Opposite(s))
  {
  }

  /** An order in the sequence has its id among the sequence's ids. */
  lemma InIds(os: seq<Order>, q: Order)
    requires q in os
    ensures q.id in IdSeq(os)
  {
    var k :| 0 <= k < |os| && os[k] == q;
    assert IdSeq(os)[k] == q.id;
  }

  /** Following the locator leads to the order: an id it knows is queued at the side and price it names. */
  lemma LocatorFindsOrder(b: Book, id: string)
    requires Consistent(b) && id in b.locator
    ensures id in IdSeq(OrdersAt(Levels(b, b.locator[id].side), b.locator[id].price))
  {
    var loc := b.locator[id];
    var u := if id in Ids(b, Buy) then Buy else Sell;
    var f := Flatten(Levels(b, u));
    var i :| 0 <= i < |f| && f[i].id == id;
    var q := f[i];
    assert SideOk(b, u);
    assert b.locator[q.id] == Locus(u, q.price);
    FlattenInOrdersAt(u, Levels(b, u), q);
    InIds(OrdersAt(Levels(b, u), q.price), q);
  }

  /** In a consistent book, withdrawing succeeds exactly for the ids the locator knows. */
  lemma WithdrawKnown(b: Book, id: string)
    requires Consistent(b)
    ensures Withdraw(b, id).Some? <==> id in b.locator
  {
    if id in b.locator {
      LocatorFindsOrder(b, id);
    }
  }

  // ---------------------------------------------------------------------------
  // Withdraw, cancel
  // ---------------------------------------------------------------------------

  /** The book with side `s` replaced by `ls` and `id` erased from the locator: what a withdrawal of `id` leaves. */
  function Removed(b: Book, s: Side, ls: seq<Level>, id: string): Book {
    WithLevels(b, s, ls).(locator := b.locator - {id})
  }

  /** `ls` is side `s` of `b` with the order at flattened position `j`, carrying `id`, taken out. */
  predicate RemovalOf(b: Book, s: Side, ls: seq<Level>, j: nat, id: string) {
    var X := Flatten(Levels(b, s));
    && j < |X| && X[j].id == id
    && Flatten(ls) == X[..j] + X[j + 1..]
    && WellFormed(s, ls)
  }

  lemma RemovedIds(b: Book, s: Side, ls: seq<Level>, j: nat, id: string)
    requires Consistent(b) && RemovalOf(b, s, ls, j, id)
    ensures IdsUnique(Removed(b, s, ls, id))
    ensures forall x :: x in Ids(Removed(b, s, ls, id), s) ==> x in Ids(b, s) && x != id
  {
    var b' := Removed(b, s, ls, id);
    var X := Flatten(Levels(b, s));
    assert Ids(b', s) == IdSeq(X[..j] + X[j + 1..]);
    IdsUniqueSides(b, s);
    IdsAfterRemove(X, j);
    IdsUniqueSides(b', s);
  }

  /** Dropping one position from a queue with distinct ids keeps them distinct and loses exactly that id. */
  lemma IdsAfterRemove(X: seq<Order>, j: nat)
    requires Distinct(IdSeq(X)) && j < |X|
    ensures Distinct(IdSeq(X[..j] + X[j + 1..]))
    ensures forall x :: x in IdSeq(X[..j] + X[j + 1..]) ==> x in IdSeq(X) && x != X[j].id
  {
    var X' := X[..j] + X[j + 1..];
    assert IdSeq(X') == IdSeq(X)[..j] + IdSeq(X)[j + 1..];
    DistinctRemove(IdSeq(X), j);
    forall x | x in IdSeq(X') ensures x in IdSeq(X) && x != X[j].id {
      var i :| 0 <= i < |X'| && IdSeq(X')[i] == x;
      var i0 := if i < j then i else i + 1;
      assert X'[i] == X[i0];
      assert IdSeq(X)[i0] != IdSeq(X)[j];
    }
  }

  lemma RemovedLocated(b: Book, s: Side, ls: seq<Level>, j: nat, id: string)
    requires Consistent(b) && RemovalOf(b, s, ls, j, id)
    ensures SideOk(Removed(b, s, ls, id), s) && SideOk(Removed(b, s, ls, id), Opposite(s))
  {
    RemovedOwnSide(b, s, ls, j, id);
    RemovedOtherSide(b, s, ls, j, id);
  }

  lemma RemovedOwnSide(b: Book, s: Side, ls: seq<Level>, j: nat, id: string)
    requires Consistent(b) && RemovalOf(b, s, ls, j, id)
    ensures SideOk(Removed(b, s, ls, id), s)
  {
    var b' := Removed(b, s, ls, id);
    var X := Flatten(Levels(b, s));
    var X' := X[..j] + X[j + 1..];
    assert Flatten(Levels(b', s)) == X';
    assert SideOk(b, s);
    RemovedIds(b, s, ls, j, id);
    forall q | q in X' ensures q.id in b'.locator && b'.locator[q.id] == Locus(s, q.price) {
      InIds(X', q);
      StillIn(X, j, q);
    }
  }

  /** An order left after dropping position `j` was there before. */
  lemma StillIn(X: seq<Order>, j: nat, q: Order)
    requires j < |X| && q in X[..j] + X[j + 1..]
    ensures q in X
  {
    var X' := X[..j] + X[j + 1..];
    var i :| 0 <= i < |X'| && X'[i] == q;
    assert X'[i] == (if i < j then X[i] else X[i + 1]);
  }

  lemma RemovedOtherSide(b: Book, s: Side, ls: seq<Level>, j: nat, id: string)
    requires Consistent(b) && RemovalOf(b, s, ls, j, id)
    ensures SideOk(Removed(b, s, ls, id), Opposite(s))
  {
    var b' := Removed(b, s, ls, id);
    var X := Flatten(Levels(b, s));
    var Y := Flatten(Levels(b, Opposite(s)));
    assert Levels(b', Opposite(s)) == Levels(b, Opposite(s));
    assert SideOk(b, Opposite(s));
    IdsUniqueSides(b, s);
    InIds(X, X[j]);
    forall q | q in Y ensures q.id != id {
      InIds(Y, q);
    }
  }

  lemma RemovedLocatorExact(b: Book, s: Side, ls: seq<Level>, j: nat, id: string)
    requires Consistent(b) && RemovalOf(b, s, ls, j, id)
    ensures LocatorExact(Removed(b, s, ls, id))
  {
    var b' := Removed(b, s, ls, id);
    var X := Flatten(Levels(b, s));
    assert Ids(b', s) == IdSeq(X[..j] + X[j + 1..]);
    assert Ids(b', Opposite(s)) == Ids(b, Opposite(s));
    LocatorExactSides(b, s);
    forall x | x in b'.locator ensures x in Ids(b', s) || x in Ids(b', Opposite(s)) {
      if x in IdSeq(X) {
        IdSurvives(X, j, x);
      }
    }
    LocatorExactSides(b', s);
  }

  /** An id other than the dropped order's is still there after dropping position `j`. */
  lemma IdSurvives(X: seq<Order>, j: nat, x: string)
    requires j < |X| && x in IdSeq(X) && x != X[j].id
    ensures x in IdSeq(X[..j] + X[j + 1..])
  {
    var X' := X[..j] + X[j + 1..];
    var i :| 0 <= i < |X| && X[i].id == x;
    var i' := if i < j then i else i - 1;
    assert X'[i'] == X[i];
    assert IdSeq(X')[i'] == x;
  }

  lemma RemovedConsistent(b: Book, s: Side, ls: seq<Level>, j: nat, id: string)
    requires Consistent(b) && RemovalOf(b, s, ls, j, id)
    ensures Consistent(Removed(b, s, ls, id))
  {
    RemovedIds(b, s, ls, j, id);
    RemovedLocated(b, s, ls, j, id);
    RemovedLocatorExact(b, s, ls, j, id);
    var b' := Removed(b, s, ls, id);
    if s == Buy {
      assert SideOk(b', Buy) && SideOk(b', Sell);
    } else {
      assert SideOk(b', Sell) && SideOk(b', Buy);
    }
  }

  /** Filtering by the removed id gives exactly the queues after the removal. */
  lemma RemovedFlatten(b: Book, s: Side, ls: seq<Level>, j: nat, id: string)
    requires Consistent(b) && RemovalOf(b, s, ls, j, id)
    ensures Flatten(Levels(Removed(b, s, ls, id), s)) == Without(Flatten(Levels(b, s)), id)
    ensures Flatten(Levels(Removed(b, s, ls, id), Opposite(s))) == Without(Flatten(Levels(b, Opposite(s))), id)
  {
    var X := Flatten(Levels(b, s));
    var Y := Flatten(Levels(b, Opposite(s)));
    IdsUniqueSides(b, s);
    WithoutAt(X, j, id);
    InIds(X, X[j]);
    forall q | q in Y ensures q.id != id {
      InIds(Y, q);
    }
    WithoutAbsent(Y, id);
  }

  /**
   Withdrawing removes exactly the withdrawn order: on its side, the flattened
   queue loses that one position; the other side and all other locator
   entries are untouched; the book stays consistent.
   */
  lemma WithdrawConsistent(b: Book, id: string)
    requires Consistent(b) && Withdraw(b, id).Some?
    ensures Consistent(Withdraw(b, id).value.1)
    ensures Flatten(Withdraw(b, id).value.1.bids) == Without(Flatten(b.bids), id)
    ensures Flatten(Withdraw(b, id).value.1.asks) == Without(Flatten(b.asks), id)
    ensures Withdraw(b, id).value.0 in Flatten(Levels(b, b.locator[id].side))
  {
    var s := b.locator[id].side;
    var p := b.locator[id].price;
    var ls := RetrieveAt(Levels(b, s), p, id).value.1;
    assert Withdraw(b, id).value.1 == Removed(b, s, ls, id);
    var j := RetrieveAtFlatten(Levels(b, s), p, id);
    assert SideOk(b, s);
    RetrieveAtWellFormed(s, Levels(b, s), p, id);
    assert RemovalOf(b, s, ls, j, id);
    RemovedConsistent(b, s, ls, j, id);
    RemovedFlatten(b, s, ls, j, id);
    if s == Sell {
      assert Opposite(s) == Buy;
    }
  }

  /** Withdrawing never improves the best price of the side it takes from. */
  lemma WithdrawKeepsNoCross(b: Book, id: string)
    requires Valid(b) && Withdraw(b, id).Some?
    ensures NoCross(Withdraw(b, id).value.1)
  {
    var s := b.locator[id].side;
    var p := b.locator[id].price;
    var ls := RetrieveAt(Levels(b, s), p, id).value.1;
    assert SideOk(b, s);
    RetrieveAtPrices(Levels(b, s), p, id);
    if |ls| > 0 {
      var k :| 0 <= k < |Levels(b, s)| && Levels(b, s)[k].price == ls[0].price;
      assert AtLeastAsGood(s, Levels(b, s)[0].price, ls[0].price);
    }
  }

  lemma CancelPreservesValid(b: Book, id: string)
    requires Valid(b)
    ensures Valid(Cancel(b, id))
  {
    if Withdraw(b, id).Some? {
      WithdrawConsistent(b, id);
      WithdrawKeepsNoCross(b, id);
    }
  }

  /**
   Cancel removes exactly the order with that id, wherever it rests, and its
   locator entry; every other order keeps its place and quantity. For an
   unknown id nothing changes.
   */
  lemma CancelRemovesExactlyThatOrder(b: Book, id: string)
    requires Consistent(b)
    ensures Cancel(b, id).locator == b.locator - {id}
    ensures Flatten(Cancel(b, id).bids) == Without(Flatten(b.bids), id)
    ensures Flatten(Cancel(b, id).asks) == Without(Flatten(b.asks), id)
    ensures id !in b.locator ==> Cancel(b, id) == b
  {
    if id in b.locator {
      CancelKnown(b, id);
    } else {
      CancelUnknown(b, id);
    }
  }

  lemma CancelKnown(b: Book, id: string)
    requires Consistent(b) && id in b.locator
    ensures Cancel(b, id).locator == b.locator - {id}
    ensures Flatten(Cancel(b, id).bids) == Without(Flatten(b.bids), id)
    ensures Flatten(Cancel(b, id).asks) == Without(Flatten(b.asks), id)
  {
    WithdrawKnown(b, id);
    assert Cancel(b, id) == Withdraw(b, id).value.1;
    WithdrawConsistent(b, id);
  }

  lemma CancelUnknown(b: Book, id: string)
    requires Consistent(b) && id !in b.locator
    ensures Cancel(b, id) == b
    ensures Cancel(b, id).locator == b.locator - {id}
    ensures Flatten(Cancel(b, id).bids) == Without(Flatten(b.bids), id)
    ensures Flatten(Cancel(b, id).asks) == Without(Flatten(b.asks), id)
  {
    assert b.locator - {id} == b.locator;
    UnknownIdRestsNowhere(b, Buy, id);
    UnknownIdRestsNowhere(b, Sell, id);
  }

  lemma UnknownIdRestsNowhere(b: Book, s: Side, id: string)
    requires Consistent(b) && id !in b.locator
    ensures Without(Flatten(Levels(b, s)), id) == Flatten(Levels(b, s))
  {
    assert SideOk(b, s);
    WithoutAbsent(Flatten(Levels(b, s)), id);
  }

  /** Cancelling twice is cancelling once. */
  lemma CancelIdempotent(b: Book, id: string)
    ensures Cancel(Cancel(b, id), id) == Cancel(b, id)
  {
    if Withdraw(b, id).Some? {
      assert id !in Cancel(b, id).locator;
    }
  }

  // ---------------------------------------------------------------------------
  // Submit: matching keeps the book consistent
  // ---------------------------------------------------------------------------

  lemma LocatedIds(b: Book, s: Side)
    requires SideOk(b, s)
    ensures forall x :: x in Ids(b, s) ==> x in b.locator
  {
    forall x | x in Ids(b, s) ensures x in b.locator {
      var f := Flatten(Levels(b, s));
      var i :| 0 <= i < |f| && f[i].id == x;
      assert f[i] in f;
    }
  }

  /** Position by position, what trimming leaves is the old queue shifted by `k`, with only quantities changed. */
  lemma TrimmedElems(before: seq<Order>, k: nat, rest: seq<Order>)
    requires Trimmed(before, k, rest)
    ensures forall i :: 0 <= i < |rest| ==> rest[i] == before[k + i].(qty := rest[i].qty)
  {
    forall i | 0 <= i < |rest| ensures rest[i] == before[k + i].(qty := rest[i].qty) {
      if i > 0 {
        assert rest[i] == rest[1..][i - 1];
      }
    }
  }

  lemma TrimmedIds(before: seq<Order>, k: nat, rest: seq<Order>)
    requires Trimmed(before, k, rest)
    ensures IdSeq(rest) == IdSeq(before)[k..]
  {
    TrimmedElems(before, k, rest);
  }

  /** `m` is what matching did to side `t` of `b`: a well-formed remainder that drops the `filled` prefix. */
  predicate MatchOf(b: Book, t: Side, m: SideFill) {
    var Y := Flatten(Levels(b, t));
    && WellFormed(t, m.levels)
    && Trimmed(Y, |m.filled|, Flatten(m.levels))
    && m.filled == IdSeq(Y[..|m.filled|])
  }

  lemma MatchSideIsMatchOf(b: Book, o: Order)
    requires Consistent(b)
    ensures MatchOf(b, Opposite(o.side), MatchSide(o, Levels(b, Opposite(o.side))))
  {
    var t := Opposite(o.side);
    assert SideOk(b, t);
    MatchSideWellFormed(t, o, Levels(b, t));
    MatchSideConsumesPrefix(o, Levels(b, t));
  }

  /** The filled ids are the first `k` ids of the side, and the ids left are the rest. */
  lemma MatchedIdSplit(b: Book, t: Side, m: SideFill)
    requires MatchOf(b, t, m)
    ensures Ids(Matched(b, t, m), t) == Ids(b, t)[|m.filled|..]
    ensures m.filled == Ids(b, t)[..|m.filled|]
    ensures Ids(b, t) == m.filled + Ids(Matched(b, t, m), t)
  {
    var Y := Flatten(Levels(b, t));
    var k := |m.filled|;
    TrimmedIds(Y, k, Flatten(m.levels));
    assert IdSeq(Y[..k]) == IdSeq(Y)[..k];
    assert IdSeq(Y) == IdSeq(Y)[..k] + IdSeq(Y)[k..];
  }

  lemma MatchedIds(b: Book, t: Side, m: SideFill)
    requires Consistent(b) && MatchOf(b, t, m)
    ensures IdsUnique(Matched(b, t, m))
    ensures forall x :: x in Ids(Matched(b, t, m), t) ==> x !in m.filled
  {
    var bm := Matched(b, t, m);
    var k := |m.filled|;
    MatchedIdSplit(b, t, m);
    IdsUniqueSides(b, t);
    DistinctSlices(Ids(b, t), k);
    assert Ids(bm, Opposite(t)) == Ids(b, Opposite(t));
    forall x | x in Ids(bm, t) ensures x !in Ids(bm, Opposite(t)) {
      assert x in Ids(b, t);
    }
    IdsUniqueSides(bm, t);
  }

  lemma MatchedLocated(b: Book, t: Side, m: SideFill)
    requires Consistent(b) && MatchOf(b, t, m)
    ensures SideOk(Matched(b, t, m), t) && SideOk(Matched(b, t, m), Opposite(t))
  {
    var bm := Matched(b, t, m);
    var Y := Flatten(Levels(b, t));
    var Y' := Flatten(m.levels);
    var k := |m.filled|;
    assert SideOk(b, t) && SideOk(b, Opposite(t));
    MatchedIds(b, t, m);
    TrimmedElems(Y, k, Y');
    forall q | q in Y' ensures q.id in bm.locator && bm.locator[q.id] == Locus(t, q.price) {
      var i :| 0 <= i < |Y'| && Y'[i] == q;
      assert Y[k + i] in Y;
      assert IdSeq(Y')[i] == q.id;
    }
    IdsUniqueSides(b, t);
    MatchedIdSplit(b, t, m);
    forall q | q in Flatten(Levels(b, Opposite(t))) ensures q.id !in m.filled {
      InIds(Flatten(Levels(b, Opposite(t))), q);
    }
  }

  lemma MatchedLocatorExact(b: Book, t: Side, m: SideFill)
    requires Consistent(b) && MatchOf(b, t, m)
    ensures LocatorExact(Matched(b, t, m))
  {
    var bm := Matched(b, t, m);
    MatchedIdSplit(b, t, m);
    LocatorExactSides(b, t);
    forall x | x in bm.locator ensures x in Ids(bm, t) || x in Ids(bm, Opposite(t)) {
      assert x in b.locator && x !in m.filled;
    }
    LocatorExactSides(bm, t);
  }

  lemma MatchedConsistent(b: Book, t: Side, m: SideFill)
    requires Consistent(b) && MatchOf(b, t, m)
    ensures Consistent(Matched(b, t, m))
  {
    MatchedIds(b, t, m);
    MatchedLocated(b, t, m);
    MatchedLocatorExact(b, t, m);
    var bm := Matched(b, t, m);
    if t == Buy {
      assert SideOk(bm, Buy) && SideOk(bm, Sell);
    } else {
      assert SideOk(bm, Sell) && SideOk(bm, Buy);
    }
  }

  // ---------------------------------------------------------------------------
  // Submit: resting the remainder keeps the book consistent
  // ---------------------------------------------------------------------------

  /** Inserting an order into a queue inserts its id at the same position of the id sequence. */
  lemma IdsAfterInsert(X: seq<Order>, pos: nat, o: Order)
    requires pos <= |X|
    ensures IdSeq(X[..pos] + [o] + X[pos..]) == IdSeq(X)[..pos] + [o.id] + IdSeq(X)[pos..]
    ensures forall x :: x in IdSeq(X[..pos] + [o] + X[pos..]) ==> x == o.id || x in IdSeq(X)
  {
    var I := IdSeq(X);
    var A, B := X[..pos], X[pos..];
    IdSeqAppend(A + [o], B);
    IdSeqAppend(A, [o]);
    assert IdSeq(A) == I[..pos] && IdSeq(B) == I[pos..] && IdSeq([o]) == [o.id];
    assert I == I[..pos] + I[pos..];
  }

  lemma RestIds(b: Book, o: Order)
    requires Consistent(b) && o.id !in b.locator
    ensures IdsUnique(Rest(b, o))
    ensures Ids(Rest(b, o), o.side) == Ids(b, o.side)[..InsertPos(Levels(b, o.side), o)] + [o.id] + Ids(b, o.side)[InsertPos(Levels(b, o.side), o)..]
  {
    var s := o.side;
    var b' := Rest(b, o);
    var X := Flatten(Levels(b, s));
    var pos := InsertPos(Levels(b, s), o);
    InsertFlatten(Levels(b, s), o);
    IdsAfterInsert(X, pos, o);
    assert SideOk(b, s) && SideOk(b, Opposite(s));
    LocatedIds(b, s);
    LocatedIds(b, Opposite(s));
    IdsUniqueSides(b, s);
    DistinctInsert(IdSeq(X), pos, o.id);
    IdsUniqueSides(b', s);
  }

  lemma RestLocated(b: Book, o: Order)
    requires Consistent(b) && o.id !in b.locator && o.qty > 0
    ensures SideOk(Rest(b, o), o.side) && SideOk(Rest(b, o), Opposite(o.side))
  {
    RestOwnSide(b, o);
    RestOtherSide(b, o);
  }

  lemma RestOwnSide(b: Book, o: Order)
    requires Consistent(b) && o.id !in b.locator && o.qty > 0
    ensures SideOk(Rest(b, o), o.side)
  {
    var s := o.side;
    var b' := Rest(b, o);
    var X := Flatten(Levels(b, s));
    var pos := InsertPos(Levels(b, s), o);
    assert SideOk(b, s);
    InsertFlatten(Levels(b, s), o);
    InsertWellFormed(Levels(b, s), o);
    assert Flatten(Levels(b', s)) == X[..pos] + [o] + X[pos..];
    forall q | q in Flatten(Levels(b', s)) ensures q.id in b'.locator && b'.locator[q.id] == Locus(s, q.price) {
      InInsertion(X, pos, o, q);
    }
  }

  /** An element of `X` with `o` inserted is `o` or was in `X`. */
  lemma InInsertion<T>(X: seq<T>, pos: nat, o: T, q: T)
    requires pos <= |X| && q in X[..pos] + [o] + X[pos..]
    ensures q == o || q in X
  {
    assert X == X[..pos] + X[pos..];
  }

  lemma RestOtherSide(b: Book, o: Order)
    requires Consistent(b) && o.id !in b.locator
    ensures SideOk(Rest(b, o), Opposite(o.side))
  {
    var t := Opposite(o.side);
    assert Levels(Rest(b, o), t) == Levels(b, t);
    assert SideOk(b, t);
  }

  lemma RestLocatorExact(b: Book, o: Order)
    requires Consistent(b) && o.id !in b.locator
    ensures LocatorExact(Rest(b, o))
  {
    var s := o.side;
    var b' := Rest(b, o);
    RestIds(b, o);
    var pos := InsertPos(Levels(b, s), o);
    var I := Ids(b, s);
    assert Ids(b', Opposite(s)) == Ids(b, Opposite(s));
    LocatorExactSides(b, s);
    forall x | x in b'.locator ensures x in Ids(b', s) || x in Ids(b', Opposite(s)) {
      if x != o.id && x !in Ids(b, Opposite(s)) {
        InsertionKeeps(I, pos, o.id, x);
      } else if x == o.id {
        InsertionKeeps(I, pos, o.id, x);
      }
    }
    LocatorExactSides(b', s);
  }

  /** Inserting `y` into `I` keeps every element of `I` and adds `y`. */
  lemma InsertionKeeps<T>(I: seq<T>, pos: nat, y: T, x: T)
    requires pos <= |I| && (x in I || x == y)
    ensures x in I[..pos] + [y] + I[pos..]
  {
    assert I == I[..pos] + I[pos..];
  }

  /** Resting an order with a fresh id and a positive quantity keeps the book consistent. */
  lemma RestConsistent(b: Book, o: Order)
    requires Consistent(b) && o.id !in b.locator && o.qty > 0
    ensures Consistent(Rest(b, o))
  {
    RestIds(b, o);
    RestLocated(b, o);
    RestLocatorExact(b, o);
    var b' := Rest(b, o);
    if o.side == Buy {
      assert SideOk(b', Buy) && SideOk(b', Sell);
    } else {
      assert SideOk(b', Sell) && SideOk(b', Buy);
    }
  }

  // ---------------------------------------------------------------------------
  // Submit keeps the whole invariant
  // ---------------------------------------------------------------------------

  lemma SubmitConsistent(b: Book, o: Order)
    requires Consistent(b) && o.id !in b.locator
    ensures Consistent(Submit(b, o).book)
  {
    var t := Opposite(o.side);
    var m := MatchSide(o, Levels(b, t));
    MatchSideIsMatchOf(b, o);
    MatchedConsistent(b, t, m);
    if GoodForDay(m.incoming) && m.incoming.qty > 0 {
      RestConsistent(Matched(b, t, m), m.incoming);
    }
  }

  /** The no-cross condition seen from either side. */
  lemma NoCrossSides(b: Book, s: Side)
    ensures NoCross(b) <==>
      |Levels(b, s)| == 0 || |Levels(b, Opposite(s))| == 0 ||
      !Crosses(s, Levels(b, s)[0].price, Levels(b, Opposite(s))[0].price)
  {
  }

  /** Matching never improves the best price of the side it matches against. */
  lemma MatchSideHeadNoBetter(t: Side, o: Order, levels: seq<Level>)
    requires Sorted(t, levels)
    ensures |MatchSide(o, levels).levels| > 0 ==>
      |levels| > 0 && AtLeastAsGood(t, levels[0].price, MatchSide(o, levels).levels[0].price)
  {
    var r := MatchSide(o, levels);
    if |r.levels| > 0 {
      var d := |levels| - |r.levels|;
      if d > 0 {
        assert Better(t, levels[0].price, levels[d].price);
      }
    }
  }

  lemma SubmitNoCross(b: Book, o: Order)
    requires Valid(b)
    ensures NoCross(Submit(b, o).book)
  {
    var s := o.side;
    var t := Opposite(s);
    var m := MatchSide(o, Levels(b, t));
    var b' := Submit(b, o).book;
    assert SideOk(b, t);
    MatchSideHeadNoBetter(t, o, Levels(b, t));
    SubmitLevels(b, o);
    NoCrossSides(b, s);
    SidesStayApart(s, Levels(b, s), Levels(b, t), Levels(b', s), Levels(b', t), m.incoming);
    NoCrossSides(b', s);
  }

  /** Submit replaces the opposite side by what matching left, and changes its own side only by resting the remainder. */
  lemma SubmitLevels(b: Book, o: Order)
    ensures
      var m := MatchSide(o, Levels(b, Opposite(o.side)));
      var b' := Submit(b, o).book;
      && Levels(b', Opposite(o.side)) == m.levels
      && Levels(b', o.side) == (if GoodForDay(m.incoming) && m.incoming.qty > 0 then Insert(Levels(b, o.side), m.incoming) else Levels(b, o.side))
  {
  }

  /**
   Two sides that did not cross still do not once the opposite side has only
   lost levels at its best end and the own side has at most gained an order
   that does not cross what is left opposite.
   */
  lemma SidesStayApart(s: Side, own: seq<Level>, opp: seq<Level>, own': seq<Level>, opp': seq<Level>, inc: Order)
    requires |own| == 0 || |opp| == 0 || !Crosses(s, own[0].price, opp[0].price)
    requires |opp'| > 0 ==> |opp| > 0 && AtLeastAsGood(Opposite(s), opp[0].price, opp'[0].price)
    requires own' == own || (own' == Insert(own, inc) && (|opp'| == 0 || !Crosses(s, inc.price, opp'[0].price)))
    ensures |own'| == 0 || |opp'| == 0 || !Crosses(s, own'[0].price, opp'[0].price)
  {
  }

  /**
   Submitting an order whose id is not resting keeps the book valid: sides
   sorted and non-empty per level, locator exact, ids unique, and not crossed.
   */
  lemma SubmitPreservesValid(b: Book, o: Order)
    requires Valid(b) && o.id !in b.locator
    ensures Valid(Submit(b, o).book)
  {
    SubmitConsistent(b, o);
    SubmitNoCross(b, o);
  }

  // ---------------------------------------------------------------------------
  // Modify
  // ---------------------------------------------------------------------------

  /**
   Modify is a cancel followed by a fresh submit carrying the same id and time
   in force: the resubmitted order goes through matching and queues at the
   back of its new level.
   */
  lemma ModifyIsCancelThenSubmit(b: Book, id: string, side: Side, price: nat, qty: nat) returns (o: Order)
    requires Valid(b) && id in b.locator
    ensures o in Flatten(Levels(b, b.locator[id].side)) && o.id == id
    ensures Modify(b, id, side, price, qty) == Submit(Cancel(b, id), Order(side, o.tif, price, qty, id))
  {
    WithdrawKnown(b, id);
    WithdrawConsistent(b, id);
    o := Withdraw(b, id).value.0;
  }

  /** Modify of an id that is not resting changes nothing and trades nothing. */
  lemma ModifyUnknownIsNoop(b: Book, id: string, side: Side, price: nat, qty: nat)
    requires id !in b.locator
    ensures Modify(b, id, side, price, qty) == Step(b, [])
  {
  }

  lemma ModifyPreservesValid(b: Book, id: string, side: Side, price: nat, qty: nat)
    requires Valid(b)
    ensures Valid(Modify(b, id, side, price, qty).book)
  {
    if Withdraw(b, id).Some? {
      CancelPreservesValid(b, id);
      var (o, b') := Withdraw(b, id).value;
      SubmitPreservesValid(b', o.(side := side, price := price, qty := qty));
    }
  }
}
