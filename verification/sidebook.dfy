/**
 One side of the book: price levels kept best price first. On the bid side a
 higher price is better, on the ask side a lower one, so the first level is
 always the best bid or best offer. Within a level orders queue oldest first.
 */
module SideBook {
  import opened Orders

  /** Price `p` has strict priority over price `q` on side `s`. */
  predicate Better(s: Side, p: nat, q: nat) {
    if s == Buy then p > q else p < q
  }

  predicate AtLeastAsGood(s: Side, p: nat, q: nat) {
    p == q || Better(s, p, q)
  }

  /** A level present in the side-`s` book: never empty, and every order in it is a side-`s` order at the level's price with something left to trade. */
  predicate LevelOk(s: Side, l: Level) {
    && |l.orders| > 0
    && forall o :: o in l.orders ==> o.side == s && o.price == l.price && o.qty > 0
  }

  /** Strictly best-first: this is also what makes each price appear at most once. */
  predicate Sorted(s: Side, levels: seq<Level>) {
    forall i, j :: 0 <= i < j < |levels| ==> Better(s, levels[i].price, levels[j].price)
  }

  predicate WellFormed(s: Side, levels: seq<Level>) {
    && Sorted(s, levels)
    && forall i :: 0 <= i < |levels| ==> LevelOk(s, levels[i])
  }

  /** All resting orders of a side in priority order: best price first, oldest first within a price. */
  function Flatten(levels: seq<Level>): seq<Order> {
    if |levels| == 0 then [] else levels[0].orders + Flatten(levels[1..])
  }

  /** The queue at price `p`, empty when no level has that price. */
  function OrdersAt(levels: seq<Level>, p: nat): seq<Order> {
    if |levels| == 0 then []
    else if levels[0].price == p then levels[0].orders
    else OrdersAt(levels[1..], p)
  }

  lemma FlattenCons(l: Level, levels: seq<Level>)
    ensures Flatten([l] + levels) == l.orders + Flatten(levels)
  {
    assert ([l] + levels)[1..] == levels;
  }

  lemma WellFormedTail(s: Side, levels: seq<Level>)
    requires WellFormed(s, levels) && |levels| > 0
    ensures WellFormed(s, levels[1..])
  {
  }

  /** Every resting order of a well-formed side belongs to that side, is live, and is priced no better than the best level. */
  lemma {:induction false} FlattenFacts(s: Side, levels: seq<Level>)
    requires WellFormed(s, levels)
    ensures forall o :: o in Flatten(levels) ==> o.side == s && o.qty > 0
    ensures |levels| > 0 ==> forall o :: o in Flatten(levels) ==> AtLeastAsGood(s, levels[0].price, o.price)
  {
    if |levels| > 0 {
      WellFormedTail(s, levels);
      FlattenFacts(s, levels[1..]);
      assert LevelOk(s, levels[0]);
      forall o | o in Flatten(levels)
        ensures o.side == s && o.qty > 0 && AtLeastAsGood(s, levels[0].price, o.price)
      {
        if o !in levels[0].orders {
          assert o in Flatten(levels[1..]);
          assert Better(s, levels[0].price, levels[1].price);
        }
      }
    }
  }

  /** Flattening a well-formed side lists prices from best to worst. */
  lemma {:induction false} FlattenPricesBestFirst(s: Side, levels: seq<Level>)
    requires WellFormed(s, levels)
    ensures forall i, j :: 0 <= i < j < |Flatten(levels)| ==> AtLeastAsGood(s, Flatten(levels)[i].price, Flatten(levels)[j].price)
  {
    if |levels| > 0 {
      var f, os, rest := Flatten(levels), levels[0].orders, Flatten(levels[1..]);
      WellFormedTail(s, levels);
      FlattenPricesBestFirst(s, levels[1..]);
      FlattenFacts(s, levels);
      assert LevelOk(s, levels[0]);
      forall i, j | 0 <= i < j < |f| ensures AtLeastAsGood(s, f[i].price, f[j].price) {
        if j < |os| {
          assert f[i] == os[i] && f[j] == os[j];
        } else if i < |os| {
          assert f[i] == os[i] && f[j] == rest[j - |os|];
          assert f[j] in Flatten(levels);
        } else {
          assert f[i] == rest[i - |os|] && f[j] == rest[j - |os|];
        }
      }
    }
  }

  /** Each resting order is found in the queue at its own price. */
  lemma {:induction false} FlattenInOrdersAt(s: Side, levels: seq<Level>, o: Order)
    requires WellFormed(s, levels) && o in Flatten(levels)
    ensures o in OrdersAt(levels, o.price)
  {
    assert LevelOk(s, levels[0]);
    if o !in levels[0].orders {
      WellFormedTail(s, levels);
      FlattenInOrdersAt(s, levels[1..], o);
      if |levels| > 1 {
        FlattenFacts(s, levels[1..]);
        assert Better(s, levels[0].price, levels[1].price);
      }
    }
  }

  /**
   Rests `o` on its own side: at the back of the queue at `o.price`, or in a new
   level placed where its price belongs. The new best price is the old one or `o.price`.
   */
  function Insert(levels: seq<Level>, o: Order): (r: seq<Level>)
    ensures |r| > 0
    ensures r[0].price == o.price || (|levels| > 0 && r[0].price == levels[0].price)
  {
    if |levels| == 0 then [Level(o.price, [o])]
    else if levels[0].price == o.price then [levels[0].(orders := levels[0].orders + [o])] + levels[1..]
    else if Better(o.side, o.price, levels[0].price) then [Level(o.price, [o])] + levels
    else [levels[0]] + Insert(levels[1..], o)
  }

  /** Resting an order adds exactly that order to the side, in the place priority gives it. */
  lemma {:induction false} InsertFlatten(levels: seq<Level>, o: Order)
    ensures Flatten(Insert(levels, o)) == Flatten(levels)[..InsertPos(levels, o)] + [o] + Flatten(levels)[InsertPos(levels, o)..]
  {
    if |levels| == 0 {
      FlattenCons(Level(o.price, [o]), []);
    } else if levels[0].price == o.price {
      InsertFlattenHere(levels, o);
    } else if Better(o.side, o.price, levels[0].price) {
      FlattenCons(Level(o.price, [o]), levels);
    } else {
      var T := levels[1..];
      InsertFlatten(T, o);
      InsertPast(levels, o);
      ShiftInsert(levels[0].orders, Flatten(T), InsertPos(T, o), o);
    }
  }

  /** The step of `InsertFlatten` where `o` joins the first level. */
  lemma InsertFlattenHere(levels: seq<Level>, o: Order)
    requires |levels| > 0 && levels[0].price == o.price
    ensures Flatten(Insert(levels, o)) == Flatten(levels)[..InsertPos(levels, o)] + [o] + Flatten(levels)[InsertPos(levels, o)..]
  {
    var h, T := levels[0].orders, levels[1..];
    assert Flatten(levels) == h + Flatten(T);
    FlattenCons(levels[0].(orders := h + [o]), T);
    SplitAt(h, Flatten(T), |h|);
  }

  /** Unfolding `Insert`, `InsertPos` and `Flatten` once when `o` goes past the first level. */
  lemma InsertPast(levels: seq<Level>, o: Order)
    requires |levels| > 0 && levels[0].price != o.price && !Better(o.side, o.price, levels[0].price)
    ensures Flatten(Insert(levels, o)) == levels[0].orders + Flatten(Insert(levels[1..], o))
    ensures InsertPos(levels, o) == |levels[0].orders| + InsertPos(levels[1..], o)
    ensures Flatten(levels) == levels[0].orders + Flatten(levels[1..])
  {
    FlattenCons(levels[0], Insert(levels[1..], o));
  }

  /** Inserting into `F` at `k` and then prefixing `h` is inserting into `h + F` at `|h| + k`. */
  lemma ShiftInsert(h: seq<Order>, F: seq<Order>, k: nat, o: Order)
    requires k <= |F|
    ensures h + (F[..k] + [o] + F[k..]) == (h + F)[..|h| + k] + [o] + (h + F)[|h| + k..]
  {
    SplitAt(h, F, |h| + k);
  }

  /** Cutting `h + F` at or past the end of `h`. */
  lemma SplitAt(h: seq<Order>, F: seq<Order>, n: nat)
    requires |h| <= n <= |h| + |F|
    ensures (h + F)[..n] == h + F[..n - |h|] && (h + F)[n..] == F[n - |h|..]
  {
  }

  /** Inserting an order adds exactly its quantity to the side. */
  lemma InsertQty(levels: seq<Level>, o: Order)
    ensures Qty(Flatten(Insert(levels, o))) == Qty(Flatten(levels)) + o.qty
  {
    var X := Flatten(levels);
    var pos := InsertPos(levels, o);
    InsertFlatten(levels, o);
    QtyAppend(X[..pos] + [o], X[pos..]);
    QtyAppend(X[..pos], [o]);
    QtyAppend(X[..pos], X[pos..]);
    assert X == X[..pos] + X[pos..];
    assert Qty([o]) == o.qty + Qty([]);
  }

  /** Resting a live order of the side's own kind keeps the side well formed. */
  lemma InsertWellFormed(levels: seq<Level>, o: Order)
    requires WellFormed(o.side, levels) && o.qty > 0
    ensures WellFormed(o.side, Insert(levels, o))
  {
    InsertSorted(levels, o);
    InsertLevelsOk(levels, o);
  }

  lemma {:induction false} InsertSorted(levels: seq<Level>, o: Order)
    requires Sorted(o.side, levels)
    ensures Sorted(o.side, Insert(levels, o))
  {
    var s, r := o.side, Insert(levels, o);
    if |levels| == 0 {
    } else if levels[0].price == o.price {
      forall i, j | 0 <= i < j < |r| ensures Better(s, r[i].price, r[j].price) {
        assert r[j] == levels[j];
        assert r[i].price == levels[i].price;
      }
    } else if Better(s, o.price, levels[0].price) {
      forall i, j | 0 <= i < j < |r| ensures Better(s, r[i].price, r[j].price) {
        assert r[j] == levels[j - 1];
        if i > 0 { assert r[i] == levels[i - 1]; }
      }
    } else {
      var tail := Insert(levels[1..], o);
      InsertSorted(levels[1..], o);
      assert r == [levels[0]] + tail;
      assert Better(s, r[0].price, tail[0].price) by {
        if |levels| > 1 {
          assert Better(s, levels[0].price, levels[1].price);
        }
      }
      forall i, j | 0 <= i < j < |r| ensures Better(s, r[i].price, r[j].price) {
        assert r[j] == tail[j - 1];
        if i > 0 {
          assert r[i] == tail[i - 1];
        } else if j > 1 {
          assert Better(s, tail[0].price, tail[j - 1].price);
        }
      }
    }
  }

  lemma {:induction false} InsertLevelsOk(levels: seq<Level>, o: Order)
    requires forall i :: 0 <= i < |levels| ==> LevelOk(o.side, levels[i])
    requires o.qty > 0
    ensures forall i :: 0 <= i < |Insert(levels, o)| ==> LevelOk(o.side, Insert(levels, o)[i])
  {
    var s, r := o.side, Insert(levels, o);
    if |levels| == 0 {
    } else if levels[0].price == o.price {
      assert LevelOk(s, levels[0]);
      forall i | 0 <= i < |r| ensures LevelOk(s, r[i]) {
        if i > 0 { assert r[i] == levels[i]; }
      }
    } else if Better(s, o.price, levels[0].price) {
      forall i | 0 <= i < |r| ensures LevelOk(s, r[i]) {
        if i > 0 { assert r[i] == levels[i - 1]; }
      }
    } else {
      var tail := Insert(levels[1..], o);
      InsertLevelsOk(levels[1..], o);
      assert r == [levels[0]] + tail;
      forall i | 0 <= i < |r| ensures LevelOk(s, r[i]) {
        if i > 0 { assert r[i] == tail[i - 1]; }
      }
    }
  }

  /** Where in the flattened side `Insert` places `o`: after everything of its price or better. */
  function InsertPos(levels: seq<Level>, o: Order): (j: nat)
    ensures j <= |Flatten(levels)|
  {
    if |levels| == 0 then 0
    else if levels[0].price == o.price then |levels[0].orders|
    else if Better(o.side, o.price, levels[0].price) then 0
    else |levels[0].orders| + InsertPos(levels[1..], o)
  }

  /** A rested order joins the back of the queue at its price; every other price keeps its queue. */
  lemma {:induction false} InsertAppendsAtBack(levels: seq<Level>, o: Order)
    requires Sorted(o.side, levels)
    ensures OrdersAt(Insert(levels, o), o.price) == OrdersAt(levels, o.price) + [o]
    ensures forall p :: p != o.price ==> OrdersAt(Insert(levels, o), p) == OrdersAt(levels, p)
  {
    var r := Insert(levels, o);
    if |levels| == 0 {
    } else if levels[0].price == o.price {
      assert r[1..] == levels[1..];
    } else if Better(o.side, o.price, levels[0].price) {
      assert r[1..] == levels;
      NoLevelAt(o.side, levels, o.price);
    } else {
      InsertAppendsAtBack(levels[1..], o);
      assert r[1..] == Insert(levels[1..], o);
    }
  }

  /** A price better than the best level has no queue. */
  lemma {:induction false} NoLevelAt(s: Side, levels: seq<Level>, p: nat)
    requires Sorted(s, levels) && |levels| > 0 && Better(s, p, levels[0].price)
    ensures OrdersAt(levels, p) == []
  {
    if |levels| > 1 {
      assert Better(s, levels[0].price, levels[1].price);
      NoLevelAt(s, levels[1..], p);
    }
  }

  /** Takes the order `id` out of a queue, or fails when it is not there. */
  function RetrieveInLevel(orders: seq<Order>, id: string): (r: Option<(Order, seq<Order>)>)
    ensures r.Some? <==> id in IdSeq(orders)
    ensures r.Some? ==> r.value.0.id == id && r.value.0 in orders && |r.value.1| == |orders| - 1
  {
    var i := IndexOf(orders, id);
    if i == |orders| then None else Some((orders[i], orders[..i] + orders[i + 1..]))
  }

  /**
   Retrieval from a queue keeps every order that does not carry `id`, in
   queue order; when the ids in the queue are distinct, what is left is the
   queue without that order.
   */
  lemma RetrieveInLevelContents(orders: seq<Order>, id: string)
    ensures RetrieveInLevel(orders, id).Some? ==> Without(RetrieveInLevel(orders, id).value.1, id) == Without(orders, id)
    ensures RetrieveInLevel(orders, id).Some? && Distinct(IdSeq(orders)) ==> RetrieveInLevel(orders, id).value.1 == Without(orders, id)
  {
    var i := IndexOf(orders, id);
    if i < |orders| {
      assert RetrieveInLevel(orders, id).value.1 == orders[..i] + orders[i + 1..];
      DropOneCarrier(orders[..i], orders[i], orders[i + 1..], id);
      assert orders[..i] + [orders[i]] + orders[i + 1..] == orders;
      if Distinct(IdSeq(orders)) {
        WithoutAt(orders, i, id);
      }
    }
  }

  /** Dropping one order that carries `id` does not change what is left without `id`. */
  lemma DropOneCarrier(pre: seq<Order>, o: Order, post: seq<Order>, id: string)
    requires o.id == id
    ensures Without(pre + post, id) == Without(pre + [o] + post, id)
  {
    WithoutAppend(pre + [o], post, id);
    WithoutAppend(pre, [o], id);
    WithoutAppend(pre, post, id);
    assert [o][1..] == [];
    assert Without([o], id) == [];
  }

  /**
   Takes the order `id` out of the level at price `p`, dropping the level if it
   empties; fails when there is no such level or the order is not queued there.
   */
  function RetrieveAt(levels: seq<Level>, p: nat, id: string): (r: Option<(Order, seq<Level>)>)
    ensures r.Some? <==> id in IdSeq(OrdersAt(levels, p))
    ensures r.Some? ==> r.value.0.id == id && r.value.0 in OrdersAt(levels, p)
  {
    if |levels| == 0 then None
    else if levels[0].price == p then
      match RetrieveInLevel(levels[0].orders, id)
      case None => None
      case Some((o, rest)) => Some((o, if |rest| == 0 then levels[1..] else [Level(p, rest)] + levels[1..]))
    else
      match RetrieveAt(levels[1..], p, id)
      case None => None
      case Some((o, ls)) => Some((o, [levels[0]] + ls))
  }

  /** Retrieval removes exactly one position of the flattened side, the one holding the order. */
  lemma {:induction false} RetrieveAtFlatten(levels: seq<Level>, p: nat, id: string) returns (j: nat)
    requires RetrieveAt(levels, p, id).Some?
    ensures j < |Flatten(levels)| && Flatten(levels)[j] == RetrieveAt(levels, p, id).value.0
    ensures Flatten(RetrieveAt(levels, p, id).value.1) == Flatten(levels)[..j] + Flatten(levels)[j + 1..]
  {
    if levels[0].price == p {
      j := RetrieveHereFlatten(levels, p, id);
    } else {
      var j' := RetrieveAtFlatten(levels[1..], p, id);
      j := RetrievePastFlatten(levels, p, id, j');
    }
  }

  /** The step of `RetrieveAtFlatten` where the order is in the first level. */
  lemma RetrieveHereFlatten(levels: seq<Level>, p: nat, id: string) returns (j: nat)
    requires |levels| > 0 && levels[0].price == p && RetrieveAt(levels, p, id).Some?
    ensures j < |Flatten(levels)| && Flatten(levels)[j] == RetrieveAt(levels, p, id).value.0
    ensures Flatten(RetrieveAt(levels, p, id).value.1) == Flatten(levels)[..j] + Flatten(levels)[j + 1..]
  {
    var os, g := levels[0].orders, Flatten(levels[1..]);
    var ls := RetrieveAt(levels, p, id).value.1;
    j := IndexOf(os, id);
    var rest := os[..j] + os[j + 1..];
    assert Flatten(levels) == os + g;
    if |rest| == 0 {
      assert ls == levels[1..];
    } else {
      FlattenCons(Level(p, rest), levels[1..]);
    }
    CutInFront(os, g, j);
  }

  /** The step of `RetrieveAtFlatten` where the order is in a later level, at `j'` of the rest. */
  lemma RetrievePastFlatten(levels: seq<Level>, p: nat, id: string, j': nat) returns (j: nat)
    requires |levels| > 0 && levels[0].price != p && RetrieveAt(levels, p, id).Some?
    requires j' < |Flatten(levels[1..])| && Flatten(levels[1..])[j'] == RetrieveAt(levels[1..], p, id).value.0
    requires Flatten(RetrieveAt(levels[1..], p, id).value.1) == Flatten(levels[1..])[..j'] + Flatten(levels[1..])[j' + 1..]
    ensures j < |Flatten(levels)| && Flatten(levels)[j] == RetrieveAt(levels, p, id).value.0
    ensures Flatten(RetrieveAt(levels, p, id).value.1) == Flatten(levels)[..j] + Flatten(levels)[j + 1..]
  {
    var h, g := levels[0].orders, Flatten(levels[1..]);
    var ls' := RetrieveAt(levels[1..], p, id).value.1;
    assert RetrieveAt(levels, p, id).value.1 == [levels[0]] + ls';
    FlattenCons(levels[0], ls');
    assert Flatten(levels) == h + g;
    j := |h| + j';
    CutInBack(h, g, j');
  }

  /** Removing position `j` of `os + g` when it falls inside `os`. */
  lemma CutInFront(os: seq<Order>, g: seq<Order>, j: nat)
    requires j < |os|
    ensures (os + g)[j] == os[j]
    ensures (os + g)[..j] + (os + g)[j + 1..] == (os[..j] + os[j + 1..]) + g
  {
  }

  /** Removing position `|h| + j` of `h + g`, which falls inside `g` at `j`. */
  lemma CutInBack(h: seq<Order>, g: seq<Order>, j: nat)
    requires j < |g|
    ensures (h + g)[|h| + j] == g[j]
    ensures (h + g)[..|h| + j] + (h + g)[|h| + j + 1..] == h + (g[..j] + g[j + 1..])
  {
  }

  /** Retrieval keeps the side sorted and every level non-empty. */
  lemma {:induction false} RetrieveAtWellFormed(s: Side, levels: seq<Level>, p: nat, id: string)
    requires WellFormed(s, levels) && RetrieveAt(levels, p, id).Some?
    ensures WellFormed(s, RetrieveAt(levels, p, id).value.1)
  {
    WellFormedTail(s, levels);
    if levels[0].price == p {
      RetrieveHereWellFormed(s, levels, p, id);
    } else {
      RetrieveAtWellFormed(s, levels[1..], p, id);
      HeadBeatsRetrieved(s, levels, p, id);
      RetrievePastWellFormed(s, levels, p, id);
    }
  }

  /** The step of `RetrieveAtWellFormed` where the order is in the first level. */
  lemma RetrieveHereWellFormed(s: Side, levels: seq<Level>, p: nat, id: string)
    requires WellFormed(s, levels) && |levels| > 0 && levels[0].price == p && RetrieveAt(levels, p, id).Some?
    ensures WellFormed(s, RetrieveAt(levels, p, id).value.1)
  {
    var ls := RetrieveAt(levels, p, id).value.1;
    WellFormedTail(s, levels);
    var os := levels[0].orders;
    var i := IndexOf(os, id);
    var rest := os[..i] + os[i + 1..];
    if |rest| > 0 {
      assert LevelOk(s, levels[0]);
      assert LevelOk(s, Level(p, rest));
      assert ls == [Level(p, rest)] + levels[1..];
      forall a, b | 0 <= a < b < |ls| ensures Better(s, ls[a].price, ls[b].price) {
        assert ls[a].price == levels[a].price && ls[b] == levels[b];
      }
      forall a | 0 <= a < |ls| ensures LevelOk(s, ls[a]) {
        if a > 0 { assert ls[a] == levels[a]; }
      }
    }
  }

  /** The step of `RetrieveAtWellFormed` where the order is in a later level. */
  lemma RetrievePastWellFormed(s: Side, levels: seq<Level>, p: nat, id: string)
    requires WellFormed(s, levels) && |levels| > 0 && levels[0].price != p && RetrieveAt(levels, p, id).Some?
    requires WellFormed(s, RetrieveAt(levels[1..], p, id).value.1)
    requires forall b :: 0 <= b < |RetrieveAt(levels[1..], p, id).value.1| ==>
      Better(s, levels[0].price, RetrieveAt(levels[1..], p, id).value.1[b].price)
    ensures WellFormed(s, RetrieveAt(levels, p, id).value.1)
  {
    var ls := RetrieveAt(levels, p, id).value.1;
    var ls' := RetrieveAt(levels[1..], p, id).value.1;
    assert ls == [levels[0]] + ls';
    forall a, b | 0 <= a < b < |ls| ensures Better(s, ls[a].price, ls[b].price) {
      assert ls[b] == ls'[b - 1];
      if a > 0 {
        assert ls[a] == ls'[a - 1];
      }
    }
    forall a | 0 <= a < |ls| ensures LevelOk(s, ls[a]) {
      if a > 0 { assert ls[a] == ls'[a - 1]; }
    }
  }

  /** Every level left after retrieving from the tail is still worse than the first level. */
  lemma HeadBeatsRetrieved(s: Side, levels: seq<Level>, p: nat, id: string)
    requires WellFormed(s, levels) && |levels| > 0 && RetrieveAt(levels[1..], p, id).Some?
    ensures forall b :: 0 <= b < |RetrieveAt(levels[1..], p, id).value.1| ==>
      Better(s, levels[0].price, RetrieveAt(levels[1..], p, id).value.1[b].price)
  {
    var ls' := RetrieveAt(levels[1..], p, id).value.1;
    RetrieveAtPrices(levels[1..], p, id);
    forall b | 0 <= b < |ls'| ensures Better(s, levels[0].price, ls'[b].price) {
      var k :| 0 <= k < |levels[1..]| && levels[1..][k].price == ls'[b].price;
      assert levels[1..][k] == levels[k + 1];
    }
  }

  /** Retrieval creates no new price. */
  lemma {:induction false} RetrieveAtPrices(levels: seq<Level>, p: nat, id: string)
    requires RetrieveAt(levels, p, id).Some?
    ensures forall b :: 0 <= b < |RetrieveAt(levels, p, id).value.1| ==>
      exists k :: 0 <= k < |levels| && levels[k].price == RetrieveAt(levels, p, id).value.1[b].price
  {
    var ls := RetrieveAt(levels, p, id).value.1;
    if levels[0].price == p {
      forall b | 0 <= b < |ls| ensures exists k :: 0 <= k < |levels| && levels[k].price == ls[b].price {
        if ls == levels[1..] {
          assert levels[b + 1].price == ls[b].price;
        } else if b == 0 {
          assert levels[0].price == ls[b].price;
        } else {
          assert levels[b].price == ls[b].price;
        }
      }
    } else {
      var ls' := RetrieveAt(levels[1..], p, id).value.1;
      RetrieveAtPrices(levels[1..], p, id);
      forall b | 0 <= b < |ls| ensures exists k :: 0 <= k < |levels| && levels[k].price == ls[b].price {
        if b == 0 {
          assert levels[0].price == ls[b].price;
        } else {
          assert ls[b] == ls'[b - 1];
          var k :| 0 <= k < |levels[1..]| && levels[1..][k].price == ls'[b - 1].price;
          assert levels[k + 1].price == ls[b].price;
        }
      }
    }
  }
}
