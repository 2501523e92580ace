/**
 The matching algorithm: an incoming order walks the opposite side best price
 first and, inside each crossing level, fills against the oldest order first.
 Fully filled resting orders and emptied levels are removed; a partly filled
 resting order keeps its place at the front of its queue.
 */
module Matching {
  import opened Orders
  import opened SideBook

  /** An incoming order on side `s` with limit `price` may trade against resting orders at `levelPrice`. */
  predicate Crosses(s: Side, price: nat, levelPrice: nat) {
    if s == Buy then price >= levelPrice else price <= levelPrice
  }

  /** `rest` is `before` with its first `k` orders consumed and, at most, the next one partly filled. */
  predicate Trimmed(before: seq<Order>, k: nat, rest: seq<Order>) {
    && k <= |before|
    && |rest| == |before| - k
    && (|rest| > 0 ==>
          && rest[0] == before[k].(qty := rest[0].qty)
          && rest[0].qty <= before[k].qty
          && rest[1..] == before[k + 1..])
  }

  /**
   Price-time priority as a reference: the i-th trade is against the i-th
   resting order in priority order, and its size is the smaller of that
   order's quantity and what the incoming order still had at that point.
   */
  predicate PriorityFills(inc: Order, resting: seq<Order>, trades: seq<Trade>) {
    && |trades| <= |resting|
    && forall i :: 0 <= i < |trades| ==> FillAt(inc, resting, trades, i)
  }

  /** The i-th trade is against the i-th resting order, for the match size of its quantity and the incoming order's remainder. */
  predicate FillAt(inc: Order, resting: seq<Order>, trades: seq<Trade>, i: nat) {
    && i < |trades| && i < |resting|
    && trades[i].restingId == resting[i].id
    && trades[i].restingPrice == resting[i].price
    && trades[i].incomingId == inc.id
    && trades[i].incomingPrice == inc.price
    && SumSizes(trades[..i]) <= inc.qty
    && trades[i].size == MatchSize(resting[i].qty, inc.qty - SumSizes(trades[..i]))
  }

  /** The outcome of matching against one queue: what is left of the incoming order and of the queue, the ids filled completely, and the trades in order. */
  datatype LevelFill = LevelFill(incoming: Order, rest: seq<Order>, filled: seq<string>, trades: seq<Trade>)

  /**
   Matches `inc` against one queue, oldest order first. Each step trades the
   smaller of the two quantities; a resting order that reaches zero leaves the
   queue and the locator; the walk stops as soon as the incoming order is done.
   */
  function MatchLevel(inc: Order, orders: seq<Order>): LevelFill
    decreases |orders|
  {
    if |orders| == 0 then LevelFill(inc, orders, [], [])
    else
      var b := orders[0];
      var m := MatchSize(b.qty, inc.qty);
      var t := Trade(b.id, b.price, m, inc.id, inc.price);
      var inc' := inc.(qty := inc.qty - m);
      if b.qty - m == 0 then
        if inc'.qty == 0 then LevelFill(inc', orders[1..], [b.id], [t])
        else
          var r := MatchLevel(inc', orders[1..]);
          LevelFill(r.incoming, r.rest, [b.id] + r.filled, [t] + r.trades)
      else LevelFill(inc', [b.(qty := b.qty - m)] + orders[1..], [], [t])
  }

  /**
   What matching one queue does: the incoming order keeps everything but its
   quantity, which drops by exactly the traded total; the queue loses a filled
   prefix, whose ids are reported, and at most the next order is partly filled;
   the queue loses exactly the traded quantity; a partly filled order is left
   only when the incoming order is done.
   */
  lemma {:induction false} MatchLevelFacts(inc: Order, orders: seq<Order>)
    ensures LevelFillOk(inc, orders, MatchLevel(inc, orders))
    decreases |orders|
  {
    if |orders| > 0 {
      var b := orders[0];
      if b.qty == inc.qty {
        FilledLast(inc, orders);
        assert MatchLevel(inc, orders) == LevelFill(inc.(qty := 0), orders[1..], [b.id], [Trade(b.id, b.price, b.qty, inc.id, inc.price)]);
      } else if b.qty < inc.qty {
        var inc' := inc.(qty := inc.qty - b.qty);
        var r := MatchLevel(inc', orders[1..]);
        MatchLevelFacts(inc', orders[1..]);
        FilledAndOn(inc, orders, r);
        assert MatchLevel(inc, orders) == LevelFill(r.incoming, r.rest, [b.id] + r.filled, [Trade(b.id, b.price, b.qty, inc.id, inc.price)] + r.trades);
      } else {
        PartlyFilled(inc, orders);
        assert MatchLevel(inc, orders) == LevelFill(inc.(qty := 0), [b.(qty := b.qty - inc.qty)] + orders[1..], [], [Trade(b.id, b.price, inc.qty, inc.id, inc.price)]);
      }
    } else {
      assert orders[..0] == [];
    }
  }

  /** What `MatchLevel` promises, as one predicate so that each case can be proved on its own. */
  predicate LevelFillOk(inc: Order, orders: seq<Order>, r: LevelFill) {
    && r.incoming == inc.(qty := r.incoming.qty)
    && Trimmed(orders, |r.filled|, r.rest) && r.filled == IdSeq(orders[..|r.filled|])
    && (|r.trades| == |r.filled| || (|r.rest| > 0 && |r.trades| == |r.filled| + 1))
    && (|r.rest| > 0 ==> r.incoming.qty == 0)
    && inc.qty == SumSizes(r.trades) + r.incoming.qty
    && Qty(orders) == SumSizes(r.trades) + Qty(r.rest)
  }

  /** The first resting order and the incoming order have the same quantity: both are used up. */
  lemma FilledLast(inc: Order, orders: seq<Order>)
    requires |orders| > 0 && orders[0].qty == inc.qty
    ensures
      var b := orders[0];
      LevelFillOk(inc, orders, LevelFill(inc.(qty := 0), orders[1..], [b.id], [Trade(b.id, b.price, b.qty, inc.id, inc.price)]))
  {
    var b := orders[0];
    assert orders[..1] == [b];
    assert SumSizes([Trade(b.id, b.price, b.qty, inc.id, inc.price)]) == b.qty + SumSizes([]);
  }

  /** The first resting order is filled completely and the incoming order goes on to the next. */
  lemma FilledAndOn(inc: Order, orders: seq<Order>, r: LevelFill)
    requires |orders| > 0 && orders[0].qty < inc.qty
    requires LevelFillOk(inc.(qty := inc.qty - orders[0].qty), orders[1..], r)
    ensures
      var b := orders[0];
      LevelFillOk(inc, orders, LevelFill(r.incoming, r.rest, [b.id] + r.filled, [Trade(b.id, b.price, b.qty, inc.id, inc.price)] + r.trades))
  {
    var b := orders[0];
    var t := Trade(b.id, b.price, b.qty, inc.id, inc.price);
    TrimmedCons(orders, |r.filled|, r.rest);
    assert orders[..|r.filled| + 1] == [b] + orders[1..][..|r.filled|];
    assert ([t] + r.trades)[1..] == r.trades;
  }

  /** The incoming order is used up inside the first resting order, which stays with the difference. */
  lemma PartlyFilled(inc: Order, orders: seq<Order>)
    requires |orders| > 0 && orders[0].qty > inc.qty
    ensures
      var b := orders[0];
      LevelFillOk(inc, orders, LevelFill(inc.(qty := 0), [b.(qty := b.qty - inc.qty)] + orders[1..], [], [Trade(b.id, b.price, inc.qty, inc.id, inc.price)]))
  {
    var b := orders[0];
    var rest := [b.(qty := b.qty - inc.qty)] + orders[1..];
    assert rest[1..] == orders[1..];
    assert SumSizes([Trade(b.id, b.price, inc.qty, inc.id, inc.price)]) == inc.qty + SumSizes([]);
  }

  /** Consuming the head first and then `k` orders of the tail is consuming `k + 1` orders. */
  lemma TrimmedCons(orders: seq<Order>, k: nat, rest: seq<Order>)
    requires |orders| > 0 && Trimmed(orders[1..], k, rest)
    ensures Trimmed(orders, k + 1, rest)
  {
    if |rest| > 0 {
      assert orders[1..][k] == orders[k + 1];
      assert orders[1..][k + 1..] == orders[k + 2..];
    }
  }

  /** Within a level, trades follow time priority and the min-size rule. */
  lemma {:induction false} MatchLevelPriority(inc: Order, orders: seq<Order>)
    ensures PriorityFills(inc, orders, MatchLevel(inc, orders).trades)
    decreases |orders|
  {
    if |orders| > 0 {
      var b := orders[0];
      var t := Trade(b.id, b.price, MatchSize(b.qty, inc.qty), inc.id, inc.price);
      if b.qty < inc.qty {
        var inc' := inc.(qty := inc.qty - b.qty);
        var rs := MatchLevel(inc', orders[1..]).trades;
        assert MatchLevel(inc, orders).trades == [t] + rs;
        MatchLevelPriority(inc', orders[1..]);
        PriorityCons(inc, orders, t, rs);
      } else {
        assert MatchLevel(inc, orders).trades == [t];
        PriorityCons(inc, orders, t, []);
      }
    }
  }

  /** A first trade against the front order, followed by fills of the rest of the queue with what remains. */
  lemma PriorityCons(inc: Order, orders: seq<Order>, t: Trade, rs: seq<Trade>)
    requires |orders| > 0
    requires t == Trade(orders[0].id, orders[0].price, MatchSize(orders[0].qty, inc.qty), inc.id, inc.price)
    requires PriorityFills(inc.(qty := inc.qty - t.size), orders[1..], rs)
    ensures PriorityFills(inc, orders, [t] + rs)
  {
    var ts := [t] + rs;
    assert ts[0] == t && ts[..0] == [];
    assert FillAt(inc, orders, ts, 0);
    forall i | 0 < i < |ts| ensures FillAt(inc, orders, ts, i) {
      assert FillAt(inc.(qty := inc.qty - t.size), orders[1..], rs, i - 1);
      FillCons(inc, orders, t, rs, i);
    }
  }

  /** One more trade at the front, against the order at the front, shifts every later fill by one place. */
  lemma FillCons(inc: Order, orders: seq<Order>, t: Trade, rs: seq<Trade>, i: nat)
    requires 0 < i <= |rs| && |orders| > 0 && t.size <= inc.qty
    requires FillAt(inc.(qty := inc.qty - t.size), orders[1..], rs, i - 1)
    ensures FillAt(inc, orders, [t] + rs, i)
  {
    PrefixSum(t, rs, i);
    assert ([t] + rs)[i] == rs[i - 1] && orders[i] == orders[1..][i - 1];
  }

  lemma PrefixSum(t: Trade, ts: seq<Trade>, i: nat)
    requires 0 < i <= |ts| + 1
    ensures SumSizes(([t] + ts)[..i]) == t.size + SumSizes(ts[..i - 1])
  {
    assert ([t] + ts)[..i] == [t] + ts[..i - 1];
    assert ([t] + ts[..i - 1])[1..] == ts[..i - 1];
  }

  /** Matching never leaves a zero-quantity order in the queue. */
  lemma {:induction false} MatchLevelLive(inc: Order, orders: seq<Order>)
    requires forall o :: o in orders ==> o.qty > 0
    ensures forall o :: o in MatchLevel(inc, orders).rest ==> o.qty > 0
    decreases |orders|
  {
    if |orders| > 0 {
      var b := orders[0];
      var m := MatchSize(b.qty, inc.qty);
      var inc' := inc.(qty := inc.qty - m);
      var rest := MatchLevel(inc, orders).rest;
      if b.qty - m == 0 {
        if inc'.qty != 0 {
          MatchLevelLive(inc', orders[1..]);
        }
        forall o | o in orders[1..] ensures o in orders { }
      } else {
        forall o | o in rest ensures o.qty > 0 {
          if o != rest[0] {
            assert o in orders[1..];
            assert o in orders;
          }
        }
      }
    }
  }

  /** The outcome of matching against a whole side. */
  datatype SideFill = SideFill(incoming: Order, levels: seq<Level>, filled: seq<string>, trades: seq<Trade>)

  /**
   Matches `inc` against the opposite side, best level first, stopping at the
   first level that does not cross or once the incoming order is done. Levels
   the match empties are dropped.
   */
  function MatchSide(inc: Order, levels: seq<Level>): (r: SideFill)
    ensures r.incoming == inc.(qty := r.incoming.qty)
    ensures inc.qty == SumSizes(r.trades) + r.incoming.qty
    ensures r.incoming.qty > 0 ==> |r.levels| == 0 || !Crosses(inc.side, inc.price, r.levels[0].price)
    ensures |r.levels| <= |levels|
    ensures |r.levels| > 0 ==> r.levels[0].price == levels[|levels| - |r.levels|].price
    decreases |levels|
  {
    if |levels| == 0 || !Crosses(inc.side, inc.price, levels[0].price) then
      SideFill(inc, levels, [], [])
    else
      var lf := MatchLevel(inc, levels[0].orders);
      MatchLevelFacts(inc, levels[0].orders);
      if lf.incoming.qty == 0 then
        if |lf.rest| == 0 then SideFill(lf.incoming, levels[1..], lf.filled, lf.trades)
        else SideFill(lf.incoming, [Level(levels[0].price, lf.rest)] + levels[1..], lf.filled, lf.trades)
      else
        var r := MatchSide(lf.incoming, levels[1..]);
        SumSizesAppend(lf.trades, r.trades);
        SideFill(r.incoming, r.levels, lf.filled + r.filled, lf.trades + r.trades)
  }

  /**
   What matching leaves of the side is the old side, in priority order, minus
   the orders it filled completely (a prefix, whose ids it reports) and with at
   most the next order partly filled.
   */
  lemma {:induction false} MatchSideConsumesPrefix(inc: Order, levels: seq<Level>)
    ensures Trimmed(Flatten(levels), |MatchSide(inc, levels).filled|, Flatten(MatchSide(inc, levels).levels))
    ensures MatchSide(inc, levels).filled == IdSeq(Flatten(levels)[..|MatchSide(inc, levels).filled|])
    decreases |levels|
  {
    var r := MatchSide(inc, levels);
    if |levels| == 0 || !Crosses(inc.side, inc.price, levels[0].price) {
      assert r.filled == [] && r.levels == levels;
    } else {
      var os := levels[0].orders;
      var lf := MatchLevel(inc, os);
      MatchLevelFacts(inc, os);
      var g := Flatten(levels[1..]);
      assert Flatten(levels) == levels[0].orders + Flatten(levels[1..]);
      if lf.incoming.qty == 0 {
        assert r.filled == lf.filled;
        StopInLevel(os, g, lf.filled, lf.rest, levels[0].price, levels[1..], r.levels);
      } else {
        var r' := MatchSide(lf.incoming, levels[1..]);
        MatchSideConsumesPrefix(lf.incoming, levels[1..]);
        assert r.filled == lf.filled + r'.filled && r.levels == r'.levels;
        ContinuePastLevel(os, g, lf.filled, lf.rest, r'.filled, Flatten(r'.levels));
      }
    }
  }

  /** The case where the first level is used up and matching goes on to the next. */
  lemma ContinuePastLevel(os: seq<Order>, g: seq<Order>, filled: seq<string>, rest: seq<Order>, filled': seq<string>, rest': seq<Order>)
    requires Trimmed(os, |filled|, rest) && filled == IdSeq(os[..|filled|]) && |rest| == 0
    requires Trimmed(g, |filled'|, rest') && filled' == IdSeq(g[..|filled'|])
    ensures Trimmed(os + g, |filled + filled'|, rest')
    ensures filled + filled' == IdSeq((os + g)[..|filled + filled'|])
  {
    assert os[..|filled|] == os;
    TrimmedShift(os, g, |filled'|, rest');
  }

  /** The case where the incoming order is done inside the first level. */
  lemma StopInLevel(os: seq<Order>, g: seq<Order>, filled: seq<string>, rest: seq<Order>, p: nat, tail: seq<Level>, result: seq<Level>)
    requires Trimmed(os, |filled|, rest) && filled == IdSeq(os[..|filled|])
    requires g == Flatten(tail)
    requires result == if |rest| == 0 then tail else [Level(p, rest)] + tail
    ensures Trimmed(os + g, |filled|, Flatten(result))
    ensures filled == IdSeq((os + g)[..|filled|])
  {
    if |rest| > 0 {
      FlattenCons(Level(p, rest), tail);
      TrimmedAppend(os, |filled|, rest, g);
    } else {
      assert (os + g)[..|filled|] == os;
      assert (os + g)[|filled|..] == g;
    }
  }

  /**
   Each trade takes exactly its size off the resting order it is against: the
   first `k` orders traded their whole quantity and are gone, and the one after
   them, if still there, lost exactly the size of the single partial trade (or
   nothing, when there was none). There are `k` or `k + 1` trades.
   */
  predicate Consumed(before: seq<Order>, k: nat, rest: seq<Order>, trades: seq<Trade>) {
    && k <= |before| && k <= |trades| <= k + 1
    && (forall i :: 0 <= i < k ==> trades[i].size == before[i].qty)
    && (|trades| == k + 1 ==> |rest| > 0 && k < |before|)
    && (|rest| > 0 && k < |before| ==>
          rest[0].qty + (if |trades| == k + 1 then trades[k].size else 0) == before[k].qty)
  }

  lemma {:induction false} MatchLevelConsumed(inc: Order, orders: seq<Order>)
    ensures Consumed(orders, |MatchLevel(inc, orders).filled|, MatchLevel(inc, orders).rest, MatchLevel(inc, orders).trades)
    decreases |orders|
  {
    if |orders| > 0 {
      var b := orders[0];
      var t := Trade(b.id, b.price, MatchSize(b.qty, inc.qty), inc.id, inc.price);
      if b.qty < inc.qty {
        var inc' := inc.(qty := inc.qty - b.qty);
        var r := MatchLevel(inc', orders[1..]);
        assert MatchLevel(inc, orders) == LevelFill(r.incoming, r.rest, [b.id] + r.filled, [t] + r.trades);
        MatchLevelConsumed(inc', orders[1..]);
        ConsumedCons(orders, |r.filled|, r.rest, t, r.trades);
      }
    }
  }

  /** A first trade that used up the front order, followed by the consumption of the rest of the queue. */
  lemma ConsumedCons(orders: seq<Order>, k: nat, rest: seq<Order>, t: Trade, ts: seq<Trade>)
    requires |orders| > 0 && t.size == orders[0].qty
    requires Consumed(orders[1..], k, rest, ts)
    ensures Consumed(orders, k + 1, rest, [t] + ts)
  {
    forall i | 0 <= i < k + 1 ensures ([t] + ts)[i].size == orders[i].qty {
      if i > 0 {
        assert ([t] + ts)[i] == ts[i - 1] && orders[i] == orders[1..][i - 1];
      }
    }
    if |rest| > 0 && k < |orders[1..]| {
      assert orders[k + 1] == orders[1..][k];
      if |ts| == k + 1 {
        assert ([t] + ts)[k + 1] == ts[k];
      }
    }
  }

  /** `Consumed` across levels, when the incoming order is done inside the first level. */
  lemma ConsumedStop(os: seq<Order>, g: seq<Order>, k: nat, rest: seq<Order>, ts: seq<Trade>, p: nat, tail: seq<Level>, result: seq<Level>)
    requires Consumed(os, k, rest, ts) && Trimmed(os, k, rest)
    requires g == Flatten(tail)
    requires result == if |rest| == 0 then tail else [Level(p, rest)] + tail
    ensures Consumed(os + g, k, Flatten(result), ts)
  {
    if |rest| > 0 {
      FlattenCons(Level(p, rest), tail);
      assert (os + g)[k] == os[k];
    } else {
      assert Flatten(result) == g;
      if |g| > 0 {
        assert (os + g)[k] == g[0];
      }
    }
    forall i | 0 <= i < k ensures ts[i].size == (os + g)[i].qty {
      assert (os + g)[i] == os[i];
    }
  }

  /** The case where the first level is used up and matching goes on to the next. */
  lemma ConsumedContinue(os: seq<Order>, g: seq<Order>, k1: nat, ts1: seq<Trade>, k2: nat, rest2: seq<Order>, ts2: seq<Trade>,
                         whole: seq<Order>, k: nat, trades: seq<Trade>)
    requires Consumed(os, k1, [], ts1) && k1 == |os|
    requires Consumed(g, k2, rest2, ts2)
    requires whole == os + g && k == k1 + k2 && trades == ts1 + ts2
    ensures Consumed(whole, k, rest2, trades)
  {
    forall i | 0 <= i < k1 + k2 ensures (ts1 + ts2)[i].size == (os + g)[i].qty {
      if i >= k1 {
        assert (ts1 + ts2)[i] == ts2[i - k1] && (os + g)[i] == g[i - k1];
      } else {
        assert (ts1 + ts2)[i] == ts1[i] && (os + g)[i] == os[i];
      }
    }
    if |rest2| > 0 && k2 < |g| {
      assert (os + g)[k1 + k2] == g[k2];
      if |ts2| == k2 + 1 {
        assert (ts1 + ts2)[k1 + k2] == ts2[k2];
      }
    }
  }

  /** Over the whole side, every trade takes exactly its size off the resting order it is against. */
  lemma {:induction false} MatchSideConsumed(inc: Order, levels: seq<Level>)
    ensures Consumed(Flatten(levels), |MatchSide(inc, levels).filled|, Flatten(MatchSide(inc, levels).levels), MatchSide(inc, levels).trades)
    decreases |levels|
  {
    if |levels| > 0 && Crosses(inc.side, inc.price, levels[0].price) {
      var lf := MatchLevel(inc, levels[0].orders);
      if lf.incoming.qty == 0 {
        SideConsumedStop(inc, levels);
      } else {
        MatchSideConsumed(lf.incoming, levels[1..]);
        SideConsumedContinue(inc, levels);
      }
    }
  }

  lemma SideConsumedStop(inc: Order, levels: seq<Level>)
    requires |levels| > 0 && Crosses(inc.side, inc.price, levels[0].price)
    requires MatchLevel(inc, levels[0].orders).incoming.qty == 0
    ensures Consumed(Flatten(levels), |MatchSide(inc, levels).filled|, Flatten(MatchSide(inc, levels).levels), MatchSide(inc, levels).trades)
  {
    var os := levels[0].orders;
    var lf := MatchLevel(inc, os);
    assert Flatten(levels) == levels[0].orders + Flatten(levels[1..]);
    MatchLevelConsumed(inc, os);
    ConsumedStop(os, Flatten(levels[1..]), |lf.filled|, lf.rest, lf.trades, levels[0].price, levels[1..], MatchSide(inc, levels).levels);
  }

  lemma SideConsumedContinue(inc: Order, levels: seq<Level>)
    requires |levels| > 0 && Crosses(inc.side, inc.price, levels[0].price)
    requires MatchLevel(inc, levels[0].orders).incoming.qty != 0
    requires var inc' := MatchLevel(inc, levels[0].orders).incoming;
      Consumed(Flatten(levels[1..]), |MatchSide(inc', levels[1..]).filled|, Flatten(MatchSide(inc', levels[1..]).levels), MatchSide(inc', levels[1..]).trades)
    ensures Consumed(Flatten(levels), |MatchSide(inc, levels).filled|, Flatten(MatchSide(inc, levels).levels), MatchSide(inc, levels).trades)
  {
    var os := levels[0].orders;
    var lf := MatchLevel(inc, os);
    var r' := MatchSide(lf.incoming, levels[1..]);
    var r := MatchSide(inc, levels);
    assert r.filled == lf.filled + r'.filled && r.levels == r'.levels && r.trades == lf.trades + r'.trades;
    assert Flatten(levels) == levels[0].orders + Flatten(levels[1..]);
    MatchLevelConsumed(inc, os);
    ConsumedContinue(os, Flatten(levels[1..]), |lf.filled|, lf.trades, |r'.filled|, Flatten(r'.levels), r'.trades,
                     Flatten(levels), |r.filled|, r.trades);
  }

  /** The quantity matching takes off the side is exactly the quantity traded. */
  lemma {:induction false} MatchSideConserves(inc: Order, levels: seq<Level>)
    ensures Qty(Flatten(levels)) == SumSizes(MatchSide(inc, levels).trades) + Qty(Flatten(MatchSide(inc, levels).levels))
    decreases |levels|
  {
    if |levels| > 0 && Crosses(inc.side, inc.price, levels[0].price) {
      var os := levels[0].orders;
      var lf := MatchLevel(inc, os);
      MatchLevelFacts(inc, os);
      var g := Flatten(levels[1..]);
      assert Flatten(levels) == levels[0].orders + Flatten(levels[1..]);
      QtyAppend(os, g);
      if lf.incoming.qty == 0 {
        if |lf.rest| > 0 {
          FlattenCons(Level(levels[0].price, lf.rest), levels[1..]);
          QtyAppend(lf.rest, g);
        }
      } else {
        var r' := MatchSide(lf.incoming, levels[1..]);
        MatchSideConserves(lf.incoming, levels[1..]);
        SumSizesAppend(lf.trades, r'.trades);
      }
    }
  }

  lemma TrimmedAppend(before: seq<Order>, k: nat, rest: seq<Order>, g: seq<Order>)
    requires Trimmed(before, k, rest) && |rest| > 0
    ensures Trimmed(before + g, k, rest + g)
    ensures (before + g)[..k] == before[..k]
  {
    assert (rest + g)[1..] == rest[1..] + g;
    assert (before + g)[k + 1..] == before[k + 1..] + g;
  }

  lemma TrimmedShift(os: seq<Order>, g: seq<Order>, k: nat, rest: seq<Order>)
    requires Trimmed(g, k, rest)
    ensures Trimmed(os + g, |os| + k, rest)
    ensures IdSeq((os + g)[..|os| + k]) == IdSeq(os) + IdSeq(g[..k])
  {
    assert (os + g)[..|os| + k] == os + g[..k];
    if |rest| > 0 {
      assert (os + g)[|os| + k + 1..] == g[k + 1..];
    }
  }

  /** Trades against a prefix of the queue stay in priority order when more orders queue behind. */
  lemma PriorityFillsExtend(inc: Order, os: seq<Order>, g: seq<Order>, ts: seq<Trade>)
    requires PriorityFills(inc, os, ts)
    ensures PriorityFills(inc, os + g, ts)
  {
    forall i | 0 <= i < |ts| ensures FillAt(inc, os + g, ts, i) {
      assert FillAt(inc, os, ts, i);
      assert (os + g)[i] == os[i];
    }
  }

  /** Priority order composes: the trades of a used-up level followed by those against what comes after it. */
  lemma PriorityFillsConcat(inc: Order, os: seq<Order>, g: seq<Order>, ts: seq<Trade>, us: seq<Trade>)
    requires PriorityFills(inc, os, ts) && |ts| == |os| && SumSizes(ts) <= inc.qty
    requires PriorityFills(inc.(qty := inc.qty - SumSizes(ts)), g, us)
    ensures PriorityFills(inc, os + g, ts + us)
  {
    forall i | 0 <= i < |ts + us| ensures FillAt(inc, os + g, ts + us, i) {
      if i < |ts| {
        assert FillAt(inc, os, ts, i);
        assert (ts + us)[i] == ts[i] && (os + g)[i] == os[i] && (ts + us)[..i] == ts[..i];
      } else {
        ConcatTail(inc, os, g, ts, us, i - |ts|);
      }
    }
  }

  lemma ConcatTail(inc: Order, os: seq<Order>, g: seq<Order>, ts: seq<Trade>, us: seq<Trade>, j: nat)
    requires |ts| == |os| && SumSizes(ts) <= inc.qty && j < |us|
    requires PriorityFills(inc.(qty := inc.qty - SumSizes(ts)), g, us)
    ensures FillAt(inc, os + g, ts + us, |ts| + j)
  {
    assert FillAt(inc.(qty := inc.qty - SumSizes(ts)), g, us, j);
    SumSizesAppend(ts, us[..j]);
    assert (ts + us)[..|ts| + j] == ts + us[..j];
    assert (ts + us)[|ts| + j] == us[j];
    assert (os + g)[|ts| + j] == g[j];
  }

  /** Across the whole side, trades follow price-time priority and the min-size rule. */
  lemma {:induction false} MatchSidePriority(inc: Order, levels: seq<Level>)
    ensures PriorityFills(inc, Flatten(levels), MatchSide(inc, levels).trades)
    decreases |levels|
  {
    if |levels| > 0 && Crosses(inc.side, inc.price, levels[0].price) {
      var lf := MatchLevel(inc, levels[0].orders);
      if lf.incoming.qty == 0 {
        SidePriorityStop(inc, levels);
      } else {
        MatchSidePriority(lf.incoming, levels[1..]);
        SidePriorityContinue(inc, levels);
      }
    }
  }

  lemma SidePriorityStop(inc: Order, levels: seq<Level>)
    requires |levels| > 0 && Crosses(inc.side, inc.price, levels[0].price)
    requires MatchLevel(inc, levels[0].orders).incoming.qty == 0
    ensures PriorityFills(inc, Flatten(levels), MatchSide(inc, levels).trades)
  {
    var os := levels[0].orders;
    assert Flatten(levels) == levels[0].orders + Flatten(levels[1..]);
    MatchLevelPriority(inc, os);
    PriorityFillsExtend(inc, os, Flatten(levels[1..]), MatchLevel(inc, os).trades);
  }

  lemma SidePriorityContinue(inc: Order, levels: seq<Level>)
    requires |levels| > 0 && Crosses(inc.side, inc.price, levels[0].price)
    requires MatchLevel(inc, levels[0].orders).incoming.qty != 0
    requires var inc' := MatchLevel(inc, levels[0].orders).incoming;
      PriorityFills(inc', Flatten(levels[1..]), MatchSide(inc', levels[1..]).trades)
    ensures PriorityFills(inc, Flatten(levels), MatchSide(inc, levels).trades)
  {
    var os := levels[0].orders;
    var lf := MatchLevel(inc, os);
    assert Flatten(levels) == levels[0].orders + Flatten(levels[1..]);
    MatchLevelPriority(inc, os);
    PriorityFillsConcat(inc, os, Flatten(levels[1..]), lf.trades, MatchSide(lf.incoming, levels[1..]).trades);
  }

  /** The part of a level matching leaves behind is still a valid level at the same price. */
  lemma TrimmedLevelOk(s: Side, l: Level, k: nat, rest: seq<Order>)
    requires LevelOk(s, l) && Trimmed(l.orders, k, rest) && |rest| > 0
    requires forall o :: o in rest ==> o.qty > 0
    ensures LevelOk(s, Level(l.price, rest))
  {
    forall o | o in rest ensures o.side == s && o.price == l.price {
      if o == rest[0] {
        assert l.orders[k] in l.orders;
      } else {
        assert o in rest[1..];
        assert o in l.orders[k + 1..];
        assert o in l.orders;
      }
    }
  }

  /** Matching keeps the opposite side well formed: sorted, no empty level, no zero-quantity order. */
  lemma {:induction false} MatchSideWellFormed(s: Side, inc: Order, levels: seq<Level>)
    requires WellFormed(s, levels)
    ensures WellFormed(s, MatchSide(inc, levels).levels)
    decreases |levels|
  {
    if |levels| > 0 && Crosses(inc.side, inc.price, levels[0].price) {
      var os := levels[0].orders;
      var lf := MatchLevel(inc, os);
      MatchLevelFacts(inc, os);
      WellFormedTail(s, levels);
      if lf.incoming.qty == 0 {
        if |lf.rest| > 0 {
          var ls := [Level(levels[0].price, lf.rest)] + levels[1..];
          assert LevelOk(s, levels[0]);
          MatchLevelLive(inc, os);
          TrimmedLevelOk(s, levels[0], |lf.filled|, lf.rest);
          forall i | 0 <= i < |ls| ensures LevelOk(s, ls[i]) && ls[i].price == levels[i].price {
            if i > 0 { assert ls[i] == levels[i]; }
          }
        }
      } else {
        MatchSideWellFormed(s, lf.incoming, levels[1..]);
      }
    }
  }

  /** Every trade is at a resting price the incoming order's limit accepts. */
  lemma {:induction false} MatchSideTradesCross(s: Side, inc: Order, levels: seq<Level>)
    requires WellFormed(s, levels)
    ensures forall t :: t in MatchSide(inc, levels).trades ==> Crosses(inc.side, inc.price, t.restingPrice)
    decreases |levels|
  {
    if |levels| > 0 && Crosses(inc.side, inc.price, levels[0].price) {
      var os := levels[0].orders;
      var lf := MatchLevel(inc, os);
      assert LevelOk(s, levels[0]);
      MatchLevelPriority(inc, os);
      forall t | t in lf.trades ensures t.restingPrice == levels[0].price {
        var i :| 0 <= i < |lf.trades| && lf.trades[i] == t;
        assert FillAt(inc, os, lf.trades, i);
        assert os[i] in os;
      }
      if lf.incoming.qty != 0 {
        WellFormedTail(s, levels);
        MatchSideTradesCross(s, lf.incoming, levels[1..]);
      }
    }
  }

  /** Trades have positive size whenever the incoming order has positive size; a zero-size incoming order is the only source of a zero-size trade. */
  lemma {:induction false} MatchLevelSizesPositive(inc: Order, orders: seq<Order>)
    requires inc.qty > 0 && forall o :: o in orders ==> o.qty > 0
    ensures forall t :: t in MatchLevel(inc, orders).trades ==> t.size > 0
    decreases |orders|
  {
    if |orders| > 0 {
      var b := orders[0];
      var m := MatchSize(b.qty, inc.qty);
      assert b in orders;
      if b.qty - m == 0 && inc.qty - m != 0 {
        forall o | o in orders[1..] ensures o in orders { }
        MatchLevelSizesPositive(inc.(qty := inc.qty - m), orders[1..]);
      }
    }
  }

  lemma {:induction false} MatchSideSizesPositive(s: Side, inc: Order, levels: seq<Level>)
    requires inc.qty > 0 && WellFormed(s, levels)
    ensures forall t :: t in MatchSide(inc, levels).trades ==> t.size > 0
    decreases |levels|
  {
    if |levels| > 0 && Crosses(inc.side, inc.price, levels[0].price) {
      var lf := MatchLevel(inc, levels[0].orders);
      assert LevelOk(s, levels[0]);
      MatchLevelSizesPositive(inc, levels[0].orders);
      if lf.incoming.qty != 0 {
        WellFormedTail(s, levels);
        MatchSideSizesPositive(s, lf.incoming, levels[1..]);
      }
    }
  }

  /**
   Stopping at the first level that does not cross loses nothing: on a sorted
   side no later level crosses either.
   */
  lemma NoLaterLevelCrosses(inc: Order, levels: seq<Level>)
    requires Sorted(Opposite(inc.side), levels) && |levels| > 0
    requires !Crosses(inc.side, inc.price, levels[0].price)
    ensures forall j :: 0 <= j < |levels| ==> !Crosses(inc.side, inc.price, levels[j].price)
  {
    forall j | 0 < j < |levels| ensures !Crosses(inc.side, inc.price, levels[j].price) {
      assert Better(Opposite(inc.side), levels[0].price, levels[j].price);
    }
  }

  /**
   Once an order has matched and still has quantity left, no level that
   remains on the side it matched against crosses its limit.
   */
  lemma MatchSideLeavesNoCross(inc: Order, levels: seq<Level>)
    requires WellFormed(Opposite(inc.side), levels)
    ensures
      var r := MatchSide(inc, levels);
      r.incoming.qty > 0 ==> forall j :: 0 <= j < |r.levels| ==> !Crosses(inc.side, inc.price, r.levels[j].price)
  {
    MatchSideWellFormed(Opposite(inc.side), inc, levels);
    var r := MatchSide(inc, levels);
    if r.incoming.qty > 0 {
      NoneCrosses(inc, r.levels);
    }
  }

  /** On a sorted side whose best level does not cross, none does. */
  lemma NoneCrosses(inc: Order, ls: seq<Level>)
    requires WellFormed(Opposite(inc.side), ls)
    requires |ls| == 0 || !Crosses(inc.side, inc.price, ls[0].price)
    ensures forall j :: 0 <= j < |ls| ==> !Crosses(inc.side, inc.price, ls[j].price)
  {
    if |ls| > 0 {
      NoLaterLevelCrosses(inc, ls);
    }
  }

  /**
   Matching one queue stops once the incoming order is done: before every
   trade but the first, the incoming order still had quantity left.
   */
  lemma {:induction false} MatchLevelStopsWhenDone(inc: Order, orders: seq<Order>)
    ensures forall i :: 0 < i < |MatchLevel(inc, orders).trades| ==> SumSizes(MatchLevel(inc, orders).trades[..i]) < inc.qty
    decreases |orders|
  {
    if |orders| > 0 {
      var b := orders[0];
      var m := MatchSize(b.qty, inc.qty);
      var t := Trade(b.id, b.price, m, inc.id, inc.price);
      var inc' := inc.(qty := inc.qty - m);
      if b.qty - m == 0 && inc'.qty != 0 {
        var ts := MatchLevel(inc', orders[1..]).trades;
        MatchLevelStopsWhenDone(inc', orders[1..]);
        assert MatchLevel(inc, orders).trades == [t] + ts;
        forall i | 0 < i < 1 + |ts| ensures SumSizes(([t] + ts)[..i]) < inc.qty {
          assert ([t] + ts)[..i] == [t] + ts[..i - 1];
          assert SumSizes([t] + ts[..i - 1]) == m + SumSizes(ts[..i - 1]);
        }
      }
    }
  }

  /**
   Matching a whole side stops once the incoming order is done: before every
   trade but the first, the incoming order still had quantity left.
   */
  lemma {:induction false} MatchSideStopsWhenDone(inc: Order, levels: seq<Level>)
    ensures forall i :: 0 < i < |MatchSide(inc, levels).trades| ==> SumSizes(MatchSide(inc, levels).trades[..i]) < inc.qty
    decreases |levels|
  {
    if |levels| > 0 && Crosses(inc.side, inc.price, levels[0].price) {
      var lf := MatchLevel(inc, levels[0].orders);
      MatchLevelFacts(inc, levels[0].orders);
      MatchLevelStopsWhenDone(inc, levels[0].orders);
      if lf.incoming.qty != 0 {
        var r := MatchSide(lf.incoming, levels[1..]);
        MatchSideStopsWhenDone(lf.incoming, levels[1..]);
        assert MatchSide(inc, levels).trades == lf.trades + r.trades;
        StopsWhenDoneAppend(inc.qty, lf.trades, lf.incoming.qty, r.trades);
      }
    }
  }

  /** Trades that each stop once `q` is used up, followed by trades that stop once the remainder `rem > 0` is used up. */
  lemma StopsWhenDoneAppend(q: nat, a: seq<Trade>, rem: nat, c: seq<Trade>)
    requires rem > 0 && q == SumSizes(a) + rem
    requires forall i :: 0 < i < |a| ==> SumSizes(a[..i]) < q
    requires forall i :: 0 < i < |c| ==> SumSizes(c[..i]) < rem
    ensures forall i :: 0 < i < |a + c| ==> SumSizes((a + c)[..i]) < q
  {
    forall i | 0 < i < |a + c| ensures SumSizes((a + c)[..i]) < q {
      if i < |a| {
        assert (a + c)[..i] == a[..i];
      } else {
        assert (a + c)[..i] == a + c[..i - |a|];
        SumSizesAppend(a, c[..i - |a|]);
      }
    }
  }

  // ---------------------------------------------------------------------------
  // The scan of the whole side, as `tryMatchOrder` writes it
  // ---------------------------------------------------------------------------

  /**
   The scan's state at the end: the incoming order, every level visited (with
   its queue after matching), the number of leading levels to erase, the
   filled ids and the trades.
   */
  datatype Scan = Scan(incoming: Order, levels: seq<Level>, cut: nat, filled: seq<string>, trades: seq<Trade>)

  /**
   Walks the side's levels in order, without leaving at a level that does not
   cross: it goes on to later levels, matches at each crossing level, and
   leaves only once the incoming order is done. `cut` is one past the last level the scan emptied,
   or 0 when it emptied none.
   */
  function ScanSide(inc: Order, levels: seq<Level>): (r: Scan)
    ensures |r.levels| == |levels| && r.cut <= |levels|
    ensures forall j :: 0 <= j < |levels| ==> r.levels[j].price == levels[j].price
    decreases |levels|
  {
    if |levels| == 0 then Scan(inc, [], 0, [], [])
    else if !Crosses(inc.side, inc.price, levels[0].price) then
      var r := ScanSide(inc, levels[1..]);
      Scan(r.incoming, [levels[0]] + r.levels, if r.cut > 0 then r.cut + 1 else 0, r.filled, r.trades)
    else
      var lf := MatchLevel(inc, levels[0].orders);
      var head := Level(levels[0].price, lf.rest);
      var headCut := if |lf.rest| == 0 then 1 else 0;
      if lf.incoming.qty == 0 then
        Scan(lf.incoming, [head] + levels[1..], headCut, lf.filled, lf.trades)
      else
        var r := ScanSide(lf.incoming, levels[1..]);
        Scan(r.incoming, [head] + r.levels, if r.cut > 0 then r.cut + 1 else headCut, lf.filled + r.filled, lf.trades + r.trades)
  }

  /** `tryMatchOrder` as written: scan the whole side, then erase the levels before the scan's cut. */
  function TryMatch(inc: Order, levels: seq<Level>): (r: SideFill)
    ensures |r.levels| <= |levels|
    ensures forall j :: 0 <= j < |r.levels| ==> r.levels[j].price == levels[|levels| - |r.levels| + j].price
  {
    var s := ScanSide(inc, levels);
    SideFill(s.incoming, s.levels[s.cut..], s.filled, s.trades)
  }

  /** A scan over levels none of which crosses changes nothing. */
  lemma {:induction false} ScanNoCross(inc: Order, levels: seq<Level>)
    requires forall j :: 0 <= j < |levels| ==> !Crosses(inc.side, inc.price, levels[j].price)
    ensures ScanSide(inc, levels) == Scan(inc, levels, 0, [], [])
    decreases |levels|
  {
    if |levels| > 0 {
      forall j | 0 <= j < |levels| - 1 ensures !Crosses(inc.side, inc.price, levels[1..][j].price) {
        assert levels[1..][j] == levels[j + 1];
      }
      ScanNoCross(inc, levels[1..]);
      assert [levels[0]] + levels[1..] == levels;
    }
  }

  /**
   On a sorted side the full scan and `MatchSide`, which stops at the first
   level that does not cross, give the same result.
   */
  lemma {:induction false} TryMatchIsMatchSide(inc: Order, levels: seq<Level>)
    requires Sorted(Opposite(inc.side), levels)
    ensures TryMatch(inc, levels) == MatchSide(inc, levels)
    decreases |levels|
  {
    if |levels| == 0 {
    } else if !Crosses(inc.side, inc.price, levels[0].price) {
      ScanStopsAtNoCross(inc, levels);
    } else {
      var lf := MatchLevel(inc, levels[0].orders);
      MatchLevelFacts(inc, levels[0].orders);
      if lf.incoming.qty == 0 {
        ScanDoneInLevel(inc, levels, lf);
      } else {
        SortedTail(Opposite(inc.side), levels);
        TryMatchIsMatchSide(lf.incoming, levels[1..]);
        ScanGoesOn(inc, levels, lf);
      }
    }
  }

  lemma SortedTail(s: Side, levels: seq<Level>)
    requires Sorted(s, levels) && |levels| > 0
    ensures Sorted(s, levels[1..])
  {
    forall i, j | 0 <= i < j < |levels| - 1 ensures Better(s, levels[1..][i].price, levels[1..][j].price) {
      assert levels[1..][i] == levels[i + 1] && levels[1..][j] == levels[j + 1];
    }
  }

  /** The best level does not cross: the scan visits the rest and changes nothing, as `MatchSide` does. */
  lemma ScanStopsAtNoCross(inc: Order, levels: seq<Level>)
    requires Sorted(Opposite(inc.side), levels) && |levels| > 0
    requires !Crosses(inc.side, inc.price, levels[0].price)
    ensures TryMatch(inc, levels) == MatchSide(inc, levels)
  {
    NoLaterLevelCrosses(inc, levels);
    ScanNoCross(inc, levels[1..]);
    assert MatchSide(inc, levels) == SideFill(inc, levels, [], []);
    assert [levels[0]] + levels[1..] == levels;
  }

  /** The incoming order is done inside the best level. */
  lemma ScanDoneInLevel(inc: Order, levels: seq<Level>, lf: LevelFill)
    requires |levels| > 0 && Crosses(inc.side, inc.price, levels[0].price)
    requires lf == MatchLevel(inc, levels[0].orders) && lf.incoming.qty == 0
    ensures TryMatch(inc, levels) == MatchSide(inc, levels)
  {
    var head := Level(levels[0].price, lf.rest);
    if |lf.rest| == 0 {
      assert ([head] + levels[1..])[1..] == levels[1..];
    }
  }

  /** The best level is emptied and the incoming order goes on; the last requires is the claim for the rest of the side. */
  lemma ScanGoesOn(inc: Order, levels: seq<Level>, lf: LevelFill)
    requires |levels| > 0 && Crosses(inc.side, inc.price, levels[0].price)
    requires lf == MatchLevel(inc, levels[0].orders) && lf.incoming.qty != 0 && |lf.rest| == 0
    requires TryMatch(lf.incoming, levels[1..]) == MatchSide(lf.incoming, levels[1..])
    ensures TryMatch(inc, levels) == MatchSide(inc, levels)
  {
    var head := Level(levels[0].price, lf.rest);
    var r := ScanSide(lf.incoming, levels[1..]);
    var c := if r.cut > 0 then r.cut + 1 else 1;
    ScanStep(inc, levels, lf);
    MatchSideStep(inc, levels, lf);
    DropHead(head, r.levels, r.cut);
  }

  /** One step of the scan at a crossing level that leaves the incoming order with quantity. */
  lemma ScanStep(inc: Order, levels: seq<Level>, lf: LevelFill)
    requires |levels| > 0 && Crosses(inc.side, inc.price, levels[0].price)
    requires lf == MatchLevel(inc, levels[0].orders) && lf.incoming.qty != 0 && |lf.rest| == 0
    ensures
      var r := ScanSide(lf.incoming, levels[1..]);
      ScanSide(inc, levels) ==
        Scan(r.incoming, [Level(levels[0].price, lf.rest)] + r.levels, if r.cut > 0 then r.cut + 1 else 1, lf.filled + r.filled, lf.trades + r.trades)
  {
  }

  /** One step of `MatchSide` at a crossing level that leaves the incoming order with quantity. */
  lemma MatchSideStep(inc: Order, levels: seq<Level>, lf: LevelFill)
    requires |levels| > 0 && Crosses(inc.side, inc.price, levels[0].price)
    requires lf == MatchLevel(inc, levels[0].orders) && lf.incoming.qty != 0
    ensures
      var m := MatchSide(lf.incoming, levels[1..]);
      MatchSide(inc, levels) == SideFill(m.incoming, m.levels, lf.filled + m.filled, lf.trades + m.trades)
  {
  }

  /** Cutting one more than `c` from a list with `head` in front, and at least the head, is cutting `c` from the rest. */
  lemma DropHead<T>(head: T, xs: seq<T>, c: nat)
    requires c <= |xs|
    ensures ([head] + xs)[if c > 0 then c + 1 else 1..] == xs[c..]
  {
  }
}
