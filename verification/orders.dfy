/**
 Orders, trades and price levels of the single-instrument order book, together
 with the small sequence vocabulary (id sequences, quantity sums, filtering by
 id) that the book's invariants are stated in.
 */
module Orders {

  datatype Option<T> = None | Some(value: T)

  /** The two sides of the book: buy orders rest on the bid side, sell orders on the ask side. */
  datatype Side = Buy | Sell

  function Opposite(s: Side): (r: Side)
    ensures r != s
  {
    if s == Buy then Sell else Buy
  }

  /**
   An order as the book stores it. `qty` is the remaining size and is the only
   field that matching changes; `tif` is the time-in-force token as received.
   Prices and quantities are already-parsed unsigned integers.
   */
  datatype Order = Order(side: Side, tif: string, price: nat, qty: nat, id: string)

  /** Only a good-for-day order may rest its unmatched remainder in the book. */
  predicate GoodForDay(o: Order) {
    o.tif == "GFD"
  }

  /** One execution: the resting order's id and price, the size, then the incoming order's id and price. */
  datatype Trade = Trade(restingId: string, restingPrice: nat, size: nat, incomingId: string, incomingPrice: nat)

  /** All orders resting at one price, oldest first. */
  datatype Level = Level(price: nat, orders: seq<Order>)

  /** The size of a match between a resting and an incoming order: the smaller of the two. */
  function MatchSize(restingQty: nat, incomingQty: nat): (m: nat)
    ensures m <= restingQty && m <= incomingQty
    ensures m == restingQty || m == incomingQty
  {
    if restingQty >= incomingQty then incomingQty else restingQty
  }

  function IdSeq(os: seq<Order>): (ids: seq<string>)
    ensures |ids| == |os|
    ensures forall i :: 0 <= i < |os| ==> ids[i] == os[i].id
  {
    seq(|os|, i requires 0 <= i < |os| => os[i].id)
  }

  /** No string occurs twice. */
  predicate Distinct(xs: seq<string>) {
    forall i, j :: 0 <= i < j < |xs| ==> xs[i] != xs[j]
  }

  /** Total remaining quantity of a sequence of orders. */
  function Qty(os: seq<Order>): nat {
    if |os| == 0 then 0 else os[0].qty + Qty(os[1..])
  }

  /** Total size of a sequence of trades. */
  function SumSizes(ts: seq<Trade>): nat {
    if |ts| == 0 then 0 else ts[0].size + SumSizes(ts[1..])
  }

  /** Position of the first order carrying `id`, or `|os|` when there is none. */
  function IndexOf(os: seq<Order>, id: string): (i: nat)
    ensures i <= |os|
    ensures i < |os| ==> os[i].id == id
    ensures forall j :: 0 <= j < i ==> os[j].id != id
  {
    if |os| == 0 then 0
    else if os[0].id == id then 0
    else 1 + IndexOf(os[1..], id)
  }

  /** The orders of `os` that do not carry `id`, in their original order. */
  function Without(os: seq<Order>, id: string): seq<Order> {
    if |os| == 0 then []
    else (if os[0].id == id then [] else [os[0]]) + Without(os[1..], id)
  }

  lemma {:induction false} QtyAppend(a: seq<Order>, b: seq<Order>)
    ensures Qty(a + b) == Qty(a) + Qty(b)
  {
    if |a| == 0 {
      assert a + b == b;
    } else {
      assert (a + b)[1..] == a[1..] + b;
      QtyAppend(a[1..], b);
    }
  }

  lemma {:induction false} SumSizesAppend(a: seq<Trade>, b: seq<Trade>)
    ensures SumSizes(a + b) == SumSizes(a) + SumSizes(b)
  {
    if |a| == 0 {
      assert a + b == b;
    } else {
      assert (a + b)[1..] == a[1..] + b;
      SumSizesAppend(a[1..], b);
    }
  }

  lemma IdSeqAppend(a: seq<Order>, b: seq<Order>)
    ensures IdSeq(a + b) == IdSeq(a) + IdSeq(b)
  {
  }

  lemma DistinctConcat(a: seq<string>, b: seq<string>)
    ensures Distinct(a + b) <==> Distinct(a) && Distinct(b) && forall x :: x in a ==> x !in b
  {
    if Distinct(a + b) {
      assert Distinct(a) by {
        forall i, j | 0 <= i < j < |a| ensures a[i] != a[j] {
          assert a[i] == (a + b)[i] && a[j] == (a + b)[j];
        }
      }
      assert Distinct(b) by {
        forall i, j | 0 <= i < j < |b| ensures b[i] != b[j] {
          assert b[i] == (a + b)[|a| + i] && b[j] == (a + b)[|a| + j];
        }
      }
      forall x | x in a ensures x !in b {
        var i :| 0 <= i < |a| && a[i] == x;
        forall j | 0 <= j < |b| ensures b[j] != x {
          assert (a + b)[i] == a[i] && (a + b)[|a| + j] == b[j];
        }
      }
    }
    if Distinct(a) && Distinct(b) && forall x :: x in a ==> x !in b {
      var ab := a + b;
      forall i, j | 0 <= i < j < |ab| ensures ab[i] != ab[j] {
        if j < |a| {
          assert ab[i] == a[i] && ab[j] == a[j];
        } else if i >= |a| {
          assert ab[i] == b[i - |a|] && ab[j] == b[j - |a|];
        } else {
          assert ab[i] == a[i] && ab[j] == b[j - |a|];
          assert a[i] in a;
        }
      }
    }
  }

  lemma DistinctSlices(xs: seq<string>, k: nat)
    requires Distinct(xs) && k <= |xs|
    ensures Distinct(xs[..k]) && Distinct(xs[k..])
    ensures forall x :: x in xs[..k] ==> x !in xs[k..]
  {
    assert xs == xs[..k] + xs[k..];
    DistinctConcat(xs[..k], xs[k..]);
  }

  /** Inserting a fresh string anywhere keeps a sequence duplicate-free. */
  lemma DistinctInsert(xs: seq<string>, j: nat, x: string)
    requires Distinct(xs) && j <= |xs| && x !in xs
    ensures Distinct(xs[..j] + [x] + xs[j..])
  {
    var ys := xs[..j] + [x] + xs[j..];
    forall a, b | 0 <= a < b < |ys| ensures ys[a] != ys[b] {
      if a < j && b < j {
        assert ys[a] == xs[a] && ys[b] == xs[b];
      } else if a < j && b > j {
        assert ys[a] == xs[a] && ys[b] == xs[b - 1];
      } else if a > j {
        assert ys[a] == xs[a - 1] && ys[b] == xs[b - 1];
      } else if a == j {
        assert ys[b] == xs[b - 1];
      } else {
        assert ys[b] == x && ys[a] == xs[a];
      }
    }
  }

  /** Removing one position keeps a sequence duplicate-free. */
  lemma DistinctRemove(xs: seq<string>, j: nat)
    requires Distinct(xs) && j < |xs|
    ensures Distinct(xs[..j] + xs[j + 1..])
  {
    var ys := xs[..j] + xs[j + 1..];
    forall a, b | 0 <= a < b < |ys| ensures ys[a] != ys[b] {
      assert ys[a] == (if a < j then xs[a] else xs[a + 1]);
      assert ys[b] == (if b < j then xs[b] else xs[b + 1]);
    }
  }

  lemma {:induction false} WithoutAbsent(os: seq<Order>, id: string)
    requires forall o :: o in os ==> o.id != id
    ensures Without(os, id) == os
  {
    if |os| > 0 {
      assert os[0] in os;
      WithoutAbsent(os[1..], id);
      assert os == [os[0]] + os[1..];
    }
  }

  lemma {:induction false} WithoutAppend(a: seq<Order>, b: seq<Order>, id: string)
    ensures Without(a + b, id) == Without(a, id) + Without(b, id)
  {
    if |a| == 0 {
      assert a + b == b;
    } else {
      assert (a + b)[0] == a[0];
      assert (a + b)[1..] == a[1..] + b;
      WithoutAppend(a[1..], b, id);
    }
  }

  /** When `id` occurs once, at position `i`, dropping that position is filtering by `id`. */
  lemma WithoutAt(os: seq<Order>, i: nat, id: string)
    requires i < |os| && os[i].id == id && Distinct(IdSeq(os))
    ensures Without(os, id) == os[..i] + os[i + 1..]
  {
    OthersLackId(os, i);
    WithoutSplit(os[..i], os[i], os[i + 1..]);
    assert os == os[..i] + [os[i]] + os[i + 1..];
  }

  lemma WithoutSplit(pre: seq<Order>, o: Order, post: seq<Order>)
    requires forall q :: q in pre ==> q.id != o.id
    requires forall q :: q in post ==> q.id != o.id
    ensures Without(pre + [o] + post, o.id) == pre + post
  {
    WithoutAbsent(pre, o.id);
    WithoutAbsent(post, o.id);
    WithoutAppend(pre + [o], post, o.id);
    WithoutAppend(pre, [o], o.id);
    assert [o][1..] == [];
    assert Without([o], o.id) == [];
    assert Without(pre + [o], o.id) == pre;
  }

  lemma OthersLackId(os: seq<Order>, i: nat)
    requires i < |os| && Distinct(IdSeq(os))
    ensures forall o :: o in os[..i] ==> o.id != os[i].id
    ensures forall o :: o in os[i + 1..] ==> o.id != os[i].id
  {
    var ids := IdSeq(os);
    forall o | o in os[..i] ensures o.id != os[i].id {
      var k :| 0 <= k < i && os[..i][k] == o;
      assert ids[k] != ids[i];
    }
    forall o | o in os[i + 1..] ensures o.id != os[i].id {
      var k :| 0 <= k < |os[i + 1..]| && os[i + 1..][k] == o;
      assert ids[i + 1 + k] != ids[i];
    }
  }
}
