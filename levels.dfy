/**
 * One side of the order book. The source keeps each side in a
 * std::map<Price, Quantity>, a sorted container whose entries are price
 * levels. Here a side is the sequence of its levels in the order the
 * matcher visits them, best price first: asks from the lowest price up
 * (asks.begin() .. asks.end()), bids from the highest price down
 * (bids.rbegin() .. bids.rend()).
 */
module Levels {

  /** The side of an order, and the side of the book its remainder rests on. */
  datatype Side = Buy | Sell

  /** An aggregated price level: all quantity resting at one price. */
  datatype Level = Level(price: int, quantity: int)

  /** Price a comes before price b on the given side: higher bids, lower asks. */
  predicate Ahead(side: Side, a: int, b: int)
  {
    if side == Buy then a > b else a < b
  }

  /** Prices strictly improve towards the front; in particular no price repeats. */
  ghost predicate Ordered(side: Side, s: seq<Level>)
  {
    forall i, j :: 0 <= i < j < |s| ==> Ahead(side, s[i].price, s[j].price)
  }

  /** No level of the side holds zero (or negative) quantity. */
  ghost predicate Positive(s: seq<Level>)
  {
    forall i :: 0 <= i < |s| ==> s[i].quantity > 0
  }

  /** The prices at which the side has a level. */
  ghost function Prices(s: seq<Level>): set<int>
  {
    set i | 0 <= i < |s| :: s[i].price
  }

  /** The total quantity resting on the side. */
  ghost function Total(s: seq<Level>): int
  {
    if s == [] then 0 else s[0].quantity + Total(s[1..])
  }

  /** The quantity resting at price p, 0 when the side has no level there. */
  function QuantityAt(s: seq<Level>, p: int): int
  {
    if s == [] then 0
    else if s[0].price == p then s[0].quantity
    else QuantityAt(s[1..], p)
  }

  /**
   * `book[price] += quantity`: std::map's operator[] creates a level holding
   * 0 when the price is absent, and the quantity is added to it. In the
   * ordered sequence the new level goes in front of the first worse price.
   */
  function AddLevel(side: Side, s: seq<Level>, p: int, q: int): (r: seq<Level>)
    ensures r != []
    ensures r[0].price == p || (s != [] && r[0].price == s[0].price)
    ensures Prices(r) == Prices(s) + {p}
  {
    if s == [] then [Level(p, q)]
    else if s[0].price == p then
      PricesCons(Level(p, s[0].quantity + q), s[1..]);
      PricesCons(s[0], s[1..]);
      assert [s[0]] + s[1..] == s;
      [Level(p, s[0].quantity + q)] + s[1..]
    else if Ahead(side, p, s[0].price) then
      PricesCons(Level(p, q), s);
      [Level(p, q)] + s
    else
      var r := [s[0]] + AddLevel(side, s[1..], p, q);
      assert Prices(r) == {s[0].price} + Prices(AddLevel(side, s[1..], p, q)) by {
        PricesCons(s[0], AddLevel(side, s[1..], p, q));
      }
      PricesCons(s[0], s[1..]);
      assert [s[0]] + s[1..] == s;
      r
  }

  lemma PricesCons(l: Level, s: seq<Level>)
    ensures Prices([l] + s) == {l.price} + Prices(s)
  {
    var t := [l] + s;
    forall p | p in Prices(t) ensures p in {l.price} + Prices(s) {
      var i :| 0 <= i < |t| && t[i].price == p;
      if i > 0 { assert s[i - 1].price == p; }
    }
    forall p | p in Prices(s) ensures p in Prices(t) {
      var i :| 0 <= i < |s| && s[i].price == p;
      assert t[i + 1].price == p;
    }
    assert t[0].price == l.price;
  }

  /** Resting q at price p raises the side's total by exactly q. */
  lemma {:induction false} AddLevelTotal(side: Side, s: seq<Level>, p: int, q: int)
    ensures Total(AddLevel(side, s, p, q)) == Total(s) + q
  {
    if s != [] && s[0].price != p && !Ahead(side, p, s[0].price) {
      AddLevelTotal(side, s[1..], p, q);
      var r := AddLevel(side, s[1..], p, q);
      assert ([s[0]] + r)[1..] == r;
    } else if s != [] && s[0].price == p {
      assert ([Level(p, s[0].quantity + q)] + s[1..])[1..] == s[1..];
    } else if s != [] {
      assert ([Level(p, q)] + s)[1..] == s;
    }
  }

  /** Resting keeps the side in price order. */
  lemma {:induction false} AddLevelOrdered(side: Side, s: seq<Level>, p: int, q: int)
    requires Ordered(side, s)
    ensures Ordered(side, AddLevel(side, s, p, q))
  {
    if s != [] && s[0].price != p && !Ahead(side, p, s[0].price) {
      assert Ordered(side, s[1..]);
      AddLevelOrdered(side, s[1..], p, q);
      var t := AddLevel(side, s[1..], p, q);
      assert Ahead(side, s[0].price, t[0].price) by {
        if t[0].price != p { assert s[1..] != [] && t[0].price == s[1].price; }
      }
      forall j | 0 < j < |t| + 1 ensures Ahead(side, s[0].price, ([s[0]] + t)[j].price) {
        assert Ahead(side, t[0].price, t[j - 1].price) || j == 1;
      }
    }
  }

  /** Resting a positive quantity keeps every level positive. */
  lemma {:induction false} AddLevelPositive(side: Side, s: seq<Level>, p: int, q: int)
    requires Positive(s) && q > 0
    ensures Positive(AddLevel(side, s, p, q))
  {
    if s != [] && s[0].price != p && !Ahead(side, p, s[0].price) {
      AddLevelPositive(side, s[1..], p, q);
    }
  }

  /**
   * Resting merges quantity: the level at p grows by exactly q (from 0 when
   * it was absent) and every other price keeps its quantity.
   */
  lemma {:induction false} AddLevelQuantity(side: Side, s: seq<Level>, p: int, q: int)
    requires Ordered(side, s)
    ensures QuantityAt(AddLevel(side, s, p, q), p) == QuantityAt(s, p) + q
    ensures forall j :: j != p ==> QuantityAt(AddLevel(side, s, p, q), j) == QuantityAt(s, j)
  {
    if s == [] {
    } else if s[0].price == p {
      assert forall j :: j != p ==> QuantityAt(AddLevel(side, s, p, q), j) == QuantityAt(s[1..], j);
    } else if Ahead(side, p, s[0].price) {
      AbsentBeyond(side, s, p);
    } else {
      assert Ordered(side, s[1..]);
      AddLevelQuantity(side, s[1..], p, q);
    }
  }

  /** In an ordered side, a price ahead of the best level has no level. */
  lemma AbsentBeyond(side: Side, s: seq<Level>, p: int)
    requires Ordered(side, s) && s != [] && Ahead(side, p, s[0].price)
    ensures QuantityAt(s, p) == 0
    ensures p !in Prices(s)
  {
    var k := 0;
    while k < |s|
      invariant 0 <= k <= |s|
      invariant QuantityAt(s, p) == QuantityAt(s[k..], p)
      invariant forall i :: 0 <= i < k ==> s[i].price != p
    {
      if k > 0 { assert Ahead(side, s[0].price, s[k].price); }
      assert s[k..][1..] == s[k + 1..];
      k := k + 1;
    }
  }
}
