/**
 * The matching rules of the order book as values: what one incoming order
 * does to the book. The imperative OrderBook class in module Engine is
 * proved to follow these functions; the lemmas here say what they mean.
 */
module Matching {
  import opened Levels

  /** An incoming order; `quantity` is what is still unfilled. */
  datatype Order = Order(id: nat, side: Side, price: int, quantity: int)

  /** Both sides of the book, each best price first. */
  datatype Book = Book(bids: seq<Level>, asks: seq<Level>)
  {
    /** The best bid is below the best ask (or a side is empty). */
    ghost predicate Uncrossed()
    {
      bids == [] || asks == [] || bids[0].price < asks[0].price
    }

    /** The invariant the book keeps from its empty start. */
    ghost predicate Valid()
    {
      && Ordered(Buy, bids) && Ordered(Sell, asks)
      && Positive(bids) && Positive(asks)
      && Uncrossed()
    }
  }

  /** What a sweep leaves: the opposite side and the order's unfilled quantity. */
  datatype Fill = Fill(rest: seq<Level>, remaining: int)

  /** What processing an order leaves: the book and the order's unfilled quantity. */
  datatype Outcome = Outcome(book: Book, remaining: int)

  function Opposite(side: Side): Side
  {
    if side == Buy then Sell else Buy
  }

  /**
   * An order of the given side and price may trade at a level priced
   * levelPrice: a buy unless its price is below the ask, a sell unless its
   * price is above the bid.
   */
  predicate Marketable(side: Side, price: int, levelPrice: int)
  {
    if side == Buy then !(price < levelPrice) else !(price > levelPrice)
  }

  function Min(a: int, b: int): (m: int)
    ensures m <= a && m <= b && (m == a || m == b)
  {
    if b < a then b else a
  }

  /**
   * The matching loop of match_buy / match_sell against the opposite side
   * `levels`, best level first: take min(order, level) from the best level,
   * erase the level once it is empty, stop when the order is filled, the
   * side is exhausted or the best level is no longer marketable.
   */
  function Sweep(side: Side, levels: seq<Level>, price: int, qty: int): (r: Fill)
    ensures |r.rest| <= |levels|
    ensures r.remaining <= 0 || r.rest == [] || !Marketable(side, price, r.rest[0].price)
    decreases |levels|
  {
    if levels == [] || qty <= 0 then Fill(levels, qty)
    else
      var best := levels[0];
      if !Marketable(side, price, best.price) then Fill(levels, qty)
      else
        var matched := Min(qty, best.quantity);
        if best.quantity - matched == 0 then Sweep(side, levels[1..], price, qty - matched)
        else Fill([Level(best.price, best.quantity - matched)] + levels[1..], qty - matched)
  }

  /** The unfilled remainder, if any, rests on the order's own side. */
  function Rest(side: Side, own: seq<Level>, price: int, remaining: int): seq<Level>
  {
    if remaining > 0 then AddLevel(side, own, price, remaining) else own
  }

  /** process_order: a buy sweeps the asks and rests in the bids, a sell the reverse. */
  function Process(b: Book, o: Order): (r: Outcome)
    ensures o.side == Buy ==> |r.book.asks| <= |b.asks|
    ensures o.side == Sell ==> |r.book.bids| <= |b.bids|
    ensures r.remaining > 0 && o.side == Buy ==> r.book.asks == [] || o.price < r.book.asks[0].price
    ensures r.remaining > 0 && o.side == Sell ==> r.book.bids == [] || o.price > r.book.bids[0].price
  {
    if o.side == Buy then
      var f := Sweep(Buy, b.asks, o.price, o.quantity);
      Outcome(Book(Rest(Buy, b.bids, o.price, f.remaining), f.rest), f.remaining)
    else
      var f := Sweep(Sell, b.bids, o.price, o.quantity);
      Outcome(Book(f.rest, Rest(Sell, b.asks, o.price, f.remaining)), f.remaining)
  }

  // ---------------------------------------------------------------------
  // Properties of one sweep
  // ---------------------------------------------------------------------

  /**
   * Quantity is conserved: what leaves the opposite side is exactly what the
   * order lost.
   */
  lemma {:induction false} SweepConserves(side: Side, levels: seq<Level>, price: int, qty: int)
    ensures Total(levels) - Total(Sweep(side, levels, price, qty).rest)
         == qty - Sweep(side, levels, price, qty).remaining
    decreases |levels|
  {
    if levels != [] && qty > 0 && Marketable(side, price, levels[0].price) {
      var matched := Min(qty, levels[0].quantity);
      if levels[0].quantity - matched == 0 {
        SweepConserves(side, levels[1..], price, qty - matched);
      } else {
        var l := Level(levels[0].price, levels[0].quantity - matched);
        assert ([l] + levels[1..])[1..] == levels[1..];
      }
    }
  }

  /**
   * Against positive levels the unfilled quantity never goes negative and
   * never grows; an order with nothing to fill leaves the side untouched.
   */
  lemma {:induction false} SweepRemaining(side: Side, levels: seq<Level>, price: int, qty: int)
    ensures qty <= 0 ==> Sweep(side, levels, price, qty) == Fill(levels, qty)
    ensures Positive(levels) && qty > 0 ==>
      0 <= Sweep(side, levels, price, qty).remaining <= qty
    decreases |levels|
  {
    if levels != [] && qty > 0 && Marketable(side, price, levels[0].price) {
      var matched := Min(qty, levels[0].quantity);
      if levels[0].quantity - matched == 0 {
        SweepRemaining(side, levels[1..], price, qty - matched);
      }
    }
  }

  /**
   * Levels are consumed in price priority: the sweep removes the d best
   * levels whole, all of them marketable, and at most reduces the next one
   * (which is then marketable too, and the order is filled); every level
   * behind it is left exactly as it was.
   */
  lemma {:induction false} SweepConsumesBestFirst(side: Side, levels: seq<Level>, price: int, qty: int)
    ensures |Sweep(side, levels, price, qty).rest| <= |levels|
    ensures var f := Sweep(side, levels, price, qty);
      forall i :: 0 <= i < |levels| - |f.rest| ==> Marketable(side, price, levels[i].price)
    ensures var f := Sweep(side, levels, price, qty); var d := |levels| - |f.rest|;
      || f.rest == levels[d..]
      || (&& f.rest != [] && f.remaining == 0
          && f.rest[1..] == levels[d + 1..]
          && f.rest[0].price == levels[d].price
          && f.rest[0].quantity < levels[d].quantity
          && Marketable(side, price, levels[d].price))
    decreases |levels|
  {
    if levels != [] && qty > 0 && Marketable(side, price, levels[0].price) {
      var matched := Min(qty, levels[0].quantity);
      if levels[0].quantity - matched == 0 {
        SweepConsumesBestFirst(side, levels[1..], price, qty - matched);
        var f := Sweep(side, levels[1..], price, qty - matched);
        var d := |levels[1..]| - |f.rest|;
        assert levels[1..][d..] == levels[d + 1..];
        assert f.rest != [] ==> levels[1..][d + 1..] == levels[d + 2..];
        forall i | 0 <= i < d + 1 ensures Marketable(side, price, levels[i].price) {
          if i > 0 { assert levels[i] == levels[1..][i - 1]; }
        }
      } else {
        var l := Level(levels[0].price, levels[0].quantity - matched);
        assert ([l] + levels[1..])[1..] == levels[1..];
      }
    }
  }

  /**
   * Price priority: a level the order may not trade with (an ask above the
   * buy price, a bid below the sell price) is never touched.
   */
  lemma {:induction false} SweepSparesUnmarketable(side: Side, levels: seq<Level>, price: int, qty: int)
    ensures forall i :: 0 <= i < |levels| && !Marketable(side, price, levels[i].price) ==>
      levels[i] in Sweep(side, levels, price, qty).rest
  {
    SweepConsumesBestFirst(side, levels, price, qty);
    var f := Sweep(side, levels, price, qty);
    var d := |levels| - |f.rest|;
    forall i | 0 <= i < |levels| && !Marketable(side, price, levels[i].price)
      ensures levels[i] in f.rest
    {
      if f.rest == levels[d..] {
        assert levels[i] == f.rest[i - d];
      } else {
        assert levels[i] == f.rest[1..][i - d - 1];
      }
    }
  }

  /** The sweep keeps the opposite side in price order. */
  lemma {:induction false} SweepKeepsOrdered(side: Side, o: Side, levels: seq<Level>, price: int, qty: int)
    requires Ordered(o, levels)
    ensures Ordered(o, Sweep(side, levels, price, qty).rest)
    decreases |levels|
  {
    if levels != [] && qty > 0 && Marketable(side, price, levels[0].price) {
      var matched := Min(qty, levels[0].quantity);
      assert Ordered(o, levels[1..]);
      if levels[0].quantity - matched == 0 {
        SweepKeepsOrdered(side, o, levels[1..], price, qty - matched);
      } else {
        var r := [Level(levels[0].price, levels[0].quantity - matched)] + levels[1..];
        forall i, j | 0 <= i < j < |r| ensures Ahead(o, r[i].price, r[j].price) {
          assert r[j] == levels[j];
          assert r[i].price == levels[i].price;
        }
      }
    }
  }

  /** The sweep never leaves a level holding zero quantity. */
  lemma {:induction false} SweepKeepsPositive(side: Side, levels: seq<Level>, price: int, qty: int)
    requires Positive(levels)
    ensures Positive(Sweep(side, levels, price, qty).rest)
    decreases |levels|
  {
    if levels != [] && qty > 0 && Marketable(side, price, levels[0].price) {
      var matched := Min(qty, levels[0].quantity);
      if levels[0].quantity - matched == 0 {
        SweepKeepsPositive(side, levels[1..], price, qty - matched);
      } else {
        var r := [Level(levels[0].price, levels[0].quantity - matched)] + levels[1..];
        forall i | 0 <= i < |r| ensures r[i].quantity > 0 {
          if i > 0 { assert r[i] == levels[i]; }
        }
      }
    }
  }

  /**
   * The best level left after a sweep is the old best level or a worse one:
   * the sweep never improves the opposite side's best price.
   */
  lemma {:induction false} SweepFrontNotBetter(side: Side, o: Side, levels: seq<Level>, price: int, qty: int)
    requires Ordered(o, levels)
    ensures var r := Sweep(side, levels, price, qty).rest;
      r != [] ==> r[0].price == levels[0].price || Ahead(o, levels[0].price, r[0].price)
    decreases |levels|
  {
    if levels != [] && qty > 0 && Marketable(side, price, levels[0].price) {
      var matched := Min(qty, levels[0].quantity);
      if levels[0].quantity - matched == 0 {
        assert Ordered(o, levels[1..]);
        SweepFrontNotBetter(side, o, levels[1..], price, qty - matched);
        SweepConsumesBestFirst(side, levels[1..], price, qty - matched);
      }
    }
  }

  /**
   * A remainder rests only when the opposite side is exhausted or no longer
   * marketable: after a sweep that leaves quantity unfilled, no level of an
   * ordered opposite side can trade with the order.
   */
  lemma {:induction false} SweepLeavesNothingMarketable(side: Side, levels: seq<Level>, price: int, qty: int)
    requires Ordered(Opposite(side), levels)
    ensures Sweep(side, levels, price, qty).remaining > 0 ==>
      forall i :: 0 <= i < |Sweep(side, levels, price, qty).rest| ==>
        !Marketable(side, price, Sweep(side, levels, price, qty).rest[i].price)
    decreases |levels|
  {
    if levels != [] && qty > 0 {
      if !Marketable(side, price, levels[0].price) {
        forall i | 0 <= i < |levels| ensures !Marketable(side, price, levels[i].price) {
          if i > 0 { assert Ahead(Opposite(side), levels[0].price, levels[i].price); }
        }
      } else {
        var matched := Min(qty, levels[0].quantity);
        if levels[0].quantity - matched == 0 {
          assert Ordered(Opposite(side), levels[1..]);
          SweepLeavesNothingMarketable(side, levels[1..], price, qty - matched);
        }
      }
    }
  }

  // ---------------------------------------------------------------------
  // Properties of process_order
  // ---------------------------------------------------------------------

  /**
   * Quantity is conserved by process_order: the order's initial quantity is
   * what it matched plus its remainder, the opposite side falls by exactly
   * the matched quantity, the own side rises by exactly the remainder, and
   * the remainder stays within [0, initial quantity].
   */
  lemma ProcessConserves(b: Book, o: Order)
    requires Positive(b.bids) && Positive(b.asks) && o.quantity >= 0
    ensures var r := Process(b, o);
      && 0 <= r.remaining <= o.quantity
      && (o.side == Buy ==>
            && Total(b.asks) - Total(r.book.asks) == o.quantity - r.remaining
            && Total(r.book.bids) - Total(b.bids) == r.remaining)
      && (o.side == Sell ==>
            && Total(b.bids) - Total(r.book.bids) == o.quantity - r.remaining
            && Total(r.book.asks) - Total(b.asks) == r.remaining)
  {
    var opp := if o.side == Buy then b.asks else b.bids;
    var own := if o.side == Buy then b.bids else b.asks;
    SweepConserves(o.side, opp, o.price, o.quantity);
    SweepRemaining(o.side, opp, o.price, o.quantity);
    var f := Sweep(o.side, opp, o.price, o.quantity);
    if f.remaining > 0 {
      AddLevelTotal(o.side, own, o.price, f.remaining);
    }
  }

  /**
   * Price priority for process_order: a buy never changes an ask priced
   * above it, a sell never changes a bid priced below it.
   */
  lemma ProcessRespectsPricePriority(b: Book, o: Order)
    ensures o.side == Buy ==> forall i :: 0 <= i < |b.asks| && b.asks[i].price > o.price ==>
      b.asks[i] in Process(b, o).book.asks
    ensures o.side == Sell ==> forall i :: 0 <= i < |b.bids| && b.bids[i].price < o.price ==>
      b.bids[i] in Process(b, o).book.bids
  {
    if o.side == Buy {
      SweepSparesUnmarketable(Buy, b.asks, o.price, o.quantity);
    } else {
      SweepSparesUnmarketable(Sell, b.bids, o.price, o.quantity);
    }
  }

  /**
   * Nothing else changes: the order's own side changes only at the order's
   * price, by exactly the remainder, and not at all when the order is filled.
   */
  lemma ProcessOwnSide(b: Book, o: Order)
    requires Ordered(Buy, b.bids) && Ordered(Sell, b.asks)
    ensures var r := Process(b, o); var own := if o.side == Buy then b.bids else b.asks;
      var own' := if o.side == Buy then r.book.bids else r.book.asks;
      && (r.remaining <= 0 ==> own' == own)
      && (r.remaining > 0 ==> QuantityAt(own', o.price) == QuantityAt(own, o.price) + r.remaining)
      && (forall p :: p != o.price ==> QuantityAt(own', p) == QuantityAt(own, p))
  {
    var own := if o.side == Buy then b.bids else b.asks;
    var r := Process(b, o);
    if r.remaining > 0 {
      AddLevelQuantity(o.side, own, o.price, r.remaining);
    }
  }

  /**
   * process_order keeps the book valid: both sides stay in price order,
   * no level ever holds zero quantity, and the book never becomes crossed.
   */
  lemma ProcessKeepsValid(b: Book, o: Order)
    requires b.Valid()
    ensures Process(b, o).book.Valid()
  {
    var opp := if o.side == Buy then b.asks else b.bids;
    var own := if o.side == Buy then b.bids else b.asks;
    var f := Sweep(o.side, opp, o.price, o.quantity);
    SweepKeepsOrdered(o.side, Opposite(o.side), opp, o.price, o.quantity);
    SweepKeepsPositive(o.side, opp, o.price, o.quantity);
    SweepFrontNotBetter(o.side, Opposite(o.side), opp, o.price, o.quantity);
    SweepLeavesNothingMarketable(o.side, opp, o.price, o.quantity);
    var own' := Rest(o.side, own, o.price, f.remaining);
    if f.remaining > 0 {
      AddLevelOrdered(o.side, own, o.price, f.remaining);
      AddLevelPositive(o.side, own, o.price, f.remaining);
    }
    assert Ordered(o.side, own') && Positive(own');
  }

  /**
   * The worked example: on an empty book, BUY 100x5 rests as bids {100: 5};
   * SELL 100x3 then fills against it, leaving bids {100: 2}; SELL 99x10 then
   * takes those 2 and rests its 8 as asks {99: 8}, emptying the bid side.
   */
  lemma Scenario()
    ensures Process(Book([], []), Order(1, Buy, 100, 5))
         == Outcome(Book([Level(100, 5)], []), 5)
    ensures Process(Book([Level(100, 5)], []), Order(2, Sell, 100, 3))
         == Outcome(Book([Level(100, 2)], []), 0)
    ensures Process(Book([Level(100, 2)], []), Order(3, Sell, 99, 10))
         == Outcome(Book([], [Level(99, 8)]), 8)
  {
    assert [Level(100, 5)][1..] == [];
    assert [Level(100, 2)][1..] == [];
  }
}
