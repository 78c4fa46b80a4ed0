/**
 * The OrderBook class: the state owned by the single matching thread. Its
 * two sides are fields that the matching loops update in place; each method
 * is proved to follow the functions of module Matching.
 */
module Engine {
  import opened Wrappers
  import opened Levels
  import opened Matching

  /** The top-of-book snapshot: the best level of each side, if any. */
  datatype Top = Top(bestBid: Option<Level>, bestAsk: Option<Level>)

  class OrderBook {
    /** Bid levels, highest price first (the source walks them with rbegin). */
    var bids: seq<Level>
    /** Ask levels, lowest price first. */
    var asks: seq<Level>

    ghost function View(): Book
      reads this
    {
      Book(bids, asks)
    }

    ghost predicate Valid()
      reads this
    {
      View().Valid()
    }

    /** A new book is empty on both sides. */
    constructor ()
      ensures bids == [] && asks == []
      ensures Valid()
    {
      bids, asks := [], [];
    }

    /**
     * process_order: routes a buy to MatchBuy and a sell to MatchSell. The
     * order comes back with its quantity reduced to the unfilled remainder.
     */
    method ProcessOrder(order: Order) returns (processed: Order)
      modifies this
      ensures View() == Process(old(View()), order).book
      ensures processed == order.(quantity := Process(old(View()), order).remaining)
      ensures old(Valid()) ==> Valid()
    {
      ghost var before := View();
      if order.side == Buy {
        processed := MatchBuy(order);
      } else {
        processed := MatchSell(order);
      }
      if before.Valid() {
        ProcessKeepsValid(before, order);
      }
    }

    /**
     * print_top_of_book as a query: the best bid is the highest-priced bid
     * level, the best ask the lowest-priced ask level, and a side without
     * levels reports none. On a valid book the best bid is below the best ask.
     */
    function TopOfBook(): (top: Top)
      reads this
      ensures top.bestBid.None? <==> bids == []
      ensures top.bestAsk.None? <==> asks == []
      ensures top.bestBid.Some? ==> top.bestBid.value in bids
      ensures top.bestAsk.Some? ==> top.bestAsk.value in asks
      ensures top.bestBid.Some? && Ordered(Buy, bids) ==>
        forall i :: 0 <= i < |bids| ==> bids[i].price <= top.bestBid.value.price
      ensures top.bestAsk.Some? && Ordered(Sell, asks) ==>
        forall i :: 0 <= i < |asks| ==> top.bestAsk.value.price <= asks[i].price
      ensures Valid() && top.bestBid.Some? && top.bestAsk.Some? ==>
        top.bestBid.value.price < top.bestAsk.value.price
    {
      Top(if bids == [] then None else Some(bids[0]),
          if asks == [] then None else Some(asks[0]))
    }

    /** add_to_book: `bids[price] += quantity` for a buy, `asks[price] += quantity` for a sell. */
    method AddToBook(price: int, quantity: int, side: Side)
      modifies this
      ensures side == Buy ==> bids == AddLevel(Buy, old(bids), price, quantity) && asks == old(asks)
      ensures side == Sell ==> asks == AddLevel(Sell, old(asks), price, quantity) && bids == old(bids)
    {
      if side == Buy {
        bids := AddLevel(Buy, bids, price, quantity);
      } else {
        asks := AddLevel(Sell, asks, price, quantity);
      }
    }

    /**
     * match_buy: walks the asks from the lowest price, filling the order
     * level by level, then rests any remainder in the bids at its price.
     * The index i is the source's ask iterator; it only moves past a level
     * it does not erase, which happens only once the order is filled.
     */
    method MatchBuy(order: Order) returns (processed: Order)
      modifies this
      ensures var f := Sweep(Buy, old(asks), order.price, order.quantity);
        && asks == f.rest
        && bids == Rest(Buy, old(bids), order.price, f.remaining)
        && processed == order.(quantity := f.remaining)
    {
      ghost var goal := Sweep(Buy, asks, order.price, order.quantity);
      processed := order;
      var i := 0;
      while i < |asks| && processed.quantity > 0
        invariant 0 <= i <= |asks|
        invariant i == 0 || processed.quantity == 0
        invariant processed == order.(quantity := processed.quantity)
        invariant Sweep(Buy, asks, order.price, processed.quantity) == goal
        invariant bids == old(bids)
        decreases |asks| - i
      {
        var askPrice := asks[i].price;
        var askQuantity := asks[i].quantity;
        if processed.price < askPrice {
          break;
        }
        var matched := Min(processed.quantity, askQuantity);
        processed := processed.(quantity := processed.quantity - matched);
        askQuantity := askQuantity - matched;
        if askQuantity == 0 {
          assert asks[..i] + asks[i + 1..] == asks[1..];
          asks := asks[..i] + asks[i + 1..];
        } else {
          assert asks[i := Level(askPrice, askQuantity)] == [Level(askPrice, askQuantity)] + asks[1..];
          asks := asks[i := Level(askPrice, askQuantity)];
          i := i + 1;
        }
      }
      if processed.quantity > 0 {
        AddToBook(processed.price, processed.quantity, Buy);
      }
    }

    /**
     * match_sell: the mirror image, walking the bids from the highest price
     * and resting any remainder in the asks. The index i is the source's
     * reverse iterator over the bids.
     */
    method MatchSell(order: Order) returns (processed: Order)
      modifies this
      ensures var f := Sweep(Sell, old(bids), order.price, order.quantity);
        && bids == f.rest
        && asks == Rest(Sell, old(asks), order.price, f.remaining)
        && processed == order.(quantity := f.remaining)
    {
      ghost var goal := Sweep(Sell, bids, order.price, order.quantity);
      processed := order;
      var i := 0;
      while i < |bids| && processed.quantity > 0
        invariant 0 <= i <= |bids|
        invariant i == 0 || processed.quantity == 0
        invariant processed == order.(quantity := processed.quantity)
        invariant Sweep(Sell, bids, order.price, processed.quantity) == goal
        invariant asks == old(asks)
        decreases |bids| - i
      {
        var bidPrice := bids[i].price;
        var bidQuantity := bids[i].quantity;
        if processed.price > bidPrice {
          break;
        }
        var matched := Min(processed.quantity, bidQuantity);
        processed := processed.(quantity := processed.quantity - matched);
        bidQuantity := bidQuantity - matched;
        if bidQuantity == 0 {
          assert bids[..i] + bids[i + 1..] == bids[1..];
          bids := bids[..i] + bids[i + 1..];
        } else {
          assert bids[i := Level(bidPrice, bidQuantity)] == [Level(bidPrice, bidQuantity)] + bids[1..];
          bids := bids[i := Level(bidPrice, bidQuantity)];
          i := i + 1;
        }
      }
      if processed.quantity > 0 {
        AddToBook(processed.price, processed.quantity, Sell);
      }
    }
  }
}
