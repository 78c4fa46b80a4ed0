/**
 * The sequential part of the matching thread: every dequeued order is
 * processed against the book and then exactly one latency sample is
 * appended. The queue is modelled as the sequence of orders in the order
 * they were dequeued, and each latency as a number supplied from outside.
 */
module Consumer {
  import opened Levels
  import opened Matching
  import opened Engine

  /**
   * The book after processing the orders one after another; any sequence of
   * orders keeps a valid book valid.
   */
  function ProcessAll(b: Book, orders: seq<Order>): (r: Book)
    ensures b.Valid() ==> r.Valid()
    decreases |orders|
  {
    if orders == [] then b
    else
      var prev := ProcessAll(b, orders[..|orders| - 1]);
      var last := orders[|orders| - 1];
      assert prev.Valid() ==> Process(prev, last).book.Valid() by {
        if prev.Valid() {
          ProcessKeepsValid(prev, last);
        }
      }
      Process(prev, last).book
  }

  /**
   * The consumer's loop body, run over the dequeued orders: process the
   * order, then record its latency. Each order adds exactly one sample.
   */
  method ConsumeOrders(book: OrderBook, orders: seq<Order>, latencies: seq<int>, recorded: seq<int>)
    returns (samples: seq<int>)
    requires |latencies| == |orders|
    modifies book
    ensures book.View() == ProcessAll(old(book.View()), orders)
    ensures samples == recorded + latencies
    ensures |samples| == |recorded| + |orders|
    ensures old(book.Valid()) ==> book.Valid()
  {
    samples := recorded;
    var i := 0;
    while i < |orders|
      invariant 0 <= i <= |orders|
      invariant book.View() == ProcessAll(old(book.View()), orders[..i])
      invariant samples == recorded + latencies[..i]
    {
      assert orders[..i + 1][..i] == orders[..i];
      assert ProcessAll(old(book.View()), orders[..i + 1])
          == Process(ProcessAll(old(book.View()), orders[..i]), orders[i]).book;
      var processed := book.ProcessOrder(orders[i]);
      samples := samples + [latencies[i]];
      assert latencies[..i + 1] == latencies[..i] + [latencies[i]];
      i := i + 1;
    }
    assert orders[..i] == orders;
    assert latencies[..i] == latencies;
  }

  /** Starting from the empty book, the book is valid after any run. */
  lemma EmptyBookStaysValid(orders: seq<Order>)
    ensures ProcessAll(Book([], []), orders).Valid()
  {
    assert Book([], []).Valid();
  }
}
