/** SimpleOrderBook: the maps are changed in place, message by message. Valid() is index agreement. */
module OrderBook {
  import opened Words
  import opened MarketData
  import opened BookModel
  import opened BookTheorems

  class SimpleOrderBook {
    var orders: Orders
    var bids: Levels
    var asks: Levels
    var lastQuote: Option<QuoteInfo>

    ghost function State(): Book
      reads this
    {
      Book(orders, bids, asks, lastQuote)
    }

    ghost predicate Valid()
      reads this
    {
      Agrees(State()) && Supported(State())
    }

    constructor ()
      ensures Valid() && State() == EMPTY_BOOK
    {
      orders, bids, asks, lastQuote := map[], map[], map[], None;
      new;
      EmptyAgrees();
    }

    method Clear()
      modifies this
      ensures Valid() && State() == EMPTY_BOOK
    {
      orders, bids, asks, lastQuote := map[], map[], map[], None;
      EmptyAgrees();
    }

    method OrderCount() returns (n: nat)
      ensures n == |State().orders|
    {
      n := |orders|;
    }

    /** bids_.begin() is the greatest key; finding it is std::map's work, written here as a scan. */
    method BestBidLevel() returns (best: Option<Level>)
      requires Valid()
      ensures best == BestBid(State())
      ensures Covered(State()) ==>
        forall p: u32, q: u32 :: best == Some(Level(p, q)) <==>
          BestResting(orders, BUY, p) && q == Min(Sum(orders, At(BUY, p)), U32_MAX)
    {
      if Covered(State()) {
        forall p: u32, q: u32 { BestPricesAreScans(State(), p, q); }
      }
      if bids == map[] { return None; }
      var keys := bids.Keys;
      var p :| p in keys;
      keys := keys - {p};
      while keys != {}
        invariant p in bids && keys <= bids.Keys
        invariant forall k :: k in bids && k !in keys ==> k <= p
        decreases |keys|
      {
        var k :| k in keys;
        keys := keys - {k};
        if p < k { p := k; }
      }
      best := Some(Level(p, NarrowQuantity(bids[p])));
    }

    method BestAskLevel() returns (best: Option<Level>)
      requires Valid()
      ensures best == BestAsk(State())
      ensures Covered(State()) ==>
        forall p: u32, q: u32 :: best == Some(Level(p, q)) <==>
          BestResting(orders, SELL, p) && q == Min(Sum(orders, At(SELL, p)), U32_MAX)
    {
      if Covered(State()) {
        forall p: u32, q: u32 { BestPricesAreScans(State(), p, q); }
      }
      if asks == map[] { return None; }
      var keys := asks.Keys;
      var p :| p in keys;
      keys := keys - {p};
      while keys != {}
        invariant p in asks && keys <= asks.Keys
        invariant forall k :: k in asks && k !in keys ==> p <= k
        decreases |keys|
      {
        var k :| k in keys;
        keys := keys - {k};
        if k < p { p := k; }
      }
      best := Some(Level(p, NarrowQuantity(asks[p])));
    }

    method AddToSide(side: u8, price: u32, quantity: u32)
      modifies this`bids, this`asks
      ensures State() == AddToLevels(old(State()), side, price, quantity)
    {
      if side == BUY {
        bids := bids[price := (LevelAt(bids, price) + quantity) % 0x1_0000_0000_0000_0000];
        return;
      }
      if side == SELL {
        asks := asks[price := (LevelAt(asks, price) + quantity) % 0x1_0000_0000_0000_0000];
      }
    }

    static method Subtract(levels: Levels, price: u32, quantity: u32) returns (left: Levels)
      ensures left == SubtractLevel(levels, price, quantity)
    {
      left := levels;
      if price !in levels { return; }
      if levels[price] <= quantity {
        left := left - {price};
        return;
      }
      left := left[price := levels[price] - quantity];
    }

    method RemoveFromSide(side: u8, price: u32, quantity: u32)
      modifies this`bids, this`asks
      ensures State() == RemoveFromLevels(old(State()), side, price, quantity)
    {
      if side == BUY {
        bids := Subtract(bids, price, quantity);
        return;
      }
      if side == SELL {
        asks := Subtract(asks, price, quantity);
      }
    }

    method Reduce(id: u32, requested: u32)
      requires id in orders
      modifies this
      ensures State() == ReduceOrder(old(State()), id, requested)
    {
      var o := orders[id];
      var removed := if requested >= o.quantity then o.quantity else requested;
      RemoveFromSide(o.side, o.price, removed);
      orders := orders[id := o.(quantity := o.quantity - removed)];
      if orders[id].quantity == 0 {
        orders := orders - {id};
      }
    }

    /** The four apply overloads. Every message keeps the index in agreement, and moves the orders
        and the levels by the same amounts. */
    method ApplyOne(m: Message) returns (ok: bool)
      requires Valid()
      modifies this
      ensures Valid()
      ensures (State(), ok) == Apply(old(State()), m)
      ensures ok <==> m.AddOrder? || m.Quote? || m.orderId in old(orders)
      ensures !ok ==> State() == old(State())
      ensures forall sel :: Sum(orders, sel) + RemovedBy(old(State()), m, sel) == Sum(old(orders), sel) + AddedBy(m, sel)
    {
      ApplyKeepsAgreement(State(), m);
      ApplyKeepsSupport(State(), m);
      forall sel { SumFlow(State(), m, sel); }
      match m
      case AddOrder(ts, id, side, price, qty, _) =>
        if id in orders {
          RemoveFromSide(orders[id].side, orders[id].price, orders[id].quantity);
        }
        orders := orders[id := RestingOrder(side, price, qty, ts)];
        AddToSide(side, price, qty);
        ok := true;
      case CancelOrder(_, id, qty) =>
        if id !in orders { return false; }
        Reduce(id, if qty == 0 then orders[id].quantity else qty);
        ok := true;
      case Execute(_, id, qty, _) =>
        if id !in orders { return false; }
        Reduce(id, qty);
        ok := true;
      case Quote(ts, bidPrice, bidQty, askPrice, askQty) =>
        lastQuote := Some(QuoteInfo(ts, Level(bidPrice, bidQty), Level(askPrice, askQty)));
        ok := true;
    }

    /** applyMessage: host-order bytes. */
    method ApplyHostMessage(host: Endian, payload: seq<u8>) returns (ok: bool)
      requires Valid()
      modifies this
      ensures Valid()
      ensures (State(), ok) == ApplyMessage(host, old(State()), payload)
      ensures !ok ==> State() == old(State())
    {
      var m := CopyMessage(host, payload);
      if m.None? { return false; }
      ok := ApplyOne(m.value);
    }

    /** applyPacket: a length prefix and network-order fields. A refused packet changes nothing. */
    method ApplyNetworkPacket(host: Endian, packet: seq<u8>) returns (ok: bool)
      requires Valid()
      modifies this
      ensures Valid()
      ensures (State(), ok) == ApplyPacket(host, old(State()), packet)
      ensures !ok ==> State() == old(State())
    {
      if |packet| < 2 { return false; }
      var payloadSize := NetworkOrder(host, 2, Load(host, packet[..2]));
      var packetSize := 2 + payloadSize;
      if |packet| < packetSize { return false; }
      var m := Decode(host, packet[2..packetSize]);
      if m.None? { return false; }
      ok := ApplyOne(m.value);
    }
  }
}
