/** The loss-free case: the book equals the pool after every call, and the top of the one is the top
    of the other. */
module Lockstep {
  import opened Words
  import opened MarketData
  import opened BookModel
  import opened BookTheorems
  import opened GeneratorModel
  import opened GeneratorTheorems
  import opened UdpFrame
  import opened WirePath
  import opened Replication

  ghost predicate Mirrored(o: PoolOrder, orders: Orders) {
    && o.id in orders
    && orders[o.id].side == o.side && orders[o.id].price == o.price && orders[o.id].quantity == o.quantity
  }

  /** Every pool order is in the book as it is in the pool, and the book has no other order. */
  ghost predicate InLockstep(pool: seq<PoolOrder>, orders: Orders) {
    && DistinctIds(pool)
    && (forall i :: 0 <= i < |pool| ==> Mirrored(pool[i], orders))
    && (forall id: u32 :: id in orders ==> PoolHas(pool, id))
  }

  /** id -> (side, price, quantity) of the live pool. */
  ghost function PoolView(pool: seq<PoolOrder>): map<u32, Entry>
    requires DistinctIds(pool)
  {
    map o | o in pool :: o.id := Entry(o.side, o.price, o.quantity)
  }

  /** id -> (side, price, quantity) of the book. */
  ghost function BookView(orders: Orders): map<u32, Entry> {
    map id | id in orders :: Entry(orders[id].side, orders[id].price, orders[id].quantity)
  }

  /** Lockstep is equality of the two id -> (side, price, quantity) maps. */
  lemma LockstepIsViewEquality(pool: seq<PoolOrder>, orders: Orders)
    requires DistinctIds(pool)
    ensures InLockstep(pool, orders) <==> PoolView(pool) == BookView(orders)
  {
    var (pv, bv) := (PoolView(pool), BookView(orders));
    assert forall i :: 0 <= i < |pool| ==>
      pool[i] in pool && pv[pool[i].id] == Entry(pool[i].side, pool[i].price, pool[i].quantity);
    assert forall id: u32 :: id in pv <==> PoolHas(pool, id);
    if pv == bv {
      forall i | 0 <= i < |pool|
        ensures Mirrored(pool[i], orders)
      {
        assert pool[i].id in pv && bv[pool[i].id] == Entry(pool[i].side, pool[i].price, pool[i].quantity);
      }
      assert forall id: u32 :: id in orders ==> id in bv;
    }
    if InLockstep(pool, orders) {
      assert forall id: u32 :: id in bv <==> id in pv;
    }
  }

  /** Lossless delivery of a run in which fewer than 2^32 orders are added keeps the book equal to the
      pool, whatever is drawn. */
  lemma LosslessLockstep(link: Link, symbol: Symbol, rounds: seq<Round>, capacity: nat)
    requires capacity >= 32
    requires forall i :: 0 <= i < |rounds| ==> rounds[i].delivered
    requires Adds(Run(link, symbol, rounds, capacity).log) < 0x1_0000_0000
    ensures var w := Run(link, symbol, rounds, capacity); InLockstep(w.gen.pool, w.book.orders)
  {
    RunIsSound(link, symbol, rounds, capacity);
    LosslessLog(link, symbol, rounds, capacity);
    var w := Run(link, symbol, rounds, capacity);
    forall i | 0 <= i < |w.gen.pool|
      ensures Tracked(w.gen.pool[i], w.book.orders, w.log) && AddSent(w.log, w.gen.pool[i].id, true)
      ensures LostExecs(w.log, w.gen.pool[i].id) == 0
    {
      NothingLost(w.log, w.gen.pool[i].id);
    }
    forall id: u32 | id in w.book.orders
      ensures PoolHas(w.gen.pool, id)
    {
      NothingLost(w.log, id);
    }
  }

  lemma {:induction false} LosslessLog(link: Link, symbol: Symbol, rounds: seq<Round>, capacity: nat)
    requires forall i :: 0 <= i < |rounds| ==> rounds[i].delivered
    ensures var w := Run(link, symbol, rounds, capacity);
      forall i :: 0 <= i < |w.log| ==> w.log[i].delivered
  {
    if |rounds| > 0 {
      var front, last := rounds[..|rounds| - 1], rounds[|rounds| - 1];
      LosslessLog(link, symbol, front, capacity);
      StepLogs(link, Run(link, symbol, front, capacity), last, capacity);
      assert last.delivered;
      assert Run(link, symbol, rounds, capacity) == Step(link, Run(link, symbol, front, capacity), last, capacity);
    }
  }

  lemma StepLogs(link: Link, w: World, r: Round, capacity: nat)
    ensures var log' := Step(link, w, r, capacity).log;
      |w.log| <= |log'| <= |w.log| + 1
      && forall i :: 0 <= i < |log'| ==> if i < |w.log| then log'[i] == w.log[i] else log'[i].delivered == r.delivered
  {
  }

  lemma {:induction false} NothingLost(log: seq<Sent>, id: u32)
    requires forall i :: 0 <= i < |log| ==> log[i].delivered
    ensures !AddSent(log, id, false) && !CancelLost(log, id) && LostExecs(log, id) == 0
  {
    if |log| > 0 {
      NothingLost(log[..|log| - 1], id);
    }
  }

  // ---------------------------------------------------------------------------------------------
  // One call at a time, and exactly what can break it.

  lemma RemovalKeepsLockstep(pool: seq<PoolOrder>, i: nat, orders: Orders)
    requires InLockstep(pool, orders) && i < |pool|
    ensures InLockstep(SwapRemove(pool, i), orders - {pool[i].id})
  {
    var pool', orders' := SwapRemove(pool, i), orders - {pool[i].id};
    SwapRemoveHas(pool, i, pool[i].id);
    forall k | 0 <= k < |pool'|
      ensures Mirrored(pool'[k], orders')
    {
      assert PoolHas(pool', pool'[k].id);
      assert Mirrored(if k == i then pool[|pool| - 1] else pool[k], orders);
    }
    forall id: u32 | id in orders'
      ensures PoolHas(pool', id)
    {
      SwapRemoveHas(pool, i, id);
    }
  }

  lemma FillKeepsLockstep(pool: seq<PoolOrder>, i: nat, qty: u32, orders: Orders)
    requires InLockstep(pool, orders) && i < |pool| && qty < pool[i].quantity
    ensures InLockstep(pool[i := pool[i].(quantity := pool[i].quantity - qty)], Executed(orders, pool[i].id, qty))
  {
    var pool' := pool[i := pool[i].(quantity := pool[i].quantity - qty)];
    var orders' := Executed(orders, pool[i].id, qty);
    assert Mirrored(pool[i], orders);
    forall k | 0 <= k < |pool'|
      ensures Mirrored(pool'[k], orders')
    {
      assert Mirrored(pool[k], orders);
    }
    forall id: u32 | id in orders'
      ensures PoolHas(pool', id)
    {
      var k :| 0 <= k < |pool| && pool[k].id == id;
      assert pool'[k].id == id;
    }
  }

  lemma ReductionKeepsLockstep(pool: seq<PoolOrder>, pool': seq<PoolOrder>, i: nat, qty: u32, orders: Orders)
    requires InLockstep(pool, orders) && i < |pool| && RemovedOrReduced(pool, pool', i, qty)
    ensures pool[i].id in orders && InLockstep(pool', Executed(orders, pool[i].id, qty))
  {
    assert Mirrored(pool[i], orders);
    if qty == pool[i].quantity {
      RemovalKeepsLockstep(pool, i, orders);
    } else {
      FillKeepsLockstep(pool, i, qty, orders);
    }
  }

  lemma AddKeepsLockstepIff(pool: seq<PoolOrder>, o: PoolOrder, ts: u64, orders: Orders)
    requires InLockstep(pool, orders)
    ensures InLockstep(pool + [o], orders[o.id := RestingOrder(o.side, o.price, o.quantity, ts)])
       <==> !PoolHas(pool, o.id)
  {
    var pool', orders' := pool + [o], orders[o.id := RestingOrder(o.side, o.price, o.quantity, ts)];
    if PoolHas(pool, o.id) {
      var k :| 0 <= k < |pool| && pool[k].id == o.id;
      assert pool'[k].id == pool'[|pool|].id;
    } else {
      forall k | 0 <= k < |pool'|
        ensures Mirrored(pool'[k], orders')
      {
        if k < |pool| {
          assert Mirrored(pool[k], orders) && PoolHas(pool, pool[k].id);
        }
      }
      forall id: u32 | id in orders'
        ensures PoolHas(pool', id)
      {
        if id == o.id {
          assert pool'[|pool|].id == id;
        } else {
          var k :| 0 <= k < |pool| && pool[k].id == id;
          assert pool'[k].id == id;
        }
      }
      forall j, k | 0 <= j < k < |pool'|
        ensures pool'[j].id != pool'[k].id
      {
        assert PoolHas(pool, pool[j].id);
      }
    }
  }

  /** One message: the book accepts it, and is in lockstep afterwards exactly when an Add does not
      reuse the id of an order still in the pool. */
  lemma MessageKeepsLockstepIff(g: Gen, g': Gen, b: Book, m: Message)
    requires InLockstep(g.pool, b.orders) && PoolOk(g.pool) && Emits(g, m, g')
    ensures Apply(b, m).1
    ensures InLockstep(g'.pool, Apply(b, m).0.orders) <==> (m.AddOrder? ==> !PoolHas(g.pool, g.nextId))
  {
    DeliveredOrders(b, m);
    match m
    case AddOrder(ts, id, side, price, qty, _) =>
      AddKeepsLockstepIff(g.pool, PoolOrder(id, price, qty, side), ts, b.orders);
    case CancelOrder(_, id, _) =>
      var i: nat :| i < |g.pool| && g.pool[i].id == id && g'.pool == SwapRemove(g.pool, i);
      assert Mirrored(g.pool[i], b.orders);
      RemovalKeepsLockstep(g.pool, i, b.orders);
    case Execute(_, id, qty, _) =>
      var i: nat :| i < |g.pool| && g.pool[i].id == id && RemovedOrReduced(g.pool, g'.pool, i, qty);
      ReductionKeepsLockstep(g.pool, g'.pool, i, qty, b.orders);
    case Quote(_, _, _, _, _) =>
  }

  /** Every nextPacket call emits a packet, the strategy accepts its frame, and book and pool are again
      in lockstep, when the next id is not still resting. */
  lemma CallKeepsLockstep(link: Link, w: World, r: Round, capacity: nat)
    requires capacity >= 32 && r.delivered
    requires InLockstep(w.gen.pool, w.book.orders) && PoolOk(w.gen.pool) && !PoolHas(w.gen.pool, w.gen.nextId)
    ensures var b := NextPacket(w.gen, r.call, capacity);
      && b.message.Some?
      && Received(link, w.book, b.message.value, r.ipId).1
    ensures var w' := Step(link, w, r, capacity); InLockstep(w'.gen.pool, w'.book.orders)
  {
    StepIsApply(link, w, r, capacity);
    var b := NextPacket(w.gen, r.call, capacity);
    MessageKeepsLockstepIff(w.gen, b.gen, w.book, b.message.value);
    MessageArrives(link.writer, link.reader, w.book, link.addresses, b.message.value, r.ipId);
  }

  ghost predicate KeepsLockstep(link: Link, symbol: Symbol, rounds: seq<Round>, capacity: nat) {
    var w := Run(link, symbol, rounds, capacity);
    var lossless := forall i :: 0 <= i < |rounds| ==> rounds[i].delivered;
    lossless && Adds(w.log) < 0x1_0000_0000 ==> InLockstep(w.gen.pool, w.book.orders)
  }

  /** 32 bytes of room are exactly what it takes: with less, an Add has changed the pool before
      writeMessage refuses it. */
  lemma CapacityIff(link: Link, symbol: Symbol, capacity: nat)
    ensures (forall rounds: seq<Round> :: KeepsLockstep(link, symbol, rounds, capacity)) <==> capacity >= 32
  {
    if capacity >= 32 {
      forall rounds: seq<Round>
        ensures KeepsLockstep(link, symbol, rounds, capacity)
      {
        var w := Run(link, symbol, rounds, capacity);
        if (forall i :: 0 <= i < |rounds| ==> rounds[i].delivered) && Adds(w.log) < 0x1_0000_0000 {
          LosslessLockstep(link, symbol, rounds, capacity);
        }
      }
    } else {
      var rounds := ShortBufferRun();
      ShortBufferLeaks(link, symbol, capacity);
      assert !KeepsLockstep(link, symbol, rounds, capacity);
    }
  }

  function ShortBufferRun(): seq<Round> {
    var add := Draw(AddEvent, true, 0, 0, 0, 0);
    var quote := Draw(QuoteEvent, true, 0, 0, 0, 0);
    [Round(Call(100, [add, quote, quote, quote], 0), true, 0)]
  }

  lemma ShortBufferLeaks(link: Link, symbol: Symbol, capacity: nat)
    requires capacity < 32
    ensures var w := Run(link, symbol, ShortBufferRun(), capacity);
      |w.gen.pool| == 1 && w.book.orders == map[] && Adds(w.log) <= 1 && !InLockstep(w.gen.pool, w.book.orders)
  {
    var round := ShortBufferRun()[0];
    var g := EvolveMid(InitialGen(symbol), 100);
    var added := Written(Build(g, round.call.attempts[0]), capacity);
    assert added.message.None? && |added.gen.pool| == 1;
    QuotesKeepPool(added.gen, round.call.attempts[1..], capacity);
    var b := NextPacket(InitialGen(symbol), round.call, capacity);
    assert b.gen.pool == added.gen.pool && (b.message.Some? ==> b.message.value.Quote?);
    var start := World(InitialGen(symbol), EMPTY_BOOK, []);
    assert ShortBufferRun()[..0] == [];
    assert Run(link, symbol, ShortBufferRun(), capacity) == Step(link, start, round, capacity);
    if b.message.Some? {
      MessageArrives(link.writer, link.reader, EMPTY_BOOK, link.addresses, b.message.value, round.ipId);
      LedgerPush([], Sent(b.message.value, true), 0);
    }
    assert !Mirrored(added.gen.pool[0], map[]);
  }

  lemma {:induction false} QuotesKeepPool(g: Gen, draws: seq<Draw>, capacity: nat)
    requires forall i :: 0 <= i < |draws| ==> draws[i].event.QuoteEvent?
    ensures var b := Attempts(g, draws, capacity);
      b.gen.pool == g.pool && (b.message.Some? ==> b.message.value.Quote?)
    decreases |draws|
  {
    if |draws| > 0 {
      QuotesKeepPool(g, draws[1..], capacity);
    }
  }

  // ---------------------------------------------------------------------------------------------
  // The top of the book.

  ghost function BestOn(b: Book, side: u8): Option<Level> {
    if side == BUY then BestBid(b) else BestAsk(b)
  }

  lemma {:induction false} PoolBoundsSum(pool: seq<PoolOrder>, orders: Orders, sel: Selector)
    requires InLockstep(pool, orders) && PoolOk(pool)
    ensures Sum(orders, sel) <= |pool| * MAX_ORDER_QTY
  {
    if |pool| == 0 {
      assert forall id: u32 :: id in orders ==> PoolHas(pool, id);
      SumZero(orders, sel);
    } else {
      var last := |pool| - 1;
      RemovalKeepsLockstep(pool, last, orders);
      assert SwapRemove(pool, last) == pool[..last];
      assert OrderOk(pool[last]) && Mirrored(pool[last], orders);
      PoolBoundsSum(pool[..last], orders - {pool[last].id}, sel);
      SumChange(orders, orders - {pool[last].id}, sel, pool[last].id);
    }
  }

  /** A pool price on the side is a book price on the side, and the other way round. */
  lemma PoolPricesAreBookPrices(pool: seq<PoolOrder>, orders: Orders, side: u8, p: u32)
    requires InLockstep(pool, orders)
    ensures RestsAt(orders, side, p) <==> exists k :: 0 <= k < |pool| && pool[k].side == side && pool[k].price == p
  {
    if RestsAt(orders, side, p) {
      var id: u32 :| id in orders && orders[id].side == side && orders[id].price == p;
      var k :| 0 <= k < |pool| && pool[k].id == id;
      assert Mirrored(pool[k], orders);
    }
    if k :| 0 <= k < |pool| && pool[k].side == side && pool[k].price == p {
      assert Mirrored(pool[k], orders);
    }
  }

  /** What a scan finds is the best price of the book's orders on that side. */
  lemma ScanIsBestResting(pool: seq<PoolOrder>, orders: Orders, side: u8)
    requires InLockstep(pool, orders) && (side == BUY || side == SELL)
    ensures var (p, i) := Scan(pool, side, |pool|);
      if i.Some? then i.value < |pool| && BestResting(orders, side, p)
      else p == Sentinel(side) && forall q: u32 :: RestsAt(orders, side, q) ==> q == Sentinel(side)
  {
    var (p, i) := Scan(pool, side, |pool|);
    ScanFindsBest(pool, side, |pool|);
    PoolPricesAreBookPrices(pool, orders, side, p);
    forall id: u32 | id in orders && orders[id].side == side
      ensures !Better(side, orders[id].price, p)
    {
      var k :| 0 <= k < |pool| && pool[k].id == id;
      assert Mirrored(pool[k], orders);
    }
  }

  ghost predicate Usable(best: Option<Level>, side: u8) {
    best.Some? && best.value.price != Sentinel(side)
  }

  lemma BestIsResting(b: Book, side: u8, p: u32)
    requires Agrees(b) && Tight(b) && (side == BUY || side == SELL)
    ensures BestOn(b, side).None? ==> !RestsAt(b.orders, side, p)
    ensures BestOn(b, side).Some? ==> BestResting(b.orders, side, BestOn(b, side).value.price)
    ensures BestResting(b.orders, side, p) ==>
      BestOn(b, side) == Some(Level(p, Min(Sum(b.orders, At(side, p)), U32_MAX)))
  {
    TightIsExact(b);
    var best := BestOn(b, side);
    if best.Some? {
      BestPricesAreScans(b, best.value.price, best.value.quantity);
    } else {
      BestPricesAreScans(b, 0, 0);
    }
    BestPricesAreScans(b, p, Min(Sum(b.orders, At(side, p)), U32_MAX));
  }

  /** The scan of the pool and the index of the book name the same best price, except when that price
      is the scan's own starting value; and no level is large enough to saturate. */
  lemma ScanIsBookTop(g: Gen, b: Book, side: u8)
    requires InLockstep(g.pool, b.orders) && PoolOk(g.pool) && Agrees(b) && Tight(b)
    requires side == BUY || side == SELL
    ensures var (p, i) := Scan(g.pool, side, |g.pool|);
      var best := BestOn(b, side);
      && (!Usable(best, side) ==> i.None? && p == Sentinel(side))
      && (Usable(best, side) ==>
            && i.Some? && i.value < |g.pool| && p == best.value.price
            && best.value.quantity == Sum(b.orders, At(side, p)) <= POOL_SIZE * MAX_ORDER_QTY
            && 1 <= g.pool[i.value].quantity <= best.value.quantity)
  {
    var (p, i) := Scan(g.pool, side, |g.pool|);
    ScanIsBestResting(g.pool, b.orders, side);
    ScanFindsBest(g.pool, side, |g.pool|);
    var best := BestOn(b, side);
    BestIsResting(b, side, p);
    if i.Some? {
      var o := g.pool[i.value];
      assert OrderOk(o) && Mirrored(o, b.orders);
      WeightInSum(b.orders, At(side, p), o.id);
      PoolBoundsSum(g.pool, b.orders, At(side, p));
    } else if best.Some? {
      assert RestsAt(b.orders, side, best.value.price);
    }
  }

  /** Every Execute carries the best price of its side in the book it is about to reach, and fails
      only when that side is empty or its best price is the sentinel. */
  lemma ExecuteAtTop(g: Gen, b: Book, d: Draw)
    requires InLockstep(g.pool, b.orders) && PoolOk(g.pool) && Agrees(b) && Tight(b)
    ensures var best := BestOn(b, SideOf(d.buy));
      var m := BuildExecute(g, d).message;
      && (m.Some? <==> Usable(best, SideOf(d.buy)))
      && (m.Some? ==>
            && m.value.Execute?
            && m.value.execPrice == best.value.price && 1 <= m.value.execQty <= best.value.quantity
            && m.value.orderId in b.orders && b.orders[m.value.orderId].price == best.value.price)
  {
    var side := SideOf(d.buy);
    ScanIsBookTop(g, b, side);
    ScanFindsBest(g.pool, side, |g.pool|);
    var i := Scan(g.pool, side, |g.pool|).1;
    if i.Some? {
      assert Mirrored(g.pool[i.value], b.orders);
    }
  }

  /** Each side of every Quote: the book's best price with a quantity between 1 and the level's, or,
      with no usable best price, a tick off the mid with quantity 0. */
  lemma QuoteAtTop(g: Gen, b: Book, side: u8)
    requires InLockstep(g.pool, b.orders) && PoolOk(g.pool) && Agrees(b) && Tight(b)
    requires side == BUY || side == SELL
    ensures var best := BestOn(b, side);
      var (p, q) := QuoteSide(g, side);
      && (!Usable(best, side) ==> p == ToPrice(if side == BUY then g.mid - TICK else g.mid + TICK) && q == 0)
      && (Usable(best, side) ==> p == best.value.price && 1 <= q <= best.value.quantity)
  {
    ScanIsBookTop(g, b, side);
  }

  /** Which prices the generator can draw that its own scans cannot see: a bid exactly the whole mid
      away, and no ask. */
  lemma SentinelPrices(mid: i32, side: u8, raw: int)
    requires mid >= TICK && (side == BUY || side == SELL)
    ensures RandPrice(mid, side, raw) == Sentinel(side) <==> side == BUY && Distance(raw) == mid
  {
  }

  /** A bid is drawn 1 to 20 ticks under the mid and an ask 1 to 20 ticks over it, except that a bid
      further away than the mid itself wraps round to the top of the u32 range. */
  lemma DrawnPrices(mid: i32, raw: int)
    requires mid >= TICK
    ensures TICK <= RandPrice(mid, SELL, raw) - mid <= MAX_DEPTH * TICK
    ensures TICK <= mid - RandPrice(mid, BUY, raw) <= MAX_DEPTH * TICK <==> Distance(raw) <= mid
    ensures RandPrice(mid, BUY, raw) > 0xffff_f82f <==> Distance(raw) > mid
  {
  }

  /** One side of a quote, read against the book it is about to reach. */
  ghost predicate SideAtTop(b: Book, mid: i32, side: u8, p: u32, q: u32) {
    if Usable(BestOn(b, side), side)
    then p == BestOn(b, side).value.price && 1 <= q <= BestOn(b, side).value.quantity
    else p == ToPrice(if side == BUY then mid - TICK else mid + TICK) && q == 0
  }

  ghost predicate AtTop(b: Book, mid: i32, m: Message) {
    match m
    case Execute(_, id, qty, price) =>
      id in b.orders && b.orders[id].price == price &&
      var side := b.orders[id].side;
      Usable(BestOn(b, side), side) && price == BestOn(b, side).value.price && 1 <= qty <= BestOn(b, side).value.quantity
    case Quote(_, bidPrice, bidQty, askPrice, askQty) =>
      SideAtTop(b, mid, BUY, bidPrice, bidQty) && SideAtTop(b, mid, SELL, askPrice, askQty)
    case _ => true
  }

  lemma QuoteBuiltAtTop(g: Gen, b: Book, now: u64)
    requires InLockstep(g.pool, b.orders) && PoolOk(g.pool) && Agrees(b) && Tight(b)
    ensures AtTop(b, g.mid, BuildQuote(g, now).message.value)
  {
    QuoteAtTop(g, b, BUY);
    QuoteAtTop(g, b, SELL);
  }

  lemma BuildAtTop(g: Gen, b: Book, d: Draw)
    requires InLockstep(g.pool, b.orders) && PoolOk(g.pool) && Agrees(b) && Tight(b)
    ensures var r := Build(g, d); r.gen.mid == g.mid && (r.message.Some? ==> AtTop(b, g.mid, r.message.value))
  {
    if d.event.ExecuteEvent? {
      var side := SideOf(d.buy);
      ExecuteAtTop(g, b, d);
      ScanInRange(g.pool, side, |g.pool|);
      var i := Scan(g.pool, side, |g.pool|).1;
      if i.Some? {
        assert Mirrored(g.pool[i.value], b.orders);
      }
    } else if d.event.QuoteEvent? {
      QuoteBuiltAtTop(g, b, d.now);
    }
  }

  lemma {:induction false} AttemptsAtTop(g: Gen, b: Book, draws: seq<Draw>, capacity: nat)
    requires InLockstep(g.pool, b.orders) && PoolOk(g.pool) && Agrees(b) && Tight(b) && capacity >= 32
    ensures var r := Attempts(g, draws, capacity);
      r.gen.mid == g.mid && (r.message.Some? ==> AtTop(b, g.mid, r.message.value))
    decreases |draws|
  {
    if |draws| > 0 {
      BuildAtTop(g, b, draws[0]);
      BuildEmits(g, draws[0]);
      AttemptsAtTop(g, b, draws[1..], capacity);
    }
  }

  lemma NextPacketAtTop(g: Gen, b: Book, c: Call, capacity: nat)
    requires InLockstep(g.pool, b.orders) && PoolOk(g.pool) && Agrees(b) && Tight(b) && capacity >= 32
    ensures var r := NextPacket(g, c, capacity); r.message.Some? && AtTop(b, r.gen.mid, r.message.value)
  {
    var g' := if g.messages % 50 == 0 then EvolveMid(g, c.rawMid) else g;
    AttemptsAtTop(g', b, c.attempts, capacity);
    AttemptsEmit(g', c.attempts, capacity);
    QuoteBuiltAtTop(g', b, c.now);
  }

  /** The call emits a packet, its Execute or Quote is at the top of the book as it stands, the
      strategy accepts the frame, and book and pool agree after it. */
  ghost predicate GoodRound(link: Link, w: World, r: Round, capacity: nat, w': World) {
    var b := NextPacket(w.gen, r.call, capacity);
    && b.message.Some?
    && AtTop(w.book, b.gen.mid, b.message.value)
    && Received(link, w.book, b.message.value, r.ipId) == (w'.book, true)
    && InLockstep(w'.gen.pool, w'.book.orders)
  }

  lemma SoundRoundIsGood(link: Link, w: World, r: Round, capacity: nat)
    requires capacity >= 32 && r.delivered
    requires Sound(w) && InLockstep(w.gen.pool, w.book.orders)
    requires Adds(Step(link, w, r, capacity).log) <= 0xffff_ffff
    ensures GoodRound(link, w, r, capacity, Step(link, w, r, capacity))
  {
    var b := NextPacket(w.gen, r.call, capacity);
    NextPacketAtTop(w.gen, w.book, r.call, capacity);
    StepIsApply(link, w, r, capacity);
    MessageArrives(link.writer, link.reader, w.book, link.addresses, b.message.value, r.ipId);
    MessageKeepsLockstepIff(w.gen, b.gen, w.book, b.message.value);
    RoundKeepsPool(w.gen, b.gen, w.log, Sent(b.message.value, true));
  }

  /** The whole loss-free run, round by round. */
  lemma LosslessRounds(link: Link, symbol: Symbol, rounds: seq<Round>, capacity: nat, n: nat)
    requires capacity >= 32 && n < |rounds|
    requires forall i :: 0 <= i < |rounds| ==> rounds[i].delivered
    requires Adds(Run(link, symbol, rounds[..n + 1], capacity).log) < 0x1_0000_0000
    ensures GoodRound(link, Run(link, symbol, rounds[..n], capacity), rounds[n], capacity,
                      Run(link, symbol, rounds[..n + 1], capacity))
  {
    assert rounds[..n + 1][..n] == rounds[..n];
    var w := Run(link, symbol, rounds[..n], capacity);
    LogGrows(link, w, rounds[n], capacity);
    RunIsSound(link, symbol, rounds[..n], capacity);
    LosslessLockstep(link, symbol, rounds[..n], capacity);
    SoundRoundIsGood(link, w, rounds[n], capacity);
  }
}
