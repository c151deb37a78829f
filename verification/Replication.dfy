/** The exchange's pool and the strategy's book as two parties of a one-way protocol over a channel
    that may lose any frame and keeps the order of the rest. */
module Replication {
  import opened Words
  import opened MarketData
  import opened BookModel
  import opened BookTheorems
  import opened GeneratorModel
  import opened UdpFrame
  import opened WirePath

  /** A message the exchange emitted, and whether its frame reached the strategy. */
  datatype Sent = Sent(message: Message, delivered: bool)

  datatype Link = Link(writer: Endian, reader: Endian, addresses: Addresses)

  /** One round of the exchange loop: the generator's draws, the channel's choice, the frame's id. */
  datatype Round = Round(call: Call, delivered: bool, ipId: u16)

  datatype World = World(gen: Gen, book: Book, log: seq<Sent>)

  /** A message through the whole wire path: packet, frame, header strip, parse, apply. */
  function Received(link: Link, b: Book, m: Message, ipId: u16): (Book, bool) {
    Receive(link.reader, b, Frame(link.addresses, Packet(link.writer, m), ipId))
  }

  /** One round: a packet that is not built is skipped, a packet whose send fails or whose frame is
      lost is not retried, a frame that arrives goes through the whole receive path. */
  function Step(link: Link, w: World, r: Round, capacity: nat): World {
    var b := NextPacket(w.gen, r.call, capacity);
    if b.message.None? then w.(gen := b.gen)
    else
      World(b.gen, if r.delivered then Received(link, w.book, b.message.value, r.ipId).0 else w.book,
            w.log + [Sent(b.message.value, r.delivered)])
  }

  function Run(link: Link, symbol: Symbol, rounds: seq<Round>, capacity: nat): World {
    if |rounds| == 0 then World(InitialGen(symbol), EMPTY_BOOK, [])
    else Step(link, Run(link, symbol, rounds[..|rounds| - 1], capacity), rounds[|rounds| - 1], capacity)
  }

  lemma RunPush(link: Link, symbol: Symbol, rounds: seq<Round>, r: Round, capacity: nat)
    ensures Run(link, symbol, rounds + [r], capacity) == Step(link, Run(link, symbol, rounds, capacity), r, capacity)
  {
    assert (rounds + [r])[..|rounds|] == rounds;
  }

  // ---------------------------------------------------------------------------------------------
  // What one nextPacket call emits.

  ghost predicate PoolHas(pool: seq<PoolOrder>, id: u32) {
    exists i :: 0 <= i < |pool| && pool[i].id == id
  }

  ghost predicate DistinctIds(pool: seq<PoolOrder>) {
    forall i, j :: 0 <= i < j < |pool| ==> pool[i].id != pool[j].id
  }

  predicate OrderOk(o: PoolOrder) {
    1 <= o.quantity <= MAX_ORDER_QTY && (o.side == BUY || o.side == SELL)
  }

  ghost predicate PoolOk(pool: seq<PoolOrder>) {
    |pool| <= POOL_SIZE && forall i :: 0 <= i < |pool| ==> OrderOk(pool[i])
  }

  ghost predicate RemovedOrReduced(pool: seq<PoolOrder>, pool': seq<PoolOrder>, i: nat, qty: u32)
    requires i < |pool|
  {
    && 1 <= qty <= pool[i].quantity
    && pool' == if qty == pool[i].quantity then SwapRemove(pool, i)
                else pool[i := pool[i].(quantity := pool[i].quantity - qty)]
  }

  /** What a message says about the pool before and after it. */
  ghost predicate Emits(g: Gen, m: Message, g': Gen) {
    match m
    case AddOrder(_, id, side, price, qty, _) =>
      && |g.pool| < POOL_SIZE
      && id == g.nextId && g'.nextId == NextId(g.nextId)
      && OrderOk(PoolOrder(id, price, qty, side))
      && g'.pool == g.pool + [PoolOrder(id, price, qty, side)]
    case CancelOrder(_, id, qty) =>
      && g'.nextId == g.nextId && qty == 0
      && exists i: nat :: i < |g.pool| && g.pool[i].id == id && g'.pool == SwapRemove(g.pool, i)
    case Execute(_, id, qty, _) =>
      && g'.nextId == g.nextId
      && exists i: nat :: i < |g.pool| && g.pool[i].id == id && RemovedOrReduced(g.pool, g'.pool, i, qty)
    case Quote(_, _, _, _, _) =>
      g'.nextId == g.nextId && g'.pool == g.pool
  }

  lemma BuildEmits(g: Gen, d: Draw)
    requires PoolOk(g.pool)
    ensures var b := Build(g, d);
      if b.message.Some? then Emits(g, b.message.value, b.gen) else b.gen == g
  {
    match d.event
    case AddEvent =>
    case CancelEvent =>
      if |g.pool| > 0 {
        var i := d.pick % |g.pool|;
        assert 0 <= i < |g.pool|;
      }
    case ExecuteEvent =>
      var side := SideOf(d.buy);
      ScanInRange(g.pool, side, |g.pool|);
      var best := Scan(g.pool, side, |g.pool|).1;
      if best.Some? {
        var i := best.value;
        assert OrderOk(g.pool[i]);
        var b := BuildExecute(g, d);
        assert RemovedOrReduced(g.pool, b.gen.pool, i, b.message.value.execQty);
      }
    case QuoteEvent =>
  }

  lemma ReductionKeepsOk(pool: seq<PoolOrder>, pool': seq<PoolOrder>, i: nat, qty: u32)
    requires PoolOk(pool) && i < |pool| && RemovedOrReduced(pool, pool', i, qty)
    ensures PoolOk(pool')
  {
  }

  lemma EmitKeepsOk(g: Gen, m: Message, g': Gen)
    requires PoolOk(g.pool) && Emits(g, m, g')
    ensures PoolOk(g'.pool)
  {
    if m.CancelOrder? {
      var i: nat :| i < |g.pool| && g.pool[i].id == m.orderId && g'.pool == SwapRemove(g.pool, i);
      assert OrderOk(g.pool[i]);
      ReductionKeepsOk(g.pool, g'.pool, i, g.pool[i].quantity);
    } else if m.Execute? {
      var i: nat :| i < |g.pool| && g.pool[i].id == m.orderId && RemovedOrReduced(g.pool, g'.pool, i, m.execQty);
      ReductionKeepsOk(g.pool, g'.pool, i, m.execQty);
    }
  }

  /** With room for the largest packet, failed attempts leave the pool alone and the call emits. */
  lemma {:induction false} AttemptsEmit(g: Gen, draws: seq<Draw>, capacity: nat)
    requires PoolOk(g.pool) && capacity >= 32
    ensures var b := Attempts(g, draws, capacity);
      if b.message.Some? then Emits(g, b.message.value, b.gen) else b.gen == g
    decreases |draws|
  {
    if |draws| > 0 {
      BuildEmits(g, draws[0]);
      AttemptsEmit(g, draws[1..], capacity);
    }
  }

  lemma NextPacketEmits(g: Gen, c: Call, capacity: nat)
    requires PoolOk(g.pool) && capacity >= 32
    ensures var b := NextPacket(g, c, capacity);
      b.message.Some? && Emits(g, b.message.value, b.gen)
  {
    var g' := if g.messages % 50 == 0 then EvolveMid(g, c.rawMid) else g;
    AttemptsEmit(g', c.attempts, capacity);
  }

  // ---------------------------------------------------------------------------------------------
  // The ledger of the channel.

  function Adds(log: seq<Sent>): nat {
    if |log| == 0 then 0
    else Adds(log[..|log| - 1]) + (if log[|log| - 1].message.AddOrder? then 1 else 0)
  }

  /** Did the Add of this id go out, and if so did it arrive? */
  predicate AddSent(log: seq<Sent>, id: u32, delivered: bool) {
    |log| > 0 && (var s := log[|log| - 1];
      (s.message.AddOrder? && s.message.orderId == id && s.delivered == delivered)
      || AddSent(log[..|log| - 1], id, delivered))
  }

  predicate CancelLost(log: seq<Sent>, id: u32) {
    |log| > 0 && (var s := log[|log| - 1];
      (s.message.CancelOrder? && s.message.orderId == id && !s.delivered)
      || CancelLost(log[..|log| - 1], id))
  }

  /** The quantity of the executes of this id that were lost. */
  function LostExecs(log: seq<Sent>, id: u32): nat {
    if |log| == 0 then 0
    else
      var s := log[|log| - 1];
      LostExecs(log[..|log| - 1], id)
      + (if s.message.Execute? && s.message.orderId == id && !s.delivered then s.message.execQty else 0)
  }

  datatype Entry = Entry(side: u8, price: u32, quantity: u32)

  /** What the Add of this id said, if it arrived. */
  function ArrivedAdd(log: seq<Sent>, id: u32): Option<Entry> {
    if |log| == 0 then None
    else
      var s := log[|log| - 1];
      if s.message.AddOrder? && s.message.orderId == id && s.delivered
      then Some(Entry(s.message.side, s.message.price, s.message.quantity))
      else ArrivedAdd(log[..|log| - 1], id)
  }

  predicate CancelArrived(log: seq<Sent>, id: u32) {
    |log| > 0 && (var s := log[|log| - 1];
      (s.message.CancelOrder? && s.message.orderId == id && s.delivered)
      || CancelArrived(log[..|log| - 1], id))
  }

  /** The quantity of the executes of this id that arrived. */
  function ArrivedExecs(log: seq<Sent>, id: u32): nat {
    if |log| == 0 then 0
    else
      var s := log[|log| - 1];
      ArrivedExecs(log[..|log| - 1], id)
      + (if s.message.Execute? && s.message.orderId == id && s.delivered then s.message.execQty else 0)
  }

  /** The book's entry for an id, from what arrived alone: the added order less the executes, unless a
      cancel arrived or nothing is left. */
  function EntryFromLog(log: seq<Sent>, id: u32): Option<Entry> {
    var added := ArrivedAdd(log, id);
    if added.None? || CancelArrived(log, id) || added.value.quantity <= ArrivedExecs(log, id) then None
    else Some(added.value.(quantity := added.value.quantity - ArrivedExecs(log, id)))
  }

  function EntryInBook(orders: Orders, id: u32): Option<Entry> {
    if id in orders then Some(Entry(orders[id].side, orders[id].price, orders[id].quantity)) else None
  }

  lemma ArrivalsPush(log: seq<Sent>, s: Sent, id: u32)
    ensures ArrivedAdd(log + [s], id) ==
      if s.message.AddOrder? && s.message.orderId == id && s.delivered
      then Some(Entry(s.message.side, s.message.price, s.message.quantity))
      else ArrivedAdd(log, id)
    ensures CancelArrived(log + [s], id) ==
      (CancelArrived(log, id) || (s.message.CancelOrder? && s.message.orderId == id && s.delivered))
    ensures ArrivedExecs(log + [s], id) == ArrivedExecs(log, id)
      + (if s.message.Execute? && s.message.orderId == id && s.delivered then s.message.execQty else 0)
  {
    assert (log + [s])[..|log|] == log;
  }

  lemma LedgerPush(log: seq<Sent>, s: Sent, id: u32)
    ensures Adds(log + [s]) == Adds(log) + (if s.message.AddOrder? then 1 else 0)
    ensures AddSent(log + [s], id, true) ==
      (AddSent(log, id, true) || (s.message.AddOrder? && s.message.orderId == id && s.delivered))
    ensures AddSent(log + [s], id, false) ==
      (AddSent(log, id, false) || (s.message.AddOrder? && s.message.orderId == id && !s.delivered))
    ensures CancelLost(log + [s], id) ==
      (CancelLost(log, id) || (s.message.CancelOrder? && s.message.orderId == id && !s.delivered))
    ensures LostExecs(log + [s], id) == LostExecs(log, id)
      + (if s.message.Execute? && s.message.orderId == id && !s.delivered then s.message.execQty else 0)
  {
    assert (log + [s])[..|log|] == log;
  }

  /** A pool order and the book: there, with the lost executes still on it, when its Add arrived;
      not there when its Add was lost. */
  ghost predicate Tracked(o: PoolOrder, orders: Orders, log: seq<Sent>) {
    if AddSent(log, o.id, true) then
      && o.id in orders
      && orders[o.id].side == o.side && orders[o.id].price == o.price
      && orders[o.id].quantity == o.quantity + LostExecs(log, o.id)
    else
      o.id !in orders && AddSent(log, o.id, false)
  }

  /** A book order the pool no longer has: a cancel or an execute of it was lost, and if no cancel was,
      what rests is exactly what the lost executes took. */
  ghost predicate Orphaned(id: u32, orders: Orders, log: seq<Sent>)
    requires id in orders
  {
    CancelLost(log, id) || orders[id].quantity == LostExecs(log, id) > 0
  }

  ghost predicate Replicates(pool: seq<PoolOrder>, orders: Orders, log: seq<Sent>) {
    && (forall i :: 0 <= i < |pool| ==> Tracked(pool[i], orders, log))
    && (forall id: u32 :: id in orders ==> AddSent(log, id, true) && (PoolHas(pool, id) || Orphaned(id, orders, log)))
  }

  /** The book is a function of what arrived. */
  ghost predicate BookFollowsLog(orders: Orders, log: seq<Sent>) {
    forall id: u32 :: EntryInBook(orders, id) == EntryFromLog(log, id)
  }

  /** Ids beyond the number of adds have never been used. */
  ghost predicate UnusedAbove(log: seq<Sent>) {
    forall id: u32 :: id == 0 || id > Adds(log) ==>
      && !AddSent(log, id, true) && !AddSent(log, id, false) && !CancelLost(log, id) && LostExecs(log, id) == 0
      && !CancelArrived(log, id) && ArrivedExecs(log, id) == 0
  }

  // ---------------------------------------------------------------------------------------------
  // One round keeps it, message kind by message kind.

  lemma SwapRemoveHas(pool: seq<PoolOrder>, i: nat, id: u32)
    requires i < |pool| && DistinctIds(pool)
    ensures PoolHas(SwapRemove(pool, i), id) <==> PoolHas(pool, id) && id != pool[i].id
    ensures DistinctIds(SwapRemove(pool, i))
    ensures forall k :: 0 <= k < |pool| - 1 ==> SwapRemove(pool, i)[k] == if k == i then pool[|pool| - 1] else pool[k]
  {
    var r := SwapRemove(pool, i);
    if PoolHas(pool, id) && id != pool[i].id {
      var k :| 0 <= k < |pool| && pool[k].id == id;
      assert r[if k == |pool| - 1 then i else k].id == id;
    }
  }

  lemma AddKeeps(pool: seq<PoolOrder>, orders: Orders, log: seq<Sent>, o: PoolOrder, s: Sent, orders': Orders)
    requires Replicates(pool, orders, log)
    requires !PoolHas(pool, o.id) && !AddSent(log, o.id, true) && LostExecs(log, o.id) == 0
    requires s.message.AddOrder? && s.message.orderId == o.id
    requires orders' == if s.delivered
      then orders[o.id := RestingOrder(o.side, o.price, o.quantity, s.message.timestamp)] else orders
    ensures Replicates(pool + [o], orders', log + [s])
  {
    var pool', log' := pool + [o], log + [s];
    forall i | 0 <= i < |pool'|
      ensures Tracked(pool'[i], orders', log')
    {
      LedgerPush(log, s, pool'[i].id);
      if i < |pool| {
        assert Tracked(pool[i], orders, log) && PoolHas(pool, pool[i].id);
      }
    }
    forall id: u32 | id in orders'
      ensures AddSent(log', id, true) && (PoolHas(pool', id) || Orphaned(id, orders', log'))
    {
      LedgerPush(log, s, id);
      if id == o.id {
        assert pool'[|pool|].id == id;
      } else if PoolHas(pool, id) {
        var k :| 0 <= k < |pool| && pool[k].id == id;
        assert pool'[k].id == id;
      }
    }
  }

  lemma CancelKeeps(pool: seq<PoolOrder>, orders: Orders, log: seq<Sent>, i: nat, s: Sent, orders': Orders)
    requires Replicates(pool, orders, log) && DistinctIds(pool) && i < |pool|
    requires s.message.CancelOrder? && s.message.orderId == pool[i].id
    requires orders' == if s.delivered then orders - {pool[i].id} else orders
    ensures Replicates(SwapRemove(pool, i), orders', log + [s])
  {
    var pool', log' := SwapRemove(pool, i), log + [s];
    SwapRemoveHas(pool, i, pool[i].id);
    forall k | 0 <= k < |pool'|
      ensures Tracked(pool'[k], orders', log')
    {
      LedgerPush(log, s, pool'[k].id);
      assert Tracked(if k == i then pool[|pool| - 1] else pool[k], orders, log);
      assert PoolHas(pool', pool'[k].id);
    }
    forall id: u32 | id in orders'
      ensures AddSent(log', id, true) && (PoolHas(pool', id) || Orphaned(id, orders', log'))
    {
      LedgerPush(log, s, id);
      SwapRemoveHas(pool, i, id);
    }
  }

  /** The orders after an execute, as far as the one order is concerned. */
  function Executed(orders: Orders, id: u32, qty: u32): Orders {
    if id !in orders then orders
    else if qty >= orders[id].quantity then orders - {id}
    else orders[id := orders[id].(quantity := orders[id].quantity - qty)]
  }

  lemma ExecuteKeeps(pool: seq<PoolOrder>, pool': seq<PoolOrder>, orders: Orders, log: seq<Sent>, i: nat, s: Sent,
                     orders': Orders)
    requires Replicates(pool, orders, log) && DistinctIds(pool) && i < |pool|
    requires s.message.Execute? && s.message.orderId == pool[i].id
    requires RemovedOrReduced(pool, pool', i, s.message.execQty)
    requires orders' == if s.delivered then Executed(orders, pool[i].id, s.message.execQty) else orders
    ensures Replicates(pool', orders', log + [s])
  {
    var log', o := log + [s], pool[i];
    SwapRemoveHas(pool, i, o.id);
    assert Tracked(o, orders, log);
    LedgerPush(log, s, o.id);
    forall k | 0 <= k < |pool'|
      ensures Tracked(pool'[k], orders', log')
    {
      LedgerPush(log, s, pool'[k].id);
      if |pool'| == |pool| {
        assert Tracked(pool[k], orders, log);
      } else {
        assert Tracked(if k == i then pool[|pool| - 1] else pool[k], orders, log);
        assert PoolHas(pool', pool'[k].id);
      }
    }
    forall id: u32 | id in orders'
      ensures AddSent(log', id, true) && (PoolHas(pool', id) || Orphaned(id, orders', log'))
    {
      LedgerPush(log, s, id);
      SwapRemoveHas(pool, i, id);
      if |pool'| == |pool| && PoolHas(pool, id) {
        var k :| 0 <= k < |pool| && pool[k].id == id;
        assert pool'[k].id == id;
      }
    }
  }

  lemma QuoteKeeps(pool: seq<PoolOrder>, orders: Orders, log: seq<Sent>, s: Sent)
    requires Replicates(pool, orders, log) && s.message.Quote?
    ensures Replicates(pool, orders, log + [s])
  {
    forall id: u32
      ensures AddSent(log + [s], id, true) == AddSent(log, id, true)
      ensures AddSent(log + [s], id, false) == AddSent(log, id, false)
      ensures CancelLost(log + [s], id) == CancelLost(log, id)
      ensures LostExecs(log + [s], id) == LostExecs(log, id)
    {
      LedgerPush(log, s, id);
    }
  }

  /** The book's half of a round. */
  lemma DeliveredOrders(b: Book, m: Message)
    ensures var b' := Apply(b, m).0;
      match m
      case AddOrder(ts, id, side, price, qty, _) => b'.orders == b.orders[id := RestingOrder(side, price, qty, ts)]
      case CancelOrder(_, id, qty) => qty == 0 ==> b'.orders == b.orders - {id}
      case Execute(_, id, qty, _) => b'.orders == Executed(b.orders, id, qty)
      case Quote(_, _, _, _, _) => b'.orders == b.orders
  {
  }

  lemma RoundReplicates(g: Gen, g': Gen, b: Book, log: seq<Sent>, s: Sent)
    requires Emits(g, s.message, g') && DistinctIds(g.pool)
    requires Replicates(g.pool, b.orders, log)
    requires s.message.AddOrder? ==>
      !PoolHas(g.pool, g.nextId) && !AddSent(log, g.nextId, true) && LostExecs(log, g.nextId) == 0
    ensures Replicates(g'.pool, (if s.delivered then Apply(b, s.message).0 else b).orders, log + [s])
  {
    var m := s.message;
    var orders' := (if s.delivered then Apply(b, m).0 else b).orders;
    DeliveredOrders(b, m);
    match m
    case AddOrder(_, id, side, price, qty, _) =>
      AddKeeps(g.pool, b.orders, log, PoolOrder(id, price, qty, side), s, orders');
    case CancelOrder(_, id, _) =>
      var i: nat :| i < |g.pool| && g.pool[i].id == id && g'.pool == SwapRemove(g.pool, i);
      CancelKeeps(g.pool, b.orders, log, i, s, orders');
    case Execute(_, id, qty, _) =>
      var i: nat :| i < |g.pool| && g.pool[i].id == id && RemovedOrReduced(g.pool, g'.pool, i, qty);
      ExecuteKeeps(g.pool, g'.pool, b.orders, log, i, s, orders');
    case Quote(_, _, _, _, _) =>
      QuoteKeeps(g.pool, b.orders, log, s);
  }

  /** One message keeps the book a function of what arrived: an Add under an id not used before with a
      positive quantity, a full cancel, an execute of any quantity, or a quote. */
  lemma RoundFollowsLog(b: Book, log: seq<Sent>, s: Sent)
    requires BookFollowsLog(b.orders, log)
    requires s.message.AddOrder? ==>
      s.message.quantity > 0 && !CancelArrived(log, s.message.orderId) && ArrivedExecs(log, s.message.orderId) == 0
    requires s.message.CancelOrder? ==> s.message.quantity == 0
    ensures BookFollowsLog((if s.delivered then Apply(b, s.message).0 else b).orders, log + [s])
  {
    var orders' := (if s.delivered then Apply(b, s.message).0 else b).orders;
    DeliveredOrders(b, s.message);
    forall id: u32
      ensures EntryInBook(orders', id) == EntryFromLog(log + [s], id)
    {
      ArrivalsPush(log, s, id);
      assert EntryInBook(b.orders, id) == EntryFromLog(log, id);
    }
  }

  /** Distinct ids in 1..top, clamped quantities, known sides. */
  ghost predicate PoolWithin(pool: seq<PoolOrder>, top: nat) {
    && PoolOk(pool) && DistinctIds(pool)
    && forall i :: 0 <= i < |pool| ==> 1 <= pool[i].id <= top
  }

  lemma ReductionKeepsWithin(pool: seq<PoolOrder>, pool': seq<PoolOrder>, i: nat, qty: u32, top: nat)
    requires PoolWithin(pool, top) && i < |pool| && RemovedOrReduced(pool, pool', i, qty)
    ensures PoolWithin(pool', top)
  {
    SwapRemoveHas(pool, i, pool[i].id);
  }

  /** The pool's own half: the next id is one more than the number of adds, until it wraps. */
  ghost predicate PoolSound(g: Gen, log: seq<Sent>) {
    && Adds(log) <= 0xffff_ffff
    && g.nextId == (if Adds(log) == 0xffff_ffff then 1 else Adds(log) + 1)
    && PoolWithin(g.pool, Adds(log))
  }

  lemma RoundKeepsPool(g: Gen, g': Gen, log: seq<Sent>, s: Sent)
    requires PoolSound(g, log) && Emits(g, s.message, g')
    requires Adds(log + [s]) <= 0xffff_ffff
    ensures PoolSound(g', log + [s])
    ensures s.message.AddOrder? ==> s.message.orderId == Adds(log) + 1 && !PoolHas(g.pool, g.nextId)
  {
    LedgerPush(log, s, 0);
    if s.message.CancelOrder? {
      var i: nat :| i < |g.pool| && g.pool[i].id == s.message.orderId && g'.pool == SwapRemove(g.pool, i);
      ReductionKeepsWithin(g.pool, g'.pool, i, g.pool[i].quantity, Adds(log));
    } else if s.message.Execute? {
      var i: nat :| i < |g.pool| && g.pool[i].id == s.message.orderId
        && RemovedOrReduced(g.pool, g'.pool, i, s.message.execQty);
      ReductionKeepsWithin(g.pool, g'.pool, i, s.message.execQty, Adds(log));
    }
  }

  ghost predicate Sound(w: World) {
    && PoolSound(w.gen, w.log) && UnusedAbove(w.log)
    && Agrees(w.book) && Tight(w.book)
    && Replicates(w.gen.pool, w.book.orders, w.log)
    && BookFollowsLog(w.book.orders, w.log)
  }

  lemma RoundKeepsUnused(g: Gen, g': Gen, log: seq<Sent>, s: Sent)
    requires PoolSound(g, log) && UnusedAbove(log) && Emits(g, s.message, g')
    requires Adds(log + [s]) <= 0xffff_ffff
    ensures UnusedAbove(log + [s])
  {
    LedgerPush(log, s, 0);
    forall id: u32 | id == 0 || id > Adds(log + [s])
      ensures !AddSent(log + [s], id, true) && !AddSent(log + [s], id, false)
      ensures !CancelLost(log + [s], id) && LostExecs(log + [s], id) == 0
      ensures !CancelArrived(log + [s], id) && ArrivedExecs(log + [s], id) == 0
    {
      LedgerPush(log, s, id);
      ArrivalsPush(log, s, id);
      RoundKeepsPool(g, g', log, s);
    }
  }

  /** What a round does, the wire taken out of it. */
  lemma StepIsApply(link: Link, w: World, r: Round, capacity: nat)
    requires PoolOk(w.gen.pool) && capacity >= 32
    ensures var b := NextPacket(w.gen, r.call, capacity);
      && b.message.Some?
      && Emits(w.gen, b.message.value, b.gen)
      && Step(link, w, r, capacity) ==
           World(b.gen, if r.delivered then Apply(w.book, b.message.value).0 else w.book,
                 w.log + [Sent(b.message.value, r.delivered)])
  {
    NextPacketEmits(w.gen, r.call, capacity);
    var m := NextPacket(w.gen, r.call, capacity).message.value;
    MessageArrives(link.writer, link.reader, w.book, link.addresses, m, r.ipId);
  }

  /** What holds of every world a run reaches, however many adds there were. */
  ghost predicate Plain(w: World) {
    PoolOk(w.gen.pool) && Agrees(w.book) && Tight(w.book)
  }

  lemma StepKeepsPlain(link: Link, w: World, r: Round, capacity: nat)
    requires Plain(w) && capacity >= 32
    ensures Plain(Step(link, w, r, capacity))
  {
    StepIsApply(link, w, r, capacity);
    var b := NextPacket(w.gen, r.call, capacity);
    EmitKeepsOk(w.gen, b.message.value, b.gen);
    ApplyKeepsAgreement(w.book, b.message.value);
    ApplyKeepsTight(w.book, b.message.value);
  }

  lemma {:induction false} RunIsPlain(link: Link, symbol: Symbol, rounds: seq<Round>, capacity: nat)
    requires capacity >= 32
    ensures Plain(Run(link, symbol, rounds, capacity))
  {
    if |rounds| == 0 {
      EmptyAgrees();
    } else {
      RunIsPlain(link, symbol, rounds[..|rounds| - 1], capacity);
      StepKeepsPlain(link, Run(link, symbol, rounds[..|rounds| - 1], capacity), rounds[|rounds| - 1], capacity);
    }
  }

  lemma RoundKeepsSound(link: Link, w: World, r: Round, capacity: nat)
    requires Sound(w) && capacity >= 32
    requires Adds(Step(link, w, r, capacity).log) <= 0xffff_ffff
    ensures Sound(Step(link, w, r, capacity))
  {
    StepIsApply(link, w, r, capacity);
    var b := NextPacket(w.gen, r.call, capacity);
    var s := Sent(b.message.value, r.delivered);
    RoundKeepsPool(w.gen, b.gen, w.log, s);
    RoundKeepsUnused(w.gen, b.gen, w.log, s);
    LedgerPush(w.log, s, 0);
    RoundReplicates(w.gen, b.gen, w.book, w.log, s);
    RoundFollowsLog(w.book, w.log, s);
    ApplyKeepsAgreement(w.book, s.message);
    ApplyKeepsTight(w.book, s.message);
  }

  lemma LogGrows(link: Link, w: World, r: Round, capacity: nat)
    ensures Adds(w.log) <= Adds(Step(link, w, r, capacity).log)
  {
    var b := NextPacket(w.gen, r.call, capacity);
    if b.message.Some? {
      LedgerPush(w.log, Sent(b.message.value, r.delivered), 0);
    }
  }

  lemma {:induction false} RunIsSound(link: Link, symbol: Symbol, rounds: seq<Round>, capacity: nat)
    requires capacity >= 32
    requires Adds(Run(link, symbol, rounds, capacity).log) <= 0xffff_ffff
    ensures Sound(Run(link, symbol, rounds, capacity))
  {
    if |rounds| == 0 {
      EmptyAgrees();
    } else {
      var front := rounds[..|rounds| - 1];
      LogGrows(link, Run(link, symbol, front, capacity), rounds[|rounds| - 1], capacity);
      RunIsSound(link, symbol, front, capacity);
      RoundKeepsSound(link, Run(link, symbol, front, capacity), rounds[|rounds| - 1], capacity);
    }
  }

  /** Lossy replication. Lose any frames and deliver the rest in order, through framing, padding and
      parsing: as long as fewer than 2^32 orders were added,
      - a pool order whose Add arrived is in the book, same side and price, with the quantity the pool
        has plus what its lost executes carried, and one whose Add was lost is not in the book;
      - a book order the pool no longer has lost a cancel or an execute; if it lost no cancel, what is
        left of it is exactly its lost executes;
      - the book holds exactly what arrived: each added order less its executes, until cancelled or spent;
      - and the book's own indexes agree with its orders throughout. */
  lemma LossyReplication(link: Link, symbol: Symbol, rounds: seq<Round>, capacity: nat)
    requires capacity >= 32
    requires Adds(Run(link, symbol, rounds, capacity).log) < 0x1_0000_0000
    ensures var w := Run(link, symbol, rounds, capacity);
      && (forall i :: 0 <= i < |w.gen.pool| ==>
            var o := w.gen.pool[i];
            if AddSent(w.log, o.id, true) then
              && o.id in w.book.orders
              && w.book.orders[o.id].side == o.side
              && w.book.orders[o.id].price == o.price
              && w.book.orders[o.id].quantity == o.quantity + LostExecs(w.log, o.id)
            else o.id !in w.book.orders && AddSent(w.log, o.id, false))
      && (forall id: u32 :: id in w.book.orders && !PoolHas(w.gen.pool, id) ==>
            CancelLost(w.log, id) || w.book.orders[id].quantity == LostExecs(w.log, id) > 0)
      && (forall id: u32 :: EntryInBook(w.book.orders, id) == EntryFromLog(w.log, id))
      && Agrees(w.book) && Tight(w.book)
  {
    RunIsSound(link, symbol, rounds, capacity);
    var w := Run(link, symbol, rounds, capacity);
    forall i | 0 <= i < |w.gen.pool|
      ensures Tracked(w.gen.pool[i], w.book.orders, w.log)
    {
    }
  }
}
