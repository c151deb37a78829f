/** What PacketGenerator computes: the pool of resting orders, and the messages it emits. Random
    draws and clock readings come in as values; the clamps of the source are applied here. */
module GeneratorModel {
  import opened Words
  import opened MarketData

  type i32 = x: int | -0x8000_0000 <= x < 0x8000_0000

  const POOL_SIZE := 512
  const TICK := 100
  const MAX_DEPTH := 20
  const INITIAL_MID: i32 := 15000
  const MAX_ORDER_QTY := 9900

  datatype PoolOrder = PoolOrder(id: u32, price: u32, quantity: u32, side: u8)

  datatype Gen = Gen(pool: seq<PoolOrder>, mid: i32, nextId: u32, symbol: Symbol, messages: u64)

  datatype Event = AddEvent | CancelEvent | ExecuteEvent | QuoteEvent

  /** The draws of one attempt: the event, a side, the unclamped distance and quantity, the index
      draw (reduced to the live range when used), and the clock. */
  datatype Draw = Draw(event: Event, buy: bool, rawDistance: int, rawQty: int, pick: nat, now: u64)

  /** The draws of one nextPacket call: the evolved mid before its clamp, four attempts, and the
      clock reading of the closing quote. */
  datatype Call = Call(rawMid: i32, attempts: FourDraws, now: u64)

  type FourDraws = s: seq<Draw> | |s| == 4 witness seq(4, _ => Draw(QuoteEvent, true, 0, 0, 0, 0))

  function RandQty(raw: int): u32 {
    var q := if raw < 1 then 1 else raw;
    if q > MAX_ORDER_QTY then MAX_ORDER_QTY else q
  }

  function Distance(raw: int): nat {
    var d := if raw < TICK then TICK else raw;
    if d > MAX_DEPTH * TICK then MAX_DEPTH * TICK else d
  }

  /** static_cast<PriceCents> of an int. */
  function ToPrice(x: int): u32 {
    x % 0x1_0000_0000
  }

  function RandPrice(mid: i32, side: u8, raw: int): u32 {
    if side == BUY then ToPrice(mid - Distance(raw)) else ToPrice(mid + Distance(raw))
  }

  function EvolveMid(g: Gen, rawMid: i32): Gen {
    g.(mid := if rawMid < TICK then TICK else rawMid)
  }

  function SideOf(buy: bool): u8 {
    if buy then BUY else SELL
  }

  /** next_order_id_++, with 0 skipped. */
  function NextId(id: u32): u32 {
    var next := (id + 1) % 0x1_0000_0000;
    if next == 0 then 1 else next
  }

  /** pool[i] = pool[count - 1]; --count. */
  function SwapRemove(pool: seq<PoolOrder>, i: nat): (r: seq<PoolOrder>)
    requires i < |pool|
    ensures |r| == |pool| - 1
  {
    pool[i := pool[|pool| - 1]][..|pool| - 1]
  }

  /** One build call: the generator afterwards, and the message it hands to writeMessage, if any. */
  datatype Built = Built(gen: Gen, message: Option<Message>)

  function BuildAdd(g: Gen, d: Draw): Built {
    if |g.pool| >= POOL_SIZE then Built(g, None)
    else
      var side := SideOf(d.buy);
      var price := RandPrice(g.mid, side, d.rawDistance);
      var qty := RandQty(d.rawQty);
      Built(g.(pool := g.pool + [PoolOrder(g.nextId, price, qty, side)], nextId := NextId(g.nextId)),
            Some(AddOrder(d.now, g.nextId, side, price, qty, g.symbol)))
  }

  function BuildCancel(g: Gen, d: Draw): Built {
    if |g.pool| == 0 then Built(g, None)
    else
      var i := d.pick % |g.pool|;
      Built(g.(pool := SwapRemove(g.pool, i)), Some(CancelOrder(d.now, g.pool[i].id, 0)))
  }

  /** The price a scan starts from: no order at it is ever picked. */
  function Sentinel(side: u8): u32 {
    if side == BUY then 0 else U32_MAX
  }

  predicate Better(side: u8, p: u32, q: u32) {
    if side == BUY then p > q else p < q
  }

  /** The scan of buildExecute and buildQuote over the first n orders: best price so far, and the
      index of the first order at it. */
  function Scan(pool: seq<PoolOrder>, side: u8, n: nat): (u32, Option<nat>)
    requires n <= |pool|
  {
    if n == 0 then (Sentinel(side), None)
    else
      var r := Scan(pool, side, n - 1);
      if pool[n - 1].side == side && Better(side, pool[n - 1].price, r.0)
      then (pool[n - 1].price, Some(n - 1))
      else r
  }

  lemma {:induction false} ScanInRange(pool: seq<PoolOrder>, side: u8, n: nat)
    requires n <= |pool|
    ensures var (p, i) := Scan(pool, side, n);
      i.Some? ==> i.value < n && pool[i.value].side == side && pool[i.value].price == p
    ensures Scan(pool, side, n).1.None? ==> Scan(pool, side, n).0 == Sentinel(side)
  {
    if n > 0 { ScanInRange(pool, side, n - 1); }
  }

  function BuildExecute(g: Gen, d: Draw): Built {
    var side := SideOf(d.buy);
    var (price, best) := Scan(g.pool, side, |g.pool|);
    ScanInRange(g.pool, side, |g.pool|);
    if best.None? then Built(g, None)
    else
      var i := best.value;
      var o := g.pool[i];
      var qty := RandQty(d.rawQty);
      if qty >= o.quantity
      then Built(g.(pool := SwapRemove(g.pool, i)), Some(Execute(d.now, o.id, o.quantity, price)))
      else Built(g.(pool := g.pool[i := o.(quantity := o.quantity - qty)]), Some(Execute(d.now, o.id, qty, price)))
  }

  function QuoteSide(g: Gen, side: u8): (u32, u32) {
    var (price, best) := Scan(g.pool, side, |g.pool|);
    ScanInRange(g.pool, side, |g.pool|);
    var qty := if best.None? then 0 else g.pool[best.value].quantity;
    if price != Sentinel(side) then (price, qty)
    else (ToPrice(if side == BUY then g.mid - TICK else g.mid + TICK), qty)
  }

  function BuildQuote(g: Gen, now: u64): Built {
    var (bidPrice, bidQty) := QuoteSide(g, BUY);
    var (askPrice, askQty) := QuoteSide(g, SELL);
    Built(g, Some(Quote(now, bidPrice, bidQty, askPrice, askQty)))
  }

  function Build(g: Gen, d: Draw): Built {
    match d.event
    case AddEvent => BuildAdd(g, d)
    case CancelEvent => BuildCancel(g, d)
    case ExecuteEvent => BuildExecute(g, d)
    case QuoteEvent => BuildQuote(g, d.now)
  }

  /** writeMessage refuses a packet over capacity, when the generator has already changed. */
  function Written(b: Built, capacity: nat): Built {
    if b.message.Some? && capacity < 2 + Size(b.message.value) then b.(message := None) else b
  }

  /** ++messages_generated_. */
  function Counted(b: Built): Built {
    b.(gen := b.gen.(messages := (b.gen.messages + 1) % 0x1_0000_0000_0000_0000))
  }

  /** The attempt loop of nextPacket. */
  function Attempts(g: Gen, draws: seq<Draw>, capacity: nat): Built
    decreases |draws|
  {
    if |draws| == 0 then Built(g, None)
    else
      var b := Written(Build(g, draws[0]), capacity);
      if b.message.Some? then Counted(b)
      else Attempts(b.gen, draws[1..], capacity)
  }

  /** One nextPacket call on a non-null buffer. The closing quote is not counted in messages. */
  function NextPacket(g: Gen, c: Call, capacity: nat): Built {
    var g' := if g.messages % 50 == 0 then EvolveMid(g, c.rawMid) else g;
    var b := Attempts(g', c.attempts, capacity);
    if b.message.Some? then b else Written(BuildQuote(b.gen, c.now), capacity)
  }

  function InitialGen(symbol: Symbol): Gen {
    Gen([], INITIAL_MID, 1, symbol, 0)
  }
}
