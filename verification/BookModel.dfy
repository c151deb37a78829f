/** What SimpleOrderBook computes, as functions on values: the orders map, the two level indexes
    kept beside it, and the last quote. */
module BookModel {
  import opened Words
  import opened MarketData

  datatype RestingOrder = RestingOrder(side: u8, price: u32, quantity: u32, timestamp: u64)
  datatype Level = Level(price: u32, quantity: u32)
  datatype QuoteInfo = QuoteInfo(timestamp: u64, bid: Level, ask: Level)

  type Orders = map<u32, RestingOrder>
  type Levels = map<u32, u64>

  datatype Book = Book(orders: Orders, bids: Levels, asks: Levels, lastQuote: Option<QuoteInfo>)

  const EMPTY_BOOK := Book(map[], map[], map[], None)

  function Min(a: nat, b: nat): nat {
    if a <= b then a else b
  }

  /** An absent level reads as 0. */
  function LevelAt(levels: Levels, price: u32): u64 {
    if price in levels then levels[price] else 0
  }

  /** levels[price] += quantity on a u64 value. */
  function AddLevel(levels: Levels, price: u32, quantity: u32): Levels {
    levels[price := (LevelAt(levels, price) + quantity) % 0x1_0000_0000_0000_0000]
  }

  function SubtractLevel(levels: Levels, price: u32, quantity: u32): Levels {
    if price !in levels then levels
    else if levels[price] <= quantity then levels - {price}
    else levels[price := levels[price] - quantity]
  }

  function AddToLevels(b: Book, side: u8, price: u32, quantity: u32): Book {
    if side == BUY then b.(bids := AddLevel(b.bids, price, quantity))
    else if side == SELL then b.(asks := AddLevel(b.asks, price, quantity))
    else b
  }

  function RemoveFromLevels(b: Book, side: u8, price: u32, quantity: u32): Book {
    if side == BUY then b.(bids := SubtractLevel(b.bids, price, quantity))
    else if side == SELL then b.(asks := SubtractLevel(b.asks, price, quantity))
    else b
  }

  function ReduceOrder(b: Book, id: u32, requested: u32): Book
    requires id in b.orders
  {
    var o := b.orders[id];
    var removed := Min(requested, o.quantity);
    var b' := RemoveFromLevels(b, o.side, o.price, removed);
    b'.(orders := if o.quantity == removed then b.orders - {id}
                  else b.orders[id := o.(quantity := o.quantity - removed)])
  }

  /** The levels as an add finds them: a replaced order is already off its level. */
  function Stripped(b: Book, id: u32): Book {
    if id in b.orders
    then RemoveFromLevels(b, b.orders[id].side, b.orders[id].price, b.orders[id].quantity)
    else b
  }

  function ApplyAdd(b: Book, id: u32, o: RestingOrder): Book {
    AddToLevels(Stripped(b, id).(orders := b.orders[id := o]), o.side, o.price, o.quantity)
  }

  function CancelAmount(o: RestingOrder, quantity: u32): u32 {
    if quantity == 0 then o.quantity else quantity
  }

  /** The four apply overloads: the new book, and the value returned. */
  function Apply(b: Book, m: Message): (Book, bool) {
    match m
    case AddOrder(ts, id, side, price, qty, _) =>
      (ApplyAdd(b, id, RestingOrder(side, price, qty, ts)), true)
    case CancelOrder(_, id, qty) =>
      if id !in b.orders then (b, false)
      else (ReduceOrder(b, id, CancelAmount(b.orders[id], qty)), true)
    case Execute(_, id, qty, _) =>
      if id !in b.orders then (b, false)
      else (ReduceOrder(b, id, qty), true)
    case Quote(ts, bidPrice, bidQty, askPrice, askQty) =>
      (b.(lastQuote := Some(QuoteInfo(ts, Level(bidPrice, bidQty), Level(askPrice, askQty)))), true)
  }

  function ApplyParsed(b: Book, m: Option<Message>): (Book, bool) {
    if m.None? then (b, false) else Apply(b, m.value)
  }

  /** applyPacket on the bytes of a packet. */
  function ApplyPacket(host: Endian, b: Book, packet: seq<u8>): (Book, bool) {
    ApplyParsed(b, ParsePacket(host, packet))
  }

  /** applyMessage on host-order bytes. */
  function ApplyMessage(host: Endian, b: Book, payload: seq<u8>): (Book, bool) {
    ApplyParsed(b, CopyMessage(host, payload))
  }

  /** The book after a run of messages; rejected ones included. */
  function ApplyAll(b: Book, ms: seq<Message>): Book {
    if |ms| == 0 then b else Apply(ApplyAll(b, ms[..|ms| - 1]), ms[|ms| - 1]).0
  }

  // ---------------------------------------------------------------------------------------------
  // The two ordered maps: bids are kept greatest key first, asks least key first.

  ghost predicate IsMaxKey(levels: Levels, p: u32) {
    p in levels && forall q :: q in levels ==> q <= p
  }

  ghost predicate IsMinKey(levels: Levels, p: u32) {
    p in levels && forall q :: q in levels ==> p <= q
  }

  lemma {:induction false} ExtremeKeysExist(levels: Levels)
    requires levels != map[]
    ensures exists p: u32 :: IsMaxKey(levels, p)
    ensures exists p: u32 :: IsMinKey(levels, p)
    decreases levels.Keys
  {
    var k :| k in levels;
    if levels.Keys == {k} {
      assert IsMaxKey(levels, k) && IsMinKey(levels, k);
    } else {
      var rest := levels - {k};
      assert rest.Keys == levels.Keys - {k};
      var other :| other in levels && other != k;
      assert other in rest;
      ExtremeKeysExist(rest);
      var hi: u32 :| IsMaxKey(rest, hi);
      var lo: u32 :| IsMinKey(rest, lo);
      assert forall q: u32 :: q in levels ==> q == k || q in rest;
      assert IsMaxKey(levels, if hi < k then k else hi);
      assert IsMinKey(levels, if k < lo then k else lo);
    }
  }

  /** The key begin() gives on bids_. */
  ghost function MaxKey(levels: Levels): (p: u32)
    requires levels != map[]
    ensures IsMaxKey(levels, p)
  {
    ExtremeKeysExist(levels);
    var p: u32 :| IsMaxKey(levels, p);
    p
  }

  /** The key begin() gives on asks_. */
  ghost function MinKey(levels: Levels): (p: u32)
    requires levels != map[]
    ensures IsMinKey(levels, p)
  {
    ExtremeKeysExist(levels);
    var p: u32 :| IsMinKey(levels, p);
    p
  }

  function NarrowQuantity(q: u64): u32 {
    if q > U32_MAX then U32_MAX else q
  }

  ghost function BestBid(b: Book): Option<Level> {
    if b.bids == map[] then None
    else Some(Level(MaxKey(b.bids), NarrowQuantity(b.bids[MaxKey(b.bids)])))
  }

  ghost function BestAsk(b: Book): Option<Level> {
    if b.asks == map[] then None
    else Some(Level(MinKey(b.asks), NarrowQuantity(b.asks[MinKey(b.asks)])))
  }

  // ---------------------------------------------------------------------------------------------
  // Sums over the orders map. Ids are u32, so a sum runs over every possible id in turn.

  datatype Selector = Everything | At(side: u8, price: u32)

  predicate Selects(sel: Selector, o: RestingOrder) {
    sel.Everything? || (o.side == sel.side && o.price == sel.price)
  }

  function Weight(orders: Orders, sel: Selector, id: int): u32 {
    if id in orders && Selects(sel, orders[id]) then orders[id].quantity else 0
  }

  ghost function SumBelow(orders: Orders, sel: Selector, n: nat): nat {
    if n == 0 then 0 else SumBelow(orders, sel, n - 1) + Weight(orders, sel, n - 1)
  }

  /** The total quantity of the selected resting orders. */
  ghost function Sum(orders: Orders, sel: Selector): nat {
    SumBelow(orders, sel, 0x1_0000_0000)
  }

  /** Index agreement: at every price each level, absent read as 0, is the sum of the orders there. */
  ghost predicate Agrees(b: Book) {
    && (forall p: u32 :: LevelAt(b.bids, p) == Sum(b.orders, At(BUY, p)))
    && (forall p: u32 :: LevelAt(b.asks, p) == Sum(b.orders, At(SELL, p)))
  }

  lemma {:induction false} SumBelowBound(orders: Orders, sel: Selector, n: nat)
    ensures SumBelow(orders, sel, n) <= n * 0xffff_ffff
  {
    if n > 0 { SumBelowBound(orders, sel, n - 1); }
  }

  /** No sum of resting quantities reaches 2^64: 2^32 ids of at most 2^32 - 1 each. */
  lemma SumBound(orders: Orders, sel: Selector)
    ensures Sum(orders, sel) <= 0x1_0000_0000 * 0xffff_ffff < 0x1_0000_0000_0000_0000
  {
    SumBelowBound(orders, sel, 0x1_0000_0000);
  }

  lemma {:induction false} SumBelowChange(orders: Orders, orders': Orders, sel: Selector, id: u32, n: nat)
    requires orders - {id} == orders' - {id}
    ensures SumBelow(orders', sel, n) + (if id < n then Weight(orders, sel, id) else 0)
         == SumBelow(orders, sel, n) + (if id < n then Weight(orders', sel, id) else 0)
  {
    if n > 0 {
      SumBelowChange(orders, orders', sel, id, n - 1);
      if id != n - 1 {
        assert n - 1 in orders <==> n - 1 in orders - {id};
        assert n - 1 in orders' <==> n - 1 in orders' - {id};
        assert n - 1 in orders ==> orders[n - 1] == (orders - {id})[n - 1];
        assert n - 1 in orders' ==> orders'[n - 1] == (orders' - {id})[n - 1];
      }
    }
  }

  /** Changing one order changes a sum by the change of that order's own weight. */
  lemma SumChange(orders: Orders, orders': Orders, sel: Selector, id: u32)
    requires orders - {id} == orders' - {id}
    ensures Sum(orders', sel) + Weight(orders, sel, id) == Sum(orders, sel) + Weight(orders', sel, id)
  {
    SumBelowChange(orders, orders', sel, id, 0x1_0000_0000);
  }

  lemma {:induction false} SumBelowZero(orders: Orders, sel: Selector, n: nat)
    ensures SumBelow(orders, sel, n) == 0 <==> forall id: u32 :: id < n ==> Weight(orders, sel, id) == 0
  {
    if n > 0 { SumBelowZero(orders, sel, n - 1); }
  }

  /** A sum is 0 exactly when every selected order has quantity 0. */
  lemma SumZero(orders: Orders, sel: Selector)
    ensures Sum(orders, sel) == 0 <==> forall id: u32 :: Weight(orders, sel, id) == 0
  {
    SumBelowZero(orders, sel, 0x1_0000_0000);
  }

  /** One order's quantity is part of the sum it belongs to. */
  lemma WeightInSum(orders: Orders, sel: Selector, id: u32)
    ensures Weight(orders, sel, id) <= Sum(orders, sel)
  {
    SumChange(orders, orders - {id}, sel, id);
  }

  lemma ApplyAllPush(b: Book, ms: seq<Message>, m: Message)
    ensures ApplyAll(b, ms + [m]) == Apply(ApplyAll(b, ms), m).0
  {
    assert (ms + [m])[..|ms|] == ms;
  }
}
