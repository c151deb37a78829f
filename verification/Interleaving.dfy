/** The book as many independent one-order machines: what a run does to one order, and why the
    order in which different orders' messages arrive does not matter. */
module Interleaving {
  import opened Words
  import opened MarketData
  import opened BookModel
  import opened BookTheorems

  function Lookup(orders: Orders, id: u32): Option<RestingOrder> {
    if id in orders then Some(orders[id]) else None
  }

  /** One order on its own: absent or resting, and the answer to each message that names it. */
  function OrderStep(o: Option<RestingOrder>, m: Message): (Option<RestingOrder>, bool) {
    match m
    case AddOrder(ts, _, side, price, qty, _) => (Some(RestingOrder(side, price, qty, ts)), true)
    case CancelOrder(_, _, qty) =>
      if o.None? then (None, false)
      else if qty == 0 || qty >= o.value.quantity then (None, true)
      else (Some(o.value.(quantity := o.value.quantity - qty)), true)
    case Execute(_, _, qty, _) =>
      if o.None? then (None, false)
      else if qty >= o.value.quantity then (None, true)
      else (Some(o.value.(quantity := o.value.quantity - qty)), true)
    case Quote(_, _, _, _, _) => (o, true)
  }

  /** The book does to each order what that order's own machine does, and to the others nothing. */
  lemma ApplyIsOrderStep(b: Book, m: Message, id: u32)
    ensures Targets(m, id) ==> (Lookup(Apply(b, m).0.orders, id), Apply(b, m).1) == OrderStep(Lookup(b.orders, id), m)
    ensures !Targets(m, id) ==> Lookup(Apply(b, m).0.orders, id) == Lookup(b.orders, id)
  {
  }

  /** The messages of a run that name one order, in order. */
  function Project(ms: seq<Message>, id: u32): seq<Message> {
    if |ms| == 0 then []
    else
      var front := Project(ms[..|ms| - 1], id);
      if Targets(ms[|ms| - 1], id) then front + [ms[|ms| - 1]] else front
  }

  function Quotes(ms: seq<Message>): seq<Message> {
    if |ms| == 0 then []
    else
      var front := Quotes(ms[..|ms| - 1]);
      if ms[|ms| - 1].Quote? then front + [ms[|ms| - 1]] else front
  }

  /** The answers a run gives to the messages of one order. */
  function AnswersFor(b: Book, ms: seq<Message>, id: u32): seq<bool> {
    if |ms| == 0 then []
    else
      var front := AnswersFor(b, ms[..|ms| - 1], id);
      if Targets(ms[|ms| - 1], id)
      then front + [Apply(ApplyAll(b, ms[..|ms| - 1]), ms[|ms| - 1]).1]
      else front
  }

  function OrderRun(o: Option<RestingOrder>, ms: seq<Message>): (r: (Option<RestingOrder>, seq<bool>))
  {
    if |ms| == 0 then (o, [])
    else
      var (o', answers) := OrderRun(o, ms[..|ms| - 1]);
      var (o'', answer) := OrderStep(o', ms[|ms| - 1]);
      (o'', answers + [answer])
  }

  lemma OrderRunPush(o: Option<RestingOrder>, ms: seq<Message>, m: Message)
    ensures var r := OrderRun(o, ms);
      OrderRun(o, ms + [m]) == (OrderStep(r.0, m).0, r.1 + [OrderStep(r.0, m).1])
  {
    assert (ms + [m])[..|ms|] == ms;
  }

  /** A run of the whole book, seen from one order, is that order's machine on its own messages. */
  lemma {:induction false} RunIsOrderRun(b: Book, ms: seq<Message>, id: u32)
    ensures (Lookup(ApplyAll(b, ms).orders, id), AnswersFor(b, ms, id))
         == OrderRun(Lookup(b.orders, id), Project(ms, id))
  {
    if |ms| > 0 {
      var front, m := ms[..|ms| - 1], ms[|ms| - 1];
      RunIsOrderRun(b, front, id);
      ApplyIsOrderStep(ApplyAll(b, front), m, id);
      OrderRunPush(Lookup(b.orders, id), Project(front, id), m);
    }
  }

  function QuoteRun(q: Option<QuoteInfo>, quotes: seq<Message>): Option<QuoteInfo> {
    if |quotes| == 0 || !quotes[|quotes| - 1].Quote? then q
    else
      var m := quotes[|quotes| - 1];
      Some(QuoteInfo(m.timestamp, Level(m.bidPrice, m.bidQty), Level(m.askPrice, m.askQty)))
  }

  /** last_quote_ is the last Quote message of the run. */
  lemma {:induction false} RunIsQuoteRun(b: Book, ms: seq<Message>)
    ensures ApplyAll(b, ms).lastQuote == QuoteRun(b.lastQuote, Quotes(ms))
    ensures forall m :: m in Quotes(ms) ==> m.Quote?
  {
    if |ms| > 0 {
      RunIsQuoteRun(b, ms[..|ms| - 1]);
    }
  }

  /** Two runs that keep every order's own sequence, and the sequence of quotes. */
  ghost predicate SamePerOrder(xs: seq<Message>, ys: seq<Message>) {
    Quotes(xs) == Quotes(ys) && forall id: u32 :: Project(xs, id) == Project(ys, id)
  }

  /** Same orders, and every level reads the same. */
  ghost predicate SameReading(b: Book, c: Book) {
    && b.orders == c.orders
    && b.lastQuote == c.lastQuote
    && (forall p: u32 :: LevelAt(b.bids, p) == LevelAt(c.bids, p))
    && (forall p: u32 :: LevelAt(b.asks, p) == LevelAt(c.asks, p))
  }

  /** Any two interleavings give every message the same answer and leave books that read the same,
      with no condition on the quantities. */
  lemma InterleavingsReadTheSame(b: Book, xs: seq<Message>, ys: seq<Message>)
    requires Agrees(b) && SamePerOrder(xs, ys)
    ensures SameReading(ApplyAll(b, xs), ApplyAll(b, ys))
    ensures forall id: u32 :: AnswersFor(b, xs, id) == AnswersFor(b, ys, id)
  {
    var (c1, c2) := (ApplyAll(b, xs), ApplyAll(b, ys));
    forall id: u32
      ensures Lookup(c1.orders, id) == Lookup(c2.orders, id)
      ensures AnswersFor(b, xs, id) == AnswersFor(b, ys, id)
    {
      RunIsOrderRun(b, xs, id);
      RunIsOrderRun(b, ys, id);
    }
    assert c1.orders == c2.orders by {
      assert forall id: u32 :: id in c1.orders <==> Lookup(c1.orders, id).Some?;
      assert forall id: u32 :: id in c2.orders <==> Lookup(c2.orders, id).Some?;
      assert forall id: u32 :: id in c1.orders ==> Lookup(c1.orders, id) == Some(c1.orders[id]);
    }
    RunIsQuoteRun(b, xs);
    RunIsQuoteRun(b, ys);
    RunKeepsAgreement(b, xs);
    RunKeepsAgreement(b, ys);
  }

  lemma TightReadingsAreEqual(b: Book, c: Book)
    requires SameReading(b, c) && Tight(b) && Tight(c)
    ensures b == c
  {
    assert forall p: u32 :: p in b.bids <==> LevelAt(b.bids, p) > 0;
    assert forall p: u32 :: p in c.bids <==> LevelAt(c.bids, p) > 0;
    assert forall p: u32 :: p in b.asks <==> LevelAt(b.asks, p) > 0;
    assert forall p: u32 :: p in c.asks <==> LevelAt(c.asks, p) > 0;
    assert forall p: u32 :: p in b.bids ==> b.bids[p] == LevelAt(b.bids, p) == c.bids[p];
    assert forall p: u32 :: p in b.asks ==> b.asks[p] == LevelAt(b.asks, p) == c.asks[p];
    assert b.bids == c.bids;
    assert b.asks == c.asks;
  }

  lemma {:induction false} InRunIsTargeted(ms: seq<Message>, i: nat)
    requires i < |ms|
    ensures ms[i].Quote? ==> ms[i] in Quotes(ms)
    ensures !ms[i].Quote? ==> ms[i] in Project(ms, ms[i].orderId)
  {
    if i < |ms| - 1 {
      InRunIsTargeted(ms[..|ms| - 1], i);
    }
  }

  lemma {:induction false} ProjectionIsInRun(ms: seq<Message>, id: u32, m: Message)
    requires m in Project(ms, id)
    ensures m in ms
  {
    if m != ms[|ms| - 1] {
      ProjectionIsInRun(ms[..|ms| - 1], id, m);
    }
  }

  /** With positive added quantities the books are equal, index keys included. */
  lemma InterleavingIndependence(b: Book, xs: seq<Message>, ys: seq<Message>)
    requires Agrees(b) && Tight(b) && SamePerOrder(xs, ys)
    requires forall i :: 0 <= i < |xs| ==> PositiveAdd(xs[i])
    ensures ApplyAll(b, xs) == ApplyAll(b, ys)
    ensures forall id: u32 :: AnswersFor(b, xs, id) == AnswersFor(b, ys, id)
  {
    forall i | 0 <= i < |ys|
      ensures PositiveAdd(ys[i])
    {
      InRunIsTargeted(ys, i);
      if ys[i].AddOrder? {
        ProjectionIsInRun(xs, ys[i].orderId, ys[i]);
      }
    }
    InterleavingsReadTheSame(b, xs, ys);
    RunKeepsTight(b, xs);
    RunKeepsTight(b, ys);
    TightReadingsAreEqual(ApplyAll(b, xs), ApplyAll(b, ys));
  }

  lemma PairRun(b: Book, m1: Message, m2: Message)
    ensures ApplyAll(b, [m1, m2]) == Apply(Apply(b, m1).0, m2).0
  {
    ApplyAllPush(b, [], m1);
    ApplyAllPush(b, [m1], m2);
    assert [] + [m1] == [m1] && [m1] + [m2] == [m1, m2];
  }

  lemma PairProjection(m1: Message, m2: Message, id: u32)
    requires !m1.Quote? && !m2.Quote?
    ensures Project([m1, m2], id) == (if m1.orderId == id then [m1] else []) + (if m2.orderId == id then [m2] else [])
    ensures Quotes([m1, m2]) == []
  {
    var one, two := [m1], [m1, m2];
    assert one[..|one| - 1] == [] && two[..|two| - 1] == one;
    assert Project(one, id) == if m1.orderId == id then [m1] else [];
    assert Quotes(one) == [];
  }

  // ---------------------------------------------------------------------------------------------
  // The adjacent swap, exactly.

  /** The message takes quantity off the level, or erases it, without adding there again. */
  predicate TakesAt(b: Book, m: Message, side: u8, p: u32) {
    !m.Quote? && m.orderId in b.orders && Selects(At(side, p), b.orders[m.orderId]) && !AddsAt(m, side, p)
  }

  /** One message adds nothing at a level off which the other takes an order, and between them they
      remove all that is on it. */
  predicate ClashesWith(b: Book, adder: Message, taker: Message) {
    && adder.AddOrder? && adder.quantity == 0
    && (adder.side == BUY || adder.side == SELL)
    && TakesAt(b, taker, adder.side, adder.price)
    && LevelAt(SideLevels(b, adder.side), adder.price)
       == RemovedBy(b, adder, At(adder.side, adder.price)) + RemovedBy(b, taker, At(adder.side, adder.price))
  }

  predicate Clash(b: Book, m1: Message, m2: Message) {
    ClashesWith(b, m1, m2) || ClashesWith(b, m2, m1)
  }

  /** Whether a level exists after a message. */
  lemma LevelExistsAfter(b: Book, m: Message, side: u8, p: u32)
    requires side == BUY || side == SELL
    ensures p in SideLevels(Apply(b, m).0, side) <==>
      || AddsAt(m, side, p)
      || (p in SideLevels(b, side)
          && (TakesAt(b, m, side, p) ==> SideLevels(b, side)[p] > TakenFrom(b.orders[m.orderId], m)))
  {
  }

  /** Two messages of different orders see each other's orders unchanged. */
  lemma OtherOrderUntouched(b: Book, m1: Message, m2: Message, side: u8, p: u32)
    requires !m1.Quote? && !m2.Quote? && m1.orderId != m2.orderId
    ensures TakesAt(Apply(b, m1).0, m2, side, p) == TakesAt(b, m2, side, p)
    ensures RemovedBy(Apply(b, m1).0, m2, At(side, p)) == RemovedBy(b, m2, At(side, p))
    ensures Apply(Apply(b, m1).0, m2).1 == Apply(b, m2).1
  {
    ApplyIsOrderStep(b, m1, m2.orderId);
  }

  /** What a level reads after both messages. */
  lemma PairReading(b: Book, m1: Message, m2: Message, side: u8, p: u32)
    requires Agrees(b) && (side == BUY || side == SELL)
    requires !m1.Quote? && !m2.Quote? && m1.orderId != m2.orderId
    ensures LevelAt(SideLevels(Apply(Apply(b, m1).0, m2).0, side), p)
         == LevelAt(SideLevels(b, side), p) + AddedBy(m1, At(side, p)) + AddedBy(m2, At(side, p))
            - RemovedBy(b, m1, At(side, p)) - RemovedBy(b, m2, At(side, p))
  {
    OtherOrderUntouched(b, m1, m2, side, p);
    ApplyKeepsAgreement(b, m1);
    LevelFlow(b, m1, p);
    LevelFlow(Apply(b, m1).0, m2, p);
  }

  /** A level that reads 0 after both messages exists exactly when the last of them to touch it adds. */
  lemma ZeroLevelExists(b: Book, m1: Message, m2: Message, side: u8, p: u32)
    requires Agrees(b) && (side == BUY || side == SELL)
    requires !m1.Quote? && !m2.Quote? && m1.orderId != m2.orderId
    requires LevelAt(SideLevels(Apply(Apply(b, m1).0, m2).0, side), p) == 0
    ensures p in SideLevels(Apply(Apply(b, m1).0, m2).0, side) <==>
      || AddsAt(m2, side, p)
      || (!TakesAt(b, m2, side, p) && AddsAt(m1, side, p))
      || (!TakesAt(b, m2, side, p) && !TakesAt(b, m1, side, p) && p in SideLevels(b, side))
  {
    OtherOrderUntouched(b, m1, m2, side, p);
    LevelExistsAfter(b, m1, side, p);
    LevelExistsAfter(Apply(b, m1).0, m2, side, p);
    ApplyKeepsAgreement(b, m1);
    LevelFlow(b, m1, p);
    LevelFlow(Apply(b, m1).0, m2, p);
  }

  /** Adjacent messages of different orders, swapped, leave the same book exactly when they do not
      clash. */
  lemma DifferentOrdersCommuteIff(b: Book, m1: Message, m2: Message)
    requires Agrees(b)
    requires !m1.Quote? && !m2.Quote? && m1.orderId != m2.orderId
    ensures Apply(Apply(b, m1).0, m2).0 == Apply(Apply(b, m2).0, m1).0 <==> !Clash(b, m1, m2)
    ensures Apply(Apply(b, m1).0, m2).1 == Apply(b, m2).1
    ensures Apply(Apply(b, m2).0, m1).1 == Apply(b, m1).1
  {
    OtherOrderUntouched(b, m1, m2, BUY, 0);
    OtherOrderUntouched(b, m2, m1, BUY, 0);
    var (b12, b21) := (Apply(Apply(b, m1).0, m2).0, Apply(Apply(b, m2).0, m1).0);
    PairReadsTheSame(b, m1, m2);
    if Clash(b, m1, m2) {
      if ClashesWith(b, m1, m2) { ClashShows(b, m1, m2); } else { ClashShows(b, m2, m1); }
    } else {
      forall side: u8, p: u32 | side == BUY || side == SELL
        ensures p in SideLevels(b12, side) <==> p in SideLevels(b21, side)
      {
        NoClashAt(b, m1, m2, side, p);
      }
      SameKeysAreEqual(b12, b21);
    }
  }

  lemma PairReadsTheSame(b: Book, m1: Message, m2: Message)
    requires Agrees(b)
    requires !m1.Quote? && !m2.Quote? && m1.orderId != m2.orderId
    ensures SameReading(Apply(Apply(b, m1).0, m2).0, Apply(Apply(b, m2).0, m1).0)
  {
    PairRun(b, m1, m2);
    PairRun(b, m2, m1);
    forall id: u32
      ensures Project([m1, m2], id) == Project([m2, m1], id)
    {
      PairProjection(m1, m2, id);
      PairProjection(m2, m1, id);
    }
    InterleavingsReadTheSame(b, [m1, m2], [m2, m1]);
  }

  lemma ClashShows(b: Book, adder: Message, taker: Message)
    requires Agrees(b) && ClashesWith(b, adder, taker)
    requires !taker.Quote? && adder.orderId != taker.orderId
    ensures adder.price !in SideLevels(Apply(Apply(b, adder).0, taker).0, adder.side)
    ensures adder.price in SideLevels(Apply(Apply(b, taker).0, adder).0, adder.side)
  {
    PairReading(b, adder, taker, adder.side, adder.price);
    ZeroLevelExists(b, adder, taker, adder.side, adder.price);
    LevelExistsAfter(Apply(b, taker).0, adder, adder.side, adder.price);
  }

  lemma NoClashAt(b: Book, m1: Message, m2: Message, side: u8, p: u32)
    requires Agrees(b) && !Clash(b, m1, m2) && (side == BUY || side == SELL)
    requires !m1.Quote? && !m2.Quote? && m1.orderId != m2.orderId
    ensures p in SideLevels(Apply(Apply(b, m1).0, m2).0, side) <==> p in SideLevels(Apply(Apply(b, m2).0, m1).0, side)
  {
    PairReading(b, m1, m2, side, p);
    PairReading(b, m2, m1, side, p);
    if LevelAt(SideLevels(Apply(Apply(b, m1).0, m2).0, side), p) == 0 {
      NoClashAtZero(b, m1, m2, side, p);
    }
  }

  lemma NoClashAtZero(b: Book, m1: Message, m2: Message, side: u8, p: u32)
    requires Agrees(b) && !Clash(b, m1, m2) && (side == BUY || side == SELL)
    requires !m1.Quote? && !m2.Quote? && m1.orderId != m2.orderId
    requires LevelAt(SideLevels(Apply(Apply(b, m1).0, m2).0, side), p) == 0
    requires LevelAt(SideLevels(Apply(Apply(b, m2).0, m1).0, side), p) == 0
    ensures p in SideLevels(Apply(Apply(b, m1).0, m2).0, side) <==> p in SideLevels(Apply(Apply(b, m2).0, m1).0, side)
  {
    PairReading(b, m1, m2, side, p);
    ZeroLevelExists(b, m1, m2, side, p);
    ZeroLevelExists(b, m2, m1, side, p);
    RemovedIsThere(b, m1, m2, side, p);
  }

  /** Two different orders' quantities are both part of the level they rest at. */
  lemma RemovedIsThere(b: Book, m1: Message, m2: Message, side: u8, p: u32)
    requires Agrees(b) && (side == BUY || side == SELL)
    requires !m1.Quote? && !m2.Quote? && m1.orderId != m2.orderId
    ensures RemovedBy(b, m1, At(side, p)) + RemovedBy(b, m2, At(side, p)) <= LevelAt(SideLevels(b, side), p)
  {
    var sel := At(side, p);
    SumChange(b.orders, b.orders - {m1.orderId}, sel, m1.orderId);
    WeightInSum(b.orders - {m1.orderId}, sel, m2.orderId);
    assert Weight(b.orders - {m1.orderId}, sel, m2.orderId) == Weight(b.orders, sel, m2.orderId);
  }

  lemma SameKeysAreEqual(b: Book, c: Book)
    requires SameReading(b, c)
    requires forall side: u8, p: u32 :: side == BUY || side == SELL ==>
      (p in SideLevels(b, side) <==> p in SideLevels(c, side))
    ensures b == c
  {
    forall p: u32
      ensures p in b.bids <==> p in c.bids
      ensures p in b.asks <==> p in c.asks
    {
      assert p in SideLevels(b, BUY) <==> p in SideLevels(c, BUY);
      assert p in SideLevels(b, SELL) <==> p in SideLevels(c, SELL);
    }
    assert forall p: u32 :: p in b.bids ==> b.bids[p] == LevelAt(b.bids, p) == c.bids[p];
    assert forall p: u32 :: p in b.asks ==> b.asks[p] == LevelAt(b.asks, p) == c.asks[p];
    assert b.bids == c.bids && b.asks == c.asks;
  }

  /** With positive quantities nothing clashes. */
  lemma DifferentOrdersCommute(b: Book, m1: Message, m2: Message)
    requires Agrees(b)
    requires PositiveAdd(m1) && PositiveAdd(m2)
    requires !m1.Quote? && !m2.Quote? && m1.orderId != m2.orderId
    ensures Apply(Apply(b, m1).0, m2).0 == Apply(Apply(b, m2).0, m1).0
    ensures Apply(Apply(b, m1).0, m2).1 == Apply(b, m2).1
    ensures Apply(Apply(b, m2).0, m1).1 == Apply(b, m1).1
  {
    DifferentOrdersCommuteIff(b, m1, m2);
  }

  /** The book with one order of quantity 5 on the bid. */
  function OneBid(): Book {
    Apply(EMPTY_BOOK, AddOrder(0, 2, BUY, 100, 5, FAKE)).0
  }

  lemma ZeroAddClashes()
    ensures Agrees(OneBid())
    ensures Clash(OneBid(), AddOrder(0, 1, BUY, 100, 0, FAKE), CancelOrder(0, 2, 0))
  {
    EmptyAgrees();
    ApplyKeepsAgreement(EMPTY_BOOK, AddOrder(0, 2, BUY, 100, 5, FAKE));
  }

  /** A pair that clashes: a zero add before or after another order's whole cancel at that price. */
  lemma ZeroAddDoesNotCommute()
    ensures var (zero, cancel) := (AddOrder(0, 1, BUY, 100, 0, FAKE), CancelOrder(0, 2, 0));
      && Clash(OneBid(), zero, cancel)
      && Apply(Apply(OneBid(), zero).0, cancel).0 != Apply(Apply(OneBid(), cancel).0, zero).0
      && 100 !in Apply(Apply(OneBid(), zero).0, cancel).0.bids && 100 in Apply(Apply(OneBid(), cancel).0, zero).0.bids
  {
    ZeroAddClashes();
    DifferentOrdersCommuteIff(OneBid(), AddOrder(0, 1, BUY, 100, 0, FAKE), CancelOrder(0, 2, 0));
  }
}
