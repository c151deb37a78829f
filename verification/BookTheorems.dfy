/** The index theorems: what every message keeps, and what whole runs conserve. */
module BookTheorems {
  import opened Words
  import opened MarketData
  import opened BookModel

  // ---------------------------------------------------------------------------------------------
  // What a message adds and what it actually removes.

  predicate Targets(m: Message, id: u32) {
    !m.Quote? && m.orderId == id
  }

  function AddedBy(m: Message, sel: Selector): u32 {
    if m.AddOrder? && Selects(sel, RestingOrder(m.side, m.price, m.quantity, m.timestamp)) then m.quantity else 0
  }

  /** The quantity taken off the targeted order: all of it when replaced, at most all of it otherwise. */
  function TakenFrom(o: RestingOrder, m: Message): u32 {
    match m
    case AddOrder(_, _, _, _, _, _) => o.quantity
    case CancelOrder(_, _, qty) => Min(CancelAmount(o, qty), o.quantity)
    case Execute(_, _, qty, _) => Min(qty, o.quantity)
    case Quote(_, _, _, _, _) => 0
  }

  function RemovedBy(b: Book, m: Message, sel: Selector): u32 {
    if !m.Quote? && m.orderId in b.orders && Selects(sel, b.orders[m.orderId])
    then TakenFrom(b.orders[m.orderId], m)
    else 0
  }

  /** Order quantities move by exactly what the message adds less what it removes. */
  lemma SumFlow(b: Book, m: Message, sel: Selector)
    ensures Sum(Apply(b, m).0.orders, sel) + RemovedBy(b, m, sel) == Sum(b.orders, sel) + AddedBy(m, sel)
  {
    if !m.Quote? {
      var b' := Apply(b, m).0;
      assert b.orders - {m.orderId} == b'.orders - {m.orderId};
      SumChange(b.orders, b'.orders, sel, m.orderId);
    }
  }

  lemma RemoveFlow(b: Book, side: u8, price: u32, quantity: u32, p: u32)
    requires side == BUY && price == p ==> quantity <= LevelAt(b.bids, p)
    requires side == SELL && price == p ==> quantity <= LevelAt(b.asks, p)
    ensures var b' := RemoveFromLevels(b, side, price, quantity);
      && LevelAt(b'.bids, p) + (if side == BUY && price == p then quantity else 0) == LevelAt(b.bids, p)
      && LevelAt(b'.asks, p) + (if side == SELL && price == p then quantity else 0) == LevelAt(b.asks, p)
  {
  }

  lemma ReduceFlow(b: Book, id: u32, requested: u32, p: u32)
    requires Agrees(b) && id in b.orders
    ensures var b' := ReduceOrder(b, id, requested);
      var o := b.orders[id];
      var removed := Min(requested, o.quantity);
      && LevelAt(b'.bids, p) + (if Selects(At(BUY, p), o) then removed else 0) == LevelAt(b.bids, p)
      && LevelAt(b'.asks, p) + (if Selects(At(SELL, p), o) then removed else 0) == LevelAt(b.asks, p)
  {
    WeightInSum(b.orders, At(BUY, p), id);
    WeightInSum(b.orders, At(SELL, p), id);
    RemoveFlow(b, b.orders[id].side, b.orders[id].price, Min(requested, b.orders[id].quantity), p);
  }

  lemma StripFlow(b: Book, id: u32, p: u32)
    requires Agrees(b)
    ensures LevelAt(Stripped(b, id).bids, p) + Weight(b.orders, At(BUY, p), id) == LevelAt(b.bids, p)
    ensures LevelAt(Stripped(b, id).asks, p) + Weight(b.orders, At(SELL, p), id) == LevelAt(b.asks, p)
  {
    WeightInSum(b.orders, At(BUY, p), id);
    WeightInSum(b.orders, At(SELL, p), id);
    if id in b.orders {
      RemoveFlow(b, b.orders[id].side, b.orders[id].price, b.orders[id].quantity, p);
    }
  }

  /** The u64 addition to a level is exact: the sum it makes is again a sum over u32 ids. */
  lemma AddIsExact(b: Book, id: u32, o: RestingOrder)
    requires Agrees(b)
    ensures o.side == BUY ==> LevelAt(Stripped(b, id).bids, o.price) + o.quantity < 0x1_0000_0000_0000_0000
    ensures o.side == SELL ==> LevelAt(Stripped(b, id).asks, o.price) + o.quantity < 0x1_0000_0000_0000_0000
  {
    var orders' := b.orders[id := o];
    assert b.orders - {id} == orders' - {id};
    StripFlow(b, id, o.price);
    SumChange(b.orders, orders', At(BUY, o.price), id);
    SumChange(b.orders, orders', At(SELL, o.price), id);
    SumBound(orders', At(BUY, o.price));
    SumBound(orders', At(SELL, o.price));
  }

  lemma PlusFlow(b: Book, o: RestingOrder, p: u32)
    requires o.side == BUY ==> LevelAt(b.bids, o.price) + o.quantity < 0x1_0000_0000_0000_0000
    requires o.side == SELL ==> LevelAt(b.asks, o.price) + o.quantity < 0x1_0000_0000_0000_0000
    ensures var b' := AddToLevels(b, o.side, o.price, o.quantity);
      && LevelAt(b'.bids, p) == LevelAt(b.bids, p) + (if Selects(At(BUY, p), o) then o.quantity else 0)
      && LevelAt(b'.asks, p) == LevelAt(b.asks, p) + (if Selects(At(SELL, p), o) then o.quantity else 0)
  {
  }

  lemma AddFlow(b: Book, id: u32, o: RestingOrder, p: u32)
    requires Agrees(b)
    ensures var b' := ApplyAdd(b, id, o);
      && LevelAt(b'.bids, p) + Weight(b.orders, At(BUY, p), id)
         == LevelAt(b.bids, p) + (if Selects(At(BUY, p), o) then o.quantity else 0)
      && LevelAt(b'.asks, p) + Weight(b.orders, At(SELL, p), id)
         == LevelAt(b.asks, p) + (if Selects(At(SELL, p), o) then o.quantity else 0)
  {
    AddIsExact(b, id, o);
    StripFlow(b, id, p);
    PlusFlow(Stripped(b, id).(orders := b.orders[id := o]), o, p);
  }

  /** The levels move by the same amounts: each removal takes the same from the order and from its
      level, the addition does not wrap and the subtraction does not stop short. */
  lemma LevelFlow(b: Book, m: Message, p: u32)
    requires Agrees(b)
    ensures LevelAt(Apply(b, m).0.bids, p) + RemovedBy(b, m, At(BUY, p))
         == LevelAt(b.bids, p) + AddedBy(m, At(BUY, p))
    ensures LevelAt(Apply(b, m).0.asks, p) + RemovedBy(b, m, At(SELL, p))
         == LevelAt(b.asks, p) + AddedBy(m, At(SELL, p))
  {
    if m.AddOrder? {
      AddFlow(b, m.orderId, RestingOrder(m.side, m.price, m.quantity, m.timestamp), p);
    } else if m.CancelOrder? && m.orderId in b.orders {
      ReduceFlow(b, m.orderId, CancelAmount(b.orders[m.orderId], m.quantity), p);
    } else if m.Execute? && m.orderId in b.orders {
      ReduceFlow(b, m.orderId, m.execQty, p);
    }
  }

  /** Every message, whatever it says, keeps both indexes in agreement with the orders. */
  lemma ApplyKeepsAgreement(b: Book, m: Message)
    requires Agrees(b)
    ensures Agrees(Apply(b, m).0)
  {
    forall p: u32
      ensures LevelAt(Apply(b, m).0.bids, p) == Sum(Apply(b, m).0.orders, At(BUY, p))
      ensures LevelAt(Apply(b, m).0.asks, p) == Sum(Apply(b, m).0.orders, At(SELL, p))
    {
      LevelFlow(b, m, p);
      SumFlow(b, m, At(BUY, p));
      SumFlow(b, m, At(SELL, p));
    }
  }

  lemma EmptyAgrees()
    ensures Agrees(EMPTY_BOOK)
  {
    forall p: u32
      ensures Sum(map[], At(BUY, p)) == 0 == Sum(map[], At(SELL, p))
    {
      SumZero(map[], At(BUY, p));
      SumZero(map[], At(SELL, p));
    }
  }

  /** Index agreement after any run: replaced ids, over-cancels, unknown ids, zero quantities and
      unknown sides included. */
  lemma {:induction false} RunKeepsAgreement(b: Book, ms: seq<Message>)
    requires Agrees(b)
    ensures Agrees(ApplyAll(b, ms))
  {
    if |ms| > 0 {
      RunKeepsAgreement(b, ms[..|ms| - 1]);
      ApplyKeepsAgreement(ApplyAll(b, ms[..|ms| - 1]), ms[|ms| - 1]);
    }
  }

  /** The += on a level is exact in every state a run reaches, the replace path included. */
  lemma LevelsNeverWrap(ms: seq<Message>, m: Message)
    requires m.AddOrder?
    ensures var b := Stripped(ApplyAll(EMPTY_BOOK, ms), m.orderId);
      && (m.side == BUY ==> LevelAt(b.bids, m.price) + m.quantity < 0x1_0000_0000_0000_0000)
      && (m.side == SELL ==> LevelAt(b.asks, m.price) + m.quantity < 0x1_0000_0000_0000_0000)
  {
    EmptyAgrees();
    RunKeepsAgreement(EMPTY_BOOK, ms);
    AddIsExact(ApplyAll(EMPTY_BOOK, ms), m.orderId, RestingOrder(m.side, m.price, m.quantity, m.timestamp));
  }

  // ---------------------------------------------------------------------------------------------
  // Conservation over whole runs.

  function AddedOver(ms: seq<Message>, sel: Selector): nat {
    if |ms| == 0 then 0 else AddedOver(ms[..|ms| - 1], sel) + AddedBy(ms[|ms| - 1], sel)
  }

  function RemovedOver(b: Book, ms: seq<Message>, sel: Selector): nat {
    if |ms| == 0 then 0
    else RemovedOver(b, ms[..|ms| - 1], sel) + RemovedBy(ApplyAll(b, ms[..|ms| - 1]), ms[|ms| - 1], sel)
  }

  lemma {:induction false} RunFlow(b: Book, ms: seq<Message>, sel: Selector)
    ensures Sum(ApplyAll(b, ms).orders, sel) + RemovedOver(b, ms, sel) == Sum(b.orders, sel) + AddedOver(ms, sel)
  {
    if |ms| > 0 {
      RunFlow(b, ms[..|ms| - 1], sel);
      SumFlow(ApplyAll(b, ms[..|ms| - 1]), ms[|ms| - 1], sel);
    }
  }

  /** From the empty book: quantity added = quantity resting + quantity removed, in all and at every
      level of each side. */
  lemma Conservation(ms: seq<Message>, p: u32)
    ensures var b := ApplyAll(EMPTY_BOOK, ms);
      && AddedOver(ms, Everything) == Sum(b.orders, Everything) + RemovedOver(EMPTY_BOOK, ms, Everything)
      && AddedOver(ms, At(BUY, p)) == LevelAt(b.bids, p) + RemovedOver(EMPTY_BOOK, ms, At(BUY, p))
      && AddedOver(ms, At(SELL, p)) == LevelAt(b.asks, p) + RemovedOver(EMPTY_BOOK, ms, At(SELL, p))
  {
    EmptyAgrees();
    RunKeepsAgreement(EMPTY_BOOK, ms);
    RunFlow(EMPTY_BOOK, ms, Everything);
    RunFlow(EMPTY_BOOK, ms, At(BUY, p));
    RunFlow(EMPTY_BOOK, ms, At(SELL, p));
    SumZero(map[], Everything);
  }

  // ---------------------------------------------------------------------------------------------
  // Which levels exist.

  ghost predicate RestsAt(orders: Orders, side: u8, p: u32) {
    exists id: u32 :: id in orders && orders[id].side == side && orders[id].price == p
  }

  /** A level key is always the price of some resting order on its side. */
  ghost predicate Supported(b: Book) {
    && (forall p: u32 :: p in b.bids ==> RestsAt(b.orders, BUY, p))
    && (forall p: u32 :: p in b.asks ==> RestsAt(b.orders, SELL, p))
  }

  /** The converse: every resting order has its level. */
  ghost predicate Covered(b: Book) {
    && (forall p: u32 :: RestsAt(b.orders, BUY, p) ==> p in b.bids)
    && (forall p: u32 :: RestsAt(b.orders, SELL, p) ==> p in b.asks)
  }

  ghost predicate NoZeroLevel(b: Book) {
    && (forall p: u32 :: p in b.bids ==> b.bids[p] > 0)
    && (forall p: u32 :: p in b.asks ==> b.asks[p] > 0)
  }

  /** No zero quantity rests and no zero level exists. */
  ghost predicate Tight(b: Book) {
    NoZeroLevel(b) && forall id: u32 :: id in b.orders ==> b.orders[id].quantity > 0
  }

  predicate PositiveAdd(m: Message) {
    m.AddOrder? ==> m.quantity > 0
  }

  lemma PositiveLevelRests(b: Book, p: u32)
    requires Agrees(b)
    ensures LevelAt(b.bids, p) > 0 ==> RestsAt(b.orders, BUY, p)
    ensures LevelAt(b.asks, p) > 0 ==> RestsAt(b.orders, SELL, p)
  {
    SumZero(b.orders, At(BUY, p));
    SumZero(b.orders, At(SELL, p));
    if id: u32 :| Weight(b.orders, At(BUY, p), id) != 0 {
      assert RestsAt(b.orders, BUY, p);
    }
    if id: u32 :| Weight(b.orders, At(SELL, p), id) != 0 {
      assert RestsAt(b.orders, SELL, p);
    }
  }

  /** With no zero quantities the level keys are exactly the prices of the resting orders. */
  lemma TightIsExact(b: Book)
    requires Agrees(b) && Tight(b)
    ensures Supported(b) && Covered(b)
  {
    forall p: u32
      ensures p in b.bids <==> RestsAt(b.orders, BUY, p)
      ensures p in b.asks <==> RestsAt(b.orders, SELL, p)
    {
      PositiveLevelRests(b, p);
      if id: u32 :| id in b.orders && b.orders[id].side == BUY && b.orders[id].price == p {
        WeightInSum(b.orders, At(BUY, p), id);
      }
      if id: u32 :| id in b.orders && b.orders[id].side == SELL && b.orders[id].price == p {
        WeightInSum(b.orders, At(SELL, p), id);
      }
    }
  }

  lemma RemovalLeavesNoZero(b: Book, side: u8, price: u32, quantity: u32)
    requires NoZeroLevel(b)
    ensures NoZeroLevel(RemoveFromLevels(b, side, price, quantity))
  {
  }

  lemma AdditionLeavesNoZero(b: Book, o: RestingOrder)
    requires NoZeroLevel(b) && o.quantity > 0
    requires o.side == BUY ==> LevelAt(b.bids, o.price) + o.quantity < 0x1_0000_0000_0000_0000
    requires o.side == SELL ==> LevelAt(b.asks, o.price) + o.quantity < 0x1_0000_0000_0000_0000
    ensures NoZeroLevel(AddToLevels(b, o.side, o.price, o.quantity))
  {
  }

  lemma AddKeepsNoZero(b: Book, id: u32, o: RestingOrder)
    requires Agrees(b) && NoZeroLevel(b) && o.quantity > 0
    ensures NoZeroLevel(ApplyAdd(b, id, o))
  {
    AddIsExact(b, id, o);
    if id in b.orders {
      RemovalLeavesNoZero(b, b.orders[id].side, b.orders[id].price, b.orders[id].quantity);
    }
    AdditionLeavesNoZero(Stripped(b, id).(orders := b.orders[id := o]), o);
  }

  lemma ReduceKeepsTight(b: Book, id: u32, requested: u32)
    requires Tight(b) && id in b.orders
    ensures Tight(ReduceOrder(b, id, requested))
  {
    var o := b.orders[id];
    RemovalLeavesNoZero(b, o.side, o.price, Min(requested, o.quantity));
  }

  lemma ApplyKeepsTight(b: Book, m: Message)
    requires Agrees(b) && Tight(b) && PositiveAdd(m)
    ensures Tight(Apply(b, m).0)
  {
    if m.AddOrder? {
      AddKeepsNoZero(b, m.orderId, RestingOrder(m.side, m.price, m.quantity, m.timestamp));
    } else if m.CancelOrder? && m.orderId in b.orders {
      ReduceKeepsTight(b, m.orderId, CancelAmount(b.orders[m.orderId], m.quantity));
    } else if m.Execute? && m.orderId in b.orders {
      ReduceKeepsTight(b, m.orderId, m.execQty);
    }
  }

  lemma {:induction false} RunKeepsTight(b: Book, ms: seq<Message>)
    requires Agrees(b) && Tight(b)
    requires forall i :: 0 <= i < |ms| ==> PositiveAdd(ms[i])
    ensures Agrees(ApplyAll(b, ms)) && Tight(ApplyAll(b, ms))
  {
    RunKeepsAgreement(b, ms);
    if |ms| > 0 {
      RunKeepsTight(b, ms[..|ms| - 1]);
      ApplyKeepsTight(ApplyAll(b, ms[..|ms| - 1]), ms[|ms| - 1]);
    }
  }

  // ---------------------------------------------------------------------------------------------
  // Zero quantities: what still holds, what fails, and exactly when.

  function SideLevels(b: Book, side: u8): Levels {
    if side == BUY then b.bids else if side == SELL then b.asks else map[]
  }

  /** A price the targeted order did not rest at keeps its orders. */
  lemma OthersStillRest(b: Book, m: Message, side: u8, p: u32)
    requires RestsAt(b.orders, side, p)
    requires m.Quote? || m.orderId !in b.orders || !Selects(At(side, p), b.orders[m.orderId])
    ensures RestsAt(Apply(b, m).0.orders, side, p)
  {
    var id: u32 :| id in b.orders && b.orders[id].side == side && b.orders[id].price == p;
    assert Apply(b, m).0.orders[id] == b.orders[id];
  }

  predicate AddsAt(m: Message, side: u8, p: u32) {
    m.AddOrder? && m.side == side && m.price == p
  }

  /** Where a level found after a message comes from: a positive rest, a new add, or no change. */
  lemma LevelOrigin(b: Book, m: Message, side: u8, p: u32)
    requires (side == BUY || side == SELL) && p in SideLevels(Apply(b, m).0, side)
    ensures
      || SideLevels(Apply(b, m).0, side)[p] > 0
      || AddsAt(m, side, p)
      || (p in SideLevels(b, side) && (m.Quote? || m.orderId !in b.orders || !Selects(At(side, p), b.orders[m.orderId])))
  {
  }

  lemma SupportAt(b: Book, m: Message, side: u8, p: u32)
    requires Supported(b) && Agrees(Apply(b, m).0) && (side == BUY || side == SELL)
    requires p in SideLevels(Apply(b, m).0, side)
    ensures RestsAt(Apply(b, m).0.orders, side, p)
  {
    LevelOrigin(b, m, side, p);
    if SideLevels(Apply(b, m).0, side)[p] > 0 {
      PositiveLevelRests(Apply(b, m).0, p);
    } else if AddsAt(m, side, p) {
      assert Apply(b, m).0.orders[m.orderId].side == side;
    } else {
      OthersStillRest(b, m, side, p);
    }
  }

  /** No level outlives its orders, zero quantities or not. */
  lemma ApplyKeepsSupport(b: Book, m: Message)
    requires Agrees(b) && Supported(b)
    ensures Supported(Apply(b, m).0)
  {
    ApplyKeepsAgreement(b, m);
    var b' := Apply(b, m).0;
    forall p: u32
      ensures p in b'.bids ==> RestsAt(b'.orders, BUY, p)
      ensures p in b'.asks ==> RestsAt(b'.orders, SELL, p)
    {
      if p in SideLevels(b', BUY) { SupportAt(b, m, BUY, p); }
      if p in SideLevels(b', SELL) { SupportAt(b, m, SELL, p); }
    }
  }

  lemma {:induction false} RunKeepsSupport(b: Book, ms: seq<Message>)
    requires Agrees(b) && Supported(b)
    ensures Agrees(ApplyAll(b, ms)) && Supported(ApplyAll(b, ms))
  {
    RunKeepsAgreement(b, ms);
    if |ms| > 0 {
      RunKeepsSupport(b, ms[..|ms| - 1]);
      ApplyKeepsSupport(ApplyAll(b, ms[..|ms| - 1]), ms[|ms| - 1]);
    }
  }

  /** The guard of the erasing branch of subtractLevel, with another order left behind at that level. */
  ghost predicate Strands(b: Book, m: Message) {
    !m.Quote? && m.orderId in b.orders &&
    var o := b.orders[m.orderId];
    && (o.side == BUY || o.side == SELL)
    && LevelAt(SideLevels(b, o.side), o.price) <= TakenFrom(o, m)
    && !(m.AddOrder? && m.side == o.side && m.price == o.price)
    && RestsAt(b.orders - {m.orderId}, o.side, o.price)
  }

  lemma StrandedIsUncovered(b: Book, m: Message)
    requires Agrees(b) && Strands(b, m)
    ensures !Covered(Apply(b, m).0)
  {
    var o := b.orders[m.orderId];
    var b' := Apply(b, m).0;
    var j: u32 :| j in b.orders - {m.orderId} && b.orders[j].side == o.side && b.orders[j].price == o.price;
    assert b'.orders[j] == b.orders[j];
    assert RestsAt(b'.orders, o.side, o.price);
    assert o.price !in SideLevels(b', o.side);
  }

  lemma LevelStays(b: Book, m: Message, side: u8, p: u32)
    requires Agrees(b) && (side == BUY || side == SELL) && p in SideLevels(b, side)
    requires !m.Quote? && m.orderId in b.orders && Selects(At(side, p), b.orders[m.orderId])
      ==> TakenFrom(b.orders[m.orderId], m) < LevelAt(SideLevels(b, side), p)
    ensures p in SideLevels(Apply(b, m).0, side)
  {
  }

  /** Every resting order has its level after a message exactly when the message does not erase a
      level under another order. */
  lemma CoverKeptIff(b: Book, m: Message)
    requires Agrees(b) && Covered(b)
    ensures Covered(Apply(b, m).0) <==> !Strands(b, m)
  {
    var b' := Apply(b, m).0;
    if Strands(b, m) {
      StrandedIsUncovered(b, m);
    } else {
      forall side: u8, p: u32 | (side == BUY || side == SELL) && RestsAt(b'.orders, side, p)
        ensures p in SideLevels(b', side)
      {
        var id: u32 :| id in b'.orders && b'.orders[id].side == side && b'.orders[id].price == p;
        if m.AddOrder? && m.orderId == id {
        } else if !m.Quote? && m.orderId == id {
          assert RestsAt(b.orders, side, p);
          WeightInSum(b.orders, At(side, p), id);
          LevelStays(b, m, side, p);
        } else {
          assert b.orders[id] == b'.orders[id];
          assert RestsAt(b.orders, side, p);
          if m.AddOrder? && m.side == side && m.price == p {
          } else {
            if !m.Quote? && m.orderId in b.orders && Selects(At(side, p), b.orders[m.orderId]) {
              assert (b.orders - {m.orderId})[id] == b.orders[id];
              assert RestsAt(b.orders - {m.orderId}, side, p);
            }
            LevelStays(b, m, side, p);
          }
        }
      }
      forall p: u32
        ensures RestsAt(b'.orders, BUY, p) ==> p in b'.bids
        ensures RestsAt(b'.orders, SELL, p) ==> p in b'.asks
      {
        assert SideLevels(b', BUY) == b'.bids && SideLevels(b', SELL) == b'.asks;
      }
    }
  }

  /** A run the source accepts in which "a level exists iff an order rests there" fails: an order of
      quantity 0 is left without its level. */
  lemma ZeroQuantityStrands()
    ensures var (add0, add5) := (AddOrder(0, 1, BUY, 100, 0, FAKE), AddOrder(0, 2, BUY, 100, 5, FAKE));
      var b := ApplyAll(EMPTY_BOOK, [add0, add5, Execute(0, 2, 5, 100)]);
      RestsAt(b.orders, BUY, 100) && 100 !in b.bids && BestBid(b).None?
  {
    var (m1, m2, m3) := (AddOrder(0, 1, BUY, 100, 0, FAKE), AddOrder(0, 2, BUY, 100, 5, FAKE), Execute(0, 2, 5, 100));
    ApplyAllPush(EMPTY_BOOK, [], m1);
    ApplyAllPush(EMPTY_BOOK, [m1], m2);
    ApplyAllPush(EMPTY_BOOK, [m1, m2], m3);
    assert [] + [m1] == [m1] && [m1] + [m2] == [m1, m2] && [m1, m2] + [m3] == [m1, m2, m3];
    var b := ApplyAll(EMPTY_BOOK, [m1, m2, m3]);
    assert b.orders[1].side == BUY;
    assert b.bids == map[];
  }

  // ---------------------------------------------------------------------------------------------
  // The top of the book.

  /** p is the best price on the side among the resting orders: greatest for bids, least for asks. */
  ghost predicate BestResting(orders: Orders, side: u8, p: u32) {
    && RestsAt(orders, side, p)
    && forall id: u32 :: id in orders && orders[id].side == side ==>
         if side == BUY then orders[id].price <= p else p <= orders[id].price
  }

  /** bestBid and bestAsk read off the index what a scan of the orders would find. */
  lemma BestPricesAreScans(b: Book, p: u32, q: u32)
    requires Agrees(b) && Supported(b) && Covered(b)
    ensures BestBid(b) == Some(Level(p, q)) <==>
      BestResting(b.orders, BUY, p) && q == Min(Sum(b.orders, At(BUY, p)), U32_MAX)
    ensures BestAsk(b) == Some(Level(p, q)) <==>
      BestResting(b.orders, SELL, p) && q == Min(Sum(b.orders, At(SELL, p)), U32_MAX)
    ensures BestBid(b).None? <==> forall id: u32 :: id in b.orders ==> b.orders[id].side != BUY
    ensures BestAsk(b).None? <==> forall id: u32 :: id in b.orders ==> b.orders[id].side != SELL
  {
    forall id: u32 | id in b.orders
      ensures b.orders[id].side == BUY ==> b.orders[id].price in b.bids
      ensures b.orders[id].side == SELL ==> b.orders[id].price in b.asks
    {
      assert RestsAt(b.orders, b.orders[id].side, b.orders[id].price);
    }
    if b.bids != map[] {
      assert RestsAt(b.orders, BUY, MaxKey(b.bids));
    }
    if b.asks != map[] {
      assert RestsAt(b.orders, SELL, MinKey(b.asks));
    }
  }

  /** After any run of positive adds and arbitrary other messages, from the empty book. */
  lemma TopOfBookOverRuns(ms: seq<Message>, p: u32, q: u32)
    requires forall i :: 0 <= i < |ms| ==> PositiveAdd(ms[i])
    ensures var b := ApplyAll(EMPTY_BOOK, ms);
      && (BestBid(b) == Some(Level(p, q)) <==>
          BestResting(b.orders, BUY, p) && q == Min(Sum(b.orders, At(BUY, p)), U32_MAX) && q > 0)
      && (BestAsk(b) == Some(Level(p, q)) <==>
          BestResting(b.orders, SELL, p) && q == Min(Sum(b.orders, At(SELL, p)), U32_MAX) && q > 0)
      && (BestBid(b).None? <==> forall id: u32 :: id in b.orders ==> b.orders[id].side != BUY)
      && (BestAsk(b).None? <==> forall id: u32 :: id in b.orders ==> b.orders[id].side != SELL)
  {
    EmptyAgrees();
    RunKeepsTight(EMPTY_BOOK, ms);
    var b := ApplyAll(EMPTY_BOOK, ms);
    TightIsExact(b);
    BestPricesAreScans(b, p, q);
    assert BestBid(b) == Some(Level(p, q)) ==> b.bids[p] > 0;
    assert BestAsk(b) == Some(Level(p, q)) ==> b.asks[p] > 0;
  }
}
