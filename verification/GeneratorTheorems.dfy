/** How each packet follows from the draws: what every build call takes, sends and leaves, and which
    attempt of a nextPacket call decides it. */
module GeneratorTheorems {
  import opened Words
  import opened MarketData
  import opened BookModel
  import opened GeneratorModel

  // ---------------------------------------------------------------------------------------------
  // The order a scan picks.

  lemma {:induction false} ScanFindsBest(pool: seq<PoolOrder>, side: u8, n: nat)
    requires n <= |pool|
    ensures var (p, i) := Scan(pool, side, n);
      && (forall k :: 0 <= k < n && pool[k].side == side ==> !Better(side, pool[k].price, p))
      && (if i.None? then p == Sentinel(side)
          else
            && i.value < n && pool[i.value].side == side && pool[i.value].price == p && Better(side, p, Sentinel(side))
            && forall k :: 0 <= k < i.value && pool[k].side == side ==> pool[k].price != p)
  {
    if n > 0 { ScanFindsBest(pool, side, n - 1); }
  }

  /** The first of the orders at the best price of a side, greatest for 'B' and least for 'S', that
      price not being 0 or 2^32 - 1 respectively. */
  ghost predicate Picked(pool: seq<PoolOrder>, side: u8, i: nat) {
    && i < |pool| && pool[i].side == side
    && pool[i].price != (if side == 66 then 0 else 0xffff_ffff)
    && (forall k :: 0 <= k < |pool| && pool[k].side == side ==>
          if side == 66 then pool[k].price <= pool[i].price else pool[k].price >= pool[i].price)
    && (forall k :: 0 <= k < i && pool[k].side == side ==> pool[k].price != pool[i].price)
  }

  lemma ScanPicks(pool: seq<PoolOrder>, side: u8, i: nat)
    requires side == BUY || side == SELL
    ensures Scan(pool, side, |pool|).1 == Some(i) <==> Picked(pool, side, i)
  {
    ScanFindsBest(pool, side, |pool|);
    if Picked(pool, side, i) {
      var (p, best) := Scan(pool, side, |pool|);
      assert !Better(side, pool[i].price, p);
      assert best.Some?;
      var j := best.value;
      assert pool[j].price == pool[i].price;
    }
  }

  /** The last order has moved to where order i was. */
  ghost predicate Vacated(pool: seq<PoolOrder>, pool': seq<PoolOrder>, i: nat)
    requires i < |pool|
  {
    && |pool'| == |pool| - 1
    && forall k :: 0 <= k < |pool'| ==> pool'[k] == if k == i then pool[|pool| - 1] else pool[k]
  }

  /** So the orders left are all the others, each as often as before. */
  lemma VacatedKeepsOthers(pool: seq<PoolOrder>, pool': seq<PoolOrder>, i: nat)
    requires i < |pool| && Vacated(pool, pool', i)
    ensures multiset(pool') == multiset(pool) - multiset{pool[i]}
  {
    var last := pool[|pool| - 1];
    assert pool == pool[..|pool| - 1] + [last];
    if i == |pool| - 1 {
      assert pool' == pool[..i];
    } else {
      assert pool' == pool[..i] + [last] + pool[i + 1..|pool| - 1];
      assert pool[..|pool| - 1] == pool[..i] + [pool[i]] + pool[i + 1..|pool| - 1];
    }
  }

  // ---------------------------------------------------------------------------------------------
  // One build call.

  /** A quantity draw between 1 and 9900 is taken as it is, and any other as the nearer end. */
  predicate QuantityFor(raw: int, qty: int) {
    && (1 <= raw <= 9900 ==> qty == raw)
    && (raw < 1 ==> qty == 1)
    && (raw > 9900 ==> qty == 9900)
  }

  /** An Add: no room at 512 orders; else the next id (2^32 - 1 is followed by 1), the drawn side, a
      price 100 to 2000 from the mid on that side, and the pool order it describes. */
  lemma AddDrawn(g: Gen, d: Draw)
    requires d.event.AddEvent?
    ensures var b := Build(g, d);
      if |g.pool| >= 512 then b == Built(g, None)
      else
        && b.message.Some? && b.message.value.AddOrder?
        && var m := b.message.value;
        && m.timestamp == d.now && m.orderId == g.nextId && m.symbol == g.symbol
        && m.side == (if d.buy then 66 else 83)
        && QuantityFor(d.rawQty, m.quantity)
        && (100 <= d.rawDistance <= 2000 ==>
              m.price == (if d.buy then g.mid - d.rawDistance else g.mid + d.rawDistance) % 0x1_0000_0000)
        && (d.rawDistance < 100 ==> m.price == (if d.buy then g.mid - 100 else g.mid + 100) % 0x1_0000_0000)
        && (d.rawDistance > 2000 ==> m.price == (if d.buy then g.mid - 2000 else g.mid + 2000) % 0x1_0000_0000)
        && b.gen.pool == g.pool + [PoolOrder(m.orderId, m.price, m.quantity, m.side)]
        && b.gen == g.(pool := b.gen.pool, nextId := if g.nextId == 0xffff_ffff then 1 else g.nextId + 1)
  {
  }

  /** A Cancel: nothing to cancel in an empty pool; else a full cancel of the drawn order, which goes. */
  lemma CancelDrawn(g: Gen, d: Draw)
    requires d.event.CancelEvent?
    ensures var b := Build(g, d);
      if |g.pool| == 0 then b == Built(g, None)
      else
        var i := d.pick % |g.pool|;
        && b.message == Some(CancelOrder(d.now, g.pool[i].id, 0))
        && Vacated(g.pool, b.gen.pool, i) && b.gen == g.(pool := b.gen.pool)
  {
  }

  /** What an execute of order i sends and leaves: the drawn quantity or what the order has, whichever
      is less; the order stays exactly when that leaves it something. */
  ghost predicate ExecutesOrder(g: Gen, d: Draw, i: nat, b: Built)
    requires i < |g.pool|
  {
    var o := g.pool[i];
    && b.message.Some? && b.message.value.Execute?
    && var m := b.message.value;
    && m.timestamp == d.now && m.orderId == o.id && m.execPrice == o.price
    && (1 <= d.rawQty <= 9900 ==> m.execQty == Min(d.rawQty, o.quantity))
    && (d.rawQty < 1 ==> m.execQty == Min(1, o.quantity))
    && (d.rawQty > 9900 ==> m.execQty == Min(9900, o.quantity))
    && b.gen == g.(pool := b.gen.pool)
    && (if m.execQty < o.quantity then b.gen.pool == g.pool[i := o.(quantity := o.quantity - m.execQty)]
        else Vacated(g.pool, b.gen.pool, i))
  }

  /** An Execute takes from the order the side's scan picks, and fails exactly when it picks none. */
  lemma ExecuteDrawn(g: Gen, d: Draw)
    requires d.event.ExecuteEvent?
    ensures var (b, side) := (Build(g, d), if d.buy then 66 else 83);
      && (forall i: nat :: Picked(g.pool, side, i) ==> ExecutesOrder(g, d, i, b))
      && ((forall i: nat :: !Picked(g.pool, side, i)) ==> b == Built(g, None))
  {
    var side: u8 := if d.buy then 66 else 83;
    var best := Scan(g.pool, side, |g.pool|).1;
    forall i: nat
      ensures best == Some(i) <==> Picked(g.pool, side, i)
    {
      ScanPicks(g.pool, side, i);
    }
    ScanInRange(g.pool, side, |g.pool|);
    if best.Some? {
      assert Picked(g.pool, side, best.value);
    }
  }

  /** One side of a Quote: the order the scan picks, or one tick off the mid with quantity 0. */
  ghost predicate QuotesOrder(g: Gen, side: u8, price: u32, qty: u32) {
    && (forall i: nat :: Picked(g.pool, side, i) ==> price == g.pool[i].price && qty == g.pool[i].quantity)
    && ((forall i: nat :: !Picked(g.pool, side, i)) ==>
          price == (if side == 66 then g.mid - 100 else g.mid + 100) % 0x1_0000_0000 && qty == 0)
  }

  lemma SideDrawn(g: Gen, side: u8)
    requires side == BUY || side == SELL
    ensures var (p, q) := QuoteSide(g, side); QuotesOrder(g, side, p, q)
  {
    var best := Scan(g.pool, side, |g.pool|).1;
    forall i: nat
      ensures best == Some(i) <==> Picked(g.pool, side, i)
    {
      ScanPicks(g.pool, side, i);
    }
    ScanFindsBest(g.pool, side, |g.pool|);
    if best.Some? {
      assert Picked(g.pool, side, best.value);
    }
  }

  /** A Quote changes nothing and carries both sides. */
  lemma QuoteDrawn(g: Gen, now: u64)
    ensures var b := BuildQuote(g, now);
      && b.gen == g && b.message.Some? && b.message.value.Quote? && b.message.value.timestamp == now
      && QuotesOrder(g, 66, b.message.value.bidPrice, b.message.value.bidQty)
      && QuotesOrder(g, 83, b.message.value.askPrice, b.message.value.askQty)
  {
    SideDrawn(g, BUY);
    SideDrawn(g, SELL);
  }

  // ---------------------------------------------------------------------------------------------
  // A whole call.

  /** Whether an attempt has something to send. */
  ghost predicate Possible(g: Gen, d: Draw) {
    match d.event
    case AddEvent => |g.pool| < 512
    case CancelEvent => |g.pool| > 0
    case ExecuteEvent => AnyPicked(g.pool, if d.buy then 66 else 83)
    case QuoteEvent => true
  }

  ghost predicate AnyPicked(pool: seq<PoolOrder>, side: u8) {
    exists i: nat :: Picked(pool, side, i)
  }

  ghost predicate FirstPossible(g: Gen, draws: seq<Draw>, k: nat) {
    k < |draws| && Possible(g, draws[k]) && forall j :: 0 <= j < k ==> !Possible(g, draws[j])
  }

  lemma BuildsIff(g: Gen, d: Draw)
    ensures Build(g, d).message.Some? <==> Possible(g, d)
    ensures Build(g, d).message.None? ==> Build(g, d).gen == g
    ensures d.event.QuoteEvent? ==> Build(g, d) == BuildQuote(g, d.now)
  {
    if d.event.ExecuteEvent? {
      ExecuteDrawn(g, d);
      assert AnyPicked(g.pool, if d.buy then 66 else 83) ==> Build(g, d).message.Some?;
    }
  }

  /** A build hands its packet over exactly when the packet fits; what it did to the generator stays. */
  lemma WrittenIff(host: Endian, b: Built, capacity: nat)
    ensures Written(b, capacity).gen == b.gen
    ensures Written(b, capacity).message ==
      if b.message.Some? && |Packet(host, b.message.value)| > capacity then None else b.message
  {
  }

  /** The first attempt with something to send ends the loop, and is counted. */
  lemma {:induction false} FirstPossibleDecides(g: Gen, draws: seq<Draw>, k: nat, capacity: nat)
    requires capacity >= 32 && FirstPossible(g, draws, k)
    ensures var b := Build(g, draws[k]);
      Attempts(g, draws, capacity) == b.(gen := b.gen.(messages := (b.gen.messages + 1) % 0x1_0000_0000_0000_0000))
    decreases k
  {
    BuildsIff(g, draws[0]);
    if k > 0 {
      FirstPossibleDecides(g, draws[1..], k - 1, capacity);
    }
  }

  lemma {:induction false} NonePossible(g: Gen, draws: seq<Draw>, capacity: nat)
    requires forall j :: 0 <= j < |draws| ==> !Possible(g, draws[j])
    ensures Attempts(g, draws, capacity) == Built(g, None)
    decreases |draws|
  {
    if |draws| > 0 {
      BuildsIff(g, draws[0]);
      NonePossible(g, draws[1..], capacity);
    }
  }

  /** What the attempts see: the mid redrawn before every fiftieth counted message, and not under 100. */
  function Before(g: Gen, c: Call): Gen {
    if g.messages % 50 != 0 then g else g.(mid := if c.rawMid >= 100 then c.rawMid else 100)
  }

  lemma PossibleCall(g: Gen, c: Call, k: nat, capacity: nat)
    requires capacity >= 32 && FirstPossible(Before(g, c), c.attempts, k)
    ensures var b := Build(Before(g, c), c.attempts[k]);
      NextPacket(g, c, capacity) == b.(gen := b.gen.(messages := (g.messages + 1) % 0x1_0000_0000_0000_0000))
  {
    FirstPossibleDecides(Before(g, c), c.attempts, k, capacity);
    BuildsIff(Before(g, c), c.attempts[k]);
    BuildKeepsCount(Before(g, c), c.attempts[k]);
  }

  /** With room for the largest packet, a call sends what the first possible of its four attempts
      builds, and counts it; with none possible it sends a quote that is not counted. */
  lemma PacketDrawn(g: Gen, c: Call, capacity: nat)
    requires capacity >= 32
    ensures forall k: nat :: FirstPossible(Before(g, c), c.attempts, k) ==>
      var b := Build(Before(g, c), c.attempts[k]);
      NextPacket(g, c, capacity) == b.(gen := b.gen.(messages := (g.messages + 1) % 0x1_0000_0000_0000_0000))
    ensures (forall j :: 0 <= j < 4 ==> !Possible(Before(g, c), c.attempts[j])) ==>
      NextPacket(g, c, capacity) == BuildQuote(Before(g, c), c.now)
  {
    forall k: nat | FirstPossible(Before(g, c), c.attempts, k)
      ensures var b := Build(Before(g, c), c.attempts[k]);
        NextPacket(g, c, capacity) == b.(gen := b.gen.(messages := (g.messages + 1) % 0x1_0000_0000_0000_0000))
    {
      PossibleCall(g, c, k, capacity);
    }
    if forall j :: 0 <= j < 4 ==> !Possible(Before(g, c), c.attempts[j]) {
      NonePossible(Before(g, c), c.attempts, capacity);
    }
  }

  lemma BuildKeepsCount(g: Gen, d: Draw)
    ensures Build(g, d).gen.messages == g.messages
  {
  }
}
