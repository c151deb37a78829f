/** PacketGenerator: a 512-slot array changed in place, scanned by loops, and a byte buffer written
    by each accepted step. */
module Generator {
  import opened Words
  import opened MarketData
  import opened GeneratorModel
  import opened Memory

  class PacketGenerator {
    const resting: array<PoolOrder>
    var restingCount: nat
    var midPrice: i32
    var nextOrderId: u32
    var symbol: Symbol
    var messagesGenerated: u64

    ghost predicate Valid()
      reads this
    {
      resting.Length == POOL_SIZE && restingCount <= POOL_SIZE
    }

    /** The live prefix of the pool and the counters. */
    ghost function State(): Gen
      requires Valid()
      reads this, resting
    {
      Gen(resting[..restingCount], midPrice, nextOrderId, symbol, messagesGenerated)
    }

    constructor (name: seq<u8>)
      ensures Valid() && fresh(resting)
      ensures State() == InitialGen(PadSymbol(name)) == Gen([], 15000, 1, PadSymbol(name), 0)
    {
      resting := new PoolOrder[POOL_SIZE](_ => PoolOrder(0, 0, 0, 0));
      restingCount, midPrice, nextOrderId, messagesGenerated := 0, INITIAL_MID, 1, 0;
      symbol := PadSymbol(name);
    }

    method BuildAddOrder(d: Draw) returns (m: Option<Message>)
      requires Valid()
      modifies this, resting
      ensures Valid() && Built(State(), m) == BuildAdd(old(State()), d)
    {
      if restingCount >= resting.Length { return None; }
      var side := if d.buy then BUY else SELL;
      var price := RandPrice(midPrice, side, d.rawDistance);
      var qty := RandQty(d.rawQty);
      var oid := nextOrderId;
      nextOrderId := (nextOrderId + 1) % 0x1_0000_0000;
      if nextOrderId == 0 {
        nextOrderId := 1;
      }
      resting[restingCount] := PoolOrder(oid, price, qty, side);
      restingCount := restingCount + 1;
      m := Some(AddOrder(d.now, oid, side, price, qty, symbol));
    }

    method BuildCancelOrder(d: Draw) returns (m: Option<Message>)
      requires Valid()
      modifies this, resting
      ensures Valid() && Built(State(), m) == BuildCancel(old(State()), d)
    {
      if restingCount == 0 { return None; }
      var idx := d.pick % restingCount;
      var oid := resting[idx].id;
      resting[idx] := resting[restingCount - 1];
      restingCount := restingCount - 1;
      m := Some(CancelOrder(d.now, oid, 0));
    }

    method BuildExecuteOrder(d: Draw) returns (m: Option<Message>)
      requires Valid()
      modifies this, resting
      ensures Valid() && Built(State(), m) == BuildExecute(old(State()), d)
    {
      var side := if d.buy then BUY else SELL;
      var bestPrice, bestIdx := BestOrder(side);
      ScanInRange(resting[..restingCount], side, restingCount);
      if bestIdx < 0 { return None; }
      var order := resting[bestIdx];
      var execQty := RandQty(d.rawQty);
      if execQty >= order.quantity {
        execQty := order.quantity;
        resting[bestIdx] := resting[restingCount - 1];
        restingCount := restingCount - 1;
      } else {
        resting[bestIdx] := order.(quantity := order.quantity - execQty);
      }
      m := Some(Execute(d.now, order.id, execQty, bestPrice));
    }

    /** The scan of buildExecute: best price on the side, and the index of the first order at it, or -1. */
    method BestOrder(side: u8) returns (bestPrice: u32, bestIdx: int)
      requires Valid() && (side == BUY || side == SELL)
      ensures -1 <= bestIdx < restingCount
      ensures Scan(resting[..restingCount], side, restingCount)
           == (bestPrice, if bestIdx < 0 then None else Some(bestIdx))
    {
      bestPrice := if side == BUY then 0 else U32_MAX;
      bestIdx := -1;
      var i := 0;
      while i < restingCount
        invariant i <= restingCount && -1 <= bestIdx < i
        invariant Scan(resting[..restingCount], side, i) == (bestPrice, if bestIdx < 0 then None else Some(bestIdx))
      {
        if resting[i].side == side {
          if (side == BUY && resting[i].price > bestPrice) || (side == SELL && resting[i].price < bestPrice) {
            bestPrice := resting[i].price;
            bestIdx := i;
          }
        }
        i := i + 1;
      }
    }

    method BuildQuoteMessage(now: u64) returns (m: Option<Message>)
      requires Valid()
      ensures Built(State(), m) == BuildQuote(State(), now)
    {
      var bestBid: u32, bestAsk: u32 := 0, U32_MAX;
      var bidQty: u32, askQty: u32 := 0, 0;
      ghost var pool := resting[..restingCount];
      var i := 0;
      while i < restingCount
        invariant i <= restingCount
        invariant Scan(pool, BUY, i).0 == bestBid && Scan(pool, SELL, i).0 == bestAsk
        invariant bidQty == QuantityFound(pool, BUY, i)
        invariant askQty == QuantityFound(pool, SELL, i)
      {
        var order := resting[i];
        ScanInRange(pool, BUY, i);
        ScanInRange(pool, SELL, i);
        if order.side == BUY && order.price > bestBid {
          bestBid := order.price;
          bidQty := order.quantity;
        }
        if order.side == SELL && order.price < bestAsk {
          bestAsk := order.price;
          askQty := order.quantity;
        }
        i := i + 1;
      }
      if bestBid == 0 {
        bestBid := ToPrice(midPrice - TICK);
      }
      if bestAsk == U32_MAX {
        bestAsk := ToPrice(midPrice + TICK);
      }
      m := Some(Quote(now, bestBid, bidQty, bestAsk, askQty));
    }

    /** The switch of nextPacket: one build call. */
    method BuildOne(d: Draw) returns (m: Option<Message>)
      requires Valid()
      modifies this, resting
      ensures Valid() && Built(State(), m) == Build(old(State()), d)
    {
      match d.event {
        case AddEvent => m := BuildAddOrder(d);
        case CancelEvent => m := BuildCancelOrder(d);
        case ExecuteEvent => m := BuildExecuteOrder(d);
        case QuoteEvent => m := BuildQuoteMessage(d.now);
      }
    }

    /** Write what was built, if anything, and count it once written. */
    method WriteBuilt(host: Endian, dst: array<u8>, capacity: nat, m: Option<Message>) returns (len: int)
      requires Valid() && capacity <= dst.Length
      modifies this`messagesGenerated, dst
      ensures Valid()
      ensures var b := Written(Built(old(State()), m), capacity);
        && (len > 0 <==> b.message.Some?)
        && State() == (if b.message.Some? then Counted(b).gen else b.gen)
        && Outcome(host, b.message, len, old(dst[..]), dst[..])
    {
      if m.None? { return -1; }
      len := WriteMessage(host, dst, capacity, m.value);
      if len > 0 {
        messagesGenerated := (messagesGenerated + 1) % 0x1_0000_0000_0000_0000;
      }
    }

    /** One pass of the attempt loop. */
    method Attempt(host: Endian, dst: array<u8>, capacity: nat, d: Draw) returns (len: int)
      requires Valid() && capacity <= dst.Length
      modifies this, resting, dst
      ensures Valid()
      ensures var b := Written(Build(old(State()), d), capacity);
        && (len > 0 <==> b.message.Some?)
        && State() == (if b.message.Some? then Counted(b).gen else b.gen)
        && Outcome(host, b.message, len, old(dst[..]), dst[..])
    {
      var m := BuildOne(d);
      len := WriteBuilt(host, dst, capacity, m);
    }

    /** The attempt loop: the first attempt that writes a packet ends it. */
    method TryAttempts(host: Endian, dst: array<u8>, capacity: nat, draws: FourDraws) returns (len: int)
      requires Valid() && capacity <= dst.Length
      modifies this, resting, dst
      ensures Valid()
      ensures var b := Attempts(old(State()), draws, capacity);
        State() == b.gen && Outcome(host, b.message, len, old(dst[..]), dst[..])
    {
      var i := 0;
      while i < 4
        invariant 0 <= i <= 4 && Valid()
        invariant Attempts(old(State()), draws, capacity) == Attempts(State(), draws[i..], capacity)
        invariant dst[..] == old(dst[..])
      {
        assert draws[i..] == [draws[i]] + draws[i + 1..];
        AttemptsUnfold(State(), draws[i], draws[i + 1..], capacity);
        len := Attempt(host, dst, capacity, draws[i]);
        if len > 0 { return; }
        i := i + 1;
      }
      len := -1;
    }

    /** evolveMid, past its draw. */
    method EvolveMidPrice(rawMid: i32)
      requires Valid()
      modifies this`midPrice
      ensures Valid() && State() == EvolveMid(old(State()), rawMid)
    {
      midPrice := if rawMid < TICK then TICK else rawMid;
    }

    /** -1 for a null buffer or when nothing fitted, else the length of the packet now in the buffer. */
    method NextPacketInto(host: Endian, dst: array?<u8>, capacity: nat, c: Call) returns (len: int)
      requires Valid()
      requires dst != null ==> capacity <= dst.Length
      modifies this, resting, if dst == null then {} else {dst}
      ensures Valid()
      ensures dst == null ==> len == -1 && State() == old(State())
      ensures dst != null ==>
        var b := NextPacket(old(State()), c, capacity);
        State() == b.gen && Outcome(host, b.message, len, old(dst[..]), dst[..])
    {
      if dst == null { return -1; }
      if messagesGenerated % 50 == 0 {
        EvolveMidPrice(c.rawMid);
      }
      len := TryAttempts(host, dst, capacity, c.attempts);
      if len > 0 { return; }
      var q := BuildQuoteMessage(c.now);
      len := WriteMessage(host, dst, capacity, q.value);
    }
  }

  lemma {:induction false} AttemptsUnfold(g: Gen, d: Draw, rest: seq<Draw>, capacity: nat)
    ensures var b := Written(Build(g, d), capacity);
      Attempts(g, [d] + rest, capacity) ==
        if b.message.Some? then Counted(b)
        else Attempts(b.gen, rest, capacity)
  {
    assert ([d] + rest)[1..] == rest;
  }

  /** What the caller of a write sees: -1 and an untouched buffer, or the packet at the front of the
      buffer and nothing else changed. */
  ghost predicate Outcome(host: Endian, m: Option<Message>, len: int, before: seq<u8>, after: seq<u8>) {
    if m.None? then len == -1 && after == before
    else
      && len == |Packet(host, m.value)|
      && |Packet(host, m.value)| <= |before|
      && after == Packet(host, m.value) + before[|Packet(host, m.value)|..]
  }

  /** setSymbol: at most eight characters, padded with spaces. */
  function PadSymbol(name: seq<u8>): (symbol: Symbol)
    ensures |name| >= 8 ==> symbol == name[..8]
    ensures |name| < 8 ==> symbol[..|name|] == name && forall i :: |name| <= i < 8 ==> symbol[i] == 32
  {
    seq(SYMBOL_LEN, i requires 0 <= i < SYMBOL_LEN => if i < |name| then name[i] else 32)
  }

  ghost function QuantityFound(pool: seq<PoolOrder>, side: u8, n: nat): u32
    requires n <= |pool|
  {
    ScanInRange(pool, side, n);
    var best := Scan(pool, side, n).1;
    if best.None? then 0 else pool[best.value].quantity
  }

  /** Two memcpys, one after the other from the front. */
  method CopyTwo(dst: array<u8>, a: seq<u8>, b: seq<u8>)
    requires |a| + |b| <= dst.Length
    modifies dst
    ensures dst[..] == a + b + old(dst[..])[|a| + |b|..]
  {
    PatchTwice(dst[..], a, b);
    CopyInto(dst, 0, a);
    CopyInto(dst, |a|, b);
  }

  method WriteMessage(host: Endian, dst: array<u8>, capacity: nat, m: Message) returns (len: int)
    requires capacity <= dst.Length
    modifies dst
    ensures Outcome(host, if capacity < |Packet(host, m)| then None else Some(m), len, old(dst[..]), dst[..])
  {
    if capacity < 2 + Size(m) { return -1; }
    var prefix := Store(host, 2, NetworkOrder(host, 2, Size(m)));
    var payload := Encode(host, m);
    CopyTwo(dst, prefix, payload);
    len := 2 + Size(m);
  }
}
