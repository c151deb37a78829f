/** The two threads joined by the wire, as objects: what they do is a run of the replication model. */
module System {
  import opened Words
  import opened MarketData
  import opened BookModel
  import opened BookTheorems
  import opened GeneratorModel
  import opened Generator
  import opened UdpFrame
  import opened UdpSender
  import opened WirePath
  import opened Replication
  import opened Strategy
  import opened Requote

  const BUFFER_LEN := 1024

  /** What the outside world decides in one turn of the exchange loop. */
  datatype Turn = Turn(call: Call, nicAccepts: bool, arrives: bool, theo: real, now: u64, quoteAccepted: bool)

  function RoundOf(t: Turn, i: nat): Round {
    Round(t.call, t.nicAccepts && t.arrives, i % 0x1_0000)
  }

  function Rounds(turns: seq<Turn>): (r: seq<Round>)
    ensures |r| == |turns|
  {
    if |turns| == 0 then [] else Rounds(turns[..|turns| - 1]) + [RoundOf(turns[|turns| - 1], |turns| - 1)]
  }

  lemma TurnPush(link: Link, symbol: Symbol, turns: seq<Turn>, i: nat)
    requires i < |turns|
    ensures Run(link, symbol, Rounds(turns[..i + 1]), BUFFER_LEN)
         == Step(link, Run(link, symbol, Rounds(turns[..i]), BUFFER_LEN), RoundOf(turns[i], i), BUFFER_LEN)
  {
    assert turns[..i + 1][..i] == turns[..i];
    assert Rounds(turns[..i + 1])[..i] == Rounds(turns[..i]);
  }

  ghost predicate SideRests(orders: Orders, side: u8) {
    exists id: u32 :: id in orders && orders[id].side == side
  }

  /** With positive adds a side of the index is empty exactly when no order rests on it. */
  lemma SidesOfIndex(b: Book)
    requires Agrees(b) && Tight(b)
    ensures b.bids != map[] <==> SideRests(b.orders, 66)
    ensures b.asks != map[] <==> SideRests(b.orders, 83)
  {
    TightIsExact(b);
    if id: u32 :| id in b.orders && b.orders[id].side == 66 {
      assert RestsAt(b.orders, BUY, b.orders[id].price);
    }
    if id: u32 :| id in b.orders && b.orders[id].side == 83 {
      assert RestsAt(b.orders, SELL, b.orders[id].price);
    }
    if b.bids != map[] {
      assert RestsAt(b.orders, BUY, MaxKey(b.bids));
    }
    if b.asks != map[] {
      assert RestsAt(b.orders, SELL, MinKey(b.asks));
    }
  }

  /** The update priced in a turn, if its frame got through, was accepted and left some 'B' and some 'S'
      order resting. */
  ghost function PricedBy(link: Link, w: World, t: Turn, i: nat): seq<Update> {
    var m := NextPacket(w.gen, t.call, BUFFER_LEN).message;
    if m.None? || !t.nicAccepts || !t.arrives then []
    else
      var (book, applied) := Received(link, w.book, m.value, i % 0x1_0000);
      if applied && SideRests(book.orders, 66) && SideRests(book.orders, 83) then [Update(t.theo, t.now)] else []
  }

  lemma PricedByIndex(link: Link, w: World, t: Turn, i: nat)
    requires Plain(w)
    ensures var m := NextPacket(w.gen, t.call, BUFFER_LEN).message;
      var r := RoundOf(t, i);
      PricedBy(link, w, t, i) ==
        if m.None? || !r.delivered then []
        else
          var (book, applied) := Received(link, w.book, m.value, r.ipId);
          if applied && book.bids != map[] && book.asks != map[] then [Update(t.theo, t.now)] else []
  {
    StepKeepsPlain(link, w, RoundOf(t, i), BUFFER_LEN);
    SidesOfIndex(Step(link, w, RoundOf(t, i), BUFFER_LEN).book);
  }

  ghost function PricedOver(link: Link, symbol: Symbol, turns: seq<Turn>): seq<Update> {
    if |turns| == 0 then []
    else
      var front, i := turns[..|turns| - 1], |turns| - 1;
      PricedOver(link, symbol, front) + PricedBy(link, Run(link, symbol, Rounds(front), BUFFER_LEN), turns[i], i)
  }

  lemma PricedPush(link: Link, symbol: Symbol, turns: seq<Turn>, i: nat)
    requires i < |turns|
    ensures PricedOver(link, symbol, turns[..i + 1]) ==
      PricedOver(link, symbol, turns[..i])
      + PricedBy(link, Run(link, symbol, Rounds(turns[..i]), BUFFER_LEN), turns[i], i)
  {
    assert turns[..i + 1][..i] == turns[..i];
  }

  lemma TurnEmits(w: World, c: Call)
    requires PoolOk(w.gen.pool)
    ensures var b := NextPacket(w.gen, c, BUFFER_LEN);
      b.message.Some? && PoolOk(b.gen.pool)
  {
    NextPacketEmits(w.gen, c, BUFFER_LEN);
    EmitKeepsOk(w.gen, NextPacket(w.gen, c, BUFFER_LEN).message.value, NextPacket(w.gen, c, BUFFER_LEN).gen);
  }

  /** Build a packet into the buffer and take it out again. */
  method BuildPayload(host: Endian, gen: PacketGenerator, buffer: array<u8>, c: Call) returns (payload: seq<u8>)
    requires gen.Valid() && buffer.Length == BUFFER_LEN && PoolOk(gen.State().pool)
    modifies gen, gen.resting, buffer
    ensures gen.Valid()
    ensures var b := NextPacket(old(gen.State()), c, BUFFER_LEN);
      b.message.Some? && gen.State() == b.gen && PoolOk(b.gen.pool) && payload == Packet(host, b.message.value)
  {
    TurnEmits(World(gen.State(), EMPTY_BOOK, []), c);
    ghost var p := Packet(host, NextPacket(gen.State(), c, BUFFER_LEN).message.value);
    var len := gen.NextPacketInto(host, buffer, BUFFER_LEN, c);
    payload := buffer[..len];
    assert buffer[..][..|p|] == p;
  }

  /** The exchange half of a turn: build a packet into the buffer and send it. */
  method ExchangeTurn(host: Endian, gen: PacketGenerator, sender: EfviUdpSender, buffer: array<u8>, t: Turn)
    returns (rc: int, frame: seq<u8>)
    requires gen.Valid() && sender.Valid() && buffer.Length == BUFFER_LEN && sender.pool != buffer
    requires PoolOk(gen.State().pool)
    modifies gen, gen.resting, sender, sender.pool, buffer
    ensures gen.Valid() && sender.Valid() && |sender.sent| == |old(sender.sent)| + 1
    ensures rc == if t.nicAccepts then 0 else -1
    ensures var b := NextPacket(old(gen.State()), t.call, BUFFER_LEN);
      && b.message.Some? && gen.State() == b.gen && PoolOk(b.gen.pool)
      && frame == Frame(sender.addresses, Packet(host, b.message.value), |old(sender.sent)| % 0x1_0000)
  {
    var payload := BuildPayload(host, gen, buffer, t.call);
    var handed;
    rc, handed := sender.Send(payload, t.nicAccepts);
    frame := handed.value;
  }

  /** The parts are separate objects. */
  ghost predicate Separate(gen: PacketGenerator, sender: EfviUdpSender, strategy: StrategyThread, buffer: array<u8>) {
    {gen, gen.resting, sender, sender.pool, buffer} !! strategy.Repr() && sender.pool != buffer
  }

  /** One turn of both loops: the frame, if it survives, reaches the strategy; a failed send is not
      retried. */
  method PlayTurn(link: Link, gen: PacketGenerator, sender: EfviUdpSender, strategy: StrategyThread, buffer: array<u8>,
                  t: Turn, ghost w: World)
    requires gen.Valid() && sender.Valid() && strategy.Valid() && Separate(gen, sender, strategy, buffer)
    requires buffer.Length == BUFFER_LEN && sender.addresses == link.addresses && strategy.host == link.reader
    requires strategy.n < strategy.total
    requires gen.State() == w.gen && strategy.book.State() == w.book && Plain(w)
    modifies gen, gen.resting, sender, sender.pool, buffer, strategy.Repr()
    ensures gen.Valid() && sender.Valid() && strategy.Valid()
    ensures |sender.sent| == |old(sender.sent)| + 1
    ensures strategy.n == old(strategy.n) + (if t.nicAccepts && t.arrives then 1 else 0)
    ensures !t.nicAccepts || !t.arrives ==> strategy.book.State() == old(strategy.book.State())
    ensures var w' := Step(link, w, RoundOf(t, |old(sender.sent)|), BUFFER_LEN);
      gen.State() == w'.gen && strategy.book.State() == w'.book && Plain(w')
    ensures strategy.priced == old(strategy.priced) + PricedBy(link, w, t, |old(sender.sent)|)
  {
    StepKeepsPlain(link, w, RoundOf(t, |sender.sent|), BUFFER_LEN);
    PricedByIndex(link, w, t, |sender.sent|);
    var rc, frame := ExchangeTurn(link.writer, gen, sender, buffer, t);
    if rc == 0 && t.arrives {
      strategy.OnFrame(frame, t.theo, t.now, t.quoteAccepted);
    }
  }

  /** Any number of turns, from objects in the state of the run so far. */
  method PlayTurns(link: Link, symbol: Symbol, gen: PacketGenerator, sender: EfviUdpSender, strategy: StrategyThread,
                   buffer: array<u8>, turns: seq<Turn>)
    requires gen.Valid() && sender.Valid() && strategy.Valid() && Separate(gen, sender, strategy, buffer)
    requires buffer.Length == BUFFER_LEN && sender.addresses == link.addresses && strategy.host == link.reader
    requires strategy.n == 0 && strategy.total == |turns| && sender.sent == []
    requires gen.State() == InitialGen(symbol) && strategy.book.State() == EMPTY_BOOK && strategy.priced == []
    modifies gen, gen.resting, sender, sender.pool, buffer, strategy.Repr()
    ensures gen.Valid() && strategy.Valid()
    ensures var w := Run(link, symbol, Rounds(turns), BUFFER_LEN);
      gen.State() == w.gen && strategy.book.State() == w.book
    ensures strategy.priced == PricedOver(link, symbol, turns) && strategy.host == link.reader
  {
    ghost var w := World(gen.State(), strategy.book.State(), []);
    EmptyAgrees();
    var i := 0;
    assert turns[..0] == [];
    while i < |turns|
      invariant 0 <= i <= |turns|
      invariant gen.Valid() && sender.Valid() && strategy.Valid()
      invariant |sender.sent| == i && strategy.n <= i
      invariant w == Run(link, symbol, Rounds(turns[..i]), BUFFER_LEN)
      invariant gen.State() == w.gen && strategy.book.State() == w.book && Plain(w)
      invariant strategy.priced == PricedOver(link, symbol, turns[..i])
    {
      PricedPush(link, symbol, turns, i);
      TurnPush(link, symbol, turns, i);
      PlayTurn(link, gen, sender, strategy, buffer, turns[i], w);
      w := Step(link, w, RoundOf(turns[i], i), BUFFER_LEN);
      i := i + 1;
    }
    assert turns[..i] == turns;
  }

  lemma TrafficBounded(host: Endian, priced: seq<Update>)
    ensures priced != [] ==>
      (|QuotePackets(host, Quotes(priced))| - 1) as real * 0.01 <= TotalVariation(priced)
  {
    if priced != [] {
      QuotesBoundedByMovement(priced);
    }
  }

  /** Both threads' objects, in their first states. */
  method Connect(link: Link, name: seq<u8>, total: nat)
    returns (gen: PacketGenerator, sender: EfviUdpSender, strategy: StrategyThread, buffer: array<u8>)
    ensures gen.Valid() && sender.Valid() && strategy.Valid() && Separate(gen, sender, strategy, buffer)
    ensures fresh({gen, gen.resting, sender, sender.pool, buffer} + strategy.Repr())
    ensures buffer.Length == BUFFER_LEN && sender.addresses == link.addresses && strategy.host == link.reader
    ensures strategy.n == 0 && strategy.total == total && sender.sent == []
    ensures gen.State() == InitialGen(PadSymbol(name)) && strategy.book.State() == EMPTY_BOOK && strategy.priced == []
  {
    gen := new PacketGenerator(name);
    sender := new EfviUdpSender(link.addresses);
    strategy := new StrategyThread(link.reader, total, link.addresses);
    buffer := new u8[BUFFER_LEN](_ => 0);
  }

  /** Both threads from construction: pool and book are those of the run the replication theorems speak
      about, and the quotes sent are those of the requote rule on the updates priced in that run, so
      that their number is bounded by the movement of those prices. */
  method PlayAll(link: Link, name: seq<u8>, turns: seq<Turn>) returns (gen: PacketGenerator, strategy: StrategyThread)
    ensures gen.Valid() && strategy.Valid()
    ensures var w := Run(link, PadSymbol(name), Rounds(turns), BUFFER_LEN);
      gen.State() == w.gen && strategy.book.State() == w.book
    ensures var priced := PricedOver(link, PadSymbol(name), turns);
      && strategy.egress.sent == QuotePackets(link.reader, Quotes(priced))
      && (forall k :: 0 <= k < |Quotes(priced)| ==> CarriesQuote(strategy.egress.sent[k], Quotes(priced)[k]))
      && (priced != [] ==> (|strategy.egress.sent| - 1) as real * 0.01 <= TotalVariation(priced))
  {
    var sender, buffer;
    gen, sender, strategy, buffer := Connect(link, name, |turns|);
    PlayTurns(link, PadSymbol(name), gen, sender, strategy, buffer, turns);
    TrafficBounded(link.reader, strategy.priced);
    PacketsCarryQuotes(link.reader, Quotes(strategy.priced));
  }
}
