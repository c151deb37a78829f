/** The strategy thread's frame handler: apply, and requote when the theoretical price has moved.
    The price itself (volatility and Black-Scholes) comes in as an arbitrary number. */
module Strategy {
  import opened Words
  import opened MarketData
  import opened BookModel
  import opened OrderBook
  import opened UdpFrame
  import opened UdpSender
  import opened WirePath
  import opened Requote

  class StrategyThread {
    const host: Endian
    const total: nat
    const book: SimpleOrderBook
    const egress: EfviUdpSender
    var n: nat
    var lastQuotedTheo: real
    var haveQuote: bool
    /** The updates priced so far, and those quoted. */
    ghost var priced: seq<Update>
    ghost var quoted: seq<Update>

    ghost function Repr(): set<object> {
      {this, book, egress, egress.pool}
    }

    /** The two variables of the requote rule stand for the history of quotes. */
    ghost predicate RuleHolds()
      reads this
    {
      && quoted == Quotes(priced)
      && haveQuote == (quoted != [])
      && (haveQuote ==> lastQuotedTheo == LastTheo(quoted))
    }

    ghost predicate Valid()
      reads Repr()
    {
      book.Valid() && egress.Valid() && n <= total && RuleHolds() && egress.sent == QuotePackets(host, quoted)
    }

    constructor (host: Endian, total: nat, a: Addresses)
      ensures Valid() && fresh(Repr()) && book.State() == EMPTY_BOOK && n == 0
      ensures priced == [] && egress.sent == []
      ensures this.host == host && this.total == total
    {
      this.host, this.total := host, total;
      book := new SimpleOrderBook();
      egress := new EfviUdpSender(a);
      n, lastQuotedTheo, haveQuote := 0, 0.0, false;
      priced, quoted := [], [];
    }

    /** The requote decision, taken and remembered. */
    method Decide(u: Update) returns (shouldRequote: bool)
      requires RuleHolds()
      modifies this`lastQuotedTheo, this`haveQuote, this`priced, this`quoted
      ensures RuleHolds() && priced == old(priced) + [u]
      ensures quoted == if shouldRequote then old(quoted) + [u] else old(quoted)
      ensures quoted != [] && Abs(u.theo - LastTheo(quoted)) < 0.01
    {
      QuotesPush(priced, u);
      LastQuoteIsClose(priced + [u]);
      shouldRequote := !haveQuote || Abs(u.theo - lastQuotedTheo) >= 0.01;
      if shouldRequote {
        lastQuotedTheo := u.theo;
        haveQuote := true;
        quoted := quoted + [u];
      }
      priced := priced + [u];
    }

    /** encodeQuote and egress.send. */
    method EmitQuote(u: Update, nicAccepts: bool)
      requires egress.Valid()
      modifies egress, egress.pool
      ensures egress.Valid() && egress.sent == old(egress.sent) + [Packet(host, QuoteFor(u))]
    {
      var m := QuoteFor(u);
      var payload := Packet(host, m);
      var rc, handed := egress.Send(payload, nicAccepts);
    }

    /** Reprice and decide; what counts as quoted is that a send was attempted, not that it went out. */
    method OnPrice(u: Update, nicAccepts: bool)
      requires egress.Valid() && RuleHolds() && egress.sent == QuotePackets(host, quoted)
      modifies this`lastQuotedTheo, this`haveQuote, this`priced, this`quoted, egress, egress.pool
      ensures egress.Valid() && RuleHolds() && priced == old(priced) + [u]
      ensures quoted != [] && Abs(u.theo - LastTheo(quoted)) < 0.01
      ensures egress.sent == QuotePackets(host, quoted)
      ensures egress.sent == old(egress.sent) +
        (if |quoted| > |old(quoted)| then [Packet(host, QuoteFor(u))] else [])
      ensures CarriesQuote(Packet(host, QuoteFor(u)), u)
    {
      var shouldRequote := Decide(u);
      QuotePacketsPush(host, old(quoted), u);
      PacketCarriesQuote(host, u);
      if shouldRequote {
        EmitQuote(u, nicAccepts);
      }
    }

    /** Strip, parse and apply; is there a price on both sides afterwards? */
    method ApplyFrame(frame: seq<u8>) returns (priceable: bool)
      requires book.Valid()
      modifies book
      ensures book.Valid()
      ensures var (b, applied) := Receive(host, old(book.State()), frame);
        book.State() == b && priceable == (applied && b.bids != map[] && b.asks != map[])
    {
      if |frame| <= HEADER_LEN { return false; }
      var applied := book.ApplyNetworkPacket(host, frame[HEADER_LEN..]);
      if !applied { return false; }
      var bid := book.BestBidLevel();
      var ask := book.BestAskLevel();
      priceable := bid.Some? && ask.Some?;
    }

    /** The poll callback. */
    method OnFrame(frame: seq<u8>, theo: real, now: u64, nicAccepts: bool)
      requires Valid()
      modifies Repr()
      ensures Valid()
      ensures egress.sent == QuotePackets(host, Quotes(priced))
      ensures old(n) >= total ==> n == old(n) && book.State() == old(book.State()) && priced == old(priced)
      ensures old(n) < total ==>
        var (b, applied) := Receive(host, old(book.State()), frame);
        && n == old(n) + 1 && book.State() == b
        && priced == old(priced) + (if applied && b.bids != map[] && b.asks != map[] then [Update(theo, now)] else [])
    {
      if n >= total { return; }
      n := n + 1;
      var priceable := ApplyFrame(frame);
      if priceable {
        OnPrice(Update(theo, now), nicAccepts);
      }
    }
  }
}
