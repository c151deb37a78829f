/** The strategy's quoting rule: quote again once the theoretical price has moved by a cent or more
    since the last quote. Prices are reals here, where the program uses doubles. */
module Requote {
  import opened Words
  import opened MarketData

  const REQUOTE_THRESHOLD := 0.01

  /** A theoretical price computed after a book update, and the clock at that moment. */
  datatype Update = Update(theo: real, now: u64)

  function Abs(x: real): real {
    if x < 0.0 then -x else x
  }

  predicate ShouldRequote(haveQuote: bool, theo: real, lastQuoted: real) {
    !haveQuote || Abs(theo - lastQuoted) >= REQUOTE_THRESHOLD
  }

  function LastTheo(quotes: seq<Update>): real {
    if quotes == [] then 0.0 else quotes[|quotes| - 1].theo
  }

  /** The updates quoted over a run of them. */
  function Quotes(updates: seq<Update>): seq<Update> {
    if |updates| == 0 then []
    else
      var front, u := Quotes(updates[..|updates| - 1]), updates[|updates| - 1];
      if ShouldRequote(front != [], u.theo, LastTheo(front)) then front + [u] else front
  }

  /** The total distance the prices travel. */
  function TotalVariation(updates: seq<Update>): real {
    if |updates| <= 1 then 0.0
    else TotalVariation(updates[..|updates| - 1]) + Abs(updates[|updates| - 1].theo - updates[|updates| - 2].theo)
  }

  lemma {:induction false} QuotesPush(updates: seq<Update>, u: Update)
    ensures Quotes(updates + [u]) ==
      var front := Quotes(updates);
      if ShouldRequote(front != [], u.theo, LastTheo(front)) then front + [u] else front
  {
    assert (updates + [u])[..|updates|] == updates;
  }

  /** After every update the price is within a cent of the last quote. */
  lemma {:induction false} LastQuoteIsClose(updates: seq<Update>)
    requires |updates| > 0
    ensures var q := Quotes(updates);
      q != [] && Abs(LastTheo(updates) - LastTheo(q)) < 0.01
  {
    var front, u := updates[..|updates| - 1], updates[|updates| - 1];
    assert updates == front + [u];
    QuotesPush(front, u);
  }

  /** Consecutive quotes are at least a cent apart, and each is one of the updates. */
  lemma {:induction false} QuotesAreApart(updates: seq<Update>)
    ensures var q := Quotes(updates);
      && (forall k :: 0 < k < |q| ==> Abs(q[k].theo - q[k - 1].theo) >= 0.01)
      && (forall k :: 0 <= k < |q| ==> q[k] in updates)
      && (|updates| > 0 ==> |q| > 0 && q[0] == updates[0])
  {
    if |updates| > 0 {
      QuotesAreApart(updates[..|updates| - 1]);
    }
  }

  lemma {:induction false} ApartVariation(q: seq<Update>)
    requires forall k :: 0 < k < |q| ==> Abs(q[k].theo - q[k - 1].theo) >= 0.01
    requires |q| > 0
    ensures (|q| - 1) as real * 0.01 <= TotalVariation(q)
  {
    if |q| > 1 {
      ApartVariation(q[..|q| - 1]);
    }
  }

  lemma VariationPush(q: seq<Update>, u: Update)
    requires |q| > 0
    ensures TotalVariation(q + [u]) == TotalVariation(q) + Abs(u.theo - LastTheo(q))
  {
    assert (q + [u])[..|q|] == q;
  }

  lemma Triangle(x: real, y: real, z: real)
    ensures Abs(x - z) <= Abs(x - y) + Abs(y - z)
  {
  }

  /** The quotes travel no further than the prices do. */
  lemma {:induction false} QuotesTravelLess(updates: seq<Update>)
    requires |updates| > 0
    ensures var q := Quotes(updates);
      q != [] && TotalVariation(q) + Abs(LastTheo(updates) - LastTheo(q)) <= TotalVariation(updates)
  {
    var front, u := updates[..|updates| - 1], updates[|updates| - 1];
    assert updates == front + [u];
    QuotesPush(front, u);
    if front != [] {
      QuotesTravelLess(front);
      VariationPush(front, u);
      VariationPush(Quotes(front), u);
      Triangle(u.theo, LastTheo(front), LastTheo(Quotes(front)));
    }
  }

  /** Quote traffic is bounded by price movement: n quotes cost at least (n - 1) cents of travel. */
  lemma {:induction false} QuotesBoundedByMovement(updates: seq<Update>)
    requires |updates| > 0
    ensures (|Quotes(updates)| - 1) as real * 0.01 <= TotalVariation(updates)
  {
    QuotesAreApart(updates);
    ApartVariation(Quotes(updates));
    QuotesTravelLess(updates);
  }

  // ---------------------------------------------------------------------------------------------
  // encodeQuote.

  const QUOTE_QTY: u32 := 100
  const HALF_SPREAD := 0.02
  const U32_RANGE := 0x1_0000_0000

  /** std::lround: to nearest, halves away from zero. */
  function Lround(x: real): int {
    if x >= 0.0 then (x + 0.5).Floor else -((-x + 0.5).Floor)
  }

  /** static_cast<PriceCents> of the rounded number of cents. */
  function DollarsToCents(dollars: real): u32 {
    Lround(dollars * 100.0) % U32_RANGE
  }

  function QuoteFor(u: Update): Message {
    Quote(u.now, DollarsToCents(u.theo - HALF_SPREAD), QUOTE_QTY, DollarsToCents(u.theo + HALF_SPREAD), QUOTE_QTY)
  }

  function QuotePackets(host: Endian, quotes: seq<Update>): seq<seq<u8>> {
    seq(|quotes|, i requires 0 <= i < |quotes| => Packet(host, QuoteFor(quotes[i])))
  }

  lemma QuotePacketsPush(host: Endian, quotes: seq<Update>, u: Update)
    ensures QuotePackets(host, quotes + [u]) == QuotePackets(host, quotes) + [Packet(host, QuoteFor(u))]
  {
  }

  /** Before the cast the two prices are four cents apart, or five around zero on a half cent. */
  lemma RoundedSpread(theo: real)
    ensures var (bid, ask) := (Lround((theo - HALF_SPREAD) * 100.0), Lround((theo + HALF_SPREAD) * 100.0));
      ask - bid == 4 || (ask - bid == 5 && bid < 0 < ask)
  {
    var x := theo * 100.0;
    assert (theo - HALF_SPREAD) * 100.0 == x - 2.0 && (theo + HALF_SPREAD) * 100.0 == x + 2.0;
    var f := (x + 0.5).Floor;
    assert (x + 2.0 + 0.5).Floor == f + 2;
    assert (x - 2.0 + 0.5).Floor == f - 2;
  }

  /** n is the integer nearest to x, and of two equally near the one further from zero. */
  predicate Nearest(x: real, n: int) {
    && -0.5 <= n as real - x <= 0.5
    && (n as real - x == 0.5 ==> x > 0.0) && (n as real - x == -0.5 ==> x < 0.0)
  }

  lemma LroundIsNearest(x: real)
    ensures Nearest(x, Lround(x))
  {
  }

  /** A price field: the nearest number of cents, modulo 2^32. */
  ghost predicate InCents(cents: real, price: u32) {
    exists n: int :: Nearest(cents, n) && price == n % 0x1_0000_0000
  }

  /** What any reader makes of a quote packet: a Quote of 100 on either side at the update's own clock,
      two cents under its price and two over. */
  ghost predicate CarriesQuote(packet: seq<u8>, u: Update) {
    forall reader: Endian ::
      var m := ParsePacket(reader, packet);
      && m.Some? && m.value.Quote?
      && m.value.timestamp == u.now && m.value.bidQty == 100 && m.value.askQty == 100
      && InCents(u.theo * 100.0 - 2.0, m.value.bidPrice) && InCents(u.theo * 100.0 + 2.0, m.value.askPrice)
  }

  lemma QuoteInCents(u: Update)
    ensures QuoteFor(u).timestamp == u.now && QuoteFor(u).bidQty == 100 && QuoteFor(u).askQty == 100
    ensures InCents(u.theo * 100.0 - 2.0, QuoteFor(u).bidPrice)
    ensures InCents(u.theo * 100.0 + 2.0, QuoteFor(u).askPrice)
  {
    var x := u.theo * 100.0;
    assert (u.theo - HALF_SPREAD) * 100.0 == x - 2.0 && (u.theo + HALF_SPREAD) * 100.0 == x + 2.0;
    LroundIsNearest(x - 2.0);
    LroundIsNearest(x + 2.0);
  }

  lemma PacketCarriesQuote(host: Endian, u: Update)
    ensures CarriesQuote(Packet(host, QuoteFor(u)), u)
  {
    QuoteInCents(u);
    forall reader: Endian
      ensures ParsePacket(reader, Packet(host, QuoteFor(u))) == Some(QuoteFor(u))
    {
      PacketRoundTrip(host, reader, QuoteFor(u), []);
      assert Packet(host, QuoteFor(u)) + [] == Packet(host, QuoteFor(u));
    }
  }

  /** One packet for each quote, carrying it. */
  lemma PacketsCarryQuotes(host: Endian, quotes: seq<Update>)
    ensures var packets := QuotePackets(host, quotes);
      |packets| == |quotes| && forall k :: 0 <= k < |quotes| ==> CarriesQuote(packets[k], quotes[k])
  {
    forall k | 0 <= k < |quotes|
      ensures CarriesQuote(QuotePackets(host, quotes)[k], quotes[k])
    {
      PacketCarriesQuote(host, quotes[k]);
    }
  }

  /** From a cent and a half up to the end of the u32 range each price is the nearest number of cents. */
  lemma QuotedPricesAreNear(u: Update)
    requires 0.015 < u.theo < 42_949_672.935
    ensures var (q, cents) := (QuoteFor(u), u.theo * 100.0);
      && -0.5 < q.bidPrice as real - (cents - 2.0) <= 0.5
      && -0.5 < q.askPrice as real - (cents + 2.0) <= 0.5
  {
    var x := u.theo * 100.0;
    assert (u.theo - HALF_SPREAD) * 100.0 == x - 2.0 && (u.theo + HALF_SPREAD) * 100.0 == x + 2.0;
    var (bid, ask) := (Lround(x - 2.0), Lround(x + 2.0));
    assert 0 <= bid <= ask < U32_RANGE;
  }

  lemma LroundAtLeast(y: real, n: int)
    ensures Lround(y) >= n <==> if n > 0 then y >= n as real - 0.5 else y > n as real - 0.5
  {
  }

  /** The bid rounds below k * 2^32 cents and the ask does not: the cast takes k * 2^32 off the ask
      and less off the bid. */
  predicate Straddles(theo: real, k: int) {
    var (cents, wrap) := (theo * 100.0, (k * U32_RANGE) as real);
    if k > 0 then wrap - 2.5 <= cents < wrap + 1.5 else wrap - 2.5 < cents <= wrap + 1.5
  }

  lemma StraddlesIff(theo: real, k: int)
    ensures Straddles(theo, k) <==>
      Lround((theo - HALF_SPREAD) * 100.0) < k * U32_RANGE <= Lround((theo + HALF_SPREAD) * 100.0)
  {
    var x := theo * 100.0;
    assert (theo - HALF_SPREAD) * 100.0 == x - 2.0 && (theo + HALF_SPREAD) * 100.0 == x + 2.0;
    LroundAtLeast(x - 2.0, k * U32_RANGE);
    LroundAtLeast(x + 2.0, k * U32_RANGE);
  }

  /** Two numbers four apart, or five around zero, after the cast. */
  lemma CastSpread(bid: int, ask: int)
    requires ask - bid == 4 || (ask - bid == 5 && bid < 0 < ask)
    ensures var (b, a) := (bid % U32_RANGE, ask % U32_RANGE);
      && (bid < ask / U32_RANGE * U32_RANGE ==> b > a)
      && (bid >= ask / U32_RANGE * U32_RANGE ==> a - b == 4)
  {
  }

  lemma OnlyMultiple(bid: int, ask: int, k: int)
    requires ask - bid <= 5 && bid < k * U32_RANGE <= ask
    ensures k == ask / U32_RANGE
  {
  }

  /** The quote sent has its ask exactly four cents over its bid unless the two prices straddle a
      multiple of 2^32 cents, zero included; then the bid is over the ask. */
  lemma QuotedSpreadIff(u: Update)
    ensures var q := QuoteFor(u);
      && (q.askPrice as int - q.bidPrice as int == 4 <==> !exists k: int :: Straddles(u.theo, k))
      && (q.bidPrice > q.askPrice <==> exists k: int :: Straddles(u.theo, k))
  {
    var (bid, ask) := (Lround((u.theo - HALF_SPREAD) * 100.0), Lround((u.theo + HALF_SPREAD) * 100.0));
    RoundedSpread(u.theo);
    CastSpread(bid, ask);
    StraddlesIff(u.theo, ask / U32_RANGE);
    if k: int :| Straddles(u.theo, k) {
      StraddlesIff(u.theo, k);
      OnlyMultiple(bid, ask, k);
    }
  }

  /** For prices from zero up to where the ask leaves the u32 range: exactly those over a cent and a half. */
  lemma OrdinarySpreadIff(u: Update)
    requires 0.0 <= u.theo < 42_949_672.935
    ensures var q := QuoteFor(u);
      q.askPrice as int - q.bidPrice as int == 4 <==> u.theo > 0.015
  {
    QuotedSpreadIff(u);
    assert Straddles(u.theo, 0) <==> u.theo <= 0.015;
    forall k: int | k != 0 ensures !Straddles(u.theo, k) {
    }
  }

  /** A theoretical price of a tenth of a cent: the bid, two cents under zero, wraps. */
  lemma LowPriceCrosses(now: u64)
    ensures var q := QuoteFor(Update(0.001, now));
      q.bidPrice == 0xffff_fffe && q.askPrice == 2
  {
  }
}
