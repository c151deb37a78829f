# Verified model of the waler market-data path

waler simulates an exchange that streams market data to a strategy over kernel-bypass UDP. This
project models that path in Dafny and proves what each step keeps and what whole runs guarantee:

- **The order book** (`BookModel`, `BookTheorems`, `Interleaving`, `Acceptance`, `OrderBook`): orders by
  id with two price-level indexes kept beside them message by message, over u32 ids and quantities and
  u64 levels. The index always agrees with the orders it speeds up.
- **The packet generator** (`GeneratorModel`, `GeneratorTheorems`, `Generator`): a 512-slot pool changed by append,
  swap-remove and partial fill, each accepted step writing one packet, and how every field sent and
  every change of the pool follows from the draws. Random draws and clock readings
  are inputs; the clamps of the source are part of the model.
- **The wire** (`Words`, `MarketData`, `Memory`, `OnesComplement`, `UdpFrame`, `UdpSender`, `WirePath`):
  packed structs and their host and network images for either host byte order, the length prefix, the
  sixteen reused frame slots, the IPv4 checksum, padding and the header strip.
- **Replication** (`Replication`, `Lockstep`, `RunLimits`, `System`): generator, channel and book as one
  state machine whose channel may lose any frame, the exact reach of its theorems, and the object-level
  program that is a run of it.
- **Numeric cores** (`Requote`, `Strategy`, `LeastSquares`, `Percentile`, `Deviation`, `Stats`): the
  requote rule and the quotes it sends, the centred least-squares fit, and the latency summary, with
  `double` idealised as `real`.

`dafny verify dfyconfig.toml` checks the project. Classes are specified by functions on values; the
theorems are lemmas about those functions.

## What came out differently from the comments or the obvious reading

- `nextPacket` changes the pool before it finds that the packet does not fit
  (src/waler/PacketGenerator.hpp:222-232, 183-185). Book and pool stay together for every run exactly
  when the buffer has at least 32 bytes (`Lockstep.CapacityIff`).
- After 2^32 - 1 adds the order id wraps to 1. One Add keeps book and pool together exactly when its id
  is not still resting (`Lockstep.MessageKeepsLockstepIff`). A run of 2^32 adds in which nothing is lost
  can end with the first order's id in the pool twice (`RunLimits.IdWrapBreaks`); all lossless runs of at
  most n adds keep book and pool together exactly when n is below 2^32 (`RunLimits.AddLimitIff`).
- "A level exists iff an order rests there" fails once a zero quantity is added
  (`BookTheorems.ZeroQuantityStrands`); a message keeps "every order has its level" exactly when it does
  not erase a level under another order (`BookTheorems.CoverKeptIff`). Reading levels with absent as 0
  needs no such condition.
- Adjacent messages of different orders commute up to levels that read 0. The books are equal exactly
  when neither adds a zero quantity at a level that the other takes an order off and that the two of them
  empty (`Interleaving.DifferentOrdersCommuteIff`).
- The scans of `buildExecute` and `buildQuote` start from 0 and 2^32 - 1 and cannot see an order at that
  price. The generator can draw such a bid (distance equal to the mid) and never such an ask
  (`Lockstep.SentinelPrices`). A run's first call can leave such a bid on top of the book, refused to
  every bid-side Execute (`RunLimits.SentinelRun`). A bid drawn further away than the mid wraps to the
  top of the u32 range (`Lockstep.DrawnPrices`).
- A payload shorter than 18 bytes is padded, but a padded payload is one byte too short for the smallest
  packet, so framing is transparent for every payload, even one whose length prefix does not fit
  (`WirePath.Transparent`).
- The comment on `send` says its caller may retry when the ring is full
  (src/waler/EfviUdpSender.hpp:36-39), and the slot template comment lists the fields patched per send
  without the identification (src/waler/EfviUdpSender.cpp:88-90). The model follows the code: a refused
  transmit has used up its slot and identification, the identification is patched, and the exchange loop
  does not retry.
- `stats_compute` sums in 64 bits: the mean is right exactly when the sum does not wrap
  (`Percentile.MeanIsExactIff`), and can otherwise fall below every sample (`Percentile.MeanCanWrap`).
  The same sum gives the mean that the standard deviation is taken about: its variance is the true one
  exactly when the sum does not wrap, and above it otherwise (`Deviation.VarianceIsExactIff`).
- The quote sent has its ask four cents over its bid except when the bid rounds below a multiple of 2^32
  cents, zero included, that the ask reaches: the cast to u32 then puts the bid over the ask
  (`Requote.QuotedSpreadIff`). From zero up to the end of the u32 range that is every price of at most a
  cent and a half (`Requote.OrdinarySpreadIff`): at a tenth of a cent the bid sent is 4294967294 and the
  ask 2 (`Requote.LowPriceCrosses`).

## Model

| member | source | states |
|---|---|---|
| Words.NetworkLoad | src/waler/SimpleOrderBook.hpp:468-487 | a native load followed by fromNetwork gives the big-endian value on either host |
| Words.NetworkStore | src/waler/PacketGenerator.hpp:158-177 | toNetwork followed by a native store leaves the big-endian bytes on either host |
| Words.FirstByteIsHighest | src/waler/SimpleOrderBook.hpp:468-487 | the network reading of a byte string counts its first byte highest |
| MarketData.CopyImage | src/waler/SimpleOrderBook.hpp:344-353 | for all four messages and all field values, memcpy out and back in gives the same message |
| MarketData.ImageCopy | src/waler/SimpleOrderBook.hpp:410-417 | an accepted byte string is exactly the image of the message it decodes to |
| MarketData.EncodeIsBigEndian | src/waler/PacketGenerator.hpp:224-231 | the bytes written do not depend on the writing host |
| MarketData.DecodeIsBigEndian | src/waler/SimpleOrderBook.hpp:355-408 | the message read does not depend on the reading host |
| MarketData.PacketRoundTrip | src/waler/PacketGenerator.hpp:179-191 | any reader parses any writer's packet back to its message, whatever bytes follow |
| MarketData.PacketInjective | src/waler/PacketGenerator.hpp:179-191 | packets are equal exactly when their messages are |
| MarketData.ParsedIsPacket | src/waler/SimpleOrderBook.hpp:311-325 | whatever parses begins with the packet of the message it parses to |
| MarketData.ParseAccepts | src/waler/SimpleOrderBook.hpp:311-325 | a byte string parses iff the prefix fits, the type is known and the size is that type's |
| Acceptance.AcceptedShape | src/waler/SimpleOrderBook.hpp:355-408 | every field of every type is the big-endian number at its own offset of the accepted packet, side and symbol its bytes; it has at least 19 bytes |
| Acceptance.AcceptsExactly | src/waler/SimpleOrderBook.hpp:261-325 | applyPacket returns true iff the packet is well formed and a Cancel or Execute names a resting id; otherwise nothing changes |
| Acceptance.ThreeWaysIn | src/waler/SimpleOrderBook.hpp:292-325 | applyPacket on the wire bytes, applyMessage on the host image and apply on the message agree |
| BookModel.SumBound | src/waler/SimpleOrderBook.hpp:335-337 | no sum of resting quantities reaches 2^64 |
| BookModel.SumChange | src/waler/SimpleOrderBook.hpp:247-259 | changing one order changes each level sum by the change of that order's weight |
| BookModel.ExtremeKeysExist | src/waler/SimpleOrderBook.hpp:335-336 | a non-empty ordered map has a first key in either order |
| BookTheorems.SumFlow | src/waler/SimpleOrderBook.hpp:247-281 | resting quantity after + removed = before + added, in all and per side and price |
| BookTheorems.LevelFlow | src/waler/SimpleOrderBook.hpp:419-459 | the same balance for the levels: each removal takes the same from order and level, no addition wraps, no subtraction stops short |
| BookTheorems.AddIsExact | src/waler/SimpleOrderBook.hpp:419-427 | the u64 += is exact, the replace path included |
| BookTheorems.ApplyKeepsAgreement | src/waler/SimpleOrderBook.hpp:247-290 | every message keeps level = sum of the orders resting there |
| BookTheorems.RunKeepsAgreement | src/waler/SimpleOrderBook.hpp:247-290 | so does every run, with replaced ids, over-cancels, unknown ids, zero quantities and unknown sides |
| BookTheorems.LevelsNeverWrap | src/waler/SimpleOrderBook.hpp:419-427 | in every state reachable from empty the level addition stays below 2^64 |
| BookTheorems.Conservation | src/waler/SimpleOrderBook.hpp:439-459 | over a run: added = resting + removed, in all and at every level of each side |
| BookTheorems.TightIsExact | src/waler/SimpleOrderBook.hpp:448-459 | with positive quantities the level keys are exactly the prices of the resting orders |
| BookTheorems.RunKeepsTight | src/waler/SimpleOrderBook.hpp:439-459 | runs whose adds are positive keep every order and every level positive |
| BookTheorems.ApplyKeepsSupport | src/waler/SimpleOrderBook.hpp:448-459 | a level key is always the price of some resting order, zero quantities or not |
| BookTheorems.RunKeepsSupport | src/waler/SimpleOrderBook.hpp:448-459 | so after any run no level outlives its orders |
| BookTheorems.CoverKeptIff | src/waler/SimpleOrderBook.hpp:454-457 | every order still has its level after a message iff the message does not erase a level under another order |
| BookTheorems.ZeroQuantityStrands | src/waler/SimpleOrderBook.hpp:454-457 | a three-message run after which an order rests without its level |
| BookTheorems.BestPricesAreScans | src/waler/SimpleOrderBook.hpp:46-60 | bestBid and bestAsk are the best resting price with min(sum, 2^32 - 1), and nothing iff the side is empty |
| BookTheorems.TopOfBookOverRuns | src/waler/SimpleOrderBook.hpp:46-60 | the same, with positive quantity, after every run of positive adds and any other messages |
| Interleaving.ApplyIsOrderStep | src/waler/SimpleOrderBook.hpp:247-281 | the book acts on each order as a machine that sees only that order's messages |
| Interleaving.RunIsOrderRun | src/waler/SimpleOrderBook.hpp:247-281 | a whole run, order by order, state and answers, is that machine on the projected messages |
| Interleaving.RunIsQuoteRun | src/waler/SimpleOrderBook.hpp:283-290 | last_quote_ is the last Quote message of the run |
| Interleaving.InterleavingsReadTheSame | src/waler/SimpleOrderBook.hpp:247-290 | interleavings with the same per-order sequences give equal answers, orders and level readings |
| Interleaving.InterleavingIndependence | src/waler/SimpleOrderBook.hpp:247-290 | with positive adds they give equal books, level keys included |
| Interleaving.DifferentOrdersCommuteIff | src/waler/SimpleOrderBook.hpp:247-281 | in every book whose index agrees, adjacent messages of different orders keep their answers when swapped, and leave the same book iff they do not clash: no zero add at a level the other takes from and the two empty |
| Interleaving.DifferentOrdersCommute | src/waler/SimpleOrderBook.hpp:247-281 | so positive adds always commute with messages of other orders |
| Interleaving.ZeroAddDoesNotCommute | src/waler/SimpleOrderBook.hpp:419-459 | a clashing pair whose two orders leave different level keys |
| OrderBook.SimpleOrderBook.constructor | src/waler/SimpleOrderBook.hpp:339-342 | a new book is empty and its index agrees |
| OrderBook.SimpleOrderBook.Clear | src/waler/SimpleOrderBook.hpp:35-40 | clearing gives the empty book |
| OrderBook.SimpleOrderBook.OrderCount | src/waler/SimpleOrderBook.hpp:42-44 | the number of resting orders |
| OrderBook.SimpleOrderBook.BestBidLevel | src/waler/SimpleOrderBook.hpp:46-52 | the best bid of the index, and of the orders when every order has its level |
| OrderBook.SimpleOrderBook.BestAskLevel | src/waler/SimpleOrderBook.hpp:54-60 | the best ask likewise |
| OrderBook.SimpleOrderBook.AddToSide | src/waler/SimpleOrderBook.hpp:419-427 | changes one level of one side, and nothing for an unknown side |
| OrderBook.SimpleOrderBook.Subtract | src/waler/SimpleOrderBook.hpp:448-459 | subtracts from a level or erases it |
| OrderBook.SimpleOrderBook.RemoveFromSide | src/waler/SimpleOrderBook.hpp:429-437 | subtracts on the side the order is on |
| OrderBook.SimpleOrderBook.Reduce | src/waler/SimpleOrderBook.hpp:439-446 | takes at most the order's quantity off order and level, erasing an emptied order |
| OrderBook.SimpleOrderBook.ApplyOne | src/waler/SimpleOrderBook.hpp:247-290 | keeps Valid() (index agreement, no orphan level), gives the modelled book and answer, balances every sum, and leaves a refused message without effect |
| OrderBook.SimpleOrderBook.ApplyHostMessage | src/waler/SimpleOrderBook.hpp:292-309 | applies exactly-sized host-order bytes, or changes nothing |
| OrderBook.SimpleOrderBook.ApplyNetworkPacket | src/waler/SimpleOrderBook.hpp:311-325 | applies a length-prefixed packet, or changes nothing |
| GeneratorModel.ScanInRange | src/waler/PacketGenerator.hpp:259-273 | a scan that finds an order reports its own index, side and price |
| GeneratorTheorems.ScanFindsBest | src/waler/PacketGenerator.hpp:259-269 | the scan finds the first order at the best price beyond its starting value, or reports none |
| GeneratorTheorems.ScanPicks | src/waler/PacketGenerator.hpp:259-273 | the scan returns index i iff order i is the first at the best price of its side, that price not the starting value |
| GeneratorTheorems.AddDrawn | src/waler/PacketGenerator.hpp:209-233 | an Add is built iff fewer than 512 orders rest; id, side, price at the clamped distance from the mid, clamped quantity, clock and symbol are the ones drawn, and the pool gets the order described |
| GeneratorTheorems.CancelDrawn | src/waler/PacketGenerator.hpp:235-252 | a Cancel is built iff the pool is not empty; it names the order at the drawn index, whose place the last order takes |
| GeneratorTheorems.ExecuteDrawn | src/waler/PacketGenerator.hpp:254-293 | an Execute is of the first order at its side's best price, for the drawn quantity (clamped to 1..9900) or what the order has if less; the order stays, reduced, iff that is below its quantity |
| GeneratorTheorems.QuoteDrawn | src/waler/PacketGenerator.hpp:295-328 | each side of a Quote is price and quantity of the first order at the best price, or a tick off the mid with 0; nothing changes |
| GeneratorTheorems.VacatedKeepsOthers | src/waler/PacketGenerator.hpp:243-244 | a swap-remove keeps every other order, each as often as before |
| GeneratorTheorems.PacketDrawn | src/waler/PacketGenerator.hpp:54-88 | a call sends what the first of its four attempts with something to send builds, and counts it, else an uncounted quote; the mid is redrawn iff the count is a multiple of 50, and is then at least 100 |
| GeneratorTheorems.WrittenIff | src/waler/PacketGenerator.hpp:179-185 | a built packet is handed over iff it fits the capacity; the generator has changed either way |
| Generator.PacketGenerator.constructor | src/waler/PacketGenerator.hpp:43-52 | an empty pool, mid 15000, next id 1, symbol padded with spaces |
| Generator.PacketGenerator.BuildAddOrder | src/waler/PacketGenerator.hpp:209-233 | appends one order with the next id and hands over the Add that describes it, or changes nothing when full |
| Generator.PacketGenerator.BuildCancelOrder | src/waler/PacketGenerator.hpp:235-252 | swap-removes the drawn order and hands over a full cancel of it |
| Generator.PacketGenerator.BuildExecuteOrder | src/waler/PacketGenerator.hpp:254-293 | the loop and the branches compute BuildExecute, whose order, quantity and pool change ExecuteDrawn states |
| Generator.PacketGenerator.BuildQuoteMessage | src/waler/PacketGenerator.hpp:295-328 | quotes both scanned best prices, or a tick off the mid |
| Generator.PacketGenerator.Attempt | src/waler/PacketGenerator.hpp:64-79 | one pass of the attempt loop: pool change, the bytes written or refused, and the count |
| Generator.PacketGenerator.TryAttempts | src/waler/PacketGenerator.hpp:63-85 | the first of four attempts that writes a packet ends the loop |
| Generator.PacketGenerator.NextPacketInto | src/waler/PacketGenerator.hpp:54-88 | the whole call: state, returned length, packet at the front of the buffer, other bytes untouched |
| Generator.WriteMessage | src/waler/PacketGenerator.hpp:179-191 | writes prefix and payload, or -1 and nothing when over capacity |
| OnesComplement.FoldTakesOff | src/waler/EfviUdpSender.cpp:42-44 | folding keeps the sum modulo 65535 and only 0 folds to 0 |
| OnesComplement.TwoFoldsSuffice | src/waler/EfviUdpSender.cpp:42-44 | the fold loop on a 32-bit sum ends after at most two folds |
| OnesComplement.FoldValue | src/waler/EfviUdpSender.cpp:42-44 | a nonzero sum folds to the value in 1..65535 congruent to it |
| OnesComplement.AccumulatorNeverWrapsIff | src/waler/EfviUdpSender.cpp:31-41 | the 32-bit accumulator holds the sum of every n-byte string iff n <= 131074 |
| OnesComplement.ChecksumValue | src/waler/EfviUdpSender.cpp:31-46 | word sum plus checksum is 0 modulo 65535 |
| OnesComplement.InstalledChecksumVerifies | src/waler/EfviUdpSender.cpp:158-165 | a header checksums to 0 once its own checksum is installed |
| OnesComplement.SumWords | src/waler/EfviUdpSender.cpp:34-41 | the accumulating loop gives the word sum modulo 2^32, odd lengths included |
| OnesComplement.IpChecksum | src/waler/EfviUdpSender.cpp:31-46 | the two loops compute the one's-complement checksum |
| UdpFrame.SentHeaderVerifies | src/waler/EfviUdpSender.cpp:158-165 | the IPv4 header of every frame checksums to 0 |
| UdpFrame.FrameFields | src/waler/EfviUdpSender.cpp:91-168 | every byte of a frame but the IPv4 checksum: MACs, ethertype, lengths, identification, TTL and protocol, addresses, ports, payload, and zeros up to 60 bytes |
| UdpFrame.TemplateWritten | src/waler/EfviUdpSender.cpp:91-123 | the template writes leave destination MAC, source MAC, ethertype and the other fixed bytes in a slot |
| UdpFrame.PatchedSlotIsFreshFrame | src/waler/EfviUdpSender.cpp:142-168 | patching any slot that holds the template gives the frame built from scratch, with no stale byte |
| UdpSender.PatchInSlot | src/waler/EfviUdpSender.hpp:56 | a write inside one slot changes that slot only |
| UdpSender.SendKeepsRing | src/waler/EfviUdpSender.cpp:139-168 | after a send the last sixteen frames are all intact in their slots |
| UdpSender.FrameIntactIff | src/waler/EfviUdpSender.cpp:139-140 | a frame is intact iff at most fifteen accepted sends followed it |
| UdpSender.EfviUdpSender.constructor | src/waler/EfviUdpSender.cpp:91-123 | every slot holds the template, nothing sent |
| UdpSender.EfviUdpSender.Send | src/waler/EfviUdpSender.cpp:134-173 | hands over exactly the fresh frame and touches no other slot; oversize changes nothing; a refused transmit still counts |
| WirePath.PaddingIsInert | src/waler/EfviUdpSender.cpp:151-156 | minimum-frame padding never changes what parses |
| WirePath.Transparent | src/bench/exchange_strategy.cpp:200-207 | frame, strip 42, apply is apply, for every payload of at most 512 bytes |
| WirePath.MessageArrives | src/bench/exchange_strategy.cpp:125-129 | a message through packet and frame has the effect and answer of apply |
| Replication.BuildEmits | src/waler/PacketGenerator.hpp:209-328 | each build step's message says exactly what it did to the pool, or the pool is unchanged |
| Replication.NextPacketEmits | src/waler/PacketGenerator.hpp:54-88 | with capacity 32 every call emits one message that says what changed |
| Replication.StepIsApply | src/bench/exchange_strategy.cpp:124-133 | a round of the loop is the emitted message, applied if delivered |
| Replication.RunIsSound | src/bench/exchange_strategy.cpp:124-133 | every run keeps distinct ids, clamped quantities, next id = adds + 1, index agreement and the replication relation |
| Replication.LossyReplication | src/bench/exchange_strategy.cpp:124-133 | under any losses: book quantity = pool quantity + lost executes for orders whose Add arrived, others absent; a book order gone from the pool lost a cancel or an execute; every id's entry is its arrived Add less its arrived executes until cancelled or spent |
| Replication.RoundFollowsLog | src/waler/SimpleOrderBook.hpp:247-281 | each message, arrived or lost, keeps the book's orders a function of the log of what arrived |
| Lockstep.LockstepIsViewEquality | src/waler/SimpleOrderBook.hpp:328-337 | lockstep is equality of the id to (side, price, quantity) maps |
| Lockstep.LosslessLockstep | src/pktgen/pktgen.cpp:15-17 | lossless runs with fewer than 2^32 adds keep book equal to pool |
| Lockstep.MessageKeepsLockstepIff | src/waler/PacketGenerator.hpp:217-222 | every emitted message is accepted, and keeps lockstep iff an Add does not reuse a resting id |
| Lockstep.CallKeepsLockstep | src/waler/PacketGenerator.hpp:54-88 | every call emits, its frame is accepted, lockstep holds again |
| Lockstep.CapacityIff | src/waler/PacketGenerator.hpp:179-185 | all lossless runs keep lockstep iff the capacity is at least 32 |
| Lockstep.PoolBoundsSum | src/waler/PacketGenerator.hpp:30-137 | no level exceeds pool size times 9900, so narrowing never saturates |
| Lockstep.ExecuteAtTop | src/waler/PacketGenerator.hpp:254-293 | an Execute carries the book's best price, and fails iff the side is empty or its best is the sentinel |
| Lockstep.QuoteAtTop | src/waler/PacketGenerator.hpp:295-328 | each quoted side is the book's best price with quantity between 1 and the level's, or a tick off the mid with 0 |
| RunLimits.SentinelRun | src/waler/PacketGenerator.hpp:139-147 | one call leaves a bid at price 0 on top of the book, no bid Execute finds it, and a quote gives its side a tick off the mid with 0 |
| RunLimits.IdWrapBreaks | src/waler/PacketGenerator.hpp:217-222 | a lossless run of 2^32 adds after which the first order's id is in the pool twice |
| RunLimits.IdsGoRound | src/waler/PacketGenerator.hpp:217-220 | in every run, however long and lossy, the next id is the number of adds modulo 2^32 - 1, plus 1 |
| RunLimits.AddLimitIff | src/waler/PacketGenerator.hpp:217-222 | all lossless runs of at most n adds keep book equal to pool iff n < 2^32, and all runs the replication relation likewise |
| Lockstep.SentinelPrices | src/waler/PacketGenerator.hpp:139-147 | exactly which draws land on a scan's starting value |
| Lockstep.DrawnPrices | src/waler/PacketGenerator.hpp:139-147 | drawn prices lie 1 to 20 ticks off the mid, except exactly those bids that wrap |
| Lockstep.LosslessRounds | src/bench/exchange_strategy.cpp:124-133 | round by round: a packet is emitted, it is at the top of the book, its frame is accepted, book equals pool |
| Requote.LastQuoteIsClose | src/bench/exchange_strategy.cpp:246-263 | after every priced update the price is within a cent of the last quote |
| Requote.QuotesAreApart | src/bench/exchange_strategy.cpp:246-263 | consecutive quotes differ by at least a cent |
| Requote.QuotesBoundedByMovement | src/bench/exchange_strategy.cpp:246-263 | (quotes - 1) cents is at most the total variation of the prices |
| Requote.PacketsCarryQuotes | src/bench/exchange_strategy.cpp:94-110 | one packet per quote; any reader parses it to a Quote of 100 and 100 at the update's clock, priced at the nearest cents to two under and two over, modulo 2^32 |
| Requote.QuotedPricesAreNear | src/bench/exchange_strategy.cpp:90-105 | from a cent and a half to the end of the u32 range both prices are within half a cent |
| Requote.QuotedSpreadIff | src/bench/exchange_strategy.cpp:90-105 | the message's u32 prices are four cents apart iff no multiple of 2^32 cents lies over the rounded bid and at or under the rounded ask, stated on the price itself; otherwise the bid is over the ask |
| Requote.OrdinarySpreadIff | src/bench/exchange_strategy.cpp:90-105 | from zero up to the end of the u32 range, four cents apart iff the price is over a cent and a half |
| Requote.LowPriceCrosses | src/bench/exchange_strategy.cpp:90-105 | at a price of a tenth of a cent the bid sent is 4294967294 and the ask 2 |
| Strategy.StrategyThread.Decide | src/bench/exchange_strategy.cpp:246-263 | the two variables take the rule's decision and remember it |
| Strategy.StrategyThread.OnPrice | src/bench/exchange_strategy.cpp:246-263 | a packet is sent exactly when the rule quotes, and carries a Quote of 100 and 100 around the price at the update's clock |
| Strategy.StrategyThread.OnFrame | src/bench/exchange_strategy.cpp:169-265 | the callback: count, strip, apply, price exactly an accepted frame after which both bids and asks are non-empty, and have handed over one packet per quote of the rule |
| System.ExchangeTurn | src/bench/exchange_strategy.cpp:124-133 | one turn hands over the frame of the packet the generator model emits |
| System.PlayTurn | src/bench/exchange_strategy.cpp:124-133 | one turn of the objects is one step of the replication model |
| System.PlayAll | src/bench/exchange_strategy.cpp:113-266 | the objects over any number of turns end in the state of the modelled run, and have sent exactly the packets of the requote rule on the prices of the turns whose frame was accepted and left a 'B' and an 'S' order resting, each packet carrying its quote, at most one more than the cents those prices travel |
| LeastSquares.CentredSums | x4_loopback_latency.c:139-144 | the accumulating loop gives the four centred sums |
| LeastSquares.Fit | x4_loopback_latency.c:135-150 | the line of the centred fit on the first sample, or none where the program divides by 0 |
| LeastSquares.DenominatorIsPairSpread | x4_loopback_latency.c:145 | n*sxx - sx^2 is the sum over i < j of squared differences, whatever the pivot |
| LeastSquares.FitExistsIff | x4_loopback_latency.c:145-147 | the denominator is never negative, and nonzero iff the x are not all equal |
| LeastSquares.NormalEquations | x4_loopback_latency.c:146-148 | slope and centred intercept solve the normal equations |
| LeastSquares.FitIsTheOptimum | x4_loopback_latency.c:135-150 | no line has smaller squared residuals, and only the fitted line attains them |
| LeastSquares.PivotIndependent | x4_loopback_latency.c:136-139 | the result does not depend on the pivot |
| LeastSquares.CollinearRecovered | x4_loopback_latency.c:135-150 | samples lie on a line iff that line is returned with zero residual |
| LeastSquares.ClockMapInverts | x4_loopback_latency.c:245-250 | phc_to_tscns undoes the composition of the two fitted maps |
| Percentile.PctMonotone | common/stats.h:60-67 | _pct is monotone in p over a sorted array |
| Percentile.PctEnds | common/stats.h:60-67 | p = 0 and p = 1 give the first and last sample |
| Percentile.PctInterpolates | common/stats.h:60-67 | at a rank t of the way from sample k to k + 1 the value is that far from the one to the other, in nanoseconds |
| Percentile.AbsDeltaIsDistanceIff | common/stats.h:79-80 | the int64 difference gives the shorter way round modulo 2^64: the distance iff that is at most 2^63 |
| Percentile.JitterIsExactIff | common/stats.h:76-82 | jitter times (n - 1) is the sum of the shorter ways, and of the adjacent distances iff none is over 2^63 |
| Percentile.JitterWithinSpread | common/stats.h:76-82 | jitter is at most the spread of the samples, whatever their order |
| Percentile.MeanWithinSamples | common/stats.h:85-94 | while the sum fits in 64 bits the mean lies within the samples |
| Percentile.MeanIsExactIff | common/stats.h:85-94 | the reported mean is the true one, in whole cycles, iff the 64-bit sum does not wrap |
| Percentile.MeanCanWrap | common/stats.h:85-94 | two samples whose sum wraps have mean 0 |
| Deviation.VarianceIsPairSpread | common/stats.h:89-93 | n times the squares about the true mean is the sum of the squared differences of all pairs |
| Deviation.SquaresAboutMean | common/stats.h:89-93 | squares about any centre are those about the true mean plus n times the squared distance |
| Deviation.VarianceIsExactIff | common/stats.h:85-95 | the variance is at least the true one, and equal iff the 64-bit sum does not wrap |
| Deviation.StdWithinHalfSpread | common/stats.h:85-95 | while the sum fits in 64 bits the standard deviation is at most half of max - min |
| Deviation.StdFits | common/stats.h:95 | wrapped or not, the root fits in 64 bits |
| Deviation.StdCanWrap | common/stats.h:85-95 | two equal samples whose sum wraps have a standard deviation of 2^63 cycles |
| Stats.SortPrefix | common/stats.h:97 | the sort permutes the recorded prefix into order and leaves the rest alone |
| Stats.OrderFieldsHold | common/stats.h:97-107 | min, max and the seven percentiles are each the sample, or the interpolation at its own rank |
| Stats.RecordedFieldsHold | common/stats.h:71-95 | count, mean, standard deviation and jitter in the samples' cycles, whatever the sort did |
| Stats.PercentileChain | common/stats.h:76-107 | min, p50 up to p99.999 and max are in order; jitter is within max - min; while the sum fits, mean within the samples and stddev within half the spread |
| Stats.Collector.Record | common/stats.h:30-33 | a sample is appended while there is room and dropped after |
| Stats.Collector.Compute | common/stats.h:71-108 | jitter, mean and standard deviation from the recording order, interpolated order statistics from the sorted samples, or nothing when empty |

## Left out

- ef_vi, sockets, PTP ioctls, MAC lookup and the receive ring: a transmit is "handed over, or refused", a frame "arrives, or is lost".
- Threads and the running flag: one thread owns the book; the channel is the only interaction.
- Random distributions: every draw is an arbitrary value, clamped where the source clamps it; the event draw is an arbitrary choice of the four, and the index draw an arbitrary number reduced to the live range.
- `evolveMid` and `expRand`: exp, log and cos over doubles; the drawn mid is any int32 before its clamp.
- Black-Scholes and realized volatility: the theoretical price is an arbitrary real.
- Bit-exact floating point: fit, latency summary, requote rule, quoted prices and clock map are over the reals; a zero denominator is modelled as no line, and the library `sqrt` and its cast as the integer root.
- `lround` beyond the range of `long`: unspecified in the source, exact in the model.
- Signed overflow: `mid + dist` and the int64 sample difference are undefined in the source beyond the int range; the model gives them their two's-complement value.
- printAnsi, printDepthChart, hexdump, CSV and plotting: output only.
- The ordered maps are Dafny maps; `begin()` is a scan for the extreme key, and the library `qsort` is an insertion sort with the same specification.
- Waiting for DMA completion: `send` does not check it; only the distance of sixteen accepted sends is claimed.
- Latency recording in the strategy callback, the warm-up boundary and the requote counter: they only feed the printed statistics.
- System.PlayAll: plays a given number of turns where the source stops at a count of accepted sends, and plays the two threads in alternation, one frame in flight at a time, because the channel keeps order and the model's losses are decided per frame.
- UdpSender.FrameIntactIff: covers up to 65536 later sends, because the 16-bit identification then repeats and an equal payload would make an equal frame.
