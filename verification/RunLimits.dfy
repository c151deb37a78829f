/** How far the replication theorems reach: runs on which they stop holding, and the exact bounds. */
module RunLimits {
  import opened Words
  import opened MarketData
  import opened BookModel
  import opened BookTheorems
  import opened GeneratorModel
  import opened GeneratorTheorems
  import opened Replication
  import opened Lockstep

  /** A round, delivered, that adds a bid of the given quantity; from a new generator, at price 0,
      the mid being drawn at one tick and the distance at most one. */
  predicate AddsBid(r: Round, qty: u32) {
    var d := r.call.attempts[0];
    && r.delivered && r.call.rawMid == TICK
    && d.event == AddEvent && d.buy && d.rawDistance <= TICK && RandQty(d.rawQty) == qty
  }

  /** A round, delivered, that cancels the second order of a pool of two. */
  predicate CancelsSecond(r: Round) {
    var d := r.call.attempts[0];
    r.delivered && d.event == CancelEvent && d.pick % 2 == 1
  }

  lemma IdsAdvance(n: nat)
    ensures (if n % 0xffff_ffff + 1 == 0xffff_ffff then 1 else n % 0xffff_ffff + 2) == (n + 1) % 0xffff_ffff + 1
  {
  }

  lemma IdAfter(link: Link, w: World, r: Round, capacity: nat)
    requires capacity >= 32 && PoolOk(w.gen.pool) && w.gen.nextId == Adds(w.log) % 0xffff_ffff + 1
    ensures var w' := Step(link, w, r, capacity); w'.gen.nextId == Adds(w'.log) % 0xffff_ffff + 1
  {
    StepIsApply(link, w, r, capacity);
    IdsAdvance(Adds(w.log));
    LedgerPush(w.log, Sent(NextPacket(w.gen, r.call, capacity).message.value, r.delivered), 0);
  }

  /** In every run, lossy or not and however long, the ids handed out go round 1 to 2^32 - 1. */
  lemma {:induction false} IdsGoRound(link: Link, symbol: Symbol, rounds: seq<Round>, capacity: nat)
    requires capacity >= 32
    ensures var w := Run(link, symbol, rounds, capacity); w.gen.nextId == Adds(w.log) % 0xffff_ffff + 1
  {
    if |rounds| > 0 {
      var front := rounds[..|rounds| - 1];
      IdsGoRound(link, symbol, front, capacity);
      RunIsPlain(link, symbol, front, capacity);
      IdAfter(link, Run(link, symbol, front, capacity), rounds[|rounds| - 1], capacity);
    }
  }

  lemma FirstAttemptDecides(g: Gen, draws: seq<Draw>, capacity: nat)
    requires |draws| > 0 && Written(Build(g, draws[0]), capacity).message.Some?
    ensures var (a, b) := (Attempts(g, draws, capacity), Build(g, draws[0]));
      a.message == b.message && a.gen.pool == b.gen.pool && a.gen.nextId == b.gen.nextId
  {
  }

  /** An order was appended, told to the book, and nothing else happened to the pool. */
  ghost predicate AddedOne(w: World, w': World, qty: u32) {
    && |w'.gen.pool| == |w.gen.pool| + 1 && w'.gen.pool[..|w.gen.pool|] == w.gen.pool && PoolOk(w'.gen.pool)
    && w'.gen.nextId == NextId(w.gen.nextId) && Adds(w'.log) == Adds(w.log) + 1
    && var o := w'.gen.pool[|w.gen.pool|];
    && o.id == w.gen.nextId && o.quantity == qty
    && o.id in w'.book.orders && w'.book.orders[o.id].quantity == o.quantity
  }

  lemma AddCallAdds(g: Gen, r: Round, qty: u32, capacity: nat)
    requires AddsBid(r, qty) && |g.pool| < POOL_SIZE && capacity >= 32
    ensures var b := NextPacket(g, r.call, capacity);
      && b.message.Some? && b.message.value.AddOrder? && b.gen.nextId == NextId(g.nextId)
      && var m := b.message.value;
      && m.orderId == g.nextId && m.quantity == qty && m.side == BUY
      && b.gen.pool == g.pool + [PoolOrder(g.nextId, m.price, m.quantity, BUY)]
      && (g.messages == 0 ==> m.price == 0)
  {
    var g' := if g.messages % 50 == 0 then EvolveMid(g, r.call.rawMid) else g;
    FirstAttemptDecides(g', r.call.attempts, capacity);
  }

  lemma AddRoundAdds(link: Link, w: World, r: Round, qty: u32, capacity: nat)
    requires AddsBid(r, qty) && PoolOk(w.gen.pool) && |w.gen.pool| < POOL_SIZE && capacity >= 32
    ensures AddedOne(w, Step(link, w, r, capacity), qty)
  {
    AddCallAdds(w.gen, r, qty, capacity);
    StepIsApply(link, w, r, capacity);
    var m := NextPacket(w.gen, r.call, capacity).message.value;
    DeliveredOrders(w.book, m);
    LedgerPush(w.log, Sent(m, true), 0);
  }

  /** The second of two pool orders was cancelled. */
  predicate CancelledSecond(w: World, w': World)
    requires |w.gen.pool| == 2
  {
    w'.gen.pool == w.gen.pool[..1] && w'.gen.nextId == w.gen.nextId && Adds(w'.log) == Adds(w.log)
  }

  lemma CancelRoundCancels(link: Link, w: World, r: Round, capacity: nat)
    requires CancelsSecond(r) && PoolOk(w.gen.pool) && |w.gen.pool| == 2 && capacity >= 32
    ensures CancelledSecond(w, Step(link, w, r, capacity))
  {
    var c := r.call;
    var g := if w.gen.messages % 50 == 0 then EvolveMid(w.gen, c.rawMid) else w.gen;
    FirstAttemptDecides(g, c.attempts, capacity);
    StepIsApply(link, w, r, capacity);
    assert SwapRemove(w.gen.pool, 1) == w.gen.pool[..1];
    LedgerPush(w.log, Sent(NextPacket(w.gen, c, capacity).message.value, true), 0);
  }

  /** One Add, kept; then k times an Add and its cancel. */
  function ChurnRun(add: Round, cancel: Round, k: nat): (rounds: seq<Round>)
    ensures add.delivered && cancel.delivered ==> forall i :: 0 <= i < |rounds| ==> rounds[i].delivered
  {
    if k == 0 then [add] else ChurnRun(add, cancel, k - 1) + [add] + [cancel]
  }

  /** After k adds and cancels the first order is the whole pool. */
  ghost predicate FirstKept(w: World, k: nat) {
    && |w.gen.pool| == 1 && w.gen.pool[0].id == 1 && w.gen.pool[0].quantity == 1 && OrderOk(w.gen.pool[0])
    && w.gen.nextId as int == (if k == 0xffff_fffe then 1 else k + 2)
    && Adds(w.log) == k + 1
  }

  lemma ChurnStep(link: Link, w: World, add: Round, cancel: Round, k: nat, capacity: nat)
    requires capacity >= 32 && k < 0xffff_fffe && FirstKept(w, k)
    requires AddsBid(add, 1) && CancelsSecond(cancel)
    ensures FirstKept(Step(link, Step(link, w, add, capacity), cancel, capacity), k + 1)
  {
    AddRoundAdds(link, w, add, 1, capacity);
    var added := Step(link, w, add, capacity);
    CancelRoundCancels(link, added, cancel, capacity);
    BothKeepFirst(w, added, Step(link, added, cancel, capacity), k);
  }

  lemma BothKeepFirst(w: World, added: World, w': World, k: nat)
    requires k < 0xffff_fffe && FirstKept(w, k)
    requires AddedOne(w, added, 1) && CancelledSecond(added, w')
    ensures FirstKept(w', k + 1)
  {
    assert added.gen.pool[0] == added.gen.pool[..1][0] == w.gen.pool[0];
  }

  ghost predicate KeptAfterChurn(link: Link, symbol: Symbol, add: Round, cancel: Round, k: nat, capacity: nat) {
    exists w :: w == Run(link, symbol, ChurnRun(add, cancel, k), capacity) && FirstKept(w, k)
  }

  lemma FirstAdd(w: World, w': World)
    requires AddedOne(w, w', 1) && w.gen.pool == [] && w.gen.nextId == 1 && Adds(w.log) == 0
    ensures FirstKept(w', 0)
  {
  }

  lemma FirstRound(link: Link, symbol: Symbol, add: Round, cancel: Round, capacity: nat)
    requires capacity >= 32 && AddsBid(add, 1)
    ensures KeptAfterChurn(link, symbol, add, cancel, 0, capacity)
  {
    RunPush(link, symbol, [], add, capacity);
    assert [] + [add] == ChurnRun(add, cancel, 0);
    var start := World(InitialGen(symbol), EMPTY_BOOK, []);
    AddRoundAdds(link, start, add, 1, capacity);
    FirstAdd(start, Step(link, start, add, capacity));
  }

  lemma ChurnRound(link: Link, symbol: Symbol, add: Round, cancel: Round, k: nat, capacity: nat)
    requires capacity >= 32 && k < 0xffff_fffe && AddsBid(add, 1) && CancelsSecond(cancel)
    requires KeptAfterChurn(link, symbol, add, cancel, k, capacity)
    ensures KeptAfterChurn(link, symbol, add, cancel, k + 1, capacity)
  {
    var before := ChurnRun(add, cancel, k);
    RunPush(link, symbol, before, add, capacity);
    RunPush(link, symbol, before + [add], cancel, capacity);
    ChurnStep(link, Run(link, symbol, before, capacity), add, cancel, k, capacity);
  }

  /** The first order stays in the pool while the id counter goes round. */
  lemma {:induction false} ChurnKeepsFirst(link: Link, symbol: Symbol, add: Round, cancel: Round, k: nat, capacity: nat)
    requires capacity >= 32 && k <= 0xffff_fffe && AddsBid(add, 1) && CancelsSecond(cancel)
    ensures KeptAfterChurn(link, symbol, add, cancel, k, capacity)
    decreases k
  {
    if k == 0 {
      FirstRound(link, symbol, add, cancel, capacity);
    } else {
      ChurnKeepsFirst(link, symbol, add, cancel, k - 1, capacity);
      ChurnRound(link, symbol, add, cancel, k - 1, capacity);
    }
  }

  /** One more add, under the id of the resting first order. */
  lemma ReusedIdClashes(link: Link, w: World, r: Round, capacity: nat)
    requires capacity >= 32 && FirstKept(w, 0xffff_fffe) && AddsBid(r, 2)
    ensures var w' := Step(link, w, r, capacity);
      && Adds(w'.log) == 0x1_0000_0000
      && |w'.gen.pool| == 2 && w'.gen.pool[0].id == w'.gen.pool[1].id == 1 && w'.gen.pool[0].quantity == 1
      && 1 in w'.book.orders && w'.book.orders[1].quantity == 2
  {
    AddRoundAdds(link, w, r, 2, capacity);
    var w' := Step(link, w, r, capacity);
    assert w'.gen.pool[0] == w'.gen.pool[..1][0] == w.gen.pool[0];
  }

  /** With 2^32 adds, nothing lost, the last add takes the id of the first order, which is still
      resting: the pool has the id twice and the book once, with the other quantity. */
  lemma IdWrapBreaks(link: Link, symbol: Symbol, add: Round, cancel: Round, last: Round, k: nat, capacity: nat)
    requires capacity >= 32 && k == 0xffff_fffe
    requires AddsBid(add, 1) && CancelsSecond(cancel) && AddsBid(last, 2)
    ensures var w := Run(link, symbol, ChurnRun(add, cancel, k) + [last], capacity);
      && Adds(w.log) == 0x1_0000_0000
      && !InLockstep(w.gen.pool, w.book.orders)
      && !Replicates(w.gen.pool, w.book.orders, w.log)
  {
    var churn := ChurnRun(add, cancel, k);
    ChurnKeepsFirst(link, symbol, add, cancel, k, capacity);
    RunPush(link, symbol, churn, last, capacity);
    ReusedIdClashes(link, Run(link, symbol, churn, capacity), last, capacity);
    var w := Run(link, symbol, churn + [last], capacity);
    LosslessLog(link, symbol, churn + [last], capacity);
    NothingLost(w.log, 1);
    assert !Tracked(w.gen.pool[0], w.book.orders, w.log);
  }

  /** The rounds of such a run exist. */
  function ARound(event: Event, qty: int, pick: nat): Round {
    Round(Call(TICK, seq(4, _ => Draw(event, true, 0, qty, pick, 0)), 0), true, 0)
  }

  ghost predicate LockstepWithin(link: Link, symbol: Symbol, rounds: seq<Round>, capacity: nat, n: nat) {
    var w := Run(link, symbol, rounds, capacity);
    var lossless := forall i :: 0 <= i < |rounds| ==> rounds[i].delivered;
    lossless && Adds(w.log) <= n ==> InLockstep(w.gen.pool, w.book.orders)
  }

  ghost predicate ReplicatesWithin(link: Link, symbol: Symbol, rounds: seq<Round>, capacity: nat, n: nat) {
    var w := Run(link, symbol, rounds, capacity);
    Adds(w.log) <= n ==> Replicates(w.gen.pool, w.book.orders, w.log)
  }

  lemma WithinLimit(link: Link, symbol: Symbol, rounds: seq<Round>, capacity: nat, n: nat)
    requires capacity >= 32 && n < 0x1_0000_0000
    ensures LockstepWithin(link, symbol, rounds, capacity, n)
    ensures ReplicatesWithin(link, symbol, rounds, capacity, n)
  {
    var w := Run(link, symbol, rounds, capacity);
    if Adds(w.log) <= n {
      RunIsSound(link, symbol, rounds, capacity);
      if forall i :: 0 <= i < |rounds| ==> rounds[i].delivered {
        LosslessLockstep(link, symbol, rounds, capacity);
      }
    }
  }

  /** The bound on adds is exact: all lossless runs with at most n adds keep lockstep, and all lossy
      ones the replication relation, exactly when n is below 2^32. */
  lemma AddLimitIff(link: Link, symbol: Symbol, capacity: nat, n: nat)
    requires capacity >= 32
    ensures (forall rounds: seq<Round> :: LockstepWithin(link, symbol, rounds, capacity, n)) <==> n < 0x1_0000_0000
    ensures (forall rounds: seq<Round> :: ReplicatesWithin(link, symbol, rounds, capacity, n)) <==> n < 0x1_0000_0000
  {
    if n < 0x1_0000_0000 {
      forall rounds: seq<Round>
        ensures LockstepWithin(link, symbol, rounds, capacity, n)
        ensures ReplicatesWithin(link, symbol, rounds, capacity, n)
      {
        WithinLimit(link, symbol, rounds, capacity, n);
      }
    } else {
      var k: nat := 0xffff_fffe;
      var add, cancel, last := ARound(AddEvent, 1, 0), ARound(CancelEvent, 0, 1), ARound(AddEvent, 2, 0);
      IdWrapBreaks(link, symbol, add, cancel, last, k, capacity);
      var rounds := ChurnRun(add, cancel, k) + [last];
      assert !LockstepWithin(link, symbol, rounds, capacity, n);
      assert !ReplicatesWithin(link, symbol, rounds, capacity, n);
    }
  }

  lemma FirstAddTops(m: Message)
    requires m.AddOrder? && m.side == BUY && m.quantity > 0
    ensures BestBid(Apply(EMPTY_BOOK, m).0) == Some(Level(m.price, m.quantity))
  {
    var bids := Apply(EMPTY_BOOK, m).0.bids;
    assert bids == map[m.price := m.quantity as u64];
    assert MaxKey(bids) in bids;
  }

  lemma FirstBidAtZero(link: Link, w: World, r: Round, capacity: nat)
    requires AddsBid(r, 1) && w.gen.pool == [] && w.gen.messages == 0 && w.gen.nextId == 1
    requires w.book == EMPTY_BOOK && capacity >= 32
    ensures var w' := Step(link, w, r, capacity);
      w'.gen.pool == [PoolOrder(1, 0, 1, BUY)] && BestBid(w'.book) == Some(Level(0, 1))
  {
    AddCallAdds(w.gen, r, 1, capacity);
    StepIsApply(link, w, r, capacity);
    FirstAddTops(NextPacket(w.gen, r.call, capacity).message.value);
  }

  lemma ZeroBidIsUnseen(g: Gen, d: Draw)
    requires g.pool == [PoolOrder(1, 0, 1, BUY)] && d.buy
    ensures BuildExecute(g, d).message.None? && QuoteSide(g, BUY) == (ToPrice(g.mid - TICK), 0)
  {
    ScanFindsBest(g.pool, BUY, 1);
  }

  /** The sentinel, in a run: a bid drawn a whole mid away rests at price 0, tops the book, and is
      refused to every bid-side Execute; a quote gives its side a tick off the mid and quantity 0. */
  lemma SentinelRun(link: Link, symbol: Symbol, r: Round, d: Draw, capacity: nat)
    requires capacity >= 32 && AddsBid(r, 1) && d.buy
    ensures var w := Run(link, symbol, [r], capacity);
      && BestBid(w.book) == Some(Level(0, 1))
      && BuildExecute(w.gen, d).message.None?
      && QuoteSide(w.gen, BUY) == (ToPrice(w.gen.mid - TICK), 0)
  {
    RunPush(link, symbol, [], r, capacity);
    assert [] + [r] == [r];
    FirstBidAtZero(link, World(InitialGen(symbol), EMPTY_BOOK, []), r, capacity);
    ZeroBidIsUnseen(Run(link, symbol, [r], capacity).gen, d);
  }
}
