/** EfviUdpSender: sixteen frame buffers in one array, reused in turn and patched in place. */
module UdpSender {
  import opened Words
  import opened Memory
  import opened OnesComplement
  import opened UdpFrame

  const TX_SLOTS := 16

  function Window(pool: seq<u8>, k: nat): (w: seq<u8>)
    requires k < TX_SLOTS && |pool| == TX_SLOTS * SLOT_LEN
    ensures |w| == SLOT_LEN
  {
    pool[k * SLOT_LEN..(k + 1) * SLOT_LEN]
  }

  /** Two pools that differ in slot k at most. */
  ghost predicate SameElsewhere(pool: seq<u8>, pool': seq<u8>, k: nat) {
    && |pool| == |pool'| == TX_SLOTS * SLOT_LEN
    && forall j: nat :: j < TX_SLOTS && j != k ==> Window(pool', j) == Window(pool, j)
  }

  lemma OwnWindow(pool: seq<u8>, k: nat, at: nat, b: seq<u8>)
    requires k < TX_SLOTS && |pool| == TX_SLOTS * SLOT_LEN && at + |b| <= SLOT_LEN
    ensures Window(Patch(pool, k * SLOT_LEN + at, b), k) == Patch(Window(pool, k), at, b)
  {
    var (mine, spec) := (Window(Patch(pool, k * SLOT_LEN + at, b), k), Patch(Window(pool, k), at, b));
    forall i | 0 <= i < SLOT_LEN
      ensures mine[i] == spec[i]
    {
      assert mine[i] == Patch(pool, k * SLOT_LEN + at, b)[k * SLOT_LEN + i];
    }
  }

  lemma OtherWindow(pool: seq<u8>, k: nat, at: nat, b: seq<u8>, j: nat)
    requires k < TX_SLOTS && |pool| == TX_SLOTS * SLOT_LEN && at + |b| <= SLOT_LEN
    requires j < TX_SLOTS && j != k
    ensures Window(Patch(pool, k * SLOT_LEN + at, b), j) == Window(pool, j)
  {
    PatchSlices(pool, k * SLOT_LEN + at, b);
    if j < k {
      assert (j + 1) * SLOT_LEN <= k * SLOT_LEN;
    } else {
      assert (k + 1) * SLOT_LEN <= j * SLOT_LEN;
    }
  }

  /** Writing inside one slot is a write to that slot's window, and to no other. */
  lemma PatchInSlot(pool: seq<u8>, k: nat, at: nat, b: seq<u8>)
    requires k < TX_SLOTS && |pool| == TX_SLOTS * SLOT_LEN && at + |b| <= SLOT_LEN
    ensures var pool' := Patch(pool, k * SLOT_LEN + at, b);
      Window(pool', k) == Patch(Window(pool, k), at, b) && SameElsewhere(pool, pool', k)
  {
    OwnWindow(pool, k, at, b);
    forall j: nat | j < TX_SLOTS && j != k
      ensures Window(Patch(pool, k * SLOT_LEN + at, b), j) == Window(pool, j)
    {
      OtherWindow(pool, k, at, b, j);
    }
  }

  /** The slots after a history of accepted payloads: every slot has the template, and the last
      sixteen frames are all still there, each in the slot of its number. */
  ghost predicate RingHolds(pool: seq<u8>, a: Addresses, sent: seq<seq<u8>>) {
    && |pool| == TX_SLOTS * SLOT_LEN
    && (forall k: nat :: k < TX_SLOTS ==> HoldsTemplate(Window(pool, k), a))
    && (forall i: nat :: i < |sent| ==> |sent[i]| <= MAX_PAYLOAD)
    && (forall i: nat :: i < |sent| <= i + TX_SLOTS ==> Intact(pool, a, sent, i))
  }

  function SentFrame(a: Addresses, sent: seq<seq<u8>>, i: nat): seq<u8>
    requires i < |sent| && |sent[i]| <= MAX_PAYLOAD
  {
    Frame(a, sent[i], i % 0x1_0000)
  }

  ghost predicate Intact(pool: seq<u8>, a: Addresses, sent: seq<seq<u8>>, i: nat)
    requires |pool| == TX_SLOTS * SLOT_LEN
    requires i < |sent| && |sent[i]| <= MAX_PAYLOAD
  {
    var f := SentFrame(a, sent, i);
    |f| <= SLOT_LEN && Window(pool, i % TX_SLOTS)[..|f|] == f
  }

  lemma DifferentSlots(i: nat, n: nat)
    requires i < n < i + TX_SLOTS
    ensures i % TX_SLOTS != n % TX_SLOTS
  {
  }

  lemma OlderFrameStays(pool: seq<u8>, pool': seq<u8>, a: Addresses, sent: seq<seq<u8>>, payload: seq<u8>, i: nat)
    requires RingHolds(pool, a, sent) && SameElsewhere(pool, pool', |sent| % TX_SLOTS)
    requires i < |sent| < i + TX_SLOTS
    ensures Intact(pool', a, sent + [payload], i)
  {
    assert Intact(pool, a, sent, i);
    DifferentSlots(i, |sent|);
  }

  lemma NewFrameIsIn(pool: seq<u8>, pool': seq<u8>, a: Addresses, sent: seq<seq<u8>>, payload: seq<u8>)
    requires |pool| == |pool'| == TX_SLOTS * SLOT_LEN && |payload| <= MAX_PAYLOAD
    requires HoldsTemplate(Window(pool, |sent| % TX_SLOTS), a)
    requires Window(pool', |sent| % TX_SLOTS) == PatchSlot(Window(pool, |sent| % TX_SLOTS), payload, |sent| % 0x1_0000)
    ensures HoldsTemplate(Window(pool', |sent| % TX_SLOTS), a)
    ensures Intact(pool', a, sent + [payload], |sent|)
  {
    PatchedSlotIsFreshFrame(Window(pool, |sent| % TX_SLOTS), a, payload, |sent| % 0x1_0000);
    FrameFields(a, payload, |sent| % 0x1_0000);
  }

  lemma SendKeepsRing(pool: seq<u8>, pool': seq<u8>, a: Addresses, sent: seq<seq<u8>>, payload: seq<u8>)
    requires RingHolds(pool, a, sent) && |payload| <= MAX_PAYLOAD
    requires var k := |sent| % TX_SLOTS;
      && SameElsewhere(pool, pool', k)
      && Window(pool', k) == PatchSlot(Window(pool, k), payload, |sent| % 0x1_0000)
    ensures RingHolds(pool', a, sent + [payload])
  {
    var sent' := sent + [payload];
    NewFrameIsIn(pool, pool', a, sent, payload);
    forall i: nat | i < |sent'| <= i + TX_SLOTS
      ensures Intact(pool', a, sent', i)
    {
      if i < |sent| {
        OlderFrameStays(pool, pool', a, sent, payload, i);
      }
    }
  }

  /** The last of n sends to use the slot of send i. */
  lemma LastInSlot(n: nat, i: nat) returns (j: nat)
    requires i < n
    ensures j < n <= j + TX_SLOTS && j % TX_SLOTS == i % TX_SLOTS
    ensures n > i + TX_SLOTS ==> i < j
  {
    var turns := (n - 1 - i) / TX_SLOTS;
    j := i + turns * TX_SLOTS;
  }

  lemma IntactId(pool: seq<u8>, a: Addresses, sent: seq<seq<u8>>, i: nat)
    requires |pool| == TX_SLOTS * SLOT_LEN
    requires i < |sent| && |sent[i]| <= MAX_PAYLOAD && Intact(pool, a, sent, i)
    ensures FromBig(Window(pool, i % TX_SLOTS)[18..20]) == i % 0x1_0000
  {
    FrameFields(a, sent[i], i % 0x1_0000);
    var f := SentFrame(a, sent, i);
    assert Window(pool, i % TX_SLOTS)[..|f|][18..20] == Window(pool, i % TX_SLOTS)[18..20];
  }

  /** A frame is still in its slot exactly while at most fifteen accepted sends follow it (up to the
      point where the 16-bit identification comes round again). */
  lemma FrameIntactIff(pool: seq<u8>, a: Addresses, sent: seq<seq<u8>>, i: nat)
    requires RingHolds(pool, a, sent)
    requires i < |sent| && |sent| - i <= 0x1_0000
    ensures Intact(pool, a, sent, i) <==> |sent| - i - 1 <= 15
  {
    if |sent| > i + TX_SLOTS && Intact(pool, a, sent, i) {
      var j := LastInSlot(|sent|, i);
      assert Intact(pool, a, sent, j);
      IntactId(pool, a, sent, i);
      IntactId(pool, a, sent, j);
      assert false;
    }
  }

  lemma SlotAdvances(n: nat)
    ensures (n % TX_SLOTS + 1) % TX_SLOTS == (n + 1) % TX_SLOTS
  {
  }

  lemma IdAdvances(n: nat)
    ensures (n % 0x1_0000 + 1) % 0x1_0000 == (n + 1) % 0x1_0000
  {
  }

  lemma DmaIdAdvances(n: nat)
    ensures (n % 0x1_0000_0000 + 1) % 0x1_0000_0000 == (n + 1) % 0x1_0000_0000
  {
  }

  lemma RingSlot(pool: seq<u8>, a: Addresses, sent: seq<seq<u8>>, k: nat)
    requires RingHolds(pool, a, sent) && k < TX_SLOTS
    ensures HoldsTemplate(Window(pool, k), a)
  {
  }

  class EfviUdpSender {
    const pool: array<u8>
    const addresses: Addresses
    var nextSlot: nat
    var nextDmaId: u32
    var ipId: u16
    /** The payloads of the sends that were not refused for length, oldest first. */
    ghost var sent: seq<seq<u8>>

    ghost predicate Valid()
      reads this, pool
    {
      && RingHolds(pool[..], addresses, sent)
      && nextSlot == |sent| % TX_SLOTS
      && ipId == |sent| % 0x1_0000
      && nextDmaId == |sent| % 0x1_0000_0000
    }

    constructor (a: Addresses)
      ensures Valid() && fresh(pool) && addresses == a && sent == []
    {
      pool := new u8[TX_SLOTS * SLOT_LEN](_ => 0);
      addresses := a;
      nextSlot, nextDmaId, ipId, sent := 0, 0, 0, [];
      new;
      var i := 0;
      while i < TX_SLOTS
        invariant 0 <= i <= TX_SLOTS
        invariant forall k: nat :: k < i ==> HoldsTemplate(Window(pool[..], k), addresses)
        modifies pool
      {
        TemplateIntoSlot(i);
        i := i + 1;
      }
    }

    method PatchAt(k: nat, at: nat, b: seq<u8>)
      requires pool.Length == TX_SLOTS * SLOT_LEN
      requires k < TX_SLOTS && at + |b| <= SLOT_LEN
      modifies pool
      ensures Window(pool[..], k) == Patch(old(Window(pool[..], k)), at, b)
      ensures SameElsewhere(old(pool[..]), pool[..], k)
    {
      PatchInSlot(pool[..], k, at, b);
      CopyInto(pool, k * SLOT_LEN + at, b);
    }

    method TemplateIntoSlot(k: nat)
      requires pool.Length == TX_SLOTS * SLOT_LEN && k < TX_SLOTS
      modifies pool
      ensures HoldsTemplate(Window(pool[..], k), addresses)
      ensures SameElsewhere(old(pool[..]), pool[..], k)
    {
      TemplateWritten(Window(pool[..], k), addresses);
      PatchAt(k, 0, Ethernet(addresses));
      PatchAt(k, 14, [0x45, 0x00]);
      PatchAt(k, 20, [0x00, 0x00, 64, 17]);
      PatchAt(k, 26, addresses.srcIp + addresses.dstIp);
      PatchAt(k, 34, Be16(addresses.srcPort) + Be16(addresses.dstPort));
      PatchAt(k, 40, [0x00, 0x00]);
    }

    method PatchFieldsAt(k: nat, payload: seq<u8>, id: u16)
      requires pool.Length == TX_SLOTS * SLOT_LEN && k < TX_SLOTS && |payload| <= MAX_PAYLOAD
      modifies pool
      ensures Window(pool[..], k) == PatchFields(old(Window(pool[..], k)), payload, id)
      ensures SameElsewhere(old(pool[..]), pool[..], k)
    {
      PatchAt(k, 42, payload);
      PatchAt(k, 42 + |payload|, Zeros(Padding(|payload|)));
      PatchAt(k, 16, Be16(28 + |payload|));
      PatchAt(k, 18, Be16(id));
      PatchAt(k, 24, [0x00, 0x00]);
    }

    method PatchPayload(k: nat, payload: seq<u8>, id: u16)
      requires pool.Length == TX_SLOTS * SLOT_LEN && k < TX_SLOTS && |payload| <= MAX_PAYLOAD
      modifies pool
      ensures Window(pool[..], k) == PatchSlot(old(Window(pool[..], k)), payload, id)
      ensures SameElsewhere(old(pool[..]), pool[..], k)
    {
      PatchFieldsAt(k, payload, id);
      var at := k * SLOT_LEN + 14;
      SubSlice(pool[..], k * SLOT_LEN, (k + 1) * SLOT_LEN, 14, 34);
      assert pool[..][at..at + 20] == pool[at..at + 20];
      var csum := IpChecksum(pool, at, 20);
      PatchAt(k, 24, Be16(csum));
      PatchAt(k, 38, Be16(8 + |payload|));
    }

    /** The bytes the DMA engine reads for slot k. */
    method ReadSlot(k: nat, len: nat) returns (bytes: seq<u8>)
      requires pool.Length == TX_SLOTS * SLOT_LEN && k < TX_SLOTS && len <= SLOT_LEN
      ensures bytes == Window(pool[..], k)[..len]
    {
      bytes := pool[k * SLOT_LEN..k * SLOT_LEN + len];
    }

    /** Patch slot k for the payload and hand its live bytes over. */
    method FillSlot(k: nat, payload: seq<u8>, id: u16) returns (bytes: seq<u8>)
      requires pool.Length == TX_SLOTS * SLOT_LEN && k < TX_SLOTS && |payload| <= MAX_PAYLOAD
      requires HoldsTemplate(Window(pool[..], k), addresses)
      modifies pool
      ensures Window(pool[..], k) == PatchSlot(old(Window(pool[..], k)), payload, id)
      ensures SameElsewhere(old(pool[..]), pool[..], k)
      ensures bytes == Frame(addresses, payload, id)
    {
      PatchedSlotIsFreshFrame(Window(pool[..], k), addresses, payload, id);
      PatchPayload(k, payload, id);
      var frameLen := if HEADER_LEN + |payload| < MIN_FRAME_LEN then MIN_FRAME_LEN else HEADER_LEN + |payload|;
      bytes := ReadSlot(k, frameLen);
    }

    /** send past the length check. */
    method SendFitting(payload: seq<u8>) returns (handed: seq<u8>)
      requires Valid() && |payload| <= MAX_PAYLOAD
      modifies this, pool
      ensures Valid() && sent == old(sent) + [payload]
      ensures handed == Frame(addresses, payload, |old(sent)| % 0x1_0000)
      ensures SameElsewhere(old(pool[..]), pool[..], |old(sent)| % TX_SLOTS)
    {
      var slot, id := nextSlot, ipId;
      ghost var before := pool[..];
      RingSlot(before, addresses, sent, slot);
      SlotAdvances(|sent|);
      IdAdvances(|sent|);
      DmaIdAdvances(|sent|);
      nextSlot := (nextSlot + 1) % TX_SLOTS;
      handed := FillSlot(slot, payload, id);
      ipId := (ipId + 1) % 0x1_0000;
      nextDmaId := (nextDmaId + 1) % 0x1_0000_0000;
      SendKeepsRing(before, pool[..], addresses, sent, payload);
      sent := sent + [payload];
    }

    /** send: 0 or -1, and the bytes handed to the NIC. A refused transmit still uses up the slot,
        the identification and the DMA id; an oversize payload changes nothing. */
    method Send(payload: seq<u8>, nicAccepts: bool) returns (rc: int, handed: Option<seq<u8>>)
      requires Valid()
      modifies this, pool
      ensures Valid()
      ensures rc == if |payload| <= MAX_PAYLOAD && nicAccepts then 0 else -1
      ensures |payload| > MAX_PAYLOAD ==>
        handed == None && pool[..] == old(pool[..]) && sent == old(sent) && unchanged(this)
      ensures |payload| <= MAX_PAYLOAD ==>
        && sent == old(sent) + [payload]
        && handed == Some(Frame(addresses, payload, |old(sent)| % 0x1_0000))
        && SameElsewhere(old(pool[..]), pool[..], |old(sent)| % TX_SLOTS)
    {
      if |payload| > MAX_PAYLOAD { return -1, None; }
      var bytes := SendFitting(payload);
      rc, handed := if nicAccepts then 0 else -1, Some(bytes);
    }
  }
}
