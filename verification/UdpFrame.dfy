/** The Ethernet/IPv4/UDP frame EfviUdpSender transmits, built from scratch, and the same frame
    patched into a slot that already holds the fixed header bytes. */
module UdpFrame {
  import opened Words
  import opened Memory
  import opened OnesComplement

  const ETH_LEN := 14
  const IP4_LEN := 20
  const UDP_LEN := 8
  const HEADER_LEN := 42
  const MIN_FRAME_LEN := 60
  const MAX_PAYLOAD := 512
  const SLOT_LEN := 554

  type Mac = s: seq<u8> | |s| == 6 witness [0, 0, 0, 0, 0, 0]
  type Ip4 = s: seq<u8> | |s| == 4 witness [0, 0, 0, 0]

  datatype Addresses = Addresses(dstMac: Mac, srcMac: Mac, srcIp: Ip4, dstIp: Ip4, srcPort: u16, dstPort: u16)

  /** htons and memcpy of 2 bytes. */
  function Be16(v: u16): (b: seq<u8>)
    ensures |b| == 2 && FromBig(b) == v
  {
    PairValue(v / 256, v % 256);
    [v / 256, v % 256]
  }

  function Ethernet(a: Addresses): (b: seq<u8>)
    ensures |b| == 14
  {
    a.dstMac + a.srcMac + [0x08, 0x00]
  }

  function IpHeader(a: Addresses, totalLen: u16, ipId: u16, csum: u16): (b: seq<u8>)
    ensures |b| == 20
  {
    [0x45, 0x00] + Be16(totalLen) + Be16(ipId) + [0x00, 0x00, 64, 17] + Be16(csum) + (a.srcIp + a.dstIp)
  }

  function Udp(a: Addresses, udpLen: u16): (b: seq<u8>)
    ensures |b| == 8
  {
    (Be16(a.srcPort) + Be16(a.dstPort)) + Be16(udpLen) + [0x00, 0x00]
  }

  /** Zero bytes after the payload that bring the frame to 60. */
  function Padding(payloadLen: nat): nat {
    if HEADER_LEN + payloadLen < MIN_FRAME_LEN then MIN_FRAME_LEN - (HEADER_LEN + payloadLen) else 0
  }

  function HeaderWithChecksum(a: Addresses, totalLen: u16, ipId: u16): (b: seq<u8>)
    ensures |b| == 20
  {
    IpHeader(a, totalLen, ipId, Checksum(IpHeader(a, totalLen, ipId, 0)))
  }

  /** The frame for a payload, with no memory of what was sent before. */
  function Frame(a: Addresses, payload: seq<u8>, ipId: u16): (b: seq<u8>)
    requires |payload| <= MAX_PAYLOAD
    ensures |b| == HEADER_LEN + |payload| + Padding(|payload|)
  {
    Ethernet(a) + HeaderWithChecksum(a, 28 + |payload|, ipId) + Udp(a, 8 + |payload|)
    + payload + Zeros(Padding(|payload|))
  }

  /** The checksum of the header of every frame, checksum field included, is 0. */
  lemma SentHeaderVerifies(a: Addresses, payload: seq<u8>, ipId: u16)
    requires |payload| <= MAX_PAYLOAD
    ensures Checksum(Frame(a, payload, ipId)[14..34]) == 0
  {
    var blank := IpHeader(a, 28 + |payload|, ipId, 0);
    var header := HeaderWithChecksum(a, 28 + |payload|, ipId);
    assert header == Install(blank, 10, Checksum(blank));
    InstalledChecksumVerifies(blank, 10);
    assert Frame(a, payload, ipId)[14..34] == header;
  }

  lemma HeaderSlices(a: Addresses, totalLen: u16, ipId: u16, csum: u16)
    ensures var h := IpHeader(a, totalLen, ipId, csum);
      && h[0..2] == [0x45, 0] && h[2..4] == Be16(totalLen) && h[4..6] == Be16(ipId)
      && h[6..10] == [0, 0, 64, 17] && h[12..16] == a.srcIp && h[16..20] == a.dstIp
  {
  }

  lemma FrontSlices(a: Addresses, payload: seq<u8>, ipId: u16)
    requires |payload| <= MAX_PAYLOAD
    ensures var f := Frame(a, payload, ipId);
      && f[0..14] == Ethernet(a) && f[14..34] == HeaderWithChecksum(a, 28 + |payload|, ipId)
      && f[34..42] == Udp(a, 8 + |payload|) && f[42..] == payload + Zeros(Padding(|payload|))
  {
    var front := Ethernet(a) + HeaderWithChecksum(a, 28 + |payload|, ipId) + Udp(a, 8 + |payload|);
    assert Frame(a, payload, ipId) == front + (payload + Zeros(Padding(|payload|)));
  }

  /** What a receiver reads off any frame, and where: the length of the frame, the two stations, IPv4
      without options, the datagram's lengths and identification, no fragment, TTL 64, UDP, the
      addresses and ports, no UDP checksum, the payload and zeros. */
  lemma FrameFields(a: Addresses, payload: seq<u8>, ipId: u16)
    requires |payload| <= 512
    ensures var f := Frame(a, payload, ipId);
      && 60 <= |f| <= 554 && |f| == (if |payload| < 18 then 60 else 42 + |payload|)
      && f[0..6] == a.dstMac && f[6..12] == a.srcMac && f[12..14] == [0x08, 0x00]
      && f[14..16] == [0x45, 0] && FromBig(f[16..18]) == 28 + |payload|
      && f[18..20] == Be16(ipId) && FromBig(f[18..20]) == ipId
      && f[20..24] == [0, 0, 64, 17] && f[26..30] == a.srcIp && f[30..34] == a.dstIp
      && FromBig(f[34..36]) == a.srcPort && FromBig(f[36..38]) == a.dstPort
      && FromBig(f[38..40]) == 8 + |payload| && f[40..42] == [0, 0]
      && f[42..42 + |payload|] == payload
      && f[42..] == payload + Zeros(|f| - 42 - |payload|)
  {
    var f, h, u := Frame(a, payload, ipId), HeaderWithChecksum(a, 28 + |payload|, ipId), Udp(a, 8 + |payload|);
    FrontSlices(a, payload, ipId);
    HeaderSlices(a, 28 + |payload|, ipId, Checksum(IpHeader(a, 28 + |payload|, ipId, 0)));
    SubSlice(f, 0, 14, 0, 6); SubSlice(f, 0, 14, 6, 12); SubSlice(f, 0, 14, 12, 14);
    SubSlice(f, 14, 34, 0, 2); SubSlice(f, 14, 34, 2, 4); SubSlice(f, 14, 34, 4, 6);
    SubSlice(f, 14, 34, 6, 10); SubSlice(f, 14, 34, 12, 16); SubSlice(f, 14, 34, 16, 20);
    SubSlice(f, 34, 42, 0, 2); SubSlice(f, 34, 42, 2, 4); SubSlice(f, 34, 42, 4, 6); SubSlice(f, 34, 42, 6, 8);
    assert Ethernet(a)[0..6] == a.dstMac && Ethernet(a)[6..12] == a.srcMac;
    assert u[0..2] == Be16(a.srcPort) && u[2..4] == Be16(a.dstPort) && u[4..6] == Be16(8 + |payload|);
  }

  // ---------------------------------------------------------------------------------------------
  // A reused slot.

  /** The bytes the constructor writes once into every slot. */
  ghost predicate HoldsTemplate(w: seq<u8>, a: Addresses) {
    && |w| == SLOT_LEN
    && w[0..6] == a.dstMac && w[6..12] == a.srcMac && w[12..14] == [0x08, 0x00]
    && w[14..16] == [0x45, 0x00]
    && w[20..24] == [0x00, 0x00, 64, 17]
    && w[26..34] == a.srcIp + a.dstIp
    && w[34..38] == Be16(a.srcPort) + Be16(a.dstPort)
    && w[40..42] == [0x00, 0x00]
  }

  function WriteTemplate(w: seq<u8>, a: Addresses): (r: seq<u8>)
    requires |w| == SLOT_LEN
    ensures |r| == SLOT_LEN
  {
    var w1 := Patch(w, 0, Ethernet(a));
    var w2 := Patch(w1, 14, [0x45, 0x00]);
    var w3 := Patch(w2, 20, [0x00, 0x00, 64, 17]);
    var w4 := Patch(w3, 26, a.srcIp + a.dstIp);
    var w5 := Patch(w4, 34, Be16(a.srcPort) + Be16(a.dstPort));
    Patch(w5, 40, [0x00, 0x00])
  }

  lemma EthernetSlices(w: seq<u8>, a: Addresses)
    requires |w| == SLOT_LEN
    ensures w[0..14] == Ethernet(a) <==> w[0..6] == a.dstMac && w[6..12] == a.srcMac && w[12..14] == [0x08, 0x00]
  {
    var e := Ethernet(a);
    assert e[0..6] == a.dstMac && e[6..12] == a.srcMac && e[12..14] == [0x08, 0x00];
    assert w[0..14] == w[0..6] + w[6..12] + w[12..14];
    assert w[0..14][0..6] == w[0..6] && w[0..14][6..12] == w[6..12] && w[0..14][12..14] == w[12..14];
  }

  lemma TemplateWritten(w: seq<u8>, a: Addresses)
    requires |w| == SLOT_LEN
    ensures HoldsTemplate(WriteTemplate(w, a), a)
  {
    var w1 := Patch(w, 0, Ethernet(a));
    PatchSlices(w, 0, Ethernet(a));
    var w2 := Patch(w1, 14, [0x45, 0x00]);
    PatchSlices(w1, 14, [0x45, 0x00]);
    var w3 := Patch(w2, 20, [0x00, 0x00, 64, 17]);
    PatchSlices(w2, 20, [0x00, 0x00, 64, 17]);
    var w4 := Patch(w3, 26, a.srcIp + a.dstIp);
    PatchSlices(w3, 26, a.srcIp + a.dstIp);
    var w5 := Patch(w4, 34, Be16(a.srcPort) + Be16(a.dstPort));
    PatchSlices(w4, 34, Be16(a.srcPort) + Be16(a.dstPort));
    PatchSlices(w5, 40, [0x00, 0x00]);
    var r := WriteTemplate(w, a);
    assert r[0..14] == Ethernet(a);
    EthernetSlices(r, a);
  }

  /** The patches of send up to the zeroed checksum field, in the order it makes them. */
  function PatchFields(w: seq<u8>, payload: seq<u8>, ipId: u16): (r: seq<u8>)
    requires |w| == SLOT_LEN && |payload| <= MAX_PAYLOAD
    ensures |r| == SLOT_LEN
  {
    var w1 := Patch(w, 42, payload);
    var w2 := Patch(w1, 42 + |payload|, Zeros(Padding(|payload|)));
    var w3 := Patch(w2, 16, Be16(28 + |payload|));
    var w4 := Patch(w3, 18, Be16(ipId));
    Patch(w4, 24, [0x00, 0x00])
  }

  /** The rest of send's patches: the checksum of the slot's own header bytes, and the UDP length. */
  function PatchSlot(w: seq<u8>, payload: seq<u8>, ipId: u16): (r: seq<u8>)
    requires |w| == SLOT_LEN && |payload| <= MAX_PAYLOAD
    ensures |r| == SLOT_LEN
  {
    var w5 := PatchFields(w, payload, ipId);
    var w6 := Patch(w5, 24, Be16(Checksum(w5[14..34])));
    Patch(w6, 38, Be16(8 + |payload|))
  }

  lemma FieldsPatched(w: seq<u8>, a: Addresses, payload: seq<u8>, ipId: u16)
    requires HoldsTemplate(w, a) && |payload| <= MAX_PAYLOAD
    ensures var r := PatchFields(w, payload, ipId);
      && HoldsTemplate(r, a)
      && r[16..18] == Be16(28 + |payload|) && r[18..20] == Be16(ipId) && r[24..26] == Be16(0)
      && r[42..42 + |payload|] == payload
      && r[42 + |payload|..42 + |payload| + Padding(|payload|)] == Zeros(Padding(|payload|))
  {
    var n, z := |payload|, Zeros(Padding(|payload|));
    var w1 := Patch(w, 42, payload);
    PatchSlices(w, 42, payload);
    var w2 := Patch(w1, 42 + n, z);
    PatchSlices(w1, 42 + n, z);
    var w3 := Patch(w2, 16, Be16(28 + n));
    PatchSlices(w2, 16, Be16(28 + n));
    var w4 := Patch(w3, 18, Be16(ipId));
    PatchSlices(w3, 18, Be16(ipId));
    PatchSlices(w4, 24, [0x00, 0x00]);
  }

  lemma HeaderOfSlices(w: seq<u8>, a: Addresses, totalLen: u16, ipId: u16, csum: u16)
    requires HoldsTemplate(w, a)
    requires w[16..18] == Be16(totalLen) && w[18..20] == Be16(ipId) && w[24..26] == Be16(csum)
    ensures w[14..34] == IpHeader(a, totalLen, ipId, csum)
  {
    assert w[14..34] == w[14..16] + w[16..18] + w[18..20] + w[20..24] + w[24..26] + w[26..34];
  }

  lemma SlotSplits(w: seq<u8>, n: nat, pad: nat)
    requires 42 + n + pad <= |w|
    ensures w[..42 + n + pad] == w[0..14] + w[14..34] + w[34..42] + w[42..42 + n] + w[42 + n..42 + n + pad]
    ensures w[34..42] == w[34..38] + w[38..40] + w[40..42]
  {
  }

  /** The checksum and the UDP length, patched into a slot whose other fields are in place. */
  lemma ChecksumPatched(w5: seq<u8>, a: Addresses, payload: seq<u8>, ipId: u16, csum: u16)
    requires HoldsTemplate(w5, a) && |payload| <= MAX_PAYLOAD
    requires w5[16..18] == Be16(28 + |payload|) && w5[18..20] == Be16(ipId)
    ensures var w7 := Patch(Patch(w5, 24, Be16(csum)), 38, Be16(8 + |payload|));
      && HoldsTemplate(w7, a)
      && w7[14..34] == IpHeader(a, 28 + |payload|, ipId, csum)
      && w7[38..40] == Be16(8 + |payload|)
      && forall i, j :: 42 <= i <= j <= SLOT_LEN ==> w7[i..j] == w5[i..j]
  {
    var w6 := Patch(w5, 24, Be16(csum));
    PatchSlices(w5, 24, Be16(csum));
    var w7 := Patch(w6, 38, Be16(8 + |payload|));
    PatchSlices(w6, 38, Be16(8 + |payload|));
    HeaderOfSlices(w7, a, 28 + |payload|, ipId, csum);
  }

  /** Patching a reused slot in place gives the frame built from scratch: no stale byte of an earlier
      and longer payload is left in it. */
  lemma PatchedSlotIsFreshFrame(w: seq<u8>, a: Addresses, payload: seq<u8>, ipId: u16)
    requires HoldsTemplate(w, a) && |payload| <= MAX_PAYLOAD
    ensures HoldsTemplate(PatchSlot(w, payload, ipId), a)
    ensures PatchSlot(w, payload, ipId)[..|Frame(a, payload, ipId)|] == Frame(a, payload, ipId)
  {
    var n, pad := |payload|, Padding(|payload|);
    var w5 := PatchFields(w, payload, ipId);
    FieldsPatched(w, a, payload, ipId);
    HeaderOfSlices(w5, a, 28 + n, ipId, 0);
    ChecksumPatched(w5, a, payload, ipId, Checksum(w5[14..34]));
    var w7 := PatchSlot(w, payload, ipId);
    SlotSplits(w7, n, pad);
    EthernetSlices(w7, a);
    assert w7[42..42 + n] == payload && w7[42 + n..42 + n + pad] == Zeros(pad);
  }
}
