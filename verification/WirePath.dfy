/** From a payload on the exchange side to the book on the strategy side. */
module WirePath {
  import opened Words
  import opened Memory
  import opened MarketData
  import opened BookModel
  import opened UdpFrame
  import opened Acceptance

  /** The strategy's receive step: strip 42 header bytes, apply the rest. */
  function Receive(host: Endian, b: Book, frame: seq<u8>): (Book, bool) {
    if |frame| <= HEADER_LEN then (b, false) else ApplyPacket(host, b, frame[HEADER_LEN..])
  }

  /** Padding a short payload to the minimum frame never makes it parse: the padded payload has 18
      bytes, one fewer than the shortest packet. */
  lemma PaddingIsInert(host: Endian, payload: seq<u8>)
    ensures ParsePacket(host, payload + Zeros(Padding(|payload|))) == ParsePacket(host, payload)
  {
    var padded := payload + Zeros(Padding(|payload|));
    if Padding(|payload|) == 0 {
      assert padded == payload;
    } else {
      AcceptedShape(host, payload);
      AcceptedShape(host, padded);
    }
  }

  /** Framing, stripping and applying is applying: for every payload the sender takes, whether or not
      it is a packet, same book and same answer. */
  lemma Transparent(host: Endian, b: Book, a: Addresses, payload: seq<u8>, ipId: u16)
    requires |payload| <= MAX_PAYLOAD
    ensures Receive(host, b, Frame(a, payload, ipId)) == ApplyPacket(host, b, payload)
  {
    FrontSlices(a, payload, ipId);
    PaddingIsInert(host, payload);
  }

  /** End to end: the message sent is the message applied. */
  lemma MessageArrives(writer: Endian, reader: Endian, b: Book, a: Addresses, m: Message, ipId: u16)
    ensures |Packet(writer, m)| <= 32
    ensures Receive(reader, b, Frame(a, Packet(writer, m), ipId)) == Apply(b, m)
  {
    Transparent(reader, b, a, Packet(writer, m), ipId);
    ThreeWaysIn(writer, reader, b, m, []);
    assert Packet(writer, m) + [] == Packet(writer, m);
  }
}
