/** The four packed messages, their host images, and the length-prefixed wire packet. */
module MarketData {
  import opened Words

  const SYMBOL_LEN := 8
  type Symbol = s: seq<u8> | |s| == SYMBOL_LEN witness [32, 32, 32, 32, 32, 32, 32, 32]

  /** "FAKE", padded: the generator's default symbol. */
  const FAKE: Symbol := [70, 65, 75, 69, 32, 32, 32, 32]

  const BUY: u8 := 66    // 'B'
  const SELL: u8 := 83   // 'S'

  datatype Message =
    | AddOrder(timestamp: u64, orderId: u32, side: u8, price: u32, quantity: u32, symbol: Symbol)
    | CancelOrder(timestamp: u64, orderId: u32, quantity: u32)
    | Execute(timestamp: u64, orderId: u32, execQty: u32, execPrice: u32)
    | Quote(timestamp: u64, bidPrice: u32, bidQty: u32, askPrice: u32, askQty: u32)

  function TypeByte(m: Message): u8 {
    match m
    case AddOrder(_, _, _, _, _, _) => 65  // 'A'
    case CancelOrder(_, _, _) => 88        // 'X'
    case Execute(_, _, _, _) => 69         // 'E'
    case Quote(_, _, _, _, _) => 81        // 'Q'
  }

  function Size(m: Message): nat {
    match m
    case AddOrder(_, _, _, _, _, _) => 30
    case CancelOrder(_, _, _) => 17
    case Execute(_, _, _, _) => 21
    case Quote(_, _, _, _, _) => 25
  }

  /** sizeof of the message a type byte announces; None for an unknown type. */
  function SizeOfType(t: u8): Option<nat> {
    if t == 65 then Some(30)
    else if t == 88 then Some(17)
    else if t == 69 then Some(21)
    else if t == 81 then Some(25)
    else None
  }

  /** The bytes memcpy takes out of the packed struct on this host. */
  function Image(host: Endian, m: Message): (b: seq<u8>)
    ensures |b| == Size(m)
  {
    match m
    case AddOrder(ts, id, side, price, qty, symbol) =>
      [TypeByte(m)] + Store(host, 8, ts) + Store(host, 4, id) + [side]
      + Store(host, 4, price) + Store(host, 4, qty) + symbol
    case CancelOrder(ts, id, qty) =>
      [TypeByte(m)] + Store(host, 8, ts) + Store(host, 4, id) + Store(host, 4, qty)
    case Execute(ts, id, qty, price) =>
      [TypeByte(m)] + Store(host, 8, ts) + Store(host, 4, id) + Store(host, 4, qty) + Store(host, 4, price)
    case Quote(ts, bidPrice, bidQty, askPrice, askQty) =>
      [TypeByte(m)] + Store(host, 8, ts) + Store(host, 4, bidPrice) + Store(host, 4, bidQty)
      + Store(host, 4, askPrice) + Store(host, 4, askQty)
  }

  /** copyMessage: the struct selected by the type byte, copied only when the size is exactly its sizeof. */
  function CopyMessage(host: Endian, b: seq<u8>): Option<Message> {
    if |b| < 1 then None
    else if b[0] == 65 then
      if |b| != 30 then None
      else Some(AddOrder(Load64(host, b[1..9]), Load32(host, b[9..13]), b[13],
                         Load32(host, b[14..18]), Load32(host, b[18..22]), b[22..30]))
    else if b[0] == 88 then
      if |b| != 17 then None
      else Some(CancelOrder(Load64(host, b[1..9]), Load32(host, b[9..13]), Load32(host, b[13..17])))
    else if b[0] == 69 then
      if |b| != 21 then None
      else Some(Execute(Load64(host, b[1..9]), Load32(host, b[9..13]),
                        Load32(host, b[13..17]), Load32(host, b[17..21])))
    else if b[0] == 81 then
      if |b| != 25 then None
      else Some(Quote(Load64(host, b[1..9]), Load32(host, b[9..13]), Load32(host, b[13..17]),
                      Load32(host, b[17..21]), Load32(host, b[21..25])))
    else None
  }

  /** Every multi-byte field converted between host and network order. */
  function NetworkFields(host: Endian, m: Message): Message {
    match m
    case AddOrder(ts, id, side, price, qty, symbol) =>
      AddOrder(Network64(host, ts), Network32(host, id), side, Network32(host, price), Network32(host, qty), symbol)
    case CancelOrder(ts, id, qty) =>
      CancelOrder(Network64(host, ts), Network32(host, id), Network32(host, qty))
    case Execute(ts, id, qty, price) =>
      Execute(Network64(host, ts), Network32(host, id), Network32(host, qty), Network32(host, price))
    case Quote(ts, bidPrice, bidQty, askPrice, askQty) =>
      Quote(Network64(host, ts), Network32(host, bidPrice), Network32(host, bidQty),
            Network32(host, askPrice), Network32(host, askQty))
  }

  /** The payload the generator and encodeQuote copy out: fields converted first, then memcpy. */
  function Encode(host: Endian, m: Message): (b: seq<u8>)
    ensures |b| == Size(m)
  {
    Image(host, NetworkFields(host, m))
  }

  /** applyNetworkPayload up to the call of apply: memcpy first, then convert the fields. */
  function Decode(host: Endian, b: seq<u8>): Option<Message> {
    match CopyMessage(host, b)
    case None => None
    case Some(m) => Some(NetworkFields(host, m))
  }

  /** writeMessage: a 2-byte network-order length, then the payload. */
  function Packet(host: Endian, m: Message): (b: seq<u8>)
    ensures |b| == 2 + Size(m)
  {
    Store(host, 2, NetworkOrder(host, 2, Size(m))) + Encode(host, m)
  }

  /** applyPacket up to the call of apply: bytes after the announced payload are ignored. */
  function ParsePacket(host: Endian, packet: seq<u8>): Option<Message> {
    if |packet| < 2 then None
    else
      var payloadSize := NetworkOrder(host, 2, Load(host, packet[..2]));
      if |packet| < 2 + payloadSize then None
      else Decode(host, packet[2..2 + payloadSize])
  }

  /** The length prefix fits, the type byte is known, and the payload is exactly that type's size. */
  predicate WellFormed(packet: seq<u8>) {
    && 3 <= |packet|
    && 2 + FromBig(packet[..2]) <= |packet|
    && SizeOfType(packet[2]) == Some(FromBig(packet[..2]))
  }

  lemma Extend(front: seq<u8>, field: seq<u8>)
    ensures (front + field)[|front|..|front| + |field|] == field
    ensures forall i, j :: 0 <= i <= j <= |front| ==> (front + field)[i..j] == front[i..j]
  {
  }

  /** Where the fields of AddOrderMessage lie. */
  lemma AddLayout(t: seq<u8>, ts: seq<u8>, id: seq<u8>, side: seq<u8>, price: seq<u8>, qty: seq<u8>, symbol: seq<u8>)
    requires |t| == |side| == 1 && |ts| == |symbol| == 8 && |id| == |price| == |qty| == 4
    ensures var b := t + ts + id + side + price + qty + symbol;
      b[0..1] == t && b[1..9] == ts && b[9..13] == id && b[13..14] == side
      && b[14..18] == price && b[18..22] == qty && b[22..30] == symbol
  {
    Extend(t, ts);
    Extend(t + ts, id);
    Extend(t + ts + id, side);
    Extend(t + ts + id + side, price);
    Extend(t + ts + id + side + price, qty);
    Extend(t + ts + id + side + price + qty, symbol);
  }

  /** Where the fields of CancelOrderMessage lie. */
  lemma CancelLayout(t: seq<u8>, ts: seq<u8>, w1: seq<u8>, w2: seq<u8>)
    requires |t| == 1 && |ts| == 8 && |w1| == |w2| == 4
    ensures var b := t + ts + w1 + w2; b[0..1] == t && b[1..9] == ts && b[9..13] == w1 && b[13..17] == w2
  {
    Extend(t, ts);
    Extend(t + ts, w1);
    Extend(t + ts + w1, w2);
  }

  /** And of ExecuteMessage. */
  lemma ExecuteLayout(t: seq<u8>, ts: seq<u8>, w1: seq<u8>, w2: seq<u8>, w3: seq<u8>)
    requires |t| == 1 && |ts| == 8 && |w1| == |w2| == |w3| == 4
    ensures var b := t + ts + w1 + w2 + w3;
      b[0..1] == t && b[1..9] == ts && b[9..13] == w1 && b[13..17] == w2 && b[17..21] == w3
  {
    CancelLayout(t, ts, w1, w2);
    Extend(t + ts + w1 + w2, w3);
  }

  /** And of QuoteMessage. */
  lemma QuoteLayout(t: seq<u8>, ts: seq<u8>, w1: seq<u8>, w2: seq<u8>, w3: seq<u8>, w4: seq<u8>)
    requires |t| == 1 && |ts| == 8 && |w1| == |w2| == |w3| == |w4| == 4
    ensures var b := t + ts + w1 + w2 + w3 + w4;
      b[0..1] == t && b[1..9] == ts && b[9..13] == w1 && b[13..17] == w2 && b[17..21] == w3 && b[21..25] == w4
  {
    ExecuteLayout(t, ts, w1, w2, w3);
    Extend(t + ts + w1 + w2 + w3, w4);
  }

  lemma CopyAddImage(host: Endian, m: Message)
    requires m.AddOrder?
    ensures CopyMessage(host, Image(host, m)) == Some(m)
  {
    AddLayout([TypeByte(m)], Store(host, 8, m.timestamp), Store(host, 4, m.orderId), [m.side],
              Store(host, 4, m.price), Store(host, 4, m.quantity), m.symbol);
    var b := Image(host, m);
    assert b[0..1] == [b[0]] && b[13..14] == [b[13]];
    LoadStore64(host, m.timestamp);
    LoadStore32(host, m.orderId);
    LoadStore32(host, m.price);
    LoadStore32(host, m.quantity);
  }

  lemma CopyCancelImage(host: Endian, m: Message)
    requires m.CancelOrder?
    ensures CopyMessage(host, Image(host, m)) == Some(m)
  {
    CancelLayout([TypeByte(m)], Store(host, 8, m.timestamp), Store(host, 4, m.orderId), Store(host, 4, m.quantity));
    var b := Image(host, m);
    assert b[0..1] == [b[0]];
    LoadStore64(host, m.timestamp);
    LoadStore32(host, m.orderId);
    LoadStore32(host, m.quantity);
  }

  lemma CopyExecuteImage(host: Endian, m: Message)
    requires m.Execute?
    ensures CopyMessage(host, Image(host, m)) == Some(m)
  {
    ExecuteLayout([TypeByte(m)], Store(host, 8, m.timestamp), Store(host, 4, m.orderId), Store(host, 4, m.execQty),
                  Store(host, 4, m.execPrice));
    var b := Image(host, m);
    assert b[0..1] == [b[0]];
    LoadStore64(host, m.timestamp);
    LoadStore32(host, m.orderId);
    LoadStore32(host, m.execQty);
    LoadStore32(host, m.execPrice);
  }

  lemma CopyQuoteImage(host: Endian, m: Message)
    requires m.Quote?
    ensures CopyMessage(host, Image(host, m)) == Some(m)
  {
    QuoteLayout([TypeByte(m)], Store(host, 8, m.timestamp), Store(host, 4, m.bidPrice), Store(host, 4, m.bidQty),
                Store(host, 4, m.askPrice), Store(host, 4, m.askQty));
    var b := Image(host, m);
    assert b[0..1] == [b[0]];
    LoadStore64(host, m.timestamp);
    LoadStore32(host, m.bidPrice);
    LoadStore32(host, m.bidQty);
    LoadStore32(host, m.askPrice);
    LoadStore32(host, m.askQty);
  }

  /** Copying a message out and back in, on one host, gives the same message. */
  lemma CopyImage(host: Endian, m: Message)
    ensures CopyMessage(host, Image(host, m)) == Some(m)
  {
    match m
    case AddOrder(_, _, _, _, _, _) => CopyAddImage(host, m);
    case CancelOrder(_, _, _) => CopyCancelImage(host, m);
    case Execute(_, _, _, _) => CopyExecuteImage(host, m);
    case Quote(_, _, _, _, _) => CopyQuoteImage(host, m);
  }

  lemma Glue(b: seq<u8>, i: nat, j: nat)
    requires i <= j <= |b|
    ensures b[0..i] + b[i..j] == b[0..j]
    ensures b[0..|b|] == b
  {
  }

  lemma AddSplits(b: seq<u8>)
    requires |b| == 30
    ensures b == [b[0]] + b[1..9] + b[9..13] + [b[13]] + b[14..18] + b[18..22] + b[22..30]
  {
    assert b[0..1] == [b[0]] && b[13..14] == [b[13]];
    Glue(b, 1, 9); Glue(b, 9, 13); Glue(b, 13, 14); Glue(b, 14, 18); Glue(b, 18, 22); Glue(b, 22, 30);
  }

  lemma WordsSplit(b: seq<u8>)
    requires |b| >= 17
    ensures b[0..17] == [b[0]] + b[1..9] + b[9..13] + b[13..17]
    ensures |b| >= 21 ==> b[0..21] == b[0..17] + b[17..21]
    ensures |b| >= 25 ==> b[0..25] == b[0..21] + b[21..25]
  {
    assert b[0..1] == [b[0]];
    Glue(b, 1, 9); Glue(b, 9, 13); Glue(b, 13, 17);
  }

  lemma ImageCopyAdd(host: Endian, b: seq<u8>)
    requires |b| == 30 && b[0] == 65
    ensures Image(host, CopyMessage(host, b).value) == b
  {
    StoreLoad64(host, b[1..9]); StoreLoad32(host, b[9..13]);
    StoreLoad32(host, b[14..18]); StoreLoad32(host, b[18..22]);
    AddSplits(b);
  }

  lemma ImageCopyCancel(host: Endian, b: seq<u8>)
    requires |b| == 17 && b[0] == 88
    ensures Image(host, CopyMessage(host, b).value) == b
  {
    StoreLoad64(host, b[1..9]); StoreLoad32(host, b[9..13]); StoreLoad32(host, b[13..17]);
    WordsSplit(b);
    Glue(b, 0, 17);
  }

  lemma ImageCopyExecute(host: Endian, b: seq<u8>)
    requires |b| == 21 && b[0] == 69
    ensures Image(host, CopyMessage(host, b).value) == b
  {
    StoreLoad64(host, b[1..9]); StoreLoad32(host, b[9..13]);
    StoreLoad32(host, b[13..17]); StoreLoad32(host, b[17..21]);
    WordsSplit(b);
    Glue(b, 0, 21);
  }

  lemma QuoteImageOf(host: Endian, b: seq<u8>, m: Message)
    requires |b| == 25 && b[0] == 81 && m.Quote?
    requires Store(host, 8, m.timestamp) == b[1..9]
    requires Store(host, 4, m.bidPrice) == b[9..13] && Store(host, 4, m.bidQty) == b[13..17]
    requires Store(host, 4, m.askPrice) == b[17..21] && Store(host, 4, m.askQty) == b[21..25]
    ensures Image(host, m) == b
  {
    WordsSplit(b);
    Glue(b, 0, 25);
  }

  lemma ImageCopyQuote(host: Endian, b: seq<u8>)
    requires |b| == 25 && b[0] == 81
    ensures Image(host, CopyMessage(host, b).value) == b
  {
    StoreLoad64(host, b[1..9]); StoreLoad32(host, b[9..13]);
    StoreLoad32(host, b[13..17]); StoreLoad32(host, b[17..21]); StoreLoad32(host, b[21..25]);
    QuoteImageOf(host, b, CopyMessage(host, b).value);
  }

  /** The other half of the round trip: an accepted byte string is the image of what it decodes to. */
  lemma ImageCopy(host: Endian, b: seq<u8>)
    requires CopyMessage(host, b).Some?
    ensures Image(host, CopyMessage(host, b).value) == b
  {
    if b[0] == 65 {
      ImageCopyAdd(host, b);
    } else if b[0] == 88 {
      ImageCopyCancel(host, b);
    } else if b[0] == 69 {
      ImageCopyExecute(host, b);
    } else {
      ImageCopyQuote(host, b);
    }
  }

  /** The wire bytes do not depend on the host that wrote them: they are the big-endian image. */
  lemma EncodeIsBigEndian(host: Endian, m: Message)
    ensures Encode(host, m) == Image(Big, m)
  {
    NetworkStore(host, 8, m.timestamp);
    match m
    case AddOrder(ts, id, side, price, qty, symbol) =>
      NetworkStore(host, 4, id); NetworkStore(host, 4, price); NetworkStore(host, 4, qty);
    case CancelOrder(ts, id, qty) =>
      NetworkStore(host, 4, id); NetworkStore(host, 4, qty);
    case Execute(ts, id, qty, price) =>
      NetworkStore(host, 4, id); NetworkStore(host, 4, qty); NetworkStore(host, 4, price);
    case Quote(ts, bidPrice, bidQty, askPrice, askQty) =>
      NetworkStore(host, 4, bidPrice); NetworkStore(host, 4, bidQty);
      NetworkStore(host, 4, askPrice); NetworkStore(host, 4, askQty);
  }

  lemma LoadIsBigEndian(host: Endian, b: seq<u8>)
    ensures |b| == 4 ==> Network32(host, Load32(host, b)) == Load32(Big, b)
    ensures |b| == 8 ==> Network64(host, Load64(host, b)) == Load64(Big, b)
  {
    NetworkLoad(host, b);
  }

  /** What a host decodes does not depend on its byte order. */
  lemma DecodeIsBigEndian(host: Endian, b: seq<u8>)
    ensures Decode(host, b) == CopyMessage(Big, b)
  {
    if CopyMessage(host, b).Some? {
      LoadIsBigEndian(host, b[1..9]);
      LoadIsBigEndian(host, b[9..13]);
      if b[0] == 65 {
        LoadIsBigEndian(host, b[14..18]); LoadIsBigEndian(host, b[18..22]);
      } else if b[0] == 88 {
        LoadIsBigEndian(host, b[13..17]);
      } else if b[0] == 69 {
        LoadIsBigEndian(host, b[13..17]); LoadIsBigEndian(host, b[17..21]);
      } else {
        LoadIsBigEndian(host, b[13..17]); LoadIsBigEndian(host, b[17..21]); LoadIsBigEndian(host, b[21..25]);
      }
    }
  }

  lemma LengthPrefix(host: Endian, size: nat, prefix: seq<u8>)
    requires size < 0x1_0000 && prefix == Store(host, 2, NetworkOrder(host, 2, size))
    ensures prefix == ToBig(2, size)
    ensures forall reader: Endian :: NetworkOrder(reader, 2, Load(reader, prefix)) == size
  {
    NetworkStore(host, 2, size);
    PowWidths();
    FromToBig(2, size);
    forall reader: Endian
      ensures NetworkOrder(reader, 2, Load(reader, prefix)) == size
    {
      NetworkLoad(reader, prefix);
    }
  }

  /** Any reader, whatever its byte order, parses any writer's packet back to the message,
      whatever bytes follow it. */
  lemma PacketRoundTrip(writer: Endian, reader: Endian, m: Message, trailing: seq<u8>)
    ensures ParsePacket(reader, Packet(writer, m) + trailing) == Some(m)
  {
    var prefix := Store(writer, 2, NetworkOrder(writer, 2, Size(m)));
    LengthPrefix(writer, Size(m), prefix);
    var p := Packet(writer, m) + trailing;
    assert p[..2] == prefix;
    assert p[2..2 + Size(m)] == Encode(writer, m);
    EncodeIsBigEndian(writer, m);
    DecodeIsBigEndian(reader, Encode(writer, m));
    CopyImage(Big, m);
  }

  /** The whole packet is host-independent too. */
  lemma PacketIsBigEndian(host: Endian, m: Message)
    ensures Packet(host, m) == ToBig(2, Size(m)) + Image(Big, m)
  {
    EncodeIsBigEndian(host, m);
    LengthPrefix(host, Size(m), Store(host, 2, NetworkOrder(host, 2, Size(m))));
  }

  /** Equal packets carry equal messages, even from hosts of different byte order. */
  lemma PacketInjective(h1: Endian, h2: Endian, m1: Message, m2: Message)
    ensures Packet(h1, m1) == Packet(h2, m2) <==> m1 == m2
  {
    if Packet(h1, m1) == Packet(h2, m2) {
      PacketRoundTrip(h1, Big, m1, []);
      PacketRoundTrip(h2, Big, m2, []);
    } else if m1 == m2 {
      PacketIsBigEndian(h1, m1);
      PacketIsBigEndian(h2, m2);
    }
  }

  /** Parsing, read off the bytes in network order: no host order is left in it. */
  lemma ParseIsBigEndian(host: Endian, p: seq<u8>)
    ensures ParsePacket(host, p) ==
      if 2 <= |p| && 2 + FromBig(p[..2]) <= |p| then CopyMessage(Big, p[2..2 + FromBig(p[..2])]) else None
  {
    if 2 <= |p| {
      NetworkLoad(host, p[..2]);
      if 2 + FromBig(p[..2]) <= |p| {
        DecodeIsBigEndian(host, p[2..2 + FromBig(p[..2])]);
      }
    }
  }

  /** The only packets a reader accepts are the writer's own, followed by anything. */
  lemma ParsedIsPacket(writer: Endian, reader: Endian, p: seq<u8>)
    requires ParsePacket(reader, p).Some?
    ensures var m := ParsePacket(reader, p).value;
      |Packet(writer, m)| <= |p| && p[..|Packet(writer, m)|] == Packet(writer, m)
  {
    ParseIsBigEndian(reader, p);
    var m := ParsePacket(reader, p).value;
    var size := FromBig(p[..2]);
    ToFromBig(p[..2]);
    ImageCopy(Big, p[2..2 + size]);
    PacketIsBigEndian(writer, m);
    assert p[..2 + size] == p[..2] + p[2..2 + size];
  }

  /** Exactly which byte strings parse. */
  lemma ParseAccepts(host: Endian, p: seq<u8>)
    ensures ParsePacket(host, p).Some? <==> WellFormed(p)
  {
    ParseIsBigEndian(host, p);
  }
}
