/** Which packets the book accepts, that a refused one leaves no trace, and that the three ways in
    (message, host-order bytes, wire packet) are one. */
module Acceptance {
  import opened Words
  import opened MarketData
  import opened BookModel

  /** The order id field of a well-formed Add, Cancel or Execute, read in network order. */
  function OrderIdField(packet: seq<u8>): nat
    requires |packet| >= 15
  {
    FromBig(packet[11..15])
  }

  /** Every field of every message, as the bytes of its packet: the type byte, the big-endian numbers at
      their offsets, side and symbol as they stand. */
  ghost predicate FieldsLie(p: seq<u8>, m: Message)
    requires |p| >= 19
  {
    && m.timestamp == FromBig(p[3..11])
    && match m
       case AddOrder(_, id, side, price, qty, symbol) =>
         && p[2] == 65 && |p| >= 32 && id == FromBig(p[11..15]) && side == p[15] && price == FromBig(p[16..20])
         && qty == FromBig(p[20..24]) && symbol == p[24..32]
       case CancelOrder(_, id, qty) =>
         p[2] == 88 && id == FromBig(p[11..15]) && qty == FromBig(p[15..19])
       case Execute(_, id, qty, price) =>
         && p[2] == 69 && |p| >= 23 && id == FromBig(p[11..15]) && qty == FromBig(p[15..19])
         && price == FromBig(p[19..23])
       case Quote(_, bidPrice, bidQty, askPrice, askQty) =>
         && p[2] == 81 && |p| >= 27 && bidPrice == FromBig(p[11..15]) && bidQty == FromBig(p[15..19])
         && askPrice == FromBig(p[19..23]) && askQty == FromBig(p[23..27])
  }

  lemma Slice(p: seq<u8>, size: nat, lo: nat, hi: nat)
    requires lo <= hi <= size && 2 + size <= |p|
    ensures p[2..2 + size][lo..hi] == p[lo + 2..hi + 2]
  {
    SubSlice(p, 2, 2 + size, lo, hi);
  }

  lemma AddFieldsLie(p: seq<u8>, n: nat)
    requires 2 + n <= |p| && CopyMessage(Big, p[2..2 + n]).Some? && CopyMessage(Big, p[2..2 + n]).value.AddOrder?
    ensures |p| >= 32 && FieldsLie(p, CopyMessage(Big, p[2..2 + n]).value)
  {
    Slice(p, n, 1, 9); Slice(p, n, 9, 13);
    Slice(p, n, 14, 18); Slice(p, n, 18, 22); Slice(p, n, 22, 30);
  }

  lemma WordFieldsLie(p: seq<u8>, n: nat)
    requires 2 + n <= |p| && CopyMessage(Big, p[2..2 + n]).Some? && !CopyMessage(Big, p[2..2 + n]).value.AddOrder?
    ensures |p| >= 19 && FieldsLie(p, CopyMessage(Big, p[2..2 + n]).value)
  {
    Slice(p, n, 1, 9); Slice(p, n, 9, 13); Slice(p, n, 13, 17);
    if n >= 21 { Slice(p, n, 17, 21); }
    if n >= 25 { Slice(p, n, 21, 25); }
  }

  /** What an accepted packet looks like, and where all its fields lie. */
  lemma AcceptedShape(host: Endian, packet: seq<u8>)
    ensures ParsePacket(host, packet).Some? <==> WellFormed(packet)
    ensures WellFormed(packet) ==>
      var m := ParsePacket(host, packet).value;
      && |packet| >= 19
      && FieldsLie(packet, m)
      && (!m.Quote? ==> m.orderId == OrderIdField(packet))
  {
    ParseAccepts(host, packet);
    ParseIsBigEndian(host, packet);
    if WellFormed(packet) {
      if ParsePacket(host, packet).value.AddOrder? {
        AddFieldsLie(packet, FromBig(packet[..2]));
      } else {
        WordFieldsLie(packet, FromBig(packet[..2]));
      }
    }
  }

  /** For every byte string: accepted exactly when it is well formed and a Cancel ('X') or Execute
      ('E') names a resting id; refused, it changes neither orders, levels nor last quote. */
  lemma AcceptsExactly(host: Endian, b: Book, packet: seq<u8>)
    ensures ApplyPacket(host, b, packet).1 <==>
      && WellFormed(packet)
      && (packet[2] == 88 || packet[2] == 69 ==> |packet| >= 15 && OrderIdField(packet) in b.orders)
    ensures !ApplyPacket(host, b, packet).1 ==> ApplyPacket(host, b, packet).0 == b
  {
    AcceptedShape(host, packet);
  }

  /** The wire packet, the host-order image and the message itself have the same effect and answer. */
  lemma ThreeWaysIn(writer: Endian, reader: Endian, b: Book, m: Message, trailing: seq<u8>)
    ensures ApplyPacket(reader, b, Packet(writer, m) + trailing) == Apply(b, m)
    ensures ApplyMessage(reader, b, Image(reader, m)) == Apply(b, m)
  {
    PacketRoundTrip(writer, reader, m, trailing);
    CopyImage(reader, m);
  }
}
