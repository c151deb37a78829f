/** Fixed-width words, and the way a host stores them in memory and on the wire. */
module Words {
  type u8 = x: int | 0 <= x < 0x100
  type u16 = x: int | 0 <= x < 0x1_0000
  type u32 = x: int | 0 <= x < 0x1_0000_0000
  type u64 = x: int | 0 <= x < 0x1_0000_0000_0000_0000

  const U32_MAX: u32 := 0xffff_ffff

  datatype Option<+T> = None | Some(value: T)

  datatype Endian = Little | Big

  /** The number a byte string denotes in network order. */
  function FromBig(b: seq<u8>): nat {
    if |b| == 0 then 0 else FromBig(b[..|b| - 1]) * 256 + b[|b| - 1]
  }

  function ToBig(width: nat, v: nat): (b: seq<u8>)
    ensures |b| == width
  {
    if width == 0 then [] else ToBig(width - 1, v / 256) + [v % 256]
  }

  function Reverse(b: seq<u8>): (r: seq<u8>)
    ensures |r| == |b|
    ensures forall i :: 0 <= i < |b| ==> r[i] == b[|b| - 1 - i]
  {
    seq(|b|, i requires 0 <= i < |b| => b[|b| - 1 - i])
  }

  /** A native load of |b| bytes: what memcpy into an integer gives on this host. */
  function Load(host: Endian, b: seq<u8>): nat {
    if host.Big? then FromBig(b) else FromBig(Reverse(b))
  }

  /** A native store of an integer of the given width. */
  function Store(host: Endian, width: nat, v: nat): (b: seq<u8>)
    ensures |b| == width
  {
    if host.Big? then ToBig(width, v) else Reverse(ToBig(width, v))
  }

  /** __builtin_bswap16/32/64. */
  function SwapBytes(width: nat, v: nat): nat {
    FromBig(Reverse(ToBig(width, v)))
  }

  /** toNetwork16/32/64 and fromNetwork16/32/64: the source defines both by this expression. */
  function NetworkOrder(host: Endian, width: nat, v: nat): nat {
    if host.Little? then SwapBytes(width, v) else v
  }

  lemma SubSlice(s: seq<u8>, i: nat, j: nat, lo: nat, hi: nat)
    requires i <= j <= |s| && lo <= hi <= j - i
    ensures s[i..j][lo..hi] == s[i + lo..i + hi]
  {
    assert forall k :: 0 <= k < hi - lo ==> s[i..j][lo..hi][k] == s[i + lo..i + hi][k];
  }

  lemma PairValue(x: u8, y: u8)
    ensures FromBig([x, y]) == x * 256 + y
  {
    assert [x, y][..1] == [x];
    assert FromBig([x]) == x;
  }

  /** Network order is most significant byte first. */
  lemma {:induction false} FirstByteIsHighest(x: u8, b: seq<u8>)
    ensures FromBig([x] + b) == x * Pow256(|b|) + FromBig(b)
  {
    if |b| == 0 {
      assert [x] + b == [x] && [x][..0] == [];
    } else {
      var front, last := b[..|b| - 1], b[|b| - 1];
      assert ([x] + b)[..|b|] == [x] + front;
      FirstByteIsHighest(x, front);
      ScaledPower(x, Pow256(|front|));
    }
  }

  lemma ScaledPower(x: int, p: int)
    ensures x * p * 256 == x * (256 * p)
  {
  }

  function Pow256(width: nat): nat {
    if width == 0 then 1 else 256 * Pow256(width - 1)
  }

  lemma PowWidths()
    ensures Pow256(2) == 0x1_0000
    ensures Pow256(4) == 0x1_0000_0000
    ensures Pow256(8) == 0x1_0000_0000_0000_0000
  {
    assert Pow256(5) == 0x100_0000_0000;
    assert Pow256(6) == 0x1_0000_0000_0000;
    assert Pow256(7) == 0x100_0000_0000_0000;
  }

  lemma {:induction false} FromToBig(width: nat, v: nat)
    requires v < Pow256(width)
    ensures FromBig(ToBig(width, v)) == v
  {
    if width > 0 {
      FromToBig(width - 1, v / 256);
      assert ToBig(width, v)[..width - 1] == ToBig(width - 1, v / 256);
    }
  }

  lemma {:induction false} ToFromBig(b: seq<u8>)
    ensures FromBig(b) < Pow256(|b|)
    ensures ToBig(|b|, FromBig(b)) == b
  {
    if |b| > 0 {
      ToFromBig(b[..|b| - 1]);
      assert b == b[..|b| - 1] + [b[|b| - 1]];
    }
  }

  lemma LoadStore(host: Endian, width: nat, v: nat)
    requires v < Pow256(width)
    ensures Load(host, Store(host, width, v)) == v
  {
    FromToBig(width, v);
    assert Reverse(Reverse(ToBig(width, v))) == ToBig(width, v);
  }

  lemma StoreLoad(host: Endian, b: seq<u8>)
    ensures Load(host, b) < Pow256(|b|)
    ensures Store(host, |b|, Load(host, b)) == b
  {
    ToFromBig(b);
    ToFromBig(Reverse(b));
    assert Reverse(Reverse(b)) == b;
  }

  /** Loading wire bytes and converting gives the big-endian value, whatever the host. */
  lemma NetworkLoad(host: Endian, b: seq<u8>)
    ensures NetworkOrder(host, |b|, Load(host, b)) == FromBig(b)
  {
    ToFromBig(Reverse(b));
    assert Reverse(Reverse(b)) == b;
  }

  /** Converting and storing leaves the big-endian bytes, whatever the host. */
  lemma NetworkStore(host: Endian, width: nat, v: nat)
    ensures v < Pow256(width) ==> NetworkOrder(host, width, v) < Pow256(width)
    ensures Store(host, width, NetworkOrder(host, width, v)) == ToBig(width, v)
  {
    ToFromBig(Reverse(ToBig(width, v)));
    assert Reverse(Reverse(ToBig(width, v))) == ToBig(width, v);
  }

  function Load32(host: Endian, b: seq<u8>): u32
    requires |b| == 4
  {
    StoreLoad(host, b); PowWidths();
    Load(host, b)
  }

  function Load64(host: Endian, b: seq<u8>): u64
    requires |b| == 8
  {
    StoreLoad(host, b); PowWidths();
    Load(host, b)
  }

  function Network32(host: Endian, v: u32): u32 {
    NetworkStore(host, 4, v); PowWidths();
    NetworkOrder(host, 4, v)
  }

  function Network64(host: Endian, v: u64): u64 {
    NetworkStore(host, 8, v); PowWidths();
    NetworkOrder(host, 8, v)
  }

  lemma LoadStore32(host: Endian, v: u32)
    ensures Load32(host, Store(host, 4, v)) == v
  {
    PowWidths();
    LoadStore(host, 4, v);
  }

  lemma LoadStore64(host: Endian, v: u64)
    ensures Load64(host, Store(host, 8, v)) == v
  {
    PowWidths();
    LoadStore(host, 8, v);
  }

  lemma StoreLoad32(host: Endian, b: seq<u8>)
    requires |b| == 4
    ensures Store(host, 4, Load32(host, b)) == b
  {
    StoreLoad(host, b);
  }

  lemma StoreLoad64(host: Endian, b: seq<u8>)
    requires |b| == 8
    ensures Store(host, 8, Load64(host, b)) == b
  {
    StoreLoad(host, b);
  }
}
