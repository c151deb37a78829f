/** The 16-bit one's-complement checksum of RFC 1071 section 1, as ipChecksum computes it. */
module OnesComplement {
  import opened Words

  /** The sum of the big-endian 16-bit words, an odd last byte counting as the high one. */
  function WordSum(data: seq<u8>): nat {
    if |data| == 0 then 0
    else if |data| == 1 then data[0] * 256
    else data[0] * 256 + data[1] + WordSum(data[2..])
  }

  function FoldOnce(sum: nat): nat {
    sum % 0x1_0000 + sum / 0x1_0000
  }

  /** while (sum >> 16) sum = (sum & 0xFFFF) + (sum >> 16). */
  function Fold(sum: nat): u16 {
    if sum < 0x1_0000 then sum else Fold(FoldOnce(sum))
  }

  /** ~Fold(sum), the sum having been kept in 32 bits. */
  function Checksum(data: seq<u8>): u16 {
    0xffff - Fold(WordSum(data) % 0x1_0000_0000)
  }

  /** How many times 65535 the folds have taken off. */
  function FoldQuotient(sum: nat): nat {
    if sum < 0x1_0000 then 0 else sum / 0x1_0000 + FoldQuotient(FoldOnce(sum))
  }

  lemma FoldOnceTakesOff(sum: nat)
    ensures FoldOnce(sum) + 0xffff * (sum / 0x1_0000) == sum
    ensures FoldOnce(sum) == 0 <==> sum == 0
  {
  }

  /** Folding keeps the sum modulo 65535, and only 0 folds to 0. */
  lemma {:induction false} FoldTakesOff(sum: nat)
    ensures Fold(sum) + 0xffff * FoldQuotient(sum) == sum
    ensures Fold(sum) == 0 <==> sum == 0
  {
    if sum >= 0x1_0000 {
      FoldOnceTakesOff(sum);
      FoldTakesOff(FoldOnce(sum));
    }
  }

  /** On a 32-bit sum the loop ends after at most two folds. */
  lemma TwoFoldsSuffice(sum: u32)
    ensures FoldOnce(FoldOnce(sum)) < 0x1_0000
    ensures Fold(sum) == FoldOnce(FoldOnce(sum))
  {
    FoldOnceTakesOff(sum);
    FoldOnceTakesOff(FoldOnce(sum));
    assert sum / 0x1_0000 <= 0xffff;
    assert FoldOnce(sum) <= 0x1_fffe;
    if sum < 0x1_0000 {
      assert FoldOnce(sum) == sum;
    } else if FoldOnce(sum) >= 0x1_0000 {
      assert FoldOnce(sum) / 0x1_0000 == 1;
      assert Fold(FoldOnce(sum)) == FoldOnce(FoldOnce(sum));
    }
  }

  /** A nonzero sum folds to the one value in 1..65535 congruent to it modulo 65535. */
  lemma FoldValue(sum: nat)
    ensures sum == 0 ==> Fold(sum) == 0
    ensures sum > 0 ==> 1 <= Fold(sum) <= 0xffff && (sum - Fold(sum)) % 0xffff == 0
  {
    FoldTakesOff(sum);
    assert sum - Fold(sum) == 0xffff * FoldQuotient(sum);
  }

  lemma {:induction false} WordSumBound(data: seq<u8>)
    ensures WordSum(data) <= |data| / 2 * 0xffff + (if |data| % 2 == 1 then 0xff00 else 0)
  {
    if |data| >= 2 {
      WordSumBound(data[2..]);
    }
  }

  lemma ShortSumFits(data: seq<u8>)
    requires |data| <= 131074
    ensures WordSum(data) < 0x1_0000_0000
    ensures WordSum(data) % 0x1_0000_0000 == WordSum(data)
  {
    WordSumBound(data);
  }

  function AllOnes(n: nat): (data: seq<u8>)
    ensures |data| == n
  {
    seq(n, _ => 0xff)
  }

  lemma {:induction false} AllOnesSum(n: nat)
    ensures WordSum(AllOnes(n)) == n / 2 * 0xffff + (if n % 2 == 1 then 0xff00 else 0)
  {
    if n >= 2 {
      assert AllOnes(n)[2..] == AllOnes(n - 2);
      AllOnesSum(n - 2);
    }
  }

  /** The 32-bit accumulator holds the sum of every n-byte string exactly when n <= 131074. */
  lemma AccumulatorNeverWrapsIff(n: nat)
    ensures (forall data: seq<u8> :: |data| == n ==> WordSum(data) < 0x1_0000_0000) <==> n <= 131074
  {
    if n <= 131074 {
      forall data: seq<u8> | |data| == n
        ensures WordSum(data) < 0x1_0000_0000
      {
        ShortSumFits(data);
      }
    } else {
      AllOnesSum(n);
      assert |AllOnes(n)| == n;
    }
  }

  /** data with the two bytes at an even offset replaced by a word, high byte first. */
  function Install(data: seq<u8>, at: nat, word: u16): (r: seq<u8>)
    requires at + 2 <= |data|
    ensures |r| == |data|
  {
    data[..at] + [word / 256, word % 256] + data[at + 2..]
  }

  lemma {:induction false} InstallSum(data: seq<u8>, at: nat, word: u16)
    requires at % 2 == 0 && at + 2 <= |data|
    requires data[at] == 0 && data[at + 1] == 0
    ensures WordSum(Install(data, at, word)) == WordSum(data) + word
  {
    if at == 0 {
      assert Install(data, at, word)[2..] == data[2..];
    } else {
      assert Install(data, at, word)[2..] == Install(data[2..], at - 2, word);
      InstallSum(data[2..], at - 2, word);
    }
  }

  /** Adding the complement of the folded sum makes the folded sum all ones. */
  lemma ComplementFoldsToOnes(sum: nat)
    ensures Fold(sum + (0xffff - Fold(sum))) == 0xffff
  {
    var total := sum + (0xffff - Fold(sum));
    FoldTakesOff(sum);
    FoldTakesOff(total);
  }

  /** A header whose checksum field held 0 while the checksum was taken verifies to 0 once it is in. */
  lemma InstalledChecksumVerifies(header: seq<u8>, at: nat)
    requires |header| <= 131074
    requires at % 2 == 0 && at + 2 <= |header|
    requires header[at] == 0 && header[at + 1] == 0
    ensures Checksum(Install(header, at, Checksum(header))) == 0
  {
    ShortSumFits(header);
    ShortSumFits(Install(header, at, Checksum(header)));
    InstallSum(header, at, Checksum(header));
    ComplementFoldsToOnes(WordSum(header));
  }

  /** What the checksum of a short header is: the complement of the value in 1..65535 congruent to
      its word sum. */
  lemma ChecksumValue(data: seq<u8>)
    requires |data| <= 131074 && WordSum(data) > 0
    ensures Checksum(data) < 0xffff && (WordSum(data) + Checksum(data)) % 0xffff == 0
  {
    ShortSumFits(data);
    FoldTakesOff(WordSum(data));
    assert WordSum(data) + Checksum(data) == 0xffff * (FoldQuotient(WordSum(data)) + 1);
  }

  /** Reducing the running sum to 32 bits early does not change the total modulo 2^32. */
  lemma Accumulate(sum: nat, word: nat, rest: nat)
    ensures ((sum + word) % 0x1_0000_0000 + rest) % 0x1_0000_0000 == (sum + (word + rest)) % 0x1_0000_0000
  {
  }

  /** The accumulating loop, in 32 bits. */
  method SumWords(data: array<u8>, at: nat, len: nat) returns (sum: u32)
    requires at + len <= data.Length
    ensures sum == WordSum(data[at..at + len]) % 0x1_0000_0000
  {
    ghost var all := data[at..at + len];
    var p, left := at, len;
    sum := 0;
    while left > 1
      invariant p + left == at + len
      invariant (sum + WordSum(data[p..p + left])) % 0x1_0000_0000 == WordSum(all) % 0x1_0000_0000
    {
      ghost var rest := data[p..p + left];
      assert rest[2..] == data[p + 2..p + left];
      var hi: int, lo: int := data[p], data[p + 1];
      Accumulate(sum, hi * 256 + lo, WordSum(rest[2..]));
      sum := (sum + (hi * 256 + lo)) % 0x1_0000_0000;
      p := p + 2;
      left := left - 2;
    }
    if left == 1 {
      var hi: int := data[p];
      sum := (sum + hi * 256) % 0x1_0000_0000;
    }
  }

  method IpChecksum(data: array<u8>, at: nat, len: nat) returns (c: u16)
    requires at + len <= data.Length
    ensures c == Checksum(data[at..at + len])
  {
    var sum := SumWords(data, at, len);
    ghost var all: nat := sum;
    while sum / 0x1_0000 != 0
      invariant Fold(sum) == Fold(all)
      decreases sum
    {
      FoldOnceTakesOff(sum);
      sum := sum % 0x1_0000 + sum / 0x1_0000;
    }
    c := 0xffff - sum;
  }
}
