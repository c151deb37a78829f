/** memcpy and memset into a byte buffer. */
module Memory {
  import opened Words

  function Patch(s: seq<u8>, at: nat, b: seq<u8>): (r: seq<u8>)
    requires at + |b| <= |s|
    ensures |r| == |s|
  {
    s[..at] + b + s[at + |b|..]
  }

  function Zeros(n: nat): (z: seq<u8>)
    ensures |z| == n && forall i :: 0 <= i < n ==> z[i] == 0
  {
    seq(n, _ => 0)
  }

  /** A slice of a patched buffer: the patch itself, or bytes the patch did not reach. */
  lemma PatchSlices(s: seq<u8>, at: nat, b: seq<u8>)
    requires at + |b| <= |s|
    ensures Patch(s, at, b)[at..at + |b|] == b
    ensures forall i, j :: 0 <= i <= j <= at ==> Patch(s, at, b)[i..j] == s[i..j]
    ensures forall i, j :: at + |b| <= i <= j <= |s| ==> Patch(s, at, b)[i..j] == s[i..j]
  {
  }

  /** Two copies one after the other from the front. */
  lemma PatchTwice(s: seq<u8>, a: seq<u8>, b: seq<u8>)
    requires |a| + |b| <= |s|
    ensures Patch(Patch(s, 0, a), |a|, b) == a + b + s[|a| + |b|..]
  {
  }

  method CopyInto(dst: array<u8>, at: nat, b: seq<u8>)
    requires at + |b| <= dst.Length
    modifies dst
    ensures dst[..] == Patch(old(dst[..]), at, b)
  {
    var i := 0;
    while i < |b|
      invariant 0 <= i <= |b|
      invariant forall k :: 0 <= k < dst.Length ==>
        dst[k] == if at <= k < at + i then b[k - at] else old(dst[k])
    {
      dst[at + i] := b[i];
      i := i + 1;
    }
  }
}
