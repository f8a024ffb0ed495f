/** Little-endian integers of any width. */
module Endian {
  import opened Rtp

  function Pow256(k: nat): nat {
    if k == 0 then 1 else 256 * Pow256(k - 1)
  }

  function Digit(n: nat, i: nat): Byte {
    if i == 0 then n % 256 else Digit(n / 256, i - 1)
  }

  function PutLE(n: nat, k: nat): (b: Bytes)
    ensures |b| == k
  {
    seq(k, i requires 0 <= i < k => Digit(n, i))
  }

  function GetLE(b: Bytes): (n: nat)
    ensures n < Pow256(|b|)
  {
    if b == [] then 0
    else
      var low: int := b[0];
      low + 256 * GetLE(b[1..])
  }

  /** Every value that fits the width is read back. */
  lemma {:induction false} LittleEndianRoundTrip(n: nat, k: nat)
    requires n < Pow256(k)
    ensures GetLE(PutLE(n, k)) == n
  {
    if k == 0 {
    } else {
      assert n / 256 < Pow256(k - 1);
      LittleEndianRoundTrip(n / 256, k - 1);
      assert PutLE(n, k)[1..] == PutLE(n / 256, k - 1);
    }
  }

  function Value2(lo: int, hi: int): int {
    lo + 256 * hi
  }

  /** Two bytes are read lowest first. */
  lemma TwoByteValue(lo: Byte, hi: Byte)
    ensures GetLE([lo, hi]) == Value2(lo, hi)
  {
    assert [lo, hi][1..] == [hi] && [hi][1..] == [];
  }

  /** And written lowest first. */
  lemma {:induction false} TwoBytes(n: nat)
    requires n < 0x1_0000
    ensures PutLE(n, 2) == [n % 256, n / 256]
  {
    var b := PutLE(n, 2);
    LittleEndianRoundTrip(n, 2);
    TwoByteValue(b[0], b[1]);
    assert b == [b[0], b[1]];
  }
}
