/**
 * Octets and the fixed-width big-endian integer formats the codec hands to
 * Python's struct module: `>H` (2-octet unsigned), `>h`, `>i`, `>q`
 * (2-, 4- and 8-octet two's complement).
 */
module Bytes {

  type byte = b: int | 0 <= b < 256

  /** 256 to the power n: the number of values n octets can hold. */
  function Pow256(n: nat): (r: nat)
    ensures r >= 1
  {
    if n == 0 then 1 else 256 * Pow256(n - 1)
  }

  /** Half the range of an n-octet two's complement integer. */
  function Half(n: nat): (r: nat)
    requires n >= 1
  {
    128 * Pow256(n - 1)
  }

  lemma Pow256Widths()
    ensures Pow256(1) == 0x100 && Pow256(2) == 0x1_0000
    ensures Pow256(4) == 0x1_0000_0000
    ensures Pow256(8) == 0x1_0000_0000_0000_0000
    ensures Half(2) == 0x8000 && Half(4) == 0x8000_0000
    ensures Half(8) == 0x8000_0000_0000_0000
  {
    assert Pow256(2) == 0x1_0000;
    assert Pow256(4) == 0x1_0000_0000;
    assert Pow256(7) == 0x100_0000_0000_0000;
  }

  lemma DivBound(v: nat, m: nat)
    requires v < 256 * m
    ensures v / 256 < m
  {
  }

  lemma DivMod256(high: nat, low: byte)
    ensures (high * 256 + low) / 256 == high && (high * 256 + low) % 256 == low
  {
  }

  /** Big-endian unsigned encoding of v in exactly n octets. */
  function ToBE(v: nat, n: nat): (r: seq<byte>)
    requires v < Pow256(n)
    ensures |r| == n
  {
    if n == 0 then []
    else
      DivBound(v, Pow256(n - 1));
      ToBE(v / 256, n - 1) + [v % 256]
  }

  /** The unsigned value of a big-endian octet sequence. */
  function FromBE(s: seq<byte>): (v: nat)
    ensures v < Pow256(|s|)
  {
    if s == [] then 0
    else
      var high := FromBE(s[..|s| - 1]);
      assert high <= Pow256(|s| - 1) - 1;
      assert high * 256 <= Pow256(|s|) - 256;
      high * 256 + s[|s| - 1]
  }

  lemma {:induction false} FromToBE(v: nat, n: nat)
    requires v < Pow256(n)
    ensures FromBE(ToBE(v, n)) == v
  {
    if n > 0 {
      DivBound(v, Pow256(n - 1));
      var s := ToBE(v, n);
      assert s[..n - 1] == ToBE(v / 256, n - 1);
      FromToBE(v / 256, n - 1);
    }
  }

  lemma {:induction false} ToFromBE(s: seq<byte>)
    ensures ToBE(FromBE(s), |s|) == s
  {
    if s != [] {
      var n := |s|;
      var high := FromBE(s[..n - 1]);
      DivMod256(high, s[n - 1]);
      ToFromBE(s[..n - 1]);
      assert s == s[..n - 1] + [s[n - 1]];
    }
  }

  /** Whether v fits an n-octet two's complement field (struct raises otherwise). */
  predicate FitsSigned(v: int, n: nat)
  {
    n >= 1 && -(Half(n) as int) <= v < Half(n)
  }

  /** Two's complement encoding of v in n octets, as `pack(">h"/">i"/">q", v)`. */
  function PackSigned(v: int, n: nat): (r: seq<byte>)
    requires FitsSigned(v, n)
    ensures |r| == n
  {
    ToBE(if v < 0 then v + Pow256(n) else v, n)
  }

  /** The two's complement value of n >= 1 octets, as `unpack(">h"/">i"/">q", s)`. */
  function UnpackSigned(s: seq<byte>): (v: int)
    requires |s| >= 1
    ensures FitsSigned(v, |s|)
  {
    var u := FromBE(s);
    if u >= Half(|s|) then u - Pow256(|s|) else u
  }

  lemma SignedRoundTrip(v: int, n: nat)
    requires FitsSigned(v, n)
    ensures UnpackSigned(PackSigned(v, n)) == v
  {
    FromToBE(if v < 0 then v + Pow256(n) else v, n);
  }

  lemma SignedRoundTripBytes(s: seq<byte>)
    requires |s| >= 1
    ensures PackSigned(UnpackSigned(s), |s|) == s
  {
    ToFromBE(s);
  }
}
