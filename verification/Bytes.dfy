/** Byte strings, powers and big-endian integers. */
module Bytes {

  type byte = b: int | 0 <= b < 256

  function Pow(b: nat, e: nat): nat {
    if e == 0 then 1 else b * Pow(b, e - 1)
  }

  lemma {:induction false} PowPositive(b: nat, e: nat)
    requires b > 0
    ensures Pow(b, e) > 0
  {
    if e > 0 {
      PowPositive(b, e - 1);
    }
  }

  lemma {:induction false} PowAdd(b: nat, m: nat, n: nat)
    ensures Pow(b, m + n) == Pow(b, m) * Pow(b, n)
  {
    if m > 0 {
      PowAdd(b, m - 1, n);
      assert b * (Pow(b, m - 1) * Pow(b, n)) == (b * Pow(b, m - 1)) * Pow(b, n);
    }
  }

  lemma MulGrows(b: nat, p: nat)
    requires b > 0
    ensures b * p >= p
  {
  }

  lemma {:induction false} PowMonotone(b: nat, m: nat, n: nat)
    requires b > 0 && m <= n
    ensures Pow(b, m) <= Pow(b, n)
    decreases n - m
  {
    if m < n {
      PowMonotone(b, m, n - 1);
      MulGrows(b, Pow(b, n - 1));
    }
  }

  /** The big-endian value of a byte string, accumulated left to right. */
  function ToNat(bs: seq<byte>): nat {
    if bs == [] then 0 else ToNat(bs[..|bs| - 1]) * 256 + bs[|bs| - 1]
  }

  /** The shortest big-endian byte string of a number; empty for zero. */
  function FromNat(n: nat): seq<byte> {
    if n == 0 then [] else FromNat(n / 256) + [n % 256]
  }

  lemma {:induction false} ToNatFromNat(n: nat)
    ensures ToNat(FromNat(n)) == n
  {
    if n > 0 {
      ToNatFromNat(n / 256);
      assert FromNat(n)[..|FromNat(n)| - 1] == FromNat(n / 256);
    }
  }

  /** No leading zero, and the length is the least one that fits. */
  lemma {:induction false} FromNatMinimal(n: nat)
    ensures FromNat(n) != [] ==> FromNat(n)[0] != 0
    ensures n == 0 <==> FromNat(n) == []
  {
    if n >= 256 {
      FromNatMinimal(n / 256);
    }
  }

  lemma {:induction false} FromNatLength(n: nat, k: nat)
    ensures n < Pow(256, k) <==> |FromNat(n)| <= k
  {
    if n == 0 {
      PowPositive(256, k);
    } else if k > 0 {
      FromNatLength(n / 256, k - 1);
      assert Pow(256, k) == 256 * Pow(256, k - 1);
    }
  }

  lemma {:induction false} ToNatAppend(a: seq<byte>, b: seq<byte>)
    ensures ToNat(a + b) == ToNat(a) * Pow(256, |b|) + ToNat(b)
  {
    if b == [] {
      assert a + b == a;
    } else {
      var b' := b[..|b| - 1];
      ToNatAppend(a, b');
      assert (a + b)[..|a + b| - 1] == a + b';
      assert Pow(256, |b|) == 256 * Pow(256, |b'|);
      assert ToNat(a) * Pow(256, |b'|) * 256 == ToNat(a) * Pow(256, |b|) by {
        assert ToNat(a) * Pow(256, |b'|) * 256 == ToNat(a) * (Pow(256, |b'|) * 256);
      }
    }
  }

  /** The bytes after the leading zeros. */
  function StripZeros(bs: seq<byte>): seq<byte> {
    if bs != [] && bs[0] == 0 then StripZeros(bs[1..]) else bs
  }

  /** stripZeros: the scan for the first non-zero entry. */
  method StripLeadingZeros(bs: seq<byte>) returns (r: seq<byte>)
    ensures r == StripZeros(bs)
  {
    r := bs;
    if |r| == 0 {
      return;
    }
    var start := 0;
    while start < |r| && r[start] == 0
      invariant 0 <= start <= |r|
      invariant StripZeros(bs) == StripZeros(bs[start..])
    {
      assert bs[start..][1..] == bs[start + 1..];
      start := start + 1;
    }
    if start != 0 {
      r := r[start..];
    }
    assert bs[start..] == r;
  }

  lemma {:induction false} StripZerosIdentity(bs: seq<byte>)
    requires bs == [] || bs[0] != 0
    ensures StripZeros(bs) == bs
  {
  }

  lemma {:induction false} ToNatLeadingZero(bs: seq<byte>)
    requires bs != [] && bs[0] == 0
    ensures ToNat(bs) == ToNat(bs[1..])
  {
    assert bs == [bs[0]] + bs[1..];
    ToNatAppend([bs[0]], bs[1..]);
    assert ToNat([bs[0]]) == 0;
  }

  /** Reading a number and writing it back drops exactly the leading zeros. */
  lemma {:induction false} FromNatToNat(bs: seq<byte>)
    ensures FromNat(ToNat(bs)) == StripZeros(bs)
    decreases |bs|
  {
    if bs == [] {
    } else if bs[0] == 0 {
      ToNatLeadingZero(bs);
      FromNatToNat(bs[1..]);
    } else {
      FromNatToNatNonZero(bs);
    }
  }

  lemma {:induction false} FromNatToNatNonZero(bs: seq<byte>)
    requires bs != [] && bs[0] != 0
    ensures FromNat(ToNat(bs)) == bs && ToNat(bs) > 0
  {
    var init := bs[..|bs| - 1];
    assert ToNat(bs) == ToNat(init) * 256 + bs[|bs| - 1];
    assert ToNat(bs) / 256 == ToNat(init) && ToNat(bs) % 256 == bs[|bs| - 1];
    if init == [] {
      assert bs == [bs[0]];
      assert FromNat(ToNat(bs)) == FromNat(0) + [bs[0]];
    } else {
      FromNatToNatNonZero(init);
    }
  }

  function Zeros(n: nat): (bs: seq<byte>)
    ensures |bs| == n && forall i :: 0 <= i < n ==> bs[i] == 0
  {
    seq(n, _ => 0)
  }

  lemma {:induction false} LeadingZeros(n: nat, bs: seq<byte>)
    ensures ToNat(Zeros(n) + bs) == ToNat(bs)
  {
    if n == 0 {
      assert Zeros(0) + bs == bs;
    } else {
      ToNatLeadingZero(Zeros(n) + bs);
      assert (Zeros(n) + bs)[1..] == Zeros(n - 1) + bs;
      LeadingZeros(n - 1, bs);
    }
  }

  // ---------- safe integers ----------

  /** The largest number that `getNumber` gives back. */
  const MAX_SAFE := 0x1f_ffff_ffff_ffff

  lemma SafeLength(value: nat)
    requires value <= MAX_SAFE
    ensures |FromNat(value)| <= 7
  {
    hide Pow, FromNat;
    PowAdd(256, 1, 6);
    SevenBytes();
    FromNatLength(value, 7);
  }

  lemma SevenBytes()
    ensures Pow(256, 7) == 0x100_0000_0000_0000
  {
    assert Pow(256, 2) == 0x1_0000;
    assert Pow(256, 4) == 0x1_0000_0000;
    assert Pow(256, 6) == 0x1_0000_0000_0000;
  }
}
