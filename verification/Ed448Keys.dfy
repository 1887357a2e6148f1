/**
 * Key derivation over Ed448: scalars as 57 little-endian bytes, added with a running carry. The
 * key derivation function and the curve are parameters.
 */
module Ed448Keys {
  import opened Wrappers
  import opened Bytes
  import opened Arithmetic

  // ---------- little-endian numbers ----------

  function LE(bs: seq<byte>): (n: int)
    ensures n >= 0
  {
    if bs == [] then 0 else bs[0] + 256 * LE(bs[1..])
  }

  function ToLE(n: nat, len: nat): (bs: seq<byte>)
    ensures |bs| == len
  {
    if len == 0 then [] else [n % 256] + ToLE(n / 256, len - 1)
  }

  lemma {:induction false} LEOfToLE(n: nat, len: nat)
    requires n < Pow(256, len)
    ensures LE(ToLE(n, len)) == n
  {
    if len > 0 {
      LEOfToLE(n / 256, len - 1);
      assert ToLE(n, len)[1..] == ToLE(n / 256, len - 1);
    }
  }

  lemma {:induction false} ToLEOfLE(bs: seq<byte>)
    ensures ToLE(LE(bs), |bs|) == bs
  {
    if bs != [] {
      ToLEOfLE(bs[1..]);
      var n := LE(bs);
      assert n % 256 == bs[0] && n / 256 == LE(bs[1..]);
    }
  }

  lemma {:induction false} LEBound(bs: seq<byte>)
    ensures LE(bs) < Pow(256, |bs|)
  {
    if bs != [] {
      LEBound(bs[1..]);
    }
  }

  lemma Distribute(a: int, b: int, p: int)
    ensures 256 * (a + b * p) == 256 * a + b * (256 * p)
  {
  }

  lemma {:induction false} LEAppend(bs: seq<byte>, b: byte)
    ensures LE(bs + [b]) == LE(bs) + b * Pow(256, |bs|)
  {
    if bs != [] {
      assert (bs + [b])[1..] == bs[1..] + [b];
      LEAppend(bs[1..], b);
      Distribute(LE(bs[1..]), b, Pow(256, |bs| - 1));
    } else {
      assert [b][1..] == [];
    }
  }

  lemma LESplit(bs: seq<byte>, k: nat)
    requires k < |bs|
    ensures LE(bs[..k + 1]) == LE(bs[..k]) + bs[k] * Pow(256, k)
  {
    assert bs[..k + 1] == bs[..k] + [bs[k]];
    LEAppend(bs[..k], bs[k]);
  }

  lemma {:induction false} LEZeros(bs: seq<byte>, n: nat)
    ensures LE(bs + Zeros(n)) == LE(bs)
    decreases |bs| + n
  {
    if bs != [] {
      assert (bs + Zeros(n))[1..] == bs[1..] + Zeros(n);
      LEZeros(bs[1..], n);
    } else if n > 0 {
      assert (bs + Zeros(n))[1..] == [] + Zeros(n - 1);
      LEZeros([], n - 1);
    } else {
      assert bs + Zeros(0) == bs;
    }
  }

  lemma LEFirst(bs: seq<byte>, b: byte)
    requires bs != []
    ensures LE(bs[0 := b]) == LE(bs) - bs[0] + b && LE(bs) % 4 == bs[0] % 4
  {
    assert bs[0 := b][1..] == bs[1..];
    SameModulo(LE(bs), bs[0], 4, 64 * LE(bs[1..]));
  }

  // ---------- adding ----------

  /** `& 0xfc`. */
  function ClearLow(b: byte): byte {
    b - b % 4
  }

  /** `| 0x80`. */
  function SetHigh(b: byte): byte {
    if b >= 128 then b else b + 128
  }

  /** The offset that is added: 53 bytes of the derived ones, a multiple of four. */
  function Truncated(b: seq<byte>): (r: seq<byte>)
    requires |b| == 57
    ensures |r| == 57
  {
    (b[..53] + Zeros(4))[0 := ClearLow(b[0])]
  }

  function Offset(b: seq<byte>): int
    requires |b| == 57
  {
    LE(Truncated(b))
  }

  lemma TruncatedIs(b: seq<byte>)
    requires |b| == 57
    ensures Truncated(b) == b[..53][0 := ClearLow(b[0])] + Zeros(4) && Truncated(b)[0] == ClearLow(b[0])
  {
    hide ClearLow;
  }

  lemma ClearLowFour(b: byte)
    ensures ClearLow(b) % 4 == 0
  {
  }

  lemma OffsetBounds(b: seq<byte>)
    requires |b| == 57
    ensures 0 <= Offset(b) < Pow(256, 53) && Offset(b) % 4 == 0
  {
    hide LE, Pow, ClearLow, Truncated, Zeros;
    var kept := b[..53][0 := ClearLow(b[0])];
    TruncatedIs(b);
    LEZeros(kept, 4);
    LEBound(kept);
    LEFirst(Truncated(b), 0);
    ClearLowFour(b[0]);
  }

  function Total(a: seq<byte>, b: seq<byte>): int
    requires |a| == 57 && |b| == 57
  {
    LE(a) + Offset(b)
  }

  /** The sum of a key and an offset, modulo 2^456. */
  function AddScalar(a: seq<byte>, b: seq<byte>): (c: seq<byte>)
    requires |a| == 57 && |b| == 57
    ensures |c| == 57
  {
    PowPositive(256, 57);
    ToLE(Total(a, b) % Pow(256, 57), 57)
  }

  /** What has been written, with the carry, against what has been read. */
  ghost predicate Carried(a: seq<byte>, b: seq<byte>, c: seq<byte>, hold: int, p: int) {
    LE(c) + hold * p == LE(a) + LE(b)
  }

  lemma CarryStep(a: seq<byte>, b: seq<byte>, c: seq<byte>, hold: int, i: nat)
    requires i < |a| && i < |b| && 0 <= hold <= 1 && |c| == i
    requires Carried(a[..i], b[..i], c, hold, Pow(256, i))
    ensures var h := hold + a[i] + b[i];
            0 <= h / 256 <= 1 && Carried(a[..i + 1], b[..i + 1], c + [h % 256], h / 256, Pow(256, i + 1))
  {
    hide LE;
    LESplit(a, i);
    LESplit(b, i);
    var h: int := hold + a[i] + b[i];
    LEAppend(c, h % 256);
    CarryAlgebra(h, Pow(256, i), hold, a[i], b[i]);
  }

  lemma CarryAlgebra(h: int, p: int, hold: int, x: int, y: int)
    requires h == hold + x + y
    ensures h % 256 * p + h / 256 * (256 * p) == hold * p + x * p + y * p
  {
    var q, r := h / 256, h % 256;
    assert r * p + q * (256 * p) == (r + 256 * q) * p;
    assert (hold + x + y) * p == hold * p + x * p + y * p;
  }

  /** `addScalar`: the loop over the 57 bytes; the last carry is dropped. */
  method AddScalarLoop(a: seq<byte>, b: seq<byte>) returns (c: array<byte>)
    requires |a| == 57 && |b| == 57
    ensures fresh(c) && c[..] == AddScalar(a, b)
  {
    hide LE, ToLE, Pow, Carried;
    var b1 := new byte[57](i requires 0 <= i < 57 => if i < 53 then b[i] else 0);
    b1[0] := ClearLow(b1[0]);
    assert b1[..] == Truncated(b);
    c := new byte[57](_ => 0);
    var hold: int := 0;
    CarryStart(a, Truncated(b));
    assert c[..0] == [];
    for i := 0 to 57
      invariant 0 <= hold <= 1 && b1[..] == Truncated(b)
      invariant Carried(a[..i], Truncated(b)[..i], c[..i], hold, Pow(256, i))
    {
      ghost var written := c[..i];
      assert b1[i] == b1[..][i];
      CarryStep(a, Truncated(b), written, hold, i);
      var x: int, y: int := a[i], b1[i];
      hold := hold + x + y;
      c[i] := hold % 256;
      hold := hold / 256;
      assert c[..i + 1] == written + [c[i]];
    }
    assert a[..57] == a && Truncated(b)[..57] == Truncated(b) && c[..57] == c[..];
    CarryEnd(a, b, c[..], hold);
  }

  lemma CarryStart(a: seq<byte>, b: seq<byte>)
    requires |a| == 57 && |b| == 57
    ensures Carried(a[..0], b[..0], [], 0, Pow(256, 0))
  {
  }

  lemma CarryEnd(a: seq<byte>, b: seq<byte>, c: seq<byte>, hold: int)
    requires |a| == 57 && |b| == 57 && |c| == 57 && 0 <= hold <= 1
    requires Carried(a, Truncated(b), c, hold, Pow(256, 57))
    ensures c == AddScalar(a, b)
  {
    hide LE, Pow, ToLE;
    LEBound(c);
    QuotientRemainder(Total(a, b), hold, Pow(256, 57), LE(c));
    ToLEOfLE(c);
  }

  // ---------- clamping ----------

  /** The scalar of a key in scalar mode: 56 bytes, the low bits cleared and the high one set. */
  function Clamp(key: seq<byte>): (s: seq<byte>)
    requires |key| == 57
    ensures |s| == 56
  {
    key[..56][0 := ClearLow(key[0])][55 := SetHigh(key[55])]
  }

  predicate ScalarMode(key: seq<byte>)
    requires |key| == 57
  {
    key[56] > 127
  }

  /** The number in the first 56 bytes. */
  function Low(key: seq<byte>): int
    requires |key| == 57
  {
    LE(key[..56])
  }

  /** Signing clamps a copy of the whole key; the scalar is the one the public key comes from. */
  function SigningScalar(key: seq<byte>): seq<byte>
    requires |key| == 57
  {
    var prefix := key[0 := ClearLow(key[0])][56 := 0][55 := SetHigh(key[55])];
    prefix[..56]
  }

  lemma SameScalar(key: seq<byte>)
    requires |key| == 57
    ensures SigningScalar(key) == Clamp(key)
  {
  }

  /** With the high bit set already, clamping only rounds down to a multiple of four. */
  lemma ClampRounds(key: seq<byte>)
    requires |key| == 57 && key[55] >= 128
    ensures LE(Clamp(key)) == Low(key) - Low(key) % 4
  {
    hide LE;
    var low := key[..56];
    assert Clamp(key) == low[0 := ClearLow(low[0])];
    LEFirst(low, ClearLow(low[0]));
  }

  /** The top byte and the high bit of the one below it, read off the number. */
  lemma HighBits(key: seq<byte>)
    requires |key| == 57
    ensures LE(key) == Low(key) + key[56] * Pow(256, 56) && 0 <= Low(key) < Pow(256, 56)
    ensures key[55] >= 128 <==> Low(key) >= 128 * Pow(256, 55)
  {
    hide LE, Pow;
    LESplit(key, 56);
    assert key[..57] == key;
    LEBound(key[..56]);
    LESplit(key, 55);
    LEBound(key[..55]);
    HighBitAlgebra(key[55], LE(key[..55]), Pow(256, 55));
  }

  lemma HighBitAlgebra(b: int, r: int, p: int)
    requires 0 <= r < p
    ensures b >= 128 <==> r + b * p >= 128 * p
  {
    TimesAtLeast(b - 128, p);
    assert (b - 128) * p == b * p - 128 * p;
  }

  /** As long as the sum stays below 2^448, the top byte does not change and nothing is lost. */
  lemma AddExact(a: seq<byte>, b: seq<byte>)
    requires |a| == 57 && |b| == 57 && Low(a) + Offset(b) < Pow(256, 56)
    ensures Low(AddScalar(a, b)) == Low(a) + Offset(b) && AddScalar(a, b)[56] == a[56]
  {
    hide LE, Pow, Low, Offset, AddScalar;
    var c, p := AddScalar(a, b), Pow(256, 56);
    HighBits(a);
    HighBits(c);
    OffsetBounds(b);
    SumIs(a, b);
    QuotientRemainder(LE(c), c[56], p, Low(c));
    QuotientRemainder(LE(c), a[56], p, Low(a) + Offset(b));
  }

  lemma SumIs(a: seq<byte>, b: seq<byte>)
    requires |a| == 57 && |b| == 57 && Low(a) + Offset(b) < Pow(256, 56)
    ensures LE(AddScalar(a, b)) == LE(a) + Offset(b)
  {
    hide LE, Pow, Low, Offset, ToLE;
    var p := Pow(256, 56);
    HighBits(a);
    OffsetBounds(b);
    NextPower(56);
    TopByte(a[56], Low(a) + Offset(b), p);
    QuotientRemainder(Total(a, b), 0, Pow(256, 57), Total(a, b));
    LEOfToLE(Total(a, b), 57);
  }

  lemma NextPower(k: nat)
    ensures Pow(256, k + 1) == 256 * Pow(256, k) && Pow(256, k) > 0
  {
    PowPositive(256, k);
  }

  lemma TopByte(b: int, r: int, p: int)
    requires 0 <= b < 256 && 0 <= r < p
    ensures r + b * p < 256 * p
  {
    TimesAtLeast(256 - b, p);
    assert (256 - b) * p == 256 * p - b * p;
  }

  // ---------- derivation ----------

  /** A key derivation function with 57 bytes of output. */
  type Kdf = f: (seq<byte>, seq<byte>) -> seq<byte> | forall p, s :: |f(p, s)| == 57 witness (p, s) => seq(57, _ => 0)

  datatype Curve = Curve(kdf: Kdf, fromScalar: seq<byte> -> seq<byte>, fromSecret: seq<byte> -> seq<byte>)

  /** A chain code and a key. */
  datatype Extended = Extended(chain: seq<byte>, key: seq<byte>)

  function Ascii(s: string): seq<byte> {
    if s == "" then [] else [s[0] as int % 256] + Ascii(s[1..])
  }

  function SeedKey(raw: seq<byte>): (key: seq<byte>)
    requires |raw| == 57
    ensures |key| == 57
  {
    var high: int := SetHigh(raw[55]);
    raw[56 := SetHigh(raw[56])][55 := high - high / 64 % 2 * 64]
  }

  function SeedToExtendedPrivate(c: Curve, seed: seq<byte>): (x: Extended)
    ensures |x.key| == 57
  {
    Extended(c.kdf(seed, Ascii("mnemonicforthechain")), SeedKey(c.kdf(seed, Ascii("mnemonicforthekey"))))
  }

  function PublicKey(c: Curve, key: seq<byte>): seq<byte>
    requires |key| == 57
  {
    if ScalarMode(key) then c.fromScalar(Clamp(key)) else c.fromSecret(key)
  }

  /** What has been written, and what is still to be written of the index. */
  ghost predicate Written(done: seq<byte>, j: nat, index: nat) {
    |done| <= 4 && done + ToLE(j, 4 - |done|) == ToLE(index, 4)
  }

  lemma WrittenStart(index: nat)
    ensures Written([], index, index)
  {
    hide ToLE;
    assert [] + ToLE(index, 4) == ToLE(index, 4);
  }

  lemma WrittenStep(done: seq<byte>, j: nat, index: nat)
    requires Written(done, j, index) && |done| < 4
    ensures Written(done + [j % 256], j / 256, index)
  {
    hide ToLE;
    LowestByte(j, 4 - |done|);
    var rest := ToLE(j / 256, 4 - |done| - 1);
    assert done + ([j % 256] + rest) == (done + [j % 256]) + rest;
  }

  lemma WrittenEnd(done: seq<byte>, j: nat, index: nat)
    requires Written(done, j, index) && |done| == 4
    ensures done == ToLE(index, 4)
  {
    assert ToLE(j, 0) == [] && done + [] == done;
  }

  /** The four bytes of an index. */
  method IndexBytes(index: nat) returns (ind: array<byte>)
    ensures fresh(ind) && ind[..] == ToLE(index, 4)
  {
    hide ToLE, Written;
    ind := new byte[4](_ => 0);
    var j := index;
    WrittenStart(index);
    assert ind[..0] == [];
    for i := 0 to 4
      invariant Written(ind[..i], j, index)
    {
      ghost var written := ind[..i];
      WrittenStep(written, j, index);
      ind[i] := j % 256;
      j := j / 256;
      assert ind[..i + 1] == written + [ind[i]];
    }
    WrittenEnd(ind[..4], j, index);
    assert ind[..4] == ind[..];
  }

  lemma LowestByte(j: nat, len: nat)
    requires len > 0
    ensures ToLE(j, len) == [j % 256] + ToLE(j / 256, len - 1)
  {
  }

  function ConcatenateAndHash(c: Curve, prefix: byte, key: seq<byte>, index: nat, salt: seq<byte>): (r: seq<byte>)
    ensures |r| == 57
  {
    c.kdf([prefix] + key + ToLE(index, 4), salt)
  }

  /** The bytes the offset is made of: from the key itself for a hardened index, else from the public key. */
  function OffsetBytes(c: Curve, x: Extended, index: nat): (r: seq<byte>)
    requires |x.key| == 57
    ensures |r| == 57
  {
    if index >= 0x8000_0000 then ConcatenateAndHash(c, 0, x.key, index, x.chain)
    else ConcatenateAndHash(c, 2, PublicKey(c, x.key), index, x.chain)
  }

  function ChildPrivateToPrivate(c: Curve, x: Extended, index: nat): (y: Extended)
    requires |x.key| == 57
    ensures |y.key| == 57
  {
    var chain := if index >= 0x8000_0000 then ConcatenateAndHash(c, 1, x.key, index, x.chain)
                 else ConcatenateAndHash(c, 3, PublicKey(c, x.key), index, x.chain);
    Extended(chain, AddScalar(x.key, OffsetBytes(c, x, index)))
  }

  function Derive(c: Curve, seed: seq<byte>, indices: seq<nat>): (x: Extended)
    ensures |x.key| == 57
  {
    if indices == [] then SeedToExtendedPrivate(c, seed)
    else
      ChildPrivateToPrivate(c, Derive(c, seed, indices[..|indices| - 1]), indices[|indices| - 1])
  }

  const MAX_DEPTH := 0x40_0000

  /** After so many derivations the number is below the seed's bound by no more than their offsets. */
  ghost predicate KeyOk(key: seq<byte>, top: byte, depth: nat)
    requires |key| == 57
  {
    && key[56] == top
    && 128 * Pow(256, 55) <= Low(key) < 192 * Pow(256, 55) + depth * Pow(256, 53)
  }

  lemma SeedOk(raw: seq<byte>)
    requires |raw| == 57
    ensures KeyOk(SeedKey(raw), SeedKey(raw)[56], 0) && SeedKey(raw)[56] >= 128
  {
    hide LE, Pow, Low;
    var key := SeedKey(raw);
    HighBits(key);
    assert 128 <= key[55] < 192;
    LowBelow(key);
  }

  lemma LowBelow(key: seq<byte>)
    requires |key| == 57 && key[55] < 192
    ensures Low(key) < 192 * Pow(256, 55)
  {
    hide LE, Pow;
    LESplit(key, 55);
    LEBound(key[..55]);
    var p := Pow(256, 55);
    TimesAtLeast(192 - key[55], p);
    assert (192 - key[55]) * p == 192 * p - key[55] * p;
  }

  /** 2^22 offsets below 2^424 fit between 192 * 2^440 and 2^448. */
  lemma Headroom(depth: nat)
    requires depth <= MAX_DEPTH
    ensures 192 * Pow(256, 55) + depth * Pow(256, 53) <= Pow(256, 56)
  {
    hide Pow;
    var p := Pow(256, 53);
    NextPower(53);
    NextPower(54);
    NextPower(55);
    assert Pow(256, 56) == 0x100_0000 * p && 192 * Pow(256, 55) == 0xc0_0000 * p;
    assert depth * p <= MAX_DEPTH * p by {
      if depth < MAX_DEPTH {
        TimesAtLeast(MAX_DEPTH - depth, p);
        assert (MAX_DEPTH - depth) * p == MAX_DEPTH * p - depth * p;
      }
    }
  }

  lemma OneMore(depth: nat, p: int)
    ensures (depth + 1) * p == depth * p + p
  {
  }

  lemma ChildOk(key: seq<byte>, top: byte, depth: nat, r: seq<byte>)
    requires |key| == 57 && |r| == 57 && KeyOk(key, top, depth) && depth < MAX_DEPTH
    ensures KeyOk(AddScalar(key, r), top, depth + 1)
    ensures Low(AddScalar(key, r)) == Low(key) + Offset(r)
  {
    hide LE, Pow, Low, Offset, AddScalar;
    Headroom(depth + 1);
    OneMore(depth, Pow(256, 53));
    OffsetBounds(r);
    AddExact(key, r);
  }

  lemma DeriveSeed(c: Curve, seed: seq<byte>)
    ensures Derive(c, seed, []) == SeedToExtendedPrivate(c, seed)
    ensures exists raw :: |raw| == 57 && SeedToExtendedPrivate(c, seed).key == SeedKey(raw)
  {
    hide SeedKey;
    assert |c.kdf(seed, Ascii("mnemonicforthekey"))| == 57;
  }

  lemma DeriveStep(c: Curve, seed: seq<byte>, indices: seq<nat>)
    requires indices != []
    ensures var x, index := Derive(c, seed, indices[..|indices| - 1]), indices[|indices| - 1];
            Derive(c, seed, indices).key == AddScalar(x.key, OffsetBytes(c, x, index))
  {
    hide AddScalar, OffsetBytes;
  }

  lemma {:induction false} DerivedOk(c: Curve, seed: seq<byte>, indices: seq<nat>)
    requires |indices| <= MAX_DEPTH
    ensures var top := SeedToExtendedPrivate(c, seed).key[56];
            top >= 128 && KeyOk(Derive(c, seed, indices).key, top, |indices|)
    decreases |indices|
  {
    hide KeyOk, SeedKey, AddScalar, Derive, SeedToExtendedPrivate, OffsetBytes;
    DeriveSeed(c, seed);
    var raw :| |raw| == 57 && SeedToExtendedPrivate(c, seed).key == SeedKey(raw);
    SeedOk(raw);
    if indices != [] {
      var init := indices[..|indices| - 1];
      DerivedOk(c, seed, init);
      DeriveStep(c, seed, indices);
      var x := Derive(c, seed, init);
      ChildOk(x.key, SeedKey(raw)[56], |init|, OffsetBytes(c, x, indices[|indices| - 1]));
    }
  }

  /**
   * From any seed and along any path of up to 2^22 steps, the child's scalar is the parent's plus
   * the offset, as integers: the top byte stays what the seed made it, the high bit stays set, and
   * so every key of the wallet is used in scalar mode.
   */
  lemma ChildScalar(c: Curve, seed: seq<byte>, indices: seq<nat>, index: nat)
    requires |indices| < MAX_DEPTH
    ensures var x := Derive(c, seed, indices);
            var y := ChildPrivateToPrivate(c, x, index);
            && y == Derive(c, seed, indices + [index])
            && y.key[56] == x.key[56] == SeedToExtendedPrivate(c, seed).key[56] && ScalarMode(x.key) && ScalarMode(y.key)
            && x.key[55] >= 128 && y.key[55] >= 128
            && LE(Clamp(y.key)) == LE(Clamp(x.key)) + Offset(OffsetBytes(c, x, index))
            && Offset(OffsetBytes(c, x, index)) % 4 == 0
  {
    hide LE, Pow, Offset, AddScalar, Clamp, OffsetBytes, SeedToExtendedPrivate, KeyOk;
    var x, top := Derive(c, seed, indices), SeedToExtendedPrivate(c, seed).key[56];
    assert (indices + [index])[..|indices|] == indices;
    DerivedOk(c, seed, indices);
    ChildClamp(x.key, top, |indices|, OffsetBytes(c, x, index));
  }

  lemma ChildClamp(key: seq<byte>, top: byte, depth: nat, r: seq<byte>)
    requires |key| == 57 && |r| == 57 && KeyOk(key, top, depth) && depth < MAX_DEPTH
    ensures var child := AddScalar(key, r);
            && child[56] == key[56] == top && child[55] >= 128 && key[55] >= 128
            && LE(Clamp(child)) == LE(Clamp(key)) + Offset(r) && Offset(r) % 4 == 0
  {
    hide LE, Pow, Low, Offset, AddScalar, Clamp;
    ChildOk(key, top, depth, r);
    var child := AddScalar(key, r);
    HighBits(key);
    HighBits(child);
    ClampRounds(key);
    ClampRounds(child);
    OffsetBounds(r);
    RoundedSum(Low(key), Offset(r));
  }

  lemma RoundedSum(l: int, off: int)
    requires off % 4 == 0
    ensures (l + off) - (l + off) % 4 == (l - l % 4) + off
  {
  }
}
