/** What a derived key depends on: the bytes that the key derivation function is given. */
module Ed448Derivation {
  import opened Wrappers
  import opened Bytes
  import opened Ed448Keys

  const HARDENED := 0x8000_0000
  const INDICES := 0x1_0000_0000

  // ---------- the input ----------

  /** A byte that tells the purpose, a key, and the index in four bytes, the lowest first. */
  predicate IsInput(p: seq<byte>, purpose: byte, key: seq<byte>, index: nat) {
    && |p| == |key| + 5 && p[0] == purpose && p[1..|key| + 1] == key
    && LE(p[|key| + 1..]) == index
  }

  /** The chain code of a child has purpose 1 or 3, its offset 0 or 2: the lower when it is hardened. */
  function Purpose(index: nat, forChain: bool): byte {
    (if index >= HARDENED then 0 else 2) + (if forChain then 1 else 0)
  }

  /** A hardened child is made from the key itself, any other from the public key. */
  function Source(c: Curve, x: Extended, index: nat): seq<byte>
    requires |x.key| == 57
  {
    if index >= HARDENED then x.key else PublicKey(c, x.key)
  }

  lemma InputOf(purpose: byte, key: seq<byte>, index: nat)
    requires index < INDICES
    ensures IsInput([purpose] + key + ToLE(index, 4), purpose, key, index)
  {
    hide ToLE, LE;
    assert Pow(256, 4) == INDICES;
    LEOfToLE(index, 4);
    var p := [purpose] + key + ToLE(index, 4);
    assert p[1..|key| + 1] == key && p[|key| + 1..] == ToLE(index, 4);
  }

  /** What is hashed for a child's chain code, and for its offset. */
  lemma ChildInputs(c: Curve, x: Extended, index: nat) returns (chain: seq<byte>, offset: seq<byte>)
    requires |x.key| == 57 && index < INDICES
    ensures IsInput(chain, Purpose(index, true), Source(c, x, index), index)
    ensures IsInput(offset, Purpose(index, false), Source(c, x, index), index)
    ensures ChildPrivateToPrivate(c, x, index).chain == c.kdf(chain, x.chain)
    ensures OffsetBytes(c, x, index) == c.kdf(offset, x.chain)
  {
    hide ToLE, PublicKey, IsInput, AddScalar;
    var key := Source(c, x, index);
    chain := [Purpose(index, true)] + key + ToLE(index, 4);
    offset := [Purpose(index, false)] + key + ToLE(index, 4);
    InputOf(Purpose(index, true), key, index);
    InputOf(Purpose(index, false), key, index);
  }

  /** The input tells the purpose and the index, and with them the key. */
  lemma InputIsInjective(p: seq<byte>, a: byte, k: seq<byte>, i: nat, b: byte, l: seq<byte>, j: nat)
    requires IsInput(p, a, k, i) && IsInput(p, b, l, j)
    ensures a == b && k == l && i == j
  {
    hide LE;
  }

  /** The offset is the number in the first 53 bytes, rounded down to a multiple of four. */
  lemma OffsetIs(b: seq<byte>)
    requires |b| == 57
    ensures Offset(b) == LE(b[..53]) - LE(b[..53]) % 4
  {
    hide LE, Truncated, Zeros;
    TruncatedIs(b);
    var kept := b[..53];
    LEZeros(kept[0 := ClearLow(b[0])], 4);
    LEFirst(kept, ClearLow(b[0]));
  }

  // ---------- different children ----------

  ghost predicate IsInputOf(c: Curve, x: Extended, p: seq<byte>)
    requires |x.key| == 57
  {
    exists index: nat, forChain ::
      index < INDICES && IsInput(p, Purpose(index, forChain), Source(c, x, index), index)
  }

  /** The key derivation function does not confuse the inputs that belong to one parent. */
  ghost predicate NoCollision(c: Curve, x: Extended)
    requires |x.key| == 57
  {
    forall p, q :: IsInputOf(c, x, p) && IsInputOf(c, x, q) && c.kdf(p, x.chain) == c.kdf(q, x.chain) ==> p == q
  }

  /**
   * Without such a collision, children of different indices have different chain codes and different
   * offsets, and no chain code is an offset.
   */
  lemma IndexMatters(c: Curve, x: Extended, i: nat, j: nat)
    requires |x.key| == 57 && i < INDICES && j < INDICES && NoCollision(c, x)
    ensures i != j ==> ChildPrivateToPrivate(c, x, i).chain != ChildPrivateToPrivate(c, x, j).chain
    ensures i != j ==> OffsetBytes(c, x, i) != OffsetBytes(c, x, j)
    ensures ChildPrivateToPrivate(c, x, i).chain != OffsetBytes(c, x, j)
  {
    hide IsInput, ChildPrivateToPrivate, OffsetBytes, Source;
    var ic, io := ChildInputs(c, x, i);
    var jc, jo := ChildInputs(c, x, j);
    assert IsInputOf(c, x, ic) && IsInputOf(c, x, io) && IsInputOf(c, x, jc) && IsInputOf(c, x, jo);
    if ic == jc {
      InputIsInjective(ic, Purpose(i, true), Source(c, x, i), i, Purpose(j, true), Source(c, x, j), j);
    }
    if io == jo {
      InputIsInjective(io, Purpose(i, false), Source(c, x, i), i, Purpose(j, false), Source(c, x, j), j);
    }
    if ic == jo {
      InputIsInjective(ic, Purpose(i, true), Source(c, x, i), i, Purpose(j, false), Source(c, x, j), j);
    }
  }

  /** Public key, chain code and index determine the chain code and the offset of a child that is not hardened. */
  lemma NormalChildIsPublic(c: Curve, x: Extended, y: Extended, index: nat)
    requires |x.key| == 57 && |y.key| == 57 && index < HARDENED
    requires x.chain == y.chain && PublicKey(c, x.key) == PublicKey(c, y.key)
    ensures ChildPrivateToPrivate(c, x, index).chain == ChildPrivateToPrivate(c, y, index).chain
    ensures OffsetBytes(c, x, index) == OffsetBytes(c, y, index)
  {
    hide PublicKey, AddScalar;
  }

  /** Different keys give a hardened child different inputs, even if they share public key and chain code. */
  lemma HardenedChildIsPrivate(c: Curve, x: Extended, y: Extended, index: nat)
    returns (xc: seq<byte>, xo: seq<byte>, yc: seq<byte>, yo: seq<byte>)
    requires |x.key| == 57 && |y.key| == 57 && HARDENED <= index < INDICES && x.key != y.key
    ensures xc != yc && xo != yo
    ensures ChildPrivateToPrivate(c, x, index).chain == c.kdf(xc, x.chain) && OffsetBytes(c, x, index) == c.kdf(xo, x.chain)
    ensures ChildPrivateToPrivate(c, y, index).chain == c.kdf(yc, y.chain) && OffsetBytes(c, y, index) == c.kdf(yo, y.chain)
  {
    hide IsInput, ChildPrivateToPrivate, OffsetBytes;
    xc, xo := ChildInputs(c, x, index);
    yc, yo := ChildInputs(c, y, index);
    if xc == yc {
      InputIsInjective(xc, Purpose(index, true), x.key, index, Purpose(index, true), y.key, index);
    }
    if xo == yo {
      InputIsInjective(xo, Purpose(index, false), x.key, index, Purpose(index, false), y.key, index);
    }
  }

  // ---------- wallets ----------

  /** The path m/44'/654'/0'/0'/index. */
  function GenerateKeyFromSeed(c: Curve, seed: seq<byte>, index: nat): (key: seq<byte>)
    ensures |key| == 57
  {
    var m := SeedToExtendedPrivate(c, seed);
    var k1 := ChildPrivateToPrivate(c, m, HARDENED + 44);
    var k2 := ChildPrivateToPrivate(c, k1, HARDENED + 654);
    var k3 := ChildPrivateToPrivate(c, k2, HARDENED);
    var k4 := ChildPrivateToPrivate(c, k3, HARDENED);
    ChildPrivateToPrivate(c, k4, index).key
  }

  lemma DeriveNext(c: Curve, seed: seq<byte>, path: seq<nat>, index: nat)
    ensures Derive(c, seed, path + [index]) == ChildPrivateToPrivate(c, Derive(c, seed, path), index)
  {
    hide ChildPrivateToPrivate;
    assert (path + [index])[..|path|] == path;
  }

  lemma WalletPath(c: Curve, seed: seq<byte>, index: nat)
    ensures GenerateKeyFromSeed(c, seed, index) ==
            Derive(c, seed, [HARDENED + 44, HARDENED + 654, HARDENED, HARDENED, index]).key
  {
    hide ChildPrivateToPrivate, Derive, SeedToExtendedPrivate;
    var p1, p2 := [HARDENED + 44], [HARDENED + 44, HARDENED + 654];
    var p3, p4 := p2 + [HARDENED], p2 + [HARDENED] + [HARDENED];
    DeriveSeed(c, seed);
    DeriveNext(c, seed, [], HARDENED + 44);
    assert [] + [HARDENED + 44] == p1;
    DeriveNext(c, seed, p1, HARDENED + 654);
    assert p1 + [HARDENED + 654] == p2;
    DeriveNext(c, seed, p2, HARDENED);
    DeriveNext(c, seed, p3, HARDENED);
    DeriveNext(c, seed, p4, index);
    assert p4 + [index] == [HARDENED + 44, HARDENED + 654, HARDENED, HARDENED, index];
  }

  /** The public key of a wallet's key, which is in scalar mode, is that of its clamped scalar. */
  lemma WalletPublicKey(c: Curve, seed: seq<byte>, path: seq<nat>)
    requires |path| < MAX_DEPTH
    ensures var key := Derive(c, seed, path).key;
            && PublicKey(c, key) == c.fromScalar(Clamp(key)) == c.fromScalar(SigningScalar(key))
            && 128 <= key[55] && key[56] >= 128
  {
    hide Derive, ChildPrivateToPrivate, OffsetBytes, Offset, LE, Clamp, SigningScalar;
    ChildScalar(c, seed, path, 0);
    SameScalar(Derive(c, seed, path).key);
  }

  const SALT_START := [109, 110, 101, 109, 111, 110, 105, 99] + [102, 111, 114, 116, 104, 101]
  const CHAIN_SALT: seq<byte> := SALT_START + [99, 104, 97, 105, 110]
  const KEY_SALT: seq<byte> := SALT_START + [107, 101, 121]

  /** The texts that the seed is salted with, in bytes: one for the chain code and one for the key. */
  lemma SeedSalts(c: Curve, seed: seq<byte>)
    ensures var x, raw := SeedToExtendedPrivate(c, seed), c.kdf(seed, KEY_SALT);
            && x.chain == c.kdf(seed, CHAIN_SALT)
            && (forall i :: 0 <= i < 55 ==> x.key[i] == raw[i])
            && x.key[55] == 128 + raw[55] % 64 && x.key[56] == 128 + raw[56] % 128
  {
    hide Ascii;
    AsciiTexts();
  }

  lemma AsciiTexts()
    ensures Ascii("mnemonicforthechain") == CHAIN_SALT && Ascii("mnemonicforthekey") == KEY_SALT
  {
    hide Ascii;
    AsciiWords();
    assert "mnemonicforthechain" == "mnemonic" + "forthe" + "chain";
    assert "mnemonicforthekey" == "mnemonic" + "forthe" + "key";
    AsciiAppend("mnemonic", "forthe");
    AsciiAppend("mnemonic" + "forthe", "chain");
    AsciiAppend("mnemonic" + "forthe", "key");
  }

  lemma AsciiWords()
    ensures Ascii("mnemonic") == [109, 110, 101, 109, 111, 110, 105, 99]
    ensures Ascii("forthe") == [102, 111, 114, 116, 104, 101]
    ensures Ascii("chain") == [99, 104, 97, 105, 110] && Ascii("key") == [107, 101, 121]
  {
    hide Ascii;
    AsciiOf("mnemonic");
    AsciiOf("forthe");
    AsciiOf("chain");
    AsciiOf("key");
  }

  lemma {:induction false} AsciiOf(s: string)
    ensures |Ascii(s)| == |s| && forall i :: 0 <= i < |s| ==> Ascii(s)[i] == s[i] as int % 256
  {
    if s != "" {
      AsciiOf(s[1..]);
    }
  }

  lemma {:induction false} AsciiAppend(a: string, b: string)
    ensures Ascii(a + b) == Ascii(a) + Ascii(b)
  {
    if a == "" {
      assert a + b == b;
    } else {
      assert (a + b)[1..] == a[1..] + b;
      AsciiAppend(a[1..], b);
    }
  }
}
