/** Addresses: a network prefix, two check digits, and the body; ISO 7064 MOD 97-10 over hex digits. */
module Address {
  import opened Wrappers
  import opened Bytes
  import opened Arithmetic
  import opened Decimal
  import opened Hex
  import opened Rlp

  // ---------- the checksum ----------

  function UpperHex(c: char): char {
    if 'a' <= c <= 'z' then (c as int - 32) as char else c
  }

  /** The number that replaces a character: letters count from ten. */
  function CharNumber(c: char): int {
    var charCode := c as int;
    if charCode > 64 && charCode < 91 then charCode - 55 else charCode - 48
  }

  lemma CharNumberIsHexValue(c: char)
    requires IsHex(c)
    ensures CharNumber(UpperHex(c)) == HexValue(c)
  {
  }

  /** The decimal digits that replace the characters, joined. */
  function Mods(hexed: string): (s: string)
    requires AllHex(hexed)
    ensures AllDigits(s)
  {
    if hexed == "" then ""
    else
      CharNumberIsHexValue(hexed[|hexed| - 1]);
      Mods(hexed[..|hexed| - 1]) + Print(CharNumber(UpperHex(hexed[|hexed| - 1])))
  }

  function RemoveFirst0x(s: string): string {
    if |s| < 2 then s else if s[0] == '0' && s[1] == 'x' then s[2..] else [s[0]] + RemoveFirst0x(s[1..])
  }

  function TwoDigits(checkSum: nat): string {
    if checkSum > 9 then Print(checkSum) else "0" + Print(checkSum)
  }

  function CalculateCheckSum(address: string, prefix: string): Result<string> {
    var a, p := Unhex(RemoveFirst0x(address)), Unhex(RemoveFirst0x(prefix));
    if a.None? || p.None? then Err
    else
      HexlifyZeros(a.value + p.value);
      Ok(TwoDigits(98 - Parse(Mods(Hexlify(a.value + p.value) + "00")) % 97))
  }

  lemma HexlifyZeros(bs: seq<byte>)
    ensures AllHex(Hexlify(bs) + "00")
  {
  }

  /** The number whose remainder is taken, without its two zeros. */
  function Weight(s: string): nat
    requires AllHex(s)
  {
    Parse(Mods(s))
  }

  lemma ModsStep(s: string, c: char)
    requires AllHex(s) && IsHex(c)
    ensures AllHex(s + [c]) && Mods(s + [c]) == Mods(s) + Print(HexValue(c))
  {
    assert (s + [c])[..|s|] == s;
    CharNumberIsHexValue(c);
  }

  lemma {:induction false} ModsAppend(a: string, b: string)
    requires AllHex(a) && AllHex(b)
    ensures AllHex(a + b) && Mods(a + b) == Mods(a) + Mods(b)
  {
    hide Mods, Print;
    if b == "" {
      assert a + b == a;
      ModsEmpty();
    } else {
      var init, c := b[..|b| - 1], b[|b| - 1];
      ModsAppend(a, init);
      assert a + b == (a + init) + [c] && b == init + [c];
      ModsStep(a + init, c);
      ModsStep(init, c);
    }
  }

  lemma ModsEmpty()
    ensures Mods("") == ""
  {
  }

  /** Only the values of the digits matter, not their case. */
  lemma {:induction false} ModsByValue(a: string, b: string)
    requires SameDigits(a, b)
    ensures Mods(a) == Mods(b)
    decreases |a|
  {
    hide Mods, Print, HexValue;
    if a == "" {
      assert b == "";
    } else {
      var n := |a| - 1;
      ModsByValue(a[..n], b[..n]);
      assert a == a[..n] + [a[n]] && b == b[..n] + [b[n]];
      ModsStep(a[..n], a[n]);
      ModsStep(b[..n], b[n]);
    }
  }

  lemma {:induction false} NoPrefixInside(s: string)
    requires AllHex(s)
    ensures RemoveFirst0x(s) == s
  {
    if |s| >= 2 {
      NoPrefixInside(s[1..]);
      assert s == [s[0]] + s[1..];
    }
  }

  /** On hex digits the checksum is that of their values, with two zeros behind. */
  lemma CheckSumIs(address: string, prefix: string)
    requires AllHex(address) && |address| % 2 == 0 && AllHex(prefix) && |prefix| % 2 == 0
    ensures AllHex(address + prefix)
    ensures CalculateCheckSum(address, prefix) == Ok(TwoDigits(98 - Weight(address + prefix) * 100 % 97))
  {
    hide Mods, Parse, TwoDigits, Unhex, Hexlify, SameDigits, HexValue, RemoveFirst0x;
    NoPrefixInside(address);
    NoPrefixInside(prefix);
    var a, p := Unhex(address).value, Unhex(prefix).value;
    HexlifyUnhex(address);
    HexlifyUnhex(prefix);
    HexlifyZeros(a + p);
    HexlifyAppend(a, p);
    SameDigitsAppend(Hexlify(a), address, Hexlify(p), prefix);
    SameHex(Hexlify(a + p), address + prefix);
    ModsByValue(Hexlify(a + p), address + prefix);
    TwoZeros(Hexlify(a + p));
  }

  lemma SameHex(a: string, b: string)
    requires SameDigits(a, b)
    ensures AllHex(a) && AllHex(b)
  {
  }

  lemma TwoZeros(s: string)
    requires AllHex(s)
    ensures AllHex(s + "00") && Weight(s + "00") == Weight(s) * 100
  {
    hide Mods, Parse;
    assert Print(0) == "0";
    ModsStep(s, '0');
    ModsStep(s + "0", '0');
    assert s + "00" == s + "0" + "0";
    ParseZero(Mods(s));
    ParseZero(Mods(s) + "0");
  }

  lemma ParseZero(s: string)
    requires AllDigits(s)
    ensures Parse(s + "0") == Parse(s) * 10
  {
    assert (s + "0")[..|s|] == s;
  }

  // ---------- what the checksum is for ----------

  lemma TwoDigitsParse(n: nat)
    requires 2 <= n <= 98
    ensures |TwoDigits(n)| == 2 && AllDigits(TwoDigits(n)) && Parse(TwoDigits(n)) == n
  {
    PrintLength(n, 2);
    PrintLength(n, 1);
    ParsePrint(n);
    assert Pow(10, 1) == 10 && Pow(10, 2) == 100;
    if n <= 9 {
      ParseAppend("0", Print(n));
      assert Parse("0") == 0;
    }
  }

  /** The number of an address with its check digits moved behind everything else. */
  function Rearranged(body: string, prefix: string, check: string): nat
    requires AllHex(body) && AllHex(prefix) && AllDigits(check)
  {
    ModsAppend(body, prefix);
    AppendDigits(Mods(body + prefix), check);
    Parse(Mods(body + prefix) + check)
  }

  lemma AppendDigits(a: string, b: string)
    requires AllDigits(a) && AllDigits(b)
    ensures AllDigits(a + b)
  {
  }

  lemma CheckSumIdentity(w: nat, c: nat)
    requires 2 <= c <= 98
    ensures (w * 100 + c) % 97 == 1 <==> c == 98 - w * 100 % 97
  {
    var n := w * 100;
    ModuloTimes(n, 97);
    SameModulo(n + c, n % 97 + c, 97, n / 97);
    SmallRemainder(n % 97 + c);
  }

  lemma SmallRemainder(x: int)
    requires 2 <= x <= 194
    ensures x % 97 == 1 <==> x == 98
  {
  }

  /** The rearranged number is 1 modulo 97 for the calculated digits, and for no others from 02 to 98. */
  lemma RearrangedIsOneIff(body: string, prefix: string, check: string)
    requires AllHex(body) && |body| % 2 == 0 && AllHex(prefix) && |prefix| % 2 == 0
    requires AllDigits(check) && |check| == 2 && 2 <= Parse(check) <= 98
    ensures Rearranged(body, prefix, check) % 97 == 1 <==> CalculateCheckSum(body, prefix) == Ok(check)
  {
    hide Mods, Print, Parse, TwoDigits, CalculateCheckSum;
    var w, c := Weight(body + prefix), Parse(check);
    ModsAppend(body, prefix);
    CheckSumIs(body, prefix);
    ParseAppend(Mods(body + prefix), check);
    HundredPower();
    assert Rearranged(body, prefix, check) == w * 100 + c;
    CheckSumIdentity(w, c);
    TwoDigitsParse(98 - w * 100 % 97);
    SameTwoDigits(check, TwoDigits(98 - w * 100 % 97));
  }

  lemma HundredPower()
    ensures Pow(10, 2) == 100
  {
    assert Pow(10, 1) == 10;
  }

  lemma SameTwoDigits(a: string, b: string)
    requires AllDigits(a) && AllDigits(b) && |a| == 2 && |b| == 2
    ensures Parse(a) == Parse(b) <==> a == b
  {
    assert Parse(a[..1]) == DigitValue(a[0]) && Parse(b[..1]) == DigitValue(b[0]);
    assert Parse(a) == DigitValue(a[0]) * 10 + DigitValue(a[1]);
    assert Parse(b) == DigitValue(b[0]) * 10 + DigitValue(b[1]);
  }

  // ---------- single errors ----------

  lemma TenCancels(x: int)
    requires (x * 10) % 97 == 0
    ensures x % 97 == 0
  {
    var q := x * 10 / 97;
    assert x == 97 * (68 * q - 7 * x);
  }

  lemma {:induction false} PowerCancels(x: int, k: nat)
    requires (x * Pow(10, k)) % 97 == 0
    ensures x % 97 == 0
  {
    if k > 0 {
      assert x * Pow(10, k) == (x * Pow(10, k - 1)) * 10;
      TenCancels(x * Pow(10, k - 1));
      PowerCancels(x, k - 1);
    }
  }

  /** The value up to and including one character, whatever follows it. */
  function UpTo(before: string, c: char): int
    requires AllHex(before) && IsHex(c)
  {
    Weight(before) * Pow(10, |Print(HexValue(c))|) + HexValue(c)
  }

  lemma WeightAround(before: string, c: char, after: string)
    requires AllHex(before) && IsHex(c) && AllHex(after)
    ensures AllHex(before + [c] + after)
    ensures Weight(before + [c] + after) == UpTo(before, c) * Pow(10, |Mods(after)|) + Weight(after)
  {
    hide Mods, Parse, Print;
    ModsStep(before, c);
    ModsAppend(before + [c], after);
    ParseAppend(Mods(before), Print(HexValue(c)));
    ParsePrint(HexValue(c));
    ParseAppend(Mods(before + [c]), Mods(after));
  }

  lemma ScaledDifference(h1: int, h2: int, p: int, rest: int)
    ensures (h1 * p + rest) * 100 - (h2 * p + rest) * 100 == (h1 - h2) * (p * 100)
  {
  }

  lemma CongruentIff(a: int, b: int)
    ensures a % 97 == b % 97 <==> (a - b) % 97 == 0
  {
  }

  lemma Hundreds(k: nat)
    ensures Pow(10, k + 2) == Pow(10, k) * 100
  {
    PowAdd(10, k, 2);
    HundredPower();
  }

  lemma ZeroTimes(x: int, p: nat)
    ensures x % 97 == 0 ==> (x * p) % 97 == 0
  {
    if x % 97 == 0 {
      var q := x / 97;
      assert x * p == 97 * (q * p);
    }
  }

  /** Exchanging one character goes unnoticed exactly when the values up to it are congruent. */
  lemma ChangeUnnoticedIff(before: string, c: char, d: char, after: string)
    requires AllHex(before) && IsHex(c) && IsHex(d) && AllHex(after)
    ensures AllHex(before + [c] + after) && AllHex(before + [d] + after)
    ensures Weight(before + [c] + after) * 100 % 97 == Weight(before + [d] + after) * 100 % 97 <==>
            (UpTo(before, c) - UpTo(before, d)) % 97 == 0
  {
    hide Mods, Parse, Print, Pow, Weight, UpTo;
    var k, rest, h1, h2 := |Mods(after)|, Weight(after), UpTo(before, c), UpTo(before, d);
    WeightAround(before, c, after);
    WeightAround(before, d, after);
    ScaledDifference(h1, h2, Pow(10, k), rest);
    Hundreds(k);
    CongruentIff(Weight(before + [c] + after) * 100, Weight(before + [d] + after) * 100);
    ZeroTimes(h1 - h2, Pow(10, k + 2));
    if ((h1 - h2) * Pow(10, k + 2)) % 97 == 0 {
      PowerCancels(h1 - h2, k + 2);
    }
  }

  predicate IsLetter(c: char) {
    'a' <= c <= 'f' || 'A' <= c <= 'F'
  }

  lemma UpToIs(before: string, c: char)
    requires AllHex(before) && IsHex(c)
    ensures UpTo(before, c) == Weight(before) * (if IsLetter(c) then 100 else 10) + HexValue(c)
    ensures IsLetter(c) <==> HexValue(c) >= 10
  {
    PrintLength(HexValue(c), 1);
    PrintLength(HexValue(c), 2);
    HundredPower();
    assert Pow(10, 1) == 10;
  }

  lemma SmallDifference(x: int)
    requires -97 < x < 97
    ensures x % 97 == 0 <==> x == 0
  {
  }

  lemma TenfoldDifference(w: int, v: int, u: int)
    ensures (w * 10 + v - (w * 100 + u)) % 97 == 0 <==> (7 * w + v - u) % 97 == 0
  {
    SameModulo(w * 10 + v - (w * 100 + u), 7 * w + v - u, 97, -w);
  }

  /**
   * An exchange of digits of the same kind is unnoticed only if the value is the same. A digit and
   * a letter are confused exactly when seven times what precedes makes up for the difference.
   */
  lemma SingleChangeIff(before: string, c: char, d: char, after: string)
    requires AllHex(before) && IsHex(c) && IsHex(d) && AllHex(after)
    ensures AllHex(before + [c] + after) && AllHex(before + [d] + after)
    ensures Weight(before + [c] + after) * 100 % 97 == Weight(before + [d] + after) * 100 % 97 <==>
            if IsLetter(c) == IsLetter(d) then HexValue(c) == HexValue(d)
            else if IsLetter(d) then (7 * Weight(before) + HexValue(c) - HexValue(d)) % 97 == 0
            else (7 * Weight(before) + HexValue(d) - HexValue(c)) % 97 == 0
  {
    hide Weight, UpTo, IsLetter;
    ChangeUnnoticedIff(before, c, d, after);
    UpToIs(before, c);
    UpToIs(before, d);
    CongruentIff(UpTo(before, c), UpTo(before, d));
    CongruentIff(UpTo(before, d), UpTo(before, c));
    SmallDifference(HexValue(c) - HexValue(d));
    TenfoldDifference(Weight(before), HexValue(c), HexValue(d));
    TenfoldDifference(Weight(before), HexValue(d), HexValue(c));
  }

  // ---------- getAddress ----------

  function RemoveHexPrefix(val: string): string {
    if |val| >= 2 && val[..2] == "0x" then val[2..] else val
  }

  /** The pattern: 44 hex digits, with or without the prefix. */
  predicate HasAddressShape(address: string) {
    |RemoveHexPrefix(address)| == 44 && AllHex(RemoveHexPrefix(address))
  }

  /** The table of precompiled addresses: 64 digits each, the numbers from zero to nine. */
  predicate IsPrecompiled(raw: string) {
    |raw| == 64 && (forall i :: 0 <= i < 63 ==> raw[i] == '0') && '0' <= raw[63] <= '9'
  }

  function GetAddress(address: string): Result<string> {
    if !HasAddressShape(address) then Err
    else
      var raw := RemoveHexPrefix(address);
      if IsPrecompiled(raw) then Ok("0x" + raw)
      else
        var prefix, val := raw[..2], raw[4..];
        var checksum :- CalculateCheckSum(val, prefix);
        if checksum != raw[2..4] then Err else Ok("0x" + prefix + checksum + val)
  }

  /** No text of the right shape is in the table, so the branch is never taken. */
  lemma PrecompiledNeverMatch(address: string)
    requires HasAddressShape(address)
    ensures !IsPrecompiled(RemoveHexPrefix(address))
  {
  }

  lemma AddressParts(raw: string)
    requires |raw| == 44 && AllHex(raw)
    ensures AllHex(raw[..2]) && AllHex(raw[4..]) && |raw[..2]| % 2 == 0 && |raw[4..]| % 2 == 0
    ensures raw == raw[..2] + raw[2..4] + raw[4..]
  {
  }

  lemma WithPrefix(raw: string)
    ensures RemoveHexPrefix("0x" + raw) == raw
  {
    assert ("0x" + raw)[..2] == "0x" && ("0x" + raw)[2..] == raw;
  }

  /**
   * An address is accepted exactly when its check digits are decimal, from 02 to 98, and make the
   * rearranged number 1 modulo 97. It is given back with the prefix and is then accepted as it is.
   */
  lemma AcceptedIff(address: string)
    ensures HasAddressShape(address) ==> AllHex(RemoveHexPrefix(address)[4..]) && AllHex(RemoveHexPrefix(address)[..2])
    ensures var raw := RemoveHexPrefix(address);
            GetAddress(address).Ok? <==>
            (HasAddressShape(address) && AllDigits(raw[2..4]) && 2 <= Parse(raw[2..4]) <= 98 &&
             Rearranged(raw[4..], raw[..2], raw[2..4]) % 97 == 1)
    ensures GetAddress(address).Ok? ==>
              GetAddress(address) == Ok("0x" + RemoveHexPrefix(address)) &&
              GetAddress("0x" + RemoveHexPrefix(address)) == GetAddress(address)
  {
    hide CalculateCheckSum, Rearranged, Parse, AllHex;
    var raw := RemoveHexPrefix(address);
    WithPrefix(raw);
    if HasAddressShape(address) {
      PrecompiledNeverMatch(address);
      AddressParts(raw);
      CheckSumRange(raw[4..], raw[..2]);
      if AllDigits(raw[2..4]) && 2 <= Parse(raw[2..4]) <= 98 {
        RearrangedIsOneIff(raw[4..], raw[..2], raw[2..4]);
      }
      assert "0x" + raw[..2] + raw[2..4] + raw[4..] == "0x" + raw;
    }
  }

  lemma CheckSumRange(body: string, prefix: string)
    requires AllHex(body) && |body| % 2 == 0 && AllHex(prefix) && |prefix| % 2 == 0
    ensures var r := CalculateCheckSum(body, prefix);
            r.Ok? && |r.value| == 2 && AllDigits(r.value) && 2 <= Parse(r.value) <= 98
  {
    hide CalculateCheckSum, Mods, TwoDigits, Parse;
    CheckSumIs(body, prefix);
    TwoDigitsParse(98 - Weight(body + prefix) * 100 % 97);
  }

  /** One changed character of the body: the two addresses are never both accepted unless `SingleChangeIff` says so. */
  lemma ChangedBodyRejected(prefix: string, check: string, before: string, c: char, d: char, after: string)
    requires |prefix| == 2 && |check| == 2 && |before| + 1 + |after| == 40
    requires GetAddress("0x" + prefix + check + (before + [c] + after)).Ok?
    requires IsHex(c) && IsHex(d) && IsLetter(c) == IsLetter(d) && HexValue(c) != HexValue(d)
    ensures GetAddress("0x" + prefix + check + (before + [d] + after)) == Err
  {
    hide CalculateCheckSum, Weight, TwoDigits;
    var s1, s2 := before + [c] + after, before + [d] + after;
    CheckedParts(prefix, check, s1);
    assert AllHex(before) && AllHex(after) && IsHex(c) by {
      assert forall i :: 0 <= i < |before| ==> before[i] == s1[i];
      assert s1[|before|] == c;
      assert forall i :: 0 <= i < |after| ==> after[i] == s1[|before| + 1 + i];
    }
    SingleChangeIff(before, c, d, after + prefix);
    assert before + [c] + (after + prefix) == s1 + prefix && before + [d] + (after + prefix) == s2 + prefix;
    if GetAddress("0x" + prefix + check + s2).Ok? {
      CheckedParts(prefix, check, s2);
      SameCheckSums(98 - Weight(s1 + prefix) * 100 % 97, 98 - Weight(s2 + prefix) * 100 % 97);
    }
  }

  lemma SameCheckSums(a: nat, b: nat)
    requires 2 <= a <= 98 && 2 <= b <= 98
    ensures TwoDigits(a) == TwoDigits(b) ==> a == b
  {
    TwoDigitsParse(a);
    TwoDigitsParse(b);
  }

  lemma CheckedParts(prefix: string, check: string, body: string)
    requires |prefix| == 2 && |check| == 2 && |body| == 40
    requires GetAddress("0x" + prefix + check + body).Ok?
    ensures AllHex(prefix) && AllHex(body)
    ensures AllHex(body + prefix) && check == TwoDigits(98 - Weight(body + prefix) * 100 % 97)
  {
    hide CalculateCheckSum, Weight, TwoDigits;
    var raw := prefix + check + body;
    assert "0x" + prefix + check + body == "0x" + raw;
    WithPrefix(raw);
    AddressParts(raw);
    assert raw[..2] == prefix && raw[2..4] == check && raw[4..] == body;
    PrecompiledNeverMatch("0x" + raw);
    CheckSumIs(body, prefix);
  }

  /** After the digits 2 and before anything, `0` and `e` are not told apart. */
  lemma ZeroForLetterSameWeight(after: string)
    requires AllHex(after)
    ensures AllHex("2" + ['0'] + after) && AllHex("2" + ['e'] + after)
    ensures Weight("2" + ['0'] + after) * 100 % 97 == Weight("2" + ['e'] + after) * 100 % 97
  {
    hide Weight;
    WeightOfTwo();
    SingleChangeIff("2", '0', 'e', after);
  }

  lemma WeightOfTwo()
    ensures Weight("2") == 2
  {
    assert "2"[..0] == "" && Mods("2") == Print(2);
    ParsePrint(2);
  }

  // ---------- case ----------

  lemma SameDecimal(a: string, b: string)
    requires SameDigits(a, b) && AllDigits(a)
    ensures a == b
  {
  }

  lemma SameParts(a: string, b: string, i: nat, j: nat)
    requires SameDigits(a, b) && i <= j <= |a|
    ensures SameDigits(a[i..j], b[i..j])
  {
  }

  /** Whether an address is accepted does not depend on the case of its digits. */
  lemma CaseDoesNotMatter(a: string, b: string)
    requires |a| == 44 && SameDigits(a, b) && GetAddress("0x" + a).Ok?
    ensures GetAddress("0x" + b) == Ok("0x" + b)
  {
    hide CalculateCheckSum, Weight, TwoDigits, SameDigits, HexValue;
    SameLength(a, b);
    WithPrefix(a);
    WithPrefix(b);
    AddressParts(a);
    AddressParts(b);
    PrecompiledNeverMatch("0x" + a);
    PrecompiledNeverMatch("0x" + b);
    SameParts(a, b, 0, 2);
    SameParts(a, b, 2, 4);
    SameParts(a, b, 4, 44);
    assert a[..2] == a[0..2] && b[..2] == b[0..2] && a[4..] == a[4..44] && b[4..] == b[4..44];
    CheckSumRange(a[4..], a[..2]);
    SameDecimal(a[2..4], b[2..4]);
    CheckSumIs(a[4..], a[..2]);
    CheckSumIs(b[4..], b[..2]);
    SameDigitsAppend(a[4..], b[4..], a[..2], b[..2]);
    ModsByValue(a[4..] + a[..2], b[4..] + b[..2]);
    SameWeight(a[4..] + a[..2], b[4..] + b[..2]);
    assert "0x" + b[..2] + b[2..4] + b[4..] == "0x" + b;
  }

  lemma SameLength(a: string, b: string)
    requires SameDigits(a, b)
    ensures |a| == |b| && AllHex(a) && AllHex(b)
  {
  }

  lemma SameWeight(a: string, b: string)
    requires AllHex(a) && AllHex(b) && Mods(a) == Mods(b)
    ensures Weight(a) == Weight(b)
  {
  }

  // ---------- making addresses ----------

  /** A hash with 32 bytes of output. */
  type Hash = f: seq<byte> -> seq<byte> | forall b :: |f(b)| == 32 witness (b => seq(32, _ => 0))

  function NetworkIdToPrefix(networkId: int): Result<string> {
    if networkId == 1 then Ok("cb")
    else if networkId == 3 || networkId == 4 then Ok("ab")
    else if networkId > 10 || networkId == 0 then Ok("ce")
    else Err
  }

  /** `hexDataSlice(hash, 12)`: the last twenty bytes. */
  function HashTail(hash: Hash, data: seq<byte>): (s: string)
    ensures |s| == 40 && AllHex(s)
  {
    Hexlify(hash(data)[12..])
  }

  function PublicToAddress(hash: Hash, key: seq<byte>, prefix: string): Result<string> {
    var val := "0x" + HashTail(hash, key);
    var checksum :- CalculateCheckSum(val, prefix);
    Ok("0x" + prefix + checksum + RemoveHexPrefix(val))
  }

  lemma FirstPrefixRemoved(s: string)
    ensures RemoveFirst0x("0x" + s) == s
  {
    assert ("0x" + s)[2..] == s;
  }

  lemma CheckSumOfPrefixed(body: string, prefix: string)
    requires AllHex(body)
    ensures CalculateCheckSum("0x" + body, prefix) == CalculateCheckSum(body, prefix)
  {
    FirstPrefixRemoved(body);
    NoPrefixInside(body);
  }

  /** Prefix, calculated check digits and body make an accepted address. */
  lemma AssembledAccepted(prefix: string, body: string)
    requires |prefix| == 2 && AllHex(prefix) && |body| == 40 && AllHex(body)
    ensures CalculateCheckSum(body, prefix).Ok?
    ensures var a := "0x" + prefix + CalculateCheckSum(body, prefix).value + body;
            GetAddress(a) == Ok(a) && |a| == 46 && a[2..4] == prefix
  {
    hide CalculateCheckSum, Parse;
    CheckSumRange(body, prefix);
    var check := CalculateCheckSum(body, prefix).value;
    var raw := prefix + check + body;
    assert "0x" + prefix + check + body == "0x" + raw;
    WithPrefix(raw);
    assert raw[..2] == prefix && raw[2..4] == check && raw[4..] == body;
    DigitsAreHex(check);
    PrecompiledNeverMatch("0x" + raw);
  }

  /** Two different addresses with any prefix and rest, of which both are accepted. */
  lemma ZeroForLetterUnnoticed(prefix: string, rest: string) returns (a: string, b: string)
    requires |prefix| == 2 && AllHex(prefix) && |rest| == 38 && AllHex(rest)
    ensures GetAddress(a) == Ok(a) && GetAddress(b) == Ok(b)
    ensures |a| == 46 && a[2..4] == prefix && a[6] == '2' && a[7] == '0' && a[8..] == rest
    ensures b == a[7 := 'e']
  {
    hide CalculateCheckSum, GetAddress, Weight, TwoDigits;
    var x, y := "2" + ['0'] + rest, "2" + ['e'] + rest;
    ZeroForLetterSameWeight(rest + prefix);
    assert "2" + ['0'] + (rest + prefix) == x + prefix && "2" + ['e'] + (rest + prefix) == y + prefix;
    CheckSumIs(x, prefix);
    CheckSumIs(y, prefix);
    CheckSumRange(x, prefix);
    var check := CalculateCheckSum(x, prefix).value;
    AssembledAccepted(prefix, x);
    AssembledAccepted(prefix, y);
    a := "0x" + prefix + check + x;
    b := "0x" + prefix + check + y;
    assert a[7] == x[1] && b[7] == y[1] && a[8..] == rest;
  }

  lemma DigitsAreHex(s: string)
    requires AllDigits(s)
    ensures AllHex(s)
  {
  }

  /** Every address made from a key and two hex digits of prefix passes `getAddress` unchanged. */
  lemma PublicAddressAccepted(hash: Hash, key: seq<byte>, prefix: string)
    requires |prefix| == 2 && AllHex(prefix)
    ensures var a := PublicToAddress(hash, key, prefix);
            a.Ok? && GetAddress(a.value) == a && a.value[2..4] == prefix
  {
    hide CalculateCheckSum, HashTail, GetAddress;
    var body := HashTail(hash, key);
    CheckSumOfPrefixed(body, prefix);
    AssembledAccepted(prefix, body);
    WithPrefix(body);
  }

  /** Which networks have a prefix; it is always one that addresses can be made with. */
  lemma NetworkPrefixes(networkId: int)
    ensures NetworkIdToPrefix(networkId).Ok? <==> networkId in {0, 1, 3, 4} || networkId > 10
    ensures NetworkIdToPrefix(networkId).Ok? ==>
              |NetworkIdToPrefix(networkId).value| == 2 && AllHex(NetworkIdToPrefix(networkId).value)
  {
  }

  // ---------- contract addresses ----------

  /** What is hashed: the 22 bytes of the sender and the nonce without leading zeros. */
  function ContractPreimage(from: seq<byte>, nonce: nat): Option<seq<byte>> {
    Encode(List([Str(from), Str(FromNat(nonce))]))
  }

  function GetContractAddress(hash: Hash, sender: string, nonce: int): Result<string> {
    var from :- GetAddress(sender);
    if nonce < 0 || Unhex(RemoveHexPrefix(from)).None? then Err
    else
      var data := ContractPreimage(Unhex(RemoveHexPrefix(from)).value, nonce);
      if data.None? then Err
      else
        var val := "0x" + HashTail(hash, data.value);
        var checksum :- CalculateCheckSum(val, from[2..4]);
        Ok("0x" + from[2..4] + checksum + RemoveHexPrefix(val))
  }

  lemma AcceptedForm(address: string)
    requires GetAddress(address).Ok?
    ensures var a := GetAddress(address).value;
            |a| == 46 && AllHex(a[2..4]) && AllHex(RemoveHexPrefix(a)) && |RemoveHexPrefix(a)| == 44 && a[..2] == "0x"
  {
    hide CalculateCheckSum, Rearranged, Parse, GetAddress;
    AcceptedIff(address);
    var raw := RemoveHexPrefix(address);
    WithPrefix(raw);
    assert ("0x" + raw)[2..4] == raw[..2];
  }

  lemma PreimageExists(from: seq<byte>, nonce: nat)
    requires |from| == 22 && |FromNat(nonce)| <= 32
    ensures ContractPreimage(from, nonce).Some?
  {
    hide FromNat, Header;
    var xs := [Str(from), Str(FromNat(nonce))];
    assert EncodeAll([]) == Some([]);
    assert xs[1..] == [xs[1]] && xs[1..][1..] == [];
    HeaderSmall(0x80, |from|);
    HeaderSmall(0x80, |FromNat(nonce)|);
    assert Encode(xs[0]).Some? && |Encode(xs[0]).value| <= 23;
    assert Encode(xs[1]).Some? && |Encode(xs[1]).value| <= 33;
    assert EncodeAll(xs[1..]).Some? && |EncodeAll(xs[1..]).value| <= 33;
    assert EncodeAll(xs).Some? && |EncodeAll(xs).value| <= 56;
  }

  lemma HeaderSmall(base: nat, n: nat)
    requires n <= 55 && base + n < 256 && (base == 0x80 || base == 0xc0)
    ensures |Header(base, n)| == 1
  {
  }

  predicate SamePrefix(a: string, b: string) {
    |a| >= 4 && |b| >= 4 && a[2..4] == b[2..4]
  }

  /** A contract address is accepted and keeps the sender's prefix. */
  lemma ContractAddressAccepted(hash: Hash, sender: string, nonce: int)
    ensures var c := GetContractAddress(hash, sender, nonce);
            c.Ok? ==> GetAddress(c.value) == c && GetAddress(sender).Ok? && SamePrefix(c.value, GetAddress(sender).value)
    ensures GetAddress(sender).Ok? && 0 <= nonce < Pow(256, 32) ==> GetContractAddress(hash, sender, nonce).Ok?
  {
    hide CalculateCheckSum, HashTail, GetAddress, ContractPreimage;
    if GetAddress(sender).Ok? && 0 <= nonce {
      AcceptedForm(sender);
      var from := GetAddress(sender).value;
      var bytes := Unhex(RemoveHexPrefix(from)).value;
      if nonce < Pow(256, 32) {
        FromNatLength(nonce, 32);
        PreimageExists(bytes, nonce);
      }
      if ContractPreimage(bytes, nonce).Some? {
        var body := HashTail(hash, ContractPreimage(bytes, nonce).value);
        CheckSumOfPrefixed(body, from[2..4]);
        AssembledAccepted(from[2..4], body);
        WithPrefix(body);
      }
    }
  }

  /** Different senders or nonces hash different bytes. */
  lemma PreimageIsInjective(a: seq<byte>, m: nat, b: seq<byte>, n: nat)
    requires ContractPreimage(a, m).Some? && ContractPreimage(a, m) == ContractPreimage(b, n)
    ensures a == b && m == n
  {
    hide Encode, FromNat;
    var x, y := List([Str(a), Str(FromNat(m))]), List([Str(b), Str(FromNat(n))]);
    RoundTrip(x);
    RoundTrip(y);
    assert x.items[0].bytes == y.items[0].bytes && x.items[1].bytes == y.items[1].bytes;
    ToNatFromNat(m);
    ToNatFromNat(n);
  }
}
