/** The ICAP checksum: a number too long for a float, reduced modulo 97 fifteen digits at a time. */
module Iban {
  import opened Wrappers
  import opened Bytes
  import opened Decimal
  import opened Hex
  import opened Address

  const SAFE_DIGITS := 15

  /** The lookup table; a character outside it is `undefined`, which joins as the empty text. */
  function Lookup(c: char): (s: string)
    ensures AllDigits(s)
  {
    if '0' <= c <= '9' then Print(c as int - '0' as int)
    else if 'A' <= c <= 'Z' then Print(c as int - 'A' as int + 10)
    else ""
  }

  /** A digit stands for itself, and the letters A to Z for the numbers 10 to 35 (ISO 7064, for MOD 97-10). */
  lemma LetterNumbers(c: char)
    ensures IsDigit(c) ==> Lookup(c) == [c]
    ensures 'A' <= c <= 'Z' ==> Parse(Lookup(c)) == 10 + (c as int - 'A' as int) && |Lookup(c)| == 2
  {
    if IsDigit(c) {
      PrintParse([c]);
      assert Parse([c]) == DigitValue(c) by {
        assert [c][..0] == "";
      }
    } else if 'A' <= c <= 'Z' {
      var n := 10 + (c as int - 'A' as int);
      ParsePrint(n);
      PrintLength(n, 1);
      PrintLength(n, 2);
      TenPower();
      assert Pow(10, 2) == 10 * Pow(10, 1);
    }
  }

  function Expand(s: string): (e: string)
    ensures AllDigits(e)
  {
    if s == "" then "" else Lookup(s[0]) + Expand(s[1..])
  }

  function UpperAll(s: string): (r: string)
    ensures |r| == |s|
  {
    if s == "" then "" else [UpperHex(s[0])] + UpperAll(s[1..])
  }

  /** The digits that are reduced: everything behind the first four characters, then the first two, then two zeros. */
  function Moved(address: string): string {
    var a := UpperAll(address);
    Expand((if |a| >= 4 then a[4..] else "") + (if |a| >= 2 then a[..2] else a) + "00")
  }

  /** The checksum of the whole number at once. */
  function WholeChecksum(address: string): string
    requires AllDigits(Moved(address))
  {
    TwoDigits(98 - Parse(Moved(address)) % 97)
  }

  /** Replacing the leading digits by their remainder keeps the remainder of the whole. */
  lemma ReduceBlock(block: string, rest: string)
    requires AllDigits(block) && AllDigits(rest)
    ensures AllDigits(block + rest) && AllDigits(Print(Parse(block) % 97) + rest)
    ensures Parse(Print(Parse(block) % 97) + rest) % 97 == Parse(block + rest) % 97
  {
    hide Parse, Print;
    var b := Parse(block);
    ParseAppend(block, rest);
    ParsePrint(b % 97);
    ParseAppend(Print(b % 97), rest);
    SameRemainder(b, Pow(10, |rest|), Parse(rest));
  }

  lemma SameRemainder(b: nat, p: nat, r: nat)
    ensures ((b % 97) * p + r) % 97 == (b * p + r) % 97
  {
    var q := b / 97;
    assert b * p + r == ((b % 97) * p + r) + 97 * (q * p) by {
      assert b == 97 * q + b % 97;
      assert b * p == (97 * q) * p + (b % 97) * p;
    }
    MultipleAway((b % 97) * p + r, q * p);
  }

  lemma MultipleAway(x: int, k: int)
    ensures (x + 97 * k) % 97 == x % 97
  {
  }

  lemma ShortRemainder(n: nat)
    ensures |Print(n % 97)| <= 2
  {
    PrintLength(n % 97, 2);
    HundredPower();
  }

  /** `ibanChecksum`: the loop over blocks of fifteen digits ends with the checksum of the whole number. */
  method IbanChecksum(address: string) returns (checksum: string)
    ensures checksum == WholeChecksum(address)
    ensures |checksum| == 2 && AllDigits(checksum)
  {
    hide Parse, Print, Expand, UpperAll;
    var upper := UpperAll(address);
    var moved := (if |upper| >= 4 then upper[4..] else "") + (if |upper| >= 2 then upper[..2] else upper) + "00";
    var expanded := Expand(moved);
    while |expanded| >= SAFE_DIGITS
      invariant AllDigits(expanded) && Parse(expanded) % 97 == Parse(Expand(moved)) % 97
      decreases |expanded|
    {
      var block := expanded[..SAFE_DIGITS];
      assert expanded == block + expanded[|block|..];
      ReduceBlock(block, expanded[|block|..]);
      ShortRemainder(Parse(block));
      expanded := Print(Parse(block) % 97) + expanded[|block|..];
    }
    var value := 98 - Parse(expanded) % 97;
    checksum := Print(value);
    TwoDigitsParse(value);
    PrintLength(value, 1);
    TenPower();
    while |checksum| < 2
      invariant checksum == Print(value) || (value <= 9 && checksum == "0" + Print(value))
      invariant |checksum| < 2 ==> value <= 9
      decreases 2 - |checksum|
    {
      checksum := "0" + checksum;
    }
  }

  lemma TenPower()
    ensures Pow(10, 1) == 10
  {
  }

  // ---------- ICAP texts ----------

  lemma ExpandStep(c: char, s: string)
    ensures Expand([c] + s) == Lookup(c) + Expand(s) && UpperAll([c] + s) == [UpperHex(c)] + UpperAll(s)
  {
    assert ([c] + s)[1..] == s;
  }

  lemma ExpandEmpty()
    ensures Expand("") == "" && UpperAll("") == ""
  {
  }

  lemma {:induction false} ExpandAppend(a: string, b: string)
    ensures Expand(a + b) == Expand(a) + Expand(b) && UpperAll(a + b) == UpperAll(a) + UpperAll(b)
  {
    hide Expand, UpperAll, Lookup, UpperHex;
    ExpandEmpty();
    if a == "" {
      assert a + b == b;
    } else {
      ExpandAppend(a[1..], b);
      ExpandStep(a[0], a[1..] + b);
      ExpandStep(a[0], a[1..]);
      assert a == [a[0]] + a[1..] && a + b == [a[0]] + (a[1..] + b);
    }
  }

  lemma {:induction false} ExpandDigits(s: string)
    requires AllDigits(s)
    ensures Expand(s) == s
  {
    if s != "" {
      assert Lookup(s[0]) == [s[0]] by {
        assert s[0] == DigitChar(DigitValue(s[0]));
      }
      ExpandDigits(s[1..]);
    }
  }

  /**
   * A country code, the checksum and a base-36 body make a text whose rearranged number is 1
   * modulo 97, and no other two digits from 02 to 98 do.
   */
  lemma IcapIsValidIff(code: string, check: string, body: string)
    requires |code| == 2 && |check| == 2 && AllDigits(check) && 2 <= Parse(check) <= 98
    requires UpperAll(code) == code && UpperAll(body) == body
    ensures AllDigits(Expand(body + code + check))
    ensures Parse(Expand(body + code + check)) % 97 == 1 <==> check == WholeChecksum(code + "00" + body)
  {
    hide Parse, Print, Expand, UpperAll, TwoDigits, AllDigits, Moved;
    MovedIs(code, body);
    ExpandCheck(body + code, check);
    ExpandZeros(body + code);
    SameChecksumIff(Parse(Expand(body + code)), check);
  }

  lemma ExpandCheck(s: string, check: string)
    requires |check| == 2 && AllDigits(check)
    ensures AllDigits(Expand(s + check)) && Parse(Expand(s + check)) == Parse(Expand(s)) * 100 + Parse(check)
  {
    hide Parse, Print, Expand;
    ExpandAppend(s, check);
    ExpandDigits(check);
    ParseAppend(Expand(s), check);
    HundredPower();
  }

  lemma ExpandZeros(s: string)
    ensures Parse(Expand(s + "00")) == Parse(Expand(s)) * 100
  {
    hide Parse, Print, Expand;
    ExpandAppend(s, "00");
    ExpandDigits("00");
    ZerosBehind(Expand(s));
  }

  lemma SameChecksumIff(w: nat, check: string)
    requires |check| == 2 && AllDigits(check) && 2 <= Parse(check) <= 98
    ensures (w * 100 + Parse(check)) % 97 == 1 <==> check == TwoDigits(98 - w * 100 % 97)
  {
    hide Parse, TwoDigits;
    CheckSumIdentity(w, Parse(check));
    TwoDigitsParse(98 - w * 100 % 97);
    SameTwoDigits(check, TwoDigits(98 - w * 100 % 97));
  }

  lemma ZerosBehind(s: string)
    requires AllDigits(s)
    ensures Parse(s + "00") == Parse(s) * 100
  {
    ParseZero(s);
    ParseZero(s + "0");
    assert s + "00" == s + "0" + "0";
  }

  lemma MovedIs(code: string, body: string)
    requires |code| == 2 && UpperAll(code) == code && UpperAll(body) == body
    ensures Moved(code + "00" + body) == Expand(body + code + "00")
  {
    hide Expand;
    ExpandAppend(code + "00", body);
    ExpandAppend(code, "00");
    UpperZeros();
    var a := UpperAll(code + "00" + body);
    assert a == code + "00" + body;
    assert a[4..] == body && a[..2] == code;
  }

  lemma UpperZeros()
    ensures UpperAll("00") == "00"
  {
    assert "00"[1..] == "0" && "0"[1..] == "";
  }
}
