/**
 Proof-of-work arithmetic of the chain manager: compact targets, the work of a header and
 the 64-digit hexadecimal form of cumulative work.
 */
module ChainWork {
  import opened Base

  const ONE_LSH_256: int := 0x1_0000000000000000_0000000000000000_0000000000000000_0000000000000000

  function Power(base: nat, e: nat): nat {
    if e == 0 then 1 else base * Power(base, e - 1)
  }

  /** The target a header's Bits field stands for; negative when the sign bit is set. */
  function CompactToBig(compact: u32): int {
    var mantissa := compact % 0x80_0000;
    var isNegative := (compact / 0x80_0000) % 2 == 1;
    var exponent := compact / 0x100_0000;
    var bn := if exponent <= 3 then mantissa / Power(256, 3 - exponent) else mantissa * Power(256, exponent - 3);
    if isNegative then -bn else bn
  }

  /** The high byte is an exponent of 256, the low 23 bits are the mantissa, and bit 23 is the sign. */
  lemma {:induction false} TargetOf(exponent: nat, negative: bool, mantissa: nat)
    requires exponent < 256 && mantissa < 0x80_0000
    ensures var compact := exponent * 0x100_0000 + (if negative then 0x80_0000 else 0) + mantissa;
            var size := if exponent == 0 then 0
                        else if exponent == 1 then mantissa / 0x1_0000
                        else if exponent == 2 then mantissa / 0x100
                        else mantissa * Power(256, exponent - 3);
            compact < 0x1_0000_0000 && CompactToBig(compact) == if negative then -size else size
  {
    var compact := exponent * 0x100_0000 + (if negative then 0x80_0000 else 0) + mantissa;
    assert compact % 0x80_0000 == mantissa && compact / 0x100_0000 == exponent;
    assert compact / 0x80_0000 == 2 * exponent + if negative then 1 else 0;
    assert Power(256, 0) == 1 && Power(256, 1) == 0x100 && Power(256, 2) == 0x1_0000 && Power(256, 3) == 0x100_0000;
  }

  /** The easiest target of the main network, and the work it stands for. */
  lemma GenesisWork()
    ensures CompactToBig(0x1d00ffff) == 0xffff * Power(256, 26)
    ensures CalculateWork(0x1d00ffff) == 0x1_0001_0001
  {
    TargetOf(0x1d, false, 0xffff);
    Power256(26);
    FloorUnique(ONE_LSH_256, 0xffff * Power(256, 26) + 1, 0x1_0001_0001);
  }

  lemma Power256(e: nat)
    requires e == 26
    ensures Power(256, e) == 0x1_0000000000000000_0000000000000000_0000000000000000_0000
  {
    assert Power(256, 2) == 0x1_0000;
    assert Power(256, 4) == 256 * (256 * Power(256, 2));
    assert Power(256, 6) == 256 * (256 * Power(256, 4));
    assert Power(256, 8) == 256 * (256 * Power(256, 6));
    assert Power(256, 10) == 256 * (256 * Power(256, 8));
    assert Power(256, 12) == 256 * (256 * Power(256, 10));
    assert Power(256, 14) == 256 * (256 * Power(256, 12));
    assert Power(256, 16) == 256 * (256 * Power(256, 14));
    assert Power(256, 18) == 256 * (256 * Power(256, 16));
    assert Power(256, 20) == 256 * (256 * Power(256, 18));
    assert Power(256, 22) == 256 * (256 * Power(256, 20));
    assert Power(256, 24) == 256 * (256 * Power(256, 22));
    assert Power(256, 26) == 256 * (256 * Power(256, 24));
  }

  function WorkOfTarget(target: int): nat {
    if target <= 0 then 0 else ONE_LSH_256 / (target + 1)
  }

  function CalculateWork(bits: u32): nat {
    WorkOfTarget(CompactToBig(bits))
  }

  lemma MulMonotone(q: int, a: int, b: int)
    requires q >= 0 && a <= b
    ensures q * a <= q * b
  {
  }

  /** Work is between 0 and 2^255, and positive exactly for targets below 2^256. */
  lemma WorkBounds(target: int)
    ensures 0 <= WorkOfTarget(target) <= ONE_LSH_256 / 2
    ensures WorkOfTarget(target) > 0 <==> 0 < target < ONE_LSH_256
  {
    if target > 0 {
      var b := target + 1;
      var q := ONE_LSH_256 / b;
      assert q * b <= ONE_LSH_256 < q * b + b;
      assert q >= 0;
      MulMonotone(q, 2, b);
      if q > 0 {
        MulMonotone(b, 1, q);
      }
    }
  }

  /** A smaller (harder) target never means less work. */
  lemma WorkAntitone(easy: int, hard: int)
    requires 0 < hard <= easy
    ensures WorkOfTarget(easy) <= WorkOfTarget(hard)
  {
    DivAntitone(ONE_LSH_256, hard + 1, easy + 1);
  }

  lemma DivAntitone(a: nat, b: nat, c: nat)
    requires 0 < b <= c
    ensures a / c <= a / b
  {
    var q, r := a / c, a / b;
    MulMonotone(q, b, c);
    assert (q - r) * b == q * b - r * b;
    LessThanOne(q - r, b);
  }

  /** The form that needs no 257-bit number: (2^256 - 1 - t) / (t + 1) + 1. */
  lemma WorkIn256Bits(target: int)
    requires 0 < target < ONE_LSH_256
    ensures WorkOfTarget(target) == (ONE_LSH_256 - 1 - target) / (target + 1) + 1
  {
    var b := target + 1;
    var q := ONE_LSH_256 / b;
    assert q * b <= ONE_LSH_256 < q * b + b;
    assert (q - 1) * b == q * b - b;
    FloorUnique(ONE_LSH_256 - b, b, q - 1);
  }

  // ----- Hexadecimal form

  function HexDigit(d: nat): char
    requires d < 16
  {
    "0123456789abcdef"[d]
  }

  function HexValue(c: char): Option<nat> {
    if '0' <= c <= '9' then Some((c - '0') as nat)
    else if 'a' <= c <= 'f' then Some((c - 'a') as nat + 10)
    else if 'A' <= c <= 'F' then Some((c - 'A') as nat + 10)
    else None
  }

  /** Lower-case digits without leading zeros, and "0" for zero. */
  function Text16(n: nat): (text: string)
    ensures |text| > 0
  {
    if n < 16 then [HexDigit(n)] else Text16(n / 16) + [HexDigit(n % 16)]
  }

  function ParseHex(s: string): Option<nat> {
    if s == [] then None
    else
      var last := HexValue(s[|s| - 1]);
      if last.None? then None
      else if |s| == 1 then last
      else
        var rest := ParseHex(s[..|s| - 1]);
        if rest.None? then None else Some(16 * rest.value + last.value)
  }

  function ChainWorkFromHex(s: string): Option<int> {
    if s != [] && (s[0] == '-' || s[0] == '+') then
      var rest := ParseHex(s[1..]);
      if rest.None? then None else Some(if s[0] == '-' then 0 - rest.value else rest.value)
    else
      var all := ParseHex(s);
      if all.None? then None else Some(all.value)
  }

  lemma DigitRoundTrip(d: nat)
    requires d < 16
    ensures HexValue(HexDigit(d)) == Some(d) && HexDigit(d) != '-' && HexDigit(d) != '+'
  {
  }

  lemma {:induction false} TextParses(n: nat)
    ensures ParseHex(Text16(n)) == Some(n)
  {
    if n < 16 {
      DigitRoundTrip(n);
    } else {
      TextParses(n / 16);
      ParseSnoc(Text16(n / 16), n % 16);
    }
  }

  lemma ParseSnoc(s: string, d: nat)
    requires d < 16 && s != [] && ParseHex(s).Some?
    ensures ParseHex(s + [HexDigit(d)]) == Some(16 * ParseHex(s).value + d)
  {
    DigitRoundTrip(d);
    assert (s + [HexDigit(d)])[..|s|] == s;
  }

  lemma {:induction false} PaddingIsIgnored(s: string)
    requires s != [] && ParseHex(s).Some?
    ensures ParseHex("0" + s) == ParseHex(s)
    decreases |s|
  {
    var p := "0" + s;
    assert p[|p| - 1] == s[|s| - 1];
    if |s| > 1 {
      assert p[..|p| - 1] == "0" + s[..|s| - 1];
      PaddingIsIgnored(s[..|s| - 1]);
    } else {
      assert p[..1] == "0";
      assert ParseHex("0") == Some(0);
    }
  }

  lemma {:induction false} TextFirst(n: nat)
    ensures Text16(n)[0] != '-' && Text16(n)[0] != '+'
  {
    DigitRoundTrip(n % 16);
    if n >= 16 {
      TextFirst(n / 16);
    }
  }

  /** The digits of n are at most k exactly when n < 16^k. */
  lemma {:induction false} TextLength(n: nat, k: nat)
    requires k >= 1
    ensures |Text16(n)| <= k <==> n < Power(16, k)
  {
    if n >= 16 {
      if k == 1 {
        assert Power(16, 1) == 16 * Power(16, 0);
      } else {
        TextLength(n / 16, k - 1);
        assert n / 16 < Power(16, k - 1) <==> n < 16 * Power(16, k - 1);
      }
    } else {
      PowerAtLeast(k);
    }
  }

  lemma {:induction false} PowerAtLeast(k: nat)
    requires k >= 1
    ensures Power(16, k) >= 16
  {
    if k > 1 {
      PowerAtLeast(k - 1);
    } else {
      assert Power(16, 1) == 16 * Power(16, 0);
    }
  }

  lemma {:induction false} PowerSum(a: nat, b: nat)
    ensures Power(16, a + b) == Power(16, a) * Power(16, b)
  {
    if a > 0 {
      PowerSum(a - 1, b);
      TimesSixteen(Power(16, a - 1), Power(16, b));
    }
  }

  lemma TimesSixteen(x: int, y: int)
    ensures 16 * (x * y) == (16 * x) * y
  {
  }

  lemma SixtyFourDigits()
    ensures Power(16, 64) == ONE_LSH_256
  {
    assert Power(16, 2) == 256;
    PowerSum(2, 2);
    PowerSum(4, 4);
    PowerSum(8, 8);
    PowerSum(16, 16);
    PowerSum(32, 32);
  }

  /** The hexadecimal digit that counts 16^i. */
  function DigitOf(n: nat, i: nat): (d: nat)
    ensures d < 16
  {
    PowerPositive(i);
    n / Power(16, i) % 16
  }

  lemma {:induction false} PowerPositive(i: nat)
    ensures Power(16, i) > 0
  {
    if i > 0 {
      PowerAtLeast(i);
    }
  }

  lemma DigitStep(n: nat, i: nat)
    ensures DigitOf(n, i + 1) == DigitOf(n / 16, i)
  {
    PowerPositive(i);
    var b, m := Power(16, i), n / 16;
    var q, r := m / b, m % b;
    assert q * (16 * b) == 16 * (q * b);
    FloorUnique(n, 16 * b, q);
  }

  predicate ShowsDigits(text: string, n: nat) {
    forall i :: 0 <= i < |text| ==> text[|text| - 1 - i] == "0123456789abcdef"[DigitOf(n, i)]
  }

  lemma {:induction false} TextShowsDigits(n: nat)
    ensures ShowsDigits(Text16(n), n)
  {
    var text := Text16(n);
    assert Power(16, 0) == 1 && DigitOf(n, 0) == n % 16;
    if n >= 16 {
      TextShowsDigits(n / 16);
      forall i | 0 <= i < |text|
        ensures text[|text| - 1 - i] == "0123456789abcdef"[DigitOf(n, i)]
      {
        if i > 0 {
          DigitStep(n, i - 1);
          var rest := Text16(n / 16);
          assert text[|text| - 1 - i] == rest[|rest| - 1 - (i - 1)];
        }
      }
    }
  }

  lemma PowerGrows(n: nat, i: nat)
    requires n < Power(16, i)
    ensures n < Power(16, i + 1)
  {
  }

  lemma NoDigit(n: nat, i: nat)
    requires n < Power(16, i)
    ensures DigitOf(n, i) == 0
  {
    FloorUnique(n, Power(16, i), 0);
  }

  lemma PaddingShowsDigits(text: string, n: nat)
    requires text != [] && ShowsDigits(text, n) && DigitOf(n, |text|) == 0
    ensures ShowsDigits("0" + text, n)
  {
    var padded := "0" + text;
    forall i | 0 <= i < |padded|
      ensures padded[|padded| - 1 - i] == "0123456789abcdef"[DigitOf(n, i)]
    {
      if i < |text| {
        assert padded[|padded| - 1 - i] == text[|text| - 1 - i];
      }
    }
  }

  /** Prints work with leading zeros up to 64 digits. Reading it back gives the same number, and
      the text has exactly 64 digits for every number below 2^256. */
  method ChainWorkToHex(work: nat) returns (hexStr: string)
    ensures ChainWorkFromHex(hexStr) == Some(work)
    ensures |hexStr| >= 64
    ensures |hexStr| == 64 <==> work < ONE_LSH_256
    ensures ShowsDigits(hexStr, work)
  {
    hexStr := Text16(work);
    TextParses(work);
    TextFirst(work);
    TextShowsDigits(work);
    TextLength(work, |hexStr|);
    TextLength(work, 64);
    SixtyFourDigits();
    while |hexStr| < 64
      invariant hexStr != [] && ParseHex(hexStr) == Some(work)
      invariant hexStr[0] != '-' && hexStr[0] != '+'
      invariant |hexStr| <= 64 <==> work < ONE_LSH_256
      invariant ShowsDigits(hexStr, work) && work < Power(16, |hexStr|)
    {
      NoDigit(work, |hexStr|);
      PaddingShowsDigits(hexStr, work);
      PowerGrows(work, |hexStr|);
      PaddingIsIgnored(hexStr);
      hexStr := "0" + hexStr;
    }
  }
}
