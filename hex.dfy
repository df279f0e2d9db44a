/** Number rendering and parsing used by the daemon: the `{:032x}` rendering
    of 128-bit hashes, the `{}` decimal rendering of a `u32`, and
    `u128::from_str_radix(s, 16)`, which every handler uses to read a hash. */
module Hex {
  import opened Types

  /** The kinds of `std::num::ParseIntError`. */
  datatype ParseIntError = Empty | InvalidDigit | Overflow {
    /** The `Display` text of each kind. */
    function Message(): (m: string)
      ensures |m| > 0
    {
      match this
      case Empty => "cannot parse integer from empty string"
      case InvalidDigit => "invalid digit found in string"
      case Overflow => "number too large to fit in target type"
    }
  }

  /** The three kinds display three different texts. */
  lemma ParseMessagesDistinct(a: ParseIntError, b: ParseIntError)
    ensures a.Message() == b.Message() <==> a == b
  {
  }

  function Pow16(n: nat): (r: nat)
    ensures r >= 1
  {
    if n == 0 then 1 else 16 * Pow16(n - 1)
  }

  lemma {:induction false} Pow16Add(a: nat, b: nat)
    ensures Pow16(a + b) == Pow16(a) * Pow16(b)
    decreases a
  {
    if a > 0 {
      Pow16Add(a - 1, b);
    }
  }

  lemma Pow16Of32()
    ensures Pow16(32) == U128_MOD
  {
    assert Pow16(2) == 256;
    assert Pow16(4) == 65536 by { Pow16Add(2, 2); }
    assert Pow16(8) == 0x1_0000_0000 by { Pow16Add(4, 4); }
    assert Pow16(16) == 0x1_0000_0000_0000_0000 by { Pow16Add(8, 8); }
    Pow16Add(16, 16);
  }

  /** `char::to_digit(16)`: decimal digits and both cases of a..f. */
  predicate IsHexDigit(c: char) {
    ('0' <= c <= '9') || ('a' <= c <= 'f') || ('A' <= c <= 'F')
  }

  function DigitValue(c: char): (d: nat)
    requires IsHexDigit(c)
    ensures d < 16
  {
    if '0' <= c <= '9' then c as int - '0' as int
    else if 'a' <= c <= 'f' then c as int - 'a' as int + 10
    else c as int - 'A' as int + 10
  }

  /** The lower-case digit that `{:x}` prints for `d`. */
  function LowerDigit(d: nat): (c: char)
    requires d < 16
    ensures IsHexDigit(c) && DigitValue(c) == d
    ensures '0' <= c <= '9' || 'a' <= c <= 'f'
  {
    if d < 10 then ('0' as int + d) as char else ('a' as int + d - 10) as char
  }

  /** The value of a digit string read most significant digit first, starting
      from the accumulator `acc` (Horner's rule). */
  function HexValue(acc: nat, s: string): nat
    requires forall i :: 0 <= i < |s| ==> IsHexDigit(s[i])
    decreases |s|
  {
    if s == [] then acc else HexValue(acc * 16 + DigitValue(s[0]), s[1..])
  }

  /** `n` written with exactly `width` lower-case digits, zero-padded on the left. */
  function PaddedHex(n: nat, width: nat): (s: string)
    requires n < Pow16(width)
    ensures |s| == width
    ensures forall i :: 0 <= i < |s| ==> IsHexDigit(s[i]) && ('0' <= s[i] <= '9' || 'a' <= s[i] <= 'f')
  {
    if width == 0 then ""
    else PaddedHex(n / 16, width - 1) + [LowerDigit(n % 16)]
  }

  /** `format!("{:032x}", h)`: a 128-bit hash as 32 lower-case hex digits. */
  function Hex32(h: u128): (s: string)
    ensures |s| == 32
    ensures forall i :: 0 <= i < |s| ==> '0' <= s[i] <= '9' || 'a' <= s[i] <= 'f'
  {
    Pow16Of32();
    PaddedHex(h, 32)
  }

  /** `u128::from_str_radix(s, 16)`: an optional leading `+`, then one or more
      hex digits.  Digits are read left to right; an invalid character or a
      value that reaches 2^128 stops the scan at that character. */
  function ParseU128Hex(s: string): (r: Result<u128, ParseIntError>)
    ensures r.Success? ==> |s| > 0
    ensures s == "" || s == "+" ==> r == Failure(Empty)
  {
    if s == [] then Failure(Empty)
    else
      var digits := if s[0] == '+' then s[1..] else s;
      if digits == [] then Failure(Empty) else ParseDigits(digits, 0)
  }

  function ParseDigits(s: string, acc: u128): (r: Result<u128, ParseIntError>)
    ensures r.Success? ==> (forall i :: 0 <= i < |s| ==> IsHexDigit(s[i])) && r.value == HexValue(acc, s)
  {
    if s == [] then Success(acc)
    else if !IsHexDigit(s[0]) then Failure(InvalidDigit)
    else
      var next := acc * 16 + DigitValue(s[0]);
      if next >= U128_MOD then Failure(Overflow) else ParseDigits(s[1..], next)
  }

  lemma {:induction false} HexValueAtLeast(acc: nat, s: string)
    requires forall i :: 0 <= i < |s| ==> IsHexDigit(s[i])
    ensures HexValue(acc, s) >= acc
    decreases |s|
  {
    if s != [] {
      HexValueAtLeast(acc * 16 + DigitValue(s[0]), s[1..]);
    }
  }

  lemma {:induction false} HexValueSnoc(acc: nat, s: string, c: char)
    requires forall i :: 0 <= i < |s| ==> IsHexDigit(s[i])
    requires IsHexDigit(c)
    ensures forall i :: 0 <= i < |s + [c]| ==> IsHexDigit((s + [c])[i])
    ensures HexValue(acc, s + [c]) == HexValue(acc, s) * 16 + DigitValue(c)
    decreases |s|
  {
    if s == [] {
      assert s + [c] == [c];
    } else {
      assert (s + [c])[1..] == s[1..] + [c];
      HexValueSnoc(acc * 16 + DigitValue(s[0]), s[1..], c);
    }
  }

  /** Reading a padded rendering back gives the number. */
  lemma {:induction false} PaddedHexValue(n: nat, width: nat)
    requires n < Pow16(width)
    ensures HexValue(0, PaddedHex(n, width)) == n
  {
    if width > 0 {
      assert n / 16 < Pow16(width - 1);
      PaddedHexValue(n / 16, width - 1);
      HexValueSnoc(0, PaddedHex(n / 16, width - 1), LowerDigit(n % 16));
    }
  }

  /** A digit string whose value fits in 128 bits is parsed to that value. */
  lemma {:induction false} ParseDigitsComplete(s: string, acc: u128)
    requires forall i :: 0 <= i < |s| ==> IsHexDigit(s[i])
    requires HexValue(acc, s) < U128_MOD
    ensures ParseDigits(s, acc) == Success(HexValue(acc, s) as u128)
  {
    if s != [] {
      var next := acc * 16 + DigitValue(s[0]);
      HexValueAtLeast(next, s[1..]);
      ParseDigitsComplete(s[1..], next);
    }
  }

  /** Exactly the texts made of an optional '+' and then one or more hex
      digits whose value is below 2^128 are accepted, as that value. */
  lemma ParseU128HexAccepts(s: string)
    ensures var d := if |s| > 0 && s[0] == '+' then s[1..] else s;
      ParseU128Hex(s).Success? <==>
        (|d| > 0 && (forall i :: 0 <= i < |d| ==> IsHexDigit(d[i])) && HexValue(0, d) < U128_MOD)
    ensures var d := if |s| > 0 && s[0] == '+' then s[1..] else s;
      ParseU128Hex(s).Success? ==> ParseU128Hex(s).value == HexValue(0, d)
  {
    var d := if |s| > 0 && s[0] == '+' then s[1..] else s;
    if |d| > 0 && (forall i :: 0 <= i < |d| ==> IsHexDigit(d[i])) && HexValue(0, d) < U128_MOD {
      ParseDigitsComplete(d, 0);
    }
  }

  /** Round trip: every hash the daemon prints is read back as the same hash.
      In particular `Hex32` is injective. */
  lemma HexRoundTrip(h: u128)
    ensures ParseU128Hex(Hex32(h)) == Success(h)
  {
    Pow16Of32();
    var s := Hex32(h);
    PaddedHexValue(h, 32);
    assert s[0] != '+';
    ParseDigitsComplete(s, 0);
  }

  lemma Hex32Injective(h1: u128, h2: u128)
    ensures Hex32(h1) == Hex32(h2) <==> h1 == h2
  {
    HexRoundTrip(h1);
    HexRoundTrip(h2);
  }

  /** Any string of one to 32 hex digits, in either case, is accepted. */
  lemma ParseAcceptsAllHexDigits(s: string)
    requires 0 < |s| <= 32
    requires forall i :: 0 <= i < |s| ==> IsHexDigit(s[i])
    ensures ParseU128Hex(s).Success?
  {
    assert IsHexDigit(s[0]);
    HexValueBound(0, s);
    Pow16Of32();
    Pow16Monotone(|s|, 32);
    ParseDigitsComplete(s, 0);
  }

  lemma {:induction false} HexValueBound(acc: nat, s: string)
    requires forall i :: 0 <= i < |s| ==> IsHexDigit(s[i])
    ensures HexValue(acc, s) < (acc + 1) * Pow16(|s|)
    decreases |s|
  {
    if s != [] {
      var next := acc * 16 + DigitValue(s[0]);
      var p := Pow16(|s| - 1);
      HexValueBound(next, s[1..]);
      assert next + 1 <= (acc + 1) * 16;
      MulMonotone(next + 1, (acc + 1) * 16, p);
      assert (acc + 1) * 16 * p == (acc + 1) * Pow16(|s|);
    }
  }

  lemma MulMonotone(a: nat, b: nat, c: nat)
    requires a <= b
    ensures a * c <= b * c
  {
  }

  lemma {:induction false} Pow16Monotone(a: nat, b: nat)
    requires a <= b
    ensures Pow16(a) <= Pow16(b)
  {
    if a < b {
      Pow16Monotone(a, b - 1);
    }
  }

  /** `format!("{}", n)`: the shortest decimal rendering. */
  function Decimal(n: nat): (s: string)
    ensures |s| >= 1
    ensures forall i :: 0 <= i < |s| ==> '0' <= s[i] <= '9'
  {
    if n < 10 then [('0' as int + n) as char]
    else Decimal(n / 10) + [('0' as int + n % 10) as char]
  }

  /** The value of a decimal digit string, most significant digit first. */
  function DecimalValue(s: string): nat
    requires forall i :: 0 <= i < |s| ==> '0' <= s[i] <= '9'
  {
    if s == [] then 0
    else DecimalValue(s[..|s| - 1]) * 10 + (s[|s| - 1] as int - '0' as int)
  }

  /** The decimal rendering reads back as the number and has no leading zero. */
  lemma {:induction false} DecimalRoundTrip(n: nat)
    ensures DecimalValue(Decimal(n)) == n
    ensures Decimal(n)[0] == '0' ==> n == 0
  {
    if n >= 10 {
      DecimalRoundTrip(n / 10);
      var s := Decimal(n);
      assert s[..|s| - 1] == Decimal(n / 10);
    }
  }
}
