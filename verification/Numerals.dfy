/** Decimal numerals: how the service prints them and how `std::stoi` reads them
    (ISO/IEC 14882:2011 section 21.5, through `strtol` of ISO/IEC 9899:1999 section 7.20.1.4). */
module Numerals {
  import opened Messages

  predicate IsDigit(c: char) { '0' <= c <= '9' }

  predicate AllDigits(s: string) { forall i :: 0 <= i < |s| ==> IsDigit(s[i]) }

  /** White space of the C locale. */
  predicate IsSpace(c: char) { c == ' ' || '\t' <= c <= '\r' }

  predicate AllSpaces(s: string) { forall i :: 0 <= i < |s| ==> IsSpace(s[i]) }

  /** White space by its codes. */
  lemma SpaceCodes(c: char)
    ensures IsSpace(c) <==> c as int in {9, 10, 11, 12, 13, 32}
  {
  }

  function DigitChar(d: nat): (c: char)
    requires d < 10
    ensures IsDigit(c) && c as int - '0' as int == d
  {
    ('0' as int + d) as char
  }

  /** The digits are those of the numbers below ten. */
  lemma DigitsAreTen(c: char)
    ensures IsDigit(c) <==> exists d: nat :: d < 10 && DigitChar(d) == c
  {
    if IsDigit(c) { assert DigitChar(c as int - '0' as int) == c; }
  }

  function Digits(n: nat): (s: string)
    ensures s != [] && AllDigits(s)
  {
    if n < 10 then [DigitChar(n)] else Digits(n / 10) + [DigitChar(n % 10)]
  }

  /** What printf("%d") and std::to_string print. */
  function Decimal(n: int): string {
    if n < 0 then "-" + Digits(-n) else Digits(n)
  }

  function DigitsValue(s: string): (v: int)
    requires AllDigits(s)
    ensures 0 <= v
  {
    if s == [] then 0 else 10 * DigitsValue(s[..|s| - 1]) + (s[|s| - 1] as int - '0' as int)
  }

  lemma {:induction false} ValueOfDigits(n: nat)
    ensures DigitsValue(Digits(n)) == n
  {
    if n >= 10 {
      ValueOfDigits(n / 10);
      assert Digits(n)[..|Digits(n)| - 1] == Digits(n / 10);
    } else {
      assert DigitsValue([]) == 0;
      assert Digits(n)[..0] == [];
    }
  }

  lemma {:induction false} LongerIsLarger(a: nat, b: nat)
    requires a <= b
    ensures |Digits(a)| <= |Digits(b)|
  {
    if b >= 10 && a >= 10 { LongerIsLarger(a / 10, b / 10); }
  }

  function SpacePrefix(s: string): (r: string)
    ensures r <= s && AllSpaces(r)
    ensures r != s ==> !IsSpace(s[|r|])
  {
    if s != [] && IsSpace(s[0]) then [s[0]] + SpacePrefix(s[1..]) else []
  }

  function DigitPrefix(s: string): (r: string)
    ensures r <= s && AllDigits(r)
    ensures r != s ==> !IsDigit(s[|r|])
  {
    if s != [] && IsDigit(s[0]) then [s[0]] + DigitPrefix(s[1..]) else []
  }

  /** The optional sign a string starts with. */
  function SignOf(s: string): (r: string)
    ensures r <= s
  {
    if s != [] && (s[0] == '-' || s[0] == '+') then [s[0]] else []
  }

  function Signed(sign: string, v: int): int { if sign == "-" then -v else v }

  function AsInt32(v: int): Option<int32> {
    if -0x8000_0000 <= v < 0x8000_0000 then Some(v) else None
  }

  /** `std::stoi` in base 10; `None` where it throws. Trailing characters are ignored. */
  function Stoi(s: string): Option<int32> {
    var t := s[|SpacePrefix(s)|..];
    var sign := SignOf(t);
    var digits := DigitPrefix(t[|sign|..]);
    if digits == [] then None else AsInt32(Signed(sign, DigitsValue(digits)))
  }

  /** A string split the way a numeral is read: white space, a sign, all leading digits, the rest. */
  ghost predicate Reads(s: string, spaces: string, sign: string, digits: string, rest: string) {
    && s == spaces + (sign + (digits + rest))
    && AllSpaces(spaces) && (sign == "" || sign == "+" || sign == "-") && AllDigits(digits) && digits != []
    && (rest == [] || !IsDigit(rest[0]))
  }

  lemma SignSplitsOff(sign: string, number: string)
    requires sign == "" || sign == "+" || sign == "-"
    requires number != [] && IsDigit(number[0])
    ensures SignOf(sign + number) == sign
    ensures (sign + number)[|sign|..] == number
    ensures !IsSpace((sign + number)[0])
  {
    if sign == "" { assert sign + number == number; }
  }

  lemma StoiAfterSpaces(s: string, sign: string, number: string)
    requires s[|SpacePrefix(s)|..] == sign + number && SignOf(sign + number) == sign
    requires (sign + number)[|sign|..] == number
    ensures Stoi(s) == if DigitPrefix(number) == [] then None else AsInt32(Signed(sign, DigitsValue(DigitPrefix(number))))
  {
  }

  lemma StoiIsSigned(s: string, spaces: string, sign: string, digits: string, rest: string)
    requires Reads(s, spaces, sign, digits, rest)
    ensures Stoi(s) == AsInt32(Signed(sign, DigitsValue(digits)))
  {
    var number := digits + rest;
    FirstDigit(digits, rest);
    NumberSplitsOff(s, spaces, sign, number);
    DigitPrefixOf(digits, rest);
    StoiAfterSpaces(s, sign, number);
  }

  lemma FirstDigit(digits: string, rest: string)
    requires AllDigits(digits) && digits != []
    ensures digits + rest != [] && IsDigit((digits + rest)[0])
  {
    assert (digits + rest)[0] == digits[0];
  }

  /** On a string that reads as a numeral, `Stoi` is its value, unless that is no `int`. */
  lemma StoiOfNumeral(s: string, spaces: string, sign: string, digits: string, rest: string)
    requires Reads(s, spaces, sign, digits, rest)
    ensures var v := if sign == "-" then -DigitsValue(digits) else DigitsValue(digits);
            Stoi(s) == if -0x8000_0000 <= v <= 0x7fff_ffff then Some(v) else None
  {
    StoiIsSigned(s, spaces, sign, digits, rest);
  }

  lemma NumberSplitsOff(s: string, spaces: string, sign: string, number: string)
    requires s == spaces + (sign + number) && AllSpaces(spaces) && (sign == "" || sign == "+" || sign == "-")
    requires number != [] && IsDigit(number[0])
    ensures s[|SpacePrefix(s)|..] == sign + number && SignOf(sign + number) == sign
    ensures (sign + number)[|sign|..] == number
  {
    SignSplitsOff(sign, number);
    SpacePrefixOf(spaces, sign + number);
  }

  lemma {:induction false} SpacePrefixOf(spaces: string, body: string)
    requires AllSpaces(spaces) && (body == [] || !IsSpace(body[0]))
    ensures SpacePrefix(spaces + body) == spaces
    ensures (spaces + body)[|spaces|..] == body
  {
    if spaces != [] {
      assert (spaces + body)[1..] == spaces[1..] + body;
      SpacePrefixOf(spaces[1..], body);
      assert spaces == [spaces[0]] + spaces[1..];
    } else {
      assert spaces + body == body;
    }
  }

  lemma {:induction false} DigitPrefixOf(digits: string, rest: string)
    requires AllDigits(digits) && (rest == [] || !IsDigit(rest[0]))
    ensures DigitPrefix(digits + rest) == digits
  {
    if digits != [] {
      assert (digits + rest)[1..] == digits[1..] + rest;
      DigitPrefixOf(digits[1..], rest);
      assert digits == [digits[0]] + digits[1..];
    } else {
      assert digits + rest == rest;
    }
  }

  /** `Stoi` yields a number only for strings that read as numerals. */
  lemma StoiOnlyOfNumerals(s: string) returns (spaces: string, sign: string, digits: string, rest: string)
    requires Stoi(s).Some?
    ensures Reads(s, spaces, sign, digits, rest)
  {
    spaces := SpacePrefix(s);
    var t := SplitOff(s, spaces);
    sign := SignOf(t);
    var number := SplitOff(t, sign);
    digits := DigitPrefix(number);
    rest := NoDigitFollows(number);
  }

  lemma SplitOff(s: string, prefix: string) returns (rest: string)
    requires prefix <= s
    ensures rest == s[|prefix|..] && s == prefix + rest
  {
    rest := s[|prefix|..];
  }

  lemma NoDigitFollows(number: string) returns (rest: string)
    ensures rest == number[|DigitPrefix(number)|..] && number == DigitPrefix(number) + rest
    ensures rest == [] || !IsDigit(rest[0])
  {
    rest := SplitOff(number, DigitPrefix(number));
  }

  /** Every `int` survives being printed and read back. */
  lemma StoiOfDecimal(n: int32)
    ensures Stoi(Decimal(n)) == Some(n)
  {
    var value: int := n;
    var abs := if value < 0 then -value else value;
    var sign := if n < 0 then "-" else "";
    var digits := Digits(abs);
    ValueOfDigits(abs);
    assert digits + [] == digits && sign + digits == Decimal(n) && [] + Decimal(n) == Decimal(n);
    StoiOfNumeral(Decimal(n), [], sign, digits, []);
  }
}
