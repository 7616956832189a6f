/** Numbers as text: the decimal and 0x-prefixed forms the client prints, and the parser that reads both. */
module Numbers {
  import opened Wrappers

  function DigitChar(d: nat): char
    requires d < 16
  {
    "0123456789abcdef"[d]
  }

  function DigitValue(c: char): Option<nat> {
    if '0' <= c <= '9' then Some(c as int - '0' as int)
    else if 'a' <= c <= 'f' then Some(c as int - 'a' as int + 10)
    else if 'A' <= c <= 'F' then Some(c as int - 'A' as int + 10)
    else None
  }

  predicate IsDigit(c: char, base: nat) {
    DigitValue(c).Some? && DigitValue(c).value < base
  }

  predicate AllDigits(s: string, base: nat) {
    forall i :: 0 <= i < |s| ==> IsDigit(s[i], base)
  }

  function Value(s: string, base: nat): nat
    requires AllDigits(s, base)
  {
    if s == [] then 0 else Value(s[..|s| - 1], base) * base + DigitValue(s[|s| - 1]).value
  }

  /** The digits of n, lower case, without leading zeros. */
  function Digits(n: nat, base: nat): string
    requires 2 <= base <= 16
  {
    if n < base then [DigitChar(n)] else Digits(n / base, base) + [DigitChar(n % base)]
  }

  lemma DigitRoundTrip(d: nat, base: nat)
    requires d < base <= 16
    ensures IsDigit(DigitChar(d), base) && DigitValue(DigitChar(d)) == Some(d)
  {
  }

  lemma AppendDigit(s: string, c: char, base: nat)
    requires AllDigits(s, base) && IsDigit(c, base)
    ensures AllDigits(s + [c], base) && Value(s + [c], base) == Value(s, base) * base + DigitValue(c).value
  {
    assert (s + [c])[..|s|] == s;
  }

  lemma {:induction false} DigitsRoundTrip(n: nat, base: nat)
    requires 2 <= base <= 16
    ensures |Digits(n, base)| > 0 && AllDigits(Digits(n, base), base) && Value(Digits(n, base), base) == n
    decreases n
  {
    hide AllDigits, Value, IsDigit, DigitValue, DigitChar;
    Quotient(n, base);
    DigitRoundTrip(n % base, base);
    if n < base {
      NoDigits(base);
      AppendDigit([], DigitChar(n), base);
      assert [] + [DigitChar(n)] == Digits(n, base);
    } else {
      DigitsRoundTrip(n / base, base);
      AppendDigit(Digits(n / base, base), DigitChar(n % base), base);
    }
  }

  lemma Quotient(n: nat, base: nat)
    requires base > 0
    ensures n / base * base + n % base == n && n % base < base && n / base >= 0
    ensures n < base ==> n % base == n
  {
  }

  lemma NoDigits(base: nat)
    ensures AllDigits([], base) && Value([], base) == 0
  {
  }

  /** A sign, then at least one digit of the base. */
  function SetString(s: string, base: nat): Option<int> {
    var negative := s != [] && s[0] == '-';
    var digits := if s != [] && (s[0] == '-' || s[0] == '+') then s[1..] else s;
    if digits == [] || !AllDigits(digits, base) then None
    else Some(if negative then 0 - Value(digits, base) else Value(digits, base))
  }

  predicate IsSpace(c: char) {
    c in " \t\n\r" || c as int in {0x0B, 0x0C, 0x85, 0xA0}
  }

  function TrimSpace(s: string): string {
    if s == [] then s
    else if IsSpace(s[0]) then TrimSpace(s[1..])
    else if IsSpace(s[|s| - 1]) then TrimSpace(s[..|s| - 1])
    else s
  }

  predicate HasHexPrefix(s: string) {
    |s| >= 2 && s[0] == '0' && (s[1] == 'x' || s[1] == 'X')
  }

  function ParseBigInt(text: string): Option<int> {
    var s := TrimSpace(text);
    if HasHexPrefix(s) && SetString(s[2..], 16).Some? then SetString(s[2..], 16) else SetString(s, 10)
  }

  function Text(n: int, base: nat): string
    requires 2 <= base <= 16
  {
    if n < 0 then "-" + Digits(-n, base) else Digits(n, base)
  }

  /** 0x and the hexadecimal text, padded by one zero to an even length. */
  function ToBeHex(n: int): string {
    var s := Text(n, 16);
    "0x" + (if |s| % 2 == 1 then "0" + s else s)
  }

  lemma LeadingZero(s: string, base: nat)
    requires 2 <= base <= 16 && AllDigits(s, base)
    ensures AllDigits("0" + s, base) && Value("0" + s, base) == Value(s, base)
    decreases |s|
  {
    if s == [] {
      assert ("0" + s)[..0] == [];
    } else {
      LeadingZero(s[..|s| - 1], base);
      assert ("0" + s)[..|s|] == "0" + s[..|s| - 1];
      assert ("0" + s)[|s|] == s[|s| - 1];
    }
  }

  lemma DigitIsNotSpace(c: char)
    requires IsDigit(c, 16)
    ensures !IsSpace(c)
  {
  }

  lemma LastIsDigit(body: string, d: string)
    requires |d| > 0 && AllDigits(d, 16) && |d| <= |body| && body[|body| - |d|..] == d
    ensures !IsSpace(body[|body| - 1])
  {
    assert body[|body| - 1] == d[|d| - 1];
    DigitIsNotSpace(d[|d| - 1]);
  }

  /** After the 0x prefix only hexadecimal is read: the decimal reading fails at the x. */
  lemma ParsePrefixed(body: string)
    requires |body| > 0 && !IsSpace(body[|body| - 1])
    ensures ParseBigInt("0x" + body) == SetString(body, 16)
  {
    hide Value;
    var t := "0x" + body;
    assert t[|t| - 1] == body[|body| - 1];
    assert TrimSpace(t) == t;
    assert t[2..] == body;
    assert !IsDigit(t[1], 10);
  }

  lemma SetPlain(d: string, base: nat)
    requires |d| > 0 && AllDigits(d, base)
    ensures SetString(d, base) == Some(Value(d, base))
  {
    hide Value;
    assert IsDigit(d[0], base);
  }

  lemma SetNegative(d: string)
    requires |d| > 0 && AllDigits(d, 16)
    ensures SetString("-" + d, 16) == Some(0 - Value(d, 16))
  {
    hide Value, AllDigits, IsDigit;
    var s := "-" + d;
    assert s[0] == '-' && s[1..] == d;
    assert SetString(s, 16) == Some(0 - Value(s[1..], 16));
  }

  lemma SetBroken(d: string)
    ensures SetString("0-" + d, 16) == None
  {
    hide Value;
    assert !IsDigit(("0-" + d)[1], 16);
  }

  /** The even-length hexadecimal form reads back exactly for non-negative numbers and for negative ones with an odd number of digits. */
  lemma ToBeHexRoundTripIff(n: int)
    ensures ParseBigInt(ToBeHex(n)) == Some(n) <==> n >= 0 || |Digits(-n, 16)| % 2 == 1
  {
    hide Digits, Value, ParseBigInt, SetString;
    var m: nat := if n < 0 then -n else n;
    var d := Digits(m, 16);
    DigitsRoundTrip(m, 16);
    LeadingZero(d, 16);
    SetPlain(d, 16);
    SetPlain("0" + d, 16);
    SetNegative(d);
    SetBroken(d);
    var body := ToBeHex(n)[2..];
    assert "0x" + body == ToBeHex(n);
    assert body == (if n >= 0 then (if |d| % 2 == 1 then "0" + d else d) else if |d| % 2 == 1 then "-" + d else "0-" + d) by {
      assert |"-" + d| == |d| + 1 && "0" + ("-" + d) == "0-" + d;
    }
    LastIsDigit(body, d);
    ParsePrefixed(body);
  }

  /** Decimal text of any sign reads back. */
  lemma DecimalRoundTrip(n: int)
    ensures ParseBigInt(Text(n, 10)) == Some(n)
  {
    hide Digits, Value, AllDigits;
    var m: nat := if n < 0 then -n else n;
    var d := Digits(m, 10);
    DigitsRoundTrip(m, 10);
    DigitAt(d, 0, 10);
    DigitAt(d, |d| - 1, 10);
    if |d| >= 2 { DigitAt(d, 1, 10); }
    var s := Text(n, 10);
    assert s[|s| - 1] == d[|d| - 1];
    assert TrimSpace(s) == s;
    if n < 0 { assert s[1..] == d; }
  }

  lemma DigitAt(d: string, i: nat, base: nat)
    requires i < |d| && AllDigits(d, base) && base <= 16
    ensures IsDigit(d[i], base) && !IsSpace(d[i])
  {
    DigitIsNotSpace(d[i]);
  }
}
