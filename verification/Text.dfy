/** White space, and hexadecimal and decimal numbers, as the standard library's `trim`, `from_str_radix` and
    `to_string` see them. */
module Text {
  import opened Digests

  /** The Unicode property White_Space. */
  predicate IsWhitespace(c: char) {
    var n := c as int;
    || 0x9 <= n <= 0xD || n in {0x20, 0x85, 0xA0, 0x1680, 0x2028, 0x2029, 0x202F, 0x205F, 0x3000}
    || 0x2000 <= n <= 0x200A
  }

  predicate IsBlank(text: string) {
    forall c | c in text :: IsWhitespace(c)
  }

  function TrimStart(text: string): string {
    if text != [] && IsWhitespace(text[0]) then TrimStart(text[1..]) else text
  }

  function TrimEnd(text: string): string {
    if text != [] && IsWhitespace(text[|text| - 1]) then TrimEnd(text[..|text| - 1]) else text
  }

  function Trim(text: string): string {
    TrimEnd(TrimStart(text))
  }

  /** The text before the first separator, or all of it. */
  function Before(text: string, separator: char): string {
    if text == [] || text[0] == separator then [] else [text[0]] + Before(text[1..], separator)
  }

  // ------------------------------------------------------------------ hexadecimal

  function HexValue(c: char): (r: Option<nat>)
    ensures r.Some? ==> r.value < 16
  {
    if '0' <= c <= '9' then Some(c as int - '0' as int)
    else if 'a' <= c <= 'f' then Some(c as int - 'a' as int + 10)
    else if 'A' <= c <= 'F' then Some(c as int - 'A' as int + 10)
    else None
  }

  function HexDigit(v: int): char
    requires 0 <= v < 16
  {
    if v < 10 then '0' + v as char else 'a' + (v - 10) as char
  }

  lemma HexDigitValue(v: int)
    requires 0 <= v < 16
    ensures HexValue(HexDigit(v)) == Some(v) && !IsWhitespace(HexDigit(v)) && HexDigit(v) != ';' && HexDigit(v) != '+'
    ensures '0' <= HexDigit(v) <= 'f'
  {
  }

  function ParseDigits(text: string): Option<nat> {
    if text == [] then Some(0)
    else
      match (ParseDigits(text[..|text| - 1]), HexValue(text[|text| - 1]))
      case (Some(high), Some(low)) => Some(high * 16 + low)
      case _ => None
  }

  /** `from_str_radix(text, 16)` for an unsigned type with `bound` values: one leading plus sign is
      allowed, at least one digit is needed, and the value must fit. */
  function ParseHex(text: string, bound: nat): (r: Option<nat>)
    ensures r.Some? ==> r.value < bound
  {
    var digits := if text != [] && text[0] == '+' then text[1..] else text;
    if digits == [] then None
    else
      match ParseDigits(digits)
      case None => None
      case Some(n) => if n < bound then Some(n) else None
  }

  /** Lower-case hexadecimal without leading zeros. */
  function HexText(n: nat): (s: string)
    ensures |s| >= 1
  {
    if n < 16 then [HexDigit(n)] else HexText(n / 16) + [HexDigit(n % 16)]
  }

  predicate HexOnly(text: string) {
    forall c | c in text :: HexValue(c).Some? && !IsWhitespace(c) && c != ';' && c != '+' && c as int < 128
  }

  lemma {:induction false} HexTextParses(n: nat)
    ensures ParseDigits(HexText(n)) == Some(n) && HexOnly(HexText(n))
  {
    HexDigitValue(n % 16);
    if n < 16 {
      assert HexText(n)[..0] == [];
    } else {
      HexTextParses(n / 16);
      assert HexText(n)[..|HexText(n)| - 1] == HexText(n / 16);
    }
  }

  lemma HexTextRoundTrip(n: nat, bound: nat)
    requires n < bound
    ensures ParseHex(HexText(n), bound) == Some(n)
  {
    HexTextParses(n);
    assert HexText(n)[0] in HexText(n);
  }

  /** Trimming takes nothing before the last character that is no white space. */
  lemma {:induction false} TrimEndKeeps(a: string, b: string)
    requires a != [] && !IsWhitespace(a[|a| - 1])
    ensures a <= TrimEnd(a + b) <= a + b
    decreases |b|
  {
    hide IsWhitespace;
    if b == [] {
      assert a + b == a;
    } else if IsWhitespace(b[|b| - 1]) {
      var init := b[..|b| - 1];
      assert (a + b)[..|a + b| - 1] == a + init;
      TrimEndKeeps(a, init);
      assert a + init <= a + b;
    }
  }

  lemma {:induction false} TrimStartDrops(blank: string, text: string)
    requires IsBlank(blank) && text != [] && !IsWhitespace(text[0])
    ensures TrimStart(blank + text) == text
  {
    hide IsWhitespace;
    if blank == [] {
      assert blank + text == text;
    } else {
      assert (blank + text)[1..] == blank[1..] + text;
      TrimStartDrops(blank[1..], text);
    }
  }

  lemma {:induction false} TrimEndDrops(text: string, blank: string)
    requires IsBlank(blank) && text != [] && !IsWhitespace(text[|text| - 1])
    ensures TrimEnd(text + blank) == text
    decreases |blank|
  {
    hide IsWhitespace;
    if blank == [] {
      assert text + blank == text;
    } else {
      var init := blank[..|blank| - 1];
      assert (text + blank)[..|text + blank| - 1] == text + init;
      TrimEndDrops(text, init);
    }
  }

  lemma {:induction false} BeforeSeparator(a: string, rest: string, separator: char)
    requires separator !in a && (rest == [] || rest[0] == separator)
    ensures Before(a + rest, separator) == a
  {
    if a == [] {
      assert a + rest == rest;
    } else {
      assert (a + rest)[1..] == a[1..] + rest;
      BeforeSeparator(a[1..], rest, separator);
    }
  }

  // ------------------------------------------------------------------ decimal numbers

  predicate IsDigit(c: char) {
    '0' <= c <= '9'
  }

  function Decimal(n: nat): (s: string)
    ensures |s| >= 1 && forall i | 0 <= i < |s| :: IsDigit(s[i])
  {
    if n < 10 then ['0' + n as char] else Decimal(n / 10) + ['0' + (n % 10) as char]
  }

  /** The number made up by `n` and the digits in front, and the rest of the text. */
  function TakeDigits(s: string, n: nat): (nat, string) {
    if s == [] || !IsDigit(s[0]) then (n, s) else TakeDigits(s[1..], n * 10 + (s[0] as int - '0' as int))
  }

  function TakeNumber(s: string): Option<(nat, string)> {
    if s == [] || !IsDigit(s[0]) then None else Some(TakeDigits(s, 0))
  }

  lemma {:induction false} TakeDecimal(n: nat, rest: string)
    ensures TakeDigits(Decimal(n) + rest, 0) == TakeDigits(rest, n)
    decreases n
  {
    if n < 10 {
      assert (Decimal(n) + rest)[1..] == rest;
    } else {
      var last := ['0' + (n % 10) as char];
      TakeDecimal(n / 10, last + rest);
      assert Decimal(n) + rest == Decimal(n / 10) + (last + rest);
      assert (last + rest)[1..] == rest;
    }
  }

  /** A number is read back up to the first character that is no digit. */
  lemma TakeNumberBack(n: nat, rest: string)
    requires rest == [] || !IsDigit(rest[0])
    ensures TakeNumber(Decimal(n) + rest) == Some((n, rest))
  {
    TakeDecimal(n, rest);
  }

  // ------------------------------------------------------------------ what is accepted as a number

  lemma {:induction false} ParseDigitsAccepts(text: string)
    ensures ParseDigits(text).Some? <==> forall i | 0 <= i < |text| :: HexValue(text[i]).Some?
  {
    if text != [] {
      var init := text[..|text| - 1];
      ParseDigitsAccepts(init);
      assert forall i | 0 <= i < |init| :: init[i] == text[i];
    }
  }

  /** A number is one plus sign or none, at least one digit, capital or not, and below the bound. */
  lemma ParseHexAccepts(digits: string, bound: nat)
    requires digits == [] || digits[0] != '+'
    ensures ParseHex(digits, bound).Some?
            <==> && digits != [] && (forall i | 0 <= i < |digits| :: HexValue(digits[i]).Some?)
                 && ParseDigits(digits).Some? && ParseDigits(digits).value < bound
    ensures ParseHex("+" + digits, bound) == ParseHex(digits, bound)
  {
    ParseDigitsAccepts(digits);
    assert ("+" + digits)[1..] == digits;
  }

  /** Leading zeros do not count. */
  lemma {:induction false} LeadingZero(text: string)
    ensures ParseDigits("0" + text) == ParseDigits(text)
  {
    if text == [] {
      assert "0" + text == "0" && "0"[..0] == "";
    } else {
      var init := text[..|text| - 1];
      assert ("0" + text)[..|text|] == "0" + init;
      LeadingZero(init);
    }
  }
}
